/** The container format of kernel modules: the builder's writer and the kernel's reader. */
module Cext {
  import opened Memory
  import opened Bytes

  const MAGIC: seq<byte> := [0x4D, 0x43, 0x45, 0x58]
  const FIXED: nat := 32

  datatype Module = Module(name: seq<byte>, deps: seq<seq<byte>>, version: nat, elf: seq<byte>)

  /** Little-endian numbers of a given width. */
  type Codec = (nat, nat) -> seq<byte>

  function Le(): Codec { (v, n) => ToLe(v, n) }

  /** Numbers that fit are read back. */
  ghost predicate Reads(le: Codec) {
    forall v: nat, n: nat :: |le(v, n)| == n && (v < Pow256(n) ==> FromLe(le(v, n)) == v)
  }

  lemma LeIsRead()
    ensures Reads(Le())
  {
    forall v: nat, n: nat ensures |Le()(v, n)| == n && (v < Pow256(n) ==> FromLe(Le()(v, n)) == v) { LeReads(v, n); }
  }

  lemma LeReads(v: nat, n: nat)
    ensures |Le()(v, n)| == n && (v < Pow256(n) ==> FromLe(Le()(v, n)) == v)
  {
    if v < Pow256(n) { FromToLe(v, n); }
  }

  lemma LeWrites(bs: seq<byte>)
    ensures FromLe(bs) < Pow256(|bs|) && Le()(FromLe(bs), |bs|) == bs
  {
    ToFromLe(bs);
  }

  // ---- writing ----

  /** The dependency list, each name behind its length. */
  function Deps(le: Codec, ds: seq<seq<byte>>): seq<byte> {
    if ds == [] then [] else Deps(le, ds[..|ds| - 1]) + le(|ds[|ds| - 1]|, 2) + ds[|ds| - 1]
  }

  /** The fixed part of the header. */
  function Head(le: Codec, version: nat, nameLen: nat, depCount: nat, headerSize: nat, elfSize: nat): seq<byte> {
    MAGIC + le(1, 2) + le(version, 2) + le(nameLen, 2) + le(depCount, 2) + le(headerSize, 4) + le(elfSize, 8) + le(0, 8)
  }

  function HeaderSize(le: Codec, m: Module): nat { FIXED + |m.name| + |Deps(le, m.deps)| }

  predicate Accepted(le: Codec, m: Module) {
    && |m.name| < 0x1_0000 && (forall i :: 0 <= i < |m.deps| ==> |m.deps[i]| < 0x1_0000)
    && HeaderSize(le, m) < 0x1_0000_0000
  }

  /** The file of a module. The dependency count is cut to 16 bits. */
  function File(le: Codec, m: Module): seq<byte> {
    Head(le, m.version, |m.name|, |m.deps| % 0x1_0000, HeaderSize(le, m), |m.elf|) + m.name + Deps(le, m.deps) + m.elf
  }

  // ---- the fixed header ----

  ghost predicate HeadIs(le: Codec, bs: seq<byte>, version: nat, nameLen: nat, depCount: nat, headerSize: nat,
                         elfSize: nat) {
    && |bs| >= FIXED && bs[0..4] == MAGIC && bs[4..6] == le(1, 2) && bs[6..8] == le(version, 2)
    && bs[8..10] == le(nameLen, 2) && bs[10..12] == le(depCount, 2)
    && bs[12..16] == le(headerSize, 4) && bs[16..24] == le(elfSize, 8)
  }

  lemma HeadSlices(le: Codec, version: nat, nameLen: nat, depCount: nat, headerSize: nat, elfSize: nat, rest: seq<byte>)
    requires Reads(le)
    ensures var h := Head(le, version, nameLen, depCount, headerSize, elfSize);
            |h| == FIXED && HeadIs(le, h + rest, version, nameLen, depCount, headerSize, elfSize)
  {
    var tail := le(depCount, 2) + le(headerSize, 4) + le(elfSize, 8) + le(0, 8);
    var head := MAGIC + le(1, 2) + le(version, 2) + le(nameLen, 2);
    var h := Head(le, version, nameLen, depCount, headerSize, elfSize);
    Regroup(head, le(depCount, 2), le(headerSize, 4), le(elfSize, 8), le(0, 8), rest);
    FourParts([], MAGIC, le(1, 2), le(version, 2), le(nameLen, 2), tail + rest);
    FourParts(head, le(depCount, 2), le(headerSize, 4), le(elfSize, 8), le(0, 8), rest);
  }

  lemma Regroup(h: seq<byte>, a: seq<byte>, b: seq<byte>, c: seq<byte>, d: seq<byte>, rest: seq<byte>)
    ensures h + a + b + c + d + rest == h + (a + b + c + d + rest)
      && h + (a + b + c + d + rest) == h + (a + b + c + d) + rest
    ensures h + (a + b + c + d + rest) == h + ((a + b + c + d) + rest)
  {
  }

  /** Where four pieces in a row lie. */
  lemma FourParts(h: seq<byte>, a: seq<byte>, b: seq<byte>, c: seq<byte>, d: seq<byte>, rest: seq<byte>)
    ensures var s, i := h + (a + b + c + d + rest), |h|;
            && |s| >= i + |a| + |b| + |c| + |d| && s[i..i + |a|] == a && s[i + |a|..i + |a| + |b|] == b
            && s[i + |a| + |b|..i + |a| + |b| + |c|] == c && s[i + |a| + |b| + |c|..i + |a| + |b| + |c| + |d|] == d
  {
  }

  // ---- reading ----

  datatype Header = Header(version: nat, nameLen: nat, depCount: nat, headerSize: nat, elfSize: nat)

  function ParseHeader(bs: seq<byte>): Option<Header> {
    if |bs| < FIXED || bs[0..4] != MAGIC || Read(bs, 4, 2) != Some(1) then None else
    var h := Header(Read(bs, 6, 2).value, Read(bs, 8, 2).value, Read(bs, 10, 2).value, Read(bs, 12, 4).value,
                    Read(bs, 16, 8).value);
    if h.headerSize < FIXED then None else Some(h)
  }

  function Slice(bs: seq<byte>, from: nat, n: nat): Option<seq<byte>> {
    if from + n <= |bs| then Some(bs[from..from + n]) else None
  }

  /** One dependency: its name and the place behind it. */
  function ParseDep(bs: seq<byte>, isName: NameTest, c: nat): Option<(seq<byte>, nat)> {
    match Read(bs, c, 2)
    case None => None
    case Some(n) =>
      var d := Slice(bs, c + 2, n);
      if d.None? || !isName(d.value) then None else Some((d.value, c + 2 + n))
  }

  function ParseDeps(bs: seq<byte>, isName: NameTest, c: nat, n: nat): Option<(seq<seq<byte>>, nat)> {
    if n == 0 then Some(([], c)) else
    match ParseDeps(bs, isName, c, n - 1)
    case None => None
    case Some((ds, e)) =>
      match ParseDep(bs, isName, e)
      case None => None
      case Some((d, e')) => Some((ds + [d], e'))
  }

  /** What the kernel makes of a file. */
  function Parse(bs: seq<byte>, isName: NameTest): Option<Module> {
    var h := ParseHeader(bs);
    if h.None? then None else ParseBody(bs, isName, h.value)
  }

  function ParseBody(bs: seq<byte>, isName: NameTest, h: Header): Option<Module> {
    var name, deps := Slice(bs, FIXED, h.nameLen), ParseDeps(bs, isName, FIXED + h.nameLen, h.depCount);
    if h.headerSize > |bs| || name.None? || !isName(name.value) || deps.None? then None
    else if deps.value.1 != h.headerSize || h.headerSize + h.elfSize > |bs| then None
    else Some(Module(name.value, deps.value.0, h.version, bs[h.headerSize..h.headerSize + h.elfSize]))
  }

  method ParseCext(bs: seq<byte>, isName: NameTest) returns (r: Option<Module>)
    ensures r == Parse(bs, isName)
  {
    var h := ParseHeader(bs);
    if h.None? {
      return None;
    }
    r := ReadBody(bs, isName, h.value);
  }

  method ReadBody(bs: seq<byte>, isName: NameTest, h: Header) returns (r: Option<Module>)
    ensures r == ParseBody(bs, isName, h)
  {
    if h.headerSize > |bs| {
      return None;
    }
    var name := Slice(bs, FIXED, h.nameLen);
    if name.None? || !isName(name.value) {
      return None;
    }
    var deps := ReadDeps(bs, isName, FIXED + h.nameLen, h.depCount);
    if deps.None? || deps.value.1 != h.headerSize || h.headerSize + h.elfSize > |bs| {
      return None;
    }
    return Some(Module(name.value, deps.value.0, h.version, bs[h.headerSize..h.headerSize + h.elfSize]));
  }

  method ReadDeps(bs: seq<byte>, isName: NameTest, from: nat, n: nat) returns (r: Option<(seq<seq<byte>>, nat)>)
    ensures r == ParseDeps(bs, isName, from, n)
  {
    var deps: seq<seq<byte>>, cursor: nat := [], from;
    for i := 0 to n
      invariant ParseDeps(bs, isName, from, i) == Some((deps, cursor))
    {
      var d := ParseDep(bs, isName, cursor);
      if d.None? {
        NoLaterDeps(bs, isName, from, i + 1, n);
        return None;
      }
      deps, cursor := deps + [d.value.0], d.value.1;
    }
    return Some((deps, cursor));
  }

  lemma {:induction false} NoLaterDeps(bs: seq<byte>, isName: NameTest, c: nat, i: nat, n: nat)
    requires i <= n && ParseDeps(bs, isName, c, i).None?
    ensures ParseDeps(bs, isName, c, n).None?
    decreases n
  {
    if i < n {
      NoLaterDeps(bs, isName, c, i, n - 1);
    }
  }

  method BuildCext(m: Module) returns (r: Option<seq<byte>>)
    ensures r.Some? <==> Accepted(Le(), m)
    ensures r.Some? ==> r.value == File(Le(), m)
    ensures r.Some? && m.version < 0x1_0000 && |m.elf| < 0x1_0000_0000_0000_0000 ==> Layout(m, r.value)
  {
    r := WriteCext(m, Le());
    if r.Some? && m.version < 0x1_0000 && |m.elf| < 0x1_0000_0000_0000_0000 {
      LeIsRead();
      FileLayout(Le(), m, r.value);
    }
  }

  // ---- the layout, byte by byte ----

  /** A file of the module: "MCEX", format 1, version, length of the name, number of dependencies cut
      to 16 bits, size of the header, size of the ELF image, eight reserved bytes, and from byte 32
      on the name, the dependencies, each after its length, and the image. */
  ghost predicate Layout(m: Module, bs: seq<byte>) {
    && |bs| >= 32 && bs[0..4] == [0x4D, 0x43, 0x45, 0x58]
    && FromLe(bs[4..6]) == 1 && FromLe(bs[6..8]) == m.version && FromLe(bs[8..10]) == |m.name|
    && FromLe(bs[10..12]) == |m.deps| % 0x1_0000 && FromLe(bs[16..24]) == |m.elf|
    && var size := FromLe(bs[12..16]);
       && size <= |bs| && bs[size..] == m.elf
       && 32 + |m.name| <= |bs| && bs[32..32 + |m.name|] == m.name
       && DepsFrom(m.deps, bs, 32 + |m.name|, size)
  }

  ghost predicate DepsFrom(ds: seq<seq<byte>>, bs: seq<byte>, at: nat, end: nat)
    decreases |ds|
  {
    if ds == [] then at == end else
    var d := ds[0];
    && at + 2 + |d| <= |bs| && FromLe(bs[at..at + 2]) == |d| && bs[at + 2..at + 2 + |d|] == d
    && DepsFrom(ds[1..], bs, at + 2 + |d|, end)
  }

  lemma {:induction false} DepsFront(le: Codec, ds: seq<seq<byte>>)
    requires ds != []
    ensures Deps(le, ds) == (le(|ds[0]|, 2) + ds[0]) + Deps(le, ds[1..])
    decreases |ds|
  {
    var n := |ds| - 1;
    if n > 0 {
      var tail := ds[1..];
      DepsFront(le, ds[..n]);
      assert ds[..n][1..] == tail[..n - 1] && tail[n - 1] == ds[n];
      var x, y, z := le(|ds[0]|, 2) + ds[0], Deps(le, tail[..n - 1]), le(|ds[n]|, 2);
      assert (x + y) + z + ds[n] == x + (y + z + ds[n]);
    } else {
      assert ds[..0] == [] && ds[1..] == [];
    }
  }

  lemma {:induction false} DepsLaid(le: Codec, bs: seq<byte>, c: nat, ds: seq<seq<byte>>, e: nat)
    requires Reads(le) && At(bs, c, Deps(le, ds)) && e == c + |Deps(le, ds)|
    requires forall i :: 0 <= i < |ds| ==> |ds[i]| < 0x1_0000
    ensures DepsFrom(ds, bs, c, e)
    decreases |ds|
  {
    if ds != [] {
      var d, tail := ds[0], Deps(le, ds[1..]);
      var item := le(|d|, 2) + d;
      DepsFront(le, ds);
      AtPart(bs, c, item, tail);
      AtPart(bs, c, le(|d|, 2), d);
      Widths();
      DepsLaid(le, bs, c + 2 + |d|, ds[1..], e);
    }
  }

  lemma FileLayout(le: Codec, m: Module, bs: seq<byte>)
    requires Reads(le) && Accepted(le, m) && m.version < 0x1_0000 && |m.elf| < 0x1_0000_0000_0000_0000
    requires bs == File(le, m)
    ensures Layout(m, bs)
  {
    FileParts(le, m);
    HeadIsRead(le, bs, m.version, |m.name|, |m.deps| % 0x1_0000, HeaderSize(le, m), |m.elf|);
    DepsLaid(le, bs, FIXED + |m.name|, m.deps, HeaderSize(le, m));
    EndsWith(bs, HeaderSize(le, m), m.elf);
  }

  lemma EndsWith(bs: seq<byte>, at: nat, s: seq<byte>)
    requires At(bs, at, s) && at + |s| == |bs|
    ensures bs[at..] == s
  {
  }

  lemma HeadIsRead(le: Codec, bs: seq<byte>, version: nat, nameLen: nat, depCount: nat, headerSize: nat, elfSize: nat)
    requires Reads(le) && HeadIs(le, bs, version, nameLen, depCount, headerSize, elfSize)
    requires version < 0x1_0000 && nameLen < 0x1_0000 && depCount < 0x1_0000 && headerSize < 0x1_0000_0000
    requires elfSize < 0x1_0000_0000_0000_0000
    ensures |bs| >= 32 && bs[0..4] == [0x4D, 0x43, 0x45, 0x58] && FromLe(bs[4..6]) == 1
    ensures FromLe(bs[6..8]) == version && FromLe(bs[8..10]) == nameLen && FromLe(bs[10..12]) == depCount
    ensures FromLe(bs[12..16]) == headerSize && FromLe(bs[16..24]) == elfSize
  {
    Widths();
  }

  method WriteCext(m: Module, le: Codec) returns (r: Option<seq<byte>>)
    ensures r.Some? <==> Accepted(le, m)
    ensures r.Some? ==> r.value == File(le, m)
  {
    if |m.name| > 0xFFFF {
      return None;
    }
    var metadata: seq<byte> := [];
    for i := 0 to |m.deps|
      invariant metadata == Deps(le, m.deps[..i]) && forall j :: 0 <= j < i ==> |m.deps[j]| < 0x1_0000
    {
      if |m.deps[i]| > 0xFFFF {
        return None;
      }
      assert m.deps[..i + 1][..i] == m.deps[..i];
      metadata := metadata + le(|m.deps[i]|, 2) + m.deps[i];
    }
    assert m.deps[..|m.deps|] == m.deps;
    var headerSize := FIXED + |m.name| + |metadata|;
    if headerSize >= 0x1_0000_0000 {
      return None;
    }
    return Some(Head(le, m.version, |m.name|, |m.deps| % 0x1_0000, headerSize, |m.elf|) + m.name + metadata + m.elf);
  }

  // ---- reading what was written ----

  lemma {:induction false} DepsPrefix(le: Codec, ds: seq<seq<byte>>, k: nat)
    requires Reads(le) && k <= |ds|
    ensures |Deps(le, ds)| >= |Deps(le, ds[..k])| + 2 * (|ds| - k)
    ensures Deps(le, ds)[..|Deps(le, ds[..k])|] == Deps(le, ds[..k])
    decreases |ds|
  {
    if k == |ds| {
      assert ds[..k] == ds;
    } else {
      var n := |ds| - 1;
      DepsPrefix(le, ds[..n], k);
      assert ds[..n][..k] == ds[..k];
    }
  }

  ghost predicate At(bs: seq<byte>, from: nat, s: seq<byte>) {
    from + |s| <= |bs| && bs[from..from + |s|] == s
  }

  lemma AtPart(bs: seq<byte>, from: nat, a: seq<byte>, b: seq<byte>)
    requires At(bs, from, a + b)
    ensures At(bs, from, a) && At(bs, from + |a|, b)
  {
    var t := bs[from..from + |a + b|];
    assert t[..|a|] == a && t[|a|..] == b;
  }

  lemma DepRead(le: Codec, bs: seq<byte>, isName: NameTest, c: nat, d: seq<byte>)
    requires Reads(le) && At(bs, c, le(|d|, 2) + d) && isName(d) && |d| < 0x1_0000
    ensures ParseDep(bs, isName, c) == Some((d, c + 2 + |d|))
  {
    Widths();
    AtPart(bs, c, le(|d|, 2), d);
  }

  /** A list that lies in the file is read back. */
  lemma {:induction false} DepsRead(le: Codec, bs: seq<byte>, isName: NameTest, c: nat, ds: seq<seq<byte>>, e: nat)
    requires Reads(le) && At(bs, c, Deps(le, ds)) && e == c + |Deps(le, ds)|
    requires forall i :: 0 <= i < |ds| ==> isName(ds[i]) && |ds[i]| < 0x1_0000
    ensures ParseDeps(bs, isName, c, |ds|) == Some((ds, e))
    decreases |ds|
  {
    if ds != [] {
      var n := |ds| - 1;
      var init, d := ds[..n], ds[n];
      var before, item := Deps(le, init), le(|d|, 2) + d;
      var mid := c + |before|;
      assert ds == init + [d];
      DepsLast(le, init, d);
      AtPart(bs, c, before, item);
      assert e == mid + 2 + |d|;
      DepsRead(le, bs, isName, c, init, mid);
      NextDepRead(le, bs, isName, c, init, mid, d);
    }
  }

  lemma NextDepRead(le: Codec, bs: seq<byte>, isName: NameTest, c: nat, init: seq<seq<byte>>, mid: nat, d: seq<byte>)
    requires Reads(le) && ParseDeps(bs, isName, c, |init|) == Some((init, mid))
    requires At(bs, mid, le(|d|, 2) + d) && isName(d) && |d| < 0x1_0000
    ensures ParseDeps(bs, isName, c, |init| + 1) == Some((init + [d], mid + 2 + |d|))
  {
    DepRead(le, bs, isName, mid, d);
    DepsSnoc(bs, isName, c, |init| + 1, init, mid, d);
  }

  lemma DepsLast(le: Codec, ds: seq<seq<byte>>, d: seq<byte>)
    ensures Deps(le, ds + [d]) == Deps(le, ds) + (le(|d|, 2) + d)
  {
  }

  lemma DepsSnoc(bs: seq<byte>, isName: NameTest, c: nat, k: nat, ds: seq<seq<byte>>, e: nat, d: seq<byte>)
    requires k > 0 && ParseDeps(bs, isName, c, k - 1) == Some((ds, e))
      && ParseDep(bs, isName, e) == Some((d, e + 2 + |d|))
    ensures ParseDeps(bs, isName, c, k) == Some((ds + [d], e + 2 + |d|))
  {
  }

  /** The first `k` dependencies of a longer list. */
  lemma SomeDepsRead(le: Codec, bs: seq<byte>, isName: NameTest, c: nat, ds: seq<seq<byte>>, k: nat, e: nat)
    requires Reads(le) && k <= |ds| && At(bs, c, Deps(le, ds)) && e == c + |Deps(le, ds[..k])|
    requires forall i :: 0 <= i < |ds| ==> isName(ds[i]) && |ds[i]| < 0x1_0000
    ensures ParseDeps(bs, isName, c, k) == Some((ds[..k], e))
  {
    DepsPrefix(le, ds, k);
    var part, all := Deps(le, ds[..k]), Deps(le, ds);
    assert all == part + all[|part|..];
    AtPart(bs, c, part, all[|part|..]);
    DepsRead(le, bs, isName, c, ds[..k], e);
  }

  /** The four parts of a file. */
  lemma FileParts(le: Codec, m: Module)
    requires Reads(le)
    ensures var bs := File(le, m);
            && |bs| == HeaderSize(le, m) + |m.elf|
            && HeadIs(le, bs, m.version, |m.name|, |m.deps| % 0x1_0000, HeaderSize(le, m), |m.elf|)
            && At(bs, FIXED, m.name) && At(bs, FIXED + |m.name|, Deps(le, m.deps)) && At(bs, HeaderSize(le, m), m.elf)
  {
    var h := Head(le, m.version, |m.name|, |m.deps| % 0x1_0000, HeaderSize(le, m), |m.elf|);
    var deps := Deps(le, m.deps);
    HeadSlices(le, m.version, |m.name|, |m.deps| % 0x1_0000, HeaderSize(le, m), |m.elf|, m.name + deps + m.elf);
    ThreeParts(h, m.name, deps, m.elf);
  }

  lemma ThreeParts(h: seq<byte>, a: seq<byte>, b: seq<byte>, c: seq<byte>)
    ensures var s := h + a + b + c;
            && s == h + (a + b + c) && |s| == |h| + |a| + |b| + |c|
            && At(s, |h|, a) && At(s, |h| + |a|, b) && At(s, |h| + |a| + |b|, c)
  {
  }

  /** The fixed fields are read back. */
  lemma HeadRead(le: Codec, bs: seq<byte>, version: nat, nameLen: nat, depCount: nat, headerSize: nat, elfSize: nat)
    requires Reads(le) && HeadIs(le, bs, version, nameLen, depCount, headerSize, elfSize) && headerSize >= FIXED
    requires version < 0x1_0000 && nameLen < 0x1_0000 && depCount < 0x1_0000 && headerSize < 0x1_0000_0000
    requires elfSize < 0x1_0000_0000_0000_0000
    ensures ParseHeader(bs) == Some(Header(version, nameLen, depCount, headerSize, elfSize))
  {
  }

  /** What the parts of a file amount to. */
  lemma Assembled(bs: seq<byte>, isName: NameTest, h: Header, name: seq<byte>, deps: seq<seq<byte>>, end: nat,
                  elf: seq<byte>)
    requires ParseHeader(bs) == Some(h) && At(bs, FIXED, name) && |name| == h.nameLen && isName(name)
    requires ParseDeps(bs, isName, FIXED + h.nameLen, h.depCount) == Some((deps, end))
    requires At(bs, h.headerSize, elf) && |elf| == h.elfSize
    ensures Parse(bs, isName) == if end == h.headerSize then Some(Module(name, deps, h.version, elf)) else None
  {
  }

  /** Reading undoes writing, if and only if the dependency count fits its 16 bits. */
  lemma ParseUndoesBuild(le: Codec, m: Module, isName: NameTest)
    requires Reads(le) && Accepted(le, m) && m.version < 0x1_0000 && |m.elf| < 0x1_0000_0000_0000_0000
    requires isName(m.name) && forall i :: 0 <= i < |m.deps| ==> isName(m.deps[i])
    ensures Parse(File(le, m), isName) == if |m.deps| < 0x1_0000 then Some(m) else None
  {
    FileParts(le, m);
    ParseParts(le, m, File(le, m), isName, |m.deps| % 0x1_0000);
  }

  lemma ParseParts(le: Codec, m: Module, bs: seq<byte>, isName: NameTest, k: nat)
    requires Reads(le) && Accepted(le, m) && m.version < 0x1_0000 && |m.elf| < 0x1_0000_0000_0000_0000
    requires isName(m.name) && forall i :: 0 <= i < |m.deps| ==> isName(m.deps[i])
    requires HeadIs(le, bs, m.version, |m.name|, k, HeaderSize(le, m), |m.elf|) && k == |m.deps| % 0x1_0000
    requires At(bs, FIXED, m.name) && At(bs, FIXED + |m.name|, Deps(le, m.deps)) && At(bs, HeaderSize(le, m), m.elf)
    ensures Parse(bs, isName) == if |m.deps| < 0x1_0000 then Some(m) else None
  {
    HeadRead(le, bs, m.version, |m.name|, k, HeaderSize(le, m), |m.elf|);
    var end := FIXED + |m.name| + |Deps(le, m.deps[..k])|;
    SomeDepsRead(le, bs, isName, FIXED + |m.name|, m.deps, k, end);
    Assembled(bs, isName, Header(m.version, |m.name|, k, HeaderSize(le, m), |m.elf|), m.name, m.deps[..k], end, m.elf);
    CountMatters(le, m, k, end);
  }

  /** The list read ends where the header says exactly if no dependency was cut off. */
  lemma CountMatters(le: Codec, m: Module, k: nat, end: nat)
    requires Reads(le) && k == |m.deps| % 0x1_0000 && end == FIXED + |m.name| + |Deps(le, m.deps[..k])|
    ensures end == HeaderSize(le, m) <==> |m.deps| < 0x1_0000
    ensures |m.deps| < 0x1_0000 ==> m.deps[..k] == m.deps
  {
    DepsPrefix(le, m.deps, k);
    if |m.deps| < 0x1_0000 {
      assert m.deps[..k] == m.deps;
    }
  }

  // ---- writing what was read ----

  lemma FieldWritten(le: Codec, bs: seq<byte>, off: nat, n: nat)
    requires le == Le() && off + n <= |bs|
    ensures FromLe(bs[off..off + n]) < Pow256(n) && le(FromLe(bs[off..off + n]), n) == bs[off..off + n]
  {
    LeWrites(bs[off..off + n]);
  }

  lemma DepWritten(le: Codec, bs: seq<byte>, isName: NameTest, c: nat)
    requires le == Le() && ParseDep(bs, isName, c).Some?
    ensures var (d, e) := ParseDep(bs, isName, c).value;
            |d| < 0x1_0000 && isName(d) && e == c + 2 + |d| && At(bs, c, le(|d|, 2) + d) && |le(|d|, 2)| == 2
  {
    FieldWritten(le, bs, c, 2);
    Widths();
    var (d, e) := ParseDep(bs, isName, c).value;
    assert bs[c..c + 2] + bs[c + 2..e] == bs[c..e];
  }

  lemma AtJoin(bs: seq<byte>, from: nat, a: seq<byte>, b: seq<byte>)
    requires At(bs, from, a) && At(bs, from + |a|, b)
    ensures At(bs, from, a + b)
  {
  }

  /** The dependencies that were read are those the bytes spell. */
  lemma {:induction false} DepsWritten(le: Codec, bs: seq<byte>, isName: NameTest, c: nat, n: nat, ds: seq<seq<byte>>,
                                       e: nat)
    requires le == Le() && c <= |bs| && ParseDeps(bs, isName, c, n) == Some((ds, e))
    ensures |ds| == n && At(bs, c, Deps(le, ds)) && e == c + |Deps(le, ds)|
    ensures forall i :: 0 <= i < |ds| ==> isName(ds[i]) && |ds[i]| < 0x1_0000
    decreases n
  {
    if n > 0 {
      var last := n - 1;
      var (init, mid) := ParseDeps(bs, isName, c, last).value;
      var d := ParseDep(bs, isName, mid).value.0;
      DepsWritten(le, bs, isName, c, last, init, mid);
      NextDepWritten(le, bs, isName, c, init, mid, d, e);
    }
  }

  lemma NextDepWritten(le: Codec, bs: seq<byte>, isName: NameTest, c: nat, init: seq<seq<byte>>, mid: nat, d: seq<byte>,
                       e: nat)
    requires le == Le() && At(bs, c, Deps(le, init)) && mid == c + |Deps(le, init)|
    requires ParseDep(bs, isName, mid) == Some((d, e))
    ensures At(bs, c, Deps(le, init + [d])) && e == c + |Deps(le, init + [d])| && isName(d) && |d| < 0x1_0000
  {
    DepWritten(le, bs, isName, mid);
    AtJoin(bs, c, Deps(le, init), le(|d|, 2) + d);
    DepsLast(le, init, d);
  }

  /** The header fields of an accepted file, spelled again. */
  lemma HeadWritten(le: Codec, bs: seq<byte>)
    requires le == Le() && ParseHeader(bs).Some?
    ensures var h := ParseHeader(bs).value;
            && HeadIs(le, bs, h.version, h.nameLen, h.depCount, h.headerSize, h.elfSize)
            && h.version < 0x1_0000 && h.nameLen < 0x1_0000 && h.depCount < 0x1_0000 && h.headerSize < 0x1_0000_0000
  {
    Widths();
    FieldWritten(le, bs, 4, 2);
    FieldWritten(le, bs, 6, 2);
    FieldWritten(le, bs, 8, 2);
    FieldWritten(le, bs, 10, 2);
    FieldWritten(le, bs, 12, 4);
    FieldWritten(le, bs, 16, 8);
  }

  /** Two files with the same fixed fields differ in the reserved bytes at most. */
  lemma SameHead(le: Codec, a: seq<byte>, b: seq<byte>, h: Header)
    requires HeadIs(le, a, h.version, h.nameLen, h.depCount, h.headerSize, h.elfSize)
    requires HeadIs(le, b, h.version, h.nameLen, h.depCount, h.headerSize, h.elfSize)
    ensures a[..24] == b[..24]
  {
  }

  lemma SameTail(a: seq<byte>, b: seq<byte>, x: seq<byte>, y: seq<byte>, z: seq<byte>)
    requires At(a, FIXED, x) && At(a, FIXED + |x|, y) && At(a, FIXED + |x| + |y|, z)
    requires At(b, FIXED, x) && At(b, FIXED + |x|, y) && At(b, FIXED + |x| + |y|, z)
    ensures var end := FIXED + |x| + |y| + |z|; end <= |a| && end <= |b| && a[FIXED..end] == b[FIXED..end]
  {
    AtJoin(a, FIXED, x, y);
    AtJoin(a, FIXED, x + y, z);
    AtJoin(b, FIXED, x, y);
    AtJoin(b, FIXED, x + y, z);
  }

  /** Writing undoes reading: a module that was read is accepted by the builder, and its file
      is the part of the input that was read, apart from the eight reserved bytes. */
  lemma BuildUndoesParse(le: Codec, bs: seq<byte>, isName: NameTest, m: Module, out: seq<byte>)
    requires le == Le() && Parse(bs, isName) == Some(m) && out == File(le, m)
    ensures Accepted(le, m) && |m.deps| < 0x1_0000
    ensures |out| <= |bs| && out[..24] == bs[..24] && out[FIXED..] == bs[FIXED..|out|]
  {
    var h := ParseHeader(bs).value;
    Taken(bs, isName, m, h);
    HeadWritten(le, bs);
    DepsWritten(le, bs, isName, FIXED + h.nameLen, h.depCount, m.deps, h.headerSize);
    Respelled(le, bs, m, out, h);
  }

  /** What a successful read has taken from the bytes. */
  lemma Taken(bs: seq<byte>, isName: NameTest, m: Module, h: Header)
    requires ParseBody(bs, isName, h) == Some(m)
    ensures At(bs, FIXED, m.name) && At(bs, h.headerSize, m.elf)
    ensures m.version == h.version && |m.name| == h.nameLen && |m.elf| == h.elfSize
    ensures FIXED + h.nameLen <= |bs|
    ensures ParseDeps(bs, isName, FIXED + h.nameLen, h.depCount) == Some((m.deps, h.headerSize))
  {
    BodyRead(bs, isName, m, h, FIXED + h.nameLen, ParseDeps(bs, isName, FIXED + h.nameLen, h.depCount));
    SliceAt(bs, FIXED, h.nameLen, m.name);
    SliceAt(bs, h.headerSize, h.elfSize, m.elf);
  }

  lemma BodyRead(bs: seq<byte>, isName: NameTest, m: Module, h: Header, c: nat, deps: Option<(seq<seq<byte>>, nat)>)
    requires ParseBody(bs, isName, h) == Some(m)
    requires c == FIXED + h.nameLen && deps == ParseDeps(bs, isName, c, h.depCount)
    ensures m.version == h.version && deps == Some((m.deps, h.headerSize))
    ensures Slice(bs, FIXED, h.nameLen) == Some(m.name) && Slice(bs, h.headerSize, h.elfSize) == Some(m.elf)
  {
  }

  lemma SliceAt(bs: seq<byte>, from: nat, n: nat, s: seq<byte>)
    requires Slice(bs, from, n) == Some(s)
    ensures |s| == n && from + n <= |bs| && At(bs, from, s)
  {
  }

  lemma Respelled(le: Codec, bs: seq<byte>, m: Module, out: seq<byte>, h: Header)
    requires le == Le() && out == File(le, m) && |m.deps| < 0x1_0000
    requires h == Header(m.version, |m.name|, |m.deps|, HeaderSize(le, m), |m.elf|)
    requires HeadIs(le, bs, h.version, h.nameLen, h.depCount, h.headerSize, h.elfSize)
    requires At(bs, FIXED, m.name) && At(bs, FIXED + |m.name|, Deps(le, m.deps)) && At(bs, HeaderSize(le, m), m.elf)
    ensures |out| <= |bs| && out[..24] == bs[..24] && out[FIXED..] == bs[FIXED..|out|]
  {
    LeIsRead();
    FileParts(le, m);
    var deps := Deps(le, m.deps);
    SameHead(le, out, bs, h);
    SameTail(out, bs, m.name, deps, m.elf);
  }
}
