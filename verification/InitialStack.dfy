/** The stack page a new program starts with. */
module InitialStack {
  import opened Memory
  import opened Bytes

  const PAGE: nat := 4096
  const AT_RANDOM: nat := 25
  const AT_EXECFN: nat := 31

  // ---- building blocks ----

  /** Strings in a row, each with a terminator. */
  function Block(ss: seq<seq<byte>>): seq<byte> {
    if ss == [] then [] else Block(ss[..|ss| - 1]) + ss[|ss| - 1] + [0]
  }

  /** Words in a row. */
  function Encode(code: WordCode, ws: seq<nat>): seq<byte> {
    if ws == [] then [] else Encode(code, ws[..|ws| - 1]) + code(ws[|ws| - 1])
  }

  lemma {:induction false} EncodeLength(code: WordCode, ws: seq<nat>)
    requires Reads64(code)
    ensures |Encode(code, ws)| == 8 * |ws|
    decreases |ws|
  {
    if ws != [] {
      EncodeLength(code, ws[..|ws| - 1]);
    }
  }

  lemma {:induction false} BlockAt(ss: seq<seq<byte>>, i: nat)
    requires i < |ss|
    ensures var off := |Block(ss[..i])|;
            off + |ss[i]| + 1 <= |Block(ss)| && Block(ss)[off..off + |ss[i]| + 1] == ss[i] + [0]
    decreases |ss|
  {
    var n := |ss| - 1;
    assert Block(ss) == Block(ss[..n]) + (ss[n] + [0]);
    if i < n {
      BlockAt(ss[..n], i);
      assert ss[..n][..i] == ss[..i];
      var off := |Block(ss[..i])|;
      assert Block(ss)[off..off + |ss[i]| + 1] == Block(ss[..n])[off..off + |ss[i]| + 1];
    }
  }

  lemma {:induction false} EncodeAt(code: WordCode, ws: seq<nat>, i: nat)
    requires Reads64(code) && i < |ws|
    ensures |Encode(code, ws)| == 8 * |ws|
    ensures Encode(code, ws)[8 * i..8 * i + 8] == code(ws[i])
    decreases |ws|
  {
    EncodeLength(code, ws);
    EncodeLength(code, ws[..|ws| - 1]);
    if i < |ws| - 1 {
      EncodeAt(code, ws[..|ws| - 1], i);
    }
  }

  // ---- reading a program's start stack ----

  /** `n` bytes of memory at address `a`, the page starting at `base`. */
  function Peek(page: seq<byte>, base: nat, a: nat, n: nat): Option<seq<byte>> {
    if base <= a && a + n <= base + |page| then Some(page[a - base..a - base + n]) else None
  }

  function WordAt(page: seq<byte>, base: nat, a: nat): Option<nat> {
    match Peek(page, base, a, 8)
    case None => None
    case Some(bs) => Some(FromLe(bs))
  }

  /** The string that starts at address `a`. */
  function StringAt(page: seq<byte>, base: nat, a: nat): Option<seq<byte>>
    decreases base + |page| - a
  {
    if a < base || a >= base + |page| then None
    else if page[a - base] == 0 then Some([])
    else
      match StringAt(page, base, a + 1)
      case None => None
      case Some(s) => Some([page[a - base]] + s)
  }

  /** Memory as words, below an upper limit. */
  type WordReader = nat -> Option<nat>

  ghost predicate Below(word: WordReader, limit: nat) {
    forall a: nat :: word(a).Some? ==> a < limit
  }

  type StringReader = nat -> Option<seq<byte>>

  /** A null-terminated array of pointers, and the address behind it. */
  function PointersAt(word: WordReader, limit: nat, a: nat): Option<(seq<nat>, nat)>
    decreases limit - a
  {
    if a >= limit || word(a).None? then None
    else if word(a).value == 0 then Some(([], a + 8))
    else
      match PointersAt(word, limit, a + 8)
      case None => None
      case Some((ps, end)) => Some(([word(a).value] + ps, end))
  }

  /** The auxiliary vector up to its terminator. */
  function AuxAt(word: WordReader, limit: nat, a: nat): Option<seq<(nat, nat)>>
    decreases limit - a
  {
    if a >= limit || word(a).None? then None
    else if word(a).value == 0 then Some([])
    else if word(a + 8).None? then None
    else
      match AuxAt(word, limit, a + 16)
      case None => None
      case Some(rest) => Some([(word(a).value, word(a + 8).value)] + rest)
  }

  function StringsAt(str: StringReader, ps: seq<nat>): Option<seq<seq<byte>>> {
    if ps == [] then Some([]) else
    match StringsAt(str, ps[..|ps| - 1])
    case None => None
    case Some(ss) =>
      match str(ps[|ps| - 1])
      case None => None
      case Some(s) => Some(ss + [s])
  }

  /** What a program finds: argument count, arguments, environment, auxiliary vector. */
  datatype Start = Start(argc: nat, argv: seq<seq<byte>>, envp: seq<seq<byte>>, aux: seq<(nat, nat)>)

  /** Reads the stack as the ABI lays it out. */
  function Decode(word: WordReader, str: StringReader, limit: nat, rsp: nat): Option<Start> {
    var args := PointersAt(word, limit, rsp + 8);
    if word(rsp).None? || args.None? then None else
    var envs := PointersAt(word, limit, args.value.1);
    if envs.None? then None else
    var aux := AuxAt(word, limit, envs.value.1);
    var argv, envp := StringsAt(str, args.value.0), StringsAt(str, envs.value.0);
    if aux.None? || argv.None? || envp.None? then None
    else Some(Start(word(rsp).value, argv.value, envp.value, aux.value))
  }

  function PageWords(page: seq<byte>, base: nat): WordReader { a => WordAt(page, base, a) }

  function PageStrings(page: seq<byte>, base: nat): StringReader { a => StringAt(page, base, a) }

  // ---- the builder ----

  /** Where the pointers of a list point, its strings starting at `at`. */
  function PointersTo(ss: seq<seq<byte>>, at: nat): (ps: seq<nat>)
    ensures |ps| == |ss|
  {
    if ss == [] then [] else PointersTo(ss[..|ss| - 1], at) + [at + |Block(ss[..|ss| - 1])|]
  }

  lemma {:induction false} PointersToAt(ss: seq<seq<byte>>, at: nat, i: nat)
    requires i < |ss|
    ensures PointersTo(ss, at)[i] == at + |Block(ss[..i])|
    decreases |ss|
  {
    var n := |ss| - 1;
    if i < n {
      PointersToAt(ss[..n], at, i);
      assert ss[..n][..i] == ss[..i];
    }
  }

  /** Everything the builder is given; `end` is where the stack ends, a page boundary. */
  datatype Input = Input(argv: seq<seq<byte>>, envp: seq<seq<byte>>, execfn: seq<byte>, aux: seq<(u64, u64)>,
                         random: seq<byte>, end: nat)

  function AreaSize(p: Input): nat {
    |Block(p.argv)| + |Block(p.envp)| + |p.random| + |p.execfn| + 1
  }

  /** How many bytes the data takes before padding. */
  function Needed(p: Input): nat {
    AreaSize(p) + 8 * (3 + |p.argv| + |p.envp| + 2 * |p.aux|)
  }

  function Padding(n: nat): nat { (16 - n % 16) % 16 }

  /** Padding rounds up to a multiple of 16, which 4096 is. */
  lemma PaddingRounds(n: nat)
    ensures (n + Padding(n)) % 16 == 0 && (n + Padding(n) > PAGE <==> n > PAGE)
  {
  }

  /** The auxiliary vector with the two pointers filled in. */
  function Resolved(aux: seq<(u64, u64)>, random: nat, execfn: nat): (r: seq<(nat, nat)>)
    ensures |r| == |aux|
    ensures forall i :: 0 <= i < |aux| ==> r[i] == ResolvedEntry(aux[i], random, execfn)
  {
    if aux == [] then [] else
    Resolved(aux[..|aux| - 1], random, execfn) + [ResolvedEntry(aux[|aux| - 1], random, execfn)]
  }

  function ResolvedEntry(e: (u64, u64), random: nat, execfn: nat): (nat, nat) {
    (e.0, if e.0 == AT_RANDOM then random else if e.0 == AT_EXECFN then execfn else e.1)
  }

  function Flat(aux: seq<(nat, nat)>): (ws: seq<nat>)
    ensures |ws| == 2 * |aux|
  {
    if aux == [] then [] else Flat(aux[..|aux| - 1]) + [aux[|aux| - 1].0, aux[|aux| - 1].1]
  }

  /** The words of a start stack: count, arguments, environment, auxiliary vector. */
  function Arrays(n: nat, args: seq<nat>, envs: seq<nat>, aux: seq<nat>): (ws: seq<nat>)
    ensures |ws| == 3 + |args| + |envs| + |aux|
  {
    [n] + args + [0] + envs + [0] + aux
  }

  /** Where the strings of a stack are; the area starts at `at`. */
  datatype Plan = Plan(at: nat, envAt: nat, random: nat, execfn: nat)

  function PlanOf(p: Input): Plan
    requires AreaSize(p) <= p.end
  {
    var at := p.end - AreaSize(p);
    var a, e := |Block(p.argv)|, |Block(p.envp)|;
    Plan(at, at + a, at + a + e, at + a + e + |p.random|)
  }

  /** The address of the page below the end of the stack. */
  function PageBase(p: Input): nat
    requires PAGE <= p.end
  {
    p.end - PAGE
  }

  function Words(p: Input, q: Plan): (ws: seq<nat>)
    ensures |ws| == 3 + |p.argv| + |p.envp| + 2 * |p.aux|
  {
    Arrays(|p.argv|, PointersTo(p.argv, q.at), PointersTo(p.envp, q.envAt), Flat(Resolved(p.aux, q.random, q.execfn)))
  }

  datatype Stack = Stack(rsp: nat, page: seq<byte>)

  ghost predicate SliceIs(page: seq<byte>, from: int, s: seq<byte>) {
    0 <= from && from + |s| <= |page| && page[from..from + |s|] == s
  }

  /** The strings lie where the plan says, in a page that starts at `base`. */
  ghost predicate HasStrings(p: Input, q: Plan, base: nat, page: seq<byte>) {
    && base <= q.at <= q.envAt <= q.random <= q.execfn
    && SliceIs(page, q.at - base, Block(p.argv)) && SliceIs(page, q.envAt - base, Block(p.envp))
    && SliceIs(page, q.random - base, p.random) && SliceIs(page, q.execfn - base, p.execfn + [0])
  }

  // ---- what the page holds ----

  ghost predicate Stored(word: WordReader, a: nat, ws: seq<nat>) {
    forall i :: 0 <= i < |ws| ==> word(a + 8 * i) == Some(ws[i])
  }

  lemma WordsStored(code: WordCode, page: seq<byte>, base: nat, from: nat, a: nat, ws: seq<nat>, word: WordReader)
    requires Reads64(code) && (forall i :: 0 <= i < |ws| ==> ws[i] < U64_LIMIT) && word == PageWords(page, base)
    requires SliceIs(page, from, Encode(code, ws)) && a == base + from
    ensures Stored(word, a, ws)
  {
    forall i | 0 <= i < |ws| ensures word(a + 8 * i) == Some(ws[i]) {
      var step := 8 * i;
      WordStored(code, page, base, from, ws, i, step, a + step);
    }
  }

  lemma WordStored(code: WordCode, page: seq<byte>, base: nat, from: nat, ws: seq<nat>, i: nat, step: nat, at: nat)
    requires Reads64(code) && i < |ws| && ws[i] < U64_LIMIT && SliceIs(page, from, Encode(code, ws))
    requires step == 8 * i && at == base + from + step
    ensures WordAt(page, base, at) == Some(ws[i])
  {
    var all, bs := Encode(code, ws), code(ws[i]);
    EncodeAt(code, ws, i);
    OneWord(page, base, from, all, step, bs, at, from + step);
  }

  lemma OneWord(page: seq<byte>, base: nat, from: nat, all: seq<byte>, i: nat, bs: seq<byte>, a: nat, off: nat)
    requires SliceIs(page, from, all) && i + 8 <= |all| && all[i..i + 8] == bs && |bs| == 8
    requires off == from + i && a == base + off
    ensures WordAt(page, base, a) == Some(FromLe(bs))
  {
    Within(page, from, |all|, i, 8);
    WordIs(page, base, a, off, bs, FromLe(bs));
  }

  lemma WordIs(page: seq<byte>, base: nat, a: nat, from: nat, bs: seq<byte>, w: nat)
    requires a == base + from && |bs| == 8 && from + 8 <= |page| && page[from..from + 8] == bs && FromLe(bs) == w
    ensures WordAt(page, base, a) == Some(w)
  {
  }

  predicate NulFree(s: seq<byte>) { 0 !in s }

  lemma {:induction false} StringRead(page: seq<byte>, base: nat, a: nat, s: seq<byte>)
    requires base <= a && a + |s| + 1 <= base + |page| && NulFree(s)
    requires page[a - base..a - base + |s| + 1] == s + [0]
    ensures StringAt(page, base, a) == Some(s)
    decreases |s|
  {
    var cut := page[a - base..a - base + |s| + 1];
    assert cut[0] == page[a - base];
    if s != [] {
      assert cut[1..] == page[a + 1 - base..a + 1 - base + |s[1..]| + 1];
      assert cut[1..] == s[1..] + [0];
      StringRead(page, base, a + 1, s[1..]);
      assert [s[0]] + s[1..] == s;
    }
  }

  lemma {:induction false} PointersRead(word: WordReader, limit: nat, a: nat, ps: seq<nat>)
    requires Stored(word, a, ps + [0]) && Below(word, limit) && 0 !in ps
    ensures PointersAt(word, limit, a) == Some((ps, a + 8 * |ps| + 8))
    decreases |ps|
  {
    var ws := ps + [0];
    assert ws[0] == if ps == [] then 0 else ps[0];
    FirstStored(word, a, ws);
    if ps != [] {
      forall i | 0 <= i < |ps| ensures word(a + 8 + 8 * i) == Some((ps[1..] + [0])[i]) {
        assert word(a + 8 * (i + 1)) == Some(ws[i + 1]);
      }
      PointersRead(word, limit, a + 8, ps[1..]);
      assert [ps[0]] + ps[1..] == ps;
    }
  }

  lemma {:induction false} FlatAt(aux: seq<(nat, nat)>, i: nat)
    requires i < |aux|
    ensures Flat(aux)[2 * i] == aux[i].0 && Flat(aux)[2 * i + 1] == aux[i].1
    decreases |aux|
  {
    if i < |aux| - 1 {
      FlatAt(aux[..|aux| - 1], i);
    }
  }

  /** The vector is read up to its first zero key. */
  lemma {:induction false} AuxRead(word: WordReader, limit: nat, a: nat, aux: seq<(nat, nat)>, k: nat, i: nat, at: nat)
    requires Stored(word, a, Flat(aux)) && Below(word, limit) && i <= k < |aux| && aux[k].0 == 0 && at == a + 16 * i
    requires forall j :: 0 <= j < k ==> aux[j].0 != 0
    ensures AuxAt(word, limit, at) == Some(aux[i..k])
    decreases k - i
  {
    FlatAt(aux, i);
    assert word(a + 8 * (2 * i)) == Some(Flat(aux)[2 * i]);
    if i == k {
      assert aux[i..k] == [];
    } else {
      assert word(a + 8 * (2 * i + 1)) == Some(Flat(aux)[2 * i + 1]);
      AuxRead(word, limit, a, aux, k, i + 1, at + 16);
      assert aux[i..k] == [aux[i]] + aux[i + 1..k];
    }
  }

  /** A run of the stored words. */
  lemma StoredPart(word: WordReader, a: nat, x: seq<nat>, ws: seq<nat>, y: seq<nat>, at: nat)
    requires Stored(word, a, x + ws + y) && at == a + 8 * |x|
    ensures Stored(word, at, ws)
  {
    forall i | 0 <= i < |ws| ensures word(at + 8 * i) == Some(ws[i]) {
      var j := |x| + i;
      assert (x + ws + y)[j] == ws[i];
      assert word(a + 8 * j) == Some((x + ws + y)[j]);
    }
  }

  lemma Within(page: seq<byte>, from: nat, len: nat, off: nat, n: nat)
    requires from + len <= |page| && off + n <= len
    ensures page[from..from + len][off..off + n] == page[from + off..from + off + n]
  {
    var whole, part := page[from..from + len], page[from + off..from + off + n];
    forall k | 0 <= k < n ensures whole[off..off + n][k] == part[k] {
      assert whole[off + k] == page[from + (off + k)];
    }
  }

  /** Strings are read back through their pointers. */
  lemma {:induction false} StringsRead(str: StringReader, ps: seq<nat>, ss: seq<seq<byte>>)
    requires |ps| == |ss| && forall i :: 0 <= i < |ss| ==> str(ps[i]) == Some(ss[i])
    ensures StringsAt(str, ps) == Some(ss)
    decreases |ss|
  {
    if ss != [] {
      var n := |ss| - 1;
      StringsRead(str, ps[..n], ss[..n]);
      assert ss == ss[..n] + [ss[n]];
    }
  }

  lemma OneString(page: seq<byte>, base: nat, at: nat, ss: seq<seq<byte>>, i: nat)
    requires base <= at && SliceIs(page, at - base, Block(ss)) && i < |ss| && NulFree(ss[i])
    ensures StringAt(page, base, at + |Block(ss[..i])|) == Some(ss[i])
  {
    var off := |Block(ss[..i])|;
    BlockAt(ss, i);
    Within(page, at - base, |Block(ss)|, off, |ss[i]| + 1);
    StringRead(page, base, at + off, ss[i]);
  }

  /** A list whose strings lie in the page is read back. */
  lemma ListRead(page: seq<byte>, base: nat, at: nat, ss: seq<seq<byte>>, str: StringReader)
    requires base <= at && SliceIs(page, at - base, Block(ss)) && str == PageStrings(page, base)
    requires forall i :: 0 <= i < |ss| ==> NulFree(ss[i])
    ensures StringsAt(str, PointersTo(ss, at)) == Some(ss)
  {
    var ps := PointersTo(ss, at);
    forall i | 0 <= i < |ss| ensures str(ps[i]) == Some(ss[i]) {
      PointersToAt(ss, at, i);
      OneString(page, base, at, ss, i);
    }
    StringsRead(str, ps, ss);
  }

  // ---- reading it back ----

  lemma {:induction false} BlockPrefix(ss: seq<seq<byte>>, i: nat)
    requires i <= |ss|
    ensures |Block(ss[..i])| <= |Block(ss)|
    decreases |ss|
  {
    if i == |ss| {
      assert ss[..i] == ss;
    } else {
      var n := |ss| - 1;
      BlockPrefix(ss[..n], i);
      assert ss[..n][..i] == ss[..i];
    }
  }

  lemma PointersBounded(ss: seq<seq<byte>>, at: nat, bound: nat)
    requires 0 < at && at + |Block(ss)| <= bound
    ensures forall i :: 0 <= i < |ss| ==> 0 < PointersTo(ss, at)[i] <= bound
  {
    forall i | 0 <= i < |ss| ensures 0 < PointersTo(ss, at)[i] <= bound {
      PointersToAt(ss, at, i);
      BlockPrefix(ss, i);
    }
  }

  lemma {:induction false} FlatBounded(aux: seq<(nat, nat)>, bound: nat)
    requires forall i :: 0 <= i < |aux| ==> aux[i].0 < bound && aux[i].1 < bound
    ensures forall i :: 0 <= i < |Flat(aux)| ==> Flat(aux)[i] < bound
    decreases |aux|
  {
    if aux != [] {
      FlatBounded(aux[..|aux| - 1], bound);
    }
  }

  lemma ArraysSplit(n: nat, args: seq<nat>, envs: seq<nat>, aux: seq<nat>)
    ensures Arrays(n, args, envs, aux)[0] == n
    ensures Arrays(n, args, envs, aux) == [n] + (args + [0]) + (envs + [0] + aux)
    ensures Arrays(n, args, envs, aux) == ([n] + args + [0]) + (envs + [0]) + aux
    ensures Arrays(n, args, envs, aux) == ([n] + args + [0] + envs + [0]) + aux + []
  {
  }

  lemma FirstStored(word: WordReader, a: nat, ws: seq<nat>)
    requires Stored(word, a, ws) && ws != []
    ensures word(a) == Some(ws[0])
  {
  }

  lemma ArgsRead(word: WordReader, limit: nat, rsp: nat, n: nat, args: seq<nat>, envs: seq<nat>, aux: seq<nat>, a: nat)
    requires Stored(word, rsp, Arrays(n, args, envs, aux)) && Below(word, limit) && 0 !in args
      && a == rsp + 8 + 8 * |args| + 8
    ensures PointersAt(word, limit, rsp + 8) == Some((args, a))
  {
    ArraysSplit(n, args, envs, aux);
    StoredPart(word, rsp, [n], args + [0], envs + [0] + aux, rsp + 8);
    PointersRead(word, limit, rsp + 8, args);
  }

  lemma EnvsRead(word: WordReader, limit: nat, rsp: nat, n: nat, args: seq<nat>, envs: seq<nat>, aux: seq<nat>,
                 a: nat, b: nat)
    requires Stored(word, rsp, Arrays(n, args, envs, aux)) && Below(word, limit) && 0 !in envs
    requires a == rsp + 8 + 8 * |args| + 8 && b == a + 8 * |envs| + 8
    ensures PointersAt(word, limit, a) == Some((envs, b))
  {
    ArraysSplit(n, args, envs, aux);
    StoredPart(word, rsp, [n] + args + [0], envs + [0], aux, a);
    PointersRead(word, limit, a, envs);
  }

  lemma AuxArrayRead(word: WordReader, limit: nat, rsp: nat, n: nat, args: seq<nat>, envs: seq<nat>,
                     aux: seq<(nat, nat)>, k: nat, b: nat)
    requires Stored(word, rsp, Arrays(n, args, envs, Flat(aux))) && Below(word, limit)
    requires k < |aux| && aux[k].0 == 0 && forall i :: 0 <= i < k ==> aux[i].0 != 0
    requires b == rsp + 8 + 8 * |args| + 8 + 8 * |envs| + 8
    ensures AuxAt(word, limit, b) == Some(aux[..k])
  {
    ArraysSplit(n, args, envs, Flat(aux));
    StoredPart(word, rsp, [n] + args + [0] + envs + [0], Flat(aux), [], b);
    AuxRead(word, limit, b, aux, k, 0, b);
    assert aux[0..k] == aux[..k];
  }

  /** Decoding finds the arrays that were stored and the strings they point to. */
  lemma ArraysDecoded(word: WordReader, str: StringReader, limit: nat, rsp: nat, n: nat, args: seq<nat>, envs: seq<nat>,
                      aux: seq<(nat, nat)>, k: nat, argv: seq<seq<byte>>, envp: seq<seq<byte>>)
    requires Stored(word, rsp, Arrays(n, args, envs, Flat(aux))) && Below(word, limit) && 0 !in args && 0 !in envs
    requires k < |aux| && aux[k].0 == 0 && forall i :: 0 <= i < k ==> aux[i].0 != 0
    requires StringsAt(str, args) == Some(argv) && StringsAt(str, envs) == Some(envp)
    ensures Decode(word, str, limit, rsp) == Some(Start(n, argv, envp, aux[..k]))
  {
    var a := rsp + 8 + 8 * |args| + 8;
    var b := a + 8 * |envs| + 8;
    ArraysSplit(n, args, envs, Flat(aux));
    FirstStored(word, rsp, Arrays(n, args, envs, Flat(aux)));
    ArgsRead(word, limit, rsp, n, args, envs, Flat(aux), a);
    EnvsRead(word, limit, rsp, n, args, envs, Flat(aux), a, b);
    AuxArrayRead(word, limit, rsp, n, args, envs, aux, k, b);
  }

  /** What callers pass: NUL-free strings, and an auxiliary vector with a terminator. */
  ghost predicate Proper(p: Input, k: nat) {
    && (forall i :: 0 <= i < |p.argv| ==> NulFree(p.argv[i])) && (forall i :: 0 <= i < |p.envp| ==> NulFree(p.envp[i]))
    && NulFree(p.execfn)
    && k < |p.aux| && p.aux[k].0 == 0 && forall i :: 0 <= i < k ==> p.aux[i].0 != 0
  }

  lemma ArraysBounded(n: nat, args: seq<nat>, envs: seq<nat>, aux: seq<nat>, bound: nat)
    requires n < bound && 0 < bound && (forall i :: 0 <= i < |args| ==> args[i] < bound)
    requires (forall i :: 0 <= i < |envs| ==> envs[i] < bound) && (forall i :: 0 <= i < |aux| ==> aux[i] < bound)
    ensures forall i :: 0 <= i < |Arrays(n, args, envs, aux)| ==> Arrays(n, args, envs, aux)[i] < bound
  {
  }

  /** The plan keeps every address nonzero and below 2^64. */
  ghost predicate Sound(p: Input, q: Plan) {
    && 0 < q.at && q.at + |Block(p.argv)| < U64_LIMIT && 0 < q.envAt && q.envAt + |Block(p.envp)| < U64_LIMIT
    && q.random < U64_LIMIT && q.execfn < U64_LIMIT && |p.argv| < U64_LIMIT
  }

  lemma PlanIsSound(p: Input)
    requires Needed(p) <= PAGE <= p.end < U64_LIMIT
    ensures Sound(p, PlanOf(p))
  {
  }

  lemma WordsBounded(p: Input, q: Plan)
    requires Sound(p, q)
    ensures forall i :: 0 <= i < |Words(p, q)| ==> Words(p, q)[i] < U64_LIMIT
  {
    PointersBounded(p.argv, q.at, q.at + |Block(p.argv)|);
    PointersBounded(p.envp, q.envAt, q.envAt + |Block(p.envp)|);
    FlatBounded(Resolved(p.aux, q.random, q.execfn), U64_LIMIT);
    ArraysBounded(|p.argv|, PointersTo(p.argv, q.at), PointersTo(p.envp, q.envAt),
                  Flat(Resolved(p.aux, q.random, q.execfn)), U64_LIMIT);
  }

  /** Read through a page that was laid out for it, memory holds the words of the stack and
      behind their pointers the strings. */
  lemma LaidOut(p: Input, q: Plan, base: nat, page: seq<byte>, from: nat, rsp: nat, k: nat, code: WordCode,
                word: WordReader, str: StringReader)
    requires HasStrings(p, q, base, page) && Sound(p, q) && Proper(p, k)
    requires rsp == base + from && SliceIs(page, from, Encode(code, Words(p, q))) && code == Le64()
    requires word == PageWords(page, base) && str == PageStrings(page, base)
    ensures ReadyToDecode(p, q, word, str, base + |page|, rsp)
  {
    LaidWords(p, q, base, page, from, rsp, code, word);
    LaidStrings(p, q, base, page, k, str);
  }

  ghost predicate ReadyToDecode(p: Input, q: Plan, word: WordReader, str: StringReader, limit: nat, rsp: nat) {
    && Stored(word, rsp, Words(p, q)) && Below(word, limit)
    && StringsAt(str, PointersTo(p.argv, q.at)) == Some(p.argv)
    && StringsAt(str, PointersTo(p.envp, q.envAt)) == Some(p.envp)
  }

  /** A program started there finds its argument count, its arguments, its environment, and
      the auxiliary vector up to the terminator at `k`. */
  lemma StartIsDecoded(p: Input, q: Plan, word: WordReader, str: StringReader, limit: nat, rsp: nat, k: nat,
                       aux: seq<(nat, nat)>)
    requires Sound(p, q) && Proper(p, k) && ReadyToDecode(p, q, word, str, limit, rsp)
      && aux == Resolved(p.aux, q.random, q.execfn)
    ensures Decode(word, str, limit, rsp) == Some(Start(|p.argv|, p.argv, p.envp, aux[..k]))
  {
    NoNulls(p.argv, q.at);
    NoNulls(p.envp, q.envAt);
    ArraysDecoded(word, str, limit, rsp, |p.argv|, PointersTo(p.argv, q.at), PointersTo(p.envp, q.envAt), aux, k,
                  p.argv, p.envp);
  }

  /** The vector's two pointers lead to the random bytes and to the program's name. */
  lemma AuxiliaryBytes(p: Input, q: Plan, base: nat, page: seq<byte>)
    requires HasStrings(p, q, base, page) && NulFree(p.execfn)
    ensures AuxiliaryPoints(p, q, base, page)
  {
    StringRead(page, base, q.execfn, p.execfn);
  }

  lemma LaidWords(p: Input, q: Plan, base: nat, page: seq<byte>, from: nat, rsp: nat, code: WordCode, word: WordReader)
    requires rsp == base + from && SliceIs(page, from, Encode(code, Words(p, q))) && code == Le64()
    requires Sound(p, q) && word == PageWords(page, base)
    ensures Stored(word, rsp, Words(p, q)) && Below(word, base + |page|)
  {
    WordsBounded(p, q);
    Le64Reads();
    WordsStored(code, page, base, from, rsp, Words(p, q), word);
  }

  lemma LaidStrings(p: Input, q: Plan, base: nat, page: seq<byte>, k: nat, str: StringReader)
    requires HasStrings(p, q, base, page) && Proper(p, k) && str == PageStrings(page, base)
    ensures StringsAt(str, PointersTo(p.argv, q.at)) == Some(p.argv)
    ensures StringsAt(str, PointersTo(p.envp, q.envAt)) == Some(p.envp)
  {
    ListRead(page, base, q.at, p.argv, str);
    ListRead(page, base, q.envAt, p.envp, str);
  }

  lemma NoNulls(ss: seq<seq<byte>>, at: nat)
    requires 0 < at
    ensures 0 !in PointersTo(ss, at)
  {
    PointersBounded(ss, at, at + |Block(ss)|);
  }

  // ---- building it ----

  /** Appends strings with their terminators and notes where each starts. */
  method AppendStrings(block: seq<byte>, ss: seq<seq<byte>>) returns (r: seq<byte>, offsets: seq<nat>)
    ensures r == block + Block(ss) && offsets == PointersTo(ss, |block|)
  {
    r, offsets := block, [];
    for i := 0 to |ss|
      invariant r == block + Block(ss[..i]) && offsets == PointersTo(ss[..i], |block|)
    {
      assert ss[..i + 1][..i] == ss[..i];
      offsets := offsets + [|r|];
      r := r + ss[i] + [0];
    }
    assert ss[..|ss|] == ss;
  }

  /** Appends the pointers made from offsets. */
  method AppendPointers(page: seq<byte>, base: nat, ss: seq<seq<byte>>, offsets: seq<nat>, from: nat, code: WordCode)
    returns (r: seq<byte>)
    requires offsets == PointersTo(ss, from)
    ensures r == page + Encode(code, PointersTo(ss, base + from))
  {
    r := page;
    for i := 0 to |offsets|
      invariant r == page + Encode(code, PointersTo(ss[..i], base + from))
    {
      var w := base + offsets[i];
      PointersToAt(ss, from, i);
      PointerStep(code, ss, base + from, i, w);
      Regroup(page, Encode(code, PointersTo(ss[..i], base + from)), code(w), []);
      r := r + code(w);
    }
    assert ss[..|ss|] == ss;
  }

  lemma PointerStep(code: WordCode, ss: seq<seq<byte>>, at: nat, i: nat, w: nat)
    requires i < |ss| && w == at + |Block(ss[..i])|
    ensures Encode(code, PointersTo(ss[..i + 1], at)) == Encode(code, PointersTo(ss[..i], at)) + code(w)
  {
    assert ss[..i + 1][..i] == ss[..i];
    var ps := PointersTo(ss[..i + 1], at);
    assert ps[..i] == PointersTo(ss[..i], at) && ps[i] == w;
  }

  lemma Regroup(a: seq<byte>, b: seq<byte>, c: seq<byte>, d: seq<byte>)
    ensures a + b + c + d == a + (b + c + d) && a + b + c == a + (b + c)
  {
  }

  method AppendAux(page: seq<byte>, aux: seq<(u64, u64)>, random: nat, execfn: nat, code: WordCode)
    returns (r: seq<byte>)
    ensures r == page + Encode(code, Flat(Resolved(aux, random, execfn)))
  {
    r := page;
    for i := 0 to |aux|
      invariant r == page + Encode(code, Flat(Resolved(aux[..i], random, execfn)))
    {
      var e := ResolvedEntry(aux[i], random, execfn);
      AuxStep(code, aux, i, random, execfn, e);
      Regroup(page, Encode(code, Flat(Resolved(aux[..i], random, execfn))), code(e.0), code(e.1));
      r := r + code(e.0) + code(e.1);
    }
    assert aux[..|aux|] == aux;
  }

  lemma AuxStep(code: WordCode, aux: seq<(u64, u64)>, i: nat, random: nat, execfn: nat, e: (nat, nat))
    requires i < |aux| && e == ResolvedEntry(aux[i], random, execfn)
    ensures Encode(code, Flat(Resolved(aux[..i + 1], random, execfn))) ==
      Encode(code, Flat(Resolved(aux[..i], random, execfn))) + code(e.0) + code(e.1)
  {
    assert aux[..i + 1][..i] == aux[..i];
    EncodePair(code, Resolved(aux[..i], random, execfn), e);
  }

  lemma EncodePair(code: WordCode, aux: seq<(nat, nat)>, e: (nat, nat))
    ensures Encode(code, Flat(aux + [e])) == Encode(code, Flat(aux)) + code(e.0) + code(e.1)
  {
    assert (aux + [e])[..|aux|] == aux;
    var ws := Flat(aux);
    assert Flat(aux + [e]) == ws + [e.0, e.1];
    assert (ws + [e.0, e.1])[..|ws| + 1] == ws + [e.0] && (ws + [e.0])[..|ws|] == ws;
  }

  lemma {:induction false} EncodeConcat(code: WordCode, a: seq<nat>, b: seq<nat>)
    ensures Encode(code, a + b) == Encode(code, a) + Encode(code, b)
    decreases |b|
  {
    if b == [] {
      assert a + b == a;
    } else {
      assert (a + b)[..|a + b| - 1] == a + b[..|b| - 1];
      EncodeConcat(code, a, b[..|b| - 1]);
    }
  }

  /** Encoding array by array. */
  lemma EncodeArrays(code: WordCode, before: seq<byte>, n: nat, args: seq<nat>, envs: seq<nat>, aux: seq<nat>)
    ensures before + Encode(code, Arrays(n, args, envs, aux)) ==
      before + code(n) + Encode(code, args) + code(0) + Encode(code, envs) + code(0) + Encode(code, aux)
  {
    EncodeConcat(code, [n] + args + [0] + envs + [0], aux);
    EncodeOne(code, [n] + args + [0] + envs, 0);
    EncodeConcat(code, [n] + args + [0], envs);
    EncodeOne(code, [n] + args, 0);
    EncodeConcat(code, [n], args);
    EncodeOne(code, [], n);
    assert [] + [n] == [n] && [] + code(n) == code(n);
    Associate(before, code(n), Encode(code, args), code(0), Encode(code, envs), Encode(code, aux));
  }

  lemma Associate(a: seq<byte>, b: seq<byte>, c: seq<byte>, d: seq<byte>, e: seq<byte>, f: seq<byte>)
    ensures a + (b + c + d + e + d + f) == a + b + c + d + e + d + f
  {
  }

  lemma EncodeOne(code: WordCode, ws: seq<nat>, w: nat)
    ensures Encode(code, ws + [w]) == Encode(code, ws) + code(w)
  {
  }

  /** The page of a stack whose data fits. */
  ghost predicate Laid(p: Input, q: Plan, base: nat, from: nat, s: Stack, code: WordCode) {
    && |s.page| == PAGE && HasStrings(p, q, base, s.page)
    && s.rsp == base + from && SliceIs(s.page, from, Encode(code, Words(p, q)))
  }

  /** What a program finds that is started at `rsp`: its argument count, its arguments, its
      environment and the auxiliary vector up to the terminator at `k`. */
  ghost predicate Starts(p: Input, q: Plan, word: WordReader, str: StringReader, limit: nat, rsp: nat, k: nat)
    requires k <= |p.aux|
  {
    Decode(word, str, limit, rsp)
    == Some(Start(|p.argv|, p.argv, p.envp, Resolved(p.aux, q.random, q.execfn)[..k]))
  }

  /** The addresses behind AT_RANDOM and AT_EXECFN hold the random bytes and the program's name. */
  ghost predicate AuxiliaryPoints(p: Input, q: Plan, base: nat, page: seq<byte>) {
    && Peek(page, base, q.random, |p.random|) == Some(p.random)
    && StringAt(page, base, q.execfn) == Some(p.execfn)
  }

  lemma LaidStarts(p: Input, q: Plan, base: nat, page: seq<byte>, from: nat, rsp: nat, k: nat, code: WordCode,
                   word: WordReader, str: StringReader, limit: nat)
    requires HasStrings(p, q, base, page) && Sound(p, q) && Proper(p, k)
    requires rsp == base + from && SliceIs(page, from, Encode(code, Words(p, q))) && code == Le64()
    requires word == PageWords(page, base) && str == PageStrings(page, base) && limit == base + |page|
    ensures Starts(p, q, word, str, limit, rsp, k)
  {
    LaidOut(p, q, base, page, from, rsp, k, code, word, str);
    StartIsDecoded(p, q, word, str, limit, rsp, k, Resolved(p.aux, q.random, q.execfn));
  }

  /** Builds the stack page, or fails if the data does not fit into one page. */
  method Build(p: Input) returns (r: Option<Stack>)
    requires PAGE <= p.end < U64_LIMIT && p.end % PAGE == 0
    ensures r.None? <==> Needed(p) > PAGE
    ensures r.Some? ==> |r.value.page| == PAGE && r.value.rsp % 16 == 0 && p.end - PAGE <= r.value.rsp < p.end
    ensures r.Some? ==> Decodable(p, PlanOf(p), PageBase(p), r.value, p.end)
  {
    var needed := Needed(p);
    PaddingRounds(needed);
    var padding := Padding(needed);
    var total := needed + padding;
    if total > PAGE {
      return None;
    }
    var unused := PAGE - total;
    Aligned(p.end, PageBase(p) + unused);
    Le64Reads();
    var s := LayOut(p, PlanOf(p), PageBase(p), unused, padding, Le64());
    LaidDecodable(p, PlanOf(p), PageBase(p), unused, s, Le64());
    return Some(s);
  }

  /** Whatever ends the auxiliary vector, a program started on the stack finds what was passed. */
  ghost predicate Decodable(p: Input, q: Plan, base: nat, s: Stack, limit: nat) {
    && (forall k :: Proper(p, k) ==>
          Starts(p, q, PageWords(s.page, base), PageStrings(s.page, base), limit, s.rsp, k))
    && (NulFree(p.execfn) ==> AuxiliaryPoints(p, q, base, s.page))
  }

  lemma LaidDecodable(p: Input, q: Plan, base: nat, from: nat, s: Stack, code: WordCode)
    requires Needed(p) <= PAGE <= p.end < U64_LIMIT && q == PlanOf(p) && base == PageBase(p)
    requires Laid(p, q, base, from, s, code) && code == Le64()
    ensures Decodable(p, q, base, s, p.end)
  {
    PlanIsSound(p);
    DecodableAt(p, q, base, from, s, p.end, code);
  }

  lemma DecodableAt(p: Input, q: Plan, base: nat, from: nat, s: Stack, limit: nat, code: WordCode)
    requires Laid(p, q, base, from, s, code) && Sound(p, q) && limit == base + |s.page| && code == Le64()
    ensures Decodable(p, q, base, s, limit)
  {
    var word, str := PageWords(s.page, base), PageStrings(s.page, base);
    forall k | Proper(p, k) ensures Starts(p, q, word, str, limit, s.rsp, k) {
      LaidStarts(p, q, base, s.page, from, s.rsp, k, code, word, str, limit);
    }
    if NulFree(p.execfn) {
      AuxiliaryBytes(p, q, base, s.page);
    }
  }

  /** The page with everything in its place. */
  method LayOut(p: Input, q: Plan, base: nat, unused: nat, padding: nat, code: WordCode) returns (s: Stack)
    requires Needed(p) <= PAGE <= p.end && q == PlanOf(p) && base == PageBase(p) && Reads64(code)
    requires padding == Padding(Needed(p)) && unused + Needed(p) + padding == PAGE
    ensures Laid(p, q, base, unused, s, code) && s.rsp == base + unused
  {
    var block, argvOffsets, envpOffsets := StringArea(p);
    var page := WritePage(p, q, block, argvOffsets, envpOffsets, code, unused, padding);
    PageLaid(p, q, base, page, block, code, unused, padding);
    s := Stack(base + unused, page);
  }

  lemma Aligned(end: nat, rsp: nat)
    requires end % PAGE == 0 && rsp <= end && (end - rsp) % 16 == 0
    ensures rsp % 16 == 0
  {
    var a, b := end / PAGE, (end - rsp) / 16;
    assert rsp == 16 * (256 * a - b);
  }

  method StringArea(p: Input) returns (block: seq<byte>, argvOffsets: seq<nat>, envpOffsets: seq<nat>)
    ensures block == Block(p.argv) + Block(p.envp) + p.random + p.execfn + [0]
    ensures argvOffsets == PointersTo(p.argv, 0) && envpOffsets == PointersTo(p.envp, |Block(p.argv)|)
  {
    block, argvOffsets := AppendStrings([], p.argv);
    block, envpOffsets := AppendStrings(block, p.envp);
    block := block + p.random + p.execfn + [0];
  }

  method WritePage(p: Input, q: Plan, block: seq<byte>, argvOffsets: seq<nat>, envpOffsets: seq<nat>, code: WordCode,
                   unused: nat, padding: nat)
    returns (page: seq<byte>)
    requires argvOffsets == PointersTo(p.argv, 0) && envpOffsets == PointersTo(p.envp, |Block(p.argv)|)
    requires q.envAt == q.at + |Block(p.argv)|
    ensures page == Zeroes(unused) + Encode(code, Words(p, q)) + Zeroes(padding) + block
  {
    page := Zeroes(unused) + code(|p.argv|);
    page := AppendPointers(page, q.at, p.argv, argvOffsets, 0, code);
    page := page + code(0);
    page := AppendPointers(page, q.at, p.envp, envpOffsets, |Block(p.argv)|, code);
    page := page + code(0);
    page := AppendAux(page, p.aux, q.random, q.execfn, code);
    EncodeArrays(code, Zeroes(unused), |p.argv|, PointersTo(p.argv, q.at), PointersTo(p.envp, q.envAt),
                 Flat(Resolved(p.aux, q.random, q.execfn)));
    page := page + Zeroes(padding) + block;
  }

  lemma PageLaid(p: Input, q: Plan, base: nat, page: seq<byte>, block: seq<byte>, code: WordCode, unused: nat,
                 padding: nat)
    requires Needed(p) <= PAGE <= p.end && q == PlanOf(p) && base == PageBase(p) && Reads64(code)
    requires unused + Needed(p) + padding == PAGE
    requires block == Block(p.argv) + Block(p.envp) + p.random + p.execfn + [0]
    requires page == Zeroes(unused) + Encode(code, Words(p, q)) + Zeroes(padding) + block
    ensures |page| == PAGE && HasStrings(p, q, base, page) && SliceIs(page, unused, Encode(code, Words(p, q)))
  {
    EncodeLength(code, Words(p, q));
    WordsInPlace(page, Zeroes(unused), Encode(code, Words(p, q)), Zeroes(padding), block);
    StringsLaid(p, q, base, page, block, unused + |Encode(code, Words(p, q))| + padding);
  }

  lemma StringsLaid(p: Input, q: Plan, base: nat, page: seq<byte>, block: seq<byte>, from: nat)
    requires q == Plan(base + from, q.at + |Block(p.argv)|, q.envAt + |Block(p.envp)|, q.random + |p.random|)
    requires block == Block(p.argv) + Block(p.envp) + p.random + p.execfn + [0] && SliceIs(page, from, block)
    ensures HasStrings(p, q, base, page)
  {
    var a, b, c, d := Block(p.argv), Block(p.envp), p.random, p.execfn + [0];
    assert block == a + b + c + d;
    BlockInPlace(page, from, block, a, b, c, d);
    StringsInPlace(p, q, base, page, a, b, d, from, from + |a|, from + |a| + |b|, from + |a| + |b| + |c|);
  }

  lemma StringsInPlace(p: Input, q: Plan, base: nat, page: seq<byte>, a: seq<byte>, b: seq<byte>, d: seq<byte>,
                       argv: nat, envp: nat, random: nat, execfn: nat)
    requires a == Block(p.argv) && b == Block(p.envp) && d == p.execfn + [0] && argv <= envp <= random <= execfn
    requires q == Plan(base + argv, base + envp, base + random, base + execfn)
    requires SliceIs(page, argv, a) && SliceIs(page, envp, b) && SliceIs(page, random, p.random)
      && SliceIs(page, execfn, d)
    ensures HasStrings(p, q, base, page)
  {
  }

  lemma WordsInPlace(page: seq<byte>, a: seq<byte>, b: seq<byte>, c: seq<byte>, d: seq<byte>)
    requires page == a + b + c + d
    ensures SliceIs(page, |a|, b) && SliceIs(page, |a| + |b| + |c|, d)
  {
    assert page == a + (b + (c + d));
    assert page == (a + b + c) + d;
  }

  lemma BlockInPlace(page: seq<byte>, from: nat, block: seq<byte>, a: seq<byte>, b: seq<byte>, c: seq<byte>,
                     d: seq<byte>)
    requires SliceIs(page, from, block) && block == a + b + c + d
    ensures SliceIs(page, from, a) && SliceIs(page, from + |a|, b)
    ensures SliceIs(page, from + |a| + |b|, c) && SliceIs(page, from + |a| + |b| + |c|, d)
  {
    assert block == a + b + (c + d);
    PartInPlace(page, from, block, [], a, b + c + d);
    PartInPlace(page, from, block, a, b, c + d);
    PartInPlace(page, from, block, a + b, c, d);
    PartInPlace(page, from, block, a + b + c, d, []);
  }

  lemma PartInPlace(page: seq<byte>, from: nat, block: seq<byte>, x: seq<byte>, s: seq<byte>, y: seq<byte>)
    requires SliceIs(page, from, block) && block == x + s + y
    ensures SliceIs(page, from + |x|, s)
  {
    assert block[|x|..|x| + |s|] == s;
    Within(page, from, |block|, |x|, |s|);
  }
}
