/** Allocation of shared pages: many frames and many mappings, all or nothing. */
module SharedPages {
  import opened Memory
  import opened Bytes
  import opened Frames
  import opened PageTables
  import opened Mapping
  import opened UserCopy

  ghost predicate Distinct(s: seq<nat>) {
    forall i, j :: 0 <= i < j < |s| ==> s[i] != s[j]
  }

  /** Frames that can be given back: usable, in use, and listed once. */
  ghost predicate Held(k: Machine, pages: seq<nat>)
    reads k
  {
    && Distinct(pages)
    && forall i :: 0 <= i < |pages| ==> pages[i] != 0 && IsUsable(k.regions, pages[i]) && pages[i] !in k.avail
  }

  lemma HeldAreFrames(k: Machine, pages: seq<nat>)
    requires Held(k, pages)
    ensures forall i :: 0 <= i < |pages| ==> pages[i] < 0x100_0000_0000
  {
  }

  ghost function Set(pages: seq<nat>): iset<nat> {
    iset f | f in pages
  }

  method DeallocateFrames(k: Machine, pages: seq<nat>)
    requires k.Ok() && k.physOffset != 0 && Held(k, pages)
    modifies k
    ensures k.Ok()
    ensures k.avail == old(k.avail) + Set(pages)
    ensures forall g :: g !in pages ==> PageAt(k.mem, g) == PageAt(old(k.mem), g)
  {
    var i := 0;
    while i < |pages|
      invariant 0 <= i <= |pages|
      invariant k.Ok()
      invariant k.avail == old(k.avail) + Set(pages[..i])
      invariant forall g :: g !in pages ==> PageAt(k.mem, g) == PageAt(old(k.mem), g)
    {
      assert pages[i] !in pages[..i];
      var _ := k.DeallocateFrame(pages[i]);
      assert pages[..i + 1] == pages[..i] + [pages[i]];
      i := i + 1;
    }
    assert pages[..i] == pages;
  }

  lemma AllTaken(all: iset<nat>, left: iset<nat>, pages: seq<nat>)
    requires left == all - Set(pages) && left == iset{} && Set(pages) <= all
    ensures all == Set(pages)
  {
    forall g | g in all ensures g in Set(pages) {
      assert g !in left;
    }
  }

  /** There are fewer than `n` frames in the set. */
  ghost predicate Fewer(frames: iset<nat>, n: nat) {
    exists fs: seq<nat> :: |fs| < n && frames == Set(fs)
  }

  /** `n` frames, or none. */
  method AllocateFrames(k: Machine, n: nat) returns (ok: bool, pages: seq<nat>)
    requires k.Ok() && k.physOffset != 0
    modifies k
    ensures k.Ok()
    ensures ok ==> |pages| == n && Held(k, pages) && k.avail == old(k.avail) - Set(pages) && Set(pages) <= old(k.avail)
    ensures !ok ==> k.avail == old(k.avail) && Fewer(k.avail, n)
    ensures forall g :: g !in old(k.avail) ==> PageAt(k.mem, g) == PageAt(old(k.mem), g)
  {
    pages := [];
    while |pages| < n
      invariant |pages| <= n
      invariant k.Ok() && Held(k, pages)
      invariant k.avail == old(k.avail) - Set(pages) && Set(pages) <= old(k.avail)
      invariant forall g :: g !in old(k.avail) ==> PageAt(k.mem, g) == PageAt(old(k.mem), g)
    {
      var f := k.AllocateFrame();
      if f.None? {
        AllTaken(old(k.avail), k.avail, pages);
        DeallocateFrames(k, pages);
        return false, [];
      }
      assert f.value !in pages;
      pages := pages + [f.value];
    }
    return true, pages;
  }

  // ---- ranges of pages ----

  /** `n` pages from `virt` up, within one canonical half. */
  predicate CanonicalRange(virt: nat, n: nat) {
    && virt % 4096 == 0
    && (virt + n * 4096 <= 0x8000_0000_0000
      || (0xFFFF_8000_0000_0000 <= virt && virt + n * 4096 <= 0x1_0000_0000_0000_0000))
  }

  ghost function Pages(virt: nat, n: nat): (vs: seq<Vpn>)
    ensures |vs| == n
  {
    if n == 0 then [] else Pages(virt, n - 1) + [PageOf(virt + (n - 1) * 4096)]
  }

  lemma {:induction false} PagesAt(virt: nat, n: nat, i: nat)
    requires i < n
    ensures Pages(virt, n)[i] == PageOf(virt + i * 4096)
    decreases n
  {
    if i < n - 1 {
      PagesAt(virt, n - 1, i);
    }
  }

  lemma PageAddress(virt: nat, n: nat, i: nat, v: nat)
    requires i < n && CanonicalRange(virt, n) && v == virt + i * 4096
    ensures v % 4096 == 0 && Canonical(v) && PageOf(v) == Pages(virt, n)[i]
  {
  }

  lemma PhysOf(f: nat, phys: nat)
    requires phys == f * 4096
    ensures phys / 4096 == f && phys % 4096 == 0
  {
  }

  ghost predicate Apart(vs: seq<Vpn>) {
    forall i, j :: 0 <= i < j < |vs| ==> vs[i] != vs[j]
  }

  lemma PagesApart(virt: nat, n: nat)
    requires CanonicalRange(virt, n)
    ensures Apart(Pages(virt, n))
  {
    forall i, j | 0 <= i < j < n ensures Pages(virt, n)[i] != Pages(virt, n)[j] {
      PagesAt(virt, n, i);
      PagesAt(virt, n, j);
      PageOfInjective(virt + i * 4096, virt + j * 4096);
    }
  }

  /** Walks outside the pages `vs` agree. */
  ghost predicate OutsideSame(m: Mem, m': Mem, off: u64, root: nat, vs: seq<Vpn>) {
    forall q :: q in vs || Walk(m', off, root, q) == Walk(m, off, root, q)
  }

  ghost predicate Unmapped(m: Mem, off: u64, root: nat, vs: seq<Vpn>) {
    forall i :: 0 <= i < |vs| ==> Walk(m, off, root, vs[i]) == None
  }

  lemma UnmapStep(m: Mem, m1: Mem, m2: Mem, off: u64, root: nat, vs: seq<Vpn>, i: nat)
    requires i < |vs| && Apart(vs)
    requires Unmapped(m1, off, root, vs[..i]) && OutsideSame(m, m1, off, root, vs[..i])
    requires OtherWalks(m1, m2, off, root, vs[i]) && Walk(m2, off, root, vs[i]) == None
    ensures Unmapped(m2, off, root, vs[..i + 1]) && OutsideSame(m, m2, off, root, vs[..i + 1])
  {
  }

  /** Clears the first `n` of `total` pages from `virt` up. */
  method UnmapRange(k: Machine, table: u64, virt: nat, n: nat, ghost total: nat, ghost vs: seq<Vpn>,
                    ghost own: map<nat, Path>)
    requires Space(k, table / 4096, own) && table % 4096 == 0
    requires n <= total && CanonicalRange(virt, total) && vs == Pages(virt, total)[..n]
    requires forall i :: 0 <= i < n ==> !InHugePage(k.mem, k.physOffset, table / 4096, vs[i])
    modifies k`mem
    ensures Space(k, table / 4096, own)
    ensures Unmapped(k.mem, k.physOffset, table / 4096, vs)
    ensures OutsideSame(old(k.mem), k.mem, k.physOffset, table / 4096, vs)
    ensures forall g :: g !in own ==> PageAt(k.mem, g) == PageAt(old(k.mem), g)
  {
    PagesApart(virt, total);
    var i := 0;
    while i < n
      invariant 0 <= i <= n
      invariant Space(k, table / 4096, own)
      invariant Unmapped(k.mem, k.physOffset, table / 4096, vs[..i])
      invariant OutsideSame(old(k.mem), k.mem, k.physOffset, table / 4096, vs[..i])
      invariant forall g :: g !in own ==> PageAt(k.mem, g) == PageAt(old(k.mem), g)
    {
      var v := virt + i * 4096;
      PageAddress(virt, total, i, v);
      assert vs[i] !in vs[..i];
      ghost var m := k.mem;
      var _ := UnmapPage(k, table, v, own);
      UnmapStep(old(k.mem), m, k.mem, k.physOffset, table / 4096, vs, i);
      i := i + 1;
    }
    assert vs[..i] == vs;
  }

  /** What a shared page's entry looks like: present, writable, user. */
  function SharedWord(f: FrameNo): Word {
    Word(f, true, true, true, false, false, 0)
  }

  /** Page `i` of the range is backed by `pages[i]`. */
  ghost predicate Backed(m: Mem, off: u64, root: nat, vs: seq<Vpn>, pages: seq<nat>) {
    && |vs| <= |pages|
    && forall i :: 0 <= i < |vs| ==>
         pages[i] < 0x100_0000_0000 && Walk(m, off, root, vs[i]) == Some(Leaf(pages[i], SharedWord(pages[i]), 1))
  }

  lemma MapStep(m: Mem, m1: Mem, m2: Mem, off: u64, root: nat, vs: seq<Vpn>, pages: seq<nat>, i: nat)
    requires i < |vs| <= |pages| && Apart(vs) && pages[i] < 0x100_0000_0000
    requires Backed(m1, off, root, vs[..i], pages) && OutsideSame(m, m1, off, root, vs[..i])
    requires OtherWalks(m1, m2, off, root, vs[i])
    requires Walk(m2, off, root, vs[i]) == Some(Leaf(pages[i], SharedWord(pages[i]), 1))
    ensures Backed(m2, off, root, vs[..i + 1], pages) && OutsideSame(m, m2, off, root, vs[..i + 1])
  {
  }

  /** Clearing what was empty before restores every walk. */
  lemma UndoRestores(m: Mem, m1: Mem, m2: Mem, m3: Mem, off: u64, root: nat, vs: seq<Vpn>)
    requires Unmapped(m, off, root, vs) && OutsideSame(m, m1, off, root, vs)
    requires SameWalks(m1, m2, off, root)
    requires Unmapped(m3, off, root, vs) && OutsideSame(m2, m3, off, root, vs)
    ensures SameWalks(m, m3, off, root)
  {
  }

  /** What was backed page by page is not part of a large page. */
  lemma BackedIsPlain(m: Mem, m1: Mem, off: u64, root: nat, vs: seq<Vpn>, pages: seq<nat>)
    requires Backed(m, off, root, vs, pages) && SameWalks(m, m1, off, root)
    ensures forall i :: 0 <= i < |vs| ==> !InHugePage(m1, off, root, vs[i])
  {
  }

  /** The tables of a growing page table, and the frames they took. */
  ghost predicate Grown(k: Machine, own: map<nat, Path>, own': map<nat, Path>, before: iset<nat>)
    reads k
  {
    && k.avail <= before
    && (forall g :: g in before && g !in k.avail ==> g in own' || !Reachable(k.physOffset, g))
    && (forall g :: g in own' ==> g in own || g in before)
  }

  /** No frame is left for a table, or a table lies outside the direct map. */
  ghost predicate Starved(avail: iset<nat>, off: u64, own: map<nat, Path>) {
    avail == iset{} || exists f :: f in own && !Reachable(off, f)
  }

  lemma StuckIsStarved(k: Machine, root: nat, p: Vpn, own: map<nat, Path>, before: iset<nat>)
    requires Space(k, root, own) && Covers(k) && Stuck(k.mem, k.physOffset, root, p, before, k.avail)
    requires forall g :: g in before ==> IsUsable(k.regions, g)
    ensures Starved(k.avail, k.physOffset, own)
  {
    if Dangles(k.mem, k.physOffset, root, 4, p) {
      DanglesInTree(k.mem, k.physOffset, root, own, root, 4, p);
    }
  }

  /** Maps one shared frame. */
  method MapFrame(k: Machine, table: u64, v: u64, f: FrameNo, ghost own: map<nat, Path>)
    returns (ok: bool, ghost own': map<nat, Path>)
    requires Space(k, table / 4096, own) && table % 4096 == 0 && v % 4096 == 0 && Canonical(v)
    requires Covers(k) && Walk(k.mem, k.physOffset, table / 4096, PageOf(v)) == None
    modifies k
    ensures Space(k, table / 4096, own') && Extends(own, own') && Grown(k, own, own', old(k.avail))
    ensures OtherWalks(old(k.mem), k.mem, k.physOffset, table / 4096, PageOf(v))
    ensures ok ==> Walk(k.mem, k.physOffset, table / 4096, PageOf(v)) == Some(Leaf(f, SharedWord(f), 1))
    ensures !ok ==> SameWalks(old(k.mem), k.mem, k.physOffset, table / 4096) && Starved(k.avail, k.physOffset, own')
  {
    var phys := f * 4096;
    PhysOf(f, phys);
    var r;
    ghost var before := k.avail;
    AllUsable(k);
    r, own' := MapPage(k, table, v, phys, true, true, own);
    ok := r.Ok?;
    if !ok {
      StuckIsStarved(k, table / 4096, PageOf(v), own', before);
    }
  }

  /** Maps `pages` one after the other from `virt` up, or changes no walk at all. */
  method MapRange(k: Machine, table: u64, virt: nat, pages: seq<nat>, ghost vs: seq<Vpn>, ghost own: map<nat, Path>)
    returns (ok: bool, ghost own': map<nat, Path>)
    requires Space(k, table / 4096, own) && table % 4096 == 0
    requires Covers(k) && CanonicalRange(virt, |pages|) && vs == Pages(virt, |pages|)
    requires forall i :: 0 <= i < |pages| ==> pages[i] < 0x100_0000_0000
    requires Unmapped(k.mem, k.physOffset, table / 4096, vs)
    modifies k
    ensures Space(k, table / 4096, own') && Grown(k, own, own', old(k.avail))
    ensures ok ==> Backed(k.mem, k.physOffset, table / 4096, vs, pages)
    ensures ok ==> OutsideSame(old(k.mem), k.mem, k.physOffset, table / 4096, vs)
    ensures !ok ==> SameWalks(old(k.mem), k.mem, k.physOffset, table / 4096) && Starved(k.avail, k.physOffset, own')
  {
    PagesApart(virt, |pages|);
    own' := own;
    var i := 0;
    while i < |pages|
      invariant 0 <= i <= |pages|
      invariant Space(k, table / 4096, own') && Grown(k, own, own', old(k.avail))
      invariant Backed(k.mem, k.physOffset, table / 4096, vs[..i], pages)
      invariant OutsideSame(old(k.mem), k.mem, k.physOffset, table / 4096, vs[..i])
    {
      var v := virt + i * 4096;
      PageAddress(virt, |pages|, i, v);
      ghost var m := k.mem;
      ok, own' := MapFrame(k, table, v, pages[i], own');
      if !ok {
        Undo(k, table, virt, i, |pages|, vs[..i], own', old(k.mem), m, pages);
        return false, own';
      }
      MapStep(old(k.mem), m, k.mem, k.physOffset, table / 4096, vs, pages, i);
      i := i + 1;
    }
    assert vs[..i] == vs;
    ok := true;
  }

  /** The rollback: unmaps the first `n` pages again. */
  method Undo(k: Machine, table: u64, virt: nat, n: nat, ghost total: nat, ghost vs: seq<Vpn>,
              ghost own: map<nat, Path>, ghost m: Mem, ghost m1: Mem, ghost pages: seq<nat>)
    requires Space(k, table / 4096, own) && table % 4096 == 0
    requires n <= total && CanonicalRange(virt, total) && vs == Pages(virt, total)[..n]
    requires Unmapped(m, k.physOffset, table / 4096, vs)
    requires Backed(m1, k.physOffset, table / 4096, vs, pages)
    requires OutsideSame(m, m1, k.physOffset, table / 4096, vs)
    requires SameWalks(m1, k.mem, k.physOffset, table / 4096)
    modifies k`mem
    ensures Space(k, table / 4096, own)
    ensures SameWalks(m, k.mem, k.physOffset, table / 4096)
    ensures forall g :: g !in own ==> PageAt(k.mem, g) == PageAt(old(k.mem), g)
  {
    ghost var m2 := k.mem;
    BackedIsPlain(m1, m2, k.physOffset, table / 4096, vs, pages);
    UnmapRange(k, table, virt, n, total, vs, own);
    UndoRestores(m, m1, m2, k.mem, k.physOffset, table / 4096, vs);
  }

  // ---- the system call ----

  /** Leaf entries marked writable for the user point neither at tables nor at free frames. */
  ghost predicate LeavesApart(m: Mem, off: u64, root: nat, own: map<nat, Path>, avail: iset<nat>) {
    forall q :: var l := Walk(m, off, root, q);
      l.Some? && l.value.word.user && l.value.word.writable ==> l.value.frame !in own && l.value.frame !in avail
  }

  lemma LeavesApartForUser(k: Machine, table: u64, own: map<nat, Path>)
    requires LeavesApart(k.mem, k.physOffset, table / 4096, own, k.avail)
    ensures UserApart(k, table, own)
  {
    forall p
      ensures var u := UserFrame(k.mem, k.physOffset, table, p, true);
              u.Some? ==> u.value !in own && u.value !in k.avail
    {
      if table % 4096 == 0 && UserWalkFrom(k.mem, k.physOffset, table / 4096, 4, p).Some? {
        UserWalkIsWalk(k.mem, k.physOffset, table / 4096, 4, p);
        UserLeafIsUser(k.mem, k.physOffset, table / 4096, 4, p);
      }
    }
  }

  lemma {:induction false} UserLeafIsUser(m: Mem, off: u64, f: nat, level: Level, p: Vpn)
    requires UserWalkFrom(m, off, f, level, p).Some?
    ensures UserWalkFrom(m, off, f, level, p).value.user
    decreases level
  {
    var e := Entry(m, f, IndexAt(p, level));
    if level > 1 && (level == 4 || !e.huge) {
      UserLeafIsUser(m, off, e.frame, level - 1, p);
    }
  }

  /** Mapping held frames keeps user-writable leaves apart from tables and free frames. */
  lemma MappedApart(m: Mem, m': Mem, off: u64, root: nat, own: map<nat, Path>, own': map<nat, Path>,
                    before: iset<nat>, avail: iset<nat>, vs: seq<Vpn>, pages: seq<nat>)
    requires LeavesApart(m, off, root, own, before)
    requires Backed(m', off, root, vs, pages) && OutsideSame(m, m', off, root, vs)
    requires avail <= before && forall g :: g in own' ==> g in own || g in before
    requires forall i :: 0 <= i < |pages| ==> pages[i] !in own' && pages[i] !in avail
    ensures LeavesApart(m', off, root, own', avail)
  {
  }

  /** The physical addresses of the frames, eight bytes each. */
  function AddressBytes(pages: seq<nat>): (bs: seq<byte>)
    ensures |bs| == 8 * |pages|
  {
    if pages == [] then [] else AddressBytes(pages[..|pages| - 1]) + ToLe(pages[|pages| - 1] * 4096, 8)
  }

  lemma {:induction false} AddressBytesAt(pages: seq<nat>, i: nat, from: nat, width: nat)
    requires i < |pages| && pages[i] < 0x100_0000_0000 && from == width * i && width == 8
    ensures FromLe(AddressBytes(pages)[from..from + width]) == pages[i] * 4096
    decreases |pages|
  {
    var n := |pages| - 1;
    if i < n {
      AddressBytesAt(pages[..n], i, from, width);
      assert AddressBytes(pages)[from..from + width] == AddressBytes(pages[..n])[from..from + width];
    } else {
      assert AddressBytes(pages)[from..from + width] == ToLe(pages[i] * 4096, width);
      Widths();
      FromToLe(pages[i] * 4096, width);
    }
  }

  /** The addresses of `pages` have been copied to the user at `out`, memory being `m` before. */
  ghost predicate Told(l: WordLayout, m: Mem, now: Mem, off: u64, table: u64, out: nat, pages: seq<nat>) {
    && Written(l, m, now, UserFrames(m, off, table, true), out, AddressBytes(pages))
    && AccessibleRange(m, off, table, out, |AddressBytes(pages)|, true)
  }

  /** Word `i` at `out` reads as the address of `pages[i]`, unless the user's own mapping of
      the range makes two of its addresses the same byte. */
  lemma ToldIsRead(l: WordLayout, m: Mem, now: Mem, off: u64, table: u64, out: nat, pages: seq<nat>, i: nat,
                   fr: FrameMap, at: nat, width: nat)
    requires Told(l, m, now, off, table, out, pages) && fr == UserFrames(m, off, table, true)
    requires Consistent(fr, out, AddressBytes(pages))
    requires i < |pages| && pages[i] < 0x100_0000_0000 && at == out + width * i && width == 8
    ensures FromLe(ReadBytes(l, now, fr, at, width)) == pages[i] * 4096
  {
    var bs := AddressBytes(pages);
    forall x | out <= x < out + |bs| ensures fr(x).Some? {
      assert Accessible(m, off, table, x, true);
    }
    WrittenReadsBack(l, m, now, fr, out, bs);
    var from := width * i;
    ReadBytesPart(l, now, fr, out, |bs|, from, width, at);
    AddressBytesAt(pages, i, from, width);
  }

  method EncodePages(pages: seq<nat>) returns (bytes: seq<byte>)
    ensures bytes == AddressBytes(pages)
  {
    bytes := [];
    var i := 0;
    while i < |pages|
      invariant 0 <= i <= |pages|
      invariant bytes == AddressBytes(pages[..i])
    {
      assert pages[..i + 1][..i] == pages[..i];
      bytes := bytes + ToLe(pages[i] * 4096, 8);
      i := i + 1;
    }
    assert pages[..i] == pages;
  }

  datatype Errno = EPERM | EINVAL | ENOMEM | EFAULT

  /** Frees `pages`, none of which is a table. */
  method GiveBack(k: Machine, root: nat, pages: seq<nat>, ghost own: map<nat, Path>)
    requires Space(k, root, own) && k.physOffset != 0 && Held(k, pages)
    requires forall i :: 0 <= i < |pages| ==> pages[i] !in own
    modifies k
    ensures Space(k, root, own) && SameWalks(old(k.mem), k.mem, k.physOffset, root)
    ensures k.avail == old(k.avail) + Set(pages)
  {
    DeallocateFrames(k, pages);
    TreeFrame(old(k.mem), k.mem, k.physOffset, root, own);
  }

  /** Everything available before, `pages` included, is available again or now a table. */
  ghost predicate Returned(k: Machine, own: map<nat, Path>, before: iset<nat>)
    reads k
  {
    && k.avail <= before
    && forall g :: g in before && g !in k.avail ==> g in own || !Reachable(k.physOffset, g)
  }

  /** Why pages are not handed out: the tables cannot grow, or with the pages mapped (memory
      `mid`) the user cannot write to `out`. */
  ghost predicate Denied(avail: iset<nat>, mid: Mem, off: u64, table: u64, own: map<nat, Path>, out: u64,
                         pages: seq<nat>) {
    Starved(avail, off, own) || (out != 0 && !AccessibleRange(mid, off, table, out, |AddressBytes(pages)|, true))
  }

  /** Maps `pages` and writes their addresses to `out`, or undoes everything. */
  method MapAndReport(k: Machine, table: u64, virt: nat, pages: seq<nat>, out: u64, ghost own: map<nat, Path>)
    returns (err: Option<Errno>, ghost own': map<nat, Path>, ghost mid: Mem)
    requires Space(k, table / 4096, own) && table % 4096 == 0
    requires k.physOffset != 0 && k.physOffset % 4096 == 0
    requires Held(k, pages) && forall i :: 0 <= i < |pages| ==> pages[i] !in own
    requires Covers(k) && CanonicalRange(virt, |pages|)
    requires Unmapped(k.mem, k.physOffset, table / 4096, Pages(virt, |pages|))
    requires LeavesApart(k.mem, k.physOffset, table / 4096, own, k.avail + Set(pages))
    modifies k
    ensures Space(k, table / 4096, own')
    ensures err.None? ==> Grown(k, own, own', old(k.avail)) && Held(k, pages)
    ensures err.None? ==> Backed(k.mem, k.physOffset, table / 4096, Pages(virt, |pages|), pages)
    ensures err.None? ==> OutsideSame(old(k.mem), k.mem, k.physOffset, table / 4096, Pages(virt, |pages|))
    ensures err.None? && out != 0 ==> Told(k.layout, mid, k.mem, k.physOffset, table, out, pages)
    ensures err.Some? ==> SameWalks(old(k.mem), k.mem, k.physOffset, table / 4096)
    ensures err.Some? ==> Returned(k, own', old(k.avail) + Set(pages))
    ensures err.Some? ==>
      err.value == EFAULT && Denied(k.avail - Set(pages), mid, k.physOffset, table, own', out, pages)
  {
    var ok;
    ok, own', mid := TryMap(k, table, virt, pages, out, Pages(virt, |pages|), own);
    err := None;
    if !ok {
      GiveBack(k, table / 4096, pages, own');
      err := Some(EFAULT);
    }
  }

  /** Mapping frames held by the caller keeps the user's pages apart from the tables. */
  lemma StillApart(k: Machine, m: Mem, table: u64, pages: seq<nat>, vs: seq<Vpn>, own: map<nat, Path>,
                   own': map<nat, Path>, avail: iset<nat>)
    requires LeavesApart(m, k.physOffset, table / 4096, own, avail + Set(pages))
    requires forall i :: 0 <= i < |pages| ==> pages[i] !in own && pages[i] !in avail
    requires Grown(k, own, own', avail)
    requires Backed(k.mem, k.physOffset, table / 4096, vs, pages)
      && OutsideSame(m, k.mem, k.physOffset, table / 4096, vs)
    ensures UserApart(k, table, own')
  {
    MappedApart(m, k.mem, k.physOffset, table / 4096, own, own', avail + Set(pages), k.avail, vs, pages);
    LeavesApartForUser(k, table, own');
  }

  /** Maps `pages` and writes their addresses to `out`, or maps nothing. */
  method TryMap(k: Machine, table: u64, virt: nat, pages: seq<nat>, out: u64, ghost vs: seq<Vpn>,
                ghost own: map<nat, Path>)
    returns (ok: bool, ghost own': map<nat, Path>, ghost mid: Mem)
    requires Space(k, table / 4096, own) && table % 4096 == 0 && k.physOffset % 4096 == 0
    requires Held(k, pages) && forall i :: 0 <= i < |pages| ==> pages[i] !in own
    requires Covers(k) && CanonicalRange(virt, |pages|) && vs == Pages(virt, |pages|)
    requires Unmapped(k.mem, k.physOffset, table / 4096, vs)
    requires LeavesApart(k.mem, k.physOffset, table / 4096, own, k.avail + Set(pages))
    modifies k
    ensures Space(k, table / 4096, own') && Grown(k, own, own', old(k.avail))
    ensures ok ==> Backed(k.mem, k.physOffset, table / 4096, vs, pages)
    ensures ok ==> OutsideSame(old(k.mem), k.mem, k.physOffset, table / 4096, vs)
    ensures ok && out != 0 ==> Told(k.layout, mid, k.mem, k.physOffset, table, out, pages)
    ensures !ok ==> SameWalks(old(k.mem), k.mem, k.physOffset, table / 4096)
    ensures !ok ==> Denied(k.avail, mid, k.physOffset, table, own', out, pages)
  {
    HeldAreFrames(k, pages);
    ok, own' := MapRange(k, table, virt, pages, vs, own);
    mid := k.mem;
    if ok && out != 0 {
      StillApart(k, old(k.mem), table, pages, vs, own, own', old(k.avail));
      ok := Report(k, table, virt, pages, out, vs, own', old(k.mem));
    }
  }

  /** The pages stay mapped as long as no walk changes. */
  lemma StillBacked(m: Mem, m1: Mem, m2: Mem, off: u64, root: nat, vs: seq<Vpn>, pages: seq<nat>)
    requires Backed(m1, off, root, vs, pages) && OutsideSame(m, m1, off, root, vs)
    requires SameWalks(m1, m2, off, root)
    ensures Backed(m2, off, root, vs, pages) && OutsideSame(m, m2, off, root, vs)
  {
  }

  /** Writes the addresses to `out`; if that fails, unmaps the pages again. */
  method Report(k: Machine, table: u64, virt: nat, pages: seq<nat>, out: u64, ghost vs: seq<Vpn>,
                ghost own: map<nat, Path>, ghost m: Mem)
    returns (ok: bool)
    requires Space(k, table / 4096, own) && UserApart(k, table, own) && table % 4096 == 0 && k.physOffset % 4096 == 0
    requires CanonicalRange(virt, |pages|) && vs == Pages(virt, |pages|)
    requires Unmapped(m, k.physOffset, table / 4096, vs)
    requires Backed(k.mem, k.physOffset, table / 4096, vs, pages)
    requires OutsideSame(m, k.mem, k.physOffset, table / 4096, vs)
    modifies k`mem
    ensures Space(k, table / 4096, own)
    ensures ok ==> Backed(k.mem, k.physOffset, table / 4096, vs, pages)
    ensures ok ==> OutsideSame(m, k.mem, k.physOffset, table / 4096, vs)
    ensures ok && out != 0 ==> Told(k.layout, old(k.mem), k.mem, k.physOffset, table, out, pages)
    ensures !ok ==> SameWalks(m, k.mem, k.physOffset, table / 4096)
    ensures !ok && out != 0 ==> !AccessibleRange(old(k.mem), k.physOffset, table, out, |AddressBytes(pages)|, true)
  {
    ghost var m1 := k.mem;
    ok := WriteAddresses(k, table, pages, out, own);
    if ok {
      StillBacked(m, m1, k.mem, k.physOffset, table / 4096, vs, pages);
    } else {
      assert vs[..|pages|] == vs;
      Undo(k, table, virt, |pages|, |pages|, vs, own, m, m1, pages);
    }
  }

  /** Copies the addresses of the frames to the user; no walk changes. */
  method WriteAddresses(k: Machine, table: u64, pages: seq<nat>, out: u64, ghost own: map<nat, Path>) returns (ok: bool)
    requires Space(k, table / 4096, own) && UserApart(k, table, own) && k.physOffset % 4096 == 0
    requires forall i :: 0 <= i < |pages| ==> pages[i] < 0x100_0000_0000
    modifies k`mem
    ensures Space(k, table / 4096, own) && SameWalks(old(k.mem), k.mem, k.physOffset, table / 4096)
    ensures ok && out != 0 ==> Told(k.layout, old(k.mem), k.mem, k.physOffset, table, out, pages)
    ensures !ok && out != 0 ==> !AccessibleRange(old(k.mem), k.physOffset, table, out, |AddressBytes(pages)|, true)
  {
    var bytes := EncodePages(pages);
    ghost var m := k.mem;
    var r;
    ghost var n;
    r, n := CopyToUser(k, table, out, bytes, own);
    TreeFrame(m, k.mem, k.physOffset, table / 4096, own);
    assert n == |bytes| ==> bytes[..n] == bytes;
    ok := r.Ok?;
  }

  class Process {
    var heapEnd: u64
    var pageTable: Option<u64>

    constructor (end: u64, table: Option<u64>)
      ensures heapEnd == end && pageTable == table
    {
      heapEnd, pageTable := end, table;
    }
  }

  function UsableBytes(rs: seq<Region>): nat {
    if rs == [] then 0 else (if rs[0].kind.Usable? then rs[0].len else 0) + UsableBytes(rs[1..])
  }

  function SharedPageLimit(rs: seq<Region>): nat {
    if UsableBytes(rs) / 4096 > 128 then UsableBytes(rs) / 4096 else 128
  }

  predicate BadRequest(rs: seq<Region>, count: nat, out: u64, outLen: u64) {
    count == 0 || count > SharedPageLimit(rs) || (out != 0 && outLen < count)
  }

  function AlignUp(a: nat): nat {
    (a + 0xfff) / 4096 * 4096
  }

  /** Where the pages go: the hint, or the first page past the heap. */
  function Target(hint: u64, heapEnd: u64): nat {
    if hint != 0 then hint else AlignUp(if heapEnd == 0 then 0x7000_0000_0000 else heapEnd)
  }

  /** At the hint, or on the first page boundary from the heap end on, which starts out at
      0x7000_0000_0000. */
  predicate PlacedAfter(virt: nat, hint: u64, heapEnd: u64) {
    if hint != 0 then virt == hint else
    var base := if heapEnd == 0 then 0x7000_0000_0000 else heapEnd;
    virt % 4096 == 0 && base <= virt < base + 4096
  }

  lemma TargetPlaced(hint: u64, heapEnd: u64)
    ensures PlacedAfter(Target(hint, heapEnd), hint, heapEnd)
  {
  }

  /** Picks the target range; without a hint it also moves the heap end past it. */
  method Reserve(p: Process?, hint: u64, span: nat) returns (r: Option<(nat, u64)>)
    modifies p
    ensures r.Some? <==> p != null && p.pageTable.Some?
                         && (if hint != 0 then hint % 4096 == 0 else Target(hint, old(p.heapEnd)) + span < U64_LIMIT)
    ensures p != null ==> p.pageTable == old(p.pageTable)
    ensures r.None? && p != null ==> p.heapEnd == old(p.heapEnd)
    ensures r.Some? ==> r.value == (Target(hint, old(p.heapEnd)), p.pageTable.value)
    ensures r.Some? ==> p.heapEnd == if hint != 0 then old(p.heapEnd) else Target(hint, old(p.heapEnd)) + span
  {
    if p == null {
      return None;
    }
    if hint != 0 {
      if hint % 4096 != 0 || p.pageTable.None? {
        return None;
      }
      return Some((hint, p.pageTable.value));
    }
    var base := if p.heapEnd == 0 then 0x7000_0000_0000 else p.heapEnd;
    if base + 0xfff >= U64_LIMIT {
      return None;
    }
    var virt := AlignUp(base);
    if virt + span >= U64_LIMIT || p.pageTable.None? {
      return None;
    }
    p.heapEnd := virt + span;
    return Some((virt, p.pageTable.value));
  }

  datatype SysResult = Mapped(virt: nat) | Failed(errno: Errno)

  /** The page table is a tree apart from the user's pages, and the target range is empty. */
  ghost predicate Mappable(m: Mem, off: u64, table: u64, virt: nat, n: nat, own: map<nat, Path>, before: iset<nat>) {
    && table % 4096 == 0
    && Tree(m, table / 4096, own) && (forall f :: f in own ==> f !in before)
    && LeavesApart(m, off, table / 4096, own, before)
    && (virt % 4096 == 0 && virt + n * 4096 < U64_LIMIT ==>
          CanonicalRange(virt, n) && Unmapped(m, off, table / 4096, Pages(virt, n)))
  }

  /** The pages are mapped in order and told to the user, other walks are as before, and every
      frame that was available still is, or is a table or one of the pages. */
  ghost predicate Granted(l: WordLayout, m: Mem, mid: Mem, now: Mem, off: u64, table: u64, virt: nat, pages: seq<nat>,
                          before: iset<nat>, avail: iset<nat>, own: map<nat, Path>, out: u64) {
    && Backed(now, off, table / 4096, Pages(virt, |pages|), pages)
    && OutsideSame(m, now, off, table / 4096, Pages(virt, |pages|))
    && (forall g :: g in before ==> g in avail || g in own || g in pages)
    && (out != 0 ==> Told(l, mid, now, off, table, out, pages))
  }

  /** No walk has changed, and every frame that was available still is, or is a table. */
  ghost predicate RolledBack(m: Mem, now: Mem, off: u64, table: Option<u64>, before: iset<nat>, avail: iset<nat>,
                             own: map<nat, Path>) {
    && (forall g :: g in before ==> g in avail || g in own)
    && (table.Some? ==> SameWalks(m, now, off, table.value / 4096))
  }

  /** Taking frames from the allocator and nothing else leaves a page table ready. */
  lemma StillMappable(k: Machine, m: Mem, before: iset<nat>, table: u64, own: map<nat, Path>)
    requires table % 4096 == 0 && k.Ok()
    requires Tree(m, table / 4096, own) && (forall f :: f in own ==> f !in before)
    requires LeavesApart(m, k.physOffset, table / 4096, own, before)
    requires k.avail <= before && forall g :: g !in before ==> PageAt(k.mem, g) == PageAt(m, g)
    ensures Space(k, table / 4096, own) && SameWalks(m, k.mem, k.physOffset, table / 4096)
    ensures LeavesApart(k.mem, k.physOffset, table / 4096, own, before)
  {
    TreeFrame(m, k.mem, k.physOffset, table / 4096, own);
  }

  lemma AllReachable(k: Machine, frames: seq<nat>)
    requires k.Ok() && Held(k, frames) && Covers(k)
    ensures forall g :: g in k.avail + Set(frames) ==> Reachable(k.physOffset, g)
  {
    AllUsable(k);
    forall g | g in k.avail + Set(frames) ensures Reachable(k.physOffset, g) {
      if g !in k.avail {
        var i :| 0 <= i < |frames| && frames[i] == g;
      }
    }
  }

  /** There is no address space to map into, or no room in it. */
  ghost predicate NoTarget(p: Process?, heapEnd: u64, hint: u64, n: nat)
    reads p
  {
    || p == null || p.pageTable.None? || n * 4096 >= U64_LIMIT
    || (if hint != 0 then hint % 4096 != 0 else Target(hint, heapEnd) + n * 4096 >= U64_LIMIT)
  }

  /** Allocates `count` frames and maps them into the caller's address space. On every
      error nothing has changed but the frames kept as intermediate tables; on success
      the range is backed, page by page and in order, by the distinct frames reported. */
  method AllocSharedPages(k: Machine, p: Process?, privileged: bool, count: u64, out: u64, outLen: u64, hint: u64,
                          ghost own: map<nat, Path>)
    returns (r: SysResult, ghost own': map<nat, Path>, ghost pages: seq<nat>, ghost mid: Mem)
    requires k.Ok() && k.physOffset != 0 && k.physOffset % 4096 == 0 && Covers(k)
    requires p != null && p.pageTable.Some? ==>
      Mappable(k.mem, k.physOffset, p.pageTable.value, Target(hint, p.heapEnd), count, own, k.avail)
    requires hint != 0 ==> hint + count * 4096 < U64_LIMIT
    modifies k, p
    ensures k.Ok() && k.avail <= old(k.avail)
    ensures p != null ==> p.pageTable == old(p.pageTable)
    ensures p != null && p.pageTable.Some? ==> Space(k, p.pageTable.value / 4096, own')
    ensures r == Failed(EPERM) <==> !privileged
    ensures privileged && BadRequest(k.regions, count, out, outLen) ==> r == Failed(EINVAL)
    ensures privileged && (count == 0 || (out != 0 && outLen < count)) ==> r == Failed(EINVAL)
    ensures privileged && count > 128 && count * 4096 > UsableBytes(k.regions) ==> r == Failed(EINVAL)
    ensures r == Failed(EINVAL) && !BadRequest(k.regions, count, out, outLen) ==>
              NoTarget(p, if p == null then 0 else old(p.heapEnd), hint, count)
    ensures r == Failed(ENOMEM) ==> Fewer(old(k.avail), count)
    ensures r == Failed(EFAULT) ==>
              && p != null && p.pageTable.Some? && |pages| == count
              && Denied(k.avail - Set(pages), mid, k.physOffset, p.pageTable.value, own', out, pages)
    ensures r.Failed? && p != null ==> p.heapEnd == old(p.heapEnd)
    ensures r.Failed? ==> RolledBack(old(k.mem), k.mem, k.physOffset, TableOf(p), old(k.avail), k.avail, own')
    ensures r.Mapped? ==> 0 < count && (out == 0 || count <= outLen)
    ensures r.Mapped? ==>
              && p != null && p.pageTable.Some? && PlacedAfter(r.virt, hint, old(p.heapEnd))
              && p.heapEnd == (if hint != 0 then old(p.heapEnd) else r.virt + count * 4096)
              && |pages| == count && Distinct(pages) && Set(pages) <= old(k.avail)
              && Granted(k.layout, old(k.mem), mid, k.mem, k.physOffset, p.pageTable.value, r.virt, pages,
                         old(k.avail), k.avail, own', out)
  {
    own', pages, mid := own, [], k.mem;
    if !privileged {
      return Failed(EPERM), own, [], k.mem;
    }
    if BadRequest(k.regions, count, out, outLen) {
      return Failed(EINVAL), own, [], k.mem;
    }
    var ok, frames := AllocateFrames(k, count);
    if !ok {
      if p != null && p.pageTable.Some? {
        StillMappable(k, old(k.mem), old(k.avail), p.pageTable.value, own);
      }
      return Failed(ENOMEM), own, [], k.mem;
    }
    if p != null {
      TargetPlaced(hint, p.heapEnd);
    }
    r, own', mid := MapFrames(k, p, frames, out, hint, own, old(k.mem), old(k.avail));
    pages := frames;
  }

  /** Returns the frames where there is nothing to map them into. */
  method GiveUp(k: Machine, table: Option<u64>, frames: seq<nat>,
                ghost own: map<nat, Path>, ghost m: Mem, ghost before: iset<nat>)
    requires k.Ok() && k.physOffset != 0
    requires Held(k, frames) && k.avail == before - Set(frames) && Set(frames) <= before
    requires forall g :: g !in before ==> PageAt(k.mem, g) == PageAt(m, g)
    requires table.Some? ==> Tree(m, table.value / 4096, own) && forall f :: f in own ==> f !in before
    modifies k
    ensures k.Ok() && k.avail == before
    ensures table.Some? ==> Space(k, table.value / 4096, own) && SameWalks(m, k.mem, k.physOffset, table.value / 4096)
  {
    DeallocateFrames(k, frames);
    if table.Some? {
      TreeFrame(m, k.mem, k.physOffset, table.value / 4096, own);
    }
  }

  /** The part after the frames were taken. */
  method MapFrames(k: Machine, p: Process?, frames: seq<nat>, out: u64, hint: u64,
                   ghost own: map<nat, Path>, ghost m: Mem, ghost before: iset<nat>)
    returns (r: SysResult, ghost own': map<nat, Path>, ghost mid: Mem)
    requires k.Ok() && k.physOffset != 0 && k.physOffset % 4096 == 0 && Covers(k)
    requires Held(k, frames) && k.avail == before - Set(frames) && Set(frames) <= before
    requires forall g :: g !in before ==> PageAt(k.mem, g) == PageAt(m, g)
    requires p != null && p.pageTable.Some? ==>
      Mappable(m, k.physOffset, p.pageTable.value, Target(hint, p.heapEnd), |frames|, own, before)
    requires hint != 0 ==> hint + |frames| * 4096 < U64_LIMIT
    modifies k, p
    ensures k.Ok() && k.avail <= before
    ensures p != null ==> p.pageTable == old(p.pageTable)
    ensures p != null && p.pageTable.Some? ==> Space(k, p.pageTable.value / 4096, own')
    ensures r.Failed? ==> r.errno == EINVAL || r.errno == EFAULT
    ensures r == Failed(EINVAL) ==> NoTarget(p, if p == null then 0 else old(p.heapEnd), hint, |frames|)
    ensures r == Failed(EFAULT) ==>
              && p != null && p.pageTable.Some?
              && Denied(k.avail - Set(frames), mid, k.physOffset, p.pageTable.value, own', out, frames)
    ensures r.Failed? && p != null ==> p.heapEnd == old(p.heapEnd)
    ensures r.Failed? ==> RolledBack(m, k.mem, k.physOffset, TableOf(p), before, k.avail, own')
    ensures r.Mapped? ==>
              && p != null && p.pageTable.Some? && r.virt == Target(hint, old(p.heapEnd))
              && p.heapEnd == (if hint != 0 then old(p.heapEnd) else r.virt + |frames| * 4096)
              && Granted(k.layout, m, mid, k.mem, k.physOffset, p.pageTable.value, r.virt, frames, before, k.avail,
                         own', out)
  {
    own', mid := own, k.mem;
    var oldEnd := if p == null then 0 else p.heapEnd;
    var span := |frames| * 4096;
    var t: Option<(nat, u64)> := None;
    if span < U64_LIMIT {
      t := Reserve(p, hint, span);
    }
    if t.None? {
      GiveUp(k, TableOf(p), frames, own, m, before);
      return Failed(EINVAL), own, mid;
    }
    var (virt, table) := t.value;
    var err;
    err, own', mid := MapInto(k, table, virt, frames, out, own, m, before);
    if err.Some? {
      if hint == 0 && p.heapEnd == virt + span {
        p.heapEnd := oldEnd;
      }
      return Failed(err.value), own', mid;
    }
    r := Mapped(virt);
  }

  function TableOf(p: Process?): Option<u64>
    reads p
  {
    if p == null then None else p.pageTable
  }

  /** Maps frames taken since state `m`. */
  method MapInto(k: Machine, table: u64, virt: nat, frames: seq<nat>, out: u64,
                 ghost own: map<nat, Path>, ghost m: Mem, ghost before: iset<nat>)
    returns (err: Option<Errno>, ghost own': map<nat, Path>, ghost mid: Mem)
    requires k.Ok() && k.physOffset != 0 && k.physOffset % 4096 == 0 && Covers(k)
    requires Held(k, frames) && k.avail == before - Set(frames) && Set(frames) <= before
    requires forall g :: g !in before ==> PageAt(k.mem, g) == PageAt(m, g)
    requires Mappable(m, k.physOffset, table, virt, |frames|, own, before)
    requires virt % 4096 == 0 && virt + |frames| * 4096 < U64_LIMIT
    modifies k
    ensures Space(k, table / 4096, own') && k.avail <= before
    ensures err.None? ==>
      Granted(k.layout, m, mid, k.mem, k.physOffset, table, virt, frames, before, k.avail, own', out)
    ensures err.Some? ==> RolledBack(m, k.mem, k.physOffset, Some(table), before, k.avail, own')
    ensures err.Some? ==>
      err.value == EFAULT && Denied(k.avail - Set(frames), mid, k.physOffset, table, own', out, frames)
  {
    StillMappable(k, m, before, table, own);
    assert before == k.avail + Set(frames);
    AllReachable(k, frames);
    err, own', mid := MapAndReport(k, table, virt, frames, out, own);
  }
}
