/** Four-level page tables: walks, and what single entry writes do to them. */
module PageTables {
  import opened Memory

  type Index = n: nat | n < 512

  /** The four table indices of a virtual page. */
  datatype Vpn = Vpn(i4: Index, i3: Index, i2: Index, i1: Index)

  /** The indices of the page of address `v`. */
  function Indices(v: nat): Vpn {
    Vpn(v / 0x80_0000_0000 % 512, v / 0x4000_0000 % 512, v / 0x20_0000 % 512, v / 0x1000 % 512)
  }

  function Number(p: Vpn): nat {
    ((p.i4 * 512 + p.i3) * 512 + p.i2) * 512 + p.i1
  }

  /** The page with number `n`: the one whose indices spell its low 36 bits. */
  ghost function PageNo(n: nat): Vpn {
    NumberOfIndices(n * 4096);
    var p :| Number(p) == n % 0x10_0000_0000;
    p
  }

  ghost function PageOf(v: nat): Vpn {
    PageNo(v / 4096)
  }

  lemma Shifts(v: nat)
    ensures v / 0x20_0000 == v / 4096 / 512
    ensures v / 0x4000_0000 == v / 4096 / 512 / 512
    ensures v / 0x80_0000_0000 == v / 4096 / 512 / 512 / 512
  {
  }

  lemma Digits(n: nat, a: nat, b: nat, c: nat)
    requires a == n / 512 && b == a / 512 && c == b / 512
    ensures ((c % 512 * 512 + b % 512) * 512 + a % 512) * 512 + n % 512 == n % 0x10_0000_0000
  {
    var w, x, y, z := n % 512, a % 512, b % 512, c % 512;
    assert n == 512 * a + w && a == 512 * b + x && b == 512 * c + y && c == 512 * (c / 512) + z;
    Remainder(n, c / 512, ((z * 512 + y) * 512 + x) * 512 + w);
  }

  lemma Remainder(n: nat, q: nat, r: nat)
    requires n == 0x10_0000_0000 * q + r && r < 0x10_0000_0000
    ensures n % 0x10_0000_0000 == r
  {
  }

  lemma NumberOfIndices(v: nat)
    ensures Number(Indices(v)) == v / 4096 % 0x10_0000_0000
  {
    Shifts(v);
    Digits(v / 4096, v / 4096 / 512, v / 4096 / 512 / 512, v / 4096 / 512 / 512 / 512);
  }

  lemma NumberInjective(p: Vpn, q: Vpn)
    requires Number(p) == Number(q)
    ensures p == q
  {
    Digit((p.i4 * 512 + p.i3) * 512 + p.i2, p.i1, (q.i4 * 512 + q.i3) * 512 + q.i2, q.i1);
    Digit(p.i4 * 512 + p.i3, p.i2, q.i4 * 512 + q.i3, q.i2);
  }

  lemma Digit(x: nat, i: Index, y: nat, j: Index)
    requires x * 512 + i == y * 512 + j
    ensures x == y && i == j
  {
  }

  lemma IndicesArePage(v: nat)
    ensures Indices(v) == PageOf(v)
  {
    NumberOfIndices(v);
    NumberInjective(Indices(v), PageOf(v));
  }

  /** Frame `f` can be reached through the direct map at offset `off`. */
  predicate Reachable(off: u64, f: nat) {
    f * 4096 + off < 0x1_0000_0000_0000_0000
  }

  /** What a walk ends in: the 4 KiB frame behind the page, the leaf entry and its level. */
  datatype Leaf = Leaf(frame: nat, word: Word, level: nat)

  type Level = n: nat | 1 <= n <= 4 witness 4

  function IndexAt(p: Vpn, level: Level): Index {
    if level == 4 then p.i4 else if level == 3 then p.i3 else if level == 2 then p.i2 else p.i1
  }

  /** The 4 KiB frame of page `p` in a leaf entry `w` at the given level. */
  function LeafFrame(w: Word, p: Vpn, level: Level): nat {
    if level == 1 then w.frame else if level == 2 then w.frame + p.i1 else w.frame + 512 * p.i2 + p.i1
  }

  /** The walk of page `p` from table `f`. Large pages end it at level 3 or 2. */
  function WalkFrom(m: Mem, off: u64, f: nat, level: Level, p: Vpn): Option<Leaf>
    decreases level
  {
    if !Reachable(off, f) then None else
    var e := Entry(m, f, IndexAt(p, level));
    if !e.present then None
    else if level == 1 || (level < 4 && e.huge) then Some(Leaf(LeafFrame(e, p, level), e, level))
    else WalkFrom(m, off, e.frame, level - 1, p)
  }

  function Walk(m: Mem, off: u64, root: nat, p: Vpn): Option<Leaf> {
    WalkFrom(m, off, root, 4, p)
  }

  /** Address translation as the kernel computes it. */
  function Translate(m: Mem, off: u64, table: u64, v: nat): Option<(nat, Word)> {
    if table % 4096 != 0 || !Reachable(off, table / 4096) then None else
    var p := Indices(v);
    var e4 := Entry(m, table / 4096, p.i4);
    if !e4.present || !Reachable(off, e4.frame) then None else
    var e3 := Entry(m, e4.frame, p.i3);
    if !e3.present then None else
    if e3.huge then Some((e3.frame * 4096 + v % 0x4000_0000, e3)) else
    if !Reachable(off, e3.frame) then None else
    var e2 := Entry(m, e3.frame, p.i2);
    if !e2.present then None else
    if e2.huge then Some((e2.frame * 4096 + v % 0x20_0000, e2)) else
    if !Reachable(off, e2.frame) then None else
    var e1 := Entry(m, e2.frame, p.i1);
    if !e1.present then None else Some((e1.frame * 4096 + v % 0x1000, e1))
  }

  lemma OffsetParts(v: nat)
    ensures v % 0x20_0000 == v / 0x1000 % 512 * 4096 + v % 4096
    ensures v % 0x4000_0000 == v / 0x20_0000 % 512 * 0x20_0000 + v % 0x20_0000
  {
  }

  /** Large and small pages alike: an address translates to its frame plus its offset. */
  lemma TranslateIsWalk(m: Mem, off: u64, table: u64, v: nat)
    requires table % 4096 == 0
    ensures var w := Walk(m, off, table / 4096, PageOf(v));
            Translate(m, off, table, v)
            == if w.None? then None else Some((w.value.frame * 4096 + v % 4096, w.value.word))
  {
    OffsetParts(v);
    IndicesArePage(v);
    var p := Indices(v);
    var e4 := Entry(m, table / 4096, p.i4);
    if Reachable(off, table / 4096) && e4.present {
      var e3 := Entry(m, e4.frame, p.i3);
      assert Walk(m, off, table / 4096, p) == WalkFrom(m, off, e4.frame, 3, p);
      if Reachable(off, e4.frame) && e3.present && !e3.huge {
        var e2 := Entry(m, e3.frame, p.i2);
        assert WalkFrom(m, off, e4.frame, 3, p) == WalkFrom(m, off, e3.frame, 2, p);
        if Reachable(off, e3.frame) && e2.present && !e2.huge {
          assert WalkFrom(m, off, e3.frame, 2, p) == WalkFrom(m, off, e2.frame, 1, p);
        }
      }
    }
  }

  predicate Canonical(v: nat) {
    v < 0x8000_0000_0000 || 0xFFFF_8000_0000_0000 <= v < 0x1_0000_0000_0000_0000
  }

  lemma CanonicalPages(u: nat, v: nat)
    requires Canonical(u) && Canonical(v)
    requires u / 4096 % 0x10_0000_0000 == v / 4096 % 0x10_0000_0000
    ensures u / 4096 == v / 4096
  {
    CanonicalPage(u, u / 4096);
    CanonicalPage(v, v / 4096);
  }

  /** Below the lower half ends, and above the upper half begins, the low 36 bits of a page
      number tell it. */
  lemma CanonicalPage(v: nat, n: nat)
    requires Canonical(v) && n == v / 4096
    ensures var r := n % 0x10_0000_0000; n == if r < 0x8_0000_0000 then r else r + 0xF_FFF0_0000_0000
  {
    if n < 0x8_0000_0000 {
      Remainder(n, 0, n);
    } else {
      Remainder(n, 0xFFFF, n - 0xF_FFF0_0000_0000);
    }
  }

  /** The indices determine the page of a canonical address. */
  lemma PageOfInjective(u: nat, v: nat)
    requires Canonical(u) && Canonical(v)
    ensures PageOf(u) == PageOf(v) <==> u / 4096 == v / 4096
  {
    if PageOf(u) == PageOf(v) {
      CanonicalPages(u, v);
    }
  }

  // ---- the tree of tables ----

  /** The place of a table in the tree: its level and the indices leading to it. */
  datatype Path = P4 | P3(i4: Index) | P2(i4: Index, i3: Index) | P1(i4: Index, i3: Index, i2: Index)

  function LevelOf(q: Path): Level {
    if q.P4? then 4 else if q.P3? then 3 else if q.P2? then 2 else 1
  }

  function Child(q: Path, i: Index): Path {
    match q
    case P4 => P3(i)
    case P3(a) => P2(a, i)
    case P2(a, b) => P1(a, b, i)
    case P1(_, _, _) => q
  }

  /** The table that the walk of page `p` visits at a level. */
  function PathAt(p: Vpn, level: Level): Path {
    if level == 4 then P4 else if level == 3 then P3(p.i4)
    else if level == 2 then P2(p.i4, p.i3) else P1(p.i4, p.i3, p.i2)
  }

  predicate PointsToTable(q: Path, w: Word) {
    w.present && (q.P4? || (!q.P1? && !w.huge))
  }

  /** `own` gives every table reachable from `root` its place. A frame has one place
      only, so no table is shared between two entries. */
  ghost predicate Tree(m: Mem, root: nat, own: map<nat, Path>) {
    && root in own && own[root] == P4
    && forall f, i :: f in own && 0 <= i < 512 && PointsToTable(own[f], Entry(m, f, i)) ==>
         Entry(m, f, i).frame in own && own[Entry(m, f, i).frame] == Child(own[f], i)
  }

  /** Slot `i` of table `f` is on the walk of page `p`. */
  predicate OnWalk(own: map<nat, Path>, f: nat, i: Index, p: Vpn)
    requires f in own
  {
    own[f] == PathAt(p, LevelOf(own[f])) && i == IndexAt(p, LevelOf(own[f]))
  }

  /** A walk reads one slot per level, all of them on the path of its page. */
  lemma {:induction false} WalkFrame(m: Mem, m': Mem, off: u64, root: nat, own: map<nat, Path>, f: nat, level: Level,
                                     p: Vpn)
    requires Tree(m, root, own) && f in own && own[f] == PathAt(p, level)
    requires forall g, i :: g in own && 0 <= i < 512 && LevelOf(own[g]) <= level && OnWalk(own, g, i, p) ==>
                              Entry(m', g, i) == Entry(m, g, i)
    ensures WalkFrom(m', off, f, level, p) == WalkFrom(m, off, f, level, p)
    decreases level
  {
    var e := Entry(m, f, IndexAt(p, level));
    assert Entry(m', f, IndexAt(p, level)) == e;
    if PointsToTable(own[f], e) {
      WalkFrame(m, m', off, root, own, e.frame, level - 1, p);
    }
  }

  /** If memories differ only in slot `i` of table `f` and outside the tables, and the
      walks from `f` on agree, then so do the walks from any table above. */
  lemma {:induction false} WalkThrough(m: Mem, m': Mem, off: u64, root: nat, own: map<nat, Path>, f: nat, i: Index,
                                       h: nat, level: Level, p: Vpn)
    requires Tree(m, root, own) && f in own && h in own && own[h] == PathAt(p, level)
    requires forall g, j :: g in own && 0 <= j < 512 && (g != f || j != i) ==> Entry(m', g, j) == Entry(m, g, j)
    requires OnWalk(own, f, i, p) ==>
               WalkFrom(m', off, f, LevelOf(own[f]), p) == WalkFrom(m, off, f, LevelOf(own[f]), p)
    ensures WalkFrom(m', off, h, level, p) == WalkFrom(m, off, h, level, p)
    decreases level
  {
    var e := Entry(m, h, IndexAt(p, level));
    if h != f || i != IndexAt(p, level) {
      assert Entry(m', h, IndexAt(p, level)) == e;
      if PointsToTable(own[h], e) {
        WalkThrough(m, m', off, root, own, f, i, e.frame, level - 1, p);
      }
    }
  }

  ghost predicate SameWalks(m: Mem, m': Mem, off: u64, root: nat) {
    forall p :: Walk(m', off, root, p) == Walk(m, off, root, p)
  }

  /** Writes outside the tables change no walk. */
  lemma TreeFrame(m: Mem, m': Mem, off: u64, root: nat, own: map<nat, Path>)
    requires Tree(m, root, own)
    requires forall f :: f in own ==> PageAt(m', f) == PageAt(m, f)
    ensures Tree(m', root, own)
    ensures SameWalks(m, m', off, root)
  {
    assert forall f, i :: f in own && 0 <= i < 512 ==> Entry(m', f, i) == Entry(m, f, i);
    forall p ensures Walk(m', off, root, p) == Walk(m, off, root, p) {
      WalkFrame(m, m', off, root, own, root, 4, p);
    }
  }

  lemma EntryAfterSet(m: Mem, f: nat, i: Index, w: Word)
    ensures forall g, j :: 0 <= j < 512 ==>
              Entry(SetEntry(m, f, i, w), g, j) == if g == f && j == i then w else Entry(m, g, j)
  {
  }

  /** Changing flags of a table pointer that leave it a table pointer to the same
      table changes no walk. */
  lemma ReflagKeeps(m: Mem, off: u64, root: nat, own: map<nat, Path>, f: nat, i: Index, w: Word)
    requires Tree(m, root, own) && f in own
    requires PointsToTable(own[f], Entry(m, f, i)) && PointsToTable(own[f], w)
    requires w.frame == Entry(m, f, i).frame
    ensures Tree(SetEntry(m, f, i, w), root, own)
    ensures SameWalks(m, SetEntry(m, f, i, w), off, root)
  {
    var m' := SetEntry(m, f, i, w);
    EntryAfterSet(m, f, i, w);
    forall p ensures Walk(m', off, root, p) == Walk(m, off, root, p) {
      var level := LevelOf(own[f]);
      if OnWalk(own, f, i, p) {
        WalkFrame(m, m', off, root, own, w.frame, level - 1, p);
        assert WalkFrom(m, off, f, level, p) == WalkFrom(m', off, f, level, p);
      }
      WalkThrough(m, m', off, root, own, f, i, root, 4, p);
    }
  }

  /** Hanging a zeroed table under an absent entry changes no walk. */
  lemma GrowKeeps(m: Mem, off: u64, root: nat, own: map<nat, Path>, f: nat, i: Index, w: Word)
    requires Tree(m, root, own) && f in own && !own[f].P1?
    requires !Entry(m, f, i).present && w.present && !w.huge && w.frame !in own
    ensures Tree(SetEntry(m[w.frame := ZERO_PAGE], f, i, w), root, own[w.frame := Child(own[f], i)])
    ensures SameWalks(m, SetEntry(m[w.frame := ZERO_PAGE], f, i, w), off, root)
  {
    var m' := SetEntry(m[w.frame := ZERO_PAGE], f, i, w);
    assert forall g, j :: 0 <= j < 512 ==>
      Entry(m', g, j) == if g == f && j == i then w else if g == w.frame then ZERO_WORD else Entry(m, g, j);
    forall p ensures Walk(m', off, root, p) == Walk(m, off, root, p) {
      var level := LevelOf(own[f]);
      if OnWalk(own, f, i, p) {
        assert !Entry(m', w.frame, IndexAt(p, level - 1)).present;
        assert WalkFrom(m, off, f, level, p) == WalkFrom(m', off, f, level, p);
      }
      WalkThrough(m, m', off, root, own, f, i, root, 4, p);
    }
  }

  /** Walks of all pages but `p` agree. */
  ghost predicate OtherWalks(m: Mem, m': Mem, off: u64, root: nat, p: Vpn) {
    forall q :: q != p ==> Walk(m', off, root, q) == Walk(m, off, root, q)
  }

  /** Writing a level-1 entry changes the walk of at most one page. */
  lemma LeafKeeps(m: Mem, off: u64, root: nat, own: map<nat, Path>, f: nat, p: Vpn, w: Word)
    requires Tree(m, root, own) && f in own && own[f] == PathAt(p, 1)
    ensures Tree(SetEntry(m, f, p.i1, w), root, own)
    ensures OtherWalks(m, SetEntry(m, f, p.i1, w), off, root, p)
  {
    var m' := SetEntry(m, f, p.i1, w);
    EntryAfterSet(m, f, p.i1, w);
    forall q | q != p ensures Walk(m', off, root, q) == Walk(m, off, root, q) {
      WalkThrough(m, m', off, root, own, f, p.i1, root, 4, q);
    }
  }

  // ---- leading a page down to a table ----

  /** The table that the walk of page `p` reaches at level `stop`, if it gets there. */
  function Lead(m: Mem, off: u64, f: nat, level: Level, p: Vpn, stop: Level): Option<nat>
    requires stop <= level
    decreases level
  {
    if !Reachable(off, f) then None
    else if level == stop then Some(f)
    else
      var e := Entry(m, f, IndexAt(p, level));
      if e.present && (level == 4 || !e.huge) then Lead(m, off, e.frame, level - 1, p, stop) else None
  }

  /** Among the tables, only slot `i` of table `f` differs. */
  ghost predicate OnlySlot(m: Mem, m': Mem, own: map<nat, Path>, f: nat, i: Index) {
    forall g, j :: g in own && 0 <= j < 512 && (g != f || j != i) ==> Entry(m', g, j) == Entry(m, g, j)
  }

  /** Filling the slot of `p` in the table reached leads one level further. */
  lemma {:induction false} LeadDown(m: Mem, m': Mem, off: u64, root: nat, own: map<nat, Path>, h: nat, level: Level,
                                    p: Vpn, stop: Level, f: nat, g: nat)
    requires Tree(m, root, own) && h in own && own[h] == PathAt(p, level) && f in own && own[f] == PathAt(p, stop)
    requires 1 < stop <= level && Lead(m, off, h, level, p, stop) == Some(f)
    requires OnlySlot(m, m', own, f, IndexAt(p, stop))
    requires PointsToTable(own[f], Entry(m', f, IndexAt(p, stop)))
    requires Entry(m', f, IndexAt(p, stop)).frame == g && Reachable(off, g)
    ensures Lead(m', off, h, level, p, stop - 1) == Some(g)
    decreases level
  {
    var e := Entry(m, h, IndexAt(p, level));
    if stop < level {
      assert Entry(m', h, IndexAt(p, level)) == e;
      LeadDown(m, m', off, root, own, e.frame, level - 1, p, stop, f, g);
    } else {
      assert Lead(m', off, g, stop - 1, p, stop - 1) == Some(g);
    }
  }

  /** A lead is not disturbed by a change in the table it ends in. */
  lemma {:induction false} LeadFrame(m: Mem, m': Mem, off: u64, root: nat, own: map<nat, Path>, h: nat, level: Level,
                                     p: Vpn, stop: Level, f: nat, i: Index)
    requires Tree(m, root, own) && h in own && own[h] == PathAt(p, level) && f in own && own[f] == PathAt(p, stop)
    requires stop <= level && OnlySlot(m, m', own, f, i)
    ensures Lead(m', off, h, level, p, stop) == Lead(m, off, h, level, p, stop)
    decreases level
  {
    if stop < level {
      var e := Entry(m, h, IndexAt(p, level));
      assert Entry(m', h, IndexAt(p, level)) == e;
      if PointsToTable(own[h], e) {
        LeadFrame(m, m', off, root, own, e.frame, level - 1, p, stop, f, i);
      }
    }
  }

  /** A walk continues from wherever its lead ends. */
  lemma {:induction false} LeadWalk(m: Mem, off: u64, f: nat, level: Level, p: Vpn, stop: Level)
    requires stop <= level && Lead(m, off, f, level, p, stop).Some?
    ensures WalkFrom(m, off, f, level, p) == WalkFrom(m, off, Lead(m, off, f, level, p, stop).value, stop, p)
    decreases level
  {
    if stop < level {
      LeadWalk(m, off, Entry(m, f, IndexAt(p, level)).frame, level - 1, p, stop);
    }
  }

  /** The path of page `p` from table `f` leads to a table outside the direct map. */
  predicate Dangles(m: Mem, off: u64, f: nat, level: Level, p: Vpn)
    decreases level
  {
    || !Reachable(off, f)
    || (level > 1 &&
        var e := Entry(m, f, IndexAt(p, level));
        e.present && (level == 4 || !e.huge) && Dangles(m, off, e.frame, level - 1, p))
  }

  lemma {:induction false} LeadDangles(m: Mem, off: u64, f: nat, level: Level, p: Vpn, stop: Level, t: nat)
    requires stop <= level && Lead(m, off, f, level, p, stop) == Some(t) && Dangles(m, off, t, stop, p)
    ensures Dangles(m, off, f, level, p)
    decreases level
  {
    if level > stop {
      LeadDangles(m, off, Entry(m, f, IndexAt(p, level)).frame, level - 1, p, stop, t);
    }
  }

  /** A path that leaves the direct map does so at one of the tree's tables. */
  lemma {:induction false} DanglesInTree(m: Mem, off: u64, root: nat, own: map<nat, Path>, f: nat, level: Level, p: Vpn)
    requires Tree(m, root, own) && f in own && own[f] == PathAt(p, level) && Dangles(m, off, f, level, p)
    ensures exists g :: g in own && !Reachable(off, g)
    decreases level
  {
    if Reachable(off, f) {
      DanglesInTree(m, off, root, own, Entry(m, f, IndexAt(p, level)).frame, level - 1, p);
    }
  }

  // ---- what the entries on the way allow ----

  /** The leaf entry of page `p`, if every entry on the way to it admits user access. */
  function UserWalkFrom(m: Mem, off: u64, f: nat, level: Level, p: Vpn): Option<Word>
    decreases level
  {
    if !Reachable(off, f) then None else
    var e := Entry(m, f, IndexAt(p, level));
    if !e.present || !e.user then None
    else if level == 1 || (level < 4 && e.huge) then Some(e)
    else UserWalkFrom(m, off, e.frame, level - 1, p)
  }

  /** What is asked of the upper entries of a page: user access, or every right. */
  datatype Gate = ForUser | AllRights

  predicate Admits(gate: Gate, w: Word) {
    w.user && (gate.AllRights? ==> w.writable && !w.nx && !w.huge)
  }

  predicate Passable(level: Level, w: Word, gate: Gate) {
    w.present && (level == 4 || !w.huge) && Admits(gate, w)
  }

  /** The table at level `stop` that page `p` is led to from table `f`, if every entry on the
      way passes `gate`. */
  function Guided(m: Mem, f: nat, level: Level, p: Vpn, stop: Level, gate: Gate): Option<nat>
    requires stop <= level
    decreases level
  {
    if level == stop then Some(f) else
    var e := Entry(m, f, IndexAt(p, level));
    if Passable(level, e, gate) then Guided(m, e.frame, level - 1, p, stop, gate) else None
  }

  /** From the table that the gates lead to, one more good entry leads one level further. */
  lemma {:induction false} GuidedDown(m: Mem, m': Mem, root: nat, own: map<nat, Path>, h: nat, level: Level, p: Vpn,
                                      stop: Level, f: nat, gate: Gate)
    requires Tree(m, root, own) && h in own && own[h] == PathAt(p, level) && f in own && own[f] == PathAt(p, stop)
    requires 1 < stop <= level && Guided(m, h, level, p, stop, gate) == Some(f)
    requires OnlySlot(m, m', own, f, IndexAt(p, stop)) && Passable(stop, Entry(m', f, IndexAt(p, stop)), gate)
    ensures Guided(m', h, level, p, stop - 1, gate) == Some(Entry(m', f, IndexAt(p, stop)).frame)
    decreases level
  {
    if level > stop {
      GuidedDown(m, m', root, own, Entry(m, h, IndexAt(p, level)).frame, level - 1, p, stop, f, gate);
    }
  }

  /** Upper entries that pass keep doing so. */
  ghost predicate Widened(m: Mem, m': Mem, own: map<nat, Path>, gate: Gate) {
    forall g, j :: g in own && !own[g].P1? && 0 <= j < 512 && Passable(LevelOf(own[g]), Entry(m, g, j), gate) ==>
      Passable(LevelOf(own[g]), Entry(m', g, j), gate) && Entry(m', g, j).frame == Entry(m, g, j).frame
  }

  lemma {:induction false} GuidedStays(m: Mem, m': Mem, root: nat, own: map<nat, Path>, f: nat, level: Level, p: Vpn,
                                       stop: Level, gate: Gate)
    requires Tree(m, root, own) && f in own && own[f] == PathAt(p, level) && Widened(m, m', own, gate)
    requires stop <= level && Guided(m, f, level, p, stop, gate).Some?
    ensures Guided(m', f, level, p, stop, gate) == Guided(m, f, level, p, stop, gate)
    decreases level
  {
    if level > stop {
      GuidedStays(m, m', root, own, Entry(m, f, IndexAt(p, level)).frame, level - 1, p, stop, gate);
    }
  }

  /** Behind gates for the user, a user page of 4 KiB is the user's. */
  lemma {:induction false} GuidedForUser(m: Mem, off: u64, f: nat, level: Level, p: Vpn, gate: Gate)
    requires Guided(m, f, level, p, 1, gate).Some?
    requires var l := WalkFrom(m, off, f, level, p); l.Some? && l.value.word.user
    ensures UserWalkFrom(m, off, f, level, p) == Some(WalkFrom(m, off, f, level, p).value.word)
    decreases level
  {
    if level > 1 {
      GuidedForUser(m, off, Entry(m, f, IndexAt(p, level)).frame, level - 1, p, gate);
    }
  }
}
