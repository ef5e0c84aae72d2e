/** Mapping and unmapping single pages in a page table. */
module Mapping {
  import opened Memory
  import opened Frames
  import opened PageTables

  datatype Error = AlignmentError | OutOfMemory | AlreadyMapped | NotMapped | InvalidAddress
                 | PermissionDenied | InvalidParam

  datatype Result<+T> = Ok(value: T) | Err(error: Error)

  /** A page table whose tables are out of the allocator's reach. */
  ghost predicate Space(k: Machine, root: nat, own: map<nat, Path>)
    reads k
  {
    && k.Ok()
    && Tree(k.mem, root, own)
    && forall f :: f in own ==> f !in k.avail
  }

  /** The direct map covers every usable frame. */
  ghost predicate Covers(k: Machine) {
    forall f :: IsUsable(k.regions, f) ==> Reachable(k.physOffset, f)
  }

  ghost predicate Extends(own: map<nat, Path>, own': map<nat, Path>) {
    forall f :: f in own ==> f in own' && own'[f] == own[f]
  }

  /** A change to the tables, with new ones made of frames that were available. Frames that
      are no longer available became tables or cannot be reached. */
  ghost predicate TablesDrawn(m: Mem, m': Mem, off: u64, own: map<nat, Path>, own': map<nat, Path>, avail: iset<nat>,
                              avail': iset<nat>) {
    && Extends(own, own') && avail' <= avail
    && (forall g :: g in avail && g !in avail' ==> g in own' || !Reachable(off, g))
    && (forall g :: g in own' ==> g in own || g in avail)
    && (forall g :: g !in own && g !in avail ==> PageAt(m', g) == PageAt(m, g))
  }

  /** Such a change that no walk notices. */
  ghost predicate Enlarged(m: Mem, m': Mem, off: u64, root: nat, own: map<nat, Path>, own': map<nat, Path>,
                           avail: iset<nat>, avail': iset<nat>) {
    TablesDrawn(m, m', off, own, own', avail, avail') && SameWalks(m, m', off, root)
  }

  lemma EnlargedTrans(m: Mem, m1: Mem, m2: Mem, off: u64, root: nat, own: map<nat, Path>, own1: map<nat, Path>,
                      own2: map<nat, Path>, avail: iset<nat>, avail1: iset<nat>, avail2: iset<nat>)
    requires Enlarged(m, m1, off, root, own, own1, avail, avail1)
      && Enlarged(m1, m2, off, root, own1, own2, avail1, avail2)
    ensures Enlarged(m, m2, off, root, own, own2, avail, avail2)
  {
  }

  /** No frame is left, or the frame just taken is outside the direct map. */
  ghost predicate NoTable(off: u64, before: iset<nat>, avail: iset<nat>) {
    avail == iset{} || exists g :: g in before && g !in avail && !Reachable(off, g)
  }

  /** Why page `p` cannot be mapped: no table can be made, or a table on its path lies
      outside the direct map. */
  ghost predicate Stuck(m: Mem, off: u64, root: nat, p: Vpn, before: iset<nat>, avail: iset<nat>) {
    NoTable(off, before, avail) || Dangles(m, off, root, 4, p)
  }

  /** Zeroes frame `g` and hangs it into the empty slot `i` of table `f`. */
  method HangTable(k: Machine, root: nat, f: nat, i: Index, g: FrameNo, user: bool, ghost own: map<nat, Path>)
    requires Space(k, root, own) && g !in own && g !in k.avail
    requires f in own && !own[f].P1? && !Entry(k.mem, f, i).present
    modifies k`mem
    ensures Space(k, root, own[g := Child(own[f], i)])
    ensures SameWalks(old(k.mem), k.mem, k.physOffset, root)
    ensures k.mem == SetEntry(old(k.mem)[g := ZERO_PAGE], f, i, Word(g, true, true, user, false, false, 0))
    ensures OnlySlot(old(k.mem), k.mem, own, f, i) && Entry(k.mem, f, i) == Word(g, true, true, user, false, false, 0)
    ensures forall h :: h !in own && h != g ==> PageAt(k.mem, h) == PageAt(old(k.mem), h)
  {
    var w := Word(g, true, true, user, false, false, 0);
    GrowKeeps(k.mem, k.physOffset, root, own, f, i, w);
    k.Zero(g);
    k.Store(f, i, w);
  }

  /** Puts a fresh zeroed table into the empty slot `i` of table `f`. */
  method CreateTable(k: Machine, root: nat, f: nat, i: Index, user: bool, ghost own: map<nat, Path>)
    returns (r: Result<nat>, ghost own': map<nat, Path>)
    requires Space(k, root, own)
    requires f in own && !own[f].P1? && !Entry(k.mem, f, i).present
    modifies k
    ensures Space(k, root, own')
    ensures Enlarged(old(k.mem), k.mem, k.physOffset, root, own, own', old(k.avail), k.avail)
    ensures OnlySlot(old(k.mem), k.mem, own, f, i)
    ensures r.Ok? ==> r.value in old(k.avail) && own' == own[r.value := Child(own[f], i)]
    ensures r.Ok? ==>
      r.value < 0x100_0000_0000 && Entry(k.mem, f, i) == Word(r.value, true, true, user, false, false, 0)
    ensures r.Err? ==> r.error == OutOfMemory && own' == own && NoTable(k.physOffset, old(k.avail), k.avail)
  {
    var g := k.AllocateFrame();
    if g.None? {
      return Err(OutOfMemory), own;
    }
    TreeFrame(old(k.mem), k.mem, k.physOffset, root, own);
    if !Reachable(k.physOffset, g.value) {
      return Err(OutOfMemory), own;
    }
    UsableIsFrameNo(k.regions, g.value);
    HangTable(k, root, f, i, g.value, user, own);
    return Ok(g.value), own[g.value := Child(own[f], i)];
  }

  /** The table below slot `i` of table `f`, created if the slot is empty. */
  method NextTable(k: Machine, root: nat, f: nat, i: Index, user: bool, ghost own: map<nat, Path>)
    returns (r: Result<nat>, ghost own': map<nat, Path>)
    requires Space(k, root, own)
    requires f in own && !own[f].P1?
    requires Entry(k.mem, f, i).present ==> PointsToTable(own[f], Entry(k.mem, f, i))
    modifies k
    ensures Space(k, root, own')
    ensures Enlarged(old(k.mem), k.mem, k.physOffset, root, own, own', old(k.avail), k.avail)
    ensures OnlySlot(old(k.mem), k.mem, own, f, i)
    ensures r.Ok? ==> r.value in own' && own'[r.value] == Child(own[f], i)
    ensures r.Ok? ==> PointsToTable(own[f], Entry(k.mem, f, i)) && Entry(k.mem, f, i).frame == r.value
    ensures r.Ok? && user ==> Entry(k.mem, f, i).user
    ensures r.Err? ==>
      r.error == OutOfMemory && NoTable(k.physOffset, old(k.avail), k.avail) && !Entry(old(k.mem), f, i).present
  {
    var e := k.Load(f, i);
    if !e.present {
      r, own' := CreateTable(k, root, f, i, user, own);
      return;
    }
    if user && !e.user {
      ReflagKeeps(k.mem, k.physOffset, root, own, f, i, e.(user := true));
      k.Store(f, i, e.(user := true));
    }
    return Ok(e.frame), own;
  }

  /** Page `p` lies inside a 2 MiB or 1 GiB mapping. */
  ghost predicate InHugePage(m: Mem, off: u64, root: nat, p: Vpn) {
    Walk(m, off, root, p).Some? && Walk(m, off, root, p).value.level > 1
  }

  /** The table below table `f` on the way to page `p`, created if missing. */
  method Descend(k: Machine, root: nat, p: Vpn, level: Level, f: nat, user: bool, ghost own: map<nat, Path>)
    returns (r: Result<nat>, ghost own': map<nat, Path>)
    requires Space(k, root, own) && level > 1
    requires f in own && own[f] == PathAt(p, level) && Lead(k.mem, k.physOffset, root, 4, p, level) == Some(f)
    requires user ==> Guided(k.mem, root, 4, p, level, ForUser) == Some(f)
    modifies k
    ensures Space(k, root, own')
    ensures Enlarged(old(k.mem), k.mem, k.physOffset, root, own, own', old(k.avail), k.avail)
    ensures r.Ok? ==>
      && r.value in own' && own'[r.value] == PathAt(p, level - 1)
      && Lead(k.mem, k.physOffset, root, 4, p, level - 1) == Some(r.value)
    ensures r.Ok? && user ==> Guided(k.mem, root, 4, p, level - 1, ForUser) == Some(r.value)
    ensures r == Err(AlreadyMapped) ==> InHugePage(old(k.mem), k.physOffset, root, p)
    ensures r.Err? && r.error != AlreadyMapped ==>
      r.error == OutOfMemory && Walk(old(k.mem), k.physOffset, root, p) == None
    ensures r == Err(OutOfMemory) ==> Stuck(k.mem, k.physOffset, root, p, old(k.avail), k.avail)
  {
    var e := k.Load(f, IndexAt(p, level));
    LeadWalk(k.mem, k.physOffset, root, 4, p, level);
    if level < 4 && e.present && e.huge {
      return Err(AlreadyMapped), own;
    }
    ghost var m := k.mem;
    r, own' := NextTable(k, root, f, IndexAt(p, level), user, own);
    if r.Err? {
      return Err(OutOfMemory), own';
    }
    if !Reachable(k.physOffset, r.value) {
      LeadFrame(m, k.mem, k.physOffset, root, own, root, 4, p, level, f, IndexAt(p, level));
      LeadDangles(k.mem, k.physOffset, root, 4, p, level, f);
      return Err(OutOfMemory), own';
    }
    LeadDown(m, k.mem, k.physOffset, root, own, root, 4, p, level, f, r.value);
    if user {
      GuidedDown(m, k.mem, root, own, root, 4, p, level, f, ForUser);
    }
  }

  /** The table at level `stop` that covers page `p`, with missing tables created. */
  method TableFor(k: Machine, root: nat, p: Vpn, stop: Level, user: bool, ghost own: map<nat, Path>)
    returns (r: Result<nat>, ghost own': map<nat, Path>)
    requires Space(k, root, own)
    modifies k
    ensures Space(k, root, own')
    ensures Enlarged(old(k.mem), k.mem, k.physOffset, root, own, own', old(k.avail), k.avail)
    ensures r.Ok? ==>
      && r.value in own' && own'[r.value] == PathAt(p, stop)
      && Lead(k.mem, k.physOffset, root, 4, p, stop) == Some(r.value)
    ensures r.Ok? && user ==> Guided(k.mem, root, 4, p, stop, ForUser) == Some(r.value)
    ensures r == Err(AlreadyMapped) ==> InHugePage(old(k.mem), k.physOffset, root, p)
    ensures r.Err? && r.error != AlreadyMapped ==>
      r.error == OutOfMemory && Walk(old(k.mem), k.physOffset, root, p) == None
    ensures r == Err(OutOfMemory) ==> Stuck(k.mem, k.physOffset, root, p, old(k.avail), k.avail)
    decreases 4 - stop
  {
    if stop == 4 {
      return if Reachable(k.physOffset, root) then Ok(root) else Err(OutOfMemory), own;
    }
    r, own' := TableFor(k, root, p, stop + 1, user, own);
    if r.Ok? {
      ghost var m, own1, avail := k.mem, own', k.avail;
      r, own' := Descend(k, root, p, stop + 1, r.value, user, own');
      EnlargedTrans(old(k.mem), m, k.mem, k.physOffset, root, own, own1, own', old(k.avail), avail, k.avail);
    }
  }

  /** The level-1 table that covers page `p`, with missing tables created. */
  method LeafTable(k: Machine, root: nat, p: Vpn, user: bool, ghost own: map<nat, Path>)
    returns (r: Result<nat>, ghost own': map<nat, Path>)
    requires Space(k, root, own)
    modifies k
    ensures Space(k, root, own')
    ensures Enlarged(old(k.mem), k.mem, k.physOffset, root, own, own', old(k.avail), k.avail)
    ensures r.Ok? ==>
      r.value in own' && own'[r.value] == PathAt(p, 1) && Lead(k.mem, k.physOffset, root, 4, p, 1) == Some(r.value)
    ensures r.Ok? && user ==> Guided(k.mem, root, 4, p, 1, ForUser) == Some(r.value)
    ensures r == Err(AlreadyMapped) <==> InHugePage(old(k.mem), k.physOffset, root, p)
    ensures r.Err? && r.error != AlreadyMapped ==> r.error == OutOfMemory
    ensures r == Err(OutOfMemory) ==> Stuck(k.mem, k.physOffset, root, p, old(k.avail), k.avail)
  {
    r, own' := TableFor(k, root, p, 1, user, own);
    if r.Ok? {
      LeadWalk(k.mem, k.physOffset, root, 4, p, 1);
    }
  }

  lemma DrawnThenWritten(m: Mem, m1: Mem, m2: Mem, off: u64, root: nat, own: map<nat, Path>, own': map<nat, Path>,
                         avail: iset<nat>, avail': iset<nat>, p: Vpn, l1: nat)
    requires Enlarged(m, m1, off, root, own, own', avail, avail') && l1 in own'
    requires OtherWalks(m1, m2, off, root, p) && forall g :: g != l1 ==> PageAt(m2, g) == PageAt(m1, g)
    ensures TablesDrawn(m, m2, off, own, own', avail, avail') && OtherWalks(m, m2, off, root, p)
  {
  }

  lemma WrittenForUser(m: Mem, m': Mem, off: u64, root: nat, own: map<nat, Path>, p: Vpn, l1: nat)
    requires Tree(m, root, own) && l1 in own && own[l1].P1? && Guided(m, root, 4, p, 1, ForUser) == Some(l1)
    requires forall g :: g != l1 ==> PageAt(m', g) == PageAt(m, g)
    requires var l := Walk(m', off, root, p); l.Some? && l.value.word.user
    ensures UserWalkFrom(m', off, root, 4, p) == Some(Walk(m', off, root, p).value.word)
  {
    GuidedStays(m, m', root, own, root, 4, p, 1, ForUser);
    GuidedForUser(m', off, root, 4, p, ForUser);
  }

  /** Writes `w` into the level-1 entry of page `p`, with missing tables created. */
  method InstallLeaf(k: Machine, root: nat, p: Vpn, w: Word, user: bool, ghost own: map<nat, Path>)
    returns (r: Result<()>, ghost own': map<nat, Path>)
    requires Space(k, root, own) && w.present
    modifies k
    ensures Space(k, root, own')
    ensures TablesDrawn(old(k.mem), k.mem, k.physOffset, own, own', old(k.avail), k.avail)
    ensures OtherWalks(old(k.mem), k.mem, k.physOffset, root, p)
    ensures r.Ok? ==> Walk(k.mem, k.physOffset, root, p) == Some(Leaf(w.frame, w, 1))
    ensures r.Ok? && user && w.user ==> UserWalkFrom(k.mem, k.physOffset, root, 4, p) == Some(w)
    ensures r.Err? ==> SameWalks(old(k.mem), k.mem, k.physOffset, root)
    ensures r == Err(AlreadyMapped) <==> InHugePage(old(k.mem), k.physOffset, root, p)
    ensures r.Err? && r.error != AlreadyMapped ==> r.error == OutOfMemory
    ensures r == Err(OutOfMemory) ==> Stuck(k.mem, k.physOffset, root, p, old(k.avail), k.avail)
  {
    var t;
    t, own' := LeafTable(k, root, p, user, own);
    if t.Err? {
      return Err(t.error), own';
    }
    ghost var m := k.mem;
    WriteLeaf(k, root, p, t.value, w, own');
    DrawnThenWritten(old(k.mem), m, k.mem, k.physOffset, root, own, own', old(k.avail), k.avail, p, t.value);
    if user && w.user {
      WrittenForUser(m, k.mem, k.physOffset, root, own', p, t.value);
    }
    r := Ok(());
  }

  /** Writes the level-1 entry of page `p` in the table that `p` is led to. */
  method WriteLeaf(k: Machine, root: nat, p: Vpn, l1: nat, w: Word, ghost own: map<nat, Path>)
    requires Space(k, root, own) && l1 in own && own[l1] == PathAt(p, 1)
    requires Lead(k.mem, k.physOffset, root, 4, p, 1) == Some(l1)
    modifies k`mem
    ensures Space(k, root, own)
    ensures OtherWalks(old(k.mem), k.mem, k.physOffset, root, p)
    ensures Walk(k.mem, k.physOffset, root, p) == if w.present then Some(Leaf(w.frame, w, 1)) else None
    ensures OnlySlot(old(k.mem), k.mem, own, l1, p.i1) && Entry(k.mem, l1, p.i1) == w
    ensures forall g :: g != l1 ==> PageAt(k.mem, g) == PageAt(old(k.mem), g)
  {
    LeafKeeps(k.mem, k.physOffset, root, own, l1, p, w);
    LeafWalk(k.mem, k.physOffset, root, own, p, l1, w);
    k.Store(l1, p.i1, w);
  }

  /** The walk of `p` ends in whatever is written to its level-1 slot. */
  lemma LeafWalk(m: Mem, off: u64, root: nat, own: map<nat, Path>, p: Vpn, l1: nat, w: Word)
    requires Tree(m, root, own) && l1 in own && own[l1] == PathAt(p, 1)
    requires Lead(m, off, root, 4, p, 1) == Some(l1)
    ensures Walk(SetEntry(m, l1, p.i1, w), off, root, p) == if w.present then Some(Leaf(w.frame, w, 1)) else None
  {
    var m' := SetEntry(m, l1, p.i1, w);
    EntryAfterSet(m, l1, p.i1, w);
    LeadFrame(m, m', off, root, own, root, 4, p, 1, l1, p.i1);
    LeadWalk(m', off, root, 4, p, 1);
  }

  /** Maps virtual page `virt` to physical page `phys`. */
  method MapPage(k: Machine, table: u64, virt: u64, phys: nat, writable: bool, user: bool, ghost own: map<nat, Path>)
    returns (r: Result<()>, ghost own': map<nat, Path>)
    requires Space(k, table / 4096, own)
    requires Canonical(virt) && phys < 0x10_0000_0000_0000
    modifies k
    ensures Space(k, table / 4096, own')
    ensures TablesDrawn(old(k.mem), k.mem, k.physOffset, own, own', old(k.avail), k.avail)
    ensures OtherWalks(old(k.mem), k.mem, k.physOffset, table / 4096, PageOf(virt))
    ensures r.Ok? ==> Walk(k.mem, k.physOffset, table / 4096, PageOf(virt))
                      == Some(Leaf(phys / 4096, Word(phys / 4096, true, writable, user, false, false, 0), 1))
    ensures r.Ok? && user ==> UserWalkFrom(k.mem, k.physOffset, table / 4096, 4, PageOf(virt))
                              == Some(Word(phys / 4096, true, writable, true, false, false, 0))
    ensures r.Err? ==> SameWalks(old(k.mem), k.mem, k.physOffset, table / 4096)
    ensures r == Err(AlignmentError) <==> table % 4096 != 0 || virt % 4096 != 0 || phys % 4096 != 0
    ensures r == Err(AlreadyMapped) <==>
      r != Err(AlignmentError) && InHugePage(old(k.mem), k.physOffset, table / 4096, PageOf(virt))
    ensures r.Err? ==> r.error == AlignmentError || r.error == AlreadyMapped || r.error == OutOfMemory
    ensures r == Err(OutOfMemory) ==> Stuck(k.mem, k.physOffset, table / 4096, PageOf(virt), old(k.avail), k.avail)
  {
    if table % 4096 != 0 || virt % 4096 != 0 || phys % 4096 != 0 {
      return Err(AlignmentError), own;
    }
    var w := Word(phys / 4096, true, writable, user, false, false, 0);
    IndicesArePage(virt);
    r, own' := InstallLeaf(k, table / 4096, Indices(virt), w, user, own);
  }

  /** Clears the level-1 entry of virtual page `virt`, if the walk gets that far. */
  method UnmapPage(k: Machine, table: u64, virt: u64, ghost own: map<nat, Path>) returns (r: Result<()>)
    requires Space(k, table / 4096, own)
    requires Canonical(virt)
    requires !InHugePage(k.mem, k.physOffset, table / 4096, PageOf(virt))
    modifies k`mem
    ensures Space(k, table / 4096, own)
    ensures forall g :: g !in own ==> PageAt(k.mem, g) == PageAt(old(k.mem), g)
    ensures OtherWalks(old(k.mem), k.mem, k.physOffset, table / 4096, PageOf(virt))
    ensures r != Err(AlignmentError) ==> Walk(k.mem, k.physOffset, table / 4096, PageOf(virt)) == None
    ensures r.Err? ==> k.mem == old(k.mem)
    ensures r == Err(AlignmentError) <==> table % 4096 != 0 || virt % 4096 != 0
    ensures r.Err? ==> r.error == AlignmentError || r.error == OutOfMemory
    ensures r == Err(OutOfMemory) <==>
      r != Err(AlignmentError) && Dangles(old(k.mem), k.physOffset, table / 4096, 4, PageOf(virt))
  {
    if table % 4096 != 0 || virt % 4096 != 0 {
      return Err(AlignmentError);
    }
    IndicesArePage(virt);
    r := ClearLeaf(k, table / 4096, Indices(virt), own);
  }

  method ClearLeaf(k: Machine, root: nat, p: Vpn, ghost own: map<nat, Path>) returns (r: Result<()>)
    requires Space(k, root, own)
    requires !InHugePage(k.mem, k.physOffset, root, p)
    modifies k`mem
    ensures Space(k, root, own)
    ensures forall g :: g !in own ==> PageAt(k.mem, g) == PageAt(old(k.mem), g)
    ensures OtherWalks(old(k.mem), k.mem, k.physOffset, root, p)
    ensures Walk(k.mem, k.physOffset, root, p) == None
    ensures r.Err? ==> k.mem == old(k.mem)
    ensures r.Err? ==> r.error == OutOfMemory
    ensures r.Err? <==> Dangles(old(k.mem), k.physOffset, root, 4, p)
  {
    if !Reachable(k.physOffset, root) {
      return Err(OutOfMemory);
    }
    var e4 := k.Load(root, p.i4);
    if !e4.present {
      return Ok(());
    }
    if !Reachable(k.physOffset, e4.frame) {
      return Err(OutOfMemory);
    }
    var e3 := k.Load(e4.frame, p.i3);
    if !e3.present {
      return Ok(());
    }
    if !Reachable(k.physOffset, e3.frame) {
      return Err(OutOfMemory);
    }
    var e2 := k.Load(e3.frame, p.i2);
    if !e2.present {
      return Ok(());
    }
    if !Reachable(k.physOffset, e2.frame) {
      return Err(OutOfMemory);
    }
    assert Lead(k.mem, k.physOffset, e3.frame, 2, p, 1) == Some(e2.frame);
    assert Lead(k.mem, k.physOffset, e4.frame, 3, p, 1) == Some(e2.frame);
    WriteLeaf(k, root, p, e2.frame, ZERO_WORD, own);
    return Ok(());
  }

  // ---- what callers see: addresses ----

  /** Every address outside the page of `v` translates as before. */
  ghost predicate OthersTranslate(m: Mem, m': Mem, off: u64, table: u64, v: nat) {
    forall a: nat :: Canonical(a) && a / 4096 != v / 4096 ==>
      Translate(m', off, table, a) == Translate(m, off, table, a)
  }

  /** Every address of the page of `v` translates to the same offset in frame `f`. */
  ghost predicate PageTranslates(m: Mem, off: u64, table: u64, v: nat, f: nat, w: Word) {
    forall a: nat :: a / 4096 == v / 4096 ==> Translate(m, off, table, a) == Some((f * 4096 + a % 4096, w))
  }

  ghost predicate PageUntranslated(m: Mem, off: u64, table: u64, v: nat) {
    forall a: nat :: a / 4096 == v / 4096 ==> Translate(m, off, table, a) == None
  }

  ghost predicate PageTranslatesAsBefore(m: Mem, m': Mem, off: u64, table: u64, v: nat) {
    forall a: nat :: a / 4096 == v / 4096 ==> Translate(m', off, table, a) == Translate(m, off, table, a)
  }

  lemma OtherWalksTranslate(m: Mem, m': Mem, off: u64, table: u64, v: nat)
    requires Canonical(v) && OtherWalks(m, m', off, table / 4096, PageOf(v))
    ensures OthersTranslate(m, m', off, table, v)
  {
    if table % 4096 == 0 {
      forall a: nat | Canonical(a) && a / 4096 != v / 4096
        ensures Translate(m', off, table, a) == Translate(m, off, table, a)
      {
        PageOfInjective(a, v);
        TranslateIsWalk(m, off, table, a);
        TranslateIsWalk(m', off, table, a);
      }
    }
  }

  lemma WalkGivesTranslations(m: Mem, off: u64, table: u64, v: nat)
    ensures var l := Walk(m, off, table / 4096, PageOf(v));
            && (l == None ==> PageUntranslated(m, off, table, v))
            && (l.Some? && table % 4096 == 0 ==> PageTranslates(m, off, table, v, l.value.frame, l.value.word))
  {
    if table % 4096 == 0 {
      forall a: nat | a / 4096 == v / 4096
        ensures var l := Walk(m, off, table / 4096, PageOf(v));
                Translate(m, off, table, a) ==
                  if l.None? then None else Some((l.value.frame * 4096 + a % 4096, l.value.word))
      {
        TranslateIsWalk(m, off, table, a);
      }
    }
  }

  /** What a change to the walk of one page means for addresses. */
  lemma SeenInAddresses(m: Mem, m': Mem, off: u64, table: u64, v: nat)
    requires Canonical(v) && OtherWalks(m, m', off, table / 4096, PageOf(v))
    ensures OthersTranslate(m, m', off, table, v)
    ensures var l, l' := Walk(m, off, table / 4096, PageOf(v)), Walk(m', off, table / 4096, PageOf(v));
            && (l' == l ==> PageTranslatesAsBefore(m, m', off, table, v))
            && (l' == None ==> PageUntranslated(m', off, table, v))
            && (l'.Some? && table % 4096 == 0 ==> PageTranslates(m', off, table, v, l'.value.frame, l'.value.word))
  {
    OtherWalksTranslate(m, m', off, table, v);
    SameWalkTranslates(m, m', off, table, v);
    WalkGivesTranslations(m', off, table, v);
  }

  lemma SameWalkTranslates(m: Mem, m': Mem, off: u64, table: u64, v: nat)
    ensures Walk(m', off, table / 4096, PageOf(v)) == Walk(m, off, table / 4096, PageOf(v)) ==>
              PageTranslatesAsBefore(m, m', off, table, v)
  {
    if Walk(m', off, table / 4096, PageOf(v)) == Walk(m, off, table / 4096, PageOf(v)) && table % 4096 == 0 {
      forall a: nat | a / 4096 == v / 4096 ensures Translate(m', off, table, a) == Translate(m, off, table, a) {
        TranslateIsWalk(m, off, table, a);
        TranslateIsWalk(m', off, table, a);
      }
    }
  }

  /** Maps `virt` to `phys`: afterwards every address of the page translates into
      `phys`, or on an error as before, and every other address always as before. */
  method MapPageInTable(k: Machine, table: u64, virt: u64, phys: nat, writable: bool, user: bool,
                        ghost own: map<nat, Path>)
    returns (r: Result<()>, ghost own': map<nat, Path>)
    requires Space(k, table / 4096, own)
    requires Canonical(virt) && phys < 0x10_0000_0000_0000
    modifies k
    ensures Space(k, table / 4096, own')
    ensures r.Ok? ==> PageTranslates(k.mem, k.physOffset, table, virt, phys / 4096,
                                     Word(phys / 4096, true, writable, user, false, false, 0))
    ensures r.Ok? && user ==> UserWalkFrom(k.mem, k.physOffset, table / 4096, 4, PageOf(virt))
                              == Some(Word(phys / 4096, true, writable, true, false, false, 0))
    ensures r.Err? ==> PageTranslatesAsBefore(old(k.mem), k.mem, k.physOffset, table, virt)
    ensures OthersTranslate(old(k.mem), k.mem, k.physOffset, table, virt)
    ensures r == Err(AlignmentError) <==> table % 4096 != 0 || virt % 4096 != 0 || phys % 4096 != 0
    ensures r == Err(AlreadyMapped) <==>
      r != Err(AlignmentError) && InHugePage(old(k.mem), k.physOffset, table / 4096, PageOf(virt))
    ensures r.Err? ==> r.error == AlignmentError || r.error == AlreadyMapped || r.error == OutOfMemory
    ensures r == Err(OutOfMemory) ==> Stuck(k.mem, k.physOffset, table / 4096, PageOf(virt), old(k.avail), k.avail)
  {
    r, own' := MapPage(k, table, virt, phys, writable, user, own);
    SeenInAddresses(old(k.mem), k.mem, k.physOffset, table, virt);
  }

  /** Mapping a page and unmapping it again leaves it untranslated and every other
      address as it was. */
  method MapThenUnmap(k: Machine, table: u64, virt: u64, phys: nat, writable: bool, user: bool,
                      ghost own: map<nat, Path>)
    returns (r: Result<()>, ghost own': map<nat, Path>)
    requires Space(k, table / 4096, own)
    requires Canonical(virt) && phys < 0x10_0000_0000_0000
    modifies k
    ensures Space(k, table / 4096, own')
    ensures r.Ok? ==> PageUntranslated(k.mem, k.physOffset, table, virt)
    ensures r.Err? ==> PageTranslatesAsBefore(old(k.mem), k.mem, k.physOffset, table, virt)
    ensures OthersTranslate(old(k.mem), k.mem, k.physOffset, table, virt)
  {
    r, own' := MapPage(k, table, virt, phys, writable, user, own);
    if r.Ok? {
      var u := UnmapPage(k, table, virt, own');
    }
    SeenInAddresses(old(k.mem), k.mem, k.physOffset, table, virt);
  }
}
