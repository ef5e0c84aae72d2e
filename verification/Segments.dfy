/** Loading program segments into a page table. */
module Segments {
  import opened Memory
  import opened Frames
  import opened PageTables
  import opened Mapping

  /** Every upper entry on the path of `p` is empty or points to a table. */
  ghost predicate PlainPath(m: Mem, own: map<nat, Path>, p: Vpn) {
    forall f :: f in own && !own[f].P1? && own[f] == PathAt(p, LevelOf(own[f])) ==>
      Plain(Entry(m, f, IndexAt(p, LevelOf(own[f]))))
  }

  predicate Plain(w: Word) {
    w == ZERO_WORD || (w.present && !w.huge)
  }

  /** Level-1 entries are empty or present, and a user page of 4 KiB has its frame to
      itself: `data` says which page a frame backs. */
  ghost predicate Leaves(m: Mem, own: map<nat, Path>, data: map<nat, Vpn>) {
    forall f, i :: f in own && own[f].P1? && 0 <= i < 512 ==>
      var e := Entry(m, f, i);
      && (e == ZERO_WORD || e.present)
      && (e.user ==> e.frame in data && data[e.frame] == Vpn(own[f].i4, own[f].i3, own[f].i2, i))
  }

  ghost predicate Table(k: Machine, root: nat, own: map<nat, Path>, data: map<nat, Vpn>)
    reads k
  {
    && Space(k, root, own)
    && (forall f :: f in own ==> Reachable(k.physOffset, f))
    && Leaves(k.mem, own, data)
    && (forall f :: f in data ==> f !in own && f !in k.avail && Reachable(k.physOffset, f))
  }

  /** A page table made for loading: its tables `own`, the user's pages `data`, and the record
      of where their frames came from. */
  ghost predicate Image(k: Machine, root: nat, own: map<nat, Path>, data: map<nat, Vpn>, o: Origin)
    reads k
  {
    && Table(k, root, own, data)
    && Ledger(k.mem, k.physOffset, k.avail, root, own, data, o)
  }

  /** Where the frames of a page table came from: those it had, and a pool that was available
      then. A table that is not `tracked` keeps no record. */
  datatype Origin = Origin(had: iset<nat>, pool: iset<nat>, tracked: bool)

  const UNTRACKED: Origin := Origin(iset{}, iset{}, false)

  function Lent(o: Origin, g: nat): Origin {
    o.(pool := o.pool - iset{g})
  }

  /** Every frame of the pool is available, a table or a page; and what was added to the table
      can be reached from the root through entries that let the user pass. */
  ghost predicate Ledger(m: Mem, off: u64, avail: iset<nat>, root: nat, own: map<nat, Path>, data: map<nat, Vpn>,
                         o: Origin) {
    o.tracked ==>
      && off != 0 && 0 !in own && 0 !in data
      && (forall g :: g in own ==> g in o.had || g in o.pool)
      && (forall g :: g in data ==> g in o.had || g in o.pool)
      && (forall g :: g in o.pool ==> g in avail || g in own || g in data)
      && (forall g :: g in avail ==> g in o.pool)
      && (forall g :: g in own && g !in o.had ==> Attached(m, root, g, LevelOf(own[g])))
      && (forall g :: g in data && g !in o.had ==> Shown(m, off, root, g, data[g]))
  }

  /** Table `g` hangs in the user's half behind open entries. */
  ghost predicate Attached(m: Mem, root: nat, g: nat, level: Level) {
    exists p :: InUserHalf(p) && OpenTable(m, root, p, level) == Some(g)
  }

  /** Frame `g` is the user's page `p`, behind open entries in the user's half. */
  ghost predicate Shown(m: Mem, off: u64, root: nat, g: nat, p: Vpn) {
    InUserHalf(p) && Open(m, root, p) && UserMapped(m, off, root, p) && Walk(m, off, root, p).value.frame == g
  }

  predicate InUserHalf(p: Vpn) { p.i4 < 256 }

  /** The user's pages keep their frames. */
  ghost predicate FramesKept(m: Mem, m': Mem, off: u64, root: nat) {
    forall q :: UserMapped(m, off, root, q) ==>
      UserMapped(m', off, root, q) && Walk(m', off, root, q).value.frame == Walk(m, off, root, q).value.frame
  }

  lemma SameWalksKeepFrames(m: Mem, m': Mem, off: u64, root: nat)
    requires SameWalks(m, m', off, root)
    ensures FramesKept(m, m', off, root)
  {
  }

  lemma LedgerKept(m: Mem, m': Mem, off: u64, avail: iset<nat>, root: nat, own: map<nat, Path>, data: map<nat, Vpn>,
                   o: Origin)
    requires Ledger(m, off, avail, root, own, data, o) && OpenKept(m, m', root) && FramesKept(m, m', off, root)
    ensures Ledger(m', off, avail, root, own, data, o)
  {
    if o.tracked {
      forall g | g in own && g !in o.had ensures Attached(m', root, g, LevelOf(own[g])) {
        var p :| InUserHalf(p) && OpenTable(m, root, p, LevelOf(own[g])) == Some(g);
        assert OpenTable(m', root, p, LevelOf(own[g])) == Some(g);
      }
      forall g | g in data && g !in o.had ensures Shown(m', off, root, g, data[g]) {
        assert OpenTable(m', root, data[g], 1) == OpenTable(m, root, data[g], 1);
      }
    }
  }

  function Opened(w: Word): Word {
    w.(present := true, writable := true, user := true, nx := false)
  }

  /** The entries that lead to page `p` let the user through, with every right. */
  ghost predicate Open(m: Mem, root: nat, p: Vpn) {
    OpenTable(m, root, p, 1).Some?
  }

  /** The table at level `stop` that page `p` is led to with every right. */
  ghost function OpenTable(m: Mem, root: nat, p: Vpn, stop: Level): Option<nat> {
    Guided(m, root, 4, p, stop, AllRights)
  }

  /** Paths that were plain stay plain, and paths that were open stay open. */
  ghost predicate PathsKept(m: Mem, m': Mem, root: nat, own: map<nat, Path>, own': map<nat, Path>) {
    && (forall q :: PlainPath(m, own, q) ==> PlainPath(m', own', q))
    && OpenKept(m, m', root) && ZeroKept(own, own')
  }

  lemma PathsKeptTrans(m: Mem, m1: Mem, m2: Mem, root: nat, own: map<nat, Path>, own1: map<nat, Path>,
                       own2: map<nat, Path>)
    requires PathsKept(m, m1, root, own, own1) && PathsKept(m1, m2, root, own1, own2)
    ensures PathsKept(m, m2, root, own, own2)
  {
  }

  /** No table is added at address 0. */
  predicate ZeroKept(own: map<nat, Path>, own': map<nat, Path>) {
    0 in own' ==> 0 in own && own'[0] == own[0]
  }

  ghost predicate OpenKept(m: Mem, m': Mem, root: nat) {
    forall q, stop: Level :: OpenTable(m, root, q, stop).Some? ==>
      OpenTable(m', root, q, stop) == OpenTable(m, root, q, stop)
  }

  lemma WidenedKeeps(m: Mem, m': Mem, root: nat, own: map<nat, Path>, own': map<nat, Path>)
    requires Tree(m, root, own) && Widened(m, m', own, AllRights)
    requires (forall q :: PlainPath(m, own, q) ==> PlainPath(m', own', q)) && ZeroKept(own, own')
    ensures PathsKept(m, m', root, own, own')
  {
    forall q, stop: Level | OpenTable(m, root, q, stop).Some?
      ensures OpenTable(m', root, q, stop) == OpenTable(m, root, q, stop)
    {
      GuidedStays(m, m', root, own, root, 4, q, stop, AllRights);
    }
  }

  lemma GrowImage(m: Mem, root: nat, own: map<nat, Path>, data: map<nat, Vpn>, f: nat, i: Index, w: Word)
    requires Tree(m, root, own) && Leaves(m, own, data) && f in own && !own[f].P1?
    requires !Entry(m, f, i).present && w.present && !w.huge && w.frame !in own && w.frame != 0
    ensures var m', own' := SetEntry(m[w.frame := ZERO_PAGE], f, i, w), own[w.frame := Child(own[f], i)];
            Leaves(m', own', data) && PathsKept(m, m', root, own, own')
  {
    var m' := SetEntry(m[w.frame := ZERO_PAGE], f, i, w);
    assert forall g, j :: 0 <= j < 512 ==>
      Entry(m', g, j) == if g == f && j == i then w else if g == w.frame then ZERO_WORD else Entry(m, g, j);
    WidenedKeeps(m, m', root, own, own[w.frame := Child(own[f], i)]);
  }

  lemma ReflagImage(m: Mem, root: nat, own: map<nat, Path>, data: map<nat, Vpn>, f: nat, i: Index, w: Word)
    requires Tree(m, root, own) && Leaves(m, own, data) && f in own && !own[f].P1?
    requires w == Opened(Entry(m, f, i)) && !w.huge
    ensures Leaves(SetEntry(m, f, i, w), own, data) && PathsKept(m, SetEntry(m, f, i, w), root, own, own)
  {
    EntryAfterSet(m, f, i, w);
    WidenedKeeps(m, SetEntry(m, f, i, w), root, own, own);
  }

  lemma LeavesFrame(m: Mem, m': Mem, root: nat, own: map<nat, Path>, data: map<nat, Vpn>)
    requires Tree(m, root, own) && Leaves(m, own, data)
    requires forall f :: f in own ==> PageAt(m', f) == PageAt(m, f)
    ensures Leaves(m', own, data) && PathsKept(m, m', root, own, own)
  {
    assert forall f, i :: f in own && 0 <= i < 512 ==> Entry(m', f, i) == Entry(m, f, i);
    WidenedKeeps(m, m', root, own, own);
  }

  /** A lent frame comes back as a table, as a page or as it was. */
  lemma LentAsTable(m: Mem, m': Mem, off: u64, avail: iset<nat>, root: nat, own: map<nat, Path>, data: map<nat, Vpn>,
                    o: Origin, g: nat, q: Path, p: Vpn)
    requires Ledger(m, off, avail, root, own, data, Lent(o, g)) && OpenKept(m, m', root) && FramesKept(m, m', off, root)
    requires o.tracked ==> g in o.pool && g != 0 && InUserHalf(p)
    requires OpenTable(m', root, p, LevelOf(q)) == Some(g)
    ensures Ledger(m', off, avail, root, own[g := q], data, o)
  {
    LedgerKept(m, m', off, avail, root, own, data, Lent(o, g));
  }

  lemma LentAsPage(m: Mem, m': Mem, off: u64, avail: iset<nat>, root: nat, own: map<nat, Path>, data: map<nat, Vpn>,
                   o: Origin, g: nat, p: Vpn)
    requires Ledger(m, off, avail, root, own, data, Lent(o, g)) && OpenKept(m, m', root) && FramesKept(m, m', off, root)
    requires o.tracked ==> g in o.pool && g != 0 && Shown(m', off, root, g, p)
    ensures Ledger(m', off, avail, root, own, data[g := p], o)
  {
    LedgerKept(m, m', off, avail, root, own, data, Lent(o, g));
  }

  lemma LentReturned(m: Mem, m': Mem, off: u64, avail: iset<nat>, root: nat, own: map<nat, Path>, data: map<nat, Vpn>,
                     o: Origin, g: nat)
    requires Ledger(m, off, avail, root, own, data, Lent(o, g)) && OpenKept(m, m', root) && FramesKept(m, m', off, root)
    requires o.tracked ==> g in o.pool
    ensures Ledger(m', off, avail + iset{g}, root, own, data, o)
  {
    LedgerKept(m, m', off, avail, root, own, data, Lent(o, g));
  }

  /** A change that only adds or opens tables, with frames taken from `avail`. */
  ghost predicate Kept(m: Mem, m': Mem, off: u64, root: nat, own: map<nat, Path>, own': map<nat, Path>,
                       avail: iset<nat>) {
    && Extends(own, own')
    && (forall g :: g in own' ==> g in own || g in avail)
    && SameWalks(m, m', off, root)
    && PathsKept(m, m', root, own, own')
    && (forall g :: g !in own && g !in avail ==> PageAt(m', g) == PageAt(m, g))
  }

  lemma KeptTrans(m: Mem, m1: Mem, m2: Mem, off: u64, root: nat, own: map<nat, Path>, own1: map<nat, Path>,
                  own2: map<nat, Path>, avail: iset<nat>, avail1: iset<nat>)
    requires Kept(m, m1, off, root, own, own1, avail) && Kept(m1, m2, off, root, own1, own2, avail1) && avail1 <= avail
    ensures Kept(m, m2, off, root, own, own2, avail)
  {
  }

  twostate predicate TablesOnly(k: Machine, root: nat, own: map<nat, Path>, own': map<nat, Path>, data: map<nat, Vpn>,
                                o: Origin)
    reads k
  {
    && Image(k, root, own', data, o)
    && k.avail <= old(k.avail)
    && Kept(old(k.mem), k.mem, k.physOffset, root, own, own', old(k.avail))
  }

  /** Takes a frame from the allocator; tables and pages are as before. */
  method TakeFrame(k: Machine, root: nat, ghost own: map<nat, Path>, ghost data: map<nat, Vpn>, ghost o: Origin)
    returns (g: Option<nat>)
    requires Image(k, root, own, data, o)
    modifies k
    ensures TablesOnly(k, root, own, own, data, if g.Some? then Lent(o, g.value) else o)
    ensures forall h :: h in own ==> PageAt(k.mem, h) == PageAt(old(k.mem), h)
    ensures g.None? ==> k.avail == iset{}
    ensures g.Some? ==> Taken(k, g.value, o) && g.value in old(k.avail)
  {
    g := k.AllocateFrame();
    TreeFrame(old(k.mem), k.mem, k.physOffset, root, own);
    LeavesFrame(old(k.mem), k.mem, root, own, data);
    SameWalksKeepFrames(old(k.mem), k.mem, k.physOffset, root);
    LedgerKept(old(k.mem), k.mem, k.physOffset, old(k.avail), root, own, data, o);
    if g.Some? {
      UsableIsFrameNo(k.regions, g.value);
      LedgerLent(k.mem, k.physOffset, old(k.avail), root, own, data, o, g.value);
    }
  }

  lemma LedgerLent(m: Mem, off: u64, avail: iset<nat>, root: nat, own: map<nat, Path>, data: map<nat, Vpn>, o: Origin,
                   g: nat)
    requires Ledger(m, off, avail, root, own, data, o) && g in avail && g !in own && g !in data
    ensures Ledger(m, off, avail - iset{g}, root, own, data, Lent(o, g)) && (o.tracked ==> g in o.pool)
  {
  }

  /** Frame `g` was taken from the allocator and the pool. */
  ghost predicate Taken(k: Machine, g: nat, o: Origin)
    reads k
  {
    0 < g < 0x100_0000_0000 && g !in k.avail && IsUsable(k.regions, g) && (o.tracked ==> g in o.pool)
  }

  /** The tables, as page `p` needs them, lead to table `f`. */
  ghost predicate LedTo(m: Mem, off: u64, root: nat, own: map<nat, Path>, p: Vpn, level: Level, f: nat) {
    && f in own && own[f] == PathAt(p, level)
    && Lead(m, off, root, 4, p, level) == Some(f) && OpenTable(m, root, p, level) == Some(f)
  }

  /** Zeroes frame `g` and hangs it into the empty slot of table `f` on the way to page `p`. */
  method Hang(k: Machine, root: nat, p: Vpn, level: Level, f: nat, g: FrameNo,
              ghost own: map<nat, Path>, ghost data: map<nat, Vpn>, ghost o: Origin)
    requires Image(k, root, own, data, Lent(o, g)) && Taken(k, g, o) && (o.tracked ==> InUserHalf(p))
    requires g !in own && g !in data && Reachable(k.physOffset, g)
    requires level > 1 && LedTo(k.mem, k.physOffset, root, own, p, level, f)
      && !Entry(k.mem, f, IndexAt(p, level)).present
    modifies k`mem
    ensures Image(k, root, own[g := PathAt(p, level - 1)], data, o)
    ensures SameWalks(old(k.mem), k.mem, k.physOffset, root)
    ensures PathsKept(old(k.mem), k.mem, root, own, own[g := PathAt(p, level - 1)])
    ensures OnlySlot(old(k.mem), k.mem, own, f, IndexAt(p, level))
    ensures forall h :: h !in own && h != g ==> PageAt(k.mem, h) == PageAt(old(k.mem), h)
    ensures Entry(k.mem, f, IndexAt(p, level)) == Word(g, true, true, true, false, false, 0)
  {
    ghost var m := k.mem;
    var i := IndexAt(p, level);
    GrowImage(m, root, own, data, f, i, Word(g, true, true, true, false, false, 0));
    HangTable(k, root, f, i, g, true, own);
    GuidedDown(m, k.mem, root, own, root, 4, p, level, f, AllRights);
    SameWalksKeepFrames(m, k.mem, k.physOffset, root);
    LentAsTable(m, k.mem, k.physOffset, k.avail, root, own, data, o, g, PathAt(p, level - 1), p);
  }

  /** A fresh zeroed table in an empty slot. */
  method NewTable(k: Machine, root: nat, p: Vpn, level: Level, f: nat,
                  ghost own: map<nat, Path>, ghost data: map<nat, Vpn>, ghost o: Origin)
    returns (r: Result<nat>, ghost own': map<nat, Path>)
    requires Image(k, root, own, data, o) && Covers(k) && (o.tracked ==> InUserHalf(p))
    requires level > 1 && LedTo(k.mem, k.physOffset, root, own, p, level, f)
      && !Entry(k.mem, f, IndexAt(p, level)).present
    modifies k
    ensures TablesOnly(k, root, own, own', data, o)
    ensures OnlySlot(old(k.mem), k.mem, own, f, IndexAt(p, level))
    ensures r.Ok? ==> r.value in own' && own'[r.value] == PathAt(p, level - 1)
    ensures r.Ok? ==> OpenEntry(level, Entry(k.mem, f, IndexAt(p, level)), r.value)
    ensures r.Err? ==> r.error == OutOfMemory && k.avail == iset{}
  {
    own' := own;
    ghost var m := k.mem;
    var g := TakeFrame(k, root, own, data, o);
    if g.None? {
      return Err(OutOfMemory), own;
    }
    assert OnlySlot(m, k.mem, own, f, IndexAt(p, level));
    LeadFrame(m, k.mem, k.physOffset, root, own, root, 4, p, level, f, IndexAt(p, level));
    ghost var m1 := k.mem;
    Hang(k, root, p, level, f, g.value, own, data, o);
    own' := own[g.value := PathAt(p, level - 1)];
    PathsKeptTrans(m, m1, k.mem, root, own, own, own');
    r := Ok(g.value);
  }

  /** An entry that leads to table `g` with every right. */
  predicate OpenEntry(level: Level, w: Word, g: nat) {
    Passable(level, w, AllRights) && !w.huge && w.frame == g
  }

  /** One level of the hierarchy: a fresh table in an empty slot, or an existing table
      opened up for the user. */
  method EnsureTable(k: Machine, root: nat, p: Vpn, level: Level, f: nat,
                     ghost own: map<nat, Path>, ghost data: map<nat, Vpn>, ghost o: Origin)
    returns (r: Result<nat>, ghost own': map<nat, Path>)
    requires Image(k, root, own, data, o) && Covers(k) && (o.tracked ==> InUserHalf(p))
    requires level > 1 && LedTo(k.mem, k.physOffset, root, own, p, level, f)
      && Plain(Entry(k.mem, f, IndexAt(p, level)))
    modifies k
    ensures TablesOnly(k, root, own, own', data, o)
    ensures OnlySlot(old(k.mem), k.mem, own, f, IndexAt(p, level))
    ensures r.Ok? ==> r.value in own' && own'[r.value] == PathAt(p, level - 1)
    ensures r.Ok? ==> OpenEntry(level, Entry(k.mem, f, IndexAt(p, level)), r.value)
    ensures r.Err? ==> r.error == OutOfMemory && k.avail == iset{}
  {
    var e := k.Load(f, IndexAt(p, level));
    if e == ZERO_WORD {
      r, own' := NewTable(k, root, p, level, f, own, data, o);
      return;
    }
    OpenUp(k, root, f, IndexAt(p, level), e, own, data, o);
    return Ok(e.frame), own;
  }

  /** Gives the user every right at an entry that leads to a table. */
  method OpenUp(k: Machine, root: nat, f: nat, i: Index, e: Word,
                ghost own: map<nat, Path>, ghost data: map<nat, Vpn>, ghost o: Origin)
    requires Image(k, root, own, data, o)
    requires f in own && !own[f].P1? && Entry(k.mem, f, i) == e && e.present && !e.huge
    modifies k`mem
    ensures Image(k, root, own, data, o) && k.mem == SetEntry(old(k.mem), f, i, Opened(e))
    ensures SameWalks(old(k.mem), k.mem, k.physOffset, root) && PathsKept(old(k.mem), k.mem, root, own, own)
    ensures OnlySlot(old(k.mem), k.mem, own, f, i) && Entry(k.mem, f, i) == Opened(e)
    ensures forall h :: h !in own ==> PageAt(k.mem, h) == PageAt(old(k.mem), h)
  {
    ghost var m := k.mem;
    ReflagKeeps(m, k.physOffset, root, own, f, i, Opened(e));
    ReflagImage(m, root, own, data, f, i, Opened(e));
    k.Store(f, i, Opened(e));
    SameWalksKeepFrames(m, k.mem, k.physOffset, root);
    LedgerKept(m, k.mem, k.physOffset, k.avail, root, own, data, o);
  }

  /** Creates or opens the tables that page `p` needs, from the root down to level `stop`. */
  method EnsureHierarchy(k: Machine, root: nat, p: Vpn, stop: Level,
                         ghost own: map<nat, Path>, ghost data: map<nat, Vpn>, ghost o: Origin)
    returns (r: Result<nat>, ghost own': map<nat, Path>)
    requires Image(k, root, own, data, o) && Covers(k) && PlainPath(k.mem, own, p) && (o.tracked ==> InUserHalf(p))
    modifies k
    ensures TablesOnly(k, root, own, own', data, o)
    ensures r.Ok? ==> LedTo(k.mem, k.physOffset, root, own', p, stop, r.value)
    ensures r.Err? ==> r.error == OutOfMemory && k.avail == iset{}
    decreases 4 - stop
  {
    if stop == 4 {
      return Ok(root), own;
    }
    r, own' := EnsureHierarchy(k, root, p, stop + 1, own, data, o);
    if r.Ok? {
      ghost var m, before, avail := k.mem, own', k.avail;
      r, own' := EnsureStep(k, root, p, stop, r.value, own', data, o);
      KeptTrans(old(k.mem), m, k.mem, k.physOffset, root, own, before, own', old(k.avail), avail);
    }
  }

  /** One level further down, from the table that `p` is led to. */
  method EnsureStep(k: Machine, root: nat, p: Vpn, stop: Level, f: nat,
                    ghost own: map<nat, Path>, ghost data: map<nat, Vpn>, ghost o: Origin)
    returns (r: Result<nat>, ghost own': map<nat, Path>)
    requires Image(k, root, own, data, o) && Covers(k) && PlainPath(k.mem, own, p) && stop < 4
    requires LedTo(k.mem, k.physOffset, root, own, p, stop + 1, f) && (o.tracked ==> InUserHalf(p))
    modifies k
    ensures TablesOnly(k, root, own, own', data, o)
    ensures r.Ok? ==> LedTo(k.mem, k.physOffset, root, own', p, stop, r.value)
    ensures r.Err? ==> r.error == OutOfMemory && k.avail == iset{}
  {
    ghost var m := k.mem;
    r, own' := EnsureTable(k, root, p, stop + 1, f, own, data, o);
    if r.Ok? {
      LeadDown(m, k.mem, k.physOffset, root, own, root, 4, p, stop + 1, f, r.value);
      GuidedDown(m, k.mem, root, own, root, 4, p, stop + 1, f, AllRights);
    }
  }

  // ---- one page ----

  lemma LeafImage(m: Mem, m': Mem, root: nat, own: map<nat, Path>, data: map<nat, Vpn>, l1: nat, p: Vpn, w: Word)
    requires Tree(m, root, own) && Leaves(m, own, data) && l1 in own && own[l1] == PathAt(p, 1)
    requires OnlySlot(m, m', own, l1, p.i1) && Entry(m', l1, p.i1) == w
    requires w.present && w.user && (w.frame in data ==> data[w.frame] == p)
    ensures Leaves(m', own, data[w.frame := p]) && PathsKept(m, m', root, own, own)
  {
    WidenedKeeps(m, m', root, own, own);
  }

  /** Points page `p` at the frame of `w`, which backs no other page. */
  method PointLeaf(k: Machine, root: nat, p: Vpn, l1: nat, w: Word,
                   ghost own: map<nat, Path>, ghost data: map<nat, Vpn>)
    requires Table(k, root, own, data) && LedTo(k.mem, k.physOffset, root, own, p, 1, l1)
    requires w.present && w.user && (w.frame in data ==> data[w.frame] == p)
    requires w.frame !in own && w.frame !in k.avail && Reachable(k.physOffset, w.frame)
    requires UserMapped(k.mem, k.physOffset, root, p) ==> w.frame == Walk(k.mem, k.physOffset, root, p).value.frame
    modifies k`mem
    ensures Table(k, root, own, data[w.frame := p])
    ensures OtherWalks(old(k.mem), k.mem, k.physOffset, root, p) && PathsKept(old(k.mem), k.mem, root, own, own)
    ensures Walk(k.mem, k.physOffset, root, p) == Some(Leaf(w.frame, w, 1)) && Open(k.mem, root, p)
    ensures FramesKept(old(k.mem), k.mem, k.physOffset, root)
    ensures forall g :: g !in own ==> PageAt(k.mem, g) == PageAt(old(k.mem), g)
  {
    ghost var m := k.mem;
    WriteLeaf(k, root, p, l1, w, own);
    LeafImage(m, k.mem, root, own, data, l1, p, w);
    OtherFramesKept(m, k.mem, k.physOffset, root, p);
  }

  lemma OtherFramesKept(m: Mem, m': Mem, off: u64, root: nat, p: Vpn)
    requires OtherWalks(m, m', off, root, p) && UserMapped(m', off, root, p)
    requires UserMapped(m, off, root, p) ==> Walk(m', off, root, p).value.frame == Walk(m, off, root, p).value.frame
    ensures FramesKept(m, m', off, root)
  {
    forall q | UserMapped(m, off, root, q)
      ensures UserMapped(m', off, root, q) && Walk(m', off, root, q).value.frame == Walk(m, off, root, q).value.frame
    {
      assert q != p ==> Walk(m', off, root, q) == Walk(m, off, root, q);
    }
  }

  /** Gives a frame back that is neither table nor page. */
  method ReturnFrame(k: Machine, root: nat, g: nat,
                     ghost own: map<nat, Path>, ghost data: map<nat, Vpn>, ghost o: Origin)
    requires Image(k, root, own, data, Lent(o, g)) && Taken(k, g, o) && g !in own && g !in data
    modifies k
    ensures Image(k, root, own, data, o) && k.avail <= old(k.avail) + iset{g}
    ensures SameWalks(old(k.mem), k.mem, k.physOffset, root) && PathsKept(old(k.mem), k.mem, root, own, own)
    ensures forall h :: h != g ==> PageAt(k.mem, h) == PageAt(old(k.mem), h)
  {
    ghost var m, avail := k.mem, k.avail;
    var _ := k.DeallocateFrame(g);
    TreeFrame(m, k.mem, k.physOffset, root, own);
    LeavesFrame(m, k.mem, root, own, data);
    SameWalksKeepFrames(m, k.mem, k.physOffset, root);
    LentReturned(m, k.mem, k.physOffset, avail, root, own, data, o, g);
  }

  /** The final entry flags of a segment's pages. */
  function FinalWord(f: FrameNo, writable: bool, executable: bool): Word {
    Word(f, true, writable, true, false, !executable, 0)
  }

  /** A page executable before stays executable. */
  function MergedWord(f: FrameNo, writable: bool, executable: bool, e: Word): Word {
    var w := FinalWord(f, writable, executable);
    if e.nx then w else w.(nx := false)
  }

  /** The page is mapped for the user by a 4 KiB entry. */
  ghost predicate UserMapped(m: Mem, off: u64, root: nat, p: Vpn) {
    var l := Walk(m, off, root, p);
    l.Some? && l.value.level == 1 && l.value.word.user
  }

  /** The walk at a led page is its level-1 entry; a user entry has its frame in `data`. */
  lemma SlotIsWalk(m: Mem, off: u64, root: nat, own: map<nat, Path>, data: map<nat, Vpn>, p: Vpn, l1: nat)
    requires Tree(m, root, own) && Leaves(m, own, data) && l1 in own && own[l1] == PathAt(p, 1)
    requires Lead(m, off, root, 4, p, 1) == Some(l1)
    ensures var e := Entry(m, l1, p.i1);
            && Walk(m, off, root, p) == (if e.present then Some(Leaf(e.frame, e, 1)) else None)
            && (UserMapped(m, off, root, p) <==> e.user)
            && (e.user ==> e.frame in data && data[e.frame] == p)
            && (e == ZERO_WORD || e.present)
  {
    LeadWalk(m, off, root, 4, p, 1);
  }

  /** A frame that is neither table, page nor free, filled with zeros. */
  method ZeroedFrame(k: Machine, root: nat, ghost own: map<nat, Path>, ghost data: map<nat, Vpn>, ghost o: Origin)
    returns (g: Option<nat>)
    requires Image(k, root, own, data, o) && Covers(k)
    modifies k
    ensures TablesOnly(k, root, own, own, data, if g.Some? then Lent(o, g.value) else o)
    ensures forall h :: h in own ==> PageAt(k.mem, h) == PageAt(old(k.mem), h)
    ensures if g.Some? then Spare(k, g.value, own, data, o) else k.avail == iset{}
  {
    g := TakeFrame(k, root, own, data, o);
    if g.Some? {
      Blank(k, root, g.value, own, data, Lent(o, g.value));
    }
  }

  method Blank(k: Machine, root: nat, g: nat, ghost own: map<nat, Path>, ghost data: map<nat, Vpn>, ghost o: Origin)
    requires Image(k, root, own, data, o) && g !in own && g !in data && g !in k.avail
    modifies k`mem
    ensures Image(k, root, own, data, o) && k.mem == old(k.mem)[g := ZERO_PAGE]
    ensures SameWalks(old(k.mem), k.mem, k.physOffset, root) && PathsKept(old(k.mem), k.mem, root, own, own)
  {
    ghost var m := k.mem;
    k.Zero(g);
    TreeFrame(m, k.mem, k.physOffset, root, own);
    LeavesFrame(m, k.mem, root, own, data);
    SameWalksKeepFrames(m, k.mem, k.physOffset, root);
    LedgerKept(m, k.mem, k.physOffset, k.avail, root, own, data, o);
  }

  ghost predicate Spare(k: Machine, g: nat, own: map<nat, Path>, data: map<nat, Vpn>, o: Origin)
    reads k
  {
    Taken(k, g, o) && g !in own && g !in data && Reachable(k.physOffset, g) && PageAt(k.mem, g) == ZERO_PAGE
  }

  /** The protection of page `p` after a load: writable as asked, executable as asked or
      as before, and never asked to combine both with what the user had. */
  ghost predicate Protected(m: Mem, now: Mem, off: u64, root: nat, p: Vpn, writable: bool, executable: bool) {
    var before, after := Walk(m, off, root, p), Walk(now, off, root, p);
    && after.Some? && after.value.word.user && after.value.word.writable == writable
    && after.value.word.nx == (!executable && (before.Some? ==> before.value.word.nx))
    && !Clash(m, off, root, p, writable, executable)
  }

  /** The user's page would come to be writable and executable. */
  ghost predicate Clash(m: Mem, off: u64, root: nat, p: Vpn, writable: bool, executable: bool) {
    UserMapped(m, off, root, p) &&
      var w := Walk(m, off, root, p).value.word; (writable && !w.nx) || (w.writable && executable)
  }

  /** What backing page `p` with frame `f` means, memory `m` being the state before. */
  ghost predicate BackedBy(m: Mem, now: Mem, off: u64, root: nat, p: Vpn, f: nat, writable: bool, executable: bool) {
    && UserMapped(now, off, root, p) && Walk(now, off, root, p).value.frame == f && Open(now, root, p)
    && Protected(m, now, off, root, p, writable, executable)
    && if UserMapped(m, off, root, p)
       then f == Walk(m, off, root, p).value.frame && PageAt(now, f) == PageAt(m, f)
       else PageAt(now, f) == ZERO_PAGE
  }

  /** Writes the level-1 entry: page `p` keeps the frame it has, or gets `g`. */
  method SetLeaf(k: Machine, root: nat, p: Vpn, l1: nat, g: nat, writable: bool, executable: bool,
                 ghost own: map<nat, Path>, ghost data: map<nat, Vpn>, ghost o: Origin)
    returns (r: Result<nat>, ghost data': map<nat, Vpn>)
    requires Image(k, root, own, data, Lent(o, g)) && Spare(k, g, own, data, o) && (o.tracked ==> InUserHalf(p))
    requires LedTo(k.mem, k.physOffset, root, own, p, 1, l1)
    modifies k
    ensures Image(k, root, own, data', o) && PathsKept(old(k.mem), k.mem, root, own, own)
    ensures OtherWalks(old(k.mem), k.mem, k.physOffset, root, p)
    ensures r.Ok? ==> data' == data[r.value := p]
    ensures r.Ok? ==> BackedBy(old(k.mem), k.mem, k.physOffset, root, p, r.value, writable, executable)
    ensures r.Ok? && r.value in data ==> data[r.value] == p
    ensures r.Err? ==> data' == data && SameWalks(old(k.mem), k.mem, k.physOffset, root)
    ensures forall h :: h in data ==> PageAt(k.mem, h) == PageAt(old(k.mem), h)
    ensures r.Err? ==> r.error == PermissionDenied && Clash(old(k.mem), k.physOffset, root, p, writable, executable)
  {
    SlotIsWalk(k.mem, k.physOffset, root, own, data, p, l1);
    var e := k.Load(l1, p.i1);
    if !e.user {
      FillLeaf(k, root, p, l1, g, e, writable, executable, own, data, o);
      return Ok(g), data[g := p];
    }
    if (!e.nx && writable) || (e.writable && executable) {
      ReturnFrame(k, root, g, own, data, o);
      return Err(PermissionDenied), data;
    }
    KeepLeaf(k, root, p, l1, g, e, writable, executable, own, data, o);
    return Ok(e.frame), data[e.frame := p];
  }

  /** Backs page `p`, which is not the user's yet, with the zeroed frame `g`. */
  method FillLeaf(k: Machine, root: nat, p: Vpn, l1: nat, g: nat, e: Word, writable: bool, executable: bool,
                  ghost own: map<nat, Path>, ghost data: map<nat, Vpn>, ghost o: Origin)
    requires Image(k, root, own, data, Lent(o, g)) && Spare(k, g, own, data, o) && (o.tracked ==> InUserHalf(p))
    requires LedTo(k.mem, k.physOffset, root, own, p, 1, l1) && Entry(k.mem, l1, p.i1) == e && !e.user
    modifies k`mem
    ensures Image(k, root, own, data[g := p], o) && PathsKept(old(k.mem), k.mem, root, own, own)
    ensures OtherWalks(old(k.mem), k.mem, k.physOffset, root, p)
    ensures BackedBy(old(k.mem), k.mem, k.physOffset, root, p, g, writable, executable)
    ensures forall h :: h in data ==> PageAt(k.mem, h) == PageAt(old(k.mem), h)
  {
    ghost var m := k.mem;
    SlotIsWalk(m, k.physOffset, root, own, data, p, l1);
    var w := if e == ZERO_WORD then FinalWord(g, writable, executable) else MergedWord(g, writable, executable, e);
    PointLeaf(k, root, p, l1, w, own, data);
    LentAsPage(m, k.mem, k.physOffset, k.avail, root, own, data, o, g, p);
  }

  /** Changes the rights of the user's page `p` and gives the spare frame back. */
  lemma SameUpdate(data: map<nat, Vpn>, f: nat, p: Vpn)
    requires f in data && data[f] == p
    ensures data[f := p] == data
  {
  }

  method KeepLeaf(k: Machine, root: nat, p: Vpn, l1: nat, g: nat, e: Word, writable: bool, executable: bool,
                  ghost own: map<nat, Path>, ghost data: map<nat, Vpn>, ghost o: Origin)
    requires Image(k, root, own, data, Lent(o, g)) && Spare(k, g, own, data, o)
    requires LedTo(k.mem, k.physOffset, root, own, p, 1, l1) && Entry(k.mem, l1, p.i1) == e && e.user
    requires !((!e.nx && writable) || (e.writable && executable))
    modifies k
    ensures Image(k, root, own, data[e.frame := p], o) && PathsKept(old(k.mem), k.mem, root, own, own)
    ensures OtherWalks(old(k.mem), k.mem, k.physOffset, root, p)
    ensures BackedBy(old(k.mem), k.mem, k.physOffset, root, p, e.frame, writable, executable)
    ensures e.frame in data && data[e.frame] == p
    ensures forall h :: h in data ==> PageAt(k.mem, h) == PageAt(old(k.mem), h)
  {
    ghost var m := k.mem;
    SlotIsWalk(m, k.physOffset, root, own, data, p, l1);
    SameUpdate(data, e.frame, p);
    Reflag(k, root, p, l1, e, writable, executable, own, data, Lent(o, g));
    ghost var m1 := k.mem;
    ReturnFrame(k, root, g, own, data, o);
    BackedStays(m, m1, k.mem, k.physOffset, root, p, e.frame, writable, executable);
    PathsKeptTrans(m, m1, k.mem, root, own, own, own);
  }

  /** Gives the user's page its new rights. */
  method Reflag(k: Machine, root: nat, p: Vpn, l1: nat, e: Word, writable: bool, executable: bool,
                ghost own: map<nat, Path>, ghost data: map<nat, Vpn>, ghost o: Origin)
    requires Image(k, root, own, data, o) && data[e.frame := p] == data
    requires LedTo(k.mem, k.physOffset, root, own, p, 1, l1) && Entry(k.mem, l1, p.i1) == e && e.user
    requires !((!e.nx && writable) || (e.writable && executable))
    modifies k`mem
    ensures Image(k, root, own, data, o) && PathsKept(old(k.mem), k.mem, root, own, own)
    ensures OtherWalks(old(k.mem), k.mem, k.physOffset, root, p)
    ensures BackedBy(old(k.mem), k.mem, k.physOffset, root, p, e.frame, writable, executable)
    ensures forall g :: g !in own ==> PageAt(k.mem, g) == PageAt(old(k.mem), g)
  {
    ghost var m := k.mem;
    SlotIsWalk(m, k.physOffset, root, own, data, p, l1);
    PointLeaf(k, root, p, l1, MergedWord(e.frame, writable, executable, e), own, data);
    LedgerKept(m, k.mem, k.physOffset, k.avail, root, own, data, o);
  }

  lemma BackedStays(m: Mem, m1: Mem, now: Mem, off: u64, root: nat, p: Vpn, f: nat, w: bool, x: bool)
    requires SameWalks(m1, now, off, root) && BackedBy(m, m1, off, root, p, f, w, x) && PageAt(now, f) == PageAt(m1, f)
    requires OpenKept(m1, now, root)
    ensures BackedBy(m, now, off, root, p, f, w, x)
  {
    assert OpenTable(m1, root, p, 1).Some?;
  }

  /** Why a page cannot be backed: no frame is left, the rights asked for clash, or a table of
      its path lies at address 0. */
  ghost predicate Blocked(e: Error, avail: iset<nat>, own: map<nat, Path>, m: Mem, off: u64, root: nat, p: Vpn,
                          writable: bool, executable: bool) {
    || (e == OutOfMemory && avail == iset{})
    || (e == PermissionDenied && Clash(m, off, root, p, writable, executable))
    || (e == InvalidAddress && ZeroTable(own, p))
  }

  predicate ZeroTable(own: map<nat, Path>, p: Vpn) {
    0 in own && !own[0].P4? && own[0] == PathAt(p, LevelOf(own[0]))
  }

  /** Backs page `p` for the user: with the frame it has, or a fresh zeroed one. */
  method BackPage(k: Machine, root: nat, p: Vpn, writable: bool, executable: bool,
                  ghost own: map<nat, Path>, ghost data: map<nat, Vpn>, ghost o: Origin)
    returns (r: Result<nat>, ghost own': map<nat, Path>, ghost data': map<nat, Vpn>)
    requires Image(k, root, own, data, o) && Covers(k) && PlainPath(k.mem, own, p) && (o.tracked ==> InUserHalf(p))
    modifies k
    ensures Image(k, root, own', data', o) && PathsKept(old(k.mem), k.mem, root, own, own')
    ensures OtherWalks(old(k.mem), k.mem, k.physOffset, root, p)
    ensures r.Ok? ==> data' == data[r.value := p]
    ensures r.Ok? ==> BackedBy(old(k.mem), k.mem, k.physOffset, root, p, r.value, writable, executable)
    ensures r.Ok? && r.value in data ==> data[r.value] == p
    ensures r.Err? ==> data' == data && SameWalks(old(k.mem), k.mem, k.physOffset, root)
    ensures r.Err? ==> Blocked(r.error, k.avail, own, old(k.mem), k.physOffset, root, p, writable, executable)
    ensures forall h :: h in data ==> PageAt(k.mem, h) == PageAt(old(k.mem), h)
  {
    data' := data;
    var t;
    t, own' := Prepare(k, root, p, own, data, o);
    if t.Err? {
      return Err(t.error), own', data;
    }
    r, data' :=
      BackWith(k, root, p, t.value.0, t.value.1, writable, executable, old(k.mem), old(k.avail), own, own', data, o);
  }

  /** Sets the leaf of the page, the tables having been made since state `m`. */
  method BackWith(k: Machine, root: nat, p: Vpn, l1: nat, g: nat, writable: bool, executable: bool, ghost m: Mem,
                  ghost avail: iset<nat>,
                  ghost own: map<nat, Path>, ghost own': map<nat, Path>, ghost data: map<nat, Vpn>, ghost o: Origin)
    returns (r: Result<nat>, ghost data': map<nat, Vpn>)
    requires Image(k, root, own', data, Lent(o, g)) && Spare(k, g, own', data, o) && (o.tracked ==> InUserHalf(p))
    requires LedTo(k.mem, k.physOffset, root, own', p, 1, l1)
    requires Kept(m, k.mem, k.physOffset, root, own, own', avail) && forall h :: h in data ==> h !in own && h !in avail
    modifies k
    ensures Image(k, root, own', data', o) && PathsKept(m, k.mem, root, own, own')
    ensures OtherWalks(m, k.mem, k.physOffset, root, p)
    ensures r.Ok? ==> data' == data[r.value := p]
    ensures r.Ok? ==> BackedBy(m, k.mem, k.physOffset, root, p, r.value, writable, executable)
    ensures r.Ok? && r.value in data ==> data[r.value] == p
    ensures r.Err? ==> data' == data && SameWalks(m, k.mem, k.physOffset, root)
    ensures r.Err? ==> r.error == PermissionDenied && Clash(m, k.physOffset, root, p, writable, executable)
    ensures forall h :: h in data ==> PageAt(k.mem, h) == PageAt(m, h)
  {
    ghost var m1 := k.mem;
    r, data' := SetLeaf(k, root, p, l1, g, writable, executable, own', data, o);
    PathsKeptTrans(m, m1, k.mem, root, own, own', own');
    if r.Ok? {
      OwnFrame(m1, k.physOffset, root, own', data, p, l1);
      BackedSame(m, m1, k.mem, k.physOffset, root, p, r.value, writable, executable);
    }
  }

  /** A zeroed frame for the page behind level-1 table `l1`, to which it is still led. */
  method FrameFor(k: Machine, root: nat, p: Vpn, l1: nat,
                  ghost own: map<nat, Path>, ghost data: map<nat, Vpn>, ghost o: Origin)
    returns (g: Option<nat>)
    requires Image(k, root, own, data, o) && Covers(k) && LedTo(k.mem, k.physOffset, root, own, p, 1, l1)
    modifies k
    ensures TablesOnly(k, root, own, own, data, if g.Some? then Lent(o, g.value) else o)
    ensures LedTo(k.mem, k.physOffset, root, own, p, 1, l1)
    ensures if g.Some? then Spare(k, g.value, own, data, o) else k.avail == iset{}
  {
    ghost var m := k.mem;
    g := ZeroedFrame(k, root, own, data, o);
    assert OnlySlot(m, k.mem, own, l1, p.i1);
    LeadFrame(m, k.mem, k.physOffset, root, own, root, 4, p, 1, l1, p.i1);
  }

  /** The level-1 table of page `p` and a zeroed frame. */
  method Prepare(k: Machine, root: nat, p: Vpn, ghost own: map<nat, Path>, ghost data: map<nat, Vpn>, ghost o: Origin)
    returns (r: Result<(nat, nat)>, ghost own': map<nat, Path>)
    requires Image(k, root, own, data, o) && Covers(k) && PlainPath(k.mem, own, p) && (o.tracked ==> InUserHalf(p))
    modifies k
    ensures TablesOnly(k, root, own, own', data, if r.Ok? then Lent(o, r.value.1) else o)
    ensures r.Ok? ==> LedTo(k.mem, k.physOffset, root, own', p, 1, r.value.0) && Spare(k, r.value.1, own', data, o)
    ensures r.Err? ==>
      (r.error == OutOfMemory && k.avail == iset{}) || (r.error == InvalidAddress && ZeroTable(own', p))
  {
    var t;
    t, own' := EnsureHierarchy(k, root, p, 1, own, data, o);
    if t.Err? {
      return Err(OutOfMemory), own';
    }
    ghost var m, avail := k.mem, k.avail;
    var g := FrameFor(k, root, p, t.value, own', data, o);
    KeptTrans(old(k.mem), m, k.mem, k.physOffset, root, own, own', own', old(k.avail), avail);
    if g.None? {
      return Err(OutOfMemory), own';
    }
    var l1 := FollowTables(k, root, p, own', t.value);
    if l1.None? {
      return Err(InvalidAddress), own';
    }
    return Ok((l1.value, g.value)), own';
  }

  /** Walks down to the level-1 table of page `p`, refusing a table at address 0. */
  method FollowTables(k: Machine, root: nat, p: Vpn, ghost own: map<nat, Path>, ghost l1: nat) returns (r: Option<nat>)
    requires Space(k, root, own) && LedTo(k.mem, k.physOffset, root, own, p, 1, l1)
    ensures if r.Some? then r.value == l1 else ZeroTable(own, p)
  {
    var e4 := k.Load(root, p.i4);
    if e4.frame == 0 {
      return None;
    }
    var e3 := k.Load(e4.frame, p.i3);
    if e3.frame == 0 {
      return None;
    }
    var e2 := k.Load(e3.frame, p.i2);
    if e2.frame == 0 {
      return None;
    }
    return Some(e2.frame);
  }

  lemma BackedSame(m: Mem, m1: Mem, now: Mem, off: u64, root: nat, p: Vpn, f: nat, w: bool, x: bool)
    requires SameWalks(m, m1, off, root) && BackedBy(m1, now, off, root, p, f, w, x)
    requires UserMapped(m1, off, root, p) ==>
      PageAt(m1, Walk(m1, off, root, p).value.frame) == PageAt(m, Walk(m1, off, root, p).value.frame)
    ensures BackedBy(m, now, off, root, p, f, w, x)
  {
  }

  lemma OwnFrame(m: Mem, off: u64, root: nat, own: map<nat, Path>, data: map<nat, Vpn>, p: Vpn, l1: nat)
    requires Tree(m, root, own) && Leaves(m, own, data) && l1 in own && own[l1] == PathAt(p, 1)
    requires Lead(m, off, root, 4, p, 1) == Some(l1)
    ensures UserMapped(m, off, root, p) ==> Walk(m, off, root, p).value.frame in data
  {
    SlotIsWalk(m, off, root, own, data, p, l1);
  }

  // ---- contents ----

  /** A user page's frame is its own. */
  lemma {:induction false} UserFrameInData(m: Mem, off: u64, root: nat, own: map<nat, Path>, data: map<nat, Vpn>,
                                           f: nat, level: Level, q: Vpn)
    requires Tree(m, root, own) && Leaves(m, own, data) && f in own && own[f] == PathAt(q, level)
    requires var l := WalkFrom(m, off, f, level, q); l.Some? && l.value.level == 1 && l.value.word.user
    ensures var g := WalkFrom(m, off, f, level, q).value.frame; g in data && data[g] == q
    decreases level
  {
    var e := Entry(m, f, IndexAt(q, level));
    if level > 1 {
      UserFrameInData(m, off, root, own, data, e.frame, level - 1, q);
    }
  }

  /** Page `q` is mapped as before and, if it is the user's, holds the same bytes. */
  ghost predicate Untouched(m: Mem, now: Mem, off: u64, root: nat, q: Vpn) {
    && Walk(now, off, root, q) == Walk(m, off, root, q)
    && (UserMapped(m, off, root, q) ==>
          var f := Walk(m, off, root, q).value.frame; PageAt(now, f) == PageAt(m, f))
    && (Open(m, root, q) ==> Open(now, root, q))
  }

  ghost predicate OthersUntouched(m: Mem, now: Mem, off: u64, root: nat, p: Vpn) {
    forall q :: q != p ==> Untouched(m, now, off, root, q)
  }

  lemma OthersKept(m: Mem, now: Mem, off: u64, root: nat, own: map<nat, Path>, own': map<nat, Path>,
                   data: map<nat, Vpn>, p: Vpn)
    requires Tree(m, root, own) && Leaves(m, own, data) && PathsKept(m, now, root, own, own')
    requires OtherWalks(m, now, off, root, p)
    requires forall g :: g in data && data[g] != p ==> PageAt(now, g) == PageAt(m, g)
    ensures OthersUntouched(m, now, off, root, p)
  {
    forall q | q != p ensures Untouched(m, now, off, root, q) {
      if UserMapped(m, off, root, q) {
        UserFrameInData(m, off, root, own, data, root, 4, q);
      }
    }
  }

  /** Byte `x` of page `p` in state `m`, 0 where the user has no page yet. */
  ghost function BaseByte(l: WordLayout, m: Mem, off: u64, root: nat, p: Vpn, x: nat): byte
    requires x < 4096
  {
    if UserMapped(m, off, root, p) then Byte(l, m, Walk(m, off, root, p).value.frame, x) else 0
  }

  /** Page `p` holds what it held in `m`, or zeros, with `bytes` laid over offset `o`. */
  ghost predicate Overlaid(l: WordLayout, m: Mem, now: Mem, off: u64, root: nat, p: Vpn, o: nat, bytes: seq<byte>) {
    && UserMapped(now, off, root, p) && Open(now, root, p)
    && forall x :: 0 <= x < 4096 ==>
         BaseByte(l, now, off, root, p, x) ==
           if o <= x < o + |bytes| then bytes[x - o] else BaseByte(l, m, off, root, p, x)
  }

  lemma OverlaidBy(l: WordLayout, m: Mem, m1: Mem, now: Mem, off: u64, root: nat, p: Vpn, f: nat, w: bool, x: bool,
                   o: nat, bytes: seq<byte>)
    requires BackedBy(m, m1, off, root, p, f, w, x) && o + |bytes| <= 4096
    requires now == StoreBytes(l, m1, f, o, bytes) && SameWalks(m1, now, off, root) && Open(now, root, p)
    ensures Overlaid(l, m, now, off, root, p, o, bytes) && Protected(m, now, off, root, p, w, x)
  {
    assert Walk(now, off, root, p) == Walk(m1, off, root, p);
    forall y | 0 <= y < 4096
      ensures BaseByte(l, now, off, root, p, y) ==
        if o <= y < o + |bytes| then bytes[y - o] else BaseByte(l, m, off, root, p, y)
    {
      ByteAfterStore(l, m1, f, o, bytes, f, y);
    }
  }

  /** Backs page `p` and lays `bytes` over it. */
  method LoadPage(k: Machine, root: nat, p: Vpn, at: nat, bytes: seq<byte>, writable: bool, executable: bool,
                  ghost own: map<nat, Path>, ghost data: map<nat, Vpn>, ghost o: Origin)
    returns (r: Result<()>, ghost own': map<nat, Path>, ghost data': map<nat, Vpn>)
    requires Image(k, root, own, data, o) && Covers(k) && PlainPath(k.mem, own, p) && at + |bytes| <= 4096
      && (o.tracked ==> InUserHalf(p))
    modifies k
    ensures Image(k, root, own', data', o) && PathsKept(old(k.mem), k.mem, root, own, own')
    ensures OthersUntouched(old(k.mem), k.mem, k.physOffset, root, p)
    ensures r.Ok? ==> Overlaid(k.layout, old(k.mem), k.mem, k.physOffset, root, p, at, bytes)
    ensures r.Ok? ==> Protected(old(k.mem), k.mem, k.physOffset, root, p, writable, executable)
    ensures r.Err? ==> Untouched(old(k.mem), k.mem, k.physOffset, root, p)
    ensures r.Err? ==> Blocked(r.error, k.avail, own, old(k.mem), k.physOffset, root, p, writable, executable)
  {
    var t;
    t, own', data' := BackPage(k, root, p, writable, executable, own, data, o);
    if t.Err? {
      OthersKept(old(k.mem), k.mem, k.physOffset, root, own, own', data, p);
      if UserMapped(old(k.mem), k.physOffset, root, p) {
        UserFrameInData(old(k.mem), k.physOffset, root, own, data, root, 4, p);
      }
      return Err(t.error), own', data';
    }
    ghost var m := k.mem;
    Lay(k, root, t.value, at, bytes, own', data', o);
    PathsKeptTrans(old(k.mem), m, k.mem, root, own, own', own');
    OverlaidBy(k.layout, old(k.mem), m, k.mem, k.physOffset, root, p, t.value, writable, executable, at, bytes);
    OthersKept(old(k.mem), k.mem, k.physOffset, root, own, own', data, p);
    r := Ok(());
  }

  /** Copies `bytes` into a page's frame. */
  method Lay(k: Machine, root: nat, f: nat, at: nat, bytes: seq<byte>,
             ghost own: map<nat, Path>, ghost data: map<nat, Vpn>, ghost o: Origin)
    requires Image(k, root, own, data, o) && f in data && at + |bytes| <= 4096
    modifies k`mem
    ensures Image(k, root, own, data, o) && PathsKept(old(k.mem), k.mem, root, own, own)
    ensures SameWalks(old(k.mem), k.mem, k.physOffset, root)
    ensures k.mem == StoreBytes(k.layout, old(k.mem), f, at, bytes)
    ensures forall g :: g != f ==> PageAt(k.mem, g) == PageAt(old(k.mem), g)
  {
    ghost var m := k.mem;
    k.Overwrite(f, StoreBytes(k.layout, k.mem, f, at, bytes));
    TreeFrame(m, k.mem, k.physOffset, root, own);
    LeavesFrame(m, k.mem, root, own, data);
    SameWalksKeepFrames(m, k.mem, k.physOffset, root);
    LedgerKept(m, k.mem, k.physOffset, k.avail, root, own, data, o);
  }

  // ---- one segment ----

  /** A loadable segment: `file` at `vaddr`, extended to `memsz` bytes. */
  datatype Segment = Segment(vaddr: nat, memsz: nat, file: seq<byte>, writable: bool, executable: bool)

  function FirstPage(s: Segment): nat { s.vaddr / 4096 }

  function EndPage(s: Segment): nat { (s.vaddr + s.memsz + 0xfff) / 4096 }

  /** How many pages the segment touches; an empty one touches none. */
  function PageCount(s: Segment): nat {
    if s.memsz == 0 then 0 else EndPage(s) - FirstPage(s)
  }

  /** Pages `n`, ..., `n + count - 1`. */
  ghost function PageRun(n: nat, count: nat): (vs: seq<Vpn>)
    ensures |vs| == count
  {
    if count == 0 then [] else PageRun(n, count - 1) + [PageNo(n + (count - 1))]
  }

  lemma {:induction false} PageRunAt(n: nat, count: nat, i: nat)
    requires i < count
    ensures PageRun(n, count)[i] == PageNo(n + i)
    decreases count
  {
    if i < count - 1 {
      PageRunAt(n, count - 1, i);
    }
  }

  lemma PageRunApart(n: nat, count: nat, i: nat, j: nat)
    requires i < j < count <= 0x10_0000_0000
    ensures PageRun(n, count)[i] != PageRun(n, count)[j]
  {
    var a, b := n + i, n + j;
    PageNoApart(a, b);
    PageRunAt(n, count, i);
    PageRunAt(n, count, j);
  }

  lemma PageNoApart(a: nat, b: nat)
    requires a < b < a + 0x10_0000_0000
    ensures PageNo(a) != PageNo(b)
  {
    if PageNo(a) == PageNo(b) {
      SameRemainder(a, b);
    }
  }

  lemma SameRemainder(a: nat, b: nat)
    requires a <= b < a + 0x10_0000_0000 && a % 0x10_0000_0000 == b % 0x10_0000_0000
    ensures a == b
  {
  }

  /** The pages a segment covers. */
  ghost function SegmentPages(s: Segment): seq<Vpn> {
    PagesFrom(s.vaddr, s.memsz)
  }

  ghost function PagesFrom(vaddr: nat, memsz: nat): seq<Vpn> {
    var s := Segment(vaddr, memsz, [], false, false);
    PageRun(FirstPage(s), PageCount(s))
  }

  /** The part of the file that falls into page `n`, and where in the page it goes. */
  function Chunk(s: Segment, n: nat): (c: (nat, seq<byte>))
    ensures c.0 + |c.1| <= 4096
  {
    var start, end, fileEnd := n * 4096, n * 4096 + 4096, s.vaddr + |s.file|;
    var copyStart := if start > s.vaddr then start else s.vaddr;
    var copyEnd := if end < fileEnd then end else fileEnd;
    if copyStart < copyEnd then (copyStart - start, s.file[copyStart - s.vaddr..copyEnd - s.vaddr]) else (0, [])
  }

  /** The bytes of a page after loading: the file's where it reaches, else the base. */
  ghost function SegmentByte(s: Segment, a: nat, base: byte): byte {
    if s.vaddr <= a < s.vaddr + |s.file| then s.file[a - s.vaddr] else base
  }

  ghost predicate LoadedPage(l: WordLayout, m: Mem, now: Mem, off: u64, root: nat, s: Segment, n: nat, p: Vpn) {
    && UserMapped(now, off, root, p) && Open(now, root, p)
    && Protected(m, now, off, root, p, s.writable, s.executable)
    && forall x :: 0 <= x < 4096 ==>
         BaseByte(l, now, off, root, p, x) == SegmentByte(s, n * 4096 + x, BaseByte(l, m, off, root, p, x))
  }

  lemma ChunkByte(s: Segment, n: nat, x: nat, base: byte)
    requires x < 4096
    ensures var (o, bytes) := Chunk(s, n);
            (if o <= x < o + |bytes| then bytes[x - o] else base) == SegmentByte(s, n * 4096 + x, base)
  {
  }

  lemma OverlaidIsLoaded(l: WordLayout, m: Mem, now: Mem, off: u64, root: nat, s: Segment, n: nat, p: Vpn)
    requires Overlaid(l, m, now, off, root, p, Chunk(s, n).0, Chunk(s, n).1)
    requires Protected(m, now, off, root, p, s.writable, s.executable)
    ensures LoadedPage(l, m, now, off, root, s, n, p)
  {
    forall x | 0 <= x < 4096
      ensures BaseByte(l, now, off, root, p, x) == SegmentByte(s, n * 4096 + x, BaseByte(l, m, off, root, p, x))
    {
      ChunkByte(s, n, x, BaseByte(l, m, off, root, p, x));
    }
  }

  /** Untouched pages keep what was loaded into them, and pass on what was there. */
  lemma LoadedKept(l: WordLayout, m: Mem, m1: Mem, m2: Mem, off: u64, root: nat, s: Segment, n: nat, p: Vpn)
    requires LoadedPage(l, m, m1, off, root, s, n, p) && Untouched(m1, m2, off, root, p)
    ensures LoadedPage(l, m, m2, off, root, s, n, p)
  {
  }

  lemma LoadedLate(l: WordLayout, m: Mem, m1: Mem, m2: Mem, off: u64, root: nat, s: Segment, n: nat, p: Vpn)
    requires Untouched(m, m1, off, root, p) && LoadedPage(l, m1, m2, off, root, s, n, p)
    ensures LoadedPage(l, m, m2, off, root, s, n, p)
  {
  }

  ghost predicate OutsideUntouched(m: Mem, now: Mem, off: u64, root: nat, vs: seq<Vpn>) {
    forall q :: q in vs || Untouched(m, now, off, root, q)
  }

  ghost predicate LoadedRun(l: WordLayout, m: Mem, now: Mem, off: u64, root: nat, s: Segment, n: nat, vs: seq<Vpn>) {
    forall j :: 0 <= j < |vs| ==> LoadedPage(l, m, now, off, root, s, n + j, vs[j])
  }

  ghost predicate UserRun(vs: seq<Vpn>) {
    forall j :: 0 <= j < |vs| ==> InUserHalf(vs[j])
  }

  ghost predicate PlainRun(m: Mem, own: map<nat, Path>, vs: seq<Vpn>) {
    forall j :: 0 <= j < |vs| ==> PlainPath(m, own, vs[j])
  }

  /** One more page of the run. */
  lemma RunStep(l: WordLayout, m: Mem, m1: Mem, m2: Mem, off: u64, root: nat, s: Segment, n: nat, vs: seq<Vpn>, i: nat)
    requires i < |vs| && vs == PageRun(n, |vs|) && |vs| <= 0x10_0000_0000
    requires OutsideUntouched(m, m1, off, root, vs[..i]) && LoadedRun(l, m, m1, off, root, s, n, vs[..i])
    requires OthersUntouched(m1, m2, off, root, vs[i])
    requires LoadedPage(l, m1, m2, off, root, s, n + i, vs[i])
    ensures OutsideUntouched(m, m2, off, root, vs[..i + 1]) && LoadedRun(l, m, m2, off, root, s, n, vs[..i + 1])
  {
    forall j | 0 <= j < i ensures vs[..i][j] != vs[i] { PageRunApart(n, |vs|, j, i); }
    assert vs[..i + 1] == vs[..i] + [vs[i]];
    OutsideStep(m, m1, m2, off, root, vs[..i], vs[i]);
    LoadedStep(l, m, m1, m2, off, root, s, n, vs[..i], vs[i]);
  }

  lemma OutsideStep(m: Mem, m1: Mem, m2: Mem, off: u64, root: nat, vs: seq<Vpn>, p: Vpn)
    requires OutsideUntouched(m, m1, off, root, vs) && OthersUntouched(m1, m2, off, root, p)
    ensures OutsideUntouched(m, m2, off, root, vs + [p])
  {
    forall q ensures q in vs + [p] || Untouched(m, m2, off, root, q) {
      if q !in vs + [p] {
        assert Untouched(m, m1, off, root, q) && Untouched(m1, m2, off, root, q);
      }
    }
  }

  lemma LoadedStep(l: WordLayout, m: Mem, m1: Mem, m2: Mem, off: u64, root: nat, s: Segment, n: nat, vs: seq<Vpn>,
                   p: Vpn)
    requires p !in vs && OutsideUntouched(m, m1, off, root, vs) && LoadedRun(l, m, m1, off, root, s, n, vs)
    requires OthersUntouched(m1, m2, off, root, p) && LoadedPage(l, m1, m2, off, root, s, n + |vs|, p)
    ensures LoadedRun(l, m, m2, off, root, s, n, vs + [p])
  {
    forall j | 0 <= j < |vs| + 1 ensures LoadedPage(l, m, m2, off, root, s, n + j, (vs + [p])[j]) == true {
      LoadedStepAt(l, m, m1, m2, off, root, s, n, vs, p, j, n + j, (vs + [p])[j]);
    }
  }

  lemma LoadedStepAt(l: WordLayout, m: Mem, m1: Mem, m2: Mem, off: u64, root: nat, s: Segment, n: nat, vs: seq<Vpn>,
                     p: Vpn, j: nat, at: nat, q: Vpn)
    requires p !in vs && OutsideUntouched(m, m1, off, root, vs) && LoadedRun(l, m, m1, off, root, s, n, vs)
    requires OthersUntouched(m1, m2, off, root, p) && LoadedPage(l, m1, m2, off, root, s, n + |vs|, p)
    requires j <= |vs| && at == n + j && q == (vs + [p])[j]
    ensures LoadedPage(l, m, m2, off, root, s, at, q) == true
  {
    if j < |vs| {
      assert LoadedPage(l, m, m1, off, root, s, n + j, vs[j]) == true;
      LoadedKept(l, m, m1, m2, off, root, s, at, q);
    } else {
      assert Untouched(m, m1, off, root, p) == true;
      LoadedLate(l, m, m1, m2, off, root, s, at, q);
    }
  }

  /** A failed page leaves the rest as it was. */
  lemma FailedStep(m: Mem, m1: Mem, m2: Mem, off: u64, root: nat, vs: seq<Vpn>, i: nat)
    requires i < |vs| && OutsideUntouched(m, m1, off, root, vs[..i])
    requires OthersUntouched(m1, m2, off, root, vs[i])
    ensures OutsideUntouched(m, m2, off, root, vs)
  {
    forall q ensures q in vs || Untouched(m, m2, off, root, q) {
      if q !in vs {
        assert q !in vs[..i] && q != vs[i];
        assert Untouched(m, m1, off, root, q) && Untouched(m1, m2, off, root, q);
      }
    }
  }

  /** Why a run of pages cannot be loaded. */
  ghost predicate RunBlocked(e: Error, avail: iset<nat>, own: map<nat, Path>, m: Mem, off: u64, root: nat, s: Segment,
                             vs: seq<Vpn>) {
    exists j :: 0 <= j < |vs| && Blocked(e, avail, own, m, off, root, vs[j], s.writable, s.executable)
  }

  /** A clash met on the way was there from the start. */
  lemma BlockedStep(e: Error, avail: iset<nat>, own: map<nat, Path>, own1: map<nat, Path>, m: Mem, m1: Mem,
                    off: u64, root: nat, s: Segment, n: nat, vs: seq<Vpn>, i: nat)
    requires i < |vs| && vs == PageRun(n, |vs|) && |vs| <= 0x10_0000_0000 && OutsideUntouched(m, m1, off, root, vs[..i])
    requires Blocked(e, avail, own1, m1, off, root, vs[i], s.writable, s.executable) && ZeroKept(own, own1)
    ensures RunBlocked(e, avail, own, m, off, root, s, vs)
  {
    forall j | 0 <= j < i ensures vs[..i][j] != vs[i] { PageRunApart(n, |vs|, j, i); }
    assert Untouched(m, m1, off, root, vs[i]);
    assert Blocked(e, avail, own, m, off, root, vs[i], s.writable, s.executable);
  }

  /** Loads what the segment holds for page number `n`. */
  method LoadSegmentPage(k: Machine, root: nat, s: Segment, n: nat, ghost p: Vpn,
                         ghost own: map<nat, Path>, ghost data: map<nat, Vpn>, ghost o: Origin)
    returns (r: Result<()>, ghost own': map<nat, Path>, ghost data': map<nat, Vpn>)
    requires Image(k, root, own, data, o) && Covers(k) && PlainPath(k.mem, own, p) && p == PageNo(n)
    requires o.tracked ==> InUserHalf(p)
    modifies k
    ensures Image(k, root, own', data', o) && PathsKept(old(k.mem), k.mem, root, own, own')
    ensures OthersUntouched(old(k.mem), k.mem, k.physOffset, root, p)
    ensures r.Ok? ==> LoadedPage(k.layout, old(k.mem), k.mem, k.physOffset, root, s, n, p)
    ensures r.Err? ==> Untouched(old(k.mem), k.mem, k.physOffset, root, p)
    ensures r.Err? ==> Blocked(r.error, k.avail, own, old(k.mem), k.physOffset, root, p, s.writable, s.executable)
  {
    PageNoIndices(n);
    var q := Indices(n * 4096);
    var c := Chunk(s, n);
    r, own', data' := LoadPage(k, root, q, c.0, c.1, s.writable, s.executable, own, data, o);
    if r.Ok? {
      OverlaidIsLoaded(k.layout, old(k.mem), k.mem, k.physOffset, root, s, n, p);
    }
  }

  /** The first `i` pages of the run are loaded, and nothing else has changed. */
  ghost predicate Loading(l: WordLayout, m: Mem, now: Mem, off: u64, root: nat, s: Segment, n: nat, vs: seq<Vpn>,
                          i: nat)
    requires i <= |vs|
  {
    OutsideUntouched(m, now, off, root, vs[..i]) && LoadedRun(l, m, now, off, root, s, n, vs[..i])
  }

  /** Loads page `i` of the run. */
  method LoadNth(k: Machine, root: nat, s: Segment, n: nat, i: nat, ghost vs: seq<Vpn>, ghost m: Mem,
                 ghost own0: map<nat, Path>, ghost own: map<nat, Path>, ghost data: map<nat, Vpn>, ghost o: Origin)
    returns (r: Result<()>, ghost own': map<nat, Path>, ghost data': map<nat, Vpn>)
    requires Image(k, root, own, data, o) && Covers(k) && i < |vs| && PlainPath(k.mem, own, vs[i])
    requires PathsKept(m, k.mem, root, own0, own) && (o.tracked ==> InUserHalf(vs[i]))
    requires vs == PageRun(n, |vs|) && |vs| <= 0x10_0000_0000
      && Loading(k.layout, m, k.mem, k.physOffset, root, s, n, vs, i)
    modifies k
    ensures Image(k, root, own', data', o) && PathsKept(m, k.mem, root, own0, own')
    ensures r.Ok? ==> Loading(k.layout, m, k.mem, k.physOffset, root, s, n, vs, i + 1)
    ensures r.Err? ==> OutsideUntouched(m, k.mem, k.physOffset, root, vs)
    ensures r.Err? ==> RunBlocked(r.error, k.avail, own0, m, k.physOffset, root, s, vs)
  {
    PageRunAt(n, |vs|, i);
    r, own', data' := LoadSegmentPage(k, root, s, n + i, vs[i], own, data, o);
    PathsKeptTrans(m, old(k.mem), k.mem, root, own0, own, own');
    if r.Ok? {
      RunStep(k.layout, m, old(k.mem), k.mem, k.physOffset, root, s, n, vs, i);
    } else {
      FailedStep(m, old(k.mem), k.mem, k.physOffset, root, vs, i);
      BlockedStep(r.error, k.avail, own0, own, m, old(k.mem), k.physOffset, root, s, n, vs, i);
    }
  }

  /** Loads the pages of the segment one after the other. */
  method LoadPages(k: Machine, root: nat, s: Segment, n: nat, count: nat, ghost vs: seq<Vpn>,
                   ghost own: map<nat, Path>, ghost data: map<nat, Vpn>, ghost o: Origin)
    returns (r: Result<()>, ghost own': map<nat, Path>, ghost data': map<nat, Vpn>)
    requires Image(k, root, own, data, o) && Covers(k)
    requires vs == PageRun(n, count) && count <= 0x10_0000_0000 && PlainRun(k.mem, own, vs)
    requires o.tracked ==> UserRun(vs)
    modifies k
    ensures Image(k, root, own', data', o) && PathsKept(old(k.mem), k.mem, root, own, own')
    ensures OutsideUntouched(old(k.mem), k.mem, k.physOffset, root, vs)
    ensures r.Ok? ==> LoadedRun(k.layout, old(k.mem), k.mem, k.physOffset, root, s, n, vs)
    ensures r.Err? ==> RunBlocked(r.error, k.avail, own, old(k.mem), k.physOffset, root, s, vs)
  {
    own', data' := own, data;
    var i := 0;
    while i < count
      invariant 0 <= i <= count
      invariant Image(k, root, own', data', o) && PathsKept(old(k.mem), k.mem, root, own, own')
      invariant Loading(k.layout, old(k.mem), k.mem, k.physOffset, root, s, n, vs, i)
    {
      assert PlainPath(old(k.mem), own, vs[i]);
      r, own', data' := LoadNth(k, root, s, n, i, vs, old(k.mem), own, own', data', o);
      if r.Err? {
        return;
      }
      i := i + 1;
    }
    assert vs[..i] == vs;
    r := Ok(());
  }

  lemma PageNoIndices(n: nat)
    ensures Indices(n * 4096) == PageNo(n)
  {
    IndicesArePage(n * 4096);
    assert n * 4096 / 4096 == n;
  }

  /** Tables added or opened leave every page as it was. */
  lemma AllUntouched(m: Mem, now: Mem, off: u64, root: nat, own: map<nat, Path>, own': map<nat, Path>,
                     data: map<nat, Vpn>, avail: iset<nat>, vs: seq<Vpn>)
    requires Tree(m, root, own) && Leaves(m, own, data) && Kept(m, now, off, root, own, own', avail)
    requires forall g :: g in data ==> g !in own && g !in avail
    ensures OutsideUntouched(m, now, off, root, vs) && OutsideUntouched(m, now, off, root, [])
  {
    forall q ensures Untouched(m, now, off, root, q) {
      assert Walk(now, off, root, q) == Walk(m, off, root, q);
      if UserMapped(m, off, root, q) {
        UserFrameInData(m, off, root, own, data, root, 4, q);
      }
    }
  }

  /** Pages untouched by the first step are loaded by the second as if from the start. */
  lemma AfterUntouched(l: WordLayout, m: Mem, m1: Mem, m2: Mem, off: u64, root: nat, own: map<nat, Path>,
                       own1: map<nat, Path>, s: Segment, n: nat, vs: seq<Vpn>)
    requires OutsideUntouched(m, m1, off, root, []) && OutsideUntouched(m1, m2, off, root, vs) && ZeroKept(own, own1)
    ensures OutsideUntouched(m, m2, off, root, vs)
    ensures LoadedRun(l, m1, m2, off, root, s, n, vs) ==> LoadedRun(l, m, m2, off, root, s, n, vs)
    ensures forall e, avail :: RunBlocked(e, avail, own1, m1, off, root, s, vs) ==>
      RunBlocked(e, avail, own, m, off, root, s, vs)
  {
    forall e, avail | RunBlocked(e, avail, own1, m1, off, root, s, vs)
      ensures RunBlocked(e, avail, own, m, off, root, s, vs)
    {
      var j :| 0 <= j < |vs| && Blocked(e, avail, own1, m1, off, root, vs[j], s.writable, s.executable);
      assert Untouched(m, m1, off, root, vs[j]);
      assert Blocked(e, avail, own, m, off, root, vs[j], s.writable, s.executable);
    }
    forall q ensures q in vs || Untouched(m, m2, off, root, q) {
      if q !in vs {
        assert Untouched(m, m1, off, root, q) && Untouched(m1, m2, off, root, q);
      }
    }
    if LoadedRun(l, m1, m2, off, root, s, n, vs) {
      forall j | 0 <= j < |vs| ensures LoadedPage(l, m, m2, off, root, s, n + j, vs[j]) {
        LoadedLate(l, m, m1, m2, off, root, s, n + j, vs[j]);
      }
    }
  }

  lemma EndsInRun(s: Segment)
    requires s.memsz > 0
    ensures PageCount(s) > 0
    ensures Indices(s.vaddr) == SegmentPages(s)[0]
    ensures Indices(s.vaddr + s.memsz - 1) == SegmentPages(s)[PageCount(s) - 1]
  {
    IndicesArePage(s.vaddr);
    PageRunAt(FirstPage(s), PageCount(s), 0);
    var last := s.vaddr + s.memsz - 1;
    IndicesArePage(last);
    PageRunAt(FirstPage(s), PageCount(s), PageCount(s) - 1);
    assert FirstPage(s) + (PageCount(s) - 1) == last / 4096;
  }

  /** Makes the tables for the first and the last page of the segment. */
  method EnsureEnds(k: Machine, root: nat, s: Segment,
                    ghost own: map<nat, Path>, ghost data: map<nat, Vpn>, ghost o: Origin)
    returns (r: Result<()>, ghost own': map<nat, Path>)
    requires Image(k, root, own, data, o) && Covers(k) && s.memsz > 0
    requires PlainRun(k.mem, own, SegmentPages(s)) && (o.tracked ==> UserRun(SegmentPages(s)))
    modifies k
    ensures TablesOnly(k, root, own, own', data, o)
    ensures r.Err? ==> r.error == OutOfMemory && k.avail == iset{}
  {
    EndsInRun(s);
    var t;
    t, own' := EnsureHierarchy(k, root, Indices(s.vaddr), 1, own, data, o);
    if t.Err? {
      return Err(OutOfMemory), own';
    }
    ghost var m, before, avail := k.mem, own', k.avail;
    t, own' := EnsureHierarchy(k, root, Indices(s.vaddr + s.memsz - 1), 1, own', data, o);
    KeptTrans(old(k.mem), m, k.mem, k.physOffset, root, own, before, own', old(k.avail), avail);
    r := if t.Err? then Err(OutOfMemory) else Ok(());
  }

  /** The requests turned down before any table is touched. */
  function Refusal(vaddr: u64, filesz: u64, memsz: u64, src: seq<byte>, writable: bool,
                   executable: bool): Option<Result<()>> {
    if writable && executable then Some(Err(PermissionDenied))
    else if memsz == 0 then Some(if filesz == 0 then Ok(()) else Err(InvalidParam))
    else if memsz < filesz || filesz > |src| then Some(Err(InvalidParam))
    else if vaddr + filesz >= U64_LIMIT || vaddr + memsz >= U64_LIMIT then Some(Err(InvalidAddress))
    else None
  }

  /** Why a segment that was not refused is not loaded. */
  ghost predicate NotLoaded(e: Error, avail: iset<nat>, own: map<nat, Path>, m: Mem, off: u64, root: nat, s: Segment) {
    || (e == InvalidAddress && s.vaddr + s.memsz + 0xfff >= U64_LIMIT)
    || RunBlocked(e, avail, own, m, off, root, s, SegmentPages(s))
  }

  /** Maps a segment and copies its file bytes in. */
  method MapAndCopySegment(k: Machine, root: nat, vaddr: u64, filesz: u64, memsz: u64, src: seq<byte>, writable: bool,
                           executable: bool, ghost own: map<nat, Path>, ghost data: map<nat, Vpn>, ghost o: Origin)
    returns (r: Result<()>, ghost own': map<nat, Path>, ghost data': map<nat, Vpn>)
    requires Image(k, root, own, data, o) && Covers(k)
    requires vaddr + memsz < U64_LIMIT ==>
      |PagesFrom(vaddr, memsz)| <= 0x10_0000_0000 && PlainRun(k.mem, own, PagesFrom(vaddr, memsz))
    requires o.tracked && vaddr + memsz < U64_LIMIT ==> UserRun(PagesFrom(vaddr, memsz))
    modifies k
    ensures Image(k, root, own', data', o) && PathsKept(old(k.mem), k.mem, root, own, own')
    ensures var refusal := Refusal(vaddr, filesz, memsz, src, writable, executable);
            refusal.Some? ==> r == refusal.value && k.mem == old(k.mem)
    ensures writable && executable ==> r == Err(PermissionDenied)
    ensures !(writable && executable) && memsz == 0 ==> r == if filesz == 0 then Ok(()) else Err(InvalidParam)
    ensures !(writable && executable) && memsz > 0 && (memsz < filesz || |src| < filesz) ==> r == Err(InvalidParam)
    ensures !(writable && executable) && filesz <= |src| && filesz <= memsz && memsz > 0 ==>
      (vaddr + memsz >= U64_LIMIT ==> r == Err(InvalidAddress))
    ensures OutsideUntouched(old(k.mem), k.mem, k.physOffset, root, PagesFrom(vaddr, memsz))
    ensures r.Ok? ==>
      && filesz <= |src| && filesz <= memsz
      && var s := Segment(vaddr, memsz, src[..filesz], writable, executable);
         LoadedRun(k.layout, old(k.mem), k.mem, k.physOffset, root, s, FirstPage(s), SegmentPages(s))
    ensures r.Err? && Refusal(vaddr, filesz, memsz, src, writable, executable).None? ==>
      NotLoaded(r.error, k.avail, own, old(k.mem), k.physOffset, root,
                Segment(vaddr, memsz, src[..filesz], writable, executable))
  {
    var refusal := Refusal(vaddr, filesz, memsz, src, writable, executable);
    if refusal.Some? {
      return refusal.value, own, data;
    }
    r, own', data' := LoadSegment(k, root, Segment(vaddr, memsz, src[..filesz], writable, executable), own, data, o);
  }

  method LoadSegment(k: Machine, root: nat, s: Segment,
                     ghost own: map<nat, Path>, ghost data: map<nat, Vpn>, ghost o: Origin)
    returns (r: Result<()>, ghost own': map<nat, Path>, ghost data': map<nat, Vpn>)
    requires Image(k, root, own, data, o) && Covers(k) && 0 < s.memsz
    requires |SegmentPages(s)| <= 0x10_0000_0000 && PlainRun(k.mem, own, SegmentPages(s))
    requires o.tracked ==> UserRun(SegmentPages(s))
    modifies k
    ensures Image(k, root, own', data', o) && PathsKept(old(k.mem), k.mem, root, own, own')
    ensures OutsideUntouched(old(k.mem), k.mem, k.physOffset, root, SegmentPages(s))
    ensures r.Ok? ==> LoadedRun(k.layout, old(k.mem), k.mem, k.physOffset, root, s, FirstPage(s), SegmentPages(s))
    ensures r.Err? ==> NotLoaded(r.error, k.avail, own, old(k.mem), k.physOffset, root, s)
  {
    ghost var vs := SegmentPages(s);
    r, own' := EnsureEnds(k, root, s, own, data, o);
    data' := data;
    AllUntouched(old(k.mem), k.mem, k.physOffset, root, own, own', data, old(k.avail), vs);
    if r.Err? {
      EndsInRun(s);
      assert Blocked(r.error, k.avail, own, old(k.mem), k.physOffset, root, vs[0], s.writable, s.executable);
      return;
    }
    if s.vaddr + s.memsz + 0xfff >= U64_LIMIT {
      return Err(InvalidAddress), own', data;
    }
    ghost var m, own1 := k.mem, own';
    r, own', data' := LoadPages(k, root, s, FirstPage(s), PageCount(s), vs, own', data, o);
    AfterUntouched(k.layout, old(k.mem), m, k.mem, k.physOffset, root, own, own1, s, FirstPage(s), vs);
  }
}
