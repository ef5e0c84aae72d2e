/** A page table over its life: programs are loaded into it, then it is torn down. */
module Lifetimes {
  import opened Memory
  import opened Bytes
  import opened Frames
  import opened PageTables
  import opened Mapping
  import opened UserCopy
  import opened Segments
  import opened Loader
  import opened Teardown

  // ---- the places of a loaded table ----

  function PlaceOf(q: Path): Place {
    match q
    case P4 => []
    case P3(a) => [a]
    case P2(a, b) => [a, b]
    case P1(a, b, c) => [a, b, c]
  }

  /** Where teardown meets the tables and the user's pages. */
  ghost function Places(own: map<nat, Path>, data: map<nat, Vpn>): map<nat, Place> {
    map f | f in own.Keys + data.Keys ::
      if f in own then PlaceOf(own[f]) else [data[f].i4, data[f].i3, data[f].i2, data[f].i1]
  }

  /** A table made for loading is one that can be torn down. */
  lemma LoadedTree(m: Mem, root: nat, own: map<nat, Path>, data: map<nat, Vpn>)
    requires Tree(m, root, own) && Leaves(m, own, data) && (forall f :: f in data ==> f !in own)
    ensures UserTree(m, Places(own, data), [])
  {
    var at := Places(own, data);
    forall g, i | g in at && |at[g]| < 4 && 0 <= i < Slots(|at[g]|) && Descends(|at[g]|, Entry(m, g, i))
      ensures Entry(m, g, i).frame in at && at[Entry(m, g, i).frame] == at[g] + [i]
    {
      EntryPlace(m, root, own, data, g, i);
    }
  }

  lemma EntryPlace(m: Mem, root: nat, own: map<nat, Path>, data: map<nat, Vpn>, g: nat, i: Index)
    requires Tree(m, root, own) && Leaves(m, own, data) && (forall f :: f in data ==> f !in own)
    requires g in own && Descends(|PlaceOf(own[g])|, Entry(m, g, i))
    ensures var at := Places(own, data);
            Entry(m, g, i).frame in at && at[Entry(m, g, i).frame] == PlaceOf(own[g]) + [i]
  {
    if !own[g].P1? {
      assert PointsToTable(own[g], Entry(m, g, i));
    }
  }

  // ---- what teardown meets ----

  /** The indices of page `p` from a level down to another. */
  function Steps(p: Vpn, level: nat, stop: nat): Place
    requires stop <= level <= 4
  {
    if level == stop then [] else [IndexAt(p, level)] + Steps(p, level - 1, stop)
  }

  lemma StepsLength(p: Vpn, level: nat, stop: nat)
    requires stop <= level <= 4
    ensures |Steps(p, level, stop)| == level - stop
  {
  }

  /** Teardown follows open entries of the user's half. */
  lemma {:induction false} OpenIsVisited(m: Mem, f: nat, level: Level, p: Vpn, stop: Level, g: nat)
    requires stop <= level && InUserHalf(p) && Guided(m, f, level, p, stop, AllRights) == Some(g)
    ensures 4 - level + |Steps(p, level, stop)| <= 4 && Visit(m, f, 4 - level, Steps(p, level, stop)) == Some(g)
    decreases level
  {
    StepsLength(p, level, stop);
    if level > stop {
      var e := Entry(m, f, IndexAt(p, level));
      OpenIsVisited(m, e.frame, level - 1, p, stop, g);
      assert Steps(p, level, stop)[1..] == Steps(p, level - 1, stop);
    }
  }

  lemma {:induction false} PageIsVisited(m: Mem, off: u64, f: nat, level: Level, p: Vpn)
    requires InUserHalf(p) && Guided(m, f, level, p, 1, AllRights).Some?
    requires var l := WalkFrom(m, off, f, level, p); l.Some? && l.value.level == 1 && l.value.word.user
    ensures 4 - level + |Steps(p, level, 0)| <= 4
    ensures Visit(m, f, 4 - level, Steps(p, level, 0)) == Some(WalkFrom(m, off, f, level, p).value.frame)
    decreases level
  {
    StepsLength(p, level, 0);
    var e := Entry(m, f, IndexAt(p, level));
    assert Steps(p, level, 0)[1..] == Steps(p, level - 1, 0);
    if level > 1 {
      PageIsVisited(m, off, e.frame, level - 1, p);
    }
  }

  /** Frames that the table took after it was recorded are met by teardown. */
  lemma TakenIsReached(m: Mem, off: u64, avail: iset<nat>, root: nat, own: map<nat, Path>, data: map<nat, Vpn>,
                       o: Origin, g: nat)
    requires Ledger(m, off, avail, root, own, data, o) && o.tracked && g in o.pool && g !in avail && g !in o.had
    ensures Reached(m, root, 0, g)
  {
    if g in own {
      var p :| InUserHalf(p) && OpenTable(m, root, p, LevelOf(own[g])) == Some(g);
      OpenIsVisited(m, root, 4, p, LevelOf(own[g]), g);
    } else {
      PageIsVisited(m, off, root, 4, data[g]);
    }
  }

  /** The record of a table as it is now. */
  ghost function Recorded(own: map<nat, Path>, data: map<nat, Vpn>, avail: iset<nat>): Origin {
    Origin((iset f | f in own || f in data), avail, true)
  }

  /** Every segment the file asks for ends within user space. */
  ghost predicate BelowEnd(file: seq<byte>, phoff: nat, n: nat, bias: u64) {
    forall i :: 0 <= i < n ==> EndsLow(Header(file, phoff, i, bias))
  }

  predicate EndsLow(h: Result<Option<Segment>>) {
    h.Ok? && h.value.Some? && h.value.value.vaddr + h.value.value.memsz < U64_LIMIT ==>
      h.value.value.vaddr + h.value.value.memsz <= USER_SPACE_END + 1
  }

  lemma LowRun(s: Segment)
    requires s.vaddr + s.memsz <= USER_SPACE_END + 1
    ensures UserRun(SegmentPages(s))
  {
    var first, count := FirstPage(s), PageCount(s);
    forall j | 0 <= j < count ensures InUserHalf(PageRun(first, count)[j]) {
      PageRunAt(first, count, j);
      LowPage(first + j);
    }
  }

  lemma LowPage(n: nat)
    requires n * 4096 <= USER_SPACE_END
    ensures InUserHalf(PageNo(n))
  {
    var a := n * 4096;
    assert a / 4096 == n;
    UserTop(a);
  }

  lemma LowLoadable(m: Mem, own: map<nat, Path>, o: Origin, file: seq<byte>, phoff: nat, n: nat, bias: u64)
    requires Loadable(m, own, UNTRACKED, file, phoff, n, bias) && BelowEnd(file, phoff, n, bias)
    ensures Loadable(m, own, o, file, phoff, n, bias)
  {
    forall i | 0 <= i < n ensures Admissible(m, own, o, Header(file, phoff, i, bias)) {
      var h := Header(file, phoff, i, bias);
      assert Admissible(m, own, UNTRACKED, h) && EndsLow(h);
      if h.Ok? && h.value.Some? && h.value.value.vaddr + h.value.value.memsz < U64_LIMIT {
        LowRun(h.value.value);
      }
    }
  }

  lemma LoadedDestroyable(k: Machine, root: nat, own: map<nat, Path>, data: map<nat, Vpn>, o: Origin)
    requires Image(k, root, own, data, o) && o.tracked
    ensures Destroyable(k, root, Places(own, data))
  {
    LoadedTree(k.mem, root, own, data);
  }

  /** Teardown meets every frame of the pool that is not available. */
  lemma PoolIsReached(m: Mem, off: u64, avail: iset<nat>, root: nat, own: map<nat, Path>, data: map<nat, Vpn>,
                      o: Origin)
    requires Ledger(m, off, avail, root, own, data, o) && o.tracked && (forall g :: g in o.pool ==> g !in o.had)
    ensures forall g :: g in o.pool && g !in avail ==> Reached(m, root, 0, g)
  {
    forall g | g in o.pool && g !in avail ensures Reached(m, root, 0, g) {
      TakenIsReached(m, off, avail, root, own, data, o, g);
    }
  }

  /** Teardown meets nothing but the table's frames. */
  lemma ReachedIsPlaced(m: Mem, root: nat, at: map<nat, Place>, g: nat)
    requires root in at && at[root] == [] && UserTree(m, at, []) && Reached(m, root, 0, g)
    ensures g in at
  {
    SubtreeIsReached(m, root, 0, g);
    SubtreeUnder(m, at, [], root, g);
  }

  /** Tears down a table with a record: all of its pool is available again. */
  method DestroyLoaded(k: Machine, table: u64, ghost own: map<nat, Path>, ghost data: map<nat, Vpn>, ghost o: Origin)
    returns (d: Outcome)
    requires table != 0 && table % 4096 == 0 && Image(k, table / 4096, own, data, o) && o.tracked
    requires forall g :: g in o.pool ==> g !in o.had && IsUsable(k.regions, g)
    modifies k
    ensures k.Ok() && d.Done?
    ensures forall g :: g in o.pool ==> g in k.avail
    ensures forall g :: g in k.avail ==> g in o.pool || g in o.had
  {
    ghost var m, avail := k.mem, k.avail;
    ghost var log;
    LoadedDestroyable(k, table / 4096, own, data, o);
    d, log := DestroyUserPageTable(k, table, Places(own, data));
    PoolReturned(k.regions, m, k.physOffset, avail, k.avail, table / 4096, own, data, o, log);
  }

  lemma PoolReturned(rs: MemoryMap, m: Mem, off: u64, avail: iset<nat>, avail': iset<nat>, root: nat,
                     own: map<nat, Path>, data: map<nat, Vpn>, o: Origin, log: seq<nat>)
    requires Ledger(m, off, avail, root, own, data, o) && o.tracked
    requires forall g :: g in o.pool ==> g !in o.had && IsUsable(rs, g)
    requires root in own && own[root] == P4 && UserTree(m, Places(own, data), [])
    requires (forall g :: g in log <==> Reached(m, root, 0, g)) && Grew(rs, off, avail, avail', log)
    ensures forall g :: g in o.pool ==> g in avail'
    ensures forall g :: g in avail' ==> g in o.pool || g in o.had
  {
    PoolIsReached(m, off, avail, root, own, data, o);
    forall g | g in avail' ensures g in o.pool || g in o.had {
      if g !in avail {
        ReachedIsPlaced(m, root, Places(own, data), g);
      }
    }
  }

  /** Loads a program, whether or not that succeeds, and tears the table down: every frame that
      was available before is available again, and any other frame was the table's before. */
  method LoadThenDestroy(k: Machine, table: u64, file: seq<byte>, phoff: u64, phnum: nat, bias: u64,
                         ghost own: map<nat, Path>, ghost data: map<nat, Vpn>)
    returns (r: Result<()>, d: Outcome)
    requires table != 0 && table % 4096 == 0 && k.physOffset != 0
    requires Table(k, table / 4096, own, data) && Covers(k) && 0 !in own && 0 !in data
    requires Loadable(k.mem, own, UNTRACKED, file, phoff, phnum, bias) && BelowEnd(file, phoff, phnum, bias)
    modifies k
    ensures k.Ok() && d.Done?
    ensures forall g :: g in old(k.avail) ==> g in k.avail
    ensures forall g :: g in k.avail ==> g in old(k.avail) || g in own || g in data
  {
    var root := table / 4096;
    AllUsable(k);
    ghost var o := Recorded(own, data, k.avail);
    LowLoadable(k.mem, own, o, file, phoff, phnum, bias);
    ghost var own', data';
    r, own', data' := LoadProgram(k, root, file, phoff, phnum, bias, own, data, o);
    d := DestroyLoaded(k, table, own', data', o);
  }
}
