/** Tearing down the user half of a page table, in place, while the frames it gives
    back are being overwritten with free-list links. */
module Teardown {
  import opened Memory
  import opened Frames
  import opened PageTables

  /** Where a frame hangs: the indices leading to it. The root table is at `[]`, a
      level-1 table at a place of length 3, a 4 KiB user page at one of length 4. */
  type Place = seq<nat>

  /** Only the user half of the root is visited. */
  function Slots(d: nat): nat {
    if d == 0 then 256 else 512
  }

  /** An entry of a table at depth `d` that teardown follows. */
  predicate Descends(d: nat, w: Word) {
    w.present && w.user && (d == 3 || !w.huge)
  }

  /** Every frame that teardown meets below `q` has one place, namely where it meets it. */
  ghost predicate UserTree(m: Mem, own: map<nat, Place>, q: Place) {
    forall g, i ::
      g in own && q <= own[g] && |own[g]| < 4 && 0 <= i < Slots(|own[g]|) && Descends(|own[g]|, Entry(m, g, i)) ==>
      Entry(m, g, i).frame in own && own[Entry(m, g, i).frame] == own[g] + [i]
  }

  // ---- the frames of a subtree, in the order they are given back ----

  ghost function Subtree(m: Mem, f: nat, d: nat): seq<nat>
    requires d <= 4
    decreases 4 - d, 600
  {
    if d == 4 then [f] else Below(m, f, d, Slots(d)) + [f]
  }

  /** The frames behind the first `i` slots. */
  ghost function Below(m: Mem, f: nat, d: nat, i: nat): seq<nat>
    requires d < 4 && i <= Slots(d)
    decreases 4 - d, i
  {
    if i == 0 then [] else Below(m, f, d, i - 1) + Behind(m, Entry(m, f, i - 1), d)
  }

  ghost function Behind(m: Mem, w: Word, d: nat): seq<nat>
    requires d < 4
    decreases 4 - d, 0
  {
    if Descends(d, w) then Subtree(m, w.frame, d + 1) else []
  }

  /** Frames of a subtree lie below its place. */
  lemma {:induction false} SubtreeUnder(m: Mem, own: map<nat, Place>, q: Place, f: nat, g: nat)
    requires UserTree(m, own, q) && f in own && own[f] == q && |q| <= 4
    requires g in Subtree(m, f, |q|)
    ensures g in own && q <= own[g]
    decreases 4 - |q|, 600
  {
    if |q| < 4 && g != f {
      BelowUnder(m, own, q, f, Slots(|q|), g);
    }
  }

  lemma {:induction false} BelowUnder(m: Mem, own: map<nat, Place>, q: Place, f: nat, i: nat, g: nat)
    requires UserTree(m, own, q) && f in own && own[f] == q && |q| < 4 && i <= Slots(|q|)
    requires g in Below(m, f, |q|, i)
    ensures g in own && q < own[g] && own[g][|q|] < i
    decreases 4 - |q|, i
  {
    var w := Entry(m, f, i - 1);
    if g in Below(m, f, |q|, i - 1) {
      BelowUnder(m, own, q, f, i - 1, g);
    } else {
      assert g in Behind(m, w, |q|);
      NarrowTree(m, own, q, i - 1);
      SubtreeUnder(m, own, q + [i - 1], w.frame, g);
    }
  }

  lemma NarrowTree(m: Mem, own: map<nat, Place>, q: Place, i: nat)
    requires UserTree(m, own, q)
    ensures UserTree(m, own, q + [i])
  {
  }

  /** The list depends only on pages below the place. */
  lemma {:induction false} SubtreeFrame(m: Mem, m': Mem, own: map<nat, Place>, q: Place, f: nat)
    requires UserTree(m, own, q) && f in own && own[f] == q && |q| <= 4
    requires forall g :: g in own && q <= own[g] ==> PageAt(m', g) == PageAt(m, g)
    ensures Subtree(m', f, |q|) == Subtree(m, f, |q|)
    decreases 4 - |q|, 600
  {
    if |q| < 4 {
      BelowFrame(m, m', own, q, f, Slots(|q|));
    }
  }

  lemma {:induction false} BelowFrame(m: Mem, m': Mem, own: map<nat, Place>, q: Place, f: nat, i: nat)
    requires UserTree(m, own, q) && f in own && own[f] == q && |q| < 4 && i <= Slots(|q|)
    requires forall g :: g in own && q <= own[g] ==> PageAt(m', g) == PageAt(m, g)
    ensures Below(m', f, |q|, i) == Below(m, f, |q|, i)
    decreases 4 - |q|, i
  {
    if i > 0 {
      var j := i - 1;
      BelowFrame(m, m', own, q, f, j);
      BehindFrame(m, m', own, q, f, j, Entry(m, f, j));
      assert Entry(m', f, j) == Entry(m, f, j);
    }
  }

  lemma {:induction false} BehindFrame(m: Mem, m': Mem, own: map<nat, Place>, q: Place, f: nat, j: nat, w: Word)
    requires UserTree(m, own, q) && f in own && own[f] == q && |q| < 4 && j < Slots(|q|) && w == Entry(m, f, j)
    requires forall g :: g in own && q <= own[g] ==> PageAt(m', g) == PageAt(m, g)
    ensures Behind(m', w, |q|) == Behind(m, w, |q|)
    decreases 4 - |q|, 0
  {
    if Descends(|q|, w) {
      var at := q + [j];
      NarrowTree(m, own, q, j);
      SubtreeFrame(m, m', own, at, w.frame);
    }
  }

  lemma TreeSame(m: Mem, m': Mem, own: map<nat, Place>, q: Place)
    requires UserTree(m, own, q)
    requires forall g :: g in own && q <= own[g] ==> PageAt(m', g) == PageAt(m, g)
    ensures UserTree(m', own, q)
  {
    forall g, i | g in own && q <= own[g] && 0 <= i < 512 ensures Entry(m', g, i) == Entry(m, g, i) {}
  }

  ghost predicate NoDup(s: seq<nat>) {
    forall i, j :: 0 <= i < j < |s| ==> s[i] != s[j]
  }

  lemma NoDupConcat(s: seq<nat>, t: seq<nat>)
    requires NoDup(s) && NoDup(t)
    requires forall x :: x in s ==> x !in t
    ensures NoDup(s + t)
  {
    forall i, j | 0 <= i < j < |s + t| ensures (s + t)[i] != (s + t)[j] {
      if i < |s| <= j {
        assert s[i] in s && t[j - |s|] in t;
      }
    }
  }

  /** No frame is listed twice. */
  lemma {:induction false} SubtreeNoDup(m: Mem, own: map<nat, Place>, q: Place, f: nat)
    requires UserTree(m, own, q) && f in own && own[f] == q && |q| <= 4
    ensures NoDup(Subtree(m, f, |q|))
    decreases 4 - |q|, 600
  {
    if |q| < 4 {
      var below := Below(m, f, |q|, Slots(|q|));
      BelowNoDup(m, own, q, f, Slots(|q|));
      forall g | g in below ensures g != f {
        BelowUnder(m, own, q, f, Slots(|q|), g);
      }
      NoDupConcat(below, [f]);
    }
  }

  lemma {:induction false} BelowNoDup(m: Mem, own: map<nat, Place>, q: Place, f: nat, i: nat)
    requires UserTree(m, own, q) && f in own && own[f] == q && |q| < 4 && i <= Slots(|q|)
    ensures NoDup(Below(m, f, |q|, i))
    decreases 4 - |q|, i
  {
    if i > 0 {
      var w := Entry(m, f, i - 1);
      var before, behind := Below(m, f, |q|, i - 1), Behind(m, w, |q|);
      BelowNoDup(m, own, q, f, i - 1);
      if Descends(|q|, w) {
        NarrowTree(m, own, q, i - 1);
        SubtreeNoDup(m, own, q + [i - 1], w.frame);
        forall g | g in before ensures g !in behind {
          BelowUnder(m, own, q, f, i - 1, g);
          if g in behind {
            SubtreeUnder(m, own, q + [i - 1], w.frame, g);
          }
        }
        NoDupConcat(before, behind);
      }
    }
  }

  // ---- which frames those are ----

  /** The frame reached from table `f` at depth `d` by following the indices `p`. */
  ghost function Visit(m: Mem, f: nat, d: nat, p: Place): Option<nat>
    requires d + |p| <= 4
    decreases |p|
  {
    if p == [] then Some(f)
    else if p[0] < Slots(d) && Descends(d, Entry(m, f, p[0])) then Visit(m, Entry(m, f, p[0]).frame, d + 1, p[1..])
    else None
  }

  ghost predicate Reached(m: Mem, f: nat, d: nat, g: nat)
    requires d <= 4
  {
    exists p: Place :: d + |p| <= 4 && Visit(m, f, d, p) == Some(g)
  }

  lemma {:induction false} VisitedIsListed(m: Mem, f: nat, d: nat, p: Place, g: nat)
    requires d + |p| <= 4 && Visit(m, f, d, p) == Some(g)
    ensures g in Subtree(m, f, d)
    decreases |p|
  {
    if p != [] {
      var i, w := p[0], Entry(m, f, p[0]);
      VisitedIsListed(m, w.frame, d + 1, p[1..], g);
      BehindIsListed(m, f, d, i, w, d + 1, g);
    }
  }

  lemma BehindIsListed(m: Mem, f: nat, d: nat, i: nat, w: Word, below: nat, g: nat)
    requires d < 4 && below == d + 1 && i < Slots(d) && w == Entry(m, f, i) && Descends(d, w)
    requires g in Subtree(m, w.frame, below)
    ensures g in Subtree(m, f, d)
  {
    var n := Slots(d);
    assert Behind(m, w, d) == Subtree(m, w.frame, below);
    BehindIsBelow(m, f, d, i, n, g);
  }

  lemma {:induction false} BehindIsBelow(m: Mem, f: nat, d: nat, j: nat, i: nat, g: nat)
    requires d < 4 && j < i <= Slots(d) && g in Behind(m, Entry(m, f, j), d)
    ensures g in Below(m, f, d, i)
    decreases i
  {
    if j < i - 1 {
      BehindIsBelow(m, f, d, j, i - 1, g);
    }
  }

  lemma {:induction false} ListedIsVisited(m: Mem, f: nat, d: nat, g: nat) returns (p: Place)
    requires d <= 4 && g in Subtree(m, f, d)
    ensures d + |p| <= 4 && Visit(m, f, d, p) == Some(g)
    decreases 4 - d, 600
  {
    if g == f {
      p := [];
    } else {
      p := BelowIsVisited(m, f, d, Slots(d), g);
    }
  }

  lemma {:induction false} BelowIsVisited(m: Mem, f: nat, d: nat, i: nat, g: nat) returns (p: Place)
    requires d < 4 && i <= Slots(d) && g in Below(m, f, d, i)
    ensures d + |p| <= 4 && Visit(m, f, d, p) == Some(g)
    decreases 4 - d, i
  {
    if g in Below(m, f, d, i - 1) {
      p := BelowIsVisited(m, f, d, i - 1, g);
    } else {
      var rest := ListedIsVisited(m, Entry(m, f, i - 1).frame, d + 1, g);
      p := [i - 1] + rest;
      assert p[1..] == rest;
    }
  }

  /** The list holds exactly the tables and pages that user entries lead to. */
  lemma SubtreeIsReached(m: Mem, f: nat, d: nat, g: nat)
    requires d <= 4
    ensures g in Subtree(m, f, d) <==> Reached(m, f, d, g)
  {
    if g in Subtree(m, f, d) {
      var p := ListedIsVisited(m, f, d, g);
    }
    if Reached(m, f, d, g) {
      var p: Place :| d + |p| <= 4 && Visit(m, f, d, p) == Some(g);
      VisitedIsListed(m, f, d, p, g);
    }
  }

  // ---- the teardown itself ----

  /** The free list after `log` was handed to the allocator, frame by frame. */
  ghost function Listed(rs: MemoryMap, off: u64, fs: seq<nat>, log: seq<nat>): seq<nat> {
    if log == [] then fs else
    var last, before := log[|log| - 1], Listed(rs, off, fs, log[..|log| - 1]);
    if IsUsable(rs, last) && off != 0 then [last] + before else before
  }

  lemma {:induction false} ListedAppend(rs: MemoryMap, off: u64, fs: seq<nat>, a: seq<nat>, b: seq<nat>)
    ensures Listed(rs, off, fs, a + b) == Listed(rs, off, Listed(rs, off, fs, a), b)
    decreases |b|
  {
    if b == [] {
      assert a + b == a;
    } else {
      assert (a + b)[..|a + b| - 1] == a + b[..|b| - 1];
      ListedAppend(rs, off, fs, a, b[..|b| - 1]);
    }
  }

  /** `after` is `before` plus the frames of `log` that the allocator accepts. */
  ghost predicate Grew(rs: MemoryMap, off: u64, before: iset<nat>, after: iset<nat>, log: seq<nat>) {
    forall g :: g in after <==> g in before || (g in log && IsUsable(rs, g) && off != 0)
  }

  /** Frames at or below `q` are in use. */
  ghost predicate InUse(own: map<nat, Place>, q: Place, avail: iset<nat>) {
    forall g :: g in own && q <= own[g] ==> g != 0 && g !in avail
  }

  /** Only pages at or below `q` differ. */
  ghost predicate OnlyUnder(m: Mem, m': Mem, own: map<nat, Place>, q: Place) {
    forall g :: (g in own && q <= own[g]) || PageAt(m', g) == PageAt(m, g)
  }

  /** Frame `g` hangs behind one of the first `i` slots of the table at `q`. */
  ghost predicate Cleared(own: map<nat, Place>, q: Place, i: nat, g: nat) {
    g in own && q < own[g] && own[g][|q|] < i
  }

  /** The first `i` slots of table `f` and what hung behind them may differ, nothing else. */
  ghost predicate Pruned(m: Mem, now: Mem, own: map<nat, Place>, q: Place, f: nat, i: nat) {
    && (forall g :: PageAt(now, g) == PageAt(m, g) || g == f || Cleared(own, q, i, g))
    && (forall j :: i <= j < 512 ==> Entry(now, f, j) == Entry(m, f, j))
  }

  /** Hands every user table and user page at or below table `f` to the allocator. */
  method Destroy(k: Machine, f: nat, d: nat, ghost own: map<nat, Place>, ghost q: Place) returns (ghost log: seq<nat>)
    requires d < 4 && |q| == d && f in own && own[f] == q
    requires k.Ok() && UserTree(k.mem, own, q) && InUse(own, q, k.avail)
    modifies k
    ensures k.Ok()
    ensures log == Subtree(old(k.mem), f, d)
    ensures OnlyUnder(old(k.mem), k.mem, own, q)
    ensures Grew(k.regions, k.physOffset, old(k.avail), k.avail, log)
    ensures k.free == Listed(k.regions, k.physOffset, old(k.free), log)
    decreases 4 - d, 1
  {
    log := DestroySlots(k, f, d, own, q);
    Handover(k, f, d, own, q, old(k.mem), old(k.avail), old(k.free), log);
    log := log + [f];
  }

  /** Frees the table itself once everything below it is gone. */
  method Handover(k: Machine, f: nat, d: nat, ghost own: map<nat, Place>, ghost q: Place,
                  ghost m: Mem, ghost avail: iset<nat>, ghost free: seq<nat>, ghost log: seq<nat>)
    requires d < 4 && |q| == d && f in own && own[f] == q
    requires k.Ok() && UserTree(m, own, q) && InUse(own, q, avail)
    requires log == Below(m, f, d, Slots(d)) && Pruned(m, k.mem, own, q, f, Slots(d))
    requires Grew(k.regions, k.physOffset, avail, k.avail, log)
    requires k.free == Listed(k.regions, k.physOffset, free, log)
    modifies k
    ensures k.Ok() && OnlyUnder(m, k.mem, own, q)
    ensures Grew(k.regions, k.physOffset, avail, k.avail, log + [f])
    ensures k.free == Listed(k.regions, k.physOffset, free, log + [f])
  {
    forall g | g in log ensures g in own && q < own[g] {
      BelowUnder(m, own, q, f, Slots(d), g);
    }
    var _ := k.DeallocateFrame(f);
    ListedAppend(k.regions, k.physOffset, free, log, [f]);
  }

  /** Hands over what hangs behind each slot in turn. */
  method DestroySlots(k: Machine, f: nat, d: nat, ghost own: map<nat, Place>, ghost q: Place)
    returns (ghost log: seq<nat>)
    requires d < 4 && |q| == d && f in own && own[f] == q
    requires k.Ok() && UserTree(k.mem, own, q) && InUse(own, q, k.avail)
    modifies k
    ensures k.Ok() && log == Below(old(k.mem), f, d, Slots(d))
    ensures Pruned(old(k.mem), k.mem, own, q, f, Slots(d))
    ensures Grew(k.regions, k.physOffset, old(k.avail), k.avail, log)
    ensures k.free == Listed(k.regions, k.physOffset, old(k.free), log)
    decreases 4 - d, 0, 2
  {
    ghost var m := k.mem;
    log := [];
    var i := 0;
    while i < Slots(d)
      invariant i <= Slots(d) && k.Ok() && log == Below(m, f, d, i)
      invariant Grew(k.regions, k.physOffset, old(k.avail), k.avail, log)
      invariant k.free == Listed(k.regions, k.physOffset, old(k.free), log)
      invariant Pruned(m, k.mem, own, q, f, i)
    {
      ghost var freed := DestroySlot(k, f, i, d, own, q, m, log);
      ListedAppend(k.regions, k.physOffset, old(k.free), log, freed);
      log := log + freed;
      i := i + 1;
    }
  }

  /** Hands over what hangs behind slot `i` and clears the slot. */
  method DestroySlot(k: Machine, f: nat, i: nat, d: nat,
                     ghost own: map<nat, Place>, ghost q: Place, ghost m: Mem, ghost log: seq<nat>)
    returns (ghost freed: seq<nat>)
    requires d < 4 && |q| == d && f in own && own[f] == q && i < Slots(d)
    requires k.Ok() && UserTree(m, own, q)
    requires log == Below(m, f, d, i)
    requires forall g :: g in own && q <= own[g] ==> g != 0 && (g in k.avail ==> g in log)
    requires Pruned(m, k.mem, own, q, f, i)
    modifies k
    ensures k.Ok()
    ensures freed == Behind(m, Entry(m, f, i), d)
    ensures Grew(k.regions, k.physOffset, old(k.avail), k.avail, freed)
    ensures k.free == Listed(k.regions, k.physOffset, old(k.free), freed)
    ensures Pruned(m, k.mem, own, q, f, i + 1)
    decreases 4 - d, 0, 1
  {
    SlotUntouched(m, k.mem, own, q, f, i, log, k.avail);
    freed := [];
    ghost var before := k.mem;
    var w := k.Load(f, i);
    if !w.present || !w.user {
      return;
    }
    if d == 3 || !w.huge {
      freed := Follow(k, w.frame, d, own, q, i, m);
    }
    ghost var mid := k.mem;
    k.Store(f, i, ZERO_WORD);
    SlotPruned(m, before, mid, own, q, f, i);
  }

  /** Clearing slot `i` after what hung behind it is gone. */
  lemma SlotPruned(m: Mem, before: Mem, mid: Mem, own: map<nat, Place>, q: Place, f: nat, i: nat)
    requires Pruned(m, before, own, q, f, i) && i < 512 && OnlyUnder(before, mid, own, q + [i]) && f in own
      && own[f] == q
    ensures Pruned(m, SetEntry(mid, f, i, ZERO_WORD), own, q, f, i + 1)
  {
  }

  /** What hangs behind slot `i` is still in use and as it was. */
  lemma SlotUntouched(m: Mem, now: Mem, own: map<nat, Place>, q: Place, f: nat, i: nat, log: seq<nat>, avail: iset<nat>)
    requires |q| < 4 && f in own && own[f] == q && i < Slots(|q|) && UserTree(m, own, q)
    requires log == Below(m, f, |q|, i)
    requires forall g :: g in own && q <= own[g] ==> g != 0 && (g in avail ==> g in log)
    requires Pruned(m, now, own, q, f, i)
    ensures f !in avail && InUse(own, q + [i], avail)
    ensures forall g :: g in own && q + [i] <= own[g] ==>
      PageAt(now, g) == PageAt(m, g) && Cleared(own, q, i + 1, g) && g != f
  {
    if f in log {
      BelowUnder(m, own, q, f, i, f);
    }
    forall g | g in own && q + [i] <= own[g]
      ensures g != 0 && g !in avail && PageAt(now, g) == PageAt(m, g) && Cleared(own, q, i + 1, g)
    {
      if g in log {
        BelowUnder(m, own, q, f, i, g);
      }
    }
  }

  /** Hands over a user page, or all of a table below. */
  method Follow(k: Machine, g: nat, d: nat, ghost own: map<nat, Place>, ghost q: Place, ghost i: nat, ghost m: Mem)
    returns (ghost freed: seq<nat>)
    requires d < 4 && |q| == d && g in own && own[g] == q + [i]
    requires k.Ok() && UserTree(m, own, q) && InUse(own, q + [i], k.avail)
    requires forall h :: h in own && q + [i] <= own[h] ==> PageAt(k.mem, h) == PageAt(m, h)
    modifies k
    ensures k.Ok()
    ensures freed == Subtree(m, g, d + 1)
    ensures forall h :: h in freed ==> h in own && q + [i] <= own[h]
    ensures OnlyUnder(old(k.mem), k.mem, own, q + [i])
    ensures Grew(k.regions, k.physOffset, old(k.avail), k.avail, freed)
    ensures k.free == Listed(k.regions, k.physOffset, old(k.free), freed)
    decreases 4 - d, 0, 0
  {
    NarrowTree(m, own, q, i);
    forall h | h in Subtree(m, g, d + 1) ensures h in own && q + [i] <= own[h] {
      SubtreeUnder(m, own, q + [i], g, h);
    }
    if d == 3 {
      var _ := k.DeallocateFrame(g);
      freed := [g];
    } else {
      TreeSame(m, k.mem, own, q + [i]);
      SubtreeFrame(m, k.mem, own, q + [i], g);
      freed := Destroy(k, g, d + 1, own, q + [i]);
    }
  }

  datatype Outcome = Done | InvalidParam

  /** The table's user entries form a tree of frames that are in use. */
  ghost predicate Destroyable(k: Machine, root: nat, own: map<nat, Place>)
    reads k
  {
    root in own && own[root] == [] && UserTree(k.mem, own, []) && InUse(own, [], k.avail)
  }

  /** Gives back a whole user page table: each table and page that user entries lead to,
      and the root, goes to the allocator exactly once, and nothing else does. */
  method DestroyUserPageTable(k: Machine, table: u64, ghost own: map<nat, Place>)
    returns (r: Outcome, ghost log: seq<nat>)
    requires k.Ok()
    requires table != 0 && table % 4096 == 0 ==> Destroyable(k, table / 4096, own)
    modifies k
    ensures k.Ok()
    ensures r.InvalidParam? <==> table == 0 || table % 4096 != 0
    ensures r.InvalidParam? ==> log == [] && k.State() == old(k.State())
    ensures r.Done? ==> NoDup(log) && forall g :: g in log <==> Reached(old(k.mem), table / 4096, 0, g)
    ensures Grew(k.regions, k.physOffset, old(k.avail), k.avail, log)
    ensures k.free == Listed(k.regions, k.physOffset, old(k.free), log)
    ensures forall g :: g !in own ==> PageAt(k.mem, g) == PageAt(old(k.mem), g)
  {
    if table == 0 || table % 4096 != 0 {
      return InvalidParam, [];
    }
    SubtreeNoDup(k.mem, own, [], table / 4096);
    forall g ensures g in Subtree(k.mem, table / 4096, 0) <==> Reached(k.mem, table / 4096, 0, g) {
      SubtreeIsReached(k.mem, table / 4096, 0, g);
    }
    log := Destroy(k, table / 4096, 0, own, []);
    r := Done;
  }
}
