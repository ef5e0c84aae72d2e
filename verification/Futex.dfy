/** Futex waiting: a table of waiters, per-thread timeout flags, and the wait protocol. */
module Futex {
  import opened Memory

  const NO_TIMEOUT: u64 := 0xFFFF_FFFF_FFFF_FFFF

  datatype Waiter = Waiter(tid: u64, uaddr: u64, wakeTick: u64)

  type Slots = seq<Option<Waiter>>

  predicate Waits(s: Option<Waiter>, tid: u64) { s.Some? && s.value.tid == tid }

  predicate On(s: Option<Waiter>, uaddr: u64) { s.Some? && s.value.uaddr == uaddr }

  predicate Due(s: Option<Waiter>, now: u64) {
    s.Some? && s.value.wakeTick != NO_TIMEOUT && now >= s.value.wakeTick
  }

  // ---- what the scans compute ----

  /** No thread has two entries. */
  ghost predicate OnePerThread(q: Slots) {
    forall i, j :: 0 <= i < j < |q| && q[i].Some? && q[j].Some? ==> q[i].value.tid != q[j].value.tid
  }

  ghost predicate Queued(q: Slots, w: Waiter) {
    exists i :: 0 <= i < |q| && q[i] == Some(w)
  }

  ghost predicate HasThread(q: Slots, tid: u64) {
    exists i :: 0 <= i < |q| && Waits(q[i], tid)
  }

  /** How many wait on an address. */
  function CountOn(q: Slots, uaddr: u64): (n: nat)
    ensures n <= |q|
  {
    if q == [] then 0 else CountOn(q[..|q| - 1], uaddr) + (if On(q[|q| - 1], uaddr) then 1 else 0)
  }

  /** The table after waking the first `n` waiters on an address, and who was woken. */
  function Wake(q: Slots, uaddr: u64, n: nat): (Slots, seq<u64>) {
    if q == [] then ([], []) else
    var (r, woken) := Wake(q[..|q| - 1], uaddr, n);
    var last := q[|q| - 1];
    if |woken| < n && On(last, uaddr) then (r + [None], woken + [last.value.tid]) else (r + [last], woken)
  }

  /** The table after a tick, and whose time was up. */
  function Expire(q: Slots, now: u64): (Slots, seq<u64>) {
    if q == [] then ([], []) else
    var (r, late) := Expire(q[..|q| - 1], now);
    var last := q[|q| - 1];
    if Due(last, now) then (r + [None], late + [last.value.tid]) else (r + [last], late)
  }

  function Threads(s: seq<u64>): set<u64> { set t | t in s }

  function Min(a: nat, b: nat): nat { if a < b then a else b }

  /** A wake removes exactly as many waiters as asked for, or all there are, and leaves
      every other address alone. */
  lemma {:induction false} WakeExact(q: Slots, uaddr: u64, n: nat)
    ensures var (r, woken) := Wake(q, uaddr, n);
            && |r| == |q| && |woken| == Min(n, CountOn(q, uaddr))
            && CountOn(r, uaddr) == CountOn(q, uaddr) - |woken|
            && (forall i :: 0 <= i < |q| ==> r[i] == q[i] || (r[i] == None && On(q[i], uaddr)))
            && forall v :: v != uaddr ==> CountOn(r, v) == CountOn(q, v)
    decreases |q|
  {
    if q != [] {
      var (r, woken) := Wake(q, uaddr, n);
      WakeExact(q[..|q| - 1], uaddr, n);
      assert r[..|r| - 1] == Wake(q[..|q| - 1], uaddr, n).0;
    }
  }

  /** Slot by slot: what a removal may do. The threads in `gone` are those removed. */
  ghost predicate Removed(q: Slots, r: Slots, gone: seq<u64>) {
    && |r| == |q|
    && (forall i :: 0 <= i < |q| ==> r[i] == q[i] || (r[i] == None && q[i].Some? && q[i].value.tid in gone))
    && (forall t :: t in gone ==> exists i :: 0 <= i < |q| && Waits(q[i], t) && r[i] == None)
  }

  lemma RemovedSnoc(q: Slots, r: Slots, gone: seq<u64>, a: Option<Waiter>, keep: bool)
    requires Removed(q, r, gone) && (!keep ==> a.Some?)
    ensures Removed(q + [a], r + [if keep then a else None], if keep then gone else gone + [a.value.tid])
  {
    var q', r' := q + [a], r + [if keep then a else None];
    var gone' := if keep then gone else gone + [a.value.tid];
    forall t | t in gone' ensures exists i :: 0 <= i < |q'| && Waits(q'[i], t) && r'[i] == None {
      if t in gone {
        var i :| 0 <= i < |q| && Waits(q[i], t) && r[i] == None;
        assert Waits(q'[i], t) && r'[i] == None;
      } else {
        assert Waits(q'[|q|], t) && r'[|q|] == None;
      }
    }
  }

  lemma {:induction false} WakeRemoves(q: Slots, uaddr: u64, n: nat)
    ensures var (r, woken) := Wake(q, uaddr, n); Removed(q, r, woken)
    decreases |q|
  {
    if q != [] {
      var k := |q| - 1;
      WakeRemoves(q[..k], uaddr, n);
      var (r, woken) := Wake(q[..k], uaddr, n);
      assert q == q[..k] + [q[k]];
      RemovedSnoc(q[..k], r, woken, q[k], !(|woken| < n && On(q[k], uaddr)));
    }
  }

  /** A tick removes exactly the waiters whose time is up. */
  lemma {:induction false} ExpireExact(q: Slots, now: u64)
    ensures var (r, late) := Expire(q, now);
            Removed(q, r, late) && forall i :: 0 <= i < |q| ==> r[i] == if Due(q[i], now) then None else q[i]
    decreases |q|
  {
    if q != [] {
      var k := |q| - 1;
      ExpireExact(q[..k], now);
      var (r, late) := Expire(q[..k], now);
      assert q == q[..k] + [q[k]];
      RemovedSnoc(q[..k], r, late, q[k], !Due(q[k], now));
    }
  }

  lemma RemovedKeepsOne(q: Slots, r: Slots, gone: seq<u64>)
    requires Removed(q, r, gone) && OnePerThread(q)
    ensures OnePerThread(r)
  {
  }

  /** The first slot for which `p` holds, |q| if there is none. */
  function First(q: Slots, p: Option<Waiter> -> bool): (k: nat)
    ensures k <= |q| && (k < |q| ==> p(q[k])) && forall j :: 0 <= j < k ==> !p(q[j])
  {
    if q == [] || p(q[0]) then 0 else 1 + First(q[1..], p)
  }

  function OfThread(tid: u64): Option<Waiter> -> bool { s => Waits(s, tid) }

  function IsFree(): Option<Waiter> -> bool { s => s == None }

  /** The table with a new waiter, if the thread has none yet and there is room. */
  function Register(q: Slots, w: Waiter): Option<Slots> {
    if First(q, OfThread(w.tid)) < |q| || First(q, IsFree()) == |q| then None
    else Some(q[First(q, IsFree()) := Some(w)])
  }

  /** The table without a thread's entry. */
  function Unregister(q: Slots, tid: u64): (r: Slots)
    ensures |r| == |q|
  {
    var k := First(q, OfThread(tid));
    if k < |q| then q[k := None] else q
  }

  predicate Matches(q: Slots, tid: u64, uaddr: u64) {
    exists i :: 0 <= i < |q| && Waits(q[i], tid) && On(q[i], uaddr)
  }

  // ---- slot by slot ----

  /** How many of the first `i` slots hold waiters on an address. */
  ghost function Before(q: Slots, i: nat, uaddr: u64): nat
    requires i <= |q|
  {
    if i == 0 then 0 else
    Before(q, i - 1, uaddr) + if q[i - 1].Some? && q[i - 1].value.uaddr == uaddr then 1 else 0
  }

  lemma {:induction false} BeforePrefix(q: Slots, k: nat, i: nat, uaddr: u64)
    requires i <= k <= |q|
    ensures Before(q[..k], i, uaddr) == Before(q, i, uaddr)
    decreases i
  {
    if i > 0 {
      BeforePrefix(q, k, i - 1, uaddr);
    }
  }

  /** Those woken are the first `n` on the address in the order of the slots. */
  lemma {:induction false} WakeSlots(q: Slots, uaddr: u64, n: nat)
    ensures var (r, woken) := Wake(q, uaddr, n);
            |woken| == Min(n, Before(q, |q|, uaddr)) && FirstWoken(q, r, uaddr, n)
    decreases |q|
  {
    if q != [] {
      var k := |q| - 1;
      WakeSlots(q[..k], uaddr, n);
      BeforePrefix(q, k, k, uaddr);
      var r, after := Wake(q[..k], uaddr, n).0, Wake(q, uaddr, n).0;
      FirstWokenSnoc(q, k, r, after, after[|after| - 1], uaddr, n);
    }
  }

  /** The first `n` waiters on the address are gone, and every other slot is as it was. */
  ghost predicate FirstWoken(q: Slots, r: Slots, uaddr: u64, n: nat) {
    |r| == |q| && forall i :: 0 <= i < |q| ==>
      r[i] == if q[i].Some? && q[i].value.uaddr == uaddr && Before(q, i, uaddr) < n then None else q[i]
  }

  lemma FirstWokenSnoc(q: Slots, k: nat, r: Slots, after: Slots, last: Option<Waiter>, uaddr: u64, n: nat)
    requires |q| == k + 1 && FirstWoken(q[..k], r, uaddr, n) && after == r + [last]
    requires last == if q[k].Some? && q[k].value.uaddr == uaddr && Before(q, k, uaddr) < n then None else q[k]
    ensures FirstWoken(q, after, uaddr, n)
  {
    forall i | 0 <= i < k ensures Before(q[..k], i, uaddr) == Before(q, i, uaddr) {
      BeforePrefix(q, k, i, uaddr);
    }
  }

  /** A tick empties exactly the slots with a deadline that has come. */
  lemma ExpireSlots(q: Slots, now: u64)
    ensures var (r, late) := Expire(q, now);
            |r| == |q| && forall i :: 0 <= i < |q| ==>
              var due := q[i].Some? && q[i].value.wakeTick < 0xFFFF_FFFF_FFFF_FFFF && q[i].value.wakeTick <= now;
              r[i] == if due then None else q[i]
  {
    ExpireExact(q, now);
  }

  /** A waiter goes into the first empty slot, unless its thread waits already or none is empty. */
  lemma RegisterSlots(q: Slots, w: Waiter)
    ensures Register(q, w).None? <==>
      (exists i :: 0 <= i < |q| && q[i].Some? && q[i].value.tid == w.tid) || forall i :: 0 <= i < |q| ==> q[i].Some?
    ensures Register(q, w).Some? ==>
      exists k :: 0 <= k < |q| && q[k].None? && (forall j :: 0 <= j < k ==> q[j].Some?)
                  && Register(q, w).value == q[k := Some(w)]
  {
    var k, f := First(q, OfThread(w.tid)), First(q, IsFree());
    if k < |q| {
      assert q[k].Some? && q[k].value.tid == w.tid;
    }
    forall j | 0 <= j < k ensures !(q[j].Some? && q[j].value.tid == w.tid) {
      assert !OfThread(w.tid)(q[j]);
    }
    forall j | 0 <= j < f ensures q[j].Some? {
      assert !IsFree()(q[j]);
    }
    if f < |q| {
      assert q[f].None?;
    }
  }

  /** A thread's entry is taken out and no other. */
  lemma UnregisterSlots(q: Slots, tid: u64)
    requires OnePerThread(q)
    ensures var r := Unregister(q, tid);
            |r| == |q| && forall i :: 0 <= i < |q| ==>
              r[i] == if q[i].Some? && q[i].value.tid == tid then None else q[i]
  {
    var k := First(q, OfThread(tid));
    forall i | 0 <= i < k ensures !(q[i].Some? && q[i].value.tid == tid) {
      assert !OfThread(tid)(q[i]);
    }
    if k < |q| {
      assert q[k].Some? && q[k].value.tid == tid;
    }
  }

  datatype Result = Continue | Success | TimedOut

  datatype Begun = Waiting | Fault | Again

  /** What a waiting thread finds when it looks: table and flags after, and the verdict. */
  function Look(q: Slots, timedOut: set<u64>, w: Waiter, now: u64): (Slots, set<u64>, Result) {
    if w.tid in timedOut then (q, timedOut - {w.tid}, TimedOut)
    else if !Matches(q, w.tid, w.uaddr) then (q, timedOut, Success)
    else if w.wakeTick != NO_TIMEOUT && now >= w.wakeTick then (Unregister(q, w.tid), timedOut - {w.tid}, TimedOut)
    else (q, timedOut, Continue)
  }

  // ---- the table itself ----

  class Table {
    const slots: array<Option<Waiter>>
    var timedOut: set<u64>

    constructor (maxThreads: nat)
      ensures fresh(slots) && slots.Length == maxThreads && timedOut == {}
      ensures forall i :: 0 <= i < maxThreads ==> slots[i] == None
    {
      slots := new Option<Waiter>[maxThreads](i => None);
      timedOut := {};
    }

    /** Scans for the first slot of a kind. */
    method Scan(p: Option<Waiter> -> bool) returns (k: nat)
      ensures k == First(slots[..], p)
    {
      k := 0;
      while k < slots.Length && !p(slots[k])
        invariant k <= slots.Length && First(slots[..], p) == k + First(slots[k..], p)
      {
        assert slots[k..][1..] == slots[k + 1..];
        k := k + 1;
      }
    }

    method RegisterWaiter(w: Waiter) returns (ok: bool)
      modifies slots
      ensures ok <==> Register(old(slots[..]), w).Some?
      ensures slots[..] == if ok then Register(old(slots[..]), w).value else old(slots[..])
    {
      var k := Scan(OfThread(w.tid));
      if k < slots.Length {
        return false;
      }
      k := Scan(IsFree());
      ok := k < slots.Length;
      if ok {
        slots[k] := Some(w);
      }
    }

    method RemoveByTid(tid: u64) returns (found: bool)
      modifies slots
      ensures slots[..] == Unregister(old(slots[..]), tid)
      ensures found <==> First(old(slots[..]), OfThread(tid)) < slots.Length
    {
      var k := Scan(OfThread(tid));
      found := k < slots.Length;
      if found {
        slots[k] := None;
      }
    }

    method WaiterExists(tid: u64, uaddr: u64) returns (found: bool)
      ensures found <==> Matches(slots[..], tid, uaddr)
    {
      for i := 0 to slots.Length
        invariant forall j :: 0 <= j < i ==> !(Waits(slots[j], tid) && On(slots[j], uaddr))
      {
        if Waits(slots[i], tid) && On(slots[i], uaddr) {
          assert Waits(slots[..][i], tid);
          return true;
        }
      }
      return false;
    }

    /** The timer: takes out everyone whose time is up and flags them. */
    method WakeDue(now: u64) returns (late: seq<u64>)
      modifies slots, this`timedOut
      ensures (slots[..], late) == Expire(old(slots[..]), now)
      ensures timedOut == old(timedOut) + Threads(late)
    {
      ghost var q := slots[..];
      late := [];
      for i := 0 to slots.Length
        invariant (forall j :: i <= j < slots.Length ==> slots[j] == q[j])
          && (slots[..i], late) == Expire(q[..i], now) && timedOut == old(timedOut)
      {
        assert q[..i + 1][..i] == q[..i];
        ghost var before := slots[..i];
        var s := slots[i];
        if Due(s, now) {
          slots[i] := None;
          late := late + [s.value.tid];
        }
        assert slots[..i + 1] == before + [slots[i]];
      }
      assert slots[..] == slots[..slots.Length] && q == q[..slots.Length];
      timedOut := timedOut + Threads(late);
    }

    /** Wakes up to `val` waiters on an address. */
    method WakeOn(uaddr: u64, val: nat) returns (woken: seq<u64>)
      modifies slots, this`timedOut
      ensures (slots[..], woken) == Wake(old(slots[..]), uaddr, val)
      ensures timedOut == old(timedOut) - Threads(woken)
    {
      ghost var q := slots[..];
      var max := Min(val, slots.Length);
      WakeCapped(q, uaddr, val, slots.Length);
      woken := [];
      for i := 0 to slots.Length
        invariant (forall j :: i <= j < slots.Length ==> slots[j] == q[j])
          && (slots[..i], woken) == Wake(q[..i], uaddr, max) && timedOut == old(timedOut)
      {
        assert q[..i + 1][..i] == q[..i];
        ghost var before := slots[..i];
        var s := slots[i];
        if |woken| < max && On(s, uaddr) {
          slots[i] := None;
          woken := woken + [s.value.tid];
        }
        assert slots[..i + 1] == before + [slots[i]];
      }
      assert slots[..] == slots[..slots.Length] && q == q[..slots.Length];
      timedOut := timedOut - Threads(woken);
    }

    /** The start of a wait: checks the address, which `valid` says is the user's, then the
        word behind it, which cannot be read if absent, and queues the thread. */
    method BeginWait(w: Waiter, valid: bool, word: Option<nat>, expected: nat) returns (r: Begun)
      modifies slots, this`timedOut
      ensures r == Fault <==> w.uaddr == 0 || !valid || word.None?
      ensures r == Waiting <==>
        r != Fault && word.value == expected % 0x1_0000_0000 && Register(old(slots[..]), w).Some?
      ensures slots[..] == if r == Waiting then Register(old(slots[..]), w).value else old(slots[..])
      ensures timedOut == if w.uaddr == 0 || !valid then old(timedOut) else old(timedOut) - {w.tid}
    {
      if w.uaddr == 0 || !valid {
        return Fault;
      }
      timedOut := timedOut - {w.tid};
      if word.None? {
        return Fault;
      }
      if word.value != expected % 0x1_0000_0000 {
        return Again;
      }
      var queued := RegisterWaiter(w);
      r := if queued then Waiting else Again;
    }

    /** One look of a waiting thread, with interrupts off. */
    method LookOnce(w: Waiter, now: u64) returns (r: Result)
      modifies slots, this`timedOut
      ensures (slots[..], timedOut, r) == Look(old(slots[..]), old(timedOut), w, now)
    {
      if w.tid in timedOut {
        timedOut := timedOut - {w.tid};
        return TimedOut;
      }
      var here := WaiterExists(w.tid, w.uaddr);
      if !here {
        return Success;
      }
      if w.wakeTick != NO_TIMEOUT && now >= w.wakeTick {
        var found := RemoveByTid(w.tid);
        timedOut := timedOut - {w.tid};
        return TimedOut;
      }
      return Continue;
    }
  }

  /** More than the table holds cannot be woken. */
  lemma {:induction false} WakeCapped(q: Slots, uaddr: u64, n: nat, cap: nat)
    requires |q| <= cap
    ensures Wake(q, uaddr, n) == Wake(q, uaddr, Min(n, cap)) && |Wake(q, uaddr, n).1| <= |q|
    decreases |q|
  {
    if q != [] {
      WakeCapped(q[..|q| - 1], uaddr, n, cap);
    }
  }

  // ---- the protocol ----

  /** How a wait stands: still queued, or taken out by a wake, a clear or the timer. */
  datatype Fate = Queued | Woken | Cleared | Late

  datatype Wait = Wait(waiter: Waiter, fate: Fate)

  datatype System = System(q: Slots, timedOut: set<u64>, waits: map<u64, Wait>, clock: u64)

  datatype Op =
    | Start(tid: u64, uaddr: u64, asExpected: bool, timeout: u64)
    | Poll(tid: u64)
    | WakeUp(uaddr: u64, val: nat)
    | Tick
    | Pass(now: u64)
    | Clear(tid: u64)

  /** A thread starts one wait at a time and polls only its own; the clock does not go back. */
  predicate Legal(s: System, op: Op) {
    match op
    case Start(tid, _, _, _) => tid !in s.waits
    case Poll(tid) => tid in s.waits
    case Pass(now) => now >= s.clock
    case _ => true
  }

  /** The waits of the threads in `gone` that were queued have met this fate. */
  function Settle(waits: map<u64, Wait>, gone: set<u64>, fate: Fate): map<u64, Wait> {
    map t | t in waits :: if t in gone then waits[t].(fate := fate) else waits[t]
  }

  function Deadline(clock: u64, timeout: u64): u64 {
    if timeout == 0 then NO_TIMEOUT else Min(clock + timeout, NO_TIMEOUT)
  }

  function Do(s: System, op: Op): System
    requires Legal(s, op)
  {
    match op
    case Start(tid, uaddr, asExpected, timeout) =>
      var w := Waiter(tid, uaddr, Deadline(s.clock, timeout));
      var r := Register(s.q, w);
      if !asExpected || r.None? then s.(timedOut := s.timedOut - {tid})
      else s.(q := r.value, timedOut := s.timedOut - {tid}, waits := s.waits[tid := Wait(w, Fate.Queued)])
    case Poll(tid) =>
      var (q, timedOut, r) := Look(s.q, s.timedOut, s.waits[tid].waiter, s.clock);
      System(q, timedOut, if r == Continue then s.waits else s.waits - {tid}, s.clock)
    case WakeUp(uaddr, val) =>
      var (q, woken) := Wake(s.q, uaddr, val);
      System(q, s.timedOut - Threads(woken), Settle(s.waits, Threads(woken), Woken), s.clock)
    case Tick =>
      var (q, late) := Expire(s.q, s.clock);
      System(q, s.timedOut + Threads(late), Settle(s.waits, Threads(late), Late), s.clock)
    case Pass(now) => s.(clock := now)
    case Clear(tid) =>
      var gone := if First(s.q, OfThread(tid)) < |s.q| then {tid} else {};
      s.(q := Unregister(s.q, tid), waits := Settle(s.waits, gone, Cleared))
  }

  /** What a poll answers. */
  function Answer(s: System, tid: u64): Result
    requires tid in s.waits
  {
    Look(s.q, s.timedOut, s.waits[tid].waiter, s.clock).2
  }

  predicate Passed(w: Waiter, clock: u64) { w.wakeTick != NO_TIMEOUT && clock >= w.wakeTick }

  ghost predicate Inv(s: System) {
    && OnePerThread(s.q)
    && (forall i :: 0 <= i < |s.q| && s.q[i].Some? ==>
          var w := s.q[i].value; w.tid in s.waits && s.waits[w.tid] == Wait(w, Fate.Queued))
    && (forall t :: t in s.waits ==> s.waits[t].waiter.tid == t)
    && (forall t :: t in s.waits && s.waits[t].fate == Fate.Queued ==> HasThread(s.q, t))
    && (forall t :: t in s.timedOut ==> t in s.waits && s.waits[t].fate == Late)
    && (forall t :: t in s.waits && s.waits[t].fate == Late ==> t in s.timedOut && Passed(s.waits[t].waiter, s.clock))
  }

  /** A poll answers by the fate of its own wait: timed out exactly if the timer took it
      out or its deadline has passed while queued, success exactly if a wake or a clear
      took it out. */
  lemma PollExact(s: System, tid: u64)
    requires Inv(s) && tid in s.waits
    ensures var w := s.waits[tid];
            && (Answer(s, tid) == Success <==> w.fate == Woken || w.fate == Cleared)
            && (Answer(s, tid) == TimedOut <==> w.fate == Late || (w.fate == Fate.Queued && Passed(w.waiter, s.clock)))
            && (Answer(s, tid) == TimedOut ==> Passed(w.waiter, s.clock))
  {
  }

  /** Taking waiters out keeps the invariant, if the flags follow their fate. */
  lemma RemovalKeeps(s: System, q: Slots, gone: seq<u64>, fate: Fate, timedOut: set<u64>)
    requires Inv(s) && Removed(s.q, q, gone) && fate != Fate.Queued
    requires fate == Late ==>
      && timedOut == s.timedOut + Threads(gone)
      && forall t :: t in gone && t in s.waits ==> Passed(s.waits[t].waiter, s.clock)
    requires fate != Late ==> timedOut == s.timedOut - Threads(gone)
    ensures Inv(System(q, timedOut, Settle(s.waits, Threads(gone), fate), s.clock))
  {
    var waits := Settle(s.waits, Threads(gone), fate);
    RemovedKeepsOne(s.q, q, gone);
    forall t | t in gone ensures t in s.waits && s.waits[t].fate == Fate.Queued {
      var i :| 0 <= i < |s.q| && Waits(s.q[i], t) && q[i] == None;
    }
    forall i | 0 <= i < |q| && q[i].Some?
      ensures var w := q[i].value; w.tid in waits && waits[w.tid] == Wait(w, Fate.Queued)
    {
      assert q[i] == s.q[i];
    }
    forall t | t in waits && waits[t].fate == Fate.Queued ensures HasThread(q, t) {
      var i :| 0 <= i < |s.q| && Waits(s.q[i], t);
      assert q[i] == s.q[i];
    }
  }

  lemma UnregisterRemoves(q: Slots, tid: u64)
    ensures var k := First(q, OfThread(tid));
            Removed(q, Unregister(q, tid), if k < |q| then [tid] else [])
  {
    var k := First(q, OfThread(tid));
    if k < |q| {
      assert Waits(q[k], tid);
    }
  }

  lemma RegisterKeeps(s: System, w: Waiter)
    requires Inv(s) && w.tid !in s.waits && Register(s.q, w).Some?
    ensures Inv(System(Register(s.q, w).value, s.timedOut - {w.tid}, s.waits[w.tid := Wait(w, Fate.Queued)], s.clock))
  {
    var k, q := First(s.q, IsFree()), Register(s.q, w).value;
    var waits := s.waits[w.tid := Wait(w, Fate.Queued)];
    forall t | t in waits && waits[t].fate == Fate.Queued ensures HasThread(q, t) {
      if t == w.tid {
        assert Waits(q[k], t);
      } else {
        var i :| 0 <= i < |s.q| && Waits(s.q[i], t);
        assert q[i] == s.q[i];
      }
    }
  }

  /** A wait that is over is forgotten, entry and flag. */
  lemma ForgetKeeps(s: System, q: Slots, tid: u64)
    requires Inv(s) && tid in s.waits && |q| == |s.q|
    requires forall i :: 0 <= i < |q| ==> q[i] == if Waits(s.q[i], tid) then None else s.q[i]
    ensures Inv(System(q, s.timedOut - {tid}, s.waits - {tid}, s.clock))
  {
    forall x | x in s.waits - {tid} && s.waits[x].fate == Fate.Queued ensures HasThread(q, x) {
      var i :| 0 <= i < |s.q| && Waits(s.q[i], x);
      assert q[i] == s.q[i];
    }
  }

  lemma PollKeeps(s: System, tid: u64)
    requires Inv(s) && tid in s.waits
    ensures Inv(Do(s, Poll(tid)))
  {
    PollExact(s, tid);
    if Answer(s, tid) != Continue {
      var t := Do(s, Poll(tid));
      assert t.timedOut == s.timedOut - {tid};
      ForgetKeeps(s, t.q, tid);
    }
  }

  lemma StepKeeps(s: System, op: Op)
    requires Inv(s) && Legal(s, op)
    ensures Inv(Do(s, op))
  {
    match op
    case Start(tid, uaddr, asExpected, timeout) =>
      var w := Waiter(tid, uaddr, Deadline(s.clock, timeout));
      if asExpected && Register(s.q, w).Some? {
        RegisterKeeps(s, w);
      }
    case Poll(tid) => PollKeeps(s, tid);
    case WakeUp(uaddr, val) =>
      WakeRemoves(s.q, uaddr, val);
      var (q, woken) := Wake(s.q, uaddr, val);
      RemovalKeeps(s, q, woken, Woken, s.timedOut - Threads(woken));
    case Tick =>
      ExpireExact(s.q, s.clock);
      var (q, late) := Expire(s.q, s.clock);
      forall t | t in late && t in s.waits ensures Passed(s.waits[t].waiter, s.clock) {
        var i :| 0 <= i < |s.q| && Waits(s.q[i], t) && q[i] == None;
      }
      RemovalKeeps(s, q, late, Late, s.timedOut + Threads(late));
    case Pass(now) =>
    case Clear(tid) =>
      UnregisterRemoves(s.q, tid);
      var gone := if First(s.q, OfThread(tid)) < |s.q| then [tid] else [];
      ClearedFlags(s, tid);
      RemovalKeeps(s, Unregister(s.q, tid), gone, Cleared, s.timedOut - Threads(gone));
  }

  /** A thread in the table is not flagged. */
  lemma ClearedFlags(s: System, tid: u64)
    requires Inv(s)
    ensures var gone := if First(s.q, OfThread(tid)) < |s.q| then [tid] else [];
            s.timedOut - Threads(gone) == s.timedOut
              && Threads(gone) == (if First(s.q, OfThread(tid)) < |s.q| then {tid} else {})
  {
  }

  predicate LegalRun(s: System, ops: seq<Op>)
    decreases |ops|
  {
    ops == [] || (Legal(s, ops[0]) && LegalRun(Do(s, ops[0]), ops[1..]))
  }

  function Run(s: System, ops: seq<Op>): System
    requires LegalRun(s, ops)
    decreases |ops|
  {
    if ops == [] then s else Run(Do(s, ops[0]), ops[1..])
  }

  lemma {:induction false} RunKeeps(s: System, ops: seq<Op>)
    requires Inv(s) && LegalRun(s, ops)
    ensures Inv(Run(s, ops))
    decreases |ops|
  {
    if ops != [] {
      StepKeeps(s, ops[0]);
      RunKeeps(Do(s, ops[0]), ops[1..]);
    }
  }

  function Boot(maxThreads: nat, clock: u64): System {
    System(seq(maxThreads, i => None), {}, map[], clock)
  }

  /** In every run no thread has two entries, and a wait that ends says truthfully why:
      timed out only after its own deadline, success only after a wake or a clear. */
  lemma FutexSafety(maxThreads: nat, clock: u64, ops: seq<Op>, tid: u64)
    requires LegalRun(Boot(maxThreads, clock), ops)
    ensures var s := Run(Boot(maxThreads, clock), ops);
            && OnePerThread(s.q)
            && (tid in s.waits ==>
                  var w := s.waits[tid];
                  && (Answer(s, tid) == TimedOut ==> Passed(w.waiter, s.clock) && w.fate != Woken && w.fate != Cleared)
                  && (Answer(s, tid) == Success <==> w.fate == Woken || w.fate == Cleared))
  {
    RunKeeps(Boot(maxThreads, clock), ops);
    var s := Run(Boot(maxThreads, clock), ops);
    if tid in s.waits {
      PollExact(s, tid);
    }
  }
}
