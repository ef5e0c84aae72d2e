/** The message queue of a thread: a ring of slot indices, a pool of message slots and a
    stack of free slots. */
module Mailboxes {
  import opened Memory
  import opened Bytes

  const CAP: nat := 64
  const MAX_MSG_SIZE: nat := 4128
  const MAX_PAGES: nat := 128

  /** A message as sender and receiver see it. */
  datatype Message = Message(from: u64, to: u64, toSlot: nat, toGeneration: u64, data: seq<byte>, pages: seq<u64>)

  /** A message as it is stored. */
  datatype Record = Record(from: u64, to: u64, toSlot: nat, toGeneration: u64,
                           len: nat, data: seq<byte>, pageCount: nat, pages: seq<u64>)
  {
    predicate Fits() {
      |data| == MAX_MSG_SIZE && len <= MAX_MSG_SIZE && |pages| == MAX_PAGES && pageCount <= MAX_PAGES
    }

    function View(): Message
      requires Fits()
    {
      Message(from, to, toSlot, toGeneration, data[..len], pages[..pageCount])
    }
  }

  function Repeat<T>(x: T, n: nat): (s: seq<T>)
    ensures |s| == n && forall i :: 0 <= i < n ==> s[i] == x
  {
    seq(n, i => x)
  }

  function EmptyRecord(): (r: Record)
    ensures r.Fits()
  {
    Record(0, 0, 0, 0, 0, Repeat(0, MAX_MSG_SIZE), 0, Repeat(0, MAX_PAGES))
  }

  type Slot = r: Record | r.Fits() ghost witness EmptyRecord()

  /** The first bytes of a stored buffer replaced. */
  function Prefixed<T>(buffer: seq<T>, s: seq<T>): (r: seq<T>)
    requires |s| <= |buffer|
    ensures |r| == |buffer| && r[..|s|] == s
  {
    s + buffer[|s|..]
  }

  // ---- slot indices ----

  ghost function SlotSet(n: nat): (r: set<nat>)
    ensures forall i: nat :: i in r <==> i < n
  {
    if n == 0 then {} else SlotSet(n - 1) + {n - 1}
  }

  /** Ring, free stack and the slots taken out of both share the 64 slots: each slot is in
      exactly one of them, once. */
  ghost predicate Partition(ring: seq<nat>, stack: seq<nat>, held: seq<nat>) {
    multiset(ring) + multiset(stack) + multiset(held) == multiset(SlotSet(CAP))
  }

  lemma {:induction false} SlotCount(n: nat)
    ensures |SlotSet(n)| == n
    decreases n
  {
    if n > 0 {
      SlotCount(n - 1);
    }
  }

  lemma PartitionSize(ring: seq<nat>, stack: seq<nat>, held: seq<nat>)
    requires Partition(ring, stack, held)
    ensures |ring| + |stack| + |held| == CAP
    ensures forall i :: 0 <= i < |ring| ==> ring[i] < CAP
    ensures forall i :: 0 <= i < |stack| ==> stack[i] < CAP
    ensures forall i :: 0 <= i < |held| ==> held[i] < CAP && held[i] !in stack && held[i] !in ring
  {
    SlotCount(CAP);
    var all := multiset(ring) + multiset(stack) + multiset(held);
    assert |all| == |multiset(ring)| + |multiset(stack)| + |multiset(held)|;
    forall i | 0 <= i < |ring| ensures ring[i] < CAP { assert ring[i] in all; }
    forall i | 0 <= i < |stack| ensures stack[i] < CAP { assert stack[i] in all; }
    forall i | 0 <= i < |held| ensures held[i] < CAP && held[i] !in stack && held[i] !in ring {
      assert held[i] in multiset(held) && all[held[i]] == 1;
    }
  }

  lemma PartitionPop(ring: seq<nat>, stack: seq<nat>)
    requires Partition(ring, stack, []) && ring != []
    ensures Partition(ring[1..], stack, [ring[0]])
  {
    assert ring == [ring[0]] + ring[1..];
  }

  lemma PartitionPush(ring: seq<nat>, stack: seq<nat>, idx: nat)
    requires Partition(ring, stack, [idx])
    ensures Partition(ring + [idx], stack, []) && Partition(ring, stack + [idx], [])
  {
  }

  /** Position `i` of the window that starts at `head`. */
  function At(head: nat, i: nat): (p: nat)
    requires head < CAP && i <= CAP
    ensures p < CAP && p == (head + i) % CAP
  {
    if head + i < CAP then head + i else head + i - CAP
  }

  /** The window of the ring buffer holds `ring`. */
  ghost predicate Window(queue: seq<nat>, head: nat, ring: seq<nat>) {
    && |queue| == CAP && head < CAP && |ring| <= CAP
    && forall i :: 0 <= i < |ring| ==> queue[At(head, i)] == ring[i]
  }

  lemma WindowPush(queue: seq<nat>, head: nat, ring: seq<nat>, idx: nat)
    requires Window(queue, head, ring) && |ring| < CAP
    ensures Window(queue[At(head, |ring|) := idx], head, ring + [idx])
    ensures (At(head, |ring|) + 1) % CAP == At(head, |ring| + 1)
  {
  }

  lemma WindowPop(queue: seq<nat>, head: nat, ring: seq<nat>)
    requires Window(queue, head, ring) && ring != []
    ensures queue[head] == ring[0] && Window(queue, At(head, 1), ring[1..])
    ensures At(At(head, 1), |ring| - 1) == At(head, |ring|)
  {
  }

  /** The messages behind a sequence of slots. */
  ghost function Messages(ring: seq<nat>, slots: seq<Slot>): (q: seq<Message>)
    requires forall i :: 0 <= i < |ring| ==> ring[i] < |slots|
    ensures |q| == |ring|
  {
    seq(|ring|, i requires 0 <= i < |ring| => slots[ring[i]].View())
  }

  /** A slot off the ring can change freely. */
  lemma MessagesFrame(ring: seq<nat>, slots: seq<Slot>, idx: nat, r: Slot)
    requires (forall i :: 0 <= i < |ring| ==> ring[i] < |slots|) && idx < |slots| && idx !in ring
    ensures Messages(ring, slots[idx := r]) == Messages(ring, slots)
    ensures Messages(ring + [idx], slots[idx := r]) == Messages(ring, slots) + [r.View()]
  {
  }

  lemma MessagesPush(ring: seq<nat>, slots: seq<Slot>, idx: nat)
    requires (forall i :: 0 <= i < |ring| ==> ring[i] < |slots|) && idx < |slots|
    ensures Messages(ring + [idx], slots) == Messages(ring, slots) + [slots[idx].View()]
  {
  }

  lemma MessagesPop(ring: seq<nat>, slots: seq<Slot>)
    requires ring != [] && forall i :: 0 <= i < |ring| ==> ring[i] < |slots|
    ensures Messages(ring, slots)[0] == slots[ring[0]].View()
    ensures Messages(ring, slots)[1..] == Messages(ring[1..], slots)
  {
  }

  // ---- receiving ----

  /** Whom a message is for: a thread id together with its slot and generation. */
  datatype Receiver = Receiver(id: u64, slot: nat, generation: u64)

  predicate For(m: Message, r: Receiver) {
    m.to == r.id && m.toSlot == r.slot && m.toGeneration == r.generation
  }

  predicate Wanted(m: Message, sender: Option<u64>, r: Receiver) {
    For(m, r) && (sender.None? || m.from == sender.value)
  }

  /** Where the first wanted message is, |q| if there is none. */
  function First(q: seq<Message>, sender: Option<u64>, r: Receiver): (k: nat)
    ensures k <= |q| && (forall j :: 0 <= j < k ==> !Wanted(q[j], sender, r))
    ensures k < |q| ==> Wanted(q[k], sender, r)
  {
    if q == [] then 0 else if Wanted(q[0], sender, r) then 0 else 1 + First(q[1..], sender, r)
  }

  /** Message `k` is the first for this thread, slot and generation, and from `sender` if one is
      given; with `k == |q|` there is none. */
  ghost predicate Picks(q: seq<Message>, k: nat, sender: Option<u64>, r: Receiver) {
    && k <= |q|
    && (k < |q| ==>
          && q[k].to == r.id && q[k].toSlot == r.slot && q[k].toGeneration == r.generation
          && (sender.Some? ==> q[k].from == sender.value))
    && (forall j :: 0 <= j < k ==>
          || q[j].to != r.id || q[j].toSlot != r.slot || q[j].toGeneration != r.generation
          || (sender.Some? && q[j].from != sender.value))
  }

  lemma FirstPicks(q: seq<Message>, sender: Option<u64>, r: Receiver)
    ensures Picks(q, First(q, sender, r), sender, r)
  {
  }

  /** Scanning on from a place not behind the first wanted message. */
  lemma FirstStep(q: seq<Message>, sender: Option<u64>, r: Receiver, n: nat)
    requires n < |q| && n <= First(q, sender, r)
    ensures Wanted(q[n], sender, r) <==> n == First(q, sender, r)
  {
  }

  /** The queue after its first `n` messages moved to the back. */
  function Rotated(q: seq<Message>, n: nat): seq<Message>
    requires n <= |q|
  {
    q[n..] + q[..n]
  }

  /** What is left of the queue once message `k` was reached and taken. */
  function Without(q: seq<Message>, k: nat): seq<Message>
    requires k < |q|
  {
    q[k + 1..] + q[..k]
  }

  lemma RotateStep(q: seq<Message>, n: nat)
    requires n < |q|
    ensures Rotated(q, n)[0] == q[n] && Rotated(q, n)[1..] == Without(q, n)
    ensures Without(q, n) + [q[n]] == Rotated(q, n + 1)
  {
  }

  /** What a receiver is told about a message. */
  datatype Delivery = Delivery(from: u64, len: nat, pageCount: nat, pages: seq<u64>)

  /** The buffer holds the start of `data` and is otherwise as before. */
  ghost predicate CopiedTo(data: seq<byte>, before: seq<byte>, after: seq<byte>, len: nat) {
    && len == (if |data| < |before| then |data| else |before|)
    && after == data[..len] + before[len..]
  }

  ghost predicate Delivers(d: Delivery, m: Message, before: seq<byte>, after: seq<byte>) {
    && d.from == m.from && CopiedTo(m.data, before, after, d.len)
    && d.pageCount == |m.pages| && d.pageCount <= |d.pages| && d.pages[..d.pageCount] == m.pages
  }

  class Mailbox {
    var head: nat
    var tail: nat
    var count: nat
    const queue: array<nat>
    const slots: array<Slot>
    const free: array<nat>
    var freeCount: nat
    /** The thread asleep until a message comes, 0 for none. */
    var waiter: u64
    /** The slots of the ring window, oldest first. */
    ghost var ring: seq<nat>

    ghost predicate Shape()
      reads this
    {
      && queue.Length == slots.Length == free.Length == CAP && queue != free
      && head < CAP && count <= CAP && freeCount <= CAP && tail < CAP
    }

    ghost predicate Ring()
      reads this, queue
    {
      && Shape() && tail == At(head, count) && |ring| == count
      && (forall i :: 0 <= i < count ==> ring[i] < CAP)
      && Window(queue[..], head, ring)
    }

    /** Ring and free stack are consistent while the slots in `held` are in neither. */
    ghost predicate Holding(held: seq<nat>)
      reads this, queue, free
    {
      Ring() && Partition(ring, free[..freeCount], held)
    }

    ghost predicate Valid()
      reads this, queue, free
    {
      Holding([])
    }

    /** The queue this mailbox stands for. */
    ghost function Queue(): (q: seq<Message>)
      requires slots.Length == CAP && forall i :: 0 <= i < |ring| ==> ring[i] < CAP
      reads this, slots
      ensures |q| == |ring|
    {
      Messages(ring, slots[..])
    }

    constructor ()
      ensures Valid() && Queue() == [] && waiter == 0
      ensures fresh(queue) && fresh(slots) && fresh(free)
    {
      head, tail, count, freeCount, waiter, ring := 0, 0, 0, CAP, 0, [];
      queue := new nat[CAP](i => 0);
      slots := new Slot[CAP](i => EmptyRecord());
      free := new nat[CAP](i => i);
      new;
      assert free[..freeCount] == free[..];
      AllFree(free[..]);
    }

    /** Takes a slot off the free stack. */
    method AllocSlot() returns (r: Option<nat>)
      requires Valid()
      modifies this`freeCount
      ensures r.None? <==> old(freeCount) == 0
      ensures r.None? ==> Valid()
      ensures r.Some? ==> r.value < CAP && Holding([r.value])
    {
      PartitionSize(ring, free[..freeCount], []);
      if freeCount == 0 {
        return None;
      }
      assert free[..freeCount] == free[..freeCount - 1] + [free[freeCount - 1]];
      freeCount := freeCount - 1;
      return Some(free[freeCount]);
    }

    /** Starts over with an empty mailbox. */
    method Quarantine()
      requires Shape()
      modifies this, queue, slots, free
      ensures Valid() && Queue() == [] && waiter == 0
    {
      head, tail, count, freeCount, waiter, ring := 0, 0, 0, CAP, 0, [];
      forall i | 0 <= i < CAP { queue[i] := 0; }
      forall i | 0 <= i < CAP { slots[i] := EmptyRecord(); }
      forall i | 0 <= i < CAP { free[i] := i; }
      assert free[..freeCount] == free[..];
      AllFree(free[..]);
    }

    /** Clears a slot and puts it back on the free stack. */
    method FreeSlot(idx: nat) returns (ok: bool)
      requires Ring()
      modifies this, queue, slots, free
      ensures ok <==> idx < CAP && old(freeCount) < CAP && idx !in old(free[..freeCount])
      ensures ok ==>
        && Ring() && ring == old(ring) && waiter == old(waiter)
        && slots[..] == old(slots[..])[idx := EmptyRecord()]
        && free[..freeCount] == old(free[..freeCount]) + [idx]
      ensures !ok ==> Valid() && Queue() == [] && waiter == 0
    {
      if idx >= CAP || freeCount >= CAP {
        Quarantine();
        return false;
      }
      for i := 0 to freeCount
        invariant idx !in free[..i]
      {
        if free[i] == idx {
          assert free[..freeCount][i] == idx;
          Quarantine();
          return false;
        }
        assert free[..i + 1] == free[..i] + [free[i]];
      }
      slots[idx] := EmptyRecord();
      free[freeCount] := idx;
      freeCount := freeCount + 1;
      return true;
    }

    /** Appends a slot to the ring. */
    method EnqueueSlot(idx: nat) returns (ok: bool)
      requires Ring() && idx < CAP
      modifies this`tail, this`count, this`ring, queue
      ensures Ring() && (ok <==> old(count) < CAP)
      ensures ring == if ok then old(ring) + [idx] else old(ring)
    {
      if count >= CAP {
        return false;
      }
      WindowPush(queue[..], head, ring, idx);
      queue[tail] := idx;
      ring := ring + [idx];
      tail := (tail + 1) % CAP;
      count := count + 1;
      return true;
    }

    /** Takes the oldest slot off the ring. */
    method DequeueSlot() returns (r: Option<nat>)
      requires Ring()
      modifies this`head, this`count, this`ring
      ensures Ring() && (r.None? <==> old(ring) == [])
      ensures if r.Some? then r.value == old(ring)[0] && ring == old(ring)[1..] else ring == []
    {
      if count == 0 {
        return None;
      }
      WindowPop(queue[..], head, ring);
      var idx := queue[head];
      head := (head + 1) % CAP;
      count := count - 1;
      ring := ring[1..];
      return Some(idx);
    }

    /** Appends a message, or reports that it is too long or the mailbox full. */
    method PushMessage(from: u64, to: u64, toSlot: nat, toGeneration: u64, data: seq<byte>) returns (ok: bool)
      requires Valid()
      modifies this, queue, slots, free
      ensures Valid() && waiter == old(waiter)
      ensures ok <==> |data| <= MAX_MSG_SIZE && |old(Queue())| < CAP
      ensures Queue() == if ok then old(Queue()) + [Message(from, to, toSlot, toGeneration, data, [])] else old(Queue())
    {
      PartitionSize(ring, free[..freeCount], []);
      if |data| > MAX_MSG_SIZE {
        return false;
      }
      var idx := AllocSlot();
      if idx.None? {
        return false;
      }
      var m := slots[idx.value];
      ok := Post(idx.value, m.(from := from, to := to, toSlot := toSlot, toGeneration := toGeneration, len := |data|,
                               pageCount := 0, data := Prefixed(m.data, data)));
    }

    /** Stores a message in a slot just taken and appends it: the ring is never full. */
    method Post(idx: nat, m: Slot) returns (ok: bool)
      requires Holding([idx])
      modifies this, queue, slots, free
      ensures ok && Valid() && waiter == old(waiter) && Queue() == old(Queue()) + [m.View()]
    {
      PartitionSize(ring, free[..freeCount], [idx]);
      PartitionPush(ring, free[..freeCount], idx);
      MessagesFrame(ring, slots[..], idx, m);
      ghost var before := slots[..];
      slots[idx] := m;
      assert slots[..] == before[idx := m];
      ok := EnqueueSlot(idx);
    }

    /** Message `m` has been taken off the ring and `rest` is still queued. */
    ghost predicate Took(idx: nat, m: Message, rest: seq<Message>)
      reads this, queue, free, slots
    {
      idx < CAP && Holding([idx]) && slots[idx].View() == m && Queue() == rest
    }

    /** Of the queue `q` the first `n` messages are gone and the next one, if any, is taken. */
    ghost predicate Pending(next: Option<nat>, q: seq<Message>, n: nat)
      reads this, queue, free, slots
    {
      match next
      case None => Valid() && ring == [] && n == |q|
      case Some(idx) => n < |q| && Took(idx, q[n], q[n + 1..])
    }

    /** Takes the oldest message's slot off the ring. */
    method TakeNext() returns (r: Option<nat>)
      requires Valid()
      modifies this`head, this`count, this`ring
      ensures Pending(r, old(Queue()), 0)
    {
      if ring != [] {
        PartitionPop(ring, free[..freeCount]);
        MessagesPop(ring, slots[..]);
      }
      r := DequeueSlot();
    }

    /** Drops the message taken and takes the next one. */
    method Discard(idx: nat, ghost q: seq<Message>, ghost n: nat) returns (r: Option<nat>)
      requires Pending(Some(idx), q, n)
      modifies this, queue, slots, free
      ensures Pending(r, q, n + 1) && waiter == old(waiter)
    {
      var ok := Release(idx);
      r := TakeNext();
      assert n + 1 < |q| ==> q[n + 1..][1..] == q[n + 2..];
    }

    /** Gives back a slot that was taken: the free stack is never found corrupted. */
    method Release(idx: nat) returns (ok: bool)
      requires Holding([idx])
      modifies this, queue, slots, free
      ensures ok && Valid() && Queue() == old(Queue()) && waiter == old(waiter)
    {
      PartitionSize(ring, free[..freeCount], [idx]);
      PartitionPush(ring, free[..freeCount], idx);
      MessagesFrame(ring, slots[..], idx, EmptyRecord());
      ok := FreeSlot(idx);
    }

    /** Copies as much of a stored message as fits. */
    method CopyOut(idx: nat, out: array<byte>) returns (len: nat)
      requires slots.Length == CAP && idx < CAP
      modifies out
      ensures CopiedTo(slots[idx].View().data, old(out[..]), out[..], len)
    {
      var m := slots[idx];
      len := if m.len < out.Length then m.len else out.Length;
      forall i | 0 <= i < len { out[i] := m.data[i]; }
    }

    /** Copies a message that was taken and gives its slot back. */
    method Deliver(idx: nat, out: array<byte>, ghost m: Message, ghost rest: seq<Message>) returns (d: Delivery)
      requires Took(idx, m, rest)
      modifies this, queue, slots, free, out
      ensures Valid() && waiter == old(waiter) && Queue() == rest
      ensures Delivers(d, m, old(out[..]), out[..])
    {
      var r := slots[idx];
      var len := CopyOut(idx, out);
      d := Delivery(r.from, len, r.pageCount, r.pages);
      var ok := Release(idx);
    }

    /** Drops messages until one for this receiver and generation is taken. */
    method DiscardStale(receiver: Receiver) returns (next: Option<nat>)
      requires Valid()
      modifies this, queue, slots, free
      ensures Pending(next, old(Queue()), First(old(Queue()), None, receiver)) && waiter == old(waiter)
    {
      ghost var q, n := Queue(), 0;
      next := TakeNext();
      while next.Some? && !For(slots[next.value].View(), receiver)
        invariant Pending(next, q, n) && waiter == old(waiter) && n <= First(q, None, receiver)
        decreases |q| - n
      {
        FirstStep(q, None, receiver, n);
        next := Discard(next.value, q, n);
        n := n + 1;
      }
      if n < |q| {
        FirstStep(q, None, receiver, n);
      }
    }

    /** Delivers the first message for this receiver and generation; the messages before
        it, which are for nobody any more, are dropped. */
    method PopValid(receiver: Receiver, out: array<byte>) returns (d: Option<Delivery>)
      requires Valid()
      modifies this, queue, slots, free, out
      ensures Valid() && waiter == old(waiter)
      ensures var q := old(Queue()); var k := First(q, None, receiver);
        && Picks(q, k, None, receiver)
        && if k < |q| then d.Some? && Queue() == q[k + 1..] && Delivers(d.value, q[k], old(out[..]), out[..])
           else d.None? && Queue() == [] && out[..] == old(out[..])
    {
      ghost var q := Queue();
      ghost var k := First(q, None, receiver);
      FirstPicks(q, None, receiver);
      var next := DiscardStale(receiver);
      if next.None? {
        return None;
      }
      var delivery := Deliver(next.value, out, q[k], q[k + 1..]);
      return Some(delivery);
    }

    /** Takes the first message from `sender` out of the queue. The messages before it have
        moved behind the others by then. */
    method PopFromSender(sender: u64, receiver: Receiver, out: array<byte>) returns (d: Option<(u64, nat)>)
      requires Valid()
      modifies this, queue, slots, free, out
      ensures Valid() && waiter == old(waiter)
      ensures var q := old(Queue()); var k := First(q, Some(sender), receiver);
        && Picks(q, k, Some(sender), receiver)
        && if k < |q| then
             && d.Some? && d.value.0 == sender && Queue() == Without(q, k)
             && CopiedTo(q[k].data, old(out[..]), out[..], d.value.1)
           else d.None? && Queue() == q && out[..] == old(out[..])
    {
      ghost var q := Queue();
      ghost var k := First(q, Some(sender), receiver);
      FirstPicks(q, Some(sender), receiver);
      var next := Rotate(sender, receiver);
      if next.None? {
        return None;
      }
      var delivery := Deliver(next.value, out, q[k], Without(q, k));
      return Some((delivery.from, delivery.len));
    }

    /** Moves messages from the front to the back until a wanted one is taken, at most once
        around. */
    method Rotate(sender: u64, receiver: Receiver) returns (next: Option<nat>)
      requires Valid()
      modifies this`head, this`tail, this`count, this`ring, queue
      ensures var q := old(Queue()); var k := First(q, Some(sender), receiver);
        if k < |q| then next.Some? && Took(next.value, q[k], Without(q, k)) else next.None? && Valid() && Queue() == q
    {
      ghost var q := Queue();
      assert Rotated(q, 0) == q;
      var original := count;
      for n := 0 to original
        invariant Valid() && Queue() == Rotated(q, n) && n <= First(q, Some(sender), receiver)
      {
        next := Turn(sender, receiver, q, n);
        if next.Some? {
          return;
        }
      }
      assert Rotated(q, |q|) == q;
      return None;
    }

    /** Looks at one message: takes it if it is wanted and moves it to the back if not. */
    method Turn(sender: u64, receiver: Receiver, ghost q: seq<Message>, ghost n: nat) returns (next: Option<nat>)
      requires Valid() && n < |q| && Queue() == Rotated(q, n) && n <= First(q, Some(sender), receiver)
      modifies this`head, this`tail, this`count, this`ring, queue
      ensures next.Some? ==> n == First(q, Some(sender), receiver) && Took(next.value, q[n], Without(q, n))
      ensures next.None? ==> n < First(q, Some(sender), receiver) && Valid() && Queue() == Rotated(q, n + 1)
    {
      RotateStep(q, n);
      FirstStep(q, Some(sender), receiver, n);
      next := TakeNext();
      if !Wanted(slots[next.value].View(), Some(sender), receiver) {
        Requeue(next.value, q[n], Without(q, n));
        next := None;
      }
    }

    /** Puts a message that was taken at the back of the queue. */
    method Requeue(idx: nat, ghost m: Message, ghost rest: seq<Message>)
      requires Took(idx, m, rest)
      modifies this`tail, this`count, this`ring, queue
      ensures Valid() && Queue() == rest + [m]
    {
      PartitionSize(ring, free[..freeCount], [idx]);
      PartitionPush(ring, free[..freeCount], idx);
      MessagesPush(ring, slots[..], idx);
      var ok := EnqueueSlot(idx);
    }

    method TakeWaiter() returns (w: u64)
      modifies this`waiter
      ensures w == old(waiter) && waiter == 0
    {
      w := waiter;
      waiter := 0;
    }

    /** Appends a message the kernel builds in the slot itself. */
    method PushKernel(m: Message) returns (ok: bool)
      requires Valid() && |m.data| <= MAX_MSG_SIZE && |m.pages| <= MAX_PAGES
      modifies this, queue, slots, free
      ensures Valid() && waiter == old(waiter)
      ensures ok <==> |old(Queue())| < CAP
      ensures Queue() == if ok then old(Queue()) + [m] else old(Queue())
    {
      PartitionSize(ring, free[..freeCount], []);
      var idx := AllocSlot();
      if idx.None? {
        return false;
      }
      var r := slots[idx.value];
      ok := Post(idx.value, Record(m.from, m.to, m.toSlot, m.toGeneration, |m.data|, Prefixed(r.data, m.data),
                                   |m.pages|, Prefixed(r.pages, m.pages)));
    }
  }

  // ---- kernel senders ----

  /** The mailbox of a destination and the address to put on a message, if it exists. */
  datatype Destination = Destination(id: u64, found: Option<(nat, u64)>)

  ghost function Footprint(boxes: seq<Mailbox>, d: Destination): set<object> {
    if d.found.None? || d.found.value.0 >= |boxes| then {} else
    var mb := boxes[d.found.value.0];
    {mb, mb.queue, mb.slots, mb.free}
  }

  predicate Reaches(boxes: seq<Mailbox>, d: Destination) {
    d.found.Some? && d.found.value.0 < |boxes|
  }

  function Addressed(d: Destination, sender: u64, data: seq<byte>, pages: seq<u64>): Message
    requires d.found.Some?
  {
    Message(sender, d.id, d.found.value.0 % 0x1_0000, d.found.value.1, data, pages)
  }

  /** A message was appended to a mailbox and its waiter woken, or nothing happened. */
  twostate predicate Sent(mb: Mailbox, m: Message, admitted: bool, sent: bool, woken: u64)
    requires old(mb.Valid())
    reads mb, mb.queue, mb.slots, mb.free
  {
    && mb.Valid() && (sent <==> admitted && |old(mb.Queue())| < CAP)
    && (if sent then mb.Queue() == old(mb.Queue()) + [m] && woken == old(mb.waiter) && mb.waiter == 0
        else mb.Queue() == old(mb.Queue()) && woken == 0 && mb.waiter == old(mb.waiter))
  }

  method SendFromKernel(boxes: seq<Mailbox>, d: Destination, sender: u64, data: seq<byte>)
    returns (sent: bool, woken: u64)
    requires forall mb :: mb in boxes ==> mb.Valid()
    modifies Footprint(boxes, d)
    ensures !Reaches(boxes, d) ==> !sent && woken == 0
    ensures Reaches(boxes, d) ==>
      && var (slot, generation) := d.found.value;
         Sent(boxes[slot], Message(sender, d.id, slot % 0x1_0000, generation, data, []),
              |data| <= MAX_MSG_SIZE, sent, woken)
  {
    if |data| > MAX_MSG_SIZE || d.found.None? || d.found.value.0 >= |boxes| {
      return false, 0;
    }
    var mb := boxes[d.found.value.0];
    sent := mb.PushMessage(sender, d.id, d.found.value.0 % 0x1_0000, d.found.value.1, data);
    woken := 0;
    if sent {
      woken := mb.TakeWaiter();
    }
  }

  /** Sends the addresses of physical pages beside the message. */
  method SendPagesFromKernel(boxes: seq<Mailbox>, d: Destination, sender: u64, mapStart: u64, total: u64,
                             pages: seq<u64>) returns (sent: bool, woken: u64)
    requires forall mb :: mb in boxes ==> mb.Valid()
    modifies Footprint(boxes, d)
    ensures !Reaches(boxes, d) ==> !sent && woken == 0
    ensures Reaches(boxes, d) ==>
      && var (slot, generation) := d.found.value;
         var header := ToLe(mapStart, 8) + ToLe(total, 8);
         Sent(boxes[slot], Message(sender, d.id, slot % 0x1_0000, generation, header, pages),
              |pages| <= MAX_PAGES, sent, woken)
  {
    if |pages| > MAX_PAGES || d.found.None? || d.found.value.0 >= |boxes| {
      return false, 0;
    }
    sent, woken := SendBuilt(boxes[d.found.value.0], Addressed(d, sender, ToLe(mapStart, 8) + ToLe(total, 8), pages));
  }

  const MAP_HEADER_MAGIC: nat := 0xABCD_DCBA

  method SendMapHeaderFromKernel(boxes: seq<Mailbox>, d: Destination, sender: u64, mapStart: u64, total: u64)
    returns (sent: bool, woken: u64)
    requires forall mb :: mb in boxes ==> mb.Valid()
    modifies Footprint(boxes, d)
    ensures !Reaches(boxes, d) ==> !sent && woken == 0
    ensures Reaches(boxes, d) ==>
      && var (slot, generation) := d.found.value;
         var header := ToLe(0xABCD_DCBA, 4) + ToLe(mapStart, 8) + ToLe(total, 8);
         Sent(boxes[slot], Message(sender, d.id, slot % 0x1_0000, generation, header, []), true, sent, woken)
  {
    if d.found.None? || d.found.value.0 >= |boxes| {
      return false, 0;
    }
    var header := ToLe(MAP_HEADER_MAGIC, 4) + ToLe(mapStart, 8) + ToLe(total, 8);
    sent, woken := SendBuilt(boxes[d.found.value.0], Addressed(d, sender, header, []));
  }

  method SendBuilt(mb: Mailbox, m: Message) returns (sent: bool, woken: u64)
    requires mb.Valid() && |m.data| <= MAX_MSG_SIZE && |m.pages| <= MAX_PAGES
    modifies mb, mb.queue, mb.slots, mb.free
    ensures Sent(mb, m, true, sent, woken)
  {
    sent := mb.PushKernel(m);
    woken := 0;
    if sent {
      woken := mb.TakeWaiter();
    }
  }

  /** A message sent by the kernel to a thread whose mailbox has nothing else for it is what the
      thread receives next. */
  method SendThenReceive(boxes: seq<Mailbox>, mb: Mailbox, d: Destination, sender: u64, data: seq<byte>,
                         out: array<byte>)
    returns (sent: bool, r: Option<Delivery>)
    requires (forall b :: b in boxes ==> b.Valid()) && Reaches(boxes, d) && d.found.value.0 < 0x1_0000
    requires mb == boxes[d.found.value.0] && mb.Valid()
    requires NothingFor(mb.Queue(), d.id, d.found.value.0, d.found.value.1)
    modifies mb, mb.queue, mb.slots, mb.free, out
    ensures mb.Valid()
    ensures sent <==> |data| <= MAX_MSG_SIZE && |old(mb.Queue())| < CAP
    ensures sent ==> r.Some? && r.value.from == sender && CopiedTo(data, old(out[..]), out[..], r.value.len)
    ensures !sent ==> r.None?
  {
    ghost var q := mb.Queue();
    var slot := d.found.value.0;
    assert slot % 0x1_0000 == slot;
    var receiver := Receiver(d.id, slot, d.found.value.1);
    var woken;
    sent, woken := SendFromKernel(boxes, d, sender, data);
    ghost var m := Message(sender, receiver.id, receiver.slot, receiver.generation, data, []);
    r := ReceiveLast(mb, receiver, out, q, m, sent);
  }

  /** Receives from a mailbox in which at most the last message is for this receiver. */
  method ReceiveLast(mb: Mailbox, receiver: Receiver, out: array<byte>, ghost q: seq<Message>, ghost m: Message,
                     ghost sent: bool) returns (r: Option<Delivery>)
    requires mb.Valid() && mb.Queue() == (if sent then q + [m] else q)
    requires NothingFor(q, receiver.id, receiver.slot, receiver.generation)
    requires m.to == receiver.id && m.toSlot == receiver.slot && m.toGeneration == receiver.generation
    modifies mb, mb.queue, mb.slots, mb.free, out
    ensures mb.Valid()
    ensures if sent then r.Some? && Delivers(r.value, m, old(out[..]), out[..]) else r.None?
  {
    NextIsLast(q, m, receiver);
    r := mb.PopValid(receiver, out);
  }

  ghost predicate NothingFor(q: seq<Message>, id: u64, slot: nat, generation: u64) {
    forall i :: 0 <= i < |q| ==> q[i].to != id || q[i].toSlot != slot || q[i].toGeneration != generation
  }

  lemma NextIsLast(q: seq<Message>, m: Message, r: Receiver)
    requires NothingFor(q, r.id, r.slot, r.generation)
    requires m.to == r.id && m.toSlot == r.slot && m.toGeneration == r.generation
    ensures First(q, None, r) == |q| == First(q + [m], None, r)
  {
    FirstPicks(q, None, r);
    var all := q + [m];
    FirstPicks(all, None, r);
    assert all[|q|] == m && forall i :: 0 <= i < |q| ==> all[i] == q[i];
  }

  // ---- what selective receiving does to the order ----

  /** The messages of one channel, in order. */
  function Channel(q: seq<Message>, sender: Option<u64>, r: Receiver): seq<Message> {
    if q == [] then [] else (if Wanted(q[0], sender, r) then [q[0]] else []) + Channel(q[1..], sender, r)
  }

  lemma {:induction false} ChannelConcat(a: seq<Message>, b: seq<Message>, sender: Option<u64>, r: Receiver)
    ensures Channel(a + b, sender, r) == Channel(a, sender, r) + Channel(b, sender, r)
    decreases |a|
  {
    if a == [] {
      assert a + b == b;
    } else {
      assert (a + b)[1..] == a[1..] + b;
      ChannelConcat(a[1..], b, sender, r);
    }
  }

  lemma {:induction false} ChannelNone(q: seq<Message>, sender: Option<u64>, r: Receiver)
    requires forall j :: 0 <= j < |q| ==> !Wanted(q[j], sender, r)
    ensures Channel(q, sender, r) == []
    decreases |q|
  {
    if q != [] {
      ChannelNone(q[1..], sender, r);
    }
  }

  /** A channel seen around message `k`. */
  lemma ChannelAround(q: seq<Message>, k: nat, sender: Option<u64>, r: Receiver)
    requires k < |q|
    ensures Channel(q, sender, r) ==
      Channel(q[..k], sender, r) + (if Wanted(q[k], sender, r) then [q[k]] else []) + Channel(q[k + 1..], sender, r)
    ensures Channel(Without(q, k), sender, r) == Channel(q[k + 1..], sender, r) + Channel(q[..k], sender, r)
  {
    assert q == q[..k] + q[k..] && q[k..][1..] == q[k + 1..];
    ChannelConcat(q[..k], q[k..], sender, r);
    ChannelConcat(q[k + 1..], q[..k], sender, r);
  }

  /** No message is lost or doubled by a selective receive. */
  lemma WithoutConserves(q: seq<Message>, k: nat)
    requires k < |q|
    ensures multiset(Without(q, k)) + multiset{q[k]} == multiset(q)
  {
    assert q == q[..k] + [q[k]] + q[k + 1..];
  }

  /** Selective receiving keeps the order of the channel it receives from. */
  lemma SelectiveKeepsOwnOrder(q: seq<Message>, sender: u64, r: Receiver)
    requires First(q, Some(sender), r) < |q|
    ensures var k := First(q, Some(sender), r);
            Channel(q, Some(sender), r) == [q[k]] + Channel(Without(q, k), Some(sender), r)
  {
    var k := First(q, Some(sender), r);
    ChannelAround(q, k, Some(sender), r);
    ChannelNone(q[..k], Some(sender), r);
  }

  predicate AllDistinct(q: seq<Message>) {
    forall i, j :: 0 <= i < j < |q| ==> q[i] != q[j]
  }

  /** Another sender's messages stay in order exactly if the message taken does not stand
      between two of them. */
  lemma OtherSendersOrder(q: seq<Message>, k: nat, other: u64, r: Receiver)
    requires k < |q| && !Wanted(q[k], Some(other), r) && AllDistinct(Channel(q, Some(other), r))
    ensures Channel(Without(q, k), Some(other), r) == Channel(q, Some(other), r) <==>
      Channel(q[..k], Some(other), r) == [] || Channel(q[k + 1..], Some(other), r) == []
  {
    ChannelAround(q, k, Some(other), r);
    var a, b := Channel(q[..k], Some(other), r), Channel(q[k + 1..], Some(other), r);
    assert a + [] + b == a + b;
    Swapped(a, b);
  }

  lemma Swapped(a: seq<Message>, b: seq<Message>)
    requires AllDistinct(a + b)
    ensures b + a == a + b <==> a == [] || b == []
  {
    if a != [] && b != [] {
      assert (a + b)[0] == a[0] && (a + b)[|a|] == b[0] && (b + a)[0] == b[0];
    }
  }

  // ---- runs ----

  datatype Op = Push(m: Message) | Receive(r: Receiver) | ReceiveFrom(sender: u64, r: Receiver)

  /** The queue, the messages accepted, those delivered and those dropped, in order. */
  datatype History = History(queue: seq<Message>, sent: seq<Message>, got: seq<Message>, dropped: seq<Message>)

  /** What the mailbox operations do to the queue. */
  function Perform(h: History, op: Op): History {
    match op
    case Push(m) =>
      if |h.queue| < CAP then h.(queue := h.queue + [m], sent := h.sent + [m]) else h
    case Receive(r) =>
      var k := First(h.queue, None, r);
      if k < |h.queue| then History(h.queue[k + 1..], h.sent, h.got + [h.queue[k]], h.dropped + h.queue[..k])
      else History([], h.sent, h.got, h.dropped + h.queue)
    case ReceiveFrom(sender, r) =>
      var k := First(h.queue, Some(sender), r);
      if k < |h.queue| then h.(queue := Without(h.queue, k), got := h.got + [h.queue[k]]) else h
  }

  function PerformAll(ops: seq<Op>): History {
    if ops == [] then History([], [], [], []) else Perform(PerformAll(ops[..|ops| - 1]), ops[|ops| - 1])
  }

  ghost predicate Conserved(h: History) {
    && |h.queue| <= CAP
    && multiset(h.sent) == multiset(h.got) + multiset(h.queue) + multiset(h.dropped)
  }

  lemma ReceiveConserves(h: History, r: Receiver)
    requires Conserved(h)
    ensures Conserved(Perform(h, Receive(r)))
  {
    var q := h.queue;
    var k := First(q, None, r);
    if k < |q| {
      assert q == q[..k] + [q[k]] + q[k + 1..];
    }
  }

  lemma SelectConserves(h: History, sender: u64, r: Receiver)
    requires Conserved(h)
    ensures Conserved(Perform(h, ReceiveFrom(sender, r)))
  {
    var k := First(h.queue, Some(sender), r);
    if k < |h.queue| {
      WithoutConserves(h.queue, k);
    }
  }

  lemma PerformConserves(h: History, op: Op)
    requires Conserved(h)
    ensures Conserved(Perform(h, op))
  {
    match op
    case Push(m) =>
    case Receive(r) => ReceiveConserves(h, r);
    case ReceiveFrom(sender, r) => SelectConserves(h, sender, r);
  }

  /** Over any run every accepted message is delivered once, dropped once or still queued. */
  lemma {:induction false} RunConserves(ops: seq<Op>)
    ensures Conserved(PerformAll(ops))
    decreases |ops|
  {
    if ops != [] {
      RunConserves(ops[..|ops| - 1]);
      PerformConserves(PerformAll(ops[..|ops| - 1]), ops[|ops| - 1]);
    }
  }

  /** The operation asks for messages to this thread, slot and generation, from this sender or
      from anyone. */
  predicate AsksFor(op: Op, m: Message) {
    match op
    case Push(_) => false
    case Receive(r) => m.to == r.id && m.toSlot == r.slot && m.toGeneration == r.generation
    case ReceiveFrom(sender, r) =>
      m.to == r.id && m.toSlot == r.slot && m.toGeneration == r.generation && m.from == sender
  }

  /** The operation receives for another thread, slot or generation. */
  predicate Discards(op: Op, m: Message) {
    op.Receive? && (m.to != op.r.id || m.toSlot != op.r.slot || m.toGeneration != op.r.generation)
  }

  /** One step adds at most one message to those delivered, one that it asks for, and drops only
      messages for others. */
  lemma StepDelivers(h: History, op: Op)
    ensures var h' := Perform(h, op);
            && (h'.got == h.got || exists m :: AsksFor(op, m) && m in h.queue && h'.got == h.got + [m])
            && h.dropped <= h'.dropped && forall m :: m in h'.dropped[|h.dropped|..] ==> Discards(op, m) && m in h.queue
  {
    var q, h' := h.queue, Perform(h, op);
    match op
    case Push(_) =>
    case Receive(r) =>
      var k := First(q, None, r);
      FirstPicks(q, None, r);
      if k < |q| {
        assert AsksFor(op, q[k]);
      }
      var cut := if k < |q| then q[..k] else q;
      assert h'.dropped[|h.dropped|..] == cut;
      forall m | m in cut ensures Discards(op, m) && m in q {
        var j :| 0 <= j < |cut| && cut[j] == m;
        assert q[j] == m;
      }
    case ReceiveFrom(sender, r) =>
      var k := First(q, Some(sender), r);
      FirstPicks(q, Some(sender), r);
      if k < |q| {
        assert AsksFor(op, q[k]);
      }
  }

  ghost predicate SomeAskedFor(ops: seq<Op>, m: Message) {
    exists i :: 0 <= i < |ops| && AsksFor(ops[i], m)
  }

  ghost predicate SomeDiscarded(ops: seq<Op>, m: Message) {
    exists i :: 0 <= i < |ops| && Discards(ops[i], m)
  }

  /** Over any run a message is delivered only to a receiver of its own thread id, slot and
      generation, and dropped only by a receiver that differs in one of them. */
  lemma {:induction false} OnlyOwnDelivered(ops: seq<Op>)
    ensures forall m :: m in PerformAll(ops).got ==> SomeAskedFor(ops, m)
    ensures forall m :: m in PerformAll(ops).dropped ==> SomeDiscarded(ops, m)
    decreases |ops|
  {
    if ops != [] {
      var last := |ops| - 1;
      var init, h, h' := ops[..last], PerformAll(ops[..last]), PerformAll(ops);
      OnlyOwnDelivered(init);
      StepDelivers(h, ops[last]);
      assert forall i :: 0 <= i < last ==> init[i] == ops[i];
      forall m | m in h'.got ensures SomeAskedFor(ops, m) {
        if m in h.got {
          var i :| 0 <= i < |init| && AsksFor(init[i], m);
          assert AsksFor(ops[i], m);
        }
      }
      forall m | m in h'.dropped ensures SomeDiscarded(ops, m) {
        if m in h.dropped {
          var i :| 0 <= i < |init| && Discards(init[i], m);
          assert Discards(ops[i], m);
        } else {
          assert h'.dropped == h.dropped + h'.dropped[|h.dropped|..];
        }
      }
    }
  }

  /** Operations of receiver `r`, who selects from `sender` only. */
  predicate Faithful(op: Op, sender: u64, r: Receiver) {
    match op
    case Push(_) => true
    case Receive(r') => r' == r
    case ReceiveFrom(sender', r') => r' == r && sender' == sender
  }

  ghost predicate InOrder(h: History, sender: u64, r: Receiver) {
    Channel(h.sent, Some(sender), r) == Channel(h.got, Some(sender), r) + Channel(h.queue, Some(sender), r)
  }

  /** Receiving the next message takes the head of the channel or leaves it alone. */
  lemma ReceiveTakesHead(q: seq<Message>, sender: u64, r: Receiver)
    requires First(q, None, r) < |q|
    ensures var k := First(q, None, r);
            Channel(q, Some(sender), r) == Channel([q[k]], Some(sender), r) + Channel(q[k + 1..], Some(sender), r)
  {
    var k := First(q, None, r);
    ChannelAround(q, k, Some(sender), r);
    ChannelNone(q[..k], Some(sender), r);
  }

  lemma GotInOrder(h: History, h': History, m: Message, sender: u64, r: Receiver)
    requires InOrder(h, sender, r) && h'.sent == h.sent && h'.got == h.got + [m]
    requires Channel(h.queue, Some(sender), r) == Channel([m], Some(sender), r) + Channel(h'.queue, Some(sender), r)
    ensures InOrder(h', sender, r)
  {
    ChannelConcat(h.got, [m], Some(sender), r);
  }

  lemma PushInOrder(h: History, m: Message, sender: u64, r: Receiver)
    requires InOrder(h, sender, r)
    ensures InOrder(Perform(h, Push(m)), sender, r)
  {
    ChannelConcat(h.queue, [m], Some(sender), r);
    ChannelConcat(h.sent, [m], Some(sender), r);
  }

  lemma ReceiveInOrder(h: History, sender: u64, r: Receiver)
    requires InOrder(h, sender, r)
    ensures InOrder(Perform(h, Receive(r)), sender, r)
  {
    var q := h.queue;
    var k := First(q, None, r);
    if k < |q| {
      ReceiveTakesHead(q, sender, r);
      GotInOrder(h, Perform(h, Receive(r)), q[k], sender, r);
    } else {
      ChannelNone(q, Some(sender), r);
    }
  }

  lemma SelectInOrder(h: History, sender: u64, r: Receiver)
    requires InOrder(h, sender, r)
    ensures InOrder(Perform(h, ReceiveFrom(sender, r)), sender, r)
  {
    var q := h.queue;
    var k := First(q, Some(sender), r);
    if k < |q| {
      SelectiveKeepsOwnOrder(q, sender, r);
      GotInOrder(h, Perform(h, ReceiveFrom(sender, r)), q[k], sender, r);
    }
  }

  lemma PerformInOrder(h: History, op: Op, sender: u64, r: Receiver)
    requires InOrder(h, sender, r) && Faithful(op, sender, r)
    ensures InOrder(Perform(h, op), sender, r)
  {
    match op
    case Push(m) => PushInOrder(h, m, sender, r);
    case Receive(_) => ReceiveInOrder(h, sender, r);
    case ReceiveFrom(_, _) => SelectInOrder(h, sender, r);
  }

  /** Over any run in which the mailbox's owner selects from one sender only, that sender's
      messages arrive in the order they were sent, none lost. */
  lemma {:induction false} ChannelFifo(ops: seq<Op>, sender: u64, r: Receiver)
    requires forall op :: op in ops ==> Faithful(op, sender, r)
    ensures InOrder(PerformAll(ops), sender, r)
    decreases |ops|
  {
    if ops != [] {
      ChannelFifo(ops[..|ops| - 1], sender, r);
      PerformInOrder(PerformAll(ops[..|ops| - 1]), ops[|ops| - 1], sender, r);
    }
  }

  lemma AllFree(s: seq<nat>)
    requires |s| == CAP && forall i :: 0 <= i < CAP ==> s[i] == i
    ensures multiset(s) == multiset(SlotSet(CAP))
  {
    Counted(s, CAP);
    assert s[..CAP] == s;
  }

  lemma {:induction false} Counted(s: seq<nat>, n: nat)
    requires n <= |s| && forall i :: 0 <= i < |s| ==> s[i] == i
    ensures multiset(s[..n]) == multiset(SlotSet(n))
    decreases n
  {
    if n > 0 {
      var last := n - 1;
      Counted(s, last);
      assert s[..n] == s[..last] + [last];
      assert SlotSet(n) == SlotSet(last) + {last};
    }
  }
}
