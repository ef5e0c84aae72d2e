/** Signals: actions and masks, delivery to a user handler, and the return from it. */
module Signal {
  import opened Memory
  import opened Bytes

  const SIGKILL: nat := 9
  const SIGSTOP: nat := 19
  const SIG_DFL: u64 := 0
  const SIG_IGN: u64 := 1

  /** Signal sets stand for 64-bit masks: bit `i` is signal `i + 1`. */
  type SigSet = s: set<nat> | forall x :: x in s ==> 1 <= x <= 64

  const UNCATCHABLE: SigSet := {SIGKILL, SIGSTOP}

  datatype Action = Action(handler: u64, flags: u64, restorer: u64, mask: SigSet)

  const DEFAULT: Action := Action(SIG_DFL, 0, 0, {})

  datatype State = State(actions: seq<Action>, mask: SigSet, pending: SigSet)

  // ---- actions and masks ----

  /** Installing an action: not for signals that cannot be caught, and never masking them. */
  function SetAction(s: State, sig: nat, a: Action): Option<State>
    requires |s.actions| == 64
  {
    if sig < 1 || sig > 64 || sig in UNCATCHABLE then None
    else Some(s.(actions := s.actions[sig - 1 := a.(mask := a.mask - UNCATCHABLE)]))
  }

  datatype How = Block | Unblock | SetMask | Other

  function ChangeMask(s: State, how: How, change: SigSet): State {
    var allowed := change - UNCATCHABLE;
    match how
    case Block => s.(mask := s.mask + allowed)
    case Unblock => s.(mask := s.mask - allowed)
    case SetMask => s.(mask := allowed)
    case Other => s
  }

  /** The lowest deliverable signal. */
  ghost predicate IsNext(s: State, sig: nat) {
    sig in s.pending && sig !in s.mask && forall x :: x in s.pending && x !in s.mask ==> sig <= x
  }

  /** Signals that cannot be caught are never masked and keep their default action. */
  ghost predicate Inv(s: State) {
    && |s.actions| == 64 && s.mask !! UNCATCHABLE
    && (forall i :: 0 <= i < 64 ==> s.actions[i].mask !! UNCATCHABLE)
    && s.actions[SIGKILL - 1] == DEFAULT && s.actions[SIGSTOP - 1] == DEFAULT
  }

  datatype Op =
    | Install(sig: nat, action: Action)
    | Mask(how: How, change: SigSet)
    | Send(sig: nat)
    | Deliver(sig: nat)
    | Return

  ghost predicate Legal(s: State, op: Op) {
    match op
    case Deliver(sig) => IsNext(s, sig)
    case _ => true
  }

  /** A delivery to a handler also blocks what its action asks for; the return clears the mask. */
  ghost function Do(s: State, op: Op): State
    requires |s.actions| == 64 && Legal(s, op)
  {
    match op
    case Install(sig, a) => if SetAction(s, sig, a).Some? then SetAction(s, sig, a).value else s
    case Mask(how, change) => ChangeMask(s, how, change)
    case Send(sig) => if 1 <= sig <= 64 then s.(pending := s.pending + {sig}) else s
    case Deliver(sig) =>
      var a := s.actions[sig - 1];
      var t := s.(pending := s.pending - {sig});
      if a.handler > SIG_IGN then t.(mask := t.mask + a.mask) else t
    case Return => s.(mask := {})
  }

  lemma StepKeeps(s: State, op: Op)
    requires Inv(s) && Legal(s, op)
    ensures Inv(Do(s, op))
  {
  }

  ghost predicate LegalRun(s: State, ops: seq<Op>)
    decreases |ops|
  {
    ops == [] || (|s.actions| == 64 && Legal(s, ops[0]) && LegalRun(Do(s, ops[0]), ops[1..]))
  }

  ghost function Run(s: State, ops: seq<Op>): State
    requires LegalRun(s, ops)
    decreases |ops|
  {
    if ops == [] then s else Run(Do(s, ops[0]), ops[1..])
  }

  lemma {:induction false} RunKeeps(s: State, ops: seq<Op>)
    requires Inv(s) && LegalRun(s, ops)
    ensures Inv(Run(s, ops))
    decreases |ops|
  {
    if ops != [] {
      StepKeeps(s, ops[0]);
      RunKeeps(Do(s, ops[0]), ops[1..]);
    }
  }

  function Fresh(): State { State(seq(64, i => DEFAULT), {}, {}) }

  /** In every run the two signals are never masked and never gain a handler, so that a
      pending kill is always deliverable, at once or behind a lower signal. */
  lemma Uncatchable(ops: seq<Op>, next: nat)
    requires LegalRun(Fresh(), ops)
    ensures var s := Run(Fresh(), ops);
            && |s.actions| == 64 && s.mask !! UNCATCHABLE
            && s.actions[SIGKILL - 1] == DEFAULT && s.actions[SIGSTOP - 1] == DEFAULT
            && (SIGKILL in s.pending && IsNext(s, next) ==> next <= SIGKILL)
            && (SIGKILL in s.pending ==> exists x :: IsNext(s, x))
  {
    RunKeeps(Fresh(), ops);
    var s := Run(Fresh(), ops);
    if SIGKILL in s.pending {
      assert SIGKILL !in s.mask;
      var x := Lowest(s, SIGKILL);
    }
  }

  /** Below any deliverable signal there is a lowest one. */
  lemma {:induction false} Lowest(s: State, sig: nat) returns (x: nat)
    requires sig in s.pending && sig !in s.mask
    ensures IsNext(s, x) && x <= sig
    decreases sig
  {
    if y :| y in s.pending && y !in s.mask && y < sig {
      x := Lowest(s, y);
    } else {
      x := sig;
    }
  }

  /** What a user pointer leads to when it is read, and when it is written. */
  datatype Source<+T> = Absent | Unreadable | Gives(value: T)

  datatype Sink = NotAsked | Refuses | Accepts

  datatype Reply = Done | Invalid | Faulted

  class SignalState {
    var actions: seq<Action>
    var mask: SigSet
    var pending: SigSet

    ghost predicate Valid()
      reads this
    {
      Inv(View())
    }

    function View(): State
      reads this
    {
      State(actions, mask, pending)
    }

    constructor ()
      ensures Valid() && View() == Fresh()
    {
      actions, mask, pending := seq(64, i => DEFAULT), {}, {};
    }

    method SetPending(sig: nat)
      requires Valid()
      modifies this`pending
      ensures Valid() && View() == Do(old(View()), Send(sig))
      ensures forall x :: x in pending <==> x in old(pending) || (x == sig && 1 <= sig <= 64)
    {
      if sig >= 1 && sig <= 64 {
        pending := pending + {sig};
      }
    }

    /** Takes the lowest signal that is pending and not blocked. */
    method TakeNextDeliverable() returns (r: Option<nat>)
      requires Valid()
      modifies this`pending
      ensures Valid()
      ensures r.None? ==> pending == old(pending) && pending <= mask
      ensures r.Some? ==> IsNext(old(View()), r.value) && pending == old(pending) - {r.value}
    {
      if pending - mask == {} {
        assert forall x :: x in pending ==> x in mask || x in pending - mask;
        return None;
      }
      var bit := 1;
      while bit !in pending || bit in mask
        invariant 1 <= bit <= 64 && forall x :: x in pending && x !in mask ==> bit <= x
        decreases 64 - bit
      {
        var x :| x in pending && x !in mask;
        bit := bit + 1;
      }
      pending := pending - {bit};
      return Some(bit);
    }

    /** Tells the old action if asked to, then installs the new one if there is one. A fault
        at the second pointer comes after the first was served. */
    method RtSigaction(sig: nat, next: Source<Action>, tell: Sink) returns (r: Reply, told: Option<Action>)
      requires Valid()
      modifies this`actions
      ensures Valid()
      ensures r == Invalid <==> !(1 <= sig <= 64) || (!next.Absent? && sig in UNCATCHABLE)
      ensures r == Faulted <==> r != Invalid && (tell.Refuses? || next.Unreadable?)
      ensures told == if r != Invalid && tell.Accepts? then Some(old(actions)[sig - 1]) else None
      ensures View() == if r == Done && next.Gives? then Do(old(View()), Install(sig, next.value)) else old(View())
      ensures r == Done && next.Gives? ==> sig != 9 && sig != 19 && forall i :: 0 <= i < 64 ==>
        var a := next.value;
        actions[i] == if i == sig - 1 then Action(a.handler, a.flags, a.restorer, a.mask - {9, 19}) else old(actions)[i]
    {
      told := None;
      if sig < 1 || sig > 64 || (!next.Absent? && sig in UNCATCHABLE) {
        return Invalid, None;
      }
      if tell.Refuses? {
        return Faulted, None;
      }
      if tell.Accepts? {
        told := Some(actions[sig - 1]);
      }
      if next.Unreadable? {
        return Faulted, told;
      }
      if next.Gives? {
        actions := actions[sig - 1 := next.value.(mask := next.value.mask - UNCATCHABLE)];
      }
      return Done, told;
    }

    /** Tells the old mask if asked to, then changes it if there is a change. */
    method RtSigprocmask(how: How, change: Source<SigSet>, tell: Sink) returns (r: Reply, told: Option<SigSet>)
      requires Valid()
      modifies this`mask
      ensures Valid()
      ensures r == if tell.Refuses? || change.Unreadable? then Faulted else Done
      ensures told == if tell.Accepts? then Some(old(mask)) else None
      ensures View() == if r == Done && change.Gives? then Do(old(View()), Mask(how, change.value)) else old(View())
      ensures r == Done && change.Gives? ==> forall x :: x in mask <==>
        var asked, was := x in change.value && x != 9 && x != 19, x in old(mask);
        match how
        case Block => was || asked
        case Unblock => was && !asked
        case SetMask => asked
        case Other => was
    {
      told := if tell.Accepts? then Some(mask) else None;
      if tell.Refuses? || change.Unreadable? {
        return Faulted, told;
      }
      if change.Gives? {
        var allowed: SigSet := change.value - UNCATCHABLE;
        match how {
          case Block => mask := mask + allowed;
          case Unblock => mask := mask - allowed;
          case SetMask => mask := allowed;
          case Other =>
        }
      }
      r := Done;
    }
  }

  // ---- user memory ----

  /** The bytes at mapped user addresses. */
  type UserBytes = map<nat, byte>

  ghost predicate Mapped(mem: UserBytes, a: nat, n: nat) {
    forall i :: a <= i < a + n ==> i in mem
  }

  ghost predicate ValidPtr(mem: UserBytes, a: nat, n: nat) {
    a != 0 && a + n <= USER_SPACE_END + 1 && Mapped(mem, a, n)
  }

  ghost function Load(mem: UserBytes, a: nat, n: nat): (bs: seq<byte>)
    requires Mapped(mem, a, n)
    ensures |bs| == n
  {
    seq(n, i requires 0 <= i < n => mem[a + i])
  }

  ghost predicate Holds(mem: UserBytes, a: nat, bs: seq<byte>) {
    Mapped(mem, a, |bs|) && Load(mem, a, |bs|) == bs
  }

  lemma HoldsPart(mem: UserBytes, a: nat, x: seq<byte>, y: seq<byte>)
    requires Holds(mem, a, x + y)
    ensures Holds(mem, a, x) && Holds(mem, a + |x|, y)
  {
    var l := Load(mem, a, |x + y|);
    assert l[..|x|] == x && l[|x|..] == y;
    assert Load(mem, a, |x|) == l[..|x|];
    assert Load(mem, a + |x|, |y|) == l[|x|..];
  }

  // ---- the signal frame ----

  /** Saved registers on the kernel stack: the handler's argument and the interrupt frame. */
  const RDI: nat := 8
  const RIP: nat := 15
  const RFLAGS: nat := 17
  const RSP: nat := 18

  /** Subtraction in 64 bits. */
  function WrapSub(a: u64, b: u64): u64 { if a >= b then a - b else a + U64_LIMIT - b }

  /** Where the frame goes: 32 bytes below the stack pointer, aligned down, and room for the
      return address. */
  function FrameAt(rsp: u64): u64 {
    var x := WrapSub(rsp, 32);
    WrapSub(x - x % 16, 8)
  }

  function Frame(code: WordCode, restorer: u64, rip: u64, rsp: u64, rflags: u64): seq<byte> {
    code(restorer) + (code(rip) + (code(rsp) + code(rflags)))
  }

  /** A frame in user space lies wholly below the old stack pointer, at 8 modulo 16. */
  lemma FrameBelow(rsp: u64)
    ensures FrameAt(rsp) % 16 == 8
    ensures FrameAt(rsp) + 32 <= USER_SPACE_END + 1 ==> FrameAt(rsp) + 32 < rsp
    ensures 64 <= rsp ==> rsp - 55 <= FrameAt(rsp) <= rsp - 40
  {
  }

  /** The words of a frame, as they are read back. */
  lemma FrameWords(code: WordCode, mem: UserBytes, a: nat, restorer: u64, rip: u64, rsp: u64, rflags: u64)
    requires Reads64(code) && Holds(mem, a, Frame(code, restorer, rip, rsp, rflags))
    ensures Holds(mem, a, code(restorer)) && Holds(mem, a + 8, code(rip))
    ensures Holds(mem, a + 16, code(rsp)) && Holds(mem, a + 24, code(rflags))
  {
    HoldsPart(mem, a, code(restorer), code(rip) + (code(rsp) + code(rflags)));
    HoldsPart(mem, a + 8, code(rip), code(rsp) + code(rflags));
    HoldsPart(mem, a + 16, code(rsp), code(rflags));
  }

  /** The saved registers on entry to the handler. */
  function EnterRegs(k: seq<u64>, sig: u64, handler: u64): seq<u64>
    requires |k| == 20
  {
    k[RDI := sig][RIP := handler][RSP := FrameAt(k[RSP])]
  }

  /** The saved registers after the return: three words from the user stack. */
  ghost function ReturnRegs(k: seq<u64>, mem: UserBytes): Option<seq<u64>>
    requires |k| == 20
  {
    var a := k[RSP];
    if !ValidPtr(mem, a, 24) then None else
    Some(k[RIP := WordAt(mem, a)][RFLAGS := WordAt(mem, a + 16)][RSP := WordAt(mem, a + 8)])
  }

  ghost function WordAt(mem: UserBytes, a: nat): u64
    requires Mapped(mem, a, 8)
  {
    WordFits(Load(mem, a, 8));
    FromLe(Load(mem, a, 8))
  }

  lemma WordFits(bs: seq<byte>)
    requires |bs| == 8
    ensures FromLe(bs) < U64_LIMIT
  {
    ToFromLe(bs);
    Widths();
  }

  lemma WordIs(code: WordCode, mem: UserBytes, a: nat, w: u64)
    requires Reads64(code) && Holds(mem, a, code(w))
    ensures Mapped(mem, a, 8) && WordAt(mem, a) == w
  {
  }

  /** Restorer, RIP, RSP and RFLAGS stand in the frame in this order. */
  ghost predicate FrameReads(mem: UserBytes, f: nat, restorer: u64, rip: u64, rsp: u64, rflags: u64) {
    && Mapped(mem, f, 32)
    && WordAt(mem, f) == restorer && WordAt(mem, f + 8) == rip
    && WordAt(mem, f + 16) == rsp && WordAt(mem, f + 24) == rflags
  }

  lemma FrameIsRead(code: WordCode, mem: UserBytes, f: nat, restorer: u64, rip: u64, rsp: u64, rflags: u64)
    requires Reads64(code) && Mapped(mem, f, 32) && Holds(mem, f, Frame(code, restorer, rip, rsp, rflags))
    ensures FrameReads(mem, f, restorer, rip, rsp, rflags)
  {
    FrameWords(code, mem, f, restorer, rip, rsp, rflags);
    WordIs(code, mem, f, restorer);
    WordIs(code, mem, f + 8, rip);
    WordIs(code, mem, f + 16, rsp);
    WordIs(code, mem, f + 24, rflags);
  }

  /** If the frame is untouched and the handler returned once, so that the stack pointer is
      just above the return address, the return restores RIP, RSP and RFLAGS and nothing
      else, whatever the handler did to the other registers and the rest of memory. */
  lemma ReturnRestores(code: WordCode, k: seq<u64>, mem: UserBytes, a: Action, k': seq<u64>, mem': UserBytes)
    requires Reads64(code) && |k| == 20 && |k'| == 20 && k'[RSP] == FrameAt(k[RSP]) + 8
    requires var f := FrameAt(k[RSP]);
             && ValidPtr(mem, f, 32) && Holds(mem, f, Frame(code, a.restorer, k[RIP], k[RSP], k[RFLAGS]))
             && (forall i :: f <= i < f + 32 ==> i in mem' && mem'[i] == mem[i])
    ensures ReturnRegs(k', mem') == Some(k'[RIP := k[RIP]][RFLAGS := k[RFLAGS]][RSP := k[RSP]])
  {
    var f := FrameAt(k[RSP]);
    var frame := Frame(code, a.restorer, k[RIP], k[RSP], k[RFLAGS]);
    assert |frame| == 32;
    assert Load(mem', f, 32) == Load(mem, f, 32);
    FrameWords(code, mem', f, a.restorer, k[RIP], k[RSP], k[RFLAGS]);
    WordIs(code, mem', f + 8, k[RIP]);
    WordIs(code, mem', f + 16, k[RSP]);
    WordIs(code, mem', f + 24, k[RFLAGS]);
  }

  // ---- the kernel's side ----

  class UserMemory {
    var bytes: UserBytes
    const writable: set<nat>

    constructor (contents: UserBytes, mayWrite: set<nat>)
      ensures bytes == contents && writable == mayWrite
    {
      bytes, writable := contents, mayWrite;
    }

    method IsValid(a: nat, n: nat) returns (ok: bool)
      ensures ok <==> ValidPtr(bytes, a, n)
    {
      if a == 0 || a + n > USER_SPACE_END + 1 {
        return false;
      }
      for i := 0 to n
        invariant Mapped(bytes, a, i)
      {
        if a + i !in bytes {
          return false;
        }
      }
      return true;
    }

    /** Copies bytes out, if every address may be written. */
    method CopyTo(a: nat, bs: seq<byte>) returns (ok: bool)
      requires Mapped(bytes, a, |bs|)
      modifies this
      ensures ok <==> forall i :: a <= i < a + |bs| ==> i in writable
      ensures ok ==> Holds(bytes, a, bs) && bytes.Keys == old(bytes.Keys)
      ensures forall i :: i in old(bytes) && !(a <= i < a + |bs|) ==> i in bytes && bytes[i] == old(bytes[i])
      ensures !ok ==> bytes == old(bytes)
    {
      if exists i :: a <= i < a + |bs| && i !in writable {
        return false;
      }
      ghost var before := bytes;
      for n := 0 to |bs|
        invariant bytes.Keys == before.Keys
        invariant forall i :: i in before ==> bytes[i] == if a <= i < a + n then bs[i - a] else before[i]
      {
        bytes := bytes[a + n := bs[n]];
      }
      return true;
    }

    method ReadWord(a: nat) returns (w: u64)
      requires Mapped(bytes, a, 8)
      ensures w == WordAt(bytes, a)
    {
      var bs :=
        [bytes[a], bytes[a + 1], bytes[a + 2], bytes[a + 3], bytes[a + 4], bytes[a + 5], bytes[a + 6], bytes[a + 7]];
      WordFits(bs);
      assert bs == Load(bytes, a, 8);
      w := FromLe(bs);
    }
  }

  /** The user stack below `rsp` can take a signal frame. */
  ghost predicate FrameFits(mem: UserBytes, writable: set<nat>, rsp: u64) {
    ValidPtr(mem, FrameAt(rsp), 32) && forall i :: FrameAt(rsp) <= i < FrameAt(rsp) + 32 ==> i in writable
  }

  /** Redirects a thread into its handler; fails, and ends the process, if the frame cannot
      be written to the user stack. */
  method SetupSignalFrame(k: array<u64>, sig: u64, a: Action, user: UserMemory, state: SignalState, code: WordCode)
    returns (ok: bool)
    requires k.Length == 20 && Reads64(code) && state.Valid() && a.mask !! UNCATCHABLE
    modifies k, user, state`mask
    ensures state.Valid() && state.mask == if ok then old(state.mask) + a.mask else old(state.mask)
    ensures ok <==> FrameFits(old(user.bytes), user.writable, old(k[RSP]))
    ensures var f := FrameAt(old(k[RSP]));
      && (ok ==>
        ValidPtr(user.bytes, f, 32)
          && Holds(user.bytes, f, Frame(code, a.restorer, old(k[RIP]), old(k[RSP]), old(k[RFLAGS]))))
      && (ok ==> forall i :: i in old(user.bytes) && !(f <= i < f + 32) ==>
        i in user.bytes && user.bytes[i] == old(user.bytes[i]))
      && k[..] == if ok then EnterRegs(old(k[..]), sig, a.handler) else old(k[..])
    ensures ok ==>
      && k[8] == sig && k[15] == a.handler && k[18] == FrameAt(old(k[18]))
      && FrameReads(user.bytes, k[18], a.restorer, old(k[15]), old(k[18]), old(k[17]))
  {
    var f := FrameAt(k[RSP]);
    ok := user.IsValid(f, 32);
    if ok {
      ok := user.CopyTo(f, Frame(code, a.restorer, k[RIP], k[RSP], k[RFLAGS]));
    }
    if ok {
      FrameIsRead(code, user.bytes, f, a.restorer, k[RIP], k[RSP], k[RFLAGS]);
      state.mask := state.mask + a.mask;
      k[RDI], k[RIP], k[RSP] := sig, a.handler, f;
    }
  }

  /** Returns from a handler; fails, and ends the process, if the frame cannot be read. */
  method RtSigreturn(k: array<u64>, user: UserMemory, state: SignalState) returns (ok: bool)
    requires k.Length == 20 && state.Valid()
    modifies k, state`mask
    ensures state.Valid() && state.mask == if ok then {} else old(state.mask)
    ensures ok <==> ReturnRegs(old(k[..]), user.bytes).Some?
    ensures k[..] == if ok then ReturnRegs(old(k[..]), user.bytes).value else old(k[..])
  {
    var a := k[RSP];
    ok := user.IsValid(a, 24);
    if ok {
      var rip := user.ReadWord(a);
      var rsp := user.ReadWord(a + 8);
      var rflags := user.ReadWord(a + 16);
      k[RIP], k[RFLAGS], k[RSP] := rip, rflags, rsp;
      state.mask := {};
    }
  }

  /** Back to user mode with a return value, or the end of the process. */
  datatype Outcome = Resumed(value: u64) | Exited(code: nat)

  const RAX: nat := 14
  const RT_SIGRETURN: u64 := 15

  predicate IgnoredByDefault(sig: nat) { sig in {17, 18, 28, 19, 20, 21, 22} }

  /** What delivering signal `sig` does to the registers `k` and to the outcome. */
  ghost predicate Delivered(a: Action, sig: nat, k: seq<u64>, k': seq<u64>, value: u64, fits: bool, o: Outcome)
    requires |k| == 20
  {
    if a.handler == 1 || (a.handler == 0 && sig in {17, 18, 19, 20, 21, 22, 28}) then o == Resumed(value) && k' == k
    else if a.handler == 0 then o == Exited(sig) && k' == k
    else if fits then o == Resumed(0) && sig < U64_LIMIT && k' == EnterRegs(k, sig, a.handler)
    else o == Exited(11) && k' == k
  }

  /** The way back from a system call: a return from a handler, or the delivery of the next
      signal. */
  method SignalAndReturn(k: array<u64>, value: u64, user: UserMemory, state: SignalState, code: WordCode)
    returns (o: Outcome)
    requires k.Length == 20 && Reads64(code) && state.Valid()
    modifies k, user, state`mask, state`pending
    ensures state.Valid()
    ensures old(k[RAX]) == RT_SIGRETURN ==>
      && o == (if ReturnRegs(old(k[..]), old(user.bytes)).Some? then Resumed(0) else Exited(11))
      && (o.Resumed? ==>
            ReturnRegs(old(k[..]), old(user.bytes)) == Some(k[..]) && state.View() == Do(old(state.View()), Return))
    ensures old(k[RAX]) != RT_SIGRETURN && old(state.pending) <= old(state.mask) ==>
      o == Resumed(value) && k[..] == old(k[..]) && state.View() == old(state.View())
    ensures forall sig :: old(k[RAX]) != RT_SIGRETURN && IsNext(old(state.View()), sig) ==>
      && Delivered(old(state.actions)[sig - 1], sig, old(k[..]), k[..], value,
                   FrameFits(old(user.bytes), user.writable, old(k[RSP])), o)
      && (o.Resumed? ==> state.View() == Do(old(state.View()), Deliver(sig)))
  {
    if k[RAX] == RT_SIGRETURN {
      var returned := RtSigreturn(k, user, state);
      return if returned then Resumed(0) else Exited(11);
    }
    var sig := state.TakeNextDeliverable();
    if sig.None? {
      return Resumed(value);
    }
    var a := state.actions[sig.value - 1];
    if a.handler == SIG_IGN || (a.handler == SIG_DFL && IgnoredByDefault(sig.value)) {
      return Resumed(value);
    }
    if a.handler == SIG_DFL {
      return Exited(sig.value);
    }
    var ok := SetupSignalFrame(k, sig.value, a, user, state, code);
    return if ok then Resumed(0) else Exited(11);
  }

  /** A pending kill that comes next always ends the process, and a pending stop never
      redirects it: neither can have a handler. */
  lemma UncatchableDelivered(s: State, k: seq<u64>, k': seq<u64>, value: u64, fits: bool, o: Outcome)
    requires Inv(s) && |k| == 20
    ensures Delivered(s.actions[SIGKILL - 1], SIGKILL, k, k', value, fits, o) <==> o == Exited(SIGKILL) && k' == k
    ensures Delivered(s.actions[SIGSTOP - 1], SIGSTOP, k, k', value, fits, o) <==> o == Resumed(value) && k' == k
  {
  }
}
