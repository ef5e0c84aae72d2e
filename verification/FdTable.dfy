/** File descriptor tables and the reference counts of remote handles. */
module FdTables {
  import opened Memory

  const FD_BASE: nat := 3
  const MAX_FDS: nat := 256

  /** The remote side of a handle: its descriptor and the counter it shares with its copies. */
  datatype Remote = Remote(fd: u64, refs: Option<nat>)

  /** An open file; `info` stands for data, position, path and flags. */
  datatype Handle = Handle(info: int, remote: Option<Remote>)

  type Entries = seq<Option<Handle>>

  datatype Table = Table(entries: Entries, flags: seq<nat>)

  predicate Sized(t: Table) { |t.entries| == MAX_FDS && |t.flags| == MAX_FDS }

  /** The shared counters, the counters whose descriptor was closed, and the descriptors
      closed without a counter, both in order. */
  datatype Remotes = Remotes(refs: map<nat, nat>, closes: seq<nat>, bare: seq<u64>)

  // ---- copies and drops ----

  predicate Holds(h: Option<Handle>, c: nat) {
    h.Some? && h.value.remote.Some? && h.value.remote.value.refs == Some(c)
  }

  function Share(h: Option<Handle>, c: nat): nat { if Holds(h, c) then 1 else 0 }

  /** Remote handles are made with a counter. */
  predicate Proper(h: Option<Handle>) {
    h.Some? && h.value.remote.Some? ==> h.value.remote.value.refs.Some?
  }

  /** Copying a handle takes a share of its counter. */
  function Copy(rm: Remotes, h: Handle): Remotes {
    if h.remote.None? || h.remote.value.refs.None? || h.remote.value.refs.value !in rm.refs then rm else
    var c := h.remote.value.refs.value;
    rm.(refs := rm.refs[c := rm.refs[c] + 1])
  }

  /** Dropping a handle gives its share back; the last one closes the remote descriptor. */
  function Drop(rm: Remotes, h: Handle): Remotes {
    if h.remote.None? then rm
    else if h.remote.value.refs.None? then rm.(bare := rm.bare + [h.remote.value.fd]) else
    var c := h.remote.value.refs.value;
    if c !in rm.refs || rm.refs[c] == 0 then rm else
    Remotes(rm.refs[c := rm.refs[c] - 1], if rm.refs[c] == 1 then rm.closes + [c] else rm.closes, rm.bare)
  }

  type Census = nat -> nat

  /** Every counter stands at the number of live shares, and has been closed exactly once
      if there are none and never otherwise. Nothing was closed without a counter. */
  ghost predicate Balanced(rm: Remotes, live: Census) {
    && (forall c :: live(c) == if c in rm.refs then rm.refs[c] else 0)
    && (forall c :: multiset(rm.closes)[c] == if c in rm.refs && rm.refs[c] == 0 then 1 else 0)
    && rm.bare == []
  }

  lemma CopyBalanced(rm: Remotes, live: Census, h: Handle, live': Census)
    requires Balanced(rm, live) && forall c :: live'(c) == live(c) + Share(Some(h), c)
    requires forall c :: Holds(Some(h), c) ==> live(c) > 0
    ensures Balanced(Copy(rm, h), live')
  {
  }

  lemma DropBalanced(rm: Remotes, live: Census, h: Handle, live': Census)
    requires Balanced(rm, live) && Proper(Some(h)) && forall c :: live'(c) + Share(Some(h), c) == live(c)
    ensures Balanced(Drop(rm, h), live')
  {
  }

  lemma OpenBalanced(rm: Remotes, live: Census, c: nat, h: Handle, live': Census)
    requires Balanced(rm, live) && c !in rm.refs && h.remote.Some? && h.remote.value.refs == Some(c)
    requires forall d :: live'(d) == live(d) + Share(Some(h), d)
    ensures Balanced(rm.(refs := rm.refs[c := 1]), live')
  {
  }

  // ---- shares held by tables ----

  ghost function Live(es: Entries, c: nat): nat {
    if es == [] then 0 else Live(es[..|es| - 1], c) + Share(es[|es| - 1], c)
  }

  lemma {:induction false} LiveUpdate(es: Entries, i: nat, h: Option<Handle>, c: nat)
    requires i < |es|
    ensures Live(es[i := h], c) + Share(es[i], c) == Live(es, c) + Share(h, c)
    decreases |es|
  {
    var n := |es| - 1;
    if i < n {
      assert es[i := h][..n] == es[..n][i := h];
      LiveUpdate(es[..n], i, h, c);
    } else {
      assert es[i := h][..n] == es[..n];
    }
  }

  ghost function LiveAll(ts: seq<Table>, c: nat): nat {
    if ts == [] then 0 else LiveAll(ts[..|ts| - 1], c) + Live(ts[|ts| - 1].entries, c)
  }

  lemma {:induction false} LiveAllUpdate(ts: seq<Table>, p: nat, t: Table, c: nat)
    requires p < |ts|
    ensures LiveAll(ts[p := t], c) + Live(ts[p].entries, c) == LiveAll(ts, c) + Live(t.entries, c)
    decreases |ts|
  {
    var n := |ts| - 1;
    if p < n {
      assert ts[p := t][..n] == ts[..n][p := t];
      LiveAllUpdate(ts[..n], p, t, c);
    } else {
      assert ts[p := t][..n] == ts[..n];
    }
  }

  // ---- table operations ----

  function FirstFree(es: Entries, from: nat): (k: nat)
    requires from <= |es|
    ensures from <= k <= |es| && (k < |es| ==> es[k].None?) && forall i :: from <= i < k ==> es[i].Some?
    decreases |es| - from
  {
    if from == |es| || es[from].None? then from else FirstFree(es, from + 1)
  }

  function Get(t: Table, fd: nat): Option<Handle>
    requires Sized(t)
  {
    if fd < FD_BASE || fd >= MAX_FDS then None else t.entries[fd]
  }

  /** Puts a handle into the lowest free slot; without one the handle is dropped. */
  function Alloc(t: Table, rm: Remotes, h: Handle, cloexec: bool): (Table, Remotes, Option<nat>)
    requires Sized(t)
  {
    var k := FirstFree(t.entries, FD_BASE);
    if k == MAX_FDS then (t, Drop(rm, h), None)
    else (Table(t.entries[k := Some(h)], t.flags[k := if cloexec then 1 else 0]), rm, Some(k))
  }

  function Clear(t: Table, fd: nat): (r: Table)
    requires Sized(t) && fd < MAX_FDS
    ensures Sized(r)
  {
    Table(t.entries[fd := None], t.flags[fd := 0])
  }

  function Close(t: Table, rm: Remotes, fd: nat): (Table, Remotes, bool)
    requires Sized(t)
  {
    match Get(t, fd)
    case None => (t, rm, false)
    case Some(h) => (Clear(t, fd), Drop(rm, h), true)
  }

  /** Puts a handle into a given slot, closing what was there. */
  function Replace(t: Table, rm: Remotes, h: Handle, fd: nat): (Table, Remotes)
    requires Sized(t) && FD_BASE <= fd < MAX_FDS
  {
    var (t', rm', _) := Close(t, rm, fd);
    (Table(t'.entries[fd := Some(h)], t'.flags[fd := 0]), rm')
  }

  predicate Marked(flag: nat) { flag % 2 == 1 }

  /** Closes the descriptors below `n` that are marked for closing on exec. */
  function CloseMarked(t: Table, rm: Remotes, n: nat): (r: (Table, Remotes))
    requires Sized(t) && n <= MAX_FDS
    ensures Sized(r.0)
  {
    if n <= FD_BASE then (t, rm) else
    var (t', rm') := CloseMarked(t, rm, n - 1);
    CloseIfMarked(t', rm', n - 1)
  }

  function CloseIfMarked(t: Table, rm: Remotes, i: nat): (r: (Table, Remotes))
    requires Sized(t) && i < MAX_FDS
    ensures Sized(r.0)
  {
    if t.entries[i].Some? && Marked(t.flags[i]) then (Clear(t, i), Drop(rm, t.entries[i].value)) else (t, rm)
  }

  /** Closes all descriptors below `n`; the flags stay behind. */
  function CloseAll(t: Table, rm: Remotes, n: nat): (r: (Table, Remotes))
    requires Sized(t) && n <= MAX_FDS
    ensures Sized(r.0)
  {
    if n <= FD_BASE then (t, rm) else
    var (t', rm') := CloseAll(t, rm, n - 1);
    CloseAny(t', rm', n - 1)
  }

  function CloseAny(t: Table, rm: Remotes, i: nat): (r: (Table, Remotes))
    requires Sized(t) && i < MAX_FDS
    ensures Sized(r.0)
  {
    match t.entries[i]
    case None => (t, rm)
    case Some(h) => (t.(entries := t.entries[i := None]), Drop(rm, h))
  }

  function EmptyTable(): (t: Table)
    ensures Sized(t) && forall i :: 0 <= i < MAX_FDS ==> t.entries[i] == None
  {
    Table(seq(MAX_FDS, i => None), seq(MAX_FDS, i => 0))
  }

  /** Copies the descriptors below `n` into a new table. */
  function Fork(t: Table, rm: Remotes, n: nat): (r: (Table, Remotes))
    requires Sized(t) && n <= MAX_FDS
    ensures Sized(r.0) && forall i :: n <= i < MAX_FDS ==> r.0.entries[i] == None
  {
    if n <= FD_BASE then (EmptyTable(), rm) else
    var (child, rm') := Fork(t, rm, n - 1);
    CopyEntry(t, child, rm', n - 1)
  }

  function CopyEntry(t: Table, child: Table, rm: Remotes, i: nat): (r: (Table, Remotes))
    requires Sized(t) && Sized(child) && i < MAX_FDS
    ensures Sized(r.0)
  {
    match t.entries[i]
    case None => (child, rm)
    case Some(h) => (Table(child.entries[i := Some(h)], child.flags[i := t.flags[i]]), Copy(rm, h))
  }

  // ---- slot by slot ----

  /** Exactly the open descriptors below `n` whose close-on-exec bit is set are closed. */
  lemma {:induction false} CloseMarkedSlots(t: Table, rm: Remotes, n: nat)
    requires Sized(t) && n <= MAX_FDS
    ensures var t' := CloseMarked(t, rm, n).0;
            forall i :: 0 <= i < MAX_FDS ==>
              var closed := 3 <= i < n && t.entries[i].Some? && t.flags[i] % 2 == 1;
              && t'.entries[i] == (if closed then None else t.entries[i])
              && t'.flags[i] == (if closed then 0 else t.flags[i])
    decreases n
  {
    if n > FD_BASE {
      CloseMarkedSlots(t, rm, n - 1);
    }
  }

  lemma {:induction false} CloseAllSlots(t: Table, rm: Remotes, n: nat)
    requires Sized(t) && n <= MAX_FDS
    ensures var t' := CloseAll(t, rm, n).0;
            t'.flags == t.flags && forall i :: 0 <= i < MAX_FDS ==>
              t'.entries[i] == if 3 <= i < n then None else t.entries[i]
    decreases n
  {
    if n > FD_BASE {
      CloseAllSlots(t, rm, n - 1);
    }
  }

  /** The child has the open descriptors below `n`, with their flags, and nothing else. */
  lemma {:induction false} ForkSlots(t: Table, rm: Remotes, n: nat)
    requires Sized(t) && n <= MAX_FDS
    ensures var child := Fork(t, rm, n).0;
            forall i :: 0 <= i < MAX_FDS ==>
              && child.entries[i] == (if 3 <= i < n then t.entries[i] else None)
              && child.flags[i] == (if 3 <= i < n && t.entries[i].Some? then t.flags[i] else 0)
    decreases n
  {
    if n > FD_BASE {
      ForkSlots(t, rm, n - 1);
    }
  }

  /** How many of the descriptors from 3 to below `n` share counter `c`. */
  ghost function Sharing(es: Entries, n: nat, c: nat): nat
    requires n <= |es|
  {
    if n <= 3 then 0 else
    var h := es[n - 1];
    Sharing(es, n - 1, c) + if h.Some? && h.value.remote.Some? && h.value.remote.value.refs == Some(c) then 1 else 0
  }

  /** Each counter goes up by the number of descriptors copied that share it. */
  lemma {:induction false} ForkCounts(t: Table, rm: Remotes, n: nat)
    requires Sized(t) && n <= MAX_FDS
    ensures var rm' := Fork(t, rm, n).1;
            && rm'.closes == rm.closes && rm'.bare == rm.bare && rm'.refs.Keys == rm.refs.Keys
            && forall c :: c in rm.refs ==> rm'.refs[c] == rm.refs[c] + Sharing(t.entries, n, c)
    decreases n
  {
    if n > FD_BASE {
      ForkCounts(t, rm, n - 1);
    }
  }

  // ---- what they keep ----

  ghost predicate AllProper(es: Entries) {
    forall i :: 0 <= i < |es| ==> Proper(es[i])
  }

  /** Balanced with these entries and `rest` elsewhere. */
  ghost predicate With(rm: Remotes, rest: Census, es: Entries) {
    Balanced(rm, c => rest(c) + Live(es, c))
  }

  lemma RemoveKeeps(rm: Remotes, rest: Census, es: Entries, i: nat)
    requires With(rm, rest, es) && AllProper(es) && i < |es| && es[i].Some?
    ensures With(Drop(rm, es[i].value), rest, es[i := None]) && AllProper(es[i := None])
  {
    var after := es[i := None];
    forall c ensures rest(c) + Live(after, c) + Share(es[i], c) == rest(c) + Live(es, c) {
      LiveUpdate(es, i, None, c);
    }
    DropBalanced(rm, c => rest(c) + Live(es, c), es[i].value, c => rest(c) + Live(after, c));
  }

  /** A handle that moves into an empty slot. */
  lemma MoveIn(es: Entries, i: nat, h: Handle, rest: Census, rest': Census, rm: Remotes)
    requires i < |es| && es[i].None? && With(rm, rest, es) && AllProper(es) && Proper(Some(h))
    requires forall c :: rest'(c) + Share(Some(h), c) == rest(c)
    ensures With(rm, rest', es[i := Some(h)]) && AllProper(es[i := Some(h)])
  {
    forall c ensures rest'(c) + Live(es[i := Some(h)], c) == rest(c) + Live(es, c) {
      LiveUpdate(es, i, Some(h), c);
    }
  }

  lemma CloseKeeps(t: Table, rm: Remotes, rest: Census, fd: nat)
    requires Sized(t) && With(rm, rest, t.entries) && AllProper(t.entries)
    ensures var (t', rm', _) := Close(t, rm, fd);
            Sized(t') && With(rm', rest, t'.entries) && AllProper(t'.entries)
              && (FD_BASE <= fd < MAX_FDS ==> t'.entries[fd] == None)
  {
    if Get(t, fd).Some? {
      RemoveKeeps(rm, rest, t.entries, fd);
    }
  }

  ghost predicate Good(rm: Remotes, rest: Census, es: Entries) {
    With(rm, rest, es) && AllProper(es)
  }

  lemma CloseOneKeeps(t: Table, rm: Remotes, rest: Census, i: nat)
    requires Sized(t) && i < MAX_FDS && Good(rm, rest, t.entries)
    ensures var (t', rm') := CloseIfMarked(t, rm, i); Good(rm', rest, t'.entries)
    ensures var (t', rm') := CloseAny(t, rm, i); Good(rm', rest, t'.entries)
  {
    if t.entries[i].Some? {
      RemoveKeeps(rm, rest, t.entries, i);
    }
  }

  lemma {:induction false} CloseMarkedKeeps(t: Table, rm: Remotes, rest: Census, n: nat)
    requires Sized(t) && n <= MAX_FDS && Good(rm, rest, t.entries)
    ensures var (t', rm') := CloseMarked(t, rm, n); Good(rm', rest, t'.entries)
    decreases n
  {
    if n > FD_BASE {
      CloseMarkedKeeps(t, rm, rest, n - 1);
      var (t', rm') := CloseMarked(t, rm, n - 1);
      CloseOneKeeps(t', rm', rest, n - 1);
    }
  }

  lemma {:induction false} CloseAllKeeps(t: Table, rm: Remotes, rest: Census, n: nat)
    requires Sized(t) && n <= MAX_FDS && Good(rm, rest, t.entries)
    ensures var (t', rm') := CloseAll(t, rm, n); Good(rm', rest, t'.entries)
    decreases n
  {
    if n > FD_BASE {
      CloseAllKeeps(t, rm, rest, n - 1);
      var (t', rm') := CloseAll(t, rm, n - 1);
      CloseOneKeeps(t', rm', rest, n - 1);
    }
  }

  lemma {:induction false} LiveNone(es: Entries, c: nat)
    requires forall i :: 0 <= i < |es| ==> es[i] == None
    ensures Live(es, c) == 0
    decreases |es|
  {
    if es != [] {
      LiveNone(es[..|es| - 1], c);
    }
  }

  lemma {:induction false} ShareInLive(es: Entries, i: nat, c: nat)
    requires i < |es|
    ensures Share(es[i], c) <= Live(es, c)
    decreases |es|
  {
    if i < |es| - 1 {
      ShareInLive(es[..|es| - 1], i, c);
    }
  }

  /** A copy of a live handle that goes into an empty slot. */
  lemma CopyIn(rm: Remotes, rest: Census, es: Entries, i: nat, h: Handle)
    requires i < |es| && es[i].None? && With(rm, rest, es) && AllProper(es) && Proper(Some(h))
    requires forall c :: Share(Some(h), c) <= rest(c)
    ensures With(Copy(rm, h), rest, es[i := Some(h)]) && AllProper(es[i := Some(h)])
  {
    var after := es[i := Some(h)];
    forall c ensures rest(c) + Live(after, c) == rest(c) + Live(es, c) + Share(Some(h), c) {
      LiveUpdate(es, i, Some(h), c);
    }
    forall c | Holds(Some(h), c) ensures rest(c) + Live(es, c) > 0 {
      assert Share(Some(h), c) == 1;
    }
    CopyBalanced(rm, c => rest(c) + Live(es, c), h, c => rest(c) + Live(after, c));
  }

  lemma CopyEntryKeeps(t: Table, child: Table, rm: Remotes, live: Census, i: nat)
    requires Sized(t) && Sized(child) && i < MAX_FDS && AllProper(t.entries) && child.entries[i] == None
    requires Good(rm, live, child.entries) && forall c :: Live(t.entries, c) <= live(c)
    ensures var (child', rm') := CopyEntry(t, child, rm, i); Good(rm', live, child'.entries)
  {
    if t.entries[i].Some? {
      forall c ensures Share(t.entries[i], c) <= live(c) { ShareInLive(t.entries, i, c); }
      CopyIn(rm, live, child.entries, i, t.entries[i].value);
    }
  }

  /** Forking counts every copy. */
  lemma {:induction false} ForkKeeps(t: Table, rm: Remotes, live: Census, n: nat)
    requires Sized(t) && n <= MAX_FDS && Balanced(rm, live) && AllProper(t.entries)
    requires forall c :: Live(t.entries, c) <= live(c)
    ensures var (child, rm') := Fork(t, rm, n); Good(rm', live, child.entries)
    decreases n
  {
    if n <= FD_BASE {
      forall c ensures Live(EmptyTable().entries, c) == 0 { LiveNone(EmptyTable().entries, c); }
    } else {
      ForkKeeps(t, rm, live, n - 1);
      var (before, rm') := Fork(t, rm, n - 1);
      CopyEntryKeeps(t, before, rm', live, n - 1);
    }
  }

  // ---- any number of processes ----

  /** The tables of all processes, the handles that running system calls hold, and the
      counters. */
  datatype World = World(tables: seq<Table>, loose: Entries, rm: Remotes)

  /** The steps of open, dup, dup2, close, exec, fork and exit, each done under one lock.
      Between the steps of a call others may run. */
  datatype Op =
    | Open(remote: u64, refs: nat, info: int)
    | OpenLocal(info: int)
    | Clone(pid: nat, fd: nat)
    | Install(held: nat, pid: nat, cloexec: bool)
    | Put(held: nat, pid: nat, fd: nat)
    | Discard(held: nat)
    | CloseFd(pid: nat, fd: nat)
    | Exec(pid: nat)
    | ForkTable(pid: nat)
    | DropTable(pid: nat)

  predicate Held(w: World, k: nat) { k < |w.loose| && w.loose[k].Some? }

  predicate Legal(w: World, op: Op) {
    match op
    case Open(_, refs, _) => refs !in w.rm.refs
    case OpenLocal(_) => true
    case Clone(pid, fd) => pid < |w.tables|
    case Install(held, pid, _) => Held(w, held) && pid < |w.tables|
    case Put(held, pid, fd) => Held(w, held) && pid < |w.tables| && FD_BASE <= fd < MAX_FDS
    case Discard(held) => Held(w, held)
    case CloseFd(pid, fd) => pid < |w.tables|
    case Exec(pid) => pid < |w.tables|
    case ForkTable(pid) => pid < |w.tables|
    case DropTable(pid) => pid < |w.tables|
  }

  predicate AllSized(w: World) { forall p :: 0 <= p < |w.tables| ==> Sized(w.tables[p]) }

  function SetTable(w: World, pid: nat, t: Table, rm: Remotes): World
    requires pid < |w.tables|
  {
    w.(tables := w.tables[pid := t], rm := rm)
  }

  function Do(w: World, op: Op): World
    requires Legal(w, op) && AllSized(w)
  {
    match op
    case Open(remote, refs, info) =>
      w.(loose := w.loose + [Some(Handle(info, Some(Remote(remote, Some(refs)))))],
         rm := w.rm.(refs := w.rm.refs[refs := 1]))
    case OpenLocal(info) => w.(loose := w.loose + [Some(Handle(info, None))])
    case Clone(pid, fd) =>
      (match Get(w.tables[pid], fd)
       case None => w
       case Some(h) => w.(loose := w.loose + [Some(h)], rm := Copy(w.rm, h)))
    case Install(held, pid, cloexec) =>
      var (t, rm, _) := Alloc(w.tables[pid], w.rm, w.loose[held].value, cloexec);
      SetTable(w, pid, t, rm).(loose := w.loose[held := None])
    case Put(held, pid, fd) =>
      var (t, rm) := Replace(w.tables[pid], w.rm, w.loose[held].value, fd);
      SetTable(w, pid, t, rm).(loose := w.loose[held := None])
    case Discard(held) => w.(loose := w.loose[held := None], rm := Drop(w.rm, w.loose[held].value))
    case CloseFd(pid, fd) =>
      var (t, rm, _) := Close(w.tables[pid], w.rm, fd);
      SetTable(w, pid, t, rm)
    case Exec(pid) =>
      var (t, rm) := CloseMarked(w.tables[pid], w.rm, MAX_FDS);
      SetTable(w, pid, t, rm)
    case ForkTable(pid) =>
      var (t, rm) := Fork(w.tables[pid], w.rm, MAX_FDS);
      w.(tables := w.tables + [t], rm := rm)
    case DropTable(pid) =>
      var (t, rm) := CloseAll(w.tables[pid], w.rm, MAX_FDS);
      SetTable(w, pid, t, rm)
  }

  ghost function LiveIn(w: World): Census {
    c => LiveAll(w.tables, c) + Live(w.loose, c)
  }

  ghost predicate Shape(w: World) {
    && AllSized(w) && AllProper(w.loose)
    && (forall p :: 0 <= p < |w.tables| ==> AllProper(w.tables[p].entries))
  }

  ghost predicate Inv(w: World) {
    Shape(w) && Balanced(w.rm, LiveIn(w))
  }

  /** Everything but one table. */
  ghost function Others(w: World, pid: nat): Census
    requires pid < |w.tables|
  {
    c => LiveAll(w.tables[pid := EmptyTable()], c) + Live(w.loose, c)
  }

  lemma Apart(w: World, pid: nat, t: Table, c: nat)
    requires pid < |w.tables|
    ensures LiveIn(w.(tables := w.tables[pid := t]))(c) == Others(w, pid)(c) + Live(t.entries, c)
  {
    LiveAllUpdate(w.tables[pid := EmptyTable()], pid, t, c);
    LiveNone(EmptyTable().entries, c);
    assert w.tables[pid := EmptyTable()][pid := t] == w.tables[pid := t];
  }

  lemma Focus(w: World, pid: nat)
    requires Inv(w) && pid < |w.tables|
    ensures With(w.rm, Others(w, pid), w.tables[pid].entries)
  {
    forall c ensures LiveIn(w)(c) == Others(w, pid)(c) + Live(w.tables[pid].entries, c) {
      Apart(w, pid, w.tables[pid], c);
      assert w.tables[pid := w.tables[pid]] == w.tables;
    }
  }

  lemma Unfocus(w: World, pid: nat, t: Table, rm: Remotes)
    requires Shape(w) && pid < |w.tables| && Sized(t) && AllProper(t.entries) && With(rm, Others(w, pid), t.entries)
    ensures Inv(SetTable(w, pid, t, rm))
  {
    forall c ensures LiveIn(SetTable(w, pid, t, rm))(c) == Others(w, pid)(c) + Live(t.entries, c) {
      Apart(w, pid, t, c);
    }
  }

  /** A new handle in the hands of a system call. */
  lemma LooseKeeps(w: World, h: Handle, rm: Remotes, live: Census)
    requires Shape(w) && Proper(Some(h)) && Balanced(rm, live)
    requires forall c :: live(c) == LiveIn(w)(c) + Share(Some(h), c)
    ensures Inv(w.(loose := w.loose + [Some(h)], rm := rm))
  {
  }

  lemma OpenKeeps(w: World, h: Handle, refs: nat)
    requires Inv(w) && refs !in w.rm.refs && h.remote.Some? && h.remote.value.refs == Some(refs)
    ensures Inv(w.(loose := w.loose + [Some(h)], rm := w.rm.(refs := w.rm.refs[refs := 1])))
  {
    var live: Census := c => LiveIn(w)(c) + Share(Some(h), c);
    OpenBalanced(w.rm, LiveIn(w), refs, h, live);
    LooseKeeps(w, h, w.rm.(refs := w.rm.refs[refs := 1]), live);
  }

  lemma CloneKeeps(w: World, pid: nat, fd: nat)
    requires Inv(w) && pid < |w.tables| && fd < MAX_FDS && w.tables[pid].entries[fd].Some?
    ensures var h := w.tables[pid].entries[fd];
            Inv(w.(loose := w.loose + [h], rm := Copy(w.rm, h.value)))
  {
    var es := w.tables[pid].entries;
    var h := es[fd].value;
    var live: Census := c => LiveIn(w)(c) + Share(Some(h), c);
    forall c ensures Share(Some(h), c) <= LiveIn(w)(c) {
      ShareInLive(es, fd, c);
      TableInWorld(w, pid, c);
    }
    forall c | Holds(Some(h), c) ensures LiveIn(w)(c) > 0 {
      assert Share(Some(h), c) == 1;
    }
    CopyBalanced(w.rm, LiveIn(w), h, live);
    LooseKeeps(w, h, Copy(w.rm, h), live);
  }

  lemma TableInWorld(w: World, pid: nat, c: nat)
    requires pid < |w.tables|
    ensures Live(w.tables[pid].entries, c) <= LiveIn(w)(c)
  {
    Apart(w, pid, w.tables[pid], c);
    assert w.tables[pid := w.tables[pid]] == w.tables;
  }

  /** The world once a held handle has left the hands of its call. */
  function Released(w: World, k: nat): World
    requires Held(w, k)
  {
    w.(loose := w.loose[k := None])
  }

  lemma ReleasedShares(w: World, k: nat, pid: nat, c: nat)
    requires Held(w, k) && pid < |w.tables|
    ensures Others(Released(w, k), pid)(c) + Share(w.loose[k], c) == Others(w, pid)(c)
    ensures LiveIn(Released(w, k))(c) + Share(w.loose[k], c) == LiveIn(w)(c)
  {
    LiveUpdate(w.loose, k, None, c);
  }

  /** A held handle goes into an empty slot of a table. */
  lemma InsertKeeps(w: World, k: nat, pid: nat, t: Table, rm: Remotes, fd: nat, flags: seq<nat>)
    requires Shape(w) && Held(w, k) && pid < |w.tables| && Sized(t) && AllProper(t.entries) && |flags| == MAX_FDS
    requires With(rm, Others(w, pid), t.entries) && fd < MAX_FDS && t.entries[fd].None?
    ensures Inv(SetTable(Released(w, k), pid, Table(t.entries[fd := w.loose[k]], flags), rm))
  {
    var h, r := w.loose[k].value, Released(w, k);
    forall c ensures Others(r, pid)(c) + Share(Some(h), c) == Others(w, pid)(c) { ReleasedShares(w, k, pid, c); }
    MoveIn(t.entries, fd, h, Others(w, pid), Others(r, pid), rm);
    Unfocus(r, pid, Table(t.entries[fd := Some(h)], flags), rm);
  }

  /** A handle dropped before it found a place. */
  lemma DiscardKeeps(w: World, k: nat)
    requires Inv(w) && Held(w, k)
    ensures Inv(Do(w, Discard(k)))
  {
    var h := w.loose[k].value;
    forall c ensures LiveIn(Released(w, k))(c) + Share(Some(h), c) == LiveIn(w)(c) {
      LiveUpdate(w.loose, k, None, c);
    }
    DropBalanced(w.rm, LiveIn(w), h, LiveIn(Released(w, k)));
    var after := Do(w, Discard(k));
    assert forall c :: LiveIn(after)(c) == LiveIn(Released(w, k))(c);
  }

  lemma InstallKeeps(w: World, k: nat, pid: nat, cloexec: bool)
    requires Inv(w) && Held(w, k) && pid < |w.tables|
    ensures Inv(Do(w, Install(k, pid, cloexec)))
  {
    var t, h := w.tables[pid], w.loose[k].value;
    var i := FirstFree(t.entries, FD_BASE);
    if i < MAX_FDS {
      Focus(w, pid);
      InsertKeeps(w, k, pid, t, w.rm, i, t.flags[i := if cloexec then 1 else 0]);
    } else {
      assert w.tables[pid := t] == w.tables;
      assert Do(w, Install(k, pid, cloexec)) == Do(w, Discard(k));
      DiscardKeeps(w, k);
    }
  }

  lemma PutKeeps(w: World, k: nat, pid: nat, fd: nat)
    requires Inv(w) && Held(w, k) && pid < |w.tables| && FD_BASE <= fd < MAX_FDS
    ensures Inv(Do(w, Put(k, pid, fd)))
  {
    Focus(w, pid);
    CloseKeeps(w.tables[pid], w.rm, Others(w, pid), fd);
    var (t, rm, _) := Close(w.tables[pid], w.rm, fd);
    InsertKeeps(w, k, pid, t, rm, fd, t.flags[fd := 0]);
  }

  lemma ForkTableKeeps(w: World, pid: nat)
    requires Inv(w) && pid < |w.tables|
    ensures Inv(Do(w, ForkTable(pid)))
  {
    forall c ensures Live(w.tables[pid].entries, c) <= LiveIn(w)(c) { TableInWorld(w, pid, c); }
    ForkKeeps(w.tables[pid], w.rm, LiveIn(w), MAX_FDS);
    var (t, rm) := Fork(w.tables[pid], w.rm, MAX_FDS);
    var after := Do(w, ForkTable(pid));
    assert after.tables[..|w.tables|] == w.tables;
    assert forall c :: LiveIn(after)(c) == LiveIn(w)(c) + Live(t.entries, c);
  }

  lemma StepKeeps(w: World, op: Op)
    requires Inv(w) && Legal(w, op)
    ensures Inv(Do(w, op))
  {
    match op
    case Open(remote, refs, info) => OpenKeeps(w, Handle(info, Some(Remote(remote, Some(refs)))), refs);
    case OpenLocal(info) => LooseKeeps(w, Handle(info, None), w.rm, LiveIn(w));
    case Clone(pid, fd) => if Get(w.tables[pid], fd).Some? { CloneKeeps(w, pid, fd); }
    case Install(held, pid, cloexec) => InstallKeeps(w, held, pid, cloexec);
    case Put(held, pid, fd) => PutKeeps(w, held, pid, fd);
    case Discard(held) => DiscardKeeps(w, held);
    case CloseFd(pid, fd) =>
      Focus(w, pid);
      CloseKeeps(w.tables[pid], w.rm, Others(w, pid), fd);
      var (t, rm, _) := Close(w.tables[pid], w.rm, fd);
      Unfocus(w, pid, t, rm);
    case Exec(pid) =>
      Focus(w, pid);
      CloseMarkedKeeps(w.tables[pid], w.rm, Others(w, pid), MAX_FDS);
      var (t, rm) := CloseMarked(w.tables[pid], w.rm, MAX_FDS);
      Unfocus(w, pid, t, rm);
    case ForkTable(pid) => ForkTableKeeps(w, pid);
    case DropTable(pid) =>
      Focus(w, pid);
      CloseAllKeeps(w.tables[pid], w.rm, Others(w, pid), MAX_FDS);
      var (t, rm) := CloseAll(w.tables[pid], w.rm, MAX_FDS);
      Unfocus(w, pid, t, rm);
  }

  predicate LegalRun(w: World, ops: seq<Op>)
    requires AllSized(w)
    decreases |ops|
  {
    ops == [] || (Legal(w, ops[0]) && AllSized(Do(w, ops[0])) && LegalRun(Do(w, ops[0]), ops[1..]))
  }

  function Run(w: World, ops: seq<Op>): World
    requires AllSized(w) && LegalRun(w, ops)
    decreases |ops|
  {
    if ops == [] then w else Run(Do(w, ops[0]), ops[1..])
  }

  lemma {:induction false} RunKeeps(w: World, ops: seq<Op>)
    requires Inv(w) && LegalRun(w, ops)
    ensures Inv(Run(w, ops))
    decreases |ops|
  {
    if ops != [] {
      StepKeeps(w, ops[0]);
      RunKeeps(Do(w, ops[0]), ops[1..]);
    }
  }

  function Boot(): World {
    World([EmptyTable()], [], Remotes(map[], [], []))
  }

  lemma BootInv()
    ensures Inv(Boot())
  {
    var t := EmptyTable();
    forall d ensures LiveAll([t], d) == 0 {
      LiveNone(t.entries, d);
      assert [t][..0] == [];
    }
    assert forall d :: LiveIn(Boot())(d) == LiveAll([t], d) + Live([], d);
  }

  /** Over any run, in any number of processes: a counter equals the number of live handles
      that share it, and its remote descriptor has been closed exactly once if there is
      none left, and not at all before. */
  lemma HandleSafety(ops: seq<Op>, c: nat)
    requires LegalRun(Boot(), ops)
    ensures var w := Run(Boot(), ops);
            && (c in w.rm.refs ==> w.rm.refs[c] == LiveIn(w)(c))
            && (multiset(w.rm.closes)[c] == 1 <==> c in w.rm.refs && LiveIn(w)(c) == 0)
            && multiset(w.rm.closes)[c] <= 1 && w.rm.bare == []
  {
    BootInv();
    RunKeeps(Boot(), ops);
  }

  // ---- the tables themselves ----

  /** The counters in memory, and the close requests that went out. */
  class Counters {
    var refs: map<nat, nat>
    var closes: seq<nat>
    var bare: seq<u64>

    function View(): Remotes
      reads this
    {
      Remotes(refs, closes, bare)
    }

    constructor ()
      ensures View() == Remotes(map[], [], [])
    {
      refs, closes, bare := map[], [], [];
    }

    method CloneRemoteRefs(h: Handle)
      modifies this
      ensures View() == Copy(old(View()), h)
    {
      if h.remote.Some? && h.remote.value.refs.Some? {
        var c := h.remote.value.refs.value;
        if c in refs {
          refs := refs[c := refs[c] + 1];
        }
      }
    }

    method DropHandle(h: Handle)
      modifies this
      ensures View() == Drop(old(View()), h)
    {
      if h.remote.None? {
        return;
      }
      if h.remote.value.refs.None? {
        bare := bare + [h.remote.value.fd];
        return;
      }
      var c := h.remote.value.refs.value;
      if c in refs && refs[c] > 0 {
        var before := refs[c];
        refs := refs[c := before - 1];
        if before == 1 {
          closes := closes + [c];
        }
      }
    }
  }

  class FdTable {
    const entries: array<Option<Handle>>
    const flags: array<nat>

    ghost predicate Valid() {
      entries.Length == MAX_FDS && flags.Length == MAX_FDS
    }

    ghost function View(): (t: Table)
      requires Valid()
      reads entries, flags
      ensures Sized(t)
    {
      Table(entries[..], flags[..])
    }

    constructor ()
      ensures Valid() && fresh(entries) && fresh(flags) && View() == EmptyTable()
    {
      entries := new Option<Handle>[MAX_FDS](i => None);
      flags := new nat[MAX_FDS](i => 0);
    }

    method AllocFd(rm: Counters, h: Handle, cloexec: bool) returns (fd: Option<nat>)
      requires Valid()
      modifies entries, flags, rm
      ensures (View(), rm.View(), fd) == Alloc(old(View()), old(rm.View()), h, cloexec)
      ensures fd.None? <==> forall i :: 3 <= i < 256 ==> old(entries[i]).Some?
      ensures fd.Some? ==>
        && 3 <= fd.value < 256 && old(entries[fd.value]).None? && rm.View() == old(rm.View())
        && (forall i :: 3 <= i < fd.value ==> old(entries[i]).Some?)
        && entries[..] == old(entries[..])[fd.value := Some(h)]
        && flags[..] == old(flags[..])[fd.value := if cloexec then 1 else 0]
      ensures fd.None? ==> entries[..] == old(entries[..]) && flags[..] == old(flags[..])
    {
      var i := FD_BASE;
      while i < MAX_FDS && entries[i].Some?
        invariant FD_BASE <= i <= MAX_FDS && FirstFree(entries[..], FD_BASE) == FirstFree(entries[..], i)
      {
        i := i + 1;
      }
      if i == MAX_FDS {
        rm.DropHandle(h);
        return None;
      }
      entries[i] := Some(h);
      flags[i] := if cloexec then 1 else 0;
      return Some(i);
    }

    method CloseFd(rm: Counters, fd: nat) returns (closed: bool)
      requires Valid()
      modifies entries, flags, rm
      ensures (View(), rm.View(), closed) == Close(old(View()), old(rm.View()), fd)
      ensures closed <==> 3 <= fd < 256 && old(entries[fd]).Some?
      ensures if closed then entries[..] == old(entries[..])[fd := None] && flags[..] == old(flags[..])[fd := 0]
              else entries[..] == old(entries[..]) && flags[..] == old(flags[..])
    {
      if fd < FD_BASE || fd >= MAX_FDS || entries[fd].None? {
        return false;
      }
      var h := entries[fd].value;
      entries[fd] := None;
      flags[fd] := 0;
      rm.DropHandle(h);
      return true;
    }

    method CloseCloexecFds(rm: Counters)
      requires Valid()
      modifies entries, flags, rm
      ensures (View(), rm.View()) == CloseMarked(old(View()), old(rm.View()), MAX_FDS)
      ensures forall i :: 3 <= i < 256 ==>
        (entries[i].None? <==> old(entries[i]).None? || old(flags[i]) % 2 == 1)
      ensures forall i :: 0 <= i < 256 && entries[i].Some? ==>
        entries[i] == old(entries[i]) && flags[i] == old(flags[i])
    {
      ghost var t, r := View(), rm.View();
      CloseMarkedSlots(t, r, MAX_FDS);
      for i := FD_BASE to MAX_FDS
        invariant (View(), rm.View()) == CloseMarked(t, r, i)
      {
        if entries[i].Some? && Marked(flags[i]) {
          var h := entries[i].value;
          entries[i] := None;
          flags[i] := 0;
          rm.DropHandle(h);
        }
      }
    }

    method CloseEverything(rm: Counters)
      requires Valid()
      modifies entries, rm
      ensures (View(), rm.View()) == CloseAll(old(View()), old(rm.View()), MAX_FDS)
      ensures forall i :: 3 <= i < 256 ==> entries[i].None?
    {
      ghost var t, r := View(), rm.View();
      CloseAllSlots(t, r, MAX_FDS);
      for i := FD_BASE to MAX_FDS
        invariant (View(), rm.View()) == CloseAll(t, r, i)
      {
        if entries[i].Some? {
          var h := entries[i].value;
          entries[i] := None;
          rm.DropHandle(h);
        }
      }
    }

    method CloneForFork(rm: Counters) returns (child: FdTable)
      requires Valid()
      modifies rm
      ensures child.Valid() && fresh(child) && fresh(child.entries) && fresh(child.flags)
      ensures (child.View(), rm.View()) == Fork(View(), old(rm.View()), MAX_FDS)
      ensures forall i :: 3 <= i < 256 ==>
        child.entries[i] == entries[i] && child.flags[i] == if entries[i].Some? then flags[i] else 0
      ensures rm.closes == old(rm.closes) && rm.refs.Keys == old(rm.refs.Keys)
      ensures forall c :: c in rm.refs ==> rm.refs[c] == old(rm.refs)[c] + Sharing(entries[..], 256, c)
    {
      ghost var r := rm.View();
      ForkSlots(View(), r, MAX_FDS);
      ForkCounts(View(), r, MAX_FDS);
      child := new FdTable();
      for i := FD_BASE to MAX_FDS
        invariant child.Valid() && fresh(child.entries) && fresh(child.flags)
        invariant (child.View(), rm.View()) == Fork(View(), r, i)
      {
        if entries[i].Some? {
          var h := entries[i].value;
          rm.CloneRemoteRefs(h);
          child.entries[i] := Some(h);
          child.flags[i] := flags[i];
        }
      }
    }
  }

  /** What a duplicate is made of: the standard descriptors stand for the terminal. */
  function Original(t: Table, fd: nat, tty: Handle): Option<Handle>
    requires Sized(t)
  {
    if fd < FD_BASE then Some(tty) else Get(t, fd)
  }

  /** Duplicates a descriptor onto the lowest free one. A full table drops the copy again. */
  method Dup(t: FdTable, rm: Counters, fd: nat, tty: Handle) returns (r: Option<nat>)
    requires t.Valid() && tty.remote.None?
    modifies t.entries, t.flags, rm
    ensures var h := Original(old(t.View()), fd, tty);
      if h.None? then r.None? && t.View() == old(t.View()) && rm.View() == old(rm.View())
      else (t.View(), rm.View(), r) == Alloc(old(t.View()), Copy(old(rm.View()), h.value), h.value, false)
    ensures r.Some? ==>
      && 3 <= r.value < 256 && old(t.entries[r.value]).None? && fd < 256
      && t.entries[..] == old(t.entries[..])[r.value := if fd < 3 then Some(tty) else old(t.entries[fd])]
      && t.flags[..] == old(t.flags[..])[r.value := 0]
    ensures r.None? ==> t.View() == old(t.View())
  {
    if fd < FD_BASE {
      r := t.AllocFd(rm, tty, false);
      return;
    }
    if fd >= MAX_FDS || t.entries[fd].None? {
      return None;
    }
    var h := t.entries[fd].value;
    rm.CloneRemoteRefs(h);
    r := t.AllocFd(rm, h, false);
  }

  /** Duplicates a descriptor onto a given one. */
  method Dup2(t: FdTable, rm: Counters, fd: nat, target: nat, tty: Handle) returns (r: Option<nat>)
    requires t.Valid() && tty.remote.None?
    modifies t.entries, t.flags, rm
    ensures var h := Original(old(t.View()), fd, tty);
      if target < FD_BASE || target >= MAX_FDS || h.None? then
        r.None? && t.View() == old(t.View()) && rm.View() == old(rm.View())
      else if fd == target then r == Some(fd) && t.View() == old(t.View()) && rm.View() == old(rm.View())
      else r == Some(target)
           && (t.View(), rm.View()) == Replace(old(t.View()), Copy(old(rm.View()), h.value), h.value, target)
    ensures r.Some? && fd != target ==>
      && r.value == target && 3 <= target < 256 && fd < 256
      && t.entries[..] == old(t.entries[..])[target := if fd < 3 then Some(tty) else old(t.entries[fd])]
      && t.flags[..] == old(t.flags[..])[target := 0]
  {
    if target < FD_BASE || target >= MAX_FDS || fd >= MAX_FDS {
      return None;
    }
    var h := if fd < FD_BASE then Some(tty) else t.entries[fd];
    if h.None? {
      return None;
    }
    if fd == target {
      return Some(fd);
    }
    rm.CloneRemoteRefs(h.value);
    var _ := t.CloseFd(rm, target);
    t.entries[target] := h;
    t.flags[target] := 0;
    return Some(target);
  }

  /** A duplicate that found no room leaves every counter as it was. */
  lemma FullTableUndoesDup(rm: Remotes, live: Census, h: Handle)
    requires Balanced(rm, live) && Proper(Some(h)) && forall c :: Holds(Some(h), c) ==> live(c) > 0
    ensures Drop(Copy(rm, h), h) == rm
  {
  }
}
