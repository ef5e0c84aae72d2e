/** The physical frame allocator: a bump pointer over the boot memory map and a
    free list whose links are stored in the first word of the freed frames. */
module Frames {
  import opened Memory

  datatype MemoryType = Usable | Reserved | AcpiReclaimable | AcpiNvs | BadMemory
                      | BootloaderReclaimable | KernelStack | PageTable | Framebuffer

  datatype Region = Region(start: u64, len: u64, kind: MemoryType)

  /** The memory map of the machine: no region reaches past 52-bit physical memory. */
  type MemoryMap = rs: seq<Region> | forall r :: r in rs ==> r.start + r.len <= 0x10_0000_0000_0000

  predicate InUsable(r: Region, f: nat) {
    r.kind.Usable? && r.start <= f * 4096 < r.start + r.len
  }

  predicate IsUsable(rs: MemoryMap, f: nat) {
    exists r :: r in rs && InUsable(r, f)
  }

  function MaxFrame(rs: seq<Region>): nat {
    if rs == [] then 0 else
    var n, rest := (rs[0].start + rs[0].len) / 4096, MaxFrame(rs[1..]);
    if n > rest then n else rest
  }

  lemma {:induction false} UsableBound(rs: seq<Region>, r: Region, f: nat)
    requires r in rs && InUsable(r, f)
    ensures f <= MaxFrame(rs)
  {
    if r != rs[0] {
      UsableBound(rs[1..], r, f);
    }
  }

  lemma UsableIsFrameNo(rs: MemoryMap, f: nat)
    requires IsUsable(rs, f)
    ensures f < 0x100_0000_0000
    ensures f <= MaxFrame(rs)
  {
    var r :| r in rs && InUsable(r, f);
    UsableBound(rs, r, f);
  }

  // ---- allocator state and its specification ----

  /** `head` is the first free frame, 0 when the list is empty. */
  datatype Pool = Pool(mem: Mem, next: nat, head: FrameNo)

  /** The first usable frame at or after `f`. */
  function NextUsable(rs: MemoryMap, f: nat): (r: Option<nat>)
    ensures r.Some? ==> f <= r.value && IsUsable(rs, r.value)
    ensures forall g :: f <= g && IsUsable(rs, g) ==> r.Some? && r.value <= g
    decreases MaxFrame(rs) + 1 - f
  {
    if f > MaxFrame(rs) then
      assert forall g :: f <= g && IsUsable(rs, g) ==> false by {
        forall g | f <= g && IsUsable(rs, g) ensures false { UsableIsFrameNo(rs, g); }
      }
      None
    else if IsUsable(rs, f) then Some(f)
    else NextUsable(rs, f + 1)
  }

  function Allocate(rs: MemoryMap, off: u64, p: Pool): (Pool, Option<nat>) {
    if p.head != 0 && off != 0 then
      (Pool(SetEntry(p.mem, p.head, 0, ZERO_WORD), p.next, Entry(p.mem, p.head, 0).frame), Some(p.head))
    else
      match NextUsable(rs, p.next)
      case Some(f) => (p.(next := f + 1), Some(f))
      case None => (p, None)
  }

  function Deallocate(rs: MemoryMap, off: u64, p: Pool, f: nat): (Pool, bool) {
    if !IsUsable(rs, f) || off == 0 then (p, false)
    else
      UsableIsFrameNo(rs, f);
      (Pool(SetEntry(p.mem, f, 0, LinkWord(p.head)), p.next, f), true)
  }

  // ---- the free list in memory ----

  /** Following the links from `head` visits exactly `fs`, without repetition. */
  ghost predicate FreeList(m: Mem, head: nat, fs: seq<nat>)
    decreases fs
  {
    if fs == [] then head == 0
    else
      && head == fs[0] != 0
      && head !in fs[1..]
      && Entry(m, head, 0) == LinkWord(Entry(m, head, 0).frame)
      && FreeList(m, Entry(m, head, 0).frame, fs[1..])
  }

  ghost predicate Available(rs: MemoryMap, p: Pool, fs: seq<nat>, f: nat) {
    f in fs || (p.next <= f && IsUsable(rs, f))
  }

  ghost predicate Valid(rs: MemoryMap, off: u64, p: Pool, fs: seq<nat>) {
    && FreeList(p.mem, p.head, fs)
    && (forall f :: f in fs ==> f < p.next && IsUsable(rs, f))
    && (off == 0 ==> fs == [])
    && 0 < p.next
  }

  /** Writes to frames outside the list do not disturb it. */
  lemma {:induction false} FreeListFrame(m: Mem, m': Mem, head: nat, fs: seq<nat>)
    requires FreeList(m, head, fs)
    requires forall f :: f in fs ==> PageAt(m', f) == PageAt(m, f)
    ensures FreeList(m', head, fs)
    decreases fs
  {
    if fs != [] {
      assert fs[0] in fs;
      FreeListFrame(m, m', Entry(m, head, 0).frame, fs[1..]);
    }
  }

  lemma {:induction false} FreeListDistinct(m: Mem, head: nat, fs: seq<nat>)
    requires FreeList(m, head, fs)
    ensures forall i, j :: 0 <= i < j < |fs| ==> fs[i] != fs[j]
    ensures forall i :: 0 <= i < |fs| ==> fs[i] != 0
    decreases fs
  {
    if fs != [] {
      FreeListDistinct(m, Entry(m, head, 0).frame, fs[1..]);
      forall i, j | 0 <= i < j < |fs| ensures fs[i] != fs[j] {
        if i == 0 {
          assert fs[j] in fs[1..];
        } else {
          assert fs[i] == fs[1..][i - 1] && fs[j] == fs[1..][j - 1];
        }
      }
    }
  }

  /** Allocation hands out an available frame, and fails only when there is none. */
  lemma AllocateKeeps(rs: MemoryMap, off: u64, p: Pool, fs: seq<nat>)
    requires Valid(rs, off, p, fs)
    ensures var (p', r) := Allocate(rs, off, p);
            var fs' := if fs == [] then [] else fs[1..];
            && Valid(rs, off, p', fs')
            && (r.None? ==> p' == p && forall f :: !Available(rs, p, fs, f))
            && (r.Some? ==>
                 && Available(rs, p, fs, r.value) && r.value != 0 && IsUsable(rs, r.value)
                 && (forall f :: Available(rs, p', fs', f) <==> Available(rs, p, fs, f) && f != r.value)
                 && (forall f :: f != r.value ==> PageAt(p'.mem, f) == PageAt(p.mem, f)))
  {
    var (p', r) := Allocate(rs, off, p);
    var fs' := if fs == [] then [] else fs[1..];
    if fs == [] {
      if r.Some? {
        UsableIsFrameNo(rs, r.value);
      }
    } else {
      FreeListDistinct(p.mem, p.head, fs);
      assert r == Some(fs[0]) && fs' == fs[1..] && fs[0] !in fs';
      forall f ensures f in fs <==> f == fs[0] || f in fs' {}
      assert forall f :: Available(rs, p', fs', f) <==> Available(rs, p, fs, f) && f != fs[0];
      FreeListFrame(p.mem, p'.mem, p'.head, fs');
    }
  }

  /** Freeing a frame that is not available makes exactly that frame available. */
  lemma DeallocateKeeps(rs: MemoryMap, off: u64, p: Pool, fs: seq<nat>, f: nat)
    requires Valid(rs, off, p, fs)
    requires IsUsable(rs, f) ==> f != 0 && !Available(rs, p, fs, f)
    ensures var (p', ok) := Deallocate(rs, off, p, f);
            var fs' := if ok then [f] + fs else fs;
            && ok == (IsUsable(rs, f) && off != 0)
            && Valid(rs, off, p', fs')
            && (forall g :: Available(rs, p', fs', g) <==> Available(rs, p, fs, g) || (ok && g == f))
            && (forall g :: g != f ==> PageAt(p'.mem, g) == PageAt(p.mem, g))
  {
    var (p', ok) := Deallocate(rs, off, p, f);
    if ok {
      UsableIsFrameNo(rs, f);
      FreeListFrame(p.mem, p'.mem, p.head, fs);
      assert ([f] + fs)[1..] == fs;
    }
  }

  // ---- runs ----

  /** A holder of a frame may overwrite it at any time. */
  datatype Op = Take | Give(frame: nat) | Scribble(frame: nat, page: Page)

  /** The allocator together with who holds what. */
  datatype History = History(pool: Pool, free: seq<nat>, held: set<nat>)

  ghost predicate Legal(h: History, op: Op) {
    op.Take? || op.frame in h.held
  }

  ghost function Step(rs: MemoryMap, off: u64, h: History, op: Op): History {
    match op
    case Take =>
      var (p, r) := Allocate(rs, off, h.pool);
      History(p, if h.free == [] then [] else h.free[1..], if r.Some? then h.held + {r.value} else h.held)
    case Give(f) =>
      var (p, ok) := Deallocate(rs, off, h.pool, f);
      History(p, if ok then [f] + h.free else h.free, if ok then h.held - {f} else h.held)
    case Scribble(f, page) =>
      h.(pool := h.pool.(mem := h.pool.mem[f := page]))
  }

  ghost predicate LegalRun(rs: MemoryMap, off: u64, h: History, ops: seq<Op>)
    decreases |ops|
  {
    ops == [] || (Legal(h, ops[0]) && LegalRun(rs, off, Step(rs, off, h, ops[0]), ops[1..]))
  }

  ghost function Run(rs: MemoryMap, off: u64, h: History, ops: seq<Op>): History
    decreases |ops|
  {
    if ops == [] then h else Run(rs, off, Step(rs, off, h, ops[0]), ops[1..])
  }

  const FIRST_FRAME := 0x100000 / 4096

  ghost function Boot(mem: Mem): History {
    History(Pool(mem, FIRST_FRAME, 0), [], {})
  }

  /** Every usable frame from 1 MiB up is in exactly one place. */
  ghost predicate Conserved(rs: MemoryMap, h: History) {
    && FIRST_FRAME <= h.pool.next
    && (forall f :: f in h.held ==> f < h.pool.next && f !in h.free)
    && (forall f :: FIRST_FRAME <= f < h.pool.next && IsUsable(rs, f) <==> f in h.held || f in h.free)
  }

  lemma StepKeeps(rs: MemoryMap, off: u64, h: History, op: Op)
    requires Valid(rs, off, h.pool, h.free) && Conserved(rs, h)
    requires Legal(h, op)
    ensures var h' := Step(rs, off, h, op); Valid(rs, off, h'.pool, h'.free) && Conserved(rs, h')
  {
    match op
    case Take => AllocateKeeps(rs, off, h.pool, h.free);
    case Give(f) => DeallocateKeeps(rs, off, h.pool, h.free, f);
    case Scribble(f, page) => FreeListFrame(h.pool.mem, h.pool.mem[f := page], h.pool.head, h.free);
  }

  lemma {:induction false} RunKeeps(rs: MemoryMap, off: u64, h: History, ops: seq<Op>)
    requires Valid(rs, off, h.pool, h.free) && Conserved(rs, h)
    requires LegalRun(rs, off, h, ops)
    ensures var h' := Run(rs, off, h, ops); Valid(rs, off, h'.pool, h'.free) && Conserved(rs, h')
    decreases |ops|
  {
    if ops != [] {
      StepKeeps(rs, off, h, ops[0]);
      RunKeeps(rs, off, Step(rs, off, h, ops[0]), ops[1..]);
    }
  }

  /** After any legal run from boot: the linked list is free of cycles and duplicates,
      every usable frame above 1 MiB is held, listed or not yet bumped and never two of
      these, the next allocation hands out a usable frame above 1 MiB that nobody holds,
      and it fails only when every such frame is held. */
  lemma AllocatorSafety(rs: MemoryMap, off: u64, mem: Mem, ops: seq<Op>)
    requires LegalRun(rs, off, Boot(mem), ops)
    ensures var h := Run(rs, off, Boot(mem), ops);
            && FreeList(h.pool.mem, h.pool.head, h.free)
            && (forall i, j :: 0 <= i < j < |h.free| ==> h.free[i] != h.free[j])
            && Conserved(rs, h)
            && var r := Allocate(rs, off, h.pool).1;
               && (r.Some? ==> r.value !in h.held && IsUsable(rs, r.value) && FIRST_FRAME <= r.value)
               && (r.None? <==> forall f :: FIRST_FRAME <= f && IsUsable(rs, f) ==> f in h.held)
  {
    var h := Run(rs, off, Boot(mem), ops);
    RunKeeps(rs, off, Boot(mem), ops);
    FreeListDistinct(h.pool.mem, h.pool.head, h.free);
    AllocateKeeps(rs, off, h.pool, h.free);
  }

  /** On a page-aligned memory map a usable frame is usable to its last byte. */
  lemma WholeFrameUsable(rs: MemoryMap, f: nat, o: nat)
    requires forall r :: r in rs ==> r.start % 4096 == 0 && r.len % 4096 == 0
    requires IsUsable(rs, f) && o < 4096
    ensures exists r :: r in rs && r.kind.Usable? && r.start <= f * 4096 + o < r.start + r.len
  {
  }

  /** All 4096 bytes of the frame lie in the region. */
  ghost predicate Contains(r: Region, f: nat) {
    r.start <= f * 4096 && f * 4096 + 4096 <= r.start + r.len
  }

  ghost predicate WhollyUsable(rs: MemoryMap, f: nat) {
    exists r :: r in rs && r.kind == Usable && Contains(r, f)
  }

  /** A frame all of whose bytes lie in a usable region is usable; on a page-aligned map no other
      frame is. */
  lemma UsableIsWhole(rs: MemoryMap, f: nat)
    ensures WhollyUsable(rs, f) ==> IsUsable(rs, f)
    ensures (forall r :: r in rs ==> r.start % 4096 == 0 && r.len % 4096 == 0) && IsUsable(rs, f) ==>
      WhollyUsable(rs, f)
  {
    if WhollyUsable(rs, f) {
      var r :| r in rs && r.kind == Usable && Contains(r, f);
      assert InUsable(r, f);
    }
    if (forall r :: r in rs ==> r.start % 4096 == 0 && r.len % 4096 == 0) && IsUsable(rs, f) {
      var r :| r in rs && InUsable(r, f);
      AlignedContains(r, f);
    }
  }

  lemma AlignedContains(r: Region, f: nat)
    requires r.start % 4096 == 0 && r.len % 4096 == 0 && InUsable(r, f)
    ensures Contains(r, f)
  {
  }

  /** After any run from boot on a page-aligned memory map, the next allocation gives a frame that
      lies wholly in a usable region and is not held, and fails exactly when every such frame from
      1 MiB on is held. */
  lemma AllocatorSafetyInBytes(rs: MemoryMap, off: u64, mem: Mem, ops: seq<Op>)
    requires LegalRun(rs, off, Boot(mem), ops)
    requires forall r :: r in rs ==> r.start % 4096 == 0 && r.len % 4096 == 0
    ensures var h := Run(rs, off, Boot(mem), ops);
            var r := Allocate(rs, off, h.pool).1;
            && (r.Some? ==> r.value !in h.held && WhollyUsable(rs, r.value) && 0x10_0000 <= r.value * 4096)
            && (r.None? <==> forall f :: 0x10_0000 <= f * 4096 && WhollyUsable(rs, f) ==> f in h.held)
  {
    AllocatorSafety(rs, off, mem, ops);
    forall f ensures WhollyUsable(rs, f) <==> IsUsable(rs, f) {
      UsableIsWhole(rs, f);
    }
  }

  // ---- the allocator object ----

  /** The memory of the machine and the statics of the frame allocator. */
  class Machine {
    const regions: MemoryMap
    const physOffset: u64
    const layout: WordLayout
    var mem: Mem
    var nextFrame: nat
    var freeListHead: FrameNo
    /** The frames on the free list, in list order. */
    ghost var free: seq<nat>
    /** Every frame the allocator may still hand out. */
    ghost var avail: iset<nat>

    function State(): Pool
      reads this
    {
      Pool(mem, nextFrame, freeListHead)
    }

    ghost predicate Ok()
      reads this
    {
      && Valid(regions, physOffset, State(), free)
      && forall f {:trigger Available(regions, State(), free, f)} ::
           f in avail <==> Available(regions, State(), free, f)
    }

    constructor (memoryMap: MemoryMap, offset: u64, bytes: WordLayout, contents: Mem)
      ensures regions == memoryMap && physOffset == offset && layout == bytes
      ensures State() == Boot(contents).pool && free == [] && Ok()
    {
      regions, physOffset, layout := memoryMap, offset, bytes;
      mem, nextFrame, freeListHead, free := contents, 0x100000 / 4096, 0, [];
      avail := iset f | Available(memoryMap, Boot(contents).pool, [], f);
    }

    // Accesses through the direct map. None may touch a frame the allocator owns.

    method Load(f: nat, i: nat) returns (w: Word)
      requires f !in avail && i < 512
      ensures w == Entry(mem, f, i)
    {
      w := Entry(mem, f, i);
    }

    method Store(f: nat, i: nat, w: Word)
      requires Ok() && f !in avail && i < 512
      modifies this`mem
      ensures Ok() && mem == SetEntry(old(mem), f, i, w)
    {
      Overwrite(f, SetEntry(mem, f, i, w));
    }

    method Zero(f: nat)
      requires Ok() && f !in avail
      modifies this`mem
      ensures Ok() && mem == old(mem)[f := ZERO_PAGE]
    {
      Overwrite(f, mem[f := ZERO_PAGE]);
    }

    method Overwrite(f: nat, contents: Mem)
      requires Ok() && f !in avail
      requires forall g :: g != f ==> PageAt(contents, g) == PageAt(mem, g)
      modifies this`mem
      ensures Ok() && mem == contents
    {
      assert !Available(regions, State(), free, f);
      FreeListFrame(mem, contents, freeListHead, free);
      ghost var before := State();
      mem := contents;
      assert forall g :: Available(regions, State(), free, g) <==> Available(regions, before, free, g);
    }

    method AllocateFrame() returns (r: Option<nat>)
      requires Ok()
      modifies this
      ensures Ok()
      ensures (State(), r) == Allocate(regions, physOffset, old(State()))
      ensures free == if old(free) == [] then [] else old(free)[1..]
      ensures r.None? ==> State() == old(State()) && avail == old(avail) == iset{}
      ensures r.Some? ==> r.value in old(avail) && r.value != 0 && IsUsable(regions, r.value)
      ensures r.Some? ==> avail == old(avail) - iset{r.value}
      ensures r.Some? ==> forall f :: f != r.value ==> PageAt(mem, f) == PageAt(old(mem), f)
    {
      AllocateKeeps(regions, physOffset, State(), free);
      ghost var before, listed := State(), free;
      r := Next();
      free := if listed == [] then [] else listed[1..];
      if r.Some? {
        avail := avail - iset{r.value};
      }
      forall f ensures f in avail <==> Available(regions, State(), free, f) {
        assert f in old(avail) <==> Available(regions, before, listed, f);
      }
    }

    /** A frame off the free list, else the first usable frame the bump pointer meets. */
    method Next() returns (r: Option<nat>)
      modifies this`mem, this`nextFrame, this`freeListHead
      ensures (State(), r) == Allocate(regions, physOffset, old(State()))
    {
      if freeListHead != 0 && physOffset != 0 {
        var phys := freeListHead;
        freeListHead := Entry(mem, phys, 0).frame;
        mem := SetEntry(mem, phys, 0, ZERO_WORD);
        return Some(phys);
      }
      var f := nextFrame;
      var maxFrame: int := MaxFrame(regions);
      while f <= maxFrame
        invariant State() == old(State())
        invariant nextFrame <= f
        invariant NextUsable(regions, nextFrame) == NextUsable(regions, f)
        decreases maxFrame + 1 - f
      {
        var usable, i := false, 0;
        while i < |regions| && !usable
          invariant i <= |regions|
          invariant usable <==> exists j :: 0 <= j < i && InUsable(regions[j], f)
        {
          usable := InUsable(regions[i], f);
          i := i + 1;
        }
        assert usable <==> IsUsable(regions, f);
        if usable {
          nextFrame := f + 1;
          return Some(f);
        }
        f := f + 1;
      }
      return None;
    }

    method DeallocateFrame(f: nat) returns (ok: bool)
      requires Ok()
      requires IsUsable(regions, f) ==> f != 0 && f !in avail
      modifies this
      ensures Ok()
      ensures (State(), ok) == Deallocate(regions, physOffset, old(State()), f)
      ensures ok == (IsUsable(regions, f) && physOffset != 0)
      ensures free == if ok then [f] + old(free) else old(free)
      ensures avail == if ok then old(avail) + iset{f} else old(avail)
      ensures forall g :: g != f ==> PageAt(mem, g) == PageAt(old(mem), g)
    {
      assert f in avail <==> Available(regions, State(), free, f);
      DeallocateKeeps(regions, physOffset, State(), free, f);
      if !IsUsable(regions, f) || physOffset == 0 {
        return false;
      }
      UsableIsFrameNo(regions, f);
      mem := SetEntry(mem, f, 0, LinkWord(freeListHead));
      freeListHead := f;
      free := [f] + free;
      avail := avail + iset{f};
      forall g ensures g in avail <==> Available(regions, State(), free, g) {
        assert g in old(avail) <==> Available(regions, old(State()), old(free), g);
      }
      return true;
    }
  }

  lemma AllUsable(k: Machine)
    requires k.Ok()
    ensures forall g :: g in k.avail ==> IsUsable(k.regions, g)
  {
    forall g | g in k.avail ensures IsUsable(k.regions, g) {
      assert Available(k.regions, k.State(), k.free, g);
    }
  }
}
