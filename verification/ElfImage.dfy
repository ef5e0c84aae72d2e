/** From the bytes of an ELF file to what the user finds at each address. */
module ElfImage {
  import opened Memory
  import opened Bytes
  import opened Frames
  import opened PageTables
  import opened Mapping
  import opened Segments
  import opened UserCopy
  import opened Loader

  // ---- what the bytes of the file say ----

  /** `h` is the program header at `at`, as the ELF-64 format lays it out. */
  ghost predicate IsPhdr(file: seq<byte>, at: nat, h: Phdr) {
    && at + 56 <= |file|
    && h.kind == FromLe(file[at..at + 4]) && h.flags == FromLe(file[at + 4..at + 8])
    && h.offset == FromLe(file[at + 8..at + 16]) && h.vaddr == FromLe(file[at + 16..at + 24])
    && h.filesz == FromLe(file[at + 32..at + 40]) && h.memsz == FromLe(file[at + 40..at + 48])
  }

  /** The program headers of the file. */
  ghost predicate AreHeaders(file: seq<byte>, phoff: nat, hs: seq<Phdr>) {
    forall i :: 0 <= i < |hs| ==> IsPhdr(file, phoff + 56 * i, hs[i])
  }

  /** A header of something to load. */
  predicate Loads(h: Phdr) { h.kind == 1 && h.memsz > 0 }

  predicate MayWrite(h: Phdr) { h.flags / 2 % 2 == 1 }

  predicate MayExecute(h: Phdr) { h.flags % 2 == 1 }

  function Start(h: Phdr, bias: nat): nat { (h.vaddr + bias) % 0x1_0000_0000_0000_0000 }

  /** Byte `k` of what the header asks for: from the file, then zeros. */
  function FileByte(file: seq<byte>, h: Phdr, k: nat): byte {
    if k < h.filesz && h.offset + k < |file| then file[h.offset + k] else 0
  }

  predicate Holds(h: Phdr, bias: nat, a: nat) {
    Loads(h) && Start(h, bias) <= a < Start(h, bias) + h.memsz
  }

  /** Page number `n` has an address that the header asks for. */
  ghost predicate Reaches(h: Phdr, bias: nat, n: nat) {
    exists a: nat :: Holds(h, bias, a) && a / 4096 == n
  }

  ghost predicate AnyReaches(hs: seq<Phdr>, bias: nat, n: nat) {
    exists i :: 0 <= i < |hs| && Reaches(hs[i], bias, n)
  }

  ghost predicate AnyHolds(hs: seq<Phdr>, bias: nat, a: nat) {
    exists i :: 0 <= i < |hs| && Holds(hs[i], bias, a)
  }

  /** No two headers ask for the same address. */
  ghost predicate Apart(hs: seq<Phdr>, bias: nat) {
    forall i, j, a: nat :: 0 <= i < j < |hs| && Holds(hs[i], bias, a) ==> !Holds(hs[j], bias, a)
  }

  // ---- the segments are what the bytes say ----

  /** `s` is the segment that the header asks for. */
  ghost predicate IsSegment(file: seq<byte>, h: Phdr, bias: nat, s: Segment) {
    && Loads(h) && s.vaddr == Start(h, bias) && s.memsz == h.memsz
    && |s.file| == h.filesz <= h.memsz && h.offset + h.filesz <= |file|
    && (forall k :: 0 <= k < h.filesz ==> s.file[k] == FileByte(file, h, k))
    && s.writable == MayWrite(h) && s.executable == MayExecute(h)
  }

  /** What is refused, and with which error: a file part larger than the memory part or past the
      end of the file, and both rights at once. */
  lemma HeaderVerdict(file: seq<byte>, phoff: nat, i: nat, bias: u64, h: Phdr)
    requires IsPhdr(file, phoff + 56 * i, h) && phoff + 56 * i < U64_LIMIT
    ensures var r := Header(file, phoff, i, bias);
            && (r == Ok(None) <==> !Loads(h))
            && (r == Err(InvalidAddress) <==>
                  Loads(h) && (h.filesz > h.memsz || h.offset + h.filesz >= U64_LIMIT || h.offset + h.filesz > |file|))
            && (r == Err(PermissionDenied) <==>
                  && Loads(h) && h.filesz <= h.memsz && h.offset + h.filesz < U64_LIMIT && h.offset + h.filesz <= |file|
                  && MayWrite(h) && MayExecute(h))
            && (r.Err? ==> r.error == InvalidAddress || r.error == PermissionDenied)
            && (r.Ok? && r.value.Some? ==> IsSegment(file, h, bias, r.value.value))
  {
    var at := phoff + i * 56;
    assert ReadPhdr(file, at) == Ok(h);
  }

  /** A header is missing exactly when the file ends before it does. */
  lemma HeaderMissing(file: seq<byte>, phoff: nat, i: nat, bias: u64)
    ensures Header(file, phoff, i, bias) == Err(InvalidParam) <==>
      phoff + 56 * i + 56 > |file| || phoff + 56 * i >= U64_LIMIT
  {
  }

  /** How many of the first `i` headers load something. */
  ghost function Rank(hs: seq<Phdr>, i: nat): nat
    requires i <= |hs|
  {
    if i == 0 then 0 else Rank(hs, i - 1) + if Loads(hs[i - 1]) then 1 else 0
  }

  /** `segs` are the segments of the headers, in order. */
  ghost predicate AreSegments(file: seq<byte>, hs: seq<Phdr>, bias: nat, segs: seq<Segment>) {
    && |segs| == Rank(hs, |hs|)
    && forall i :: 0 <= i < |hs| && Loads(hs[i]) ==>
         Rank(hs, i) < |segs| && IsSegment(file, hs[i], bias, segs[Rank(hs, i)])
  }

  lemma {:induction false} RankGrows(hs: seq<Phdr>, i: nat, j: nat)
    requires i <= j <= |hs|
    ensures Rank(hs, i) <= Rank(hs, j)
    ensures i < j && Loads(hs[i]) ==> Rank(hs, i) < Rank(hs, j)
    decreases j
  {
    if i < j {
      RankGrows(hs, i, j - 1);
    }
  }

  lemma {:induction false} RankPrefix(hs: seq<Phdr>, n: nat, i: nat)
    requires i <= n <= |hs|
    ensures Rank(hs[..n], i) == Rank(hs, i)
    decreases i
  {
    if i > 0 {
      RankPrefix(hs, n, i - 1);
    }
  }

  /** Every place among the segments is that of a header. */
  lemma {:induction false} RankedBy(hs: seq<Phdr>, n: nat, c: nat) returns (i: nat)
    requires n <= |hs| && c < Rank(hs, n)
    ensures i < n && Loads(hs[i]) && Rank(hs, i) == c
    decreases n
  {
    if c < Rank(hs, n - 1) {
      i := RankedBy(hs, n - 1, c);
    } else {
      i := n - 1;
    }
  }

  /** The program that the loader follows is the segments of the headers. */
  lemma {:induction false} ProgramIsHeaders(file: seq<byte>, phoff: nat, hs: seq<Phdr>, n: nat, bias: u64)
    requires n <= |hs| && AreHeaders(file, phoff, hs) && Program(file, phoff, n, bias).Ok?
    ensures AreSegments(file, hs[..n], bias, Program(file, phoff, n, bias).value)
    decreases n
  {
    if n > 0 {
      var last := n - 1;
      var before := Program(file, phoff, last, bias).value;
      ProgramIsHeaders(file, phoff, hs, last, bias);
      var s := HeaderSegment(file, phoff, hs, last, bias);
      SegmentsSnoc(file, hs, last, n, bias, before, s);
    }
  }

  lemma HeaderSegment(file: seq<byte>, phoff: nat, hs: seq<Phdr>, i: nat, bias: u64) returns (s: Option<Segment>)
    requires i < |hs| && AreHeaders(file, phoff, hs) && Header(file, phoff, i, bias).Ok?
    ensures s == Header(file, phoff, i, bias).value
    ensures if Loads(hs[i]) then s.Some? && IsSegment(file, hs[i], bias, s.value) else s.None?
  {
    s := Header(file, phoff, i, bias).value;
    HeaderMissing(file, phoff, i, bias);
    assert IsPhdr(file, phoff + 56 * i, hs[i]) == true;
    HeaderVerdict(file, phoff, i, bias, hs[i]);
  }

  lemma SegmentsSnoc(file: seq<byte>, hs: seq<Phdr>, n: nat, next: nat, bias: nat, segs: seq<Segment>,
                     s: Option<Segment>)
    requires n < |hs| && next == n + 1 && AreSegments(file, hs[..n], bias, segs)
    requires if Loads(hs[n]) then s.Some? && IsSegment(file, hs[n], bias, s.value) else s.None?
    ensures AreSegments(file, hs[..next], bias, if s.Some? then segs + [s.value] else segs)
  {
    var before, after := hs[..n], hs[..next];
    var all := if s.Some? then segs + [s.value] else segs;
    RankPrefix(hs, n, n);
    RankPrefix(hs, n + 1, n);
    RankPrefix(hs, n + 1, n + 1);
    forall i | 0 <= i < n + 1 && Loads(after[i])
      ensures Rank(after, i) < |all| && IsSegment(file, after[i], bias, all[Rank(after, i)])
    {
      RankPrefix(hs, n + 1, i);
      if i < n {
        RankPrefix(hs, n, i);
        assert before[i] == after[i];
      }
    }
  }

  lemma TouchesReaches(file: seq<byte>, h: Phdr, bias: nat, s: Segment, n: nat)
    requires IsSegment(file, h, bias, s)
    ensures Touches(s, n) <==> Reaches(h, bias, n)
  {
    if Touches(s, n) {
      var a := if n * 4096 < s.vaddr then s.vaddr else n * 4096;
      assert Holds(h, bias, a) && a / 4096 == n;
    }
  }

  // ---- from segments back to headers ----

  lemma TouchedIsReached(file: seq<byte>, hs: seq<Phdr>, bias: nat, segs: seq<Segment>, n: nat)
    requires AreSegments(file, hs, bias, segs)
    ensures Touched(segs, n) <==> AnyReaches(hs, bias, n)
  {
    if Touched(segs, n) {
      var c :| 0 <= c < |segs| && Touches(segs[c], n);
      var i := RankedBy(hs, |hs|, c);
      TouchesReaches(file, hs[i], bias, segs[c], n);
    }
    if AnyReaches(hs, bias, n) {
      var i :| 0 <= i < |hs| && Reaches(hs[i], bias, n);
      TouchesReaches(file, hs[i], bias, segs[Rank(hs, i)], n);
    }
  }

  lemma WithinIsHeld(file: seq<byte>, hs: seq<Phdr>, bias: nat, segs: seq<Segment>, a: nat)
    requires AreSegments(file, hs, bias, segs) && !AnyHolds(hs, bias, a)
    ensures forall s :: s in segs ==> !Within(s, a)
  {
    forall s | s in segs ensures !Within(s, a) {
      var c :| 0 <= c < |segs| && segs[c] == s;
      var i := RankedBy(hs, |hs|, c);
      assert !Holds(hs[i], bias, a);
    }
  }

  lemma ApartIsDisjoint(file: seq<byte>, hs: seq<Phdr>, bias: nat, segs: seq<Segment>)
    requires AreSegments(file, hs, bias, segs) && Apart(hs, bias)
    ensures Disjoint(segs)
  {
    forall c, d, a: nat | 0 <= c < d < |segs| && Within(segs[c], a) ensures !Within(segs[d], a) {
      var i := RankedBy(hs, |hs|, c);
      var j := RankedBy(hs, |hs|, d);
      if j < i {
        RankGrows(hs, j, i);
      }
      assert Holds(hs[i], bias, a);
    }
  }

  // ---- what the user finds ----

  /** What the file asks for at address `a`: its bytes and the zeros after them, zeros in the rest
      of the pages reached, and nothing elsewhere. */
  ghost predicate Expected(file: seq<byte>, hs: seq<Phdr>, bias: nat, a: nat, b: Option<byte>) {
    && (forall i :: 0 <= i < |hs| && Holds(hs[i], bias, a) ==> b == Some(FileByte(file, hs[i], a - Start(hs[i], bias))))
    && (AnyReaches(hs, bias, a / 4096) && !AnyHolds(hs, bias, a) ==> b == Some(0))
    && (!AnyReaches(hs, bias, a / 4096) ==> b == None)
  }

  lemma AskedIsExpected(file: seq<byte>, hs: seq<Phdr>, bias: nat, segs: seq<Segment>, a: nat, b: Option<byte>)
    requires AreSegments(file, hs, bias, segs) && Asked(segs, a, b)
    ensures Expected(file, hs, bias, a, b)
  {
    TouchedIsReached(file, hs, bias, segs, a / 4096);
    if !AnyHolds(hs, bias, a) {
      WithinIsHeld(file, hs, bias, segs, a);
    }
    forall i | 0 <= i < |hs| && Holds(hs[i], bias, a) ensures b == Some(FileByte(file, hs[i], a - Start(hs[i], bias))) {
      HeldByte(file, hs[i], bias, segs[Rank(hs, i)], a);
      assert Within(segs[Rank(hs, i)], a);
    }
  }

  lemma HeldByte(file: seq<byte>, h: Phdr, bias: nat, s: Segment, a: nat)
    requires IsSegment(file, h, bias, s) && Holds(h, bias, a)
    ensures Within(s, a) && SegmentByte(s, a, 0) == FileByte(file, h, a - Start(h, bias))
  {
  }

  /** Up to the end of user space the user reads what the file asks for, and the user's pages of
      the whole space hold it. */
  ghost predicate Shown(l: WordLayout, m: Mem, off: u64, table: u64, file: seq<byte>, hs: seq<Phdr>, bias: nat) {
    && (forall a :: 0 <= a < 0x1_0000_0000_0000 ==> Expected(file, hs, bias, a, UserByte(l, m, off, table / 4096, a)))
    && (forall a :: 0 <= a <= USER_SPACE_END ==> Expected(file, hs, bias, a, ReadByUser(l, m, off, table, a)))
  }

  lemma LoadedIsShown(l: WordLayout, m: Mem, now: Mem, off: u64, table: u64, segs: seq<Segment>,
                      file: seq<byte>, hs: seq<Phdr>, bias: nat)
    requires Loaded(l, m, now, off, table / 4096, segs) && NoUserPages(m, off, table / 4096) && table % 4096 == 0
    requires AreSegments(file, hs, bias, segs) && Disjoint(segs) && forall s :: s in segs ==> WellFormed(s)
    ensures Shown(l, now, off, table, file, hs, bias)
  {
    var root := table / 4096;
    forall a | 0 <= a < 0x1_0000_0000_0000 ensures Expected(file, hs, bias, a, UserByte(l, now, off, root, a)) == true {
      ProgramImage(l, m, now, off, root, segs, a);
      AskedIsExpected(file, hs, bias, segs, a, UserByte(l, now, off, root, a));
    }
    forall a | 0 <= a <= USER_SPACE_END ensures Expected(file, hs, bias, a, ReadByUser(l, now, off, table, a)) == true {
      ProgramForUser(l, m, now, off, table, segs, a);
      ProgramImage(l, m, now, off, root, segs, a);
      AskedIsExpected(file, hs, bias, segs, a, UserByte(l, now, off, root, a));
    }
  }

  // ---- with which rights ----

  /** Header `i` reaches page number `n` and no later one does. */
  ghost predicate LastToReach(hs: seq<Phdr>, bias: nat, i: nat, n: nat)
    requires i < |hs|
  {
    Reaches(hs[i], bias, n) && forall j :: i < j < |hs| ==> !Reaches(hs[j], bias, n)
  }

  ghost predicate AnyExecutes(hs: seq<Phdr>, bias: nat, n: nat) {
    exists i :: 0 <= i < |hs| && Reaches(hs[i], bias, n) && MayExecute(hs[i])
  }

  /** The rights of page number `n`, which header `h` is the last to reach: writable as that header
      says, executable if any header that reaches it says so or it was before. */
  ghost predicate RightsShown(m: Mem, now: Mem, off: u64, root: nat, hs: seq<Phdr>, bias: nat, h: Phdr, n: nat) {
    var before, after := Walk(m, off, root, PageNo(n)), Walk(now, off, root, PageNo(n));
    && after.Some? && after.value.level == 1 && after.value.word.user
    && after.value.word.writable == MayWrite(h)
    && (after.value.word.nx <==> !AnyExecutes(hs, bias, n) && (before.Some? ==> before.value.word.nx))
  }

  ghost predicate AllRightsShown(m: Mem, now: Mem, off: u64, root: nat, hs: seq<Phdr>, bias: nat) {
    forall i, n :: 0 <= i < |hs| && LastToReach(hs, bias, i, n) ==>
      n < 0x10_0000_0000 && RightsShown(m, now, off, root, hs, bias, hs[i], n)
  }

  lemma SomeIsAny(file: seq<byte>, hs: seq<Phdr>, bias: nat, segs: seq<Segment>, n: nat)
    requires AreSegments(file, hs, bias, segs)
    ensures SomeExecutable(segs, n) <==> AnyExecutes(hs, bias, n)
  {
    if SomeExecutable(segs, n) {
      var c :| 0 <= c < |segs| && Touches(segs[c], n) && segs[c].executable;
      var i := RankedBy(hs, |hs|, c);
      TouchesReaches(file, hs[i], bias, segs[c], n);
    }
    if AnyExecutes(hs, bias, n) {
      var i :| 0 <= i < |hs| && Reaches(hs[i], bias, n) && MayExecute(hs[i]);
      TouchesReaches(file, hs[i], bias, segs[Rank(hs, i)], n);
    }
  }

  lemma LastIsLast(file: seq<byte>, hs: seq<Phdr>, bias: nat, segs: seq<Segment>, i: nat, n: nat)
    requires AreSegments(file, hs, bias, segs) && i < |hs| && LastToReach(hs, bias, i, n)
    ensures LastWritable(segs, n) == MayWrite(hs[i]) && Rank(hs, i) < |segs| && Touches(segs[Rank(hs, i)], n)
  {
    var c := Rank(hs, i);
    TouchesReaches(file, hs[i], bias, segs[c], n);
    forall d | c < d < |segs| ensures !Touches(segs[d], n) {
      var j := RankedBy(hs, |hs|, d);
      TouchesReaches(file, hs[j], bias, segs[d], n);
      if j <= i {
        RankGrows(hs, j, i);
      }
    }
  }

  lemma LoadedRights(l: WordLayout, m: Mem, now: Mem, off: u64, root: nat, segs: seq<Segment>,
                     file: seq<byte>, hs: seq<Phdr>, bias: nat)
    requires Loaded(l, m, now, off, root, segs) && AreSegments(file, hs, bias, segs)
    requires forall s :: s in segs ==> Fits(s)
    ensures AllRightsShown(m, now, off, root, hs, bias)
  {
    forall i, n | 0 <= i < |hs| && LastToReach(hs, bias, i, n)
      ensures n < 0x10_0000_0000 && RightsShown(m, now, off, root, hs, bias, hs[i], n)
    {
      LastIsLast(file, hs, bias, segs, i, n);
      SomeIsAny(file, hs, bias, segs, n);
      assert segs[Rank(hs, i)] in segs;
      assert PageLoaded(l, m, now, off, root, segs, n, PageNo(n));
    }
  }

  /** Loads a file into a table without user pages. If no two of its headers ask for one address,
      the user then reads the file's bytes over zeros; the pages have the rights that the headers
      ask for; and write xor execute holds exactly when the load unmasked no executable page. */
  method LoadImage(k: Machine, table: u64, file: seq<byte>, phoff: u64, phnum: nat, bias: u64,
                   ghost own: map<nat, Path>, ghost data: map<nat, Vpn>)
    returns (r: Result<()>, ghost own': map<nat, Path>, ghost data': map<nat, Vpn>, ghost hs: seq<Phdr>)
    requires table % 4096 == 0 && Table(k, table / 4096, own, data) && Covers(k)
    requires Loadable(k.mem, own, UNTRACKED, file, phoff, phnum, bias) && NoUserPages(k.mem, k.physOffset, table / 4096)
    modifies k
    ensures Table(k, table / 4096, own', data')
    ensures r.Ok? ==>
      && |hs| == phnum && AreHeaders(file, phoff, hs)
      && (Apart(hs, bias) ==> Shown(k.layout, k.mem, k.physOffset, table, file, hs, bias))
      && AllRightsShown(old(k.mem), k.mem, k.physOffset, table / 4096, hs, bias)
    ensures r.Ok? ==>
      && Program(file, phoff, phnum, bias).Ok?
      && (WriteXorExecute(k.mem, k.physOffset, table / 4096) <==>
            !Unmasks(old(k.mem), k.physOffset, table / 4096, Program(file, phoff, phnum, bias).value))
  {
    r, own', data' := LoadProgram(k, table / 4096, file, phoff, phnum, bias, own, data, UNTRACKED);
    hs := [];
    if r.Ok? {
      ghost var segs := Program(file, phoff, phnum, bias).value;
      hs := HeadersOf(file, phoff, phnum, bias);
      LoadedOutcome(k.layout, old(k.mem), k.mem, k.physOffset, table, segs, file, phoff, hs, bias);
    }
  }

  /** An accepted program has all its headers in the file. */
  lemma {:induction false} HeadersOf(file: seq<byte>, phoff: nat, n: nat, bias: u64) returns (hs: seq<Phdr>)
    requires Program(file, phoff, n, bias).Ok?
    ensures |hs| == n && AreHeaders(file, phoff, hs)
    decreases n
  {
    hs := [];
    if n > 0 {
      var last := n - 1;
      HeaderMissing(file, phoff, last, bias);
      var before := HeadersOf(file, phoff, last, bias);
      var h := PhdrAt(file, phoff + 56 * last);
      hs := before + [h];
      HeadersSnoc(file, phoff, before, h, phoff + 56 * last);
    }
  }

  lemma PhdrAt(file: seq<byte>, at: nat) returns (h: Phdr)
    requires at + 56 <= |file|
    ensures IsPhdr(file, at, h) == true
  {
    h := Phdr(FromLe(file[at..at + 4]), FromLe(file[at + 4..at + 8]), FromLe(file[at + 8..at + 16]),
              FromLe(file[at + 16..at + 24]), FromLe(file[at + 32..at + 40]), FromLe(file[at + 40..at + 48]));
  }

  lemma HeadersSnoc(file: seq<byte>, phoff: nat, hs: seq<Phdr>, h: Phdr, at: nat)
    requires AreHeaders(file, phoff, hs) && IsPhdr(file, at, h) && at == phoff + 56 * |hs|
    ensures AreHeaders(file, phoff, hs + [h])
  {
    forall i | 0 <= i < |hs| + 1 ensures IsPhdr(file, phoff + 56 * i, (hs + [h])[i]) == true {
      var place := phoff + 56 * i;
      if i < |hs| {
        assert IsPhdr(file, place, hs[i]) == true;
      } else {
        assert place == at;
      }
    }
  }

  lemma LoadedOutcome(l: WordLayout, m: Mem, now: Mem, off: u64, table: u64, segs: seq<Segment>,
                      file: seq<byte>, phoff: u64, hs: seq<Phdr>, bias: u64)
    requires Progress(l, m, now, off, table / 4096, Program(file, phoff, |hs|, bias))
    requires Program(file, phoff, |hs|, bias) == Ok(segs) && AreHeaders(file, phoff, hs)
    requires NoUserPages(m, off, table / 4096) && table % 4096 == 0
    ensures Apart(hs, bias) ==> Shown(l, now, off, table, file, hs, bias)
    ensures AllRightsShown(m, now, off, table / 4096, hs, bias)
    ensures WriteXorExecute(now, off, table / 4096) <==> !Unmasks(m, off, table / 4096, segs)
  {
    UserlessGuarded(m, off, table / 4096);
    WriteXorExecuteKept(l, m, now, off, table / 4096, segs);
    ProgramIsHeaders(file, phoff, hs, |hs|, bias);
    assert hs[..|hs|] == hs;
    LoadedRights(l, m, now, off, table / 4096, segs, file, hs, bias);
    if Apart(hs, bias) {
      ProgramSegments(file, phoff, |hs|, bias);
      ApartIsDisjoint(file, hs, bias, segs);
      LoadedIsShown(l, m, now, off, table, segs, file, hs, bias);
    }
  }

  lemma UserlessGuarded(m: Mem, off: u64, root: nat)
    requires NoUserPages(m, off, root)
    ensures WriteXorExecute(m, off, root)
  {
    forall n | 0 <= n < 0x10_0000_0000 ensures !Breaks(m, off, root, PageNo(n)) {
      assert !UsersOwn(m, off, root, PageNo(n));
    }
  }
}
