/** Loading the PT_LOAD segments of an ELF file into a page table. */
module Loader {
  import opened Memory
  import opened Bytes
  import opened Frames
  import opened PageTables
  import opened Mapping
  import opened Segments
  import opened UserCopy

  // ---- the image a list of segments stands for ----

  /** The byte at address `a` once the segments are laid over `base`, the last one on top. */
  ghost function OverlayByte(segs: seq<Segment>, a: nat, base: byte): byte {
    if segs == [] then base else
    SegmentByte(segs[|segs| - 1], a, OverlayByte(segs[..|segs| - 1], a, base))
  }

  /** The segment touches page number `n`. */
  predicate Touches(s: Segment, n: nat) {
    s.memsz > 0 && FirstPage(s) <= n < EndPage(s)
  }

  ghost predicate Touched(segs: seq<Segment>, n: nat) {
    exists i :: 0 <= i < |segs| && Touches(segs[i], n)
  }

  /** The user may both write and execute page `p`. */
  ghost predicate Breaks(m: Mem, off: u64, root: nat, p: Vpn) {
    var l := Walk(m, off, root, p);
    l.Some? && l.value.word.user && l.value.word.writable && !l.value.word.nx
  }

  /** Page `p` is mapped and executable, without being a page of the user's. */
  ghost predicate Exposed(m: Mem, off: u64, root: nat, p: Vpn) {
    var l := Walk(m, off, root, p);
    l.Some? && !l.value.word.nx && !UserMapped(m, off, root, p)
  }

  /** Exactly one segment touches page number `n`, and it is writable. */
  ghost predicate SoleWritable(segs: seq<Segment>, n: nat) {
    exists i :: 0 <= i < |segs| && Touches(segs[i], n) && segs[i].writable
                && forall j :: 0 <= j < |segs| && j != i ==> !Touches(segs[j], n)
  }

  /** The last segment that touches page number `n` is writable. */
  ghost predicate LastWritable(segs: seq<Segment>, n: nat) {
    exists i :: 0 <= i < |segs| && Touches(segs[i], n) && segs[i].writable
                && forall j :: i < j < |segs| ==> !Touches(segs[j], n)
  }

  /** Some segment that touches page number `n` is executable. */
  ghost predicate SomeExecutable(segs: seq<Segment>, n: nat) {
    exists i :: 0 <= i < |segs| && Touches(segs[i], n) && segs[i].executable
  }

  /** The page is writable as the last segment asks, and executable if some segment asks for
      that or it was so before. */
  ghost predicate RightsLoaded(m: Mem, now: Mem, off: u64, root: nat, segs: seq<Segment>, n: nat, p: Vpn) {
    var before, after := Walk(m, off, root, p), Walk(now, off, root, p);
    && after.Some? && (after.value.word.writable <==> LastWritable(segs, n))
    && (after.value.word.nx <==> !SomeExecutable(segs, n) && (before.Some? ==> before.value.word.nx))
  }

  /** Page number `n` after the segments were loaded into state `m`. */
  ghost predicate PageLoaded(l: WordLayout, m: Mem, now: Mem, off: u64, root: nat, segs: seq<Segment>, n: nat, p: Vpn) {
    if Touched(segs, n) then
      && UserMapped(now, off, root, p) && Open(now, root, p)
      && (Breaks(now, off, root, p) <==> Exposed(m, off, root, p) && SoleWritable(segs, n))
      && RightsLoaded(m, now, off, root, segs, n, p)
      && forall x :: 0 <= x < 4096 ==>
           BaseByte(l, now, off, root, p, x) == OverlayByte(segs, n * 4096 + x, BaseByte(l, m, off, root, p, x))
    else Untouched(m, now, off, root, p)
  }

  /** Every page of the 48-bit space holds what the segments put there, or is as before. */
  ghost predicate Loaded(l: WordLayout, m: Mem, now: Mem, off: u64, root: nat, segs: seq<Segment>) {
    forall n :: 0 <= n < 0x10_0000_0000 ==> PageLoaded(l, m, now, off, root, segs, n, PageNo(n))
  }

  /** Segments that stay within the 48-bit space. */
  predicate Fits(s: Segment) {
    s.vaddr + s.memsz <= 0x1_0000_0000_0000
  }

  lemma TouchedSnoc(segs: seq<Segment>, s: Segment, n: nat)
    ensures Touched(segs + [s], n) <==> Touched(segs, n) || Touches(s, n)
  {
    if Touched(segs, n) {
      var i :| 0 <= i < |segs| && Touches(segs[i], n);
      assert Touches((segs + [s])[i], n);
    }
    assert (segs + [s])[|segs|] == s;
  }

  lemma OverlaySnoc(segs: seq<Segment>, s: Segment, a: nat, base: byte)
    ensures OverlayByte(segs + [s], a, base) == SegmentByte(s, a, OverlayByte(segs, a, base))
  {
  }

  /** A segment says nothing about addresses beyond its pages. */
  lemma OffPage(s: Segment, n: nat, x: nat, base: byte)
    requires |s.file| <= s.memsz && !Touches(s, n) && x < 4096
    ensures SegmentByte(s, n * 4096 + x, base) == base
  {
  }

  /** An untouched page sees no segment. */
  lemma {:induction false} OffImage(segs: seq<Segment>, n: nat, x: nat, base: byte)
    requires (forall s :: s in segs ==> WellFormed(s)) && !Touched(segs, n) && x < 4096
    ensures OverlayByte(segs, n * 4096 + x, base) == base
    decreases |segs|
  {
    if segs != [] {
      var init, s := segs[..|segs| - 1], segs[|segs| - 1];
      assert segs == init + [s] && s in segs;
      TouchedSnoc(init, s, n);
      OffImage(init, n, x, base);
      OffPage(s, n, x, base);
    }
  }

  /** One page, one segment more. */
  lemma PageStep(l: WordLayout, m: Mem, m1: Mem, m2: Mem, off: u64, root: nat, segs: seq<Segment>, s: Segment, n: nat,
                 p: Vpn)
    requires forall t :: t in segs + [s] ==> WellFormed(t)
    requires PageLoaded(l, m, m1, off, root, segs, n, p)
    requires if Touches(s, n) then LoadedPage(l, m1, m2, off, root, s, n, p) else Untouched(m1, m2, off, root, p)
    ensures PageLoaded(l, m, m2, off, root, segs + [s], n, p)
  {
    TouchedSnoc(segs, s, n);
    if Touched(segs + [s], n) {
      RightsStep(l, m, m1, m2, off, root, segs, s, n, p);
      forall x | 0 <= x < 4096
        ensures BaseByte(l, m2, off, root, p, x) ==
          OverlayByte(segs + [s], n * 4096 + x, BaseByte(l, m, off, root, p, x))
      {
        ByteStep(l, m, m1, m2, off, root, segs, s, n, p, x);
      }
    }
  }

  lemma ByteStep(l: WordLayout, m: Mem, m1: Mem, m2: Mem, off: u64, root: nat, segs: seq<Segment>, s: Segment, n: nat,
                 p: Vpn, x: nat)
    requires (forall t :: t in segs + [s] ==> WellFormed(t)) && x < 4096
    requires PageLoaded(l, m, m1, off, root, segs, n, p)
    requires if Touches(s, n) then LoadedPage(l, m1, m2, off, root, s, n, p) else Untouched(m1, m2, off, root, p)
    ensures BaseByte(l, m2, off, root, p, x) == OverlayByte(segs + [s], n * 4096 + x, BaseByte(l, m, off, root, p, x))
  {
    var a, base := n * 4096 + x, BaseByte(l, m, off, root, p, x);
    OverlaySnoc(segs, s, a, base);
    assert forall t :: t in segs ==> t in segs + [s];
    if !Touched(segs, n) {
      OffImage(segs, n, x, base);
    }
    assert s in segs + [s];
    if !Touches(s, n) {
      OffPage(s, n, x, OverlayByte(segs, a, base));
    }
  }

  /** A segment that touches a page alone: whether the page is written and executed. */
  lemma RightsStep(l: WordLayout, m: Mem, m1: Mem, m2: Mem, off: u64, root: nat, segs: seq<Segment>, s: Segment,
                   n: nat, p: Vpn)
    requires WellFormed(s) && PageLoaded(l, m, m1, off, root, segs, n, p) && Touched(segs + [s], n)
    requires if Touches(s, n) then LoadedPage(l, m1, m2, off, root, s, n, p) else Untouched(m1, m2, off, root, p)
    ensures Breaks(m2, off, root, p) <==> Exposed(m, off, root, p) && SoleWritable(segs + [s], n)
    ensures RightsLoaded(m, m2, off, root, segs + [s], n, p)
  {
    TouchedSnoc(segs, s, n);
    SoleSnoc(segs, s, n);
    LastSnoc(segs, s, n);
    SomeSnoc(segs, s, n);
  }

  lemma LastSnoc(segs: seq<Segment>, s: Segment, n: nat)
    ensures LastWritable(segs + [s], n) <==> if Touches(s, n) then s.writable else LastWritable(segs, n)
  {
    var all := segs + [s];
    assert all[|segs|] == s && forall j :: 0 <= j < |segs| ==> all[j] == segs[j];
    if LastWritable(all, n) {
      var i :| 0 <= i < |all| && Touches(all[i], n) && all[i].writable
               && forall j :: i < j < |all| ==> !Touches(all[j], n);
      assert Touches(s, n) ==> i == |segs|;
    }
    if LastWritable(segs, n) && !Touches(s, n) {
      var i :| 0 <= i < |segs| && Touches(segs[i], n) && segs[i].writable
               && forall j :: i < j < |segs| ==> !Touches(segs[j], n);
      assert Touches(all[i], n) && all[i].writable;
    }
  }

  lemma SomeSnoc(segs: seq<Segment>, s: Segment, n: nat)
    ensures SomeExecutable(segs + [s], n) <==> SomeExecutable(segs, n) || (Touches(s, n) && s.executable)
  {
    var all := segs + [s];
    assert all[|segs|] == s;
    if SomeExecutable(segs, n) {
      var i :| 0 <= i < |segs| && Touches(segs[i], n) && segs[i].executable;
      assert Touches(all[i], n) && all[i].executable;
    }
  }

  lemma SoleSnoc(segs: seq<Segment>, s: Segment, n: nat)
    ensures SoleWritable(segs + [s], n) <==>
      if Touches(s, n) then s.writable && !Touched(segs, n) else SoleWritable(segs, n)
  {
    var all := segs + [s];
    assert all[|segs|] == s && forall j :: 0 <= j < |segs| ==> all[j] == segs[j];
    if SoleWritable(all, n) {
      var i :| 0 <= i < |all| && Touches(all[i], n) && all[i].writable
               && forall j :: 0 <= j < |all| && j != i ==> !Touches(all[j], n);
      assert Touches(s, n) ==> i == |segs|;
    }
    if SoleWritable(segs, n) && !Touches(s, n) {
      var i :| 0 <= i < |segs| && Touches(segs[i], n) && segs[i].writable
               && forall j :: 0 <= j < |segs| && j != i ==> !Touches(segs[j], n);
      assert Touches(all[i], n) && all[i].writable;
    }
  }

  /** Where page number `n` sits in the pages of a segment. */
  lemma RunMembers(s: Segment, n: nat)
    requires Fits(s) && n < 0x10_0000_0000
    ensures Touches(s, n) ==> n - FirstPage(s) < |SegmentPages(s)| && SegmentPages(s)[n - FirstPage(s)] == PageNo(n)
    ensures !Touches(s, n) ==> PageNo(n) !in SegmentPages(s)
  {
    var first, count := FirstPage(s), PageCount(s);
    if Touches(s, n) {
      PageRunAt(first, count, n - first);
    } else {
      forall i | 0 <= i < count ensures PageRun(first, count)[i] != PageNo(n) {
        var at := first + i;
        PageRunAt(first, count, i);
        if at < n { PageNoApart(at, n); } else { PageNoApart(n, at); }
      }
    }
  }

  /** Loading one more segment. */
  lemma LoadedSnoc(l: WordLayout, m: Mem, m1: Mem, m2: Mem, off: u64, root: nat, segs: seq<Segment>, s: Segment)
    requires (forall t :: t in segs + [s] ==> WellFormed(t)) && Fits(s)
    requires Loaded(l, m, m1, off, root, segs)
    requires OutsideUntouched(m1, m2, off, root, SegmentPages(s))
    requires LoadedRun(l, m1, m2, off, root, s, FirstPage(s), SegmentPages(s))
    ensures Loaded(l, m, m2, off, root, segs + [s])
  {
    forall n | 0 <= n < 0x10_0000_0000 ensures PageLoaded(l, m, m2, off, root, segs + [s], n, PageNo(n)) {
      RunMembers(s, n);
      if Touches(s, n) {
        var j := n - FirstPage(s);
        assert LoadedPage(l, m1, m2, off, root, s, FirstPage(s) + j, SegmentPages(s)[j]);
      } else {
        assert Untouched(m1, m2, off, root, PageNo(n));
      }
      PageStep(l, m, m1, m2, off, root, segs, s, n, PageNo(n));
    }
  }

  // ---- disjoint segments: file bytes over zeros ----

  predicate Within(s: Segment, a: nat) {
    s.vaddr <= a < s.vaddr + s.memsz
  }

  ghost predicate Disjoint(segs: seq<Segment>) {
    forall i, j, a: nat :: 0 <= i < j < |segs| && Within(segs[i], a) ==> !Within(segs[j], a)
  }

  lemma {:induction false} OutsideImage(segs: seq<Segment>, a: nat, base: byte)
    requires forall s :: s in segs ==> WellFormed(s) && !Within(s, a)
    ensures OverlayByte(segs, a, base) == base
    decreases |segs|
  {
    if segs != [] {
      assert segs[|segs| - 1] in segs;
      OutsideImage(segs[..|segs| - 1], a, base);
    }
  }

  /** With disjoint segments every segment shows its file bytes, then the base. */
  lemma {:induction false} DisjointImage(segs: seq<Segment>, i: nat, a: nat, base: byte)
    requires (forall s :: s in segs ==> WellFormed(s)) && Disjoint(segs)
    requires i < |segs| && Within(segs[i], a)
    ensures OverlayByte(segs, a, base) == SegmentByte(segs[i], a, base)
    decreases |segs|
  {
    var last := |segs| - 1;
    var init := segs[..last];
    if i < last {
      assert init[i] == segs[i] && segs[last] in segs && !Within(segs[last], a);
      assert Disjoint(init);
      DisjointImage(init, i, a, base);
    } else {
      forall s | s in init ensures !Within(s, a) {
        var j :| 0 <= j < last && s == segs[j];
      }
      OutsideImage(init, a, base);
    }
  }

  /** Page `p` is mapped for the user, by a page of any size. */
  ghost predicate UsersOwn(m: Mem, off: u64, root: nat, p: Vpn) {
    var l := Walk(m, off, root, p);
    l.Some? && l.value.word.user
  }

  ghost predicate NoUserPages(m: Mem, off: u64, root: nat) {
    forall p :: !UsersOwn(m, off, root, p)
  }

  /** The byte of the user's page at address `a`, if there is such a page. */
  ghost function UserByte(l: WordLayout, m: Mem, off: u64, root: nat, a: nat): Option<byte> {
    var p := PageOf(a);
    if UsersOwn(m, off, root, p) then Some(Byte(l, m, Walk(m, off, root, p).value.frame, a % 4096)) else None
  }

  /** What disjoint segments ask for at address `a`: the file bytes, zeros in the rest of
      the pages they touch, and nothing elsewhere. */
  ghost predicate Asked(segs: seq<Segment>, a: nat, b: Option<byte>) {
    && (forall i :: 0 <= i < |segs| && Within(segs[i], a) ==> b == Some(SegmentByte(segs[i], a, 0)))
    && (Touched(segs, a / 4096) && (forall s :: s in segs ==> !Within(s, a)) ==> b == Some(0))
    && (!Touched(segs, a / 4096) ==> b == None)
  }

  /** Disjoint segments loaded into a table without user pages: every segment reads as
      its file bytes followed by zeros, the rest of its pages reads as zeros, and no
      other page of the space belongs to the user. */
  lemma ProgramImage(l: WordLayout, m: Mem, now: Mem, off: u64, root: nat, segs: seq<Segment>, a: nat)
    requires Loaded(l, m, now, off, root, segs) && NoUserPages(m, off, root)
    requires (forall s :: s in segs ==> WellFormed(s)) && Disjoint(segs)
    requires a < 0x1_0000_0000_0000
    ensures Asked(segs, a, UserByte(l, now, off, root, a))
  {
    var n, x := a / 4096, a % 4096;
    assert PageLoaded(l, m, now, off, root, segs, n, PageNo(n));
    assert !UsersOwn(m, off, root, PageNo(n));
    if Touched(segs, n) {
      TouchedByte(l, m, now, off, root, segs, n, x, a);
    }
    forall i | 0 <= i < |segs| && Within(segs[i], a)
      ensures UserByte(l, now, off, root, a) == Some(SegmentByte(segs[i], a, 0))
    {
      assert Touches(segs[i], n);
      DisjointImage(segs, i, a, 0);
    }
    if Touched(segs, n) && forall s :: s in segs ==> !Within(s, a) {
      OutsideImage(segs, a, 0);
    }
  }

  lemma TouchedByte(l: WordLayout, m: Mem, now: Mem, off: u64, root: nat, segs: seq<Segment>, n: nat, x: nat, a: nat)
    requires PageLoaded(l, m, now, off, root, segs, n, PageNo(n)) && Touched(segs, n) && x < 4096
    requires !UsersOwn(m, off, root, PageNo(n)) && a == n * 4096 + x && n == a / 4096 && x == a % 4096
    ensures UserByte(l, now, off, root, a) == Some(OverlayByte(segs, a, 0))
  {
    assert BaseByte(l, now, off, root, PageNo(n), x) == OverlayByte(segs, n * 4096 + x, 0);
  }

  // ---- what the user can read ----

  /** A user page behind open tables is found by the checked user walk. */
  lemma OpenIsUsers(m: Mem, off: u64, table: u64, a: nat)
    requires table % 4096 == 0 && a <= USER_SPACE_END
    requires UserMapped(m, off, table / 4096, PageOf(a)) && Open(m, table / 4096, PageOf(a))
    ensures FrameOf(m, off, table, a, false) == Some(Walk(m, off, table / 4096, PageOf(a)).value.frame)
  {
    UserTop(a);
    GuidedForUser(m, off, table / 4096, 4, PageOf(a), AllRights);
  }

  /** The byte that the checked user translation of address `a` leads to. */
  ghost function ReadByUser(l: WordLayout, m: Mem, off: u64, table: u64, a: nat): Option<byte> {
    match TranslateUser(m, off, table, a, false)
    case None => None
    case Some(t) => Some(Byte(l, m, t / 4096, t % 4096))
  }

  lemma WithinFrame(f: nat, x: nat)
    requires x < 4096
    ensures (f * 4096 + x) / 4096 == f && (f * 4096 + x) % 4096 == x
  {
  }

  lemma ReadByFrame(l: WordLayout, m: Mem, off: u64, table: u64, a: nat)
    ensures ReadByUser(l, m, off, table, a) ==
      var f := FrameOf(m, off, table, a, false); if f.None? then None else Some(Byte(l, m, f.value, a % 4096))
  {
    var f, x := FrameOf(m, off, table, a, false), a % 4096;
    TranslateUserIsFrame(m, off, table, a, false);
    if f.Some? {
      WithinFrame(f.value, x);
    }
  }

  /** Up to the end of user space the user reads just the bytes of the loaded pages. */
  lemma ProgramForUser(l: WordLayout, m: Mem, now: Mem, off: u64, table: u64, segs: seq<Segment>, a: nat)
    requires Loaded(l, m, now, off, table / 4096, segs) && NoUserPages(m, off, table / 4096) && table % 4096 == 0
    requires a <= USER_SPACE_END
    ensures ReadByUser(l, now, off, table, a) == UserByte(l, now, off, table / 4096, a)
  {
    var root := table / 4096;
    assert PageLoaded(l, m, now, off, root, segs, a / 4096, PageNo(a / 4096));
    assert !UsersOwn(m, off, root, PageNo(a / 4096));
    ReadByFrame(l, now, off, table, a);
    if Touched(segs, a / 4096) {
      OpenIsUsers(now, off, table, a);
    } else if FrameOf(now, off, table, a, false).Some? {
      UserWalkIsWalk(now, off, root, 4, PageOf(a));
    }
  }

  /** The page of an address within a loaded segment. */
  lemma PageOfSegment(s: Segment, a: nat, j: nat)
    requires Within(s, a) && j == a / 4096 - FirstPage(s)
    ensures j < |SegmentPages(s)| && SegmentPages(s)[j] == PageOf(a)
  {
    var first, count := FirstPage(s), PageCount(s);
    WithinPages(s, a, a / 4096);
    PageRunAt(first, count, j);
  }

  lemma WithinPages(s: Segment, a: nat, n: nat)
    requires Within(s, a) && n == a / 4096
    ensures s.memsz > 0 && FirstPage(s) <= n < EndPage(s)
  {
  }

  lemma PageOfLoaded(l: WordLayout, m: Mem, now: Mem, off: u64, root: nat, s: Segment, a: nat, n: nat)
    requires LoadedRun(l, m, now, off, root, s, FirstPage(s), SegmentPages(s)) && Within(s, a) && n == a / 4096
    ensures LoadedPage(l, m, now, off, root, s, n, PageOf(a)) == true
  {
    var j := n - FirstPage(s);
    PageOfSegment(s, a, j);
    assert LoadedPage(l, m, now, off, root, s, FirstPage(s) + j, SegmentPages(s)[j]) == true;
  }

  /** An address within the file part of a loaded segment reads as the file for the user. */
  lemma SegmentForUser(k: Machine, m: Mem, table: u64, s: Segment, a: nat, own: map<nat, Path>, data: map<nat, Vpn>)
    requires table % 4096 == 0 && Table(k, table / 4096, own, data) && |s.file| <= s.memsz
    requires LoadedRun(k.layout, m, k.mem, k.physOffset, table / 4096, s, FirstPage(s), SegmentPages(s))
    requires s.vaddr <= a < s.vaddr + |s.file| && a <= USER_SPACE_END
    ensures Accessible(k.mem, k.physOffset, table, a, false)
    ensures ByteBehind(k.layout, k.mem, UserFrames(k.mem, k.physOffset, table, false), a) == s.file[a - s.vaddr]
  {
    var root := table / 4096;
    PageOfLoaded(k.layout, m, k.mem, k.physOffset, root, s, a, a / 4096);
    PageForUser(k.layout, m, k.mem, k.physOffset, table, s, a);
    UserFrameInData(k.mem, k.physOffset, root, own, data, root, 4, PageOf(a));
  }

  lemma PageForUser(l: WordLayout, m: Mem, now: Mem, off: u64, table: u64, s: Segment, a: nat)
    requires table % 4096 == 0 && s.vaddr <= a < s.vaddr + |s.file| && a <= USER_SPACE_END
    requires LoadedPage(l, m, now, off, table / 4096, s, a / 4096, PageOf(a))
    ensures FrameOf(now, off, table, a, false) == Some(Walk(now, off, table / 4096, PageOf(a)).value.frame)
    ensures ByteBehind(l, now, UserFrames(now, off, table, false), a) == s.file[a - s.vaddr]
  {
    var n, x := a / 4096, a % 4096;
    OpenIsUsers(now, off, table, a);
    assert BaseByte(l, now, off, table / 4096, PageOf(a), x)
      == SegmentByte(s, n * 4096 + x, BaseByte(l, m, off, table / 4096, PageOf(a), x));
  }

  lemma FileForUser(k: Machine, m: Mem, table: u64, s: Segment, own: map<nat, Path>, data: map<nat, Vpn>)
    requires table % 4096 == 0 && Table(k, table / 4096, own, data) && |s.file| <= s.memsz
    requires LoadedRun(k.layout, m, k.mem, k.physOffset, table / 4096, s, FirstPage(s), SegmentPages(s))
    requires s.vaddr + |s.file| <= USER_SPACE_END + 1
    ensures AccessibleRange(k.mem, k.physOffset, table, s.vaddr, |s.file|, false)
    ensures ReadBytes(k.layout, k.mem, UserFrames(k.mem, k.physOffset, table, false), s.vaddr, |s.file|) == s.file
  {
    var fr := UserFrames(k.mem, k.physOffset, table, false);
    forall a | s.vaddr <= a < s.vaddr + |s.file|
      ensures Accessible(k.mem, k.physOffset, table, a, false)
        && ByteBehind(k.layout, k.mem, fr, a) == s.file[a - s.vaddr]
    {
      SegmentForUser(k, m, table, s, a, own, data);
    }
    ReadsBack(k.layout, k.mem, fr, s.vaddr, s.file);
  }

  /** Copying from the user what was just loaded gives the file bytes back. */
  method LoadThenCopy(k: Machine, table: u64, vaddr: u64, memsz: u64, src: seq<byte>, writable: bool,
                      executable: bool, dst: array<byte>, ghost own: map<nat, Path>, ghost data: map<nat, Vpn>)
    returns (r: Result<()>, c: Result<()>, ghost own': map<nat, Path>, ghost data': map<nat, Vpn>)
    requires table % 4096 == 0 && k.physOffset % 4096 == 0
    requires Table(k, table / 4096, own, data) && Covers(k)
    requires vaddr + memsz < U64_LIMIT ==>
      |PagesFrom(vaddr, memsz)| <= 0x10_0000_0000 && PlainRun(k.mem, own, PagesFrom(vaddr, memsz))
    requires dst.Length == |src| && 0 < vaddr && vaddr + |src| <= USER_SPACE_END + 1
    modifies k, dst
    ensures r.Ok? ==> c.Ok? && dst[..] == src
  {
    assert src[..|src|] == src;
    r, own', data' :=
      MapAndCopySegment(k, table / 4096, vaddr, |src|, memsz, src, writable, executable, own, data, UNTRACKED);
    if r.Ok? {
      FileForUser(k, old(k.mem), table, Segment(vaddr, memsz, src, writable, executable), own', data');
    }
    c := CopyFromUser(k, table, vaddr, dst);
  }

  // ---- write xor execute ----

  /** No page of the 48-bit space lets the user write what they can execute. */
  ghost predicate WriteXorExecute(m: Mem, off: u64, root: nat) {
    forall n :: 0 <= n < 0x10_0000_0000 ==> !Breaks(m, off, root, PageNo(n))
  }

  /** A page that a writable segment alone touches was executable before, without being the user's. */
  ghost predicate Unmasks(m: Mem, off: u64, root: nat, segs: seq<Segment>) {
    exists n :: 0 <= n < 0x10_0000_0000 && Exposed(m, off, root, PageNo(n)) && SoleWritable(segs, n)
  }

  /** Loading keeps write xor execute if and only if it unmasks no executable page. */
  lemma WriteXorExecuteKept(l: WordLayout, m: Mem, now: Mem, off: u64, root: nat, segs: seq<Segment>)
    requires Loaded(l, m, now, off, root, segs) && WriteXorExecute(m, off, root)
    ensures WriteXorExecute(now, off, root) <==> !Unmasks(m, off, root, segs)
  {
    forall n | 0 <= n < 0x10_0000_0000
      ensures Breaks(now, off, root, PageNo(n)) <==> Exposed(m, off, root, PageNo(n)) && SoleWritable(segs, n)
    {
      assert PageLoaded(l, m, now, off, root, segs, n, PageNo(n));
      assert !Breaks(m, off, root, PageNo(n));
    }
    if Unmasks(m, off, root, segs) {
      var n :| 0 <= n < 0x10_0000_0000 && Exposed(m, off, root, PageNo(n)) && SoleWritable(segs, n);
      assert Breaks(now, off, root, PageNo(n));
    }
  }

  /** A writable segment over page 1, which the kernel left executable and for itself: the
      user can write and execute it. */
  lemma KernelPageUnmasked(l: WordLayout, m: Mem, now: Mem, off: u64, s: Segment, w: Word)
    requires off == 0xFFFF_8000_0000_0000 && w == Word(0, true, true, false, false, false, 0)
    requires m == map[1 := ZERO_PAGE[0 := w.(frame := 2)], 2 := ZERO_PAGE[0 := w.(frame := 3)],
                      3 := ZERO_PAGE[0 := w.(frame := 4)], 4 := ZERO_PAGE[1 := w.(frame := 0x8_0000_0000)]]
    requires Touches(s, 1) && s.writable && Loaded(l, m, now, off, 1, [s])
    ensures WriteXorExecute(m, off, 1) && !WriteXorExecute(now, off, 1)
  {
    KernelPageExposed(m, off, w, 1);
    NoUserTable(m, off, 1);
    Unmasked(l, m, now, off, 1, s, 1);
  }

  lemma KernelPageExposed(m: Mem, off: u64, w: Word, n: nat)
    requires off == 0xFFFF_8000_0000_0000 && w.present && !w.huge && !w.user && !w.nx && n == 1
    requires Entry(m, 1, 0) == w.(frame := 2) && Entry(m, 2, 0) == w.(frame := 3)
    requires Entry(m, 3, 0) == w.(frame := 4) && Entry(m, 4, 1) == w.(frame := 0x8_0000_0000)
    ensures Exposed(m, off, 1, PageNo(n))
  {
    NumberInjective(Vpn(0, 0, 0, 1), PageNo(n));
    FourSteps(m, off, PageNo(n), w);
  }

  lemma Unmasked(l: WordLayout, m: Mem, now: Mem, off: u64, root: nat, s: Segment, n: nat)
    requires Loaded(l, m, now, off, root, [s]) && WriteXorExecute(m, off, root) && n < 0x10_0000_0000
    requires Exposed(m, off, root, PageNo(n)) && Touches(s, n) && s.writable
    ensures !WriteXorExecute(now, off, root)
  {
    WriteXorExecuteKept(l, m, now, off, root, [s]);
    assert [s][0] == s;
    assert SoleWritable([s], n);
  }

  lemma NoUserTable(m: Mem, off: u64, root: nat)
    requires forall g, i :: 0 <= i < 512 ==> !Entry(m, g, i).user
    ensures WriteXorExecute(m, off, root)
  {
    forall n | 0 <= n < 0x10_0000_0000 ensures !Breaks(m, off, root, PageNo(n)) {
      NoUserEntries(m, off, root, 4, PageNo(n));
    }
  }

  lemma {:induction false} NoUserEntries(m: Mem, off: u64, f: nat, level: Level, p: Vpn)
    requires forall g, i :: 0 <= i < 512 ==> !Entry(m, g, i).user
    ensures var l := WalkFrom(m, off, f, level, p); l.Some? ==> !l.value.word.user
    decreases level
  {
    var e := Entry(m, f, IndexAt(p, level));
    if level > 1 && e.present {
      NoUserEntries(m, off, e.frame, level - 1, p);
    }
  }

  // ---- the program headers ----

  const PT_LOAD: nat := 1

  datatype Phdr = Phdr(kind: nat, flags: nat, offset: nat, vaddr: nat, filesz: nat, memsz: nat)

  function Field(file: seq<byte>, at: nat, width: nat): nat
    requires at + width <= |file|
  {
    FromLe(file[at..at + width])
  }

  function ReadPhdr(file: seq<byte>, at: nat): Result<Phdr> {
    if at + 56 > |file| then Err(InvalidParam) else
    Ok(Phdr(Field(file, at, 4), Field(file, at + 4, 4), Field(file, at + 8, 8), Field(file, at + 16, 8),
            Field(file, at + 32, 8), Field(file, at + 40, 8)))
  }

  /** The segment of a program header: none if there is nothing to load. */
  function SegmentOf(file: seq<byte>, h: Phdr, bias: u64): Result<Option<Segment>> {
    if h.kind != PT_LOAD || h.memsz == 0 then Ok(None)
    else if h.filesz > h.memsz then Err(InvalidAddress)
    else if h.offset + h.filesz >= U64_LIMIT || h.offset + h.filesz > |file| then Err(InvalidAddress)
    else if h.flags / 2 % 2 == 1 && h.flags % 2 == 1 then Err(PermissionDenied)
    else Ok(Some(Segment((h.vaddr + bias) % U64_LIMIT, h.memsz, file[h.offset..h.offset + h.filesz],
                         h.flags / 2 % 2 == 1, h.flags % 2 == 1)))
  }

  /** What program header `i` asks for. */
  function Header(file: seq<byte>, phoff: nat, i: nat, bias: u64): Result<Option<Segment>> {
    var at := phoff + i * 56;
    if at >= U64_LIMIT then Err(InvalidParam) else
    match ReadPhdr(file, at)
    case Err(e) => Err(e)
    case Ok(h) => SegmentOf(file, h, bias)
  }

  predicate WellFormed(s: Segment) {
    && 0 < s.memsz < U64_LIMIT && |s.file| <= s.memsz && s.vaddr < U64_LIMIT
    && !(s.writable && s.executable)
  }

  lemma HeaderWellFormed(file: seq<byte>, phoff: nat, i: nat, bias: u64)
    ensures var h := Header(file, phoff, i, bias); h.Ok? && h.value.Some? ==> WellFormed(h.value.value)
  {
    var at := phoff + i * 56;
    if at + 56 <= |file| {
      ToFromLe(file[at + 40..at + 48]);
      Widths();
    }
  }

  /** The segments of the first `n` program headers, in order. */
  function Program(file: seq<byte>, phoff: nat, n: nat, bias: u64): Result<seq<Segment>> {
    if n == 0 then Ok([]) else
    match Program(file, phoff, n - 1, bias)
    case Err(e) => Err(e)
    case Ok(segs) =>
      match Header(file, phoff, n - 1, bias)
      case Err(e) => Err(e)
      case Ok(None) => Ok(segs)
      case Ok(Some(s)) => Ok(segs + [s])
  }

  lemma {:induction false} ProgramSegments(file: seq<byte>, phoff: nat, n: nat, bias: u64)
    ensures var r := Program(file, phoff, n, bias);
            r.Ok? ==> forall s :: s in r.value ==> WellFormed(s)
    decreases n
  {
    if n > 0 {
      ProgramSegments(file, phoff, n - 1, bias);
      HeaderWellFormed(file, phoff, n - 1, bias);
    }
  }

  /** Every segment the file asks for fits the space and runs over plain tables; in a
      tracked table it lies in the user's half. */
  ghost predicate Loadable(m: Mem, own: map<nat, Path>, o: Origin, file: seq<byte>, phoff: nat, n: nat, bias: u64) {
    forall i :: 0 <= i < n ==> Admissible(m, own, o, Header(file, phoff, i, bias))
  }

  ghost predicate Admissible(m: Mem, own: map<nat, Path>, o: Origin, h: Result<Option<Segment>>) {
    h.Ok? && h.value.Some? && h.value.value.vaddr + h.value.value.memsz < U64_LIMIT ==>
      && Fits(h.value.value) && PlainRun(m, own, SegmentPages(h.value.value))
      && (o.tracked ==> UserRun(SegmentPages(h.value.value)))
  }

  lemma AdmissibleKept(m: Mem, m': Mem, root: nat, own: map<nat, Path>, own': map<nat, Path>, o: Origin,
                       h: Result<Option<Segment>>)
    requires Admissible(m, own, o, h) && PathsKept(m, m', root, own, own')
    ensures Admissible(m', own', o, h)
  {
  }

  /** The segments of the headers so far are loaded. */
  ghost predicate Progress(l: WordLayout, m: Mem, now: Mem, off: u64, root: nat, program: Result<seq<Segment>>) {
    program.Ok? && Loaded(l, m, now, off, root, program.value) && forall s :: s in program.value ==> Fits(s)
  }

  /** Why a program header is not loaded: it is malformed, or its segment cannot be. */
  ghost predicate HeaderFails(e: Error, avail: iset<nat>, own: map<nat, Path>, m: Mem, off: u64, root: nat,
                              h: Result<Option<Segment>>) {
    h == Err(e) || (h.Ok? && h.value.Some? && NotLoaded(e, avail, own, m, off, root, h.value.value))
  }

  /** Page number `n` is one of the segment that a header asks for. */
  predicate Asks(h: Result<Option<Segment>>, n: nat) {
    h.Ok? && h.value.Some? && Touches(h.value.value, n)
  }

  /** Nothing changed but pages that the header asks for. */
  ghost predicate OnlyAsked(m: Mem, now: Mem, off: u64, root: nat, h: Result<Option<Segment>>) {
    forall n :: 0 <= n < 0x10_0000_0000 ==> Asks(h, n) || Untouched(m, now, off, root, PageNo(n))
  }

  /** Loading stopped at header `i` in state `mid`, everything before it being loaded. */
  ghost predicate StoppedAt(l: WordLayout, e: Error, avail: iset<nat>, own: map<nat, Path>, m: Mem, mid: Mem, now: Mem,
                            off: u64, root: nat, file: seq<byte>, phoff: nat, bias: u64, i: nat) {
    var h := Header(file, phoff, i, bias);
    && Progress(l, m, mid, off, root, Program(file, phoff, i, bias))
    && HeaderFails(e, avail, own, mid, off, root, h)
    && OnlyAsked(mid, now, off, root, h)
  }

  /** Loading stopped at some header. */
  ghost predicate Stopped(l: WordLayout, e: Error, avail: iset<nat>, own: map<nat, Path>, m: Mem, now: Mem,
                          off: u64, root: nat, file: seq<byte>, phoff: nat, n: nat, bias: u64) {
    exists i, mid :: 0 <= i < n && StoppedAt(l, e, avail, own, m, mid, now, off, root, file, phoff, bias, i)
  }

  /** A load that stopped left every page alone that no header asks for. */
  lemma StoppedKeeps(l: WordLayout, e: Error, avail: iset<nat>, own: map<nat, Path>, m: Mem, now: Mem,
                     off: u64, root: nat, file: seq<byte>, phoff: nat, count: nat, bias: u64, n: nat)
    requires Stopped(l, e, avail, own, m, now, off, root, file, phoff, count, bias) && n < 0x10_0000_0000
    requires !AskedFor(file, phoff, count, bias, n)
    ensures Untouched(m, now, off, root, PageNo(n))
  {
    var i, mid :| 0 <= i < count && StoppedAt(l, e, avail, own, m, mid, now, off, root, file, phoff, bias, i);
    var segs := Program(file, phoff, i, bias).value;
    TouchedIsAsked(file, phoff, i, bias, n);
    assert PageLoaded(l, m, mid, off, root, segs, n, PageNo(n));
    assert Untouched(mid, now, off, root, PageNo(n));
  }

  /** One of the first `count` headers asks for page number `n`. */
  ghost predicate AskedFor(file: seq<byte>, phoff: nat, count: nat, bias: u64, n: nat) {
    exists i :: 0 <= i < count && Asks(Header(file, phoff, i, bias), n)
  }

  lemma AskedForStep(file: seq<byte>, phoff: nat, count: nat, bias: u64, n: nat)
    ensures AskedFor(file, phoff, count + 1, bias, n) <==>
      AskedFor(file, phoff, count, bias, n) || Asks(Header(file, phoff, count, bias), n)
  {
  }

  /** The segments of the headers touch just the pages that the headers ask for. */
  lemma {:induction false} TouchedIsAsked(file: seq<byte>, phoff: nat, count: nat, bias: u64, n: nat)
    requires Program(file, phoff, count, bias).Ok?
    ensures Touched(Program(file, phoff, count, bias).value, n) <==> AskedFor(file, phoff, count, bias, n)
    decreases count
  {
    if count > 0 {
      var last := count - 1;
      var before, h := Program(file, phoff, last, bias), Header(file, phoff, last, bias);
      TouchedIsAsked(file, phoff, last, bias, n);
      AskedForStep(file, phoff, last, bias, n);
      if h.value.Some? {
        TouchedSnoc(before.value, h.value.value, n);
      }
    }
  }

  /** Loads the segments of the first `phnum` program headers. */
  method LoadProgram(k: Machine, root: nat, file: seq<byte>, phoff: u64, phnum: nat, bias: u64,
                     ghost own: map<nat, Path>, ghost data: map<nat, Vpn>, ghost o: Origin)
    returns (r: Result<()>, ghost own': map<nat, Path>, ghost data': map<nat, Vpn>)
    requires Image(k, root, own, data, o) && Covers(k) && Loadable(k.mem, own, o, file, phoff, phnum, bias)
    modifies k
    ensures Image(k, root, own', data', o)
    ensures r.Ok? ==> Progress(k.layout, old(k.mem), k.mem, k.physOffset, root, Program(file, phoff, phnum, bias))
    ensures r.Err? ==>
      Stopped(k.layout, r.error, k.avail, own, old(k.mem), k.mem, k.physOffset, root, file, phoff, phnum, bias)
  {
    own', data' := own, data;
    var i := 0;
    while i < phnum
      invariant 0 <= i <= phnum
      invariant Image(k, root, own', data', o) && PathsKept(old(k.mem), k.mem, root, own, own')
      invariant Progress(k.layout, old(k.mem), k.mem, k.physOffset, root, Program(file, phoff, i, bias))
    {
      AdmissibleKept(old(k.mem), k.mem, root, own, own', o, Header(file, phoff, i, bias));
      ghost var mid := k.mem;
      r, own', data' := LoadHeader(k, root, file, phoff, i, bias, old(k.mem), own, own', data', o);
      if r.Err? {
        assert StoppedAt(k.layout, r.error, k.avail, own, old(k.mem), mid, k.mem, k.physOffset, root, file, phoff,
                         bias, i);
        return;
      }
      i := i + 1;
    }
    r := Ok(());
  }

  /** Loads what program header `i` asks for. */
  method LoadHeader(k: Machine, root: nat, file: seq<byte>, phoff: u64, i: nat, bias: u64, ghost m: Mem,
                    ghost own0: map<nat, Path>, ghost own: map<nat, Path>, ghost data: map<nat, Vpn>, ghost o: Origin)
    returns (r: Result<()>, ghost own': map<nat, Path>, ghost data': map<nat, Vpn>)
    requires Image(k, root, own, data, o) && Covers(k) && Admissible(k.mem, own, o, Header(file, phoff, i, bias))
    requires Progress(k.layout, m, k.mem, k.physOffset, root, Program(file, phoff, i, bias))
      && PathsKept(m, k.mem, root, own0, own)
    modifies k
    ensures Image(k, root, own', data', o) && PathsKept(m, k.mem, root, own0, own')
    ensures r.Ok? ==> Progress(k.layout, m, k.mem, k.physOffset, root, Program(file, phoff, i + 1, bias))
    ensures r.Err? ==> HeaderFails(r.error, k.avail, own0, old(k.mem), k.physOffset, root, Header(file, phoff, i, bias))
    ensures r.Err? ==> OnlyAsked(old(k.mem), k.mem, k.physOffset, root, Header(file, phoff, i, bias))
  {
    var h := Header(file, phoff, i, bias);
    own', data' := own, data;
    if h.Err? {
      return Err(h.error), own, data;
    }
    if h.value.None? {
      return Ok(()), own, data;
    }
    HeaderWellFormed(file, phoff, i, bias);
    ProgramSegments(file, phoff, i, bias);
    ghost var segs := Program(file, phoff, i, bias).value;
    r, own', data' := LoadNext(k, root, h.value.value, m, segs, own0, own, data, o);
    PathsKeptTrans(m, old(k.mem), k.mem, root, own0, own, own');
  }

  /** Loads one more segment on top of those already there. */
  method LoadNext(k: Machine, root: nat, s: Segment, ghost m: Mem, ghost segs: seq<Segment>, ghost own0: map<nat, Path>,
                  ghost own: map<nat, Path>, ghost data: map<nat, Vpn>, ghost o: Origin)
    returns (r: Result<()>, ghost own': map<nat, Path>, ghost data': map<nat, Vpn>)
    requires Image(k, root, own, data, o) && Covers(k) && Admissible(k.mem, own, o, Ok(Some(s))) && ZeroKept(own0, own)
    requires WellFormed(s) && (forall t :: t in segs ==> WellFormed(t))
    requires Loaded(k.layout, m, k.mem, k.physOffset, root, segs)
    modifies k
    ensures Image(k, root, own', data', o) && PathsKept(old(k.mem), k.mem, root, own, own')
    ensures r.Ok? ==> Fits(s) && Loaded(k.layout, m, k.mem, k.physOffset, root, segs + [s])
    ensures r.Err? ==> NotLoaded(r.error, k.avail, own0, old(k.mem), k.physOffset, root, s)
    ensures r.Err? ==> OnlyAsked(old(k.mem), k.mem, k.physOffset, root, Ok(Some(s)))
  {
    r, own', data' := LoadAsked(k, root, s, own, data, o);
    if r.Ok? {
      LoadedSnoc(k.layout, m, old(k.mem), k.mem, k.physOffset, root, segs, s);
    } else {
      NotLoadedKept(r.error, k.avail, own0, own, old(k.mem), k.physOffset, root, s);
      OutsideIsAsked(old(k.mem), k.mem, k.physOffset, root, s);
    }
  }

  /** Loads the segment of a well-formed header. */
  method LoadAsked(k: Machine, root: nat, s: Segment,
                   ghost own: map<nat, Path>, ghost data: map<nat, Vpn>, ghost o: Origin)
    returns (r: Result<()>, ghost own': map<nat, Path>, ghost data': map<nat, Vpn>)
    requires Image(k, root, own, data, o) && Covers(k) && Admissible(k.mem, own, o, Ok(Some(s))) && WellFormed(s)
    modifies k
    ensures Image(k, root, own', data', o) && PathsKept(old(k.mem), k.mem, root, own, own')
    ensures OutsideUntouched(old(k.mem), k.mem, k.physOffset, root, SegmentPages(s))
    ensures Fits(s) || k.mem == old(k.mem)
    ensures r.Ok? ==> Fits(s)
    ensures r.Ok? ==> LoadedRun(k.layout, old(k.mem), k.mem, k.physOffset, root, s, FirstPage(s), SegmentPages(s))
    ensures r.Err? ==> NotLoaded(r.error, k.avail, own, old(k.mem), k.physOffset, root, s)
  {
    assert s.file[..|s.file|] == s.file;
    assert s == Segment(s.vaddr, s.memsz, s.file, s.writable, s.executable);
    r, own', data' :=
      MapAndCopySegment(k, root, s.vaddr, |s.file|, s.memsz, s.file, s.writable, s.executable, own, data, o);
  }

  lemma OutsideIsAsked(m: Mem, now: Mem, off: u64, root: nat, s: Segment)
    requires OutsideUntouched(m, now, off, root, SegmentPages(s)) && (Fits(s) || now == m)
    ensures OnlyAsked(m, now, off, root, Ok(Some(s)))
  {
    forall n | 0 <= n < 0x10_0000_0000 && !Touches(s, n) ensures Untouched(m, now, off, root, PageNo(n)) {
      if Fits(s) {
        RunMembers(s, n);
      }
    }
  }

  lemma NotLoadedKept(e: Error, avail: iset<nat>, own: map<nat, Path>, own1: map<nat, Path>, m: Mem, off: u64,
                      root: nat, s: Segment)
    requires NotLoaded(e, avail, own1, m, off, root, s) && ZeroKept(own, own1)
    ensures NotLoaded(e, avail, own, m, off, root, s)
  {
    var vs := SegmentPages(s);
    if RunBlocked(e, avail, own1, m, off, root, s, vs) {
      var j :| 0 <= j < |vs| && Blocked(e, avail, own1, m, off, root, vs[j], s.writable, s.executable);
      assert Blocked(e, avail, own, m, off, root, vs[j], s.writable, s.executable);
    }
  }
}
