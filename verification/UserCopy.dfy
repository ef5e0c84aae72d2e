/** Copies between kernel buffers and user memory, one page-sized chunk at a time. */
module UserCopy {
  import opened Memory
  import opened Frames
  import opened PageTables
  import opened Mapping

  function UserFlags(m: Mem, off: u64, table: u64, v: nat): Option<Word> {
    if table % 4096 != 0 || Indices(v).i4 >= 256 then None
    else UserWalkFrom(m, off, table / 4096, 4, Indices(v))
  }

  /** The physical address behind user address `a`, by the two walks of the kernel. */
  function TranslateUser(m: Mem, off: u64, table: u64, a: nat, needWritable: bool): Option<nat> {
    if a > USER_SPACE_END then None else
    match UserFlags(m, off, table, a / 4096 * 4096)
    case None => None
    case Some(w) =>
      if needWritable && !w.writable then None else
      var t := Translate(m, off, table, a);
      if t.None? then None else Some(t.value.0)
  }

  lemma {:induction false} UserWalkIsWalk(m: Mem, off: u64, f: nat, level: Level, p: Vpn)
    requires UserWalkFrom(m, off, f, level, p).Some?
    ensures WalkFrom(m, off, f, level, p).Some?
    ensures WalkFrom(m, off, f, level, p).value.word == UserWalkFrom(m, off, f, level, p).value
    decreases level
  {
    var e := Entry(m, f, IndexAt(p, level));
    if level > 1 && (level == 4 || !e.huge) {
      UserWalkIsWalk(m, off, e.frame, level - 1, p);
    }
  }

  /** The frame behind user page `p`. */
  ghost function UserFrame(m: Mem, off: u64, table: u64, p: Vpn, needWritable: bool): Option<nat> {
    if table % 4096 != 0 || p.i4 >= 256 then None else
    var u := UserWalkFrom(m, off, table / 4096, 4, p);
    if u.None? || (needWritable && !u.value.writable) then None else
    UserWalkIsWalk(m, off, table / 4096, 4, p);
    Some(Walk(m, off, table / 4096, p).value.frame)
  }

  /** The frame behind user address `a`. */
  ghost function FrameOf(m: Mem, off: u64, table: u64, a: nat, needWritable: bool): Option<nat> {
    if a > USER_SPACE_END then None else UserFrame(m, off, table, PageOf(a), needWritable)
  }

  lemma UserTop(a: nat)
    requires a <= USER_SPACE_END
    ensures PageOf(a).i4 < 256
  {
    IndicesArePage(a);
  }

  /** Level by level from the root: every entry on the way to page `p` is present and the user's,
      every table lies in the direct map, and `leaf` is the last one. */
  ghost predicate UserPath(m: Mem, off: u64, root: nat, p: Vpn, leaf: Word) {
    var e4 := Entry(m, root, p.i4);
    var e3 := Entry(m, e4.frame, p.i3);
    var e2 := Entry(m, e3.frame, p.i2);
    var e1 := Entry(m, e2.frame, p.i1);
    && Reachable(off, root) && e4.present && e4.user
    && Reachable(off, e4.frame) && e3.present && e3.user
    && if e3.huge then leaf == e3 else
       && Reachable(off, e3.frame) && e2.present && e2.user
       && if e2.huge then leaf == e2 else
          Reachable(off, e2.frame) && e1.present && e1.user && leaf == e1
  }

  lemma UserPathIsWalk(m: Mem, off: u64, root: nat, p: Vpn, leaf: Word)
    ensures UserPath(m, off, root, p, leaf) <==> UserWalkFrom(m, off, root, 4, p) == Some(leaf)
  {
    var e4 := Entry(m, root, p.i4);
    var e3 := Entry(m, e4.frame, p.i3);
    var e2 := Entry(m, e3.frame, p.i2);
    assert UserWalkFrom(m, off, e2.frame, 1, p) ==
      if !Reachable(off, e2.frame) || !Entry(m, e2.frame, p.i1).present || !Entry(m, e2.frame, p.i1).user then None
      else Some(Entry(m, e2.frame, p.i1));
    assert UserWalkFrom(m, off, e3.frame, 2, p) ==
      if !Reachable(off, e3.frame) || !e2.present || !e2.user then None
      else if e2.huge then Some(e2) else UserWalkFrom(m, off, e2.frame, 1, p);
    assert UserWalkFrom(m, off, e4.frame, 3, p) ==
      if !Reachable(off, e4.frame) || !e3.present || !e3.user then None
      else if e3.huge then Some(e3) else UserWalkFrom(m, off, e3.frame, 2, p);
  }

  /** An address has a frame for the user exactly if its path is the user's at every level, and
      writable at the end where that is asked for. */
  lemma FrameNeedsPath(m: Mem, off: u64, table: u64, a: nat, needWritable: bool)
    ensures FrameOf(m, off, table, a, needWritable).Some? <==> PathOpen(m, off, table, a, needWritable)
  {
    if a <= USER_SPACE_END && table % 4096 == 0 {
      UserTop(a);
      var u := UserWalkFrom(m, off, table / 4096, 4, PageOf(a));
      if u.Some? {
        UserPathIsWalk(m, off, table / 4096, PageOf(a), u.value);
      }
      forall leaf | UserPath(m, off, table / 4096, PageOf(a), leaf) ensures u == Some(leaf) {
        UserPathIsWalk(m, off, table / 4096, PageOf(a), leaf);
      }
    }
  }

  /** Every address of the range has a path that is the user's at every level. */
  ghost predicate PathsOpen(m: Mem, off: u64, table: u64, a: nat, len: nat, needWritable: bool) {
    forall x :: a <= x < a + len ==> PathOpen(m, off, table, x, needWritable)
  }

  ghost predicate PathOpen(m: Mem, off: u64, table: u64, a: nat, needWritable: bool) {
    && a <= USER_SPACE_END && table % 4096 == 0
    && exists leaf :: UserPath(m, off, table / 4096, PageOf(a), leaf) && (needWritable ==> leaf.writable)
  }

  lemma TranslateUserIsFrame(m: Mem, off: u64, table: u64, a: nat, needWritable: bool)
    ensures var f := FrameOf(m, off, table, a, needWritable);
            TranslateUser(m, off, table, a, needWritable) == if f.None? then None else Some(f.value * 4096 + a % 4096)
  {
    assert a / 4096 * 4096 / 4096 == a / 4096;
    IndicesArePage(a / 4096 * 4096);
    if table % 4096 == 0 && UserWalkFrom(m, off, table / 4096, 4, PageOf(a)).Some? {
      UserWalkIsWalk(m, off, table / 4096, 4, PageOf(a));
      TranslateIsWalk(m, off, table, a);
    }
  }

  lemma UserFlagsIsFrame(m: Mem, off: u64, table: u64, n: nat, x: nat)
    requires x / 4096 == n && x <= USER_SPACE_END
    ensures UserFlags(m, off, table, n * 4096).Some? <==> FrameOf(m, off, table, x, false).Some?
  {
    assert n * 4096 / 4096 == n;
    IndicesArePage(n * 4096);
  }

  /** Every byte of `[a, a + len)` is a user address. */
  ghost predicate UserRange(m: Mem, off: u64, table: u64, a: nat, len: nat) {
    forall x :: a <= x < a + len ==> FrameOf(m, off, table, x, false).Some?
  }

  method IsUserRangeMapped(k: Machine, table: u64, addr: u64, len: u64) returns (b: bool)
    ensures len == 0 ==> b == (addr <= USER_SPACE_END)
    ensures len > 0 ==> b == UserRange(k.mem, k.physOffset, table, addr, len)
  {
    if addr > USER_SPACE_END {
      assert FrameOf(k.mem, k.physOffset, table, addr, false).None?;
      return false;
    }
    if len == 0 {
      return true;
    }
    var end := addr + len - 1;
    if end > USER_SPACE_END {
      assert FrameOf(k.mem, k.physOffset, table, end, false).None?;
      return false;
    }
    var page := addr / 4096;
    var endPage := end / 4096;
    while true
      invariant addr / 4096 <= page <= endPage
      invariant forall x :: addr <= x <= end && x / 4096 < page ==> FrameOf(k.mem, k.physOffset, table, x, false).Some?
      decreases endPage - page
    {
      if UserFlags(k.mem, k.physOffset, table, page * 4096).None? {
        ghost var x := if page == addr / 4096 then addr else page * 4096;
        UserFlagsIsFrame(k.mem, k.physOffset, table, page, x);
        return false;
      }
      forall x | addr <= x <= end && x / 4096 == page ensures FrameOf(k.mem, k.physOffset, table, x, false).Some? {
        UserFlagsIsFrame(k.mem, k.physOffset, table, page, x);
      }
      if page == endPage {
        return true;
      }
      page := page + 1;
    }
  }

  // ---- copying against a map from addresses to frames ----

  /** Which frame backs an address. */
  type FrameMap = nat -> Option<nat>

  ghost function UserFrames(m: Mem, off: u64, table: u64, needWritable: bool): FrameMap {
    a => FrameOf(m, off, table, a, needWritable)
  }

  /** `k` consecutive addresses from `cur` up lie side by side in frame `f`. */
  ghost predicate Contiguous(fr: FrameMap, cur: nat, k: nat, f: nat, o: nat) {
    && o + k <= 4096
    && forall x :: cur <= x < cur + k ==> fr(x) == Some(f) && x % 4096 == o + (x - cur)
  }

  lemma PageIsContiguous(m: Mem, off: u64, table: u64, needWritable: bool, cur: nat, k: nat, f: nat)
    requires cur % 4096 + k <= 4096 && cur + k <= USER_SPACE_END + 1
    requires FrameOf(m, off, table, cur, needWritable) == Some(f)
    ensures Contiguous(UserFrames(m, off, table, needWritable), cur, k, f, cur % 4096)
  {
    forall x | cur <= x < cur + k
      ensures FrameOf(m, off, table, x, needWritable) == Some(f) && x % 4096 == cur % 4096 + (x - cur)
    {
      assert x / 4096 == cur / 4096;
    }
  }

  ghost function ByteBehind(l: WordLayout, m: Mem, fr: FrameMap, a: nat): byte {
    if fr(a).Some? then Byte(l, m, fr(a).value, a % 4096) else 0
  }

  /** Memory read one byte at a time. */
  ghost function ReadBytes(l: WordLayout, m: Mem, fr: FrameMap, a: nat, n: nat): (s: seq<byte>)
    ensures |s| == n
  {
    if n == 0 then [] else ReadBytes(l, m, fr, a, n - 1) + [ByteBehind(l, m, fr, a + (n - 1))]
  }

  /** Byte `o` of frame `g` after `bs` was written one byte at a time from `a` up. */
  ghost function WrittenByte(l: WordLayout, m: Mem, fr: FrameMap, a: nat, bs: seq<byte>, g: nat, o: nat): byte
    requires o < 4096
    decreases |bs|
  {
    if bs == [] then Byte(l, m, g, o) else
    var n := |bs| - 1;
    if fr(a + n) == Some(g) && (a + n) % 4096 == o then bs[n] else WrittenByte(l, m, fr, a, bs[..n], g, o)
  }

  /** Memory `now` is `m` with `bs` written one byte at a time. */
  ghost predicate Written(l: WordLayout, m: Mem, now: Mem, fr: FrameMap, a: nat, bs: seq<byte>) {
    forall g, o :: 0 <= g && 0 <= o < 4096 ==> Byte(l, now, g, o) == WrittenByte(l, m, fr, a, bs, g, o)
  }

  /** The part of a copy that lies in one page is a slice of its frame. */
  lemma {:induction false} ReadStep(l: WordLayout, m: Mem, fr: FrameMap, a: nat, n: nat, e: nat, f: nat, o: nat)
    requires n <= e && Contiguous(fr, a + n, e - n, f, o)
    ensures ReadBytes(l, m, fr, a, n) + l.bytes(PageAt(m, f))[o..o + (e - n)] == ReadBytes(l, m, fr, a, e)
    decreases e
  {
    var bs := l.bytes(PageAt(m, f));
    if n < e {
      ReadStep(l, m, fr, a, n, e - 1, f, o);
      SliceSnoc(bs, o, o + (e - n));
      assert ByteBehind(l, m, fr, a + (e - 1)) == bs[o + (e - n) - 1];
    }
  }

  lemma SliceSnoc(s: seq<byte>, i: nat, j: nat)
    requires i < j <= |s|
    ensures s[i..j] == s[i..j - 1] + [s[j - 1]]
  {
  }

  lemma {:induction false} WrittenRun(l: WordLayout, m: Mem, fr: FrameMap, a: nat, bs: seq<byte>, n: nat, e: nat,
                                      f: nat, b: nat, g: nat, o: nat)
    requires n <= e <= |bs| && Contiguous(fr, a + n, e - n, f, b) && o < 4096
    ensures WrittenByte(l, m, fr, a, bs[..e], g, o)
            == if g == f && b <= o < b + (e - n) then bs[n + (o - b)] else WrittenByte(l, m, fr, a, bs[..n], g, o)
    decreases e
  {
    if n < e {
      assert bs[..e][..e - 1] == bs[..e - 1];
      WrittenRun(l, m, fr, a, bs, n, e - 1, f, b, g, o);
    }
  }

  /** Storing the part that lies in one page writes its bytes one at a time. */
  lemma WriteStep(l: WordLayout, m: Mem, now: Mem, fr: FrameMap, a: nat, bs: seq<byte>, n: nat, e: nat, f: nat, b: nat)
    requires n <= e <= |bs| && Contiguous(fr, a + n, e - n, f, b)
    requires Written(l, m, now, fr, a, bs[..n])
    ensures Written(l, m, StoreBytes(l, now, f, b, bs[n..e]), fr, a, bs[..e])
  {
    forall g, o | 0 <= g && 0 <= o < 4096
      ensures Byte(l, StoreBytes(l, now, f, b, bs[n..e]), g, o) == WrittenByte(l, m, fr, a, bs[..e], g, o)
    {
      ByteAfterStore(l, now, f, b, bs[n..e], g, o);
      WrittenRun(l, m, fr, a, bs, n, e, f, b, g, o);
    }
  }

  // ---- the two copies ----

  /** `a` is a user address inside the direct map. */
  ghost predicate Accessible(m: Mem, off: u64, table: u64, a: nat, needWritable: bool) {
    var f := FrameOf(m, off, table, a, needWritable);
    f.Some? && Reachable(off, f.value)
  }

  ghost predicate AccessibleRange(m: Mem, off: u64, table: u64, a: nat, len: nat, needWritable: bool) {
    forall x :: a <= x < a + len ==> Accessible(m, off, table, x, needWritable)
  }

  /** A range that can be copied is open to the user at every level. */
  lemma RangeIsOpen(m: Mem, off: u64, table: u64, a: nat, len: nat, needWritable: bool)
    ensures AccessibleRange(m, off, table, a, len, needWritable) || len == 0 ==>
      PathsOpen(m, off, table, a, len, needWritable) == true
  {
    if AccessibleRange(m, off, table, a, len, needWritable) {
      forall x | a <= x < a + len ensures PathOpen(m, off, table, x, needWritable) == true {
        assert Accessible(m, off, table, x, needWritable);
        FrameNeedsPath(m, off, table, x, needWritable);
      }
    }
  }

  lemma FrameAndOffset(f: nat, o: nat, off: nat)
    requires off % 4096 == 0 && o < 4096
    ensures (f * 4096 + o) / 4096 == f
    ensures f * 4096 + o + off < 0x1_0000_0000_0000_0000 <==> f * 4096 + off < 0x1_0000_0000_0000_0000
  {
  }

  /** What the start of a chunk tells about all of it. */
  lemma ChunkStart(m: Mem, off: u64, table: u64, cur: nat, k: nat, needWritable: bool)
    requires off % 4096 == 0 && cur % 4096 + k <= 4096 && cur + k <= USER_SPACE_END + 1
    ensures var t := TranslateUser(m, off, table, cur, needWritable);
            && (Accessible(m, off, table, cur, needWritable) <==> t.Some? && t.value + off < 0x1_0000_0000_0000_0000)
            && (t.Some? ==> FrameOf(m, off, table, cur, needWritable) == Some(t.value / 4096))
            && (t.Some? ==> Contiguous(UserFrames(m, off, table, needWritable), cur, k, t.value / 4096, cur % 4096))
            && (t.Some? && t.value + off < 0x1_0000_0000_0000_0000 ==>
                 forall x :: cur <= x < cur + k ==> Accessible(m, off, table, x, needWritable))
  {
    TranslateUserIsFrame(m, off, table, cur, needWritable);
    var f := FrameOf(m, off, table, cur, needWritable);
    if f.Some? {
      FrameAndOffset(f.value, cur % 4096, off);
      PageIsContiguous(m, off, table, needWritable, cur, k, f.value);
      var fr := UserFrames(m, off, table, needWritable);
      assert forall x :: cur <= x < cur + k ==> fr(x) == FrameOf(m, off, table, x, needWritable);
    }
  }

  method Blit(dst: array<byte>, from: nat, to: nat, bytes: seq<byte>)
    requires from <= to <= dst.Length && |bytes| == to - from
    modifies dst
    ensures dst[..to] == old(dst[..from]) + bytes
  {
    forall i | from <= i < to {
      dst[i] := bytes[i - from];
    }
  }

  /** Succeeds exactly when the whole range is mapped for the user and in the direct
      map, and then equals the copy of one byte at a time. */
  method CopyFromUser(k: Machine, table: u64, src: u64, dst: array<byte>) returns (r: Result<()>)
    requires k.physOffset % 4096 == 0
    modifies dst
    ensures r.Ok? ==
      (dst.Length == 0 || (src != 0 && AccessibleRange(k.mem, k.physOffset, table, src, dst.Length, false)))
    ensures r.Ok? ==>
      dst[..] == ReadBytes(k.layout, k.mem, UserFrames(k.mem, k.physOffset, table, false), src, dst.Length)
    ensures r.Ok? ==> PathsOpen(k.mem, k.physOffset, table, src, dst.Length, false) == true
    ensures r.Err? ==> r.error == InvalidAddress
  {
    RangeIsOpen(k.mem, k.physOffset, table, src, dst.Length, false);
    if dst.Length == 0 {
      return Ok(());
    }
    var end := src + dst.Length - 1;
    if src == 0 || src > USER_SPACE_END || end > USER_SPACE_END {
      assert !Accessible(k.mem, k.physOffset, table, end, false) || src == 0;
      return Err(InvalidAddress);
    }
    ghost var fr := UserFrames(k.mem, k.physOffset, table, false);
    var copied := 0;
    while copied < dst.Length
      invariant 0 <= copied <= dst.Length
      invariant AccessibleRange(k.mem, k.physOffset, table, src, copied, false)
      invariant dst[..copied] == ReadBytes(k.layout, k.mem, fr, src, copied)
    {
      var cur := src + copied;
      var o := cur % 4096;
      var chunk := if 4096 - o < dst.Length - copied then 4096 - o else dst.Length - copied;
      ChunkStart(k.mem, k.physOffset, table, cur, chunk, false);
      var t := TranslateUser(k.mem, k.physOffset, table, cur, false);
      if t.None? || t.value + k.physOffset >= 0x1_0000_0000_0000_0000 {
        return Err(InvalidAddress);
      }
      var next := copied + chunk;
      ReadStep(k.layout, k.mem, fr, src, copied, next, t.value / 4096, o);
      Blit(dst, copied, next, k.layout.bytes(PageAt(k.mem, t.value / 4096))[o..o + (next - copied)]);
      copied := next;
    }
    return Ok(());
  }

  lemma {:induction false} UserWalkFrame(m: Mem, m': Mem, off: u64, root: nat, own: map<nat, Path>, f: nat,
                                         level: Level, p: Vpn)
    requires Tree(m, root, own) && f in own && own[f] == PathAt(p, level)
    requires forall g :: g in own ==> PageAt(m', g) == PageAt(m, g)
    ensures UserWalkFrom(m', off, f, level, p) == UserWalkFrom(m, off, f, level, p)
    decreases level
  {
    var e := Entry(m, f, IndexAt(p, level));
    assert Entry(m', f, IndexAt(p, level)) == e;
    if PointsToTable(own[f], e) {
      UserWalkFrame(m, m', off, root, own, e.frame, level - 1, p);
    }
  }

  /** Writes outside the tables move no user page. */
  lemma UserFramesFrame(m: Mem, m': Mem, off: u64, table: u64, own: map<nat, Path>, needWritable: bool)
    requires Tree(m, table / 4096, own)
    requires forall g :: g in own ==> PageAt(m', g) == PageAt(m, g)
    ensures forall p :: UserFrame(m', off, table, p, needWritable) == UserFrame(m, off, table, p, needWritable)
  {
    TreeFrame(m, m', off, table / 4096, own);
    forall p ensures UserFrame(m', off, table, p, needWritable) == UserFrame(m, off, table, p, needWritable) {
      UserWalkFrame(m, m', off, table / 4096, own, table / 4096, 4, p);
    }
  }

  /** Pages the user may write are neither tables nor free frames. */
  ghost predicate UserApart(k: Machine, table: u64, own: map<nat, Path>)
    reads k
  {
    forall p :: var u := UserFrame(k.mem, k.physOffset, table, p, true); u.Some? ==>
      u.value !in own && u.value !in k.avail
  }

  /** Stores one chunk into a user page; tables, free list and user mappings stay. */
  method StoreChunk(k: Machine, table: u64, f: nat, o: nat, bytes: seq<byte>, ghost own: map<nat, Path>)
    requires Space(k, table / 4096, own) && UserApart(k, table, own)
    requires f !in own && f !in k.avail && o + |bytes| <= 4096
    modifies k`mem
    ensures Space(k, table / 4096, own) && UserApart(k, table, own)
    ensures k.mem == StoreBytes(k.layout, old(k.mem), f, o, bytes)
    ensures forall p ::
      UserFrame(k.mem, k.physOffset, table, p, true) == UserFrame(old(k.mem), k.physOffset, table, p, true)
  {
    ghost var m := k.mem;
    k.Overwrite(f, StoreBytes(k.layout, k.mem, f, o, bytes));
    TreeFrame(m, k.mem, k.physOffset, table / 4096, own);
    UserFramesFrame(m, k.mem, k.physOffset, table, own, true);
  }

  /** Where a copy to the user stops: before anything is written if the range is not in user
      space, else at the first byte that cannot be written. */
  ghost predicate FailsAt(m: Mem, off: u64, table: u64, dst: nat, len: nat, n: nat, e: Error) {
    if dst == 0 || dst + len > USER_SPACE_END + 1 then n == 0 && e == InvalidAddress
    else
      && n < len && AccessibleRange(m, off, table, dst, n, true) && !Accessible(m, off, table, dst + n, true)
      && e == if FrameOf(m, off, table, dst + n, true).None? then PermissionDenied else InvalidAddress
  }

  lemma StopsAt(m: Mem, off: u64, table: u64, dst: nat, len: nat, n: nat, cur: nat, t: Option<nat>)
    requires off % 4096 == 0 && 0 < dst && dst + len <= USER_SPACE_END + 1 && n < len && cur == dst + n
    requires AccessibleRange(m, off, table, dst, n, true) && t == TranslateUser(m, off, table, cur, true)
    requires t.None? || t.value + off >= U64_LIMIT
    ensures FailsAt(m, off, table, dst, len, n, if t.None? then PermissionDenied else InvalidAddress)
  {
    ChunkStart(m, off, table, cur, 1, true);
    TranslateUserIsFrame(m, off, table, cur, true);
  }

  /** Succeeds exactly when the whole range is writable by the user and in the direct
      map. The bytes written, all of them on success and a prefix on failure, land as if
      one at a time; tables, free list and every user mapping stay. */
  method CopyToUser(k: Machine, table: u64, dst: u64, src: seq<byte>, ghost own: map<nat, Path>)
    returns (r: Result<()>, ghost n: nat)
    requires k.physOffset % 4096 == 0
    requires Space(k, table / 4096, own) && UserApart(k, table, own)
    modifies k`mem
    ensures Space(k, table / 4096, own) && UserApart(k, table, own)
    ensures r.Ok? == (src == [] || (dst != 0 && AccessibleRange(old(k.mem), k.physOffset, table, dst, |src|, true)))
    ensures n <= |src| && (r.Ok? ==> n == |src|)
    ensures Written(k.layout, old(k.mem), k.mem, UserFrames(old(k.mem), k.physOffset, table, true), dst, src[..n])
    ensures forall g :: g in own ==> PageAt(k.mem, g) == PageAt(old(k.mem), g)
    ensures r.Ok? ==> PathsOpen(old(k.mem), k.physOffset, table, dst, |src|, true) == true
    ensures r.Err? ==> FailsAt(old(k.mem), k.physOffset, table, dst, |src|, n, r.error)
  {
    RangeIsOpen(k.mem, k.physOffset, table, dst, |src|, true);
    ghost var m := k.mem;
    n := 0;
    if src == [] {
      return Ok(()), 0;
    }
    var end := dst + |src| - 1;
    if dst == 0 || dst > USER_SPACE_END || end > USER_SPACE_END {
      assert !Accessible(m, k.physOffset, table, end, true) || dst == 0;
      return Err(InvalidAddress), 0;
    }
    var copied := 0;
    while copied < |src|
      invariant Copying(k, table, dst, src, copied, own, m)
    {
      var cur := dst + copied;
      var o := cur % 4096;
      var chunk := if 4096 - o < |src| - copied then 4096 - o else |src| - copied;
      var next := copied + chunk;
      ChunkStart(m, k.physOffset, table, cur, chunk, true);
      TranslateUserSame(m, k.mem, k.physOffset, table, cur, true);
      var t := TranslateUser(k.mem, k.physOffset, table, cur, true);
      if t.None? || t.value + k.physOffset >= U64_LIMIT {
        StopsAt(m, k.physOffset, table, dst, |src|, copied, cur, t);
        return Err(if t.None? then PermissionDenied else InvalidAddress), copied;
      }
      PutChunk(k, table, dst, src, copied, next, t.value / 4096, o, own, m);
      copied := next;
    }
    assert src[..copied] == src;
    return Ok(()), copied;
  }

  /** The first `copied` bytes have been written, and nothing else has changed. */
  ghost predicate Copying(k: Machine, table: u64, dst: nat, src: seq<byte>, copied: nat, own: map<nat, Path>, m: Mem)
    reads k
  {
    && copied <= |src| && Space(k, table / 4096, own) && UserApart(k, table, own)
    && (forall p :: UserFrame(k.mem, k.physOffset, table, p, true) == UserFrame(m, k.physOffset, table, p, true))
    && AccessibleRange(m, k.physOffset, table, dst, copied, true)
    && Written(k.layout, m, k.mem, UserFrames(m, k.physOffset, table, true), dst, src[..copied])
    && (forall g :: g in own ==> PageAt(k.mem, g) == PageAt(m, g))
  }

  /** Writes the part of the bytes that goes into one page. */
  method PutChunk(k: Machine, table: u64, dst: u64, src: seq<byte>, copied: nat, next: nat, f: nat, o: nat,
                  ghost own: map<nat, Path>, ghost m: Mem)
    requires Copying(k, table, dst, src, copied, own, m) && copied <= next <= |src|
    requires f !in own && f !in k.avail && o + (next - copied) <= 4096
    requires Contiguous(UserFrames(m, k.physOffset, table, true), dst + copied, next - copied, f, o)
    requires AccessibleRange(m, k.physOffset, table, dst + copied, next - copied, true)
    modifies k`mem
    ensures Copying(k, table, dst, src, next, own, m)
  {
    WriteStep(k.layout, m, k.mem, UserFrames(m, k.physOffset, table, true), dst, src, copied, next, f, o);
    StoreChunk(k, table, f, o, src[copied..next], own);
  }

  lemma TranslateUserSame(m: Mem, m': Mem, off: u64, table: u64, a: nat, needWritable: bool)
    requires forall p :: UserFrame(m', off, table, p, needWritable) == UserFrame(m, off, table, p, needWritable)
    ensures TranslateUser(m', off, table, a, needWritable) == TranslateUser(m, off, table, a, needWritable)
  {
    TranslateUserIsFrame(m, off, table, a, needWritable);
    TranslateUserIsFrame(m', off, table, a, needWritable);
  }

  /** Copying needs the range mapped for the user and its frames inside the direct map. */
  lemma AccessibleIsMapped(m: Mem, off: u64, table: u64, a: nat, len: nat)
    ensures AccessibleRange(m, off, table, a, len, false) <==>
      && UserRange(m, off, table, a, len)
      && (forall x :: a <= x < a + len && FrameOf(m, off, table, x, false).Some? ==>
            Reachable(off, FrameOf(m, off, table, x, false).value))
  {
    if AccessibleRange(m, off, table, a, len, false) {
      forall x | a <= x < a + len
        ensures FrameOf(m, off, table, x, false).Some? && Reachable(off, FrameOf(m, off, table, x, false).value)
      {
        assert Accessible(m, off, table, x, false);
      }
    }
  }

  lemma {:induction false} WalkBound(m: Mem, off: u64, f: nat, level: Level, p: Vpn)
    ensures var l := WalkFrom(m, off, f, level, p); l.Some? ==> l.value.frame < 0x100_0004_0000
    decreases level
  {
    if level > 1 {
      WalkBound(m, off, Entry(m, f, IndexAt(p, level)).frame, level - 1, p);
    }
  }

  /** Where the direct map has room for every physical address, mapped ranges can be copied. */
  lemma MappedIsCopied(m: Mem, off: u64, table: u64, a: nat, len: nat)
    requires off + 0x10_0000_4000_0000 <= U64_LIMIT
    ensures AccessibleRange(m, off, table, a, len, false) <==> UserRange(m, off, table, a, len)
  {
    forall x | a <= x < a + len && FrameOf(m, off, table, x, false).Some?
      ensures Reachable(off, FrameOf(m, off, table, x, false).value)
    {
      WalkBound(m, off, table / 4096, 4, PageOf(x));
    }
    AccessibleIsMapped(m, off, table, a, len);
  }

  /** Being mapped is not enough: the direct map may end before the frame. Here it starts
      at the high half, and the page is backed by the first frame it has no room for. */
  lemma MappedButNotCopied(m: Mem, off: u64, table: u64, a: nat, w: Word)
    requires off == 0xFFFF_8000_0000_0000 && table == 0x1000 && a == 0x1000
    requires w == Word(0, true, true, true, false, false, 0)
    requires m == map[1 := ZERO_PAGE[0 := w.(frame := 2)], 2 := ZERO_PAGE[0 := w.(frame := 3)],
                      3 := ZERO_PAGE[0 := w.(frame := 4)], 4 := ZERO_PAGE[1 := w.(frame := 0x8_0000_0000)]]
    ensures UserRange(m, off, table, a, 1) && !AccessibleRange(m, off, table, a, 1, false)
  {
    var p := Vpn(0, 0, 0, 1);
    NumberInjective(p, PageOf(a));
    assert UserWalkFrom(m, off, 4, 1, p) == Some(w.(frame := 0x8_0000_0000));
    assert UserWalkFrom(m, off, 3, 2, p) == UserWalkFrom(m, off, 4, 1, p);
    assert UserWalkFrom(m, off, 2, 3, p) == UserWalkFrom(m, off, 3, 2, p);
    assert UserWalkFrom(m, off, 1, 4, p) == UserWalkFrom(m, off, 2, 3, p);
    UserWalkIsWalk(m, off, 1, 4, p);
    FourSteps(m, off, p, w);
    assert !Accessible(m, off, table, a, false);
  }

  lemma FourSteps(m: Mem, off: u64, p: Vpn, w: Word)
    requires off == 0xFFFF_8000_0000_0000 && p == Vpn(0, 0, 0, 1) && w.present && !w.huge
    requires Entry(m, 1, 0) == w.(frame := 2) && Entry(m, 2, 0) == w.(frame := 3)
    requires Entry(m, 3, 0) == w.(frame := 4) && Entry(m, 4, 1) == w.(frame := 0x8_0000_0000)
    ensures Walk(m, off, 1, p) == Some(Leaf(0x8_0000_0000, w.(frame := 0x8_0000_0000), 1))
  {
    assert WalkFrom(m, off, 3, 2, p) == WalkFrom(m, off, 4, 1, p);
    assert WalkFrom(m, off, 2, 3, p) == WalkFrom(m, off, 3, 2, p);
  }

  // ---- writing and reading back ----

  /** Two addresses lead to the same byte of memory. */
  ghost predicate Aliased(fr: FrameMap, x: nat, y: nat) {
    fr(x).Some? && fr(x) == fr(y) && x % 4096 == y % 4096
  }

  /** Addresses that lead to the same byte are given the same value. */
  ghost predicate Consistent(fr: FrameMap, a: nat, bs: seq<byte>) {
    forall i, j :: 0 <= i < j < |bs| && Aliased(fr, a + i, a + j) ==> bs[i] == bs[j]
  }

  /** What was written last to a byte of memory was written to one of its addresses. */
  lemma {:induction false} LastWrite(l: WordLayout, m: Mem, fr: FrameMap, a: nat, bs: seq<byte>, i: nat)
    returns (j: nat)
    requires i < |bs| && fr(a + i).Some?
    ensures i <= j < |bs| && Aliased(fr, a + i, a + j)
    ensures WrittenByte(l, m, fr, a, bs, fr(a + i).value, (a + i) % 4096) == bs[j]
    decreases |bs|
  {
    var n := |bs| - 1;
    if fr(a + n) == fr(a + i) && (a + n) % 4096 == (a + i) % 4096 {
      j := n;
    } else {
      j := LastWrite(l, m, fr, a, bs[..n], i);
    }
  }

  lemma {:induction false} ReadBytesAt(l: WordLayout, m: Mem, fr: FrameMap, a: nat, n: nat, i: nat)
    requires i < n
    ensures ReadBytes(l, m, fr, a, n)[i] == ByteBehind(l, m, fr, a + i)
    decreases n
  {
    if i < n - 1 {
      ReadBytesAt(l, m, fr, a, n - 1, i);
    }
  }

  lemma {:induction false} ReadBytesPart(l: WordLayout, m: Mem, fr: FrameMap, a: nat, n: nat, i: nat, k: nat, b: nat)
    requires i + k <= n && b == a + i
    ensures ReadBytes(l, m, fr, b, k) == ReadBytes(l, m, fr, a, n)[i..i + k]
    decreases k
  {
    if k > 0 {
      ReadBytesPart(l, m, fr, a, n, i, k - 1, b);
      ReadBytesAt(l, m, fr, a, n, i + k - 1);
      SliceSnoc(ReadBytes(l, m, fr, a, n), i, i + k);
    }
  }

  lemma {:induction false} ReadsBack(l: WordLayout, m: Mem, fr: FrameMap, a: nat, bs: seq<byte>)
    requires forall i :: 0 <= i < |bs| ==> ByteBehind(l, m, fr, a + i) == bs[i]
    ensures ReadBytes(l, m, fr, a, |bs|) == bs
    decreases |bs|
  {
    if bs != [] {
      var n := |bs| - 1;
      ReadsBack(l, m, fr, a, bs[..n]);
      assert bs == bs[..n] + [bs[n]];
    }
  }

  /** Bytes written are read back exactly if the addresses of the range do not contradict
      each other. */
  lemma WrittenReadsBack(l: WordLayout, m: Mem, now: Mem, fr: FrameMap, a: nat, bs: seq<byte>)
    requires Written(l, m, now, fr, a, bs) && forall x :: a <= x < a + |bs| ==> fr(x).Some?
    ensures ReadBytes(l, now, fr, a, |bs|) == bs <==> Consistent(fr, a, bs)
  {
    if Consistent(fr, a, bs) {
      forall i | 0 <= i < |bs| ensures ByteBehind(l, now, fr, a + i) == bs[i] {
        var j := LastWrite(l, m, fr, a, bs, i);
      }
      ReadsBack(l, now, fr, a, bs);
    }
    if ReadBytes(l, now, fr, a, |bs|) == bs {
      forall i, j | 0 <= i < j < |bs| && Aliased(fr, a + i, a + j) ensures bs[i] == bs[j] {
        ReadBytesAt(l, now, fr, a, |bs|, i);
        ReadBytesAt(l, now, fr, a, |bs|, j);
      }
    }
  }

  lemma {:induction false} ReadBytesSame(l: WordLayout, m: Mem, fr: FrameMap, fr': FrameMap, a: nat, n: nat)
    requires forall x :: a <= x < a + n ==> fr(x) == fr'(x)
    ensures ReadBytes(l, m, fr, a, n) == ReadBytes(l, m, fr', a, n)
    decreases n
  {
    if n > 0 {
      ReadBytesSame(l, m, fr, fr', a, n - 1);
    }
  }

  /** What can be written can be read, in the same frame. */
  lemma WritableIsReadable(m: Mem, m': Mem, off: u64, table: u64, own: map<nat, Path>, a: nat, len: nat)
    requires Tree(m, table / 4096, own) && forall g :: g in own ==> PageAt(m', g) == PageAt(m, g)
    requires AccessibleRange(m, off, table, a, len, true)
    ensures AccessibleRange(m', off, table, a, len, false)
    ensures forall x :: a <= x < a + len ==>
              UserFrames(m', off, table, false)(x) == UserFrames(m, off, table, true)(x)
                && UserFrames(m, off, table, true)(x).Some?
  {
    UserFramesFrame(m, m', off, table, own, false);
    forall x | a <= x < a + len
      ensures FrameOf(m', off, table, x, false) == FrameOf(m, off, table, x, true)
        && Accessible(m', off, table, x, false)
    {
      assert Accessible(m, off, table, x, true);
    }
  }

  /** Copying to the user and back: once the first copy succeeds, so does the second, and it
      returns the bytes exactly if the addresses of the range do not contradict each other. */
  method CopyThereAndBack(k: Machine, table: u64, addr: u64, src: seq<byte>, dst: array<byte>,
                          ghost own: map<nat, Path>)
    returns (r: Result<()>, c: Result<()>)
    requires k.physOffset % 4096 == 0 && dst.Length == |src|
    requires Space(k, table / 4096, own) && UserApart(k, table, own)
    modifies k`mem, dst
    ensures r.Ok? ==> c.Ok?
    ensures r.Ok? ==> (dst[..] == src <==> Consistent(UserFrames(old(k.mem), k.physOffset, table, true), addr, src))
  {
    ghost var m, n := k.mem, 0;
    r, n := CopyToUser(k, table, addr, src, own);
    if r.Ok? && src != [] {
      assert src[..n] == src;
      ghost var fr, fr' := UserFrames(m, k.physOffset, table, true), UserFrames(k.mem, k.physOffset, table, false);
      WritableIsReadable(m, k.mem, k.physOffset, table, own, addr, |src|);
      WrittenReadsBack(k.layout, m, k.mem, fr, addr, src);
      ReadBytesSame(k.layout, k.mem, fr', fr, addr, |src|);
    }
    c := CopyFromUser(k, table, addr, dst);
  }
}
