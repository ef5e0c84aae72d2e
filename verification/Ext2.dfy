/** The reader of the ext2 image the kernel boots from. */
module Ext2 {
  import opened Memory
  import opened Bytes

  const EXT2_MAGIC: nat := 0xEF53

  function Pow2(n: nat): (p: nat)
    ensures p > 0
  {
    if n == 0 then 1 else 2 * Pow2(n - 1)
  }

  datatype Superblock = Superblock(blockSize: nat, inodeSize: nat, inodesPerGroup: nat)

  /** 1024 shifted left in 32 bits: no shift by 32 or more, and high bits are lost. */
  function BlockSize(log: nat): Option<nat> {
    if log >= 32 then None else Some(1024 * Pow2(log) % 0x1_0000_0000)
  }

  function SuperblockOf(image: seq<byte>): Option<Superblock> {
    if |image| < 2048 || Read(image, 1024 + 56, 2) != Some(EXT2_MAGIC) then None else
    match BlockSize(Read(image, 1024 + 24, 4).value)
    case None => None
    case Some(size) => Some(Superblock(size, Read(image, 1024 + 88, 2).value, Read(image, 1024 + 40, 4).value))
  }

  /** Block sizes are 0 or powers of two from 1024 to 2^31. */
  predicate Sane(sb: Superblock) {
    sb.blockSize == 0 || (1024 <= sb.blockSize <= 0x8000_0000 && sb.blockSize % 4 == 0)
  }

  lemma {:induction false} Pow2Sum(a: nat, b: nat)
    ensures Pow2(a + b) == Pow2(a) * Pow2(b)
    decreases a
  {
    if a > 0 {
      Pow2Sum(a - 1, b);
    }
  }

  lemma Pow2At21()
    ensures Pow2(21) == 0x20_0000 && Pow2(22) == 0x40_0000
  {
    assert Pow2(5) == 32 && Pow2(10) == 1024;
    Pow2Sum(10, 11);
  }

  lemma BlockSizeSane(log: nat)
    requires log < 32
    ensures var size := 1024 * Pow2(log) % 0x1_0000_0000;
            size == 0 || (1024 <= size <= 0x8000_0000 && size % 4 == 0)
  {
    Pow2At21();
    if log >= 22 {
      Pow2Sum(22, log - 22);
      Overflowing(Pow2(log), Pow2(log - 22));
    } else {
      Pow2Sum(log, 21 - log);
      Fitting(Pow2(log), Pow2(21 - log));
    }
  }

  lemma Overflowing(p: nat, q: nat)
    requires p == 0x40_0000 * q
    ensures 1024 * p % 0x1_0000_0000 == 0
  {
  }

  lemma Fitting(p: nat, q: nat)
    requires p > 0 && q > 0 && p * q == 0x20_0000
    ensures 1024 <= 1024 * p % 0x1_0000_0000 <= 0x8000_0000 && 1024 * p % 0x1_0000_0000 % 4 == 0
  {
  }

  lemma MulMono(a: nat, b: nat, c: nat)
    requires a <= b
    ensures a * c <= b * c
  {
  }

  lemma SuperblockSane(image: seq<byte>)
    requires SuperblockOf(image).Some?
    ensures Sane(SuperblockOf(image).value)
  {
    BlockSizeSane(Read(image, 1024 + 24, 4).value);
  }

  // ---- inodes ----

  datatype Inode = Inode(mode: nat, size: nat, blocks: seq<nat>)

  predicate IsDir(mode: nat) { mode / 0x4000 % 2 == 1 }

  function InodeTable(image: seq<byte>, sb: Superblock, group: nat): Option<nat> {
    var table := if sb.blockSize == 1024 then sb.blockSize * 2 else sb.blockSize;
    Read(image, table + group * 32 + 8, 4)
  }

  function RecordAt(sb: Superblock, table: nat, index: nat): nat {
    table * sb.blockSize + index * sb.inodeSize
  }

  /** Where the record of an inode starts. */
  function InodeOffset(image: seq<byte>, sb: Superblock, number: nat): Option<nat> {
    if number == 0 || sb.inodesPerGroup == 0 then None else
    match InodeTable(image, sb, (number - 1) / sb.inodesPerGroup)
    case None => None
    case Some(table) => Some(RecordAt(sb, table, (number - 1) % sb.inodesPerGroup))
  }

  function InodeOf(image: seq<byte>, sb: Superblock, number: nat): Option<Inode> {
    match InodeOffset(image, sb, number)
    case None => None
    case Some(off) =>
      if off + 100 > |image| then None else
      Some(Inode(Read(image, off, 2).value, Read(image, off + 4, 4).value, Pointers(image, off + 40, 15)))
  }

  /** `n` block numbers stored in a row. */
  function Pointers(image: seq<byte>, off: nat, n: nat): (s: seq<nat>)
    requires off + n * 4 <= |image|
    ensures |s| == n
  {
    if n == 0 then [] else Pointers(image, off, n - 1) + [Read(image, off + (n - 1) * 4, 4).value]
  }

  lemma {:induction false} PointersAt(image: seq<byte>, off: nat, n: nat, i: nat)
    requires off + n * 4 <= |image| && i < n
    ensures Pointers(image, off, n)[i] == Read(image, off + i * 4, 4).value
    decreases n
  {
    if i < n - 1 {
      PointersAt(image, off, n - 1, i);
    }
  }

  /** Reads an inode, failing where the image ends. */
  method ReadInode(image: seq<byte>, sb: Superblock, number: nat) returns (r: Option<Inode>)
    ensures r == InodeOf(image, sb, number)
  {
    var offset := InodeOffset(image, sb, number);
    if offset.None? {
      return None;
    }
    var off := offset.value;
    var mode, size := Read(image, off, 2), Read(image, off + 4, 4);
    if mode.None? || size.None? {
      return None;
    }
    var blocks, start := [], off + 40;
    for i := 0 to 15
      invariant i > 0 ==> start + i * 4 <= |image|
      invariant start + i * 4 <= |image| ==> blocks == Pointers(image, start, i)
    {
      var block := Read(image, start + i * 4, 4);
      if block.None? {
        return None;
      }
      blocks := blocks + [block.value];
    }
    return Some(Inode(mode.value, size.value, blocks));
  }

  // ---- blocks ----

  function BlockSlice(image: seq<byte>, size: nat, block: nat): (r: Option<seq<byte>>)
    ensures r.Some? ==> |r.value| == size
  {
    if block == 0 || block * size + size > |image| then None else Some(image[block * size..block * size + size])
  }

  /** Entry `i` of an indirect block. */
  function Single(image: seq<byte>, size: nat, block: nat, i: nat): Option<nat> {
    match BlockSlice(image, size, block)
    case None => None
    case Some(table) => Read(table, i * 4, 4)
  }

  /** Entry `i` behind a double-indirect block. */
  function Double(image: seq<byte>, size: nat, per: nat, block: nat, i: nat): Option<nat>
    requires per > 0
  {
    match Single(image, size, block, i / per)
    case None => None
    case Some(entry) => Single(image, size, entry, i % per)
  }

  /** The block that holds logical block `n`, as the kernel finds it. */
  function DataBlockNumber(image: seq<byte>, sb: Superblock, ino: Inode, n: nat): Option<nat>
    requires |ino.blocks| == 15 && Sane(sb)
  {
    var size := sb.blockSize;
    if size == 0 then None else
    var per := size / 4;
    if n < 12 then Some(ino.blocks[n])
    else if n - 12 < per then Single(image, size, ino.blocks[12], n - 12)
    else if n - 12 - per < per * per then Double(image, size, per, ino.blocks[13], n - 12 - per)
    else None
  }

  /** The `per` block numbers an indirect block holds, all missing if the block is. */
  ghost function Indirect(image: seq<byte>, size: nat, per: nat, block: Option<nat>): (s: seq<Option<nat>>)
    ensures |s| == per
  {
    seq(per, i requires 0 <= i < per => if block.None? then None else Single(image, size, block.value, i))
  }

  /** The block numbers behind the first `k` of the given indirect blocks, in a row. */
  ghost function Spread(image: seq<byte>, size: nat, per: nat, entries: seq<Option<nat>>, k: nat): (s: seq<Option<nat>>)
    requires k <= |entries|
    ensures |s| == Times(k, per)
  {
    if k == 0 then [] else Spread(image, size, per, entries, k - 1) + Indirect(image, size, per, entries[k - 1])
  }

  /** `k * per` by repeated addition. */
  ghost function Times(k: nat, per: nat): nat {
    if k == 0 then 0 else Times(k - 1, per) + per
  }

  lemma {:induction false} TimesIsProduct(k: nat, per: nat)
    ensures Times(k, per) == k * per
    decreases k
  {
    if k > 0 {
      TimesIsProduct(k - 1, per);
    }
  }

  /** The block map of a file: twelve direct blocks, those of the indirect block, those of
      the double-indirect block. */
  ghost function BlockMap(image: seq<byte>, size: nat, ino: Inode): seq<Option<nat>>
    requires |ino.blocks| == 15
  {
    var per := size / 4;
    seq(12, i requires 0 <= i < 12 => Some(ino.blocks[i]))
    + Indirect(image, size, per, Some(ino.blocks[12]))
    + Spread(image, size, per, Indirect(image, size, per, Some(ino.blocks[13])), per)
  }

  lemma {:induction false} SpreadAt(image: seq<byte>, size: nat, per: nat, entries: seq<Option<nat>>, k: nat, i: nat,
                                    r: nat)
    requires i < k <= |entries| && r < per
    ensures Times(i, per) + r < Times(k, per)
    ensures Spread(image, size, per, entries, k)[Times(i, per) + r] == Indirect(image, size, per, entries[i])[r]
    decreases k
  {
    if i < k - 1 {
      SpreadAt(image, size, per, entries, k - 1, i, r);
    }
  }

  lemma Split(n: nat, per: nat)
    requires n < per * per
    ensures n == n / per * per + n % per && n / per < per && n % per < per
  {
  }

  lemma DoubleIsSpread(image: seq<byte>, size: nat, per: nat, block: nat, n: nat)
    requires n < per * per
    ensures n < Times(per, per)
    ensures Double(image, size, per, block, n) ==
      Spread(image, size, per, Indirect(image, size, per, Some(block)), per)[n]
  {
    Split(n, per);
    TimesIsProduct(per, per);
    TimesIsProduct(n / per, per);
    SpreadAt(image, size, per, Indirect(image, size, per, Some(block)), per, n / per, n % per);
  }

  /** The index arithmetic of the kernel finds the entry of the block map. */
  lemma DataBlockIsMapped(image: seq<byte>, sb: Superblock, ino: Inode, n: nat)
    requires |ino.blocks| == 15 && Sane(sb) && sb.blockSize > 0
    ensures var blocks := BlockMap(image, sb.blockSize, ino);
            DataBlockNumber(image, sb, ino, n) == if n < |blocks| then blocks[n] else None
  {
    var size, per := sb.blockSize, sb.blockSize / 4;
    TimesIsProduct(per, per);
    if n >= 12 + per && n - 12 - per < per * per {
      DoubleIsSpread(image, size, per, ino.blocks[13], n - 12 - per);
    }
  }

  /** No offset computed from 32-bit block and inode numbers leaves 64 bits. */
  lemma OffsetsFit(image: seq<byte>, sb: Superblock, number: nat, block: nat)
    requires Sane(sb) && sb.inodeSize < 0x1_0000 && number < 0x1_0000_0000 && block < 0x1_0000_0000
    ensures block * sb.blockSize + sb.blockSize < 0x1_0000_0000_0000_0000
    ensures InodeOffset(image, sb, number).Some? ==>
      InodeOffset(image, sb, number).value + 100 < 0x1_0000_0000_0000_0000
  {
    ProductFits(block, 0x1_0000_0000, sb.blockSize, 0x8000_0000);
    if number > 0 && sb.inodesPerGroup > 0 {
      var table := InodeTable(image, sb, (number - 1) / sb.inodesPerGroup);
      if table.Some? {
        InodeTableIsWord(image, sb, (number - 1) / sb.inodesPerGroup);
        ProductFits(table.value, 0x1_0000_0000, sb.blockSize, 0x8000_0000);
        ProductFits((number - 1) % sb.inodesPerGroup, 0x1_0000_0000, sb.inodeSize, 0x1_0000);
      }
    }
  }

  lemma InodeTableIsWord(image: seq<byte>, sb: Superblock, group: nat)
    requires InodeTable(image, sb, group).Some?
    ensures InodeTable(image, sb, group).value < 0x1_0000_0000
  {
    var off := (if sb.blockSize == 1024 then sb.blockSize * 2 else sb.blockSize) + group * 32 + 8;
    ToFromLe(image[off..off + 4]);
    Widths();
  }

  lemma ProductFits(a: nat, x: nat, b: nat, y: nat)
    requires a <= x && b <= y
    ensures a * b <= x * y
  {
  }

  // ---- file contents ----

  /** The contents of a mapped block: block number 0 is a hole of zeros. */
  function BlockData(image: seq<byte>, size: nat, block: Option<nat>): (r: Option<seq<byte>>)
    ensures r.Some? ==> |r.value| == size
  {
    if block.None? then None else if block.value == 0 then Some(Zeroes(size)) else BlockSlice(image, size, block.value)
  }

  /** Logical block `n` of a file. */
  ghost function LogicalBlock(image: seq<byte>, size: nat, ino: Inode, n: nat): (r: Option<seq<byte>>)
    requires |ino.blocks| == 15
    ensures r.Some? ==> |r.value| == size
  {
    var blocks := BlockMap(image, size, ino);
    BlockData(image, size, if n < |blocks| then blocks[n] else None)
  }

  /** How the logical blocks of a file are read. */
  type BlockReader = nat -> Option<seq<byte>>

  ghost function Reader(image: seq<byte>, size: nat, ino: Inode): (read: BlockReader)
    requires |ino.blocks| == 15
    ensures Sized(read, size)
  {
    n => LogicalBlock(image, size, ino, n)
  }

  ghost predicate Sized(read: BlockReader, size: nat) {
    forall n :: read(n).Some? ==> |read(n).value| == size
  }

  /** The first `n` logical blocks in a row, if all of them can be read. */
  ghost function Blocks(read: BlockReader, size: nat, n: nat): (r: Option<seq<byte>>)
    requires Sized(read, size)
    ensures r.Some? ==> |r.value| == Times(n, size)
  {
    if n == 0 then Some([]) else
    match Blocks(read, size, n - 1)
    case None => None
    case Some(s) =>
      match read(n - 1)
      case None => None
      case Some(b) => Some(s + b)
  }

  function BlocksNeeded(fileSize: nat, size: nat): nat
    requires size > 0
  {
    (fileSize + size - 1) / size
  }

  /** What a file holds. */
  ghost function FileContent(image: seq<byte>, sb: Superblock, ino: Inode): Option<seq<byte>>
    requires |ino.blocks| == 15 && sb.blockSize > 0
  {
    if IsDir(ino.mode) || ino.size == 0 then Some([]) else
    Truncated(Reader(image, sb.blockSize, ino), sb.blockSize, ino.size)
  }

  /** The first `fileSize` bytes of the blocks. */
  ghost function Truncated(read: BlockReader, size: nat, fileSize: nat): Option<seq<byte>>
    requires Sized(read, size) && size > 0 && fileSize > 0
  {
    NeededFits(fileSize, size);
    match Blocks(read, size, BlocksNeeded(fileSize, size))
    case None => None
    case Some(s) => Some(s[..fileSize])
  }

  lemma {:induction false} BlocksAt(read: BlockReader, size: nat, n: nat, i: nat, x: nat)
    requires Sized(read, size) && i < n && x < size && Blocks(read, size, n).Some?
    ensures read(i).Some? && Times(i, size) + x < Times(n, size)
    ensures Blocks(read, size, n).value[Times(i, size) + x] == read(i).value[x]
    decreases n
  {
    if i < n - 1 {
      BlocksAt(read, size, n - 1, i, x);
    }
  }

  lemma {:induction false} BlocksReadable(read: BlockReader, size: nat, n: nat)
    requires Sized(read, size)
    ensures Blocks(read, size, n).Some? <==> forall i :: 0 <= i < n ==> read(i).Some?
    decreases n
  {
    if n > 0 {
      BlocksReadable(read, size, n - 1);
    }
  }

  /** The blocks needed are just enough. */
  lemma NeededFits(fileSize: nat, size: nat)
    requires size > 0 && fileSize > 0
    ensures var n := BlocksNeeded(fileSize, size);
            n > 0 && Times(n - 1, size) < fileSize <= Times(n, size)
  {
    var n := BlocksNeeded(fileSize, size);
    Ceiling(fileSize, size, n);
    TimesIsProduct(n, size);
    TimesIsProduct(n - 1, size);
  }

  lemma Ceiling(fileSize: nat, size: nat, n: nat)
    requires size > 0 && fileSize > 0 && n == (fileSize + size - 1) / size
    ensures n > 0 && (n - 1) * size < fileSize <= n * size
  {
  }

  lemma ByteParts(i: nat, size: nat, n: nat)
    requires size > 0 && i < Times(n, size)
    ensures i == Times(i / size, size) + i % size && i / size < n
  {
    TimesIsProduct(n, size);
    TimesIsProduct(i / size, size);
    var q := i / size;
    if q >= n { MulMono(n, q, size); }
  }

  /** Byte `i` of the blocks: byte `i % size` of block `i / size`. */
  ghost function ByteOf(read: BlockReader, size: nat, i: nat): Option<byte>
    requires Sized(read, size) && size > 0
  {
    var b := read(i / size);
    if b.None? then None else Some(b.value[i % size])
  }

  /** A file can be read exactly when all its blocks can; then it has the size the inode
      says, and byte `i` is byte `i % blockSize` of logical block `i / blockSize`. */
  lemma FileBytes(image: seq<byte>, sb: Superblock, ino: Inode, i: nat)
    requires |ino.blocks| == 15 && sb.blockSize > 0 && !IsDir(ino.mode)
    ensures var r, read := FileContent(image, sb, ino), Reader(image, sb.blockSize, ino);
            && (r.Some? <==> forall n :: 0 <= n < BlocksNeeded(ino.size, sb.blockSize) ==> read(n).Some?)
            && (r.Some? ==> |r.value| == ino.size)
            && (r.Some? && i < ino.size ==> ByteOf(read, sb.blockSize, i) == Some(r.value[i]))
  {
    if ino.size > 0 {
      TruncatedBytes(Reader(image, sb.blockSize, ino), sb.blockSize, ino.size, i);
    } else {
      Below(sb.blockSize - 1, sb.blockSize);
    }
  }

  lemma TruncatedBytes(read: BlockReader, size: nat, fileSize: nat, i: nat)
    requires Sized(read, size) && size > 0 && fileSize > 0
    ensures var r := Truncated(read, size, fileSize);
            && (r.Some? <==> forall n :: 0 <= n < BlocksNeeded(fileSize, size) ==> read(n).Some?)
            && (r.Some? ==> |r.value| == fileSize)
            && (r.Some? && i < fileSize ==> ByteOf(read, size, i) == Some(r.value[i]))
  {
    var n := BlocksNeeded(fileSize, size);
    BlocksReadable(read, size, n);
    NeededFits(fileSize, size);
    if Blocks(read, size, n).Some? && i < fileSize {
      ByteParts(i, size, n);
      BlocksAt(read, size, n, i / size, i % size);
    }
  }

  lemma Below(x: nat, m: nat)
    requires x < m
    ensures x / m == 0
  {
  }

  /** Reads a whole file, block by block. */
  method ReadInodeData(image: seq<byte>, sb: Superblock, number: nat) returns (r: Option<seq<byte>>)
    requires Sane(sb) && sb.blockSize > 0
    ensures InodeOf(image, sb, number).None? ==> r.None?
    ensures InodeOf(image, sb, number).Some? ==> r == FileContent(image, sb, InodeOf(image, sb, number).value)
  {
    var inode := ReadInode(image, sb, number);
    if inode.None? {
      return None;
    }
    var ino, size := inode.value, sb.blockSize;
    if IsDir(ino.mode) || ino.size == 0 {
      return Some([]);
    }
    r := ReadBlocks(image, sb, ino, Reader(image, size, ino));
  }

  method ReadBlocks(image: seq<byte>, sb: Superblock, ino: Inode, ghost read: BlockReader)
    returns (r: Option<seq<byte>>)
    requires Sane(sb) && sb.blockSize > 0 && |ino.blocks| == 15 && ino.size > 0
    requires read == Reader(image, sb.blockSize, ino)
    ensures r == Truncated(read, sb.blockSize, ino.size)
  {
    var size, buf: seq<byte> := sb.blockSize, [];
    var needed := BlocksNeeded(ino.size, size);
    NeededFits(ino.size, size);
    for n := 0 to needed
      invariant Progress(read, size, ino.size, n, needed, buf)
    {
      var data := ReadBlock(image, sb, ino, n, read);
      if data.None? {
        BlocksReadable(read, size, needed);
        return None;
      }
      ProgressStep(read, size, ino.size, n, needed, buf, data.value);
      var take := if size < ino.size - |buf| then size else ino.size - |buf|;
      buf := buf + data.value[..take];
    }
    return Some(buf);
  }

  method ReadBlock(image: seq<byte>, sb: Superblock, ino: Inode, n: nat, ghost read: BlockReader)
    returns (r: Option<seq<byte>>)
    requires Sane(sb) && sb.blockSize > 0 && |ino.blocks| == 15 && read == Reader(image, sb.blockSize, ino)
    ensures r == read(n)
  {
    DataBlockIsMapped(image, sb, ino, n);
    r := BlockData(image, sb.blockSize, DataBlockNumber(image, sb, ino, n));
  }

  /** The buffer after `n` blocks: all of them, cut off at the end of the file. */
  ghost predicate Progress(read: BlockReader, size: nat, fileSize: nat, n: nat, needed: nat, buf: seq<byte>)
    requires Sized(read, size)
  {
    && n <= needed && Blocks(read, size, n).Some?
    && (n < needed ==> |buf| < fileSize && buf == Blocks(read, size, n).value)
    && (n == needed ==> fileSize <= Times(n, size) && buf == Blocks(read, size, n).value[..fileSize])
  }

  lemma ProgressStep(read: BlockReader, size: nat, fileSize: nat, n: nat, needed: nat, buf: seq<byte>, data: seq<byte>)
    requires Sized(read, size) && Progress(read, size, fileSize, n, needed, buf) && n < needed && read(n) == Some(data)
    requires Times(needed - 1, size) < fileSize <= Times(needed, size)
    ensures var take := if size < fileSize - |buf| then size else fileSize - |buf|;
            Progress(read, size, fileSize, n + 1, needed, buf + data[..take])
  {
    TimesMono(n + 1, needed - 1, size);
    if n + 1 < needed {
      assert data[..size] == data;
    } else {
      assert (buf + data)[..fileSize] == buf + data[..fileSize - |buf|];
    }
  }

  lemma {:induction false} TimesMono(a: nat, b: int, size: nat)
    ensures a <= b ==> Times(a, size) <= Times(b, size)
    decreases b
  {
    if a < b {
      TimesMono(a, b - 1, size);
    }
  }
}
