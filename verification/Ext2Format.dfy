/** The ext2 format on disk, and that the reader gives back what an image holds. */
module Ext2Format {
  import opened Memory
  import opened Bytes
  import opened Ext2
  import opened Ext2Paths

  /** The image holds the number `v` in `width` bytes at `at`, little-endian. */
  ghost predicate Word(image: seq<byte>, at: nat, width: nat, v: nat) {
    at + width <= |image| && v < Pow256(width) && image[at..at + width] == ToLe(v, width)
  }

  lemma WordIsRead(image: seq<byte>, at: nat, width: nat, v: nat)
    requires Word(image, at, width, v)
    ensures Read(image, at, width) == Some(v)
  {
    FromToLe(v, width);
  }

  // ---- superblock and inodes ----

  /** The superblock, at byte 1024: magic number, block size as a power of two from 1024 on, size
      of an inode record, inodes per group. */
  ghost predicate Formatted(image: seq<byte>, log: nat, sb: Superblock) {
    && |image| >= 2048 && log < 22 && sb.blockSize == 1024 * Pow2(log)
    && Word(image, 1024 + 56, 2, 0xEF53) && Word(image, 1024 + 24, 4, log)
    && Word(image, 1024 + 88, 2, sb.inodeSize) && Word(image, 1024 + 40, 4, sb.inodesPerGroup)
  }

  lemma SuperblockIsRead(image: seq<byte>, log: nat, sb: Superblock)
    requires Formatted(image, log, sb)
    ensures SuperblockOf(image) == Some(sb) && Sane(sb) && sb.blockSize > 0
  {
    WordIsRead(image, 1024 + 56, 2, 0xEF53);
    WordIsRead(image, 1024 + 24, 4, log);
    WordIsRead(image, 1024 + 88, 2, sb.inodeSize);
    WordIsRead(image, 1024 + 40, 4, sb.inodesPerGroup);
    NoShiftOut(log, Pow2(log));
    SuperblockSane(image);
  }

  lemma NoShiftOut(log: nat, p: nat)
    requires log < 22 && p == Pow2(log)
    ensures 1024 * p < 0x1_0000_0000
  {
    Pow2At21();
    Pow2Sum(log, 21 - log);
    Factor(p, Pow2(21 - log));
  }

  lemma Factor(p: nat, q: nat)
    requires p * q == 0x20_0000
    ensures p <= 0x20_0000
  {
  }

  /** The group descriptors start in the block after the one that holds the superblock. */
  ghost function Descriptors(sb: Superblock): nat
    requires sb.blockSize > 0
  {
    (1024 / sb.blockSize + 1) * sb.blockSize
  }

  /** The record of an inode at `at`: mode at 0, size at 4, fifteen block pointers at 40. */
  ghost predicate Record(image: seq<byte>, at: nat, ino: Inode) {
    && |ino.blocks| == 15 && Word(image, at, 2, ino.mode) && Word(image, at + 4, 4, ino.size)
    && forall b :: 0 <= b < 15 ==> Word(image, at + 40 + b * 4, 4, ino.blocks[b])
  }

  /** Inode `index` of a group lies in the table that the descriptor names at its byte 8. */
  ghost predicate InodeAt(image: seq<byte>, sb: Superblock, group: nat, index: nat, table: nat, ino: Inode)
    requires sb.blockSize > 0
  {
    && index < sb.inodesPerGroup
    && Word(image, Descriptors(sb) + group * 32 + 8, 4, table)
    && Record(image, RecordPlace(sb, table, index), ino)
  }

  ghost function RecordPlace(sb: Superblock, table: nat, index: nat): nat {
    table * sb.blockSize + index * sb.inodeSize
  }

  ghost function NumberOf(sb: Superblock, group: nat, index: nat): nat {
    sb.inodesPerGroup * group + index + 1
  }

  /** Inodes are numbered from 1, group after group. */
  ghost predicate HoldsInode(image: seq<byte>, sb: Superblock, number: nat, ino: Inode)
    requires sb.blockSize > 0
  {
    exists group, index, table ::
      InodeAt(image, sb, group, index, table, ino) && number == NumberOf(sb, group, index)
  }

  lemma InodeIsRead(image: seq<byte>, sb: Superblock, number: nat, ino: Inode)
    requires Sane(sb) && sb.blockSize > 0 && HoldsInode(image, sb, number, ino)
    ensures InodeOf(image, sb, number) == Some(ino)
  {
    var group, index, table :| InodeAt(image, sb, group, index, table, ino) && number == NumberOf(sb, group, index);
    NumberParts(sb, number, group, index);
    TableIsRead(image, sb, group, table);
    InodeOfRecord(image, sb, number, group, index, table, RecordPlace(sb, table, index), ino);
  }

  lemma NumberParts(sb: Superblock, number: nat, group: nat, index: nat)
    requires index < sb.inodesPerGroup && number == NumberOf(sb, group, index)
    ensures number > 0
    ensures (number - 1) / sb.inodesPerGroup == group && (number - 1) % sb.inodesPerGroup == index
  {
    Quotient(number - 1, sb.inodesPerGroup, group, index);
  }

  lemma TableIsRead(image: seq<byte>, sb: Superblock, group: nat, table: nat)
    requires sb.blockSize >= 1024 && Word(image, Descriptors(sb) + group * 32 + 8, 4, table)
    ensures InodeTable(image, sb, group) == Some(table)
  {
    DescriptorsAre(sb);
    var at := Descriptors(sb) + group * 32 + 8;
    WordIsRead(image, at, 4, table);
  }

  lemma InodeOfRecord(image: seq<byte>, sb: Superblock, number: nat, group: nat, index: nat, table: nat, at: nat,
                      ino: Inode)
    requires number > 0 && sb.inodesPerGroup > 0
    requires (number - 1) / sb.inodesPerGroup == group && (number - 1) % sb.inodesPerGroup == index
    requires InodeTable(image, sb, group) == Some(table) && at == RecordPlace(sb, table, index)
    requires Record(image, at, ino)
    ensures InodeOf(image, sb, number) == Some(ino)
  {
    RecordIsRead(image, at, ino);
    assert RecordAt(sb, table, index) == at;
  }

  lemma DescriptorsAre(sb: Superblock)
    requires sb.blockSize >= 1024
    ensures Descriptors(sb) == if sb.blockSize == 1024 then sb.blockSize * 2 else sb.blockSize
  {
    if sb.blockSize > 1024 {
      Below(1024, sb.blockSize);
    }
  }

  lemma RecordIsRead(image: seq<byte>, at: nat, ino: Inode)
    requires Record(image, at, ino)
    ensures at + 100 <= |image|
    ensures Read(image, at, 2) == Some(ino.mode) && Read(image, at + 4, 4) == Some(ino.size)
    ensures Pointers(image, at + 40, 15) == ino.blocks
  {
    WordIsRead(image, at, 2, ino.mode);
    WordIsRead(image, at + 4, 4, ino.size);
    var start := at + 40;
    assert Word(image, start + 14 * 4, 4, ino.blocks[14]);
    forall b | 0 <= b < 15 ensures Pointers(image, start, 15)[b] == ino.blocks[b] {
      PointersAt(image, start, 15, b);
      WordIsRead(image, start + b * 4, 4, ino.blocks[b]);
    }
  }

  // ---- the blocks of a file ----

  /** Entry `i` of an indirect block is `b`. */
  ghost predicate EntryAt(image: seq<byte>, size: nat, block: nat, i: nat, b: nat) {
    && block > 0 && block * size + size <= |image| && i * 4 + 4 <= size
    && Word(image, block * size + i * 4, 4, b)
  }

  /** Logical block `n` is block `b`: one of the twelve direct blocks, then of those that the
      thirteenth pointer lists, then of those listed by the blocks that the fourteenth lists. */
  ghost predicate BlockAt(image: seq<byte>, size: nat, ino: Inode, n: nat, b: nat)
    requires |ino.blocks| == 15 && size >= 4
  {
    var per := size / 4;
    if n < 12 then ino.blocks[n] == b
    else if n - 12 < per then EntryAt(image, size, ino.blocks[12], n - 12, b)
    else FarAt(image, size, per, ino.blocks[13], n - 12 - per, b)
  }

  ghost predicate FarAt(image: seq<byte>, size: nat, per: nat, block: nat, i: nat, b: nat)
    requires per > 0
  {
    i < per * per && EntryVia(image, size, block, i / per, i % per, b)
  }

  /** Entry `r` of the block that entry `q` of the given block names. */
  ghost predicate EntryVia(image: seq<byte>, size: nat, block: nat, q: nat, r: nat, b: nat) {
    exists mid :: EntryAt(image, size, block, q, mid) && EntryAt(image, size, mid, r, b)
  }

  lemma EntryViaIsRead(image: seq<byte>, size: nat, per: nat, block: nat, i: nat, q: nat, r: nat, b: nat)
    requires per > 0 && q == i / per && r == i % per && EntryVia(image, size, block, q, r, b)
    ensures Double(image, size, per, block, i) == Some(b)
  {
    var mid :| EntryAt(image, size, block, q, mid) && EntryAt(image, size, mid, r, b);
    EntryIsRead(image, size, block, q, mid);
    EntryIsRead(image, size, mid, r, b);
  }

  lemma EntryIsRead(image: seq<byte>, size: nat, block: nat, i: nat, b: nat)
    requires EntryAt(image, size, block, i, b)
    ensures Single(image, size, block, i) == Some(b)
  {
    var start, at := block * size, i * 4;
    WordIsRead(image, start + at, 4, b);
    WithinBlock(image, start, size, at, start + at, 4);
    SliceIsBlock(image, size, block, start);
  }

  lemma SliceIsBlock(image: seq<byte>, size: nat, block: nat, start: nat)
    requires block > 0 && start == block * size && start + size <= |image|
    ensures BlockSlice(image, size, block) == Some(image[start..start + size])
  {
  }

  lemma WithinBlock(image: seq<byte>, start: nat, size: nat, at: nat, place: nat, width: nat)
    requires start + size <= |image| && at + width <= size && place == start + at
    ensures image[start..start + size][at..at + width] == image[place..place + width]
    ensures Read(image[start..start + size], at, width) == Read(image, place, width)
  {
    var inner, outer := image[start..start + size][at..at + width], image[place..place + width];
    forall i | 0 <= i < width ensures inner[i] == outer[i] {
      assert inner[i] == image[start..start + size][at + i] == image[start + at + i];
    }
    assert inner == outer;
  }

  lemma BlockIsFound(image: seq<byte>, sb: Superblock, ino: Inode, n: nat, b: nat)
    requires |ino.blocks| == 15 && Sane(sb) && sb.blockSize > 0 && BlockAt(image, sb.blockSize, ino, n, b)
    ensures DataBlockNumber(image, sb, ino, n) == Some(b)
  {
    var size, per := sb.blockSize, sb.blockSize / 4;
    if n < 12 {
      DirectBlock(image, sb, ino, n);
    } else if n - 12 < per {
      EntryIsRead(image, size, ino.blocks[12], n - 12, b);
      NearBlock(image, sb, ino, n, per, n - 12);
    } else {
      FarIsRead(image, size, per, ino.blocks[13], n - 12 - per, b);
      FarBlock(image, sb, ino, n, per, n - 12 - per);
    }
  }

  lemma FarIsRead(image: seq<byte>, size: nat, per: nat, block: nat, i: nat, b: nat)
    requires per > 0 && FarAt(image, size, per, block, i, b)
    ensures i < per * per && Double(image, size, per, block, i) == Some(b)
  {
    var q, r := Parted(i, per);
    EntryViaIsRead(image, size, per, block, i, q, r, b);
  }

  lemma DirectBlock(image: seq<byte>, sb: Superblock, ino: Inode, n: nat)
    requires |ino.blocks| == 15 && Sane(sb) && sb.blockSize > 0 && n < 12
    ensures DataBlockNumber(image, sb, ino, n) == Some(ino.blocks[n])
  {
  }

  lemma NearBlock(image: seq<byte>, sb: Superblock, ino: Inode, n: nat, per: nat, i: nat)
    requires |ino.blocks| == 15 && Sane(sb) && sb.blockSize > 0 && per == sb.blockSize / 4
    requires n == 12 + i && i < per
    ensures DataBlockNumber(image, sb, ino, n) == Single(image, sb.blockSize, ino.blocks[12], i)
  {
  }

  lemma FarBlock(image: seq<byte>, sb: Superblock, ino: Inode, n: nat, per: nat, i: nat)
    requires |ino.blocks| == 15 && Sane(sb) && sb.blockSize > 0 && per == sb.blockSize / 4
    requires n == 12 + per + i && i < per * per
    ensures DataBlockNumber(image, sb, ino, n) == Double(image, sb.blockSize, per, ino.blocks[13], i)
  {
  }

  /** The logical blocks of a file. */
  ghost predicate BlocksAre(image: seq<byte>, size: nat, ino: Inode, bs: seq<nat>)
    requires |ino.blocks| == 15 && size >= 4
  {
    forall n :: 0 <= n < |bs| ==> BlockAt(image, size, ino, n, bs[n])
  }

  /** Byte `x` of block `b`; block 0 is a hole of zeros. */
  ghost predicate ByteAt(image: seq<byte>, size: nat, b: nat, x: nat, v: byte) {
    if b == 0 then v == 0 else b * size + size <= |image| && x < size && image[b * size + x] == v
  }

  /** The blocks hold the contents, one after the other. */
  ghost predicate BlocksHold(image: seq<byte>, size: nat, bs: seq<nat>, content: seq<byte>)
    requires size > 0
  {
    forall i :: 0 <= i < |content| ==> i / size < |bs| && ByteAt(image, size, bs[i / size], i % size, content[i])
  }

  /** A regular file: the first digit of its mode, in hexadecimal, is 8. */
  ghost predicate HoldsFile(image: seq<byte>, sb: Superblock, number: nat, content: seq<byte>)
    requires sb.blockSize >= 4
  {
    exists ino, bs :: FileIs(image, sb, number, content, ino, bs)
  }

  ghost predicate FileIs(image: seq<byte>, sb: Superblock, number: nat, content: seq<byte>, ino: Inode, bs: seq<nat>)
    requires sb.blockSize >= 4
  {
    && HoldsInode(image, sb, number, ino) && |ino.blocks| == 15 && ino.mode / 0x1000 == 8 && ino.size == |content|
    && BlocksAre(image, sb.blockSize, ino, bs) && BlocksHold(image, sb.blockSize, bs, content)
  }

  lemma BlockOfByte(size: nat, length: nat, n: nat, i: nat)
    requires size > 0 && length > 0 && n < BlocksNeeded(length, size) && i == n * size
    ensures i < length && i / size == n
  {
    var needed := BlocksNeeded(length, size);
    NeededFits(length, size);
    TimesIsProduct(needed - 1, size);
    MulMono(n, needed - 1, size);
    Quotient(i, size, n, 0);
  }

  lemma BlockIsRead(image: seq<byte>, sb: Superblock, ino: Inode, bs: seq<nat>, n: nat)
    requires |ino.blocks| == 15 && Sane(sb) && sb.blockSize > 0 && BlocksAre(image, sb.blockSize, ino, bs) && n < |bs|
    ensures Reader(image, sb.blockSize, ino)(n) == BlockData(image, sb.blockSize, Some(bs[n]))
  {
    BlockIsFound(image, sb, ino, n, bs[n]);
    DataBlockIsMapped(image, sb, ino, n);
  }

  lemma ByteIsRead(image: seq<byte>, size: nat, b: nat, x: nat, v: byte)
    requires size > 0 && x < size && ByteAt(image, size, b, x, v)
    ensures var data := BlockData(image, size, Some(b)); data.Some? && data.value[x] == v
  {
    if b > 0 {
      SliceIsBlock(image, size, b, b * size);
    }
  }

  lemma NeededIsRead(image: seq<byte>, sb: Superblock, ino: Inode, bs: seq<nat>, content: seq<byte>, n: nat, i: nat)
    requires |ino.blocks| == 15 && Sane(sb) && sb.blockSize > 0
    requires BlocksAre(image, sb.blockSize, ino, bs) && BlocksHold(image, sb.blockSize, bs, content)
    requires |content| > 0 && n < BlocksNeeded(|content|, sb.blockSize) && i == n * sb.blockSize
    ensures Reader(image, sb.blockSize, ino)(n).Some?
  {
    BlockOfByte(sb.blockSize, |content|, n, i);
    BlockIsRead(image, sb, ino, bs, n);
    ByteIsRead(image, sb.blockSize, bs[n], i % sb.blockSize, content[i]);
  }

  lemma ContentByte(image: seq<byte>, sb: Superblock, ino: Inode, bs: seq<nat>, content: seq<byte>, i: nat)
    requires |ino.blocks| == 15 && Sane(sb) && sb.blockSize > 0
    requires BlocksAre(image, sb.blockSize, ino, bs) && BlocksHold(image, sb.blockSize, bs, content)
    requires i < |content|
    ensures ByteOf(Reader(image, sb.blockSize, ino), sb.blockSize, i) == Some(content[i])
  {
    var n, x := Parted(i, sb.blockSize);
    BlockIsRead(image, sb, ino, bs, n);
    ByteIsRead(image, sb.blockSize, bs[n], x, content[i]);
  }

  lemma Parted(i: nat, size: nat) returns (n: nat, x: nat)
    requires size > 0
    ensures n == i / size && x == i % size && x < size
  {
    n, x := i / size, i % size;
  }

  /** Reading a file gives its contents. */
  lemma ContentIsRead(image: seq<byte>, sb: Superblock, ino: Inode, bs: seq<nat>, content: seq<byte>)
    requires |ino.blocks| == 15 && Sane(sb) && sb.blockSize > 0 && !IsDir(ino.mode) && ino.size == |content|
    requires BlocksAre(image, sb.blockSize, ino, bs) && BlocksHold(image, sb.blockSize, bs, content)
    ensures FileContent(image, sb, ino) == Some(content)
  {
    var size, read := sb.blockSize, Reader(image, sb.blockSize, ino);
    if content != [] {
      forall n | 0 <= n < BlocksNeeded(|content|, size) ensures read(n).Some? {
        NeededIsRead(image, sb, ino, bs, content, n, n * size);
      }
      forall i | 0 <= i < |content| ensures ByteOf(read, size, i) == Some(content[i]) {
        ContentByte(image, sb, ino, bs, content, i);
      }
      BytesMakeContent(read, size, content);
    }
  }

  lemma BytesMakeContent(read: BlockReader, size: nat, content: seq<byte>)
    requires Sized(read, size) && size > 0 && content != []
    requires forall n :: 0 <= n < BlocksNeeded(|content|, size) ==> read(n).Some?
    requires forall i :: 0 <= i < |content| ==> ByteOf(read, size, i) == Some(content[i])
    ensures Truncated(read, size, |content|) == Some(content)
  {
    TruncatedBytes(read, size, |content|, 0);
    var r := Truncated(read, size, |content|);
    forall i | 0 <= i < |content| ensures r.value[i] == content[i] {
      TruncatedBytes(read, size, |content|, i);
    }
    assert r.value == content;
  }

  lemma FileIsRead(image: seq<byte>, sb: Superblock, number: nat, content: seq<byte>)
    requires Sane(sb) && sb.blockSize > 0 && HoldsFile(image, sb, number, content)
    ensures InodeOf(image, sb, number).Some? && !IsDir(InodeOf(image, sb, number).value.mode)
    ensures FileContent(image, sb, InodeOf(image, sb, number).value) == Some(content)
  {
    var ino, bs :| FileIs(image, sb, number, content, ino, bs);
    Types(ino.mode);
    InodeIsRead(image, sb, number, ino);
    ContentIsRead(image, sb, ino, bs, content);
  }

  // ---- directories ----

  datatype DirRecord = DirRecord(inode: nat, len: nat, name: seq<byte>)

  /** A directory record: inode number at 0, its own length at 4, length of the name at 6, the name
      at 8. */
  ghost predicate RecordIn(data: seq<byte>, at: nat, r: DirRecord) {
    && |r.name| < 256 && 8 + |r.name| <= r.len && at + r.len <= |data|
    && Word(data, at, 4, r.inode) && Word(data, at + 4, 2, r.len)
    && data[at + 6] == |r.name| && data[at + 8..at + 8 + |r.name|] == r.name
  }

  /** Records that fill a block to its end. */
  ghost predicate RecordsIn(data: seq<byte>, at: nat, rs: seq<DirRecord>)
    decreases |rs|
  {
    if rs == [] then at == |data| else RecordIn(data, at, rs[0]) && RecordsIn(data, at + rs[0].len, rs[1..])
  }

  /** The entries of records in use: those whose inode is not 0. */
  ghost function Used(rs: seq<DirRecord>): seq<Entry> {
    if rs == [] then [] else
    (if rs[0].inode != 0 then [Entry(rs[0].name, rs[0].inode)] else []) + Used(rs[1..])
  }

  ghost predicate NamesValid(rs: seq<DirRecord>, isName: NameTest) {
    forall i :: 0 <= i < |rs| && rs[i].inode != 0 ==> isName(rs[i].name)
  }

  ghost predicate BlockHolds(image: seq<byte>, size: nat, b: nat, rs: seq<DirRecord>, isName: NameTest) {
    && b > 0 && b * size + size <= |image|
    && RecordsIn(image[b * size..b * size + size], 0, rs) && NamesValid(rs, isName)
  }

  /** A directory of whole blocks: the first digit of its mode, in hexadecimal, is 4. */
  ghost predicate DirectoryIs(image: seq<byte>, sb: Superblock, isName: NameTest, number: nat, ino: Inode, bs: seq<nat>,
                              blocks: seq<seq<DirRecord>>)
    requires sb.blockSize >= 4
  {
    && HoldsInode(image, sb, number, ino) && |ino.blocks| == 15 && ino.mode / 0x1000 == 4
    && |bs| == |blocks| && ino.size == |blocks| * sb.blockSize
    && BlocksAre(image, sb.blockSize, ino, bs)
    && forall n :: 0 <= n < |bs| ==> BlockHolds(image, sb.blockSize, bs[n], blocks[n], isName)
  }

  /** The entries of the blocks from `n` on. */
  ghost function EntriesFrom(blocks: seq<seq<DirRecord>>, n: nat): seq<Entry>
    requires n <= |blocks|
    decreases |blocks| - n
  {
    if n == |blocks| then [] else Used(blocks[n]) + EntriesFrom(blocks, n + 1)
  }

  ghost predicate HoldsDirectory(image: seq<byte>, sb: Superblock, isName: NameTest, number: nat, es: seq<Entry>)
    requires sb.blockSize >= 4
  {
    exists ino, bs, blocks :: DirectoryIs(image, sb, isName, number, ino, bs, blocks) && es == EntriesFrom(blocks, 0)
  }

  lemma RecordIsParsed(data: seq<byte>, at: nat, r: DirRecord, isName: NameTest)
    requires RecordIn(data, at, r) && (r.inode != 0 ==> isName(r.name))
    ensures Parse(data, at, isName) == if r.inode == 0 then Unused(r.len) else Item(r.len, Entry(r.name, r.inode))
  {
    WordIsRead(data, at, 4, r.inode);
    WordIsRead(data, at + 4, 2, r.len);
  }

  /** One turn of the walk at a record. */
  lemma StepAtRecord(image: seq<byte>, sb: Superblock, dir: Inode, isName: NameTest, c: Cursor, b: nat, data: seq<byte>,
                     r: DirRecord)
    requires |dir.blocks| == 15 && Sane(sb) && DataBlockNumber(image, sb, dir, c.block) == Some(b) && b > 0
    requires BlockSlice(image, sb.blockSize, b) == Some(data) && RecordIn(data, c.offset, r) && r.len <= c.remaining
    requires r.inode != 0 ==> isName(r.name)
    ensures var next := Cursor(c.block, c.offset + r.len, c.remaining - r.len);
            StepAt(image, sb, dir, isName, c) ==
              if r.inode == 0 then Move(next) else Found(Entry(r.name, r.inode), next)
  {
    RecordIsParsed(data, c.offset, r, isName);
  }

  /** What one turn adds to a listing. */
  lemma ListCons(step: Stepper, size: nat, c: Cursor, next: Cursor, rs: seq<DirRecord>, es: seq<Entry>, tail: Listing)
    requires Advances(step, size) && rs != []
    requires step(c) == if rs[0].inode == 0 then Move(next) else Found(Entry(rs[0].name, rs[0].inode), next)
    requires List(step, size, next) == Listing(Used(rs[1..]) + tail.entries, tail.ending) && es == Used(rs)
    ensures List(step, size, c) == Listing(es + tail.entries, tail.ending)
  {
    var rest := Used(rs[1..]);
    if rs[0].inode != 0 {
      var e := Entry(rs[0].name, rs[0].inode);
      Regroup([e], rest, tail.entries);
      assert es == [e] + rest;
    } else {
      assert es == rest;
    }
  }

  lemma Regroup(a: seq<Entry>, b: seq<Entry>, c: seq<Entry>)
    ensures a + (b + c) == (a + b) + c
  {
  }

  /** The walk over the records of one block, from `at` to its end. */
  lemma {:induction false} BlockIsListed(image: seq<byte>, sb: Superblock, dir: Inode, isName: NameTest, step: Stepper,
                                         b: nat, data: seq<byte>, rs: seq<DirRecord>, c: Cursor, end: Cursor,
                                         tail: Listing)
    requires |dir.blocks| == 15 && Sane(sb) && step == Steps(image, sb, dir, isName)
    requires DataBlockNumber(image, sb, dir, c.block) == Some(b) && b > 0
    requires BlockSlice(image, sb.blockSize, b) == Some(data)
    requires RecordsIn(data, c.offset, rs) && c.offset <= |data| <= c.offset + c.remaining && NamesValid(rs, isName)
    requires end == Cursor(c.block, |data|, c.remaining - (|data| - c.offset)) && tail == List(step, sb.blockSize, end)
    ensures List(step, sb.blockSize, c) == Listing(Used(rs) + tail.entries, tail.ending)
    decreases |rs|
  {
    if rs == [] {
      assert Used(rs) + tail.entries == tail.entries;
    } else {
      var next := Cursor(c.block, c.offset + rs[0].len, c.remaining - rs[0].len);
      RecordTurn(image, sb, dir, isName, step, b, data, rs, c, next);
      BlockIsListed(image, sb, dir, isName, step, b, data, rs[1..], next, end, tail);
      ListCons(step, sb.blockSize, c, next, rs, Used(rs), tail);
    }
  }

  lemma RecordTurn(image: seq<byte>, sb: Superblock, dir: Inode, isName: NameTest, step: Stepper, b: nat,
                   data: seq<byte>, rs: seq<DirRecord>, c: Cursor, next: Cursor)
    requires |dir.blocks| == 15 && Sane(sb) && step == Steps(image, sb, dir, isName) && rs != []
    requires DataBlockNumber(image, sb, dir, c.block) == Some(b) && b > 0
    requires BlockSlice(image, sb.blockSize, b) == Some(data)
    requires RecordsIn(data, c.offset, rs) && |data| <= c.offset + c.remaining && NamesValid(rs, isName)
    requires next == Cursor(c.block, c.offset + rs[0].len, c.remaining - rs[0].len)
    ensures next.offset <= |data| && RecordsIn(data, next.offset, rs[1..]) && NamesValid(rs[1..], isName)
    ensures step(c) == if rs[0].inode == 0 then Move(next) else Found(Entry(rs[0].name, rs[0].inode), next)
  {
    StepAtRecord(image, sb, dir, isName, c, b, data, rs[0]);
  }

  /** Past the last record of a block the walk goes on with the next block, if bytes remain. */
  lemma StepAtEnd(image: seq<byte>, sb: Superblock, dir: Inode, isName: NameTest, c: Cursor, b: nat)
    requires |dir.blocks| == 15 && Sane(sb) && DataBlockNumber(image, sb, dir, c.block) == Some(b) && b > 0
    requires BlockSlice(image, sb.blockSize, b).Some? && c.offset == sb.blockSize && c.remaining > 0
    ensures StepAt(image, sb, dir, isName, c) == Move(Cursor(c.block + 1, 0, c.remaining))
  {
  }

  /** The walk over the blocks of a directory from block `n` on. */
  lemma {:induction false} BlocksAreListed(image: seq<byte>, sb: Superblock, isName: NameTest, dir: Inode,
                                           step: Stepper, bs: seq<nat>, blocks: seq<seq<DirRecord>>, n: nat,
                                           remaining: nat)
    requires |dir.blocks| == 15 && Sane(sb) && sb.blockSize > 0 && step == Steps(image, sb, dir, isName)
    requires |bs| == |blocks| && n <= |bs| && BlocksAre(image, sb.blockSize, dir, bs)
    requires forall i :: 0 <= i < |bs| ==> BlockHolds(image, sb.blockSize, bs[i], blocks[i], isName)
    requires remaining == Times(|bs| - n, sb.blockSize)
    ensures List(step, sb.blockSize, Cursor(n, 0, remaining)) == Listing(EntriesFrom(blocks, n), Complete)
    decreases |bs| - n
  {
    var c := Cursor(n, 0, remaining);
    if n == |bs| {
      EndOfList(image, sb, isName, dir, step, c);
    } else {
      var rest := Times(|bs| - n - 1, sb.blockSize);
      var end := Cursor(n, sb.blockSize, rest);
      BlocksAreListed(image, sb, isName, dir, step, bs, blocks, n + 1, rest);
      EndIsListed(image, sb, isName, dir, step, bs, blocks, n, rest, end);
      BlockStart(image, sb, isName, dir, step, bs, blocks, n, c, end, List(step, sb.blockSize, end));
    }
  }

  lemma EndIsListed(image: seq<byte>, sb: Superblock, isName: NameTest, dir: Inode, step: Stepper, bs: seq<nat>,
                    blocks: seq<seq<DirRecord>>, n: nat, rest: nat, end: Cursor)
    requires |dir.blocks| == 15 && Sane(sb) && sb.blockSize > 0 && step == Steps(image, sb, dir, isName)
    requires |bs| == |blocks| && n < |bs| && BlocksAre(image, sb.blockSize, dir, bs)
    requires BlockHolds(image, sb.blockSize, bs[n], blocks[n], isName)
    requires rest == Times(|bs| - n - 1, sb.blockSize) && end == Cursor(n, sb.blockSize, rest)
    requires List(step, sb.blockSize, Cursor(n + 1, 0, rest)) == Listing(EntriesFrom(blocks, n + 1), Complete)
    ensures List(step, sb.blockSize, end) == Listing(EntriesFrom(blocks, n + 1), Complete)
  {
    if n + 1 == |bs| {
      EndOfList(image, sb, isName, dir, step, end);
    } else {
      var data := BlockReady(image, sb, isName, dir, bs, blocks, n);
      StepAtEnd(image, sb, dir, isName, end, bs[n]);
      MoveOn(image, sb, isName, dir, step, end, Cursor(n + 1, 0, rest));
    }
  }

  lemma EndOfList(image: seq<byte>, sb: Superblock, isName: NameTest, dir: Inode, step: Stepper, c: Cursor)
    requires |dir.blocks| == 15 && Sane(sb) && step == Steps(image, sb, dir, isName) && c.remaining == 0
    ensures List(step, sb.blockSize, c) == Listing([], Complete)
  {
    assert step(c) == End(Complete);
  }

  lemma MoveOn(image: seq<byte>, sb: Superblock, isName: NameTest, dir: Inode, step: Stepper, c: Cursor, next: Cursor)
    requires |dir.blocks| == 15 && Sane(sb) && step == Steps(image, sb, dir, isName)
    requires StepAt(image, sb, dir, isName, c) == Move(next)
    ensures List(step, sb.blockSize, c) == List(step, sb.blockSize, next)
  {
    assert step(c) == Move(next);
  }

  /** Block `n` of a directory can be read. */
  lemma BlockReady(image: seq<byte>, sb: Superblock, isName: NameTest, dir: Inode, bs: seq<nat>,
                   blocks: seq<seq<DirRecord>>, n: nat) returns (data: seq<byte>)
    requires |dir.blocks| == 15 && Sane(sb) && sb.blockSize > 0 && |bs| == |blocks| && n < |bs|
    requires BlocksAre(image, sb.blockSize, dir, bs) && BlockHolds(image, sb.blockSize, bs[n], blocks[n], isName)
    ensures DataBlockNumber(image, sb, dir, n) == Some(bs[n]) && bs[n] > 0
    ensures BlockSlice(image, sb.blockSize, bs[n]) == Some(data) && |data| == sb.blockSize
    ensures RecordsIn(data, 0, blocks[n]) && NamesValid(blocks[n], isName)
  {
    var start := bs[n] * sb.blockSize;
    BlockIsFound(image, sb, dir, n, bs[n]);
    SliceIsBlock(image, sb.blockSize, bs[n], start);
    data := image[start..start + sb.blockSize];
  }

  lemma BlockStart(image: seq<byte>, sb: Superblock, isName: NameTest, dir: Inode, step: Stepper, bs: seq<nat>,
                   blocks: seq<seq<DirRecord>>, n: nat, c: Cursor, end: Cursor, tail: Listing)
    requires |dir.blocks| == 15 && Sane(sb) && sb.blockSize > 0 && step == Steps(image, sb, dir, isName)
    requires |bs| == |blocks| && n < |bs| && BlocksAre(image, sb.blockSize, dir, bs)
    requires BlockHolds(image, sb.blockSize, bs[n], blocks[n], isName)
    requires c == Cursor(n, 0, end.remaining + sb.blockSize) && end == Cursor(n, sb.blockSize, end.remaining)
    requires tail == List(step, sb.blockSize, end)
    ensures List(step, sb.blockSize, c) == Listing(Used(blocks[n]) + tail.entries, tail.ending)
  {
    var data := BlockReady(image, sb, isName, dir, bs, blocks, n);
    BlockIsListed(image, sb, dir, isName, step, bs[n], data, blocks[n], c, end, tail);
  }

  /** Walking a directory lists its entries. */
  lemma DirectoryIsListed(image: seq<byte>, sb: Superblock, isName: NameTest, number: nat, es: seq<Entry>)
    requires Sane(sb) && sb.blockSize > 0 && HoldsDirectory(image, sb, isName, number, es)
    ensures var ino := InodeOf(image, sb, number);
            && ino.Some? && |ino.value.blocks| == 15 && IsDir(ino.value.mode)
            && Listed(image, sb, ino.value, isName) == Listing(es, Complete)
  {
    var ino, bs, blocks :| DirectoryIs(image, sb, isName, number, ino, bs, blocks) && es == EntriesFrom(blocks, 0);
    DirectoryRead(image, sb, isName, number, ino, bs, blocks);
    WholeDirectory(image, sb, isName, number, ino, bs, blocks);
  }

  lemma DirectoryRead(image: seq<byte>, sb: Superblock, isName: NameTest, number: nat, ino: Inode, bs: seq<nat>,
                      blocks: seq<seq<DirRecord>>)
    requires Sane(sb) && sb.blockSize > 0 && DirectoryIs(image, sb, isName, number, ino, bs, blocks)
    ensures InodeOf(image, sb, number) == Some(ino) && |ino.blocks| == 15 && IsDir(ino.mode)
  {
    InodeIsRead(image, sb, number, ino);
    Types(ino.mode);
  }

  lemma Types(mode: nat)
    ensures mode / 0x1000 == 4 ==> IsDir(mode)
    ensures mode / 0x1000 == 8 ==> !IsDir(mode)
  {
  }

  lemma WholeDirectory(image: seq<byte>, sb: Superblock, isName: NameTest, number: nat, ino: Inode, bs: seq<nat>,
                       blocks: seq<seq<DirRecord>>)
    requires Sane(sb) && sb.blockSize > 0 && DirectoryIs(image, sb, isName, number, ino, bs, blocks)
    ensures Listed(image, sb, ino, isName) == Listing(EntriesFrom(blocks, 0), Complete)
  {
    var step := Steps(image, sb, ino, isName);
    TimesIsProduct(|bs|, sb.blockSize);
    BlocksAreListed(image, sb, isName, ino, step, bs, blocks, 0, ino.size);
  }

  // ---- paths ----

  /** Entry `k` is the first of that name. */
  ghost predicate FirstOf(es: seq<Entry>, name: seq<byte>, k: nat) {
    k < |es| && es[k].name == name && forall j :: 0 <= j < k ==> es[j].name != name
  }

  lemma {:induction false} FirstIsNamed(es: seq<Entry>, name: seq<byte>, k: nat)
    requires FirstOf(es, name, k)
    ensures FirstNamed(es, name) == Some(es[k].inode)
    decreases k
  {
    if k > 0 {
      assert es[0].name != name;
      FirstIsNamed(es[1..], name, k - 1);
    }
  }

  /** From directory `d` the parts of a path lead, directory by directory, to a file. */
  ghost predicate HoldsPath(image: seq<byte>, sb: Superblock, isName: NameTest, d: nat, parts: seq<seq<byte>>,
                            content: seq<byte>)
    requires sb.blockSize >= 4
    decreases |parts|
  {
    parts != [] && exists es, k: nat :: LeadsOn(image, sb, isName, d, parts, content, es, k)
  }

  ghost predicate LeadsOn(image: seq<byte>, sb: Superblock, isName: NameTest, d: nat, parts: seq<seq<byte>>,
                          content: seq<byte>, es: seq<Entry>, k: nat)
    requires sb.blockSize >= 4 && parts != []
    decreases |parts|, 0
  {
    && HoldsDirectory(image, sb, isName, d, es) && FirstOf(es, parts[0], k)
    && if |parts| == 1 then HoldsFile(image, sb, es[k].inode, content)
       else HoldsPath(image, sb, isName, es[k].inode, parts[1..], content)
  }

  /** The reader finds the file that the parts lead to. */
  lemma {:induction false} PathIsResolved(image: seq<byte>, sb: Superblock, isName: NameTest, d: nat, dir: Inode,
                                          parts: seq<seq<byte>>, content: seq<byte>)
    requires Sane(sb) && sb.blockSize > 0 && HoldsPath(image, sb, isName, d, parts, content)
    requires InodeOf(image, sb, d) == Some(dir) && |dir.blocks| == 15 && forall p :: p in parts ==> !Dotted(p)
    ensures Finds(image, sb, ResolveFile(image, sb, isName, dir, parts), content)
    decreases |parts|
  {
    var es: seq<Entry>, k: nat :| LeadsOn(image, sb, isName, d, parts, content, es, k);
    NameIsFound(image, sb, isName, d, dir, parts[0], es, k);
    var number := es[k].inode;
    assert parts[0] in parts;
    if |parts| == 1 {
      FileIsRead(image, sb, number, content);
      LastResolved(image, sb, isName, dir, parts, number);
    } else {
      var next := StartIsDirectory(image, sb, isName, number, parts[1..], content);
      PathIsResolved(image, sb, isName, number, next, parts[1..], content);
      NextResolved(image, sb, isName, dir, parts, number, next);
    }
  }

  ghost predicate Finds(image: seq<byte>, sb: Superblock, number: Option<nat>, content: seq<byte>)
    requires sb.blockSize > 0
  {
    && number.Some? && InodeOf(image, sb, number.value).Some?
    && FileContent(image, sb, InodeOf(image, sb, number.value).value) == Some(content)
  }

  lemma LastResolved(image: seq<byte>, sb: Superblock, isName: NameTest, dir: Inode, parts: seq<seq<byte>>, number: nat)
    requires |dir.blocks| == 15 && Sane(sb) && |parts| == 1 && !Dotted(parts[0])
    requires Lookup(image, sb, dir, isName, parts[0]) == Some(number)
    requires InodeOf(image, sb, number).Some? && !IsDir(InodeOf(image, sb, number).value.mode)
    ensures ResolveFile(image, sb, isName, dir, parts) == Some(number)
  {
  }

  lemma NextResolved(image: seq<byte>, sb: Superblock, isName: NameTest, dir: Inode, parts: seq<seq<byte>>, number: nat,
                     next: Inode)
    requires |dir.blocks| == 15 && Sane(sb) && |parts| > 1 && !Dotted(parts[0])
    requires Lookup(image, sb, dir, isName, parts[0]) == Some(number)
    requires InodeOf(image, sb, number) == Some(next) && |next.blocks| == 15 && IsDir(next.mode)
    ensures ResolveFile(image, sb, isName, dir, parts) == ResolveFile(image, sb, isName, next, parts[1..])
  {
    assert DirIn(image, sb, isName, dir, parts[0]) == Some((number, next));
  }

  lemma NameIsFound(image: seq<byte>, sb: Superblock, isName: NameTest, d: nat, dir: Inode, name: seq<byte>,
                    es: seq<Entry>, k: nat)
    requires Sane(sb) && sb.blockSize > 0 && HoldsDirectory(image, sb, isName, d, es) && FirstOf(es, name, k)
    requires InodeOf(image, sb, d) == Some(dir) && |dir.blocks| == 15
    ensures Lookup(image, sb, dir, isName, name) == Some(es[k].inode)
  {
    DirectoryIsListed(image, sb, isName, d, es);
    FirstIsNamed(es, name, k);
  }

  lemma StartIsDirectory(image: seq<byte>, sb: Superblock, isName: NameTest, d: nat, parts: seq<seq<byte>>,
                         content: seq<byte>) returns (dir: Inode)
    requires Sane(sb) && sb.blockSize > 0 && HoldsPath(image, sb, isName, d, parts, content)
    ensures InodeOf(image, sb, d) == Some(dir) && |dir.blocks| == 15 && IsDir(dir.mode)
  {
    var es: seq<Entry>, k: nat :| LeadsOn(image, sb, isName, d, parts, content, es, k);
    DirectoryIsListed(image, sb, isName, d, es);
    dir := InodeOf(image, sb, d).value;
  }

  /** A name: not empty, without a slash, and not one of the dot entries. */
  ghost predicate IsPart(p: seq<byte>) {
    p != [] && 47 !in p && p != [46] && p != [46, 46]
  }

  /** The path of the parts, each after a slash. */
  ghost function Joined(parts: seq<seq<byte>>): seq<byte> {
    if parts == [] then [] else [47] + parts[0] + Joined(parts[1..])
  }

  lemma {:induction false} WholeComponent(p: seq<byte>)
    requires 47 !in p
    ensures Component(p) == p
    decreases |p|
  {
    if p != [] {
      assert p[0] in p && forall b :: b in p[1..] ==> b in p;
      WholeComponent(p[1..]);
      assert p == [p[0]] + p[1..];
    }
  }

  lemma OnePart(p: seq<byte>)
    requires IsPart(p)
    ensures Parts(p) == [p]
  {
    WholeComponent(p);
    assert p[0] in p && p[|p|..] == [];
    assert Parts(p) == [p] + Parts(p[|p|..]);
  }

  /** Splitting a path gives the parts it was joined from. */
  lemma {:induction false} JoinedSplits(parts: seq<seq<byte>>)
    requires forall p :: p in parts ==> IsPart(p)
    ensures Parts(Joined(parts)) == parts
    decreases |parts|
  {
    if parts != [] {
      var p, rest := parts[0], Joined(parts[1..]);
      assert p in parts && forall q :: q in parts[1..] ==> q in parts;
      JoinedSplits(parts[1..]);
      OnePart(p);
      AfterPart(p, rest);
      AfterSlash(p, rest);
      assert parts == [p] + parts[1..];
    }
  }

  lemma AfterSlash(p: seq<byte>, rest: seq<byte>)
    ensures Parts([47] + p + rest) == Parts(p + rest)
  {
    assert ([47] + p + rest)[1..] == p + rest;
  }

  lemma AfterPart(p: seq<byte>, rest: seq<byte>)
    requires Parts(p) == [p] && (rest == [] || rest[0] == 47)
    ensures Parts(p + rest) == [p] + Parts(rest)
  {
    if rest == [] {
      assert p + rest == p;
    } else {
      var tail := rest[1..];
      assert rest == [47] + tail && p + rest == p + [47] + tail;
      PartsConcat(p, tail);
    }
  }

  /** Reading `/a/b/c` from an image in which that path leads to a file gives the contents of the
      file, whatever its size and whatever else the image holds. */
  method ReadStored(image: seq<byte>, isName: NameTest, path: seq<byte>, ghost log: nat, ghost sb: Superblock,
                    ghost parts: seq<seq<byte>>, ghost content: seq<byte>) returns (r: Option<seq<byte>>)
    requires Formatted(image, log, sb) && path == Joined(parts) && (forall p :: p in parts ==> IsPart(p))
    requires sb.blockSize >= 4 && HoldsPath(image, sb, isName, 2, parts, content)
    ensures r == Some(content)
  {
    SuperblockIsRead(image, log, sb);
    JoinedSplits(parts);
    ghost var root := StartIsDirectory(image, sb, isName, 2, parts, content);
    assert forall p :: p in parts ==> !Dotted(p);
    PathIsResolved(image, sb, isName, 2, root, parts, content);
    assert FileAt(image, isName, path) == ResolveFile(image, sb, isName, root, parts);
    r := ReadPath(image, isName, path);
  }

  /** From directory `d` the parts lead to a directory with the given entries. */
  ghost predicate HoldsDirPath(image: seq<byte>, sb: Superblock, isName: NameTest, d: nat, parts: seq<seq<byte>>,
                               es: seq<Entry>)
    requires sb.blockSize >= 4
    decreases |parts|
  {
    if parts == [] then HoldsDirectory(image, sb, isName, d, es)
    else exists ds, k: nat :: LeadsDown(image, sb, isName, d, parts, es, ds, k)
  }

  ghost predicate LeadsDown(image: seq<byte>, sb: Superblock, isName: NameTest, d: nat, parts: seq<seq<byte>>,
                            es: seq<Entry>, ds: seq<Entry>, k: nat)
    requires sb.blockSize >= 4 && parts != []
    decreases |parts|, 0
  {
    && HoldsDirectory(image, sb, isName, d, ds) && FirstOf(ds, parts[0], k)
    && HoldsDirPath(image, sb, isName, ds[k].inode, parts[1..], es)
  }

  lemma DirStart(image: seq<byte>, sb: Superblock, isName: NameTest, d: nat, parts: seq<seq<byte>>, es: seq<Entry>)
    returns (dir: Inode)
    requires Sane(sb) && sb.blockSize > 0 && HoldsDirPath(image, sb, isName, d, parts, es)
    ensures InodeOf(image, sb, d) == Some(dir) && |dir.blocks| == 15 && IsDir(dir.mode)
    ensures parts == [] ==> Listed(image, sb, dir, isName) == Listing(es, Complete)
  {
    if parts == [] {
      DirectoryIsListed(image, sb, isName, d, es);
    } else {
      var ds: seq<Entry>, k: nat :| LeadsDown(image, sb, isName, d, parts, es, ds, k);
      DirectoryIsListed(image, sb, isName, d, ds);
    }
    dir := InodeOf(image, sb, d).value;
  }

  lemma {:induction false} DirIsResolved(image: seq<byte>, sb: Superblock, isName: NameTest, d: nat, dir: Inode,
                                         parts: seq<seq<byte>>, es: seq<Entry>)
    requires Sane(sb) && sb.blockSize > 0 && HoldsDirPath(image, sb, isName, d, parts, es)
    requires InodeOf(image, sb, d) == Some(dir) && |dir.blocks| == 15 && forall p :: p in parts ==> !Dotted(p)
    ensures ListsAs(image, sb, isName, ResolveDir(image, sb, isName, d, dir, parts), es)
    decreases |parts|
  {
    var same := DirStart(image, sb, isName, d, parts, es);
    if parts != [] {
      var ds: seq<Entry>, k: nat :| LeadsDown(image, sb, isName, d, parts, es, ds, k);
      var number := ds[k].inode;
      assert parts[0] in parts;
      NameIsFound(image, sb, isName, d, dir, parts[0], ds, k);
      var next := DirStart(image, sb, isName, number, parts[1..], es);
      DirIsResolved(image, sb, isName, number, next, parts[1..], es);
      NextDirResolved(image, sb, isName, d, dir, parts, number, next);
    }
  }

  ghost predicate ListsAs(image: seq<byte>, sb: Superblock, isName: NameTest, r: Option<(nat, Inode)>, es: seq<Entry>)
    requires Sane(sb)
  {
    r.Some? && |r.value.1.blocks| == 15 && Listed(image, sb, r.value.1, isName) == Listing(es, Complete)
  }

  lemma NextDirResolved(image: seq<byte>, sb: Superblock, isName: NameTest, d: nat, dir: Inode, parts: seq<seq<byte>>,
                        number: nat, next: Inode)
    requires |dir.blocks| == 15 && Sane(sb) && parts != [] && !Dotted(parts[0])
    requires Lookup(image, sb, dir, isName, parts[0]) == Some(number)
    requires InodeOf(image, sb, number) == Some(next) && |next.blocks| == 15 && IsDir(next.mode)
    ensures ResolveDir(image, sb, isName, d, dir, parts) == ResolveDir(image, sb, isName, number, next, parts[1..])
  {
    assert DirIn(image, sb, isName, dir, parts[0]) == Some((number, next));
  }

  /** The names of the entries in order, without the two dot entries. */
  ghost function Visible(es: seq<Entry>): seq<seq<byte>> {
    if es == [] then [] else
    (if es[0].name != [46] && es[0].name != [46, 46] then [es[0].name] else []) + Visible(es[1..])
  }

  lemma {:induction false} NamesAreVisible(es: seq<Entry>)
    ensures Names(es) == Visible(es)
    decreases |es|
  {
    if es != [] {
      NamesAreVisible(es[1..]);
    }
  }

  /** Listing `/a/b/c` from an image in which that path leads to a directory gives its names. */
  method ListStored(image: seq<byte>, isName: NameTest, path: seq<byte>, ghost log: nat, ghost sb: Superblock,
                    ghost parts: seq<seq<byte>>, ghost es: seq<Entry>) returns (r: Option<seq<seq<byte>>>)
    requires Formatted(image, log, sb) && path == Joined(parts) && (forall p :: p in parts ==> IsPart(p))
    requires sb.blockSize >= 4 && HoldsDirPath(image, sb, isName, 2, parts, es)
    ensures r == Some(Visible(es))
  {
    SuperblockIsRead(image, log, sb);
    JoinedSplits(parts);
    ghost var root := DirStart(image, sb, isName, 2, parts, es);
    assert forall p :: p in parts ==> !Dotted(p);
    DirIsResolved(image, sb, isName, 2, root, parts, es);
    NamesAreVisible(es);
    r := ReadDirPath(image, isName, path);
  }
}
