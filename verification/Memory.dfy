/** Physical memory: 4 KiB frames of 512 little-endian 64-bit words.

    Page-table entries, the links of the free-frame list and the bytes of user
    pages all live in the same words, so a write through one view is visible
    through the others. */
module Memory {

  const U64_LIMIT: nat := 0x1_0000_0000_0000_0000
  /** The last address of user space. */
  const USER_SPACE_END: nat := 0x7FFF_FFFF_FFFF

  type u64 = n: nat | n < 0x1_0000_0000_0000_0000
  type byte = n: nat | n < 256

  /** Bits 12..51 of a word. */
  type FrameNo = n: nat | n < 0x100_0000_0000
  /** The nineteen flag bits the kernel never names: 3..6, 8..11 and 52..62. */
  type RestBits = n: nat | n < 0x8_0000

  datatype Option<+T> = None | Some(value: T)

  /** A 64-bit word, split along the fields of a page-table entry. */
  datatype Word = Word(frame: FrameNo, present: bool, writable: bool, user: bool,
                       huge: bool, nx: bool, rest: RestBits)

  const ZERO_WORD := Word(0, false, false, false, false, false, 0)

  function Zeros(n: nat): (s: seq<Word>)
    ensures |s| == n
    ensures forall i :: 0 <= i < n ==> s[i] == ZERO_WORD
  {
    seq(n, _ => ZERO_WORD)
  }

  type Page = p: seq<Word> | |p| == 512 witness Zeros(512)

  const ZERO_PAGE: Page := Zeros(512)

  /** Frames that were never written read as zero. */
  type Mem = map<nat, Page>

  function PageAt(m: Mem, f: nat): Page {
    if f in m then m[f] else ZERO_PAGE
  }

  function Entry(m: Mem, f: nat, i: nat): Word
    requires i < 512
  {
    PageAt(m, f)[i]
  }

  function SetEntry(m: Mem, f: nat, i: nat, w: Word): Mem
    requires i < 512
  {
    m[f := PageAt(m, f)[i := w]]
  }

  /** The word that holds the physical address of frame `f`. */
  function LinkWord(f: FrameNo): Word {
    Word(f, false, false, false, false, false, 0)
  }

  // ---- the byte view ----

  /** How the 512 words of a page are laid out as 4096 bytes. Nothing below depends on
      the layout itself, only on its being faithful. */
  datatype Layout = Layout(bytes: Page -> seq<byte>, page: seq<byte> -> Page)

  ghost predicate Faithful(l: Layout) {
    && (forall p :: |l.bytes(p)| == 4096)
    && (forall bs :: |bs| == 4096 ==> l.bytes(l.page(bs)) == bs)
    && (forall k :: 0 <= k < 4096 ==> l.bytes(ZERO_PAGE)[k] == 0)
  }

  type WordLayout = l: Layout | Faithful(l) ghost witness (LittleEndianFaithful(); LITTLE_ENDIAN)

  /** The byte at offset `o` of frame `f`. */
  function Byte(l: WordLayout, m: Mem, f: nat, o: nat): byte
    requires o < 4096
  {
    l.bytes(PageAt(m, f))[o]
  }

  /** Stores `bs` from offset `o` of frame `f` up. */
  function StoreBytes(l: WordLayout, m: Mem, f: nat, o: nat, bs: seq<byte>): Mem
    requires o + |bs| <= 4096
  {
    var was := l.bytes(PageAt(m, f));
    m[f := l.page(was[..o] + bs + was[o + |bs|..])]
  }

  /** A store changes exactly the bytes it covers. */
  lemma ByteAfterStore(l: WordLayout, m: Mem, f: nat, o: nat, bs: seq<byte>, g: nat, k: nat)
    requires o + |bs| <= 4096 && k < 4096
    ensures Byte(l, StoreBytes(l, m, f, o, bs), g, k)
            == if g == f && o <= k < o + |bs| then bs[k - o] else Byte(l, m, g, k)
  {
  }

  // ---- the layout of x86-64 ----

  const LITTLE_ENDIAN := Layout(PageBytes, PageFromBytes)

  function PageBytes(p: Page): (bs: seq<byte>)
    ensures |bs| == 4096
    ensures forall o :: 0 <= o < 4096 ==> bs[o] == WordBytes(p[o / 8])[o % 8]
  {
    seq(4096, (o: nat) requires o < 4096 => WordBytes(p[o / 8])[o % 8])
  }

  function PageFromBytes(bs: seq<byte>): (p: Page) {
    if |bs| != 4096 then ZERO_PAGE
    else seq(512, (i: nat) requires i < 512 => FromBytes(bs[8 * i..8 * i + 8]))
  }

  function Bit(b: bool): nat { if b then 1 else 0 }

  function WordBytes(w: Word): (bs: seq<byte>)
    ensures |bs| == 8
  {
    [Bit(w.present) + 2 * Bit(w.writable) + 4 * Bit(w.user) + 8 * (w.rest % 16) + 128 * Bit(w.huge),
     w.rest / 16 % 16 + 16 * (w.frame % 16),
     w.frame / 0x10 % 256,
     w.frame / 0x1000 % 256,
     w.frame / 0x10_0000 % 256,
     w.frame / 0x1000_0000 % 256,
     w.frame / 0x10_0000_0000 + 16 * (w.rest / 256 % 16),
     w.rest / 0x1000 + 128 * Bit(w.nx)]
  }

  function FrameBits(c: int, d: int, e: int, f: int, g: int, h: int): int {
    c / 16 + 0x10 * (d + 0x100 * (e + 0x100 * (f + 0x100 * (g + 0x100 * (h % 16)))))
  }

  function RestOf(b: int, c: int, h: int, i: int): int {
    b / 8 % 16 + 16 * (c % 16 + 16 * (h / 16 + 16 * (i % 128)))
  }

  function FromBytes(bs: seq<byte>): Word {
    if |bs| != 8 then ZERO_WORD else
    var b: int, i: int := bs[0], bs[7];
    Word(FrameBits(bs[1], bs[2], bs[3], bs[4], bs[5], bs[6]),
         b % 2 == 1, b / 2 % 2 == 1, b / 4 % 2 == 1, b / 128 == 1, i / 128 == 1,
         RestOf(bs[0], bs[1], bs[6], bs[7]))
  }

  lemma FrameBitsParts(c: byte, d: byte, e: byte, f: byte, g: byte, h: byte)
    ensures var n := FrameBits(c, d, e, f, g, h);
            && n % 16 == c / 16 && n / 0x10 % 256 == d && n / 0x1000 % 256 == e && n / 0x10_0000 % 256 == f
            && n / 0x1000_0000 % 256 == g && n / 0x10_0000_0000 == h % 16
  {
    var n := FrameBits(c, d, e, f, g, h);
    assert n / 0x10 == d + 0x100 * (e + 0x100 * (f + 0x100 * (g + 0x100 * (h % 16))));
    assert n / 0x1000 == n / 0x10 / 0x100 == e + 0x100 * (f + 0x100 * (g + 0x100 * (h % 16)));
    assert n / 0x10_0000 == n / 0x1000 / 0x100 == f + 0x100 * (g + 0x100 * (h % 16));
    assert n / 0x1000_0000 == n / 0x10_0000 / 0x100 == g + 0x100 * (h % 16);
    assert n / 0x10_0000_0000 == n / 0x1000_0000 / 0x100 == h % 16;
  }

  lemma RestParts(b: byte, c: byte, h: byte, i: byte)
    ensures var n := RestOf(b, c, h, i);
            && n % 16 == b / 8 % 16 && n / 16 % 16 == c % 16 && n / 256 % 16 == h / 16 && n / 0x1000 == i % 128
  {
    var n := RestOf(b, c, h, i);
    assert n / 16 == c % 16 + 16 * (h / 16 + 16 * (i % 128));
    assert n / 256 == n / 16 / 16 == h / 16 + 16 * (i % 128);
    assert n / 0x1000 == n / 256 / 16 == i % 128;
  }

  lemma LowByte(b: byte)
    ensures b ==
      Bit(b % 2 == 1) + 2 * Bit(b / 2 % 2 == 1) + 4 * Bit(b / 4 % 2 == 1) + 8 * (b / 8 % 16) + 128 * Bit(b / 128 == 1)
  {
    assert b / 4 == b / 2 / 2 && b / 8 == b / 4 / 2 && b / 128 == b / 8 / 16;
  }

  lemma SameBytes(w: Word, bs: seq<byte>)
    requires |bs| == 8
    requires w.rest % 16 == bs[0] / 8 % 16 && w.rest / 16 % 16 == bs[1] % 16
    requires w.rest / 256 % 16 == bs[6] / 16 && w.rest / 0x1000 == bs[7] % 128
    requires w.frame % 16 == bs[1] / 16 && w.frame / 0x10 % 256 == bs[2] && w.frame / 0x1000 % 256 == bs[3]
    requires w.frame / 0x10_0000 % 256 == bs[4] && w.frame / 0x1000_0000 % 256 == bs[5]
    requires w.frame / 0x10_0000_0000 == bs[6] % 16
    requires w.present == (bs[0] % 2 == 1) && w.writable == (bs[0] / 2 % 2 == 1) && w.user == (bs[0] / 4 % 2 == 1)
    requires w.huge == (bs[0] / 128 == 1) && w.nx == (bs[7] / 128 == 1)
    ensures WordBytes(w) == bs
  {
    LowByte(bs[0]);
  }

  lemma LittleEndianRoundTrip(bs: seq<byte>)
    requires |bs| == 8
    ensures WordBytes(FromBytes(bs)) == bs
  {
    RestParts(bs[0], bs[1], bs[6], bs[7]);
    FrameBitsParts(bs[1], bs[2], bs[3], bs[4], bs[5], bs[6]);
    SameBytes(FromBytes(bs), bs);
  }

  lemma WordOfPage(bs: seq<byte>, i: nat)
    requires |bs| == 4096 && i < 512
    ensures PageFromBytes(bs)[i] == FromBytes(bs[8 * i..8 * i + 8])
  {
  }

  lemma WordInPage(bs: seq<byte>, o: nat)
    requires |bs| == 4096 && o < 4096
    ensures WordBytes(PageFromBytes(bs)[o / 8])[o % 8] == bs[o]
  {
    var i, j := o / 8, o % 8;
    var w := bs[8 * i..8 * i + 8];
    LittleEndianRoundTrip(w);
    WordOfPage(bs, i);
    assert w[j] == bs[8 * i + j];
  }

  lemma LittleEndianInverts(bs: seq<byte>)
    requires |bs| == 4096
    ensures PageBytes(PageFromBytes(bs)) == bs
  {
    forall o | 0 <= o < 4096 ensures PageBytes(PageFromBytes(bs))[o] == bs[o] {
      WordInPage(bs, o);
    }
  }

  lemma LittleEndianZero(p: Page, k: nat)
    requires forall i :: 0 <= i < 512 ==> p[i] == ZERO_WORD
    requires k < 4096
    ensures PageBytes(p)[k] == 0
  {
    ZeroByte(p[k / 8], k % 8);
  }

  lemma ZeroByte(w: Word, j: nat)
    requires w == ZERO_WORD && j < 8
    ensures WordBytes(w)[j] == 0
  {
    ZeroBytes(w);
    ZeroAt(WordBytes(w), j);
  }

  lemma ZeroAt(bs: seq<byte>, j: nat)
    requires bs == [0, 0, 0, 0, 0, 0, 0, 0] && j < 8
    ensures bs[j] == 0
  {
  }

  lemma ZeroBytes(w: Word)
    requires w == ZERO_WORD
    ensures WordBytes(w) == [0, 0, 0, 0, 0, 0, 0, 0]
  {
    var bs: seq<byte> := [0, 0, 0, 0, 0, 0, 0, 0];
    NoBits(w.frame);
    NoBits(w.rest);
    NoBits(bs[0]);
    SameBytes(w, bs);
  }

  lemma NoBits(x: nat)
    requires x == 0
    ensures x % 2 == x % 16 == x % 128 == x / 2 == x / 4 == x / 8 == x / 16 == x / 128 == x / 256 == 0
    ensures x / 0x1000 == x / 0x10_0000 == x / 0x1000_0000 == x / 0x10_0000_0000 == x % 256 == 0
  {
  }

  lemma LittleEndianFaithful()
    ensures Faithful(LITTLE_ENDIAN)
  {
    forall bs: seq<byte> | |bs| == 4096 ensures LITTLE_ENDIAN.bytes(LITTLE_ENDIAN.page(bs)) == bs {
      LittleEndianInverts(bs);
    }
    forall k | 0 <= k < 4096 ensures LITTLE_ENDIAN.bytes(ZERO_PAGE)[k] == 0 {
      LittleEndianZero(ZERO_PAGE, k);
    }
  }
}
