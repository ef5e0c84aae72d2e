/** What output does to the cursor and what the terminal answers, byte string by byte string. */
module TtyLaws {
  import opened Memory
  import opened Tty
  import Bytes

  /** The rows and columns of the window; an unset size counts as 1. */
  ghost function Rows(s: Screen): nat { if s.wsRow == 0 then 1 else s.wsRow }

  ghost function Cols(s: Screen): nat { if s.wsCol == 0 then 1 else s.wsCol }

  /** The cursor is on the screen and no control sequence is under way. */
  ghost predicate Ready(s: Screen) {
    && 1 <= s.row <= Rows(s) && 1 <= s.col <= Cols(s)
    && !s.csiMode && !s.escPending && s.csi == []
  }

  ghost function AtMost(n: nat, max: nat): nat { if n > max then max else n }

  /** One call does what feeding its bytes does: the final clamp has nothing to do. */
  lemma OutputIsFeed(s: Screen, bs: seq<byte>)
    requires Ready(s)
    ensures Output(s, bs) == Feed(s, bs)
  {
    FeedKeeps(s, bs);
  }

  // ---- text ----

  ghost predicate Printable(bs: seq<byte>) {
    forall i :: 0 <= i < |bs| ==> 0x20 <= bs[i] <= 0x7E
  }

  lemma NextCell(c: nat, cols: nat)
    requires cols > 0
    ensures c % cols + 1 < cols ==> (c + 1) / cols == c / cols && (c + 1) % cols == c % cols + 1
    ensures c % cols + 1 == cols ==> (c + 1) / cols == c / cols + 1 && (c + 1) % cols == 0
  {
    var q, r := c / cols, c % cols;
    if r + 1 < cols {
      Bytes.Quotient(c + 1, cols, q, r + 1);
    } else {
      assert c + 1 == cols * (q + 1) + 0;
      Bytes.Quotient(c + 1, cols, q + 1, 0);
    }
  }

  /** The screen after `n` printable bytes: the cursor goes on from column to column and from row
      to row, and the last row is written over and over. */
  ghost function Typed(s: Screen, n: nat): Screen
    requires Ready(s)
  {
    var c, cols := s.col - 1 + n, Cols(s);
    s.(row := AtMost(s.row + c / cols, Rows(s)), col := c % cols + 1)
  }

  lemma {:induction false} TextMoves(s: Screen, bs: seq<byte>)
    requires Ready(s) && Printable(bs)
    ensures Feed(s, bs) == (Typed(s, |bs|), [])
    decreases |bs|
  {
    if bs == [] {
      Bytes.Quotient(s.col - 1, Cols(s), 0, s.col - 1);
    } else {
      var n := |bs| - 1;
      TextMoves(s, bs[..n]);
      OneMore(s, n, n + 1, bs[n]);
      FeedSnoc(s, bs[..n], bs[n], Typed(s, n), Typed(s, n + 1), []);
      assert bs[..n] + [bs[n]] == bs;
    }
  }

  lemma OneMore(s: Screen, n: nat, m: nat, b: byte)
    requires Ready(s) && 0x20 <= b <= 0x7E && m == n + 1
    ensures Step(Typed(s, n), b) == (Typed(s, m), [])
  {
    NextCell(s.col - 1 + n, Cols(s));
  }

  /** Cells are numbered row by row. */
  ghost function Cell(s: Screen): int { (s.row - 1) * Cols(s) + (s.col - 1) }

  /** Text advances by one cell a byte as far as the screen reaches. */
  lemma TextAdvances(s: Screen, bs: seq<byte>)
    requires Ready(s) && Printable(bs) && Cell(s) + |bs| < Rows(s) * Cols(s)
    ensures var t := Feed(s, bs).0; Ready(t) && Cell(t) == Cell(s) + |bs|
  {
    TextMoves(s, bs);
    TypedCell(s, |bs|, s.col - 1 + |bs|, Rows(s), Cols(s));
  }

  lemma TypedCell(s: Screen, n: nat, c: nat, rows: nat, cols: nat)
    requires Ready(s) && rows == Rows(s) && cols == Cols(s) && c == s.col - 1 + n
    requires (s.row - 1) * cols + c < rows * cols
    ensures var t := Typed(s, n); Ready(t) && Cell(t) == (s.row - 1) * cols + c
  {
    CellsAdvance(s.row, c, rows, cols);
    Below(c, cols);
  }

  lemma Below(c: nat, cols: nat)
    requires cols > 0
    ensures 0 <= c % cols < cols && c / cols >= 0
  {
  }

  lemma TypedReady(s: Screen, n: nat)
    requires Ready(s)
    ensures Ready(Typed(s, n))
  {
    Below(s.col - 1 + n, Cols(s));
  }

  lemma CellsAdvance(row: nat, c: nat, rows: nat, cols: nat)
    requires row > 0 && cols > 0 && (row - 1) * cols + c < rows * cols
    ensures row + c / cols <= rows && (row + c / cols - 1) * cols + c % cols == (row - 1) * cols + c
  {
    var q := c / cols;
    assert c == q * cols + c % cols;
    assert (row - 1 + q) * cols == (row - 1) * cols + q * cols;
    Smaller(row - 1 + q, rows, cols);
  }

  lemma Smaller(a: nat, b: nat, d: nat)
    requires a * d < b * d
    ensures a < b
  {
    assert a >= b ==> a * d >= b * d;
  }

  /** On the last cell the cursor returns to the first column of the same row. */
  lemma LastCellWraps(s: Screen, b: byte)
    requires Ready(s) && 0x20 <= b <= 0x7E && s.row == Rows(s) && s.col == Cols(s)
    ensures Feed(s, [b]) == (s.(col := 1), [])
  {
    FeedSnoc(s, [], b, s, s.(col := 1), []);
    assert [] + [b] == [b];
  }

  /** Text and then the question where the cursor is: the answer names row and column in decimal. */
  lemma TextIsReported(s: Screen, bs: seq<byte>)
    requires Ready(s) && Printable(bs)
    ensures var t := Typed(s, |bs|);
            Feed(s, bs + [27, 91, 54, 110]) == (t, [27, 91] + Decimal(t.row) + [59] + Decimal(t.col) + [82])
  {
    TextMoves(s, bs);
    TypedReady(s, |bs|);
    PlaceIsReported(s, bs, Typed(s, |bs|));
  }

  lemma PlaceIsReported(s: Screen, bs: seq<byte>, t: Screen)
    requires Feed(s, bs) == (t, []) && Ready(t)
    ensures Feed(s, bs + [27, 91, 54, 110]) == (t, [27, 91] + Decimal(t.row) + [59] + Decimal(t.col) + [82])
  {
    Reported(s, bs, t, t.row, t.col);
    assert bs + CSI + [54] + [110] == bs + [27, 91, 54, 110];
    Answer(Decimal(t.row), Decimal(t.col));
  }

  lemma Answer(a: seq<byte>, b: seq<byte>)
    ensures CSI + [] + a + [SEMICOLON] + b + [82] == [27, 91] + a + [59] + b + [82]
  {
  }

  // ---- control characters ----

  lemma One(s: Screen, b: byte, t: Screen, q: seq<byte>)
    requires Step(s, b) == (t, q)
    ensures Feed(s, [b]) == (t, q)
  {
    FeedSnoc(s, [], b, s, t, q);
    assert [] + [b] == [b];
  }

  lemma CarriageReturn(s: Screen)
    requires Ready(s)
    ensures Feed(s, [13]) == (s.(col := 1), [])
  {
    One(s, 13, s.(col := 1), []);
  }

  lemma LineFeed(s: Screen)
    requires Ready(s)
    ensures Feed(s, [10]) == (s.(row := AtMost(s.row + 1, Rows(s))), [])
  {
    One(s, 10, s.(row := AtMost(s.row + 1, Rows(s))), []);
  }

  lemma Backspace(s: Screen)
    requires Ready(s)
    ensures Feed(s, [8]) == (s.(col := if s.col == 1 then 1 else s.col - 1), [])
  {
    One(s, 8, s.(col := if s.col == 1 then 1 else s.col - 1), []);
  }

  /** A tab goes to the least column behind the cursor of the form 8k + 1, or to the last column. */
  lemma Tabulator(s: Screen, stop: nat)
    requires Ready(s) && s.col <= 0xFFF8 && s.col < stop <= s.col + 8 && stop % 8 == 1
    ensures Feed(s, [9]) == (s.(col := AtMost(stop, Cols(s))), [])
  {
    TabGoesToStop(s.col);
    One(s, 9, s.(col := AtMost(stop, Cols(s))), []);
  }

  /** Other bytes leave everything alone. */
  lemma Ignored(s: Screen, b: byte)
    requires Ready(s) && b !in {8, 9, 10, 13, 27} && !(0x20 <= b <= 0x7E)
    ensures Feed(s, [b]) == (s, [])
  {
    One(s, b, s, []);
  }

  // ---- control sequences ----

  /** The parameter 0 and no parameter stand for 1. */
  ghost function Param(ds: seq<byte>): nat
    requires AllDigits(ds)
  {
    if Value(ds) == 0 then 1 else AtMost(Value(ds), 0xFFFF)
  }

  lemma OneNumber(ds: seq<byte>)
    requires AllDigits(ds)
    ensures CsiOf(ds) == Csi(None, [AtMost(Value(ds), 0xFFFF)])
  {
    PiecesAt(ds, |ds|);
    assert ds[..|ds|] == ds;
    assert ds != [] ==> IsDigit(ds[0]);
    NumbersCons([], ds, []);
  }

  /** A control sequence with one parameter. */
  lemma Moves(s: Screen, ds: seq<byte>, final: byte, c: Csi, t: Screen)
    requires Ready(s) && AllDigits(ds) && |ds| <= 32 && 0x40 <= final <= 0x7E && final !in {99, 110, 112}
    requires c == Csi(None, [AtMost(Value(ds), 0xFFFF)]) && t == MoveCursor(s, c, final)
    ensures Feed(s, [27, 91] + ds + [final]) == (t, [])
  {
    OneNumber(ds);
    assert forall i :: 0 <= i < |ds| ==> IsDigit(ds[i]);
    Sequence(s, [], ds, final, s, []);
    Spelled(ds, final);
  }

  lemma Spelled(ds: seq<byte>, final: byte)
    ensures [] + CSI + ds + [final] == [27, 91] + ds + [final]
  {
  }

  lemma CursorUp(s: Screen, ds: seq<byte>)
    requires Ready(s) && AllDigits(ds) && |ds| <= 32
    ensures var n := Param(ds); Feed(s, [27, 91] + ds + [65]) == (s.(row := if n < s.row then s.row - n else 1), [])
  {
    var n := Param(ds);
    Moves(s, ds, 65, Csi(None, [AtMost(Value(ds), 0xFFFF)]), s.(row := if n < s.row then s.row - n else 1));
  }

  lemma CursorDown(s: Screen, ds: seq<byte>)
    requires Ready(s) && AllDigits(ds) && |ds| <= 32
    ensures Feed(s, [27, 91] + ds + [66]) == (s.(row := AtMost(s.row + Param(ds), Rows(s))), [])
  {
    Moves(s, ds, 66, Csi(None, [AtMost(Value(ds), 0xFFFF)]), s.(row := AtMost(s.row + Param(ds), Rows(s))));
  }

  lemma CursorRight(s: Screen, ds: seq<byte>)
    requires Ready(s) && AllDigits(ds) && |ds| <= 32
    ensures Feed(s, [27, 91] + ds + [67]) == (s.(col := AtMost(s.col + Param(ds), Cols(s))), [])
  {
    Moves(s, ds, 67, Csi(None, [AtMost(Value(ds), 0xFFFF)]), s.(col := AtMost(s.col + Param(ds), Cols(s))));
  }

  lemma CursorLeft(s: Screen, ds: seq<byte>)
    requires Ready(s) && AllDigits(ds) && |ds| <= 32
    ensures var n := Param(ds); Feed(s, [27, 91] + ds + [68]) == (s.(col := if n < s.col then s.col - n else 1), [])
  {
    var n := Param(ds);
    Moves(s, ds, 68, Csi(None, [AtMost(Value(ds), 0xFFFF)]), s.(col := if n < s.col then s.col - n else 1));
  }

  lemma ToColumn(s: Screen, ds: seq<byte>)
    requires Ready(s) && AllDigits(ds) && |ds| <= 32
    ensures Feed(s, [27, 91] + ds + [71]) == (s.(col := AtMost(Param(ds), Cols(s))), [])
  {
    Moves(s, ds, 71, Csi(None, [AtMost(Value(ds), 0xFFFF)]), s.(col := AtMost(Param(ds), Cols(s))));
  }

  lemma ToRow(s: Screen, ds: seq<byte>)
    requires Ready(s) && AllDigits(ds) && |ds| <= 32
    ensures Feed(s, [27, 91] + ds + [100]) == (s.(row := AtMost(Param(ds), Rows(s))), [])
  {
    Moves(s, ds, 100, Csi(None, [AtMost(Value(ds), 0xFFFF)]), s.(row := AtMost(Param(ds), Rows(s))));
  }

  /** Clearing the whole screen goes home; clearing parts of it does not move the cursor. */
  lemma ClearScreen(s: Screen, ds: seq<byte>)
    requires Ready(s) && AllDigits(ds) && |ds| <= 32
    ensures Feed(s, [27, 91] + ds + [74]) == (if Value(ds) == 2 then s.(row := 1, col := 1) else s, [])
  {
    var c := Csi(None, [AtMost(Value(ds), 0xFFFF)]);
    Cleared(s, c, c.params[0]);
    Moves(s, ds, 74, c, MoveCursor(s, c, 74));
  }

  lemma Cleared(s: Screen, c: Csi, n: u16)
    requires c == Csi(None, [n])
    ensures MoveCursor(s, c, 74) == if n == 2 then s.(row := 1, col := 1) else s
  {
  }

  lemma TwoNumbers(ds: seq<byte>, es: seq<byte>, all: seq<byte>)
    requires AllDigits(ds) && AllDigits(es) && all == ds + [59] + es
    ensures CsiOf(all) == Csi(None, [AtMost(Value(ds), 0xFFFF), AtMost(Value(es), 0xFFFF)])
  {
    TwoPieces(ds, es, all);
    NumbersOfTwo(ds, es);
    assert all[0] == (if ds == [] then 59 else ds[0]);
    assert ds != [] ==> IsDigit(ds[0]);
  }

  lemma TwoPieces(ds: seq<byte>, es: seq<byte>, all: seq<byte>)
    requires AllDigits(ds) && AllDigits(es) && all == ds + [59] + es
    ensures Pieces(all) == [ds] + [es]
  {
    assert forall i :: 0 <= i < |ds| ==> all[i] == ds[i] && IsDigit(ds[i]);
    assert forall i :: 0 <= i < |es| ==> IsDigit(es[i]);
    PiecesAt(all, |ds|);
    assert all[..|ds|] == ds && all[|ds| + 1..] == es;
    PiecesAt(es, |es|);
    assert es[..|es|] == es;
  }

  lemma NumbersOfTwo(ds: seq<byte>, es: seq<byte>)
    requires AllDigits(ds) && AllDigits(es)
    ensures Numbers([ds] + [es]) == [AtMost(Value(ds), 0xFFFF), AtMost(Value(es), 0xFFFF)]
  {
    NumbersCons([], ds, [es]);
    NumbersCons([], es, []);
  }

  /** Row and column at once, with `H` or `f`. */
  lemma ToPlace(s: Screen, ds: seq<byte>, es: seq<byte>, final: byte)
    requires Ready(s) && AllDigits(ds) && AllDigits(es) && |ds| + |es| < 32 && final in {72, 102}
    ensures Feed(s, [27, 91] + (ds + [59] + es) + [final]) ==
      (s.(row := AtMost(Param(ds), Rows(s)), col := AtMost(Param(es), Cols(s))), [])
  {
    var all, n, m := ds + [59] + es, AtMost(Value(ds), 0xFFFF), AtMost(Value(es), 0xFFFF);
    assert forall i :: 0 <= i < |ds| ==> IsDigit(ds[i]);
    assert forall i :: 0 <= i < |es| ==> IsDigit(es[i]);
    TwoNumbers(ds, es, all);
    Placed(s, Csi(None, [n, m]), final, Param(ds), Param(es));
    Sequence(s, [], all, final, s, []);
    Spelled(all, final);
  }

  lemma Placed(s: Screen, c: Csi, final: byte, row: nat, col: nat)
    requires Ready(s) && |c.params| == 2 && final in {72, 102} && row < 0x1_0000 && col < 0x1_0000
    requires row == (if c.params[0] == 0 then 1 else c.params[0]) && col == if c.params[1] == 0 then 1 else c.params[1]
    ensures MoveCursor(s, c, final) == s.(row := AtMost(row, Rows(s)), col := AtMost(col, Cols(s)))
  {
  }

  /** Any other sequence, such as one that sets colours, leaves the cursor alone. */
  lemma OtherSequence(s: Screen, ds: seq<byte>, final: byte)
    requires Ready(s) && AllDigits(ds) && |ds| <= 32 && 0x40 <= final <= 0x7E
    requires final !in {65, 66, 67, 68, 71, 72, 74, 99, 100, 102, 110, 112}
    ensures Feed(s, [27, 91] + ds + [final]) == (s, [])
  {
    Moves(s, ds, final, Csi(None, [AtMost(Value(ds), 0xFFFF)]), s);
  }

  /** An escape not followed by a bracket swallows the next byte. */
  lemma EscapeSwallows(s: Screen, b: byte)
    requires Ready(s) && b != 91
    ensures Feed(s, [27, b]) == (s, [])
  {
    One(s, 27, s.(escPending := true), []);
    FeedSnoc(s, [27], b, s.(escPending := true), s, []);
    assert [27] + [b] == [27, b];
  }

  /** A byte that cannot be part of a control sequence ends it without effect. */
  lemma SequenceAbandoned(s: Screen, ps: seq<byte>, b: byte)
    requires Ready(s) && |ps| <= 32 && (forall i :: 0 <= i < |ps| ==> 0x20 <= ps[i] <= 0x3F)
    requires b < 0x20 || b > 0x7E || (b <= 0x3F && |ps| == 32)
    ensures Feed(s, [27, 91] + ps + [b]) == (s, [])
  {
    One(s, 27, s.(escPending := true), []);
    FeedSnoc(s, [27], 91, s.(escPending := true), s.(csiMode := true), []);
    assert [27] + [91] == [27, 91];
    Collects(s, [27, 91], ps, s.(csiMode := true));
    assert s.csi + ps == ps;
    FeedSnoc(s, [27, 91] + ps, b, s.(csiMode := true, csi := ps), s, []);
  }

  // ---- answers ----

  lemma StatusIsReported(s: Screen)
    requires Ready(s)
    ensures Feed(s, [27, 91, 53, 110]) == (s, [27, 91, 48, 110])
  {
    var five: seq<byte>, r: seq<byte> := Decimal(5), [27, 91, 48, 110];
    DecimalValue(5);
    OneNumber(five);
    OkReply(s.(csiMode := true, csi := five), Csi(None, [5]), r);
    NoMove(s, Csi(None, [5]));
    Sequence(s, [], five, 110, s, r);
    Spelled(five, 110);
    assert [27, 91] + five + [110] == [27, 91, 53, 110];
  }

  lemma OkReply(t: Screen, c: Csi, r: seq<byte>)
    requires c == Csi(None, [5]) && r == [27, 91, 48, 110]
    ensures Reply(t, c, 110) == r
  {
  }

  lemma AttributesAreReported(s: Screen, ds: seq<byte>)
    requires Ready(s) && AllDigits(ds) && |ds| <= 32
    ensures Feed(s, [27, 91] + ds + [99]) == (s, [27, 91, 63, 49, 59, 50, 99])
  {
    OneNumber(ds);
    assert forall i :: 0 <= i < |ds| ==> IsDigit(ds[i]);
    Sequence(s, [], ds, 99, s, [27, 91, 63, 49, 59, 50, 99]);
    Spelled(ds, 99);
  }

  lemma SecondaryAttributesAreReported(s: Screen)
    requires Ready(s)
    ensures Feed(s, [27, 91, 62, 99]) == (s, [27, 91, 62, 48, 59, 49, 51, 54, 59, 48, 99])
  {
    var mark: seq<byte>, r: seq<byte> := [62], [27, 91, 62, 48, 59, 49, 51, 54, 59, 48, 99];
    assert mark[1..] == [];
    assert CsiOf(mark).private == Some(62);
    Sequence(s, [], mark, 99, s, r);
    Spelled(mark, 99);
    assert [27, 91] + mark + [99] == [27, 91, 62, 99];
  }

  /** Every mode that is asked about is reported as unknown. */
  lemma ModeIsReported(s: Screen, n: u16)
    requires Ready(s)
    ensures Feed(s, [27, 91] + ([63] + Decimal(n) + [36]) + [112]) == (s, [27, 91, 63] + Decimal(n) + [59, 48, 36, 121])
  {
    var ds: seq<byte>, q: seq<byte> := Decimal(n), [63] + Decimal(n) + [36];
    DigitsArePlain(n);
    NumberOfDecimal(n);
    assert q[1..|q| - 1] == ds && |q| >= 3 && q[0] == 63 && q[|q| - 1] == 36;
    assert ModeQuery(q) == Some(n) && CsiOf(q).private == Some(63);
    var r := [27, 91, 63] + ds + [59, 48, 36, 121];
    ModeAnswer(s.(csiMode := true, csi := q), CsiOf(q), n, r);
    Sequence(s, [], q, 112, s, r);
    Spelled(q, 112);
  }

  lemma ModeAnswer(t: Screen, c: Csi, n: u16, r: seq<byte>)
    requires ModeQuery(t.csi) == Some(n) && c.private == Some(63) && r == [27, 91, 63] + Decimal(n) + [59, 48, 36, 121]
    ensures Reply(t, c, 112) == r && MoveCursor(t, c, 112) == t
  {
    assert CSI + [63] + Decimal(n) + [59, 48, 36, 121] == r;
  }
}
