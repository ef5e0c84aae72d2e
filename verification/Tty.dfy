/** The terminal's output side: cursor tracking, control sequences and replies. */
module Tty {
  import opened Memory
  import Bytes

  type u16 = x: nat | x < 0x1_0000

  const CSI_MAX: nat := 32
  const ESC: byte := 0x1B

  // ---- decimal numbers ----

  predicate IsDigit(b: byte) { 48 <= b <= 57 }

  ghost predicate AllDigits(bs: seq<byte>) {
    forall i :: 0 <= i < |bs| ==> IsDigit(bs[i])
  }

  /** The value of a digit string, most significant digit first. */
  ghost function Value(bs: seq<byte>): nat
    requires AllDigits(bs)
  {
    if bs == [] then 0 else Value(bs[..|bs| - 1]) * 10 + (bs[|bs| - 1] - 48)
  }

  function Min(a: nat, b: nat): nat { if a < b then a else b }

  /** What a parameter means: its value, cut off at the largest 16-bit number. */
  ghost function Number(bs: seq<byte>): Option<u16> {
    if AllDigits(bs) then Some(Min(Value(bs), 0xFFFF)) else None
  }

  /** Saturating arithmetic digit by digit is cutting off at the end. */
  method ParseAscii(bs: seq<byte>) returns (r: Option<u16>)
    ensures r == Number(bs)
  {
    var value: u16 := 0;
    for i := 0 to |bs|
      invariant AllDigits(bs[..i]) && value == Min(Value(bs[..i]), 0xFFFF)
    {
      if !IsDigit(bs[i]) {
        return None;
      }
      assert bs[..i + 1][..i] == bs[..i];
      value := Min(Min(value * 10, 0xFFFF) + (bs[i] - 48), 0xFFFF);
    }
    assert bs[..|bs|] == bs;
    return Some(value);
  }

  /** The digits of a number, without leading zeros. */
  ghost function Decimal(n: nat): (s: seq<byte>)
    ensures s != [] && AllDigits(s)
  {
    if n < 10 then [48 + n] else Decimal(n / 10) + [48 + n % 10]
  }

  lemma {:induction false} DecimalValue(n: nat)
    ensures Value(Decimal(n)) == n
    decreases n
  {
    if n >= 10 {
      DecimalValue(n / 10);
      assert Decimal(n)[..|Decimal(n)| - 1] == Decimal(n / 10);
    }
  }

  /** Digit `i` from the right is the number divided by the `i`-th power of ten, modulo ten; the first
      digit of a number of several digits is not 0. */
  lemma {:induction false} DecimalDigit(n: nat, i: nat)
    requires i < |Decimal(n)|
    ensures Decimal(n)[|Decimal(n)| - 1 - i] == 48 + n / Tens(i) % 10
    ensures |Decimal(n)| > 1 ==> Decimal(n)[0] != 48
    decreases n
  {
    if n >= 10 {
      DecimalDigit(n / 10, if i == 0 then 0 else i - 1);
      if i > 0 {
        TensShift(n, Tens(i - 1));
      }
    }
  }

  lemma TensShift(n: nat, p: nat)
    requires p > 0
    ensures n / (10 * p) == n / 10 / p
  {
    var q, r := n / 10 / p, n / 10 % p;
    assert n == 10 * (p * q + r) + n % 10 == (10 * p) * q + (10 * r + n % 10);
    Bytes.Quotient(n, 10 * p, q, 10 * r + n % 10);
  }

  lemma {:induction false} DecimalLength(n: nat, k: nat, bound: nat)
    requires 0 < k && bound == Tens(k) && n < bound
    ensures |Decimal(n)| <= k
    decreases k
  {
    if n >= 10 {
      DecimalLength(n / 10, k - 1, bound / 10);
    }
  }

  ghost function Tens(k: nat): (p: nat)
    ensures p > 0
  {
    if k == 0 then 1 else 10 * Tens(k - 1)
  }

  /** Appends a number, filling a five-byte buffer from the back. */
  method PushAscii(out: seq<byte>, n: u16) returns (r: seq<byte>)
    ensures r == out + Decimal(n)
  {
    if n == 0 {
      return out + [48];
    }
    var buf: seq<byte>, i, rest: nat := [0, 0, 0, 0, 0], 5, n;
    while rest > 0
      invariant |buf| == 5 && 0 <= i <= 5 && rest < Tens(i)
      invariant if rest > 0 then Decimal(rest) + buf[i..] == Decimal(n) else buf[i..] == Decimal(n)
      decreases rest
    {
      assert i > 0;
      i := i - 1;
      ghost var before := buf[i + 1..];
      buf := buf[i := 48 + rest % 10];
      assert buf[i..] == [48 + rest % 10] + before;
      assert Decimal(rest) + before == (if rest < 10 then [] else Decimal(rest / 10)) + ([48 + rest % 10] + before);
      rest := rest / 10;
    }
    return out + buf[i..];
  }

  // ---- parameters of a control sequence ----

  const SEMICOLON: byte := 59

  /** The pieces between semicolons. */
  ghost function Pieces(s: seq<byte>): (p: seq<seq<byte>>)
    ensures p != []
  {
    if s == [] then [[]]
    else if s[0] == SEMICOLON then [[]] + Pieces(s[1..])
    else var rest := Pieces(s[1..]); [[s[0]] + rest[0]] + rest[1..]
  }

  /** The numbers among the pieces; a piece that is none is left out. */
  ghost function Numbers(p: seq<seq<byte>>): seq<u16> {
    if p == [] then [] else
    (if Number(p[0]).Some? then [Number(p[0]).value] else []) + Numbers(p[1..])
  }

  /** A control sequence: its private marker and at most eight parameters. */
  datatype Csi = Csi(private: Option<byte>, params: seq<u16>)

  predicate IsMarker(b: byte) { b == 63 || b == 62 || b == 33 }

  ghost function CsiOf(s: seq<byte>): (c: Csi)
    ensures |c.params| <= 8
  {
    var private := if s != [] && IsMarker(s[0]) then Some(s[0]) else None;
    var all := Numbers(Pieces(if private.Some? then s[1..] else s));
    Csi(private, if |all| <= 8 then all else all[..8])
  }

  /** A piece ends at the first semicolon. */
  lemma {:induction false} PiecesAt(s: seq<byte>, k: nat)
    requires k <= |s| && (forall i :: 0 <= i < k ==> s[i] != SEMICOLON) && (k < |s| ==> s[k] == SEMICOLON)
    ensures Pieces(s) == [s[..k]] + (if k < |s| then Pieces(s[k + 1..]) else [])
    decreases |s|
  {
    if s == [] {
    } else if k == 0 {
    } else {
      PiecesAt(s[1..], k - 1);
      assert k < |s| ==> s[1..][k..] == s[k + 1..];
      assert [s[0]] + s[1..][..k - 1] == s[..k];
    }
  }

  lemma NumbersCons(done: seq<u16>, piece: seq<byte>, rest: seq<seq<byte>>)
    ensures done + Numbers([piece] + rest) ==
      done + (if Number(piece).Some? then [Number(piece).value] else []) + Numbers(rest)
  {
  }

  /** Splits a sequence into its parameters in one pass. */
  method CsiParams(s: seq<byte>) returns (c: Csi)
    ensures c == CsiOf(s)
  {
    var marked := s != [] && IsMarker(s[0]);
    var t := if marked then s[1..] else s;
    var params;
    ghost var rest;
    params, rest := ParamsOf(t, Suffixes(t));
    assert t[0..] == t;
    c := Csi(if marked then Some(s[0]) else None, params);
  }

  /** The numbers from position `from` on; nothing is left behind the last piece. */
  ghost function NumbersFrom(t: seq<byte>, from: nat): seq<u16> {
    if from <= |t| then Numbers(Pieces(t[from..])) else []
  }

  ghost function Suffixes(t: seq<byte>): nat -> seq<u16> {
    from => NumbersFrom(t, from)
  }

  /** The first eight numbers, or all of them. */
  method ParamsOf(t: seq<byte>, ghost nums: nat -> seq<u16>) returns (params: seq<u16>, ghost rest: seq<u16>)
    requires nums == Suffixes(t)
    ensures nums(0) == params + rest
    ensures |params| <= 8 && (|params| < 8 ==> rest == nums(|t| + 1))
  {
    params := [];
    var i, from := 0, 0;
    while i <= |t| && |params| < 8
      invariant from <= i <= |t| + 1 && |params| <= 8 && (i <= |t| || from == i)
      invariant NoSemicolon(t, from, i)
      invariant nums(0) == params + nums(from)
      decreases |t| + 1 - i
    {
      if i == |t| || t[i] == SEMICOLON {
        params := EndPiece(t, from, i, params, nums);
        from := i + 1;
      }
      i := i + 1;
    }
    rest := nums(from);
  }

  ghost predicate NoSemicolon(t: seq<byte>, from: nat, i: nat) {
    forall j :: from <= j < i && j < |t| ==> t[j] != SEMICOLON
  }

  /** The piece `t[from..i]` is complete. */
  method EndPiece(t: seq<byte>, from: nat, i: nat, params: seq<u16>, ghost nums: nat -> seq<u16>) returns (r: seq<u16>)
    requires from <= i <= |t| && (i < |t| ==> t[i] == SEMICOLON) && NoSemicolon(t, from, i)
    requires nums == Suffixes(t)
    ensures |r| <= |params| + 1 && params + nums(from) == r + nums(i + 1)
  {
    var piece := t[from..i];
    NextPiece(t, from, i, params);
    var n := ParseAscii(piece);
    r := if n.Some? then params + [n.value] else params;
  }

  lemma NextPiece(t: seq<byte>, from: nat, i: nat, params: seq<u16>)
    requires from <= i <= |t| && (i < |t| ==> t[i] == SEMICOLON) && NoSemicolon(t, from, i)
    ensures var n := Number(t[from..i]);
            params + NumbersFrom(t, from) == (if n.Some? then params + [n.value] else params) + NumbersFrom(t, i + 1)
  {
    var piece := t[from..i];
    var rest := if i < |t| then Pieces(t[i + 1..]) else [];
    PiecesFrom(t, from, i, piece, rest);
    NumbersCons(params, piece, rest);
  }

  lemma PiecesFrom(t: seq<byte>, from: nat, i: nat, piece: seq<byte>, rest: seq<seq<byte>>)
    requires from <= i <= |t| && (i < |t| ==> t[i] == SEMICOLON) && NoSemicolon(t, from, i)
    requires piece == t[from..i] && rest == if i < |t| then Pieces(t[i + 1..]) else []
    ensures Pieces(t[from..]) == [piece] + rest
  {
    var s, k := t[from..], i - from;
    PiecesAt(s, k);
    assert s[..k] == piece;
    if i < |t| {
      assert s[k + 1..] == t[i + 1..];
    }
  }

  // ---- the screen ----

  /** Window size, parser state and cursor. */
  datatype Screen = Screen(wsRow: u16, wsCol: u16, escPending: bool, csiMode: bool, csi: seq<byte>, row: u16, col: u16)

  function Max1(n: u16): u16 { if n == 0 then 1 else n }

  predicate InBounds(s: Screen) {
    && 1 <= s.row <= Max1(s.wsRow) && 1 <= s.col <= Max1(s.wsCol)
    && |s.csi| <= CSI_MAX && (s.csiMode || s.csi == [])
  }

  function ClampTo(n: u16, max: u16): u16 { if n == 0 then 1 else if n > max then max else n }

  function Clamp(s: Screen): Screen {
    s.(row := ClampTo(s.row, Max1(s.wsRow)), col := ClampTo(s.col, Max1(s.wsCol)))
  }

  /** A parameter, with zero and absence standing for the default. */
  function ParamOr(c: Csi, i: nat, default: u16): u16 {
    if i < |c.params| && c.params[i] != 0 then c.params[i] else default
  }

  function Less(a: u16, b: u16): u16 { if a <= b then 1 else a - b }

  /** Where a tab goes, in 16-bit arithmetic. */
  function TabStop(col: u16): u16 {
    (((if col == 0 then 0 else col - 1) / 8 + 1) * 8 + 1) % 0x1_0000
  }

  /** Where a control sequence moves the cursor, on a screen of `rows` by `cols`. */
  function Target(rows: u16, cols: u16, row: u16, col: u16, c: Csi, final: byte): (u16, u16) {
    var n := ParamOr(c, 0, 1);
    if final == 65 then (Less(row, n), col)
    else if final == 66 then (Min(Min(row + n, 0xFFFF), rows), col)
    else if final == 67 then (row, Min(Min(col + n, 0xFFFF), cols))
    else if final == 68 then (row, Less(col, n))
    else if final == 72 || final == 102 then (ClampTo(n, rows), ClampTo(ParamOr(c, 1, 1), cols))
    else if final == 71 then (ClampTo(row, rows), ClampTo(n, cols))
    else if final == 100 then (ClampTo(n, rows), ClampTo(col, cols))
    else if final == 74 && |c.params| > 0 && c.params[0] == 2 then (1, 1)
    else (row, col)
  }

  function MoveCursor(s: Screen, c: Csi, final: byte): Screen {
    var (row, col) := Target(Max1(s.wsRow), Max1(s.wsCol), s.row, s.col, c, final);
    s.(row := row, col := col)
  }

  const CSI: seq<byte> := [ESC, 91]

  /** The reply a control sequence asks for. */
  ghost function Reply(s: Screen, c: Csi, final: byte): seq<byte> {
    if final == 110 then StatusReply(s.row, s.col, c)
    else if final == 99 then AttributesReply(c)
    else if final == 112 then ModeReply(s.csi, c)
    else []
  }

  /** Status report, or cursor position report. */
  ghost function StatusReply(row: u16, col: u16, c: Csi): seq<byte> {
    var mark: seq<byte> := if c.private == Some(63) then [63] else [];
    if ParamOr(c, 0, 0) == 5 then CSI + mark + [48, 110]
    else if ParamOr(c, 0, 0) == 6 then CSI + mark + Decimal(Max1(row)) + [SEMICOLON] + Decimal(Max1(col)) + [82]
    else []
  }

  /** Device attributes. */
  function AttributesReply(c: Csi): seq<byte> {
    if c.private == Some(62) then CSI + [62, 48, 59, 49, 51, 54, 59, 48, 99] else CSI + [63, 49, 59, 50, 99]
  }

  /** Mode report: every mode is unknown. */
  ghost function ModeReply(csi: seq<byte>, c: Csi): seq<byte> {
    var mode := ModeQuery(csi);
    if c.private == Some(63) && mode.Some? then CSI + [63] + Decimal(mode.value) + [59, 48, 36, 121] else []
  }

  /** The mode asked about by a request to report a mode. */
  ghost function ModeQuery(csi: seq<byte>): Option<u16> {
    if |csi| < 3 || csi[0] != 63 || csi[|csi| - 1] != 36 then None else Number(csi[1..|csi| - 1])
  }

  /** What one byte of output does. */
  ghost function Step(s: Screen, b: byte): (Screen, seq<byte>) {
    if s.csiMode then
      if 0x20 <= b <= 0x3F && |s.csi| < CSI_MAX then (s.(csi := s.csi + [b]), [])
      else if 0x40 <= b <= 0x7E then
        (MoveCursor(s, CsiOf(s.csi), b).(csiMode := false, csi := []), Reply(s, CsiOf(s.csi), b))
      else (s.(csiMode := false, csi := []), [])
    else if s.escPending then
      if b == 91 then (s.(escPending := false, csiMode := true, csi := []), []) else (s.(escPending := false), [])
    else (Plain(s, b), [])
  }

  /** A byte outside any control sequence. */
  function Plain(s: Screen, b: byte): Screen {
    var rows, cols := Max1(s.wsRow), Max1(s.wsCol);
    if b == ESC then s.(escPending := true)
    else if b == 13 then s.(col := 1)
    else if b == 10 then (if s.row < rows then s.(row := s.row + 1) else s)
    else if b == 8 then (if s.col > 1 then s.(col := s.col - 1) else s)
    else if b == 9 then s.(col := Min(TabStop(s.col), cols))
    else if 0x20 <= b <= 0x7E then
      (if s.col < cols then s.(col := s.col + 1)
       else if s.row < rows then s.(row := s.row + 1, col := 1)
       else s.(col := 1))
    else s
  }

  /** A string of output, byte by byte. */
  ghost function Feed(s: Screen, bs: seq<byte>): (Screen, seq<byte>) {
    Fold(Step, s, bs)
  }

  ghost function Fold(step: (Screen, byte) -> (Screen, seq<byte>), s: Screen, bs: seq<byte>): (Screen, seq<byte>) {
    if bs == [] then (s, []) else
    var (t, r) := Fold(step, s, bs[..|bs| - 1]);
    var (u, q) := step(t, bs[|bs| - 1]);
    (u, r + q)
  }

  /** One call: the cursor is clamped at the end, unless there was nothing to do. */
  ghost function Output(s: Screen, bs: seq<byte>): (Screen, seq<byte>) {
    if bs == [] then (s, []) else var (t, r) := Feed(s, bs); (Clamp(t), r)
  }

  // ---- invariants and the split law ----

  predicate OnScreen(s: Screen, t: Screen) {
    && t.wsRow == s.wsRow && t.wsCol == s.wsCol
    && 1 <= t.row <= Max1(s.wsRow) && 1 <= t.col <= Max1(s.wsCol)
  }

  lemma MoveKeeps(s: Screen, c: Csi, final: byte)
    requires InBounds(s)
    ensures OnScreen(s, MoveCursor(s, c, final))
  {
  }

  lemma PlainKeeps(s: Screen, b: byte)
    requires InBounds(s)
    ensures OnScreen(s, Plain(s, b)) && Plain(s, b).csi == s.csi && Plain(s, b).csiMode == s.csiMode
  {
    if b == 9 {
      TabPositive(s.col);
    }
  }

  function By(n: u16): Csi { Csi(None, [n]) }

  /** Moving up and down again, or down and up again, returns to the same row exactly if the
      first move was not cut short at an edge, or the second is at the other. */
  lemma RowMovesCancel(s: Screen, n: u16)
    requires InBounds(s) && n > 0
    ensures MoveCursor(MoveCursor(s, By(n), 65), By(n), 66) == s <==> n < s.row || s.row == Max1(s.wsRow)
    ensures MoveCursor(MoveCursor(s, By(n), 66), By(n), 65) == s <==> s.row + n <= Max1(s.wsRow) || s.row == 1
  {
  }

  /** The same for moves to the right and to the left. */
  lemma ColumnMovesCancel(s: Screen, n: u16)
    requires InBounds(s) && n > 0
    ensures MoveCursor(MoveCursor(s, By(n), 67), By(n), 68) == s <==> s.col + n <= Max1(s.wsCol) || s.col == 1
    ensures MoveCursor(MoveCursor(s, By(n), 68), By(n), 67) == s <==> n < s.col || s.col == Max1(s.wsCol)
  {
  }

  lemma TabPositive(col: u16)
    ensures TabStop(col) > 0
  {
  }

  lemma StepKeeps(s: Screen, b: byte)
    requires InBounds(s)
    ensures InBounds(Step(s, b).0) && OnScreen(s, Step(s, b).0)
  {
    MoveKeeps(s, CsiOf(s.csi), b);
    PlainKeeps(s, b);
  }

  lemma {:induction false} FeedKeeps(s: Screen, bs: seq<byte>)
    requires InBounds(s)
    ensures InBounds(Feed(s, bs).0)
    decreases |bs|
  {
    if bs != [] {
      FeedKeeps(s, bs[..|bs| - 1]);
      StepKeeps(Feed(s, bs[..|bs| - 1]).0, bs[|bs| - 1]);
    }
  }

  lemma {:induction false} FoldConcat(step: (Screen, byte) -> (Screen, seq<byte>), s: Screen, a: seq<byte>,
                                      b: seq<byte>)
    ensures var (t, r) := Fold(step, s, a); var (u, q) := Fold(step, t, b); Fold(step, s, a + b) == (u, r + q)
    decreases |b|
  {
    if b == [] {
      assert a + b == a;
      assert Fold(step, s, a).1 + [] == Fold(step, s, a).1;
    } else {
      var n := |b| - 1;
      assert (a + b)[..|a + b| - 1] == a + b[..n];
      FoldConcat(step, s, a, b[..n]);
      var (t, r) := Fold(step, s, a);
      var (u, q) := Fold(step, t, b[..n]);
      assert r + (q + step(u, b[n]).1) == (r + q) + step(u, b[n]).1;
    }
  }

  /** Output may be cut anywhere: two calls do what one call with both strings does. */
  lemma OutputSplits(s: Screen, a: seq<byte>, b: seq<byte>)
    requires InBounds(s)
    ensures var (t, r) := Output(s, a); var (u, q) := Output(t, b); Output(s, a + b) == (u, r + q)
  {
    FoldConcat(Step, s, a, b);
    FeedKeeps(s, a);
    FeedKeeps(s, a + b);
    assert a + [] == a && [] + b == b;
  }

  datatype Event = Written(bytes: seq<byte>) | Resized(row: u16, col: u16)

  function Resize(s: Screen, row: u16, col: u16): Screen {
    Clamp(s.(wsRow := if row != 0 then row else s.wsRow, wsCol := if col != 0 then col else s.wsCol))
  }

  const START: Screen := Screen(24, 80, false, false, [], 1, 1)

  ghost function After(events: seq<Event>): Screen {
    if events == [] then START else
    var s := After(events[..|events| - 1]);
    match events[|events| - 1]
    case Written(bytes) => Output(s, bytes).0
    case Resized(row, col) => Resize(s, row, col)
  }

  /** In every run of output and window changes the cursor is on the screen and the
      parameter buffer is not overrun. */
  lemma {:induction false} AlwaysInBounds(events: seq<Event>)
    ensures InBounds(After(events))
    decreases |events|
  {
    if events != [] {
      var s := After(events[..|events| - 1]);
      AlwaysInBounds(events[..|events| - 1]);
      match events[|events| - 1]
      case Written(bytes) => FeedKeeps(s, bytes);
      case Resized(_, _) =>
    }
  }

  /** A tab goes to the next column of the form 8k + 1, or to the last column. */
  lemma TabGoesToStop(col: u16)
    requires 1 <= col <= 0xFFF8
    ensures TabStop(col) > col && TabStop(col) % 8 == 1 && TabStop(col) <= col + 8
  {
  }

  /** The tab computation leaves 16 bits exactly on windows of 65529 columns or more. */
  lemma TabOverflow(cols: u16)
    requires cols > 0
    ensures (exists col: u16 :: 1 <= col <= cols && TabOverflows(col)) <==> cols >= 65529
  {
    if cols >= 65529 {
      assert TabOverflows(65529);
    }
  }

  predicate TabOverflows(col: u16)
    requires col > 0
  {
    ((col - 1) / 8 + 1) * 8 + 1 >= 0x1_0000
  }

  // ---- the terminal itself ----

  class Terminal {
    var wsRow: u16
    var wsCol: u16
    var escPending: bool
    var csiMode: bool
    const csiSeq: array<byte>
    var csiLen: nat
    var cursorRow: u16
    var cursorCol: u16

    ghost predicate Valid()
      reads this
    {
      csiSeq.Length == CSI_MAX && csiLen <= CSI_MAX
    }

    ghost function View(): Screen
      requires Valid()
      reads this, csiSeq
    {
      Screen(wsRow, wsCol, escPending, csiMode, csiSeq[..csiLen], cursorRow, cursorCol)
    }

    constructor ()
      ensures Valid() && View() == START && fresh(csiSeq)
    {
      wsRow, wsCol, escPending, csiMode, csiLen, cursorRow, cursorCol := 24, 80, false, false, 0, 1, 1;
      csiSeq := new byte[CSI_MAX](i => 0);
    }

    method ClampCursor()
      requires Valid()
      modifies this`cursorRow, this`cursorCol
      ensures View() == Clamp(old(View()))
    {
      var rows, cols := Max1(wsRow), Max1(wsCol);
      if cursorRow == 0 {
        cursorRow := 1;
      } else if cursorRow > rows {
        cursorRow := rows;
      }
      if cursorCol == 0 {
        cursorCol := 1;
      } else if cursorCol > cols {
        cursorCol := cols;
      }
    }

    method SetWinsize(row: u16, col: u16)
      requires Valid()
      modifies this
      ensures Valid() && View() == Resize(old(View()), row, col)
      ensures wsRow == (if row != 0 then row else old(wsRow)) && wsCol == if col != 0 then col else old(wsCol)
      ensures old(InBounds(View())) ==>
        && cursorRow == (if wsRow == 0 then 1 else if old(cursorRow) > wsRow then wsRow else old(cursorRow))
        && cursorCol == (if wsCol == 0 then 1 else if old(cursorCol) > wsCol then wsCol else old(cursorCol))
    {
      if row != 0 {
        wsRow := row;
      }
      if col != 0 {
        wsCol := col;
      }
      ClampCursor();
    }

    /** Carries out the cursor movement of a control sequence. */
    method Move(c: Csi, final: byte)
      requires Valid()
      modifies this`cursorRow, this`cursorCol
      ensures View() == MoveCursor(old(View()), c, final)
    {
      var rows, cols, n := Max1(wsRow), Max1(wsCol), ParamOr(c, 0, 1);
      match final {
        case 65 => cursorRow := Less(cursorRow, n);
        case 66 => cursorRow := Min(Min(cursorRow + n, 0xFFFF), rows);
        case 67 => cursorCol := Min(Min(cursorCol + n, 0xFFFF), cols);
        case 68 => cursorCol := Less(cursorCol, n);
        case 72 => cursorRow, cursorCol := n, ParamOr(c, 1, 1); ClampCursor();
        case 102 => cursorRow, cursorCol := n, ParamOr(c, 1, 1); ClampCursor();
        case 71 => cursorCol := n; ClampCursor();
        case 100 => cursorRow := n; ClampCursor();
        case 74 => if |c.params| > 0 && c.params[0] == 2 { cursorRow, cursorCol := 1, 1; }
        case _ =>
      }
    }

    /** Appends the reply a control sequence asks for. */
    method Answer(c: Csi, final: byte, replies: seq<byte>) returns (r: seq<byte>)
      requires Valid()
      ensures r == replies + Reply(View(), c, final)
    {
      var reply: seq<byte> := [];
      if final == 110 {
        reply := StatusReport(cursorRow, cursorCol, c);
      } else if final == 99 {
        reply := AttributesReply(c);
      } else if final == 112 {
        reply := ModeReport(csiSeq[..csiLen], c);
      }
      r := replies + reply;
    }

    /** One byte of output. */
    method PutByte(b: byte, replies: seq<byte>) returns (r: seq<byte>)
      requires Valid()
      modifies this, csiSeq
      ensures Valid() && View() == Step(old(View()), b).0 && r == replies + Step(old(View()), b).1
    {
      r := replies + [];
      if csiMode {
        r := InSequence(b, replies);
      } else if escPending {
        escPending := false;
        if b == 91 {
          csiMode, csiLen := true, 0;
        }
      } else {
        PutPlain(b);
      }
    }

    /** A byte inside a control sequence. */
    method InSequence(b: byte, replies: seq<byte>) returns (r: seq<byte>)
      requires Valid() && csiMode
      modifies this, csiSeq
      ensures Valid() && View() == Step(old(View()), b).0 && r == replies + Step(old(View()), b).1
    {
      r := replies + [];
      if 0x20 <= b <= 0x3F && csiLen < CSI_MAX {
        csiSeq[csiLen] := b;
        csiLen := csiLen + 1;
        return;
      }
      if 0x40 <= b <= 0x7E {
        var c := CsiParams(csiSeq[..csiLen]);
        r := Answer(c, b, replies);
        Move(c, b);
      }
      csiMode, csiLen := false, 0;
    }

    method PutPlain(b: byte)
      requires Valid()
      modifies this`escPending, this`cursorRow, this`cursorCol
      ensures View() == Plain(old(View()), b)
    {
      var rows, cols := Max1(wsRow), Max1(wsCol);
      if b == ESC {
        escPending := true;
      } else if b == 13 {
        cursorCol := 1;
      } else if b == 10 {
        if cursorRow < rows { cursorRow := cursorRow + 1; }
      } else if b == 8 {
        if cursorCol > 1 { cursorCol := cursorCol - 1; }
      } else if b == 9 {
        cursorCol := Min(TabStop(cursorCol), cols);
      } else if 0x20 <= b <= 0x7E {
        if cursorCol >= cols {
          cursorCol := 1;
          if cursorRow < rows { cursorRow := cursorRow + 1; }
        } else {
          cursorCol := cursorCol + 1;
        }
      }
    }

    method ProcessOutput(bytes: seq<byte>) returns (replies: seq<byte>)
      requires Valid()
      modifies this, csiSeq
      ensures Valid() && (View(), replies) == Output(old(View()), bytes)
    {
      replies := [];
      if bytes == [] {
        return;
      }
      ghost var start, step := View(), Step;
      for i := 0 to |bytes|
        invariant Valid() && (View(), replies) == Fold(step, start, bytes[..i])
      {
        assert bytes[..i + 1][..i] == bytes[..i];
        replies := PutByte(bytes[i], replies);
      }
      assert bytes[..|bytes|] == bytes;
      ClampCursor();
    }
  }

  method StatusReport(cursorRow: u16, cursorCol: u16, c: Csi) returns (r: seq<byte>)
    ensures r == StatusReply(cursorRow, cursorCol, c)
  {
    var mark: seq<byte> := if c.private == Some(63) then [63] else [];
    var asked := ParamOr(c, 0, 0);
    if asked == 5 {
      return CSI + mark + [48, 110];
    }
    if asked != 6 {
      return [];
    }
    r := PushAscii(CSI + mark, Max1(cursorRow));
    r := PushAscii(r + [SEMICOLON], Max1(cursorCol));
    r := r + [82];
  }

  method ModeReport(csi: seq<byte>, c: Csi) returns (r: seq<byte>)
    ensures r == ModeReply(csi, c)
  {
    var mode := ParseModeQuery(csi);
    if c.private != Some(63) || mode.None? {
      return [];
    }
    r := PushAscii(CSI + [63], mode.value);
    r := r + [59, 48, 36, 121];
  }

  method ParseModeQuery(s: seq<byte>) returns (r: Option<u16>)
    ensures r == ModeQuery(s)
  {
    if |s| < 3 || s[0] != 63 || s[|s| - 1] != 36 {
      return None;
    }
    r := ParseAscii(s[1..|s| - 1]);
  }

  // ---- positioning and reporting ----

  lemma FeedSnoc(s: Screen, bs: seq<byte>, b: byte, t: Screen, u: Screen, q: seq<byte>)
    requires Feed(s, bs) == (t, []) && Step(t, b) == (u, q)
    ensures Feed(s, bs + [b]) == (u, q)
  {
    assert (bs + [b])[..|bs|] == bs && [] + q == q;
  }

  /** Feeding parameter bytes collects them. */
  lemma {:induction false} Collects(s: Screen, bs: seq<byte>, ps: seq<byte>, t: Screen)
    requires Feed(s, bs) == (t, []) && t.csiMode && |t.csi| + |ps| <= CSI_MAX
    requires forall i :: 0 <= i < |ps| ==> 0x20 <= ps[i] <= 0x3F
    ensures Feed(s, bs + ps) == (t.(csi := t.csi + ps), [])
    decreases |ps|
  {
    if ps == [] {
      assert bs + ps == bs && t.csi + ps == t.csi;
    } else {
      var n := |ps| - 1;
      Collects(s, bs, ps[..n], t);
      var before := t.(csi := t.csi + ps[..n]);
      assert bs + ps[..n] + [ps[n]] == bs + ps && t.csi + ps[..n] + [ps[n]] == t.csi + ps;
      FeedSnoc(s, bs + ps[..n], ps[n], before, t.(csi := t.csi + ps), []);
    }
  }

  /** A whole control sequence does what its parameters say. */
  lemma Sequence(s: Screen, bs: seq<byte>, params: seq<byte>, final: byte, t: Screen, r: seq<byte>)
    requires Feed(s, bs) == (t, []) && !t.csiMode && !t.escPending && t.csi == [] && |params| <= CSI_MAX
    requires (forall i :: 0 <= i < |params| ==> 0x20 <= params[i] <= 0x3F) && 0x40 <= final <= 0x7E
    requires r == Reply(t.(csiMode := true, csi := params), CsiOf(params), final)
    ensures Feed(s, bs + CSI + params + [final]) == (MoveCursor(t, CsiOf(params), final), r)
  {
    var open := t.(csiMode := true);
    FeedSnoc(s, bs, ESC, t, t.(escPending := true), []);
    FeedSnoc(s, bs + [ESC], 91, t.(escPending := true), open, []);
    assert bs + [ESC] + [91] == bs + CSI;
    Collects(s, bs + CSI, params, open);
    var full := open.(csi := params);
    assert open.csi + params == params;
    FeedSnoc(s, bs + CSI + params, final, full, MoveCursor(t, CsiOf(params), final), r);
  }

  lemma NumberOfDecimal(n: u16)
    ensures Number(Decimal(n)) == Some(n)
  {
    DecimalValue(n);
  }

  lemma DigitsArePlain(n: u16)
    ensures |Decimal(n)| <= 5
    ensures forall i :: 0 <= i < |Decimal(n)| ==> 48 <= Decimal(n)[i] <= 57
  {
    DecimalLength(n, 5, 100000);
  }

  /** Two numbers with a semicolon between them are read back. */
  lemma TwoParams(r: u16, c: u16)
    ensures CsiOf(Decimal(r) + [SEMICOLON] + Decimal(c)) == Csi(None, [r, c])
  {
    var a, b := Decimal(r), Decimal(c);
    var s := a + [SEMICOLON] + b;
    PiecesAt(s, |a|);
    assert s[..|a|] == a && s[|a| + 1..] == b;
    PiecesAt(b, |b|);
    assert b[..|b|] == b;
    NumberOfDecimal(r);
    NumberOfDecimal(c);
    NumbersCons([], a, [b]);
    NumbersCons([r], b, []);
    assert s[0] == a[0];
  }

  /** Placing the cursor and asking where it is: the reply names the place asked for, as
      far as the window reaches. */
  lemma PositionReported(s: Screen, r: u16, c: u16)
    requires InBounds(s) && !s.csiMode && !s.escPending && r > 0 && c > 0
    ensures var row, col := Min(r, Max1(s.wsRow)), Min(c, Max1(s.wsCol));
            Feed(s, [] + CSI + (Decimal(r) + [SEMICOLON] + Decimal(c)) + [72] + CSI + [54] + [110]) ==
              (s.(row := row, col := col), CSI + [] + Decimal(row) + [SEMICOLON] + Decimal(col) + [82])
  {
    var params := Decimal(r) + [SEMICOLON] + Decimal(c);
    var row, col := Min(r, Max1(s.wsRow)), Min(c, Max1(s.wsCol));
    Positioned(s, r, c, params);
    Reported(s, [] + CSI + params + [72], s.(row := row, col := col), row, col);
  }

  lemma Positioned(s: Screen, r: u16, c: u16, params: seq<byte>)
    requires !s.csiMode && !s.escPending && s.csi == [] && r > 0 && c > 0
      && params == Decimal(r) + [SEMICOLON] + Decimal(c)
    ensures Feed(s, [] + CSI + params + [72]) == (s.(row := Min(r, Max1(s.wsRow)), col := Min(c, Max1(s.wsCol))), [])
  {
    DigitsArePlain(r);
    DigitsArePlain(c);
    TwoParams(r, c);
    Sequence(s, [], params, 72, s, []);
  }

  lemma Reported(s: Screen, bs: seq<byte>, t: Screen, row: u16, col: u16)
    requires Feed(s, bs) == (t, []) && !t.csiMode && !t.escPending && t.csi == [] && t.row == row > 0
      && t.col == col > 0
    ensures Feed(s, bs + CSI + [54] + [110]) == (t, CSI + [] + Decimal(row) + [SEMICOLON] + Decimal(col) + [82])
  {
    var six: seq<byte> := [54];
    var r := CSI + [] + Decimal(row) + [SEMICOLON] + Decimal(col) + [82];
    OneParam();
    PositionReply(t.(csiMode := true, csi := six), CsiOf(six), r);
    NoMove(t, CsiOf(six));
    Sequence(s, bs, six, 110, t, r);
  }

  lemma PositionReply(t: Screen, c: Csi, r: seq<byte>)
    requires c == Csi(None, [6]) && t.row > 0 && t.col > 0
    requires r == CSI + [] + Decimal(t.row) + [SEMICOLON] + Decimal(t.col) + [82]
    ensures Reply(t, c, 110) == r
  {
  }

  lemma NoMove(t: Screen, c: Csi)
    ensures MoveCursor(t, c, 110) == t
  {
  }

  lemma OneParam()
    ensures CsiOf([54]) == Csi(None, [6])
  {
    var six: seq<byte> := [54];
    PiecesAt(six, 1);
    assert six[..0] == [] && six[..1] == six && Value(six) == 6;
    NumbersCons([], six, []);
  }
}
