// kernel/src/display.rs: what the single characters and sequences that `write_str` understands do,
// cell by cell, and how lines of text end up on the screen.
module DisplayLaws {
  import opened Wrappers
  import opened DisplayModel

  // ---- Control characters ----

  /** A carriage return moves the cursor to the start of its row, and changes nothing else. */
  lemma CarriageReturn(d: Doc)
    requires d.Valid()
    ensures Write(d, ['\r']) == d.(col := 0)
  {
    Write1(d, '\r');
  }

  /** A line feed moves the cursor to the start of the next row.  If there is none, a blank one is
      appended; all cells stay as they are. */
  lemma LineFeed(d: Doc)
    requires d.Valid()
    ensures var r := Write(d, ['\n']);
            && r.row == d.row + 1 && r.col == 0 && r.fg == d.fg && r.rows == Max(d.rows, d.row + 2)
            && |d.cells| <= |r.cells| == r.rows * r.width
            && (forall k | 0 <= k < |d.cells| :: r.cells[k] == d.cells[k])
            && (forall k | |d.cells| <= k < |r.cells| :: r.cells[k] == Cell(NUL, d.fg))
  {
    Write1(d, '\n');
  }

  /** The cell `at` has disappeared, what was behind it up to `end` has moved up, and the last cell
      before `end` is blank. */
  ghost predicate CellErased(before: seq<Cell>, after: seq<Cell>, at: nat, end: nat, fg: Color) {
    && at < end <= |before| == |after|
    && (forall k | 0 <= k < |before| && !(at <= k < end) :: after[k] == before[k])
    && (forall k | at <= k < end - 1 :: after[k] == before[k + 1])
    && after[end - 1] == Cell(NUL, fg)
  }

  lemma DeleteIsErase(d: Doc)
    requires d.Valid()
    ensures Write(d, [DELETE]) == Erase(d, d.col)
  {
    Write1(d, DELETE);
  }

  lemma BackspaceIsErase(d: Doc)
    requires d.Valid() && d.col > 0
    ensures Write(d, [BACKSPACE]) == Erase(d, d.col - 1).(col := d.col - 1)
  {
    Write1(d, BACKSPACE);
  }

  lemma EraseCellErases(cells: seq<Cell>, at: nat, end: nat, fg: Color)
    requires at < end <= |cells|
    ensures CellErased(cells, EraseCell(cells, at, end, fg), at, end, fg)
  {
  }

  lemma EraseErases(d: Doc, col: nat, r: Doc, at: nat)
    requires d.Valid() && col < d.width && at == d.Line() + col && r == Erase(d, col)
    ensures r == d.(cells := r.cells) && CellErased(d.cells, r.cells, at, d.Line() + d.width, d.fg)
  {
    RowEnds(d.row, d.rows, d.width);
    EraseCellErases(d.cells, at, d.Line() + d.width, d.fg);
  }

  /** A backspace in the first column does nothing. */
  lemma BackspaceAtTheStart(d: Doc)
    requires d.Valid() && d.col == 0
    ensures Write(d, [BACKSPACE]) == d
  {
    Write1(d, BACKSPACE);
  }

  /** Elsewhere it erases the cell before the cursor, in its row. */
  lemma BackspaceErases(d: Doc, r: Doc, at: nat)
    requires d.Valid() && d.col > 0 && r == Write(d, [BACKSPACE]) && at == d.Line() + d.col - 1
    ensures r == d.(col := d.col - 1, cells := r.cells)
    ensures CellErased(d.cells, r.cells, at, d.Line() + d.width, d.fg)
  {
    BackspaceIsErase(d);
    EraseErases(d, d.col - 1, Erase(d, d.col - 1), at);
  }

  /** A delete erases the cell at the cursor. */
  lemma DeleteErases(d: Doc, r: Doc, at: nat)
    requires d.Valid() && r == Write(d, [DELETE]) && at == d.Line() + d.col
    ensures r == d.(cells := r.cells)
    ensures CellErased(d.cells, r.cells, at, d.Line() + d.width, d.fg)
  {
    DeleteIsErase(d);
    EraseErases(d, d.col, r, at);
  }

  // ---- Escape sequences ----

  /** The colour of every code, as one types it. */
  lemma SelectedColours(fg: Color)
    ensures Select(fg, "30") == BLACK && Select(fg, "31") == RED && Select(fg, "32") == GREEN
    ensures Select(fg, "33") == YELLOW && Select(fg, "34") == BLUE && Select(fg, "35") == MAGENTA
    ensures Select(fg, "36") == CYAN && Select(fg, "37") == WHITE
    ensures Select(fg, "") == WHITE && Select(fg, "0") == WHITE && Select(fg, "999") == WHITE
    ensures Select(fg, "1") == fg && Select(fg, "39") == fg && Select(fg, "255") == fg
  {
    NumberOf1('0');
    NumberOf1('1');
    NumberOf2('3', '0');
    NumberOf2('3', '1');
    NumberOf2('3', '2');
    NumberOf2('3', '3');
    NumberOf2('3', '4');
    NumberOf2('3', '5');
    NumberOf2('3', '6');
    NumberOf2('3', '7');
    NumberOf2('3', '9');
    NumberOf3('2', '5', '5');
    NumberOf3('9', '9', '9');
  }

  function Digit(c: char): nat
    requires IsDigit(c)
  {
    (c - '0') as nat
  }

  lemma NumberOf1(a: char)
    requires IsDigit(a)
    ensures Number([a]) == Digit(a)
  {
    assert [a][..0] == [];
  }

  lemma NumberOf2(a: char, b: char)
    requires IsDigit(a) && IsDigit(b)
    ensures Number([a, b]) == 10 * Digit(a) + Digit(b)
  {
    assert [a, b][..1] == [a];
    NumberOf1(a);
  }

  lemma NumberOf3(a: char, b: char, c: char)
    requires IsDigit(a) && IsDigit(b) && IsDigit(c)
    ensures Number([a, b, c]) == 100 * Digit(a) + 10 * Digit(b) + Digit(c)
  {
    assert [a, b, c][..2] == [a, b];
    NumberOf2(a, b);
  }

  /** Codes that are not in the table leave the colour alone. */
  lemma OtherCodesKeepTheColour(fg: Color, a: char, b: char, c: char)
    requires IsDigit(a) && IsDigit(b) && IsDigit(c)
    ensures var n := 100 * Digit(a) + 10 * Digit(b) + Digit(c);
            Select(fg, [a, b, c]) != fg ==> n == 0 || n > 255 || 30 <= n <= 37
    ensures var n := 10 * Digit(a) + Digit(b); Select(fg, [a, b]) != fg ==> n == 0 || 30 <= n <= 37
    ensures Select(fg, [a]) != fg ==> a == '0'
  {
    NumberOf3(a, b, c);
    NumberOf2(a, b);
    NumberOf1(a);
  }

  /** `ESC [ digits` without an `m` prints the ESC; the rest of it is swallowed. */
  lemma UnfinishedEscape(d: Doc, digits: seq<char>, rest: seq<char>)
    requires d.Valid() && |digits| <= 3 && forall c | c in digits :: IsDigit(c)
    requires rest == [] || (rest[0] != 'm' && (|digits| == 3 || !IsDigit(rest[0])))
    ensures Write(d, [ESC]).Valid() && Write(d, [ESC, '['] + digits + rest) == Write(Write(d, [ESC]), rest)
  {
    var s := [ESC, '['] + digits + rest;
    Write1(d, ESC);
    PlainKeepsValid(d, ESC);
    UnfinishedTurn(d, digits, rest);
    assert s[2 + |digits|..] == rest;
  }

  lemma UnfinishedTurn(d: Doc, digits: seq<char>, rest: seq<char>)
    requires d.Valid() && |digits| <= 3 && forall c | c in digits :: IsDigit(c)
    requires rest == [] || (rest[0] != 'm' && (|digits| == 3 || !IsDigit(rest[0])))
    ensures Turn(d, [ESC, '['] + digits + rest) == (Plain(d, ESC), 2 + |digits|)
  {
    var s := [ESC, '['] + digits + rest;
    AllDigits(digits, 3);
    DigitCountIsLocal(digits, rest, 3);
    assert s[2..] == digits + rest;
  }

  // ---- Typing ----

  function Overlay(cells: seq<Cell>, at: nat, s: seq<char>, fg: Color): (r: seq<Cell>)
    ensures |r| == |cells|
  {
    seq(|cells|, k requires 0 <= k < |cells| => if at <= k < at + |s| then Cell(s[k - at], fg) else cells[k])
  }

  /** The document with a text typed over it, from the cursor on. */
  function TypedOver(d: Doc, s: seq<char>): Doc {
    d.(cells := Overlay(d.cells, d.Line() + d.col, s, d.fg), col := d.col + |s|)
  }

  /** Plain text that does not reach the end of the row replaces what was there, in the current
      colour, and moves the cursor behind it. */
  lemma {:induction false} TypingReplaces(d: Doc, s: seq<char>)
    requires d.Valid() && PlainText(s) && d.col + |s| < d.width
    ensures Write(d, s) == TypedOver(d, s)
    decreases |s|
  {
    if s == [] {
      assert Overlay(d.cells, d.Line() + d.col, [], d.fg) == d.cells;
    } else {
      var a, c := s[..|s| - 1], s[|s| - 1];
      assert s == a + [c] && c in s;
      TypingReplaces(d, a);
      NotPending(a);
      WriteInPieces(d, a, [c]);
      Write1(Write(d, a), c);
      OneMoreTyped(d, a, c);
    }
  }

  lemma OneMoreTyped(d: Doc, a: seq<char>, c: char)
    requires d.Valid() && TypedOver(d, a).Valid() && d.col + |a| + 1 < d.width
    ensures Put(TypedOver(d, a), c) == TypedOver(d, a + [c])
  {
    RowEnds(d.row, d.rows, d.width);
    var at := d.Line() + d.col;
    assert Overlay(d.cells, at, a, d.fg)[at + |a| := Cell(c, d.fg)] == Overlay(d.cells, at, a + [c], d.fg);
  }

  /** Text after a carriage return overwrites the row from its start; what it does not reach stays. */
  lemma OverwrittenLine(d: Doc, a: seq<char>, b: seq<char>)
    requires d.Valid() && PlainText(a) && PlainText(b) && d.col + |a| < d.width && |b| < d.width
    ensures Write(d, a + ['\r'] + b) == TypedOver(TypedOver(d, a).(col := 0), b)
  {
    NoEscapeNotPending(a);
    NoEscapeNotPending(a + ['\r']);
    WriteInPieces(d, a + ['\r'], b);
    WriteInPieces(d, a, ['\r']);
    TypingReplaces(d, a);
    CarriageReturn(Write(d, a));
    TypingReplaces(TypedOver(d, a).(col := 0), b);
  }

  lemma NoEscapeNotPending(s: seq<char>)
    ensures PlainText(s) ==> ESC !in s
    ensures ESC !in s ==> !Pending(s)
    ensures PlainText(s) ==> !Pending(s) && !Pending(s + ['\r'])
  {
    forall i | 0 <= i < |s|
      ensures s[i] in s && s[i..][0] == s[i]
    {
    }
    forall i | 0 <= i < |s + ['\r']|
      ensures (s + ['\r'])[i..][0] == (s + ['\r'])[i]
    {
    }
  }

  // ---- Lines ----

  /** Lines of text with line feeds between them. */
  function Join(lines: seq<seq<char>>): seq<char>
    requires lines != []
  {
    var last := lines[|lines| - 1];
    if |lines| == 1 then last else Join(lines[..|lines| - 1]) + ['\n'] + last
  }

  /** The character in column x of line y. */
  function LineChar(lines: seq<seq<char>>, x: nat, y: nat): char {
    if y < |lines| && x < |lines[y]| then lines[y][x] else NUL
  }

  ghost predicate LineCell(d: Doc, lines: seq<seq<char>>, x: nat, y: nat) {
    CellIndex(d.width, x, y) < |d.cells| && d.cells[CellIndex(d.width, x, y)] == Cell(LineChar(lines, x, y), d.fg)
  }

  /** The document holds these lines, one in each row, and the cursor is behind the last one. */
  ghost predicate HoldsLines(d: Doc, lines: seq<seq<char>>) {
    && d.Valid() && lines != []
    && d.rows == Max(d.height, |lines|) && d.row == |lines| - 1 && d.col == |lines[|lines| - 1]|
    && forall x: nat, y: nat | x < d.width && y < d.rows :: LineCell(d, lines, x, y)
  }

  lemma InRow(width: nat, x: nat, y: nat, row: nat)
    requires x < width
    ensures y < row ==> CellIndex(width, x, y) < row * width
    ensures y > row ==> CellIndex(width, x, y) >= row * width + width
    ensures y == row ==> CellIndex(width, x, y) == row * width + x
  {
    if y < row {
      RowEnds(y, row, width);
    } else if y > row {
      RowEnds(row, y, width);
    }
  }

  lemma ClearedHoldsNothing(width: nat, height: nat, fg: Color)
    requires width > 0 && height > 0
    ensures HoldsLines(Cleared(width, height, fg), [[]])
  {
    var d := Cleared(width, height, fg);
    forall x: nat, y: nat | x < d.width && y < d.rows
      ensures LineCell(d, [[]], x, y)
    {
      InRow(width, x, y, height);
    }
  }

  lemma LineFeedAddsALine(d: Doc, lines: seq<seq<char>>)
    requires HoldsLines(d, lines)
    ensures HoldsLines(Write(d, ['\n']), lines + [[]])
  {
    LineFeed(d);
    var r := Write(d, ['\n']);
    forall x: nat, y: nat | x < r.width && y < r.rows
      ensures LineCell(r, lines + [[]], x, y)
    {
      InRow(d.width, x, y, d.rows);
      InRow(d.width, x, y, r.rows);
      if y < d.rows {
        assert LineCell(d, lines, x, y);
      }
    }
  }

  lemma TypingFillsTheLine(d: Doc, lines: seq<seq<char>>, s: seq<char>)
    requires HoldsLines(d, lines + [[]]) && PlainText(s) && |s| < d.width
    ensures HoldsLines(Write(d, s), lines + [s])
  {
    TypingReplaces(d, s);
    PlainTextKeepsValid(d, s);
    var r := TypedOver(d, s);
    forall x: nat, y: nat | x < d.width && y < d.rows
      ensures LineCell(r, lines + [s], x, y)
    {
      InRow(d.width, x, y, d.row);
      assert LineCell(d, lines + [[]], x, y);
    }
  }

  lemma PlainTextKeepsValid(d: Doc, s: seq<char>)
    requires d.Valid() && d.col + |s| < d.width
    ensures TypedOver(d, s).Valid() && TypedOver(d, s).row == d.row && TypedOver(d, s).rows == d.rows
  {
  }

  ghost predicate FitIn(lines: seq<seq<char>>, width: nat) {
    forall s | s in lines :: PlainText(s) && |s| < width
  }

  lemma {:induction false} JoinHasNoEscape(lines: seq<seq<char>>, width: nat)
    requires lines != [] && FitIn(lines, width)
    ensures ESC !in Join(lines)
    decreases |lines|
  {
    NoEscapeNotPending(lines[|lines| - 1]);
    if |lines| == 1 {
    } else {
      JoinHasNoEscape(lines[..|lines| - 1], width);
    }
  }

  /** Lines shorter than a row, with line feeds between them, on a cleared screen: each line gets
      its row, whatever their number. */
  lemma {:induction false} LinesFillTheDocument(width: nat, height: nat, fg: Color, lines: seq<seq<char>>)
    requires width > 0 && height > 0 && lines != [] && FitIn(lines, width)
    ensures Cleared(width, height, fg).Valid()
    ensures HoldsLines(Write(Cleared(width, height, fg), Join(lines)), lines)
    ensures Write(Cleared(width, height, fg), Join(lines)).fg == fg
    decreases |lines|
  {
    var d := Cleared(width, height, fg);
    var front, last := lines[..|lines| - 1], lines[|lines| - 1];
    assert lines == front + [last];
    if |lines| == 1 {
      ClearedHoldsNothing(width, height, fg);
      var none: seq<seq<char>> := [];
      assert none + [[]] == [[]];
      TypingReplaces(d, last);
      TypingFillsTheLine(d, none, last);
    } else {
      LinesFillTheDocument(width, height, fg, front);
      JoinHasNoEscape(front, width);
      NextLine(d, Join(front), front, last);
    }
  }

  lemma NextLine(d: Doc, text: seq<char>, front: seq<seq<char>>, last: seq<char>)
    requires d.Valid() && HoldsLines(Write(d, text), front) && ESC !in text && PlainText(last) && |last| < d.width
    ensures HoldsLines(Write(d, text + ['\n'] + last), front + [last])
    ensures Write(d, text + ['\n'] + last).fg == Write(d, text).fg
  {
    var e, f := SplitLine(d, text, last);
    LineAdded(e, f, Write(f, last), front, last);
  }

  lemma SplitLine(d: Doc, text: seq<char>, last: seq<char>) returns (e: Doc, f: Doc)
    requires d.Valid() && ESC !in text
    ensures e == Write(d, text) && e.Valid() && e.width == d.width
    ensures f == Write(e, ['\n']) && f.Valid() && f.width == d.width
    ensures Write(d, text + ['\n'] + last) == Write(f, last)
  {
    NoEscapeNotPending(text);
    NoEscapeNotPending(text + ['\n']);
    WriteInPieces(d, text + ['\n'], last);
    WriteInPieces(d, text, ['\n']);
    e := Write(d, text);
    f := Write(e, ['\n']);
  }

  lemma LineAdded(e: Doc, f: Doc, r: Doc, front: seq<seq<char>>, last: seq<char>)
    requires HoldsLines(e, front) && f == Write(e, ['\n']) && f.Valid() && r == Write(f, last)
    requires PlainText(last) && |last| < f.width
    ensures HoldsLines(r, front + [last]) && r.fg == e.fg
  {
    LineFeed(e);
    LineFeedAddsALine(e, front);
    TypingReplaces(f, last);
    TypingFillsTheLine(f, front, last);
  }

  /** On the screen: the last lines are seen, and the cursor is behind the last one. */
  lemma LinesOnScreen(width: nat, height: nat, fg: Color, lines: seq<seq<char>>, x: nat, y: nat)
    requires width > 0 && height > 0 && lines != [] && FitIn(lines, width) && x < width && y < height
    ensures Cleared(width, height, fg).Valid()
    ensures var d := Write(Cleared(width, height, fg), Join(lines));
            var scrolled := if |lines| > height then |lines| - height else 0;
            && CellIndex(width, x, y) < |d.Screen()|
            && d.Screen()[CellIndex(width, x, y)] == Cell(LineChar(lines, x, y + scrolled), fg)
            && d.row - d.Top() == |lines| - 1 - scrolled && d.col == |lines[|lines| - 1]|
  {
    LinesFillTheDocument(width, height, fg, lines);
    LineOnScreen(Write(Cleared(width, height, fg), Join(lines)), lines, x, y, if |lines| > height then |lines| - height else 0);
  }

  lemma LineOnScreen(d: Doc, lines: seq<seq<char>>, x: nat, y: nat, scrolled: nat)
    requires HoldsLines(d, lines) && x < d.width && y < d.height
    requires scrolled == if |lines| > d.height then |lines| - d.height else 0
    ensures CellIndex(d.width, x, y) < |d.Screen()|
    ensures d.Screen()[CellIndex(d.width, x, y)] == Cell(LineChar(lines, x, y + scrolled), d.fg)
    ensures d.row - d.Top() == |lines| - 1 - scrolled && d.col == |lines[|lines| - 1]|
  {
    InRow(d.width, x, y, d.height);
    Distribute(y, scrolled, d.width);
    assert LineCell(d, lines, x, y + scrolled);
    ScreenIsTheTail(d, CellIndex(d.width, x, y), CellIndex(d.width, x, y + scrolled));
  }
}
