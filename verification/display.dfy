// kernel/src/display.rs: what writing to the terminal means.  The terminal shows the last rows
// of a document that only grows at the end.
module DisplayModel {
  import opened Wrappers
  import Bits

  datatype Color = Color(r: nat, g: nat, b: nat, a: nat)

  // The palette of the default build.
  const WHITE := Color(205, 214, 244, 255)
  const BLACK := Color(17, 17, 27, 255)
  const RED := Color(243, 139, 168, 255)
  const GREEN := Color(166, 227, 161, 255)
  const YELLOW := Color(249, 226, 175, 255)
  const BLUE := Color(137, 180, 250, 255)
  const MAGENTA := Color(203, 166, 247, 255)
  const CYAN := Color(0, 170, 170, 255)

  const ESC := '\U{1b}'
  const BACKSPACE := '\U{08}'
  const DELETE := '\U{7f}'
  const NUL := '\0'

  datatype Cell = Cell(ch: char, color: Color)

  /** `cells` holds `rows` rows one after the other, `width` cells each; the cursor is at `row`,
      `col`, counted from the start of the document. */
  datatype Doc = Doc(width: nat, height: nat, cells: seq<Cell>, rows: nat, row: nat, col: nat, fg: Color) {
    /** The index of the first cell of the cursor's row. */
    function Line(): nat { row * width }

    /** The first visible row. */
    function Top(): int { rows - height }

    predicate Valid() {
      && 0 < width && 0 < height && |cells| == rows * width
      && 0 <= Top() <= row < rows && col < width
    }

    function Screen(): seq<Cell>
      requires Valid()
    {
      RowEnds(Top(), rows, width);
      cells[Top() * width..]
    }
  }

  lemma RowEnds(a: nat, b: nat, width: nat)
    requires a <= b
    ensures a * width <= b * width
    ensures a < b ==> a * width + width <= b * width
    ensures (a + 1) * width == a * width + width
  {
    if a < b {
      assert b * width == a * width + width + (b - a - 1) * width;
    }
  }

  function Blanks(n: nat, color: Color): seq<Cell> {
    seq(n, i => Cell(NUL, color))
  }

  function Cleared(width: nat, height: nat, fg: Color): Doc {
    Doc(width, height, Blanks(height * width, fg), height, 0, 0, fg)
  }

  /** The cursor moves to the next row; a blank one is appended if there is none. */
  function Down(d: Doc): Doc {
    if d.row + 1 >= d.rows
    then d.(row := d.row + 1, rows := d.rows + 1, cells := d.cells + Blanks(d.width, d.fg))
    else d.(row := d.row + 1)
  }

  function Put(d: Doc, c: char): Doc
    requires d.Valid()
  {
    RowEnds(d.row, d.rows, d.width);
    var d' := d.(cells := d.cells[d.Line() + d.col := Cell(c, d.fg)]);
    if d.col + 1 >= d.width then Down(d').(col := 0) else d'.(col := d.col + 1)
  }

  /** The cell in column `col` disappears, and the rest of the row moves up. */
  function Erase(d: Doc, col: nat): Doc
    requires d.Valid() && col < d.width
  {
    RowEnds(d.row, d.rows, d.width);
    d.(cells := EraseCell(d.cells, d.Line() + col, d.Line() + d.width, d.fg))
  }

  function EraseCell(cells: seq<Cell>, at: nat, end: nat, fg: Color): (r: seq<Cell>)
    requires at < end <= |cells|
    ensures |r| == |cells|
  {
    cells[..at] + cells[at + 1..end] + [Cell(NUL, fg)] + cells[end..]
  }

  function Plain(d: Doc, c: char): Doc
    requires d.Valid()
  {
    if c == '\n' then Down(d).(col := 0)
    else if c == '\r' then d.(col := 0)
    else if c == BACKSPACE then (if d.col == 0 then d else Erase(d, d.col - 1).(col := d.col - 1))
    else if c == DELETE then Erase(d, d.col)
    else Put(d, c)
  }

  predicate IsDigit(c: char) { '0' <= c <= '9' }

  /** How many of the next characters are digits, up to `max`. */
  function DigitCount(s: seq<char>, max: nat): (n: nat)
    ensures n <= max && n <= |s|
  {
    if max == 0 || s == [] || !IsDigit(s[0]) then 0 else 1 + DigitCount(s[1..], max - 1)
  }

  function Number(digits: seq<char>): nat {
    if digits == [] then 0
    else 10 * Number(digits[..|digits| - 1]) +
         (if IsDigit(digits[|digits| - 1]) then (digits[|digits| - 1] - '0') as nat else 0)
  }

  /** The colour that `ESC [ digits m` selects.  A number beyond 255 does not parse and counts
      as 0. */
  function Select(fg: Color, digits: seq<char>): Color {
    var n := if Number(digits) > 255 then 0 else Number(digits);
    if digits == [] then WHITE
    else if n == 30 then BLACK
    else if n == 31 then RED
    else if n == 32 then GREEN
    else if n == 33 then YELLOW
    else if n == 34 then BLUE
    else if n == 35 then MAGENTA
    else if n == 36 then CYAN
    else if n == 0 || n == 37 then WHITE
    else fg
  }

  predicate StartsEscape(s: seq<char>) { |s| >= 2 && s[0] == ESC && s[1] == '[' }

  /** One turn of the parser: the document after it, and how much of the text it used up.  An
      `ESC [ digits` that is not closed by `m` is swallowed, except for the ESC itself. */
  function Turn(d: Doc, s: seq<char>): (r: (Doc, nat))
    requires d.Valid() && s != []
    ensures 0 < r.1 <= |s|
  {
    if StartsEscape(s) then
      var n := 2 + DigitCount(s[2..], 3);
      if n < |s| && s[n] == 'm' then (d.(fg := Select(d.fg, s[2..n])), n + 1)
      else (Plain(d, ESC), n)
    else (Plain(d, s[0]), 1)
  }

  /** `write_str` */
  function Write(d: Doc, s: seq<char>): (r: Doc)
    requires d.Valid()
    ensures r.Valid() && r.width == d.width && r.height == d.height
    decreases |s|
  {
    if s == [] then d
    else
      PlainKeepsValid(d, ESC);
      PlainKeepsValid(d, s[0]);
      var (d', n) := Turn(d, s);
      Write(d', s[n..])
  }

  lemma PlainKeepsValid(d: Doc, c: char)
    requires d.Valid()
    ensures Plain(d, c).Valid() && Plain(d, c).width == d.width && Plain(d, c).height == d.height
    ensures Plain(d, c).fg == d.fg && Plain(d, c).Top() >= d.Top()
  {
    RowEnds(d.row, d.rows, d.width);
    RowEnds(d.rows, d.rows + 1, d.width);
  }

  // ---- Scrollback ----

  lemma PrefixOfPrefix<T>(s: seq<T>, t: seq<T>, i: nat, j: nat)
    requires i <= j <= |s| && j <= |t| && s[..j] == t[..j]
    ensures s[..i] == t[..i]
  {
    assert s[..i] == s[..j][..i];
  }

  lemma PrefixOfUpdate<T>(s: seq<T>, n: nat, j: nat, x: T)
    requires n <= j < |s|
    ensures s[j := x][..n] == s[..n]
  {
  }

  lemma PrefixOfAppend<T>(s: seq<T>, t: seq<T>, n: nat)
    requires n <= |s|
    ensures (s + t)[..n] == s[..n]
  {
  }

  lemma PrefixOfErase(cells: seq<Cell>, at: nat, end: nat, fg: Color, n: nat)
    requires n <= at < end <= |cells|
    ensures EraseCell(cells, at, end, fg)[..n] == cells[..n]
  {
    assert EraseCell(cells, at, end, fg) == cells[..at] + (cells[at + 1..end] + [Cell(NUL, fg)] + cells[end..]);
    PrefixOfAppend(cells[..at], cells[at + 1..end] + [Cell(NUL, fg)] + cells[end..], n);
  }

  /** `r` continues `d`: it has all the rows above the cursor of `d`, and perhaps more below. */
  ghost predicate Continues(d: Doc, r: Doc) {
    && d.row <= r.row && d.rows <= r.rows && d.Line() <= |d.cells| <= |r.cells|
    && r.cells[..d.Line()] == d.cells[..d.Line()]
  }

  lemma DownContinues(d: Doc)
    requires d.Line() <= |d.cells|
    ensures Continues(d, Down(d))
  {
    PrefixOfAppend(d.cells, Blanks(d.width, d.fg), d.Line());
  }

  lemma PutContinues(d: Doc, c: char)
    requires d.Valid()
    ensures Continues(d, Put(d, c))
  {
    RowEnds(d.row, d.rows, d.width);
    PrefixOfUpdate(d.cells, d.Line(), d.Line() + d.col, Cell(c, d.fg));
    DownContinues(d.(cells := d.cells[d.Line() + d.col := Cell(c, d.fg)]));
  }

  lemma EraseContinues(d: Doc, col: nat)
    requires d.Valid() && col < d.width
    ensures Continues(d, Erase(d, col))
  {
    RowEnds(d.row, d.rows, d.width);
    PrefixOfErase(d.cells, d.Line() + col, d.Line() + d.width, d.fg, d.Line());
  }

  lemma PlainContinues(d: Doc, c: char)
    requires d.Valid()
    ensures Continues(d, Plain(d, c))
  {
    RowEnds(d.row, d.rows, d.width);
    DownContinues(d);
    PutContinues(d, c);
    EraseContinues(d, d.col);
    if d.col > 0 {
      EraseContinues(d, d.col - 1);
    }
  }

  lemma TurnContinues(d: Doc, s: seq<char>)
    requires d.Valid() && s != []
    ensures Turn(d, s).0.Valid() && Turn(d, s).0.width == d.width && Continues(d, Turn(d, s).0)
  {
    RowEnds(d.row, d.rows, d.width);
    PlainKeepsValid(d, ESC);
    PlainKeepsValid(d, s[0]);
    PlainContinues(d, ESC);
    PlainContinues(d, s[0]);
  }

  lemma ContinuesTransitive(d: Doc, e: Doc, r: Doc)
    requires Continues(d, e) && Continues(e, r) && e.width == d.width
    ensures Continues(d, r)
  {
    RowEnds(d.row, e.row, d.width);
    PrefixOfPrefix(r.cells, e.cells, d.Line(), e.Line());
  }

  /** What is above the cursor's row never changes again, whatever is written; so scrolling only
      moves the window over the document. */
  lemma {:induction false} RowsAboveCursorAreFinal(d: Doc, s: seq<char>)
    requires d.Valid()
    ensures Continues(d, Write(d, s))
    decreases |s|
  {
    if s == [] {
      RowEnds(d.row, d.rows, d.width);
    } else {
      var (d', n) := Turn(d, s);
      TurnContinues(d, s);
      RowsAboveCursorAreFinal(d', s[n..]);
      ContinuesTransitive(d, d', Write(d', s[n..]));
    }
  }

  // ---- Splitting a text ----

  /** A beginning of an escape sequence that the next character could still continue. */
  predicate OpenEscape(t: seq<char>) {
    && 1 <= |t| <= 5 && t[0] == ESC && (|t| > 1 ==> t[1] == '[')
    && forall k | 2 <= k < |t| :: IsDigit(t[k])
  }

  ghost predicate Pending(a: seq<char>) {
    exists i | 0 <= i < |a| :: OpenEscape(a[i..])
  }

  lemma {:induction false} DigitCountIsLocal(s: seq<char>, b: seq<char>, max: nat)
    requires DigitCount(s, max) < |s| || DigitCount(s, max) == max || b == [] || !IsDigit(b[0])
    ensures DigitCount(s + b, max) == DigitCount(s, max)
    decreases |s|
  {
    if max > 0 && s != [] && IsDigit(s[0]) {
      assert (s + b)[1..] == s[1..] + b;
      DigitCountIsLocal(s[1..], b, max - 1);
    } else if s == [] {
      assert s + b == b;
    }
  }

  lemma {:induction false} DigitCountMeaning(s: seq<char>, max: nat)
    ensures forall k | 0 <= k < DigitCount(s, max) :: IsDigit(s[k])
    decreases |s|
  {
    if max == 0 || s == [] || !IsDigit(s[0]) {
    } else {
      DigitCountMeaning(s[1..], max - 1);
      forall k | 0 <= k < DigitCount(s, max)
        ensures IsDigit(s[k])
      {
        if k > 0 { assert s[k] == s[1..][k - 1]; }
      }
    }
  }

  lemma DigitsToTheEnd(a: seq<char>)
    requires StartsEscape(a) && 2 + DigitCount(a[2..], 3) == |a|
    ensures OpenEscape(a)
  {
    DigitCountMeaning(a[2..], 3);
    assert forall k | 2 <= k < |a| :: a[k] == a[2..][k - 2];
  }

  /** A turn does not look past the text it has, unless an escape sequence is open at its end. */
  lemma TurnIsLocal(d: Doc, a: seq<char>, b: seq<char>)
    requires d.Valid() && a != []
    requires b == [] || b[0] == ESC || !OpenEscape(a)
    ensures Turn(d, a + b) == Turn(d, a)
  {
    if StartsEscape(a) {
      var t := a[2..];
      var n := 2 + DigitCount(t, 3);
      assert (a + b)[2..] == t + b;
      if n == |a| {
        DigitsToTheEnd(a);
      }
      DigitCountIsLocal(t, b, 3);
      assert n < |a| ==> (a + b)[2..n] == a[2..n];
    } else if a[0] == ESC && |a| == 1 {
      assert OpenEscape(a);
    }
  }

  /** Text can be written in two pieces if the first does not end in an open escape sequence, or
      the second begins with an escape. */
  lemma {:induction false} WriteInPieces(d: Doc, a: seq<char>, b: seq<char>)
    requires d.Valid() && (b == [] || b[0] == ESC || !Pending(a))
    ensures Write(d, a + b) == Write(Write(d, a), b)
    decreases |a|
  {
    if a == [] {
      assert a + b == b;
    } else {
      assert a[0..] == a;
      TurnIsLocal(d, a, b);
      PlainKeepsValid(d, ESC);
      PlainKeepsValid(d, a[0]);
      var (d', n) := Turn(d, a);
      assert (a + b)[n..] == a[n..] + b;
      forall i | 0 <= i < |a[n..]|
        ensures a[n..][i..] == a[n + i..]
      {
      }
      WriteInPieces(d', a[n..], b);
    }
  }

  /** The cursor's distance from the start of the document. */
  function Position(d: Doc): nat { d.Line() + d.col }

  lemma PutAdvances(d: Doc, c: char)
    requires d.Valid()
    ensures Position(Put(d, c)) == Position(d) + 1
  {
    RowEnds(d.row, d.row + 1, d.width);
  }

  lemma Write1(d: Doc, c: char)
    requires d.Valid()
    ensures Write(d, [c]) == Plain(d, c)
  {
    PlainKeepsValid(d, c);
    assert [c][1..] == [];
    assert Write(Plain(d, c), []) == Plain(d, c);
  }

  lemma Write2(d: Doc, c: char, e: char)
    requires d.Valid() && !(c == ESC && e == '[')
    ensures Plain(d, c).Valid() && Write(d, [c, e]) == Plain(Plain(d, c), e)
  {
    PlainKeepsValid(d, c);
    assert [c, e][1..] == [e];
    Write1(Plain(d, c), e);
  }

  /** What closes an open escape sequence without digits of its own. */
  function Closing(t: seq<char>): seq<char> { if |t| == 1 then ['[', 'm'] else ['m'] }

  /** An open escape sequence prints one ESC when the text ends there. */
  lemma OpenEscapePrints(d: Doc, t: seq<char>)
    requires d.Valid() && OpenEscape(t)
    ensures Write(d, t) == Put(d, ESC)
  {
    PlainKeepsValid(d, ESC);
    if |t| > 1 {
      AllDigits(t[2..], 3);
    }
    assert Turn(d, t) == (Plain(d, ESC), |t|);
    assert t[|t|..] == [];
    assert Write(Plain(d, ESC), []) == Plain(d, ESC);
  }

  lemma {:induction false} AllDigits(digits: seq<char>, max: nat)
    requires |digits| <= max && forall c | c in digits :: IsDigit(c)
    ensures DigitCount(digits, max) == |digits|
  {
    if digits == [] {
    } else {
      assert digits[0] in digits;
      AllDigits(digits[1..], max - 1);
    }
  }

  lemma EscapeTurn(d: Doc, digits: seq<char>, rest: seq<char>)
    requires d.Valid() && |digits| <= 3 && forall c | c in digits :: IsDigit(c)
    ensures Turn(d, [ESC, '['] + digits + ['m'] + rest) == (d.(fg := Select(d.fg, digits)), 3 + |digits|)
  {
    var s := [ESC, '['] + digits + ['m'] + rest;
    AllDigits(digits, 3);
    DigitCountIsLocal(digits, ['m'] + rest, 3);
    assert s[2..] == digits + (['m'] + rest);
    assert s[2..2 + |digits|] == digits;
  }

  /** A complete `ESC [ digits m` changes the colour for what follows, and nothing else. */
  lemma CompleteEscape(d: Doc, digits: seq<char>, rest: seq<char>)
    requires d.Valid() && |digits| <= 3 && forall c | c in digits :: IsDigit(c)
    ensures Write(d, [ESC, '['] + digits + ['m'] + rest) == Write(d.(fg := Select(d.fg, digits)), rest)
  {
    var s := [ESC, '['] + digits + ['m'] + rest;
    EscapeTurn(d, digits, rest);
    assert s[3 + |digits|..] == rest;
  }

  /** Once it is closed, it prints nothing. */
  lemma ClosedEscapeIsSilent(d: Doc, t: seq<char>)
    requires d.Valid() && OpenEscape(t)
    ensures Position(Write(d, t + Closing(t))) == Position(d)
  {
    var digits := if |t| == 1 then [] else t[2..];
    CompleteEscape(d, digits, []);
    assert t + Closing(t) == [ESC, '['] + digits + ['m'] + [];
    var e := d.(fg := Select(d.fg, digits));
    assert Write(e, []) == e;
  }

  lemma PendingSplits(d: Doc, a: seq<char>, i: nat)
    requires d.Valid() && i < |a| && OpenEscape(a[i..])
    ensures var b := Closing(a[i..]); Write(d, a + b) != Write(Write(d, a), b)
  {
    var t := a[i..];
    var b := Closing(t);
    var e := Write(d, a[..i]);
    assert a == a[..i] + t;
    assert a + b == a[..i] + (t + b);
    WriteInPieces(d, a[..i], t);
    WriteInPieces(d, a[..i], t + b);
    OpenEscapePrints(e, t);
    ClosedEscapeIsSilent(e, t);
    PlainKeepsValid(e, ESC);
    PutAdvances(e, ESC);
    ClosingAdvances(Put(e, ESC), t);
    assert Position(Write(d, a + b)) < Position(Write(Write(d, a), b));
  }

  lemma ClosingAdvances(f: Doc, t: seq<char>)
    requires f.Valid()
    ensures Position(Write(f, Closing(t))) > Position(f)
  {
    if |t| == 1 {
      Write2(f, '[', 'm');
      PutAdvances(f, '[');
      PutAdvances(Plain(f, '['), 'm');
    } else {
      Write1(f, 'm');
      PutAdvances(f, 'm');
    }
  }

  /** The split law holds for every second piece exactly when no escape sequence is open. */
  lemma SplitLaw(d: Doc, a: seq<char>)
    requires d.Valid()
    ensures (forall b: seq<char> :: Write(d, a + b) == Write(Write(d, a), b)) <==> !Pending(a)
  {
    if Pending(a) {
      var i :| 0 <= i < |a| && OpenEscape(a[i..]);
      PendingSplits(d, a, i);
    } else {
      forall b: seq<char>
        ensures Write(d, a + b) == Write(Write(d, a), b)
      {
        WriteInPieces(d, a, b);
      }
    }
  }

  /** `ESC [ m` in two pieces is not what it is in one: the ESC is printed. */
  lemma EscapeInTwoPieces(d: Doc)
    requires d.Valid()
    ensures Write(d, [ESC] + ['[', 'm']) != Write(Write(d, [ESC]), ['[', 'm'])
  {
    assert [ESC][0..] == [ESC];
    PendingSplits(d, [ESC], 0);
  }

  // ---- Typing and taking back ----

  predicate Printable(c: char) {
    c != '\n' && c != '\r' && c != BACKSPACE && c != DELETE
  }

  ghost predicate SameText(d: Doc, e: Doc) {
    && d.row == e.row && d.col == e.col && |d.cells| == |e.cells|
    && forall k | 0 <= k < |d.cells| :: d.cells[k].ch == e.cells[k].ch
  }

  /** The cursor's row holds nothing from column `col` on. */
  ghost predicate BlankFrom(d: Doc, col: nat)
    requires d.Valid()
  {
    forall k | d.Line() + col <= k < d.Line() + d.width && k < |d.cells| :: d.cells[k].ch == NUL
  }

  /** Overwriting the cell and then erasing it: the row loses the cell that was there. */
  lemma OverwriteAndErase(cells: seq<Cell>, at: nat, end: nat, cell: Cell, fg: Color)
    requires at < end <= |cells|
    ensures var r := EraseCell(cells[at := cell], at, end, fg);
            (forall k | 0 <= k < |cells| :: r[k].ch == cells[k].ch) <==>
            (forall k | at <= k < end :: cells[k].ch == NUL)
  {
    var r := EraseCell(cells[at := cell], at, end, fg);
    assert forall k | at <= k < end - 1 :: r[k] == cells[k + 1];
    assert r[end - 1].ch == NUL;
    assert forall k | 0 <= k < |cells| && !(at <= k < end) :: r[k] == cells[k];
    if forall k | 0 <= k < |cells| :: r[k].ch == cells[k].ch {
      forall k | at <= k < end - 1
        ensures cells[k].ch == cells[k + 1].ch
      {
        assert r[k].ch == cells[k].ch;
      }
      ShiftedIsBlank(cells, at, end);
    }
  }

  /** Cells that equal their right neighbour up to a blank one are all blank. */
  lemma {:induction false} ShiftedIsBlank(cells: seq<Cell>, at: nat, end: nat)
    requires at < end <= |cells| && cells[end - 1].ch == NUL
    requires forall k | at <= k < end - 1 :: cells[k].ch == cells[k + 1].ch
    ensures forall k | at <= k < end :: cells[k].ch == NUL
    decreases end - at
  {
    if at == end - 1 {
    } else {
      ShiftedIsBlank(cells, at + 1, end);
      assert cells[at].ch == cells[at + 1].ch;
    }
  }

  /** Typing a character and a backspace restores the text and the cursor exactly when the row is
      blank from the cursor on and the cursor is not in the last column. */
  lemma BackspaceUndoesTypingIff(d: Doc, c: char)
    requires d.Valid() && Printable(c)
    ensures SameText(Write(d, [c, BACKSPACE]), d) <==> d.col + 1 < d.width && BlankFrom(d, d.col)
  {
    Write2(d, c, BACKSPACE);
    if d.col + 1 < d.width {
      TypedAndErased(d, c);
    } else {
      LastColumnWraps(d, c);
    }
  }

  lemma LastColumnWraps(d: Doc, c: char)
    requires d.Valid() && Printable(c) && d.col + 1 >= d.width
    ensures Plain(d, c).Valid() && Plain(Plain(d, c), BACKSPACE).row == d.row + 1
  {
    PlainKeepsValid(d, c);
  }

  lemma TypedAndErased(d: Doc, c: char)
    requires d.Valid() && Printable(c) && d.col + 1 < d.width
    ensures Plain(d, c).Valid()
    ensures SameText(Plain(Plain(d, c), BACKSPACE), d) <==> BlankFrom(d, d.col)
  {
    PlainKeepsValid(d, c);
    RowEnds(d.row, d.rows, d.width);
    var at, end := d.Line() + d.col, d.Line() + d.width;
    var r := Plain(Plain(d, c), BACKSPACE);
    assert r.row == d.row && r.col == d.col;
    assert r.cells == EraseCell(d.cells[at := Cell(c, d.fg)], at, end, d.fg);
    OverwriteAndErase(d.cells, at, end, Cell(c, d.fg), d.fg);
  }

  // ---- Plain text on a cleared screen ----

  /** The document that holds the text from its first cell on, and nothing else. */
  function Filled(width: nat, height: nat, fg: Color, s: seq<char>): Doc
    requires width > 0
  {
    var rows := Max(height, |s| / width + 1);
    Doc(width, height, seq(rows * width, k requires k >= 0 => Cell(if k < |s| then s[k] else NUL, fg)),
        rows, |s| / width, |s| % width, fg)
  }

  ghost predicate PlainText(s: seq<char>) {
    forall c | c in s :: Printable(c) && c != ESC
  }

  lemma NotPending(s: seq<char>)
    requires PlainText(s)
    ensures !Pending(s)
  {
    forall i | 0 <= i < |s|
      ensures !OpenEscape(s[i..])
    {
      assert s[i] in s;
    }
  }

  lemma {:induction false} PlainTextFillsTheDocument(width: nat, height: nat, fg: Color, s: seq<char>)
    requires width > 0 && height > 0 && PlainText(s)
    ensures Cleared(width, height, fg).Valid()
    ensures Write(Cleared(width, height, fg), s) == Filled(width, height, fg, s)
    decreases |s|
  {
    var d := Cleared(width, height, fg);
    if s == [] {
      assert d.cells == Filled(width, height, fg, []).cells;
    } else {
      var a, c := s[..|s| - 1], s[|s| - 1];
      PlainTextFillsTheDocument(width, height, fg, a);
      NotPending(a);
      assert s == a + [c];
      WriteInPieces(d, a, [c]);
      assert c in s;
      Write1(Write(d, a), c);
      FilledPut(width, height, fg, a, c);
    }
  }

  lemma FilledPut(width: nat, height: nat, fg: Color, a: seq<char>, c: char)
    requires width > 0 && height > 0
    requires Filled(width, height, fg, a).Valid()
    ensures Put(Filled(width, height, fg, a), c) == Filled(width, height, fg, a + [c])
  {
    var d, e := Filled(width, height, fg, a), Filled(width, height, fg, a + [c]);
    var n := |a|;
    Successor(n, width);
    var r := Put(d, c);
    RowEnds(d.row, d.rows, width);
    assert d.Line() + d.col == n;
    assert r.rows == e.rows && r.row == e.row && r.col == e.col;
    RowEnds(d.rows, d.rows + 1, width);
    assert |r.cells| == |e.cells|;
    assert r.cells == e.cells;
  }

  lemma Successor(n: nat, w: nat)
    requires w > 0
    ensures n == n / w * w + n % w
    ensures if n % w + 1 < w then (n + 1) / w == n / w && (n + 1) % w == n % w + 1
            else (n + 1) / w == n / w + 1 && (n + 1) % w == 0
  {
    var q, r := n / w, n % w;
    if r + 1 < w {
      Bits.DivModUnique(n + 1, w, q, r + 1);
    } else {
      assert (q + 1) * w == q * w + w;
      Bits.DivModUnique(n + 1, w, q + 1, 0);
    }
  }

  function CellIndex(width: nat, x: nat, y: nat): nat { y * width + x }

  /** For n plain characters on a cleared screen, the cell in column x of screen row y shows
      character (y + S) * width + x, or nothing if there are not that many, where S is the number
      of rows scrolled away. */
  lemma PlainTextOnScreen(width: nat, height: nat, fg: Color, s: seq<char>, x: nat, y: nat)
    requires width > 0 && height > 0 && PlainText(s) && x < width && y < height
    ensures Cleared(width, height, fg).Valid()
    ensures var screen := Write(Cleared(width, height, fg), s).Screen();
            var scrolled := if |s| / width + 1 > height then |s| / width + 1 - height else 0;
            var j, k := CellIndex(width, x, y), CellIndex(width, x, y + scrolled);
            && j < |screen|
            && screen[j] == Cell(if k < |s| then s[k] else NUL, fg)
  {
    PlainTextFillsTheDocument(width, height, fg, s);
    var filled := Filled(width, height, fg, s);
    var top := if |s| / width + 1 > height then |s| / width + 1 - height else 0;
    FilledOnScreen(filled, s, x, y, top, CellIndex(width, x, y + top));
  }

  lemma FilledOnScreen(d: Doc, s: seq<char>, x: nat, y: nat, top: nat, k: nat)
    requires d.Valid() && d == Filled(d.width, d.height, d.fg, s) && top == d.Top()
    requires x < d.width && y < d.height && k == CellIndex(d.width, x, y + top)
    ensures var j := CellIndex(d.width, x, y);
            j < |d.Screen()| && d.Screen()[j] == Cell(if k < |s| then s[k] else NUL, d.fg)
  {
    RowEnds(y, d.height, d.width);
    Distribute(y, top, d.width);
    ScreenIsTheTail(d, CellIndex(d.width, x, y), k);
  }

  lemma ScreenIsTheTail(d: Doc, j: nat, k: nat)
    requires d.Valid() && j < d.height * d.width && k == d.Top() * d.width + j
    ensures j < |d.Screen()| && k < |d.cells| && d.Screen()[j] == d.cells[k]
  {
    RowEnds(d.Top(), d.rows, d.width);
    Distribute(d.height, d.Top(), d.width);
  }

  lemma Distribute(a: nat, b: nat, w: nat)
    ensures (a + b) * w == a * w + b * w
  {
  }
}
