// kernel/src/display.rs: the terminal itself, a cursor over a flat cell buffer.
module Tty {
  import opened Wrappers
  import opened DisplayModel

  const MAX_WIDTH := 130
  const MAX_HEIGHT := 50

  lemma BufferIsLargeEnough(width: nat, height: nat)
    requires width <= MAX_WIDTH && height <= MAX_HEIGHT
    ensures height * width <= MAX_WIDTH * MAX_HEIGHT
  {
    RowEnds(height, MAX_HEIGHT, width);
  }

  /** The visible tail of a document whose cursor may have left its last row or column. */
  ghost predicate Loose(e: Doc) {
    && 0 < e.width && 0 < e.height && |e.cells| == e.rows * e.width
    && 0 <= e.Top() <= e.row && e.Top() * e.width <= |e.cells|
    && e.row + (if e.col >= e.width then 1 else 0) <= e.rows
  }

  /** The two checks at the end of the loop in `write_str`. */
  function Settle(e: Doc): Doc {
    var f := if e.col >= e.width then e.(col := 0, row := e.row + 1) else e;
    if f.row >= f.rows then f.(rows := f.rows + 1, cells := f.cells + Blanks(f.width, f.fg)) else f
  }

  lemma SettlePut(d: Doc, c: char)
    requires d.Valid()
    ensures d.Line() + d.col < |d.cells|
    ensures var e := d.(cells := d.cells[d.Line() + d.col := Cell(c, d.fg)], col := d.col + 1);
            Loose(e) && Put(d, c) == Settle(e)
  {
    RowEnds(d.row, d.rows, d.width);
    RowEnds(d.Top(), d.rows, d.width);
  }

  lemma SettleOther(d: Doc)
    requires d.Valid()
    ensures Loose(d) && Settle(d) == d
    ensures Loose(d.(col := 0)) && Settle(d.(col := 0)) == d.(col := 0)
    ensures var e := d.(row := d.row + 1, col := 0); Loose(e) && Settle(e) == Down(d).(col := 0)
  {
    RowEnds(d.Top(), d.rows, d.width);
  }

  // Slices of the document and of the buffer.

  lemma SliceUpdate(cells: seq<Cell>, top: nat, at: nat, k: nat, cell: Cell)
    requires top + at == k < |cells|
    ensures cells[k := cell][top..] == cells[top..][at := cell]
  {
  }

  lemma SliceErase(cells: seq<Cell>, top: nat, at: nat, end: nat, fg: Color)
    requires at < end && top + end <= |cells|
    ensures EraseCell(cells, top + at, top + end, fg)[top..] == EraseCell(cells[top..], at, end, fg)
  {
    var low := cells[top..];
    assert cells[..top + at] == cells[..top] + low[..at];
    assert cells[top + at + 1..top + end] == low[at + 1..end];
    assert cells[top + end..] == low[end..];
    assert EraseCell(cells, top + at, top + end, fg) == cells[..top] + EraseCell(low, at, end, fg);
  }

  lemma PrefixErase(cells: seq<Cell>, area: nat, at: nat, end: nat, fg: Color)
    requires at < end <= area <= |cells|
    ensures EraseCell(cells, at, end, fg)[..area] == EraseCell(cells[..area], at, end, fg)
  {
    var low := cells[..area];
    assert cells[..at] == low[..at] && cells[at + 1..end] == low[at + 1..end];
    assert cells[end..] == low[end..] + cells[area..];
    assert EraseCell(cells, at, end, fg) == EraseCell(low, at, end, fg) + cells[area..];
  }

  /** Cell by cell, what erasing one cell of a row does. */
  lemma ErasedCells(before: seq<Cell>, after: seq<Cell>, at: nat, end: nat, fg: Color)
    requires at < end <= |before| == |after|
    requires forall k {:trigger after[k]} | 0 <= k < |before| && !(at <= k < end) :: after[k] == before[k]
    requires forall k {:trigger after[k]} | at <= k < end - 1 :: after[k] == before[k + 1]
    requires after[end - 1] == Cell(NUL, fg)
    ensures after == EraseCell(before, at, end, fg)
  {
    assert after[..at] == before[..at] && after[at..end - 1] == before[at + 1..end] && after[end..] == before[end..];
  }

  lemma SliceScroll(cells: seq<Cell>, top: nat, width: nat, blanks: seq<Cell>)
    requires top + width <= |cells|
    ensures (cells + blanks)[top + width..] == cells[top..][width..] + blanks
  {
  }

  /** Screen coordinates and document coordinates of the cursor's row. */
  lemma CursorRow(d: Doc)
    requires d.Valid()
    ensures var y := d.row - d.Top();
            && 0 <= y < d.height && 0 <= d.Top() * d.width && d.Top() * d.width + y * d.width == d.Line()
            && y * d.width + d.width <= d.height * d.width
            && d.Line() + d.width <= |d.cells| && |d.cells| == d.Top() * d.width + d.height * d.width
  {
    var y := d.row - d.Top();
    Distribute(y, d.Top(), d.width);
    Distribute(d.height, d.Top(), d.width);
    RowEnds(y, d.height, d.width);
    RowEnds(d.row, d.rows, d.width);
  }

  /** Where the cursor's row starts, in the buffer and in the document. */
  lemma Places(d: Doc) returns (top: nat, start: nat, area: nat)
    requires d.Valid()
    ensures top == d.Top() * d.width && start == (d.row - d.Top()) * d.width && area == d.height * d.width
    ensures top + start == d.Line() && start + d.width <= area && top + area == |d.cells|
  {
    CursorRow(d);
    top, start, area := d.Top() * d.width, (d.row - d.Top()) * d.width, d.height * d.width;
  }

  lemma ScreenAfterPrint(d: Doc, cell: Cell)
    requires d.Valid()
    ensures d.Line() + d.col < |d.cells|
    ensures var at := (d.row - d.Top()) * d.width + d.col;
            && 0 <= at < |d.cells[d.Top() * d.width..]|
            && d.cells[d.Line() + d.col := cell][d.Top() * d.width..] == d.cells[d.Top() * d.width..][at := cell]
  {
    var top, start, area := Places(d);
    SliceUpdate(d.cells, top, start + d.col, top + start + d.col, cell);
  }

  lemma ScreenAfterErase(d: Doc, col: nat, top: nat, start: nat)
    requires d.Valid() && col < d.width && top + start == d.Line() && d.Line() + d.width <= |d.cells|
    ensures Erase(d, col).cells[top..] == EraseCell(d.cells[top..], start + col, start + d.width, d.fg)
  {
    SliceErase(d.cells, top, start + col, start + d.width, d.fg);
  }

  lemma EraseKeepsLoose(d: Doc, col: nat)
    requires d.Valid() && col < d.width && Loose(d)
    ensures var e := Erase(d, col).(col := col); e.Valid() && Loose(e) && e.Top() * e.width == d.Top() * d.width
  {
  }

  /** The index of the first cell of row `y`. */
  ghost function RowStart(y: nat, width: nat): nat {
    if y == 0 then 0 else RowStart(y - 1, width) + width
  }

  lemma {:induction false} RowStartIs(y: nat, width: nat)
    ensures RowStart(y, width) == y * width
  {
    if y == 0 {
    } else {
      RowStartIs(y - 1, width);
      RowEnds(y - 1, y, width);
    }
  }

  lemma RowStarts(a: nat, b: nat, width: nat)
    requires a <= b
    ensures RowStart(a, width) == a * width <= b * width == RowStart(b, width)
  {
    RowStartIs(a, width);
    RowStartIs(b, width);
    RowEnds(a, b, width);
  }

  /** What the two erasing characters do. */
  lemma PlainErases(d: Doc)
    requires d.Valid()
    ensures d.col == 0 ==> Plain(d, BACKSPACE) == d
    ensures d.col > 0 ==> Plain(d, BACKSPACE) == Erase(d, d.col - 1).(col := d.col - 1)
    ensures Plain(d, DELETE) == Erase(d, d.col).(col := d.col)
  {
  }

  class TTY {
    const width: nat
    const height: nat
    const textBuf: array<Cell>
    var cursorX: nat
    var cursorY: nat
    var fgColor: Color
    /** The document of which the screen is the tail. */
    ghost var doc: Doc

    ghost predicate Shaped()
    {
      && 0 < width <= MAX_WIDTH && 0 < height <= MAX_HEIGHT
      && textBuf.Length == MAX_WIDTH * MAX_HEIGHT && height * width <= textBuf.Length
    }

    ghost predicate Shows(e: Doc)
      reads this, textBuf
    {
      && Shaped() && Loose(e) && e.width == width && e.height == height
      && cursorX == e.col && cursorY == e.row - e.Top() && fgColor == e.fg
      && textBuf[..height * width] == e.cells[e.Top() * width..]
    }

    ghost predicate Valid()
      reads this, textBuf
    {
      doc.Valid() && Shows(doc)
    }

    /** `TTY::new` on a framebuffer of at least one cell, with whatever the buffer holds, followed
        by `clear_tty` as at start-up. */
    constructor (resWidth: nat, resHeight: nat, contents: array<Cell>)
      requires resWidth >= 8 && resHeight >= 8 && contents.Length == MAX_WIDTH * MAX_HEIGHT
      modifies contents
      ensures Valid() && textBuf == contents
      ensures width == Min(resWidth / 8, MAX_WIDTH) && height == Min(resHeight / 8, MAX_HEIGHT)
      ensures doc == Cleared(width, height, Color(255, 255, 255, 255))
    {
      width := Min(resWidth / 8, MAX_WIDTH);
      height := Min(resHeight / 8, MAX_HEIGHT);
      textBuf := contents;
      cursorX, cursorY := 0, 0;
      fgColor := Color(255, 255, 255, 255);
      new;
      BufferIsLargeEnough(width, height);
      ClearTty();
    }

    method ClearTty()
      requires Shaped()
      modifies this, textBuf
      ensures Valid() && fgColor == old(fgColor) && doc == Cleared(width, height, fgColor)
    {
      for i := 0 to textBuf.Length
        invariant fgColor == old(fgColor)
        invariant forall k | 0 <= k < i :: textBuf[k] == Cell(NUL, fgColor)
      {
        textBuf[i] := Cell(NUL, fgColor);
      }
      cursorX := 0;
      cursorY := 0;
      doc := Cleared(width, height, fgColor);
      assert doc.cells[doc.Top() * width..] == doc.cells;
    }

    method SetChar(x: nat, y: nat, c: char, color: Color)
      requires Shaped()
      modifies textBuf
      ensures if x < width && y < height
              then y * width + x < height * width
                   && textBuf[..height * width] == old(textBuf[..height * width])[y * width + x := Cell(c, color)]
              else textBuf[..] == old(textBuf[..])
      ensures forall k | height * width <= k < textBuf.Length :: textBuf[k] == old(textBuf[k])
    {
      if x >= width || y >= height {
        return;
      }
      RowEnds(y, height, width);
      textBuf[y * width + x] := Cell(c, color);
    }

    method GetChar(x: nat, y: nat) returns (r: Option<char>)
      requires Valid()
      ensures r.Some? <==> x < width && y < height
      ensures r.Some? ==> y * width + x < |doc.Screen()| && r.value == doc.Screen()[y * width + x].ch
    {
      if x >= width || y >= height {
        return None;
      }
      RowEnds(y, height, width);
      assert textBuf[..height * width][y * width + x] == textBuf[y * width + x];
      return Some(textBuf[y * width + x].ch);
    }

    /** Every row moves up by one, and the last one becomes blank. */
    method ScrollUp()
      requires Shaped()
      modifies textBuf
      ensures width <= height * width
      ensures textBuf[..height * width] == old(textBuf[width..height * width]) + Blanks(width, fgColor)
    {
      RowEnds(height - 1, height, width);
      ghost var last := (height - 1) * width;
      RowStartIs(height - 1, width);
      MoveRowsUp(last);
      for x := 0 to width
        invariant forall k {:trigger textBuf[k]} | 0 <= k < last :: textBuf[k] == old(textBuf[k + width])
        invariant forall k {:trigger textBuf[k]} | last <= k < last + x :: textBuf[k] == Cell(NUL, fgColor)
      {
        textBuf[(height - 1) * width + x] := Cell(NUL, fgColor);
      }
    }

    method MoveRowsUp(ghost last: nat)
      requires height > 0 && last == RowStart(height - 1, width) && last + width <= textBuf.Length
      modifies textBuf
      ensures forall k {:trigger textBuf[k]} | 0 <= k < last :: textBuf[k] == old(textBuf[k + width])
    {
      ghost var done := 0;
      for y := 1 to height
        invariant done == RowStart(y - 1, width) <= last
        invariant forall k {:trigger textBuf[k]} | 0 <= k < done :: textBuf[k] == old(textBuf[k + width])
        invariant forall k {:trigger textBuf[k]} | done <= k < textBuf.Length :: textBuf[k] == old(textBuf[k])
      {
        MoveNextRow(y, done, last);
        done := done + width;
      }
    }

    method MoveNextRow(y: nat, ghost done: nat, ghost last: nat)
      requires 1 <= y < height && done == RowStart(y - 1, width)
      requires last == RowStart(height - 1, width) && last + width <= textBuf.Length
      modifies textBuf
      ensures done + width == RowStart(y, width) <= last
      ensures forall k {:trigger textBuf[k]} | 0 <= k < textBuf.Length && !(done <= k < done + width) :: textBuf[k] == old(textBuf[k])
      ensures forall k {:trigger textBuf[k]} | done <= k < done + width :: textBuf[k] == old(textBuf[k + width])
    {
      RowStarts(y - 1, y, width);
      RowStarts(y, height - 1, width);
      MoveRow((y - 1) * width, y * width);
    }

    /** The inner loop: the row that starts at `from` is copied over the row above it. */
    method MoveRow(to: nat, from: nat)
      requires from == to + width && from + width <= textBuf.Length
      modifies textBuf
      ensures forall k {:trigger textBuf[k]} | 0 <= k < textBuf.Length && !(to <= k < from) :: textBuf[k] == old(textBuf[k])
      ensures forall k {:trigger textBuf[k]} | to <= k < from :: textBuf[k] == old(textBuf[k + width])
    {
      for x := 0 to width
        invariant forall k {:trigger textBuf[k]} | 0 <= k < textBuf.Length && !(to <= k < to + x) :: textBuf[k] == old(textBuf[k])
        invariant forall k {:trigger textBuf[k]} | to <= k < to + x :: textBuf[k] == old(textBuf[k + width])
      {
        textBuf[to + x] := textBuf[from + x];
      }
    }

    /** Backspace (`bksp`) or delete. */
    method Delete(bksp: bool)
      requires Valid()
      modifies this, textBuf
      ensures Valid() && doc == Plain(old(doc), if bksp then BACKSPACE else DELETE)
    {
      if cursorY >= height {
        return;
      }
      SettleOther(doc);
      PlainErases(doc);
      if bksp {
        if cursorX == 0 {
          return;
        }
        cursorX := cursorX - 1;
      } else if cursorX >= width {
        return;
      }
      EraseKeepsLoose(doc, cursorX);
      EraseRow(doc);
      doc := Erase(doc, cursorX).(col := cursorX);
    }

    /** Erases the cell at `cursorX` from the cursor's row. */
    method EraseRow(ghost d: Doc)
      requires Shaped() && d.Valid() && d.width == width && d.height == height
      requires cursorX < width && cursorY == d.row - d.Top() && fgColor == d.fg
      requires textBuf[..height * width] == d.cells[d.Top() * width..]
      modifies textBuf
      ensures textBuf[..height * width] == Erase(d, cursorX).cells[d.Top() * width..]
    {
      var rowStart := cursorY * width;
      ghost var top, start, area := Places(d);
      EraseAt(rowStart, area, d.cells[top..]);
      ScreenAfterErase(d, cursorX, top, start);
    }

    method EraseAt(rowStart: nat, ghost area: nat, ghost screen: seq<Cell>)
      requires cursorX < width && rowStart + width <= area <= textBuf.Length && textBuf[..area] == screen
      modifies textBuf
      ensures textBuf[..area] == EraseCell(screen, rowStart + cursorX, rowStart + width, fgColor)
    {
      ghost var before := textBuf[..];
      ShiftRow(rowStart, rowStart + width);
      PrefixErase(before, area, rowStart + cursorX, rowStart + width, fgColor);
      assert before[..area] == screen;
    }

    /** The cells behind the cursor move one to the left, and the last one becomes blank. */
    method ShiftRow(rowStart: nat, rowEnd: nat)
      requires cursorX < width && rowEnd == rowStart + width <= textBuf.Length
      modifies textBuf
      ensures textBuf[..] == EraseCell(old(textBuf[..]), rowStart + cursorX, rowEnd, fgColor)
    {
      ghost var before := textBuf[..];
      ghost var at := rowStart + cursorX;
      for x := cursorX to width - 1
        invariant forall k {:trigger textBuf[k]} | 0 <= k < |before| && !(at <= k < rowStart + x) :: textBuf[k] == before[k]
        invariant forall k {:trigger textBuf[k]} | at <= k < rowStart + x :: textBuf[k] == before[k + 1]
      {
        textBuf[rowStart + x] := textBuf[rowStart + x + 1];
      }
      textBuf[rowEnd - 1] := Cell(NUL, fgColor);
      ErasedCells(before, textBuf[..], at, rowEnd, fgColor);
    }

    /** A character that is not part of an escape sequence. */
    method PutChar(c: char)
      requires Valid()
      modifies this, textBuf
      ensures Valid() && doc == Plain(old(doc), c)
    {
      PlainKeepsValid(doc, c);
      SettleOther(doc);
      ghost var e := doc;
      if c == '\n' {
        cursorX := 0;
        cursorY := cursorY + 1;
        e := doc.(row := doc.row + 1, col := 0);
      } else if c == '\r' {
        cursorX := 0;
        e := doc.(col := 0);
      } else if c == BACKSPACE {
        Delete(true);
        e := doc;
        SettleOther(doc);
      } else if c == DELETE {
        Delete(false);
        e := doc;
        SettleOther(doc);
      } else {
        e := Print(c);
      }
      Wrap(e);
    }

    /** `set_char` at the cursor, which then moves on. */
    method Print(c: char) returns (ghost e: Doc)
      requires Valid()
      modifies this, textBuf
      ensures Shows(e) && Put(old(doc), c) == Settle(e) && doc == old(doc)
    {
      SettlePut(doc, c);
      e := doc.(cells := doc.cells[doc.Line() + doc.col := Cell(c, doc.fg)], col := doc.col + 1);
      ScreenAfterPrint(doc, Cell(c, fgColor));
      SetChar(cursorX, cursorY, c, fgColor);
      cursorX := cursorX + 1;
    }

    /** Wrap the line, scroll. */
    method Wrap(ghost e: Doc)
      requires Shows(e)
      modifies this, textBuf
      ensures Valid() && doc == Settle(e)
    {
      if cursorX >= width {
        cursorX := 0;
        cursorY := cursorY + 1;
      }
      if cursorY >= height {
        RowEnds(e.Top(), e.Top() + 1, width);
        RowEnds(e.Top(), e.rows, width);
        Distribute(height, e.Top(), width);
        ScrollUp();
        SliceScroll(e.cells, e.Top() * width, width, Blanks(width, fgColor));
        cursorY := height - 1;
      }
      doc := Settle(e);
      RowEnds(e.rows, e.rows + 1, width);
    }

    /** `write_str`: the screen shows the tail of the document that the text leads to. */
    method WriteStr(s: seq<char>)
      requires Valid()
      modifies this, textBuf
      ensures Valid() && doc == Write(old(doc), s)
    {
      var i := 0;
      assert s[0..] == s;
      while i < |s|
        invariant i <= |s| && Valid() && Write(doc, s[i..]) == Write(old(doc), s)
      {
        i := Continue(s, i);
      }
    }

    method Continue(s: seq<char>, start: nat) returns (i: nat)
      requires Valid() && start < |s|
      modifies this, textBuf
      ensures Valid() && start < i <= |s| && Write(doc, s[i..]) == Write(old(doc), s[start..])
    {
      ghost var was := doc;
      i := NextTurn(s, start);
      TurnStarts(was, s, start, doc, i);
    }

    /** One turn of the loop: an escape sequence, or a character. */
    method NextTurn(s: seq<char>, start: nat) returns (i: nat)
      requires Valid() && start < |s|
      modifies this, textBuf
      ensures Valid() && doc == Turn(old(doc), s[start..]).0 && i == start + Turn(old(doc), s[start..]).1
    {
      var c := s[start];
      i := start + 1;
      if c == ESC && i < |s| && s[i] == '[' {
        assert s[start..][2..] == s[start + 2..];
        var digits := ReadDigits(s, start + 2);
        i := start + 2 + |digits|;
        assert s[start..][2..2 + |digits|] == digits;
        if i < |s| && s[i] == 'm' {
          i := i + 1;
          SelectColour(digits);
          return;
        }
      }
      PutChar(c);
    }

    method SelectColour(digits: seq<char>)
      requires Valid()
      modifies this`fgColor, this`doc
      ensures Valid() && doc == old(doc).(fg := Select(old(doc).fg, digits))
    {
      SettleOther(doc);
      fgColor := Select(fgColor, digits);
      doc := doc.(fg := fgColor);
    }
  }

  /** At most three digits, as many as there are. */
  method ReadDigits(s: seq<char>, start: nat) returns (digits: seq<char>)
    requires start <= |s|
    ensures |digits| == DigitCount(s[start..], 3) && start + |digits| <= |s|
    ensures digits == s[start..start + |digits|]
  {
    var i := start;
    digits := [];
    while i < |s| && IsDigit(s[i]) && |digits| < 3
      invariant i == start + |digits| <= |s| && |digits| <= 3 && digits == s[start..i]
      invariant DigitCount(s[start..], 3) == |digits| + DigitCount(s[i..], 3 - |digits|)
    {
      assert s[i..][1..] == s[i + 1..];
      digits := digits + [s[i]];
      i := i + 1;
    }
  }

  /** The rest of the text after a turn is written to the document after that turn. */
  lemma TurnStarts(d: Doc, s: seq<char>, start: nat, e: Doc, i: nat)
    requires d.Valid() && start < |s|
    requires e == Turn(d, s[start..]).0 && i == start + Turn(d, s[start..]).1
    ensures e.Valid() && start < i <= |s| && Write(d, s[start..]) == Write(e, s[i..])
  {
    PlainKeepsValid(d, ESC);
    PlainKeepsValid(d, s[start]);
    assert s[start..][i - start..] == s[i..];
  }
}
