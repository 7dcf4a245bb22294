// The VGA text driver (src/kernel/drivers/vga/vga.cpp): an 80 x 25 buffer with
// a cursor, scrolled by copying rows.

module Vga {
  import opened NumberText
  import opened UnboundedTerminal

  class Terminal {
    const buffer: array<int>
    var x: int
    var y: int
    // What an unbounded terminal would hold after the same calls.
    ghost var doc: Document

    // The buffer shows the window of the document.
    ghost predicate Shows(cells: map<(int, int), int>, top: int)
      reads buffer
    {
      && buffer.Length == WIDTH * HEIGHT
      && forall i :: 0 <= i < buffer.Length ==> buffer[i] == CellAt(cells, top + i / WIDTH, i % WIDTH)
    }

    ghost predicate Valid()
      reads this, buffer
    {
      Wellformed(doc) && Shows(doc.cells, doc.top) && x == doc.x && y == doc.row - doc.top
    }

    constructor ()
      ensures Valid() && doc == BLANK && fresh(buffer)
    {
      buffer := new int[WIDTH * HEIGHT](_ => CLEARED);
      x, y := 0, 0;
      doc := BLANK;
    }

    method ClearScreen()
      requires Valid()
      modifies this, buffer
      ensures Valid() && doc == BLANK
    {
      for i := 0 to WIDTH * HEIGHT
        modifies buffer
        invariant forall j :: 0 <= j < i ==> buffer[j] == CLEARED
      {
        buffer[i] := CLEARED;
      }
      doc := BLANK;
      SetCursorPos(0, 0);
    }

    // Row `row` becomes a copy of the row below it.
    method CopyRowUp(row: int)
      requires buffer.Length == WIDTH * HEIGHT && 0 <= row < HEIGHT - 1
      modifies buffer
      ensures forall i :: row * WIDTH <= i < (row + 1) * WIDTH ==> buffer[i] == old(buffer[i + WIDTH])
      ensures forall i :: 0 <= i < row * WIDTH || (row + 1) * WIDTH <= i < WIDTH * HEIGHT ==> buffer[i] == old(buffer[i])
    {
      var start := row * WIDTH;
      for column := 0 to WIDTH
        invariant forall i :: start <= i < start + column ==> buffer[i] == old(buffer[i + WIDTH])
        invariant forall i :: 0 <= i < start || start + column <= i < WIDTH * HEIGHT ==> buffer[i] == old(buffer[i])
      {
        buffer[row * WIDTH + column] := buffer[(row + 1) * WIDTH + column];
      }
    }

    method FillLastRow()
      requires buffer.Length == WIDTH * HEIGHT
      modifies buffer
      ensures forall i :: 0 <= i < WIDTH * (HEIGHT - 1) ==> buffer[i] == old(buffer[i])
      ensures forall i :: WIDTH * (HEIGHT - 1) <= i < WIDTH * HEIGHT ==> buffer[i] == SCROLLED_IN
    {
      for column := 0 to WIDTH
        invariant forall i :: 0 <= i < WIDTH * (HEIGHT - 1) ==> buffer[i] == old(buffer[i])
        invariant forall i :: WIDTH * (HEIGHT - 1) <= i < WIDTH * (HEIGHT - 1) + column ==> buffer[i] == SCROLLED_IN
      {
        buffer[(HEIGHT - 1) * WIDTH + column] := SCROLLED_IN;
      }
    }

    // One scroll: every row moves up, the last becomes spaces.
    method ScrollRow()
      requires buffer.Length == WIDTH * HEIGHT
      modifies buffer
      ensures forall i :: 0 <= i < WIDTH * (HEIGHT - 1) ==> buffer[i] == old(buffer[i + WIDTH])
      ensures forall i :: WIDTH * (HEIGHT - 1) <= i < WIDTH * HEIGHT ==> buffer[i] == SCROLLED_IN
    {
      for row := 0 to HEIGHT - 1
        invariant forall i :: 0 <= i < row * WIDTH ==> buffer[i] == old(buffer[i + WIDTH])
        invariant forall i :: row * WIDTH <= i < WIDTH * HEIGHT ==> buffer[i] == old(buffer[i])
      {
        CopyRowUp(row);
      }
      FillLastRow();
    }

    // Scrolling once shows the document one row further down.
    method ShowNextRow(ghost top: int)
      requires Wellformed(doc) && doc.top <= top && Shows(doc.cells, top)
      modifies buffer
      ensures Shows(doc.cells, top + 1)
    {
      ghost var before := buffer[..];
      ScrollRow();
      forall i | 0 <= i < WIDTH * HEIGHT
        ensures buffer[i] == CellAt(doc.cells, top + 1 + i / WIDTH, i % WIDTH)
      {
        if i < WIDTH * (HEIGHT - 1) {
          assert buffer[i] == before[i + WIDTH];
        }
      }
    }

    // Scrolls as often as the row lies below the screen.
    method SetCursorPos(newX: int, newY: int)
      requires Wellformed(doc) && Shows(doc.cells, doc.top)
      requires 0 <= newX < WIDTH && 0 <= newY < 256
      modifies this, buffer
      ensures Valid() && doc == MoveTo(old(doc), old(doc).top + newY, newX)
    {
      hide Shows;
      x, y := newX, newY;
      ghost var top := doc.top;
      while y >= HEIGHT
        invariant x == newX && 0 <= y <= newY && (y < HEIGHT ==> y == newY || y == HEIGHT - 1)
        invariant doc == old(doc) && top == doc.top + newY - y
        invariant Shows(doc.cells, top)
      {
        ShowNextRow(top);
        y := y - 1;
        top := top + 1;
      }
      doc := MoveTo(doc, doc.top + newY, newX);
    }

    method NewLine()
      requires Valid()
      modifies this, buffer
      ensures Valid() && doc == UnboundedTerminal.NewLine(old(doc))
    {
      SetCursorPos(0, y + 1);
    }

    // The cell under the cursor.
    method WriteCell(c: int)
      requires Valid()
      modifies buffer
      ensures Shows(doc.cells[(doc.row, doc.x) := CellOf(c)], doc.top)
    {
      buffer[y * WIDTH + x] := CellOf(c);
    }

    method PutChar(c: int)
      requires Valid() && IsByte(c)
      modifies this, buffer
      ensures Valid() && doc == UnboundedTerminal.PutChar(old(doc), c)
    {
      hide Shows;
      WriteCell(c);
      doc := doc.(cells := doc.cells[(doc.row, doc.x) := CellOf(c)]);
      var nextX := (x + 1) % WIDTH;
      var nextY := if nextX == 0 then y + 1 else y;
      SetCursorPos(nextX, nextY);
    }

    method PutString(s: seq<int>)
      requires Valid() && forall i :: 0 <= i < |s| ==> IsByte(s[i])
      modifies this, buffer
      ensures Valid() && doc == UnboundedTerminal.PutString(old(doc), BeforeZero(s))
    {
      var p := 0;
      while p < |s| && s[p] != 0
        invariant Valid() && p <= |s| && doc == UnboundedTerminal.PutString(old(doc), s[..p])
        invariant forall i :: 0 <= i < p ==> s[i] != 0
      {
        assert s[..p + 1][..p] == s[..p];
        if s[p] == 10 {
          NewLine();
        } else if s[p] == 8 {
          if x > 0 {
            SetCursorPos(x - 1, y);
          }
        } else if s[p] == 13 {
          SetCursorPos(0, y);
        } else {
          PutChar(s[p]);
        }
        p := p + 1;
      }
      BeforeZeroIs(s, p);
    }

    // "0x" and the eight digits, taken from the top by shifting.
    method PutHex(value: int)
      requires Valid() && 0 <= value < 0x1_0000_0000
      modifies this, buffer
      ensures Valid() && doc == PutText(old(doc), [48, 120] + Digits(value, 16, 8))
    {
      hide Valid, HexTop, Shifted, PutText;
      PlainTextIsPutText(doc, [48, 120]);
      BeforeZeroIs([48, 120], 2);
      PutString([48, 120]);
      HexEnds(value);
      assert [48, 120] + [] == [48, 120];
      var v := value;
      for i := 0 to 8
        invariant Valid() && v == Shifted(value, i)
        invariant doc == PutText(old(doc), [48, 120] + HexTop(value, i))
      {
        ghost var text := [48, 120] + HexTop(value, i);
        var digit := v / 0x1000_0000;
        HexPrefix(value, i);
        PutTextOne(old(doc), text, DigitChar(digit));
        PutChar(if digit < 10 then 48 + digit else 65 + (digit - 10));
        v := v * 16 % 0x1_0000_0000;
      }
    }

    // Digits are produced from the last to the first and printed in reverse.
    method PutUnsignedDecimal(value: int)
      requires Valid() && 0 <= value < 0x1_0000_0000
      modifies this, buffer
      ensures Valid() && doc == PutText(old(doc), Decimal(value))
    {
      hide Valid, Decimal, PutText, Reversed, UnboundedTerminal.PutChar;
      if value == 0 {
        PutTextZero(doc);
        PutChar(48);
        return;
      }
      var digits, count := ExtractDigits(value);
      PutReversed(digits, count);
    }

    method PutReversed(digits: array<int>, count: nat)
      requires Valid() && count <= digits.Length && digits != buffer
      requires forall j :: 0 <= j < count ==> IsByte(digits[j])
      modifies this, buffer
      ensures Valid() && doc == PutText(old(doc), Reversed(digits[..count]))
    {
      hide Valid, PutText, Reversed, UnboundedTerminal.PutChar;
      ghost var text := digits[..count];
      PutTextNone(doc);
      NothingReversed();
      var k: int := count - 1;
      while 0 <= k
        invariant -1 <= k < count && Valid() && digits[..count] == text
        invariant doc == PutText(old(doc), Reversed(text[k + 1..]))
      {
        ReversedFrom(text, k);
        PutTextOne(old(doc), Reversed(text[k + 1..]), text[k]);
        assert digits[k] == text[k];
        PutChar(digits[k]);
        k := k - 1;
      }
      assert text[0..] == text;
    }

    // The digit buffer of put_unsigned_decimal: ten slots always suffice.
    method ExtractDigits(value: int) returns (digits: array<int>, count: nat)
      requires 0 < value < 0x1_0000_0000
      ensures fresh(digits) && count <= digits.Length == 10
      ensures Decimal(value) == Reversed(digits[..count])
      ensures forall j :: 0 <= j < count ==> 48 <= digits[j] < 58
    {
      hide Decimal, Reversed;
      WordHasTenDigits(value);
      digits := new int[10](_ => 0);
      var v := value;
      count := 0;
      while count < 10 && v != 0
        invariant 0 <= count <= 10 && 0 <= v
        invariant Decimal(value) == (if v == 0 then [] else Decimal(v)) + Reversed(digits[..count])
        invariant forall j :: 0 <= j < count ==> 48 <= digits[j] < 58
        decreases 10 - count
      {
        NextDigit(v, digits[..count]);
        ghost var before := digits[..count];
        digits[count] := v % 10 + 48;
        assert digits[..count + 1] == before + [v % 10 + 48];
        v := v / 10;
        count := count + 1;
      }
      DecimalNotEmpty(v);
    }

    // Negating the smallest integer is undefined in the source, hence excluded.
    method PutSignedDecimal(value: int)
      requires Valid() && -0x8000_0000 < value < 0x8000_0000
      modifies this, buffer
      ensures Valid()
      ensures doc == if value < 0 then PutText(UnboundedTerminal.PutChar(old(doc), 45), Decimal(-value))
                     else PutText(old(doc), Decimal(value))
    {
      if value < 0 {
        PutChar(45);
        PutUnsignedDecimal(-value);
      } else {
        PutUnsignedDecimal(value);
      }
    }
  }

  lemma DecimalNotEmpty(v: nat)
    ensures 0 < |Decimal(v)|
  {
  }

  // One more digit moved from the number to the buffer.
  lemma NextDigit(v: nat, before: seq<int>)
    requires v != 0
    ensures Decimal(v) + Reversed(before) == (if v / 10 == 0 then [] else Decimal(v / 10)) + Reversed(before + [v % 10 + 48])
  {
  }

  lemma PutTextNone(d: Document)
    ensures PutText(d, []) == d
  {
  }

  lemma PutTextZero(d: Document)
    ensures PutText(d, Decimal(0)) == PutChar(d, 48)
  {
    PutTextNone(d);
    PutTextOne(d, [], 48);
    assert [] + [48] == Decimal(0);
  }

  // The first i of the eight digits.
  function HexTop(value: nat, i: nat): seq<int>
    requires i <= 8
  {
    Digits(value / Pow16(8 - i), 16, i)
  }

  lemma HexEnds(value: nat)
    requires value < 0x1_0000_0000
    ensures Shifted(value, 0) == value && HexTop(value, 0) == [] && HexTop(value, 8) == Digits(value, 16, 8)
  {
    hide Digits;
  }

  lemma HexPrefix(value: nat, i: nat)
    requires value < 0x1_0000_0000 && i < 8
    ensures var w := Shifted(value, i);
            && 0 <= w / 0x1000_0000 < 16 && w * 16 % 0x1_0000_0000 == Shifted(value, i + 1)
            && [48, 120] + HexTop(value, i + 1)
               == [48, 120] + HexTop(value, i) + [DigitChar(w / 0x1000_0000)]
  {
    ShiftStep(value, i);
  }

  function Reversed(s: seq<int>): (r: seq<int>)
    ensures |r| == |s|
  {
    if s == [] then [] else [s[|s| - 1]] + Reversed(s[..|s| - 1])
  }

  lemma ReversedFrom(s: seq<int>, k: nat)
    requires k < |s|
    ensures Reversed(s[k..]) == Reversed(s[k + 1..]) + [s[k]]
  {
    ReversedDropFirst(s[k..]);
    assert s[k..][1..] == s[k + 1..];
  }

  lemma NothingReversed()
    ensures Reversed([]) == []
  {
  }

  lemma {:induction false} ReversedDropFirst(s: seq<int>)
    requires s != []
    ensures Reversed(s) == Reversed(s[1..]) + [s[0]]
  {
    if 1 < |s| {
      var n := |s| - 1;
      ReversedDropFirst(s[..n]);
      assert s[..n][1..] == s[1..][..n - 1] && s[1..][n - 1] == s[n];
    }
  }
}
