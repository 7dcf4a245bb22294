// A text terminal that never scrolls: the specification of the VGA driver.

module UnboundedTerminal {
  const WIDTH := 80
  const HEIGHT := 25

  const CLEARED := 0x0700
  const SCROLLED_IN := 0x0020

  // Everything written since the last clear, by absolute row and column.  The
  // cursor is at (row, x); the screen shows HEIGHT rows from `top` on.
  datatype Document = Document(cells: map<(int, int), int>, row: int, x: int, top: int)

  const BLANK := Document(map[], 0, 0, 0)

  // Cells never written show what clear_screen left in the first screenful and
  // what scrolling leaves below it.
  function CellAt(cells: map<(int, int), int>, row: int, column: int): int {
    if (row, column) in cells then cells[(row, column)]
    else if row < HEIGHT then CLEARED else SCROLLED_IN
  }

  // The cell that a byte written as a (signed) char becomes.
  function CellOf(c: int): int {
    if c < 0x80 then 0x0700 + c else 0xFF00 + c
  }

  // The window follows the cursor down and never moves back up.
  function MoveTo(d: Document, row: int, x: int): Document {
    d.(row := row, x := x, top := if row - (HEIGHT - 1) > d.top then row - (HEIGHT - 1) else d.top)
  }

  function NewLine(d: Document): Document { MoveTo(d, d.row + 1, 0) }

  function PutChar(d: Document, c: int): Document {
    var written := d.(cells := d.cells[(d.row, d.x) := CellOf(c)]);
    if d.x + 1 == WIDTH then NewLine(written) else MoveTo(written, d.row, d.x + 1)
  }

  // put_string gives three control characters a meaning; put_char does not.
  function Interpret(d: Document, c: int): Document {
    if c == 10 then NewLine(d)
    else if c == 8 then (if d.x > 0 then MoveTo(d, d.row, d.x - 1) else d)
    else if c == 13 then MoveTo(d, d.row, 0)
    else PutChar(d, c)
  }

  function PutText(d: Document, s: seq<int>): Document {
    if s == [] then d else PutChar(PutText(d, s[..|s| - 1]), s[|s| - 1])
  }

  function PutString(d: Document, s: seq<int>): Document {
    if s == [] then d else Interpret(PutString(d, s[..|s| - 1]), s[|s| - 1])
  }

  predicate IsByte(c: int) { 0 <= c < 256 }

  // What holds of every document that the operations build.
  ghost predicate Wellformed(d: Document) {
    && 0 <= d.top <= d.row < d.top + HEIGHT
    && 0 <= d.x < WIDTH
    && forall k :: k in d.cells ==> 0 <= k.0 < d.top + HEIGHT && 0 <= k.1 < WIDTH
  }

  // ----- Properties of the specification -----

  // The characters of a string that ends at its first zero byte.
  function BeforeZero(s: seq<int>): seq<int> {
    if s == [] || s[0] == 0 then [] else [s[0]] + BeforeZero(s[1..])
  }

  lemma {:induction false} BeforeZeroIs(s: seq<int>, n: nat)
    requires n <= |s| && (n == |s| || s[n] == 0) && forall i :: 0 <= i < n ==> s[i] != 0
    ensures BeforeZero(s) == s[..n]
  {
    if n != 0 {
      BeforeZeroIs(s[1..], n - 1);
      assert s[..n] == [s[0]] + s[1..][..n - 1];
    }
  }

  // Text written in two pieces is text written in one.
  lemma {:induction false} PutStringAppends(d: Document, s: seq<int>, t: seq<int>)
    ensures PutString(d, s + t) == PutString(PutString(d, s), t)
  {
    if t == [] {
      assert s + t == s;
    } else {
      assert (s + t)[..|s + t| - 1] == s + t[..|t| - 1];
      PutStringAppends(d, s, t[..|t| - 1]);
    }
  }

  // Without control characters put_string is put_char after put_char.
  lemma {:induction false} PlainTextIsPutText(d: Document, s: seq<int>)
    requires forall i :: 0 <= i < |s| ==> s[i] != 8 && s[i] != 10 && s[i] != 13
    ensures PutString(d, s) == PutText(d, s)
  {
    if s != [] {
      PlainTextIsPutText(d, s[..|s| - 1]);
    }
  }

  lemma PutTextOne(d: Document, s: seq<int>, c: int)
    ensures PutText(d, s + [c]) == PutChar(PutText(d, s), c)
  {
    assert (s + [c])[..|s|] == s;
  }

  // The cell at a position counted in reading order from the first one on.
  function CellInOrder(cells: map<(int, int), int>, i: int): int {
    CellAt(cells, i / WIDTH, i % WIDTH)
  }

  lemma CellAfterWrite(d: Document, c: int, i: int)
    requires 0 <= d.x < WIDTH
    ensures CellInOrder(PutChar(d, c).cells, i)
         == if i == d.row * WIDTH + d.x then CellOf(c) else CellInOrder(d.cells, i)
  {
  }

  // Plain text of any length, wrapping and scrolling included, lands in reading
  // order from the cursor on, the cursor follows it, and no other cell changes.
  lemma {:induction false} PutTextReadsBack(d: Document, s: seq<int>)
    requires 0 <= d.x < WIDTH
    ensures var e := PutText(d, s);
            var at := d.row * WIDTH + d.x;
            && e.row * WIDTH + e.x == at + |s| && 0 <= e.x < WIDTH
            && (forall i :: CellInOrder(e.cells, i)
                            == if at <= i < at + |s| then CellOf(s[i - at]) else CellInOrder(d.cells, i))
  {
    if s != [] {
      var n := |s| - 1;
      PutTextReadsBack(d, s[..n]);
      var f, at := PutText(d, s[..n]), d.row * WIDTH + d.x;
      hide PutChar, CellInOrder, CellOf;
      forall i
        ensures CellInOrder(PutText(d, s).cells, i)
                == if at <= i < at + |s| then CellOf(s[i - at]) else CellInOrder(d.cells, i)
      {
        CellAfterWrite(f, s[n], i);
      }
    }
  }

  // ----- Lines -----

  ghost predicate Plain(s: seq<int>) {
    forall i :: 0 <= i < |s| ==> s[i] != 8 && s[i] != 10 && s[i] != 13
  }

  // The cursor's place in reading order.
  function Place(d: Document): int { d.row * WIDTH + d.x }

  // The lines with a line feed between any two.
  function Text(lines: seq<seq<int>>): seq<int> {
    if lines == [] then []
    else if |lines| == 1 then lines[0]
    else Text(lines[..|lines| - 1]) + [10] + lines[|lines| - 1]
  }

  // Where line k starts when the first one starts at `at`: each further line starts
  // at column 0 of the row below the one in which the line before it ends.
  function LineStart(at: int, lines: seq<seq<int>>, k: nat): int
    requires k < |lines|
  {
    if k == 0 then at else ((LineStart(at, lines, k - 1) + |lines[k - 1]|) / 80 + 1) * 80
  }

  lemma {:induction false} LineStartOfPrefix(at: int, lines: seq<seq<int>>, n: nat, k: nat)
    requires k < n <= |lines|
    ensures LineStart(at, lines[..n], k) == LineStart(at, lines, k)
  {
    if 0 < k {
      LineStartOfPrefix(at, lines, n, k - 1);
    }
  }

  // A line lies before every later one.
  lemma {:induction false} LinesApart(at: int, lines: seq<seq<int>>, k: nat, n: nat)
    requires k < n < |lines|
    ensures LineStart(at, lines, k) + |lines[k]| <= LineStart(at, lines, n)
    decreases n
  {
    if k + 1 < n {
      LinesApart(at, lines, k, n - 1);
    }
  }

  // The cursor's row in reading order, and where a line feed and a carriage return
  // leave it.
  lemma RowOfPlace(d: Document)
    requires 0 <= d.x < WIDTH
    ensures Place(d) / 80 == d.row
    ensures Place(PutString(d, [10])) == (Place(d) / 80 + 1) * 80 && PutString(d, [10]).x == 0
    ensures Place(PutString(d, [13])) == Place(d) / 80 * 80 && PutString(d, [13]).x == 0
    ensures PutString(d, [10]).cells == PutString(d, [13]).cells == d.cells
  {
    PutStringOne(d, 10);
    PutStringOne(d, 13);
  }

  // Plain text after a control character c that leaves the cells alone.
  lemma TextAfter(d: Document, c: int, t: seq<int>)
    requires 0 <= d.x < WIDTH && Plain(t) && (c == 10 || c == 13)
    ensures var e := PutString(d, [c] + t);
            var start := if c == 10 then (Place(d) / 80 + 1) * 80 else Place(d) / 80 * 80;
            && Place(e) == start + |t| && 0 <= e.x < WIDTH
            && (forall i :: CellInOrder(e.cells, i)
                            == if start <= i < start + |t| then CellOf(t[i - start]) else CellInOrder(d.cells, i))
  {
    hide PutString, CellInOrder, CellOf;
    RowOfPlace(d);
    PutStringAppends(d, [c], t);
    var d1 := PutString(d, [c]);
    PlainTextIsPutText(d1, t);
    PutTextReadsBack(d1, t);
  }

  // After a carriage return text starts over in column 0 of the row in which the
  // text before it ends, and every other cell keeps what it had.
  lemma CarriageReturn(d: Document, s: seq<int>, t: seq<int>)
    requires 0 <= d.x < WIDTH && Plain(s) && Plain(t)
    ensures var e := PutString(d, s + [13] + t);
            var at := Place(d);
            var start := (at + |s|) / 80 * 80;
            && Place(e) == start + |t| && 0 <= e.x < WIDTH
            && (forall i :: CellInOrder(e.cells, i)
                            == if start <= i < start + |t| then CellOf(t[i - start])
                               else if at <= i < at + |s| then CellOf(s[i - at])
                               else CellInOrder(d.cells, i))
  {
    hide PutString, CellInOrder, CellOf;
    assert s + [13] + t == s + ([13] + t);
    PutStringAppends(d, s, [13] + t);
    PlainTextIsPutText(d, s);
    PutTextReadsBack(d, s);
    TextAfter(PutString(d, s), 13, t);
  }

  ghost predicate InLine(at: int, lines: seq<seq<int>>, k: nat, i: int) {
    k < |lines| && LineStart(at, lines, k) <= i < LineStart(at, lines, k) + |lines[k]|
  }

  // What lines leave on the screen of a document whose cells were those of d.
  ghost predicate ShowsLines(d: Document, cells: map<(int, int), int>, at: int, lines: seq<seq<int>>) {
    && (forall k: nat, i :: InLine(at, lines, k, i) ==> CellInOrder(cells, i) == CellOf(lines[k][i - LineStart(at, lines, k)]))
    && (forall i :: (exists k: nat :: InLine(at, lines, k, i)) || CellInOrder(cells, i) == CellInOrder(d.cells, i))
  }

  lemma OneMoreLine(d: Document, d1: Document, e: Document, at: int, lines: seq<seq<int>>)
    requires 1 < |lines|
    requires var n := |lines| - 1;
             && ShowsLines(d, d1.cells, at, lines[..n])
             && var start := LineStart(at, lines, n);
                forall i :: CellInOrder(e.cells, i)
                            == if start <= i < start + |lines[n]| then CellOf(lines[n][i - start]) else CellInOrder(d1.cells, i)
    ensures ShowsLines(d, e.cells, at, lines)
  {
    hide CellInOrder, CellOf, LineStart;
    var n := |lines| - 1;
    forall k: nat, i | InLine(at, lines, k, i)
      ensures CellInOrder(e.cells, i) == CellOf(lines[k][i - LineStart(at, lines, k)])
    {
      if k < n {
        LineStartOfPrefix(at, lines, n, k);
        LinesApart(at, lines, k, n);
        assert InLine(at, lines[..n], k, i);
      }
    }
    forall i
      ensures (exists k: nat :: InLine(at, lines, k, i)) || CellInOrder(e.cells, i) == CellInOrder(d.cells, i)
    {
      if k: nat :| InLine(at, lines[..n], k, i) {
        LineStartOfPrefix(at, lines, n, k);
        assert InLine(at, lines, k, i);
      } else if LineStart(at, lines, n) <= i < LineStart(at, lines, n) + |lines[n]| {
        assert InLine(at, lines, n, i);
      }
    }
  }

  // Any number of lines with line feeds between them: every line lies in reading order
  // from column 0 of the row below the end of the line before it, no line overwrites
  // another, every other cell keeps what it had, and the cursor follows the last one.
  lemma {:induction false} LinesReadBack(d: Document, lines: seq<seq<int>>)
    requires 0 <= d.x < WIDTH && lines != [] && forall k :: 0 <= k < |lines| ==> Plain(lines[k])
    ensures var e := PutString(d, Text(lines));
            var n := |lines| - 1;
            && Place(e) == LineStart(Place(d), lines, n) + |lines[n]| && 0 <= e.x < WIDTH
            && ShowsLines(d, e.cells, Place(d), lines)
    decreases |lines|
  {
    hide PutString, CellInOrder, CellOf, ShowsLines, Plain, Text, LineStart;
    var n, at := |lines| - 1, Place(d);
    if n == 0 {
      OneLine(d, lines);
    } else {
      var first := lines[..n];
      LinesReadBack(d, first);
      var d1 := PutString(d, Text(first));
      TextOfMore(d, lines);
      TextAfter(d1, 10, lines[n]);
      NextStart(at, lines);
      OneMoreLine(d, d1, PutString(d, Text(lines)), at, lines);
    }
  }

  lemma TextOfMore(d: Document, lines: seq<seq<int>>)
    requires 1 < |lines|
    ensures var n := |lines| - 1;
            PutString(d, Text(lines)) == PutString(PutString(d, Text(lines[..n])), [10] + lines[n])
  {
    hide PutString;
    var n := |lines| - 1;
    assert Text(lines) == Text(lines[..n]) + ([10] + lines[n]);
    PutStringAppends(d, Text(lines[..n]), [10] + lines[n]);
  }

  lemma NextStart(at: int, lines: seq<seq<int>>)
    requires 1 < |lines|
    ensures var n := |lines| - 1;
            LineStart(at, lines, n) == ((LineStart(at, lines[..n], n - 1) + |lines[n - 1]|) / 80 + 1) * 80
  {
    LineStartOfPrefix(at, lines, |lines| - 1, |lines| - 2);
  }

  lemma OneLine(d: Document, lines: seq<seq<int>>)
    requires 0 <= d.x < WIDTH && |lines| == 1 && Plain(lines[0])
    ensures var e := PutString(d, Text(lines));
            && Place(e) == LineStart(Place(d), lines, 0) + |lines[0]| && 0 <= e.x < WIDTH && ShowsLines(d, e.cells, Place(d), lines)
  {
    hide PutString, CellInOrder, CellOf;
    PlainTextIsPutText(d, lines[0]);
    PutTextReadsBack(d, lines[0]);
    var e, at := PutString(d, Text(lines)), Place(d);
    forall i
      ensures (exists k: nat :: InLine(at, lines, k, i)) || CellInOrder(e.cells, i) == CellInOrder(d.cells, i)
    {
      if at <= i < at + |lines[0]| {
        assert InLine(at, lines, 0, i);
      }
    }
  }

  // ----- Cells and the window -----

  // The cleared screen, and what rows beyond it show.
  lemma BlankIsClear()
    ensures BLANK.row == BLANK.x == BLANK.top == 0
    ensures forall r, c :: CellAt(BLANK.cells, r, c) == if r < 25 then 0x0700 else 0x0020
  {
  }

  // The low byte of a cell is the character; the high byte is light grey on black, or
  // what sign extension makes of it.
  lemma CellHoldsByte(c: int)
    requires IsByte(c)
    ensures CellOf(c) % 0x100 == c && CellOf(c) / 0x100 == if c < 0x80 then 0x07 else 0xFF
  {
  }

  // The window is moved down by the least that shows the cursor's row, never up.
  lemma WindowFollows(d: Document, row: int, x: int)
    ensures var e := MoveTo(d, row, x);
            && e.row == row && e.x == x && e.cells == d.cells
            && d.top <= e.top && row < e.top + 25
            && (d.top < e.top ==> row == e.top + 24)
  {
  }

  // A backspace in column 0 does nothing.
  lemma BackspaceAtStart(d: Document)
    requires d.x == 0
    ensures PutString(d, [8]) == d
  {
    PutStringOne(d, 8);
  }

  // The kernel's erase sequence, backspace - space - backspace, blanks the
  // character before the cursor and steps onto it.
  lemma EraseSequence(d: Document)
    requires Wellformed(d) && 0 < d.x
    ensures PutString(d, [8, 32, 8]) == d.(x := d.x - 1, cells := d.cells[(d.row, d.x - 1) := CellOf(32)])
  {
    PutStringOne(d, 8);
    PutStringAppends(d, [8], [32]);
    PutStringOne(PutString(d, [8]), 32);
    PutStringAppends(d, [8, 32], [8]);
    PutStringOne(PutString(d, [8, 32]), 8);
    hide PutString;
    assert [8] + [32] == [8, 32] && [8, 32] + [8] == [8, 32, 8];
  }

  lemma PutStringOne(d: Document, c: int)
    ensures PutString(d, [c]) == Interpret(d, c)
  {
    assert [c][..0] == [];
    assert PutString(d, []) == d;
  }
}
