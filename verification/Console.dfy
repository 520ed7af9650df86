/**
  The text console of rust/noct-tty/src/console.rs: a fixed grid that scrolls
  lazily, at the next character after the cursor has left the last row.
 */
module Console {
  import opened ConsoleSheet

  function Index(r: nat, c: nat, cols: nat): nat {
    r * cols + c
  }

  lemma IndexBelow(r: nat, c: nat, rows: nat, cols: nat)
    requires r < rows && c < cols
    ensures Index(r, c, cols) < rows * cols
  {
    assert (r + 1) * cols <= rows * cols;
    assert (r + 1) * cols == r * cols + cols;
  }

  /** Different cells of the grid have different indices. */
  lemma IndexInjective(r: nat, c: nat, r': nat, c': nat, cols: nat)
    requires c < cols && c' < cols && Index(r, c, cols) == Index(r', c', cols)
    ensures r == r' && c == c'
  {
    if r < r' { RowsApart(r, c, r', cols); }
    if r' < r { RowsApart(r', c', r, cols); }
  }

  lemma RowsApart(r: nat, c: nat, r': nat, cols: nat)
    requires c < cols && r < r'
    ensures Index(r, c, cols) < r' * cols
  {
    assert (r + 1) * cols <= r' * cols;
    assert (r + 1) * cols == r * cols + cols;
  }

  /** The grid shows the rows of the sheet from `top` on. */
  ghost predicate Shows(data: seq<char>, s: Sheet, top: nat, rows: nat, cols: nat) {
    && |data| == rows * cols
    && forall r, c {:trigger Index(r, c, cols)} | 0 <= r < rows && 0 <= c < cols ::
         Index(r, c, cols) < |data| && data[Index(r, c, cols)] == Cell(s, top + r, c)
  }

  function Blanks(n: nat): string {
    seq(n, _ => '\0')
  }

  /** The whole grid moved up by a line, the last line blank. */
  function Scrolled(data: string, cols: nat): string
    requires cols <= |data|
  {
    data[cols..] + Blanks(cols)
  }

  /** Scrolling moves the window one row down a sheet with nothing on the row it reaches. */
  lemma ScrollShows(data: string, s: Sheet, top: nat, rows: nat, cols: nat)
    requires Shows(data, s, top, rows, cols) && rows >= 1 && cols <= |data|
    requires forall c {:trigger Cell(s, top + rows, c)} | 0 <= c < cols :: Cell(s, top + rows, c) == '\0'
    ensures Shows(Scrolled(data, cols), s, top + 1, rows, cols)
  {
    var t := Scrolled(data, cols);
    forall r, c | 0 <= r < rows && 0 <= c < cols
      ensures Index(r, c, cols) < |t| && t[Index(r, c, cols)] == Cell(s, top + 1 + r, c)
    {
      IndexBelow(r, c, rows, cols);
      IndexNext(r, c, cols);
      if r + 1 < rows {
        IndexBelow(r + 1, c, rows, cols);
      } else {
        assert Index(rows, c, cols) == rows * cols + c;
        assert Cell(s, top + rows, c) == '\0';
      }
    }
  }

  lemma IndexNext(r: nat, c: nat, cols: nat)
    ensures Index(r + 1, c, cols) == Index(r, c, cols) + cols
  {
  }

  /** Storing a character at the cursor is writing it on the sheet. */
  lemma StoreShows(data: string, s: Sheet, t: Sheet, top: nat, rows: nat, cols: nat, ch: char)
    requires Shows(data, s, top, rows, cols) && top <= s.row < top + rows && s.column < cols
    requires t.cells == s.cells[(s.row, s.column) := ch]
    ensures Index(s.row - top, s.column, cols) < |data|
    ensures Shows(data[Index(s.row - top, s.column, cols) := ch], t, top, rows, cols)
  {
    var r0, c0 := s.row - top, s.column;
    IndexBelow(r0, c0, rows, cols);
    var d := data[Index(r0, c0, cols) := ch];
    forall r, c | 0 <= r < rows && 0 <= c < cols
      ensures Index(r, c, cols) < |d| && d[Index(r, c, cols)] == Cell(t, top + r, c)
    {
      IndexBelow(r, c, rows, cols);
      if Index(r, c, cols) == Index(r0, c0, cols) { IndexInjective(r, c, r0, c0, cols); }
    }
  }

  class Console {
    const rows: nat
    const columns: nat
    const data: array<char>
    var row: nat
    var column: nat
    ghost var sheet: Sheet

    /** The screen is the window of the sheet that starts at the scroll count. */
    ghost predicate Valid()
      reads this, data
    {
      && rows >= 1 && columns >= 1
      && Sane(sheet, columns)
      && row == sheet.row - Top(sheet, rows) && column == sheet.column
      && Shows(data[..], sheet, Top(sheet, rows), rows, columns)
    }

    /** Console::new */
    constructor (r: nat, c: nat)
      requires r >= 1 && c >= 1
      ensures Valid() && fresh(data) && sheet == BLANK
      ensures rows == r && columns == c
    {
      rows, columns, row, column, sheet := r, c, 0, 0, BLANK;
      data := new char[r * c](_ => '\0');
      new;
      forall i, j | 0 <= i < r && 0 <= j < c
        ensures Index(i, j, c) < r * c
      {
        IndexBelow(i, j, r, c);
      }
    }

    /** The cursor bounds that every state of the console keeps. */
    lemma CursorInBounds()
      requires Valid()
      ensures row <= rows && column < columns
      ensures row < rows ==> Index(row, column, columns) < data.Length
    {
      TopStep(sheet, ' ', columns, rows);
      if row < rows { IndexBelow(row, column, rows, columns); }
    }

    /** scroll: copy_within, then fill */
    method Scroll()
      requires columns <= data.Length
      modifies data
      ensures data[..] == Scrolled(old(data[..]), columns)
    {
      var k := 0;
      while k < data.Length - columns
        invariant 0 <= k <= data.Length - columns
        invariant forall j | 0 <= j < k :: data[j] == old(data[j + columns])
        invariant forall j | k <= j < data.Length :: data[j] == old(data[j])
      {
        data[k] := data[k + columns];
        k := k + 1;
      }
      while k < data.Length
        invariant data.Length - columns <= k <= data.Length
        invariant forall j | 0 <= j < data.Length - columns :: data[j] == old(data[j + columns])
        invariant forall j | data.Length - columns <= j < k :: data[j] == '\0'
      {
        data[k] := '\0';
        k := k + 1;
      }
    }

    method MoveRight()
      modifies this`row, this`column
      ensures if old(column) + 1 >= columns then column == 0 && row == old(row) + 1
              else column == old(column) + 1 && row == old(row)
    {
      column := column + 1;
      if column >= columns {
        column := 0;
        row := row + 1;
      }
    }

    /** The first test of print_char, with the sheet's top moved along. */
    method ScrollIfNeeded()
      requires Valid()
      modifies this`row, this`sheet, data
      ensures Valid() && sheet == old(sheet).(seen := old(sheet).row)
      ensures row < rows && column == old(column)
    {
      TopStep(sheet, ' ', columns, rows);
      if row >= rows {
        ghost var top := Top(sheet, rows);
        GridHoldsLine(rows, columns);
        ScrollShows(data[..], sheet, top, rows, columns);
        Scroll();
        row := rows - 1;
      }
      sheet := sheet.(seen := sheet.row);
    }

    /** print_char for anything but a backspace. */
    method PrintChar(ch: char)
      requires Valid() && ch as int != 8
      modifies this`row, this`column, this`sheet, data
      ensures Valid() && sheet == Write(old(sheet), ch, columns)
      decreases if ch == '\t' then 2 else 0
    {
      if ch == '\t' {
        PrintTab();
        return;
      }
      ghost var s := sheet;
      TypeSane(s, ch, columns);
      ScrollIfNeeded();
      if ch == '\n' {
        column := 0;
        row := row + 1;
        sheet := Type(s, ch, columns);
      } else if ch == '\r' {
        column := 0;
        sheet := Type(s, ch, columns);
      } else {
        Store(ch, s);
      }
    }

    /** The store of print_char and the move to the right. */
    method Store(ch: char, ghost s: Sheet)
      requires Valid() && row < rows && ch !in {'\n', '\r'} && Sane(s, columns)
      requires sheet == s.(seen := s.row)
      modifies this`row, this`column, this`sheet, data
      ensures Valid() && sheet == Type(s, ch, columns)
    {
      ghost var t := Type(s, ch, columns);
      TypeSane(s, ch, columns);
      StoreShows(data[..], sheet, t, Top(sheet, rows), rows, columns, ch);
      data[Index(row, column, columns)] := ch;
      MoveRight();
      sheet := t;
    }

    /** The tab of print_char: the scroll test, then four spaces. */
    method PrintTab()
      requires Valid()
      modifies this`row, this`column, this`sheet, data
      ensures Valid() && sheet == Write(old(sheet), '\t', columns)
      decreases 1
    {
      ghost var s := sheet;
      ScrollIfNeeded();
      var n := 0;
      while n < 4
        invariant n <= 4 && Valid()
        invariant sheet == if n == 0 then s.(seen := s.row) else Spaces(s, n, columns)
      {
        PrintChar(' ');
        n := n + 1;
      }
    }

    /** print_str on text without escape sequences and backspaces. */
    method PrintStr(text: string)
      requires Valid()
      requires forall k | 0 <= k < |text| :: text[k] as int != 8 && text[k] as int != 27
      modifies this`row, this`column, this`sheet, data
      ensures Valid() && sheet == WriteAll(old(sheet), text, columns)
    {
      var k := 0;
      while k < |text|
        invariant k <= |text| && Valid()
        invariant sheet == WriteAll(old(sheet), text[..k], columns)
      {
        PrintChar(text[k]);
        assert text[..k + 1][..k] == text[..k];
        k := k + 1;
      }
      assert text[..k] == text;
    }
  }

  lemma GridHoldsLine(rows: nat, cols: nat)
    requires rows >= 1
    ensures cols <= rows * cols
  {
    assert rows * cols == (rows - 1) * cols + cols;
  }

  predicate Printable(text: string) {
    forall k | 0 <= k < |text| :: text[k] !in {'\n', '\r', '\t'}
  }

  /** Text without control characters fills the sheet line by line from the cursor on, and nothing else. */
  lemma {:induction false} PrintableLayout(from: Sheet, text: string, cols: nat, r: nat, c: nat)
    requires Printable(text) && from.column < cols && c < cols
    ensures var s, base := WriteAll(from, text, cols), Index(from.row, from.column, cols);
            && s.column < cols && Index(s.row, s.column, cols) == base + |text|
            && Cell(s, r, c) == if base <= Index(r, c, cols) < base + |text| then text[Index(r, c, cols) - base]
                                else Cell(from, r, c)
    decreases |text|
  {
    if text != [] {
      var n := |text| - 1;
      var front := text[..n];
      PrintableLayout(from, front, cols, r, c);
      var s := WriteAll(from, front, cols);
      assert text[n] !in {'\n', '\r', '\t'};
      IndexNext(s.row, 0, cols);
      if Index(r, c, cols) == Index(s.row, s.column, cols) { IndexInjective(r, c, s.row, s.column, cols); }
    }
  }

  lemma {:induction false} WriteJoined(s: Sheet, a: string, b: string, cols: nat)
    ensures WriteAll(s, a + b, cols) == WriteAll(WriteAll(s, a, cols), b, cols)
    decreases |b|
  {
    if b == [] {
      assert a + b == a;
    } else {
      var n := |b| - 1;
      WriteJoined(s, a, b[..n], cols);
      assert (a + b)[..|a| + n] == a + b[..n];
    }
  }

  lemma WriteOne(s: Sheet, a: string, ch: char, b: string, cols: nat)
    ensures WriteAll(s, a + [ch] + b, cols) == WriteAll(Write(WriteAll(s, a, cols), ch, cols), b, cols)
  {
    WriteJoined(s, a + [ch], b, cols);
    assert (a + [ch])[..|a|] == a;
  }

  /** The row and the column that k characters from the beginning of a row lead to. */
  function Down(k: nat, cols: nat): nat
    requires cols >= 1
  {
    k / cols
  }

  function Across(k: nat, cols: nat): (c: nat)
    requires cols >= 1
    ensures c < cols
  {
    k % cols
  }

  lemma PlaceInRow(first: nat, k: nat, cols: nat)
    requires cols >= 1
    ensures Index(first + Down(k, cols), Across(k, cols), cols) == Index(first, 0, cols) + k
  {
    assert k == (k / cols) * cols + k % cols;
    assert (first + k / cols) * cols == first * cols + (k / cols) * cols;
  }

  /** The text stands on the sheet from the beginning of row `first` on. */
  ghost predicate StandsAt(s: Sheet, first: nat, text: string, cols: nat)
    requires cols >= 1
  {
    forall k | 0 <= k < |text| :: Cell(s, first + Down(k, cols), Across(k, cols)) == text[k]
  }

  lemma RowText(from: Sheet, text: string, cols: nat)
    requires Printable(text) && from.column == 0 && cols >= 1
    ensures StandsAt(WriteAll(from, text, cols), from.row, text, cols)
  {
    forall k | 0 <= k < |text|
      ensures Cell(WriteAll(from, text, cols), from.row + Down(k, cols), Across(k, cols)) == text[k]
    {
      PlaceInRow(from.row, k, cols);
      PrintableLayout(from, text, cols, from.row + Down(k, cols), Across(k, cols));
    }
  }

  lemma RowEnd(from: Sheet, text: string, cols: nat)
    requires Printable(text) && from.column == 0 && cols >= 1
    ensures var s := WriteAll(from, text, cols);
            s.row == from.row + Down(|text|, cols) && s.column == Across(|text|, cols)
  {
    var s := WriteAll(from, text, cols);
    PlaceInRow(from.row, |text|, cols);
    PrintableLayout(from, text, cols, 0, 0);
    IndexInjective(s.row, s.column, from.row + Down(|text|, cols), Across(|text|, cols), cols);
  }

  /** Rows above the text and columns behind a short one are kept. */
  lemma RowKept(from: Sheet, text: string, cols: nat, r: nat, c: nat)
    requires Printable(text) && from.column == 0 && c < cols
    requires r < from.row || (|text| <= c && r == from.row)
    ensures Cell(WriteAll(from, text, cols), r, c) == Cell(from, r, c)
  {
    PrintableLayout(from, text, cols, r, c);
    if r < from.row { RowsApart(r, c, from.row, cols); }
  }

  lemma DownGrows(k: nat, n: nat, cols: nat)
    requires k <= n && cols >= 1
    ensures Down(k, cols) <= Down(n, cols)
  {
    PlaceInRow(0, k, cols);
    PlaceInRow(0, n, cols);
    if Down(n, cols) < Down(k, cols) { RowsApart(Down(n, cols), Across(n, cols), Down(k, cols), cols); }
  }

  /** Of a text that stood from row 0 on, what is above the new text or behind it in its one row is kept. */
  lemma TextKept(from: Sheet, a: string, b: string, cols: nat, k: nat)
    requires Printable(b) && cols >= 1 && from.column == 0 && k < |a| && StandsAt(from, 0, a, cols)
    requires Down(|a|, cols) <= from.row && (Down(k, cols) < from.row || |b| <= Across(k, cols))
    ensures Cell(WriteAll(from, b, cols), Down(k, cols), Across(k, cols)) == a[k]
  {
    DownGrows(k, |a|, cols);
    RowKept(from, b, cols, Down(k, cols), Across(k, cols));
    assert Cell(from, 0 + Down(k, cols), Across(k, cols)) == a[k];
  }

  /** After a control character that leads to column 0 of a row: the new text there, the old text elsewhere. */
  lemma TwoTexts(from: Sheet, a: string, b: string, cols: nat)
    requires Printable(b) && cols >= 1 && from.column == 0
    requires StandsAt(from, 0, a, cols) && Down(|a|, cols) <= from.row
    ensures var s := WriteAll(from, b, cols);
            && StandsAt(s, from.row, b, cols)
            && (forall k | 0 <= k < |a| && (Down(k, cols) < from.row || |b| <= Across(k, cols)) ::
                  Cell(s, Down(k, cols), Across(k, cols)) == a[k])
            && s.row == from.row + Down(|b|, cols) && s.column == Across(|b|, cols)
  {
    RowText(from, b, cols);
    RowEnd(from, b, cols);
    forall k | 0 <= k < |a| && (Down(k, cols) < from.row || |b| <= Across(k, cols))
      ensures Cell(WriteAll(from, b, cols), Down(k, cols), Across(k, cols)) == a[k]
    {
      TextKept(from, a, b, cols, k);
    }
  }

  lemma TextAbove(from: Sheet, a: string, b: string, cols: nat)
    requires Printable(b) && cols >= 1 && from.column == 0
    requires StandsAt(from, 0, a, cols) && Down(|a|, cols) < from.row
    ensures StandsAt(WriteAll(from, b, cols), 0, a, cols)
  {
    forall k | 0 <= k < |a|
      ensures Cell(WriteAll(from, b, cols), 0 + Down(k, cols), Across(k, cols)) == a[k]
    {
      DownGrows(k, |a|, cols);
      TextKept(from, a, b, cols, k);
    }
  }

  /** Where a control character behind a line of text leads. */
  lemma AfterControl(a: string, ch: char, cols: nat)
    requires Printable(a) && cols >= 1 && (ch == '\n' || ch == '\r')
    ensures var from := Write(WriteAll(BLANK, a, cols), ch, cols);
            && StandsAt(from, 0, a, cols) && from.column == 0
            && from.row == Down(|a|, cols) + if ch == '\n' then 1 else 0
  {
    RowText(BLANK, a, cols);
    RowEnd(BLANK, a, cols);
    assert Write(WriteAll(BLANK, a, cols), ch, cols).cells == WriteAll(BLANK, a, cols).cells;
  }

  /** After a newline text goes on at the beginning of the next row, and the text before it stays. */
  lemma NewlineLayout(a: string, b: string, cols: nat)
    requires Printable(a) && Printable(b) && cols >= 1
    ensures var s, first := WriteAll(BLANK, a + ['\n'] + b, cols), Down(|a|, cols) + 1;
            && StandsAt(s, 0, a, cols) && StandsAt(s, first, b, cols)
            && s.row == first + Down(|b|, cols) && s.column == Across(|b|, cols)
  {
    var from := Write(WriteAll(BLANK, a, cols), '\n', cols);
    AfterControl(a, '\n', cols);
    TwoTexts(from, a, b, cols);
    TextAbove(from, a, b, cols);
    WriteOne(BLANK, a, '\n', b, cols);
  }

  /** After a carriage return text overprints the row from its beginning, and the rest of the row stays. */
  lemma CarriageReturnLayout(a: string, b: string, cols: nat)
    requires Printable(a) && Printable(b) && cols >= 1
    ensures var s, first := WriteAll(BLANK, a + ['\r'] + b, cols), Down(|a|, cols);
            && StandsAt(s, first, b, cols)
            && (forall k | 0 <= k < |a| && (Down(k, cols) < first || |b| <= Across(k, cols)) ::
                  Cell(s, Down(k, cols), Across(k, cols)) == a[k])
            && s.row == first + Down(|b|, cols) && s.column == Across(|b|, cols)
  {
    var from := Write(WriteAll(BLANK, a, cols), '\r', cols);
    AfterControl(a, '\r', cols);
    TwoTexts(from, a, b, cols);
    WriteOne(BLANK, a, '\r', b, cols);
  }

  lemma WriteSpaces(s: Sheet, text: string, cols: nat)
    requires forall k | 0 <= k < |text| :: text[k] == ' '
    ensures WriteAll(s, text, cols) == Spaces(s, |text|, cols)
    decreases |text|
  {
    if text != [] {
      WriteSpaces(s, text[..|text| - 1], cols);
    }
  }

  /** A tab is four spaces wherever it stands. */
  lemma TabLayout(s: Sheet, a: string, b: string, cols: nat)
    ensures WriteAll(s, a + "\t" + b, cols) == WriteAll(s, a + "    " + b, cols)
  {
    var spaces := "    ";
    WriteOne(s, a, '\t', b, cols);
    WriteJoined(s, a + spaces, b, cols);
    WriteJoined(s, a, spaces, cols);
    WriteSpaces(WriteAll(s, a, cols), spaces, cols);
  }
}
