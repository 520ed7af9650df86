/**
  The paper behind a text console: an unbounded sheet of fixed width that is
  written with the wrap rules of rust/noct-tty/src/console.rs and never
  scrolls. It knows nothing of the number of rows on the screen.
 */
module ConsoleSheet {

  /**
    Written cells, the cursor, and the row on which the last character was
    started; `seen` is what makes the screen scroll only when it must.
   */
  datatype Sheet = Sheet(cells: map<(nat, nat), char>, row: nat, column: nat, seen: nat)

  const BLANK := Sheet(map[], 0, 0, 0)

  function Cell(s: Sheet, r: nat, c: nat): char {
    if (r, c) in s.cells then s.cells[(r, c)] else '\0'
  }

  /** One character other than a tab, on a sheet `cols` wide. */
  function Type(s: Sheet, ch: char, cols: nat): Sheet {
    if ch == '\n' then s.(row := s.row + 1, column := 0, seen := s.row)
    else if ch == '\r' then s.(column := 0, seen := s.row)
    else
      var t := s.(cells := s.cells[(s.row, s.column) := ch], seen := s.row);
      if s.column + 1 >= cols then t.(row := s.row + 1, column := 0) else t.(column := s.column + 1)
  }

  /** Any character; a tab is four spaces. */
  function Write(s: Sheet, ch: char, cols: nat): Sheet {
    if ch == '\t' then Spaces(s, 4, cols) else Type(s, ch, cols)
  }

  function Spaces(s: Sheet, n: nat, cols: nat): Sheet {
    if n == 0 then s else Type(Spaces(s, n - 1, cols), ' ', cols)
  }

  function WriteAll(s: Sheet, text: string, cols: nat): Sheet {
    if text == [] then s
    else Write(WriteAll(s, text[..|text| - 1], cols), text[|text| - 1], cols)
  }

  /** Written text stays at or above the last started row, and the cursor next to it. */
  ghost predicate Sane(s: Sheet, cols: nat) {
    && s.column < cols
    && s.seen <= s.row <= s.seen + 1
    && forall r, c {:trigger (r, c) in s.cells} | (r, c) in s.cells :: r <= s.seen && c < cols
  }

  lemma TypeSane(s: Sheet, ch: char, cols: nat)
    requires Sane(s, cols)
    ensures Sane(Type(s, ch, cols), cols) && s.row <= Type(s, ch, cols).row
  {
  }

  /** The row of the sheet that a screen of `rows` rows shows at its top. */
  function Top(s: Sheet, rows: nat): nat {
    if s.seen >= rows then s.seen - rows + 1 else 0
  }

  /** How often the screen has scrolled never goes down, and one step scrolls once at most. */
  lemma TopStep(s: Sheet, ch: char, cols: nat, rows: nat)
    requires Sane(s, cols) && rows >= 1
    ensures Top(s, rows) <= Top(Type(s, ch, cols), rows) <= Top(s, rows) + 1
    ensures Top(Type(s, ch, cols), rows) == Top(s, rows) + 1 <==> s.row == Top(s, rows) + rows
    ensures s.row <= Top(s, rows) + rows
    ensures Top(s, rows) <= s.seen < Top(s, rows) + rows
  {
  }
}
