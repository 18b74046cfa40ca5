/** `format_columns`: the aligned text table. Column `c` is as wide as its
    widest cell, every cell is padded on the right to its column's width,
    and the cells of a row are joined by two spaces, one row per line. */
module Format {
  import opened Text

  /** The separator between two cells of a line. */
  const Gap: string := "  "

  /** Every row has as many cells as the first, which `format_columns`
      needs: the first row fixes the number of columns, and a shorter or a
      longer row would index past a row or past the widths. */
  predicate Rectangular(rows: seq<seq<string>>) {
    |rows| >= 1 && forall k | 0 <= k < |rows| :: |rows[k]| == |rows[0]|
  }

  /** `max(len(row[c]) for row in rows)`. */
  function ColumnWidth(rows: seq<seq<string>>, c: nat): (w: nat)
    requires |rows| >= 1 && forall k | 0 <= k < |rows| :: c < |rows[k]|
    ensures forall k | 0 <= k < |rows| :: |rows[k][c]| <= w
    ensures exists k | 0 <= k < |rows| :: |rows[k][c]| == w
  {
    if |rows| == 1 then |rows[0][c]|
    else
      var rest := ColumnWidth(rows[1..], c);
      assert forall k | 1 <= k < |rows| :: rows[1..][k - 1] == rows[k];
      if |rows[0][c]| >= rest then |rows[0][c]| else rest
  }

  /** The list `widths`: each column's width is the length of its longest cell. */
  function Widths(rows: seq<seq<string>>): (ws: seq<nat>)
    requires Rectangular(rows)
    ensures |ws| == |rows[0]|
    ensures forall c, k | 0 <= c < |ws| && 0 <= k < |rows| :: |rows[k][c]| <= ws[c]
  {
    seq(|rows[0]|, c requires 0 <= c < |rows[0]| => ColumnWidth(rows, c))
  }

  /** Each column is exactly as wide as its widest cell: no cell of column
      `c` is wider than `Widths(rows)[c]`, and the cell of row `k` is that wide. */
  lemma WidthIsMax(rows: seq<seq<string>>, c: nat) returns (k: nat)
    requires Rectangular(rows) && c < |rows[0]|
    ensures forall j | 0 <= j < |rows| :: |rows[j][c]| <= Widths(rows)[c]
    ensures k < |rows| && |rows[k][c]| == Widths(rows)[c]
  {
    var w := ColumnWidth(rows, c);
    assert Widths(rows)[c] == w;
    k :| 0 <= k < |rows| && |rows[k][c]| == w;
  }

  /** `cell.ljust(w)`: the cell followed by spaces up to width `w`; a cell
      already that wide is left as it is. */
  function PadRight(cell: string, w: nat): (r: string)
    ensures |r| == if |cell| < w then w else |cell|
    ensures r[..|cell|] == cell
    ensures forall t | |cell| <= t < |r| :: r[t] == ' '
  {
    if |cell| < w then cell + seq(w - |cell|, _ => ' ') else cell
  }

  /** The padded cells of a row. */
  function Padded(row: seq<string>, ws: seq<nat>): (cells: seq<string>)
    requires |row| == |ws|
    ensures |cells| == |row|
    ensures forall c | 0 <= c < |row| :: cells[c] == PadRight(row[c], ws[c])
  {
    seq(|row|, c requires 0 <= c < |row| => PadRight(row[c], ws[c]))
  }

  /** One line of the table. */
  function FormatLine(row: seq<string>, ws: seq<nat>): string
    requires |row| == |ws|
  {
    JoinWith(Padded(row, ws), Gap)
  }

  /** The lines of the table, one per row. */
  function Lines(rows: seq<seq<string>>): (lines: seq<string>)
    requires Rectangular(rows)
    ensures |lines| == |rows|
  {
    var ws := Widths(rows);
    seq(|rows|, k requires 0 <= k < |rows| => FormatLine(rows[k], ws))
  }

  /** `format_columns`: the lines joined by line feeds, one line feed
      between each two lines. */
  function FormatColumns(rows: seq<seq<string>>): (r: string)
    requires Rectangular(rows)
    ensures |r| == TotalLength(Lines(rows)) + |rows| - 1
  {
    JoinLength(Lines(rows), "\n");
    JoinWith(Lines(rows), "\n")
  }

  // ---------------------------------------------------------------------
  // Properties.
  // ---------------------------------------------------------------------

  /** The sum of some widths. */
  function Sum(ws: seq<nat>): nat {
    if ws == [] then 0 else ws[0] + Sum(ws[1..])
  }

  /** Strings of the given lengths have the sum of those lengths in total. */
  lemma {:induction false} TotalOfLengths(parts: seq<string>, ws: seq<nat>)
    requires |parts| == |ws| && forall j | 0 <= j < |ws| :: |parts[j]| == ws[j]
    ensures TotalLength(parts) == Sum(ws)
  {
    if ws != [] {
      TotalOfLengths(parts[1..], ws[1..]);
    }
  }

  /** Padded to the table's widths, every cell is exactly as wide as its column. */
  lemma PaddedWidths(rows: seq<seq<string>>, k: nat)
    requires Rectangular(rows) && k < |rows|
    ensures forall c | 0 <= c < |rows[0]| :: |Padded(rows[k], Widths(rows))[c]| == Widths(rows)[c]
  {
  }

  /** Every line is as long as the column widths together plus two spaces
      between each two columns, so all lines have the same length. */
  lemma LineLength(rows: seq<seq<string>>, k: nat)
    requires Rectangular(rows) && k < |rows| && |rows[0]| >= 1
    ensures |Lines(rows)[k]| == Sum(Widths(rows)) + |Gap| * (|rows[0]| - 1)
  {
    var ws := Widths(rows);
    var cells := Padded(rows[k], ws);
    PaddedWidths(rows, k);
    JoinLength(cells, Gap);
    TotalOfLengths(cells, ws);
  }

  /** A padded cell found in a line: the cell, then spaces. */
  lemma PaddedIn(line: string, off: nat, cell: string, w: nat)
    requires |cell| <= w && off + w <= |line| && line[off..off + w] == PadRight(cell, w)
    ensures line[off..off + |cell|] == cell
    ensures forall t | off + |cell| <= t < off + w :: line[t] == ' '
  {
    var padded := PadRight(cell, w);
    assert line[off..off + |cell|] == padded[..|cell|];
    forall t | off + |cell| <= t < off + w
      ensures line[t] == ' '
    {
      assert line[t] == padded[t - off];
    }
  }

  /** Where piece `c` lies in a line of pieces of the given widths joined by
      the gap. */
  lemma PieceIn(line: string, cells: seq<string>, ws: seq<nat>, c: nat) returns (off: nat)
    requires line == JoinWith(cells, Gap)
    requires |cells| == |ws| && c < |cells|
    requires forall j | 0 <= j < |cells| :: |cells[j]| == ws[j]
    ensures off == Sum(ws[..c]) + |Gap| * c
    ensures off + ws[c] <= |line| && line[off..off + ws[c]] == cells[c]
    ensures c + 1 < |cells| ==> off + ws[c] + |Gap| <= |line| && line[off + ws[c]..off + ws[c] + |Gap|] == Gap
  {
    assert forall j | 0 <= j < c :: |cells[..c][j]| == ws[..c][j];
    TotalOfLengths(cells[..c], ws[..c]);
    off := JoinAt(cells, Gap, c);
  }

  /** Where a cell lies in a line padded to widths no narrower than the cells. */
  lemma PlaceCell(row: seq<string>, ws: seq<nat>, c: nat) returns (off: nat)
    requires |row| == |ws| && c < |row|
    requires forall j | 0 <= j < |row| :: |row[j]| <= ws[j]
    ensures off == Sum(ws[..c]) + |Gap| * c
    ensures off + ws[c] <= |FormatLine(row, ws)|
    ensures FormatLine(row, ws)[off..off + |row[c]|] == row[c]
    ensures forall t | off + |row[c]| <= t < off + ws[c] :: FormatLine(row, ws)[t] == ' '
    ensures c + 1 < |row| ==> off + ws[c] + |Gap| <= |FormatLine(row, ws)|
    ensures c + 1 < |row| ==> FormatLine(row, ws)[off + ws[c]..off + ws[c] + |Gap|] == Gap
  {
    var cells := Padded(row, ws);
    var line := FormatLine(row, ws);
    off := PieceIn(line, cells, ws, c);
    PaddedIn(line, off, row[c], ws[c]);
  }

  /** Where a cell lies in its line: cell `c` of row `k` starts at `off`,
      after the widths of the columns before it and two spaces after each,
      is followed by spaces up to its column's width, and then by the
      two-space gap unless it is in the last column. */
  lemma CellAt(rows: seq<seq<string>>, k: nat, c: nat) returns (off: nat)
    requires Rectangular(rows) && k < |rows| && c < |rows[0]|
    ensures off == Sum(Widths(rows)[..c]) + |Gap| * c
    ensures off + Widths(rows)[c] <= |Lines(rows)[k]|
    ensures Lines(rows)[k][off..off + |rows[k][c]|] == rows[k][c]
    ensures forall t | off + |rows[k][c]| <= t < off + Widths(rows)[c] :: Lines(rows)[k][t] == ' '
    ensures c + 1 < |rows[0]| ==> off + Widths(rows)[c] + |Gap| <= |Lines(rows)[k]|
    ensures c + 1 < |rows[0]| ==> Lines(rows)[k][off + Widths(rows)[c]..off + Widths(rows)[c] + |Gap|] == Gap
  {
    var ws := Widths(rows);
    var line := Lines(rows)[k];
    assert line == FormatLine(rows[k], ws);
    assert forall j | 0 <= j < |rows[k]| :: |rows[k][j]| <= ws[j];
    off := PlaceCell(rows[k], ws, c);
    assert line[off..off + |rows[k][c]|] == rows[k][c];
  }

  /** A cell may hold no line feed, and then no line does. */
  lemma LineLacksNewline(rows: seq<seq<string>>, k: nat)
    requires Rectangular(rows) && k < |rows|
    requires forall c | 0 <= c < |rows[k]| :: '\n' !in rows[k][c]
    ensures '\n' !in Lines(rows)[k]
  {
    var cells := Padded(rows[k], Widths(rows));
    assert forall c | 0 <= c < |cells| :: '\n' !in cells[c];
    JoinLacks(cells, Gap, '\n');
  }

  /** When no cell holds a line feed, the output splits back into exactly
      one line per row, in the order of the rows. */
  lemma OneLinePerRow(rows: seq<seq<string>>)
    requires Rectangular(rows)
    requires forall k, c | 0 <= k < |rows| && 0 <= c < |rows[k]| :: '\n' !in rows[k][c]
    ensures Split(FormatColumns(rows), '\n') == Lines(rows)
  {
    forall k | 0 <= k < |rows|
      ensures '\n' !in Lines(rows)[k]
    {
      LineLacksNewline(rows, k);
    }
    SplitJoin(Lines(rows), '\n');
  }
}
