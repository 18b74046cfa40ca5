/** `rows_from_text`: the scanner that turns the collected output lines into
    table rows. It drops noise, then walks the remaining lines: a line that
    starts with NAME: opens a block of six lines that gives one row, and any
    other line is skipped. */
module Scanner {
  import opened Text
  import opened Noise
  import opened Identity
  import opened Block

  /** The line prefix that opens a block. */
  const Marker: string := "NAME:"

  /** The number of lines in a block. */
  const BlockSize: nat := 6

  /** The record of a block cut short by the end of the output. */
  const ShortRecord: Record := Record(OutputError, NA, NA, NA, NA, NA, NA, NA, NA)

  /** The row for the block that starts at line `i` of `raw`. */
  function BlockRow(raw: seq<string>, i: nat): (row: seq<string>)
    requires i < |raw|
    ensures |row| == |Header|
  {
    if i + BlockSize > |raw| then Cells(ShortRecord)
    else
      var (rec, bad) := BlockOf(raw[i..i + BlockSize]);
      Cells(if bad then rec.(product := OutputError) else rec)
  }

  /** The rows the scan produces from line `i` of `raw` on. */
  function ScanFrom(raw: seq<string>, i: nat): (rows: seq<seq<string>>)
    decreases |raw| - i
    ensures forall k | 0 <= k < |rows| :: |rows[k]| == |Header|
  {
    if i >= |raw| then []
    else if !StartsWith(raw[i], Marker) then ScanFrom(raw, i + 1)
    else [BlockRow(raw, i)] + ScanFrom(raw, i + BlockSize)
  }

  /** `rows_from_text`: drop the noise lines and the trailing line feeds,
      then scan, starting from a copy of the header. */
  method RowsFromText(lines: seq<string>) returns (rows: seq<seq<string>>)
    ensures rows == [Header] + ScanFrom(Filtered(lines), 0)
    ensures |rows| >= 1 && rows[0] == Header
    ensures forall k | 0 <= k < |rows| :: |rows[k]| == |Header|
  {
    var raw := Filtered(lines);
    rows := [Header];
    var i := 0;
    var n := |raw|;
    while i < n
      invariant rows + ScanFrom(raw, i) == [Header] + ScanFrom(raw, 0)
      decreases n - i
    {
      ScanStep(raw, i);
      if !StartsWith(raw[i], Marker) {
        i := i + 1;
        continue;
      }
      var row := ReadBlock(raw, i);
      AppendRow(rows, row, ScanFrom(raw, i + BlockSize));
      rows := rows + [row];
      i := i + BlockSize;
    }
    assert ScanFrom(raw, i) == [];
    assert rows == rows + [];
  }

  /** One step of the scan at line `i`. */
  lemma ScanStep(raw: seq<string>, i: nat)
    requires i < |raw|
    ensures !StartsWith(raw[i], Marker) ==> ScanFrom(raw, i) == ScanFrom(raw, i + 1)
    ensures StartsWith(raw[i], Marker) ==> ScanFrom(raw, i) == [BlockRow(raw, i)] + ScanFrom(raw, i + BlockSize)
  {
  }

  /** Moving a row from the rows still to come to the rows built. */
  lemma AppendRow(rows: seq<seq<string>>, row: seq<string>, rest: seq<seq<string>>)
    ensures rows + ([row] + rest) == (rows + [row]) + rest
  {
  }

  /** One pass of the scan at a line that starts with NAME:: slice up to
      six lines and turn them into a row. */
  method ReadBlock(raw: seq<string>, i: nat) returns (row: seq<string>)
    requires i < |raw|
    ensures row == BlockRow(raw, i)
  {
    var block := if i + BlockSize <= |raw| then raw[i..i + BlockSize] else raw[i..];
    var rec: Record;
    if |block| != BlockSize {
      rec := ShortRecord;
    } else {
      var bad;
      rec, bad := ParseBlock(block);
      if bad {
        rec := rec.(product := OutputError);
      }
    }
    row := Cells(rec);
  }

  // ---------------------------------------------------------------------
  // Where the blocks start.
  // ---------------------------------------------------------------------

  /** The lines from `i` on at which the scan opens a block. */
  function Starts(raw: seq<string>, i: nat): (r: seq<nat>)
    decreases |raw| - i
    ensures forall k | 0 <= k < |r| :: i <= r[k] < |raw| && StartsWith(raw[r[k]], Marker)
    ensures forall k | 0 < k < |r| :: r[k - 1] + BlockSize <= r[k]
  {
    if i >= |raw| then []
    else if !StartsWith(raw[i], Marker) then Starts(raw, i + 1)
    else [i] + Starts(raw, i + BlockSize)
  }

  /** There is one row per block start. */
  lemma {:induction false} RowCount(raw: seq<string>, i: nat)
    decreases |raw| - i
    ensures |ScanFrom(raw, i)| == |Starts(raw, i)|
  {
    if i < |raw| {
      if !StartsWith(raw[i], Marker) {
        RowCount(raw, i + 1);
      } else {
        RowCount(raw, i + BlockSize);
      }
    }
  }

  /** The `k`-th row is the row of the block at the `k`-th start. */
  lemma {:induction false} RowAtStart(raw: seq<string>, i: nat, k: nat)
    requires k < |Starts(raw, i)|
    decreases |raw| - i
    ensures k < |ScanFrom(raw, i)| && ScanFrom(raw, i)[k] == BlockRow(raw, Starts(raw, i)[k])
  {
    if !StartsWith(raw[i], Marker) {
      RowAtStart(raw, i + 1, k);
    } else if k > 0 {
      RowAtStart(raw, i + BlockSize, k - 1);
      assert ([i] + Starts(raw, i + BlockSize))[k] == Starts(raw, i + BlockSize)[k - 1];
      assert ([BlockRow(raw, i)] + ScanFrom(raw, i + BlockSize))[k] == ScanFrom(raw, i + BlockSize)[k - 1];
    }
  }

  /** No line that opens a block is missed: every line from `i` on that
      starts with NAME: is a block start or lies inside the six lines of an
      earlier block. */
  lemma {:induction false} MarkersCovered(raw: seq<string>, i: nat, j: nat) returns (k: nat)
    requires i <= j < |raw| && StartsWith(raw[j], Marker)
    decreases |raw| - i
    ensures k < |Starts(raw, i)| && Starts(raw, i)[k] <= j < Starts(raw, i)[k] + BlockSize
  {
    if !StartsWith(raw[i], Marker) {
      k := MarkersCovered(raw, i + 1, j);
    } else if j >= i + BlockSize {
      var starts := Starts(raw, i + BlockSize);
      var k' := MarkersCovered(raw, i + BlockSize, j);
      assert ([i] + starts)[k' + 1] == starts[k'];
      k := k' + 1;
    } else {
      k := 0;
    }
  }

  /** A line that no block covers is skipped: a line outside every block
      window does not start with NAME:. */
  lemma SkippedLines(raw: seq<string>, j: nat)
    requires j < |raw|
    requires forall k | 0 <= k < |Starts(raw, 0)| :: !(Starts(raw, 0)[k] <= j < Starts(raw, 0)[k] + BlockSize)
    ensures !StartsWith(raw[j], Marker)
  {
    if StartsWith(raw[j], Marker) {
      var k := MarkersCovered(raw, 0, j);
    }
  }

  /** Only the last block can be cut short: every block before the last one
      has all six of its lines. */
  lemma ShortBlockIsLast(raw: seq<string>, k: nat)
    requires k + 1 < |Starts(raw, 0)|
    ensures Starts(raw, 0)[k] + BlockSize < |raw|
  {
    var r := Starts(raw, 0);
    assert r[k] + BlockSize <= r[k + 1] < |raw|;
  }

  // ---------------------------------------------------------------------
  // What each row says.
  // ---------------------------------------------------------------------

  /** A block cut short by the end of the output gives the OUTPUT-ERROR
      row with every other field "n/a"; nothing follows it. */
  lemma ShortBlockRow(raw: seq<string>, i: nat)
    requires i < |raw| && i + BlockSize > |raw| && StartsWith(raw[i], Marker)
    ensures ScanFrom(raw, i) == [Cells(ShortRecord)]
    ensures Cells(ShortRecord)[0] == OutputError
    ensures forall c | 1 <= c < |Header| :: Cells(ShortRecord)[c] == NA
  {
  }

  /** A full block whose first line fails the identity pattern gives the
      OUTPUT-ERROR row with every other field "n/a". */
  lemma UnmatchedBlockRow(raw: seq<string>, i: nat)
    requires i + BlockSize <= |raw| && MatchIdentity(raw[i]).None?
    ensures BlockRow(raw, i) == Cells(ShortRecord)
  {
    assert raw[i..i + BlockSize][0] == raw[i];
  }

  /** A full block whose identity matches but which has a line not starting
      with the node name and a colon gives product OUTPUT-ERROR, whatever
      Product: says, with the chassis fields still taken from its lines. */
  lemma MismatchedBlockRow(raw: seq<string>, i: nat, j: nat)
    requires i + BlockSize <= |raw| && MatchIdentity(raw[i]).Some?
    requires i < j < i + BlockSize && !StartsWith(raw[j], MatchIdentity(raw[i]).value.name + ":")
    ensures var block := raw[i..i + BlockSize];
      && BlockRow(raw, i)[0] == OutputError
      && BlockRow(raw, i)[1..] == Cells(BlockOf(block).0)[1..]
  {
    var block := raw[i..i + BlockSize];
    assert block[0] == raw[i] && block[j - i] == raw[j];
    MatchedBlockFlag(block, j - i);
  }

  /** A full block whose identity matches and whose lines all start with
      the node name and a colon gives the row of its record. */
  lemma CleanBlockRow(raw: seq<string>, i: nat)
    requires i + BlockSize <= |raw| && MatchIdentity(raw[i]).Some?
    requires forall j | i < j < i + BlockSize :: StartsWith(raw[j], MatchIdentity(raw[i]).value.name + ":")
    ensures BlockRow(raw, i) == Cells(BlockOf(raw[i..i + BlockSize]).0)
  {
    var block := raw[i..i + BlockSize];
    assert block[0] == raw[i];
    assert forall j | 1 <= j < |block| :: block[j] == raw[i + j];
    MatchedBlockClean(block);
  }
}
