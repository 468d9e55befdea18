/**
 * The fill of the "答题说明" (answering instructions) column: find the first
 * header naming it, bound the rows by the last one holding data in another
 * column, forward-fill blank instruction cells above that bound, then cut the
 * grid down to the bound and every row down to the header's width.
 *
 * The grid is the processor's list of rows: the outer list is an array whose
 * rows the fill replaces one by one (padding and writing a cell), and the
 * returned grid is a new sequence of row prefixes.
 */
module InstructionFill {
  import opened Text

  type Grid = seq<seq<string>>

  /** The marker searched for, by substring, in the header row. */
  const Marker: string := "答题说明"

  function Min(a: int, b: int): int { if a <= b then a else b }
  function Max(a: int, b: int): int { if a >= b then a else b }

  // ---------------------------------------------------------------------------
  // Specification

  /** The first header that contains Marker, or -1 when none does. */
  function InstructionColumn(header: seq<string>): (col: int)
    ensures -1 <= col < |header|
    ensures col == -1 <==> forall j :: 0 <= j < |header| ==> !Contains(header[j], Marker)
    ensures col >= 0 ==> Contains(header[col], Marker) && forall j :: 0 <= j < col ==> !Contains(header[j], Marker)
  {
    if |header| == 0 then -1
    else if Contains(header[0], Marker) then 0
    else
      var c := InstructionColumn(header[1..]);
      assert forall j :: 1 <= j < |header| ==> header[j] == header[1..][j - 1];
      if c == -1 then -1 else c + 1
  }

  /** Cell `col` of a row, "" where the row is too short to have one. */
  function Cell(row: seq<string>, col: nat): string {
    if col < |row| then row[col] else ""
  }

  /** The row holds a non-blank cell outside the instructions column. */
  predicate HasData(row: seq<string>, col: nat) {
    exists j :: 0 <= j < |row| && j != col && !IsBlank(row[j])
  }

  /** The 1-based index of the last of the first n rows that has data, 0 when none has. */
  function LastDataRow(g: Grid, col: nat, n: nat): (m: nat)
    requires n <= |g|
    ensures m <= n
    ensures m > 0 ==> HasData(g[m - 1], col)
    ensures forall k :: m <= k < n ==> !HasData(g[k], col)
  {
    if n == 0 then 0
    else if HasData(g[n - 1], col) then n
    else LastDataRow(g, col, n - 1)
  }

  /**
   * The row bound: the 1-based index of the last row holding a non-blank
   * cell outside the instructions column (header row included), or the
   * whole grid's length when there is none.
   */
  function RowBound(g: Grid, col: nat): (b: nat)
    ensures b <= |g|
    ensures (exists k :: 0 <= k < |g| && HasData(g[k], col)) ==>
              0 < b && HasData(g[b - 1], col) && forall k :: b <= k < |g| ==> !HasData(g[k], col)
    ensures (forall k :: 0 <= k < |g| ==> !HasData(g[k], col)) ==> b == |g|
  {
    var m := LastDataRow(g, col, |g|);
    if m == 0 then |g| else m
  }

  /**
   * The instruction in force at row i: the most recent non-blank
   * instructions cell among data rows 1 .. i - 1, or "" when all are blank.
   */
  function LastInstruction(g: Grid, col: nat, i: nat): (v: string)
    requires i <= |g|
    ensures v == "" || !IsBlank(v)
  {
    if i <= 1 then ""
    else if !IsBlank(Cell(g[i - 1], col)) then Cell(g[i - 1], col)
    else LastInstruction(g, col, i - 1)
  }

  /**
   * There is no instruction in force at row i exactly when every instructions
   * cell of rows 1 .. i - 1 is blank; otherwise it is the cell of the latest
   * of those rows whose instructions cell is non-blank.
   */
  lemma {:induction false} LastInstructionSpec(g: Grid, col: nat, i: nat)
    requires i <= |g|
    ensures var v := LastInstruction(g, col, i);
            && (v == "" <==> forall k :: 1 <= k < i ==> IsBlank(Cell(g[k], col)))
            && (v != "" ==> exists k :: 1 <= k < i && v == Cell(g[k], col)
                                        && forall j :: k < j < i ==> IsBlank(Cell(g[j], col)))
  {
    if i > 1 {
      var c := Cell(g[i - 1], col);
      if IsBlank(c) {
        LastInstructionSpec(g, col, i - 1);
      } else {
        assert c != "";
      }
    }
  }

  /** The row extended with "" cells until it has a cell at index col. */
  function Pad(row: seq<string>, col: nat): (r: seq<string>)
    ensures |r| == Max(|row|, col + 1)
    ensures forall j :: 0 <= j < |r| ==> r[j] == Cell(row, j)
  {
    if |row| > col then row else row + seq(col + 1 - |row|, _ => "")
  }

  /** Data row i once filled: padded, and its blank instructions cell replaced by the instruction in force. */
  function FilledRow(g: Grid, col: nat, i: nat): seq<string>
    requires 1 <= i < |g|
  {
    var row := Pad(g[i], col);
    var last := LastInstruction(g, col, i);
    if !IsBlank(row[col]) || last == "" then row else row[col := last]
  }

  /** The grid with data rows 1 .. b - 1 filled and every other row as it was. */
  function ForwardFilled(g: Grid, col: nat, b: nat): (h: Grid)
  {
    seq(|g|, i requires 0 <= i < |g| => if 1 <= i < b then FilledRow(g, col, i) else g[i])
  }

  /** Filling one more row changes that row alone. */
  lemma ForwardFilledStep(g: Grid, col: nat, i: nat)
    requires 1 <= i < |g|
    ensures ForwardFilled(g, col, i + 1) == ForwardFilled(g, col, i)[i := FilledRow(g, col, i)]
  {
  }

  /** The first b rows, each cut to at most `width` cells. */
  function Truncated(g: Grid, b: nat, width: nat): Grid
    requires b <= |g|
  {
    seq(b, i requires 0 <= i < b => g[i][..Min(|g[i]|, width)])
  }

  /** Filling rows that the fill would not change leaves the grid as it is. */
  lemma ForwardFilledFixed(g: Grid, col: nat, b: nat)
    requires forall i :: 1 <= i < b && i < |g| ==> FilledRow(g, col, i) == g[i]
    ensures ForwardFilled(g, col, b) == g
  {
  }

  /** The instruction in force after row i: row i's own instruction when non-blank, the one before it otherwise. */
  lemma LastInstructionStep(g: Grid, col: nat, i: nat)
    requires 1 <= i < |g|
    ensures LastInstruction(g, col, i + 1)
            == if !IsBlank(Cell(g[i], col)) then Cell(g[i], col) else LastInstruction(g, col, i)
  {
  }

  /** Cutting rows no wider than `width` to `width` cells leaves them as they are. */
  lemma TruncatedNoOp(g: Grid, width: nat)
    requires forall i :: 0 <= i < |g| ==> |g[i]| <= width
    ensures Truncated(g, |g|, width) == g
  {
    forall i | 0 <= i < |g| ensures Truncated(g, |g|, width)[i] == g[i] {
      assert g[i][..|g[i]|] == g[i];
    }
  }

  /** The fill's result once the instructions column `col` is known: fill up to the bound, then cut. */
  function FillAt(g: Grid, col: nat): Grid
    requires |g| > 0
  {
    var b := RowBound(g, col);
    Truncated(ForwardFilled(g, col, b), b, |g[0]|)
  }

  /** The grid the fill returns. */
  function Fill(g: Grid): Grid {
    if |g| < 2 then g
    else
      var col := InstructionColumn(g[0]);
      if col == -1 then g else FillAt(g, col)
  }

  /** The caller's grid after the fill: the fill pads and writes rows of its argument in place. */
  function FillEffect(g: Grid): Grid {
    if |g| < 2 then g
    else
      var col := InstructionColumn(g[0]);
      if col == -1 then g else ForwardFilled(g, col, RowBound(g, col))
  }

  // ---------------------------------------------------------------------------
  // Properties

  /** A grid of fewer than two rows, or one whose header names no instructions column, comes back unchanged. */
  lemma FillNoOp(g: Grid)
    requires |g| < 2 || forall j :: 0 <= j < |g[0]| ==> !Contains(g[0][j], Marker)
    ensures Fill(g) == g && FillEffect(g) == g
  {
  }

  /** The row bound of a grid of two or more rows is at least 1. */
  lemma RowBoundPositive(g: Grid, col: nat)
    requires |g| >= 2
    ensures RowBound(g, col) >= 1
  {
    if LastDataRow(g, col, |g|) == 0 {
      assert RowBound(g, col) == |g|;
    }
  }

  /** Row i of FillAt: the input row, filled when it is a data row below the bound, cut to the header's width. */
  lemma FillAtRow(g: Grid, col: nat, i: nat)
    requires |g| > 0 && i < RowBound(g, col)
    ensures |FillAt(g, col)| == RowBound(g, col)
    ensures FillAt(g, col)[i] == (if i == 0 then g[0] else FilledRow(g, col, i))[..Min(|if i == 0 then g[0] else FilledRow(g, col, i)|, |g[0]|)]
  {
  }

  /**
   * The shape of the fill's result when the header names an instructions
   * column: as many rows as the row bound (at least the header), the header
   * row as it was, and no row wider than the header.
   */
  lemma FillShape(g: Grid, col: nat)
    requires |g| >= 2 && InstructionColumn(g[0]) == col
    ensures var r := Fill(g);
            && |r| == RowBound(g, col) >= 1
            && r[0] == g[0]
            && forall i :: 0 <= i < |r| ==> |r[i]| <= |g[0]|
  {
    RowBoundPositive(g, col);
    FillAtRow(g, col, 0);
  }

  /**
   * Data row i of the fill's result: the input row padded to reach the
   * instructions column and cut to the header's width; its other cells as
   * they were; its instructions cell kept when non-blank and otherwise
   * replaced by the instruction in force, when there is one.
   */
  lemma FillRow(g: Grid, col: nat, i: nat)
    requires |g| >= 2 && InstructionColumn(g[0]) == col
    requires 1 <= i < RowBound(g, col)
    ensures var row := Fill(g)[i];
            && |row| == Min(Max(|g[i]|, col + 1), |g[0]|) && col < |row|
            && (forall j :: 0 <= j < |row| && j != col ==> row[j] == Cell(g[i], j))
            && row[col] == if !IsBlank(Cell(g[i], col)) || LastInstruction(g, col, i) == ""
                           then Cell(g[i], col) else LastInstruction(g, col, i)
  {
    FillAtRow(g, col, i);
  }

  /** The instruction in force is the same in the fill's output as in its input, up to the bound. */
  lemma {:induction false} LastInstructionPreserved(g: Grid, col: nat, i: nat)
    requires |g| >= 2 && InstructionColumn(g[0]) == col
    requires i <= RowBound(g, col)
    ensures i <= |Fill(g)| && LastInstruction(Fill(g), col, i) == LastInstruction(g, col, i)
  {
    var r := Fill(g);
    FillShape(g, col);
    if i > 1 {
      LastInstructionPreserved(g, col, i - 1);
      FillRow(g, col, i - 1);
      assert Cell(r[i - 1], col) == r[i - 1][col];
    }
  }

  /** Two rows agreeing outside column col, where the longer one's extra cells are blank, have the same data. */
  lemma HasDataSameCells(x: seq<string>, y: seq<string>, col: nat)
    requires |y| <= |x|
    requires forall j :: 0 <= j < |x| && j != col ==> x[j] == Cell(y, j)
    ensures HasData(x, col) <==> HasData(y, col)
  {
    if HasData(x, col) {
      var j :| 0 <= j < |x| && j != col && !IsBlank(x[j]);
      assert j < |y|;
    }
    if HasData(y, col) {
      var j :| 0 <= j < |y| && j != col && !IsBlank(y[j]);
      assert x[j] == y[j];
    }
  }

  /**
   * A row of the fill's result has data outside the instructions column
   * exactly when its input row does, provided no input row is wider than
   * the header (the cut would drop cells otherwise).
   */
  lemma HasDataPreserved(g: Grid, col: nat, k: nat)
    requires forall k :: 0 <= k < |g| ==> |g[k]| <= |g[0]|
    requires |g| >= 2 && InstructionColumn(g[0]) == col
    requires k < RowBound(g, col)
    ensures k < |Fill(g)| && (HasData(Fill(g)[k], col) <==> HasData(g[k], col))
  {
    FillShape(g, col);
    if k > 0 {
      FillRow(g, col, k);
      HasDataSameCells(Fill(g)[k], g[k], col);
    }
  }

  /** Filling the fill's output changes none of its data rows, provided no input row is wider than the header. */
  lemma FilledRowFixed(g: Grid, col: nat, i: nat)
    requires forall k :: 0 <= k < |g| ==> |g[k]| <= |g[0]|
    requires |g| >= 2 && InstructionColumn(g[0]) == col
    requires 1 <= i < RowBound(g, col)
    ensures i < |Fill(g)| && FilledRow(Fill(g), col, i) == Fill(g)[i]
  {
    var r := Fill(g);
    FillShape(g, col);
    FillRow(g, col, i);
    LastInstructionPreserved(g, col, i);
    assert Pad(r[i], col) == r[i];
  }

  /** The row bound of the fill's output is its length: nothing below it is cut again. */
  lemma RowBoundOfFill(g: Grid, col: nat)
    requires forall k :: 0 <= k < |g| ==> |g[k]| <= |g[0]|
    requires |g| >= 2 && InstructionColumn(g[0]) == col
    ensures RowBound(Fill(g), col) == |Fill(g)|
  {
    var r := Fill(g);
    var b := RowBound(g, col);
    FillShape(g, col);
    if exists k :: 0 <= k < |g| && HasData(g[k], col) {
      HasDataPreserved(g, col, b - 1);
      assert HasData(r[|r| - 1], col);
    } else {
      forall k | 0 <= k < |r| ensures !HasData(r[k], col) {
        HasDataPreserved(g, col, k);
      }
    }
  }

  /** The fill never adds rows: it returns at most as many as it was given. */
  lemma FillNoLonger(g: Grid)
    ensures |Fill(g)| <= |g|
  {
  }

  /**
   * Running the fill on its own output changes nothing, provided no row of
   * the input is wider than its header (a flattened sheet is rectangular).
   */
  lemma FillIdempotent(g: Grid)
    requires forall k :: 0 <= k < |g| ==> |g[k]| <= |g[0]|
    ensures Fill(Fill(g)) == Fill(g)
  {
    if |g| >= 2 && InstructionColumn(g[0]) >= 0 {
      var col: nat := InstructionColumn(g[0]);
      var r := Fill(g);
      var b := |r|;
      FillShape(g, col);
      if b >= 2 {
        assert InstructionColumn(r[0]) == col;
        RowBoundOfFill(g, col);
        forall i | 1 <= i < b ensures FilledRow(r, col, i) == r[i] {
          FilledRowFixed(g, col, i);
        }
        ForwardFilledFixed(r, col, b);
        TruncatedNoOp(r, |r[0]|);
        assert Fill(r) == FillAt(r, col) == Truncated(ForwardFilled(r, col, b), b, |r[0]|);
      }
    }
  }

  /**
   * The forward fill on an instructions column X, "", "", Y, "" beside a
   * column that has data in every row: the column becomes X, X, X, Y, Y.
   */
  lemma FillExample()
    ensures Fill([["题干", "答题说明"], ["q1", "X"], ["q2", ""], ["q3", ""], ["q4", "Y"], ["q5", ""]])
         == [["题干", "答题说明"], ["q1", "X"], ["q2", "X"], ["q3", "X"], ["q4", "Y"], ["q5", "Y"]]
  {
    var g := [["题干", "答题说明"], ["q1", "X"], ["q2", ""], ["q3", ""], ["q4", "Y"], ["q5", ""]];
    var want := [["题干", "答题说明"], ["q1", "X"], ["q2", "X"], ["q3", "X"], ["q4", "Y"], ["q5", "Y"]];
    assert !Contains("题干", Marker);
    assert Contains("答题说明", Marker);
    assert InstructionColumn(g[0]) == 1;
    assert !IsBlank(g[5][0]) by { assert !IsWhitespace(g[5][0][0]); }
    assert HasData(g[5], 1);
    assert RowBound(g, 1) == 6;
    assert !IsBlank("X") by { assert !IsWhitespace("X"[0]); }
    assert !IsBlank("Y") by { assert !IsWhitespace("Y"[0]); }
    assert IsBlank("");
    assert LastInstruction(g, 1, 2) == "X";
    assert LastInstruction(g, 1, 3) == "X";
    assert LastInstruction(g, 1, 4) == "X";
    assert LastInstruction(g, 1, 5) == "Y";
    FillShape(g, 1);
    var r := Fill(g);
    forall i | 1 <= i < 6 ensures r[i] == want[i] {
      FillRow(g, 1, i);
    }
    assert r == want;
  }

  /**
   * Why FillIdempotent needs rows no wider than the header: here the only
   * data of the last row lies beyond the header, the first fill keeps the row
   * but cuts that cell, and a second fill then drops the row.
   */
  lemma FillNotIdempotentOnWideRows()
    ensures var g := [["答题说明", "h"], ["", ""], ["", "", "z"]];
            Fill(Fill(g)) != Fill(g)
  {
    var g := [["答题说明", "h"], ["", ""], ["", "", "z"]];
    assert Contains("答题说明", Marker);
    assert InstructionColumn(g[0]) == 0;
    assert !IsBlank(g[2][2]) by { assert !IsWhitespace(g[2][2][0]); }
    assert HasData(g[2], 0);
    assert RowBound(g, 0) == 3;
    FillShape(g, 0);
    var r := Fill(g);
    FillRow(g, 0, 2);
    assert r[2] == ["", ""];
    FillRow(g, 0, 1);
    assert r[1] == ["", ""];
    assert !HasData(r[2], 0);
    assert !HasData(r[1], 0);
    assert !IsBlank(r[0][1]) by { assert !IsWhitespace(r[0][1][0]); }
    assert HasData(r[0], 0);
    assert RowBound(r, 0) == 1;
    FillShape(r, 0);
  }

  // ---------------------------------------------------------------------------
  // The fill, step by step, on the caller's list of rows

  /** The header scan: the index of the first non-empty header containing Marker, or -1. */
  method FindInstructionColumn(header: seq<string>) returns (col: int)
    ensures col == InstructionColumn(header)
  {
    col := -1;
    var i := 0;
    while i < |header|
      invariant 0 <= i <= |header|
      invariant forall j :: 0 <= j < i ==> !Contains(header[j], Marker)
    {
      if header[i] != "" && Contains(header[i], Marker) {
        col := i;
        return;
      }
      i := i + 1;
    }
  }

  /** The scan of every cell outside the instructions column for the row bound. */
  method OtherColumnsBound(data: array<seq<string>>, col: nat) returns (bound: nat)
    ensures bound == RowBound(data[..], col)
  {
    var maxRows := 0;
    var r := 0;
    while r < data.Length
      invariant 0 <= r <= data.Length
      invariant maxRows == LastDataRow(data[..], col, r)
    {
      var row := data[r];
      var c := 0;
      while c < |row|
        invariant 0 <= c <= |row|
        invariant maxRows == if exists j :: 0 <= j < c && j != col && !IsBlank(row[j])
                             then r + 1 else LastDataRow(data[..], col, r)
      {
        if c != col && !IsBlank(row[c]) {
          if r + 1 > maxRows {
            maxRows := r + 1;
          }
        }
        c := c + 1;
      }
      r := r + 1;
    }
    if maxRows == 0 {
      maxRows := data.Length;
    }
    bound := maxRows;
  }

  /** The fill loop over data rows 1 .. bound - 1, padding and writing rows of `data` in place. */
  method ForwardFill(data: array<seq<string>>, col: nat, bound: nat)
    requires bound <= data.Length
    modifies data
    ensures data[..] == ForwardFilled(old(data[..]), col, bound)
  {
    ghost var g := data[..];
    var last := "";
    var i := 1;
    while i < bound
      invariant 1 <= i && (i <= bound || i == 1)
      invariant i <= |g| ==> last == LastInstruction(g, col, i)
      invariant data[..] == ForwardFilled(g, col, i)
    {
      if i < data.Length {
        var row := data[i];
        assert row == g[i] by {
          assert ForwardFilled(g, col, i)[i] == g[i];
        }
        while |row| <= col
          invariant |g[i]| <= |row| <= Max(|g[i]|, col + 1)
          invariant forall j :: 0 <= j < |row| ==> row[j] == Cell(g[i], j)
        {
          row := row + [""];
        }
        assert row == Pad(g[i], col);
        var current := row[col];
        assert current == Cell(g[i], col);
        if !IsBlank(current) {
          last := current;
        } else if last != "" {
          row := row[col := last];
        }
        assert row == FilledRow(g, col, i);
        LastInstructionStep(g, col, i);
        ForwardFilledStep(g, col, i);
        ghost var before := data[..];
        data[i] := row;
        assert data[..] == before[i := row];
      }
      i := i + 1;
    }
    assert ForwardFilled(g, col, i) == ForwardFilled(g, col, bound);
  }

  /** The closing comprehension: the first `bound` rows, each cut to `width` cells. */
  method TruncateRows(data: array<seq<string>>, bound: nat, width: nat) returns (rows: Grid)
    requires bound <= data.Length
    ensures rows == Truncated(data[..], bound, width)
  {
    rows := [];
    var i := 0;
    while i < bound
      invariant 0 <= i <= bound
      invariant rows == Truncated(data[..], i, width)
    {
      rows := rows + [data[i][..Min(|data[i]|, width)]];
      i := i + 1;
    }
  }

  /**
   * The whole fill: returns Fill of the rows it was given, and leaves them
   * padded and filled as FillEffect says.
   */
  method FillInstructionColumn(data: array<seq<string>>) returns (result: Grid)
    modifies data
    ensures result == Fill(old(data[..]))
    ensures data[..] == FillEffect(old(data[..]))
  {
    if data.Length < 2 {
      return data[..];
    }
    var header := data[0];
    var col := FindInstructionColumn(header);
    if col == -1 {
      return data[..];
    }
    var bound := OtherColumnsBound(data, col);
    ForwardFill(data, col, bound);
    result := TruncateRows(data, bound, |header|);
  }
}
