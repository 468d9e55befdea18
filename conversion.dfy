/**
 * The in-memory part of converting a workbook: flatten the first sheet,
 * then fill its instructions column. Loading the workbook and writing the
 * rows out as CSV are not part of this model.
 */
module Conversion {
  import opened Worksheet
  import opened InstructionFill

  /**
   * The rows the conversion writes: the fill applied to the flattened sheet.
   * Since a flattened sheet is rectangular, they are already a fixed point of
   * the fill, and there are never more of them than the sheet has rows.
   */
  method ConvertSheet(cells: Cells, ranges: seq<CellRange>, maxRow: nat, maxCol: nat) returns (rows: Grid)
    ensures exists flat :: IsFlattening(flat, cells, ranges, maxRow, maxCol) && rows == Fill(flat)
    ensures |rows| <= maxRow
    ensures Fill(rows) == rows
  {
    var flat := Flatten(cells, ranges, maxRow, maxCol);
    var data := new seq<string>[|flat|](i requires 0 <= i < |flat| => flat[i]);
    assert data[..] == flat;
    rows := FillInstructionColumn(data);
    FillNoLonger(flat);
    assert forall k :: 0 <= k < |flat| ==> |flat[k]| <= |flat[0]| by {
      assert forall k :: 0 <= k < |flat| ==> IsFlatRow(flat[k], cells, ranges, k + 1, maxCol);
    }
    FillIdempotent(flat);
  }
}
