# Excel question-bank processor: a Dafny model

The processor turns question-bank workbooks into CSV files. For each
workbook it takes the first sheet and flattens it into rows of text. A
merged cell range contributes its top-left value to every cell it covers.
The processor then fills in the "答题说明" (answering instructions) column:

- it finds the first header that contains that name;
- it bounds the rows by the last one holding data in any other column;
- it copies each non-blank instruction down into the blank instruction cells below it, up to that bound;
- it cuts the rows to the bound and to the header's width.

A second step reads the CSV back as a table. It refuses a table that lacks
any of the required columns 材料内容, *题目类型, *题干 and *正确答案.
Otherwise it builds a "题目信息" (question information) block for every record
from up to six sections, in a fixed order:

1. the material;
2. the instructions;
3. the question type;
4. the stem;
5. the correct answer;
6. the options 选项A .. 选项K.

Each section is its label, a full-width colon and a line break, followed by
the stripped value. The sections are joined by a blank line, and the block is
stored in a new (or overwritten) column.

The project has these modules:

- `Wrappers` (`wrappers.dfy`): Option and Result.
- `Text` (`text.dfy`): Python's whitespace set, `strip`, the blank test, the substring test `in`, and `str.join`.
- `Worksheet` (`worksheet.dfy`): the merged-cell lookup, and the flattening loop as a method proved against `IsFlattening`.
- `InstructionFill` (`instruction_fill.dfy`): the instructions fill.
  - The caller's list of rows is an `array<seq<string>>` whose rows the fill replaces in place.
  - Each step of the Python function is a method proved against a specification function (`InstructionColumn`, `RowBound`, `ForwardFilled`, `Truncated`).
  - The whole fill is proved equal to `Fill`, with its effect on the caller's rows given by `FillEffect`.
  - The lemmas about `Fill` give its shape, row by row contents, no-op cases and idempotence.
- `Conversion` (`conversion.dfy`): the in-memory part of converting one sheet, which is flatten then fill.
- `MergeColumns` (`question_info.dfy`): the required-column check, the per-record block and the table-level merge.

Three behaviours of the code worth knowing:

- **Number of rows kept.** The fill keeps the rows up to the last one with data outside the instructions column. When no cell outside the instructions column is non-blank, the bound falls back to the whole grid (`excel_csv_processor.py:95-96`). `RowBound` states both cases.
- **Row widths.** Rows are cut to the header's width but never padded beyond the instructions column (`excel_csv_processor.py:107-109`, `:119`), so the output need not be rectangular. `FillShape` and `FillRow` state the resulting widths.
- **Header matching.** The fill finds its column by substring (`excel_csv_processor.py:79`). The merge looks the instructions column up by exact name (`excel_csv_processor.py:219`).

## Model

| member | source | states |
|---|---|---|
| Worksheet.MergedValue | excel_csv_processor.py:51-60 | the lookup: the stored value of the top-left cell of the first merged range containing the cell, else the cell's own stored value; characterised by MergedValueUnmerged and MergedValueFirstMatch |
| Worksheet.MergedValueUnmerged | excel_csv_processor.py:51-60 | a cell that no merged range contains resolves to its own stored value (None when the sheet stores nothing there) |
| Worksheet.MergedValueFirstMatch | excel_csv_processor.py:54-58 | a cell resolves to the value stored at the top-left corner of the first range, in iteration order, that contains it |
| Worksheet.MergedRangeTopLeft | excel_csv_processor.py:54-58 | with non-overlapping ranges, every cell of a merged range resolves to that range's top-left value, whatever the order the ranges are visited in |
| Worksheet.Flatten | excel_csv_processor.py:146-163 | the nested loop yields max_row rows of max_col cells; cell [r][c] is the resolved value of (r+1, c+1), or "" when that value is None |
| Worksheet.FlattenWithoutMerges | excel_csv_processor.py:146-163 | without merged ranges, the flattened sheet is the cell-by-cell text of the stored values |
| Text.IsWhitespace | excel_csv_processor.py:90 | the characters Python's `str.strip()` removes: those for which `str.isspace()` holds |
| Text.Strip | excel_csv_processor.py:90 | Python's `str.strip()`: trims leading then trailing whitespace; characterised by TrimStartSpec, TrimEndSpec and StripSpec |
| Text.TrimStartSpec | excel_csv_processor.py:90 | stripping the front removes exactly the longest whitespace prefix |
| Text.TrimEndSpec | excel_csv_processor.py:90 | stripping the back removes exactly the longest whitespace suffix |
| Text.StripSpec | excel_csv_processor.py:90 | `strip` returns a contiguous slice with only whitespace around it, which neither starts nor ends with whitespace, and which is empty exactly when the string is all whitespace |
| Text.BlankIffStripEmpty | excel_csv_processor.py:90 | a cell is blank (fails the `cell and str(cell).strip()` test) exactly when stripping it leaves "" |
| Text.Contains | excel_csv_processor.py:79 | the substring test `"答题说明" in str(header)`; characterised by ContainsAt |
| Text.ContainsAt | excel_csv_processor.py:79 | the substring test holds exactly when the marker occurs at some offset of the header |
| Text.Join | excel_csv_processor.py:242-245 | Python's `sep.join(parts)`; characterised by JoinAppend and JoinEmpty |
| Text.JoinAppend | excel_csv_processor.py:245 | joining one more part appends the separator and that part |
| Text.JoinEmpty | excel_csv_processor.py:245 | a join of non-empty parts is "" exactly when there are no parts |
| InstructionFill.InstructionColumn | excel_csv_processor.py:76-84 | -1 exactly when no header contains "答题说明"; otherwise the index of the first header that does |
| InstructionFill.FindInstructionColumn | excel_csv_processor.py:76-81 | the header scan with its early break returns InstructionColumn of the header |
| InstructionFill.LastDataRow | excel_csv_processor.py:87-93 | the 1-based index of the last of the first n rows with a non-blank cell outside the instructions column, 0 when there is none |
| InstructionFill.RowBound | excel_csv_processor.py:87-96 | with data outside the instructions column, the bound is the 1-based index of the last such row and no later row has data; without any, it is the grid's length |
| InstructionFill.OtherColumnsBound | excel_csv_processor.py:87-96 | the double loop over every cell outside the instructions column returns RowBound of the rows |
| InstructionFill.RowBoundPositive | excel_csv_processor.py:87-96 | the bound of a grid of two or more rows is at least 1, so the header row is always kept |
| InstructionFill.LastInstruction | excel_csv_processor.py:102-116 | the instruction carried forward is either "" or a non-blank value |
| InstructionFill.LastInstructionSpec | excel_csv_processor.py:102-116 | no instruction is in force at row i exactly when rows 1..i-1 all have blank instruction cells; otherwise the one in force is the latest non-blank cell among them |
| InstructionFill.Pad | excel_csv_processor.py:107-109 | padding extends the row with "" to max(len, col+1) cells and keeps its existing cells |
| InstructionFill.ForwardFill | excel_csv_processor.py:101-116 | the loop leaves rows 1..bound-1 padded, with each blank instruction replaced by the one in force, and every other row unchanged |
| InstructionFill.TruncateRows | excel_csv_processor.py:119 | the closing comprehension returns the first `bound` rows, each cut to the header's width |
| InstructionFill.TruncatedNoOp | excel_csv_processor.py:119 | cutting rows no wider than the limit leaves them unchanged |
| InstructionFill.FillInstructionColumn | excel_csv_processor.py:62-119 | the whole function returns Fill of its argument and leaves the caller's rows padded and filled as FillEffect says |
| InstructionFill.Fill | excel_csv_processor.py:62-119 | the rows the fill returns; characterised by FillNoOp, FillShape, FillRow, FillNoLonger and FillIdempotent, and returned by FillInstructionColumn |
| InstructionFill.FillEffect | excel_csv_processor.py:101-116 | the caller's rows after the fill: rows 1..bound-1 padded and filled in place, every other row as it was; stated by FillInstructionColumn and FillNoOp |
| InstructionFill.FillNoOp | excel_csv_processor.py:73-84 | fewer than two rows, or no header containing "答题说明": the rows come back unchanged and nothing is modified |
| InstructionFill.FillShape | excel_csv_processor.py:73-119 | with an instructions column, the result has RowBound rows (at least one), starts with the unchanged header, and no row is wider than the header |
| InstructionFill.FillRow | excel_csv_processor.py:102-119 | data row i of the result: its width, its other cells as in the input, and its instruction cell kept when non-blank, otherwise replaced by the instruction in force if there is one |
| InstructionFill.LastInstructionPreserved | excel_csv_processor.py:102-116 | up to the bound, the instruction in force is the same in the fill's output as in its input |
| InstructionFill.HasDataSameCells | excel_csv_processor.py:90 | two rows that agree outside the instructions column, where the longer one's extra cells are blank, have the same data status |
| InstructionFill.HasDataPreserved | excel_csv_processor.py:87-119 | when no row is wider than the header, each output row has data outside the instructions column exactly when its input row does |
| InstructionFill.FilledRowFixed | excel_csv_processor.py:102-116 | filling the output again changes none of its data rows |
| InstructionFill.RowBoundOfFill | excel_csv_processor.py:87-119 | the bound of the output is its whole length |
| InstructionFill.FillNoLonger | excel_csv_processor.py:119 | the fill never returns more rows than it received |
| InstructionFill.FillIdempotent | excel_csv_processor.py:62-119 | when no row is wider than the header, filling the result again gives the same rows |
| InstructionFill.FillNotIdempotentOnWideRows | excel_csv_processor.py:119 | a row whose only data lies beyond the header's width survives the first fill but is dropped by a second one |
| InstructionFill.FillExample | excel_csv_processor.py:102-116 | an instructions column X, "", "", Y, "" beside a filled stem column becomes X, X, X, Y, Y |
| Conversion.ConvertSheet | excel_csv_processor.py:136-166 | the rows written for a sheet are Fill of its flattening, at most max_row of them, and already a fixed point of the fill |
| MergeColumns.MissingColumns | excel_csv_processor.py:198-199 | the missing list holds exactly the required columns absent from the table, never more entries than required |
| MergeColumns.Section | excel_csv_processor.py:214-232 | one field's section, "title：\n" and the stripped value, present only when the value is neither missing nor blank; characterised field by field by SectionOrder and SectionInclusion |
| MergeColumns.OptionLines | excel_csv_processor.py:234-240 | the "X. value" lines of the qualifying options in letter order; characterised by OptionLinesSpec |
| MergeColumns.Sections | excel_csv_processor.py:210-242 | the sections the record contributes, in order; characterised by SectionOrder, SectionInclusion and SectionsNonEmpty |
| MergeColumns.QuestionInfo | excel_csv_processor.py:244-245 | the block: the sections joined by a blank line, "" when there are none; characterised by QuestionInfoEmpty and QuestionInfoExample |
| MergeColumns.OptionLinesSpec | excel_csv_processor.py:234-240 | each option column that exists and is filled contributes "X. value" with the value stripped, in letter order A..K; there are no option lines exactly when no option qualifies |
| MergeColumns.SectionsNonEmpty | excel_csv_processor.py:214-242 | every included section is non-empty |
| MergeColumns.SectionOrder | excel_csv_processor.py:210-242 | one section per qualifying field (material, instructions when its column exists, type, stem, answer, options when some option qualifies); field k's section, "title：\n" and its stripped value or option lines, sits at the index counting the qualifying fields before it, so qualifying fields keep their fixed order; every section is some qualifying field's |
| MergeColumns.SectionInclusion | excel_csv_processor.py:210-242 | a section starts with field k's heading exactly when field k qualifies and the section is at k's index, so a field that does not qualify leaves no section |
| MergeColumns.QuestionInfoEmpty | excel_csv_processor.py:210-245 | the block is "" exactly when material, type, stem and answer are missing or blank, the instructions column is absent or blank, and no option qualifies |
| MergeColumns.AddQuestionInfo | excel_csv_processor.py:197-249 | fails exactly when a required column is missing, listing exactly the missing ones; otherwise keeps every record and every other field, sets 题目信息 to the record's block, and appends the column only when it is new |
| MergeColumns.QuestionInfoExample | excel_csv_processor.py:210-245 | a record with every field filled, a blank option B and a padded option A gives six sections in order, with option A stripped and option B left out |

## Left out

- Loading the workbook with openpyxl, choosing the active sheet, and `data_only` formula evaluation are not modelled. The sheet is given as a map from coordinates to stored values, a sequence of merged ranges, and its maximum row and column.
- Merged ranges are visited in sequence order. openpyxl keeps them in a set whose order is unspecified, and `MergedRangeTopLeft` shows the order does not matter for non-overlapping ranges.
- `str()` of non-string cell values (numbers, dates, booleans) is not modelled. Every stored value is already text.
- Writing the CSV file (UTF-8 with BOM, csv quoting) is left out because it is file I/O. So is reading it back with pandas: type inference, NaN markers such as "NA", and renaming duplicate headers. A table is modelled as column names and records whose fields are Option values, with None standing for NaN.
- The merge's `to_csv` output and its success or failure return value are file I/O. `AddQuestionInfo` returns the table or the missing columns instead.
- The exception handlers in conversion and merge, which print and return False, are not modelled.
- `process_all_files` and `main` are not modelled: directory scanning, output naming, and the fallback rename when a merge step fails.
- Progress and warning prints are not modelled.
- InstructionFill.FillInstructionColumn: the Python function mutates the row lists it was given. The model replaces whole rows of an array, so aliasing between rows (one list object appearing as two rows) is not captured. A flattened sheet never has such aliasing.
- InstructionFill.FillIdempotent: proved only when no row is wider than the header, because idempotence is false otherwise (`FillNotIdempotentOnWideRows`). The flattened sheet always meets this condition.
