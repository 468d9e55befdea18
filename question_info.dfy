/**
 * The merge stage: check that the required columns exist, then give every
 * record a "题目信息" (question info) block built from its labelled fields.
 *
 * A record is the parsed CSV row: column name to value, with None standing
 * for pandas' missing value (NaN). Values are taken as strings.
 */
module MergeColumns {
  import opened Wrappers
  import opened Text

  type Record = map<string, Option<string>>

  /** A parsed CSV file: its column names in order and its records in order. */
  datatype Table = Table(columns: seq<string>, rows: seq<Record>)

  const MaterialColumn: string := "材料内容"
  /** Looked up by exact name here, unlike the substring search of the fill stage. */
  const InstructionsColumn: string := "答题说明"
  const TypeColumn: string := "*题目类型"
  const StemColumn: string := "*题干"
  const AnswerColumn: string := "*正确答案"
  /** The column the merge adds. */
  const InfoColumn: string := "题目信息"

  const RequiredColumns: seq<string> := [MaterialColumn, TypeColumn, StemColumn, AnswerColumn]

  /** The letters of the option columns 选项A .. 选项K. */
  const OptionLetters: string := "ABCDEFGHIJK"

  /** The option column for a letter: "选项" followed by the letter. */
  function OptionColumn(letter: char): string {
    "选项" + [letter]
  }

  /** The record's value in column h; a column the record lacks reads as missing. */
  function Value(rec: Record, h: string): Option<string> {
    if h in rec then rec[h] else None
  }

  /** `pd.notna(v) and str(v).strip()`: present and not blank. */
  predicate Filled(v: Option<string>) {
    v.Some? && !IsBlank(v.value)
  }

  // ---------------------------------------------------------------------------
  // Required columns

  /** The required columns absent from `columns`, in the order they are required. */
  function MissingColumns(required: seq<string>, columns: seq<string>): (missing: seq<string>)
    ensures |missing| <= |required|
    ensures forall h :: h in missing <==> h in required && h !in columns
  {
    if |required| == 0 then []
    else
      var rest := MissingColumns(required[1..], columns);
      assert forall h :: h in required <==> h == required[0] || h in required[1..];
      if required[0] in columns then rest else [required[0]] + rest
  }

  // ---------------------------------------------------------------------------
  // The question-info block of one record

  /** The present values of `xs`, in order. */
  function Present(xs: seq<Option<string>>): seq<string> {
    if |xs| == 0 then []
    else (if xs[0].Some? then [xs[0].value] else []) + Present(xs[1..])
  }

  /** Present distributes over concatenation. */
  lemma {:induction false} PresentAppend(xs: seq<Option<string>>, ys: seq<Option<string>>)
    ensures Present(xs + ys) == Present(xs) + Present(ys)
  {
    if |xs| > 0 {
      assert (xs + ys)[0] == xs[0];
      assert (xs + ys)[1..] == xs[1..] + ys;
      PresentAppend(xs[1..], ys);
    } else {
      assert xs + ys == ys;
    }
  }

  /**
   * Present keeps order: the value at position k (if any) comes after the
   * present values before k and before the present values after k.
   */
  lemma {:induction false} PresentSplit(xs: seq<Option<string>>, k: nat)
    requires k < |xs|
    ensures Present(xs) == Present(xs[..k]) + (if xs[k].Some? then [xs[k].value] else []) + Present(xs[k + 1..])
  {
    var tail := xs[k..];
    assert xs == xs[..k] + tail;
    PresentAppend(xs[..k], tail);
    assert tail[0] == xs[k];
    assert tail[1..] == xs[k + 1..];
  }

  /** Nothing is present exactly when every entry is None. */
  lemma {:induction false} PresentEmpty(xs: seq<Option<string>>)
    ensures Present(xs) == [] <==> forall k :: 0 <= k < |xs| ==> xs[k].None?
  {
    if |xs| > 0 {
      PresentEmpty(xs[1..]);
      assert forall k :: 1 <= k < |xs| ==> xs[k] == xs[1..][k - 1];
    }
  }

  /** Every present value was present in `xs`. */
  lemma {:induction false} PresentFrom(xs: seq<Option<string>>)
    ensures forall s :: s in Present(xs) ==> Some(s) in xs
  {
    if |xs| > 0 {
      PresentFrom(xs[1..]);
      assert forall o :: o in xs[1..] ==> o in xs;
    }
  }

  /** One labelled section: `title：` on its own line, then the stripped value; None unless the value is filled. */
  function Section(title: string, v: Option<string>): Option<string> {
    if Filled(v) then Some(title + "：\n" + Strip(v.value)) else None
  }

  /** The line for option k (letter OptionLetters[k]), when its column exists and is filled: "X. value". */
  function OptionLine(columns: seq<string>, rec: Record, k: nat): Option<string>
    requires k < |OptionLetters|
  {
    var letter := OptionLetters[k];
    var h := OptionColumn(letter);
    if h in columns && Filled(Value(rec, h)) then Some([letter] + ". " + Strip(Value(rec, h).value)) else None
  }

  /** The option lines, 选项A first. */
  function OptionLines(columns: seq<string>, rec: Record): seq<string> {
    Present(seq(|OptionLetters|, k requires 0 <= k < |OptionLetters| => OptionLine(columns, rec, k)))
  }

  /** The options section: "选项：" then the option lines, one per line; None when no option qualifies. */
  function OptionsSection(columns: seq<string>, rec: Record): Option<string> {
    var lines := OptionLines(columns, rec);
    if lines == [] then None else Some("选项：\n" + Join(lines, "\n"))
  }

  /** The six candidate sections, in their fixed order. */
  function Candidates(columns: seq<string>, rec: Record): seq<Option<string>> {
    [ Section("材料内容", Value(rec, MaterialColumn)),
      if InstructionsColumn in columns then Section("答题说明", Value(rec, InstructionsColumn)) else None,
      Section("题目类型", Value(rec, TypeColumn)),
      Section("题干", Value(rec, StemColumn)),
      Section("正确答案", Value(rec, AnswerColumn)),
      OptionsSection(columns, rec) ]
  }

  /** The sections included in the block, in order. */
  function Sections(columns: seq<string>, rec: Record): seq<string> {
    Present(Candidates(columns, rec))
  }

  /** The record's block: its sections separated by a blank line, "" when there are none. */
  function QuestionInfo(columns: seq<string>, rec: Record): string {
    var parts := Sections(columns, rec);
    if parts == [] then "" else Join(parts, "\n\n")
  }

  /** Option k qualifies: its column exists and holds a filled value. */
  predicate OptionQualifies(columns: seq<string>, rec: Record, k: nat)
    requires k < |OptionLetters|
  {
    OptionColumn(OptionLetters[k]) in columns && Filled(Value(rec, OptionColumn(OptionLetters[k])))
  }

  /**
   * Each qualifying option k is rendered "X. value" (letter, dot, space,
   * stripped value), with the lines of the qualifying earlier letters before
   * it and those of the later letters after it; there are no option lines
   * exactly when no option qualifies.
   */
  lemma OptionLinesSpec(columns: seq<string>, rec: Record, k: nat)
    requires k < |OptionLetters|
    ensures var opts := seq(|OptionLetters|, j requires 0 <= j < |OptionLetters| => OptionLine(columns, rec, j));
            OptionLines(columns, rec)
            == Present(opts[..k])
               + (if OptionQualifies(columns, rec, k)
                  then [[OptionLetters[k]] + ". " + Strip(Value(rec, OptionColumn(OptionLetters[k])).value)]
                  else [])
               + Present(opts[k + 1..])
    ensures OptionLines(columns, rec) == [] <==> forall j :: 0 <= j < |OptionLetters| ==> !OptionQualifies(columns, rec, j)
  {
    var opts := seq(|OptionLetters|, j requires 0 <= j < |OptionLetters| => OptionLine(columns, rec, j));
    PresentSplit(opts, k);
    PresentEmpty(opts);
    assert forall j :: 0 <= j < |OptionLetters| ==> (opts[j].None? <==> !OptionQualifies(columns, rec, j));
  }

  /** Every section of the block is a label line followed by text, so never empty. */
  lemma SectionsNonEmpty(columns: seq<string>, rec: Record)
    ensures forall k :: 0 <= k < |Sections(columns, rec)| ==> Sections(columns, rec)[k] != ""
  {
    var cands := Candidates(columns, rec);
    PresentFrom(cands);
    forall k | 0 <= k < |Sections(columns, rec)| ensures Sections(columns, rec)[k] != "" {
      var s := Sections(columns, rec)[k];
      assert s in Present(cands);
      assert Some(s) in cands;
      var j :| 0 <= j < |cands| && cands[j] == Some(s);
      assert |s| > 0;
    }
  }

  /**
   * The block is empty exactly when no field qualifies: material, type, stem
   * and answer are all missing or blank, the instructions column is absent
   * or blank, and no option column exists with a filled value.
   */
  lemma QuestionInfoEmpty(columns: seq<string>, rec: Record)
    ensures QuestionInfo(columns, rec) == "" <==>
              && !Filled(Value(rec, MaterialColumn))
              && !(InstructionsColumn in columns && Filled(Value(rec, InstructionsColumn)))
              && !Filled(Value(rec, TypeColumn))
              && !Filled(Value(rec, StemColumn))
              && !Filled(Value(rec, AnswerColumn))
              && forall j :: 0 <= j < |OptionLetters| ==> !OptionQualifies(columns, rec, j)
  {
    var cands := Candidates(columns, rec);
    SectionsNonEmpty(columns, rec);
    JoinEmpty(Sections(columns, rec), "\n\n");
    PresentEmpty(cands);
    OptionLinesSpec(columns, rec, 0);
    assert (forall k :: 0 <= k < |cands| ==> cands[k].None?) <==>
             cands[0].None? && cands[1].None? && cands[2].None? && cands[3].None? && cands[4].None? && cands[5].None?;
  }

  // ---------------------------------------------------------------------------
  // The layout of the block, field by field

  /** The titles of the six fields, in the order their sections appear. */
  const Titles: seq<string> := ["材料内容", "答题说明", "题目类型", "题干", "正确答案", "选项"]

  /** The columns behind the first five fields (the sixth is the option columns). */
  const FieldColumns: seq<string> := [MaterialColumn, InstructionsColumn, TypeColumn, StemColumn, AnswerColumn]

  /** The first line of field k's section: its title and a full-width colon. */
  function Heading(k: nat): string
    requires k < |Titles|
  {
    Titles[k] + "：\n"
  }

  /**
   * Field k earns a section: its value is filled (the instructions field
   * also needs its column to exist), or, for the options, some option
   * column exists and is filled.
   */
  predicate Qualifies(columns: seq<string>, rec: Record, k: nat)
    requires k < |Titles|
  {
    if k < |FieldColumns| then (k != 1 || InstructionsColumn in columns) && Filled(Value(rec, FieldColumns[k]))
    else OptionLines(columns, rec) != []
  }

  /** The section of a qualifying field k: its heading, then its stripped value or its option lines. */
  function SectionText(columns: seq<string>, rec: Record, k: nat): string
    requires k < |Titles| && Qualifies(columns, rec, k)
  {
    if k < |FieldColumns| then Heading(k) + Strip(Value(rec, FieldColumns[k]).value)
    else Heading(k) + Join(OptionLines(columns, rec), "\n")
  }

  /** How many of the fields before field k qualify: the index field k's section takes. */
  function SectionsBefore(columns: seq<string>, rec: Record, k: nat): nat
    requires k <= |Titles|
  {
    if k == 0 then 0
    else SectionsBefore(columns, rec, k - 1) + (if Qualifies(columns, rec, k - 1) then 1 else 0)
  }

  /** `p` is a prefix of `s`. */
  predicate StartsWith(s: string, p: string) {
    |p| <= |s| && s[..|p|] == p
  }

  /** Candidate k is present exactly when field k qualifies, and is then that field's section. */
  lemma CandidateIsField(columns: seq<string>, rec: Record, k: nat)
    requires k < |Titles|
    ensures var c := Candidates(columns, rec)[k];
            && (c.Some? <==> Qualifies(columns, rec, k))
            && (c.Some? ==> c.value == SectionText(columns, rec, k))
  {
  }

  /** The sections of the first k candidates are as many as the qualifying fields among the first k. */
  lemma {:induction false} PrefixSections(columns: seq<string>, rec: Record, k: nat)
    requires k <= |Titles|
    ensures |Present(Candidates(columns, rec)[..k])| == SectionsBefore(columns, rec, k)
  {
    if k > 0 {
      var cands := Candidates(columns, rec);
      PrefixSections(columns, rec, k - 1);
      assert cands[..k] == cands[..k - 1] + [cands[k - 1]];
      PresentAppend(cands[..k - 1], [cands[k - 1]]);
      assert [cands[k - 1]][1..] == [];
      CandidateIsField(columns, rec, k - 1);
    }
  }

  /** SectionsBefore never decreases. */
  lemma {:induction false} SectionsBeforeMonotone(columns: seq<string>, rec: Record, j: nat, k: nat)
    requires j <= k <= |Titles|
    ensures SectionsBefore(columns, rec, j) <= SectionsBefore(columns, rec, k)
  {
    if j < k {
      SectionsBeforeMonotone(columns, rec, j, k - 1);
    }
  }

  /** Every index below SectionsBefore(n) is the index of a qualifying field before n. */
  lemma {:induction false} SectionsBeforeHits(columns: seq<string>, rec: Record, n: nat, i: nat)
    requires n <= |Titles| && i < SectionsBefore(columns, rec, n)
    ensures exists k :: 0 <= k < n && Qualifies(columns, rec, k) && SectionsBefore(columns, rec, k) == i
  {
    if i < SectionsBefore(columns, rec, n - 1) {
      SectionsBeforeHits(columns, rec, n - 1, i);
    } else {
      assert Qualifies(columns, rec, n - 1) && SectionsBefore(columns, rec, n - 1) == i;
    }
  }

  /** Section i of the block is the section of a qualifying field whose section index is i. */
  predicate IsFieldSection(columns: seq<string>, rec: Record, i: nat)
    requires i < |Sections(columns, rec)|
  {
    exists k :: 0 <= k < |Titles| && Qualifies(columns, rec, k) && SectionsBefore(columns, rec, k) == i
                && Sections(columns, rec)[i] == SectionText(columns, rec, k)
  }

  /**
   * The block's sections field by field: there is one per qualifying field;
   * a qualifying field k's section sits at index SectionsBefore(k), so the
   * sections of two qualifying fields keep the order material, instructions,
   * type, stem, answer, options; and every section is some qualifying
   * field's.
   */
  lemma SectionOrder(columns: seq<string>, rec: Record)
    ensures var parts := Sections(columns, rec);
            && |parts| == SectionsBefore(columns, rec, |Titles|)
            && (forall k :: 0 <= k < |Titles| && Qualifies(columns, rec, k) ==>
                  SectionsBefore(columns, rec, k) < |parts| && parts[SectionsBefore(columns, rec, k)] == SectionText(columns, rec, k))
            && (forall j, k :: 0 <= j < k < |Titles| && Qualifies(columns, rec, j) && Qualifies(columns, rec, k) ==>
                  SectionsBefore(columns, rec, j) < SectionsBefore(columns, rec, k))
            && (forall i :: 0 <= i < |parts| ==> IsFieldSection(columns, rec, i))
  {
    var cands := Candidates(columns, rec);
    var parts := Sections(columns, rec);
    PrefixSections(columns, rec, |Titles|);
    assert cands[..|Titles|] == cands;
    forall k | 0 <= k < |Titles| && Qualifies(columns, rec, k)
      ensures SectionsBefore(columns, rec, k) < |parts| && parts[SectionsBefore(columns, rec, k)] == SectionText(columns, rec, k)
    {
      PresentSplit(cands, k);
      PrefixSections(columns, rec, k);
      CandidateIsField(columns, rec, k);
    }
    forall j, k | 0 <= j < k < |Titles| && Qualifies(columns, rec, j) && Qualifies(columns, rec, k)
      ensures SectionsBefore(columns, rec, j) < SectionsBefore(columns, rec, k)
    {
      SectionsBeforeMonotone(columns, rec, j + 1, k);
    }
    forall i | 0 <= i < |parts|
      ensures IsFieldSection(columns, rec, i)
    {
      SectionsBeforeHits(columns, rec, |Titles|, i);
      var k :| 0 <= k < |Titles| && Qualifies(columns, rec, k) && SectionsBefore(columns, rec, k) == i;
      assert parts[i] == SectionText(columns, rec, k);
    }
  }

  /** No heading starts like another: they differ in their first or second character. */
  lemma HeadingsDiffer(j: nat, k: nat)
    requires j < |Titles| && k < |Titles| && j != k
    ensures |Heading(j)| >= 2 && |Heading(k)| >= 2
    ensures Heading(j)[0] != Heading(k)[0] || Heading(j)[1] != Heading(k)[1]
  {
  }

  /**
   * Field k's heading begins a section of the block exactly when field k
   * qualifies, and then only the section at index SectionsBefore(k): a
   * field that does not qualify leaves no trace in the block.
   */
  lemma SectionInclusion(columns: seq<string>, rec: Record, k: nat, i: nat)
    requires k < |Titles| && i < |Sections(columns, rec)|
    ensures StartsWith(Sections(columns, rec)[i], Heading(k)) <==> Qualifies(columns, rec, k) && i == SectionsBefore(columns, rec, k)
  {
    var parts := Sections(columns, rec);
    SectionOrder(columns, rec);
    assert IsFieldSection(columns, rec, i);
    var k' :| 0 <= k' < |Titles| && Qualifies(columns, rec, k') && SectionsBefore(columns, rec, k') == i
                                 && parts[i] == SectionText(columns, rec, k');
    assert StartsWith(parts[i], Heading(k'));
    if k' != k {
      HeadingsDiffer(k, k');
    } else {
      assert parts[i][..|Heading(k)|] == Heading(k);
    }
  }

  // ---------------------------------------------------------------------------
  // The merge of a whole table

  /**
   * The merge: refuse (with the missing required columns, in order) when a
   * required column is absent; otherwise set the InfoColumn of every record
   * to its block, appending the column when it is new (an existing column of
   * that name is overwritten in place).
   */
  function AddQuestionInfo(t: Table): (r: Result<Table, seq<string>>)
    ensures r.Failure? <==> exists h :: h in RequiredColumns && h !in t.columns
    ensures r.Failure? ==> forall h :: h in r.error <==> h in RequiredColumns && h !in t.columns
    ensures r.Success? ==>
              && r.value.columns == (if InfoColumn in t.columns then t.columns else t.columns + [InfoColumn])
              && |r.value.rows| == |t.rows|
              && forall i :: 0 <= i < |t.rows| ==>
                   && Value(r.value.rows[i], InfoColumn) == Some(QuestionInfo(t.columns, t.rows[i]))
                   && forall h :: h != InfoColumn ==> Value(r.value.rows[i], h) == Value(t.rows[i], h)
  {
    var missing := MissingColumns(RequiredColumns, t.columns);
    if missing != [] then
      assert missing[0] in missing;
      Failure(missing)
    else
      var columns := if InfoColumn in t.columns then t.columns else t.columns + [InfoColumn];
      Success(Table(columns, seq(|t.rows|, i requires 0 <= i < |t.rows| =>
                                   t.rows[i][InfoColumn := Some(QuestionInfo(t.columns, t.rows[i]))])))
  }

  // ---------------------------------------------------------------------------
  // A worked record

  /** A record with every field filled except option B, which is blank. */
  const ExampleColumns: seq<string> := ["材料内容", "答题说明", "*题目类型", "*题干", "*正确答案", "选项A", "选项B", "选项C"]
  const ExampleRecord: Record :=
    map["材料内容" := Some("M"), "答题说明" := Some("I"), "*题目类型" := Some("T"), "*题干" := Some("S"),
        "*正确答案" := Some("A"), "选项A" := Some(" a "), "选项B" := Some(" "), "选项C" := Some("c")]

  /** Option A's padded value is stripped: "A. a". */
  lemma ExampleOptionA()
    ensures OptionLine(ExampleColumns, ExampleRecord, 0) == Some("A. a")
  {
    assert OptionLetters[0] == 'A';
    assert OptionColumn('A') == ExampleColumns[5];
    assert Value(ExampleRecord, "选项A") == Some(" a ");
    assert !IsBlank(" a ") by { assert !IsWhitespace(" a "[1]); }
    assert Strip(" a ") == "a";
    assert ['A'] + ". " + Strip(" a ") == "A. a";
  }

  /** Option C renders as "C. c". */
  lemma ExampleOptionC()
    ensures OptionLine(ExampleColumns, ExampleRecord, 2) == Some("C. c")
  {
    assert OptionLetters[2] == 'C';
    assert OptionColumn('C') == ExampleColumns[7];
    assert Value(ExampleRecord, "选项C") == Some("c");
    assert !IsBlank("c") by { assert !IsWhitespace("c"[0]); }
    assert Strip("c") == "c";
    assert ['C'] + ". " + Strip("c") == "C. c";
  }

  /** Option B is blank and D .. K do not exist, so only A and C are listed. */
  lemma ExampleOptionLines()
    ensures OptionLines(ExampleColumns, ExampleRecord) == ["A. a", "C. c"]
  {
    var cols, rec := ExampleColumns, ExampleRecord;
    var opts := seq(|OptionLetters|, j requires 0 <= j < |OptionLetters| => OptionLine(cols, rec, j));
    ExampleOptionA();
    ExampleOptionC();
    assert opts[1] == None by {
      assert OptionLetters[1] == 'B';
      assert OptionColumn('B') == ExampleColumns[6];
      assert Value(ExampleRecord, "选项B") == Some(" ");
      assert IsBlank(" ");
    }
    forall j | 3 <= j < 11 ensures opts[j] == None {
      var c := OptionLetters[j];
      assert c != 'A' && c != 'B' && c != 'C';
      assert OptionColumn(c)[2] == c && |OptionColumn(c)| == 3;
      forall k | 0 <= k < |cols| ensures cols[k] != OptionColumn(c) {
        if |cols[k]| == 3 {
          assert cols[k][2] != c;
        }
      }
    }
    PresentEmpty(opts[3..]);
    assert Present(opts[2..]) == ["C. c"] by {
      assert opts[2..][1..] == opts[3..];
    }
    assert Present(opts) == ["A. a", "C. c"] by {
      assert opts[1..][1..] == opts[2..];
    }
  }

  /** The options section lists the two lines under its title, one per line. */
  lemma ExampleOptionsSection()
    ensures OptionsSection(ExampleColumns, ExampleRecord) == Some("选项：\nA. a\nC. c")
  {
    ExampleOptionLines();
    assert Join(["A. a", "C. c"], "\n") == "A. a\nC. c" by {
      assert ["A. a", "C. c"][1..] == ["C. c"];
    }
    assert "选项：\n" + "A. a\nC. c" == "选项：\nA. a\nC. c";
  }

  /** Each filled field gives its title line and its value. */
  lemma ExampleFieldSections()
    ensures Section("材料内容", Value(ExampleRecord, MaterialColumn)) == Some("材料内容：\nM")
    ensures Section("答题说明", Value(ExampleRecord, InstructionsColumn)) == Some("答题说明：\nI")
    ensures Section("题目类型", Value(ExampleRecord, TypeColumn)) == Some("题目类型：\nT")
    ensures Section("题干", Value(ExampleRecord, StemColumn)) == Some("题干：\nS")
    ensures Section("正确答案", Value(ExampleRecord, AnswerColumn)) == Some("正确答案：\nA")
  {
    var rec := ExampleRecord;
    assert Value(rec, MaterialColumn) == Some("M");
    assert Value(rec, InstructionsColumn) == Some("I");
    assert Value(rec, TypeColumn) == Some("T");
    assert Value(rec, StemColumn) == Some("S");
    assert Value(rec, AnswerColumn) == Some("A");
    assert !IsBlank("M") by { assert !IsWhitespace("M"[0]); }
    assert Strip("M") == "M";
    assert !IsBlank("I") by { assert !IsWhitespace("I"[0]); }
    assert Strip("I") == "I";
    assert !IsBlank("T") by { assert !IsWhitespace("T"[0]); }
    assert Strip("T") == "T";
    assert !IsBlank("S") by { assert !IsWhitespace("S"[0]); }
    assert Strip("S") == "S";
    assert !IsBlank("A") by { assert !IsWhitespace("A"[0]); }
    assert Strip("A") == "A";
    assert Section("材料内容", Some("M")) == Some("材料内容" + "：\n" + "M");
    assert "材料内容" + "：\n" + "M" == "材料内容：\nM";
    assert Section("答题说明", Some("I")) == Some("答题说明" + "：\n" + "I");
    assert "答题说明" + "：\n" + "I" == "答题说明：\nI";
    assert Section("题目类型", Some("T")) == Some("题目类型" + "：\n" + "T");
    assert "题目类型" + "：\n" + "T" == "题目类型：\nT";
    assert Section("题干", Some("S")) == Some("题干" + "：\n" + "S");
    assert "题干" + "：\n" + "S" == "题干：\nS";
    assert Section("正确答案", Some("A")) == Some("正确答案" + "：\n" + "A");
    assert "正确答案" + "：\n" + "A" == "正确答案：\nA";
  }

  /** All six sections are included, in the fixed order. */
  lemma ExampleSections()
    ensures Sections(ExampleColumns, ExampleRecord)
         == ["材料内容：\nM", "答题说明：\nI", "题目类型：\nT", "题干：\nS", "正确答案：\nA", "选项：\nA. a\nC. c"]
  {
    var cols, rec := ExampleColumns, ExampleRecord;
    ExampleOptionsSection();
    ExampleFieldSections();
    assert InstructionsColumn in cols;
    var cands := Candidates(cols, rec);
    assert forall k :: 0 <= k < 6 ==> cands[k].Some?;
    assert Present(cands[5..]) == [cands[5].value];
    assert Present(cands[4..]) == [cands[4].value, cands[5].value] by { assert cands[4..][1..] == cands[5..]; }
    assert Present(cands[3..]) == [cands[3].value, cands[4].value, cands[5].value] by { assert cands[3..][1..] == cands[4..]; }
    assert Present(cands[2..]) == [cands[2].value, cands[3].value, cands[4].value, cands[5].value] by {
      assert cands[2..][1..] == cands[3..];
    }
    assert Present(cands[1..]) == [cands[1].value, cands[2].value, cands[3].value, cands[4].value, cands[5].value] by {
      assert cands[1..][1..] == cands[2..];
    }
    assert Present(cands) == [cands[0].value, cands[1].value, cands[2].value, cands[3].value, cands[4].value, cands[5].value];
  }

  /** Six parts joined: each separated from the next by exactly one separator. */
  lemma JoinSix(a: string, b: string, c: string, d: string, e: string, f: string, sep: string)
    ensures Join([a, b, c, d, e, f], sep) == a + sep + b + sep + c + sep + d + sep + e + sep + f
  {
    assert Join([f], sep) == f;
    assert Join([e, f], sep) == e + sep + f by { assert [e, f][1..] == [f]; }
    assert Join([d, e, f], sep) == d + sep + Join([e, f], sep) by { assert [d, e, f][1..] == [e, f]; }
    assert Join([c, d, e, f], sep) == c + sep + Join([d, e, f], sep) by { assert [c, d, e, f][1..] == [d, e, f]; }
    assert Join([b, c, d, e, f], sep) == b + sep + Join([c, d, e, f], sep) by { assert [b, c, d, e, f][1..] == [c, d, e, f]; }
    assert Join([a, b, c, d, e, f], sep) == a + sep + Join([b, c, d, e, f], sep) by { assert [a, b, c, d, e, f][1..] == [b, c, d, e, f]; }
  }

  /**
   * The block for a record with material, instructions, type, stem, answer
   * and options A and C filled (B blank): the six sections in order, one
   * blank line between consecutive sections, and only A and C listed.
   */
  lemma QuestionInfoExample()
    ensures QuestionInfo(ExampleColumns, ExampleRecord)
         == "材料内容：\nM" + "\n\n" + "答题说明：\nI" + "\n\n" + "题目类型：\nT" + "\n\n" + "题干：\nS" + "\n\n"
            + "正确答案：\nA" + "\n\n" + "选项：\nA. a\nC. c"
  {
    ExampleSections();
    JoinSix("材料内容：\nM", "答题说明：\nI", "题目类型：\nT", "题干：\nS", "正确答案：\nA", "选项：\nA. a\nC. c", "\n\n");
  }
}
