/** The fixed-header engine `process_table_with_pandas` (v1): a two-row
    header, levels cut at the first `/`, a `%_of` rewrite, the
    `department_department` collapse and the forced `department` first
    column. */
module PandasV1 {
  import opened Strings
  import opened Grid
  import opened ForwardFill
  import opened NameDedup
  import opened RowFilter
  import opened HeaderV2

  /** `HEADER_ROW_COUNT` */
  const HeaderRowCount: nat := 2

  /** A level's text before its first `/`, stripped of white space. */
  function LevelToken(level: string): (token: string)
    ensures '/' !in token
  {
    StripChars(BeforeFirst(level, '/'));
    Strip(BeforeFirst(level, '/'))
  }

  /** The tokens of the levels that are neither blank nor an "unnamed" label. */
  function KeptTokens(levels: seq<string>): (tokens: seq<string>)
    ensures |tokens| <= |levels|
    ensures forall x :: x in tokens ==> '/' !in x
  {
    if |levels| == 0 then []
    else (if IsPlaceholderLevel(levels[0]) then [] else [LevelToken(levels[0])]) + KeptTokens(levels[1..])
  }

  lemma {:induction false} KeptTokensSnoc(levels: seq<string>, level: string)
    ensures KeptTokens(levels + [level]) ==
      KeptTokens(levels) + (if IsPlaceholderLevel(level) then [] else [LevelToken(level)])
  {
    if |levels| > 0 {
      assert (levels + [level])[0] == levels[0];
      assert (levels + [level])[1..] == levels[1..] + [level];
      KeptTokensSnoc(levels[1..], level);
    }
  }

  /** The level filter keeps exactly the levels that are neither blank nor
      an "unnamed" label, each cut to its token, in their original order. */
  lemma {:induction false} KeptTokensSelect(levels: seq<string>)
    ensures IsLevelSelection(KeptTokens(levels), levels, KeptLevelPositions(levels), LevelToken)
  {
    if |levels| > 0 {
      var init := levels[..|levels| - 1];
      KeptTokensSelect(init);
      assert levels == init + [levels[|levels| - 1]];
      KeptTokensSnoc(init, levels[|levels| - 1]);
      LevelSelectionSnoc(KeptTokens(init), init, KeptLevelPositions(init), LevelToken, levels[|levels| - 1]);
    }
  }

  /** The tokens joined by `_`, spaces turned into `_`, every `%_of` rewritten
      to `pct_of`, then lower-cased. */
  function FormatName(tokens: seq<string>): string {
    Lower(ReplaceAll(SpacesToUnderscores(Join(tokens, "_")), "%_of", "pct_of"))
  }

  /** The raw name of a column from its (forward-filled) header levels. */
  function ColumnName(levels: seq<string>): string {
    var name := FormatName(KeptTokens(levels));
    if name == "department_department" then "department" else name
  }

  /** Every name holds no space, no `/` and no upper-case letter. */
  predicate IsV1NameChar(ch: char) {
    ch != ' ' && ch != '/' && !IsUpper(ch)
  }

  lemma ColumnNameChars(levels: seq<string>)
    ensures forall ch :: ch in ColumnName(levels) ==> IsV1NameChar(ch)
  {
    var tokens := KeptTokens(levels);
    var joined := Join(tokens, "_");
    JoinChars(tokens, "_", ch => ch != '/');
    var spaced := SpacesToUnderscores(joined);
    forall ch | ch in spaced ensures ch != '/' && ch != ' ' {
      var i :| 0 <= i < |spaced| && spaced[i] == ch;
      assert joined[i] in joined;
    }
    var replaced := ReplaceAll(spaced, "%_of", "pct_of");
    ReplaceAllChars(spaced, "%_of", "pct_of", ch => ch != '/' && ch != ' ');
    var lowered := Lower(replaced);
    forall ch | ch in lowered ensures IsV1NameChar(ch) {
      var i :| 0 <= i < |lowered| && lowered[i] == ch;
      assert replaced[i] in replaced;
    }
  }

  /** A column whose every level is blank or an "unnamed" label gets the empty
      name: unlike the adaptive engine there is no placeholder. */
  lemma ColumnNameOfPlaceholders(levels: seq<string>)
    requires forall l :: l in levels ==> IsPlaceholderLevel(l)
    ensures ColumnName(levels) == ""
  {
    KeptTokensOfPlaceholders(levels);
  }

  lemma {:induction false} KeptTokensOfPlaceholders(levels: seq<string>)
    requires forall l :: l in levels ==> IsPlaceholderLevel(l)
    ensures KeptTokens(levels) == []
  {
    if |levels| > 0 {
      assert levels[0] in levels;
      assert forall l :: l in levels[1..] ==> l in levels;
      KeptTokensOfPlaceholders(levels[1..]);
    }
  }

  /** A token that lower-cases to "department" holds no space and no `%`. */
  lemma DepartmentToken(a: string)
    requires Lower(a) == "department"
    ensures ' ' !in a && '%' !in a
  {
    forall i | 0 <= i < |a| ensures a[i] != ' ' && a[i] != '%' {
      assert Lower(a)[i] == ToLower(a[i]);
      assert "department"[i] != ' ' && "department"[i] != '%';
    }
  }

  lemma KeptPair(top: string, bottom: string)
    requires !IsPlaceholderLevel(top) && !IsPlaceholderLevel(bottom)
    ensures KeptTokens([top, bottom]) == [LevelToken(top), LevelToken(bottom)]
  {
    assert [top, bottom][1..] == [bottom];
    assert [bottom][1..] == [];
  }

  lemma JoinPair(a: string, b: string)
    ensures Join([a, b], "_") == a + "_" + b
  {
    assert [a, b][1..] == [b];
  }

  lemma DoubledDepartment()
    ensures "department" + "_" + "department" == "department_department"
  {
  }

  lemma LowerPair(a: string, b: string)
    ensures Lower(a + "_" + b) == Lower(a) + "_" + Lower(b)
  {
    LowerConcat(a + "_", b);
    LowerConcat(a, "_");
    assert Lower("_") == "_";
  }

  /** Two kept levels that both read "department" in any case collapse to
      one "department". */
  lemma DepartmentCollapses(top: string, bottom: string)
    requires !IsPlaceholderLevel(top) && !IsPlaceholderLevel(bottom)
    requires Lower(LevelToken(top)) == "department" && Lower(LevelToken(bottom)) == "department"
    ensures ColumnName([top, bottom]) == "department"
  {
    var a, b := LevelToken(top), LevelToken(bottom);
    KeptPair(top, bottom);
    JoinPair(a, b);
    DepartmentToken(a);
    DepartmentToken(b);
    var joined := a + "_" + b;
    assert ' ' !in joined && '%' !in joined;
    assert SpacesToUnderscores(joined) == joined;
    ReplaceAllAbsent(joined, "%_of", "pct_of");
    LowerPair(a, b);
    DoubledDepartment();
    assert FormatName([a, b]) == "department_department";
  }

  lemma JoinRepeatedToken()
    ensures Join(["Q1", "Q1"], "_") == "Q1_Q1"
  {
    assert ["Q1", "Q1"][1..] == ["Q1"];
  }

  lemma LowerRepeatedToken()
    ensures Lower("Q1_Q1") == "q1_q1"
  {
  }

  lemma FormatRepeatedToken()
    ensures FormatName(["Q1", "Q1"]) == "q1_q1"
  {
    JoinRepeatedToken();
    assert SpacesToUnderscores("Q1_Q1") == "Q1_Q1";
    ReplaceAllAbsent("Q1_Q1", "%_of", "pct_of");
    LowerRepeatedToken();
  }

  lemma PlainLevel()
    ensures !IsPlaceholderLevel("Q1") && LevelToken("Q1") == "Q1"
  {
    assert Lower("Q1") == "q1";
    assert BeforeFirst("Q1", '/') == "Q1";
    assert LStrip("Q1") == "Q1";
    assert RStrip("Q1") == "Q1";
  }

  /** Repeated levels other than "department" are kept, not collapsed. */
  lemma RepeatedLevelsKept()
    ensures ColumnName(["Q1", "Q1"]) == "q1_q1"
  {
    PlainLevel();
    assert KeptTokens(["Q1", "Q1"]) == ["Q1", "Q1"] by {
      assert ["Q1", "Q1"][1..] == ["Q1"];
      assert ["Q1"][1..] == [];
    }
    FormatRepeatedToken();
  }

  lemma SpacesInPct()
    ensures SpacesToUnderscores("% of GDP") == "%_of_GDP"
  {
  }

  lemma ReplacePct()
    ensures ReplaceAll("%_of_GDP", "%_of", "pct_of") == "pct_of_GDP"
  {
    ReplaceAllAbsent("_GDP", "%_of", "pct_of");
  }

  lemma LowerPct()
    ensures Lower("pct_of_GDP") == "pct_of_gdp"
  {
  }

  /** Spaces become `_` first, so "% of" matches `%_of` and is rewritten. */
  lemma PctOfRewrite()
    ensures FormatName(["% of GDP"]) == "pct_of_gdp"
  {
    SpacesInPct();
    ReplacePct();
    LowerPct();
  }

  lemma SpacesInUpperPct()
    ensures SpacesToUnderscores("% OF GDP") == "%_OF_GDP"
  {
  }

  lemma ReplaceUpperPct()
    ensures ReplaceAll("%_OF_GDP", "%_of", "pct_of") == "%_OF_GDP"
  {
    ReplaceAllAbsent("_OF_GDP", "%_of", "pct_of");
  }

  lemma LowerUpperPct()
    ensures Lower("%_OF_GDP") == "%_of_gdp"
  {
  }

  /** The rewrite runs before lower-casing, so it is case-sensitive: "% OF"
      is left alone and only then lower-cased to `%_of`. */
  lemma PctOfCaseSensitive()
    ensures FormatName(["% OF GDP"]) == "%_of_gdp"
  {
    SpacesInUpperPct();
    ReplaceUpperPct();
    LowerUpperPct();
  }

  /** The rename of the first column to "department", which works by label:
      every column carrying the first column's name is renamed with it. */
  function RenameFirst(names: seq<string>): (columns: seq<string>)
    requires |names| > 0
    ensures |columns| == |names| && columns[0] == "department"
    ensures forall i :: 0 <= i < |names| && names[i] == names[0] ==> columns[i] == "department"
    ensures forall i :: 0 <= i < |names| && names[i] != names[0] ==> columns[i] == names[i]
  {
    seq(|names|, i requires 0 <= i < |names| => if names[i] == names[0] then "department" else names[i])
  }

  /** `new_columns_raw`: one name per column of the filled header. */
  function RawColumnNames(header: seq<seq<Cell>>, width: nat): (raw: seq<string>)
    requires IsRectangular(header, width)
    ensures |raw| == width
  {
    seq(width, c requires 0 <= c < width => ColumnName(ColumnLevels(header, c)))
  }

  lemma DepartmentChars()
    ensures forall ch :: ch in "department" ==> IsV1NameChar(ch)
  {
  }

  /** The table the fixed-header engine writes out, or the exception it raises. */
  function ExtractV1(grid: seq<seq<Cell>>, width: nat, headerStart: int, dataEnd: int): (res: Result<Table>)
    requires IsRectangular(grid, width)
  {
    var t := Slice(grid, headerStart, dataEnd);
    if width == 0 then Err(NoColumns)
    else if |t| < HeaderRowCount then Err(ShortHeader)
    else
      var raw := RawColumnNames(FilledHeader(t[..HeaderRowCount]), width);
      var columns := RenameFirst(Deduplicated(raw));
      if Occurrences(columns, "department") > 1 then Err(AmbiguousFirstColumn)
      else Ok(Table(columns, KeptRows(t[HeaderRowCount..], true)))
  }

  /** The body of the column loop: cleaned levels, joined and formatted, with
      the `department_department` collapse. */
  method NameColumn(levels: seq<string>) returns (name: string)
    ensures name == ColumnName(levels)
  {
    var cleaned := KeptTokens(levels);
    name := FormatName(cleaned);
    if name == "department_department" {
      name := "department";
    }
  }

  /** The loop over the columns of the filled two-row header. */
  method ColumnNames(header: seq<seq<Cell>>, width: nat) returns (raw: seq<string>)
    requires IsRectangular(header, width)
    ensures raw == RawColumnNames(header, width)
  {
    raw := [];
    for c := 0 to width
      invariant |raw| == c
      invariant forall k :: 0 <= k < c ==> raw[k] == ColumnName(ColumnLevels(header, k))
    {
      var name := NameColumn(ColumnLevels(header, c));
      raw := raw + [name];
    }
  }

  /** `process_table_with_pandas` (v1) after loading. */
  method ProcessTableV1(grid: seq<seq<Cell>>, width: nat, headerStart: int, dataEnd: int) returns (res: Result<Table>)
    requires IsRectangular(grid, width)
    ensures res == ExtractV1(grid, width, headerStart, dataEnd)
  {
    var t := Slice(grid, headerStart, dataEnd);
    if width == 0 {
      return Err(NoColumns);
    }
    if |t| < HeaderRowCount {
      return Err(ShortHeader);
    }
    var header := FillHeaderForward(t[..HeaderRowCount]);
    var raw := ColumnNames(header, width);
    var names := Deduplicate(raw);
    var columns := RenameFirst(names);
    if Occurrences(columns, "department") > 1 {
      return Err(AmbiguousFirstColumn);
    }
    res := Ok(Table(columns, KeptRows(t[HeaderRowCount..], true)));
  }

  /** Which fault is raised: no column, then a slice shorter than the two
      header rows (boundaries inside the grid that span at least two rows
      never give one), then a second column named "department" after the
      rename. */
  lemma ExtractV1Faults(grid: seq<seq<Cell>>, width: nat, headerStart: int, dataEnd: int)
    requires IsRectangular(grid, width)
    ensures ExtractV1(grid, width, headerStart, dataEnd) == Err(NoColumns) <==> width == 0
    ensures ExtractV1(grid, width, headerStart, dataEnd) == Err(ShortHeader) <==>
      width > 0 && |Slice(grid, headerStart, dataEnd)| < 2
    ensures 0 <= headerStart < dataEnd < |grid| ==> ExtractV1(grid, width, headerStart, dataEnd) != Err(ShortHeader)
    ensures ExtractV1(grid, width, headerStart, dataEnd) == Err(AmbiguousFirstColumn) <==>
      var t := Slice(grid, headerStart, dataEnd);
      width > 0 && |t| >= 2
      && var columns := RenameFirst(Deduplicated(RawColumnNames(FilledHeader(t[..2]), width)));
         exists c :: 0 < c < width && columns[c] == "department"
  {
    var t := Slice(grid, headerStart, dataEnd);
    if width > 0 && |t| >= 2 {
      var columns := RenameFirst(Deduplicated(RawColumnNames(FilledHeader(t[..2]), width)));
      if Occurrences(columns, "department") > 1 {
        OccurrencesSecond(columns, "department");
      }
      if c :| 0 < c < width && columns[c] == "department" {
        OccurrencesTwo(columns, 0, c, "department");
      }
    }
  }

  /** On success the first column is "department" and no other column is,
      there is one name per column, and the rows are exactly the data rows
      after the two header rows that pass both filters, in order. */
  lemma ExtractV1Table(grid: seq<seq<Cell>>, width: nat, headerStart: int, dataEnd: int)
    requires IsRectangular(grid, width)
    requires ExtractV1(grid, width, headerStart, dataEnd).Ok?
    ensures var t := Slice(grid, headerStart, dataEnd);
      var table := ExtractV1(grid, width, headerStart, dataEnd).value;
      |t| >= 2 && |table.columns| == width && table.columns[0] == "department"
      && (forall c :: 0 < c < width ==> table.columns[c] != "department")
      && (forall c :: 0 < c < width ==>
            table.columns[c] == Deduplicated(RawColumnNames(FilledHeader(t[..2]), width))[c])
      && IsSelection(table.rows, t[2..], true, KeptIndices(t[2..], true))
  {
    var t := Slice(grid, headerStart, dataEnd);
    var columns := ExtractV1(grid, width, headerStart, dataEnd).value.columns;
    forall c | 0 < c < width ensures columns[c] != "department" {
      if columns[c] == "department" {
        OccurrencesTwo(columns, 0, c, "department");
      }
    }
    KeptRowsSelect(t[2..], true);
  }

  /** Kept rows are never entirely blank and their department cell never
      mentions "total" or "departments". */
  lemma ExtractV1RowsFiltered(grid: seq<seq<Cell>>, width: nat, headerStart: int, dataEnd: int, k: nat)
    requires IsRectangular(grid, width)
    requires ExtractV1(grid, width, headerStart, dataEnd).Ok?
    requires k < |ExtractV1(grid, width, headerStart, dataEnd).value.rows|
    ensures var table := ExtractV1(grid, width, headerStart, dataEnd).value;
      !IsBlankRow(table.rows[k]) && !MentionsSummary(Str(table.rows[k][0]))
  {
    var t := Slice(grid, headerStart, dataEnd);
    KeptRowsSelect(t[2..], true);
    var i := KeptIndices(t[2..], true)[k];
    assert |t[2..][i]| == width;
  }

  /** No final name holds a space, a `/` or an upper-case letter. */
  lemma ExtractV1NameChars(grid: seq<seq<Cell>>, width: nat, headerStart: int, dataEnd: int)
    requires IsRectangular(grid, width)
    requires ExtractV1(grid, width, headerStart, dataEnd).Ok?
    ensures var table := ExtractV1(grid, width, headerStart, dataEnd).value;
      forall c, ch :: 0 <= c < |table.columns| && ch in table.columns[c] ==> IsV1NameChar(ch)
  {
    var t := Slice(grid, headerStart, dataEnd);
    var header := FilledHeader(t[..HeaderRowCount]);
    var raw := RawColumnNames(header, width);
    forall c | 0 <= c < width {
      ColumnNameChars(ColumnLevels(header, c));
    }
    DedupChars(raw, IsV1NameChar);
    DepartmentChars();
    RenameFirstChars(Deduplicated(raw));
  }

  lemma RenameFirstChars(names: seq<string>)
    requires |names| > 0
    requires forall c, ch :: 0 <= c < |names| && ch in names[c] ==> IsV1NameChar(ch)
    requires forall ch :: ch in "department" ==> IsV1NameChar(ch)
    ensures forall c, ch :: 0 <= c < |names| && ch in RenameFirst(names)[c] ==> IsV1NameChar(ch)
  {
  }
}
