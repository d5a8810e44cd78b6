/** The adaptive engine `process_table_with_pandas` (v2): commentaries, the
    slice, header detection, name building, de-duplication and the row
    filters, from the grid and the two boundary indices to the clean table. */
module PandasV2 {
  import opened Grid
  import opened ForwardFill
  import opened NameDedup
  import opened RowFilter
  import opened HeaderV2
  import opened CommentaryExtractor

  /** `new_columns_raw` of a non-empty slice with at least one column. */
  function RawNames(t: seq<seq<Cell>>, width: nat): (raw: seq<string>)
    requires |t| > 0 && width > 0 && IsRectangular(t, width)
    ensures |raw| == width
  {
    if IsComplexHeader(t) then
      HeaderDepthSpec(t);
      var header := FilledHeader(t[..HeaderDepth(t)]);
      seq(width, c requires 0 <= c < width => ComplexName(header, c))
    else
      SimpleNames(t[0])
  }

  /** The table `process_table_with_pandas` writes out, or the exception it raises. */
  function Extract(grid: seq<seq<Cell>>, width: nat, headerStart: int, dataEnd: int): (res: Result<Table>)
    requires IsRectangular(grid, width)
  {
    var t := Slice(grid, headerStart, dataEnd);
    if width == 0 then Err(NoColumns)
    else if |t| == 0 then Err(NoHeaderRow)
    else
      HeaderDepthSpec(t);
      var names := Deduplicated(RawNames(t, width));
      var screen := names[0] != "";
      if screen && Occurrences(names, names[0]) > 1 then Err(AmbiguousFirstColumn)
      else Ok(Table(names, KeptRows(t[HeaderDepth(t)..], screen)))
  }

  /** The whole of `process_table_with_pandas` after loading: the commentary
      list and the clean table. */
  method ProcessTable(grid: seq<seq<Cell>>, width: nat, headerStart: int, dataEnd: int)
    returns (commentaries: seq<Commentary>, res: Result<Table>)
    requires IsRectangular(grid, width)
    ensures commentaries == Commentaries(grid, headerStart, dataEnd)
    ensures res == Extract(grid, width, headerStart, dataEnd)
  {
    commentaries := ExtractCommentaries(grid, headerStart, dataEnd);
    var t := Slice(grid, headerStart, dataEnd);
    if width == 0 {
      return commentaries, Err(NoColumns);
    }
    if |t| == 0 {
      return commentaries, Err(NoHeaderRow);
    }
    var complex, depth := DetectHeader(t);
    HeaderDepthSpec(t);
    var raw: seq<string>;
    if complex {
      var header := FillHeaderForward(t[..depth]);
      raw := ComplexNames(header, width);
      assert raw == RawNames(t, width);
    } else {
      raw := SimpleNames(t[0]);
    }
    var names := Deduplicate(raw);
    var firstColumnName := names[0];
    var screen := firstColumnName != "";
    if screen && Occurrences(names, firstColumnName) > 1 {
      return commentaries, Err(AmbiguousFirstColumn);
    }
    var dataRows := KeptRows(t[depth..], screen);
    res := Ok(Table(names, dataRows));
  }

  /** Which fault is raised: a grid without columns, then an empty slice,
      then a first column whose name another column shares. With boundaries
      inside the grid the slice is never empty. */
  lemma ExtractFaults(grid: seq<seq<Cell>>, width: nat, headerStart: int, dataEnd: int)
    requires IsRectangular(grid, width)
    ensures Extract(grid, width, headerStart, dataEnd) == Err(NoColumns) <==> width == 0
    ensures Extract(grid, width, headerStart, dataEnd) == Err(NoHeaderRow) <==>
      width > 0 && |Slice(grid, headerStart, dataEnd)| == 0
    ensures 0 <= headerStart <= dataEnd < |grid| ==> Extract(grid, width, headerStart, dataEnd) != Err(NoHeaderRow)
    ensures Extract(grid, width, headerStart, dataEnd) == Err(AmbiguousFirstColumn) <==>
      var t := Slice(grid, headerStart, dataEnd);
      width > 0 && |t| > 0
      && var names := Deduplicated(RawNames(t, width));
         names[0] != "" && exists c :: 0 < c < width && names[c] == names[0]
  {
    var t := Slice(grid, headerStart, dataEnd);
    if width > 0 && |t| > 0 {
      var names := Deduplicated(RawNames(t, width));
      if Occurrences(names, names[0]) > 1 {
        OccurrencesSecond(names, names[0]);
      }
      if c :| 0 < c < width && names[c] == names[0] {
        OccurrencesTwo(names, 0, c, names[0]);
      }
    }
  }

  /** On success the table has one name per column, the header takes the
      first `depth` rows of the slice (1 <= depth <= max(1, min(5, n))), and
      the rows are exactly the data rows after it that pass the filters, in
      order; the summary filter runs only when the first name is non-empty. */
  lemma ExtractTable(grid: seq<seq<Cell>>, width: nat, headerStart: int, dataEnd: int)
    requires IsRectangular(grid, width)
    requires Extract(grid, width, headerStart, dataEnd).Ok?
    ensures var t := Slice(grid, headerStart, dataEnd);
      var table := Extract(grid, width, headerStart, dataEnd).value;
      width > 0 && |t| > 0 && |table.columns| == width
      && 1 <= HeaderDepth(t) <= Max(1, Min(5, |t|)) && HeaderDepth(t) <= |t|
      && IsSelection(table.rows, t[HeaderDepth(t)..], table.columns[0] != "", KeptIndices(t[HeaderDepth(t)..], table.columns[0] != ""))
  {
    var t := Slice(grid, headerStart, dataEnd);
    HeaderDepthSpec(t);
    var screen := Extract(grid, width, headerStart, dataEnd).value.columns[0] != "";
    KeptRowsSelect(t[HeaderDepth(t)..], screen);
  }

  /** Kept rows are never entirely blank, and when the first column is named
      none of them has a first cell mentioning "total" or "departments". */
  lemma ExtractRowsFiltered(grid: seq<seq<Cell>>, width: nat, headerStart: int, dataEnd: int, k: nat)
    requires IsRectangular(grid, width)
    requires Extract(grid, width, headerStart, dataEnd).Ok?
    requires k < |Extract(grid, width, headerStart, dataEnd).value.rows|
    ensures var table := Extract(grid, width, headerStart, dataEnd).value;
      !IsBlankRow(table.rows[k]) && (table.columns[0] != "" ==> !MentionsSummary(Str(table.rows[k][0])))
  {
    var t := Slice(grid, headerStart, dataEnd);
    HeaderDepthSpec(t);
    var table := Extract(grid, width, headerStart, dataEnd).value;
    var screen := table.columns[0] != "";
    KeptRowsSelect(t[HeaderDepth(t)..], screen);
    var i := KeptIndices(t[HeaderDepth(t)..], screen)[k];
    assert |t[HeaderDepth(t)..][i]| == width;
  }

  /** Every final name is made of name characters: no space, no upper-case
      letter, no stripped character except `_`. */
  lemma ExtractNameChars(grid: seq<seq<Cell>>, width: nat, headerStart: int, dataEnd: int)
    requires IsRectangular(grid, width)
    requires Extract(grid, width, headerStart, dataEnd).Ok?
    ensures var table := Extract(grid, width, headerStart, dataEnd).value;
      forall c, ch :: 0 <= c < |table.columns| && ch in table.columns[c] ==> IsNameChar(ch)
  {
    var t := Slice(grid, headerStart, dataEnd);
    var raw := RawNames(t, width);
    if IsComplexHeader(t) {
      HeaderDepthSpec(t);
      var header := FilledHeader(t[..HeaderDepth(t)]);
      forall c | 0 <= c < width {
        ComplexNameChars(header, c);
      }
    } else {
      SimpleNamesChars(t[0]);
    }
    DedupChars(raw, IsNameChar);
  }

  /** With a complex header no final name is empty, so the summary filter
      always runs. */
  lemma ExtractComplexNamesNonEmpty(grid: seq<seq<Cell>>, width: nat, headerStart: int, dataEnd: int)
    requires IsRectangular(grid, width)
    requires Extract(grid, width, headerStart, dataEnd).Ok?
    requires IsComplexHeader(Slice(grid, headerStart, dataEnd))
    ensures var table := Extract(grid, width, headerStart, dataEnd).value;
      forall c :: 0 <= c < |table.columns| ==> table.columns[c] != ""
  {
    var t := Slice(grid, headerStart, dataEnd);
    HeaderDepthSpec(t);
    var header := FilledHeader(t[..HeaderDepth(t)]);
    forall c | 0 <= c < width {
      ComplexNameChars(header, c);
    }
  }

  /** When no raw name is another raw name with a `_<k>` suffix, the final
      names are distinct and the first-column fault cannot occur. */
  lemma ExtractDistinctNames(grid: seq<seq<Cell>>, width: nat, headerStart: int, dataEnd: int)
    requires IsRectangular(grid, width)
    requires width > 0 && |Slice(grid, headerStart, dataEnd)| > 0
    requires NoSuffixClash(RawNames(Slice(grid, headerStart, dataEnd), width))
    ensures Extract(grid, width, headerStart, dataEnd).Ok?
    ensures Distinct(Extract(grid, width, headerStart, dataEnd).value.columns)
  {
    var t := Slice(grid, headerStart, dataEnd);
    var names := Deduplicated(RawNames(t, width));
    DedupDistinct(RawNames(t, width));
    OccurrencesOfDistinct(names, 0);
  }

  /** In a duplicate-free list every element occurs once. */
  lemma {:induction false} OccurrencesOfDistinct(xs: seq<string>, i: nat)
    requires Distinct(xs) && i < |xs|
    ensures Occurrences(xs, xs[i]) == 1
  {
    var init := xs[..|xs| - 1];
    if i < |xs| - 1 {
      assert Distinct(init);
      assert init[i] == xs[i];
      OccurrencesOfDistinct(init, i);
    } else {
      OccurrencesZero(init, xs[i]);
    }
  }
}
