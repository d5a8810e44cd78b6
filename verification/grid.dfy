/** Cells and grids as pandas holds a sheet read with `header=None`, the slice
    positional slice of the boundary rows, and the faults the engines raise. */
module Grid {
  import opened Strings

  /** A cell read with `dtype=str`: missing (NaN) or text. */
  datatype Cell = Blank | Text(text: string)

  /** `str(cell)`: a missing cell renders as "nan". */
  function Str(c: Cell): string {
    match c
    case Blank => "nan"
    case Text(s) => s
  }

  /** A cell that is present and not white space only. */
  predicate HasContent(c: Cell) {
    c.Text? && Strip(c.text) != ""
  }

  /** A header level the flatteners drop: its lower-cased text contains
      "unnamed" or is "nan" (so every blank level is dropped). */
  predicate IsPlaceholderLevel(level: string) {
    Contains(Lower(level), "unnamed") || Lower(level) == "nan"
  }

  /** Positions of the levels that are kept, i.e. not placeholders, in increasing order. */
  function KeptLevelPositions(levels: seq<string>): seq<int> {
    if |levels| == 0 then []
    else
      var init := KeptLevelPositions(levels[..|levels| - 1]);
      if IsPlaceholderLevel(levels[|levels| - 1]) then init else init + [|levels| - 1]
  }

  /** `out` is `f` of the levels at the increasing positions `idx`, and those
      are exactly the positions of the levels that are not placeholders. */
  predicate IsLevelSelection(out: seq<string>, levels: seq<string>, idx: seq<int>, f: string -> string) {
    |idx| == |out|
    && (forall k :: 0 <= k < |idx| ==> 0 <= idx[k] < |levels| && out[k] == f(levels[idx[k]]))
    && (forall k, l :: 0 <= k < l < |idx| ==> idx[k] < idx[l])
    && (forall i :: 0 <= i < |levels| ==> (i in idx <==> !IsPlaceholderLevel(levels[i])))
  }

  /** Extending a level selection by one level, kept or not. */
  lemma LevelSelectionSnoc(out: seq<string>, levels: seq<string>, idx: seq<int>, f: string -> string, level: string)
    requires IsLevelSelection(out, levels, idx, f)
    ensures IsLevelSelection(out + (if IsPlaceholderLevel(level) then [] else [f(level)]), levels + [level],
                             idx + (if IsPlaceholderLevel(level) then [] else [|levels|]), f)
  {
    assert forall k :: 0 <= k < |idx| ==> idx[k] < |levels|;
  }

  /** A DataFrame is rectangular: every row has `width` cells. */
  predicate IsRectangular(rows: seq<seq<Cell>>, width: nat) {
    forall r :: 0 <= r < |rows| ==> |rows[r]| == width
  }

  /** Python's normalisation of a slice bound against a length `n`:
      a negative bound counts from the end, and both ends are clamped. */
  function SliceBound(i: int, n: nat): (k: nat)
    ensures k <= n
    ensures 0 <= i <= n ==> k == i
    ensures i < 0 && -i <= n ==> k == n + i
    ensures i > n ==> k == n
    ensures i + n < 0 ==> k == 0
  {
    if i < 0 then (if i + n < 0 then 0 else i + n) else if i > n then n else i
  }

  /** Rows `headerStart` to `dataEnd` inclusive, by Python slicing and without
      any check of the bounds. */
  function Slice(rows: seq<seq<Cell>>, headerStart: int, dataEnd: int): (t: seq<seq<Cell>>)
    ensures var a, b := SliceBound(headerStart, |rows|), SliceBound(dataEnd + 1, |rows|);
      |t| == if a <= b then b - a else 0
    ensures SliceBound(headerStart, |rows|) + |t| <= |rows|
    ensures forall k :: 0 <= k < |t| ==> t[k] == rows[SliceBound(headerStart, |rows|) + k]
    ensures 0 <= headerStart <= dataEnd < |rows| ==>
      |t| == dataEnd - headerStart + 1 && forall k :: 0 <= k < |t| ==> t[k] == rows[headerStart + k]
    ensures forall w: nat :: IsRectangular(rows, w) ==> IsRectangular(t, w)
  {
    var a := SliceBound(headerStart, |rows|);
    var b := SliceBound(dataEnd + 1, |rows|);
    if a <= b then rows[a..b] else []
  }

  /** The exceptions the engines raise on degenerate input. */
  datatype Fault =
    | NoColumns            // the grid has no column: the first access to the first column raises IndexError
    | NoHeaderRow          // the slice is empty: `iloc[0, c]` raises IndexError
    | ShortHeader          // the slice has fewer header rows than are read: `iloc[1, c]` raises IndexError
    | AmbiguousFirstColumn // another column shares the first column's name, so `df[name]` is a
                           // DataFrame and `.str` raises AttributeError

  datatype Result<T> = Ok(value: T) | Err(fault: Fault)

  /** The cleaned table: column names and the kept data rows, in order. */
  datatype Table = Table(columns: seq<string>, rows: seq<seq<Cell>>)
}
