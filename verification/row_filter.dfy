/** The row filters applied after the header: rows whose first cell mentions
    "total" or "departments" in any case, and rows whose every cell is
    missing, are dropped; the others keep their order. */
module RowFilter {
  import opened Strings
  import opened Grid

  /** The exclusion pattern, matched without regard to case. */
  predicate MentionsSummary(s: string) {
    Contains(Lower(s), "total") || Contains(Lower(s), "departments")
  }

  /** The first cell, rendered as text, mentions a summary marker. */
  predicate IsSummaryRow(row: seq<Cell>) {
    |row| > 0 && MentionsSummary(Str(row[0]))
  }

  /** Every cell is missing. */
  predicate IsBlankRow(row: seq<Cell>) {
    forall k :: 0 <= k < |row| ==> row[k].Blank?
  }

  /** Whether a data row survives; `screen` says whether the summary filter runs. */
  predicate Keeps(row: seq<Cell>, screen: bool) {
    !(screen && IsSummaryRow(row)) && !IsBlankRow(row)
  }

  /** The kept rows, in their original order. */
  function KeptRows(rows: seq<seq<Cell>>, screen: bool): (kept: seq<seq<Cell>>)
    ensures |kept| <= |rows|
    ensures forall k :: 0 <= k < |kept| ==> Keeps(kept[k], screen)
  {
    if |rows| == 0 then []
    else
      var init := KeptRows(rows[..|rows| - 1], screen);
      if Keeps(rows[|rows| - 1], screen) then init + [rows[|rows| - 1]] else init
  }

  /** The positions of the kept rows in `rows`. */
  function KeptIndices(rows: seq<seq<Cell>>, screen: bool): seq<int> {
    if |rows| == 0 then []
    else
      var init := KeptIndices(rows[..|rows| - 1], screen);
      if Keeps(rows[|rows| - 1], screen) then init + [|rows| - 1] else init
  }

  /** `kept` is the subsequence of `rows` at the increasing positions `idx`, and
      those are exactly the positions of the rows that pass the filters. */
  predicate IsSelection(kept: seq<seq<Cell>>, rows: seq<seq<Cell>>, screen: bool, idx: seq<int>) {
    |idx| == |kept|
    && (forall k :: 0 <= k < |idx| ==> 0 <= idx[k] < |rows| && kept[k] == rows[idx[k]])
    && (forall k, l :: 0 <= k < l < |idx| ==> idx[k] < idx[l])
    && (forall i :: 0 <= i < |rows| ==> (i in idx <==> Keeps(rows[i], screen)))
  }

  /** Extending a selection by one row, kept or not. */
  lemma SelectionSnoc(kept: seq<seq<Cell>>, rows: seq<seq<Cell>>, screen: bool, idx: seq<int>, row: seq<Cell>)
    requires IsSelection(kept, rows, screen, idx)
    ensures IsSelection(kept + (if Keeps(row, screen) then [row] else []), rows + [row], screen,
                        idx + (if Keeps(row, screen) then [|rows|] else []))
  {
    assert forall k :: 0 <= k < |idx| ==> idx[k] < |rows|;
  }

  /** The kept rows are an order-preserving selection of exactly the rows that
      pass both filters. */
  lemma {:induction false} KeptRowsSelect(rows: seq<seq<Cell>>, screen: bool)
    ensures IsSelection(KeptRows(rows, screen), rows, screen, KeptIndices(rows, screen))
  {
    if |rows| > 0 {
      var init := rows[..|rows| - 1];
      var last := rows[|rows| - 1];
      KeptRowsSelect(init, screen);
      assert rows == init + [last];
      assert KeptRows(rows, screen) == KeptRows(init, screen) + (if Keeps(last, screen) then [last] else []);
      assert KeptIndices(rows, screen) == KeptIndices(init, screen) + (if Keeps(last, screen) then [|init|] else []);
      SelectionSnoc(KeptRows(init, screen), init, screen, KeptIndices(init, screen), last);
    }
  }
}
