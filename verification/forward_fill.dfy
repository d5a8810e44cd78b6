/** Forward fill along the columns: each header row is filled left to
    right, a missing cell taking the value of the cell on its left, which
    models horizontally merged header cells. */
module ForwardFill {
  import opened Grid

  /** The filled row, defined one cell at a time from the left. */
  function FFill(s: seq<Cell>): (r: seq<Cell>)
    ensures |r| == |s|
  {
    if |s| == 0 then []
    else
      var p := FFill(s[..|s| - 1]);
      var last := s[|s| - 1];
      p + [if last.Blank? && |p| > 0 then p[|p| - 1] else last]
  }

  /** Index of the last non-blank cell at or before `k`, or -1 if there is none. */
  function PrevFilled(s: seq<Cell>, k: int): (j: int)
    requires -1 <= k < |s|
    ensures -1 <= j <= k
    ensures j >= 0 ==> s[j].Text?
    ensures forall i :: j < i <= k ==> s[i].Blank?
  {
    if k < 0 then -1 else if s[k].Text? then k else PrevFilled(s, k - 1)
  }

  lemma {:induction false} PrevFilledPrefix(s: seq<Cell>, n: nat, k: int)
    requires -1 <= k < n <= |s|
    ensures PrevFilled(s[..n], k) == PrevFilled(s, k)
    decreases k + 1
  {
    if k >= 0 && s[k].Blank? {
      PrevFilledPrefix(s, n, k - 1);
    }
  }

  /** Forward fill keeps non-blank cells, gives a blank cell the nearest
      non-blank value on its left, and leaves a leading blank blank. */
  lemma {:induction false} FFillAt(s: seq<Cell>, k: nat)
    requires k < |s|
    ensures s[k].Text? ==> FFill(s)[k] == s[k]
    ensures FFill(s)[k] == if PrevFilled(s, k) < 0 then Blank else s[PrevFilled(s, k)]
    decreases |s|
  {
    var n := |s| - 1;
    var init := s[..n];
    if k < n {
      FFillAt(init, k);
      PrevFilledPrefix(s, n, k);
    } else if s[k].Blank? && n > 0 {
      FFillAt(init, n - 1);
      PrevFilledPrefix(s, n, n - 1);
    }
  }

  /** Filling an already filled row changes nothing. */
  lemma {:induction false} FFillIdempotent(s: seq<Cell>)
    ensures FFill(FFill(s)) == FFill(s)
  {
    if |s| > 0 {
      var f := FFill(s);
      var p := FFill(s[..|s| - 1]);
      assert f[..|f| - 1] == p;
      FFillIdempotent(s[..|s| - 1]);
    }
  }

  /** Extending the row by one cell extends the filled row by one cell. */
  lemma FFillStep(s: seq<Cell>, i: nat)
    requires i < |s|
    ensures FFill(s[..i + 1]) == FFill(s[..i]) + [if s[i].Blank? && i > 0 then FFill(s[..i])[i - 1] else s[i]]
  {
    assert s[..i + 1][..i] == s[..i];
  }

  /** Fills one header row in place. */
  method FillRowForward(a: array<Cell>)
    modifies a
    ensures a[..] == FFill(old(a[..]))
  {
    ghost var s := a[..];
    var i := 0;
    while i < a.Length
      invariant 0 <= i <= a.Length
      invariant a[..i] == FFill(s[..i])
      invariant a[i..] == s[i..]
    {
      FFillStep(s, i);
      if a[i].Blank? && i > 0 {
        a[i] := a[i - 1];
      }
      assert a[..i + 1] == a[..i] + [a[i]];
      i := i + 1;
    }
    assert s[..a.Length] == s;
  }

  /** The header frame after the fill: every header row filled on its own. */
  function FilledHeader(header: seq<seq<Cell>>): (filled: seq<seq<Cell>>)
    ensures |filled| == |header|
    ensures forall r :: 0 <= r < |header| ==> |filled[r]| == |header[r]|
  {
    seq(|header|, r requires 0 <= r < |header| => FFill(header[r]))
  }

  /** Copies the header rows and fills each copy in place. */
  method FillHeaderForward(header: seq<seq<Cell>>) returns (filled: seq<seq<Cell>>)
    ensures filled == FilledHeader(header)
  {
    filled := [];
    for r := 0 to |header|
      invariant |filled| == r
      invariant forall q :: 0 <= q < r ==> filled[q] == FFill(header[q])
    {
      var row := new Cell[|header[r]|](c requires 0 <= c < |header[r]| => header[r][c]);
      assert row[..] == header[r];
      FillRowForward(row);
      filled := filled + [row[..]];
    }
    assert forall r :: 0 <= r < |header| ==> filled[r] == FilledHeader(header)[r];
  }
}
