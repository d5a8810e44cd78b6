/** `extract_commentaries`: a row-major scan of the whole grid that records
    every visible cell outside the boundary rows and, inside them, only the
    cells carrying a footnote marker. */
module CommentaryExtractor {
  import opened Strings
  import opened Grid

  datatype Commentary = Commentary(row: nat, col: nat, value: string)

  /** The footnote regex of the source matches somewhere in `s`: a `/` or `*`
      at the start or after whitespace, followed by an ASCII letter or digit
      (the regex is searched, not anchored, and only the first character of
      the `[0-9a-zA-Z]+` run needs to exist). */
  predicate HasFootnoteMarker(s: string) {
    exists i | 0 <= i < |s| - 1 :: IsMarkerAt(s, i)
  }

  predicate IsMarkerAt(s: string, i: int)
    requires 0 <= i < |s| - 1
  {
    (i == 0 || IsSpace(s[i - 1])) && (s[i] == '/' || s[i] == '*') && IsAlnum(s[i + 1])
  }

  /** Row `r` lies inside `[header_start, data_end]`. */
  predicate IsInside(r: int, headerStart: int, dataEnd: int) {
    !(r < headerStart || r > dataEnd)
  }

  /** Whether a cell is recorded, given whether its row is inside the table. */
  predicate IsCommentary(c: Cell, inside: bool) {
    HasContent(c) && (!inside || HasFootnoteMarker(Str(c)))
  }

  /** `a` comes before `b` in row-major order. */
  predicate Precedes(a: Commentary, b: Commentary) {
    a.row < b.row || (a.row == b.row && a.col < b.col)
  }

  predicate InRowMajorOrder(es: seq<Commentary>) {
    forall i, j :: 0 <= i < j < |es| ==> Precedes(es[i], es[j])
  }

  /** The entries of the first `n` cells of row `r`. */
  function RowCommentaries(row: seq<Cell>, r: nat, inside: bool, n: nat): (es: seq<Commentary>)
    requires n <= |row|
    ensures forall e :: e in es ==> e.row == r && e.col < n
    ensures InRowMajorOrder(es)
  {
    if n == 0 then []
    else
      var init := RowCommentaries(row, r, inside, n - 1);
      if IsCommentary(row[n - 1], inside) then init + [Commentary(r, n - 1, Str(row[n - 1]))] else init
  }

  /** The entries of the first `n` rows. */
  function CommentariesUpTo(grid: seq<seq<Cell>>, headerStart: int, dataEnd: int, n: nat): (es: seq<Commentary>)
    requires n <= |grid|
    ensures forall e :: e in es ==> e.row < n
    ensures InRowMajorOrder(es)
  {
    if n == 0 then []
    else
      var init := CommentariesUpTo(grid, headerStart, dataEnd, n - 1);
      var last := RowCommentaries(grid[n - 1], n - 1, IsInside(n - 1, headerStart, dataEnd), |grid[n - 1]|);
      assert forall i, j :: 0 <= i < |init| && 0 <= j < |last| ==> init[i] in init && last[j] in last;
      init + last
  }

  /** The commentary list of the whole grid. */
  function Commentaries(grid: seq<seq<Cell>>, headerStart: int, dataEnd: int): seq<Commentary> {
    CommentariesUpTo(grid, headerStart, dataEnd, |grid|)
  }

  /** The nested loops of the source. */
  method ExtractCommentaries(grid: seq<seq<Cell>>, headerStart: int, dataEnd: int) returns (es: seq<Commentary>)
    ensures es == Commentaries(grid, headerStart, dataEnd)
  {
    es := [];
    for r := 0 to |grid|
      invariant es == CommentariesUpTo(grid, headerStart, dataEnd, r)
    {
      var row := grid[r];
      var inside := IsInside(r, headerStart, dataEnd);
      ghost var start := es;
      for c := 0 to |row|
        invariant es == start + RowCommentaries(row, r, inside, c)
      {
        if HasContent(row[c]) && (!inside || HasFootnoteMarker(Str(row[c]))) {
          es := es + [Commentary(r, c, Str(row[c]))];
        }
      }
    }
  }

  lemma {:induction false} RowCommentariesMembers(row: seq<Cell>, r: nat, inside: bool, n: nat, e: Commentary)
    requires n <= |row|
    ensures e in RowCommentaries(row, r, inside, n) <==>
      e.row == r && e.col < n && IsCommentary(row[e.col], inside) && e.value == Str(row[e.col])
  {
    if n > 0 {
      RowCommentariesMembers(row, r, inside, n - 1, e);
    }
  }

  lemma {:induction false} CommentariesUpToMembers(grid: seq<seq<Cell>>, headerStart: int, dataEnd: int, n: nat, e: Commentary)
    requires n <= |grid|
    ensures e in CommentariesUpTo(grid, headerStart, dataEnd, n) <==>
      e.row < n && e.col < |grid[e.row]|
      && IsCommentary(grid[e.row][e.col], IsInside(e.row, headerStart, dataEnd))
      && e.value == Str(grid[e.row][e.col])
  {
    if n > 0 {
      CommentariesUpToMembers(grid, headerStart, dataEnd, n - 1, e);
      var row := grid[n - 1];
      RowCommentariesMembers(row, n - 1, IsInside(n - 1, headerStart, dataEnd), |row|, e);
    }
  }

  /** An entry is in the list exactly when its cell is visible and either lies
      outside the boundary rows or carries a footnote marker; its value is the
      cell's text. Entries come in strictly increasing row-major order. */
  lemma CommentariesSpec(grid: seq<seq<Cell>>, headerStart: int, dataEnd: int, e: Commentary)
    ensures e in Commentaries(grid, headerStart, dataEnd) <==>
      e.row < |grid| && e.col < |grid[e.row]|
      && HasContent(grid[e.row][e.col])
      && (IsInside(e.row, headerStart, dataEnd) ==> HasFootnoteMarker(grid[e.row][e.col].text))
      && e.value == grid[e.row][e.col].text
    ensures InRowMajorOrder(Commentaries(grid, headerStart, dataEnd))
  {
    CommentariesUpToMembers(grid, headerStart, dataEnd, |grid|, e);
  }
}
