/** Header analysis of the adaptive engine: `clean_header_name`, the choice
    between a simple and a complex header and its depth, and the flattening of
    a multi-row header into one raw name per column. */
module HeaderV2 {
  import opened Strings
  import opened Grid

  /** The characters the cleaning regex deletes:
      / _ ? ! @ # % & * ( ) [ ] { } ; : , . < > | \ " ' */
  predicate IsStripped(ch: char) {
    ch in {'/', '_', '?', '!', '@', '#', '%', '&', '*', '(', ')', '[', ']', '{', '}',
           ';', ':', ',', '.', '<', '>', '|', '\\', '"', '\''}
  }

  /** A character the cleaning regex leaves in place. */
  predicate IsUnstripped(ch: char) {
    !IsStripped(ch)
  }

  /** Deletes every stripped character (`re.sub(..., '', s)`). */
  function RemovePunctuation(s: string): (r: string)
    ensures |r| <= |s|
    ensures forall ch :: ch in r ==> ch in s && !IsStripped(ch)
  {
    if |s| == 0 then ""
    else (if IsStripped(s[0]) then "" else [s[0]]) + RemovePunctuation(s[1..])
  }

  lemma {:induction false} RemovePunctuationSnoc(s: string, ch: char)
    ensures RemovePunctuation(s + [ch]) == RemovePunctuation(s) + (if IsStripped(ch) then "" else [ch])
  {
    if |s| > 0 {
      var head: string := if IsStripped(s[0]) then "" else [s[0]];
      assert (s + [ch])[0] == s[0];
      assert (s + [ch])[1..] == s[1..] + [ch];
      RemovePunctuationSnoc(s[1..], ch);
      assert RemovePunctuation(s + [ch]) == head + RemovePunctuation(s[1..] + [ch]);
    }
  }

  /** The regex deletes exactly the stripped characters: every other
      character survives, in its original order. */
  lemma {:induction false} RemovePunctuationSelect(s: string)
    ensures IsCharSelection(RemovePunctuation(s), s, Positions(s, IsUnstripped), IsUnstripped)
  {
    if |s| > 0 {
      var init := s[..|s| - 1];
      RemovePunctuationSelect(init);
      assert s == init + [s[|s| - 1]];
      RemovePunctuationSnoc(init, s[|s| - 1]);
      CharSelectionSnoc(RemovePunctuation(init), init, Positions(init, IsUnstripped), IsUnstripped, s[|s| - 1]);
    }
  }

  /** `clean_header_name(name)` applied to the text of a header cell. */
  function CleanHeaderName(s: string): string {
    Lower(SpacesToUnderscores(RemovePunctuation(s)))
  }

  /** A character a cleaned name may hold: no space, no upper-case letter and
      none of the stripped characters except `_`. */
  predicate IsNameChar(ch: char) {
    ch != ' ' && !IsUpper(ch) && (ch == '_' || !IsStripped(ch))
  }

  lemma {:induction false} CountCharConcat(a: string, b: string, ch: char)
    ensures CountChar(a + b, ch) == CountChar(a, ch) + CountChar(b, ch)
  {
    if |a| > 0 {
      assert (a + b)[0] == a[0];
      assert (a + b)[1..] == a[1..] + b;
      CountCharConcat(a[1..], b, ch);
    } else {
      assert a + b == b;
    }
  }

  lemma {:induction false} RemovePunctuationCounts(s: string)
    ensures CountChar(RemovePunctuation(s), ' ') == CountChar(s, ' ')
    ensures CountChar(RemovePunctuation(s), '_') == 0
  {
    if |s| > 0 {
      RemovePunctuationCounts(s[1..]);
      var head: string := if IsStripped(s[0]) then "" else [s[0]];
      CountCharConcat(head, RemovePunctuation(s[1..]), ' ');
      CountCharConcat(head, RemovePunctuation(s[1..]), '_');
    }
  }

  lemma {:induction false} SpacesToUnderscoresCount(s: string)
    ensures CountChar(SpacesToUnderscores(s), '_') == CountChar(s, '_') + CountChar(s, ' ')
  {
    if |s| > 0 {
      assert SpacesToUnderscores(s)[1..] == SpacesToUnderscores(s[1..]);
      SpacesToUnderscoresCount(s[1..]);
    }
  }

  lemma {:induction false} LowerCount(s: string)
    ensures CountChar(Lower(s), '_') == CountChar(s, '_')
  {
    if |s| > 0 {
      assert Lower(s)[1..] == Lower(s[1..]);
      LowerCount(s[1..]);
    }
  }

  /** Every character of a cleaned name is a name character. */
  lemma CleanHeaderNameChars(s: string)
    ensures forall ch :: ch in CleanHeaderName(s) ==> IsNameChar(ch)
  {
    var t := RemovePunctuation(s);
    var u := SpacesToUnderscores(t);
    forall ch | ch in CleanHeaderName(s) ensures IsNameChar(ch) {
      var i :| 0 <= i < |u| && CleanHeaderName(s)[i] == ch;
      assert t[i] in t;
    }
  }

  /** A cleaned name holds no space, no upper-case letter and no stripped
      character except `_`, and each of its `_` stands for a space of the
      input (the input's own `_` are deleted). */
  lemma CleanHeaderNameSpec(s: string)
    ensures forall ch :: ch in CleanHeaderName(s) ==> IsNameChar(ch)
    ensures CountChar(CleanHeaderName(s), '_') == CountChar(s, ' ')
    ensures |CleanHeaderName(s)| <= |s|
  {
    var t := RemovePunctuation(s);
    RemovePunctuationCounts(s);
    SpacesToUnderscoresCount(t);
    LowerCount(SpacesToUnderscores(t));
    CleanHeaderNameChars(s);
  }

  lemma RemoveNoPunctuation()
    ensures RemovePunctuation("A B") == "A B"
  {
  }

  lemma LowerSpacedName()
    ensures Lower("A_B") == "a_b"
  {
  }

  lemma CleanSpacedName()
    ensures CleanHeaderName("A B") == "a_b"
  {
    RemoveNoPunctuation();
    assert SpacesToUnderscores("A B") == "A_B";
    LowerSpacedName();
  }

  lemma RemoveUnderscore()
    ensures RemovePunctuation("a_b") == "ab"
  {
  }

  lemma CleanUnderscoredName()
    ensures CleanHeaderName("a_b") == "ab"
  {
    RemoveUnderscore();
    assert SpacesToUnderscores("ab") == "ab";
    assert Lower("ab") == "ab";
  }

  /** Cleaning is not idempotent: a space becomes `_`, which a second pass deletes. */
  lemma CleanHeaderNameNotIdempotent()
    ensures CleanHeaderName(CleanHeaderName("A B")) != CleanHeaderName("A B")
  {
    CleanSpacedName();
    CleanUnderscoredName();
  }

  /** Every row has a first cell (the grid has at least one column). */
  predicate HasFirstColumn(t: seq<seq<Cell>>) {
    forall r :: 0 <= r < |t| ==> |t[r]| > 0
  }

  /** The complex path is taken unless there is a row 1 whose first cell is visible. */
  predicate IsComplexHeader(t: seq<seq<Cell>>)
    requires HasFirstColumn(t)
  {
    !(|t| > 1 && HasContent(t[1][0]))
  }

  function Min(a: int, b: int): int { if a <= b then a else b }

  function Max(a: int, b: int): int { if a <= b then b else a }

  /** The scan of rows 1 to min(5, n) - 1 for a visible first cell, from row `i`. */
  function ScanDepth(t: seq<seq<Cell>>, i: nat): nat
    requires HasFirstColumn(t)
    decreases Max(0, Min(5, |t|) - i)
  {
    if i >= Min(5, |t|) then i
    else if HasContent(t[i][0]) then i
    else ScanDepth(t, i + 1)
  }

  /** `header_row_count` */
  function HeaderDepth(t: seq<seq<Cell>>): nat
    requires HasFirstColumn(t)
  {
    if IsComplexHeader(t) then ScanDepth(t, 1) else 1
  }

  lemma {:induction false} ScanDepthSpec(t: seq<seq<Cell>>, i: nat)
    requires HasFirstColumn(t)
    requires 1 <= i <= Max(1, Min(5, |t|))
    ensures i <= ScanDepth(t, i) <= Max(1, Min(5, |t|))
    ensures forall k :: i <= k < ScanDepth(t, i) ==> !HasContent(t[k][0])
    ensures ScanDepth(t, i) < Min(5, |t|) ==> HasContent(t[ScanDepth(t, i)][0])
    decreases Max(0, Min(5, |t|) - i)
  {
    if i < Min(5, |t|) && !HasContent(t[i][0]) {
      ScanDepthSpec(t, i + 1);
    }
  }

  /** The header depth is 1 for a simple header or a slice of at most one row;
      otherwise it is the first row among 1..min(5, n) - 1 whose first cell is
      visible, or min(5, n) if there is none. So 1 <= depth <= max(1, min(5, n)). */
  lemma HeaderDepthSpec(t: seq<seq<Cell>>)
    requires HasFirstColumn(t)
    ensures 1 <= HeaderDepth(t) <= Max(1, Min(5, |t|))
    ensures !IsComplexHeader(t) || |t| <= 1 ==> HeaderDepth(t) == 1
    ensures forall k :: 1 <= k < HeaderDepth(t) ==> !HasContent(t[k][0])
    ensures HeaderDepth(t) < Min(5, |t|) ==> HasContent(t[HeaderDepth(t)][0])
    ensures IsComplexHeader(t) && |t| > 1 ==> HeaderDepth(t) >= 2
  {
    ScanDepthSpec(t, 1);
  }

  /** The detection of `process_table_with_pandas`: the simple/complex test and
      the scanning loop with its `break`. */
  method DetectHeader(t: seq<seq<Cell>>) returns (complex: bool, depth: nat)
    requires HasFirstColumn(t)
    ensures complex == IsComplexHeader(t)
    ensures depth == HeaderDepth(t)
  {
    complex := true;
    if |t| > 1 {
      if HasContent(t[1][0]) {
        complex := false;
      }
    }
    depth := 1;
    if complex {
      var i := 1;
      while i < Min(5, |t|)
        invariant 1 <= i <= Max(1, Min(5, |t|))
        invariant depth == i
        invariant ScanDepth(t, i) == ScanDepth(t, 1)
      {
        if HasContent(t[i][0]) {
          depth := i;
          break;
        }
        depth := i + 1;
        i := i + 1;
      }
    }
  }

  /** Position of the first occurrence of `x` in `xs`. */
  function FirstIndex(xs: seq<string>, x: string): (i: nat)
    requires x in xs
    ensures i < |xs| && xs[i] == x && x !in xs[..i]
  {
    if x in xs[..|xs| - 1] then FirstIndex(xs[..|xs| - 1], x) else |xs| - 1
  }

  /** Pandas `unique` over a list: the same values, each once, in the order
      of their first occurrence. */
  function Unique(xs: seq<string>): seq<string> {
    if |xs| == 0 then []
    else
      var u := Unique(xs[..|xs| - 1]);
      if xs[|xs| - 1] in u then u else u + [xs[|xs| - 1]]
  }

  lemma {:induction false} FirstIndexPrefix(xs: seq<string>, x: string)
    requires |xs| > 0 && x in xs[..|xs| - 1]
    ensures FirstIndex(xs, x) == FirstIndex(xs[..|xs| - 1], x)
  {
  }

  /** The unique values are the values of the list, each once, in the order
      of their first occurrence. */
  lemma {:induction false} UniqueSpec(xs: seq<string>)
    ensures forall x :: x in Unique(xs) <==> x in xs
    ensures forall p, q :: 0 <= p < q < |Unique(xs)| ==> Unique(xs)[p] != Unique(xs)[q]
    ensures forall p, q :: 0 <= p < q < |Unique(xs)| ==> FirstIndex(xs, Unique(xs)[p]) < FirstIndex(xs, Unique(xs)[q])
  {
    if |xs| > 0 {
      var init := xs[..|xs| - 1];
      UniqueSpec(init);
      var u := Unique(init);
      assert forall x :: x in init ==> x in xs;
      assert xs == init + [xs[|xs| - 1]];
      forall x | x in u {
        FirstIndexPrefix(xs, x);
      }
    }
  }

  /** A list holding one value, possibly several times, collapses to that value. */
  lemma {:induction false} UniqueOfRepeats(xs: seq<string>, x: string)
    requires |xs| > 0
    requires forall y :: y in xs ==> y == x
    ensures Unique(xs) == [x]
  {
    var init := xs[..|xs| - 1];
    assert xs[|xs| - 1] in xs;
    if |init| > 0 {
      assert forall y :: y in init ==> y in xs;
      UniqueOfRepeats(init, x);
    }
  }

  /** The rendered text of column `c` in every header row, top to bottom. */
  function ColumnLevels(header: seq<seq<Cell>>, c: nat): (levels: seq<string>)
    requires forall r :: 0 <= r < |header| ==> c < |header[r]|
    ensures |levels| == |header|
  {
    seq(|header|, r requires 0 <= r < |header| => Str(header[r][c]))
  }

  /** The cleaned levels, placeholders dropped, in order. */
  function CleanedLevels(levels: seq<string>): seq<string> {
    if |levels| == 0 then []
    else (if IsPlaceholderLevel(levels[0]) then [] else [CleanHeaderName(levels[0])]) + CleanedLevels(levels[1..])
  }

  lemma {:induction false} CleanedLevelsSnoc(levels: seq<string>, level: string)
    ensures CleanedLevels(levels + [level]) ==
      CleanedLevels(levels) + (if IsPlaceholderLevel(level) then [] else [CleanHeaderName(level)])
  {
    if |levels| > 0 {
      assert (levels + [level])[0] == levels[0];
      assert (levels + [level])[1..] == levels[1..] + [level];
      CleanedLevelsSnoc(levels[1..], level);
    }
  }

  /** The level filter keeps exactly the levels that are neither blank nor
      an "unnamed" label, each cleaned, in their original order. */
  lemma {:induction false} CleanedLevelsSelect(levels: seq<string>)
    ensures IsLevelSelection(CleanedLevels(levels), levels, KeptLevelPositions(levels), CleanHeaderName)
  {
    if |levels| > 0 {
      var init := levels[..|levels| - 1];
      CleanedLevelsSelect(init);
      assert levels == init + [levels[|levels| - 1]];
      CleanedLevelsSnoc(init, levels[|levels| - 1]);
      LevelSelectionSnoc(CleanedLevels(init), init, KeptLevelPositions(init), CleanHeaderName, levels[|levels| - 1]);
    }
  }

  lemma {:induction false} CleanedLevelsChars(levels: seq<string>)
    ensures forall x, ch :: x in CleanedLevels(levels) && ch in x ==> IsNameChar(ch)
  {
    if |levels| > 0 {
      CleanHeaderNameSpec(levels[0]);
      CleanedLevelsChars(levels[1..]);
    }
  }

  lemma {:induction false} CleanedLevelsOfPlaceholders(levels: seq<string>)
    requires forall l :: l in levels ==> IsPlaceholderLevel(l)
    ensures CleanedLevels(levels) == []
  {
    if |levels| > 0 {
      assert levels[0] in levels;
      assert forall l :: l in levels[1..] ==> l in levels;
      CleanedLevelsOfPlaceholders(levels[1..]);
    }
  }

  /** The placeholder for column `c`: f'unnamed_col_{col_idx}'. */
  function Placeholder(c: nat): string {
    "unnamed_col_" + NatToString(c)
  }

  /** The raw name of column `c` of a forward-filled complex header. */
  function ComplexName(header: seq<seq<Cell>>, c: nat): (name: string)
    requires forall r :: 0 <= r < |header| ==> c < |header[r]|
    ensures name != ""
  {
    var joined := Join(Unique(CleanedLevels(ColumnLevels(header, c))), "_");
    if joined == "" then Placeholder(c) else joined
  }

  lemma PlaceholderChars(c: nat)
    ensures forall ch :: ch in Placeholder(c) ==> IsNameChar(ch)
  {
    var p := Placeholder(c);
    var digits := NatToString(c);
    forall i | 0 <= i < |p| ensures IsNameChar(p[i]) {
      if i >= 12 {
        assert p[i] == digits[i - 12];
      }
    }
  }

  /** Complex-path names are never empty and are made of name characters. */
  lemma ComplexNameChars(header: seq<seq<Cell>>, c: nat)
    requires forall r :: 0 <= r < |header| ==> c < |header[r]|
    ensures ComplexName(header, c) != ""
    ensures forall ch :: ch in ComplexName(header, c) ==> IsNameChar(ch)
  {
    var cleaned := CleanedLevels(ColumnLevels(header, c));
    CleanedLevelsChars(ColumnLevels(header, c));
    UniqueSpec(cleaned);
    JoinChars(Unique(cleaned), "_", IsNameChar);
    PlaceholderChars(c);
  }

  /** A column whose every level is blank or an "unnamed" label gets the placeholder. */
  lemma ComplexNameOfPlaceholders(header: seq<seq<Cell>>, c: nat)
    requires forall r :: 0 <= r < |header| ==> c < |header[r]|
    requires forall r :: 0 <= r < |header| ==> IsPlaceholderLevel(Str(header[r][c]))
    ensures ComplexName(header, c) == Placeholder(c)
  {
    CleanedLevelsOfPlaceholders(ColumnLevels(header, c));
  }

  /** A label repeated at every kept level yields one token, not a repeated one. */
  lemma ComplexNameOfRepeatedLevel(header: seq<seq<Cell>>, c: nat, token: string)
    requires forall r :: 0 <= r < |header| ==> c < |header[r]|
    requires token != ""
    requires |CleanedLevels(ColumnLevels(header, c))| > 0
    requires forall x :: x in CleanedLevels(ColumnLevels(header, c)) ==> x == token
    ensures ComplexName(header, c) == token
  {
    UniqueOfRepeats(CleanedLevels(ColumnLevels(header, c)), token);
  }

  /** The body of the column loop: the column's levels, filtered, cleaned,
      made unique and joined, with the placeholder for an empty join. */
  method NameComplexColumn(header: seq<seq<Cell>>, c: nat) returns (name: string)
    requires forall r :: 0 <= r < |header| ==> c < |header[r]|
    ensures name == ComplexName(header, c)
  {
    var levels := ColumnLevels(header, c);
    var unique := Unique(CleanedLevels(levels));
    name := Join(unique, "_");
    if name == "" {
      name := Placeholder(c);
    }
  }

  /** The loop over the columns of a forward-filled complex header. */
  method ComplexNames(header: seq<seq<Cell>>, width: nat) returns (raw: seq<string>)
    requires IsRectangular(header, width)
    ensures |raw| == width
    ensures forall c :: 0 <= c < width ==> raw[c] == ComplexName(header, c)
  {
    raw := [];
    for c := 0 to width
      invariant |raw| == c
      invariant forall k :: 0 <= k < c ==> raw[k] == ComplexName(header, k)
    {
      assert forall r :: 0 <= r < |header| ==> c < |header[r]|;
      var name := NameComplexColumn(header, c);
      assert forall k :: 0 <= k < c ==> (raw + [name])[k] == raw[k];
      raw := raw + [name];
    }
  }

  /** The names of a simple header: each first-row cell cleaned as is. */
  function SimpleNames(row: seq<Cell>): (names: seq<string>)
    ensures |names| == |row|
  {
    seq(|row|, c requires 0 <= c < |row| => CleanHeaderName(Str(row[c])))
  }

  lemma {:induction false} RemovePunctuationAll(s: string)
    requires forall ch :: ch in s ==> IsStripped(ch)
    ensures RemovePunctuation(s) == ""
  {
    if |s| > 0 {
      assert s[0] in s;
      assert forall ch :: ch in s[1..] ==> ch in s;
      RemovePunctuationAll(s[1..]);
    }
  }

  lemma RemoveNan()
    ensures RemovePunctuation("nan") == "nan"
  {
  }

  lemma SpacesNan()
    ensures SpacesToUnderscores("nan") == "nan"
  {
  }

  lemma LowerNan()
    ensures Lower("nan") == "nan"
  {
  }

  lemma CleanNan()
    ensures CleanHeaderName("nan") == "nan"
  {
    RemoveNan();
    SpacesNan();
    LowerNan();
  }

  /** A simple header has neither level filtering nor placeholder: a blank
      cell is named "nan", and a cell made only of stripped characters gets
      the empty name. */
  lemma SimpleNamesNoFallback(row: seq<Cell>, c: nat)
    requires c < |row|
    ensures row[c].Blank? ==> SimpleNames(row)[c] == "nan"
    ensures row[c].Text? && (forall ch :: ch in row[c].text ==> IsStripped(ch)) ==> SimpleNames(row)[c] == ""
  {
    CleanNan();
    if row[c].Text? && (forall ch :: ch in row[c].text ==> IsStripped(ch)) {
      RemovePunctuationAll(row[c].text);
    }
  }

  /** Simple-path names hold only name characters (but may be empty). */
  lemma SimpleNamesChars(row: seq<Cell>)
    ensures forall c, ch :: 0 <= c < |row| && ch in SimpleNames(row)[c] ==> IsNameChar(ch)
  {
    forall c | 0 <= c < |row| {
      CleanHeaderNameSpec(Str(row[c]));
    }
  }
}
