/** ASCII models of the Python string operations that the cleaning engines use:
    `lower`, `isalnum`, `isspace`, `strip`, `replace`, `split`, `in`, `'_'.join`
    and the decimal rendering of an `int` inside an f-string. */
module Strings {

  /** `str.isspace` on ASCII: the space, \t \n \v \f \r and the separators
      0x1C-0x1F. The same set is what `strip()` removes and what the regex
      class `\s` matches. */
  predicate IsSpace(ch: char) {
    ch == ' ' || 9 <= ch as int <= 13 || 28 <= ch as int <= 31
  }

  predicate IsUpper(ch: char) { 'A' <= ch <= 'Z' }

  predicate IsLowerLetter(ch: char) { 'a' <= ch <= 'z' }

  predicate IsDigit(ch: char) { '0' <= ch <= '9' }

  /** `str.isalnum` on ASCII */
  predicate IsAlnum(ch: char) { IsUpper(ch) || IsLowerLetter(ch) || IsDigit(ch) }

  function ToLower(ch: char): (r: char)
    ensures !IsUpper(r)
    ensures IsUpper(ch) ==> IsLowerLetter(r)
    ensures !IsUpper(ch) ==> r == ch
  {
    if IsUpper(ch) then (ch as int + 32) as char else ch
  }

  /** `s.lower()` */
  function Lower(s: string): (r: string)
    ensures |r| == |s|
    ensures forall i :: 0 <= i < |s| ==> r[i] == ToLower(s[i])
  {
    if |s| == 0 then "" else [ToLower(s[0])] + Lower(s[1..])
  }

  /** `s.replace(' ', '_')` */
  function SpacesToUnderscores(s: string): (r: string)
    ensures |r| == |s|
    ensures forall i :: 0 <= i < |s| ==> r[i] == if s[i] == ' ' then '_' else s[i]
  {
    if |s| == 0 then "" else [if s[0] == ' ' then '_' else s[0]] + SpacesToUnderscores(s[1..])
  }

  /** Positions of the characters of `s` that satisfy `keep`, in increasing order. */
  function Positions(s: string, keep: char -> bool): seq<int> {
    if |s| == 0 then []
    else
      var init := Positions(s[..|s| - 1], keep);
      if keep(s[|s| - 1]) then init + [|s| - 1] else init
  }

  /** `kept` is the subsequence of `s` at the increasing positions `idx`, and
      those are exactly the positions of the characters satisfying `keep`. */
  predicate IsCharSelection(kept: string, s: string, idx: seq<int>, keep: char -> bool) {
    |idx| == |kept|
    && (forall k :: 0 <= k < |idx| ==> 0 <= idx[k] < |s| && kept[k] == s[idx[k]])
    && (forall k, l :: 0 <= k < l < |idx| ==> idx[k] < idx[l])
    && (forall i :: 0 <= i < |s| ==> (i in idx <==> keep(s[i])))
  }

  /** Extending a selection by one character of `s`, kept or not. */
  lemma CharSelectionSnoc(kept: string, s: string, idx: seq<int>, keep: char -> bool, ch: char)
    requires IsCharSelection(kept, s, idx, keep)
    ensures IsCharSelection(kept + (if keep(ch) then [ch] else ""), s + [ch],
                            idx + (if keep(ch) then [|s|] else []), keep)
  {
    assert forall k :: 0 <= k < |idx| ==> idx[k] < |s|;
  }

  /** Number of occurrences of `ch` in `s` (`s.count(ch)`). */
  function CountChar(s: string, ch: char): nat {
    if |s| == 0 then 0 else (if s[0] == ch then 1 else 0) + CountChar(s[1..], ch)
  }

  /** `sub` occurs in `s` starting at index `i`. */
  predicate OccursAt(s: string, sub: string, i: int) {
    0 <= i && i + |sub| <= |s| && s[i..i + |sub|] == sub
  }

  /** `sub in s` */
  predicate Contains(s: string, sub: string) {
    exists i | 0 <= i <= |s| - |sub| :: OccursAt(s, sub, i)
  }

  /** `sep.join(xs)` */
  function Join(xs: seq<string>, sep: string): string {
    if |xs| == 0 then ""
    else if |xs| == 1 then xs[0]
    else xs[0] + sep + Join(xs[1..], sep)
  }

  /** A character property shared by every part and by the separator holds of the join. */
  lemma {:induction false} JoinChars(xs: seq<string>, sep: string, P: char -> bool)
    requires forall ch :: ch in sep ==> P(ch)
    requires forall x, ch :: x in xs && ch in x ==> P(ch)
    ensures forall ch :: ch in Join(xs, sep) ==> P(ch)
  {
    if |xs| > 1 {
      JoinChars(xs[1..], sep, P);
    }
  }

  /** `s.lstrip()` */
  function LStrip(s: string): string {
    if |s| > 0 && IsSpace(s[0]) then LStrip(s[1..]) else s
  }

  /** `s.rstrip()` */
  function RStrip(s: string): (r: string)
    ensures r <= s
    ensures |r| > 0 ==> !IsSpace(r[|r| - 1])
    ensures forall i :: |r| <= i < |s| ==> IsSpace(s[i])
  {
    if |s| > 0 && IsSpace(s[|s| - 1]) then RStrip(s[..|s| - 1]) else s
  }

  /** A string that does not end in white space is its own `rstrip`. */
  lemma RStripUnchanged(s: string)
    requires |s| == 0 || !IsSpace(s[|s| - 1])
    ensures RStrip(s) == s
  {
  }

  /** A string without spaces is unchanged by `replace(' ', '_')`. */
  lemma SpacesToUnderscoresUnchanged(s: string)
    requires forall i :: 0 <= i < |s| ==> s[i] != ' '
    ensures SpacesToUnderscores(s) == s
  {
  }

  /** `s.strip()` */
  function Strip(s: string): string {
    RStrip(LStrip(s))
  }

  /** Stripping only removes characters. */
  lemma {:induction false} StripChars(s: string)
    ensures forall ch :: ch in Strip(s) ==> ch in s
  {
    LStripChars(s);
    var l := LStrip(s);
    assert forall ch :: ch in RStrip(l) ==> ch in l;
  }

  lemma {:induction false} LStripChars(s: string)
    ensures forall ch :: ch in LStrip(s) ==> ch in s
  {
    if |s| > 0 && IsSpace(s[0]) {
      LStripChars(s[1..]);
      assert forall ch :: ch in s[1..] ==> ch in s;
    }
  }

  /** Lower-casing works character by character, so it distributes over `+`. */
  lemma LowerConcat(a: string, b: string)
    ensures Lower(a + b) == Lower(a) + Lower(b)
  {
    assert forall i :: 0 <= i < |a + b| ==> Lower(a + b)[i] == (Lower(a) + Lower(b))[i];
  }

  /** `s.split(sep)[0]`: the text before the first `sep`, or all of `s`. */
  function BeforeFirst(s: string, sep: char): (r: string)
    ensures r <= s
    ensures sep !in r
    ensures |r| < |s| ==> s[|r|] == sep
  {
    if |s| == 0 || s[0] == sep then "" else [s[0]] + BeforeFirst(s[1..], sep)
  }

  /** `s.replace(pat, rep)`: every leftmost, non-overlapping occurrence of `pat`. */
  function ReplaceAll(s: string, pat: string, rep: string): string
    requires |pat| > 0
    decreases |s|
  {
    if |s| < |pat| then s
    else if s[..|pat|] == pat then rep + ReplaceAll(s[|pat|..], pat, rep)
    else [s[0]] + ReplaceAll(s[1..], pat, rep)
  }

  /** A character property of the subject and of the replacement holds of the result. */
  lemma {:induction false} ReplaceAllChars(s: string, pat: string, rep: string, P: char -> bool)
    requires |pat| > 0
    requires forall ch :: ch in s ==> P(ch)
    requires forall ch :: ch in rep ==> P(ch)
    ensures forall ch :: ch in ReplaceAll(s, pat, rep) ==> P(ch)
    decreases |s|
  {
    if |s| < |pat| {
    } else if s[..|pat|] == pat {
      assert forall ch :: ch in s[|pat|..] ==> ch in s;
      ReplaceAllChars(s[|pat|..], pat, rep, P);
    } else {
      assert forall ch :: ch in s[1..] ==> ch in s;
      ReplaceAllChars(s[1..], pat, rep, P);
    }
  }

  /** A subject without the first character of the pattern is left unchanged. */
  lemma {:induction false} ReplaceAllAbsent(s: string, pat: string, rep: string)
    requires |pat| > 0 && pat[0] !in s
    ensures ReplaceAll(s, pat, rep) == s
    decreases |s|
  {
    if |s| >= |pat| {
      assert s[..|pat|][0] == s[0];
      assert forall ch :: ch in s[1..] ==> ch in s;
      ReplaceAllAbsent(s[1..], pat, rep);
    }
  }

  function DigitChar(d: nat): (ch: char)
    requires d < 10
    ensures IsDigit(ch)
  {
    (d + '0' as int) as char
  }

  function DigitValue(ch: char): nat
    requires IsDigit(ch)
  {
    ch as int - '0' as int
  }

  predicate AllDigits(s: string) {
    forall i :: 0 <= i < |s| ==> IsDigit(s[i])
  }

  /** f"{n}" for a non-negative `n`: decimal, no sign, no leading zero. */
  function NatToString(n: nat): (r: string)
    ensures |r| > 0 && AllDigits(r)
  {
    if n < 10 then [DigitChar(n)] else NatToString(n / 10) + [DigitChar(n % 10)]
  }

  /** `int(s)` for a string of decimal digits. */
  function ParseNat(s: string): nat
    requires AllDigits(s)
  {
    if |s| == 0 then 0 else ParseNat(s[..|s| - 1]) * 10 + DigitValue(s[|s| - 1])
  }

  /** Reading back a rendered number gives the number. */
  lemma {:induction false} ParseNatToString(n: nat)
    ensures ParseNat(NatToString(n)) == n
  {
    if n >= 10 {
      var s := NatToString(n);
      assert s[..|s| - 1] == NatToString(n / 10);
      ParseNatToString(n / 10);
    }
  }

  /** Distinct numbers render as distinct strings. */
  lemma NatToStringInjective(m: nat, n: nat)
    requires NatToString(m) == NatToString(n)
    ensures m == n
  {
    ParseNatToString(m);
    ParseNatToString(n);
  }

  /** Index of the last `ch` in `s`, or -1 (`s.rfind(ch)`). */
  function LastIndexOf(s: string, ch: char): int {
    if |s| == 0 then -1
    else if s[|s| - 1] == ch then |s| - 1
    else LastIndexOf(s[..|s| - 1], ch)
  }

  lemma {:induction false} LastIndexOfAfter(a: string, ch: char, d: string)
    requires ch !in d
    ensures LastIndexOf(a + [ch] + d, ch) == |a|
    decreases |d|
  {
    var s := a + [ch] + d;
    if |d| > 0 {
      assert s[..|s| - 1] == a + [ch] + d[..|d| - 1];
      LastIndexOfAfter(a, ch, d[..|d| - 1]);
    } else {
      assert s[|s| - 1] == ch;
    }
  }

  /** `a + "_" + NatToString(p)` can be split back into `a` and `p`, because
      a rendered number holds no `_`. */
  lemma SuffixSplit(a: string, p: nat, b: string, q: nat)
    ensures a + "_" + NatToString(p) == b + "_" + NatToString(q) ==> a == b && p == q
  {
    var s := a + "_" + NatToString(p);
    if s == b + "_" + NatToString(q) {
      var dp, dq := NatToString(p), NatToString(q);
      LastIndexOfAfter(a, '_', dp);
      LastIndexOfAfter(b, '_', dq);
      assert a == s[..|a|];
      assert b == s[..|b|];
      assert dp == s[|a| + 1..];
      assert dq == s[|b| + 1..];
      NatToStringInjective(p, q);
    }
  }
}
