/** Column-name de-duplication: a left-to-right scan with a running count per
    name; the first occurrence keeps its name and the k-th (k >= 2) gets the
    suffix `_<k-1>`. */
module NameDedup {
  import opened Strings

  /** Number of occurrences of `x` in `xs` (the dictionary count after `xs`). */
  function Occurrences(xs: seq<string>, x: string): nat {
    if |xs| == 0 then 0
    else Occurrences(xs[..|xs| - 1], x) + (if xs[|xs| - 1] == x then 1 else 0)
  }

  lemma {:induction false} OccurrencesZero(xs: seq<string>, x: string)
    ensures Occurrences(xs, x) == 0 <==> x !in xs
  {
    if |xs| > 0 {
      var init := xs[..|xs| - 1];
      assert xs == init + [xs[|xs| - 1]];
      OccurrencesZero(init, x);
    }
  }

  /** A later prefix counts an earlier occurrence of the same name. */
  lemma {:induction false} OccurrencesGrow(xs: seq<string>, i: nat, j: nat)
    requires i < j <= |xs|
    ensures Occurrences(xs[..j], xs[i]) >= Occurrences(xs[..i], xs[i]) + 1
    decreases j
  {
    assert xs[..j][..j - 1] == xs[..j - 1];
    if j - 1 > i {
      OccurrencesGrow(xs, i, j - 1);
    } else {
      assert xs[..j - 1] == xs[..i];
    }
  }

  /** The k-th occurrence of a name, counted from 0, as the dedup loop writes it. */
  function Suffixed(name: string, k: nat): string {
    if k == 0 then name else name + "_" + NatToString(k)
  }

  /** An element occurring twice has a second position after the first. */
  lemma {:induction false} OccurrencesSecond(xs: seq<string>, x: string)
    requires |xs| > 0 && xs[0] == x && Occurrences(xs, x) > 1
    ensures exists c :: 0 < c < |xs| && xs[c] == x
  {
    var init := xs[..|xs| - 1];
    if xs[|xs| - 1] != x {
      assert init[0] == x;
      OccurrencesSecond(init, x);
      var c :| 0 < c < |init| && init[c] == x;
      assert xs[c] == x;
    }
  }

  /** Two positions holding `x` give at least two occurrences. */
  lemma {:induction false} OccurrencesTwo(xs: seq<string>, i: nat, j: nat, x: string)
    requires i < j < |xs| && xs[i] == x && xs[j] == x
    ensures Occurrences(xs, x) >= 2
  {
    OccurrencesGrow(xs, i, j);
    OccurrencesGrow(xs, j, |xs|);
    assert xs[..|xs|] == xs;
  }

  /** Reference definition: each name suffixed by how often it occurred before. */
  function Deduplicated(raw: seq<string>): (names: seq<string>)
    ensures |names| == |raw|
  {
    seq(|raw|, i requires 0 <= i < |raw| => Suffixed(raw[i], Occurrences(raw[..i], raw[i])))
  }

  /** The count of `x` in a dictionary that defaults to 0. */
  function CountOf(counts: map<string, nat>, x: string): nat {
    if x in counts then counts[x] else 0
  }

  /** The dictionary of counts after a scan of `xs`. */
  function Counts(xs: seq<string>): map<string, nat> {
    if |xs| == 0 then map[]
    else
      var m := Counts(xs[..|xs| - 1]);
      m[xs[|xs| - 1] := CountOf(m, xs[|xs| - 1]) + 1]
  }

  /** The dictionary holds the number of occurrences of every name scanned. */
  lemma {:induction false} CountsOccurrences(xs: seq<string>, x: string)
    ensures CountOf(Counts(xs), x) == Occurrences(xs, x)
  {
    if |xs| > 0 {
      CountsOccurrences(xs[..|xs| - 1], x);
    }
  }

  /** De-duplicating one more name appends its suffixed form. */
  lemma DeduplicatedStep(raw: seq<string>, i: nat)
    requires i < |raw|
    ensures Deduplicated(raw[..i + 1]) == Deduplicated(raw[..i]) + [Suffixed(raw[i], Occurrences(raw[..i], raw[i]))]
  {
    var p, q := raw[..i + 1], raw[..i];
    forall k | 0 <= k < i ensures Deduplicated(p)[k] == Deduplicated(q)[k] {
      assert p[..k] == q[..k];
    }
    assert p[..i] == q;
  }

  /** The loop with a `defaultdict(int)` of counts. */
  method Deduplicate(raw: seq<string>) returns (names: seq<string>)
    ensures names == Deduplicated(raw)
  {
    names := [];
    var counts: map<string, nat> := map[];
    for i := 0 to |raw|
      invariant counts == Counts(raw[..i])
      invariant names == Deduplicated(raw[..i])
    {
      var name := raw[i];
      var c := (if name in counts then counts[name] else 0) + 1;
      counts := counts[name := c];
      names := names + [if c > 1 then name + "_" + NatToString(c - 1) else name];
      assert raw[..i + 1][..i] == raw[..i];
      CountsOccurrences(raw[..i], name);
      DeduplicatedStep(raw, i);
    }
    assert raw[..|raw|] == raw;
  }

  predicate Distinct(xs: seq<string>) {
    forall i, j :: 0 <= i < j < |xs| ==> xs[i] != xs[j]
  }

  /** No raw name is another raw name followed by `_` and a positive number. */
  ghost predicate NoSuffixClash(raw: seq<string>) {
    forall i, j, k: nat :: 0 <= i < |raw| && 0 <= j < |raw| && k >= 1 ==> raw[i] != raw[j] + "_" + NatToString(k)
  }

  /** First occurrences keep their name; a name seen k-1 times before gets `_<k-1>`. */
  lemma DedupOccurrence(raw: seq<string>, i: nat)
    requires i < |raw|
    ensures raw[i] !in raw[..i] ==> Deduplicated(raw)[i] == raw[i]
    ensures raw[i] in raw[..i] ==>
      Deduplicated(raw)[i] == raw[i] + "_" + NatToString(Occurrences(raw[..i], raw[i]))
  {
    OccurrencesZero(raw[..i], raw[i]);
  }

  /** Names that are already distinct come out unchanged. */
  lemma DedupKeepsDistinct(raw: seq<string>)
    requires Distinct(raw)
    ensures Deduplicated(raw) == raw
  {
    forall i | 0 <= i < |raw| ensures Deduplicated(raw)[i] == raw[i] {
      DedupOccurrence(raw, i);
    }
  }

  /** The result is duplicate-free when no raw name looks like a suffixed copy of another. */
  lemma DedupDistinct(raw: seq<string>)
    requires NoSuffixClash(raw)
    ensures Distinct(Deduplicated(raw))
  {
    var names := Deduplicated(raw);
    forall i, j | 0 <= i < j < |raw| ensures names[i] != names[j] {
      var ki := Occurrences(raw[..i], raw[i]);
      var kj := Occurrences(raw[..j], raw[j]);
      OccurrencesGrow(raw, i, j);
      if ki == 0 && kj == 0 {
      } else if ki == 0 {
        assert raw[i] != raw[j] + "_" + NatToString(kj);
      } else if kj == 0 {
        assert raw[j] != raw[i] + "_" + NatToString(ki);
      } else {
        SuffixSplit(raw[i], ki, raw[j], kj);
      }
    }
  }

  /** Every character of a de-duplicated name comes from its raw name, the `_`
      separator or the decimal count. */
  lemma DedupChars(raw: seq<string>, P: char -> bool)
    requires P('_') && forall ch :: IsDigit(ch) ==> P(ch)
    requires forall i, ch :: 0 <= i < |raw| && ch in raw[i] ==> P(ch)
    ensures forall i, ch :: 0 <= i < |raw| && ch in Deduplicated(raw)[i] ==> P(ch)
  {
    forall i, ch | 0 <= i < |raw| && ch in Deduplicated(raw)[i] ensures P(ch) {
      var k := Occurrences(raw[..i], raw[i]);
      if k > 0 {
        var digits := NatToString(k);
        assert Deduplicated(raw)[i] == raw[i] + "_" + digits;
        if ch !in raw[i] && ch != '_' {
          var j :| 0 <= j < |digits| && digits[j] == ch;
          assert IsDigit(digits[j]);
        }
      }
    }
  }

  /** Uniqueness is not guaranteed in general: a raw "a_1" collides with the
      second "a". */
  lemma DedupCanCollide()
    ensures Deduplicated(["a", "a", "a_1"]) == ["a", "a_1", "a_1"]
  {
    var raw := ["a", "a", "a_1"];
    assert raw[..0] == [] && raw[..1] == ["a"] && raw[..2] == ["a", "a"];
    assert ["a"][..0] == [];
    assert Occurrences(["a"], "a") == 1;
    OccurrencesZero(["a", "a"], "a_1");
    assert NatToString(1) == "1";
    var names := Deduplicated(raw);
    assert names[0] == "a" && names[1] == "a_1" && names[2] == "a_1";
  }
}
