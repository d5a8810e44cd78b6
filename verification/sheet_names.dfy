/** The sheet splitter's naming: the file-system-safe form of a sheet name
    and the name of the workbook each sheet is saved to. */
module SheetNames {
  import opened Strings

  /** A character the filter keeps: an ASCII letter or digit, a space, `_` or `-`. */
  predicate IsSheetChar(ch: char) {
    IsAlnum(ch) || ch == ' ' || ch == '_' || ch == '-'
  }

  /** A character a safe name may hold. */
  predicate IsSafeChar(ch: char) {
    IsAlnum(ch) || ch == '_' || ch == '-'
  }

  /** The comprehension over the sheet name that keeps the sheet characters. */
  function KeepSheetChars(name: string): (kept: string)
    ensures |kept| <= |name|
    ensures forall ch :: ch in kept ==> IsSheetChar(ch)
  {
    if |name| == 0 then ""
    else (if IsSheetChar(name[0]) then [name[0]] else "") + KeepSheetChars(name[1..])
  }

  /** The safe sheet name: filter, strip trailing white space, spaces to `_`. */
  function SafeSheetName(name: string): string {
    SpacesToUnderscores(RStrip(KeepSheetChars(name)))
  }

  /** The filter from the right end: dropping the last character of the name
      drops at most the last kept character. */
  lemma {:induction false} KeepSheetCharsSnoc(name: string, ch: char)
    ensures KeepSheetChars(name + [ch]) == KeepSheetChars(name) + (if IsSheetChar(ch) then [ch] else "")
  {
    if |name| > 0 {
      assert (name + [ch])[1..] == name[1..] + [ch];
      KeepSheetCharsSnoc(name[1..], ch);
    }
  }

  /** The filter keeps exactly the sheet characters, in their original order. */
  lemma {:induction false} KeepSheetCharsSelect(name: string)
    ensures IsCharSelection(KeepSheetChars(name), name, Positions(name, IsSheetChar), IsSheetChar)
  {
    if |name| > 0 {
      var init := name[..|name| - 1];
      KeepSheetCharsSelect(init);
      assert name == init + [name[|name| - 1]];
      KeepSheetCharsSnoc(init, name[|name| - 1]);
      CharSelectionSnoc(KeepSheetChars(init), init, Positions(init, IsSheetChar), IsSheetChar, name[|name| - 1]);
    }
  }

  /** A safe name holds only letters, digits, `_` and `-` (no space), and is
      never longer than the sheet name. */
  lemma SafeSheetNameChars(name: string)
    ensures forall ch :: ch in SafeSheetName(name) ==> IsSafeChar(ch)
    ensures |SafeSheetName(name)| <= |name|
  {
    var kept := KeepSheetChars(name);
    var stripped := RStrip(kept);
    forall ch | ch in SafeSheetName(name) ensures IsSafeChar(ch) {
      var i :| 0 <= i < |stripped| && SafeSheetName(name)[i] == ch;
      assert stripped[i] in kept;
    }
  }

  /** The safe name follows the kept characters (see `KeepSheetCharsSelect`)
      in order: character `k` is the `k`-th kept character, a space turned
      into `_`. The kept characters after it are the trailing spaces, which
      are dropped rather than turned into underscores. */
  lemma SafeSheetNameOrder(name: string)
    ensures var kept := KeepSheetChars(name);
      var safe := SafeSheetName(name);
      |safe| <= |kept|
      && (forall k :: 0 <= k < |safe| ==> safe[k] == if kept[k] == ' ' then '_' else kept[k])
      && (forall k :: |safe| <= k < |kept| ==> kept[k] == ' ')
      && (|safe| > 0 ==> kept[|safe| - 1] != ' ')
  {
    var kept := KeepSheetChars(name);
    var stripped := RStrip(kept);
    assert stripped == kept[..|stripped|];
    forall k | |stripped| <= k < |kept| ensures kept[k] == ' ' {
      assert IsSpace(kept[k]) && kept[k] in kept;
    }
    forall k | 0 <= k < |stripped| ensures SafeSheetName(name)[k] == if kept[k] == ' ' then '_' else kept[k] {
      assert stripped[k] == kept[k];
    }
  }

  /** Trailing spaces of a sheet name do not change its safe name. */
  lemma SafeSheetNameTrailingSpace(name: string)
    ensures SafeSheetName(name + " ") == SafeSheetName(name)
  {
    KeepSheetCharsSnoc(name, ' ');
    var kept := KeepSheetChars(name);
    assert (kept + " ")[..|kept + " "| - 1] == kept;
  }

  lemma {:induction false} KeepSheetCharsOfSheetChars(name: string)
    requires forall ch :: ch in name ==> IsSheetChar(ch)
    ensures KeepSheetChars(name) == name
  {
    if |name| > 0 {
      assert name[0] in name;
      assert forall ch :: ch in name[1..] ==> ch in name;
      KeepSheetCharsOfSheetChars(name[1..]);
    }
  }

  /** A name made only of letters, digits, `_` and `-` is its own safe name. */
  lemma SafeSheetNameOfSafe(name: string)
    requires forall ch :: ch in name ==> IsSafeChar(ch)
    ensures SafeSheetName(name) == name
  {
    forall i | 0 <= i < |name| ensures IsSafeChar(name[i]) {
      assert name[i] in name;
    }
    KeepSheetCharsOfSheetChars(name);
    RStripUnchanged(name);
    SpacesToUnderscoresUnchanged(name);
  }

  /** Sanitising twice is sanitising once. */
  lemma SafeSheetNameIdempotent(name: string)
    ensures SafeSheetName(SafeSheetName(name)) == SafeSheetName(name)
  {
    SafeSheetNameChars(name);
    SafeSheetNameOfSafe(SafeSheetName(name));
  }

  /** The file a sheet is saved to, without the output directory:
      `<base>_sheet<idx>_<safe sheet name>.xlsx`. */
  function OutputFileName(base: string, idx: nat, sheet: string): string {
    base + "_sheet" + NatToString(idx) + "_" + SafeSheetName(sheet) + ".xlsx"
  }

  /** The loop over the workbook's sheets, numbered from 1 in workbook order. */
  method OutputFileNames(base: string, sheets: seq<string>) returns (files: seq<string>)
    ensures |files| == |sheets|
    ensures forall i :: 0 <= i < |sheets| ==> files[i] == OutputFileName(base, i + 1, sheets[i])
  {
    files := [];
    var idx := 1;
    for i := 0 to |sheets|
      invariant idx == i + 1
      invariant |files| == i
      invariant forall k :: 0 <= k < i ==> files[k] == OutputFileName(base, k + 1, sheets[k])
    {
      var safe := SafeSheetName(sheets[i]);
      files := files + [base + "_sheet" + NatToString(idx) + "_" + safe + ".xlsx"];
      idx := idx + 1;
    }
  }

  /** Length of the run of digits at the start of `s`. */
  function LeadingDigits(s: string): nat {
    if |s| > 0 && IsDigit(s[0]) then 1 + LeadingDigits(s[1..]) else 0
  }

  /** A digit string followed by `_` is read back by its leading digits. */
  lemma {:induction false} LeadingDigitsBeforeSeparator(d: string, r: string)
    requires AllDigits(d)
    ensures LeadingDigits(d + "_" + r) == |d|
  {
    if |d| > 0 {
      assert (d + "_" + r)[1..] == d[1..] + "_" + r;
      LeadingDigitsBeforeSeparator(d[1..], r);
    }
  }

  /** The file name as the directory-free prefix, the number, `_` and the rest. */
  lemma OutputFileNameParts(base: string, i: nat, a: string)
    ensures OutputFileName(base, i, a) == (base + "_sheet") + (NatToString(i) + "_" + (SafeSheetName(a) + ".xlsx"))
  {
  }

  /** The number is read back from the part after the prefix. */
  lemma NumberOfSuffix(d: string, r: string)
    requires AllDigits(d)
    ensures LeadingDigits(d + "_" + r) == |d|
    ensures d == (d + "_" + r)[..|d|]
  {
    LeadingDigitsBeforeSeparator(d, r);
  }

  /** Sheets with different numbers are saved to different files, whatever
      their names: the number is followed by `_`, which no digit is. */
  lemma OutputFileNamesDistinct(base: string, i: nat, a: string, j: nat, b: string)
    ensures i != j ==> OutputFileName(base, i, a) != OutputFileName(base, j, b)
  {
    var prefix := base + "_sheet";
    var di, dj := NatToString(i), NatToString(j);
    var ri, rj := SafeSheetName(a) + ".xlsx", SafeSheetName(b) + ".xlsx";
    OutputFileNameParts(base, i, a);
    OutputFileNameParts(base, j, b);
    var si, sj := di + "_" + ri, dj + "_" + rj;
    if prefix + si == prefix + sj {
      assert si == (prefix + si)[|prefix|..];
      assert sj == (prefix + sj)[|prefix|..];
      NumberOfSuffix(di, ri);
      NumberOfSuffix(dj, rj);
      NatToStringInjective(i, j);
    }
  }
}
