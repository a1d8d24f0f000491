/** The catalogue-number extractor: Python's `re.search(r'Mx?_?(\d+)', text)`
    (unify_tkk_ids/unify_tkk_ids.py:20-37), written as a left-to-right scan. */
module Extraction {
  import opened Wrappers
  import opened Text

  /** The group of `Mx?_?(\d+)` when the pattern is tried at index `i`.
      Greedy matching never has to give back the optional `x` or `_`: dropping
      either leaves a non-digit where `\d+` must start. */
  function MatchAt(s: string, i: nat): (r: Option<string>)
    ensures r.Some? ==> r.value != [] && AllDigits(r.value)
  {
    if i >= |s| || s[i] != 'M' then None
    else
      var j := if i + 1 < |s| && s[i + 1] == 'x' then i + 2 else i + 1;
      var k := if j < |s| && s[j] == '_' then j + 1 else j;
      var e := DigitRunEnd(s, k);
      if e == k then None else Some(s[k..e])
  }

  /** The text between `M` and the digits: an optional `x`, then an optional `_`. */
  function Separator(hasX: bool, hasUnderscore: bool): string {
    (if hasX then "x" else "") + (if hasUnderscore then "_" else "")
  }

  /** The pattern read as a regular expression: at `i` stands `M`, one of the
      four separators, then the digit run `d`, and no further digit (the `\d+`
      is greedy). */
  ghost predicate RegexMatchAt(s: string, i: nat, d: string) {
    && d != [] && AllDigits(d)
    && exists hasX: bool, hasUnderscore: bool :: MatchesWith(s, i, hasX, hasUnderscore, d)
  }

  /** Every match of the scan is a match of the regular expression. */
  lemma MatchAtSound(s: string, i: nat)
    requires MatchAt(s, i).Some?
    ensures RegexMatchAt(s, i, MatchAt(s, i).value)
  {
    var d := MatchAt(s, i).value;
    var hasX := i + 1 < |s| && s[i + 1] == 'x';
    var j := if hasX then i + 2 else i + 1;
    var hasUnderscore := j < |s| && s[j] == '_';
    var k := if hasUnderscore then j + 1 else j;
    var sep := Separator(hasX, hasUnderscore);
    assert s[i + 1..k] == sep;
    MatchesWithParts(s, i, hasX, hasUnderscore, d);
  }

  /** `M`, the separator and the digits, in a row and not followed by a
      digit, are a match. */
  lemma MatchesWithParts(s: string, i: nat, hasX: bool, hasUnderscore: bool, d: string)
    requires OccursAt(s, i, "M") && OccursAt(s, i + 1, Separator(hasX, hasUnderscore))
    requires OccursAt(s, i + 1 + |Separator(hasX, hasUnderscore)|, d)
    requires var e := i + 1 + |Separator(hasX, hasUnderscore)| + |d|; e == |s| || !IsDigit(s[e])
    ensures MatchesWith(s, i, hasX, hasUnderscore, d)
  {
    var sep := Separator(hasX, hasUnderscore);
    OccursJoined(s, i, "M", sep);
    OccursJoined(s, i, "M" + sep, d);
  }

  /** The text the regular expression matches with the given separator choice. */
  ghost predicate MatchesWith(s: string, i: nat, hasX: bool, hasUnderscore: bool, d: string) {
    var sep := Separator(hasX, hasUnderscore);
    && OccursAt(s, i, "M" + sep + d)
    && (i + 1 + |sep| + |d| == |s| || !IsDigit(s[i + 1 + |sep| + |d|]))
  }

  /** Every match of the regular expression at `i` is found by the scan. */
  lemma MatchAtComplete(s: string, i: nat, d: string)
    requires RegexMatchAt(s, i, d)
    ensures MatchAt(s, i) == Some(d)
  {
    var hasX, hasUnderscore :| MatchesWith(s, i, hasX, hasUnderscore, d);
    MatchAtCompleteWith(s, i, hasX, hasUnderscore, d);
  }

  lemma MatchAtCompleteWith(s: string, i: nat, hasX: bool, hasUnderscore: bool, d: string)
    requires d != [] && AllDigits(d)
    requires MatchesWith(s, i, hasX, hasUnderscore, d)
    ensures MatchAt(s, i) == Some(d)
  {
    var sep := Separator(hasX, hasUnderscore);
    var k := i + 1 + |sep|;
    OccursSplit(s, i, "M" + sep, d);
    OccursSplit(s, i, "M", sep);
    assert s[i] == "M"[0];
    assert s[k] == d[0] && IsDigit(d[0]);
    SeparatorSkipped(s, i, hasX, hasUnderscore);
    DigitRunEndOf(s, k, k + |d|);
  }

  /** The scan skips exactly the separator in front of a digit. */
  lemma SeparatorSkipped(s: string, i: nat, hasX: bool, hasUnderscore: bool)
    requires OccursAt(s, i + 1, Separator(hasX, hasUnderscore))
    requires var k := i + 1 + |Separator(hasX, hasUnderscore)|; k < |s| && IsDigit(s[k])
    ensures var j := if i + 1 < |s| && s[i + 1] == 'x' then i + 2 else i + 1;
      (if j < |s| && s[j] == '_' then j + 1 else j) == i + 1 + |Separator(hasX, hasUnderscore)|
  {
    var sep := Separator(hasX, hasUnderscore);
    if hasX {
      assert s[i + 1] == sep[0] == 'x';
    }
    if hasUnderscore {
      var u := if hasX then 1 else 0;
      assert s[i + 1 + u] == sep[u] == '_';
    }
  }

  /** A digit run that stops at `j` ends at `j`. */
  lemma {:induction false} DigitRunEndOf(s: string, i: nat, j: nat)
    requires i <= j <= |s|
    requires AllDigits(s[i..j])
    requires j == |s| || !IsDigit(s[j])
    ensures DigitRunEnd(s, i) == j
    decreases j - i
  {
    if i < j {
      assert IsDigit(s[i..j][0]);
      assert s[i + 1..j] == s[i..j][1..];
      DigitRunEndOf(s, i + 1, j);
    }
  }

  /** The first match at or after index `i`, or `""`. */
  function ExtractFrom(s: string, i: nat): (r: string)
    ensures AllDigits(r)
    decreases |s| - i
  {
    if i >= |s| then []
    else match MatchAt(s, i)
      case Some(d) => d
      case None => ExtractFrom(s, i + 1)
  }

  /** `extract_moldenhauer_number`: the digits of the leftmost match, or `""`. */
  function ExtractNumber(text: string): (r: string)
    ensures AllDigits(r)
  {
    ExtractFrom(text, 0)
  }

  /** The scan from `i` comes back empty exactly when no index from `i` on
      has a match. */
  lemma {:induction false} ExtractFromEmpty(s: string, i: nat)
    ensures ExtractFrom(s, i) == [] <==> forall k | i <= k < |s| :: MatchAt(s, k) == None
    decreases |s| - i
  {
    if i < |s| && MatchAt(s, i) == None {
      ExtractFromEmpty(s, i + 1);
      assert ExtractFrom(s, i) == ExtractFrom(s, i + 1);
    }
  }

  /** A non-empty scan from `i` returns the match at the first index that
      has one. */
  lemma {:induction false} ExtractFromFirst(s: string, i: nat)
    ensures var r := ExtractFrom(s, i);
      r != [] ==> exists k | i <= k < |s| ::
        && MatchAt(s, k) == Some(r)
        && forall k' | i <= k' < k :: MatchAt(s, k') == None
    decreases |s| - i
  {
    if i < |s| && MatchAt(s, i) == None {
      ExtractFromFirst(s, i + 1);
      var r := ExtractFrom(s, i + 1);
      assert ExtractFrom(s, i) == r;
      if r != [] {
        var k :| i + 1 <= k < |s| && MatchAt(s, k) == Some(r) && forall k' | i + 1 <= k' < k :: MatchAt(s, k') == None;
        assert forall k' | i <= k' < k :: MatchAt(s, k') == None;
      }
    }
  }

  /** The catalogue number is empty exactly when the pattern matches nowhere;
      otherwise it is the group of the leftmost match. */
  lemma ExtractNumberIsLeftmostMatch(text: string)
    ensures ExtractNumber(text) == [] <==> forall k | 0 <= k < |text| :: MatchAt(text, k) == None
    ensures ExtractNumber(text) != [] ==> exists k | 0 <= k < |text| ::
              && MatchAt(text, k) == Some(ExtractNumber(text))
              && forall k' | 0 <= k' < k :: MatchAt(text, k') == None
  {
    ExtractFromEmpty(text, 0);
    ExtractFromFirst(text, 0);
  }

  /** A text without the letter `M` carries no catalogue number. */
  lemma NoMarkerNoNumber(text: string)
    requires 'M' !in text
    ensures ExtractNumber(text) == ""
  {
    forall k | 0 <= k < |text| ensures MatchAt(text, k) == None {
      assert text[k] in text;
    }
    ExtractNumberIsLeftmostMatch(text);
  }

  /** A text that starts with `M`, a separator and a digit run yields that run,
      whatever follows it. */
  lemma ExtractLeading(hasX: bool, hasUnderscore: bool, d: string, rest: string)
    requires d != [] && AllDigits(d)
    requires rest == [] || !IsDigit(rest[0])
    ensures ExtractNumber("M" + Separator(hasX, hasUnderscore) + d + rest) == d
  {
    var sep := Separator(hasX, hasUnderscore);
    var s := "M" + sep + d + rest;
    assert s[0..1 + |sep| + |d|] == "M" + sep + d;
    assert 1 + |sep| + |d| < |s| ==> s[1 + |sep| + |d|] == rest[0];
    assert MatchesWith(s, 0, hasX, hasUnderscore, d);
    MatchAtCompleteWith(s, 0, hasX, hasUnderscore, d);
  }

  /** Only the first digit run counts (unify_tkk_ids/tests/test_unify_tkk_ids.py:48). */
  lemma ExtractStructuredExample()
    ensures ExtractNumber("Mx_123_Sk456") == "123"
  {
    assert Separator(true, true) == "x_";
    assert "M" + "x_" + "123" + "_Sk456" == "Mx_123_Sk456";
    ExtractLeading(true, true, "123", "_Sk456");
  }

  /** Filename without separator (unify_tkk_ids/tests/test_unify_tkk_ids.py:59). */
  lemma ExtractBareExample()
    ensures ExtractNumber("M143TF1") == "143"
  {
    assert Separator(false, false) == "";
    assert "M" + "" + "143" + "TF1" == "M143TF1";
    ExtractLeading(false, false, "143", "TF1");
  }

  /** unify_tkk_ids/tests/test_unify_tkk_ids.py:61-70; `str(None)` is `"None"`. */
  lemma ExtractNoMarkerExamples()
    ensures ExtractNumber("no_pattern_here") == ""
    ensures ExtractNumber("123456") == ""
    ensures ExtractNumber("None") == ""
    ensures ExtractNumber("") == ""
  {
    NoMarkerNoNumber("no_pattern_here");
    NoMarkerNoNumber("123456");
    NoMarkerNoNumber("None");
  }
}
