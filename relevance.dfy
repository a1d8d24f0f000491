/** The relevance filter `get_relevant_svgs` (unify_tkk_ids/unify_tkk_ids.py:324-366):
    which markup files may hold the groups of an entry. */
module Relevance {
  import opened Wrappers
  import opened Text
  import opened Extraction
  import opened Lists

  // ---- `TF(\d+)`: the text-version marker ----

  predicate TFAt(s: string, k: nat) {
    OccursAt(s, k, "TF") && k + 2 < |s| && IsDigit(s[k + 2])
  }

  function FindTFFrom(s: string, i: nat): (r: Option<string>)
    ensures r.Some? ==> r.value != [] && AllDigits(r.value)
    decreases |s| - i
  {
    if i >= |s| then None
    else if TFAt(s, i) then Some(s[i + 2..DigitRunEnd(s, i + 2)])
    else FindTFFrom(s, i + 1)
  }

  /** The digits of the first `TF<digits>` in an entry identifier. */
  function FindTF(id: string): Option<string> {
    FindTFFrom(id, 0)
  }

  /** The scan finds nothing exactly when no `TF<digit>` occurs from `i` on. */
  lemma {:induction false} FindTFNone(s: string, i: nat)
    ensures FindTFFrom(s, i).None? <==> forall k | i <= k :: !TFAt(s, k)
    decreases |s| - i
  {
    if i < |s| && !TFAt(s, i) {
      FindTFNone(s, i + 1);
      assert FindTFFrom(s, i) == FindTFFrom(s, i + 1);
    }
  }

  /** The scan returns the maximal digit run after the leftmost `TF` that is followed by a digit. */
  lemma {:induction false} FindTFIsLeftmost(s: string, i: nat) returns (k: nat)
    requires FindTFFrom(s, i).Some?
    ensures i <= k && TFAt(s, k)
    ensures forall k' | i <= k' < k :: !TFAt(s, k')
    ensures FindTFFrom(s, i).value == s[k + 2..DigitRunEnd(s, k + 2)]
    decreases |s| - i
  {
    if TFAt(s, i) {
      k := i;
    } else {
      assert FindTFFrom(s, i) == FindTFFrom(s, i + 1);
      k := FindTFIsLeftmost(s, i + 1);
    }
  }

  // ---- `Sk\d+(?:_\d+)*`: the sketch marker ----

  predicate SkAt(s: string, k: nat) {
    OccursAt(s, k, "Sk") && k + 2 < |s| && IsDigit(s[k + 2])
  }

  /** Index `i` holds a digit, or an underscore between two digits inside `[a, b)`. */
  predicate SegmentCharAt(s: string, a: nat, b: nat, i: nat)
    requires a <= i < b <= |s|
  {
    IsDigit(s[i]) || (s[i] == '_' && a < i && i + 1 < b && IsDigit(s[i - 1]) && IsDigit(s[i + 1]))
  }

  /** Every index in `[a, b)` holds a digit, or an underscore between two digits
      inside the range. */
  predicate SegmentChars(s: string, a: nat, b: nat)
    requires a <= b <= |s|
  {
    forall i | a <= i < b :: SegmentCharAt(s, a, b, i)
  }

  /** The shape `Sk\d+(_\d+)*` stated on a whole token. */
  predicate IsSketchToken(t: string) {
    && |t| >= 3 && t[..2] == "Sk" && IsDigit(t[2]) && IsDigit(t[|t| - 1])
    && SegmentChars(t, 2, |t|)
  }

  /** A run of digits in front of a segment part keeps the shape. */
  lemma DigitsThenSegments(s: string, a: nat, e: nat, r: nat)
    requires a < e <= r <= |s|
    requires forall k | a <= k < e :: IsDigit(s[k])
    requires SegmentChars(s, e - 1, r)
    ensures SegmentChars(s, a, r)
  {
    forall i | a <= i < r ensures SegmentCharAt(s, a, r, i) {
      if i >= e {
        assert SegmentCharAt(s, e - 1, r, i);
      }
    }
  }

  /** A digit and an underscore in front of a segment part keep the shape. */
  lemma UnderscoreThenSegments(s: string, e: nat, r: nat)
    requires 1 <= e && e + 1 < r <= |s|
    requires IsDigit(s[e - 1]) && s[e] == '_'
    requires SegmentChars(s, e + 1, r) && IsDigit(s[e + 1])
    ensures SegmentChars(s, e - 1, r)
  {
    var a: nat := e - 1;
    forall i | a <= i < r ensures SegmentCharAt(s, a, r, i) {
      if i > e {
        assert SegmentCharAt(s, e + 1, r, i);
      }
    }
  }

  /** The shape carries over to the slice that holds it. */
  lemma SegmentsInSlice(s: string, i: nat, a: nat, r: nat)
    requires i <= a <= r <= |s|
    requires SegmentChars(s, a, r)
    ensures SegmentChars(s[i..r], a - i, r - i)
  {
    var t := s[i..r];
    var a': nat, r': nat := a - i, r - i;
    forall j | a' <= j < r' ensures SegmentCharAt(t, a', r', j) {
      assert SegmentCharAt(s, a, r, i + j);
      assert t[j] == s[i + j];
      if j > a - i { assert t[j - 1] == s[i + j - 1]; }
      if j + 1 < r - i { assert t[j + 1] == s[i + j + 1]; }
    }
  }

  /** The end of the `(_\d+)*` part that starts at `e`, right after a digit run. */
  function SegmentsEnd(s: string, e: nat): (r: nat)
    requires 1 <= e <= |s| && IsDigit(s[e - 1])
    requires e == |s| || !IsDigit(s[e])
    ensures e <= r <= |s| && IsDigit(s[r - 1])
    ensures r == |s| || !IsDigit(s[r])
    ensures !(r + 1 < |s| && s[r] == '_' && IsDigit(s[r + 1]))
    ensures SegmentChars(s, e - 1, r)
    decreases |s| - e
  {
    if e + 1 < |s| && s[e] == '_' && IsDigit(s[e + 1]) then
      var e' := DigitRunEnd(s, e + 1);
      DigitSlice(s, e + 1, e');
      var r := SegmentsEnd(s, e');
      DigitsThenSegments(s, e + 1, e', r);
      UnderscoreThenSegments(s, e, r);
      r
    else
      assert SegmentCharAt(s, e - 1, e, e - 1);
      e
  }

  /** The longest sketch token that starts at a `Sk<digit>` found at `i`. */
  function SketchTokenAt(s: string, i: nat): (t: string)
    requires SkAt(s, i)
    ensures IsSketchToken(t) && OccursAt(s, i, t)
    ensures CannotExtend(s, i + |t|)
  {
    var e := DigitRunEnd(s, i + 2);
    DigitSlice(s, i + 2, e);
    var r := SegmentsEnd(s, e);
    DigitsThenSegments(s, i + 2, e, r);
    SegmentsInSlice(s, i, i + 2, r);
    var t := s[i..r];
    assert t[..2] == s[i..i + 2] == "Sk";
    assert t[2] == s[i + 2] && t[|t| - 1] == s[r - 1];
    t
  }

  function FindSkFrom(s: string, i: nat): (r: Option<string>)
    ensures r.Some? ==> IsSketchToken(r.value)
    decreases |s| - i
  {
    if i >= |s| then None
    else if SkAt(s, i) then Some(SketchTokenAt(s, i))
    else FindSkFrom(s, i + 1)
  }

  /** The first sketch token `Sk<digits>(_<digits>)*` of an entry identifier,
      with as many `_<digits>` segments as follow. */
  function FindSk(id: string): Option<string> {
    FindSkFrom(id, 0)
  }

  /** The token ends where neither a digit nor an `_<digit>` segment follows. */
  predicate CannotExtend(s: string, e: nat)
    requires e <= |s|
  {
    e == |s| || (!IsDigit(s[e]) && !(s[e] == '_' && e + 1 < |s| && IsDigit(s[e + 1])))
  }

  /** The scan finds no sketch token exactly when no `Sk<digit>` occurs. */
  lemma {:induction false} FindSkNone(s: string, i: nat)
    ensures FindSkFrom(s, i).None? <==> forall k | i <= k :: !SkAt(s, k)
    decreases |s| - i
  {
    if i < |s| && !SkAt(s, i) {
      FindSkNone(s, i + 1);
    }
  }

  /** A found sketch token is the longest one at the leftmost `Sk<digit>`. */
  lemma {:induction false} FindSkIsLeftmost(s: string, i: nat) returns (k: nat)
    requires FindSkFrom(s, i).Some?
    ensures i <= k && SkAt(s, k)
    ensures forall k' | i <= k' < k :: !SkAt(s, k')
    ensures OccursAt(s, k, FindSkFrom(s, i).value)
    ensures CannotExtend(s, k + |FindSkFrom(s, i).value|)
    decreases |s| - i
  {
    if SkAt(s, i) {
      k := i;
    } else {
      assert FindSkFrom(s, i) == FindSkFrom(s, i + 1);
      k := FindSkIsLeftmost(s, i + 1);
    }
  }

  /** `tok` occurs at `p` and is not followed by `_` (the `(?!_)` look-ahead). */
  predicate TokenAt(f: string, p: nat, tok: string) {
    OccursAt(f, p, tok) && (p + |tok| == |f| || f[p + |tok|] != '_')
  }

  function KeepsSketchFrom(f: string, tok: string, i: nat): (r: bool)
    ensures r <==> exists p | i <= p :: TokenAt(f, p, tok)
    decreases |f| - i
  {
    if i + |tok| > |f| then false
    else if TokenAt(f, i, tok) then true
    else
      assert forall p | i <= p && TokenAt(f, p, tok) :: i + 1 <= p;
      KeepsSketchFrom(f, tok, i + 1)
  }

  /** `re.search(re.escape(tok) + '(?!_)', f)`. */
  predicate KeepsSketch(f: string, tok: string) {
    KeepsSketchFrom(f, tok, 0)
  }

  // ---- the filter ----

  predicate SameNumber(f: string, number: string) {
    ExtractNumber(f) == number
  }

  /** `get_relevant_svgs(new_id, all_svg_files, current_main_number)`. */
  function RelevantSvgs(id: string, files: seq<string>, number: string): (r: seq<string>)
    ensures IsSubsequence(r, files)
    ensures forall f | f in r :: f in files && SameNumber(f, number)
    ensures Contains(id, "SkRT") ==> forall f | f in r :: Contains(f, "Reihentabelle")
    ensures !Contains(id, "SkRT") ==> forall f | f in r :: !Contains(f, "Reihentabelle")
  {
    if Contains(id, "SkRT") then
      Filter(files, f => SameNumber(f, number) && Contains(f, "Reihentabelle"))
    else
      var candidates := Filter(files, f => SameNumber(f, number) && !Contains(f, "Reihentabelle"));
      var r :=
        match FindTF(id)
        case Some(n) => Filter(candidates, f => Contains(f, "Textfassung" + n))
        case None =>
          match FindSk(id)
          case Some(tok) => Filter(candidates, f => KeepsSketch(f, tok))
          case None => candidates;
      SubsequenceReflexive(candidates);
      SubsequenceTransitive(r, candidates, files);
      r
  }

  /** Which files are kept, rule by rule, in the order the rules are tried:
      `SkRT`, then `TF<digits>`, then the sketch token, then everything with the number. */
  lemma RelevantPriority(id: string, files: seq<string>, number: string, f: string)
    ensures Contains(id, "SkRT") ==>
      (f in RelevantSvgs(id, files, number) <==>
        f in files && SameNumber(f, number) && Contains(f, "Reihentabelle"))
    ensures !Contains(id, "SkRT") && FindTF(id).Some? ==>
      (f in RelevantSvgs(id, files, number) <==>
        f in files && SameNumber(f, number) && !Contains(f, "Reihentabelle")
        && Contains(f, "Textfassung" + FindTF(id).value))
    ensures !Contains(id, "SkRT") && FindTF(id).None? && FindSk(id).Some? ==>
      (f in RelevantSvgs(id, files, number) <==>
        f in files && SameNumber(f, number) && !Contains(f, "Reihentabelle")
        && KeepsSketch(f, FindSk(id).value))
    ensures !Contains(id, "SkRT") && FindTF(id).None? && FindSk(id).None? ==>
      (f in RelevantSvgs(id, files, number) <==>
        f in files && SameNumber(f, number) && !Contains(f, "Reihentabelle"))
  {
  }

  /** The text-version rule is a plain substring test: an entry marked `TF<n>`
      also keeps a file whose text version merely starts with `n`
      (`TF1` keeps `Textfassung10`). */
  lemma TextVersionPrefixKept(f: string, n: string, more: string, p: nat)
    requires OccursAt(f, p, "Textfassung" + n + more)
    ensures Contains(f, "Textfassung" + n)
  {
    var w := "Textfassung" + n;
    assert f[p..p + |w|] == (f[p..p + |w + more|])[..|w|];
    assert OccursAt(f, p, w);
  }

  /** The sketch rule only refuses a following `_`: `Sk2` keeps a file that
      contains `Sk2-...` and also one that contains `Sk21`. */
  lemma SketchKeptBeforeOtherChar(f: string, tok: string, c: char, p: nat)
    requires OccursAt(f, p, tok + [c]) && c != '_'
    ensures KeepsSketch(f, tok)
  {
    assert f[p..p + |tok|] == (f[p..p + |tok| + 1])[..|tok|];
    assert f[p + |tok|] == (f[p..p + |tok| + 1])[|tok|];
    assert TokenAt(f, p, tok);
  }

  /** A file name without any `M` has the empty catalogue number, so an entry
      whose number is empty (`SkRT` alone) matches it. */
  lemma UnnumberedFileMatchesEmptyNumber(f: string)
    requires 'M' !in f
    ensures SameNumber(f, "")
  {
    NoMarkerNoNumber(f);
  }

  // ---- the cases of the relevance tests ----

  /** Past its first two characters, a sketch token continues at every index
      with a digit or an `_<digit>` segment. */
  lemma SketchTokenContinues(tok: string, i: nat)
    requires IsSketchToken(tok)
    ensures 2 <= i < |tok| ==> IsDigit(tok[i]) || (tok[i] == '_' && i + 1 < |tok| && IsDigit(tok[i + 1]))
    ensures 1 <= i < |tok| ==> tok[i] != 'S'
  {
    if 2 <= i < |tok| {
      assert SegmentCharAt(tok, 2, |tok|, i);
    }
    if i == 1 {
      assert tok[1] == tok[..2][1];
    }
  }

  /** An identifier that ends in a sketch token and has no `S` before it
      yields that whole token. */
  lemma FindSkSole(pre: string, tok: string)
    requires IsSketchToken(tok) && 'S' !in pre
    ensures FindSk(pre + tok) == Some(tok)
  {
    var s := pre + tok;
    assert s[|pre|..|pre| + |tok|] == tok;
    assert SkAt(s, |pre|);
    FindSkNone(s, 0);
    var k := FindSkIsLeftmost(s, 0);
    var v := FindSkFrom(s, 0).value;
    forall i | 0 <= i < |s| && i != |pre| ensures s[i] != 'S' {
      if i < |pre| {
        assert s[i] == pre[i];
      } else {
        SketchTokenContinues(tok, i - |pre|);
        assert s[i] == tok[i - |pre|];
      }
    }
    assert s[k] == 'S';
    SketchTokenContinues(tok, |v|);
    assert |v| == |tok|;
    assert v == s[k..k + |v|];
  }

  /** A token whose first character occurs in the file only where the token
      itself starts is kept iff no `_` follows it there. */
  lemma KeepsSketchSole(pre: string, tok: string, rest: string)
    requires tok != [] && tok[0] !in pre && tok[0] !in tok[1..] && tok[0] !in rest
    ensures KeepsSketch(pre + tok + rest, tok) <==> rest == [] || rest[0] != '_'
  {
    var f := pre + tok + rest;
    var p := |pre|;
    assert f[p..p + |tok|] == tok;
    forall i | 0 <= i < |f| && i != p ensures f[i] != tok[0] {
      if i < p {
        assert f[i] == pre[i];
      } else if i < p + |tok| {
        assert f[i] == tok[1..][i - p - 1];
      } else {
        assert f[i] == rest[i - p - |tok|];
      }
    }
    forall q: nat | TokenAt(f, q, tok) ensures q == p {
      assert f[q] == f[q..q + |tok|][0];
    }
    assert rest != [] ==> f[p + |tok|] == rest[0];
    assert TokenAt(f, p, tok) <==> rest == [] || rest[0] != '_';
  }

  /** A text whose first character occurs in the file only where `mid`
      starts, and which is as long as `mid`, is in the file iff it is `mid`. */
  lemma ContainsSole(pre: string, mid: string, post: string, t: string)
    requires |mid| == |t| && t != [] && t[0] !in pre && t[0] !in mid[1..] && t[0] !in post
    ensures Contains(pre + mid + post, t) <==> mid == t
  {
    var f := pre + mid + post;
    var p := |pre|;
    forall i | 0 <= i < |f| && i != p ensures f[i] != t[0] {
      if i < p {
        assert f[i] == pre[i];
      } else if i < p + |mid| {
        assert f[i] == mid[1..][i - p - 1];
      } else {
        assert f[i] == post[i - p - |mid|];
      }
    }
    forall q: nat | OccursAt(f, q, t) ensures q == p {
      assert f[q] == f[q..q + |t|][0];
    }
    assert f[p..p + |t|] == mid;
    assert OccursAt(f, p, t) <==> mid == t;
  }

  /** An identifier that ends in `TF<digits>` and has no `T` before it yields
      those digits. */
  lemma FindTFSole(pre: string, n: string)
    requires n != [] && AllDigits(n) && 'T' !in pre
    ensures FindTF(pre + "TF" + n) == Some(n)
  {
    var s := pre + "TF" + n;
    var p := |pre|;
    assert s[p..p + 2] == "TF" && s[p + 2] == n[0];
    assert TFAt(s, p);
    FindTFNone(s, 0);
    var k := FindTFIsLeftmost(s, 0);
    forall i | 0 <= i < |s| && i != p ensures s[i] != 'T' {
      if i < p {
        assert s[i] == pre[i];
      } else if i > p + 1 {
        assert s[i] == n[i - p - 2];
      } else {
        assert s[i] == s[p..p + 2][1];
      }
    }
    assert s[k] == s[k..k + 2][0] == 'T';
    var e := DigitRunEnd(s, p + 2);
    forall i | p + 2 <= i < |s| ensures IsDigit(s[i]) {
      assert s[i] == n[i - p - 2];
    }
    assert k == p;
    assert e == |s|;
    assert s[p + 2..] == n;
    assert FindTFFrom(s, 0).value == n;
  }

  /** The `Sk2` entry of the tests searches for the token `Sk2`. */
  lemma SketchTwoToken()
    ensures FindSk("M_143_Sk2") == Some("Sk2")
  {
    assert IsSketchToken("Sk2") by { assert SegmentCharAt("Sk2", 2, 3, 2); }
    assert "M_143_" + "Sk2" == "M_143_Sk2";
    FindSkSole("M_143_", "Sk2");
  }

  /** `Sk2` refuses the file of the sub sketch `Sk2_1`. */
  lemma SketchTwoRefusesFirstSub()
    ensures !KeepsSketch("M143_" + "Sk2" + "_1-1von1-final.svg", "Sk2")
  {
    KeepsSketchSole("M143_", "Sk2", "_1-1von1-final.svg");
  }

  /** `Sk2` refuses the file of the sub sketch `Sk2_2`. */
  lemma SketchTwoRefusesSecondSub()
    ensures !KeepsSketch("M143_" + "Sk2" + "_2-1von1-final.svg", "Sk2")
  {
    KeepsSketchSole("M143_", "Sk2", "_2-1von1-final.svg");
  }

  /** `Sk2` refuses the file of the nested sub sketch `Sk2_1_1_1`. */
  lemma SketchTwoRefusesNestedSub()
    ensures !KeepsSketch("M143_" + "Sk2" + "_1_1_1-1von1-final.svg", "Sk2")
  {
    KeepsSketchSole("M143_", "Sk2", "_1_1_1-1von1-final.svg");
  }

  /** `Sk2` keeps its own files. */
  lemma SketchTwoKeepsOwn()
    ensures KeepsSketch("M143_" + "Sk2" + "-1von3-final.svg", "Sk2")
  {
    KeepsSketchSole("M143_", "Sk2", "-1von3-final.svg");
  }

  /** The `Sk2_1` entry of the tests searches for the whole token `Sk2_1`. */
  lemma SubSketchToken()
    ensures FindSk("M_143_Sk2_1") == Some("Sk2_1")
  {
    assert IsSketchToken("Sk2_1") by {
      assert SegmentCharAt("Sk2_1", 2, 5, 2);
      assert SegmentCharAt("Sk2_1", 2, 5, 3);
      assert SegmentCharAt("Sk2_1", 2, 5, 4);
    }
    assert "M_143_" + "Sk2_1" == "M_143_Sk2_1";
    FindSkSole("M_143_", "Sk2_1");
  }

  /** `Sk2_1` refuses the file of the nested sub sketch `Sk2_1_1_1`. */
  lemma SubSketchRefusesNested()
    ensures !KeepsSketch("M143_" + "Sk2_1" + "_1_1-1von1-final.svg", "Sk2_1")
  {
    KeepsSketchSole("M143_", "Sk2_1", "_1_1-1von1-final.svg");
  }

  /** The `TF1` entry of the tests has the text version `1`. */
  lemma TextVersionOne()
    ensures FindTF("M_143_TF1") == Some("1")
  {
    assert "M_143_" + "TF" + "1" == "M_143_TF1";
    FindTFSole("M_143_", "1");
  }

  /** Text version `1` keeps the `Textfassung1` files. */
  lemma TextVersionOneKeepsOwn()
    ensures Contains("M143_" + "Textfassung1" + "-1von2-final.svg", "Textfassung1")
  {
    var f := "M143_" + "Textfassung1" + "-1von2-final.svg";
    assert f[5..17] == "Textfassung1";
    assert OccursAt(f, 5, "Textfassung1");
  }

  /** Text version `1` refuses the `Textfassung2` file. */
  lemma TextVersionOneRefusesOther()
    ensures !Contains("M143_" + "Textfassung2" + "-1von1-final.svg", "Textfassung1")
  {
    ContainsSole("M143_", "Textfassung2", "-1von1-final.svg", "Textfassung1");
  }
}
