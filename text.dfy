/** Character and string helpers shared by the whole model: digits, substrings,
    Python's `str.replace` and `str(n)` for natural numbers. */
module Text {

  predicate IsDigit(c: char) {
    '0' <= c <= '9'
  }

  predicate AllDigits(s: string) {
    forall i :: 0 <= i < |s| ==> IsDigit(s[i])
  }

  predicate IsQuote(c: char) {
    c == '"' || c == '\''
  }

  /** `t` occurs in `s` starting at index `i`. */
  predicate OccursAt(s: string, i: int, t: string) {
    0 <= i && i + |t| <= |s| && s[i..i + |t|] == t
  }

  /** The characters of a digit slice are digits. */
  lemma DigitSlice(s: string, i: nat, j: nat)
    requires i <= j <= |s| && AllDigits(s[i..j])
    ensures forall k | i <= k < j :: IsDigit(s[k])
  {
    forall k | i <= k < j ensures IsDigit(s[k]) {
      assert s[i..j][k - i] == s[k];
    }
  }

  /** Two texts that occur one right after the other occur joined. */
  lemma OccursJoined(s: string, i: nat, a: string, b: string)
    requires OccursAt(s, i, a) && OccursAt(s, i + |a|, b)
    ensures OccursAt(s, i, a + b)
  {
    assert s[i..i + |a| + |b|] == s[i..i + |a|] + s[i + |a|..i + |a| + |b|];
  }

  /** Two texts that occur joined occur one right after the other. */
  lemma OccursSplit(s: string, i: nat, a: string, b: string)
    requires OccursAt(s, i, a + b)
    ensures OccursAt(s, i, a) && OccursAt(s, i + |a|, b)
  {
    var w := s[i..i + |a| + |b|];
    assert s[i..i + |a|] == w[..|a|] == a;
    assert s[i + |a|..i + |a| + |b|] == w[|a|..] == b;
  }

  /** `t` occurs in `s` at some index `i` or later. */
  function ContainsFrom(s: string, t: string, i: nat): (r: bool)
    ensures r <==> exists k | i <= k :: OccursAt(s, k, t)
    decreases |s| - i
  {
    if i + |t| > |s| then false
    else if s[i..i + |t|] == t then assert OccursAt(s, i, t); true
    else
      assert forall k | i <= k && OccursAt(s, k, t) :: i + 1 <= k;
      ContainsFrom(s, t, i + 1)
  }

  /** Python's `t in s` for strings. */
  predicate Contains(s: string, t: string) {
    ContainsFrom(s, t, 0)
  }

  predicate StartsWith(s: string, t: string) {
    |t| <= |s| && s[..|t|] == t
  }

  predicate EndsWith(s: string, t: string) {
    |t| <= |s| && s[|s| - |t|..] == t
  }

  /** The end of the maximal run of digits that starts at `i`. */
  function DigitRunEnd(s: string, i: nat): (j: nat)
    requires i <= |s|
    ensures i <= j <= |s|
    ensures AllDigits(s[i..j])
    ensures j == |s| || !IsDigit(s[j])
    decreases |s| - i
  {
    if i < |s| && IsDigit(s[i]) then
      var j := DigitRunEnd(s, i + 1);
      assert s[i..j] == [s[i]] + s[i + 1..j];
      j
    else i
  }

  /** The first index at or after `i` that holds `c`, or `|s|`. */
  function IndexOfFrom(s: string, c: char, i: nat): (j: nat)
    requires i <= |s|
    ensures i <= j <= |s|
    ensures c !in s[i..j]
    ensures j < |s| ==> s[j] == c
    decreases |s| - i
  {
    if i == |s| || s[i] == c then i
    else
      var j := IndexOfFrom(s, c, i + 1);
      assert s[i..j] == [s[i]] + s[i + 1..j];
      j
  }

  /** A character missing from `s[i..k]` is missing from every `s[i..j]` inside it. */
  lemma NotInPrefixSlice(s: string, c: char, i: nat, j: nat, k: nat)
    requires i <= j <= k <= |s| && c !in s[i..k]
    ensures c !in s[i..j]
  {
    forall m | 0 <= m < j - i ensures s[i..j][m] != c {
      assert s[i..j][m] == s[i..k][m];
    }
  }

  /** The first `c` from `i` lies past `j` when `s[i..j]` has none and `s[j]`
      is not one. */
  lemma IndexOfFromPast(s: string, c: char, i: nat, j: nat)
    requires i <= j < |s| && c !in s[i..j] && s[j] != c
    ensures j < IndexOfFrom(s, c, i)
  {
    forall m | i <= m < j ensures s[m] != c {
      assert s[m] == s[i..j][m - i];
    }
  }

  /** Python's `s.replace(a, b)`: every occurrence of `a`, taken left to right
      without overlap, is replaced by `b`. */
  function ReplaceAll(s: string, a: string, b: string): (r: string)
    requires a != []
    ensures forall c :: c in r ==> c in s || c in b
    decreases |s|
  {
    if s == [] then []
    else if StartsWith(s, a) then
      var rest := ReplaceAll(s[|a|..], a, b);
      assert forall c :: c in s[|a|..] ==> c in s;
      b + rest
    else
      var rest := ReplaceAll(s[1..], a, b);
      assert forall c :: c in s[1..] ==> c in s;
      [s[0]] + rest
  }

  /** A string without any occurrence of `a` is left as it is. */
  lemma {:induction false} ReplaceAllAbsent(s: string, a: string, b: string)
    requires a != []
    requires !Contains(s, a)
    ensures ReplaceAll(s, a, b) == s
    decreases |s|
  {
    if s != [] {
      assert !StartsWith(s, a) by { assert !OccursAt(s, 0, a); }
      assert !Contains(s[1..], a) by {
        forall i | 0 <= i ensures !OccursAt(s[1..], i, a) {
          assert !OccursAt(s, i + 1, a);
          if i + |a| <= |s[1..]| {
            assert s[1..][i..i + |a|] == s[i + 1..i + 1 + |a|];
          }
        }
      }
      ReplaceAllAbsent(s[1..], a, b);
    }
  }

  /** A first character that cannot start `a` is kept in front. */
  lemma ReplaceAllHead(c: char, s: string, a: string, b: string)
    requires a != [] && a[0] != c
    ensures ReplaceAll([c] + s, a, b) == [c] + ReplaceAll(s, a, b)
  {
    assert !StartsWith([c] + s, a);
    assert ([c] + s)[1..] == s;
  }

  /** A last character that does not occur in `a` is kept at the end. */
  lemma {:induction false} ReplaceAllTail(s: string, c: char, a: string, b: string)
    requires a != [] && c !in a
    ensures ReplaceAll(s + [c], a, b) == ReplaceAll(s, a, b) + [c]
    decreases |s|
  {
    if s == [] {
      assert a[0] != c;
      assert [c][1..] == [];
    } else if StartsWith(s + [c], a) {
      assert (s + [c])[|s|] == c;
      assert a == (s + [c])[..|a|];
      assert s[..|a|] == (s + [c])[..|a|];
      assert (s + [c])[|a|..] == s[|a|..] + [c];
      ReplaceAllTail(s[|a|..], c, a, b);
    } else {
      assert |a| <= |s| ==> (s + [c])[..|a|] == s[..|a|];
      assert (s + [c])[1..] == s[1..] + [c];
      ReplaceAllTail(s[1..], c, a, b);
    }
  }

  function DigitChar(d: nat): (c: char)
    requires d < 10
    ensures IsDigit(c)
  {
    "0123456789"[d]
  }

  function DigitValue(c: char): (d: nat)
    requires IsDigit(c)
    ensures d < 10 && DigitChar(d) == c
  {
    (c as int - '0' as int) as nat
  }

  /** Python's `str(n)` for a natural number: decimal, no leading zeros. */
  function NatToString(n: nat): (s: string)
    ensures s != [] && AllDigits(s)
    ensures |s| > 1 ==> s[0] != '0'
    decreases n
  {
    if n < 10 then [DigitChar(n)]
    else NatToString(n / 10) + [DigitChar(n % 10)]
  }

  /** The value of a decimal digit string (Python's `int(s)`). */
  function ParseNat(s: string): nat
    requires AllDigits(s)
    decreases |s|
  {
    if s == [] then 0
    else ParseNat(s[..|s| - 1]) * 10 + DigitValue(s[|s| - 1])
  }

  /** Reading back `str(n)` gives `n`. */
  lemma {:induction false} ParseNatToString(n: nat)
    ensures ParseNat(NatToString(n)) == n
    decreases n
  {
    var s := NatToString(n);
    if n < 10 {
      assert s[..0] == [];
    } else {
      assert s[..|s| - 1] == NatToString(n / 10);
      ParseNatToString(n / 10);
    }
  }

  /** Different numbers have different decimal strings. */
  lemma NatToStringInjective(m: nat, n: nat)
    requires NatToString(m) == NatToString(n)
    ensures m == n
  {
    ParseNatToString(m);
    ParseNatToString(n);
  }
}
