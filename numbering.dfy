/** The per-entry numbering of new group ids (unify_tkk_ids/unify_tkk_ids.py:193-196):
    the `n`-th distinct old id of an entry becomes `prefix + str(n)`. */
module Numbering {
  import opened Text

  /** `f"{prefix}{n}"`. */
  function Label(prefix: string, n: nat): (r: string)
    ensures StartsWith(r, prefix)
  {
    prefix + NatToString(n)
  }

  /** Two labels with the same prefix are equal only for the same number. */
  lemma LabelInjective(prefix: string, m: nat, n: nat)
    requires Label(prefix, m) == Label(prefix, n)
    ensures m == n
  {
    assert NatToString(m) == Label(prefix, m)[|prefix|..];
    assert NatToString(n) == Label(prefix, n)[|prefix|..];
    NatToStringInjective(m, n);
  }

  /** `mapping` was filled by adding the ids of `order`, one after the other,
      each numbered by the mapping's size plus one. */
  predicate Numbered(mapping: map<string, string>, order: seq<string>, prefix: string) {
    && |mapping| == |order|
    && (forall i | 0 <= i < |order| :: order[i] in mapping && mapping[order[i]] == Label(prefix, i + 1))
    && (forall k | k in mapping :: k in order)
    && (forall i, j | 0 <= i < j < |order| :: order[i] != order[j])
  }

  /** Adding an id that is not yet mapped keeps the numbering. */
  lemma NumberedExtend(mapping: map<string, string>, order: seq<string>, prefix: string, id: string)
    requires Numbered(mapping, order, prefix)
    requires id !in mapping
    ensures Numbered(mapping[id := Label(prefix, |mapping| + 1)], order + [id], prefix)
  {
    var m := mapping[id := Label(prefix, |mapping| + 1)];
    var o := order + [id];
    forall i | 0 <= i < |o| ensures o[i] in m && m[o[i]] == Label(prefix, i + 1) {
      if i < |order| {
        assert o[i] == order[i];
      }
    }
  }

  /** Different old ids get different new ids. */
  lemma NumberedInjective(mapping: map<string, string>, order: seq<string>, prefix: string, a: string, b: string)
    requires Numbered(mapping, order, prefix)
    requires a in mapping && b in mapping && a != b
    ensures mapping[a] != mapping[b]
  {
    var i :| 0 <= i < |order| && order[i] == a;
    var j :| 0 <= j < |order| && order[j] == b;
    if mapping[a] == mapping[b] {
      LabelInjective(prefix, i + 1, j + 1);
    }
  }

  /** Every new id is one of `prefix1` ... `prefixN`, N the number of ids mapped. */
  lemma NumberedValues(mapping: map<string, string>, order: seq<string>, prefix: string)
    requires Numbered(mapping, order, prefix)
    ensures forall k | k in mapping :: exists n | 1 <= n <= |mapping| :: mapping[k] == Label(prefix, n)
  {
    forall k | k in mapping ensures exists n | 1 <= n <= |mapping| :: mapping[k] == Label(prefix, n) {
      var i :| 0 <= i < |order| && order[i] == k;
      assert mapping[k] == Label(prefix, i + 1);
    }
  }

  /** Each of `prefix1` ... `prefixN` is the new id of some old id. */
  lemma NumberedCovers(mapping: map<string, string>, order: seq<string>, prefix: string)
    requires Numbered(mapping, order, prefix)
    ensures forall n | 1 <= n <= |mapping| :: exists k | k in mapping :: mapping[k] == Label(prefix, n)
  {
    forall n | 1 <= n <= |mapping| ensures exists k | k in mapping :: mapping[k] == Label(prefix, n) {
      var k := order[n - 1];
      assert k in mapping && mapping[k] == Label(prefix, n);
    }
  }
}
