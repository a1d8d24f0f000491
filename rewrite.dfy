/** The tag rewriter `update_svg_id` (unify_tkk_ids/unify_tkk_ids.py:369-410)
    and the search that decides where a block's id lives (:174-182).

    Every pattern here is a `<`, stretches of `[^>]`, literal attribute text
    and (for the rewriter) a closing `>`. With an id that holds no `>`, such a
    pattern matches inside one window of the text (see module TagWindows): from
    the window's first `<`, provided the text between that `<` and the
    window's `>` holds the attributes in the pattern's order. */
module TagRewrite {
  import opened Wrappers
  import opened Text
  import opened TagWindows

  datatype Order = IdFirst | ClassFirst

  /** One of the rewriter's patterns: attribute order and quote character. */
  datatype Pattern = Pattern(order: Order, quote: char)

  /** The four patterns, in the order they are counted and applied. */
  const Patterns: seq<Pattern> := [
    Pattern(IdFirst, '"'), Pattern(ClassFirst, '"'),
    Pattern(IdFirst, '\''), Pattern(ClassFirst, '\'')
  ]

  /** The refusal returned when the id is ambiguous: the id and the number of
      matches (the message text around them is left out). */
  datatype Ambiguity = Ambiguity(id: string, occurrences: nat)

  function IdAttr(v: string, q: char): string {
    "id=" + [q] + v + [q]
  }

  function ClassAttr(q: char): string {
    "class=" + [q] + "tkk" + [q]
  }

  /** `x` occurs in `body` and `y` occurs after the end of that occurrence. */
  predicate InOrder(body: string, x: string, y: string) {
    exists i | 0 <= i <= |body| :: OccursAt(body, i, x) && Contains(body[i + |x|..], y)
  }

  /** Index of the window's first `<` (or its length). */
  function TagStart(w: string): nat {
    IndexOfFrom(w, '<', 0)
  }

  /** Pattern `p` matches window `w`: the window is closed by `>`, has a `<`,
      and the text between them holds both attributes in the pattern's order. */
  predicate WindowMatches(w: string, p: Pattern, oldId: string) {
    && Terminated(w)
    && TagStart(w) < |w|
    && var body := w[TagStart(w) + 1..|w| - 1];
       match p.order
       case IdFirst => InOrder(body, IdAttr(oldId, p.quote), ClassAttr(p.quote))
       case ClassFirst => InOrder(body, ClassAttr(p.quote), IdAttr(oldId, p.quote))
  }

  /** `replace_id`: both quote styles of the old id attribute, left to right. */
  function ReplaceIds(tag: string, oldId: string, newId: string): string {
    ReplaceAll(ReplaceAll(tag, IdAttr(oldId, '"'), IdAttr(newId, '"')), IdAttr(oldId, '\''), IdAttr(newId, '\''))
  }

  /** One window after `re.sub` with pattern `p`: the matched tag (from the
      first `<` to the closing `>`) is passed through `replace_id`. */
  function SubWindow(w: string, p: Pattern, oldId: string, newId: string): string {
    if WindowMatches(w, p, oldId) then w[..TagStart(w)] + ReplaceIds(w[TagStart(w)..], oldId, newId)
    else w
  }

  function SubAll(ws: seq<string>, p: Pattern, oldId: string, newId: string): (r: seq<string>) {
    seq(|ws|, i requires 0 <= i < |ws| => SubWindow(ws[i], p, oldId, newId))
  }

  /** `re.sub(pattern, replace_id, s)`. */
  function Sub(s: string, p: Pattern, oldId: string, newId: string): string {
    Concat(SubAll(Windows(s), p, oldId, newId))
  }

  /** Number of windows pattern `p` matches. */
  function CountAll(ws: seq<string>, p: Pattern, oldId: string): nat
    decreases |ws|
  {
    if ws == [] then 0
    else (if WindowMatches(ws[0], p, oldId) then 1 else 0) + CountAll(ws[1..], p, oldId)
  }

  /** `len(re.findall(pattern, s))`. */
  function Count(s: string, p: Pattern, oldId: string): nat {
    CountAll(Windows(s), p, oldId)
  }

  /** The matches of the first `n` patterns, added up. */
  function SumCounts(s: string, oldId: string, n: nat): nat
    requires n <= |Patterns|
  {
    if n == 0 then 0 else SumCounts(s, oldId, n - 1) + Count(s, Patterns[n - 1], oldId)
  }

  function TotalMatches(s: string, oldId: string): nat {
    SumCounts(s, oldId, |Patterns|)
  }

  /** The text after the first `n` substitution passes. */
  function ApplyFrom(s: string, oldId: string, newId: string, n: nat): string
    requires n <= |Patterns|
  {
    if n == 0 then s else Sub(ApplyFrom(s, oldId, newId, n - 1), Patterns[n - 1], oldId, newId)
  }

  function RewriteAll(s: string, oldId: string, newId: string): string {
    ApplyFrom(s, oldId, newId, |Patterns|)
  }

  /** `update_svg_id`: counts the matches of all four patterns; more than one
      is refused with the text unchanged, otherwise the four passes are
      applied in order. */
  method UpdateSvgId(content: string, oldId: string, newId: string) returns (result: string, error: Option<Ambiguity>)
    ensures error.Some? <==> TotalMatches(content, oldId) > 1
    ensures error.Some? ==> result == content && error.value == Ambiguity(oldId, TotalMatches(content, oldId))
    ensures error.None? ==> result == RewriteAll(content, oldId, newId)
  {
    var total := 0;
    var i := 0;
    while i < |Patterns|
      invariant 0 <= i <= |Patterns|
      invariant total == SumCounts(content, oldId, i)
    {
      total := total + Count(content, Patterns[i], oldId);
      i := i + 1;
    }
    if total > 1 {
      return content, Some(Ambiguity(oldId, total));
    }
    result := content;
    i := 0;
    while i < |Patterns|
      invariant 0 <= i <= |Patterns|
      invariant result == ApplyFrom(content, oldId, newId, i)
    {
      result := Sub(result, Patterns[i], oldId, newId);
      i := i + 1;
    }
    error := None;
  }

  lemma {:induction false} CountAllZero(ws: seq<string>, p: Pattern, oldId: string, newId: string)
    requires CountAll(ws, p, oldId) == 0
    ensures forall i | 0 <= i < |ws| :: !WindowMatches(ws[i], p, oldId)
    ensures SubAll(ws, p, oldId, newId) == ws
    decreases |ws|
  {
    if ws != [] {
      CountAllZero(ws[1..], p, oldId, newId);
      forall i | 0 <= i < |ws| ensures !WindowMatches(ws[i], p, oldId) {
        if i > 0 { assert ws[i] == ws[1..][i - 1]; }
      }
    }
  }

  /** A text where no pattern matches is returned as it was. */
  lemma {:induction false} NoMatchUnchanged(s: string, oldId: string, newId: string)
    requires TotalMatches(s, oldId) == 0
    ensures RewriteAll(s, oldId, newId) == s
  {
    NoMatchUnchangedUpTo(s, oldId, newId, |Patterns|);
  }

  lemma {:induction false} NoMatchUnchangedUpTo(s: string, oldId: string, newId: string, n: nat)
    requires n <= |Patterns|
    requires SumCounts(s, oldId, n) == 0
    ensures ApplyFrom(s, oldId, newId, n) == s
  {
    if n > 0 {
      NoMatchUnchangedUpTo(s, oldId, newId, n - 1);
      CountAllZero(Windows(s), Patterns[n - 1], oldId, newId);
    }
  }

  // ---- One match changes one tag ----

  /** A window after the first `n` passes, taken on its own. */
  function PassesOn(w: string, oldId: string, newId: string, n: nat): string
    requires n <= |Patterns|
  {
    if n == 0 then w else SubWindow(PassesOn(w, oldId, newId, n - 1), Patterns[n - 1], oldId, newId)
  }

  function PassesAll(ws: seq<string>, oldId: string, newId: string, n: nat): seq<string>
    requires n <= |Patterns|
  {
    seq(|ws|, i requires 0 <= i < |ws| => PassesOn(ws[i], oldId, newId, n))
  }

  lemma NoGtInIdAttr(v: string, q: char)
    requires '>' !in v && q != '>'
    ensures '>' !in IdAttr(v, q)
  {
    assert IdAttr(v, q) == "id=" + [q] + v + [q];
  }

  /** Rewriting a tag keeps it one tag: the closing `>` stays last and no
      other `>` appears. */
  lemma ReplaceIdsKeepsClose(x: string, oldId: string, newId: string)
    requires '>' !in x && '>' !in oldId && '>' !in newId
    ensures ReplaceIds(x + ['>'], oldId, newId) == ReplaceIds(x, oldId, newId) + ['>']
    ensures '>' !in ReplaceIds(x, oldId, newId)
  {
    NoGtInIdAttr(oldId, '"');
    NoGtInIdAttr(oldId, '\'');
    NoGtInIdAttr(newId, '"');
    NoGtInIdAttr(newId, '\'');
    ReplaceAllTail(x, '>', IdAttr(oldId, '"'), IdAttr(newId, '"'));
    ReplaceAllTail(ReplaceAll(x, IdAttr(oldId, '"'), IdAttr(newId, '"')), '>', IdAttr(oldId, '\''), IdAttr(newId, '\''));
  }

  /** The shape of a window (non-empty, `>` at most at the end) survives a pass. */
  lemma SubWindowShape(w: string, p: Pattern, oldId: string, newId: string)
    requires w != [] && '>' !in w[..|w| - 1]
    requires '>' !in oldId && '>' !in newId
    ensures var r := SubWindow(w, p, oldId, newId);
      r != [] && '>' !in r[..|r| - 1] && (Terminated(r) <==> Terminated(w))
  {
    if WindowMatches(w, p, oldId) {
      var t := TagStart(w);
      var x := w[t..|w| - 1];
      assert w[t..] == x + ['>'];
      ReplaceIdsKeepsClose(x, oldId, newId);
      SpliceShape(w, t, ReplaceIds(x, oldId, newId));
    }
  }

  /** Replacing the tail of a closed window by a text without `>`, closed
      again, keeps the window's shape. */
  lemma SpliceShape(w: string, t: nat, y: string)
    requires Terminated(w) && t < |w| && '>' !in w[..|w| - 1] && '>' !in y
    ensures var r := w[..t] + (y + ['>']);
      r != [] && '>' !in r[..|r| - 1] && Terminated(r)
  {
    var r := w[..t] + (y + ['>']);
    assert r[..|r| - 1] == w[..t] + y;
    assert w[..t] == w[..|w| - 1][..t];
  }

  lemma WellWindowedSub(ws: seq<string>, p: Pattern, oldId: string, newId: string)
    requires WellWindowed(ws)
    requires '>' !in oldId && '>' !in newId
    ensures WellWindowed(SubAll(ws, p, oldId, newId))
  {
    forall i | 0 <= i < |ws| ensures var r := SubWindow(ws[i], p, oldId, newId);
      r != [] && '>' !in r[..|r| - 1] && (Terminated(r) <==> Terminated(ws[i]))
    {
      SubWindowShape(ws[i], p, oldId, newId);
    }
  }

  /** After `n` passes the text is the windows of the input, each passed
      through the same `n` passes on its own. */
  lemma {:induction false} ApplyFromWindows(s: string, oldId: string, newId: string, n: nat)
    requires n <= |Patterns|
    requires '>' !in oldId && '>' !in newId
    ensures Windows(ApplyFrom(s, oldId, newId, n)) == PassesAll(Windows(s), oldId, newId, n)
    ensures ApplyFrom(s, oldId, newId, n) == Concat(PassesAll(Windows(s), oldId, newId, n))
  {
    var ws := Windows(s);
    if n == 0 {
      assert PassesAll(ws, oldId, newId, 0) == ws;
    } else {
      ApplyFromWindows(s, oldId, newId, n - 1);
      var m := PassesAll(ws, oldId, newId, n - 1);
      var sub := SubAll(m, Patterns[n - 1], oldId, newId);
      assert sub == PassesAll(ws, oldId, newId, n);
      WellWindowedSub(m, Patterns[n - 1], oldId, newId);
      WindowsOfConcat(sub);
    }
  }

  /** How many of the four patterns match one window. */
  function WindowHits(w: string, oldId: string): nat {
    (if WindowMatches(w, Patterns[0], oldId) then 1 else 0)
    + (if WindowMatches(w, Patterns[1], oldId) then 1 else 0)
    + (if WindowMatches(w, Patterns[2], oldId) then 1 else 0)
    + (if WindowMatches(w, Patterns[3], oldId) then 1 else 0)
  }

  function HitsAll(ws: seq<string>, oldId: string): nat
    decreases |ws|
  {
    if ws == [] then 0 else WindowHits(ws[0], oldId) + HitsAll(ws[1..], oldId)
  }

  lemma {:induction false} HitsAllIsSum(ws: seq<string>, oldId: string)
    ensures HitsAll(ws, oldId)
      == CountAll(ws, Patterns[0], oldId) + CountAll(ws, Patterns[1], oldId)
       + CountAll(ws, Patterns[2], oldId) + CountAll(ws, Patterns[3], oldId)
    decreases |ws|
  {
    if ws != [] {
      HitsAllIsSum(ws[1..], oldId);
    }
  }

  lemma {:induction false} HitsAllZero(ws: seq<string>, oldId: string)
    requires HitsAll(ws, oldId) == 0
    ensures forall i | 0 <= i < |ws| :: WindowHits(ws[i], oldId) == 0
    decreases |ws|
  {
    if ws != [] {
      HitsAllZero(ws[1..], oldId);
      forall i | 0 < i < |ws| ensures WindowHits(ws[i], oldId) == 0 {
        assert ws[i] == ws[1..][i - 1];
      }
    }
  }

  /** With one match in all, exactly one window is hit, by exactly one pattern. */
  lemma {:induction false} UniqueHit(ws: seq<string>, oldId: string) returns (m: nat)
    requires HitsAll(ws, oldId) == 1
    ensures m < |ws| && WindowHits(ws[m], oldId) == 1
    ensures forall i | 0 <= i < |ws| && i != m :: WindowHits(ws[i], oldId) == 0
    decreases |ws|
  {
    if WindowHits(ws[0], oldId) == 1 {
      HitsAllZero(ws[1..], oldId);
      forall i | 0 < i < |ws| ensures WindowHits(ws[i], oldId) == 0 {
        assert ws[i] == ws[1..][i - 1];
      }
      m := 0;
    } else {
      var m' := UniqueHit(ws[1..], oldId);
      m := m' + 1;
      forall i | 0 < i < |ws| && i != m ensures WindowHits(ws[i], oldId) == 0 {
        assert ws[i] == ws[1..][i - 1];
      }
    }
  }

  lemma {:induction false} UnhitWindowKept(w: string, oldId: string, newId: string, n: nat)
    requires n <= |Patterns|
    requires WindowHits(w, oldId) == 0
    ensures PassesOn(w, oldId, newId, n) == w
  {
    if n > 0 {
      UnhitWindowKept(w, oldId, newId, n - 1);
    }
  }

  /** The total of `update_svg_id` counts, window by window. */
  lemma TotalIsHits(s: string, oldId: string)
    ensures TotalMatches(s, oldId) == HitsAll(Windows(s), oldId)
  {
    HitsAllIsSum(Windows(s), oldId);
    assert SumCounts(s, oldId, 1) == Count(s, Patterns[0], oldId);
    assert SumCounts(s, oldId, 2) == SumCounts(s, oldId, 1) + Count(s, Patterns[1], oldId);
    assert SumCounts(s, oldId, 3) == SumCounts(s, oldId, 2) + Count(s, Patterns[2], oldId);
    assert TotalMatches(s, oldId)
      == Count(s, Patterns[0], oldId) + Count(s, Patterns[1], oldId)
       + Count(s, Patterns[2], oldId) + Count(s, Patterns[3], oldId);
  }

  /** The passes leave every window but `m` as it was. */
  lemma PassesKeepUnhit(ws: seq<string>, oldId: string, newId: string, m: nat)
    requires m < |ws|
    requires forall i | 0 <= i < |ws| && i != m :: WindowHits(ws[i], oldId) == 0
    ensures var r := PassesAll(ws, oldId, newId, |Patterns|);
      r[..m] == ws[..m] && r[m + 1..] == ws[m + 1..] && r[m] == PassesOn(ws[m], oldId, newId, |Patterns|)
  {
    var r := PassesAll(ws, oldId, newId, |Patterns|);
    forall i | 0 <= i < |ws| && i != m ensures r[i] == ws[i] {
      UnhitWindowKept(ws[i], oldId, newId, |Patterns|);
    }
    assert r[..m] == ws[..m];
    assert r[m + 1..] == ws[m + 1..];
  }

  /** When only window `m` is hit, the passes change only window `m`. */
  lemma OnlyHitWindowChanges(s: string, oldId: string, newId: string, m: nat)
    requires '>' !in oldId && '>' !in newId
    requires m < |Windows(s)|
    requires forall i | 0 <= i < |Windows(s)| && i != m :: WindowHits(Windows(s)[i], oldId) == 0
    ensures var ws := Windows(s);
      RewriteAll(s, oldId, newId) == Concat(ws[..m]) + PassesOn(ws[m], oldId, newId, |Patterns|) + Concat(ws[m + 1..])
  {
    var ws := Windows(s);
    ApplyFromWindows(s, oldId, newId, |Patterns|);
    var r := PassesAll(ws, oldId, newId, |Patterns|);
    PassesKeepUnhit(ws, oldId, newId, m);
    ConcatSplit(r, m);
  }

  /** With exactly one match in the text, the result differs from the input
      at most in the one window holding the matched tag: `pre` ends a window,
      `w` is the window matched by exactly one pattern. */
  lemma SingleMatchIsLocal(s: string, oldId: string, newId: string) returns (pre: string, w: string, post: string)
    requires '>' !in oldId && '>' !in newId
    requires TotalMatches(s, oldId) == 1
    ensures s == pre + w + post
    ensures pre == [] || pre[|pre| - 1] == '>'
    ensures w != [] && '>' !in w[..|w| - 1]
    ensures WindowHits(w, oldId) == 1
    ensures RewriteAll(s, oldId, newId) == pre + PassesOn(w, oldId, newId, |Patterns|) + post
  {
    var ws := Windows(s);
    TotalIsHits(s, oldId);
    var m := UniqueHit(ws, oldId);
    ConcatSplit(ws, m);
    OnlyHitWindowChanges(s, oldId, newId, m);
    pre, w, post := Concat(ws[..m]), ws[m], Concat(ws[m + 1..]);
    if m > 0 {
      ConcatEndsWithLast(ws[..m]);
      assert ws[..m][m - 1] == ws[m - 1];
    }
  }

  /** Whole windows, concatenated, end where the last one ends. */
  lemma {:induction false} ConcatEndsWithLast(ws: seq<string>)
    requires ws != [] && ws[|ws| - 1] != []
    ensures var s := Concat(ws); s != [] && s[|s| - 1] == ws[|ws| - 1][|ws[|ws| - 1]| - 1]
    decreases |ws|
  {
    if |ws| > 1 {
      ConcatEndsWithLast(ws[1..]);
    }
  }

  // ---- What happens to the matched tag ----

  lemma OccursInSlice(s: string, a: nat, b: nat, k: nat, t: string)
    requires a <= b <= |s|
    requires OccursAt(s[a..b], k, t)
    ensures OccursAt(s, a + k, t)
  {
    forall j | 0 <= j < |t| ensures s[a + k..a + k + |t|][j] == t[j] {
      assert s[a..b][k..k + |t|][j] == t[j];
    }
  }

  lemma ContainsSlice(s: string, a: nat, b: nat, t: string)
    requires a <= b <= |s|
    requires Contains(s[a..b], t)
    ensures Contains(s, t)
  {
    var k :| 0 <= k && OccursAt(s[a..b], k, t);
    OccursInSlice(s, a, b, k, t);
  }

  /** Both attributes of an in-order pair occur in the text. */
  lemma InOrderContains(body: string, x: string, y: string)
    requires InOrder(body, x, y)
    ensures Contains(body, x) && Contains(body, y)
  {
    var i :| 0 <= i <= |body| && OccursAt(body, i, x) && Contains(body[i + |x|..], y);
    assert body[i + |x|..] == body[i + |x|..|body|];
    ContainsSlice(body, i + |x|, |body|, y);
  }

  /** A window matched by a pattern contains that pattern's id attribute
      between its first `<` and its `>`. */
  lemma MatchHasIdAttr(w: string, p: Pattern, oldId: string)
    requires WindowMatches(w, p, oldId)
    ensures TagStart(w) + 1 <= |w| - 1
    ensures Contains(w[TagStart(w) + 1..|w| - 1], IdAttr(oldId, p.quote))
  {
    var body := w[TagStart(w) + 1..|w| - 1];
    if p.order == IdFirst {
      InOrderContains(body, IdAttr(oldId, p.quote), ClassAttr(p.quote));
    } else {
      InOrderContains(body, ClassAttr(p.quote), IdAttr(oldId, p.quote));
    }
  }

  /** The rewritten tag no longer holds the old id attribute in either quote style. */
  predicate NoOldIdLeft(tag: string, oldId: string) {
    !Contains(tag, IdAttr(oldId, '"')) && !Contains(tag, IdAttr(oldId, '\''))
  }

  /** Rewriting the tag of window `w` leaves its first `<` where it was. */
  lemma RewrittenTagStart(w: string, p: Pattern, oldId: string, newId: string)
    requires WindowMatches(w, p, oldId)
    ensures var t := TagStart(w);
      var r := SubWindow(w, p, oldId, newId);
      TagStart(r) == t && r == w[..t] + ReplaceIds(w[t..], oldId, newId)
  {
    var t := TagStart(w);
    var tag := w[t..];
    assert tag == [tag[0]] + tag[1..];
    ReplaceAllHead(tag[0], tag[1..], IdAttr(oldId, '"'), IdAttr(newId, '"'));
    var once := ReplaceAll(tag, IdAttr(oldId, '"'), IdAttr(newId, '"'));
    ReplaceAllHead(tag[0], ReplaceAll(tag[1..], IdAttr(oldId, '"'), IdAttr(newId, '"')), IdAttr(oldId, '\''), IdAttr(newId, '\''));
    var r := SubWindow(w, p, oldId, newId);
    assert r[t] == '<';
    assert r[0..t] == w[0..t];
    IndexOfFromIs(r, '<', 0, t);
  }

  /** A window whose tag no longer holds the old id attribute is matched by no pattern. */
  lemma RewrittenNotMatched(w: string, p: Pattern, q: Pattern, oldId: string, newId: string)
    requires WindowMatches(w, p, oldId)
    requires q.quote == '"' || q.quote == '\''
    requires NoOldIdLeft(ReplaceIds(w[TagStart(w)..], oldId, newId), oldId)
    ensures !WindowMatches(SubWindow(w, p, oldId, newId), q, oldId)
  {
    var t := TagStart(w);
    RewrittenTagStart(w, p, oldId, newId);
    SplicedNotMatched(w[..t], ReplaceIds(w[t..], oldId, newId), SubWindow(w, p, oldId, newId), q, oldId);
  }

  /** A window whose tag starts after `pre` and holds no old id attribute is not matched. */
  lemma SplicedNotMatched(pre: string, tag: string, r: string, q: Pattern, oldId: string)
    requires r == pre + tag && TagStart(r) == |pre|
    requires q.quote == '"' || q.quote == '\''
    requires NoOldIdLeft(tag, oldId)
    ensures !WindowMatches(r, q, oldId)
  {
    if WindowMatches(r, q, oldId) {
      MatchHasIdAttr(r, q, oldId);
      NoIdAttrInSplicedBody(pre, tag, r, q.quote, oldId);
      assert false;
    }
  }

  /** The body of a spliced window lies inside the tag, which holds no old id attribute. */
  lemma NoIdAttrInSplicedBody(pre: string, tag: string, r: string, quote: char, oldId: string)
    requires r == pre + tag && |pre| + 1 <= |r| - 1
    requires quote == '"' || quote == '\''
    requires NoOldIdLeft(tag, oldId)
    ensures !Contains(r[|pre| + 1..|r| - 1], IdAttr(oldId, quote))
  {
    SpliceBody(pre, tag, |r| - 1);
    if Contains(tag[1..|tag| - 1], IdAttr(oldId, quote)) {
      ContainsSlice(tag, 1, |tag| - 1, IdAttr(oldId, quote));
    }
  }

  /** The text between the first character of `tag` and its last, inside
      `pre + tag`. */
  lemma SpliceBody(pre: string, tag: string, e: nat)
    requires |pre| + 1 <= e == |pre| + |tag| - 1
    ensures (pre + tag)[|pre| + 1..e] == tag[1..|tag| - 1]
  {
  }

  lemma {:induction false} UnmatchedPassesKept(w: string, oldId: string, newId: string, n: nat)
    requires n <= |Patterns|
    requires forall j | 0 <= j < n :: !WindowMatches(w, Patterns[j], oldId)
    ensures PassesOn(w, oldId, newId, n) == w
  {
    if n > 0 {
      UnmatchedPassesKept(w, oldId, newId, n - 1);
    }
  }

  /** A pass whose pattern does not match the window leaves it alone. */
  lemma PassKeeps(w: string, v: string, oldId: string, newId: string, n: nat)
    requires 0 < n <= |Patterns|
    requires PassesOn(w, oldId, newId, n - 1) == v && !WindowMatches(v, Patterns[n - 1], oldId)
    ensures PassesOn(w, oldId, newId, n) == v
  {
  }

  /** The only pattern that matches `w` rewrites its tag; the passes after it
      leave the rewritten window alone. */
  lemma {:induction false} PassesAfterMatch(w: string, oldId: string, newId: string, k: nat, n: nat)
    requires k < n <= |Patterns|
    requires WindowMatches(w, Patterns[k], oldId)
    requires forall j | 0 <= j < |Patterns| && j != k :: !WindowMatches(w, Patterns[j], oldId)
    requires NoOldIdLeft(ReplaceIds(w[TagStart(w)..], oldId, newId), oldId)
    ensures PassesOn(w, oldId, newId, n) == SubWindow(w, Patterns[k], oldId, newId)
  {
    if n == k + 1 {
      UnmatchedPassesKept(w, oldId, newId, k);
      assert PassesOn(w, oldId, newId, n) == SubWindow(PassesOn(w, oldId, newId, k), Patterns[k], oldId, newId);
    } else {
      PassesAfterMatch(w, oldId, newId, k, n - 1);
      PatternQuote(n - 1);
      RewrittenNotMatched(w, Patterns[k], Patterns[n - 1], oldId, newId);
      PassKeeps(w, SubWindow(w, Patterns[k], oldId, newId), oldId, newId, n);
    }
  }

  /** Every pattern quotes with `"` or `'`. */
  lemma PatternQuote(j: nat)
    requires j < |Patterns|
    ensures Patterns[j].quote == '"' || Patterns[j].quote == '\''
  {
  }

  /** The one pattern that hits a window hit once. */
  lemma HitPattern(w: string, oldId: string) returns (k: nat)
    requires WindowHits(w, oldId) == 1
    ensures k < |Patterns| && WindowMatches(w, Patterns[k], oldId)
    ensures forall j | 0 <= j < |Patterns| && j != k :: !WindowMatches(w, Patterns[j], oldId)
  {
    if WindowMatches(w, Patterns[0], oldId) {
      k := 0;
    } else if WindowMatches(w, Patterns[1], oldId) {
      k := 1;
    } else if WindowMatches(w, Patterns[2], oldId) {
      k := 2;
    } else {
      k := 3;
    }
  }

  /** The tag of a matched window, from its `<` to its `>`, is matched on its own. */
  lemma TagMatchesAlone(w: string, p: Pattern, oldId: string)
    requires WindowMatches(w, p, oldId)
    requires '>' !in w[..|w| - 1]
    ensures var tag := w[TagStart(w)..];
      && |tag| >= 2 && tag[0] == '<' && '>' !in tag[..|tag| - 1]
      && WindowMatches(tag, p, oldId)
  {
    var t := TagStart(w);
    var tag := w[t..];
    assert w[..|w| - 1] == w[..t] + tag[..|tag| - 1];
    assert tag[0] == '<';
    IndexOfFromIs(tag, '<', 0, 0);
    assert Terminated(tag);
    assert tag[TagStart(tag) + 1..|tag| - 1] == w[t + 1..|w| - 1];
  }

  /** The window hit once: its part before the tag, the tag, and what the
      passes make of it. */
  lemma HitWindowRewritten(w: string, oldId: string, newId: string)
    requires WindowHits(w, oldId) == 1
    requires w != [] && '>' !in w[..|w| - 1]
    ensures var tag := w[TagStart(w)..];
      && w == w[..TagStart(w)] + tag
      && |tag| >= 2 && tag[0] == '<' && '>' !in tag[..|tag| - 1]
      && (exists j | 0 <= j < |Patterns| :: WindowMatches(tag, Patterns[j], oldId))
      && (NoOldIdLeft(ReplaceIds(tag, oldId, newId), oldId) ==>
            PassesOn(w, oldId, newId, |Patterns|) == w[..TagStart(w)] + ReplaceIds(tag, oldId, newId))
  {
    var k := HitPattern(w, oldId);
    var tag := w[TagStart(w)..];
    TagMatchesAlone(w, Patterns[k], oldId);
    assert WindowMatches(tag, Patterns[k], oldId);
    assert w == w[..TagStart(w)] + tag;
    if NoOldIdLeft(ReplaceIds(tag, oldId, newId), oldId) {
      PassesAfterMatch(w, oldId, newId, k, |Patterns|);
      assert PassesOn(w, oldId, newId, |Patterns|) == SubWindow(w, Patterns[k], oldId, newId);
    }
  }

  /** With exactly one match in the text, the result is the input with the
      matched tag (from its `<` to its `>`) passed once through `replace_id`,
      and nothing else changed, provided the rewritten tag holds no old id
      attribute any more. The tag carries the old id and `class="tkk"`. */
  lemma SingleMatchRewritesTag(s: string, oldId: string, newId: string) returns (pre: string, tag: string, post: string)
    requires '>' !in oldId && '>' !in newId
    requires TotalMatches(s, oldId) == 1
    ensures s == pre + tag + post
    ensures |tag| >= 2 && tag[0] == '<' && '>' !in tag[..|tag| - 1]
    ensures exists j | 0 <= j < |Patterns| :: WindowMatches(tag, Patterns[j], oldId)
    ensures NoOldIdLeft(ReplaceIds(tag, oldId, newId), oldId) ==>
      RewriteAll(s, oldId, newId) == pre + ReplaceIds(tag, oldId, newId) + post
  {
    var pre0, w, post0 := SingleMatchIsLocal(s, oldId, newId);
    HitWindowRewritten(w, oldId, newId);
    var head := w[..TagStart(w)];
    tag := w[TagStart(w)..];
    pre := pre0 + head;
    post := post0;
    assert pre + tag == pre0 + (head + tag);
    var x := ReplaceIds(tag, oldId, newId);
    if NoOldIdLeft(x, oldId) {
      assert RewriteAll(s, oldId, newId) == pre0 + (head + x) + post;
      assert pre + x == pre0 + (head + x);
    }
  }

  // ---- Texts without a uniformly quoted id attribute ----

  lemma {:induction false} CountAllNone(ws: seq<string>, p: Pattern, oldId: string)
    requires forall i | 0 <= i < |ws| :: !WindowMatches(ws[i], p, oldId)
    ensures CountAll(ws, p, oldId) == 0
    decreases |ws|
  {
    if ws != [] {
      assert forall i | 0 <= i < |ws[1..]| :: ws[1..][i] == ws[i + 1];
      CountAllNone(ws[1..], p, oldId);
    }
  }

  /** What a window contains, the text contains. */
  lemma WindowContains(s: string, i: nat, x: string)
    requires i < |Windows(s)|
    requires Contains(Windows(s)[i], x)
    ensures Contains(s, x)
  {
    var ws := Windows(s);
    ConcatSplit(ws, i);
    var a := |Concat(ws[..i])|;
    assert s[a..a + |ws[i]|] == ws[i];
    ContainsSlice(s, a, a + |ws[i]|, x);
  }

  /** A matched window contains the pattern's id attribute. */
  lemma MatchContainsIdAttr(w: string, p: Pattern, oldId: string)
    ensures WindowMatches(w, p, oldId) ==> Contains(w, IdAttr(oldId, p.quote))
  {
    if WindowMatches(w, p, oldId) {
      MatchHasIdAttr(w, p, oldId);
      ContainsSlice(w, TagStart(w) + 1, |w| - 1, IdAttr(oldId, p.quote));
    }
  }

  /** A window of a text without the pattern's id attribute is not matched. */
  lemma WindowWithoutIdAttr(s: string, i: nat, p: Pattern, oldId: string)
    requires i < |Windows(s)|
    requires !Contains(s, IdAttr(oldId, p.quote))
    ensures !WindowMatches(Windows(s)[i], p, oldId)
  {
    var x := IdAttr(oldId, p.quote);
    MatchContainsIdAttr(Windows(s)[i], p, oldId);
    if Contains(Windows(s)[i], x) {
      WindowContains(s, i, x);
    }
  }

  /** The rewriter's patterns each need `id="old"` or `id='old'` written with
      one quote character; a text holding neither has no match and is
      returned unchanged. */
  lemma NoUniformIdAttrNoMatch(s: string, oldId: string, newId: string)
    requires !Contains(s, IdAttr(oldId, '"')) && !Contains(s, IdAttr(oldId, '\''))
    ensures TotalMatches(s, oldId) == 0
    ensures RewriteAll(s, oldId, newId) == s
  {
    var ws := Windows(s);
    forall j | 0 <= j < |Patterns| ensures Count(s, Patterns[j], oldId) == 0 {
      forall i | 0 <= i < |ws| ensures !WindowMatches(ws[i], Patterns[j], oldId) {
        WindowWithoutIdAttr(s, i, Patterns[j], oldId);
      }
      CountAllNone(ws, Patterns[j], oldId);
    }
    assert SumCounts(s, oldId, 1) == 0;
    assert SumCounts(s, oldId, 2) == 0;
    assert SumCounts(s, oldId, 3) == 0;
    NoMatchUnchanged(s, oldId, newId);
  }

  // ---- The search of `process_block_comment` ----

  /** `id=`, a quote, the id, a quote; the two quotes may differ. */
  predicate IdAnyAt(body: string, i: nat, v: string) {
    && OccursAt(body, i, "id=")
    && i + 3 < |body| && IsQuote(body[i + 3])
    && OccursAt(body, i + 4, v)
    && i + 4 + |v| < |body| && IsQuote(body[i + 4 + |v|])
  }

  /** The search pattern (unify_tkk_ids/unify_tkk_ids.py:174) in one window.
      Its first alternative (id, then class) needs no closing `>` and so is
      also tried in a trailing window without one; its second (class, then
      id) needs the `>`. Both need at least one character between `<` and the
      first attribute and between the attributes. */
  predicate SearchWindow(w: string, v: string) {
    var t := TagStart(w);
    && t < |w|
    && var end := if Terminated(w) then |w| - 1 else |w|;
       var body := w[t + 1..end];
       || (exists i: nat, j: nat | 1 <= i && i + 5 + |v| < j <= |body| :: IdAnyAt(body, i, v) && ClassTkkAt(body, j))
       || (Terminated(w) && exists j: nat, i: nat | 1 <= j && j + 12 <= i <= |body| :: ClassTkkAt(body, j) && IdAnyAt(body, i, v))
  }

  /** Some window of `ws` matches the search pattern. */
  predicate SearchesAny(ws: seq<string>, v: string) {
    ws != [] && (SearchWindow(ws[0], v) || SearchesAny(ws[1..], v))
  }

  lemma {:induction false} SearchesAnyIsSome(ws: seq<string>, v: string)
    ensures SearchesAny(ws, v) <==> exists i | 0 <= i < |ws| :: SearchWindow(ws[i], v)
  {
    if ws != [] {
      SearchesAnyIsSome(ws[1..], v);
      assert forall i | 1 <= i < |ws| :: ws[i] == ws[1..][i - 1];
    }
  }

  /** `re.search(pattern, content)` succeeds: the pattern cannot cross a `>`
      except at its very end, so it matches inside one window. */
  predicate SearchFinds(s: string, v: string) {
    SearchesAny(Windows(s), v)
  }
}
