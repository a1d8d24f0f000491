/** The final report `display_uncertainties` (unify_tkk_ids/unify_tkk_ids.py:40-89):
    block ids left without the prefix, and `tkk` ids in the cached markup
    that were not renamed. Printed lines become returned issues. */
module Validation {
  import opened Wrappers
  import opened Text
  import opened TagWindows
  import opened Document

  // ---- The id scanner of unify_tkk_ids/unify_tkk_ids.py:76 ----

  /** End of the quote-free run from `i`: the first quote at or after `i`, or `|s|`. */
  function QuoteFreeEnd(s: string, i: nat): (j: nat)
    requires i <= |s|
    ensures i <= j <= |s|
    ensures forall k | i <= k < j :: !IsQuote(s[k])
    ensures j < |s| ==> IsQuote(s[j])
    decreases |s| - i
  {
    if i == |s| || IsQuote(s[i]) then i else QuoteFreeEnd(s, i + 1)
  }

  /** `id=["']([^"']+)["']` at `d`: the index of the closing quote. The
      greedy group takes the whole quote-free run, which may run past a `>`. */
  function IdValueEnd(s: string, d: nat): (r: Option<nat>)
    ensures r.Some? ==> d + 4 < r.value < |s| && IsQuote(s[r.value])
    ensures r.Some? ==> forall k | d + 4 <= k < r.value :: !IsQuote(s[k])
  {
    if OccursAt(s, d, "id=") && d + 3 < |s| && IsQuote(s[d + 3]) then
      var q := QuoteFreeEnd(s, d + 4);
      if d + 4 < q < |s| then Some(q) else None
    else None
  }

  /** The first `class="tkk"` (either quotes) starting in `[i, lim)`. */
  function FirstClass(s: string, i: nat, lim: nat): (r: Option<nat>)
    ensures r.Some? ==> i <= r.value < lim && ClassTkkAt(s, r.value)
    ensures r.Some? ==> forall c | i <= c < r.value :: !ClassTkkAt(s, c)
    ensures r.None? ==> forall c | i <= c < lim :: !ClassTkkAt(s, c)
    decreases lim - i
  {
    if i >= lim then None
    else if ClassTkkAt(s, i) then Some(i)
    else FirstClass(s, i + 1, lim)
  }

  /** The first id attribute with a value starting in `[i, lim)`. */
  function FirstIdValue(s: string, i: nat, lim: nat): (r: Option<nat>)
    ensures r.Some? ==> i <= r.value < lim && IdValueEnd(s, r.value).Some?
    ensures r.None? ==> forall d | i <= d < lim :: IdValueEnd(s, d).None?
    decreases lim - i
  {
    if i >= lim then None
    else if IdValueEnd(s, i).Some? then Some(i)
    else FirstIdValue(s, i + 1, lim)
  }

  /** `class="tkk"` between the `<` at `p` and the id attribute at `d`, at
      least one character from each: the first alternative. */
  ghost predicate ClassBefore(s: string, p: nat, d: nat) {
    exists c | p + 2 <= c && c + 12 <= d :: ClassTkkAt(s, c)
  }

  /** `class="tkk"` at `c`, at least two characters after the closing quote
      at `q`, with no `>` in between. */
  predicate ClassAfterAt(s: string, q: nat, c: nat) {
    q + 2 <= c < |s| && ClassTkkAt(s, c) && '>' !in s[q + 1..c]
  }

  /** `class="tkk"` somewhere after the closing quote at `q`, before the next
      `>`: the second alternative. */
  ghost predicate ClassAfter(s: string, q: nat) {
    exists c :: ClassAfterAt(s, q, c)
  }

  /** The id attribute at `d` has a value followed by `class="tkk"`. */
  ghost predicate IdClassAfter(s: string, d: nat) {
    IdValueEnd(s, d).Some? && ClassAfter(s, IdValueEnd(s, d).value)
  }

  /** Index `d` lies inside the tag opened by the `<` at `p`, past its name. */
  predicate InTag(s: string, p: nat, d: nat) {
    p < |s| && s[p] == '<' && p + 2 <= d && d < IndexOfFrom(s, '>', p + 1)
  }

  /** The id attribute with a value at `d` belongs to the tag opened by the
      `<` at `p` (no `>` between them), and that tag carries `class="tkk"`
      before the id or after its value: what the pattern matches at `p`. */
  ghost predicate TkkIdAttr(s: string, p: nat, d: nat) {
    && p + 2 <= d < |s| && s[p] == '<'
    && '>' !in s[p + 1..d]
    && IdValueEnd(s, d).Some?
    && (ClassBefore(s, p, d) || ClassAfter(s, IdValueEnd(s, d).value))
  }

  /** `x` is the value of the id attribute of a `tkk` tag. */
  ghost predicate IsTkkId(s: string, x: string) {
    exists p: nat, d: nat | TkkIdAttr(s, p, d) :: IdValueEnd(s, d) == Some(d + 4 + |x|) && s[d + 4..d + 4 + |x|] == x
  }

  /** A match: the id value is `s[start..end]`, and scanning resumes at `next`. */
  datatype Hit = Hit(start: nat, end: nat, next: nat)

  /** The hit captures the value of the id attribute just before it. */
  predicate CapturesIdValue(s: string, h: Hit) {
    h.start >= 4 && IdValueEnd(s, h.start - 4) == Some(h.end)
  }

  /** A hit at the `<` at `p`: it captures the value of the id attribute of
      the `tkk` tag opened there, and scanning resumes past `p`. */
  ghost predicate TkkHit(s: string, p: nat, h: Hit) {
    && p + 4 < h.start && CapturesIdValue(s, h) && TkkIdAttr(s, p, h.start - 4)
    && p < h.next <= |s|
  }

  /** The first alternative at the `<` at `p`: `class` first, then `id`, both
      before the tag's `>`. The earliest class is taken, then the earliest id
      after it; if that class has none, no later class has one either. */
  function ClassThenId(s: string, p: nat): (r: Option<Hit>)
    requires p < |s| && s[p] == '<'
    ensures r.Some? ==> TkkHit(s, p, r.value)
  {
    var lim := IndexOfFrom(s, '>', p + 1);
    match FirstClass(s, p + 2, lim)
    case None => None
    case Some(c) =>
      match FirstIdValue(s, c + 12, lim)
      case None => None
      case Some(d) =>
        var q := IdValueEnd(s, d).value;
        NotInPrefixSlice(s, '>', p + 1, d, lim);
        assert ClassBefore(s, p, d);
        Some(Hit(d + 4, q, q + 1))
  }

  /** After the closing quote of an id value, `class="tkk"` starts before
      the next `>`. */
  predicate ClassFollows(s: string, q: Option<nat>) {
    q.Some? && q.value < |s| && FirstClass(s, q.value + 2, IndexOfFrom(s, '>', q.value + 1)).Some?
  }

  /** The second alternative with the id attribute at `d`: an id with a
      value, then `class="tkk"` after the closing quote and before the next `>`. */
  function IdThenClassAt(s: string, p: nat, d: nat): (r: Option<Hit>)
    requires InTag(s, p, d)
    ensures r.Some? <==> ClassFollows(s, IdValueEnd(s, d))
  {
    var q := IdValueEnd(s, d);
    if ClassFollows(s, q) then
      Some(Hit(d + 4, q.value, FirstClass(s, q.value + 2, IndexOfFrom(s, '>', q.value + 1)).value + 11))
    else None
  }

  /** A hit of the second alternative is a hit of the pattern. */
  lemma IdThenClassAtSound(s: string, p: nat, d: nat)
    requires InTag(s, p, d)
    ensures var r := IdThenClassAt(s, p, d); r.Some? ==> TkkHit(s, p, r.value)
  {
    var q := IdValueEnd(s, d);
    if ClassFollows(s, q) {
      var lim' := IndexOfFrom(s, '>', q.value + 1);
      var c := FirstClass(s, q.value + 2, lim').value;
      NotInPrefixSlice(s, '>', p + 1, d, IndexOfFrom(s, '>', p + 1));
      NotInPrefixSlice(s, '>', q.value + 1, c, lim');
      assert ClassAfterAt(s, q.value, c);
      assert TkkIdAttr(s, p, d);
    }
  }

  /** The second alternative, trying id positions in `[d, lim)` in turn. */
  function IdThenClassFrom(s: string, p: nat, d: nat, lim: nat): (r: Option<Hit>)
    requires p < |s| && s[p] == '<' && p + 2 <= d
    requires lim == IndexOfFrom(s, '>', p + 1)
    ensures r.Some? ==> TkkHit(s, p, r.value)
    decreases lim - d
  {
    if d >= lim then None
    else
      var h := IdThenClassAt(s, p, d);
      if h.Some? then IdThenClassAtSound(s, p, d); h else IdThenClassFrom(s, p, d + 1, lim)
  }

  /** The regular expression tried at index `p`: first alternative, then second. */
  function ScanAt(s: string, p: nat): (r: Option<Hit>)
    requires p < |s|
    ensures r.Some? ==> TkkHit(s, p, r.value)
  {
    if s[p] != '<' then None
    else
      var first := ClassThenId(s, p);
      if first.Some? then first else IdThenClassFrom(s, p, p + 2, IndexOfFrom(s, '>', p + 1))
  }

  /** The id attribute of a `tkk` tag lies before the tag's first `>`. */
  lemma TkkIdBeforeClose(s: string, p: nat, d: nat)
    requires TkkIdAttr(s, p, d)
    ensures d < IndexOfFrom(s, '>', p + 1)
  {
    assert s[d] == "id="[0];
    IndexOfFromPast(s, '>', p + 1, d);
  }

  /** The second alternative hits at an id attribute whose value is
      followed by `class="tkk"`. */
  lemma IdThenClassHit(s: string, p: nat, d: nat)
    requires InTag(s, p, d) && IdClassAfter(s, d)
    ensures IdThenClassAt(s, p, d).Some?
  {
    var q := IdValueEnd(s, d).value;
    var c :| ClassAfterAt(s, q, c);
    ClassBeforeClose(s, q, c);
    assert ClassFollows(s, IdValueEnd(s, d));
  }

  /** A `class="tkk"` after the quote at `q` with no `>` before it is found
      before the next `>`. */
  lemma ClassBeforeClose(s: string, q: nat, c: nat)
    requires ClassAfterAt(s, q, c)
    ensures FirstClass(s, q + 2, IndexOfFrom(s, '>', q + 1)).Some?
  {
    assert s[c] == "class="[0];
    IndexOfFromPast(s, '>', q + 1, c);
  }

  /** The second alternative finds a hit from `d0` on when the id attribute at
      some `d` in `[d0, lim)` has `class="tkk"` after its value. */
  lemma {:induction false} IdThenClassComplete(s: string, p: nat, d0: nat, lim: nat, d: nat)
    requires InTag(s, p, d) && IdClassAfter(s, d)
    requires p + 2 <= d0 <= d && lim == IndexOfFrom(s, '>', p + 1)
    ensures IdThenClassFrom(s, p, d0, lim).Some?
    decreases d - d0
  {
    if d0 == d {
      IdThenClassHit(s, p, d);
    } else if IdThenClassAt(s, p, d0).None? {
      IdThenClassComplete(s, p, d0 + 1, lim, d);
    }
  }

  /** The first alternative finds a hit when `class="tkk"` precedes the id. */
  lemma ClassThenIdComplete(s: string, p: nat, d: nat)
    requires TkkIdAttr(s, p, d) && ClassBefore(s, p, d)
    ensures ClassThenId(s, p).Some?
  {
    var lim := IndexOfFrom(s, '>', p + 1);
    TkkIdBeforeClose(s, p, d);
    var c :| p + 2 <= c && c + 12 <= d && ClassTkkAt(s, c);
    var c0 := FirstClass(s, p + 2, lim);
    assert c0.Some? && c0.value <= c;
    assert FirstIdValue(s, c0.value + 12, lim).Some?;
  }

  /** The pattern matches at every `<` that opens a `tkk` tag with an id. */
  lemma ScanAtComplete(s: string, p: nat, d: nat)
    requires TkkIdAttr(s, p, d)
    ensures ScanAt(s, p).Some?
  {
    if ClassBefore(s, p, d) {
      ClassThenIdComplete(s, p, d);
    } else {
      TkkIdBeforeClose(s, p, d);
      IdThenClassComplete(s, p, p + 2, IndexOfFrom(s, '>', p + 1), d);
    }
  }

  predicate QuoteFree(x: string) {
    forall k | 0 <= k < |x| :: !IsQuote(x[k])
  }

  /** The value of an id attribute is non-empty and free of quotes. */
  lemma IdValueQuoteFree(s: string, d: nat, e: nat)
    requires IdValueEnd(s, d) == Some(e)
    ensures var x := s[d + 4..e]; x != [] && QuoteFree(x)
  {
    var x := s[d + 4..e];
    forall k | 0 <= k < |x| ensures !IsQuote(x[k]) {
      assert x[k] == s[d + 4 + k];
    }
  }

  lemma CapturedValue(s: string, p: nat, h: Hit)
    requires TkkHit(s, p, h)
    ensures h.start < h.end < |s|
    ensures var x := s[h.start..h.end]; x != [] && QuoteFree(x) && IsTkkId(s, x)
  {
    var d: nat := h.start - 4;
    IdValueQuoteFree(s, d, h.end);
    var x := s[h.start..h.end];
    assert TkkIdAttr(s, p, d) && IdValueEnd(s, d) == Some(d + 4 + |x|) && s[d + 4..d + 4 + |x|] == x;
  }

  /** `re.findall` of the pattern from index `p`: the captured ids, left to
      right, each the value of the id attribute of a `tkk` tag. */
  function TkkIdsFrom(s: string, p: nat): (r: seq<string>)
    ensures forall x | x in r :: x != [] && QuoteFree(x) && IsTkkId(s, x)
    decreases |s| - p
  {
    if p >= |s| then []
    else match ScanAt(s, p)
      case None => TkkIdsFrom(s, p + 1)
      case Some(h) =>
        CapturedValue(s, p, h);
        [s[h.start..h.end]] + TkkIdsFrom(s, h.next)
  }

  function TkkIds(s: string): seq<string> {
    TkkIdsFrom(s, 0)
  }

  /** Nothing is captured from `p` on exactly when no `tkk` tag with an id
      opens at or after `p`. */
  lemma {:induction false} TkkIdsNone(s: string, p: nat)
    ensures TkkIdsFrom(s, p) == [] <==> forall p', d | p <= p' :: !TkkIdAttr(s, p', d)
    decreases |s| - p
  {
    if p < |s| {
      match ScanAt(s, p)
      case None =>
        TkkIdsNone(s, p + 1);
        forall d ensures !TkkIdAttr(s, p, d) {
          if TkkIdAttr(s, p, d) {
            ScanAtComplete(s, p, d);
          }
        }
      case Some(h) =>
    }
  }

  // ---- The report ----

  /** One printed finding: a block id left as it was, or a `tkk` id in a
      markup file that does not carry the prefix. */
  datatype Issue = UnchangedId(value: string, entry: Option<string>) | Orphan(id: string, file: string)

  /** A block id the report counts: set, not `"TODO"`, and without the prefix. */
  predicate IsUnchanged(b: Block, prefix: string) {
    b.svgGroupId.Some? && b.svgGroupId.value != "" && !StartsWith(b.svgGroupId.value, prefix) && b.svgGroupId.value != "TODO"
  }

  /** The positions of the blocks the report counts. */
  ghost function UnchangedAt(blocks: seq<Block>, prefix: string): set<nat> {
    set k: nat | k < |blocks| && IsUnchanged(blocks[k], prefix)
  }

  /** Adding a position past all others adds one to the count. */
  lemma CountAddLast(a: set<nat>, b: set<nat>, n: nat, hit: bool)
    requires forall k | k in a :: k < n
    requires b == if hit then a + {n} else a
    ensures |b| == |a| + if hit then 1 else 0
  {
    if hit {
      assert n !in a;
    }
  }

  lemma UnchangedAtLast(blocks: seq<Block>, prefix: string)
    requires blocks != []
    ensures var n := |blocks| - 1;
      |UnchangedAt(blocks, prefix)| == |UnchangedAt(blocks[..n], prefix)| + if IsUnchanged(blocks[n], prefix) then 1 else 0
  {
    var n := |blocks| - 1;
    var hit := IsUnchanged(blocks[n], prefix);
    assert UnchangedAt(blocks, prefix) == if hit then UnchangedAt(blocks[..n], prefix) + {n} else UnchangedAt(blocks[..n], prefix);
    CountAddLast(UnchangedAt(blocks[..n], prefix), UnchangedAt(blocks, prefix), n, hit);
  }

  /** One issue per block whose id is set, not `TODO` and without the prefix. */
  function BlockIssues(blocks: seq<Block>, entry: Option<string>, prefix: string): (r: seq<Issue>)
    ensures forall x :: x in r <==> exists k | 0 <= k < |blocks| ::
      IsUnchanged(blocks[k], prefix) && x == UnchangedId(blocks[k].svgGroupId.value, entry)
    ensures |r| == |UnchangedAt(blocks, prefix)|
  {
    if blocks == [] then
      assert UnchangedAt(blocks, prefix) == {};
      []
    else
      var b := blocks[|blocks| - 1];
      var rest := BlockIssues(blocks[..|blocks| - 1], entry, prefix);
      assert forall k | 0 <= k < |blocks| - 1 :: blocks[..|blocks| - 1][k] == blocks[k];
      UnchangedAtLast(blocks, prefix);
      rest + if IsUnchanged(b, prefix) then [UnchangedId(b.svgGroupId.value, entry)] else []
  }

  /** The issues of two runs of blocks are those of each, in order. */
  lemma {:induction false} BlockIssuesAppend(a: seq<Block>, b: seq<Block>, entry: Option<string>, prefix: string)
    ensures BlockIssues(a + b, entry, prefix) == BlockIssues(a, entry, prefix) + BlockIssues(b, entry, prefix)
    decreases |b|
  {
    if b == [] {
      assert a + b == a;
    } else {
      var n := |b| - 1;
      assert (a + b)[..|a + b| - 1] == a + b[..n];
      assert (a + b)[|a + b| - 1] == b[n];
      BlockIssuesAppend(a, b[..n], entry, prefix);
    }
  }

  function GroupIssues(groups: seq<seq<Block>>, entry: Option<string>, prefix: string): (r: seq<Issue>)
  {
    if groups == [] then []
    else GroupIssues(groups[..|groups| - 1], entry, prefix) + BlockIssues(groups[|groups| - 1], entry, prefix)
  }

  /** The block issues of all entries; an entry that is not an object has
      none (the report stops before it). */
  function JsonIssues(entries: seq<Entry>, prefix: string): (r: seq<Issue>)
  {
    if entries == [] then []
    else
      var e := entries[|entries| - 1];
      JsonIssues(entries[..|entries| - 1], prefix)
      + match e
        case Entry(id, comments) => GroupIssues(comments, id, prefix)
        case NotAnObject => []
  }

  /** Every block of every entry has an empty, `TODO` or prefixed id. */
  predicate Settled(entries: seq<Entry>, prefix: string) {
    forall i, g, k | 0 <= i < |entries| && entries[i].Entry? && 0 <= g < |entries[i].comments|
                     && 0 <= k < |entries[i].comments[g]| ::
      !IsUnchanged(entries[i].comments[g][k], prefix)
  }

  lemma {:induction false} GroupIssuesEmpty(groups: seq<seq<Block>>, entry: Option<string>, prefix: string)
    ensures GroupIssues(groups, entry, prefix) == [] <==>
      forall g, k | 0 <= g < |groups| && 0 <= k < |groups[g]| :: !IsUnchanged(groups[g][k], prefix)
    decreases |groups|
  {
    if groups != [] {
      var init := groups[..|groups| - 1];
      GroupIssuesEmpty(init, entry, prefix);
      assert forall g | 0 <= g < |init| :: init[g] == groups[g];
      BlockIssuesEmpty(groups[|groups| - 1], entry, prefix);
    }
  }

  lemma BlockIssuesEmpty(blocks: seq<Block>, entry: Option<string>, prefix: string)
    ensures BlockIssues(blocks, entry, prefix) == [] <==> forall k | 0 <= k < |blocks| :: !IsUnchanged(blocks[k], prefix)
  {
    var r := BlockIssues(blocks, entry, prefix);
    if r != [] {
      assert r[0] in r;
    }
    forall k | 0 <= k < |blocks| && IsUnchanged(blocks[k], prefix) ensures r != [] {
      assert UnchangedId(blocks[k].svgGroupId.value, entry) in r;
    }
  }

  /** No block issue is reported exactly when every block is settled. */
  lemma {:induction false} JsonIssuesEmptyIffSettled(entries: seq<Entry>, prefix: string)
    ensures JsonIssues(entries, prefix) == [] <==> Settled(entries, prefix)
    decreases |entries|
  {
    if entries != [] {
      var init := entries[..|entries| - 1];
      JsonIssuesEmptyIffSettled(init, prefix);
      assert forall i | 0 <= i < |init| :: init[i] == entries[i];
      var e := entries[|entries| - 1];
      if e.Entry? {
        GroupIssuesEmpty(e.comments, e.id, prefix);
      }
    }
  }

  /** The positions of the ids of one file that do not carry the prefix. */
  ghost function OrphanAt(ids: seq<string>, prefix: string): set<nat> {
    set k: nat | k < |ids| && !StartsWith(ids[k], prefix)
  }

  lemma OrphanAtLast(ids: seq<string>, prefix: string)
    requires ids != []
    ensures var n := |ids| - 1;
      |OrphanAt(ids, prefix)| == |OrphanAt(ids[..n], prefix)| + if !StartsWith(ids[n], prefix) then 1 else 0
  {
    var n := |ids| - 1;
    var hit := !StartsWith(ids[n], prefix);
    assert OrphanAt(ids, prefix) == if hit then OrphanAt(ids[..n], prefix) + {n} else OrphanAt(ids[..n], prefix);
    CountAddLast(OrphanAt(ids[..n], prefix), OrphanAt(ids, prefix), n, hit);
  }

  /** One orphan per captured id of one file that does not carry the prefix,
      repeated ids included. */
  function FileOrphans(file: string, ids: seq<string>, prefix: string): (r: seq<Issue>)
    ensures forall x :: x in r <==> exists id | id in ids :: !StartsWith(id, prefix) && x == Orphan(id, file)
    ensures |r| == |OrphanAt(ids, prefix)|
  {
    if ids == [] then
      assert OrphanAt(ids, prefix) == {};
      []
    else
      var id := ids[|ids| - 1];
      var rest := FileOrphans(file, ids[..|ids| - 1], prefix);
      assert ids == ids[..|ids| - 1] + [id];
      OrphanAtLast(ids, prefix);
      rest + if !StartsWith(id, prefix) then [Orphan(id, file)] else []
  }

  /** The orphans of two runs of ids are those of each, in order. */
  lemma {:induction false} FileOrphansAppend(file: string, a: seq<string>, b: seq<string>, prefix: string)
    ensures FileOrphans(file, a + b, prefix) == FileOrphans(file, a, prefix) + FileOrphans(file, b, prefix)
    decreases |b|
  {
    if b == [] {
      assert a + b == a;
    } else {
      var n := |b| - 1;
      assert (a + b)[..|a + b| - 1] == a + b[..n];
      assert (a + b)[|a + b| - 1] == b[n];
      FileOrphansAppend(file, a, b[..n], prefix);
    }
  }

  /** The orphans of the cached files, in cache order. */
  function SvgOrphans(files: seq<string>, contents: map<string, string>, prefix: string): (r: seq<Issue>)
    requires forall f | f in files :: f in contents
    ensures forall x :: x in r <==> exists f | f in files ::
      exists id | id in TkkIds(contents[f]) :: !StartsWith(id, prefix) && x == Orphan(id, f)
  {
    if files == [] then []
    else
      var f := files[|files| - 1];
      assert files == files[..|files| - 1] + [f];
      SvgOrphans(files[..|files| - 1], contents, prefix) + FileOrphans(f, TkkIds(contents[f]), prefix)
  }

  /** No orphan is reported exactly when every `tkk` id of every cached file
      carries the prefix. */
  lemma SvgOrphansEmpty(files: seq<string>, contents: map<string, string>, prefix: string)
    requires forall f | f in files :: f in contents
    ensures SvgOrphans(files, contents, prefix) == [] <==>
      forall f | f in files :: forall id | id in TkkIds(contents[f]) :: StartsWith(id, prefix)
  {
    var r := SvgOrphans(files, contents, prefix);
    if r != [] {
      assert r[0] in r;
    }
    forall f, id | f in files && id in TkkIds(contents[f]) && !StartsWith(id, prefix) ensures r != [] {
      assert Orphan(id, f) in r;
    }
  }

  /** The number of offending blocks of some comment groups. */
  ghost function GroupsUnchanged(groups: seq<seq<Block>>, prefix: string): nat {
    if groups == [] then 0
    else GroupsUnchanged(groups[..|groups| - 1], prefix) + |UnchangedAt(groups[|groups| - 1], prefix)|
  }

  /** The number of offending blocks of all entries that are objects. */
  ghost function UnchangedTotal(entries: seq<Entry>, prefix: string): nat {
    if entries == [] then 0
    else
      UnchangedTotal(entries[..|entries| - 1], prefix)
      + match entries[|entries| - 1]
        case Entry(_, comments) => GroupsUnchanged(comments, prefix)
        case NotAnObject => 0
  }

  /** The number of captured ids without the prefix, over the cached files. */
  ghost function OrphanTotal(files: seq<string>, contents: map<string, string>, prefix: string): nat
    requires forall f | f in files :: f in contents
  {
    if files == [] then 0
    else OrphanTotal(files[..|files| - 1], contents, prefix) + |OrphanAt(TkkIds(contents[files[|files| - 1]]), prefix)|
  }

  lemma {:induction false} GroupIssuesCount(groups: seq<seq<Block>>, entry: Option<string>, prefix: string)
    ensures |GroupIssues(groups, entry, prefix)| == GroupsUnchanged(groups, prefix)
    decreases |groups|
  {
    if groups != [] {
      GroupIssuesCount(groups[..|groups| - 1], entry, prefix);
    }
  }

  /** The report counts one issue per offending block of every entry. */
  lemma {:induction false} JsonIssuesCount(entries: seq<Entry>, prefix: string)
    ensures |JsonIssues(entries, prefix)| == UnchangedTotal(entries, prefix)
    decreases |entries|
  {
    if entries != [] {
      JsonIssuesCount(entries[..|entries| - 1], prefix);
      var e := entries[|entries| - 1];
      if e.Entry? {
        GroupIssuesCount(e.comments, e.id, prefix);
      }
    }
  }

  /** The report counts one orphan per captured id without the prefix, over
      every cached file. */
  lemma {:induction false} SvgOrphansCount(files: seq<string>, contents: map<string, string>, prefix: string)
    requires forall f | f in files :: f in contents
    ensures |SvgOrphans(files, contents, prefix)| == OrphanTotal(files, contents, prefix)
    decreases |files|
  {
    if files != [] {
      SvgOrphansCount(files[..|files| - 1], contents, prefix);
    }
  }

  /** What the report prints: the issues, their count, and whether the
      all-clear line is printed. */
  datatype Report = Report(issues: seq<Issue>, errorsFound: nat, allUpdated: bool)

  /** The block issues of one entry's comment groups, by nested loops. */
  method EntryIssues(groups: seq<seq<Block>>, entryId: Option<string>, prefix: string) returns (issues: seq<Issue>)
    ensures issues == GroupIssues(groups, entryId, prefix)
  {
    issues := [];
    var g := 0;
    while g < |groups|
      invariant 0 <= g <= |groups|
      invariant issues == GroupIssues(groups[..g], entryId, prefix)
    {
      assert groups[..g + 1][..g] == groups[..g];
      var blocks := groups[g];
      var k := 0;
      while k < |blocks|
        invariant 0 <= k <= |blocks|
        invariant issues == GroupIssues(groups[..g], entryId, prefix) + BlockIssues(blocks[..k], entryId, prefix)
      {
        assert blocks[..k + 1][..k] == blocks[..k];
        assert BlockIssues(blocks[..k + 1], entryId, prefix) == BlockIssues(blocks[..k], entryId, prefix)
          + if IsUnchanged(blocks[k], prefix) then [UnchangedId(blocks[k].svgGroupId.value, entryId)] else [];
        var val := blocks[k].svgGroupId;
        if val.Some? && val.value != "" && !StartsWith(val.value, prefix) && val.value != "TODO" {
          issues := issues + [UnchangedId(val.value, entryId)];
        }
        k := k + 1;
      }
      assert blocks[..k] == blocks;
      assert GroupIssues(groups[..g + 1], entryId, prefix) == GroupIssues(groups[..g], entryId, prefix) + BlockIssues(blocks, entryId, prefix);
      g := g + 1;
    }
    assert groups[..g] == groups;
  }

  /** The orphans of one file, by the inner loop. */
  method FileOrphanIssues(filename: string, matches: seq<string>, prefix: string) returns (issues: seq<Issue>)
    ensures issues == FileOrphans(filename, matches, prefix)
  {
    issues := [];
    var m := 0;
    while m < |matches|
      invariant 0 <= m <= |matches|
      invariant issues == FileOrphans(filename, matches[..m], prefix)
    {
      assert matches[..m + 1][..m] == matches[..m];
      var foundId := matches[m];
      if !StartsWith(foundId, prefix) {
        issues := issues + [Orphan(foundId, filename)];
      }
      m := m + 1;
    }
    assert matches[..m] == matches;
  }

  /** The orphans of the cached files, by the outer loop. */
  method OrphanIssues(files: seq<string>, contents: map<string, string>, prefix: string) returns (issues: seq<Issue>)
    requires forall f | f in files :: f in contents
    ensures issues == SvgOrphans(files, contents, prefix)
  {
    issues := [];
    var j := 0;
    while j < |files|
      invariant 0 <= j <= |files|
      invariant issues == SvgOrphans(files[..j], contents, prefix)
    {
      assert files[..j + 1][..j] == files[..j];
      var filename := files[j];
      var found := FileOrphanIssues(filename, TkkIds(contents[filename]), prefix);
      issues := issues + found;
      j := j + 1;
    }
    assert files[..j] == files;
  }

  /** `display_uncertainties`. An entry that is not an object stops it with an
      exception (`None`); the entries before it have been looked at. */
  method DisplayUncertainties(entries: seq<Entry>, prefix: string, files: seq<string>, contents: map<string, string>)
    returns (report: Option<Report>)
    requires forall f | f in files :: f in contents
    ensures report.None? <==> exists i | 0 <= i < |entries| :: entries[i].NotAnObject?
    ensures report.Some? ==>
      && report.value.issues == JsonIssues(entries, prefix) + SvgOrphans(files, contents, prefix)
      && report.value.errorsFound == |report.value.issues|
      && report.value.errorsFound == UnchangedTotal(entries, prefix) + OrphanTotal(files, contents, prefix)
      && (report.value.allUpdated <==> report.value.errorsFound == 0)
  {
    var issues: seq<Issue> := [];
    var i := 0;
    while i < |entries|
      invariant 0 <= i <= |entries|
      invariant forall k | 0 <= k < i :: entries[k].Entry?
      invariant issues == JsonIssues(entries[..i], prefix)
    {
      assert entries[..i + 1][..i] == entries[..i];
      if entries[i].NotAnObject? {
        return None;
      }
      var found := EntryIssues(entries[i].comments, entries[i].id, prefix);
      issues := issues + found;
      i := i + 1;
    }
    assert entries[..i] == entries;
    var orphans := OrphanIssues(files, contents, prefix);
    issues := issues + orphans;
    JsonIssuesCount(entries, prefix);
    SvgOrphansCount(files, contents, prefix);
    var errorsFound := |issues|;
    report := Some(Report(issues, errorsFound, errorsFound == 0));
  }
}
