/** `process_block_comment` of unify_tkk_ids/unify_tkk_ids.py (:154-207): one
    block comment of an entry, its search through the entry's relevant markup
    files, and the renaming of block and tag. The block is a value that the
    step gives back changed; the entry's `id_mapping` is passed in and out. */
module Blocks {
  import opened Wrappers
  import opened Document
  import opened TagRewrite
  import opened Numbering
  import opened Caches

  /** `process_block_comment` leaves a block alone whose id is missing, empty
      or the placeholder `TODO`. */
  predicate Skipped(v: Option<string>) {
    v.None? || v.value == "" || v.value == "TODO"
  }

  /** A block after processing: unchanged, or its old id replaced by the id
      the entry's mapping gives it. */
  predicate Renamed(before: Block, after: Block, mapping: map<string, string>) {
    || after == before
    || (&& before.svgGroupId.Some? && !Skipped(before.svgGroupId)
        && before.svgGroupId.value in mapping
        && after == Block(Some(mapping[before.svgGroupId.value])))
  }

  /** `b` keeps every entry of `a`. */
  predicate MapExtends(a: map<string, string>, b: map<string, string>) {
    forall k | k in a :: k in b && b[k] == a[k]
  }

  lemma MapExtendsTransitive(a: map<string, string>, b: map<string, string>, c: map<string, string>)
    requires MapExtends(a, b) && MapExtends(b, c)
    ensures MapExtends(a, c)
  {
  }

  lemma RenamedGrows(before: Block, after: Block, a: map<string, string>, b: map<string, string>)
    requires Renamed(before, after, a) && MapExtends(a, b)
    ensures Renamed(before, after, b)
  {
  }

  /** The result of one block: the markup state, the block, the entry's id
      mapping and the value `process_block_comment` returns. */
  datatype Step = Step(state: State, block: Block, mapping: map<string, string>, ok: bool)

  /** `process_block_comment`, as a function of the state. */
  function BlockOutcome(s: State, b: Block, relevant: seq<string>,
                        mapping: map<string, string>, prefix: string): (r: Step)
    requires forall f | f in relevant :: f in s.disk
    requires forall f | f in s.loaded :: f in s.cache
    ensures r.state.disk == s.disk
    ensures forall f | f in r.state.loaded :: f in r.state.cache
  {
    var v := b.svgGroupId;
    if Skipped(v) then Step(s, b, mapping, true)
    else
      var (t, found) := Search(s, relevant, v.value, 0);
      if found.None? then Step(t, b, mapping, false)
      else FoundOutcome(t, b, relevant[found.value], v.value, mapping, prefix)
  }

  /** The rest of `process_block_comment` once `file` holds the id: the
      trial rewrite that detects a duplicate id, then the new id for block
      and tag. */
  function FoundOutcome(t: State, b: Block, file: string, id: string,
                        mapping: map<string, string>, prefix: string): (r: Step)
    requires file in t.disk
    requires forall f | f in t.loaded :: f in t.cache
    ensures r.state.disk == t.disk
    ensures forall f | f in r.state.loaded :: f in r.state.cache
  {
    var u := GetSvgText(t, file);
    var content := u.cache[file];
    if TotalMatches(content, id) > 1 then Step(u, b, mapping, false)
    else
      var m := if id in mapping then mapping else mapping[id := Label(prefix, |mapping| + 1)];
      var newId := m[id];
      Step(SetText(u, file, RewriteAll(content, id, newId)), Block(Some(newId)), m, true)
  }

  /** `process_block_comment`: the search loop, then the found file. */
  method ProcessBlock(s: State, b: Block, relevant: seq<string>,
                      mapping: map<string, string>, prefix: string)
    returns (t: State, b': Block, mapping': map<string, string>, ok: bool)
    requires forall f | f in relevant :: f in s.disk
    requires forall f | f in s.loaded :: f in s.cache
    ensures Step(t, b', mapping', ok) == BlockOutcome(s, b, relevant, mapping, prefix)
  {
    var v := b.svgGroupId;
    if v.None? || v.value == "" || v.value == "TODO" {
      return s, b, mapping, true;
    }
    var found;
    t, found := FindSvgWithId(s, relevant, v.value);
    if found.None? {
      return t, b, mapping, false;
    }
    t, b', mapping', ok := ProcessFound(t, b, relevant[found.value], v.value, mapping, prefix);
  }

  /** The trial rewrite to `temp_id`, and on success the new id for block
      and tag. */
  method ProcessFound(t: State, b: Block, file: string, id: string,
                      mapping: map<string, string>, prefix: string)
    returns (u: State, b': Block, mapping': map<string, string>, ok: bool)
    requires file in t.disk
    requires forall f | f in t.loaded :: f in t.cache
    ensures Step(u, b', mapping', ok) == FoundOutcome(t, b, file, id, mapping, prefix)
  {
    u := GetSvgText(t, file);
    var _, error := UpdateSvgId(u.cache[file], id, "temp_id");
    if error.Some? {
      return u, b, mapping, false;
    }
    mapping' := mapping;
    if id !in mapping' {
      mapping' := mapping'[id := Label(prefix, |mapping'| + 1)];
    }
    var newId := mapping'[id];
    b' := Block(Some(newId));
    var updated, _ := UpdateSvgId(u.cache[file], id, newId);
    u := SetText(u, file, updated);
    ok := true;
  }

  /** The found file is loaded already, so the rest of the block changes at
      most that file's cached text. */
  lemma FoundKeepsConsistent(t: State, b: Block, file: string, id: string,
                             mapping: map<string, string>, prefix: string, svgFiles: seq<string>,
                             relevant: seq<string>)
    requires Consistent(t, svgFiles) && file in t.loaded
    ensures var r := FoundOutcome(t, b, file, id, mapping, prefix);
      Consistent(r.state, svgFiles) && LoadsFrom(t, r.state, relevant)
  {
    var r := FoundOutcome(t, b, file, id, mapping, prefix);
    assert GetSvgText(t, file) == t;
    if TotalMatches(t.cache[file], id) <= 1 {
      var text := r.state.cache[file];
      SetTextKeepsCache(t, file, text, svgFiles);
      assert r.state == SetText(t, file, text);
    } else {
      assert r.state == t;
    }
  }

  /** The block's outcome once the file is known: refused on a duplicate,
      else the id's label (the one the mapping already holds, else the next
      number) for block and tag. */
  lemma FoundRenames(t: State, b: Block, file: string, id: string,
                     mapping: map<string, string>, prefix: string)
    requires file in t.disk && forall f | f in t.loaded :: f in t.cache
    ensures var u := GetSvgText(t, file);
      var newId := if id in mapping then mapping[id] else Label(prefix, |mapping| + 1);
      FoundOutcome(t, b, file, id, mapping, prefix)
      == if TotalMatches(u.cache[file], id) > 1 then Step(u, b, mapping, false)
         else Step(SetText(u, file, RewriteAll(u.cache[file], id, newId)), Block(Some(newId)), mapping[id := newId], true)
  {
  }

  /** One block keeps the run consistent and loads only relevant files; a
      skipped block, or one with no relevant files, changes nothing. */
  lemma BlockKeepsConsistent(s: State, b: Block, relevant: seq<string>,
                             mapping: map<string, string>, prefix: string, svgFiles: seq<string>)
    requires Consistent(s, svgFiles)
    requires forall f | f in relevant :: f in s.disk
    ensures var r := BlockOutcome(s, b, relevant, mapping, prefix);
      && Consistent(r.state, svgFiles)
      && LoadsFrom(s, r.state, relevant)
      && (Skipped(b.svgGroupId) || relevant == [] ==> r.state == s && r.block == b && r.mapping == mapping)
  {
    var v := b.svgGroupId;
    if !Skipped(v) {
      SearchKeepsConsistent(s, relevant, v.value, 0, svgFiles);
      SearchKeepsCache(s, relevant, v.value, 0, svgFiles);
      var (t, found) := Search(s, relevant, v.value, 0);
      assert relevant[0..] == relevant;
      if found.Some? {
        FoundKeepsConsistent(t, b, relevant[found.value], v.value, mapping, prefix, svgFiles, relevant);
        LoadsFromTransitive(s, t, BlockOutcome(s, b, relevant, mapping, prefix).state, relevant);
      }
    }
  }

  /** One block keeps the entry's numbering: at most its own id is added,
      with the next label. */
  lemma BlockNumbers(s: State, b: Block, relevant: seq<string>,
                     mapping: map<string, string>, mapped: seq<string>, prefix: string)
    returns (mapped': seq<string>)
    requires Numbered(mapping, mapped, prefix)
    requires forall f | f in relevant :: f in s.disk
    requires forall f | f in s.loaded :: f in s.cache
    ensures Numbered(BlockOutcome(s, b, relevant, mapping, prefix).mapping, mapped', prefix)
  {
    var v := b.svgGroupId;
    mapped' := mapped;
    if Skipped(v) {
      return;
    }
    var (t, found) := Search(s, relevant, v.value, 0);
    if found.None? {
      return;
    }
    var file := relevant[found.value];
    FoundRenames(t, b, file, v.value, mapping, prefix);
    if TotalMatches(GetSvgText(t, file).cache[file], v.value) > 1 {
      return;
    }
    if v.value !in mapping {
      NumberedExtend(mapping, mapped, prefix, v.value);
      mapped' := mapped + [v.value];
    }
  }

  /** A block adds at most its own id to the mapping, and a block that adds
      it carries the id's new label. */
  lemma BlockNewKey(s: State, b: Block, relevant: seq<string>,
                    mapping: map<string, string>, prefix: string)
    requires forall f | f in relevant :: f in s.disk
    requires forall f | f in s.loaded :: f in s.cache
    ensures var r := BlockOutcome(s, b, relevant, mapping, prefix);
      forall id | id in r.mapping && id !in mapping :: b.svgGroupId == Some(id) && r.block == Block(Some(r.mapping[id]))
  {
    var v := b.svgGroupId;
    if !Skipped(v) {
      var (t, found) := Search(s, relevant, v.value, 0);
      if found.Some? {
        FoundRenames(t, b, relevant[found.value], v.value, mapping, prefix);
      }
    }
  }

  /** One block keeps every id the mapping held, and is renamed by the
      mapping, if at all. */
  lemma BlockRenames(s: State, b: Block, relevant: seq<string>,
                     mapping: map<string, string>, prefix: string)
    requires forall f | f in relevant :: f in s.disk
    requires forall f | f in s.loaded :: f in s.cache
    ensures var r := BlockOutcome(s, b, relevant, mapping, prefix);
      MapExtends(mapping, r.mapping) && Renamed(b, r.block, r.mapping)
  {
    var v := b.svgGroupId;
    if !Skipped(v) {
      var (t, found) := Search(s, relevant, v.value, 0);
      if found.Some? {
        FoundRenames(t, b, relevant[found.value], v.value, mapping, prefix);
      }
    }
  }

  /** A block with an id succeeds exactly when the first relevant file
      whose text mentions the id holds it at most once; a block that is
      skipped or fails keeps its id and leaves the mapping as it was. */
  lemma BlockSucceeds(s: State, b: Block, relevant: seq<string>,
                      mapping: map<string, string>, prefix: string, svgFiles: seq<string>)
    requires Consistent(s, svgFiles)
    requires forall f | f in relevant :: f in s.disk
    ensures var r := BlockOutcome(s, b, relevant, mapping, prefix);
      var v := b.svgGroupId;
      && (!Skipped(v) ==>
            (r.ok <==> exists j | 0 <= j < |relevant| ::
               FirstHit(s, relevant, v.value, 0, j) && TotalMatches(TextOf(s, relevant[j]), v.value) <= 1))
      && (Skipped(v) ==> r.ok)
      && (!r.ok || Skipped(v) ==> r.block == b && r.mapping == mapping)
      && (!r.ok || Skipped(v) ==> forall g | g in s.disk :: TextOf(r.state, g) == TextOf(s, g))
  {
    BlockKeepsTexts(s, b, relevant, mapping, prefix, svgFiles);
    var v := b.svgGroupId;
    if !Skipped(v) {
      SearchIsFirstHit(s, relevant, v.value, 0);
      var (t, found) := Search(s, relevant, v.value, 0);
      if found.Some? {
        assert GetSvgText(t, relevant[found.value]) == t;
      }
    }
  }

  /** A block that is skipped or fails leaves the text of every markup file
      as it was. */
  lemma BlockKeepsTexts(s: State, b: Block, relevant: seq<string>,
                        mapping: map<string, string>, prefix: string, svgFiles: seq<string>)
    requires Consistent(s, svgFiles)
    requires forall f | f in relevant :: f in s.disk
    ensures var r := BlockOutcome(s, b, relevant, mapping, prefix);
      !r.ok || Skipped(b.svgGroupId) ==> forall g | g in s.disk :: TextOf(r.state, g) == TextOf(s, g)
  {
    var v := b.svgGroupId;
    if !Skipped(v) {
      SearchKeepsConsistent(s, relevant, v.value, 0, svgFiles);
      SearchKeepsCache(s, relevant, v.value, 0, svgFiles);
      var (t, found) := Search(s, relevant, v.value, 0);
      GrownCacheKeepsTexts(s, t);
      if found.Some? {
        FoundFailKeepsState(t, b, relevant[found.value], v.value, mapping, prefix);
      }
    }
  }

  /** Once the file is found, a block that fails leaves the state as it was. */
  lemma FoundFailKeepsState(t: State, b: Block, file: string, id: string,
                            mapping: map<string, string>, prefix: string)
    requires file in t.disk && file in t.loaded
    requires forall f | f in t.loaded :: f in t.cache
    ensures var r := FoundOutcome(t, b, file, id, mapping, prefix); !r.ok ==> r.state == t
  {
    assert GetSvgText(t, file) == t;
  }

  /** Once the file is found, the rest of the block changes the text of no
      other file. */
  lemma FoundKeepsOtherTexts(t: State, b: Block, file: string, id: string,
                             mapping: map<string, string>, prefix: string)
    requires file in t.disk && file in t.loaded
    requires forall f | f in t.loaded :: f in t.cache
    ensures var r := FoundOutcome(t, b, file, id, mapping, prefix);
      forall g | g in t.disk && g != file :: TextOf(r.state, g) == TextOf(t, g)
  {
    assert GetSvgText(t, file) == t;
    if TotalMatches(t.cache[file], id) <= 1 {
      var r := FoundOutcome(t, b, file, id, mapping, prefix);
      SetTextKeepsOtherTexts(t, file, r.state.cache[file]);
      assert r.state == SetText(t, file, r.state.cache[file]);
    }
  }

  /** A block that succeeds in the `j`-th relevant file leaves the text of
      every other markup file as it was. */
  lemma BlockKeepsOtherTexts(s: State, b: Block, relevant: seq<string>,
                             mapping: map<string, string>, prefix: string, svgFiles: seq<string>, j: nat)
    requires Consistent(s, svgFiles)
    requires forall f | f in relevant :: f in s.disk
    requires !Skipped(b.svgGroupId) && j < |relevant| && Search(s, relevant, b.svgGroupId.value, 0).1 == Some(j)
    ensures var r := BlockOutcome(s, b, relevant, mapping, prefix);
      forall g | g in s.disk && g != relevant[j] :: TextOf(r.state, g) == TextOf(s, g)
  {
    var id := b.svgGroupId.value;
    SearchKeepsConsistent(s, relevant, id, 0, svgFiles);
    SearchKeepsCache(s, relevant, id, 0, svgFiles);
    var t := Search(s, relevant, id, 0).0;
    GrownCacheKeepsTexts(s, t);
    assert BlockOutcome(s, b, relevant, mapping, prefix) == FoundOutcome(t, b, relevant[j], id, mapping, prefix);
    FoundKeepsOtherTexts(t, b, relevant[j], id, mapping, prefix);
  }

  /** When it succeeds, the block and the tag in that file get the id's
      label: the one the mapping already holds, else the next number. */
  lemma BlockRenamesHit(s: State, b: Block, relevant: seq<string>,
                        mapping: map<string, string>, prefix: string, svgFiles: seq<string>, j: nat)
    requires Consistent(s, svgFiles)
    requires forall f | f in relevant :: f in s.disk
    requires && !Skipped(b.svgGroupId) && j < |relevant| && FirstHit(s, relevant, b.svgGroupId.value, 0, j)
             && TotalMatches(TextOf(s, relevant[j]), b.svgGroupId.value) <= 1
    ensures var r := BlockOutcome(s, b, relevant, mapping, prefix);
      var id := b.svgGroupId.value;
      var newId := if id in mapping then mapping[id] else Label(prefix, |mapping| + 1);
      && r.ok
      && r.mapping == mapping[id := newId]
      && r.block == Block(Some(newId))
      && relevant[j] in r.state.cache
      && r.state.cache[relevant[j]] == RewriteAll(TextOf(s, relevant[j]), id, newId)
      && forall g | g in s.disk && g != relevant[j] :: TextOf(r.state, g) == TextOf(s, g)
  {
    var id := b.svgGroupId.value;
    SearchIsFirstHit(s, relevant, id, 0);
    var (t, found) := Search(s, relevant, id, 0);
    var file := relevant[j];
    assert found == Some(j);
    BlockKeepsOtherTexts(s, b, relevant, mapping, prefix, svgFiles, j);
    assert GetSvgText(t, file) == t;
    FoundRenames(t, b, file, id, mapping, prefix);
  }
}
