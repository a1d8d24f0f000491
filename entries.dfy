/** `process_entry` of unify_tkk_ids/unify_tkk_ids.py (:210-258): the flush of
    the transient cache when an entry has an id, the entry's relevant markup
    files, and the two loops over its comment groups and their block
    comments. Groups and blocks are values that the loops give back changed;
    `id_mapping` starts empty for every entry. */
module Entries {
  import opened Wrappers
  import opened Document
  import opened Extraction
  import opened Relevance
  import opened Numbering
  import opened Caches
  import opened Blocks

  /** The blocks of a comment group from the `k`-th on, processed in order,
      each changed in place. */
  function GroupOutcome(s: State, blocks: seq<Block>, k: nat, relevant: seq<string>,
                        mapping: map<string, string>, prefix: string): (r: (State, seq<Block>, map<string, string>))
    requires k <= |blocks|
    requires forall f | f in relevant :: f in s.disk
    requires forall f | f in s.loaded :: f in s.cache
    ensures r.0.disk == s.disk
    ensures forall f | f in r.0.loaded :: f in r.0.cache
    ensures |r.1| == |blocks|
    decreases |blocks| - k
  {
    if k == |blocks| then (s, blocks, mapping)
    else
      var b := BlockOutcome(s, blocks[k], relevant, mapping, prefix);
      GroupOutcome(b.state, blocks[k := b.block], k + 1, relevant, b.mapping, prefix)
  }

  /** The inner loop of `process_entry`: every block comment of a group. */
  method ProcessGroup(s: State, blocks: seq<Block>, relevant: seq<string>,
                      mapping: map<string, string>, prefix: string)
    returns (t: State, out: seq<Block>, mapping': map<string, string>)
    requires forall f | f in relevant :: f in s.disk
    requires forall f | f in s.loaded :: f in s.cache
    ensures (t, out, mapping') == GroupOutcome(s, blocks, 0, relevant, mapping, prefix)
  {
    t, out, mapping' := s, blocks, mapping;
    var k := 0;
    while k < |out|
      invariant 0 <= k <= |out| == |blocks|
      invariant t.disk == s.disk && forall f | f in t.loaded :: f in t.cache
      invariant GroupOutcome(t, out, k, relevant, mapping', prefix) == GroupOutcome(s, blocks, 0, relevant, mapping, prefix)
    {
      var b, ok;
      t, b, mapping', ok := ProcessBlock(t, out[k], relevant, mapping', prefix);
      out := out[k := b];
      k := k + 1;
    }
  }

  /** A group keeps the run consistent and loads only relevant files; with
      no relevant files it changes nothing. */
  lemma {:induction false} GroupKeepsConsistent(s: State, blocks: seq<Block>, k: nat, relevant: seq<string>,
                                                mapping: map<string, string>, prefix: string,
                                                svgFiles: seq<string>)
    requires Consistent(s, svgFiles)
    requires k <= |blocks| && forall f | f in relevant :: f in s.disk
    ensures var (t, out, m) := GroupOutcome(s, blocks, k, relevant, mapping, prefix);
      && Consistent(t, svgFiles)
      && LoadsFrom(s, t, relevant)
      && (relevant == [] ==> t == s && out == blocks && m == mapping)
    decreases |blocks| - k
  {
    if k < |blocks| {
      var b := BlockOutcome(s, blocks[k], relevant, mapping, prefix);
      BlockKeepsConsistent(s, blocks[k], relevant, mapping, prefix, svgFiles);
      var blocks' := blocks[k := b.block];
      GroupKeepsConsistent(b.state, blocks', k + 1, relevant, b.mapping, prefix, svgFiles);
      LoadsFromTransitive(s, b.state, GroupOutcome(b.state, blocks', k + 1, relevant, b.mapping, prefix).0, relevant);
      if relevant == [] {
        assert blocks' == blocks;
      }
    }
  }

  /** The blocks before the `k`-th are untouched, every later one is
      unchanged or renamed by `mapping`. */
  predicate BlocksRenamed(before: seq<Block>, after: seq<Block>, mapping: map<string, string>, k: nat) {
    && |after| == |before|
    && (forall j | 0 <= j < k && j < |before| :: after[j] == before[j])
    && (forall j | k <= j < |before| :: Renamed(before[j], after[j], mapping))
  }

  lemma BlocksRenamedStep(before: seq<Block>, after: seq<Block>, k: nat, b: Block,
                          m1: map<string, string>, m: map<string, string>)
    requires k < |before| && Renamed(before[k], b, m1) && MapExtends(m1, m)
    requires BlocksRenamed(before[k := b], after, m, k + 1)
    ensures BlocksRenamed(before, after, m, k)
  {
    RenamedGrows(before[k], b, m1, m);
  }

  /** A group keeps the entry's numbering. */
  lemma {:induction false} GroupNumbers(s: State, blocks: seq<Block>, k: nat, relevant: seq<string>,
                                        mapping: map<string, string>, mapped: seq<string>, prefix: string)
    returns (mapped': seq<string>)
    requires Numbered(mapping, mapped, prefix)
    requires k <= |blocks| && forall f | f in relevant :: f in s.disk
    requires forall f | f in s.loaded :: f in s.cache
    ensures Numbered(GroupOutcome(s, blocks, k, relevant, mapping, prefix).2, mapped', prefix)
    decreases |blocks| - k
  {
    mapped' := mapped;
    if k < |blocks| {
      var b := BlockOutcome(s, blocks[k], relevant, mapping, prefix);
      var mapped1 := BlockNumbers(s, blocks[k], relevant, mapping, mapped, prefix);
      mapped' := GroupNumbers(b.state, blocks[k := b.block], k + 1, relevant, b.mapping, mapped1, prefix);
    }
  }

  /** A group keeps every id the mapping held; the blocks before the `k`-th
      are untouched and every later one is unchanged or renamed by the
      final mapping. */
  lemma {:induction false} GroupRenames(s: State, blocks: seq<Block>, k: nat, relevant: seq<string>,
                                        mapping: map<string, string>, prefix: string)
    requires k <= |blocks| && forall f | f in relevant :: f in s.disk
    requires forall f | f in s.loaded :: f in s.cache
    ensures var r := GroupOutcome(s, blocks, k, relevant, mapping, prefix);
      MapExtends(mapping, r.2) && BlocksRenamed(blocks, r.1, r.2, k)
    decreases |blocks| - k
  {
    if k < |blocks| {
      var b := BlockOutcome(s, blocks[k], relevant, mapping, prefix);
      BlockRenames(s, blocks[k], relevant, mapping, prefix);
      var blocks' := blocks[k := b.block];
      GroupRenames(b.state, blocks', k + 1, relevant, b.mapping, prefix);
      var r := GroupOutcome(b.state, blocks', k + 1, relevant, b.mapping, prefix);
      assert GroupOutcome(s, blocks, k, relevant, mapping, prefix) == r;
      BlocksRenamedStep(blocks, r.1, k, b.block, b.mapping, r.2);
      MapExtendsTransitive(mapping, b.mapping, r.2);
    }
  }

  /** Some block from the `k`-th on held `id` and now carries `newId`. */
  ghost predicate BlockWitness(before: seq<Block>, after: seq<Block>, id: string, newId: string, k: nat) {
    exists j | k <= j < |before| && j < |after| :: before[j].svgGroupId == Some(id) && after[j] == Block(Some(newId))
  }

  /** Every id a group adds to the mapping is the old id of one of its blocks
      from the `k`-th on, and that block now carries the id's label. */
  lemma {:induction false} GroupWitnesses(s: State, blocks: seq<Block>, k: nat, relevant: seq<string>,
                                          mapping: map<string, string>, prefix: string)
    requires k <= |blocks| && forall f | f in relevant :: f in s.disk
    requires forall f | f in s.loaded :: f in s.cache
    ensures var r := GroupOutcome(s, blocks, k, relevant, mapping, prefix);
      forall id | id in r.2 && id !in mapping :: BlockWitness(blocks, r.1, id, r.2[id], k)
    decreases |blocks| - k
  {
    if k < |blocks| {
      var b := BlockOutcome(s, blocks[k], relevant, mapping, prefix);
      BlockNewKey(s, blocks[k], relevant, mapping, prefix);
      var blocks' := blocks[k := b.block];
      GroupWitnesses(b.state, blocks', k + 1, relevant, b.mapping, prefix);
      GroupRenames(b.state, blocks', k + 1, relevant, b.mapping, prefix);
      var r := GroupOutcome(b.state, blocks', k + 1, relevant, b.mapping, prefix);
      assert GroupOutcome(s, blocks, k, relevant, mapping, prefix) == r;
      forall id | id in r.2 && id !in mapping ensures BlockWitness(blocks, r.1, id, r.2[id], k) {
        if id in b.mapping {
          assert r.1[k] == blocks'[k];
          assert blocks[k].svgGroupId == Some(id) && r.1[k] == Block(Some(r.2[id]));
        } else {
          var j :| k + 1 <= j < |blocks'| && j < |r.1| && blocks'[j].svgGroupId == Some(id) && r.1[j] == Block(Some(r.2[id]));
          assert blocks[j] == blocks'[j];
        }
      }
    }
  }

  /** The comment groups from the `h`-th on, processed in order, each changed
      in place. */
  function CommentsOutcome(s: State, groups: seq<seq<Block>>, h: nat, relevant: seq<string>,
                           mapping: map<string, string>, prefix: string): (r: (State, seq<seq<Block>>, map<string, string>))
    requires h <= |groups|
    requires forall f | f in relevant :: f in s.disk
    requires forall f | f in s.loaded :: f in s.cache
    ensures r.0.disk == s.disk
    ensures forall f | f in r.0.loaded :: f in r.0.cache
    ensures |r.1| == |groups|
    decreases |groups| - h
  {
    if h == |groups| then (s, groups, mapping)
    else
      var (t, out, m) := GroupOutcome(s, groups[h], 0, relevant, mapping, prefix);
      CommentsOutcome(t, groups[h := out], h + 1, relevant, m, prefix)
  }

  /** The groups keep the run consistent and load only relevant files; with
      no relevant files they change nothing. */
  lemma {:induction false} CommentsKeepConsistent(s: State, groups: seq<seq<Block>>, h: nat, relevant: seq<string>,
                                                  mapping: map<string, string>, prefix: string,
                                                  svgFiles: seq<string>)
    requires Consistent(s, svgFiles)
    requires h <= |groups| && forall f | f in relevant :: f in s.disk
    ensures var (t, out, m) := CommentsOutcome(s, groups, h, relevant, mapping, prefix);
      && Consistent(t, svgFiles)
      && LoadsFrom(s, t, relevant)
      && (relevant == [] ==> t == s && out == groups && m == mapping)
    decreases |groups| - h
  {
    if h < |groups| {
      var (t, out, m) := GroupOutcome(s, groups[h], 0, relevant, mapping, prefix);
      GroupKeepsConsistent(s, groups[h], 0, relevant, mapping, prefix, svgFiles);
      var groups' := groups[h := out];
      CommentsKeepConsistent(t, groups', h + 1, relevant, m, prefix, svgFiles);
      LoadsFromTransitive(s, t, CommentsOutcome(t, groups', h + 1, relevant, m, prefix).0, relevant);
      if relevant == [] {
        assert groups' == groups;
      }
    }
  }

  /** The groups before the `h`-th are untouched, the blocks of every later
      one are unchanged or renamed by `mapping`. */
  predicate GroupsRenamed(before: seq<seq<Block>>, after: seq<seq<Block>>, mapping: map<string, string>, h: nat) {
    && |after| == |before|
    && (forall i | 0 <= i < h && i < |before| :: after[i] == before[i])
    && (forall i | h <= i < |before| :: BlocksRenamed(before[i], after[i], mapping, 0))
  }

  lemma BlocksRenamedGrows(before: seq<Block>, after: seq<Block>, a: map<string, string>, b: map<string, string>)
    requires BlocksRenamed(before, after, a, 0) && MapExtends(a, b)
    ensures BlocksRenamed(before, after, b, 0)
  {
    forall j | 0 <= j < |before| ensures Renamed(before[j], after[j], b) {
      RenamedGrows(before[j], after[j], a, b);
    }
  }

  lemma GroupsRenamedStep(before: seq<seq<Block>>, after: seq<seq<Block>>, h: nat, g: seq<Block>,
                          m1: map<string, string>, m: map<string, string>)
    requires h < |before| && BlocksRenamed(before[h], g, m1, 0) && MapExtends(m1, m)
    requires GroupsRenamed(before[h := g], after, m, h + 1)
    ensures GroupsRenamed(before, after, m, h)
  {
    BlocksRenamedGrows(before[h], g, m1, m);
  }

  /** The groups keep the entry's numbering. */
  lemma {:induction false} CommentsNumbers(s: State, groups: seq<seq<Block>>, h: nat, relevant: seq<string>,
                                           mapping: map<string, string>, mapped: seq<string>, prefix: string)
    returns (mapped': seq<string>)
    requires Numbered(mapping, mapped, prefix)
    requires h <= |groups| && forall f | f in relevant :: f in s.disk
    requires forall f | f in s.loaded :: f in s.cache
    ensures Numbered(CommentsOutcome(s, groups, h, relevant, mapping, prefix).2, mapped', prefix)
    decreases |groups| - h
  {
    mapped' := mapped;
    if h < |groups| {
      var g := GroupOutcome(s, groups[h], 0, relevant, mapping, prefix);
      var mapped1 := GroupNumbers(s, groups[h], 0, relevant, mapping, mapped, prefix);
      mapped' := CommentsNumbers(g.0, groups[h := g.1], h + 1, relevant, g.2, mapped1, prefix);
    }
  }

  /** The groups keep every id the mapping held; the groups before the
      `h`-th are untouched and every block of a later one is unchanged or
      renamed by the final mapping. */
  lemma {:induction false} CommentsRename(s: State, groups: seq<seq<Block>>, h: nat, relevant: seq<string>,
                                          mapping: map<string, string>, prefix: string)
    requires h <= |groups| && forall f | f in relevant :: f in s.disk
    requires forall f | f in s.loaded :: f in s.cache
    ensures var r := CommentsOutcome(s, groups, h, relevant, mapping, prefix);
      MapExtends(mapping, r.2) && GroupsRenamed(groups, r.1, r.2, h)
    decreases |groups| - h
  {
    if h < |groups| {
      var g := GroupOutcome(s, groups[h], 0, relevant, mapping, prefix);
      GroupRenames(s, groups[h], 0, relevant, mapping, prefix);
      var groups' := groups[h := g.1];
      CommentsRename(g.0, groups', h + 1, relevant, g.2, prefix);
      var r := CommentsOutcome(g.0, groups', h + 1, relevant, g.2, prefix);
      assert CommentsOutcome(s, groups, h, relevant, mapping, prefix) == r;
      GroupsRenamedStep(groups, r.1, h, g.1, g.2, r.2);
      MapExtendsTransitive(mapping, g.2, r.2);
    }
  }

  /** Some block of a group from the `h`-th on held `id` and now carries `newId`. */
  ghost predicate GroupWitness(before: seq<seq<Block>>, after: seq<seq<Block>>, id: string, newId: string, h: nat) {
    exists g | h <= g < |before| && g < |after| :: BlockWitness(before[g], after[g], id, newId, 0)
  }

  /** Every id the groups add to the mapping is the old id of one of their
      blocks, and that block now carries the id's label. */
  lemma {:induction false} CommentsWitnesses(s: State, groups: seq<seq<Block>>, h: nat, relevant: seq<string>,
                                             mapping: map<string, string>, prefix: string)
    requires h <= |groups| && forall f | f in relevant :: f in s.disk
    requires forall f | f in s.loaded :: f in s.cache
    ensures var r := CommentsOutcome(s, groups, h, relevant, mapping, prefix);
      forall id | id in r.2 && id !in mapping :: GroupWitness(groups, r.1, id, r.2[id], h)
    decreases |groups| - h
  {
    if h < |groups| {
      var g := GroupOutcome(s, groups[h], 0, relevant, mapping, prefix);
      GroupWitnesses(s, groups[h], 0, relevant, mapping, prefix);
      var groups' := groups[h := g.1];
      CommentsWitnesses(g.0, groups', h + 1, relevant, g.2, prefix);
      CommentsRename(g.0, groups', h + 1, relevant, g.2, prefix);
      var r := CommentsOutcome(g.0, groups', h + 1, relevant, g.2, prefix);
      assert CommentsOutcome(s, groups, h, relevant, mapping, prefix) == r;
      assert r.1[h] == g.1;
      forall id | id in r.2 && id !in mapping ensures GroupWitness(groups, r.1, id, r.2[id], h) {
        WitnessStep(groups, g.1, r.1, h, id, g.2, r.2);
      }
    }
  }

  /** A witness in the `h`-th group, or in a later one that the step left
      alone, is a witness from the `h`-th group on. */
  lemma WitnessStep(groups: seq<seq<Block>>, group: seq<Block>, after: seq<seq<Block>>, h: nat, id: string,
                    m: map<string, string>, m': map<string, string>)
    requires h < |groups| && h < |after| && after[h] == group
    requires id in m' && MapExtends(m, m')
    requires id in m ==> BlockWitness(groups[h], group, id, m[id], 0)
    requires id !in m ==> GroupWitness(groups[h := group], after, id, m'[id], h + 1)
    ensures GroupWitness(groups, after, id, m'[id], h)
  {
    if id !in m {
      var i :| h + 1 <= i < |groups| && i < |after| && BlockWitness(groups[h := group][i], after[i], id, m'[id], 0);
      assert groups[h := group][i] == groups[i];
    }
  }

  /** The files an entry with id `v` searches: none without an id, else
      those `get_relevant_svgs` picks by the id's catalogue number. */
  function RelevantFor(v: string, svgFiles: seq<string>): seq<string> {
    if v == "" then [] else RelevantSvgs(v, svgFiles, ExtractNumber(v))
  }

  /** The run before an entry's blocks: an entry with an id first writes
      back and forgets the transiently loaded files. */
  function EntryStart(s: State, v: string): (t: State)
    requires forall f | f in s.loaded :: f in s.cache
    ensures forall f | f in t.loaded :: f in t.cache
    ensures s.disk.Keys <= t.disk.Keys
  {
    if v == "" then s
    else var u := SaveAll(s); State(u.disk, {}, u.cache, u.order)
  }

  /** `process_entry`: the new state, the entry with its blocks renamed, and
      the entry's final `id_mapping`. */
  function EntryOutcome(s: State, entry: Entry, svgFiles: seq<string>, prefix: string)
    : (r: (State, Entry, map<string, string>))
    requires forall f | f in svgFiles :: f in s.disk
    requires forall f | f in s.loaded :: f in s.cache
    ensures forall f | f in r.0.loaded :: f in r.0.cache
    ensures forall f | f in svgFiles :: f in r.0.disk
    ensures r.1.Entry? == entry.Entry?
  {
    match entry
    case NotAnObject => (s, entry, map[])
    case Entry(id, comments) =>
      var v := id.GetOr("");
      var t := EntryStart(s, v);
      var (u, out, m) := CommentsOutcome(t, comments, 0, RelevantFor(v, svgFiles), map[], prefix);
      (u, Entry(id, out), m)
  }

  method ProcessEntry(s: State, entry: Entry, svgFiles: seq<string>, prefix: string)
    returns (t: State, entry': Entry, mapping: map<string, string>)
    requires forall f | f in svgFiles :: f in s.disk
    requires forall f | f in s.loaded :: f in s.cache
    ensures (t, entry', mapping) == EntryOutcome(s, entry, svgFiles, prefix)
  {
    if entry.NotAnObject? {
      return s, entry, map[];
    }
    var v := entry.id.GetOr("");
    var relevant: seq<string> := [];
    t := s;
    if v != "" {
      t := SaveLoaded(s);
      t := State(t.disk, {}, t.cache, t.order);
      relevant := RelevantSvgs(v, svgFiles, ExtractNumber(v));
    }
    var groups;
    t, groups, mapping := ProcessComments(t, entry.comments, relevant, prefix);
    entry' := Entry(entry.id, groups);
  }

  /** The loop of `process_entry` over the comment groups, with a fresh
      `id_mapping`. */
  method ProcessComments(s: State, comments: seq<seq<Block>>, relevant: seq<string>, prefix: string)
    returns (t: State, groups: seq<seq<Block>>, mapping: map<string, string>)
    requires forall f | f in relevant :: f in s.disk
    requires forall f | f in s.loaded :: f in s.cache
    ensures (t, groups, mapping) == CommentsOutcome(s, comments, 0, relevant, map[], prefix)
  {
    t, groups, mapping := s, comments, map[];
    var h := 0;
    while h < |groups|
      invariant 0 <= h <= |groups| == |comments|
      invariant t.disk == s.disk && forall f | f in t.loaded :: f in t.cache
      invariant CommentsOutcome(t, groups, h, relevant, mapping, prefix)
        == CommentsOutcome(s, comments, 0, relevant, map[], prefix)
    {
      var out;
      t, out, mapping := ProcessGroup(t, groups[h], relevant, mapping, prefix);
      groups := groups[h := out];
      h := h + 1;
    }
  }

  /** Starting an entry keeps the run consistent; with an id, the folder
      receives every cached text and the transient cache is emptied. */
  lemma EntryStartKeepsConsistent(s: State, v: string, svgFiles: seq<string>)
    requires Consistent(s, svgFiles)
    ensures Consistent(EntryStart(s, v), svgFiles)
    ensures EntryStart(s, v).cache == s.cache
    ensures v == "" ==> EntryStart(s, v) == s
    ensures v != "" ==>
      && EntryStart(s, v).loaded == {}
      && EntryStart(s, v).disk.Keys == s.disk.Keys
      && (forall f | f in s.cache :: EntryStart(s, v).disk[f] == s.cache[f])
      && (forall f | f in s.disk && f !in s.loaded :: EntryStart(s, v).disk[f] == s.disk[f])
  {
    if v != "" {
      SaveAllWritesBack(s, svgFiles);
    }
  }

  /** An entry keeps the run consistent and never drops a file from the final
      cache. An entry that is not an object, or has no id, changes nothing.
      An entry with an id first writes every cached text to the folder and
      afterwards holds only its relevant files in the transient cache; the
      folder does not change while its blocks are processed. */
  lemma EntryKeepsConsistent(s: State, entry: Entry, svgFiles: seq<string>, prefix: string)
    requires Consistent(s, svgFiles)
    ensures var (t, e, m) := EntryOutcome(s, entry, svgFiles, prefix);
      && Consistent(t, svgFiles)
      && (forall f | f in s.cache :: f in t.cache)
      && (entry.NotAnObject? ==> t == s && e == entry && m == map[])
      && (entry.Entry? ==> e.Entry? && e.id == entry.id && |e.comments| == |entry.comments|)
      && (entry.Entry? && entry.id.GetOr("") == "" ==> t == s && e == entry && m == map[])
      && (entry.Entry? && entry.id.GetOr("") != "" ==>
            && t.disk.Keys == s.disk.Keys
            && (forall f | f in s.cache :: t.disk[f] == s.cache[f])
            && (forall f | f in s.disk && f !in s.loaded :: t.disk[f] == s.disk[f])
            && (forall f | f in t.loaded :: f in RelevantFor(entry.id.value, svgFiles)))
  {
    if entry.Entry? {
      var v := entry.id.GetOr("");
      var t := EntryStart(s, v);
      var relevant := RelevantFor(v, svgFiles);
      EntryStartKeepsConsistent(s, v, svgFiles);
      CommentsKeepConsistent(t, entry.comments, 0, relevant, map[], prefix, svgFiles);
    }
  }

  /** The entry's mapping numbers the old ids it renamed `prefix1` ...
      `prefixN`, one label each; every mapped id is the old id of a block of
      the entry that now carries its label, and every block of the entry is
      unchanged or carries the new id of its old one. */
  lemma EntryRenames(s: State, entry: Entry, svgFiles: seq<string>, prefix: string) returns (order: seq<string>)
    requires forall f | f in svgFiles :: f in s.disk
    requires forall f | f in s.loaded :: f in s.cache
    ensures var (t, e, m) := EntryOutcome(s, entry, svgFiles, prefix);
      && Numbered(m, order, prefix)
      && (entry.NotAnObject? ==> m == map[])
      && (entry.Entry? ==> e.Entry? && e.id == entry.id && GroupsRenamed(entry.comments, e.comments, m, 0))
      && (entry.Entry? ==> forall id | id in m :: GroupWitness(entry.comments, e.comments, id, m[id], 0))
  {
    order := [];
    if entry.Entry? {
      var v := entry.id.GetOr("");
      order := CommentsNumbers(EntryStart(s, v), entry.comments, 0, RelevantFor(v, svgFiles), map[], [], prefix);
      CommentsRename(EntryStart(s, v), entry.comments, 0, RelevantFor(v, svgFiles), map[], prefix);
      CommentsWitnesses(EntryStart(s, v), entry.comments, 0, RelevantFor(v, svgFiles), map[], prefix);
    }
  }
}
