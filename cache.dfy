/** The markup loader of unify_tkk_ids/unify_tkk_ids.py (:132-151) with its two
    caches, the save loop that writes them back (:231-235, :275-277) and the
    search loop of `process_block_comment` (:177-182). */
module Caches {
  import opened Wrappers
  import opened TagRewrite

  /** The dictionaries a run changes: the markup folder (file name to text),
      the names held by the transient cache `loaded_svg_texts`, the texts of
      `final_svg_cache` with its insertion order. The transient cache holds the very objects of the final cache, so its texts
      are those of `cache`. */
  datatype State = State(
    disk: map<string, string>,
    loaded: set<string>,
    cache: map<string, string>,
    order: seq<string>)

  /** Every loaded file is cached, and every cached file that is not loaded
      holds the folder's text. */
  ghost predicate Saved(s: State) {
    && (forall f | f in s.loaded :: f in s.cache)
    && (forall f | f in s.cache && f !in s.loaded :: f in s.disk && s.disk[f] == s.cache[f])
  }

  /** The invariant of a run: besides `Saved`, every cached file is in the
      folder, the cache order lists each cached file once, and the markup
      files are in the folder. */
  ghost predicate Consistent(s: State, svgFiles: seq<string>) {
    && Saved(s)
    && (forall f | f in s.cache :: f in s.disk)
    && (forall f | f in svgFiles :: f in s.disk)
    && (forall f :: f in s.order <==> f in s.cache)
    && (forall i, j | 0 <= i < j < |s.order| :: s.order[i] != s.order[j])
  }

  /** `get_svg_text`: on first use since the last save the file is read from
      the folder into a new object that both caches then hold; a file that
      was cached before keeps its place in the cache order. */
  function GetSvgText(s: State, f: string): (t: State)
    requires f in s.disk
    ensures t.disk == s.disk
    ensures t.loaded == s.loaded + {f}
    ensures (forall g | g in s.loaded :: g in s.cache) ==> forall g | g in t.loaded :: g in t.cache
  {
    if f in s.loaded then s
    else
      s.(loaded := s.loaded + {f},
         cache := s.cache[f := s.disk[f]],
         order := if f in s.cache then s.order else s.order + [f])
  }

  /** Loading keeps the run consistent, and never changes a cached text: a
      re-read finds what the last save wrote. A file new to the cache holds
      its text from the folder and goes to the end of the cache order. */
  lemma GetSvgTextKeepsCache(s: State, f: string, svgFiles: seq<string>)
    requires Consistent(s, svgFiles) && f in s.disk
    ensures Consistent(GetSvgText(s, f), svgFiles)
    ensures GetSvgText(s, f).cache == if f in s.cache then s.cache else s.cache[f := s.disk[f]]
    ensures GetSvgText(s, f).order == if f in s.cache then s.order else s.order + [f]
  {
    var t := GetSvgText(s, f);
    if f !in s.loaded && f in s.cache {
      assert s.disk[f] == s.cache[f];
      assert t.cache == s.cache;
    }
  }

  /** `svg_data['text'] = ...` on a loaded file: the object both caches
      hold gets the new text. */
  function SetText(s: State, f: string, text: string): (t: State)
    requires f in s.loaded
    ensures t.disk == s.disk && t.loaded == s.loaded && t.order == s.order
    ensures t.cache.Keys == s.cache.Keys + {f}
  {
    s.(cache := s.cache[f := text])
  }

  /** Changing a loaded file's text keeps the run consistent and every
      other cached text. */
  lemma SetTextKeepsCache(s: State, f: string, text: string, svgFiles: seq<string>)
    requires Consistent(s, svgFiles) && f in s.loaded
    ensures Consistent(SetText(s, f, text), svgFiles)
    ensures f in s.cache && SetText(s, f, text).cache.Keys == s.cache.Keys
    ensures forall g | g in s.cache && g != f :: SetText(s, f, text).cache[g] == s.cache[g]
  {
  }

  /** Changing a loaded file's text changes the text of no other file. */
  lemma SetTextKeepsOtherTexts(s: State, f: string, text: string)
    requires f in s.loaded
    ensures forall g | g in s.disk && g != f :: TextOf(SetText(s, f, text), g) == TextOf(s, g)
  {
  }

  /** The text a load gives: the cached one, else the folder's. */
  function TextOf(s: State, f: string): string
    requires f in s.disk
  {
    if f in s.cache then s.cache[f] else s.disk[f]
  }

  /** The folder after the save loop: every loaded file holds its cached text. */
  function SaveAll(s: State): (t: State)
    requires forall f | f in s.loaded :: f in s.cache
    ensures t.loaded == s.loaded && t.cache == s.cache && t.order == s.order
    ensures s.disk.Keys <= t.disk.Keys
  {
    s.(disk := map f | f in s.disk.Keys + s.loaded :: if f in s.loaded then s.cache[f] else s.disk[f])
  }

  /** After the save the folder agrees with the final cache on every cached
      file, and files that were not loaded are left as they were. */
  lemma SaveAllWritesBack(s: State, svgFiles: seq<string>)
    requires Consistent(s, svgFiles)
    ensures Consistent(SaveAll(s), svgFiles)
    ensures SaveAll(s).disk.Keys == s.disk.Keys
    ensures forall f | f in s.cache :: SaveAll(s).disk[f] == s.cache[f]
    ensures forall f | f in s.disk && f !in s.loaded :: SaveAll(s).disk[f] == s.disk[f]
  {
  }

  /** The save loop: each loaded file is written back, one at a time. */
  method SaveLoaded(s: State) returns (t: State)
    requires forall f | f in s.loaded :: f in s.cache
    ensures t == SaveAll(s)
  {
    var written := s.disk;
    var pending := s.loaded;
    while pending != {}
      invariant pending <= s.loaded
      invariant written.Keys == s.disk.Keys + (s.loaded - pending)
      invariant forall f | f in written ::
        written[f] == if f in s.loaded && f !in pending then s.cache[f] else s.disk[f]
      decreases pending
    {
      var f :| f in pending;
      written := written[f := s.cache[f]];
      pending := pending - {f};
    }
    t := s.(disk := written);
  }

  /** The search of `process_block_comment` from the `i`-th relevant file on:
      each file is loaded, and the first whose text the search pattern
      matches is returned with the state after the loads. */
  function Search(s: State, relevant: seq<string>, v: string, i: nat): (r: (State, Option<nat>))
    requires i <= |relevant| && forall f | f in relevant :: f in s.disk
    requires forall f | f in s.loaded :: f in s.cache
    ensures r.0.disk == s.disk
    ensures forall f | f in r.0.loaded :: f in r.0.cache
    ensures r.1.Some? ==> i <= r.1.value < |relevant|
    decreases |relevant| - i
  {
    if i == |relevant| then (s, None)
    else
      var t := GetSvgText(s, relevant[i]);
      if SearchFinds(t.cache[relevant[i]], v) then (t, Some(i))
      else Search(t, relevant, v, i + 1)
  }

  /** The cache after some loads: every cached text is kept and every newly
      cached file holds its text from the folder. */
  ghost predicate CacheGrows(before: map<string, string>, after: map<string, string>, disk: map<string, string>) {
    && (forall f | f in before :: f in after && after[f] == before[f])
    && (forall f | f in after && f !in before :: f in disk && after[f] == disk[f])
  }

  lemma CacheGrowsTransitive(a: map<string, string>, b: map<string, string>, c: map<string, string>, disk: map<string, string>)
    requires CacheGrows(a, b, disk) && CacheGrows(b, c, disk)
    ensures CacheGrows(a, c, disk)
  {
  }

  /** A cache that only grew from the folder gives every file the text it had. */
  lemma GrownCacheKeepsTexts(s: State, t: State)
    requires t.disk == s.disk && CacheGrows(s.cache, t.cache, s.disk)
    ensures forall g | g in s.disk :: TextOf(t, g) == TextOf(s, g)
  {
  }

  /** The search keeps the run consistent, and a hit is loaded. */
  lemma {:induction false} SearchKeepsConsistent(s: State, relevant: seq<string>, v: string, i: nat, svgFiles: seq<string>)
    requires Consistent(s, svgFiles)
    requires i <= |relevant| && forall f | f in relevant :: f in s.disk
    ensures var r := Search(s, relevant, v, i);
      && Consistent(r.0, svgFiles)
      && (r.1.Some? ==> relevant[r.1.value] in r.0.loaded)
    decreases |relevant| - i
  {
    if i < |relevant| {
      var t := GetSvgText(s, relevant[i]);
      GetSvgTextKeepsCache(s, relevant[i], svgFiles);
      if !SearchFinds(t.cache[relevant[i]], v) {
        assert Search(s, relevant, v, i) == Search(t, relevant, v, i + 1);
        SearchKeepsConsistent(t, relevant, v, i + 1, svgFiles);
      }
    }
  }

  /** The search keeps every cached text and loads only relevant files. */
  lemma {:induction false} SearchKeepsCache(s: State, relevant: seq<string>, v: string, i: nat, svgFiles: seq<string>)
    requires Consistent(s, svgFiles)
    requires i <= |relevant| && forall f | f in relevant :: f in s.disk
    ensures var r := Search(s, relevant, v, i);
      && CacheGrows(s.cache, r.0.cache, s.disk)
      && s.loaded <= r.0.loaded && (forall f | f in r.0.loaded && f !in s.loaded :: f in relevant[i..])
    decreases |relevant| - i
  {
    if i < |relevant| {
      var t := GetSvgText(s, relevant[i]);
      GetSvgTextKeepsCache(s, relevant[i], svgFiles);
      if !SearchFinds(t.cache[relevant[i]], v) {
        assert Search(s, relevant, v, i) == Search(t, relevant, v, i + 1);
        SearchKeepsCache(t, relevant, v, i + 1, svgFiles);
        CacheGrowsTransitive(s.cache, t.cache, Search(t, relevant, v, i + 1).0.cache, s.disk);
        assert forall f | f in relevant[i + 1..] :: f in relevant[i..];
      }
    }
  }

  /** The search loop of `process_block_comment`, leaving at the first hit. */
  method FindSvgWithId(s: State, relevant: seq<string>, v: string) returns (t: State, found: Option<nat>)
    requires forall f | f in relevant :: f in s.disk
    requires forall f | f in s.loaded :: f in s.cache
    ensures (t, found) == Search(s, relevant, v, 0)
  {
    t := s;
    var i := 0;
    while i < |relevant|
      invariant 0 <= i <= |relevant|
      invariant t.disk == s.disk
      invariant forall f | f in t.loaded :: f in t.cache
      invariant Search(t, relevant, v, i) == Search(s, relevant, v, 0)
    {
      t := GetSvgText(t, relevant[i]);
      if SearchFinds(t.cache[relevant[i]], v) {
        return t, Some(i);
      }
      i := i + 1;
    }
    found := None;
  }

  /** From the `i`-th relevant file on, `relevant[j]` is the first whose
      text the search pattern matches. */
  predicate FirstHit(s: State, relevant: seq<string>, v: string, i: nat, j: nat)
    requires i <= j < |relevant| && forall f | f in relevant :: f in s.disk
  {
    && SearchFinds(TextOf(s, relevant[j]), v)
    && forall h | i <= h < j :: !SearchFinds(TextOf(s, relevant[h]), v)
  }

  /** A load changes no file's text. */
  lemma GetSvgTextKeepsTexts(s: State, f: string)
    requires Saved(s) && f in s.disk
    ensures Saved(GetSvgText(s, f))
    ensures forall g | g in s.disk :: TextOf(GetSvgText(s, f), g) == TextOf(s, g)
    ensures f in GetSvgText(s, f).cache && GetSvgText(s, f).cache[f] == TextOf(s, f)
  {
  }

  /** Past a file that does not match, the first hit is the first hit of
      the rest. */
  lemma FirstHitAfterMiss(s: State, t: State, relevant: seq<string>, v: string, i: nat)
    requires i < |relevant| && forall f | f in relevant :: f in s.disk
    requires t.disk == s.disk && forall g | g in s.disk :: TextOf(t, g) == TextOf(s, g)
    requires !SearchFinds(TextOf(s, relevant[i]), v)
    ensures !FirstHit(s, relevant, v, i, i)
    ensures forall j | i < j < |relevant| :: FirstHit(s, relevant, v, i, j) <==> FirstHit(t, relevant, v, i + 1, j)
  {
    forall j | i < j < |relevant|
      ensures FirstHit(s, relevant, v, i, j) <==> FirstHit(t, relevant, v, i + 1, j)
    {
      assert TextOf(t, relevant[j]) == TextOf(s, relevant[j]);
      if FirstHit(t, relevant, v, i + 1, j) {
        forall h | i <= h < j ensures !SearchFinds(TextOf(s, relevant[h]), v) {
          if h > i {
            assert TextOf(t, relevant[h]) == TextOf(s, relevant[h]);
          }
        }
      }
      if FirstHit(s, relevant, v, i, j) {
        forall h | i + 1 <= h < j ensures !SearchFinds(TextOf(t, relevant[h]), v) {
          assert TextOf(t, relevant[h]) == TextOf(s, relevant[h]);
        }
      }
    }
  }

  /** The search returns the first hit, if there is one, loaded with the
      text a load gives. */
  lemma {:induction false} SearchIsFirstHit(s: State, relevant: seq<string>, v: string, i: nat)
    requires Saved(s)
    requires i <= |relevant| && forall f | f in relevant :: f in s.disk
    ensures var (t, found) := Search(s, relevant, v, i);
      && (found.Some? ==> relevant[found.value] in t.loaded && t.cache[relevant[found.value]] == TextOf(s, relevant[found.value]))
      && (forall j | i <= j < |relevant| :: FirstHit(s, relevant, v, i, j) <==> found == Some(j))
    decreases |relevant| - i
  {
    if i < |relevant| {
      var t := GetSvgText(s, relevant[i]);
      GetSvgTextKeepsTexts(s, relevant[i]);
      if !SearchFinds(TextOf(s, relevant[i]), v) {
        SearchIsFirstHit(t, relevant, v, i + 1);
        FirstHitAfterMiss(s, t, relevant, v, i);
        var found := Search(t, relevant, v, i + 1).1;
        if found.Some? {
          assert TextOf(t, relevant[found.value]) == TextOf(s, relevant[found.value]);
        }
      }
    }
  }

  /** From `s` to `t` files were only loaded from `relevant`, and every
      cached text was kept unless its file is still loaded. */
  ghost predicate LoadsFrom(s: State, t: State, relevant: seq<string>) {
    && s.loaded <= t.loaded
    && (forall f | f in t.loaded && f !in s.loaded :: f in relevant)
    && (forall f | f in s.cache :: f in t.cache)
    && (forall f | f in s.cache && f !in t.loaded :: t.cache[f] == s.cache[f])
  }

  lemma LoadsFromTransitive(s: State, t: State, u: State, relevant: seq<string>)
    requires LoadsFrom(s, t, relevant) && LoadsFrom(t, u, relevant)
    ensures LoadsFrom(s, u, relevant)
  {
  }
}
