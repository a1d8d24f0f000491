/** `process_tkk_ids` and `save_results` of unify_tkk_ids/unify_tkk_ids.py
    (:261-321): every entry of the document in order, the final write-back
    of the transient cache, and the report. The folder is a map from file
    name to text; the written document and the folder after the run are
    returned. */
module Unify {
  import opened Wrappers
  import opened Text
  import opened Document
  import opened Numbering
  import opened Caches
  import opened Blocks
  import opened Entries
  import opened Validation
  import opened Inputs

  /** The entries from the `i`-th on, processed in order, each changed in
      place. */
  function RunOutcome(s: State, entries: seq<Entry>, i: nat, svgFiles: seq<string>, prefix: string)
    : (r: (State, seq<Entry>))
    requires i <= |entries|
    requires forall f | f in svgFiles :: f in s.disk
    requires forall f | f in s.loaded :: f in s.cache
    ensures forall f | f in svgFiles :: f in r.0.disk
    ensures forall f | f in r.0.loaded :: f in r.0.cache
    ensures |r.1| == |entries|
    ensures forall j | 0 <= j < |entries| :: r.1[j].Entry? == entries[j].Entry?
    decreases |entries| - i
  {
    if i == |entries| then (s, entries)
    else
      var (t, e, _) := EntryOutcome(s, entries[i], svgFiles, prefix);
      RunOutcome(t, entries[i := e], i + 1, svgFiles, prefix)
  }

  /** The loop of `process_tkk_ids` over the entries. */
  method ProcessEntries(s: State, entries: seq<Entry>, svgFiles: seq<string>, prefix: string)
    returns (t: State, out: seq<Entry>)
    requires forall f | f in svgFiles :: f in s.disk
    requires forall f | f in s.loaded :: f in s.cache
    ensures (t, out) == RunOutcome(s, entries, 0, svgFiles, prefix)
  {
    t, out := s, entries;
    var i := 0;
    while i < |out|
      invariant 0 <= i <= |out| == |entries|
      invariant forall f | f in svgFiles :: f in t.disk
      invariant forall f | f in t.loaded :: f in t.cache
      invariant RunOutcome(t, out, i, svgFiles, prefix) == RunOutcome(s, entries, 0, svgFiles, prefix)
    {
      var e, mapping;
      t, e, mapping := ProcessEntry(t, out[i], svgFiles, prefix);
      out := out[i := e];
      i := i + 1;
    }
  }

  /** The run so far has written to the folder only files of the final
      cache. */
  ghost predicate WrittenFrom(s: State, folder: map<string, string>) {
    && s.disk.Keys == folder.Keys
    && forall f | f in folder && f !in s.cache :: s.disk[f] == folder[f]
  }

  /** The entries keep the run consistent, never drop a file from the final
      cache, and write to the folder only cached files. */
  lemma {:induction false} RunKeepsConsistent(s: State, entries: seq<Entry>, i: nat, svgFiles: seq<string>,
                                              prefix: string, folder: map<string, string>)
    requires Consistent(s, svgFiles) && WrittenFrom(s, folder)
    requires i <= |entries|
    ensures var (t, out) := RunOutcome(s, entries, i, svgFiles, prefix);
      && Consistent(t, svgFiles)
      && WrittenFrom(t, folder)
      && (forall f | f in s.cache :: f in t.cache)
    decreases |entries| - i
  {
    if i < |entries| {
      var (t, e, _) := EntryOutcome(s, entries[i], svgFiles, prefix);
      EntryKeepsConsistent(s, entries[i], svgFiles, prefix);
      RunKeepsConsistent(t, entries[i := e], i + 1, svgFiles, prefix, folder);
    }
  }

  /** An entry after the run: a value that is not an object is left alone;
      an object keeps its id, and some numbering of its distinct old ids by
      `prefix1` ... `prefixN` explains every change to its blocks. */
  ghost predicate EntryRenamed(before: Entry, after: Entry, prefix: string) {
    || (before.NotAnObject? && after == before)
    || (&& before.Entry? && after.Entry? && after.id == before.id
        && exists m, order :: Numbered(m, order, prefix) && GroupsRenamed(before.comments, after.comments, m, 0))
  }

  /** The entries before the `i`-th are untouched and every later one is
      renamed by its own numbering. */
  lemma {:induction false} RunRenames(s: State, entries: seq<Entry>, i: nat, svgFiles: seq<string>, prefix: string)
    requires i <= |entries|
    requires forall f | f in svgFiles :: f in s.disk
    requires forall f | f in s.loaded :: f in s.cache
    ensures var r := RunOutcome(s, entries, i, svgFiles, prefix);
      && (forall j | 0 <= j < i :: r.1[j] == entries[j])
      && (forall j | i <= j < |entries| :: EntryRenamed(entries[j], r.1[j], prefix))
    decreases |entries| - i
  {
    if i < |entries| {
      var x := EntryOutcome(s, entries[i], svgFiles, prefix);
      var order := EntryRenames(s, entries[i], svgFiles, prefix);
      assert EntryRenamed(entries[i], x.1, prefix);
      var rest := entries[i := x.1];
      var r := RunOutcome(x.0, rest, i + 1, svgFiles, prefix);
      assert RunOutcome(s, entries, i, svgFiles, prefix) == r;
      RunRenames(x.0, rest, i + 1, svgFiles, prefix);
      forall j | 0 <= j < i ensures r.1[j] == entries[j] {
        assert rest[j] == entries[j];
      }
      forall j | i <= j < |entries| ensures EntryRenamed(entries[j], r.1[j], prefix) {
        if j > i {
          assert rest[j] == entries[j];
        }
      }
    }
  }

  /** A block the run changed carries a new id with the prefix. */
  lemma RenamedCarriesPrefix(before: Block, after: Block, m: map<string, string>, order: seq<string>, prefix: string)
    requires Numbered(m, order, prefix) && Renamed(before, after, m) && after != before
    ensures after.svgGroupId.Some? && StartsWith(after.svgGroupId.value, prefix)
  {
    var i :| 0 <= i < |order| && order[i] == before.svgGroupId.value;
    assert after.svgGroupId.value == Label(prefix, i + 1);
  }

  /** What `process_tkk_ids` gives back: the written document, the final
      cache with its order, the success flag, the folder afterwards and the
      report. */
  datatype Outcome = Outcome(data: seq<Entry>, finalCache: map<string, string>, cacheOrder: seq<string>,
                             success: bool, disk: map<string, string>, report: Report)

  /** A run stops early when the inputs are rejected, or when the report
      meets an entry that is not an object; in the second case the markup
      has already been written back but the document has not. */
  datatype RunError = BadInput(error: InputError) | ReportRaised(disk: map<string, string>)

  function InitialState(folder: map<string, string>): State {
    State(folder, {}, map[], [])
  }

  /** Some entry of the document is not an object. */
  predicate HasNonObject(entries: seq<Entry>) {
    exists i | 0 <= i < |entries| :: entries[i].NotAnObject?
  }

  /** Every file in the cache order is cached, so the report can read it. */
  predicate OrderCached(t: State) {
    forall f | f in t.order :: f in t.cache
  }

  /** After the entries the cache order lists only cached files. */
  lemma RunOrderCached(folder: map<string, string>, entries: seq<Entry>, svgFiles: seq<string>, prefix: string)
    requires forall f | f in svgFiles :: f in folder
    ensures OrderCached(RunOutcome(InitialState(folder), entries, 0, svgFiles, prefix).0)
  {
    RunKeepsConsistent(InitialState(folder), entries, 0, svgFiles, prefix, folder);
  }

  /** `save_results` after the entries: the final write-back, then the
      report, which stops at an entry that is not an object. */
  function Finish(t: State, data: seq<Entry>, prefix: string): (r: Result<Outcome, RunError>)
    requires forall f | f in t.loaded :: f in t.cache
    requires OrderCached(t)
  {
    var saved := SaveAll(t);
    if HasNonObject(data) then Failure(ReportRaised(saved.disk))
    else
      var issues := JsonIssues(data, prefix) + SvgOrphans(t.order, t.cache, prefix);
      Success(Outcome(data, t.cache, t.order, true, saved.disk, Report(issues, |issues|, |issues| == 0)))
  }

  /** The loaded markup files are all in the folder. */
  lemma LoadedInFolder(jsonExists: bool, folderExists: bool, document: Option<seq<Entry>>, listing: Option<seq<string>>,
                       folder: map<string, string>)
    requires listing.Some? ==> forall f | f in listing.value :: f in folder
    ensures var loaded := LoadAndValidateInputs(jsonExists, folderExists, document, listing);
      loaded.Success? ==> forall f | f in loaded.value.svgFiles :: f in folder
  {
  }

  /** The run once the inputs are loaded. */
  function RunLoaded(folder: map<string, string>, loaded: Loaded, prefix: string): (r: Result<Outcome, RunError>)
    requires forall f | f in loaded.svgFiles :: f in folder
  {
    RunOrderCached(folder, loaded.entries, loaded.svgFiles, prefix);
    var r := RunOutcome(InitialState(folder), loaded.entries, 0, loaded.svgFiles, prefix);
    Finish(r.0, r.1, prefix)
  }

  /** The whole run on a folder whose listed files are all readable. */
  function Run(jsonExists: bool, folderExists: bool, document: Option<seq<Entry>>, listing: Option<seq<string>>,
               folder: map<string, string>, prefix: string): (r: Result<Outcome, RunError>)
    requires listing.Some? ==> forall f | f in listing.value :: f in folder
  {
    var loaded := LoadAndValidateInputs(jsonExists, folderExists, document, listing);
    if loaded.Failure? then Failure(BadInput(loaded.error))
    else
      LoadedInFolder(jsonExists, folderExists, document, listing, folder);
      RunLoaded(folder, loaded.value, prefix)
  }

  /** `process_tkk_ids` followed by `save_results`. */
  method ProcessTkkIds(jsonExists: bool, folderExists: bool, document: Option<seq<Entry>>, listing: Option<seq<string>>,
                       folder: map<string, string>, prefix: string) returns (r: Result<Outcome, RunError>)
    requires listing.Some? ==> forall f | f in listing.value :: f in folder
    ensures r == Run(jsonExists, folderExists, document, listing, folder, prefix)
  {
    var loaded := LoadAndValidateInputs(jsonExists, folderExists, document, listing);
    if loaded.Failure? {
      return Failure(BadInput(loaded.error));
    }
    LoadedInFolder(jsonExists, folderExists, document, listing, folder);
    var t, data := ProcessEntries(InitialState(folder), loaded.value.entries, loaded.value.svgFiles, prefix);
    RunOrderCached(folder, loaded.value.entries, loaded.value.svgFiles, prefix);
    r := SaveResults(t, data, prefix);
  }

  /** `save_results`: the save loop, then the report, then the document. */
  method SaveResults(t: State, data: seq<Entry>, prefix: string) returns (r: Result<Outcome, RunError>)
    requires forall f | f in t.loaded :: f in t.cache
    requires OrderCached(t)
    ensures r == Finish(t, data, prefix)
  {
    var saved := SaveLoaded(t);
    var report := DisplayUncertainties(data, prefix, t.order, t.cache);
    if report.None? {
      return Failure(ReportRaised(saved.disk));
    }
    r := Success(Outcome(data, t.cache, t.order, true, saved.disk, report.value));
  }

  /** The run fails on rejected inputs, with the loader's error, and
      otherwise exactly when the document holds an entry that is not an
      object; a completed run reports success and keeps every entry. */
  lemma RunStops(jsonExists: bool, folderExists: bool, document: Option<seq<Entry>>, listing: Option<seq<string>>,
                 folder: map<string, string>, prefix: string)
    requires listing.Some? ==> forall f | f in listing.value :: f in folder
    ensures var r := Run(jsonExists, folderExists, document, listing, folder, prefix);
      var loaded := LoadAndValidateInputs(jsonExists, folderExists, document, listing);
      && (r.Failure? && r.error.BadInput? <==> loaded.Failure?)
      && (loaded.Failure? ==> r == Failure(BadInput(loaded.error)))
      && (r.Failure? && r.error.ReportRaised? <==> loaded.Success? && HasNonObject(document.value))
      && (r.Success? ==> |r.value.data| == |document.value| && r.value.success)
  {
    var loaded := LoadAndValidateInputs(jsonExists, folderExists, document, listing);
    if loaded.Success? {
      LoadedInFolder(jsonExists, folderExists, document, listing, folder);
      RunOrderCached(folder, loaded.value.entries, loaded.value.svgFiles, prefix);
      var r := RunOutcome(InitialState(folder), loaded.value.entries, 0, loaded.value.svgFiles, prefix);
      SameShapes(loaded.value.entries, r.1);
      assert Run(jsonExists, folderExists, document, listing, folder, prefix) == Finish(r.0, r.1, prefix);
    }
  }

  /** Two documents whose entries are objects at the same places hold a
      non-object alike. */
  lemma SameShapes(a: seq<Entry>, b: seq<Entry>)
    requires |a| == |b| && forall j | 0 <= j < |a| :: b[j].Entry? == a[j].Entry?
    ensures HasNonObject(a) <==> HasNonObject(b)
  {
    if HasNonObject(b) {
      var i :| 0 <= i < |b| && b[i].NotAnObject?;
      assert a[i].NotAnObject?;
    }
    if HasNonObject(a) {
      var i :| 0 <= i < |a| && a[i].NotAnObject?;
      assert b[i].NotAnObject?;
    }
  }

  /** The folder after the final save holds the final cache's text for
      every cached file and its old text for every other file; the cache
      order lists each cached file once. */
  ghost predicate WroteBack(folder: map<string, string>, disk: map<string, string>,
                            cache: map<string, string>, order: seq<string>) {
    && disk.Keys == folder.Keys
    && (forall f | f in cache :: f in folder)
    && (forall f | f in folder :: disk[f] == if f in cache then cache[f] else folder[f])
    && (forall f :: f in order <==> f in cache)
    && (forall i, j | 0 <= i < j < |order| :: order[i] != order[j])
  }

  lemma FinishWritesBack(t: State, data: seq<Entry>, prefix: string, svgFiles: seq<string>, folder: map<string, string>)
    requires Consistent(t, svgFiles) && WrittenFrom(t, folder)
    ensures var r := Finish(t, data, prefix);
      r.Success? ==> WroteBack(folder, r.value.disk, r.value.finalCache, r.value.cacheOrder)
  {
    SaveAllWritesBack(t, svgFiles);
  }

  /** After a completed run the folder holds the final cache's text for every
      cached file and its old text for every other file. */
  lemma RunWritesBack(jsonExists: bool, folderExists: bool, document: Option<seq<Entry>>, listing: Option<seq<string>>,
                      folder: map<string, string>, prefix: string)
    requires listing.Some? ==> forall f | f in listing.value :: f in folder
    ensures var r := Run(jsonExists, folderExists, document, listing, folder, prefix);
      r.Success? ==> WroteBack(folder, r.value.disk, r.value.finalCache, r.value.cacheOrder)
  {
    var loaded := LoadAndValidateInputs(jsonExists, folderExists, document, listing);
    if loaded.Success? {
      LoadedInFolder(jsonExists, folderExists, document, listing, folder);
      var s := InitialState(folder);
      var r := RunOutcome(s, loaded.value.entries, 0, loaded.value.svgFiles, prefix);
      RunKeepsConsistent(s, loaded.value.entries, 0, loaded.value.svgFiles, prefix, folder);
      FinishWritesBack(r.0, r.1, prefix, loaded.value.svgFiles, folder);
    }
  }

  /** The report of a completed run counts its issues, and gives the
      all-clear exactly when every block id is settled and every `tkk` id of
      the final cache carries the prefix. */
  lemma RunReport(jsonExists: bool, folderExists: bool, document: Option<seq<Entry>>, listing: Option<seq<string>>,
                  folder: map<string, string>, prefix: string)
    requires listing.Some? ==> forall f | f in listing.value :: f in folder
    ensures var r := Run(jsonExists, folderExists, document, listing, folder, prefix);
      r.Success? ==>
        && r.value.report.errorsFound == |r.value.report.issues|
        && (r.value.report.allUpdated <==>
              && Settled(r.value.data, prefix)
              && forall f | f in r.value.cacheOrder :: f in r.value.finalCache &&
                   forall id | id in TkkIds(r.value.finalCache[f]) :: StartsWith(id, prefix))
  {
    var loaded := LoadAndValidateInputs(jsonExists, folderExists, document, listing);
    if loaded.Success? {
      LoadedInFolder(jsonExists, folderExists, document, listing, folder);
      RunOrderCached(folder, loaded.value.entries, loaded.value.svgFiles, prefix);
      var r := RunOutcome(InitialState(folder), loaded.value.entries, 0, loaded.value.svgFiles, prefix);
      FinishReport(r.0, r.1, prefix);
    }
  }

  /** The report made from the final state counts its issues and gives the
      all-clear exactly when nothing is left to rename. */
  lemma FinishReport(t: State, data: seq<Entry>, prefix: string)
    requires forall f | f in t.loaded :: f in t.cache
    requires OrderCached(t)
    ensures var r := Finish(t, data, prefix);
      r.Success? ==>
        && r.value.report.errorsFound == |r.value.report.issues|
        && (r.value.report.allUpdated <==>
              && Settled(r.value.data, prefix)
              && forall f | f in r.value.cacheOrder :: f in r.value.finalCache &&
                   forall id | id in TkkIds(r.value.finalCache[f]) :: StartsWith(id, prefix))
  {
    JsonIssuesEmptyIffSettled(data, prefix);
    SvgOrphansEmpty(t.order, t.cache, prefix);
  }

  /** A completed run keeps every entry's id and explains every change to
      its blocks by a numbering of that entry's own old ids. */
  lemma RunRenamesDocument(jsonExists: bool, folderExists: bool, document: Option<seq<Entry>>,
                           listing: Option<seq<string>>, folder: map<string, string>, prefix: string)
    requires listing.Some? ==> forall f | f in listing.value :: f in folder
    ensures var r := Run(jsonExists, folderExists, document, listing, folder, prefix);
      r.Success? ==> AllRenamed(document.value, r.value.data, prefix)
  {
    var loaded := LoadAndValidateInputs(jsonExists, folderExists, document, listing);
    if loaded.Success? {
      LoadedInFolder(jsonExists, folderExists, document, listing, folder);
      LoadedRenames(folder, loaded.value, prefix);
    }
  }

  /** The same, once the inputs are loaded. */
  lemma LoadedRenames(folder: map<string, string>, loaded: Loaded, prefix: string)
    requires forall f | f in loaded.svgFiles :: f in folder
    ensures var r := RunLoaded(folder, loaded, prefix);
      r.Success? ==> AllRenamed(loaded.entries, r.value.data, prefix)
  {
    RunOrderCached(folder, loaded.entries, loaded.svgFiles, prefix);
    var r := RunOutcome(InitialState(folder), loaded.entries, 0, loaded.svgFiles, prefix);
    RunRenames(InitialState(folder), loaded.entries, 0, loaded.svgFiles, prefix);
    assert AllRenamed(loaded.entries, r.1, prefix);
  }

  /** Each entry of the document is renamed by its own numbering. */
  ghost predicate AllRenamed(before: seq<Entry>, after: seq<Entry>, prefix: string) {
    && |after| == |before|
    && forall i | 0 <= i < |before| :: EntryRenamed(before[i], after[i], prefix)
  }

  /** Every block of a renamed entry either is as it was or carries an id
      with the prefix. */
  lemma EntryRenamedCarriesPrefix(before: Entry, after: Entry, prefix: string)
    requires EntryRenamed(before, after, prefix) && before.Entry?
    ensures after.Entry? && |after.comments| == |before.comments|
    ensures forall g, k | 0 <= g < |before.comments| && 0 <= k < |before.comments[g]| ::
      k < |after.comments[g]| &&
      (after.comments[g][k] == before.comments[g][k]
       || (after.comments[g][k].svgGroupId.Some? && StartsWith(after.comments[g][k].svgGroupId.value, prefix)))
  {
    var m, order :| Numbered(m, order, prefix) && GroupsRenamed(before.comments, after.comments, m, 0);
    forall g, k | 0 <= g < |before.comments| && 0 <= k < |before.comments[g]|
      ensures k < |after.comments[g]|
      ensures after.comments[g][k] == before.comments[g][k]
        || (after.comments[g][k].svgGroupId.Some? && StartsWith(after.comments[g][k].svgGroupId.value, prefix))
    {
      assert BlocksRenamed(before.comments[g], after.comments[g], m, 0);
      if after.comments[g][k] != before.comments[g][k] {
        RenamedCarriesPrefix(before.comments[g][k], after.comments[g][k], m, order, prefix);
      }
    }
  }
}
