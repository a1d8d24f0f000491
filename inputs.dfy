/** `load_and_validate_inputs` (unify_tkk_ids/unify_tkk_ids.py:92-129): the
    checks made before any work, and the markup files of the folder. The file
    system is given as values: whether each path exists, the parsed document
    (`None` when it is not valid JSON) and the folder listing (`None` when it
    cannot be listed). */
module Inputs {
  import opened Wrappers
  import opened Text
  import opened Lists
  import opened Document

  /** The exceptions the loader raises, in the order it checks for them. */
  datatype InputError = JsonNotFound | FolderNotFound | InvalidJson | CannotListFolder | NoSvgFiles

  datatype Loaded = Loaded(entries: seq<Entry>, svgFiles: seq<string>)

  function LowerChar(c: char): char {
    if 'A' <= c <= 'Z' then (c as int + 32) as char else c
  }

  function Lower(s: string): (r: string)
    ensures |r| == |s|
  {
    seq(|s|, i requires 0 <= i < |s| => LowerChar(s[i]))
  }

  /** `f.lower().endswith('.svg')`. */
  predicate IsSvgName(f: string) {
    EndsWith(Lower(f), ".svg")
  }

  /** The extension test ignores case, letter by letter. */
  lemma SvgNameAnyCase(f: string)
    ensures IsSvgName(f) <==>
      && |f| >= 4
      && f[|f| - 4] == '.'
      && (f[|f| - 3] == 's' || f[|f| - 3] == 'S')
      && (f[|f| - 2] == 'v' || f[|f| - 2] == 'V')
      && (f[|f| - 1] == 'g' || f[|f| - 1] == 'G')
  {
    var l := Lower(f);
    if |f| >= 4 {
      var n := |f|;
      assert l[n - 4..] == [l[n - 4], l[n - 3], l[n - 2], l[n - 1]];
      assert ".svg" == ['.', 's', 'v', 'g'];
    }
  }

  /** The markup files of a folder listing, in listing order. */
  function SvgFiles(listing: seq<string>): (r: seq<string>)
    ensures IsSubsequence(r, listing)
    ensures forall f :: f in r <==> f in listing && IsSvgName(f)
  {
    Filter(listing, IsSvgName)
  }

  function LoadAndValidateInputs(jsonExists: bool, folderExists: bool,
                                 document: Option<seq<Entry>>, listing: Option<seq<string>>): (r: Result<Loaded, InputError>)
    ensures r.Success? <==>
      jsonExists && folderExists && document.Some? && listing.Some?
      && exists f :: f in listing.value && IsSvgName(f)
    ensures r.Success? ==>
      && r.value.entries == document.value
      && IsSubsequence(r.value.svgFiles, listing.value)
      && r.value.svgFiles != []
      && forall f :: f in r.value.svgFiles <==> f in listing.value && IsSvgName(f)
    ensures r.Failure? && !jsonExists ==> r.error == JsonNotFound
    ensures r.Failure? && r.error == NoSvgFiles ==> listing.Some? && forall f | f in listing.value :: !IsSvgName(f)
  {
    if !jsonExists then Failure(JsonNotFound)
    else if !folderExists then Failure(FolderNotFound)
    else if document.None? then Failure(InvalidJson)
    else if listing.None? then Failure(CannotListFolder)
    else
      var files := SvgFiles(listing.value);
      if files == [] then Failure(NoSvgFiles)
      else Success(Loaded(document.value, files))
  }
}
