# TKK group-id unification, modelled in Dafny

The unifier renames the `svgGroupId` of every block comment in a textcritics
JSON document to `prefix1`, `prefix2`, ... (default prefix `g-tkk-`),
numbering the distinct old ids of each entry in the order they are first
renamed. The same rename is applied to the matching `class="tkk"` tag in
one of the entry's markup (SVG) files.

The model covers:

- the catalogue-number extractor `Mx?_?(\d+)`;
- the relevance filter that picks an entry's markup files (`SkRT`, then
  `TF<n>`, then the sketch token `Sk<n>(_<n>)*`, then every file with the
  number);
- the tag rewriter, which counts the matches of four patterns and refuses
  when there is more than one;
- the search loop over the relevant files;
- the two caches: the transient `loaded_svg_texts`, flushed to the folder at
  every entry with an id, and `final_svg_cache`, which keeps every file ever
  loaded;
- the block, entry and document loops;
- the final save;
- the uncertainty report;
- the input checks.

The file system is a map from file name to text. Every operation returns
the new folder, the caches and the changed document.

Each loop of the source is a Dafny `method` with loop invariants. It is
proved equal to a specification function: `ProcessBlock` to `BlockOutcome`,
`ProcessEntry` to `EntryOutcome`, `ProcessTkkIds` to `Run`, and so on. The
properties are then proved about those functions.

A regular expression is modelled by reasoning about *windows*. A window is
a stretch of text ending just after a `>`. Every pattern the program uses
is built from `[^>]` runs and literal text, so as long as the id contains no
`>`, a match stays inside one window and starts at that window's first `<`.

The block search and the rewriter are separate predicates, because they
differ in the source:

- The search accepts mixed quotes (`id='a' class="tkk"`).
- Each rewriter pattern needs one quote style for both attributes.

So a block whose tag the search finds but no rewriter pattern matches gets
its new id in the JSON while the tag keeps the old one. That id then shows
up in the report as an orphan. The model keeps this behaviour.

## Model

| member | source | states |
|---|---|---|
| Extraction.ExtractNumber | unify_tkk_ids/unify_tkk_ids.py:20-37 | the extracted catalogue number is a (possibly empty) run of digits |
| Extraction.MatchAtSound | unify_tkk_ids/unify_tkk_ids.py:36 | what the scan finds at an index is a match of `Mx?_?(\d+)` there: `M`, an optional `x`, an optional `_`, then a digit run that no digit follows |
| Extraction.MatchAtComplete | unify_tkk_ids/unify_tkk_ids.py:36 | conversely, every match of the regular expression at an index is exactly what the scan returns there |
| Extraction.ExtractNumberIsLeftmostMatch | unify_tkk_ids/unify_tkk_ids.py:36-37 | the result is `""` iff the pattern matches at no index; otherwise it is the group of the leftmost match |
| Extraction.NoMarkerNoNumber | unify_tkk_ids/unify_tkk_ids.py:36-37 | a text without the letter `M` has the empty catalogue number |
| Extraction.ExtractLeading | unify_tkk_ids/unify_tkk_ids.py:36-37 | `M`, any of the four separators, digits, and a rest that does not start with a digit yield exactly those digits |
| Extraction.ExtractStructuredExample | unify_tkk_ids/tests/test_unify_tkk_ids.py:48 | `Mx_123_Sk456` gives `123`: only the first digit run counts |
| Extraction.ExtractBareExample | unify_tkk_ids/tests/test_unify_tkk_ids.py:59 | `M143TF1` gives `143` |
| Extraction.ExtractNoMarkerExamples | unify_tkk_ids/tests/test_unify_tkk_ids.py:62-70 | `no_pattern_here`, `123456`, `None` and `""` give `""` |
| Relevance.FindTFNone | unify_tkk_ids/unify_tkk_ids.py:353-354 | `TF(\d+)` finds nothing iff no `TF` followed by a digit occurs |
| Relevance.FindTFIsLeftmost | unify_tkk_ids/unify_tkk_ids.py:353-355 | the text-version number is the maximal digit run after the leftmost `TF<digit>` |
| Relevance.SketchTokenAt | unify_tkk_ids/unify_tkk_ids.py:359-361 | the sketch token at a `Sk<digit>` has the shape `Sk\d+(_\d+)*`, occurs there, and cannot be extended by a digit or by `_<digit>` |
| Relevance.FindSkNone | unify_tkk_ids/unify_tkk_ids.py:359-360 | `Sk\d+(?:_\d+)*` finds nothing iff no `Sk` followed by a digit occurs |
| Relevance.FindSkIsLeftmost | unify_tkk_ids/unify_tkk_ids.py:359-361 | a found token starts at the leftmost `Sk<digit>`, occurs there, and is the longest token there |
| Relevance.KeepsSketchFrom | unify_tkk_ids/unify_tkk_ids.py:362-363 | the look-ahead test holds iff the token occurs somewhere not followed by `_` |
| Relevance.RelevantSvgs | unify_tkk_ids/unify_tkk_ids.py:324-366 | the chosen files keep the listing's order (a subsequence) and all carry the entry's catalogue number; for an `SkRT` id all are `Reihentabelle` files, otherwise none is |
| Relevance.RelevantPriority | unify_tkk_ids/unify_tkk_ids.py:339-366 | membership, rule by rule in the order the rules are tried: `SkRT`, then `TF<n>` (`Textfassung<n>` substring), then the sketch token (not followed by `_`), then every non-`Reihentabelle` file with the number |
| Relevance.TextVersionPrefixKept | unify_tkk_ids/unify_tkk_ids.py:356 | the text-version test is a substring test, so `TF1` also keeps `Textfassung10` |
| Relevance.SketchKeptBeforeOtherChar | unify_tkk_ids/unify_tkk_ids.py:362-363 | the look-ahead refuses only `_`, so `Sk2` keeps `Sk21` and `Sk2-` |
| Relevance.UnnumberedFileMatchesEmptyNumber | unify_tkk_ids/unify_tkk_ids.py:336-337 | a file name without `M` matches an entry whose number is empty |
| Relevance.FindSkSole | unify_tkk_ids/unify_tkk_ids.py:359-361 | an identifier ending in a sketch token, with no `S` before it, yields that whole token |
| Relevance.KeepsSketchSole | unify_tkk_ids/unify_tkk_ids.py:362-363 | a file in which the token's first character occurs only where the token starts keeps the token iff no `_` follows it |
| Relevance.ContainsSole | unify_tkk_ids/unify_tkk_ids.py:356 | a file in which the text's first character occurs only at one place holds the text iff it stands there |
| Relevance.FindTFSole | unify_tkk_ids/unify_tkk_ids.py:353-355 | an identifier ending in `TF<digits>`, with no `T` before it, yields those digits |
| Relevance.SketchTwoToken | unify_tkk_ids/tests/test_unify_tkk_ids.py:219-228 | the entry `M_143_Sk2` searches for the token `Sk2` |
| Relevance.SketchTwoRefusesFirstSub | unify_tkk_ids/tests/test_unify_tkk_ids.py:219-228 | `Sk2` refuses `M143_Sk2_1-1von1-final.svg` |
| Relevance.SketchTwoRefusesSecondSub | unify_tkk_ids/tests/test_unify_tkk_ids.py:219-228 | `Sk2` refuses `M143_Sk2_2-1von1-final.svg` |
| Relevance.SketchTwoRefusesNestedSub | unify_tkk_ids/tests/test_unify_tkk_ids.py:219-228 | `Sk2` refuses `M143_Sk2_1_1_1-1von1-final.svg` |
| Relevance.SketchTwoKeepsOwn | unify_tkk_ids/tests/test_unify_tkk_ids.py:219-228 | `Sk2` keeps `M143_Sk2-1von3-final.svg` |
| Relevance.SubSketchToken | unify_tkk_ids/tests/test_unify_tkk_ids.py:230-235 | the entry `M_143_Sk2_1` searches for the whole token `Sk2_1` |
| Relevance.SubSketchRefusesNested | unify_tkk_ids/tests/test_unify_tkk_ids.py:230-235 | `Sk2_1` refuses `M143_Sk2_1_1_1-1von1-final.svg` |
| Relevance.TextVersionOne | unify_tkk_ids/tests/test_unify_tkk_ids.py:205-210 | the entry `M_143_TF1` has the text version `1` |
| Relevance.TextVersionOneKeepsOwn | unify_tkk_ids/tests/test_unify_tkk_ids.py:205-210 | text version `1` keeps `M143_Textfassung1-1von2-final.svg` |
| Relevance.TextVersionOneRefusesOther | unify_tkk_ids/tests/test_unify_tkk_ids.py:205-210 | text version `1` refuses `M143_Textfassung2-1von1-final.svg` |
| TagRewrite.UpdateSvgId | unify_tkk_ids/unify_tkk_ids.py:369-410 | an error is returned iff the four patterns match more than once in total; the error carries the id and the count, and the text comes back unchanged; otherwise the result is the four substitution passes in order |
| TagRewrite.NoMatchUnchanged | unify_tkk_ids/unify_tkk_ids.py:406-410 | with no match the rewritten text equals the input |
| TagRewrite.NoUniformIdAttrNoMatch | unify_tkk_ids/unify_tkk_ids.py:385-392 | a text holding neither `id="old"` nor `id='old'` has no match and comes back unchanged |
| TagRewrite.SingleMatchIsLocal | unify_tkk_ids/unify_tkk_ids.py:394-410 | with exactly one match, the output differs from the input only inside the one window that holds the matched tag |
| TagRewrite.SingleMatchRewritesTag | unify_tkk_ids/unify_tkk_ids.py:402-410 | with exactly one match the input is `pre + tag + post`, the tag runs from `<` to its `>` and is matched by one pattern, and, if the rewritten tag keeps no old id attribute, the output is `pre + replace_id(tag) + post` |
| Caches.GetSvgText | unify_tkk_ids/unify_tkk_ids.py:143-150 | the file joins the transient cache and the folder is unchanged |
| Caches.GetSvgTextKeepsCache | unify_tkk_ids/unify_tkk_ids.py:143-150 | a load keeps the caches consistent; a cached file keeps its text and place in the cache order; a new one gets the folder's text at the end of the order |
| Caches.GetSvgTextKeepsTexts | unify_tkk_ids/unify_tkk_ids.py:143-150 | a load changes the text of no file |
| Caches.SetTextKeepsCache | unify_tkk_ids/unify_tkk_ids.py:202 | writing a loaded file's text keeps the caches consistent and every other cached text |
| Caches.SaveAllWritesBack | unify_tkk_ids/unify_tkk_ids.py:231-233 | after the flush the folder has the same files, holds the cached text of every cached file, and still holds its own text for every unloaded file |
| Caches.SaveLoaded | unify_tkk_ids/unify_tkk_ids.py:275-277 | the save loop writes every loaded file, one at a time, and yields the flushed folder |
| Caches.FindSvgWithId | unify_tkk_ids/unify_tkk_ids.py:177-182 | the search loop equals the search function: it loads file after file and stops at the first hit |
| Caches.SearchIsFirstHit | unify_tkk_ids/unify_tkk_ids.py:177-182 | the search returns file `j` iff `j` is the first relevant file whose text the search pattern matches; that file is loaded with its current text |
| Caches.SearchKeepsConsistent | unify_tkk_ids/unify_tkk_ids.py:177-182 | the search keeps the caches consistent, and a hit is in the transient cache |
| Caches.SearchKeepsCache | unify_tkk_ids/unify_tkk_ids.py:177-182 | the search changes no cached text and loads only relevant files |
| Numbering.Label | unify_tkk_ids/unify_tkk_ids.py:194 | every new id starts with the prefix |
| Numbering.LabelInjective | unify_tkk_ids/unify_tkk_ids.py:194 | `prefix + str(m)` and `prefix + str(n)` are equal only when `m == n` |
| Numbering.NumberedExtend | unify_tkk_ids/unify_tkk_ids.py:193-194 | adding an unmapped id with number `len(id_mapping) + 1` keeps the numbering |
| Numbering.NumberedInjective | unify_tkk_ids/unify_tkk_ids.py:193-196 | different old ids get different new ids |
| Numbering.NumberedValues | unify_tkk_ids/unify_tkk_ids.py:194 | every new id is one of `prefix1` ... `prefixN`, where N is the number of ids mapped |
| Numbering.NumberedCovers | unify_tkk_ids/unify_tkk_ids.py:194 | each of `prefix1` ... `prefixN` is the new id of some old id |
| Blocks.ProcessBlock | unify_tkk_ids/unify_tkk_ids.py:154-207 | the block step equals `BlockOutcome`: skip check, search loop, then the found file |
| Blocks.ProcessFound | unify_tkk_ids/unify_tkk_ids.py:183-204 | the trial rewrite to `temp_id`, then the new id for block and tag, equals `FoundOutcome` |
| Blocks.BlockKeepsConsistent | unify_tkk_ids/unify_tkk_ids.py:154-207 | one block keeps the caches consistent and loads only relevant files; a skipped block (`None`, `""`, `"TODO"`) or one with no relevant files changes nothing |
| Blocks.BlockNumbers | unify_tkk_ids/unify_tkk_ids.py:193-194 | one block keeps the entry's numbering: the mapping still gives its ids `prefix1` ... `prefixN`, one label each, in the order they were added |
| Blocks.BlockRenames | unify_tkk_ids/unify_tkk_ids.py:193-199 | the mapping only grows, and the block is unchanged or carries the mapping's new id for its old one |
| Blocks.BlockSucceeds | unify_tkk_ids/unify_tkk_ids.py:165-207 | a skipped block (`None`, `""`, `"TODO"`) returns True; a block with an id returns True iff the first relevant file matching the search holds at most one rewriter match; a block that fails (not found, or ambiguous) or is skipped keeps its id, leaves the mapping as it was, and leaves the text of every file unchanged |
| Blocks.BlockKeepsTexts | unify_tkk_ids/unify_tkk_ids.py:165-207 | a skipped or failed block leaves the text of every file of the folder unchanged, the loaded ones included |
| Blocks.BlockKeepsOtherTexts | unify_tkk_ids/unify_tkk_ids.py:174-204 | once the search has found a file, every other file keeps its text |
| Blocks.BlockNewKey | unify_tkk_ids/unify_tkk_ids.py:193-196 | a block adds at most its own old id to the mapping, and a block that adds it now carries that id's label |
| Blocks.BlockRenamesHit | unify_tkk_ids/unify_tkk_ids.py:183-204 | when it succeeds, block and cached file text both get the id's label (the existing one, else `prefix` + `len(id_mapping) + 1`), the file's text is the rewriter's output on the text it had, and every other file keeps its text |
| Entries.ProcessGroup | unify_tkk_ids/unify_tkk_ids.py:254-258 | the loop over a group's block comments equals `GroupOutcome` |
| Entries.ProcessComments | unify_tkk_ids/unify_tkk_ids.py:252-258 | the loop over the comment groups, with a fresh mapping, equals `CommentsOutcome` |
| Entries.ProcessEntry | unify_tkk_ids/unify_tkk_ids.py:210-258 | the entry step equals `EntryOutcome`: skip a non-object; flush and clear the transient cache when the id is non-empty; process every block against the relevant files |
| Entries.EntryOutcome | unify_tkk_ids/unify_tkk_ids.py:223-258 | an entry stays an object or a non-object, and every loaded file stays cached |
| Entries.GroupKeepsConsistent | unify_tkk_ids/unify_tkk_ids.py:253-258 | a group keeps the caches consistent and loads only relevant files; with no relevant files it changes nothing |
| Entries.CommentsKeepConsistent | unify_tkk_ids/unify_tkk_ids.py:252-258 | the same for all groups of an entry |
| Entries.GroupNumbers | unify_tkk_ids/unify_tkk_ids.py:253-258 | a group keeps the entry's numbering |
| Entries.GroupRenames | unify_tkk_ids/unify_tkk_ids.py:253-258 | the mapping only grows; blocks before the current one are untouched, and every later block is unchanged or renamed by the final mapping |
| Entries.CommentsNumbers | unify_tkk_ids/unify_tkk_ids.py:252-258 | the groups keep the entry's numbering |
| Entries.CommentsRename | unify_tkk_ids/unify_tkk_ids.py:252-258 | the mapping only grows, and every block of every later group is unchanged or renamed by the final mapping |
| Entries.EntryStartKeepsConsistent | unify_tkk_ids/unify_tkk_ids.py:229-235 | without an id nothing happens; with one, every cached text is written to the folder, unloaded files keep their text, and the transient cache is emptied |
| Entries.EntryKeepsConsistent | unify_tkk_ids/unify_tkk_ids.py:210-258 | consistency, and no file leaves the final cache. A non-object or an entry without an id changes nothing, with an empty mapping. An entry with an id keeps its id and number of groups, writes every cached text to the folder, leaves unloaded files alone, and afterwards holds only its relevant files in the transient cache |
| Entries.GroupWitnesses | unify_tkk_ids/unify_tkk_ids.py:253-258 | every id a group adds to the mapping is the old id of one of its blocks, and that block now carries the id's label |
| Entries.CommentsWitnesses | unify_tkk_ids/unify_tkk_ids.py:252-258 | every id the groups add to the mapping is the old id of one of their blocks, and that block now carries the id's label |
| Entries.EntryRenames | unify_tkk_ids/unify_tkk_ids.py:226-258 | the entry's mapping gives the old ids it renamed some numbering `prefix1` ... `prefixN`, one label each; every mapped id is the old id of a block of the entry that now carries its label; the id is kept, and every block is unchanged or carries the new id of its old one; a non-object has an empty mapping |
| Validation.ScanAt | unify_tkk_ids/unify_tkk_ids.py:76 | a hit of the id pattern at a `<` captures the non-empty, quote-free value of a quoted `id=` attribute of that tag, before the tag's first `>`, and the same tag has `class="tkk"` either before the id or after its closing quote |
| Validation.ScanAtComplete | unify_tkk_ids/unify_tkk_ids.py:76 | conversely, the pattern matches at every `<` that opens a tag with a quoted id and `class="tkk"` before the id or after it |
| Validation.TkkIdsFrom | unify_tkk_ids/unify_tkk_ids.py:76-81 | every id `findall` captures is non-empty, free of quotes, and the value of the `id=` attribute of a tag of the text that has `class="tkk"` |
| Validation.TkkIdsNone | unify_tkk_ids/unify_tkk_ids.py:76-81 | `findall` captures nothing iff no tag with a quoted id and `class="tkk"` opens in the text |
| Validation.BlockIssues | unify_tkk_ids/unify_tkk_ids.py:70-74 | an issue is reported for exactly the blocks whose id is set, not `TODO`, and without the prefix, one per such block, so the number of issues is the number of those blocks (two blocks with the same id count twice) |
| Validation.BlockIssuesAppend | unify_tkk_ids/unify_tkk_ids.py:69-74 | the issues of two runs of blocks are those of the first, then those of the second |
| Validation.JsonIssuesCount | unify_tkk_ids/unify_tkk_ids.py:66-74 | the number of JSON issues is the number of offending blocks over all entries |
| Validation.JsonIssuesEmptyIffSettled | unify_tkk_ids/unify_tkk_ids.py:65-74 | no JSON issue is reported iff every block of every entry has an empty, `TODO` or prefixed id |
| Validation.FileOrphans | unify_tkk_ids/unify_tkk_ids.py:80-84 | an orphan is reported for exactly the ids of a file without the prefix, one per captured match, so the number of orphans is the number of unprefixed matches (a repeated id counts each time) |
| Validation.FileOrphansAppend | unify_tkk_ids/unify_tkk_ids.py:80-84 | the orphans of two runs of matches are those of the first, then those of the second |
| Validation.SvgOrphansCount | unify_tkk_ids/unify_tkk_ids.py:78-84 | the number of orphans is the number of unprefixed matches over all cached files |
| Validation.SvgOrphans | unify_tkk_ids/unify_tkk_ids.py:78-84 | an orphan is reported for exactly the unprefixed `tkk` ids of the cached files |
| Validation.SvgOrphansEmpty | unify_tkk_ids/unify_tkk_ids.py:78-84 | no orphan is reported iff every `tkk` id of every cached file carries the prefix |
| Validation.EntryIssues | unify_tkk_ids/unify_tkk_ids.py:68-74 | the nested block loops of one entry yield its issues in order |
| Validation.FileOrphanIssues | unify_tkk_ids/unify_tkk_ids.py:80-84 | the loop over one file's matches yields its orphans in order |
| Validation.OrphanIssues | unify_tkk_ids/unify_tkk_ids.py:78-84 | the loop over the cached files yields all orphans in cache order |
| Validation.DisplayUncertainties | unify_tkk_ids/unify_tkk_ids.py:40-89 | the report is aborted iff some entry is not an object; otherwise it lists the JSON issues, then the orphans, its count is the number of offending blocks plus the number of unprefixed `tkk` matches, and it prints the all-clear iff the count is 0 |
| Inputs.SvgNameAnyCase | unify_tkk_ids/unify_tkk_ids.py:119 | a name passes iff it ends in `.svg` with each letter in either case |
| Inputs.SvgFiles | unify_tkk_ids/unify_tkk_ids.py:118-119 | the markup files are exactly the listed names that pass the extension test, in listing order |
| Inputs.LoadAndValidateInputs | unify_tkk_ids/unify_tkk_ids.py:92-129 | loading succeeds iff both paths exist, the document parses, the folder lists, and some listed name is a markup file; the result holds the document and exactly those files, in listing order; a missing JSON file is the error reported first, and the no-markup-files error comes only from a listing without one |
| Unify.ProcessEntries | unify_tkk_ids/unify_tkk_ids.py:312-316 | the loop over the entries equals `RunOutcome` |
| Unify.RunKeepsConsistent | unify_tkk_ids/unify_tkk_ids.py:312-316 | the entries keep the caches consistent, never drop a cached file, and write to the folder only cached files |
| Unify.RunRenames | unify_tkk_ids/unify_tkk_ids.py:312-316 | entries before the current one are untouched, and every later one is renamed by its own numbering |
| Unify.RenamedCarriesPrefix | unify_tkk_ids/unify_tkk_ids.py:193-199 | a block the run changed carries a new id that starts with the prefix |
| Unify.EntryRenamedCarriesPrefix | unify_tkk_ids/unify_tkk_ids.py:193-199 | every block of a renamed entry is as it was or carries a prefixed id |
| Unify.ProcessTkkIds | unify_tkk_ids/unify_tkk_ids.py:287-321 | the whole program equals `Run`: the input checks, the entries in order, then the save and the report |
| Unify.SaveResults | unify_tkk_ids/unify_tkk_ids.py:261-284 | the final save loop, then the report, equal `Finish`; a non-object entry stops it after the folder was written |
| Unify.RunStops | unify_tkk_ids/unify_tkk_ids.py:287-321 | the run fails with the loader's error iff loading fails; it fails in the report iff the document holds a non-object entry; a completed run keeps the number of entries and reports success |
| Unify.FinishWritesBack | unify_tkk_ids/unify_tkk_ids.py:274-277 | after the final save, the folder holds the final cache's text for every cached file |
| Unify.RunWritesBack | unify_tkk_ids/unify_tkk_ids.py:229-235 | after a completed run the folder has its old files; every cached file holds its final-cache text and every other file its old text; the cache order lists each cached file once |
| Unify.FinishReport | unify_tkk_ids/unify_tkk_ids.py:279-280 | the final report counts its issues, and gives the all-clear iff nothing is left to rename |
| Unify.RunReport | unify_tkk_ids/unify_tkk_ids.py:86-89 | after a completed run the all-clear is printed iff every block id is settled and every `tkk` id of the final cache carries the prefix |
| Unify.RunRenamesDocument | unify_tkk_ids/unify_tkk_ids.py:312-321 | the returned document renames every entry by its own numbering and keeps every entry's id |

## Left out

- File I/O, paths and encodings. The folder is a map from file name to text, and a path is its file name. The listing is assumed to name only files of that folder. Writing the JSON document (`json.dump`) is not modelled beyond returning the document.
- Printing. Every message, warning and report line is left out, apart from what the report counts. Message texts are not modelled: the ambiguity error keeps only the id and the count.
- `main`, the command line, `create_svg_loader`'s closure mechanics, and the test runner. `convert_source_description/utils.py` is not part of this model.
- The JSON root shape. `data.get('textcritics', data)` is modelled as the list of entries. Only the fields the program reads are kept: `id`, `commentary.comments[*].blockComments[*].svgGroupId`. JSON values other than strings in those fields are not modelled.
- A missing or null entry id is `None`. The report prints `Unknown` (or `None`) for it, and the model keeps `None` instead.
- Every non-object entry is one `NotAnObject` value. Such an entry makes the report raise, and the model returns `ReportRaised` with the folder as written by the save loop.
- The block, entry and cache objects are values the steps return, not shared dictionaries. The aliasing of the two caches becomes the invariant that every loaded file is cached with the same text.
- The save loop writes loaded files in an unspecified order. The order does not matter, because each file is written once.
- Regular expressions in general. Only the patterns the program uses are modelled, and only for ids without `>`.
- TagRewrite.SingleMatchRewritesTag: the exact output `pre + replace_id(tag) + post` is proved only when the rewritten tag keeps no old id attribute (for example, when the new id does not recreate the old attribute text); otherwise only the locality of `SingleMatchIsLocal` is promised.
- TagRewrite.HitWindowRewritten: the same condition; without it the window's rewritten text is not stated.
- Entries.EntryRenames: the numbering is stated as some `prefix1` ... `prefixN`, not as the order in which the blocks were renamed. That order is stated one block at a time: `Blocks.BlockRenamesHit` gives a new id the label `prefix` + `len(id_mapping) + 1`, and `Blocks.BlockNumbers` keeps the labels in the order they were added.
- `\d` is read as the ASCII digits `0`-`9`, and `lower()` as ASCII lower-casing.
- The docstring's note that `TODO` blocks do not advance the numbering restates the code and adds nothing.
