# Include path estimator: resolution and classification engine

This project models, in Dafny, the engine of the include path estimator: the
part that works out which directories a C/C++ source tree needs on its
include search path.

- **Resolver.** For one source file, one raw include token and the tree's
  header list, `include_paths_for_include` finds every header whose trailing
  path tokens match the include once its leading `..` count is dropped. It
  derives the candidate directory and tags the per-header record:
  - `mandatory` when the source and the header live in different folders;
  - `optional` when they share a folder;
  - `ambiguous` when the include has `..` tokens and some subdirectories of
    the candidate fall inside the depth window;
  - `non_existing`, with a `None` path, when none does.
- **Aggregator.** `paths_report` folds the first tag of every record into a
  map from path to tags. It skips `non_existing` records. `path_types_report`
  puts each path into the mandatory, optional and ambiguous buckets:
  mandatory dominates, and optional and ambiguous may overlap.
- **Classifiers.** The internal/external/system include lists and the labels
  `record_include_types` attaches to each include.
- **Helpers.** The file-list filters and the per-line `#include` regex.
- **Tree database.** It is a class whose methods rewrite the nested source,
  include and header tables in place, as the `record_*` functions do.

The modules follow the program's structure:

| module | file | models |
|---|---|---|
| `Common` | common.dfy | `None`, duplicate-free lists, "append if not present" |
| `StringOrder` | strings.dfy | Python's `str` order, `sorted(list)` and `sorted(set)` |
| `PathTokens` | tokens.dfy | `split("/")`, `"/".join`, Python slices, `..` counting, the suffix test, the candidate directory |
| `FileIndex` | fileindex.dfy | `header_files`, `c_source_files`, `header_folders`, `c_source_folders`, `includes` |
| `IncludeExtractor` | extract.dfy | the line scan of `includes_from_file` |
| `IncludeClassifier` | classify.dfy | `internal_includes`, `external_includes`, `system_includes`, the labels of `record_include_types` |
| `LegacyClassifier` | legacy.dfy | the `internal_includes` of the earlier copy of the script |
| `PathResolver` | resolver.dfy | `up_level_references_folders`, `record_*`, `include_paths_for_include` |
| `ResolverFacts` | resolverfacts.dfy | what one resolution yields, header by header, with worked scenarios |
| `Aggregator` | aggregator.dfy | `get_include_types`, `assign_types`, `paths_report`, `path_types_report` |
| `TreeDatabase` | database.dfy | `record_root`, `record_sources`, `record_includes`, `record_include_paths`, `record_include_types`, `paths_report` over the database |

Some operations are loops that grow a list or rewrite a dictionary. These are
methods with loop invariants:
- `UpLevelReferencesFolders`, `IncludePathsForInclude`, both
  `InternalIncludes`, `PathsReport` and the `record_*` loops of the tree
  database are proved equal to a specification function on every input;
- `PathTypesReport` is proved to give a bucket report (`IsBucketReport`):
  each bucket strictly sorted and holding exactly its paths. No function
  spells that report out; `ReportUnique` shows there is only one such report
  for a given `paths` map, so the result is still fully determined.

The record helpers return the updated per-header dictionary. They become
functions on an immutable value that the resolver loop reassigns.

The earlier copy, `includepathestimator/estimateincludepaths.py`, repeats most
of the engine line for line and is modelled once:
- its filters (53-85) match `header_files` … `includes`;
- its resolver and record helpers (116-221) match
  `up_level_references_folders` … `include_paths_for_include`;
- its line scan (224-236) matches `includes_from_file`;
- its reports (267-319) match `get_include_types` … `path_types_report`;
- its database writers (341-369) match `record_sources` … `record_include_paths`.

Two things differ:
- its `internal_includes` (96-106) compares the whole include token list,
  `..` tokens included; this is modelled in `LegacyClassifier`;
- it has no system classification, which is left out of `LegacyClassifier`.

Three behaviours of the source kept as written:
- **Unreadable directory.** A candidate directory that cannot be listed is
  not absorbed as `non_existing`: `os.scandir` raises. The model requires
  that the listing covers every candidate (`ListingCovers`).
- **Tags reset.** `record_header` resets a header's tags every time, because
  its `"path_notes"` test never finds that key. A header listed twice
  therefore loses its tag (`DuplicateHeaderLosesTags`).
- **Insertion order.** The candidate lists and the ambiguous folder lists
  keep insertion order. Only the final buckets are sorted.

## Model

| member | source | states |
|---|---|---|
| PathTokens.Split | includepathestimator/modules/estimateincludepaths.py:155-157 | splitting on the separator gives at least one token, and no token contains the separator |
| PathTokens.JoinSplit | includepathestimator/modules/estimateincludepaths.py:326-328 | joining the tokens of a split gives back the original path string |
| PathTokens.SplitJoin | includepathestimator/modules/estimateincludepaths.py:326-328 | splitting a join of separator-free tokens gives back the tokens, so a candidate directory re-splits into the header's leading tokens |
| PathTokens.SliceFrom | includepathestimator/modules/estimateincludepaths.py:321-322 | `xs[i:]` follows Python: `-0` and an index below `-len` give the whole list, and `-k` gives the last `k` elements |
| PathTokens.SliceTo | includepathestimator/modules/estimateincludepaths.py:327 | `xs[:j]` follows Python: `:0` gives nothing, and `:-k` gives the first `max(0, len-k)` elements |
| PathTokens.UpCount | includepathestimator/modules/estimateincludepaths.py:316 | the `..` count never exceeds the token count, and it is zero exactly when no token is `..` |
| PathTokens.UpCountCounts | includepathestimator/modules/estimateincludepaths.py:316 | the count is the number of `..` tokens anywhere in the include (their multiplicity), as `count("..")` gives |
| PathTokens.TailMatchesIff | includepathestimator/modules/estimateincludepaths.py:320-323 | a file matches an include iff, with `k` = include tokens minus `up`, `k > 0` and the file's last `k` tokens equal the include's last `k` tokens |
| PathTokens.CandidateTokens | includepathestimator/modules/estimateincludepaths.py:326-328 | for a matching header, the candidate is the header's tokens without the matched tail, and a non-empty candidate splits back into exactly those tokens |
| PathTokens.Parent | includepathestimator/modules/estimateincludepaths.py:186-187 | a file's parent is `.` for a bare name, `/` for a name directly under the root, and otherwise the join of all its tokens but the last |
| PathTokens.JoinSnoc | includepathestimator/modules/estimateincludepaths.py:186-187 | joining one more token appends a separator and that token |
| PathTokens.ParentRoundTrip | includepathestimator/modules/estimateincludepaths.py:186-187 | a file is its parent, a separator and its separator-free name; a bare name is just the name, with parent `.`, and a name directly under the root is `/` and the name |
| StringOrder.Sort | includepathestimator/modules/estimateincludepaths.py:363 | `sorted(list)` gives an ascending list with the same multiset of elements |
| StringOrder.SortedDistinct | includepathestimator/modules/estimateincludepaths.py:176 | `sorted(set(xs))` gives a strictly ascending list holding exactly the elements of `xs` |
| StringOrder.StrictlySortedUnique | includepathestimator/modules/estimateincludepaths.py:223 | two strictly sorted lists with the same elements are equal, so a sorted set does not depend on the order it was built in |
| FileIndex.HeaderFiles | includepathestimator/modules/estimateincludepaths.py:174-176 | strictly sorted, and holds exactly the inputs that end in `.h` |
| FileIndex.CSourceFiles | includepathestimator/modules/estimateincludepaths.py:179-181 | strictly sorted, and holds exactly the inputs that end in `.c` |
| FileIndex.HeaderFolders | includepathestimator/modules/estimateincludepaths.py:184-187 | strictly sorted, and holds exactly the parents of the `.h` inputs |
| FileIndex.CSourceFolders | includepathestimator/modules/estimateincludepaths.py:190-193 | strictly sorted, and holds exactly the parents of the `.c` inputs |
| FileIndex.Includes | includepathestimator/modules/estimateincludepaths.py:196-200 | strictly sorted, and holds exactly the includes found in some file |
| IncludeExtractor.Search | includepathestimator/modules/estimateincludepaths.py:355-361 | no result iff no position opens `#include "` or `#include <`; otherwise the capture starts at the leftmost such position |
| IncludeExtractor.CapturesIff | includepathestimator/modules/estimateincludepaths.py:358-362 | a string is collected iff some line's first match captures it |
| IncludeExtractor.IncludesFromFile | includepathestimator/modules/estimateincludepaths.py:352-363 | a file without a source suffix gives nothing; otherwise the result is the sorted multiset of every matching line's capture |
| IncludeExtractor.DirectiveCaptured | includepathestimator/modules/estimateincludepaths.py:355 | a line `#include "p"` or `#include <p>` captures exactly `p`, up to the next `"` or `>` |
| IncludeExtractor.CapturesSkipPlainLines | includepathestimator/modules/estimateincludepaths.py:360 | a line without a match contributes nothing |
| IncludeClassifier.IsInternalIff | includepathestimator/modules/estimateincludepaths.py:215-222 | an include is internal iff some file of the list passes the suffix test after its first `up` tokens are dropped |
| IncludeClassifier.AppendMatches | includepathestimator/modules/estimateincludepaths.py:218-222 | after the file loop, the include is present iff some file matches it, and nothing else is added |
| IncludeClassifier.InternalIncludes | includepathestimator/modules/estimateincludepaths.py:211-223 | strictly sorted, and holds exactly the inputs that some file matches; equal to `sorted(set(...))` of the matching inputs |
| IncludeClassifier.ExternalIncludes | includepathestimator/modules/estimateincludepaths.py:226-232 | strictly sorted, and holds exactly the includes that are not in the internal list |
| IncludeClassifier.SystemIncludes | includepathestimator/modules/estimateincludepaths.py:235-238 | strictly sorted, and holds exactly the includes whose raw text is on the allow-list |
| IncludeClassifier.InternalExternalPartition | includepathestimator/modules/estimateincludepaths.py:211-232 | every include is either internal or external, never both, and every external include fails the suffix test for all files |
| IncludeClassifier.IncludeLabels | includepathestimator/modules/estimateincludepaths.py:535-550 | keeps the existing labels as a prefix and adds `system` iff the include is on the allow-list, `internal` iff it is internal and `external` otherwise, with no repeats |
| IncludeClassifier.FreshIncludeLabels | includepathestimator/modules/estimateincludepaths.py:539-550 | an unlabelled include gets `system` first if on the allow-list, then exactly one of `internal` and `external` |
| IncludeClassifier.StdioIsSystem | includepathestimator/modules/estimateincludepaths.py:100 | `stdio.h` is on the allow-list |
| IncludeClassifier.NestedFileIsInternal | includepathestimator/modules/estimateincludepaths.py:218-222 | a file `d/x` makes the bare include `x` internal |
| IncludeClassifier.VendoredStdioIsInternal | includepathestimator/modules/estimateincludepaths.py:218-222 | a vendored `vendor/stdio.h` makes `stdio.h` internal |
| IncludeClassifier.SystemAndInternal | includepathestimator/modules/estimateincludepaths.py:539-546 | the labels are not exclusive: a vendored `stdio.h` gets both `system` and `internal` |
| LegacyClassifier.LegacyTailMatchesIff | includepathestimator/estimateincludepaths.py:104 | the earlier test holds iff the file ends with all of the include's tokens, `..` included |
| LegacyClassifier.LegacyIsInternalIff | includepathestimator/estimateincludepaths.py:100-105 | under the earlier test an include is internal iff some file ends with all of its tokens |
| LegacyClassifier.AppendMatches | includepathestimator/estimateincludepaths.py:102-105 | after the file loop, the include is present iff some file ends with it |
| LegacyClassifier.InternalIncludes | includepathestimator/estimateincludepaths.py:96-106 | strictly sorted, and holds exactly the inputs that some file ends with; equal to `sorted(set(...))` of the matching inputs |
| LegacyClassifier.AgreesWithoutUpReferences | includepathestimator/estimateincludepaths.py:104 | for an include without `..` the earlier and later tests agree |
| LegacyClassifier.UpReferenceDifference | includepathestimator/estimateincludepaths.py:104 | `../x.h` is internal to a tree holding `a/x.h` under the later test, but not under the earlier one |
| LegacyClassifier.LegacyInternalExternalPartition | includepathestimator/estimateincludepaths.py:109-113 | the earlier external list is exactly the includes the earlier test rejects |
| PathResolver.RecordHeader | includepathestimator/modules/estimateincludepaths.py:260-266 | a new header starts with no paths, an existing one keeps its paths, the tags are always reset, and every other header is unchanged |
| PathResolver.RecordAmbiguousPaths | includepathestimator/modules/estimateincludepaths.py:269-281 | no folders: `None` is appended and `non_existing` added once; otherwise the paths become the folders and `ambiguous` is added once; other headers are unchanged |
| PathResolver.RecordDirectPath | includepathestimator/modules/estimateincludepaths.py:284-303 | a known candidate changes nothing; a new one is appended with its `mandatory` or `optional` tag added once |
| PathResolver.InScopeFolders | includepathestimator/modules/estimateincludepaths.py:248-256 | holds exactly the listed folders whose token count `d` satisfies `len(header)-1 < d <= len(header)-1+up` |
| PathResolver.InScopeDistinct | includepathestimator/modules/estimateincludepaths.py:255-256 | the collected folders never repeat |
| PathResolver.InScopeOfDistinctListing | includepathestimator/modules/estimateincludepaths.py:246-257 | for a listing without repeats, the result is the in-window folders in listing order |
| PathResolver.UpLevelReferencesFolders | includepathestimator/modules/estimateincludepaths.py:241-257 | the loop yields exactly the in-window subfolders of the candidate, without repeats, in listing order |
| PathResolver.ResolveHeader | includepathestimator/modules/estimateincludepaths.py:317-348 | a non-matching header leaves the database unchanged; a matching one gets an entry, appended to the key order once; other headers are unchanged |
| PathResolver.Resolve | includepathestimator/modules/estimateincludepaths.py:306-349 | a header has an entry iff it is in the list and passes the suffix test; no match means an empty database |
| PathResolver.ResolveOrderAgrees | includepathestimator/modules/estimateincludepaths.py:329 | the database's key order lists each entry exactly once |
| PathResolver.IncludePathsForInclude | includepathestimator/modules/estimateincludepaths.py:306-349 | the header loop computes `Resolve`, so exactly the matching headers get entries |
| ResolverFacts.ResolveFreshHeader | includepathestimator/modules/estimateincludepaths.py:329-347 | a matching header new to the database gets exactly its expected entry |
| ResolverFacts.ResolveDistinctHeaders | includepathestimator/modules/estimateincludepaths.py:317-348 | for distinct headers, the key order is the matching headers in list order, and each has its expected entry |
| ResolverFacts.DistinctHeadersWellFormed | includepathestimator/modules/estimateincludepaths.py:329-347 | for distinct headers, every entry has exactly one tag, and only a `non_existing` entry holds `None` |
| ResolverFacts.ExpectedSingleTagged | includepathestimator/modules/estimateincludepaths.py:330-347 | an expected entry has one tag, and holds `None` only when tagged `non_existing` |
| ResolverFacts.DirectCandidate | includepathestimator/modules/estimateincludepaths.py:326-328 | without `..`, the header ends with the include's tokens, and the candidate is the header tokens minus the last `len(inc)`, joined |
| ResolverFacts.WindowNeedsBareName | includepathestimator/modules/estimateincludepaths.py:246-254 | when subdirectories are one level deeper, one passes the window iff exactly one include token follows the `..` tokens |
| ResolverFacts.NoFoldersBeyondBareName | includepathestimator/modules/estimateincludepaths.py:246-254 | an include like `../inc/x.h` never finds a folder |
| ResolverFacts.InScopeEmpty | includepathestimator/modules/estimateincludepaths.py:252-254 | a listing with no folder in the window yields no folders |
| ResolverFacts.ResolveSingleDirect | includepathestimator/modules/estimateincludepaths.py:340-347 | one matching header without `..` gives one path, the candidate, tagged `optional` for the same folder and `mandatory` otherwise |
| ResolverFacts.ResolveSingle | includepathestimator/modules/estimateincludepaths.py:306-349 | one matching header gives a database holding just that header with its expected entry |
| ResolverFacts.DuplicateHeaderLosesTags | includepathestimator/modules/estimateincludepaths.py:260-266 | a header listed twice keeps its path but ends with no tags |
| ResolverFacts.RepeatedDirectHeader | includepathestimator/modules/estimateincludepaths.py:264-265 | resolving a header again when its candidate is already recorded clears its tags |
| ResolverFacts.OptionalExample | includepathestimator/modules/estimateincludepaths.py:344-347 | source `a/b/f`, include `x`, header `a/b/x` give path `a/b` tagged `optional` |
| ResolverFacts.MandatoryExample | includepathestimator/modules/estimateincludepaths.py:340-343 | source `d/f`, include `x`, header `e/x` with `d != e` give path `e` tagged `mandatory` |
| ResolverFacts.AmbiguousExample | includepathestimator/modules/estimateincludepaths.py:330-336 | `../x` against header `a/b/x`, where `a/b` lists `a/b/c` and `a/b/d`, records both in listing order, tagged `ambiguous` |
| Aggregator.AssignTypes | includepathestimator/modules/estimateincludepaths.py:430-438 | a `non_existing` tag changes nothing; otherwise the path's tags gain the tag once, and other paths are unchanged; a `None` path is passed only under `non_existing` |
| Aggregator.AssignAll | includepathestimator/modules/estimateincludepaths.py:449-453 | after one entry, a path is present iff it was before or the entry lists it under a tag other than `non_existing` |
| Aggregator.Tags | includepathestimator/modules/estimateincludepaths.py:441-454 | the aggregated tag lists never repeat a tag and never hold `non_existing` |
| Aggregator.TagsKeys | includepathestimator/modules/estimateincludepaths.py:432-437 | a path is reported iff some entry's first tag is not `non_existing` and its paths list it |
| Aggregator.TagsTypes | includepathestimator/modules/estimateincludepaths.py:427-437 | a reported path's tags are exactly the first tags of the entries that contribute it |
| Aggregator.PathsReport | includepathestimator/modules/estimateincludepaths.py:441-454 | the nested loop computes `Tags` over the entries in traversal order |
| Aggregator.AppendToBucket | includepathestimator/modules/estimateincludepaths.py:464-468 | appending creates the bucket if absent, adds only that path, and keeps a repeat-free bucket repeat-free |
| Aggregator.SortBucket | includepathestimator/modules/estimateincludepaths.py:469-474 | a present bucket becomes sorted with the same elements; absent keys stay absent |
| Aggregator.SortBuckets | includepathestimator/modules/estimateincludepaths.py:469-474 | after the three sorts, every repeat-free bucket is strictly sorted with the same paths |
| Aggregator.Place | includepathestimator/modules/estimateincludepaths.py:462-468 | the path is added to exactly the buckets its tags select, and each bucket stays repeat-free |
| Aggregator.PlaceAll | includepathestimator/modules/estimateincludepaths.py:461-468 | after the loop, each bucket holds exactly the paths it selects, without repeats |
| Aggregator.PathTypesReport | includepathestimator/modules/estimateincludepaths.py:457-475 | a bucket key is present iff some path lands in it, and each bucket is strictly sorted and holds exactly its paths |
| Aggregator.ReportUnique | includepathestimator/modules/estimateincludepaths.py:469-474 | two bucket reports of the same paths are equal, whatever order the paths were visited in |
| Aggregator.BucketPrecedence | includepathestimator/modules/estimateincludepaths.py:463-468 | `mandatory` puts a path only in the mandatory bucket; otherwise it is in optional iff tagged optional and in ambiguous iff tagged ambiguous, so both can hold |
| Aggregator.EveryReportedPathBucketed | includepathestimator/modules/estimateincludepaths.py:441-468 | every path of the aggregated report lands in at least one bucket |
| Aggregator.PathBucketed | includepathestimator/modules/estimateincludepaths.py:463-468 | a path with some tag other than `non_existing` lands in some bucket |
| Aggregator.SameTags | includepathestimator/modules/estimateincludepaths.py:441-454 | entries that contribute the same paths under the same first tags give the same reported paths, each with the same set of tags |
| Aggregator.ReportOfSameContributions | includepathestimator/modules/estimateincludepaths.py:441-475 | the three sorted buckets depend only on which paths the entries contribute under which first tags |
| Aggregator.ReportOfSameTagSets | includepathestimator/modules/estimateincludepaths.py:457-475 | the bucket report depends on each path's tags only as a set: path maps with the same keys and tag sets have the same report |
| Aggregator.ReportOfPermutedRecords | includepathestimator/modules/estimateincludepaths.py:441-475 | visiting the entries in any other order (a permutation) gives the same three sorted buckets |
| Aggregator.ReportOfReorderedListings | includepathestimator/modules/estimateincludepaths.py:246-251 | entries whose path lists differ only in order, as a different `os.scandir` order gives, produce the same three sorted buckets |
| TreeDatabase.IncludeTableFacts | includepathestimator/modules/estimateincludepaths.py:507-513 | a source's include table lists each include of the file once, in ascending order, all still pending |
| TreeDatabase.IncludeTables | includepathestimator/modules/estimateincludepaths.py:510-512 | the loop rebuilds every source's table from its sorted includes |
| TreeDatabase.ResolvedEntryFacts | includepathestimator/modules/estimateincludepaths.py:516-525 | after resolution, every include is resolved with no labels and maps exactly its matching headers |
| TreeDatabase.ResolveIncludes | includepathestimator/modules/estimateincludepaths.py:520-524 | the inner loop gives every include of a source its resolved header database |
| TreeDatabase.ResolveSources | includepathestimator/modules/estimateincludepaths.py:519-524 | the outer loop resolves every source's entry |
| TreeDatabase.LabelledEntryFacts | includepathestimator/modules/estimateincludepaths.py:528-551 | labelling keeps every header database and adds each label exactly when `record_include_types` does, without repeats |
| TreeDatabase.LabelIncludes | includepathestimator/modules/estimateincludepaths.py:533-550 | the inner loop labels every include of a source |
| TreeDatabase.LabelSources | includepathestimator/modules/estimateincludepaths.py:532-550 | the outer loop labels every source's entry |
| TreeDatabase.ResolvedPathsFrom | includepathestimator/modules/estimateincludepaths.py:516-525 | after `record_include_paths`, every include holds exactly the database `include_paths_for_include` computes for it |
| TreeDatabase.LabelledPathsFrom | includepathestimator/modules/estimateincludepaths.py:528-551 | `record_include_types` keeps every computed header database |
| TreeDatabase.EntriesReadable | includepathestimator/modules/estimateincludepaths.py:425-427 | for distinct headers, every entry `paths_report` visits has a first tag, so `path_types[0]` never fails |
| TreeDatabase.ReportableEntries | includepathestimator/modules/estimateincludepaths.py:446-450 | the same, position by position over the traversal order |
| TreeDatabase.ReportedPaths | includepathestimator/modules/estimateincludepaths.py:433-437 | a path is reported iff some entry contributes it |
| TreeDatabase.Database.constructor | includepathestimator/modules/estimateincludepaths.py:491-494 | a database holding only the root, with no sources |
| TreeDatabase.Database.RecordSources | includepathestimator/modules/estimateincludepaths.py:497-504 | the source table becomes the given sources, each once in first-occurrence order, each with an empty entry |
| Common.DedupFirstOccurrence | includepathestimator/modules/estimateincludepaths.py:500-501 | the key order a dict gets from repeated insertions: of two kept sources, the earlier one occurs in the list before any occurrence of the later one |
| TreeDatabase.Database.RecordIncludes | includepathestimator/modules/estimateincludepaths.py:507-513 | every source's include table is rebuilt from its file's sorted distinct includes |
| TreeDatabase.Database.RecordIncludePaths | includepathestimator/modules/estimateincludepaths.py:516-525 | every include of every source gets its resolved header database; root and source order are unchanged |
| TreeDatabase.Database.RecordIncludeTypes | includepathestimator/modules/estimateincludepaths.py:528-551 | every include gets its labels from the allow-list and the internal list; the header databases are unchanged |
| TreeDatabase.Database.Entries | includepathestimator/modules/estimateincludepaths.py:446-450 | the visited entries are exactly the header entries of the database: each is the entry of some source, include and header, and every such entry is visited |
| TreeDatabase.Database.PathsReport | includepathestimator/modules/estimateincludepaths.py:441-454 | a path is reported iff some header entry of some source and include of the database has a first tag other than `non_existing` and lists it, with repeat-free tag lists |

## Findings

| source | as written | input that shows it | evidently intended | confidence | as-written member | corrected member |
|---|---|---|---|---|---|---|
| includepathestimator/estimateincludepaths.py:104 | the include's whole token list, `..` tokens included, is compared with the end of each file path | include `../x.h` with the file list `[a/x.h]`: no file ends in `..`, `x.h`, so the include is listed as external | drop the first `up` tokens before comparing, as the later copy does at includepathestimator/modules/estimateincludepaths.py:217-221; then `../x.h` is internal | medium; not executed | LegacyClassifier.UpReferenceDifference | IncludeClassifier.InternalIncludes |

The rest of the model uses the later `internal_includes`. `IncludeClassifier.IsInternalIff`
and `PathTokens.TailMatchesIff` state its intended property.

## Left out

- Argument parsing, the glob-based `source_files`, console and list printing, the YAML dumper, report writing and timing: these are I/O and formatting.
- `os.scandir`: the directory listing is an input map from a directory to its subdirectory paths, and `is_dir` filtering is assumed done. A candidate missing from the map is excluded by a precondition (`ListingCovers`), because the source does not catch the failure.
- Opening and decoding files in `includes_from_file`: the model takes the file's lines as input. `file.lower()` folds only ASCII letters.
- `identify_main` and `all_main_sources`: main-function detection reads files through `mmap` and is not part of the engine.
- `includes_with_count`: it feeds only a statistics report, and its order depends on tie-breaking in `Counter.most_common`.
- Both `pdsccoverage.py` files, `batch_run.py`, `mbedtls_run.py` and `main_detection.py`: these are not part of this model.
- The empty source list: `record_sources` creates the source table only for a non-empty list, and later reads then fail. `TreeDatabase.Database.RecordSources` requires a non-empty list.
- TreeDatabase.Database.PathsReport: requires every entry to be readable: it has a first tag, because the source fails with an `IndexError` otherwise, and a `None` path occurs only under `non_existing`, because `assign_types` would otherwise add a `None` key, which the string-keyed `PathsMap` cannot hold. `TreeDatabase.ReportableEntries` shows both hold for a duplicate-free header list.
- Aggregator.AssignTypes: requires a `None` path to come with the `non_existing` tag (and `Aggregator.AssignAll` the same of its entry), the only way the resolver records one; `assign_types` on a `None` path under another tag would add a `None` key, which is not modelled.
- Aggregator.PathsReport: the source walks four nested loops (sources, includes, headers, paths); the model walks the flattened entry sequence in the same order (`TreeDatabase.Database.Entries`).
- Aggregator.PlaceAll: the source visits paths in dict insertion order; the model visits them in an arbitrary order. The final sort makes the result the same (`Aggregator.ReportUnique`).
- PathTokens.Parent: models `PurePath.parent` only for paths without repeated or trailing separators and without `.` tokens.
- `get_root` takes the first database key. The model keeps the root as a field of the database class.
