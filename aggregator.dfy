/** The reports of includepathestimator/modules/estimateincludepaths.py:
    `paths_report` with `assign_types` and `get_include_types` (422-454)
    folds every header entry of the database into a map from include path
    to the tags it was found with; `path_types_report` (457-475) sorts those
    paths into the mandatory, optional and ambiguous buckets. */
module Aggregator {
  import opened Common
  import opened StringOrder
  import opened PathResolver

  /** The `paths` dict: include path to its `types` list. */
  type PathsMap = map<string, seq<PathType>>

  /** The tag-bucketed report: `report[tag]` for the three reported tags. */
  type Report = map<PathType, seq<string>>

  /** An entry `paths_report` can read: `path_types[0]` exists, and a `None`
      path occurs only under the `non_existing` tag, whose paths are skipped. */
  predicate Readable(rec: Record) {
    |rec.pathTypes| >= 1 && (None in rec.includePaths ==> rec.pathTypes[0] == NonExisting)
  }

  /** The entry adds `p` under its first tag (`get_include_types`); the test
      `"non_existing" not in path_type` is a substring test on the tag name,
      which of the four names only `non_existing` fails. */
  predicate Contributes(rec: Record, p: string) {
    |rec.pathTypes| >= 1 && rec.pathTypes[0] != NonExisting && Some(p) in rec.includePaths
  }

  /** Every tag list of the map is duplicate-free and has no `non_existing`. */
  predicate CleanTags(paths: PathsMap) {
    forall p :: p in paths ==> Distinct(paths[p]) && NonExisting !in paths[p]
  }

  /** `assign_types` for one path of an entry whose first tag is `pathType`.
      A `None` path is only ever recorded under `non_existing`, which is
      skipped before the path is looked at. */
  function AssignTypes(paths: PathsMap, pathType: PathType, path: Option<string>): (r: PathsMap)
    requires pathType == NonExisting || path.Some?
    ensures pathType == NonExisting ==> r == paths
    ensures pathType != NonExisting ==>
              r.Keys == paths.Keys + {path.value} &&
              (forall t :: t in r[path.value] <==> t == pathType || (path.value in paths && t in paths[path.value])) &&
              (forall p :: p in paths && p != path.value ==> r[p] == paths[p])
    ensures CleanTags(paths) ==> CleanTags(r)
  {
    if pathType == NonExisting then paths
    else
      var p := path.value;
      var types := if p in paths then paths[p] else [];
      paths[p := AppendNew(types, pathType)]
  }

  /** The paths of one entry, in order, assigned under the entry's tag. */
  function AssignAll(paths: PathsMap, pathType: PathType, includePaths: seq<Option<string>>): (r: PathsMap)
    requires None in includePaths ==> pathType == NonExisting
    ensures forall p :: p in r <==> p in paths || (pathType != NonExisting && Some(p) in includePaths)
    ensures forall p, t :: p in r ==>
              (t in r[p] <==> (p in paths && t in paths[p]) ||
                              (pathType != NonExisting && Some(p) in includePaths && t == pathType))
    ensures CleanTags(paths) ==> CleanTags(r)
  {
    if includePaths == [] then paths
    else
      var prefix := includePaths[..|includePaths| - 1];
      var last := includePaths[|includePaths| - 1];
      assert forall o :: o in includePaths <==> o in prefix || o == last;
      AssignTypes(AssignAll(paths, pathType, prefix), pathType, last)
  }

  /** The `paths` dict after the given entries, in database order. */
  function Tags(records: seq<Record>): (r: PathsMap)
    requires forall i :: 0 <= i < |records| ==> Readable(records[i])
    ensures CleanTags(r)
  {
    if records == [] then map[]
    else
      var last := records[|records| - 1];
      assert Readable(records[|records| - 1]);
      AssignAll(Tags(records[..|records| - 1]), last.pathTypes[0], last.includePaths)
  }

  /** A path is in `paths_report` iff some entry contributes it. */
  lemma {:induction false} TagsKeys(records: seq<Record>, p: string)
    requires forall i :: 0 <= i < |records| ==> Readable(records[i])
    ensures p in Tags(records) <==> exists i :: 0 <= i < |records| && Contributes(records[i], p)
  {
    if records != [] {
      var n := |records| - 1;
      var prefix := records[..n];
      TagsKeys(prefix, p);
      if p in Tags(prefix) {
        var i :| 0 <= i < |prefix| && Contributes(prefix[i], p);
        assert records[i] == prefix[i];
      }
      if exists i :: 0 <= i < |records| && Contributes(records[i], p) {
        var i :| 0 <= i < |records| && Contributes(records[i], p);
        if i < n {
          assert prefix[i] == records[i];
        }
      }
    }
  }

  /** The tags of a reported path are exactly the first tags of the entries
      that contribute it. */
  lemma {:induction false} TagsTypes(records: seq<Record>, p: string, t: PathType)
    requires forall i :: 0 <= i < |records| ==> Readable(records[i])
    requires p in Tags(records)
    ensures t in Tags(records)[p] <==>
              exists i :: 0 <= i < |records| && Contributes(records[i], p) && records[i].pathTypes[0] == t
  {
    var n := |records| - 1;
    var prefix := records[..n];
    var last := records[n];
    if p in Tags(prefix) {
      TagsTypes(prefix, p, t);
      if t in Tags(prefix)[p] {
        var i :| 0 <= i < |prefix| && Contributes(prefix[i], p) && prefix[i].pathTypes[0] == t;
        assert records[i] == prefix[i];
      }
    }
    if exists i :: 0 <= i < |records| && Contributes(records[i], p) && records[i].pathTypes[0] == t {
      var i :| 0 <= i < |records| && Contributes(records[i], p) && records[i].pathTypes[0] == t;
      if i < n {
        assert prefix[i] == records[i];
        TagsKeys(prefix, p);
      }
    }
  }

  /** `paths_report` over the entries of the database, in traversal order. */
  method PathsReport(records: seq<Record>) returns (paths: PathsMap)
    requires forall i :: 0 <= i < |records| ==> Readable(records[i])
    ensures paths == Tags(records)
  {
    paths := map[];
    for i := 0 to |records|
      invariant paths == Tags(records[..i])
    {
      TakeStep(records, i);
      var rec := records[i];
      var pathType := rec.pathTypes[0];
      for j := 0 to |rec.includePaths|
        invariant paths == AssignAll(Tags(records[..i]), pathType, rec.includePaths[..j])
      {
        TakeStep(rec.includePaths, j);
        paths := AssignTypes(paths, pathType, rec.includePaths[j]);
      }
      assert rec.includePaths[..|rec.includePaths|] == rec.includePaths;
    }
    assert records[..|records|] == records;
  }

  /** The bucket a tag list lands in: mandatory dominates; without it, the
      optional and the ambiguous bucket each take their tag. */
  predicate InBucket(types: seq<PathType>, bucket: PathType) {
    match bucket
    case Mandatory => Mandatory in types
    case Optional => Optional in types && Mandatory !in types
    case Ambiguous => Ambiguous in types && Mandatory !in types
    case NonExisting => false
  }

  /** `report` is the bucket report of `paths`: a bucket key is present iff
      some path lands in that bucket, and each bucket lists exactly those
      paths, sorted and each once. */
  ghost predicate IsBucketReport(paths: PathsMap, report: Report) {
    (forall b :: b in report <==> exists p :: p in paths && InBucket(paths[p], b)) &&
    (forall b :: b in report ==> StrictlySorted(report[b]) && BucketHolds(paths, b, report[b]))
  }

  /** `bucket` lists exactly the paths that land in it. */
  ghost predicate BucketHolds(paths: PathsMap, b: PathType, bucket: seq<string>) {
    forall p :: p in bucket <==> p in paths && InBucket(paths[p], b)
  }

  /** `report[bucket].append(path)` on the `defaultdict(list)`. */
  function AppendToBucket(report: Report, bucket: PathType, path: string): (r: Report)
    ensures r.Keys == report.Keys + {bucket}
    ensures forall p :: p in r[bucket] <==> p == path || (bucket in report && p in report[bucket])
    ensures bucket in report && Distinct(report[bucket]) && path !in report[bucket] ==> Distinct(r[bucket])
    ensures forall b :: b in report && b != bucket ==> r[b] == report[b]
  {
    report[bucket := (if bucket in report then report[bucket] else []) + [path]]
  }

  /** `report[bucket] = sorted(report[bucket])` when the key is present. */
  function SortBucket(report: Report, bucket: PathType): (r: Report)
    ensures r.Keys == report.Keys
    ensures bucket in report ==> Sorted(r[bucket]) && multiset(r[bucket]) == multiset(report[bucket])
    ensures forall b :: b in report && b != bucket ==> r[b] == report[b]
  {
    if bucket in report then report[bucket := Sort(report[bucket])] else report
  }

  /** The three sorts that end `path_types_report`: every bucket of
      duplicate-free paths becomes strictly sorted, with the same paths. */
  function SortBuckets(report: Report): (r: Report)
    requires NonExisting !in report
    requires forall b :: b in report ==> Distinct(report[b])
    ensures r.Keys == report.Keys
    ensures forall b :: b in r ==> StrictlySorted(r[b])
    ensures forall b, p :: b in r ==> (p in r[b] <==> p in report[b])
  {
    var r := SortBucket(SortBucket(SortBucket(report, Mandatory), Optional), Ambiguous);
    forall b | b in r
      ensures StrictlySorted(r[b])
      ensures forall p :: p in r[b] <==> p in report[b]
    {
      assert multiset(r[b]) == multiset(report[b]);
      SortOfDistinctSorted(r[b], report[b]);
    }
    r
  }

  /** One turn of the loop of `path_types_report`: the path is appended to
      every bucket its tag list lands in. */
  function Place(report: Report, types: seq<PathType>, path: string): (r: Report)
    ensures forall b :: b in r <==> b in report || InBucket(types, b)
    ensures forall b, p :: b in r ==>
              (p in r[b] <==> (b in report && p in report[b]) || (p == path && InBucket(types, b)))
    ensures forall b :: b in report && path !in report[b] && Distinct(report[b]) ==> Distinct(r[b])
    ensures forall b :: b !in report && b in r ==> Distinct(r[b])
  {
    var r1 := if Mandatory in types then AppendToBucket(report, Mandatory, path) else report;
    var r2 := if Optional in types && Mandatory !in types then AppendToBucket(r1, Optional, path) else r1;
    if Ambiguous in types && Mandatory !in types then AppendToBucket(r2, Ambiguous, path) else r2
  }

  /** `path_types_report`: the loop that places every path, then the sort
      of each bucket. */
  method PathTypesReport(paths: PathsMap) returns (report: Report)
    ensures IsBucketReport(paths, report)
  {
    var unsorted := PlaceAll(paths);
    CollectedClean(paths, paths.Keys, unsorted);
    report := SortBuckets(unsorted);
    CollectedAll(paths, unsorted, report);
  }

  /** The loop of `path_types_report`. The source walks the dict in
      insertion order; the walk here takes the paths in any order, which the
      final sort erases. */
  method PlaceAll(paths: PathsMap) returns (report: Report)
    ensures Collected(paths, paths.Keys, report)
  {
    report := map[];
    var remaining := paths.Keys;
    ghost var done: set<string> := {};
    while remaining != {}
      invariant remaining + done == paths.Keys && remaining !! done
      invariant Collected(paths, done, report)
      decreases |remaining|
    {
      var path :| path in remaining;
      CollectedStep(paths, done, report, path);
      report := Place(report, paths[path], path);
      remaining := remaining - {path};
      done := done + {path};
    }
  }

  /** No bucket is keyed `non_existing` and no bucket repeats a path. */
  lemma CollectedClean(paths: PathsMap, done: set<string>, report: Report)
    requires Collected(paths, done, report)
    ensures NonExisting !in report
    ensures forall b :: b in report ==> Distinct(report[b])
  {
  }

  /** The buckets after the paths of `done` have been placed, before sorting. */
  ghost predicate Collected(paths: PathsMap, done: set<string>, report: Report) {
    CollectedKeys(paths, done, report) && CollectedDistinct(report) && CollectedPaths(paths, done, report)
  }

  /** A bucket is present iff some placed path lands in it. */
  ghost predicate CollectedKeys(paths: PathsMap, done: set<string>, report: Report) {
    forall b :: b in report <==> exists p :: p in done && p in paths && InBucket(paths[p], b)
  }

  predicate CollectedDistinct(report: Report) {
    forall b :: b in report ==> Distinct(report[b])
  }

  /** Each bucket holds exactly the placed paths that land in it. */
  ghost predicate CollectedPaths(paths: PathsMap, done: set<string>, report: Report) {
    forall b :: b in report ==> PlacedIn(paths, done, b, report[b])
  }

  /** `bucket` holds exactly the paths of `done` that land in `b`. */
  ghost predicate PlacedIn(paths: PathsMap, done: set<string>, b: PathType, bucket: seq<string>) {
    forall p :: p in bucket <==> p in done && p in paths && InBucket(paths[p], b)
  }

  lemma CollectedStep(paths: PathsMap, done: set<string>, report: Report, path: string)
    requires Collected(paths, done, report)
    requires path in paths && path !in done
    ensures Collected(paths, done + {path}, Place(report, paths[path], path))
  {
    CollectedKeysStep(paths, done, report, path);
    CollectedDistinctStep(paths, done, report, path);
    CollectedPathsStep(paths, done, report, path);
  }

  lemma CollectedKeysStep(paths: PathsMap, done: set<string>, report: Report, path: string)
    requires CollectedKeys(paths, done, report)
    requires path in paths
    ensures CollectedKeys(paths, done + {path}, Place(report, paths[path], path))
  {
    var r := Place(report, paths[path], path);
    forall b ensures b in r <==> exists p :: p in done + {path} && p in paths && InBucket(paths[p], b) {
      if InBucket(paths[path], b) {
        assert path in done + {path};
      }
    }
  }

  lemma CollectedDistinctStep(paths: PathsMap, done: set<string>, report: Report, path: string)
    requires CollectedDistinct(report) && CollectedPaths(paths, done, report)
    requires path in paths && path !in done
    ensures CollectedDistinct(Place(report, paths[path], path))
  {
  }

  lemma CollectedPathsStep(paths: PathsMap, done: set<string>, report: Report, path: string)
    requires CollectedKeys(paths, done, report) && CollectedPaths(paths, done, report)
    requires path in paths
    ensures CollectedPaths(paths, done + {path}, Place(report, paths[path], path))
  {
    var r := Place(report, paths[path], path);
    forall b | b in r
      ensures PlacedIn(paths, done + {path}, b, r[b])
    {
      forall p ensures p in r[b] <==> p in done + {path} && p in paths && InBucket(paths[p], b) {
        CollectedPathAt(paths, done, report, path, b, p);
      }
    }
  }

  /** The step above for one bucket and one path. */
  lemma CollectedPathAt(paths: PathsMap, done: set<string>, report: Report, path: string,
                        b: PathType, p: string)
    requires CollectedKeys(paths, done, report) && CollectedPaths(paths, done, report)
    requires path in paths && b in Place(report, paths[path], path)
    ensures p in Place(report, paths[path], path)[b] <==>
              p in done + {path} && p in paths && InBucket(paths[p], b)
  {
    if b !in report {
      assert !exists q :: q in done && q in paths && InBucket(paths[q], b);
    }
  }

  lemma CollectedAll(paths: PathsMap, unsorted: Report, report: Report)
    requires Collected(paths, paths.Keys, unsorted)
    requires report.Keys == unsorted.Keys
    requires forall b :: b in report ==> StrictlySorted(report[b])
    requires forall b, p :: b in report ==> (p in report[b] <==> p in unsorted[b])
    ensures IsBucketReport(paths, report)
  {
    forall b | b in report
      ensures BucketHolds(paths, b, report[b])
    {
      assert PlacedIn(paths, paths.Keys, b, unsorted[b]);
    }
  }

  /** A sorted list with the elements of a duplicate-free one is strictly sorted. */
  lemma SortOfDistinctSorted(s: seq<string>, d: seq<string>)
    requires Sorted(s) && Distinct(d) && multiset(s) == multiset(d)
    ensures StrictlySorted(s)
    ensures forall p :: p in s <==> p in d
  {
    DistinctByMultiset(d);
    DistinctByMultiset(s);
    assert forall p :: p in s <==> p in multiset(s);
    assert forall p :: p in d <==> p in multiset(d);
  }

  /** The bucket report does not depend on how it was built: two reports of
      the same paths are equal, whatever order the paths were visited in. */
  lemma ReportUnique(paths: PathsMap, r1: Report, r2: Report)
    requires IsBucketReport(paths, r1) && IsBucketReport(paths, r2)
    ensures r1 == r2
  {
    forall b ensures b in r1 <==> b in r2 {
      assert b in r1 <==> exists p :: p in paths && InBucket(paths[p], b);
    }
    forall b | b in r1 ensures r1[b] == r2[b] {
      BucketUnique(paths, b, r1[b], r2[b]);
    }
  }

  /** A bucket is determined by the paths: two strictly sorted lists of
      exactly its paths are equal. */
  lemma BucketUnique(paths: PathsMap, b: PathType, s1: seq<string>, s2: seq<string>)
    requires StrictlySorted(s1) && BucketHolds(paths, b, s1)
    requires StrictlySorted(s2) && BucketHolds(paths, b, s2)
    ensures s1 == s2
  {
    forall x ensures x in s1 <==> x in s2 {
      assert x in s1 <==> x in paths && InBucket(paths[x], b);
    }
    StrictlySortedUnique(s1, s2);
  }

  /** Mandatory dominates: a path tagged mandatory is in the mandatory bucket
      and in no other; a path without it is in the optional bucket iff it is
      tagged optional and in the ambiguous bucket iff it is tagged ambiguous,
      so it may be in both. */
  lemma BucketPrecedence(paths: PathsMap, report: Report, p: string)
    requires IsBucketReport(paths, report)
    requires p in paths
    ensures Mandatory in paths[p] ==>
              Mandatory in report && p in report[Mandatory] &&
              (Optional in report ==> p !in report[Optional]) &&
              (Ambiguous in report ==> p !in report[Ambiguous])
    ensures Mandatory !in paths[p] ==>
              (Optional in paths[p] <==> Optional in report && p in report[Optional]) &&
              (Ambiguous in paths[p] <==> Ambiguous in report && p in report[Ambiguous])
    ensures NonExisting !in report
  {
    if Mandatory in paths[p] {
      assert InBucket(paths[p], Mandatory);
    }
    if Optional in paths[p] && Mandatory !in paths[p] {
      assert InBucket(paths[p], Optional);
    }
    if Ambiguous in paths[p] && Mandatory !in paths[p] {
      assert InBucket(paths[p], Ambiguous);
    }
  }

  /** Every path of `paths_report` lands in some bucket: its tags are drawn
      from the three reported ones and it has at least one. */
  lemma EveryReportedPathBucketed(records: seq<Record>, report: Report, p: string)
    requires forall i :: 0 <= i < |records| ==> Readable(records[i])
    requires IsBucketReport(Tags(records), report)
    requires p in Tags(records)
    ensures exists b :: b in report && p in report[b]
  {
    var paths := Tags(records);
    TagsKeys(records, p);
    var i :| 0 <= i < |records| && Contributes(records[i], p);
    TagsTypes(records, p, records[i].pathTypes[0]);
    PathBucketed(paths, report, p);
  }

  /** A path with a tag other than `non_existing` lands in some bucket. */
  lemma PathBucketed(paths: PathsMap, report: Report, p: string)
    requires IsBucketReport(paths, report)
    requires p in paths && CleanTags(paths) && paths[p] != []
    ensures exists b :: b in report && p in report[b]
  {
    var t := paths[p][0];
    assert t in paths[p] && t != NonExisting;
    var b := if Mandatory in paths[p] then Mandatory else t;
    assert InBucket(paths[p], b);
    assert b in report;
    assert BucketHolds(paths, b, report[b]);
  }

  /** Some entry contributes `p` under first tag `t`. */
  ghost predicate ContributedAs(records: seq<Record>, p: string, t: PathType) {
    exists i :: 0 <= i < |records| && Contributes(records[i], p) && records[i].pathTypes[0] == t
  }

  /** The two entry sequences contribute the same paths under the same tags. */
  ghost predicate SameContributions(r1: seq<Record>, r2: seq<Record>) {
    forall p, t :: ContributedAs(r1, p, t) <==> ContributedAs(r2, p, t)
  }

  /** Entries that contribute alike give the same reported paths, each with
      the same set of tags (the tag lists may differ in order). */
  lemma SameTags(r1: seq<Record>, r2: seq<Record>)
    requires forall i :: 0 <= i < |r1| ==> Readable(r1[i])
    requires forall i :: 0 <= i < |r2| ==> Readable(r2[i])
    requires SameContributions(r1, r2)
    ensures forall p :: p in Tags(r1) <==> p in Tags(r2)
    ensures forall p, t :: p in Tags(r1) ==> (t in Tags(r1)[p] <==> t in Tags(r2)[p])
  {
    forall p ensures p in Tags(r1) <==> p in Tags(r2) {
      TagsKeys(r1, p);
      TagsKeys(r2, p);
      if p in Tags(r1) {
        var i :| 0 <= i < |r1| && Contributes(r1[i], p);
        assert ContributedAs(r1, p, r1[i].pathTypes[0]);
      }
      if p in Tags(r2) {
        var j :| 0 <= j < |r2| && Contributes(r2[j], p);
        assert ContributedAs(r2, p, r2[j].pathTypes[0]);
      }
    }
    forall p, t | p in Tags(r1) ensures t in Tags(r1)[p] <==> t in Tags(r2)[p] {
      TagsTypes(r1, p, t);
      TagsTypes(r2, p, t);
      assert ContributedAs(r1, p, t) <==> ContributedAs(r2, p, t);
    }
  }

  /** The bucket report depends only on what the entries contribute: it is
      the same for any two entry sequences that contribute alike. */
  lemma ReportOfSameContributions(r1: seq<Record>, r2: seq<Record>, report: Report)
    requires forall i :: 0 <= i < |r1| ==> Readable(r1[i])
    requires forall i :: 0 <= i < |r2| ==> Readable(r2[i])
    requires SameContributions(r1, r2)
    requires IsBucketReport(Tags(r1), report)
    ensures IsBucketReport(Tags(r2), report)
  {
    SameTags(r1, r2);
    ReportOfSameTagSets(Tags(r1), Tags(r2), report);
  }

  /** Two path maps with the same keys and the same tag sets per path have
      the same bucket report. */
  lemma ReportOfSameTagSets(t1: PathsMap, t2: PathsMap, report: Report)
    requires forall p :: p in t1 <==> p in t2
    requires forall p, t :: p in t1 ==> (t in t1[p] <==> t in t2[p])
    requires IsBucketReport(t1, report)
    ensures IsBucketReport(t2, report)
  {
    forall p, b | p in t1 ensures InBucket(t1[p], b) <==> InBucket(t2[p], b) {
      assert Mandatory in t1[p] <==> Mandatory in t2[p];
      assert Optional in t1[p] <==> Optional in t2[p];
      assert Ambiguous in t1[p] <==> Ambiguous in t2[p];
    }
    forall b ensures b in report <==> exists p :: p in t2 && InBucket(t2[p], b) {
      if b in report {
        var p :| p in t1 && InBucket(t1[p], b);
        assert p in t2 && InBucket(t2[p], b);
      }
      if exists p :: p in t2 && InBucket(t2[p], b) {
        var p :| p in t2 && InBucket(t2[p], b);
        assert p in t1 && InBucket(t1[p], b);
      }
    }
    forall b | b in report ensures BucketHolds(t2, b, report[b]) {
      assert BucketHolds(t1, b, report[b]);
    }
  }

  /** Reordering the entries (the order sources, includes and headers are
      visited in) leaves the three sorted buckets unchanged. */
  lemma ReportOfPermutedRecords(r1: seq<Record>, r2: seq<Record>, report: Report)
    requires forall i :: 0 <= i < |r1| ==> Readable(r1[i])
    requires forall i :: 0 <= i < |r2| ==> Readable(r2[i])
    requires multiset(r1) == multiset(r2)
    requires IsBucketReport(Tags(r1), report)
    ensures IsBucketReport(Tags(r2), report)
  {
    forall p, t ensures ContributedAs(r1, p, t) <==> ContributedAs(r2, p, t) {
      if ContributedAs(r1, p, t) {
        var i :| 0 <= i < |r1| && Contributes(r1[i], p) && r1[i].pathTypes[0] == t;
        assert r1[i] in multiset(r2);
        var j :| 0 <= j < |r2| && r2[j] == r1[i];
      }
      if ContributedAs(r2, p, t) {
        var j :| 0 <= j < |r2| && Contributes(r2[j], p) && r2[j].pathTypes[0] == t;
        assert r2[j] in multiset(r1);
        var i :| 0 <= i < |r1| && r1[i] == r2[j];
      }
    }
    ReportOfSameContributions(r1, r2, report);
  }

  /** Entries that differ only in the order their paths are listed (as a
      different `os.scandir` order gives an ambiguous entry) leave the three
      sorted buckets unchanged: position by position, the first tag and the
      set of listed paths agree. */
  lemma ReportOfReorderedListings(r1: seq<Record>, r2: seq<Record>, report: Report)
    requires forall i :: 0 <= i < |r1| ==> Readable(r1[i])
    requires |r1| == |r2|
    requires forall i :: 0 <= i < |r2| ==>
               |r1[i].pathTypes| >= 1 && |r2[i].pathTypes| >= 1 && r2[i].pathTypes[0] == r1[i].pathTypes[0]
    requires forall i, o :: 0 <= i < |r1| ==> (o in r1[i].includePaths <==> o in r2[i].includePaths)
    requires IsBucketReport(Tags(r1), report)
    ensures IsBucketReport(Tags(r2), report)
  {
    forall i | 0 <= i < |r2| ensures Readable(r2[i]) {
      assert None in r2[i].includePaths ==> None in r1[i].includePaths;
    }
    forall p, t ensures ContributedAs(r1, p, t) <==> ContributedAs(r2, p, t) {
      if ContributedAs(r1, p, t) {
        var i :| 0 <= i < |r1| && Contributes(r1[i], p) && r1[i].pathTypes[0] == t;
        assert Contributes(r2[i], p);
      }
      if ContributedAs(r2, p, t) {
        var i :| 0 <= i < |r2| && Contributes(r2[i], p) && r2[i].pathTypes[0] == t;
        assert Contributes(r1[i], p);
      }
    }
    ReportOfSameContributions(r1, r2, report);
  }
}
