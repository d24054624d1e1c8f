/** The resolver of includepathestimator/modules/estimateincludepaths.py:
    `include_paths_for_include` (306-349) and the helpers that build its
    per-header database (`record_header`, `record_ambiguous_paths`,
    `record_optional_paths`, `record_mandatory_paths`, 260-303) and list the
    folders an upward reference can reach (`up_level_references_folders`,
    241-257). The directory listing `os.scandir` would read is an input: a
    map from a directory to the paths of its immediate subdirectories. */
module PathResolver {
  import opened Common
  import opened PathTokens

  /** The tags `path_types` holds: "mandatory", "optional", "ambiguous", "non_existing". */
  datatype PathType = Mandatory | Optional | Ambiguous | NonExisting

  /** One header's entry: `include_paths` (`None` is `Option.None`) and `path_types`. */
  datatype Record = Record(includePaths: seq<Option<string>>, pathTypes: seq<PathType>)

  /** The database of one resolution: its keys in insertion order, and the entries. */
  datatype HeaderRecords = HeaderRecords(order: seq<string>, records: map<string, Record>)

  const Empty := HeaderRecords([], map[])

  /** The key order lists each key of the map exactly once. */
  ghost predicate OrderAgrees(db: HeaderRecords) {
    Distinct(db.order) && forall h :: h in db.order <==> h in db.records
  }

  /** `record_header`: a new header starts with no paths; any header's tags
      are reset to none (its `"path_notes"` test never finds that key). */
  function RecordHeader(db: HeaderRecords, header: string): (r: HeaderRecords)
    ensures header in r.records && r.records[header].pathTypes == []
    ensures r.records[header].includePaths ==
            (if header in db.records then db.records[header].includePaths else [])
    ensures r.order == AppendNew(db.order, header)
    ensures forall h :: h != header ==> (h in r.records <==> h in db.records)
    ensures forall h :: h != header && h in db.records ==> r.records[h] == db.records[h]
  {
    var paths := if header in db.records then db.records[header].includePaths else [];
    HeaderRecords(AppendNew(db.order, header), db.records[header := Record(paths, [])])
  }

  function Somes(paths: seq<string>): (r: seq<Option<string>>)
    ensures |r| == |paths|
    ensures forall i :: 0 <= i < |paths| ==> r[i] == Some(paths[i])
  {
    seq(|paths|, i requires 0 <= i < |paths| => Some(paths[i]))
  }

  /** `record_ambiguous_paths`: without reachable folders the header gets a
      `None` path and the `non_existing` tag; otherwise its paths become
      those folders and it gets the `ambiguous` tag. */
  function RecordAmbiguousPaths(db: HeaderRecords, ambiguousPaths: seq<string>, header: string): (r: HeaderRecords)
    requires header in db.records
    ensures r.order == db.order && r.records.Keys == db.records.Keys
    ensures forall h :: h != header && h in db.records ==> r.records[h] == db.records[h]
    ensures var old_ := db.records[header]; var new_ := r.records[header];
            if ambiguousPaths == [] then
              new_.includePaths == old_.includePaths + [None] &&
              new_.pathTypes == AppendNew(old_.pathTypes, NonExisting)
            else
              new_.includePaths == Somes(ambiguousPaths) &&
              new_.pathTypes == AppendNew(old_.pathTypes, Ambiguous)
  {
    var rec := db.records[header];
    var updated :=
      if ambiguousPaths == [] then Record(rec.includePaths + [None], AppendNew(rec.pathTypes, NonExisting))
      else Record(Somes(ambiguousPaths), AppendNew(rec.pathTypes, Ambiguous));
    HeaderRecords(db.order, db.records[header := updated])
  }

  /** `record_optional_paths` (tag `Optional`) and `record_mandatory_paths`
      (tag `Mandatory`): a candidate new to the header is appended together
      with the tag; a known candidate changes nothing. */
  function RecordDirectPath(db: HeaderRecords, candidate: string, header: string, tag: PathType): (r: HeaderRecords)
    requires header in db.records
    ensures r.order == db.order && r.records.Keys == db.records.Keys
    ensures forall h :: h != header && h in db.records ==> r.records[h] == db.records[h]
    ensures var old_ := db.records[header]; var new_ := r.records[header];
            if Some(candidate) in old_.includePaths then new_ == old_
            else new_.includePaths == old_.includePaths + [Some(candidate)] &&
                 new_.pathTypes == AppendNew(old_.pathTypes, tag)
  {
    var rec := db.records[header];
    if Some(candidate) in rec.includePaths then db
    else HeaderRecords(db.order, db.records[header := Record(rec.includePaths + [Some(candidate)], AppendNew(rec.pathTypes, tag))])
  }

  /** The depth window of `up_level_references_folders`: more tokens than the
      header's folder, and at most `up` more. */
  predicate InWindow(path: string, headerLength: nat, up: nat) {
    var d := |Split(path)|;
    var origin := headerLength - 1;
    d > origin && d <= origin + up
  }

  /** The folders the loop of `up_level_references_folders` collects from a
      listing: the ones in the window, each at its first occurrence. */
  function InScopeFolders(subfolders: seq<string>, headerLength: nat, up: nat): (r: seq<string>)
    ensures forall p :: p in r <==> p in subfolders && InWindow(p, headerLength, up)
  {
    if subfolders == [] then []
    else
      var r := InScopeFolders(subfolders[..|subfolders| - 1], headerLength, up);
      var p := subfolders[|subfolders| - 1];
      assert forall q :: q in subfolders <==> q in subfolders[..|subfolders| - 1] || q == p;
      if InWindow(p, headerLength, up) then AppendNew(r, p) else r
  }

  /** The collected folders never repeat. */
  lemma {:induction false} InScopeDistinct(subfolders: seq<string>, headerLength: nat, up: nat)
    ensures Distinct(InScopeFolders(subfolders, headerLength, up))
  {
    if subfolders != [] {
      var prefix := subfolders[..|subfolders| - 1];
      InScopeDistinct(prefix, headerLength, up);
      AppendNewDistinct(InScopeFolders(prefix, headerLength, up), subfolders[|subfolders| - 1]);
    }
  }

  /** A listing never repeats an entry; then the result is exactly the
      in-window folders in listing order. */
  lemma {:induction false} InScopeOfDistinctListing(subfolders: seq<string>, headerLength: nat, up: nat)
    requires Distinct(subfolders)
    ensures InScopeFolders(subfolders, headerLength, up) == Filter(subfolders, p => InWindow(p, headerLength, up))
  {
    if subfolders != [] {
      var prefix := subfolders[..|subfolders| - 1];
      InScopeOfDistinctListing(prefix, headerLength, up);
      assert subfolders[|subfolders| - 1] !in prefix;
    }
  }

  /** `up_level_references_folders` with `os.scandir(candidate)` read from
      `listing`; the source does not handle a folder that cannot be listed. */
  method UpLevelReferencesFolders(candidate: string, up: nat, headerTokens: seq<string>,
                                  listing: map<string, seq<string>>) returns (ambiguousPaths: seq<string>)
    requires candidate in listing
    ensures ambiguousPaths == InScopeFolders(listing[candidate], |headerTokens|, up)
    ensures Distinct(ambiguousPaths)
    ensures forall p :: p in ambiguousPaths <==> p in listing[candidate] && InWindow(p, |headerTokens|, up)
  {
    ambiguousPaths := [];
    var subfolders := listing[candidate];
    for i := 0 to |subfolders|
      invariant ambiguousPaths == InScopeFolders(subfolders[..i], |headerTokens|, up)
    {
      TakeStep(subfolders, i);
      var path := subfolders[i];
      var pathTokens := Split(path);
      var originPathLength := |headerTokens| - 1;
      if |pathTokens| > originPathLength && |pathTokens| <= originPathLength + up {
        if path !in ambiguousPaths {
          ambiguousPaths := ambiguousPaths + [path];
        }
      }
    }
    assert subfolders[..|subfolders|] == subfolders;
    InScopeDistinct(subfolders, |headerTokens|, up);
  }

  /** Every matching header, when the include has `..` tokens, derives a
      candidate folder that the listing covers. */
  predicate ListingCovers(inc: string, headers: seq<string>, listing: map<string, seq<string>>) {
    UpCount(Split(inc)) > 0 ==>
      forall h :: h in headers && TailMatches(h, inc) ==> Candidate(h, inc) in listing
  }

  /** `header_tokens[:-1] == source_tokens[:-1]`: same folder tokens. */
  predicate SameFolder(header: string, source: string) {
    SameFolderTokens(Split(header), Split(source))
  }

  predicate SameFolderTokens(headerTokens: seq<string>, sourceTokens: seq<string>) {
    SliceTo(headerTokens, -1) == SliceTo(sourceTokens, -1)
  }

  /** A prefix of the headers is covered when all of them are. */
  lemma ListingCoversPrefix(inc: string, headers: seq<string>, i: nat, listing: map<string, seq<string>>)
    requires i <= |headers|
    requires ListingCovers(inc, headers, listing)
    ensures ListingCovers(inc, headers[..i], listing)
  {
    assert forall h :: h in headers[..i] ==> h in headers;
  }

  /** Extending the headers by one runs one more turn of the header loop. */
  lemma ResolveStep(source: string, inc: string, headers: seq<string>, i: nat,
                    listing: map<string, seq<string>>)
    requires i < |headers| && ListingCovers(inc, headers, listing)
    ensures ListingCovers(inc, headers[..i], listing)
    ensures UpCount(Split(inc)) > 0 && TailMatches(headers[i], inc) ==> Candidate(headers[i], inc) in listing
    ensures Resolve(source, inc, headers[..i + 1], listing) ==
            ResolveHeader(Resolve(source, inc, headers[..i], listing), source, inc, headers[i], listing)
  {
    TakeStep(headers, i);
    ListingCoversPrefix(inc, headers, i, listing);
    ListingCoversPrefix(inc, headers, i + 1, listing);
    assert headers[i] in headers;
  }

  /** One turn of the header loop (316-348). */
  function ResolveHeader(db: HeaderRecords, source: string, inc: string, header: string,
                         listing: map<string, seq<string>>): (r: HeaderRecords)
    requires UpCount(Split(inc)) > 0 && TailMatches(header, inc) ==> Candidate(header, inc) in listing
    ensures !TailMatches(header, inc) ==> r == db
    ensures TailMatches(header, inc) ==> header in r.records && r.order == AppendNew(db.order, header)
    ensures forall h :: h != header ==> (h in r.records <==> h in db.records)
    ensures forall h :: h != header && h in db.records ==> r.records[h] == db.records[h]
  {
    if !TailMatches(header, inc) then db
    else
      var up := UpCount(Split(inc));
      var candidate := Candidate(header, inc);
      var db1 := RecordHeader(db, header);
      if up > 0 then
        RecordAmbiguousPaths(db1, InScopeFolders(listing[candidate], |Split(header)|, up), header)
      else if !SameFolder(header, source) then RecordDirectPath(db1, candidate, header, Mandatory)
      else RecordDirectPath(db1, candidate, header, Optional)
  }

  /** The database `include_paths_for_include` returns after the given headers. */
  function Resolve(source: string, inc: string, headers: seq<string>, listing: map<string, seq<string>>): (r: HeaderRecords)
    requires ListingCovers(inc, headers, listing)
    ensures forall h :: h in r.records <==> h in headers && TailMatches(h, inc)
  {
    if headers == [] then Empty
    else
      var prefix := headers[..|headers| - 1];
      var header := headers[|headers| - 1];
      assert forall h :: h in headers <==> h in prefix || h == header;
      ResolveHeader(Resolve(source, inc, prefix, listing), source, inc, header, listing)
  }

  /** One turn of the header loop keeps the key order listing each key once. */
  lemma ResolveHeaderOrder(db: HeaderRecords, source: string, inc: string, header: string,
                           listing: map<string, seq<string>>)
    requires UpCount(Split(inc)) > 0 && TailMatches(header, inc) ==> Candidate(header, inc) in listing
    requires OrderAgrees(db)
    ensures OrderAgrees(ResolveHeader(db, source, inc, header, listing))
  {
    var r := ResolveHeader(db, source, inc, header, listing);
    if TailMatches(header, inc) {
      AppendNewDistinct(db.order, header);
      forall h ensures h in r.order <==> h in r.records {
        if h != header {
          assert h in r.records <==> h in db.records;
        }
      }
    }
  }

  /** The database lists each of its keys exactly once, in its key order. */
  lemma {:induction false} ResolveOrderAgrees(source: string, inc: string, headers: seq<string>,
                                              listing: map<string, seq<string>>)
    requires ListingCovers(inc, headers, listing)
    ensures OrderAgrees(Resolve(source, inc, headers, listing))
  {
    if headers != [] {
      var prefix := headers[..|headers| - 1];
      assert forall h :: h in prefix ==> h in headers;
      ResolveOrderAgrees(source, inc, prefix, listing);
      ResolveHeaderOrder(Resolve(source, inc, prefix, listing), source, inc, headers[|headers| - 1], listing);
    }
  }

  /** `include_paths_for_include` */
  method IncludePathsForInclude(source: string, inc: string, headers: seq<string>,
                                listing: map<string, seq<string>>) returns (db: HeaderRecords)
    requires ListingCovers(inc, headers, listing)
    ensures db == Resolve(source, inc, headers, listing)
    ensures forall h :: h in db.records <==> h in headers && TailMatches(h, inc)
  {
    db := Empty;
    var sourceTokens := Split(source);
    var includeTokens := Split(inc);
    var upReferenceCount := UpCount(includeTokens);
    for i := 0 to |headers|
      invariant db == Resolve(source, inc, headers[..i], listing)
    {
      var headerFile := headers[i];
      ResolveStep(source, inc, headers, i, listing);
      ghost var before := db;
      var headerTokens := Split(headerFile);
      if TokensMatch(headerTokens, includeTokens, upReferenceCount) {
        var includePathCandidate := CandidateOf(headerTokens, includeTokens, upReferenceCount);
        db := RecordHeader(db, headerFile);
        if upReferenceCount > 0 {
          var ambiguousPaths := UpLevelReferencesFolders(includePathCandidate, upReferenceCount, headerTokens, listing);
          db := RecordAmbiguousPaths(db, ambiguousPaths, headerFile);
        } else if !SameFolderTokens(headerTokens, sourceTokens) {
          db := RecordDirectPath(db, includePathCandidate, headerFile, Mandatory);
        } else {
          db := RecordDirectPath(db, includePathCandidate, headerFile, Optional);
        }
      }
      assert db == ResolveHeader(before, source, inc, headerFile, listing);
    }
    assert headers[..|headers|] == headers;
  }
}
