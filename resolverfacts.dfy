/** What `include_paths_for_include` computes, stated header by header,
    and the shape of the folders an upward reference can reach. */
module ResolverFacts {
  import opened Common
  import opened PathTokens
  import opened PathResolver

  /** The entry a matching header gets when it occurs once in the header list. */
  function Expected(source: string, inc: string, header: string, listing: map<string, seq<string>>): Record
    requires UpCount(Split(inc)) > 0 ==> Candidate(header, inc) in listing
  {
    var up := UpCount(Split(inc));
    if up > 0 then
      var folders := InScopeFolders(listing[Candidate(header, inc)], |Split(header)|, up);
      if folders == [] then Record([None], [NonExisting]) else Record(Somes(folders), [Ambiguous])
    else Record([Some(Candidate(header, inc))], [if SameFolder(header, source) then Optional else Mandatory])
  }

  /** A header new to the database gets exactly its expected entry. */
  lemma ResolveFreshHeader(db: HeaderRecords, source: string, inc: string, header: string,
                           listing: map<string, seq<string>>)
    requires header !in db.records
    requires TailMatches(header, inc)
    requires UpCount(Split(inc)) > 0 ==> Candidate(header, inc) in listing
    ensures ResolveHeader(db, source, inc, header, listing).records[header] == Expected(source, inc, header, listing)
  {
    var db1 := RecordHeader(db, header);
    assert db1.records[header] == Record([], []);
  }

  /** With a duplicate-free header list, the database holds the matching
      headers in list order, each with exactly its expected entry. */
  lemma {:induction false} ResolveDistinctHeaders(source: string, inc: string, headers: seq<string>,
                                                   listing: map<string, seq<string>>)
    requires Distinct(headers)
    requires ListingCovers(inc, headers, listing)
    ensures var r := Resolve(source, inc, headers, listing);
            r.order == Filter(headers, h => TailMatches(h, inc)) &&
            forall h :: h in r.records ==> r.records[h] == Expected(source, inc, h, listing)
  {
    if headers != [] {
      var prefix := headers[..|headers| - 1];
      var header := headers[|headers| - 1];
      assert forall h :: h in prefix ==> h in headers;
      assert ListingCovers(inc, prefix, listing);
      ResolveDistinctHeaders(source, inc, prefix, listing);
      var db := Resolve(source, inc, prefix, listing);
      assert header !in prefix;
      assert header !in db.records;
      var r := ResolveHeader(db, source, inc, header, listing);
      assert Resolve(source, inc, headers, listing) == r;
      if TailMatches(header, inc) {
        ResolveFreshHeader(db, source, inc, header, listing);
        assert header !in db.order;
      }
    }
  }

  /** Every entry has one tag, and only a `non_existing` entry holds a `None` path. */
  ghost predicate SingleTagged(r: HeaderRecords) {
    forall h :: h in r.records ==>
      |r.records[h].pathTypes| == 1 &&
      (None in r.records[h].includePaths ==> r.records[h].pathTypes[0] == NonExisting)
  }

  /** Every entry of such a database has one tag, and only a `non_existing`
      entry holds a `None` path. */
  lemma DistinctHeadersWellFormed(source: string, inc: string, headers: seq<string>,
                                  listing: map<string, seq<string>>)
    requires Distinct(headers)
    requires ListingCovers(inc, headers, listing)
    ensures SingleTagged(Resolve(source, inc, headers, listing))
  {
    ResolveDistinctHeaders(source, inc, headers, listing);
    var r := Resolve(source, inc, headers, listing);
    forall h | h in r.records
      ensures |r.records[h].pathTypes| == 1
      ensures None in r.records[h].includePaths ==> r.records[h].pathTypes[0] == NonExisting
    {
      assert h in headers && TailMatches(h, inc);
      ExpectedSingleTagged(source, inc, h, listing);
    }
  }

  /** An expected entry has one tag, and holds `None` only when tagged `non_existing`. */
  lemma ExpectedSingleTagged(source: string, inc: string, header: string, listing: map<string, seq<string>>)
    requires UpCount(Split(inc)) > 0 ==> Candidate(header, inc) in listing
    ensures var e := Expected(source, inc, header, listing);
            |e.pathTypes| == 1 && (None in e.includePaths ==> e.pathTypes[0] == NonExisting)
  {
    if UpCount(Split(inc)) > 0 {
      var folders := InScopeFolders(listing[Candidate(header, inc)], |Split(header)|, UpCount(Split(inc)));
      assert None !in Somes(folders);
    }
  }

  /** Without `..`, the recorded path is the header's tokens without the last
      `len(inc)` tokens, re-joined, and those last tokens are the include's. */
  lemma DirectCandidate(header: string, inc: string)
    requires TailMatches(header, inc)
    requires UpCount(Split(inc)) == 0
    ensures var ht, it := Split(header), Split(inc);
            |it| <= |ht| && ht[|ht| - |it|..] == it &&
            Candidate(header, inc) == Join(ht[..|ht| - |it|])
  {
    DirectTail(header, inc);
    DirectJoin(header, inc);
  }

  lemma DirectTail(header: string, inc: string)
    requires TailMatches(header, inc)
    requires UpCount(Split(inc)) == 0
    ensures |Split(inc)| <= |Split(header)| && Split(header)[|Split(header)| - |Split(inc)|..] == Split(inc)
  {
    var ht, it := Split(header), Split(inc);
    assert TokensMatch(ht, it, 0);
    WholeSliceTail(ht, it, 0);
  }

  /** The slice test with nothing skipped: the second sequence is a suffix of the first. */
  lemma WholeSliceTail<T>(xs: seq<T>, ys: seq<T>, up: int)
    requires SliceFrom(xs, -|ys| + up) == SliceFrom(ys, up)
    requires up == 0
    ensures |ys| <= |xs| && xs[|xs| - |ys|..] == ys
  {
    assert SliceFrom(ys, up) == ys;
    assert |SliceFrom(xs, -|ys|)| == if |xs| < |ys| then |xs| else |ys|;
  }

  lemma DirectJoin(header: string, inc: string)
    requires |Split(inc)| <= |Split(header)|
    requires UpCount(Split(inc)) == 0
    ensures var ht, it := Split(header), Split(inc);
            Candidate(header, inc) == Join(ht[..|ht| - |it|])
  {
    var ht, it := Split(header), Split(inc);
    NegativeSliceTo(ht, -|it| + UpCount(it), |ht| - |it|);
  }

  /** `xs[:j]` for `-len(xs) <= j < 0` keeps the first `len(xs) + j` elements. */
  lemma NegativeSliceTo<T>(xs: seq<T>, j: int, n: nat)
    requires -|xs| <= j < 0 && n == |xs| + j
    ensures SliceTo(xs, j) == xs[..n]
  {
  }

  /** A listing in which every subdirectory of a folder has one token more
      than the folder, as `os.scandir` gives. */
  predicate ImmediateListing(listing: map<string, seq<string>>) {
    forall d :: d in listing ==> forall p :: p in listing[d] ==> |Split(p)| == |Split(d)| + 1
  }

  /** In such a listing a subdirectory of the candidate passes the depth
      window exactly when one include token is left after the `..` tokens,
      i.e. the include names a bare file after them. */
  lemma WindowNeedsBareName(header: string, inc: string, listing: map<string, seq<string>>, p: string)
    requires TailMatches(header, inc)
    requires UpCount(Split(inc)) > 0
    requires |Split(header)| > |Split(inc)| - UpCount(Split(inc))
    requires ImmediateListing(listing)
    requires Candidate(header, inc) in listing && p in listing[Candidate(header, inc)]
    ensures InWindow(p, |Split(header)|, UpCount(Split(inc))) <==> |Split(inc)| - UpCount(Split(inc)) == 1
  {
    TailMatchesIff(header, inc);
    CandidateTokens(header, inc);
  }

  /** Hence an include such as `../inc/x.h` never finds a folder: a header it
      matches is recorded as `non_existing`. */
  lemma NoFoldersBeyondBareName(header: string, inc: string, listing: map<string, seq<string>>)
    requires TailMatches(header, inc)
    requires UpCount(Split(inc)) > 0
    requires |Split(inc)| - UpCount(Split(inc)) >= 2
    requires |Split(header)| > |Split(inc)| - UpCount(Split(inc))
    requires ImmediateListing(listing)
    requires Candidate(header, inc) in listing
    ensures InScopeFolders(listing[Candidate(header, inc)], |Split(header)|, UpCount(Split(inc))) == []
  {
    var up := UpCount(Split(inc));
    var subs := listing[Candidate(header, inc)];
    var folders := InScopeFolders(subs, |Split(header)|, up);
    forall p | p in subs
      ensures !InWindow(p, |Split(header)|, up)
    {
      WindowNeedsBareName(header, inc, listing, p);
    }
    InScopeEmpty(subs, |Split(header)|, up);
  }

  /** A matching header listed once, without `..`: one path and one tag. */
  lemma ResolveSingleDirect(source: string, inc: string, header: string, listing: map<string, seq<string>>)
    requires TailMatches(header, inc)
    requires UpCount(Split(inc)) == 0
    ensures var r := Resolve(source, inc, [header], listing);
            header in r.records &&
            r.records[header] == Record([Some(Candidate(header, inc))],
                                        [if SameFolder(header, source) then Optional else Mandatory])
  {
    ResolveSingle(source, inc, header, listing);
  }

  /** No folder of the listing in the window: nothing is collected. */
  lemma {:induction false} InScopeEmpty(subfolders: seq<string>, headerLength: nat, up: nat)
    requires forall p :: p in subfolders ==> !InWindow(p, headerLength, up)
    ensures InScopeFolders(subfolders, headerLength, up) == []
  {
    if subfolders != [] {
      var prefix := subfolders[..|subfolders| - 1];
      assert forall p :: p in prefix ==> p in subfolders;
      InScopeEmpty(prefix, headerLength, up);
    }
  }

  /** A header listed twice without `..` keeps its path but loses its tag:
      the second `record_header` clears the tags and the known candidate is
      not recorded again. Such an entry has no `path_types[0]`. */
  lemma DuplicateHeaderLosesTags(source: string, inc: string, header: string, listing: map<string, seq<string>>)
    requires TailMatches(header, inc)
    requires UpCount(Split(inc)) == 0
    ensures var r := Resolve(source, inc, [header, header], listing);
            header in r.records && r.records[header].pathTypes == []
  {
    var hs := [header, header];
    assert ListingCovers(inc, hs, listing);
    assert hs[..1] == [header];
    ResolveSingleDirect(source, inc, header, listing);
    var once := Resolve(source, inc, [header], listing);
    RepeatedDirectHeader(once, source, inc, header, listing);
    assert Resolve(source, inc, hs, listing) == ResolveHeader(once, source, inc, header, listing);
  }

  /** Resolving a header again whose candidate is already recorded clears its tags. */
  lemma RepeatedDirectHeader(db: HeaderRecords, source: string, inc: string, header: string,
                             listing: map<string, seq<string>>)
    requires TailMatches(header, inc)
    requires UpCount(Split(inc)) == 0
    requires header in db.records && Some(Candidate(header, inc)) in db.records[header].includePaths
    ensures var r := ResolveHeader(db, source, inc, header, listing);
            header in r.records && r.records[header].pathTypes == []
  {
    var candidate := Candidate(header, inc);
    var again := RecordHeader(db, header);
    assert Some(candidate) in again.records[header].includePaths;
    var tag := if SameFolder(header, source) then Optional else Mandatory;
    assert ResolveHeader(db, source, inc, header, listing) == RecordDirectPath(again, candidate, header, tag);
  }

  /** A single matching header yields a database holding just its expected entry. */
  lemma ResolveSingle(source: string, inc: string, header: string, listing: map<string, seq<string>>)
    requires TailMatches(header, inc)
    requires UpCount(Split(inc)) > 0 ==> Candidate(header, inc) in listing
    ensures Resolve(source, inc, [header], listing) ==
            HeaderRecords([header], map[header := Expected(source, inc, header, listing)])
  {
    ResolveOneHeader(source, inc, header, listing);
    FreshHeaderResult(source, inc, header, listing);
  }

  /** The first turn of the header loop on a matching header. */
  lemma FreshHeaderResult(source: string, inc: string, header: string, listing: map<string, seq<string>>)
    requires TailMatches(header, inc)
    requires UpCount(Split(inc)) > 0 ==> Candidate(header, inc) in listing
    ensures ResolveHeader(Empty, source, inc, header, listing) ==
            HeaderRecords([header], map[header := Expected(source, inc, header, listing)])
  {
    FreshHeaderOrder(source, inc, header, listing);
    FreshHeaderKeySet(source, inc, header, listing);
    ResolveFreshHeader(Empty, source, inc, header, listing);
    SingleEntry(ResolveHeader(Empty, source, inc, header, listing), header, Expected(source, inc, header, listing));
  }

  lemma FreshHeaderOrder(source: string, inc: string, header: string, listing: map<string, seq<string>>)
    requires TailMatches(header, inc)
    requires UpCount(Split(inc)) > 0 ==> Candidate(header, inc) in listing
    ensures ResolveHeader(Empty, source, inc, header, listing).order == [header]
  {
    AppendNewToEmpty(header);
  }

  lemma FreshHeaderKeySet(source: string, inc: string, header: string, listing: map<string, seq<string>>)
    requires TailMatches(header, inc)
    requires UpCount(Split(inc)) > 0 ==> Candidate(header, inc) in listing
    ensures ResolveHeader(Empty, source, inc, header, listing).records.Keys == {header}
  {
    OnlyKey(ResolveHeader(Empty, source, inc, header, listing).records, header);
  }

  lemma AppendNewToEmpty<T(!new)>(x: T)
    ensures AppendNew([], x) == [x]
  {
  }

  /** A map whose only key is `k`. */
  lemma OnlyKey<K, V>(m: map<K, V>, k: K)
    requires k in m
    requires forall h :: h != k ==> h !in m
    ensures m.Keys == {k}
  {
  }

  lemma SingleEntry(r: HeaderRecords, header: string, e: Record)
    requires r.order == [header] && r.records.Keys == {header} && r.records[header] == e
    ensures r == HeaderRecords([header], map[header := e])
  {
    assert r.records == map[header := e];
  }

  /** A one-header list takes one turn of the header loop from the empty database. */
  lemma ResolveOneHeader(source: string, inc: string, header: string, listing: map<string, seq<string>>)
    requires UpCount(Split(inc)) > 0 ==> Candidate(header, inc) in listing
    ensures ListingCovers(inc, [header], listing)
    ensures Resolve(source, inc, [header], listing) == ResolveHeader(Empty, source, inc, header, listing)
  {
    assert [header][..0] == [];
  }

  /** Without `..` the expected entry is the candidate with the folder's tag. */
  lemma ExpectedDirectIs(source: string, inc: string, header: string, listing: map<string, seq<string>>,
                         c: string, tag: PathType)
    requires UpCount(Split(inc)) == 0
    requires Candidate(header, inc) == c
    requires tag == (if SameFolder(header, source) then Optional else Mandatory)
    ensures Expected(source, inc, header, listing) == Record([Some(c)], [tag])
  {
  }

  /** A bare name is one token and no upward reference. */
  lemma BareInclude(x: string)
    requires Separator !in x && x != UpReference
    ensures Split(x) == [x] && UpCount(Split(x)) == 0
  {
    SplitWithoutSeparator(x);
    assert UpCount([x]) == 0;
  }

  lemma NestedMatch(a: string, b: string, x: string)
    requires Separator !in a && Separator !in b && Separator !in x && x != UpReference
    ensures TailMatches(a + "/" + b + "/" + x, x)
  {
    var h := a + "/" + b + "/" + x;
    BareInclude(x);
    SplitThree(a, b, x);
    TailMatchesIff(h, x);
    assert Split(h)[2..] == [x];
  }

  lemma NestedCandidate(a: string, b: string, x: string)
    requires Separator !in a && Separator !in b && Separator !in x && x != UpReference
    ensures Candidate(a + "/" + b + "/" + x, x) == a + "/" + b
  {
    var h := a + "/" + b + "/" + x;
    BareInclude(x);
    SplitThree(a, b, x);
    NestedMatch(a, b, x);
    CandidateTokens(h, x);
    assert Split(h)[..2] == [a, b];
    SplitTwo(a, b);
    JoinSplit(a + "/" + b);
  }

  lemma SiblingFolder(a: string, b: string, f: string, x: string)
    requires Separator !in a && Separator !in b && Separator !in f && Separator !in x
    ensures SameFolder(a + "/" + b + "/" + x, a + "/" + b + "/" + f)
  {
    SplitThree(a, b, x);
    SplitThree(a, b, f);
    assert [a, b, x][..2] == [a, b, f][..2];
  }

  /** A file included from its own folder: for a source `a/b/f` and an
      include `x` with header `a/b/x`, the one path is `a/b`, tagged optional. */
  lemma OptionalExample(a: string, b: string, f: string, x: string)
    requires Separator !in a && Separator !in b && Separator !in f && Separator !in x
    requires x != UpReference
    ensures var h := a + "/" + b + "/" + x;
            ListingCovers(x, [h], map[]) &&
            Resolve(a + "/" + b + "/" + f, x, [h], map[]) ==
            HeaderRecords([h], map[h := Record([Some(a + "/" + b)], [Optional])])
  {
    var h, s := a + "/" + b + "/" + x, a + "/" + b + "/" + f;
    BareInclude(x);
    NestedMatch(a, b, x);
    NestedCandidate(a, b, x);
    SiblingFolder(a, b, f, x);
    ResolveOneHeader(s, x, h, map[]);
    ResolveSingle(s, x, h, map[]);
    ExpectedDirectIs(s, x, h, map[], a + "/" + b, Optional);
  }

  lemma FlatMatch(e: string, x: string)
    requires Separator !in e && Separator !in x && x != UpReference
    ensures TailMatches(e + "/" + x, x)
  {
    BareInclude(x);
    SplitTwo(e, x);
    TailMatchesIff(e + "/" + x, x);
    assert Split(e + "/" + x)[1..] == [x];
  }

  lemma FlatCandidate(e: string, x: string)
    requires Separator !in e && Separator !in x && x != UpReference
    ensures Candidate(e + "/" + x, x) == e
  {
    BareInclude(x);
    SplitTwo(e, x);
    FlatMatch(e, x);
    CandidateTokens(e + "/" + x, x);
    assert Split(e + "/" + x)[..1] == [e];
  }

  lemma OtherFolder(d: string, e: string, f: string, x: string)
    requires Separator !in d && Separator !in e && Separator !in f && Separator !in x
    requires d != e
    ensures !SameFolder(e + "/" + x, d + "/" + f)
  {
    SplitTwo(e, x);
    SplitTwo(d, f);
    assert [e, x][..1] == [e] && [d, f][..1] == [d];
  }

  /** A file included from another folder: for a source `d/f` and an include
      `x` with header `e/x`, where `d` and `e` differ, the one path is `e`,
      tagged mandatory. */
  lemma MandatoryExample(d: string, e: string, f: string, x: string)
    requires Separator !in d && Separator !in e && Separator !in f && Separator !in x
    requires x != UpReference && d != e
    ensures var h := e + "/" + x;
            ListingCovers(x, [h], map[]) &&
            Resolve(d + "/" + f, x, [h], map[]) ==
            HeaderRecords([h], map[h := Record([Some(e)], [Mandatory])])
  {
    var h, s := e + "/" + x, d + "/" + f;
    BareInclude(x);
    FlatMatch(e, x);
    FlatCandidate(e, x);
    OtherFolder(d, e, f, x);
    ResolveOneHeader(s, x, h, map[]);
    ResolveSingle(s, x, h, map[]);
    ExpectedDirectIs(s, x, h, map[], e, Mandatory);
  }

  /** With `..` and in-window folders, the expected entry holds those
      folders, tagged ambiguous. */
  lemma ExpectedAmbiguousIs(source: string, inc: string, header: string, listing: map<string, seq<string>>,
                            folders: seq<string>)
    requires UpCount(Split(inc)) > 0 && Candidate(header, inc) in listing
    requires InScopeFolders(listing[Candidate(header, inc)], |Split(header)|, UpCount(Split(inc))) == folders
    requires folders != []
    ensures Expected(source, inc, header, listing) == Record(Somes(folders), [Ambiguous])
  {
  }

  lemma AmbiguousTokens(a: string, b: string, x: string)
    requires Separator !in a && Separator !in b && Separator !in x
    requires x != UpReference
    ensures UpCount(Split(UpReference + "/" + x)) == 1
    ensures |Split(a + "/" + b + "/" + x)| == 3
    ensures TailMatches(a + "/" + b + "/" + x, UpReference + "/" + x)
    ensures Candidate(a + "/" + b + "/" + x, UpReference + "/" + x) == a + "/" + b
  {
    var h, inc := a + "/" + b + "/" + x, UpReference + "/" + x;
    SplitTwo(UpReference, x);
    assert [UpReference, x][1..] == [x] && [x][1..] == [];
    SplitThree(a, b, x);
    TailMatchesIff(h, inc);
    assert Split(h)[2..] == [x];
    CandidateTokens(h, inc);
    assert Split(h)[..2] == [a, b];
    SplitTwo(a, b);
    JoinSplit(a + "/" + b);
  }

  /** Two subfolders one level below a three-token header's folder are both in the window. */
  lemma AmbiguousFolders(a: string, b: string, c: string, d: string)
    requires Separator !in a && Separator !in b && Separator !in c && Separator !in d
    requires c != d
    ensures var sub1, sub2 := a + "/" + b + "/" + c, a + "/" + b + "/" + d;
            InScopeFolders([sub1, sub2], 3, 1) == [sub1, sub2]
  {
    var sub1, sub2 := a + "/" + b + "/" + c, a + "/" + b + "/" + d;
    var subs := [sub1, sub2];
    SplitThree(a, b, c);
    SplitThree(a, b, d);
    assert sub1 != sub2 by {
      assert Split(sub1)[2] != Split(sub2)[2];
    }
    assert InWindow(sub1, 3, 1) && InWindow(sub2, 3, 1);
    assert subs[..1] == [sub1] && [sub1][..0] == [];
    assert InScopeFolders([sub1], 3, 1) == [sub1];
    assert sub2 !in [sub1];
  }

  /** An include `../x` with header `a/b/x`, whose folder `a/b` holds the
      subdirectories `a/b/c` and `a/b/d`: both are recorded, in listing
      order, as ambiguous paths. */
  lemma AmbiguousExample(a: string, b: string, c: string, d: string, x: string, source: string)
    requires Separator !in a && Separator !in b && Separator !in c && Separator !in d && Separator !in x
    requires x != UpReference && c != d
    ensures var h, sub1, sub2 := a + "/" + b + "/" + x, a + "/" + b + "/" + c, a + "/" + b + "/" + d;
            var listing := map[a + "/" + b := [sub1, sub2]];
            ListingCovers(UpReference + "/" + x, [h], listing) &&
            Resolve(source, UpReference + "/" + x, [h], listing) ==
            HeaderRecords([h], map[h := Record([Some(sub1), Some(sub2)], [Ambiguous])])
  {
    var h, sub1, sub2 := a + "/" + b + "/" + x, a + "/" + b + "/" + c, a + "/" + b + "/" + d;
    var listing := map[a + "/" + b := [sub1, sub2]];
    var inc := UpReference + "/" + x;
    AmbiguousTokens(a, b, x);
    AmbiguousFolders(a, b, c, d);
    ResolveOneHeader(source, inc, h, listing);
    ResolveSingle(source, inc, h, listing);
    ExpectedAmbiguousIs(source, inc, h, listing, [sub1, sub2]);
    assert Somes([sub1, sub2]) == [Some(sub1), Some(sub2)];
  }
}
