/** The earlier copy of the engine, includepathestimator/estimateincludepaths.py.
    Its resolver, record helpers, filters, line scan and reports are the same
    code as in includepathestimator/modules/estimateincludepaths.py and are
    modelled once, by the other modules. What differs is `internal_includes`,
    which compares the whole include, `..` tokens and all, with the end of
    each file path; and there is no system classification. */
module LegacyClassifier {
  import opened Common
  import opened StringOrder
  import opened PathTokens
  import IncludeClassifier

  /** `file_tokens[-len(include_tokens):] == include_tokens` */
  predicate LegacyTailMatches(file: string, inc: string) {
    LegacyTokensMatch(Split(file), Split(inc))
  }

  predicate LegacyTokensMatch(fileTokens: seq<string>, incTokens: seq<string>) {
    SliceFrom(fileTokens, -|incTokens|) == incTokens
  }

  /** The legacy test holds iff the file has at least as many tokens as the
      include and ends with exactly the include's tokens. */
  lemma LegacyTailMatchesIff(file: string, inc: string)
    ensures var ft, it := Split(file), Split(inc);
            LegacyTailMatches(file, inc) <==> |ft| >= |it| && ft[|ft| - |it|..] == it
  {
    var ft, it := Split(file), Split(inc);
    if |ft| < |it| {
      assert |SliceFrom(ft, -|it|)| == |ft|;
    }
  }

  /** Some file of the list ends with the include's tokens, stated file by file. */
  predicate LegacyIsInternal(inc: string, fileList: seq<string>)
    decreases |fileList|
  {
    fileList != [] &&
    (LegacyIsInternal(inc, fileList[..|fileList| - 1]) || LegacyTailMatches(fileList[|fileList| - 1], inc))
  }

  /** An include is internal under the legacy test iff some file of the list ends with it. */
  lemma LegacyIsInternalIff(inc: string, fileList: seq<string>)
    ensures LegacyIsInternal(inc, fileList) <==> exists f :: f in fileList && LegacyTailMatches(f, inc)
  {
    if LegacyIsInternal(inc, fileList) {
      LegacyIsInternalWitness(inc, fileList);
    }
    if exists f :: f in fileList && LegacyTailMatches(f, inc) {
      var f :| f in fileList && LegacyTailMatches(f, inc);
      LegacyIsInternalOfWitness(inc, fileList, f);
    }
  }

  lemma {:induction false} LegacyIsInternalWitness(inc: string, fileList: seq<string>)
    requires LegacyIsInternal(inc, fileList)
    ensures exists f :: f in fileList && LegacyTailMatches(f, inc)
    decreases |fileList|
  {
    var prefix, last := fileList[..|fileList| - 1], fileList[|fileList| - 1];
    if LegacyIsInternal(inc, prefix) {
      LegacyIsInternalWitness(inc, prefix);
      var f :| f in prefix && LegacyTailMatches(f, inc);
      assert f in fileList;
    } else {
      assert last in fileList;
    }
  }

  lemma {:induction false} LegacyIsInternalOfWitness(inc: string, fileList: seq<string>, f: string)
    requires f in fileList && LegacyTailMatches(f, inc)
    ensures LegacyIsInternal(inc, fileList)
    decreases |fileList|
  {
    var prefix, last := fileList[..|fileList| - 1], fileList[|fileList| - 1];
    if f != last {
      InPrefix(fileList, f);
      LegacyIsInternalOfWitness(inc, prefix, f);
    }
  }

  /** The legacy `internal_includes`: the includes some file ends with, sorted, each once. */
  method InternalIncludes(includeList: seq<string>, fileList: seq<string>) returns (r: seq<string>)
    ensures StrictlySorted(r)
    ensures forall inc :: inc in r <==> inc in includeList && LegacyIsInternal(inc, fileList)
    ensures r == SortedDistinct(Filter(includeList, inc => LegacyIsInternal(inc, fileList)))
  {
    var internal: seq<string> := [];
    for i := 0 to |includeList|
      invariant forall x :: x in internal <==> x in includeList[..i] && LegacyIsInternal(x, fileList)
    {
      internal := AppendMatches(internal, includeList[i], fileList);
      TakeStep(includeList, i);
    }
    assert includeList[..|includeList|] == includeList;
    r := SortedDistinct(internal);
    StrictlySortedUnique(r, SortedDistinct(Filter(includeList, inc => LegacyIsInternal(inc, fileList))));
  }

  /** The legacy inner loop: the include is appended once for every file that
      ends with it, so afterwards it is present iff some file does. */
  method AppendMatches(internal: seq<string>, inc: string, fileList: seq<string>) returns (r: seq<string>)
    ensures forall x :: x in r <==> x in internal || (x == inc && LegacyIsInternal(inc, fileList))
  {
    r := internal;
    var incTokens := Split(inc);
    for j := 0 to |fileList|
      invariant forall x :: x in r <==> x in internal || (x == inc && LegacyIsInternal(inc, fileList[..j]))
    {
      TakeStep(fileList, j);
      var fileTokens := Split(fileList[j]);
      if LegacyTokensMatch(fileTokens, incTokens) {
        r := r + [inc];
      }
    }
    assert fileList[..|fileList|] == fileList;
  }

  /** Without `..` tokens the two versions of the test agree. */
  lemma AgreesWithoutUpReferences(file: string, inc: string)
    requires UpReference !in Split(inc)
    ensures LegacyTailMatches(file, inc) <==> IncludeClassifier.IsInternal(inc, [file])
  {
    LegacyTailMatchesIff(file, inc);
    TailMatchesIff(file, inc);
    assert IncludeClassifier.IsInternal(inc, [file]) <==> TailMatches(file, inc) by {
      assert file in [file];
    }
  }

  /** With `..` the versions differ: `../x.h` is internal to a tree holding
      `a/x.h` under the newer test, but the legacy test demands a file whose
      path itself ends in `../x.h`. */
  lemma UpReferenceDifference()
    ensures IncludeClassifier.IsInternal("../x.h", ["a/x.h"])
    ensures !LegacyIsInternal("../x.h", ["a/x.h"])
  {
    UpReferenceTokens();
    var f, inc := "a/x.h", "../x.h";
    TailMatchesIff(f, inc);
    assert Split(f)[1..] == Split(inc)[1..];
    assert f in [f];
    LegacyTailMatchesIff(f, inc);
    assert Split(f)[0] != Split(inc)[0];
    forall g | g in [f] ensures !LegacyTailMatches(g, inc) {
    }
  }

  lemma UpReferenceTokens()
    ensures Split("a/x.h") == ["a", "x.h"]
    ensures Split("../x.h") == ["..", "x.h"]
    ensures UpCount(Split("../x.h")) == 1
  {
    assert "a/x.h" == "a" + "/" + "x.h";
    assert "../x.h" == ".." + "/" + "x.h";
    SplitTwo("a", "x.h");
    SplitTwo("..", "x.h");
    assert ["..", "x.h"][1..] == ["x.h"] && ["x.h"][1..] == [];
  }

  /** The legacy external list is the complement of the legacy internal list
      within the includes. */
  lemma LegacyInternalExternalPartition(includeList: seq<string>, fileList: seq<string>, internalList: seq<string>)
    requires forall inc :: inc in internalList <==> inc in includeList && LegacyIsInternal(inc, fileList)
    ensures forall inc :: inc in IncludeClassifier.ExternalIncludes(includeList, internalList) <==>
              inc in includeList && !LegacyIsInternal(inc, fileList)
  {
  }
}
