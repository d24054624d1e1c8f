/** Small sequence helpers shared by every part of the model: the optional
    value used for Python's `None`, duplicate-free sequences, the
    "append only if not already present" idiom the source uses for every
    list it grows, first-occurrence de-duplication and filtering. */
module Common {

  datatype Option<T> = None | Some(value: T)

  predicate Distinct<T(==,!new)>(s: seq<T>) {
    forall i, j :: 0 <= i < j < |s| ==> s[i] != s[j]
  }

  /** A prefix grown by one element. */
  lemma TakeStep<T>(s: seq<T>, i: nat)
    requires i < |s|
    ensures s[..i + 1] == s[..i] + [s[i]]
    ensures s[..i + 1][..i] == s[..i]
  {
  }

  /** An element other than the last one is in the prefix without it. */
  lemma InPrefix<T>(s: seq<T>, x: T)
    requires x in s && x != s[|s| - 1]
    ensures x in s[..|s| - 1]
  {
    var i :| 0 <= i < |s| && s[i] == x;
    assert s[..|s| - 1][i] == x;
  }

  /** In a sequence without repeats an element is not among those before it. */
  lemma NotYetDone<T(!new)>(s: seq<T>, j: nat)
    requires Distinct(s) && j < |s|
    ensures s[j] !in s[..j]
  {
  }

  /** `if x not in s: s.append(x)` */
  function AppendNew<T(==,!new)>(s: seq<T>, x: T): (r: seq<T>)
    ensures x in r
    ensures forall y :: y in r <==> y in s || y == x
    ensures x in s ==> r == s
    ensures x !in s ==> |r| == |s| + 1 && r[..|s|] == s && r[|s|] == x
  {
    if x in s then s else s + [x]
  }

  /** Appending only new elements keeps a sequence free of repeats. */
  lemma AppendNewDistinct<T(!new)>(s: seq<T>, x: T)
    ensures Distinct(s) ==> Distinct(AppendNew(s, x))
  {
    if Distinct(s) && x !in s {
      var r := s + [x];
      forall i, j | 0 <= i < j < |r|
        ensures r[i] != r[j]
      {
        if j == |s| {
          assert r[i] == s[i];
        }
      }
    }
  }

  /** The elements of `s` in the order of their first occurrence. */
  function Dedup<T(==,!new)>(s: seq<T>): (r: seq<T>)
    ensures Distinct(r)
    ensures forall x :: x in r <==> x in s
    ensures |r| <= |s|
  {
    if s == [] then []
    else
      var p := Dedup(s[..|s| - 1]);
      AppendNewDistinct(p, s[|s| - 1]);
      AppendNew(p, s[|s| - 1])
  }

  /** Of two elements of `r`, the earlier one occurs in `s` before any
      occurrence of the later one. */
  ghost predicate FirstOccurrenceOrder<T>(r: seq<T>, s: seq<T>) {
    forall i, j :: 0 <= i < j < |r| ==> OccursBefore(s, r[i], r[j])
  }

  /** `x` occurs in `s` at a position where `y` has not yet occurred. */
  ghost predicate OccursBefore<T>(s: seq<T>, x: T, y: T) {
    exists k :: 0 <= k < |s| && s[k] == x && y !in s[..k]
  }

  /** `Dedup` keeps first-occurrence order. */
  lemma {:induction false} DedupFirstOccurrence<T(!new)>(s: seq<T>)
    ensures FirstOccurrenceOrder(Dedup(s), s)
  {
    if s != [] {
      var prefix, x := s[..|s| - 1], s[|s| - 1];
      var p := Dedup(prefix);
      var r := Dedup(s);
      DedupFirstOccurrence(prefix);
      assert |p| <= |r| && r[..|p|] == p;
      forall i, j | 0 <= i < j < |r|
        ensures OccursBefore(s, r[i], r[j])
      {
        if j < |p| {
          assert r[i] == p[i] && r[j] == p[j];
          assert OccursBefore(prefix, p[i], p[j]);
          var k :| 0 <= k < |prefix| && prefix[k] == p[i] && p[j] !in prefix[..k];
          assert s[..k] == prefix[..k];
          assert s[k] == r[i];
        } else {
          assert x !in p && r == p + [x] && j == |p|;
          assert r[i] in prefix;
          var k :| 0 <= k < |prefix| && prefix[k] == r[i];
          assert s[..k] == prefix[..k];
          assert forall y :: y in prefix[..k] ==> y in prefix;
          assert s[k] == r[i];
        }
      }
    }
  }

  lemma {:induction false} DedupOfDistinct<T(!new)>(s: seq<T>)
    requires Distinct(s)
    ensures Dedup(s) == s
  {
    if s != [] {
      var p := s[..|s| - 1];
      DedupOfDistinct(p);
      assert s[|s| - 1] !in p;
      assert p + [s[|s| - 1]] == s;
    }
  }

  /** The elements of `s` that satisfy `keep`, in their order. */
  function Filter<T(!new)>(s: seq<T>, keep: T -> bool): (r: seq<T>)
    ensures forall x :: x in r <==> x in s && keep(x)
    ensures |r| <= |s|
  {
    if s == [] then []
    else
      var r := Filter(s[..|s| - 1], keep);
      var x := s[|s| - 1];
      assert forall y :: y in s <==> y in s[..|s| - 1] || y == x;
      if keep(x) then r + [x] else r
  }

  lemma FilterOfDistinct<T(!new)>(s: seq<T>, keep: T -> bool)
    requires Distinct(s)
    ensures Distinct(Filter(s, keep))
  {
    if s != [] {
      var p := s[..|s| - 1];
      FilterOfDistinct(p, keep);
      assert s[|s| - 1] !in p;
    }
  }
}
