/** Paths as lists of tokens: `str.split("/")`, `"/".join(...)`, Python's
    slice indices, and the token-suffix test by which an include is matched
    against a file (includepathestimator/modules/estimateincludepaths.py). */
module PathTokens {
  import opened Common

  /** `separator()`: the POSIX form of `os.sep`, which is `/` on every platform. */
  const Separator: char := '/'

  /** The token the source counts as an upward reference. */
  const UpReference: string := ".."

  /** `s.split(separator())`: an empty string gives one empty token and
      every separator starts a new token. */
  function Split(s: string): (r: seq<string>)
    ensures |r| >= 1
    ensures forall t :: t in r ==> Separator !in t
    decreases |s|
  {
    if s == [] then [""]
    else
      var rest := Split(s[1..]);
      if s[0] == Separator then [""] + rest
      else
        assert forall t :: t in rest[1..] ==> t in rest;
        [[s[0]] + rest[0]] + rest[1..]
  }

  /** `separator().join(ts)`. */
  function Join(ts: seq<string>): string
  {
    if |ts| == 0 then "" else if |ts| == 1 then ts[0] else ts[0] + [Separator] + Join(ts[1..])
  }

  /** Joining the tokens of a split gives back the string. */
  lemma {:induction false} JoinSplit(s: string)
    ensures Join(Split(s)) == s
    decreases |s|
  {
    if s != [] {
      var rest := Split(s[1..]);
      JoinSplit(s[1..]);
      if s[0] == Separator {
        assert s == [s[0]] + s[1..];
      } else if |rest| == 1 {
        assert s == [s[0]] + s[1..];
      } else {
        assert Join(rest) == rest[0] + [Separator] + Join(rest[1..]);
        assert s == [s[0]] + s[1..];
      }
    }
  }

  lemma {:induction false} SplitWithoutSeparator(s: string)
    requires Separator !in s
    ensures Split(s) == [s]
    decreases |s|
  {
    if s != [] {
      SplitWithoutSeparator(s[1..]);
      assert s == [s[0]] + s[1..];
    }
  }

  lemma {:induction false} SplitAfterToken(t: string, u: string)
    requires Separator !in t
    ensures Split(t + [Separator] + u) == [t] + Split(u)
    decreases |t|
  {
    var s := t + [Separator] + u;
    if t != [] {
      SplitAfterToken(t[1..], u);
      assert s[1..] == t[1..] + [Separator] + u;
      assert t == [t[0]] + t[1..];
    } else {
      assert s[1..] == u;
    }
  }

  /** A path of two separator-free tokens splits into those two. */
  lemma SplitTwo(a: string, b: string)
    requires Separator !in a && Separator !in b
    ensures Split(a + "/" + b) == [a, b]
  {
    SplitAfterToken(a, b);
    SplitWithoutSeparator(b);
  }

  /** A path of three separator-free tokens splits into those three. */
  lemma SplitThree(a: string, b: string, c: string)
    requires Separator !in a && Separator !in b && Separator !in c
    ensures Split(a + "/" + b + "/" + c) == [a, b, c]
  {
    SplitAfterToken(a, b + "/" + c);
    SplitTwo(b, c);
    assert a + "/" + b + "/" + c == a + [Separator] + (b + "/" + c);
  }

  /** Splitting a join of separator-free tokens gives back the tokens. */
  lemma {:induction false} SplitJoin(ts: seq<string>)
    requires |ts| >= 1
    requires forall t :: t in ts ==> Separator !in t
    ensures Split(Join(ts)) == ts
    decreases |ts|
  {
    if |ts| == 1 {
      SplitWithoutSeparator(ts[0]);
    } else {
      assert ts[0] in ts;
      assert forall t :: t in ts[1..] ==> t in ts;
      SplitJoin(ts[1..]);
      SplitAfterToken(ts[0], Join(ts[1..]));
      assert ts == [ts[0]] + ts[1..];
    }
  }

  /** The position a Python slice bound `i` denotes in a list of length `n`. */
  function SliceIndex(i: int, n: nat): (k: nat)
    ensures k <= n
  {
    if i < 0 then (if n + i < 0 then 0 else n + i) else (if i > n then n else i)
  }

  /** `xs[i:]` */
  function SliceFrom<T>(xs: seq<T>, i: int): (r: seq<T>)
    ensures i == 0 ==> r == xs
    ensures i < 0 && -i >= |xs| ==> r == xs
    ensures i < 0 && -i < |xs| ==> |r| == -i && r == xs[|xs| + i..]
    ensures i >= 0 && i <= |xs| ==> r == xs[i..]
  {
    xs[SliceIndex(i, |xs|)..]
  }

  /** `xs[:j]` */
  function SliceTo<T>(xs: seq<T>, j: int): (r: seq<T>)
    ensures j == 0 ==> r == []
    ensures j < 0 ==> |r| == (if |xs| + j < 0 then 0 else |xs| + j) && r == xs[..|r|]
    ensures j >= 0 && j <= |xs| ==> r == xs[..j]
  {
    xs[..SliceIndex(j, |xs|)]
  }

  /** `tokens.count("..")`: upward references anywhere in the include. */
  function UpCount(tokens: seq<string>): (n: nat)
    ensures n <= |tokens|
    ensures n == 0 <==> UpReference !in tokens
  {
    if tokens == [] then 0
    else (if tokens[0] == UpReference then 1 else 0) + UpCount(tokens[1..])
  }

  /** The count is the multiplicity of `..` among the tokens. */
  lemma {:induction false} UpCountCounts(tokens: seq<string>)
    ensures UpCount(tokens) == multiset(tokens)[UpReference]
  {
    if tokens != [] {
      assert tokens == [tokens[0]] + tokens[1..];
      UpCountCounts(tokens[1..]);
    }
  }

  /** The literal test of the resolver (estimateincludepaths.py:320-323) and of
      `internal_includes` (211-223): the file's tokens from position
      `-len(inc) + up` on equal the include's tokens after the first `up`. */
  predicate TailMatches(file: string, inc: string) {
    var it := Split(inc);
    TokensMatch(Split(file), it, UpCount(it))
  }

  /** The comparison itself, on the file's and the include's tokens. */
  predicate TokensMatch(fileTokens: seq<string>, incTokens: seq<string>, up: nat) {
    SliceFrom(fileTokens, -|incTokens| + up) == SliceFrom(incTokens, up)
  }

  /** What the match says: with `k` the number of include tokens left once the
      first `up` are dropped, the file has at least `k` tokens and its last
      `k` tokens are exactly those. A bare `..` include (`k == 0`) matches no file. */
  lemma TailMatchesIff(file: string, inc: string)
    ensures var ft, it := Split(file), Split(inc);
            var k := |it| - UpCount(it);
            TailMatches(file, inc) <==>
              k > 0 && |ft| >= k && ft[|ft| - k..] == it[|it| - k..]
  {
    var ft, it := Split(file), Split(inc);
    var up := UpCount(it);
    var k := |it| - up;
    assert SliceFrom(it, up) == it[|it| - k..];
    if k == 0 {
      assert SliceFrom(ft, -|it| + up) == ft;
    } else if |ft| < k {
      assert |SliceFrom(ft, -|it| + up)| == |ft|;
    }
  }

  /** The directory the resolver derives (estimateincludepaths.py:326-328):
      the file's tokens without the last `len(inc) - up`, re-joined. */
  function Candidate(file: string, inc: string): string {
    var it := Split(inc);
    CandidateOf(Split(file), it, UpCount(it))
  }

  /** The same on the file's and the include's tokens. */
  function CandidateOf(fileTokens: seq<string>, incTokens: seq<string>, up: nat): string {
    Join(SliceTo(fileTokens, -|incTokens| + up))
  }

  /** For a matching header the candidate keeps all tokens but the matched
      tail, and, when it is not empty, splits back into exactly those tokens. */
  lemma CandidateTokens(file: string, inc: string)
    requires TailMatches(file, inc)
    ensures var ft, it := Split(file), Split(inc);
            var c := |ft| - (|it| - UpCount(it));
            0 <= c < |ft| && Candidate(file, inc) == Join(ft[..c]) &&
            (c > 0 ==> Split(Candidate(file, inc)) == ft[..c])
  {
    TailMatchesIff(file, inc);
    var ft, it := Split(file), Split(inc);
    var c := |ft| - (|it| - UpCount(it));
    if c > 0 {
      assert forall t :: t in ft[..c] ==> t in ft;
      SplitJoin(ft[..c]);
    }
  }

  /** `s.endswith(suffix)` */
  predicate EndsWith(s: string, suffix: string) {
    |s| >= |suffix| && s[|s| - |suffix|..] == suffix
  }

  /** A name directly under the root: `/x` splits into `["", "x"]`. */
  predicate UnderRoot(ts: seq<string>) {
    |ts| == 2 && ts[0] == ""
  }

  /** `PurePath(file).parent.as_posix()` for a path without repeated or
      trailing separators and without `.` tokens: everything before the last
      token, `.` for a bare name and `/` for a name directly under the root. */
  function Parent(file: string): (d: string)
    ensures var ts := Split(file);
            |ts| == 1 ==> d == "."
    ensures UnderRoot(Split(file)) ==> d == "/"
    ensures var ts := Split(file);
            |ts| > 1 && !UnderRoot(ts) ==> d == Join(ts[..|ts| - 1])
  {
    var ts := Split(file);
    if |ts| == 1 then "."
    else if UnderRoot(ts) then [Separator]
    else Join(ts[..|ts| - 1])
  }

  /** Joining one more token appends a separator and the token. */
  lemma {:induction false} JoinSnoc(xs: seq<string>, y: string)
    requires |xs| >= 1
    ensures Join(xs + [y]) == Join(xs) + [Separator] + y
    decreases |xs|
  {
    if |xs| > 1 {
      JoinSnoc(xs[1..], y);
      assert (xs + [y])[1..] == xs[1..] + [y];
    }
  }

  /** A file is its parent, a separator and its name: the name alone for a
      bare name, and the root `/` followed by the name directly under it. */
  lemma ParentRoundTrip(file: string)
    ensures var ts := Split(file);
            var name := ts[|ts| - 1];
            Separator !in name &&
            (|ts| == 1 ==> Parent(file) == "." && file == name) &&
            (UnderRoot(ts) ==> Parent(file) == "/" && file == "/" + name) &&
            (|ts| > 1 && !UnderRoot(ts) ==> file == Parent(file) + "/" + name)
  {
    var ts := Split(file);
    assert ts[|ts| - 1] in ts;
    JoinSplit(file);
    if |ts| > 1 {
      var init, last := ts[..|ts| - 1], ts[|ts| - 1];
      assert ts == init + [last];
      JoinSnoc(init, last);
    }
  }
}
