/** The line scan of `includes_from_file`
    (includepathestimator/modules/estimateincludepaths.py:352-363): each line
    is searched for the regex `#include ["<](?P<inc_path>[^">]*)`, the first
    match's group is kept, and the collected captures are sorted. Opening and
    reading the file is left out: the file's lines are an input. */
module IncludeExtractor {
  import opened Common
  import opened StringOrder
  import opened PathTokens

  /** `source_types` */
  const SourceTypes: seq<string> := [".cpp", ".c", ".h", ".asm", ".s", ".S"]

  /** The literal text the regex starts with. */
  const Directive: string := "#include "

  /** The regex can start at position `i`: the directive followed by `"` or `<`. */
  predicate OpensAt(line: string, i: int) {
    0 <= i && i + |Directive| < |line| && line[i..i + |Directive|] == Directive &&
    (line[i + |Directive|] == '"' || line[i + |Directive|] == '<')
  }

  /** `[^">]*`, greedy: the longest prefix of `s` with no `"` and no `>`. */
  function CaptureFrom(s: string): (r: string)
    ensures |r| <= |s| && r == s[..|r|]
    ensures '"' !in r && '>' !in r
    ensures |r| < |s| ==> s[|r|] == '"' || s[|r|] == '>'
  {
    if s == [] || s[0] == '"' || s[0] == '>' then []
    else
      var t := CaptureFrom(s[1..]);
      assert s == [s[0]] + s[1..];
      [s[0]] + t
  }

  /** `re.search` from position `i` on: the capture at the leftmost start. */
  function SearchFrom(line: string, i: nat): (r: Option<string>)
    ensures r.None? <==> forall j :: i <= j ==> !OpensAt(line, j)
    ensures r.Some? ==> exists j :: i <= j && OpensAt(line, j) &&
                          (forall k :: i <= k < j ==> !OpensAt(line, k)) &&
                          r.value == CaptureFrom(line[j + |Directive| + 1..])
    decreases |line| - i
  {
    if i + |Directive| >= |line| then None
    else if OpensAt(line, i) then Some(CaptureFrom(line[i + |Directive| + 1..]))
    else SearchFrom(line, i + 1)
  }

  /** `re.search(include_regex, line)` followed by `match.group("inc_path")`. */
  function Search(line: string): (r: Option<string>)
    ensures r.None? <==> forall j :: !OpensAt(line, j)
    ensures r.Some? ==> exists j :: OpensAt(line, j) &&
                          (forall k :: 0 <= k < j ==> !OpensAt(line, k)) &&
                          r.value == CaptureFrom(line[j + |Directive| + 1..])
  {
    SearchFrom(line, 0)
  }

  /** The captures of all lines, in line order; lines without a match add nothing. */
  function Captures(lines: seq<string>): (r: seq<string>)
    ensures |r| <= |lines|
  {
    if lines == [] then []
    else
      var r := Captures(lines[..|lines| - 1]);
      match Search(lines[|lines| - 1])
      case Some(c) => r + [c]
      case None => r
  }

  /** A string is captured iff some line's search yields it. */
  lemma CapturesIff(lines: seq<string>, c: string)
    ensures c in Captures(lines) <==> exists i :: 0 <= i < |lines| && Search(lines[i]) == Some(c)
  {
    if c in Captures(lines) {
      CapturesSound(lines, c);
    }
    if exists i :: 0 <= i < |lines| && Search(lines[i]) == Some(c) {
      var i :| 0 <= i < |lines| && Search(lines[i]) == Some(c);
      CapturesComplete(lines, i);
    }
  }

  /** Every capture comes from some line. */
  lemma {:induction false} CapturesSound(lines: seq<string>, c: string)
    requires c in Captures(lines)
    ensures exists i :: 0 <= i < |lines| && Search(lines[i]) == Some(c)
  {
    var n := |lines| - 1;
    var prefix := lines[..n];
    var found := Search(lines[n]);
    assert Captures(lines) == Captures(prefix) + (if found.Some? then [found.value] else []);
    if c in Captures(prefix) {
      CapturesSound(prefix, c);
      var i :| 0 <= i < |prefix| && Search(prefix[i]) == Some(c);
      assert lines[i] == prefix[i];
    } else {
      assert Search(lines[n]) == Some(c);
    }
  }

  /** Every line's match is captured. */
  lemma {:induction false} CapturesComplete(lines: seq<string>, i: nat)
    requires i < |lines| && Search(lines[i]).Some?
    ensures Search(lines[i]).value in Captures(lines)
  {
    var n := |lines| - 1;
    var prefix := lines[..n];
    var found := Search(lines[n]);
    assert Captures(lines) == Captures(prefix) + (if found.Some? then [found.value] else []);
    var v := Search(lines[i]).value;
    if i < n {
      assert prefix[i] == lines[i];
      CapturesComplete(prefix, i);
      assert v in Captures(prefix);
    } else {
      assert i == n;
    }
  }

  function LowerChar(c: char): char {
    if 'A' <= c <= 'Z' then (c as int + 32) as char else c
  }

  /** `file.lower()`, for ASCII letters. */
  function Lower(s: string): (r: string)
    ensures |r| == |s|
  {
    seq(|s|, i requires 0 <= i < |s| => LowerChar(s[i]))
  }

  /** `file.lower().endswith(tuple(source_types))` */
  predicate IsSourceType(file: string) {
    exists k :: 0 <= k < |SourceTypes| && EndsWith(Lower(file), SourceTypes[k])
  }

  /** `includes_from_file` over the file's lines: a file that is not of a
      source type gives no includes; otherwise the result is the first capture
      of every matching line, sorted, duplicates kept. */
  method IncludesFromFile(file: string, lines: seq<string>) returns (r: seq<string>)
    ensures !IsSourceType(file) ==> r == []
    ensures IsSourceType(file) ==> Sorted(r) && multiset(r) == multiset(Captures(lines))
  {
    var fileIncludes: seq<string> := [];
    if IsSourceType(file) {
      for i := 0 to |lines|
        invariant fileIncludes == Captures(lines[..i])
      {
        assert lines[..i + 1][..i] == lines[..i];
        var match_ := Search(lines[i]);
        if match_.Some? {
          fileIncludes := fileIncludes + [match_.value];
        }
      }
      assert lines[..|lines|] == lines;
    }
    r := Sort(fileIncludes);
  }

  lemma {:induction false} CaptureOfDelimited(path: string, rest: string)
    requires '"' !in path && '>' !in path
    requires rest == [] || rest[0] == '"' || rest[0] == '>'
    ensures CaptureFrom(path + rest) == path
    decreases |path|
  {
    if path != [] {
      CaptureOfDelimited(path[1..], rest);
      assert (path + rest)[1..] == path[1..] + rest;
      assert path == [path[0]] + path[1..];
    } else {
      assert path + rest == rest;
    }
  }

  /** A line holding `#include "p"` or `#include <p>` after text without a
      `#` yields exactly `p`, for every `p` free of `"` and `>`. */
  lemma DirectiveCaptured(pre: string, open: char, path: string, rest: string)
    requires '#' !in pre
    requires open == '"' || open == '<'
    requires '"' !in path && '>' !in path
    requires rest == [] || rest[0] == '"' || rest[0] == '>'
    ensures Search(pre + Directive + [open] + path + rest) == Some(path)
  {
    var line := pre + Directive + [open] + path + rest;
    var n := |pre|;
    forall k | 0 <= k < n ensures !OpensAt(line, k) {
      assert line[k] == pre[k];
      assert line[k..k + |Directive|][0] == line[k];
    }
    assert line[n..n + |Directive|] == Directive;
    assert line[n + |Directive|] == open;
    assert OpensAt(line, n);
    assert line[n + |Directive| + 1..] == path + rest;
    CaptureOfDelimited(path, rest);
    var r := Search(line);
    assert r.Some?;
    var j :| OpensAt(line, j) && (forall k :: 0 <= k < j ==> !OpensAt(line, k)) &&
             r.value == CaptureFrom(line[j + |Directive| + 1..]);
    assert j < n ==> !OpensAt(line, j);
    assert n < j ==> !OpensAt(line, n);
  }

  /** A line without the directive contributes nothing. */
  lemma CapturesSkipPlainLines(lines: seq<string>, line: string)
    requires forall j :: !OpensAt(line, j)
    ensures Captures(lines + [line]) == Captures(lines)
  {
    assert (lines + [line])[..|lines|] == lines;
  }
}
