/** The include classifier of includepathestimator/modules/estimateincludepaths.py:
    which includes resolve to a file of the tree (`internal_includes`), which do
    not (`external_includes`), which are on the fixed allow-list of system
    headers (`system_includes`), and the labels `record_include_types`
    attaches to each include. */
module IncludeClassifier {
  import opened Common
  import opened StringOrder
  import opened PathTokens

  /** `known_system_includes` (estimateincludepaths.py:23-137). */
  const KnownSystemIncludes: seq<string> := [
    "_ansi.h", "_fake_defines.h", "_fake_typedefs.h", "_syslist.h", "aio.h", "alloca.h",
    "ar.h", "argz.h", "assert.h", "c_types.h", "cerrno", "cmath", "complex.h", "cpio.h",
    "cstddef", "cstdint", "cstdio", "cstdlib", "cstring", "ctype.h", "dirent.h", "dlfcn.h",
    "emmintrin.h", "endian.h", "envz.h", "errno.h", "evntprov.h", "evntrace.h", "fastmath.h",
    "fcntl.h", "features.h", "fenv.h", "float.h", "fmtmsg.h", "fnmatch.h", "ftw.h", "getopt.h",
    "glob.h", "grp.h", "iconv.h", "ieeefp.h", "immintrin.h", "intrinsics.h", "inttypes.h",
    "iso646.h", "langinfo.h", "libgen.h", "libintl.h", "limits.h", "locale.h", "malloc.h",
    "math.h", "monetary.h", "mqueue.h", "ndbm.h", "netdb.h", "newlib.h", "nl_types.h",
    "paths.h", "poll.h", "process.h", "pthread.h", "pwd.h", "reent.h", "regdef.h", "regex.h",
    "sched.h", "search.h", "semaphore.h", "setjmp.h", "signal.h", "smmintrin.h", "spawn.h",
    "stdarg.h", "stdbool.h", "stddef.h", "stdint.h", "stdio.h", "stdlib.h", "string.h",
    "strings.h", "stropts.h", "sys/mkdev.h", "sys/param.h", "sys/reboot.h", "sys/resource.h",
    "sys/signal.h", "sys/socket.h", "sys/stat.h", "sys/syscall.h", "sys/time.h", "sys/times.h",
    "sys/types.h", "sys/uio.h", "sys/un.h", "sys/wait.h", "syslog.h", "tar.h", "termios.h",
    "tgmath.h", "time.h", "trace.h", "ulimit.h", "unctrl.h", "unistd.h", "utime.h", "utmp.h",
    "utmpx.h", "wchar.h", "wctype.h", "windows.h", "winsock2.h", "wmistr.h", "wordexp.h",
    "zlib.h"
  ]

  datatype IncludeLabel = System | Internal | External

  /** Some file of the list matches the include after its first `up` tokens
      are dropped; stated file by file, in list order, like the loop that
      decides it (`IsInternalIff` gives the plain reading). */
  predicate IsInternal(inc: string, fileList: seq<string>)
    decreases |fileList|
  {
    fileList != [] &&
    (IsInternal(inc, fileList[..|fileList| - 1]) || TailMatches(fileList[|fileList| - 1], inc))
  }

  /** An include is internal iff some file of the list matches it. */
  lemma IsInternalIff(inc: string, fileList: seq<string>)
    ensures IsInternal(inc, fileList) <==> exists f :: f in fileList && TailMatches(f, inc)
  {
    if IsInternal(inc, fileList) {
      IsInternalWitness(inc, fileList);
    }
    if exists f :: f in fileList && TailMatches(f, inc) {
      var f :| f in fileList && TailMatches(f, inc);
      IsInternalOfWitness(inc, fileList, f);
    }
  }

  lemma {:induction false} IsInternalWitness(inc: string, fileList: seq<string>)
    requires IsInternal(inc, fileList)
    ensures exists f :: f in fileList && TailMatches(f, inc)
    decreases |fileList|
  {
    var prefix, last := fileList[..|fileList| - 1], fileList[|fileList| - 1];
    if IsInternal(inc, prefix) {
      IsInternalWitness(inc, prefix);
      var f :| f in prefix && TailMatches(f, inc);
      assert f in fileList;
    } else {
      assert last in fileList;
    }
  }

  lemma {:induction false} IsInternalOfWitness(inc: string, fileList: seq<string>, f: string)
    requires f in fileList && TailMatches(f, inc)
    ensures IsInternal(inc, fileList)
    decreases |fileList|
  {
    var prefix, last := fileList[..|fileList| - 1], fileList[|fileList| - 1];
    if f != last {
      InPrefix(fileList, f);
      IsInternalOfWitness(inc, prefix, f);
    }
  }

  /** `internal_includes`: the includes that some file matches, sorted, each once. */
  method InternalIncludes(includeList: seq<string>, fileList: seq<string>) returns (r: seq<string>)
    ensures StrictlySorted(r)
    ensures forall inc :: inc in r <==> inc in includeList && IsInternal(inc, fileList)
    ensures r == SortedDistinct(Filter(includeList, inc => IsInternal(inc, fileList)))
  {
    var internal: seq<string> := [];
    for i := 0 to |includeList|
      invariant forall x :: x in internal <==> x in includeList[..i] && IsInternal(x, fileList)
    {
      internal := AppendMatches(internal, includeList[i], fileList);
      TakeStep(includeList, i);
    }
    assert includeList[..|includeList|] == includeList;
    r := SortedDistinct(internal);
    StrictlySortedUnique(r, SortedDistinct(Filter(includeList, inc => IsInternal(inc, fileList))));
  }

  /** The inner loop of `internal_includes`: the include is appended once for
      every file that matches it, so afterwards it is present iff some file
      matches, and nothing else is added. */
  method AppendMatches(internal: seq<string>, inc: string, fileList: seq<string>) returns (r: seq<string>)
    ensures forall x :: x in r <==> x in internal || (x == inc && IsInternal(inc, fileList))
  {
    r := internal;
    var incTokens := Split(inc);
    var up := UpCount(incTokens);
    for j := 0 to |fileList|
      invariant forall x :: x in r <==> x in internal || (x == inc && IsInternal(inc, fileList[..j]))
    {
      TakeStep(fileList, j);
      var fileTokens := Split(fileList[j]);
      if TokensMatch(fileTokens, incTokens, up) {
        r := r + [inc];
      }
    }
    assert fileList[..|fileList|] == fileList;
  }

  /** `external_includes`: `sorted(set(include_list) - set(internal_include_list))`. */
  function ExternalIncludes(includeList: seq<string>, internalList: seq<string>): (r: seq<string>)
    ensures StrictlySorted(r)
    ensures forall inc :: inc in r <==> inc in includeList && inc !in internalList
  {
    SortedDistinct(Filter(includeList, inc => inc !in internalList))
  }

  /** `system_includes`: the includes whose raw text is on the allow-list, sorted, each once. */
  function SystemIncludes(includeList: seq<string>): (r: seq<string>)
    ensures StrictlySorted(r)
    ensures forall inc :: inc in r <==> inc in includeList && inc in KnownSystemIncludes
  {
    SortedDistinct(Filter(includeList, inc => inc in KnownSystemIncludes))
  }

  /** Internal and external includes split the include list: every include is
      in exactly one of the two, and neither holds anything else. */
  lemma InternalExternalPartition(includeList: seq<string>, fileList: seq<string>, internalList: seq<string>)
    requires forall inc :: inc in internalList <==> inc in includeList && IsInternal(inc, fileList)
    ensures forall inc :: inc in includeList ==>
              (inc in internalList <==> inc !in ExternalIncludes(includeList, internalList))
    ensures forall inc :: inc in ExternalIncludes(includeList, internalList) ==>
              inc in includeList && !IsInternal(inc, fileList)
  {
  }

  /** The label list `record_include_types` leaves on one include
      (estimateincludepaths.py:535-550), starting from the labels it already
      has; `systemList` is the allow-list, `KnownSystemIncludes` there. */
  function IncludeLabels(existing: seq<IncludeLabel>, inc: string, systemList: seq<string>,
                         internalList: seq<string>): (r: seq<IncludeLabel>)
    ensures |existing| <= |r| && r[..|existing|] == existing
    ensures System in r <==> System in existing || inc in systemList
    ensures Internal in r <==> Internal in existing || inc in internalList
    ensures External in r <==> External in existing || inc !in internalList
    ensures Distinct(existing) ==> Distinct(r)
  {
    var withSystem := if inc in systemList then AppendNew(existing, System) else existing;
    if inc in internalList then AppendNew(withSystem, Internal) else AppendNew(withSystem, External)
  }

  /** On an include without labels: `system` iff the raw text is on the
      allow-list, then exactly one of `internal` and `external`. */
  lemma FreshIncludeLabels(inc: string, systemList: seq<string>, internalList: seq<string>)
    ensures var r := IncludeLabels([], inc, systemList, internalList);
            r == (if inc in systemList then [System] else []) +
                 [if inc in internalList then Internal else External]
  {
  }

  /** `stdio.h` is on the allow-list. */
  lemma StdioIsSystem()
    ensures "stdio.h" in KnownSystemIncludes
  {
    assert KnownSystemIncludes[77] == "stdio.h";
  }

  /** A header `d/x` makes the include `x` internal, whatever the folder `d`. */
  lemma NestedFileIsInternal(d: string, x: string)
    requires Separator !in d && Separator !in x && x != UpReference
    ensures IsInternal(x, [d + "/" + x])
  {
    var f := d + "/" + x;
    SplitTwo(d, x);
    SplitWithoutSeparator(x);
    assert UpCount([x]) == 0;
    TailMatchesIff(f, x);
    assert Split(f)[1..] == [x];
    assert f in [f];
  }

  /** A vendored `vendor/stdio.h` makes the include `stdio.h` internal. */
  lemma VendoredStdioIsInternal()
    ensures IsInternal("stdio.h", ["vendor" + "/" + "stdio.h"])
  {
    NestedFileIsInternal("vendor", "stdio.h");
  }

  /** So the system and internal labels are not exclusive: the vendored
      `stdio.h` carries both. */
  lemma SystemAndInternal()
    ensures IncludeLabels([], "stdio.h", KnownSystemIncludes, ["stdio.h"]) == [System, Internal]
  {
    StdioIsSystem();
    FreshIncludeLabels("stdio.h", KnownSystemIncludes, ["stdio.h"]);
  }
}
