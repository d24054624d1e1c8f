/** The file-list filters of estimateincludepaths.py: headers, C sources,
    the folders that hold them, and the union of every file's includes. The
    per-file include lists are given as input (extracting them reads files). */
module FileIndex {
  import opened Common
  import opened StringOrder
  import opened PathTokens

  /** `sorted({file for file in file_list if file.endswith(suffix)})` */
  function FilesWithSuffix(fileList: seq<string>, suffix: string): (r: seq<string>)
    ensures StrictlySorted(r)
    ensures forall f :: f in r <==> f in fileList && EndsWith(f, suffix)
  {
    SortedDistinct(Filter(fileList, f => EndsWith(f, suffix)))
  }

  /** `sorted(set(map(lambda f: PurePath(f).parent.as_posix(), files)))` over
      the files with the given suffix. */
  function FoldersOfFiles(fileList: seq<string>, suffix: string): (r: seq<string>)
    ensures StrictlySorted(r)
    ensures forall d :: d in r <==> exists f :: f in fileList && EndsWith(f, suffix) && Parent(f) == d
  {
    var files := FilesWithSuffix(fileList, suffix);
    var parents := Parents(files);
    SortedDistinct(parents)
  }

  /** The parent folder of each file, in order. */
  function Parents(files: seq<string>): (r: seq<string>)
    ensures forall d :: d in r <==> exists f :: f in files && Parent(f) == d
  {
    if files == [] then []
    else
      var last := files[|files| - 1];
      var r := Parents(files[..|files| - 1]);
      assert forall f :: f in files <==> f in files[..|files| - 1] || f == last;
      r + [Parent(last)]
  }

  /** `header_files` */
  function HeaderFiles(fileList: seq<string>): (r: seq<string>)
    ensures StrictlySorted(r)
    ensures forall f :: f in r <==> f in fileList && EndsWith(f, ".h")
  {
    FilesWithSuffix(fileList, ".h")
  }

  /** `c_source_files` */
  function CSourceFiles(fileList: seq<string>): (r: seq<string>)
    ensures StrictlySorted(r)
    ensures forall f :: f in r <==> f in fileList && EndsWith(f, ".c")
  {
    FilesWithSuffix(fileList, ".c")
  }

  /** `header_folders` */
  function HeaderFolders(fileList: seq<string>): (r: seq<string>)
    ensures StrictlySorted(r)
    ensures forall d :: d in r <==> exists f :: f in fileList && EndsWith(f, ".h") && Parent(f) == d
  {
    FoldersOfFiles(fileList, ".h")
  }

  /** `c_source_folders` */
  function CSourceFolders(fileList: seq<string>): (r: seq<string>)
    ensures StrictlySorted(r)
    ensures forall d :: d in r <==> exists f :: f in fileList && EndsWith(f, ".c") && Parent(f) == d
  {
    FoldersOfFiles(fileList, ".c")
  }

  /** Every include of every file, with each file's list in file order. */
  function AllIncludes(perFile: seq<seq<string>>): (r: seq<string>)
    ensures forall inc :: inc in r <==> exists k :: 0 <= k < |perFile| && inc in perFile[k]
  {
    if perFile == [] then []
    else
      var r := AllIncludes(perFile[..|perFile| - 1]);
      assert forall k :: 0 <= k < |perFile| - 1 ==> perFile[..|perFile| - 1][k] == perFile[k];
      r + perFile[|perFile| - 1]
  }

  /** `includes`: `sorted({include for file in file_list for include in
      includes_from_file(file)})`, where `perFile[k]` is what
      `includes_from_file` gives for the k-th file. */
  function Includes(perFile: seq<seq<string>>): (r: seq<string>)
    ensures StrictlySorted(r)
    ensures forall inc :: inc in r <==> exists k :: 0 <= k < |perFile| && inc in perFile[k]
  {
    SortedDistinct(AllIncludes(perFile))
  }
}
