/** include/file_tracker.hxx: finding the project root, its `src` and
    `include` directories, classifying files by extension, and collecting the
    files of each kind from a recursive directory listing. Directory listings
    are given as sequences of entries in iteration order, and the parent of a
    directory is a given function. */
module FileTracker {
  import opened Wrappers
  import opened FsModel
  import Parser
  import CoupFilesystem

  /** The directory holds a `src` or an `include` entry. */
  predicate HasProjectDir(dir: Path, fs: Snapshot) {
    Join(dir, "src") in fs || Join(dir, "include") in fs
  }

  /** Path::parent_path never lengthens a path and only a root is its own
      parent. */
  ghost predicate ParentShrinks(parent: Path -> Path) {
    forall x :: parent(x) == x || |parent(x)| < |x|
  }

  /** The directories get_root visits from `cur`: `cur`, its parent, and so on
      up to the directory that is its own parent. */
  function Ancestors(cur: Path, parent: Path -> Path): (a: seq<Path>)
    requires ParentShrinks(parent)
    ensures |a| >= 1 && a[0] == cur
    ensures parent(a[|a| - 1]) == a[|a| - 1]
    decreases |cur|
  {
    if parent(cur) == cur then [cur] else [cur] + Ancestors(parent(cur), parent)
  }

  /** Each visited directory is the parent of the one before it, and differs
      from it. */
  lemma {:induction false} AncestorsChain(cur: Path, parent: Path -> Path)
    requires ParentShrinks(parent)
    ensures forall k :: 0 <= k < |Ancestors(cur, parent)| - 1 ==>
              && Ancestors(cur, parent)[k + 1] == parent(Ancestors(cur, parent)[k])
              && Ancestors(cur, parent)[k] != Ancestors(cur, parent)[k + 1]
    decreases |cur|
  {
    if parent(cur) != cur {
      AncestorsChain(parent(cur), parent);
      var a, b := Ancestors(cur, parent), Ancestors(parent(cur), parent);
      assert a == [cur] + b;
      forall k | 0 <= k < |a| - 1
        ensures a[k + 1] == parent(a[k]) && a[k] != a[k + 1]
      {
        if k > 0 {
          assert a[k] == b[k - 1] && a[k + 1] == b[k];
        }
      }
    }
  }

  /** The answer of get_root starting from `cur`. */
  function RootSearch(cur: Path, parent: Path -> Path, fs: Snapshot): Option<Path>
    requires ParentShrinks(parent)
    decreases |cur|
  {
    if HasProjectDir(cur, fs) then Some(cur)
    else if parent(cur) == cur then None
    else RootSearch(parent(cur), parent, fs)
  }

  /** get_root: walk upward from the (absolute) start directory, returning the
      first directory holding `src` or `include`, and none once a directory
      that is its own parent has been checked. */
  method GetRoot(start: Path, parent: Path -> Path, fs: Snapshot) returns (r: Option<Path>)
    requires start in fs
    requires ParentShrinks(parent)
    ensures r == RootSearch(start, parent, fs)
  {
    var cur := start;
    while true
      invariant RootSearch(cur, parent, fs) == RootSearch(start, parent, fs)
      decreases |cur|
    {
      if Join(cur, "src") in fs || Join(cur, "include") in fs {
        return Some(cur);
      }
      var next := parent(cur);
      if cur == next {
        break;
      }
      cur := next;
    }
    return None;
  }

  /** None is found exactly when no visited directory holds `src` or
      `include`. */
  lemma RootSearchNone(cur: Path, parent: Path -> Path, fs: Snapshot)
    requires ParentShrinks(parent)
    ensures RootSearch(cur, parent, fs).None? <==>
            forall i :: 0 <= i < |Ancestors(cur, parent)| ==> !HasProjectDir(Ancestors(cur, parent)[i], fs)
  {
    RootSearchFirst(cur, parent, fs);
    if RootSearch(cur, parent, fs).None? {
      NoneAllFree(cur, parent, fs);
    }
  }

  /** When nothing is found, no visited directory qualified. */
  lemma {:induction false} NoneAllFree(cur: Path, parent: Path -> Path, fs: Snapshot)
    requires ParentShrinks(parent) && RootSearch(cur, parent, fs).None?
    ensures forall i :: 0 <= i < |Ancestors(cur, parent)| ==> !HasProjectDir(Ancestors(cur, parent)[i], fs)
    decreases |cur|
  {
    var a := Ancestors(cur, parent);
    if parent(cur) == cur {
      assert a == [cur];
    } else {
      NoneAllFree(parent(cur), parent, fs);
      var b := Ancestors(parent(cur), parent);
      assert a == [cur] + b;
      forall i | 0 <= i < |a|
        ensures !HasProjectDir(a[i], fs)
      {
        if i > 0 {
          assert a[i] == b[i - 1];
        }
      }
    }
  }

  /** The root found is the first visited directory holding `src` or
      `include`. */
  lemma {:induction false} RootSearchFirst(cur: Path, parent: Path -> Path, fs: Snapshot)
    requires ParentShrinks(parent)
    ensures RootSearch(cur, parent, fs).Some? ==>
              exists i :: && 0 <= i < |Ancestors(cur, parent)|
                          && Ancestors(cur, parent)[i] == RootSearch(cur, parent, fs).value
                          && HasProjectDir(Ancestors(cur, parent)[i], fs)
                          && forall j :: 0 <= j < i ==> !HasProjectDir(Ancestors(cur, parent)[j], fs)
    decreases |cur|
  {
    var a := Ancestors(cur, parent);
    var r := RootSearch(cur, parent, fs);
    if HasProjectDir(cur, fs) {
      assert a[0] == r.value;
    } else if parent(cur) != cur && r.Some? {
      RootSearchFirst(parent(cur), parent, fs);
      var b := Ancestors(parent(cur), parent);
      assert a == [cur] + b;
      var i :| 0 <= i < |b| && b[i] == r.value && HasProjectDir(b[i], fs) &&
               forall j :: 0 <= j < i ==> !HasProjectDir(b[j], fs);
      assert a[i + 1] == b[i];
      forall j | 0 <= j < i + 1
        ensures !HasProjectDir(a[j], fs)
      {
        if j > 0 {
          assert a[j] == b[j - 1];
        }
      }
    }
  }

  /** get_src_dir: `root/src` exactly when it exists. */
  function GetSrcDir(root: Path, fs: Snapshot): (r: Option<Path>)
    ensures r.Some? <==> Join(root, "src") in fs
    ensures r.Some? ==> r.value == Join(root, "src") && root <= r.value
  {
    if Join(root, "src") in fs then Some(Join(root, "src")) else None
  }

  /** get_include_dir: `root/include` exactly when it exists. */
  function GetIncludeDir(root: Path, fs: Snapshot): (r: Option<Path>)
    ensures r.Some? <==> Join(root, "include") in fs
    ensures r.Some? ==> r.value == Join(root, "include") && root <= r.value
  {
    if Join(root, "include") in fs then Some(Join(root, "include")) else None
  }

  /** A root found by get_root has a source or an include directory. */
  lemma RootHasDirectory(cur: Path, parent: Path -> Path, fs: Snapshot)
    requires ParentShrinks(parent) && RootSearch(cur, parent, fs).Some?
    ensures var root := RootSearch(cur, parent, fs).value;
            GetSrcDir(root, fs).Some? || GetIncludeDir(root, fs).Some?
    decreases |cur|
  {
    if !HasProjectDir(cur, fs) {
      RootHasDirectory(parent(cur), parent, fs);
    }
  }

  /** is_src_file, is_header_file, is_obj_file: the extension of
      include/parser.hxx (none for no dot or a trailing dot) is in the set of
      the kind, compared case-sensitively. */
  function IsSrcFile(file: Path): (b: bool)
    ensures b <==> Parser.GetExtension(file).Some? &&
                   Parser.GetExtension(file).value in CoupFilesystem.SourceExtensions
  {
    var ext := Parser.GetExtension(file);
    ext.Some? && ext.value in CoupFilesystem.SourceExtensions
  }

  function IsHeaderFile(file: Path): (b: bool)
    ensures b <==> Parser.GetExtension(file).Some? &&
                   Parser.GetExtension(file).value in CoupFilesystem.HeaderExtensions
  {
    var ext := Parser.GetExtension(file);
    ext.Some? && ext.value in CoupFilesystem.HeaderExtensions
  }

  function IsObjFile(file: Path): (b: bool)
    ensures b <==> Parser.GetExtension(file).Some? &&
                   Parser.GetExtension(file).value in CoupFilesystem.ObjectExtensions
  {
    var ext := Parser.GetExtension(file);
    ext.Some? && ext.value in CoupFilesystem.ObjectExtensions
  }

  /** A path without an extension, or ending in a dot, is of no kind. */
  lemma NoExtensionNoKind(file: Path)
    requires Parser.GetExtension(file).None?
    ensures !IsSrcFile(file) && !IsHeaderFile(file) && !IsObjFile(file)
  {
  }

  lemma TrailingDotNoKind(file: Path)
    requires file != [] && file[|file| - 1] == '.'
    ensures !IsSrcFile(file) && !IsHeaderFile(file) && !IsObjFile(file)
  {
  }

  /** No file has two kinds. */
  lemma KindsDisjoint(file: Path)
    ensures !(IsSrcFile(file) && IsHeaderFile(file))
    ensures !(IsSrcFile(file) && IsObjFile(file))
    ensures !(IsHeaderFile(file) && IsObjFile(file))
  {
  }

  lemma SourceExample()
    ensures IsSrcFile("src/main.cpp") && !IsHeaderFile("src/main.cpp") && !IsObjFile("src/main.cpp")
  {
    assert "src/main.cpp" == "src/main" + "." + "cpp";
    Parser.StemExtensionRoundTrip("src/main", "cpp");
  }

  lemma HeaderExample()
    ensures IsHeaderFile("include/header.hpp") && !IsSrcFile("include/header.hpp")
    ensures !IsObjFile("include/header.hpp")
  {
    assert "include/header.hpp" == "include/header" + "." + "hpp";
    Parser.StemExtensionRoundTrip("include/header", "hpp");
  }

  lemma ObjectExample()
    ensures IsObjFile("build/main.o") && !IsSrcFile("build/main.o") && !IsHeaderFile("build/main.o")
  {
    assert "build/main.o" == "build/main" + "." + "o";
    Parser.StemExtensionRoundTrip("build/main", "o");
  }

  /** The paths of the non-empty regular-file entries that `keep` accepts, in
      iteration order. */
  function Collect(entries: seq<Entry>, keep: Path -> bool): (r: seq<Path>)
    ensures |r| <= |entries|
    ensures forall x :: x in r <==>
      exists i :: 0 <= i < |entries| && entries[i].isRegular && entries[i].path != [] &&
                  keep(entries[i].path) && entries[i].path == x
  {
    if entries == [] then []
    else
      var rest := Collect(entries[..|entries| - 1], keep);
      var e := entries[|entries| - 1];
      if e.isRegular && e.path != [] && keep(e.path) then rest + [e.path] else rest
  }

  /** Collection keeps the relative order of the entries it accepts. */
  lemma {:induction false} CollectAppend(entries: seq<Entry>, more: seq<Entry>, keep: Path -> bool)
    ensures Collect(entries + more, keep) == Collect(entries, keep) + Collect(more, keep)
    decreases |more|
  {
    if more == [] {
      assert entries + more == entries;
    } else {
      var m := more[..|more| - 1];
      assert (entries + more)[..|entries + more| - 1] == entries + m;
      CollectAppend(entries, m, keep);
    }
  }

  /** The loop shared by get_src_files, get_header_files and get_obj_files:
      skip entries that are not regular files or have an empty path, push the
      accepted ones. */
  method CollectLoop(entries: seq<Entry>, keep: Path -> bool) returns (files: seq<Path>)
    ensures files == Collect(entries, keep)
  {
    files := [];
    var i := 0;
    while i < |entries|
      invariant 0 <= i <= |entries|
      invariant files == Collect(entries[..i], keep)
    {
      var entry := entries[i];
      assert entries[..i + 1][..i] == entries[..i];
      if entry.isRegular && entry.path != [] && keep(entry.path) {
        files := files + [entry.path];
      }
      i := i + 1;
    }
    assert entries[..i] == entries;
  }

  /** get_src_files: the source files of the listing of the src directory;
      headers there are only warned about (the warning is not modelled). */
  method GetSrcFiles(entries: seq<Entry>) returns (files: seq<Path>)
    ensures files == Collect(entries, IsSrcFile)
    ensures forall i :: 0 <= i < |files| ==> IsSrcFile(files[i]) && !IsHeaderFile(files[i])
  {
    files := CollectLoop(entries, IsSrcFile);
    forall i | 0 <= i < |files|
      ensures IsSrcFile(files[i]) && !IsHeaderFile(files[i])
    {
      assert files[i] in files;
      KindsDisjoint(files[i]);
    }
  }

  /** get_header_files: the headers of the listing of the include directory;
      sources there are only warned about. */
  method GetHeaderFiles(entries: seq<Entry>) returns (files: seq<Path>)
    ensures files == Collect(entries, IsHeaderFile)
    ensures forall i :: 0 <= i < |files| ==> IsHeaderFile(files[i]) && !IsSrcFile(files[i])
  {
    files := CollectLoop(entries, IsHeaderFile);
    forall i | 0 <= i < |files|
      ensures IsHeaderFile(files[i]) && !IsSrcFile(files[i])
    {
      assert files[i] in files;
      KindsDisjoint(files[i]);
    }
  }

  /** get_obj_files: the object files of the listing of the root. */
  method GetObjFiles(entries: seq<Entry>) returns (files: seq<Path>)
    ensures files == Collect(entries, IsObjFile)
    ensures forall i :: 0 <= i < |files| ==> IsObjFile(files[i])
  {
    files := CollectLoop(entries, IsObjFile);
    forall i | 0 <= i < |files|
      ensures IsObjFile(files[i])
    {
      assert files[i] in files;
    }
  }
}
