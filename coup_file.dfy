/** coup_file of src/coup_file.cxx: a source, header and object path with the
    existence of each recorded at construction, and the rule that decides
    whether the source must be recompiled. Timestamps are read from a
    snapshot of the file system. */
module CoupFile {
  import opened FsModel

  /** A coup_file: the three paths and the three existence flags. */
  datatype File = File(src: Path, header: Path, obj: Path,
                       srcExists: bool, headerExists: bool, objExists: bool)

  /** Both constructors: the paths are kept as given, and each flag records
      whether its path exists in `fs`. */
  function Make(s: Path, h: Path, o: Path, fs: Snapshot): (f: File)
    ensures f.src == s && f.header == h && f.obj == o
    ensures f.srcExists <==> s in fs
    ensures f.headerExists <==> h in fs
    ensures f.objExists <==> o in fs
  {
    File(s, h, o, s in fs, h in fs, o in fs)
  }

  /** The flags still describe `fs`: the state in which requires_rebuild
      reads last_write_time of the files it finds present. */
  predicate Current(f: File, fs: Snapshot) {
    && (f.srcExists <==> f.src in fs)
    && (f.headerExists <==> f.header in fs)
    && (f.objExists <==> f.obj in fs)
  }

  /** requires_rebuild as written (lines 42-54): with no object file it
      answers false; otherwise the object must not be older than the header,
      when there is one, nor than the source. */
  function RequiresRebuildAsWritten(f: File, fs: Snapshot): (r: bool)
    requires Current(f, fs) && f.srcExists
    ensures !f.objExists ==> !r
    ensures r ==> fs[f.obj] < fs[f.src] || (f.headerExists && fs[f.obj] < fs[f.header])
  {
    if !f.objExists then false
    else if f.headerExists && fs[f.obj] < fs[f.header] then true
    else if fs[f.obj] < fs[f.src] then true
    else false
  }

  /** requires_rebuild as its comment (lines 38-41) describes it: a missing
      object file, or one older than the source or the existing header, means
      the source must be compiled. */
  function RequiresRebuild(f: File, fs: Snapshot): (r: bool)
    requires Current(f, fs) && f.srcExists
    ensures !f.objExists ==> r
  {
    if !f.objExists then true
    else (f.headerExists && fs[f.obj] < fs[f.header]) || fs[f.obj] < fs[f.src]
  }

  /** The code and its comment disagree on a source whose object was never
      built: "main.cpp" exists, "main.o" does not. */
  lemma MissingObjectCounterexample()
    ensures var fs: Snapshot := map["main.cpp" := 1];
            var f := Make("main.cpp", "main.hpp", "main.o", fs);
            Current(f, fs) && f.srcExists &&
            !RequiresRebuildAsWritten(f, fs) && RequiresRebuild(f, fs)
  {
  }

  /** Apart from a missing object file the two rules agree. */
  lemma AgreeWhenObjectExists(f: File, fs: Snapshot)
    requires Current(f, fs) && f.srcExists && f.objExists
    ensures RequiresRebuildAsWritten(f, fs) == RequiresRebuild(f, fs)
  {
  }

  /** A header newer than the object forces a rebuild. */
  lemma HeaderNewerRebuilds(f: File, fs: Snapshot)
    requires Current(f, fs) && f.srcExists && f.objExists && f.headerExists
    requires fs[f.obj] < fs[f.header]
    ensures RequiresRebuildAsWritten(f, fs) && RequiresRebuild(f, fs)
  {
  }

  /** A source newer than the object forces a rebuild. */
  lemma SourceNewerRebuilds(f: File, fs: Snapshot)
    requires Current(f, fs) && f.srcExists && f.objExists
    requires fs[f.obj] < fs[f.src]
    ensures RequiresRebuildAsWritten(f, fs) && RequiresRebuild(f, fs)
  {
  }

  /** An object at least as recent as the source and the existing header is
      up to date; equal timestamps count as up to date. */
  lemma UpToDate(f: File, fs: Snapshot)
    requires Current(f, fs) && f.srcExists && f.objExists
    requires fs[f.src] <= fs[f.obj]
    requires f.headerExists ==> fs[f.header] <= fs[f.obj]
    ensures !RequiresRebuildAsWritten(f, fs) && !RequiresRebuild(f, fs)
  {
  }

  /** Without a header, no timestamp other than the source's and the
      object's matters. */
  lemma HeaderAbsentIrrelevant(f: File, fs1: Snapshot, fs2: Snapshot)
    requires Current(f, fs1) && Current(f, fs2) && f.srcExists && !f.headerExists
    requires f.obj in fs1 ==> f.obj in fs2 && fs1[f.obj] == fs2[f.obj]
    requires fs1[f.src] == fs2[f.src]
    ensures RequiresRebuildAsWritten(f, fs1) == RequiresRebuildAsWritten(f, fs2)
    ensures RequiresRebuild(f, fs1) == RequiresRebuild(f, fs2)
  {
  }
}
