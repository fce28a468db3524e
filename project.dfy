/** src/project.cxx: the staleness rule of its coup_file and
    coup_project::create_project, which groups the project's sources, headers
    and objects by stem into coup_files. */
module Project {
  import opened Wrappers
  import opened Text
  import opened FsModel
  import Parser
  import CoupFile
  import FileTracker

  /** requires_rebuild of src/project.cxx: all three timestamps are read, so
      all three files must exist; the object is stale when it is older than
      the source or the header. */
  function RequiresRebuild(f: CoupFile.File, fs: Snapshot): (r: bool)
    requires f.srcExists && f.src in fs && f.header in fs && f.obj in fs
    ensures r <==> fs[f.obj] < fs[f.src] || fs[f.obj] < fs[f.header]
  {
    fs[f.obj] < fs[f.src] || fs[f.obj] < fs[f.header]
  }

  /** With all three files present, both staleness rules of the repository
      give the same answer, and so does the rule its comment describes. */
  lemma RebuildRulesAgree(f: CoupFile.File, fs: Snapshot)
    requires CoupFile.Current(f, fs) && f.srcExists && f.headerExists && f.objExists
    ensures RequiresRebuild(f, fs) == CoupFile.RequiresRebuildAsWritten(f, fs)
    ensures RequiresRebuild(f, fs) == CoupFile.RequiresRebuild(f, fs)
  {
  }

  /** The three slots of a group: {src, header, obj}; an unfilled slot holds
      the empty path. */
  datatype Slots = Slots(src: Path, header: Path, obj: Path)

  datatype Slot = SrcSlot | HeaderSlot | ObjSlot

  const Empty := Slots("", "", "")

  function Get(g: Slots, s: Slot): Path {
    match s
    case SrcSlot => g.src
    case HeaderSlot => g.header
    case ObjSlot => g.obj
  }

  /** `fgroups[key][slot] = p`: the slot is overwritten, the others kept. */
  function Set(g: Slots, s: Slot, p: Path): (r: Slots)
    ensures Get(r, s) == p
    ensures forall t :: t != s ==> Get(r, t) == Get(g, t)
  {
    match s
    case SrcSlot => g.(src := p)
    case HeaderSlot => g.(header := p)
    case ObjSlot => g.(obj := p)
  }

  /** `fgroups[key]`: a missing key reads as a value-initialised array. */
  function Lookup(m: map<string, Slots>, k: string): Slots {
    if k in m then m[k] else Empty
  }

  /** The key of a path: its get_stem (include/parser.hxx). */
  function Key(p: Path): Option<string> {
    Parser.GetStem(p)
  }

  /** One handler's loop: each file, in order, is stored in `slot` of the
      group of its key. None when a file has no stem (accessing the empty
      optional throws). */
  function Place(m: map<string, Slots>, files: seq<Path>, s: Slot): (r: Option<map<string, Slots>>)
    ensures r.None? <==> exists i :: 0 <= i < |files| && Key(files[i]).None?
  {
    if files == [] then Some(m)
    else
      var f := files[|files| - 1];
      match Place(m, files[..|files| - 1], s)
      case None => None
      case Some(m1) =>
        if Key(f).None? then None
        else Some(m1[Key(f).value := Set(Lookup(m1, Key(f).value), s, f)])
  }

  /** The keys of the files that have a stem. */
  function Stems(files: seq<Path>): (r: set<string>)
    ensures forall k :: k in r <==> exists i :: 0 <= i < |files| && Key(files[i]) == Some(k)
  {
    if files == [] then {}
    else
      var n := |files| - 1;
      var rest := Stems(files[..n]);
      assert forall i :: 0 <= i < n ==> files[..n][i] == files[i];
      if Key(files[n]).Some? then rest + {Key(files[n]).value} else rest
  }

  /** After one handler's loop the keys are the old keys and the keys of
      the files. */
  lemma {:induction false} PlaceKeys(m: map<string, Slots>, files: seq<Path>, s: Slot)
    requires Place(m, files, s).Some?
    ensures Place(m, files, s).value.Keys == m.Keys + Stems(files)
  {
    if files != [] {
      var n := |files| - 1;
      PlaceKeys(m, files[..n], s);
    }
  }

  /** A key's slot holds the last file with that key: a later file with the
      same key overwrites an earlier one. */
  lemma {:induction false} PlaceLast(m: map<string, Slots>, files: seq<Path>, s: Slot, i: nat)
    requires Place(m, files, s).Some? && i < |files|
    requires forall j :: i < j < |files| ==> Key(files[j]) != Key(files[i])
    ensures Get(Lookup(Place(m, files, s).value, Key(files[i]).value), s) == files[i]
  {
    var n := |files| - 1;
    if i < n {
      var init := files[..n];
      assert init[i] == files[i];
      assert forall j :: i < j < |init| ==> init[j] == files[j];
      PlaceLast(m, init, s, i);
    }
  }

  /** The other two slots of every group are left as they were. */
  lemma {:induction false} PlaceOtherSlots(m: map<string, Slots>, files: seq<Path>, s: Slot, k: string, t: Slot)
    requires Place(m, files, s).Some? && t != s
    ensures Get(Lookup(Place(m, files, s).value, k), t) == Get(Lookup(m, k), t)
  {
    if files != [] {
      PlaceOtherSlots(m, files[..|files| - 1], s, k, t);
    }
  }

  /** A key that no file has keeps its group. */
  lemma {:induction false} PlaceUntouched(m: map<string, Slots>, files: seq<Path>, s: Slot, k: string)
    requires Place(m, files, s).Some?
    requires forall i :: 0 <= i < |files| ==> Key(files[i]) != Some(k)
    ensures Lookup(Place(m, files, s).value, k) == Lookup(m, k)
  {
    if files != [] {
      var init := files[..|files| - 1];
      assert forall i :: 0 <= i < |init| ==> init[i] == files[i];
      PlaceUntouched(m, init, s, k);
    }
  }

  /** The grouping of the three handlers, run one after another: sources,
      then headers, then objects. */
  function Groups(srcs: seq<Path>, headers: seq<Path>, objs: seq<Path>): Option<map<string, Slots>> {
    match Place(map[], srcs, SrcSlot)
    case None => None
    case Some(m1) =>
      match Place(m1, headers, HeaderSlot)
      case None => None
      case Some(m2) => Place(m2, objs, ObjSlot)
  }

  /** A group's slot stays the empty path unless a file of that kind has the
      group's key. */
  lemma UnfilledSlotEmpty(srcs: seq<Path>, headers: seq<Path>, objs: seq<Path>, k: string)
    requires Groups(srcs, headers, objs).Some?
    requires forall i :: 0 <= i < |srcs| ==> Key(srcs[i]) != Some(k)
    ensures Lookup(Groups(srcs, headers, objs).value, k).src == ""
  {
    var m1 := Place(map[], srcs, SrcSlot).value;
    var m2 := Place(m1, headers, HeaderSlot).value;
    PlaceUntouched(map[], srcs, SrcSlot, k);
    PlaceOtherSlots(m1, headers, HeaderSlot, k, SrcSlot);
    PlaceOtherSlots(m2, objs, ObjSlot, k, SrcSlot);
  }

  /** The key of a file under `dir/` keeps `dir/` in front when the file name
      has a dot. */
  lemma KeyKeepsDirectory(dir: Path, name: Path)
    requires dir != [] && !Free(name, '.')
    ensures Key(dir + name).Some? && dir <= Key(dir + name).value
  {
    var p := dir + name;
    var i :| 0 <= i < |name| && name[i] == '.';
    assert p[|dir| + i] == '.';
    var dot := LastIndexOf(p, '.').value;
    assert dot >= |dir| + i;
  }

  /** What `dir / name` puts in front of a name that is not empty. */
  function DirPrefix(dir: Path): Path {
    if dir == [] then "" else if dir[|dir| - 1] == '/' then dir else dir + "/"
  }

  lemma JoinPrefix(dir: Path, name: Path)
    ensures Join(dir, name) == DirPrefix(dir) + name
  {
  }

  lemma JoinTwice(root: Path, sub: Path, x: Path)
    requires sub != [] && sub[|sub| - 1] != '/'
    ensures Join(Join(root, sub), x) == (DirPrefix(root) + sub + "/") + x
  {
    JoinPrefix(root, sub);
    var d := DirPrefix(root) + sub;
    assert d[|d| - 1] == sub[|sub| - 1];
  }

  /** A source under root/src and a header under root/include never share a
      group. */
  lemma SourceAndHeaderKeysDiffer(root: Path, x: Path, y: Path)
    requires !Free(x, '.') && !Free(y, '.')
    ensures Key(Join(Join(root, "src"), x)) != Key(Join(Join(root, "include"), y))
  {
    var pre := DirPrefix(root);
    JoinTwice(root, "src", x);
    JoinTwice(root, "include", y);
    var a := pre + "src" + "/";
    var b := pre + "include" + "/";
    KeyKeepsDirectory(a, x);
    KeyKeepsDirectory(b, y);
    assert a[|pre|] == 's' && b[|pre|] == 'i';
  }

  /** The coup_file built for one group (the constructor records existence). */
  function FileOf(g: Slots, fs: Snapshot): CoupFile.File {
    CoupFile.Make(g.src, g.header, g.obj, fs)
  }

  /** The files each handler collects. */
  function SrcFilesOf(root: Path, fs: Snapshot, listing: Path -> seq<Entry>): seq<Path> {
    var d := FileTracker.GetSrcDir(root, fs);
    if d.None? then [] else FileTracker.Collect(listing(d.value), FileTracker.IsSrcFile)
  }

  function HeaderFilesOf(root: Path, fs: Snapshot, listing: Path -> seq<Entry>): seq<Path> {
    var d := FileTracker.GetIncludeDir(root, fs);
    if d.None? then [] else FileTracker.Collect(listing(d.value), FileTracker.IsHeaderFile)
  }

  function ObjFilesOf(root: Path, listing: Path -> seq<Entry>): seq<Path> {
    FileTracker.Collect(listing(root), FileTracker.IsObjFile)
  }

  /** The groups of the project under `root`. */
  function ProjectGroups(root: Path, fs: Snapshot, listing: Path -> seq<Entry>): Option<map<string, Slots>> {
    Groups(SrcFilesOf(root, fs, listing), HeaderFilesOf(root, fs, listing), ObjFilesOf(root, listing))
  }

  const NoRootMessage := "[ERROR] No root directory could be identified.\n"
  /** The error that marks a file without a stem. The program itself
      terminates there, since the exception leaves a handler thread. */
  const NoStemMessage := "bad optional access"

  /** One handler's loop, storing each file in `slot` of its key's group. */
  method Fill(m: map<string, Slots>, files: seq<Path>, s: Slot) returns (r: Option<map<string, Slots>>)
    ensures r == Place(m, files, s)
  {
    var groups := m;
    var i := 0;
    while i < |files|
      invariant 0 <= i <= |files|
      invariant Place(m, files[..i], s) == Some(groups)
    {
      assert files[..i + 1][..i] == files[..i];
      var key := Key(files[i]);
      if key.None? {
        PlaceNoneExtends(m, files[..i + 1], files[i + 1..], s);
        assert files[..i + 1] + files[i + 1..] == files;
        return None;
      }
      groups := groups[key.value := Set(Lookup(groups, key.value), s, files[i])];
      i := i + 1;
    }
    assert files[..i] == files;
    return Some(groups);
  }

  lemma PlaceNoneExtends(m: map<string, Slots>, a: seq<Path>, b: seq<Path>, s: Slot)
    requires Place(m, a, s).None?
    ensures Place(m, a + b, s).None?
  {
    var i :| 0 <= i < |a| && Key(a[i]).None?;
    assert (a + b)[i] == a[i];
  }

  /** The loop over fgroups: one coup_file per key, in the map's (unspecified)
      iteration order. */
  method BuildFiles(groups: map<string, Slots>, fs: Snapshot) returns (cfiles: seq<CoupFile.File>)
    ensures |cfiles| == |groups|
    ensures forall k :: k in groups ==> FileOf(groups[k], fs) in cfiles
    ensures forall i :: 0 <= i < |cfiles| ==> exists k :: k in groups && cfiles[i] == FileOf(groups[k], fs)
  {
    cfiles := [];
    var keys := groups.Keys;
    ghost var done: set<string> := {};
    ghost var order: seq<string> := [];
    while keys != {}
      invariant Gathered(groups, fs, keys, done, order, cfiles)
      decreases |keys|
    {
      var k :| k in keys;
      var g := groups[k];
      var f := CoupFile.Make(g.src, g.header, g.obj, fs);
      assert f == FileOf(groups[k], fs);
      GatherStep(groups, fs, keys, done, order, cfiles, k);
      cfiles := cfiles + [f];
      order := order + [k];
      keys := keys - {k};
      done := done + {k};
    }
    GatherEnd(groups, fs, done, order, cfiles);
  }

  /** The state of the loop over fgroups: the keys still to visit, the keys
      visited, in visiting order, and one file per visited key. */
  ghost predicate Gathered(groups: map<string, Slots>, fs: Snapshot, keys: set<string>, done: set<string>,
                           order: seq<string>, cfiles: seq<CoupFile.File>)
  {
    && keys + done == groups.Keys && keys !! done
    && |cfiles| == |done| == |order|
    && (forall i :: 0 <= i < |order| ==> order[i] in done && cfiles[i] == FileOf(groups[order[i]], fs))
    && (forall k :: k in done ==> k in order)
  }

  lemma GatherStep(groups: map<string, Slots>, fs: Snapshot, keys: set<string>, done: set<string>,
                   order: seq<string>, cfiles: seq<CoupFile.File>, k: string)
    requires Gathered(groups, fs, keys, done, order, cfiles) && k in keys
    ensures Gathered(groups, fs, keys - {k}, done + {k}, order + [k], cfiles + [FileOf(groups[k], fs)])
    ensures |keys - {k}| < |keys|
  {
    MoveKey(keys, done, k);
    var order', cfiles' := order + [k], cfiles + [FileOf(groups[k], fs)];
    forall i | 0 <= i < |order'|
      ensures order'[i] in done + {k} && cfiles'[i] == FileOf(groups[order'[i]], fs)
    {
      if i < |order| {
        assert order'[i] == order[i] && cfiles'[i] == cfiles[i];
      }
    }
    forall x | x in done + {k}
      ensures x in order'
    {
      if x != k {
        assert x in order;
        var i :| 0 <= i < |order| && order[i] == x;
        assert order'[i] == x;
      } else {
        assert order'[|order|] == k;
      }
    }
  }

  /** Moving a key from the keys to visit to the visited ones. */
  lemma MoveKey(keys: set<string>, done: set<string>, k: string)
    requires keys !! done && k in keys
    ensures |done + {k}| == |done| + 1 && |keys - {k}| == |keys| - 1
    ensures (keys - {k}) + (done + {k}) == keys + done && (keys - {k}) !! (done + {k})
  {
    assert k !in done;
    assert keys == (keys - {k}) + {k};
  }

  lemma GatherEnd(groups: map<string, Slots>, fs: Snapshot, done: set<string>,
                  order: seq<string>, cfiles: seq<CoupFile.File>)
    requires Gathered(groups, fs, {}, done, order, cfiles)
    ensures |cfiles| == |groups|
    ensures forall k :: k in groups ==> FileOf(groups[k], fs) in cfiles
    ensures forall i :: 0 <= i < |cfiles| ==> exists k :: k in groups && cfiles[i] == FileOf(groups[k], fs)
  {
    assert done == groups.Keys;
    forall k | k in groups
      ensures FileOf(groups[k], fs) in cfiles
    {
      var i :| 0 <= i < |order| && order[i] == k;
      assert cfiles[i] == FileOf(groups[k], fs);
    }
    forall i | 0 <= i < |cfiles|
      ensures exists k :: k in groups && cfiles[i] == FileOf(groups[k], fs)
    {
      assert order[i] in groups && cfiles[i] == FileOf(groups[order[i]], fs);
    }
  }

  /** coup_project::create_project, with the three handler threads run one
      after another. Fails when no root is found, and ends with NoStemMessage
      when a collected file has no stem. */
  method CreateProject(start: Path, parent: Path -> Path, fs: Snapshot, listing: Path -> seq<Entry>)
    returns (r: Result<seq<CoupFile.File>>)
    requires start in fs
    requires FileTracker.ParentShrinks(parent)
    ensures FileTracker.RootSearch(start, parent, fs).None? <==> r == Err(NoRootMessage)
    ensures r.Err? ==> r == Err(NoRootMessage) || r == Err(NoStemMessage)
    ensures FileTracker.RootSearch(start, parent, fs).Some? ==>
              (r == Err(NoStemMessage) <==> ProjectGroups(FileTracker.RootSearch(start, parent, fs).value, fs, listing).None?)
    ensures r.Ok? ==>
      var g := ProjectGroups(FileTracker.RootSearch(start, parent, fs).value, fs, listing).value;
      && |r.value| == |g|
      && (forall k :: k in g ==> FileOf(g[k], fs) in r.value)
      && (forall i :: 0 <= i < |r.value| ==> exists k :: k in g && r.value[i] == FileOf(g[k], fs))
  {
    var rOpt := FileTracker.GetRoot(start, parent, fs);
    if rOpt.None? {
      return Err(NoRootMessage);
    }
    var root := rOpt.value;

    var srcs: seq<Path> := [];
    var sOpt := FileTracker.GetSrcDir(root, fs);
    if sOpt.Some? {
      srcs := FileTracker.GetSrcFiles(listing(sOpt.value));
    }
    var headers: seq<Path> := [];
    var iOpt := FileTracker.GetIncludeDir(root, fs);
    if iOpt.Some? {
      headers := FileTracker.GetHeaderFiles(listing(iOpt.value));
    }
    var objs := FileTracker.GetObjFiles(listing(root));

    var g1 := Fill(map[], srcs, SrcSlot);
    if g1.None? {
      return Err(NoStemMessage);
    }
    var g2 := Fill(g1.value, headers, HeaderSlot);
    if g2.None? {
      return Err(NoStemMessage);
    }
    var g3 := Fill(g2.value, objs, ObjSlot);
    if g3.None? {
      return Err(NoStemMessage);
    }
    var cfiles := BuildFiles(g3.value, fs);
    return Ok(cfiles);
  }
}
