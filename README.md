# coup, modelled in Dafny

coup is a small C++ build tool. It finds the project root by walking up to
the first directory that holds `src` or `include`. It collects sources,
headers and object files by extension and groups them by stem into
`coup_file` triples. It decides which sources are stale by comparing
timestamps, orders files of an include graph with Kahn's algorithm, and
composes and runs `g++` command lines. The repository holds several variants
of the same ideas: the current `src/`/`include/` code and an older `source/`
tree. Each variant is modelled in its own module and the variants are not
merged.

The model works on values in place of the file system and processes:

- A snapshot `map<Path, int>` maps each existing path to its last-write time.
- A directory listing is a sequence of `(path, isRegular)` entries in
  iteration order.
- `parent_path` is a given function that never lengthens a path.
- A command's exit status is read from a given function from command lines
  to integers.
- Every command method also returns the sequence of command lines it issued,
  so that which processes run, and in what order, is part of each contract.

Modules and the files they model:

- `Wrappers`: Option and Result stand in for `std::optional` and exceptions.
- `Text`:
  - `rfind`/`find` of a character, and `find` of a substring;
  - `size_t` wrap-around;
  - the strings built by appending in a loop, and their split inverses.
- `FsModel`: paths, snapshots, directory entries and `operator/`.
- `CoupOptional`: include/coup_filesystem.hxx.
- `Parser`: include/parser.hxx.
- `SourceParser`: source/parser.hxx.
- `CoupFilesystem`: src/coup_filesystem.cxx.
- `FileTracker`: include/file_tracker.hxx.
- `Regex`: include/regex.hxx.
- `SourceRegex`: source/regex.hxx.
- `Dag`:
  - src/dag.cxx and include/dag.hxx;
  - `Kahn` over adjacency lists of node indices;
  - the `Node` and `Graph` classes over an arena of nodes.
- `CoupFile`: src/coup_file.cxx.
- `Project`: the `requires_rebuild` and `create_project` of src/project.cxx.
- `ThreadsafeVector`: include/threadsafe_vector.hxx, one call at a time.
- `Commands`: include/commands.hxx.
- `Exec`: the stop-at-first-failure pattern shared by the compile loops.
- `CoupSystem`: src/coup_system.cxx.
- `Utility`: include/utility.hxx.
- `SourceUtility`: source/utility.hxx.
- `CoreCompiler`: source/core/compiler.cxx.
- `Compiler`: source/compiler.cxx.

## Source repairs

Several lines do not compile but have a plain intent. The model follows that
intent:

- src/coup_filesystem.cxx:94, 112, 128, 144: the undeclared `s` and
  `file_path` are the `filepath` argument.
- src/coup_filesystem.cxx:167: `ext = "cc"` is `ext == "cc"`.
- source/regex.hxx:10: `find(...) == line.end()` is "not found" (`npos`).
- src/dag.cxx:62: `toplogical_order` is `topological_order`.
  - `topological_sort` is declared to return paths but builds nodes. The
    model returns both the node order and their paths.
  - The `nodes` member of src/dag.cxx stands for the node list of the graph.
- src/project.cxx:46: `assert(src_exists())` calls a `bool` member; the
  intent is the `src_exists` flag.
- src/project.cxx:85, 99, 111:
  - the `std::optional` from `get_stem` is unwrapped with `value()`. What
    happens when it is empty is under "Left out";
  - the map key is the stem as an owned string, not a view into a temporary.
- source/utility.hxx:
  - line 32: `cpp_version + " -c "` adds two pointers; the intent is string
    concatenation;
  - line 33: `convert_to_obj_file` returns nothing; the intent is the object
    name it computes;
  - line 9: `parse.hxx` is source/parser.hxx.
- source/compiler.cxx:
  - line 11: `std::system(cmd)` is given a `std::string`; the intent is
    `cmd.c_str()`;
  - line 15 and line 25: the builders lack their `std::string` return type;
  - line 17 and line 27: `COMPILER + " std="` and `COMPILER + " -o"` add two
    pointers; the intent is string concatenation;
  - line 36: `constd` is `const`;
  - line 38: `create_compiler_command(src, out, ver, flags)` is
    `create_compile_command(src, out, flags)`;
  - line 36 and line 52: `compile` and `link` are free functions that call
    the private member `execute_command`; the intent is members of `compiler`.

## Model

| member | source | states |
|---|---|---|
| Text.LastIndexOf | include/parser.hxx:37 | `rfind(c)`: none exactly when `c` is absent; otherwise a position holding `c` with no `c` after it |
| Text.FirstIndexOf | include/regex.hxx:20 | `find(c)`: none exactly when `c` is absent; otherwise a position holding `c` with no `c` before it |
| Text.LastIndexOfJoin | include/parser.hxx:37 | in `s + c + e` with `e` free of `c`, the last `c` is the one joined in |
| Text.FirstIndexOfJoin | include/regex.hxx:20 | in `p + c + t` with `p` free of `c`, the first `c` is the one joined in |
| Text.ContainsFirstChar | include/regex.hxx:16 | a line that contains a non-empty substring contains the substring's first character |
| Text.JoinStep | include/utility.hxx:47-50 | one more loop iteration appends exactly one more piece |
| Text.JoinPrefixedAppend | include/utility.hxx:47-50 | joining with a leading separator distributes over concatenation of the element lists, so order is kept |
| Text.JoinSuffixedAppend | src/coup_system.cxx:47-48 | the same for joining with a trailing separator |
| Text.ConcatAppend | src/coup_filesystem.cxx:295-297 | the same for plain concatenation |
| Text.JoinLength | include/utility.hxx:47-50 | a joined string is as long as its pieces plus one separator per piece |
| Text.SplitJoinPrefixed | include/utility.hxx:47-50 | pieces without the separator character are recovered, in order, by splitting the joined string |
| Text.SplitJoinSuffixed | src/coup_system.cxx:47-48 | the same for the trailing-separator join |
| Text.Substr | include/regex.hxx:29 | `substr(pos, count)` keeps at most `count` characters from `pos`, and all of the rest when fewer remain |
| FsModel.Join | include/file_tracker.hxx:27 | `dir / name` ends with `name` and begins with `dir` |
| CoupOptional.UnwrapOr | include/coup_filesystem.hxx:28-31 | a present value is returned; otherwise the fallback |
| CoupOptional.UnwrapOrThrow | include/coup_filesystem.hxx:15-25 | a present value is returned; otherwise the error "No optional value" |
| CoupOptional.UnwrapAgree | include/coup_filesystem.hxx:15-31 | on a present value both unwrappers give that value |
| Parser.GetStem | include/parser.hxx:33-47 | none exactly for "" or a first-position last dot; the whole input without a dot; otherwise the prefix before the last dot |
| Parser.GetExtension | include/parser.hxx:49-60 | none exactly for "", no dot or a trailing dot; otherwise the non-empty, dot-free text right after a '.', so exactly the text after the last dot |
| Parser.GetFilename | include/parser.hxx:62-73 | none exactly for ""; otherwise the whole input when it has no slash, and the slash-free text right after a '/', so exactly the text after the last slash, when it has one |
| Parser.FilenameOfJoin | include/parser.hxx:62-73 | the file name of `dir + "/" + name`, for a slash-free `name`, is `name` |
| Parser.CreateObjFile | include/parser.hxx:11-22 | the error "Not a valid source file" exactly when there is no dot; otherwise the prefix through the last dot followed by "o" |
| Parser.CreateObjFiles | include/parser.hxx:24-31 | succeeds exactly when every element converts; then it has the same length and element i is `create_obj_file(src[i])` |
| Parser.StemExtensionRoundTrip | include/parser.hxx:33-60 | for non-empty `s` and non-empty dot-free `e`, the stem of `s.e` is `s` and its extension is `e` |
| Parser.StemDotExtension | include/parser.hxx:46-59 | when both are present, stem + "." + extension is the input |
| Parser.ObjFileExtension | include/parser.hxx:11-22 | an object name has extension "o" and the stem of its source |
| Parser.StemExamples | tests/test_parser.cxx:30-70 | the stems the unit tests expect: "" and ".txt" give none, "a", "main.cpp" and "test.hpp" give "a", "main" and "test" |
| Parser.ExtensionExamples | tests/test_parser.cxx:72-112 | the extensions the unit tests expect, e.g. ".txt" gives "txt" and "a" gives none |
| Parser.FilenameExamples | tests/test_parser.cxx:120-161 | "" gives none, "src/main.cpp" gives "main.cpp", "CMakeLists.txt" gives itself |
| Parser.ObjFileExample | tests/test_parser.cxx:114-118 | "main.cpp" gives object "main.o" |
| SourceParser.LastDot | source/parser.hxx:8-9 | the position of the last '.', which must exist |
| SourceParser.ConvertToObjFile | source/parser.hxx:6-13 | the prefix through the last dot followed by "o"; a dot is required |
| SourceParser.ConvertToObjFiles | source/parser.hxx:15-18 | every array element is converted in place, independently, and the length is kept |
| SourceParser.GetStem | source/parser.hxx:20-26 | the prefix before the last dot, "" for ".txt"; a dot is required |
| SourceParser.GetExtension | source/parser.hxx:28-34 | a dot-free suffix shorter than the input; a dot is required |
| SourceParser.ConvertIdempotent | source/parser.hxx:11-12 | converting an object name again changes nothing |
| SourceParser.StemDotExtension | source/parser.hxx:22-33 | stem + "." + extension is the input whenever it holds a dot |
| SourceParser.DotFileExample | source/parser.hxx:20-26 | the stem of ".txt" is "" and its extension "txt" |
| CoupFilesystem.GetStemOpt | src/coup_filesystem.cxx:93-103 | none exactly for "" or a dot at index 0; the whole input without a dot; otherwise the prefix before the last dot |
| CoupFilesystem.GetExtensionOpt | src/coup_filesystem.cxx:111-119 | none exactly without a dot; otherwise the dot-free suffix after the last dot, "" for a trailing dot |
| CoupFilesystem.GetStem | src/coup_filesystem.cxx:127-132 | the stem when present, "" otherwise |
| CoupFilesystem.GetExtension | src/coup_filesystem.cxx:135-140 | the extension when present, "" otherwise |
| CoupFilesystem.GetFilename | src/coup_filesystem.cxx:143-151 | the input itself when it has no slash; otherwise the slash-free text right after a '/', so exactly the text after the last slash |
| CoupFilesystem.FilenameOfJoin | src/coup_filesystem.cxx:143-151 | the file name of `dir + "/" + name`, for a slash-free `name`, is `name` |
| CoupFilesystem.FilenameAgreesWithParser | src/coup_filesystem.cxx:143-151 | on a non-empty path it equals the get_filename of include/parser.hxx; on "" it gives "" where that one gives none |
| CoupFilesystem.ReplaceExtension | src/coup_filesystem.cxx:159-161 | the stem, ".", then the new extension |
| CoupFilesystem.MakeDepFile | src/coup_filesystem.cxx:280-282 | the result has extension "d" |
| CoupFilesystem.MakeObjFile | src/coup_filesystem.cxx:285-287 | the result has extension "o" |
| CoupFilesystem.IsSrcFile | src/coup_filesystem.cxx:164-173 | true exactly when the extension is one of cpp, cc, C, cxx, c++ |
| CoupFilesystem.IsHeaderFile | src/coup_filesystem.cxx:176-185 | true exactly when the extension is one of h, hpp, hxx, hh, h++, H |
| CoupFilesystem.IsObjFile | src/coup_filesystem.cxx:188-196 | true exactly when the extension is o or obj |
| CoupFilesystem.FileToString | src/coup_filesystem.cxx:290-299 | the lines concatenated with no separator |
| CoupFilesystem.WordLength | src/coup_filesystem.cxx:310 | the extent of the leading non-whitespace run that `>>` reads |
| CoupFilesystem.TokensAreWords | src/coup_filesystem.cxx:310 | every token read is non-empty and holds no whitespace |
| CoupFilesystem.DependenciesMembers | src/coup_filesystem.cxx:311-315 | a token is kept exactly when it does not end in ':' and is not "\\" |
| CoupFilesystem.ParseDependencyFile | src/coup_filesystem.cxx:303-319 | the whitespace tokens of the concatenated lines, filtered, in order |
| CoupFilesystem.ReplaceExtensionHasExtension | src/coup_filesystem.cxx:159-161 | with a dot-free new extension, the result's extension is exactly it |
| CoupFilesystem.ExtensionOfDotted | src/coup_filesystem.cxx:111-119 | `stem.ext` with a dot-free `ext` has extension `ext` |
| CoupFilesystem.ReplaceExtensionKeepsStem | src/coup_filesystem.cxx:159-161 | replacing the extension keeps a non-empty stem |
| CoupFilesystem.ClassesDisjoint | src/coup_filesystem.cxx:164-196 | no path is of two kinds |
| CoupFilesystem.StemAgreesWithParser | src/coup_filesystem.cxx:93-103 | this stem agrees with that of include/parser.hxx on every input |
| CoupFilesystem.ExtensionVersusParser | src/coup_filesystem.cxx:111-119 | a trailing dot gives "" here but none in include/parser.hxx; elsewhere they agree |
| CoupFilesystem.ClassificationExamples | src/coup_filesystem.cxx:164-196 | "main.C" is a source, "util.H" a header, "main.obj" an object |
| CoupFilesystem.UpperCaseExample | src/coup_filesystem.cxx:167-168 | classification is case-sensitive: "main.CPP" is of no kind |
| FileTracker.Ancestors | include/file_tracker.hxx:25-34 | the directories visited start at the start directory and end at one that is its own parent |
| FileTracker.AncestorsChain | include/file_tracker.hxx:25-34 | each visited directory is the parent of the one before it, and differs from it |
| FileTracker.GetRoot | include/file_tracker.hxx:20-36 | the loop returns what the upward search from the start directory returns |
| FileTracker.RootSearchNone | include/file_tracker.hxx:25-35 | none exactly when no visited directory holds `src` or `include` |
| FileTracker.NoneAllFree | include/file_tracker.hxx:25-35 | when none is found, no visited directory holds `src` or `include` |
| FileTracker.RootSearchFirst | include/file_tracker.hxx:25-35 | a root found is a visited directory holding `src` or `include`, and no earlier visited directory holds one |
| FileTracker.RootHasDirectory | include/file_tracker.hxx:27-29 | a root that is found has a source or an include directory |
| FileTracker.GetSrcDir | include/file_tracker.hxx:38-45 | `root/src` exactly when it exists, none otherwise |
| FileTracker.GetIncludeDir | include/file_tracker.hxx:47-54 | `root/include` exactly when it exists, none otherwise |
| FileTracker.IsSrcFile | include/file_tracker.hxx:56-73 | true exactly when the include/parser.hxx extension is present and a source extension |
| FileTracker.IsHeaderFile | include/file_tracker.hxx:75-93 | true exactly when that extension is present and a header extension |
| FileTracker.IsObjFile | include/file_tracker.hxx:95-106 | true exactly when that extension is present and an object extension |
| FileTracker.NoExtensionNoKind | include/file_tracker.hxx:59-61 | a path without an extension is of no kind |
| FileTracker.TrailingDotNoKind | include/file_tracker.hxx:78-80 | a path ending in a dot is of no kind |
| FileTracker.KindsDisjoint | include/file_tracker.hxx:56-106 | no path is of two kinds |
| FileTracker.SourceExample | tests/test_file_tracker.cxx:125-156 | "src/main.cpp" is only a source |
| FileTracker.HeaderExample | tests/test_file_tracker.cxx:125-156 | "include/header.hpp" is only a header |
| FileTracker.ObjectExample | tests/test_file_tracker.cxx:125-156 | "build/main.o" is only an object |
| FileTracker.Collect | include/file_tracker.hxx:113-134 | a path is collected exactly when a non-empty regular-file entry with that path is accepted; there are never more paths than entries |
| FileTracker.CollectAppend | include/file_tracker.hxx:113-134 | collection keeps the iteration order of the entries |
| FileTracker.CollectLoop | include/file_tracker.hxx:142-163 | the filtering loop collects exactly the accepted regular files, in order |
| FileTracker.GetSrcFiles | include/file_tracker.hxx:108-135 | exactly the source entries, in order; no header is kept |
| FileTracker.GetHeaderFiles | include/file_tracker.hxx:137-164 | exactly the header entries, in order; no source is kept |
| FileTracker.GetObjFiles | include/file_tracker.hxx:166-183 | exactly the object entries, in order |
| Regex.OpenPos | include/regex.hxx:20 | `find('"') + 1` in `size_t`: 0 when there is no quote, otherwise one past the first quote |
| Regex.ExtractHeader | include/regex.hxx:12-30 | none exactly for an empty line, a line without "#include", or a line without '"' |
| Regex.OpenPosNeverNpos | include/regex.hxx:20-23 | the `l == npos` test never fires |
| Regex.BetweenQuotes | include/regex.hxx:20-29 | with two or more quotes, the text strictly between the first and the last quote |
| Regex.SingleQuote | include/regex.hxx:20-29 | with exactly one quote, `r - l` wraps and the result is everything after it |
| Regex.QuotedName | include/regex.hxx:12-30 | a line `p"h"` whose quote-free prefix `p` starts with "#include", with a quote-free name `h`, gives `h` |
| Regex.OneSpaceExample | tests/test_regex.cxx:26-33 | `#include "header.hpp"` gives "header.hpp" |
| Regex.NoSpaceExample | tests/test_regex.cxx:35-42 | `#include"header.hpp"` gives "header.hpp" |
| Regex.ManySpacesExample | tests/test_regex.cxx:44-51 | extra spaces before the quote do not matter |
| Regex.SystemHeaderExample | tests/test_regex.cxx:53-57 | `#include <iostream>` gives none |
| Regex.NonIncludeExample | tests/test_regex.cxx:59-63 | "int x = 42" gives none |
| SourceRegex.ExtractHeader | source/regex.hxx:7-18 | none exactly for an empty line, no "#include" or no quote |
| SourceRegex.AgreesWithViewVariant | source/regex.hxx:7-18 | the owned-string variant returns the same text as include/regex.hxx on every line: with one quote, everything after it; otherwise the text between the first and last quote |
| Dag.InDegRemove | src/dag.cxx:52-58 | removing a node lowers each in-degree by the number of that node's edges into it |
| Dag.InDegAtLeast | src/dag.cxx:27-35 | a node still present contributes all of its edges to the in-degrees |
| Dag.InDegZero | src/dag.cxx:27-35 | the in-degree is 0 exactly when no remaining node has an edge into the node |
| Dag.SeedsUpTo | src/dag.cxx:36-43 | the seeds among the first k nodes are exactly those with in-degree 0, without repeats, in node order |
| Dag.Range | src/dag.cxx:61 | the set of node indices below n |
| Dag.SetOfDistinct | src/dag.cxx:61 | a list without repeats has as many elements as its set |
| Dag.RangeCard | src/dag.cxx:61 | there are n indices below n |
| Dag.SubsetCard | src/dag.cxx:61 | a subset is no larger, and a proper subset is smaller |
| Dag.DistinctBound | src/dag.cxx:61 | a repeat-free list of indices below n has at most n entries, and exactly n when it holds every index |
| Dag.ParentWalk | src/dag.cxx:47-61 | when every remaining node has a remaining parent, there is a backward walk through n + 1 remaining nodes |
| Dag.WalkCycle | src/dag.cxx:47-61 | a backward walk that repeats a node contains a cycle |
| Dag.CycleFromNoSource | src/dag.cxx:47-61 | remaining nodes that all have a remaining parent lie on a cycle |
| Dag.Backward | src/dag.cxx:52-58 | in a parents-first order, the start of a cycle appears before any later cycle node |
| Dag.CycleNotOrdered | src/dag.cxx:54-58 | no node of a cycle ever reaches in-degree 0, so none is output |
| Dag.DistinctSplit | src/dag.cxx:49-50 | the output and the queue never share a node |
| Dag.ParentsFirstAppend | src/dag.cxx:49-50 | emitting a node whose parents were all emitted keeps parents before children |
| Dag.AcyclicHasSeed | src/dag.cxx:44 | a non-empty acyclic graph has a node of in-degree 0, so the assertion holds |
| Dag.Kahn | src/dag.cxx:25-63 | no repeats; parents before children on every edge; starts with the in-degree-0 nodes in node order; as long as the graph exactly when it is acyclic, so then a permutation; no cycle node is output; both assertions hold exactly when the graph is non-empty and acyclic |
| Dag.Emit | src/dag.cxx:49-50 | popping the queue front and appending it keeps the drain invariant |
| Dag.Drained | src/dag.cxx:47-61 | once the queue is empty, the output has every node exactly when the graph is acyclic, and holds no cycle node |
| Dag.SeedQueue | src/dag.cxx:36-43 | the initial queue is exactly the in-degree-0 nodes in node order |
| Dag.CountInDegrees | src/dag.cxx:27-35 | every counter equals the number of edges into its node |
| Dag.Release | src/dag.cxx:52-58 | each child's counter drops by one per edge, and exactly the children reaching 0 are queued, each once |
| Dag.WellFormedAddEdge | src/dag.cxx:70-73 | adding an edge between nodes of the graph keeps every child a node of the graph |
| Dag.WellFormedAddNode | src/dag.cxx:75-78 | adding a new child node keeps every child a node of the graph |
| Dag.Node.constructor | include/dag.hxx:30-34 | a node is built only for an existing path, with its kind and path and no children |
| Dag.Node.Insert | include/dag.hxx:36 | the child is appended at the end, earlier children stay in place, and the out-degree grows by one; kind and path are constants |
| Dag.Graph.constructor | src/dag.cxx:12-14 | the graph holds the given nodes |
| Dag.Graph.AddEdge | src/dag.cxx:70-73 | `u->insert(v)`: only u's child list changes, by one appended child |
| Dag.Graph.InsertNew | src/dag.cxx:75-78 | `insert(ft, p)`: a fresh node with that kind and path becomes the parent's last child |
| Dag.Graph.PathsOf | src/dag.cxx:25 | the path of each node of the order, in order |
| Dag.Graph.TopologicalSort | src/dag.cxx:25-63 | the Kahn guarantees stated over the nodes' own child lists, with their paths |
| CoupFile.Make | src/coup_file.cxx:10-36 | the getters return the constructor's paths, and each flag records whether its path existed at construction |
| CoupFile.RequiresRebuildAsWritten | src/coup_file.cxx:42-54 | with no object, false; true only when the object is older than the source or the existing header |
| CoupFile.RequiresRebuild | src/coup_file.cxx:38-41 | the rule the comment describes: a missing object means a rebuild |
| CoupFile.MissingObjectCounterexample | src/coup_file.cxx:45-46 | an existing main.cpp without main.o: the code says false, the comment says true |
| CoupFile.AgreeWhenObjectExists | src/coup_file.cxx:47-53 | when the object exists, the code and the comment agree |
| CoupFile.HeaderNewerRebuilds | src/coup_file.cxx:47-48 | an existing header newer than the object forces a rebuild |
| CoupFile.SourceNewerRebuilds | src/coup_file.cxx:49-50 | a source newer than the object forces a rebuild |
| CoupFile.UpToDate | src/coup_file.cxx:47-53 | an object no older than the source and the existing header needs no rebuild; equal times count as up to date |
| CoupFile.HeaderAbsentIrrelevant | src/coup_file.cxx:47 | without a header, the header's timestamp never matters |
| Project.RequiresRebuild | src/project.cxx:44-53 | with all three files present, true exactly when the object is older than the source or the header |
| Project.RebuildRulesAgree | src/project.cxx:44-53 | with all three present, it agrees with both rules of src/coup_file.cxx |
| Project.Set | src/project.cxx:86 | writing one slot of a triple leaves the other two unchanged |
| Project.Place | src/project.cxx:82-87 | the grouping loop fails exactly when some file has no stem |
| Project.Stems | src/project.cxx:82-87 | a key is collected exactly when some file has it as its stem |
| Project.PlaceKeys | src/project.cxx:82-87 | the keys of the groups afterwards are the earlier keys plus the stems of the files |
| Project.PlaceLast | src/project.cxx:86 | the last file with a given stem is the one left in its slot |
| Project.PlaceOtherSlots | src/project.cxx:86-112 | one loop writes only its own slot |
| Project.PlaceUntouched | src/project.cxx:82-87 | a group whose stem no file has is left as it was |
| Project.UnfilledSlotEmpty | src/project.cxx:120-125 | a group with no source keeps the empty path in the source slot |
| Project.KeyKeepsDirectory | src/project.cxx:85 | the key of a file keeps its directory part |
| Project.JoinPrefix | src/project.cxx:78-80 | `dir / name` is the slash-terminated directory followed by the name |
| Project.JoinTwice | src/project.cxx:78-80 | `root / sub / x` spelled out as a prefix and a name |
| Project.SourceAndHeaderKeysDiffer | src/project.cxx:85-99 | a file under `root/src` and one under `root/include` never share a group |
| Project.Fill | src/project.cxx:82-87 | the sequential loop computes the grouping function |
| Project.PlaceNoneExtends | src/project.cxx:82-87 | once a file has no stem, more files do not help |
| Project.BuildFiles | src/project.cxx:120-125 | one coup_file per group, and every coup_file comes from a group |
| Project.CreateProject | src/project.cxx:64-128 | fails with the no-root message exactly when no root is found, and with "bad optional access" (where the process terminates) exactly when a collected file has no stem; otherwise one coup_file per stem group of the sources, headers and objects |
| ThreadsafeVector.Vector.constructor | include/threadsafe_vector.hxx:39-43 | empty, with capacity 10 |
| ThreadsafeVector.Vector.Resize | include/threadsafe_vector.hxx:19-36 | a new buffer of the given capacity holding the same elements |
| ThreadsafeVector.Vector.PushBack | include/threadsafe_vector.hxx:51-59 | the value becomes the last element, earlier elements are unchanged, and the capacity doubles exactly when the buffer was full |
| ThreadsafeVector.Vector.PopBack | include/threadsafe_vector.hxx:61-65 | one element fewer, with the capacity kept |
| ThreadsafeVector.Vector.Get | include/threadsafe_vector.hxx:67-71 | the element at the index |
| ThreadsafeVector.Vector.Size | include/threadsafe_vector.hxx:73-77 | the number of elements |
| ThreadsafeVector.Vector.Capacity | include/threadsafe_vector.hxx:79-83 | the capacity, which is at least 10 and at least the size |
| ThreadsafeVector.Vector.Empty | include/threadsafe_vector.hxx:86-90 | true exactly when there are no elements |
| ThreadsafeVector.Vector.Reserve | include/threadsafe_vector.hxx:92-117 | nothing changes for a capacity no larger than the current one; otherwise the capacity becomes exactly it; the elements are kept |
| ThreadsafeVector.HundredPushes | tests/threadsafe_vector_test.cxx:18-44 | after 100 pushes of 99 there are 100 elements, all 99, and the vector is not empty |
| ThreadsafeVector.PushesThenReserve | tests/threadsafe_vector_test.cxx:46-70 | after 200 pushes and `reserve(500)` the capacity is 500 and the size 200 |
| Commands.CreateCommand | include/commands.hxx:55-74 | "build", "run" and "clean" select their command; anything else raises "invalid command" |
| Commands.CreateNameRoundTrip | include/commands.hxx:55-74 | each command is selected by its own name and by no other argument |
| Commands.CreateCommandExamples | tests/test_commands.cxx:25-39 | the three names select their commands; "Build" and "" are invalid |
| Commands.ExecuteCmd | include/commands.hxx:17-52 | clean returns true; build and run call Project.CreateProject and end with its error, the no-root message exactly when no root is found and "bad optional access" exactly when a file has no stem; otherwise true; never false |
| Exec.FirstFailure | src/coup_system.cxx:109-117 | the first command with a nonzero status: all before it succeed |
| Exec.UntilFailure | source/utility.hxx:55-64 | a stop-at-first-failure loop issues a prefix: all commands when all succeed, otherwise up to the failing one, which is last |
| CoupSystem.ExecuteSystemCall | src/coup_system.cxx:22-26 | true exactly when the exit status is 0 |
| CoupSystem.MakeCompileCommand | src/coup_system.cxx:29-38 | "g++ -std=c++20 -c " followed by the source, which must exist and be non-empty |
| CoupSystem.CompileCommandInjective | src/coup_system.cxx:29-38 | different sources give different compile commands |
| CoupSystem.MakeLinkCommand | src/coup_system.cxx:41-54 | "g++ -std=c++20 -o coup_exec " then each object and a space, in order; the objects are recovered by splitting; the list must be non-empty |
| CoupSystem.MakeCompileAndLinkCommand | src/coup_system.cxx:56-70 | "g++ -o prog " then each source and a space, in order, recoverable by splitting |
| CoupSystem.MakeMmCommand | src/coup_system.cxx:80-85 | "g++ -MM " then the source, " > ", the dependency file; both are recovered when the source has no space |
| CoupSystem.MakeSystemCommand | src/coup_system.cxx:88-92 | the command, a space, the file; the first space separates them when the command has none |
| CoupSystem.CompileCommands | src/coup_system.cxx:109-112 | the compile command of each source, in order |
| CoupSystem.Compile | src/coup_system.cxx:96-119 | true exactly when every source compiles; the commands issued stop at the first failure; only sources the loop reaches must exist |
| Utility.CreateCompileCommand | include/utility.hxx:31-40 | "g++ -std=VER -c SRC -o OBJ" with OBJ from `create_obj_file`, ending in ".o"; the "Not a valid source file" error exactly without a dot |
| Utility.CreateLinkCommand | include/utility.hxx:42-54 | "g++ -std=VER", " OBJ" per object in order, " -o program"; the objects are recovered by splitting; an empty list is allowed |
| Utility.CreateRunCommand | include/utility.hxx:56 | "./program" |
| Utility.CompileCommands | include/utility.hxx:62-66 | the compile command of each source, in order |
| Utility.Compile | include/utility.hxx:58-78 | every source's command is issued, and the result is true exactly when all exit with 0 |
| Utility.Link | include/utility.hxx:80-91 | true exactly when the link command exits with 0 |
| Utility.RunExecutable | include/utility.hxx:93-101 | true exactly when ./program exits with 0 |
| Utility.ObjFiles | include/utility.hxx:108 | one object per source, in the same order, each `create_obj_file` of its source |
| Utility.Build | include/utility.hxx:103-115 | stops at the compile assertion unless every source compiles; then links exactly the objects of the sources, and stops at the link assertion unless linking succeeds |
| SourceUtility.CreateCompileCommand | source/utility.hxx:29-35 | "g++ -std=VER -c SRC -o OBJ" with OBJ the converted name ending in ".o"; a dot is required |
| SourceUtility.CreateLinkCommand | source/utility.hxx:37-49 | the same line as include/utility.hxx: "g++ -std=VER", " OBJ" per object, " -o program" |
| SourceUtility.CreateRunCommand | source/utility.hxx:51 | "./program", as in include/utility.hxx |
| SourceUtility.Compile | source/utility.hxx:53-66 | compile commands of a prefix of the sources, all but the last succeeding; true exactly when every source compiled, and then all were attempted; false right after the first failure |
| CoreCompiler.CreateBuildCommand | source/core/compiler.cxx:16-29 | "g++ -std=VER", " SRC" per source in order, " -o project"; the sources are recovered by splitting |
| CoreCompiler.CreateRunCommand | source/core/compiler.cxx:31-34 | "./project" |
| CoreCompiler.Build | source/core/compiler.cxx:36-43 | one command, true exactly when it exits with 0 |
| CoreCompiler.Run | source/core/compiler.cxx:45-58 | a failed build returns false without running anything; otherwise true exactly when ./project exits with 0 |
| Compiler.CreateCompileCommand | source/compiler.cxx:15-23 | "COMPILER std=CPP -c SRC -o OUT", then " FLAG" per flag in order, recoverable by splitting; "std=" has no dash |
| Compiler.CreateLinkCommand | source/compiler.cxx:25-34 | "COMPILER -o", then " OBJ" per object in order; `out` plays no part |
| Compiler.LinkExample | source/compiler.cxx:25-34 | for main.o and util.o the line is "g++ -o main.o util.o", so the first object follows "-o" |
| Compiler.Compile | source/compiler.cxx:36-50 | false exactly when the compile command exits nonzero |
| Compiler.Link | source/compiler.cxx:52-66 | false exactly when the link command exits nonzero |

## Left out

- File system access is modelled on values:
  - `fs::exists` and `last_write_time` come from a snapshot;
  - `recursive_directory_iterator` is a given listing;
  - `parent_path` is a given function;
  - `absolute` and `current_path` are not modelled, and get_root's start is taken to be absolute already;
  - `ifstream` reading is a given sequence of lines.
  Existence flags and timestamps are read from the same snapshot.
- Process execution is not modelled. `std::system` is a given exit-status function; the shell itself is not modelled.
- Concurrency, shown one call at a time:
  - the mutex of threadsafe_vector;
  - the per-source threads of include/utility.hxx compile, run in source order;
  - the three handler threads of create_project, run sources, then headers, then objects.
- Console output is not modelled: the `std::cerr` warnings and messages, `print_usage`, the `DEBUG` echo of source/core/compiler.cxx. Where a warning accompanies a filter, only the filter result is modelled.
- Memory management is not modelled:
  - `dag::~dag`;
  - `delete` instead of `delete[]`;
  - pop_back's delete of an out-of-range slot;
  - `sv_cstr`'s pointer to a stack buffer;
  - the `std::string_view` bound to the temporary returned by `get_extension` at src/coup_filesystem.cxx:165, 177 and 189, which dangles; the model reads the extension as a value;
  - placement-new versus move construction.
- The vector's `emplace_back`, `front` and `back` are never defined. They are not modelled.
- ThreadsafeVector.Vector.PushBack: `capacity_ * 2` is not wrapped at 64 bits, because no vector of that size can be allocated.
- ThreadsafeVector.Vector.Get: `operator[]` beyond the size is undefined behaviour and is excluded by the precondition.
- Dag.Graph.TopologicalSort:
  - requires every child to be a node of the graph and no node listed twice;
  - outside that precondition the source differs: src/dag.cxx:52-57 decrements the count of every child and queues it at zero, so a child outside `nodes` whose parents have all been output is queued and output too (line 50). The order is then longer than `nodes` and the assertion at line 61 fails, even for an acyclic graph. `node::insert(ft, p)` (src/dag.cxx:75-78) builds exactly such a child; the model hides this case because Dag.Graph.InsertNew registers the new node in the graph;
  - with the assertions enabled, the source stops; the model reports the outcome as `valid`.
- The result of topological sort depends only on the order of the nodes and of each child list. No separate lemma states this, because methods here are deterministic.
- Dag.Graph.InsertNew registers the new node in the graph's arena. The source only links it from its parent, which leaves the new node outside `nodes`; see the Dag.Graph.TopologicalSort entry.
- Project.CreateProject: when a collected file has no stem, the `value()` at src/project.cxx:85, 99 or 111 throws inside a handler thread, and an exception leaving a thread function ends the process through `std::terminate`. The model returns the error "bad optional access" instead, so it does not capture that `create_project` never returns in that case; Commands.ExecuteCmd passes that error on in the same way.
- These are outside the modelled operations, each a single system call over the modelled builders:
  - in src/coup_system.cxx: `make_run_command`, `link`, `compile_and_link`, `run`, `remove_file`, `remove_directory`, `make_directory` and `get_dependencies`;
  - `run` and `clean` of include/utility.hxx;
  - `link`, `run_executable`, `build`, `run` and `clean` of source/utility.hxx. Its `build` also passes a const vector to `convert_to_obj_files`, which takes a mutable array.
- Utility.Compile requires every source to contain a '.'. A source without one throws inside its thread and terminates the process.
- Utility.Build: the assertions are taken as enabled. A failed one ends the call with an error; with `NDEBUG` the source would go on and return true.
- src/coup_filesystem.cxx: the `find_*_files`, `get_*_dir` and `get_*_files` wrappers over the directory iterator are not modelled. Their include/file_tracker.hxx counterparts are.
- include/coup_file.hxx declares a transitive `requires_recompile` and dependency list that are never defined. No transitive staleness is modelled.
- These files are declaration-only, stubs, configuration or logging, and are not part of this model:
  - source/file_tracker.hxx, include/coup_project.hxx, include/coup_system.hxx, source/compiler.hxx, source/core/compiler.hxx, src/project.hxx;
  - include/project.hxx, source/commands.hxx, the main files, the JSON and logger files, include/coup_err.hxx and source/config.hxx.
  The C++ version and compiler strings are parameters.

## Findings

| source | as written | input that shows it | evidently intended | confidence | as-written member | corrected member |
|---|---|---|---|---|---|---|
| src/coup_file.cxx:45-46 | `requires_rebuild` returns false when the object file does not exist | main.cpp exists and main.o does not | true, as the comment at src/coup_file.cxx:38-41 says: a missing object must be compiled | high; not executed | CoupFile.RequiresRebuildAsWritten (shown by CoupFile.MissingObjectCounterexample) | CoupFile.RequiresRebuild |
