/** src/coup_system.cxx: the g++ command lines coup composes, and compiling a
    list of sources one after the other until one fails. */
module CoupSystem {
  import opened Wrappers
  import opened Text
  import opened FsModel
  import opened Exec

  /** execute_system_call: true exactly when the command exits with status 0. */
  function ExecuteSystemCall(status: Status, command: string): (ok: bool)
    ensures ok <==> status(command) == 0
  {
    status(command) == 0
  }

  const CompilePrefix := "g++ -std=c++20 -c "
  const LinkPrefix := "g++ -std=c++20 -o coup_exec "
  const CompileAndLinkPrefix := "g++ -o prog "

  /** make_compile_command: the fixed compiler invocation, then the path of
      the source, which must exist and be non-empty. */
  function MakeCompileCommand(src: Path, fs: Snapshot): (cmd: string)
    requires src in fs && src != []
    ensures |cmd| == |CompilePrefix| + |src|
    ensures cmd[..|CompilePrefix|] == CompilePrefix && cmd[|CompilePrefix|..] == src
  {
    CompilePrefix + src
  }

  /** Different sources give different compile commands. */
  lemma CompileCommandInjective(a: Path, b: Path, fs: Snapshot)
    requires a in fs && a != [] && b in fs && b != []
    ensures MakeCompileCommand(a, fs) == MakeCompileCommand(b, fs) <==> a == b
  {
  }

  /** make_link_command: the fixed link invocation, then each object followed
      by a space, in order; the objects are recovered by splitting the rest at
      spaces when none of them holds a space. */
  method MakeLinkCommand(objs: seq<Path>) returns (cmd: string)
    requires objs != []
    ensures cmd == LinkPrefix + JoinSuffixed(objs, " ")
    ensures |cmd| == |LinkPrefix| + SumLengths(objs) + |objs|
    ensures (forall i :: 0 <= i < |objs| ==> Free(objs[i], ' ')) ==>
              SplitSuffixed(cmd[|LinkPrefix|..], ' ') == objs
  {
    cmd := LinkPrefix;
    var i := 0;
    while i < |objs|
      invariant 0 <= i <= |objs|
      invariant cmd == LinkPrefix + JoinSuffixed(objs[..i], " ")
    {
      JoinStep(objs, " ", i);
      cmd := cmd + (objs[i] + " ");
      i := i + 1;
    }
    assert objs[..i] == objs;
    JoinLength(objs, " ");
    assert cmd[|LinkPrefix|..] == JoinSuffixed(objs, " ");
    if forall i :: 0 <= i < |objs| ==> Free(objs[i], ' ') {
      SplitJoinSuffixed(objs, ' ');
    }
  }

  /** make_compile_and_link_command: "g++ -o prog ", then each source followed
      by a space, in order. */
  method MakeCompileAndLinkCommand(srcs: seq<Path>) returns (cmd: string)
    requires srcs != []
    ensures cmd == CompileAndLinkPrefix + JoinSuffixed(srcs, " ")
    ensures |cmd| == |CompileAndLinkPrefix| + SumLengths(srcs) + |srcs|
    ensures (forall i :: 0 <= i < |srcs| ==> Free(srcs[i], ' ')) ==>
              SplitSuffixed(cmd[|CompileAndLinkPrefix|..], ' ') == srcs
  {
    cmd := CompileAndLinkPrefix;
    var i := 0;
    while i < |srcs|
      invariant 0 <= i <= |srcs|
      invariant cmd == CompileAndLinkPrefix + JoinSuffixed(srcs[..i], " ")
    {
      JoinStep(srcs, " ", i);
      cmd := cmd + (srcs[i] + " ");
      i := i + 1;
    }
    assert srcs[..i] == srcs;
    JoinLength(srcs, " ");
    assert cmd[|CompileAndLinkPrefix|..] == JoinSuffixed(srcs, " ");
    if forall i :: 0 <= i < |srcs| ==> Free(srcs[i], ' ') {
      SplitJoinSuffixed(srcs, ' ');
    }
  }

  /** make_mm_command: "g++ -MM <src> > <dep>"; for a source without spaces
      the first space after "g++ -MM " ends the source and the dependency
      file follows " > ". */
  function MakeMmCommand(src: Path, dep: Path): (cmd: string)
    ensures |cmd| == 11 + |src| + |dep| && cmd[..8] == "g++ -MM "
    ensures Free(src, ' ') ==>
              var rest := cmd[8..];
              FirstIndexOf(rest, ' ') == Some(|src|) && rest[..|src|] == src &&
              rest[|src|..|src| + 3] == " > " && rest[|src| + 3..] == dep
  {
    var cmd := "g++ -MM " + src + " > " + dep;
    assert cmd[8..] == src + [' '] + ("> " + dep);
    assert Free(src, ' ') ==> FirstIndexOf(cmd[8..], ' ') == Some(|src|) by {
      if Free(src, ' ') {
        FirstIndexOfJoin(src, ' ', "> " + dep);
      }
    }
    cmd
  }

  /** make_system_command: the command, a space, the file; for a command
      without spaces the first space separates the two again. */
  function MakeSystemCommand(command: string, file: Path): (cmd: string)
    ensures |cmd| == |command| + 1 + |file| && cmd[..|command|] == command
    ensures cmd[|command|] == ' ' && cmd[|command| + 1..] == file
    ensures Free(command, ' ') ==> FirstIndexOf(cmd, ' ') == Some(|command|)
  {
    var cmd := command + " " + file;
    assert Free(command, ' ') ==> FirstIndexOf(cmd, ' ') == Some(|command|) by {
      if Free(command, ' ') {
        assert cmd == command + [' '] + file;
        FirstIndexOfJoin(command, ' ', file);
      }
    }
    cmd
  }

  /** The compile commands of the sources, in order. */
  function CompileCommands(srcs: seq<Path>): (cmds: seq<string>)
    ensures |cmds| == |srcs|
    ensures forall i :: 0 <= i < |srcs| ==> cmds[i] == CompilePrefix + srcs[i]
  {
    seq(|srcs|, i requires 0 <= i < |srcs| => CompilePrefix + srcs[i])
  }

  /** compile(vector) with compile(src): the sources are compiled in order and
      the loop stops at the first failing command. Every source the loop
      reaches must exist and be non-empty. The result is true exactly when
      every source compiles; the commands issued are those up to the first
      failure. */
  method Compile(srcs: seq<Path>, fs: Snapshot, status: Status) returns (success: bool, issued: seq<string>)
    requires srcs != []
    requires forall i :: 0 <= i < |srcs| && i <= FirstFailure(CompileCommands(srcs), status) ==>
               srcs[i] in fs && srcs[i] != []
    ensures success <==> forall i :: 0 <= i < |srcs| ==> status(CompilePrefix + srcs[i]) == 0
    ensures issued == UntilFailure(CompileCommands(srcs), status)
  {
    ghost var cmds := CompileCommands(srcs);
    success := true;
    issued := [];
    var i := 0;
    while i < |srcs|
      invariant 0 <= i <= |srcs|
      invariant i <= FirstFailure(cmds, status)
      invariant issued == cmds[..i]
    {
      var src := srcs[i];
      var cmd := MakeCompileCommand(src, fs);
      assert cmd == cmds[i];
      issued := issued + [cmd];
      if !ExecuteSystemCall(status, cmd) {
        success := false;
        break;
      }
      i := i + 1;
    }
    if success {
      assert issued == cmds;
    } else {
      assert FirstFailure(cmds, status) == i;
    }
  }
}
