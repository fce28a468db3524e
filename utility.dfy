/** include/utility.hxx: the compile, link and run command lines for a C++
    version `ver`, compiling every source, and the build sequence. The
    per-source threads of compile are modelled one after the other. */
module Utility {
  import opened Wrappers
  import opened Text
  import opened Exec
  import Parser

  /** create_compile_command: "g++ -std=<ver> -c <src> -o <obj>" where <obj>
      is create_obj_file(src), which ends in ".o"; a source without '.' makes
      create_obj_file throw. */
  function CreateCompileCommand(ver: string, src: string): (r: Result<string>)
    ensures r.Err? <==> Free(src, '.')
    ensures r.Err? ==> r.msg == "Not a valid source file"
    ensures r.Ok? ==>
              var obj := Parser.CreateObjFile(src).value;
              r.value == "g++ -std=" + ver + " -c " + src + " -o " + obj &&
              |obj| >= 2 && obj[|obj| - 2..] == ".o"
  {
    match Parser.CreateObjFile(src)
    case Err(msg) => Err(msg)
    case Ok(obj) =>
      assert obj[|obj| - 2..] == [src[LastIndexOf(src, '.').value], 'o'];
      Ok("g++ -std=" + ver + " -c " + src + " -o " + obj)
  }

  /** The link command line: "g++ -std=<ver>", " <obj>" for each object in
      order, then " -o program". */
  function LinkCommand(ver: string, objs: seq<string>): string {
    "g++ -std=" + ver + JoinPrefixed(objs, " ") + " -o program"
  }

  /** create_link_command: the objects appear in order between the version
      and " -o program", and are recovered by splitting at spaces when none
      holds a space; an empty list is allowed. */
  method CreateLinkCommand(ver: string, objs: seq<string>) returns (cmd: string)
    ensures cmd == LinkCommand(ver, objs)
    ensures |cmd| == 9 + |ver| + SumLengths(objs) + |objs| + 11
    ensures (forall i :: 0 <= i < |objs| ==> Free(objs[i], ' ')) ==>
              SplitPrefixed(cmd[9 + |ver|..|cmd| - 11], ' ') == objs
  {
    cmd := "g++ -std=" + ver;
    var i := 0;
    while i < |objs|
      invariant 0 <= i <= |objs|
      invariant cmd == "g++ -std=" + ver + JoinPrefixed(objs[..i], " ")
    {
      JoinStep(objs, " ", i);
      cmd := cmd + (" " + objs[i]);
      i := i + 1;
    }
    assert objs[..i] == objs;
    cmd := cmd + " -o program";
    JoinLength(objs, " ");
    assert cmd[9 + |ver|..|cmd| - 11] == JoinPrefixed(objs, " ");
    if forall i :: 0 <= i < |objs| ==> Free(objs[i], ' ') {
      SplitJoinPrefixed(objs, ' ');
    }
  }

  /** create_run_command. */
  function CreateRunCommand(): (cmd: string)
    ensures cmd == "./program"
  {
    "./program"
  }

  /** The compile command of every source, in order. */
  function CompileCommands(ver: string, srcs: seq<string>): (cmds: seq<string>)
    requires forall i :: 0 <= i < |srcs| ==> !Free(srcs[i], '.')
    ensures |cmds| == |srcs|
    ensures forall i :: 0 <= i < |srcs| ==> cmds[i] == CreateCompileCommand(ver, srcs[i]).value
  {
    seq(|srcs|, i requires 0 <= i < |srcs| && !Free(srcs[i], '.') => CreateCompileCommand(ver, srcs[i]).value)
  }

  /** compile: every source is compiled (a failure does not stop the
      others), and the result is true exactly when every command exits with
      0. A source without '.' would terminate the process from its thread, so
      every source must have one. */
  method Compile(ver: string, srcs: seq<string>, status: Status) returns (success: bool, issued: seq<string>)
    requires forall i :: 0 <= i < |srcs| ==> !Free(srcs[i], '.')
    ensures issued == CompileCommands(ver, srcs)
    ensures success <==> forall i :: 0 <= i < |issued| ==> status(issued[i]) == 0
  {
    ghost var cmds := CompileCommands(ver, srcs);
    success := true;
    issued := [];
    var i := 0;
    while i < |srcs|
      invariant 0 <= i <= |srcs|
      invariant issued == cmds[..i]
      invariant success <==> forall k :: 0 <= k < i ==> status(cmds[k]) == 0
    {
      var cmd := CreateCompileCommand(ver, srcs[i]);
      issued := issued + [cmd.value];
      if status(cmd.value) != 0 {
        success := false;
      }
      i := i + 1;
    }
    assert cmds[..i] == cmds;
  }

  /** link: true exactly when the link command exits with 0. */
  method Link(ver: string, objs: seq<string>, status: Status) returns (ok: bool, cmd: string)
    ensures cmd == LinkCommand(ver, objs)
    ensures ok <==> status(LinkCommand(ver, objs)) == 0
  {
    cmd := CreateLinkCommand(ver, objs);
    ok := status(cmd) == 0;
  }

  /** run_executable: true exactly when ./program exits with 0. */
  function RunExecutable(status: Status): (ok: bool)
    ensures ok <==> status("./program") == 0
  {
    status(CreateRunCommand()) == 0
  }

  /** The objects build links: create_obj_files of the sources. */
  function ObjFiles(srcs: seq<string>): (objs: seq<string>)
    requires forall i :: 0 <= i < |srcs| ==> !Free(srcs[i], '.')
    ensures |objs| == |srcs|
    ensures forall i :: 0 <= i < |srcs| ==> objs[i] == Parser.CreateObjFile(srcs[i]).value
  {
    seq(|srcs|, i requires 0 <= i < |srcs| && !Free(srcs[i], '.') => Parser.CreateObjFile(srcs[i]).value)
  }

  const CompileAssertion := "assertion compilation_result == true failed"
  const LinkAssertion := "assertion link_result == true failed"

  /** build: compile every source, stop at the failed assertion if one did
      not compile, then link the object of each source, in the order of the
      sources, and stop at the failed assertion if linking failed. */
  method Build(ver: string, srcs: seq<string>, status: Status) returns (r: Result<bool>, issued: seq<string>)
    requires forall i :: 0 <= i < |srcs| ==> !Free(srcs[i], '.')
    ensures var compiled := forall i :: 0 <= i < |srcs| ==> status(CompileCommands(ver, srcs)[i]) == 0;
            && (!compiled ==> r == Err(CompileAssertion) && issued == CompileCommands(ver, srcs))
            && (compiled ==> issued == CompileCommands(ver, srcs) + [LinkCommand(ver, ObjFiles(srcs))])
            && (compiled ==> (r == Ok(true) <==> status(LinkCommand(ver, ObjFiles(srcs))) == 0))
            && (compiled ==> (r.Err? <==> r == Err(LinkAssertion)))
  {
    var compiled, compiles := Compile(ver, srcs, status);
    issued := compiles;
    if !compiled {
      return Err(CompileAssertion), issued;
    }
    var objs := Parser.CreateObjFiles(srcs);
    assert objs.value == ObjFiles(srcs);
    var linked, link := Link(ver, objs.value, status);
    issued := issued + [link];
    if !linked {
      return Err(LinkAssertion), issued;
    }
    return Ok(true), issued;
  }
}
