/** The compiler of source/compiler.cxx: a compile command with extra flags
    and a link command, each run once. The COMPILER and CPP configuration
    macros are the parameters `compiler` and `cpp`. */
module Compiler {
  import opened Text
  import opened Exec

  /** The compile command line: "<compiler> std=<cpp> -c <src> -o <out>",
      then " <flag>" for each flag in order. The "std=" carries no leading
      dash, as in the source. */
  function CompileCommand(compiler: string, cpp: string, src: string, out: string, flags: seq<string>): string {
    compiler + " std=" + cpp + " -c " + src + " -o " + out + JoinPrefixed(flags, " ")
  }

  /** create_compile_command: the fixed part, then the flags in order,
      recovered by splitting at spaces when none holds a space. */
  method CreateCompileCommand(compiler: string, cpp: string, src: string, out: string, flags: seq<string>)
    returns (cmd: string)
    ensures cmd == CompileCommand(compiler, cpp, src, out, flags)
    ensures var head := compiler + " std=" + cpp + " -c " + src + " -o " + out;
            cmd[..|head|] == head &&
            ((forall i :: 0 <= i < |flags| ==> Free(flags[i], ' ')) ==>
               SplitPrefixed(cmd[|head|..], ' ') == flags)
  {
    ghost var head := compiler + " std=" + cpp + " -c " + src + " -o " + out;
    cmd := compiler + " std=" + cpp + " -c " + src + " -o " + out;
    var i := 0;
    while i < |flags|
      invariant 0 <= i <= |flags|
      invariant cmd == head + JoinPrefixed(flags[..i], " ")
    {
      JoinStep(flags, " ", i);
      cmd := cmd + (" " + flags[i]);
      i := i + 1;
    }
    assert flags[..i] == flags;
    assert cmd[|head|..] == JoinPrefixed(flags, " ");
    if forall i :: 0 <= i < |flags| ==> Free(flags[i], ' ') {
      SplitJoinPrefixed(flags, ' ');
    }
  }

  /** The link command line: "<compiler> -o", then " <obj>" for each object.
      The output name is not part of it. */
  function LinkCommand(compiler: string, objs: seq<string>): string {
    compiler + " -o" + JoinPrefixed(objs, " ")
  }

  /** create_link_command: the objects in order after "<compiler> -o"; the
      `out` argument does not affect the command. */
  method CreateLinkCommand(compiler: string, objs: seq<string>, out: string) returns (cmd: string)
    ensures cmd == LinkCommand(compiler, objs)
    ensures cmd[..|compiler| + 3] == compiler + " -o"
    ensures (forall i :: 0 <= i < |objs| ==> Free(objs[i], ' ')) ==>
              SplitPrefixed(cmd[|compiler| + 3..], ' ') == objs
  {
    cmd := compiler + " -o";
    var i := 0;
    while i < |objs|
      invariant 0 <= i <= |objs|
      invariant cmd == compiler + " -o" + JoinPrefixed(objs[..i], " ")
    {
      JoinStep(objs, " ", i);
      cmd := cmd + (" " + objs[i]);
      i := i + 1;
    }
    assert objs[..i] == objs;
    assert cmd[|compiler| + 3..] == JoinPrefixed(objs, " ");
    if forall i :: 0 <= i < |objs| ==> Free(objs[i], ' ') {
      SplitJoinPrefixed(objs, ' ');
    }
  }

  /** The first piece after " -o" is the first object, which g++ then takes
      as the output file: "g++ -o main.o util.o". */
  lemma LinkExample()
    ensures LinkCommand("g++", ["main.o", "util.o"]) == "g++ -o main.o util.o"
  {
    var objs := ["main.o", "util.o"];
    assert objs[..1] == ["main.o"] && ["main.o"][..0] == [];
    assert JoinPrefixed(["main.o"], " ") == " main.o";
    assert JoinPrefixed(objs, " ") == " main.o" + " " + "util.o";
  }

  /** compile: false exactly when the compile command exits nonzero. */
  method Compile(compiler: string, cpp: string, src: string, out: string, flags: seq<string>, status: Status)
    returns (ok: bool, issued: seq<string>)
    ensures issued == [CompileCommand(compiler, cpp, src, out, flags)]
    ensures !ok <==> status(CompileCommand(compiler, cpp, src, out, flags)) != 0
  {
    var cmd := CreateCompileCommand(compiler, cpp, src, out, flags);
    issued := [cmd];
    ok := status(cmd) == 0;
  }

  /** link: false exactly when the link command exits nonzero. */
  method Link(compiler: string, objs: seq<string>, out: string, status: Status) returns (ok: bool, issued: seq<string>)
    ensures issued == [LinkCommand(compiler, objs)]
    ensures !ok <==> status(LinkCommand(compiler, objs)) != 0
  {
    var cmd := CreateLinkCommand(compiler, objs, out);
    issued := [cmd];
    ok := status(cmd) == 0;
  }
}
