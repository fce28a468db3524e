/** The compiler class of source/core/compiler.cxx: one g++ command that
    compiles and links every source into "project", and running the result.
    The class's only field, the C++ version, is the parameter `ver`. */
module CoreCompiler {
  import opened Text
  import opened Exec

  /** The build command line: "g++ -std=<ver>", " <src>" for each source in
      order, then " -o project". */
  function BuildCommand(ver: string, srcs: seq<string>): string {
    "g++ -std=" + ver + JoinPrefixed(srcs, " ") + " -o project"
  }

  /** create_build_command: the sources appear in order between the version
      and " -o project", and are recovered by splitting at spaces when none
      holds a space. */
  method CreateBuildCommand(ver: string, srcs: seq<string>) returns (cmd: string)
    ensures cmd == BuildCommand(ver, srcs)
    ensures |cmd| == 9 + |ver| + SumLengths(srcs) + |srcs| + 11
    ensures (forall i :: 0 <= i < |srcs| ==> Free(srcs[i], ' ')) ==>
              SplitPrefixed(cmd[9 + |ver|..|cmd| - 11], ' ') == srcs
  {
    cmd := "g++ -std=" + ver;
    var i := 0;
    while i < |srcs|
      invariant 0 <= i <= |srcs|
      invariant cmd == "g++ -std=" + ver + JoinPrefixed(srcs[..i], " ")
    {
      JoinStep(srcs, " ", i);
      cmd := cmd + (" " + srcs[i]);
      i := i + 1;
    }
    assert srcs[..i] == srcs;
    cmd := cmd + " -o project";
    JoinLength(srcs, " ");
    assert cmd[9 + |ver|..|cmd| - 11] == JoinPrefixed(srcs, " ");
    if forall i :: 0 <= i < |srcs| ==> Free(srcs[i], ' ') {
      SplitJoinPrefixed(srcs, ' ');
    }
  }

  /** create_run_command. */
  function CreateRunCommand(): (cmd: string)
    ensures cmd == "./project"
  {
    "./project"
  }

  /** build: one command; true exactly when it exits with 0. */
  method Build(ver: string, srcs: seq<string>, status: Status) returns (ok: bool, issued: seq<string>)
    ensures issued == [BuildCommand(ver, srcs)]
    ensures ok <==> status(BuildCommand(ver, srcs)) == 0
  {
    var cmd := CreateBuildCommand(ver, srcs);
    issued := [cmd];
    ok := status(cmd) == 0;
  }

  /** run: a failed build returns false without running anything; otherwise
      ./project runs and the result is true exactly when it exits with 0. */
  method Run(ver: string, srcs: seq<string>, status: Status) returns (ok: bool, issued: seq<string>)
    ensures status(BuildCommand(ver, srcs)) != 0 ==> !ok && issued == [BuildCommand(ver, srcs)]
    ensures status(BuildCommand(ver, srcs)) == 0 ==> issued == [BuildCommand(ver, srcs), "./project"]
    ensures ok <==> status(BuildCommand(ver, srcs)) == 0 && status("./project") == 0
  {
    var build := CreateBuildCommand(ver, srcs);
    issued := [build];
    if status(build) != 0 {
      return false, issued;
    }
    var run := CreateRunCommand();
    issued := issued + [run];
    ok := status(run) == 0;
  }
}
