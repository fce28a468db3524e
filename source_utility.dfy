/** source/utility.hxx: the older command builders for a C++ version `ver`,
    and compiling the sources in order until one fails. */
module SourceUtility {
  import opened Text
  import opened Exec
  import SourceParser
  import Utility

  /** create_compile_command: "g++ -std=<ver> -c <src> -o <obj>" with <obj>
      the object name convert_to_obj_file makes of the source, which must
      contain a '.'. */
  function CreateCompileCommand(ver: string, src: string): (cmd: string)
    requires !Free(src, '.')
    ensures var obj := SourceParser.ConvertToObjFile(src);
            cmd == "g++ -std=" + ver + " -c " + src + " -o " + obj &&
            obj[|obj| - 2..] == "." + "o"
  {
    var obj := SourceParser.ConvertToObjFile(src);
    assert obj[|obj| - 2..] == [src[SourceParser.LastDot(src)], 'o'];
    "g++ -std=" + ver + " -c " + src + " -o " + obj
  }

  /** create_link_command: the same link command line as include/utility.hxx
      builds, " <obj>" per object between "g++ -std=<ver>" and
      " -o program". */
  method CreateLinkCommand(ver: string, objs: seq<string>) returns (cmd: string)
    ensures cmd == Utility.LinkCommand(ver, objs)
    ensures cmd[..9 + |ver|] == "g++ -std=" + ver
    ensures (forall i :: 0 <= i < |objs| ==> Free(objs[i], ' ')) ==>
              SplitPrefixed(cmd[9 + |ver|..|cmd| - 11], ' ') == objs
  {
    cmd := "g++ -std=";
    cmd := cmd + ver;
    var i := 0;
    while i < |objs|
      invariant 0 <= i <= |objs|
      invariant cmd == "g++ -std=" + ver + JoinPrefixed(objs[..i], " ")
    {
      JoinStep(objs, " ", i);
      cmd := cmd + (" " + objs[i]);
      i := i + 1;
    }
    assert objs[..i] == objs;
    var joined := cmd;
    cmd := cmd + " -o program";
    assert cmd[..9 + |ver|] == joined[..9 + |ver|];
    JoinLength(objs, " ");
    assert cmd[9 + |ver|..|cmd| - 11] == JoinPrefixed(objs, " ");
    if forall i :: 0 <= i < |objs| ==> Free(objs[i], ' ') {
      SplitJoinPrefixed(objs, ' ');
    }
  }

  /** create_run_command. */
  function CreateRunCommand(): (cmd: string)
    ensures cmd == "./program" && cmd == Utility.CreateRunCommand()
  {
    "./program"
  }

  /** The loop reaches source `i` when every earlier source has a '.' and
      compiled. */
  predicate Reaches(ver: string, srcs: seq<string>, status: Status, i: nat)
    requires i <= |srcs|
  {
    forall j :: 0 <= j < i ==> !Free(srcs[j], '.') && status(CreateCompileCommand(ver, srcs[j])) == 0
  }

  lemma ReachesStep(ver: string, srcs: seq<string>, status: Status, i: nat)
    requires i < |srcs| && Reaches(ver, srcs, status, i) && !Free(srcs[i], '.')
    requires status(CreateCompileCommand(ver, srcs[i])) == 0
    ensures Reaches(ver, srcs, status, i + 1)
  {
  }

  lemma ReachesStop(ver: string, srcs: seq<string>, status: Status, i: nat)
    requires i < |srcs| && !Free(srcs[i], '.')
    requires status(CreateCompileCommand(ver, srcs[i])) != 0
    ensures !Reaches(ver, srcs, status, |srcs|)
  {
  }

  /** compile: the sources are compiled in order and the first command that
      exits nonzero ends the loop with false; every source reached must
      contain a '.'. The commands issued are the compile commands of a prefix
      of the sources, all but the last succeeding; the result is true
      exactly when every source compiles, and then every source was
      attempted. */
  method Compile(ver: string, srcs: seq<string>, status: Status) returns (success: bool, issued: seq<string>)
    requires forall i :: 0 <= i < |srcs| && Reaches(ver, srcs, status, i) ==> !Free(srcs[i], '.')
    ensures |issued| <= |srcs|
    ensures forall k :: 0 <= k < |issued| ==>
              !Free(srcs[k], '.') && issued[k] == CreateCompileCommand(ver, srcs[k])
    ensures forall k :: 0 <= k < |issued| - 1 ==> status(issued[k]) == 0
    ensures success <==> Reaches(ver, srcs, status, |srcs|)
    ensures success ==> |issued| == |srcs|
    ensures !success ==> issued != [] && status(issued[|issued| - 1]) != 0
  {
    issued := [];
    var i := 0;
    while i < |srcs|
      invariant 0 <= i <= |srcs| && |issued| == i
      invariant Reaches(ver, srcs, status, i)
      invariant forall k :: 0 <= k < i ==> !Free(srcs[k], '.') && issued[k] == CreateCompileCommand(ver, srcs[k])
    {
      var cmd := CreateCompileCommand(ver, srcs[i]);
      issued := issued + [cmd];
      if status(cmd) != 0 {
        ReachesStop(ver, srcs, status, i);
        return false, issued;
      }
      ReachesStep(ver, srcs, status, i);
      i := i + 1;
    }
    return true, issued;
  }
}
