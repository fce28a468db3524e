/** Commands handed to std::system are seen only through the exit status the
    shell returns for them. */
module Exec {

  /** The exit status of every command line. */
  type Status = string -> int

  /** The position of the first command whose status is nonzero; |cmds| when
      every command succeeds. */
  function FirstFailure(cmds: seq<string>, status: Status): (k: nat)
    ensures k <= |cmds|
    ensures forall i :: 0 <= i < k ==> status(cmds[i]) == 0
    ensures k < |cmds| ==> status(cmds[k]) != 0
  {
    if cmds == [] then 0
    else if status(cmds[0]) != 0 then 0
    else 1 + FirstFailure(cmds[1..], status)
  }

  /** The commands issued by a loop that stops at the first failure: all of
      them when every one succeeds, otherwise those up to and including the
      first that fails. */
  function UntilFailure(cmds: seq<string>, status: Status): (issued: seq<string>)
    ensures issued <= cmds
    ensures (forall i :: 0 <= i < |cmds| ==> status(cmds[i]) == 0) ==> issued == cmds
    ensures !(forall i :: 0 <= i < |cmds| ==> status(cmds[i]) == 0) ==>
              issued != [] && status(issued[|issued| - 1]) != 0
    ensures forall i :: 0 <= i < |issued| - 1 ==> status(issued[i]) == 0
  {
    var k := FirstFailure(cmds, status);
    if k < |cmds| then cmds[..k + 1] else cmds
  }
}
