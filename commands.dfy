/** include/commands.hxx: the command variant chosen from the first
    command-line argument, and its execution. */
module Commands {
  import opened Wrappers
  import opened FsModel
  import FileTracker
  import Project

  /** command_type: a run_command, a build_command or a clean_command. */
  datatype Command = Run | Build | Clean

  const InvalidCommand := "invalid command"

  /** create_command: "build", "run" and "clean" select their command; any
      other argument raises "invalid command" (after printing the usage). */
  function CreateCommand(arg: string): (r: Result<Command>)
    ensures r == Ok(Build) <==> arg == "build"
    ensures r == Ok(Run) <==> arg == "run"
    ensures r == Ok(Clean) <==> arg == "clean"
    ensures r.Err? <==> arg != "build" && arg != "run" && arg != "clean"
    ensures r.Err? ==> r.msg == InvalidCommand
  {
    if arg == "build" then Ok(Build)
    else if arg == "run" then Ok(Run)
    else if arg == "clean" then Ok(Clean)
    else Err(InvalidCommand)
  }

  /** The argument that names each command. */
  function Name(c: Command): string {
    match c
    case Run => "run"
    case Build => "build"
    case Clean => "clean"
  }

  /** Every command is selected by its own name, and by nothing else. */
  lemma CreateNameRoundTrip(c: Command, arg: string)
    ensures CreateCommand(Name(c)) == Ok(c)
    ensures CreateCommand(arg) == Ok(c) ==> arg == Name(c)
  {
  }

  lemma CreateCommandExamples()
    ensures CreateCommand("build") == Ok(Build)
    ensures CreateCommand("run") == Ok(Run)
    ensures CreateCommand("clean") == Ok(Clean)
    ensures CreateCommand("Build") == Err(InvalidCommand)
    ensures CreateCommand("") == Err(InvalidCommand)
  {
  }

  /** execute_cmd: dispatches to the execute of the chosen command.
      clean_command::execute returns true. build_command::execute and
      run_command::execute call coup_project::create_project, modelled by
      Project.CreateProject, and return true once it returns; the error it
      raises ends the call with the same message. */
  method ExecuteCmd(c: Command, start: Path, parent: Path -> Path, fs: Snapshot, listing: Path -> seq<Entry>)
    returns (r: Result<bool>)
    requires c != Clean ==> start in fs && FileTracker.ParentShrinks(parent)
    ensures c == Clean ==> r == Ok(true)
    ensures r != Ok(false)
    ensures c != Clean ==>
      (r == Err(Project.NoRootMessage) <==> FileTracker.RootSearch(start, parent, fs).None?)
    ensures c != Clean && FileTracker.RootSearch(start, parent, fs).Some? ==>
      (r.Err? <==> Project.ProjectGroups(FileTracker.RootSearch(start, parent, fs).value, fs, listing).None?)
    ensures r.Err? ==> r == Err(Project.NoRootMessage) || r == Err(Project.NoStemMessage)
  {
    match c
    case Clean =>
      r := Ok(true);
    case _ =>
      var proj := Project.CreateProject(start, parent, fs, listing);
      if proj.Err? {
        return Err(proj.msg);
      }
      r := Ok(true);
  }
}
