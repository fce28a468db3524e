/** The file system as the core sees it. Every call into std::filesystem is
    replaced by a value: a snapshot mapping each existing path to its last
    write time, and directory listings given as sequences of entries. */
module FsModel {

  type Path = string

  /** Existing paths and their std::filesystem::last_write_time. */
  type Snapshot = map<Path, int>

  /** One entry produced by std::filesystem::recursive_directory_iterator. */
  datatype Entry = Entry(path: Path, isRegular: bool)

  /** `dir / name` for a relative, separator-free `name`: one '/' between the two
      parts, none added when `dir` is empty or already ends in '/'. */
  function Join(dir: Path, name: Path): (p: Path)
    ensures |p| >= |name| && p[|p| - |name|..] == name
    ensures dir <= p
  {
    if dir == [] then name
    else if dir[|dir| - 1] == '/' then dir + name
    else dir + "/" + name
  }
}
