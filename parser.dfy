/** The path-string parsers of include/parser.hxx: stem, extension and file
    name as optional views, and the object-file names derived from sources. */
module Parser {
  import opened Wrappers
  import opened Text

  /** get_stem: None for the empty string and when the last '.' is the first
      character; the whole string when there is no '.'; otherwise the text
      before the last '.'. */
  function GetStem(file: string): (r: Option<string>)
    ensures r.None? <==> file == [] || LastIndexOf(file, '.') == Some(0)
    ensures r.Some? && Free(file, '.') ==> r.value == file
    ensures r.Some? && !Free(file, '.') ==>
      r.value == file[..LastIndexOf(file, '.').value] && r.value != []
  {
    if file == [] then None
    else
      match LastIndexOf(file, '.')
      case Some(0) => None
      case None => Some(file)
      case Some(dot) => Some(file[..dot])
  }

  /** get_extension: the text after the last '.', None when the string is
      empty, has no '.', or ends in '.'. */
  function GetExtension(file: string): (r: Option<string>)
    ensures r.None? <==> file == [] || Free(file, '.') || file[|file| - 1] == '.'
    ensures r.Some? ==> r.value != [] && Free(r.value, '.')
    ensures r.Some? ==> |r.value| < |file| && file[|file| - |r.value|..] == r.value
    ensures r.Some? ==> file[|file| - |r.value| - 1] == '.'
  {
    if file == [] then None
    else
      match LastIndexOf(file, '.')
      case None => None
      case Some(dot) => if dot == |file| - 1 then None else Some(file[dot + 1..])
  }

  /** get_filename: None for the empty string, otherwise the text after the
      last '/', or the whole string when there is none. */
  function GetFilename(file: string): (r: Option<string>)
    ensures r.None? <==> file == []
    ensures r.Some? ==> Free(r.value, '/') && |r.value| <= |file| && file[|file| - |r.value|..] == r.value
    ensures r.Some? && Free(file, '/') ==> r.value == file
    ensures r.Some? && !Free(file, '/') ==> |r.value| < |file| && file[|file| - |r.value| - 1] == '/'
  {
    if file == [] then None
    else
      match LastIndexOf(file, '/')
      case None => Some(file)
      case Some(slash) => Some(file[slash + 1..])
  }

  /** create_obj_file: the prefix through the last '.' followed by "o";
      a runtime_error when there is no '.'. */
  function CreateObjFile(src: string): (r: Result<string>)
    ensures r.Err? <==> Free(src, '.')
    ensures r.Err? ==> r.msg == "Not a valid source file"
    ensures r.Ok? ==> r.value == src[..LastIndexOf(src, '.').value + 1] + "o"
  {
    match LastIndexOf(src, '.')
    case None => Err("Not a valid source file")
    case Some(dot) => Ok(src[..dot + 1] + "o")
  }

  /** create_obj_files: fills a vector of the same length, element by element;
      the first source without a '.' ends the loop with its exception. */
  method CreateObjFiles(srcs: seq<string>) returns (r: Result<seq<string>>)
    ensures r.Ok? <==> forall i :: 0 <= i < |srcs| ==> CreateObjFile(srcs[i]).Ok?
    ensures r.Ok? ==> |r.value| == |srcs|
    ensures r.Ok? ==> forall i :: 0 <= i < |srcs| ==> r.value[i] == CreateObjFile(srcs[i]).value
    ensures r.Err? ==> r.msg == "Not a valid source file"
  {
    var objs := seq(|srcs|, _ => "");
    var i := 0;
    while i < |srcs|
      invariant 0 <= i <= |srcs| && |objs| == |srcs|
      invariant forall k :: 0 <= k < i ==> CreateObjFile(srcs[k]).Ok? && objs[k] == CreateObjFile(srcs[k]).value
    {
      var obj := CreateObjFile(srcs[i]);
      if obj.Err? {
        return Err(obj.msg);
      }
      objs := objs[i := obj.value];
      i := i + 1;
    }
    return Ok(objs);
  }

  /** Round trip: joining a non-empty stem and a non-empty, dot-free extension
      with '.' and splitting again gives both parts back. */
  lemma {:induction false} StemExtensionRoundTrip(s: string, e: string)
    requires s != [] && e != [] && Free(e, '.')
    ensures GetStem(s + "." + e) == Some(s)
    ensures GetExtension(s + "." + e) == Some(e)
  {
    var f := s + "." + e;
    LastIndexOfJoin(s, '.', e);
    assert f[..|s|] == s;
    assert f[|s| + 1..] == e;
  }

  /** When both parts exist, stem, '.' and extension make up the file name. */
  lemma StemDotExtension(file: string)
    requires GetStem(file).Some? && GetExtension(file).Some?
    ensures GetStem(file).value + "." + GetExtension(file).value == file
  {
    var dot := LastIndexOf(file, '.').value;
    assert file == file[..dot] + [file[dot]] + file[dot + 1..];
  }

  /** The object-file name of a source keeps its stem and has extension "o". */
  lemma {:induction false} ObjFileExtension(src: string)
    requires CreateObjFile(src).Ok? && GetStem(src).Some? && !Free(src, '.')
    ensures GetExtension(CreateObjFile(src).value) == Some("o")
    ensures GetStem(CreateObjFile(src).value) == GetStem(src)
  {
    var dot := LastIndexOf(src, '.').value;
    var stem := src[..dot];
    assert src[..dot + 1] == stem + ".";
    assert CreateObjFile(src).value == stem + "." + "o";
    StemExtensionRoundTrip(stem, "o");
  }

  /** The expected values of the unit tests for the stem parser. */
  lemma StemExamples()
    ensures GetStem("") == None
    ensures GetStem(".txt") == None
    ensures GetStem("a") == Some("a")
    ensures GetStem("main.cpp") == Some("main")
    ensures GetStem("test.hpp") == Some("test")
  {
    assert LastIndexOf("a", '.') == None;
    assert ".txt" == "" + "." + "txt";
    LastIndexOfJoin("", '.', "txt");
    assert "main.cpp" == "main" + "." + "cpp";
    StemExtensionRoundTrip("main", "cpp");
    assert "test.hpp" == "test" + "." + "hpp";
    StemExtensionRoundTrip("test", "hpp");
  }

  /** The expected values of the unit tests for the extension parser. */
  lemma ExtensionExamples()
    ensures GetExtension("") == None
    ensures GetExtension("a") == None
    ensures GetExtension(".txt") == Some("txt")
    ensures GetExtension("main.cxx") == Some("cxx")
    ensures GetExtension("test.h") == Some("h")
  {
    assert LastIndexOf("a", '.') == None;
    assert ".txt" == "" + "." + "txt";
    LastIndexOfJoin("", '.', "txt");
    assert ".txt"[1..] == "txt";
    assert "main.cxx" == "main" + "." + "cxx";
    StemExtensionRoundTrip("main", "cxx");
    assert "test.h" == "test" + "." + "h";
    StemExtensionRoundTrip("test", "h");
  }

  /** The expected values of the unit tests for get_filename and create_obj_file. */
  /** The file name of a directory joined with a slash-free name is that name. */
  lemma FilenameOfJoin(dir: string, name: string)
    requires Free(name, '/')
    ensures GetFilename(dir + ['/'] + name) == Some(name)
  {
    LastIndexOfJoin(dir, '/', name);
    var f := dir + ['/'] + name;
    assert f[|dir| + 1..] == name;
  }

  lemma FilenameExamples()
    ensures GetFilename("") == None
    ensures GetFilename("src/main.cpp") == Some("main.cpp")
    ensures GetFilename("CMakeLists.txt") == Some("CMakeLists.txt")
  {
    assert "src/main.cpp" == "src" + ['/'] + "main.cpp";
    FilenameOfJoin("src", "main.cpp");
    assert Free("CMakeLists.txt", '/');
  }

  lemma ObjFileExample()
    ensures CreateObjFile("main.cpp") == Ok("main.o")
  {
    assert "main.cpp" == "main" + "." + "cpp";
    LastIndexOfJoin("main", '.', "cpp");
    assert "main.cpp"[..5] + "o" == "main.o";
  }
}
