/** The older string parsers of source/parser.hxx, which assert that a '.'
    is present instead of returning an optional. */
module SourceParser {
  import opened Wrappers
  import opened Text

  /** The position of the last '.' of a string that has one. */
  function LastDot(s: string): (d: nat)
    requires !Free(s, '.')
    ensures d < |s| && s[d] == '.'
    ensures forall j :: d < j < |s| ==> s[j] != '.'
  {
    LastIndexOf(s, '.').value
  }

  /** convert_to_obj_file: the string rewritten to its prefix through the last
      '.' followed by "o". */
  function ConvertToObjFile(src: string): (r: string)
    requires !Free(src, '.')
    ensures |r| == LastDot(src) + 2 && r[..|r| - 1] == src[..LastDot(src) + 1] && r[|r| - 1] == 'o'
  {
    src[..LastDot(src) + 1] + "o"
  }

  /** convert_to_obj_files: converts every element of the vector in place. */
  method ConvertToObjFiles(files: array<string>)
    requires forall i :: 0 <= i < files.Length ==> !Free(files[i], '.')
    modifies files
    ensures forall i :: 0 <= i < files.Length ==> files[i] == ConvertToObjFile(old(files[i]))
  {
    var i := 0;
    while i < files.Length
      invariant 0 <= i <= files.Length
      invariant forall k :: 0 <= k < i ==> files[k] == ConvertToObjFile(old(files[k]))
      invariant forall k :: i <= k < files.Length ==> files[k] == old(files[k])
    {
      files[i] := ConvertToObjFile(files[i]);
      i := i + 1;
    }
  }

  /** get_stem: the text before the last '.' ("" for ".txt"). */
  function GetStem(file: string): (r: string)
    requires !Free(file, '.')
    ensures |r| == LastDot(file) && r == file[..|r|]
  {
    file[..LastDot(file)]
  }

  /** get_extension: the text after the last '.'. */
  function GetExtension(file: string): (r: string)
    requires !Free(file, '.')
    ensures Free(r, '.') && |r| < |file| && r == file[|file| - |r|..]
  {
    file[LastDot(file) + 1..]
  }

  /** Converting an object name again changes nothing. */
  lemma {:induction false} ConvertIdempotent(src: string)
    requires !Free(src, '.')
    ensures !Free(ConvertToObjFile(src), '.')
    ensures ConvertToObjFile(ConvertToObjFile(src)) == ConvertToObjFile(src)
  {
    var d := LastDot(src);
    var stem := src[..d];
    var obj := ConvertToObjFile(src);
    assert obj == stem + ['.'] + "o";
    LastIndexOfJoin(stem, '.', "o");
    assert obj[..d + 1] == src[..d + 1];
  }

  /** Stem, '.' and extension make up the file name again. */
  lemma StemDotExtension(file: string)
    requires !Free(file, '.')
    ensures GetStem(file) + "." + GetExtension(file) == file
  {
    var d := LastDot(file);
    assert file == file[..d] + [file[d]] + file[d + 1..];
  }

  /** A leading '.' is the whole stem's end: ".txt" has the empty stem. */
  lemma DotFileExample()
    ensures !Free(".txt", '.') && GetStem(".txt") == "" && GetExtension(".txt") == "txt"
    ensures !Free("main.cpp", '.') && ConvertToObjFile("main.cpp") == "main.o"
  {
    assert ".txt" == "" + ['.'] + "txt";
    LastIndexOfJoin("", '.', "txt");
    assert "main.cpp" == "main" + ['.'] + "cpp";
    LastIndexOfJoin("main", '.', "cpp");
    assert "main.cpp"[..5] + "o" == "main.o";
  }
}
