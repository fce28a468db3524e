/** The path-string operations, file classifiers and dependency-file parser
    of src/coup_filesystem.cxx. */
module CoupFilesystem {
  import opened Wrappers
  import opened Text
  import opened CoupOptional
  import Parser

  /** get_stem_opt: None for the empty string or a '.' at index 0, the whole
      string when there is no '.', otherwise the prefix before the last '.'. */
  function GetStemOpt(filepath: string): (r: Option<string>)
    ensures r.None? <==> filepath == [] || LastIndexOf(filepath, '.') == Some(0)
    ensures r.Some? && Free(filepath, '.') ==> r.value == filepath
    ensures r.Some? && !Free(filepath, '.') ==> r.value == filepath[..LastIndexOf(filepath, '.').value]
  {
    var dot := LastIndexOf(filepath, '.');
    if filepath == [] || dot == Some(0) then None
    else if dot.None? then Some(filepath)
    else Some(filepath[..dot.value])
  }

  /** get_extension_opt: None only for the empty or dot-free string; a
      trailing '.' gives the empty extension. */
  function GetExtensionOpt(filepath: string): (r: Option<string>)
    ensures r.None? <==> Free(filepath, '.')
    ensures r.Some? ==> Free(r.value, '.') && |r.value| < |filepath|
    ensures r.Some? ==> filepath[|filepath| - |r.value|..] == r.value && filepath[|filepath| - |r.value| - 1] == '.'
  {
    var dot := LastIndexOf(filepath, '.');
    if filepath == [] || dot.None? then None
    else Some(filepath[dot.value + 1..])
  }

  /** get_stem: the stem, or "" when there is none. */
  function GetStem(filepath: string): (r: string)
    ensures GetStemOpt(filepath).Some? ==> r == GetStemOpt(filepath).value
    ensures GetStemOpt(filepath).None? ==> r == ""
  {
    UnwrapOr(GetStemOpt(filepath), "")
  }

  /** get_extension: the extension, or "" when there is none. */
  function GetExtension(filepath: string): (r: string)
    ensures GetExtensionOpt(filepath).Some? ==> r == GetExtensionOpt(filepath).value
    ensures GetExtensionOpt(filepath).None? ==> r == ""
  {
    UnwrapOr(GetExtensionOpt(filepath), "")
  }

  /** get_filename: the text after the last '/', or the input itself when it
      is empty or has no '/'. */
  function GetFilename(filepath: string): (r: string)
    ensures Free(r, '/') && |r| <= |filepath| && filepath[|filepath| - |r|..] == r
    ensures Free(filepath, '/') ==> r == filepath
    ensures !Free(filepath, '/') ==> |r| < |filepath| && filepath[|filepath| - |r| - 1] == '/'
  {
    var slash := LastIndexOf(filepath, '/');
    if filepath == [] || slash.None? then filepath
    else filepath[slash.value + 1..]
  }

  /** The file name of a directory joined with a slash-free name is that name. */
  lemma FilenameOfJoin(dir: string, name: string)
    requires Free(name, '/')
    ensures GetFilename(dir + ['/'] + name) == name
  {
    LastIndexOfJoin(dir, '/', name);
    var f := dir + ['/'] + name;
    assert f[|dir| + 1..] == name;
  }

  /** On a non-empty path both get_filename definitions agree; on the empty
      path this one returns "" where include/parser.hxx returns nothing. */
  lemma FilenameAgreesWithParser(filepath: string)
    ensures filepath != [] ==> Parser.GetFilename(filepath) == Some(GetFilename(filepath))
    ensures filepath == [] ==> GetFilename(filepath) == [] && Parser.GetFilename(filepath).None?
  {
  }

  /** replace_extension: the stem of the path, '.', and the new extension. */
  function ReplaceExtension(filepath: string, ext: string): (r: string)
    ensures |r| == |GetStem(filepath)| + 1 + |ext|
    ensures r[..|r| - |ext|] == GetStem(filepath) + "." && r[|r| - |ext|..] == ext
  {
    GetStem(filepath) + "." + ext
  }

  /** make_dep_file: the source's stem with extension "d". */
  function MakeDepFile(src: string): (r: string)
    ensures GetExtensionOpt(r) == Some("d")
  {
    ReplaceExtensionHasExtension(src, "d");
    ReplaceExtension(src, "d")
  }

  /** make_obj_file: the source's stem with extension "o". */
  function MakeObjFile(src: string): (r: string)
    ensures GetExtensionOpt(r) == Some("o")
  {
    ReplaceExtensionHasExtension(src, "o");
    ReplaceExtension(src, "o")
  }

  const SourceExtensions: set<string> := {"cpp", "cc", "C", "cxx", "c++"}
  const HeaderExtensions: set<string> := {"h", "hpp", "hxx", "hh", "h++", "H"}
  const ObjectExtensions: set<string> := {"o", "obj"}

  /** is_src_file: the extension is one of cpp, cc, C, cxx, c++ (case-sensitive). */
  function IsSrcFile(src: string): (b: bool)
    ensures b <==> GetExtensionOpt(src).Some? && GetExtensionOpt(src).value in SourceExtensions
  {
    GetExtension(src) in SourceExtensions
  }

  /** is_header_file: the extension is one of h, hpp, hxx, hh, h++, H. */
  function IsHeaderFile(header: string): (b: bool)
    ensures b <==> GetExtensionOpt(header).Some? && GetExtensionOpt(header).value in HeaderExtensions
  {
    GetExtension(header) in HeaderExtensions
  }

  /** is_obj_file: the extension is o or obj. */
  function IsObjFile(obj: string): (b: bool)
    ensures b <==> GetExtensionOpt(obj).Some? && GetExtensionOpt(obj).value in ObjectExtensions
  {
    GetExtension(obj) in ObjectExtensions
  }

  /** file_to_string: the lines that std::getline yields, appended with no
      separator (the newlines are lost). */
  method FileToString(lines: seq<string>) returns (s: string)
    ensures s == Concat(lines)
  {
    s := "";
    var i := 0;
    while i < |lines|
      invariant 0 <= i <= |lines|
      invariant s == Concat(lines[..i])
    {
      JoinStep(lines, "", i);
      s := s + lines[i];
      i := i + 1;
    }
    assert lines[..|lines|] == lines;
  }

  /** The white-space characters that `operator>>` skips (the C locale's isspace). */
  predicate IsSpace(c: char) {
    c == ' ' || c == '\t' || c == '\n' || c == '\r' || c == '\U{B}' || c == '\U{C}'
  }

  /** The length of the run of non-space characters that starts `s`. */
  function WordLength(s: string): (n: nat)
    ensures n <= |s|
    ensures forall i :: 0 <= i < n ==> !IsSpace(s[i])
    ensures n < |s| ==> IsSpace(s[n])
  {
    if s == [] || IsSpace(s[0]) then 0 else 1 + WordLength(s[1..])
  }

  /** The words that repeated `iss >> current` reads from a string. */
  function Tokens(s: string): seq<string>
    decreases |s|
  {
    if s == [] then []
    else if IsSpace(s[0]) then Tokens(s[1..])
    else
      var n := WordLength(s);
      [s[..n]] + Tokens(s[n..])
  }

  /** Every token is a non-empty run of non-space characters. */
  lemma {:induction false} TokensAreWords(s: string)
    ensures forall t :: t in Tokens(s) ==> t != [] && forall i :: 0 <= i < |t| ==> !IsSpace(t[i])
    decreases |s|
  {
    if s == [] {
    } else if IsSpace(s[0]) {
      TokensAreWords(s[1..]);
    } else {
      var n := WordLength(s);
      TokensAreWords(s[n..]);
    }
  }

  /** The tokens that parse_dependency_file keeps: not a target ("name:"), not a
      line continuation ("\"), not empty. */
  predicate IsDependency(t: string) {
    t != [] && t[|t| - 1] != ':' && t != "\\"
  }

  /** The kept tokens, in order. */
  function Dependencies(ts: seq<string>): seq<string> {
    if ts == [] then []
    else Dependencies(ts[..|ts| - 1]) + (if IsDependency(ts[|ts| - 1]) then [ts[|ts| - 1]] else [])
  }

  /** A token is a dependency exactly when it occurs among the tokens and is
      neither a target nor a continuation. */
  lemma {:induction false} DependenciesMembers(ts: seq<string>)
    ensures forall t :: t in Dependencies(ts) <==> t in ts && IsDependency(t)
  {
    if ts != [] {
      DependenciesMembers(ts[..|ts| - 1]);
      assert ts == ts[..|ts| - 1] + [ts[|ts| - 1]];
    }
  }

  /** parse_dependency_file: the dependency file's text, read with
      file_to_string, split into words, without targets and continuations. */
  method ParseDependencyFile(lines: seq<string>) returns (dependencies: seq<string>)
    ensures dependencies == Dependencies(Tokens(Concat(lines)))
  {
    var content := FileToString(lines);
    var words := Tokens(content);
    dependencies := [];
    var i := 0;
    while i < |words|
      invariant 0 <= i <= |words|
      invariant dependencies == Dependencies(words[..i])
    {
      var current := words[i];
      assert words[..i + 1][..i] == words[..i];
      if current == [] || current[|current| - 1] == ':' || current == "\\" {
        i := i + 1;
        continue;
      }
      dependencies := dependencies + [current];
      i := i + 1;
    }
    assert words[..|words|] == words;
  }

  /** replace_extension gives the path the new extension, when that has no '.'. */
  lemma ReplaceExtensionHasExtension(filepath: string, ext: string)
    requires Free(ext, '.')
    ensures GetExtensionOpt(ReplaceExtension(filepath, ext)) == Some(ext)
  {
    var stem := GetStem(filepath);
    assert ReplaceExtension(filepath, ext) == stem + ['.'] + ext;
    ExtensionOfDotted(stem, ext);
  }

  /** The extension of `stem.ext` is `ext`, when `ext` has no '.'. */
  lemma ExtensionOfDotted(stem: string, ext: string)
    requires Free(ext, '.')
    ensures GetExtensionOpt(stem + ['.'] + ext) == Some(ext)
  {
    LastIndexOfJoin(stem, '.', ext);
    assert (stem + ['.'] + ext)[|stem| + 1..] == ext;
  }

  /** ... and keeps the stem, when the path has a non-empty one. */
  lemma ReplaceExtensionKeepsStem(filepath: string, ext: string)
    requires Free(ext, '.') && GetStem(filepath) != ""
    ensures GetStemOpt(ReplaceExtension(filepath, ext)) == Some(GetStem(filepath))
  {
    var stem := GetStem(filepath);
    assert ReplaceExtension(filepath, ext) == stem + ['.'] + ext;
    LastIndexOfJoin(stem, '.', ext);
    assert (stem + ['.'] + ext)[..|stem|] == stem;
  }

  /** No extension belongs to two classes, so a path is at most one of
      source, header and object. */
  lemma ClassesDisjoint(p: string)
    ensures !(IsSrcFile(p) && IsHeaderFile(p))
    ensures !(IsSrcFile(p) && IsObjFile(p))
    ensures !(IsHeaderFile(p) && IsObjFile(p))
  {
  }

  /** This stem agrees with the optional stem of include/parser.hxx. */
  lemma StemAgreesWithParser(filepath: string)
    ensures GetStemOpt(filepath) == Parser.GetStem(filepath)
  {
  }

  /** The extension differs from include/parser.hxx only for a trailing '.',
      where this one is "" and that one is None. */
  lemma ExtensionVersusParser(filepath: string)
    ensures filepath != [] && !Free(filepath, '.') && filepath[|filepath| - 1] == '.' ==>
      GetExtensionOpt(filepath) == Some("") && Parser.GetExtension(filepath) == None
    ensures !(filepath != [] && filepath[|filepath| - 1] == '.') ==>
      GetExtensionOpt(filepath) == Parser.GetExtension(filepath)
  {
    if filepath != [] && !Free(filepath, '.') && filepath[|filepath| - 1] == '.' {
      assert LastIndexOf(filepath, '.') == Some(|filepath| - 1);
    }
  }

  /** Classification is case-sensitive: "main.C" is a source, "util.H" a
      header, but "main.CPP" is none of the kinds. */
  lemma ClassificationExamples()
    ensures IsSrcFile("main.C") && IsHeaderFile("util.H") && IsObjFile("main.obj")
  {
    assert "main.C" == "main" + ['.'] + "C";
    ExtensionOfDotted("main", "C");
    assert "util.H" == "util" + ['.'] + "H";
    ExtensionOfDotted("util", "H");
    assert "main.obj" == "main" + ['.'] + "obj";
    ExtensionOfDotted("main", "obj");
  }

  lemma UpperCaseExample()
    ensures !IsSrcFile("main.CPP") && !IsHeaderFile("main.CPP") && !IsObjFile("main.CPP")
  {
    assert "main.CPP" == "main" + ['.'] + "CPP";
    ExtensionOfDotted("main", "CPP");
  }
}
