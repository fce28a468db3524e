/** extract_header of include/regex.hxx: the quoted file name of a local
    `#include "..."` line, as a view into the line. */
module Regex {
  import opened Wrappers
  import opened Text

  /** The position just after the first '"', computed as find('"') + 1 in size_t,
      which wraps npos + 1 to 0. */
  function OpenPos(line: string): (l: nat)
    requires |line| < Npos
    ensures Free(line, '"') ==> l == 0
    ensures !Free(line, '"') ==> l == FirstIndexOf(line, '"').value + 1
  {
    SizeAdd(AsSize(FirstIndexOf(line, '"')), 1)
  }

  /** extract_header: None for an empty line, a line without "#include", or a
      line without '"'; otherwise substr(l, r - l) between the first and the
      last quote, where r - l is size_t arithmetic. */
  function ExtractHeader(line: string): (r: Option<string>)
    requires |line| < Npos
    ensures r.None? <==> line == [] || !Contains(line, "#include") || Free(line, '"')
  {
    if line == [] then None
    else if !Contains(line, "#include") then None
    else
      var l := OpenPos(line);
      if l == Npos then None
      else
        var r := AsSize(LastIndexOf(line, '"'));
        if r == Npos then None
        else Some(Substr(line, l, SizeSub(r, l)))
  }

  /** The `l == npos` test never fires: find('"') + 1 is at most the line's length. */
  lemma OpenPosNeverNpos(line: string)
    requires |line| < Npos
    ensures OpenPos(line) <= |line| < Npos
  {
  }

  /** With two or more quotes the result is the text strictly between the first
      and the last one. */
  lemma {:induction false} BetweenQuotes(line: string)
    requires |line| < Npos && line != [] && Contains(line, "#include")
    requires FirstIndexOf(line, '"').Some? && LastIndexOf(line, '"').Some?
    requires FirstIndexOf(line, '"').value < LastIndexOf(line, '"').value
    ensures ExtractHeader(line) ==
      Some(line[FirstIndexOf(line, '"').value + 1..LastIndexOf(line, '"').value])
  {
    var first := FirstIndexOf(line, '"').value;
    var last := LastIndexOf(line, '"').value;
    SizeSubExact(last, first + 1);
  }

  /** With exactly one quote, r - l is -1 in size_t, which wraps to npos, so the
      result is everything after that quote. */
  lemma {:induction false} SingleQuote(line: string)
    requires |line| < Npos && line != [] && Contains(line, "#include")
    requires FirstIndexOf(line, '"').Some?
    requires FirstIndexOf(line, '"') == LastIndexOf(line, '"')
    ensures ExtractHeader(line) == Some(line[FirstIndexOf(line, '"').value + 1..])
  {
    var q := FirstIndexOf(line, '"').value;
    SizeSubWrapOne(q);
  }

  /** A line `p"h"` whose prefix `p` holds "#include" and no quote, and whose
      name `h` holds no quote, yields `h`. */
  lemma QuotedName(p: string, h: string)
    requires "#include" <= p && Free(p, '"') && Free(h, '"') && |p| + |h| + 2 < Npos
    ensures ExtractHeader(p + ['"'] + h + ['"']) == Some(h)
  {
    var line := p + ['"'] + h + ['"'];
    assert "#include" <= line;
    FirstIndexOfJoin(p, '"', h + ['"']);
    assert line == p + ['"'] + (h + ['"']);
    LastIndexOfJoin(p + ['"'] + h, '"', "");
    assert line == p + ['"'] + h + ['"'] + "";
    BetweenQuotes(line);
    assert line[|p| + 1..|p| + 1 + |h|] == h;
  }

  /** The expected values of the unit tests: one space, no space, many spaces,
      and a system header. */
  lemma OneSpaceExample()
    ensures ExtractHeader("#include \"header.hpp\"") == Some("header.hpp")
  {
    assert Free("header.hpp", '"') && Free("#include ", '"');
    assert "#include \"header.hpp\"" == "#include " + ['"'] + "header.hpp" + ['"'];
    QuotedName("#include ", "header.hpp");
  }

  lemma NoSpaceExample()
    ensures ExtractHeader("#include\"header.hpp\"") == Some("header.hpp")
  {
    assert Free("header.hpp", '"') && Free("#include", '"');
    assert "#include\"header.hpp\"" == "#include" + ['"'] + "header.hpp" + ['"'];
    QuotedName("#include", "header.hpp");
  }

  lemma ManySpacesExample()
    ensures ExtractHeader("#include     \"header.hpp\"") == Some("header.hpp")
  {
    assert Free("header.hpp", '"') && Free("#include     ", '"');
    assert "#include     \"header.hpp\"" == "#include     " + ['"'] + "header.hpp" + ['"'];
    QuotedName("#include     ", "header.hpp");
  }

  lemma SystemHeaderExample()
    ensures ExtractHeader("#include <iostream>") == None
  {
    var s := "#include <iostream>";
    assert "#include" <= s;
    assert Free(s, '"');
  }

  lemma NonIncludeExample()
    ensures ExtractHeader("int x = 42") == None
  {
    assert Free("int x = 42", '#');
    if Contains("int x = 42", "#include") {
      ContainsFirstChar("int x = 42", "#include");
    }
  }
}
