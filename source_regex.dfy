/** extract_header of source/regex.hxx: the same search as include/regex.hxx,
    returning an owned std::string. */
module SourceRegex {
  import opened Wrappers
  import opened Text
  import Regex

  /** extract_header: None for an empty line, a line without "#include", or a
      line without '"'; otherwise a copy of substr(l, r - l), with l and r the
      positions after the first and of the last quote in size_t arithmetic. */
  function ExtractHeader(line: string): (r: Option<string>)
    requires |line| < Npos
    ensures r.None? <==> line == [] || !Contains(line, "#include") || Free(line, '"')
  {
    if line == [] then None
    else if !Contains(line, "#include") then None
    else
      var l := SizeAdd(AsSize(FirstIndexOf(line, '"')), 1);
      if l == Npos then None
      else
        var r := AsSize(LastIndexOf(line, '"'));
        if r == Npos then None
        else Some(Substr(line, l, SizeSub(r, l)))
  }

  /** The owned-string variant returns exactly what the view variant does:
      with one quote everything after it, otherwise the text strictly
      between the first and the last quote. */
  lemma {:induction false} AgreesWithViewVariant(line: string)
    requires |line| < Npos
    ensures ExtractHeader(line) == Regex.ExtractHeader(line)
    ensures var r := ExtractHeader(line);
            r.Some? && FirstIndexOf(line, '"') == LastIndexOf(line, '"') ==>
              r.value == line[FirstIndexOf(line, '"').value + 1..]
    ensures var r := ExtractHeader(line);
            r.Some? && FirstIndexOf(line, '"') != LastIndexOf(line, '"') ==>
              r.value == line[FirstIndexOf(line, '"').value + 1..LastIndexOf(line, '"').value]
  {
    assert SizeAdd(AsSize(FirstIndexOf(line, '"')), 1) == Regex.OpenPos(line);
    if line != [] && Contains(line, "#include") && !Free(line, '"') {
      if FirstIndexOf(line, '"') == LastIndexOf(line, '"') {
        Regex.SingleQuote(line);
      } else {
        Regex.BetweenQuotes(line);
      }
    }
  }
}
