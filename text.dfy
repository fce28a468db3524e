/** String searching and joining as std::string and std::string_view do it:
    rfind/find of a character, find of a substring, and the strings that the
    command builders obtain by appending in a loop. */
module Text {
  import opened Wrappers

  /** True when `s` holds no occurrence of `c`. */
  predicate Free(s: string, c: char) {
    forall i :: 0 <= i < |s| ==> s[i] != c
  }

  /** s.rfind(c): the position of the last `c`, None for npos. */
  function LastIndexOf(s: string, c: char): (r: Option<nat>)
    ensures r.None? <==> Free(s, c)
    ensures r.Some? ==> r.value < |s| && s[r.value] == c
    ensures r.Some? ==> forall j :: r.value < j < |s| ==> s[j] != c
  {
    if s == [] then None
    else if s[|s| - 1] == c then Some(|s| - 1)
    else LastIndexOf(s[..|s| - 1], c)
  }

  /** The last `c` of `s + [c] + e` is the one joined in, when `e` has none. */
  lemma {:induction false} LastIndexOfJoin(s: string, c: char, e: string)
    requires Free(e, c)
    ensures LastIndexOf(s + [c] + e, c) == Some(|s|)
    decreases |e|
  {
    var f := s + [c] + e;
    if e == [] {
      assert f[|f| - 1] == c;
    } else {
      var e' := e[..|e| - 1];
      assert f[|f| - 1] == e[|e| - 1] != c;
      assert f[..|f| - 1] == s + [c] + e';
      LastIndexOfJoin(s, c, e');
    }
  }

  /** The first `c` of `p + [c] + t` is the one joined in, when `p` has none. */
  lemma {:induction false} FirstIndexOfJoin(p: string, c: char, t: string)
    requires Free(p, c)
    ensures FirstIndexOf(p + [c] + t, c) == Some(|p|)
  {
    if p != [] {
      assert (p + [c] + t)[1..] == p[1..] + [c] + t;
      FirstIndexOfJoin(p[1..], c, t);
    }
  }

  /** s.find(c): the position of the first `c`, None for npos. */
  function FirstIndexOf(s: string, c: char): (r: Option<nat>)
    ensures r.None? <==> Free(s, c)
    ensures r.Some? ==> r.value < |s| && s[r.value] == c
    ensures r.Some? ==> forall j :: 0 <= j < r.value ==> s[j] != c
  {
    if s == [] then None
    else if s[0] == c then Some(0)
    else
      match FirstIndexOf(s[1..], c)
      case None => None
      case Some(i) => Some(i + 1)
  }

  /** s.find(sub) != npos. */
  function Contains(s: string, sub: string): (b: bool)
    decreases |s|
  {
    if sub <= s then true
    else if s == [] then false
    else Contains(s[1..], sub)
  }

  /** A string that holds `sub` holds its first character. */
  lemma {:induction false} ContainsFirstChar(s: string, sub: string)
    requires sub != [] && Contains(s, sub)
    ensures !Free(s, sub[0])
    decreases |s|
  {
    if !(sub <= s) {
      ContainsFirstChar(s[1..], sub);
      var i :| 0 <= i < |s[1..]| && s[1..][i] == sub[0];
      assert s[i + 1] == sub[0];
    }
  }

  /** The string built by `for x in xs: cmd += sep + x`. */
  function JoinPrefixed(xs: seq<string>, sep: string): string {
    if xs == [] then "" else JoinPrefixed(xs[..|xs| - 1], sep) + sep + xs[|xs| - 1]
  }

  /** The string built by `for x in xs: cmd += x + sep`. */
  function JoinSuffixed(xs: seq<string>, sep: string): string {
    if xs == [] then "" else JoinSuffixed(xs[..|xs| - 1], sep) + xs[|xs| - 1] + sep
  }

  /** The string built by `for x in xs: s += x`. */
  function Concat(xs: seq<string>): string {
    if xs == [] then "" else Concat(xs[..|xs| - 1]) + xs[|xs| - 1]
  }

  /** One more loop iteration appends one more element. */
  lemma JoinStep(xs: seq<string>, sep: string, i: nat)
    requires i < |xs|
    ensures JoinPrefixed(xs[..i + 1], sep) == JoinPrefixed(xs[..i], sep) + sep + xs[i]
    ensures JoinSuffixed(xs[..i + 1], sep) == JoinSuffixed(xs[..i], sep) + xs[i] + sep
    ensures Concat(xs[..i + 1]) == Concat(xs[..i]) + xs[i]
  {
    assert xs[..i + 1][..i] == xs[..i];
  }

  /** Joining distributes over concatenation of the element lists: every
      element contributes its own piece, in order. */
  lemma {:induction false} JoinPrefixedAppend(a: seq<string>, b: seq<string>, sep: string)
    ensures JoinPrefixed(a + b, sep) == JoinPrefixed(a, sep) + JoinPrefixed(b, sep)
    decreases |b|
  {
    if b == [] {
      assert a + b == a;
    } else {
      var b' := b[..|b| - 1];
      assert (a + b)[..|a + b| - 1] == a + b';
      JoinPrefixedAppend(a, b', sep);
    }
  }

  lemma {:induction false} JoinSuffixedAppend(a: seq<string>, b: seq<string>, sep: string)
    ensures JoinSuffixed(a + b, sep) == JoinSuffixed(a, sep) + JoinSuffixed(b, sep)
    decreases |b|
  {
    if b == [] {
      assert a + b == a;
    } else {
      var b' := b[..|b| - 1];
      assert (a + b)[..|a + b| - 1] == a + b';
      JoinSuffixedAppend(a, b', sep);
    }
  }

  lemma {:induction false} ConcatAppend(a: seq<string>, b: seq<string>)
    ensures Concat(a + b) == Concat(a) + Concat(b)
    decreases |b|
  {
    if b == [] {
      assert a + b == a;
    } else {
      var b' := b[..|b| - 1];
      assert (a + b)[..|a + b| - 1] == a + b';
      assert (a + b)[|a + b| - 1] == b[|b| - 1];
      ConcatAppend(a, b');
      assert Concat(a + b) == Concat(a) + Concat(b') + b[|b| - 1];
    }
  }

  /** The length of a joined string is the length of its pieces. */
  function SumLengths(xs: seq<string>): nat {
    if xs == [] then 0 else SumLengths(xs[..|xs| - 1]) + |xs[|xs| - 1]|
  }

  lemma {:induction false} JoinLength(xs: seq<string>, sep: string)
    ensures |JoinPrefixed(xs, sep)| == |JoinSuffixed(xs, sep)| == SumLengths(xs) + |xs| * |sep|
    ensures |Concat(xs)| == SumLengths(xs)
  {
    if xs != [] {
      JoinLength(xs[..|xs| - 1], sep);
    }
  }

  /** Splitting at a one-character separator that precedes every piece: the
      inverse of JoinPrefixed, read from the last separator backwards. */
  function SplitPrefixed(s: string, c: char): seq<string>
    decreases |s|
  {
    match LastIndexOf(s, c)
    case None => []
    case Some(k) => SplitPrefixed(s[..k], c) + [s[k + 1..]]
  }

  /** Pieces free of the separator come back out of JoinPrefixed unchanged. */
  lemma {:induction false} SplitJoinPrefixed(xs: seq<string>, c: char)
    requires forall i :: 0 <= i < |xs| ==> Free(xs[i], c)
    ensures SplitPrefixed(JoinPrefixed(xs, [c]), c) == xs
    decreases |xs|
  {
    if xs != [] {
      var init, last := xs[..|xs| - 1], xs[|xs| - 1];
      var p := JoinPrefixed(init, [c]);
      var s := p + [c] + last;
      assert JoinPrefixed(xs, [c]) == s;
      LastIndexOfJoin(p, c, last);
      assert s[..|p|] == p;
      assert s[|p| + 1..] == last;
      SplitJoinPrefixed(init, c);
      assert xs == init + [last];
    }
  }

  /** Splitting at a one-character separator that follows every piece: the
      inverse of JoinSuffixed. */
  function SplitSuffixed(s: string, c: char): seq<string>
    decreases |s|
  {
    if s == [] then []
    else
      var t := s[..|s| - 1];
      match LastIndexOf(t, c)
      case None => [t]
      case Some(k) => SplitSuffixed(t[..k + 1], c) + [t[k + 1..]]
  }

  /** Pieces free of the separator come back out of JoinSuffixed unchanged. */
  lemma {:induction false} SplitJoinSuffixed(xs: seq<string>, c: char)
    requires forall i :: 0 <= i < |xs| ==> Free(xs[i], c)
    ensures SplitSuffixed(JoinSuffixed(xs, [c]), c) == xs
    decreases |xs|
  {
    if xs != [] {
      var init, last := xs[..|xs| - 1], xs[|xs| - 1];
      var p := JoinSuffixed(init, [c]);
      var s := p + last + [c];
      assert JoinSuffixed(xs, [c]) == s;
      var t := s[..|s| - 1];
      assert t == p + last;
      SplitJoinSuffixed(init, c);
      if init == [] {
        assert t == last;
      } else {
        var q := JoinSuffixed(init[..|init| - 1], [c]) + init[|init| - 1];
        assert p == q + [c];
        assert t == q + [c] + last;
        LastIndexOfJoin(q, c, last);
        assert t[..|q| + 1] == p;
        assert t[|q| + 1..] == last;
      }
      assert xs == init + [last];
    }
  }

  /** std::string::npos, the largest value of a 64-bit size_t. */
  const Npos: nat := 0xFFFF_FFFF_FFFF_FFFF

  /** Addition and subtraction on size_t wrap around modulo 2^64. */
  function SizeAdd(a: nat, b: nat): nat { (a + b) % 0x1_0000_0000_0000_0000 }
  function SizeSub(a: nat, b: nat): nat { (a - b) % 0x1_0000_0000_0000_0000 }

  /** A subtraction that does not go below zero does not wrap. */
  lemma SizeSubExact(a: nat, b: nat)
    requires b <= a <= Npos
    ensures SizeSub(a, b) == a - b
  {
  }

  /** One below zero wraps to npos. */
  lemma SizeSubWrapOne(a: nat)
    ensures SizeSub(a, a + 1) == Npos
  {
  }

  /** A find result as a size_t: npos for "not found". */
  function AsSize(pos: Option<nat>): nat {
    match pos
    case None => Npos
    case Some(p) => p
  }

  /** s.substr(pos, count): at most `count` characters from `pos` on (it throws
      when pos > size, which the callers here rule out). */
  function Substr(s: string, pos: nat, count: nat): (r: string)
    requires pos <= |s|
    ensures |r| <= count && pos + |r| <= |s| && r == s[pos..pos + |r|]
    ensures pos + count <= |s| ==> |r| == count
    ensures pos + count > |s| ==> r == s[pos..]
  {
    if pos + count <= |s| then s[pos..pos + count] else s[pos..]
  }
}
