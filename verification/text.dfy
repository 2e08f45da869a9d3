/** The JavaScript string primitives the widget's query builder relies on:
    `String.prototype.trim`, `split` and `join` on a one-character separator,
    and spreading a string into its characters. Strings are `seq<char>`, one
    element per Unicode scalar value. */
module Text {

  /** The characters `trim` strips: the WhiteSpace and LineTerminator
      productions of ECMAScript (sections 12.2 and 12.3 of ECMA-262), that is
      TAB, LF, VT, FF, CR, SPACE, NO-BREAK SPACE, the other space separators
      of Unicode category Zs, LINE SEPARATOR, PARAGRAPH SEPARATOR and
      ZERO WIDTH NO-BREAK SPACE. */
  const Whitespace: set<char> :=
    {'\U{0009}', '\U{000A}', '\U{000B}', '\U{000C}', '\U{000D}', '\U{0020}', '\U{00A0}',
     '\U{1680}', '\U{2000}', '\U{2001}', '\U{2002}', '\U{2003}', '\U{2004}', '\U{2005}',
     '\U{2006}', '\U{2007}', '\U{2008}', '\U{2009}', '\U{200A}', '\U{2028}', '\U{2029}',
     '\U{202F}', '\U{205F}', '\U{3000}', '\U{FEFF}'}

  predicate IsWhitespace(c: char) {
    c in Whitespace
  }

  /** What `\d` matches in a regular expression: the ASCII digits. */
  predicate IsDigit(c: char) {
    '0' <= c <= '9'
  }

  predicate AllWhitespace(s: string) {
    forall i :: 0 <= i < |s| ==> IsWhitespace(s[i])
  }

  lemma WhitespaceCons(c: char, t: string)
    requires IsWhitespace(c) && AllWhitespace(t)
    ensures AllWhitespace([c] + t)
  {
  }

  lemma WhitespaceSnoc(t: string, c: char)
    requires AllWhitespace(t) && IsWhitespace(c)
    ensures AllWhitespace(t + [c])
  {
  }

  /** Drops the leading whitespace of `s`. */
  function TrimStart(s: string): (r: string)
    ensures |r| <= |s| && r == s[|s| - |r|..]
    ensures AllWhitespace(s[..|s| - |r|])
    ensures |r| > 0 ==> !IsWhitespace(r[0])
  {
    if |s| > 0 && IsWhitespace(s[0]) then
      var r := TrimStart(s[1..]);
      assert s[..|s| - |r|] == [s[0]] + s[1..][..|s| - 1 - |r|];
      WhitespaceCons(s[0], s[1..][..|s| - 1 - |r|]);
      r
    else s
  }

  /** Drops the trailing whitespace of `s`. */
  function TrimEnd(s: string): (r: string)
    ensures |r| <= |s| && r == s[..|r|]
    ensures AllWhitespace(s[|r|..])
    ensures |r| > 0 ==> !IsWhitespace(r[|r| - 1])
  {
    if |s| > 0 && IsWhitespace(s[|s| - 1]) then
      var r := TrimEnd(s[..|s| - 1]);
      assert s[|r|..] == s[..|s| - 1][|r|..] + [s[|s| - 1]];
      WhitespaceSnoc(s[..|s| - 1][|r|..], s[|s| - 1]);
      r
    else s
  }

  /** `r` is the slice of `s` at offset `a`, and everything around it is
      whitespace. */
  predicate StrippedSlice(s: string, a: int, r: string) {
    && 0 <= a <= |s| - |r|
    && r == s[a..a + |r|]
    && AllWhitespace(s[..a])
    && AllWhitespace(s[a + |r|..])
  }

  /** `s.trim()`: the slice of `s` left once whitespace is stripped from both
      ends. */
  function Trim(s: string): (r: string)
    ensures |r| > 0 ==> !IsWhitespace(r[0]) && !IsWhitespace(r[|r| - 1])
    ensures exists a :: StrippedSlice(s, a, r)
  {
    var t := TrimStart(s);
    var r := TrimEnd(t);
    TrimSlice(s, t, r);
    r
  }

  /** Stripping a whitespace prefix and then a whitespace suffix leaves a
      slice of `s` with whitespace on both sides of it. */
  lemma TrimSlice(s: string, t: string, r: string)
    requires |t| <= |s| && t == s[|s| - |t|..] && AllWhitespace(s[..|s| - |t|])
    requires |r| <= |t| && r == t[..|r|] && AllWhitespace(t[|r|..])
    ensures StrippedSlice(s, |s| - |t|, r)
  {
    var a := |s| - |t|;
    assert s[a..a + |r|] == r;
    assert s[a + |r|..] == t[|r|..];
  }

  /** `trim` leaves a string alone exactly when neither end is whitespace. */
  lemma TrimFixpoint(s: string)
    ensures Trim(s) == s <==> (|s| == 0 || (!IsWhitespace(s[0]) && !IsWhitespace(s[|s| - 1])))
  {
    if |s| > 0 && !IsWhitespace(s[0]) && !IsWhitespace(s[|s| - 1]) {
      assert TrimStart(s) == s;
      assert TrimEnd(s) == s;
    }
  }

  /** Whitespace alone trims to nothing. */
  lemma TrimAllWhitespace(w: string)
    requires AllWhitespace(w)
    ensures Trim(w) == ""
  {
    var t := TrimStart(w);
    WhitespaceSuffix(w, |w| - |t|);
  }

  lemma WhitespaceSuffix(s: string, k: int)
    requires AllWhitespace(s) && 0 <= k <= |s|
    ensures AllWhitespace(s[k..])
  {
  }

  /** Trimming twice is trimming once. */
  lemma TrimIdempotent(s: string)
    ensures Trim(Trim(s)) == Trim(s)
  {
    TrimFixpoint(Trim(s));
  }

  /** `trim` removes only whitespace, so it keeps every other character, with
      its multiplicity. */
  lemma TrimKeeps(s: string, c: char)
    requires !IsWhitespace(c)
    ensures multiset(Trim(s))[c] == multiset(s)[c]
  {
    TrimStartKeeps(s, c);
    TrimEndKeeps(TrimStart(s), c);
  }

  lemma TrimStartKeeps(s: string, c: char)
    requires !IsWhitespace(c)
    ensures multiset(TrimStart(s))[c] == multiset(s)[c]
  {
    var r := TrimStart(s);
    var lead := s[..|s| - |r|];
    assert s == lead + r;
    assert c !in lead;
    assert multiset(s) == multiset(lead) + multiset(r);
  }

  lemma TrimEndKeeps(s: string, c: char)
    requires !IsWhitespace(c)
    ensures multiset(TrimEnd(s))[c] == multiset(s)[c]
  {
    var r := TrimEnd(s);
    var trail := s[|r|..];
    assert s == r + trail;
    assert c !in trail;
    assert multiset(s) == multiset(r) + multiset(trail);
  }

  /** Position of the first `c` in `s`, or `|s|` when there is none
      (`indexOf`, with "not found" mapped to the length). */
  function IndexOf(s: string, c: char): (i: nat)
    ensures i <= |s|
    ensures i < |s| <==> c in s
    ensures i < |s| ==> s[i] == c
    ensures c !in s[..i]
  {
    if |s| == 0 then 0
    else if s[0] == c then 0
    else
      var j := IndexOf(s[1..], c);
      assert s[..1 + j] == [s[0]] + s[1..][..j];
      1 + j
  }

  /** `k` is the position of the first `c` in `s`. */
  predicate FirstAt(s: string, c: char, k: int) {
    0 <= k < |s| && s[k] == c && c !in s[..k]
  }

  lemma FirstAtIsIndexOf(s: string, c: char, k: int)
    requires FirstAt(s, c, k)
    ensures IndexOf(s, c) == k
  {
  }

  /** `s.split(sep)` for a one-character separator: the maximal runs of `s`
      between occurrences of `sep`, empty runs included. */
  function Split(s: string, sep: char): (parts: seq<string>)
    ensures |parts| >= 1
    ensures forall i :: 0 <= i < |parts| ==> sep !in parts[i]
    ensures |parts| == 1 <==> sep !in s
    decreases |s|
  {
    var i := IndexOf(s, sep);
    if i == |s| then [s]
    else
      var rest := Split(s[i + 1..], sep);
      assert forall k :: 0 <= k < |rest| ==> ([s[..i]] + rest)[k + 1] == rest[k];
      [s[..i]] + rest
  }

  /** `parts.join(sep)`: the parts with one `sep` between neighbours. */
  function Join(parts: seq<string>, sep: char): (r: string)
    ensures |parts| == 0 ==> r == ""
    ensures |parts| > 0 ==> |parts[0]| <= |r| && r[..|parts[0]|] == parts[0]
    ensures |parts| > 1 ==> |parts[0]| < |r| && r[|parts[0]|] == sep
  {
    if |parts| == 0 then ""
    else if |parts| == 1 then parts[0]
    else parts[0] + [sep] + Join(parts[1..], sep)
  }

  /** Joining what was split gives the string back. */
  lemma {:induction false} JoinSplit(s: string, sep: char)
    ensures Join(Split(s, sep), sep) == s
    decreases |s|
  {
    var i := IndexOf(s, sep);
    if i < |s| {
      var rest := Split(s[i + 1..], sep);
      SplitUnfold(s, sep);
      JoinCons(s[..i], rest, sep);
      JoinSplit(s[i + 1..], sep);
      AroundSeparator(s, sep, i);
    }
  }

  /** A split with a separator in it: the text before the first separator,
      then the split of the rest. */
  lemma SplitUnfold(s: string, sep: char)
    requires sep in s
    ensures Split(s, sep) == [s[..IndexOf(s, sep)]] + Split(s[IndexOf(s, sep) + 1..], sep)
  {
  }

  lemma JoinCons(a: string, rest: seq<string>, sep: char)
    requires |rest| >= 1
    ensures Join([a] + rest, sep) == a + [sep] + Join(rest, sep)
  {
    assert ([a] + rest)[1..] == rest;
  }

  /** Splitting what was joined gives the parts back, when no part holds the
      separator. */
  lemma {:induction false} SplitJoin(parts: seq<string>, sep: char)
    requires |parts| >= 1
    requires forall i :: 0 <= i < |parts| ==> sep !in parts[i]
    ensures Split(Join(parts, sep), sep) == parts
  {
    if |parts| > 1 {
      var rest := Join(parts[1..], sep);
      assert Join(parts, sep) == parts[0] + [sep] + rest;
      SplitCons(parts[0], sep, rest);
      assert forall i :: 0 <= i < |parts[1..]| ==> parts[1..][i] == parts[i + 1];
      SplitJoin(parts[1..], sep);
      assert parts == [parts[0]] + parts[1..];
    }
  }

  /** A split of `a + [sep] + b` whose first part is `a`. */
  lemma SplitCons(a: string, sep: char, b: string)
    requires sep !in a
    ensures Split(a + [sep] + b, sep) == [a] + Split(b, sep)
  {
    var s := a + [sep] + b;
    assert s[..|a|] == a;
    FirstAtIsIndexOf(s, sep, |a|);
    assert s[|a| + 1..] == b;
  }

  /** A string is what comes before position `k`, the character there, and
      what comes after. */
  lemma AroundSeparator(s: string, c: char, k: int)
    requires 0 <= k < |s| && s[k] == c
    ensures s[..k] + [c] + s[k + 1..] == s
  {
    assert s == s[..k] + [c] + s[k + 1..];
  }

  /** The first part of a split is everything before the first separator;
      the remaining parts, joined again, are everything after it. */
  lemma SplitHeadTail(s: string, sep: char)
    ensures Split(s, sep)[0] == s[..IndexOf(s, sep)]
    ensures Join(Split(s, sep)[1..], sep)
            == if IndexOf(s, sep) < |s| then s[IndexOf(s, sep) + 1..] else ""
  {
    var i := IndexOf(s, sep);
    if i < |s| {
      SplitUnfold(s, sep);
      var rest := Split(s[i + 1..], sep);
      assert ([s[..i]] + rest)[1..] == rest;
      JoinSplit(s[i + 1..], sep);
    } else {
      assert s[..i] == s;
    }
  }

  /** `[...s]`: the one-character strings of `s`, in order. */
  function Spread(s: string): (r: seq<string>)
    ensures |r| == |s|
    ensures forall i :: 0 <= i < |s| ==> r[i] == [s[i]]
  {
    if |s| == 0 then [] else [[s[0]]] + Spread(s[1..])
  }

  /** `acc.concat(...pieces)`. */
  function ConcatAll(acc: string, pieces: seq<string>): (r: string)
    ensures |acc| <= |r| && r[..|acc|] == acc
    ensures |pieces| > 0 ==> |acc| + |pieces[0]| <= |r| && r[|acc|..|acc| + |pieces[0]|] == pieces[0]
    decreases |pieces|
  {
    if |pieces| == 0 then acc else ConcatAll(acc + pieces[0], pieces[1..])
  }

  /** Concatenating the spread characters of `s` appends `s` itself. */
  lemma {:induction false} ConcatSpread(acc: string, s: string)
    ensures ConcatAll(acc, Spread(s)) == acc + s
    decreases |s|
  {
    if |s| > 0 {
      var sp := Spread(s);
      var rest := Spread(s[1..]);
      assert sp == [[s[0]]] + rest;
      assert sp[1..] == rest;
      assert ConcatAll(acc, sp) == ConcatAll(acc + [s[0]], rest);
      ConcatSpread(acc + [s[0]], s[1..]);
      AppendFirst(acc, s);
    } else {
      assert acc + s == acc;
    }
  }

  lemma AppendFirst(acc: string, s: string)
    requires |s| > 0
    ensures acc + [s[0]] + s[1..] == acc + s
  {
    assert s == [s[0]] + s[1..];
  }
}
