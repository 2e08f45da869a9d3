/** The query half of `fetchAddresses`: how the search text is sorted into
    one of four cases, the filter each case yields, the `where` clause that
    filter is written as, and the feature-service URL the clause is spliced
    into. User text is copied into the clause as it is, with no escaping. */
module Query {
  import opened Wrappers
  import opened Text

  const BaseUrl: string :=
    "https://services.arcgis.com/rYz782eMbySr2srL/arcgis/rest/services/Addresses/FeatureServer/1/query?where="

  /** Asks for every field, WGS 84 coordinates and a JSON body. */
  const QuerySuffix: string := "&outFields=*&outSR=4326&f=json"

  /** What the result list shows instead of issuing a query. */
  const Placeholder: string := "Please type an address to begin"

  const NumberLike: string := "NUMBER_COMPLETE like '"
  const StreetLike: string := "FULL_STREET_NAME like '"

  /** `/\d/.test(s)`. */
  function ContainsDigit(s: string): (b: bool)
    ensures b <==> exists i :: 0 <= i < |s| && IsDigit(s[i])
  {
    if |s| == 0 then false
    else if IsDigit(s[0]) then true
    else
      var b := ContainsDigit(s[1..]);
      assert forall i :: 0 <= i < |s[1..]| ==> s[1..][i] == s[i + 1];
      b
  }

  /** `/^\d+$/.test(s)`: non-empty and nothing but digits. */
  function AllDigits(s: string): (b: bool)
    ensures b <==> |s| > 0 && forall i :: 0 <= i < |s| ==> IsDigit(s[i])
  {
    if |s| == 0 then false
    else if !IsDigit(s[0]) then false
    else if |s| == 1 then true
    else
      var b := AllDigits(s[1..]);
      assert forall i :: 0 <= i < |s[1..]| ==> s[1..][i] == s[i + 1];
      b
  }

  /** The four cases the search text falls into. */
  datatype SearchKind =
    | Empty    // nothing typed
    | Numeric  // only digits
    | Mixed    // some digit, and something that is not a digit
    | Street   // no digit at all (whitespace-only text included)

  function Classify(s: string): (k: SearchKind)
    ensures k == Empty <==> |s| == 0
    ensures k == Numeric <==> |s| > 0 && forall i :: 0 <= i < |s| ==> IsDigit(s[i])
    ensures k == Mixed <==> ((exists i :: 0 <= i < |s| && IsDigit(s[i]))
                             && (exists j :: 0 <= j < |s| && !IsDigit(s[j])))
    ensures k == Street <==> |s| > 0 && forall i :: 0 <= i < |s| ==> !IsDigit(s[i])
  {
    if |s| == 0 then Empty
    else if ContainsDigit(s) then (if AllDigits(s) then Numeric else Mixed)
    else Street
  }

  /** The constraint the feature service is asked to apply. */
  datatype Filter =
    | NumberPrefix(number: string)                    // street number starts with `number`
    | NumberAndStreet(number: string, street: string) // number is `number`, street starts with `street`
    | StreetPrefix(street: string)                    // street name starts with `street`

  /** The filter for the search text, computed the way `fetchAddresses`
      computes it; `None` when the text is empty and no query is made. The
      lemmas below say what it is in each of the other three cases. */
  function BuildFilter(s: string): (r: Option<Filter>)
    ensures r.None? <==> |s| == 0
  {
    match Classify(s)
    case Empty => None
    case Numeric => Some(NumberPrefix(Trim(s)))
    case Mixed =>
      var tokens := Split(s, ' ');
      var number := Trim(tokens[0]);
      var street := ConcatAll("", Spread(Join(tokens[1..], ' ')));
      Some(NumberAndStreet(number, street))
    case Street => Some(StreetPrefix(Trim(s)))
  }

  /** Digits only: a prefix match on the street number, with the text as
      typed and no street constraint. */
  lemma NumericFilter(s: string)
    requires Classify(s) == Numeric
    ensures BuildFilter(s) == Some(NumberPrefix(s))
    ensures WhereClause(BuildFilter(s).value) == NumberLike + s + "%'"
  {
    NumericBranch(s);
    DigitsTrimmed(s);
  }

  lemma NumericBranch(s: string)
    requires Classify(s) == Numeric
    ensures BuildFilter(s) == Some(NumberPrefix(Trim(s)))
  {
  }

  /** A digit and something else, with a space: the number must equal the
      trimmed text before the first space, and the street name must start
      with everything after it. */
  lemma MixedFilter(s: string, k: int)
    requires Classify(s) == Mixed
    requires FirstAt(s, ' ', k)
    ensures BuildFilter(s) == Some(NumberAndStreet(Trim(s[..k]), s[k + 1..]))
    ensures WhereClause(BuildFilter(s).value)
            == NumberLike + Trim(s[..k]) + "' and " + StreetLike + s[k + 1..] + "%'"
  {
    MixedTokens(s);
  }

  /** A digit and something else, without a space: the whole trimmed text is
      the number and the street prefix is empty. */
  lemma MixedFilterNoSpace(s: string)
    requires Classify(s) == Mixed
    requires ' ' !in s
    ensures BuildFilter(s) == Some(NumberAndStreet(Trim(s), ""))
    ensures WhereClause(BuildFilter(s).value) == NumberLike + Trim(s) + "' and " + StreetLike + "%'"
  {
    MixedTokens(s);
  }

  /** No digit at all: a prefix match on the trimmed street name only. */
  lemma StreetFilter(s: string)
    requires Classify(s) == Street
    ensures BuildFilter(s) == Some(StreetPrefix(Trim(s)))
    ensures WhereClause(BuildFilter(s).value) == StreetLike + Trim(s) + "%'"
  {
  }

  /** Text of digits has no whitespace to trim. */
  lemma DigitsTrimmed(s: string)
    requires forall i :: 0 <= i < |s| ==> IsDigit(s[i])
    ensures Trim(s) == s
  {
    if |s| > 0 {
      assert !IsWhitespace(s[0]) && !IsWhitespace(s[|s| - 1]);
    }
    TrimFixpoint(s);
  }

  /** The mixed case's number is the trimmed text before the first space and
      its street is everything after that space, or empty without a space. */
  lemma MixedTokens(s: string)
    ensures forall k :: FirstAt(s, ' ', k) ==>
              Trim(Split(s, ' ')[0]) == Trim(s[..k])
              && ConcatAll("", Spread(Join(Split(s, ' ')[1..], ' '))) == s[k + 1..]
    ensures ' ' !in s ==>
              Trim(Split(s, ' ')[0]) == Trim(s)
              && ConcatAll("", Spread(Join(Split(s, ' ')[1..], ' '))) == ""
  {
    SplitHeadTail(s, ' ');
    var tail := Join(Split(s, ' ')[1..], ' ');
    ConcatSpread("", tail);
    assert "" + tail == tail;
    forall k | FirstAt(s, ' ', k)
      ensures Trim(Split(s, ' ')[0]) == Trim(s[..k])
      ensures ConcatAll("", Spread(tail)) == s[k + 1..]
    {
      FirstAtIsIndexOf(s, ' ', k);
    }
    if ' ' !in s {
      assert s[..IndexOf(s, ' ')] == s;
    }
  }

  /** The filter written in the service's query language. */
  function WhereClause(f: Filter): (w: string)
    ensures |w| >= 2 && w[|w| - 2..] == "%'"
  {
    match f
    case NumberPrefix(n) => NumberLike + n + "%'"
    case NumberAndStreet(n, st) => NumberLike + n + "' and " + StreetLike + st + "%'"
    case StreetPrefix(st) => StreetLike + st + "%'"
  }

  /** The URL `fetchAddresses` requests for the search text, or `None` when
      it requests nothing. */
  function QueryUrl(s: string): (r: Option<string>)
    ensures r.None? <==> |s| == 0
    ensures r.Some? ==> IsQueryUrl(r.value)
    ensures r.Some? ==> r.value == BaseUrl + WhereClause(BuildFilter(s).value) + QuerySuffix
  {
    match BuildFilter(s)
    case None => None
    case Some(f) =>
      UrlShape(WhereClause(f));
      Some(BaseUrl + WhereClause(f) + QuerySuffix)
  }

  lemma UrlShape(w: string)
    requires |w| >= 2 && w[|w| - 2..] == "%'"
    ensures IsQueryUrl(BaseUrl + w + QuerySuffix)
  {
    var u := BaseUrl + w + QuerySuffix;
    assert u[..|BaseUrl|] == BaseUrl;
    assert u[|u| - |QuerySuffix| - 2..] == w[|w| - 2..] + QuerySuffix;
  }

  /** The clause sits between the base and the suffix of the URL, so it
      can be read back from the URL alone. */
  lemma UrlClause(s: string)
    requires |s| > 0
    ensures var u := QueryUrl(s).value;
            |BaseUrl| <= |u| - |QuerySuffix|
            && u[|BaseUrl|..|u| - |QuerySuffix|] == WhereClause(BuildFilter(s).value)
  {
    var w := WhereClause(BuildFilter(s).value);
    var u := BaseUrl + w + QuerySuffix;
    assert u[|BaseUrl|..|u| - |QuerySuffix|] == w;
  }

  /** The URL of all-digit text. */
  lemma NumericUrl(s: string)
    requires Classify(s) == Numeric
    ensures QueryUrl(s) == Some(BaseUrl + NumberLike + s + "%'" + QuerySuffix)
  {
    NumericFilter(s);
    Assoc(BaseUrl, NumberLike + s, "%'");
    Assoc(BaseUrl, NumberLike, s);
  }

  /** The URL of mixed text whose first space is at `k`. */
  lemma MixedUrl(s: string, k: int)
    requires Classify(s) == Mixed
    requires FirstAt(s, ' ', k)
    ensures QueryUrl(s) == Some(BaseUrl + NumberLike + Trim(s[..k]) + "' and "
                                + StreetLike + s[k + 1..] + "%'" + QuerySuffix)
  {
    MixedFilter(s, k);
    var n, st := Trim(s[..k]), s[k + 1..];
    Assoc(BaseUrl, NumberLike + n + "' and " + StreetLike + st, "%'");
    Assoc(BaseUrl, NumberLike + n + "' and " + StreetLike, st);
    Assoc(BaseUrl, NumberLike + n + "' and ", StreetLike);
    Assoc(BaseUrl, NumberLike + n, "' and ");
    Assoc(BaseUrl, NumberLike, n);
  }

  /** The URL of text without a digit. */
  lemma StreetUrl(s: string)
    requires Classify(s) == Street
    ensures QueryUrl(s) == Some(BaseUrl + StreetLike + Trim(s) + "%'" + QuerySuffix)
  {
    StreetFilter(s);
    Assoc(BaseUrl, StreetLike + Trim(s), "%'");
    Assoc(BaseUrl, StreetLike, Trim(s));
  }

  lemma Assoc(a: string, b: string, c: string)
    ensures a + (b + c) == a + b + c
  {
  }

  /** The shape every issued URL has: the base, a clause ending in `%'`, the
      fixed suffix. */
  predicate IsQueryUrl(u: string) {
    && |u| >= |BaseUrl| + 2 + |QuerySuffix|
    && u[..|BaseUrl|] == BaseUrl
    && u[|u| - |QuerySuffix| - 2..] == "%'" + QuerySuffix
  }

  /** In the mixed case, number, one space and street give the text back
      whenever the text before the first space has no whitespace at its
      ends; without a space the street is empty. */
  lemma MixedRoundTrip(s: string)
    requires Classify(s) == Mixed
    ensures ' ' in s && Trim(s[..IndexOf(s, ' ')]) == s[..IndexOf(s, ' ')]
            ==> BuildFilter(s).value.number + " " + BuildFilter(s).value.street == s
    ensures ' ' !in s ==> BuildFilter(s).value.street == ""
  {
    if ' ' in s {
      var k := IndexOf(s, ' ');
      MixedFilter(s, k);
      AroundSeparator(s, ' ', k);
    } else {
      MixedFilterNoSpace(s);
    }
  }

  /** `"<digits> <street>"`: the number must be exactly the digits and the
      street name must start with the rest; `"123 "` gives an empty street
      prefix. */
  lemma NumberThenStreet(d: string, st: string)
    requires |d| > 0 && forall i :: 0 <= i < |d| ==> IsDigit(d[i])
    ensures BuildFilter(d + " " + st) == Some(NumberAndStreet(d, st))
  {
    var s := d + " " + st;
    assert IsDigit(s[0]) && !IsDigit(s[|d|]);
    assert s[..|d|] == d;
    assert FirstAt(s, ' ', |d|);
    MixedFilter(s, |d|);
    assert s[|d| + 1..] == st;
    DigitsTrimmed(d);
  }
  /** A leading space makes the number token empty. */
  lemma LeadingSpace(t: string)
    requires exists i :: 0 <= i < |t| && IsDigit(t[i])
    ensures BuildFilter(" " + t) == Some(NumberAndStreet("", t))
  {
    var s := " " + t;
    var i :| 0 <= i < |t| && IsDigit(t[i]);
    assert IsDigit(s[i + 1]) && !IsDigit(s[0]);
    assert FirstAt(s, ' ', 0);
    MixedFilter(s, 0);
    assert s[1..] == t;
    TrimFixpoint("");
  }
  /** Whitespace alone has no digit and trims to nothing, so the street
      prefix is empty and the clause matches every street name. */
  lemma WhitespaceOnly(w: string)
    requires |w| > 0 && AllWhitespace(w)
    ensures BuildFilter(w) == Some(StreetPrefix(""))
    ensures WhereClause(BuildFilter(w).value) == StreetLike + "%'"
  {
    WhitespaceIsStreet(w);
    TrimAllWhitespace(w);
    StreetFilter(w);
  }

  /** No whitespace character is a digit. */
  lemma WhitespaceIsStreet(w: string)
    requires |w| > 0 && AllWhitespace(w)
    ensures Classify(w) == Street
  {
    forall i | 0 <= i < |w| ensures !IsDigit(w[i]) {
      assert IsWhitespace(w[i]);
    }
  }
}
