/** The key codec of the write-through cache (storage/store/sql/sql.go). */
module CacheKey {
  import opened Outcomes
  import opened Text
  import opened Paging

  const DASH := "-"

  function Generate(endpointKey: string, p: Params): string {
    endpointKey + "-" + Itoa(p.eventsPage) + "-" + Itoa(p.eventsPageSize)
      + "-" + Itoa(p.resultsPage) + "-" + Itoa(p.resultsPageSize)
  }

  /** A cache key spelled out. */
  lemma GeneratedText()
    ensures Generate("core_api", Params(1, 50, -2, 20)) == "core_api-1-50--2-20"
  {
    assert Itoa(1) == "1" && Itoa(-2) == "-2";
    assert Digits(5) == "5" && Itoa(50) == "50";
    assert Digits(2) == "2" && Itoa(20) == "20";
  }

  function FromParts(parts: seq<string>): Option<(string, Params)> {
    var n := |parts|;
    if n < 5 then None
    else
      match (Atoi(parts[n - 4]), Atoi(parts[n - 3]), Atoi(parts[n - 2]), Atoi(parts[n - 1]))
      case (Some(eventsPage), Some(eventsPageSize), Some(resultsPage), Some(resultsPageSize)) =>
        Some((Join(parts[..n - 4], DASH), Params(eventsPage, eventsPageSize, resultsPage, resultsPageSize)))
      case _ => None
  }

  function Extract(cacheKey: string): Option<(string, Params)> {
    FromParts(Split(cacheKey, DASH))
  }

  /** A number is one dash-free piece, or an empty piece and the digits when it is negative. */
  lemma SplitNumber(n: int)
    ensures n >= 0 ==> Split(Itoa(n), DASH) == [Itoa(n)]
    ensures n < 0 ==> Split(Itoa(n), DASH) == ["", Digits(-n)]
  {
    if n >= 0 {
      SplitWhole(Itoa(n), '-');
    } else {
      assert Itoa(n) == "" + "-" + Digits(-n);
      SplitAtSeam("", '-', Digits(-n));
      SplitWhole("", '-');
      SplitWhole(Digits(-n), '-');
    }
  }

  lemma SplitGenerated(key: string, p: Params)
    ensures Split(Generate(key, p), DASH)
         == Split(key, DASH) + Split(Itoa(p.eventsPage), DASH) + Split(Itoa(p.eventsPageSize), DASH)
          + Split(Itoa(p.resultsPage), DASH) + Split(Itoa(p.resultsPageSize), DASH)
  {
    var a := key + "-" + Itoa(p.eventsPage);
    var b := a + "-" + Itoa(p.eventsPageSize);
    var c := b + "-" + Itoa(p.resultsPage);
    SplitAtSeam(key, '-', Itoa(p.eventsPage));
    SplitAtSeam(a, '-', Itoa(p.eventsPageSize));
    SplitAtSeam(b, '-', Itoa(p.resultsPage));
    SplitAtSeam(c, '-', Itoa(p.resultsPageSize));
  }

  lemma RoundTripWhenNonNegative(key: string, p: Params)
    requires p.NonNegative()
    ensures Extract(Generate(key, p)) == Some((key, p))
  {
    SplitGenerated(key, p);
    SplitNumber(p.eventsPage);
    SplitNumber(p.eventsPageSize);
    SplitNumber(p.resultsPage);
    SplitNumber(p.resultsPageSize);
    var parts := Split(Generate(key, p), DASH);
    assert parts == Split(key, DASH)
                  + [Itoa(p.eventsPage), Itoa(p.eventsPageSize), Itoa(p.resultsPage), Itoa(p.resultsPageSize)];
    assert parts[..|parts| - 4] == Split(key, DASH);
    JoinAfterSplit(key, DASH);
    AtoiOfItoa(p.eventsPage);
    AtoiOfItoa(p.eventsPageSize);
    AtoiOfItoa(p.resultsPage);
    AtoiOfItoa(p.resultsPageSize);
  }

  /** An unsigned piece never parses as a negative number. */
  lemma UnsignedPiece(s: string)
    requires '-' !in s
    ensures Atoi(s).Some? ==> Atoi(s).value >= 0
  {
  }

  /** The last pieces hold an empty one, or the last four are all unsigned. */
  lemma SignedParts(x: seq<string>, b: seq<string>, c: seq<string>, d: seq<string>)
    requires |x| >= 2 && 1 <= |b| <= 2 && 1 <= |c| <= 2 && 1 <= |d| <= 2
    requires |b| == 2 ==> b[0] == ""
    requires |c| == 2 ==> c[0] == ""
    requires |d| == 2 ==> d[0] == ""
    requires '-' !in x[|x| - 1]
    ensures var r := FromParts(x + b + c + d);
            r.Some? ==> |b| == |c| == |d| == 1 && r.value.1.eventsPage >= 0
                        && Atoi(x[|x| - 1]) == Some(r.value.1.eventsPage)
  {
    var parts := x + b + c + d;
    var n := |parts|;
    assert Atoi("") == None;
    hide Atoi;
    if |d| == 2 {
      assert parts[n - 2] == "";
    } else if |c| == 2 {
      assert parts[n - 3] == "";
    } else if |b| == 2 {
      assert parts[n - 4] == "";
    } else {
      assert parts[n - 4] == x[|x| - 1];
      UnsignedPiece(parts[n - 4]);
    }
  }

  function Magnitude(n: int): nat {
    if n < 0 then -n else n
  }

  /** A sign leaves an empty piece behind: only the one of the event page can get lost in the key. */
  lemma SignsOfGenerated(key: string, p: Params)
    ensures var r := Extract(Generate(key, p));
            r.Some? ==> && p.eventsPageSize >= 0 && p.resultsPage >= 0 && p.resultsPageSize >= 0
                        && r.value.1.eventsPage >= 0
                        && Atoi(Digits(Magnitude(p.eventsPage))) == Some(r.value.1.eventsPage)
  {
    var a := Split(Itoa(p.eventsPage), DASH);
    SplitGenerated(key, p);
    SplitNumber(p.eventsPage);
    SplitNumber(p.eventsPageSize);
    SplitNumber(p.resultsPage);
    SplitNumber(p.resultsPageSize);
    assert '-' !in a[|a| - 1] && a[|a| - 1] == Digits(Magnitude(p.eventsPage));
    hide Itoa, Atoi, Digits;
    SignedParts(Split(key, DASH) + a, Split(Itoa(p.eventsPageSize), DASH),
                Split(Itoa(p.resultsPage), DASH), Split(Itoa(p.resultsPageSize), DASH));
  }

  /** Extraction inverts generation exactly on the parameters that are not negative, whatever dashes the key has. */
  lemma CacheKeyRoundTrip(key: string, p: Params)
    ensures Extract(Generate(key, p)) == Some((key, p)) <==> p.NonNegative()
  {
    if p.NonNegative() {
      RoundTripWhenNonNegative(key, p);
    } else {
      SignsOfGenerated(key, p);
    }
  }

  // ---------------------------------------------------------------- collisions

  /** The same parameters except for opposite event pages, and the dash of the negative one at the end of the other
      key. */
  predicate Twins(key1: string, p1: Params, key2: string, p2: Params) {
    && p1.eventsPage < 0 && p1.eventsPage + p2.eventsPage == 0 && key2 == key1 + "-"
    && p1.eventsPageSize == p2.eventsPageSize
    && p1.resultsPage == p2.resultsPage && p1.resultsPageSize == p2.resultsPageSize
  }

  /** A dash before a number is the last one, unless the number brings its own. */
  function Stem(x: string, n: int): string {
    if n < 0 then x + "-" else x
  }

  lemma NumberAtEnd(x: string, n: int)
    ensures x + "-" + Itoa(n) == Stem(x, n) + "-" + Digits(Magnitude(n))
    ensures '-' !in Digits(Magnitude(n))
  {
  }

  lemma CutAtLastDash(u: string, d: string, v: string, e: string)
    requires u + "-" + d == v + "-" + e && '-' !in d && '-' !in e
    ensures u == v && d == e
  {
    var s, t := u + "-" + d, v + "-" + e;
    assert s[|u|] == '-' && t[|v|] == '-';
    assert s[|u| + 1..] == d && t[|v| + 1..] == e;
    forall k | |u| < k < |s| ensures s[k] != '-' {
      assert s[k] == d[k - |u| - 1];
    }
    forall k | |v| < k < |t| ensures t[k] != '-' {
      assert t[k] == e[k - |v| - 1];
    }
    assert s[..|u|] == u && t[..|v|] == v;
  }

  lemma SameNumberAtEnd(x: string, n: int, y: string, m: int)
    requires x + "-" + Itoa(n) == y + "-" + Itoa(m)
    ensures Magnitude(n) == Magnitude(m) && Stem(x, n) == Stem(y, m)
  {
    NumberAtEnd(x, n);
    NumberAtEnd(y, m);
    CutAtLastDash(Stem(x, n), Digits(Magnitude(n)), Stem(y, m), Digits(Magnitude(m)));
    DigitsValueOfDigits(Magnitude(n));
    DigitsValueOfDigits(Magnitude(m));
  }

  predicate EndsInDigit(s: string) {
    |s| > 0 && IsDigit(s[|s| - 1])
  }

  lemma NumberEndsInDigit(x: string, n: int)
    ensures EndsInDigit(x + "-" + Itoa(n))
  {
    NumberAtEnd(x, n);
    var d := Digits(Magnitude(n));
    assert (Stem(x, n) + "-" + d)[|Stem(x, n)| + |d|] == d[|d| - 1];
  }

  /** After a digit, a dash and a number can be told apart. */
  lemma SameNumberAfterDigit(x: string, n: int, y: string, m: int)
    requires EndsInDigit(x) && EndsInDigit(y)
    ensures x + "-" + Itoa(n) == y + "-" + Itoa(m) <==> x == y && n == m
  {
    if x + "-" + Itoa(n) == y + "-" + Itoa(m) {
      SameNumberAtEnd(x, n, y, m);
      assert (x + "-")[|x|] == '-' && (y + "-")[|y|] == '-';
      assert (x + "-")[..|x|] == x && (y + "-")[..|y|] == y;
    }
  }

  lemma SameFirstNumber(key1: string, n: int, key2: string, m: int)
    ensures key1 + "-" + Itoa(n) == key2 + "-" + Itoa(m)
       <==> || (key1 == key2 && n == m)
            || (n < 0 && m == -n && key2 == key1 + "-")
            || (m < 0 && n == -m && key1 == key2 + "-")
  {
    if key1 + "-" + Itoa(n) == key2 + "-" + Itoa(m) {
      SameNumberAtEnd(key1, n, key2, m);
      assert (key1 + "-")[..|key1|] == key1 && (key2 + "-")[..|key2|] == key2;
    }
    NumberAtEnd(key1, n);
    NumberAtEnd(key2, m);
  }

  /** Exactly which arguments share a cache key: equal ones, and twins. */
  lemma SameCacheKey(key1: string, p1: Params, key2: string, p2: Params)
    ensures Generate(key1, p1) == Generate(key2, p2)
       <==> (key1 == key2 && p1 == p2) || Twins(key1, p1, key2, p2) || Twins(key2, p2, key1, p1)
  {
    var a1, a2 := key1 + "-" + Itoa(p1.eventsPage), key2 + "-" + Itoa(p2.eventsPage);
    var b1, b2 := a1 + "-" + Itoa(p1.eventsPageSize), a2 + "-" + Itoa(p2.eventsPageSize);
    var c1, c2 := b1 + "-" + Itoa(p1.resultsPage), b2 + "-" + Itoa(p2.resultsPage);
    NumberEndsInDigit(key1, p1.eventsPage);
    NumberEndsInDigit(key2, p2.eventsPage);
    NumberEndsInDigit(a1, p1.eventsPageSize);
    NumberEndsInDigit(a2, p2.eventsPageSize);
    NumberEndsInDigit(b1, p1.resultsPage);
    NumberEndsInDigit(b2, p2.resultsPage);
    hide EndsInDigit, Itoa;
    SameNumberAfterDigit(c1, p1.resultsPageSize, c2, p2.resultsPageSize);
    SameNumberAfterDigit(b1, p1.resultsPage, b2, p2.resultsPage);
    SameNumberAfterDigit(a1, p1.eventsPageSize, a2, p2.eventsPageSize);
    SameFirstNumber(key1, p1.eventsPage, key2, p2.eventsPage);
  }

  /** Generation is injective as long as no event page is negative, whatever the other parameters are. */
  lemma CacheKeyInjective(key1: string, p1: Params, key2: string, p2: Params)
    requires p1.eventsPage >= 0 && p2.eventsPage >= 0
    requires Generate(key1, p1) == Generate(key2, p2)
    ensures key1 == key2 && p1 == p2
  {
    SameCacheKey(key1, p1, key2, p2);
  }

  /** Some other key or parameters generate the same cache key. */
  ghost predicate IsShared(key: string, p: Params) {
    exists key2, p2: Params :: (key2 != key || p2 != p) && Generate(key2, p2) == Generate(key, p)
  }

  /** A cache key is shared exactly if the event page is negative, or positive while the key ends with a dash; the
      smallest integer has no opposite. */
  lemma SharedExactly(key: string, p: Params)
    ensures IsShared(key, p)
       <==> MIN_INT < p.eventsPage < 0 || (p.eventsPage > 0 && |key| > 0 && key[|key| - 1] == '-')
  {
    if MIN_INT < p.eventsPage < 0 {
      SameCacheKey(key, p, key + "-", Params(-p.eventsPage, p.eventsPageSize, p.resultsPage, p.resultsPageSize));
    } else if p.eventsPage > 0 && |key| > 0 && key[|key| - 1] == '-' {
      var shorter := key[..|key| - 1];
      assert key == shorter + "-";
      SameCacheKey(key, p, shorter, Params(-p.eventsPage, p.eventsPageSize, p.resultsPage, p.resultsPageSize));
    } else if IsShared(key, p) {
      var key2, p2: Params :| (key2 != key || p2 != p) && Generate(key2, p2) == Generate(key, p);
      SameCacheKey(key, p, key2, p2);
    }
  }

  /** A negative page really does collide with another endpoint's entry. */
  lemma NegativePageCollides()
    ensures Generate("a", Params(-1, 1, 1, 1)) == Generate("a-", Params(1, 1, 1, 1))
  {
    SameCacheKey("a", Params(-1, 1, 1, 1), "a-", Params(1, 1, 1, 1));
  }

  lemma DigitsBeyondInt(n: nat)
    requires n > MAX_INT
    ensures Atoi(Digits(n)) == None
  {
    DigitsValueOfDigits(n);
    assert IsDigit(Digits(n)[0]);
  }

  /** Whatever was generated, extraction gives non-negative parameters that generate it again, or nothing. */
  lemma ExtractOfGenerated(key: string, p: Params)
    ensures var r := Extract(Generate(key, p));
            r.Some? ==> r.value.1.NonNegative() && Generate(r.value.0, r.value.1) == Generate(key, p)
  {
    if p.NonNegative() {
      CacheKeyRoundTrip(key, p);
    } else if Extract(Generate(key, p)).Some? {
      SignsOfGenerated(key, p);
      if p.eventsPage == MIN_INT {
        DigitsBeyondInt(-MIN_INT);
      }
      var twin := Params(-p.eventsPage, p.eventsPageSize, p.resultsPage, p.resultsPageSize);
      SameCacheKey(key, p, key + "-", twin);
      CacheKeyRoundTrip(key + "-", twin);
    }
  }

  /** The pattern that Insert refreshes: GetKeysByPattern(key + "*"), read as "starts with key". */
  predicate MatchesPattern(cacheKey: string, endpointKey: string) {
    |endpointKey| <= |cacheKey| && cacheKey[..|endpointKey|] == endpointKey
  }

  /** It matches exactly the cache keys that go on after the key, among them those of endpoints with longer keys. */
  lemma PatternIsPrefix(cacheKey: string, endpointKey: string)
    ensures MatchesPattern(cacheKey, endpointKey) <==> exists rest :: cacheKey == endpointKey + rest
  {
    if MatchesPattern(cacheKey, endpointKey) {
      assert cacheKey == endpointKey + cacheKey[|endpointKey|..];
    }
  }

  /** No entry of the inserted endpoint escapes the pattern. */
  lemma PatternCatchesEndpoint(key: string, p: Params)
    ensures MatchesPattern(Generate(key, p), key)
  {
    var g := Generate(key, p);
    assert g == key + g[|key|..];
  }
}
