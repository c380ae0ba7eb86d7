/** The column codec for a result's list of errors (storage/store/sql/sql.go). */
module ErrorList {
  import opened Outcomes
  import opened Text

  const ARRAY_SEPARATOR := "|~|"

  function Encode(errors: seq<string>): string {
    Join(errors, ARRAY_SEPARATOR)
  }

  /** An empty column leaves the result's error list nil, that is, empty. */
  function Decode(column: string): seq<string> {
    if |column| != 0 then Split(column, ARRAY_SEPARATOR) else []
  }

  /** `|~` at the end would form a separator with the first character of the next one. */
  predicate EndsLikeSeparator(s: string) {
    |s| >= 2 && s[|s| - 2..] == "|~"
  }

  /** No element contains the separator, and none but the last ends like one. */
  predicate SeparatorSafe(errors: seq<string>) {
    |errors| == 0 ||
    (!Contains(errors[0], ARRAY_SEPARATOR) &&
     (|errors| == 1 || (!EndsLikeSeparator(errors[0]) && SeparatorSafe(errors[1..]))))
  }

  lemma EarlyMatch(a: string)
    ensures (forall j :: 0 <= j < |a| ==> !MatchAt(a + ARRAY_SEPARATOR, ARRAY_SEPARATOR, j))
       <==> !Contains(a, ARRAY_SEPARATOR) && !EndsLikeSeparator(a)
  {
    var s := a + ARRAY_SEPARATOR;
    forall j | 0 <= j < |a|
      ensures MatchAt(s, ARRAY_SEPARATOR, j) <==> MatchAt(a, ARRAY_SEPARATOR, j) || (j == |a| - 2 && EndsLikeSeparator(a))
    {
      assert s[j..j + 3] == [s[j], s[j + 1], s[j + 2]];
      if j + 3 <= |a| {
        assert a[j..j + 3] == s[j..j + 3];
      } else if j == |a| - 2 {
        assert a[j..] == [a[j], a[j + 1]];
      }
    }
    if EndsLikeSeparator(a) {
      assert MatchAt(s, ARRAY_SEPARATOR, |a| - 2);
    }
  }

  lemma FirstPiece(a: string, rest: seq<string>)
    requires |rest| > 0
    ensures Split(a + ARRAY_SEPARATOR + Join(rest, ARRAY_SEPARATOR), ARRAY_SEPARATOR) == [a] + rest
       <==> Index(a + ARRAY_SEPARATOR + Join(rest, ARRAY_SEPARATOR), ARRAY_SEPARATOR) == Some(|a|)
            && Split(Join(rest, ARRAY_SEPARATOR), ARRAY_SEPARATOR) == rest
  {
    var tail := Join(rest, ARRAY_SEPARATOR);
    var joined := a + ARRAY_SEPARATOR + tail;
    IndexAtSeparator(a, ARRAY_SEPARATOR, tail);
    var i := Index(joined, ARRAY_SEPARATOR).value;
    var parts := Split(joined, ARRAY_SEPARATOR);
    assert parts[0] == joined[..i] && parts[1..] == Split(joined[i + 3..], ARRAY_SEPARATOR);
    assert ([a] + rest)[0] == a && ([a] + rest)[1..] == rest;
    if i == |a| {
      assert joined[..i] == a && joined[i + 3..] == tail;
      assert parts == [parts[0]] + parts[1..];
    } else {
      assert |parts[0]| != |a|;
    }
  }

  lemma {:induction false} SplitOfJoin(errors: seq<string>)
    requires |errors| > 0
    ensures Split(Join(errors, ARRAY_SEPARATOR), ARRAY_SEPARATOR) == errors <==> SeparatorSafe(errors)
  {
    var a, rest := errors[0], errors[1..];
    var joined := Join(errors, ARRAY_SEPARATOR);
    if |errors| == 1 {
      if Contains(a, ARRAY_SEPARATOR) {
        var j :| 0 <= j <= |a| && MatchAt(a, ARRAY_SEPARATOR, j);
        IndexIsLeftmost(a, ARRAY_SEPARATOR, j);
        assert |Split(joined, ARRAY_SEPARATOR)| > 1;
      }
    } else {
      IndexAtSeparator(a, ARRAY_SEPARATOR, Join(rest, ARRAY_SEPARATOR));
      EarlyMatch(a);
      SplitOfJoin(rest);
      FirstPiece(a, rest);
      assert errors == [a] + rest;
    }
  }

  /** The list read back is the list written exactly when it is not the single empty error and every element is
      separator-safe: no element contains the separator, and none but the last ends with its first two characters. */
  lemma ErrorListRoundTrip(errors: seq<string>)
    ensures Decode(Encode(errors)) == errors <==> errors != [""] && SeparatorSafe(errors)
  {
    if |errors| > 0 {
      SplitOfJoin(errors);
      if |errors| > 1 {
        assert |Encode(errors)| >= 3;
      }
    }
  }

  lemma CutFirst(a: string, rest: string)
    requires forall j :: 0 <= j < |a| ==> !MatchAt(a + ARRAY_SEPARATOR, ARRAY_SEPARATOR, j)
    ensures Split(a + ARRAY_SEPARATOR + rest, ARRAY_SEPARATOR) == [a] + Split(rest, ARRAY_SEPARATOR)
  {
    var joined := a + ARRAY_SEPARATOR + rest;
    IndexAtSeparator(a, ARRAY_SEPARATOR, rest);
    hide Index;
    assert joined[..|a|] == a && joined[|a| + 3..] == rest;
  }

  lemma ShortIsWhole(s: string)
    requires |s| <= 3 && s != ARRAY_SEPARATOR
    ensures Split(s, ARRAY_SEPARATOR) == [s]
  {
    assert |s| == 3 ==> s[..3] == s;
  }

  /** A separator inside an element splits it. */
  lemma SeparatorInside()
    ensures Decode(Encode(["a|~|b"])) == ["a", "b"]
  {
    assert ("a" + ARRAY_SEPARATOR)[0] == 'a';
    CutFirst("a", "b");
    ShortIsWhole("b");
    hide Split;
    assert Encode(["a|~|b"]) == "a" + ARRAY_SEPARATOR + "b";
  }

  /** A separator that starts in one element is found there. */
  lemma SeparatorAcross()
    ensures Decode(Encode(["a|~", "b"])) == ["a", "~|b"]
  {
    assert ("a" + ARRAY_SEPARATOR)[0] == 'a';
    CutFirst("a", "~|b");
    ShortIsWhole("~|b");
    hide Split;
    assert Encode(["a|~", "b"]) == "a" + ARRAY_SEPARATOR + "~|b";
  }

  /** A single empty error is lost. */
  lemma EmptyErrorIsLost()
    ensures Decode(Encode([""])) == []
  {
  }
}
