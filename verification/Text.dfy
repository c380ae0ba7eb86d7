/** The parts of Go's `strings` and `strconv` packages that the codecs are built from. Strings are byte sequences. */
module Text {
  import opened Outcomes

  /** `p` occurs in `s` at position `i`. */
  predicate MatchAt(s: string, p: string, i: int) {
    0 <= i && i + |p| <= |s| && s[i..i + |p|] == p
  }

  /** strings.Index: the leftmost occurrence of `p`. */
  function Index(s: string, p: string): (r: Option<nat>)
    ensures r.Some? ==> MatchAt(s, p, r.value)
  {
    if |s| < |p| then None
    else if s[..|p|] == p then Some(0)
    else
      match Index(s[1..], p)
      case None => None
      case Some(i) => assert s[1..][i..i + |p|] == s[i + 1..i + 1 + |p|]; Some(i + 1)
  }

  /** Index finds an occurrence whenever there is one, and none starts before it. */
  lemma {:induction false} IndexIsLeftmost(s: string, p: string, j: nat)
    requires MatchAt(s, p, j)
    ensures Index(s, p).Some? && Index(s, p).value <= j
  {
    if s[..|p|] != p {
      assert s[1..][j - 1..j - 1 + |p|] == s[j..j + |p|];
      IndexIsLeftmost(s[1..], p, j - 1);
    }
  }

  predicate Contains(s: string, p: string) {
    exists i :: 0 <= i <= |s| && MatchAt(s, p, i)
  }

  /** strings.Replace of one occurrence by nothing. */
  function RemoveFirst(s: string, p: string): string {
    match Index(s, p)
    case None => s
    case Some(i) => s[..i] + s[i + |p|..]
  }

  /** strings.Split for a separator that is not empty. */
  function Split(s: string, sep: string): (parts: seq<string>)
    requires |sep| > 0
    ensures |parts| > 0
    decreases |s|
  {
    match Index(s, sep)
    case None => [s]
    case Some(i) => [s[..i]] + Split(s[i + |sep|..], sep)
  }

  /** strings.Join. */
  function Join(parts: seq<string>, sep: string): string {
    if |parts| == 0 then ""
    else if |parts| == 1 then parts[0]
    else parts[0] + sep + Join(parts[1..], sep)
  }

  lemma CutApart(s: string, i: nat, j: nat)
    requires i <= j <= |s|
    ensures s == s[..i] + s[i..j] + s[j..]
  {
  }

  /** Splitting never loses anything: joining the pieces again gives the string back. */
  lemma {:induction false} JoinAfterSplit(s: string, sep: string)
    requires |sep| > 0
    ensures Join(Split(s, sep), sep) == s
    decreases |s|
  {
    match Index(s, sep)
    case None =>
    case Some(i) =>
      var rest := s[i + |sep|..];
      JoinAfterSplit(rest, sep);
      assert Split(s, sep)[1..] == Split(rest, sep);
      CutApart(s, i, i + |sep|);
  }

  /** The first piece before a known separator is complete exactly when no occurrence starts earlier. */
  lemma IndexAtSeparator(a: string, sep: string, rest: string)
    requires |sep| > 0
    ensures Index(a + sep + rest, sep).Some? && Index(a + sep + rest, sep).value <= |a|
    ensures Index(a + sep + rest, sep) == Some(|a|) <==> forall j :: 0 <= j < |a| ==> !MatchAt(a + sep, sep, j)
  {
    var s := a + sep + rest;
    assert MatchAt(s, sep, |a|);
    IndexIsLeftmost(s, sep, |a|);
    var i := Index(s, sep).value;
    forall j | 0 <= j < |a| && MatchAt(a + sep, sep, j) ensures i <= j {
      assert s[j..j + |sep|] == (a + sep)[j..j + |sep|];
      IndexIsLeftmost(s, sep, j);
    }
    if i < |a| {
      assert s[i..i + |sep|] == (a + sep)[i..i + |sep|];
      assert MatchAt(a + sep, sep, i);
    }
  }

  /** Searching for one character: the first position that holds it. */
  lemma IndexOfChar(s: string, c: char, i: nat)
    requires i < |s| && s[i] == c && forall j :: 0 <= j < i ==> s[j] != c
    ensures Index(s, [c]) == Some(i)
  {
    assert MatchAt(s, [c], i);
    IndexIsLeftmost(s, [c], i);
    var r := Index(s, [c]).value;
    assert s[r..r + 1][0] == s[r];
  }

  lemma SplitAtChar(s: string, c: char, i: nat)
    requires i < |s| && s[i] == c && forall j :: 0 <= j < i ==> s[j] != c
    ensures Split(s, [c]) == [s[..i]] + Split(s[i + 1..], [c])
  {
    IndexOfChar(s, c, i);
  }

  /** A string without the separator is one piece. */
  lemma SplitWhole(s: string, c: char)
    requires c !in s
    ensures Split(s, [c]) == [s]
  {
    assert forall r :: MatchAt(s, [c], r) ==> s[r..r + 1][0] == s[r] && s[r] in s;
  }

  lemma FirstPosition(x: string, c: char) returns (i: nat)
    requires c in x
    ensures i < |x| && x[i] == c && forall j :: 0 <= j < i ==> x[j] != c
  {
    i := 0;
    while x[i] != c
      invariant i < |x|
      invariant forall j :: 0 <= j < i ==> x[j] != c
      decreases |x| - i
    {
      i := i + 1;
    }
  }

  lemma Associative(a: seq<string>, b: seq<string>, c: seq<string>)
    ensures a + (b + c) == a + b + c
  {
  }

  /** A one-character separator cuts a concatenation at the seam. */
  lemma {:induction false} SplitAtSeam(x: string, c: char, y: string)
    ensures Split(x + [c] + y, [c]) == Split(x, [c]) + Split(y, [c])
    decreases |x|
  {
    var s := x + [c] + y;
    if c !in x {
      SplitWhole(x, c);
      assert s[..|x|] == x && s[|x| + 1..] == y;
      SplitAtChar(s, c, |x|);
    } else {
      var i := FirstPosition(x, c);
      var rest := x[i + 1..];
      SplitAtSeam(rest, c, y);
      SplitAtChar(x, c, i);
      assert s[..i] == x[..i] && s[i + 1..] == rest + [c] + y;
      SplitAtChar(s, c, i);
      Associative([x[..i]], Split(rest, [c]), Split(y, [c]));
    }
  }

  // ---------------------------------------------------------------- numbers

  const MIN_INT := -0x8000_0000_0000_0000
  const MAX_INT := 0x7fff_ffff_ffff_ffff

  /** Go's int on a 64-bit platform. */
  type Int = x: int | MIN_INT <= x <= MAX_INT

  /** The value a 64-bit computation leaves behind. */
  function Wrap(x: int): Int {
    (x - MIN_INT) % 0x1_0000_0000_0000_0000 + MIN_INT
  }

  predicate IsDigit(c: char) {
    '0' <= c <= '9'
  }

  predicate AllDigits(s: string) {
    forall i :: 0 <= i < |s| ==> IsDigit(s[i])
  }

  function Digits(n: nat): (s: string)
    ensures |s| > 0 && AllDigits(s)
  {
    var last := [(n % 10 + '0' as int) as char];
    if n < 10 then last else Digits(n / 10) + last
  }

  function DigitsValue(s: string): nat
    requires AllDigits(s)
  {
    if s == "" then 0 else DigitsValue(s[..|s| - 1]) * 10 + (s[|s| - 1] as int - '0' as int)
  }

  lemma {:induction false} DigitsValueOfDigits(n: nat)
    ensures DigitsValue(Digits(n)) == n
  {
    if n >= 10 {
      DigitsValueOfDigits(n / 10);
      assert Digits(n)[..|Digits(n)| - 1] == Digits(n / 10);
    } else {
      assert Digits(n)[..0] == "";
    }
  }

  /** strconv.Itoa, the "%d" verb. */
  function Itoa(n: int): string {
    if n < 0 then "-" + Digits(-n) else Digits(n)
  }

  /** strconv.Atoi: an optional sign, then at least one digit, and nothing that does not fit 64 bits. */
  function Atoi(s: string): Option<Int> {
    var signed := |s| > 0 && (s[0] == '-' || s[0] == '+');
    var digits := if signed then s[1..] else s;
    if digits == "" || !AllDigits(digits) then None
    else
      var n: int := DigitsValue(digits);
      var value: int := if signed && s[0] == '-' then -n else n;
      if MIN_INT <= value <= MAX_INT then Some(value) else None
  }

  /** Every Go int survives being printed and parsed. */
  lemma AtoiOfItoa(n: int)
    requires MIN_INT <= n <= MAX_INT
    ensures Atoi(Itoa(n)) == Some(n)
  {
    DigitsValueOfDigits(if n < 0 then -n else n);
    if n < 0 {
      assert Itoa(n)[1..] == Digits(-n);
    } else {
      assert IsDigit(Itoa(n)[0]);
    }
  }
}
