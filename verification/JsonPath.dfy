/** The JSON path walker (jsonpath/jsonpath.go), from a parsed document to the selected node. */
module JsonPath {
  import opened Outcomes
  import opened Text

  /** A parsed document. JNull is Go's nil, so it also stands for whatever is missing. */
  datatype Json =
    | JNull
    | JBool(value: bool)
    | JNumber(number: real)
    | JString(text: string)
    | JArray(items: seq<Json>)
    | JObject(fields: map<string, Json>)

  /** Panics: a failed type assertion, or a negative index into a slice. */
  datatype Extracted = Value(value: Json) | Panics

  datatype WalkError = StringInsteadOfObject(nextKey: string, key: string) | NotAnObject(key: string)

  datatype Walked = Selected(value: Json) | Failed(error: WalkError) | Crashed

  // --------------------------------------------------------------- segments

  /** Opening brackets minus closing ones; stray closing brackets make it negative. */
  function Depth(s: string): int {
    if s == "" then 0
    else
      var last := s[|s| - 1];
      Depth(s[..|s| - 1]) + if last == '[' then 1 else if last == ']' then -1 else 0
  }

  /** A dot that ends a key. */
  predicate DotAt(s: string, i: nat)
    requires i < |s|
  {
    s[i] == '.' && Depth(s[..i]) == 0
  }

  function FirstDot(s: string, from: nat): (r: Option<nat>)
    requires from <= |s|
    ensures r.None? ==> forall j :: from <= j < |s| ==> !DotAt(s, j)
    ensures r.Some? ==> from <= r.value < |s| && DotAt(s, r.value) && forall j :: from <= j < r.value ==> !DotAt(s, j)
    decreases |s| - from
  {
    if from == |s| then None else if DotAt(s, from) then Some(from) else FirstDot(s, from + 1)
  }

  /** Cut at the first dot outside brackets, and cut the rest as a path of its own. */
  function Segments(path: string): (keys: seq<string>)
    ensures |keys| > 0
    decreases |path|
  {
    match FirstDot(path, 0)
    case None => [path]
    case Some(i) => [path[..i]] + Segments(path[i + 1..])
  }

  predicate NoDotBefore(s: string, n: nat)
    requires n <= |s|
  {
    forall j :: 0 <= j < n ==> !DotAt(s, j)
  }

  /** A key without a dot of its own. */
  predicate NoDot(key: string) {
    NoDotBefore(key, |key|)
  }

  /** Keys that a dot can separate: only the last may leave a bracket open. */
  predicate Separable(keys: seq<string>) {
    && |keys| > 0
    && (forall i :: 0 <= i < |keys| ==> NoDot(keys[i]))
    && (forall i :: 0 <= i < |keys| - 1 ==> Depth(keys[i]) == 0)
  }

  lemma NoDotUpTo(s: string, i: nat)
    requires i <= |s| && NoDotBefore(s, i)
    ensures NoDot(s[..i])
  {
    forall j | 0 <= j < i ensures !DotAt(s[..i], j) {
      assert s[..i][..j] == s[..j];
      assert !DotAt(s, j);
    }
  }

  lemma FirstDotAtSeam(key: string, rest: string)
    requires NoDot(key) && Depth(key) == 0
    ensures FirstDot(key + "." + rest, 0) == Some(|key|)
  {
    var s := key + "." + rest;
    assert s[..|key|] == key;
    assert DotAt(s, |key|);
    forall j | 0 <= j < |key| ensures !DotAt(s, j) {
      assert s[..j] == key[..j];
      assert !DotAt(key, j);
    }
  }

  lemma {:induction false} SegmentsAreSeparable(path: string)
    ensures Separable(Segments(path)) && Join(Segments(path), ".") == path
    decreases |path|
  {
    match FirstDot(path, 0)
    case None =>
    case Some(i) =>
      var rest := path[i + 1..];
      NoDotUpTo(path, i);
      SegmentsAreSeparable(rest);
      assert Segments(path)[1..] == Segments(rest);
      assert path[i..i + 1] == ".";
      CutApart(path, i, i + 1);
  }

  lemma {:induction false} SeparableKeysAreSegments(keys: seq<string>)
    requires Separable(keys)
    ensures Segments(Join(keys, ".")) == keys
    decreases |keys|
  {
    var path := Join(keys, ".");
    if |keys| > 1 {
      var rest := Join(keys[1..], ".");
      FirstDotAtSeam(keys[0], rest);
      assert path[..|keys[0]|] == keys[0] && path[|keys[0]| + 1..] == rest;
      SeparableKeysAreSegments(keys[1..]);
    }
  }

  /** The segments of a path are the one way to write it as keys joined by dots. */
  lemma SegmentsAreUnique(path: string, keys: seq<string>)
    ensures keys == Segments(path) <==> Separable(keys) && Join(keys, ".") == path
  {
    SegmentsAreSeparable(path);
    if Separable(keys) && Join(keys, ".") == path {
      SeparableKeysAreSegments(keys);
    }
  }

  /** The scan has cut off `keys` and is at position `i` of the key that starts at `start`. */
  ghost predicate Scanned(path: string, i: int, keys: seq<string>, start: int, depth: int) {
    && 0 <= start <= i <= |path|
    && depth == Depth(path[start..i])
    && NoDotBefore(path[start..], i - start)
    && keys + Segments(path[start..]) == Segments(path)
  }

  lemma ScanStarts(path: string)
    ensures Scanned(path, 0, [], 0, 0)
  {
    assert path[0..] == path;
  }

  lemma ScanContinues(path: string, i: nat, keys: seq<string>, start: nat, depth: int)
    requires i < |path| && Scanned(path, i, keys, start, depth) && (path[i] != '.' || depth != 0)
    ensures Scanned(path, i + 1, keys, start, depth + if path[i] == '[' then 1 else if path[i] == ']' then -1 else 0)
  {
    assert path[start..i + 1][..i - start] == path[start..i];
    assert path[start..][..i - start] == path[start..i];
  }

  lemma ScanCuts(path: string, i: nat, keys: seq<string>, start: nat)
    requires i < |path| && Scanned(path, i, keys, start, 0) && path[i] == '.'
    ensures Scanned(path, i + 1, keys + [path[start..i]], i + 1, 0)
  {
    var rest := path[start..];
    assert rest[..i - start] == path[start..i];
    assert DotAt(rest, i - start);
    assert FirstDot(rest, 0) == Some(i - start);
    assert rest[i - start + 1..] == path[i + 1..];
    Associative(keys, [path[start..i]], Segments(path[i + 1..]));
  }

  lemma ScanEnds(path: string, keys: seq<string>, start: nat, depth: int)
    requires Scanned(path, |path|, keys, start, depth)
    ensures start <= |path| && keys + [path[start..]] == Segments(path)
  {
  }

  /** The scan at the start of walk. */
  method Keys(path: string) returns (keys: seq<string>)
    ensures keys == Segments(path)
  {
    hide *;
    keys := [];
    var startOfCurrentKey, bracketDepth := 0, 0;
    ScanStarts(path);
    for i := 0 to |path|
      invariant 0 <= startOfCurrentKey <= i
      invariant Scanned(path, i, keys, startOfCurrentKey, bracketDepth)
    {
      if path[i] != '.' || bracketDepth != 0 {
        ScanContinues(path, i, keys, startOfCurrentKey, bracketDepth);
      } else {
        ScanCuts(path, i, keys, startOfCurrentKey);
      }
      if path[i] == '[' {
        bracketDepth := bracketDepth + 1;
      } else if path[i] == ']' {
        bracketDepth := bracketDepth - 1;
      }
      if path[i] == '.' && bracketDepth == 0 {
        keys := keys + [path[startOfCurrentKey..i]];
        startOfCurrentKey := i + 1;
      }
    }
    ScanEnds(path, keys, startOfCurrentKey, bracketDepth);
    keys := keys + [path[startOfCurrentKey..]];
  }

  // -------------------------------------------------------------- one key

  /** The first index of a key: the name before it, its text, and whatever follows. */
  datatype Bracket = Bracket(name: string, index: string, rest: string)

  /** strings.HasSuffix(key, "]") && strings.Contains(key, "[") */
  predicate EndsInIndex(key: string) {
    |key| > 0 && key[|key| - 1] == ']' && '[' in key
  }

  /** From the first `[` to the next `]`, if no other `[` comes between. */
  function FirstBracket(key: string): (r: Option<Bracket>)
    ensures r.Some? ==> key == r.value.name + "[" + r.value.index + "]" + r.value.rest
  {
    match Index(key, "[")
    case None => None
    case Some(open) =>
      var inside := key[open + 1..];
      match Index(inside, "]")
      case None => None
      case Some(close) =>
        if '[' in inside[..close] then None else Some(Bracket(key[..open], inside[..close], inside[close + 1..]))
  }

  /** The array that an index is applied to, empty if the document has none there. */
  datatype Container = Items(items: seq<Json>) | NoContainer | BadContainer

  function ItemsOf(v: Json): seq<Json> {
    if v.JArray? then v.items else []
  }

  function ContainerOf(name: string, v: Json): Container {
    if name == "" then Items(ItemsOf(v))
    else if v.JNull? then NoContainer
    else if !v.JObject? then BadContainer
    else if name !in v.fields || v.fields[name].JNull? then NoContainer
    else Items(ItemsOf(v.fields[name]))
  }

  function Extract(key: string, v: Json): Extracted
    decreases |key|
  {
    if EndsInIndex(key) then
      match FirstBracket(key)
      case None => Value(JNull)
      case Some(b) =>
        match Atoi(b.index)
        case None => Value(JNull)
        case Some(i) =>
          match ContainerOf(b.name, v)
          case BadContainer => Panics
          case NoContainer => Value(JNull)
          case Items(items) =>
            if i >= |items| then Value(JNull)
            else if i < 0 then Panics
            else if b.rest != "" && b.rest[0] == '[' then Extract(b.rest, items[i])
            else Value(items[i])
    else if v.JObject? then Value(if key in v.fields then v.fields[key] else JNull)
    else Value(v)
  }

  lemma SecondBracket(key: string, open: nat, second: nat)
    requires open < second < |key| && key[open] == '[' && key[second] == '['
    requires '[' !in key[..open] && ']' !in key[open + 1..second]
    ensures FirstBracket(key) == None
  {
    var inside := key[open + 1..];
    forall j | 0 <= j < open ensures key[j] != '[' {
      assert key[..open][j] == key[j];
    }
    IndexOfChar(key, '[', open);
    forall j | 0 <= j < second - open - 1 ensures inside[j] != ']' {
      assert key[open + 1..second][j] == inside[j];
    }
    match Index(inside, "]")
    case None =>
    case Some(close) =>
      assert inside[close..close + 1][0] == ']';
      var at := second - open - 1;
      assert inside[at] == '[' && at < close;
      assert inside[..close][at] == '[';
  }

  lemma FirstBracketIs(key: string, open: nat, close: nat)
    requires open < close < |key| && key[open] == '[' && key[close] == ']'
    requires '[' !in key[..open] && '[' !in key[open + 1..close] && ']' !in key[open + 1..close]
    ensures FirstBracket(key) == Some(Bracket(key[..open], key[open + 1..close], key[close + 1..]))
  {
    var inside := key[open + 1..];
    forall j | 0 <= j < open ensures key[j] != '[' {
      assert key[..open][j] == key[j];
    }
    IndexOfChar(key, '[', open);
    forall j | 0 <= j < close - open - 1 ensures inside[j] != ']' {
      assert key[open + 1..close][j] == inside[j];
    }
    IndexOfChar(inside, ']', close - open - 1);
    hide Index;
    assert inside[..close - open - 1] == key[open + 1..close];
    assert inside[close - open..] == key[close + 1..];
  }

  lemma LastIsIn(s: string, from: nat)
    requires from < |s|
    ensures s[|s| - 1] in s[from..|s|]
  {
    assert s[from..|s|][|s| - 1 - from] == s[|s| - 1];
  }

  /** The scan at the start of extractValue: the last `[` seen when the first `]` arrives after exactly one of them. */
  method ScanBracket(key: string) returns (startOfBracket: nat, endOfBracket: nat, index: string, nested: bool)
    requires EndsInIndex(key)
    ensures FirstBracket(key) == None ==> index == ""
    ensures FirstBracket(key).Some? ==>
              var b := FirstBracket(key).value;
              && startOfBracket == |b.name| && endOfBracket == |b.name| + 1 + |b.index| && index == b.index
              && (nested <==> b.rest != "" && b.rest[0] == '[')
              && endOfBracket < |key| && key[..startOfBracket] == b.name && key[endOfBracket + 1..] == b.rest
  {
    hide FirstBracket;
    startOfBracket, endOfBracket, index, nested := 0, 0, "", false;
    var bracketDepth := 0;
    for i := 0 to |key|
      invariant bracketDepth >= 0 && index == "" && !nested && startOfBracket <= i
      invariant bracketDepth == 0 ==> '[' !in key[..i]
      invariant bracketDepth >= 1 ==> startOfBracket < i && key[startOfBracket] == '['
      invariant bracketDepth == 1 ==> '[' !in key[..startOfBracket]
      invariant bracketDepth == 1 ==> '[' !in key[startOfBracket + 1..i] && ']' !in key[startOfBracket + 1..i]
      invariant bracketDepth >= 2 ==> FirstBracket(key) == None
    {
      ghost var before := key[..i];
      assert key[..i + 1] == before + [key[i]];
      if key[i] == '[' {
        if bracketDepth == 1 {
          SecondBracket(key, startOfBracket, i);
        }
        startOfBracket := i;
        bracketDepth := bracketDepth + 1;
      } else if key[i] == ']' && bracketDepth == 1 {
        FirstBracketIs(key, startOfBracket, i);
        endOfBracket := i;
        index := key[startOfBracket + 1..i];
        nested := |key| > i + 1 && key[i + 1] == '[';
        return;
      } else if bracketDepth == 1 {
        assert key[startOfBracket + 1..i + 1] == key[startOfBracket + 1..i] + [key[i]];
      }
    }
    assert key[..|key|] == key;
    if startOfBracket + 1 < |key| {
      LastIsIn(key, startOfBracket + 1);
    }
  }

  /** What a readable index at the end of a key gives. */
  lemma ExtractIndexed(key: string, b: Bracket, i: Int, v: Json)
    requires EndsInIndex(key) && FirstBracket(key) == Some(b) && Atoi(b.index) == Some(i)
    ensures match ContainerOf(b.name, v)
            case BadContainer => Extract(key, v) == Panics
            case NoContainer => Extract(key, v) == Value(JNull)
            case Items(items) =>
              Extract(key, v) == if i >= |items| then Value(JNull)
                                 else if i < 0 then Panics
                                 else if b.rest != "" && b.rest[0] == '[' then Extract(b.rest, items[i])
                                 else Value(items[i])
  {
    hide FirstBracket;
    hide Atoi;
  }

  lemma ExtractUnreadable(key: string, v: Json)
    requires EndsInIndex(key) && (FirstBracket(key).Some? ==> Atoi(FirstBracket(key).value.index) == None)
    ensures Extract(key, v) == Value(JNull)
  {
    hide FirstBracket;
    hide Atoi;
  }

  lemma ExtractUnindexed(key: string, v: Json)
    requires !EndsInIndex(key)
    ensures Extract(key, v) == Value(if v.JObject? then if key in v.fields then v.fields[key] else JNull else v)
  {
    hide FirstBracket;
    hide Atoi;
  }

  /** A key that does not end in `]`, or has no `[`, is the name of a field; what is no object stands for itself. */
  lemma PlainKey(key: string, v: Json)
    requires key == "" || key[|key| - 1] != ']' || '[' !in key
    ensures v.JObject? ==> Extract(key, v) == Value(if key in v.fields then v.fields[key] else JNull)
    ensures !v.JObject? ==> Extract(key, v) == Value(v)
  {
    ExtractUnindexed(key, v);
  }

  method ExtractValue(currentKey: string, value: Json) returns (r: Extracted)
    ensures r == Extract(currentKey, value)
    decreases |currentKey|
  {
    assert Atoi("") == None;
    hide Extract, EndsInIndex, FirstBracket, ItemsOf, Atoi;
    if EndsInIndex(currentKey) {
      var startOfBracket, endOfBracket, index, isNestedArray := ScanBracket(currentKey);
      var arrayIndex := Atoi(index);
      if arrayIndex == None {
        ExtractUnreadable(currentKey, value);
        return Value(JNull);
      }
      ExtractIndexed(currentKey, FirstBracket(currentKey).value, arrayIndex.value, value);
      var currentKeyWithoutIndex := currentKey[..startOfBracket];
      var items: seq<Json>;
      if |currentKeyWithoutIndex| == 0 {
        items := ItemsOf(value);
      } else {
        if value.JNull? {
          return Value(JNull);
        }
        if !value.JObject? {
          return Panics;
        }
        if currentKeyWithoutIndex !in value.fields || value.fields[currentKeyWithoutIndex].JNull? {
          return Value(JNull);
        }
        items := ItemsOf(value.fields[currentKeyWithoutIndex]);
      }
      if |items| > arrayIndex.value {
        if arrayIndex.value < 0 {
          return Panics;
        }
        if isNestedArray {
          r := ExtractValue(currentKey[endOfBracket + 1..], items[arrayIndex.value]);
          return;
        }
        return Value(items[arrayIndex.value]);
      }
      return Value(JNull);
    }
    ExtractUnindexed(currentKey, value);
    if value.JArray? {
      return Value(value);
    }
    if value.JObject? {
      return Value(if currentKey in value.fields then value.fields[currentKey] else JNull);
    }
    return Value(value);
  }

  // ------------------------------------------------------------- the walk

  /** Where a walk stands between two keys. */
  datatype Position = At(node: Json) | Leaf(leaf: Json, key: string) | Stopped(walked: Walked)

  /** One key of the walk. Objects are entered; a string tolerates no further key, any other leaf ignores them. */
  function Step(p: Position, key: string): Position {
    match p
    case Stopped(_) => p
    case Leaf(leaf, last) => if leaf.JString? then Stopped(Failed(StringInsteadOfObject(key, last))) else p
    case At(node) =>
      match Extract(key, node)
      case Panics => Stopped(Crashed)
      case Value(JNull) => Stopped(Failed(NotAnObject(key)))
      case Value(JObject(fields)) => At(JObject(fields))
      case Value(leaf) => Leaf(leaf, key)
  }

  /** The left fold of Step. */
  function Fold(p: Position, keys: seq<string>): Position {
    if keys == [] then p else Step(Fold(p, keys[..|keys| - 1]), keys[|keys| - 1])
  }

  function Finish(p: Position): Walked {
    match p
    case At(node) => Selected(node)
    case Leaf(leaf, _) => Selected(leaf)
    case Stopped(walked) => walked
  }

  lemma {:induction false} FoldFront(p: Position, keys: seq<string>)
    requires |keys| > 0
    ensures Fold(p, keys) == Fold(Step(p, keys[0]), keys[1..])
    decreases |keys|
  {
    if |keys| == 1 {
      assert keys[..0] == [];
      assert Fold(p, keys[..0]) == p;
    } else {
      hide Step;
      var front := keys[..|keys| - 1];
      FoldFront(p, front);
      assert keys[1..][..|keys| - 2] == front[1..];
    }
  }

  /** Once stopped, or at a leaf that is not a string, the remaining keys change nothing. */
  lemma {:induction false} FoldAbsorbs(p: Position, keys: seq<string>)
    requires p.Stopped? || (p.Leaf? && !p.leaf.JString?)
    ensures Fold(p, keys) == p
    decreases |keys|
  {
    if keys != [] {
      FoldAbsorbs(p, keys[..|keys| - 1]);
    }
  }

  /** Removing the first "key." always removes the prefix, which leaves the remaining segments; it finds nothing exactly
      when no segment remains. */
  lemma RemovingTheKeyIsDroppingASegment(path: string)
    ensures var keys := Segments(path);
            var newPath := RemoveFirst(path, keys[0] + ".");
            && (newPath == path <==> |keys| == 1)
            && (|keys| > 1 ==> |newPath| < |path| && path == keys[0] + "." + newPath && Segments(newPath) == keys[1..])
  {
    var keys := Segments(path);
    var prefix := keys[0] + ".";
    match FirstDot(path, 0)
    case None =>
      assert Index(path, prefix) == None;
    case Some(i) =>
      assert path[..i + 1] == prefix;
      assert MatchAt(path, prefix, 0);
      IndexIsLeftmost(path, prefix, 0);
      assert RemoveFirst(path, prefix) == path[i + 1..];
      assert path == prefix + path[i + 1..];
      assert keys[1..] == Segments(path[i + 1..]);
  }

  /** The walk, which cuts its path anew at every object, is one left fold over the segments of the whole path. */
  method Walk(path: string, node: Json) returns (r: Walked)
    ensures r == Finish(Fold(At(node), Segments(path)))
    decreases |path|
  {
    hide Segments, Extract, RemoveFirst;
    var keys := Keys(path);
    var currentKey := keys[0];
    FoldFront(At(node), keys);
    RemovingTheKeyIsDroppingASegment(path);
    assert |keys| == 1 ==> Fold(Step(At(node), currentKey), keys[1..]) == Step(At(node), currentKey);
    hide Fold;
    var extracted := ExtractValue(currentKey, node);
    match extracted {
      case Panics =>
        FoldAbsorbs(Step(At(node), currentKey), keys[1..]);
        return Crashed;
      case Value(value) =>
        if value.JObject? {
          var newPath := RemoveFirst(path, currentKey + ".");
          if path == newPath {
            return Selected(value);
          }
          r := Walk(newPath, value);
        } else if value.JString? {
          if |keys| > 1 {
            FoldFront(Leaf(value, currentKey), keys[1..]);
            FoldAbsorbs(Step(Leaf(value, currentKey), keys[1]), keys[2..]);
            assert keys[1..][1..] == keys[2..];
            return Failed(StringInsteadOfObject(keys[1], currentKey));
          }
          return Selected(value);
        } else if !value.JNull? {
          FoldAbsorbs(Step(At(node), currentKey), keys[1..]);
          return Selected(value);
        } else {
          FoldAbsorbs(Step(At(node), currentKey), keys[1..]);
          return Failed(NotAnObject(currentKey));
        }
    }
  }

  // --------------------------------------------------- what a path selects

  /** [i][j]... */
  function Brackets(indices: seq<nat>): string {
    if indices == [] then "" else "[" + Itoa(indices[0]) + "]" + Brackets(indices[1..])
  }

  predicate Representable(indices: seq<nat>) {
    forall i :: 0 <= i < |indices| ==> indices[i] <= MAX_INT
  }

  /** Nested indexing: nothing where there is no array or the index is out of range. */
  function IndexAll(v: Json, indices: seq<nat>): Json {
    if indices == [] then v
    else if v.JArray? && indices[0] < |v.items| then IndexAll(v.items[indices[0]], indices[1..])
    else JNull
  }

  lemma IndexAllNull(indices: seq<nat>)
    ensures IndexAll(JNull, indices) == JNull
  {
  }

  lemma {:induction false} BracketsEnd(indices: seq<nat>)
    requires indices != []
    ensures var s := Brackets(indices); |s| > 0 && s[0] == '[' && s[|s| - 1] == ']'
    decreases |indices|
  {
    if |indices| > 1 {
      BracketsEnd(indices[1..]);
    } else {
      assert indices[1..] == [];
    }
  }

  /** A number in brackets is the first bracket of a key whose name has none. */
  lemma FirstBracketOfIndex(name: string, n: nat, rest: string)
    requires '[' !in name
    ensures FirstBracket(name + "[" + Itoa(n) + "]" + rest) == Some(Bracket(name, Itoa(n), rest))
  {
    var key := name + "[" + Itoa(n) + "]" + rest;
    var open, close := |name|, |name| + 1 + |Itoa(n)|;
    assert key[..open] == name && key[open + 1..close] == Itoa(n) && key[close + 1..] == rest;
    FirstBracketIs(key, open, close);
  }

  lemma NameThenBrackets(name: string, brackets: string)
    requires |brackets| > 0 && brackets[0] == '[' && brackets[|brackets| - 1] == ']'
    ensures EndsInIndex(name + brackets)
  {
    var key := name + brackets;
    assert key[|name|] == '[';
    assert key[|key| - 1] == ']';
  }

  lemma Concatenation(a: string, b: string, c: string, d: string, e: string)
    ensures a + (b + c + d + e) == a + b + c + d + e
  {
  }

  lemma KeyOfIndices(name: string, indices: seq<nat>)
    requires indices != []
    ensures var key := name + Brackets(indices);
            EndsInIndex(key) && key == name + "[" + Itoa(indices[0]) + "]" + Brackets(indices[1..])
  {
    BracketsEnd(indices);
    NameThenBrackets(name, Brackets(indices));
    hide Itoa;
    var number, rest := Itoa(indices[0]), Brackets(indices[1..]);
    Concatenation(name, "[", number, "]", rest);
  }

  lemma ExtractFirstIndex(name: string, indices: seq<nat>, v: Json)
    requires '[' !in name && indices != [] && Representable(indices)
    ensures var key, n := name + Brackets(indices), indices[0];
            match ContainerOf(name, v)
            case BadContainer => Extract(key, v) == Panics
            case NoContainer => Extract(key, v) == Value(JNull)
            case Items(items) =>
              Extract(key, v) == if n >= |items| then Value(JNull)
                                 else if indices[1..] != [] then Extract(Brackets(indices[1..]), items[n])
                                 else Value(items[n])
  {
    var n, rest := indices[0], Brackets(indices[1..]);
    AtoiOfItoa(n);
    if indices[1..] != [] {
      BracketsEnd(indices[1..]);
    }
    hide Extract;
    hide FirstBracket;
    hide Atoi;
    hide Itoa;
    KeyOfIndices(name, indices);
    FirstBracketOfIndex(name, n, rest);
    ExtractIndexed(name + Brackets(indices), Bracket(name, Itoa(n), rest), n, v);
  }

  /** name[i][j]... is nested indexing into the field of that name, or into the node itself when there is no name;
      a name that is applied to something else than an object crashes. */
  lemma {:induction false} IndexedKey(name: string, indices: seq<nat>, v: Json)
    requires '[' !in name && indices != [] && Representable(indices)
    ensures var key := name + Brackets(indices);
            && (name == "" ==> Extract(key, v) == Value(IndexAll(v, indices)))
            && (name != "" && v.JObject? ==>
                  Extract(key, v) == Value(IndexAll(if name in v.fields then v.fields[name] else JNull, indices)))
            && (name != "" && v.JNull? ==> Extract(key, v) == Value(JNull))
            && (name != "" && !v.JObject? && !v.JNull? ==> Extract(key, v) == Panics)
    decreases |indices|
  {
    hide Extract, Brackets, Itoa;
    ExtractFirstIndex(name, indices, v);
    var n, rest, container := indices[0], indices[1..], ContainerOf(name, v);
    if container.Items? && n < |container.items| && rest != [] {
      IndexedKey("", rest, container.items[n]);
      assert "" + Brackets(rest) == Brackets(rest);
    }
  }

  /** A name and the indices applied to it. */
  datatype Selector = Selector(name: string, indices: seq<nat>) {
    predicate Valid() {
      name != "" && '.' !in name && '[' !in name && ']' !in name && Representable(indices)
    }

    function Key(): string {
      name + Brackets(indices)
    }

    function Apply(v: Json): Json {
      if v.JObject? && name in v.fields then IndexAll(v.fields[name], indices) else JNull
    }
  }

  function KeysOf(selectors: seq<Selector>): (keys: seq<string>)
    ensures |keys| == |selectors|
  {
    if selectors == [] then [] else KeysOf(selectors[..|selectors| - 1]) + [selectors[|selectors| - 1].Key()]
  }

  function Follow(v: Json, selectors: seq<Selector>): Json {
    if selectors == [] then v
    else selectors[|selectors| - 1].Apply(Follow(v, selectors[..|selectors| - 1]))
  }

  lemma ExtractApplies(s: Selector, v: Json)
    requires s.Valid() && v.JObject?
    ensures Extract(s.Key(), v) == Value(s.Apply(v))
  {
    if s.indices == [] {
      assert s.Key() == s.name;
    } else {
      IndexedKey(s.name, s.indices, v);
      IndexAllNull(s.indices);
    }
  }

  /** The walk stands at an object, at a leaf, or has found nothing. */
  function Reached(node: Json, key: string): Position {
    if node.JObject? then At(node) else if node.JNull? then Stopped(Failed(NotAnObject(key))) else Leaf(node, key)
  }

  lemma StepReaches(s: Selector, node: Json)
    requires s.Valid() && node.JObject?
    ensures Step(At(node), s.Key()) == Reached(s.Apply(node), s.Key())
  {
    ExtractApplies(s, node);
    hide Extract;
    hide Selector.Apply;
  }

  /** Every selector but the last is applied to an object and gives one. */
  predicate ThroughObjects(v: Json, selectors: seq<Selector>) {
    forall k :: 0 <= k < |selectors| ==> Follow(v, selectors[..k]).JObject?
  }

  lemma FrontThroughObjects(v: Json, selectors: seq<Selector>)
    requires selectors != [] && ThroughObjects(v, selectors)
    ensures var front := selectors[..|selectors| - 1]; ThroughObjects(v, front) && Follow(v, front).JObject?
  {
    hide Follow;
    var front := selectors[..|selectors| - 1];
    forall k | 0 <= k < |front| ensures Follow(v, front[..k]).JObject? {
      assert front[..k] == selectors[..k];
    }
  }

  lemma {:induction false} FoldFollows(selectors: seq<Selector>, v: Json)
    requires selectors != [] && ThroughObjects(v, selectors)
    requires forall i :: 0 <= i < |selectors| ==> selectors[i].Valid()
    ensures Fold(At(v), KeysOf(selectors)) == Reached(Follow(v, selectors), selectors[|selectors| - 1].Key())
    decreases |selectors|
  {
    hide Step, ThroughObjects, Selector.Valid, Selector.Apply, Selector.Key;
    var front, last := selectors[..|selectors| - 1], selectors[|selectors| - 1];
    FrontThroughObjects(v, selectors);
    StepReaches(last, Follow(v, front));
    assert KeysOf(selectors)[..|selectors| - 1] == KeysOf(front);
    if front != [] {
      FoldFollows(front, v);
    }
  }

  // ------------------------------------------- from the text of the path

  lemma {:induction false} DepthAdds(a: string, b: string)
    ensures Depth(a + b) == Depth(a) + Depth(b)
    decreases |b|
  {
    if b == "" {
      assert a + b == a;
    } else {
      var front := b[..|b| - 1];
      assert (a + b)[..|a + b| - 1] == a + front;
      DepthAdds(a, front);
    }
  }

  lemma {:induction false} DepthWithoutBrackets(s: string)
    requires '[' !in s && ']' !in s
    ensures Depth(s) == 0
    decreases |s|
  {
    if s != "" {
      DepthWithoutBrackets(s[..|s| - 1]);
    }
  }

  lemma {:induction false} BracketsAreBalanced(indices: seq<nat>)
    ensures Depth(Brackets(indices)) == 0 && '.' !in Brackets(indices)
    decreases |indices|
  {
    if indices != [] {
      var number, rest := Itoa(indices[0]), Brackets(indices[1..]);
      BracketsAreBalanced(indices[1..]);
      assert '.' !in number && '[' !in number && ']' !in number;
      DepthWithoutBrackets(number);
      hide Itoa;
      DepthAdds("[", number);
      DepthAdds("[" + number, "]");
      DepthAdds("[" + number + "]", rest);
      assert Depth("[") == 1 && Depth("]") == -1;
    }
  }

  lemma KeyIsSeparable(s: Selector)
    requires s.Valid()
    ensures NoDot(s.Key()) && Depth(s.Key()) == 0
  {
    BracketsAreBalanced(s.indices);
    DepthWithoutBrackets(s.name);
    hide Brackets;
    DepthAdds(s.name, Brackets(s.indices));
    assert forall i :: 0 <= i < |s.Key()| ==> s.Key()[i] in s.Key();
  }

  lemma {:induction false} KeyAt(selectors: seq<Selector>, i: nat)
    requires i < |selectors|
    ensures KeysOf(selectors)[i] == selectors[i].Key()
    decreases |selectors|
  {
    hide Selector.Key;
    if i < |selectors| - 1 {
      KeyAt(selectors[..|selectors| - 1], i);
    }
  }

  lemma KeysAreSeparable(selectors: seq<Selector>)
    requires selectors != [] && forall i :: 0 <= i < |selectors| ==> selectors[i].Valid()
    ensures Separable(KeysOf(selectors))
  {
    var keys := KeysOf(selectors);
    hide KeysOf, NoDot, Depth, Selector.Key, Selector.Valid;
    forall i | 0 <= i < |keys| ensures NoDot(keys[i]) && Depth(keys[i]) == 0 {
      KeyAt(selectors, i);
      KeyIsSeparable(selectors[i]);
    }
  }

  /** A path written as names and indices selects the node they denote, as far as they lead through objects;
      nothing there is an error. */
  lemma PathSelectsNode(selectors: seq<Selector>, v: Json)
    requires selectors != [] && ThroughObjects(v, selectors)
    requires forall i :: 0 <= i < |selectors| ==> selectors[i].Valid()
    ensures Finish(Fold(At(v), Segments(Join(KeysOf(selectors), "."))))
         == if Follow(v, selectors).JNull? then Failed(NotAnObject(selectors[|selectors| - 1].Key()))
            else Selected(Follow(v, selectors))
  {
    KeysAreSeparable(selectors);
    SeparableKeysAreSegments(KeysOf(selectors));
    FoldFollows(selectors, v);
  }

  // ------------------------------------------- paths that go on after a leaf

  lemma {:induction false} FoldInTwo(p: Position, keys: seq<string>, k: nat)
    requires k <= |keys|
    ensures Fold(p, keys) == Fold(Fold(p, keys[..k]), keys[k..])
    decreases |keys|
  {
    hide Step;
    if k == |keys| {
      assert keys[..k] == keys && keys[k..] == [];
    } else {
      var front := keys[..|keys| - 1];
      FoldInTwo(p, front, k);
      assert front[..k] == keys[..k];
      assert keys[k..][..|keys| - k - 1] == front[k..];
    }
  }

  lemma {:induction false} FirstKeys(selectors: seq<Selector>, k: nat)
    requires k <= |selectors|
    ensures KeysOf(selectors)[..k] == KeysOf(selectors[..k])
    decreases |selectors|
  {
    hide Selector.Key;
    if k == |selectors| {
      assert selectors[..k] == selectors;
    } else {
      var front := selectors[..|selectors| - 1];
      FirstKeys(front, k);
      assert front[..k] == selectors[..k];
    }
  }

  /** What is left of a walk that has met something else than an object under the key `last`. */
  lemma KeysAfterLeaf(node: Json, last: string, keys: seq<string>)
    requires !node.JObject?
    ensures Finish(Fold(Reached(node, last), keys))
         == if node.JNull? then Failed(NotAnObject(last))
            else if node.JString? && keys != [] then Failed(StringInsteadOfObject(keys[0], last)) else Selected(node)
  {
    if !node.JString? {
      FoldAbsorbs(Reached(node, last), keys);
    } else if keys != [] {
      FoldFront(Leaf(node, last), keys);
      FoldAbsorbs(Step(Leaf(node, last), keys[0]), keys[1..]);
    }
  }

  /** A path whose first k keys lead through objects to something else: nothing there is an error that names the k-th
      key, a string is an error that names the next key and the k-th if there is a next, and any other leaf is selected
      whatever keys follow. */
  lemma PathMeetsLeaf(selectors: seq<Selector>, v: Json, k: nat)
    requires 0 < k <= |selectors| && forall i :: 0 <= i < |selectors| ==> selectors[i].Valid()
    requires ThroughObjects(v, selectors[..k]) && !Follow(v, selectors[..k]).JObject?
    ensures var leaf, r := Follow(v, selectors[..k]), Finish(Fold(At(v), Segments(Join(KeysOf(selectors), "."))));
            && (leaf.JNull? ==> r == Failed(NotAnObject(selectors[k - 1].Key())))
            && (leaf.JString? && k < |selectors| ==>
                  r == Failed(StringInsteadOfObject(selectors[k].Key(), selectors[k - 1].Key())))
            && (leaf.JString? && k == |selectors| ==> r == Selected(leaf))
            && (leaf.JArray? || leaf.JNumber? || leaf.JBool? ==> r == Selected(leaf))
  {
    var keys, leaf, last := KeysOf(selectors), Follow(v, selectors[..k]), selectors[k - 1].Key();
    KeysAreSeparable(selectors);
    SeparableKeysAreSegments(keys);
    FirstKeys(selectors, k);
    FoldFollows(selectors[..k], v);
    FoldInTwo(At(v), keys, k);
    if k < |selectors| {
      KeyAt(selectors, k);
    }
    hide *;
    KeysAfterLeaf(leaf, last, keys[k..]);
  }

  lemma FirstKeyOnLeaf(s: Selector, v: Json)
    requires s.Valid() && !v.JObject?
    ensures Extract(s.Key(), v) == if v.JNull? then Value(JNull) else if s.indices != [] then Panics else Value(v)
  {
    if s.indices == [] {
      assert s.Key() == s.name;
      assert !EndsInIndex(s.name);
      ExtractUnindexed(s.name, v);
    } else {
      IndexedKey(s.name, s.indices, v);
    }
  }

  lemma KeysOnLeaf(keys: seq<string>, v: Json)
    requires keys != [] && !v.JObject? && Extract(keys[0], v) in {Value(v), Panics}
    ensures Finish(Fold(At(v), keys))
         == if Extract(keys[0], v) == Panics then Crashed
            else if v.JNull? then Failed(NotAnObject(keys[0]))
            else if v.JString? && |keys| > 1 then Failed(StringInsteadOfObject(keys[1], keys[0])) else Selected(v)
  {
    FoldFront(At(v), keys);
    hide Extract, Fold;
    if Extract(keys[0], v) == Panics {
      FoldAbsorbs(Stopped(Crashed), keys[1..]);
    } else {
      KeysAfterLeaf(v, keys[0], keys[1..]);
    }
  }

  /** A path that is applied to something else than an object: a first name without indices selects the thing itself,
      with indices it crashes. */
  lemma PathStartsAtLeaf(selectors: seq<Selector>, v: Json)
    requires selectors != [] && forall i :: 0 <= i < |selectors| ==> selectors[i].Valid()
    requires !v.JObject?
    ensures var r, first := Finish(Fold(At(v), Segments(Join(KeysOf(selectors), ".")))), selectors[0];
            && (v.JNull? ==> r == Failed(NotAnObject(first.Key())))
            && (!v.JNull? && first.indices != [] ==> r == Crashed)
            && (!v.JNull? && first.indices == [] ==>
                  r == if v.JString? && |selectors| > 1
                       then Failed(StringInsteadOfObject(selectors[1].Key(), first.Key())) else Selected(v))
  {
    KeysAreSeparable(selectors);
    SeparableKeysAreSegments(KeysOf(selectors));
    KeyAt(selectors, 0);
    if |selectors| > 1 {
      KeyAt(selectors, 1);
    }
    FirstKeyOnLeaf(selectors[0], v);
    hide *;
    KeysOnLeaf(KeysOf(selectors), v);
  }

  // ---------------------------------------------------------------- crashes

  /** The readable indices of a key, bracket after bracket, up to the first that cannot be read. */
  function Chain(key: string): seq<Int>
    decreases |key|
  {
    if !EndsInIndex(key) then []
    else
      match FirstBracket(key)
      case None => []
      case Some(b) =>
        match Atoi(b.index)
        case None => []
        case Some(i) => [i] + if b.rest != "" && b.rest[0] == '[' then Chain(b.rest) else []
  }

  function NameOf(key: string): string {
    match FirstBracket(key)
    case None => ""
    case Some(b) => b.name
  }

  predicate InRange(items: seq<Json>, indices: seq<Int>)
    decreases |indices|
  {
    indices == [] ||
    (0 <= indices[0] < |items| && InRange(ItemsOf(items[indices[0]]), indices[1..]))
  }

  /** One of the indices is negative, and those before it lead to where it is applied. */
  predicate NegativeReached(items: seq<Json>, indices: seq<Int>) {
    exists n :: 0 <= n < |indices| && indices[n] < 0 && InRange(items, indices[..n])
  }

  /** A readable index is applied to what is neither an object nor null, or a negative one is reached. */
  predicate Crashes(key: string, v: Json) {
    Chain(key) != [] &&
    match ContainerOf(NameOf(key), v)
    case BadContainer => true
    case NoContainer => false
    case Items(items) => NegativeReached(items, Chain(key))
  }

  lemma NegativeReachedStep(items: seq<Json>, i: Int, rest: seq<Int>)
    ensures NegativeReached(items, [i] + rest)
       <==> i < 0 || (i < |items| && NegativeReached(ItemsOf(items[i]), rest))
  {
    var indices := [i] + rest;
    assert indices[1..] == rest;
    if i < 0 {
      assert indices[..0] == [];
      assert indices[0] < 0 && InRange(items, indices[..0]);
    } else if i < |items| {
      forall n | 0 <= n < |rest| ensures InRange(items, indices[..n + 1]) <==> InRange(ItemsOf(items[i]), rest[..n]) {
        assert indices[..n + 1][1..] == rest[..n];
      }
      if NegativeReached(ItemsOf(items[i]), rest) {
        var n :| 0 <= n < |rest| && rest[n] < 0 && InRange(ItemsOf(items[i]), rest[..n]);
        assert indices[n + 1] < 0 && InRange(items, indices[..n + 1]);
      }
      if NegativeReached(items, indices) {
        var n :| 0 <= n < |indices| && indices[n] < 0 && InRange(items, indices[..n]);
        assert rest[n - 1] < 0 && InRange(ItemsOf(items[i]), rest[..n - 1]);
      }
    }
  }

  lemma NamelessBracket(key: string)
    requires key != "" && key[0] == '['
    ensures NameOf(key) == ""
  {
    IndexOfChar(key, '[', 0);
  }

  lemma NoChainNoCrash(key: string, v: Json)
    requires EndsInIndex(key) ==> FirstBracket(key) == None || Atoi(FirstBracket(key).value.index) == None
    ensures Extract(key, v) != Panics && Chain(key) == []
  {
    if !EndsInIndex(key) {
      ExtractUnindexed(key, v);
    } else {
      ExtractUnreadable(key, v);
    }
    hide Extract, FirstBracket, Atoi, EndsInIndex;
  }

  /** The indices after the first. */
  function Nested(b: Bracket): seq<Int> {
    if b.rest != "" && b.rest[0] == '[' then Chain(b.rest) else []
  }

  lemma ExtractReadable(key: string, v: Json) returns (b: Bracket, i: Int)
    requires EndsInIndex(key) && FirstBracket(key).Some? && Atoi(FirstBracket(key).value.index).Some?
    ensures Chain(key) == [i] + Nested(b) && NameOf(key) == b.name && |b.rest| < |key|
    ensures match ContainerOf(b.name, v)
            case BadContainer => Extract(key, v) == Panics
            case NoContainer => Extract(key, v) == Value(JNull)
            case Items(items) =>
              Extract(key, v) == if i >= |items| then Value(JNull)
                                 else if i < 0 then Panics
                                 else if b.rest != "" && b.rest[0] == '[' then Extract(b.rest, items[i])
                                 else Value(items[i])
  {
    b := FirstBracket(key).value;
    i := Atoi(b.index).value;
    ExtractIndexed(key, b, i, v);
    hide Extract, FirstBracket, Atoi, EndsInIndex;
  }

  lemma NoNegativeReached(items: seq<Json>)
    ensures !NegativeReached(items, [])
  {
  }

  /** Exactly when extracting one key crashes. */
  lemma {:induction false} CrashesExactly(key: string, v: Json)
    ensures Extract(key, v) == Panics <==> Crashes(key, v)
    decreases |key|
  {
    hide Extract, Chain, FirstBracket, Atoi, EndsInIndex, NameOf, NegativeReached;
    if EndsInIndex(key) && FirstBracket(key).Some? && Atoi(FirstBracket(key).value.index).Some? {
      var b, i := ExtractReadable(key, v);
      var container := ContainerOf(b.name, v);
      if container.Items? {
        NegativeReachedStep(container.items, i, Nested(b));
        if 0 <= i < |container.items| {
          if b.rest != "" && b.rest[0] == '[' {
            NamelessBracket(b.rest);
            CrashesExactly(b.rest, container.items[i]);
            NoNegativeReached(ItemsOf(container.items[i]));
          } else {
            NoNegativeReached(ItemsOf(container.items[i]));
          }
        }
      }
    } else {
      NoChainNoCrash(key, v);
    }
  }

  /** A segment crashes at the node that the walk has reached when it gets there. */
  predicate CrashesAt(v: Json, keys: seq<string>, k: nat)
    requires k < |keys|
  {
    var p := Fold(At(v), keys[..k]);
    p.At? && Crashes(keys[k], p.node)
  }

  /** A walk crashes exactly if one of its segments does. */
  lemma {:induction false} WalkCrashesExactly(v: Json, keys: seq<string>)
    ensures Finish(Fold(At(v), keys)) == Crashed <==> exists k :: 0 <= k < |keys| && CrashesAt(v, keys, k)
    decreases |keys|
  {
    hide Extract, Crashes;
    if keys != [] {
      var front, last := keys[..|keys| - 1], keys[|keys| - 1];
      WalkCrashesExactly(v, front);
      forall k | 0 <= k < |front| ensures CrashesAt(v, front, k) == CrashesAt(v, keys, k) {
        assert front[..k] == keys[..k];
      }
      if Fold(At(v), front).At? {
        CrashesExactly(last, Fold(At(v), front).node);
      }
      assert CrashesAt(v, keys, |keys| - 1) <==> Fold(At(v), front).At? && Crashes(last, Fold(At(v), front).node);
    }
  }
}
