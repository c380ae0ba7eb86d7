/** Bounded logs: keeping the newest entries of an ideal log, and reading them page by page. */
module Logs {
  import opened Clock
  import opened Endpoints

  function Last<T>(s: seq<T>, n: nat): (r: seq<T>)
    ensures |r| == if |s| <= n then |s| else n
  {
    if |s| <= n then s else s[|s| - n..]
  }

  predicate IsSuffix<T(==)>(s: seq<T>, t: seq<T>) {
    |s| <= |t| && s == t[|t| - |s|..]
  }

  function AtLeast(max: nat, all: nat): nat {
    if all <= max then all else max
  }

  /** `s` is a suffix of `t` that keeps its newest `max` entries and holds at most `slack` more. */
  ghost predicate Bounded<T>(s: seq<T>, t: seq<T>, max: nat, slack: nat) {
    IsSuffix(s, t) && AtLeast(max, |t|) <= |s| <= max + slack
  }

  lemma SuffixLast<T>(s: seq<T>, t: seq<T>, n: nat)
    requires IsSuffix(s, t)
    ensures IsSuffix(Last(s, n), t)
  {
  }

  /** Trimming to `max` is always allowed, and needed only when the slack is used up. */
  lemma BoundedAfter<T>(s: seq<T>, t: seq<T>, added: seq<T>, trim: bool, max: nat, slack: nat)
    requires Bounded(s, t, max, slack)
    requires |s + added| > max + slack ==> trim
    ensures Bounded(if trim then Last(s + added, max) else s + added, t + added, max, slack)
  {
    var extended := s + added;
    assert IsSuffix(extended, t + added);
    SuffixLast(extended, t + added, max);
  }

  /** The ideal event log: START, the first outcome, then every change of outcome. */
  function IdealEvents(h: seq<Result>, started: Time): seq<Event> {
    if |h| == 0 then []
    else if |h| == 1 then [Event(Start, started), EventOf(h[0])]
    else
      var earlier := IdealEvents(h[..|h| - 1], started);
      if h[|h| - 2].success != h[|h| - 1].success then earlier + [EventOf(h[|h| - 1])] else earlier
  }

  /** One more result extends the ideal log by an event exactly when the outcome changes. */
  lemma IdealEventsAfter(h: seq<Result>, r: Result, started: Time)
    requires |h| > 0
    ensures IdealEvents(h + [r], started)
         == IdealEvents(h, started) + (if h[|h| - 1].success != r.success then [EventOf(r)] else [])
  {
    assert (h + [r])[..|h|] == h;
  }

  lemma {:induction false} IdealNotEmpty(h: seq<Result>, started: Time)
    requires |h| > 0
    ensures |IdealEvents(h, started)| >= 2
  {
    if |h| > 1 {
      IdealNotEmpty(h[..|h| - 1], started);
    }
  }

  // ---------------------------------------------------------------- what events tell

  /** The first result, or one whose outcome differs from the one before. */
  predicate IsChange(h: seq<Result>, i: int) {
    0 <= i < |h| && (i == 0 || h[i - 1].success != h[i].success)
  }

  /** The positions of all changes, in order. */
  function Changes(h: seq<Result>): (changes: seq<int>)
    ensures forall i :: i in changes <==> IsChange(h, i)
    ensures forall j, k :: 0 <= j < k < |changes| ==> changes[j] < changes[k]
  {
    if |h| == 0 then []
    else
      var before := Changes(h[..|h| - 1]);
      assert forall j :: 0 <= j < |before| ==> before[j] in before;
      if IsChange(h, |h| - 1) then before + [|h| - 1] else before
  }

  /** The event of a result. */
  predicate Tells(e: Event, r: Result) {
    && e.timestamp == r.timestamp
    && (r.success ==> e.kind == Healthy)
    && (!r.success ==> e.kind == Unhealthy)
  }

  /** One event for every change. */
  ghost predicate TellsChanges(events: seq<Event>, h: seq<Result>) {
    && |events| == |Changes(h)|
    && forall k :: 0 <= k < |events| ==> Changes(h)[k] in Changes(h) && Tells(events[k], h[Changes(h)[k]])
  }

  /** All results from position i on have one outcome, and it is not that of the result before. */
  predicate StartsLastStretch(h: seq<Result>, i: int) {
    && 0 <= i < |h|
    && (forall j :: i <= j < |h| ==> h[j].success == h[|h| - 1].success)
    && (i > 0 ==> h[i - 1].success != h[i].success)
  }

  /** Only the first can be a START, and neighbours tell of different outcomes. */
  predicate Alternate(events: seq<Event>) {
    && (forall k :: 1 <= k < |events| ==> events[k].kind != Start)
    && forall j, k :: 0 <= j && k == j + 1 < |events| ==> events[j].kind != events[k].kind
  }

  /** The newest event tells how the endpoint is and since when; from one event to the next the outcome changes. */
  ghost predicate TellsOutcome(events: seq<Event>, h: seq<Result>) {
    && |h| > 0 && |events| > 0
    && (events[|events| - 1].kind == Healthy <==> h[|h| - 1].success)
    && (events[|events| - 1].kind == Unhealthy <==> !h[|h| - 1].success)
    && (forall i :: StartsLastStretch(h, i) ==> events[|events| - 1].timestamp == h[i].timestamp)
    && Alternate(events)
  }

  lemma ChangesAfter(h: seq<Result>, r: Result)
    ensures Changes(h + [r])
         == Changes(h) + (if |h| == 0 || h[|h| - 1].success != r.success then [|h|] else [])
  {
    assert (h + [r])[..|h|] == h;
    assert Changes(h) + [] == Changes(h);
  }

  lemma TellsChangesAfter(told: seq<Event>, h: seq<Result>, r: Result)
    requires TellsChanges(told, h)
    ensures if |h| == 0 || h[|h| - 1].success != r.success then TellsChanges(told + [EventOf(r)], h + [r])
            else TellsChanges(told, h + [r])
  {
    ChangesAfter(h, r);
    assert forall i :: i in Changes(h) ==> IsChange(h, i) && (h + [r])[i] == h[i];
    hide Changes;
  }

  lemma NothingTold()
    ensures TellsChanges([], [])
  {
  }

  /** The ideal log is START and one event for every change. */
  lemma {:induction false} IdealEventsTellChanges(h: seq<Result>, started: Time) returns (told: seq<Event>)
    requires |h| > 0
    ensures IdealEvents(h, started) == [Event(Start, started)] + told && TellsChanges(told, h)
  {
    hide TellsChanges;
    var before, r := h[..|h| - 1], h[|h| - 1];
    assert before + [r] == h;
    if |h| == 1 {
      assert TellsChanges([], []) by {
        NothingTold();
      }
      TellsChangesAfter([], [], r);
      told := [EventOf(r)];
      assert [] + told == told && [] + [r] == h;
    } else {
      var earlier := IdealEventsTellChanges(before, started);
      TellsChangesAfter(earlier, before, r);
      told := if before[|before| - 1].success != r.success then earlier + [EventOf(r)] else earlier;
    }
  }

  /** Until the next change nothing changes. */
  lemma {:induction false} SameUntilNextChange(h: seq<Result>, i: nat, j: nat)
    requires i <= j < |h|
    requires forall k :: i < k <= j ==> !IsChange(h, k)
    ensures h[i].success == h[j].success
    decreases j
  {
    if i < j {
      assert !IsChange(h, j);
      SameUntilNextChange(h, i, j - 1);
    }
  }

  lemma NothingBetween(changes: seq<int>, j: nat, k: nat, i: int)
    requires forall m, n :: 0 <= m < n < |changes| ==> changes[m] < changes[n]
    requires k == j + 1 < |changes| && changes[j] < i < changes[k]
    ensures i !in changes
  {
    forall m | 0 <= m < |changes| ensures changes[m] != i {
      if m <= j {
        assert changes[m] <= changes[j];
      } else {
        assert changes[k] <= changes[m];
      }
    }
  }

  lemma NeighboursDiffer(h: seq<Result>, j: nat, k: nat)
    requires k == j + 1 < |Changes(h)|
    ensures Changes(h)[j] in Changes(h) && Changes(h)[k] in Changes(h)
    ensures h[Changes(h)[j]].success != h[Changes(h)[k]].success
  {
    var changes := Changes(h);
    var here, next := changes[j], changes[k];
    assert here in changes && next in changes;
    forall i | here < i < next ensures !IsChange(h, i) {
      NothingBetween(changes, j, k, i);
    }
    hide Changes;
    SameUntilNextChange(h, here, next - 1);
  }

  lemma LastChange(h: seq<Result>)
    requires |h| > 0
    ensures |Changes(h)| > 0 && StartsLastStretch(h, Changes(h)[|Changes(h)| - 1])
  {
    var changes := Changes(h);
    assert 0 in changes by {
      assert IsChange(h, 0);
    }
    var last := changes[|changes| - 1];
    assert last in changes;
    forall i | last < i < |h| ensures !IsChange(h, i) {
      assert i in changes ==> i <= last;
    }
    hide Changes;
    forall j | last <= j < |h| ensures h[j].success == h[|h| - 1].success {
      SameUntilNextChange(h, last, j);
      SameUntilNextChange(h, last, |h| - 1);
    }
  }

  lemma LastStretchIsUnique(h: seq<Result>, i: int, j: int)
    requires StartsLastStretch(h, i) && StartsLastStretch(h, j)
    ensures i == j
  {
  }

  lemma NewestTold(told: seq<Event>, h: seq<Result>)
    requires |h| > 0 && TellsChanges(told, h)
    ensures |told| > 0
    ensures var newest := told[|told| - 1];
            && newest.kind == (if h[|h| - 1].success then Healthy else Unhealthy)
            && forall i :: StartsLastStretch(h, i) ==> newest.timestamp == h[i].timestamp
  {
    LastChange(h);
    var last := Changes(h)[|Changes(h)| - 1];
    assert Tells(told[|told| - 1], h[last]);
    hide Changes;
    forall i | StartsLastStretch(h, i) ensures told[|told| - 1].timestamp == h[i].timestamp {
      LastStretchIsUnique(h, i, last);
    }
  }

  lemma NeighboursTold(told: seq<Event>, h: seq<Result>, j: nat, k: nat)
    requires TellsChanges(told, h) && k == j + 1 < |told|
    ensures told[j].kind != told[k].kind
  {
    NeighboursDiffer(h, j, k);
    hide Changes;
  }

  lemma ToldAlternates(told: seq<Event>, h: seq<Result>, started: Time)
    requires TellsChanges(told, h)
    ensures Alternate([Event(Start, started)] + told)
  {
    hide Changes;
    var events := [Event(Start, started)] + told;
    assert forall k :: 0 <= k < |told| ==> told[k].kind != Start;
    forall j, k | 0 <= j && k == j + 1 < |events| ensures events[j].kind != events[k].kind {
      if j > 0 {
        NeighboursTold(told, h, j - 1, j);
      }
    }
  }

  lemma SuffixAlternates(s: seq<Event>, t: seq<Event>)
    requires IsSuffix(s, t) && Alternate(t)
    ensures Alternate(s)
  {
    forall j, k | 0 <= j && k == j + 1 < |s| ensures s[k].kind != Start && s[j].kind != s[k].kind {
      var i, l := |t| - |s| + j, |t| - |s| + k;
      assert s[j] == t[i] && s[k] == t[l];
    }
  }

  lemma OnlyTheFirstStarts(events: seq<Event>, told: seq<Event>, h: seq<Result>, started: Time)
    requires TellsChanges(told, h) && |events| > 0 && IsSuffix(events, [Event(Start, started)] + told)
    ensures events[0].kind == Start ==> events[0].timestamp == started
  {
    hide Changes;
    var from := |told| + 1 - |events|;
    assert events[0] == ([Event(Start, started)] + told)[from];
    if from > 0 {
      assert events[0] == told[from - 1];
    }
  }

  lemma TellsOutcomeOfLast(events: seq<Event>, told: seq<Event>, h: seq<Result>, started: Time)
    requires |events| > 0 && IsSuffix(events, [Event(Start, started)] + told) && Alternate(events)
    requires |h| > 0 && TellsChanges(told, h)
    ensures TellsOutcome(events, h)
  {
    NewestTold(told, h);
    hide Changes, Alternate;
  }

  /** What the newest events of a log tell. */
  lemma SuffixTellsOutcome(events: seq<Event>, h: seq<Result>, started: Time)
    requires |h| > 0 && |events| > 0 && IsSuffix(events, IdealEvents(h, started))
    ensures TellsOutcome(events, h) && (events[0].kind == Start ==> events[0].timestamp == started)
  {
    hide *;
    var told := IdealEventsTellChanges(h, started);
    ToldAlternates(told, h, started);
    SuffixAlternates(events, [Event(Start, started)] + told);
    TellsOutcomeOfLast(events, told, h, started);
    OnlyTheFirstStarts(events, told, h, started);
  }

  // ---------------------------------------------------------------- pages

  function Max0(x: int): nat {
    if x < 0 then 0 else x
  }

  /** The entries from `lo` before the end to `hi` before the end, as far as there are any. */
  function Slice<T>(s: seq<T>, lo: int, hi: int): seq<T>
    requires 0 <= hi <= lo
  {
    s[Max0(|s| - lo)..Max0(|s| - hi)]
  }

  lemma NonNegativeProduct(page: int, size: int)
    requires page >= 1 && size >= 0
    ensures 0 <= (page - 1) * size <= page * size
    ensures page * size == (page - 1) * size + size
  {
  }

  /** Page 1 holds the newest `size` entries, page 2 the `size` before them, and so on; oldest first in each. */
  function Page<T>(s: seq<T>, page: int, size: int): seq<T>
    requires page >= 1 && size >= 0
  {
    NonNegativeProduct(page, size);
    Slice(s, page * size, (page - 1) * size)
  }

  /** Pages `page` down to 1, one after the other. */
  function PagesFrom<T>(s: seq<T>, page: nat, size: nat): seq<T> {
    if page == 0 then [] else Page(s, page, size) + PagesFrom(s, page - 1, size)
  }

  lemma JoinSlices<T>(s: seq<T>, i: nat, j: nat)
    requires i <= j <= |s|
    ensures s[i..j] + s[j..] == s[i..]
  {
  }

  /** Consecutive pages hold the newest entries without gap or duplicate. */
  lemma {:induction false} PagesPartition<T>(s: seq<T>, page: nat, size: nat)
    ensures PagesFrom(s, page, size) == Last(s, page * size)
  {
    if page > 0 {
      NonNegativeProduct(page, size);
      PagesPartition(s, page - 1, size);
      JoinSlices(s, Max0(|s| - page * size), Max0(|s| - (page - 1) * size));
    }
  }

  lemma SliceOfSuffix<T>(s: seq<T>, t: seq<T>, lo: int, hi: int)
    requires IsSuffix(s, t) && 0 <= hi <= lo
    requires |s| == |t| || lo <= |s|
    ensures Slice(s, lo, hi) == Slice(t, lo, hi)
  {
    if |s| < |t| {
      assert s[|s| - lo..|s| - hi] == t[|t| - lo..|t| - hi];
    }
  }

  /** A page that the newest `max` entries of a log cover reads the same in every suffix that keeps those. */
  lemma PageOfSuffix<T>(s: seq<T>, t: seq<T>, page: int, size: int, max: nat)
    requires IsSuffix(s, t) && |s| >= AtLeast(max, |t|)
    requires page >= 1 && size >= 0 && page * size <= max
    ensures Page(s, page, size) == Page(t, page, size)
  {
    NonNegativeProduct(page, size);
    SliceOfSuffix(s, t, page * size, (page - 1) * size);
  }
}
