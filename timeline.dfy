/** Reconciling one observation `(state, t)` into a service's interval list, newest
    interval first: absorb into a matching interval, otherwise split a covering interval
    or find the slot that keeps the order, insert a single-point interval, merge at most
    one adjacent same-state pair, and keep the newest MAX_INTERVALS intervals. */
module Timeline {
  import opened Intervals

  // ---------------------------------------------------------------------------
  // The three scans

  /** search: the first interval from position `from` on that the observation belongs to. */
  function FirstBelonging(l: seq<Interval>, state: string, t: int, from: nat): (r: Option<nat>)
    requires from <= |l|
    ensures r.Some? ==> from <= r.value < |l| && Belongs(l[r.value], state, t)
    ensures r.Some? ==> forall j :: from <= j < r.value ==> !Belongs(l[j], state, t)
    ensures r.None? <==> forall j :: from <= j < |l| ==> !Belongs(l[j], state, t)
    decreases |l| - from
  {
    if from == |l| then None
    else if Belongs(l[from], state, t) then Some(from)
    else FirstBelonging(l, state, t, from + 1)
  }

  /** `t` lies in the interval's own span, without tolerance. */
  predicate Covers(e: Interval, t: int) {
    e.start <= t <= e.end
  }

  /** find_location_to_split: the first interval from `from` on whose span holds `t`, or -1. */
  function FirstCovering(l: seq<Interval>, t: int, from: nat): (r: int)
    requires from <= |l|
    ensures r == -1 || from <= r < |l|
    ensures r != -1 ==> Covers(l[r], t) && forall j :: from <= j < r ==> !Covers(l[j], t)
    ensures r == -1 <==> forall j :: from <= j < |l| ==> !Covers(l[j], t)
    decreases |l| - from
  {
    if from == |l| then -1
    else if Covers(l[from], t) then from
    else FirstCovering(l, t, from + 1)
  }

  /** find_location_to_insert: the first interval from `from` on that ends before `t`, or
      the length of the list. */
  function FirstEndingBefore(l: seq<Interval>, t: int, from: nat): (r: nat)
    requires from <= |l|
    ensures from <= r <= |l|
    ensures r < |l| ==> l[r].end < t
    ensures forall j :: from <= j < r ==> t <= l[j].end
    decreases |l| - from
  {
    if from == |l| then |l|
    else if l[from].end < t then from
    else FirstEndingBefore(l, t, from + 1)
  }

  /** search, as the loop the source runs. */
  method Search(data: seq<Interval>, state: string, t: int) returns (r: Option<nat>)
    ensures r == FirstBelonging(data, state, t, 0)
  {
    for index := 0 to |data|
      invariant FirstBelonging(data, state, t, index) == FirstBelonging(data, state, t, 0)
    {
      if Belongs(data[index], state, t) {
        return Some(index);
      }
    }
    return None;
  }

  /** find_location_to_split, as the loop the source runs. */
  method FindLocationToSplit(data: seq<Interval>, t: int) returns (r: int)
    ensures r == FirstCovering(data, t, 0)
  {
    for index := 0 to |data|
      invariant FirstCovering(data, t, index) == FirstCovering(data, t, 0)
    {
      if data[index].start <= t <= data[index].end {
        return index;
      }
    }
    return -1;
  }

  /** find_location_to_insert, as the loop the source runs. */
  method FindLocationToInsert(data: seq<Interval>, t: int) returns (r: nat)
    ensures r == FirstEndingBefore(data, t, 0)
  {
    for index := 0 to |data|
      invariant FirstEndingBefore(data, t, index) == FirstEndingBefore(data, t, 0)
    {
      if data[index].end < t {
        return index;
      }
    }
    return |data|;
  }

  // ---------------------------------------------------------------------------
  // Split

  /** The timestamps later than `t`, in their order. */
  function Above(ts: seq<int>, t: int): (r: seq<int>)
    ensures forall x :: x in r <==> x in ts && t < x
  {
    if ts == [] then [] else (if t < ts[0] then [ts[0]] else []) + Above(ts[1..], t)
  }

  /** The timestamps at or before `t`, in their order. */
  function AtOrBelow(ts: seq<int>, t: int): (r: seq<int>)
    ensures forall x :: x in r <==> x in ts && x <= t
  {
    if ts == [] then [] else (if ts[0] <= t then [ts[0]] else []) + AtOrBelow(ts[1..], t)
  }

  /** The two halves of a split hold every timestamp exactly once. */
  lemma {:induction false} PartitionTimestamps(ts: seq<int>, t: int)
    ensures multiset(Above(ts, t)) + multiset(AtOrBelow(ts, t)) == multiset(ts)
  {
    if ts != [] {
      PartitionTimestamps(ts[1..], t);
      assert ts == [ts[0]] + ts[1..];
    }
  }

  /** The interval spanned by a non-empty list of timestamps. */
  function Spanning(state: string, ts: seq<int>): (e: Interval)
    requires ts != []
    ensures WellFormed(e) && e.state == state && e.timestamps == ts
  {
    Interval(state, SeqMin(ts), SeqMax(ts), ts)
  }

  /** Inserts the half spanning `ts` at `i`, or nothing when `ts` is empty. */
  function InsertHalf(l: seq<Interval>, i: nat, state: string, ts: seq<int>): (r: seq<Interval>)
    ensures |r| == |l| + (if ts == [] then 0 else 1)
  {
    if ts == [] then l else ListInsert(l, i, Spanning(state, ts))
  }

  lemma InsertHalfTimestamps(l: seq<Interval>, i: nat, state: string, ts: seq<int>)
    ensures AllTimestamps(InsertHalf(l, i, state, ts)) == AllTimestamps(l) + multiset(ts)
  {
    if ts != [] {
      AllTimestampsInsert(l, i, Spanning(state, ts));
    }
  }

  /** split, as evidently intended: the interval at `loc` is replaced by its timestamps
      later than `t` (at `loc`) and those at or before `t` (right after); a half with no
      timestamps is left out. The interval is removed with `list.remove`, as in the
      source. The second component is where the new point goes: just after the later
      half, as line 72 returns; when there is no later half (`t` at or past every
      timestamp of the interval, so nothing is split), wherever find_location_to_insert
      puts it in the list as it then is. */
  function SplitAt(l: seq<Interval>, loc: nat, t: int): (r: (seq<Interval>, nat))
    requires loc < |l|
    ensures r.1 <= |r.0|
    ensures |r.0| == |l| - 1
      + (if Above(l[loc].timestamps, t) == [] then 0 else 1)
      + (if AtOrBelow(l[loc].timestamps, t) == [] then 0 else 1)
  {
    var e := l[loc];
    var upper := Above(e.timestamps, t);
    var withUpper := InsertHalf(RemoveFirst(l, e), loc, e.state, upper);
    var split := InsertHalf(withUpper, if upper == [] then loc else loc + 1, e.state, AtOrBelow(e.timestamps, t));
    (split, if upper == [] then FirstEndingBefore(split, t, 0) else loc + 1)
  }

  /** A split keeps every timestamp. */
  lemma SplitAtConserves(l: seq<Interval>, loc: nat, t: int)
    requires loc < |l|
    ensures AllTimestamps(SplitAt(l, loc, t).0) == AllTimestamps(l)
  {
    var e := l[loc];
    var upper, lower := Above(e.timestamps, t), AtOrBelow(e.timestamps, t);
    var rest := RemoveFirst(l, e);
    AllTimestampsRemoveFirst(l, e);
    PartitionTimestamps(e.timestamps, t);
    var boundary := if upper == [] then loc else loc + 1;
    var withUpper := InsertHalf(rest, loc, e.state, upper);
    InsertHalfTimestamps(rest, loc, e.state, upper);
    InsertHalfTimestamps(withUpper, boundary, e.state, lower);
    assert SplitAt(l, loc, t).0 == InsertHalf(withUpper, boundary, e.state, lower);
    assert multiset(upper) + multiset(lower) == multiset(e.timestamps);
  }

  /** Inserting a half brings in nothing but a well-formed interval. */
  lemma InsertHalfMembers(l: seq<Interval>, i: nat, state: string, ts: seq<int>)
    ensures forall x :: x in InsertHalf(l, i, state, ts) ==> x in l || WellFormed(x)
  {
    if ts != [] {
      ListInsertMembers(l, i, Spanning(state, ts));
    }
  }

  /** A split of a list of well-formed intervals leaves only well-formed intervals. */
  lemma SplitAtKeepsWellFormed(l: seq<Interval>, loc: nat, t: int)
    requires loc < |l| && AllWellFormed(l)
    ensures AllWellFormed(SplitAt(l, loc, t).0)
  {
    var e := l[loc];
    var upper := Above(e.timestamps, t);
    var rest := RemoveFirst(l, e);
    RemoveFirstMembers(l, e);
    var withUpper := InsertHalf(rest, loc, e.state, upper);
    InsertHalfMembers(rest, loc, e.state, upper);
    InsertHalfMembers(withUpper, if upper == [] then loc else loc + 1, e.state, AtOrBelow(e.timestamps, t));
  }

  /** When no earlier interval equals the one split and both halves are non-empty, the
      interval is replaced in place by its later half followed by its earlier half, each
      spanning its own timestamps, and the boundary sits between them. */
  lemma SplitAtShape(l: seq<Interval>, loc: nat, t: int)
    requires loc < |l| && forall j :: 0 <= j < loc ==> l[j] != l[loc]
    requires Above(l[loc].timestamps, t) != [] && AtOrBelow(l[loc].timestamps, t) != []
    ensures SplitAt(l, loc, t).0 == l[..loc]
      + [Spanning(l[loc].state, Above(l[loc].timestamps, t)), Spanning(l[loc].state, AtOrBelow(l[loc].timestamps, t))]
      + l[loc + 1..]
    ensures SplitAt(l, loc, t).1 == loc + 1 && |SplitAt(l, loc, t).0| == |l| + 1
  {
    var e := l[loc];
    RemoveFirstAt(l, loc);
    var rest := l[..loc] + l[loc + 1..];
    var u, w := Spanning(e.state, Above(e.timestamps, t)), Spanning(e.state, AtOrBelow(e.timestamps, t));
    var r1 := ListInsert(rest, loc, u);
    assert r1 == l[..loc] + [u] + l[loc + 1..] by {
      assert rest[..loc] == l[..loc] && rest[loc..] == l[loc + 1..];
    }
    var r2 := ListInsert(r1, loc + 1, w);
    assert r2 == l[..loc] + [u, w] + l[loc + 1..] by {
      assert r1[..loc + 1] == l[..loc] + [u] && r1[loc + 1..] == l[loc + 1..];
      assert r2 == (l[..loc] + [u]) + [w] + l[loc + 1..];
      ConcatAssoc(l[..loc], [u], [w]);
      assert [u] + [w] == [u, w];
    }
  }

  /** A late observation landing strictly before the end of a well-formed interval
      leaves both halves non-empty. */
  lemma SplitHalvesNonEmpty(e: Interval, t: int)
    requires WellFormed(e) && e.start <= t < e.end
    ensures Above(e.timestamps, t) != [] && AtOrBelow(e.timestamps, t) != []
  {
    assert e.end in Above(e.timestamps, t);
    assert e.start in AtOrBelow(e.timestamps, t);
  }

  /** The empty-half policy: an observation at exactly the end of a well-formed interval
      leaves it whole, and the new point goes where find_location_to_insert puts it. */
  lemma SplitAtEndKeepsInterval(l: seq<Interval>, loc: nat, t: int)
    requires loc < |l| && forall j :: 0 <= j < loc ==> l[j] != l[loc]
    requires WellFormed(l[loc]) && t == l[loc].end
    ensures SplitAt(l, loc, t) == (l, FirstEndingBefore(l, t, 0))
  {
    var e := l[loc];
    AboveEmpty(e.timestamps, t);
    WholeIsAtOrBelow(e.timestamps, t);
    var rest := RemoveFirst(l, e);
    RemoveFirstAt(l, loc);
    ReinsertRemoved(l, loc);
    assert Spanning(e.state, e.timestamps) == e;
    assert SplitAt(l, loc, t).0 == ListInsert(rest, loc, e);
  }

  lemma ReinsertRemoved<T>(l: seq<T>, k: nat)
    requires k < |l|
    ensures ListInsert(l[..k] + l[k + 1..], k, l[k]) == l
  {
    var rest := l[..k] + l[k + 1..];
    assert rest[..k] == l[..k] && rest[k..] == l[k + 1..];
    assert l == l[..k] + [l[k]] + l[k + 1..];
  }

  lemma {:induction false} AboveEmpty(ts: seq<int>, t: int)
    requires forall x :: x in ts ==> x <= t
    ensures Above(ts, t) == []
  {
    if ts != [] {
      assert ts[0] in ts;
      assert forall x :: x in ts[1..] ==> x in ts;
      AboveEmpty(ts[1..], t);
    }
  }

  lemma {:induction false} WholeIsAtOrBelow(ts: seq<int>, t: int)
    requires forall x :: x in ts ==> x <= t
    ensures AtOrBelow(ts, t) == ts
  {
    if ts != [] {
      assert ts[0] in ts;
      assert forall x :: x in ts[1..] ==> x in ts;
      WholeIsAtOrBelow(ts[1..], t);
      assert ts == [ts[0]] + ts[1..];
    }
  }

  // ---------------------------------------------------------------------------
  // Unify

  /** The pair test of unify_if_needed: the same state, and the newer interval starts no
      later than the idle tolerance after the older one ends. In particular, a pair of
      the same state merges when the newer one starts within the older one's widened
      span. */
  predicate Mergeable(prev: Interval, cur: Interval)
    ensures Mergeable(prev, cur) ==> prev.state == cur.state
    ensures prev.state == cur.state && InRange(prev.start, cur.start, cur.end) ==> Mergeable(prev, cur)
  {
    prev.state == cur.state && prev.start <= cur.end + IDLE_DELTA
  }

  /** The newer interval after taking over the older one: it starts where the older one
      started and gains its timestamps, after its own; its state and end are kept. */
  function Merged(prev: Interval, cur: Interval): (r: Interval)
    ensures r.state == prev.state && r.end == prev.end && r.start == cur.start
    ensures multiset(r.timestamps) == multiset(prev.timestamps) + multiset(cur.timestamps)
  {
    prev.(start := cur.start, timestamps := prev.timestamps + cur.timestamps)
  }

  /** The merge of two well-formed intervals is well formed when the older one neither
      starts nor ends after the newer one. */
  lemma MergedKeepsWellFormed(prev: Interval, cur: Interval)
    requires WellFormed(prev) && WellFormed(cur)
    requires cur.start <= prev.start && cur.end <= prev.end
    ensures WellFormed(Merged(prev, cur))
  {
    var s := prev.timestamps + cur.timestamps;
    assert forall x :: x in s ==> x in prev.timestamps || x in cur.timestamps;
    assert cur.start in s && forall x :: x in s ==> cur.start <= x;
    assert prev.end in s && forall x :: x in s ==> x <= prev.end;
    MinIsUnique(s, cur.start);
    MaxIsUnique(s, prev.end);
  }

  /** The merge of the pair `(l[k - 1], l[k])`: update the newer one in place, then
      `list.remove` the older one. One interval fewer is left, and nothing but the merged
      interval is new. */
  function MergeAt(l: seq<Interval>, k: nat): (r: seq<Interval>)
    requires 1 <= k < |l|
    ensures |r| == |l| - 1
    ensures forall x :: x in r ==> x in l || x == Merged(l[k - 1], l[k])
  {
    var updated := l[k - 1 := Merged(l[k - 1], l[k])];
    assert updated[k] == l[k];
    RemoveFirstMembers(updated, l[k]);
    RemoveFirst(updated, l[k])
  }

  /** A merge keeps every timestamp. */
  lemma MergeAtConserves(l: seq<Interval>, k: nat)
    requires 1 <= k < |l|
    ensures AllTimestamps(MergeAt(l, k)) == AllTimestamps(l)
  {
    var m := Merged(l[k - 1], l[k]);
    var updated := l[k - 1 := m];
    assert updated[k] == l[k];
    assert MergeAt(l, k) == RemoveFirst(updated, l[k]);
    var p, c := multiset(l[k - 1].timestamps), multiset(l[k].timestamps);
    AllTimestampsUpdate(l, k - 1, m);
    assert multiset(m.timestamps) == p + c;
    MultisetCancel(AllTimestamps(updated), AllTimestamps(l) + c, p);
    AllTimestampsRemoveFirst(updated, l[k]);
    MultisetCancel(AllTimestamps(MergeAt(l, k)), AllTimestamps(l), c);
  }

  /** When no interval ahead of the older one equals it and the newer one has timestamps,
      the merge replaces the pair by the merged interval and touches nothing else. */
  lemma MergeAtShape(l: seq<Interval>, k: nat)
    requires 1 <= k < |l| && l[k - 1].timestamps != []
    requires forall j :: 0 <= j < k - 1 ==> l[j] != l[k]
    ensures MergeAt(l, k) == l[..k - 1] + [Merged(l[k - 1], l[k])] + l[k + 1..]
  {
    var m := Merged(l[k - 1], l[k]);
    var updated := l[k - 1 := m];
    assert |m.timestamps| > |l[k].timestamps|;
    assert forall j :: 0 <= j < k ==> updated[j] != updated[k];
    RemoveFirstAt(updated, k);
    assert updated[..k] == l[..k - 1] + [m];
    assert updated[k + 1..] == l[k + 1..];
  }

  /** unify_if_needed from position `from` on: merge the first mergeable pair, if any.
      The list either stays as it is or loses one interval, and a list too short to hold
      a pair from `from` on stays as it is. */
  function UnifyFrom(l: seq<Interval>, from: nat): (r: seq<Interval>)
    requires 1 <= from
    ensures r == l || (|r| == |l| - 1 && from < |l|)
    decreases |l| - from
  {
    if from >= |l| then l
    else if Mergeable(l[from - 1], l[from]) then MergeAt(l, from)
    else UnifyFrom(l, from + 1)
  }

  /** unify_if_needed: at most one merge, of the first mergeable adjacent pair. */
  function Unify(l: seq<Interval>): (r: seq<Interval>)
    ensures r == l || (|r| == |l| - 1 && 2 <= |l|)
  {
    UnifyFrom(l, 1)
  }

  /** Every mergeable adjacent pair is in time order: the older interval neither starts
      nor ends after the newer one. */
  predicate MergesInOrder(l: seq<Interval>) {
    forall k :: 1 <= k < |l| && Mergeable(l[k - 1], l[k]) ==> l[k].start <= l[k - 1].start && l[k].end <= l[k - 1].end
  }

  lemma {:induction false} UnifyFromKeepsWellFormed(l: seq<Interval>, from: nat)
    requires 1 <= from && AllWellFormed(l) && MergesInOrder(l)
    ensures AllWellFormed(UnifyFrom(l, from))
    decreases |l| - from
  {
    if from >= |l| {
    } else if Mergeable(l[from - 1], l[from]) {
      assert l[from - 1] in l && l[from] in l;
      MergedKeepsWellFormed(l[from - 1], l[from]);
    } else {
      UnifyFromKeepsWellFormed(l, from + 1);
    }
  }

  /** Unify keeps every interval well formed when its merges are in time order. */
  lemma UnifyKeepsWellFormed(l: seq<Interval>)
    requires AllWellFormed(l) && MergesInOrder(l)
    ensures AllWellFormed(Unify(l))
  {
    UnifyFromKeepsWellFormed(l, 1);
  }

  /** No adjacent pair from position `from` on is mergeable. */
  predicate NoMergeableFrom(l: seq<Interval>, from: nat) {
    forall k :: from <= k < |l| && 1 <= k ==> !Mergeable(l[k - 1], l[k])
  }

  lemma {:induction false} UnifyFromNoPair(l: seq<Interval>, from: nat)
    requires 1 <= from && NoMergeableFrom(l, from)
    ensures UnifyFrom(l, from) == l
    decreases |l| - from
  {
    if from < |l| {
      UnifyFromNoPair(l, from + 1);
    }
  }

  lemma {:induction false} UnifyFromFirstPair(l: seq<Interval>, from: nat, k: nat)
    requires 1 <= from <= k < |l| && Mergeable(l[k - 1], l[k])
    requires forall j :: from <= j < k ==> !Mergeable(l[j - 1], l[j])
    ensures UnifyFrom(l, from) == MergeAt(l, k)
    decreases k - from
  {
    if from < k {
      UnifyFromFirstPair(l, from + 1, k);
    }
  }

  /** Unify leaves a list without a mergeable pair as it is. */
  lemma UnifyNoPair(l: seq<Interval>)
    requires NoMergeableFrom(l, 1)
    ensures Unify(l) == l
  {
    UnifyFromNoPair(l, 1);
  }

  /** Unify merges the first mergeable pair and only that one. */
  lemma UnifyMergesFirstPair(l: seq<Interval>, k: nat)
    requires 1 <= k < |l| && Mergeable(l[k - 1], l[k])
    requires forall j :: 1 <= j < k ==> !Mergeable(l[j - 1], l[j])
    ensures Unify(l) == MergeAt(l, k)
    ensures l[k - 1].timestamps != [] && (forall j :: 0 <= j < k - 1 ==> l[j] != l[k])
      ==> Unify(l) == l[..k - 1] + [Merged(l[k - 1], l[k])] + l[k + 1..]
  {
    UnifyFromFirstPair(l, 1, k);
    if l[k - 1].timestamps != [] && (forall j :: 0 <= j < k - 1 ==> l[j] != l[k]) {
      MergeAtShape(l, k);
    }
  }

  lemma {:induction false} UnifyFromConserves(l: seq<Interval>, from: nat)
    requires 1 <= from
    ensures AllTimestamps(UnifyFrom(l, from)) == AllTimestamps(l)
    ensures UnifyFrom(l, from) == l <==> NoMergeableFrom(l, from)
    ensures UnifyFrom(l, from) != l ==> |UnifyFrom(l, from)| == |l| - 1
    decreases |l| - from
  {
    if from >= |l| {
    } else if Mergeable(l[from - 1], l[from]) {
      MergeAtConserves(l, from);
    } else {
      UnifyFromConserves(l, from + 1);
    }
  }

  /** Unify keeps every timestamp; it changes the list exactly when some adjacent pair
      is mergeable, and then drops exactly one interval. */
  lemma UnifyConserves(l: seq<Interval>)
    ensures AllTimestamps(Unify(l)) == AllTimestamps(l)
    ensures Unify(l) == l <==> NoMergeableFrom(l, 1)
    ensures Unify(l) != l ==> |Unify(l)| == |l| - 1
  {
    UnifyFromConserves(l, 1);
  }

  // ---------------------------------------------------------------------------
  // post_event

  /** Where a new point goes when nothing absorbs the observation: the list after any
      split, and an insertion index inside it. */
  function Locate(l: seq<Interval>, t: int): (r: (seq<Interval>, nat))
    ensures r.1 <= |r.0| && |l| - 1 <= |r.0| <= |l| + 1
  {
    var loc := FirstCovering(l, t, 0);
    if loc != -1 then SplitAt(l, loc, t) else (l, FirstEndingBefore(l, t, 0))
  }

  /** The list after the absorb or the insert step of post_event, before unify: never
      empty, and at most two intervals longer (a split and the new point). */
  function Placed(l: seq<Interval>, state: string, t: int): (r: seq<Interval>)
    ensures r != [] && |l| <= |r| <= |l| + 2
  {
    match FirstBelonging(l, state, t, 0)
    case Some(i) => l[i := Absorb(l[i], t)]
    case None =>
      var (rest, at) := Locate(l, t);
      ListInsert(rest, at, Point(state, t))
  }

  /** The reconciliation body of post_event, before the cap: never empty, and the
      interval count moves by at most one down or two up. */
  function Reconcile(l: seq<Interval>, state: string, t: int): (r: seq<Interval>)
    ensures r != [] && |l| - 1 <= |r| <= |l| + 2
  {
    Unify(Placed(l, state, t))
  }

  /** The newest MAX_INTERVALS intervals: a prefix, as long as the list or as the limit. */
  function Cap(l: seq<Interval>): (r: seq<Interval>)
    ensures |r| == Min(|l|, MAX_INTERVALS) && r == l[..|r|]
  {
    l[..if |l| < MAX_INTERVALS then |l| else MAX_INTERVALS]
  }

  /** post_event on the service's list: reconcile, then cap. The list is never left
      empty and never holds more than MAX_INTERVALS intervals. */
  function Record(l: seq<Interval>, state: string, t: int): (r: seq<Interval>)
    ensures 0 < |r| <= MAX_INTERVALS
  {
    Cap(Reconcile(l, state, t))
  }

  /** When an interval absorbs the observation, only that interval changes. */
  lemma PlacedAbsorbs(l: seq<Interval>, state: string, t: int, i: nat)
    requires FirstBelonging(l, state, t, 0) == Some(i)
    ensures |Placed(l, state, t)| == |l|
    ensures Placed(l, state, t)[i] == Absorb(l[i], t)
    ensures forall j :: 0 <= j < |l| && j != i ==> Placed(l, state, t)[j] == l[j]
  {
  }

  /** When nothing absorbs or covers the observation, its point is inserted just before
      the first interval that ends before it, and the relative order of the others is
      kept. */
  lemma PlacedInsertsInOrder(l: seq<Interval>, state: string, t: int)
    requires FirstBelonging(l, state, t, 0).None? && FirstCovering(l, t, 0) == -1
    ensures var k := FirstEndingBefore(l, t, 0);
      Placed(l, state, t) == l[..k] + [Point(state, t)] + l[k..]
      && (forall j :: 0 <= j < k ==> t <= l[j].end)
      && (k < |l| ==> l[k].end < t)
  {
  }

  /** When nothing absorbs the observation and it lands strictly inside the span of an
      interval, that interval is split and the point sits between its halves. */
  lemma PlacedBetweenHalves(l: seq<Interval>, state: string, t: int)
    requires FirstBelonging(l, state, t, 0).None? && FirstCovering(l, t, 0) != -1
    requires var e := l[FirstCovering(l, t, 0)];
      Above(e.timestamps, t) != [] && AtOrBelow(e.timestamps, t) != []
    ensures var loc := FirstCovering(l, t, 0); var e := l[loc];
      Placed(l, state, t) == l[..loc]
        + [Spanning(e.state, Above(e.timestamps, t)), Point(state, t), Spanning(e.state, AtOrBelow(e.timestamps, t))]
        + l[loc + 1..]
  {
    var loc := FirstCovering(l, t, 0);
    var e := l[loc];
    FirstCoveringIsFirstOccurrence(l, t);
    SplitAtShape(l, loc, t);
    var u, w := Spanning(e.state, Above(e.timestamps, t)), Spanning(e.state, AtOrBelow(e.timestamps, t));
    assert Locate(l, t) == (l[..loc] + [u, w] + l[loc + 1..], loc + 1);
    InsertBetween(l[..loc], u, w, l[loc + 1..], Point(state, t));
  }

  lemma InsertBetween<T>(a: seq<T>, u: T, w: T, b: seq<T>, x: T)
    ensures ListInsert(a + [u, w] + b, |a| + 1, x) == a + [u, x, w] + b
  {
    var s := a + [u, w] + b;
    assert s[..|a| + 1] == a + [u];
    assert s[|a| + 1..] == [w] + b;
  }

  /** No interval ahead of the covering one equals it, since none of them covers `t`. */
  lemma FirstCoveringIsFirstOccurrence(l: seq<Interval>, t: int)
    requires FirstCovering(l, t, 0) != -1
    ensures forall j :: 0 <= j < FirstCovering(l, t, 0) ==> l[j] != l[FirstCovering(l, t, 0)]
  {
    var loc := FirstCovering(l, t, 0);
    forall j | 0 <= j < loc ensures l[j] != l[loc] {
      assert !Covers(l[j], t);
    }
  }

  /** When nothing absorbs the observation and it lands exactly at the end of a
      well-formed interval, that interval stays whole and the point goes right before the
      first interval that ends before it, as when nothing covers it. */
  lemma PlacedAtEnd(l: seq<Interval>, state: string, t: int)
    requires FirstBelonging(l, state, t, 0).None? && FirstCovering(l, t, 0) != -1
    requires var e := l[FirstCovering(l, t, 0)]; WellFormed(e) && t == e.end
    ensures var k := FirstEndingBefore(l, t, 0);
      Placed(l, state, t) == l[..k] + [Point(state, t)] + l[k..]
  {
    var loc := FirstCovering(l, t, 0);
    FirstCoveringIsFirstOccurrence(l, t);
    SplitAtEndKeepsInterval(l, loc, t);
  }

  /** The absorb or insert step keeps every interval well formed. */
  lemma PlacedKeepsWellFormed(l: seq<Interval>, state: string, t: int)
    requires AllWellFormed(l)
    ensures AllWellFormed(Placed(l, state, t))
  {
    match FirstBelonging(l, state, t, 0) {
    case Some(i) =>
      var a := Absorb(l[i], t);
      assert l[i] in l;
      AbsorbKeepsWellFormed(l[i], t);
      assert forall x :: x in l[i := a] ==> x in l || x == a;
    case None =>
      var loc := FirstCovering(l, t, 0);
      if loc != -1 {
        SplitAtKeepsWellFormed(l, loc, t);
      }
      var (rest, at) := Locate(l, t);
      ListInsertMembers(rest, at, Point(state, t));
      assert WellFormed(Point(state, t));
    }
  }

  /** post_event keeps every interval well formed (its span the range of its timestamps)
      whenever the merge it makes, if any, joins a pair in time order. */
  lemma RecordKeepsWellFormed(l: seq<Interval>, state: string, t: int)
    requires AllWellFormed(l) && MergesInOrder(Placed(l, state, t))
    ensures AllWellFormed(Record(l, state, t))
  {
    PlacedKeepsWellFormed(l, state, t);
    UnifyKeepsWellFormed(Placed(l, state, t));
    var r := Reconcile(l, state, t);
    assert forall x :: x in Cap(r) ==> x in r;
  }

  // ---------------------------------------------------------------------------
  // The invariant every stored list keeps

  /** A settled list: every interval is well formed and no adjacent pair is mergeable,
      so unify has nothing left to do. The empty list is settled, and post_event keeps
      lists settled (RecordKeepsSettled). */
  predicate Settled(l: seq<Interval>) {
    AllWellFormed(l) && NoMergeableFrom(l, 1)
  }

  /** A well-formed interval contains its own start and end among its timestamps, and
      every timestamp lies between them. */
  lemma WellFormedBounds(e: Interval)
    requires WellFormed(e)
    ensures e.start <= e.end && e.start in e.timestamps && e.end in e.timestamps
    ensures forall x :: x in e.timestamps ==> e.start <= x <= e.end
  {
  }

  /** A point that no interval absorbs, inserted just before the first interval that ends
      before it, is mergeable with neither neighbour. */
  lemma InsertedPointSettles(l: seq<Interval>, state: string, t: int, k: nat)
    requires Settled(l) && k <= |l|
    requires forall j :: 0 <= j < |l| ==> !Belongs(l[j], state, t)
    requires forall j :: 0 <= j < k ==> t <= l[j].end
    requires k < |l| ==> l[k].end < t
    ensures NoMergeableFrom(l[..k] + [Point(state, t)] + l[k..], 1)
  {
    var p := Point(state, t);
    var r := l[..k] + [p] + l[k..];
    forall m | 1 <= m < |r| ensures !Mergeable(r[m - 1], r[m]) {
      if m < k {
        assert r[m - 1] == l[m - 1] && r[m] == l[m];
      } else if m == k {
        assert r[m - 1] == l[k - 1] && r[m] == p;
        assert !Belongs(l[k - 1], state, t);
      } else if m == k + 1 {
        assert r[m - 1] == p && r[m] == l[k];
        assert l[k] in l;
        WellFormedBounds(l[k]);
        assert !Belongs(l[k], state, t);
      } else {
        assert r[m - 1] == l[m - 2] && r[m] == l[m - 1];
      }
    }
  }

  /** The later half of a split keeps the interval's end, and the earlier half its start. */
  lemma HalvesKeepOuterEnds(e: Interval, t: int)
    requires WellFormed(e) && e.start <= t < e.end
    ensures Spanning(e.state, Above(e.timestamps, t)).end == e.end
    ensures Spanning(e.state, AtOrBelow(e.timestamps, t)).start == e.start
  {
    SplitHalvesNonEmpty(e, t);
    var upper, lower := Above(e.timestamps, t), AtOrBelow(e.timestamps, t);
    assert e.end in upper && e.start in lower;
    MaxIsUnique(upper, e.end);
    MinIsUnique(lower, e.start);
  }

  /** A point of another state placed between the two halves of a split interval leaves
      no mergeable pair: the halves face the old neighbours with the old ends, and the
      point is of another state than either half. */
  lemma SplitPointSettles(l: seq<Interval>, state: string, t: int, loc: nat)
    requires Settled(l) && loc < |l|
    requires forall j :: 0 <= j < |l| ==> !Belongs(l[j], state, t)
    requires l[loc].start <= t < l[loc].end
    requires Above(l[loc].timestamps, t) != [] && AtOrBelow(l[loc].timestamps, t) != []
    ensures var e := l[loc];
      NoMergeableFrom(l[..loc]
        + [Spanning(e.state, Above(e.timestamps, t)), Point(state, t), Spanning(e.state, AtOrBelow(e.timestamps, t))]
        + l[loc + 1..], 1)
  {
    var e := l[loc];
    assert e in l;
    HalvesKeepOuterEnds(e, t);
    assert !Belongs(e, state, t);
    ReplacedByThreeNoPair(l, loc,
      Spanning(e.state, Above(e.timestamps, t)), Point(state, t), Spanning(e.state, AtOrBelow(e.timestamps, t)));
  }

  /** Replacing an interval of a list with no mergeable pair by a later part `u`, a point
      `p` of another state and an earlier part `w` leaves no mergeable pair, when `u`
      keeps the interval's end and `w` its start. */
  lemma ReplacedByThreeNoPair(l: seq<Interval>, loc: nat, u: Interval, p: Interval, w: Interval)
    requires loc < |l| && NoMergeableFrom(l, 1)
    requires u.state == l[loc].state && u.end == l[loc].end
    requires w.state == l[loc].state && w.start == l[loc].start
    requires p.state != l[loc].state
    ensures NoMergeableFrom(l[..loc] + [u, p, w] + l[loc + 1..], 1)
  {
    var r := l[..loc] + [u, p, w] + l[loc + 1..];
    forall m | 1 <= m < |r| ensures !Mergeable(r[m - 1], r[m]) {
      if m < loc {
        assert r[m - 1] == l[m - 1] && r[m] == l[m];
      } else if m == loc {
        assert r[m - 1] == l[loc - 1] && r[m] == u;
        assert !Mergeable(l[loc - 1], l[loc]);
      } else if m == loc + 1 {
        assert r[m - 1] == u && r[m] == p;
      } else if m == loc + 2 {
        assert r[m - 1] == p && r[m] == w;
      } else if m == loc + 3 {
        assert r[m - 1] == w && r[m] == l[loc + 1];
        assert !Mergeable(l[loc], l[loc + 1]);
      } else {
        assert r[m - 1] == l[m - 3] && r[m] == l[m - 2];
      }
    }
  }

  /** The newest intervals of a settled list are settled. */
  lemma CapKeepsSettled(l: seq<Interval>)
    requires Settled(l)
    ensures Settled(Cap(l))
  {
    var c := Cap(l);
    assert forall x :: x in c ==> x in l;
    forall m | 1 <= m < |c| ensures !Mergeable(c[m - 1], c[m]) {
      assert c[m - 1] == l[m - 1] && c[m] == l[m];
    }
  }

  /** The interval ahead of the absorbing one stays apart from it: it started more than
      IDLE_DELTA after the absorbing one ended, and it could not absorb `t` itself. */
  lemma AbsorbStaysApartFromNewer(l: seq<Interval>, state: string, t: int, i: nat)
    requires Settled(l) && FirstBelonging(l, state, t, 0) == Some(i) && 1 <= i
    ensures !Mergeable(l[i - 1], Absorb(l[i], t))
  {
    assert l[i] in l && l[i - 1] in l;
    WellFormedBounds(l[i - 1]);
    assert !Belongs(l[i - 1], state, t);
    assert !Mergeable(l[i - 1], l[i]);
  }

  /** If the absorbing interval becomes mergeable with the next older one, that pair is
      in time order, and no interval ahead of the absorbing one equals the older one
      (any copy would have absorbed `t` first), so list.remove takes the right one. */
  lemma AbsorbMergesOlderInOrder(l: seq<Interval>, state: string, t: int, i: nat)
    requires Settled(l) && FirstBelonging(l, state, t, 0) == Some(i) && i + 1 < |l|
    requires Mergeable(Absorb(l[i], t), l[i + 1])
    ensures l[i + 1].start <= Absorb(l[i], t).start && l[i + 1].end <= Absorb(l[i], t).end
    ensures forall j :: 0 <= j < i ==> l[j] != l[i + 1]
  {
    assert l[i] in l && l[i + 1] in l;
    WellFormedBounds(l[i]);
    WellFormedBounds(l[i + 1]);
    assert !Mergeable(l[i], l[i + 1]);
    forall j | 0 <= j < i ensures l[j] != l[i + 1] {
      assert !Belongs(l[j], state, t);
      assert Belongs(l[i + 1], state, t);
    }
  }

  /** After an absorb, every interval is well formed and only the pair of the absorbing
      interval and the next older one can be mergeable. */
  lemma AbsorbLeavesOnePair(l: seq<Interval>, state: string, t: int, i: nat)
    requires Settled(l) && FirstBelonging(l, state, t, 0) == Some(i)
    ensures var p := l[i := Absorb(l[i], t)];
      AllWellFormed(p) && forall m :: 1 <= m < |p| && m != i + 1 ==> !Mergeable(p[m - 1], p[m])
  {
    var a := Absorb(l[i], t);
    var p := l[i := a];
    assert l[i] in l;
    AbsorbKeepsWellFormed(l[i], t);
    assert forall x :: x in p ==> x in l || x == a;
    if i >= 1 {
      AbsorbStaysApartFromNewer(l, state, t, i);
    }
    forall m | 1 <= m < |p| && m != i + 1 ensures !Mergeable(p[m - 1], p[m]) {
      if m != i {
        assert p[m - 1] == l[m - 1] && p[m] == l[m];
      }
    }
  }

  /** Merging the absorbing interval with the next older one leaves a settled list. */
  lemma AbsorbMergeSettles(l: seq<Interval>, state: string, t: int, i: nat)
    requires Settled(l) && FirstBelonging(l, state, t, 0) == Some(i) && i + 1 < |l|
    requires Mergeable(Absorb(l[i], t), l[i + 1])
    ensures Settled(l[..i] + [Merged(Absorb(l[i], t), l[i + 1])] + l[i + 2..])
  {
    var a := Absorb(l[i], t);
    var merged := Merged(a, l[i + 1]);
    var r := l[..i] + [merged] + l[i + 2..];
    assert AllWellFormed(r) by {
      assert l[i] in l && l[i + 1] in l;
      AbsorbKeepsWellFormed(l[i], t);
      AbsorbMergesOlderInOrder(l, state, t, i);
      MergedKeepsWellFormed(a, l[i + 1]);
      PairReplacedMembers(l, i, merged);
    }
    assert NoMergeableFrom(r, 1) by {
      if i >= 1 {
        AbsorbStaysApartFromNewer(l, state, t, i);
      }
      forall m | 1 <= m < |r| ensures !Mergeable(r[m - 1], r[m]) {
        if m < i {
          assert r[m - 1] == l[m - 1] && r[m] == l[m];
        } else if m == i {
          assert r[m - 1] == l[i - 1] && r[m] == merged;
        } else if m == i + 1 {
          assert r[m - 1] == merged && r[m] == l[i + 2];
          assert !Mergeable(l[i + 1], l[i + 2]);
        } else {
          assert r[m - 1] == l[m] && r[m] == l[m + 1];
        }
      }
    }
  }

  /** The absorb case of post_event: the placement's only possible pair is in time order,
      and unify leaves a settled list. */
  lemma AbsorbThenUnifySettles(l: seq<Interval>, state: string, t: int, i: nat)
    requires Settled(l) && FirstBelonging(l, state, t, 0) == Some(i)
    ensures var p := l[i := Absorb(l[i], t)];
      MergesInOrder(p) && Settled(Unify(p))
  {
    var p := l[i := Absorb(l[i], t)];
    AbsorbLeavesOnePair(l, state, t, i);
    if i + 1 < |p| && Mergeable(p[i], p[i + 1]) {
      AbsorbMergesOlderInOrder(l, state, t, i);
      UnifyMergesFirstPair(p, i + 1);
      AbsorbMergeSettles(l, state, t, i);
      assert p[..i] == l[..i] && p[i + 2..] == l[i + 2..];
    } else {
      assert NoMergeableFrom(p, 1);
      UnifyNoPair(p);
    }
  }

  /** post_event keeps a service's list settled: every interval stays well formed and no
      mergeable pair survives. In particular every merge it makes joins a pair in time
      order, which is the hypothesis of RecordKeepsWellFormed. */
  lemma RecordKeepsSettled(l: seq<Interval>, state: string, t: int)
    requires Settled(l)
    ensures MergesInOrder(Placed(l, state, t))
    ensures Settled(Reconcile(l, state, t)) && Settled(Record(l, state, t))
  {
    var p := Placed(l, state, t);
    match FirstBelonging(l, state, t, 0) {
    case Some(i) =>
      AbsorbThenUnifySettles(l, state, t, i);
      assert p == l[i := Absorb(l[i], t)];
    case None =>
      PlacedKeepsWellFormed(l, state, t);
      var loc := FirstCovering(l, t, 0);
      if loc == -1 {
        PlacedInsertsInOrder(l, state, t);
        InsertedPointSettles(l, state, t, FirstEndingBefore(l, t, 0));
      } else {
        assert l[loc] in l;
        WellFormedBounds(l[loc]);
        if t == l[loc].end {
          PlacedAtEnd(l, state, t);
          InsertedPointSettles(l, state, t, FirstEndingBefore(l, t, 0));
        } else {
          SplitHalvesNonEmpty(l[loc], t);
          PlacedBetweenHalves(l, state, t);
          SplitPointSettles(l, state, t, loc);
        }
      }
      assert NoMergeableFrom(p, 1);
      UnifyNoPair(p);
    }
    CapKeepsSettled(Reconcile(l, state, t));
  }

  /** An observation of another state at exactly the end of an older interval's span,
      too late for the newest interval of its own state: nothing is split, and the new
      point goes ahead of the interval that ended before it, so the two intervals of
      the same state stay apart. */
  lemma ObservationAtSpanEnd(l: seq<Interval>)
    requires l == [Point("B", 100), Interval("A", 95, 111, [95, 101, 111])]
    ensures Record(l, "B", 111) == [Point("B", 111), Point("B", 100), Interval("A", 95, 111, [95, 101, 111])]
  {
    var placed := [Point("B", 111)] + l;
    PlacedAtSpanEnd(l);
    assert NoMergeableFrom(placed, 1) by {
      assert !Mergeable(placed[0], placed[1]) && !Mergeable(placed[1], placed[2]);
    }
    RecordWithoutMerge(l, "B", 111, placed);
  }

  /** With no mergeable pair after the placement and room for all of it, post_event
      stores the placement as it is. */
  lemma RecordWithoutMerge(l: seq<Interval>, state: string, t: int, placed: seq<Interval>)
    requires Placed(l, state, t) == placed && NoMergeableFrom(placed, 1) && |placed| <= MAX_INTERVALS
    ensures Record(l, state, t) == placed
  {
    UnifyNoPair(placed);
  }

  lemma PlacedAtSpanEnd(l: seq<Interval>)
    requires l == [Point("B", 100), Interval("A", 95, 111, [95, 101, 111])]
    ensures Placed(l, "B", 111) == [Point("B", 111)] + l
  {
    SpanEndScans(l);
    SpanEndWellFormed(l[1]);
    PlacedAtEndAhead(l, "B", 111);
  }

  /** PlacedAtEnd when no interval ends before the observation's slot at the front. */
  lemma PlacedAtEndAhead(l: seq<Interval>, state: string, t: int)
    requires FirstBelonging(l, state, t, 0).None? && FirstCovering(l, t, 0) != -1
    requires var e := l[FirstCovering(l, t, 0)]; WellFormed(e) && t == e.end
    requires FirstEndingBefore(l, t, 0) == 0
    ensures Placed(l, state, t) == [Point(state, t)] + l
  {
    PlacedAtEnd(l, state, t);
    assert l[..0] == [] && l[0..] == l;
  }

  lemma SpanEndScans(l: seq<Interval>)
    requires l == [Point("B", 100), Interval("A", 95, 111, [95, 101, 111])]
    ensures FirstBelonging(l, "B", 111, 0) == None
    ensures FirstCovering(l, 111, 0) == 1 && FirstEndingBefore(l, 111, 0) == 0
  {
    assert !Belongs(l[0], "B", 111) && !Belongs(l[1], "B", 111);
    assert !Covers(l[0], 111) && Covers(l[1], 111);
  }

  lemma SpanEndWellFormed(e: Interval)
    requires e == Interval("A", 95, 111, [95, 101, 111])
    ensures WellFormed(e) && e.end == 111
  {
    MinIsUnique([95, 101, 111], 95);
    MaxIsUnique([95, 101, 111], 111);
  }

  /** The list is not kept in time order: absorbing lets an older interval end after a
      newer interval of another state has started and ended. */
  lemma AbsorbOutlastsNewer()
    ensures Record([Point("B", 5), Point("A", 0)], "A", 10) == [Point("B", 5), Interval("A", 0, 10, [0, 10])]
  {
    var l := [Point("B", 5), Point("A", 0)];
    assert FirstBelonging(l, "A", 10, 0) == Some(1);
    var placed := [Point("B", 5), Interval("A", 0, 10, [0, 10])];
    assert [0] + [10] == [0, 10];
    assert Absorb(l[1], 10) == placed[1];
    assert Placed(l, "A", 10) == placed;
    UnifyNoPair(placed);
  }

  /** Timestamp conservation: reconciling records `t` once and loses nothing. */
  lemma ReconcileConserves(l: seq<Interval>, state: string, t: int)
    ensures AllTimestamps(Reconcile(l, state, t)) == AllTimestamps(l) + multiset{t}
    ensures Reconcile(l, state, t) != []
  {
    var placed := Placed(l, state, t);
    match FirstBelonging(l, state, t, 0) {
    case Some(i) =>
      assert placed == l[i := Absorb(l[i], t)];
      AllTimestampsUpdate(l, i, Absorb(l[i], t));
      assert multiset(l[i].timestamps + [t]) == multiset(l[i].timestamps) + multiset{t};
      MultisetCancel(AllTimestamps(placed), AllTimestamps(l) + multiset{t}, multiset(l[i].timestamps));
    case None =>
      var loc := FirstCovering(l, t, 0);
      if loc != -1 {
        SplitAtConserves(l, loc, t);
      }
      var (rest, at) := Locate(l, t);
      AllTimestampsInsert(rest, at, Point(state, t));
    }
    assert placed != [];
    UnifyConserves(placed);
  }

  /** After post_event the list is non-empty, holds at most MAX_INTERVALS intervals, and
      is the newest part of the reconciled list. */
  lemma RecordBounds(l: seq<Interval>, state: string, t: int)
    ensures 0 < |Record(l, state, t)| <= MAX_INTERVALS
    ensures |Record(l, state, t)| == Min(|Reconcile(l, state, t)|, MAX_INTERVALS)
    ensures Record(l, state, t) == Reconcile(l, state, t)[..|Record(l, state, t)|]
  {
    ReconcileConserves(l, state, t);
  }

  /** Recording the same observation again is absorbed by the single-point interval it
      created: the span stays `[t, t]` and only the timestamps grow. */
  lemma RepeatedObservationAbsorbs(state: string, t: int, ts: seq<int>)
    ensures Record([Interval(state, t, t, ts)], state, t) == [Interval(state, t, t, ts + [t])]
  {
    var l := [Interval(state, t, t, ts)];
    assert FirstBelonging(l, state, t, 0) == Some(0);
    assert Placed(l, state, t) == [Interval(state, t, t, ts + [t])];
    UnifyNoPair(Placed(l, state, t));
  }

  /** The first observation of a service creates its single-point interval. */
  lemma FirstObservation(state: string, t: int)
    ensures Record([], state, t) == [Point(state, t)]
  {
    assert Placed([], state, t) == [Point(state, t)];
    UnifyNoPair([Point(state, t)]);
  }

  /** An observation later than every interval's idle window becomes the new head, in any
      state; when the list already holds MAX_INTERVALS intervals the oldest one is
      dropped. */
  lemma NewestObservationEvictsOldest(l: seq<Interval>, state: string, t: int)
    requires forall j :: 0 <= j < |l| ==> l[j].end + IDLE_DELTA < t
    requires NoMergeableFrom(l, 1)
    ensures Record(l, state, t) == ([Point(state, t)] + l)[..Min(|l| + 1, MAX_INTERVALS)]
  {
    var placed := [Point(state, t)] + l;
    assert Placed(l, state, t) == placed by {
      assert FirstBelonging(l, state, t, 0).None?;
      assert FirstCovering(l, t, 0) == -1;
      assert FirstEndingBefore(l, t, 0) == 0;
      PlacedInsertsInOrder(l, state, t);
    }
    assert NoMergeableFrom(placed, 1) by {
      forall k | 1 <= k < |placed| ensures !Mergeable(placed[k - 1], placed[k]) {
        if k >= 2 {
          assert placed[k - 1] == l[k - 2] && placed[k] == l[k - 1];
        }
      }
    }
    UnifyNoPair(placed);
  }

  // ---------------------------------------------------------------------------
  // The split path as the source has it

  /** post_event as written: line 113 calls split without its timestamp argument, so
      every observation that takes the split branch raises before anything changes and
      the request fails; every other observation is recorded as by Record. The result is
      the service's list after the request and whether the request succeeded. */
  function RecordAsWritten(l: seq<Interval>, state: string, t: int): (r: (seq<Interval>, bool))
    ensures !r.1 <==> FirstBelonging(l, state, t, 0).None? && FirstCovering(l, t, 0) != -1
    ensures !r.1 ==> r.0 == l
    ensures r.1 ==> r.0 == Record(l, state, t)
  {
    match FirstBelonging(l, state, t, 0)
    case Some(_) => (Record(l, state, t), true)
    case None => if FirstCovering(l, t, 0) != -1 then (l, false) else (Record(l, state, t), true)
  }

  /** A late observation of another state inside a recorded span fails as written and
      leaves the list as it was, while the intended split records it between the two
      halves of that span. */
  lemma LateObservationFailsAsWritten()
    ensures RecordAsWritten([Interval("up", 0, 20, [0, 20])], "down", 10) == ([Interval("up", 0, 20, [0, 20])], false)
    ensures Record([Interval("up", 0, 20, [0, 20])], "down", 10)
      == [Interval("up", 20, 20, [20]), Point("down", 10), Interval("up", 0, 0, [0])]
  {
    var l := [Interval("up", 0, 20, [0, 20])];
    assert !Belongs(l[0], "down", 10);
    assert FirstBelonging(l, "down", 10, 0) == None;
    assert FirstCovering(l, 10, 0) == 0;
    assert Above([0, 20], 10) == [20];
    assert AtOrBelow([0, 20], 10) == [0];
    PlacedBetweenHalves(l, "down", 10);
    var placed := [Interval("up", 20, 20, [20]), Point("down", 10), Interval("up", 0, 0, [0])];
    assert Placed(l, "down", 10) == placed;
    UnifyNoPair(placed);
  }

  /** split with lines 66-67 reading the located interval's own timestamps, the rest as
      written. (Literally, line 66 indexes the list itself with "timestamps", which raises
      before line 68 removes anything; and line 113 never reaches split at all.) The
      interval is removed first (line 68), then `min` and `max` of an empty half raise
      (lines 69-70). The result is the list left behind and, when the call completes,
      the boundary it returns. The call fails exactly when a half is empty, and with an
      empty later half the interval and all its timestamps are gone. */
  function SplitOfEntryAsWritten(l: seq<Interval>, loc: nat, t: int): (r: (seq<Interval>, Option<nat>))
    requires loc < |l|
    ensures r.1.None? <==> Above(l[loc].timestamps, t) == [] || AtOrBelow(l[loc].timestamps, t) == []
    ensures Above(l[loc].timestamps, t) == [] ==>
      |r.0| == |l| - 1 && AllTimestamps(r.0) + multiset(l[loc].timestamps) == AllTimestamps(l)
  {
    var e := l[loc];
    var upper, lower := Above(e.timestamps, t), AtOrBelow(e.timestamps, t);
    var rest := RemoveFirst(l, e);
    if upper == [] then AllTimestampsRemoveFirst(l, e); (rest, None)
    else
      var withUpper := ListInsert(rest, loc, Spanning(e.state, upper));
      if lower == [] then (withUpper, None)
      else (ListInsert(withUpper, loc + 1, Spanning(e.state, lower)), Some(loc + 1))
  }

  /** Away from the empty-half edge, the split reading the interval's timestamps and the
      intended split agree. */
  lemma SplitOfEntryAgrees(l: seq<Interval>, loc: nat, t: int)
    requires loc < |l|
    requires Above(l[loc].timestamps, t) != [] && AtOrBelow(l[loc].timestamps, t) != []
    ensures SplitOfEntryAsWritten(l, loc, t) == (SplitAt(l, loc, t).0, Some(SplitAt(l, loc, t).1))
  {
  }

  /** An observation of another state at exactly the end of a recorded span: the split
      reading the interval's timestamps deletes the interval and then fails, losing its
      timestamps; the intended split keeps the interval whole. */
  lemma EndpointSplitLosesInterval()
    ensures SplitOfEntryAsWritten([Interval("up", 0, 20, [0, 20])], 0, 20) == ([], None)
    ensures SplitAt([Interval("up", 0, 20, [0, 20])], 0, 20) == ([Interval("up", 0, 20, [0, 20])], 1)
  {
    var l := [Interval("up", 0, 20, [0, 20])];
    assert Above([0, 20], 20) == [];
    assert WellFormed(l[0]);
    SplitAtEndKeepsInterval(l, 0, 20);
    assert FirstEndingBefore(l, 20, 0) == 1;
  }
}
