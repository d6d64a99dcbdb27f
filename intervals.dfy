/** The data model of one service's timeline: the state interval record, the idle
    tolerance, and the two Python list operations the reconciliation is built from
    (`list.insert` and `list.remove`), stated over sequences of values. */
module Intervals {

  /** IDLE_DELTA: how far outside an interval's span an observation may fall and still
      count as the same ongoing period. */
  const IDLE_DELTA: int := 10

  /** How many intervals a service keeps after every observation. */
  const MAX_INTERVALS: nat := 50

  datatype Option<T> = None | Some(value: T)

  /** One state interval of a service: its label, its span and every observation
      timestamp absorbed into it, in the order in which they were absorbed. */
  datatype Interval = Interval(state: string, start: int, end: int, timestamps: seq<int>)

  function Min(a: int, b: int): int { if a <= b then a else b }

  function Max(a: int, b: int): int { if a <= b then b else a }

  /** How far `t` lies outside the span `[start, end]`; zero inside it. */
  function Gap(t: int, start: int, end: int): nat {
    if t < start then start - t else if end < t then t - end else 0
  }

  /** timestamp_in_range: `t` lies in `[start, end]` widened by the idle tolerance, that
      is, for a proper span, no more than IDLE_DELTA outside it. */
  predicate InRange(t: int, start: int, end: int)
    ensures start <= end ==> (InRange(t, start, end) <==> Gap(t, start, end) <= IDLE_DELTA)
  {
    start - IDLE_DELTA <= t <= end + IDLE_DELTA
  }

  /** belongs: the interval has the observed state and `t` falls in its widened span. A
      well-formed interval takes back any of its own timestamps exactly in its own state. */
  predicate Belongs(e: Interval, state: string, t: int)
    ensures WellFormed(e) && t in e.timestamps ==> (Belongs(e, state, t) <==> e.state == state)
  {
    e.state == state && InRange(t, e.start, e.end)
  }

  /** The single-point interval a fresh observation creates. */
  function Point(state: string, t: int): Interval {
    Interval(state, t, t, [t])
  }

  function SeqMin(s: seq<int>): (m: int)
    requires s != []
    ensures m in s && forall x :: x in s ==> m <= x
  {
    if |s| == 1 then s[0]
    else
      assert forall x :: x in s ==> x == s[0] || x in s[1..];
      Min(s[0], SeqMin(s[1..]))
  }

  function SeqMax(s: seq<int>): (m: int)
    requires s != []
    ensures m in s && forall x :: x in s ==> x <= m
  {
    if |s| == 1 then s[0]
    else
      assert forall x :: x in s ==> x == s[0] || x in s[1..];
      Max(s[0], SeqMax(s[1..]))
  }

  /** An interval whose span is exactly the range of its contributing timestamps. */
  predicate WellFormed(e: Interval) {
    e.timestamps != [] && e.start == SeqMin(e.timestamps) && e.end == SeqMax(e.timestamps)
  }

  /** update_existing_entry: the span grows just enough to include `t`, and `t` is
      recorded last; the state is kept. */
  function Absorb(e: Interval, t: int): (r: Interval)
    ensures r.state == e.state && r.timestamps == e.timestamps + [t]
    ensures r.start <= t && r.start <= e.start && (r.start == t || r.start == e.start)
    ensures t <= r.end && e.end <= r.end && (r.end == t || r.end == e.end)
  {
    e.(start := Min(e.start, t), end := Max(e.end, t), timestamps := e.timestamps + [t])
  }

  /** Every interval of the list is well formed. */
  predicate AllWellFormed(l: seq<Interval>) {
    forall e :: e in l ==> WellFormed(e)
  }

  /** Absorbing keeps the span equal to the range of the timestamps. */
  lemma AbsorbKeepsWellFormed(e: Interval, t: int)
    requires WellFormed(e)
    ensures WellFormed(Absorb(e, t))
  {
    var s := e.timestamps + [t];
    var lo, hi := Min(e.start, t), Max(e.end, t);
    assert forall x :: x in s ==> x in e.timestamps || x == t;
    assert lo in s && forall x :: x in s ==> lo <= x;
    assert hi in s && forall x :: x in s ==> x <= hi;
    MinIsUnique(s, lo);
    MaxIsUnique(s, hi);
  }

  lemma MinIsUnique(s: seq<int>, m: int)
    requires m in s && forall x :: x in s ==> m <= x
    ensures SeqMin(s) == m
  {
  }

  lemma MaxIsUnique(s: seq<int>, m: int)
    requires m in s && forall x :: x in s ==> x <= m
    ensures SeqMax(s) == m
  {
  }

  /** Python's `l.insert(i, x)` for a non-negative index: `x` lands at position `i`, or
      at the end when `i` is past it; everything else keeps its order. */
  function ListInsert<T>(l: seq<T>, i: nat, x: T): (r: seq<T>)
    ensures |r| == |l| + 1
    ensures r[Min(i, |l|)] == x
    ensures forall j :: 0 <= j < Min(i, |l|) ==> r[j] == l[j]
    ensures forall j :: Min(i, |l|) < j < |r| ==> r[j] == l[j - 1]
  {
    var k := if i < |l| then i else |l|;
    l[..k] + [x] + l[k..]
  }

  /** Inserting brings in no element other than the one inserted. */
  lemma ListInsertMembers<T>(l: seq<T>, i: nat, x: T)
    ensures forall y :: y in ListInsert(l, i, x) ==> y in l || y == x
  {
    var k := if i < |l| then i else |l|;
    assert l == l[..k] + l[k..];
  }

  /** Replacing two adjacent elements by one brings in no element other than that one. */
  lemma PairReplacedMembers<T>(l: seq<T>, i: nat, x: T)
    requires i + 2 <= |l|
    ensures forall y :: y in l[..i] + [x] + l[i + 2..] ==> y in l || y == x
  {
    forall y | y in l[..i] + [x] + l[i + 2..] ensures y in l || y == x {
      if y in l[..i] {
        assert y in l[..i] + l[i..];
        assert l[..i] + l[i..] == l;
      } else if y in l[i + 2..] {
        assert l[..i + 2] + l[i + 2..] == l;
      }
    }
  }

  /** `n` copies of `x`. */
  function Repeat<T>(x: T, n: nat): (r: seq<T>)
    ensures |r| == n
  {
    if n == 0 then [] else [x] + Repeat(x, n - 1)
  }

  /** Every element of `Repeat(x, n)` is `x`. */
  lemma {:induction false} RepeatElements<T>(x: T, n: nat)
    ensures forall k :: 0 <= k < n ==> Repeat(x, n)[k] == x
  {
    if n > 0 {
      RepeatElements(x, n - 1);
    }
  }

  /** One more copy at the end. */
  lemma RepeatSnoc<T>(x: T, n: nat)
    ensures Repeat(x, n) + [x] == Repeat(x, n + 1)
  {
    RepeatElements(x, n);
    RepeatElements(x, n + 1);
  }

  lemma ConcatAssoc<T>(a: seq<T>, b: seq<T>, c: seq<T>)
    ensures (a + b) + c == a + (b + c)
  {
  }

  /** A prefix of a concatenation, ending inside the first part or after it. */
  lemma PrefixOfConcat<T>(a: seq<T>, b: seq<T>, k: nat)
    requires k <= |a| + |b|
    ensures k <= |a| ==> (a + b)[..k] == a[..k]
    ensures |a| <= k ==> (a + b)[..k] == a + b[..k - |a|]
  {
    if k <= |a| {
      assert (a + b)[..k] == a[..k];
    } else {
      assert (a + b)[..k] == a + b[..k - |a|];
    }
  }

  /** The position of the first element equal to `x`. */
  function IndexOf<T(==)>(l: seq<T>, x: T): (k: nat)
    requires x in l
    ensures k < |l| && l[k] == x && forall j :: 0 <= j < k ==> l[j] != x
  {
    if l[0] == x then 0 else 1 + IndexOf(l[1..], x)
  }

  /** Python's `l.remove(x)`: deletes the first element equal to `x` by value. */
  function RemoveFirst<T(==)>(l: seq<T>, x: T): (r: seq<T>)
    requires x in l
    ensures |r| == |l| - 1
    ensures multiset(r) == multiset(l) - multiset{x}
  {
    var k := IndexOf(l, x);
    assert l == l[..k] + [l[k]] + l[k + 1..];
    l[..k] + l[k + 1..]
  }

  /** Removing brings in nothing new. */
  lemma RemoveFirstMembers<T>(l: seq<T>, x: T)
    requires x in l
    ensures forall y :: y in RemoveFirst(l, x) ==> y in l
  {
    forall y | y in RemoveFirst(l, x) ensures y in l {
      assert y in multiset(RemoveFirst(l, x));
    }
  }

  /** When nothing before position `k` equals `l[k]`, removing it deletes position `k`. */
  lemma RemoveFirstAt<T>(l: seq<T>, k: nat)
    requires k < |l| && forall j :: 0 <= j < k ==> l[j] != l[k]
    ensures RemoveFirst(l, l[k]) == l[..k] + l[k + 1..]
  {
    var i := IndexOf(l, l[k]);
    assert !(i < k);
  }

  lemma MultisetCancel(x: multiset<int>, y: multiset<int>, p: multiset<int>)
    requires x + p == y + p
    ensures x == y
  {
    forall e ensures x[e] == y[e] {
      assert (x + p)[e] == (y + p)[e];
    }
  }

  /** Every timestamp recorded in a list of intervals, with multiplicity. */
  function AllTimestamps(l: seq<Interval>): multiset<int> {
    if l == [] then multiset{} else multiset(l[0].timestamps) + AllTimestamps(l[1..])
  }

  lemma {:induction false} AllTimestampsConcat(a: seq<Interval>, b: seq<Interval>)
    ensures AllTimestamps(a + b) == AllTimestamps(a) + AllTimestamps(b)
  {
    if a == [] {
      assert a + b == b;
    } else {
      assert (a + b)[1..] == a[1..] + b;
      AllTimestampsConcat(a[1..], b);
    }
  }

  /** The timestamps of a list are those before `k`, those of `l[k]` and those after. */
  lemma AllTimestampsSplice(l: seq<Interval>, k: nat)
    requires k < |l|
    ensures AllTimestamps(l) == AllTimestamps(l[..k]) + multiset(l[k].timestamps) + AllTimestamps(l[k + 1..])
  {
    var before, from := l[..k], l[k..];
    assert l == before + from;
    AllTimestampsConcat(before, from);
    assert from[0] == l[k] && from[1..] == l[k + 1..];
  }

  /** Inserting an interval adds exactly its timestamps. */
  lemma AllTimestampsInsert(l: seq<Interval>, i: nat, x: Interval)
    ensures AllTimestamps(ListInsert(l, i, x)) == AllTimestamps(l) + multiset(x.timestamps)
  {
    var k := if i < |l| then i else |l|;
    assert ListInsert(l, i, x) == l[..k] + ([x] + l[k..]);
    AllTimestampsConcat(l[..k], [x] + l[k..]);
    assert ([x] + l[k..])[1..] == l[k..];
    assert l == l[..k] + l[k..];
    AllTimestampsConcat(l[..k], l[k..]);
  }

  /** Removing an interval removes exactly its timestamps. */
  lemma AllTimestampsRemoveFirst(l: seq<Interval>, x: Interval)
    requires x in l
    ensures AllTimestamps(RemoveFirst(l, x)) + multiset(x.timestamps) == AllTimestamps(l)
  {
    var k := IndexOf(l, x);
    AllTimestampsSplice(l, k);
    AllTimestampsConcat(l[..k], l[k + 1..]);
  }

  /** Replacing an interval swaps its timestamps for the replacement's. */
  lemma AllTimestampsUpdate(l: seq<Interval>, k: nat, y: Interval)
    requires k < |l|
    ensures AllTimestamps(l[k := y]) + multiset(l[k].timestamps) == AllTimestamps(l) + multiset(y.timestamps)
  {
    var r := l[k := y];
    AllTimestampsSplice(l, k);
    AllTimestampsSplice(r, k);
    assert r[..k] == l[..k] && r[k + 1..] == l[k + 1..];
  }
}
