/** The read path: a service's current status (get_all_services) and its latest events
    (get_latest_events), both computed from its interval list, newest first, at the
    caller-supplied time `now`. */
module Queries {
  import opened Intervals

  /** The state reported once the newest interval's idle window has passed. */
  const IDLE_STATE: string := "idle"

  /** How many event records get_latest_events returns at most. */
  const MAX_EVENTS: nat := 50

  datatype Status = Status(state: string, since: int)

  /** One record of get_latest_events; `end == None` stands for the JSON null of an
      interval that is still open. */
  datatype Event = Event(start: int, end: Option<int>, state: string)

  /** The status logic of get_all_services for one service: the newest interval's state
      since its start, or idle since an instant already past. */
  function CurrentStatus(l: seq<Interval>, now: int): (r: Status)
    requires l != []
    ensures r == Status(l[0].state, l[0].start)
      || (r == Status(IDLE_STATE, l[0].end + IDLE_DELTA) && r.since < now)
  {
    var head := l[0];
    if head.end + IDLE_DELTA >= now then Status(head.state, head.start)
    else Status(IDLE_STATE, head.end + IDLE_DELTA)
  }

  /** A service is in its newest interval's state, since that interval's start, until the
      idle window after its end has passed; from then on it is idle since the instant the
      window closed, and stays so whatever the time. */
  lemma StatusOverTime(l: seq<Interval>, now: int, later: int)
    requires l != [] && now <= later
    ensures later <= l[0].end + IDLE_DELTA ==>
      CurrentStatus(l, now) == CurrentStatus(l, later) == Status(l[0].state, l[0].start)
    ensures l[0].end + IDLE_DELTA < now ==>
      CurrentStatus(l, now) == CurrentStatus(l, later) == Status(IDLE_STATE, l[0].end + IDLE_DELTA)
      && CurrentStatus(l, now).since < now
  {
  }

  /** The end shown for interval `i`: for the newest one the close of its idle window once
      that is past, else nothing; for any other one, whichever comes first of the next
      newer interval's start and the close of its own idle window. */
  function DisplayEnd(l: seq<Interval>, i: nat, now: int): (r: Option<int>)
    requires i < |l|
    ensures i == 0 ==> (r.Some? <==> l[0].end + IDLE_DELTA < now)
    ensures i == 0 && r.Some? ==> r.value == l[0].end + IDLE_DELTA
    ensures i > 0 ==> r.Some? && r.value <= l[i - 1].start && r.value <= l[i].end + IDLE_DELTA
    ensures i > 0 ==> r.value == l[i - 1].start || r.value == l[i].end + IDLE_DELTA
  {
    var entryEnd := l[i].end + IDLE_DELTA;
    if i == 0 then (if entryEnd < now then Some(entryEnd) else None)
    else Some(if l[i - 1].start < entryEnd then l[i - 1].start else entryEnd)
  }

  /** The record every timestamp of interval `i` contributes: its state and start, and
      an end that only the newest interval can lack, and only while its idle window
      lasts. */
  function EventOf(l: seq<Interval>, i: nat, now: int): (r: Event)
    requires i < |l|
    ensures r.state == l[i].state && r.start == l[i].start
    ensures r.end.None? <==> i == 0 && now <= l[0].end + IDLE_DELTA
  {
    Event(l[i].start, DisplayEnd(l, i, now), l[i].state)
  }

  /** The walk of get_latest_events from interval `index` on, with `count` records already
      emitted: each interval contributes one record per timestamp, but no more than the
      records still allowed. */
  function EventsFrom(l: seq<Interval>, now: int, index: nat, count: nat): (r: seq<Event>)
    requires index <= |l| && count <= MAX_EVENTS
    ensures count + |r| <= MAX_EVENTS
    decreases |l| - index
  {
    if count == MAX_EVENTS || index == |l| then []
    else
      var n: nat := if MAX_EVENTS - count < |l[index].timestamps| then MAX_EVENTS - count else |l[index].timestamps|;
      Repeat(EventOf(l, index, now), n) + EventsFrom(l, now, index + 1, count + n)
  }

  /** get_latest_events on a known service: never more than MAX_EVENTS records. */
  function LatestEvents(l: seq<Interval>, now: int): (r: seq<Event>)
    ensures |r| <= MAX_EVENTS
  {
    EventsFrom(l, now, 0, 0)
  }

  /** Reference definition: every record of every interval from `index` on, uncapped. */
  function Expanded(l: seq<Interval>, now: int, index: nat): seq<Event>
    requires index <= |l|
    decreases |l| - index
  {
    if index == |l| then []
    else Repeat(EventOf(l, index, now), |l[index].timestamps|) + Expanded(l, now, index + 1)
  }

  /** One step of the walk: interval `index` contributes `n` copies of its record. */
  lemma EventsFromStep(l: seq<Interval>, now: int, index: nat, count: nat, n: nat)
    requires index < |l| && count < MAX_EVENTS
    requires n == if MAX_EVENTS - count < |l[index].timestamps| then MAX_EVENTS - count else |l[index].timestamps|
    ensures count + n <= MAX_EVENTS
    ensures EventsFrom(l, now, index, count) == Repeat(EventOf(l, index, now), n) + EventsFrom(l, now, index + 1, count + n)
  {
  }

  lemma RepeatPrefix<T>(x: T, n: nat, k: nat)
    requires k <= n
    ensures Repeat(x, n)[..k] == Repeat(x, k)
  {
  }

  /** The counted walk emits exactly the first records of the uncapped expansion, as
      many as the remaining allowance permits. */
  lemma {:induction false} EventsFromIsPrefix(l: seq<Interval>, now: int, index: nat, count: nat)
    requires index <= |l| && count <= MAX_EVENTS
    ensures var all := Expanded(l, now, index);
      EventsFrom(l, now, index, count) == all[..Min(MAX_EVENTS - count, |all|)]
    decreases |l| - index
  {
    if count < MAX_EVENTS && index < |l| {
      var x := EventOf(l, index, now);
      var size := |l[index].timestamps|;
      var n: nat := if MAX_EVENTS - count < size then MAX_EVENTS - count else size;
      var run, rest := Repeat(x, size), Expanded(l, now, index + 1);
      assert Expanded(l, now, index) == run + rest;
      EventsFromStep(l, now, index, count, n);
      EventsFromIsPrefix(l, now, index + 1, count + n);
      RepeatPrefix(x, size, n);
      if n < size {
        assert EventsFrom(l, now, index + 1, count + n) == [];
        PrefixOfConcat(run, rest, n);
        assert Repeat(x, n) + [] == Repeat(x, n);
      } else {
        var m := Min(MAX_EVENTS - count - n, |rest|);
        PrefixOfConcat(run, rest, n + m);
        assert run[..n] == run;
      }
    }
  }

  /** The expansion holds one record per recorded timestamp. */
  lemma {:induction false} ExpandedSize(l: seq<Interval>, now: int, index: nat)
    requires index <= |l|
    ensures |Expanded(l, now, index)| == |AllTimestamps(l[index..])|
    decreases |l| - index
  {
    if index < |l| {
      ExpandedSize(l, now, index + 1);
      assert l[index..][1..] == l[index + 1..];
    }
  }

  /** Every record of the expansion is the record of some interval. */
  lemma {:induction false} ExpandedRecords(l: seq<Interval>, now: int, index: nat)
    requires index <= |l|
    ensures forall k :: 0 <= k < |Expanded(l, now, index)| ==>
      exists j :: index <= j < |l| && Expanded(l, now, index)[k] == EventOf(l, j, now)
    decreases |l| - index
  {
    if index < |l| {
      ExpandedRecords(l, now, index + 1);
      var run := Repeat(EventOf(l, index, now), |l[index].timestamps|);
      var rest := Expanded(l, now, index + 1);
      var all := Expanded(l, now, index);
      assert all == run + rest;
      RepeatElements(EventOf(l, index, now), |l[index].timestamps|);
      forall k | 0 <= k < |all|
        ensures exists j :: index <= j < |l| && all[k] == EventOf(l, j, now)
      {
        if k < |run| {
          assert all[k] == EventOf(l, index, now);
        } else {
          assert all[k] == rest[k - |run|];
          var j :| index + 1 <= j < |l| && rest[k - |run|] == EventOf(l, j, now);
          assert index <= j < |l| && all[k] == EventOf(l, j, now);
        }
      }
      assert forall k :: 0 <= k < |all| ==> exists j :: index <= j < |l| && all[k] == EventOf(l, j, now);
    } else {
      assert Expanded(l, now, index) == [];
    }
  }

  /** get_latest_events returns the first MAX_EVENTS records of the newest-to-oldest
      expansion (fewer only when fewer timestamps are recorded), and every record carries
      the start, displayed end and state of one interval. */
  lemma LatestEventsAreNewestRecords(l: seq<Interval>, now: int)
    ensures |Expanded(l, now, 0)| == |AllTimestamps(l)|
    ensures |LatestEvents(l, now)| == Min(MAX_EVENTS, |AllTimestamps(l)|)
    ensures LatestEvents(l, now) == Expanded(l, now, 0)[..|LatestEvents(l, now)|]
    ensures forall k :: 0 <= k < |LatestEvents(l, now)| ==>
      exists j :: 0 <= j < |l| && LatestEvents(l, now)[k] == EventOf(l, j, now)
  {
    EventsFromIsPrefix(l, now, 0, 0);
    ExpandedSize(l, now, 0);
    assert l[0..] == l;
    ExpandedRecords(l, now, 0);
  }

  /** The newest interval's timestamps come first: the first records of the result are
      those of interval 0. */
  lemma LatestEventsStartWithNewest(l: seq<Interval>, now: int)
    requires l != []
    ensures forall k :: 0 <= k < Min(MAX_EVENTS, |l[0].timestamps|) ==>
      LatestEvents(l, now)[k] == EventOf(l, 0, now)
  {
    var n: nat := if MAX_EVENTS < |l[0].timestamps| then MAX_EVENTS else |l[0].timestamps|;
    assert LatestEvents(l, now) == Repeat(EventOf(l, 0, now), n) + EventsFrom(l, now, 1, n);
    RepeatElements(EventOf(l, 0, now), n);
  }
}
