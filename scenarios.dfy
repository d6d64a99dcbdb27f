/** The scenarios of the application tests, stated over the model: a service seen once,
    a service gone idle, a service changing state, and a reset. Each test sends its
    observations to a fresh registry and reads the answers back; the time at which the
    answers are read is the parameter `now`. */
module Scenarios {
  import opened Intervals
  import opened Timeline
  import opened Queries
  import opened Server

  /** One POST /event body for a fixed service. */
  datatype Observation = Observation(state: string, timestamp: int)

  /** The interval list after recording the observations one after the other. */
  function Replay(l: seq<Interval>, obs: seq<Observation>): (r: seq<Interval>)
    ensures obs == [] ==> r == l
    ensures obs != [] ==> 0 < |r| <= MAX_INTERVALS
    decreases |obs|
  {
    if obs == [] then l
    else
      RecordBounds(l, obs[0].state, obs[0].timestamp);
      Replay(Record(l, obs[0].state, obs[0].timestamp), obs[1..])
  }

  lemma {:induction false} RepeatedObservationGrowsPoint(state: string, t: int, ts: seq<int>, n: nat)
    ensures Replay([Interval(state, t, t, ts)], Repeat(Observation(state, t), n))
      == [Interval(state, t, t, ts + Repeat(t, n))]
    decreases n
  {
    if n == 0 {
      assert ts + Repeat(t, 0) == ts;
    } else {
      var obs := Repeat(Observation(state, t), n);
      assert obs[0] == Observation(state, t) && obs[1..] == Repeat(Observation(state, t), n - 1);
      RepeatedObservationAbsorbs(state, t, ts);
      RepeatedObservationGrowsPoint(state, t, ts + [t], n - 1);
      ConcatAssoc(ts, [t], Repeat(t, n - 1));
    }
  }

  /** The same observation sent `n` times never splits or duplicates the interval: one
      single-point interval holds all `n` timestamps. */
  lemma RepeatedObservationKeepsOnePoint(state: string, t: int, n: nat)
    requires 1 <= n
    ensures Replay([], Repeat(Observation(state, t), n)) == [Interval(state, t, t, Repeat(t, n))]
  {
    var obs := Repeat(Observation(state, t), n);
    assert obs[0] == Observation(state, t) && obs[1..] == Repeat(Observation(state, t), n - 1);
    FirstObservation(state, t);
    RepeatedObservationGrowsPoint(state, t, [t], n - 1);
  }

  /** test_changing_state, second observation: a state other than the newest one's,
      after its span but within its idle window, opens a newer interval. */
  lemma OtherStateOpensInterval(s1: string, s2: string, t1: int, t2: int)
    requires s1 != s2 && t1 < t2
    ensures Record([Point(s1, t1)], s2, t2) == [Point(s2, t2), Point(s1, t1)]
  {
    var l1 := [Point(s1, t1)];
    var l2 := [Point(s2, t2), Point(s1, t1)];
    assert FirstBelonging(l1, s2, t2, 0).None?;
    assert FirstCovering(l1, t2, 0) == -1;
    assert FirstEndingBefore(l1, t2, 0) == 0;
    PlacedInsertsInOrder(l1, s2, t2);
    assert Placed(l1, s2, t2) == l2;
    UnifyNoPair(l2);
  }

  /** test_changing_state, third observation: the newer state seen again widens the
      newer interval. */
  lemma SameStateWidensInterval(s1: string, s2: string, t1: int, t2: int, t3: int)
    requires s1 != s2 && t2 <= t3 <= t2 + IDLE_DELTA
    ensures Record([Point(s2, t2), Point(s1, t1)], s2, t3) == [Interval(s2, t2, t3, [t2, t3]), Point(s1, t1)]
  {
    var l2 := [Point(s2, t2), Point(s1, t1)];
    var l3 := [Interval(s2, t2, t3, [t2, t3]), Point(s1, t1)];
    assert FirstBelonging(l2, s2, t3, 0) == Some(0);
    PlacedAbsorbs(l2, s2, t3, 0);
    assert [t2] + [t3] == [t2, t3];
    assert Absorb(l2[0], t3) == l3[0];
    assert Placed(l2, s2, t3) == l3;
    UnifyNoPair(l3);
  }

  /** test_changing_state, on the events: two open records of the newer state, then the
      older state's record, closed when the newer one started. */
  lemma ChangingStateEvents(s1: string, s2: string, t1: int, t2: int, t3: int, now: int)
    requires t2 < t1 + IDLE_DELTA && now <= t3 + IDLE_DELTA
    ensures LatestEvents([Interval(s2, t2, t3, [t2, t3]), Point(s1, t1)], now)
      == [Event(t2, None, s2), Event(t2, None, s2), Event(t1, Some(t2), s1)]
  {
    var l := [Interval(s2, t2, t3, [t2, t3]), Point(s1, t1)];
    assert EventOf(l, 0, now) == Event(t2, None, s2);
    assert EventOf(l, 1, now) == Event(t1, Some(t2), s1);
    assert EventsFrom(l, now, 2, 3) == [];
    assert EventsFrom(l, now, 1, 2) == [Event(t1, Some(t2), s1)];
    assert LatestEvents(l, now) == Repeat(Event(t2, None, s2), 2) + EventsFrom(l, now, 1, 2);
  }

  /** test_happy_flow: a service seen at `t` is reported in that state since `t` while
      its idle window lasts. */
  method HappyFlow(name: string, state: string, t: int, now: int) returns (statuses: map<string, Status>)
    requires t <= now <= t + IDLE_DELTA
    ensures statuses == map[name := Status(state, t)]
  {
    var registry := new Registry();
    registry.PostEvent(name, state, t);
    FirstObservation(state, t);
    statuses := registry.GetAllServices(now);
    SingletonMap(statuses, name, CurrentStatus([Point(state, t)], now));
  }

  /** test_idle: once the idle window after the only observation has passed, the service
      is reported idle since the window closed. */
  method IdleFlow(name: string, state: string, t: int, now: int) returns (statuses: map<string, Status>)
    requires t + IDLE_DELTA < now
    ensures statuses == map[name := Status(IDLE_STATE, t + IDLE_DELTA)]
  {
    var registry := new Registry();
    registry.PostEvent(name, state, t);
    FirstObservation(state, t);
    statuses := registry.GetAllServices(now);
    SingletonMap(statuses, name, CurrentStatus([Point(state, t)], now));
  }

  /** test_changing_state, first half: observations of `s1`, then of `s2` twice, within
      each other's idle windows, leave one interval per state, newest first. */
  method RecordChangingState(name: string, s1: string, s2: string, t1: int, t2: int, t3: int)
    returns (registry: Registry)
    requires s1 != s2 && t1 < t2 < t1 + IDLE_DELTA && t2 <= t3 <= t2 + IDLE_DELTA
    ensures fresh(registry)
    ensures registry.services == map[name := [Interval(s2, t2, t3, [t2, t3]), Point(s1, t1)]]
  {
    FirstObservation(s1, t1);
    OtherStateOpensInterval(s1, s2, t1, t2);
    SameStateWidensInterval(s1, s2, t1, t2, t3);
    var l1, l2 := [Point(s1, t1)], [Point(s2, t2), Point(s1, t1)];
    var l := [Interval(s2, t2, t3, [t2, t3]), Point(s1, t1)];
    registry := new Registry();
    registry.PostEvent(name, s1, t1);
    assert registry.services == map[name := l1];
    registry.PostEvent(name, s2, t2);
    UpdateTwice(map[], name, l1, l2);
    assert registry.services == map[name := l2];
    registry.PostEvent(name, s2, t3);
    UpdateTwice(map[], name, l2, l);
  }

  /** test_changing_state: after those observations the service is reported in `s2` since
      `t2`, and its events are the two intervals, newest first. */
  method ChangingState(name: string, s1: string, s2: string, t1: int, t2: int, t3: int, now: int)
    returns (statuses: map<string, Status>, events: Option<seq<Event>>)
    requires s1 != s2 && t1 < t2 < t1 + IDLE_DELTA && t2 <= t3 <= t2 + IDLE_DELTA
    requires now <= t3 + IDLE_DELTA
    ensures statuses == map[name := Status(s2, t2)]
    ensures events == Some([Event(t2, None, s2), Event(t2, None, s2), Event(t1, Some(t2), s1)])
  {
    var l := [Interval(s2, t2, t3, [t2, t3]), Point(s1, t1)];
    var registry := RecordChangingState(name, s1, s2, t1, t2, t3);
    statuses := registry.GetAllServices(now);
    assert CurrentStatus(l, now) == Status(s2, t2);
    SingletonMap(statuses, name, Status(s2, t2));
    ChangingStateEvents(s1, s2, t1, t2, t3, now);
    events := registry.GetLatestEvents(name, now);
  }

  lemma SingletonMap<K, V>(m: map<K, V>, k: K, v: V)
    requires m.Keys == {k} && m[k] == v
    ensures m == map[k := v]
  {
  }

  /** After a reset, a service recorded before is unknown again: its latest events are
      not found and no status is reported. */
  method ResetForgetsServices(name: string, state: string, t: int, now: int)
    returns (before: Option<seq<Event>>, after: Option<seq<Event>>, statuses: map<string, Status>)
    ensures before.Some? && |before.value| == 1
    ensures after == None && statuses == map[]
  {
    var registry := new Registry();
    registry.PostEvent(name, state, t);
    before := registry.GetLatestEvents(name, now);
    FirstObservation(state, t);
    LatestEventsAreNewestRecords([Point(state, t)], now);
    registry.PerformReset();
    after := registry.GetLatestEvents(name, now);
    statuses := registry.GetAllServices(now);
  }
}
