/** The process-wide registry of service timelines and the operations of the HTTP
    handlers on it, with the transport taken away: an observation is recorded with
    PostEvent, the current statuses are read with GetAllServices, a service's latest
    events with GetLatestEvents (None where the handler answers 404), and PerformReset
    empties the registry. The clock is the parameter `now`. */
module Server {
  import opened Intervals
  import opened Timeline
  import opened Queries

  class Registry {
    /** services_name_to_data: every known service's intervals, newest first. */
    var services: map<string, seq<Interval>>

    /** Between calls, every known service has between one and MAX_INTERVALS intervals. */
    ghost predicate Valid()
      reads this
    {
      forall name :: name in services ==> 0 < |services[name]| <= MAX_INTERVALS
    }

    /** Every stored list is settled: each interval's span is the range of its
        timestamps, and no adjacent pair is left for unify to merge. */
    ghost predicate SettledIntervals()
      reads this
    {
      forall name :: name in services ==> Settled(services[name])
    }

    constructor ()
      ensures services == map[] && Valid() && SettledIntervals()
    {
      services := map[];
    }

    /** update_existing_entry on the interval at `index` of the service's list. */
    method UpdateExistingEntry(name: string, index: nat, t: int)
      requires name in services && index < |services[name]|
      modifies this
      ensures services == old(services)[name := old(services)[name][index := Absorb(old(services)[name][index], t)]]
    {
      var data := services[name];
      var entry := data[index];
      entry := entry.(start := Min(entry.start, t));
      entry := entry.(end := Max(entry.end, t));
      entry := entry.(timestamps := entry.timestamps + [t]);
      services := services[name := data[index := entry]];
    }

    /** split, as evidently intended (see SplitAt): returns where the new point goes. */
    method Split(name: string, location: nat, t: int) returns (boundary: nat)
      requires name in services && location < |services[name]|
      modifies this
      ensures services == old(services)[name := SplitAt(old(services)[name], location, t).0]
      ensures boundary == SplitAt(old(services)[name], location, t).1
    {
      var data := services[name];
      var entry := data[location];
      var upper := Above(entry.timestamps, t);
      var lower := AtOrBelow(entry.timestamps, t);
      data := RemoveFirst(data, entry);
      boundary := location;
      if upper != [] {
        data := ListInsert(data, location, Spanning(entry.state, upper));
        boundary := location + 1;
      }
      if lower != [] {
        data := ListInsert(data, boundary, Spanning(entry.state, lower));
      }
      if upper == [] {
        boundary := FindLocationToInsert(data, t);
      }
      services := services[name := data];
    }

    /** insert_new_entry: the single-point interval of the observation at `location`. */
    method InsertNewEntry(location: nat, name: string, state: string, t: int)
      requires name in services
      modifies this
      ensures services == old(services)[name := ListInsert(old(services)[name], location, Point(state, t))]
    {
      services := services[name := ListInsert(services[name], location, Point(state, t))];
    }

    /** unify_if_needed: scans adjacent pairs and merges the first mergeable one. */
    method UnifyIfNeeded(name: string)
      requires name in services
      modifies this
      ensures services == old(services)[name := Unify(old(services)[name])]
    {
      var data := services[name];
      for location := if |data| < 1 then |data| else 1 to |data|
        invariant location == 0 ==> data == []
        invariant 1 <= location ==> UnifyFrom(data, location) == Unify(data)
        invariant services == old(services)
      {
        var prev := data[location - 1];
        var current := data[location];
        if prev.state == current.state && prev.start <= current.end + IDLE_DELTA {
          var updated := data[location - 1 := prev.(start := current.start, timestamps := prev.timestamps + current.timestamps)];
          assert updated[location] == current;
          services := services[name := RemoveFirst(updated, current)];
          return;
        }
      }
      assert Unify(data) == data;
    }

    /** The absorb-or-insert step of post_event on a known service. */
    method Place(name: string, state: string, t: int)
      requires name in services
      modifies this
      ensures services == old(services)[name := Placed(old(services)[name], state, t)]
    {
      ghost var before := services[name];
      var entry := Search(services[name], state, t);
      if entry.Some? {
        UpdateExistingEntry(name, entry.value, t);
      } else {
        var location := FindLocationToSplit(services[name], t);
        if location != -1 {
          location := Split(name, location, t);
        } else {
          location := FindLocationToInsert(services[name], t);
        }
        ghost var located := services[name];
        assert (located, location) == Locate(before, t);
        InsertNewEntry(location, name, state, t);
        UpdateTwice(old(services), name, located, services[name]);
      }
    }

    /** post_event: creates the service on its first observation, absorbs the observation
        or splits and inserts, unifies, and keeps the newest MAX_INTERVALS intervals. */
    method PostEvent(name: string, state: string, t: int)
      modifies this
      ensures services == old(services)[name := Record(if name in old(services) then old(services)[name] else [], state, t)]
      ensures old(Valid()) ==> Valid()
      ensures old(SettledIntervals()) ==> SettledIntervals()
    {
      if name !in services {
        services := services[name := []];
      }
      ghost var created, before := services, services[name];
      ghost var placed, recorded := Placed(before, state, t), Record(before, state, t);
      Place(name, state, t);
      UnifyIfNeeded(name);
      var data := services[name];
      assert data == Reconcile(before, state, t);
      services := services[name := data[..if |data| < MAX_INTERVALS then |data| else MAX_INTERVALS]];
      UpdateTwice(created, name, placed, data);
      UpdateTwice(created, name, data, recorded);
      if name !in old(services) {
        UpdateTwice(old(services), name, [], recorded);
      }
      RecordBounds(before, state, t);
      assert services == old(services)[name := recorded];
      if old(Valid()) {
        StoreKeepsBounds(old(services), name, recorded, services);
      }
      if old(SettledIntervals()) {
        assert Settled(before);
        RecordKeepsSettled(before, state, t);
        StoreKeepsSettled(old(services), name, recorded, services);
      }
    }

    /** get_all_services: the current status of every known service at time `now`. */
    method GetAllServices(now: int) returns (statuses: map<string, Status>)
      requires Valid()
      ensures statuses.Keys == services.Keys
      ensures forall name :: name in statuses ==> statuses[name] == CurrentStatus(services[name], now)
    {
      statuses := map[];
      var pending := services.Keys;
      while pending != {}
        invariant pending <= services.Keys
        invariant statuses.Keys == services.Keys - pending
        invariant forall name :: name in statuses ==> statuses[name] == CurrentStatus(services[name], now)
        decreases pending
      {
        var name :| name in pending;
        var entry := services[name][0];
        var status;
        if entry.end + IDLE_DELTA >= now {
          status := Status(entry.state, entry.start);
        } else {
          status := Status(IDLE_STATE, entry.end + IDLE_DELTA);
        }
        statuses := statuses[name := status];
        pending := pending - {name};
      }
    }

    /** get_latest_events: None (the 404 answer) for an unknown service, else the walk
        over its intervals. */
    method GetLatestEvents(name: string, now: int) returns (r: Option<seq<Event>>)
      ensures name !in services ==> r == None
      ensures name in services ==> r == Some(LatestEvents(services[name], now))
    {
      if name !in services {
        return None;
      }
      var events := WalkEvents(services[name], now);
      return Some(events);
    }

    /** perform_reset: every service is forgotten. */
    method PerformReset()
      modifies this
      ensures services == map[] && Valid() && SettledIntervals()
    {
      services := map[];
    }
  }

  /** The loop of get_latest_events over one service's intervals, from the newest, with
      the `count` and `index` counters of the source. */
  method WalkEvents(data: seq<Interval>, now: int) returns (events: seq<Event>)
    ensures events == LatestEvents(data, now)
  {
    ghost var all := LatestEvents(data, now);
    events := [];
    var count: nat, index: nat := 0, 0;
    while count < MAX_EVENTS && index < |data|
      invariant index <= |data| && count <= MAX_EVENTS && count == |events|
      invariant events + EventsFrom(data, now, index, count) == all
      decreases |data| - index
    {
      events, count := EmitInterval(data, now, index, events, count);
      index := index + 1;
    }
    assert EventsFrom(data, now, index, count) == [];
    assert events == events + EventsFrom(data, now, index, count);
  }

  /** One round of the loop of get_latest_events: the record of interval `index` is
      appended once per timestamp, but no more often than the records still allowed; the
      records so far and the rest of the walk keep making up the same sequence. */
  method EmitInterval(data: seq<Interval>, now: int, index: nat, events: seq<Event>, count: nat)
    returns (events': seq<Event>, count': nat)
    requires index < |data| && count < MAX_EVENTS && count == |events|
    ensures count' <= MAX_EVENTS && count' == |events'|
    ensures events' + EventsFrom(data, now, index + 1, count') == events + EventsFrom(data, now, index, count)
  {
    var entry := data[index];
    var entryEnd := entry.end + IDLE_DELTA;
    var end: Option<int>;
    if index == 0 {
      end := if entryEnd < now then Some(entryEnd) else None;
    } else {
      var prev := data[index - 1];
      end := Some(if prev.start < entryEnd then prev.start else entryEnd);
    }
    var record := Event(entry.start, end, entry.state);
    assert record == EventOf(data, index, now);
    var n := if MAX_EVENTS - count < |entry.timestamps| then MAX_EVENTS - count else |entry.timestamps|;
    EventsFromStep(data, now, index, count, n);
    events', count' := events, count;
    for i := 0 to n
      invariant events' == events + Repeat(record, i) && count' == count + i == |events'|
    {
      RepeatSnoc(record, i);
      ConcatAssoc(events, Repeat(record, i), [record]);
      events' := events' + [record];
      count' := count' + 1;
    }
    ConcatAssoc(events, Repeat(record, n), EventsFrom(data, now, index + 1, count + n));
  }

  /** Storing a list of the allowed length keeps every stored list of that length. */
  lemma StoreKeepsBounds(m: map<string, seq<Interval>>, name: string, l: seq<Interval>, stored: map<string, seq<Interval>>)
    requires forall n :: n in m ==> 0 < |m[n]| <= MAX_INTERVALS
    requires 0 < |l| <= MAX_INTERVALS
    requires stored == m[name := l]
    ensures forall n :: n in stored ==> 0 < |stored[n]| <= MAX_INTERVALS
  {
  }

  /** Storing a settled list keeps every stored list settled. */
  lemma StoreKeepsSettled(m: map<string, seq<Interval>>, name: string, l: seq<Interval>, stored: map<string, seq<Interval>>)
    requires forall n :: n in m ==> Settled(m[n])
    requires Settled(l)
    requires stored == m[name := l]
    ensures forall n :: n in stored ==> Settled(stored[n])
  {
  }

  /** Of two updates at the same key, the later one wins. */
  lemma UpdateTwice<K, V>(m: map<K, V>, k: K, a: V, b: V)
    ensures m[k := a][k := b] == m[k := b]
  {
  }
}
