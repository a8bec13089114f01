/** The routing map as a value: what the router and the reaper do to the map
    from partition keys to logger handles (laozi.go:24, 69-114), stated as
    functions on values.  The classes in laozi.dfy are proved against these. */
module Registry {
  import opened Events

  /** What the core can observe of one logger handle: the key it was created
      for, the time it was last active, how many times it was closed, and the
      events it received, in order. */
  datatype Handle = Handle(key: string, lastActive: int, closes: nat, events: seq<Event>)
  {
    /** The handle has been closed at least once. */
    predicate Closed()
    {
      closes > 0
    }
  }

  /** The routing map. Being a map, it holds at most one handle per key. */
  type Table = map<string, Handle>

  /** Every handle sits under the key it was created for. */
  predicate WellKeyed(t: Table)
  {
    forall k | k in t :: t[k].key == k
  }

  /** No handle in the map has been closed. */
  predicate AllOpen(t: Table)
  {
    forall k | k in t :: !t[k].Closed()
  }

  /** The events a key's handle already holds, none if the key is absent. */
  function Prior(t: Table, k: string): (es: seq<Event>)
  {
    if k in t then t[k].events else []
  }

  /** A logger as the factory makes it for `key` at time `now` (factory.go:26-37). */
  function NewHandle(key: string, now: int): (h: Handle)
    ensures h.key == key && h.lastActive == now
    ensures !h.Closed() && h.events == []
  {
    Handle(key, now, 0, [])
  }

  /** `l.Log(e)` at time `now`: the handle records the event and becomes active. */
  function Accept(h: Handle, e: Event, now: int): (r: Handle)
    ensures r.key == h.key && r.closes == h.closes
    ensures r.lastActive == now && r.events == h.events + [e]
  {
    h.(lastActive := now, events := h.events + [e])
  }

  /** `l.Close()`: the handle is closed once more; what it received is kept. */
  function Retire(h: Handle): (r: Handle)
    ensures r.closes == h.closes + 1 && r.key == h.key && r.lastActive == h.lastActive && r.events == h.events
  {
    h.(closes := h.closes + 1)
  }

  // ---------------------------------------------------------------- routing

  /** One iteration of the routing loop (laozi.go:81-98): compute the key; on
      an error drop the event; otherwise look the key up, create and insert a
      logger when it is missing, and deliver the event to the stored logger. */
  function RouteStep(t: Table, kf: KeyFunc, a: Arrival): (r: Table)
    ensures kf(a.event).Err? ==> r.Keys == t.Keys
    ensures kf(a.event).Ok? ==> r.Keys == t.Keys + {kf(a.event).value}
    ensures forall j | j in t && kf(a.event) != Ok(j) :: r[j] == t[j]
  {
    match kf(a.event)
    case Err(_) => t
    case Ok(k) =>
      var h := if k in t then t[k] else NewHandle(k, a.at);
      t[k := Accept(h, a.event, a.at)]
  }

  /** The routing loop over a sequence of arrivals, with no sweep in between. */
  function RouteAll(t: Table, kf: KeyFunc, arrivals: seq<Arrival>): (r: Table)
    ensures r.Keys == t.Keys + RoutedKeys(kf, arrivals)
    decreases |arrivals|
  {
    if arrivals == [] then t
    else RouteStep(RouteAll(t, kf, arrivals[..|arrivals| - 1]), kf, arrivals[|arrivals| - 1])
  }

  /** A failed key computation changes nothing: no entry, no handle. */
  lemma RouteStepDropsOnError(t: Table, kf: KeyFunc, a: Arrival)
    requires kf(a.event).Err?
    ensures RouteStep(t, kf, a) == t
  {
  }

  /** A present key: the map keeps its keys, no handle is created, and the
      event is appended to that key's existing handle and to no other. */
  lemma RouteStepPresent(t: Table, kf: KeyFunc, a: Arrival, k: string)
    requires kf(a.event) == Ok(k) && k in t
    ensures RouteStep(t, kf, a).Keys == t.Keys
    ensures RouteStep(t, kf, a)[k] == Accept(t[k], a.event, a.at)
    ensures forall j | j in t && j != k :: RouteStep(t, kf, a)[j] == t[j]
  {
  }

  /** An absent key: exactly one handle is created, for that key, and it is
      inserted beside the old entries; the event is its first and only one. */
  lemma RouteStepAbsent(t: Table, kf: KeyFunc, a: Arrival, k: string)
    requires kf(a.event) == Ok(k) && k !in t
    ensures RouteStep(t, kf, a).Keys == t.Keys + {k}
    ensures RouteStep(t, kf, a)[k] == Handle(k, a.at, 0, [a.event])
    ensures forall j | j in t :: RouteStep(t, kf, a)[j] == t[j]
  {
  }

  /** Routing keeps every handle under its own key and every handle open. */
  lemma RouteStepPreserves(t: Table, kf: KeyFunc, a: Arrival)
    ensures WellKeyed(t) ==> WellKeyed(RouteStep(t, kf, a))
    ensures AllOpen(t) ==> AllOpen(RouteStep(t, kf, a))
  {
  }

  /** Routing a sequence: the key set grows by exactly the keys computed
      successfully; every key's handle holds its earlier events followed by
      the events with that key, in input order; untouched entries stay as
      they were; well-keyedness and openness are kept. */
  lemma {:induction false} RouteAllDelivers(t: Table, kf: KeyFunc, arrivals: seq<Arrival>)
    ensures RouteAll(t, kf, arrivals).Keys == t.Keys + RoutedKeys(kf, arrivals)
    ensures forall k | k in RouteAll(t, kf, arrivals) ::
              RouteAll(t, kf, arrivals)[k].events == Prior(t, k) + EventsFor(kf, arrivals, k)
    ensures forall k | k in t && k !in RoutedKeys(kf, arrivals) :: RouteAll(t, kf, arrivals)[k] == t[k]
    ensures forall k | k in t :: RouteAll(t, kf, arrivals)[k].closes == t[k].closes
    ensures WellKeyed(t) ==> WellKeyed(RouteAll(t, kf, arrivals))
    ensures AllOpen(t) ==> AllOpen(RouteAll(t, kf, arrivals))
    decreases |arrivals|
  {
    if arrivals != [] {
      var init := arrivals[..|arrivals| - 1];
      var last := arrivals[|arrivals| - 1];
      RouteAllDelivers(t, kf, init);
      RouteStepPreserves(RouteAll(t, kf, init), kf, last);
      RouteStepExtends(t, kf, arrivals);
    }
  }

  /** The inductive step of `RouteAllDelivers` for the event lists: if every
      handle after the prefix holds its prior events and the prefix's events
      for its key, the last step keeps that true for the whole sequence. */
  lemma RouteStepExtends(t: Table, kf: KeyFunc, arrivals: seq<Arrival>)
    requires arrivals != []
    requires RouteAll(t, kf, arrivals[..|arrivals| - 1]).Keys == t.Keys + RoutedKeys(kf, arrivals[..|arrivals| - 1])
    requires forall k | k in RouteAll(t, kf, arrivals[..|arrivals| - 1]) ::
               RouteAll(t, kf, arrivals[..|arrivals| - 1])[k].events
               == Prior(t, k) + EventsFor(kf, arrivals[..|arrivals| - 1], k)
    ensures forall k | k in RouteAll(t, kf, arrivals) ::
              RouteAll(t, kf, arrivals)[k].events == Prior(t, k) + EventsFor(kf, arrivals, k)
  {
    var init := arrivals[..|arrivals| - 1];
    var last := arrivals[|arrivals| - 1];
    var r0 := RouteAll(t, kf, init);
    var r := RouteStep(r0, kf, last);
    forall k | k in r
      ensures r[k].events == Prior(t, k) + EventsFor(kf, arrivals, k)
    {
      if kf(last.event) == Ok(k) && k !in r0 {
        RoutedKeysExact(kf, init, k);
      }
    }
  }

  /** Routing a concatenation is routing its parts one after the other. */
  lemma {:induction false} RouteAllAppend(t: Table, kf: KeyFunc, s: seq<Arrival>, u: seq<Arrival>)
    ensures RouteAll(t, kf, s + u) == RouteAll(RouteAll(t, kf, s), kf, u)
    decreases |u|
  {
    if u == [] {
      assert s + u == s;
    } else {
      var init := u[..|u| - 1];
      assert (s + u)[..|s + u| - 1] == s + init;
      assert (s + u)[|s + u| - 1] == u[|u| - 1];
      RouteAllAppend(t, kf, s, init);
    }
  }

  /** An event whose key cannot be computed has no effect on the routing of
      the events before or after it, including those for keys already seen. */
  lemma DroppedEventIsInvisible(t: Table, kf: KeyFunc, s: seq<Arrival>, x: Arrival, u: seq<Arrival>)
    requires kf(x.event).Err?
    ensures RouteAll(t, kf, s + [x] + u) == RouteAll(t, kf, s + u)
  {
    RouteAllAppend(t, kf, s + [x], u);
    RouteAllAppend(t, kf, s, [x]);
    assert ([] + [x])[..0] == [];
    RouteAllAppend(t, kf, s, u);
  }

  // ---------------------------------------------------------------- reaping

  /** The reaper's test at laozi.go:106: idle for at least the timeout. */
  predicate Stale(h: Handle, now: int, timeout: int)
    ensures timeout > 0 && h.lastActive >= now ==> !Stale(h, now, timeout)
    ensures timeout <= 0 && h.lastActive <= now ==> Stale(h, now, timeout)
  {
    now - h.lastActive >= timeout
  }

  /** The entries that survive a sweep at `now`, values untouched. */
  function Kept(t: Table, now: int, timeout: int): (r: Table)
    ensures r.Keys <= t.Keys
    ensures forall k | k in r :: r[k] == t[k] && now - t[k].lastActive < timeout
  {
    map k | k in t && !Stale(t[k], now, timeout) :: t[k]
  }

  /** The entries a sweep at `now` removes, each as it is left once closed. */
  function Retired(t: Table, now: int, timeout: int): (r: Table)
    ensures r.Keys <= t.Keys
    ensures forall k | k in r :: r[k].closes == t[k].closes + 1 && now - t[k].lastActive >= timeout
  {
    map k | k in t && Stale(t[k], now, timeout) :: Retire(t[k])
  }

  /** A sweep splits the map: what remains is exactly the entries that are
      not stale, unchanged and not closed by the sweep; what goes is exactly
      the stale entries, each closed, with its events and activity kept. */
  lemma SweepPartitions(t: Table, now: int, timeout: int)
    ensures Kept(t, now, timeout).Keys !! Retired(t, now, timeout).Keys
    ensures Kept(t, now, timeout).Keys + Retired(t, now, timeout).Keys == t.Keys
    ensures forall k | k in t :: k in Kept(t, now, timeout) <==> now - t[k].lastActive < timeout
    ensures forall k | k in Kept(t, now, timeout) :: Kept(t, now, timeout)[k] == t[k]
    ensures forall k | k in Retired(t, now, timeout) ::
              now - t[k].lastActive >= timeout && Retired(t, now, timeout)[k].Closed()
              && Retired(t, now, timeout)[k].events == t[k].events
  {
  }

  /** `Kept` and `Retired` are the only pair of maps that split `t` this
      way: one holding each non-stale entry unchanged, the other each stale
      entry closed once more. */
  lemma SweepDeterminedBy(t: Table, now: int, timeout: int, s: Table, g: Table)
    requires forall k :: k in s <==> k in t && !Stale(t[k], now, timeout)
    requires forall k | k in s :: s[k] == t[k]
    requires forall k :: k in g <==> k in t && Stale(t[k], now, timeout)
    requires forall k | k in g :: g[k] == Retire(t[k])
    ensures s == Kept(t, now, timeout) && g == Retired(t, now, timeout)
  {
    assert s.Keys == Kept(t, now, timeout).Keys;
    assert g.Keys == Retired(t, now, timeout).Keys;
  }

  /** Sweeping twice at the same instant removes nothing more. */
  lemma SweepIdempotent(t: Table, now: int, timeout: int)
    ensures Kept(Kept(t, now, timeout), now, timeout) == Kept(t, now, timeout)
    ensures Retired(Kept(t, now, timeout), now, timeout) == map[]
  {
  }

  /** A sweep keeps every handle under its own key and every handle open. */
  lemma SweepPreserves(t: Table, now: int, timeout: int)
    ensures WellKeyed(t) ==> WellKeyed(Kept(t, now, timeout))
    ensures AllOpen(t) ==> AllOpen(Kept(t, now, timeout))
  {
  }

  /** After a sweep retired a key, the next event for it gets a fresh handle
      that holds only that event. */
  lemma RouteAfterRetire(t: Table, kf: KeyFunc, now: int, timeout: int, a: Arrival, k: string)
    requires k in Retired(t, now, timeout) && kf(a.event) == Ok(k)
    ensures RouteStep(Kept(t, now, timeout), kf, a)[k] == Handle(k, a.at, 0, [a.event])
  {
  }

  /** With delivery inside the same atomic step as the lookup, an event only
      ever reaches an open handle: if the next sweep keeps that handle it is
      still open and ends with the event; if it retires it, the handle is
      closed holding the event, so the close comes after the delivery. */
  lemma AtomicRouteDeliversBeforeClose(t: Table, kf: KeyFunc, a: Arrival, k: string, now: int, timeout: int)
    requires AllOpen(t) && kf(a.event) == Ok(k)
    ensures var t1 := RouteStep(t, kf, a);
            && k in t1 && !t1[k].Closed() && t1[k].events == Prior(t, k) + [a.event]
            && (k in Kept(t1, now, timeout) || Retired(t1, now, timeout)[k].events == Prior(t, k) + [a.event])
  {
  }

  // ---------------------------------------------------------------- shutdown

  /** The facade's `Close` (laozi.go:69-76): every handle closed, keys kept. */
  function ClosedAll(t: Table): (r: Table)
    ensures r.Keys == t.Keys
    ensures forall k | k in r :: r[k].closes == t[k].closes + 1 && r[k].events == t[k].events
  {
    map k | k in t :: Retire(t[k])
  }

  /** Shutdown closes every handle, idle or not, and loses no entry and no event. */
  lemma ClosedAllCloses(t: Table)
    ensures ClosedAll(t).Keys == t.Keys
    ensures forall k | k in t :: ClosedAll(t)[k].Closed() && ClosedAll(t)[k].events == t[k].events
    ensures WellKeyed(t) ==> WellKeyed(ClosedAll(t))
  {
  }

  /** Over a map whose handles are all open, a sweep and a shutdown each
      close every handle they close exactly once. */
  lemma ClosesOnceWhenOpen(t: Table, now: int, timeout: int)
    requires AllOpen(t)
    ensures forall k | k in Retired(t, now, timeout) :: Retired(t, now, timeout)[k].closes == 1
    ensures forall k | k in ClosedAll(t) :: ClosedAll(t)[k].closes == 1
  {
  }

  /** Shutdown leaves every handle in the map, so a reaper tick after it
      closes each stale handle a second time: for every open map and every
      key whose handle is stale at `now`. */
  lemma ShutdownThenSweepClosesTwice(t: Table, now: int, timeout: int, k: string)
    requires AllOpen(t) && k in t && now - t[k].lastActive >= timeout
    ensures k in Retired(ClosedAll(t), now, timeout)
    ensures Retired(ClosedAll(t), now, timeout)[k].closes == 2
  {
  }

  // ---------------------------------------------------------------- scenario

  /** Two events for key "A" at 0 and 50 ns with a 200 ns timeout: one handle
      receives both in order; a sweep at 249 keeps it, a sweep at 250 closes
      and removes it. */
  lemma TwoEventsThenIdle(e1: Event, e2: Event)
    ensures var kf: KeyFunc := _ => Ok("A");
            var t := RouteAll(map[], kf, [Arrival(e1, 0), Arrival(e2, 50)]);
            && t.Keys == {"A"} && t["A"] == Handle("A", 50, 0, [e1, e2])
            && Kept(t, 249, 200) == t
            && Kept(t, 250, 200) == map[]
            && Retired(t, 250, 200) == map["A" := Handle("A", 50, 1, [e1, e2])]
  {
    var kf: KeyFunc := _ => Ok("A");
    assert [Arrival(e1, 0), Arrival(e2, 50)][..1] == [Arrival(e1, 0)];
    assert [Arrival(e1, 0)][..0] == [];
    assert RouteAll(map[], kf, []) == map[];
    assert RouteAll(map[], kf, [Arrival(e1, 0)]) == RouteStep(map[], kf, Arrival(e1, 0));
    assert kf(e1) == Ok("A");
    assert [] + [e1] == [e1];
    assert Accept(NewHandle("A", 0), e1, 0) == Handle("A", 0, 0, [e1]);
    assert RouteStep(map[], kf, Arrival(e1, 0)) == map["A" := Handle("A", 0, 0, [e1])];
  }
}
