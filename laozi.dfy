/** The archiver itself (laozi.go): loggers as mutable objects and the router
    whose routing map the routing loop, the reaper and shutdown update in
    place.  Each method is proved against the value-level functions of
    module Registry through `Snapshot()`. */
module Laozi {
  import opened Events
  import opened Configuration
  import opened Registry

  /** An abstract logger handle: the `Logger` a factory returns for one key. */
  class Logger {
    const key: string
    var lastActive: int
    var closes: nat
    var events: seq<Event>

    /** What the router can observe of this logger. */
    function State(): Handle
      reads this
    {
      Handle(key, lastActive, closes, events)
    }

    /** The factory's `NewLogger(key)`: a fresh logger, active since `now`. */
    constructor (key: string, now: int)
      ensures State() == NewHandle(key, now)
    {
      this.key := key;
      lastActive := now;
      closes := 0;
      events := [];
    }

    /** `Log(e)`: the logger takes the event and becomes active at `now`. */
    method Log(e: Event, now: int)
      modifies this
      ensures State() == Accept(old(State()), e, now)
    {
      lastActive := now;
      events := events + [e];
    }

    /** `Close()`: flush and release.  The model counts the calls, so that a
        second close of the same logger can be seen. */
    method Close()
      modifies this
      ensures State() == Retire(old(State()))
    {
      closes := closes + 1;
    }
  }

  /** The `laozi` struct without its channel and its lock.  `stopped` is not
      in the source: it belongs to the corrected shutdown `Shutdown`/`Tick`
      and no other method reads or writes it. */
  class Router {
    const timeout: int
    const keyFunc: KeyFunc
    var routing: map<string, Logger>
    var stopped: bool

    /** Every logger sits under the key it was made for; in particular, two
        keys never share one logger object. */
    ghost predicate Valid()
      reads this, routing.Values
    {
      forall k | k in routing :: routing[k].key == k
    }

    /** Every logger in the map is still open. */
    ghost predicate Live()
      reads this, routing.Values
    {
      forall k | k in routing :: !routing[k].State().Closed()
    }

    /** The routing map as a value. */
    ghost function Snapshot(): (t: Table)
      reads this, routing.Values
      ensures t.Keys == routing.Keys
    {
      map k | k in routing :: routing[k].State()
    }

    /** `NewLaozi`: an empty routing map over a configuration that passes the
        start-up checks (a panic there aborts the program). */
    constructor (c: Config)
      requires StartupCheck(c) == Pass
      ensures Valid() && Live() && routing == map[] && !stopped
      ensures timeout == c.timeout && keyFunc == c.keyFunc.value
    {
      timeout := c.timeout;
      keyFunc := c.keyFunc.value;
      routing := map[];
      stopped := false;
    }

    /** The locked part of a routing step (laozi.go:89-96): the logger stored
        under `key`, made by the factory and inserted when the key is missing. */
    method LookupOrCreate(key: string, now: int) returns (l: Logger)
      requires Valid()
      modifies this`routing
      ensures Valid() && key in routing && routing[key] == l && l.key == key
      ensures key in old(routing) ==> routing == old(routing)
      ensures key !in old(routing) ==> fresh(l) && routing == old(routing)[key := l]
      ensures key !in old(routing) ==> l.State() == NewHandle(key, now)
    {
      if key in routing {
        l := routing[key];
      } else {
        l := new Logger(key, now);
        routing := routing[key := l];
      }
    }

    /** One iteration of `route` (laozi.go:83-97), taken as one atomic step. */
    method Route(a: Arrival)
      requires Valid()
      modifies this`routing, routing.Values
      ensures Valid()
      ensures Snapshot() == RouteStep(old(Snapshot()), keyFunc, a)
      ensures forall k | k in old(routing) :: k in routing && routing[k] == old(routing)[k]
      ensures forall k | k in routing && k !in old(routing) :: fresh(routing[k])
      ensures old(Live()) ==> Live()
    {
      match keyFunc(a.event)
      case Err(_) =>
      case Ok(key) =>
        ghost var t0 := Snapshot();
        ghost var h := if key in t0 then t0[key] else NewHandle(key, a.at);
        var l := LookupOrCreate(key, a.at);
        assert l.State() == h;
        l.Log(a.event, a.at);
        ghost var t1 := t0[key := Accept(h, a.event, a.at)];
        forall k | k in routing
          ensures k in t1 && routing[k].State() == t1[k]
        {
          if k != key {
            assert routing[k] != l;
          }
        }
        assert Snapshot() == t1;
    }

    /** The routing loop (laozi.go:81-98) over a finite sequence of events,
        standing in for the channel it consumes. */
    method RouteAll(arrivals: seq<Arrival>)
      requires Valid()
      modifies this`routing, routing.Values
      ensures Valid()
      ensures Snapshot() == Registry.RouteAll(old(Snapshot()), keyFunc, arrivals)
      ensures forall k | k in old(routing) :: k in routing && routing[k] == old(routing)[k]
      ensures forall k | k in routing && k !in old(routing) :: fresh(routing[k])
      ensures old(Live()) ==> Live()
    {
      ghost var t0 := Snapshot();
      ghost var r0 := routing;
      ghost var live := Live();
      var i := 0;
      while i < |arrivals|
        invariant 0 <= i <= |arrivals|
        invariant Valid()
        invariant Snapshot() == Registry.RouteAll(t0, keyFunc, arrivals[..i])
        invariant forall k | k in r0 :: k in routing && routing[k] == r0[k]
        invariant forall k | k in routing && k !in r0 :: fresh(routing[k])
        invariant live ==> Live()
      {
        assert arrivals[..i + 1][..i] == arrivals[..i];
        Route(arrivals[i]);
        i := i + 1;
      }
      assert arrivals[..i] == arrivals;
    }

    /** The `for range` over the map in `monitorLoggers` (laozi.go:105-111),
        stated field by field: a logger idle for at least the timeout at
        `now` has been closed once more and removed; every other entry
        stays, and no logger changes otherwise. */
    method CloseStale(now: int)
      requires Valid()
      modifies this`routing, routing.Values
      ensures Valid()
      ensures routing.Keys <= old(routing).Keys
      ensures forall k | k in routing :: routing[k] == old(routing)[k]
      ensures forall k | k in old(routing) :: k in routing <==> now - old(routing[k].lastActive) < timeout
      ensures forall k | k in old(routing) ::
                old(routing)[k].lastActive == old(routing[k].lastActive)
                && old(routing)[k].events == old(routing[k].events)
      ensures forall k | k in old(routing) ::
                old(routing)[k].closes == if now - old(routing[k].lastActive) >= timeout
                                          then old(routing[k].closes) + 1 else old(routing[k].closes)
    {
      ghost var r0 := routing;
      var pending := routing.Keys;
      while pending != {}
        invariant pending <= routing.Keys <= r0.Keys
        invariant forall k | k in r0 :: r0[k].key == k
        invariant forall k | k in routing :: routing[k] == r0[k]
        invariant forall k | k in r0 :: k in routing <==> k in pending || now - old(r0[k].lastActive) < timeout
        invariant forall k | k in r0 :: r0[k].lastActive == old(r0[k].lastActive) && r0[k].events == old(r0[k].events)
        invariant forall k | k in r0 ::
                    r0[k].closes == if k !in pending && now - old(r0[k].lastActive) >= timeout
                                    then old(r0[k].closes) + 1 else old(r0[k].closes)
        decreases pending
      {
        var key :| key in pending;
        assert forall k | k in r0 && k != key :: r0[k] != routing[key];
        CloseIfStale(key, now);
        pending := pending - {key};
      }
    }

    /** One iteration of that loop: the logger under `key` is closed and
        removed when it is stale at `now`, and left alone otherwise. */
    method CloseIfStale(key: string, now: int)
      requires key in routing
      modifies this`routing, routing[key]
      ensures var l := old(routing)[key];
              && l.lastActive == old(l.lastActive) && l.events == old(l.events)
              && (if now - old(l.lastActive) >= timeout
                  then routing == old(routing) - {key} && l.closes == old(l.closes) + 1
                  else routing == old(routing) && l.closes == old(l.closes))
    {
      var l := routing[key];
      if now - l.lastActive >= timeout {
        l.Close();
        routing := routing - {key};
      }
    }

    /** One tick of `monitorLoggers` (laozi.go:104-112) at time `now`: every
        stale logger is closed and removed, whatever its close reports. */
    method Sweep(now: int)
      requires Valid()
      modifies this`routing, routing.Values
      ensures Valid()
      ensures Snapshot() == Kept(old(Snapshot()), now, timeout)
      ensures forall k | k in routing :: routing[k] == old(routing)[k]
      ensures (map k | k in old(routing) && k !in routing :: old(routing)[k].State())
              == Retired(old(Snapshot()), now, timeout)
      ensures old(Live()) ==> Live()
      ensures old(Live()) ==> forall k | k in old(routing) && k !in routing :: old(routing)[k].closes == 1
    {
      ghost var t0 := Snapshot();
      ghost var r0 := routing;
      assert forall k | k in r0 ::
               t0[k] == Handle(k, old(r0[k].lastActive), old(r0[k].closes), old(r0[k].events));
      CloseStale(now);
      ghost var kept := Snapshot();
      ghost var gone := map k | k in r0 && k !in routing :: r0[k].State();
      forall k
        ensures k in kept <==> k in t0 && !Stale(t0[k], now, timeout)
        ensures k in gone <==> k in t0 && Stale(t0[k], now, timeout)
      {
      }
      SweepDeterminedBy(t0, now, timeout, kept, gone);
      if forall k | k in t0 :: !t0[k].Closed() {
        ClosesOnceWhenOpen(t0, now, timeout);
        assert forall k | k in gone :: gone[k].closes == 1;
      }
    }

    /** The facade's `Close` (laozi.go:69-76): every logger in the map is
        closed, idle or not; the map itself is left as it is. */
    method CloseAll()
      requires Valid()
      modifies routing.Values
      ensures Valid() && routing == old(routing)
      ensures Snapshot() == ClosedAll(old(Snapshot()))
    {
      ghost var t0 := Snapshot();
      var pending := routing.Keys;
      while pending != {}
        invariant pending <= routing.Keys
        invariant forall k | k in routing ::
                    routing[k].State() == if k in pending then t0[k] else Retire(t0[k])
        decreases pending
      {
        var key :| key in pending;
        routing[key].Close();
        pending := pending - {key};
      }
    }

    /** Shutdown as evidently intended: close every logger, as the facade's
        `Close` does, and stop the reaper, so that no later tick closes any
        of them again. */
    method Shutdown()
      requires Valid()
      modifies this`stopped, routing.Values
      ensures Valid() && routing == old(routing) && stopped
      ensures Snapshot() == ClosedAll(old(Snapshot()))
      ensures old(Live()) ==> forall k | k in routing :: routing[k].closes == 1
    {
      ghost var t0 := Snapshot();
      CloseAll();
      assert forall k | k in routing :: routing[k].closes == t0[k].closes + 1;
      stopped := true;
    }

    /** A reaper tick that respects `stopped`: a sweep while the router runs,
        nothing at all once it has been shut down.  A tick only happens when
        the ticker period `timeout / 2` is positive (laozi.go:103). */
    method Tick(now: int)
      requires Valid() && HalfDuration(timeout) > 0
      modifies this`routing, routing.Values
      ensures Valid()
      ensures stopped ==> routing == old(routing) && Snapshot() == old(Snapshot())
      ensures !stopped ==> Snapshot() == Kept(old(Snapshot()), now, timeout)
      ensures !stopped ==> (map k | k in old(routing) && k !in routing :: old(routing)[k].State())
                           == Retired(old(Snapshot()), now, timeout)
      ensures forall k | k in routing :: routing[k] == old(routing)[k]
      ensures old(Live()) ==> Live()
      ensures !stopped && old(Live()) ==>
                forall k | k in old(routing) && k !in routing :: old(routing)[k].closes == 1
    {
      if !stopped {
        Sweep(now);
      }
    }
  }

  /** The routing loop as written delivers outside the lock (laozi.go:96-97).
      A reaper tick that falls between the unlock and `l.Log(e)` retires the
      looked-up logger, and the event then goes to a logger that was already
      closed and is no longer in the map.  Here: logger "A" last active at 0,
      timeout 10, an event for "A" looked up at 10, a tick at 10, then the
      delivery. */
  method UnlockedDeliveryRace(e0: Event, e: Event) returns (r: Router, l: Logger)
    ensures l.State().Closed() && l.events == [e0, e] && "A" !in r.routing
  {
    var kf: KeyFunc := _ => Ok("A");
    r := new Router(Config(10, Some(kf), 0));
    r.Route(Arrival(e0, 0));
    l := r.LookupOrCreate("A", 10);
    r.Sweep(10);
    assert "A" !in r.routing && l.State().Closed() && l.events == [e0];
    l.Log(e, 10);
  }

  /** As written, the facade's `Close` (laozi.go:69-76) leaves every logger
      in the map and does not stop the reaper started at laozi.go:55, so a
      later tick closes a stale logger a second time (laozi.go:108).  Here:
      logger "A" last active at 0, shutdown, then a tick at 10 with a 10 ns
      timeout. */
  method ShutdownThenTick(e: Event) returns (r: Router, l: Logger)
    ensures l.closes == 2 && "A" !in r.routing
  {
    var kf: KeyFunc := _ => Ok("A");
    r := new Router(Config(10, Some(kf), 0));
    r.Route(Arrival(e, 0));
    l := r.routing["A"];
    r.CloseAll();
    assert l.closes == 1;
    r.Sweep(10);
  }

  /** The corrected reaper while the router runs: logger "A" last active
      at 0, a tick at 10 with a 10 ns timeout closes it once and removes it. */
  method TickClosesOnce(e: Event) returns (r: Router, l: Logger)
    ensures l.closes == 1 && "A" !in r.routing
  {
    var kf: KeyFunc := _ => Ok("A");
    r := new Router(Config(10, Some(kf), 0));
    r.Route(Arrival(e, 0));
    l := r.routing["A"];
    r.Tick(10);
  }

  /** The same sequence with the corrected shutdown: the tick after it does
      nothing, and the logger has been closed exactly once. */
  method ShutdownThenStoppedTick(e: Event) returns (r: Router, l: Logger)
    ensures l.closes == 1 && "A" in r.routing && r.routing["A"] == l
  {
    var kf: KeyFunc := _ => Ok("A");
    r := new Router(Config(10, Some(kf), 0));
    r.Route(Arrival(e, 0));
    l := r.routing["A"];
    r.Shutdown();
    r.Tick(10);
  }
}
