/** Events and partition keys: the values that flow through the archiver. */
module Events {

  /** One byte of an event payload. */
  newtype Byte = b: int | 0 <= b < 256

  /** An event is an opaque byte payload; the core never looks inside it. */
  type Event = seq<Byte>

  /** An optional value, standing for a Go value that may be nil. */
  datatype Option<+T> = None | Some(value: T)

  /** A value or an error, standing for Go's `(value, error)` pair. */
  datatype Result<+T> = Ok(value: T) | Err(error: string)

  /** A partition key function computes the key of an event, or fails. */
  type KeyFunc = Event -> Result<string>

  /** An event as the routing loop receives it, with the time (in nanoseconds)
      at which it is routed. */
  datatype Arrival = Arrival(event: Event, at: int)

  /** The events of `arrivals` whose key is `key`, in arrival order. */
  function EventsFor(kf: KeyFunc, arrivals: seq<Arrival>, key: string): (es: seq<Event>)
    ensures |es| <= |arrivals|
    ensures forall e | e in es :: kf(e) == Ok(key)
    decreases |arrivals|
  {
    if arrivals == [] then []
    else
      var rest := EventsFor(kf, arrivals[..|arrivals| - 1], key);
      var last := arrivals[|arrivals| - 1];
      if kf(last.event) == Ok(key) then rest + [last.event] else rest
  }

  /** The keys computed successfully for some event of `arrivals`. */
  function RoutedKeys(kf: KeyFunc, arrivals: seq<Arrival>): (ks: set<string>)
    ensures forall a | a in arrivals && kf(a.event).Ok? :: kf(a.event).value in ks
    decreases |arrivals|
  {
    if arrivals == [] then {}
    else
      var rest := RoutedKeys(kf, arrivals[..|arrivals| - 1]);
      var last := arrivals[|arrivals| - 1];
      assert forall a | a in arrivals :: a in arrivals[..|arrivals| - 1] || a == last;
      if kf(last.event).Ok? then rest + {kf(last.event).value} else rest
  }

  /** A key is routed exactly when some arrival's event yields it. */
  lemma {:induction false} RoutedKeysExact(kf: KeyFunc, arrivals: seq<Arrival>, key: string)
    ensures key in RoutedKeys(kf, arrivals) <==> exists a | a in arrivals :: kf(a.event) == Ok(key)
    ensures key in RoutedKeys(kf, arrivals) <==> EventsFor(kf, arrivals, key) != []
    decreases |arrivals|
  {
    if arrivals != [] {
      var init := arrivals[..|arrivals| - 1];
      var last := arrivals[|arrivals| - 1];
      RoutedKeysExact(kf, init, key);
      assert arrivals == init + [last];
      if key in RoutedKeys(kf, arrivals) && kf(last.event) != Ok(key) {
        var a :| a in init && kf(a.event) == Ok(key);
        assert a in arrivals;
      }
    }
  }
}
