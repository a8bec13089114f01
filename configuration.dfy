/** The archiver's configuration and its start-up validation (laozi.go:28-43). */
module Configuration {
  import opened Events

  /** Config: the idle timeout of a logger as a Go `time.Duration` (signed
      nanoseconds), the partition key function, which may be nil, and the
      capacity of the ingestion channel.  The logger factory is not a field:
      the model's factory is the `Logger` constructor. */
  datatype Config = Config(timeout: int, keyFunc: Option<KeyFunc>, channelSize: int)

  /** The outcome of validation: the program goes on, or panics with a message. */
  datatype Check = Pass | Panic(message: string)

  const TimeoutMessage: string := "LoggerTimeout must not be zero"
  const KeyFuncMessage: string := "PartitionKeyFunc must be implemented"

  /** `Config.valid`: the timeout is checked first, then the key function. */
  function Validate(c: Config): (r: Check)
    ensures r == Pass <==> c.timeout != 0 && c.keyFunc.Some?
    ensures c.timeout == 0 ==> r == Panic(TimeoutMessage)
    ensures c.timeout != 0 && c.keyFunc.None? ==> r == Panic(KeyFuncMessage)
  {
    if c.timeout == 0 then Panic(TimeoutMessage)
    else if c.keyFunc.None? then Panic(KeyFuncMessage)
    else Pass
  }

  /** The Go runtime's panic for a channel made with a negative capacity. */
  const ChannelMessage: string := "makechan: size out of range"

  /** The start-up of `NewLaozi` (laozi.go:46-53): `make(chan []byte,
      EventChannelSize)` runs first and panics on a negative capacity, so
      that panic comes before either of the messages of `valid`.  Only the
      negative case of `make` is modelled: the runtime's upper bound on a
      channel buffer is not. */
  function StartupCheck(c: Config): (r: Check)
    ensures r == Pass <==> c.channelSize >= 0 && Validate(c) == Pass
    ensures c.channelSize < 0 ==> r == Panic(ChannelMessage)
    ensures c.channelSize >= 0 ==> r == Validate(c)
  {
    if c.channelSize < 0 then Panic(ChannelMessage) else Validate(c)
  }

  /** Go's integer division by two on a duration, which truncates toward zero
      (Dafny's `/` is Euclidean, so negative durations are handled apart). */
  function HalfDuration(d: int): (h: int)
    ensures d >= 0 ==> 0 <= d - 2 * h <= 1
    ensures d < 0 ==> -1 <= d - 2 * h <= 0
  {
    if d >= 0 then d / 2 else -((-d) / 2)
  }

  /** The reaper ranges over `time.Tick(LoggerTimeout / 2)`; `time.Tick`
      returns a nil channel for a non-positive period, and ranging over a nil
      channel blocks forever, so the reaper only ever ticks when the half
      timeout is positive. */
  predicate ReaperTicks(c: Config)
    ensures ReaperTicks(c) <==> c.timeout >= 2
  {
    HalfDuration(c.timeout) > 0
  }

  /** As written, `valid` admits configurations under which the reaper never
      ticks: a one-nanosecond timeout and any negative timeout. */
  lemma ValidateAdmitsSilentReaper(kf: KeyFunc)
    ensures Validate(Config(1, Some(kf), 0)) == Pass && !ReaperTicks(Config(1, Some(kf), 0))
    ensures Validate(Config(-60, Some(kf), 0)) == Pass && !ReaperTicks(Config(-60, Some(kf), 0))
  {
  }

  const PeriodMessage: string := "LoggerTimeout/2 must be a positive ticker period"

  /** Validation as evidently intended: reject every timeout for which the
      reaper would never run, and a missing key function. */
  function ValidateCorrected(c: Config): (r: Check)
    ensures r == Pass <==> ReaperTicks(c) && c.keyFunc.Some?
    ensures r == Pass ==> Validate(c) == Pass
  {
    if c.timeout == 0 then Panic(TimeoutMessage)
    else if !ReaperTicks(c) then Panic(PeriodMessage)
    else if c.keyFunc.None? then Panic(KeyFuncMessage)
    else Pass
  }
}
