/**
 * The `Metronome` of metronome.js as a pure state machine.
 *
 * The object's private fields `#bpm` and `#timer` become the record
 * `Metronome(bpm, timer)`; the `setInterval` handle becomes a `Timer` that
 * remembers its period and how long it has been pending since it last fired.
 * Every public operation is a function from a state to the next state plus
 * the events it emits (in emission order), or to the error it throws.
 */
module MetronomeMachine {
  import opened Wrappers
  import VirtualClock

  /** `Metronome.DEFAULT_BPM`: the beats per minute of a fresh metronome. */
  const DEFAULT_BPM: real := 60.0

  /** The events the metronome emits; `start` and `tick` carry the bpm, `stop` nothing. */
  datatype Event = Started(bpm: real) | Ticked(bpm: real) | Stopped

  /** A live repeating timer: its period in milliseconds and the time since it last fired. */
  datatype Timer = Timer(interval: real, elapsed: real)

  datatype Metronome = Metronome(bpm: real, timer: Option<Timer>) {
    /** The `running` getter: a timer handle is held. */
    predicate Running() {
      timer.Some?
    }
  }

  /** A transition: the state afterwards and the events emitted, in order. */
  datatype Step = Step(state: Metronome, events: seq<Event>)

  /** The two exceptions the `bpm` setter throws. */
  datatype BpmError = TypeError | RangeError

  /**
   * A JavaScript value handed to the `bpm` setter: a number (not NaN, not
   * infinite) or anything whose `typeof` is not `'number'`.
   */
  datatype JsValue = Number(n: real) | NonNumber

  /** The tick period `(60 / bpm) * 1000` in milliseconds. */
  function Interval(bpm: real): (ms: real)
    requires bpm >= 1.0
    ensures 0.0 < ms <= 60000.0
    ensures ms * bpm == 60000.0
  {
    (60.0 / bpm) * 1000.0
  }

  /**
   * The states the class can reach: bpm is at least 1, and a live timer ticks
   * at the period of the current bpm and has not yet reached its next firing.
   */
  ghost predicate Valid(m: Metronome) {
    && m.bpm >= 1.0
    && (m.Running() ==>
          && m.timer.value.interval == Interval(m.bpm)
          && 0.0 <= m.timer.value.elapsed < m.timer.value.interval)
  }

  /** `new Metronome()`: stopped, at the default bpm. */
  function New(): (m: Metronome)
    ensures Valid(m)
    ensures !m.Running()
    ensures m.bpm == DEFAULT_BPM
  {
    Metronome(DEFAULT_BPM, None)
  }

  /**
   * `start()`: a no-op when running; otherwise emits `start` with the bpm and
   * installs a fresh timer at the bpm's interval.
   */
  function Start(m: Metronome): (s: Step)
    requires Valid(m)
    ensures Valid(s.state)
    ensures s.state.Running()
    ensures s.state.bpm == m.bpm
    ensures m.Running() ==> s == Step(m, [])
    ensures !m.Running() ==>
              && s.events == [Started(m.bpm)]
              && s.state.timer == Some(Timer(Interval(m.bpm), 0.0))
  {
    if m.Running() then
      Step(m, [])
    else
      Step(Metronome(m.bpm, Some(Timer(Interval(m.bpm), 0.0))), [Started(m.bpm)])
  }

  /**
   * `stop()`: a no-op when stopped; otherwise clears the timer and emits `stop`.
   * Needs no validity: the setter calls it on a state whose bpm was just changed.
   */
  function Stop(m: Metronome): (s: Step)
    ensures !s.state.Running()
    ensures s.state.bpm == m.bpm
    ensures !m.Running() ==> s == Step(m, [])
    ensures m.Running() ==> s.events == [Stopped]
  {
    if !m.Running() then
      Step(m, [])
    else
      Step(Metronome(m.bpm, None), [Stopped])
  }

  /**
   * The `bpm` setter. In order: a value equal to the current bpm returns at
   * once; a non-number throws `TypeError`; a number below 1 throws
   * `RangeError`; otherwise the bpm is stored and, if running, the metronome
   * is stopped and started again.
   */
  function SetBpm(m: Metronome, v: JsValue): (r: Result<Step, BpmError>)
    requires Valid(m)
    ensures v == Number(m.bpm) ==> r == Ok(Step(m, []))
    ensures r == Err(TypeError) <==> v.NonNumber?
    ensures r == Err(RangeError) <==> v.Number? && v.n < 1.0
    ensures r.Ok? ==>
              && Valid(r.value.state)
              && r.value.state.Running() == m.Running()
              && v.Number? && r.value.state.bpm == v.n
    ensures r.Ok? && v != Number(m.bpm) && !m.Running() ==>
              r.value.events == [] && r.value.state.timer.None?
    ensures r.Ok? && v != Number(m.bpm) && m.Running() ==>
              && r.value.events == [Stopped, Started(v.n)]
              && r.value.state.timer == Some(Timer(Interval(v.n), 0.0))
  {
    if v == Number(m.bpm) then
      Ok(Step(m, []))
    else if !v.Number? then
      Err(TypeError)
    else if v.n < 1.0 then
      Err(RangeError)
    else
      var updated := m.(bpm := v.n);
      if updated.Running() then
        var stopped := Stop(updated);
        var started := Start(stopped.state);
        Ok(Step(started.state, stopped.events + started.events))
      else
        Ok(Step(updated, []))
  }

  /** `n` consecutive `tick` events carrying `bpm`. */
  function Ticks(bpm: real, n: nat): (t: seq<Event>)
    ensures |t| == n
    ensures forall i :: 0 <= i < n ==> t[i] == Ticked(bpm)
  {
    seq(n, _ => Ticked(bpm))
  }

  /**
   * The interval callback firing once (the pending timer coming due): enabled
   * only while running; emits one `tick` with the current bpm and restarts
   * the period.
   */
  function NextTick(m: Metronome): (s: Option<Step>)
    requires Valid(m)
    ensures s.Some? <==> m.Running()
    ensures s.Some? ==>
              && Valid(s.value.state)
              && s.value.events == [Ticked(m.bpm)]
              && s.value.state.bpm == m.bpm
              && s.value.state.timer == Some(m.timer.value.(elapsed := 0.0))
  {
    if m.Running() then
      Some(Step(m.(timer := Some(m.timer.value.(elapsed := 0.0))), [Ticked(m.bpm)]))
    else
      None
  }

  /**
   * Letting `ms` milliseconds of virtual time pass. A stopped metronome emits
   * nothing; a running one emits one `tick` for each whole interval in the
   * pending time plus `ms`, and keeps the rest as its new pending time.
   */
  function Advance(m: Metronome, ms: real): (s: Step)
    requires Valid(m) && ms >= 0.0
    ensures Valid(s.state)
    ensures s.state.bpm == m.bpm && s.state.Running() == m.Running()
    ensures forall i :: 0 <= i < |s.events| ==> s.events[i] == Ticked(m.bpm)
    ensures !m.Running() ==> s == Step(m, [])
    ensures m.Running() ==>
              var t := m.timer.value;
              && s.state.timer.value.interval == t.interval
              && |s.events| as real * t.interval + s.state.timer.value.elapsed == t.elapsed + ms
  {
    if !m.Running() then
      Step(m, [])
    else
      var t := m.timer.value;
      var pending := t.elapsed + ms;
      var fired := VirtualClock.Periods(pending, t.interval);
      Step(m.(timer := Some(t.(elapsed := VirtualClock.Remainder(pending, t.interval)))),
           Ticks(m.bpm, fired))
  }
}
