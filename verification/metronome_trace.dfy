/**
 * Sequences of calls on a `Metronome` and the event traces they produce.
 *
 * A trace is judged by an automaton over `Idle` and `Active(bpm)`: `start` is allowed only while
 * idle and opens a run at its bpm, `tick` only inside a run and with that
 * run's bpm, `stop` only inside a run and closes it. Every sequence of calls
 * produces a trace the automaton accepts, which is the ordering promise of the
 * class: no `tick` outside a run, and each `tick` carries the bpm its run
 * started with.
 */
module MetronomeTrace {
  import opened Wrappers
  import opened MetronomeMachine
  import VirtualClock

  /** Where the automaton is: between runs, or inside a run started at `bpm`. */
  datatype Phase = Idle | Active(bpm: real)

  function PhaseOf(m: Metronome): Phase {
    if m.Running() then Active(m.bpm) else Idle
  }

  /** One automaton step; `None` when the event is not allowed in phase `p`. */
  function Accept(p: Phase, e: Event): Option<Phase> {
    match e
    case Started(b) => if p.Idle? then Some(Active(b)) else None
    case Ticked(b) => if p == Active(b) then Some(p) else None
    case Stopped => if p.Active? then Some(Idle) else None
  }

  /** Runs the automaton over a whole trace. */
  function Accepts(p: Phase, t: seq<Event>): Option<Phase>
    decreases |t|
  {
    if t == [] then Some(p)
    else
      match Accept(p, t[0])
      case None => None
      case Some(q) => Accepts(q, t[1..])
  }

  /** Accepting a concatenation is accepting its halves one after the other. */
  lemma {:induction false} AcceptsConcat(p: Phase, a: seq<Event>, b: seq<Event>)
    ensures Accepts(p, a + b) ==
            (match Accepts(p, a)
             case None => None
             case Some(q) => Accepts(q, b))
    decreases |a|
  {
    if a == [] {
      assert a + b == b;
    } else {
      assert (a + b)[0] == a[0];
      assert (a + b)[1..] == a[1..] + b;
      match Accept(p, a[0])
      case None =>
        assert Accepts(p, a) == None;
        assert Accepts(p, a + b) == None;
      case Some(q) =>
        assert Accepts(p, a) == Accepts(q, a[1..]);
        assert Accepts(p, a + b) == Accepts(q, a[1..] + b);
        AcceptsConcat(q, a[1..], b);
    }
  }

  /** Any number of ticks at a run's bpm keeps the automaton inside that run. */
  lemma {:induction false} TicksAccepted(b: real, n: nat)
    ensures Accepts(Active(b), Ticks(b, n)) == Some(Active(b))
  {
    if n > 0 {
      assert Ticks(b, n)[1..] == Ticks(b, n - 1);
      TicksAccepted(b, n - 1);
    }
  }

  /** The calls a program can make on a metronome, and the fake-timer controls. */
  datatype Command =
    | StartCall                  // metronome.start()
    | StopCall                   // metronome.stop()
    | SetBpmCall(v: JsValue)     // metronome.bpm = v
    | RunPendingTimers           // fire the pending interval callback, if any
    | AdvanceTimers(ms: nat)     // let ms milliseconds of virtual time pass

  /** One command; only the setter can throw. */
  function Exec(m: Metronome, c: Command): (r: Result<Step, BpmError>)
    requires Valid(m)
    ensures r.Ok? ==> Valid(r.value.state)
    ensures r.Err? ==> c.SetBpmCall?
  {
    match c
    case StartCall => Ok(Start(m))
    case StopCall => Ok(Stop(m))
    case SetBpmCall(v) => SetBpm(m, v)
    case RunPendingTimers =>
      (match NextTick(m)
       case Some(s) => Ok(s)
       case None => Ok(Step(m, [])))
    case AdvanceTimers(ms) => Ok(Advance(m, ms as real))
  }

  /** A sequence of calls cut short by a throw: the events listeners already got, and the error. */
  datatype Thrown = Thrown(events: seq<Event>, error: BpmError)

  /**
   * Commands one after the other, collecting the events. The first thrown
   * error ends the sequence, as an uncaught exception would; the events
   * emitted before it have already been delivered and are reported with it.
   */
  function Run(m: Metronome, cs: seq<Command>): (r: Result<Step, Thrown>)
    requires Valid(m)
    ensures r.Ok? ==> Valid(r.value.state)
    ensures r.Err? ==> exists i :: 0 <= i < |cs| && cs[i].SetBpmCall?
    decreases |cs|
  {
    if cs == [] then Ok(Step(m, []))
    else
      match Exec(m, cs[0])
      case Err(e) => Err(Thrown([], e))
      case Ok(s) =>
        match Run(s.state, cs[1..])
        case Err(f) => Err(Thrown(s.events + f.events, f.error))
        case Ok(rest) => Ok(Step(rest.state, s.events + rest.events))
  }

  /** The events listeners received, whether the sequence completed or was cut short by a throw. */
  function Delivered(r: Result<Step, Thrown>): seq<Event> {
    match r
    case Ok(s) => s.events
    case Err(t) => t.events
  }

  /**
   * A failed sequence is a successful prefix followed by one throwing call:
   * the error is that call's error, and the events reported with it are
   * exactly those of the prefix.
   */
  lemma {:induction false} RunErrIsPrefix(m: Metronome, cs: seq<Command>)
    requires Valid(m) && Run(m, cs).Err?
    ensures exists i :: 0 <= i < |cs| && Run(m, cs[..i]).Ok? &&
              Exec(Run(m, cs[..i]).value.state, cs[i]) == Err(Run(m, cs).error.error) &&
              Run(m, cs).error.events == Run(m, cs[..i]).value.events
    decreases |cs|
  {
    assert cs[..0] == [];
    match Exec(m, cs[0])
    case Err(e) =>
      assert Run(m, cs[..0]) == Ok(Step(m, []));
    case Ok(s) =>
      RunErrIsPrefix(s.state, cs[1..]);
      var i :| 0 <= i < |cs[1..]| && Run(s.state, cs[1..][..i]).Ok? &&
                Exec(Run(s.state, cs[1..][..i]).value.state, cs[1..][i]) == Err(Run(s.state, cs[1..]).error.error) &&
                Run(s.state, cs[1..]).error.events == Run(s.state, cs[1..][..i]).value.events;
      var prefix := cs[..i + 1];
      assert prefix[0] == cs[0] && prefix[1..] == cs[1..][..i];
      assert Run(m, prefix).value.state == Run(s.state, cs[1..][..i]).value.state;
      assert cs[i + 1] == cs[1..][i];
  }

  /** A bpm change emits nothing, or `stop` then `start` at the new bpm: an accepted trace. */
  lemma SetBpmTraceAccepted(m: Metronome, v: JsValue)
    requires Valid(m)
    requires SetBpm(m, v).Ok?
    ensures Accepts(PhaseOf(m), SetBpm(m, v).value.events) == Some(PhaseOf(SetBpm(m, v).value.state))
  {
    var s := SetBpm(m, v).value;
    if v != Number(m.bpm) && m.Running() {
      assert s.events == [Stopped, Started(v.n)];
      assert Accepts(Active(v.n), s.events[1..][1..]) == Some(Active(v.n));
      assert Accepts(Idle, s.events[1..]) == Some(Active(v.n));
    }
  }

  /** Letting time pass emits ticks at the run's bpm only: an accepted trace. */
  lemma AdvanceTraceAccepted(m: Metronome, ms: real)
    requires Valid(m) && ms >= 0.0
    ensures Accepts(PhaseOf(m), Advance(m, ms).events) == Some(PhaseOf(Advance(m, ms).state))
  {
    var s := Advance(m, ms);
    if m.Running() {
      assert s.events == Ticks(m.bpm, |s.events|);
      TicksAccepted(m.bpm, |s.events|);
    }
  }

  /** Each single command emits a trace the automaton accepts, ending in the new state's phase. */
  lemma ExecTraceAccepted(m: Metronome, c: Command)
    requires Valid(m)
    requires Exec(m, c).Ok?
    ensures Accepts(PhaseOf(m), Exec(m, c).value.events) == Some(PhaseOf(Exec(m, c).value.state))
  {
    match c
    case StartCall =>
    case StopCall =>
    case SetBpmCall(v) => SetBpmTraceAccepted(m, v);
    case RunPendingTimers =>
    case AdvanceTimers(ms) => AdvanceTraceAccepted(m, ms as real);
  }

  /**
   * Every sequence of calls, from any reachable state, emits a trace the
   * automaton accepts, ending in the phase of the final state; a sequence
   * cut short by a throw has emitted an accepted trace up to the throw.
   */
  lemma {:induction false} RunTraceAccepted(m: Metronome, cs: seq<Command>)
    requires Valid(m)
    ensures Run(m, cs).Ok? ==>
              Accepts(PhaseOf(m), Run(m, cs).value.events) == Some(PhaseOf(Run(m, cs).value.state))
    ensures Run(m, cs).Err? ==> Accepts(PhaseOf(m), Run(m, cs).error.events).Some?
    decreases |cs|
  {
    if cs != [] && Exec(m, cs[0]).Ok? {
      var s := Exec(m, cs[0]).value;
      ExecTraceAccepted(m, cs[0]);
      RunTraceAccepted(s.state, cs[1..]);
      match Run(s.state, cs[1..])
      case Ok(rest) => AcceptsConcat(PhaseOf(m), s.events, rest.events);
      case Err(f) => AcceptsConcat(PhaseOf(m), s.events, f.events);
    }
  }

  /** In an accepted trace, the event right after a `stop` is a `start`. */
  lemma {:induction false} StopIsFollowedByStart(p: Phase, t: seq<Event>, i: nat)
    requires Accepts(p, t).Some?
    requires i + 1 < |t| && t[i] == Stopped
    ensures t[i + 1].Started?
    decreases |t|
  {
    var q := Accept(p, t[0]).value;
    assert Accepts(q, t[1..]).Some?;
    if i == 0 {
      assert q == Idle;
      assert Accept(Idle, t[1..][0]).Some?;
    } else {
      StopIsFollowedByStart(q, t[1..], i - 1);
    }
  }

  /**
   * In an accepted trace every `tick` carries the bpm of the run it belongs
   * to: either the run the trace began in, or the last `start` before it, with
   * no `stop` in between.
   */
  lemma {:induction false} TickBelongsToRun(p: Phase, t: seq<Event>, j: nat)
    requires Accepts(p, t).Some?
    requires j < |t| && t[j].Ticked?
    ensures || (p == Active(t[j].bpm) && forall k :: 0 <= k < j ==> t[k] != Stopped)
            || (exists i :: 0 <= i < j && t[i] == Started(t[j].bpm) &&
                  forall k :: i < k < j ==> t[k] != Stopped)
    decreases |t|
  {
    var q := Accept(p, t[0]).value;
    if j > 0 {
      assert Accepts(q, t[1..]).Some?;
      TickBelongsToRun(q, t[1..], j - 1);
      if q == Active(t[j].bpm) && forall k :: 0 <= k < j - 1 ==> t[1..][k] != Stopped {
        match t[0]
        case Started(b) =>
          assert t[0] == Started(t[j].bpm);
          assert forall k :: 0 < k < j ==> t[k] == t[1..][k - 1];
        case Ticked(b) =>
          assert forall k :: 0 < k < j ==> t[k] == t[1..][k - 1];
        case Stopped =>
          assert false;
      } else {
        var i' :| 0 <= i' < j - 1 && t[1..][i'] == Started(t[j].bpm) &&
                  forall k :: i' < k < j - 1 ==> t[1..][k] != Stopped;
        assert t[i' + 1] == Started(t[j].bpm);
        assert forall k :: i' + 1 < k < j ==> t[k] == t[1..][k - 1];
      }
    }
  }

  /**
   * A fresh metronome has never started, so every tick it ever emits follows a
   * `start`, also when a later call throws.
   */
  lemma TicksFollowAStart(cs: seq<Command>, j: nat)
    requires j < |Delivered(Run(New(), cs))| && Delivered(Run(New(), cs))[j].Ticked?
    ensures var t := Delivered(Run(New(), cs));
            exists i :: 0 <= i < j && t[i] == Started(t[j].bpm) &&
              forall k :: i < k < j ==> t[k] != Stopped
  {
    RunTraceAccepted(New(), cs);
    TickBelongsToRun(Idle, Delivered(Run(New(), cs)), j);
  }

  /**
   * On a fresh metronome, whatever the calls, the event right after a `stop`
   * is a `start`, also when a later call throws.
   */
  lemma StopsFollowedByStart(cs: seq<Command>, i: nat)
    requires i + 1 < |Delivered(Run(New(), cs))| && Delivered(Run(New(), cs))[i] == Stopped
    ensures Delivered(Run(New(), cs))[i + 1].Started?
  {
    RunTraceAccepted(New(), cs);
    StopIsFollowedByStart(Idle, Delivered(Run(New(), cs)), i);
  }

  /** Firing the pending callback is letting exactly the rest of the current period pass. */
  lemma NextTickIsAdvance(m: Metronome)
    requires Valid(m) && m.Running()
    ensures var t := m.timer.value;
            NextTick(m) == Some(Advance(m, t.interval - t.elapsed))
  {
    var t := m.timer.value;
    VirtualClock.PeriodsUnique(t.interval, t.interval, 1);
    assert Ticks(m.bpm, 1) == [Ticked(m.bpm)];
  }

  /** Advancing by `a` then by `b` is advancing by `a + b`: same state, same ticks. */
  lemma AdvanceAdditive(m: Metronome, a: real, b: real)
    requires Valid(m) && a >= 0.0 && b >= 0.0
    ensures var first := Advance(m, a);
            var second := Advance(first.state, b);
            second.state == Advance(m, a + b).state &&
            first.events + second.events == Advance(m, a + b).events
  {
  }

  /**
   * From a fresh `start()`, letting `ms` pass yields one tick per whole
   * interval `60000 / bpm` in `ms`, each carrying the bpm.
   */
  lemma TicksAfterStart(m: Metronome, ms: real)
    requires Valid(m) && !m.Running() && ms >= 0.0
    ensures var s := Advance(Start(m).state, ms);
            && |s.events| as real * (60000.0 / m.bpm) <= ms < (|s.events| + 1) as real * (60000.0 / m.bpm)
            && s.events == Ticks(m.bpm, |s.events|)
  {
  }

  /** Three seconds at 120 bpm is six ticks. */
  lemma ThreeSecondsAt120()
    ensures var m := Metronome(120.0, Some(Timer(Interval(120.0), 0.0)));
            Advance(m, 3000.0).events == Ticks(120.0, 6)
  {
  }

  /**
   * The recorded setter cases: a string throws `TypeError`, zero throws
   * `RangeError`, `bpm++` while stopped emits nothing and stays stopped,
   * re-assigning the same bpm while running emits nothing, and `bpm++` while
   * running emits `stop` then `start` with the new bpm. A throw after
   * `start()` leaves the `start` event delivered.
   */
  lemma RecordedSetterCases()
    ensures Run(New(), [SetBpmCall(NonNumber)]) == Err(Thrown([], TypeError))
    ensures Run(New(), [SetBpmCall(Number(0.0))]) == Err(Thrown([], RangeError))
    ensures Run(New(), [StartCall, SetBpmCall(NonNumber)]) == Err(Thrown([Started(60.0)], TypeError))
    ensures Run(New(), [SetBpmCall(Number(61.0))]) == Ok(Step(Metronome(61.0, None), []))
    ensures Run(New(), [StartCall, SetBpmCall(Number(60.0))]).value.events == [Started(60.0)]
    ensures Run(New(), [StartCall, SetBpmCall(Number(61.0))]).value.events
            == [Started(60.0), Stopped, Started(61.0)]
  {
    var running60 := Start(New()).state;
    assert [StartCall, SetBpmCall(NonNumber)][1..] == [SetBpmCall(NonNumber)];
    assert Run(running60, [SetBpmCall(NonNumber)]) == Err(Thrown([], TypeError));
    assert [Started(60.0)] + [] == [Started(60.0)];
    assert [StartCall, SetBpmCall(Number(60.0))][1..] == [SetBpmCall(Number(60.0))];
    assert [StartCall, SetBpmCall(Number(61.0))][1..] == [SetBpmCall(Number(61.0))];
    assert [SetBpmCall(Number(60.0))][1..] == [];
    assert Exec(running60, SetBpmCall(Number(60.0))) == Ok(Step(running60, []));
    var none: seq<Event> := [];
    assert Run(running60, []) == Ok(Step(running60, none));
    assert none + none == none;
    assert Run(running60, [SetBpmCall(Number(60.0))]) == Ok(Step(running60, []));
    assert [SetBpmCall(Number(61.0))][1..] == [];
    assert Run(running60, [SetBpmCall(Number(61.0))]).value.events == [Stopped, Started(61.0)];
  }

  /**
   * The golden-path scenario: start at the default bpm, fire the pending
   * tick, double the bpm, fire the pending tick, let three seconds pass, stop.
   */
  lemma GoldenPath()
    ensures Run(New(), [StartCall, RunPendingTimers, SetBpmCall(Number(120.0)),
                        RunPendingTimers, AdvanceTimers(3000), StopCall])
            == Ok(Step(Metronome(120.0, None),
                       [Started(60.0), Ticked(60.0), Stopped, Started(120.0), Ticked(120.0)]
                       + Ticks(120.0, 6) + [Stopped]))
  {
    var running60 := Metronome(60.0, Some(Timer(Interval(60.0), 0.0)));
    var running120 := Metronome(120.0, Some(Timer(Interval(120.0), 0.0)));
    var stopped120 := Metronome(120.0, None);
    ThreeSecondsAt120();
    var after := Advance(running120, 3000.0).state;
    assert after.Running();
    assert Run(Stop(after).state, []) == Ok(Step(stopped120, []));
    assert [StopCall][1..] == [];
    assert Exec(after, StopCall) == Ok(Step(stopped120, [Stopped]));
    assert [Stopped] + [] == [Stopped];
    assert Run(after, [StopCall]) == Ok(Step(stopped120, [Stopped]));
    assert Run(running120, [AdvanceTimers(3000), StopCall])
        == Ok(Step(stopped120, Ticks(120.0, 6) + [Stopped]));
    assert Run(running120, [RunPendingTimers, AdvanceTimers(3000), StopCall])
        == Ok(Step(stopped120, [Ticked(120.0)] + (Ticks(120.0, 6) + [Stopped])));
    assert SetBpm(running60, Number(120.0)) == Ok(Step(running120, [Stopped, Started(120.0)]));
    assert Run(running60, [SetBpmCall(Number(120.0)), RunPendingTimers, AdvanceTimers(3000), StopCall])
        == Ok(Step(stopped120, [Stopped, Started(120.0)] + ([Ticked(120.0)] + (Ticks(120.0, 6) + [Stopped]))));
    assert Run(running60, [RunPendingTimers, SetBpmCall(Number(120.0)), RunPendingTimers, AdvanceTimers(3000), StopCall])
        == Ok(Step(stopped120, [Ticked(60.0)] + ([Stopped, Started(120.0)] + ([Ticked(120.0)] + (Ticks(120.0, 6) + [Stopped])))));
    var cs := [StartCall, RunPendingTimers, SetBpmCall(Number(120.0)),
               RunPendingTimers, AdvanceTimers(3000), StopCall];
    assert cs[1..] == [RunPendingTimers, SetBpmCall(Number(120.0)), RunPendingTimers, AdvanceTimers(3000), StopCall];
    assert Exec(New(), StartCall) == Ok(Step(running60, [Started(60.0)]));
    assert [Started(60.0)] + ([Ticked(60.0)] + ([Stopped, Started(120.0)] + ([Ticked(120.0)] + (Ticks(120.0, 6) + [Stopped]))))
        == [Started(60.0), Ticked(60.0), Stopped, Started(120.0), Ticked(120.0)] + Ticks(120.0, 6) + [Stopped];
  }
}
