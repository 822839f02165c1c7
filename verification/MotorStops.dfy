/** What a stop condition does to the DC motor driver (dcmotor.cpp), and when the motor stays off.

    A stop runs the pending done callback.  On the way through zero that is the second ramp, which then
    starts at once; and a ramp step that is stopped by an end switch schedules its successor.
  */
module MotorStops {
  import opened Options
  import opened MotorRamps

  const OPEN := Ends(false, false)

  /** What can happen to a motor that nobody commands, and which end switches are closed then: a tick of
      the timer, an end switch that closes, too much current. */
  datatype Event = Tick(e: Ends) | EndSwitchCloses(e: Ends) | TooMuchCurrent(e: Ends)

  function AfterEvent(shape: Shape, m: Motor, event: Event): Motor {
    match event
    case Tick(e) => if Runnable(m) then Ticked(shape, e, m) else m
    case EndSwitchCloses(e) => StatusUpdated(shape, e, Halted(m), EndSwitchStop)
    case TooMuchCurrent(e) => if m.power > 0.0 then StatusUpdated(shape, e, Halted(m), OvercurrentStop) else m
  }

  function After(shape: Shape, m: Motor, events: seq<Event>): Motor {
    if events == [] then m
    else AfterEvent(shape, After(shape, m, events[..|events| - 1]), events[|events| - 1])
  }

  /** The motor has no power now nor after any further events. */
  ghost predicate StaysOff(shape: Shape, m: Motor) {
    forall events: seq<Event> :: After(shape, m, events).power == 0.0
  }

  function Ticks(es: seq<Ends>): seq<Event> {
    seq(|es|, i requires 0 <= i < |es| => Tick(es[i]))
  }

  lemma {:induction false} TicksAreEvents(shape: Shape, m: Motor, es: seq<Ends>)
    ensures After(shape, m, Ticks(es)) == AfterTicks(shape, m, es)
  {
    if es != [] {
      var n := |es| - 1;
      assert Ticks(es)[..n] == Ticks(es[..n]);
      TicksAreEvents(shape, m, es[..n]);
    }
  }

  lemma TicksGetOn(shape: Shape, m: Motor, es: seq<Ends>)
    requires AfterTicks(shape, m, es).power != 0.0
    ensures !StaysOff(shape, m)
  {
    TicksAreEvents(shape, m, es);
  }

  /** The pending callback is a second ramp that leads to some power. */
  predicate WillReverse(done: Callback) {
    done.RampThen? && Clamped(done.power) > 0.0
  }

  // ----- Being off and getting on again

  /** Off, and whatever ramp is scheduled has no power any more. */
  predicate Off(m: Motor) {
    && m.power == 0.0 && m.direction == 0 && !WillReverse(m.done)
    && (m.ticket.Some? ==> Powerless(m.ticket.value))
  }

  predicate Powerless(r: Ramp) {
    RampOk(r) && r.target == 0.0 && (r.start == 0.0 || r.stepNo + 1 >= r.steps)
  }

  lemma PowerlessStep(shape: Shape, r: Ramp)
    requires Powerless(r) && r.stepNo < r.steps
    ensures PowerAt(shape, r) == 0.0
  {
    FractionInRange(shape, r.exponent, r.stepNo, r.steps);
    BlendAtEnds(r.start, r.target);
  }

  /** Without a ramp to follow, a status update at most calls the client. */
  lemma Listened(shape: Shape, e: Ends, m: Motor, cause: StopCause)
    requires !m.done.RampThen?
    ensures var calls := if m.done == Client then [Report(m.power, m.direction, cause)] else [];
            StatusUpdated(shape, e, m, cause) == m.(cause := cause, done := NoCallback, calls := m.calls + calls)
  {
    assert StatusUpdated(shape, e, m, cause) == CalledBack(shape, e, m.(cause := cause, done := NoCallback), m.done);
  }

  /** Stopped with a ramp still scheduled. */
  predicate Stalled(m: Motor) {
    m.power == 0.0 && m.direction == 0 && !m.done.RampThen? && m.ticket.Some? && RampOk(m.ticket.value)
  }

  function Always(n: nat): seq<Ends> {
    seq(n, i => OPEN)
  }

  lemma {:induction false} StalledRunsOn(shape: Shape, m: Motor, k: nat)
    requires Stalled(m) && m.ticket.value.stepNo + k <= m.ticket.value.steps
    ensures var s, r := AfterTicks(shape, m, Always(k)), m.ticket.value;
            s == m.(power := s.power, ticket := Some(r.(stepNo := r.stepNo + k)))
  {
    if k > 0 {
      assert Always(k)[..k - 1] == Always(k - 1);
      StalledRunsOn(shape, m, k - 1);
    }
  }

  /** The scheduled ramp goes on without a direction and ends with its target power. */
  lemma StalledRampEnds(shape: Shape, m: Motor)
    requires Stalled(m)
    ensures var r := m.ticket.value;
            var s := AfterTicks(shape, m, Always(r.steps - r.stepNo + 1));
            s.power == r.target && s.direction == 0 && s.ticket == None
  {
    var r := m.ticket.value;
    var n: nat := r.steps - r.stepNo;
    assert Always(n + 1)[..n] == Always(n);
    StalledRunsOn(shape, m, n);
    var before := AfterTicks(shape, m, Always(n));
    Listened(shape, OPEN, Powered(before.(ticket := None), r.target, 0), NoCause);
  }

  lemma StalledGetsOn(shape: Shape, m: Motor)
    requires Stalled(m) && !Powerless(m.ticket.value)
    ensures !StaysOff(shape, m)
  {
    var r := m.ticket.value;
    if r.target > 0.0 {
      StalledRampEnds(shape, m);
      TicksGetOn(shape, m, Always(r.steps - r.stepNo + 1));
    } else {
      var es := [OPEN];
      assert es[..0] == [];
      FractionInRange(shape, r.exponent, r.stepNo, r.steps);
      PositiveInside(r.start, r.target, Fraction(shape, r.exponent, (r.stepNo + 1) as real / r.steps as real));
      assert AfterTicks(shape, m, es).power == PowerAt(shape, r);
      TicksGetOn(shape, m, es);
    }
  }

  lemma PoweredIsNotOff(shape: Shape, m: Motor)
    requires m.power != 0.0
    ensures !StaysOff(shape, m)
  {
    assert After(shape, m, []) == m;
  }

  // ----- What the callback does to a halted motor

  /** The second ramp as it starts from a halted motor. */
  function Second(done: Callback): Command
    requires done.RampThen?
  {
    Command(done.power, done.direction, done.time, done.exponent, done.client)
  }

  function Restarting(m: Motor, cause: StopCause): Motor {
    Halted(m).(done := NoCallback, cause := cause)
  }

  lemma CallbackRestarts(shape: Shape, e: Ends, m: Motor, cause: StopCause)
    requires m.done.RampThen?
    ensures var c, h := Second(m.done), Restarting(m, cause);
            StatusUpdated(shape, e, Halted(m), cause) == Stepped(shape, e, Ready(h, c), RampUp(h, c))
  {
    var c, h := Second(m.done), Restarting(m, cause);
    assert StatusUpdated(shape, e, Halted(m), cause) == CalledBack(shape, e, h, m.done) == Commanded(shape, e, h, c);
    StartsRightAway(shape, e, h, c);
  }

  /** The first step from standstill has power exactly if the ramp leads to some. */
  lemma FirstStepFromZero(shape: Shape, r: Ramp)
    requires RampOk(r) && r.start == 0.0 && r.stepNo == 0
    ensures PowerAt(shape, r) >= 0.0 && (PowerAt(shape, r) > 0.0 <==> r.target > 0.0)
  {
    FractionInRange(shape, r.exponent, 0, r.steps);
    StepPowerInRange(shape, r);
    BlendAtEnds(r.start, r.target);
    var f := Fraction(shape, r.exponent, 1 as real / r.steps as real);
    if f < 1.0 { PositiveInside(r.start, r.target, f); }
  }

  /** What a stop leaves behind: no ramp or a powerless one; a running motor in the other direction; or,
      if that is blocked as well, a motor stalled on the way there. */
  lemma AfterStop(shape: Shape, e: Ends, m: Motor, cause: StopCause)
    ensures var s := StatusUpdated(shape, e, Halted(m), cause);
            && (!WillReverse(m.done) ==> Off(s))
            && (WillReverse(m.done) && !Hits(e, m.done.direction) ==>
                  s.power > 0.0 && s.direction == m.done.direction && s.ticket.Some?
                  && s.cause == NoCause && s.calls == m.calls)
            && (WillReverse(m.done) && Hits(e, m.done.direction) ==>
                  Stalled(s) && s.ticket.value.target > 0.0)
  {
    if m.done.RampThen? {
      var c, h := Second(m.done), Restarting(m, cause);
      CallbackRestarts(shape, e, m, cause);
      FirstStepFromZero(shape, RampUp(h, c));
      Listened(shape, e, Halted(Ready(h, c)), EndSwitchStop);
    } else {
      Listened(shape, e, Halted(m), cause);
    }
  }

  lemma OffAfterTick(shape: Shape, e: Ends, m: Motor)
    requires Off(m) && Runnable(m)
    ensures Off(Ticked(shape, e, m))
  {
    var r, idle := m.ticket.value, m.(ticket := None);
    if r.stepNo < r.steps {
      PowerlessStep(shape, r);
    } else {
      assert Powered(idle, 0.0, 0) == Halted(idle);
      AfterStop(shape, e, idle, NoCause);
    }
  }

  lemma OffAfterEvent(shape: Shape, m: Motor, event: Event)
    requires Off(m)
    ensures Off(AfterEvent(shape, m, event))
  {
    match event
    case Tick(e) => if Runnable(m) { OffAfterTick(shape, e, m); }
    case EndSwitchCloses(e) => AfterStop(shape, e, m, EndSwitchStop);
    case TooMuchCurrent(_) =>
  }

  lemma {:induction false} OffStaysOff(shape: Shape, m: Motor, events: seq<Event>)
    requires Off(m)
    ensures Off(After(shape, m, events))
  {
    if events != [] {
      var n := |events| - 1;
      OffStaysOff(shape, m, events[..n]);
      OffAfterEvent(shape, After(shape, m, events[..n]), events[n]);
    }
  }

  lemma OffMeansOff(shape: Shape, m: Motor)
    requires Off(m)
    ensures StaysOff(shape, m)
  {
    forall events: seq<Event>
      ensures After(shape, m, events).power == 0.0
    {
      OffStaysOff(shape, m, events);
    }
  }

  /** For a motor that is stopped with a ramp scheduled. */
  lemma StalledStaysOffIff(shape: Shape, m: Motor)
    requires Stalled(m)
    ensures StaysOff(shape, m) <==> Powerless(m.ticket.value)
  {
    if Powerless(m.ticket.value) {
      OffMeansOff(shape, m);
    } else {
      StalledGetsOn(shape, m);
    }
  }

  // ----- When a stop lasts

  /** Main result on a stop by the client: stop() leaves the pending callback in place, and the next end
      switch event runs it.  The stop lasts exactly if that is no second ramp to some power. */
  lemma ClientStopLastsIff(shape: Shape, m: Motor)
    ensures StaysOff(shape, Halted(m)) <==> !WillReverse(m.done)
  {
    if WillReverse(m.done) {
      var events := [EndSwitchCloses(OPEN)];
      assert events[..0] == [];
      assert Halted(Halted(m)) == Halted(m);
      AfterStop(shape, OPEN, m, EndSwitchStop);
      assert After(shape, Halted(m), events).power > 0.0;
    } else {
      OffMeansOff(shape, Halted(m));
    }
  }

  /** Main result on stops between ramp steps, by overcurrent or by an end switch event: the motor is and
      stays off exactly if it was not on its way to another direction. */
  lemma StopLastsIff(shape: Shape, e: Ends, m: Motor, cause: StopCause)
    ensures StaysOff(shape, StatusUpdated(shape, e, Halted(m), cause)) <==> !WillReverse(m.done)
  {
    var s := StatusUpdated(shape, e, Halted(m), cause);
    AfterStop(shape, e, m, cause);
    if !WillReverse(m.done) {
      OffMeansOff(shape, s);
    } else if Hits(e, m.done.direction) {
      StalledGetsOn(shape, s);
    } else {
      PoweredIsNotOff(shape, s);
    }
  }

  /** Main result on stops by a ramp step that meets a closed end switch: the motor is and stays off
      exactly if it was on its way down to zero, one step before the last, and no other direction was
      to follow that is free. */
  lemma StepStopLastsIff(shape: Shape, e: Ends, m: Motor, r: Ramp)
    requires RampOk(r) && r.stepNo < r.steps && PowerAt(shape, r) > 0.0 && Hits(e, m.direction)
    ensures StaysOff(shape, Stepped(shape, e, m, r)) <==>
              && r.target == 0.0 && r.stepNo + 2 == r.steps
              && !(WillReverse(m.done) && !Hits(e, m.done.direction))
  {
    var u, s := StatusUpdated(shape, e, Halted(m), EndSwitchStop), Stepped(shape, e, m, r);
    assert s == u.(ticket := Some(Later(r)));
    AfterStop(shape, e, m, EndSwitchStop);
    if WillReverse(m.done) && !Hits(e, m.done.direction) {
      PoweredIsNotOff(shape, s);
    } else {
      NotThereYet(shape, r);
      AfterStopNoRamp(shape, e, m, EndSwitchStop);
      StalledStaysOffIff(shape, s);
    }
  }

  /** A step with power is not the first of a ramp from nothing to nothing, nor the last down to zero. */
  lemma NotThereYet(shape: Shape, r: Ramp)
    requires RampOk(r) && r.stepNo < r.steps && PowerAt(shape, r) > 0.0
    ensures r.target == 0.0 ==> r.start > 0.0 && r.stepNo + 2 <= r.steps
  {
    if r.target == 0.0 && (r.start == 0.0 || r.stepNo + 1 == r.steps) {
      PowerlessStep(shape, r);
    }
  }

  /** A stop leaves no further ramp behind. */
  lemma AfterStopNoRamp(shape: Shape, e: Ends, m: Motor, cause: StopCause)
    ensures !StatusUpdated(shape, e, Halted(m), cause).done.RampThen?
  {
    if m.done.RampThen? {
      var c, h := Second(m.done), Restarting(m, cause);
      CallbackRestarts(shape, e, m, cause);
      Listened(shape, e, Halted(Ready(h, c)), EndSwitchStop);
    } else {
      Listened(shape, e, Halted(m), cause);
    }
  }

  /** Main result on stops by the last step of a ramp: as between steps. */
  lemma LastStepStopLastsIff(shape: Shape, e: Ends, m: Motor, r: Ramp)
    requires r.target > 0.0 && Hits(e, m.direction)
    ensures StaysOff(shape, Finished(shape, e, m, r)) <==> !WillReverse(m.done)
  {
    var u := StatusUpdated(shape, e, Halted(m), EndSwitchStop);
    var s := StatusUpdated(shape, e, u, NoCause);
    assert Finished(shape, e, m, r) == s;
    AfterStop(shape, e, m, EndSwitchStop);
    AfterStopNoRamp(shape, e, m, EndSwitchStop);
    Listened(shape, e, u, NoCause);
    if !WillReverse(m.done) {
      OffMeansOff(shape, s);
    } else if Hits(e, m.done.direction) {
      StalledGetsOn(shape, s);
    } else {
      PoweredIsNotOff(shape, s);
    }
  }

  /** Who hears of a stop: a client waiting for the end of the ramp is called with no power, no direction
      and the cause; on the way to another direction, if that is free, nobody is called and the cause is
      forgotten. */
  lemma StopIsReported(shape: Shape, e: Ends, m: Motor, cause: StopCause)
    ensures var s := StatusUpdated(shape, e, Halted(m), cause);
            && (m.done == Client ==> s.calls == m.calls + [Report(0.0, 0, cause)] && s.cause == cause)
            && (m.done == NoCallback ==> s.calls == m.calls && s.cause == cause)
            && (m.done.RampThen? && !Hits(e, m.done.direction) ==> s.calls == m.calls && s.cause == NoCause)
  {
    if m.done.RampThen? {
      CallbackRestarts(shape, e, m, cause);
    } else {
      Listened(shape, e, Halted(m), cause);
    }
  }
}
