/** The DC motor driver of dcmotor.cpp, over the real numbers.

    `outputs` is a ghost record of the state of the three outputs after each single write to one of
    them.  Callbacks of clients may issue any commands; they nest up to an arbitrary depth.  As long as
    clients only listen, every method does exactly what the functions of MotorRamps say.
  */
module DcMotor {
  import opened Options
  import opened MotorRamps
  import opened MotorStops

  datatype EndSwitch = Missing | Open | Closed

  // ----- The outputs

  datatype Output = Output(pwm: real, cw: bool, ccw: bool)

  /** Both half bridges are never on together. */
  predicate NeverBoth(outputs: seq<Output>) {
    forall i :: 0 <= i < |outputs| ==> !(outputs[i].cw && outputs[i].ccw)
  }

  /** Direction lines change only without power. */
  predicate Interlocked(outputs: seq<Output>) {
    forall i :: 0 < i < |outputs| ==>
      outputs[i - 1].cw != outputs[i].cw || outputs[i - 1].ccw != outputs[i].ccw
      ==> outputs[i - 1].pwm == 0.0 && outputs[i].pwm == 0.0
  }

  /** From n on the power is one of two values. */
  predicate Steady(outputs: seq<Output>, n: nat, p: real, q: real) {
    forall i :: n <= i < |outputs| ==> outputs[i].pwm == p || outputs[i].pwm == q
  }

  predicate Safe(outputs: seq<Output>) {
    NeverBoth(outputs) && Interlocked(outputs)
  }

  /** How deep callbacks nest after a stop. */
  function Nesting(done: Callback): nat {
    match done
    case NoCallback => 0
    case Client => 1
    case RampThen(_, _, _, _, _) => 2
  }

  /** A second ramp from a running motor may go through zero again. */
  function Extra(m: Motor): nat {
    if m.done.RampThen? && m.power != 0.0 then 1 else 0
  }

  class DcMotorDriver {
    const hasCW: bool
    const hasCCW: bool
    const hasSensor: bool
    const clientsAct: bool  // whether callbacks issue commands
    const bouncing: bool    // whether end switches change while an event is handled
    const shape: Shape
    var pwm: real
    var cw: bool
    var ccw: bool
    var powerOffset: real
    var powerScaling: real
    var currentDirection: int
    var currentPower: real
    var stopCause: StopCause
    var rampDone: Callback
    var sequenceTicket: Option<Ramp>
    var hasStopCallback: bool
    var stopCurrent: real
    var holdoffTime: int
    var maxStartCurrent: real
    var startMonitoring: int
    var clock: int
    var sampling: bool
    var positiveEnd: EndSwitch
    var negativeEnd: EndSwitch
    ghost var outputs: seq<Output>
    ghost var calls: seq<Report>    // calls of the done callback
    ghost var reports: seq<Report>  // calls of the stop callback

    ghost function State(): Motor
      reads this
    {
      Motor(currentPower, currentDirection, sequenceTicket, rampDone, stopCause, calls)
    }

    /** Running away from a closed switch is possible. */
    static predicate FreeToRun(direction: int, negative: EndSwitch, positive: EndSwitch): (r: bool)
      ensures direction == 0 ==> r
      ensures direction < 0 ==> (r <==> negative != EndSwitch.Closed)
      ensures direction > 0 ==> (r <==> positive != EndSwitch.Closed)
    {
      !Hits(Ends(positive == EndSwitch.Closed, negative == EndSwitch.Closed), direction)
    }

    function Closed(): Ends
      reads this`positiveEnd, this`negativeEnd
    {
      Ends(positiveEnd == EndSwitch.Closed, negativeEnd == EndSwitch.Closed)
    }

    /** Clients only listen, and the end switches change between events only. */
    predicate Calm() {
      !clientsAct && !bouncing
    }

    /** The direction lines show the current direction. */
    ghost predicate LinesMatch()
      reads this
    {
      if hasCW then cw == (currentDirection > 0) && ccw == (hasCCW && currentDirection < 0) else !cw && !ccw
    }

    /** Also holds while a direction has been set for a standing motor. */
    ghost predicate Coherent()
      reads this
    {
      && LinesMatch()
      && outputs != [] && outputs[|outputs| - 1] == Output(pwm, cw, ccw) && Safe(outputs)
      && currentPower >= 0.0 && (currentPower == 0.0 ==> pwm == 0.0)
      && (sequenceTicket.Some? ==> RampOk(sequenceTicket.value))
    }

    /** Without power there is no direction either. */
    ghost predicate Valid()
      reads this
    {
      Coherent() && (currentPower == 0.0 ==> currentDirection == 0)
    }

    twostate predicate Grows()
      reads this
    {
      old(outputs) <= outputs && old(reports) <= reports && (Calm() ==> Closed() == old(Closed()))
    }

    constructor (hasCW: bool, hasCCW: bool, hasSensor: bool, clientsAct: bool, bouncing: bool, shape: Shape,
                 pwm: real, cw: bool, ccw: bool)
      requires !(cw && ccw) && (!hasCW ==> !cw && !ccw) && (!hasCCW ==> !ccw)
      ensures Valid() && State() == Motor(0.0, 0, None, NoCallback, NoCause, []) && Closed() == OPEN
      ensures this.clientsAct == clientsAct && this.bouncing == bouncing && this.shape == shape
      ensures powerOffset == 0.0 && powerScaling == 1.0 && !hasStopCallback && !sampling
      ensures stopCurrent == maxStartCurrent == 0.0 && holdoffTime == 0
    {
      this.hasCW, this.hasCCW, this.hasSensor := hasCW, hasCCW, hasSensor;
      this.clientsAct, this.bouncing, this.shape := clientsAct, bouncing, shape;
      this.pwm, this.cw, this.ccw := pwm, cw, ccw;
      powerOffset, powerScaling, currentDirection, currentPower := 0.0, 1.0, 0, 0.0;
      stopCause, rampDone, sequenceTicket, hasStopCallback := NoCause, NoCallback, None, false;
      stopCurrent, holdoffTime, maxStartCurrent, startMonitoring, sampling := 0.0, 0, 0.0, 0, false;
      clock := 0;
      positiveEnd, negativeEnd := Missing, Missing;
      outputs, calls, reports := [Output(pwm, cw, ccw)], [], [];
      new;
      SetPwm(0.0);
      SetDirection(0);
    }

    method SetPwm(value: real)
      requires outputs != [] && outputs[|outputs| - 1] == Output(pwm, cw, ccw) && Safe(outputs)
      modifies this`pwm, this`outputs
      ensures pwm == value && outputs == old(outputs) + [Output(pwm, cw, ccw)] && Safe(outputs)
    {
      pwm := value;
      outputs := outputs + [Output(pwm, cw, ccw)];
    }

    method SetDirection(direction: int)
      requires outputs != [] && outputs[|outputs| - 1] == Output(pwm, cw, ccw) && Safe(outputs)
      requires !hasCW ==> !cw && !ccw
      requires !hasCCW ==> !ccw
      requires pwm == 0.0 || (direction == currentDirection && LinesMatch())
      requires direction > 0 ==> !ccw
      modifies this`cw, this`ccw, this`currentDirection, this`outputs
      ensures currentDirection == direction && LinesMatch()
      ensures old(outputs) <= outputs && outputs[|outputs| - 1] == Output(pwm, cw, ccw) && Safe(outputs)
      ensures Steady(outputs, |old(outputs)|, pwm, pwm)
    {
      if hasCW {
        cw := direction > 0;
        outputs := outputs + [Output(pwm, cw, ccw)];
        if hasCCW {
          ccw := direction < 0;
          outputs := outputs + [Output(pwm, cw, ccw)];
        }
      }
      if direction != currentDirection { currentDirection := direction; }
    }

    /** Power off (completely, also with a power offset), then hold. */
    method Halt()
      requires Coherent()
      modifies this`pwm, this`cw, this`ccw, this`currentDirection, this`outputs
      ensures Coherent() && Grows() && pwm == 0.0 && currentDirection == 0
    {
      SetPwm(0.0);
      SetDirection(0);
    }

    /** Power off before a change between the two directions. */
    method AvoidReversal(direction: int)
      requires Coherent()
      requires direction == currentDirection || pwm == 0.0 || (direction != 0 && currentDirection != 0)
      modifies this`pwm, this`cw, this`ccw, this`currentDirection, this`outputs
      ensures Coherent() && Grows()
      ensures direction == currentDirection || pwm == 0.0
      ensures direction > 0 ==> !ccw
      // unless the directions are opposite, nothing is written
      ensures direction == old(currentDirection) || direction == 0 || old(currentDirection) == 0 ==>
                outputs == old(outputs) && pwm == old(pwm) && currentDirection == old(currentDirection)
    {
      if currentDirection != 0 && direction != 0 && direction != currentDirection {
        Halt();
      }
    }

    /** The callers never change the direction of a running motor without a stop in between. */
    method SetPower(depth: nat, power: real, direction: int)
      requires Coherent()
      requires power <= 0.0 || direction == currentDirection || pwm == 0.0 || (direction != 0 && currentDirection != 0)
      requires power >= 0.0
      modifies this
      ensures Valid() && Grows()
      ensures power <= 0.0 || FreeToRun(direction, old(negativeEnd), old(positiveEnd)) ==>
                && State() == Powered(old(State()), power, direction)
                && pwm == (if power <= 0.0 then 0.0 else powerOffset + power * powerScaling)
                && unchanged(`reports, `hasStopCallback)
      // in the same direction the power changes at once
      ensures power > 0.0 && FreeToRun(direction, old(negativeEnd), old(positiveEnd))
              && direction == old(currentDirection) ==>
                Steady(outputs, |old(outputs)|, old(pwm), pwm)
      ensures power <= 0.0 ==> !sampling
      ensures power > 0.0 && !FreeToRun(direction, old(negativeEnd), old(positiveEnd)) && Calm()
              && depth >= Nesting(old(rampDone)) ==>
                State() == StatusUpdated(shape, Closed(), Halted(old(State())), EndSwitchStop)
      // towards a closed end switch there is no power
      ensures power > 0.0 && direction < 0 && old(negativeEnd) == EndSwitch.Closed && Calm()
              && old(rampDone) == NoCallback ==>
                pwm == 0.0 && currentPower == 0.0 && currentDirection == 0 && stopCause == EndSwitchStop
      ensures power > 0.0 && direction > 0 && old(positiveEnd) == EndSwitch.Closed && Calm()
              && old(rampDone) == NoCallback ==>
                pwm == 0.0 && currentPower == 0.0 && currentDirection == 0 && stopCause == EndSwitchStop
      decreases if power <= 0.0 then 0 else depth, if power <= 0.0 then 0 else 7
    {
      if power <= 0.0 {
        PowerOff();
      } else {
        PowerOn(depth, power, direction);
      }
    }

    method PowerOff()
      requires Coherent()
      modifies this`pwm, this`cw, this`ccw, this`currentDirection, this`currentPower, this`outputs, this`sampling
      ensures Valid() && Grows() && !sampling && pwm == 0.0
      ensures currentPower == 0.0 && currentDirection == 0
    {
      Halt();
      sampling := false;
      if 0.0 != currentPower { currentPower := 0.0; }
    }

    method PowerOn(depth: nat, power: real, direction: int)
      requires Coherent() && power > 0.0
      requires direction == currentDirection || pwm == 0.0 || (direction != 0 && currentDirection != 0)
      modifies this
      ensures Valid() && Grows()
      ensures FreeToRun(direction, old(negativeEnd), old(positiveEnd)) ==>
                && State() == Powered(old(State()), power, direction)
                && pwm == powerOffset + power * powerScaling && unchanged(`reports, `hasStopCallback)
                && (direction == old(currentDirection) ==> Steady(outputs, |old(outputs)|, old(pwm), pwm))
      ensures !FreeToRun(direction, old(negativeEnd), old(positiveEnd)) && Calm() && depth >= Nesting(old(rampDone)) ==>
                State() == StatusUpdated(shape, Closed(), Halted(old(State())), EndSwitchStop)
      decreases depth, 6, 1
    {
      AvoidReversal(direction);
      DriveUnlessBlocked(depth, power, direction);
    }

    /** Power towards a closed end switch counts as running into it again. */
    method DriveUnlessBlocked(depth: nat, power: real, direction: int)
      requires Coherent() && power > 0.0
      requires direction == currentDirection || pwm == 0.0
      requires direction > 0 ==> !ccw
      modifies this
      ensures Valid() && Grows()
      ensures FreeToRun(direction, old(negativeEnd), old(positiveEnd)) ==>
                && State() == Powered(old(State()), power, direction)
                && pwm == powerOffset + power * powerScaling && unchanged(`reports, `hasStopCallback)
                && (direction == old(currentDirection) ==> Steady(outputs, |old(outputs)|, old(pwm), pwm))
      ensures !FreeToRun(direction, old(negativeEnd), old(positiveEnd)) && Calm() && depth >= Nesting(old(rampDone)) ==>
                State() == StatusUpdated(shape, Closed(), Halted(old(State())), EndSwitchStop)
      decreases depth, 6, 0
    {
      if (direction < 0 && negativeEnd == EndSwitch.Closed) || (direction > 0 && positiveEnd == EndSwitch.Closed) {
        OnEndSwitch(depth, direction > 0, true);
        return;
      }
      Drive(power, direction);
    }

    /** Sets direction and power; sampling of the current starts with the power. */
    method Drive(power: real, direction: int)
      requires Coherent() && power > 0.0
      requires direction == currentDirection || pwm == 0.0
      requires direction > 0 ==> !ccw
      modifies this`pwm, this`cw, this`ccw, this`currentDirection, this`currentPower, this`outputs,
               this`sampling, this`startMonitoring, this`clock
      ensures Valid() && Grows()
      ensures Monitors(direction, old(currentPower), old(clock), old(startMonitoring))
      ensures Steady(outputs, |old(outputs)|, old(pwm), pwm)
      ensures currentPower == power && currentDirection == direction && pwm == powerOffset + power * powerScaling
      ensures sampling ==
              (old(sampling) || (hasSensor && stopCurrent > 0.0 && direction != 0 && old(currentPower) == 0.0))
    {
      StartSampling(direction);
      Apply(power, direction);
    }

    method Apply(power: real, direction: int)
      requires Coherent() && power > 0.0
      requires direction == currentDirection || pwm == 0.0
      requires direction > 0 ==> !ccw
      modifies this`pwm, this`cw, this`ccw, this`currentDirection, this`currentPower, this`outputs
      ensures Valid() && Grows()
      ensures currentPower == power && currentDirection == direction && pwm == powerOffset + power * powerScaling
      ensures Steady(outputs, |old(outputs)|, old(pwm), pwm)
    {
      SetDirection(direction);
      SetPwm(powerOffset + power * powerScaling);
      if power != currentPower { currentPower := power; }
    }

    /** When power is first applied, the hold-off time begins. */
    predicate Monitors(direction: int, earlierPower: real, earlierClock: int, earlierStart: int)
      reads this
    {
      && clock >= earlierClock
      && startMonitoring == if hasSensor && stopCurrent > 0.0 && direction != 0 && earlierPower == 0.0
                            then clock + holdoffTime else earlierStart
    }

    /** The hold-off time begins when power is first applied. */
    method StartSampling(direction: int)
      modifies this`sampling, this`startMonitoring, this`clock
      ensures Monitors(direction, currentPower, old(clock), old(startMonitoring))
      ensures sampling ==
              (old(sampling) || (hasSensor && stopCurrent > 0.0 && direction != 0 && currentPower == 0.0))
    {
      if hasSensor && stopCurrent > 0.0 && direction != 0 && currentPower == 0.0 {
        var reading: int := *;
        if reading > clock { clock := reading; }
        startMonitoring := clock + holdoffTime;
        sampling := true;
      }
    }

    method Stop()
      requires Coherent()
      modifies this
      ensures Valid() && Grows() && pwm == 0.0 && !sampling
      ensures State() == Halted(old(State())) && unchanged(`reports, `hasStopCallback)
      decreases 0, 1
    {
      StopSequences();
      SetPower(0, 0.0, 0);
    }

    method StopSequences()
      requires Coherent()
      modifies this`sequenceTicket
      ensures sequenceTicket == None && Coherent() && (old(Valid()) ==> Valid())
    {
      sequenceTicket := None;
    }

    // ----- Events

    /** An end switch has changed; also called when it is found closed.  The stop callback gets the
        power and direction from before the stop. */
    method OnEndSwitch(depth: nat, positive: bool, newState: bool)
      requires Coherent() && (newState || Valid())
      modifies this
      ensures Valid() && Grows()
      ensures newState && old(hasStopCallback) ==>
                old(reports) + [Report(old(currentPower), old(currentDirection), EndSwitchStop)] <= reports
      ensures !newState ==> State() == old(State()) && outputs == old(outputs) && reports == old(reports)
      ensures newState && Calm() && depth >= Nesting(old(rampDone)) ==>
                State() == StatusUpdated(shape, Closed(), Halted(old(State())), EndSwitchStop)
      decreases depth, 5
    {
      if newState {
        var power, direction := currentPower, currentDirection;
        Stop();
        if bouncing { SwitchesChange(); }
        AutoStopped(depth, power, direction, EndSwitchStop);
      }
    }

    method SwitchesChange()
      requires Valid()
      modifies this`positiveEnd, this`negativeEnd
      ensures Valid()
    {
      var positive: EndSwitch, negative: EndSwitch := *, *;
      ChangeSwitches(positive, negative);
    }

    method ChangeSwitches(positive: EndSwitch, negative: EndSwitch)
      requires Valid()
      modifies this`positiveEnd, this`negativeEnd
      ensures Valid() && positiveEnd == positive && negativeEnd == negative
    {
      positiveEnd, negativeEnd := positive, negative;
    }

    /** Beyond the limit after the hold-off time, or beyond the limit for starting. */
    predicate Overcurrent(sample: real, now: int): (r: bool)
      reads this
      ensures stopCurrent <= 0.0 ==> !r
      ensures stopCurrent > 0.0 && now >= startMonitoring && (sample >= stopCurrent || -sample >= stopCurrent) ==> r
      ensures (stopCurrent > 0.0 && maxStartCurrent > 0.0
               && (sample >= maxStartCurrent || -sample >= maxStartCurrent)) ==> r
      // in the hold-off time only the limit for starting counts, otherwise the lower one
      ensures r && now < startMonitoring ==>
                maxStartCurrent > 0.0 && (sample >= maxStartCurrent || -sample >= maxStartCurrent)
      ensures r && -stopCurrent < sample < stopCurrent ==>
                maxStartCurrent > 0.0 && (sample >= maxStartCurrent || -sample >= maxStartCurrent)
    {
      && stopCurrent > 0.0
      && ((Abs(sample) >= stopCurrent && now >= startMonitoring)
          || (maxStartCurrent > 0.0 && Abs(sample) >= maxStartCurrent))
    }

    /** A sample of the current sensor. */
    method CheckCurrent(depth: nat, sample: real, now: int)
      requires Valid()
      modifies this
      ensures Valid() && Grows()
      ensures old(currentPower) > 0.0 && old(Overcurrent(sample, now)) && old(hasStopCallback) ==>
                old(reports) + [Report(old(currentPower), old(currentDirection), OvercurrentStop)] <= reports
      ensures old(currentPower) > 0.0 && old(Overcurrent(sample, now)) && Calm() && depth >= Nesting(old(rampDone)) ==>
                State() == StatusUpdated(shape, Closed(), Halted(old(State())), OvercurrentStop)
      ensures old(currentPower) == 0.0 || !old(Overcurrent(sample, now)) ==>
                State() == old(State()) && outputs == old(outputs)
      decreases depth, 5
    {
      if stopCurrent > 0.0 {
        var v := Abs(sample);
        if (v >= stopCurrent && now >= startMonitoring) || (maxStartCurrent > 0.0 && v >= maxStartCurrent) {
          if currentPower > 0.0 {
            var power, direction := currentPower, currentDirection;
            Stop();
            AutoStopped(depth, power, direction, OvercurrentStop);
          }
        }
      }
    }

    method AutoStopped(depth: nat, power: real, direction: int, cause: StopCause)
      requires Valid()
      modifies this
      ensures Valid() && Grows()
      ensures old(hasStopCallback) ==> old(reports) + [Report(power, direction, cause)] <= reports
      ensures Calm() && depth >= Nesting(old(rampDone)) + Extra(old(State())) ==>
                State() == StatusUpdated(shape, Closed(), old(State()), cause)
      decreases depth, 4
    {
      if hasStopCallback {
        reports := reports + [Report(power, direction, cause)];
        ClientCode(depth);
      }
      MotorStatusUpdate(depth, cause);
    }

    method MotorStatusUpdate(depth: nat, cause: StopCause)
      requires Valid()
      modifies this
      ensures Valid() && Grows()
      ensures Calm() && depth >= Nesting(old(rampDone)) + Extra(old(State())) ==>
                State() == StatusUpdated(shape, Closed(), old(State()), cause)
      decreases depth, 3
    {
      stopCause := cause;
      if rampDone != NoCallback {
        var callback := rampDone;
        rampDone := NoCallback;
        if depth > 0 { RunCallback(depth - 1, callback); }
      }
      ClientCode(depth);  // scripts waiting for events
    }

    method RunCallback(depth: nat, callback: Callback)
      requires Valid()
      modifies this
      ensures Valid() && Grows()
      ensures Calm() && depth + 1 >= Nesting(callback) + Extra(old(State()).(done := callback)) ==>
                State() == CalledBack(shape, Closed(), old(State()), callback)
      decreases depth, 10
    {
      match callback {
        case NoCallback =>
        case Client =>
          calls := calls + [Report(currentPower, currentDirection, stopCause)];
          ClientCode(depth);
        case RampThen(power, direction, time, exponent, client) =>
          RampToPower(depth, power, direction, time, exponent, Done(client));
      }
    }

    /** Whatever clients do when called back. */
    method ClientCode(depth: nat)
      requires Valid()
      modifies this
      ensures Valid() && Grows()
      ensures !clientsAct ==> State() == old(State())
      decreases depth, 2
    {
      if !clientsAct || depth == 0 { return; }
      var rounds: int := *;
      while rounds > 0
        invariant Valid() && Grows()
      {
        SwitchesChange();
        Command(depth - 1);
        rounds := rounds - 1;
      }
    }

    /** Any command of a client. */
    method Command(depth: nat)
      requires Valid()
      modifies this
      ensures Valid() && Grows()
      decreases depth, 10
    {
      var call: int, power: real, direction: int, time: real, exponent: real, yes: bool := *, *, *, *, *, *;
      match call {
        case 0 => Stop();
        case 1 => StopSequences();
        case 2 => SetOutputParams(power, time);
        case 3 => SetCurrentLimits(power, direction, time);
        case 4 => SetStopCallback(yes);
        case _ => RampToPower(depth, power, direction, time, exponent, Done(yes));
      }
    }

    // ----- Settings

    method SetOutputParams(scaling: real, offset: real)
      requires Valid()
      modifies this`powerScaling, this`powerOffset
      ensures Valid() && powerScaling == scaling && powerOffset == offset
    {
      powerScaling, powerOffset := scaling, offset;
    }

    method SetCurrentLimits(stopCurrent: real, holdoffTime: int, maxStartCurrent: real)
      requires Valid()
      modifies this`stopCurrent, this`holdoffTime, this`maxStartCurrent
      ensures Valid() && this.stopCurrent == stopCurrent && this.maxStartCurrent == maxStartCurrent
      ensures this.holdoffTime == holdoffTime
    {
      this.stopCurrent, this.holdoffTime, this.maxStartCurrent := stopCurrent, holdoffTime, maxStartCurrent;
    }

    method SetStopCallback(installed: bool)
      requires Valid()
      modifies this`hasStopCallback
      ensures Valid() && hasStopCallback == installed
    {
      hasStopCallback := installed;
    }

    // ----- Ramps

    /** Only this method itself passes a second ramp, for a first one in the present direction. */
    method RampToPower(depth: nat, power: real, direction: int, time: real, exponent: real, done: Callback)
      requires Valid() && (done.RampThen? ==> direction == currentDirection)
      modifies this
      ensures Valid() && Grows()
      ensures Calm() && depth >= (if old(currentPower) != 0.0 then 2 else Nesting(done)) ==>
                State() == RampedTo(shape, Closed(), old(State()), power, direction, time, exponent, done)
      decreases depth, 9, if direction != currentDirection then 3 else 1
    {
      ForgetRamp(done);
      if direction != currentDirection {
        if currentPower != 0.0 {
          RampThroughZero(depth, power, direction, time, exponent, done == Client);
          return;
        }
        SetDirection(direction);
      }
      StartRamp(depth, power, time, exponent);
    }

    method ForgetRamp(done: Callback)
      requires Valid()
      modifies this`stopCause, this`rampDone, this`sequenceTicket
      ensures Valid() && State() == old(State()).(done := done, cause := NoCause, ticket := None)
    {
      stopCause := NoCause;
      rampDone := done;
      StopSequences();
    }

    /** Ramps to zero first, then on in the new direction, each in half of an absolute time. */
    method RampThroughZero(depth: nat, power: real, direction: int, time: real, exponent: real, client: bool)
      requires Valid()
      modifies this
      ensures Valid() && Grows()
      ensures Calm() && depth >= 2 ==>
                State() == Started(shape, Closed(), old(State()), 0.0, old(currentDirection), Half(time), exponent,
                                   RampThen(power, direction, Half(time), exponent, client))
      decreases depth, 9, 2
    {
      var half := if time > 0.0 then time / 2.0 else time;
      RampToPower(depth, 0.0, currentDirection, half, exponent, RampThen(power, direction, half, exponent, client));
    }

    /** The second half of rampToPower(): limits the power and takes the first step. */
    method StartRamp(depth: nat, power: real, time: real, exponent: real)
      requires Coherent()
      modifies this
      ensures Valid() && Grows()
      ensures Calm() && depth >= Nesting(old(rampDone)) && old(sequenceTicket) == None && old(stopCause) == NoCause ==>
                State() == Started(shape, Closed(), old(State()), power, old(currentDirection), time, exponent,
                                   old(rampDone))
      decreases depth, 9, 0
    {
      var target := if power > 100.0 then 100.0 else if power < 0.0 then 0.0 else power;
      var numSteps := NumSteps(target - currentPower, time);
      RampStep(depth, Ramp(currentPower, target, numSteps, 0, exponent));
    }

    /** Before the last step the next one is scheduled, even if an end switch has just stopped the motor. */
    method RampStep(depth: nat, r: Ramp)
      requires Coherent() && RampOk(r)
      modifies this
      ensures Valid() && Grows()
      ensures r.stepNo < r.steps ==> sequenceTicket == Some(Later(r))
      ensures r.stepNo < r.steps && Calm() && depth >= Nesting(old(rampDone)) ==>
                State() == Stepped(shape, Closed(), old(State()), r)
      ensures r.stepNo >= r.steps && Calm() && depth >= 3 ==>
                State() == Finished(shape, Closed(), old(State()), r)
      decreases depth, 8
    {
      if r.stepNo >= r.steps {
        SetPower(depth, r.target, currentDirection);
        MotorStatusUpdate(depth, NoCause);
      } else {
        var f := (r.stepNo + 1) as real / r.steps as real;
        if r.exponent != 0.0 { f := shape(r.exponent, f); }
        var power := Blend(r.start, r.target, f);
        StepPowerInRange(shape, r);
        SetPower(depth, power, currentDirection);
        sequenceTicket := Some(Later(r));
      }
    }

    /** The timer. */
    method Tick(depth: nat)
      requires Valid() && sequenceTicket.Some?
      modifies this
      ensures Valid() && Grows()
      ensures Calm() && depth >= 3 ==> State() == Ticked(shape, Closed(), old(State()))
      decreases depth, 9
    {
      var r := sequenceTicket.value;
      sequenceTicket := None;
      RampStep(depth, r);
    }
  }

  /** Main result on safety: in every run of commands, ramp ticks, end switch and current events, with
      callbacks that issue commands themselves, direction lines change only without power, both are
      never on, and no power means no PWM and no direction. */
  method AnyRun(motor: DcMotorDriver, depth: nat)
    requires motor.Valid()
    modifies motor
    ensures motor.Valid() && old(motor.outputs) <= motor.outputs
    ensures Safe(motor.outputs) && (motor.currentPower == 0.0 ==> motor.pwm == 0.0 && motor.currentDirection == 0)
  {
    var events: int := *;
    while events > 0
      invariant motor.Valid() && old(motor.outputs) <= motor.outputs
    {
      var event: int, side: bool, sample: real, now: int := *, *, *, *;
      match event {
        case 0 => if motor.sequenceTicket.Some? { motor.Tick(depth); }
        case 1 => motor.OnEndSwitch(depth, side, sample > 0.0);
        case 2 => motor.CheckCurrent(depth, sample, now);
        case 3 => motor.SwitchesChange();
        case _ => motor.Command(depth);
      }
      events := events - 1;
    }
  }

  /** Overcurrent on the way down to zero, while reversing: the motor is not off but runs in the new
      direction at once, the cause is forgotten, and the client is not called. */
  method OvercurrentWhileReversing(shape: Shape) returns (motor: DcMotorDriver)
    ensures fresh(motor) && motor.Valid()
    ensures motor.currentPower > 0.0 && motor.currentDirection == -1 && motor.sequenceTicket.Some?
    ensures motor.stopCause == NoCause && motor.calls == []
  {
    motor := new DcMotorDriver(true, true, true, false, false, shape, 0.0, false, false);
    motor.RampToPower(3, 50.0, 1, 0.0, 0.0, NoCallback);
    DirectStart(shape);
    motor.RampToPower(3, 80.0, -1, 1.0, 0.0, Client);
    Reversing(shape);
    motor.SetCurrentLimits(1.0, 0, 0.0);
    ghost var before := motor.State();
    motor.CheckCurrent(3, 2.0, motor.startMonitoring);
    AfterStop(shape, OPEN, before, OvercurrentStop);
  }

  /** After a stop() of the client while reversing, the next end switch event starts the second ramp. */
  method StopWhileReversing(shape: Shape) returns (motor: DcMotorDriver)
    ensures fresh(motor) && motor.Valid()
    ensures motor.currentPower > 0.0 && motor.currentDirection == -1 && motor.sequenceTicket.Some?
  {
    motor := new DcMotorDriver(true, true, true, false, false, shape, 0.0, false, false);
    motor.RampToPower(3, 50.0, 1, 0.0, 0.0, NoCallback);
    DirectStart(shape);
    motor.RampToPower(3, 80.0, -1, 1.0, 0.0, Client);
    Reversing(shape);
    motor.Stop();
    ghost var stopped := motor.State();
    motor.ChangeSwitches(EndSwitch.Closed, Open);
    motor.OnEndSwitch(3, true, true);
    AfterStop(shape, Ends(true, false), stopped, EndSwitchStop);
  }

  const STANDING := Motor(0.0, 0, None, NoCallback, NoCause, [])
  const RUNNING := Motor(50.0, 1, Some(Ramp(0.0, 50.0, 1, 1, 0.0)), NoCallback, NoCause, [])

  lemma DirectStart(shape: Shape)
    ensures RampedTo(shape, OPEN, STANDING, 50.0, 1, 0.0, 0.0, NoCallback) == RUNNING
  {
    StartsRightAway(shape, OPEN, STANDING, Command(50.0, 1, 0.0, 0.0, false));
  }

  lemma Reversing(shape: Shape)
    ensures var m := RampedTo(shape, OPEN, RUNNING, 80.0, -1, 1.0, 0.0, Client);
            m.power > 0.0 && m.done == RampThen(80.0, -1, 0.5, 0.0, true) && m.calls == []
  {
    StartsDown(shape, OPEN, RUNNING, Command(80.0, -1, 1.0, 0.0, true));
  }
}
