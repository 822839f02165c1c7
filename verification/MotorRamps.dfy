/** Ramps of the DC motor driver (dcmotor.cpp) as functions, over the real numbers.

    This is what the driver does as long as clients only listen; the end switches may be in any state.
    The curves of exponential ramps are abstract: any family of strictly increasing curves from 0 to 1.
  */
module MotorRamps {
  import opened Options

  datatype StopCause = NoCause | OvercurrentStop | EndSwitchStop

  /** What happens at the end of a ramp or at a stop: nothing, a call of the client, or, on the way
      through zero, another ramp with or without a client to call at its end. */
  datatype Callback =
    | NoCallback
    | Client
    | RampThen(power: real, direction: int, time: real, exponent: real, client: bool)

  function Done(client: bool): Callback {
    if client then Client else NoCallback
  }

  /** The arguments of a scheduled ramp step. */
  datatype Ramp = Ramp(start: real, target: real, steps: int, stepNo: int, exponent: real)

  /** A call of a client: power, direction and the cause of a stop. */
  datatype Report = Report(power: real, direction: int, cause: StopCause)

  /** Which of the end switches are closed. */
  datatype Ends = Ends(positive: bool, negative: bool)

  predicate Hits(e: Ends, direction: int): (r: bool)
    ensures direction == 0 ==> !r
    ensures direction < 0 ==> (r <==> e.negative)
    ensures direction > 0 ==> (r <==> e.positive)
  {
    (direction < 0 && e.negative) || (direction > 0 && e.positive)
  }

  // ----- Ramps

  /** For every exponent from 0 to 1 and strictly increasing. */
  ghost predicate IsShape(shape: (real, real) -> real) {
    && (forall e :: shape(e, 0.0) == 0.0 && shape(e, 1.0) == 1.0)
    && (forall e, a, b :: 0.0 <= a < b <= 1.0 ==> shape(e, a) < shape(e, b))
  }

  type Shape = shape: (real, real) -> real | IsShape(shape) witness (e: real, f: real) => f

  function Fraction(shape: Shape, exponent: real, f: real): real {
    if exponent == 0.0 then f else shape(exponent, f)
  }

  function Clamped(power: real): (r: real)
    ensures 0.0 <= r <= 100.0 && (0.0 <= power <= 100.0 ==> r == power)
    ensures power > 100.0 ==> r == 100.0
    ensures power < 0.0 ==> r == 0.0
  {
    if power > 100.0 then 100.0 else if power < 0.0 then 0.0 else power
  }

  function Abs(x: real): (r: real)
    ensures r >= 0.0 && (r == x || r == -x)
  {
    if x < 0.0 then -x else x
  }

  /** Steps of 20 milliseconds; a negative time is the time for the full scale. */
  function NumSteps(range: real, time: real): (n: int)
    ensures n >= 1
  {
    var micros := if time < 0.0 then Abs(range) / 100.0 * (-time) * 1000000.0 else time * 1000000.0;
    NotNegative(range, time);
    micros.Floor / 20000 + 1
  }

  lemma NotNegative(range: real, time: real)
    ensures (if time < 0.0 then Abs(range) / 100.0 * (-time) * 1000000.0 else time * 1000000.0) >= 0.0
  {
    if time < 0.0 {
      assert Abs(range) / 100.0 >= 0.0;
      assert Abs(range) / 100.0 * (-time) >= 0.0;
    }
  }

  /** The time asked for in microseconds: absolute, or for the part of the full scale. */
  function Micros(range: real, time: real): real {
    if time >= 0.0 then 1000000.0 * time else 10000.0 * ((if range < 0.0 then -range else range) * -time)
  }

  /** Steps of 20 milliseconds fill the time asked for, and the last one exceeds it. */
  predicate Fill(steps: int, micros: real) {
    ((steps - 1) * 20000) as real <= micros < (steps * 20000) as real
  }

  /** Main result on the time of a ramp. */
  lemma StepsFillTheTime(range: real, time: real)
    ensures Fill(NumSteps(range, time), Micros(range, time))
  {
    var micros := if time < 0.0 then Abs(range) / 100.0 * (-time) * 1000000.0 else time * 1000000.0;
    NotNegative(range, time);
    FloorInSteps(micros);
    if time < 0.0 {
      FullScale(Abs(range), -time);
    }
  }

  lemma FullScale(range: real, time: real)
    ensures range / 100.0 * time * 1000000.0 == 10000.0 * (range * time)
  {
    assert range / 100.0 * time == range * time / 100.0;
  }

  lemma FloorInSteps(micros: real)
    requires micros >= 0.0
    ensures var n := micros.Floor / 20000 + 1; ((n - 1) * 20000) as real <= micros < (n * 20000) as real
  {
    var whole := micros.Floor;
    var n := whole / 20000 + 1;
    assert (n - 1) * 20000 <= whole < n * 20000;
    assert whole + 1 <= n * 20000;
    assert whole as real <= micros < (whole + 1) as real;
  }

  function Blend(start: real, target: real, f: real): real {
    start + (target - start) * f
  }

  function PowerAt(shape: Shape, r: Ramp): real
    requires r.steps >= 1
  {
    Blend(r.start, r.target, Fraction(shape, r.exponent, (r.stepNo + 1) as real / r.steps as real))
  }

  /** Main result on the power of a step: without exponent the steps are equal, with it they follow the
      curve. */
  lemma StepsFollowTheCurve(shape: Shape, r: Ramp)
    requires r.steps >= 1
    ensures r.exponent == 0.0 ==>
              (PowerAt(shape, r) - r.start) * r.steps as real == (r.target - r.start) * (r.stepNo + 1) as real
    ensures r.exponent != 0.0 ==>
              var f := shape(r.exponent, (r.stepNo + 1) as real / r.steps as real);
              PowerAt(shape, r) - r.start == f * (r.target - r.start)
  {
    PartOfSteps(r.target - r.start, (r.stepNo + 1) as real, r.steps as real);
  }

  lemma PartOfSteps(range: real, k: real, n: real)
    requires n != 0.0
    ensures range * (k / n) * n == range * k
  {
    assert k / n * n == k;
  }

  // ----- The driver

  /** cause: why the motor has stopped; calls: the calls of the done callback. */
  datatype Motor = Motor(power: real, direction: int, ticket: Option<Ramp>, done: Callback, cause: StopCause,
                         calls: seq<Report>)

  function Powered(m: Motor, power: real, direction: int): Motor {
    m.(power := power, direction := if power <= 0.0 then 0 else direction)
  }

  /** After stop(). */
  function Halted(m: Motor): Motor {
    m.(power := 0.0, direction := 0, ticket := None)
  }

  predicate RampOk(r: Ramp) {
    r.steps >= 1 && 0 <= r.stepNo <= r.steps && 0.0 <= r.start && 0.0 <= r.target <= 100.0
  }

  function Later(r: Ramp): Ramp {
    r.(stepNo := r.stepNo + 1)
  }

  function Rank(done: Callback): nat {
    if done.RampThen? then 1 else 0
  }

  /** A ramp step before the last one.  Where it meets a closed end switch, the motor stops, the done
      callback runs, and the next step is scheduled nevertheless. */
  function Stepped(shape: Shape, e: Ends, m: Motor, r: Ramp): Motor
    requires r.steps >= 1
    decreases Rank(m.done), 2
  {
    if PowerAt(shape, r) > 0.0 && Hits(e, m.direction) then
      StatusUpdated(shape, e, Halted(m), EndSwitchStop).(ticket := Some(Later(r)))
    else
      Powered(m, PowerAt(shape, r), m.direction).(ticket := Some(Later(r)))
  }

  /** A ramp in the present direction or from a standstill. */
  function Started(shape: Shape, e: Ends, m: Motor, power: real, direction: int, time: real, exponent: real,
                   done: Callback): Motor
    decreases Rank(done), 3
  {
    var target := Clamped(power);
    Stepped(shape, e, m.(direction := direction, done := done, cause := NoCause, ticket := None),
            Ramp(m.power, target, NumSteps(target - m.power, time), 0, exponent))
  }

  /** Half of an absolute time. */
  function Half(time: real): (r: real)
    ensures if time > 0.0 then r + r == time else r == time
  {
    if time > 0.0 then time / 2.0 else time
  }

  predicate ThroughZero(m: Motor, direction: int) {
    direction != m.direction && m.power != 0.0
  }

  function RampedTo(shape: Shape, e: Ends, m: Motor, power: real, direction: int, time: real, exponent: real,
                    done: Callback): Motor
    decreases if m.power != 0.0 then 2 else Rank(done), 4
  {
    if ThroughZero(m, direction) then
      Started(shape, e, m, 0.0, m.direction, Half(time), exponent,
              RampThen(power, direction, Half(time), exponent, done == Client))
    else
      Started(shape, e, m, power, direction, time, exponent, done)
  }

  function StatusUpdated(shape: Shape, e: Ends, m: Motor, cause: StopCause): Motor
    decreases if !m.done.RampThen? then 0 else if m.power == 0.0 then 1 else 3, 1
  {
    CalledBack(shape, e, m.(cause := cause, done := NoCallback), m.done)
  }

  function CalledBack(shape: Shape, e: Ends, m: Motor, callback: Callback): Motor
    decreases if !callback.RampThen? then 0 else if m.power == 0.0 then 1 else 3, 0
  {
    match callback
    case NoCallback => m
    case Client => m.(calls := m.calls + [Report(m.power, m.direction, m.cause)])
    case RampThen(power, direction, time, exponent, client) =>
      RampedTo(shape, e, m, power, direction, time, exponent, Done(client))
  }

  /** The last step of a ramp. */
  function Finished(shape: Shape, e: Ends, m: Motor, r: Ramp): Motor {
    var after := if r.target > 0.0 && Hits(e, m.direction) then StatusUpdated(shape, e, Halted(m), EndSwitchStop)
                 else Powered(m, r.target, m.direction);
    StatusUpdated(shape, e, after, NoCause)
  }

  predicate Runnable(m: Motor) {
    m.ticket.Some? && m.ticket.value.steps >= 1
  }

  /** The timer of the ramp. */
  function Ticked(shape: Shape, e: Ends, m: Motor): Motor
    requires Runnable(m)
  {
    var r, idle := m.ticket.value, m.(ticket := None);
    if r.stepNo >= r.steps then Finished(shape, e, idle, r) else Stepped(shape, e, idle, r)
  }

  // ----- Steps of a ramp

  lemma RatioInRange(a: real, b: real)
    requires 0.0 < a <= b
    ensures 0.0 < a / b <= 1.0 && (a / b == 1.0 <==> a == b)
  {
    assert a / b * b == a;
  }

  lemma FractionInRange(shape: Shape, exponent: real, stepNo: int, steps: int)
    requires 0 <= stepNo < steps
    ensures var f := Fraction(shape, exponent, (stepNo + 1) as real / steps as real);
            0.0 < f <= 1.0 && (f == 1.0 <==> stepNo + 1 == steps)
  {
    var f := (stepNo + 1) as real / steps as real;
    RatioInRange((stepNo + 1) as real, steps as real);
    assert shape(exponent, 0.0) == 0.0 && shape(exponent, 1.0) == 1.0;
    assert shape(exponent, 0.0) < shape(exponent, f);
    assert f < 1.0 ==> shape(exponent, f) < shape(exponent, 1.0);
  }

  lemma Between(start: real, target: real, f: real)
    requires 0.0 <= f <= 1.0
    ensures start <= target ==> start <= Blend(start, target, f) <= target
    ensures target <= start ==> target <= Blend(start, target, f) <= start
  {
    var x, y := start * f, target * f;
    BlendIs(start, target, f, x, y);
    if start <= target { Portion(start, target, f, x, y); }
    if target <= start { Portion(target, start, f, y, x); }
  }

  lemma BlendIs(start: real, target: real, f: real, x: real, y: real)
    requires x == start * f && y == target * f
    ensures Blend(start, target, f) == start + (y - x)
  {
  }

  lemma Portion(a: real, b: real, f: real, x: real, y: real)
    requires x == a * f && y == b * f && a <= b && 0.0 <= f <= 1.0
    ensures 0.0 <= y - x <= b - a
  {
    Scaled(a, b, f, x, y);
    Rest(a, f, x);
    Rest(b, f, y);
    Scaled(a, b, 1.0 - f, a - x, b - y);
  }

  lemma Scaled(a: real, b: real, f: real, x: real, y: real)
    requires x == a * f && y == b * f && a <= b && f >= 0.0
    ensures x <= y
  {
  }

  lemma Rest(a: real, f: real, x: real)
    requires x == a * f
    ensures a - x == a * (1.0 - f)
  {
  }

  lemma StepPowerInRange(shape: Shape, r: Ramp)
    requires RampOk(r) && r.stepNo < r.steps
    ensures PowerAt(shape, r) >= 0.0
  {
    FractionInRange(shape, r.exponent, r.stepNo, r.steps);
    var f := Fraction(shape, r.exponent, (r.stepNo + 1) as real / r.steps as real);
    Between(r.start, r.target, f);
  }

  /** Strictly between the ends of a ramp there is power. */
  lemma PositiveInside(start: real, target: real, f: real)
    requires start >= 0.0 && target >= 0.0 && 0.0 < f < 1.0
    ensures Blend(start, target, f) > 0.0 || (start == 0.0 && target == 0.0)
  {
    var x, y := start * f, target * f;
    BlendIs(start, target, f, x, y);
    Positive(target, f, y);
    Rest(start, f, x);
    Positive(start, 1.0 - f, start - x);
  }

  lemma Positive(a: real, f: real, x: real)
    requires x == a * f && a >= 0.0 && f > 0.0
    ensures x >= 0.0 && (x == 0.0 <==> a == 0.0)
  {
  }

  lemma BlendAtEnds(start: real, target: real)
    ensures Blend(start, target, 1.0) == target
    ensures start == target ==> forall f :: Blend(start, target, f) == target
  {
  }

  /** The power does not turn back within a ramp. */
  lemma PowerIsMonotone(shape: Shape, r: Ramp, j: int, k: int)
    requires RampOk(r) && 0 <= j < k < r.steps
    ensures var p, q := PowerAt(shape, r.(stepNo := j)), PowerAt(shape, r.(stepNo := k));
            if r.start <= r.target then r.start <= p <= q <= r.target else r.start >= p >= q >= r.target
  {
    var a, b := (j + 1) as real / r.steps as real, (k + 1) as real / r.steps as real;
    var f, g := Fraction(shape, r.exponent, a), Fraction(shape, r.exponent, b);
    FractionInRange(shape, r.exponent, j, r.steps);
    FractionInRange(shape, r.exponent, k, r.steps);
    RatioInRange((j + 1) as real, r.steps as real);
    RatioInRange((k + 1) as real, r.steps as real);
    RatioIsMonotone((j + 1) as real, (k + 1) as real, r.steps as real);
    assert r.exponent != 0.0 ==> shape(r.exponent, a) < shape(r.exponent, b);
    Between(r.start, r.target, f);
    Between(r.start, r.target, g);
    BlendIsMonotone(r.start, r.target, f, g);
  }

  lemma RatioIsMonotone(a: real, b: real, c: real)
    requires a < b && c > 0.0
    ensures a / c < b / c
  {
  }

  lemma BlendIsMonotone(start: real, target: real, f: real, g: real)
    requires f <= g
    ensures if start <= target then Blend(start, target, f) <= Blend(start, target, g)
            else Blend(start, target, f) >= Blend(start, target, g)
  {
    var d := target - start;
    if start <= target {
      Scaled(f, g, d, f * d, g * d);
    } else {
      Scaled(f, g, -d, f * -d, g * -d);
    }
  }

  // ----- Runs

  /** One tick of the timer for every state of the end switches. */
  function AfterTicks(shape: Shape, m: Motor, es: seq<Ends>): Motor {
    if es == [] then m
    else
      var n := |es| - 1;
      var before := AfterTicks(shape, m, es[..n]);
      if Runnable(before) then Ticked(shape, es[n], before) else before
  }

  lemma {:induction false} TicksAdd(shape: Shape, m: Motor, a: seq<Ends>, b: seq<Ends>)
    ensures AfterTicks(shape, m, a + b) == AfterTicks(shape, AfterTicks(shape, m, a), b)
  {
    if b == [] {
      assert a + b == a;
    } else {
      assert (a + b)[..|a + b| - 1] == a + b[..|b| - 1];
      TicksAdd(shape, m, a, b[..|b| - 1]);
    }
  }

  /** No end switch in this direction is closed meanwhile. */
  predicate Clear(es: seq<Ends>, direction: int) {
    forall i :: 0 <= i < |es| ==> !Hits(es[i], direction)
  }

  /** After step k of a ramp in direction d. */
  function Underway(shape: Shape, m: Motor, r: Ramp, d: int, k: nat): Motor
    requires RampOk(r) && k < r.steps
  {
    var p := PowerAt(shape, r.(stepNo := k));
    m.(power := p, direction := if p <= 0.0 then 0 else d, ticket := Some(r.(stepNo := k + 1)))
  }

  lemma {:induction false} RampIsUnderway(shape: Shape, e: Ends, m: Motor, r: Ramp, es: seq<Ends>)
    requires RampOk(r) && r.stepNo == 0 && |es| < r.steps && !Hits(e, m.direction) && Clear(es, m.direction)
    ensures AfterTicks(shape, Stepped(shape, e, m, r), es) == Underway(shape, m, r, m.direction, |es|)
  {
    var k := |es|;
    if k == 0 {
      assert r.(stepNo := 0) == r;
    } else {
      RampIsUnderway(shape, e, m, r, es[..k - 1]);
      NextStep(shape, es[k - 1], m, r, k);
    }
  }

  lemma NextStep(shape: Shape, e: Ends, m: Motor, r: Ramp, k: nat)
    requires RampOk(r) && 0 < k < r.steps && !Hits(e, m.direction)
    ensures Ticked(shape, e, Underway(shape, m, r, m.direction, k - 1)) == Underway(shape, m, r, m.direction, k)
  {
    FractionInRange(shape, r.exponent, k - 1, r.steps);
    PositiveInside(r.start, r.target, Fraction(shape, r.exponent, k as real / r.steps as real));
    StepPowerInRange(shape, r.(stepNo := k - 1));
    BlendAtEnds(r.start, r.target);
  }

  /** A ramp of n steps takes n ticks and ends at its target. */
  lemma RampEnds(shape: Shape, e: Ends, m: Motor, r: Ramp, es: seq<Ends>)
    requires RampOk(r) && r.stepNo == 0 && |es| == r.steps && !Hits(e, m.direction) && Clear(es, m.direction)
    ensures var end := m.(power := r.target, direction := if r.target <= 0.0 then 0 else m.direction, ticket := None);
            AfterTicks(shape, Stepped(shape, e, m, r), es) == StatusUpdated(shape, es[|es| - 1], end, NoCause)
  {
    var n := r.steps;
    RampIsUnderway(shape, e, m, r, es[..n - 1]);
    FractionInRange(shape, r.exponent, n - 1, n);
    BlendAtEnds(r.start, r.target);
    StepPowerInRange(shape, r.(stepNo := n - 1));
  }

  predicate Resting(m: Motor) {
    m.power >= 0.0 && (m.power == 0.0 ==> m.direction == 0)
  }

  /** A command to the driver: the arguments of rampToPower(). */
  datatype Command = Command(power: real, direction: int, time: real, exponent: real, client: bool)

  function Commanded(shape: Shape, e: Ends, m: Motor, c: Command): Motor {
    RampedTo(shape, e, m, c.power, c.direction, c.time, c.exponent, Done(c.client))
  }

  /** The motor and the ramp when a command starts right away. */
  function Ready(m: Motor, c: Command): Motor {
    m.(direction := c.direction, done := Done(c.client), cause := NoCause, ticket := None)
  }

  function RampUp(m: Motor, c: Command): Ramp {
    var target := Clamped(c.power);
    Ramp(m.power, target, NumSteps(target - m.power, c.time), 0, c.exponent)
  }

  lemma StartsRightAway(shape: Shape, e: Ends, m: Motor, c: Command)
    requires !ThroughZero(m, c.direction)
    ensures Commanded(shape, e, m, c) == Stepped(shape, e, Ready(m, c), RampUp(m, c))
  {
    assert Commanded(shape, e, m, c) == Started(shape, e, m, c.power, c.direction, c.time, c.exponent, Done(c.client));
  }

  /** The motor and the ramp when it first goes down to zero. */
  function ReadyDown(m: Motor, c: Command): Motor {
    var done := RampThen(c.power, c.direction, Half(c.time), c.exponent, c.client);
    m.(done := done, cause := NoCause, ticket := None)
  }

  function RampDown(m: Motor, c: Command): Ramp {
    Ramp(m.power, 0.0, StepsDown(m, c), 0, c.exponent)
  }

  lemma StartsDown(shape: Shape, e: Ends, m: Motor, c: Command)
    requires ThroughZero(m, c.direction)
    ensures Commanded(shape, e, m, c) == Stepped(shape, e, ReadyDown(m, c), RampDown(m, c))
  {
    var done := ReadyDown(m, c).done;
    assert Commanded(shape, e, m, c) == Started(shape, e, m, 0.0, m.direction, Half(c.time), c.exponent, done);
  }

  /** The number of steps down to zero, on the way to another direction. */
  function StepsDown(m: Motor, c: Command): nat {
    NumSteps(0.0 - m.power, Half(c.time))
  }

  /** The number of ticks a ramp takes. */
  function Duration(m: Motor, c: Command): nat {
    if ThroughZero(m, c.direction) then StepsDown(m, c) + RampUp(AtZero(m), c.(time := Half(c.time))).steps
    else RampUp(m, c).steps
  }

  /** The power a ramp passes through: directly, or through zero. */
  function Way(m: Motor, c: Command): real {
    var target := if c.power > 100.0 then 100.0 else if c.power < 0.0 then 0.0 else c.power;
    if m.power != 0.0 && c.direction != m.direction then m.power + target
    else if target >= m.power then target - m.power else m.power - target
  }

  /** Main result on the duration: an absolute time is kept whatever the way, and a full-scale time counts for
      the part of the scale that is passed through; one step for each single ramp may exceed it. */
  lemma DurationIsAsAsked(m: Motor, c: Command)
    requires Resting(m)
    ensures var n, micros := Duration(m, c), Micros(Way(m, c), c.time);
            if m.power != 0.0 && c.direction != m.direction
            then ((n - 2) * 20000) as real <= micros < (n * 20000) as real
            else ((n - 1) * 20000) as real <= micros < (n * 20000) as real
  {
    var target := Clamped(c.power);
    if ThroughZero(m, c.direction) {
      StepsFillTheTime(0.0 - m.power, Half(c.time));
      StepsFillTheTime(target - 0.0, Half(c.time));
      MicrosTogether(m.power, target, c.time);
      assert Way(m, c) == m.power + target;
    } else {
      StepsFillTheTime(target - m.power, c.time);
      SameMicros(target - m.power, Way(m, c), c.time);
    }
  }

  lemma SameMicros(range: real, way: real, time: real)
    requires way == if range < 0.0 then -range else range
    ensures Micros(range, time) == Micros(way, time)
  {
  }

  lemma MicrosTogether(a: real, b: real, time: real)
    requires a >= 0.0 && b >= 0.0
    ensures Micros(0.0 - a, Half(time)) + Micros(b - 0.0, Half(time)) == Micros(a + b, time)
  {
    Together(a, b, -time);
  }

  lemma Together(a: real, b: real, t: real)
    ensures a * t + b * t == (a + b) * t
  {
  }

  /** The end switches of both directions are open at the command and at every tick. */
  predicate Undisturbed(m: Motor, c: Command, e: Ends, es: seq<Ends>) {
    && !Hits(e, m.direction) && !Hits(e, c.direction)
    && Clear(es, m.direction) && Clear(es, c.direction)
  }

  function Reached(m: Motor, c: Command): Motor {
    var target := Clamped(c.power);
    var direction := if target == 0.0 then 0 else c.direction;
    Motor(target, direction, None, NoCallback, NoCause,
          m.calls + if c.client then [Report(target, direction, NoCause)] else [])
  }

  /** Main result on ramps: undisturbed, a ramp ends after exactly its duration, at the clamped target in
      the requested direction, with the client called back once. */
  lemma UndisturbedRampEnds(shape: Shape, e: Ends, m: Motor, c: Command, es: seq<Ends>)
    requires Resting(m) && Undisturbed(m, c, e, es) && |es| == Duration(m, c)
    ensures AfterTicks(shape, Commanded(shape, e, m, c), es) == Reached(m, c)
  {
    if ThroughZero(m, c.direction) {
      var n := StepsDown(m, c);
      var down, up := es[..n], es[n..];
      SecondRampStarts(shape, e, m, c, down);
      TicksAdd(shape, Commanded(shape, e, m, c), down, up);
      assert es == down + up;
      SimpleRampEnds(shape, down[n - 1], AtZero(m), c.(time := Half(c.time)), up);
    } else {
      SimpleRampEnds(shape, e, m, c, es);
    }
  }

  function AtZero(m: Motor): Motor {
    m.(power := 0.0, direction := 0, ticket := None, done := NoCallback, cause := NoCause)
  }

  /** On the way through zero the second ramp starts with the tick that ends the first one. */
  lemma SecondRampStarts(shape: Shape, e: Ends, m: Motor, c: Command, es: seq<Ends>)
    requires Resting(m) && ThroughZero(m, c.direction) && |es| == StepsDown(m, c)
    requires !Hits(e, m.direction) && Clear(es, m.direction)
    ensures AfterTicks(shape, Commanded(shape, e, m, c), es)
            == Commanded(shape, es[|es| - 1], AtZero(m), c.(time := Half(c.time)))
  {
    StartsDown(shape, e, m, c);
    RampEnds(shape, e, ReadyDown(m, c), RampDown(m, c), es);
    DownIsDone(shape, es[|es| - 1], m, c);
  }

  lemma DownIsDone(shape: Shape, e: Ends, m: Motor, c: Command)
    ensures StatusUpdated(shape, e, ReadyDown(m, c).(power := 0.0, direction := 0), NoCause)
            == Commanded(shape, e, AtZero(m), c.(time := Half(c.time)))
  {
    var end := ReadyDown(m, c).(power := 0.0, direction := 0);
    assert StatusUpdated(shape, e, end, NoCause) == CalledBack(shape, e, AtZero(m), end.done);
  }

  lemma SimpleRampEnds(shape: Shape, e: Ends, m: Motor, c: Command, es: seq<Ends>)
    requires Resting(m) && !ThroughZero(m, c.direction) && |es| == RampUp(m, c).steps
    requires !Hits(e, c.direction) && Clear(es, c.direction)
    ensures AfterTicks(shape, Commanded(shape, e, m, c), es) == Reached(m, c)
  {
    StartsRightAway(shape, e, m, c);
    RampEnds(shape, e, Ready(m, c), RampUp(m, c), es);
  }

  /** Where a ramp is at a tick: which of the at most two single ramps, in which direction, and the step. */
  datatype Phase = Phase(ramp: Ramp, direction: int, step: nat)

  function PhaseAt(m: Motor, c: Command, k: nat): (p: Phase)
    requires Resting(m) && k < Duration(m, c)
    ensures RampOk(p.ramp) && p.step < p.ramp.steps && p.ramp.stepNo == 0
  {
    if ThroughZero(m, c.direction) then
      var n := StepsDown(m, c);
      if k < n then Phase(RampDown(m, c), m.direction, k)
      else Phase(RampUp(AtZero(m), c.(time := Half(c.time))), c.direction, k - n)
    else
      Phase(RampUp(m, c), c.direction, k)
  }

  /** The motor has the power and direction of the phase, its next step is scheduled, and the client has
      not been called back yet. */
  ghost predicate Follows(shape: Shape, s: Motor, p: Phase, calls: seq<Report>)
    requires RampOk(p.ramp) && p.step < p.ramp.steps
  {
    && s.calls == calls && s.cause == NoCause && s.ticket == Some(p.ramp.(stepNo := p.step + 1))
    && s.power == PowerAt(shape, p.ramp.(stepNo := p.step))
    && s.direction == if s.power <= 0.0 then 0 else p.direction
  }

  /** Main result on ramps, before the end: the power follows the curve, and nobody is called back. */
  lemma UndisturbedRampIsUnderway(shape: Shape, e: Ends, m: Motor, c: Command, es: seq<Ends>)
    requires Resting(m) && Undisturbed(m, c, e, es) && |es| < Duration(m, c)
    ensures Follows(shape, AfterTicks(shape, Commanded(shape, e, m, c), es), PhaseAt(m, c, |es|), m.calls)
  {
    if !ThroughZero(m, c.direction) {
      SimpleRampIsUnderway(shape, e, m, c, es);
    } else if |es| < StepsDown(m, c) {
      FirstRampIsUnderway(shape, e, m, c, es);
    } else {
      SecondRampIsUnderway(shape, e, m, c, es);
    }
  }

  lemma FirstRampIsUnderway(shape: Shape, e: Ends, m: Motor, c: Command, es: seq<Ends>)
    requires Resting(m) && ThroughZero(m, c.direction) && |es| < StepsDown(m, c)
    requires !Hits(e, m.direction) && Clear(es, m.direction)
    ensures Follows(shape, AfterTicks(shape, Commanded(shape, e, m, c), es),
                    Phase(RampDown(m, c), m.direction, |es|), m.calls)
  {
    StartsDown(shape, e, m, c);
    RampIsUnderway(shape, e, ReadyDown(m, c), RampDown(m, c), es);
  }

  lemma SecondRampIsUnderway(shape: Shape, e: Ends, m: Motor, c: Command, es: seq<Ends>)
    requires Resting(m) && ThroughZero(m, c.direction) && Undisturbed(m, c, e, es)
    requires StepsDown(m, c) <= |es| < Duration(m, c)
    ensures var up := RampUp(AtZero(m), c.(time := Half(c.time)));
            Follows(shape, AfterTicks(shape, Commanded(shape, e, m, c), es),
                    Phase(up, c.direction, |es| - StepsDown(m, c)), m.calls)
  {
    var n := StepsDown(m, c);
    var down, up := es[..n], es[n..];
    SecondRampStarts(shape, e, m, c, down);
    TicksAdd(shape, Commanded(shape, e, m, c), down, up);
    assert es == down + up;
    SimpleRampIsUnderway(shape, down[n - 1], AtZero(m), c.(time := Half(c.time)), up);
  }

  lemma SimpleRampIsUnderway(shape: Shape, e: Ends, m: Motor, c: Command, es: seq<Ends>)
    requires Resting(m) && !ThroughZero(m, c.direction) && |es| < RampUp(m, c).steps
    requires !Hits(e, c.direction) && Clear(es, c.direction)
    ensures Follows(shape, AfterTicks(shape, Commanded(shape, e, m, c), es),
                    Phase(RampUp(m, c), c.direction, |es|), m.calls)
  {
    StartsRightAway(shape, e, m, c);
    RampIsUnderway(shape, e, Ready(m, c), RampUp(m, c), es);
  }

  /** Within each of the single ramps the power moves towards the target only. */
  lemma UndisturbedPowerIsMonotone(shape: Shape, e: Ends, m: Motor, c: Command, es: seq<Ends>, j: nat)
    requires Resting(m) && Undisturbed(m, c, e, es) && j < |es| < Duration(m, c)
    requires PhaseAt(m, c, j).ramp == PhaseAt(m, c, |es|).ramp
    ensures var started, r := Commanded(shape, e, m, c), PhaseAt(m, c, |es|).ramp;
            var p, q := AfterTicks(shape, started, es[..j]).power, AfterTicks(shape, started, es).power;
            if r.start <= r.target then r.start <= p <= q <= r.target else r.start >= p >= q >= r.target
  {
    UndisturbedRampIsUnderway(shape, e, m, c, es[..j]);
    UndisturbedRampIsUnderway(shape, e, m, c, es);
    PowerIsMonotone(shape, PhaseAt(m, c, |es|).ramp, PhaseAt(m, c, j).step, PhaseAt(m, c, |es|).step);
  }
}
