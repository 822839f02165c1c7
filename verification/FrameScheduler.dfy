/** The frame scheduler LEDChainArrangement::step() of ledchaincomm.cpp with its callers.

    Times are microseconds; times at or before zero are undefined.  The ghost trace records what a run
    does: calculations of the views, their answers, renderings and display updates.  `Legal` says which
    traces are acceptable, every method keeps the trace legal, and the lemmas at the end say what that
    means for whole runs.  Clock readings and the answers of the views are arbitrary unless they are fixed
    beforehand, for an example; while the views calculate they may call back into the arrangement.
  */
module FrameScheduler {
  import opened Options

  const INFINITE: int := -1
  const MAX_UPDATE_INTERVAL: int := 500000

  predicate Defined(t: int) {
    t > 0
  }

  // ----- Runs

  /** Calculated: the views start calculating the state for the time `show`.
      Answered: they are done, and changed if `dirty`.
      Rendered: the state of the views is captured in a frame for the time `show`.
      Applied: the frame is brought to the LEDs, with the minimum interval in force then.
      `at` is the clock reading the step was decided on, `late` the mode that renders at show time. */
  datatype Event =
    | Calculated(show: int, at: int, bufferTime: int, late: bool)
    | Answered(show: int, dirty: bool)
    | Rendered(show: int, at: int, late: bool)
    | Applied(at: int, interval: int)

  /** waiting: show time of the frame rendered but not yet applied; pending: show time for which a
      rendering has been requested; earliest: no display update before that; current: show time of the
      latest calculation; captured: the latest event is a rendering. */
  datatype Summary = Summary(waiting: Option<int>, pending: int, earliest: int, current: Option<int>, captured: bool)

  /** The views changed, or the display needs a refresh. */
  predicate Wanted(s: Summary, e: Event)
    requires e.Answered?
  {
    e.dirty || e.show > s.earliest + MAX_UPDATE_INTERVAL
  }

  /** Requested renderings are drawn closer, not pushed into the future. */
  function Sooner(pending: int, show: int): int {
    if !Defined(pending) || pending > show then show else pending
  }

  function Next(s: Summary, e: Event): Summary {
    match e
    case Calculated(show, _, _, _) => s.(current := Some(show), captured := false)
    case Answered(show, _) =>
      s.(pending := if Wanted(s, e) then Sooner(s.pending, show) else s.pending, captured := false)
    case Rendered(show, _, _) => s.(waiting := Some(show), pending := INFINITE, captured := true)
    case Applied(at, interval) => s.(waiting := None, earliest := at + interval, captured := false)
  }

  predicate Allowed(s: Summary, e: Event) {
    match e
    case Calculated(show, at, bufferTime, late) =>
      // not for the past
      && at > 0 && (show >= at || show == at + bufferTime)
      // a requested state is captured first, unless rendering is late, not yet due, and no frame waits
      && (Defined(s.pending) ==> late && at < s.pending && s.waiting == None)
      // ahead of a waiting frame only once, and only while it is not due
      && (s.waiting.Some? ==> (late || s.captured) && at < Max(s.waiting.value, s.earliest))
    case Answered(show, _) => s.current == Some(show)
    case Rendered(show, at, late) =>
      s.waiting == None && Defined(show) && show == s.pending && (late ==> at >= show)
    case Applied(at, _) =>
      s.waiting.Some? && at >= s.waiting.value && at >= s.earliest
  }

  function After(trace: seq<Event>): Summary {
    if trace == [] then Summary(None, INFINITE, INFINITE, None, false)
    else Next(After(trace[..|trace| - 1]), trace[|trace| - 1])
  }

  predicate Legal(trace: seq<Event>) {
    trace == [] || (Legal(trace[..|trace| - 1]) && Allowed(After(trace[..|trace| - 1]), trace[|trace| - 1]))
  }

  lemma OneMore(trace: seq<Event>, e: Event)
    ensures After(trace + [e]) == Next(After(trace), e)
    ensures Legal(trace + [e]) <==> Legal(trace) && Allowed(After(trace), e)
  {
    assert (trace + [e])[..|trace|] == trace;
  }

  lemma {:induction false} CalculationStays(before: seq<Event>, after: seq<Event>)
    requires before <= after && After(before).current.Some?
    ensures After(after).current.Some?
    decreases |after|
  {
    if before != after {
      CalculationStays(before, after[..|after| - 1]);
    }
  }

  lemma Twice(t: seq<Event>, a: Event, b: Event)
    ensures (t + [a]) + [b] == t + [a, b]
  {
  }

  lemma Longer(a: seq<Event>, b: seq<Event>, c: seq<Event>)
    requires a <= b <= c
    ensures a <= c
  {
  }

  function Max(a: int, b: int): int {
    if a >= b then a else b
  }

  /** The first thing that happens after `before`. */
  predicate Begins(before: seq<Event>, e: Event, after: seq<Event>) {
    before <= after && |after| > |before| && after[|before|] == e
  }

  /** What a step finds: when a waiting frame is due, what rendering is requested, the settings, and the
      run so far. */
  datatype Situation = Situation(due: int, requested: int, late: bool, interval: int, bufferTime: int,
                                 before: seq<Event>)

  /** At the time `at`, what is due is done first: an update, then a rendering, then a calculation. */
  ghost predicate Prompt(s: Situation, at: int, next: int, after: seq<Event>) {
    var n := |s.before|;
    var ready := Defined(s.requested) && (!s.late || at >= s.requested);
    && s.before <= after
    // a due frame is brought to the LEDs
    && (Defined(s.due) && at >= s.due ==> Begins(s.before, Applied(at, s.interval), after))
    // and what is to be rendered is rendered right after it
    && (Defined(s.due) && at >= s.due && ready ==>
          |after| > n + 1 && after[n + 1].Rendered? && after[n + 1].show == s.requested)
    // one that is not due is waited for, if it is in the way
    && (Defined(s.due) && at < s.due && (!s.late || Defined(s.requested)) ==> after == s.before)
    // with no frame waiting, a requested state is rendered as soon as the mode permits
    && (!Defined(s.due) && ready ==> Begins(s.before, Rendered(s.requested, at, s.late), after))
    // otherwise the views calculate, for the next show time or beyond the present when that is past
    && ((Defined(s.due) && at < s.due && s.late && !Defined(s.requested)) || (!Defined(s.due) && !ready) ==>
          var show := if at > next then at + s.bufferTime else next;
          Begins(s.before, Calculated(show, at, s.bufferTime, s.late), after))
  }

  lemma PromptForGood(s: Situation, at: int, next: int, after: seq<Event>, later: seq<Event>)
    requires Prompt(s, at, next, after) && s.before != after && after <= later
    ensures Prompt(s, at, next, later)
  {
  }

  /** The answer of views that do not call back. */
  datatype Answer = Answer(next: int, dirty: bool)

  /** What a calculation adds that starts with nothing waiting or requested, if the answer is known. */
  function Calculation(next: int, at: int, bufferTime: int, late: bool, dirty: bool): seq<Event> {
    var show := if at > next then at + bufferTime else next;
    [Calculated(show, at, bufferTime, late), Answered(show, dirty)]
  }

  class LEDChainArrangement {
    var currentStepShowTime: int
    var nextStepShowTime: int
    var earliestNextDispApply: int
    var renderPendingFor: int
    var dispApplyPendingFor: int
    var minUpdateInterval: int
    var bufferTime: int
    var maxPriorityInterval: int
    var renderWithApply: bool
    var hasRootView: bool
    var nextAutoStep: int
    var autoStepTicket: bool  // whether a timer for the next step is armed
    var clock: int
    var readings: seq<int>    // clock readings to come, as far as they are known; arbitrary beyond
    var answers: seq<Answer>  // likewise the answers of the views
    ghost var trace: seq<Event>

    /** The fields say what the trace says; a waiting frame is due at its show time, but not before the
        earliest time for an update. */
    ghost predicate Valid()
      reads this
    {
      var s := After(trace);
      && Legal(trace) && clock > 0
      && currentStepShowTime == (if s.current.Some? then s.current.value else INFINITE)
      && earliestNextDispApply == s.earliest && renderPendingFor == s.pending
      && match s.waiting
         case None => dispApplyPendingFor == INFINITE
         case Some(show) => Defined(show) && dispApplyPendingFor == Max(show, s.earliest)
    }

    constructor (now: int)
      requires now > 0
      ensures Valid() && trace == [] && clock == now && nextStepShowTime == INFINITE && !renderWithApply
      ensures dispApplyPendingFor == renderPendingFor == INFINITE && readings == [] && answers == []
      ensures minUpdateInterval == 15000 && bufferTime == 30000 && maxPriorityInterval == 45000
      ensures !hasRootView && !autoStepTicket && nextAutoStep == INFINITE
    {
      currentStepShowTime, nextStepShowTime, earliestNextDispApply := INFINITE, INFINITE, INFINITE;
      renderPendingFor, dispApplyPendingFor := INFINITE, INFINITE;
      minUpdateInterval, bufferTime, maxPriorityInterval, renderWithApply := 15000, 2 * 15000, 3 * 15000, false;
      hasRootView, nextAutoStep, autoStepTicket, clock := false, INFINITE, false, now;
      readings, answers := [], [];
      trace := [];
    }

    ghost method Record(e: Event)
      modifies this`trace
      ensures trace == old(trace) + [e]
      ensures After(trace) == Next(After(old(trace)), e)
      ensures Legal(trace) <==> Legal(old(trace)) && Allowed(After(old(trace)), e)
    {
      OneMore(trace, e);
      trace := trace + [e];
    }

    /** Fixes what the clock and the views are going to say next. */
    method Expect(readings: seq<int>, answers: seq<Answer>)
      requires Valid()
      modifies this`readings, this`answers
      ensures Valid() && this.readings == readings && this.answers == answers
    {
      this.readings, this.answers := readings, answers;
    }

    /** Reading the clock, which does not go back. */
    method Now() returns (now: int)
      modifies this`clock, this`readings
      ensures now == clock && clock >= old(clock)
      ensures old(readings) != [] ==> clock == Max(old(clock), old(readings)[0])
    {
      var reading: int := *;
      if readings != [] {
        reading := readings[0];
        readings := readings[1..];
      }
      if reading > clock { clock := reading; }
      now := clock;
    }

    // ----- Settings, changeable at any time

    method SetMinUpdateInterval(interval: int)
      requires Valid()
      modifies this`minUpdateInterval, this`bufferTime
      ensures Valid() && minUpdateInterval == interval && bufferTime == 2 * interval
    {
      minUpdateInterval, bufferTime := interval, 2 * interval;
    }

    method SetBufferTime(time: int)
      requires Valid()
      modifies this`bufferTime
      ensures Valid() && bufferTime == time
    {
      bufferTime := time;
    }

    method SetRenderWithApply(late: bool)
      requires Valid()
      modifies this`renderWithApply
      ensures Valid() && renderWithApply == late
    {
      renderWithApply := late;
    }

    method SetMaxPriorityInterval(interval: int)
      requires Valid()
      modifies this`maxPriorityInterval
      ensures Valid() && maxPriorityInterval == interval
    {
      maxPriorityInterval := interval;
    }

    method SetRootView()
      requires Valid()
      modifies this`hasRootView
      ensures Valid() && hasRootView
    {
      hasRootView := true;
    }

    // ----- Parts of step()

    /** A due display update. */
    method ApplyDisplayUpdate(realNow: int) returns (now: int)
      requires Valid() && Defined(dispApplyPendingFor) && realNow >= dispApplyPendingFor
      modifies this`dispApplyPendingFor, this`earliestNextDispApply, this`clock, this`readings, this`trace
      ensures Valid() && trace == old(trace) + [Applied(realNow, minUpdateInterval)]
      ensures now == clock >= old(clock)
    {
      Record(Applied(realNow, minUpdateInterval));
      dispApplyPendingFor := INFINITE;
      earliestNextDispApply := realNow + minUpdateInterval;
      now := Now();
    }

    /** A requested rendering. */
    method RenderPending(realNow: int) returns (now: int)
      requires Valid() && Defined(renderPendingFor) && !Defined(dispApplyPendingFor)
      requires !renderWithApply || realNow >= renderPendingFor
      modifies this`renderPendingFor, this`dispApplyPendingFor, this`clock, this`readings, this`trace
      ensures Valid() && trace == old(trace) + [Rendered(old(renderPendingFor), realNow, renderWithApply)]
      ensures now == clock >= old(clock)
    {
      Record(Rendered(renderPendingFor, realNow, renderWithApply));
      now := Now();
      dispApplyPendingFor := renderPendingFor;
      renderPendingFor := INFINITE;
      if dispApplyPendingFor < earliestNextDispApply { dispApplyPendingFor := earliestNextDispApply; }
    }

    /** The views calculate and answer; meanwhile they and the scripts behind them may do anything. */
    method ViewStep(depth: nat) returns (next: int, dirty: bool)
      requires Valid()
      modifies this
      ensures Valid() && old(trace) <= trace && clock >= old(clock)
      ensures old(answers) != [] ==>
                && trace == old(trace) && next == old(answers)[0].next && dirty == old(answers)[0].dirty
                && unchanged(`currentStepShowTime, `earliestNextDispApply)
      ensures depth == 0 ==> trace == old(trace)
      decreases depth, 0
    {
      if answers != [] {
        next, dirty := answers[0].next, answers[0].dirty;
        answers := answers[1..];
        return;
      }
      var calls: int := *;
      while calls > 0
        invariant Valid() && old(trace) <= trace && clock >= old(clock)
        invariant depth == 0 ==> trace == old(trace)
      {
        var call: int, t: int, b: bool := *, *, *;
        match call {
          case 0 => SetMinUpdateInterval(t);
          case 1 => SetBufferTime(t);
          case 2 => SetRenderWithApply(b);
          case 3 => SetMaxPriorityInterval(t);
          case 4 => SetRootView();
          case 5 => if depth > 0 { var _, _ := Render(depth - 1); }
          case _ => if depth > 0 { var _, _ := ExternalUpdateRequest(depth - 1); }
        }
        calls := calls - 1;
      }
      next, dirty := *, *;
    }

    /** Advances to the next show time, or beyond the present when that is past. */
    method AdvanceShowTime(realNow: int)
      requires Valid() && realNow > 0 && FreeToCalculate(realNow)
      modifies this`currentStepShowTime, this`nextStepShowTime, this`trace
      ensures Valid() && nextStepShowTime == INFINITE
      ensures trace == old(trace) + [Calculated(currentStepShowTime, realNow, bufferTime, renderWithApply)]
      ensures After(trace).current.Some?
      ensures currentStepShowTime ==
              if realNow > old(nextStepShowTime) then realNow + bufferTime else old(nextStepShowTime)
    {
      currentStepShowTime := nextStepShowTime;
      if realNow > currentStepShowTime { currentStepShowTime := realNow + bufferTime; }
      nextStepShowTime := INFINITE;
      Record(Calculated(currentStepShowTime, realNow, bufferTime, renderWithApply));
    }

    /** One calculation of the views, and whether their state is to be displayed. */
    method RunViews(depth: nat) returns (wanted: bool, now: int)
      requires Valid() && After(trace).current.Some?
      modifies this
      ensures Valid() && old(trace) <= trace && now == clock >= old(clock)
      // a change, or a display not updated for half a second, is going to be rendered, not later than asked for
      ensures trace != [] && trace[|trace| - 1].Answered? && trace[|trace| - 1].show == currentStepShowTime
      ensures wanted <==> trace[|trace| - 1].dirty || currentStepShowTime - earliestNextDispApply > 500000
      ensures wanted && Defined(currentStepShowTime) ==> 0 < renderPendingFor <= currentStepShowTime
      // no show time is calculated twice, except the earliest possible one
      ensures nextStepShowTime == currentStepShowTime ==> nextStepShowTime == earliestNextDispApply
      ensures old(answers) != [] ==>
                trace == old(trace) + [Answered(old(currentStepShowTime), old(answers)[0].dirty)]
      ensures depth == 0 ==> |trace| == |old(trace)| + 1
      decreases depth, 1
    {
      var dirty: bool;
      ghost var before := trace;
      nextStepShowTime, dirty := ViewStep(depth);
      CalculationStays(before, trace);
      if nextStepShowTime == currentStepShowTime { nextStepShowTime := earliestNextDispApply; }
      now := Now();
      wanted := RequestRendering(dirty);
    }

    /** Asks for a rendering if the calculated state is to be displayed. */
    method RequestRendering(dirty: bool) returns (wanted: bool)
      requires Valid() && After(trace).current.Some?
      modifies this`renderPendingFor, this`trace
      ensures Valid() && trace == old(trace) + [Answered(currentStepShowTime, dirty)]
      ensures wanted <==> dirty || currentStepShowTime - earliestNextDispApply > 500000
      ensures wanted && Defined(currentStepShowTime) ==> 0 < renderPendingFor <= currentStepShowTime
      ensures wanted ==> Defined(renderPendingFor) || !Defined(currentStepShowTime)
    {
      Record(Answered(currentStepShowTime, dirty));
      wanted := dirty || currentStepShowTime > earliestNextDispApply + MAX_UPDATE_INTERVAL;
      if wanted {
        if !Defined(renderPendingFor) || renderPendingFor > currentStepShowTime {
          renderPendingFor := currentStepShowTime;
        }
      }
    }

    /** When to come back for the next calculation, or whether to do it right now. */
    method PlanCalculation(planned: int, realNow: int) returns (scheduleNextFor: int, rightNow: bool)
      requires realNow > 0
      ensures Defined(scheduleNextFor)
      ensures scheduleNextFor >= realNow || scheduleNextFor == planned
      ensures rightNow <==> Defined(nextStepShowTime) && nextStepShowTime <= realNow + 2 * bufferTime
      ensures rightNow ==> scheduleNextFor == realNow
      ensures !rightNow && Defined(planned) ==> scheduleNextFor <= planned
      ensures !rightNow && Defined(nextStepShowTime) ==> scheduleNextFor <= nextStepShowTime - 2 * bufferTime
      // not earlier than that without a reason
      ensures !rightNow && !(Defined(planned) && scheduleNextFor == planned) ==>
                scheduleNextFor == if Defined(nextStepShowTime) then nextStepShowTime - 2 * bufferTime
                                   else realNow + 500000
    {
      scheduleNextFor, rightNow := planned, false;
      if !Defined(nextStepShowTime) {
        if !Defined(scheduleNextFor) { scheduleNextFor := realNow + MAX_UPDATE_INTERVAL; }
      } else {
        var startBeforeShow := 2 * bufferTime;
        if nextStepShowTime - realNow > startBeforeShow {
          var sch := nextStepShowTime - startBeforeShow;
          if !Defined(scheduleNextFor) || scheduleNextFor > sch { scheduleNextFor := sch; }
        } else {
          scheduleNextFor, rightNow := realNow, true;
        }
      }
    }

    /** The second half of an iteration: advances, lets the views calculate and plans what follows. */
    method Calculate(depth: nat, planned: int, realNow: int) returns (scheduleNextFor: int, now: int)
      requires Valid() && 0 < realNow <= clock && FreeToCalculate(realNow)
      modifies this
      ensures Valid() && old(trace) <= trace && clock >= now >= realNow && clock >= old(clock)
      ensures Defined(scheduleNextFor) ==> scheduleNextFor >= realNow || scheduleNextFor == planned
      ensures Defined(scheduleNextFor) || WorkLeft()
      ensures !WorkLeft() ==> InTime(scheduleNextFor)
      ensures var show := if realNow > old(nextStepShowTime) then realNow + old(bufferTime) else old(nextStepShowTime);
              Begins(old(trace), Calculated(show, realNow, old(bufferTime), old(renderWithApply)), trace)
      ensures depth == 0 ==> |trace| <= |old(trace)| + 2
      ensures old(hasRootView) && old(answers) != [] ==>
                trace == old(trace) + Calculation(old(nextStepShowTime), realNow, old(bufferTime), old(renderWithApply),
                                                  old(answers)[0].dirty)
      decreases depth, 2
    {
      scheduleNextFor, now := planned, realNow;
      ghost var before := trace;
      AdvanceShowTime(realNow);
      if hasRootView {
        var wanted: bool;
        if answers != [] { Twice(before, trace[|before|], Answered(currentStepShowTime, answers[0].dirty)); }
        wanted, now := RunViews(depth);
        if wanted { return; }
      }
      var rightNow: bool;
      scheduleNextFor, rightNow := PlanCalculation(scheduleNextFor, now);
    }

    /** A frame waits or a rendering is requested (or the show time is undefined, after a negative
        buffer time). */
    ghost predicate WorkLeft()
      reads this
    {
      Defined(dispApplyPendingFor) || Defined(renderPendingFor) || !Defined(currentStepShowTime)
    }

    /** The views may calculate: no frame is due and no rendering is possible at the time `at`, and the
        views have not yet calculated ahead of a waiting frame or may do so again. */
    ghost predicate FreeToCalculate(at: int)
      reads this
    {
      && (Defined(renderPendingFor) ==> renderWithApply && at < renderPendingFor && !Defined(dispApplyPendingFor))
      && (Defined(dispApplyPendingFor) ==>
            at < dispApplyPendingFor && (renderWithApply || After(trace).captured))
    }

    /** Early enough for the next calculation the views have asked for. */
    predicate InTime(scheduleNextFor: int)
      reads this
    {
      Defined(nextStepShowTime) ==> scheduleNextFor <= Max(clock, nextStepShowTime - 2 * bufferTime)
    }

    /** No frame waits and no rendering is requested. */
    predicate Idle()
      reads this
    {
      !Defined(dispApplyPendingFor) && !Defined(renderPendingFor)
    }

    ghost function Given(): Situation
      reads this
    {
      Situation(dispApplyPendingFor, renderPendingFor, renderWithApply, minUpdateInterval, bufferTime, trace)
    }

    /** One iteration of the loop in step(); `finished` when it breaks out. */
    method Iterate(depth: nat, planned: int, realNow: int) returns (scheduleNextFor: int, now: int, finished: bool)
      requires Valid() && 0 < realNow <= clock
      modifies this
      ensures Valid() && old(trace) <= trace && clock >= now >= realNow && clock >= old(clock)
      ensures Defined(scheduleNextFor) ==> scheduleNextFor >= realNow || scheduleNextFor == planned
      ensures Defined(scheduleNextFor) || WorkLeft()
      ensures !WorkLeft() ==> InTime(scheduleNextFor)
      ensures Prompt(old(Given()), realNow, old(nextStepShowTime), trace)
      ensures finished <==> old(Defined(dispApplyPendingFor) && realNow < dispApplyPendingFor
                                && (!renderWithApply || Defined(renderPendingFor)))
      ensures finished ==> scheduleNextFor == old(dispApplyPendingFor) == dispApplyPendingFor && trace == old(trace)
      ensures !finished ==> |trace| > |old(trace)|
      ensures depth == 0 ==> |trace| <= |old(trace)| + 4
      ensures old(Idle()) && old(hasRootView) && old(answers) != [] ==>
                trace == old(trace) + Calculation(old(nextStepShowTime), realNow, old(bufferTime), old(renderWithApply),
                                                  old(answers)[0].dirty)
      decreases depth, 4
    {
      scheduleNextFor, now, finished := planned, realNow, false;
      now, finished := UpdatePart(now);
      if finished { return dispApplyPendingFor, now, true; }
      scheduleNextFor, now := RenderAndCalculate(depth, scheduleNextFor, now);
    }

    /** An iteration with no due frame. */
    method RenderAndCalculate(depth: nat, planned: int, realNow: int) returns (scheduleNextFor: int, now: int)
      requires Valid() && 0 < realNow <= clock
      requires Defined(dispApplyPendingFor) ==>
                 realNow < dispApplyPendingFor && renderWithApply && !Defined(renderPendingFor)
      modifies this
      ensures Valid() && old(trace) <= trace && clock >= now >= realNow && clock >= old(clock)
      ensures Defined(scheduleNextFor) ==> scheduleNextFor >= realNow || scheduleNextFor == planned
      ensures Defined(scheduleNextFor) || WorkLeft()
      ensures !WorkLeft() ==> InTime(scheduleNextFor)
      ensures old(Defined(renderPendingFor) && (!renderWithApply || realNow >= renderPendingFor)) ==>
                Begins(old(trace), Rendered(old(renderPendingFor), realNow, old(renderWithApply)), trace)
      ensures !old(Defined(renderPendingFor) && (!renderWithApply || realNow >= renderPendingFor)) ==>
                var show := if realNow > old(nextStepShowTime) then realNow + old(bufferTime)
                            else old(nextStepShowTime);
                Begins(old(trace), Calculated(show, realNow, old(bufferTime), old(renderWithApply)), trace)
      ensures depth == 0 ==> |trace| <= |old(trace)| + 3
      ensures old(Idle()) && old(hasRootView) && old(answers) != [] ==>
                trace == old(trace) + Calculation(old(nextStepShowTime), realNow, old(bufferTime), old(renderWithApply),
                                                  old(answers)[0].dirty)
      decreases depth, 3
    {
      var again: bool;
      scheduleNextFor, now, again := RenderPart(planned, realNow);
      if again { return; }
      scheduleNextFor, now := Calculate(depth, scheduleNextFor, now);
    }

    /** The part of step() about a waiting frame: brings it to the LEDs if it is due, or is to wait for it. */
    method UpdatePart(realNow: int) returns (now: int, awaits: bool)
      requires Valid() && 0 < realNow <= clock
      modifies this`dispApplyPendingFor, this`earliestNextDispApply, this`clock, this`readings, this`trace
      ensures Valid() && clock >= now >= realNow && clock >= old(clock)
      ensures awaits <==> old(Defined(dispApplyPendingFor) && realNow < dispApplyPendingFor
                              && (!renderWithApply || Defined(renderPendingFor)))
      ensures old(Defined(dispApplyPendingFor) && realNow >= dispApplyPendingFor) ==>
                trace == old(trace) + [Applied(realNow, minUpdateInterval)] && !Defined(dispApplyPendingFor)
      ensures !old(Defined(dispApplyPendingFor) && realNow >= dispApplyPendingFor) ==>
                trace == old(trace) && now == realNow && dispApplyPendingFor == old(dispApplyPendingFor)
    {
      now, awaits := realNow, false;
      if Defined(dispApplyPendingFor) {
        if now >= dispApplyPendingFor {
          now := ApplyDisplayUpdate(now);
        } else if !renderWithApply || Defined(renderPendingFor) {
          awaits := true;
        }
      }
    }

    /** The part of step() about a requested rendering; `again` if the frame is due right away. */
    method RenderPart(planned: int, realNow: int) returns (scheduleNextFor: int, now: int, again: bool)
      requires Valid() && 0 < realNow <= clock
      requires Defined(dispApplyPendingFor) ==>
                 realNow < dispApplyPendingFor && renderWithApply && !Defined(renderPendingFor)
      modifies this`renderPendingFor, this`dispApplyPendingFor, this`clock, this`readings, this`trace
      ensures Valid() && clock >= now >= realNow && clock >= old(clock)
      ensures scheduleNextFor ==
              if renderWithApply && Defined(old(renderPendingFor)) && realNow < old(renderPendingFor)
              then old(renderPendingFor) else planned
      ensures old(Defined(renderPendingFor) && (!renderWithApply || realNow >= renderPendingFor)) ==>
                trace == old(trace) + [Rendered(old(renderPendingFor), realNow, renderWithApply)]
      ensures !old(Defined(renderPendingFor) && (!renderWithApply || realNow >= renderPendingFor)) ==>
                trace == old(trace) && now == realNow && !again
      ensures again ==> Defined(dispApplyPendingFor) && now >= dispApplyPendingFor
      ensures !again ==> FreeToCalculate(now)
      ensures old(Idle()) ==> Idle() && scheduleNextFor == planned
    {
      scheduleNextFor, now, again := planned, realNow, false;
      if Defined(renderPendingFor) {
        if !renderWithApply || now >= renderPendingFor {
          now := RenderPending(now);
          if now >= dispApplyPendingFor { again := true; }
        } else {
          scheduleNextFor := renderPendingFor;
        }
      }
    }

    /** Entered at a time, it does at once what is due then.  It goes on for four iterations unless it has
        to wait for a frame, never schedules into the past, and leaves without a schedule only when out of
        iterations with work left. */
    method Step(depth: nat) returns (scheduleNextFor: int, ghost entered: int)
      requires Valid()
      modifies this
      ensures Valid() && old(trace) <= trace && clock >= entered >= old(clock)
      ensures old(readings) != [] ==> entered == Max(old(clock), old(readings)[0])
      ensures Prompt(old(Given()), entered, old(nextStepShowTime), trace)
      ensures (var s := old(Given()); Defined(s.due) && entered < s.due && (!s.late || Defined(s.requested))) ==>
                scheduleNextFor == old(dispApplyPendingFor)
      ensures |trace| >= |old(trace)| + 4 || (Defined(dispApplyPendingFor) && scheduleNextFor == dispApplyPendingFor)
      ensures depth == 0 ==> |trace| <= |old(trace)| + 16
      ensures Defined(scheduleNextFor) ==> scheduleNextFor >= old(clock)
      ensures Defined(scheduleNextFor) || WorkLeft()
      ensures !WorkLeft() ==> InTime(scheduleNextFor)
      ensures old(Idle()) && old(hasRootView) && old(readings) != [] && old(answers) != [] ==>
                old(trace) + Calculation(old(nextStepShowTime), Max(old(clock), old(readings)[0]), old(bufferTime),
                                         old(renderWithApply), old(answers)[0].dirty) <= trace
      decreases depth, 5
    {
      scheduleNextFor := INFINITE;
      ghost var known := Idle() && hasRootView && readings != [] && answers != [];
      var realNow := Now();
      entered := realNow;
      ghost var given, next, first, n0 := Given(), nextStepShowTime, trace, |trace|;
      if known {
        first := trace + Calculation(nextStepShowTime, entered, bufferTime, renderWithApply, answers[0].dirty);
      }
      for n := 0 to 4
        invariant Valid() && old(trace) <= trace && clock >= realNow >= old(clock)
        invariant Defined(scheduleNextFor) ==> scheduleNextFor >= old(clock)
        invariant n > 0 ==> Defined(scheduleNextFor) || WorkLeft()
        invariant n > 0 && !WorkLeft() ==> InTime(scheduleNextFor)
        invariant clock >= entered >= old(clock) && |trace| >= n0 + n && (depth == 0 ==> |trace| <= n0 + 4 * n)
        invariant n > 0 ==> Prompt(given, entered, next, trace) && trace != given.before
        invariant n == 0 ==> realNow == entered
        invariant n == 0 ==> unchanged(`trace, `hasRootView, `answers, `dispApplyPendingFor, `renderPendingFor,
                                       `nextStepShowTime, `bufferTime, `renderWithApply, `minUpdateInterval)
        invariant n > 0 && known ==> first <= trace
      {
        var finished: bool;
        ghost var before := trace;
        scheduleNextFor, realNow, finished := Iterate(depth, scheduleNextFor, realNow);
        if n > 0 && known { Longer(first, before, trace); }
        if n > 0 { PromptForGood(given, entered, next, before, trace); }
        if finished { break; }
      }
    }

    // ----- Callers of step()

    /** The timer of the next step. */
    method AutoStep(depth: nat) returns (ghost entered: int)
      requires Valid()
      modifies this
      ensures Valid() && old(trace) <= trace && clock >= entered >= old(clock) && autoStepTicket
      ensures Prompt(old(Given()), entered, old(nextStepShowTime), trace)
      ensures Defined(nextAutoStep) || WorkLeft()
      ensures !WorkLeft() ==> InTime(nextAutoStep)
      decreases depth, 6
    {
      nextAutoStep, entered := Step(depth);
      autoStepTicket := true;
    }

    /** A step right now, which does not calculate for an earlier time than the step before. */
    method Render(depth: nat) returns (ghost entered: int, ghost show: int)
      requires Valid()
      modifies this
      ensures Valid() && old(trace) <= trace && clock >= entered >= old(clock) && autoStepTicket
      ensures Prompt(old(Given()), entered, show, trace)
      ensures if Defined(old(currentStepShowTime)) then show == old(currentStepShowTime)
              else old(clock) <= show <= entered
      decreases depth, 6
    {
      if !Defined(currentStepShowTime) { nextStepShowTime := Now(); } else { nextStepShowTime := currentStepShowTime; }
      show := nextStepShowTime;
      nextAutoStep, entered := Step(depth);
      autoStepTicket := true;
    }

    /** Views ask for a step at the time `asked`; nothing happens when the next step is near enough. */
    method ExternalUpdateRequest(depth: nat) returns (ghost asked: int, ghost entered: int)
      requires Valid()
      modifies this
      ensures Valid() && old(trace) <= trace && clock >= entered >= asked >= old(clock)
      ensures !old(hasRootView) || old(nextAutoStep) <= asked + 2 * old(minUpdateInterval) ==>
                trace == old(trace) && nextAutoStep == old(nextAutoStep) && nextStepShowTime == old(nextStepShowTime)
      // with a timer armed the step is left to it, and the show time does not go back
      ensures old(hasRootView) && old(nextAutoStep) > asked + 2 * old(minUpdateInterval) ==>
                var show := if Defined(old(currentStepShowTime)) then old(currentStepShowTime) else asked;
                if old(autoStepTicket)
                then autoStepTicket && trace == old(trace) && nextAutoStep == asked && nextStepShowTime == show
                else Prompt(old(Given()), entered, show, trace)
      decreases depth, 6
    {
      asked, entered := clock, clock;
      if hasRootView {
        var realNow := Now();
        asked, entered := realNow, realNow;
        if nextAutoStep > realNow + 2 * minUpdateInterval {
          nextStepShowTime := if !Defined(currentStepShowTime) then realNow else currentStepShowTime;
          if autoStepTicket {
            nextAutoStep := realNow;
          } else {
            nextAutoStep, entered := Step(depth);
          }
        }
      }
    }
  }

  /** Main result on the code: whatever happens in whatever order, the display is paced.  A new
      arrangement is used from the start: timers fire, views and scripts ask for steps, settings change. */
  method AnyRun(now: int, depth: nat) returns (arrangement: LEDChainArrangement)
    requires now > 0
    ensures fresh(arrangement) && arrangement.Valid()
    ensures Paced(Display(arrangement.trace)) && EndsIn(Display(arrangement.trace), After(arrangement.trace))
  {
    arrangement := new LEDChainArrangement(now);
    var events: int := *;
    while events > 0
      invariant fresh(arrangement) && arrangement.Valid()
    {
      var event: int := *;
      match event {
        case 0 => var _ := arrangement.AutoStep(depth);
        case 1 => var _, _ := arrangement.Render(depth);
        case 2 => var _, _ := arrangement.ExternalUpdateRequest(depth);
        case _ => var _, _ := arrangement.ViewStep(depth);  // any other calls
      }
      events := events - 1;
    }
    DisplayIsPaced(arrangement.trace);
  }

  // ----- What legal traces mean

  /** What happens to the display. */
  function Display(trace: seq<Event>): seq<Event> {
    if trace == [] then []
    else
      var e, front := trace[|trace| - 1], Display(trace[..|trace| - 1]);
      if e.Rendered? || e.Applied? then front + [e] else front
  }

  /** Every rendered frame is applied exactly once before the next one is rendered; it is not applied
      before its show time nor too soon after the update before it. */
  ghost predicate Paced(d: seq<Event>) {
    forall i :: 0 <= i < |d| ==> Fits(d, i)
  }

  predicate Fits(d: seq<Event>, i: nat)
    requires i < |d|
  {
    match d[i]
    case Rendered(_, _, _) => i == 0 || d[i - 1].Applied?
    case Applied(_, _) => i > 0 && OnTime(d[i - 1], d[i]) && (i == 1 || KeepsDistance(d[i - 2], d[i]))
    case _ => false
  }

  predicate OnTime(rendered: Event, applied: Event) {
    rendered.Rendered? && applied.Applied? && applied.at >= rendered.show
  }

  predicate KeepsDistance(earlier: Event, later: Event) {
    earlier.Applied? && later.Applied? && later.at >= earlier.at + earlier.interval
  }

  /** Main result: in every run, renderings and updates alternate and keep their distances; at any
      time at most the last frame waits. */
  lemma {:induction false} DisplayIsPaced(trace: seq<Event>)
    requires Legal(trace)
    ensures Paced(Display(trace)) && EndsIn(Display(trace), After(trace))
  {
    if trace != [] {
      var n := |trace| - 1;
      DisplayIsPaced(trace[..n]);
      DisplayGoesOn(Display(trace[..n]), After(trace[..n]), trace[n]);
    }
  }

  /** The summary remembers the end of the display's history. */
  ghost predicate EndsIn(d: seq<Event>, s: Summary) {
    var n := |d|;
    if n > 0 && d[n - 1].Rendered? then
      s.waiting == Some(d[n - 1].show) && (n > 1 ==> d[n - 2].Applied? && s.earliest == d[n - 2].at + d[n - 2].interval)
    else
      s.waiting == None && (n > 0 ==> d[n - 1].Applied? && s.earliest == d[n - 1].at + d[n - 1].interval)
  }

  lemma DisplayGoesOn(d: seq<Event>, s: Summary, e: Event)
    requires Paced(d) && EndsIn(d, s) && Allowed(s, e)
    ensures var more := if e.Rendered? || e.Applied? then d + [e] else d;
            Paced(more) && EndsIn(more, Next(s, e))
  {
    if e.Rendered? || e.Applied? {
      var more := d + [e];
      forall i | 0 <= i < |more|
        ensures Fits(more, i)
      {
        if i < |d| {
          assert Fits(d, i);
        }
      }
    }
  }

  /** No calculation is moved to before time 0 by a negative buffer time. */
  predicate BuffersReachTime(trace: seq<Event>) {
    forall i :: 0 <= i < |trace| && trace[i].Calculated? ==> Defined(trace[i].at + trace[i].bufferTime)
  }

  lemma {:induction false} ShowTimesAreDefined(trace: seq<Event>)
    requires Legal(trace) && BuffersReachTime(trace) && After(trace).current.Some?
    ensures Defined(After(trace).current.value)
  {
    var n := |trace| - 1;
    if !trace[n].Calculated? {
      ShowTimesAreDefined(trace[..n]);
    }
  }

  /** Event i asks for a rendering. */
  predicate Requests(trace: seq<Event>, i: int) {
    0 <= i < |trace| && trace[i].Answered? && Wanted(After(trace[..i]), trace[i])
  }

  predicate RenderedBetween(trace: seq<Event>, i: int, j: int)
    requires j <= |trace|
  {
    exists k :: 0 <= i < k < j && trace[k].Rendered?
  }

  /** Frames are rendered on request only, and only once for a request. */
  lemma RenderedIsRequested(trace: seq<Event>, j: nat) returns (i: int)
    requires Legal(trace) && j < |trace| && trace[j].Rendered?
    ensures i < j && Requests(trace, i) && trace[i].show == trace[j].show && !RenderedBetween(trace, i, j)
  {
    LegalBefore(trace, j + 1);
    assert trace[..j + 1][..j] == trace[..j];
    i := PendingIsRequested(trace[..j]);
    assert trace[..j][..i] == trace[..i];
  }

  lemma {:induction false} LegalBefore(trace: seq<Event>, n: nat)
    requires Legal(trace) && n <= |trace|
    ensures Legal(trace[..n])
    decreases |trace|
  {
    if n == |trace| {
      assert trace[..n] == trace;
    } else {
      assert trace[..|trace| - 1][..n] == trace[..n];
      LegalBefore(trace[..|trace| - 1], n);
    }
  }

  lemma {:induction false} PendingIsRequested(trace: seq<Event>) returns (i: int)
    requires Legal(trace) && Defined(After(trace).pending)
    ensures Requests(trace, i) && trace[i].show == After(trace).pending && !RenderedBetween(trace, i, |trace|)
  {
    var n := |trace| - 1;
    var front := trace[..n];
    if Requests(trace, n) && After(trace).pending == trace[n].show {
      i := n;
    } else {
      i := PendingIsRequested(front);
      assert front[..i] == trace[..i];
      assert forall k :: 0 <= k < n ==> front[k] == trace[k];
    }
  }

  /** A frame not later than asked for has been rendered since, or is going to be. */
  predicate Served(trace: seq<Event>, i: int)
    requires 0 <= i < |trace| && trace[i].Answered?
  {
    || (exists j :: i < j < |trace| && trace[j].Rendered? && trace[j].show <= trace[i].show)
    || 0 < After(trace).pending <= trace[i].show
  }

  ghost predicate AllServed(trace: seq<Event>) {
    forall i :: Requests(trace, i) ==> Served(trace, i)
  }

  ghost predicate RequestsDefined(trace: seq<Event>) {
    forall i :: Requests(trace, i) ==> Defined(trace[i].show)
  }

  /** Main result on requests: every request is served exactly if all of them are for a defined time. */
  lemma RequestsAreServedIff(trace: seq<Event>)
    requires Legal(trace)
    ensures AllServed(trace) <==> RequestsDefined(trace)
  {
    forall i | Requests(trace, i) && Served(trace, i)
      ensures Defined(trace[i].show)
    {
      if j :| i < j < |trace| && trace[j].Rendered? && trace[j].show <= trace[i].show {
        LegalBefore(trace, j + 1);
        assert trace[..j + 1][..j] == trace[..j];
      }
    }
    if RequestsDefined(trace) {
      forall i | Requests(trace, i)
        ensures Served(trace, i)
      {
        RequestIsServed(trace, i);
      }
    }
  }

  /** A condition on the settings that is enough. */
  lemma BuffersReachTimeSuffices(trace: seq<Event>)
    requires Legal(trace) && BuffersReachTime(trace)
    ensures RequestsDefined(trace) && AllServed(trace)
  {
    forall i | Requests(trace, i)
      ensures Defined(trace[i].show)
    {
      LegalBefore(trace, i + 1);
      LegalBefore(trace, i);
      assert trace[..i + 1][..i] == trace[..i];
      ShowTimesAreDefined(trace[..i]);
    }
    RequestsAreServedIff(trace);
  }

  lemma RequestInFront(trace: seq<Event>, n: nat, i: int)
    requires n <= |trace|
    ensures Requests(trace[..n], i) <==> Requests(trace, i) && i < n
  {
    if 0 <= i < n {
      assert trace[..n][..i] == trace[..i];
    }
  }

  lemma RequestsDefinedInFront(trace: seq<Event>, n: nat)
    requires n <= |trace| && RequestsDefined(trace)
    ensures RequestsDefined(trace[..n])
  {
    forall k | Requests(trace[..n], k)
      ensures Defined(trace[..n][k].show)
    {
      RequestInFront(trace, n, k);
    }
  }

  lemma {:induction false} RequestIsServed(trace: seq<Event>, i: int)
    requires Legal(trace) && RequestsDefined(trace) && Requests(trace, i)
    ensures Served(trace, i)
  {
    var n := |trace| - 1;
    var front := trace[..n];
    RequestsDefinedInFront(trace, n);
    if i < n {
      RequestInFront(trace, n, i);
      RequestIsServed(front, i);
      if j :| i < j < n && front[j].Rendered? && front[j].show <= front[i].show {
        assert trace[j] == front[j];
      } else if trace[n].Answered? && Wanted(After(front), trace[n]) {
        assert Requests(trace, n);
      }
    }
  }

  /** When rendering is not late, a requested state is in a frame before the views calculate again. */
  lemma EarlyRenderingLosesNoState(trace: seq<Event>, i: int, j: int)
    requires Legal(trace) && RequestsDefined(trace) && Requests(trace, i)
    requires i < j < |trace| && trace[j].Calculated? && !trace[j].late
    ensures exists k :: i < k < j && trace[k].Rendered? && trace[k].show <= trace[i].show
  {
    var front := trace[..j];
    NothingIsPending(trace, j);
    LegalBefore(trace, j);
    RequestsDefinedInFront(trace, j);
    RequestInFront(trace, j, i);
    RequestIsServed(front, i);
    var k :| i < k < |front| && front[k].Rendered? && front[k].show <= front[i].show;
    assert trace[k] == front[k];
  }

  lemma NothingIsPending(trace: seq<Event>, j: nat)
    requires Legal(trace) && j < |trace| && trace[j].Calculated? && !trace[j].late
    ensures !Defined(After(trace[..j]).pending)
  {
    LegalBefore(trace, j + 1);
    assert trace[..j + 1][..j] == trace[..j];
  }

  predicate UpdatedBetween(trace: seq<Event>, i: int, j: int)
    requires j <= |trace|
  {
    exists k :: 0 <= i < k < j && trace[k].Applied?
  }

  lemma {:induction false} EarliestIsLastUpdate(trace: seq<Event>, i: int)
    requires -1 <= i < |trace| && (i >= 0 ==> trace[i].Applied?)
    requires forall k :: i < k < |trace| ==> !trace[k].Applied?
    ensures After(trace).earliest == if i < 0 then INFINITE else trace[i].at + trace[i].interval
  {
    var n := |trace| - 1;
    if i < n {
      EarliestIsLastUpdate(trace[..n], i);
    }
  }

  /** What asks for a rendering after the update i: a change, or views that calculate for more than half a
      second after the next update would be possible. */
  lemma RequestsAfterUpdate(trace: seq<Event>, i: nat, j: nat)
    requires i < j < |trace| && trace[i].Applied? && trace[j].Answered? && !UpdatedBetween(trace, i, j)
    ensures Requests(trace, j) <==> trace[j].dirty || trace[j].show - trace[i].at - trace[i].interval > 500000
  {
    EarliestIsLastUpdate(trace[..j], i);
  }

  /** The same before any update. */
  lemma RequestsBeforeUpdates(trace: seq<Event>, j: nat)
    requires j < |trace| && trace[j].Answered? && forall k :: 0 <= k < j ==> !trace[k].Applied?
    ensures Requests(trace, j) <==> trace[j].dirty || trace[j].show >= 500000
  {
    EarliestIsLastUpdate(trace[..j], -1);
  }

  lemma {:induction false} RenderedWaits(trace: seq<Event>, i: nat)
    requires Legal(trace) && i < |trace| && trace[i].Rendered? && !UpdatedBetween(trace, i, |trace|)
    ensures var s := After(trace); s.waiting == Some(trace[i].show) && s.earliest == After(trace[..i]).earliest
  {
    var n := |trace| - 1;
    if i < n {
      assert trace[..n][..i] == trace[..i];
      RenderedWaits(trace[..n], i);
    }
  }

  /** Main result on due frames: the views do not calculate while a frame is due. */
  lemma DueFrameComesFirst(trace: seq<Event>, i: nat, j: nat)
    requires Legal(trace) && i < j < |trace| && trace[i].Rendered? && trace[j].Calculated?
    requires !UpdatedBetween(trace, i, j)
    ensures trace[j].at < trace[i].show || trace[j].at < After(trace[..i]).earliest
  {
    LegalBefore(trace, j + 1);
    assert trace[..j + 1][..j] == trace[..j] && trace[..j][..i] == trace[..i];
    RenderedWaits(trace[..j], i);
  }

  /** Ahead of a waiting frame the views calculate only once, right after it has been rendered, unless
      rendering is late. */
  lemma OneCalculationAhead(trace: seq<Event>, i: nat, j: nat)
    requires Legal(trace) && i < j < |trace| && trace[i].Rendered? && trace[j].Calculated?
    requires !UpdatedBetween(trace, i, j)
    ensures trace[j].late || j == i + 1
  {
    LegalBefore(trace, j + 1);
    assert trace[..j + 1][..j] == trace[..j] && trace[..j][..i] == trace[..i];
    RenderedWaits(trace[..j], i);
    if After(trace[..j]).captured && i < j - 1 {
      LegalBefore(trace, j);
      assert trace[..j][..j - 1] == trace[..j - 1] && trace[..j - 1][..i] == trace[..i];
      RenderedWaits(trace[..j - 1], i);
      assert trace[j - 1].Rendered?;
    }
  }

  lemma {:induction false} RequestIsPending(trace: seq<Event>, i: int)
    requires Legal(trace) && RequestsDefined(trace) && Requests(trace, i) && !RenderedBetween(trace, i, |trace|)
    ensures 0 < After(trace).pending <= trace[i].show
  {
    var n := |trace| - 1;
    RequestsDefinedInFront(trace, n);
    if i < n {
      RequestInFront(trace, n, i);
      RequestIsPending(trace[..n], i);
      if trace[n].Answered? && Wanted(After(trace[..n]), trace[n]) {
        assert Requests(trace, n);
      }
    }
  }

  /** Main result on requested renderings: until it is rendered, the views calculate only if rendering is
      late, and only before the time asked for. */
  lemma RequestComesFirst(trace: seq<Event>, i: int, j: nat)
    requires Legal(trace) && RequestsDefined(trace) && Requests(trace, i)
    requires i < j < |trace| && trace[j].Calculated? && !RenderedBetween(trace, i, j)
    ensures trace[j].late && trace[j].at < trace[i].show
  {
    LegalBefore(trace, j + 1);
    assert trace[..j + 1][..j] == trace[..j];
    RequestsDefinedInFront(trace, j);
    RequestInFront(trace, j, i);
    RequestIsPending(trace[..j], i);
  }

  /** A buffer time of -6 microseconds at clock reading 1 loses a request: a run of the code in which
      the first change of the views is never served, whatever follows. */
  method NegativeBufferLosesRequest() returns (arrangement: LEDChainArrangement)
    ensures fresh(arrangement) && arrangement.Valid()
    ensures Requests(arrangement.trace, 1) && !Served(arrangement.trace, 1)
  {
    arrangement := new LEDChainArrangement(1);
    arrangement.SetRootView();
    arrangement.SetBufferTime(-6);
    arrangement.Expect([1], [Answer(INFINITE, true)]);
    ghost var empty := arrangement.trace;
    var _, _ := arrangement.Step(0);
    ghost var first := [Calculated(-5, 1, -6, false), Answered(-5, true)];
    FirstRequestIsLost(arrangement.trace, first);
  }

  lemma FirstRequestIsLost(trace: seq<Event>, first: seq<Event>)
    requires first == [Calculated(-5, 1, -6, false), Answered(-5, true)] && first <= trace && Legal(trace)
    ensures Requests(trace, 1) && !Served(trace, 1)
  {
    assert trace[1] == first[1] && trace[..1] == first[..1];
    forall j | 1 < j < |trace| && trace[j].Rendered?
      ensures Defined(trace[j].show)
    {
      LegalBefore(trace, j + 1);
      assert trace[..j + 1][..j] == trace[..j];
    }
  }
}
