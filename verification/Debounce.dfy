/** Input change reporting with debouncing (iopin.cpp).

    Times are microseconds of a clock that never goes back; 0 stands for "never".  A pin learns the
    input level from edges and polls, which both end in inputHasChangedTo(), and from the resampling
    timer.  Calling the client is always the last thing an event does, so a client that reacts at
    once is an event that follows.
  */
module Debounce {
  import opened Options

  type Time = int

  const NEVER: Time := 0
  const DEFAULT_POLL_INTERVAL: Time := 25_000

  /** A state as delivered to the client, and when. */
  datatype Report = Report(state: bool, at: Time)

  /** All that matters about a pin from one installation of a handler to the next. */
  datatype Pin = Pin(current: bool, inverted: bool, debounceTime: Time, lastReportedChange: Time,
                     resampleAt: Option<Time>, initial: bool, lastLevel: bool, reports: seq<Report>, clock: Time)

  datatype Event =
    | Level(level: bool, now: Time)     // an edge or a poll
    | Resample(level: bool, now: Time)  // the debounce timer

  /** Time does not go back, and the timer does not fire before it is due. */
  predicate Possible(p: Pin, e: Event) {
    p.clock <= e.now && (e.Resample? ==> p.resampleAt.Some? && p.resampleAt.value <= e.now)
  }

  function Reported(p: Pin, level: bool, now: Time): Pin {
    p.(current := level, lastReportedChange := now, reports := p.reports + [Report(level != p.inverted, now)])
  }

  function Next(p: Pin, e: Event): Pin {
    var q := p.(clock := e.now, lastLevel := e.level);
    if e.Resample? then
      var fired := q.(resampleAt := None);
      if e.level != p.current then Reported(fired, e.level, e.now) else fired
    else if e.level == p.current then q
    else if p.debounceTime > 0 && p.lastReportedChange != NEVER && p.lastReportedChange + p.debounceTime > e.now then
      q.(resampleAt := Some(e.now + p.debounceTime))
    else
      Reported(q.(resampleAt := None), e.level, e.now)
  }

  /** A newly installed handler; the time of the last report and a pending timer survive from before. */
  predicate Installed(p: Pin) {
    && p.current == p.lastLevel == p.initial && p.reports == []
    && 0 < p.clock && p.lastReportedChange <= p.clock
  }

  class IOPin {
    var reporting: bool               // a client is installed
    var pollInterval: Time
    var pollScheduled: bool
    var currentState: bool
    var invertedReporting: bool
    var debounceTime: Time
    var lastReportedChange: Time
    var debounceTicket: Option<Time>  // when the resampling timer is due
    ghost var initial: bool
    ghost var lastLevel: bool
    ghost var reports: seq<Report>
    ghost var clock: Time

    ghost function Abs(): Pin
      reads this
    {
      Pin(currentState, invertedReporting, debounceTime, lastReportedChange, debounceTicket, initial, lastLevel,
          reports, clock)
    }

    constructor (now: Time)
      requires now > 0
      ensures lastReportedChange == NEVER && debounceTicket == None && clock == now && !reporting && !pollScheduled
      ensures !currentState && !invertedReporting && debounceTime == 0
    {
      reporting, pollInterval, pollScheduled := false, NEVER, false;
      currentState, invertedReporting, debounceTime := false, false, 0;
      lastReportedChange, debounceTicket := NEVER, None;
      initial, lastLevel, reports, clock := false, false, [], now;
    }

    method ClearChangeHandling()
      modifies this`reporting, this`pollInterval, this`pollScheduled, this`debounceTicket
      ensures !reporting && !pollScheduled && debounceTicket == None
    {
      reporting, pollInterval, pollScheduled, debounceTicket := false, NEVER, false, None;
    }

    method SetInputChangedHandler(install: bool, inverted: bool, initialState: bool, debounce: Time, interval: Time)
      returns (supported: bool)
      requires 0 < clock && lastReportedChange <= clock
      modifies this
      ensures Installed(Abs()) && reporting == install
      ensures currentState == initialState && invertedReporting == inverted && debounceTime == debounce
      ensures debounceTicket == if install then old(debounceTicket) else None
      ensures supported == (!install || interval >= 0)
      ensures install && interval >= 0 ==> pollScheduled && pollInterval > 0
      ensures lastReportedChange == old(lastReportedChange) && clock == old(clock)
    {
      reporting, pollInterval, currentState := install, interval, initialState;
      invertedReporting, debounceTime := inverted, debounce;
      initial, lastLevel, reports := initialState, initialState, [];
      if !install {
        ClearChangeHandling();
      } else {
        if pollInterval < 0 { return false; }
        if pollInterval == 0 { pollInterval := DEFAULT_POLL_INTERVAL; }
        pollScheduled := true;
      }
      return true;
    }

    method ReportChange()
      requires reporting
      modifies this`reports
      ensures reports == old(reports) + [Report(currentState != invertedReporting, lastReportedChange)]
    {
      reports := reports + [Report(currentState != invertedReporting, lastReportedChange)];
    }

    method InputHasChangedTo(newState: bool, now: Time)
      requires reporting && Possible(Abs(), Level(newState, now))
      modifies this`currentState, this`lastReportedChange, this`debounceTicket, this`lastLevel, this`reports, this`clock
      ensures Abs() == Next(old(Abs()), Level(newState, now))
    {
      clock, lastLevel := now, newState;
      if newState != currentState {
        debounceTicket := None;
        if debounceTime > 0 && lastReportedChange != NEVER {
          if lastReportedChange + debounceTime > now {
            debounceTicket := Some(now + debounceTime);
            return;
          }
        }
        currentState := newState;
        lastReportedChange := now;
        ReportChange();
      }
    }

    method DebounceSample(state: bool, now: Time)
      requires reporting && Possible(Abs(), Resample(state, now))
      modifies this`currentState, this`lastReportedChange, this`debounceTicket, this`lastLevel, this`reports, this`clock
      ensures Abs() == Next(old(Abs()), Resample(state, now))
    {
      clock, lastLevel, debounceTicket := now, state, None;
      if state != currentState {
        currentState := state;
        lastReportedChange := now;
        ReportChange();
      }
    }

    method TimedPoll(state: bool, now: Time)
      requires reporting && pollScheduled && Possible(Abs(), Level(state, now))
      modifies this`currentState, this`lastReportedChange, this`debounceTicket, this`lastLevel, this`reports, this`clock
      ensures Abs() == Next(old(Abs()), Level(state, now)) && pollScheduled
    {
      InputHasChangedTo(state, now);
    }
  }

  // ----- Whole runs

  ghost predicate PossibleRun(p: Pin, events: seq<Event>)
    decreases |events|
  {
    events == [] || (Possible(p, events[0]) && PossibleRun(Next(p, events[0]), events[1..]))
  }

  function Run(p: Pin, events: seq<Event>): Pin
    decreases |events|
  {
    if events == [] then p else Run(Next(p, events[0]), events[1..])
  }

  /** The states delivered alternate, starting with the opposite of the initial state, and the pin
      remembers the last one. */
  ghost predicate Alternating(p: Pin) {
    && (forall i :: 0 <= i < |p.reports| ==> p.reports[i].state == ((p.initial != p.inverted) != (i % 2 == 0)))
    && p.current == (p.initial != (|p.reports| % 2 == 1))
  }

  /** Reports are at least the debounce time apart. */
  ghost predicate Spaced(p: Pin) {
    forall i :: 0 < i < |p.reports| ==> p.reports[i - 1].at + p.debounceTime <= p.reports[i].at
  }

  /** The last level seen has been reported, or the input will be looked at again. */
  ghost predicate NothingMissed(p: Pin) {
    p.lastLevel == p.current || p.resampleAt.Some?
  }

  ghost predicate Invariant(p: Pin) {
    && Alternating(p) && Spaced(p) && NothingMissed(p)
    && 0 < p.clock && p.lastReportedChange <= p.clock
    && (p.reports != [] ==>
          var last := p.reports[|p.reports| - 1];
          && p.lastReportedChange == last.at && 0 < last.at
          && (p.resampleAt.Some? ==> last.at + p.debounceTime <= p.resampleAt.value))
  }

  lemma ReportKeepsInvariant(p: Pin, level: bool, now: Time)
    requires Alternating(p) && Spaced(p) && level != p.current && p.resampleAt == None
    requires p.lastLevel == level && 0 < now == p.clock
    requires p.reports != [] ==> p.reports[|p.reports| - 1].at + p.debounceTime <= now
    ensures Invariant(Reported(p, level, now))
  {
    var q := Reported(p, level, now);
    assert forall i :: 0 <= i < |p.reports| ==> q.reports[i] == p.reports[i];
    assert q.reports[|p.reports|].state == (level != p.inverted);
  }

  lemma NextKeepsInvariant(p: Pin, e: Event)
    requires Invariant(p) && Possible(p, e)
    ensures Invariant(Next(p, e))
  {
    var q := p.(clock := e.now, lastLevel := e.level);
    if e.level != p.current && Next(p, e).reports != p.reports {
      ReportKeepsInvariant(q.(resampleAt := None), e.level, e.now);
    }
  }

  /** Main result: in every run after a handler is installed, reports alternate and are at least the
      debounce time apart, and no level is forgotten. */
  lemma {:induction false} EveryRunIsDebounced(p: Pin, events: seq<Event>)
    requires Invariant(p) && PossibleRun(p, events)
    ensures var q := Run(p, events); Alternating(q) && Spaced(q) && NothingMissed(q)
    ensures Invariant(Run(p, events))
    decreases |events|
  {
    if events != [] {
      NextKeepsInvariant(p, events[0]);
      EveryRunIsDebounced(Next(p, events[0]), events[1..]);
    }
  }

  lemma InstallationStartsInvariant(p: Pin)
    requires Installed(p)
    ensures Invariant(p)
  {
  }

  /** What becomes of a changed level: it is reported at once, unless there has been a report within the
      debounce time; then the input is looked at again when another debounce time is over. */
  lemma ChangeIsReportedOrPostponed(p: Pin, level: bool, now: Time)
    requires level != p.current
    ensures var q := Next(p, Level(level, now));
            if p.debounceTime <= 0 || p.lastReportedChange == 0 || now - p.lastReportedChange >= p.debounceTime then
              && q.reports == p.reports + [Report(level != p.inverted, now)] && q.current == level
              && q.lastReportedChange == now && q.resampleAt == None
            else
              && q.reports == p.reports && q.current == p.current && q.lastReportedChange == p.lastReportedChange
              && q.resampleAt.Some? && q.resampleAt.value - now == p.debounceTime
  {
  }

  /** A level that is the current one changes nothing. */
  lemma SameLevelIsIgnored(p: Pin, level: bool, now: Time)
    requires level == p.current
    ensures var q := Next(p, Level(level, now));
            q.reports == p.reports && q.resampleAt == p.resampleAt && q.lastReportedChange == p.lastReportedChange
  {
  }

  /** A level that still differs when the timer fires is reported then, at the latest. */
  lemma PersistentChangeIsReported(p: Pin, now: Time)
    requires Invariant(p) && p.lastLevel != p.current
    requires Possible(p, Resample(p.lastLevel, now))
    ensures var q := Next(p, Resample(p.lastLevel, now));
            && q.current == p.lastLevel
            && q.reports == p.reports + [Report(p.lastLevel != p.inverted, now)]
  {
  }
}
