/** Runs of the sliding-window evaluator of extutils.cpp in which samples and evaluations per now follow
    each other.

    Evaluating per now adds the latest datapoint again as a fresh sample.  So a value can be carried on
    and on, although the samples it comes from have long left the window.
  */
module WindowRuns {
  import W = WindowEvaluator
  import opened WindowEvaluator

  /** A use of the evaluator: a sample, or an evaluation per now. */
  datatype Use = Add(s: Sample) | PerNow(now: int)

  function TimeOf(use: Use): int {
    match use
    case Add(s) => s.time
    case PerNow(now) => now
  }

  predicate InOrder(uses: seq<Use>) {
    forall i, j :: 0 <= i < j < |uses| ==> TimeOf(uses[i]) <= TimeOf(uses[j])
  }

  /** The samples the evaluator sees, repeated values included. */
  function Seen(mode: Mode, uses: seq<Use>, windowTime: int, collTime: int): seq<Sample> {
    if uses == [] then []
    else
      var n := |uses| - 1;
      SeenNext(mode, Seen(mode, uses[..n], windowTime, collTime), uses[n], windowTime, collTime)
  }

  function SeenNext(mode: Mode, seen: seq<Sample>, use: Use, windowTime: int, collTime: int): seq<Sample> {
    match use
    case Add(s) => seen + [s]
    case PerNow(now) =>
      if Run(seen, windowTime, collTime).groups == [] then seen
      else seen + [Repeated(mode, seen, windowTime, collTime, now)]
  }

  lemma OneMoreUse(mode: Mode, uses: seq<Use>, use: Use, windowTime: int, collTime: int)
    ensures Seen(mode, uses + [use], windowTime, collTime)
            == SeenNext(mode, Seen(mode, uses, windowTime, collTime), use, windowTime, collTime)
  {
    assert (uses + [use])[..|uses|] == uses;
  }

  lemma {:induction false} SeenInOrder(mode: Mode, uses: seq<Use>, windowTime: int, collTime: int)
    requires InOrder(uses) && windowTime >= 0
    ensures var seen := Seen(mode, uses, windowTime, collTime);
            && Sorted(seen)
            && (seen != [] ==> uses != [] && seen[|seen| - 1].time == TimeOf(uses[|uses| - 1]))
  {
    if uses != [] {
      var n := |uses| - 1;
      SeenInOrder(mode, uses[..n], windowTime, collTime);
      if n > 0 { FrontInOrder(uses); }
      NextInOrder(mode, Seen(mode, uses[..n], windowTime, collTime), uses[n], windowTime, collTime);
    }
  }

  lemma NextInOrder(mode: Mode, seen: seq<Sample>, use: Use, windowTime: int, collTime: int)
    requires Sorted(seen) && windowTime >= 0 && (seen != [] ==> seen[|seen| - 1].time <= TimeOf(use))
    ensures var next := SeenNext(mode, seen, use, windowTime, collTime);
            Sorted(next) && (next != [] ==> next[|next| - 1].time == TimeOf(use))
  {
    if seen != [] { RunKeepsSamples(seen, windowTime, collTime); }
    var next := SeenNext(mode, seen, use, windowTime, collTime);
    if next != seen { SortedOneMore(seen, next[|next| - 1]); }
  }

  lemma {:induction false} SampleIsSeen(mode: Mode, uses: seq<Use>, windowTime: int, collTime: int, i: nat)
    requires i < |uses| && uses[i].Add?
    ensures uses[i].s in Seen(mode, uses, windowTime, collTime)
  {
    var n := |uses| - 1;
    if i < n {
      SampleIsSeen(mode, uses[..n], windowTime, collTime, i);
    }
  }

  /** Where a sample comes from. */
  lemma {:induction false} Origin(mode: Mode, uses: seq<Use>, windowTime: int, collTime: int, k: nat) returns (i: nat)
    requires k < |Seen(mode, uses, windowTime, collTime)|
    ensures i < |uses| && TimeOf(uses[i]) == Seen(mode, uses, windowTime, collTime)[k].time
    ensures uses[i].Add? ==> uses[i].s == Seen(mode, uses, windowTime, collTime)[k]
  {
    var n := |uses| - 1;
    var before := Seen(mode, uses[..n], windowTime, collTime);
    if k < |before| {
      i := Origin(mode, uses[..n], windowTime, collTime, k);
    } else {
      i := n;
    }
  }

  /** Main result for maximum and minimum, in every run: no sample of the last window time is beyond the
      result. */
  lemma RunCoversWindow(mode: Mode, uses: seq<Use>, windowTime: int, collTime: int, i: nat)
    requires (mode == Max || mode == Min) && InOrder(uses) && windowTime >= 0
    requires i < |uses| && uses[i].Add? && uses[i].s.time >= TimeOf(uses[|uses| - 1]) - windowTime
    ensures var r := Result(mode, Seen(mode, uses, windowTime, collTime), windowTime, collTime);
            if mode == Max then uses[i].s.value <= r else uses[i].s.value >= r
  {
    var seen := Seen(mode, uses, windowTime, collTime);
    SeenInOrder(mode, uses, windowTime, collTime);
    SampleIsSeen(mode, uses, windowTime, collTime, i);
    var k :| 0 <= k < |seen| && seen[k] == uses[i].s;
    ExtremeCoversWindow(mode, seen, windowTime, collTime, k);
  }

  predicate SamplesWithin(uses: seq<Use>, lo: real, hi: real) {
    forall i :: 0 <= i < |uses| && uses[i].Add? ==> lo <= uses[i].s.value <= hi
  }

  lemma {:induction false} SeenIsWithin(mode: Mode, uses: seq<Use>, windowTime: int, collTime: int, lo: real, hi: real)
    requires InOrder(uses) && windowTime >= 0 && SamplesWithin(uses, lo, hi)
    ensures var seen := Seen(mode, uses, windowTime, collTime);
            forall k :: 0 <= k < |seen| ==> lo <= seen[k].value <= hi
  {
    if uses != [] {
      var n := |uses| - 1;
      var before := Seen(mode, uses[..n], windowTime, collTime);
      SeenIsWithin(mode, uses[..n], windowTime, collTime, lo, hi);
      SeenInOrder(mode, uses[..n], windowTime, collTime);
      var last := |Run(before, windowTime, collTime).groups| - 1;
      if last >= 0 && before != [] {
        PointIsBounded(mode, before, windowTime, collTime, lo, hi, last);
      }
    }
  }

  /** Main result for every mode, in every run: the result lies between any bounds of all samples. */
  lemma RunIsWithin(mode: Mode, uses: seq<Use>, windowTime: int, collTime: int, lo: real, hi: real)
    requires InOrder(uses) && windowTime > 0 && SamplesWithin(uses, lo, hi)
    requires Seen(mode, uses, windowTime, collTime) != []
    ensures lo <= Result(mode, Seen(mode, uses, windowTime, collTime), windowTime, collTime) <= hi
  {
    SeenInOrder(mode, uses, windowTime, collTime);
    SeenIsWithin(mode, uses, windowTime, collTime, lo, hi);
    ResultIsWithin(mode, Seen(mode, uses, windowTime, collTime), windowTime, collTime, lo, hi);
  }

  /** No evaluation per now is within reach at time t. */
  predicate NoneRepeated(uses: seq<Use>, t: int, windowTime: int, collTime: int) {
    forall i :: 0 <= i < |uses| && uses[i].PerNow? ==> !InReach(Sample(0.0, uses[i].now), t, windowTime, collTime)
  }

  /** Main result for maximum and minimum, other side: the result is the value of a sample within reach,
      unless an evaluation per now is within reach as well. */
  lemma RunReachesBack(mode: Mode, uses: seq<Use>, windowTime: int, collTime: int) returns (i: nat)
    requires (mode == Max || mode == Min) && InOrder(uses) && windowTime >= 0
    requires Seen(mode, uses, windowTime, collTime) != []
    requires NoneRepeated(uses, TimeOf(uses[|uses| - 1]), windowTime, collTime)
    ensures i < |uses| && uses[i].Add? && InReach(uses[i].s, TimeOf(uses[|uses| - 1]), windowTime, collTime)
    ensures uses[i].s.value == Result(mode, Seen(mode, uses, windowTime, collTime), windowTime, collTime)
  {
    SeenInOrder(mode, uses, windowTime, collTime);
    var k := ExtremeIsReached(mode, Seen(mode, uses, windowTime, collTime), windowTime, collTime);
    i := Origin(mode, uses, windowTime, collTime, k);
  }

  /** The same for an evaluation per now itself, if it is the only one within reach. */
  lemma PerNowReachesBack(mode: Mode, uses: seq<Use>, now: int, windowTime: int, collTime: int) returns (i: nat)
    requires (mode == Max || mode == Min) && InOrder(uses + [PerNow(now)]) && windowTime >= 0
    requires Seen(mode, uses, windowTime, collTime) != []
    requires NoneRepeated(uses, TimeOf(uses[|uses| - 1]), windowTime, collTime)
    ensures i < |uses| && uses[i].Add? && InReach(uses[i].s, TimeOf(uses[|uses| - 1]), windowTime, collTime)
    ensures var seen := Seen(mode, uses + [PerNow(now)], windowTime, collTime);
            uses[i].s.value == Result(mode, seen, windowTime, collTime)
  {
    var more, seen := uses + [PerNow(now)], Seen(mode, uses, windowTime, collTime);
    var t := TimeOf(uses[|uses| - 1]);
    assert more[..|uses|] == uses && more[|uses|] == PerNow(now) && more[|uses| - 1] == uses[|uses| - 1];
    FrontInOrder(more);
    SeenInOrder(mode, uses, windowTime, collTime);
    SeenInOrder(mode, more, windowTime, collTime);
    RunKeepsSamples(seen, windowTime, collTime);
    var k := ExtremeIsReached(mode, Seen(mode, more, windowTime, collTime), windowTime, collTime);
    if k == |seen| {
      k := RepeatedComesFrom(mode, seen, windowTime, collTime);
    }
    i := Origin(mode, uses, windowTime, collTime, k);
  }

  lemma FrontInOrder(uses: seq<Use>)
    requires InOrder(uses) && |uses| > 1
    ensures InOrder(uses[..|uses| - 1]) && TimeOf(uses[|uses| - 2]) <= TimeOf(uses[|uses| - 1])
  {
  }

  lemma RepeatedComesFrom(mode: Mode, samples: seq<Sample>, windowTime: int, collTime: int) returns (k: nat)
    requires (mode == Max || mode == Min) && Sorted(samples) && windowTime >= 0 && samples != []
    ensures Run(samples, windowTime, collTime).groups != []
    ensures k < |samples| && InReach(samples[k], samples[|samples| - 1].time, windowTime, collTime)
    ensures samples[k].value == Repeated(mode, samples, windowTime, collTime, 0).value
  {
    RunKeepsSamples(samples, windowTime, collTime);
    var h := Run(samples, windowTime, collTime);
    var last := |h.groups| - 1;
    var m := ExtremeOfGroup(mode, h.groups[last]);
    KeptIsInReach(h, samples[|samples| - 1].time, windowTime, collTime, last, m);
    InFlatten(h.groups, last, m);
    var s := h.groups[last][m];
    assert s in samples;
    k :| 0 <= k < |samples| && samples[k] == s;
  }

  /** With a window of 10 and a collection time of 1, a sample of 100 at time 0 is still the maximum at
      time 27, although the only sample within reach is 0: the evaluations at 9 and 18 carry it on. */
  lemma OldMaximumSurvives()
    ensures var uses := [Add(Sample(100.0, 0)), PerNow(9), PerNow(18), Add(Sample(0.0, 27))];
            && InOrder(uses) && Result(Max, Seen(Max, uses, 10, 1), 10, 1) == 100.0
            && forall i :: 0 <= i < |uses| && uses[i].Add? && InReach(uses[i].s, 27, 10, 1) ==> uses[i].s.value == 0.0
  {
    var a, b, c, d := Sample(100.0, 0), Sample(100.0, 9), Sample(100.0, 18), Sample(0.0, 27);
    RunFour(a, b, c, d);
    SeenFour(a, b, c, d);
  }

  lemma SeenOne(a: Sample)
    ensures Seen(Max, [Add(a)], 10, 1) == [a]
  {
    assert [Add(a)][..0] == [] && [] + [a] == [a];
  }

  lemma SeenTwo(a: Sample, b: Sample)
    requires b == Sample(a.value, a.time + 9)
    ensures Seen(Max, [Add(a), PerNow(b.time)], 10, 1) == [a, b]
  {
    SeenOne(a);
    RunOne(a);
    assert [Add(a), PerNow(b.time)][..1] == [Add(a)] && [a] + [b] == [a, b];
  }

  lemma SeenThree(a: Sample, b: Sample, c: Sample)
    requires b == Sample(a.value, a.time + 9) && c == Sample(a.value, b.time + 9)
    ensures Seen(Max, [Add(a), PerNow(b.time), PerNow(c.time)], 10, 1) == [a, b, c]
  {
    SeenTwo(a, b);
    RunTwo(a, b);
    assert [Add(a), PerNow(b.time), PerNow(c.time)][..2] == [Add(a), PerNow(b.time)] && [a, b] + [c] == [a, b, c];
  }

  lemma SeenFour(a: Sample, b: Sample, c: Sample, d: Sample)
    requires b == Sample(a.value, a.time + 9) && c == Sample(a.value, b.time + 9)
    ensures Seen(Max, [Add(a), PerNow(b.time), PerNow(c.time), Add(d)], 10, 1) == [a, b, c, d]
  {
    SeenThree(a, b, c);
    var uses := [Add(a), PerNow(b.time), PerNow(c.time), Add(d)];
    assert uses[..3] == [Add(a), PerNow(b.time), PerNow(c.time)] && [a, b, c] + [d] == [a, b, c, d];
  }

  lemma RunOne(a: Sample)
    ensures Run([a], 10, 1) == History([], [[a]])
  {
    assert [a][..0] == [];
  }

  lemma RunTwo(a: Sample, b: Sample)
    requires b.time == a.time + 9
    ensures Run([a, b], 10, 1) == History([], [[a], [b]])
  {
    RunOne(a);
    assert [a, b][..1] == [a];
  }

  lemma RunThree(a: Sample, b: Sample, c: Sample)
    requires b.time == a.time + 9 && c.time == b.time + 9
    ensures Run([a, b, c], 10, 1) == History([a], [[b], [c]])
  {
    RunTwo(a, b);
    assert [a, b, c][..2] == [a, b];
    var h: History := History([], [[a], [b]]);
    assert h.groups[1..] == [[b]];
    assert DropOld(h, c.time - 10) == History([a], [[b]]);
  }

  lemma RunFour(a: Sample, b: Sample, c: Sample, d: Sample)
    requires b.time == a.time + 9 && c.time == b.time + 9 && d.time == c.time + 9
    ensures Run([a, b, c, d], 10, 1) == History([a, b], [[c], [d]])
    ensures Result(Max, [a, b, c, d], 10, 1) == if d.value > c.value then d.value else c.value
  {
    RunThree(a, b, c);
    assert [a, b, c, d][..3] == [a, b, c];
    var h: History := History([a], [[b], [c]]);
    assert h.groups[1..] == [[c]];
    assert DropOld(h, d.time - 10) == History([a, b], [[c]]);
    var ps := Points(Max, [[c], [d]]);
    assert |ps| == 2 && ps[0].value == c.value && ps[1].value == d.value;
    assert ExtremePoint(Max, ps[..1]) == c.value;
  }

  // ----- The same with the object

  lemma NotNegative(mode: Mode, g: Group)
    requires forall i :: 0 <= i < |g| ==> g[i].value >= 0.0
    ensures PointOf(mode, g).value >= 0.0
  {
    var j := ExtremeOfGroup(Max, g);
    GroupWithin(mode, g, 0.0, ExtremeOf(Max, g));
  }

  lemma LastIsNotNegative(mode: Mode, samples: seq<Sample>, windowTime: int, collTime: int, now: int)
    requires Sorted(samples) && windowTime >= 0 && samples != []
    requires forall k :: 0 <= k < |samples| ==> samples[k].value >= 0.0
    ensures Run(samples, windowTime, collTime).groups != []
    ensures Repeated(mode, samples, windowTime, collTime, now).value >= 0.0
  {
    RunKeepsSamples(samples, windowTime, collTime);
    var h := Run(samples, windowTime, collTime);
    var last := |h.groups| - 1;
    forall m | 0 <= m < |h.groups[last]|
      ensures h.groups[last][m].value >= 0.0
    {
      InFlatten(h.groups, last, m);
      assert h.groups[last][m] in samples;
    }
    NotNegative(mode, h.groups[last]);
  }

  /** The use as the evaluator sees it, with the absolute value if that is wanted. */
  function Recorded(absolute: bool, use: Use): (r: Use)
    ensures TimeOf(r) == TimeOf(use)
  {
    match use
    case Add(s) => Add(Sample(Effective(absolute, s.value), s.time))
    case PerNow(now) => PerNow(now)
  }

  function AllRecorded(absolute: bool, uses: seq<Use>): (r: seq<Use>)
    ensures |r| == |uses|
  {
    seq(|uses|, i requires 0 <= i < |uses| => Recorded(absolute, uses[i]))
  }

  predicate Plain(absolute: bool, seen: seq<Sample>) {
    absolute ==> forall k :: 0 <= k < |seen| ==> seen[k].value >= 0.0
  }

  /** One use of an evaluator that has seen the given samples. */
  method UseOnce(evaluator: W.WindowEvaluator, use: Use, ghost seen: seq<Sample>) returns (ghost next: seq<Sample>)
    requires evaluator.Valid() && evaluator.windowTime >= 0
    requires Sorted(seen) && Plain(evaluator.absolute, seen)
    requires evaluator.history == Run(seen, evaluator.windowTime, evaluator.dataPointCollTime)
    modifies evaluator
    ensures evaluator.Valid() && Plain(evaluator.absolute, next)
    ensures next == SeenNext(evaluator.mode, seen, Recorded(evaluator.absolute, use),
                             evaluator.windowTime, evaluator.dataPointCollTime)
    ensures evaluator.history == Run(next, evaluator.windowTime, evaluator.dataPointCollTime)
  {
    ghost var w, c := evaluator.windowTime, evaluator.dataPointCollTime;
    next := SeenNext(evaluator.mode, seen, Recorded(evaluator.absolute, use), w, c);
    match use {
      case Add(s) =>
        evaluator.AddValue(s.value, s.time);
        OneMoreSeen(seen, Sample(Effective(evaluator.absolute, s.value), s.time), w, c);
      case PerNow(now) =>
        if seen != [] {
          RunKeepsSamples(seen, w, c);
          if evaluator.absolute { LastIsNotNegative(evaluator.mode, seen, w, c, now); }
          OneMoreSeen(seen, Repeated(evaluator.mode, seen, w, c, now), w, c);
        }
        var _ := evaluator.Evaluate(true, now);
    }
  }

  /** Uses a new evaluator; what it keeps is what the run of the samples it has seen keeps. */
  method UseEvaluator(evaluator: W.WindowEvaluator, uses: seq<Use>)
    requires evaluator.Valid() && evaluator.history == History([], [])
    requires InOrder(uses) && evaluator.windowTime >= 0
    modifies evaluator
    ensures evaluator.Valid()
    ensures var seen := Seen(evaluator.mode, AllRecorded(evaluator.absolute, uses),
                             evaluator.windowTime, evaluator.dataPointCollTime);
            evaluator.history == Run(seen, evaluator.windowTime, evaluator.dataPointCollTime)
  {
    ghost var recorded, mode := AllRecorded(evaluator.absolute, uses), evaluator.mode;
    ghost var w, c, seen := evaluator.windowTime, evaluator.dataPointCollTime, [];
    for i := 0 to |uses|
      invariant evaluator.Valid() && Plain(evaluator.absolute, seen)
      invariant seen == Seen(mode, recorded[..i], w, c) && evaluator.history == Run(seen, w, c)
    {
      assert recorded[..i + 1] == recorded[..i] + [recorded[i]];
      SeenInOrder(mode, recorded[..i], w, c);
      OneMoreUse(mode, recorded[..i], recorded[i], w, c);
      seen := UseOnce(evaluator, uses[i], seen);
    }
    assert recorded[..|uses|] == recorded;
  }

  lemma OneMoreSeen(seen: seq<Sample>, s: Sample, windowTime: int, collTime: int)
    ensures Run(seen + [s], windowTime, collTime) == Added(Run(seen, windowTime, collTime), s, windowTime, collTime)
  {
    assert (seen + [s])[..|seen|] == seen;
  }
}
