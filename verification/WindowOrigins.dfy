/** Where the maximum or minimum of the sliding-window evaluator of extutils.cpp comes from, in runs of
    samples and evaluations per now.

    An evaluation per now carries on the samples of the latest datapoint.  Which samples are carried
    depends on the times only, not on the values.
  */
module WindowOrigins {
  import opened WindowEvaluator
  import opened WindowRuns

  /** What the evaluator sees at a time, and the uses whose samples it carries. */
  datatype Origin = Origin(time: int, from: set<nat>)

  function Blank(origins: seq<Origin>): (r: seq<Sample>)
    ensures |r| == |origins|
  {
    seq(|origins|, k requires 0 <= k < |origins| => Sample(0.0, origins[k].time))
  }

  /** How many datapoints the evaluator keeps, of which sizes, after having seen these. */
  function Layout(origins: seq<Origin>, windowTime: int, collTime: int): History {
    Run(Blank(origins), windowTime, collTime)
  }

  function Gathered(origins: seq<Origin>, first: nat): set<nat> {
    set k, i | first <= k < |origins| && i in origins[k].from :: i
  }

  /** Everything the evaluator sees in a run. */
  function Origins(uses: seq<Use>, windowTime: int, collTime: int): seq<Origin> {
    if uses == [] then []
    else
      var n := |uses| - 1;
      OriginsNext(Origins(uses[..n], windowTime, collTime), n, uses[n], windowTime, collTime)
  }

  function OriginsNext(before: seq<Origin>, n: nat, use: Use, windowTime: int, collTime: int): seq<Origin> {
    match use
    case Add(s) => before + [Origin(s.time, {n})]
    case PerNow(now) =>
      var groups := Layout(before, windowTime, collTime).groups;
      if groups == [] then before
      else before + [Origin(now, Gathered(before, FirstOfLast(before, groups)))]
  }

  /** Where the last datapoint begins. */
  function FirstOfLast(origins: seq<Origin>, groups: seq<Group>): nat
    requires groups != []
  {
    var size := |groups[|groups| - 1]|;
    if size <= |origins| then |origins| - size else 0
  }

  /** The uses whose samples have been carried into the datapoints that are still there. */
  function Carried(uses: seq<Use>, windowTime: int, collTime: int): set<nat> {
    var origins := Origins(uses, windowTime, collTime);
    Gathered(origins, |Layout(origins, windowTime, collTime).dropped|)
  }

  // ----- The layout depends on the times only

  ghost predicate SameTimes(a: seq<Sample>, b: seq<Sample>) {
    |a| == |b| && forall k :: 0 <= k < |a| ==> a[k].time == b[k].time
  }

  ghost predicate SameLayout(g: History, h: History) {
    && |g.dropped| == |h.dropped| && |g.groups| == |h.groups|
    && forall k :: 0 <= k < |g.groups| ==> SameTimes(g.groups[k], h.groups[k])
  }

  lemma {:induction false} DropOldSameLayout(g: History, h: History, limit: int)
    requires SameLayout(g, h)
    ensures SameLayout(DropOld(g, limit), DropOld(h, limit))
    decreases |g.groups|
  {
    if g.groups != [] && Last(g.groups[0]).time < limit {
      assert SameTimes(g.groups[0], h.groups[0]);
      DropOldSameLayout(History(g.dropped + g.groups[0], g.groups[1..]),
                        History(h.dropped + h.groups[0], h.groups[1..]), limit);
    }
  }

  lemma CollectSameLayout(g: History, h: History, s: Sample, t: Sample, collTime: int)
    requires SameLayout(g, h) && s.time == t.time
    ensures SameLayout(Collect(g, s, collTime), Collect(h, t, collTime))
  {
  }

  lemma {:induction false} RunSameLayout(a: seq<Sample>, b: seq<Sample>, windowTime: int, collTime: int)
    requires SameTimes(a, b)
    ensures SameLayout(Run(a, windowTime, collTime), Run(b, windowTime, collTime))
  {
    if a != [] {
      var n := |a| - 1;
      RunSameLayout(a[..n], b[..n], windowTime, collTime);
      var g, h := Run(a[..n], windowTime, collTime), Run(b[..n], windowTime, collTime);
      DropOldSameLayout(g, h, a[n].time - windowTime);
      CollectSameLayout(DropOld(g, a[n].time - windowTime), DropOld(h, a[n].time - windowTime), a[n], b[n], collTime);
    }
  }

  // ----- The values are the extremes of what is carried

  /** The value is that of one of the given samples, and none is beyond it. */
  ghost predicate IsExtreme(mode: Mode, uses: seq<Use>, from: set<nat>, value: real) {
    && (forall i :: i in from ==>
          && i < |uses| && uses[i].Add?
          && if mode == Max then uses[i].s.value <= value else uses[i].s.value >= value)
    && (exists i :: i in from && i < |uses| && uses[i].Add? && uses[i].s.value == value)
  }

  ghost predicate Explained(mode: Mode, uses: seq<Use>, seen: seq<Sample>, origins: seq<Origin>) {
    && |seen| == |origins|
    && forall k :: 0 <= k < |seen| ==>
         seen[k].time == origins[k].time && IsExtreme(mode, uses, origins[k].from, seen[k].value)
  }

  lemma ExplainedByMore(mode: Mode, uses: seq<Use>, seen: seq<Sample>, origins: seq<Origin>, use: Use)
    requires Explained(mode, uses, seen, origins)
    ensures Explained(mode, uses + [use], seen, origins)
  {
    forall k | 0 <= k < |seen|
      ensures IsExtreme(mode, uses + [use], origins[k].from, seen[k].value)
    {
      var i :| i in origins[k].from && i < |uses| && uses[i].Add? && uses[i].s.value == seen[k].value;
      assert (uses + [use])[i] == uses[i];
    }
  }

  /** The extreme of what is seen from somewhere on is the extreme of what is carried from there on. */
  lemma GatheredIsExtreme(mode: Mode, uses: seq<Use>, seen: seq<Sample>, origins: seq<Origin>, first: nat, j: nat)
    requires Explained(mode, uses, seen, origins) && first <= j < |seen|
    requires forall k :: first <= k < |seen| ==> !Better(mode, seen[k].value, seen[j].value)
    ensures IsExtreme(mode, uses, Gathered(origins, first), seen[j].value)
  {
    var from := Gathered(origins, first);
    forall i | i in from
      ensures i < |uses| && uses[i].Add? && !Better(mode, uses[i].s.value, seen[j].value)
    {
      var k :| first <= k < |origins| && i in origins[k].from;
    }
    var i :| i in origins[j].from && i < |uses| && uses[i].Add? && uses[i].s.value == seen[j].value;
    assert i in from;
  }

  lemma LastGroupIsSuffix(h: History, samples: seq<Sample>)
    requires AllSamples(h) == samples && h.groups != []
    ensures var g := h.groups[|h.groups| - 1]; |g| <= |samples| && samples[|samples| - |g|..] == g
  {
    var n := |h.groups| - 1;
    assert h.groups == h.groups[..n] + [h.groups[n]];
    FlattenLast(h.groups[..n], h.groups[n]);
  }

  lemma {:induction false} EverythingIsExplained(mode: Mode, uses: seq<Use>, windowTime: int, collTime: int)
    requires (mode == Max || mode == Min) && InOrder(uses) && windowTime >= 0
    ensures Explained(mode, uses, Seen(mode, uses, windowTime, collTime), Origins(uses, windowTime, collTime))
  {
    if uses != [] {
      var n := |uses| - 1;
      var front := uses[..n];
      var seen, origins := Seen(mode, front, windowTime, collTime), Origins(front, windowTime, collTime);
      EverythingIsExplained(mode, front, windowTime, collTime);
      SeenInOrder(mode, front, windowTime, collTime);
      ExplainedByMore(mode, front, seen, origins, uses[n]);
      assert front + [uses[n]] == uses;
      NextIsExplained(mode, uses, seen, origins, windowTime, collTime);
    }
  }

  /** The last use, with everything before it explained. */
  lemma NextIsExplained(mode: Mode, uses: seq<Use>, seen: seq<Sample>, origins: seq<Origin>,
                        windowTime: int, collTime: int)
    requires (mode == Max || mode == Min) && Sorted(seen) && windowTime >= 0
    requires uses != [] && Explained(mode, uses, seen, origins)
    ensures var n := |uses| - 1;
            Explained(mode, uses, SeenNext(mode, seen, uses[n], windowTime, collTime),
                      OriginsNext(origins, n, uses[n], windowTime, collTime))
  {
    var n := |uses| - 1;
    match uses[n]
    case Add(s) =>
      assert n in {n};
      ExplainedOneMore(mode, uses, seen, origins, s, Origin(s.time, {n}));
    case PerNow(now) =>
      if seen != [] {
        var g := RepeatedGroup(mode, seen, origins, n, now, windowTime, collTime);
        SuffixIsExplained(mode, uses, seen, origins, g);
        var s, o := Sample(PointOf(mode, g).value, now), Origin(now, Gathered(origins, |seen| - |g|));
        ExplainedOneMore(mode, uses, seen, origins, s, o);
      }
  }

  /** What an evaluation per now repeats. */
  lemma RepeatedGroup(mode: Mode, seen: seq<Sample>, origins: seq<Origin>, n: nat, now: int,
                      windowTime: int, collTime: int) returns (g: Group)
    requires Sorted(seen) && windowTime >= 0 && seen != [] && SameTimes(seen, Blank(origins))
    ensures |g| <= |seen| && seen[|seen| - |g|..] == g
    ensures SeenNext(mode, seen, PerNow(now), windowTime, collTime) == seen + [Sample(PointOf(mode, g).value, now)]
    ensures OriginsNext(origins, n, PerNow(now), windowTime, collTime)
            == origins + [Origin(now, Gathered(origins, |seen| - |g|))]
  {
    var h := Run(seen, windowTime, collTime);
    RunKeepsSamples(seen, windowTime, collTime);
    LastGroupIsSuffix(h, seen);
    g := h.groups[|h.groups| - 1];
    LastOfLayout(seen, origins, g, windowTime, collTime);
    RepeatedOrigin(origins, n, now, |seen| - |g|, windowTime, collTime);
  }

  lemma RepeatedOrigin(origins: seq<Origin>, n: nat, now: int, first: nat, windowTime: int, collTime: int)
    requires var groups := Layout(origins, windowTime, collTime).groups;
             groups != [] && FirstOfLast(origins, groups) == first
    ensures OriginsNext(origins, n, PerNow(now), windowTime, collTime)
            == origins + [Origin(now, Gathered(origins, first))]
  {
  }

  lemma LastOfLayout(seen: seq<Sample>, origins: seq<Origin>, g: Group, windowTime: int, collTime: int)
    requires SameTimes(seen, Blank(origins)) && |g| <= |seen|
    requires var groups := Run(seen, windowTime, collTime).groups; groups != [] && g == groups[|groups| - 1]
    ensures var groups := Layout(origins, windowTime, collTime).groups;
            groups != [] && FirstOfLast(origins, groups) == |seen| - |g|
  {
    RunSameLayout(seen, Blank(origins), windowTime, collTime);
    var h, layout := Run(seen, windowTime, collTime), Layout(origins, windowTime, collTime);
    assert SameTimes(h.groups[|h.groups| - 1], layout.groups[|h.groups| - 1]);
  }

  lemma ExplainedOneMore(mode: Mode, uses: seq<Use>, seen: seq<Sample>, origins: seq<Origin>, s: Sample, o: Origin)
    requires Explained(mode, uses, seen, origins)
    requires s.time == o.time && IsExtreme(mode, uses, o.from, s.value)
    ensures Explained(mode, uses, seen + [s], origins + [o])
  {
  }

  lemma SuffixIsExplained(mode: Mode, uses: seq<Use>, seen: seq<Sample>, origins: seq<Origin>, g: Group)
    requires (mode == Max || mode == Min) && Explained(mode, uses, seen, origins)
    requires |g| <= |seen| && seen[|seen| - |g|..] == g
    ensures IsExtreme(mode, uses, Gathered(origins, |seen| - |g|), PointOf(mode, g).value)
  {
    var j := ExtremeOfSuffix(mode, seen, g);
    GatheredIsExtreme(mode, uses, seen, origins, |seen| - |g|, j);
  }

  lemma ExtremeOfSuffix(mode: Mode, seen: seq<Sample>, g: Group) returns (j: nat)
    requires (mode == Max || mode == Min) && |g| <= |seen| && seen[|seen| - |g|..] == g
    ensures |seen| - |g| <= j < |seen| && seen[j].value == PointOf(mode, g).value
    ensures forall k :: |seen| - |g| <= k < |seen| ==> !Better(mode, seen[k].value, seen[j].value)
  {
    var first := |seen| - |g|;
    var i := ExtremeOfGroup(mode, g);
    j := first + i;
    assert forall k :: first <= k < |seen| ==> seen[k] == g[k - first];
  }

  /** Main result: in every run the result is the extreme of exactly the samples that are carried. */
  lemma ResultIsExtremeOfCarried(mode: Mode, uses: seq<Use>, windowTime: int, collTime: int)
    requires (mode == Max || mode == Min) && InOrder(uses) && windowTime >= 0
    requires Origins(uses, windowTime, collTime) != []
    ensures var r := Result(mode, Seen(mode, uses, windowTime, collTime), windowTime, collTime);
            IsExtreme(mode, uses, Carried(uses, windowTime, collTime), r)
  {
    var seen, origins := Seen(mode, uses, windowTime, collTime), Origins(uses, windowTime, collTime);
    EverythingIsExplained(mode, uses, windowTime, collTime);
    SeenInOrder(mode, uses, windowTime, collTime);
    RunKeepsSamples(seen, windowTime, collTime);
    RunSameLayout(seen, Blank(origins), windowTime, collTime);
    var h := Run(seen, windowTime, collTime);
    var j := ExtremeOfKept(mode, h, seen, windowTime);
    GatheredIsExtreme(mode, uses, seen, origins, |h.dropped|, j);
  }

  lemma ExtremeOfKept(mode: Mode, h: History, seen: seq<Sample>, windowTime: int) returns (j: nat)
    requires (mode == Max || mode == Min) && h.groups != [] && AllSamples(h) == seen
    ensures |h.dropped| <= j < |seen| && seen[j].value == Evaluation(mode, Points(mode, h.groups), windowTime)
    ensures forall k :: |h.dropped| <= k < |seen| ==> !Better(mode, seen[k].value, seen[j].value)
  {
    var ps := Points(mode, h.groups);
    var p := ExtremeOfPoints(mode, ps);
    var m := ExtremeOfGroup(mode, h.groups[p]);
    InFlatten(h.groups, p, m);
    var kept := Flatten(h.groups);
    var l :| 0 <= l < |kept| && kept[l] == h.groups[p][m];
    j := |h.dropped| + l;
    forall k | |h.dropped| <= k < |seen|
      ensures !Better(mode, seen[k].value, seen[j].value)
    {
      assert seen[k] == kept[k - |h.dropped|];
      var q, i := InGroup(h.groups, seen[k]);
      var _ := ExtremeOfGroup(mode, h.groups[q]);
      assert ps[q].value == ExtremeOf(mode, h.groups[q]);
    }
  }

  // ----- When the result is a sample within reach

  /** The same uses at the same times, with any values. */
  ghost predicate SameButValues(a: seq<Use>, b: seq<Use>) {
    |a| == |b| && forall i :: 0 <= i < |a| ==> TimeOf(a[i]) == TimeOf(b[i]) && a[i].Add? == b[i].Add?
  }

  lemma {:induction false} SameOrigins(a: seq<Use>, b: seq<Use>, windowTime: int, collTime: int)
    requires SameButValues(a, b)
    ensures Origins(a, windowTime, collTime) == Origins(b, windowTime, collTime)
  {
    if a != [] {
      var n := |a| - 1;
      SameOrigins(a[..n], b[..n], windowTime, collTime);
    }
  }

  predicate Within(uses: seq<Use>, i: nat, windowTime: int, collTime: int)
    requires i < |uses|
  {
    uses[i].Add? && InReach(uses[i].s, TimeOf(uses[|uses| - 1]), windowTime, collTime)
  }

  predicate AllWithin(uses: seq<Use>, from: set<nat>, windowTime: int, collTime: int) {
    forall i :: i in from ==> i < |uses| && Within(uses, i, windowTime, collTime)
  }

  ghost predicate IsWithin(uses: seq<Use>, value: real, windowTime: int, collTime: int) {
    exists i :: 0 <= i < |uses| && Within(uses, i, windowTime, collTime) && uses[i].s.value == value
  }

  /** The result is a sample within reach. */
  ghost predicate ReachesBack(mode: Mode, uses: seq<Use>, windowTime: int, collTime: int) {
    IsWithin(uses, Result(mode, Seen(mode, uses, windowTime, collTime), windowTime, collTime), windowTime, collTime)
  }

  ghost predicate AlwaysReachesBack(mode: Mode, uses: seq<Use>, windowTime: int, collTime: int) {
    forall other :: SameButValues(uses, other) ==> ReachesBack(mode, other, windowTime, collTime)
  }

  /** Main result on maximum and minimum as samples within reach: so it is for all values exactly if no
      sample that is carried has left the reach.  That can be told from the times. */
  lemma AlwaysReachesBackIff(mode: Mode, uses: seq<Use>, windowTime: int, collTime: int)
    requires (mode == Max || mode == Min) && InOrder(uses) && windowTime >= 0
    requires Origins(uses, windowTime, collTime) != []
    ensures AlwaysReachesBack(mode, uses, windowTime, collTime)
            <==> AllWithin(uses, Carried(uses, windowTime, collTime), windowTime, collTime)
  {
    ResultIsExtremeOfCarried(mode, uses, windowTime, collTime);
    if i :| i in Carried(uses, windowTime, collTime) && !Within(uses, i, windowTime, collTime) {
      OnlyOneStandsOut(mode, uses, windowTime, collTime, i);
    } else {
      forall other | SameButValues(uses, other)
        ensures ReachesBack(mode, other, windowTime, collTime)
      {
        CarriedReachesBack(mode, uses, other, windowTime, collTime);
      }
    }
  }

  lemma CarriedReachesBack(mode: Mode, uses: seq<Use>, other: seq<Use>, windowTime: int, collTime: int)
    requires (mode == Max || mode == Min) && InOrder(uses) && windowTime >= 0
    requires Origins(uses, windowTime, collTime) != [] && SameButValues(uses, other)
    requires AllWithin(uses, Carried(uses, windowTime, collTime), windowTime, collTime)
    ensures ReachesBack(mode, other, windowTime, collTime)
  {
    SameOrigins(uses, other, windowTime, collTime);
    ResultIsExtremeOfCarried(mode, other, windowTime, collTime);
    var r := Result(mode, Seen(mode, other, windowTime, collTime), windowTime, collTime);
    ExtremeIsWithin(mode, uses, other, Carried(uses, windowTime, collTime), r, windowTime, collTime);
  }

  lemma ExtremeIsWithin(mode: Mode, uses: seq<Use>, other: seq<Use>, from: set<nat>, value: real,
                        windowTime: int, collTime: int)
    requires SameButValues(uses, other) && AllWithin(uses, from, windowTime, collTime)
    requires IsExtreme(mode, other, from, value)
    ensures IsWithin(other, value, windowTime, collTime)
  {
    var i :| i in from && i < |other| && other[i].Add? && other[i].s.value == value;
    assert TimeOf(other[|other| - 1]) == TimeOf(uses[|uses| - 1]) && other[i].s.time == uses[i].s.time;
    assert Within(other, i, windowTime, collTime);
  }

  /** The values are 0, except for that of one sample. */
  function StandingOut(uses: seq<Use>, i: nat, value: real): (r: seq<Use>)
    ensures |r| == |uses|
  {
    seq(|uses|, k requires 0 <= k < |uses| =>
      match uses[k]
      case Add(s) => Add(Sample(if k == i then value else 0.0, s.time))
      case PerNow(now) => PerNow(now))
  }

  lemma OnlyOneStandsOut(mode: Mode, uses: seq<Use>, windowTime: int, collTime: int, i: nat)
    requires (mode == Max || mode == Min) && InOrder(uses) && windowTime >= 0
    requires i in Carried(uses, windowTime, collTime) && i < |uses|
    requires uses[i].Add? && !Within(uses, i, windowTime, collTime)
    ensures !AlwaysReachesBack(mode, uses, windowTime, collTime)
  {
    var value := if mode == Max then 1.0 else -1.0;
    var other := StandingOut(uses, i, value);
    assert SameButValues(uses, other);
    SameOrigins(uses, other, windowTime, collTime);
    ResultIsExtremeOfCarried(mode, other, windowTime, collTime);
    var r := Result(mode, Seen(mode, other, windowTime, collTime), windowTime, collTime);
    assert other[i].Add? && other[i].s.value == value;
    OthersAreNotIt(mode, uses, i, value, r, windowTime, collTime);
  }

  lemma OthersAreNotIt(mode: Mode, uses: seq<Use>, i: nat, value: real, result: real, windowTime: int, collTime: int)
    requires i < |uses| && !Within(uses, i, windowTime, collTime)
    requires Better(mode, value, 0.0) && !Better(mode, value, result)
    ensures !IsWithin(StandingOut(uses, i, value), result, windowTime, collTime)
  {
  }
}
