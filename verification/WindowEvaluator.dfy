/** The sliding-window evaluator of extutils.cpp, over the real numbers.

    Samples are collected into datapoints, and datapoints that have become too old are dropped.  The
    specification keeps the samples themselves: which were dropped, and which group of samples each
    remaining datapoint stands for.
  */
module WindowEvaluator {

  datatype Mode = Average | TimeWeighted | Max | Min

  datatype Sample = Sample(value: real, time: int)

  datatype DataPoint = DataPoint(value: real, timestamp: int)

  type Group = g: seq<Sample> | |g| > 0 witness [Sample(0.0, 0)]

  function Last(g: Group): Sample {
    g[|g| - 1]
  }

  function Elapsed(from: Sample, to: Sample): real {
    (to.time - from.time) as real
  }

  // ----- What a datapoint says about its group

  /** In the mode Max larger values win, otherwise smaller ones. */
  predicate Better(mode: Mode, a: real, b: real) {
    if mode == Max then a > b else a < b
  }

  function ExtremeOf(mode: Mode, g: Group): real {
    if |g| == 1 then g[0].value
    else var m := ExtremeOf(mode, g[..|g| - 1]); if Better(mode, Last(g).value, m) then Last(g).value else m
  }

  function Sum(g: seq<Sample>): real {
    if g == [] then 0.0 else Sum(g[..|g| - 1]) + g[|g| - 1].value
  }

  function Mean(g: Group): real {
    Sum(g) / |g| as real
  }

  datatype Weighted = Weighted(value: real, divisor: real)

  /** The time-weighted value: each further sample counts for the time since the one before it, the
      first two share the first interval. */
  function WeightedValue(g: Group): Weighted {
    if |g| == 1 then Weighted(g[0].value, 0.0)
    else
      var front := g[..|g| - 1];
      Collected(WeightedValue(front), Last(g).value, Elapsed(Last(front), Last(g)))
  }

  function Collected(w: Weighted, value: real, weight: real): Weighted {
    if w.divisor <= 0.0 || weight <= 0.0 then Weighted((w.value + value) / 2.0, weight)
    else Weighted((w.value * w.divisor + value * weight) / (w.divisor + weight), w.divisor + weight)
  }

  function PointOf(mode: Mode, g: Group): DataPoint {
    var value :=
      match mode
      case Max => ExtremeOf(Max, g)
      case Min => ExtremeOf(Min, g)
      case TimeWeighted => WeightedValue(g).value
      case Average => Mean(g);
    DataPoint(value, Last(g).time)
  }

  /** The divisor that goes on collecting the group. */
  function DivisorOf(mode: Mode, g: Group): real {
    match mode
    case TimeWeighted => WeightedValue(g).divisor
    case Average => if |g| == 1 then 0.0 else |g| as real
    case _ => 0.0
  }

  // ----- Which samples are kept

  datatype History = History(dropped: seq<Sample>, groups: seq<Group>)

  function Flatten(groups: seq<Group>): seq<Sample> {
    if groups == [] then [] else groups[0] + Flatten(groups[1..])
  }

  function AllSamples(h: History): seq<Sample> {
    h.dropped + Flatten(h.groups)
  }

  function DropOld(h: History, limit: int): History
    decreases |h.groups|
  {
    if h.groups == [] || Last(h.groups[0]).time >= limit then h
    else DropOld(History(h.dropped + h.groups[0], h.groups[1..]), limit)
  }

  function Collect(h: History, s: Sample, collTime: int): History {
    var n := |h.groups| - 1;
    if n >= 0 && h.groups[n][0].time + collTime > s.time then h.(groups := h.groups[n := h.groups[n] + [s]])
    else h.(groups := h.groups + [[s]])
  }

  function Added(h: History, s: Sample, windowTime: int, collTime: int): History {
    Collect(DropOld(h, s.time - windowTime), s, collTime)
  }

  // ----- Evaluation of datapoints

  function ExtremePoint(mode: Mode, ps: seq<DataPoint>): real
    requires ps != []
  {
    if |ps| == 1 then ps[0].value
    else
      var m := ExtremePoint(mode, ps[..|ps| - 1]);
      if Better(mode, ps[|ps| - 1].value, m) then ps[|ps| - 1].value else m
  }

  function PointSum(ps: seq<DataPoint>): real {
    if ps == [] then 0.0 else PointSum(ps[..|ps| - 1]) + ps[|ps| - 1].value
  }

  /** The sum of all values, each times the interval that ends at its timestamp; the first interval
      begins at `start`. */
  function Integral(ps: seq<DataPoint>, start: int): real {
    if ps == [] then 0.0
    else
      var n := |ps| - 1;
      Integral(ps[..n], start) + ps[n].value * Interval(ps, n, start)
  }

  function Interval(ps: seq<DataPoint>, i: nat, start: int): real
    requires i < |ps|
  {
    (ps[i].timestamp - (if i == 0 then start else ps[i - 1].timestamp)) as real
  }

  /** The evaluation result; 0 without data. */
  function Evaluation(mode: Mode, ps: seq<DataPoint>, windowTime: int): real {
    if ps == [] then 0.0
    else
      match mode
      case Max => ExtremePoint(Max, ps)
      case Min => ExtremePoint(Min, ps)
      case TimeWeighted =>
        if windowTime == 0 then 0.0 else Integral(ps, ps[|ps| - 1].timestamp - windowTime) / windowTime as real
      case Average => PointSum(ps) / |ps| as real
  }

  function Effective(absolute: bool, value: real): (r: real)
    ensures if absolute then r >= 0.0 && (r == value || r == -value) else r == value
  {
    if absolute && value < 0.0 then -value else value
  }

  class WindowEvaluator {
    const windowTime: int
    const dataPointCollTime: int
    const mode: Mode
    const absolute: bool
    var dataPoints: seq<DataPoint>
    var collStart: int
    var collDivisor: real
    ghost var history: History

    /** Every datapoint summarizes its group of samples. */
    ghost predicate Valid()
      reads this
    {
      && |dataPoints| == |history.groups|
      && (forall i :: 0 <= i < |dataPoints| ==> dataPoints[i] == PointOf(mode, history.groups[i]))
      && (dataPoints != [] ==> var g := history.groups[|dataPoints| - 1];
                               collStart == g[0].time && collDivisor == DivisorOf(mode, g))
    }

    constructor (windowTime: int, dataPointCollTime: int, mode: Mode, absolute: bool)
      ensures Valid() && history == History([], [])
      ensures this.windowTime == windowTime && this.dataPointCollTime == dataPointCollTime
      ensures this.mode == mode && this.absolute == absolute
    {
      this.windowTime, this.dataPointCollTime := windowTime, dataPointCollTime;
      this.mode, this.absolute := mode, absolute;
      dataPoints, collStart, collDivisor := [], 0, 0.0;
      history := History([], []);
    }

    method AddValue(aValue: real, timeStamp: int)
      requires Valid()
      modifies this
      ensures Valid()
      ensures var s := Sample(Effective(absolute, aValue), timeStamp);
              history == Added(old(history), s, windowTime, dataPointCollTime)
    {
      var value := Effective(absolute, aValue);
      DropOldPoints(timeStamp);
      if dataPoints != [] && collStart + dataPointCollTime > timeStamp {
        CollectIntoLast(value, timeStamp);
      } else {
        StartPoint(value, timeStamp);
      }
    }

    /** The part of addValue() that removes datapoints older than the window. */
    method DropOldPoints(timeStamp: int)
      requires Valid()
      modifies this`dataPoints, this`history
      ensures Valid() && history == DropOld(old(history), timeStamp - windowTime)
    {
      ghost var limit := timeStamp - windowTime;
      while dataPoints != []
        invariant Valid() && DropOld(history, limit) == DropOld(old(history), limit)
        decreases |dataPoints|
      {
        if dataPoints[0].timestamp < timeStamp - windowTime {
          history := History(history.dropped + history.groups[0], history.groups[1..]);
          dataPoints := dataPoints[1..];
        } else {
          break;
        }
      }
    }

    /** The branch of addValue() that starts a new datapoint. */
    method StartPoint(value: real, timeStamp: int)
      requires Valid()
      modifies this
      ensures Valid()
      ensures history == old(history).(groups := old(history).groups + [[Sample(value, timeStamp)]])
    {
      ghost var s := Sample(value, timeStamp);
      dataPoints := dataPoints + [DataPoint(value, timeStamp)];
      collStart, collDivisor := timeStamp, 0.0;
      assert Sum([s][..0]) == 0.0;
      history := history.(groups := history.groups + [[s]]);
    }

    /** The branch of addValue() that collects into the last datapoint. */
    method CollectIntoLast(value: real, timeStamp: int)
      requires Valid() && dataPoints != []
      modifies this`dataPoints, this`collDivisor, this`history
      ensures Valid()
      ensures var n := |old(history).groups| - 1;
              var more := old(history).groups[n] + [Sample(value, timeStamp)];
              history == old(history).(groups := old(history).groups[n := more])
    {
      var n := |dataPoints| - 1;
      ghost var g, s := history.groups[n], Sample(value, timeStamp);
      var last := Merge(dataPoints[n], value, timeStamp, g);
      dataPoints := dataPoints[n := last];
      history := history.(groups := history.groups[n := g + [s]]);
    }

    /** The switch over the modes: one more sample for a datapoint that stands for the group g. */
    method Merge(point: DataPoint, value: real, timeStamp: int, ghost g: Group) returns (last: DataPoint)
      requires point == PointOf(mode, g) && collDivisor == DivisorOf(mode, g)
      modifies this`collDivisor
      ensures last == PointOf(mode, g + [Sample(value, timeStamp)])
      ensures collDivisor == DivisorOf(mode, g + [Sample(value, timeStamp)])
    {
      last := point;
      ghost var s := Sample(value, timeStamp);
      match mode {
        case Max =>
          if value > last.value { last := last.(value := value); }
          ExtremeOfOneMore(Max, g, s);
        case Min =>
          if value < last.value { last := last.(value := value); }
          ExtremeOfOneMore(Min, g, s);
        case TimeWeighted =>
          var merged := MergeWeighted(last.value, value, (timeStamp - last.timestamp) as real);
          last := last.(value := merged);
          WeightedOfOneMore(g, s);
        case Average =>
          var merged := MergeAverage(last.value, value, g);
          last := last.(value := merged);
      }
      last := last.(timestamp := timeStamp);
    }

    method MergeWeighted(earlier: real, value: real, timeWeight: real) returns (merged: real)
      modifies this`collDivisor
      ensures Weighted(merged, collDivisor) == Collected(Weighted(earlier, old(collDivisor)), value, timeWeight)
    {
      if collDivisor <= 0.0 || timeWeight <= 0.0 {
        merged := (earlier + value) / 2.0;
        collDivisor := timeWeight;
      } else {
        var v := earlier * collDivisor + value * timeWeight;
        collDivisor := collDivisor + timeWeight;
        merged := v / collDivisor;
      }
    }

    method MergeAverage(mean: real, value: real, ghost g: Group) returns (merged: real)
      requires mean == Mean(g) && collDivisor == DivisorOf(Average, g)
      modifies this`collDivisor
      ensures forall s: Sample :: s.value == value ==> merged == Mean(g + [s])
      ensures collDivisor == |g| as real + 1.0
    {
      if collDivisor <= 0.0 { collDivisor := 1.0; }
      var v := mean * collDivisor + value;
      collDivisor := collDivisor + 1.0;
      merged := v / collDivisor;
      forall s: Sample | s.value == value
        ensures merged == Mean(g + [s])
      {
        MeanOfOneMore(g, s);
      }
    }

    method Evaluate(perNow: bool, now: int) returns (r: real)
      requires Valid()
      modifies this
      ensures Valid()
      ensures r == Evaluation(mode, Points(mode, history.groups), windowTime)
      ensures history == if perNow && old(dataPoints) != [] then
                           var value := Effective(absolute, old(dataPoints[|dataPoints| - 1].value));
                           Added(old(history), Sample(value, now), windowTime, dataPointCollTime)
                         else old(history)
    {
      if perNow && dataPoints != [] {
        AddValue(dataPoints[|dataPoints| - 1].value, now);
      }
      r := EvaluatePoints();
      assert dataPoints == Points(mode, history.groups);
    }

    /** The loop of evaluate(). */
    method EvaluatePoints() returns (r: real)
      ensures r == Evaluation(mode, dataPoints, windowTime)
    {
      var result, divisor := 0.0, 0.0;
      var lastTs := 0;
      ghost var start := if dataPoints == [] then 0 else dataPoints[|dataPoints| - 1].timestamp - windowTime;
      for i := 0 to |dataPoints|
        invariant i == 0 ==> result == 0.0 && divisor == 0.0
        invariant i > 0 ==>
                    match mode
                    case Max => result == ExtremePoint(Max, dataPoints[..i]) && divisor == 1.0
                    case Min => result == ExtremePoint(Min, dataPoints[..i]) && divisor == 1.0
                    case TimeWeighted =>
                      && result == Integral(dataPoints[..i], start)
                      && lastTs == dataPoints[i - 1].timestamp && divisor == (lastTs - start) as real
                    case Average => result == PointSum(dataPoints[..i]) && divisor == i as real
      {
        var p := dataPoints[i];
        assert dataPoints[..i + 1][..i] == dataPoints[..i];
        match mode {
          case Max =>
            if i == 0 || p.value > result { result := p.value; }
            divisor := 1.0;
          case Min =>
            if i == 0 || p.value < result { result := p.value; }
            divisor := 1.0;
          case TimeWeighted =>
            if i == 0 { lastTs := dataPoints[|dataPoints| - 1].timestamp - windowTime; }
            var timeWeight := (p.timestamp - lastTs) as real;
            result := result + p.value * timeWeight;
            divisor := divisor + timeWeight;
            lastTs := p.timestamp;
          case Average =>
            result := result + p.value;
            divisor := divisor + 1.0;
        }
      }
      assert dataPoints[..|dataPoints|] == dataPoints;
      return if divisor != 0.0 then result / divisor else 0.0;
    }
  }

  lemma ExtremeOfOneMore(mode: Mode, g: Group, s: Sample)
    ensures var m := ExtremeOf(mode, g);
            ExtremeOf(mode, g + [s]) == if Better(mode, s.value, m) then s.value else m
  {
    assert (g + [s])[..|g|] == g;
  }

  lemma WeightedOfOneMore(g: Group, s: Sample)
    ensures WeightedValue(g + [s]) == Collected(WeightedValue(g), s.value, Elapsed(Last(g), s))
  {
    var longer := g + [s];
    assert longer[..|longer| - 1] == g && Last(longer) == s;
  }

  lemma MeanOfOneMore(g: Group, s: Sample)
    ensures Mean(g + [s]) == (Mean(g) * (|g| as real) + s.value) / (|g| as real + 1.0)
  {
    assert (g + [s])[..|g|] == g;
    assert Mean(g) * (|g| as real) == Sum(g);
  }

  // ----- The samples behind the datapoints

  predicate Sorted(ss: seq<Sample>) {
    forall i, j :: 0 <= i < j < |ss| ==> ss[i].time <= ss[j].time
  }

  lemma SortedOneMore(ss: seq<Sample>, s: Sample)
    requires Sorted(ss) && (ss != [] ==> ss[|ss| - 1].time <= s.time)
    ensures Sorted(ss + [s])
  {
  }

  lemma SortedFront(ss: seq<Sample>)
    requires Sorted(ss) && |ss| > 1
    ensures Sorted(ss[..|ss| - 1]) && ss[|ss| - 2].time <= ss[|ss| - 1].time
    ensures ss == ss[..|ss| - 1] + [ss[|ss| - 1]]
  {
  }

  /** Groups are sorted and follow each other in time. */
  ghost predicate Ordered(groups: seq<Group>) {
    && (forall k :: 0 <= k < |groups| ==> Sorted(groups[k]))
    && (forall k, l :: 0 <= k < l < |groups| ==> Last(groups[k]).time <= groups[l][0].time)
  }

  /** A group spans less than the collection time, unless it is a single sample. */
  ghost predicate Short(g: Group, collTime: int) {
    |g| == 1 || Last(g).time < g[0].time + collTime
  }

  /** What is kept at time t: every datapoint ends within the window, and everything dropped lies
      before it. */
  ghost predicate Windowed(h: History, t: int, windowTime: int, collTime: int) {
    && Ordered(h.groups)
    && (forall k :: 0 <= k < |h.groups| ==>
          t - windowTime <= Last(h.groups[k]).time <= t && Short(h.groups[k], collTime))
    && (forall i :: 0 <= i < |h.dropped| ==> h.dropped[i].time < t - windowTime)
  }

  lemma {:induction false} DropOldKeeps(h: History, t: int, windowTime: int, collTime: int, now: int)
    requires Ordered(h.groups) && t <= now
    requires forall k :: 0 <= k < |h.groups| ==> Last(h.groups[k]).time <= t && Short(h.groups[k], collTime)
    requires forall i :: 0 <= i < |h.dropped| ==> h.dropped[i].time < now - windowTime
    ensures var d := DropOld(h, now - windowTime);
            && AllSamples(d) == AllSamples(h)
            && Windowed(d, now, windowTime, collTime)
            && forall k :: 0 <= k < |d.groups| ==> Last(d.groups[k]).time <= t
    decreases |h.groups|
  {
    if h.groups != [] && Last(h.groups[0]).time < now - windowTime {
      var g := h.groups[0];
      assert Sorted(g);
      assert forall i :: 0 <= i < |g| ==> g[i].time <= Last(g).time;
      var rest := History(h.dropped + g, h.groups[1..]);
      assert AllSamples(rest) == AllSamples(h);
      DropOldKeeps(rest, t, windowTime, collTime, now);
    } else {
      forall k | 0 <= k < |h.groups|
        ensures now - windowTime <= Last(h.groups[k]).time
      {
        if k > 0 {
          assert Last(h.groups[0]).time <= h.groups[k][0].time;
          assert Sorted(h.groups[k]);
        }
      }
    }
  }

  lemma {:induction false} FlattenLast(groups: seq<Group>, g: Group)
    ensures Flatten(groups + [g]) == Flatten(groups) + g
  {
    if groups == [] {
      assert [g][1..] == [];
    } else {
      assert (groups + [g])[1..] == groups[1..] + [g];
      FlattenLast(groups[1..], g);
    }
  }

  /** One more sample. */
  lemma AddedKeeps(h: History, s: Sample, t: int, windowTime: int, collTime: int)
    requires Windowed(h, t, windowTime, collTime) && t <= s.time && windowTime >= 0
    ensures var a := Added(h, s, windowTime, collTime);
            AllSamples(a) == AllSamples(h) + [s] && Windowed(a, s.time, windowTime, collTime) && a.groups != []
  {
    DropOldKeeps(h, t, windowTime, collTime, s.time);
    CollectKeeps(DropOld(h, s.time - windowTime), s, windowTime, collTime);
  }

  lemma CollectKeeps(d: History, s: Sample, windowTime: int, collTime: int)
    requires Windowed(d, s.time, windowTime, collTime) && windowTime >= 0
    ensures var a := Collect(d, s, collTime);
            AllSamples(a) == AllSamples(d) + [s] && Windowed(a, s.time, windowTime, collTime) && a.groups != []
  {
    var a, n := Collect(d, s, collTime), |d.groups| - 1;
    if n >= 0 && d.groups[n][0].time + collTime > s.time {
      LastGrowsInOrder(d, s, windowTime, collTime);
      LastGrows(d, s);
    } else {
      NewGroupIsInOrder(d, s, windowTime, collTime);
      NewGroupAdds(d, s);
    }
  }

  lemma NewGroupAdds(d: History, s: Sample)
    ensures AllSamples(d.(groups := d.groups + [[s]])) == AllSamples(d) + [s]
  {
    FlattenLast(d.groups, [s]);
  }

  lemma LastGrows(d: History, s: Sample)
    requires d.groups != []
    ensures var n := |d.groups| - 1;
            AllSamples(d.(groups := d.groups[n := d.groups[n] + [s]])) == AllSamples(d) + [s]
  {
    var groups, n := d.groups, |d.groups| - 1;
    var front, g := groups[..n], groups[n];
    assert groups == front + [g] && groups[n := g + [s]] == front + [g + [s]];
    FlattenLast(front, g);
    FlattenLast(front, g + [s]);
  }

  lemma LastGrowsInOrder(d: History, s: Sample, windowTime: int, collTime: int)
    requires Windowed(d, s.time, windowTime, collTime) && windowTime >= 0 && d.groups != []
    requires d.groups[|d.groups| - 1][0].time + collTime > s.time
    ensures var n := |d.groups| - 1;
            Windowed(d.(groups := d.groups[n := d.groups[n] + [s]]), s.time, windowTime, collTime)
  {
    var n := |d.groups| - 1;
    var g := d.groups[n];
    var grown := d.groups[n := g + [s]];
    assert Sorted(g);
    assert Sorted(g + [s]);
    assert Last(g + [s]) == s && (g + [s])[0] == g[0];
    assert Short(g + [s], collTime);
    assert Ordered(grown);
  }

  lemma NewGroupIsInOrder(d: History, s: Sample, windowTime: int, collTime: int)
    requires Windowed(d, s.time, windowTime, collTime) && windowTime >= 0
    ensures Windowed(d.(groups := d.groups + [[s]]), s.time, windowTime, collTime)
  {
    assert Sorted([s]) && Last([s]) == s;
    assert Ordered(d.groups + [[s]]);
  }

  function Run(samples: seq<Sample>, windowTime: int, collTime: int): History {
    if samples == [] then History([], [])
    else Added(Run(samples[..|samples| - 1], windowTime, collTime), samples[|samples| - 1], windowTime, collTime)
  }

  /** After any sequence of samples with times that do not go back, nothing is lost or reordered, and
      exactly the recent datapoints are kept. */
  lemma {:induction false} RunKeepsSamples(samples: seq<Sample>, windowTime: int, collTime: int)
    requires Sorted(samples) && windowTime >= 0 && samples != []
    ensures var h := Run(samples, windowTime, collTime);
            AllSamples(h) == samples && Windowed(h, samples[|samples| - 1].time, windowTime, collTime) && h.groups != []
  {
    var n := |samples| - 1;
    if n == 0 {
      AddedKeeps(History([], []), samples[0], samples[0].time, windowTime, collTime);
    } else {
      SortedFront(samples);
      RunKeepsSamples(samples[..n], windowTime, collTime);
      AddedKeeps(Run(samples[..n], windowTime, collTime), samples[n], samples[n - 1].time, windowTime, collTime);
    }
  }

  /** The samples that may influence the result at time t: those within the window, and some that are
      older by less than the collection time. */
  predicate InReach(s: Sample, t: int, windowTime: int, collTime: int) {
    s.time >= t - windowTime || s.time > t - windowTime - collTime
  }

  /** Kept samples are within reach. */
  lemma KeptIsInReach(h: History, t: int, windowTime: int, collTime: int, k: nat, i: nat)
    requires Windowed(h, t, windowTime, collTime) && k < |h.groups| && i < |h.groups[k]|
    ensures InReach(h.groups[k][i], t, windowTime, collTime)
  {
    var g := h.groups[k];
    assert Sorted(g) && Short(g, collTime);
  }

  lemma {:induction false} InGroup(groups: seq<Group>, s: Sample) returns (k: nat, i: nat)
    requires s in Flatten(groups)
    ensures k < |groups| && i < |groups[k]| && groups[k][i] == s
  {
    if s in groups[0] {
      i :| 0 <= i < |groups[0]| && groups[0][i] == s;
      k := 0;
    } else {
      k, i := InGroup(groups[1..], s);
      k := k + 1;
    }
  }

  lemma {:induction false} InFlatten(groups: seq<Group>, k: nat, i: nat)
    requires k < |groups| && i < |groups[k]|
    ensures groups[k][i] in Flatten(groups)
  {
    if k > 0 {
      InFlatten(groups[1..], k - 1, i);
    }
  }

  // ----- Maximum and minimum

  lemma {:induction false} ExtremeOfGroup(mode: Mode, g: Group) returns (j: nat)
    ensures j < |g| && g[j].value == ExtremeOf(mode, g)
    ensures forall i :: 0 <= i < |g| ==> !Better(mode, g[i].value, ExtremeOf(mode, g))
  {
    if |g| == 1 {
      j := 0;
    } else {
      var n := |g| - 1;
      var front: Group := g[..n];
      j := ExtremeOfGroup(mode, front);
      if Better(mode, g[n].value, ExtremeOf(mode, front)) { j := n; }
      forall i | 0 <= i < |g|
        ensures !Better(mode, g[i].value, ExtremeOf(mode, g))
      {
        if i < n { assert g[i] == front[i]; }
      }
    }
  }

  lemma {:induction false} ExtremeOfPoints(mode: Mode, ps: seq<DataPoint>) returns (j: nat)
    requires ps != []
    ensures j < |ps| && ps[j].value == ExtremePoint(mode, ps)
    ensures forall i :: 0 <= i < |ps| ==> !Better(mode, ps[i].value, ExtremePoint(mode, ps))
  {
    if |ps| == 1 {
      j := 0;
    } else {
      var n := |ps| - 1;
      var front := ps[..n];
      j := ExtremeOfPoints(mode, front);
      if Better(mode, ps[n].value, ExtremePoint(mode, front)) { j := n; }
      forall i | 0 <= i < |ps|
        ensures !Better(mode, ps[i].value, ExtremePoint(mode, ps))
      {
        if i < n { assert ps[i] == front[i]; }
      }
    }
  }

  function Points(mode: Mode, groups: seq<Group>): (ps: seq<DataPoint>)
    ensures |ps| == |groups|
  {
    seq(|groups|, k requires 0 <= k < |groups| => PointOf(mode, groups[k]))
  }

  /** What the evaluator returns after the given samples. */
  function Result(mode: Mode, samples: seq<Sample>, windowTime: int, collTime: int): real {
    Evaluation(mode, Points(mode, Run(samples, windowTime, collTime).groups), windowTime)
  }

  /** Main result for maximum and minimum, one side: whatever was coalesced and dropped, no sample
      within the window is beyond the result. */
  lemma ExtremeCoversWindow(mode: Mode, samples: seq<Sample>, windowTime: int, collTime: int, i: nat)
    requires mode == Max || mode == Min
    requires Sorted(samples) && windowTime >= 0 && i < |samples|
    requires samples[i].time >= samples[|samples| - 1].time - windowTime
    ensures var r := Result(mode, samples, windowTime, collTime);
            if mode == Max then samples[i].value <= r else samples[i].value >= r
  {
    var h := Run(samples, windowTime, collTime);
    RunKeepsSamples(samples, windowTime, collTime);
    assert samples[i] in Flatten(h.groups) by {
      assert samples[i] in AllSamples(h);
    }
    var k, l := InGroup(h.groups, samples[i]);
    var e := ExtremeOfGroup(mode, h.groups[k]);
    var ps := Points(mode, h.groups);
    assert ps[k].value == ExtremeOf(mode, h.groups[k]);
    var j := ExtremeOfPoints(mode, ps);
  }

  /** Main result for maximum and minimum, other side: the result is the value of a sample within
      reach. */
  lemma ExtremeIsReached(mode: Mode, samples: seq<Sample>, windowTime: int, collTime: int) returns (w: nat)
    requires mode == Max || mode == Min
    requires Sorted(samples) && windowTime >= 0 && samples != []
    ensures w < |samples| && samples[w].value == Result(mode, samples, windowTime, collTime)
    ensures InReach(samples[w], samples[|samples| - 1].time, windowTime, collTime)
  {
    var h, t := Run(samples, windowTime, collTime), samples[|samples| - 1].time;
    RunKeepsSamples(samples, windowTime, collTime);
    var ps := Points(mode, h.groups);
    var j := ExtremeOfPoints(mode, ps);
    var m := ExtremeOfGroup(mode, h.groups[j]);
    var s := h.groups[j][m];
    KeptIsInReach(h, t, windowTime, collTime, j, m);
    InFlatten(h.groups, j, m);
    assert s in samples;
    w :| 0 <= w < |samples| && samples[w] == s;
  }

  // ----- Time-weighted average

  lemma Convex(v: real, d: real, x: real, w: real, lo: real, hi: real)
    requires d > 0.0 && w > 0.0 && lo <= v <= hi && lo <= x <= hi
    ensures lo <= (v * d + x * w) / (d + w) <= hi
  {
    Weigh(lo, v, hi, d);
    MeanWithin(v * d, d, x, w, lo, hi);
  }

  /** A sum of weights w with values between lo and hi. */
  predicate Between(lo: real, a: real, hi: real, w: real) {
    lo * w <= a <= hi * w
  }

  lemma Weigh(lo: real, v: real, hi: real, w: real)
    requires lo <= v <= hi && w >= 0.0
    ensures Between(lo, v * w, hi, w)
  {
    Scale(lo, v, w);
    Scale(v, hi, w);
  }

  lemma MeanWithin(a: real, d: real, x: real, w: real, lo: real, hi: real)
    requires d > 0.0 && w > 0.0 && Between(lo, a, hi, d) && lo <= x <= hi
    ensures lo <= (a + x * w) / (d + w) <= hi
  {
    StepWithin(lo, hi, a, d, x, w);
    Quotient(a + x * w, d + w, lo, hi);
  }

  /** A sum of weighted values within the bounds stays so with one more. */
  lemma StepWithin(lo: real, hi: real, a: real, d: real, x: real, w: real)
    requires Between(lo, a, hi, d) && lo <= x <= hi && w >= 0.0
    ensures Between(lo, a + x * w, hi, d + w)
  {
    Weigh(lo, x, hi, w);
    Distribute(lo, d, w);
    Distribute(hi, d, w);
  }

  lemma Quotient(a: real, b: real, lo: real, hi: real)
    requires b > 0.0 && Between(lo, a, hi, b)
    ensures lo <= a / b <= hi
  {
    assert a / b * b == a;
  }

  lemma {:induction false} WeightedWithin(g: Group, lo: real, hi: real)
    requires forall i :: 0 <= i < |g| ==> lo <= g[i].value <= hi
    ensures lo <= WeightedValue(g).value <= hi
  {
    if |g| > 1 {
      var front := g[..|g| - 1];
      WeightedWithin(front, lo, hi);
      CollectedWithin(WeightedValue(front), Last(g).value, Elapsed(Last(front), Last(g)), lo, hi);
    }
  }

  lemma CollectedWithin(w: Weighted, value: real, weight: real, lo: real, hi: real)
    requires lo <= w.value <= hi && lo <= value <= hi
    ensures lo <= Collected(w, value, weight).value <= hi
  {
    if w.divisor > 0.0 && weight > 0.0 {
      Convex(w.value, w.divisor, value, weight, lo, hi);
    } else {
      Halfway(w.value, value, lo, hi);
    }
  }

  lemma Halfway(a: real, b: real, lo: real, hi: real)
    requires lo <= a <= hi && lo <= b <= hi
    ensures lo <= (a + b) / 2.0 <= hi
  {
  }

  /** The samples of a group as a step function: the first two share the first interval. */
  function Area(g: Group): real {
    if |g| == 1 then 0.0
    else
      var front := g[..|g| - 1];
      Area(front) + Strip(front, Last(g))
  }

  function Strip(front: Group, s: Sample): real {
    (if |front| == 1 then (front[0].value + s.value) / 2.0 else s.value) * Elapsed(Last(front), s)
  }

  /** With increasing timestamps a datapoint is the exact mean of that step function. */
  lemma {:induction false} WeightedIsMeanOfArea(g: Group)
    requires |g| > 1 && Increasing(g)
    ensures IsMeanOfArea(g)
  {
    if |g| == 2 {
      FirstInterval(g);
    } else {
      var front, s := g[..|g| - 1], Last(g);
      WeightedIsMeanOfArea(front);
      MeanWithOneMore(front, s);
      assert front + [s] == g;
    }
  }

  predicate IsMeanOfArea(g: Group) {
    var elapsed := Elapsed(g[0], Last(g));
    elapsed > 0.0 && WeightedValue(g) == Weighted(Area(g) / elapsed, elapsed)
  }

  ghost predicate Increasing(g: Group) {
    forall i, j :: 0 <= i < j < |g| ==> g[i].time < g[j].time
  }

  lemma MeanWithOneMore(g: Group, s: Sample)
    requires |g| > 1 && IsMeanOfArea(g) && Last(g).time < s.time
    ensures IsMeanOfArea(g + [s])
  {
    var more: Group := g + [s];
    assert more[0] == g[0] && Last(more) == s;
    AreaOfOneMore(g, s);
    var before, weight, elapsed := Elapsed(g[0], Last(g)), Elapsed(Last(g), s), Elapsed(g[0], s);
    assert before + weight == elapsed;
    WeightedWithOneMore(g, s, Area(g), Area(more), before, weight, elapsed);
  }

  lemma WeightedWithOneMore(g: Group, s: Sample, area: real, total: real, before: real, weight: real, elapsed: real)
    requires before > 0.0 && weight > 0.0 && before + weight == elapsed && weight == Elapsed(Last(g), s)
    requires WeightedValue(g) == Weighted(area / before, before) && total == area + s.value * weight
    ensures WeightedValue(g + [s]) == Weighted(total / elapsed, elapsed)
  {
    WeightedOfOneMore(g, s);
    CollectedMean(WeightedValue(g), s.value, weight, area, total, elapsed);
  }

  lemma AreaOfOneMore(g: Group, s: Sample)
    ensures Area(g + [s]) == Area(g) + Strip(g, s)
  {
    var longer := g + [s];
    assert longer[..|longer| - 1] == g && Last(longer) == s;
  }

  lemma CollectedMean(w: Weighted, value: real, weight: real, area: real, total: real, elapsed: real)
    requires w.divisor > 0.0 && weight > 0.0 && w.divisor + weight == elapsed
    requires w.value == area / w.divisor && total == area + value * weight
    ensures Collected(w, value, weight) == Weighted(total / elapsed, elapsed)
  {
    MeanTimesWeight(area, w.divisor);
  }

  lemma FirstInterval(g: Group)
    requires |g| == 2 && g[0].time < g[1].time
    ensures var elapsed := Elapsed(g[0], g[1]);
            && WeightedValue(g) == Weighted((g[0].value + g[1].value) / 2.0, elapsed)
            && WeightedValue(g).value == Area(g) / elapsed
  {
    assert g[..1] == [g[0]];
    MeanOverWeight((g[0].value + g[1].value) / 2.0, Elapsed(g[0], g[1]));
  }

  lemma MeanOverWeight(a: real, b: real)
    requires b != 0.0
    ensures a * b / b == a
  {
  }

  lemma MeanTimesWeight(a: real, b: real)
    requires b != 0.0
    ensures a / b * b == a
  {
  }

  function IntervalSum(ps: seq<DataPoint>, start: int): real {
    if ps == [] then 0.0 else IntervalSum(ps[..|ps| - 1], start) + Interval(ps, |ps| - 1, start)
  }

  ghost predicate Chronological(ps: seq<DataPoint>, start: int) {
    forall i :: 0 <= i < |ps| ==> Interval(ps, i, start) >= 0.0
  }

  lemma {:induction false} IntervalsAddUp(ps: seq<DataPoint>, start: int)
    requires ps != []
    ensures IntervalSum(ps, start) == (ps[|ps| - 1].timestamp - start) as real
  {
    var n := |ps| - 1;
    if n > 0 {
      IntervalsAddUp(ps[..n], start);
    } else {
      assert ps[..0] == [];
    }
  }

  lemma {:induction false} IntegralWithin(ps: seq<DataPoint>, start: int, lo: real, hi: real)
    requires Chronological(ps, start)
    requires forall i :: 0 <= i < |ps| ==> lo <= ps[i].value <= hi
    ensures Between(lo, Integral(ps, start), hi, IntervalSum(ps, start))
  {
    if ps != [] {
      var n := |ps| - 1;
      var front, w := ps[..n], Interval(ps, n, start);
      assert forall i :: 0 <= i < n ==> Interval(front, i, start) == Interval(ps, i, start);
      IntegralWithin(front, start, lo, hi);
      assert w >= 0.0;
      StepWithin(lo, hi, Integral(front, start), IntervalSum(front, start), ps[n].value, w);
    }
  }

  lemma Distribute(a: real, b: real, c: real)
    ensures a * (b + c) == a * b + a * c
  {
  }

  lemma Scale(a: real, b: real, c: real)
    requires a <= b && c >= 0.0
    ensures a * c <= b * c
  {
  }

  lemma MeanOverIntervals(ps: seq<DataPoint>, start: int, lo: real, hi: real)
    requires Chronological(ps, start) && IntervalSum(ps, start) > 0.0
    requires forall i :: 0 <= i < |ps| ==> lo <= ps[i].value <= hi
    ensures lo <= Integral(ps, start) / IntervalSum(ps, start) <= hi
  {
    IntegralWithin(ps, start, lo, hi);
    Quotient(Integral(ps, start), IntervalSum(ps, start), lo, hi);
  }

  /** The weights of the evaluation are not negative and add up to exactly the window time. */
  lemma WeightsCoverWindow(samples: seq<Sample>, windowTime: int, collTime: int)
    requires Sorted(samples) && windowTime >= 0 && samples != []
    ensures Covers(Points(TimeWeighted, Run(samples, windowTime, collTime).groups), windowTime)
  {
    RunKeepsSamples(samples, windowTime, collTime);
    var h := Run(samples, windowTime, collTime);
    PointsAreChronological(h, samples[|samples| - 1].time, windowTime, collTime);
    IntervalsCover(Points(TimeWeighted, h.groups), windowTime);
  }

  /** The intervals that weigh the datapoints are not negative and make up the window. */
  ghost predicate Covers(ps: seq<DataPoint>, windowTime: int) {
    && ps != []
    && var start := ps[|ps| - 1].timestamp - windowTime;
       Chronological(ps, start) && IntervalSum(ps, start) == windowTime as real
  }

  lemma IntervalsCover(ps: seq<DataPoint>, windowTime: int)
    requires ps != [] && Chronological(ps, ps[|ps| - 1].timestamp - windowTime)
    ensures Covers(ps, windowTime)
  {
    IntervalsAddUp(ps, ps[|ps| - 1].timestamp - windowTime);
  }

  lemma PointsAreChronological(h: History, t: int, windowTime: int, collTime: int)
    requires Windowed(h, t, windowTime, collTime) && windowTime >= 0 && h.groups != []
    ensures var ps := Points(TimeWeighted, h.groups);
            Chronological(ps, ps[|ps| - 1].timestamp - windowTime)
  {
    var ps := Points(TimeWeighted, h.groups);
    var start := ps[|ps| - 1].timestamp - windowTime;
    forall i | 0 <= i < |ps|
      ensures Interval(ps, i, start) >= 0.0
    {
      TimestampsRise(h, t, windowTime, collTime, i);
    }
  }

  lemma TimestampsRise(h: History, t: int, windowTime: int, collTime: int, i: nat)
    requires Windowed(h, t, windowTime, collTime) && i < |h.groups|
    ensures t - windowTime <= Last(h.groups[i]).time <= t
    ensures i > 0 ==> Last(h.groups[i - 1]).time <= Last(h.groups[i]).time
  {
    assert Sorted(h.groups[i]);
    assert i > 0 ==> Last(h.groups[i - 1]).time <= h.groups[i][0].time;
  }

  /** The samples within reach of the last one lie between lo and hi. */
  predicate BoundedInReach(samples: seq<Sample>, windowTime: int, collTime: int, lo: real, hi: real) {
    forall i :: 0 <= i < |samples| ==>
      InReach(samples[i], samples[|samples| - 1].time, windowTime, collTime) ==> lo <= samples[i].value <= hi
  }

  /** A datapoint lies between the bounds of the samples within reach, in every mode. */
  lemma PointIsBounded(mode: Mode, samples: seq<Sample>, windowTime: int, collTime: int, lo: real, hi: real, k: nat)
    requires Sorted(samples) && windowTime >= 0 && samples != []
    requires BoundedInReach(samples, windowTime, collTime, lo, hi)
    requires k < |Run(samples, windowTime, collTime).groups|
    ensures lo <= PointOf(mode, Run(samples, windowTime, collTime).groups[k]).value <= hi
  {
    RunKeepsSamples(samples, windowTime, collTime);
    var h := Run(samples, windowTime, collTime);
    forall i | 0 <= i < |h.groups[k]|
      ensures lo <= h.groups[k][i].value <= hi
    {
      KeptIsInReach(h, samples[|samples| - 1].time, windowTime, collTime, k, i);
      InFlatten(h.groups, k, i);
      assert h.groups[k][i] in samples;
    }
    GroupWithin(mode, h.groups[k], lo, hi);
  }

  lemma GroupWithin(mode: Mode, g: Group, lo: real, hi: real)
    requires forall i :: 0 <= i < |g| ==> lo <= g[i].value <= hi
    ensures lo <= PointOf(mode, g).value <= hi
  {
    match mode
    case Average =>
      SumWithin(g, lo, hi);
      Quotient(Sum(g), |g| as real, lo, hi);
    case TimeWeighted => WeightedWithin(g, lo, hi);
    case _ => var _ := ExtremeOfGroup(mode, g);
  }

  lemma {:induction false} SumWithin(g: seq<Sample>, lo: real, hi: real)
    requires forall i :: 0 <= i < |g| ==> lo <= g[i].value <= hi
    ensures Between(lo, Sum(g), hi, |g| as real)
  {
    if g != [] {
      var n := |g| - 1;
      SumWithin(g[..n], lo, hi);
      StepWithin(lo, hi, Sum(g[..n]), n as real, g[n].value, 1.0);
    }
  }

  lemma {:induction false} PointSumWithin(ps: seq<DataPoint>, lo: real, hi: real)
    requires forall i :: 0 <= i < |ps| ==> lo <= ps[i].value <= hi
    ensures Between(lo, PointSum(ps), hi, |ps| as real)
  {
    if ps != [] {
      var n := |ps| - 1;
      PointSumWithin(ps[..n], lo, hi);
      StepWithin(lo, hi, PointSum(ps[..n]), n as real, ps[n].value, 1.0);
    }
  }

  lemma PointsAreBounded(mode: Mode, samples: seq<Sample>, windowTime: int, collTime: int, lo: real, hi: real)
    requires Sorted(samples) && windowTime >= 0 && samples != []
    requires BoundedInReach(samples, windowTime, collTime, lo, hi)
    ensures var ps := Points(mode, Run(samples, windowTime, collTime).groups);
            ps != [] && forall k :: 0 <= k < |ps| ==> lo <= ps[k].value <= hi
  {
    RunKeepsSamples(samples, windowTime, collTime);
    var ps := Points(mode, Run(samples, windowTime, collTime).groups);
    forall k | 0 <= k < |ps|
      ensures lo <= ps[k].value <= hi
    {
      PointIsBounded(mode, samples, windowTime, collTime, lo, hi, k);
    }
  }

  /** Main result for the time-weighted average: with a positive window time the result lies between
      any bounds of the samples within reach. */
  lemma WeightedAverageIsConvex(samples: seq<Sample>, windowTime: int, collTime: int, lo: real, hi: real)
    requires Sorted(samples) && windowTime > 0 && samples != []
    requires BoundedInReach(samples, windowTime, collTime, lo, hi)
    ensures lo <= Result(TimeWeighted, samples, windowTime, collTime) <= hi
  {
    WeightsCoverWindow(samples, windowTime, collTime);
    PointsAreBounded(TimeWeighted, samples, windowTime, collTime, lo, hi);
    var ps := Points(TimeWeighted, Run(samples, windowTime, collTime).groups);
    MeanOverIntervals(ps, ps[|ps| - 1].timestamp - windowTime, lo, hi);
  }

  lemma EvaluationIsWithin(mode: Mode, ps: seq<DataPoint>, windowTime: int, lo: real, hi: real)
    requires mode != TimeWeighted && ps != [] && forall k :: 0 <= k < |ps| ==> lo <= ps[k].value <= hi
    ensures lo <= Evaluation(mode, ps, windowTime) <= hi
  {
    if mode == Average {
      PointSumWithin(ps, lo, hi);
      Quotient(PointSum(ps), |ps| as real, lo, hi);
    } else {
      var _ := ExtremeOfPoints(mode, ps);
    }
  }

  /** The same in every mode. */
  lemma ResultIsWithin(mode: Mode, samples: seq<Sample>, windowTime: int, collTime: int, lo: real, hi: real)
    requires Sorted(samples) && windowTime > 0 && samples != []
    requires BoundedInReach(samples, windowTime, collTime, lo, hi)
    ensures lo <= Result(mode, samples, windowTime, collTime) <= hi
  {
    if mode == TimeWeighted {
      WeightedAverageIsConvex(samples, windowTime, collTime, lo, hi);
    } else {
      PointsAreBounded(mode, samples, windowTime, collTime, lo, hi);
      var ps := Points(mode, Run(samples, windowTime, collTime).groups);
      EvaluationIsWithin(mode, ps, windowTime, lo, hi);
    }
  }

  // ----- Evaluation per now

  /** What evaluating per now adds: the latest datapoint once more, whatever it stands for. */
  function Repeated(mode: Mode, samples: seq<Sample>, windowTime: int, collTime: int, now: int): Sample
    requires Run(samples, windowTime, collTime).groups != []
  {
    var groups := Run(samples, windowTime, collTime).groups;
    Sample(PointOf(mode, groups[|groups| - 1]).value, now)
  }

  lemma RepeatedIsSorted(mode: Mode, samples: seq<Sample>, windowTime: int, collTime: int, now: int)
    requires Sorted(samples) && windowTime >= 0 && samples != [] && now >= samples[|samples| - 1].time
    ensures Run(samples, windowTime, collTime).groups != []
    ensures Sorted(samples + [Repeated(mode, samples, windowTime, collTime, now)])
  {
    RunKeepsSamples(samples, windowTime, collTime);
    SortedOneMore(samples, Repeated(mode, samples, windowTime, collTime, now));
  }

  /** Main result for evaluation per now: although an aggregated value is added as if it were a sample,
      the result lies between any bounds of the samples within reach of the last one. */
  lemma PerNowIsWithin(mode: Mode, samples: seq<Sample>, windowTime: int, collTime: int, now: int, lo: real, hi: real)
    requires Sorted(samples) && windowTime > 0 && samples != [] && now >= samples[|samples| - 1].time
    requires BoundedInReach(samples, windowTime, collTime, lo, hi)
    ensures Run(samples, windowTime, collTime).groups != []
    ensures var r := Repeated(mode, samples, windowTime, collTime, now);
            lo <= Result(mode, samples + [r], windowTime, collTime) <= hi
  {
    RepeatedIsSorted(mode, samples, windowTime, collTime, now);
    var r := Repeated(mode, samples, windowTime, collTime, now);
    PointIsBounded(mode, samples, windowTime, collTime, lo, hi, |Run(samples, windowTime, collTime).groups| - 1);
    var more := samples + [r];
    assert BoundedInReach(more, windowTime, collTime, lo, hi);
    ResultIsWithin(mode, more, windowTime, collTime, lo, hi);
  }

  /** No sample of the last window time before now is beyond the maximum (or minimum) per now. */
  lemma PerNowCoversWindow(mode: Mode, samples: seq<Sample>, windowTime: int, collTime: int, now: int, i: nat)
    requires mode == Max || mode == Min
    requires Sorted(samples) && windowTime >= 0 && i < |samples| && now >= samples[|samples| - 1].time
    requires samples[i].time >= now - windowTime
    ensures Run(samples, windowTime, collTime).groups != []
    ensures var r := Repeated(mode, samples, windowTime, collTime, now);
            var result := Result(mode, samples + [r], windowTime, collTime);
            if mode == Max then samples[i].value <= result else samples[i].value >= result
  {
    RepeatedIsSorted(mode, samples, windowTime, collTime, now);
    var more := samples + [Repeated(mode, samples, windowTime, collTime, now)];
    ExtremeCoversWindow(mode, more, windowTime, collTime, i);
  }
}
