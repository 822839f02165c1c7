/** What the averages of the sliding-window evaluator of extutils.cpp are: how much each datapoint counts,
    and which samples share a datapoint.
  */
module WindowAverages {
  import opened WindowEvaluator

  function Raised(ps: seq<DataPoint>, i: nat, d: real): (r: seq<DataPoint>)
    requires i < |ps|
    ensures |r| == |ps| && r[i] == DataPoint(ps[i].value + d, ps[i].timestamp)
    ensures forall k :: 0 <= k < |ps| && k != i ==> r[k] == ps[k]
  {
    ps[i := ps[i].(value := ps[i].value + d)]
  }

  // ----- Average

  lemma {:induction false} SumOfRaised(ps: seq<DataPoint>, i: nat, d: real)
    requires i < |ps|
    ensures PointSum(Raised(ps, i, d)) == PointSum(ps) + d
  {
    var n := |ps| - 1;
    if i < n {
      assert Raised(ps, i, d)[..n] == Raised(ps[..n], i, d);
      SumOfRaised(ps[..n], i, d);
    } else {
      assert Raised(ps, i, d)[..n] == ps[..n];
    }
  }

  /** Main result on the average: every datapoint counts the same.  Raising one of n by d raises the result
      by d / n. */
  lemma AverageOfRaised(ps: seq<DataPoint>, i: nat, d: real, windowTime: int)
    requires i < |ps|
    ensures Evaluation(Average, Raised(ps, i, d), windowTime) - Evaluation(Average, ps, windowTime) == d / |ps| as real
  {
    SumOfRaised(ps, i, d);
    QuotientOfSum(PointSum(ps), d, |ps| as real);
  }

  lemma QuotientOfSum(a: real, b: real, n: real)
    requires n != 0.0
    ensures (a + b) / n - a / n == b / n
  {
  }

  /** The average of equal values is that value; with the result above, this fixes the average. */
  lemma AverageOfEqual(ps: seq<DataPoint>, v: real, windowTime: int)
    requires ps != [] && forall k :: 0 <= k < |ps| ==> ps[k].value == v
    ensures Evaluation(Average, ps, windowTime) == v
  {
    EvaluationIsWithin(Average, ps, windowTime, v, v);
  }

  // ----- Time-weighted average

  /** The time from the datapoint before, or from the begin of the window. */
  function Span(ps: seq<DataPoint>, i: nat, windowTime: int): int
    requires i < |ps|
  {
    ps[i].timestamp - if i == 0 then ps[|ps| - 1].timestamp - windowTime else ps[i - 1].timestamp
  }

  /** The integral up to the last datapoint, if the last interval has this length. */
  lemma IntegralOfOneMore(ps: seq<DataPoint>, start: int, w: real)
    requires ps != [] && w == Interval(ps, |ps| - 1, start)
    ensures Integral(ps, start) == Integral(ps[..|ps| - 1], start) + ps[|ps| - 1].value * w
  {
  }

  lemma {:induction false} IntegralOfRaised(ps: seq<DataPoint>, i: nat, d: real, start: int, w: real, more: real)
    requires i < |ps| && w == Interval(ps, i, start) && more == d * w
    ensures Integral(Raised(ps, i, d), start) == Integral(ps, start) + more
  {
    var n := |ps| - 1;
    var raised, last := Raised(ps, i, d), Interval(ps, n, start);
    assert Interval(raised, n, start) == last;
    IntegralOfOneMore(ps, start, last);
    IntegralOfOneMore(raised, start, last);
    if i < n {
      assert raised[..n] == Raised(ps[..n], i, d);
      assert Interval(ps[..n], i, start) == w;
      IntegralOfRaised(ps[..n], i, d, start, w, more);
    } else {
      assert raised[..n] == ps[..n];
      Distributes(ps[n].value, d, w);
    }
  }

  lemma Distributes(a: real, b: real, c: real)
    ensures (a + b) * c == a * c + b * c
  {
  }

  /** Main result on the time-weighted average: a datapoint counts for the time since the one before.
      Raising it by d raises the result by d times this part of the window. */
  lemma WeightedOfRaised(ps: seq<DataPoint>, i: nat, d: real, windowTime: int) returns (part: real)
    requires i < |ps| && windowTime != 0
    ensures part * windowTime as real == Span(ps, i, windowTime) as real
    ensures Evaluation(TimeWeighted, Raised(ps, i, d), windowTime)
            == Evaluation(TimeWeighted, ps, windowTime) + d * part
  {
    var start, total, raised := ps[|ps| - 1].timestamp - windowTime, windowTime as real, Raised(ps, i, d);
    var w := Span(ps, i, windowTime) as real;
    part := PartOf(w, total);
    IntegralOfRaised(ps, i, d, start, w, d * w);
    assert Evaluation(TimeWeighted, ps, windowTime) == Integral(ps, start) / total;
    assert Evaluation(TimeWeighted, raised, windowTime) == Integral(raised, start) / total;
    QuotientOfRaised(Integral(ps, start), d, w, part, total);
  }

  lemma PartOf(w: real, total: real) returns (part: real)
    requires total != 0.0
    ensures part * total == w
  {
    part := w / total;
  }

  lemma QuotientOfRaised(a: real, d: real, w: real, part: real, total: real)
    requires total != 0.0 && part * total == w
    ensures (a + d * w) / total == a / total + d * part
  {
    assert d * w == d * part * total;
    QuotientOfSum(a, d * part * total, total);
    MeanOverWeight(d * part, total);
  }

  lemma {:induction false} IntegralOfEqual(ps: seq<DataPoint>, v: real, start: int)
    requires ps != [] && forall k :: 0 <= k < |ps| ==> ps[k].value == v
    ensures Integral(ps, start) == v * (ps[|ps| - 1].timestamp - start) as real
  {
    var n := |ps| - 1;
    if n > 0 {
      IntegralOfEqual(ps[..n], v, start);
      var a, b := (ps[n - 1].timestamp - start) as real, Interval(ps, n, start);
      Distribute(v, a, b);
      assert (ps[n].timestamp - start) as real == a + b;
    } else {
      assert ps[..0] == [];
    }
  }

  /** The time-weighted average of equal values is that value. */
  lemma WeightedOfEqual(ps: seq<DataPoint>, v: real, windowTime: int)
    requires ps != [] && windowTime != 0 && forall k :: 0 <= k < |ps| ==> ps[k].value == v
    ensures Evaluation(TimeWeighted, ps, windowTime) == v
  {
    IntegralOfEqual(ps, v, ps[|ps| - 1].timestamp - windowTime);
    MeanOverWeight(v, windowTime as real);
  }

  /** Without data, or without a window to weigh, the result is 0. */
  lemma NothingToEvaluate(mode: Mode, ps: seq<DataPoint>, windowTime: int)
    requires ps == [] || (mode == TimeWeighted && windowTime == 0)
    ensures Evaluation(mode, ps, windowTime) == 0.0
  {
  }

  // ----- What shares a datapoint

  /** A sample at the time of the datapoint, or the second one at all, makes the value the middle. */
  lemma SameTimeIsHalfway(g: Group, s: Sample)
    requires s.time <= Last(g).time || |g| == 1
    ensures var middle := WeightedValue(g + [s]).value;
            middle - WeightedValue(g).value == s.value - middle
  {
    WeightedOfOneMore(g, s);
  }

  /** The next datapoint begins only when the collection time of the one before is over. */
  ghost predicate Full(groups: seq<Group>, collTime: int) {
    forall k :: 0 < k < |groups| ==> groups[k][0].time >= groups[k - 1][0].time + collTime
  }

  lemma {:induction false} DropOldKeepsFull(h: History, limit: int, collTime: int)
    requires Full(h.groups, collTime)
    ensures Full(DropOld(h, limit).groups, collTime)
    decreases |h.groups|
  {
    if h.groups != [] && Last(h.groups[0]).time < limit {
      DropOldKeepsFull(History(h.dropped + h.groups[0], h.groups[1..]), limit, collTime);
    }
  }

  lemma CollectKeepsFull(h: History, s: Sample, collTime: int)
    requires Full(h.groups, collTime)
    ensures Full(Collect(h, s, collTime).groups, collTime)
  {
    var n, groups := |h.groups| - 1, Collect(h, s, collTime).groups;
    forall k | 0 < k < |groups|
      ensures groups[k][0].time >= groups[k - 1][0].time + collTime
    {
      if k <= n {
        assert h.groups[k][0].time >= h.groups[k - 1][0].time + collTime;
      }
    }
  }

  /** Main result on coalescing: samples share a datapoint as long as the collection time from its first
      one lasts.  Together with RunKeepsSamples this fixes the datapoints. */
  lemma {:induction false} DatapointsAreFull(samples: seq<Sample>, windowTime: int, collTime: int)
    ensures Full(Run(samples, windowTime, collTime).groups, collTime)
  {
    if samples != [] {
      var n := |samples| - 1;
      var h := Run(samples[..n], windowTime, collTime);
      DatapointsAreFull(samples[..n], windowTime, collTime);
      DropOldKeepsFull(h, samples[n].time - windowTime, collTime);
      CollectKeepsFull(DropOld(h, samples[n].time - windowTime), samples[n], collTime);
    }
  }
}
