/** The counter fold and the edge extrapolation, over any arithmetic. */
module Folds {
  import opened Readings
  import opened Grids
  import opened Windows

  /** The operations the fold performs on values. The bit patterns of doubles with IEEE
      arithmetic are one instance, the real numbers are another. */
  datatype Arith<!V> = Arith(
    add: (V, V) -> V,
    sub: (V, V) -> V,
    mul: (V, V) -> V,
    div: (V, V) -> V,
    less: (V, V) -> bool,
    atLeast: (V, V) -> bool,
    fromTicks: int -> V,
    zero: V,
    onePointOne: V,
    two: V)

  type Counter<V> = Reading<V, Option<int>>
  type ResetRule<!V> = (Counter<V>, Counter<V>) -> bool

  // ---- reset rules ----

  /** Does the start timestamp of `curr` say that the counter restarted since `prev`? */
  predicate StReset<V>(prev: Counter<V>, curr: Counter<V>, fromDeltaTemporality: bool) {
    if curr.st.None? then false
    else if curr.st.value >= curr.t then true
    else if curr.st.value < prev.t then false
    else if curr.st.value == prev.t then !fromDeltaTemporality
    else true
  }

  predicate ValueOrStReset<V>(ar: Arith<V>, prev: Counter<V>, curr: Counter<V>, fromDeltaTemporality: bool) {
    ar.less(curr.v, prev.v) || StReset(prev, curr, fromDeltaTemporality)
  }

  /** The rule every caller passes: unknown temporality. */
  function CounterRule<V>(ar: Arith<V>): ResetRule<V> {
    (p, c) => ValueOrStReset(ar, p, c, false)
  }

  // ---- the fold ----

  datatype Summary<+V> =
    | NoData
    | Summary(first: V, firstT: int, firstSt: Option<int>, last: V, lastT: int, n: nat, delta: V, resets: nat)

  /** The pre-reset values added up in order, from the left. */
  function ResetSum<V>(ar: Arith<V>, data: seq<Counter<V>>, isReset: ResetRule<V>): V {
    if |data| < 2 then ar.zero
    else
      var n := |data| - 1;
      var sum := ResetSum(ar, data[..n], isReset);
      if isReset(data[n - 1], data[n]) then ar.add(sum, data[n - 1].v) else sum
  }

  function ResetCount<V>(data: seq<Counter<V>>, isReset: ResetRule<V>): nat {
    if |data| < 2 then 0
    else
      var n := |data| - 1;
      ResetCount(data[..n], isReset) + if isReset(data[n - 1], data[n]) then 1 else 0
  }

  function FoldOf<V>(ar: Arith<V>, data: seq<Counter<V>>, before: Option<Counter<V>>, isReset: ResetRule<V>)
    : Summary<V>
  {
    if data == [] then NoData
    else
      var first, last := data[0], data[|data| - 1];
      Summary(first.v, first.t, first.st, last.v, last.t, |data|,
              ar.add(ResetSum(ar, data, isReset), ar.sub(last.v, first.v)),
              ResetCount(data, isReset) + if before.Some? && isReset(before.value, first) then 1 else 0)
  }

  method CounterFold<V>(ar: Arith<V>, data: seq<Counter<V>>, before: Option<Counter<V>>, isReset: ResetRule<V>)
    returns (summary: Summary<V>)
    ensures summary == FoldOf(ar, data, before, isReset)
  {
    if |data| == 0 {
      return NoData;
    }
    var resets := 0;
    if before.Some? && isReset(before.value, data[0]) {
      resets := resets + 1;
    }
    ghost var straddling := resets;
    var delta := ar.zero;
    for i := 1 to |data|
      invariant delta == ResetSum(ar, data[..i], isReset)
      invariant resets == straddling + ResetCount(data[..i], isReset)
    {
      assert data[..i + 1][..i] == data[..i];
      if isReset(data[i - 1], data[i]) {
        resets := resets + 1;
        delta := ar.add(delta, data[i - 1].v);
      }
    }
    assert data[..|data|] == data;
    var first, last := data[0], data[|data| - 1];
    delta := ar.add(delta, ar.sub(last.v, first.v));
    summary := Summary(first.v, first.t, first.st, last.v, last.t, |data|, delta, resets);
  }

  // ---- extrapolation ----

  datatype Extrapolated<+V> = NoValue | Value(value: V, factor: V)

  predicate StInsideLeftGap<V>(summary: Summary<V>, windowStart: int, isCounter: bool) {
    && isCounter && summary.Summary? && summary.firstSt.Some?
    && windowStart < summary.firstSt.value < summary.firstT
  }

  /** The points the arithmetic works with: the fold's own, or those and a true zero at a start
      timestamp inside the left gap. */
  datatype Effective<+V> = Effective(stInside: bool, n: nat, firstT: int, first: V, delta: V)

  function EffectiveOf<V>(ar: Arith<V>, summary: Summary<V>, windowStart: int, isCounter: bool): Effective<V>
    requires summary.Summary?
  {
    if StInsideLeftGap(summary, windowStart, isCounter) then
      Effective(true, summary.n + 1, summary.firstSt.value, ar.zero, ar.add(summary.delta, summary.first))
    else
      Effective(false, summary.n, summary.firstT, summary.first, summary.delta)
  }

  function DurationToStart<V>(ar: Arith<V>, e: Effective<V>, windowStart: int, sampledInterval: V, avgInterval: V,
                              threshold: V, isCounter: bool): V {
    var gap :=
      if e.stInside then ar.zero
      else
        var d := ar.fromTicks(e.firstT - windowStart);
        if ar.less(threshold, d) then ar.div(avgInterval, ar.two) else d;
    if isCounter && ar.less(ar.zero, e.delta) && ar.atLeast(e.first, ar.zero) then
      var toZero := ar.mul(sampledInterval, ar.div(e.first, e.delta));
      if ar.less(toZero, gap) then toZero else gap
    else gap
  }

  function DurationToEnd<V>(ar: Arith<V>, lastT: int, windowEnd: int, avgInterval: V, threshold: V): V {
    var d := ar.fromTicks(windowEnd - lastT);
    if ar.less(threshold, d) then ar.div(avgInterval, ar.two) else d
  }

  function Extrapolate<V>(ar: Arith<V>, summary: Summary<V>, windowStart: int, windowEnd: int, isCounter: bool)
    : Extrapolated<V>
  {
    if summary.NoData? then NoValue
    else
      var e := EffectiveOf(ar, summary, windowStart, isCounter);
      if e.n < 2 then NoValue
      else
        var sampledInterval := ar.fromTicks(summary.lastT - e.firstT);
        var avgInterval := ar.div(sampledInterval, ar.fromTicks(e.n - 1));
        var threshold := ar.mul(avgInterval, ar.onePointOne);
        var toStart := DurationToStart(ar, e, windowStart, sampledInterval, avgInterval, threshold, isCounter);
        var toEnd := DurationToEnd(ar, summary.lastT, windowEnd, avgInterval, threshold);
        var toInterval := ar.add(ar.add(sampledInterval, toStart), toEnd);
        var factor := ar.div(toInterval, sampledInterval);
        Value(ar.mul(e.delta, factor), factor)
  }

  // ---- one grid point ----

  /** The rate at one grid point, from the readings its window admits. */
  function RatePoint<V>(ar: Arith<V>, data: seq<Counter<V>>, anchor: int, window: int): Option<V> {
    var ex := Extrapolate(ar, FoldOf(ar, data, None, CounterRule(ar)), anchor - window, anchor, true);
    if ex.NoValue? then None else Some(ar.div(ex.value, ar.fromTicks(window)))
  }

  method ComputeRatePoint<V>(ar: Arith<V>, data: seq<Counter<V>>, anchor: int, window: int) returns (point: Option<V>)
    ensures point == RatePoint(ar, data, anchor, window)
  {
    var summary := CounterFold(ar, data, None, CounterRule(ar));
    var ex := Extrapolate(ar, summary, anchor - window, anchor, true);
    if ex.Value? {
      point := Some(ar.div(ex.value, ar.fromTicks(window)));
    } else {
      point := None;
    }
  }

  /** A start timestamp says that the counter restarted exactly when it is later than the previous
      reading, or as late under cumulative temporality. */
  lemma StResetMeans<V>(prev: Counter<V>, curr: Counter<V>, fromDeltaTemporality: bool)
    requires prev.t < curr.t
    ensures StReset(prev, curr, fromDeltaTemporality) <==>
            && curr.st.Some?
            && (prev.t < curr.st.value || (prev.t == curr.st.value && !fromDeltaTemporality))
  {
  }

  /** The extrapolation, operation by operation, for counters and for other values: only a counter
      has a start timestamp and is cut at zero. */
  lemma ExtrapolateInTerms<V>(ar: Arith<V>, s: Summary<V>, windowStart: int, windowEnd: int, isCounter: bool)
    requires s.Summary?
    ensures
      var origin := isCounter && s.firstSt.Some? && windowStart < s.firstSt.value && s.firstSt.value < s.firstT;
      var n := if origin then s.n + 1 else s.n;
      var delta := if origin then ar.add(s.delta, s.first) else s.delta;
      var base := if origin then ar.zero else s.first;
      var span := ar.fromTicks(s.lastT - if origin then s.firstSt.value else s.firstT);
      var average := ar.div(span, ar.fromTicks(n - 1));
      var limit := ar.mul(average, ar.onePointOne);
      var before, after := ar.fromTicks(s.firstT - windowStart), ar.fromTicks(windowEnd - s.lastT);
      var left := if origin then ar.zero else if ar.less(limit, before) then ar.div(average, ar.two) else before;
      var toZero := ar.mul(span, ar.div(base, delta));
      var cut := if isCounter && ar.less(ar.zero, delta) && ar.atLeast(base, ar.zero) && ar.less(toZero, left)
                 then toZero else left;
      var right := if ar.less(limit, after) then ar.div(average, ar.two) else after;
      var factor := ar.div(ar.add(ar.add(span, cut), right), span);
      Extrapolate(ar, s, windowStart, windowEnd, isCounter)
      == if n < 2 then NoValue else Value(ar.mul(delta, factor), factor)
  {
  }

  /** The rate of one point, operation by operation, in terms of the readings of its window. A gap at
      either edge counts whole up to 1.1 average intervals and as half an interval beyond; a start
      timestamp inside the left gap closes it with one more point at zero. */
  lemma RatePointInTerms<V>(ar: Arith<V>, data: seq<Counter<V>>, anchor: int, window: int)
    requires data != []
    ensures
      var first, last, start := data[0], data[|data| - 1], anchor - window;
      var origin := first.st.Some? && start < first.st.value && first.st.value < first.t;
      var n := if origin then |data| + 1 else |data|;
      var increase := ar.add(ResetSum(ar, data, CounterRule(ar)), ar.sub(last.v, first.v));
      var delta := if origin then ar.add(increase, first.v) else increase;
      var base := if origin then ar.zero else first.v;
      var span := ar.fromTicks(last.t - if origin then first.st.value else first.t);
      var average := ar.div(span, ar.fromTicks(n - 1));
      var limit := ar.mul(average, ar.onePointOne);
      var before, after := ar.fromTicks(first.t - start), ar.fromTicks(anchor - last.t);
      var left := if origin then ar.zero else if ar.less(limit, before) then ar.div(average, ar.two) else before;
      var toZero := ar.mul(span, ar.div(base, delta));
      var cut := if ar.less(ar.zero, delta) && ar.atLeast(base, ar.zero) && ar.less(toZero, left) then toZero else left;
      var right := if ar.less(limit, after) then ar.div(average, ar.two) else after;
      RatePoint(ar, data, anchor, window)
      == if n < 2 then None
         else Some(ar.div(ar.mul(delta, ar.div(ar.add(ar.add(span, cut), right), span)), ar.fromTicks(window)))
  {
    hide ResetSum, ResetCount;
  }

  lemma NoReadingNoRate<V>(ar: Arith<V>, anchor: int, window: int)
    ensures RatePoint(ar, [], anchor, window) == None
  {
  }

  // ---- the points of a series ----

  /** One rate for each grid point, from a deduplicated series. */
  function PointsOf(ar: Arith<Bits>, data: seq<CounterSample>, grid: Grid, window: int): (r: seq<Option<Bits>>)
    requires grid.Valid()
    ensures |r| == grid.Count()
    ensures forall i :: 0 <= i < |r| ==> r[i] == RatePoint(ar, Select(data, grid.At(i), window), grid.At(i), window)
  {
    AtEnds(grid);
    seq(grid.Count(), i requires 0 <= i < grid.Count() =>
      RatePoint(ar, Select(data, grid.At(i), window), grid.At(i), window))
  }
}
