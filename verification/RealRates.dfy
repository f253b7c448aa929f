/** The fold and the extrapolation over the real numbers: bounds, composition, and the series
    transformations that must not change a rate. */
module RealRates {
  import opened Readings
  import opened Grids
  import opened Windows
  import opened Folds

  type RealSample = Counter<real>

  /** Exact arithmetic; quotients by zero are never taken (`SpanIsPositive`). */
  function Exact(): Arith<real> {
    Arith((x: real, y: real) => x + y,
          (x: real, y: real) => x - y,
          (x: real, y: real) => x * y,
          (x: real, y: real) => if y == 0.0 then 0.0 else x / y,
          (x: real, y: real) => x < y,
          (x: real, y: real) => x >= y,
          (n: int) => n as real,
          0.0, 1.1, 2.0)
  }

  // ---- bounds of the extrapolation ----

  /** Falling back to half the average interval only ever shortens a gap. */
  lemma GapIsShortened(avg: real, gap: real)
    requires avg > 0.0 && gap >= 0.0
    ensures 0.0 <= (if avg * 1.1 < gap then avg / 2.0 else gap) <= gap
  {
  }

  lemma DurationToStartBounds(e: Effective<real>, windowStart: int, si: real, avg: real, isCounter: bool)
    requires si > 0.0 && avg > 0.0 && e.firstT >= windowStart
    ensures var d := DurationToStart(Exact(), e, windowStart, si, avg, avg * 1.1, isCounter);
      && 0.0 <= d <= (e.firstT - windowStart) as real
      && (e.stInside ==> d == 0.0)
      && (isCounter && e.delta > 0.0 && e.first >= 0.0 ==> e.first - e.delta / si * d >= 0.0)
  {
    GapIsShortened(avg, (e.firstT - windowStart) as real);
    var d := DurationToStart(Exact(), e, windowStart, si, avg, avg * 1.1, isCounter);
    if isCounter && e.delta > 0.0 && e.first >= 0.0 {
      ZeroClamp(e.first, e.delta, si, d);
    }
  }

  /** Up to the clamp the extrapolated line stays at or above zero. */
  lemma ZeroClamp(first: real, delta: real, si: real, d: real)
    requires si > 0.0 && delta > 0.0 && first >= 0.0
    ensures si * (first / delta) >= 0.0
    ensures 0.0 <= d <= si * (first / delta) ==> first - delta / si * d >= 0.0
  {
    var q, slope := first / delta, delta / si;
    assert q * delta == first && slope * si == delta;
    if 0.0 <= d <= si * q {
      assert slope * d <= slope * (si * q);
      assert slope * (si * q) == (slope * si) * q;
    }
  }

  /** The readings of one window. */
  ghost predicate InWindow(data: seq<RealSample>, anchor: int, window: int) {
    StrictByT(data) && forall k :: 0 <= k < |data| ==> Contains(anchor, window, data[k].t)
  }

  /** Whatever a window selects from a deduplicated series is such a run. */
  lemma {:induction false} SelectedAreInWindow(d: seq<RealSample>, anchor: int, window: int)
    requires StrictByT(d)
    ensures InWindow(Select(d, anchor, window), anchor, window)
    ensures forall x :: x in Select(d, anchor, window) ==> x in d
  {
    if d != [] {
      var n := |d| - 1;
      SelectedAreInWindow(d[..n], anchor, window);
      var init := Select(d[..n], anchor, window);
      forall k | 0 <= k < |init| ensures init[k].t < d[n].t {
        assert init[k] in init;
        var j :| 0 <= j < n && d[..n][j] == init[k];
      }
    }
  }

  /** The summary the fold yields, its effective points and their span. */
  function SummaryOf(data: seq<RealSample>): Summary<real> {
    FoldOf(Exact(), data, None, CounterRule(Exact()))
  }

  function EffectiveIn(data: seq<RealSample>, windowStart: int, isCounter: bool): Effective<real>
    requires data != []
  {
    EffectiveOf(Exact(), SummaryOf(data), windowStart, isCounter)
  }

  /** A value means at least two points that are apart in time, inside the window. */
  lemma SpanIsPositive(data: seq<RealSample>, anchor: int, window: int, isCounter: bool)
    requires InWindow(data, anchor, window) && data != []
    requires EffectiveIn(data, anchor - window, isCounter).n >= 2
    ensures var e := EffectiveIn(data, anchor - window, isCounter);
      anchor - window < e.firstT < data[|data| - 1].t <= anchor
  {
  }

  /** The value in terms of the effective points, before any bound is known. */
  lemma ExtrapolationInParts(data: seq<RealSample>, anchor: int, window: int, isCounter: bool)
    requires data != [] && EffectiveIn(data, anchor - window, isCounter).n >= 2
    requires data[|data| - 1].t > EffectiveIn(data, anchor - window, isCounter).firstT
    ensures var ex := Extrapolate(Exact(), SummaryOf(data), anchor - window, anchor, isCounter);
      var e := EffectiveIn(data, anchor - window, isCounter);
      var si := (data[|data| - 1].t - e.firstT) as real;
      var avg := si / (e.n - 1) as real;
      var toStart := DurationToStart(Exact(), e, anchor - window, si, avg, avg * 1.1, isCounter);
      var toEnd := DurationToEnd(Exact(), data[|data| - 1].t, anchor, avg, avg * 1.1);
      ex.Value? && ex.factor == (si + toStart + toEnd) / si && ex.value == e.delta * ex.factor
  {
    hide ResetSum, ResetCount, DurationToStart, DurationToEnd, EffectiveOf;
    var ar, e, summary := Exact(), EffectiveIn(data, anchor - window, isCounter), SummaryOf(data);
    var si := (data[|data| - 1].t - e.firstT) as real;
    var avg := si / (e.n - 1) as real;
    var toStart := DurationToStart(ar, e, anchor - window, si, avg, avg * 1.1, isCounter);
    var toEnd := DurationToEnd(ar, data[|data| - 1].t, anchor, avg, avg * 1.1);
    assert ar.fromTicks(summary.lastT - e.firstT) == si;
    assert ar.div(si, ar.fromTicks(e.n - 1)) == avg;
    assert ar.mul(avg, ar.onePointOne) == avg * 1.1;
    assert ar.add(ar.add(si, toStart), toEnd) == si + toStart + toEnd;
    var factor := (si + toStart + toEnd) / si;
    assert ar.div(si + toStart + toEnd, si) == factor;
    assert ar.mul(e.delta, factor) == e.delta * factor;
    assert Extrapolate(ar, summary, anchor - window, anchor, isCounter) == Value(e.delta * factor, factor);
  }

  lemma DurationToEndBounds(lastT: int, anchor: int, avg: real)
    requires avg > 0.0 && lastT <= anchor
    ensures 0.0 <= DurationToEnd(Exact(), lastT, anchor, avg, avg * 1.1) <= (anchor - lastT) as real
  {
    GapIsShortened(avg, (anchor - lastT) as real);
  }

  /** Bounds of the extrapolation, for every fold of the readings of a window: a value is given
      exactly for two or more effective points; then the sampled interval is positive, the factor
      is at least one and at most the window over the sampled interval, so that the extrapolated
      span never leaves the window; and where the zero clamp applies, the line through the points
      is not negative at the left edge. */
  lemma BoundsOfExtrapolation(data: seq<RealSample>, anchor: int, window: int, isCounter: bool)
    requires InWindow(data, anchor, window) && window > 0
    ensures var ex := Extrapolate(Exact(), SummaryOf(data), anchor - window, anchor, isCounter);
      && (ex.Value? <==> data != [] && EffectiveIn(data, anchor - window, isCounter).n >= 2)
      && (ex.Value? ==>
            var e := EffectiveIn(data, anchor - window, isCounter);
            var si := (data[|data| - 1].t - e.firstT) as real;
            var avg := si / (e.n - 1) as real;
            var toStart := DurationToStart(Exact(), e, anchor - window, si, avg, avg * 1.1, isCounter);
            && si > 0.0
            && 1.0 <= ex.factor <= window as real / si
            && ex.value == e.delta * ex.factor
            && (isCounter && e.delta > 0.0 && e.first >= 0.0 ==> e.first - e.delta / si * toStart >= 0.0))
  {
    hide ResetSum, ResetCount, DurationToStart, DurationToEnd, InWindow, Extrapolate, EffectiveIn, SummaryOf;
    ValueNeedsTwoPoints(data, anchor, window, isCounter);
    if data != [] && EffectiveIn(data, anchor - window, isCounter).n >= 2 {
      var e := EffectiveIn(data, anchor - window, isCounter);
      SpanIsPositive(data, anchor, window, isCounter);
      ExtrapolationInParts(data, anchor, window, isCounter);
      var lastT := data[|data| - 1].t;
      var si := (lastT - e.firstT) as real;
      QuotientIsPositive(si, (e.n - 1) as real);
      var avg := si / (e.n - 1) as real;
      DurationToStartBounds(e, anchor - window, si, avg, isCounter);
      DurationToEndBounds(lastT, anchor, avg);
      var toStart := DurationToStart(Exact(), e, anchor - window, si, avg, avg * 1.1, isCounter);
      var toEnd := DurationToEnd(Exact(), lastT, anchor, avg, avg * 1.1);
      FactorBounds(si, toStart, toEnd, window as real);
    }
  }

  lemma ValueNeedsTwoPoints(data: seq<RealSample>, anchor: int, window: int, isCounter: bool)
    ensures Extrapolate(Exact(), SummaryOf(data), anchor - window, anchor, isCounter).Value?
       <==> data != [] && EffectiveIn(data, anchor - window, isCounter).n >= 2
  {
  }

  lemma QuotientIsPositive(x: real, y: real)
    requires x > 0.0 && y > 0.0
    ensures x / y > 0.0
  {
  }

  lemma FactorBounds(si: real, toStart: real, toEnd: real, window: real)
    requires si > 0.0 && toStart >= 0.0 && toEnd >= 0.0 && si + toStart + toEnd <= window
    ensures 1.0 <= (si + toStart + toEnd) / si <= window / si
  {
    var f, w := (si + toStart + toEnd) / si, window / si;
    assert f * si == si + toStart + toEnd && w * si == window;
  }

  // ---- non-negative readings ----

  /** The reset-adjusted increase of non-negative readings is not negative. */
  lemma {:induction false} IncreaseIsNonNegative(data: seq<RealSample>)
    requires data != [] && forall k :: 0 <= k < |data| ==> data[k].v >= 0.0
    ensures ResetSum(Exact(), data, CounterRule(Exact())) + (data[|data| - 1].v - data[0].v) >= 0.0
  {
    if |data| > 1 {
      IncreaseIsNonNegative(data[..|data| - 1]);
    }
  }

  /** Non-negative readings give a rate between zero and the increase per sampled interval. */
  lemma RateIsBetween(data: seq<RealSample>, anchor: int, window: int)
    requires InWindow(data, anchor, window) && window > 0
    requires forall k :: 0 <= k < |data| ==> data[k].v >= 0.0
    ensures var rate := RatePoint(Exact(), data, anchor, window);
      rate.Some? ==>
        var e := EffectiveIn(data, anchor - window, true);
        data != [] && 0.0 <= rate.value <= e.delta / (data[|data| - 1].t - e.firstT) as real
  {
    hide ResetSum, ResetCount, DurationToStart, DurationToEnd, InWindow, Extrapolate, EffectiveIn;
    BoundsOfExtrapolation(data, anchor, window, true);
    var ex := Extrapolate(Exact(), SummaryOf(data), anchor - window, anchor, true);
    if ex.Value? {
      var e := EffectiveIn(data, anchor - window, true);
      EffectiveIncreaseIsNonNegative(data, anchor, window);
      ScaledRate(e.delta, ex.factor, window as real, (data[|data| - 1].t - e.firstT) as real);
    }
  }

  lemma EffectiveIncreaseIsNonNegative(data: seq<RealSample>, anchor: int, window: int)
    requires data != [] && forall k :: 0 <= k < |data| ==> data[k].v >= 0.0
    ensures EffectiveIn(data, anchor - window, true).delta >= 0.0
  {
    IncreaseIsNonNegative(data);
  }

  lemma ScaledRate(delta: real, factor: real, window: real, si: real)
    requires delta >= 0.0 && si > 0.0 && window > 0.0 && 1.0 <= factor <= window / si
    ensures 0.0 <= delta * factor / window <= delta / si
  {
    var r, q, w := delta * factor / window, delta / si, window / si;
    assert r * window == delta * factor && q * si == delta && w * si == window;
    assert delta * factor <= delta * w;
    assert delta * w == q * (si * w) && si * w == window;
    assert (q - r) * window >= 0.0;
    assert r * window >= 0.0;
  }

  // ---- the rate in full ----

  /** The increase, step by step: the counter went up by the difference, or, after a restart, by what
      it counted since zero. */
  function Steps(data: seq<RealSample>): real {
    if |data| < 2 then 0.0
    else
      var n := |data| - 1;
      var prev, curr := data[n - 1], data[n];
      var restarted := curr.v < prev.v || (curr.st.Some? && curr.st.value >= prev.t);
      Steps(data[..n]) + if restarted then curr.v else curr.v - prev.v
  }

  lemma {:induction false} IncreaseIsTheSteps(data: seq<RealSample>)
    requires data != [] && StrictByT(data)
    ensures SummaryOf(data).delta == Steps(data)
  {
    if |data| > 1 {
      var n := |data| - 1;
      IncreaseIsTheSteps(data[..n]);
      StResetMeans(data[n - 1], data[n], false);
    }
  }

  /** What a gap at an edge counts for: whole up to 1.1 average intervals, else half an interval. */
  function Edge(gap: real, average: real): real {
    if gap <= 1.1 * average then gap else average / 2.0
  }

  /** The left gap, cut where the line through the points crosses zero. */
  function CutAtZero(left: real, first: real, increase: real, span: real): real {
    if increase > 0.0 && first >= 0.0 && span * (first / increase) < left then span * (first / increase) else left
  }

  predicate StartsInside(data: seq<RealSample>, anchor: int, window: int)
    requires data != []
  {
    data[0].st.Some? && anchor - window < data[0].st.value < data[0].t
  }

  /** An increase over a span, stretched to the span with its edges, per tick of the window. */
  function Stretched(increase: real, span: real, left: real, right: real, window: int): real
    requires span != 0.0 && window != 0
  {
    increase * ((span + left + right) / span) / window as real
  }

  // The exact operations, by what they compute.

  lemma ExactTicks(n: int)
    ensures Exact().fromTicks(n) == n as real && Exact().zero == 0.0
  {
  }

  lemma ExactAverage(span: real, n: int)
    requires n != 0
    ensures Exact().div(span, n as real) == span / n as real
  {
  }

  lemma ExactEdge(gap: real, average: real)
    ensures Edge(gap, average)
         == if Exact().less(Exact().mul(average, Exact().onePointOne), gap) then Exact().div(average, Exact().two)
            else gap
  {
  }

  lemma ExactCut(left: real, first: real, delta: real, span: real)
    ensures
      var toZero := Exact().mul(span, Exact().div(first, delta));
      CutAtZero(left, first, delta, span)
      == if Exact().less(0.0, delta) && Exact().atLeast(first, 0.0) && Exact().less(toZero, left) then toZero
         else left
  {
  }

  lemma ExactValue(delta: real, span: real, left: real, right: real, window: int)
    requires span > 0.0 && window > 0
    ensures Exact().div(Exact().mul(delta, Exact().div(Exact().add(Exact().add(span, left), right), span)),
                        window as real)
         == Stretched(delta, span, left, right, window)
  {
  }

  lemma ExactIncrease(data: seq<RealSample>)
    requires data != [] && StrictByT(data)
    ensures Steps(data)
         == Exact().add(ResetSum(Exact(), data, CounterRule(Exact())), Exact().sub(data[|data| - 1].v, data[0].v))
  {
    IncreaseIsTheSteps(data);
  }

  lemma ExactOrigin(increase: real, first: real)
    ensures Exact().add(increase, first) == increase + first
  {
  }

  /** Without a start timestamp inside the left gap: the increase, stretched from the span of the
      readings to the span with both edges, over the window. */
  lemma RateInFull(data: seq<RealSample>, anchor: int, window: int)
    requires InWindow(data, anchor, window) && window > 0 && |data| >= 2 && !StartsInside(data, anchor, window)
    ensures
      var span := (data[|data| - 1].t - data[0].t) as real;
      && span > 0.0
      && var average := span / (|data| - 1) as real;
      var left := CutAtZero(Edge((data[0].t - (anchor - window)) as real, average), data[0].v, Steps(data), span);
      var right := Edge((anchor - data[|data| - 1].t) as real, average);
      RatePoint(Exact(), data, anchor, window)
      == Some(Stretched(Steps(data), span, left, right, window))
  {
    hide ResetSum, ResetCount, Steps, RatePoint, Exact, Edge, CutAtZero, Stretched, InWindow;
    var first, last := data[0], data[|data| - 1];
    var span, n := (last.t - first.t) as real, |data|;
    var average := span / (n - 1) as real;
    var before, after := (first.t - (anchor - window)) as real, (anchor - last.t) as real;
    WindowIsStrict(data, anchor, window);
    ExactIncrease(data);
    ExactTicks(last.t - first.t);
    ExactTicks(n - 1);
    ExactTicks(first.t - (anchor - window));
    ExactTicks(anchor - last.t);
    ExactTicks(window);
    ExactAverage(span, n - 1);
    ExactEdge(before, average);
    ExactEdge(after, average);
    ExactCut(Edge(before, average), first.v, Steps(data), span);
    PlainPoint(data, anchor, window, Steps(data), span, average, Edge(before, average), Edge(after, average),
               CutAtZero(Edge(before, average), first.v, Steps(data), span));
    ExactValue(Steps(data), span, CutAtZero(Edge(before, average), first.v, Steps(data), span), Edge(after, average),
               window);
  }

  lemma WindowIsStrict(data: seq<RealSample>, anchor: int, window: int)
    requires InWindow(data, anchor, window) && data != []
    ensures StrictByT(data)
    ensures |data| >= 2 ==> data[0].t < data[|data| - 1].t
    ensures data[0].t <= data[|data| - 1].t
  {
  }

  /** Assembles a point from its parts. */
  lemma PlainPoint(data: seq<RealSample>, anchor: int, window: int, delta: real, span: real, average: real, left: real,
                   right: real, cut: real)
    requires |data| >= 2 && !StartsInside(data, anchor, window)
    requires delta == Exact().add(ResetSum(Exact(), data, CounterRule(Exact())),
                                  Exact().sub(data[|data| - 1].v, data[0].v))
    requires span == Exact().fromTicks(data[|data| - 1].t - data[0].t)
    requires average == Exact().div(span, Exact().fromTicks(|data| - 1))
    requires var limit := Exact().mul(average, Exact().onePointOne);
      var before := Exact().fromTicks(data[0].t - (anchor - window));
      var after := Exact().fromTicks(anchor - data[|data| - 1].t);
      && left == (if Exact().less(limit, before) then Exact().div(average, Exact().two) else before)
      && right == (if Exact().less(limit, after) then Exact().div(average, Exact().two) else after)
    requires var toZero := Exact().mul(span, Exact().div(data[0].v, delta));
      cut == if Exact().less(Exact().zero, delta) && Exact().atLeast(data[0].v, Exact().zero)
                && Exact().less(toZero, left)
             then toZero else left
    ensures RatePoint(Exact(), data, anchor, window)
         == Some(Exact().div(Exact().mul(delta, Exact().div(Exact().add(Exact().add(span, cut), right), span)),
                             Exact().fromTicks(window)))
  {
    hide ResetSum, ResetCount, RatePoint, Exact;
    RatePointInTerms(Exact(), data, anchor, window);
  }

  /** With one: a point at zero more, the first value more, and no left gap. */
  lemma RateInFullFromOrigin(data: seq<RealSample>, anchor: int, window: int)
    requires InWindow(data, anchor, window) && window > 0 && data != [] && StartsInside(data, anchor, window)
    ensures
      var span := (data[|data| - 1].t - data[0].st.value) as real;
      && span > 0.0
      && var average := span / |data| as real;
      var right := Edge((anchor - data[|data| - 1].t) as real, average);
      RatePoint(Exact(), data, anchor, window)
      == Some(Stretched(Steps(data) + data[0].v, span, 0.0, right, window))
  {
    hide ResetSum, ResetCount, Steps, RatePoint, Exact, Edge, CutAtZero, Stretched, InWindow;
    var first, last := data[0], data[|data| - 1];
    var span, n := (last.t - first.st.value) as real, |data| + 1;
    var delta := Steps(data) + first.v;
    var average, after := span / (n - 1) as real, (anchor - last.t) as real;
    WindowIsStrict(data, anchor, window);
    ExactIncrease(data);
    ExactOrigin(Steps(data), first.v);
    ExactTicks(last.t - first.st.value);
    ExactTicks(n - 1);
    ExactTicks(anchor - last.t);
    ExactTicks(window);
    ExactAverage(span, n - 1);
    ExactEdge(after, average);
    ExactCut(0.0, 0.0, delta, span);
    NothingToCut(delta, span);
    OriginPoint(data, anchor, window, delta, span, average, Edge(after, average), 0.0);
    ExactValue(delta, span, 0.0, Edge(after, average), window);
  }

  lemma OriginPoint(data: seq<RealSample>, anchor: int, window: int, delta: real, span: real, average: real,
                    right: real, cut: real)
    requires data != [] && StartsInside(data, anchor, window)
    requires var increase := Exact().add(ResetSum(Exact(), data, CounterRule(Exact())),
                                         Exact().sub(data[|data| - 1].v, data[0].v));
      delta == Exact().add(increase, data[0].v)
    requires span == Exact().fromTicks(data[|data| - 1].t - data[0].st.value)
    requires average == Exact().div(span, Exact().fromTicks(|data|))
    requires var after := Exact().fromTicks(anchor - data[|data| - 1].t);
      right == if Exact().less(Exact().mul(average, Exact().onePointOne), after) then Exact().div(average, Exact().two)
               else after
    requires var zero := Exact().zero;
      var toZero := Exact().mul(span, Exact().div(zero, delta));
      cut == if Exact().less(zero, delta) && Exact().atLeast(zero, zero) && Exact().less(toZero, zero) then toZero
             else zero
    ensures RatePoint(Exact(), data, anchor, window)
         == Some(Exact().div(Exact().mul(delta, Exact().div(Exact().add(Exact().add(span, cut), right), span)),
                             Exact().fromTicks(window)))
  {
    hide ResetSum, ResetCount, RatePoint, Exact;
    RatePointInTerms(Exact(), data, anchor, window);
  }

  lemma NothingToCut(increase: real, span: real)
    ensures CutAtZero(0.0, 0.0, increase, span) == 0.0
  {
  }

  /** No reading, or one without a start timestamp inside the left gap, has no rate. */
  lemma NoRate(data: seq<RealSample>, anchor: int, window: int)
    requires |data| < 2 && (data != [] ==> !StartsInside(data, anchor, window))
    ensures RatePoint(Exact(), data, anchor, window) == None
  {
    if data != [] {
      RatePointInTerms(Exact(), data, anchor, window);
    }
  }

  // ---- composition of folds ----

  lemma {:induction false} ResetSumComposes(left: seq<RealSample>, x: RealSample, right: seq<RealSample>,
                                            isReset: ResetRule<real>)
    ensures ResetSum(Exact(), left + [x] + right, isReset)
         == ResetSum(Exact(), left + [x], isReset) + ResetSum(Exact(), [x] + right, isReset)
    decreases |right|
  {
    var all := left + [x] + right;
    if right == [] {
      assert all == left + [x] && [x] + right == [x];
    } else {
      var n := |right| - 1;
      var tail := [x] + right;
      assert all[..|all| - 1] == left + [x] + right[..n];
      assert tail[..|tail| - 1] == [x] + right[..n];
      assert all[|all| - 1] == tail[|tail| - 1] && all[|all| - 2] == tail[|tail| - 2];
      ResetSumComposes(left, x, right[..n], isReset);
    }
  }

  /** Over two runs that share one reading the increase is additive, for every reset rule. */
  lemma DeltaIsAdditive(left: seq<RealSample>, x: RealSample, right: seq<RealSample>, isReset: ResetRule<real>)
    ensures FoldOf(Exact(), left + [x] + right, None, isReset).delta
         == FoldOf(Exact(), left + [x], None, isReset).delta + FoldOf(Exact(), [x] + right, None, isReset).delta
  {
    ResetSumComposes(left, x, right, isReset);
    var all, l, r := left + [x] + right, left + [x], [x] + right;
    assert all[0] == l[0] && l[|l| - 1] == x == r[0] && all[|all| - 1] == r[|r| - 1];
  }

  lemma {:induction false} ResetCountComposes<V>(left: seq<Counter<V>>, right: seq<Counter<V>>, isReset: ResetRule<V>)
    requires left != [] && right != []
    ensures ResetCount(left + right, isReset)
         == ResetCount(left, isReset) + ResetCount(right, isReset)
            + if isReset(left[|left| - 1], right[0]) then 1 else 0
    decreases |right|
  {
    var all, n := left + right, |right| - 1;
    assert all[..|all| - 1] == left + right[..n];
    assert all[|all| - 1] == right[n] && all[|all| - 2] == if n == 0 then left[|left| - 1] else right[n - 1];
    if n == 0 {
      assert left + right[..n] == left;
    } else {
      ResetCountComposes(left, right[..n], isReset);
    }
  }

  /** Resets are additive when the right run is told the left run's last reading, whatever the
      arithmetic and the rule. */
  lemma ResetsAreAdditive<V>(ar: Arith<V>, left: seq<Counter<V>>, right: seq<Counter<V>>, before: Option<Counter<V>>,
                             isReset: ResetRule<V>)
    requires left != [] && right != []
    ensures FoldOf(ar, left + right, before, isReset).resets
         == FoldOf(ar, left, before, isReset).resets
            + FoldOf(ar, right, Some(left[|left| - 1]), isReset).resets
  {
    ResetCountComposes(left, right, isReset);
    assert (left + right)[0] == left[0];
  }
}
