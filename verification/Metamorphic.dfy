/** Series transformations that must not change a full-span rate: re-basing after a reset, and a
    value dip against a reset told only by a start timestamp. */
module Metamorphic {
  import opened Readings
  import opened Windows
  import opened Folds
  import opened RealRates

  // ---- the transformations ----

  /** Every value from `k` on, less the value before it. */
  function Rebased(base: seq<RealSample>, k: nat): (r: seq<RealSample>)
    requires 1 <= k < |base|
    ensures |r| == |base|
    ensures forall i :: 0 <= i < |r| ==> r[i] == if i < k then base[i] else base[i].(v := base[i].v - base[k - 1].v)
  {
    seq(|base|, i requires 0 <= i < |base| => if i < k then base[i] else base[i].(v := base[i].v - base[k - 1].v))
  }

  method MakeReset(base: seq<RealSample>, k: nat) returns (out: seq<RealSample>)
    requires 1 <= k < |base|
    ensures out == Rebased(base, k)
  {
    out := base;
    var offset := base[k - 1].v;
    for i := k to |out|
      invariant |out| == |base|
      invariant forall j :: 0 <= j < i ==> out[j] == Rebased(base, k)[j]
      invariant forall j :: i <= j < |out| ==> out[j] == base[j]
    {
      out := out[i := out[i].(v := out[i].v - offset)];
    }
  }

  /** The straight line from a dip at `k` back to the last value. */
  function RecoveryValue(base: seq<RealSample>, k: nat, i: nat): real
    requires 1 <= k <= |base| - 2 && k <= i < |base|
  {
    var dip, last := base[k - 1].v * 0.3, base[|base| - 1].v;
    if i == |base| - 1 then last
    else dip + (last - dip) * ((i - k) as real / (|base| - 1 - k) as real)
  }

  function Dipped(base: seq<RealSample>, k: nat): (r: seq<RealSample>)
    requires 1 <= k <= |base| - 2
    ensures |r| == |base|
    ensures forall i :: 0 <= i < |r| ==> r[i] == if i < k then base[i] else base[i].(v := RecoveryValue(base, k, i))
  {
    seq(|base|, i requires 0 <= i < |base| => if i < k then base[i] else base[i].(v := RecoveryValue(base, k, i)))
  }

  method MakeDipAndRecover(base: seq<RealSample>, k: nat) returns (out: seq<RealSample>)
    requires 1 <= k <= |base| - 2
    ensures out == Dipped(base, k)
  {
    out := base;
    var dip := base[k - 1].v * 0.3;
    var last := base[|base| - 1].v;
    var n := |base|;
    for i := k to n - 1
      invariant |out| == n
      invariant forall j :: 0 <= j < i ==> out[j] == Dipped(base, k)[j]
      invariant forall j :: i <= j < n ==> out[j] == base[j]
    {
      var frac := (i - k) as real / (n - 1 - k) as real;
      assert RecoveryValue(base, k, i) == dip + (last - dip) * frac;
      out := out[i := out[i].(v := dip + (last - dip) * frac)];
    }
    out := out[n - 1 := out[n - 1].(v := last)];
  }

  /** The dip is to three tenths of the value before it, and the recovery to the same last value is a
      straight line. */
  lemma DipShape(base: seq<RealSample>, k: nat, i: nat)
    requires 1 <= k <= |base| - 2 && k <= i < |base|
    ensures var out := Dipped(base, k);
      && out[k].v * 10.0 == 3.0 * base[k - 1].v && out[|base| - 1].v == base[|base| - 1].v
      && (out[i].v - out[k].v) * (|base| - 1 - k) as real == (out[|base| - 1].v - out[k].v) * (i - k) as real
  {
    var n := (|base| - 1 - k) as real;
    var f := (i - k) as real / n;
    assert f * n == (i - k) as real;
    assert (k - k) as real / n == 0.0;
    var dip, last := base[k - 1].v * 0.3, base[|base| - 1].v;
    assert Dipped(base, k)[k].v == dip;
    if i < |base| - 1 {
      assert Dipped(base, k)[i].v == dip + (last - dip) * f;
      assert ((last - dip) * f) * n == (last - dip) * (f * n);
    }
  }

  /** The untouched series with a start timestamp at `k` that is not before its reading. */
  function StVariant(base: seq<RealSample>, k: nat): seq<RealSample>
    requires k < |base|
  {
    base[k := base[k].(st := Some(base[k].t))]
  }

  // ---- resets of the pieces ----

  ghost predicate NonDecreasing(data: seq<RealSample>) {
    forall i :: 0 < i < |data| ==> data[i - 1].v <= data[i].v
  }

  ghost predicate NoStarts(data: seq<RealSample>, from: nat) {
    forall i :: from <= i < |data| ==> data[i].st.None?
  }

  /** What the relations ask of a series: values that never fall, and no start timestamp. */
  lemma PlainCounterIff(data: seq<RealSample>)
    ensures NonDecreasing(data) && NoStarts(data, 0) <==>
            forall i :: 0 <= i < |data| ==> data[i].st == None && (i > 0 ==> data[i - 1].v <= data[i].v)
  {
  }

  function Rule(): ResetRule<real> {
    CounterRule(Exact())
  }

  lemma {:induction false} MonotoneRunHasNoReset(data: seq<RealSample>)
    requires NonDecreasing(data) && NoStarts(data, 1)
    ensures ResetSum(Exact(), data, Rule()) == 0.0 && ResetCount(data, Rule()) == 0
  {
    if |data| > 1 {
      MonotoneRunHasNoReset(data[..|data| - 1]);
    }
  }

  lemma {:induction false} ResetSumSplits(left: seq<RealSample>, right: seq<RealSample>, isReset: ResetRule<real>)
    requires left != [] && right != []
    ensures ResetSum(Exact(), left + right, isReset)
         == ResetSum(Exact(), left, isReset) + ResetSum(Exact(), right, isReset)
            + if isReset(left[|left| - 1], right[0]) then left[|left| - 1].v else 0.0
    decreases |right|
  {
    var all, n := left + right, |right| - 1;
    assert all[..|all| - 1] == left + right[..n];
    assert all[|all| - 1] == right[n] && all[|all| - 2] == if n == 0 then left[|left| - 1] else right[n - 1];
    if n == 0 {
      assert left + right[..n] == left;
    } else {
      ResetSumSplits(left, right[..n], isReset);
    }
  }

  /** Two monotone runs have at most the reset at their seam. */
  lemma SeamDecides(data: seq<RealSample>, k: nat)
    requires 1 <= k < |data|
    requires NonDecreasing(data[..k]) && NonDecreasing(data[k..]) && NoStarts(data[..k], 1) && NoStarts(data[k..], 1)
    ensures var seam := Rule()(data[k - 1], data[k]);
      && SummaryOf(data).resets == (if seam then 1 else 0)
      && SummaryOf(data).delta == (if seam then data[k - 1].v else 0.0) + (data[|data| - 1].v - data[0].v)
  {
    var left, right := data[..k], data[k..];
    assert data == left + right;
    MonotoneRunHasNoReset(left);
    MonotoneRunHasNoReset(right);
    ResetSumSplits(left, right, Rule());
    ResetCountComposes(left, right, Rule());
  }

  lemma MonotoneSummary(data: seq<RealSample>)
    requires data != [] && NonDecreasing(data) && NoStarts(data, 1)
    ensures SummaryOf(data).resets == 0 && SummaryOf(data).delta == data[|data| - 1].v - data[0].v
  {
    MonotoneRunHasNoReset(data);
  }

  // ---- full-span rates ----

  /** The rate of the one grid point whose window spans the whole series. */
  function FullSpanRate(series: seq<RealSample>): Option<real>
    requires series != []
  {
    var anchor := series[|series| - 1].t;
    var window := anchor - series[0].t + 1;
    RatePoint(Exact(), Select(series, anchor, window), anchor, window)
  }

  lemma FullSpanSelectsAll(series: seq<RealSample>)
    requires series != [] && StrictByT(series)
    ensures var anchor := series[|series| - 1].t;
      Select(series, anchor, anchor - series[0].t + 1) == series
  {
    var anchor := series[|series| - 1].t;
    SelectIsSlice(series, anchor, anchor - series[0].t + 1, 0, |series|);
  }

  /** The rate reads only the ends, the count and the increase. */
  lemma RateReadsTheEnds(a: seq<RealSample>, b: seq<RealSample>)
    requires |a| == |b| > 0 && StrictByT(a) && StrictByT(b)
    requires a[0] == b[0] && a[|a| - 1].t == b[|b| - 1].t
    requires SummaryOf(a).delta == SummaryOf(b).delta
    ensures FullSpanRate(a) == FullSpanRate(b)
  {
    hide ResetSum, ResetCount, Select;
    FullSpanSelectsAll(a);
    FullSpanSelectsAll(b);
  }

  // ---- the full-span rate tells increases apart ----

  /** The gap to the left edge, cut where the line through the points would cross zero. */
  function Clamped(first: real, delta: real, si: real, gap: real): real {
    if delta > 0.0 && first >= 0.0 && si * (first / delta) < gap then si * (first / delta) else gap
  }

  lemma ProductOrder(x: real, y: real, factor: real)
    requires factor > 0.0
    ensures x < y <==> x * factor < y * factor
  {
    assert (y - x) * factor == y * factor - x * factor;
    if x < y {
      assert (y - x) * factor > 0.0;
    } else {
      assert (x - y) * factor >= 0.0;
    }
  }

  function Gain(first: real, delta: real, si: real, gap: real): real {
    delta * Clamped(first, delta, si, gap)
  }

  /** The clamp caps what the gap adds at what the first value amounts to. */
  lemma ClampedGain(first: real, delta: real, si: real, gap: real)
    requires si > 0.0 && gap >= 0.0
    ensures Gain(first, delta, si, gap)
         == if delta > 0.0 && first >= 0.0 && si * first < gap * delta then si * first else gap * delta
  {
    if delta > 0.0 && first >= 0.0 {
      var q := first / delta;
      assert q * delta == first;
      ProductOrder(si * q, gap, delta);
      assert (si * q) * delta == si * (q * delta);
    }
  }

  lemma GainNeverFalls(first: real, d: real, e: real, si: real, gap: real)
    requires si > 0.0 && gap >= 0.0 && d < e
    ensures Gain(first, d, si, gap) <= Gain(first, e, si, gap)
  {
    hide Gain;
    ClampedGain(first, d, si, gap);
    ClampedGain(first, e, si, gap);
    assert gap * (e - d) >= 0.0;
    assert gap * e - gap * d == gap * (e - d);
    assert first >= 0.0 ==> si * first >= 0.0;
    assert d <= 0.0 ==> gap * d <= 0.0;
    assert e > 0.0 ==> gap * e >= 0.0;
  }

  /** The extrapolated value of an increase. */
  function SpanValue(first: real, delta: real, si: real, gap: real): real
    requires si > 0.0
  {
    delta * ((si + Clamped(first, delta, si, gap)) / si)
  }

  lemma SpanValueInParts(first: real, delta: real, si: real, gap: real)
    requires si > 0.0
    ensures SpanValue(first, delta, si, gap) * si == delta * si + Gain(first, delta, si, gap)
  {
    hide Clamped;
    ScaledBack(delta, si, Clamped(first, delta, si, gap));
  }

  lemma ScaledBack(delta: real, si: real, toStart: real)
    requires si > 0.0
    ensures (delta * ((si + toStart) / si)) * si == delta * si + delta * toStart
  {
    var f := (si + toStart) / si;
    assert f * si == si + toStart;
    assert (delta * f) * si == delta * (f * si);
  }

  /** A larger increase makes a larger value. */
  lemma ValueGrows(first: real, d: real, e: real, si: real, gap: real)
    requires si > 0.0 && gap >= 0.0 && d < e
    ensures SpanValue(first, d, si, gap) < SpanValue(first, e, si, gap)
  {
    hide SpanValue, Gain;
    GainNeverFalls(first, d, e, si, gap);
    SpanValueInParts(first, d, si, gap);
    SpanValueInParts(first, e, si, gap);
    ProductOrder(d, e, si);
    ProductOrder(SpanValue(first, d, si, gap), SpanValue(first, e, si, gap), si);
  }

  /** One tick to the left edge, or half an average interval where that is less than a tick. */
  function FullSpanGap(si: real, n: nat): real
    requires n >= 2
  {
    var avg := si / (n - 1) as real;
    if avg * 1.1 < 1.0 then avg / 2.0 else 1.0
  }

  function Span(data: seq<RealSample>): real
    requires data != []
  {
    (data[|data| - 1].t - data[0].t) as real
  }

  lemma GapIsNotNegative(si: real, n: nat)
    requires si > 0.0 && n >= 2
    ensures FullSpanGap(si, n) >= 0.0
  {
    QuotientIsPositive(si, (n - 1) as real);
  }

  /** The rate of a full span that starts without a start timestamp. */
  lemma FullSpanInParts(data: seq<RealSample>)
    requires |data| >= 2 && StrictByT(data) && data[0].st.None?
    ensures Span(data) > 0.0
    ensures FullSpanRate(data)
         == Some(SpanValue(data[0].v, SummaryOf(data).delta, Span(data), FullSpanGap(Span(data), |data|))
                 / (Span(data) + 1.0))
  {
    hide ResetSum, ResetCount, Select, Extrapolate, DurationToStart, DurationToEnd, Clamped;
    FullSpanSelectsAll(data);
    var anchor, window := data[|data| - 1].t, data[|data| - 1].t - data[0].t + 1;
    ExtrapolationInParts(data, anchor, window, true);
    var e := EffectiveIn(data, anchor - window, true);
    assert e == Effective(false, |data|, data[0].t, data[0].v, SummaryOf(data).delta);
    DurationsOfAFullSpan(e, data[0].t, anchor, Span(data), |data|);
    var ex := Extrapolate(Exact(), SummaryOf(data), anchor - window, anchor, true);
    var toStart := Clamped(data[0].v, SummaryOf(data).delta, Span(data), FullSpanGap(Span(data), |data|));
    assert ex.factor == (Span(data) + toStart + 0.0) / Span(data);
    assert Span(data) + toStart + 0.0 == Span(data) + toStart;
    assert ex.value == SpanValue(data[0].v, SummaryOf(data).delta, Span(data), FullSpanGap(Span(data), |data|));
    assert FullSpanRate(data) == Some(Exact().div(ex.value, Exact().fromTicks(window)));
    assert window as real == Span(data) + 1.0;
  }

  lemma DurationsOfAFullSpan(e: Effective<real>, firstT: int, lastT: int, si: real, n: nat)
    requires !e.stInside && e.firstT == firstT && n >= 2 && si > 0.0
    ensures var avg := si / (n - 1) as real;
      && DurationToStart(Exact(), e, firstT - 1, si, avg, avg * 1.1, true)
         == Clamped(e.first, e.delta, si, FullSpanGap(si, n))
      && DurationToEnd(Exact(), lastT, lastT, avg, avg * 1.1) == 0.0
  {
    QuotientIsPositive(si, (n - 1) as real);
  }

  /** Between series of the same ends and length, the rate is the same exactly for the same
      increase. */
  lemma RateTellsIncreases(a: seq<RealSample>, b: seq<RealSample>)
    requires |a| == |b| >= 2 && StrictByT(a) && StrictByT(b)
    requires a[0] == b[0] && a[0].st.None? && a[|a| - 1].t == b[|b| - 1].t
    ensures FullSpanRate(a) == FullSpanRate(b) <==> SummaryOf(a).delta == SummaryOf(b).delta
  {
    hide FullSpanRate, ResetSum, ResetCount, SpanValue, FullSpanGap, StrictByT;
    FullSpanInParts(a);
    FullSpanInParts(b);
    var si, d, e := Span(a), SummaryOf(a).delta, SummaryOf(b).delta;
    var gap := FullSpanGap(si, |a|);
    GapIsNotNegative(si, |a|);
    if d < e {
      ValueGrows(a[0].v, d, e, si, gap);
      QuotientsDiffer(SpanValue(a[0].v, d, si, gap), SpanValue(a[0].v, e, si, gap), si + 1.0);
    } else if e < d {
      ValueGrows(a[0].v, e, d, si, gap);
      QuotientsDiffer(SpanValue(a[0].v, e, si, gap), SpanValue(a[0].v, d, si, gap), si + 1.0);
    }
  }

  lemma QuotientsDiffer(x: real, y: real, window: real)
    requires x < y && window > 0.0
    ensures x / window != y / window
  {
    assert (x / window) * window == x && (y / window) * window == y;
  }

  // ---- re-basing after a reset ----

  lemma RebasedIsTwoRuns(base: seq<RealSample>, k: nat)
    requires 1 <= k < |base| && NonDecreasing(base) && NoStarts(base, 0)
    ensures var r := Rebased(base, k);
      NonDecreasing(r[..k]) && NonDecreasing(r[k..]) && NoStarts(r[..k], 1) && NoStarts(r[k..], 1)
  {
    var tail := Rebased(base, k)[k..];
    forall i | 0 < i < |tail| ensures tail[i - 1].v <= tail[i].v {
      assert tail[i].v == base[k + i].v - base[k - 1].v;
    }
  }

  lemma SeamOfRebased(base: seq<RealSample>, k: nat)
    requires 1 <= k < |base| && NoStarts(base, 0)
    ensures Rule()(Rebased(base, k)[k - 1], Rebased(base, k)[k]) <==>
            base[k].v - base[k - 1].v < base[k - 1].v
  {
  }

  /** Re-basing keeps the increase and the full-span rate of a non-decreasing counter exactly when
      it produces a genuine drop or subtracts nothing, and it adds a reset exactly when it
      produces a drop. */
  lemma RebasingKeepsTheRate(base: seq<RealSample>, k: nat)
    requires 1 <= k < |base| && StrictByT(base) && NonDecreasing(base) && NoStarts(base, 0)
    ensures var drop := base[k].v - base[k - 1].v < base[k - 1].v;
      && (SummaryOf(Rebased(base, k)).delta == SummaryOf(base).delta <==> drop || base[k - 1].v == 0.0)
      && (FullSpanRate(Rebased(base, k)) == FullSpanRate(base) <==> drop || base[k - 1].v == 0.0)
      && SummaryOf(base).resets == 0
      && SummaryOf(Rebased(base, k)).resets == if drop then 1 else 0
  {
    hide FullSpanRate, SummaryOf, NonDecreasing;
    var r := Rebased(base, k);
    RebasedIsTwoRuns(base, k);
    SeamDecides(r, k);
    MonotoneSummary(base);
    SeamOfRebased(base, k);
    RateTellsIncreases(r, base);
  }

  // ---- a dip against a start timestamp ----

  lemma RecoveryRises(base: seq<RealSample>, k: nat, i: nat)
    requires 1 <= k <= |base| - 2 && k < i < |base|
    requires base[k - 1].v * 0.3 <= base[|base| - 1].v
    ensures RecoveryValue(base, k, i - 1) <= RecoveryValue(base, k, i)
  {
    var span := (|base| - 1 - k) as real;
    var rise := base[|base| - 1].v - base[k - 1].v * 0.3;
    var f := (i - 1 - k) as real / span;
    var g := if i == |base| - 1 then 1.0 else (i - k) as real / span;
    assert f * span == (i - 1 - k) as real && g * span == (i - k) as real;
    assert (g - f) * span == 1.0;
    assert rise * (g - f) >= 0.0;
    assert rise * g - rise * f == rise * (g - f);
  }

  lemma DippedIsTwoRuns(base: seq<RealSample>, k: nat)
    requires 1 <= k <= |base| - 2 && NonDecreasing(base) && NoStarts(base, 0)
    requires base[k - 1].v * 0.3 <= base[|base| - 1].v
    ensures var r := Dipped(base, k);
      NonDecreasing(r[..k]) && NonDecreasing(r[k..]) && NoStarts(r[..k], 1) && NoStarts(r[k..], 1)
  {
    var tail := Dipped(base, k)[k..];
    forall i | 0 < i < |tail| ensures tail[i - 1].v <= tail[i].v {
      RecoveryRises(base, k, k + i);
      assert tail[i].v == RecoveryValue(base, k, k + i);
      assert tail[i - 1].v == RecoveryValue(base, k, k + i - 1);
    }
  }

  lemma {:induction false} NonDecreasingChain(base: seq<RealSample>, i: nat, j: nat)
    requires NonDecreasing(base) && i <= j < |base|
    ensures base[i].v <= base[j].v
    decreases j - i
  {
    if i < j {
      NonDecreasingChain(base, i, j - 1);
    }
  }

  lemma SeamOfDipped(base: seq<RealSample>, k: nat)
    requires 1 <= k <= |base| - 2 && NoStarts(base, 0)
    ensures Rule()(Dipped(base, k)[k - 1], Dipped(base, k)[k]) <==> base[k - 1].v > 0.0
    ensures Dipped(base, k)[|base| - 1] == base[|base| - 1]
  {
    assert (k - k) as real / (|base| - 1 - k) as real == 0.0;
    assert RecoveryValue(base, k, k) == base[k - 1].v * 0.3;
  }

  /** A value dip that recovers to the same last value and a reset told only by a start timestamp
      give the same full-span rate for every pre-reset value that is not negative; both count one
      reset exactly when that value is positive. */
  lemma DipMatchesStartTimestamp(base: seq<RealSample>, k: nat)
    requires 1 <= k <= |base| - 2 && StrictByT(base) && NonDecreasing(base) && NoStarts(base, 0)
    requires base[k - 1].v >= 0.0
    ensures FullSpanRate(Dipped(base, k)) == FullSpanRate(StVariant(base, k))
    ensures SummaryOf(StVariant(base, k)).resets == 1
    ensures SummaryOf(Dipped(base, k)).resets == 1 <==> base[k - 1].v > 0.0
  {
    hide FullSpanRate, SummaryOf, NonDecreasing, RecoveryValue;
    NonDecreasingChain(base, k - 1, |base| - 1);
    var a, b := Dipped(base, k), StVariant(base, k);
    DippedIsTwoRuns(base, k);
    SeamDecides(a, k);
    SeamOfDipped(base, k);
    StVariantIsTwoRuns(base, k);
    SeamDecides(b, k);
    RateReadsTheEnds(a, b);
  }

  lemma StVariantIsTwoRuns(base: seq<RealSample>, k: nat)
    requires 1 <= k < |base| && NonDecreasing(base) && NoStarts(base, 0)
    ensures var r := StVariant(base, k);
      && NonDecreasing(r[..k]) && NonDecreasing(r[k..]) && NoStarts(r[..k], 1) && NoStarts(r[k..], 1)
      && Rule()(r[k - 1], r[k])
  {
  }
}
