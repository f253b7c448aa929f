/** The from-scratch evaluator the kernel is checked against, and the proof that the production
    pipeline returns the same points, bit for bit, whatever the arithmetic. */
module Oracle {
  import opened Readings
  import opened Doubles
  import opened Grids
  import opened Dedup
  import opened Windows
  import opened SampleBuffers
  import opened Folds
  import opened Series
  import opened SeenStamps
  import opened Aggregates

  // ---- deduplication with the oracle's own tie-break ----

  function OracleAbsorb(d: seq<CounterSample>, s: CounterSample): seq<CounterSample> {
    if d != [] && d[|d| - 1].t == s.t then
      if OracleTotalOrderLess(d[|d| - 1].v, s.v) then d[..|d| - 1] + [s] else d
    else d + [s]
  }

  function OracleCollapse(rows: seq<CounterSample>): seq<CounterSample> {
    if rows == [] then [] else OracleAbsorb(OracleCollapse(rows[..|rows| - 1]), rows[|rows| - 1])
  }

  method OracleSortDedup(samples: seq<CounterSample>) returns (out: seq<CounterSample>)
    ensures out == OracleCollapse(StableSort(samples))
  {
    hide OracleTotalOrderLess, StableSort;
    var sorted := StableSort(samples);
    out := [];
    for i := 0 to |sorted|
      invariant out == OracleCollapse(sorted[..i])
    {
      assert sorted[..i + 1][..i] == sorted[..i];
      var s := sorted[i];
      if |out| > 0 && out[|out| - 1].t == s.t {
        if OracleTotalOrderLess(out[|out| - 1].v, s.v) {
          out := out[|out| - 1 := s];
        }
      } else {
        out := out + [s];
      }
    }
    assert sorted[..|sorted|] == sorted;
  }

  /** Where two different NaNs meet at one timestamp, a number is there too. NaN-free rows satisfy
      this. */
  ghost predicate NaNsAreSettled(rows: seq<CounterSample>) {
    forall a, b ::
      a in rows && b in rows && a.t == b.t && IsNaN(a.v) && IsNaN(b.v) && a.v != b.v ==> NumberAt(rows, a.t)
  }

  ghost predicate NumberAt(rows: seq<CounterSample>, t: int) {
    exists c :: c in rows && c.t == t && !IsNaN(c.v)
  }

  /** The two results differ only in NaNs, where the kernel holds the one it ranks higher. */
  ghost predicate Near(d: seq<CounterSample>, e: seq<CounterSample>) {
    && |d| == |e|
    && forall k :: 0 <= k < |d| ==>
         d[k] == e[k] || (d[k].t == e[k].t && IsNaN(d[k].v) && IsNaN(e[k].v) && DedupPolicy(e[k].v, d[k].v))
  }

  lemma AbsorbStaysNear(d: seq<CounterSample>, e: seq<CounterSample>, s: CounterSample)
    requires Near(d, e)
    ensures Near(OracleAbsorb(d, s), Absorb(e, s))
  {
    hide DedupPolicy, OracleTotalOrderLess, IsNaN;
    if d != [] && d[|d| - 1].t == s.t {
      LastStaysNear(d[|d| - 1], e[|e| - 1], s);
    }
  }

  lemma LastStaysNear(x: CounterSample, y: CounterSample, s: CounterSample)
    requires x == y || (IsNaN(x.v) && IsNaN(y.v) && DedupPolicy(y.v, x.v))
    ensures var p, q := if OracleTotalOrderLess(x.v, s.v) then s else x, if DedupPolicy(s.v, y.v) then s else y;
      p == q || (IsNaN(p.v) && IsNaN(q.v) && DedupPolicy(q.v, p.v))
  {
    hide DedupPolicy, OracleTotalOrderLess, IsNaN;
    OracleAgreesExceptBetweenNaNs(x.v, s.v);
    if x == y {
      NaNsAreNotOrdered(x.v, s.v);
    } else {
      NaNsAreNotOrdered(x.v, s.v);
      NumbersBeatNaNs(y.v, s.v);
      NumbersBeatNaNs(x.v, s.v);
      DedupPolicyIsStrictTotalOrder(s.v, y.v, x.v);
    }
  }

  lemma NaNsAreNotOrdered(a: Bits, b: Bits)
    ensures IsNaN(a) && IsNaN(b) ==> !OracleTotalOrderLess(a, b)
  {
  }

  lemma NumbersBeatNaNs(a: Bits, b: Bits)
    ensures IsNaN(a) && !IsNaN(b) ==> OracleTotalOrderLess(a, b) && DedupPolicy(b, a)
  {
    hide DedupPolicy;
    OracleAgreesExceptBetweenNaNs(a, b);
  }

  lemma {:induction false} CollapseStaysNear(rows: seq<CounterSample>)
    ensures Near(OracleCollapse(rows), Collapse(rows))
  {
    hide OracleAbsorb, Absorb, Near;
    if rows == [] {
      EmptyIsNear();
    } else {
      CollapseStaysNear(rows[..|rows| - 1]);
      AbsorbStaysNear(OracleCollapse(rows[..|rows| - 1]), Collapse(rows[..|rows| - 1]), rows[|rows| - 1]);
    }
  }

  lemma EmptyIsNear()
    ensures Near([], [])
  {
  }

  lemma {:induction false} OracleKeepsRows(rows: seq<CounterSample>)
    ensures forall x :: x in OracleCollapse(rows) ==> x in rows
  {
    hide OracleTotalOrderLess;
    if rows != [] {
      var init := rows[..|rows| - 1];
      OracleKeepsRows(init);
      assert rows == init + [rows[|rows| - 1]];
    }
  }

  lemma OracleCollapseAgrees(rows: seq<CounterSample>)
    requires SortedByT(rows) && NaNsAreSettled(rows)
    ensures OracleCollapse(rows) == Collapse(rows)
  {
    hide OracleCollapse, Collapse, DedupPolicy, IsNaN;
    var d, e := OracleCollapse(rows), Collapse(rows);
    CollapseStaysNear(rows);
    OracleKeepsRows(rows);
    CollapseIsCanonical(rows);
    forall k | 0 <= k < |d| ensures d[k] == e[k] {
      if d[k] != e[k] {
        assert d[k] in d && e[k] in e;
        DedupPolicyIsStrictTotalOrder(e[k].v, d[k].v, d[k].v);
        var c :| c in rows && c.t == d[k].t && !IsNaN(c.v);
        assert Kept(c, e);
        var j :| 0 <= j < |e| && e[j].t == c.t && !DedupPolicy(c.v, e[j].v);
        assert j == k;
        NumbersBeatNaNs(e[k].v, c.v);
        assert false;
      }
    }
  }

  // ---- and only then ----

  lemma {:induction false} NothingAtTime(d: seq<CounterSample>, t: int)
    requires StrictByT(d) && d != [] && d[|d| - 1].t < t
    ensures AtTime(d, t) == []
  {
    if |d| > 1 {
      NothingAtTime(d[..|d| - 1], t);
    }
  }

  lemma NaNStays(d: seq<CounterSample>, s: CounterSample, t: int)
    requires StrictByT(d) && (d != [] ==> d[|d| - 1].t <= s.t)
    requires s.t == t ==> IsNaN(s.v) && forall x :: x in d && x.t == t ==> IsNaN(x.v)
    ensures AtTime(OracleAbsorb(d, s), t) == if s.t != t || AtTime(d, t) != [] then AtTime(d, t) else [s]
  {
    hide OracleTotalOrderLess, IsNaN;
    assert (d + [s])[..|d|] == d;
    if d != [] {
      var init, last := d[..|d| - 1], d[|d| - 1];
      assert (init + [s])[..|init|] == init && last in d;
      NaNsAreNotOrdered(last.v, s.v);
      if last.t < s.t == t {
        NothingAtTime(d, t);
      }
    }
  }

  /** Of NaNs at one timestamp the oracle keeps the first. */
  lemma {:induction false} OracleKeepsFirstNaN(rows: seq<CounterSample>, t: int)
    requires SortedByT(rows) && forall r :: r in rows && r.t == t ==> IsNaN(r.v)
    ensures AtTime(OracleCollapse(rows), t) == if AtTime(rows, t) == [] then [] else [AtTime(rows, t)[0]]
  {
    hide OracleAbsorb, IsNaN;
    if rows != [] {
      var init, s := rows[..|rows| - 1], rows[|rows| - 1];
      OracleKeepsFirstNaN(init, t);
      OracleCollapseStrict(init);
      OracleKeepsRows(init);
      NaNStays(OracleCollapse(init), s, t);
    }
  }

  lemma {:induction false} AtTimeMembers<V, S>(d: seq<Reading<V, S>>, t: int, x: Reading<V, S>)
    ensures x in AtTime(d, t) <==> x in d && x.t == t
  {
    if d != [] {
      AtTimeMembers(d[..|d| - 1], t, x);
      assert d == d[..|d| - 1] + [d[|d| - 1]];
    }
  }

  lemma {:induction false} AtTimeStartsWith<V, S>(w: Reading<V, S>, rest: seq<Reading<V, S>>)
    ensures AtTime([w] + rest, w.t) != [] && AtTime([w] + rest, w.t)[0] == w
  {
    var d := [w] + rest;
    if rest == [] {
      assert d[..0] == [];
    } else {
      AtTimeStartsWith(w, rest[..|rest| - 1]);
      assert d[..|d| - 1] == [w] + rest[..|rest| - 1];
    }
  }

  /** When the worse of two NaNs arrives first and nothing but NaNs shares their timestamp, the oracle
      keeps it, */
  lemma OracleKeepsWorse(worse: CounterSample, rest: seq<CounterSample>)
    requires forall r :: r in [worse] + rest && r.t == worse.t ==> IsNaN(r.v)
    ensures worse in OracleCollapse(StableSort([worse] + rest))
  {
    hide OracleCollapse, StableSort, IsNaN, AtTime;
    var rows := [worse] + rest;
    var sorted := StableSort(rows);
    StableSortSorts(rows);
    PermutationMembers(rows, sorted);
    StableSortIsStable(rows, worse.t);
    AtTimeStartsWith(worse, rest);
    OracleKeepsFirstNaN(sorted, worse.t);
    AtTimeMembers(OracleCollapse(sorted), worse.t, worse);
  }

  /** and the kernel does not. */
  lemma KernelDropsWorse(rows: seq<CounterSample>, worse: CounterSample, better: CounterSample)
    requires better in rows && better.t == worse.t && DedupPolicy(better.v, worse.v)
    ensures worse !in SortDedup(rows)
  {
    hide SortDedup, DedupPolicy;
    SortDedupIsCanonical(rows);
    assert Kept(better, SortDedup(rows));
  }

  /** The oracle keeps the kernel's readings, in every arrival order, if and only if wherever two
      different NaNs meet at one timestamp a number is there too. */
  lemma OracleAgreesIffNaNsAreSettled(rows: seq<CounterSample>)
    ensures (forall p :: multiset(p) == multiset(rows) ==> OracleCollapse(StableSort(p)) == SortDedup(p)) <==>
            NaNsAreSettled(rows)
  {
    hide OracleCollapse, SortDedup, StableSort, DedupPolicy, IsNaN, NaNsAreSettled;
    if NaNsAreSettled(rows) {
      forall p | multiset(p) == multiset(rows) ensures OracleCollapse(StableSort(p)) == SortDedup(p) {
        StableSortSorts(p);
        PermutationMembers(rows, StableSort(p));
        SettledIsAboutMembers(rows, StableSort(p));
        OracleCollapseAgrees(StableSort(p));
        SortDedupSorts(p);
      }
    } else {
      var worse, better := UnsettledNaNs(rows);
      var i :| 0 <= i < |rows| && rows[i] == worse;
      var rest := rows[..i] + rows[i + 1..];
      assert rows == rows[..i] + [worse] + rows[i + 1..];
      assert multiset([worse] + rest) == multiset(rows);
      PermutationMembers(rows, [worse] + rest);
      DedupPolicyIsStrictTotalOrder(worse.v, worse.v, worse.v);
      assert better in [worse] + rest && better != worse;
      OracleKeepsWorse(worse, rest);
      KernelDropsWorse([worse] + rest, worse, better);
    }
  }

  lemma SortDedupSorts(rows: seq<CounterSample>)
    ensures SortDedup(rows) == Collapse(StableSort(rows))
  {
  }

  lemma SettledIsAboutMembers(rows: seq<CounterSample>, other: seq<CounterSample>)
    requires NaNsAreSettled(rows) && forall x :: x in rows <==> x in other
    ensures NaNsAreSettled(other)
  {
    forall a, b | a in other && b in other && a.t == b.t && IsNaN(a.v) && IsNaN(b.v) && a.v != b.v
      ensures NumberAt(other, a.t)
    {
      assert NumberAt(rows, a.t);
    }
  }

  lemma UnsettledNaNs(rows: seq<CounterSample>) returns (worse: CounterSample, better: CounterSample)
    requires !NaNsAreSettled(rows)
    ensures worse in rows && better in rows && worse.t == better.t && DedupPolicy(better.v, worse.v)
    ensures forall r :: r in rows && r.t == worse.t ==> IsNaN(r.v)
  {
    hide DedupPolicy, IsNaN;
    var a, b :| a in rows && b in rows && a.t == b.t && IsNaN(a.v) && IsNaN(b.v) && a.v != b.v && !NumberAt(rows, a.t);
    DedupPolicyIsStrictTotalOrder(a.v, b.v, a.v);
    if DedupPolicy(a.v, b.v) {
      worse, better := b, a;
    } else {
      worse, better := a, b;
    }
  }

  // ---- one grid point ----

  method WindowRangeOf(data: seq<CounterSample>, anchor: int, width: int) returns (lo: nat, hi: nat)
    requires SortedByT(data)
    ensures lo == UpperBound(data, anchor - width)
    ensures hi == if UpperBound(data, anchor) < lo then lo else UpperBound(data, anchor)
  {
    hide UpperBound;
    lo, hi := 0, 0;
    while lo < |data| && data[lo].t <= anchor - width
      invariant lo <= |data| && forall k :: 0 <= k < lo ==> data[k].t <= anchor - width
    {
      lo := lo + 1;
    }
    while hi < |data| && data[hi].t <= anchor
      invariant hi <= |data| && forall k :: 0 <= k < hi ==> data[k].t <= anchor
    {
      hi := hi + 1;
    }
    UpperBoundIsUnique(data, anchor - width, lo);
    UpperBoundIsUnique(data, anchor, hi);
    if hi < lo {
      hi := lo;
    }
  }

  predicate OracleStReset(prev: CounterSample, curr: CounterSample, fromDeltaTemporality: bool) {
    if curr.st.None? then false
    else if curr.st.value >= curr.t then true
    else if curr.st.value < prev.t then false
    else if curr.st.value == prev.t then !fromDeltaTemporality
    else true
  }

  /** The oracle's classifier is the kernel's, under either temporality. */
  lemma OracleClassifiesAlike(prev: CounterSample, curr: CounterSample, fromDeltaTemporality: bool)
    requires prev.t < curr.t
    ensures OracleStReset(prev, curr, fromDeltaTemporality) == StReset(prev, curr, fromDeltaTemporality)
    ensures OracleStReset(prev, curr, fromDeltaTemporality) <==>
            exists st :: curr.st == Some(st) && (st > prev.t || (st == prev.t && !fromDeltaTemporality))
  {
  }

  predicate IsReset(ar: Arith<Bits>, prev: CounterSample, curr: CounterSample) {
    ar.less(curr.v, prev.v) || OracleStReset(prev, curr, false)
  }

  /** The pre-reset values inside `[lo, hi)` of the whole series, added in order. */
  method OracleResetSum(ar: Arith<Bits>, sorted: seq<CounterSample>, lo: nat, hi: nat) returns (delta: Bits)
    requires lo < hi <= |sorted|
    ensures delta == ResetSum(ar, sorted[lo..hi], CounterRule(ar))
  {
    delta := ar.zero;
    for i := lo + 1 to hi
      invariant delta == ResetSum(ar, sorted[lo..i], CounterRule(ar))
    {
      assert sorted[lo..i + 1][..i - lo] == sorted[lo..i];
      if IsReset(ar, sorted[i - 1], sorted[i]) {
        delta := ar.add(delta, sorted[i - 1].v);
      }
    }
  }

  /** One pass over the window, in the oracle's own structure: it is the rate that the fold and
      the extrapolation give for the readings the window admits. */
  method EvaluateOnePoint(ar: Arith<Bits>, sorted: seq<CounterSample>, anchor: int, width: int)
    returns (point: Option<Bits>)
    requires SortedByT(sorted) && width > 0
    ensures point == RatePoint(ar, Select(sorted, anchor, width), anchor, width)
  {
    hide Select, UpperBound, ResetSum, ResetCount, RatePoint;
    var lo, hi := WindowRangeOf(sorted, anchor, width);
    SelectIsUpperBoundSlice(sorted, anchor, width);
    ghost var data := sorted[lo..hi];
    var n := hi - lo;
    if n == 0 {
      NoReadingNoRate(ar, anchor, width);
    } else {
      RatePointInTerms(ar, data, anchor, width);
    }
    var windowStart := anchor - width;

    var leftStInsideWindow := n > 0 && sorted[lo].st.Some?
      && sorted[lo].st.value > windowStart && sorted[lo].st.value < sorted[lo].t;
    var effN := n + if leftStInsideWindow then 1 else 0;
    if n == 0 || effN < 2 {
      return None;
    }
    var effFirstT := if leftStInsideWindow then sorted[lo].st.value else sorted[lo].t;
    var effFirstV := if leftStInsideWindow then ar.zero else sorted[lo].v;

    var delta := OracleResetSum(ar, sorted, lo, hi);
    delta := ar.add(delta, ar.sub(sorted[hi - 1].v, sorted[lo].v));
    if leftStInsideWindow {
      delta := ar.add(delta, sorted[lo].v);
    }

    var sampledInterval := ar.fromTicks(sorted[hi - 1].t - effFirstT);
    var avgInterval := ar.div(sampledInterval, ar.fromTicks(effN - 1));
    var threshold := ar.mul(avgInterval, ar.onePointOne);

    var durationToStart := ar.zero;
    if !leftStInsideWindow {
      durationToStart := ar.fromTicks(effFirstT - windowStart);
      if ar.less(threshold, durationToStart) {
        durationToStart := ar.div(avgInterval, ar.two);
      }
    }
    if ar.less(ar.zero, delta) && ar.atLeast(effFirstV, ar.zero) {
      var durationToZero := ar.mul(sampledInterval, ar.div(effFirstV, delta));
      if ar.less(durationToZero, durationToStart) {
        durationToStart := durationToZero;
      }
    }
    var durationToEnd := ar.fromTicks(anchor - sorted[hi - 1].t);
    if ar.less(threshold, durationToEnd) {
      durationToEnd := ar.div(avgInterval, ar.two);
    }
    var toInterval := ar.add(ar.add(sampledInterval, durationToStart), durationToEnd);
    var factor := ar.div(toInterval, sampledInterval);
    point := Some(ar.div(ar.mul(delta, factor), ar.fromTicks(width)));
  }

  // ---- the whole series ----

  method EvaluateSeries(ar: Arith<Bits>, samples: seq<CounterSample>, grid: Grid, window: int)
    returns (out: seq<Option<Bits>>)
    requires grid.Valid() && window > 0
    ensures out == PointsOf(ar, OracleCollapse(StableSort(samples)), grid, window)
  {
    hide Select, RatePoint, Grid.At, Grid.Count, OracleCollapse, StableSort;
    var sorted := OracleSortDedup(samples);
    OracleCollapseIsSorted(samples);
    AtEnds(grid);
    out := [];
    for i := 0 to grid.Count()
      invariant |out| == i
      invariant forall k :: 0 <= k < i ==>
                  out[k] == RatePoint(ar, Select(sorted, grid.At(k), window), grid.At(k), window)
    {
      var point := EvaluateOnePoint(ar, sorted, grid.At(i), window);
      out := out + [point];
    }
  }

  lemma OracleCollapseIsSorted(samples: seq<CounterSample>)
    ensures SortedByT(OracleCollapse(StableSort(samples)))
  {
    StableSortSorts(samples);
    OracleCollapseStrict(StableSort(samples));
  }

  lemma {:induction false} OracleCollapseStrict(rows: seq<CounterSample>)
    requires SortedByT(rows)
    ensures StrictByT(OracleCollapse(rows))
    ensures rows != [] ==>
              && OracleCollapse(rows) != []
              && OracleCollapse(rows)[|OracleCollapse(rows)| - 1].t == rows[|rows| - 1].t
    ensures rows == [] ==> OracleCollapse(rows) == []
  {
    hide OracleAbsorb;
    if rows != [] {
      OracleCollapseStrict(rows[..|rows| - 1]);
      OracleAbsorbStrict(OracleCollapse(rows[..|rows| - 1]), rows[|rows| - 1]);
    }
  }

  lemma OracleAbsorbStrict(d: seq<CounterSample>, s: CounterSample)
    requires StrictByT(d) && (d != [] ==> d[|d| - 1].t <= s.t)
    ensures StrictByT(OracleAbsorb(d, s)) && OracleAbsorb(d, s) != []
    ensures OracleAbsorb(d, s)[|OracleAbsorb(d, s)| - 1].t == s.t
  {
    hide OracleTotalOrderLess;
  }

  // ---- production refines the oracle ----

  /** The aggregate's pipeline on rows in arrival order. */
  method Production(ar: Arith<Bits>, rows: seq<CounterSample>, grid: Grid, window: int)
    returns (points: seq<Option<Bits>>)
    requires grid.Valid() && window > 0
    ensures points == PointsOf(ar, SeriesOf(rows), grid, window)
  {
    hide PointsOf, Collapse, StableSort, StByT, StPairs;
    var sorted := StableSort(Strip(rows));
    var samples := DedupSorted(sorted);
    SortDedupIsCanonical(Strip(rows));
    var data := JoinStart(samples, StPairs(rows), true);
    StripOfJoin(samples, StByT(StPairs(rows)));
    points := ComputePoints(ar, samples, data, grid, window);
  }

  /** For every arithmetic, production and oracle have the same points on rows whose start
      timestamps are seen coherently and whose NaNs are settled, which is exact for the readings that
      the two keep. */
  lemma ProductionRefinesOracle(ar: Arith<Bits>, rows: seq<CounterSample>, grid: Grid, window: int)
    requires grid.Valid() && NaNsAreSettled(rows) && SeenCoherent(rows)
    ensures PointsOf(ar, SeriesOf(rows), grid, window) == PointsOf(ar, OracleCollapse(StableSort(rows)), grid, window)
  {
    hide PointsOf, StableSort, DedupPolicy, IsNaN, SeenCoherent, SeenAlike, SeriesOf, NaNsAreSettled;
    StableSortSorts(rows);
    var sorted := StableSort(rows);
    PermutationMembers(rows, sorted);
    SeenIsAboutMembers(rows, sorted);
    SettledIsAboutMembers(rows, sorted);
    OracleCollapseAgrees(sorted);
    StreamIsSeenLikeAggregate(sorted, rows);
    PointsAlike(ar, Collapse(sorted), SeriesOf(rows), None, grid, window);
  }

  /** In particular on NaN-free rows. */
  lemma ProductionRefinesOracleOnNumbers(ar: Arith<Bits>, rows: seq<CounterSample>, grid: Grid, window: int)
    requires grid.Valid() && SeenCoherent(rows) && forall r :: r in rows ==> !IsNaN(r.v)
    ensures PointsOf(ar, SeriesOf(rows), grid, window) == PointsOf(ar, OracleCollapse(StableSort(rows)), grid, window)
  {
    hide PointsOf, StableSort, SeenCoherent, SeriesOf, OracleCollapse;
    ProductionRefinesOracle(ar, rows, grid, window);
  }

  /** The differential sweep: both evaluators on the same rows. */
  method Sweep(ar: Arith<Bits>, rows: seq<CounterSample>, grid: Grid, window: int)
    returns (production: seq<Option<Bits>>, oracle: seq<Option<Bits>>)
    requires grid.Valid() && window > 0 && NaNsAreSettled(rows) && SeenCoherent(rows)
    ensures production == oracle
  {
    hide PointsOf;
    production := Production(ar, rows, grid, window);
    oracle := EvaluateSeries(ar, rows, grid, window);
    ProductionRefinesOracle(ar, rows, grid, window);
  }
}
