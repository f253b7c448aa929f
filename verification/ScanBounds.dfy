/** The time range a scan may be narrowed to, and why narrowing it loses nothing. */
module ScanBounds {
  import opened Readings
  import opened Doubles
  import opened Grids
  import opened Dedup
  import opened Windows
  import opened Folds
  import opened Series
  import opened Parity
  import opened SeenStamps
  import opened Aggregates
  import opened Operators

  // ---- the bound ----

  /** A bit mask of edge modes. */
  type EdgeModes = bv32

  const EDGE_NONE: EdgeModes := 0
  const INSIDE: EdgeModes := 1
  const EXTRAPOLATE: EdgeModes := 2
  const ANCHOR: EdgeModes := 4
  const SMOOTH: EdgeModes := 8
  const LOOKBACK: EdgeModes := 16

  predicate Has(mode: EdgeModes, bit: EdgeModes) {
    mode & bit != 0
  }

  datatype Bounds = Bounds(lower: int, upper: int)

  const WORD: int := 0x1_0000_0000_0000_0000

  /** The conversion from the wide type to 64 bits. */
  function Narrow(x: int): (r: int)
    ensures IsTick(r) && (r - x) % WORD == 0
    ensures r == x <==> IsTick(x)
  {
    (x - MIN_TICK) % WORD + MIN_TICK
  }

  function WideBounds(grid: Grid, window: int, lookback: int, mode: EdgeModes): Bounds {
    var lower := grid.start - window;
    var afterLookback := if Has(mode, LOOKBACK) then lower - lookback else lower;
    var afterAnchor := if Has(mode, ANCHOR) then afterLookback - lookback else afterLookback;
    Bounds(afterAnchor, if Has(mode, SMOOTH) then grid.end + lookback else grid.end)
  }

  function ScanBoundsOf(grid: Grid, window: int, lookback: int, mode: EdgeModes): Bounds {
    var wide := WideBounds(grid, window, lookback, mode);
    Bounds(Narrow(wide.lower), Narrow(wide.upper))
  }

  /** The wide bounds for each mask of the registry's mode bits: INSIDE 1, EXTRAPOLATE 2, ANCHOR 4,
      SMOOTH 8, LOOKBACK 16. */
  lemma BoundsByMask(grid: Grid, window: int, lookback: int)
    ensures [INSIDE, EXTRAPOLATE, ANCHOR, SMOOTH, LOOKBACK] == [1, 2, 4, 8, 16]
    ensures WideBounds(grid, window, lookback, 0) == Bounds(grid.start - window, grid.end)
    ensures WideBounds(grid, window, lookback, 1) == Bounds(grid.start - window, grid.end)
    ensures WideBounds(grid, window, lookback, 2) == Bounds(grid.start - window, grid.end)
    ensures WideBounds(grid, window, lookback, 4) == Bounds(grid.start - window - lookback, grid.end)
    ensures WideBounds(grid, window, lookback, 8) == Bounds(grid.start - window, grid.end + lookback)
    ensures WideBounds(grid, window, lookback, 16) == Bounds(grid.start - window - lookback, grid.end)
    ensures WideBounds(grid, window, lookback, 20) == Bounds(grid.start - window - 2 * lookback, grid.end)
    ensures WideBounds(grid, window, lookback, 28) == Bounds(grid.start - window - 2 * lookback, grid.end + lookback)
  {
  }

  /** The word of the narrowing holds exactly the ticks. */
  lemma WordHoldsTheTicks()
    ensures WORD == MAX_TICK - MIN_TICK + 1 == 2 * (MAX_TICK + 1) && MIN_TICK == -MAX_TICK - 1
  {
  }

  predicate Admits(b: Bounds, t: int) {
    b.lower <= t <= b.upper
  }

  // ---- what the edge modes read ----

  /** The carry rule: a sample that is not stale carries to `anchor` from the closed interval
      behind it. */
  predicate Carry(anchor: int, lookback: int, t: int, v: Bits) {
    !IsStale(v) && anchor - lookback <= t <= anchor
  }

  /** Is the sample one that grid point `i` may read under some mode of the mask? Every mode
      reads the window; LOOKBACK and ANCHOR also the carry into its left edge; SMOOTH also the
      look-ahead past its anchor. */
  predicate Reads(grid: Grid, i: int, window: int, lookback: int, mode: EdgeModes, s: Sample) {
    || Contains(grid.At(i), window, s.t)
    || ((Has(mode, LOOKBACK) || Has(mode, ANCHOR)) && Carry(grid.At(i) - window, lookback, s.t, s.v))
    || (Has(mode, SMOOTH) && grid.At(i) < s.t <= grid.At(i) + lookback)
  }

  /** Does some grid point read the sample? */
  ghost predicate IsRead(grid: Grid, window: int, lookback: int, mode: EdgeModes, s: Sample)
    requires grid.Valid()
  {
    exists i :: 0 <= i < grid.Count() && Reads(grid, i, window, lookback, mode, s)
  }

  /** A grid and widths that fit 64 bits. */
  ghost predicate Fits(grid: Grid, window: int, lookback: int) {
    grid.Valid() && IsTick(grid.start) && IsTick(grid.end) && 0 < window <= MAX_TICK && 0 <= lookback <= MAX_TICK
  }

  lemma FitsIff(grid: Grid, window: int, lookback: int)
    ensures Fits(grid, window, lookback) <==>
            && -0x8000_0000_0000_0000 <= grid.start <= grid.end <= 0x7FFF_FFFF_FFFF_FFFF
            && grid.step > 0 && (grid.end - grid.start) % grid.step == 0
            && 1 <= window <= 0x7FFF_FFFF_FFFF_FFFF && 0 <= lookback <= 0x7FFF_FFFF_FFFF_FFFF
  {
  }

  lemma ReadsAreInTheWideBounds(grid: Grid, window: int, lookback: int, mode: EdgeModes, s: Sample)
    requires grid.Valid() && window >= 0 && lookback >= 0 && IsRead(grid, window, lookback, mode, s)
    ensures Admits(WideBounds(grid, window, lookback, mode), s.t)
  {
    hide Grid.Count, Grid.At, Has;
    var i :| 0 <= i < grid.Count() && Reads(grid, i, window, lookback, mode, s);
    AtInRange(grid, i);
  }

  /** The wide bounds are tight but for one tick: each end is read under some mode of the mask,
      except that a window is open on the left, and that LOOKBACK with ANCHOR doubles the reach. */
  lemma BoundsAreTight(grid: Grid, window: int, lookback: int, mode: EdgeModes, v: Bits)
    requires grid.Valid() && window > 0 && lookback >= 0 && !IsStale(v)
    ensures var b := WideBounds(grid, window, lookback, mode);
      && IsRead(grid, window, lookback, mode, Reading(b.upper, v, ()))
      && (Has(mode, LOOKBACK) != Has(mode, ANCHOR) ==> IsRead(grid, window, lookback, mode, Reading(b.lower, v, ())))
      && (!Has(mode, LOOKBACK) && !Has(mode, ANCHOR) ==>
            && IsRead(grid, window, lookback, mode, Reading(b.lower + 1, v, ()))
            && !IsRead(grid, window, lookback, mode, Reading(b.lower, v, ())))
      && (Has(mode, LOOKBACK) && Has(mode, ANCHOR) ==>
            IsRead(grid, window, lookback, mode, Reading(b.lower + lookback, v, ())))
  {
    hide Grid.Count, Grid.At, Has;
    AtEnds(grid);
    var b, last := WideBounds(grid, window, lookback, mode), grid.Count() - 1;
    assert Reads(grid, last, window, lookback, mode, Reading(b.upper, v, ()));
    if Has(mode, LOOKBACK) != Has(mode, ANCHOR) {
      assert Reads(grid, 0, window, lookback, mode, Reading(b.lower, v, ()));
    } else if Has(mode, LOOKBACK) {
      assert Reads(grid, 0, window, lookback, mode, Reading(b.lower + lookback, v, ()));
    } else {
      assert Reads(grid, 0, window, lookback, mode, Reading(b.lower + 1, v, ()));
      forall i | 0 <= i < grid.Count() ensures !Reads(grid, i, window, lookback, mode, Reading(b.lower, v, ())) {
        AtInRange(grid, i);
      }
    }
  }

  /** Do the 64-bit bounds lose nothing? Neither end may leave the 64-bit range, save that a lower
      end exactly one word below the least tick wraps to that tick. */
  predicate NarrowsSafely(b: Bounds) {
    IsTick(b.upper) && (IsTick(b.lower) || b.lower == MIN_TICK - WORD)
  }

  /** Every tick a mode can read is inside the 64-bit bounds if and only if they narrow safely. */
  lemma BoundsCoverReadsIffTheyFit(grid: Grid, window: int, lookback: int, mode: EdgeModes)
    requires Fits(grid, window, lookback)
    ensures (forall s: Sample :: IsTick(s.t) && IsRead(grid, window, lookback, mode, s) ==>
               Admits(ScanBoundsOf(grid, window, lookback, mode), s.t))
       <==> NarrowsSafely(WideBounds(grid, window, lookback, mode))
  {
    hide Grid.Count, Grid.At, Has, Narrow;
    var wide, b := WideBounds(grid, window, lookback, mode), ScanBoundsOf(grid, window, lookback, mode);
    if NarrowsSafely(wide) {
      NarrowOneWordBelow();
      forall s: Sample | IsTick(s.t) && IsRead(grid, window, lookback, mode, s) ensures Admits(b, s.t) {
        ReadsAreInTheWideBounds(grid, window, lookback, mode, s);
      }
    } else if !IsTick(wide.upper) {
      UpperBoundMisses(grid, window, lookback, mode);
    } else {
      LowerBoundMisses(grid, window, lookback, mode);
    }
  }

  lemma NarrowOneWordBelow()
    ensures Narrow(MIN_TICK - WORD) == MIN_TICK
  {
  }

  /** An upper end that wrapped excludes the last grid point. */
  lemma UpperBoundMisses(grid: Grid, window: int, lookback: int, mode: EdgeModes)
    requires Fits(grid, window, lookback) && !IsTick(WideBounds(grid, window, lookback, mode).upper)
    ensures var s: Sample := Reading(grid.end, 0, ());
      IsRead(grid, window, lookback, mode, s) && !Admits(ScanBoundsOf(grid, window, lookback, mode), s.t)
  {
    AtEnds(grid);
    hide Grid.Count, Grid.At, Has;
    assert Reads(grid, grid.Count() - 1, window, lookback, mode, Reading(grid.end, 0, ()));
  }

  /** A lower end that wrapped excludes some tick behind the first grid point. */
  lemma LowerBoundMisses(grid: Grid, window: int, lookback: int, mode: EdgeModes)
    requires Fits(grid, window, lookback)
    requires var low := WideBounds(grid, window, lookback, mode).lower; !IsTick(low) && low != MIN_TICK - WORD
    ensures exists s: Sample ::
              && IsTick(s.t) && IsRead(grid, window, lookback, mode, s)
              && !Admits(ScanBoundsOf(grid, window, lookback, mode), s.t)
  {
    AtEnds(grid);
    hide Grid.Count, Grid.At, Has;
    var low := ScanBoundsOf(grid, window, lookback, mode).lower;
    var t := if low > grid.start then grid.start else low - 1;
    var s: Sample := Reading(t, 0, ());
    assert Reads(grid, 0, window, lookback, mode, s);
    assert IsRead(grid, window, lookback, mode, s);
  }

  // ---- dropping what is outside the bound ----

  /** The readings the bound admits, in order. */
  function Within<V, S>(d: seq<Reading<V, S>>, b: Bounds): seq<Reading<V, S>> {
    if d == [] then []
    else
      var init, last := Within(d[..|d| - 1], b), d[|d| - 1];
      if Admits(b, last.t) then init + [last] else init
  }

  lemma {:induction false} WithinMembers<V, S>(d: seq<Reading<V, S>>, b: Bounds)
    ensures forall x :: x in Within(d, b) <==> x in d && Admits(b, x.t)
    ensures forall k :: 0 <= k < |Within(d, b)| ==> Within(d, b)[k] in d && Admits(b, Within(d, b)[k].t)
  {
    if d != [] {
      WithinMembers(d[..|d| - 1], b);
      assert d == d[..|d| - 1] + [d[|d| - 1]];
    }
  }

  lemma {:induction false} WithinKeepsOrder<V, S>(d: seq<Reading<V, S>>, b: Bounds)
    ensures SortedByT(d) ==> SortedByT(Within(d, b))
    ensures StrictByT(d) ==> StrictByT(Within(d, b))
  {
    hide Admits, SortedByT, StrictByT;
    if d == [] {
      EmptyIsOrdered<V, S>();
    } else {
      var init, last := d[..|d| - 1], d[|d| - 1];
      WithinKeepsOrder(init, b);
      WithinMembers(init, b);
      PrefixIsOrdered(d);
      OneMoreIsOrdered(Within(init, b), last);
    }
  }

  lemma EmptyIsOrdered<V, S>()
    ensures SortedByT<V, S>([]) && StrictByT<V, S>([])
  {
  }

  lemma PrefixIsOrdered<V, S>(d: seq<Reading<V, S>>)
    requires d != []
    ensures SortedByT(d) ==> SortedByT(d[..|d| - 1]) && forall x :: x in d[..|d| - 1] ==> x.t <= d[|d| - 1].t
    ensures StrictByT(d) ==> StrictByT(d[..|d| - 1]) && forall x :: x in d[..|d| - 1] ==> x.t < d[|d| - 1].t
  {
  }

  lemma OneMoreIsOrdered<V, S>(w: seq<Reading<V, S>>, last: Reading<V, S>)
    ensures SortedByT(w) && (forall x :: x in w ==> x.t <= last.t) ==> SortedByT(w + [last])
    ensures StrictByT(w) && (forall x :: x in w ==> x.t < last.t) ==> StrictByT(w + [last])
  {
  }

  /** A window that lies in the bound selects the same readings with and without it. */
  lemma {:induction false} WindowsSeeThroughTheBound<V, S>(d: seq<Reading<V, S>>, b: Bounds, anchor: int, width: int)
    requires forall t :: Contains(anchor, width, t) ==> Admits(b, t)
    ensures Select(Within(d, b), anchor, width) == Select(d, anchor, width)
  {
    hide Admits, Contains;
    if d != [] {
      var init, last := d[..|d| - 1], d[|d| - 1];
      WindowsSeeThroughTheBound(init, b, anchor, width);
      if Admits(b, last.t) {
        var w := Within(d, b);
        assert w[..|w| - 1] == Within(init, b) && w[|w| - 1] == last;
      } else {
        assert !Contains(anchor, width, last.t);
      }
    }
  }

  // ---- deduplication commutes with the bound ----

  lemma WithinOneMore<V, S>(d: seq<Reading<V, S>>, last: Reading<V, S>, b: Bounds)
    ensures Within(d + [last], b) == if Admits(b, last.t) then Within(d, b) + [last] else Within(d, b)
  {
    hide Admits;
    assert (d + [last])[..|d|] == d;
  }

  /** Deduplicating what the bound admits is the same as bounding what deduplication keeps. */
  lemma {:induction false} CollapseWithinBound<S>(rows: seq<Reading<Bits, S>>, b: Bounds)
    requires SortedByT(rows)
    ensures Collapse(Within(rows, b)) == Within(Collapse(rows), b)
  {
    hide DedupPolicy, Admits, Collapse, Absorb;
    if rows == [] {
      EmptyCollapse<S>();
    } else {
      var init, last := rows[..|rows| - 1], rows[|rows| - 1];
      CollapseWithinBound(init, b);
      CollapseWithinOneMore(init, last, b);
      assert rows == init + [last];
    }
  }

  lemma CollapseWithinOneMore<S>(init: seq<Reading<Bits, S>>, last: Reading<Bits, S>, b: Bounds)
    requires SortedByT(init) && (init != [] ==> init[|init| - 1].t <= last.t)
    requires Collapse(Within(init, b)) == Within(Collapse(init), b)
    ensures Collapse(Within(init + [last], b)) == Within(Collapse(init + [last]), b)
  {
    hide DedupPolicy, Admits, Collapse, Absorb, Within;
    var w := Within(init, b);
    WithinOneMore(init, last, b);
    CollapseOneMore(init, last);
    CollapseIsStrict(init);
    AbsorbWithinBound(Collapse(init), last, b);
    WithinKeepsOrder(init, b);
    WithinMembers(init, b);
    if w != [] {
      assert w[|w| - 1] in init;
    }
    CollapseOneMore(w, last);
  }

  lemma EmptyCollapse<S>()
    ensures Collapse<S>([]) == []
  {
  }

  lemma AbsorbWithinBound<S>(d: seq<Reading<Bits, S>>, s: Reading<Bits, S>, b: Bounds)
    requires StrictByT(d) && (d != [] ==> d[|d| - 1].t <= s.t)
    ensures Within(Absorb(d, s), b) == if Admits(b, s.t) then Absorb(Within(d, b), s) else Within(d, b)
  {
    hide DedupPolicy, Admits, Within;
    if d != [] && d[|d| - 1].t == s.t {
      var init, last := d[..|d| - 1], d[|d| - 1];
      assert d == init + [last];
      WithinOneMore(init, last, b);
      WithinOneMore(init, s, b);
      if Admits(b, s.t) {
        var w := Within(d, b);
        assert w[..|w| - 1] == Within(init, b);
      }
    } else {
      WithinOneMore(d, s, b);
      EarlierWithin(d, b, s.t);
    }
  }

  lemma EarlierWithin<S>(d: seq<Reading<Bits, S>>, b: Bounds, t: int)
    requires StrictByT(d) && (d != [] ==> d[|d| - 1].t < t)
    ensures Within(d, b) != [] ==> Within(d, b)[|Within(d, b)| - 1].t < t
  {
    hide Admits, Within;
    WithinMembers(d, b);
    assert forall x :: x in d ==> x.t < t;
  }

  lemma {:induction false} StripWithin<V, S>(rows: seq<Reading<V, S>>, b: Bounds)
    ensures Strip(Within(rows, b)) == Within(Strip(rows), b)
  {
    hide Admits;
    if rows != [] {
      var init, last := rows[..|rows| - 1], rows[|rows| - 1];
      StripWithin(init, b);
      assert Strip(rows)[..|init|] == Strip(init);
      assert Strip(Within(init, b) + [last]) == Strip(Within(init, b)) + [StripOne(last)];
    }
  }

  lemma SortDedupWithin(samples: seq<Sample>, b: Bounds)
    ensures SortDedup(Within(samples, b)) == Within(SortDedup(samples), b)
  {
    hide DedupPolicy, Admits, Within, SortDedup;
    SortDedupIsCanonical(samples);
    CanonicalWithin(samples, SortDedup(samples), b);
    var w := Within(samples, b);
    SortDedupIsTheCanonicalForm(w, w, Within(SortDedup(samples), b));
  }

  lemma CanonicalWithin(samples: seq<Sample>, d: seq<Sample>, b: Bounds)
    requires IsCanonical(samples, d)
    ensures IsCanonical(Within(samples, b), Within(d, b))
  {
    hide DedupPolicy, Admits, Within;
    var w, e := Within(samples, b), Within(d, b);
    WithinMembers(samples, b);
    WithinMembers(d, b);
    WithinKeepsOrder(d, b);
    forall r | r in w ensures Kept(r, e) {
      KeptWithin(d, b, r);
    }
  }

  lemma KeptWithin(d: seq<Sample>, b: Bounds, r: Sample)
    requires Kept(r, d) && Admits(b, r.t)
    ensures Kept(r, Within(d, b))
  {
    hide DedupPolicy, Admits, Within;
    WithinMembers(d, b);
    var k :| 0 <= k < |d| && d[k].t == r.t && !DedupPolicy(r.v, d[k].v);
    var e := Within(d, b);
    assert d[k] in e;
    var j :| 0 <= j < |e| && e[j] == d[k];
  }

  /** At the timestamps the bound admits, the joined start timestamps are the same. */
  lemma {:induction false} StampsWithin(rows: seq<CounterSample>, b: Bounds, t: int)
    requires Admits(b, t)
    ensures var m, w := StByT(StPairs(rows)), StByT(StPairs(Within(rows, b)));
      (t in m <==> t in w) && (t in m ==> m[t] == w[t])
  {
    hide Admits, StByT, StPairs;
    if rows != [] {
      var init, last := rows[..|rows| - 1], rows[|rows| - 1];
      StampsWithin(init, b, t);
      StampsOneMore(init, last);
      StampsOneMore(Within(init, b), last);
      assert rows == init + [last];
      WithinOneMore(init, last, b);
    }
  }

  lemma StampsOneMore(rows: seq<CounterSample>, last: CounterSample)
    ensures StByT(StPairs(rows + [last]))
         == if last.st.Some? then StByT(StPairs(rows))[last.t := last.st.value] else StByT(StPairs(rows))
  {
    assert (rows + [last])[..|rows|] == rows;
    if last.st.Some? {
      var pairs := StPairs(rows);
      assert (pairs + [(last.t, last.st.value)])[..|pairs|] == pairs;
    }
  }

  lemma {:induction false} JoinWithin(samples: seq<Sample>, m: map<int, int>, w: map<int, int>, b: Bounds)
    requires forall t :: Admits(b, t) ==> (t in m <==> t in w) && (t in m ==> m[t] == w[t])
    ensures Join(Within(samples, b), w) == Within(Join(samples, m), b)
  {
    hide Admits;
    if samples != [] {
      var init, last := samples[..|samples| - 1], samples[|samples| - 1];
      JoinWithin(init, m, w, b);
      assert Join(samples, m)[..|init|] == Join(init, m);
      assert Join(Within(init, b) + [last], w) == Join(Within(init, b), w) + [JoinOne(last, w)];
    }
  }

  /** The series of the bounded rows is the bounded series, whatever the start timestamps. */
  lemma SeriesWithin(rows: seq<CounterSample>, b: Bounds)
    ensures SeriesOf(Within(rows, b)) == Within(SeriesOf(rows), b)
  {
    hide DedupPolicy, Admits, Within, SortDedup, StByT, StPairs;
    StripWithin(rows, b);
    SortDedupWithin(Strip(rows), b);
    forall t | Admits(b, t)
      ensures t in StByT(StPairs(rows)) <==> t in StByT(StPairs(Within(rows, b)))
      ensures t in StByT(StPairs(rows)) ==> StByT(StPairs(rows))[t] == StByT(StPairs(Within(rows, b)))[t]
    {
      StampsWithin(rows, b, t);
    }
    JoinWithin(SortDedup(Strip(rows)), StByT(StPairs(rows)), StByT(StPairs(Within(rows, b))), b);
  }

  // ---- the rate loses nothing ----

  /** The bound that the rate's scan is narrowed to. */
  function RateBounds(grid: Grid, window: int): Bounds {
    ScanBoundsOf(grid, window, 0, EXTRAPOLATE)
  }

  /** The lower end of the first window has not left the 64-bit range. */
  ghost predicate RateFits(grid: Grid, window: int) {
    && grid.Valid() && IsTick(grid.start) && IsTick(grid.end) && window > 0
    && grid.start - window >= MIN_TICK
  }

  lemma RateBoundsAre(grid: Grid, window: int)
    requires RateFits(grid, window)
    ensures RateBounds(grid, window) == Bounds(grid.start - window, grid.end)
  {
    assert !Has(EXTRAPOLATE, LOOKBACK) && !Has(EXTRAPOLATE, ANCHOR) && !Has(EXTRAPOLATE, SMOOTH);
  }

  lemma PointsSeeThroughTheBound(ar: Arith<Bits>, data: seq<CounterSample>, grid: Grid, window: int)
    requires RateFits(grid, window)
    ensures PointsOf(ar, Within(data, RateBounds(grid, window)), grid, window) == PointsOf(ar, data, grid, window)
  {
    hide RatePoint, Select, Within, RateBounds, Grid.At, Grid.Count;
    RateBoundsAre(grid, window);
    var b := RateBounds(grid, window);
    forall i | 0 <= i < grid.Count()
      ensures Select(Within(data, b), grid.At(i), window) == Select(data, grid.At(i), window)
    {
      AtInRange(grid, i);
      WindowsSeeThroughTheBound(data, b, grid.At(i), window);
    }
  }

  /** A list whose every grid point is NULL. */
  ghost predicate AllNull(points: seq<Option<Bits>>) {
    forall i :: 0 <= i < |points| ==> points[i].None?
  }

  lemma NoReadingsNoValue(ar: Arith<Bits>, grid: Grid, window: int)
    requires grid.Valid()
    ensures AllNull(PointsOf(ar, [], grid, window))
  {
  }

  /** The answer for one group after the scan was narrowed: the same list, or no group where every
      point was NULL. */
  ghost predicate SameAnswer(full: Option<seq<Option<Bits>>>, bounded: Option<seq<Option<Bits>>>) {
    match bounded
    case Some(points) => full == Some(points)
    case None => full.Some? ==> AllNull(full.value)
  }

  lemma SameAnswerIff(full: Option<seq<Option<Bits>>>, bounded: Option<seq<Option<Bits>>>)
    ensures SameAnswer(full, bounded) <==>
            bounded == full || (bounded.None? && forall i :: 0 <= i < |full.value| ==> full.value[i] == None)
  {
  }

  predicate AdmitsRow(b: Bounds, r: InRow) {
    r.ts.Some? && Admits(b, r.ts.value)
  }

  /** The rows that pass both comparisons; a NULL timestamp passes neither. */
  function BoundedRows(rows: seq<InRow>, b: Bounds): seq<InRow> {
    if rows == [] then []
    else
      var init, last := BoundedRows(rows[..|rows| - 1], b), rows[|rows| - 1];
      if AdmitsRow(b, last) then init + [last] else init
  }

  lemma {:induction false} CountedWithin(rows: seq<InRow>, b: Bounds, hasSt: bool)
    ensures CountedRows(BoundedRows(rows, b), hasSt) == Within(CountedRows(rows, hasSt), b)
  {
    hide Admits;
    if rows != [] {
      var init, last := rows[..|rows| - 1], rows[|rows| - 1];
      CountedWithin(init, b, hasSt);
      var w := BoundedRows(init, b);
      assert (w + [last])[..|w|] == w;
      if Counted(last) {
        WithinOneMore(CountedRows(init, hasSt), AsCounter(last, hasSt), b);
      }
    }
  }

  /** A single state holds its counted rows in arrival order. */
  lemma {:induction false} UpdateAllIs(rows: seq<InRow>, hasSt: bool)
    ensures var counted := CountedRows(rows, hasSt);
      UpdateAll(rows, hasSt) == if counted == [] then None else Some(PayloadView(Strip(counted), StPairs(counted)))
    ensures !hasSt ==> StPairs(CountedRows(rows, hasSt)) == []
  {
    if rows != [] {
      var init, last := rows[..|rows| - 1], rows[|rows| - 1];
      UpdateAllIs(init, hasSt);
      if Counted(last) {
        var before, c := CountedRows(init, hasSt), AsCounter(last, hasSt);
        assert Strip(before + [c]) == Strip(before) + [Reading(c.t, c.v, ())];
        assert (before + [c])[..|before|] == before;
      }
    }
  }

  lemma FinalPointsOfAll(ar: Arith<Bits>, rows: seq<InRow>, grid: Grid, window: int, hasSt: bool)
    requires grid.Valid()
    ensures var counted := CountedRows(rows, hasSt);
      FinalPoints(ar, UpdateAll(rows, hasSt), grid, window, hasSt)
      == if counted == [] then None else Some(PointsOf(ar, SeriesOf(counted), grid, window))
  {
    hide PointsOf, SortDedup, StPairs;
    UpdateAllIs(rows, hasSt);
    EmptyMap();
  }

  lemma EmptyMap()
    ensures StByT([]) == map[]
  {
  }

  /** Narrowing the scan loses nothing: an aggregate over the rows inside the bound gives, for
      every multiset and order of rows and every arithmetic, the list it gives over all rows; and a
      group that loses all its rows had no value at any point. */
  lemma NarrowingIsLossless(ar: Arith<Bits>, rows: seq<InRow>, grid: Grid, window: int, hasSt: bool)
    requires RateFits(grid, window)
    ensures SameAnswer(FinalPoints(ar, UpdateAll(rows, hasSt), grid, window, hasSt),
                       FinalPoints(ar, UpdateAll(BoundedRows(rows, RateBounds(grid, window)), hasSt), grid, window,
                                   hasSt))
  {
    hide PointsOf, SeriesOf, CountedRows, FinalPoints, UpdateAll, BoundedRows, RateBounds, Within;
    var b := RateBounds(grid, window);
    var counted := CountedRows(rows, hasSt);
    FinalPointsOfAll(ar, rows, grid, window, hasSt);
    FinalPointsOfAll(ar, BoundedRows(rows, b), grid, window, hasSt);
    CountedWithin(rows, b, hasSt);
    SeriesWithin(counted, b);
    PointsSeeThroughTheBound(ar, SeriesOf(counted), grid, window);
    NoReadingsNoValue(ar, grid, window);
    EmptySeries([]);
    if counted == [] {
      NothingWithin(counted, b);
    }
  }

  /** The same for every partition: whatever run gathered all rows and whatever run gathered those
      inside the bound, in any order, the answers are the same. */
  lemma NarrowingIsLosslessUnderAnyPartition(ar: Arith<Bits>, n: nat, ops: seq<Op>, root: nat, narrowedOps: seq<Op>,
                                             narrowedRoot: nat, rows: seq<InRow>, grid: Grid, window: int, hasSt: bool)
    requires AllAllowed(ops, n) && root < n && AllAllowed(narrowedOps, n) && narrowedRoot < n && RateFits(grid, window)
    requires SeenAgree(CountedRows(rows, hasSt))
    requires forall r :: r in Histories(n, ops, hasSt)[root] <==> r in CountedRows(rows, hasSt)
    requires forall r :: r in Histories(n, narrowedOps, hasSt)[narrowedRoot] <==>
                         r in CountedRows(rows, hasSt) && Admits(RateBounds(grid, window), r.t)
    ensures SameAnswer(FinalPoints(ar, Run(Fresh(n), ops, hasSt)[root], grid, window, hasSt),
                       FinalPoints(ar, Run(Fresh(n), narrowedOps, hasSt)[narrowedRoot], grid, window, hasSt))
  {
    hide FinalPoints, CountedRows, Histories, Run, UpdateAll, RateBounds, Admits, Represents, SeenAgree;
    DeterministicUnderAnyPartition(ar, n, ops, root, rows, grid, window, hasSt);
    EveryStateRepresentsItsHistory(n, narrowedOps, hasSt);
    NarrowedStateAnswers(ar, Run(Fresh(n), narrowedOps, hasSt)[narrowedRoot],
                         Histories(n, narrowedOps, hasSt)[narrowedRoot], rows, grid, window, hasSt);
  }

  /** A state that holds the rows inside the bound, against one updated with all rows. */
  lemma NarrowedStateAnswers(ar: Arith<Bits>, state: State, held: seq<CounterSample>, rows: seq<InRow>, grid: Grid,
                             window: int, hasSt: bool)
    requires RateFits(grid, window) && Represents(state, held) && SeenAgree(CountedRows(rows, hasSt))
    requires forall r :: r in held <==> r in CountedRows(rows, hasSt) && Admits(RateBounds(grid, window), r.t)
    ensures SameAnswer(FinalPoints(ar, UpdateAll(rows, hasSt), grid, window, hasSt),
                       FinalPoints(ar, state, grid, window, hasSt))
  {
    hide CountedRows, UpdateAll, RateBounds, Admits, SeenAgree, PointsOf, SeriesOf, SortDedup, StByT, Within, StandsFor,
         PairsFor, BoundedRows;
    var b, counted := RateBounds(grid, window), CountedRows(rows, hasSt);
    FinalPointsOfAll(ar, rows, grid, window, hasSt);
    if state.None? {
      FinalPointsOfAll(ar, BoundedRows(rows, b), grid, window, hasSt);
      CountedWithin(rows, b, hasSt);
      WithinMembers(counted, b);
      NoMembersIsEmpty(Within(counted, b), held);
      NarrowingIsLossless(ar, rows, grid, window, hasSt);
    } else {
      assert held[0] in held && held[0] in counted;
      CountedStamps(rows, hasSt);
      FinalSeriesIsJoined(state, held, hasSt);
      NarrowedJoinAnswers(ar, state.value.buffer, state.value.stPairs, held, counted, grid, window);
    }
  }

  lemma NoMembersIsEmpty(x: seq<CounterSample>, held: seq<CounterSample>)
    requires held == [] && forall r :: r in held <==> r in x
    ensures x == []
  {
    if x != [] {
      HasAMember(x);
    }
  }

  lemma HasAMember(x: seq<CounterSample>)
    requires x != []
    ensures exists r :: r in x
  {
    assert x[0] in x;
  }

  lemma {:induction false} CountedStamps(rows: seq<InRow>, hasSt: bool)
    ensures !hasSt ==> forall r :: r in CountedRows(rows, hasSt) ==> r.st.None?
  {
    if rows != [] {
      CountedStamps(rows[..|rows| - 1], hasSt);
    }
  }

  /** Series whose readings are seen alike among all rows have the same points as the whole. */
  lemma BoundedSeriesAnswers(ar: Arith<Bits>, x: seq<CounterSample>, whole: seq<CounterSample>,
                             rows: seq<CounterSample>, grid: Grid, window: int)
    requires RateFits(grid, window) && StrictByT(whole) && IsCanonical(Strip(rows), Strip(whole))
    requires var kept := Within(whole, RateBounds(grid, window));
      Strip(x) == Strip(kept) && forall k :: 0 <= k < |x| ==> SeeIn(rows, x[k]) == SeeIn(rows, kept[k])
    ensures PointsOf(ar, x, grid, window) == PointsOf(ar, whole, grid, window)
  {
    hide PointsOf, Within, RateBounds, SeeIn, Spans, SeenAlike, PrevT, DedupPolicy, StrictByT, Admits, IsCanonical;
    var b := RateBounds(grid, window);
    var kept := Within(whole, b);
    SameStrip(kept, x);
    WithinKeepsOrder(whole, b);
    WholeSeriesSpans(whole, rows);
    BoundedSeriesSpans(whole, rows, b);
    SeriesSeenAlike(kept, x, rows);
    RateBoundsAre(grid, window);
    PointsAlike(ar, kept, x, if kept == [] then None else PrevT(rows, kept[0].t), grid, window);
    PointsSeeThroughTheBound(ar, whole, grid, window);
  }

  /** What the bound admits of a series spans the rows' timestamps there, and what lies before its
      first reading lies below the bound. */
  lemma BoundedSeriesSpans(whole: seq<CounterSample>, rows: seq<CounterSample>, b: Bounds)
    requires StrictByT(whole) && IsCanonical(Strip(rows), Strip(whole)) && Spans(whole, rows)
    ensures var kept := Within(whole, b);
      && Spans(kept, rows)
      && (kept != [] && PrevT(rows, kept[0].t).Some? ==> PrevT(rows, kept[0].t).value < b.lower)
  {
    hide Within, PrevT, DedupPolicy, IsCanonical, Spans, Admits;
    var kept := Within(whole, b);
    WithinMembers(whole, b);
    WithinKeepsOrder(whole, b);
    forall r | r in rows && Admits(b, r.t) ensures HasTime(kept, r.t) {
      EveryTimeIsKept(whole, rows, r);
      var s :| s in whole && s.t == r.t;
      assert s in kept;
    }
    forall k | 0 <= k < |kept| ensures HasTime(rows, kept[k].t) {
      assert kept[k] in whole;
      SeriesTimeIsARows(whole, rows, kept[k]);
    }
    BoundedEnds(kept, rows, b);
  }

  lemma EveryTimeIsKept(whole: seq<CounterSample>, rows: seq<CounterSample>, r: CounterSample)
    requires IsCanonical(Strip(rows), Strip(whole)) && r in rows
    ensures HasTime(whole, r.t)
  {
    var i :| 0 <= i < |rows| && rows[i] == r;
    assert Strip(rows)[i] in Strip(rows);
    assert Kept(Strip(rows)[i], Strip(whole));
    var k :| 0 <= k < |Strip(whole)| && Strip(whole)[k].t == r.t;
    assert whole[k] in whole;
  }

  lemma SeriesTimeIsARows(whole: seq<CounterSample>, rows: seq<CounterSample>, s: CounterSample)
    requires Spans(whole, rows) && s in whole
    ensures HasTime(rows, s.t)
  {
  }

  lemma BoundedEnds(kept: seq<CounterSample>, rows: seq<CounterSample>, b: Bounds)
    requires StrictByT(kept) && forall k :: 0 <= k < |kept| ==> Admits(b, kept[k].t) && HasTime(rows, kept[k].t)
    requires forall r :: r in rows && Admits(b, r.t) ==> HasTime(kept, r.t)
    ensures Spans(kept, rows)
    ensures kept != [] && PrevT(rows, kept[0].t).Some? ==> PrevT(rows, kept[0].t).value < b.lower
  {
    hide PrevT;
    if kept != [] {
      assert Admits(b, kept[0].t) && Admits(b, kept[|kept| - 1].t);
      PrevTIsLatest(rows, kept[0].t);
      if PrevT(rows, kept[0].t).Some? && PrevT(rows, kept[0].t).value >= b.lower {
        var p := PrevT(rows, kept[0].t).value;
        var r :| r in rows && r.t == p;
        NothingBeforeTheFirst(kept, p);
      }
    }
  }

  lemma NothingBeforeTheFirst(kept: seq<CounterSample>, t: int)
    requires StrictByT(kept) && kept != [] && t < kept[0].t
    ensures !HasTime(kept, t)
  {
    forall s | s in kept ensures s.t >= kept[0].t {
      var j :| 0 <= j < |kept| && kept[j] == s;
      assert j > 0 ==> kept[0].t < kept[j].t;
    }
  }

  lemma NarrowedJoinAnswers(ar: Arith<Bits>, buffer: seq<Sample>, pairs: seq<(int, int)>, held: seq<CounterSample>,
                            rows: seq<CounterSample>, grid: Grid, window: int)
    requires RateFits(grid, window) && StandsFor(buffer, Strip(held)) && PairsFor(pairs, held) && SeenAgree(rows)
    requires forall r :: r in held <==> r in rows && Admits(RateBounds(grid, window), r.t)
    ensures PointsOf(ar, Join(SortDedup(buffer), StByT(pairs)), grid, window)
         == PointsOf(ar, SeriesOf(rows), grid, window)
  {
    hide RateBounds, Admits, SeenAgree, PointsOf, SeriesOf, SortDedup, StByT, Within, StandsFor, PairsFor, Carried,
         SeeIn, DedupPolicy;
    var b, x, whole := RateBounds(grid, window), Join(SortDedup(buffer), StByT(pairs)), SeriesOf(rows);
    var kept := Within(whole, b);
    JoinOfRows(buffer, pairs, held, held);
    SeriesOfRows(rows, rows);
    SeriesIsStrict(rows);
    SortDedupIsCanonical(Strip(rows));
    BoundedStrip(whole, held, rows, b);
    WithinMembers(whole, b);
    SameStrip(x, kept);
    forall k | 0 <= k < |x| ensures SeeIn(rows, x[k]) == SeeIn(rows, kept[k]) {
      assert kept[k] in whole && Admits(b, kept[k].t);
      var j :| 0 <= j < |whole| && whole[j] == kept[k];
      CarriedAmongAll(held, rows, b, x[k]);
      CarriedAreSeenAlike(rows, x[k], kept[k]);
    }
    BoundedSeriesAnswers(ar, x, whole, rows, grid, window);
  }

  lemma CarriedAmongAll(held: seq<CounterSample>, rows: seq<CounterSample>, b: Bounds, s: CounterSample)
    requires (forall r :: r in held <==> r in rows && Admits(b, r.t)) && Admits(b, s.t) && Carried(held, s)
    ensures Carried(rows, s)
  {
    hide Admits;
  }

  lemma BoundedStrip(whole: seq<CounterSample>, held: seq<CounterSample>, rows: seq<CounterSample>, b: Bounds)
    requires Strip(whole) == SortDedup(Strip(rows))
    requires forall r :: r in held <==> r in rows && Admits(b, r.t)
    ensures SortDedup(Strip(held)) == Strip(Within(whole, b))
  {
    hide Admits, SortDedup, Within, DedupPolicy;
    StripWithin(whole, b);
    SortDedupWithin(Strip(rows), b);
    StripWithin(rows, b);
    WithinMembers(rows, b);
    StripMembers(held, Within(rows, b));
    SortDedupIsCanonical(Strip(held));
    SortDedupIsTheCanonicalForm(Strip(held), Strip(Within(rows, b)), SortDedup(Strip(held)));
  }

  lemma EmptySeries(rows: seq<CounterSample>)
    requires rows == []
    ensures SeriesOf(rows) == []
  {
    StableSortSorts(Strip(rows));
    SameMembers(Strip(rows), StableSort(Strip(rows)));
    CollapseIsStrict(StableSort(Strip(rows)));
  }

  /** Rows in strict time order without start timestamps are their own series. */
  lemma BareSeries(rows: seq<CounterSample>)
    requires StrictByT(rows) && forall r :: r in rows ==> r.st.None?
    ensures SeriesOf(rows) == rows
  {
    hide SeriesOf, DedupPolicy;
    CollapseOfStrict(rows);
    CollapseEqualsSeries(rows, rows);
  }

  lemma {:induction false} CollapseOfStrict(rows: seq<CounterSample>)
    requires StrictByT(rows)
    ensures Collapse(rows) == rows
  {
    hide DedupPolicy;
    if rows != [] {
      var init, last := rows[..|rows| - 1], rows[|rows| - 1];
      CollapseOfStrict(init);
      assert Absorb(init, last) == init + [last];
    }
  }

  // ---- the streamed form loses nothing either ----

  /** A bin sorted from the rows inside the bound gives each of its series the points it has in the
      bin of all rows; a series that vanished had no value at any point. */
  lemma NarrowingIsLosslessForStreams(ar: Arith<Bits>, bin: seq<BinRow>, bounded: seq<BinRow>, series: int, grid: Grid,
                                      window: int, hasSt: bool)
    requires RateFits(grid, window) && SortedBin(bin) && SortedBin(bounded)
    requires forall r :: r in bounded <==> r in bin && Admits(RateBounds(grid, window), r.reading.t)
    requires Occurs(bin, series) && SeenCoherent(ReadingsOf(bin, series, hasSt))
    ensures if Occurs(bounded, series) then
              SeriesPoints(ar, bounded, series, grid, window, hasSt)
              == SeriesPoints(ar, bin, series, grid, window, hasSt)
            else AllNull(SeriesPoints(ar, bin, series, grid, window, hasSt))
  {
    hide PointsOf, Collapse, ReadingsOf, SeenCoherent, RateBounds, Admits;
    var b := RateBounds(grid, window);
    var all, kept := ReadingsOf(bin, series, hasSt), ReadingsOf(bounded, series, hasSt);
    assert bin[..|bin|] == bin && bounded[..|bounded|] == bounded;
    ReadingsAreSorted(bin, |bin|, series, hasSt);
    ReadingsAreSorted(bounded, |bounded|, series, hasSt);
    BoundedReadings(bin, bounded, series, hasSt, b);
    NarrowedStreamAnswers(ar, all, kept, grid, window);
    if !Occurs(bounded, series) {
      NoOccurrenceNoReadings(bounded, series, hasSt);
      EmptyCollapse<Option<int>>();
      NoReadingsNoValue(ar, grid, window);
    }
  }

  lemma BoundedReadings(bin: seq<BinRow>, bounded: seq<BinRow>, series: int, hasSt: bool, b: Bounds)
    requires forall r :: r in bounded <==> r in bin && Admits(b, r.reading.t)
    ensures forall x ::
              x in ReadingsOf(bounded, series, hasSt) <==> x in ReadingsOf(bin, series, hasSt) && Admits(b, x.t)
  {
    hide ReadingsOf, Admits;
    ReadingsMembers(bin, series, hasSt);
    ReadingsMembers(bounded, series, hasSt);
    forall x ensures HasReading(bounded, series, hasSt, x) <==> HasReading(bin, series, hasSt, x) && Admits(b, x.t) {
    }
  }

  /** Streaming any time order of the admitted readings gives the points of streaming them all. */
  lemma NarrowedStreamAnswers(ar: Arith<Bits>, all: seq<CounterSample>, held: seq<CounterSample>, grid: Grid,
                              window: int)
    requires RateFits(grid, window) && SortedByT(all) && SortedByT(held) && SeenCoherent(all)
    requires forall r :: r in held <==> r in all && Admits(RateBounds(grid, window), r.t)
    ensures PointsOf(ar, Collapse(held), grid, window) == PointsOf(ar, Collapse(all), grid, window)
  {
    hide RateBounds, Admits, SeenCoherent, PointsOf, Collapse, SortDedup, Within, Carried, Top, SeeIn, DedupPolicy;
    var b, x, whole := RateBounds(grid, window), Collapse(held), Collapse(all);
    var kept := Within(whole, b);
    StreamOfRows(held, held);
    StreamOfRows(all, all);
    CollapseIsStrict(all);
    SortDedupIsCanonical(Strip(all));
    BoundedStrip(whole, held, all, b);
    WithinMembers(whole, b);
    SameStrip(x, kept);
    forall k | 0 <= k < |x| ensures SeeIn(all, x[k]) == SeeIn(all, kept[k]) {
      assert kept[k] in whole && Admits(b, kept[k].t);
      var j :| 0 <= j < |whole| && whole[j] == kept[k];
      PossibleAmongAll(held, all, b, x[k]);
      PossibleAreSeenAlike(all, x[k], kept[k]);
    }
    BoundedSeriesAnswers(ar, x, whole, all, grid, window);
  }

  lemma PossibleAmongAll(held: seq<CounterSample>, rows: seq<CounterSample>, b: Bounds, s: CounterSample)
    requires (forall r :: r in held <==> r in rows && Admits(b, r.t)) && Admits(b, s.t)
    requires Carried(held, s) || (s in held && Top(s, held))
    ensures Carried(rows, s) || (s in rows && Top(s, rows))
  {
    hide Admits, DedupPolicy;
    if Carried(held, s) {
      CarriedAmongAll(held, rows, b, s);
    }
  }

  // ---- the folds of the other edge modes ----

  /** The value of the latest sample that qualifies; among ties the first one. */
  function Latest(samples: seq<Sample>, qualifies: Sample -> bool): Option<Sample> {
    if samples == [] then None
    else
      var best, s := Latest(samples[..|samples| - 1], qualifies), samples[|samples| - 1];
      if qualifies(s) && s.t > (if best.None? then MIN_TICK else best.value.t) then Some(s) else best
  }

  /** The earliest sample that qualifies. */
  function Earliest(samples: seq<Sample>, qualifies: Sample -> bool): Option<Sample> {
    if samples == [] then None
    else
      var best, s := Earliest(samples[..|samples| - 1], qualifies), samples[|samples| - 1];
      if qualifies(s) && s.t < (if best.None? then MAX_TICK else best.value.t) then Some(s) else best
  }

  /** The values of the samples that qualify, added up from the left; absent when none does. */
  function Total(ar: Arith<Bits>, samples: seq<Sample>, qualifies: Sample -> bool): Option<Bits> {
    if samples == [] then None
    else
      var sum, s := Total(ar, samples[..|samples| - 1], qualifies), samples[|samples| - 1];
      if qualifies(s) then Some(ar.add(if sum.None? then ar.zero else sum.value, s.v)) else sum
  }

  lemma {:induction false} ScansSeeThroughTheBound(ar: Arith<Bits>, samples: seq<Sample>, b: Bounds,
                                                   qualifies: Sample -> bool)
    requires forall s :: s in samples && qualifies(s) ==> Admits(b, s.t)
    ensures Latest(Within(samples, b), qualifies) == Latest(samples, qualifies)
    ensures Earliest(Within(samples, b), qualifies) == Earliest(samples, qualifies)
    ensures Total(ar, Within(samples, b), qualifies) == Total(ar, samples, qualifies)
  {
    hide Admits;
    if samples != [] {
      var init, last := samples[..|samples| - 1], samples[|samples| - 1];
      ScansSeeThroughTheBound(ar, init, b, qualifies);
      var w := Within(init, b);
      assert (w + [last])[..|w|] == w;
    }
  }

  lemma {:induction false} LatestIsTheLatest(samples: seq<Sample>, qualifies: Sample -> bool)
    ensures match Latest(samples, qualifies)
            case None => forall s :: s in samples && qualifies(s) ==> s.t <= MIN_TICK
            case Some(x) =>
              && x in samples && qualifies(x) && x.t > MIN_TICK
              && forall s :: s in samples && qualifies(s) ==> s.t <= x.t
  {
    if samples != [] {
      LatestIsTheLatest(samples[..|samples| - 1], qualifies);
      assert samples == samples[..|samples| - 1] + [samples[|samples| - 1]];
    }
  }

  lemma {:induction false} EarliestIsTheEarliest(samples: seq<Sample>, qualifies: Sample -> bool)
    ensures match Earliest(samples, qualifies)
            case None => forall s :: s in samples && qualifies(s) ==> s.t >= MAX_TICK
            case Some(x) =>
              && x in samples && qualifies(x) && x.t < MAX_TICK
              && forall s :: s in samples && qualifies(s) ==> s.t >= x.t
  {
    if samples != [] {
      EarliestIsTheEarliest(samples[..|samples| - 1], qualifies);
      assert samples == samples[..|samples| - 1] + [samples[|samples| - 1]];
    }
  }

  function ValueOr(s: Option<Sample>, otherwise: Bits): Bits {
    if s.Some? then s.value.v else otherwise
  }

  function InWindowOf(anchor: int, window: int): Sample -> bool {
    (s: Sample) => Contains(anchor, window, s.t)
  }

  function CarriesTo(edge: int, lookback: int): Sample -> bool {
    (s: Sample) => Carry(edge, lookback, s.t, s.v)
  }

  function AheadOf(anchor: int, lookback: int): Sample -> bool {
    (s: Sample) => anchor < s.t <= anchor + lookback
  }

  function InsideFold(ar: Arith<Bits>, samples: seq<Sample>, anchor: int, window: int): Bits {
    var sum := Total(ar, samples, InWindowOf(anchor, window));
    if sum.Some? then sum.value else ar.zero
  }

  /** The window's own fold, or the value carried into its left edge when the window is empty. */
  function LookbackFold(ar: Arith<Bits>, samples: seq<Sample>, anchor: int, window: int, lookback: int): Bits {
    if Total(ar, samples, InWindowOf(anchor, window)).Some? then InsideFold(ar, samples, anchor, window)
    else ValueOr(Latest(samples, CarriesTo(anchor - window, lookback)), ar.zero)
  }

  /** The last sample at or before the window's left edge. */
  function AnchorFold(ar: Arith<Bits>, samples: seq<Sample>, anchor: int, window: int, lookback: int): Bits {
    ValueOr(Latest(samples, CarriesTo(anchor - window, lookback)), ar.zero)
  }

  /** The last sample of the window and the first one ahead of it. */
  function SmoothFold(ar: Arith<Bits>, samples: seq<Sample>, anchor: int, window: int, lookback: int): Bits {
    ar.add(ValueOr(Latest(samples, InWindowOf(anchor, window)), ar.zero),
           ValueOr(Earliest(samples, AheadOf(anchor, lookback)), ar.zero))
  }

  /** The sample may be carried to the window's left edge: it is not the stale marker and not more
      than the look-back older. */
  predicate MayCarry(s: Sample, edge: int, lookback: int) {
    s.v != 0x7FF0_0000_0000_0002 && edge - lookback <= s.t && s.t <= edge
  }

  /** The carrying folds read the latest sample that may be carried, whichever that is: zero when
      there is none, its value when no other one is as late. */
  lemma CarryReads(ar: Arith<Bits>, samples: seq<Sample>, anchor: int, window: int, lookback: int)
    requires forall s :: s in samples ==> s.t > MIN_TICK
    ensures (forall s :: s in samples ==> !MayCarry(s, anchor - window, lookback)) ==>
              AnchorFold(ar, samples, anchor, window, lookback) == ar.zero
    ensures forall x ::
              && x in samples && MayCarry(x, anchor - window, lookback)
              && (forall s :: s in samples && s != x && MayCarry(s, anchor - window, lookback) ==> s.t < x.t)
              ==> AnchorFold(ar, samples, anchor, window, lookback) == x.v
    ensures LookbackFold(ar, samples, anchor, window, lookback)
         == if exists s :: s in samples && anchor - window < s.t <= anchor then InsideFold(ar, samples, anchor, window)
            else AnchorFold(ar, samples, anchor, window, lookback)
  {
    hide Latest, Total;
    LatestIsTheLatest(samples, CarriesTo(anchor - window, lookback));
    TotalIsPresent(ar, samples, InWindowOf(anchor, window));
    forall s | s in samples
      ensures MayCarry(s, anchor - window, lookback) == CarriesTo(anchor - window, lookback)(s)
    {
    }
  }

  /** The window's fold adds the values in order, from zero. */
  lemma InsideOneMore(ar: Arith<Bits>, samples: seq<Sample>, s: Sample, anchor: int, window: int)
    ensures InsideFold(ar, [], anchor, window) == ar.zero
    ensures InsideFold(ar, samples + [s], anchor, window)
         == if anchor - window < s.t <= anchor then ar.add(InsideFold(ar, samples, anchor, window), s.v)
            else InsideFold(ar, samples, anchor, window)
  {
    assert (samples + [s])[..|samples|] == samples;
  }

  /** The smoothing fold adds the only last sample of the window and the only first one ahead of it,
      zero for either that is absent. */
  lemma SmoothReads(ar: Arith<Bits>, samples: seq<Sample>, anchor: int, window: int, lookback: int,
                    inside: Option<Sample>, ahead: Option<Sample>)
    requires forall s :: s in samples ==> MIN_TICK < s.t < MAX_TICK
    requires match inside
             case None => forall s :: s in samples ==> !(anchor - window < s.t <= anchor)
             case Some(x) =>
               && x in samples && anchor - window < x.t <= anchor
               && forall s :: s in samples && s != x && anchor - window < s.t <= anchor ==> s.t < x.t
    requires match ahead
             case None => forall s :: s in samples ==> !(anchor < s.t <= anchor + lookback)
             case Some(x) =>
               && x in samples && anchor < x.t <= anchor + lookback
               && forall s :: s in samples && s != x && anchor < s.t <= anchor + lookback ==> s.t > x.t
    ensures SmoothFold(ar, samples, anchor, window, lookback)
         == ar.add(if inside.Some? then inside.value.v else ar.zero, if ahead.Some? then ahead.value.v else ar.zero)
  {
    hide Latest, Earliest;
    LatestIsTheLatest(samples, InWindowOf(anchor, window));
    EarliestIsTheEarliest(samples, AheadOf(anchor, lookback));
  }

  lemma {:induction false} TotalIsPresent(ar: Arith<Bits>, samples: seq<Sample>, qualifies: Sample -> bool)
    ensures Total(ar, samples, qualifies).Some? <==> exists s :: s in samples && qualifies(s)
  {
    if samples != [] {
      var init, last := samples[..|samples| - 1], samples[|samples| - 1];
      TotalIsPresent(ar, init, qualifies);
      assert samples == init + [last];
      assert qualifies(last) ==> last in samples;
    }
  }

  /** For every mask, the fold of each mode in it gives the same value over the samples inside the
      64-bit bounds as over all samples, at every grid point and for every arithmetic. */
  lemma EdgeFoldsSeeThroughTheBound(ar: Arith<Bits>, samples: seq<Sample>, grid: Grid, window: int, lookback: int,
                                    mode: EdgeModes, i: int)
    requires Fits(grid, window, lookback) && 0 <= i < grid.Count()
    requires NarrowsSafely(WideBounds(grid, window, lookback, mode))
    requires forall s :: s in samples ==> IsTick(s.t)
    ensures var kept, anchor := Within(samples, ScanBoundsOf(grid, window, lookback, mode)), grid.At(i);
      && InsideFold(ar, kept, anchor, window) == InsideFold(ar, samples, anchor, window)
      && (Has(mode, LOOKBACK) ==>
            LookbackFold(ar, kept, anchor, window, lookback) == LookbackFold(ar, samples, anchor, window, lookback))
      && (Has(mode, ANCHOR) ==>
            AnchorFold(ar, kept, anchor, window, lookback) == AnchorFold(ar, samples, anchor, window, lookback))
      && (Has(mode, SMOOTH) ==>
            SmoothFold(ar, kept, anchor, window, lookback) == SmoothFold(ar, samples, anchor, window, lookback))
  {
    hide Grid.At, Grid.Count, Has, Within, Latest, Earliest, Total, Admits, WideBounds, ScanBoundsOf, NarrowsSafely;
    BoundsCoverReadsIffTheyFit(grid, window, lookback, mode);
    var b, anchor := ScanBoundsOf(grid, window, lookback, mode), grid.At(i);
    assert forall s :: s in samples && Reads(grid, i, window, lookback, mode, s) ==> Admits(b, s.t) by {
      assert forall s :: Reads(grid, i, window, lookback, mode, s) ==> IsRead(grid, window, lookback, mode, s);
    }
    ScansSeeThroughTheBound(ar, samples, b, InWindowOf(anchor, window));
    if Has(mode, LOOKBACK) || Has(mode, ANCHOR) {
      ScansSeeThroughTheBound(ar, samples, b, CarriesTo(anchor - window, lookback));
    }
    if Has(mode, SMOOTH) {
      ScansSeeThroughTheBound(ar, samples, b, AheadOf(anchor, lookback));
    }
  }

  // ---- a bound that wrapped loses a rate ----

  /** The bound of a rate narrows safely on exactly the inputs on which the walk's own lower edges
      stay in 64 bits. */
  lemma RateFitsIsTheWalksRange(grid: Grid, window: int)
    requires grid.Valid() && IsTick(grid.start) && IsTick(grid.end) && window > 0
    ensures RateFits(grid, window) <==> forall i :: 0 <= i < grid.Count() ==> IsTick(grid.At(i) - window)
  {
    hide Grid.At, Grid.Count;
    AtEnds(grid);
    forall i | 0 <= i < grid.Count() ensures RateFits(grid, window) ==> IsTick(grid.At(i) - window) {
      AtInRange(grid, i);
    }
  }

  /** When the lower end wraps, two samples of the first window are dropped and its rate with them,
      for every arithmetic. The rate lost is the one over unbounded ticks: on these inputs the
      walk's `anchor - window` leaves 64 bits too (`RateFitsIsTheWalksRange`). */
  lemma WrappedBoundLosesARate(ar: Arith<Bits>, grid: Grid, window: int)
    requires Fits(grid, window, 0) && grid.start > MIN_TICK && grid.start - window < MIN_TICK
    ensures var b := RateBounds(grid, window);
      var rows: seq<CounterSample> := [Reading(grid.start - 1, 0, None), Reading(grid.start, 0, None)];
      && Within(rows, b) == []
      && StrictByT(rows) && window >= 2
      && PointsOf(ar, rows, grid, window)[0].Some?
      && PointsOf(ar, Within(rows, b), grid, window)[0].None?
  {
    AtEnds(grid);
    var rows: seq<CounterSample> := [Reading(grid.start - 1, 0, None), Reading(grid.start, 0, None)];
    LowerRateBound(grid, window);
    NothingWithin(rows, RateBounds(grid, window));
    SelectIsSlice(rows, grid.start, window, 0, 2);
    assert rows[0..2] == rows;
    TwoReadingsHaveARate(ar, rows, grid.start, window);
    NoReadingsNoValue(ar, grid, window);
  }

  lemma {:induction false} NothingWithin<V, S>(d: seq<Reading<V, S>>, b: Bounds)
    requires forall k :: 0 <= k < |d| ==> !Admits(b, d[k].t)
    ensures Within(d, b) == []
  {
    hide Admits;
    if d != [] {
      NothingWithin(d[..|d| - 1], b);
    }
  }

  lemma LowerRateBound(grid: Grid, window: int)
    requires Fits(grid, window, 0) && grid.start - window < MIN_TICK
    ensures RateBounds(grid, window).lower > grid.start
  {
    assert !Has(EXTRAPOLATE, LOOKBACK) && !Has(EXTRAPOLATE, ANCHOR) && !Has(EXTRAPOLATE, SMOOTH);
  }

  lemma TwoReadingsHaveARate(ar: Arith<Bits>, data: seq<CounterSample>, anchor: int, window: int)
    requires |data| == 2
    ensures RatePoint(ar, data, anchor, window).Some?
  {
  }
}
