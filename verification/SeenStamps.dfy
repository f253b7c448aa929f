/** What a fold can see of a start timestamp, and hence when two series, two arrival orders or two
    forms of the rate give the same answers. */
module SeenStamps {
  import opened Readings
  import opened Doubles
  import opened Grids
  import opened Dedup
  import opened Windows
  import opened Folds
  import opened Series
  import opened Parity

  // ---- one reading ----

  /** Nothing, a reset, or a reset that also tells where the count began. */
  datatype Seen = Unseen | BareReset | Origin(st: int)

  /** What the start timestamp of a reading at `t` means to a fold, when the reading before it in
      the series is at `prev`. One that lies before the previous reading says nothing. */
  function See(prev: Option<int>, t: int, st: Option<int>): Seen {
    if st.None? then Unseen
    else if prev.None? then if st.value < t then Origin(st.value) else Unseen
    else if st.value >= t || st.value == prev.value then BareReset
    else if prev.value < st.value then Origin(st.value)
    else Unseen
  }

  // ---- two series ----

  /** The timestamp before the `k`-th reading; `base` stands before the first one. */
  function Before(x: seq<CounterSample>, k: nat, base: Option<int>): Option<int>
    requires k < |x|
  {
    if k == 0 then base else Some(x[k - 1].t)
  }

  ghost predicate SameReadings(x: seq<CounterSample>, y: seq<CounterSample>) {
    |x| == |y| && forall k :: 0 <= k < |x| ==> x[k].t == y[k].t && x[k].v == y[k].v
  }

  /** The same times and values, and start timestamps that look the same to a fold. */
  ghost predicate SeenAlike(x: seq<CounterSample>, y: seq<CounterSample>, base: Option<int>) {
    && SameReadings(x, y)
    && forall k :: 0 <= k < |x| ==>
         See(Before(x, k, base), x[k].t, x[k].st) == See(Before(y, k, base), y[k].t, y[k].st)
  }

  /** No arithmetic, grid and window tell the two series apart. */
  ghost predicate SameAnswers(x: seq<CounterSample>, y: seq<CounterSample>) {
    forall ar: Arith<Bits>, grid: Grid, window: int :: grid.Valid() && window > 0 ==>
      PointsOf(ar, x, grid, window) == PointsOf(ar, y, grid, window)
  }

  // ---- seen alike is enough ----

  lemma {:induction false} ResetSumAlike(ar: Arith<Bits>, x: seq<CounterSample>, y: seq<CounterSample>)
    requires SameReadings(x, y)
    requires forall k :: 0 < k < |x| ==> StReset(x[k - 1], x[k], false) == StReset(y[k - 1], y[k], false)
    ensures ResetSum(ar, x, CounterRule(ar)) == ResetSum(ar, y, CounterRule(ar))
  {
    hide StReset;
    if |x| > 1 {
      var n := |x| - 1;
      ResetSumAlike(ar, x[..n], y[..n]);
      assert CounterRule(ar)(x[n - 1], x[n]) == CounterRule(ar)(y[n - 1], y[n]);
      assert x[n - 1].v == y[n - 1].v;
    }
  }

  lemma ExtrapolateAlike(ar: Arith<Bits>, a: Summary<Bits>, b: Summary<Bits>, windowStart: int, windowEnd: int)
    requires a.Summary? && b.Summary?
    requires a.first == b.first && a.firstT == b.firstT && a.lastT == b.lastT && a.n == b.n && a.delta == b.delta
    requires StInsideLeftGap(a, windowStart, true) == StInsideLeftGap(b, windowStart, true)
    requires StInsideLeftGap(a, windowStart, true) ==> a.firstSt == b.firstSt
    ensures Extrapolate(ar, a, windowStart, windowEnd, true) == Extrapolate(ar, b, windowStart, windowEnd, true)
  {
    hide DurationToStart, DurationToEnd;
    assert EffectiveOf(ar, a, windowStart, true) == EffectiveOf(ar, b, windowStart, true);
  }

  /** Does the start timestamp of a window's first reading lie inside its left gap? */
  predicate InGap(r: CounterSample, windowStart: int) {
    r.st.Some? && windowStart < r.st.value < r.t
  }

  lemma WindowAlike(ar: Arith<Bits>, a: seq<CounterSample>, b: seq<CounterSample>, anchor: int, window: int)
    requires SameReadings(a, b)
    requires forall k :: 0 < k < |a| ==> StReset(a[k - 1], a[k], false) == StReset(b[k - 1], b[k], false)
    requires a != [] ==> InGap(a[0], anchor - window) == InGap(b[0], anchor - window)
    requires a != [] && InGap(a[0], anchor - window) ==> a[0].st == b[0].st
    ensures RatePoint(ar, a, anchor, window) == RatePoint(ar, b, anchor, window)
  {
    hide ResetSum, ResetCount, Extrapolate;
    ResetSumAlike(ar, a, b);
    if a != [] {
      ExtrapolateAlike(ar, FoldOf(ar, a, None, CounterRule(ar)), FoldOf(ar, b, None, CounterRule(ar)), anchor - window,
                       anchor);
    }
  }

  lemma SeenAt(x: seq<CounterSample>, y: seq<CounterSample>, base: Option<int>, k: nat, windowStart: int)
    requires StrictByT(x) && SeenAlike(x, y, base) && k < |x|
    ensures k > 0 ==> StReset(x[k - 1], x[k], false) == StReset(y[k - 1], y[k], false)
    ensures (Before(x, k, base).Some? ==> Before(x, k, base).value <= windowStart) ==>
              InGap(x[k], windowStart) == InGap(y[k], windowStart) && (InGap(x[k], windowStart) ==> x[k].st == y[k].st)
  {
    assert See(Before(x, k, base), x[k].t, x[k].st) == See(Before(y, k, base), y[k].t, y[k].st);
  }

  /** The rate of one point, when the window does not reach back to `base`. */
  lemma RatePointAlike(ar: Arith<Bits>, x: seq<CounterSample>, y: seq<CounterSample>, base: Option<int>, anchor: int,
                       window: int)
    requires StrictByT(x) && SeenAlike(x, y, base)
    requires base.Some? ==> base.value <= anchor - window
    ensures RatePoint(ar, Select(x, anchor, window), anchor, window)
         == RatePoint(ar, Select(y, anchor, window), anchor, window)
  {
    hide RatePoint, Select, StReset, InGap, SeenAlike, SameReadings, StrictByT;
    SameReadingsOf(x, y, base);
    var lo, hi := SameSlice(x, y, anchor, window);
    SlicesAlike(x, y, base, lo, hi, anchor - window);
    WindowAlike(ar, x[lo..hi], y[lo..hi], anchor, window);
  }

  lemma SameSlice(x: seq<CounterSample>, y: seq<CounterSample>, anchor: int, window: int) returns (lo: nat, hi: nat)
    requires StrictByT(x) && SameReadings(x, y)
    ensures lo <= hi <= |x| == |y|
    ensures Select(x, anchor, window) == x[lo..hi] && Select(y, anchor, window) == y[lo..hi]
    ensures lo > 0 ==> x[lo - 1].t <= anchor - window
  {
    hide Select;
    if window <= 0 {
      NothingSelected(x, anchor, window);
      NothingSelected(y, anchor, window);
      return 0, 0;
    }
    SelectIsUpperBoundSlice(x, anchor, window);
    lo, hi := UpperBound(x, anchor - window), UpperBound(x, anchor);
    assert hi < |x| ==> x[hi].t > anchor;
    SelectIsSlice(y, anchor, window, lo, hi);
  }

  lemma {:induction false} NothingSelected(x: seq<CounterSample>, anchor: int, window: int)
    requires window <= 0
    ensures Select(x, anchor, window) == []
  {
    if x != [] {
      NothingSelected(x[..|x| - 1], anchor, window);
    }
  }

  lemma SlicesAlike(x: seq<CounterSample>, y: seq<CounterSample>, base: Option<int>, lo: nat, hi: nat, windowStart: int)
    requires StrictByT(x) && SeenAlike(x, y, base) && lo <= hi <= |x| == |y|
    requires if lo > 0 then x[lo - 1].t <= windowStart else base.Some? ==> base.value <= windowStart
    ensures var a, b := x[lo..hi], y[lo..hi];
      && SameReadings(a, b)
      && (forall k :: 0 < k < |a| ==> StReset(a[k - 1], a[k], false) == StReset(b[k - 1], b[k], false))
      && (a != [] ==> InGap(a[0], windowStart) == InGap(b[0], windowStart)
                      && (InGap(a[0], windowStart) ==> a[0].st == b[0].st))
  {
    hide StReset, InGap, SeenAlike, See, StrictByT;
    SameReadingsOf(x, y, base);
    var a, b := x[lo..hi], y[lo..hi];
    forall k | 0 < k < |a| ensures StReset(a[k - 1], a[k], false) == StReset(b[k - 1], b[k], false) {
      SeenAt(x, y, base, lo + k, windowStart);
      assert a[k - 1] == x[lo + k - 1] && b[k - 1] == y[lo + k - 1];
    }
    if a != [] {
      SeenAt(x, y, base, lo, windowStart);
    }
  }

  lemma SameReadingsOf(x: seq<CounterSample>, y: seq<CounterSample>, base: Option<int>)
    requires SeenAlike(x, y, base)
    ensures SameReadings(x, y)
  {
  }

  lemma PointsAlike(ar: Arith<Bits>, x: seq<CounterSample>, y: seq<CounterSample>, base: Option<int>, grid: Grid,
                    window: int)
    requires StrictByT(x) && SeenAlike(x, y, base) && grid.Valid()
    requires base.Some? ==> base.value <= grid.start - window
    ensures PointsOf(ar, x, grid, window) == PointsOf(ar, y, grid, window)
  {
    hide RatePoint, Select, SeenAlike, Grid.At, Grid.Count;
    forall i | 0 <= i < grid.Count()
      ensures RatePoint(ar, Select(x, grid.At(i), window), grid.At(i), window)
           == RatePoint(ar, Select(y, grid.At(i), window), grid.At(i), window)
    {
      AtInRange(grid, i);
      RatePointAlike(ar, x, y, base, grid.At(i), window);
    }
  }

  // ---- and no less is ----

  lemma OnePointGrid(ar: Arith<Bits>, x: seq<CounterSample>, t: int, window: int)
    ensures Grid(t, t, 1).Valid()
    ensures PointsOf(ar, x, Grid(t, t, 1), window) == [RatePoint(ar, Select(x, t, window), t, window)]
  {
    var grid := Grid(t, t, 1);
    assert grid.Count() == 1 && grid.At(0) == t;
  }

  /** A window with one reading has a value exactly when its start timestamp is inside. */
  lemma LoneReading(ar: Arith<Bits>, x: seq<CounterSample>, k: nat, windowStart: int)
    requires StrictByT(x) && k < |x| && windowStart < x[k].t && (k > 0 ==> x[k - 1].t <= windowStart)
    ensures RatePoint(ar, Select(x, x[k].t, x[k].t - windowStart), x[k].t, x[k].t - windowStart).Some?
       <==> x[k].st.Some? && windowStart < x[k].st.value < x[k].t
  {
    hide Select;
    SelectIsSlice(x, x[k].t, x[k].t - windowStart, k, k + 1);
    assert x[k..k + 1] == [x[k]];
  }

  /** An arithmetic whose increase is 2 with a reset between two readings and 1 without. */
  function Marking(): Arith<Bits> {
    Arith((x: Bits, y: Bits) => if x == 0 then 1 else 2,
          (x: Bits, y: Bits) => 0,
          (x: Bits, y: Bits) => x,
          (x: Bits, y: Bits) => x,
          (x: Bits, y: Bits) => false,
          (x: Bits, y: Bits) => false,
          (n: int) => 0,
          0, 0, 0)
  }

  lemma MarkedPair(p: CounterSample, c: CounterSample, anchor: int, window: int)
    requires !InGap(p, anchor - window)
    ensures RatePoint(Marking(), [p, c], anchor, window) == Some(if StReset(p, c, false) then 2 else 1)
  {
    hide StReset;
    var ar, pair := Marking(), [p, c];
    assert pair[..1] == [p];
    assert ResetSum(ar, pair[..1], CounterRule(ar)) == 0;
    assert ResetSum(ar, pair, CounterRule(ar)) == if StReset(p, c, false) then 1 else 0;
  }

  lemma TwoReadings(x: seq<CounterSample>, k: nat)
    requires StrictByT(x) && 0 < k < |x|
    ensures var window := x[k].t - x[k - 1].t + 1;
      RatePoint(Marking(), Select(x, x[k].t, window), x[k].t, window)
      == Some(if StReset(x[k - 1], x[k], false) then 2 else 1)
  {
    hide Select, RatePoint, StReset;
    var window := x[k].t - x[k - 1].t + 1;
    SelectIsSlice(x, x[k].t, window, k - 1, k + 1);
    assert x[k - 1..k + 1] == [x[k - 1], x[k]];
    MarkedPair(x[k - 1], x[k], x[k].t, window);
  }

  /** Two readings that are not seen alike give different lists somewhere. */
  lemma DifferenceShows(x: seq<CounterSample>, y: seq<CounterSample>, k: nat)
    requires StrictByT(x) && SameReadings(x, y) && k < |x|
    requires See(Before(x, k, None), x[k].t, x[k].st) != See(Before(y, k, None), y[k].t, y[k].st)
    ensures !SameAnswers(x, y)
  {
    hide RatePoint, Select;
    var t := x[k].t;
    var a, b := See(Before(x, k, None), t, x[k].st), See(Before(y, k, None), t, y[k].st);
    if a.Origin? || b.Origin? {
      var windowStart := if a.Origin? && b.Origin? then (if a.st < b.st then a.st else b.st)
                         else if a.Origin? then a.st - 1 else b.st - 1;
      LoneReading(Marking(), x, k, windowStart);
      LoneReading(Marking(), y, k, windowStart);
      OnePointGrid(Marking(), x, t, t - windowStart);
      OnePointGrid(Marking(), y, t, t - windowStart);
    } else {
      var window := t - x[k - 1].t + 1;
      TwoReadings(x, k);
      TwoReadings(y, k);
      OnePointGrid(Marking(), x, t, window);
      OnePointGrid(Marking(), y, t, window);
    }
  }

  /** Series of the same times and values give the same answers, for every arithmetic, grid and
      window, if and only if their start timestamps are seen alike. (Times and values are given: a
      lone reading without a visible start timestamp has no rate anywhere, whatever its value. All
      series that rows of one set are made into have the same ones.) */
  lemma AnswersAgreeIffSeenAlike(x: seq<CounterSample>, y: seq<CounterSample>)
    requires StrictByT(x) && SameReadings(x, y)
    ensures SameAnswers(x, y) <==> SeenAlike(x, y, None)
  {
    hide PointsOf;
    if SeenAlike(x, y, None) {
      forall ar: Arith<Bits>, grid: Grid, window: int | grid.Valid() && window > 0
        ensures PointsOf(ar, x, grid, window) == PointsOf(ar, y, grid, window)
      {
        PointsAlike(ar, x, y, None, grid, window);
      }
    } else {
      var k :| 0 <= k < |x| && See(Before(x, k, None), x[k].t, x[k].st) != See(Before(y, k, None), y[k].t, y[k].st);
      DifferenceShows(x, y, k);
    }
  }

  // ---- the rows of one series ----

  ghost predicate HasTime(rows: seq<CounterSample>, t: int) {
    exists r :: r in rows && r.t == t
  }

  /** The latest timestamp of `rows` before `t`. */
  function PrevT(rows: seq<CounterSample>, t: int): Option<int> {
    if rows == [] then None
    else
      var prev, r := PrevT(rows[..|rows| - 1], t), rows[|rows| - 1];
      if r.t < t && (prev.None? || prev.value < r.t) then Some(r.t) else prev
  }

  lemma {:induction false} PrevTIsLatest(rows: seq<CounterSample>, t: int)
    ensures match PrevT(rows, t)
            case None => forall r :: r in rows ==> r.t >= t
            case Some(p) => p < t && HasTime(rows, p) && forall r :: r in rows && r.t < t ==> r.t <= p
  {
    if rows != [] {
      var init, last := rows[..|rows| - 1], rows[|rows| - 1];
      PrevTIsLatest(init, t);
      assert rows == init + [last];
      assert last in rows;
    }
  }

  /** What a fold over the series of `rows` sees of the start timestamp of one of them. */
  function SeeIn(rows: seq<CounterSample>, r: CounterSample): Seen {
    See(PrevT(rows, r.t), r.t, r.st)
  }

  /** Rows of one timestamp that carry a start timestamp are seen alike. */
  ghost predicate SeenAgree(rows: seq<CounterSample>) {
    forall a, b :: a in rows && b in rows && a.t == b.t && a.st.Some? && b.st.Some? ==> SeeIn(rows, a) == SeeIn(rows, b)
  }

  /** And so is every row whose value may be kept, where some row carries a start timestamp. */
  ghost predicate SeenCoherent(rows: seq<CounterSample>) {
    && SeenAgree(rows)
    && forall a, b :: a in rows && b in rows && a.t == b.t && a.st.Some? && Top(b, rows) ==>
         SeeIn(rows, a) == SeeIn(rows, b)
  }

  /** Start timestamps that are equal are seen alike. */
  lemma CoherentIsSeenCoherent(rows: seq<CounterSample>)
    ensures StAgree(rows) ==> SeenAgree(rows)
    ensures StCoherent(rows) ==> SeenCoherent(rows)
  {
  }

  lemma PrevTIsAboutMembers(rows: seq<CounterSample>, other: seq<CounterSample>, t: int)
    requires forall r :: r in rows <==> r in other
    ensures PrevT(rows, t) == PrevT(other, t)
  {
    PrevTIsLatest(rows, t);
    PrevTIsLatest(other, t);
  }

  lemma SeenIsAboutMembers(rows: seq<CounterSample>, other: seq<CounterSample>)
    requires forall r :: r in rows <==> r in other
    ensures SeenAgree(rows) ==> SeenAgree(other)
    ensures SeenCoherent(rows) ==> SeenCoherent(other)
  {
    hide See, PrevT, DedupPolicy;
    forall r ensures SeeIn(rows, r) == SeeIn(other, r) {
      PrevTIsAboutMembers(rows, other, r.t);
    }
    assert forall r :: Top(r, rows) == Top(r, other);
  }

  // ---- the series the two forms make of them ----

  /** The reading's start timestamp is one that a row of its timestamp carries, or none when none
      does: what the aggregate joins. */
  ghost predicate Carried(rows: seq<CounterSample>, s: CounterSample) {
    match s.st
    case None => forall r :: r in rows && r.t == s.t ==> r.st.None?
    case Some(st) => Carries(rows, s.t, st)
  }

  ghost predicate AllCarried(x: seq<CounterSample>, rows: seq<CounterSample>) {
    forall k :: 0 <= k < |x| ==> Carried(rows, x[k])
  }

  /** Or the reading is a row that survives its timestamp: what the stream keeps. */
  ghost predicate AllPossible(x: seq<CounterSample>, rows: seq<CounterSample>) {
    forall k :: 0 <= k < |x| ==> Carried(rows, x[k]) || (x[k] in rows && Top(x[k], rows))
  }

  lemma JoinIsCarried(samples: seq<Sample>, pairs: seq<(int, int)>, rows: seq<CounterSample>)
    requires PairsFor(pairs, rows)
    ensures AllCarried(Join(samples, StByT(pairs)), rows)
  {
    hide StByT;
    var x := Join(samples, StByT(pairs));
    forall k | 0 <= k < |x| ensures Carried(rows, x[k]) {
      var t := x[k].t;
      StByTReadsThePairs(pairs, t);
      if t in StByT(pairs) {
        assert Carries(rows, t, StByT(pairs)[t]);
      } else {
        forall r | r in rows && r.t == t ensures r.st.None? {
          assert r.st.Some? ==> Carries(rows, t, r.st.value);
        }
      }
    }
  }

  lemma SurvivorsArePossible(rows: seq<CounterSample>, d: seq<CounterSample>)
    requires IsCanonical(rows, d)
    ensures AllPossible(d, rows)
  {
    forall k | 0 <= k < |d| ensures d[k] in rows && Top(d[k], rows) {
      SurvivorIsTop(rows, d, k);
    }
  }

  lemma CarriedAreSeenAlike(rows: seq<CounterSample>, a: CounterSample, b: CounterSample)
    requires SeenAgree(rows) && a.t == b.t && Carried(rows, a) && Carried(rows, b)
    ensures SeeIn(rows, a) == SeeIn(rows, b)
  {
    if a.st.Some? && b.st.Some? {
      var r :| r in rows && r.t == a.t && r.st == a.st;
      var q :| q in rows && q.t == b.t && q.st == b.st;
      assert SeeIn(rows, r) == SeeIn(rows, q);
    }
  }

  lemma PossibleAreSeenAlike(rows: seq<CounterSample>, a: CounterSample, b: CounterSample)
    requires SeenCoherent(rows) && a.t == b.t
    requires Carried(rows, a) || (a in rows && Top(a, rows))
    requires Carried(rows, b) || (b in rows && Top(b, rows))
    ensures SeeIn(rows, a) == SeeIn(rows, b)
  {
    hide See, PrevT, DedupPolicy, Top;
    if Carried(rows, a) && Carried(rows, b) {
      CarriedAreSeenAlike(rows, a, b);
    } else if a.st.Some? {
      var r :| r in rows && r.t == a.t && r.st == a.st;
      assert SeeIn(rows, r) == SeeIn(rows, a);
      assert b in rows && Top(b, rows) ==> SeeIn(rows, r) == SeeIn(rows, b);
      if !(b in rows && Top(b, rows)) {
        CarriedAreSeenAlike(rows, a, b);
      }
    } else if b.st.Some? {
      var r :| r in rows && r.t == b.t && r.st == b.st;
      assert SeeIn(rows, r) == SeeIn(rows, b);
      assert a in rows && Top(a, rows);
    }
  }

  /** The series has every timestamp of the rows between its first and its last. */
  ghost predicate Spans(x: seq<CounterSample>, rows: seq<CounterSample>) {
    && (forall k :: 0 <= k < |x| ==> HasTime(rows, x[k].t))
    && (forall r :: r in rows && x != [] && x[0].t <= r.t <= x[|x| - 1].t ==> HasTime(x, r.t))
  }

  lemma Predecessor(x: seq<CounterSample>, rows: seq<CounterSample>, k: nat)
    requires StrictByT(x) && Spans(x, rows) && 0 < k < |x|
    ensures PrevT(rows, x[k].t) == Some(x[k - 1].t)
  {
    hide PrevT;
    PrevTIsLatest(rows, x[k].t);
    var p := PrevT(rows, x[k].t);
    assert HasTime(rows, x[k - 1].t);
    var q :| q in rows && q.t == x[k - 1].t;
    assert p.Some? && x[k - 1].t <= p.value < x[k].t;
    var r :| r in rows && r.t == p.value;
    assert x[0].t <= x[k - 1].t && x[k].t <= x[|x| - 1].t;
    NoneBetween(x, k, p.value);
  }

  lemma NoneBetween(x: seq<CounterSample>, k: nat, t: int)
    requires StrictByT(x) && 0 < k < |x| && x[k - 1].t <= t < x[k].t && HasTime(x, t)
    ensures t == x[k - 1].t
  {
    var s :| s in x && s.t == t;
    var j :| 0 <= j < |x| && x[j] == s;
  }

  /** Readings that are seen alike among the rows make series that are seen alike. */
  lemma SeriesSeenAlike(x: seq<CounterSample>, y: seq<CounterSample>, rows: seq<CounterSample>)
    requires StrictByT(x) && SameReadings(x, y) && Spans(x, rows)
    requires forall k :: 0 <= k < |x| ==> SeeIn(rows, x[k]) == SeeIn(rows, y[k])
    ensures SeenAlike(x, y, if x == [] then None else PrevT(rows, x[0].t))
  {
    hide See, PrevT, Spans, StrictByT;
    var base := if x == [] then None else PrevT(rows, x[0].t);
    forall k | 0 <= k < |x|
      ensures See(Before(x, k, base), x[k].t, x[k].st) == See(Before(y, k, base), y[k].t, y[k].st)
    {
      if k > 0 {
        Predecessor(x, rows, k);
      }
      assert SeeIn(rows, x[k]) == SeeIn(rows, y[k]);
    }
  }

  /** A series with exactly the rows' timestamps starts with nothing before it. */
  lemma WholeSeriesSpans(x: seq<CounterSample>, rows: seq<CounterSample>)
    requires StrictByT(x) && IsCanonical(Strip(rows), Strip(x))
    ensures Spans(x, rows)
    ensures x != [] ==> PrevT(rows, x[0].t) == None
  {
    hide DedupPolicy, PrevT;
    forall r | r in rows ensures HasTime(x, r.t) {
      var i :| 0 <= i < |rows| && rows[i] == r;
      assert Strip(rows)[i] in Strip(rows);
      assert Kept(Strip(rows)[i], Strip(x));
      var k :| 0 <= k < |Strip(x)| && Strip(x)[k].t == r.t;
      assert x[k] in x;
    }
    forall k | 0 <= k < |x| ensures HasTime(rows, x[k].t) {
      assert Strip(x)[k] in Strip(x);
      var i :| 0 <= i < |rows| && Strip(rows)[i] == Strip(x)[k];
      assert rows[i] in rows;
    }
    if x != [] {
      PrevTIsLatest(rows, x[0].t);
      forall r | r in rows ensures r.t >= x[0].t {
        assert HasTime(x, r.t);
        var s :| s in x && s.t == r.t;
        var j :| 0 <= j < |x| && x[j] == s;
      }
    }
  }

  lemma SameStrip(x: seq<CounterSample>, y: seq<CounterSample>)
    requires Strip(x) == Strip(y)
    ensures SameReadings(x, y)
  {
    forall k | 0 <= k < |x| ensures x[k].t == y[k].t && x[k].v == y[k].v {
      assert Strip(x)[k] == Strip(y)[k];
    }
  }

  lemma StripKeepsStrict(x: seq<CounterSample>)
    ensures StrictByT(Strip(x)) <==> StrictByT(x)
  {
    assert forall k :: 0 <= k < |x| ==> Strip(x)[k].t == x[k].t;
  }

  /** Two joined series of the same rows are seen alike when the rows' stamps are. */
  lemma CarriedSeriesSeenAlike(x: seq<CounterSample>, y: seq<CounterSample>, rows: seq<CounterSample>)
    requires Strip(x) == Strip(y) == SortDedup(Strip(rows))
    requires AllCarried(x, rows) && AllCarried(y, rows) && SeenAgree(rows)
    ensures StrictByT(x) && SameReadings(x, y) && SeenAlike(x, y, None)
  {
    hide DedupPolicy, SortDedup, SeeIn, SeenAgree, Carried, Spans, SeenAlike;
    SortDedupIsCanonical(Strip(rows));
    StripKeepsStrict(x);
    SameStrip(x, y);
    WholeSeriesSpans(x, rows);
    forall k | 0 <= k < |x| ensures SeeIn(rows, x[k]) == SeeIn(rows, y[k]) {
      CarriedAreSeenAlike(rows, x[k], y[k]);
    }
    SeriesSeenAlike(x, y, rows);
  }

  /** And a streamed one is seen like a joined one when the surviving rows' stamps are too. */
  lemma PossibleSeriesSeenAlike(x: seq<CounterSample>, y: seq<CounterSample>, rows: seq<CounterSample>)
    requires Strip(x) == Strip(y) == SortDedup(Strip(rows))
    requires AllPossible(x, rows) && AllPossible(y, rows) && SeenCoherent(rows)
    ensures StrictByT(x) && SameReadings(x, y) && SeenAlike(x, y, None)
  {
    hide DedupPolicy, SortDedup, SeeIn, SeenCoherent, Carried, Spans, SeenAlike, Top;
    SortDedupIsCanonical(Strip(rows));
    StripKeepsStrict(x);
    SameStrip(x, y);
    WholeSeriesSpans(x, rows);
    forall k | 0 <= k < |x| ensures SeeIn(rows, x[k]) == SeeIn(rows, y[k]) {
      PossibleAreSeenAlike(rows, x[k], y[k]);
    }
    SeriesSeenAlike(x, y, rows);
  }

  lemma CarriedIsPossible(x: seq<CounterSample>, rows: seq<CounterSample>)
    requires AllCarried(x, rows)
    ensures AllPossible(x, rows)
  {
  }

  // ---- one arrival order against another ----

  lemma PermutationMembers(rows: seq<CounterSample>, other: seq<CounterSample>)
    requires multiset(other) == multiset(rows)
    ensures forall r :: r in rows <==> r in other
  {
    forall r ensures r in rows <==> r in other {
      assert r in multiset(rows) <==> r in multiset(other);
    }
  }

  /** What the aggregate hands to its fold, for any rows with these members. */
  lemma SeriesOfRows(arrival: seq<CounterSample>, rows: seq<CounterSample>)
    requires forall r :: r in rows <==> r in arrival
    ensures Strip(SeriesOf(arrival)) == SortDedup(Strip(rows)) && AllCarried(SeriesOf(arrival), rows)
  {
    hide SortDedup, StByT, StPairs, Carried;
    StripOfJoin(SortDedup(Strip(arrival)), StByT(StPairs(arrival)));
    StripMembers(rows, arrival);
    SortDedupIsCanonical(Strip(rows));
    SortDedupIsTheCanonicalForm(Strip(rows), Strip(arrival), SortDedup(Strip(rows)));
    RowsStandForThemselves(arrival);
    JoinIsCarried(SortDedup(Strip(arrival)), StPairs(arrival), arrival);
    forall k | 0 <= k < |SeriesOf(arrival)| ensures Carried(rows, SeriesOf(arrival)[k]) {
      CarriedIsAboutMembers(arrival, rows, SeriesOf(arrival)[k]);
    }
  }

  lemma CarriedIsAboutMembers(rows: seq<CounterSample>, other: seq<CounterSample>, s: CounterSample)
    requires (forall r :: r in rows <==> r in other) && Carried(rows, s)
    ensures Carried(other, s)
  {
  }

  /** The aggregate's answers do not depend on the order in which its rows arrive, for any
      arithmetic, grid and window, if and only if the start timestamps that rows of one timestamp
      carry are seen alike. */
  lemma AnswersForgetOrderIffSeenAgree(rows: seq<CounterSample>)
    ensures SeenAgree(rows) <==>
            forall a, b :: multiset(a) == multiset(rows) && multiset(b) == multiset(rows) ==>
              SameAnswers(SeriesOf(a), SeriesOf(b))
  {
    hide SeenAgree, SameAnswers, SeriesOf, SortDedup, AllCarried, SeenAlike;
    if SeenAgree(rows) {
      forall a, b | multiset(a) == multiset(rows) && multiset(b) == multiset(rows)
        ensures SameAnswers(SeriesOf(a), SeriesOf(b))
      {
        PermutationMembers(rows, a);
        PermutationMembers(rows, b);
        SeriesOfRows(a, rows);
        SeriesOfRows(b, rows);
        CarriedSeriesSeenAlike(SeriesOf(a), SeriesOf(b), rows);
        AnswersAgreeIffSeenAlike(SeriesOf(a), SeriesOf(b));
      }
    } else {
      SeenDisagreementShows(rows);
    }
  }

  /** The reading at `t` is the same one in both series, and what is seen there differs. */
  lemma DifferenceAt(x: seq<CounterSample>, y: seq<CounterSample>, rows: seq<CounterSample>, k: nat)
    requires Strip(x) == Strip(y) == SortDedup(Strip(rows)) && k < |x| == |y|
    requires SeeIn(rows, x[k]) != SeeIn(rows, y[k])
    ensures !SameAnswers(x, y)
  {
    hide DedupPolicy, SortDedup, See, Spans, SameAnswers;
    SortDedupIsCanonical(Strip(rows));
    StripKeepsStrict(x);
    SameStrip(x, y);
    WholeSeriesSpans(x, rows);
    if k > 0 {
      Predecessor(x, rows, k);
    }
    DifferenceShows(x, y, k);
  }

  lemma SeenDisagreementShows(rows: seq<CounterSample>)
    requires !SeenAgree(rows)
    ensures exists a, b ::
              multiset(a) == multiset(rows) && multiset(b) == multiset(rows) && !SameAnswers(SeriesOf(a), SeriesOf(b))
  {
    hide SeriesOf, MovedLast, SeeIn, SameAnswers, SortDedup, AllCarried;
    var p, q :| p in rows && q in rows && p.t == q.t && p.st.Some? && q.st.Some? && SeeIn(rows, p) != SeeIn(rows, q);
    var i :| 0 <= i < |rows| && rows[i] == p;
    var j :| 0 <= j < |rows| && rows[j] == q;
    var a, b := MovedLast(rows, i), MovedLast(rows, j);
    LastWriteWins(a);
    LastWriteWins(b);
    PermutationMembers(rows, a);
    PermutationMembers(rows, b);
    SeriesOfRows(a, rows);
    SeriesOfRows(b, rows);
    SameStrip(SeriesOf(a), SeriesOf(b));
    SeriesIsStrict(a);
    var k :| 0 <= k < |SeriesOf(a)| && SeriesOf(a)[k].t == p.t && SeriesOf(a)[k].st == p.st;
    var l :| 0 <= l < |SeriesOf(b)| && SeriesOf(b)[l].t == q.t && SeriesOf(b)[l].st == q.st;
    assert k == l;
    SeeReadsTheStamp(rows, p, SeriesOf(a)[k]);
    SeeReadsTheStamp(rows, q, SeriesOf(b)[k]);
    DifferenceAt(SeriesOf(a), SeriesOf(b), rows, k);
  }

  lemma SeeReadsTheStamp(rows: seq<CounterSample>, a: CounterSample, b: CounterSample)
    requires a.t == b.t && a.st == b.st
    ensures SeeIn(rows, a) == SeeIn(rows, b)
  {
  }

  // ---- the stream against the aggregate ----

  lemma StreamOfRows(sorted: seq<CounterSample>, rows: seq<CounterSample>)
    requires SortedByT(sorted) && forall r :: r in rows <==> r in sorted
    ensures Strip(Collapse(sorted)) == SortDedup(Strip(rows)) && AllPossible(Collapse(sorted), rows)
  {
    hide Collapse, SortDedup, DedupPolicy, Carried;
    CollapseIsCanonical(sorted);
    StripOfCanonical(sorted, Collapse(sorted), rows);
    SurvivorsArePossible(sorted, Collapse(sorted));
    forall k | 0 <= k < |Collapse(sorted)|
      ensures Carried(rows, Collapse(sorted)[k]) || (Collapse(sorted)[k] in rows && Top(Collapse(sorted)[k], rows))
    {
      SurvivorIsTop(sorted, Collapse(sorted), k);
    }
  }

  /** Any buffers and pairs that stand for the same rows are joined to series that are seen alike,
      when the rows' start timestamps are. */
  lemma JoinsAreSeenAlike(buffer: seq<Sample>, pairs: seq<(int, int)>, rows: seq<CounterSample>,
                          buffer': seq<Sample>, pairs': seq<(int, int)>, rows': seq<CounterSample>)
    requires StandsFor(buffer, Strip(rows)) && PairsFor(pairs, rows)
    requires StandsFor(buffer', Strip(rows')) && PairsFor(pairs', rows')
    requires (forall r :: r in rows <==> r in rows') && SeenAgree(rows)
    ensures var x, y := Join(SortDedup(buffer), StByT(pairs)), Join(SortDedup(buffer'), StByT(pairs'));
      StrictByT(x) && SeenAlike(x, y, None)
  {
    hide DedupPolicy, SortDedup, SeenAgree, AllCarried, StByT, StandsFor, PairsFor, SeenAlike;
    JoinOfRows(buffer, pairs, rows, rows);
    JoinOfRows(buffer', pairs', rows', rows);
    CarriedSeriesSeenAlike(Join(SortDedup(buffer), StByT(pairs)), Join(SortDedup(buffer'), StByT(pairs')), rows);
  }

  lemma JoinOfRows(buffer: seq<Sample>, pairs: seq<(int, int)>, held: seq<CounterSample>, rows: seq<CounterSample>)
    requires StandsFor(buffer, Strip(held)) && PairsFor(pairs, held)
    requires forall r :: r in held <==> r in rows
    ensures Strip(Join(SortDedup(buffer), StByT(pairs))) == SortDedup(Strip(rows))
    ensures AllCarried(Join(SortDedup(buffer), StByT(pairs)), rows)
  {
    hide DedupPolicy, SortDedup, Carried, StByT;
    var x := Join(SortDedup(buffer), StByT(pairs));
    SortDedupOfStandIn(buffer, Strip(held));
    StripMembers(held, rows);
    SortDedupIsCanonical(Strip(rows));
    SortDedupIsTheCanonicalForm(Strip(rows), Strip(held), SortDedup(Strip(rows)));
    StripOfJoin(SortDedup(buffer), StByT(pairs));
    JoinIsCarried(SortDedup(buffer), pairs, held);
    forall k | 0 <= k < |x| ensures Carried(rows, x[k]) {
      CarriedIsAboutMembers(held, rows, x[k]);
    }
  }

  /** Feeding the rows in any time order gives a series seen like the one that any buffer and pairs
      of the same rows are joined to, when the start timestamps are seen coherently. */
  lemma StreamIsSeenLikeJoin(sorted: seq<CounterSample>, buffer: seq<Sample>, pairs: seq<(int, int)>,
                             rows: seq<CounterSample>)
    requires SortedByT(sorted) && SeenCoherent(sorted)
    requires StandsFor(buffer, Strip(rows)) && PairsFor(pairs, rows)
    requires forall r :: r in sorted <==> r in rows
    ensures StrictByT(Collapse(sorted))
    ensures SeenAlike(Collapse(sorted), Join(SortDedup(buffer), StByT(pairs)), None)
  {
    hide SeenCoherent, SortDedup, AllCarried, AllPossible, SeenAlike, Collapse, StByT, StandsFor, PairsFor;
    var y := Join(SortDedup(buffer), StByT(pairs));
    StreamOfRows(sorted, sorted);
    JoinOfRows(buffer, pairs, rows, sorted);
    CarriedIsPossible(y, sorted);
    PossibleSeriesSeenAlike(Collapse(sorted), y, sorted);
  }

  lemma StreamIsSeenLikeAggregate(sorted: seq<CounterSample>, arrival: seq<CounterSample>)
    requires SortedByT(sorted) && SeenCoherent(sorted)
    requires forall r :: r in sorted <==> r in arrival
    ensures StrictByT(Collapse(sorted)) && SeenAlike(Collapse(sorted), SeriesOf(arrival), None)
  {
    hide SeenCoherent, SortDedup, SeenAlike, Collapse, StByT, StPairs;
    RowsStandForThemselves(arrival);
    StreamIsSeenLikeJoin(sorted, Strip(arrival), StPairs(arrival), arrival);
  }

  /** Two time orders of the same rows are streamed to series that are seen alike. */
  lemma StreamsAreSeenAlike(sorted: seq<CounterSample>, other: seq<CounterSample>)
    requires SortedByT(sorted) && SortedByT(other) && SeenCoherent(sorted)
    requires forall r :: r in sorted <==> r in other
    ensures StrictByT(Collapse(sorted)) && SeenAlike(Collapse(sorted), Collapse(other), None)
  {
    hide SeenCoherent, SortDedup, AllPossible, SeenAlike, Collapse;
    StreamOfRows(sorted, sorted);
    StreamOfRows(other, sorted);
    PossibleSeriesSeenAlike(Collapse(sorted), Collapse(other), sorted);
  }

  lemma StreamAnswersLikeAggregate(sorted: seq<CounterSample>, arrival: seq<CounterSample>)
    requires SortedByT(sorted) && SeenCoherent(sorted)
    requires forall r :: r in sorted <==> r in arrival
    ensures SameAnswers(Collapse(sorted), SeriesOf(arrival))
  {
    hide SeenCoherent, SameAnswers, SeriesOf, SeenAlike, Collapse;
    StreamIsSeenLikeAggregate(sorted, arrival);
    SameReadingsOf(Collapse(sorted), SeriesOf(arrival), None);
    AnswersAgreeIffSeenAlike(Collapse(sorted), SeriesOf(arrival));
  }

  lemma SeenIncoherenceShows(rows: seq<CounterSample>)
    requires SeenAgree(rows) && !SeenCoherent(rows)
    ensures exists sorted ::
              multiset(sorted) == multiset(rows) && SortedByT(sorted) && !SameAnswers(Collapse(sorted), SeriesOf(rows))
  {
    hide DedupPolicy, Collapse, SeeIn, SameAnswers, SeriesOf, SortDedup, AllCarried, AllPossible;
    var a, b :| a in rows && b in rows && a.t == b.t && a.st.Some? && Top(b, rows) && SeeIn(rows, a) != SeeIn(rows, b);
    assert b.st.None?;
    var i :| 0 <= i < |rows| && rows[i] == b;
    var before, more := TimeOrderWithFirst(rows, i);
    FirstTopSurvives(before, b, more);
    var sorted := before + [b] + more;
    PermutationMembers(rows, sorted);
    StreamOfRows(sorted, rows);
    SeriesOfRows(rows, rows);
    var x, y := Collapse(sorted), SeriesOf(rows);
    SameStrip(x, y);
    var k :| 0 <= k < |x| && x[k] == b;
    JoinedReadingIsSeen(rows, y, k, a);
    DifferenceAt(x, y, rows, k);
  }

  /** A joined reading is seen like any row of its timestamp that carries a start timestamp. */
  lemma JoinedReadingIsSeen(rows: seq<CounterSample>, y: seq<CounterSample>, k: nat, a: CounterSample)
    requires SeenAgree(rows) && AllCarried(y, rows) && k < |y|
    requires a in rows && a.st.Some? && a.t == y[k].t
    ensures SeeIn(rows, y[k]) == SeeIn(rows, a)
  {
    hide SeeIn, SeenAgree;
    assert Carried(rows, y[k]);
    assert Carries(rows, a.t, a.st.value);
    CarriedAreSeenAlike(rows, y[k], a);
  }

  /** Stream and aggregate give the same answers on every time order and every arrival order of the
      rows, for any arithmetic, grid and window, if and only if the start timestamps are seen
      coherently. */
  lemma AnswersParityIffSeenCoherent(rows: seq<CounterSample>)
    ensures SeenCoherent(rows) <==>
            forall sorted, arrival ::
              multiset(sorted) == multiset(rows) && multiset(arrival) == multiset(rows) && SortedByT(sorted)
              ==> SameAnswers(Collapse(sorted), SeriesOf(arrival))
  {
    hide SeenCoherent, SeenAgree, SameAnswers, SeriesOf, Collapse, StableSort;
    if SeenCoherent(rows) {
      forall sorted, arrival |
        multiset(sorted) == multiset(rows) && multiset(arrival) == multiset(rows) && SortedByT(sorted)
        ensures SameAnswers(Collapse(sorted), SeriesOf(arrival))
      {
        PermutationMembers(rows, sorted);
        PermutationMembers(rows, arrival);
        SeenIsAboutMembers(rows, sorted);
        StreamAnswersLikeAggregate(sorted, arrival);
      }
    } else if SeenAgree(rows) {
      SeenIncoherenceShows(rows);
    } else {
      SeenDisagreementShows(rows);
      var a, b :| && multiset(a) == multiset(rows) && multiset(b) == multiset(rows)
                  && !SameAnswers(SeriesOf(a), SeriesOf(b));
      StableSortSorts(rows);
      SameAnswersChain(Collapse(StableSort(rows)), SeriesOf(a), SeriesOf(b));
    }
  }

  lemma SameAnswersChain(x: seq<CounterSample>, y: seq<CounterSample>, z: seq<CounterSample>)
    ensures SameAnswers(x, y) && SameAnswers(x, z) ==> SameAnswers(y, z)
  {
  }

  lemma StreamedTie(v: Bits)
    ensures Collapse([Reading(10, v, None), Reading(10, v, Some(3))]) == [Reading(10, v, None)]
  {
    hide DedupPolicy;
    var rows: seq<CounterSample> := [Reading(10, v, None), Reading(10, v, Some(3))];
    DedupPolicyIsStrictTotalOrder(v, v, v);
    assert rows[..1] == [rows[0]] && rows[..1][..0] == [];
    assert Collapse(rows[..1]) == [rows[0]];
  }

  lemma JoinedTie(rows: seq<CounterSample>)
    requires rows != [] && rows[|rows| - 1].st.Some? && forall r :: r in rows ==> r.t == rows[|rows| - 1].t
    ensures |SeriesOf(rows)| == 1
    ensures SeriesOf(rows)[0].t == rows[|rows| - 1].t && SeriesOf(rows)[0].st == rows[|rows| - 1].st
  {
    hide SeriesOf;
    SeriesIsStrict(rows);
    LastWriteWins(rows);
    SeriesTimes(rows);
    var y := SeriesOf(rows);
    forall k | 0 <= k < |y| ensures y[k].t == rows[|rows| - 1].t {
      assert HasTime(rows, y[k].t);
    }
    var r := rows[|rows| - 1];
    var k :| 0 <= k < |y| && y[k].t == r.t && y[k].st == r.st;
    if |y| > 1 {
      FirstTimesDiffer(y);
    }
  }

  lemma FirstTimesDiffer(y: seq<CounterSample>)
    requires StrictByT(y) && |y| > 1
    ensures y[0].t != y[1].t
  {
  }

  /** Where it matters: two rows of one timestamp and value, one with a start timestamp inside the
      window. The aggregate joins it and has a rate; a stream fed the other row first has none. */
  lemma TiedStampsCanDiffer(ar: Arith<Bits>, v: Bits)
    ensures var rows: seq<CounterSample> := [Reading(10, v, None), Reading(10, v, Some(3))];
      && SortedByT(rows) && !SeenCoherent(rows)
      && PointsOf(ar, Collapse(rows), Grid(10, 10, 1), 8) == [None]
      && PointsOf(ar, SeriesOf(rows), Grid(10, 10, 1), 8)[0].Some?
  {
    hide RatePoint, Select, SeriesOf, Collapse, SeenCoherent, DedupPolicy;
    var rows: seq<CounterSample> := [Reading(10, v, None), Reading(10, v, Some(3))];
    var x, y := Collapse(rows), SeriesOf(rows);
    StreamedTie(v);
    assert x == [rows[0]];
    OnePointGrid(ar, x, 10, 8);
    LoneReading(ar, x, 0, 2);
    JoinedTie(rows);
    OnePointGrid(ar, y, 10, 8);
    LoneReading(ar, y, 0, 2);
    if SeenCoherent(rows) {
      StreamAnswersLikeAggregate(rows, rows);
    }
  }

  lemma SeriesTimes(rows: seq<CounterSample>)
    ensures forall k :: 0 <= k < |SeriesOf(rows)| ==> HasTime(rows, SeriesOf(rows)[k].t)
  {
    hide SeriesOf, SortDedup, AllCarried, PrevT, DedupPolicy;
    SeriesOfRows(rows, rows);
    SeriesIsStrict(rows);
    SortDedupIsCanonical(Strip(rows));
    WholeSeriesSpans(SeriesOf(rows), rows);
  }
}
