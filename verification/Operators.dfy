/** The operator form: one hash bin, sorted by series and time, streamed series by series. */
module Operators {
  import opened Readings
  import opened Grids
  import opened Dedup
  import opened Windows
  import opened GridStreams
  import opened Folds
  import opened Series
  import opened SeenStamps
  import opened Aggregates

  /** One row of a bin; rows with a NULL timestamp or value were filtered out before the sort. */
  datatype BinRow = BinRow(series: int, reading: CounterSample)

  datatype OutRow = OutRow(series: int, points: seq<Option<Bits>>)

  /** What the partition sort promises: the rows of a series are adjacent and in time order. */
  ghost predicate SortedBin(bin: seq<BinRow>) {
    && (forall i, j, k :: 0 <= i <= j <= k < |bin| && bin[i].series == bin[k].series ==> bin[j].series == bin[i].series)
    && (forall i, j :: 0 <= i < j < |bin| && bin[i].series == bin[j].series ==> bin[i].reading.t <= bin[j].reading.t)
  }

  /** A sorted bin stays one by a later row of the last series, or by a first row of a new one. */
  lemma SortedBinOneMore(bin: seq<BinRow>, r: BinRow)
    ensures SortedBin([])
    ensures SortedBin(bin + [r]) <==>
            && SortedBin(bin)
            && if bin != [] && bin[|bin| - 1].series == r.series then bin[|bin| - 1].reading.t <= r.reading.t
               else forall i :: 0 <= i < |bin| ==> bin[i].series != r.series
  {
    var all, n := bin + [r], |bin|;
    if SortedBin(all) {
      assert forall i :: 0 <= i < n ==> all[i] == bin[i];
      assert n > 0 ==> all[n - 1] == bin[n - 1] && all[n] == r;
      forall i | 0 <= i < n && all[i].series == all[n].series ensures bin[n - 1].series == r.series {
        assert all[n - 1].series == all[i].series;
      }
    }
  }

  function ReadingOf(r: BinRow, hasSt: bool): CounterSample {
    if hasSt then r.reading else r.reading.(st := None)
  }

  /** The readings of one series, in bin order. */
  function ReadingsOf(bin: seq<BinRow>, series: int, hasSt: bool): seq<CounterSample> {
    if bin == [] then []
    else
      var init, last := ReadingsOf(bin[..|bin| - 1], series, hasSt), bin[|bin| - 1];
      if last.series == series then init + [ReadingOf(last, hasSt)] else init
  }

  /** One more row adds its reading to its own series and to no other; its start timestamp is the
      row's when the call has start timestamps, and absent when it has none. */
  lemma ReadingsOneMore(bin: seq<BinRow>, r: BinRow, series: int, hasSt: bool)
    ensures ReadingsOf(bin + [r], series, hasSt)
         == ReadingsOf(bin, series, hasSt)
            + if r.series != series then []
              else [Reading(r.reading.t, r.reading.v, if hasSt then r.reading.st else None)]
  {
    assert (bin + [r])[..|bin|] == bin;
  }

  /** Some row of the series has these parts. */
  ghost predicate HasReading(bin: seq<BinRow>, series: int, hasSt: bool, x: CounterSample) {
    exists r ::
      && r in bin && r.series == series && r.reading.t == x.t && r.reading.v == x.v
      && x.st == if hasSt then r.reading.st else None
  }

  lemma {:induction false} ReadingsMembers(bin: seq<BinRow>, series: int, hasSt: bool)
    ensures forall x :: x in ReadingsOf(bin, series, hasSt) <==> HasReading(bin, series, hasSt, x)
  {
    if bin != [] {
      var init, last := bin[..|bin| - 1], bin[|bin| - 1];
      ReadingsMembers(init, series, hasSt);
      assert bin == init + [last];
      ReadingsOneMore(init, last, series, hasSt);
      hide ReadingsOf;
      forall x ensures x in ReadingsOf(bin, series, hasSt) <==> HasReading(bin, series, hasSt, x) {
        assert HasReading(bin, series, hasSt, x) <==>
               || HasReading(init, series, hasSt, x)
               || (last.series == series && last.reading.t == x.t && last.reading.v == x.v
                   && x.st == if hasSt then last.reading.st else None);
      }
    }
  }

  ghost predicate Occurs(bin: seq<BinRow>, series: int) {
    exists i :: 0 <= i < |bin| && bin[i].series == series
  }

  /** The points of one series of the bin, as if it were alone. */
  function SeriesPoints(ar: Arith<Bits>, bin: seq<BinRow>, series: int, grid: Grid, window: int, hasSt: bool)
    : seq<Option<Bits>>
    requires grid.Valid()
  {
    PointsOf(ar, Collapse(ReadingsOf(bin, series, hasSt)), grid, window)
  }

  // ---- the emit callback ----

  /** The points written so far are the rates of the windows emitted so far. */
  ghost predicate Written(ar: Arith<Bits>, points: seq<Option<Bits>>, emitted: seq<Emission>, grid: Grid, window: int) {
    && |emitted| <= |points|
    && forall i :: 0 <= i < |emitted| ==> points[i] == RatePoint(ar, emitted[i].data, grid.At(i), window)
  }

  /** Folds each emitted window into the slot of its grid point. */
  method WriteEmissions(ar: Arith<Bits>, points: seq<Option<Bits>>, ghost emitted: seq<Emission>, emits: seq<Emission>,
                        grid: Grid, window: int)
    returns (points': seq<Option<Bits>>)
    requires Written(ar, points, emitted, grid, window)
    requires |emitted| + |emits| <= |points|
    requires forall i :: 0 <= i < |emits| ==> emits[i].index == |emitted| + i
    ensures |points'| == |points| && Written(ar, points', emitted + emits, grid, window)
  {
    hide RatePoint, Grid.At;
    points' := points;
    for i := 0 to |emits|
      invariant |points'| == |points|
      invariant forall k :: 0 <= k < |emitted| + i ==>
                  points'[k] == RatePoint(ar, (emitted + emits)[k].data, grid.At(k), window)
    {
      var e := emits[i];
      var point := ComputeRatePoint(ar, e.data, grid.At(e.index), window);
      points' := points'[e.index := point];
    }
  }

  // ---- one open series ----

  class OpenSeries {
    const series: int
    const stream: GridStream
    var points: seq<Option<Bits>>

    ghost predicate Valid(ar: Arith<Bits>)
      reads this, stream
    {
      && stream.Valid() && !stream.ended && stream.grid.Valid()
      && |points| == stream.grid.Count()
      && Written(ar, points, stream.emitted, stream.grid, stream.width)
    }

    constructor (ar: Arith<Bits>, series: int, grid: Grid, window: int)
      requires grid.Valid() && window > 0
      ensures Valid(ar) && this.series == series && stream.grid == grid && stream.width == window
      ensures stream.fed == [] && fresh(stream)
    {
      AtEnds(grid);
      this.series := series;
      this.points := seq(grid.Count(), i => None);
      this.stream := new GridStream(grid, window);
    }

    method Feed(ar: Arith<Bits>, r: CounterSample)
      requires Valid(ar) && (stream.fed != [] ==> stream.fed[|stream.fed| - 1].t <= r.t)
      modifies this, stream
      ensures Valid(ar) && stream.fed == old(stream.fed) + [r]
    {
      var emits := stream.Feed(r);
      EmissionsAreNumbered(old(stream.emitted), emits);
      points := WriteEmissions(ar, points, old(stream.emitted), emits, stream.grid, stream.width);
    }

    /** Emissions come numbered by grid point, and never more than there are points. */
    lemma EmissionsAreNumbered(before: seq<Emission>, emits: seq<Emission>)
      requires stream.Valid() && stream.emitted == before + emits
      ensures |before| + |emits| <= stream.grid.Count()
      ensures forall i :: 0 <= i < |emits| ==> emits[i].index == |before| + i
    {
      forall i | 0 <= i < |emits| ensures emits[i].index == |before| + i {
        assert stream.emitted[|before| + i] == emits[i];
      }
    }

    method Finish(ar: Arith<Bits>) returns (row: OutRow)
      requires Valid(ar)
      modifies this, stream
      ensures row.series == series && stream.grid.Valid()
      ensures row.points == PointsOf(ar, Collapse(old(stream.fed)), stream.grid, stream.width)
    {
      hide RatePoint, Select, Collapse, Grid.At;
      ghost var before := stream.emitted;
      stream.End();
      var emits := stream.Resume();
      EmissionsAreNumbered(before, emits);
      points := WriteEmissions(ar, points, before, emits, stream.grid, stream.width);
      row := OutRow(series, points);
    }
  }

  // ---- one bin ----

  /** The finished rows are those of the series of `done`, each once, each with its own points. */
  ghost predicate Answers(ar: Arith<Bits>, rows: seq<OutRow>, done: seq<BinRow>, grid: Grid, window: int, hasSt: bool)
    requires grid.Valid()
  {
    && (forall i, j :: 0 <= i < j < |rows| ==> rows[i].series != rows[j].series)
    && (forall i :: 0 <= i < |rows| ==>
          && Occurs(done, rows[i].series)
          && rows[i].points == SeriesPoints(ar, done, rows[i].series, grid, window, hasSt))
    && (forall s :: Occurs(done, s) ==> Listed(rows, s))
  }

  ghost predicate Listed(rows: seq<OutRow>, series: int) {
    exists i :: 0 <= i < |rows| && rows[i].series == series
  }

  /** Streams a bin end to end: a new series closes the previous one, and the last one is closed
      at the end. */
  method ProcessOneBin(ar: Arith<Bits>, bin: seq<BinRow>, grid: Grid, window: int, hasSt: bool)
    returns (rows: seq<OutRow>)
    requires SortedBin(bin) && grid.Valid() && window > 0
    ensures Answers(ar, rows, bin, grid, window, hasSt)
  {
    hide Answers, SeriesPoints, OpenSeries.Valid, ReadingsOf, SortedBin, Occurs, Collapse, PointsOf, Grid.Valid;
    rows := [];
    if |bin| == 0 {
      assert bin == bin[..0];
      NothingDone(ar, bin, grid, window, hasSt);
      return;
    }
    NothingDone(ar, bin, grid, window, hasSt);
    var active := new OpenSeries(ar, bin[0].series, grid, window);
    ghost var start := 0;
    for i := 0 to |bin|
      invariant 0 <= start <= i && (i > 0 ==> start < i)
      invariant active.Valid(ar) && fresh(active) && fresh(active.stream)
      invariant active.stream.grid == grid && active.stream.width == window
      invariant i == 0 ==> active.series == bin[0].series
      invariant forall k :: start <= k < i ==> bin[k].series == active.series
      invariant !Occurs(bin[..start], active.series)
      invariant Answers(ar, rows, bin[..start], grid, window, hasSt)
      invariant active.stream.fed == ReadingsOf(bin[..i], active.series, hasSt)
    {
      if bin[i].series != active.series {
        var row := active.Finish(ar);
        CloseSeries(ar, rows, bin, start, i, row, grid, window, hasSt);
        rows := rows + [row];
        start := i;
        active := new OpenSeries(ar, bin[i].series, grid, window);
        NewSeriesHasNoReadings(bin, i, hasSt);
      }
      NextReading(bin, i, hasSt);
      active.Feed(ar, ReadingOf(bin[i], hasSt));
    }
    assert bin[..|bin|] == bin;
    var row := active.Finish(ar);
    CloseSeries(ar, rows, bin, start, |bin|, row, grid, window, hasSt);
    rows := rows + [row];
  }

  lemma NothingDone(ar: Arith<Bits>, bin: seq<BinRow>, grid: Grid, window: int, hasSt: bool)
    requires grid.Valid()
    ensures Answers(ar, [], bin[..0], grid, window, hasSt)
    ensures forall s :: ReadingsOf(bin[..0], s, hasSt) == [] && !Occurs(bin[..0], s)
  {
  }

  lemma NextReading(bin: seq<BinRow>, i: nat, hasSt: bool)
    requires SortedBin(bin) && i < |bin|
    ensures var before := ReadingsOf(bin[..i], bin[i].series, hasSt);
      && ReadingsOf(bin[..i + 1], bin[i].series, hasSt) == before + [ReadingOf(bin[i], hasSt)]
      && (before != [] ==> before[|before| - 1].t <= ReadingOf(bin[i], hasSt).t)
  {
    assert bin[..i + 1][..i] == bin[..i];
    ReadingsAreNotLater(bin, i, i, hasSt);
  }

  lemma {:induction false} ReadingsAreNotLater(bin: seq<BinRow>, n: nat, i: nat, hasSt: bool)
    requires SortedBin(bin) && n <= i < |bin|
    ensures forall k :: 0 <= k < |ReadingsOf(bin[..n], bin[i].series, hasSt)| ==>
              ReadingsOf(bin[..n], bin[i].series, hasSt)[k].t <= bin[i].reading.t
  {
    if n > 0 {
      assert bin[..n][..n - 1] == bin[..n - 1];
      ReadingsAreNotLater(bin, n - 1, i, hasSt);
    }
  }

  lemma {:induction false} NoOccurrenceNoReadings(bin: seq<BinRow>, series: int, hasSt: bool)
    requires !Occurs(bin, series)
    ensures ReadingsOf(bin, series, hasSt) == []
  {
    if bin != [] {
      var n := |bin| - 1;
      assert forall i :: 0 <= i < n ==> bin[..n][i] == bin[i];
      NoOccurrenceNoReadings(bin[..n], series, hasSt);
    }
  }

  /** A series that starts at row `i` does not occur before it. */
  lemma NewSeriesHasNoReadings(bin: seq<BinRow>, i: nat, hasSt: bool)
    requires SortedBin(bin) && 0 < i < |bin| && bin[i].series != bin[i - 1].series
    ensures !Occurs(bin[..i], bin[i].series)
    ensures ReadingsOf(bin[..i], bin[i].series, hasSt) == []
  {
    NoOccurrenceNoReadings(bin[..i], bin[i].series, hasSt);
  }

  /** Rows of other series do not change the readings of a series. */
  lemma {:induction false} ReadingsUnaffected(bin: seq<BinRow>, start: nat, end: nat, series: int, hasSt: bool)
    requires start <= end <= |bin|
    requires forall k :: start <= k < end ==> bin[k].series != series
    ensures ReadingsOf(bin[..end], series, hasSt) == ReadingsOf(bin[..start], series, hasSt)
    decreases end
  {
    if start < end {
      assert bin[..end][..end - 1] == bin[..end - 1];
      ReadingsUnaffected(bin, start, end - 1, series, hasSt);
    }
  }

  lemma CloseSeries(ar: Arith<Bits>, rows: seq<OutRow>, bin: seq<BinRow>, start: nat, end: nat, row: OutRow, grid: Grid,
                    window: int, hasSt: bool)
    requires start < end <= |bin| && grid.Valid()
    requires Answers(ar, rows, bin[..start], grid, window, hasSt)
    requires forall k :: start <= k < end ==> bin[k].series == row.series
    requires !Occurs(bin[..start], row.series)
    requires row.points == PointsOf(ar, Collapse(ReadingsOf(bin[..end], row.series, hasSt)), grid, window)
    ensures Answers(ar, rows + [row], bin[..end], grid, window, hasSt)
  {
    hide PointsOf, Collapse, ReadingsOf;
    var all := rows + [row];
    forall i | 0 <= i < |all|
      ensures Occurs(bin[..end], all[i].series)
      ensures all[i].points == SeriesPoints(ar, bin[..end], all[i].series, grid, window, hasSt)
    {
      if i < |rows| {
        OccursLater(bin, start, end, rows[i].series);
        ReadingsUnaffected(bin, start, end, rows[i].series, hasSt);
      } else {
        assert bin[..end][start].series == row.series;
      }
    }
    forall s | Occurs(bin[..end], s) ensures Listed(all, s) {
      var k :| 0 <= k < end && bin[..end][k].series == s;
      if k < start {
        assert bin[..start][k].series == s;
        assert Listed(rows, s);
        var i :| 0 <= i < |rows| && rows[i].series == s;
        assert all[i].series == s;
      } else {
        assert all[|rows|].series == s;
      }
    }
  }

  lemma OccursLater(bin: seq<BinRow>, start: nat, end: nat, series: int)
    requires start <= end <= |bin| && Occurs(bin[..start], series)
    ensures Occurs(bin[..end], series)
  {
    var k :| 0 <= k < start && bin[..start][k].series == series;
    assert bin[..end][k].series == series;
  }

  // ---- the operator equals the aggregate ----

  /** Without start timestamps there are no pairs, and nothing is joined. */
  lemma FinalSeriesIsJoined(state: State, rows: seq<CounterSample>, hasSt: bool)
    requires Represents(state, rows) && state.Some?
    requires !hasSt ==> forall r :: r in rows ==> r.st.None?
    ensures FinalSeries(state.value, hasSt) == Join(SortDedup(state.value.buffer), StByT(state.value.stPairs))
  {
    var pairs := state.value.stPairs;
    assert pairs != [] ==> (pairs[0].0, pairs[0].1) in pairs && Carries(rows, pairs[0].0, pairs[0].1);
    assert hasSt || pairs == [];
  }

  /** The operator equals the aggregate, when the series and the state have the same readings. */
  lemma OperatorEqualsAggregateOnReadings(ar: Arith<Bits>, bin: seq<BinRow>, series: int, n: nat, ops: seq<Op>,
                                          root: nat, grid: Grid, window: int, hasSt: bool)
    requires SortedBin(bin) && grid.Valid() && AllAllowed(ops, n) && root < n
    requires Occurs(bin, series) && SeenCoherent(ReadingsOf(bin, series, hasSt))
    requires forall r :: r in ReadingsOf(bin, series, hasSt) <==> r in Histories(n, ops, hasSt)[root]
    ensures FinalPoints(ar, Run(Fresh(n), ops, hasSt)[root], grid, window, hasSt)
         == Some(SeriesPoints(ar, bin, series, grid, window, hasSt))
  {
    hide Run, Histories, Represents, FinalSeries, SeenCoherent, PointsOf, Collapse, SeenAlike, StByT, SortDedup;
    var readings, history := ReadingsOf(bin, series, hasSt), Histories(n, ops, hasSt)[root];
    var state := Run(Fresh(n), ops, hasSt)[root];
    EveryStateRepresentsItsHistory(n, ops, hasSt);
    ReadingsAreSorted(bin, |bin|, series, hasSt);
    assert bin[..|bin|] == bin;
    OccurringSeriesHasReadings(bin, series, hasSt);
    StateOfNonEmptyHistory(state, history, readings[0]);
    FinalSeriesIsJoined(state, history, hasSt);
    RepresentedParts(state, history);
    StreamIsSeenLikeJoin(readings, state.value.buffer, state.value.stPairs, history);
    PointsAlike(ar, Collapse(readings), FinalSeries(state.value, hasSt), None, grid, window);
  }

  /** The operator equals the aggregate. For one series of a bin and any run of the aggregate whose
      updates handed a state the same rows, as they came, in any order and any partition, the
      operator's points are the aggregate's list, whenever the start timestamps are seen coherently;
      and that premise is exact (`AnswersParityIffSeenCoherent`). Rows without a timestamp or a value
      and other series of the bin play no part. */
  lemma OperatorEqualsAggregate(ar: Arith<Bits>, bin: seq<BinRow>, series: int, n: nat, ops: seq<Op>, root: nat,
                                grid: Grid, window: int, hasSt: bool)
    requires SortedBin(bin) && grid.Valid() && AllAllowed(ops, n) && root < n
    requires forall t: int, v: Bits, st: Option<int> ::
               BinRow(series, Reading(t, v, st)) in bin <==> InRow(Some(t), Some(v), st) in Handed(n, ops, hasSt)[root]
    requires Occurs(bin, series) && SeenCoherent(ReadingsOf(bin, series, hasSt))
    ensures FinalPoints(ar, Run(Fresh(n), ops, hasSt)[root], grid, window, hasSt)
         == Some(SeriesPoints(ar, bin, series, grid, window, hasSt))
  {
    hide Run, Histories, Handed, FinalPoints, SeriesPoints, SeenCoherent, SortedBin, Occurs, CountedRows, ReadingsOf;
    var handed := Handed(n, ops, hasSt)[root];
    HistoriesAreTheHandedRows(n, ops, hasSt);
    CountedMembers(handed, hasSt);
    ReadingsMembers(bin, series, hasSt);
    forall x ensures HasReading(bin, series, hasSt, x) <==> IsReadingOf(handed, x, hasSt) {
      SameRowsSameReading(bin, series, handed, hasSt, x);
    }
    OperatorEqualsAggregateOnReadings(ar, bin, series, n, ops, root, grid, window, hasSt);
  }

  lemma SameRowsSameReading(bin: seq<BinRow>, series: int, handed: seq<InRow>, hasSt: bool, x: CounterSample)
    requires forall t: int, v: Bits, st: Option<int> ::
               BinRow(series, Reading(t, v, st)) in bin <==> InRow(Some(t), Some(v), st) in handed
    ensures HasReading(bin, series, hasSt, x) <==> IsReadingOf(handed, x, hasSt)
  {
    if HasReading(bin, series, hasSt, x) {
      var r :| r in bin && r.series == series && r.reading.t == x.t && r.reading.v == x.v
               && x.st == if hasSt then r.reading.st else None;
      assert r == BinRow(series, Reading(x.t, x.v, r.reading.st));
      assert InRow(Some(x.t), Some(x.v), r.reading.st) in handed;
    }
    if IsReadingOf(handed, x, hasSt) {
      var r :| r in handed && r.ts == Some(x.t) && r.value == Some(x.v) && x.st == if hasSt then r.st else None;
      assert r == InRow(Some(x.t), Some(x.v), r.st);
      assert BinRow(series, Reading(x.t, x.v, r.st)) in bin;
    }
  }

  lemma RepresentedParts(state: State, rows: seq<CounterSample>)
    requires Represents(state, rows) && state.Some?
    ensures StandsFor(state.value.buffer, Strip(rows)) && PairsFor(state.value.stPairs, rows)
  {
  }

  lemma StateOfNonEmptyHistory(state: State, history: seq<CounterSample>, r: CounterSample)
    requires Represents(state, history) && r in history
    ensures state.Some?
  {
  }

  lemma {:induction false} OccurringSeriesHasReadings(bin: seq<BinRow>, series: int, hasSt: bool)
    requires Occurs(bin, series)
    ensures ReadingsOf(bin, series, hasSt) != []
    ensures !hasSt ==> forall r :: r in ReadingsOf(bin, series, hasSt) ==> r.st.None?
  {
    var n := |bin| - 1;
    var i :| 0 <= i < |bin| && bin[i].series == series;
    if i < n {
      assert bin[..n][i].series == series;
      OccurringSeriesHasReadings(bin[..n], series, hasSt);
    } else {
      StrippedStamps(bin[..n], series, hasSt);
    }
  }

  lemma {:induction false} StrippedStamps(bin: seq<BinRow>, series: int, hasSt: bool)
    ensures !hasSt ==> forall r :: r in ReadingsOf(bin, series, hasSt) ==> r.st.None?
  {
    if bin != [] {
      StrippedStamps(bin[..|bin| - 1], series, hasSt);
    }
  }

  lemma {:induction false} ReadingsAreSorted(bin: seq<BinRow>, n: nat, series: int, hasSt: bool)
    requires SortedBin(bin) && n <= |bin|
    ensures SortedByT(ReadingsOf(bin[..n], series, hasSt))
  {
    if n > 0 {
      assert bin[..n][..n - 1] == bin[..n - 1];
      ReadingsAreSorted(bin, n - 1, series, hasSt);
      ReadingsAreNotLater(bin, n - 1, n - 1, hasSt);
    }
  }
}
