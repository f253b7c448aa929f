/** The aggregate form: states that are updated, combined, finalized and destroyed in an order
    nobody promises. */
module Aggregates {
  import opened Readings
  import opened Doubles
  import opened Grids
  import opened Dedup
  import opened Windows
  import opened Folds
  import opened Series
  import opened SeenStamps

  // ---- the points of a series ----

  /** The walk, the fold and the extrapolation over a joined series. */
  method ComputePoints(ar: Arith<Bits>, samples: seq<Sample>, data: seq<CounterSample>, grid: Grid, window: int)
    returns (points: seq<Option<Bits>>)
    requires grid.Valid() && window > 0 && SortedByT(samples) && Strip(data) == samples
    ensures points == PointsOf(ar, data, grid, window)
  {
    hide Select, Grid.Count, Grid.At, RatePoint, UpperBound;
    var ranges, _ := WindowWalk(samples, grid, window);
    points := [];
    for i := 0 to |ranges|
      invariant |points| == i
      invariant forall k :: 0 <= k < i ==>
                  points[k] == RatePoint(ar, Select(data, grid.At(k), window), grid.At(k), window)
    {
      var r := ranges[i];
      var anchor := grid.At(i);
      WalkedRangeIsWindow(samples, data, anchor, window);
      var point := ComputeRatePoint(ar, data[r.lo..r.hi], anchor, window);
      points := points + [point];
    }
  }

  lemma WalkedRangeIsWindow(samples: seq<Sample>, data: seq<CounterSample>, anchor: int, window: int)
    requires SortedByT(samples) && Strip(data) == samples && window >= 0
    ensures UpperBound(samples, anchor - window) <= UpperBound(samples, anchor) <= |data|
    ensures data[UpperBound(samples, anchor - window)..UpperBound(samples, anchor)] == Select(data, anchor, window)
  {
    assert forall k :: 0 <= k < |data| ==> data[k].t == samples[k].t;
    var lo, hi := UpperBound(samples, anchor - window), UpperBound(samples, anchor);
    assert hi < |samples| ==> samples[hi].t > anchor;
    SelectIsSlice(data, anchor, window, lo, hi);
  }

  /** Joins the start timestamps onto deduplicated samples, building the map first. */
  method JoinStart(samples: seq<Sample>, stPairs: seq<(int, int)>, hasSt: bool) returns (data: seq<CounterSample>)
    ensures data == Join(samples, if hasSt then StByT(stPairs) else map[])
  {
    var stByT := map[];
    if hasSt {
      for i := 0 to |stPairs|
        invariant stByT == StByT(stPairs[..i])
      {
        assert stPairs[..i + 1][..i] == stPairs[..i];
        stByT := stByT[stPairs[i].0 := stPairs[i].1];
      }
      assert stPairs[..|stPairs|] == stPairs;
    }
    data := [];
    for i := 0 to |samples|
      invariant |data| == i && forall k :: 0 <= k < i ==> data[k] == JoinOne(samples[k], stByT)
    {
      data := data + [JoinOne(samples[i], stByT)];
    }
  }

  // ---- states as values ----

  /** One input row; NULLs are absent values. */
  datatype InRow = InRow(ts: Option<int>, value: Option<Bits>, st: Option<int>)

  /** What a payload holds: the samples in arrival order and the start-timestamp pairs. */
  datatype PayloadView = PayloadView(buffer: seq<Sample>, stPairs: seq<(int, int)>)

  type State = Option<PayloadView>

  predicate Counted(r: InRow) {
    r.ts.Some? && r.value.Some?
  }

  function AsCounter(r: InRow, hasSt: bool): CounterSample
    requires Counted(r)
  {
    Reading(r.ts.value, r.value.value, if hasSt then r.st else None)
  }

  /** The payload of a state, or a new empty one. */
  function WithPayload(state: State): PayloadView {
    if state.None? then PayloadView([], []) else state.value
  }

  function UpdateOne(state: State, r: InRow, hasSt: bool): State {
    if !Counted(r) then state
    else
      var p := WithPayload(state);
      Some(PayloadView(
        p.buffer + [Reading(r.ts.value, r.value.value, ())],
        if hasSt && r.st.Some? then p.stPairs + [(r.ts.value, r.st.value)] else p.stPairs))
  }

  /** The target and the source after a combine. */
  function CombineOne(target: State, source: State, destructive: bool): (State, State) {
    if source.None? then (target, source)
    else if target.None? && destructive then (source, None)
    else
      var p := WithPayload(target);
      (Some(PayloadView(p.buffer + source.value.buffer, p.stPairs + source.value.stPairs)), source)
  }

  /** Finalizing leaves the deduplicated samples behind. */
  function FinalizedView(state: State): State {
    if state.None? then None
    else Some(PayloadView(SortDedup(state.value.buffer), state.value.stPairs))
  }

  lemma FinalizedIsCanonical(state: State)
    ensures FinalizedView(state).Some? <==> state.Some?
    ensures state.Some? ==>
              && IsCanonical(state.value.buffer, FinalizedView(state).value.buffer)
              && FinalizedView(state).value.stPairs == state.value.stPairs
  {
    hide SortDedup, IsCanonical;
    if state.Some? {
      SortDedupIsCanonical(state.value.buffer);
    }
  }

  function FinalSeries(p: PayloadView, hasSt: bool): seq<CounterSample> {
    Join(SortDedup(p.buffer), if hasSt then StByT(p.stPairs) else map[])
  }

  /** The list a group yields: NULL for a state that saw no counted row. */
  function FinalPoints(ar: Arith<Bits>, state: State, grid: Grid, window: int, hasSt: bool): Option<seq<Option<Bits>>>
    requires grid.Valid()
  {
    if state.None? then None else Some(PointsOf(ar, FinalSeries(state.value, hasSt), grid, window))
  }

  // ---- runs ----

  datatype Op =
    | Update(target: nat, row: InRow)
    | Combine(source: nat, target: nat, destructive: bool)
    | Finalize(state: nat)
    | Destroy(state: nat)

  ghost predicate Allowed(op: Op, n: nat) {
    match op
    case Update(t, _) => t < n
    case Combine(s, t, _) => s < n && t < n && s != t
    case Finalize(i) => i < n
    case Destroy(i) => i < n
  }

  function Step(states: seq<State>, op: Op, hasSt: bool): (r: seq<State>)
    requires Allowed(op, |states|)
    ensures |r| == |states|
  {
    match op
    case Update(t, row) => states[t := UpdateOne(states[t], row, hasSt)]
    case Combine(s, t, destructive) =>
      var c := CombineOne(states[t], states[s], destructive);
      states[t := c.0][s := c.1]
    case Finalize(i) => states[i := FinalizedView(states[i])]
    case Destroy(i) => states[i := None]
  }

  ghost predicate AllAllowed(ops: seq<Op>, n: nat) {
    forall i :: 0 <= i < |ops| ==> Allowed(ops[i], n)
  }

  /** The runs are all those that name states of the vector and combine no state with itself. */
  lemma AllAllowedIff(ops: seq<Op>, n: nat)
    ensures AllAllowed(ops, n) <==> forall op :: op in ops ==>
              match op
              case Update(t, _) => t < n
              case Combine(s, t, _) => s < n && t < n && t != s
              case Finalize(i) => i < n
              case Destroy(i) => i < n
  {
    assert forall i :: 0 <= i < |ops| ==> ops[i] in ops;
  }

  function Run(states: seq<State>, ops: seq<Op>, hasSt: bool): (r: seq<State>)
    requires AllAllowed(ops, |states|)
    ensures |r| == |states|
  {
    if ops == [] then states
    else Step(Run(states, ops[..|ops| - 1], hasSt), ops[|ops| - 1], hasSt)
  }

  /** An update, on the row itself: a row with a timestamp and a value adds one sample, and a pair
      exactly when the call has start timestamps and the row carries one; any other row adds
      nothing. */
  lemma UpdateOneMeans(state: State, r: InRow, hasSt: bool)
    ensures var buffer := if state.Some? then state.value.buffer else [];
      var pairs := if state.Some? then state.value.stPairs else [];
      UpdateOne(state, r, hasSt)
      == if r.ts.None? || r.value.None? then state
         else Some(PayloadView(buffer + [Reading(r.ts.value, r.value.value, ())],
                               if hasSt && r.st.Some? then pairs + [(r.ts.value, r.st.value)] else pairs))
  {
  }

  // ---- what every state of every run stands for ----

  /** The counted rows that reached each state: a combine hands the source's rows to the
      target, a destructive move takes them from the source. */
  function HistoryStep(states: seq<State>, histories: seq<seq<CounterSample>>, op: Op, hasSt: bool)
    : (r: seq<seq<CounterSample>>)
    requires |states| == |histories| && Allowed(op, |states|)
    ensures |r| == |histories|
  {
    match op
    case Update(t, row) =>
      if Counted(row) then histories[t := histories[t] + [AsCounter(row, hasSt)]] else histories
    case Combine(s, t, destructive) =>
      var moved := destructive && states[t].None? && states[s].Some?;
      histories[t := histories[t] + histories[s]][s := if moved then [] else histories[s]]
    case Finalize(_) => histories
    case Destroy(i) => histories[i := []]
  }

  function Histories(n: nat, ops: seq<Op>, hasSt: bool): (r: seq<seq<CounterSample>>)
    requires AllAllowed(ops, n)
    ensures |r| == n
  {
    if ops == [] then seq(n, i => [])
    else
      var init := ops[..|ops| - 1];
      HistoryStep(Run(Fresh(n), init, hasSt), Histories(n, init, hasSt), ops[|ops| - 1], hasSt)
  }

  function Fresh(n: nat): (r: seq<State>)
    ensures |r| == n && forall i :: 0 <= i < n ==> r[i] == None
  {
    seq(n, i => None)
  }

  /** The state holds its rows: possibly deduplicated already, in any order, with copies. */
  ghost predicate Represents(state: State, rows: seq<CounterSample>) {
    match state
    case None => rows == []
    case Some(p) => rows != [] && StandsFor(p.buffer, Strip(rows)) && PairsFor(p.stPairs, rows)
  }

  lemma UpdateRepresents(state: State, rows: seq<CounterSample>, r: InRow, hasSt: bool)
    requires Represents(state, rows) && Counted(r)
    ensures Represents(UpdateOne(state, r, hasSt), rows + [AsCounter(r, hasSt)])
  {
    hide DedupPolicy;
    var c := AsCounter(r, hasSt);
    var p := WithPayload(state);
    StandsForItself([StripOne(c)]);
    StandsForMerged(p.buffer, Strip(rows), [StripOne(c)], [StripOne(c)]);
    assert Strip(rows + [c]) == Strip(rows) + [StripOne(c)];
    PairsForOneMore(p.stPairs, rows, c);
  }

  lemma PairsForOneMore(pairs: seq<(int, int)>, rows: seq<CounterSample>, c: CounterSample)
    requires PairsFor(pairs, rows)
    ensures PairsFor(if c.st.Some? then pairs + [(c.t, c.st.value)] else pairs, rows + [c])
  {
    var all := if c.st.Some? then pairs + [(c.t, c.st.value)] else pairs;
    forall t, st ensures (t, st) in all <==> Carries(rows + [c], t, st) {
      CarriesConcat(rows, [c], t, st);
      assert Carries([c], t, st) <==> c.t == t && c.st == Some(st) by {
        assert c in [c];
      }
      assert (t, st) in pairs <==> Carries(rows, t, st);
    }
  }

  lemma CarriesConcat(a: seq<CounterSample>, b: seq<CounterSample>, t: int, st: int)
    ensures Carries(a + b, t, st) <==> Carries(a, t, st) || Carries(b, t, st)
  {
    if Carries(a, t, st) {
      var r :| r in a && r.t == t && r.st == Some(st);
      assert r in a + b;
    }
    if Carries(b, t, st) {
      var r :| r in b && r.t == t && r.st == Some(st);
      assert r in a + b;
    }
  }

  lemma CombineRepresents(target: State, rows: seq<CounterSample>, source: State, more: seq<CounterSample>,
                          destructive: bool)
    requires Represents(target, rows) && Represents(source, more)
    ensures Represents(CombineOne(target, source, destructive).0, rows + more)
    ensures Represents(CombineOne(target, source, destructive).1,
                       if destructive && target.None? && source.Some? then [] else more)
  {
    hide DedupPolicy;
    if source.None? {
      assert rows + more == rows;
    } else if target.None? && destructive {
      assert rows + more == more;
    } else {
      var p := WithPayload(target);
      StandsForMerged(p.buffer, Strip(rows), source.value.buffer, Strip(more));
      assert Strip(rows + more) == Strip(rows) + Strip(more);
      forall t, st ensures (t, st) in p.stPairs + source.value.stPairs <==> Carries(rows + more, t, st) {
        CarriesConcat(rows, more, t, st);
        assert (t, st) in p.stPairs <==> Carries(rows, t, st);
        assert (t, st) in source.value.stPairs <==> Carries(more, t, st);
      }
    }
  }

  /** A combine loses and invents no sample and no pair: the target gains exactly the source's, the
      pairs after its own, the source keeps its own unless its payload itself was moved, and no other
      state changes. */
  lemma CombineConservesSamples(states: seq<State>, s: nat, t: nat, destructive: bool, hasSt: bool)
    requires s < |states| && t < |states| && s != t
    ensures var r := Step(states, Combine(s, t, destructive), hasSt);
      && (states[s].None? ==> r[t] == states[t])
      && (states[t].None? ==> r[t] == states[s])
      && (states[s].Some? && states[t].Some? ==>
            && r[t].Some?
            && multiset(r[t].value.buffer) == multiset(states[t].value.buffer) + multiset(states[s].value.buffer)
            && r[t].value.stPairs == states[t].value.stPairs + states[s].value.stPairs)
      && (r[s] != states[s] ==> destructive && states[t].None? && r[s].None? && r[t] == states[s])
      && (!destructive ==> r[s] == states[s])
      && forall i :: 0 <= i < |states| && i != s && i != t ==> r[i] == states[i]
  {
    if states[s].Some? {
      var p := states[s].value;
      assert [] + p.buffer == p.buffer && [] + p.stPairs == p.stPairs;
    }
  }

  /** After every run from empty states, each state stands for exactly the rows of its history. */
  lemma {:induction false} EveryStateRepresentsItsHistory(n: nat, ops: seq<Op>, hasSt: bool)
    requires AllAllowed(ops, n)
    ensures forall i :: 0 <= i < n ==> Represents(Run(Fresh(n), ops, hasSt)[i], Histories(n, ops, hasSt)[i])
    decreases |ops|
  {
    if ops != [] {
      var init, op := ops[..|ops| - 1], ops[|ops| - 1];
      EveryStateRepresentsItsHistory(n, init, hasSt);
      StepRepresents(Run(Fresh(n), init, hasSt), Histories(n, init, hasSt), op, hasSt);
    }
  }

  lemma StepRepresents(states: seq<State>, histories: seq<seq<CounterSample>>, op: Op, hasSt: bool)
    requires |states| == |histories| && Allowed(op, |states|)
    requires forall i :: 0 <= i < |states| ==> Represents(states[i], histories[i])
    ensures forall i :: 0 <= i < |states| ==>
              Represents(Step(states, op, hasSt)[i], HistoryStep(states, histories, op, hasSt)[i])
  {
    hide Represents, UpdateOne, CombineOne, FinalizedView;
    match op
    case Update(t, row) =>
      if Counted(row) {
        UpdateRepresents(states[t], histories[t], row, hasSt);
      } else {
        UncountedUpdates(states[t], row, hasSt);
      }
    case Combine(s, t, destructive) =>
      CombineRepresents(states[t], histories[t], states[s], histories[s], destructive);
    case Finalize(i) =>
      FinalizedRepresents(states[i], histories[i]);
    case Destroy(i) =>
      NoneRepresentsNothing();
  }

  lemma UncountedUpdates(state: State, r: InRow, hasSt: bool)
    requires !Counted(r)
    ensures UpdateOne(state, r, hasSt) == state
  {
  }

  lemma NoneRepresentsNothing()
    ensures Represents(None, [])
  {
  }

  lemma FinalizedRepresents(state: State, rows: seq<CounterSample>)
    requires Represents(state, rows)
    ensures Represents(FinalizedView(state), rows)
  {
    if state.Some? {
      SortDedupOfStandIn(state.value.buffer, Strip(rows));
    }
  }

  // ---- determinism ----

  /** One state updated with all rows, in the given order. */
  function UpdateAll(rows: seq<InRow>, hasSt: bool): State {
    if rows == [] then None else UpdateOne(UpdateAll(rows[..|rows| - 1], hasSt), rows[|rows| - 1], hasSt)
  }

  function CountedRows(rows: seq<InRow>, hasSt: bool): seq<CounterSample> {
    if rows == [] then []
    else
      var init, last := CountedRows(rows[..|rows| - 1], hasSt), rows[|rows| - 1];
      if Counted(last) then init + [AsCounter(last, hasSt)] else init
  }

  /** The readings of rows, row by row: one for each row with a timestamp and a value, with the
      row's start timestamp when the call has them. */
  lemma CountedOneMore(rows: seq<InRow>, r: InRow, hasSt: bool)
    ensures CountedRows(rows + [r], hasSt)
         == CountedRows(rows, hasSt)
            + if r.ts.None? || r.value.None? then []
              else [Reading(r.ts.value, r.value.value, if hasSt then r.st else None)]
  {
    assert (rows + [r])[..|rows|] == rows;
  }

  /** Some row has these parts. */
  ghost predicate IsReadingOf(rows: seq<InRow>, x: CounterSample, hasSt: bool) {
    exists r :: r in rows && r.ts == Some(x.t) && r.value == Some(x.v) && x.st == if hasSt then r.st else None
  }

  lemma {:induction false} CountedMembers(rows: seq<InRow>, hasSt: bool)
    ensures forall x :: x in CountedRows(rows, hasSt) <==> IsReadingOf(rows, x, hasSt)
  {
    if rows != [] {
      var init, last := rows[..|rows| - 1], rows[|rows| - 1];
      CountedMembers(init, hasSt);
      assert rows == init + [last];
      CountedOneMore(init, last, hasSt);
      hide CountedRows;
      forall x ensures x in CountedRows(rows, hasSt) <==> IsReadingOf(rows, x, hasSt) {
        assert IsReadingOf(rows, x, hasSt) <==>
               || IsReadingOf(init, x, hasSt)
               || (last.ts == Some(x.t) && last.value == Some(x.v) && x.st == if hasSt then last.st else None);
      }
    }
  }

  // ---- the rows that were handed in ----

  /** The rows, as they came, that the updates of a run handed to each state or to one that was
      combined into it. */
  function HandedStep(states: seq<State>, handed: seq<seq<InRow>>, op: Op): (r: seq<seq<InRow>>)
    requires |states| == |handed| && Allowed(op, |states|)
    ensures |r| == |handed|
  {
    match op
    case Update(t, row) => handed[t := handed[t] + [row]]
    case Combine(s, t, destructive) =>
      var moved := destructive && states[t].None? && states[s].Some?;
      handed[t := handed[t] + handed[s]][s := if moved then [] else handed[s]]
    case Finalize(_) => handed
    case Destroy(i) => handed[i := []]
  }

  function Handed(n: nat, ops: seq<Op>, hasSt: bool): (r: seq<seq<InRow>>)
    requires AllAllowed(ops, n)
    ensures |r| == n
  {
    if ops == [] then seq(n, i => [])
    else
      var init := ops[..|ops| - 1];
      HandedStep(Run(Fresh(n), init, hasSt), Handed(n, init, hasSt), ops[|ops| - 1])
  }

  lemma {:induction false} CountedConcat(a: seq<InRow>, b: seq<InRow>, hasSt: bool)
    ensures CountedRows(a + b, hasSt) == CountedRows(a, hasSt) + CountedRows(b, hasSt)
    decreases |b|
  {
    if b == [] {
      assert a + b == a;
    } else {
      var n := |b| - 1;
      CountedConcat(a, b[..n], hasSt);
      assert (a + b)[..|a + b| - 1] == a + b[..n];
    }
  }

  /** After every run, what a state stands for is exactly the readings of the rows handed to it. */
  lemma {:induction false} HistoriesAreTheHandedRows(n: nat, ops: seq<Op>, hasSt: bool)
    requires AllAllowed(ops, n)
    ensures forall i :: 0 <= i < n ==> Histories(n, ops, hasSt)[i] == CountedRows(Handed(n, ops, hasSt)[i], hasSt)
    decreases |ops|
  {
    if ops != [] {
      var init := ops[..|ops| - 1];
      HistoriesAreTheHandedRows(n, init, hasSt);
      var states := Run(Fresh(n), init, hasSt);
      OneMoreHanded(states, Histories(n, init, hasSt), Handed(n, init, hasSt), ops[|ops| - 1], hasSt);
    }
  }

  lemma NoRowsNoReadings(hasSt: bool)
    ensures CountedRows([], hasSt) == []
  {
  }

  lemma OneMoreHanded(states: seq<State>, histories: seq<seq<CounterSample>>, handed: seq<seq<InRow>>, op: Op,
                      hasSt: bool)
    requires |states| == |histories| == |handed| && Allowed(op, |states|)
    requires forall i :: 0 <= i < |states| ==> histories[i] == CountedRows(handed[i], hasSt)
    ensures forall i :: 0 <= i < |states| ==>
              HistoryStep(states, histories, op, hasSt)[i] == CountedRows(HandedStep(states, handed, op)[i], hasSt)
  {
    hide CountedRows;
    NoRowsNoReadings(hasSt);
    match op
    case Update(t, row) =>
      CountedOneMore(handed[t], row, hasSt);
      assert histories[t] + [] == histories[t];
    case Combine(s, t, _) => CountedConcat(handed[t], handed[s], hasSt);
    case Finalize(_) =>
    case Destroy(_) =>
  }

  /** The rows that updates alone hand to a state, in order. */
  function RowsFor(ops: seq<Op>, i: nat): seq<InRow> {
    if ops == [] then []
    else
      var init, last := RowsFor(ops[..|ops| - 1], i), ops[|ops| - 1];
      if last.Update? && last.target == i then init + [last.row] else init
  }

  lemma {:induction false} UpdatesHandTheirRows(n: nat, ops: seq<Op>, hasSt: bool)
    requires AllAllowed(ops, n) && forall k :: 0 <= k < |ops| ==> ops[k].Update?
    ensures forall i :: 0 <= i < n ==> Handed(n, ops, hasSt)[i] == RowsFor(ops, i)
    decreases |ops|
  {
    if ops != [] {
      UpdatesHandTheirRows(n, ops[..|ops| - 1], hasSt);
    }
  }

  lemma {:induction false} UpdateAllRepresents(rows: seq<InRow>, hasSt: bool)
    ensures Represents(UpdateAll(rows, hasSt), CountedRows(rows, hasSt))
  {
    if rows != [] {
      var init, last := rows[..|rows| - 1], rows[|rows| - 1];
      UpdateAllRepresents(init, hasSt);
      if Counted(last) {
        UpdateRepresents(UpdateAll(init, hasSt), CountedRows(init, hasSt), last, hasSt);
      }
    }
  }

  /** Two states that stand for the same rows yield the same list. */
  lemma RepresentedPointsAgree(ar: Arith<Bits>, a: State, rows: seq<CounterSample>, b: State, rows': seq<CounterSample>,
                               grid: Grid, window: int, hasSt: bool)
    requires grid.Valid() && Represents(a, rows) && Represents(b, rows') && SeenAgree(rows)
    requires forall r :: r in rows <==> r in rows'
    ensures FinalPoints(ar, a, grid, window, hasSt) == FinalPoints(ar, b, grid, window, hasSt)
  {
    hide DedupPolicy, SeenAgree, PointsOf, SeenAlike, StByT, SortDedup;
    assert rows != [] ==> rows[0] in rows';
    assert rows' != [] ==> rows'[0] in rows;
    if a.Some? {
      if hasSt {
        JoinsAreSeenAlike(a.value.buffer, a.value.stPairs, rows, b.value.buffer, b.value.stPairs, rows');
        PointsAlike(ar, FinalSeries(a.value, true), FinalSeries(b.value, true), None, grid, window);
      } else {
        UnjoinedIsDetermined(a.value.buffer, rows, b.value.buffer, rows');
      }
    }
  }

  lemma UnjoinedIsDetermined(buffer: seq<Sample>, rows: seq<CounterSample>, buffer': seq<Sample>,
                             rows': seq<CounterSample>)
    requires StandsFor(buffer, Strip(rows)) && StandsFor(buffer', Strip(rows'))
    requires forall r :: r in rows <==> r in rows'
    ensures SortDedup(buffer) == SortDedup(buffer')
  {
    SortDedupOfStandIn(buffer, Strip(rows));
    SortDedupOfStandIn(buffer', Strip(rows'));
    StripMembers(rows, rows');
    SortDedupIsCanonical(Strip(rows));
    SortDedupIsTheCanonicalForm(Strip(rows), Strip(rows'), SortDedup(Strip(rows)));
  }

  /** Determinism under any partition. Whatever run of updates, combines (destructive or not),
      finalizations and destructions led to a state, its list is the one that a single state
      gives when it is updated with the same rows, in any order and any multiplicity. The premise
      on the start timestamps is exact (`AnswersForgetOrderIffSeenAgree`). */
  lemma DeterministicUnderAnyPartition(ar: Arith<Bits>, n: nat, ops: seq<Op>, root: nat, rows: seq<InRow>, grid: Grid,
                                       window: int, hasSt: bool)
    requires AllAllowed(ops, n) && root < n && grid.Valid()
    requires forall r :: r in Histories(n, ops, hasSt)[root] <==> r in CountedRows(rows, hasSt)
    requires SeenAgree(CountedRows(rows, hasSt))
    ensures FinalPoints(ar, Run(Fresh(n), ops, hasSt)[root], grid, window, hasSt)
         == FinalPoints(ar, UpdateAll(rows, hasSt), grid, window, hasSt)
  {
    hide Represents, FinalPoints, SeenAgree, CountedRows;
    EveryStateRepresentsItsHistory(n, ops, hasSt);
    UpdateAllRepresents(rows, hasSt);
    RepresentedPointsAgree(ar, UpdateAll(rows, hasSt), CountedRows(rows, hasSt),
                           Run(Fresh(n), ops, hasSt)[root], Histories(n, ops, hasSt)[root], grid, window, hasSt);
  }

  /** The same on the rows themselves: the run's updates handed the root the rows of the single state
      that have a timestamp and a value, in any order and any multiplicity. */
  lemma DeterministicOnRows(ar: Arith<Bits>, n: nat, ops: seq<Op>, root: nat, rows: seq<InRow>, grid: Grid, window: int,
                            hasSt: bool)
    requires AllAllowed(ops, n) && root < n && grid.Valid()
    requires forall r: InRow :: r.ts.Some? && r.value.Some? ==> (r in Handed(n, ops, hasSt)[root] <==> r in rows)
    requires SeenAgree(CountedRows(rows, hasSt))
    ensures FinalPoints(ar, Run(Fresh(n), ops, hasSt)[root], grid, window, hasSt)
         == FinalPoints(ar, UpdateAll(rows, hasSt), grid, window, hasSt)
  {
    hide FinalPoints, CountedRows, Histories, Handed, SeenAgree, Run, UpdateAll;
    HistoriesAreTheHandedRows(n, ops, hasSt);
    var handed := Handed(n, ops, hasSt)[root];
    CountedMembers(handed, hasSt);
    CountedMembers(rows, hasSt);
    forall x ensures IsReadingOf(handed, x, hasSt) <==> IsReadingOf(rows, x, hasSt) {
    }
    DeterministicUnderAnyPartition(ar, n, ops, root, rows, grid, window, hasSt);
  }
}
