/** The aggregate states as the host sees them: pointers to heap payloads that updates allocate,
    combines move or copy, and destruction releases. */
module RateStates {
  import opened Readings
  import opened Grids
  import opened Dedup
  import opened Folds
  import opened Series
  import opened SampleBuffers
  import opened Aggregates

  class RatePayload {
    var buffer: seq<Sample>
    var stPairs: seq<(int, int)>
    // how often the destructor has run on this payload
    ghost var destructions: nat

    constructor ()
      ensures buffer == [] && stPairs == [] && destructions == 0
    {
      buffer, stPairs, destructions := [], [], 0;
    }
  }

  /** Sorts and deduplicates the payload in place, joins the start timestamps and folds every
      window. */
  method ComputeRatePoints(ar: Arith<Bits>, p: RatePayload, grid: Grid, window: int, hasSt: bool)
    returns (points: seq<Option<Bits>>)
    requires grid.Valid() && window > 0
    modifies p`buffer
    ensures p.buffer == SortDedup(old(p.buffer))
    ensures points == PointsOf(ar, FinalSeries(PayloadView(old(p.buffer), p.stPairs), hasSt), grid, window)
  {
    hide PointsOf, Collapse, StableSort;
    var sorted := StableSort(p.buffer);
    p.buffer := DedupSorted(sorted);
    SortDedupIsCanonical(old(p.buffer));
    var data := JoinStart(p.buffer, p.stPairs, hasSt);
    StripOfJoin(p.buffer, if hasSt then StByT(p.stPairs) else map[]);
    points := ComputePoints(ar, p.buffer, data, grid, window);
  }

  /** Finalizing a second time gives the same list. */
  lemma FinalizeIsRepeatable(ar: Arith<Bits>, state: State, grid: Grid, window: int, hasSt: bool)
    requires grid.Valid()
    ensures FinalPoints(ar, FinalizedView(state), grid, window, hasSt) == FinalPoints(ar, state, grid, window, hasSt)
  {
    if state.Some? {
      DedupAfterMerge(state.value.buffer, []);
    }
  }

  /** Finalizing any states, in any order and repeatedly, changes no state's list. */
  lemma {:induction false} FinalizingKeepsPoints(ar: Arith<Bits>, states: seq<State>, ops: seq<Op>, k: nat, grid: Grid,
                                                 window: int, hasSt: bool)
    requires AllAllowed(ops, |states|) && k < |states| && grid.Valid()
    requires forall i :: 0 <= i < |ops| ==> ops[i].Finalize?
    ensures FinalPoints(ar, Run(states, ops, hasSt)[k], grid, window, hasSt)
         == FinalPoints(ar, states[k], grid, window, hasSt)
    decreases |ops|
  {
    hide FinalPoints, FinalizedView;
    if ops != [] {
      var init := ops[..|ops| - 1];
      FinalizingKeepsPoints(ar, states, init, k, grid, window, hasSt);
      FinalizeIsRepeatable(ar, Run(states, init, hasSt)[k], grid, window, hasSt);
    }
  }

  /** What one combine does to the values, case by case. */
  lemma CombineCases(states: seq<State>, s: nat, t: nat, destructive: bool, hasSt: bool)
    requires Allowed(Combine(s, t, destructive), |states|)
    ensures Step(states, Combine(s, t, destructive), hasSt)
         == if states[s].None? then states
            else if states[t].None? && destructive then states[t := states[s]][s := None]
            else states[t := Some(PayloadView(WithPayload(states[t]).buffer + states[s].value.buffer,
                                              WithPayload(states[t]).stPairs + states[s].value.stPairs))]
  {
  }

  // ---- the list vector the finalizer writes ----

  datatype ListEntry = ListEntry(valid: bool, offset: nat, length: nat)

  /** The entry describes `points` inside `child`; a NULL list has length zero. */
  ghost predicate Describes(e: ListEntry, points: Option<seq<Option<Bits>>>, child: seq<Option<Bits>>) {
    && e.offset + e.length <= |child|
    && e.valid == points.Some?
    && child[e.offset..e.offset + e.length] == if points.Some? then points.value else []
  }

  /** The entries tile the child from `start` to `end` in order. */
  ghost predicate Tile(entries: seq<ListEntry>, start: nat, end: nat) {
    if entries == [] then start == end
    else
      var last := entries[|entries| - 1];
      last.offset + last.length == end && Tile(entries[..|entries| - 1], start, last.offset)
  }

  /** What a reader of the vector finds at an entry. */
  function ReadEntry(e: ListEntry, child: seq<Option<Bits>>): Option<seq<Option<Bits>>>
    requires e.offset + e.length <= |child|
  {
    if e.valid then Some(child[e.offset..e.offset + e.length]) else None
  }

  lemma EntryReadsBack(e: ListEntry, points: Option<seq<Option<Bits>>>, child: seq<Option<Bits>>)
    ensures Describes(e, points, child) <==>
            && e.offset + e.length <= |child|
            && ReadEntry(e, child) == points
            && (points == None ==> e.length == 0)
  {
  }

  /** Entries tile the child exactly when each starts where the one before it ends. */
  lemma {:induction false} TilesAreContiguous(entries: seq<ListEntry>, start: nat, end: nat)
    ensures Tile(entries, start, end) <==>
            if entries == [] then start == end
            else
              && entries[0].offset == start
              && (forall i :: 0 < i < |entries| ==> entries[i].offset == entries[i - 1].offset + entries[i - 1].length)
              && entries[|entries| - 1].offset + entries[|entries| - 1].length == end
  {
    if |entries| > 0 {
      TilesAreContiguous(entries[..|entries| - 1], start, entries[|entries| - 1].offset);
    }
  }

  method LayOut(perGroup: seq<Option<seq<Option<Bits>>>>, child: seq<Option<Bits>>)
    returns (entries: seq<ListEntry>, child': seq<Option<Bits>>)
    ensures |entries| == |perGroup| && child <= child' && Tile(entries, |child|, |child'|)
    ensures forall i :: 0 <= i < |entries| ==> Describes(entries[i], perGroup[i], child')
  {
    hide Describes;
    entries, child' := [], child;
    for i := 0 to |perGroup|
      invariant |entries| == i && child <= child' && Tile(entries, |child|, |child'|)
      invariant forall k :: 0 <= k < i ==> Describes(entries[k], perGroup[k], child')
    {
      var points := if perGroup[i].Some? then perGroup[i].value else [];
      var e := ListEntry(perGroup[i].Some?, |child'|, |points|);
      forall k | 0 <= k < i ensures Describes(entries[k], perGroup[k], child' + points) {
        DescribesAfterAppend(entries[k], perGroup[k], child', points);
      }
      DescribesAppended(perGroup[i], child');
      assert (entries + [e])[..i] == entries;
      entries := entries + [e];
      child' := child' + points;
    }
  }

  lemma DescribesAfterAppend(e: ListEntry, points: Option<seq<Option<Bits>>>, child: seq<Option<Bits>>,
                             more: seq<Option<Bits>>)
    requires Describes(e, points, child)
    ensures Describes(e, points, child + more)
  {
  }

  lemma DescribesAppended(points: Option<seq<Option<Bits>>>, child: seq<Option<Bits>>)
    ensures var list := if points.Some? then points.value else [];
      Describes(ListEntry(points.Some?, |child|, |list|), points, child + list)
  {
  }

  class RateStateVector {
    // one pointer for each state; null until the first counted row
    const payloads: array<RatePayload?>

    // the value of each state, the state that owns each live payload, and every payload ever
    // allocated
    ghost var views: seq<State>
    ghost var owner: map<RatePayload, nat>
    ghost var made: set<RatePayload>

    /** Every live payload is reachable from exactly one state and has not been destroyed; every
        other payload ever made has been destroyed exactly once. */
    ghost predicate Valid()
      reads this, payloads, made, set i | 0 <= i < payloads.Length :: payloads[i]
    {
      && |views| == payloads.Length
      && (forall i :: 0 <= i < payloads.Length ==>
            if payloads[i] == null then views[i].None?
            else views[i] == Some(PayloadView(payloads[i].buffer, payloads[i].stPairs)))
      && (forall i :: 0 <= i < payloads.Length && payloads[i] != null ==>
            payloads[i] in owner && owner[payloads[i]] == i)
      && owner.Keys <= made
      && (forall p :: p in owner ==> owner[p] < payloads.Length && payloads[owner[p]] == p)
      && (forall p :: p in made ==> p.destructions == if p in owner then 0 else 1)
    }

    constructor (n: nat)
      ensures Valid() && payloads.Length == n && views == Fresh(n) && made == {}
    {
      payloads := new RatePayload?[n](_ => null);
      views := Fresh(n);
      owner := map[];
      made := {};
    }

    /** Allocates an empty payload for a state that has none. */
    method EnsurePayload(i: nat)
      requires Valid() && i < payloads.Length
      modifies this, payloads
      ensures Valid() && views == old(views)[i := Some(WithPayload(old(views)[i]))]
      ensures payloads[i] != null && (old(payloads[i]) != null ==> payloads[i] == old(payloads[i]))
      ensures forall k :: 0 <= k < payloads.Length && k != i ==> payloads[k] == old(payloads[k])
      ensures old(made) <= made && fresh(made - old(made))
    {
      if payloads[i] == null {
        var p := new RatePayload();
        payloads[i] := p;
        owner, made := owner[p := i], made + {p};
      }
      views := views[i := Some(WithPayload(views[i]))];
    }

    /** Appends samples and pairs to the payload of a state. */
    method Extend(i: nat, samples: seq<Sample>, pairs: seq<(int, int)>)
      requires Valid() && i < payloads.Length && payloads[i] != null
      modifies this`views, payloads[i]
      ensures Valid() && old(views)[i].Some?
      ensures views == old(views)[i := Some(PayloadView(old(views)[i].value.buffer + samples,
                                                         old(views)[i].value.stPairs + pairs))]
    {
      var p := payloads[i];
      p.buffer := p.buffer + samples;
      p.stPairs := p.stPairs + pairs;
      views := views[i := Some(PayloadView(p.buffer, p.stPairs))];
    }

    /** One row into one state: a row with a NULL timestamp or value leaves everything alone. */
    method UpdateRow(target: nat, row: InRow, hasSt: bool)
      requires Valid() && target < payloads.Length
      modifies this, payloads, made
      ensures Valid() && views == Step(old(views), Update(target, row), hasSt)
      ensures row.ts.None? || row.value.None? ==> views == old(views)
      ensures row.ts.Some? && row.value.Some? ==>
                && payloads[target] != null
                && payloads[target].buffer
                   == (if old(payloads[target]) == null then [] else old(payloads[target].buffer))
                      + [Reading(row.ts.value, row.value.value, ())]
                && payloads[target].stPairs
                   == (if old(payloads[target]) == null then [] else old(payloads[target].stPairs))
                      + if hasSt && row.st.Some? then [(row.ts.value, row.st.value)] else []
      ensures old(made) <= made && fresh(made - old(made))
    {
      hide CombineOne, FinalizedView;
      ghost var was := views;
      if row.ts.None? || row.value.None? {
        assert views == views[target := views[target]];
        return;
      }
      EnsurePayload(target);
      Extend(target, [Reading(row.ts.value, row.value.value, ())],
             if hasSt && row.st.Some? then [(row.ts.value, row.st.value)] else []);
      ghost var p := WithPayload(was[target]);
      assert p.stPairs + [] == p.stPairs;
    }

    /** Moves a payload into a state that has none. */
    method MovePayload(source: nat, target: nat)
      requires Valid() && source < payloads.Length && target < payloads.Length && source != target
      requires payloads[source] != null && payloads[target] == null
      modifies this, payloads
      ensures Valid() && views == old(views)[target := old(views)[source]][source := None]
      ensures made == old(made)
    {
      payloads[target] := payloads[source];
      payloads[source] := null;
      owner := owner[payloads[target] := target];
      views := views[target := views[source]][source := None];
    }

    /** One source into one target: a destructive combine into an empty target moves the payload,
        every other combine copies its contents. */
    method CombinePair(source: nat, target: nat, destructive: bool, hasSt: bool)
      requires Valid() && Allowed(Combine(source, target, destructive), payloads.Length)
      modifies this, payloads, made
      ensures Valid() && views == Step(old(views), Combine(source, target, destructive), hasSt)
      ensures old(made) <= made && fresh(made - old(made))
    {
      hide Step;
      CombineCases(views, source, target, destructive, hasSt);
      if payloads[source] == null {
        return;
      }
      if payloads[target] == null && destructive {
        MovePayload(source, target);
        return;
      }
      EnsurePayload(target);
      Extend(target, payloads[source].buffer, payloads[source].stPairs);
    }

    /** Runs the destructor of a state's payload, if it has one, and forgets it. */
    method DestroyState(i: nat, hasSt: bool)
      requires Valid() && i < payloads.Length
      modifies this, payloads, made
      ensures Valid() && views == Step(old(views), Destroy(i), hasSt) && made == old(made)
      ensures payloads[i] == null
      ensures forall k :: 0 <= k < payloads.Length && k != i ==> payloads[k] == old(payloads[k])
    {
      hide UpdateOne, CombineOne, FinalizedView;
      if payloads[i] != null {
        assert payloads[i].destructions == 0;
        payloads[i].destructions := payloads[i].destructions + 1;
        owner := owner - {payloads[i]};
        payloads[i] := null;
      }
      views := Step(views, Destroy(i), hasSt);
    }

    /** The points of one state, which is left deduplicated. */
    method FinalizeState(ar: Arith<Bits>, i: nat, grid: Grid, window: int, hasSt: bool)
      returns (points: Option<seq<Option<Bits>>>)
      requires Valid() && i < payloads.Length && grid.Valid() && window > 0
      modifies this`views, made
      ensures Valid() && views == Step(old(views), Op.Finalize(i), hasSt)
      ensures points == FinalPoints(ar, old(views)[i], grid, window, hasSt)
    {
      hide PointsOf, SortDedup, Join, StByT;
      if payloads[i] == null {
        points := None;
      } else {
        var computed := ComputeRatePoints(ar, payloads[i], grid, window, hasSt);
        points := Some(computed);
      }
      views := Step(views, Op.Finalize(i), hasSt);
    }

    // ---- the callbacks, over whole vectors of states ----

    method RateUpdate(rows: seq<InRow>, targets: seq<nat>, hasSt: bool)
      requires Valid() && |rows| == |targets| && AllAllowed(UpdateOps(rows, targets), payloads.Length)
      modifies this, payloads, made
      ensures Valid() && views == Run(old(views), UpdateOps(rows, targets), hasSt)
      ensures old(made) <= made && fresh(made - old(made))
    {
      hide Step;
      ghost var ops := UpdateOps(rows, targets);
      for i := 0 to |rows|
        invariant Valid() && views == Run(old(views), ops[..i], hasSt)
        invariant old(made) <= made && fresh(made - old(made))
      {
        assert Allowed(ops[i], payloads.Length);
        assert ops[..i + 1][..i] == ops[..i];
        UpdateRow(targets[i], rows[i], hasSt);
      }
      assert ops[..|ops|] == ops;
    }

    method RateCombine(sources: seq<nat>, targets: seq<nat>, destructive: bool, hasSt: bool)
      requires Valid() && |sources| == |targets|
      requires AllAllowed(CombineOps(sources, targets, destructive), payloads.Length)
      modifies this, payloads, made
      ensures Valid() && views == Run(old(views), CombineOps(sources, targets, destructive), hasSt)
      ensures old(made) <= made && fresh(made - old(made))
    {
      hide Step;
      ghost var ops := CombineOps(sources, targets, destructive);
      for i := 0 to |sources|
        invariant Valid() && views == Run(old(views), ops[..i], hasSt)
        invariant old(made) <= made && fresh(made - old(made))
      {
        assert Allowed(ops[i], payloads.Length);
        assert ops[..i + 1][..i] == ops[..i];
        CombinePair(sources[i], targets[i], destructive, hasSt);
      }
      assert ops[..|ops|] == ops;
    }

    /** One list for each listed state, appended to the child vector: the lists tile what was
        appended, and each holds its state's points; a state without a payload gets NULL. */
    method RateFinalize(ar: Arith<Bits>, states: seq<nat>, grid: Grid, window: int, hasSt: bool,
                        child: seq<Option<Bits>>)
      returns (entries: seq<ListEntry>, child': seq<Option<Bits>>)
      requires Valid() && AllAllowed(FinalizeOps(states), payloads.Length) && grid.Valid() && window > 0
      modifies this`views, made
      ensures Valid() && views == Run(old(views), FinalizeOps(states), hasSt)
      ensures |entries| == |states| && child <= child' && Tile(entries, |child|, |child'|)
      ensures forall i :: 0 <= i < |states| ==> states[i] < |old(views)|
      ensures forall i :: 0 <= i < |entries| ==>
                Describes(entries[i], FinalPoints(ar, old(views)[states[i]], grid, window, hasSt), child')
    {
      hide FinalPoints, Run, Describes, Tile;
      var perGroup := FinalizeEach(ar, states, grid, window, hasSt);
      entries, child' := LayOut(perGroup, child);
    }

    method FinalizeEach(ar: Arith<Bits>, states: seq<nat>, grid: Grid, window: int, hasSt: bool)
      returns (perGroup: seq<Option<seq<Option<Bits>>>>)
      requires Valid() && AllAllowed(FinalizeOps(states), payloads.Length) && grid.Valid() && window > 0
      modifies this`views, made
      ensures Valid() && views == Run(old(views), FinalizeOps(states), hasSt)
      ensures |perGroup| == |states|
      ensures forall i :: 0 <= i < |states| ==> states[i] < |old(views)|
      ensures forall i :: 0 <= i < |states| ==>
                perGroup[i] == FinalPoints(ar, old(views)[states[i]], grid, window, hasSt)
    {
      hide FinalPoints, Step;
      ghost var ops := FinalizeOps(states);
      perGroup := [];
      for i := 0 to |states|
        invariant Valid() && views == Run(old(views), ops[..i], hasSt)
        invariant |perGroup| == i
        invariant forall k :: 0 <= k < i ==> states[k] < |old(views)|
        invariant forall k :: 0 <= k < i ==>
                    perGroup[k] == FinalPoints(ar, old(views)[states[k]], grid, window, hasSt)
      {
        assert Allowed(ops[i], payloads.Length);
        assert ops[..i + 1][..i] == ops[..i];
        FinalizingKeepsPoints(ar, old(views), ops[..i], states[i], grid, window, hasSt);
        var points := FinalizeState(ar, states[i], grid, window, hasSt);
        perGroup := perGroup + [points];
      }
      assert ops[..|ops|] == ops;
    }

    /** Once every state has been listed, every payload ever made has been destroyed, once. */
    method RateDestroy(states: seq<nat>, hasSt: bool)
      requires Valid() && AllAllowed(DestroyOps(states), payloads.Length)
      modifies this, payloads, made
      ensures Valid() && views == Run(old(views), DestroyOps(states), hasSt) && made == old(made)
      ensures (forall i :: 0 <= i < payloads.Length ==> i in states) ==> forall p :: p in made ==> p.destructions == 1
    {
      hide Step;
      ghost var ops := DestroyOps(states);
      for i := 0 to |states|
        invariant Valid() && views == Run(old(views), ops[..i], hasSt) && made == old(made)
        invariant forall k :: 0 <= k < payloads.Length && k in states[..i] ==> payloads[k] == null
      {
        assert Allowed(ops[i], payloads.Length);
        assert ops[..i + 1][..i] == ops[..i];
        DestroyState(states[i], hasSt);
        assert states[..i + 1] == states[..i] + [states[i]];
      }
      assert ops[..|ops|] == ops;
      assert states[..|states|] == states;
    }
  }

  ghost function FinalizeOps(states: seq<nat>): (r: seq<Op>)
    ensures |r| == |states| && forall i :: 0 <= i < |r| ==> r[i] == Op.Finalize(states[i])
  {
    seq(|states|, i requires 0 <= i < |states| => Op.Finalize(states[i]))
  }

  ghost function UpdateOps(rows: seq<InRow>, targets: seq<nat>): (r: seq<Op>)
    requires |rows| == |targets|
    ensures |r| == |rows| && forall i :: 0 <= i < |r| ==> r[i] == Update(targets[i], rows[i])
  {
    seq(|rows|, i requires 0 <= i < |rows| => Update(targets[i], rows[i]))
  }

  ghost function CombineOps(sources: seq<nat>, targets: seq<nat>, destructive: bool): (r: seq<Op>)
    requires |sources| == |targets|
    ensures |r| == |sources| && forall i :: 0 <= i < |r| ==> r[i] == Combine(sources[i], targets[i], destructive)
  {
    seq(|sources|, i requires 0 <= i < |sources| => Combine(sources[i], targets[i], destructive))
  }

  ghost function DestroyOps(states: seq<nat>): (r: seq<Op>)
    ensures |r| == |states| && forall i :: 0 <= i < |r| ==> r[i] == Destroy(states[i])
  {
    seq(|states|, i requires 0 <= i < |states| => Destroy(states[i]))
  }
}
