/** The plan rewrite that narrows a scan to the rate's time range. */
module Pushdown {
  import opened Readings
  import opened Grids
  import opened Windows
  import opened Folds
  import opened Dedup
  import opened Series
  import opened SeenStamps
  import opened Aggregates
  import opened Operators
  import opened ScanBounds

  // ---- plans ----

  datatype Val = Null | Ticks(t: int) | Word(v: Bits)

  datatype Binding = Binding(table: nat, column: nat)

  /** One row as its consumers see it: a value for each exposed binding. */
  type Env = map<Binding, Val>

  function Lookup(env: Env, b: Binding): Val {
    if b in env then env[b] else Null
  }

  datatype Expr = ColumnRef(binding: Binding) | Computed(eval: Env -> Val)

  function Eval(e: Expr, env: Env): Val {
    match e
    case ColumnRef(b) => Lookup(env, b)
    case Computed(f) => f(env)
  }

  /** One row of a stored table: a value for each storage column. */
  type StorageRow = nat -> Val

  /** A pushed comparison with a constant, which no NULL passes, or any other filter. */
  datatype TableFilter =
    | AtLeast(column: nat, bound: int)
    | AtMost(column: nat, bound: int)
    | OtherFilter(column: nat, holds: Val -> bool)

  predicate Passes(f: TableFilter, row: StorageRow) {
    var v := row(f.column);
    match f
    case AtLeast(_, x) => v.Ticks? && v.t >= x
    case AtMost(_, x) => v.Ticks? && v.t <= x
    case OtherFilter(_, holds) => holds(v)
  }

  predicate PassesAll(fs: seq<TableFilter>, row: StorageRow) {
    forall i :: 0 <= i < |fs| ==> Passes(fs[i], row)
  }

  /** A scan of a stored table, or a table function fed by a child. */
  class LogicalGet {
    const tableIndex: nat
    const functionName: string
    const columnIds: seq<nat>
    const projectionIds: seq<nat>
    const storage: seq<StorageRow>
    var tableFilters: seq<TableFilter>

    constructor (tableIndex: nat, functionName: string, columnIds: seq<nat>, projectionIds: seq<nat>,
                 storage: seq<StorageRow>)
      ensures this.tableIndex == tableIndex && this.functionName == functionName && this.columnIds == columnIds
      ensures this.projectionIds == projectionIds && this.storage == storage && tableFilters == []
    {
      this.tableIndex, this.functionName, this.columnIds := tableIndex, functionName, columnIds;
      this.projectionIds, this.storage, this.tableFilters := projectionIds, storage, [];
    }

    function Exposed(): nat {
      if projectionIds == [] then |columnIds| else |projectionIds|
    }

    /** The storage column behind the `k`-th exposed one. */
    function StorageColumn(k: nat): Option<nat> {
      if projectionIds != [] && k >= |projectionIds| then None
      else
        var pos := if projectionIds == [] then k else projectionIds[k];
        if pos >= |columnIds| then None else Some(columnIds[pos])
    }
  }

  datatype Plan =
    | Filter(condition: Env -> bool, projectionMap: seq<nat>, child: Plan)
    | Projection(tableIndex: nat, expressions: seq<Expr>, child: Plan)
    | Get(get: LogicalGet, children: seq<Plan>)
    | OtherOperator(bindings: seq<Binding>, output: seq<Env>)

  const SCAN_FUNCTION: string := "seq_scan"
  const PASSTHROUGH: string := "__ts_rate_operator_input"

  predicate IsPushableScanFunction(name: string) {
    name == SCAN_FUNCTION
  }

  predicate IsPassthrough(p: Plan) {
    p.Get? && |p.children| == 1 && p.get.functionName == PASSTHROUGH
  }

  /** What a node exposes to its parent, in order. */
  function ColumnBindings(p: Plan): seq<Binding> {
    match p
    case Filter(_, positions, child) =>
      var below := ColumnBindings(child);
      if positions == [] then below
      else
        seq(|positions|, i requires 0 <= i < |positions| =>
          if positions[i] < |below| then below[positions[i]] else Binding(0, 0))
    case Projection(ti, exprs, _) => seq(|exprs|, i requires 0 <= i < |exprs| => Binding(ti, i))
    case Get(get, _) => seq(get.Exposed(), i requires 0 <= i < get.Exposed() => Binding(get.tableIndex, i))
    case OtherOperator(bindings, _) => bindings
  }

  // ---- what a plan yields ----

  function KeepIf<T>(s: seq<T>, p: T -> bool): seq<T> {
    if s == [] then []
    else
      var init, last := KeepIf(s[..|s| - 1], p), s[|s| - 1];
      if p(last) then init + [last] else init
  }

  function MapAll<T, U>(s: seq<T>, f: T -> U): (r: seq<U>)
    ensures |r| == |s| && forall i :: 0 <= i < |r| ==> r[i] == f(s[i])
  {
    seq(|s|, i requires 0 <= i < |s| => f(s[i]))
  }

  /** The row restricted to the bindings a node exposes. */
  function Restrict(env: Env, bindings: seq<Binding>): Env {
    map b | b in bindings && b in env :: env[b]
  }

  /** The row whose `k`-th exposed column is `cell(k)`. */
  function RowOf(table: nat, n: nat, cell: nat -> Val): Env {
    map k | 0 <= k < n :: Binding(table, k) := cell(k)
  }

  function ScanCell(get: LogicalGet, row: StorageRow, k: nat): Val {
    match get.StorageColumn(k)
    case None => Null
    case Some(c) => row(c)
  }

  function Passing(fs: seq<TableFilter>): StorageRow -> bool {
    (row: StorageRow) => PassesAll(fs, row)
  }

  function Exposing(get: LogicalGet): StorageRow -> Env {
    (row: StorageRow) => RowOf(get.tableIndex, get.Exposed(), (k: nat) => ScanCell(get, row, k))
  }

  type Filters = map<LogicalGet, seq<TableFilter>>

  /** The rows of a plan, in order, when its scans carry the given filters. The passthrough gives
      on its child's columns by position. */
  function RowsUnder(p: Plan, filters: Filters): seq<Env> {
    match p
    case Filter(condition, _, child) =>
      MapAll(KeepIf(RowsUnder(child, filters), condition), (env: Env) => Restrict(env, ColumnBindings(p)))
    case Projection(ti, exprs, child) =>
      MapAll(RowsUnder(child, filters), (env: Env) =>
        RowOf(ti, |exprs|, (k: nat) => if k < |exprs| then Eval(exprs[k], env) else Null))
    case Get(get, children) =>
      if IsPassthrough(p) then
        var below := ColumnBindings(children[0]);
        MapAll(RowsUnder(children[0], filters), (env: Env) =>
          RowOf(get.tableIndex, get.Exposed(), (k: nat) => if k < |below| then Lookup(env, below[k]) else Null))
      else
        var fs := if get in filters then filters[get] else [];
        MapAll(KeepIf(get.storage, Passing(fs)), Exposing(get))
    case OtherOperator(_, output) => output
  }

  /** What a planner guarantees: an expression names a column its child exposes, a projection map
      names columns of its child, and the passthrough exposes its child's columns one by one. */
  ghost predicate WellFormed(p: Plan) {
    match p
    case Filter(_, positions, child) =>
      WellFormed(child) && forall i :: 0 <= i < |positions| ==> positions[i] < |ColumnBindings(child)|
    case Projection(_, exprs, child) =>
      && WellFormed(child)
      && forall i :: 0 <= i < |exprs| && exprs[i].ColumnRef? ==> exprs[i].binding in ColumnBindings(child)
    case Get(get, children) =>
      IsPassthrough(p) ==> WellFormed(children[0]) && get.Exposed() == |ColumnBindings(children[0])|
    case OtherOperator(_, _) => true
  }

  // ---- plans, shape by shape ----

  /** What each shape exposes: a filter its child's columns, at the positions of its projection map
      when it has one; a projection its expressions; a table function its columns, which are its
      projection ids when it has any. */
  lemma BindingsByShape(p: Plan)
    ensures p.Filter? && p.projectionMap == [] ==> ColumnBindings(p) == ColumnBindings(p.child)
    ensures p.Filter? && p.projectionMap != [] ==>
              |ColumnBindings(p)| == |p.projectionMap| &&
              forall i :: 0 <= i < |p.projectionMap| && p.projectionMap[i] < |ColumnBindings(p.child)| ==>
                ColumnBindings(p)[i] == ColumnBindings(p.child)[p.projectionMap[i]]
    ensures p.Projection? ==>
              |ColumnBindings(p)| == |p.expressions| &&
              forall i :: 0 <= i < |p.expressions| ==> ColumnBindings(p)[i] == Binding(p.tableIndex, i)
    ensures p.Get? ==>
              |ColumnBindings(p)| == (if |p.get.projectionIds| > 0 then |p.get.projectionIds| else |p.get.columnIds|) &&
              forall i :: 0 <= i < |ColumnBindings(p)| ==> ColumnBindings(p)[i] == Binding(p.get.tableIndex, i)
    ensures p.OtherOperator? ==> ColumnBindings(p) == p.bindings
  {
  }

  /** A filter yields, in order, the rows of its child that meet the condition, cut down to the
      columns it exposes. */
  lemma FilterYields(condition: Env -> bool, positions: seq<nat>, child: Plan, filters: Filters, i: nat, b: Binding)
    ensures var p := Filter(condition, positions, child);
      var kept := KeepIf(RowsUnder(child, filters), condition);
      && |RowsUnder(p, filters)| == |kept|
      && (i < |kept| ==>
            Lookup(RowsUnder(p, filters)[i], b) == if b in ColumnBindings(p) then Lookup(kept[i], b) else Null)
  {
    hide ColumnBindings, KeepIf;
  }

  /** A projection yields its expressions' values on each row of its child. */
  lemma ProjectionYields(table: nat, exprs: seq<Expr>, child: Plan, filters: Filters, i: nat, k: nat)
    requires i < |RowsUnder(child, filters)| && k < |exprs|
    ensures var rows := RowsUnder(Projection(table, exprs, child), filters);
      |rows| == |RowsUnder(child, filters)| &&
      Lookup(rows[i], Binding(table, k)) == Eval(exprs[k], RowsUnder(child, filters)[i])
  {
    assert Binding(table, k) in RowsUnder(Projection(table, exprs, child), filters)[i];
  }

  /** The passthrough yields its child's columns by position. */
  lemma PassthroughYields(get: LogicalGet, child: Plan, filters: Filters, i: nat, k: nat)
    requires WellFormed(Get(get, [child])) && get.functionName == "__ts_rate_operator_input"
    requires i < |RowsUnder(child, filters)| && k < |ColumnBindings(child)|
    ensures var rows := RowsUnder(Get(get, [child]), filters);
      |rows| == |RowsUnder(child, filters)| &&
      Lookup(rows[i], Binding(get.tableIndex, k)) == Lookup(RowsUnder(child, filters)[i], ColumnBindings(child)[k])
  {
    hide ColumnBindings;
    assert IsPassthrough(Get(get, [child]));
    assert Binding(get.tableIndex, k) in RowsUnder(Get(get, [child]), filters)[i];
  }

  /** A row passes when it passes every filter; no NULL passes a comparison. */
  lemma PassingIff(fs: seq<TableFilter>, row: StorageRow)
    ensures Passing(fs)(row) <==> forall f :: f in fs ==>
              match f
              case AtLeast(column, bound) => exists t :: row(column) == Ticks(t) && bound <= t
              case AtMost(column, bound) => exists t :: row(column) == Ticks(t) && t <= bound
              case OtherFilter(column, holds) => holds(row(column))
  {
    assert forall i :: 0 <= i < |fs| ==> fs[i] in fs;
  }

  /** A scan yields, in order, the stored rows that pass every filter it carries, each through the
      storage columns it exposes; so does a table function that is not the passthrough. */
  lemma ScanYields(get: LogicalGet, children: seq<Plan>, filters: Filters, i: nat, k: nat)
    requires get in filters && (|children| != 1 || get.functionName != "__ts_rate_operator_input")
    ensures var rows := RowsUnder(Get(get, children), filters);
      var kept := KeepIf(get.storage, Passing(filters[get]));
      && |rows| == |kept|
      && (i < |rows| && |get.projectionIds| == 0 && k < |get.columnIds| ==>
            Lookup(rows[i], Binding(get.tableIndex, k)) == kept[i](get.columnIds[k]))
      && (i < |rows| && k < |get.projectionIds| && get.projectionIds[k] < |get.columnIds| ==>
            Lookup(rows[i], Binding(get.tableIndex, k)) == kept[i](get.columnIds[get.projectionIds[k]]))
  {
    hide KeepIf;
    var rows := RowsUnder(Get(get, children), filters);
    assert i < |rows| && k < get.Exposed() ==> Binding(get.tableIndex, k) in rows[i];
  }

  /** What a planner guarantees, shape by shape: nothing of a scan or of an unknown operator. */
  lemma WellFormedByShape(p: Plan)
    ensures p.OtherOperator? || (p.Get? && p.children == []) ==> WellFormed(p)
    ensures p.Filter? ==>
              (WellFormed(p) <==>
               && WellFormed(p.child)
               && forall i :: 0 <= i < |p.projectionMap| ==> p.projectionMap[i] < |ColumnBindings(p.child)|)
    ensures p.Projection? ==>
              (WellFormed(p) <==>
               && WellFormed(p.child)
               && forall i, b :: 0 <= i < |p.expressions| && p.expressions[i] == ColumnRef(b) ==>
                    b in ColumnBindings(p.child))
    ensures p.Get? && |p.children| == 1 && p.get.functionName == "__ts_rate_operator_input" ==>
              (WellFormed(p) <==>
               WellFormed(p.children[0]) && |ColumnBindings(p)| == |ColumnBindings(p.children[0])|)
  {
  }

  // ---- resolving a binding ----

  /** Follows a binding down a chain of single children to the scan that produces it; the answer
      carries the binding rewritten to that scan's own columns. */
  function ResolveBindingToGet(children: seq<Plan>, binding: Binding): Option<(LogicalGet, Binding)>
  {
    if |children| != 1 then None else ResolveIn(children[0], binding)
  }

  function ResolveIn(child: Plan, binding: Binding): Option<(LogicalGet, Binding)> {
    match child
    case Filter(_, _, below) => ResolveIn(below, binding)
    case Projection(ti, exprs, below) =>
      if ti != binding.table || binding.column >= |exprs| then None
      else if !exprs[binding.column].ColumnRef? then None
      else ResolveIn(below, exprs[binding.column].binding)
    case Get(get, below) =>
      if get.tableIndex != binding.table then None
      else if below == [] then Some((get, binding))
      else if |below| != 1 || get.functionName != PASSTHROUGH then None
      else
        var bindings := ColumnBindings(below[0]);
        if binding.column >= |bindings| then None else ResolveIn(below[0], bindings[binding.column])
    case OtherOperator(_, _) => None
  }

  /** The scan and the storage column that a bound on `binding` would be pushed to. */
  function PushTarget(children: seq<Plan>, binding: Binding): Option<(LogicalGet, nat)> {
    match ResolveBindingToGet(children, binding)
    case None => None
    case Some((get, b)) =>
      if !IsPushableScanFunction(get.functionName) then None
      else
        match get.StorageColumn(b.column)
        case None => None
        case Some(column) => Some((get, column))
  }

  // ---- what the target is, shape by shape ----

  /** Through a filter the binding is looked up unchanged. */
  lemma TargetThroughFilter(condition: Env -> bool, positions: seq<nat>, child: Plan, b: Binding)
    ensures PushTarget([Filter(condition, positions, child)], b) == PushTarget([child], b)
  {
  }

  /** Through a projection it is the column that the expression at its position refers to; a computed
      expression, a position past the end or another table has no target. */
  lemma TargetThroughProjection(table: nat, expressions: seq<Expr>, child: Plan, b: Binding)
    ensures forall source ::
              b.table == table && b.column < |expressions| && expressions[b.column] == ColumnRef(source) ==>
              PushTarget([Projection(table, expressions, child)], b) == PushTarget([child], source)
    ensures b.table != table || b.column >= |expressions| || expressions[b.column].Computed? ==>
              PushTarget([Projection(table, expressions, child)], b) == None
  {
  }

  /** Through the passthrough it is the child's column at the same position; a table function with
      another name, another number of children, or another table has no target. */
  lemma TargetThroughGet(get: LogicalGet, children: seq<Plan>, b: Binding)
    requires children != []
    ensures |children| == 1 && get.functionName == "__ts_rate_operator_input" && b.table == get.tableIndex
            && b.column < |ColumnBindings(children[0])| ==>
              PushTarget([Get(get, children)], b) == PushTarget(children, ColumnBindings(children[0])[b.column])
    ensures |children| != 1 || get.functionName != "__ts_rate_operator_input" || b.table != get.tableIndex
            || b.column >= |ColumnBindings(children[0])| ==>
              PushTarget([Get(get, children)], b) == None
  {
  }

  /** At a leaf it is the stored column behind the exposed one, read through the projection ids when
      there are any; only DuckDB's own table scan is one. */
  lemma TargetAtLeaf(get: LogicalGet, b: Binding)
    ensures var position :=
        if get.projectionIds == [] then Some(b.column)
        else if b.column < |get.projectionIds| then Some(get.projectionIds[b.column]) else None;
      PushTarget([Get(get, [])], b)
      == if b.table == get.tableIndex && get.functionName == "seq_scan"
            && position.Some? && position.value < |get.columnIds|
         then Some((get, get.columnIds[position.value])) else None
  {
  }

  /** Any other operator, and any number of children but one, has none. */
  lemma NoTarget(children: seq<Plan>, b: Binding)
    requires |children| == 1 ==> children[0].OtherOperator?
    ensures PushTarget(children, b) == None
  {
  }

  // ---- and over whole chains ----

  /** One level of a chain: from a binding of a node to the binding of its only child that it comes
      from. */
  ghost predicate Descends(p: Plan, b: Binding, below: Plan, source: Binding) {
    match p
    case Filter(_, _, child) => below == child && source == b
    case Projection(table, expressions, child) =>
      && below == child && b.table == table && b.column < |expressions|
      && expressions[b.column] == ColumnRef(source)
    case Get(get, children) =>
      && children == [below] && get.functionName == "__ts_rate_operator_input" && b.table == get.tableIndex
      && b.column < |ColumnBindings(below)| && source == ColumnBindings(below)[b.column]
    case OtherOperator(_, _) => false
  }

  /** The level where a chain ends: a native scan that stores the column. */
  ghost predicate EndsAt(p: Plan, b: Binding, get: LogicalGet, column: nat) {
    && p == Get(get, []) && b.table == get.tableIndex && get.functionName == "seq_scan"
    && if get.projectionIds == [] then b.column < |get.columnIds| && column == get.columnIds[b.column]
       else
         && b.column < |get.projectionIds| && get.projectionIds[b.column] < |get.columnIds|
         && column == get.columnIds[get.projectionIds[b.column]]
  }

  /** The node that many levels down, while every node has one child. */
  function Level(p: Plan, depth: nat): Option<Plan> {
    if depth == 0 then Some(p)
    else
      match p
      case Filter(_, _, child) => Level(child, depth - 1)
      case Projection(_, _, child) => Level(child, depth - 1)
      case Get(_, children) => if |children| == 1 then Level(children[0], depth - 1) else None
      case OtherOperator(_, _) => None
  }

  /** The bindings of a chain, from the top one down to the scan's. */
  ghost predicate IsChain(p: Plan, path: seq<Binding>, get: LogicalGet, column: nat) {
    && path != []
    && (forall i :: 0 <= i < |path| ==> Level(p, i).Some?)
    && (forall i :: 0 < i < |path| ==> Descends(Level(p, i - 1).value, path[i - 1], Level(p, i).value, path[i]))
    && EndsAt(Level(p, |path| - 1).value, path[|path| - 1], get, column)
  }

  ghost predicate HasChain(p: Plan, b: Binding, get: LogicalGet, column: nat) {
    exists path :: IsChain(p, path, get, column) && path[0] == b
  }

  /** A bound on a binding is pushed to a scan's column if and only if a chain of filters, column
      references and passthroughs leads there. */
  lemma TargetIffChain(p: Plan, b: Binding, get: LogicalGet, column: nat)
    ensures PushTarget([p], b) == Some((get, column)) <==> HasChain(p, b, get, column)
  {
    if PushTarget([p], b) == Some((get, column)) {
      ChainOfTarget(p, b, get, column);
    }
    if HasChain(p, b, get, column) {
      var path :| IsChain(p, path, get, column) && path[0] == b;
      TargetOfChain(p, path, get, column);
    }
  }

  lemma {:induction false} TargetOfChain(p: Plan, path: seq<Binding>, get: LogicalGet, column: nat)
    requires IsChain(p, path, get, column)
    ensures PushTarget([p], path[0]) == Some((get, column))
    decreases |path|
  {
    if |path| == 1 {
      TargetAtLeaf(get, path[0]);
    } else {
      var below := Level(p, 1).value;
      assert Descends(Level(p, 0).value, path[0], Level(p, 1).value, path[1]);
      TargetDescends(p, path[0], below, path[1]);
      ChainTail(p, below, path, get, column);
      TargetOfChain(below, path[1..], get, column);
    }
  }

  /** The levels below a node's only child are the node's own, one further down. */
  lemma LevelShifts(p: Plan, b: Binding, below: Plan, source: Binding, depth: nat)
    requires Descends(p, b, below, source)
    ensures Level(p, depth + 1) == Level(below, depth)
  {
  }

  lemma ChainTail(p: Plan, below: Plan, path: seq<Binding>, get: LogicalGet, column: nat)
    requires IsChain(p, path, get, column) && |path| > 1 && Descends(p, path[0], below, path[1])
    ensures IsChain(below, path[1..], get, column)
  {
    hide Descends, EndsAt, Level;
    var rest := path[1..];
    forall i | 0 <= i < |rest| ensures Level(below, i) == Level(p, i + 1) {
      LevelShifts(p, path[0], below, path[1], i);
    }
    forall i | 0 < i < |rest| ensures Descends(Level(below, i - 1).value, rest[i - 1], Level(below, i).value, rest[i]) {
      assert Descends(Level(p, i).value, path[i], Level(p, i + 1).value, path[i + 1]);
    }
  }

  lemma ChainLonger(p: Plan, b: Binding, below: Plan, rest: seq<Binding>, get: LogicalGet, column: nat)
    requires IsChain(below, rest, get, column) && Descends(p, b, below, rest[0])
    ensures IsChain(p, [b] + rest, get, column)
  {
    hide Descends, EndsAt, Level;
    var path := [b] + rest;
    TopLevel(p);
    TopLevel(below);
    forall i | 0 <= i < |rest| ensures Level(p, i + 1) == Level(below, i) {
      LevelShifts(p, b, below, rest[0], i);
    }
    assert forall i :: 0 < i < |path| ==> Level(p, i) == Level(below, i - 1) by {
      forall i | 0 < i < |path| ensures Level(p, i) == Level(below, i - 1) {
        LevelShifts(p, b, below, rest[0], i - 1);
      }
    }
    forall i | 0 < i < |path| ensures Descends(Level(p, i - 1).value, path[i - 1], Level(p, i).value, path[i]) {
      if i > 1 {
        assert Descends(Level(below, i - 2).value, rest[i - 2], Level(below, i - 1).value, rest[i - 1]);
      }
    }
  }

  lemma TopLevel(p: Plan)
    ensures Level(p, 0) == Some(p)
  {
  }

  lemma TargetDescends(p: Plan, b: Binding, below: Plan, source: Binding)
    requires Descends(p, b, below, source)
    ensures PushTarget([p], b) == PushTarget([below], source)
  {
    hide ColumnBindings;
  }

  lemma {:induction false} ChainOfTarget(p: Plan, b: Binding, get: LogicalGet, column: nat)
    requires PushTarget([p], b) == Some((get, column))
    ensures HasChain(p, b, get, column)
    decreases p
  {
    hide ColumnBindings, PushTarget, Descends;
    if p.Get? && p.children == [] {
      TargetAtLeaf(p.get, b);
      assert p == Get(p.get, []);
      assert IsChain(p, [b], get, column);
    } else {
      var below, source := LevelBelow(p, b);
      TargetDescends(p, b, below, source);
      ChainOfTarget(below, source, get, column);
      var rest :| IsChain(below, rest, get, column) && rest[0] == source;
      ChainLonger(p, b, below, rest, get, column);
      assert ([b] + rest)[0] == b;
    }
  }

  /** A target above a leaf comes from the level below. */
  lemma LevelBelow(p: Plan, b: Binding) returns (below: Plan, source: Binding)
    requires PushTarget([p], b).Some? && !(p.Get? && p.children == [])
    ensures Descends(p, b, below, source) && below < p
  {
    hide ColumnBindings;
    match p {
      case Filter(_, _, child) =>
        below, source := child, b;
      case Projection(_, expressions, child) =>
        below, source := child, expressions[b.column].binding;
      case Get(_, children) =>
        assert children == [children[0]];
        below, source := children[0], ColumnBindings(children[0])[b.column];
      case OtherOperator(_, _) =>
        assert false;
    }
  }

  function BoundFilters(column: nat, b: Bounds): seq<TableFilter> {
    [AtLeast(column, b.lower), AtMost(column, b.upper)]
  }

  /** Would the comparison pair, as a filter above the whole chain, keep the row? */
  predicate AdmitsVal(b: Bounds, v: Val) {
    v.Ticks? && Admits(b, v.t)
  }

  // ---- filters commute ----

  lemma {:induction false} KeepSame<T>(s: seq<T>, p: T -> bool, q: T -> bool)
    requires forall x :: x in s ==> p(x) == q(x)
    ensures KeepIf(s, p) == KeepIf(s, q)
  {
    if s != [] {
      assert s[|s| - 1] in s;
      KeepSame(s[..|s| - 1], p, q);
    }
  }

  function Both<T>(p: T -> bool, q: T -> bool): T -> bool {
    x => p(x) && q(x)
  }

  lemma {:induction false} KeepBoth<T>(s: seq<T>, p: T -> bool, q: T -> bool)
    ensures KeepIf(KeepIf(s, p), q) == KeepIf(s, Both(p, q))
  {
    if s != [] {
      var init, last := s[..|s| - 1], s[|s| - 1];
      KeepBoth(init, p, q);
      var k := KeepIf(init, p);
      assert (k + [last])[..|k|] == k;
    }
  }

  lemma {:induction false} KeepMembers<T>(s: seq<T>, p: T -> bool)
    ensures forall x :: x in KeepIf(s, p) <==> x in s && p(x)
  {
    if s != [] {
      KeepMembers(s[..|s| - 1], p);
      assert s == s[..|s| - 1] + [s[|s| - 1]];
    }
  }

  lemma KeepCommutes<T>(s: seq<T>, p: T -> bool, q: T -> bool)
    ensures KeepIf(KeepIf(s, p), q) == KeepIf(KeepIf(s, q), p)
  {
    KeepBoth(s, p, q);
    KeepBoth(s, q, p);
    KeepSame(s, Both(p, q), Both(q, p));
  }

  /** Filtering after a map is mapping after the pulled-back filter. */
  lemma {:induction false} KeepOfMap<T, U>(s: seq<T>, f: T -> U, p: U -> bool, q: T -> bool)
    requires forall x :: x in s ==> p(f(x)) == q(x)
    ensures KeepIf(MapAll(s, f), p) == MapAll(KeepIf(s, q), f)
  {
    if s != [] {
      var init, last := s[..|s| - 1], s[|s| - 1];
      assert last in s;
      KeepOfMap(init, f, p, q);
      var m := MapAll(s, f);
      assert m[..|m| - 1] == MapAll(init, f);
      var k := KeepIf(init, q);
      assert MapAll(k + [last], f) == MapAll(k, f) + [f(last)];
    }
  }

  // ---- the pushed filter means the filter above the chain ----

  /** The pulled-back filter on the rows below a node. */
  function OnBinding(b: Binding, bounds: Bounds): Env -> bool {
    (env: Env) => AdmitsVal(bounds, Lookup(env, b))
  }

  /** Pushing the bound to the scan that a binding resolves to yields, row for row and in order,
      what the original chain yields when it is filtered on the original binding. */
  lemma {:induction false} PushedIsFiltered(p: Plan, b: Binding, bounds: Bounds, filters: Filters)
    requires WellFormed(p) && b in ColumnBindings(p)
    requires PushTarget([p], b).Some? && PushTarget([p], b).value.0 in filters
    ensures var (get, column) := PushTarget([p], b).value;
      var pushed := filters[get := filters[get] + BoundFilters(column, bounds)];
      RowsUnder(p, pushed) == KeepIf(RowsUnder(p, filters), OnBinding(b, bounds))
    decreases p
  {
    hide KeepIf, AdmitsVal, PassesAll, LogicalGet.StorageColumn;
    var (get, column) := PushTarget([p], b).value;
    var pushed := filters[get := filters[get] + BoundFilters(column, bounds)];
    match p {
      case Filter(condition, positions, child) =>
        var below := RowsUnder(child, filters);
        FilterBelow(p, b);
        PushedIsFiltered(child, b, bounds, filters);
        assert RowsUnder(child, pushed) == KeepIf(below, OnBinding(b, bounds));
        KeepCommutes(below, condition, OnBinding(b, bounds));
        KeepOfMap(KeepIf(below, condition), (env: Env) => Restrict(env, ColumnBindings(p)), OnBinding(b, bounds),
                  OnBinding(b, bounds));
      case Projection(ti, exprs, child) =>
        var source := exprs[b.column].binding;
        PushedIsFiltered(child, source, bounds, filters);
        ProjectionBelow(p, b, bounds, RowsUnder(child, filters));
      case Get(g, children) =>
        if children == [] {
          ScanKeeps(g, b, column, bounds, filters[get]);
        } else {
          var source := ColumnBindings(children[0])[b.column];
          PushedIsFiltered(children[0], source, bounds, filters);
          PassthroughBelow(p, b, bounds, RowsUnder(children[0], filters));
        }
      case OtherOperator(_, _) =>
        assert false;
    }
  }

  lemma RowOfLookup(table: nat, n: nat, cell: nat -> Val, k: nat)
    requires k < n
    ensures Lookup(RowOf(table, n, cell), Binding(table, k)) == cell(k)
  {
    assert Binding(table, k) in RowOf(table, n, cell);
  }

  lemma ProjectionBelow(p: Plan, b: Binding, bounds: Bounds, below: seq<Env>)
    requires p.Projection? && b in ColumnBindings(p) && p.expressions[b.column].ColumnRef?
    ensures var f := (env: Env) => RowOf(p.tableIndex, |p.expressions|,
                        (k: nat) => if k < |p.expressions| then Eval(p.expressions[k], env) else Null);
      KeepIf(MapAll(below, f), OnBinding(b, bounds))
      == MapAll(KeepIf(below, OnBinding(p.expressions[b.column].binding, bounds)), f)
  {
    hide KeepIf, AdmitsVal;
    var f := (env: Env) => RowOf(p.tableIndex, |p.expressions|,
               (k: nat) => if k < |p.expressions| then Eval(p.expressions[k], env) else Null);
    var source := p.expressions[b.column].binding;
    forall env | env in below ensures OnBinding(b, bounds)(f(env)) == OnBinding(source, bounds)(env) {
      RowOfLookup(p.tableIndex, |p.expressions|,
                  (k: nat) => if k < |p.expressions| then Eval(p.expressions[k], env) else Null, b.column);
    }
    KeepOfMap(below, f, OnBinding(b, bounds), OnBinding(source, bounds));
  }

  lemma PassthroughBelow(p: Plan, b: Binding, bounds: Bounds, below: seq<Env>)
    requires IsPassthrough(p) && WellFormed(p) && b in ColumnBindings(p)
    ensures var inner := ColumnBindings(p.children[0]);
      var f := (env: Env) => RowOf(p.get.tableIndex, p.get.Exposed(),
                 (k: nat) => if k < |inner| then Lookup(env, inner[k]) else Null);
      && b.column < |inner|
      && KeepIf(MapAll(below, f), OnBinding(b, bounds)) == MapAll(KeepIf(below, OnBinding(inner[b.column], bounds)), f)
  {
    hide KeepIf, AdmitsVal;
    var inner := ColumnBindings(p.children[0]);
    var f := (env: Env) => RowOf(p.get.tableIndex, p.get.Exposed(),
               (k: nat) => if k < |inner| then Lookup(env, inner[k]) else Null);
    forall env | env in below ensures OnBinding(b, bounds)(f(env)) == OnBinding(inner[b.column], bounds)(env) {
      RowOfLookup(p.get.tableIndex, p.get.Exposed(), (k: nat) => if k < |inner| then Lookup(env, inner[k]) else Null,
                  b.column);
    }
    KeepOfMap(below, f, OnBinding(b, bounds), OnBinding(inner[b.column], bounds));
  }

  /** At the scan itself: more filters keep fewer stored rows, and a stored row passes the new pair
      exactly when its exposed column is in the bound. */
  lemma ScanKeeps(get: LogicalGet, b: Binding, column: nat, bounds: Bounds, fs: seq<TableFilter>)
    requires b.table == get.tableIndex && b.column < get.Exposed() && get.StorageColumn(b.column) == Some(column)
    ensures MapAll(KeepIf(get.storage, Passing(fs + BoundFilters(column, bounds))), Exposing(get))
         == KeepIf(MapAll(KeepIf(get.storage, Passing(fs)), Exposing(get)), OnBinding(b, bounds))
  {
    hide KeepIf, PassesAll, LogicalGet.StorageColumn;
    var before, after := Passing(fs), Passing(fs + BoundFilters(column, bounds));
    var inRange := (row: StorageRow) => AdmitsVal(bounds, row(column));
    forall row ensures after(row) == (before(row) && inRange(row)) {
      TwoMoreFilters(fs, column, bounds, row);
    }
    KeepSame(get.storage, after, Both(before, inRange));
    KeepBoth(get.storage, before, inRange);
    var kept := KeepIf(get.storage, before);
    forall row | row in kept ensures OnBinding(b, bounds)(Exposing(get)(row)) == inRange(row) {
      RowOfLookup(get.tableIndex, get.Exposed(), (k: nat) => ScanCell(get, row, k), b.column);
    }
    KeepOfMap(kept, Exposing(get), OnBinding(b, bounds), inRange);
  }

  lemma TwoMoreFilters(fs: seq<TableFilter>, column: nat, bounds: Bounds, row: StorageRow)
    ensures PassesAll(fs + BoundFilters(column, bounds), row) <==>
            PassesAll(fs, row) && AdmitsVal(bounds, row(column))
  {
    var more := fs + BoundFilters(column, bounds);
    assert more[|fs|] == AtLeast(column, bounds.lower) && more[|fs| + 1] == AtMost(column, bounds.upper);
    assert forall i :: 0 <= i < |fs| ==> more[i] == fs[i];
  }

  lemma FilterBelow(p: Plan, b: Binding)
    requires p.Filter? && WellFormed(p) && b in ColumnBindings(p)
    ensures b in ColumnBindings(p.child) && PushTarget([p], b) == PushTarget([p.child], b)
  {
    if p.projectionMap != [] {
      var i :| 0 <= i < |ColumnBindings(p)| && ColumnBindings(p)[i] == b;
      assert ColumnBindings(p.child)[p.projectionMap[i]] == b;
    }
  }

  // ---- the push, in place ----

  /** The scans and table functions of a plan. */
  ghost function Gets(p: Plan): set<LogicalGet> {
    match p
    case Filter(_, _, child) => Gets(child)
    case Projection(_, _, child) => Gets(child)
    case Get(get, children) => {get} + GetsOf(children)
    case OtherOperator(_, _) => {}
  }

  ghost function GetsOf(plans: seq<Plan>): set<LogicalGet> {
    if plans == [] then {} else Gets(plans[0]) + GetsOf(plans[1..])
  }

  lemma {:induction false} GetsOfMembers(plans: seq<Plan>, get: LogicalGet)
    ensures get in GetsOf(plans) <==> exists i :: 0 <= i < |plans| && get in Gets(plans[i])
  {
    if plans != [] {
      var rest := plans[1..];
      GetsOfMembers(rest, get);
      assert forall i :: 0 <= i < |rest| ==> rest[i] == plans[i + 1];
      assert forall i :: 0 < i < |plans| ==> plans[i] == rest[i - 1];
    }
  }

  ghost function FiltersOf(gets: set<LogicalGet>): Filters
    reads gets
  {
    map get | get in gets :: get.tableFilters
  }

  lemma {:induction false} ResolvedIsInside(p: Plan, b: Binding)
    requires ResolveIn(p, b).Some?
    ensures ResolveIn(p, b).value.0 in Gets(p)
  {
    match p
    case Filter(_, _, child) => ResolvedIsInside(child, b);
    case Projection(_, exprs, child) => ResolvedIsInside(child, exprs[b.column].binding);
    case Get(get, children) =>
      if children != [] {
        ResolvedIsInside(children[0], ColumnBindings(children[0])[b.column]);
        assert GetsOf(children) == Gets(children[0]) + GetsOf(children[1..]);
      }
    case OtherOperator(_, _) =>
  }

  function PushedFilters(children: seq<Plan>, binding: Binding, filters: Filters, bounds: Bounds): Filters {
    match PushTarget(children, binding)
    case None => filters
    case Some((get, column)) =>
      if get in filters then filters[get := filters[get] + BoundFilters(column, bounds)] else filters
  }

  /** Pushes the rate's bound to the scan that the binding resolves to, if there is one the rule
      may push to; every other scan, and every other shape of plan, keeps its filters. */
  method PushScanBound(children: seq<Plan>, tsBinding: Binding, grid: Grid, window: int)
    modifies GetsOf(children)
    ensures FiltersOf(GetsOf(children))
         == PushedFilters(children, tsBinding, old(FiltersOf(GetsOf(children))), RateBounds(grid, window))
  {
    var resolved := ResolveBindingToGet(children, tsBinding);
    if resolved.None? || !IsPushableScanFunction(resolved.value.0.functionName) {
      return;
    }
    var get, column := resolved.value.0, resolved.value.1.column;
    var storagePos := column;
    if |get.projectionIds| > 0 {
      if column >= |get.projectionIds| {
        return;
      }
      storagePos := get.projectionIds[column];
    }
    if storagePos >= |get.columnIds| {
      return;
    }
    ResolvedIsInside(children[0], tsBinding);
    assert get in GetsOf(children);
    var bounds := ScanBoundsOf(grid, window, 0, EXTRAPOLATE);
    var storageColumn := get.columnIds[storagePos];
    ghost var before := get.tableFilters;
    get.tableFilters := get.tableFilters + [AtLeast(storageColumn, bounds.lower)];
    get.tableFilters := get.tableFilters + [AtMost(storageColumn, bounds.upper)];
    assert PushTarget(children, tsBinding) == Some((get, storageColumn));
    assert get.tableFilters == before + BoundFilters(storageColumn, bounds);
    assert bounds == RateBounds(grid, window);
  }

  /** What the push does to an operator's input: with a target, its rows filtered on the binding;
      without one, nothing. */
  lemma PushFiltersTheInput(children: seq<Plan>, tsBinding: Binding, filters: Filters, bounds: Bounds)
    requires |children| == 1 && WellFormed(children[0]) && tsBinding in ColumnBindings(children[0])
    requires filters.Keys == GetsOf(children)
    ensures RowsUnder(children[0], PushedFilters(children, tsBinding, filters, bounds))
         == if PushTarget(children, tsBinding).None? then RowsUnder(children[0], filters)
            else KeepIf(RowsUnder(children[0], filters), OnBinding(tsBinding, bounds))
  {
    hide RowsUnder, KeepIf, WellFormed, ColumnBindings;
    if PushTarget(children, tsBinding).Some? {
      assert children == [children[0]];
      ResolvedIsInside(children[0], tsBinding);
      PushedIsFiltered(children[0], tsBinding, bounds, filters);
    }
  }

  // ---- the aggregate's leg ----

  datatype RateBindData = RateBindData(hasSt: bool, grid: Grid, window: int)

  datatype AggregateExpr =
    | BoundAggregate(functionName: string, bindInfo: Option<RateBindData>, args: seq<Expr>)
    | OtherExpr

  /** An aggregation: its expressions, its groups, and its input. */
  datatype Aggregation = Aggregation(expressions: seq<AggregateExpr>, groupOf: Env -> int, children: seq<Plan>)

  /** The one call the rule narrows a scan for: a lone `ts_rate` over a plain timestamp column. */
  function RateCallOf(agg: Aggregation): Option<(Binding, RateBindData)> {
    if |agg.expressions| != 1 || !agg.expressions[0].BoundAggregate? then None
    else
      var e := agg.expressions[0];
      if e.functionName != "ts_rate" || e.bindInfo.None? || e.args == [] then None
      else if !e.args[0].ColumnRef? then None
      else Some((e.args[0].binding, e.bindInfo.value))
  }

  /** The call is exactly a lone `ts_rate` with bind data whose first argument is a column. */
  lemma RateCallIff(agg: Aggregation, b: Binding, data: RateBindData)
    ensures RateCallOf(agg) == Some((b, data)) <==>
            exists rest :: agg.expressions == [BoundAggregate("ts_rate", Some(data), [ColumnRef(b)] + rest)]
  {
    if RateCallOf(agg) == Some((b, data)) {
      var args := agg.expressions[0].args;
      assert args == [ColumnRef(b)] + args[1..];
      assert agg.expressions == [BoundAggregate("ts_rate", Some(data), [ColumnRef(b)] + args[1..])];
    }
  }

  function TickOf(v: Val): Option<int> {
    if v.Ticks? then Some(v.t) else None
  }

  function WordOf(v: Val): Option<Bits> {
    if v.Word? then Some(v.v) else None
  }

  /** The arguments of one call on one row. */
  function InRowOf(args: seq<Expr>, hasSt: bool, env: Env): InRow {
    InRow(if |args| > 0 then TickOf(Eval(args[0], env)) else None,
          if |args| > 1 then WordOf(Eval(args[1], env)) else None,
          if hasSt && |args| > 2 then TickOf(Eval(args[2], env)) else None)
  }

  /** The rows one call of a group sees, and the list it gives for them. */
  function CallRows(groupOf: Env -> int, args: seq<Expr>, hasSt: bool, input: seq<Env>, group: int): seq<InRow> {
    MapAll(KeepIf(input, (env: Env) => groupOf(env) == group), (env: Env) => InRowOf(args, hasSt, env))
  }

  function CallAnswer(ar: Arith<Bits>, groupOf: Env -> int, args: seq<Expr>, data: RateBindData, input: seq<Env>,
                      group: int): Option<seq<Option<Bits>>>
    requires data.grid.Valid()
  {
    FinalPoints(ar, UpdateAll(CallRows(groupOf, args, data.hasSt, input, group), data.hasSt), data.grid, data.window,
                data.hasSt)
  }

  /** The rows a lone `ts_rate` sees in one group of the input. */
  function GroupRows(agg: Aggregation, input: seq<Env>, group: int): seq<InRow>
    requires RateCallOf(agg).Some?
  {
    CallRows(agg.groupOf, agg.expressions[0].args, RateCallOf(agg).value.1.hasSt, input, group)
  }

  /** Each input row of the group adds one row, its arguments, and any other row none. */
  lemma GroupRowsOneMore(agg: Aggregation, input: seq<Env>, env: Env, group: int)
    requires RateCallOf(agg).Some?
    ensures GroupRows(agg, input + [env], group)
         == GroupRows(agg, input, group)
            + if agg.groupOf(env) == group
              then [InRowOf(agg.expressions[0].args, RateCallOf(agg).value.1.hasSt, env)] else []
  {
    hide InRowOf;
    var inGroup := (e: Env) => agg.groupOf(e) == group;
    assert (input + [env])[..|input|] == input;
    var k := KeepIf(input, inGroup);
    assert KeepIf(input + [env], inGroup) == if agg.groupOf(env) == group then k + [env] else k;
  }

  method TryPushAggregateBound(agg: Aggregation)
    modifies GetsOf(agg.children)
    ensures FiltersOf(GetsOf(agg.children))
         == match RateCallOf(agg)
            case None => old(FiltersOf(GetsOf(agg.children)))
            case Some((b, data)) => PushedFilters(agg.children, b, old(FiltersOf(GetsOf(agg.children))),
                                                  RateBounds(data.grid, data.window))
  {
    if |agg.expressions| != 1 {
      return;
    }
    var expr := agg.expressions[0];
    if !expr.BoundAggregate? {
      return;
    }
    if expr.functionName != "ts_rate" || expr.bindInfo.None? || |expr.args| == 0 {
      return;
    }
    if !expr.args[0].ColumnRef? {
      return;
    }
    PushScanBound(agg.children, expr.args[0].binding, expr.bindInfo.value.grid, expr.bindInfo.value.window);
  }

  lemma {:induction false} BoundedRowsOfMap(input: seq<Env>, f: Env -> InRow, b: Binding, bounds: Bounds)
    requires forall env :: f(env).ts == TickOf(Lookup(env, b))
    ensures BoundedRows(MapAll(input, f), bounds) == MapAll(KeepIf(input, OnBinding(b, bounds)), f)
  {
    hide Admits;
    if input != [] {
      var init, last := input[..|input| - 1], input[|input| - 1];
      BoundedRowsOfMap(init, f, b, bounds);
      var m := MapAll(input, f);
      assert m[..|m| - 1] == MapAll(init, f);
      var k := KeepIf(init, OnBinding(b, bounds));
      assert MapAll(k + [last], f) == MapAll(k, f) + [f(last)];
    }
  }

  /** The rewrite keeps every answer of the aggregate. Whatever the plan below, the rate's list of
      every group is the same before and after the push, for every arithmetic; a group that
      vanishes had no value at any point. */
  lemma AggregatePushdownKeepsAnswers(ar: Arith<Bits>, agg: Aggregation, filters: Filters, group: int)
    requires RateCallOf(agg).Some? && |agg.children| == 1 && WellFormed(agg.children[0])
    requires var (b, data) := RateCallOf(agg).value;
      RateFits(data.grid, data.window) && b in ColumnBindings(agg.children[0])
    requires filters.Keys == GetsOf(agg.children)
    ensures var (b, data) := RateCallOf(agg).value;
      var pushed := PushedFilters(agg.children, b, filters, RateBounds(data.grid, data.window));
      var full := UpdateAll(GroupRows(agg, RowsUnder(agg.children[0], filters), group), data.hasSt);
      var narrowed := UpdateAll(GroupRows(agg, RowsUnder(agg.children[0], pushed), group), data.hasSt);
      SameAnswer(FinalPoints(ar, full, data.grid, data.window, data.hasSt),
                 FinalPoints(ar, narrowed, data.grid, data.window, data.hasSt))
  {
    hide RowsUnder, KeepIf, WellFormed, ColumnBindings, PushTarget, PushedFilters, FinalPoints, UpdateAll, RateBounds,
         BoundedRows, InRowOf;
    var (b, data) := RateCallOf(agg).value;
    var bounds := RateBounds(data.grid, data.window);
    var input := RowsUnder(agg.children[0], filters);
    PushFiltersTheInput(agg.children, b, filters, bounds);
    FilteredGroup(agg, input, group, bounds);
    NarrowingIsLossless(ar, GroupRows(agg, input, group), data.grid, data.window, data.hasSt);
    SameAsItself(FinalPoints(ar, UpdateAll(GroupRows(agg, input, group), data.hasSt), data.grid, data.window,
                             data.hasSt));
  }

  lemma SameAsItself(answer: Option<seq<Option<Bits>>>)
    ensures SameAnswer(answer, answer)
  {
  }

  lemma FilteredGroup(agg: Aggregation, input: seq<Env>, group: int, bounds: Bounds)
    requires RateCallOf(agg).Some?
    ensures GroupRows(agg, KeepIf(input, OnBinding(RateCallOf(agg).value.0, bounds)), group)
         == BoundedRows(GroupRows(agg, input, group), bounds)
  {
    hide KeepIf, BoundedRows;
    var (b, data) := RateCallOf(agg).value;
    var args := agg.expressions[0].args;
    var inGroup := (env: Env) => agg.groupOf(env) == group;
    var f := (env: Env) => InRowOf(args, data.hasSt, env);
    KeepCommutes(input, OnBinding(b, bounds), inGroup);
    BoundedRowsOfMap(KeepIf(input, inGroup), f, b, bounds);
    assert GroupRows(agg, input, group) == MapAll(KeepIf(input, inGroup), f);
  }

  /** Why a second expression forbids the push: a count of the same input keeps its value exactly
      when the bound admits every row, */
  lemma SiblingCountNeedsEveryRow(input: seq<Env>, b: Binding, bounds: Bounds)
    ensures |KeepIf(input, OnBinding(b, bounds))| == |input| <==>
            forall env :: env in input ==> AdmitsVal(bounds, Lookup(env, b))
  {
    KeepIsShorter(input, OnBinding(b, bounds));
  }

  /** The arguments by position: the timestamp, the value, and the start timestamp when the call has
      one; a value of another kind is a NULL. */
  lemma ArgumentsByPosition(ts: Expr, value: Expr, start: Expr, hasSt: bool, env: Env)
    ensures var r := InRowOf([ts, value, start], hasSt, env);
      && (forall t :: Eval(ts, env) == Ticks(t) <==> r.ts == Some(t))
      && (forall v: Bits :: Eval(value, env) == Word(v) <==> r.value == Some(v))
      && (forall t :: hasSt && Eval(start, env) == Ticks(t) <==> r.st == Some(t))
  {
  }

  /** One ungrouped aggregation with two rates over the same columns. */
  function TwoRates(ts: Binding, value: Binding, first: RateBindData, second: RateBindData, children: seq<Plan>)
    : Aggregation
  {
    var args := [ColumnRef(ts), ColumnRef(value)];
    Aggregation([BoundAggregate("ts_rate", Some(first), args), BoundAggregate("ts_rate", Some(second), args)],
                (env: Env) => 0, children)
  }

  /** Two input rows, one just below the bound of a window and one at the grid's start. */
  function PairOfRows(ts: Binding, value: Binding, start: int, window: int): seq<Env> {
    [map[ts := Ticks(start - window - 1), value := Word(0)], map[ts := Ticks(start), value := Word(0)]]
  }

  /** and a second rate with a wider window would lose a value it has. The rule declines two calls. */
  lemma SecondRateWouldLoseAValue(ar: Arith<Bits>, ts: Binding, value: Binding, first: RateBindData,
                                  second: RateBindData, children: seq<Plan>)
    requires ts != value && first.grid == second.grid && !second.hasSt
    requires RateFits(first.grid, first.window) && RateFits(second.grid, second.window)
    requires second.window > first.window + 1
    ensures var agg := TwoRates(ts, value, first, second, children);
      var input := PairOfRows(ts, value, first.grid.start, first.window);
      var kept := KeepIf(input, OnBinding(ts, RateBounds(first.grid, first.window)));
      var full := CallAnswer(ar, agg.groupOf, agg.expressions[1].args, second, input, 0);
      var narrowed := CallAnswer(ar, agg.groupOf, agg.expressions[1].args, second, kept, 0);
      && RateCallOf(agg).None?
      && full.Some? && full.value != [] && full.value[0].Some?
      && narrowed.Some? && narrowed.value != [] && narrowed.value[0].None?
  {
    hide CallRows, FinalPoints, UpdateAll, PointsOf, SeriesOf, CountedRows, KeepIf, RatePoint, Select;
    var agg := TwoRates(ts, value, first, second, children);
    var grid, start, window := second.grid, second.grid.start, first.window;
    var input := PairOfRows(ts, value, start, window);
    var kept := KeepIf(input, OnBinding(ts, RateBounds(grid, window)));
    RowsOfThePair(agg, ts, value, start, window, grid);
    FinalPointsOfAll(ar, CallRows(agg.groupOf, agg.expressions[1].args, false, input, 0), grid, second.window, false);
    FinalPointsOfAll(ar, CallRows(agg.groupOf, agg.expressions[1].args, false, kept, 0), grid, second.window, false);
    var early, late: CounterSample := Reading(start - window - 1, 0, None), Reading(start, 0, None);
    BareSeries([early, late]);
    BareSeries([late]);
    AtEnds(grid);
    SelectIsSlice([early, late], start, second.window, 0, 2);
    assert [early, late][0..2] == [early, late];
    TwoReadingsHaveARate(ar, [early, late], start, second.window);
    LoneReading(ar, [late], 0, start - second.window);
  }

  lemma RowsOfThePair(agg: Aggregation, ts: Binding, value: Binding, start: int, window: int, grid: Grid)
    requires ts != value && grid.start == start && RateFits(grid, window)
    requires |agg.expressions| == 2 && agg.expressions[1].BoundAggregate?
    requires agg.expressions[1].args == [ColumnRef(ts), ColumnRef(value)] && forall env :: agg.groupOf(env) == 0
    ensures var input := PairOfRows(ts, value, start, window);
      var kept := KeepIf(input, OnBinding(ts, RateBounds(grid, window)));
      && CountedRows(CallRows(agg.groupOf, agg.expressions[1].args, false, input, 0), false)
         == [Reading(start - window - 1, 0, None), Reading(start, 0, None)]
      && CountedRows(CallRows(agg.groupOf, agg.expressions[1].args, false, kept, 0), false) == [Reading(start, 0, None)]
  {
    var input := PairOfRows(ts, value, start, window);
    RateBoundsAre(grid, window);
    assert !OnBinding(ts, RateBounds(grid, window))(input[0]) && OnBinding(ts, RateBounds(grid, window))(input[1]);
    KeepPair(input, OnBinding(ts, RateBounds(grid, window)));
    var all := (env: Env) => agg.groupOf(env) == 0;
    KeepPair(input, all);
    KeepOne(input[1], all);
    var args := agg.expressions[1].args;
    var early, late := InRowOf(args, false, input[0]), InRowOf(args, false, input[1]);
    assert CallRows(agg.groupOf, args, false, input, 0) == [early, late];
    assert CallRows(agg.groupOf, args, false, [input[1]], 0) == [late];
    CountedPair(early, late);
  }

  lemma KeepOne<T>(x: T, p: T -> bool)
    ensures KeepIf([x], p) == if p(x) then [x] else []
  {
  }

  lemma KeepLast<T>(s: seq<T>, p: T -> bool)
    requires s != []
    ensures KeepIf(s, p) == KeepIf(s[..|s| - 1], p) + if p(s[|s| - 1]) then [s[|s| - 1]] else []
  {
  }

  lemma KeepPair<T>(s: seq<T>, p: T -> bool)
    requires |s| == 2
    ensures KeepIf(s, p) == (if p(s[0]) then [s[0]] else []) + if p(s[1]) then [s[1]] else []
  {
    hide KeepIf;
    KeepOne(s[0], p);
    KeepLast(s, p);
    assert s[..1] == [s[0]];
  }

  lemma CountedPair(early: InRow, late: InRow)
    requires Counted(early) && Counted(late)
    ensures CountedRows([early, late], false) == [AsCounter(early, false), AsCounter(late, false)]
    ensures CountedRows([late], false) == [AsCounter(late, false)]
  {
    assert [early, late][..1] == [early] && [early][..0] == [] && [late][..0] == [];
    assert CountedRows([early], false) == [AsCounter(early, false)];
  }

  lemma {:induction false} KeepIsShorter<T>(s: seq<T>, p: T -> bool)
    ensures |KeepIf(s, p)| <= |s|
    ensures |KeepIf(s, p)| == |s| <==> forall x :: x in s ==> p(x)
  {
    if s != [] {
      KeepIsShorter(s[..|s| - 1], p);
      assert s == s[..|s| - 1] + [s[|s| - 1]];
    }
  }

  // ---- the operator's leg ----

  /** The streaming operator: the positions of its columns in its child's output. */
  datatype GridStreamNode = GridStreamNode(tsIdx: nat, valueIdx: nat, startIdx: nat, seriesOf: Env -> int,
                                           data: RateBindData, children: seq<Plan>)

  /** The binding the rule starts from, when the child exposes the timestamp's position. */
  function TsBindingOf(node: GridStreamNode): Option<Binding> {
    if |node.children| != 1 then None
    else
      var bindings := ColumnBindings(node.children[0]);
      if node.tsIdx >= |bindings| then None else Some(bindings[node.tsIdx])
  }

  function NarrowedFilters(node: GridStreamNode, filters: Filters): Filters {
    match TsBindingOf(node)
    case None => filters
    case Some(b) => PushedFilters(node.children, b, filters, RateBounds(node.data.grid, node.data.window))
  }

  /** The rule starts from the child's column at the timestamp's position, whenever there is one. */
  lemma TsBindingIff(node: GridStreamNode, b: Binding)
    ensures TsBindingOf(node) == Some(b) <==>
            && |node.children| == 1 && node.tsIdx < |ColumnBindings(node.children[0])|
            && ColumnBindings(node.children[0])[node.tsIdx] == b
  {
  }

  method TryPushOperatorBound(node: GridStreamNode)
    modifies GetsOf(node.children)
    ensures FiltersOf(GetsOf(node.children)) == NarrowedFilters(node, old(FiltersOf(GetsOf(node.children))))
  {
    if |node.children| != 1 {
      return;
    }
    var bindings := ColumnBindings(node.children[0]);
    if node.tsIdx >= |bindings| {
      return;
    }
    PushScanBound(node.children, bindings[node.tsIdx], node.data.grid, node.data.window);
  }

  function AtPosition(node: GridStreamNode, k: nat, env: Env): Val
    requires |node.children| == 1
  {
    var bindings := ColumnBindings(node.children[0]);
    if k < |bindings| then Lookup(env, bindings[k]) else Null
  }

  /** The bin row of an input row; a NULL timestamp or value was filtered out before the sink. */
  function BinRowOf(node: GridStreamNode, env: Env): Option<BinRow>
    requires |node.children| == 1
  {
    var ts, value := AtPosition(node, node.tsIdx, env), AtPosition(node, node.valueIdx, env);
    if !ts.Ticks? || !value.Word? then None
    else Some(BinRow(node.seriesOf(env), Reading(ts.t, value.v,
                if node.data.hasSt then TickOf(AtPosition(node, node.startIdx, env)) else None)))
  }

  /** An input row becomes a bin row exactly when its timestamp and value are there, with its start
      timestamp when the relation has that column. */
  lemma BinRowIff(node: GridStreamNode, env: Env, r: BinRow)
    requires |node.children| == 1
    requires var n := |ColumnBindings(node.children[0])|; node.tsIdx < n && node.valueIdx < n && node.startIdx < n
    ensures var columns := ColumnBindings(node.children[0]);
      BinRowOf(node, env) == Some(r) <==>
        && Lookup(env, columns[node.tsIdx]) == Ticks(r.reading.t)
        && Lookup(env, columns[node.valueIdx]) == Word(r.reading.v)
        && r.series == node.seriesOf(env)
        && r.reading.st == if node.data.hasSt && Lookup(env, columns[node.startIdx]).Ticks?
                           then Some(Lookup(env, columns[node.startIdx]).t) else None
  {
  }

  /** The rewrite keeps every answer of the operator. For every way to hash series to bins, and
      sorted bins of the rows of the series that share a slot, a series of the original input has, in
      the bin of the narrowed input, the points it had before; a series that vanishes had no value at
      any point. */
  lemma OperatorPushdownKeepsAnswers(ar: Arith<Bits>, node: GridStreamNode, filters: Filters, slotOf: int -> int,
                                     bin: seq<BinRow>, narrowed: seq<BinRow>, series: int)
    requires |node.children| == 1 && WellFormed(node.children[0])
    requires RateFits(node.data.grid, node.data.window) && filters.Keys == GetsOf(node.children)
    requires SortedBin(bin) && SortedBin(narrowed)
    requires forall r :: r in bin <==>
               && slotOf(r.series) == slotOf(series)
               && exists env :: env in RowsUnder(node.children[0], filters) && BinRowOf(node, env) == Some(r)
    requires forall r :: r in narrowed <==>
               && slotOf(r.series) == slotOf(series)
               && exists env ::
                    env in RowsUnder(node.children[0], NarrowedFilters(node, filters)) && BinRowOf(node, env) == Some(r)
    requires Occurs(bin, series) && SeenCoherent(ReadingsOf(bin, series, node.data.hasSt))
    ensures var (grid, window, hasSt) := (node.data.grid, node.data.window, node.data.hasSt);
      if Occurs(narrowed, series) then
        SeriesPoints(ar, narrowed, series, grid, window, hasSt) == SeriesPoints(ar, bin, series, grid, window, hasSt)
      else AllNull(SeriesPoints(ar, bin, series, grid, window, hasSt))
  {
    hide RowsUnder, KeepIf, WellFormed, PushTarget, PushedFilters, SeriesPoints, SeenCoherent, RateBounds, BinRowOf,
         SortedBin, Admits;
    var input := RowsUnder(node.children[0], filters);
    if TsBindingOf(node).None? || PushTarget(node.children, TsBindingOf(node).value).None? {
      if TsBindingOf(node).Some? {
        PushFiltersTheInput(node.children, TsBindingOf(node).value, filters,
                            RateBounds(node.data.grid, node.data.window));
      }
      assert forall r :: r in narrowed <==> r in bin;
      SameRowsSamePoints(ar, bin, narrowed, series, node.data.grid, node.data.window, node.data.hasSt);
    } else {
      var b, bounds := TsBindingOf(node).value, RateBounds(node.data.grid, node.data.window);
      PushFiltersTheInput(node.children, b, filters, bounds);
      KeepMembers(input, OnBinding(b, bounds));
      forall r ensures r in narrowed <==> r in bin && Admits(bounds, r.reading.t) {
        forall env | BinRowOf(node, env) == Some(r) ensures OnBinding(b, bounds)(env) == Admits(bounds, r.reading.t) {
          BinRowTime(node, env, b, bounds, r);
        }
      }
      NarrowingIsLosslessForStreams(ar, bin, narrowed, series, node.data.grid, node.data.window, node.data.hasSt);
    }
  }

  /** Two sorted bins of the same rows give a series the same points. */
  lemma SameRowsSamePoints(ar: Arith<Bits>, bin: seq<BinRow>, other: seq<BinRow>, series: int, grid: Grid, window: int,
                           hasSt: bool)
    requires grid.Valid() && SortedBin(bin) && SortedBin(other) && forall r :: r in other <==> r in bin
    requires Occurs(bin, series) && SeenCoherent(ReadingsOf(bin, series, hasSt))
    ensures Occurs(other, series)
    ensures SeriesPoints(ar, other, series, grid, window, hasSt) == SeriesPoints(ar, bin, series, grid, window, hasSt)
  {
    hide PointsOf, Collapse, ReadingsOf, SeenCoherent, SortedBin, SeenAlike;
    var all, kept := ReadingsOf(bin, series, hasSt), ReadingsOf(other, series, hasSt);
    var i :| 0 <= i < |bin| && bin[i].series == series;
    assert bin[i] in other;
    assert bin[..|bin|] == bin && other[..|other|] == other;
    ReadingsAreSorted(bin, |bin|, series, hasSt);
    ReadingsAreSorted(other, |other|, series, hasSt);
    ReadingsMembers(bin, series, hasSt);
    ReadingsMembers(other, series, hasSt);
    StreamsAreSeenAlike(all, kept);
    PointsAlike(ar, Collapse(all), Collapse(kept), None, grid, window);
  }

  lemma BinRowTime(node: GridStreamNode, env: Env, b: Binding, bounds: Bounds, r: BinRow)
    requires TsBindingOf(node) == Some(b) && BinRowOf(node, env) == Some(r)
    ensures OnBinding(b, bounds)(env) == Admits(bounds, r.reading.t)
  {
  }
}
