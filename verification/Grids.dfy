/** The regular grid of evaluation instants and the window behind each of them. */
module Grids {

  // ---- division as the source computes it ----

  /** Division that truncates toward zero. */
  function TruncDiv(n: int, d: int): int
    requires d != 0
  {
    if n >= 0 then n / d else -((-n) / d)
  }

  /** The remainder that goes with truncation: it has the sign of the numerator. */
  function TruncMod(n: int, d: int): int
    requires d != 0
  {
    n - TruncDiv(n, d) * d
  }

  function FloorDiv(n: int, d: int): int
    requires d != 0
  {
    var quotient, remainder := TruncDiv(n, d), TruncMod(n, d);
    if remainder != 0 && (remainder < 0) != (d < 0) then quotient - 1 else quotient
  }

  lemma TruncModOfPositive(n: int, d: int)
    requires n >= 0 && d != 0
    ensures TruncMod(n, d) == n % d
  {
    var q := n / d;
    assert n == q * d + n % d;
  }

  lemma TruncModOfNegative(n: int, d: int)
    requires n < 0 && d != 0
    ensures TruncMod(n, d) == -((-n) % d)
  {
    var m, p := -n, (-n) / d;
    assert m == p * d + m % d;
    NegatedProduct(p, d);
  }

  lemma NegatedProduct(p: int, d: int)
    ensures (-p) * d == -(p * d)
  {
  }

  /** The truncating remainder has the sign of the numerator and is smaller than the denominator. */
  lemma TruncModBound(n: int, d: int)
    requires d != 0
    ensures n >= 0 ==> 0 <= TruncMod(n, d) && (TruncMod(n, d) < d || TruncMod(n, d) < -d)
    ensures n <= 0 ==> 0 >= TruncMod(n, d) && (-TruncMod(n, d) < d || -TruncMod(n, d) < -d)
  {
    hide TruncMod;
    if n >= 0 {
      TruncModOfPositive(n, d);
      assert n == 0 ==> n % d == 0;
    } else {
      TruncModOfNegative(n, d);
    }
  }

  /** The corrected quotient is the floor, for every sign of numerator and denominator. */
  lemma FloorDivIsFloor(n: int, d: int)
    requires d != 0
    ensures d > 0 ==> FloorDiv(n, d) * d <= n < FloorDiv(n, d) * d + d
    ensures d < 0 ==> FloorDiv(n, d) * d >= n > FloorDiv(n, d) * d + d
  {
    TruncModBound(n, d);
    var q := TruncDiv(n, d);
    assert TruncMod(n, d) == n - q * d;
    hide TruncMod;
    hide TruncDiv;
    assert (q - 1) * d == q * d - d;
  }

  // ---- the grid ----

  datatype GridError = StepNotPositive | EndBeforeStart | StepDoesNotDivide

  datatype GridResult = Built(grid: Grid) | Refused(error: GridError)

  datatype Grid = Grid(start: int, end: int, step: int) {
    ghost predicate Valid() {
      step > 0 && start <= end && (end - start) % step == 0
    }

    function Count(): int
      requires Valid()
    {
      (end - start) / step + 1
    }

    function At(i: int): int {
      start + i * step
    }

    function IndexOf(t: int): int
      requires Valid()
    {
      FloorDiv(t - start, step)
    }
  }

  /** The constructor's checks, in the source's order. */
  function MakeGrid(start: int, end: int, step: int): (r: GridResult)
    ensures r.Built? <==> step > 0 && start <= end && (end - start) % step == 0
    ensures r.Built? ==> r.grid == Grid(start, end, step) && r.grid.Valid()
    ensures r.Refused? ==> (r.error.StepNotPositive? <==> step <= 0)
    ensures r.Refused? ==> (r.error.EndBeforeStart? <==> step > 0 && end < start)
  {
    if step <= 0 then Refused(StepNotPositive)
    else if end < start then Refused(EndBeforeStart)
    else if TruncMod(end - start, step) != 0 then
      assert TruncMod(end - start, step) == (end - start) % step by { TruncModOfPositive(end - start, step); }
      Refused(StepDoesNotDivide)
    else
      assert TruncMod(end - start, step) == (end - start) % step by { TruncModOfPositive(end - start, step); }
      Built(Grid(start, end, step))
  }

  lemma MulOrder(i: int, j: int, step: int)
    requires step > 0 && i < j
    ensures i * step + step <= j * step
    ensures (i + 1) * step == i * step + step
  {
    assert j * step - i * step == (j - i) * step;
    assert (j - i - 1) * step >= 0;
  }

  lemma AtOrder(g: Grid, i: int, j: int)
    requires g.Valid() && i < j
    ensures g.At(i) < g.At(i) + g.step <= g.At(j)
    ensures g.At(i + 1) == g.At(i) + g.step
  {
    MulOrder(i, j, g.step);
  }

  lemma AtEnds(g: Grid)
    requires g.Valid()
    ensures g.Count() >= 1 && g.At(0) == g.start && g.At(g.Count() - 1) == g.end
  {
    var span := g.end - g.start;
    assert span == (span / g.step) * g.step + span % g.step;
  }

  /** Every grid point lies between the ends, in increasing order. */
  lemma AtInRange(g: Grid, i: int)
    requires g.Valid() && 0 <= i < g.Count()
    ensures g.start <= g.At(i) <= g.end
  {
    AtEnds(g);
    if i > 0 {
      AtOrder(g, 0, i);
    }
    if i < g.Count() - 1 {
      AtOrder(g, i, g.Count() - 1);
    }
  }

  /** `IndexOf(t)` is the only index whose cell `[At(i), At(i+1))` holds `t`, for every `t`,
      before the start included. */
  lemma IndexOfFindsTheCell(g: Grid, t: int, i: int)
    requires g.Valid()
    ensures g.At(i) <= t < g.At(i + 1) <==> i == g.IndexOf(t)
  {
    FloorDivIsFloor(t - g.start, g.step);
    var k := g.IndexOf(t);
    AtOrder(g, k, k + 1);
    if i < k {
      AtOrder(g, i, k);
    } else if k < i {
      AtOrder(g, k, i);
    }
  }

  // ---- 64-bit ticks ----

  const MIN_TICK: int := -0x8000_0000_0000_0000
  const MAX_TICK: int := 0x7FFF_FFFF_FFFF_FFFF

  predicate IsTick(x: int) {
    MIN_TICK <= x <= MAX_TICK
  }

  /** The expressions that are evaluated in 64 bits: `i * step`, `start + i * step` and
      `anchor - window` at every grid point, and the quotient and the sum of the count. They stay in
      range exactly when the span of the grid does, without being the greatest tick in steps of one,
      and the first window's lower edge does. */
  lemma TicksStayInRange(g: Grid, window: int)
    requires g.Valid() && IsTick(g.start) && IsTick(g.end) && window >= 0
    ensures IsTick((g.end - g.start) / g.step) && IsTick(g.Count())
            && (forall i :: 0 <= i < g.Count() ==> IsTick(i * g.step) && IsTick(g.At(i)) && IsTick(g.At(i) - window))
       <==> g.end - g.start <= MAX_TICK && g.start - window >= MIN_TICK && (g.end - g.start < MAX_TICK || g.step > 1)
  {
    hide Grid.Count;
    AtEnds(g);
    if g.end - g.start <= MAX_TICK {
      CountStaysInRange(g);
    }
    var last := g.Count() - 1;
    assert 0 * g.step == 0;
    assert IsTick(last * g.step) ==> g.end - g.start <= MAX_TICK;
    assert IsTick(g.At(0) - window) ==> g.start - window >= MIN_TICK;
    if g.end - g.start <= MAX_TICK && g.start - window >= MIN_TICK {
      forall i | 0 <= i < g.Count()
        ensures IsTick(i * g.step) && IsTick(g.At(i)) && IsTick(g.At(i) - window)
      {
        AtInRange(g, i);
      }
    }
  }

  lemma CountStaysInRange(g: Grid)
    requires g.Valid() && g.end - g.start <= MAX_TICK
    ensures IsTick((g.end - g.start) / g.step)
    ensures IsTick(g.Count()) <==> g.end - g.start < MAX_TICK || g.step > 1
  {
    QuotientShrinks(g.end - g.start, g.step);
  }

  lemma QuotientShrinks(n: int, d: int)
    requires n >= 0 && d > 0
    ensures d == 1 ==> n / d == n
    ensures 0 <= n / d && (d > 1 ==> 2 * (n / d) <= n)
  {
    if d > 1 {
      QuotientTimesDivisor(n, d);
      AtLeastDouble(n / d, d);
    }
  }

  lemma QuotientTimesDivisor(n: int, d: int)
    requires n >= 0 && d > 0
    ensures n / d >= 0 && (n / d) * d <= n
  {
  }

  lemma AtLeastDouble(q: int, d: int)
    requires q >= 0 && d >= 2
    ensures q * d >= 2 * q
  {
  }

  // ---- the window ----

  /** The half-open window `(anchor - width, anchor]`. */
  predicate Contains(anchor: int, width: int, t: int) {
    anchor - width < t <= anchor
  }
}
