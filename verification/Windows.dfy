/** Which readings a window admits, as a filter and as an index range. */
module Windows {
  import opened Readings
  import opened Grids

  // ---- the definition ----

  /** The readings of `d` that the window admits, in order. */
  function Select<V, S>(d: seq<Reading<V, S>>, anchor: int, width: int): seq<Reading<V, S>> {
    if d == [] then []
    else
      var init, last := Select(d[..|d| - 1], anchor, width), d[|d| - 1];
      if Contains(anchor, width, last.t) then init + [last] else init
  }

  /** On a sorted series the filter is the slice between the first reading past the lower edge
      and the first one past the anchor. */
  lemma {:induction false} SelectIsSlice<V, S>(d: seq<Reading<V, S>>, anchor: int, width: int, lo: nat, hi: nat)
    requires lo <= hi <= |d|
    requires forall k :: 0 <= k < lo ==> d[k].t <= anchor - width
    requires forall k :: lo <= k < hi ==> Contains(anchor, width, d[k].t)
    requires forall k :: hi <= k < |d| ==> d[k].t > anchor
    ensures Select(d, anchor, width) == d[lo..hi]
    decreases |d|
  {
    if d != [] {
      var n := |d| - 1;
      if hi <= n {
        SelectIsSlice(d[..n], anchor, width, lo, hi);
        assert d[..n][lo..hi] == d[lo..hi];
      } else if lo <= n {
        SelectIsSlice(d[..n], anchor, width, lo, n);
        assert d[lo..hi] == d[..n][lo..n] + [d[n]];
      } else {
        SelectIsSlice(d[..n], anchor, width, n, n);
        assert d[lo..hi] == [] && d[..n][n..n] == [];
      }
    }
  }

  /** Readings past the anchor do not change what the window admits. */
  lemma SelectIgnoresLater<V, S>(d: seq<Reading<V, S>>, later: seq<Reading<V, S>>, anchor: int, width: int)
    requires forall k :: 0 <= k < |later| ==> later[k].t > anchor
    ensures Select(d + later, anchor, width) == Select(d, anchor, width)
    decreases |later|
  {
    if later == [] {
      assert d + later == d;
    } else {
      var n := |later| - 1;
      assert (d + later)[..|d + later| - 1] == d + later[..n];
      SelectIgnoresLater(d, later[..n], anchor, width);
    }
  }

  // ---- binary search ----

  ghost predicate IsUpperBound<V, S>(d: seq<Reading<V, S>>, x: int, k: int) {
    && 0 <= k <= |d|
    && (forall j :: 0 <= j < k ==> d[j].t <= x)
    && (forall j :: k <= j < |d| ==> d[j].t > x)
  }

  /** The index of the first reading later than `x`, by halving. */
  function UpperBoundIn<V, S>(d: seq<Reading<V, S>>, x: int, lo: nat, hi: nat): (k: nat)
    requires lo <= hi <= |d|
    requires SortedByT(d)
    requires forall j :: 0 <= j < lo ==> d[j].t <= x
    requires forall j :: hi <= j < |d| ==> d[j].t > x
    ensures IsUpperBound(d, x, k)
    decreases hi - lo
  {
    if lo == hi then lo
    else
      var mid := lo + (hi - lo) / 2;
      if x < d[mid].t then UpperBoundIn(d, x, lo, mid) else UpperBoundIn(d, x, mid + 1, hi)
  }

  function UpperBound<V, S>(d: seq<Reading<V, S>>, x: int): (k: nat)
    requires SortedByT(d)
    ensures IsUpperBound(d, x, k)
  {
    UpperBoundIn(d, x, 0, |d|)
  }

  lemma SelectIsUpperBoundSlice<V, S>(d: seq<Reading<V, S>>, anchor: int, width: int)
    requires SortedByT(d) && width >= 0
    ensures UpperBound(d, anchor - width) <= UpperBound(d, anchor)
    ensures Select(d, anchor, width) == d[UpperBound(d, anchor - width)..UpperBound(d, anchor)]
  {
    var lo, hi := UpperBound(d, anchor - width), UpperBound(d, anchor);
    assert hi < |d| ==> d[hi].t > anchor;
    SelectIsSlice(d, anchor, width, lo, hi);
  }

  // ---- the two-pointer walk ----

  datatype Range = Range(lo: nat, hi: nat)

  /** Walks the whole grid with two pointers that never go back. Range `i` is the one the two
      binary searches would find for grid point `i`; `advances`, the number of times a pointer
      moved in the whole walk, is at most twice the number of readings. */
  method WindowWalk<V, S>(d: seq<Reading<V, S>>, grid: Grid, width: int)
    returns (ranges: seq<Range>, ghost advances: nat)
    requires SortedByT(d) && grid.Valid() && width >= 0
    ensures |ranges| == grid.Count()
    ensures forall i :: 0 <= i < |ranges| ==>
              ranges[i] == Range(UpperBound(d, grid.At(i) - width), UpperBound(d, grid.At(i)))
    ensures advances <= 2 * |d|
  {
    hide Grid.Count;
    hide Grid.At;
    hide UpperBound;
    hide IsUpperBound;
    ranges := [];
    var lo, hi: nat := 0, 0;
    advances := 0;
    AtEnds(grid);
    for i := 0 to grid.Count()
      invariant |ranges| == i
      invariant lo <= |d| && hi <= |d| && advances == lo + hi
      invariant forall k :: 0 <= k < i ==>
                  ranges[k] == Range(UpperBound(d, grid.At(k) - width), UpperBound(d, grid.At(k)))
      invariant forall k :: 0 <= k < lo ==> d[k].t <= grid.At(i) - width
      invariant forall k :: 0 <= k < hi ==> d[k].t <= grid.At(i)
    {
      var anchor := grid.At(i);
      while lo < |d| && !Contains(anchor, width, d[lo].t) && d[lo].t <= anchor
        invariant lo <= |d| && advances == lo + hi
        invariant forall k :: 0 <= k < lo ==> d[k].t <= anchor - width
      {
        lo := lo + 1;
        advances := advances + 1;
      }
      while hi < |d| && d[hi].t <= anchor
        invariant hi <= |d| && advances == lo + hi
        invariant forall k :: 0 <= k < hi ==> d[k].t <= anchor
      {
        hi := hi + 1;
        advances := advances + 1;
      }
      UpperBoundIsUnique(d, anchor - width, lo);
      UpperBoundIsUnique(d, anchor, hi);
      ranges := ranges + [Range(lo, hi)];
      AtOrder(grid, i, i + 1);
    }
  }

  lemma UpperBoundIsUnique<V, S>(d: seq<Reading<V, S>>, x: int, k: nat)
    requires SortedByT(d) && k <= |d|
    requires k > 0 ==> d[k - 1].t <= x
    requires k < |d| ==> d[k].t > x
    ensures k == UpperBound(d, x)
  {
    var u := UpperBound(d, x);
    assert u == k by {
      if u < k {
        assert false;
      } else if k < u {
        assert false;
      }
    }
  }

  // ---- the readings just outside a window ----

  datatype EdgeContext<+V, +S> = EdgeContext(before: Option<Reading<V, S>>, after: Option<Reading<V, S>>)

  function EdgeContextOf<V, S>(d: seq<Reading<V, S>>, anchor: int, width: int): EdgeContext<V, S>
    requires SortedByT(d)
  {
    var b, a := UpperBound(d, anchor - width), UpperBound(d, anchor);
    EdgeContext(if b > 0 then Some(d[b - 1]) else None, if a < |d| then Some(d[a]) else None)
  }

  /** `r` is the latest reading at or before `x`. */
  ghost predicate IsLastUpTo<V, S>(d: seq<Reading<V, S>>, x: int, r: Reading<V, S>) {
    r in d && r.t <= x && forall q :: q in d && q.t <= x ==> q.t <= r.t
  }

  /** `r` is the earliest reading after `x`. */
  ghost predicate IsFirstAfter<V, S>(d: seq<Reading<V, S>>, x: int, r: Reading<V, S>) {
    r in d && r.t > x && forall q :: q in d && q.t > x ==> r.t <= q.t
  }

  /** The edge context is the pair of readings next to the window; a side is absent exactly when
      the series has no reading there; and the two sides and the window's own readings account
      for the series around the window with nothing skipped. */
  lemma EdgeContextIsExact<V, S>(d: seq<Reading<V, S>>, anchor: int, width: int)
    requires StrictByT(d) && width >= 0
    ensures var e := EdgeContextOf(d, anchor, width);
      && (e.before.None? <==> forall q :: q in d ==> q.t > anchor - width)
      && (e.after.None? <==> forall q :: q in d ==> q.t <= anchor)
      && (forall r :: e.before == Some(r) <==> IsLastUpTo(d, anchor - width, r))
      && (forall r :: e.after == Some(r) <==> IsFirstAfter(d, anchor, r))
  {
    BeforeIsExact(d, anchor - width);
    AfterIsExact(d, anchor);
  }

  lemma BeforeIsExact<V, S>(d: seq<Reading<V, S>>, x: int)
    requires StrictByT(d)
    ensures var b := UpperBound(d, x);
      && (b == 0 <==> forall q :: q in d ==> q.t > x)
      && forall r :: (b > 0 && r == d[b - 1]) <==> IsLastUpTo(d, x, r)
  {
    var b := UpperBound(d, x);
    if b > 0 {
      assert d[b - 1] in d;
    }
    forall r ensures (b > 0 && r == d[b - 1]) <==> IsLastUpTo(d, x, r) {
      if IsLastUpTo(d, x, r) {
        var k :| 0 <= k < |d| && d[k] == r;
        assert k < b && d[b - 1] in d;
      }
      if b > 0 && r == d[b - 1] {
        forall q | q in d && q.t <= x ensures q.t <= r.t {
          var k :| 0 <= k < |d| && d[k] == q;
        }
      }
    }
  }

  lemma AfterIsExact<V, S>(d: seq<Reading<V, S>>, x: int)
    requires StrictByT(d)
    ensures var a := UpperBound(d, x);
      && (a == |d| <==> forall q :: q in d ==> q.t <= x)
      && forall r :: (a < |d| && r == d[a]) <==> IsFirstAfter(d, x, r)
  {
    var a := UpperBound(d, x);
    if a < |d| {
      assert d[a] in d;
    }
    forall r ensures (a < |d| && r == d[a]) <==> IsFirstAfter(d, x, r) {
      if IsFirstAfter(d, x, r) {
        var k :| 0 <= k < |d| && d[k] == r;
        assert k >= a && d[a] in d;
      }
      if a < |d| && r == d[a] {
        forall q | q in d && q.t > x ensures r.t <= q.t {
          var k :| 0 <= k < |d| && d[k] == q;
        }
      }
    }
  }
}
