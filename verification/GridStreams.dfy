/** The streaming walk: one series fed reading by reading, one window resident. */
module GridStreams {
  import opened Readings
  import opened Doubles
  import opened Grids
  import opened Dedup
  import opened Windows

  datatype Emission = Emission(index: int, data: seq<CounterSample>)

  /** What the walk owes for the first `n` grid points of a deduplicated series. */
  ghost function Expected(d: seq<CounterSample>, grid: Grid, width: int, n: nat): (r: seq<Emission>)
    ensures |r| == n
    ensures forall i :: 0 <= i < n ==> r[i] == Emission(i, Select(d, grid.At(i), width))
  {
    seq(n, i requires 0 <= i < n => Emission(i, Select(d, grid.At(i), width)))
  }

  // ---- what later readings can still change ----

  lemma AbsorbLeavesEarlierWindows(d: seq<CounterSample>, s: CounterSample, anchor: int, width: int)
    requires d != [] ==> d[|d| - 1].t <= s.t
    requires s.t > anchor && (d != [] && d[|d| - 1].t == s.t ==> d[|d| - 1].t > anchor)
    ensures Select(Absorb(d, s), anchor, width) == Select(d, anchor, width)
  {
    hide DedupPolicy;
    var e := Absorb(d, s);
    if e == d + [s] {
      SelectIgnoresLater(d, [s], anchor, width);
    } else if e != d {
      var init := d[..|d| - 1];
      SelectIgnoresLater(init, [s], anchor, width);
      SelectIgnoresLater(init, [d[|d| - 1]], anchor, width);
      assert d == init + [d[|d| - 1]];
    }
  }

  lemma AbsorbLeavesExpected(d: seq<CounterSample>, s: CounterSample, grid: Grid, width: int, n: nat)
    requires grid.Valid()
    requires d != [] ==> d[|d| - 1].t <= s.t
    requires n > 0 ==> d != [] && d[|d| - 1].t > grid.At(n - 1)
    ensures Expected(Absorb(d, s), grid, width, n) == Expected(d, grid, width, n)
  {
    forall i | 0 <= i < n
      ensures Select(Absorb(d, s), grid.At(i), width) == Select(d, grid.At(i), width)
    {
      if i < n - 1 {
        AtOrder(grid, i, n - 1);
      }
      AbsorbLeavesEarlierWindows(d, s, grid.At(i), width);
    }
  }

  lemma NextReadingLeavesWindow(fed: seq<CounterSample>, s: CounterSample, anchor: int, width: int)
    requires SortedByT(fed) && fed != [] && anchor < fed[|fed| - 1].t <= s.t
    ensures SortedByT(fed + [s])
    ensures Select(Collapse(fed + [s]), anchor, width) == Select(Collapse(fed), anchor, width)
  {
    hide Collapse;
    CollapseIsStrict(fed);
    CollapseOneMore(fed, s);
    AbsorbLeavesEarlierWindows(Collapse(fed), s, anchor, width);
  }

  /** Once a reading past the anchor has been fed, no continuation of the feed can change what
      that anchor's window holds. */
  lemma {:induction false} ConfirmedWindowIsFinal(fed: seq<CounterSample>, more: seq<CounterSample>, anchor: int,
                                                  width: int)
    requires SortedByT(fed + more)
    requires fed != [] && fed[|fed| - 1].t > anchor
    ensures Select(Collapse(fed + more), anchor, width) == Select(Collapse(fed), anchor, width)
    decreases |more|
  {
    hide Collapse;
    hide Select;
    if more == [] {
      assert fed + more == fed;
    } else {
      var n := |more| - 1;
      var before := fed + more[..n];
      assert before + [more[n]] == fed + more;
      assert forall k :: 0 <= k < |before| ==> before[k] == (fed + more)[k];
      ConfirmedWindowIsFinal(fed, more[..n], anchor, width);
      assert fed[|fed| - 1] == before[|fed| - 1];
      assert more[n] == (fed + more)[|before|];
      assert before[|fed| - 1].t <= before[|before| - 1].t <= more[n].t;
      NextReadingLeavesWindow(before, more[n], anchor, width);
    }
  }

  // ---- counting buffered readings ----

  ghost function CountWithin(d: seq<CounterSample>, after: int, upTo: int): nat {
    if d == [] then 0
    else CountWithin(d[..|d| - 1], after, upTo) + if after < d[|d| - 1].t <= upTo then 1 else 0
  }

  lemma {:induction false} CountWithinAtLeast(d: seq<CounterSample>, after: int, upTo: int, lo: nat, hi: nat)
    requires lo <= hi <= |d|
    requires forall k :: lo <= k < hi ==> after < d[k].t <= upTo
    ensures CountWithin(d, after, upTo) >= hi - lo
    decreases |d|
  {
    if lo < hi {
      if hi < |d| {
        CountWithinAtLeast(d[..|d| - 1], after, upTo, lo, hi);
      } else {
        CountWithinAtLeast(d[..|d| - 1], after, upTo, lo, hi - 1);
      }
    }
  }

  /** Where a prefix is not past the lower end and the rest is within, the count is the rest's length. */
  lemma {:induction false} CountWithinSplit(d: seq<CounterSample>, after: int, upTo: int, n: nat)
    requires n <= |d|
    requires forall k :: 0 <= k < n ==> d[k].t <= after
    requires forall k :: n <= k < |d| ==> after < d[k].t <= upTo
    ensures CountWithin(d, after, upTo) == |d| - n
    decreases |d|
  {
    if d != [] {
      CountWithinSplit(d[..|d| - 1], after, upTo, if n < |d| then n else n - 1);
    }
  }

  /** Distinct timestamps in a span of ticks are no more than the ticks. */
  lemma {:induction false} CountWithinAtMost(d: seq<CounterSample>, after: int, upTo: int)
    requires StrictByT(d)
    ensures CountWithin(d, after, upTo) <= if after < upTo then upTo - after else 0
    decreases |d|
  {
    if d != [] {
      var last := d[|d| - 1].t;
      if after < last <= upTo {
        CountWithinUpTo(d[..|d| - 1], after, upTo, last - 1);
        CountWithinAtMost(d[..|d| - 1], after, last - 1);
      } else {
        CountWithinAtMost(d[..|d| - 1], after, upTo);
      }
    }
  }

  lemma {:induction false} CountWithinUpTo(d: seq<CounterSample>, after: int, upTo: int, cap: int)
    requires cap <= upTo && forall k :: 0 <= k < |d| ==> d[k].t <= cap
    ensures CountWithin(d, after, upTo) == CountWithin(d, after, cap)
    decreases |d|
  {
    if d != [] {
      CountWithinUpTo(d[..|d| - 1], after, upTo, cap);
    }
  }

  // ---- the state of the walk, as facts about the deduplicated feed `d` ----

  /** `buf` and then `pending` are what is left of `d` once `dropped` readings are gone. */
  ghost predicate IsTail(d: seq<CounterSample>, dropped: nat, buf: seq<CounterSample>, pending: Option<CounterSample>) {
    && dropped + |buf| <= |d|
    && buf == d[dropped..dropped + |buf|]
    && (pending.None? ==> dropped + |buf| == |d|)
    && (pending.Some? ==> dropped + |buf| + 1 == |d| && pending.value == d[|d| - 1])
  }

  ghost predicate UpTo(d: seq<CounterSample>, n: nat, x: int) {
    n <= |d| && forall k :: 0 <= k < n ==> d[k].t <= x
  }

  ghost predicate After(d: seq<CounterSample>, n: nat, x: int) {
    n <= |d| && forall k :: n <= k < |d| ==> d[k].t > x
  }

  ghost predicate LastAfter(buf: seq<CounterSample>, x: int) {
    buf != [] && buf[|buf| - 1].t > x
  }

  lemma UpToExtends(d: seq<CounterSample>, n: nat, x: int)
    requires UpTo(d, n, x) && n < |d| && d[n].t <= x
    ensures UpTo(d, n + 1, x)
  {
  }

  lemma TailAt(d: seq<CounterSample>, dropped: nat, buf: seq<CounterSample>, pending: Option<CounterSample>, k: nat)
    requires IsTail(d, dropped, buf, pending) && k < |buf|
    ensures dropped + k < |d| && buf[k] == d[dropped + k]
  {
  }

  lemma TailUpTo(d: seq<CounterSample>, dropped: nat, buf: seq<CounterSample>, pending: Option<CounterSample>, x: int)
    requires IsTail(d, dropped, buf, pending) && UpTo(d, dropped + |buf|, x)
    ensures UpTo(buf, |buf|, x)
  {
  }

  lemma TailAfterErase(d: seq<CounterSample>, dropped: nat, buf: seq<CounterSample>, pending: Option<CounterSample>,
                       lo: nat)
    requires IsTail(d, dropped, buf, pending) && lo <= |buf|
    ensures IsTail(d, dropped + lo, buf[lo..], pending)
  {
  }

  lemma TailEndsLate(d: seq<CounterSample>, dropped: nat, buf: seq<CounterSample>, pending: Option<CounterSample>,
                     x: int)
    requires StrictByT(d) && IsTail(d, dropped, buf, pending) && LastAfter(buf, x)
    ensures d != [] && d[|d| - 1].t > x
  {
    TailAt(d, dropped, buf, pending, |buf| - 1);
  }

  lemma TailLastAfter(d: seq<CounterSample>, dropped: nat, buf: seq<CounterSample>, pending: Option<CounterSample>,
                      k: nat, x: int)
    requires StrictByT(d) && IsTail(d, dropped, buf, pending) && k < |buf| && buf[k].t > x
    ensures LastAfter(buf, x)
  {
    TailAt(d, dropped, buf, pending, k);
    TailAt(d, dropped, buf, pending, |buf| - 1);
  }

  lemma TailAfterFlush(d: seq<CounterSample>, dropped: nat, buf: seq<CounterSample>, p: CounterSample)
    requires IsTail(d, dropped, buf, Some(p))
    ensures IsTail(d, dropped, buf + [p], None)
  {
    assert d[dropped..dropped + |buf| + 1] == d[dropped..dropped + |buf|] + [d[dropped + |buf|]];
  }

  lemma TailAfterPointer(d: seq<CounterSample>, dropped: nat, buf: seq<CounterSample>,
                         pending: Option<CounterSample>, lo: nat, x: int)
    requires StrictByT(d) && IsTail(d, dropped, buf, pending) && lo <= |buf|
    requires lo < |buf| ==> buf[lo].t > x
    requires lo == |buf| ==> pending.None?
    ensures After(d, dropped + lo, x)
  {
    if lo < |buf| {
      TailAt(d, dropped, buf, pending, lo);
    }
  }

  lemma AbsorbStaysAfter(d: seq<CounterSample>, s: CounterSample, n: nat, x: int)
    requires After(d, n, x) && s.t > x
    ensures After(Absorb(d, s), n, x)
  {
    hide DedupPolicy;
  }

  lemma TailIsNotLonger(d: seq<CounterSample>, dropped: nat, buf: seq<CounterSample>, pending: Option<CounterSample>)
    requires IsTail(d, dropped, buf, pending)
    ensures |buf| <= |d|
  {
  }

  lemma UpToPrefix(buf: seq<CounterSample>, p: CounterSample, x: int)
    requires UpTo(buf, |buf|, x)
    ensures UpTo(buf + [p], |buf|, x)
  {
  }

  lemma TailIsStrict(d: seq<CounterSample>, dropped: nat, buf: seq<CounterSample>, pending: Option<CounterSample>)
    requires StrictByT(d) && IsTail(d, dropped, buf, pending)
    ensures StrictByT(buf)
  {
  }

  lemma TailEndsWithPending(d: seq<CounterSample>, dropped: nat, buf: seq<CounterSample>, p: CounterSample)
    requires IsTail(d, dropped, buf, Some(p))
    ensures |d| == dropped + |buf| + 1 && d[|d| - 1] == p
  {
  }

  /** A contested timestamp: only the pending reading can change. */
  lemma TailAfterContest(d: seq<CounterSample>, dropped: nat, buf: seq<CounterSample>, p: CounterSample,
                         s: CounterSample)
    requires IsTail(d, dropped, buf, Some(p)) && p.t == s.t
    ensures IsTail(Absorb(d, s), dropped, buf, Some(if DedupPolicy(s.v, p.v) then s else p))
  {
    hide DedupPolicy;
  }

  /** One more reading leaves alone what lies before the contested one. */
  lemma AbsorbStaysUpTo(d: seq<CounterSample>, dropped: nat, buf: seq<CounterSample>, pending: Option<CounterSample>,
                        s: CounterSample, n: nat, x: int)
    requires IsTail(d, dropped, buf, pending) && UpTo(d, n, x)
    requires n <= dropped + |buf| || (d != [] && d[|d| - 1].t < s.t)
    ensures UpTo(Absorb(d, s), n, x)
  {
    hide DedupPolicy;
  }

  /** A later timestamp: the reading is appended. */
  lemma TailAfterAppend(d: seq<CounterSample>, dropped: nat, buf: seq<CounterSample>, s: CounterSample)
    requires IsTail(d, dropped, buf, None) && (d != [] ==> d[|d| - 1].t < s.t)
    ensures IsTail(Absorb(d, s), dropped, buf, Some(s))
  {
    hide DedupPolicy;
  }

  lemma SliceOfSlice<T>(d: seq<T>, from: nat, to: nat, lo: nat, hi: nat)
    requires from <= to <= |d| && lo <= hi <= to - from
    ensures d[from..to][lo..hi] == d[from + lo..from + hi]
  {
    var a, b := d[from..to][lo..hi], d[from + lo..from + hi];
    assert |a| == |b|;
    assert forall k :: 0 <= k < |a| ==> a[k] == b[k];
  }

  /** At the point where the walk emits, the buffered slice is what the window admits. */
  lemma EmittedSliceIsWindow(d: seq<CounterSample>, dropped: nat, buf: seq<CounterSample>,
                             pending: Option<CounterSample>, lo: nat, hi: nat, anchor: int, width: int)
    requires StrictByT(d) && IsTail(d, dropped, buf, pending) && lo <= hi <= |buf| && width >= 0
    requires UpTo(d, dropped + lo, anchor - width) && UpTo(d, dropped + hi, anchor)
    requires hi < |buf| ==> buf[hi].t > anchor
    requires hi == |buf| ==> pending.None?
    requires lo < hi ==> Contains(anchor, width, buf[lo].t) || buf[lo].t > anchor
    ensures buf[lo..hi] == Select(d, anchor, width)
  {
    if lo < hi {
      TailAt(d, dropped, buf, pending, lo);
    }
    if hi < |buf| {
      TailAt(d, dropped, buf, pending, hi);
    }
    SelectIsSlice(d, anchor, width, dropped + lo, dropped + hi);
    SliceOfSlice(d, dropped, dropped + |buf|, lo, hi);
  }

  lemma ExpectedGrows(d: seq<CounterSample>, grid: Grid, width: int, n: nat)
    ensures Expected(d, grid, width, n + 1) ==
            Expected(d, grid, width, n) + [Emission(n, Select(d, grid.At(n), width))]
  {
  }

  // ---- the stream ----

  class GridStream {
    const grid: Grid
    const width: int

    // the reading whose timestamp may still be contested
    var pending: Option<CounterSample>
    // deduplicated readings still resident, and the two pointers into them
    var buf: seq<CounterSample>
    var lo: nat
    var hi: nat
    var nextIndex: int
    var ended: bool

    // history: every reading fed, every emission made, how many readings the erases dropped
    // and how many they moved
    ghost var fed: seq<CounterSample>
    ghost var emitted: seq<Emission>
    ghost var dropped: nat
    ghost var shifted: nat

    /** The pointers are behind the readings the next windows need, the emissions are the ones
        owed, and the erases have moved no more readings than they dropped. */
    ghost predicate Walking(d: seq<CounterSample>)
      reads this
    {
      && grid.Valid() && width >= 0
      && IsTail(d, dropped, buf, pending)
      && lo <= hi <= |buf| && 0 <= nextIndex <= grid.Count()
      && (nextIndex == 0 ==> dropped + lo == 0)
      && UpTo(d, dropped + lo, grid.At(nextIndex - 1) - width)
      && (nextIndex > 0 ==> After(d, dropped + lo, grid.At(nextIndex - 1) - width))
      && UpTo(d, dropped + hi, grid.At(nextIndex))
      && emitted == Expected(d, grid, width, nextIndex)
      && shifted <= dropped
    }

    ghost predicate Walked(d: seq<CounterSample>)
      reads this
    {
      Walking(d) && 2 * lo <= |buf|
    }

    /** Nothing was emitted too early, and no more can be emitted yet. */
    ghost predicate Settled()
      reads this
      requires grid.Valid()
    {
      && (!ended ==> (pending.Some? <==> fed != []))
      && (!ended && nextIndex > 0 ==> LastAfter(buf, grid.At(nextIndex - 1)))
      && (!ended && nextIndex < grid.Count() ==> UpTo(buf, |buf|, grid.At(nextIndex)))
      && (ended ==> pending.None?)
      && (ended && nextIndex < grid.Count() && buf != [] ==>
            2 * lo < |buf| && UpTo(buf, |buf| - 1, grid.At(nextIndex)))
    }

    ghost predicate Valid()
      reads this
    {
      SortedByT(fed) && Walked(Collapse(fed)) && Settled()
    }

    constructor (grid: Grid, width: int)
      requires grid.Valid() && width >= 0
      ensures Valid() && !ended && fed == [] && emitted == [] && nextIndex == 0
      ensures this.grid == grid && this.width == width
    {
      this.grid := grid;
      this.width := width;
      pending := None;
      buf := [];
      lo, hi, nextIndex, ended := 0, 0, 0, false;
      fed, emitted, dropped, shifted := [], [], 0, 0;
      new;
      AtEnds(grid);
    }

    predicate Done()
      reads this
      requires grid.Valid()
    {
      nextIndex >= grid.Count()
    }

    /** Done means that every point of the grid has been emitted. */
    lemma DoneIff()
      requires Valid()
      ensures Done() <==> |emitted| == grid.Count()
    {
      hide Collapse, Select, IsTail, UpTo, After;
    }

    function ResidentSize(): nat
      reads this
    {
      |buf|
    }

    method FlushPending()
      modifies this`buf, this`pending
      ensures pending.None?
      ensures buf == if old(pending).Some? then old(buf) + [old(pending).value] else old(buf)
    {
      if pending.None? {
        return;
      }
      buf := buf + [pending.value];
      pending := None;
    }

    /** Moves `hi` past every buffered reading that is not later than the next anchor. */
    method AdvanceHi(ghost d: seq<CounterSample>)
      requires Walked(d) && nextIndex < grid.Count()
      modifies this`hi
      ensures Walked(d)
      ensures hi < |buf| ==> buf[hi].t > grid.At(nextIndex)
    {
      hide Collapse, Select, Expected, IsTail, UpTo, After, LastAfter, SortedByT, StrictByT;
      hide Grid.At, Grid.Count, Grid.Valid;
      var anchor := grid.At(nextIndex);
      while hi < |buf| && buf[hi].t <= anchor
        invariant lo <= hi <= |buf|
        invariant UpTo(d, dropped + hi, anchor)
        decreases |buf| - hi
      {
        TailAt(d, dropped, buf, pending, hi);
        UpToExtends(d, dropped + hi, anchor);
        hi := hi + 1;
      }
    }

    /** Moves `lo` past the readings the next window no longer admits, and emits the window. */
    method EmitNext(ghost d: seq<CounterSample>) returns (e: Emission)
      requires StrictByT(d) && Walked(d) && nextIndex < grid.Count()
      requires hi < |buf| ==> buf[hi].t > grid.At(nextIndex)
      requires hi == |buf| ==> pending.None?
      modifies this`lo, this`nextIndex, this`emitted
      ensures Walking(d) && nextIndex == old(nextIndex) + 1 && emitted == old(emitted) + [e]
    {
      hide Collapse, Select, Expected, IsTail, UpTo, After, LastAfter, SortedByT, StrictByT;
      hide Grid.At, Grid.Count, Grid.Valid;
      var anchor := grid.At(nextIndex);
      AtOrder(grid, nextIndex - 1, nextIndex);
      UpToWeakens(d, dropped + lo, grid.At(nextIndex - 1) - width, anchor - width);
      while lo < hi && !Contains(anchor, width, buf[lo].t) && buf[lo].t <= anchor
        modifies this`lo
        invariant lo <= hi
        invariant UpTo(d, dropped + lo, anchor - width)
        decreases hi - lo
      {
        TailAt(d, dropped, buf, pending, lo);
        UpToExtends(d, dropped + lo, anchor - width);
        lo := lo + 1;
      }
      TailAfterPointer(d, dropped, buf, pending, lo, anchor - width);
      EmittedSliceIsWindow(d, dropped, buf, pending, lo, hi, anchor, width);
      ExpectedGrows(d, grid, width, nextIndex);
      AtOrder(grid, nextIndex, nextIndex + 1);
      UpToWeakens(d, dropped + hi, anchor, grid.At(nextIndex + 1));
      e := Emission(nextIndex, buf[lo..hi]);
      emitted := emitted + [e];
      nextIndex := nextIndex + 1;
    }

    /** Erases the readings behind `lo` once they are more than half of the buffer. */
    method Compact(ghost d: seq<CounterSample>, ghost x: int)
      requires Walking(d)
      modifies this`buf, this`lo, this`hi, this`dropped, this`shifted
      ensures Walked(d)
      ensures old(lo) < |old(buf)| && LastAfter(old(buf), x) ==> LastAfter(buf, x)
    {
      hide Collapse, Select, Expected, IsTail, UpTo, After, SortedByT, StrictByT;
      hide Grid.At, Grid.Count, Grid.Valid;
      if lo > 0 && lo * 2 > |buf| {
        TailAfterErase(d, dropped, buf, pending, lo);
        shifted := shifted + (|buf| - lo);
        dropped := dropped + lo;
        buf := buf[lo..];
        hi := hi - lo;
        lo := 0;
      }
    }

    /** The two-pointer walk over what is buffered; `eos` says that nothing more will come. */
    method Drain(eos: bool, ghost d: seq<CounterSample>) returns (emits: seq<Emission>)
      requires StrictByT(d) && Walked(d)
      requires eos ==> pending.None?
      requires !eos && nextIndex > 0 ==> LastAfter(buf, grid.At(nextIndex - 1))
      modifies this`buf, this`lo, this`hi, this`nextIndex, this`emitted, this`dropped, this`shifted
      ensures Walked(d) && emitted == old(emitted) + emits
      ensures eos ==> nextIndex == grid.Count()
      ensures !eos && nextIndex > 0 ==> LastAfter(buf, grid.At(nextIndex - 1))
      ensures !eos && nextIndex < grid.Count() ==> UpTo(buf, |buf|, grid.At(nextIndex))
      ensures !eos && old(nextIndex < grid.Count() ==> UpTo(buf, |buf|, grid.At(nextIndex))) ==> emits == []
    {
      hide Collapse, Select, Expected, IsTail, UpTo, After, LastAfter, SortedByT, StrictByT;
      hide Grid.At, Grid.Count, Grid.Valid;
      emits := [];
      ghost var stuck := !eos && (nextIndex < grid.Count() ==> UpTo(buf, |buf|, grid.At(nextIndex)));
      while nextIndex < grid.Count()
        invariant Walked(d) && emitted == old(emitted) + emits
        invariant !eos && nextIndex > 0 ==> LastAfter(buf, grid.At(nextIndex - 1))
        invariant stuck ==> emits == [] && (nextIndex < grid.Count() ==> UpTo(buf, |buf|, grid.At(nextIndex)))
        decreases grid.Count() - nextIndex
      {
        AdvanceHi(d);
        if hi == |buf| && !eos {
          TailUpTo(d, dropped, buf, pending, grid.At(nextIndex));
          return;
        }
        if !eos {
          TailLastAfter(d, dropped, buf, pending, hi, grid.At(nextIndex));
          if stuck {
            UpToAt(buf, |buf|, grid.At(nextIndex), hi);
          }
        }
        assert !stuck;
        ghost var anchor := grid.At(nextIndex);
        var e := EmitNext(d);
        emits := emits + [e];
        assert !eos ==> lo < |buf| && LastAfter(buf, anchor);
        Compact(d, anchor);
        assert !eos ==> LastAfter(buf, anchor);
      }
    }

    /** Feeds one reading that is not earlier than the last one, and emits every point whose window
        it confirmed. */
    method Feed(s: CounterSample) returns (emits: seq<Emission>)
      requires Valid() && !ended
      requires fed != [] ==> fed[|fed| - 1].t <= s.t
      modifies this
      ensures Valid() && !ended && fed == old(fed) + [s]
      ensures emitted == old(emitted) + emits
      ensures forall i :: 0 <= i < grid.Count() ==>
                (i < |emitted| <==> |Collapse(fed)| >= 2 && grid.At(i) < Collapse(fed)[|Collapse(fed)| - 2].t)
    {
      hide Collapse, Select, Expected, IsTail, UpTo, After, SortedByT, StrictByT;
      hide Grid.At, Grid.Count, Grid.Valid, Absorb, DedupPolicy;
      if pending.Some? && s.t == pending.value.t {
        emits := [];
        Contest(s);
      } else {
        emits := FeedLater(s);
      }
      ProgressIsExact();
    }

    /** A reading at the pending one's timestamp replaces it or is dropped. */
    method Contest(s: CounterSample)
      requires Valid() && !ended && pending.Some? && s.t == pending.value.t
      requires fed != [] && fed[|fed| - 1].t <= s.t
      modifies this`pending, this`fed
      ensures Valid() && fed == old(fed) + [s]
    {
      hide Collapse, Select, Expected, IsTail, UpTo, After, SortedByT, StrictByT;
      hide Grid.At, Grid.Count, Grid.Valid, Absorb, DedupPolicy;
      ghost var d := Collapse(fed);
      FeedExtends(s);
      WalkSurvives(d, s);
      TailAfterContest(d, dropped, buf, pending.value, s);
      if DedupPolicy(s.v, pending.value.v) {
        pending := Some(s);
      }
      fed := fed + [s];
      assert Walked(Absorb(d, s));
      assert Settled();
    }

    /** A reading at a new timestamp confirms the pending one, which may confirm windows. */
    method FeedLater(s: CounterSample) returns (emits: seq<Emission>)
      requires Valid() && !ended && !(pending.Some? && s.t == pending.value.t)
      requires fed != [] ==> fed[|fed| - 1].t <= s.t
      modifies this
      ensures Valid() && !ended && fed == old(fed) + [s]
      ensures emitted == old(emitted) + emits
    {
      hide Collapse, Select, Expected, IsTail, UpTo, After, SortedByT, StrictByT;
      hide Grid.At, Grid.Count, Grid.Valid, Absorb, DedupPolicy;
      ghost var d, p := Collapse(fed), pending;
      FeedExtends(s);
      WalkSurvives(d, s);
      if p.Some? {
        TailEndsWithPending(d, dropped, buf, p.value);
        TailAfterFlush(d, dropped, buf, p.value);
      }
      FlushPending();
      TailAfterAppend(d, dropped, buf, s);
      pending := Some(s);
      fed := fed + [s];
      emits := Drain(false, Absorb(d, s));
      assert Settled();
    }

    /** What one more reading leaves as it was. */
    lemma WalkSurvives(d: seq<CounterSample>, s: CounterSample)
      requires Walking(d) && (nextIndex > 0 ==> s.t > grid.At(nextIndex - 1) - width)
      ensures UpTo(Absorb(d, s), dropped + lo, grid.At(nextIndex - 1) - width)
      ensures UpTo(Absorb(d, s), dropped + hi, grid.At(nextIndex))
      ensures nextIndex > 0 ==> After(Absorb(d, s), dropped + lo, grid.At(nextIndex - 1) - width)
    {
      hide Expected, IsTail, UpTo, After, Grid.At, Grid.Count, Grid.Valid, Absorb;
      if nextIndex > 0 {
        AbsorbStaysAfter(d, s, dropped + lo, grid.At(nextIndex - 1) - width);
      }
      AbsorbStaysUpTo(d, dropped, buf, pending, s, dropped + lo, grid.At(nextIndex - 1) - width);
      AbsorbStaysUpTo(d, dropped, buf, pending, s, dropped + hi, grid.At(nextIndex));
    }

    /** How one more reading changes the deduplicated feed, and what it leaves alone. */
    lemma FeedExtends(s: CounterSample)
      requires Valid() && !ended
      requires fed != [] ==> fed[|fed| - 1].t <= s.t
      ensures SortedByT(fed + [s]) && StrictByT(Collapse(fed)) && StrictByT(Absorb(Collapse(fed), s))
      ensures Collapse(fed + [s]) == Absorb(Collapse(fed), s)
      ensures Collapse(fed) == [] <==> fed == []
      ensures Collapse(fed) != [] ==> Collapse(fed)[|Collapse(fed)| - 1].t <= s.t
      ensures nextIndex > 0 ==> Collapse(fed) != [] && Collapse(fed)[|Collapse(fed)| - 1].t > grid.At(nextIndex - 1)
      ensures Expected(Absorb(Collapse(fed), s), grid, width, nextIndex)
           == Expected(Collapse(fed), grid, width, nextIndex)
    {
      hide Collapse, Select, Expected, IsTail, UpTo, After, SortedByT, StrictByT;
      hide Grid.At, Grid.Count, Grid.Valid, Absorb, DedupPolicy;
      CollapseOneMore(fed, s);
      CollapseIsStrict(fed);
      CollapseIsStrict(fed + [s]);
      if nextIndex > 0 {
        LastOfFeedIsLate();
      }
      AbsorbLeavesExpected(Collapse(fed), s, grid, width, nextIndex);
    }

    lemma LastOfFeedIsLate()
      requires Valid() && !ended && nextIndex > 0
      ensures Collapse(fed) != [] && Collapse(fed)[|Collapse(fed)| - 1].t > grid.At(nextIndex - 1)
    {
      hide Collapse, Select, Expected, IsTail, UpTo, After, SortedByT, StrictByT;
      hide Grid.At, Grid.Count, Grid.Valid, Absorb, DedupPolicy;
      CollapseIsStrict(fed);
      TailEndsLate(Collapse(fed), dropped, buf, pending, grid.At(nextIndex - 1));
    }

    /** The emitted points are exactly those whose anchor lies before the last reading that a
        later timestamp followed. */
    lemma ProgressIsExact()
      requires Valid() && !ended
      ensures |emitted| == nextIndex
      ensures forall i :: 0 <= i < grid.Count() ==>
                (i < |emitted| <==> |Collapse(fed)| >= 2 && grid.At(i) < Collapse(fed)[|Collapse(fed)| - 2].t)
    {
      hide Collapse, Select, Expected, IsTail, UpTo, After, SortedByT, StrictByT;
      hide Grid.At, Grid.Count, Grid.Valid, Absorb, DedupPolicy;
      var d := Collapse(fed);
      CollapseIsStrict(fed);
      if fed != [] {
        TailEndsWithPending(d, dropped, buf, pending.value);
      }
      if buf != [] {
        TailAt(d, dropped, buf, pending, |buf| - 1);
        if nextIndex < grid.Count() {
          UpToAt(buf, |buf|, grid.At(nextIndex), |buf| - 1);
        }
      }
      forall i | 0 <= i < grid.Count()
        ensures i < nextIndex <==> |d| >= 2 && grid.At(i) < d[|d| - 2].t
      {
        if i < nextIndex - 1 {
          AtOrder(grid, i, nextIndex - 1);
        } else if nextIndex < i {
          AtOrder(grid, nextIndex, i);
        }
      }
    }

    /** Says that no reading will follow; only flushes the contested one. */
    method End()
      requires Valid() && !ended
      modifies this
      ensures Valid() && ended && fed == old(fed) && emitted == old(emitted)
    {
      hide Collapse, Select, Expected, IsTail, UpTo, After, SortedByT, StrictByT;
      hide Grid.At, Grid.Count, Grid.Valid, Absorb, DedupPolicy;
      CollapseIsStrict(fed);
      ghost var d, p := Collapse(fed), pending;
      TailIsNotLonger(d, dropped, buf, p);
      if p.Some? {
        TailAfterFlush(d, dropped, buf, p.value);
        if nextIndex < grid.Count() {
          UpToPrefix(buf, p.value, grid.At(nextIndex));
        }
      }
      FlushPending();
      ended := true;
    }

    /** Before the end there is nothing to resume; after it, every remaining point is emitted. */
    method Resume() returns (emits: seq<Emission>)
      requires Valid()
      modifies this
      ensures Valid() && fed == old(fed) && ended == old(ended)
      ensures emitted == old(emitted) + emits
      ensures ended ==> emitted == Expected(Collapse(fed), grid, width, grid.Count()) && Done()
      ensures !ended ==> emits == []
    {
      hide Collapse, Select, Expected, IsTail, UpTo, After, SortedByT, StrictByT;
      hide Grid.At, Grid.Count, Grid.Valid, Absorb, DedupPolicy;
      CollapseIsStrict(fed);
      emits := Drain(ended, Collapse(fed));
    }

    // ---- what the stream costs ----

    /** Every deduplicated reading is accounted for, once: dropped, resident or still contested. */
    lemma EveryReadingIsAccountedFor()
      requires Valid()
      ensures dropped + ResidentSize() + (if pending.Some? then 1 else 0) == |Collapse(fed)|
    {
      hide Collapse, Select, Expected, UpTo, After;
    }

    /** The memory law. Between any two calls, if every reading fed lies between the first
        window's edge and the end of the grid, the resident readings are at most twice those
        that the pending windows can still need, plus one; and so at most a multiple of
        window plus step, however long the grid is. */
    lemma ResidentIsBounded()
      requires Valid() && forall k :: 0 <= k < |fed| ==> grid.start - width <= fed[k].t <= grid.end
      ensures ResidentSize() <= 2 * CountWithin(buf, grid.At(nextIndex) - grid.step - width, grid.At(nextIndex)) + 1
      ensures ResidentSize() <= 2 * (width + grid.step) + 1
    {
      hide Collapse, Select, Expected, IsTail, UpTo, After, LastAfter, Grid.At, Grid.Count, SortedByT, StrictByT;
      hide CountWithin;
      var d := Collapse(fed);
      CollapseIsStrict(fed);
      TailIsStrict(d, dropped, buf, pending);
      var low := grid.At(nextIndex) - grid.step - width;
      var settled := if ended && nextIndex < grid.Count() && buf != [] then |buf| - 1 else |buf|;
      ResidentAreNeeded(settled);
      CountWithinAtLeast(buf, low, grid.At(nextIndex), lo, settled);
      CountWithinAtMost(buf, low, grid.At(nextIndex));
    }

    /** While readings may still come inside the bounds, some grid point is still open. */
    lemma NotExhaustedEarly()
      requires Valid() && !ended && forall k :: 0 <= k < |fed| ==> grid.start - width <= fed[k].t <= grid.end
      ensures nextIndex < grid.Count()
    {
      hide Collapse, Select, Expected, IsTail, UpTo, After, Grid.At, Grid.Count, Grid.Valid;
      CollapseWithin(fed, grid.start - width, grid.end);
      AtEnds(grid);
      if nextIndex == grid.Count() {
        LastOfFeedIsLate();
        assert false;
      }
    }

    lemma ResidentAreNeeded(settled: nat)
      requires Valid() && lo <= settled <= |buf|
      requires forall k :: 0 <= k < |fed| ==> grid.start - width <= fed[k].t <= grid.end
      requires settled == if ended && nextIndex < grid.Count() && buf != [] then |buf| - 1 else |buf|
      ensures forall k :: lo <= k < settled ==>
                grid.At(nextIndex) - grid.step - width < buf[k].t <= grid.At(nextIndex)
    {
      hide Collapse, Select, Expected, IsTail, Grid.At, Grid.Count, Grid.Valid;
      CollapseWithin(fed, grid.start - width, grid.end);
      AtEnds(grid);
      AtOrder(grid, nextIndex - 1, nextIndex);
      if !ended {
        NotExhaustedEarly();
      }
      forall k | lo <= k < settled
        ensures grid.At(nextIndex) - grid.step - width < buf[k].t <= grid.At(nextIndex)
      {
        TailAt(Collapse(fed), dropped, buf, pending, k);
      }
    }

    /** The law needs its premise: readings fed before the first grid point are all kept, so
        the resident readings then grow with the feed. */
    lemma BeforeTheGridEverythingIsKept()
      requires Valid() && !ended && fed != []
      requires forall k :: 0 <= k < |fed| ==> fed[k].t <= grid.start
      ensures nextIndex == 0 && ResidentSize() == |Collapse(fed)| - 1
    {
      CollapseWithin(fed, fed[0].t, grid.start);
      AtEnds(grid);
      if nextIndex > 0 {
        LastOfFeedIsLate();
        if nextIndex > 1 {
          AtOrder(grid, 0, nextIndex - 1);
        }
        assert false;
      }
    }

    /** So are readings past the end of the grid: every point is emitted, and nothing is dropped. */
    lemma AfterTheGridEverythingIsKept()
      requires Valid() && !ended && fed != []
      requires forall k :: 0 <= k < |fed| ==> fed[k].t > grid.end
      ensures ResidentSize() == |Collapse(fed)| - 1
    {
      hide Collapse, Select, Expected, UpTo, Grid.At, Grid.Count, DedupPolicy;
      CollapseIsStrict(fed);
      CollapseWithin(fed, grid.end + 1, fed[|fed| - 1].t);
      AtEnds(grid);
      if nextIndex > 0 {
        AtInRange(grid, nextIndex - 1);
      } else {
        AtOrder(grid, -1, 0);
      }
      assert grid.end >= grid.At(nextIndex - 1) - width;
      NothingPassed();
    }

    /** A pointer has passed only readings at or before the last emitted window's edge. */
    lemma NothingPassed()
      requires Valid() && forall k :: 0 <= k < |Collapse(fed)| ==> Collapse(fed)[k].t > grid.At(nextIndex - 1) - width
      ensures dropped + lo == 0
    {
      hide Collapse, Select, Expected, IsTail, Grid.At, Grid.Count, Grid.Valid;
      if dropped + lo > 0 {
        UpToAt(Collapse(fed), dropped + lo, grid.At(nextIndex - 1) - width, 0);
      }
    }

    /** The resident readings that a later window may still admit: those past the lower edge of the
        last emitted one, or all of them before the first emission. */
    ghost function StillNeeded(): nat
      reads this
    {
      if nextIndex == 0 || buf == [] then |buf|
      else CountWithin(buf, grid.At(nextIndex - 1) - width, buf[|buf| - 1].t)
    }

    /** The law without its premise: the slack of the compaction never exceeds what is needed,
        wherever the readings lie. */
    lemma ResidentIsAtMostTwiceNeeded()
      requires Valid()
      ensures ResidentSize() <= 2 * StillNeeded()
      ensures StillNeeded() == ResidentSize() - lo
      ensures nextIndex == 0 ==> dropped == 0 && lo == 0
      ensures nextIndex > 0 ==>
                && (forall k :: 0 <= k < lo ==> buf[k].t <= grid.At(nextIndex - 1) - width)
                && (forall k :: lo <= k < |buf| ==> buf[k].t > grid.At(nextIndex - 1) - width)
    {
      hide Collapse, Select, Expected, IsTail, UpTo, Grid.At, Grid.Count, SortedByT, StrictByT, CountWithin;
      var d := Collapse(fed);
      CollapseIsStrict(fed);
      TailIsStrict(d, dropped, buf, pending);
      if nextIndex > 0 && buf != [] {
        var low := grid.At(nextIndex - 1) - width;
        forall k | lo <= k < |buf| ensures low < buf[k].t <= buf[|buf| - 1].t {
          TailAt(d, dropped, buf, pending, k);
          StrictIsOrdered(buf, k);
        }
        forall k | 0 <= k < lo ensures buf[k].t <= low {
          TailAt(d, dropped, buf, pending, k);
          UpToAt(d, dropped + lo, low, dropped + k);
        }
        CountWithinSplit(buf, low, buf[|buf| - 1].t, lo);
      }
    }

    /** Amortised compaction: all the erases of a run together move no more readings than were
        fed. */
    lemma ShiftsAreAmortised()
      requires Valid()
      ensures shifted <= |fed|
    {
      CollapseIsNotLonger(fed);
    }
  }

  lemma StrictIsOrdered(d: seq<CounterSample>, k: nat)
    requires StrictByT(d) && k < |d|
    ensures d[k].t <= d[|d| - 1].t
  {
  }

  lemma UpToWeakens(d: seq<CounterSample>, n: nat, x: int, y: int)
    requires UpTo(d, n, x) && x <= y
    ensures UpTo(d, n, y)
  {
  }

  lemma UpToAt(d: seq<CounterSample>, n: nat, x: int, k: nat)
    requires UpTo(d, n, x) && k < n
    ensures d[k].t <= x
  {
  }
}
