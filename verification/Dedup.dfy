/** Ordering readings by time and keeping one reading for each timestamp. */
module Dedup {
  import opened Readings
  import opened Doubles

  // ---- stable sort by timestamp (the library sort, by what it returns) ----

  /** Inserts `s` after every reading that is not later than it. */
  function InsertByT<V, S>(d: seq<Reading<V, S>>, s: Reading<V, S>): seq<Reading<V, S>> {
    if d == [] || d[|d| - 1].t <= s.t then d + [s]
    else InsertByT(d[..|d| - 1], s) + [d[|d| - 1]]
  }

  function StableSort<V, S>(rows: seq<Reading<V, S>>): seq<Reading<V, S>> {
    if rows == [] then [] else InsertByT(StableSort(rows[..|rows| - 1]), rows[|rows| - 1])
  }

  lemma {:induction false} InsertByTSorts<V, S>(d: seq<Reading<V, S>>, s: Reading<V, S>, bound: int)
    requires SortedByT(d) && s.t <= bound
    requires forall k :: 0 <= k < |d| ==> d[k].t <= bound
    ensures SortedByT(InsertByT(d, s))
    ensures forall k :: 0 <= k < |InsertByT(d, s)| ==> InsertByT(d, s)[k].t <= bound
  {
    if !(d == [] || d[|d| - 1].t <= s.t) {
      InsertByTSorts(d[..|d| - 1], s, d[|d| - 1].t);
    }
  }

  lemma {:induction false} InsertByTPermutes<V, S>(d: seq<Reading<V, S>>, s: Reading<V, S>)
    ensures multiset(InsertByT(d, s)) == multiset(d) + multiset{s}
  {
    if !(d == [] || d[|d| - 1].t <= s.t) {
      InsertByTPermutes(d[..|d| - 1], s);
      assert d == d[..|d| - 1] + [d[|d| - 1]];
    }
  }

  lemma {:induction false} StableSortSorts<V, S>(rows: seq<Reading<V, S>>)
    ensures SortedByT(StableSort(rows))
    ensures multiset(StableSort(rows)) == multiset(rows)
  {
    if rows != [] {
      var init, s := rows[..|rows| - 1], rows[|rows| - 1];
      var d := StableSort(init);
      StableSortSorts(init);
      InsertByTSorts(d, s, if d == [] || d[|d| - 1].t <= s.t then s.t else d[|d| - 1].t);
      InsertByTPermutes(d, s);
      assert rows == init + [s];
    }
  }

  /** The readings at one timestamp, in order. */
  function AtTime<V, S>(d: seq<Reading<V, S>>, t: int): seq<Reading<V, S>> {
    if d == [] then []
    else
      var init, last := AtTime(d[..|d| - 1], t), d[|d| - 1];
      if last.t == t then init + [last] else init
  }

  lemma {:induction false} InsertByTIsStable<V, S>(d: seq<Reading<V, S>>, s: Reading<V, S>, t: int)
    requires SortedByT(d)
    ensures AtTime(InsertByT(d, s), t) == AtTime(d, t) + if s.t == t then [s] else []
  {
    if d == [] || d[|d| - 1].t <= s.t {
      assert (d + [s])[..|d|] == d;
    } else {
      var init, last := d[..|d| - 1], d[|d| - 1];
      InsertByTIsStable(init, s, t);
      var e := InsertByT(init, s);
      assert (e + [last])[..|e|] == e;
    }
  }

  /** The sort keeps the order of readings that share a timestamp. */
  lemma {:induction false} StableSortIsStable<V, S>(rows: seq<Reading<V, S>>, t: int)
    ensures AtTime(StableSort(rows), t) == AtTime(rows, t)
  {
    if rows != [] {
      var init, last := rows[..|rows| - 1], rows[|rows| - 1];
      StableSortIsStable(init, t);
      StableSortSorts(init);
      InsertByTIsStable(StableSort(init), last, t);
    }
  }

  lemma SameMembers<T>(a: seq<T>, b: seq<T>)
    requires multiset(a) == multiset(b)
    ensures |a| == |b| && forall x :: x in a <==> x in b
  {
    forall x ensures x in a <==> x in b {
      assert x in multiset(a) <==> x in multiset(b);
    }
    assert |multiset(a)| == |a| && |multiset(b)| == |b|;
  }

  // ---- one reading for each timestamp ----

  /** What one more reading, not earlier than the last one, does to a deduplicated series. */
  function Absorb<S>(d: seq<Reading<Bits, S>>, s: Reading<Bits, S>): seq<Reading<Bits, S>> {
    if d != [] && d[|d| - 1].t == s.t then
      if DedupPolicy(s.v, d[|d| - 1].v) then d[..|d| - 1] + [s] else d
    else d + [s]
  }

  /** Left-to-right deduplication of a series that arrives in time order. */
  function Collapse<S>(rows: seq<Reading<Bits, S>>): seq<Reading<Bits, S>> {
    if rows == [] then [] else Absorb(Collapse(rows[..|rows| - 1]), rows[|rows| - 1])
  }

  function SortDedup<S>(rows: seq<Reading<Bits, S>>): seq<Reading<Bits, S>> {
    Collapse(StableSort(rows))
  }

  /** `d` keeps, for each timestamp of `rows`, one of the rows whose value nothing there beats. */
  ghost predicate IsCanonical<S>(rows: seq<Reading<Bits, S>>, d: seq<Reading<Bits, S>>) {
    && StrictByT(d)
    && (forall x :: x in d ==> x in rows)
    && (forall r :: r in rows ==> Kept(r, d))
  }

  ghost predicate Kept<S>(r: Reading<Bits, S>, d: seq<Reading<Bits, S>>) {
    exists k :: 0 <= k < |d| && d[k].t == r.t && !DedupPolicy(r.v, d[k].v)
  }

  lemma {:induction false} CollapseIsCanonical<S>(rows: seq<Reading<Bits, S>>)
    requires SortedByT(rows)
    ensures IsCanonical(rows, Collapse(rows))
    ensures rows != [] ==> Collapse(rows) != [] && Collapse(rows)[|Collapse(rows)| - 1].t == rows[|rows| - 1].t
  {
    hide DedupPolicy;
    if rows != [] {
      CollapseIsCanonical(rows[..|rows| - 1]);
      AbsorbKeepsCanonical(rows, Collapse(rows[..|rows| - 1]));
    }
  }

  lemma CollapseIsStrict<S>(rows: seq<Reading<Bits, S>>)
    requires SortedByT(rows)
    ensures StrictByT(Collapse(rows)) && (Collapse(rows) == [] <==> rows == [])
    ensures rows != [] ==> Collapse(rows)[|Collapse(rows)| - 1].t == rows[|rows| - 1].t
  {
    CollapseIsCanonical(rows);
  }

  lemma CollapseKeepsRows<S>(rows: seq<Reading<Bits, S>>)
    requires SortedByT(rows)
    ensures forall x :: x in Collapse(rows) ==> x in rows
  {
    CollapseIsCanonical(rows);
  }

  lemma CollapseWithin<S>(rows: seq<Reading<Bits, S>>, low: int, high: int)
    requires SortedByT(rows) && forall k :: 0 <= k < |rows| ==> low <= rows[k].t <= high
    ensures forall k :: 0 <= k < |Collapse(rows)| ==> low <= Collapse(rows)[k].t <= high
  {
    CollapseIsCanonical(rows);
    var d := Collapse(rows);
    forall k | 0 <= k < |d| ensures low <= d[k].t <= high {
      assert d[k] in rows;
    }
  }

  lemma {:induction false} CollapseIsNotLonger<S>(rows: seq<Reading<Bits, S>>)
    ensures |Collapse(rows)| <= |rows|
  {
    if rows != [] {
      CollapseIsNotLonger(rows[..|rows| - 1]);
    }
  }

  lemma CollapseOneMore<S>(rows: seq<Reading<Bits, S>>, s: Reading<Bits, S>)
    requires SortedByT(rows) && (rows != [] ==> rows[|rows| - 1].t <= s.t)
    ensures SortedByT(rows + [s]) && Collapse(rows + [s]) == Absorb(Collapse(rows), s)
  {
    hide DedupPolicy, Absorb, SortedByT;
    SortedOneMore(rows, s);
    var all := rows + [s];
    assert all[..|all| - 1] == rows && all[|all| - 1] == s;
  }

  lemma SortedOneMore<V, S>(rows: seq<Reading<V, S>>, s: Reading<V, S>)
    requires SortedByT(rows) && (rows != [] ==> rows[|rows| - 1].t <= s.t)
    ensures SortedByT(rows + [s])
  {
  }

  lemma AbsorbKeepsCanonical<S>(rows: seq<Reading<Bits, S>>, d: seq<Reading<Bits, S>>)
    requires SortedByT(rows) && rows != [] && IsCanonical(rows[..|rows| - 1], d)
    requires |rows| > 1 ==> d != [] && d[|d| - 1].t == rows[|rows| - 2].t
    ensures IsCanonical(rows, Absorb(d, rows[|rows| - 1]))
    ensures Absorb(d, rows[|rows| - 1])[|Absorb(d, rows[|rows| - 1])| - 1].t == rows[|rows| - 1].t
  {
    hide DedupPolicy;
    var init, s := rows[..|rows| - 1], rows[|rows| - 1];
    assert d != [] ==> d[0] in init && d[|d| - 1].t <= s.t;
    AbsorbExtends(d, s);
    hide Absorb;
    var e := Absorb(d, s);
    forall x | x in e ensures x in rows {
      assert x in d ==> x in init;
    }
    forall r | r in rows ensures Kept(r, e) {
      assert r in init || r == s;
      AbsorbKeeps(init, d, s, r);
    }
  }

  lemma AbsorbExtends<S>(d: seq<Reading<Bits, S>>, s: Reading<Bits, S>)
    requires StrictByT(d) && (d != [] ==> d[|d| - 1].t <= s.t)
    ensures StrictByT(Absorb(d, s)) && Absorb(d, s)[|Absorb(d, s)| - 1].t == s.t
    ensures forall x :: x in Absorb(d, s) ==> x in d || x == s
  {
    hide DedupPolicy;
    var e := Absorb(d, s);
    forall x | x in e ensures x in d || x == s {
      var k :| 0 <= k < |e| && e[k] == x;
      assert (k < |d| && e[k] == d[k]) || e[k] == s;
    }
  }

  lemma AbsorbKeeps<S>(rows: seq<Reading<Bits, S>>, d: seq<Reading<Bits, S>>, s: Reading<Bits, S>,
                       r: Reading<Bits, S>)
    requires IsCanonical(rows, d) && (r in rows || r == s)
    ensures Kept(r, Absorb(d, s))
  {
    hide DedupPolicy;
    var e := Absorb(d, s);
    DedupPolicyIsStrictTotalOrder(s.v, s.v, s.v);
    if r in rows {
      assert Kept(r, d);
      var k :| 0 <= k < |d| && d[k].t == r.t && !DedupPolicy(r.v, d[k].v);
      if e[k] == s {
        DedupPolicyIsStrictTotalOrder(r.v, s.v, d[k].v);
        DedupPolicyIsStrictTotalOrder(s.v, d[k].v, r.v);
        assert e[k].t == r.t;
      }
    } else {
      assert e[|e| - 1].t == s.t;
      if e == d {
        assert !DedupPolicy(s.v, e[|e| - 1].v);
      }
    }
  }

  // ---- there is only one canonical form ----

  lemma {:induction false} StrictSetsAgree<V, S>(d: seq<Reading<V, S>>, e: seq<Reading<V, S>>)
    requires StrictByT(d) && StrictByT(e)
    requires forall x :: x in d <==> x in e
    ensures d == e
    decreases |d|
  {
    assert |d| > 0 ==> d[0] in e;
    assert |e| > 0 ==> e[0] in d;
    if d != [] {
      var m, n := |d| - 1, |e| - 1;
      assert d[m] in e && e[n] in d;
      assert d[m].t <= e[n].t && e[n].t <= d[m].t;
      assert d[m] == e[n];
      forall x ensures x in d[..m] <==> x in e[..n] {
        if x in d[..m] { assert x in e && x.t < e[n].t; }
        if x in e[..n] { assert x in d && x.t < d[m].t; }
      }
      StrictSetsAgree(d[..m], e[..n]);
      assert d == d[..m] + [d[m]] && e == e[..n] + [e[n]];
    }
  }

  lemma MemberOfOtherCanonical(a: seq<Sample>, d: seq<Sample>, b: seq<Sample>, e: seq<Sample>, x: Sample)
    requires IsCanonical(a, d) && IsCanonical(b, e)
    requires forall r :: r in a <==> r in b
    requires x in d
    ensures x in e
  {
    assert x in a && x in b && Kept(x, e);
    var j :| 0 <= j < |e| && e[j].t == x.t && !DedupPolicy(x.v, e[j].v);
    assert e[j] in e && e[j] in b && e[j] in a && Kept(e[j], d);
    var k :| 0 <= k < |d| && d[k].t == e[j].t && !DedupPolicy(e[j].v, d[k].v);
    var i :| 0 <= i < |d| && d[i] == x;
    assert i == k;
    DedupPolicyIsStrictTotalOrder(x.v, e[j].v, x.v);
    assert e[j].st == x.st == ();
    assert e[j] == x;
  }

  /** The canonical form of a set of samples is unique. */
  lemma CanonicalIsUnique(a: seq<Sample>, d: seq<Sample>, b: seq<Sample>, e: seq<Sample>)
    requires IsCanonical(a, d) && IsCanonical(b, e)
    requires forall r :: r in a <==> r in b
    ensures d == e
  {
    forall x ensures x in d <==> x in e {
      if x in d { MemberOfOtherCanonical(a, d, b, e, x); }
      if x in e { MemberOfOtherCanonical(b, e, a, d, x); }
    }
    StrictSetsAgree(d, e);
  }

  lemma SortDedupIsCanonical<S>(rows: seq<Reading<Bits, S>>)
    ensures IsCanonical(rows, SortDedup(rows))
  {
    StableSortSorts(rows);
    CollapseIsCanonical(StableSort(rows));
    SameMembers(rows, StableSort(rows));
    var d := SortDedup(rows);
    forall x | x in d ensures x in rows {
      assert x in Collapse(StableSort(rows));
      assert x in StableSort(rows);
    }
    forall r | r in rows ensures Kept(r, d) {
      assert r in StableSort(rows);
    }
  }

  /** `SortDedup` returns the one canonical form, and so forgets the order and the number of
      copies in which the samples arrived. */
  lemma SortDedupIsTheCanonicalForm(rows: seq<Sample>, other: seq<Sample>, d: seq<Sample>)
    requires forall r :: r in rows <==> r in other
    ensures IsCanonical(rows, d) <==> d == SortDedup(other)
  {
    SortDedupIsCanonical(other);
    SortDedupIsCanonical(rows);
    CanonicalIsUnique(rows, SortDedup(rows), other, SortDedup(other));
    if IsCanonical(rows, d) {
      CanonicalIsUnique(rows, d, other, SortDedup(other));
    }
  }

  /** Among finite numbers at one timestamp, the one kept is the greatest. */
  lemma GreatestIsKept(rows: seq<Sample>, x: Sample, r: Sample)
    requires x in SortDedup(rows) && r in rows && r.t == x.t
    requires ExponentField(x.v) != 0x7FF && ExponentField(r.v) != 0x7FF
    ensures FieldValue(r.v) <= FieldValue(x.v)
    ensures FieldValue(r.v) == FieldValue(x.v) && SignField(x.v) ==> SignField(r.v)
  {
    hide DedupPolicy, SortDedup, ExponentField, FieldValue;
    SortDedupIsCanonical(rows);
    var d := SortDedup(rows);
    assert Kept(r, d);
    var k :| 0 <= k < |d| && d[k].t == r.t && !DedupPolicy(r.v, d[k].v);
    var j :| 0 <= j < |d| && d[j] == x;
    assert j == k;
    GreaterNumberWins(x.v, r.v);
  }

  // ---- buffers that were already deduplicated ----

  /** `buffer` stands for `rows`: it holds some of them, and for each one a sample at the same
      timestamp that it does not beat. A raw buffer, a deduplicated one and every mixture that
      merging makes of them stand for their rows in this sense. */
  ghost predicate StandsFor(buffer: seq<Sample>, rows: seq<Sample>) {
    && (forall x :: x in buffer ==> x in rows)
    && (forall r :: r in rows ==> Dominated(r, buffer))
  }

  ghost predicate Dominated(r: Sample, buffer: seq<Sample>) {
    exists x :: x in buffer && x.t == r.t && !DedupPolicy(r.v, x.v)
  }

  lemma StandsForItself(rows: seq<Sample>)
    ensures StandsFor(rows, rows)
  {
    forall r | r in rows ensures Dominated(r, rows) {
      DedupPolicyIsStrictTotalOrder(r.v, r.v, r.v);
    }
  }

  lemma StandsForMerged(a: seq<Sample>, rows: seq<Sample>, b: seq<Sample>, more: seq<Sample>)
    requires StandsFor(a, rows) && StandsFor(b, more)
    ensures StandsFor(a + b, rows + more)
  {
    forall r | r in rows + more ensures Dominated(r, a + b) {
      if r in rows {
        assert Dominated(r, a);
        var x :| x in a && x.t == r.t && !DedupPolicy(r.v, x.v);
        assert x in a + b;
      } else {
        assert Dominated(r, b);
        var x :| x in b && x.t == r.t && !DedupPolicy(r.v, x.v);
        assert x in a + b;
      }
    }
  }

  lemma StandInKeeps(buffer: seq<Sample>, rows: seq<Sample>, d: seq<Sample>, r: Sample)
    requires StandsFor(buffer, rows) && IsCanonical(buffer, d) && r in rows
    ensures Kept(r, d) && Dominated(r, d)
  {
    hide DedupPolicy;
    assert Dominated(r, buffer);
    var x :| x in buffer && x.t == r.t && !DedupPolicy(r.v, x.v);
    assert Kept(x, d);
    var k :| 0 <= k < |d| && d[k].t == x.t && !DedupPolicy(x.v, d[k].v);
    NotBeatenChain(r.v, x.v, d[k].v);
    assert d[k] in d;
  }

  /** Deduplicating a buffer gives the canonical form of the rows it stands for. */
  lemma SortDedupOfStandIn(buffer: seq<Sample>, rows: seq<Sample>)
    requires StandsFor(buffer, rows)
    ensures SortDedup(buffer) == SortDedup(rows)
    ensures StandsFor(SortDedup(buffer), rows)
  {
    hide DedupPolicy, SortDedup, Dominated, Kept;
    SortDedupIsCanonical(buffer);
    var d := SortDedup(buffer);
    forall r | r in rows ensures Kept(r, d) && Dominated(r, d) {
      StandInKeeps(buffer, rows, d, r);
    }
    SortDedupIsTheCanonicalForm(rows, rows, d);
  }

  /** Merging buffers that were deduplicated separately, then deduplicating, equals
      deduplicating the plain concatenation. */
  lemma DedupAfterMerge(a: seq<Sample>, b: seq<Sample>)
    ensures SortDedup(SortDedup(a) + SortDedup(b)) == SortDedup(a + b)
    ensures SortDedup(SortDedup(a)) == SortDedup(a)
  {
    StandsForItself(a);
    StandsForItself(b);
    SortDedupOfStandIn(a, a);
    SortDedupOfStandIn(b, b);
    StandsForMerged(SortDedup(a), a, SortDedup(b), b);
    SortDedupOfStandIn(SortDedup(a) + SortDedup(b), a + b);
    SortDedupOfStandIn(SortDedup(a), a);
  }

  // ---- forgetting the start timestamps ----

  function StripOne<V, S>(r: Reading<V, S>): Reading<V, ()> {
    Reading(r.t, r.v, ())
  }

  function Strip<V, S>(rows: seq<Reading<V, S>>): (r: seq<Reading<V, ()>>)
    ensures |r| == |rows|
    ensures forall i :: 0 <= i < |r| ==> r[i] == StripOne(rows[i])
  {
    seq(|rows|, i requires 0 <= i < |rows| => StripOne(rows[i]))
  }

  lemma StripAbsorb<S>(d: seq<Reading<Bits, S>>, s: Reading<Bits, S>)
    ensures Strip(Absorb(d, s)) == Absorb(Strip(d), StripOne(s))
  {
  }

  lemma {:induction false} StripCollapse<S>(rows: seq<Reading<Bits, S>>)
    ensures Strip(Collapse(rows)) == Collapse(Strip(rows))
  {
    if rows != [] {
      var init, s := rows[..|rows| - 1], rows[|rows| - 1];
      StripCollapse(init);
      assert Strip(rows)[..|rows| - 1] == Strip(init);
      StripAbsorb(Collapse(init), s);
    }
  }
}
