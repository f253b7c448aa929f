/** The stream and the aggregate keep the same readings: one deduplicates whole readings in time
    order, the other deduplicates values and joins the start timestamps back. */
module Parity {
  import opened Readings
  import opened Doubles
  import opened Dedup
  import opened Windows
  import opened Series

  /** No row at the timestamp of `b` beats it. */
  ghost predicate Top(b: CounterSample, rows: seq<CounterSample>) {
    forall c :: c in rows && c.t == b.t ==> !DedupPolicy(c.v, b.v)
  }

  /** Where some row carries a start timestamp, every row whose value may be kept carries one. */
  ghost predicate TopCarries(rows: seq<CounterSample>) {
    forall a, b :: a in rows && b in rows && a.t == b.t && a.st.Some? && Top(b, rows) ==> b.st.Some?
  }

  ghost predicate StCoherent(rows: seq<CounterSample>) {
    StAgree(rows) && TopCarries(rows)
  }

  /** Rows of one timestamp that agree on their start timestamp altogether, absent or not, are
      coherent. */
  lemma FullAgreementIsCoherent(rows: seq<CounterSample>)
    requires forall a, b :: a in rows && b in rows && a.t == b.t ==> a.st == b.st
    ensures StCoherent(rows)
  {
  }

  lemma SurvivorIsTop(rows: seq<CounterSample>, d: seq<CounterSample>, k: nat)
    requires IsCanonical(rows, d) && k < |d|
    ensures d[k] in rows && Top(d[k], rows)
  {
    hide DedupPolicy;
    forall c | c in rows && c.t == d[k].t ensures !DedupPolicy(c.v, d[k].v) {
      assert Kept(c, d);
      var j :| 0 <= j < |d| && d[j].t == c.t && !DedupPolicy(c.v, d[j].v);
      assert j == k;
    }
  }

  lemma SurvivorCarriesTheJoinedStamp(rows: seq<CounterSample>, s: CounterSample, arrival: seq<CounterSample>)
    requires StCoherent(rows) && s in rows && Top(s, rows)
    requires forall r :: r in rows <==> r in arrival
    ensures s == JoinOne(StripOne(s), StByT(StPairs(arrival)))
  {
    hide DedupPolicy;
    RowsStandForThemselves(arrival);
    JoinedStampIsTheCarriedOne(StPairs(arrival), arrival, s.t);
    if s.st.Some? {
      assert Carries(arrival, s.t, s.st.value);
    } else {
      assert forall st :: !Carries(arrival, s.t, st);
    }
  }

  lemma StripOfCanonical(rows: seq<CounterSample>, d: seq<CounterSample>, arrival: seq<CounterSample>)
    requires IsCanonical(rows, d)
    requires forall r :: r in rows <==> r in arrival
    ensures Strip(d) == SortDedup(Strip(arrival))
  {
    hide DedupPolicy;
    StripIsCanonical(rows, d);
    StripMembers(rows, arrival);
    SortDedupIsTheCanonicalForm(Strip(rows), Strip(arrival), Strip(d));
  }

  lemma StripIsCanonical(rows: seq<CounterSample>, d: seq<CounterSample>)
    requires IsCanonical(rows, d)
    ensures IsCanonical(Strip(rows), Strip(d))
  {
    hide DedupPolicy;
    forall x | x in Strip(d) ensures x in Strip(rows) {
      var k :| 0 <= k < |d| && Strip(d)[k] == x;
      assert d[k] in d;
      var i :| 0 <= i < |rows| && rows[i] == d[k];
      assert Strip(rows)[i] == x;
    }
    forall r | r in Strip(rows) ensures Kept(r, Strip(d)) {
      var i :| 0 <= i < |rows| && Strip(rows)[i] == r;
      assert rows[i] in rows && Kept(rows[i], d);
      var k :| 0 <= k < |d| && d[k].t == rows[i].t && !DedupPolicy(rows[i].v, d[k].v);
      assert Strip(d)[k].t == r.t && Strip(d)[k].v == d[k].v;
    }
  }

  /** Feeding the rows in any time order, ties in any order, leaves exactly the readings the
      aggregate hands to its fold, whatever order its rows arrived in. */
  lemma CollapseEqualsSeries(sorted: seq<CounterSample>, arrival: seq<CounterSample>)
    requires SortedByT(sorted) && StCoherent(sorted)
    requires forall r :: r in sorted <==> r in arrival
    ensures Collapse(sorted) == SeriesOf(arrival)
  {
    CollapseIsCanonical(sorted);
    hide Collapse, StCoherent, DedupPolicy, StByT;
    var d := Collapse(sorted);
    StripOfCanonical(sorted, d, arrival);
    forall k | 0 <= k < |d| ensures d[k] == SeriesOf(arrival)[k] {
      SurvivorIsTop(sorted, d, k);
      SurvivorCarriesTheJoinedStamp(sorted, d[k], arrival);
      assert Strip(d)[k] == StripOne(d[k]);
    }
  }

  // ---- the premise is exact ----

  lemma {:induction false} FirstTopSurvives(before: seq<CounterSample>, b: CounterSample, more: seq<CounterSample>)
    requires SortedByT(before + [b] + more)
    requires forall c :: c in before ==> c.t < b.t
    requires forall c :: c in more && c.t == b.t ==> !DedupPolicy(c.v, b.v)
    ensures b in Collapse(before + [b] + more)
    decreases |more|
  {
    hide DedupPolicy, Collapse, Absorb;
    var all := before + [b] + more;
    if more == [] {
      assert all == before + [b];
      assert SortedByT(before) by {
        assert forall i :: 0 <= i < |before| ==> before[i] == all[i];
      }
      AppendedSurvives(before, b);
    } else {
      var n := |more| - 1;
      var init := before + [b] + more[..n];
      assert all == init + [more[n]];
      assert forall i :: 0 <= i < |init| ==> init[i] == all[i];
      FirstTopSurvives(before, b, more[..n]);
      assert init[|init| - 1].t <= more[n].t by {
        assert all[|init| - 1].t <= all[|init|].t;
      }
      CollapseOneMore(init, more[n]);
      CollapseIsStrict(init);
      AbsorbKeepsTop(Collapse(init), b, more[n]);
    }
  }

  lemma AppendedSurvives(before: seq<CounterSample>, b: CounterSample)
    requires SortedByT(before) && forall c :: c in before ==> c.t < b.t
    ensures b in Collapse(before + [b])
  {
    hide DedupPolicy;
    assert before != [] ==> before[|before| - 1] in before;
    CollapseOneMore(before, b);
    CollapseIsStrict(before);
    hide Collapse;
    var d := Collapse(before);
    assert Absorb(d, b)[|Absorb(d, b)| - 1] == b;
  }

  lemma AbsorbKeepsTop(d: seq<CounterSample>, b: CounterSample, c: CounterSample)
    requires StrictByT(d) && b in d && (c.t == b.t ==> !DedupPolicy(c.v, b.v))
    ensures b in Absorb(d, c)
  {
    hide DedupPolicy;
    var k :| 0 <= k < |d| && d[k] == b;
    var e := Absorb(d, c);
    assert e[k] == b;
  }

  /** A time order of `rows` that feeds the reading at index `i` first among its ties. */
  lemma TimeOrderWithFirst(rows: seq<CounterSample>, i: nat)
    returns (before: seq<CounterSample>, more: seq<CounterSample>)
    requires i < |rows|
    ensures SortedByT(before + [rows[i]] + more)
    ensures multiset(before + [rows[i]] + more) == multiset(rows)
    ensures forall c :: c in before ==> c.t < rows[i].t
    ensures forall c :: c in more ==> c in rows
  {
    hide StableSort, UpperBound;
    var b := rows[i];
    var rest := rows[..i] + rows[i + 1..];
    assert rows == rows[..i] + [b] + rows[i + 1..];
    StableSortSorts(rest);
    var base := StableSort(rest);
    var k := UpperBound(base, b.t - 1);
    before, more := base[..k], base[k..];
    assert base == before + more;
    SortedWithMiddle(base, b, k);
    assert multiset(before + [b] + more) == multiset(base) + multiset{b};
    forall c | c in more ensures c in rows {
      assert c in base;
      assert c in multiset(base);
    }
  }

  lemma SortedWithMiddle(base: seq<CounterSample>, b: CounterSample, k: nat)
    requires SortedByT(base) && IsUpperBound(base, b.t - 1, k)
    ensures SortedByT(base[..k] + [b] + base[k..])
    ensures forall c :: c in base[..k] ==> c.t < b.t
  {
  }

  lemma IncoherenceShows(rows: seq<CounterSample>)
    requires StAgree(rows) && !TopCarries(rows)
    ensures exists sorted ::
              multiset(sorted) == multiset(rows) && SortedByT(sorted) && Collapse(sorted) != SeriesOf(rows)
  {
    hide DedupPolicy, Collapse;
    var a, b :| a in rows && b in rows && a.t == b.t && a.st.Some? && Top(b, rows) && b.st.None?;
    var i :| 0 <= i < |rows| && rows[i] == b;
    var before, more := TimeOrderWithFirst(rows, i);
    FirstTopSurvives(before, b, more);
    BareIsNotJoined(rows, a, b);
    assert Collapse(before + [b] + more) != SeriesOf(rows);
  }

  /** A reading without a start timestamp is not in the joined series when its timestamp has one. */
  lemma BareIsNotJoined(rows: seq<CounterSample>, a: CounterSample, b: CounterSample)
    requires a in rows && a.t == b.t && a.st.Some? && b.st.None?
    ensures b !in SeriesOf(rows)
  {
    hide SortDedup;
    StByTReadsThePairs(StPairs(rows), b.t);
    assert Carries(rows, b.t, a.st.value);
    PairsCarry(rows, b.t, a.st.value);
    assert b.t in StByT(StPairs(rows));
  }

  /** Stream and aggregate keep the same readings on every time order and every arrival order of the
      rows if and only if the start timestamps are coherent. */
  lemma ParityIffCoherent(rows: seq<CounterSample>)
    ensures StCoherent(rows) <==>
            forall sorted, arrival ::
              multiset(sorted) == multiset(rows) && multiset(arrival) == multiset(rows) && SortedByT(sorted)
              ==> Collapse(sorted) == SeriesOf(arrival)
  {
    if StCoherent(rows) {
      forall sorted, arrival |
        multiset(sorted) == multiset(rows) && multiset(arrival) == multiset(rows) && SortedByT(sorted)
        ensures Collapse(sorted) == SeriesOf(arrival)
      {
        CoherentPermutationsAgree(rows, sorted, arrival);
      }
    } else if StAgree(rows) {
      IncoherenceShows(rows);
    } else {
      DisagreementShows(rows);
      var a, b :| multiset(a) == multiset(rows) && multiset(b) == multiset(rows) && SeriesOf(a) != SeriesOf(b);
      StableSortSorts(rows);
      var sorted := StableSort(rows);
      assert Collapse(sorted) != SeriesOf(a) || Collapse(sorted) != SeriesOf(b);
    }
  }

  lemma CoherentPermutationsAgree(rows: seq<CounterSample>, sorted: seq<CounterSample>, arrival: seq<CounterSample>)
    requires StCoherent(rows)
    requires multiset(sorted) == multiset(rows) && multiset(arrival) == multiset(rows) && SortedByT(sorted)
    ensures Collapse(sorted) == SeriesOf(arrival)
  {
    hide Collapse, SeriesOf, DedupPolicy;
    forall r ensures (r in rows <==> r in sorted) && (r in rows <==> r in arrival) {
      assert r in multiset(rows) <==> r in multiset(sorted);
      assert r in multiset(rows) <==> r in multiset(arrival);
    }
    CoherenceIsAboutMembers(rows, sorted);
    CollapseEqualsSeries(sorted, arrival);
  }

  lemma CoherenceIsAboutMembers(rows: seq<CounterSample>, other: seq<CounterSample>)
    requires StCoherent(rows) && forall r :: r in rows <==> r in other
    ensures StCoherent(other)
  {
    hide DedupPolicy;
    forall a, b | a in other && b in other && a.t == b.t && a.st.Some? && Top(b, other)
      ensures b.st.Some?
    {
      assert Top(b, rows);
    }
  }
}
