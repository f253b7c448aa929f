/** From the raw rows of one series to the readings the fold sees: the aggregate keeps the values
    and the start timestamps apart and joins them again by timestamp. */
module Series {
  import opened Readings
  import opened Dedup

  /** The (timestamp, start timestamp) pairs of the rows that carry one, in arrival order. */
  function StPairs(rows: seq<CounterSample>): seq<(int, int)> {
    if rows == [] then []
    else
      var pairs, r := StPairs(rows[..|rows| - 1]), rows[|rows| - 1];
      if r.st.Some? then pairs + [(r.t, r.st.value)] else pairs
  }

  /** The pairs as a map; the last write for a timestamp wins. */
  function StByT(pairs: seq<(int, int)>): map<int, int> {
    if pairs == [] then map[]
    else StByT(pairs[..|pairs| - 1])[pairs[|pairs| - 1].0 := pairs[|pairs| - 1].1]
  }

  function JoinOne(s: Sample, stByT: map<int, int>): CounterSample {
    Reading(s.t, s.v, if s.t in stByT then Some(stByT[s.t]) else None)
  }

  function Join(samples: seq<Sample>, stByT: map<int, int>): (r: seq<CounterSample>)
    ensures |r| == |samples|
    ensures forall i :: 0 <= i < |r| ==> r[i] == JoinOne(samples[i], stByT)
  {
    seq(|samples|, i requires 0 <= i < |samples| => JoinOne(samples[i], stByT))
  }

  lemma StripOfJoin(samples: seq<Sample>, stByT: map<int, int>)
    ensures Strip(Join(samples, stByT)) == samples
  {
    forall i | 0 <= i < |samples| ensures Strip(Join(samples, stByT))[i] == samples[i] {
      assert samples[i].st == ();
    }
  }

  /** What the aggregate hands to the fold when its rows arrive in this order. */
  function SeriesOf(rows: seq<CounterSample>): seq<CounterSample> {
    Join(SortDedup(Strip(rows)), StByT(StPairs(rows)))
  }

  // ---- the joined start timestamps ----

  lemma {:induction false} StPairsAreTheRows(rows: seq<CounterSample>)
    ensures forall p :: p in StPairs(rows) <==> Reading(p.0, 0, Some(p.1)) in Stamps(rows)
    decreases |rows|
  {
    if rows != [] {
      StPairsAreTheRows(rows[..|rows| - 1]);
      var init, r := rows[..|rows| - 1], rows[|rows| - 1];
      assert rows == init + [r];
      assert Stamps(rows) == Stamps(init) + [Reading(r.t, 0, r.st)];
    }
  }

  /** The rows with their values blanked out. */
  ghost function Stamps(rows: seq<CounterSample>): (s: seq<CounterSample>)
    ensures |s| == |rows|
    ensures forall i :: 0 <= i < |s| ==> s[i] == Reading(rows[i].t, 0, rows[i].st)
  {
    seq(|rows|, i requires 0 <= i < |rows| => Reading(rows[i].t, 0, rows[i].st))
  }

  /** Some row at `t` carries the start timestamp `st`. */
  ghost predicate Carries(rows: seq<CounterSample>, t: int, st: int) {
    exists r :: r in rows && r.t == t && r.st == Some(st)
  }

  lemma PairsCarry(rows: seq<CounterSample>, t: int, st: int)
    ensures (t, st) in StPairs(rows) <==> Carries(rows, t, st)
  {
    StPairsAreTheRows(rows);
    var s := Stamps(rows);
    var p := (t, st);
    assert p in StPairs(rows) <==> Reading(p.0, 0, Some(p.1)) in s;
    if Reading(t, 0, Some(st)) in s {
      var i :| 0 <= i < |s| && s[i] == Reading(t, 0, Some(st));
      assert rows[i] in rows;
    }
    if Carries(rows, t, st) {
      var r :| r in rows && r.t == t && r.st == Some(st);
      var i :| 0 <= i < |rows| && rows[i] == r;
      assert s[i] in s;
    }
  }

  lemma {:induction false} StByTReadsThePairs(pairs: seq<(int, int)>, t: int)
    ensures t in StByT(pairs) ==> (t, StByT(pairs)[t]) in pairs
    ensures t !in StByT(pairs) ==> forall st :: (t, st) !in pairs
  {
    if pairs != [] {
      var init, last := pairs[..|pairs| - 1], pairs[|pairs| - 1];
      StByTReadsThePairs(init, t);
      assert pairs == init + [last];
    }
  }

  // ---- the exact premise on start timestamps ----

  /** Rows at one timestamp that carry a start timestamp carry the same one. */
  ghost predicate StAgree(rows: seq<CounterSample>) {
    forall a, b :: a in rows && b in rows && a.t == b.t && a.st.Some? && b.st.Some? ==> a.st == b.st
  }

  /** Pairs that stand for the rows' start timestamps, in whatever order and multiplicity. */
  ghost predicate PairsFor(pairs: seq<(int, int)>, rows: seq<CounterSample>) {
    forall t, st :: (t, st) in pairs <==> Carries(rows, t, st)
  }

  lemma JoinedStampIsTheCarriedOne(pairs: seq<(int, int)>, rows: seq<CounterSample>, t: int)
    requires PairsFor(pairs, rows) && StAgree(rows)
    ensures t in StByT(pairs) <==> exists st :: Carries(rows, t, st)
    ensures forall st :: Carries(rows, t, st) ==> t in StByT(pairs) && StByT(pairs)[t] == st
  {
    StByTReadsThePairs(pairs, t);
    if t in StByT(pairs) {
      var st := StByT(pairs)[t];
      assert (t, st) in pairs && Carries(rows, t, st);
    }
    forall st | Carries(rows, t, st) ensures t in StByT(pairs) && StByT(pairs)[t] == st {
      assert (t, st) in pairs;
      var w := StByT(pairs)[t];
      assert Carries(rows, t, w);
      var a :| a in rows && a.t == t && a.st == Some(st);
      var b :| b in rows && b.t == t && b.st == Some(w);
    }
  }

  /** Any buffer and any pairs that stand for the rows give the same series. */
  lemma JoinIsDetermined(buffer: seq<Sample>, pairs: seq<(int, int)>, rows: seq<CounterSample>,
                         buffer': seq<Sample>, pairs': seq<(int, int)>, rows': seq<CounterSample>)
    requires StandsFor(buffer, Strip(rows)) && PairsFor(pairs, rows)
    requires StandsFor(buffer', Strip(rows')) && PairsFor(pairs', rows')
    requires forall r :: r in rows <==> r in rows'
    requires StAgree(rows)
    ensures Join(SortDedup(buffer), StByT(pairs)) == Join(SortDedup(buffer'), StByT(pairs'))
  {
    SortDedupOfStandIn(buffer, Strip(rows));
    SortDedupOfStandIn(buffer', Strip(rows'));
    StripMembers(rows, rows');
    SortDedupIsTheCanonicalForm(Strip(rows), Strip(rows'), SortDedup(Strip(rows)));
    SortDedupIsCanonical(Strip(rows));
    var d := SortDedup(buffer);
    assert d == SortDedup(buffer');
    forall i | 0 <= i < |d| ensures JoinOne(d[i], StByT(pairs)) == JoinOne(d[i], StByT(pairs')) {
      SameStamp(pairs, rows, pairs', rows', d[i].t);
    }
  }

  lemma SameStamp(pairs: seq<(int, int)>, rows: seq<CounterSample>, pairs': seq<(int, int)>, rows': seq<CounterSample>,
                  t: int)
    requires PairsFor(pairs, rows) && PairsFor(pairs', rows')
    requires forall r :: r in rows <==> r in rows'
    requires StAgree(rows)
    ensures t in StByT(pairs) <==> t in StByT(pairs')
    ensures t in StByT(pairs) ==> StByT(pairs)[t] == StByT(pairs')[t]
  {
    JoinedStampIsTheCarriedOne(pairs, rows, t);
    JoinedStampIsTheCarriedOne(pairs', rows', t);
    forall st ensures Carries(rows, t, st) <==> Carries(rows', t, st) {
    }
  }

  lemma StripMembers(rows: seq<CounterSample>, rows': seq<CounterSample>)
    requires forall r :: r in rows <==> r in rows'
    ensures forall x :: x in Strip(rows) <==> x in Strip(rows')
  {
    forall x ensures x in Strip(rows) <==> x in Strip(rows') {
      if x in Strip(rows) {
        var i :| 0 <= i < |rows| && Strip(rows)[i] == x;
        assert rows[i] in rows';
        var j :| 0 <= j < |rows'| && rows'[j] == rows[i];
        assert Strip(rows')[j] == x;
      }
      if x in Strip(rows') {
        var i :| 0 <= i < |rows'| && Strip(rows')[i] == x;
        assert rows'[i] in rows;
        var j :| 0 <= j < |rows| && rows[j] == rows'[i];
        assert Strip(rows)[j] == x;
      }
    }
  }

  lemma RowsStandForThemselves(rows: seq<CounterSample>)
    ensures StandsFor(Strip(rows), Strip(rows)) && PairsFor(StPairs(rows), rows)
  {
    StandsForItself(Strip(rows));
    forall t, st ensures (t, st) in StPairs(rows) <==> Carries(rows, t, st) {
      PairsCarry(rows, t, st);
    }
  }

  // ---- the series forgets the arrival order exactly when the start timestamps agree ----

  lemma SeriesForgetsOrder(rows: seq<CounterSample>, rows': seq<CounterSample>)
    requires StAgree(rows) && forall r :: r in rows <==> r in rows'
    ensures SeriesOf(rows) == SeriesOf(rows')
  {
    RowsStandForThemselves(rows);
    RowsStandForThemselves(rows');
    JoinIsDetermined(Strip(rows), StPairs(rows), rows, Strip(rows'), StPairs(rows'), rows');
  }

  lemma SeriesForgetsPermutation(rows: seq<CounterSample>, rows': seq<CounterSample>)
    requires StAgree(rows) && multiset(rows) == multiset(rows')
    ensures SeriesOf(rows) == SeriesOf(rows')
  {
    forall r ensures r in rows <==> r in rows' {
      assert r in multiset(rows) <==> r in multiset(rows');
    }
    SeriesForgetsOrder(rows, rows');
  }

  /** `rows` with its `i`-th row moved to the end. */
  ghost function MovedLast(rows: seq<CounterSample>, i: nat): (r: seq<CounterSample>)
    requires i < |rows|
    ensures multiset(r) == multiset(rows)
    ensures r != [] && r[|r| - 1] == rows[i]
  {
    assert rows == rows[..i] + [rows[i]] + rows[i + 1..];
    rows[..i] + rows[i + 1..] + [rows[i]]
  }

  /** The last row decides the start timestamp its timestamp is joined with. */
  lemma LastWriteWins(rows: seq<CounterSample>)
    requires rows != [] && rows[|rows| - 1].st.Some?
    ensures var r := rows[|rows| - 1];
      exists k :: 0 <= k < |SeriesOf(rows)| && SeriesOf(rows)[k].t == r.t && SeriesOf(rows)[k].st == r.st
  {
    var n := |rows| - 1;
    var r := rows[n];
    var pairs := StPairs(rows);
    assert pairs == StPairs(rows[..n]) + [(r.t, r.st.value)];
    assert StByT(pairs)[r.t] == r.st.value;
    var samples := Strip(rows);
    SortDedupIsCanonical(samples);
    assert samples[n] in samples;
    assert Kept(samples[n], SortDedup(samples));
    var k :| 0 <= k < |SortDedup(samples)| && SortDedup(samples)[k].t == samples[n].t;
    assert SeriesOf(rows)[k].t == r.t && SeriesOf(rows)[k].st == r.st;
  }

  lemma SeriesIsStrict(rows: seq<CounterSample>)
    ensures StrictByT(SeriesOf(rows))
  {
    SortDedupIsCanonical(Strip(rows));
  }

  /** The aggregate's series does not depend on the order in which its rows arrive if and only
      if the start timestamps at each timestamp agree. */
  lemma OrderIsForgottenIffStAgree(rows: seq<CounterSample>)
    ensures StAgree(rows) <==>
            forall a, b :: multiset(a) == multiset(rows) && multiset(b) == multiset(rows) ==> SeriesOf(a) == SeriesOf(b)
  {
    if StAgree(rows) {
      forall a, b | multiset(a) == multiset(rows) && multiset(b) == multiset(rows)
        ensures SeriesOf(a) == SeriesOf(b)
      {
        SeriesForgetsPermutation(rows, a);
        SeriesForgetsPermutation(rows, b);
      }
    } else {
      DisagreementShows(rows);
    }
  }

  lemma DisagreementShows(rows: seq<CounterSample>)
    requires !StAgree(rows)
    ensures exists a, b :: multiset(a) == multiset(rows) && multiset(b) == multiset(rows) && SeriesOf(a) != SeriesOf(b)
  {
    hide SeriesOf, MovedLast;
    var x, y :| x in rows && y in rows && x.t == y.t && x.st.Some? && y.st.Some? && x.st != y.st;
    var i :| 0 <= i < |rows| && rows[i] == x;
    var j :| 0 <= j < |rows| && rows[j] == y;
    var a, b := MovedLast(rows, i), MovedLast(rows, j);
    LastWriteWins(a);
    LastWriteWins(b);
    SeriesIsStrict(a);
    var k :| 0 <= k < |SeriesOf(a)| && SeriesOf(a)[k].t == x.t && SeriesOf(a)[k].st == x.st;
    var l :| 0 <= l < |SeriesOf(b)| && SeriesOf(b)[l].t == y.t && SeriesOf(b)[l].st == y.st;
    assert SeriesOf(a) != SeriesOf(b);
  }
}
