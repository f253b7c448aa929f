/** Doubles as bit patterns: the totalOrder key and the rank that decides which of two
    values at one timestamp is kept. */
module Doubles {
  import opened Readings
  import opened Words

  const SIGN_BIT: int := 0x8000_0000_0000_0000
  const ALL_ONES: int := 0xFFFF_FFFF_FFFF_FFFF
  const INF_BITS: int := 0x7FF0_0000_0000_0000
  const STALE_BITS: Bits := 0x7FF0_0000_0000_0002
  const FRACTION: int := 0x10_0000_0000_0000

  predicate Negative(b: Bits) {
    b >= SIGN_BIT
  }

  function Magnitude(b: Bits): int {
    if Negative(b) then b - SIGN_BIT else b
  }

  predicate IsNaN(b: Bits) {
    Magnitude(b) > INF_BITS
  }

  predicate IsStale(b: Bits) {
    b == STALE_BITS
  }

  /** Complements a negative pattern and sets the sign bit of a non-negative one, in arithmetic on
      the unsigned word. */
  function TotalOrderKey(b: Bits): Bits {
    if Negative(b) then ALL_ONES - b else b + SIGN_BIT
  }

  /** The sign test above is the test of a word's sign bit, and where it is clear the key is the word
      with that bit set. */
  lemma SignBitOperations(w: bv64, b: Bits)
    requires b == w as int
    ensures Negative(b) <==> w & 0x8000_0000_0000_0000 != 0
    ensures !Negative(b) ==> TotalOrderKey(b) == (w | 0x8000_0000_0000_0000) as int
  {
    SignBitOfWord(w, b);
  }

  datatype DedupRank = DedupRank(tier: int, key: Bits)

  function RankOf(v: Bits): DedupRank {
    if IsStale(v) then DedupRank(0, TotalOrderKey(v))
    else if IsNaN(v) then DedupRank(1, TotalOrderKey(v))
    else DedupRank(2, TotalOrderKey(v))
  }

  predicate RankLess(a: DedupRank, b: DedupRank) {
    if a.tier != b.tier then a.tier < b.tier else a.key < b.key
  }

  /** Must `challenger` replace `incumbent` as the value kept for one timestamp? */
  predicate DedupPolicy(challenger: Bits, incumbent: Bits) {
    RankLess(RankOf(incumbent), RankOf(challenger))
  }

  lemma DedupPolicyIsStrictTotalOrder(a: Bits, b: Bits, c: Bits)
    ensures !DedupPolicy(a, a)
    ensures DedupPolicy(a, b) && DedupPolicy(b, c) ==> DedupPolicy(a, c)
    ensures a != b ==> DedupPolicy(a, b) != DedupPolicy(b, a)
    ensures IsStale(a) && IsNaN(b) && !IsStale(b) ==> DedupPolicy(b, a)
    ensures IsNaN(a) && !IsNaN(b) ==> DedupPolicy(b, a)
  {
  }

  lemma NotBeatenChain(a: Bits, b: Bits, c: Bits)
    requires !DedupPolicy(a, b) && !DedupPolicy(b, c)
    ensures !DedupPolicy(a, c)
  {
  }

  // ---- the key against the numbers the patterns stand for ----

  function Pow2(n: nat): (p: int)
    ensures p >= 1
  {
    if n == 0 then 1 else 2 * Pow2(n - 1)
  }

  /** The magnitude a non-NaN pattern encodes, in units of the smallest subnormal (2^-1074);
      infinity gets the value one binade above the largest finite number. */
  function MagnitudeValue(m: int): int
    requires 0 <= m <= INF_BITS
  {
    var exponent, fraction := m / FRACTION, m % FRACTION;
    if exponent == 0 then fraction else (FRACTION + fraction) * Pow2(exponent - 1)
  }

  function Numeric(b: Bits): int
    requires !IsNaN(b)
  {
    if Negative(b) then -MagnitudeValue(Magnitude(b)) else MagnitudeValue(Magnitude(b))
  }

  lemma {:induction false} Pow2Grows(m: nat, n: nat)
    requires m < n
    ensures 2 * Pow2(m) <= Pow2(n)
    decreases n
  {
    if m + 1 < n {
      Pow2Grows(m, n - 1);
    }
  }

  /** The values of one binade stay below the first value of any later binade. */
  lemma BinadeBelow(e: nat, f: int, e': nat)
    requires e < e' && 0 <= f < FRACTION
    ensures (if e == 0 then f else (FRACTION + f) * Pow2(e - 1)) < FRACTION * Pow2(e' - 1)
  {
    if e == 0 {
      assert FRACTION * Pow2(e' - 1) >= FRACTION;
    } else {
      Pow2Grows(e - 1, e' - 1);
      var p, q := Pow2(e - 1), Pow2(e' - 1);
      assert (FRACTION + f) * p < 2 * FRACTION * p by {
        assert 2 * FRACTION * p - (FRACTION + f) * p == (FRACTION - f) * p;
      }
      assert FRACTION * q >= FRACTION * (2 * p);
    }
  }

  lemma MagnitudeValueMonotone(m: int, n: int)
    requires 0 <= m < n <= INF_BITS
    ensures MagnitudeValue(m) < MagnitudeValue(n)
  {
    var e, f, e', f' := m / FRACTION, m % FRACTION, n / FRACTION, n % FRACTION;
    if e == e' {
      if e > 0 {
        assert (FRACTION + f') * Pow2(e - 1) - (FRACTION + f) * Pow2(e - 1) == (f' - f) * Pow2(e - 1);
      }
    } else {
      BinadeBelow(e, f, e');
      assert (FRACTION + f') * Pow2(e' - 1) == FRACTION * Pow2(e' - 1) + f' * Pow2(e' - 1);
    }
  }

  lemma MagnitudeValueNonNegative(m: int)
    requires 0 <= m <= INF_BITS
    ensures MagnitudeValue(m) >= 0 && (MagnitudeValue(m) == 0 <==> m == 0)
  {
    if m > 0 {
      MagnitudeValueMonotone(0, m);
    }
  }

  /** On patterns that are not NaN, the order of the keys is totalOrder as section 5.10 of
      IEEE 754-2019 defines it: numeric order, with -0 below +0. */
  lemma KeyOrderIsTotalOrder(a: Bits, b: Bits)
    requires !IsNaN(a) && !IsNaN(b)
    ensures TotalOrderKey(a) < TotalOrderKey(b) <==>
            Numeric(a) < Numeric(b) || (Numeric(a) == Numeric(b) && Negative(a) && !Negative(b))
    ensures TotalOrderKey(a) == TotalOrderKey(b) <==> a == b
    ensures DedupPolicy(b, a) <==> TotalOrderKey(a) < TotalOrderKey(b)
  {
    var m, n := Magnitude(a), Magnitude(b);
    MagnitudeValueNonNegative(m);
    MagnitudeValueNonNegative(n);
    if m < n {
      MagnitudeValueMonotone(m, n);
    } else if n < m {
      MagnitudeValueMonotone(n, m);
    }
  }

  // ---- the fields of a pattern ----

  /** The eleven bits of the exponent and the fifty-two of the fraction. */
  function ExponentField(b: Bits): int {
    (b / 0x10_0000_0000_0000) % 0x800
  }

  function FractionField(b: Bits): int {
    b % 0x10_0000_0000_0000
  }

  predicate SignField(b: Bits) {
    b >= 0x8000_0000_0000_0000
  }

  /** The patterns that are NaN, and the one of them that marks a stale series. */
  lemma NaNReadsTheFields(b: Bits)
    ensures IsNaN(b) <==> ExponentField(b) == 0x7FF && FractionField(b) != 0
    ensures IsStale(b) <==> b == 0x7FF0_0000_0000_0002
    ensures IsStale(b) ==> IsNaN(b)
    ensures SignField(b) <==> b / 0x8000_0000_0000_0000 == 1
  {
  }

  /** The number that a pattern with these fields encodes, in units of the smallest subnormal. */
  function FieldValue(b: Bits): int {
    var e, f := ExponentField(b), FractionField(b);
    var m := if e == 0 then f else (0x10_0000_0000_0000 + f) * Pow2(e - 1);
    if SignField(b) then -m else m
  }

  lemma FieldValueIsNumeric(b: Bits)
    requires !IsNaN(b)
    ensures Numeric(b) == FieldValue(b) && Negative(b) == SignField(b)
  {
    var m := Magnitude(b);
    assert m / 0x10_0000_0000_0000 == ExponentField(b) && m % 0x10_0000_0000_0000 == FractionField(b);
  }

  lemma PowersOfTwo(n: nat)
    ensures Pow2(0) == 1 && Pow2(n + 1) == Pow2(n) + Pow2(n)
  {
  }

  /** Which of two finite numbers is kept for one timestamp: the greater one, and +0 over -0. */
  lemma GreaterNumberWins(a: Bits, b: Bits)
    requires ExponentField(a) != 0x7FF && ExponentField(b) != 0x7FF
    ensures DedupPolicy(b, a) <==>
            FieldValue(a) < FieldValue(b) || (FieldValue(a) == FieldValue(b) && SignField(a) && !SignField(b))
  {
    NaNReadsTheFields(a);
    NaNReadsTheFields(b);
    FieldValueIsNumeric(a);
    FieldValueIsNumeric(b);
    hide FieldValue, Numeric, ExponentField;
    KeyOrderIsTotalOrder(a, b);
  }

  /** And of values that are not all numbers: a number over a NaN, a NaN over the stale marker. */
  lemma NumberBeatsNaNBeatsStale(a: Bits, b: Bits)
    requires ExponentField(b) == 0x7FF && FractionField(b) != 0
    ensures !(ExponentField(a) == 0x7FF && FractionField(a) != 0) ==> DedupPolicy(a, b) && !DedupPolicy(b, a)
    ensures a == 0x7FF0_0000_0000_0002 && b != a ==> DedupPolicy(b, a) && !DedupPolicy(a, b)
  {
    NaNReadsTheFields(a);
    NaNReadsTheFields(b);
    hide ExponentField, FractionField;
    DedupPolicyIsStrictTotalOrder(a, b, a);
    DedupPolicyIsStrictTotalOrder(b, a, b);
  }

  // ---- the oracle's own comparison ----

  /** The from-scratch evaluator's tie-break: NaN loses, NaNs are not ordered among
      themselves, -0 is below +0, everything else is the numeric comparison. */
  predicate OracleTotalOrderLess(a: Bits, b: Bits) {
    if IsNaN(a) != IsNaN(b) then IsNaN(a)
    else if IsNaN(a) && IsNaN(b) then false
    else if Numeric(a) == 0 && Numeric(b) == 0 then Negative(a) && !Negative(b)
    else Numeric(a) < Numeric(b)
  }

  /** The two tie-breaks disagree on exactly the pairs of NaNs that the kernel ranks. */
  lemma OracleAgreesExceptBetweenNaNs(a: Bits, b: Bits)
    ensures OracleTotalOrderLess(a, b) == DedupPolicy(b, a) <==>
            !(IsNaN(a) && IsNaN(b) && DedupPolicy(b, a))
  {
    if !IsNaN(a) && !IsNaN(b) {
      KeyOrderIsTotalOrder(a, b);
      MagnitudeValueNonNegative(Magnitude(a));
      MagnitudeValueNonNegative(Magnitude(b));
      if Magnitude(a) < Magnitude(b) {
        MagnitudeValueMonotone(Magnitude(a), Magnitude(b));
      } else if Magnitude(b) < Magnitude(a) {
        MagnitudeValueMonotone(Magnitude(b), Magnitude(a));
      }
    }
  }
}
