/** The value types shared by every component of the rate kernel. */
module Readings {

  datatype Option<+T> = None | Some(value: T)

  /** One reading of a series: a tick, a value and a start-timestamp part.
      The buffer stores readings without a start timestamp (`Sample`); the fold
      reads them with an optional one (`CounterSample`). */
  datatype Reading<+V, +S> = Reading(t: int, v: V, st: S)

  /** The 64-bit pattern of a double. */
  type Bits = b: int | 0 <= b < 0x1_0000_0000_0000_0000

  type Sample = Reading<Bits, ()>
  type CounterSample = Reading<Bits, Option<int>>

  ghost predicate SortedByT<V, S>(d: seq<Reading<V, S>>) {
    forall i, j :: 0 <= i < j < |d| ==> d[i].t <= d[j].t
  }

  ghost predicate StrictByT<V, S>(d: seq<Reading<V, S>>) {
    forall i, j :: 0 <= i < j < |d| ==> d[i].t < d[j].t
  }
}
