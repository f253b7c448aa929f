/** The parallel source: threads claim bins from a shared counter and hand their rows out in
    chunks. Every interleaving of the threads' atomic steps is a run. */
module ParallelSource {
  import opened Readings
  import opened Grids
  import opened Folds
  import opened Operators

  const VECTOR_SIZE: nat := 2048

  // ---- states ----

  /** Where a thread is: between calls, at the head of the loop with the rows written so far,
      processing a claimed bin, about to return a chunk, or told that the source is finished. */
  datatype Place =
    | Outside
    | Looping(chunk: seq<OutRow>)
    | Processing(slot: nat, chunk: seq<OutRow>)
    | Returning(chunk: seq<OutRow>)
    | Finished

  /** A thread's queue and place, with what it has claimed and returned so far. */
  datatype Thread = Thread(pending: seq<OutRow>, next: nat, place: Place, claimed: seq<nat>, returned: seq<seq<OutRow>>)

  datatype State = State(nextBin: nat, threads: seq<Thread>)

  function Idle(): Thread {
    Thread([], 0, Outside, [], [])
  }

  function Start(threads: nat): State {
    State(0, seq(threads, i => Idle()))
  }

  // ---- steps ----

  /** The next atomic step of one thread, given the shared counter and the rows of each bin: the
      counter after it, and the thread after it. */
  function StepThread(bins: seq<seq<OutRow>>, nextBin: nat, th: Thread): (nat, Thread) {
    match th.place
    case Outside => (nextBin, th.(place := Looping([])))
    case Looping(chunk) =>
      if |chunk| >= VECTOR_SIZE then (nextBin, th.(place := Returning(chunk)))
      else if th.next >= |th.pending| then
        if nextBin >= |bins| then (nextBin + 1, th.(place := Returning(chunk)))
        else (nextBin + 1, th.(place := Processing(nextBin, chunk), claimed := th.claimed + [nextBin]))
      else (nextBin, th.(place := Looping(chunk + [th.pending[th.next]]), next := th.next + 1))
    case Processing(slot, chunk) =>
      (nextBin, th.(pending := if slot < |bins| then bins[slot] else [], next := 0, place := Looping(chunk)))
    case Returning(chunk) =>
      if |chunk| > 0 then (nextBin, th.(place := Outside, returned := th.returned + [chunk]))
      else (nextBin, th.(place := Finished))
    case Finished => (nextBin, th)
  }

  function Step(bins: seq<seq<OutRow>>, st: State, t: nat): (r: State)
    requires t < |st.threads|
    ensures |r.threads| == |st.threads|
  {
    var (counter, th) := StepThread(bins, st.nextBin, st.threads[t]);
    State(counter, st.threads[t := th])
  }

  /** A run: the thread that moves, step by step. */
  function Run(bins: seq<seq<OutRow>>, threads: nat, schedule: seq<nat>): (r: State)
    requires forall i :: 0 <= i < |schedule| ==> schedule[i] < threads
    ensures |r.threads| == threads
  {
    if schedule == [] then Start(threads)
    else Step(bins, Run(bins, threads, schedule[..|schedule| - 1]), schedule[|schedule| - 1])
  }

  // ---- sums over threads ----

  function Concat(parts: seq<seq<OutRow>>): seq<OutRow> {
    if parts == [] then [] else Concat(parts[..|parts| - 1]) + parts[|parts| - 1]
  }

  function BinRows(bins: seq<seq<OutRow>>, slot: nat): seq<OutRow> {
    if slot < |bins| then bins[slot] else []
  }

  function RowsOfSlots(bins: seq<seq<OutRow>>, slots: seq<nat>): seq<OutRow> {
    if slots == [] then [] else RowsOfSlots(bins, slots[..|slots| - 1]) + BinRows(bins, slots[|slots| - 1])
  }

  function BagSum<T>(bags: seq<multiset<T>>): multiset<T> {
    if bags == [] then multiset{} else BagSum(bags[..|bags| - 1]) + bags[|bags| - 1]
  }

  lemma {:induction false} BagSumUpdate<T>(bags: seq<multiset<T>>, i: nat, b: multiset<T>)
    requires i < |bags|
    ensures BagSum(bags[i := b]) + bags[i] == BagSum(bags) + b
  {
    var n, now := |bags| - 1, bags[i := b];
    var rest := BagSum(bags[..n]);
    if i < n {
      BagSumUpdate(bags[..n], i, b);
      assert now[..n] == bags[..n][i := b] && bags[..n][i] == bags[i] && now[n] == bags[n];
      var rest' := BagSum(now[..n]);
      assert rest' + bags[i] == rest + b;
      assert (rest' + bags[n]) + bags[i] == (rest' + bags[i]) + bags[n];
      assert (rest + bags[n]) + b == (rest + b) + bags[n];
    } else {
      assert now[..n] == bags[..n];
      assert BagSum(now) == rest + b && BagSum(bags) == rest + bags[i];
    }
  }

  lemma Cancel<T>(x: multiset<T>, y: multiset<T>, a: multiset<T>, d: multiset<T>)
    requires x + a == y + (a + d)
    ensures x == y + d
  {
    forall e ensures x[e] == (y + d)[e] {
      assert (x + a)[e] == (y + (a + d))[e];
    }
  }

  /** The slots claimed by each thread, and the rows behind them, as bags. */
  function ClaimBags(threads: seq<Thread>): seq<multiset<nat>> {
    seq(|threads|, i requires 0 <= i < |threads| => multiset(threads[i].claimed))
  }

  function RowBags(bins: seq<seq<OutRow>>, threads: seq<Thread>): seq<multiset<OutRow>> {
    seq(|threads|, i requires 0 <= i < |threads| => multiset(RowsOfSlots(bins, threads[i].claimed)))
  }

  function ReturnedBags(threads: seq<Thread>): seq<multiset<OutRow>> {
    seq(|threads|, i requires 0 <= i < |threads| => multiset(Concat(threads[i].returned)))
  }

  // ---- what one thread keeps ----

  /** The rows a thread holds and has not returned, in the order it will return them. */
  function InHand(bins: seq<seq<OutRow>>, th: Thread): seq<OutRow> {
    var queued := if th.next <= |th.pending| then th.pending[th.next..] else [];
    match th.place
    case Outside => queued
    case Looping(chunk) => chunk + queued
    case Processing(slot, chunk) => chunk + BinRows(bins, slot)
    case Returning(chunk) => chunk + queued
    case Finished => queued
  }

  /** Nothing is left for the thread to return, and no bin to claim. */
  ghost predicate Drained(bins: seq<seq<OutRow>>, nextBin: nat, th: Thread) {
    && th.next == |th.pending| && nextBin > |bins| && !th.place.Processing?
    && (th.place.Looping? || th.place.Returning? ==> th.place.chunk == [])
  }

  /** A thread has returned, or holds, exactly the rows of the bins it claimed, in order; its chunks
      are never empty nor longer than a vector, and none but the last is shorter; and it is only told
      FINISHED with nothing in hand. */
  ghost predicate ThreadValid(bins: seq<seq<OutRow>>, nextBin: nat, th: Thread) {
    && th.next <= |th.pending|
    && Concat(th.returned) + InHand(bins, th) == RowsOfSlots(bins, th.claimed)
    && (forall i :: 0 <= i < |th.returned| ==> 0 < |th.returned[i]| <= VECTOR_SIZE)
    && (forall i :: 0 <= i < |th.returned| && |th.returned[i]| < VECTOR_SIZE ==>
          i == |th.returned| - 1 && Drained(bins, nextBin, th))
    && (th.place.Looping? || th.place.Processing? || th.place.Returning? ==> |th.place.chunk| <= VECTOR_SIZE)
    && (th.place.Processing? ==> th.place.slot < nextBin && th.next == |th.pending| && |th.place.chunk| < VECTOR_SIZE)
    && (th.place.Returning? && |th.place.chunk| < VECTOR_SIZE ==> th.next == |th.pending| && nextBin > |bins|)
    && (th.place.Finished? ==> InHand(bins, th) == [] && nextBin > |bins|)
  }

  lemma ConcatOneMore(parts: seq<seq<OutRow>>, part: seq<OutRow>)
    ensures Concat(parts + [part]) == Concat(parts) + part
  {
    assert (parts + [part])[..|parts|] == parts;
  }

  lemma RowsOfOneMore(bins: seq<seq<OutRow>>, slots: seq<nat>, slot: nat)
    ensures RowsOfSlots(bins, slots + [slot]) == RowsOfSlots(bins, slots) + BinRows(bins, slot)
  {
    assert (slots + [slot])[..|slots|] == slots;
  }

  lemma LoopKeepsThread(bins: seq<seq<OutRow>>, nextBin: nat, th: Thread)
    requires ThreadValid(bins, nextBin, th) && th.place.Looping?
    ensures var (counter, th') := StepThread(bins, nextBin, th); ThreadValid(bins, counter, th')
  {
    hide Concat, RowsOfSlots, BinRows;
    var (counter, th') := StepThread(bins, nextBin, th);
    if |th.place.chunk| < VECTOR_SIZE && th.next >= |th.pending| && nextBin < |bins| {
      RowsOfOneMore(bins, th.claimed, nextBin);
      assert InHand(bins, th) == th.place.chunk;
      assert InHand(bins, th') == th.place.chunk + BinRows(bins, nextBin);
    } else {
      assert th.next < |th.pending| ==> th.pending[th.next..] == [th.pending[th.next]] + th.pending[th.next + 1..];
      assert InHand(bins, th') == InHand(bins, th);
    }
  }

  lemma ReturnKeepsThread(bins: seq<seq<OutRow>>, nextBin: nat, th: Thread)
    requires ThreadValid(bins, nextBin, th) && th.place.Returning?
    ensures var (counter, th') := StepThread(bins, nextBin, th); ThreadValid(bins, counter, th')
  {
    hide Concat, RowsOfSlots, BinRows;
    var (counter, th') := StepThread(bins, nextBin, th);
    if |th.place.chunk| > 0 {
      ConcatOneMore(th.returned, th.place.chunk);
      assert InHand(bins, th) == th.place.chunk + InHand(bins, th');
    }
  }

  lemma StepKeepsThread(bins: seq<seq<OutRow>>, nextBin: nat, th: Thread)
    requires ThreadValid(bins, nextBin, th)
    ensures var (counter, th') := StepThread(bins, nextBin, th); ThreadValid(bins, counter, th')
  {
    hide Concat, RowsOfSlots;
    if th.place.Looping? {
      LoopKeepsThread(bins, nextBin, th);
    } else if th.place.Returning? {
      ReturnKeepsThread(bins, nextBin, th);
    } else {
      var (counter, th') := StepThread(bins, nextBin, th);
      assert InHand(bins, th') == InHand(bins, th);
    }
  }

  lemma LaterCounterKeepsThread(bins: seq<seq<OutRow>>, nextBin: nat, later: nat, th: Thread)
    requires ThreadValid(bins, nextBin, th) && nextBin <= later
    ensures ThreadValid(bins, later, th)
  {
  }

  // ---- what every run keeps ----

  /** The first `n` slots. */
  function FirstSlots(n: nat): (r: seq<nat>)
    ensures |r| == n && forall i :: 0 <= i < n ==> r[i] == i
  {
    seq(n, i requires 0 <= i < n => i)
  }

  function Issued(bins: seq<seq<OutRow>>, nextBin: nat): nat {
    if nextBin < |bins| then nextBin else |bins|
  }

  /** Every slot issued so far was claimed exactly once, by one thread, and the rows behind the
      claims are the rows of those slots; and each thread keeps its own account. */
  ghost predicate RunValid(bins: seq<seq<OutRow>>, st: State) {
    && (forall t :: 0 <= t < |st.threads| ==> ThreadValid(bins, st.nextBin, st.threads[t]))
    && BagSum(ClaimBags(st.threads)) == multiset(FirstSlots(Issued(bins, st.nextBin)))
    && BagSum(RowBags(bins, st.threads)) == multiset(RowsOfSlots(bins, FirstSlots(Issued(bins, st.nextBin))))
  }

  lemma {:induction false} StartIsValid(bins: seq<seq<OutRow>>, threads: nat)
    ensures RunValid(bins, Start(threads))
  {
    if threads > 0 {
      StartIsValid(bins, threads - 1);
      var now, less := Start(threads).threads, Start(threads - 1).threads;
      assert ClaimBags(now)[..threads - 1] == ClaimBags(less);
      assert RowBags(bins, now)[..threads - 1] == RowBags(bins, less);
    }
  }

  lemma ClaimsOf(bins: seq<seq<OutRow>>, nextBin: nat, th: Thread)
    ensures var (counter, th') := StepThread(bins, nextBin, th);
      && counter >= nextBin
      && (if Issued(bins, counter) == Issued(bins, nextBin) then th'.claimed == th.claimed
          else Issued(bins, nextBin) == nextBin && Issued(bins, counter) == nextBin + 1
               && th'.claimed == th.claimed + [nextBin])
  {
  }

  lemma StepIsValid(bins: seq<seq<OutRow>>, st: State, t: nat)
    requires t < |st.threads| && RunValid(bins, st)
    ensures RunValid(bins, Step(bins, st, t))
  {
    hide ThreadValid, StepThread, BagSum, RowsOfSlots, Issued;
    var th := st.threads[t];
    var (counter, th') := StepThread(bins, st.nextBin, th);
    var after := Step(bins, st, t);
    StepKeepsThread(bins, st.nextBin, th);
    ClaimsOf(bins, st.nextBin, th);
    forall u | 0 <= u < |after.threads| ensures ThreadValid(bins, counter, after.threads[u]) {
      if u != t {
        LaterCounterKeepsThread(bins, st.nextBin, counter, st.threads[u]);
      }
    }
    BagSumUpdate(ClaimBags(st.threads), t, multiset(th'.claimed));
    BagSumUpdate(RowBags(bins, st.threads), t, multiset(RowsOfSlots(bins, th'.claimed)));
    assert ClaimBags(after.threads) == ClaimBags(st.threads)[t := multiset(th'.claimed)];
    assert RowBags(bins, after.threads) == RowBags(bins, st.threads)[t := multiset(RowsOfSlots(bins, th'.claimed))];
    var claims, rows := BagSum(ClaimBags(st.threads)), BagSum(RowBags(bins, st.threads));
    var claims', rows' := BagSum(ClaimBags(after.threads)), BagSum(RowBags(bins, after.threads));
    if Issued(bins, counter) == Issued(bins, st.nextBin) {
      Cancel(claims', claims, multiset(th.claimed), multiset{});
      Cancel(rows', rows, multiset(RowsOfSlots(bins, th.claimed)), multiset{});
    } else {
      RowsOfOneMore(bins, th.claimed, st.nextBin);
      RowsOfOneMore(bins, FirstSlots(st.nextBin), st.nextBin);
      assert FirstSlots(st.nextBin + 1) == FirstSlots(st.nextBin) + [st.nextBin];
      assert multiset(th'.claimed) == multiset(th.claimed) + multiset{st.nextBin};
      Cancel(claims', claims, multiset(th.claimed), multiset{st.nextBin});
      Cancel(rows', rows, multiset(RowsOfSlots(bins, th.claimed)), multiset(BinRows(bins, st.nextBin)));
    }
  }

  /** Safety over every interleaving. */
  lemma {:induction false} EveryRunIsValid(bins: seq<seq<OutRow>>, threads: nat, schedule: seq<nat>)
    requires forall i :: 0 <= i < |schedule| ==> schedule[i] < threads
    ensures RunValid(bins, Run(bins, threads, schedule))
    decreases |schedule|
  {
    if schedule == [] {
      StartIsValid(bins, threads);
    } else {
      EveryRunIsValid(bins, threads, schedule[..|schedule| - 1]);
      StepIsValid(bins, Run(bins, threads, schedule[..|schedule| - 1]), schedule[|schedule| - 1]);
    }
  }

  // ---- when all threads have finished ----

  ghost predicate AllFinished(st: State) {
    forall t :: 0 <= t < |st.threads| ==> st.threads[t].place.Finished?
  }

  /** Everything the threads have returned. */
  function Output(st: State): multiset<OutRow> {
    BagSum(ReturnedBags(st.threads))
  }

  lemma {:induction false} AllSlotsAreAllRows(bins: seq<seq<OutRow>>, n: nat)
    requires n <= |bins|
    ensures RowsOfSlots(bins, FirstSlots(n)) == Concat(bins[..n])
  {
    if n > 0 {
      AllSlotsAreAllRows(bins, n - 1);
      assert FirstSlots(n)[..n - 1] == FirstSlots(n - 1);
      assert bins[..n][..n - 1] == bins[..n - 1];
    }
  }

  /** When every thread has been told FINISHED, the rows they returned are, with multiplicity, the
      rows of all bins; and no interleaving of one or more threads loses or repeats one. */
  lemma FinishedRunReturnsEverything(bins: seq<seq<OutRow>>, threads: nat, schedule: seq<nat>)
    requires threads > 0 && forall i :: 0 <= i < |schedule| ==> schedule[i] < threads
    requires AllFinished(Run(bins, threads, schedule))
    ensures Output(Run(bins, threads, schedule)) == multiset(Concat(bins))
  {
    hide BagSum, RowsOfSlots, Concat;
    var st := Run(bins, threads, schedule);
    EveryRunIsValid(bins, threads, schedule);
    assert ThreadValid(bins, st.nextBin, st.threads[0]);
    AllSlotsAreAllRows(bins, |bins|);
    assert bins[..|bins|] == bins;
    forall t | 0 <= t < |st.threads| ensures ReturnedBags(st.threads)[t] == RowBags(bins, st.threads)[t] {
      assert ThreadValid(bins, st.nextBin, st.threads[t]);
    }
    assert ReturnedBags(st.threads) == RowBags(bins, st.threads);
  }

  // ---- no row is ever returned twice ----

  lemma {:induction false} BagSumMonotone<T>(less: seq<multiset<T>>, more: seq<multiset<T>>)
    requires |less| == |more| && forall i :: 0 <= i < |less| ==> less[i] <= more[i]
    ensures BagSum(less) <= BagSum(more)
  {
    if less != [] {
      BagSumMonotone(less[..|less| - 1], more[..|more| - 1]);
    }
  }

  lemma {:induction false} FewerSlotsFewerRows(bins: seq<seq<OutRow>>, n: nat, m: nat)
    requires n <= m
    ensures multiset(RowsOfSlots(bins, FirstSlots(n))) <= multiset(RowsOfSlots(bins, FirstSlots(m)))
    decreases m
  {
    hide RowsOfSlots, BinRows;
    if n < m {
      FewerSlotsFewerRows(bins, n, m - 1);
      RowsOfOneMore(bins, FirstSlots(m - 1), m - 1);
      assert FirstSlots(m) == FirstSlots(m - 1) + [m - 1];
      var before, bin := RowsOfSlots(bins, FirstSlots(m - 1)), BinRows(bins, m - 1);
      assert multiset(before + bin) == multiset(before) + multiset(bin);
    }
  }

  /** At every point of every run, what was returned so far is contained, with multiplicity, in the
      rows of all bins. */
  lemma EveryRunReturnsAtMostEverything(bins: seq<seq<OutRow>>, threads: nat, schedule: seq<nat>)
    requires forall i :: 0 <= i < |schedule| ==> schedule[i] < threads
    ensures Output(Run(bins, threads, schedule)) <= multiset(Concat(bins))
  {
    hide BagSum, RowsOfSlots, Concat, InHand;
    var st := Run(bins, threads, schedule);
    EveryRunIsValid(bins, threads, schedule);
    forall t | 0 <= t < |st.threads| ensures ReturnedBags(st.threads)[t] <= RowBags(bins, st.threads)[t] {
      var th := st.threads[t];
      assert ThreadValid(bins, st.nextBin, th);
      assert multiset(RowsOfSlots(bins, th.claimed)) == multiset(Concat(th.returned)) + multiset(InHand(bins, th));
    }
    BagSumMonotone(ReturnedBags(st.threads), RowBags(bins, st.threads));
    AllSlotsAreAllRows(bins, |bins|);
    assert bins[..|bins|] == bins;
    FewerSlotsFewerRows(bins, Issued(bins, st.nextBin), |bins|);
  }

  /** At every point of every run, every chunk a thread has returned but its last is a full vector. */
  lemma EveryChunkButTheLastIsFull(bins: seq<seq<OutRow>>, threads: nat, schedule: seq<nat>, t: nat, i: nat)
    requires (forall k :: 0 <= k < |schedule| ==> schedule[k] < threads) && t < threads
    requires i < |Run(bins, threads, schedule).threads[t].returned| - 1
    ensures |Run(bins, threads, schedule).threads[t].returned[i]| == 2048
  {
    hide Run;
    EveryRunIsValid(bins, threads, schedule);
    assert ThreadValid(bins, Run(bins, threads, schedule).nextBin, Run(bins, threads, schedule).threads[t]);
  }

  // ---- every run ends ----

  /** The rows of the bins not yet issued. */
  function RowsAhead(bins: seq<seq<OutRow>>, nextBin: nat): nat
    decreases |bins| - nextBin
  {
    if nextBin >= |bins| then 0 else |bins[nextBin]| + RowsAhead(bins, nextBin + 1)
  }

  function PlaceWeight(place: Place): nat {
    match place
    case Outside => 3
    case Looping(chunk) => 2 + 3 * |chunk|
    case Processing(_, chunk) => 3 + 3 * |chunk|
    case Returning(chunk) => 1 + 3 * |chunk|
    case Finished => 0
  }

  function ThreadWeight(bins: seq<seq<OutRow>>, th: Thread): nat {
    var queued := if th.place.Processing? then |BinRows(bins, th.place.slot)|
                  else if th.next <= |th.pending| then |th.pending| - th.next else 0;
    4 * queued + PlaceWeight(th.place)
  }

  function CounterWeight(bins: seq<seq<OutRow>>, nextBin: nat): nat {
    4 * RowsAhead(bins, nextBin) + 2 * (|bins| - Issued(bins, nextBin))
  }

  function ThreadWeights(bins: seq<seq<OutRow>>, threads: seq<Thread>): nat {
    if threads == [] then 0
    else ThreadWeights(bins, threads[..|threads| - 1]) + ThreadWeight(bins, threads[|threads| - 1])
  }

  function Weight(bins: seq<seq<OutRow>>, st: State): nat {
    CounterWeight(bins, st.nextBin) + ThreadWeights(bins, st.threads)
  }

  lemma {:induction false} ThreadWeightsUpdate(bins: seq<seq<OutRow>>, threads: seq<Thread>, t: nat, th: Thread)
    requires t < |threads|
    ensures ThreadWeights(bins, threads[t := th]) + ThreadWeight(bins, threads[t])
         == ThreadWeights(bins, threads) + ThreadWeight(bins, th)
  {
    hide ThreadWeight;
    var n, now := |threads| - 1, threads[t := th];
    if t < n {
      ThreadWeightsUpdate(bins, threads[..n], t, th);
      assert now[..n] == threads[..n][t := th] && threads[..n][t] == threads[t];
    } else {
      assert now[..n] == threads[..n];
    }
  }

  lemma StepWeighsLess(bins: seq<seq<OutRow>>, nextBin: nat, th: Thread)
    requires ThreadValid(bins, nextBin, th) && !th.place.Finished?
    ensures var (counter, th') := StepThread(bins, nextBin, th);
      CounterWeight(bins, counter) + ThreadWeight(bins, th') < CounterWeight(bins, nextBin) + ThreadWeight(bins, th)
  {
    hide Concat, RowsOfSlots;
  }

  /** Only threads that have not finished move. */
  ghost predicate Productive(bins: seq<seq<OutRow>>, threads: nat, schedule: seq<nat>) {
    && (forall i :: 0 <= i < |schedule| ==> schedule[i] < threads)
    && (forall i {:trigger schedule[i]} :: 0 <= i < |schedule| ==>
          !Run(bins, threads, schedule[..i]).threads[schedule[i]].place.Finished?)
  }

  lemma ProductivePrefix(bins: seq<seq<OutRow>>, threads: nat, schedule: seq<nat>)
    requires Productive(bins, threads, schedule) && schedule != []
    ensures var init, t := schedule[..|schedule| - 1], schedule[|schedule| - 1];
      && Productive(bins, threads, init) && (forall i :: 0 <= i < |init| ==> init[i] < threads)
      && t < threads && !Run(bins, threads, init).threads[t].place.Finished?
  {
    hide Run;
    var init := schedule[..|schedule| - 1];
    forall i | 0 <= i < |init| ensures !Run(bins, threads, init[..i]).threads[init[i]].place.Finished? {
      assert init[..i] == schedule[..i] && init[i] == schedule[i];
    }
  }

  lemma StepLosesWeight(bins: seq<seq<OutRow>>, st: State, t: nat)
    requires t < |st.threads| && RunValid(bins, st) && !st.threads[t].place.Finished?
    ensures Weight(bins, Step(bins, st, t)) < Weight(bins, st)
  {
    hide ThreadWeight, ThreadWeights, CounterWeight, StepThread, ThreadValid, BagSum, ClaimBags, RowBags;
    StepWeighsLess(bins, st.nextBin, st.threads[t]);
    ThreadWeightsUpdate(bins, st.threads, t, StepThread(bins, st.nextBin, st.threads[t]).1);
  }

  lemma {:induction false} RunWeighsLess(bins: seq<seq<OutRow>>, threads: nat, schedule: seq<nat>)
    requires Productive(bins, threads, schedule)
    ensures |schedule| + Weight(bins, Run(bins, threads, schedule)) <= Weight(bins, Start(threads))
    decreases |schedule|
  {
    hide Productive, Weight, Step, RunValid;
    if schedule != [] {
      var init, t := schedule[..|schedule| - 1], schedule[|schedule| - 1];
      ProductivePrefix(bins, threads, schedule);
      RunWeighsLess(bins, threads, init);
      EveryRunIsValid(bins, threads, init);
      StepLosesWeight(bins, Run(bins, threads, init), t);
    }
  }

  lemma {:induction false} RowsAheadAreTheRest(bins: seq<seq<OutRow>>, n: nat)
    requires n <= |bins|
    ensures |Concat(bins[..n])| + RowsAhead(bins, n) == RowsAhead(bins, 0)
  {
    if n > 0 {
      RowsAheadAreTheRest(bins, n - 1);
      assert bins[..n][..n - 1] == bins[..n - 1];
    }
  }

  lemma {:induction false} StartWeighs(bins: seq<seq<OutRow>>, threads: nat)
    ensures ThreadWeights(bins, Start(threads).threads) == 3 * threads
  {
    if threads > 0 {
      StartWeighs(bins, threads - 1);
      assert Start(threads).threads[..threads - 1] == Start(threads - 1).threads;
    }
  }

  /** Every run ends: a run in which only unfinished threads move has at most four steps for each
      row, two for each bin and three for each thread, however the threads interleave. */
  lemma EveryRunEnds(bins: seq<seq<OutRow>>, threads: nat, schedule: seq<nat>)
    requires Productive(bins, threads, schedule)
    ensures |schedule| <= 4 * |Concat(bins)| + 2 * |bins| + 3 * threads
  {
    hide Concat, Productive;
    RunWeighsLess(bins, threads, schedule);
    StartWeighs(bins, threads);
    RowsAheadAreTheRest(bins, |bins|);
    assert bins[..|bins|] == bins;
  }

  /** A thread that has not finished may move. */
  lemma ProductiveOneMore(bins: seq<seq<OutRow>>, threads: nat, schedule: seq<nat>, t: nat)
    requires Productive(bins, threads, schedule) && t < threads
    requires !Run(bins, threads, schedule).threads[t].place.Finished?
    ensures Productive(bins, threads, schedule + [t])
  {
    hide Run;
    var more := schedule + [t];
    forall i | 0 <= i < |more| ensures !Run(bins, threads, more[..i]).threads[more[i]].place.Finished? {
      if i < |schedule| {
        assert more[..i] == schedule[..i] && more[i] == schedule[i];
      } else {
        assert more[..i] == schedule;
      }
    }
  }

  /** No run is stuck: wherever it has got to, moving unfinished threads, in any order, takes every
      thread to FINISHED. */
  lemma {:induction false} EveryRunCanFinish(bins: seq<seq<OutRow>>, threads: nat, schedule: seq<nat>)
    returns (full: seq<nat>)
    requires Productive(bins, threads, schedule)
    ensures schedule <= full && Productive(bins, threads, full) && AllFinished(Run(bins, threads, full))
    decreases 4 * |Concat(bins)| + 2 * |bins| + 3 * threads - |schedule|
  {
    hide Run, Concat, Productive;
    full := schedule;
    ProductiveIsSchedule(bins, threads, schedule);
    if !AllFinished(Run(bins, threads, schedule)) {
      var t :| 0 <= t < threads && !Run(bins, threads, schedule).threads[t].place.Finished?;
      ProductiveOneMore(bins, threads, schedule, t);
      EveryRunEnds(bins, threads, schedule + [t]);
      full := EveryRunCanFinish(bins, threads, schedule + [t]);
    }
  }

  lemma ProductiveIsSchedule(bins: seq<seq<OutRow>>, threads: nat, schedule: seq<nat>)
    requires Productive(bins, threads, schedule)
    ensures forall i :: 0 <= i < |schedule| ==> schedule[i] < threads
  {
  }

  /** In particular some run takes every thread to FINISHED, with all rows returned. */
  lemma SomeRunFinishes(bins: seq<seq<OutRow>>, threads: nat) returns (schedule: seq<nat>)
    requires threads > 0
    ensures Productive(bins, threads, schedule)
    ensures forall t :: 0 <= t < threads ==> Run(bins, threads, schedule).threads[t].place == Finished
    ensures Output(Run(bins, threads, schedule)) == multiset(Concat(bins))
  {
    hide Run, Concat, Output;
    schedule := EveryRunCanFinish(bins, threads, []);
    FinishedRunReturnsEverything(bins, threads, schedule);
  }

  // ---- one row for each series ----

  lemma {:induction false} InConcat(parts: seq<seq<OutRow>>, r: OutRow)
    ensures r in Concat(parts) <==> exists i :: 0 <= i < |parts| && r in parts[i]
  {
    if parts != [] {
      var init := parts[..|parts| - 1];
      InConcat(init, r);
      assert forall i :: 0 <= i < |init| ==> init[i] == parts[i];
    }
  }

  lemma {:induction false} CountInConcat(parts: seq<seq<OutRow>>, r: OutRow, i: nat)
    requires i < |parts| && forall j :: 0 <= j < |parts| && j != i ==> r !in parts[j]
    ensures multiset(Concat(parts))[r] == multiset(parts[i])[r]
  {
    var n := |parts| - 1;
    var init := parts[..n];
    if i < n {
      CountInConcat(init, r, i);
      assert multiset(Concat(parts))[r] == multiset(Concat(init))[r] + multiset(parts[n])[r];
      assert r !in multiset(parts[n]);
    } else {
      InConcat(init, r);
      assert r !in multiset(Concat(init));
    }
  }

  lemma {:induction false} DistinctSeriesCountOnce(rows: seq<OutRow>, r: OutRow)
    requires forall i, j :: 0 <= i < j < |rows| ==> rows[i].series != rows[j].series
    requires r in rows
    ensures multiset(rows)[r] == 1
  {
    var n := |rows| - 1;
    var init := rows[..n];
    assert rows == init + [rows[n]];
    if r == rows[n] {
      assert r !in multiset(init);
    } else {
      DistinctSeriesCountOnce(init, r);
    }
  }

  /** The whole source: when the bins partition the series, the rows of each bin answer it, and every
      thread has finished, the output holds exactly one row for each series of the input, whatever
      the interleaving, and it carries the points of that series. */
  lemma OneRowForEachSeries(ar: Arith<Bits>, bins: seq<seq<BinRow>>, rows: seq<seq<OutRow>>, threads: nat,
                            schedule: seq<nat>, grid: Grid, window: int, hasSt: bool, i: nat, series: int)
    requires grid.Valid() && |rows| == |bins|
    requires forall j, k, s ::
               0 <= j < |bins| && 0 <= k < |bins| && Occurs(bins[j], s) && Occurs(bins[k], s) ==> j == k
    requires forall j :: 0 <= j < |bins| ==> Answers(ar, rows[j], bins[j], grid, window, hasSt)
    requires threads > 0 && forall k :: 0 <= k < |schedule| ==> schedule[k] < threads
    requires AllFinished(Run(rows, threads, schedule))
    requires i < |bins| && Occurs(bins[i], series)
    ensures var r := OutRow(series, SeriesPoints(ar, bins[i], series, grid, window, hasSt));
      && Output(Run(rows, threads, schedule))[r] == 1
      && forall other :: other in Output(Run(rows, threads, schedule)) && other.series == series ==> other == r
  {
    hide Occurs, SeriesPoints, Run, AllFinished, Output, Concat, Listed;
    FinishedRunReturnsEverything(rows, threads, schedule);
    var r := OutRow(series, SeriesPoints(ar, bins[i], series, grid, window, hasSt));
    AnswerOf(ar, rows[i], bins[i], grid, window, hasSt, series);
    forall other | other in Concat(rows) && other.series == series ensures other == r {
      InConcat(rows, other);
      var j :| 0 <= j < |rows| && other in rows[j];
      AnswerOfRow(ar, rows[j], bins[j], grid, window, hasSt, other);
      assert Occurs(bins[j], series);
    }
    forall j | 0 <= j < |rows| && j != i ensures r !in rows[j] {
      if r in rows[j] {
        AnswerOfRow(ar, rows[j], bins[j], grid, window, hasSt, r);
      }
    }
    CountInConcat(rows, r, i);
    assert Answers(ar, rows[i], bins[i], grid, window, hasSt);
    DistinctSeriesCountOnce(rows[i], r);
  }

  lemma AnswerOf(ar: Arith<Bits>, rows: seq<OutRow>, bin: seq<BinRow>, grid: Grid, window: int, hasSt: bool,
                 series: int)
    requires grid.Valid() && Answers(ar, rows, bin, grid, window, hasSt) && Occurs(bin, series)
    ensures OutRow(series, SeriesPoints(ar, bin, series, grid, window, hasSt)) in rows
  {
    hide SeriesPoints, Occurs;
    assert Listed(rows, series);
    var k :| 0 <= k < |rows| && rows[k].series == series;
    assert rows[k] == OutRow(series, SeriesPoints(ar, bin, series, grid, window, hasSt));
  }

  lemma AnswerOfRow(ar: Arith<Bits>, rows: seq<OutRow>, bin: seq<BinRow>, grid: Grid, window: int, hasSt: bool,
                    r: OutRow)
    requires grid.Valid() && Answers(ar, rows, bin, grid, window, hasSt) && r in rows
    ensures Occurs(bin, r.series) && r.points == SeriesPoints(ar, bin, r.series, grid, window, hasSt)
  {
    hide SeriesPoints, Occurs;
    var k :| 0 <= k < |rows| && rows[k] == r;
  }

  // ---- one call, as the code runs it ----

  class GlobalSource {
    var nextBin: nat

    constructor ()
      ensures nextBin == 0
    {
      nextBin := 0;
    }
  }

  class LocalSource {
    var pendingRows: seq<OutRow>
    var pendingIdx: nat

    constructor ()
      ensures pendingRows == [] && pendingIdx == 0
    {
      pendingRows, pendingIdx := [], 0;
    }
  }

  datatype SourceResult = HaveMoreOutput | SourceFinished

  /** `n` steps of one thread that is not interrupted. */
  function Steps(bins: seq<seq<OutRow>>, nextBin: nat, th: Thread, n: nat): (nat, Thread) {
    if n == 0 then (nextBin, th)
    else
      var (counter, later) := Steps(bins, nextBin, th, n - 1);
      StepThread(bins, counter, later)
  }

  /** One call fills one chunk. Run alone it takes the thread through `steps` steps of the protocol,
      from outside a call to outside it again, or to FINISHED when there was nothing to return. */
  method GetDataInternal(bins: seq<seq<OutRow>>, gsource: GlobalSource, lstate: LocalSource, ghost claimed: seq<nat>,
                         ghost returned: seq<seq<OutRow>>)
    returns (chunk: seq<OutRow>, result: SourceResult, ghost steps: nat, ghost claimed': seq<nat>)
    requires lstate.pendingIdx <= |lstate.pendingRows|
    modifies gsource, lstate
    ensures lstate.pendingIdx <= |lstate.pendingRows| && |chunk| <= VECTOR_SIZE
    ensures result == HaveMoreOutput <==> chunk != []
    ensures Steps(bins, old(gsource.nextBin),
                  Thread(old(lstate.pendingRows), old(lstate.pendingIdx), Outside, claimed, returned), steps)
         == (gsource.nextBin,
             Thread(lstate.pendingRows, lstate.pendingIdx, if result == HaveMoreOutput then Outside else Finished,
                    claimed', if result == HaveMoreOutput then returned + [chunk] else returned))
  {
    ghost var counter, th := gsource.nextBin, Thread(lstate.pendingRows, lstate.pendingIdx, Outside, claimed, returned);
    chunk, steps, claimed' := [], 1, claimed;
    while |chunk| < VECTOR_SIZE
      invariant lstate.pendingIdx <= |lstate.pendingRows| && |chunk| <= VECTOR_SIZE
      invariant Steps(bins, counter, th, steps)
             == (gsource.nextBin, Thread(lstate.pendingRows, lstate.pendingIdx, Looping(chunk), claimed', returned))
      decreases |bins| - gsource.nextBin, |lstate.pendingRows| - lstate.pendingIdx
    {
      if lstate.pendingIdx >= |lstate.pendingRows| {
        var slot := gsource.nextBin;
        gsource.nextBin := gsource.nextBin + 1;
        if slot >= |bins| {
          break;
        }
        lstate.pendingRows, lstate.pendingIdx := bins[slot], 0;
        claimed' := claimed' + [slot];
        steps := steps + 2;
        if |lstate.pendingRows| == 0 {
          continue;
        }
      }
      chunk := chunk + [lstate.pendingRows[lstate.pendingIdx]];
      lstate.pendingIdx := lstate.pendingIdx + 1;
      steps := steps + 1;
    }
    steps := steps + 2;
    result := if |chunk| > 0 then HaveMoreOutput else SourceFinished;
  }
}
