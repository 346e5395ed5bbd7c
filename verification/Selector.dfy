/** Backend selection by a shared counter (internal/lb/selector.go). */
module Selector {
  import opened Types
  import opened Arithmetic

  // ---------- 64-bit arithmetic ----------

  /** What is left of x in a signed 64-bit variable. */
  function ToInt64(x: int): int64 { (x + TWO_TO_THE_63) % TWO_TO_THE_64 - TWO_TO_THE_63 }

  /** What is left of x in an unsigned 64-bit variable. */
  function ToUint64(x: int): uint64 { x % TWO_TO_THE_64 }

  // ---------- Specification ----------

  /** Sum of the positive weights among the first n backends. */
  function WeightBefore(backends: seq<Backend>, n: nat): nat
    requires n <= |backends|
  {
    if n == 0 then 0 else WeightBefore(backends, n - 1) + Max(0, backends[n - 1].weight)
  }

  function TotalWeight(backends: seq<Backend>): nat { WeightBefore(backends, |backends|) }

  /** The first backend from i on whose slice of the prefix sums ends beyond offset; 0 if there is none. */
  function Scan(backends: seq<Backend>, offset: uint64, i: nat): (index: nat)
    requires i <= |backends|
    ensures backends != [] ==> index < |backends|
    decreases |backends| - i
  {
    if i == |backends| then 0
    else if backends[i].weight > 0 && offset < ToUint64(WeightBefore(backends, i + 1)) then i
    else Scan(backends, offset, i + 1)
  }

  /** The backend the weighted selector returns when its counter has just reached count. */
  function WeightedChoice(backends: seq<Backend>, count: uint64): (index: nat)
    requires backends != []
    ensures index < |backends|
  {
    var total := ToInt64(TotalWeight(backends));
    if total == 0 then count % |backends| else Scan(backends, count % ToUint64(total), 0)
  }

  function NextCount(count: uint64): uint64 { ToUint64(count + 1) }

  // ---------- The selectors ----------

  lemma WrapStep(x: int, y: int)
    ensures ToInt64(ToInt64(x) + y) == ToInt64(x + y)
    ensures ToUint64(ToUint64(x) + y) == ToUint64(x + y)
  {
    RemainderOfSum(x, y, TWO_TO_THE_64);
    RemainderOfSum(x + TWO_TO_THE_63, y, TWO_TO_THE_64);
  }

  lemma SmallFits(x: int)
    requires 0 <= x < TWO_TO_THE_64
    ensures ToUint64(x) == x
  {
  }

  /** Passing through a signed variable loses nothing that an unsigned one can hold. */
  lemma SignedRoundTrip(x: int)
    ensures ToUint64(ToInt64(x)) == ToUint64(x)
  {
    RemainderOfSum(x + TWO_TO_THE_63, -TWO_TO_THE_63, TWO_TO_THE_64);
  }

  class RoundRobinSelector {
    var counter: uint64

    constructor ()
      ensures counter == 0
    {
      counter := 0;
    }

    /** Index of the selected backend, None for an empty list. */
    method Select(backends: seq<Backend>) returns (choice: Option<nat>)
      modifies this
      ensures backends == [] ==> choice == None && counter == old(counter)
      ensures backends != [] ==> counter == NextCount(old(counter)) && choice == Some(counter % |backends|)
    {
      if |backends| == 0 {
        return None;
      }
      counter := NextCount(counter);
      return Some(counter % |backends|);
    }
  }

  class WeightedSelector {
    var counter: uint64

    constructor ()
      ensures counter == 0
    {
      counter := 0;
    }

    /** Index of the selected backend, None for an empty list. */
    method Select(backends: seq<Backend>) returns (choice: Option<nat>)
      modifies this
      ensures backends == [] ==> choice == None && counter == old(counter)
      ensures backends != [] ==> counter == NextCount(old(counter))
      ensures backends != [] ==> choice == Some(WeightedChoice(backends, counter))
    {
      if |backends| == 0 {
        return None;
      }
      var totalWeight := SumWeights(backends);
      counter := NextCount(counter);
      if totalWeight == 0 {
        return Some(counter % |backends|);
      }
      var index := FindOffset(backends, counter % ToUint64(totalWeight));
      return Some(index);
    }
  }

  /** The first loop of Select. */
  method SumWeights(backends: seq<Backend>) returns (totalWeight: int64)
    ensures totalWeight == ToInt64(TotalWeight(backends))
  {
    totalWeight := 0;
    for i := 0 to |backends|
      invariant totalWeight == ToInt64(WeightBefore(backends, i))
    {
      if backends[i].weight > 0 {
        WrapStep(WeightBefore(backends, i), backends[i].weight);
        totalWeight := ToInt64(totalWeight + backends[i].weight);
      }
    }
  }

  /** The second loop of Select, with its fallback. */
  method FindOffset(backends: seq<Backend>, offset: uint64) returns (index: nat)
    ensures index == Scan(backends, offset, 0)
  {
    var current: uint64 := 0;
    for i := 0 to |backends|
      invariant current == ToUint64(WeightBefore(backends, i))
      invariant Scan(backends, offset, 0) == Scan(backends, offset, i)
    {
      if backends[i].weight <= 0 {
        continue;
      }
      WrapStep(WeightBefore(backends, i), backends[i].weight);
      if offset < ToUint64(current + backends[i].weight) {
        return i;
      }
      current := ToUint64(current + backends[i].weight);
    }
    return 0;
  }

  // ---------- Which backend a count selects ----------

  lemma {:induction false} WeightBeforeMonotone(backends: seq<Backend>, i: nat, j: nat)
    requires i <= j <= |backends|
    ensures WeightBefore(backends, i) <= WeightBefore(backends, j)
  {
    if i < j {
      WeightBeforeMonotone(backends, i, j - 1);
    }
  }

  predicate Owns(backends: seq<Backend>, offset: int, i: nat)
    requires i < |backends|
  {
    WeightBefore(backends, i) <= offset < WeightBefore(backends, i + 1)
  }

  /** Scanning finds the one backend whose slice of the prefix sums holds the offset. */
  lemma {:induction false} ScanFindsOwner(backends: seq<Backend>, offset: uint64, i: nat)
    requires i <= |backends| && TotalWeight(backends) < TWO_TO_THE_64
    requires WeightBefore(backends, i) <= offset < TotalWeight(backends)
    ensures Scan(backends, offset, i) < |backends|
    ensures Owns(backends, offset, Scan(backends, offset, i))
    decreases |backends| - i
  {
    WeightBeforeMonotone(backends, i + 1, |backends|);
    if !(backends[i].weight > 0 && offset < WeightBefore(backends, i + 1)) {
      ScanFindsOwner(backends, offset, i + 1);
    }
  }

  lemma OwnerUnique(backends: seq<Backend>, offset: int, i: nat, j: nat)
    requires i < |backends| && j < |backends| && Owns(backends, offset, i) && Owns(backends, offset, j)
    ensures i == j
  {
    if i < j {
      WeightBeforeMonotone(backends, i + 1, j);
    } else if j < i {
      WeightBeforeMonotone(backends, j + 1, i);
    }
  }

  lemma {:induction false} GoodTotalScans(backends: seq<Backend>, count: uint64)
    requires 0 < TotalWeight(backends) < TWO_TO_THE_64
    ensures WeightedChoice(backends, count) == Scan(backends, count % TotalWeight(backends), 0)
  {
    SignedRoundTrip(TotalWeight(backends));
    SmallFits(TotalWeight(backends));
  }

  /**
   * With a total that fits 64 bits, which the selector silently counts on, backend i is chosen exactly for the
   * offsets in its own slice. Backends without a positive weight own no slice, and the final fallback is never
   * what decides.
   */
  lemma {:induction false} WeightedChoiceExact(backends: seq<Backend>, count: uint64, i: nat)
    requires 0 < TotalWeight(backends) < TWO_TO_THE_64 && i < |backends|
    ensures WeightedChoice(backends, count) == i
        <==> InWindow(count, TotalWeight(backends), WeightBefore(backends, i), Max(0, backends[i].weight))
    ensures WeightedChoice(backends, count) == i ==> backends[i].weight > 0
  {
    var offset := count % TotalWeight(backends);
    GoodTotalScans(backends, count);
    ScanFindsOwner(backends, offset, 0);
    var j := Scan(backends, offset, 0);
    if Owns(backends, offset, i) {
      OwnerUnique(backends, offset, i, j);
    }
  }

  /** Whatever overflows, a scan that starts below its offset and has somewhere to stop stops at a positive weight. */
  lemma {:induction false} ScanStopsAtPositive(backends: seq<Backend>, offset: uint64, i: nat)
    requires i <= |backends|
    requires ToUint64(WeightBefore(backends, i)) <= offset < ToUint64(TotalWeight(backends))
    ensures backends[Scan(backends, offset, i)].weight > 0
    decreases |backends| - i
  {
    if !(backends[i].weight > 0 && offset < ToUint64(WeightBefore(backends, i + 1))) {
      ScanStopsAtPositive(backends, offset, i + 1);
    }
  }

  /** A list's idle weights stay out of rotation iff its total is not 0 in its variable, or it has none. */
  lemma {:induction false} IdleStayOutExactly(backends: seq<Backend>)
    requires 0 < |backends| < TWO_TO_THE_64
    ensures (forall count: uint64 :: backends[WeightedChoice(backends, count)].weight > 0)
       <==> ToInt64(TotalWeight(backends)) != 0 || forall i | 0 <= i < |backends| :: backends[i].weight > 0
  {
    var total := ToInt64(TotalWeight(backends));
    if total != 0 {
      SignedRoundTrip(TotalWeight(backends));
      forall count: uint64
        ensures backends[WeightedChoice(backends, count)].weight > 0
      {
        ScanStopsAtPositive(backends, count % ToUint64(total), 0);
      }
    } else if i :| 0 <= i < |backends| && backends[i].weight <= 0 {
      var count: uint64 := i;
      RemainderUnique(count, |backends|, 0, i);
      assert WeightedChoice(backends, count) == i;
    } else {
      assert forall count: uint64 :: WeightedChoice(backends, count) < |backends|;
    }
  }

  lemma {:induction false} NoWeightNoTotal(backends: seq<Backend>, n: nat)
    requires n <= |backends| && forall i | 0 <= i < |backends| :: backends[i].weight <= 0
    ensures WeightBefore(backends, n) == 0
  {
    if n > 0 {
      NoWeightNoTotal(backends, n - 1);
    }
  }

  /** Without a positive weight the weighted selector takes turns. */
  lemma {:induction false} NoWeightTakesTurns(backends: seq<Backend>, count: uint64)
    requires backends != [] && forall i | 0 <= i < |backends| :: backends[i].weight <= 0
    ensures WeightedChoice(backends, count) == count % |backends|
  {
    NoWeightNoTotal(backends, |backends|);
  }

  // ---------- Fairness of consecutive calls ----------

  /** The counter after n calls from count. */
  function CountAfter(count: uint64, n: nat): uint64
  {
    if n == 0 then count else NextCount(CountAfter(count, n - 1))
  }

  /** How many of n consecutive weighted selections from count pick backend i. */
  function WeightedPicks(backends: seq<Backend>, count: uint64, n: nat, i: nat): nat
    requires backends != []
  {
    if n == 0 then 0 else
      WeightedPicks(backends, count, n - 1, i) +
      (if WeightedChoice(backends, CountAfter(count, n)) == i then 1 else 0)
  }

  function RoundRobinPicks(size: nat, count: uint64, n: nat, i: nat): nat
    requires size > 0
  {
    if n == 0 then 0 else
      RoundRobinPicks(size, count, n - 1, i) + (if CountAfter(count, n) % size == i then 1 else 0)
  }

  /** n calls from count do not pass 2^64 - 1, or passing it does not disturb residues modulo m. */
  predicate SmoothCounter(count: uint64, n: nat, m: int)
    requires m > 0
  {
    count + n < TWO_TO_THE_64 || TWO_TO_THE_64 % m == 0
  }

  lemma {:induction false} CountAfterMod(count: uint64, n: nat)
    ensures CountAfter(count, n) == (count + n) % TWO_TO_THE_64
  {
    if n > 0 {
      CountAfterMod(count, n - 1);
      WrapStep(count + n - 1, 1);
    }
  }

  lemma {:induction false} SmoothResidue(count: uint64, n: nat, m: int)
    requires m > 0 && SmoothCounter(count, n, m)
    ensures CountAfter(count, n) % m == (count + n) % m
  {
    CountAfterMod(count, n);
    if count + n < TWO_TO_THE_64 {
      SmallFits(count + n);
    } else {
      RemainderTwice(count + n, TWO_TO_THE_64, m);
    }
  }

  /** How many of n counts from count have their residue modulo m in [a, a + w). */
  function Hits(count: uint64, n: nat, m: int, a: int, w: int): nat
    requires m > 0
  {
    if n == 0 then 0 else
      Hits(count, n - 1, m, a, w) + (if InWindow(CountAfter(count, n), m, a, w) then 1 else 0)
  }

  lemma {:induction false} WeightedPicksAreHits(backends: seq<Backend>, count: uint64, n: nat, i: nat)
    requires 0 < TotalWeight(backends) < TWO_TO_THE_64 && i < |backends|
    ensures WeightedPicks(backends, count, n, i)
         == Hits(count, n, TotalWeight(backends), WeightBefore(backends, i), Max(0, backends[i].weight))
  {
    if n > 0 {
      WeightedPicksAreHits(backends, count, n - 1, i);
      WeightedChoiceExact(backends, CountAfter(count, n), i);
    }
  }

  lemma {:induction false} RoundRobinPicksAreHits(size: nat, count: uint64, n: nat, i: nat)
    requires i < size
    ensures RoundRobinPicks(size, count, n, i) == Hits(count, n, size, i, 1)
  {
    if n > 0 {
      RoundRobinPicksAreHits(size, count, n - 1, i);
    }
  }

  lemma {:induction false} SmoothHits(count: uint64, n: nat, m: int, a: int, w: int)
    requires m > 0 && SmoothCounter(count, n, m)
    ensures Hits(count, n, m, a, w) == WindowCount(count + n + 1, m, a, w) - WindowCount(count + 1, m, a, w)
  {
    if n > 0 {
      SmoothHits(count, n - 1, m, a, w);
      SmoothResidue(count, n, m);
    }
  }

  /**
   * n calls are n / total full rounds and a rest. A share of w in total gets exactly w picks from each round
   * and, from the rest, no more than fits and no less than what the others leave over.
   */
  predicate FairShare(picks: int, n: nat, total: int, w: int)
    requires total > 0
  {
    n / total * w + Max(0, w + n % total - total) <= picks <= n / total * w + Min(w, n % total)
  }

  lemma {:induction false} SliceInTotal(backends: seq<Backend>, i: nat)
    requires i < |backends|
    ensures WeightBefore(backends, i) + Max(0, backends[i].weight) <= TotalWeight(backends)
  {
    WeightBeforeMonotone(backends, i + 1, |backends|);
  }

  /** Weighted fairness: consecutive calls give every backend its fair share; one without positive weight gets none. */
  lemma {:induction false} WeightedFairness(backends: seq<Backend>, count: uint64, n: nat, i: nat)
    requires 0 < TotalWeight(backends) < TWO_TO_THE_64 && i < |backends|
    requires SmoothCounter(count, n, TotalWeight(backends))
    ensures FairShare(WeightedPicks(backends, count, n, i), n, TotalWeight(backends), Max(0, backends[i].weight))
  {
    var m, a, w := TotalWeight(backends), WeightBefore(backends, i), Max(0, backends[i].weight);
    WeightedPicksAreHits(backends, count, n, i);
    SmoothHits(count, n, m, a, w);
    SliceInTotal(backends, i);
    WindowCountFair(count + 1, n, m, a, w);
  }

  /** Round robin: n calls give every backend n / size turns, or one more. */
  lemma {:induction false} RoundRobinFairness(size: nat, count: uint64, n: nat, i: nat)
    requires i < size && SmoothCounter(count, n, size)
    ensures FairShare(RoundRobinPicks(size, count, n, i), n, size, 1)
  {
    RoundRobinPicksAreHits(size, count, n, i);
    SmoothHits(count, n, size, i, 1);
    WindowCountFair(count + 1, n, size, i, 1);
  }

  // ---------- What the counter's wrap costs ----------

  lemma {:induction false} HitsSplit(count: uint64, k: nat, n: nat, m: int, a: int, w: int)
    requires m > 0
    ensures CountAfter(count, k + n) == CountAfter(CountAfter(count, k), n)
    ensures Hits(count, k + n, m, a, w) == Hits(count, k, m, a, w) + Hits(CountAfter(count, k), n, m, a, w)
  {
    if n > 0 {
      HitsSplit(count, k, n - 1, m, a, w);
    }
  }

  /** After the largest count the counter starts over from 0. */
  lemma {:induction false} HitsFromZero(top: uint64, n: nat, m: int, a: int, w: int)
    requires top == TWO_TO_THE_64 - 1 && 0 < m && n <= m < TWO_TO_THE_64
    ensures Hits(top, n, m, a, w) == WindowCount(n, m, a, w)
  {
    if n > 0 {
      HitsFromZero(top, n - 1, m, a, w);
      CountAfterMod(top, n);
      RemainderUnique(top + n, TWO_TO_THE_64, 1, n - 1);
    }
  }

  /** The last counts before the wrap, where a round has been started but is not finished. */
  lemma {:induction false} HitsBeforeWrap(count: uint64, q: nat, r: nat, m: int, w: int)
    requires 0 <= w <= m && r < m && count + 1 == q * m && count + 1 + r == TWO_TO_THE_64
    ensures Hits(count, r, m, 0, w) == Min(r, w) && CountAfter(count, r) == TWO_TO_THE_64 - 1
  {
    SmoothHits(count, r, m, 0, w);
    CountAfterMod(count, r);
    SmallFits(count + r);
    WindowCountPeriods(0, q, m, 0, w);
    WindowCountPeriods(r, q, m, 0, w);
    WindowCountFirstPeriod(r, m, 0, w);
  }

  /** The first count of the round that the wrap cuts off, less one. */
  lemma {:induction false} LastRound(m: int) returns (count: uint64, q: nat, r: nat)
    requires 0 < m < TWO_TO_THE_64
    ensures r == TWO_TO_THE_64 % m && count + 1 == q * m && count + 1 + r == TWO_TO_THE_64
  {
    q, r := TWO_TO_THE_64 / m, TWO_TO_THE_64 % m;
    assert q >= 1;
    assert q * m >= m;
    count := q * m - 1;
  }

  /** Across the wrap the first w residues come around too early. */
  lemma {:induction false} HitsAcrossWrap(m: int, w: int) returns (count: uint64)
    requires 0 <= w <= m < TWO_TO_THE_64 && 0 < m
    ensures Hits(count, TWO_TO_THE_64 % m + w, m, 0, w) == Min(TWO_TO_THE_64 % m, w) + w
  {
    var q, r;
    count, q, r := LastRound(m);
    HitsBeforeWrap(count, q, r, m, w);
    HitsSplit(count, r, w, m, 0, w);
    HitsFromZero(TWO_TO_THE_64 - 1, w, m, 0, w);
    WindowCountFirstPeriod(w, m, 0, w);
  }

  lemma {:induction false} EarlyRoundIsUnfair(m: int, w: int, r: int)
    requires 0 < w < m && 0 < r < m
    ensures !FairShare(Min(r, w) + w, r + w, m, w)
  {
    RemainderUnique(r + w, m, if r + w < m then 0 else 1, if r + w < m then r + w else r + w - m);
  }

  /** A share of the whole total, or of nothing, is served exactly, wrap or no wrap. */
  lemma {:induction false} TrivialHits(count: uint64, n: nat, m: int, a: int, w: int)
    requires m > 0 && (w == 0 || (a == 0 && w == m))
    ensures Hits(count, n, m, a, w) == if w == 0 then 0 else n
    ensures FairShare(Hits(count, n, m, a, w), n, m, w)
  {
    if n > 0 {
      TrivialHits(count, n - 1, m, a, w);
    }
    assert n == n / m * m + n % m;
  }

  predicate SmoothWrap(m: int)
    requires m > 0
  {
    TWO_TO_THE_64 % m == 0
  }

  predicate OwnsTotal(backends: seq<Backend>, i: nat)
    requires i < |backends|
  {
    backends[i].weight == TotalWeight(backends)
  }

  /** When one backend has the whole total, all others have no share. */
  lemma {:induction false} OwnerLeavesNothing(backends: seq<Backend>, owner: nat, i: nat)
    requires 0 < TotalWeight(backends) < TWO_TO_THE_64 && i < |backends|
    requires owner < |backends| && OwnsTotal(backends, owner)
    ensures Max(0, backends[i].weight) == if i == owner then TotalWeight(backends) else 0
    ensures WeightBefore(backends, owner) == 0
  {
    SliceInTotal(backends, owner);
    WeightBeforeMonotone(backends, owner + 1, |backends|);
    if i < owner {
      WeightBeforeMonotone(backends, i + 1, owner);
    } else if owner < i {
      WeightBeforeMonotone(backends, owner + 1, i);
      SliceInTotal(backends, i);
    }
  }

  lemma {:induction false} FairWhenSmooth(backends: seq<Backend>, count: uint64, n: nat, i: nat)
    requires 0 < TotalWeight(backends) < TWO_TO_THE_64 && i < |backends|
    requires SmoothWrap(TotalWeight(backends)) || exists k | 0 <= k < |backends| :: OwnsTotal(backends, k)
    ensures FairShare(WeightedPicks(backends, count, n, i), n, TotalWeight(backends), Max(0, backends[i].weight))
  {
    if SmoothWrap(TotalWeight(backends)) {
      WeightedFairness(backends, count, n, i);
    } else {
      var owner :| 0 <= owner < |backends| && OwnsTotal(backends, owner);
      OwnerLeavesNothing(backends, owner, i);
      WeightedPicksAreHits(backends, count, n, i);
      TrivialHits(count, n, TotalWeight(backends), WeightBefore(backends, i), Max(0, backends[i].weight));
    }
  }

  /** Otherwise the first backend with a positive weight is served too often across the wrap. */
  lemma {:induction false} UnfairWhenNot(backends: seq<Backend>) returns (count: uint64, n: nat, i: nat)
    requires 0 < TotalWeight(backends) < TWO_TO_THE_64 && !SmoothWrap(TotalWeight(backends))
    requires forall k | 0 <= k < |backends| :: !OwnsTotal(backends, k)
    ensures i < |backends|
    ensures !FairShare(WeightedPicks(backends, count, n, i), n, TotalWeight(backends), Max(0, backends[i].weight))
  {
    var m := TotalWeight(backends);
    var r := TWO_TO_THE_64 % m;
    ScanFindsOwner(backends, 0, 0);
    i := Scan(backends, 0, 0);
    var w := Max(0, backends[i].weight);
    SliceInTotal(backends, i);
    assert !OwnsTotal(backends, i);
    count := HitsAcrossWrap(m, w);
    EarlyRoundIsUnfair(m, w, r);
    n := r + w;
    WeightedPicksAreHits(backends, count, n, i);
  }

  /**
   * Weighted selection is fair from every count for ever iff the total divides the number of counts, or one
   * backend has all the weight.
   */
  lemma {:induction false} WeightedFairExactly(backends: seq<Backend>)
    requires 0 < TotalWeight(backends) < TWO_TO_THE_64
    ensures
      (forall count: uint64, n: nat, i: nat | i < |backends| ::
        FairShare(WeightedPicks(backends, count, n, i), n, TotalWeight(backends), Max(0, backends[i].weight)))
      <==> SmoothWrap(TotalWeight(backends)) || exists k | 0 <= k < |backends| :: OwnsTotal(backends, k)
  {
    if SmoothWrap(TotalWeight(backends)) || exists k | 0 <= k < |backends| :: OwnsTotal(backends, k) {
      forall count: uint64, n: nat, i: nat | i < |backends|
        ensures FairShare(WeightedPicks(backends, count, n, i), n, TotalWeight(backends),
          Max(0, backends[i].weight))
      {
        FairWhenSmooth(backends, count, n, i);
      }
    } else {
      var count, n, i := UnfairWhenNot(backends);
    }
  }

  /** Round robin is fair from every count for ever iff the number of backends divides the number of counts. */
  lemma {:induction false} RoundRobinFairExactly(size: nat)
    requires 0 < size < TWO_TO_THE_64
    ensures
      (forall count: uint64, n: nat, i: nat | i < size :: FairShare(RoundRobinPicks(size, count, n, i), n, size, 1))
      <==> SmoothWrap(size)
  {
    if SmoothWrap(size) {
      forall count: uint64, n: nat, i: nat | i < size
        ensures FairShare(RoundRobinPicks(size, count, n, i), n, size, 1)
      {
        RoundRobinFairness(size, count, n, i);
      }
    } else {
      var r := TWO_TO_THE_64 % size;
      assert size != 1;
      var count := HitsAcrossWrap(size, 1);
      EarlyRoundIsUnfair(size, 1, r);
      RoundRobinPicksAreHits(size, count, r + 1, 0);
    }
  }

  /** The counter's wrap is visible: three calls across it serve one of three backends twice. */
  lemma WrapBreaksRoundRobin()
    ensures RoundRobinPicks(3, TWO_TO_THE_64 - 2, 3, 0) == 2
    ensures RoundRobinPicks(3, TWO_TO_THE_64 - 2, 3, 2) == 0
  {
    var count := TWO_TO_THE_64 - 2;
    assert CountAfter(count, 1) == TWO_TO_THE_64 - 1;
    assert CountAfter(count, 2) == 0;
    assert CountAfter(count, 3) == 1;
    forall i | i == 0 || i == 2
      ensures RoundRobinPicks(3, count, 3, i) == if i == 0 then 2 else 0
    {
      assert RoundRobinPicks(3, count, 1, i) == if i == 0 then 1 else 0;
      assert RoundRobinPicks(3, count, 2, i) == if i == 0 then 2 else 0;
    }
  }

  /** A total that overflows to zero puts a backend of weight 0 into rotation. */
  lemma {:induction false} OverflowSelectsWeightZero(heavy: Backend, idle: Backend)
    requires heavy.weight == 0x4000_0000_0000_0000 && idle.weight == 0
    ensures WeightedChoice([heavy, heavy, heavy, heavy, idle], 4) == 4
  {
    var backends := [heavy, heavy, heavy, heavy, idle];
    assert WeightBefore(backends, 1) == heavy.weight;
    assert WeightBefore(backends, 2) == 2 * heavy.weight;
    assert WeightBefore(backends, 3) == 3 * heavy.weight;
    assert WeightBefore(backends, 4) == 4 * heavy.weight;
    assert TotalWeight(backends) == TWO_TO_THE_64;
  }
}
