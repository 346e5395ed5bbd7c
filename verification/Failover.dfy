/** The weighted failover choice of the reconciler: selectWeighted in internal/dns/reconciler.go. */
module Failover {
  import opened Types
  import opened Arithmetic

  /** A weight that is not positive counts as 1. */
  function EffectiveWeight(b: Backend): (w: int)
    ensures w == Max(1, b.weight)
  {
    if b.weight <= 0 then 1 else b.weight
  }

  /** The position selectWeighted settles on: a later backend wins only with a strictly smaller weight. */
  function Primary(healthy: seq<Backend>): (best: nat)
    requires healthy != []
    ensures best < |healthy|
  {
    var last := |healthy| - 1;
    if last == 0 then 0 else
      var best := Primary(healthy[..last]);
      if EffectiveWeight(healthy[last]) < EffectiveWeight(healthy[best]) then last else best
  }

  method SelectWeighted(healthy: seq<Backend>) returns (best: Option<nat>)
    ensures healthy == [] ==> best == None
    ensures healthy != [] ==> best == Some(Primary(healthy))
  {
    if |healthy| == 0 {
      return None;
    }
    var b := 0;
    for i := 1 to |healthy|
      invariant b < i && b == Primary(healthy[..i])
    {
      var bw, bestw := healthy[i].weight, healthy[b].weight;
      if bw <= 0 {
        bw := 1;
      }
      if bestw <= 0 {
        bestw := 1;
      }
      assert healthy[..i + 1][..i] == healthy[..i];
      if bw < bestw {
        b := i;
      }
    }
    assert healthy[..|healthy|] == healthy;
    return Some(b);
  }

  // ---------- What the choice is ----------

  predicate FirstMinimum(healthy: seq<Backend>, i: int)
  {
    && 0 <= i < |healthy|
    && (forall j | 0 <= j < |healthy| :: Max(1, healthy[i].weight) <= Max(1, healthy[j].weight))
    && (forall j | 0 <= j < i :: Max(1, healthy[i].weight) < Max(1, healthy[j].weight))
  }

  /** The selected backend is the first among those of least weight, weights below 1 counting as 1, and no other is. */
  lemma {:induction false} PrimaryIsFirstMinimum(healthy: seq<Backend>, i: int)
    requires healthy != []
    ensures FirstMinimum(healthy, i) <==> i == Primary(healthy)
  {
    PrimaryIsMinimal(healthy);
  }

  lemma {:induction false} PrimaryIsMinimal(healthy: seq<Backend>)
    requires healthy != []
    ensures FirstMinimum(healthy, Primary(healthy))
  {
    var last := |healthy| - 1;
    if last > 0 {
      PrimaryIsMinimal(healthy[..last]);
    }
  }

  function Without(s: seq<Backend>, i: nat): seq<Backend>
    requires i < |s|
  {
    s[..i] + s[i + 1..]
  }

  function InsertedAt(s: seq<Backend>, i: nat, b: Backend): seq<Backend>
    requires i <= |s|
  {
    s[..i] + [b] + s[i..]
  }

  lemma WithoutAt(s: seq<Backend>, i: nat, j: nat)
    requires i < |s| && j < |s| - 1
    ensures Without(s, i)[j] == if j < i then s[j] else s[j + 1]
  {
  }

  lemma InsertedAtAt(s: seq<Backend>, i: nat, b: Backend, j: nat)
    requires i <= |s| && j <= |s|
    ensures InsertedAt(s, i, b)[j] == if j < i then s[j] else if j == i then b else s[j - 1]
  {
  }

  lemma {:induction false} RestIsNoLighter(healthy: seq<Backend>, i: nat, j: nat)
    requires i < |healthy| && i != Primary(healthy) && j < |healthy| - 1
    ensures
      var p, other := Primary(healthy), Without(healthy, i)[j];
      && EffectiveWeight(healthy[p]) <= EffectiveWeight(other)
      && (j < (if i < p then p - 1 else p) ==> EffectiveWeight(healthy[p]) < EffectiveWeight(other))
  {
    PrimaryIsMinimal(healthy);
    WithoutAt(healthy, i, j);
  }

  /** Losing a backend that is not selected never moves the selection. */
  lemma {:induction false} LosingStandbyKeepsSelection(healthy: seq<Backend>, i: nat)
    requires i < |healthy| && i != Primary(healthy)
    ensures
      var p, rest := Primary(healthy), Without(healthy, i);
      rest != [] && Primary(rest) == (if i < p then p - 1 else p) && rest[Primary(rest)] == healthy[p]
  {
    var p, rest := Primary(healthy), Without(healthy, i);
    var q := if i < p then p - 1 else p;
    WithoutAt(healthy, i, q);
    forall j | 0 <= j < |rest|
      ensures Max(1, rest[q].weight) <= Max(1, rest[j].weight)
      ensures j < q ==> Max(1, rest[q].weight) < Max(1, rest[j].weight)
    {
      RestIsNoLighter(healthy, i, j);
    }
    PrimaryIsFirstMinimum(rest, q);
  }

  predicate TakesOver(healthy: seq<Backend>, i: nat, b: Backend)
    requires healthy != []
  {
    var p := Primary(healthy);
    var w, active := EffectiveWeight(b), EffectiveWeight(healthy[p]);
    w < active || (w == active && i <= p)
  }

  lemma {:induction false} JoinerTakesOver(healthy: seq<Backend>, i: nat, b: Backend)
    requires healthy != [] && i <= |healthy| && TakesOver(healthy, i, b)
    ensures Primary(InsertedAt(healthy, i, b)) == i
  {
    PrimaryIsMinimal(healthy);
    var joined := InsertedAt(healthy, i, b);
    forall j | 0 <= j < |joined|
      ensures EffectiveWeight(b) <= EffectiveWeight(joined[j])
      ensures j < i ==> EffectiveWeight(b) < EffectiveWeight(joined[j])
    {
      InsertedAtAt(healthy, i, b, j);
    }
    InsertedAtAt(healthy, i, b, i);
    PrimaryIsFirstMinimum(joined, i);
  }

  lemma {:induction false} NobodyIsLighter(healthy: seq<Backend>, i: nat, b: Backend, j: nat)
    requires healthy != [] && i <= |healthy| && !TakesOver(healthy, i, b) && j <= |healthy|
    ensures
      var p, other := Primary(healthy), InsertedAt(healthy, i, b)[j];
      && EffectiveWeight(healthy[p]) <= EffectiveWeight(other)
      && (j < (if i <= p then p + 1 else p) ==> EffectiveWeight(healthy[p]) < EffectiveWeight(other))
  {
    PrimaryIsMinimal(healthy);
    InsertedAtAt(healthy, i, b, j);
  }

  lemma {:induction false} JoinerWaits(healthy: seq<Backend>, i: nat, b: Backend)
    requires healthy != [] && i <= |healthy| && !TakesOver(healthy, i, b)
    ensures
      var p := Primary(healthy);
      Primary(InsertedAt(healthy, i, b)) == if i <= p then p + 1 else p
  {
    var p, joined := Primary(healthy), InsertedAt(healthy, i, b);
    var q := if i <= p then p + 1 else p;
    InsertedAtAt(healthy, i, b, q);
    forall j | 0 <= j < |joined|
      ensures Max(1, joined[q].weight) <= Max(1, joined[j].weight)
      ensures j < q ==> Max(1, joined[q].weight) < Max(1, joined[j].weight)
    {
      NobodyIsLighter(healthy, i, b, j);
    }
    PrimaryIsFirstMinimum(joined, q);
  }

  /**
   * A backend that joins takes over iff its effective weight is smaller than that of the selected one, or
   * equal and it is listed before it; otherwise the selection stays. Being active counts for nothing.
   */
  lemma {:induction false} JoiningTakesOverExactly(healthy: seq<Backend>, i: nat, b: Backend)
    requires healthy != [] && i <= |healthy|
    ensures
      var p, joined := Primary(healthy), InsertedAt(healthy, i, b);
      var w, active := EffectiveWeight(b), EffectiveWeight(healthy[p]);
      var selected := joined[Primary(joined)];
      if w < active || (w == active && i <= p) then Primary(joined) == i && selected == b
      else Primary(joined) == (if i <= p then p + 1 else p) && selected == healthy[p]
  {
    if TakesOver(healthy, i, b) {
      JoinerTakesOver(healthy, i, b);
    } else {
      JoinerWaits(healthy, i, b);
    }
    InsertedAtAt(healthy, i, b, Primary(InsertedAt(healthy, i, b)));
  }

  // ---------- The order of failover ----------

  /** The backends in the order in which they take over when each selected one fails in turn. */
  function FailoverOrder(healthy: seq<Backend>): seq<Backend>
    decreases |healthy|
  {
    if healthy == [] then [] else
      var p := Primary(healthy);
      [healthy[p]] + FailoverOrder(Without(healthy, p))
  }

  predicate AscendingWeights(s: seq<Backend>)
  {
    forall i, j | 0 <= i < j < |s| :: EffectiveWeight(s[i]) <= EffectiveWeight(s[j])
  }

  /** The backends of one effective weight, in order. */
  function OfWeight(s: seq<Backend>, w: int): seq<Backend>
  {
    if s == [] then []
    else if EffectiveWeight(s[0]) == w then [s[0]] + OfWeight(s[1..], w)
    else OfWeight(s[1..], w)
  }

  /** Ascending by effective weight, and backends of equal weight as they were. */
  ghost predicate StableSortOf(sorted: seq<Backend>, s: seq<Backend>)
  {
    AscendingWeights(sorted) && forall w :: OfWeight(sorted, w) == OfWeight(s, w)
  }

  lemma {:induction false} OfWeightConcat(a: seq<Backend>, b: seq<Backend>, w: int)
    ensures OfWeight(a + b, w) == OfWeight(a, w) + OfWeight(b, w)
  {
    if a == [] {
      assert a + b == b;
    } else {
      OfWeightConcat(a[1..], b, w);
      assert (a + b)[1..] == a[1..] + b;
    }
  }

  lemma {:induction false} OfWeightNone(s: seq<Backend>, w: int)
    requires forall i | 0 <= i < |s| :: EffectiveWeight(s[i]) != w
    ensures OfWeight(s, w) == []
  {
    if s != [] {
      OfWeightNone(s[1..], w);
    }
  }

  lemma {:induction false} OfWeightWithout(s: seq<Backend>, i: nat, w: int)
    requires i < |s|
    ensures OfWeight(s, w) == OfWeight(s[..i], w) + OfWeight([s[i]], w) + OfWeight(s[i + 1..], w)
    ensures OfWeight(Without(s, i), w) == OfWeight(s[..i], w) + OfWeight(s[i + 1..], w)
  {
    SplitAround(s, i);
    OfWeightConcat(s[..i] + [s[i]], s[i + 1..], w);
    OfWeightConcat(s[..i], [s[i]], w);
    OfWeightConcat(s[..i], s[i + 1..], w);
  }

  lemma SplitAround(s: seq<Backend>, i: nat)
    requires i < |s|
    ensures s == s[..i] + [s[i]] + s[i + 1..]
  {
  }

  /** Removing the selected backend removes the first of its weight and nothing else. */
  lemma {:induction false} OfWeightWithoutPrimary(s: seq<Backend>, w: int)
    requires s != []
    ensures
      var p := Primary(s);
      OfWeight(s, w) == if EffectiveWeight(s[p]) == w then [s[p]] + OfWeight(Without(s, p), w)
        else OfWeight(Without(s, p), w)
  {
    PrimaryIsMinimal(s);
    var p := Primary(s);
    OfWeightWithout(s, p, w);
    if EffectiveWeight(s[p]) == w {
      OfWeightNone(s[..p], w);
    }
  }

  lemma {:induction false} InOfWeight(s: seq<Backend>, b: Backend)
    ensures b in OfWeight(s, EffectiveWeight(b)) <==> b in s
  {
    if s != [] {
      InOfWeight(s[1..], b);
    }
  }

  lemma {:induction false} PrimaryComesFirst(healthy: seq<Backend>, order: seq<Backend>)
    requires healthy != [] && StableSortOf(order, Without(healthy, Primary(healthy)))
    ensures AscendingWeights([healthy[Primary(healthy)]] + order)
  {
    var rest := Without(healthy, Primary(healthy));
    PrimaryIsMinimal(healthy);
    forall i | 0 <= i < |order|
      ensures EffectiveWeight(healthy[Primary(healthy)]) <= EffectiveWeight(order[i])
    {
      InOfWeight(order, order[i]);
      InOfWeight(rest, order[i]);
    }
  }

  lemma {:induction false} PrimaryKeepsOthers(healthy: seq<Backend>, order: seq<Backend>, w: int)
    requires healthy != [] && StableSortOf(order, Without(healthy, Primary(healthy)))
    ensures OfWeight([healthy[Primary(healthy)]] + order, w) == OfWeight(healthy, w)
  {
    OfWeightWithoutPrimary(healthy, w);
    OfWeightConcat([healthy[Primary(healthy)]], order, w);
  }

  /** Repeatedly losing the selected backend runs through the stable sort by effective weight. */
  lemma {:induction false} FailoverOrderIsStableSort(healthy: seq<Backend>)
    ensures StableSortOf(FailoverOrder(healthy), healthy)
    decreases |healthy|
  {
    if healthy != [] {
      var order := FailoverOrder(Without(healthy, Primary(healthy)));
      FailoverOrderIsStableSort(Without(healthy, Primary(healthy)));
      PrimaryComesFirst(healthy, order);
      forall w
        ensures OfWeight([healthy[Primary(healthy)]] + order, w) == OfWeight(healthy, w)
      {
        PrimaryKeepsOthers(healthy, order, w);
      }
    }
  }

  lemma {:induction false} HeadIsLeast(a: seq<Backend>, b: seq<Backend>)
    requires a != [] && StableSortOf(a, b)
    ensures b != [] && forall i | 0 <= i < |b| :: EffectiveWeight(a[0]) <= EffectiveWeight(b[i])
  {
    InOfWeight(a, a[0]);
    assert OfWeight(a, EffectiveWeight(a[0])) == OfWeight(b, EffectiveWeight(a[0]));
    forall i | 0 <= i < |b|
      ensures EffectiveWeight(a[0]) <= EffectiveWeight(b[i])
    {
      InOfWeight(b, b[i]);
      assert OfWeight(a, EffectiveWeight(b[i])) == OfWeight(b, EffectiveWeight(b[i]));
      InOfWeight(a, b[i]);
    }
  }

  /** A list has one stable sort, so the failover order is determined by the weights and the listing. */
  lemma {:induction false} StableSortIsUnique(a: seq<Backend>, b: seq<Backend>)
    requires AscendingWeights(a) && AscendingWeights(b) && forall w :: OfWeight(a, w) == OfWeight(b, w)
    ensures a == b
  {
    if a == [] {
      if b != [] {
        HeadIsLeast(b, a);
      }
    } else {
      HeadIsLeast(a, b);
      HeadIsLeast(b, a);
      var w := EffectiveWeight(a[0]);
      assert OfWeight(a, w) == OfWeight(b, w);
      assert EffectiveWeight(b[0]) <= w;
      assert w <= EffectiveWeight(b[0]);
      assert OfWeight(a, w)[0] == a[0] && OfWeight(b, w)[0] == b[0];
      forall v
        ensures OfWeight(a[1..], v) == OfWeight(b[1..], v)
      {
        assert OfWeight(a, v) == OfWeight(b, v);
        assert OfWeight(a[1..], v) == if v == w then OfWeight(a, v)[1..] else OfWeight(a, v);
        assert OfWeight(b[1..], v) == if v == w then OfWeight(b, v)[1..] else OfWeight(b, v);
      }
      StableSortIsUnique(a[1..], b[1..]);
      assert a == [a[0]] + a[1..] && b == [b[0]] + b[1..];
    }
  }
}
