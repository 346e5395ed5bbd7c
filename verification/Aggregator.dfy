/**
 * Probe history in five-minute buckets: recording in memory, draining under the lock, writing afterwards
 * (internal/health/aggregator.go, internal/store/health_history.go).
 */
module Aggregator {
  import opened Types

  /** Five minutes in nanoseconds. */
  const BUCKET_DURATION := 300_000_000_000

  /** The multiple of the bucket duration at or just before t. */
  function BucketFloor(t: int): (start: int)
    ensures start % 300_000_000_000 == 0 && start <= t < start + 300_000_000_000
  {
    t - t % BUCKET_DURATION
  }

  lemma BucketFloorUnique(t: int, start: int)
    requires start % 300_000_000_000 == 0 && start <= t < start + 300_000_000_000
    ensures start == BucketFloor(t)
  {
  }

  datatype BucketKey = BucketKey(backendId: string, bucketStart: int)

  function KeyAt(backendId: string, now: int): BucketKey { BucketKey(backendId, BucketFloor(now)) }

  // ---------- Counts ----------

  datatype Counts = Counts(successes: nat, failures: nat, selected: bool)

  const NEW_BUCKET := Counts(0, 0, false)

  function Plus(a: Counts, b: Counts): Counts
  {
    Counts(a.successes + b.successes, a.failures + b.failures, a.selected || b.selected)
  }

  function Probed(c: Counts, healthy: bool): Counts
  {
    if healthy then c.(successes := c.successes + 1) else c.(failures := c.failures + 1)
  }

  function Selected(c: Counts): Counts { c.(selected := true) }

  /** Buckets by key, in memory, on their way to the store, or dropped. */
  type Buckets = map<BucketKey, Counts>

  function Touched(m: Buckets, key: BucketKey): Buckets { if key in m then m else m[key := NEW_BUCKET] }

  function AddedTo(m: Buckets, key: BucketKey, c: Counts): Buckets
  {
    m[key := if key in m then Plus(m[key], c) else c]
  }

  /** How many successes, or failures, a bucket counts. */
  function Tally(c: Counts, healthy: bool): nat { if healthy then c.successes else c.failures }

  function TallyAt(m: Buckets, key: BucketKey, healthy: bool): nat { if key in m then Tally(m[key], healthy) else 0 }

  predicate SelectedAt(m: Buckets, key: BucketKey) { key in m && m[key].selected }

  /** A row of the health_history table; the flag is stored as 0 or 1. */
  datatype Row = Row(successCount: nat, failureCount: nat, selected: nat)

  type Table = map<BucketKey, Row>

  function RowOf(c: Counts): Row { Row(c.successes, c.failures, if c.selected then 1 else 0) }

  /** Insert, or accumulate when the row exists. */
  function Upsert(table: Table, key: BucketKey, row: Row): Table
  {
    if key in table then
      var stored := table[key];
      table[key := Row(stored.successCount + row.successCount,
                       stored.failureCount + row.failureCount,
                       if stored.selected >= row.selected then stored.selected else row.selected)]
    else
      table[key := row]
  }

  function RowTally(table: Table, key: BucketKey, healthy: bool): nat
  {
    if key !in table then 0 else if healthy then table[key].successCount else table[key].failureCount
  }

  predicate RowSelected(table: Table, key: BucketKey) { key in table && table[key].selected > 0 }

  /** Upserting counts adds them to one row and changes no other. */
  lemma UpsertAdds(table: Table, key: BucketKey, c: Counts, other: BucketKey, healthy: bool)
    ensures
      var after := Upsert(table, key, RowOf(c));
      && RowTally(after, other, healthy)
           == RowTally(table, other, healthy) + (if other == key then Tally(c, healthy) else 0)
      && (RowSelected(after, other) <==> RowSelected(table, other) || (other == key && c.selected))
  {
  }

  // ---------- The protocol, step by step ----------

  /**
   * memory: the live buckets; draining: what the flush has taken out and not yet written; stored: the
   * table; lost: what failed writes have dropped.
   */
  datatype State = State(
    memory: Buckets,
    draining: Buckets,
    stored: Table,
    lost: Buckets)

  const EMPTY := State(map[], map[], map[], map[])

  datatype Step =
    | Probe(backendId: string, healthy: bool, now: int)
    | Selection(backendId: string, now: int)
    | Drain(now: int)
    | Write(key: BucketKey, succeeds: bool)

  /** One goroutine flushes: it drains when its last pass is written out, and writes what it drained. */
  predicate Enabled(s: State, step: Step)
  {
    match step
    case Drain(_) => s.draining == map[]
    case Write(key, _) => key in s.draining
    case _ => true
  }

  function Remaining(memory: Buckets, current: int): Buckets
  {
    map key | key in memory && key.bucketStart == current :: memory[key]
  }

  function Drained(memory: Buckets, current: int): Buckets
  {
    map key | key in memory && key.bucketStart != current :: memory[key]
  }

  function Next(s: State, step: Step): State
    requires Enabled(s, step)
  {
    match step
    case Probe(id, healthy, now) =>
      var key := KeyAt(id, now);
      var touched := Touched(s.memory, key);
      s.(memory := touched[key := Probed(touched[key], healthy)])
    case Selection(id, now) =>
      var key := KeyAt(id, now);
      var touched := Touched(s.memory, key);
      s.(memory := touched[key := Selected(touched[key])])
    case Drain(now) =>
      s.(memory := Remaining(s.memory, BucketFloor(now)), draining := Drained(s.memory, BucketFloor(now)))
    case Write(key, succeeds) =>
      var rest := s.(draining := s.draining - {key});
      if succeeds then rest.(stored := Upsert(s.stored, key, RowOf(s.draining[key])))
      else rest.(lost := AddedTo(s.lost, key, s.draining[key]))
  }

  // ---------- The aggregator ----------

  class BucketData {
    var successCount: nat
    var failureCount: nat
    var selected: bool
    ghost const key: BucketKey

    constructor (ghost key: BucketKey)
      ensures Holds(NEW_BUCKET) && this.key == key
    {
      this.key := key;
      successCount, failureCount, selected := 0, 0, false;
    }

    predicate Holds(c: Counts)
      reads this
    {
      successCount == c.successes && failureCount == c.failures && selected == c.selected
    }
  }

  /** The objects of m, all of them in repr, hold the given counts. */
  ghost predicate Shows(m: map<BucketKey, BucketData>, counts: Buckets, repr: set<BucketData>)
    reads repr
  {
    && m.Keys == counts.Keys
    && forall key | key in m :: m[key] in repr && m[key].key == key && m[key].Holds(counts[key])
  }

  class Aggregator {
    var buckets: map<BucketKey, BucketData>
    /** The flush's own variable: the buckets it has drained and not yet written. */
    var toFlush: map<BucketKey, BucketData>
    /** The table behind the store. */
    var history: Table
    /** What the bucket objects hold, and what failed writes have dropped. */
    ghost var memory: Buckets
    ghost var draining: Buckets
    ghost var lost: Buckets
    ghost var repr: set<BucketData>

    /** No bucket object is shared, so nothing a flush still has to write can change under it. */
    ghost predicate Valid()
      reads this, repr
    {
      && Shows(buckets, memory, repr)
      && Shows(toFlush, draining, repr)
      && (forall key | key in buckets && key in toFlush :: buckets[key] != toFlush[key])
    }

    ghost function Abstract(): State
      reads this
    {
      State(memory, draining, history, lost)
    }

    constructor ()
      ensures Valid() && Abstract() == EMPTY
    {
      buckets, toFlush, history := map[], map[], map[];
      memory, draining, lost, repr := map[], map[], map[], {};
    }

    method GetOrCreateBucket(key: BucketKey) returns (b: BucketData)
      requires Valid()
      modifies this`buckets, this`memory, this`repr
      ensures Valid() && key in buckets && b == buckets[key]
      ensures memory == Touched(old(memory), key)
      ensures repr == old(repr) + {b} && (b in old(repr) || fresh(b))
    {
      if key in buckets {
        b := buckets[key];
      } else {
        b := new BucketData(key);
        buckets := buckets[key := b];
        repr := repr + {b};
      }
      memory := Touched(memory, key);
    }

    method CountProbe(b: BucketData, key: BucketKey, healthy: bool)
      requires Valid() && key in buckets && b == buckets[key]
      modifies this`memory, b
      ensures Valid() && memory == old(memory)[key := Probed(old(memory)[key], healthy)]
    {
      if healthy {
        b.successCount := b.successCount + 1;
      } else {
        b.failureCount := b.failureCount + 1;
      }
      memory := memory[key := Probed(memory[key], healthy)];
    }

    method MarkSelected(b: BucketData, key: BucketKey)
      requires Valid() && key in buckets && b == buckets[key]
      modifies this`memory, b
      ensures Valid() && memory == old(memory)[key := Selected(old(memory)[key])]
    {
      b.selected := true;
      memory := memory[key := Selected(memory[key])];
    }

    method RecordProbe(backendId: string, healthy: bool, now: int)
      requires Valid()
      modifies this`buckets, this`memory, this`repr, repr
      ensures Valid() && fresh(repr - old(repr))
      ensures Abstract() == Next(old(Abstract()), Probe(backendId, healthy, now))
    {
      var key := KeyAt(backendId, now);
      var b := GetOrCreateBucket(key);
      CountProbe(b, key, healthy);
    }

    method RecordSelection(backendId: string, now: int)
      requires Valid()
      modifies this`buckets, this`memory, this`repr, repr
      ensures Valid() && fresh(repr - old(repr))
      ensures Abstract() == Next(old(Abstract()), Selection(backendId, now))
    {
      var key := KeyAt(backendId, now);
      var b := GetOrCreateBucket(key);
      MarkSelected(b, key);
    }

    /** The part of flush under the lock: take out every bucket but the current one, in any order. */
    method DrainAllBut(currentBucket: int)
      requires Valid() && toFlush == map[]
      modifies this`buckets, this`toFlush, this`memory, this`draining
      ensures Valid()
      ensures memory == Remaining(old(memory), currentBucket) && draining == Drained(old(memory), currentBucket)
    {
      var remaining := buckets.Keys;
      while remaining != {}
        invariant remaining <= buckets.Keys
        invariant forall key :: key in buckets <==>
          key in old(buckets) && (key in remaining || key.bucketStart == currentBucket)
        invariant forall key :: key in toFlush <==>
          key in old(buckets) && key !in remaining && key.bucketStart != currentBucket
        invariant memory == old(memory)
        invariant forall key | key in buckets :: buckets[key] == old(buckets)[key]
        invariant forall key | key in toFlush :: toFlush[key] == old(buckets)[key]
        decreases remaining
      {
        var key :| key in remaining;
        if key.bucketStart != currentBucket {
          toFlush := toFlush[key := buckets[key]];
          buckets := buckets - {key};
        }
        remaining := remaining - {key};
      }
      memory, draining := Remaining(memory, currentBucket), Drained(memory, currentBucket);
    }

    method DrainBuckets(now: int)
      requires Valid() && toFlush == map[]
      modifies this`buckets, this`toFlush, this`memory, this`draining
      ensures Valid()
      ensures Abstract() == Next(old(Abstract()), Drain(now))
    {
      DrainAllBut(BucketFloor(now));
    }

    /** One turn of flush's write loop, without the lock. */
    method WriteBucket(key: BucketKey, succeeds: bool)
      requires Valid() && key in toFlush
      modifies this`toFlush, this`history, this`draining, this`lost
      ensures Valid() && toFlush == old(toFlush) - {key}
      ensures Abstract() == Next(old(Abstract()), Write(key, succeeds))
    {
      var data := toFlush[key];
      var selected := 0;
      if data.selected {
        selected := 1;
      }
      var bucket := Row(data.successCount, data.failureCount, selected);
      if succeeds {
        history := Upsert(history, key, bucket);
      } else {
        lost := AddedTo(lost, key, Counts(data.successCount, data.failureCount, data.selected));
      }
      toFlush := toFlush - {key};
      draining := draining - {key};
    }

    /** A whole pass with nothing in between; the writes of the given keys fail. */
    method Flush(now: int, failing: set<BucketKey>) returns (ghost order: seq<BucketKey>)
      requires Valid() && toFlush == map[]
      modifies this
      ensures Valid() && toFlush == map[]
      ensures
        var drained := Next(old(Abstract()), Drain(now));
        Writable(drained, order) && Abstract() == WriteAll(drained, order, failing)
    {
      DrainBuckets(now);
      ghost var drained := Abstract();
      order := [];
      while toFlush != map[]
        invariant Valid()
        invariant Writable(drained, order) && Abstract() == WriteAll(drained, order, failing)
        decreases toFlush.Keys
      {
        var key :| key in toFlush;
        assert toFlush.Keys - {key} < toFlush.Keys;
        WriteAllSnoc(drained, order, failing, key);
        WriteBucket(key, key !in failing);
        order := order + [key];
      }
    }
  }

  // ---------- One whole pass ----------

  /** Distinct drained buckets, in the order of their writing. */
  ghost predicate Writable(s: State, order: seq<BucketKey>)
  {
    && (forall i | 0 <= i < |order| :: order[i] in s.draining)
    && (forall i, j | 0 <= i < j < |order| :: order[i] != order[j])
  }

  ghost function WriteAll(s: State, order: seq<BucketKey>, failing: set<BucketKey>): State
    requires Writable(s, order)
    ensures WriteAll(s, order, failing).draining == s.draining - (set key | key in order)
  {
    if order == [] then s else
      var key := order[|order| - 1];
      Next(WriteAll(s, order[..|order| - 1], failing), Write(key, key !in failing))
  }

  lemma {:induction false} WriteAllSnoc(s: State, order: seq<BucketKey>, failing: set<BucketKey>, key: BucketKey)
    requires Writable(s, order) && key in WriteAll(s, order, failing).draining
    ensures Writable(s, order + [key])
    ensures WriteAll(s, order + [key], failing) == Next(WriteAll(s, order, failing), Write(key, key !in failing))
  {
    assert (order + [key])[..|order|] == order;
  }

  /** A write moves one bucket's counts from the drained ones to its row, or to the lost ones. */
  lemma WriteMoves(s: State, written: BucketKey, succeeds: bool, key: BucketKey, healthy: bool)
    requires written in s.draining
    ensures
      var after := Next(s, Write(written, succeeds));
      var moved := if key == written then Tally(s.draining[written], healthy) else 0;
      && after.memory == s.memory
      && TallyAt(after.draining, key, healthy) == TallyAt(s.draining, key, healthy) - moved
      && RowTally(after.stored, key, healthy) == RowTally(s.stored, key, healthy) + (if succeeds then moved else 0)
      && TallyAt(after.lost, key, healthy) == TallyAt(s.lost, key, healthy) + (if succeeds then 0 else moved)
    ensures
      var after := Next(s, Write(written, succeeds));
      var flagged := key == written && s.draining[written].selected;
      && (SelectedAt(after.draining, key) <==> SelectedAt(s.draining, key) && key != written)
      && (RowSelected(after.stored, key) <==> RowSelected(s.stored, key) || (succeeds && flagged))
      && (SelectedAt(after.lost, key) <==> SelectedAt(s.lost, key) || (!succeeds && flagged))
  {
    UpsertAdds(s.stored, written, s.draining[written], key, healthy);
  }

  lemma {:induction false} WriteAllExact(s: State, order: seq<BucketKey>, failing: set<BucketKey>,
                                         key: BucketKey, healthy: bool)
    requires Writable(s, order)
    ensures
      var after, written := WriteAll(s, order, failing), key in order && key !in failing;
      && after.memory == s.memory
      && RowTally(after.stored, key, healthy)
           == RowTally(s.stored, key, healthy) + (if written then Tally(s.draining[key], healthy) else 0)
      && (RowSelected(after.stored, key) <==> RowSelected(s.stored, key) || (written && s.draining[key].selected))
  {
    if order != [] {
      var init, last := order[..|order| - 1], order[|order| - 1];
      WriteAllExact(s, init, failing, key, healthy);
      var before, succeeds := WriteAll(s, init, failing), last !in failing;
      assert last !in init && before.draining[last] == s.draining[last];
      assert key in order <==> key == last || key in init by {
        assert order == init + [last];
      }
      assert WriteAll(s, order, failing) == Next(before, Write(last, succeeds));
      WriteMoves(before, last, succeeds, key, healthy);
    }
  }

  /**
   * An undisturbed pass keeps the current bucket in memory and moves every other one, once, into its row;
   * a bucket whose write fails is dropped.
   */
  lemma {:induction false} FlushMovesEachBucketOnce(s: State, now: int, order: seq<BucketKey>, failing: set<BucketKey>,
                                 key: BucketKey, healthy: bool)
    requires s.draining == map[]
    requires Writable(Next(s, Drain(now)), order) && WriteAll(Next(s, Drain(now)), order, failing).draining == map[]
    ensures
      var after := WriteAll(Next(s, Drain(now)), order, failing);
      var kept := key.bucketStart == BucketFloor(now);
      && TallyAt(after.memory, key, healthy) == (if kept then TallyAt(s.memory, key, healthy) else 0)
      && RowTally(after.stored, key, healthy)
           == RowTally(s.stored, key, healthy) + (if kept || key in failing then 0 else TallyAt(s.memory, key, healthy))
  {
    var drained := Next(s, Drain(now));
    WriteAllExact(drained, order, failing, key, healthy);
    var left := WriteAll(drained, order, failing).draining;
    assert key in left || key in order || key !in drained.draining;
  }

  // ---------- Conservation over every interleaving ----------

  /** The state a run reaches; None when a step is taken that is not enabled. */
  function Reach(run: seq<Step>): Option<State>
  {
    if run == [] then Some(EMPTY) else
      var before := Reach(run[..|run| - 1]);
      if before.Some? && Enabled(before.value, run[|run| - 1]) then Some(Next(before.value, run[|run| - 1]))
      else None
  }

  predicate IsProbe(step: Step, key: BucketKey, healthy: bool)
  {
    step.Probe? && step.healthy == healthy && key == BucketKey(step.backendId, BucketFloor(step.now))
  }

  predicate IsSelection(step: Step, key: BucketKey)
  {
    step.Selection? && key == BucketKey(step.backendId, BucketFloor(step.now))
  }

  /** How many probes of a run, of one outcome, floor into a bucket. */
  function ProbesIn(run: seq<Step>, key: BucketKey, healthy: bool): nat
  {
    if run == [] then 0 else
      ProbesIn(run[..|run| - 1], key, healthy) + (if IsProbe(run[|run| - 1], key, healthy) then 1 else 0)
  }

  /** All a state still holds, has stored or has dropped of a bucket. */
  function TotalTally(s: State, key: BucketKey, healthy: bool): nat
  {
    TallyAt(s.memory, key, healthy) + TallyAt(s.draining, key, healthy)
      + RowTally(s.stored, key, healthy) + TallyAt(s.lost, key, healthy)
  }

  predicate SomewhereSelected(s: State, key: BucketKey)
  {
    SelectedAt(s.memory, key) || SelectedAt(s.draining, key) || RowSelected(s.stored, key) || SelectedAt(s.lost, key)
  }

  lemma DrainConserves(s: State, now: int, key: BucketKey, healthy: bool)
    requires s.draining == map[]
    ensures TotalTally(Next(s, Drain(now)), key, healthy) == TotalTally(s, key, healthy)
    ensures SomewhereSelected(Next(s, Drain(now)), key) <==> SomewhereSelected(s, key)
  {
  }

  lemma {:induction false} RecordConserves(s: State, step: Step, key: BucketKey, healthy: bool)
    requires step.Probe? || step.Selection?
    ensures TotalTally(Next(s, step), key, healthy)
         == TotalTally(s, key, healthy) + (if IsProbe(step, key, healthy) then 1 else 0)
    ensures SomewhereSelected(Next(s, step), key) <==> SomewhereSelected(s, key) || IsSelection(step, key)
  {
  }

  lemma {:induction false} StepConserves(s: State, step: Step, key: BucketKey, healthy: bool)
    requires Enabled(s, step)
    ensures TotalTally(Next(s, step), key, healthy)
         == TotalTally(s, key, healthy) + (if IsProbe(step, key, healthy) then 1 else 0)
    ensures SomewhereSelected(Next(s, step), key) <==> SomewhereSelected(s, key) || IsSelection(step, key)
  {
    match step
    case Drain(now) => DrainConserves(s, now, key, healthy);
    case Write(written, succeeds) => WriteMoves(s, written, succeeds, key, healthy);
    case _ => RecordConserves(s, step, key, healthy);
  }

  /**
   * Conservation: for every backend and bucket, what is counted in memory, drained, stored and lost adds
   * up to the probes whose time floors there, and some flag is set iff a selection fell there.
   */
  lemma {:induction false} Conservation(run: seq<Step>, key: BucketKey, healthy: bool)
    requires Reach(run).Some?
    ensures TotalTally(Reach(run).value, key, healthy) == ProbesIn(run, key, healthy)
    ensures SomewhereSelected(Reach(run).value, key) <==> exists i | 0 <= i < |run| :: IsSelection(run[i], key)
  {
    if run != [] {
      var before, step := run[..|run| - 1], run[|run| - 1];
      Conservation(before, key, healthy);
      StepConserves(Reach(before).value, step, key, healthy);
      assert forall i | 0 <= i < |run| - 1 :: run[i] == before[i];
    }
  }

  /** What a step that writes a bucket carries to the store, or loses. */
  function Carried(run: seq<Step>, key: BucketKey, succeeded: bool, healthy: bool): nat
    requires Reach(run).Some?
  {
    if run == [] then 0 else
      var before := run[..|run| - 1];
      Carried(before, key, succeeded, healthy)
        + (if run[|run| - 1] == Write(key, succeeded) then Tally(Reach(before).value.draining[key], healthy) else 0)
  }

  predicate FlagCarried(run: seq<Step>, key: BucketKey, succeeded: bool)
    requires Reach(run).Some?
  {
    run != [] &&
    var before := run[..|run| - 1];
    || FlagCarried(before, key, succeeded)
    || (run[|run| - 1] == Write(key, succeeded) && Reach(before).value.draining[key].selected)
  }

  /** A row is the sum of what the successful writes carried, its flag the disjunction of their flags. */
  lemma {:induction false} StoredIsWhatWasWritten(run: seq<Step>, key: BucketKey, healthy: bool)
    requires Reach(run).Some?
    ensures RowTally(Reach(run).value.stored, key, healthy) == Carried(run, key, true, healthy)
    ensures TallyAt(Reach(run).value.lost, key, healthy) == Carried(run, key, false, healthy)
    ensures RowSelected(Reach(run).value.stored, key) <==> FlagCarried(run, key, true)
    ensures SelectedAt(Reach(run).value.lost, key) <==> FlagCarried(run, key, false)
  {
    if run != [] {
      var before, step := run[..|run| - 1], run[|run| - 1];
      StoredIsWhatWasWritten(before, key, healthy);
      var s := Reach(before).value;
      if step.Write? {
        WriteMoves(s, step.key, step.succeeds, key, healthy);
      }
    }
  }

  lemma {:induction false} NothingLost(run: seq<Step>, key: BucketKey)
    requires Reach(run).Some? && forall i | 0 <= i < |run| :: run[i] != Write(key, false)
    ensures key !in Reach(run).value.lost
  {
    if run != [] {
      NothingLost(run[..|run| - 1], key);
    }
  }

  /** The positions of a run at which the backend is probed, with the outcome, within the five minutes from start. */
  function ProbePositions(run: seq<Step>, backendId: string, start: int, healthy: bool): set<nat>
  {
    set i: nat | i < |run| && run[i].Probe? && run[i].backendId == backendId && run[i].healthy == healthy
                 && start <= run[i].now < start + 300_000_000_000
  }

  lemma {:induction false} OnePosition(earlier: set<nat>, i: nat, later: set<nat>, more: bool)
    requires i !in earlier && later == if more then earlier + {i} else earlier
    ensures |later| == |earlier| + if more then 1 else 0
  {
  }

  lemma {:induction false} PositionsSnoc(run: seq<Step>, step: Step, backendId: string, start: int, healthy: bool)
    requires start % 300_000_000_000 == 0
    ensures
      ProbePositions(run + [step], backendId, start, healthy) ==
      ProbePositions(run, backendId, start, healthy)
      + (if IsProbe(step, BucketKey(backendId, start), healthy) then {|run|} else {})
  {
    var longer := run + [step];
    assert forall i | 0 <= i < |run| :: longer[i] == run[i];
    assert longer[|run|] == step;
    if step.Probe? && start <= step.now < start + 300_000_000_000 {
      BucketFloorUnique(step.now, start);
    }
  }

  /** The probes counted for a bucket are those of its backend within its five minutes. */
  lemma {:induction false} ProbesInExactly(run: seq<Step>, backendId: string, start: int, healthy: bool)
    requires start % 300_000_000_000 == 0
    ensures ProbesIn(run, BucketKey(backendId, start), healthy) == |ProbePositions(run, backendId, start, healthy)|
  {
    if run != [] {
      var before, step := run[..|run| - 1], run[|run| - 1];
      ProbesInExactly(before, backendId, start, healthy);
      PositionsSnoc(before, step, backendId, start, healthy);
      assert before + [step] == run;
      OnePosition(ProbePositions(before, backendId, start, healthy), |before|,
        ProbePositions(run, backendId, start, healthy), IsProbe(step, BucketKey(backendId, start), healthy));
    }
  }

  /** With no failed write of a bucket, its row is the exact history once nothing of it is pending. */
  lemma {:induction false} RowIsExactHistory(run: seq<Step>, key: BucketKey, healthy: bool)
    requires Reach(run).Some? && forall i | 0 <= i < |run| :: run[i] != Write(key, false)
    requires key !in Reach(run).value.memory && key !in Reach(run).value.draining
    ensures
      var table := Reach(run).value.stored;
      && ProbesIn(run, key, healthy)
           == (if key !in table then 0 else if healthy then table[key].successCount else table[key].failureCount)
      && (key in table && table[key].selected > 0 <==> exists i | 0 <= i < |run| :: IsSelection(run[i], key))
  {
    Conservation(run, key, healthy);
    NothingLost(run, key);
  }
}
