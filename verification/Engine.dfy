/**
 * The worker pool of the health checks as a system of steps that interleave freely
 * (internal/health/engine.go), over one lifetime from NewEngine to Stop.
 */
module Engine {
  import opened Types

  // ---------- States and steps ----------

  datatype Result = Result(backendId: string, healthy: bool)

  /**
   * A worker waits in its select, runs a check, has a result to send, or has returned. blocked: it entered
   * the sending select, found the result channel full, and its 100 ms are running.
   */
  datatype Worker = Idle | Checking(backendId: string) | Sending(result: Result, blocked: bool) | Exited

  /**
   * submitting: calls of Submit that have seen the engine running and wait in their select.
   * stopping, stopped: the Stop call that found the engine running waits for the workers, or has returned.
   * accepted, consumed, timedOut, dropped: what has happened to requests and results so far.
   */
  datatype State = State(
    workers: seq<Worker>,
    results: seq<Result>,
    running: bool,
    cancelled: bool,
    stopping: bool,
    stopped: bool,
    submitting: multiset<string>,
    accepted: multiset<string>,
    consumed: multiset<string>,
    timedOut: multiset<string>,
    dropped: multiset<string>)

  const NEW := State([], [], false, false, false, false, multiset{}, multiset{}, multiset{}, multiset{}, multiset{})

  /** NewEngine's default for a worker count that is not positive. */
  function WorkerCount(configured: int): nat { if configured <= 0 then 4 else configured }

  function Capacity(workerCount: nat): nat { workerCount * 10 }

  datatype Step =
    | Start
    | Submit(backendId: string)
    | Accept(worker: nat, backendId: string)
    | Abandon(backendId: string)
    | Finish(worker: nat, healthy: bool)
    | Send(worker: nat)
    | Block(worker: nat)
    | TimeOut(worker: nat)
    | Drop(worker: nat)
    | Exit(worker: nat)
    | Consume
    | BeginStop
    | EndStop

  predicate Enabled(n: nat, s: State, step: Step)
  {
    match step
    case Start => !s.cancelled
    case Submit(_) => true
    case Accept(w, id) => w < |s.workers| && s.workers[w].Idle? && id in s.submitting
    case Abandon(id) => s.cancelled && id in s.submitting
    case Finish(w, _) => w < |s.workers| && s.workers[w].Checking?
    case Send(w) => w < |s.workers| && s.workers[w].Sending? && |s.results| < Capacity(n)
    case Block(w) =>
      && w < |s.workers| && s.workers[w].Sending? && !s.workers[w].blocked
      && |s.results| >= Capacity(n) && !s.cancelled
    case TimeOut(w) => w < |s.workers| && s.workers[w].Sending? && s.workers[w].blocked
    case Drop(w) => w < |s.workers| && s.workers[w].Sending? && s.cancelled
    case Exit(w) => w < |s.workers| && s.workers[w].Idle? && s.cancelled
    case Consume => s.results != []
    case BeginStop => true
    case EndStop => s.stopping && AllExited(s.workers)
  }

  predicate AllExited(workers: seq<Worker>)
  {
    forall i | 0 <= i < |workers| :: workers[i].Exited?
  }

  function Crew(n: nat): seq<Worker>
  {
    if n == 0 then [] else Crew(n - 1) + [Idle]
  }

  /** Start and Submit and Stop check the running flag; the rest are turns of a select. */
  function Next(n: nat, s: State, step: Step): State
    requires Enabled(n, s, step)
  {
    match step
    case Start => if s.running then s else s.(running := true, workers := Crew(n))
    case Submit(id) => if s.running then s.(submitting := s.submitting + multiset{id}) else s
    case Accept(w, id) =>
      s.(submitting := s.submitting - multiset{id}, accepted := s.accepted + multiset{id},
         workers := s.workers[w := Checking(id)])
    case Abandon(id) => s.(submitting := s.submitting - multiset{id})
    case Finish(w, healthy) =>
      s.(workers := s.workers[w := Sending(Result(s.workers[w].backendId, healthy), false)])
    case Send(w) => s.(results := s.results + [s.workers[w].result], workers := s.workers[w := Idle])
    case Block(w) => s.(workers := s.workers[w := s.workers[w].(blocked := true)])
    case TimeOut(w) =>
      s.(timedOut := s.timedOut + multiset{s.workers[w].result.backendId}, workers := s.workers[w := Idle])
    case Drop(w) =>
      s.(dropped := s.dropped + multiset{s.workers[w].result.backendId}, workers := s.workers[w := Idle])
    case Exit(w) => s.(workers := s.workers[w := Exited])
    case Consume => s.(consumed := s.consumed + multiset{s.results[0].backendId}, results := s.results[1..])
    case BeginStop => if s.running then s.(running := false, cancelled := true, stopping := true) else s
    case EndStop => s.(stopping := false, stopped := true)
  }

  /** The state after a run from a state; None when a step was not enabled. */
  function After(n: nat, from: State, run: seq<Step>): Option<State>
  {
    if run == [] then Some(from) else
      var before, step := After(n, from, run[..|run| - 1]), run[|run| - 1];
      if before.Some? && Enabled(n, before.value, step) then Some(Next(n, before.value, step)) else None
  }

  // ---------- Conservation ----------

  function Hand(w: Worker): multiset<string>
  {
    match w
    case Checking(id) => multiset{id}
    case Sending(result, _) => multiset{result.backendId}
    case _ => multiset{}
  }

  /** The requests some worker is executing. */
  function Executing(workers: seq<Worker>): multiset<string>
  {
    if workers == [] then multiset{}
    else Executing(workers[..|workers| - 1]) + Hand(workers[|workers| - 1])
  }

  function Buffered(results: seq<Result>): multiset<string>
  {
    if results == [] then multiset{} else multiset{results[0].backendId} + Buffered(results[1..])
  }

  /** The requests no worker has in hand any more. */
  function Left(s: State): multiset<string> { Buffered(s.results) + s.consumed + (s.timedOut + s.dropped) }

  /** Everything accepted is being executed, waits in the channel, was consumed or was discarded. */
  predicate Conserved(s: State) { s.accepted == Executing(s.workers) + Left(s) }

  /** The pool's bounds, and what the flags say about each other. */
  predicate WellFormed(n: nat, s: State)
  {
    && (s.workers == [] || |s.workers| == n)
    && |s.results| <= Capacity(n)
    && (s.running ==> !s.cancelled)
    && (!s.running && !s.cancelled ==> s.workers == [] && s.submitting == multiset{})
    && (s.stopping || s.stopped ==> s.cancelled)
    && (s.stopped ==> AllExited(s.workers))
  }

  lemma {:induction false} SwapSummand(a: multiset<string>, x: multiset<string>, y: multiset<string>)
    ensures (a + y) + x == (a + x) + y
  {
  }

  lemma {:induction false} SwapUnder(
    a: multiset<string>, b: multiset<string>, x: multiset<string>, y: multiset<string>, last: multiset<string>)
    requires b + x == a + y
    ensures (b + last) + x == (a + last) + y
  {
    assert (b + last) + x == (b + x) + last;
    assert (a + last) + y == (a + y) + last;
  }

  lemma {:induction false} ExecutingSnoc(workers: seq<Worker>, w: Worker)
    ensures Executing(workers + [w]) == Executing(workers) + Hand(w)
  {
    assert (workers + [w])[..|workers|] == workers;
  }

  lemma {:induction false} UpdateLast(init: seq<Worker>, was: Worker, w: Worker)
    ensures Executing(init + [w]) + Hand(was) == Executing(init + [was]) + Hand(w)
  {
    ExecutingSnoc(init, was);
    ExecutingSnoc(init, w);
    SwapSummand(Executing(init), Hand(was), Hand(w));
  }

  lemma {:induction false} UpdateUnder(
    init: seq<Worker>, init': seq<Worker>, last: Worker, x: multiset<string>, y: multiset<string>)
    requires Executing(init') + x == Executing(init) + y
    ensures Executing(init' + [last]) + x == Executing(init + [last]) + y
  {
    ExecutingSnoc(init, last);
    ExecutingSnoc(init', last);
    SwapUnder(Executing(init), Executing(init'), x, y, Hand(last));
  }

  lemma UpdateSplit<T>(s: seq<T>, i: nat, x: T)
    requires i < |s|
    ensures
      var init, last := s[..|s| - 1], s[|s| - 1];
      && s == init + [last]
      && (i == |init| ==> s[i := x] == init + [x])
      && (i < |init| ==> s[i := x] == init[i := x] + [last])
  {
  }

  /** Giving a worker something else to do changes what is executed by exactly that. */
  lemma {:induction false} ExecutingUpdate(workers: seq<Worker>, i: nat, w: Worker)
    requires i < |workers|
    ensures Executing(workers[i := w]) + Hand(workers[i]) == Executing(workers) + Hand(w)
  {
    var init, last := workers[..|workers| - 1], workers[|workers| - 1];
    UpdateSplit(workers, i, w);
    if i == |init| {
      UpdateLast(init, last, w);
    } else {
      ExecutingUpdate(init, i, w);
      UpdateUnder(init, init[i := w], last, Hand(workers[i]), Hand(w));
    }
  }

  /** What a worker has in hand does not change when only its way of waiting does. */
  lemma {:induction false} HandKept(workers: seq<Worker>, i: nat, w: Worker)
    requires i < |workers| && Hand(workers[i]) == Hand(w)
    ensures Executing(workers[i := w]) == Executing(workers)
  {
    ExecutingUpdate(workers, i, w);
    Cancel(Executing(workers[i := w]), Executing(workers), Hand(w));
  }

  lemma {:induction false} Cancel(a: multiset<string>, b: multiset<string>, x: multiset<string>)
    requires a + x == b + x
    ensures a == b
  {
    assert a == (a + x) - x;
    assert b == (b + x) - x;
  }

  /** A worker without a request takes one. */
  lemma {:induction false} HandFilled(workers: seq<Worker>, i: nat, w: Worker)
    requires i < |workers| && Hand(workers[i]) == multiset{}
    ensures Executing(workers[i := w]) == Executing(workers) + Hand(w)
  {
    ExecutingUpdate(workers, i, w);
  }

  /** A worker passes its request on; everything else stays in hand. */
  lemma {:induction false} HandEmptied(
    workers: seq<Worker>, i: nat, w: Worker, left: multiset<string>, left': multiset<string>)
    requires i < |workers| && Hand(w) == multiset{} && left' == left + Hand(workers[i])
    ensures Executing(workers[i := w]) + left' == Executing(workers) + left
  {
    ExecutingUpdate(workers, i, w);
    assert Executing(workers[i := w]) + (left + Hand(workers[i])) ==
      (Executing(workers[i := w]) + Hand(workers[i])) + left;
  }

  lemma {:induction false} LeftGrows(s: State, x: multiset<string>)
    ensures Left(s.(timedOut := s.timedOut + x)) == Left(s) + x == Left(s.(dropped := s.dropped + x))
  {
  }

  lemma {:induction false} LeftGrowsBySending(s: State, r: Result)
    ensures Left(s.(results := s.results + [r])) == Left(s) + multiset{r.backendId}
  {
    BufferedSnoc(s.results, r);
  }

  lemma {:induction false} LeftKeptByConsuming(s: State)
    requires s.results != []
    ensures Left(s.(consumed := s.consumed + multiset{s.results[0].backendId}, results := s.results[1..])) == Left(s)
  {
  }

  lemma {:induction false} BufferedSnoc(results: seq<Result>, r: Result)
    ensures Buffered(results + [r]) == Buffered(results) + multiset{r.backendId}
  {
    if results != [] {
      BufferedSnoc(results[1..], r);
      assert (results + [r])[1..] == results[1..] + [r];
    }
  }

  lemma {:induction false} CrewIsIdle(n: nat)
    ensures |Crew(n)| == n && Executing(Crew(n)) == multiset{}
  {
    if n > 0 {
      CrewIsIdle(n - 1);
      assert Crew(n)[..n - 1] == Crew(n - 1);
    }
  }

  lemma {:induction false} ExecutingBounded(workers: seq<Worker>)
    ensures |Executing(workers)| <= |workers|
    ensures AllExited(workers) ==> Executing(workers) == multiset{}
  {
    if workers != [] {
      ExecutingBounded(workers[..|workers| - 1]);
    }
  }

  lemma {:induction false} SendConserves(n: nat, s: State, w: nat)
    requires Conserved(s) && Enabled(n, s, Send(w))
    ensures Conserved(Next(n, s, Send(w)))
  {
    LeftGrowsBySending(s, s.workers[w].result);
    HandEmptied(s.workers, w, Idle, Left(s), Left(Next(n, s, Send(w))));
  }

  lemma {:induction false} DiscardConserves(n: nat, s: State, w: nat, step: Step)
    requires Conserved(s) && (step == TimeOut(w) || step == Drop(w)) && Enabled(n, s, step)
    ensures Conserved(Next(n, s, step))
  {
    LeftGrows(s, Hand(s.workers[w]));
    HandEmptied(s.workers, w, Idle, Left(s), Left(Next(n, s, step)));
  }

  lemma {:induction false} AcceptConserves(n: nat, s: State, w: nat, id: string)
    requires Conserved(s) && Enabled(n, s, Accept(w, id))
    ensures Conserved(Next(n, s, Accept(w, id)))
  {
    HandFilled(s.workers, w, Checking(id));
    assert Left(Next(n, s, Accept(w, id))) == Left(s);
  }

  lemma {:induction false} WaitingConserves(s: State, i: nat, w: Worker)
    requires Conserved(s) && i < |s.workers| && Hand(s.workers[i]) == Hand(w)
    ensures Conserved(s.(workers := s.workers[i := w]))
  {
    HandKept(s.workers, i, w);
  }

  lemma {:induction false} WorkerConserves(n: nat, s: State, step: Step)
    requires Conserved(s) && Enabled(n, s, step) && MovesWorker(step)
    ensures Conserved(Next(n, s, step))
  {
    match step
    case Accept(w, id) => AcceptConserves(n, s, w, id);
    case Finish(w, healthy) => WaitingConserves(s, w, Sending(Result(s.workers[w].backendId, healthy), false));
    case Send(w) => SendConserves(n, s, w);
    case TimeOut(w) => DiscardConserves(n, s, w, step);
    case Drop(w) => DiscardConserves(n, s, w, step);
    case Block(w) => WaitingConserves(s, w, s.workers[w].(blocked := true));
    case Exit(w) => WaitingConserves(s, w, Exited);
  }

  lemma {:induction false} StepConserves(n: nat, s: State, step: Step)
    requires Conserved(s) && WellFormed(n, s) && Enabled(n, s, step)
    ensures Conserved(Next(n, s, step))
  {
    if MovesWorker(step) {
      WorkerConserves(n, s, step);
    } else if step.Start? {
      CrewIsIdle(n);
    } else if step.Consume? {
      LeftKeptByConsuming(s);
    }
  }

  predicate MovesWorker(step: Step)
  {
    step.Accept? || step.Finish? || step.Send? || step.Block? || step.TimeOut? || step.Drop? || step.Exit?
  }

  /** A worker that moves had not returned, so Stop had not returned either. */
  lemma {:induction false} WorkerKeepsWellFormed(n: nat, s: State, step: Step)
    requires WellFormed(n, s) && Enabled(n, s, step) && MovesWorker(step)
    ensures
      var after := Next(n, s, step);
      && !after.stopped && |after.workers| == |s.workers| && |after.results| <= Capacity(n)
      && (after.running, after.cancelled, after.stopping) == (s.running, s.cancelled, s.stopping)
  {
    assert !s.workers[step.worker].Exited?;
  }

  lemma {:induction false} CallKeepsWellFormed(n: nat, s: State, step: Step)
    requires WellFormed(n, s) && Enabled(n, s, step) && !MovesWorker(step) && !step.Start?
    ensures WellFormed(n, Next(n, s, step))
  {
  }

  lemma {:induction false} StepKeepsWellFormed(n: nat, s: State, step: Step)
    requires WellFormed(n, s) && Enabled(n, s, step)
    ensures WellFormed(n, Next(n, s, step))
  {
    if step.Start? {
      CrewIsIdle(n);
    } else if MovesWorker(step) {
      WorkerKeepsWellFormed(n, s, step);
    } else {
      CallKeepsWellFormed(n, s, step);
    }
  }

  lemma {:induction false} RunConserves(n: nat, run: seq<Step>)
    requires After(n, NEW, run).Some?
    ensures Conserved(After(n, NEW, run).value) && WellFormed(n, After(n, NEW, run).value)
  {
    if run != [] {
      var before := run[..|run| - 1];
      RunConserves(n, before);
      StepConserves(n, After(n, NEW, before).value, run[|run| - 1]);
      StepKeepsWellFormed(n, After(n, NEW, before).value, run[|run| - 1]);
    }
  }

  /** Nobody has left the pool. */
  predicate NobodyGone(workers: seq<Worker>)
  {
    forall i | 0 <= i < |workers| :: !workers[i].Exited?
  }

  lemma {:induction false} NobodyGoneFromCrew(n: nat)
    ensures NobodyGone(Crew(n))
  {
    if n > 0 {
      NobodyGoneFromCrew(n - 1);
    }
  }

  lemma {:induction false} StepKeepsCrew(n: nat, s: State, step: Step)
    requires WellFormed(n, s) && Enabled(n, s, step) && !Next(n, s, step).cancelled
    requires NobodyGone(s.workers) && (s.running ==> |s.workers| == n)
    ensures var after := Next(n, s, step); NobodyGone(after.workers) && (after.running ==> |after.workers| == n)
  {
    if step.Start? {
      NobodyGoneFromCrew(n);
      CrewIsIdle(n);
    }
  }

  /** Until Stop, all workers of the pool stay in it. */
  lemma {:induction false} CrewStays(n: nat, run: seq<Step>)
    requires After(n, NEW, run).Some? && !After(n, NEW, run).value.cancelled
    ensures NobodyGone(After(n, NEW, run).value.workers)
    ensures After(n, NEW, run).value.running ==> |After(n, NEW, run).value.workers| == n
  {
    if run != [] {
      var before := After(n, NEW, run[..|run| - 1]).value;
      CrewStays(n, run[..|run| - 1]);
      assert WellFormed(n, before) by {
        RunConserves(n, run[..|run| - 1]);
      }
      StepKeepsCrew(n, before, run[|run| - 1]);
    }
  }

  /**
   * Over all interleavings: every accepted request is executing, buffered, consumed or discarded, each
   * once; the pool has the configured number of workers, or 4, while it runs; no more requests execute than
   * that, and no more results wait than ten for each. So the results ever delivered answer distinct accepted
   * requests.
   */
  lemma {:induction false} PoolConservation(configured: int, run: seq<Step>)
    requires After(WorkerCount(configured), NEW, run).Some?
    ensures
      var size := if configured > 0 then configured else 4;
      var s := After(WorkerCount(configured), NEW, run).value;
      && s.accepted == Executing(s.workers) + Buffered(s.results) + s.consumed + (s.timedOut + s.dropped)
      && (s.running ==> |s.workers| == size && NobodyGone(s.workers))
      && |Executing(s.workers)| <= size
      && |s.results| <= 10 * size
      && Buffered(s.results) + s.consumed <= s.accepted
  {
    var n := WorkerCount(configured);
    RunConserves(n, run);
    ExecutingBounded(After(n, NEW, run).value.workers);
    if After(n, NEW, run).value.running {
      CrewStays(n, run);
    }
  }

  // ---------- The trace decides which results are delivered ----------

  /** The request a worker last took, read off the steps alone; the empty string before the first. */
  function LastTaken(run: seq<Step>, w: nat): string
  {
    if run == [] then "" else
      match run[|run| - 1]
      case Accept(v, id) => if v == w then id else LastTaken(run[..|run| - 1], w)
      case _ => LastTaken(run[..|run| - 1], w)
  }

  /** The result of the check a worker last finished: the verdict of that step, for the request it had taken. */
  function LastResult(run: seq<Step>, w: nat): Result
  {
    if run == [] then Result("", false) else
      match run[|run| - 1]
      case Finish(v, healthy) =>
        if v == w then Result(LastTaken(run[..|run| - 1], w), healthy) else LastResult(run[..|run| - 1], w)
      case _ => LastResult(run[..|run| - 1], w)
  }

  /** The results sent, oldest first. */
  function Sent(run: seq<Step>): seq<Result>
  {
    if run == [] then [] else
      match run[|run| - 1]
      case Send(w) => Sent(run[..|run| - 1]) + [LastResult(run[..|run| - 1], w)]
      case _ => Sent(run[..|run| - 1])
  }

  /** How many results were read. */
  function Reads(run: seq<Step>): nat
  {
    if run == [] then 0 else Reads(run[..|run| - 1]) + if run[|run| - 1].Consume? then 1 else 0
  }

  /** The requests taken, and those whose results were given up after 100 ms or at shutdown. */
  function Taken(run: seq<Step>): multiset<string>
  {
    if run == [] then multiset{} else
      match run[|run| - 1]
      case Accept(_, id) => Taken(run[..|run| - 1]) + multiset{id}
      case _ => Taken(run[..|run| - 1])
  }

  function GivenUp(run: seq<Step>, shutdown: bool): multiset<string>
  {
    if run == [] then multiset{} else
      match run[|run| - 1]
      case TimeOut(w) =>
        GivenUp(run[..|run| - 1], shutdown)
        + if shutdown then multiset{} else multiset{LastResult(run[..|run| - 1], w).backendId}
      case Drop(w) =>
        GivenUp(run[..|run| - 1], shutdown)
        + if shutdown then multiset{LastResult(run[..|run| - 1], w).backendId} else multiset{}
      case _ => GivenUp(run[..|run| - 1], shutdown)
  }

  /** A worker has in hand what the trace says. */
  predicate HandsFollow(workers: seq<Worker>, run: seq<Step>)
  {
    forall w: nat | w < |workers| ::
      && (workers[w].Checking? ==> workers[w].backendId == LastTaken(run, w))
      && (workers[w].Sending? ==> workers[w].result == LastResult(run, w))
  }

  lemma {:induction false} NothingInHand(n: nat, run: seq<Step>)
    ensures HandsFollow(Crew(n), run)
  {
    CrewIsWaiting(n);
  }

  lemma {:induction false} CrewIsWaiting(n: nat)
    ensures forall w: nat | w < |Crew(n)| :: Crew(n)[w].Idle?
  {
    if n > 0 {
      CrewIsWaiting(n - 1);
    }
  }

  lemma {:induction false} TakenFollows(n: nat, s: State, run: seq<Step>, w: nat, id: string)
    requires HandsFollow(s.workers, run) && Enabled(n, s, Accept(w, id))
    ensures HandsFollow(Next(n, s, Accept(w, id)).workers, run + [Accept(w, id)])
  {
    assert (run + [Accept(w, id)])[..|run|] == run;
  }

  lemma {:induction false} FinishedFollows(n: nat, s: State, run: seq<Step>, w: nat, healthy: bool)
    requires HandsFollow(s.workers, run) && Enabled(n, s, Finish(w, healthy))
    ensures HandsFollow(Next(n, s, Finish(w, healthy)).workers, run + [Finish(w, healthy)])
  {
    assert (run + [Finish(w, healthy)])[..|run|] == run;
  }

  lemma {:induction false} NothingNewInHand(run: seq<Step>, step: Step, w: nat)
    requires !step.Accept? && !step.Finish?
    ensures LastTaken(run + [step], w) == LastTaken(run, w) && LastResult(run + [step], w) == LastResult(run, w)
  {
    assert (run + [step])[..|run|] == run;
  }

  lemma {:induction false} OtherHandsFollow(n: nat, s: State, run: seq<Step>, step: Step)
    requires HandsFollow(s.workers, run) && Enabled(n, s, step) && !step.Accept? && !step.Finish? && !step.Start?
    ensures HandsFollow(Next(n, s, step).workers, run + [step])
  {
    forall w: nat | w < |s.workers|
      ensures LastTaken(run + [step], w) == LastTaken(run, w) && LastResult(run + [step], w) == LastResult(run, w)
    {
      NothingNewInHand(run, step, w);
    }
  }

  lemma {:induction false} StartFollows(n: nat, s: State, run: seq<Step>)
    requires HandsFollow(s.workers, run) && Enabled(n, s, Start)
    ensures HandsFollow(Next(n, s, Start).workers, run + [Start])
  {
    NothingInHand(n, run + [Start]);
    forall w: nat | w < |s.workers|
      ensures LastTaken(run + [Start], w) == LastTaken(run, w) && LastResult(run + [Start], w) == LastResult(run, w)
    {
      NothingNewInHand(run, Start, w);
    }
  }

  lemma {:induction false} StepFollows(n: nat, s: State, run: seq<Step>, step: Step)
    requires HandsFollow(s.workers, run) && Enabled(n, s, step)
    ensures HandsFollow(Next(n, s, step).workers, run + [step])
  {
    match step
    case Start => StartFollows(n, s, run);
    case Accept(w, id) => TakenFollows(n, s, run, w, id);
    case Finish(w, healthy) => FinishedFollows(n, s, run, w, healthy);
    case _ => OtherHandsFollow(n, s, run, step);
  }

  lemma {:induction false} HandsFollowTrace(n: nat, run: seq<Step>)
    requires After(n, NEW, run).Some?
    ensures HandsFollow(After(n, NEW, run).value.workers, run)
  {
    if run != [] {
      var before, step := run[..|run| - 1], run[|run| - 1];
      HandsFollowTrace(n, before);
      StepFollows(n, After(n, NEW, before).value, before, step);
      assert before + [step] == run;
    }
  }

  /** What waits in the channel are the results sent and not yet read, in order. */
  predicate ChannelFollows(s: State, run: seq<Step>)
  {
    && Reads(run) <= |Sent(run)| && s.results == Sent(run)[Reads(run)..]
    && s.consumed == Buffered(Sent(run)[..Reads(run)])
  }

  predicate TallyFollows(s: State, run: seq<Step>)
  {
    s.accepted == Taken(run) && s.timedOut == GivenUp(run, false) && s.dropped == GivenUp(run, true)
  }

  lemma {:induction false} SendFollows(n: nat, s: State, run: seq<Step>, w: nat)
    requires ChannelFollows(s, run) && HandsFollow(s.workers, run) && Enabled(n, s, Send(w))
    ensures ChannelFollows(Next(n, s, Send(w)), run + [Send(w)])
  {
    assert (run + [Send(w)])[..|run|] == run;
    assert Sent(run + [Send(w)])[..Reads(run)] == Sent(run)[..Reads(run)];
  }

  lemma {:induction false} ReadOne(sent: seq<Result>, k: nat)
    requires k < |sent|
    ensures sent[k..][0] == sent[k] && sent[k..][1..] == sent[k + 1..]
    ensures Buffered(sent[..k + 1]) == Buffered(sent[..k]) + multiset{sent[k].backendId}
  {
    BufferedSnoc(sent[..k], sent[k]);
    assert sent[..k + 1] == sent[..k] + [sent[k]];
  }

  lemma {:induction false} ConsumeFollows(n: nat, s: State, run: seq<Step>)
    requires ChannelFollows(s, run) && Enabled(n, s, Consume)
    ensures ChannelFollows(Next(n, s, Consume), run + [Consume])
  {
    assert (run + [Consume])[..|run|] == run;
    ReadOne(Sent(run), Reads(run));
  }

  lemma {:induction false} OtherFollows(n: nat, s: State, run: seq<Step>, step: Step)
    requires ChannelFollows(s, run) && Enabled(n, s, step) && !step.Send? && !step.Consume?
    ensures ChannelFollows(Next(n, s, step), run + [step])
  {
    assert (run + [step])[..|run|] == run;
  }

  lemma {:induction false} AcceptTallied(n: nat, s: State, run: seq<Step>, w: nat, id: string)
    requires TallyFollows(s, run) && Enabled(n, s, Accept(w, id))
    ensures TallyFollows(Next(n, s, Accept(w, id)), run + [Accept(w, id)])
  {
    assert (run + [Accept(w, id)])[..|run|] == run;
  }

  lemma {:induction false} DiscardTallied(n: nat, s: State, run: seq<Step>, w: nat, step: Step)
    requires TallyFollows(s, run) && (step == TimeOut(w) || step == Drop(w)) && Enabled(n, s, step)
    requires s.workers[w].result == LastResult(run, w)
    ensures TallyFollows(Next(n, s, step), run + [step])
  {
    assert (run + [step])[..|run|] == run;
  }

  lemma {:induction false} OtherTallied(n: nat, s: State, run: seq<Step>, step: Step)
    requires TallyFollows(s, run) && Enabled(n, s, step) && !step.Accept? && !step.TimeOut? && !step.Drop?
    ensures TallyFollows(Next(n, s, step), run + [step])
  {
    assert (run + [step])[..|run|] == run;
  }

  lemma {:induction false} TallyStep(n: nat, s: State, run: seq<Step>, step: Step)
    requires TallyFollows(s, run) && HandsFollow(s.workers, run) && Enabled(n, s, step)
    ensures TallyFollows(Next(n, s, step), run + [step])
  {
    match step
    case Accept(w, id) => AcceptTallied(n, s, run, w, id);
    case TimeOut(w) => DiscardTallied(n, s, run, w, step);
    case Drop(w) => DiscardTallied(n, s, run, w, step);
    case _ => OtherTallied(n, s, run, step);
  }

  lemma {:induction false} RunFollowsTrace(n: nat, run: seq<Step>)
    requires After(n, NEW, run).Some?
    ensures ChannelFollows(After(n, NEW, run).value, run) && TallyFollows(After(n, NEW, run).value, run)
  {
    if run != [] {
      var before, step := run[..|run| - 1], run[|run| - 1];
      var s := After(n, NEW, before).value;
      RunFollowsTrace(n, before);
      HandsFollowTrace(n, before);
      TallyStep(n, s, before, step);
      if step.Send? {
        SendFollows(n, s, before, step.worker);
      } else if step.Consume? {
        ConsumeFollows(n, s, before);
      } else {
        OtherFollows(n, s, before, step);
      }
      assert before + [step] == run;
    }
  }

  /**
   * The channel is first in, first out, over all interleavings: what waits in it are the results sent and not
   * yet read, in order, each with the verdict of its own check; what was accepted, read and lost is what the
   * steps say.
   */
  lemma {:induction false} DeliveredInOrder(n: nat, run: seq<Step>)
    requires After(n, NEW, run).Some?
    ensures
      var s := After(n, NEW, run).value;
      && Reads(run) <= |Sent(run)| && s.results == Sent(run)[Reads(run)..]
      && s.consumed == Buffered(Sent(run)[..Reads(run)])
      && s.accepted == Taken(run)
      && s.timedOut == GivenUp(run, false) && s.dropped == GivenUp(run, true)
  {
    RunFollowsTrace(n, run);
  }

  // ---------- What can happen to a request ----------

  predicate Started(run: seq<Step>) { run != [] && (run[|run| - 1].Start? || Started(run[..|run| - 1])) }

  /** The requests of all calls of Submit made since the engine was started. */
  function Submitted(run: seq<Step>): multiset<string>
  {
    if run == [] then multiset{} else
      var before := run[..|run| - 1];
      match run[|run| - 1]
      case Submit(id) => if Started(before) then Submitted(before) + multiset{id} else Submitted(before)
      case _ => Submitted(before)
  }

  lemma {:induction false} FlagFollows(n: nat, s: State, run: seq<Step>, step: Step)
    requires !s.cancelled && (s.running <==> Started(run))
    requires Enabled(n, s, step) && !Next(n, s, step).cancelled
    ensures Next(n, s, step).running <==> Started(run + [step])
  {
    assert (run + [step])[..|run|] == run;
  }

  lemma {:induction false} SubmissionsFollow(n: nat, s: State, run: seq<Step>, step: Step)
    requires !s.cancelled && (s.running <==> Started(run)) && s.submitting + s.accepted == Submitted(run)
    requires Enabled(n, s, step) && !Next(n, s, step).cancelled
    ensures Next(n, s, step).submitting + Next(n, s, step).accepted == Submitted(run + [step])
  {
    assert (run + [step])[..|run|] == run;
    StepKeepsSubmissions(n, s, step);
  }

  lemma {:induction false} StepKeepsSubmissions(n: nat, s: State, step: Step)
    requires Enabled(n, s, step) && !Next(n, s, step).cancelled
    ensures
      var after := Next(n, s, step);
      after.submitting + after.accepted ==
        s.submitting + s.accepted + (if step.Submit? && s.running then multiset{step.backendId} else multiset{})
  {
  }

  lemma {:induction false} RunFollowsSubmissions(n: nat, run: seq<Step>)
    requires After(n, NEW, run).Some? && !After(n, NEW, run).value.cancelled
    ensures After(n, NEW, run).value.running <==> Started(run)
    ensures After(n, NEW, run).value.submitting + After(n, NEW, run).value.accepted == Submitted(run)
  {
    if run != [] {
      var before, step := run[..|run| - 1], run[|run| - 1];
      var s := After(n, NEW, before).value;
      RunFollowsSubmissions(n, before);
      FlagFollows(n, s, before, step);
      SubmissionsFollow(n, s, before, step);
      assert before + [step] == run;
    }
  }

  /** Until Stop nobody gives up submitting: every request submitted is waiting or was accepted. */
  lemma {:induction false} NoneAbandonedWhileRunning(n: nat, run: seq<Step>)
    requires After(n, NEW, run).Some? && !After(n, NEW, run).value.cancelled
    ensures
      var s := After(n, NEW, run).value;
      s.submitting + s.accepted == Submitted(run)
  {
    RunFollowsSubmissions(n, run);
  }

  /** A waiting result can be read, at any time, and is the oldest. */
  lemma {:induction false} ResultCanBeRead(n: nat, s: State, r: Result, rest: seq<Result>)
    requires s.results == [r] + rest
    ensures After(n, s, [Consume]) == Some(s.(results := rest, consumed := s.consumed + multiset{r.backendId}))
  {
    AfterStep(n, s, [], Consume);
    assert [] + [Consume] == [Consume];
    assert s.results[1..] == rest;
  }

  lemma {:induction false} RequestCanBeChecked(n: nat, s: State, w: nat, id: string, healthy: bool)
    requires s.running && w < |s.workers| && s.workers[w] == Idle
    ensures
      After(n, s, [Submit(id), Accept(w, id), Finish(w, healthy)])
      == Some(s.(accepted := s.accepted + multiset{id}, workers := s.workers[w := Sending(Result(id, healthy), false)]))
  {
    var queued := s.(submitting := s.submitting + multiset{id});
    var taken := s.(accepted := s.accepted + multiset{id}, workers := s.workers[w := Checking(id)]);
    AfterStep(n, s, [], Submit(id));
    assert [] + [Submit(id)] == [Submit(id)] && After(n, s, [Submit(id)]) == Some(queued);
    AfterStep(n, s, [Submit(id)], Accept(w, id));
    assert [Submit(id)] + [Accept(w, id)] == [Submit(id), Accept(w, id)];
    assert queued.submitting - multiset{id} == s.submitting;
    assert After(n, s, [Submit(id), Accept(w, id)]) == Some(taken);
    AfterStep(n, s, [Submit(id), Accept(w, id)], Finish(w, healthy));
    assert [Submit(id), Accept(w, id)] + [Finish(w, healthy)] == [Submit(id), Accept(w, id), Finish(w, healthy)];
    assert taken.workers[w := Sending(Result(id, healthy), false)]
      == s.workers[w := Sending(Result(id, healthy), false)];
  }

  /** While a worker is idle and the channel has room, a submitted request can be checked and answered. */
  lemma {:induction false} RequestCanBeAnswered(n: nat, s: State, w: nat, id: string, healthy: bool)
    requires s.running && w < |s.workers| && s.workers[w] == Idle && |s.results| < 10 * n
    ensures
      After(n, s, [Submit(id), Accept(w, id), Finish(w, healthy)] + [Send(w)])
      == Some(s.(accepted := s.accepted + multiset{id}, results := s.results + [Result(id, healthy)]))
  {
    RequestCanBeChecked(n, s, w, id, healthy);
    AfterStep(n, s, [Submit(id), Accept(w, id), Finish(w, healthy)], Send(w));
    assert s.workers[w := Sending(Result(id, healthy), false)][w := Idle] == s.workers;
  }

  /** With the channel full its result can time out, and the worker is free again. */
  lemma {:induction false} ResultCanTimeOut(n: nat, s: State, w: nat, id: string, healthy: bool)
    requires s.running && !s.cancelled && w < |s.workers| && s.workers[w] == Idle && |s.results| == 10 * n
    ensures
      After(n, s, [Submit(id), Accept(w, id), Finish(w, healthy)] + [Block(w)] + [TimeOut(w)])
      == Some(s.(accepted := s.accepted + multiset{id}, timedOut := s.timedOut + multiset{id}))
  {
    RequestCanBeChecked(n, s, w, id, healthy);
    AfterStep(n, s, [Submit(id), Accept(w, id), Finish(w, healthy)], Block(w));
    var waiting := s.(accepted := s.accepted + multiset{id},
                      workers := s.workers[w := Sending(Result(id, healthy), true)]);
    assert s.workers[w := Sending(Result(id, healthy), false)][w := Sending(Result(id, healthy), true)]
      == waiting.workers;
    assert After(n, s, [Submit(id), Accept(w, id), Finish(w, healthy)] + [Block(w)]) == Some(waiting);
    AfterStep(n, s, [Submit(id), Accept(w, id), Finish(w, healthy)] + [Block(w)], TimeOut(w));
    assert waiting.workers[w := Idle] == s.workers;
  }

  // ---------- Results are lost only to a full channel or to shutdown ----------

  predicate NobodyBlocked(workers: seq<Worker>)
  {
    forall i | 0 <= i < |workers| :: workers[i].Sending? ==> !workers[i].blocked
  }

  lemma {:induction false} NobodyBlockedUpdate(workers: seq<Worker>, i: nat, w: Worker)
    requires i < |workers| && NobodyBlocked(workers) && (w.Sending? ==> !w.blocked)
    ensures NobodyBlocked(workers[i := w])
  {
  }

  lemma {:induction false} StepBlocksNobody(n: nat, s: State, step: Step)
    requires |s.results| < Capacity(n) && NobodyBlocked(s.workers) && Enabled(n, s, step)
    ensures NobodyBlocked(Next(n, s, step).workers)
  {
    match step
    case Start => NobodyBlockedInCrew(n);
    case Accept(w, id) => NobodyBlockedUpdate(s.workers, w, Checking(id));
    case Finish(w, healthy) =>
      NobodyBlockedUpdate(s.workers, w, Sending(Result(s.workers[w].backendId, healthy), false));
    case Send(w) => NobodyBlockedUpdate(s.workers, w, Idle);
    case Drop(w) => NobodyBlockedUpdate(s.workers, w, Idle);
    case Exit(w) => NobodyBlockedUpdate(s.workers, w, Exited);
    case _ =>
  }

  lemma {:induction false} StepDiscards(n: nat, s: State, step: Step)
    requires NobodyBlocked(s.workers) && Enabled(n, s, step)
    ensures Next(n, s, step).timedOut == s.timedOut
    ensures !Next(n, s, step).cancelled ==> !s.cancelled && Next(n, s, step).dropped == s.dropped
  {
  }

  lemma {:induction false} NoTimeoutWithRoom(n: nat, run: seq<Step>)
    requires forall k | 0 <= k <= |run| ::
      After(n, NEW, run[..k]).Some? && |After(n, NEW, run[..k]).value.results| < 10 * n
    ensures After(n, NEW, run).Some?
    ensures After(n, NEW, run).value.timedOut == multiset{} && NobodyBlocked(After(n, NEW, run).value.workers)
    ensures !After(n, NEW, run).value.cancelled ==> After(n, NEW, run).value.dropped == multiset{}
  {
    assert run[..|run|] == run;
    if run != [] {
      var before := run[..|run| - 1];
      forall k | 0 <= k <= |before|
        ensures before[..k] == run[..k]
      {
      }
      NoTimeoutWithRoom(n, before);
      StepBlocksNobody(n, After(n, NEW, before).value, run[|run| - 1]);
      StepDiscards(n, After(n, NEW, before).value, run[|run| - 1]);
    }
  }

  lemma {:induction false} NobodyBlockedInCrew(n: nat)
    ensures NobodyBlocked(Crew(n))
  {
    if n > 0 {
      NobodyBlockedInCrew(n - 1);
    }
  }

  /** As long as the channel always has room and nobody stops the engine, every accepted request is answered. */
  lemma {:induction false} NothingLostWithRoom(n: nat, run: seq<Step>)
    requires forall k | 0 <= k <= |run| ::
      After(n, NEW, run[..k]).Some? && |After(n, NEW, run[..k]).value.results| < 10 * n
    requires After(n, NEW, run).Some? && !After(n, NEW, run).value.cancelled
    ensures
      var s := After(n, NEW, run).value;
      s.accepted == Executing(s.workers) + Buffered(s.results) + s.consumed
  {
    NoTimeoutWithRoom(n, run);
    RunConserves(n, run);
  }

  // ---------- Stopping ----------

  lemma {:induction false} StoppedStep(n: nat, s: State, step: Step)
    requires s.cancelled && !s.running && AllExited(s.workers) && Enabled(n, s, step)
    ensures
      var after := Next(n, s, step);
      && after.cancelled && !after.running && AllExited(after.workers)
      && after.accepted == s.accepted && after.submitting <= s.submitting
  {
  }

  /** Once Stop has returned nothing executes and nothing is accepted any more, whatever happens. */
  lemma {:induction false} NothingAfterStop(n: nat, run: seq<Step>, more: seq<Step>)
    requires After(n, NEW, run).Some? && After(n, NEW, run).value.stopped
    requires After(n, After(n, NEW, run).value, more).Some?
    ensures
      var s, later := After(n, NEW, run).value, After(n, After(n, NEW, run).value, more).value;
      && AllExited(later.workers) && Executing(later.workers) == multiset{}
      && later.accepted == s.accepted && later.cancelled && !later.running
  {
    RunConserves(n, run);
    if more != [] {
      NothingAfterStop(n, run, more[..|more| - 1]);
      var s := After(n, NEW, run).value;
      StoppedStep(n, After(n, s, more[..|more| - 1]).value, more[|more| - 1]);
      ExecutingBounded(After(n, s, more).value.workers);
    } else {
      ExecutingBounded(After(n, NEW, run).value.workers);
    }
  }

  /** What a worker may still do once the engine is cancelled. */
  function Effort(w: Worker): nat
  {
    match w case Exited => 0 case Idle => 1 case Sending(_, _) => 3 case Checking(_) => 4
  }

  function TotalEffort(workers: seq<Worker>): nat
  {
    if workers == [] then 0 else TotalEffort(workers[..|workers| - 1]) + Effort(workers[|workers| - 1])
  }

  /** A bound on the steps left after cancellation: no request can enter any more. */
  function StepsLeft(s: State): nat
  {
    5 * |s.submitting| + TotalEffort(s.workers) + |s.results| + if s.stopping then 1 else 0
  }

  lemma {:induction false} TotalEffortUpdate(workers: seq<Worker>, i: nat, w: Worker)
    requires i < |workers|
    ensures TotalEffort(workers[i := w]) == TotalEffort(workers) - Effort(workers[i]) + Effort(w)
  {
    var last := |workers| - 1;
    if i == last {
      assert workers[i := w][..last] == workers[..last];
    } else {
      TotalEffortUpdate(workers[..last], i, w);
      assert workers[i := w][..last] == workers[..last][i := w];
    }
  }

  /** Calls that find the engine stopped return at once and change nothing. */
  predicate Refused(step: Step) { step.Submit? || step.BeginStop? }

  /** After cancellation every other step uses up the bound, and refused calls leave the state alone. */
  lemma {:induction false} ShutdownStep(n: nat, s: State, step: Step)
    requires s.cancelled && !s.running && Enabled(n, s, step)
    ensures
      var after := Next(n, s, step);
      && after.cancelled && !after.running
      && if Refused(step) then after == s else StepsLeft(after) < StepsLeft(s)
  {
    match step
    case Accept(w, id) => TotalEffortUpdate(s.workers, w, Checking(id));
    case Finish(w, healthy) =>
      TotalEffortUpdate(s.workers, w, Sending(Result(s.workers[w].backendId, healthy), false));
    case Send(w) => TotalEffortUpdate(s.workers, w, Idle);
    case TimeOut(w) => TotalEffortUpdate(s.workers, w, Idle);
    case Drop(w) => TotalEffortUpdate(s.workers, w, Idle);
    case Exit(w) => TotalEffortUpdate(s.workers, w, Exited);
    case _ =>
  }

  function Busy(run: seq<Step>): nat
  {
    if run == [] then 0 else Busy(run[..|run| - 1]) + (if Refused(run[|run| - 1]) then 0 else 1)
  }

  /** Shutdown is bounded: from the moment of cancellation only so many steps can be taken at all. */
  lemma {:induction false} ShutdownIsBounded(n: nat, s: State, run: seq<Step>)
    requires s.cancelled && !s.running && After(n, s, run).Some?
    ensures Busy(run) + StepsLeft(After(n, s, run).value) <= StepsLeft(s)
    ensures After(n, s, run).value.cancelled && !After(n, s, run).value.running
  {
    if run != [] {
      ShutdownIsBounded(n, s, run[..|run| - 1]);
      ShutdownStep(n, After(n, s, run[..|run| - 1]).value, run[|run| - 1]);
    }
  }

  /** And it cannot get stuck: while Stop waits, a worker can move or Stop can return. */
  lemma {:induction false} ShutdownNeverStuck(n: nat, s: State)
    requires s.cancelled && s.stopping
    ensures exists step :: !Refused(step) && Enabled(n, s, step)
  {
    if AllExited(s.workers) {
      assert Enabled(n, s, EndStop);
    } else {
      var w :| 0 <= w < |s.workers| && !s.workers[w].Exited?;
      match s.workers[w]
      case Idle => assert Enabled(n, s, Exit(w));
      case Checking(_) => assert Enabled(n, s, Finish(w, false));
      case Sending(_, _) => assert Enabled(n, s, Drop(w));
    }
  }

  lemma {:induction false} AfterStep(n: nat, from: State, run: seq<Step>, step: Step)
    requires After(n, from, run).Some? && Enabled(n, After(n, from, run).value, step)
    ensures After(n, from, run + [step]) == Some(Next(n, After(n, from, run).value, step))
  {
    assert (run + [step])[..|run|] == run;
  }

  /** One worker in the middle of a check when Stop is called. */
  function Caught(id: string): State
  {
    NEW.(workers := [Checking(id)], cancelled := true, stopping := true, accepted := multiset{id})
  }

  lemma {:induction false} WorkerTakesRequest(id: string)
    ensures
      var queued := Next(1, Next(1, NEW, Start), Submit(id));
      && Enabled(1, queued, Accept(0, id))
      && Next(1, queued, Accept(0, id)) == NEW.(running := true, workers := [Checking(id)], accepted := multiset{id})
  {
    assert Crew(1) == [Idle];
    assert Crew(1)[0 := Checking(id)] == [Checking(id)];
  }

  lemma {:induction false} CheckIsCaught(id: string) returns (run: seq<Step>)
    ensures After(1, NEW, run) == Some(Caught(id))
  {
    WorkerTakesRequest(id);
    AfterStep(1, NEW, [], Start);
    AfterStep(1, NEW, [] + [Start], Submit(id));
    AfterStep(1, NEW, [] + [Start] + [Submit(id)], Accept(0, id));
    AfterStep(1, NEW, [] + [Start] + [Submit(id)] + [Accept(0, id)], BeginStop);
    run := [] + [Start] + [Submit(id)] + [Accept(0, id)] + [BeginStop];
  }

  /**
   * Only the Stop call that found the engine running waits: a second call returns at once, in this run while
   * a check is still under way.
   */
  lemma {:induction false} SecondStopDoesNotWait(id: string) returns (run: seq<Step>)
    ensures After(1, NEW, run) == Some(Caught(id)) && After(1, NEW, run + [BeginStop]) == Some(Caught(id))
    ensures Executing(Caught(id).workers) == multiset{id}
  {
    run := CheckIsCaught(id);
    AfterStep(1, NEW, run, BeginStop);
    ExecutingSnoc([], Checking(id));
    assert [] + [Checking(id)] == Caught(id).workers;
  }

  // ---------- Which Stop calls wait ----------

  /** A Stop call made in s may return in t: once all is done if it found the engine running, else at once. */
  ghost predicate StopReturns(n: nat, s: State, t: State)
  {
    if s.running then exists run :: After(n, Next(n, s, BeginStop), run) == Some(t) && t.stopped else t == s
  }

  lemma {:induction false} RunKeepsWellFormed(n: nat, s: State, run: seq<Step>)
    requires WellFormed(n, s) && After(n, s, run).Some?
    ensures WellFormed(n, After(n, s, run).value)
  {
    if run != [] {
      RunKeepsWellFormed(n, s, run[..|run| - 1]);
      StepKeepsWellFormed(n, After(n, s, run[..|run| - 1]).value, run[|run| - 1]);
    }
  }

  /** Stop waits for the running checks, as promised, iff it found the engine running or nothing was running anyway. */
  lemma {:induction false} StopWaitsExactly(n: nat, before: seq<Step>)
    requires After(n, NEW, before).Some?
    ensures
      var s := After(n, NEW, before).value;
      (forall t | StopReturns(n, s, t) :: AllExited(t.workers)) <==> s.running || AllExited(s.workers)
  {
    var s := After(n, NEW, before).value;
    RunConserves(n, before);
    if s.running {
      forall t | StopReturns(n, s, t)
        ensures AllExited(t.workers)
      {
        var run :| After(n, Next(n, s, BeginStop), run) == Some(t) && t.stopped;
        StepKeepsWellFormed(n, s, BeginStop);
        RunKeepsWellFormed(n, Next(n, s, BeginStop), run);
      }
    } else {
      assert StopReturns(n, s, s);
    }
  }

  lemma {:induction false} AfterConcat(n: nat, from: State, a: seq<Step>, mid: State, b: seq<Step>)
    requires After(n, from, a) == Some(mid) && After(n, mid, b).Some?
    ensures After(n, from, a + b) == After(n, mid, b)
  {
    if b == [] {
      assert a + b == a;
    } else {
      AfterConcat(n, from, a, mid, b[..|b| - 1]);
      assert (a + b)[..|a + b| - 1] == a + b[..|b| - 1];
    }
  }

  lemma {:induction false} StillStopping(n: nat, s: State, step: Step)
    requires s.cancelled && !s.running && s.stopping && Enabled(n, s, step)
    ensures if step.EndStop? then Next(n, s, step).stopped else Next(n, s, step).stopping
  {
  }

  /** From wherever shutdown has got to, it can be completed. */
  lemma {:induction false} StopCanComplete(n: nat, s: State) returns (run: seq<Step>)
    requires s.cancelled && !s.running && s.stopping
    ensures After(n, s, run).Some? && After(n, s, run).value.stopped
    decreases StepsLeft(s)
  {
    ShutdownNeverStuck(n, s);
    var step :| !Refused(step) && Enabled(n, s, step);
    ShutdownStep(n, s, step);
    StillStopping(n, s, step);
    var rest := [];
    if !step.EndStop? {
      rest := StopCanComplete(n, Next(n, s, step));
    }
    AfterStep(n, s, [], step);
    AfterConcat(n, s, [] + [step], Next(n, s, step), rest);
    run := [] + [step] + rest;
  }

  /** Every Stop call can return, so the waiting of StopWaitsExactly is never for nothing. */
  lemma {:induction false} StopCanReturn(n: nat, s: State) returns (t: State)
    requires WellFormed(n, s)
    ensures StopReturns(n, s, t)
  {
    t := s;
    if s.running {
      var run := StopCanComplete(n, Next(n, s, BeginStop));
      t := After(n, Next(n, s, BeginStop), run).value;
    }
  }
}
