/** The sliding-window limiter per client address (internal/handlers/routes.go). */
module RateLimiter {
  import opened Arithmetic

  // ---------- Specification ----------

  /** The times after the cutoff, in order. */
  function After(times: seq<int>, cutoff: int): seq<int>
  {
    if times == [] then []
    else
      var init, last := times[..|times| - 1], times[|times| - 1];
      if last > cutoff then After(init, cutoff) + [last] else After(init, cutoff)
  }

  type Log = map<string, seq<int>>

  function Times(log: Log, ip: string): seq<int> { if ip in log then log[ip] else [] }

  datatype Rule = Rule(limit: int, window: int)

  /** Fewer than limit of the times lie after now - window. */
  predicate HasRoom(rule: Rule, times: seq<int>, now: int) { |After(times, now - rule.window)| < rule.limit }

  /** What a limiter holding the log answers to a request of ip at time now. */
  predicate Admits(rule: Rule, log: Log, ip: string, now: int) { HasRoom(rule, Times(log, ip), now) }

  function AfterAllow(rule: Rule, log: Log, ip: string, now: int): Log
  {
    var valid := After(Times(log, ip), now - rule.window);
    log[ip := if Admits(rule, log, ip, now) then valid + [now] else valid]
  }

  function AfterCleanup(rule: Rule, log: Log, now: int): Log
  {
    map ip | ip in log && After(log[ip], now - rule.window) != [] :: After(log[ip], now - rule.window)
  }

  // ---------- The limiter ----------

  method Prune(times: seq<int>, cutoff: int) returns (valid: seq<int>)
    ensures valid == After(times, cutoff)
  {
    valid := [];
    for i := 0 to |times|
      invariant valid == After(times[..i], cutoff)
    {
      assert times[..i + 1][..i] == times[..i];
      if times[i] > cutoff {
        valid := valid + [times[i]];
      }
    }
    assert times[..|times|] == times;
  }

  class RateLimiter {
    var requests: Log
    const limit: int
    const window: int

    constructor (limit: int, window: int)
      ensures requests == map[] && this.limit == limit && this.window == window
    {
      requests := map[];
      this.limit, this.window := limit, window;
    }

    method Allow(ip: string, now: int) returns (allowed: bool)
      modifies this
      ensures allowed == Admits(Rule(limit, window), old(requests), ip, now)
      ensures requests == AfterAllow(Rule(limit, window), old(requests), ip, now)
    {
      var cutoff := now - window;
      var times := if ip in requests then requests[ip] else [];
      var validRequests := Prune(times, cutoff);
      if |validRequests| >= limit {
        requests := requests[ip := validRequests];
        return false;
      }
      requests := requests[ip := validRequests + [now]];
      return true;
    }

    /** One tick of the cleanup loop; the addresses are visited in any order. */
    method Cleanup(now: int)
      modifies this
      ensures requests == AfterCleanup(Rule(limit, window), old(requests), now)
    {
      var cutoff := now - window;
      var remaining := requests.Keys;
      while remaining != {}
        invariant remaining <= requests.Keys <= old(requests).Keys
        invariant forall ip | ip in remaining :: requests[ip] == old(requests)[ip]
        invariant forall ip | ip in old(requests) && ip !in remaining ::
          var valid := After(old(requests)[ip], cutoff);
          if valid == [] then ip !in requests else ip in requests && requests[ip] == valid
        decreases remaining
      {
        var ip :| ip in remaining;
        var valid := Prune(requests[ip], cutoff);
        if |valid| == 0 {
          requests := requests - {ip};
        } else {
          requests := requests[ip := valid];
        }
        remaining := remaining - {ip};
      }
    }
  }

  // ---------- Pruning ----------

  lemma {:induction false} AfterOfConcat(a: seq<int>, b: seq<int>, cutoff: int)
    ensures After(a + b, cutoff) == After(a, cutoff) + After(b, cutoff)
  {
    if b == [] {
      assert a + b == a;
    } else {
      AfterOfConcat(a, b[..|b| - 1], cutoff);
      assert (a + b)[..|a + b| - 1] == a + b[..|b| - 1];
    }
  }

  lemma CountSnoc(init: seq<int>, last: int, t: int)
    ensures multiset(init + [last])[t] == multiset(init)[t] + if t == last then 1 else 0
  {
  }

  /** What Prune keeps is every time after the cutoff, as often as it was there, and nothing else. */
  lemma {:induction false} AfterExactly(times: seq<int>, cutoff: int, t: int)
    ensures multiset(After(times, cutoff))[t] == if t > cutoff then multiset(times)[t] else 0
  {
    if times != [] {
      var init, last := times[..|times| - 1], times[|times| - 1];
      AfterExactly(init, cutoff, t);
      CountSnoc(init, last, t);
      CountSnoc(After(init, cutoff), last, t);
      assert times == init + [last];
    }
  }

  lemma {:induction false} AllAfter(times: seq<int>, cutoff: int)
    ensures forall t | t in After(times, cutoff) :: t > cutoff
  {
    forall t | t in After(times, cutoff)
      ensures t > cutoff
    {
      AfterExactly(times, cutoff, t);
      assert t in multiset(After(times, cutoff));
    }
  }

  /** A decision leaves only times within the window, and a cleanup tick moreover no address without one. */
  lemma {:induction false} OnlyRecentAreHeld(rule: Rule, log: Log, ip: string, now: int)
    ensures forall t | t in AfterAllow(rule, log, ip, now)[ip] :: t == now || t > now - rule.window
    ensures forall other | other in AfterCleanup(rule, log, now) ::
      && AfterCleanup(rule, log, now)[other] != []
      && forall t | t in AfterCleanup(rule, log, now)[other] :: t > now - rule.window
  {
    AllAfter(Times(log, ip), now - rule.window);
    var after := AfterCleanup(rule, log, now);
    forall other | other in after
      ensures forall t | t in after[other] :: t > now - rule.window
    {
      AllAfter(log[other], now - rule.window);
    }
  }

  lemma {:induction false} AfterOfAfter(times: seq<int>, early: int, late: int)
    requires early <= late
    ensures After(After(times, early), late) == After(times, late)
  {
    if times != [] {
      var init, last := times[..|times| - 1], times[|times| - 1];
      AfterOfAfter(init, early, late);
      AfterOfConcat(After(init, early), [last], late);
    }
  }

  // ---------- Against a limiter that never forgets ----------

  datatype Event = Request(ip: string, now: int) | CleanupTick(now: int)

  function NextLog(rule: Rule, log: Log, event: Event): Log
  {
    match event
    case Request(ip, now) => AfterAllow(rule, log, ip, now)
    case CleanupTick(now) => AfterCleanup(rule, log, now)
  }

  /** What the limiter holds after a run. */
  function Held(rule: Rule, run: seq<Event>): Log
  {
    if run == [] then map[] else NextLog(rule, Held(rule, run[..|run| - 1]), run[|run| - 1])
  }

  /** Its decisions on the requests of the run. */
  function Decisions(rule: Rule, run: seq<Event>): seq<bool>
  {
    if run == [] then [] else
      var before, event := run[..|run| - 1], run[|run| - 1];
      var earlier := Decisions(rule, before);
      if event.Request? then earlier + [Admits(rule, Held(rule, before), event.ip, event.now)] else earlier
  }

  /** The reference keeps every admitted time of an address forever and ignores cleanup ticks. */
  function NextRecord(rule: Rule, times: seq<int>, ip: string, event: Event): seq<int>
  {
    if event.Request? && event.ip == ip && HasRoom(rule, times, event.now) then times + [event.now] else times
  }

  function Recorded(rule: Rule, run: seq<Event>, ip: string): seq<int>
  {
    if run == [] then [] else NextRecord(rule, Recorded(rule, run[..|run| - 1], ip), ip, run[|run| - 1])
  }

  /** The reference's decisions. */
  function DecisionsFull(rule: Rule, run: seq<Event>): seq<bool>
  {
    if run == [] then [] else
      var before, event := run[..|run| - 1], run[|run| - 1];
      var earlier := DecisionsFull(rule, before);
      if event.Request? then earlier + [HasRoom(rule, Recorded(rule, before, event.ip), event.now)] else earlier
  }

  /** The clock read by the events never goes back; it is a monotonic clock read under the lock. */
  predicate Monotone(run: seq<Event>)
  {
    forall i, j | 0 <= i < j < |run| :: run[i].now <= run[j].now
  }

  /** What an event does to the times held for one address. */
  function NextTimes(rule: Rule, times: seq<int>, ip: string, event: Event): seq<int>
  {
    var valid := After(times, event.now - rule.window);
    if event.CleanupTick? then valid
    else if event.ip != ip then times
    else if HasRoom(rule, times, event.now) then valid + [event.now]
    else valid
  }

  lemma {:induction false} TimesNext(rule: Rule, log: Log, ip: string, event: Event)
    ensures Times(NextLog(rule, log, event), ip) == NextTimes(rule, Times(log, ip), ip, event)
  {
  }

  lemma {:induction false} AfterSnoc(times: seq<int>, x: int, cutoff: int)
    ensures After(times + [x], cutoff) == if x > cutoff then After(times, cutoff) + [x] else After(times, cutoff)
  {
    assert (times + [x])[..|times|] == times;
  }

  lemma {:induction false} AdmissionKeepsSame(pruned: seq<int>, full: seq<int>, x: int, cutoff: int)
    requires After(pruned, cutoff) == After(full, cutoff)
    ensures After(After(pruned, cutoff) + [x], cutoff) == After(full + [x], cutoff)
  {
    AfterOfAfter(pruned, cutoff, cutoff);
    AfterSnoc(After(pruned, cutoff), x, cutoff);
    AfterSnoc(full, x, cutoff);
  }

  lemma {:induction false} SameLater(a: seq<int>, b: seq<int>, early: int, late: int)
    requires early <= late && After(a, early) == After(b, early)
    ensures After(a, late) == After(b, late)
  {
    AfterOfAfter(a, early, late);
    AfterOfAfter(b, early, late);
  }

  /** Two lists that agree after a cutoff still do so after an event read later. */
  lemma {:induction false} EventKeepsSame(rule: Rule, pruned: seq<int>, full: seq<int>, ip: string, event: Event)
    requires After(pruned, event.now - rule.window) == After(full, event.now - rule.window)
    ensures
      After(NextTimes(rule, pruned, ip, event), event.now - rule.window)
      == After(NextRecord(rule, full, ip, event), event.now - rule.window)
  {
    var cutoff := event.now - rule.window;
    AfterOfAfter(pruned, cutoff, cutoff);
    AdmissionKeepsSame(pruned, full, event.now, cutoff);
  }

  predicate NoneLater(run: seq<Event>, latest: int)
  {
    forall i | 0 <= i < |run| :: run[i].now <= latest
  }

  /** Nothing admitted after the cutoff has been pruned. */
  lemma {:induction false} SurvivorsAgree(rule: Rule, run: seq<Event>, ip: string, cutoff: int)
    requires Monotone(run) && NoneLater(run, cutoff + rule.window)
    ensures After(Times(Held(rule, run), ip), cutoff) == After(Recorded(rule, run, ip), cutoff)
  {
    if run != [] {
      var before, event := run[..|run| - 1], run[|run| - 1];
      SurvivorsAgree(rule, before, ip, event.now - rule.window);
      TimesNext(rule, Held(rule, before), ip, event);
      EventKeepsSame(rule, Times(Held(rule, before), ip), Recorded(rule, before, ip), ip, event);
      SameLater(Times(Held(rule, run), ip), Recorded(rule, run, ip), event.now - rule.window, cutoff);
    }
  }

  /** The limiter and the reference decide alike, and agree on all that can still matter to a decision. */
  lemma {:induction false} Bisimulation(rule: Rule, run: seq<Event>)
    requires Monotone(run)
    ensures Decisions(rule, run) == DecisionsFull(rule, run)
    ensures forall ip, cutoff | NoneLater(run, cutoff + rule.window) ::
      After(Times(Held(rule, run), ip), cutoff) == After(Recorded(rule, run, ip), cutoff)
  {
    forall ip, cutoff | NoneLater(run, cutoff + rule.window)
      ensures After(Times(Held(rule, run), ip), cutoff) == After(Recorded(rule, run, ip), cutoff)
    {
      SurvivorsAgree(rule, run, ip, cutoff);
    }
    DecideAlike(rule, run);
  }

  lemma {:induction false} RoomAgrees(rule: Rule, run: seq<Event>, ip: string, now: int)
    requires Monotone(run) && NoneLater(run, now)
    ensures Admits(rule, Held(rule, run), ip, now) == HasRoom(rule, Recorded(rule, run, ip), now)
  {
    SurvivorsAgree(rule, run, ip, now - rule.window);
  }

  lemma {:induction false} DecideAlike(rule: Rule, run: seq<Event>)
    requires Monotone(run)
    ensures Decisions(rule, run) == DecisionsFull(rule, run)
  {
    if run != [] {
      var before, event := run[..|run| - 1], run[|run| - 1];
      DecideAlike(rule, before);
      if event.Request? {
        RoomAgrees(rule, before, event.ip, event.now);
      }
    }
  }

  function RequestsOf(run: seq<Event>): seq<Event>
  {
    if run == [] then [] else
      var before, event := RequestsOf(run[..|run| - 1]), run[|run| - 1];
      if event.Request? then before + [event] else before
  }

  lemma {:induction false} RecordIgnoresCleanup(rule: Rule, run: seq<Event>, ip: string)
    ensures Recorded(rule, RequestsOf(run), ip) == Recorded(rule, run, ip)
  {
    if run != [] {
      RecordIgnoresCleanup(rule, run[..|run| - 1], ip);
      if run[|run| - 1].Request? {
        assert RequestsOf(run)[..|RequestsOf(run)| - 1] == RequestsOf(run[..|run| - 1]);
      }
    }
  }

  lemma {:induction false} FullIgnoresCleanup(rule: Rule, run: seq<Event>)
    ensures DecisionsFull(rule, RequestsOf(run)) == DecisionsFull(rule, run)
  {
    if run != [] {
      var before, event := run[..|run| - 1], run[|run| - 1];
      FullIgnoresCleanup(rule, before);
      if event.Request? {
        assert RequestsOf(run)[..|RequestsOf(run)| - 1] == RequestsOf(before);
        RecordIgnoresCleanup(rule, before, event.ip);
      }
    }
  }

  lemma {:induction false} RequestsStayMonotone(run: seq<Event>, latest: int)
    requires Monotone(run) && NoneLater(run, latest)
    ensures Monotone(RequestsOf(run)) && NoneLater(RequestsOf(run), latest)
  {
    if run != [] {
      RequestsStayMonotone(run[..|run| - 1], run[|run| - 1].now);
    }
  }

  /**
   * Pruning is invisible: every decision is the one the full history of admissions would give, and
   * removing all cleanup ticks from a run changes no decision.
   */
  lemma {:induction false} PruningIsInvisible(rule: Rule, run: seq<Event>)
    requires Monotone(run)
    ensures Decisions(rule, run) == DecisionsFull(rule, run) == Decisions(rule, RequestsOf(run))
  {
    RequestsStayMonotone(run, if run == [] then 0 else run[|run| - 1].now);
    DecideAlike(rule, run);
    FullIgnoresCleanup(rule, run);
    DecideAlike(rule, RequestsOf(run));
  }

  // ---------- The rate bound ----------

  /** The times at which the limiter, holding what it then held, admitted requests of ip. */
  function Admitted(rule: Rule, run: seq<Event>, ip: string): seq<int>
  {
    if run == [] then [] else
      var before, event := run[..|run| - 1], run[|run| - 1];
      var earlier := Admitted(rule, before, ip);
      if event.Request? && event.ip == ip && Admits(rule, Held(rule, before), ip, event.now)
      then earlier + [event.now]
      else earlier
  }

  function CountIn(times: seq<int>, from: int, to: int): nat
  {
    if times == [] then 0 else
      var last := times[|times| - 1];
      CountIn(times[..|times| - 1], from, to) + (if from <= last < to then 1 else 0)
  }

  predicate Ascending(times: seq<int>)
  {
    forall i, j | 0 <= i < j < |times| :: times[i] <= times[j]
  }

  /** Any two admissions that are limit places apart are at least a window apart. */
  ghost predicate Spaced(rule: Rule, times: seq<int>)
  {
    forall i, j | 0 <= i <= j < |times| && j == i + Max(0, rule.limit) :: times[i] + rule.window <= times[j]
  }

  lemma {:induction false} AfterOfAscending(times: seq<int>, cutoff: int, k: nat)
    requires Ascending(times) && k < |times| && times[k] > cutoff
    ensures |After(times, cutoff)| >= |times| - k
  {
    if k < |times| - 1 {
      AfterOfAscending(times[..|times| - 1], cutoff, k);
    }
  }

  lemma {:induction false} SpacedSnoc(rule: Rule, times: seq<int>, now: int)
    requires Spaced(rule, times)
    requires Max(0, rule.limit) <= |times| ==>
      rule.limit > 0 && times[|times| - rule.limit] + rule.window <= now
    ensures Spaced(rule, times + [now])
  {
    var longer := times + [now];
    forall i, j | 0 <= i <= j < |longer| && j == i + Max(0, rule.limit)
      ensures longer[i] + rule.window <= longer[j]
    {
      assert j < |times| ==> times[i] + rule.window <= times[j];
    }
  }

  lemma {:induction false} AdmissionIsSpaced(rule: Rule, times: seq<int>, now: int)
    requires Ascending(times) && Spaced(rule, times) && (times != [] ==> times[|times| - 1] <= now)
    requires HasRoom(rule, times, now)
    ensures Ascending(times + [now]) && Spaced(rule, times + [now])
  {
    var k := |times| - rule.limit;
    if 0 <= k && times[k] > now - rule.window {
      AfterOfAscending(times, now - rule.window, k);
    }
    SpacedSnoc(rule, times, now);
  }

  /** In order, spaced, none later than a given time, and none at all without a limit. */
  ghost predicate WellSpaced(rule: Rule, times: seq<int>, latest: int)
  {
    && Ascending(times)
    && Spaced(rule, times)
    && (times != [] ==> times[|times| - 1] <= latest && rule.limit > 0)
  }

  lemma {:induction false} RecordStaysSpaced(rule: Rule, times: seq<int>, ip: string, event: Event)
    requires WellSpaced(rule, times, event.now)
    ensures WellSpaced(rule, NextRecord(rule, times, ip, event), event.now)
  {
    if event.Request? && event.ip == ip && HasRoom(rule, times, event.now) {
      AdmissionIsSpaced(rule, times, event.now);
    }
  }

  lemma {:induction false} RecordedIsSpaced(rule: Rule, run: seq<Event>, ip: string, latest: int)
    requires Monotone(run) && NoneLater(run, latest)
    ensures WellSpaced(rule, Recorded(rule, run, ip), latest)
  {
    if run != [] {
      var before, event := run[..|run| - 1], run[|run| - 1];
      RecordedIsSpaced(rule, before, ip, event.now);
      RecordStaysSpaced(rule, Recorded(rule, before, ip), ip, event);
    }
  }

  /** What the limiter itself admits, pruning and cleaning up as it goes, is what the reference records. */
  lemma {:induction false} AdmittedIsRecorded(rule: Rule, run: seq<Event>, ip: string)
    requires Monotone(run)
    ensures Admitted(rule, run, ip) == Recorded(rule, run, ip)
  {
    if run != [] {
      var before, event := run[..|run| - 1], run[|run| - 1];
      AdmittedIsRecorded(rule, before, ip);
      RoomAgrees(rule, before, ip, event.now);
    }
  }

  /** The limiter's admissions of an address that are limit places apart are at least a window apart. */
  lemma {:induction false} AdmittedIsSpaced(rule: Rule, run: seq<Event>, ip: string, latest: int)
    requires Monotone(run) && NoneLater(run, latest)
    ensures WellSpaced(rule, Admitted(rule, run, ip), latest)
  {
    AdmittedIsRecorded(rule, run, ip);
    RecordedIsSpaced(rule, run, ip, latest);
  }

  lemma {:induction false} PositionsGrow(earlier: set<nat>, n: nat, later: set<nat>, more: bool)
    requires n !in earlier && later == if more then earlier + {n} else earlier
    ensures |later| == |earlier| + if more then 1 else 0
  {
  }

  /** It is the number of places that hold such a time. */
  lemma {:induction false} CountInExactly(times: seq<int>, from: int, to: int)
    ensures CountIn(times, from, to) == |set i: nat | i < |times| && from <= times[i] < to|
  {
    if times != [] {
      var init, last := times[..|times| - 1], times[|times| - 1];
      CountInExactly(init, from, to);
      PositionsGrow((set i: nat | i < |init| && from <= init[i] < to), |init|,
        (set i: nat | i < |times| && from <= times[i] < to), from <= last < to);
    }
  }

  lemma {:induction false} CountBelow(times: seq<int>, from: int, to: int)
    requires forall i | 0 <= i < |times| :: times[i] < from
    ensures CountIn(times, from, to) == 0
  {
    if times != [] {
      CountBelow(times[..|times| - 1], from, to);
    }
  }

  lemma {:induction false} CountOfConcat(a: seq<int>, b: seq<int>, from: int, to: int)
    ensures CountIn(a + b, from, to) == CountIn(a, from, to) + CountIn(b, from, to)
    ensures CountIn(b, from, to) <= |b|
  {
    if b == [] {
      assert a + b == a;
    } else {
      CountOfConcat(a, b[..|b| - 1], from, to);
      assert (a + b)[..|a + b| - 1] == a + b[..|b| - 1];
    }
  }

  /** Everything limit or more places before an admission below to lies outside [from, to). */
  lemma EarlyAreOutside(rule: Rule, times: seq<int>, k: nat, from: int, to: int)
    requires Ascending(times) && Spaced(rule, times) && to - from <= rule.window && rule.limit > 0
    requires k + rule.limit == |times| && times[|times| - 1] < to
    ensures CountIn(times[..k], from, to) == 0
  {
    if k > 0 {
      assert times[k - 1] + rule.window <= times[k - 1 + Max(0, rule.limit)];
      assert forall i | 0 <= i < k :: times[i] <= times[k - 1];
      CountBelow(times[..k], from, to);
    }
  }

  lemma {:induction false} LastAreEnough(rule: Rule, times: seq<int>, from: int, to: int)
    requires Ascending(times) && Spaced(rule, times) && to - from <= rule.window
    requires 0 < rule.limit < |times| && times[|times| - 1] < to
    ensures CountIn(times, from, to) <= rule.limit
  {
    var k := |times| - rule.limit;
    assert times == times[..k] + times[k..];
    CountOfConcat(times[..k], times[k..], from, to);
    EarlyAreOutside(rule, times, k, from, to);
  }

  lemma {:induction false} SpacedIsSparse(rule: Rule, times: seq<int>, from: int, to: int)
    requires Ascending(times) && Spaced(rule, times) && to - from <= rule.window
    requires times != [] ==> rule.limit > 0
    ensures CountIn(times, from, to) <= Max(0, rule.limit)
  {
    if times != [] {
      var n := |times|;
      if n <= rule.limit {
        CountOfConcat([], times, from, to);
      } else if times[n - 1] < to {
        LastAreEnough(rule, times, from, to);
      } else {
        SpacedIsSparse(rule, times[..n - 1], from, to);
      }
    }
  }

  /** At most limit requests of one address are admitted in any interval [from, to) no longer than the window. */
  lemma RateBound(rule: Rule, run: seq<Event>, ip: string, from: int, to: int)
    requires Monotone(run) && to - from <= rule.window
    ensures CountIn(Admitted(rule, run, ip), from, to) <= Max(0, rule.limit)
  {
    AdmittedIsSpaced(rule, run, ip, if run == [] then 0 else run[|run| - 1].now);
    SpacedIsSparse(rule, Admitted(rule, run, ip), from, to);
  }

  lemma {:induction false} AfterCounts(times: seq<int>, cutoff: int, now: int)
    requires forall i | 0 <= i < |times| :: times[i] <= now
    ensures |After(times, cutoff)| == CountIn(times, cutoff + 1, now + 1)
  {
    if times != [] {
      AfterCounts(times[..|times| - 1], cutoff, now);
    }
  }

  lemma MonotonePrefix(run: seq<Event>, event: Event)
    requires Monotone(run + [event])
    ensures Monotone(run) && NoneLater(run, event.now)
  {
    var longer := run + [event];
    forall i, j | 0 <= i < j < |run|
      ensures run[i].now <= run[j].now
    {
      assert longer[i].now <= longer[j].now;
    }
    forall i | 0 <= i < |run|
      ensures run[i].now <= event.now
    {
      assert longer[i].now <= longer[|run|].now;
    }
  }

  lemma {:induction false} RoomInSpaced(rule: Rule, times: seq<int>, now: int)
    requires WellSpaced(rule, times, now)
    ensures HasRoom(rule, times, now) <==> CountIn(times, now - rule.window + 1, now + 1) < rule.limit
  {
    assert forall i | 0 <= i < |times| :: times[i] <= times[|times| - 1];
    AfterCounts(times, now - rule.window, now);
  }

  lemma {:induction false} RoomByCount(rule: Rule, run: seq<Event>, ip: string, now: int)
    requires Monotone(run) && NoneLater(run, now)
    ensures HasRoom(rule, Recorded(rule, run, ip), now)
       <==> CountIn(Recorded(rule, run, ip), now - rule.window + 1, now + 1) < rule.limit
  {
    RecordedIsSpaced(rule, run, ip, now);
    RoomInSpaced(rule, Recorded(rule, run, ip), now);
  }

  /** A request is refused iff the limiter has admitted limit requests of its address in (now - window, now]. */
  lemma {:induction false} RefusedExactlyWhenFull(rule: Rule, run: seq<Event>, ip: string, now: int)
    requires Monotone(run + [Request(ip, now)])
    ensures
      var refused := CountIn(Admitted(rule, run, ip), now - rule.window + 1, now + 1) >= rule.limit;
      Decisions(rule, run + [Request(ip, now)]) == Decisions(rule, run) + [!refused]
  {
    MonotonePrefix(run, Request(ip, now));
    assert (run + [Request(ip, now)])[..|run|] == run;
    RoomAgrees(rule, run, ip, now);
    AdmittedIsRecorded(rule, run, ip);
    RoomByCount(rule, run, ip, now);
  }

  // ---------- Where the guarantees end ----------

  /** k requests of one address at one time. */
  function Burst(ip: string, now: int, k: nat): seq<Event>
  {
    if k == 0 then [] else Burst(ip, now, k - 1) + [Request(ip, now)]
  }

  function Repeated(now: int, k: nat): seq<int>
  {
    if k == 0 then [] else Repeated(now, k - 1) + [now]
  }

  lemma {:induction false} RepeatedAfter(now: int, k: nat, cutoff: int)
    ensures |Repeated(now, k)| == k && After(Repeated(now, k), cutoff) == if cutoff < now then Repeated(now, k) else []
  {
    if k > 0 {
      RepeatedAfter(now, k - 1, cutoff);
    }
  }

  lemma {:induction false} RepeatedIn(now: int, k: nat, from: int, to: int)
    requires from <= now < to
    ensures CountIn(Repeated(now, k), from, to) == k
  {
    if k > 0 {
      RepeatedIn(now, k - 1, from, to);
    }
  }

  lemma {:induction false} MonotoneSnoc(run: seq<Event>, event: Event)
    requires Monotone(run) && NoneLater(run, event.now)
    ensures Monotone(run + [event]) && NoneLater(run + [event], event.now)
  {
  }

  lemma {:induction false} RecordedSnoc(rule: Rule, run: seq<Event>, ip: string, event: Event)
    ensures Recorded(rule, run + [event], ip) == NextRecord(rule, Recorded(rule, run, ip), ip, event)
  {
    assert (run + [event])[..|run|] == run;
  }

  lemma {:induction false} BurstMonotone(ip: string, now: int, k: nat)
    ensures Monotone(Burst(ip, now, k)) && NoneLater(Burst(ip, now, k), now)
  {
    if k > 0 {
      BurstMonotone(ip, now, k - 1);
      MonotoneSnoc(Burst(ip, now, k - 1), Request(ip, now));
    }
  }

  lemma {:induction false} NextRepeated(rule: Rule, ip: string, now: int, k: nat)
    requires k < rule.limit
    ensures NextRecord(rule, Repeated(now, k), ip, Request(ip, now)) == Repeated(now, k + 1)
  {
    RepeatedAfter(now, k, now - rule.window);
  }

  /** Up to limit of them are admitted. */
  lemma {:induction false} BurstIsRecorded(rule: Rule, ip: string, now: int, k: nat)
    requires k <= rule.limit
    ensures Recorded(rule, Burst(ip, now, k), ip) == Repeated(now, k)
  {
    if k > 0 {
      BurstIsRecorded(rule, ip, now, k - 1);
      RecordedSnoc(rule, Burst(ip, now, k - 1), ip, Request(ip, now));
      NextRepeated(rule, ip, now, k - 1);
    }
  }

  lemma {:induction false} CountInEmptyInterval(times: seq<int>, from: int, to: int)
    requires to <= from
    ensures CountIn(times, from, to) == 0
  {
    if times != [] {
      CountInEmptyInterval(times[..|times| - 1], from, to);
    }
  }

  /** A window later there is room again. */
  lemma {:induction false} NextAfterRepeated(rule: Rule, ip: string, now: int)
    requires rule.limit > 0
    ensures
      NextRecord(rule, Repeated(now, rule.limit), ip, Request(ip, now + rule.window))
      == Repeated(now, rule.limit) + [now + rule.window]
  {
    RepeatedAfter(now, rule.limit, now);
  }

  lemma {:induction false} CountOneMore(now: int, k: nat, late: int)
    requires now <= late
    ensures CountIn(Repeated(now, k) + [late], now, late + 1) == k + 1
  {
    RepeatedIn(now, k, now, late + 1);
    assert (Repeated(now, k) + [late])[..|Repeated(now, k)|] == Repeated(now, k);
  }

  lemma {:induction false} FullBurst(rule: Rule, ip: string, now: int) returns (burst: seq<Event>)
    requires rule.limit > 0
    ensures Monotone(burst) && NoneLater(burst, now) && Recorded(rule, burst, ip) == Repeated(now, rule.limit)
  {
    BurstMonotone(ip, now, rule.limit);
    BurstIsRecorded(rule, ip, now, rule.limit);
    burst := Burst(ip, now, rule.limit);
  }

  lemma {:induction false} BurstAndOneMore(rule: Rule, ip: string, now: int) returns (run: seq<Event>)
    requires rule.limit > 0 && rule.window >= 0
    ensures Monotone(run) && Recorded(rule, run, ip) == Repeated(now, rule.limit) + [now + rule.window]
  {
    var burst := FullBurst(rule, ip, now);
    MonotoneSnoc(burst, Request(ip, now + rule.window));
    RecordedSnoc(rule, burst, ip, Request(ip, now + rule.window));
    NextAfterRepeated(rule, ip, now);
    run := burst + [Request(ip, now + rule.window)];
  }

  /** A burst at one end of a closed interval, and one more admission at the other. */
  lemma {:induction false} OneMoreAtTheEnd(rule: Rule, ip: string, now: int) returns (run: seq<Event>)
    requires rule.limit > 0 && rule.window >= 0
    ensures Monotone(run) && CountIn(Admitted(rule, run, ip), now, now + rule.window + 1) == rule.limit + 1
  {
    run := BurstAndOneMore(rule, ip, now);
    AdmittedIsRecorded(rule, run, ip);
    CountOneMore(now, rule.limit, now + rule.window);
  }

  predicate ClosedBound(rule: Rule, run: seq<Event>, ip: string, from: int)
  {
    CountIn(Admitted(rule, run, ip), from, from + rule.window + 1) <= Max(0, rule.limit)
  }

  lemma {:induction false} ClosedBoundHolds(rule: Rule, run: seq<Event>, ip: string, from: int)
    requires Monotone(run) && (rule.limit <= 0 || rule.window < 0)
    ensures ClosedBound(rule, run, ip, from)
  {
    if rule.limit <= 0 {
      AdmittedIsSpaced(rule, run, ip, if run == [] then 0 else run[|run| - 1].now);
    } else {
      CountInEmptyInterval(Admitted(rule, run, ip), from, from + rule.window + 1);
    }
  }

  /** The bound does not extend to closed intervals as long as the window, except where there is nothing to admit. */
  lemma {:induction false} ClosedIntervalBoundExactly(rule: Rule)
    ensures (forall run, ip, from | Monotone(run) :: ClosedBound(rule, run, ip, from))
       <==> rule.limit <= 0 || rule.window < 0
  {
    if rule.limit > 0 && rule.window >= 0 {
      var run := OneMoreAtTheEnd(rule, "ip", 0);
      assert !ClosedBound(rule, run, "ip", 0);
    } else {
      forall run: seq<Event>, ip, from | Monotone(run)
        ensures ClosedBound(rule, run, ip, from)
      {
        ClosedBoundHolds(rule, run, ip, from);
      }
    }
  }

  predicate PruningShows(rule: Rule, run: seq<Event>) { Decisions(rule, run) != DecisionsFull(rule, run) }

  /** Going back to a time at which the reference still counts what the limiter has dropped. */
  lemma {:induction false} DroppedShows(rule: Rule, run: seq<Event>, ip: string, now: int)
    requires !PruningShows(rule, run)
    requires HasRoom(rule, Times(Held(rule, run), ip), now) && !HasRoom(rule, Recorded(rule, run, ip), now)
    ensures PruningShows(rule, run + [Request(ip, now)])
  {
    var longer := run + [Request(ip, now)];
    assert longer[..|longer| - 1] == run;
    assert Decisions(rule, longer)[|Decisions(rule, run)|];
    assert !DecisionsFull(rule, longer)[|Decisions(rule, run)|];
  }

  /** A cleanup with nothing after its cutoff forgets the address, unseen. */
  lemma {:induction false} CleanupDrops(rule: Rule, run: seq<Event>, ip: string, now: int)
    requires !PruningShows(rule, run) && After(Times(Held(rule, run), ip), now - rule.window) == []
    ensures
      var cleaned := run + [CleanupTick(now)];
      && !PruningShows(rule, cleaned)
      && Times(Held(rule, cleaned), ip) == [] && Recorded(rule, cleaned, ip) == Recorded(rule, run, ip)
  {
    assert (run + [CleanupTick(now)])[..|run|] == run;
    TimesNext(rule, Held(rule, run), ip, CleanupTick(now));
  }

  lemma {:induction false} RoomInRepeated(rule: Rule, now: int)
    ensures !HasRoom(rule, Repeated(now, if rule.limit > 0 then rule.limit else 0), now + rule.window - 1)
    ensures HasRoom(rule, [], now) <==> rule.limit > 0
  {
    RepeatedAfter(now, if rule.limit > 0 then rule.limit else 0, now - 1);
  }

  lemma {:induction false} BurstIsOver(rule: Rule, burst: seq<Event>, ip: string, now: int, late: int)
    requires rule.limit > 0 && Recorded(rule, burst, ip) == Repeated(now, rule.limit)
    requires Monotone(burst) && NoneLater(burst, now) && late >= now && late >= now + rule.window
    ensures After(Times(Held(rule, burst), ip), late - rule.window) == []
  {
    LaterStill(burst, now, late);
    SurvivorsAgree(rule, burst, ip, late - rule.window);
    NothingSurvives(Times(Held(rule, burst), ip), Recorded(rule, burst, ip), now, rule.limit, late - rule.window);
  }

  lemma {:induction false} LaterStill(run: seq<Event>, now: int, late: int)
    requires NoneLater(run, now) && now <= late
    ensures NoneLater(run, late)
  {
  }

  lemma {:induction false} NothingSurvives(held: seq<int>, recorded: seq<int>, now: int, k: nat, cutoff: int)
    requires After(held, cutoff) == After(recorded, cutoff) && recorded == Repeated(now, k) && now <= cutoff
    ensures After(held, cutoff) == []
  {
    RepeatedAfter(now, k, cutoff);
  }

  /** A cleanup late enough makes the limiter forget a burst. */
  lemma {:induction false} ForgottenBurst(rule: Rule, ip: string, now: int) returns (run: seq<Event>)
    requires rule.limit > 0
    ensures !PruningShows(rule, run)
    ensures Times(Held(rule, run), ip) == [] && Recorded(rule, run, ip) == Repeated(now, rule.limit)
  {
    var late := now + Max(rule.window, 0);
    var burst := FullBurst(rule, ip, now);
    assert !PruningShows(rule, burst) by {
      DecideAlike(rule, burst);
    }
    BurstIsOver(rule, burst, ip, now, late);
    CleanupDrops(rule, burst, ip, late);
    run := burst + [CleanupTick(late)];
  }

  /** Going back from there, the limiter admits what the reference refuses. */
  lemma {:induction false} CleanupForgetsBurst(rule: Rule, ip: string, now: int) returns (run: seq<Event>)
    requires rule.limit > 0
    ensures PruningShows(rule, run)
  {
    run := ForgottenBurst(rule, ip, now);
    RoomInRepeated(rule, now);
    RoomInRepeated(rule, now + rule.window - 1);
    DroppedShows(rule, run, ip, now + rule.window - 1);
    run := run + [Request(ip, now + rule.window - 1)];
  }

  lemma {:induction false} NobodyIsAdmitted(rule: Rule, run: seq<Event>)
    requires rule.limit <= 0
    ensures !PruningShows(rule, run)
  {
    if run != [] {
      NobodyIsAdmitted(rule, run[..|run| - 1]);
    }
  }

  /** Without the assumption on the clock, pruning is invisible in all runs iff nobody is ever admitted. */
  lemma {:induction false} ClockMattersExactly(rule: Rule)
    ensures (forall run :: !PruningShows(rule, run)) <==> rule.limit <= 0
  {
    if rule.limit > 0 {
      var run := CleanupForgetsBurst(rule, "ip", 0);
    } else {
      forall run
        ensures !PruningShows(rule, run)
      {
        NobodyIsAdmitted(rule, run);
      }
    }
  }
}
