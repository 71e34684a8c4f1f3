/** Whole runs of requests on one throttle key, issued by any number of API instances. The script
    is atomic, so a run is one sequence of calls whatever instance each of them came from. What
    arrives on the connections is the subject of `WireRuns`; here a call is told the script's
    decision or nothing. */
module ThrottlerRuns {
  import opened ThrottlerScript
  import opened ThrottlerLog

  /** A call is answered with the script's decision, or fails before or after Redis executed the
      script. A failed call is admitted either way. */
  datatype Fate = Answered | LostBeforeScript | LostAfterScript

  datatype Call = Call(time: nat, fate: Fate)

  predicate Ordered(calls: seq<Call>) {
    forall i, j | 0 <= i < j < |calls| :: calls[i].time <= calls[j].time
  }

  function After(c: Counter, call: Call, lim: Limits): Counter {
    if call.fate == LostBeforeScript then c else Step(c, call.time, lim).0
  }

  function StateAfter(c: Counter, calls: seq<Call>, lim: Limits): Counter
    decreases calls
  {
    if calls == [] then c else StateAfter(After(c, calls[0], lim), calls[1..], lim)
  }

  predicate AdmittedByScript(c: Counter, call: Call, lim: Limits) {
    call.fate == Answered && !Step(c, call.time, lim).1.blocked
  }

  predicate Admitted(c: Counter, call: Call, lim: Limits) {
    call.fate != Answered || AdmittedByScript(c, call, lim)
  }

  /** How many calls of the run are admitted. */
  function AdmittedCount(c: Counter, calls: seq<Call>, lim: Limits): nat
    decreases calls
  {
    if calls == [] then 0
    else (if Admitted(c, calls[0], lim) then 1 else 0) + AdmittedCount(After(c, calls[0], lim), calls[1..], lim)
  }

  function FailedCount(calls: seq<Call>): nat {
    if calls == [] then 0 else (if calls[0].fate != Answered then 1 else 0) + FailedCount(calls[1..])
  }

  // ---------- The window bound ----------

  /** How many windows of length `ttl` can open in [from, to]. */
  function Windows(from: int, till: int, ttl: nat): nat
    requires ttl > 0
    decreases till - from
  {
    if till < from then 0 else 1 + Windows(from + ttl, till, ttl)
  }

  /** What the script can still admit between `now` and `till`: the rest of the live window and
      `limit` for each window that can still open. */
  function Budget(c: Counter, now: nat, till: nat, lim: Limits): nat
    requires lim.ttl > 0
  {
    if LiveCount(c, now) > 0 then
      (if c.count < lim.limit then lim.limit - c.count else 0) + lim.limit * Windows(c.hitsUntil, till, lim.ttl)
    else lim.limit * Windows(now, till, lim.ttl)
  }

  lemma {:induction false} WindowsShrink(from: int, later: int, till: int, ttl: nat)
    requires ttl > 0 && from <= later
    ensures Windows(later, till, ttl) <= Windows(from, till, ttl)
    decreases till - from
  {
    if from <= till {
      WindowsShrink(from + ttl, later + ttl, till, ttl);
    }
  }

  lemma {:induction false} WindowsFit(from: int, till: int, ttl: nat, k: nat)
    requires ttl > 0 && till - from < k * ttl
    ensures Windows(from, till, ttl) <= k
    decreases k
  {
    if from <= till {
      assert k * ttl == (k - 1) * ttl + ttl;
      assert k != 0;
      WindowsFit(from + ttl, till, ttl, k - 1);
    }
  }

  lemma MulMonotone(limit: nat, a: nat, b: nat)
    requires a <= b
    ensures limit * a <= limit * b
  {
  }

  lemma BudgetShrinks(c: Counter, now: nat, later: nat, till: nat, lim: Limits)
    requires lim.ttl > 0 && now <= later
    ensures Budget(c, later, till, lim) <= Budget(c, now, till, lim)
  {
    var from := if LiveCount(c, now) > 0 then c.hitsUntil else now;
    if LiveCount(c, later) == 0 {
      WindowsShrink(from, later, till, lim.ttl);
      MulMonotone(lim.limit, Windows(later, till, lim.ttl), Windows(from, till, lim.ttl));
    }
  }

  /** One executed request pays for its own admission out of the budget. */
  lemma StepPays(c: Counter, now: nat, till: nat, lim: Limits)
    requires lim.Valid() && now <= till
    ensures var (d, a) := Step(c, now, lim);
            (if a.blocked then 0 else 1) + Budget(d, now, till, lim) <= Budget(c, now, till, lim)
  {
    if now >= c.blockedUntil && LiveCount(c, now) == 0 {
      var w := Windows(now + lim.ttl, till, lim.ttl);
      assert lim.limit * (w + 1) == lim.limit * w + lim.limit;
    }
  }

  lemma {:induction false} RunPays(c: Counter, calls: seq<Call>, now: nat, till: nat, lim: Limits)
    requires lim.Valid() && Ordered(calls)
    requires calls != [] ==> now <= calls[0].time && calls[|calls| - 1].time <= till
    ensures AdmittedCount(c, calls, lim) <= Budget(c, now, till, lim) + FailedCount(calls)
    decreases calls
  {
    if calls != [] {
      var call := calls[0];
      BudgetShrinks(c, now, call.time, till, lim);
      StepPays(c, call.time, till, lim);
      RunPays(After(c, call, lim), calls[1..], call.time, till, lim);
    }
  }

  predicate Within(calls: seq<Call>, from: nat, till: nat) {
    Ordered(calls) && forall i | 0 <= i < |calls| :: from <= calls[i].time <= till
  }

  /** The window bound, from any state: calls between two times that are k * ttl apart or less admit
      at most (k + 1) * limit requests, plus one for every failed call. */
  lemma SegmentBound(c: Counter, calls: seq<Call>, from: nat, till: nat, k: nat, lim: Limits)
    requires lim.Valid() && Within(calls, from, till) && till - from <= k * lim.ttl
    ensures AdmittedCount(c, calls, lim) <= (k + 1) * lim.limit + FailedCount(calls)
  {
    RunPays(c, calls, from, till, lim);
    InitialBudget(c, from, till, k, lim);
  }

  lemma InitialBudget(c: Counter, from: nat, till: nat, k: nat, lim: Limits)
    requires lim.Valid() && till - from <= k * lim.ttl
    ensures Budget(c, from, till, lim) <= (k + 1) * lim.limit
  {
    NextMultiple(k, lim.limit);
    if LiveCount(c, from) > 0 {
      WindowsFit(c.hitsUntil, till, lim.ttl, k);
      MulMonotone(lim.limit, Windows(c.hitsUntil, till, lim.ttl), k);
    } else {
      NextMultiple(k, lim.ttl);
      WindowsFit(from, till, lim.ttl, k + 1);
      MulMonotone(lim.limit, Windows(from, till, lim.ttl), k + 1);
    }
  }

  lemma NextMultiple(k: nat, n: nat)
    ensures (k + 1) * n == k * n + n && k * n == n * k && (k + 1) * n == n * (k + 1)
  {
  }

  // ---------- The bound is reached ----------

  /** `n` answered calls at one instant. */
  function Burst(time: nat, n: nat): seq<Call> {
    if n == 0 then [] else [Call(time, Answered)] + Burst(time, n - 1)
  }

  /** Bursts of `limit` calls at `time` and at the next k multiples of ttl after it. */
  function Bursts(time: nat, k: nat, lim: Limits): seq<Call>
    decreases k
  {
    Burst(time, lim.limit) + if k == 0 then [] else Bursts(time + lim.ttl, k - 1, lim)
  }

  lemma {:induction false} BurstAdmitted(c: Counter, time: nat, n: nat, lim: Limits)
    requires time >= c.blockedUntil && LiveCount(c, time) + n <= lim.limit && lim.Valid()
    ensures AdmittedCount(c, Burst(time, n), lim) == n && FailedCount(Burst(time, n)) == 0
    ensures var until := if LiveCount(c, time) == 0 then time + lim.ttl else c.hitsUntil;
            StateAfter(c, Burst(time, n), lim)
            == if n == 0 then c else Counter(LiveCount(c, time) + n, until, c.blockedUntil)
    decreases n
  {
    if n > 0 {
      var call := Call(time, Answered);
      assert Burst(time, n)[1..] == Burst(time, n - 1);
      BurstAdmitted(After(c, call, lim), time, n - 1, lim);
    }
  }

  lemma {:induction false} CountsAppend(c: Counter, calls: seq<Call>, more: seq<Call>, lim: Limits)
    ensures AdmittedCount(c, calls + more, lim)
         == AdmittedCount(c, calls, lim) + AdmittedCount(StateAfter(c, calls, lim), more, lim)
    ensures FailedCount(calls + more) == FailedCount(calls) + FailedCount(more)
    ensures StateAfter(c, calls + more, lim) == StateAfter(StateAfter(c, calls, lim), more, lim)
    decreases calls
  {
    if calls == [] {
      assert calls + more == more;
    } else {
      assert (calls + more)[1..] == calls[1..] + more;
      CountsAppend(After(c, calls[0], lim), calls[1..], more, lim);
    }
  }

  /** How many calls k + 1 bursts of n make. */
  function BurstTotal(k: nat, n: nat): nat { n + if k == 0 then 0 else BurstTotal(k - 1, n) }

  lemma {:induction false} BurstTotalIsProduct(k: nat, n: nat)
    ensures BurstTotal(k, n) == (k + 1) * n
  {
    if k > 0 {
      BurstTotalIsProduct(k - 1, n);
      NextMultiple(k, n);
    }
  }

  /** A full burst after everything has expired is admitted and leaves nothing beyond its window. */
  lemma FullBurst(c: Counter, time: nat, lim: Limits)
    requires lim.Valid() && c.blockedUntil <= time && c.hitsUntil <= time
    ensures var d := StateAfter(c, Burst(time, lim.limit), lim);
            d.blockedUntil <= time + lim.ttl && d.hitsUntil <= time + lim.ttl
    ensures AdmittedCount(c, Burst(time, lim.limit), lim) == lim.limit && FailedCount(Burst(time, lim.limit)) == 0
  {
    BurstAdmitted(c, time, lim.limit, lim);
  }

  lemma AdmittedAppend(c: Counter, calls: seq<Call>, more: seq<Call>, n: nat, m: nat, lim: Limits)
    requires AdmittedCount(c, calls, lim) == n && AdmittedCount(StateAfter(c, calls, lim), more, lim) == m
    requires FailedCount(calls) == FailedCount(more) == 0
    ensures AdmittedCount(c, calls + more, lim) == n + m && FailedCount(calls + more) == 0
  {
    CountsAppend(c, calls, more, lim);
  }

  lemma {:induction false} BurstsAdmitted(c: Counter, time: nat, k: nat, lim: Limits)
    requires lim.Valid() && c.blockedUntil <= time && c.hitsUntil <= time
    ensures AdmittedCount(c, Bursts(time, k, lim), lim) == BurstTotal(k, lim.limit)
    ensures FailedCount(Bursts(time, k, lim)) == 0
    decreases k
  {
    var first := Burst(time, lim.limit);
    FullBurst(c, time, lim);
    if k > 0 {
      BurstsAdmitted(StateAfter(c, first, lim), time + lim.ttl, k - 1, lim);
      AdmittedAppend(c, first, Bursts(time + lim.ttl, k - 1, lim), lim.limit, BurstTotal(k - 1, lim.limit), lim);
    } else {
      assert Bursts(time, 0, lim) == first;
    }
  }

  lemma WithinAppend(calls: seq<Call>, more: seq<Call>, from: nat, mid: nat, till: nat)
    requires from <= mid <= till && Within(calls, from, from) && Within(more, mid, till)
    ensures Within(calls + more, from, till)
  {
  }

  /** The time of the last burst. */
  function LastBurst(time: nat, k: nat, ttl: nat): (t: nat)
    ensures t >= time
    decreases k
  {
    if k == 0 then time else LastBurst(time + ttl, k - 1, ttl)
  }

  lemma {:induction false} LastBurstTime(time: nat, k: nat, ttl: nat)
    ensures LastBurst(time, k, ttl) == time + k * ttl
    decreases k
  {
    if k > 0 {
      NextMultiple(k - 1, ttl);
      LastBurstTime(time + ttl, k - 1, ttl);
    }
  }

  lemma {:induction false} BurstsWithin(time: nat, k: nat, lim: Limits)
    requires lim.Valid()
    ensures Within(Bursts(time, k, lim), time, LastBurst(time, k, lim.ttl))
    decreases k
  {
    var last := LastBurst(time, k, lim.ttl);
    BurstWithin(time, lim.limit);
    if k > 0 {
      var later := Bursts(time + lim.ttl, k - 1, lim);
      BurstsWithin(time + lim.ttl, k - 1, lim);
      WithinAppend(Burst(time, lim.limit), later, time, time + lim.ttl, last);
    }
  }

  lemma {:induction false} BurstWithin(time: nat, n: nat)
    ensures Within(Burst(time, n), time, time)
  {
    if n > 0 {
      BurstWithin(time, n - 1);
    }
  }

  /** The bound is reached, whatever the limits and however long the span: `limit` calls at each of
      k + 1 consecutive multiples of ttl lie within k * ttl and are all admitted. */
  lemma BoundIsTight(k: nat, lim: Limits)
    requires lim.Valid()
    ensures var calls := Bursts(0, k, lim);
            && Within(calls, 0, LastBurst(0, k, lim.ttl)) && LastBurst(0, k, lim.ttl) == k * lim.ttl
            && AdmittedCount(FRESH, calls, lim) == (k + 1) * lim.limit + FailedCount(calls)
  {
    BurstsWithin(0, k, lim);
    LastBurstTime(0, k, lim.ttl);
    BurstsAdmitted(FRESH, 0, k, lim);
    BurstTotalIsProduct(k, lim.limit);
  }

  // ---------- Blocks ----------

  /** What every reachable counter satisfies at time `now`: a live block was set by an overflow
      still recorded in the count, and keys expire no later than their durations allow. */
  predicate Reachable(c: Counter, now: nat, lim: Limits) {
    && (now < c.blockedUntil ==> c.count > lim.limit)
    && c.hitsUntil <= now + lim.ttl
    && c.blockedUntil <= now + lim.blockDuration
    && (c.hitsUntil > 0 ==> c.count > 0)
  }

  lemma {:induction false} RunsStayReachable(c: Counter, calls: seq<Call>, now: nat, end: nat, lim: Limits)
    requires lim.Valid() && Ordered(calls) && Reachable(c, now, lim) && now <= end
    requires calls != [] ==> now <= calls[0].time && calls[|calls| - 1].time <= end
    ensures Reachable(StateAfter(c, calls, lim), end, lim)
    decreases calls
  {
    if calls != [] {
      RunsStayReachable(After(c, calls[0], lim), calls[1..], calls[0].time, end, lim);
    }
  }

  /** While a block is live every executed call is refused, and neither the count nor the block
      changes, however many calls arrive. */
  lemma {:induction false} BlockedRunChangesNothing(c: Counter, calls: seq<Call>, lim: Limits)
    requires forall i | 0 <= i < |calls| :: calls[i].time < c.blockedUntil
    ensures StateAfter(c, calls, lim) == c
    ensures AdmittedCount(c, calls, lim) == FailedCount(calls)
    decreases calls
  {
    if calls != [] {
      BlockedRunChangesNothing(c, calls[1..], lim);
    }
  }

  /** Exactly when the first request after a block is admitted: a reachable state was refused at
      `now`; once the block has run out the next request passes if and only if the hit window has
      run out as well. */
  lemma AfterBlockExactly(c: Counter, now: nat, later: nat, lim: Limits)
    requires lim.Valid() && lim.limit >= 1 && Reachable(c, now, lim)
    requires Step(c, now, lim).1.blocked
    requires later >= Step(c, now, lim).0.blockedUntil
    ensures !Step(Step(c, now, lim).0, later, lim).1.blocked <==> later >= Step(c, now, lim).0.hitsUntil
  {
  }

  /** With a block shorter than the window a client that overflows at once is refused again the
      moment its block ends, and blocked anew. */
  lemma ShortBlockRefusesAgain(lim: Limits)
    requires lim.Valid() && lim.limit >= 1 && lim.blockDuration < lim.ttl
    ensures var c := StateAfter(FRESH, Burst(0, lim.limit + 1), lim);
            var (d, a) := Step(c, lim.blockDuration, lim);
            && AdmittedCount(FRESH, Burst(0, lim.limit + 1), lim) == lim.limit
            && c.blockedUntil == lim.blockDuration && a.blocked
            && d.blockedUntil == 2 * lim.blockDuration
  {
    var last := [Call(0, Answered)];
    BurstAdmitted(FRESH, 0, lim.limit, lim);
    BurstLast(0, lim.limit);
    CountsAppend(FRESH, Burst(0, lim.limit), last, lim);
    var c := StateAfter(FRESH, Burst(0, lim.limit), lim);
    assert last[1..] == [];
    assert StateAfter(c, last, lim) == After(c, last[0], lim);
    assert AdmittedCount(c, last, lim) == 0;
  }

  lemma {:induction false} BurstLast(time: nat, n: nat)
    ensures Burst(time, n + 1) == Burst(time, n) + [Call(time, Answered)]
  {
    if n > 0 {
      BurstLast(time, n - 1);
    }
  }

  /** With blockDuration >= ttl the overflow that set the block outlives the hit window. */
  predicate LongBlocks(c: Counter, lim: Limits) {
    c.count <= lim.limit + 1 && (c.count == lim.limit + 1 ==> c.hitsUntil <= c.blockedUntil)
  }

  /** With blockDuration >= ttl and limit >= 1 no run ever stores more than limit + 1 hits. */
  lemma {:induction false} StoredHitsBounded(c: Counter, calls: seq<Call>, now: nat, lim: Limits)
    requires lim.Valid() && lim.limit >= 1 && lim.blockDuration >= lim.ttl && Ordered(calls)
    requires LongBlocks(c, lim) && Reachable(c, now, lim)
    requires calls != [] ==> now <= calls[0].time
    ensures LongBlocks(StateAfter(c, calls, lim), lim)
    decreases calls
  {
    if calls != [] {
      StoredHitsBounded(After(c, calls[0], lim), calls[1..], calls[0].time, lim);
    }
  }

  /** ... and the first request after any block is admitted. */
  lemma FirstAfterBlockAdmitted(calls: seq<Call>, now: nat, later: nat, lim: Limits)
    requires lim.Valid() && lim.limit >= 1 && lim.blockDuration >= lim.ttl && Ordered(calls)
    requires forall i | 0 <= i < |calls| :: calls[i].time <= now
    requires Step(StateAfter(FRESH, calls, lim), now, lim).1.blocked
    requires later >= Step(StateAfter(FRESH, calls, lim), now, lim).0.blockedUntil
    ensures !Step(Step(StateAfter(FRESH, calls, lim), now, lim).0, later, lim).1.blocked
    ensures StateAfter(FRESH, calls, lim).count <= lim.limit + 1
  {
    var c := StateAfter(FRESH, calls, lim);
    RunsStayReachable(FRESH, calls, 0, now, lim);
    StoredHitsBounded(FRESH, calls, 0, lim);
    AfterBlockExactly(c, now, later, lim);
  }

  /** Nobody is locked out for good: after a pause of max(ttl, blockDuration) without executed
      calls a request is admitted, whatever happened before and however the durations compare. */
  lemma PauseRestoresService(calls: seq<Call>, now: nat, later: nat, lim: Limits)
    requires lim.Valid() && lim.limit >= 1 && Ordered(calls)
    requires forall i | 0 <= i < |calls| :: calls[i].time <= now
    requires later >= now + lim.ttl && later >= now + lim.blockDuration
    ensures !Step(StateAfter(FRESH, calls, lim), later, lim).1.blocked
  {
    RunsStayReachable(FRESH, calls, 0, now, lim);
  }

  // ---------- Runs and the timestamp log ----------

  /** The times at which the script was executed: every call but those lost before it. */
  function Executed(calls: seq<Call>): Log {
    if calls == [] then []
    else
      var last := calls[|calls| - 1];
      Executed(calls[..|calls| - 1]) + if last.fate == LostBeforeScript then [] else [last.time]
  }

  lemma {:induction false} ExecutedSorted(calls: seq<Call>, now: nat)
    requires Ordered(calls) && forall i | 0 <= i < |calls| :: calls[i].time <= now
    ensures Sorted(Executed(calls)) && forall i | 0 <= i < |Executed(calls)| :: Executed(calls)[i] <= now
  {
    if calls != [] {
      ExecutedSorted(calls[..|calls| - 1], calls[|calls| - 1].time);
    }
  }

  lemma {:induction false} StateAfterLast(c: Counter, calls: seq<Call>, lim: Limits)
    requires calls != []
    ensures StateAfter(c, calls, lim) == After(StateAfter(c, calls[..|calls| - 1], lim), calls[|calls| - 1], lim)
    decreases calls
  {
    if |calls| > 1 {
      StateAfterLast(After(c, calls[0], lim), calls[1..], lim);
      assert calls[1..][..|calls| - 2] == calls[..|calls| - 1][1..];
    } else {
      assert calls[1..] == [] && calls[..0] == [];
    }
  }

  lemma {:induction false} ReplayPrefix(log: Log, more: Log, n: nat, lim: Limits)
    requires n <= |log|
    ensures Replay(log + more, n, lim) == Replay(log, n, lim)
    decreases n
  {
    if n > 0 {
      ReplayPrefix(log, more, n - 1, lim);
    }
  }

  /** The state of a run is the replay of the times at which the script was executed. */
  lemma {:induction false} RunIsReplay(calls: seq<Call>, lim: Limits)
    ensures StateAfter(FRESH, calls, lim) == Replay(Executed(calls), |Executed(calls)|, lim)
  {
    if calls != [] {
      var last := calls[|calls| - 1];
      var before := calls[..|calls| - 1];
      RunIsReplay(before, lim);
      StateAfterLast(FRESH, calls, lim);
      if last.fate == LostBeforeScript {
        assert Executed(calls) == Executed(before);
      } else {
        ReplayPrefix(Executed(before), [last.time], |Executed(before)|, lim);
      }
    }
  }

  lemma LastExecuted(calls: seq<Call>, call: Call)
    requires call.fate != LostBeforeScript
    ensures Executed(calls + [call]) == Executed(calls) + [call.time]
  {
    assert (calls + [call])[..|calls|] == calls;
  }

  /** In every run, an answered call is admitted exactly when the timestamps of the requests
      executed so far, its own included, say so. */
  lemma CallRefinesLog(calls: seq<Call>, call: Call, lim: Limits)
    requires lim.Valid() && Ordered(calls + [call]) && call.fate == Answered
    ensures var log := Executed(calls + [call]);
            && log == Executed(calls) + [call.time]
            && (Admitted(StateAfter(FRESH, calls, lim), call, lim) <==> AdmittedAt(log, |log| - 1, lim))
  {
    LastExecuted(calls, call);
    var before := Executed(calls);
    var log := before + [call.time];
    ExecutedSorted(calls + [call], call.time);
    RunIsReplay(calls, lim);
    ReplayPrefix(before, [call.time], |before|, lim);
    CountersRefineLog(log, |before|, lim);
  }

  /** In every run, with any failures, whose executed requests keep to the rate, a call told the
      script's decision is admitted, and so is a failed one. */
  lemma CallNotFalselyRefused(calls: seq<Call>, call: Call, lim: Limits)
    requires lim.Valid() && Ordered(calls + [call]) && WithinRate(Executed(calls + [call]), lim)
    ensures Admitted(StateAfter(FRESH, calls, lim), call, lim)
  {
    if call.fate == Answered {
      CallRefinesLog(calls, call, lim);
      var all := calls + [call];
      assert forall i | 0 <= i < |calls| :: all[i] == calls[i];
      ExecutedSorted(all, call.time);
      NoFalseRefusals(Executed(all), |Executed(all)| - 1, lim);
    }
  }
}
