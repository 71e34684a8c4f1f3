/** A second account of the limiter: no counters, only the list of the times at which requests
    were executed. Every decision is recomputed from that list. */
module ThrottlerLog {
  import opened ThrottlerScript

  type Log = seq<nat>

  predicate Sorted(log: Log) {
    forall i, j | 0 <= i < j < |log| :: log[i] <= log[j]
  }

  /** Request i is counted unless an earlier overflow still blocks it. */
  ghost predicate Counted(log: Log, i: nat, lim: Limits)
    requires i < |log|
    decreases i, 0
  {
    !exists j | 0 <= j < i :: Overflows(log, j, lim) && log[i] < log[j] + lim.blockDuration
  }

  /** Request i opens a window if it is counted and no earlier window covers it. */
  ghost predicate Opens(log: Log, i: nat, lim: Limits)
    requires i < |log|
    decreases i, 1
  {
    Counted(log, i, lim) && !exists j | 0 <= j < i :: Opens(log, j, lim) && log[i] < log[j] + lim.ttl
  }

  /** The latest request up to i that opened a window. */
  ghost function WindowStart(log: Log, i: nat, lim: Limits): (o: nat)
    requires i < |log|
    ensures o <= i
    decreases i, 2
  {
    if i == 0 || Opens(log, i, lim) then i else WindowStart(log, i - 1, lim)
  }

  /** How many of the requests from..i were counted. */
  ghost function CountedSince(log: Log, from: nat, i: nat, lim: Limits): nat
    requires i < |log|
    decreases i, 2
  {
    if i < from then 0
    else (if Counted(log, i, lim) then 1 else 0) + if i == 0 then 0 else CountedSince(log, from, i - 1, lim)
  }

  /** Request i overflows its window: it is counted, and with it the window holds more than
      `limit` counted requests. */
  ghost predicate Overflows(log: Log, i: nat, lim: Limits)
    requires i < |log|
    decreases i, 3
  {
    Counted(log, i, lim) && CountedSince(log, WindowStart(log, i, lim), i, lim) > lim.limit
  }

  ghost predicate AdmittedAt(log: Log, i: nat, lim: Limits)
    requires i < |log|
  {
    Counted(log, i, lim) && !Overflows(log, i, lim)
  }

  // ---------- The counters after a prefix of the log ----------

  function Replay(log: Log, n: nat, lim: Limits): Counter
    requires n <= |log|
  {
    if n == 0 then FRESH else Step(Replay(log, n - 1, lim), log[n - 1], lim).0
  }

  /** The block key remembers the latest overflow. */
  ghost predicate BlockAgrees(log: Log, n: nat, c: Counter, lim: Limits)
    requires n <= |log|
  {
    && (forall j | 0 <= j < n :: Overflows(log, j, lim) ==> log[j] + lim.blockDuration <= c.blockedUntil)
    && (|| c.blockedUntil == 0
        || exists j | 0 <= j < n :: Overflows(log, j, lim) && c.blockedUntil == log[j] + lim.blockDuration)
  }

  /** The hit counter remembers the latest window and what it holds. */
  ghost predicate HitsAgree(log: Log, n: nat, c: Counter, lim: Limits)
    requires n <= |log|
  {
    if n == 0 then c.count == 0 && c.hitsUntil == 0
    else
      var o := WindowStart(log, n - 1, lim);
      && Opens(log, o, lim)
      && c.hitsUntil == log[o] + lim.ttl
      && c.count == CountedSince(log, o, n - 1, lim)
      && c.count > 0
      && forall j | 0 <= j < n :: Opens(log, j, lim) ==> log[j] <= log[o]
  }

  lemma BlockedIffNotCounted(log: Log, n: nat, c: Counter, lim: Limits)
    requires n < |log| && BlockAgrees(log, n, c, lim)
    ensures log[n] < c.blockedUntil <==> !Counted(log, n, lim)
  {
  }

  lemma OpensIffWindowOver(log: Log, n: nat, c: Counter, lim: Limits)
    requires n < |log| && HitsAgree(log, n, c, lim) && Counted(log, n, lim)
    ensures Opens(log, n, lim) <==> LiveCount(c, log[n]) == 0
  {
    if n > 0 {
      var o := WindowStart(log, n - 1, lim);
      assert Opens(log, o, lim) && c.hitsUntil == log[o] + lim.ttl;
    }
  }

  lemma HitsOfNext(log: Log, n: nat, c: Counter, lim: Limits)
    requires n < |log| && HitsAgree(log, n, c, lim) && Counted(log, n, lim)
    ensures CountedSince(log, WindowStart(log, n, lim), n, lim) == LiveCount(c, log[n]) + 1
  {
    OpensIffWindowOver(log, n, c, lim);
    if n > 0 && !Opens(log, n, lim) {
      assert WindowStart(log, n, lim) == WindowStart(log, n - 1, lim);
    } else if n > 0 {
      assert CountedSince(log, n, n - 1, lim) == 0;
    }
  }

  lemma DecisionAgrees(log: Log, n: nat, c: Counter, lim: Limits)
    requires n < |log| && BlockAgrees(log, n, c, lim) && HitsAgree(log, n, c, lim)
    ensures Step(c, log[n], lim).1.blocked <==> !AdmittedAt(log, n, lim)
  {
    BlockedIffNotCounted(log, n, c, lim);
    if Counted(log, n, lim) {
      HitsOfNext(log, n, c, lim);
    }
  }

  lemma HitsStepAgrees(log: Log, n: nat, c: Counter, lim: Limits)
    requires lim.Valid() && Sorted(log) && n < |log|
    requires BlockAgrees(log, n, c, lim) && HitsAgree(log, n, c, lim)
    ensures HitsAgree(log, n + 1, Step(c, log[n], lim).0, lim)
  {
    BlockedIffNotCounted(log, n, c, lim);
    if Counted(log, n, lim) {
      OpensIffWindowOver(log, n, c, lim);
      HitsOfNext(log, n, c, lim);
    } else {
      assert n > 0;
    }
  }

  lemma BlockStepAgrees(log: Log, n: nat, c: Counter, lim: Limits)
    requires lim.Valid() && Sorted(log) && n < |log|
    requires BlockAgrees(log, n, c, lim) && HitsAgree(log, n, c, lim)
    ensures BlockAgrees(log, n + 1, Step(c, log[n], lim).0, lim)
  {
    BlockedIffNotCounted(log, n, c, lim);
    if Counted(log, n, lim) {
      HitsOfNext(log, n, c, lim);
    }
    var d := Step(c, log[n], lim).0;
    if Overflows(log, n, lim) {
      assert d.blockedUntil == log[n] + lim.blockDuration;
    } else {
      assert d.blockedUntil == c.blockedUntil;
    }
  }

  ghost predicate Agrees(log: Log, n: nat, c: Counter, lim: Limits)
    requires n <= |log|
  {
    BlockAgrees(log, n, c, lim) && HitsAgree(log, n, c, lim)
  }

  lemma StepAgrees(log: Log, n: nat, c: Counter, lim: Limits)
    requires lim.Valid() && Sorted(log) && n < |log| && Agrees(log, n, c, lim)
    ensures Agrees(log, n + 1, Step(c, log[n], lim).0, lim)
  {
    HitsStepAgrees(log, n, c, lim);
    BlockStepAgrees(log, n, c, lim);
  }

  lemma NextAgrees(log: Log, n: nat, lim: Limits)
    requires lim.Valid() && Sorted(log) && n < |log| && Agrees(log, n, Replay(log, n, lim), lim)
    ensures Agrees(log, n + 1, Replay(log, n + 1, lim), lim)
  {
    StepAgrees(log, n, Replay(log, n, lim), lim);
  }

  lemma FreshAgrees(log: Log, lim: Limits)
    ensures Agrees(log, 0, FRESH, lim)
  {
  }

  lemma {:induction false} AgreesOn(log: Log, m: nat, n: nat, lim: Limits)
    requires lim.Valid() && Sorted(log) && m <= n <= |log| && Agrees(log, m, Replay(log, m, lim), lim)
    ensures Agrees(log, n, Replay(log, n, lim), lim)
    decreases n - m
  {
    if m < n {
      NextAgrees(log, m, lim);
      AgreesOn(log, m + 1, n, lim);
    }
  }

  lemma ReplayAgrees(log: Log, n: nat, lim: Limits)
    requires lim.Valid() && Sorted(log) && n <= |log|
    ensures Agrees(log, n, Replay(log, n, lim), lim)
  {
    FreshAgrees(log, lim);
    AgreesOn(log, 0, n, lim);
  }

  /** Refinement: on every log and for every request, the two expiring keys give exactly the
      decision that the full list of earlier request times gives. */
  lemma CountersRefineLog(log: Log, i: nat, lim: Limits)
    requires lim.Valid() && Sorted(log) && i < |log|
    ensures !Step(Replay(log, i, lim), log[i], lim).1.blocked <==> AdmittedAt(log, i, lim)
  {
    ReplayAgrees(log, i, lim);
    DecisionAgrees(log, i, Replay(log, i, lim), lim);
  }

  lemma HitsAnswer(log: Log, n: nat, c: Counter, lim: Limits)
    requires lim.Valid() && n < |log| && Agrees(log, n, c, lim) && Counted(log, n, lim)
    ensures var a, start := Step(c, log[n], lim).1, WindowStart(log, n, lim);
            a.hits == CountedSince(log, start, n, lim) && a.hitTtl == log[start] + lim.ttl - log[n] > 0
  {
    BlockedIffNotCounted(log, n, c, lim);
    OpensIffWindowOver(log, n, c, lim);
    HitsOfNext(log, n, c, lim);
  }

  lemma BlockAnswer(log: Log, n: nat, c: Counter, lim: Limits)
    requires lim.Valid() && n < |log| && Agrees(log, n, c, lim) && !AdmittedAt(log, n, lim)
    ensures var a := Step(c, log[n], lim).1;
            && a.blockTtl > 0
            && exists j :: 0 <= j <= n && Overflows(log, j, lim) && log[n] + a.blockTtl == log[j] + lim.blockDuration
  {
    BlockedIffNotCounted(log, n, c, lim);
    if Counted(log, n, lim) {
      HitsOfNext(log, n, c, lim);
      assert Overflows(log, n, lim);
    } else {
      var j :| 0 <= j < n && Overflows(log, j, lim) && c.blockedUntil == log[j] + lim.blockDuration;
    }
  }

  /** What a client is told is what the list says: the number of counted requests in its window,
      the time until the window closes, and the time until the block that refuses it ends. */
  lemma AnswersRefineLog(log: Log, i: nat, lim: Limits)
    requires lim.Valid() && Sorted(log) && i < |log|
    ensures var a := Step(Replay(log, i, lim), log[i], lim).1;
            && (Counted(log, i, lim) ==>
                  var start := WindowStart(log, i, lim);
                  a.hits == CountedSince(log, start, i, lim) && a.hitTtl == log[start] + lim.ttl - log[i] > 0)
            && (AdmittedAt(log, i, lim) ==> a.blockTtl == 0)
            && (!AdmittedAt(log, i, lim) ==>
                  && a.blockTtl > 0
                  && exists j :: 0 <= j <= i && Overflows(log, j, lim)
                                 && log[i] + a.blockTtl == log[j] + lim.blockDuration)
  {
    var c := Replay(log, i, lim);
    ReplayAgrees(log, i, lim);
    DecisionAgrees(log, i, c, lim);
    if Counted(log, i, lim) {
      HitsAnswer(log, i, c, lim);
    }
    if !AdmittedAt(log, i, lim) {
      BlockAnswer(log, i, c, lim);
    }
  }

  // ---------- No false refusals ----------

  /** How many of the first n requests fall in [from, from + length). */
  function RequestsIn(log: Log, n: nat, from: int, length: nat): nat
    requires n <= |log|
  {
    if n == 0 then 0
    else (if from <= log[n - 1] < from + length then 1 else 0) + RequestsIn(log, n - 1, from, length)
  }

  lemma {:induction false} RequestsGrow(log: Log, n: nat, m: nat, from: int, length: nat)
    requires n <= m <= |log|
    ensures RequestsIn(log, n, from, length) <= RequestsIn(log, m, from, length)
    decreases m
  {
    if n < m {
      RequestsGrow(log, n, m - 1, from, length);
    }
  }

  /** Every half-open span of length ttl holds at most `limit` requests. */
  ghost predicate WithinRate(log: Log, lim: Limits) {
    forall t: int :: RequestsIn(log, |log|, t, lim.ttl) <= lim.limit
  }

  lemma {:induction false} WithinRateNeverTrips(log: Log, n: nat, lim: Limits)
    requires lim.Valid() && Sorted(log) && WithinRate(log, lim) && n <= |log|
    ensures var c := Replay(log, n, lim);
            && c.blockedUntil == 0
            && c.count <= RequestsIn(log, n, c.hitsUntil - lim.ttl, lim.ttl)
            && (n > 0 ==> c.hitsUntil <= log[n - 1] + lim.ttl)
    ensures n > 0 ==> !Step(Replay(log, n - 1, lim), log[n - 1], lim).1.blocked
  {
    if n > 0 {
      WithinRateNeverTrips(log, n - 1, lim);
      var c := Replay(log, n, lim);
      var start := c.hitsUntil - lim.ttl;
      assert c.count <= RequestsIn(log, n, start, lim.ttl);
      RequestsGrow(log, n, |log|, start, lim.ttl);
    }
  }

  /** A client that keeps every half-open span of length ttl to at most `limit` requests is never
      refused, in the whole run. */
  lemma NoFalseRefusals(log: Log, i: nat, lim: Limits)
    requires lim.Valid() && Sorted(log) && WithinRate(log, lim) && i < |log|
    ensures !Step(Replay(log, i, lim), log[i], lim).1.blocked && AdmittedAt(log, i, lim)
  {
    WithinRateNeverTrips(log, i + 1, lim);
    CountersRefineLog(log, i, lim);
  }
}
