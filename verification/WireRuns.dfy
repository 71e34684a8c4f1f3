/** Whole runs of requests from the bytes up: any number of API instances, each with its own
    connection and whatever its buffer has kept, any number of throttle keys, and one Redis. */
module WireRuns {
  import opened Bytes
  import opened Resp
  import opened RedisConnection
  import opened ThrottlerScript
  import opened ThrottlerStorage
  import opened ThrottlerLog
  import opened ThrottlerRuns
  import opened BrokenReplies

  /** What Redis does with a command: run the script, answer with an error, or never see it. */
  datatype Server = Executes | Refuses(line: bytes) | Silent

  /** One request: `chunks` are what its instance's socket delivers while the command listens. A
      command that is still waiting after them ends with the failure of its socket. */
  datatype Request = Request(instance: nat, key: string, time: nat, server: Server, chunks: seq<bytes>)

  datatype Net = Net(counters: map<string, Counter>, buffers: map<nat, bytes>)

  const START := Net(map[], map[])

  /** The limits of each throttle key. */
  type Settings = string -> Limits

  function CounterIn(net: Net, key: string): Counter {
    if key in net.counters then net.counters[key] else FRESH
  }

  function BufferIn(net: Net, instance: nat): bytes {
    if instance in net.buffers then net.buffers[instance] else []
  }

  function Decision(net: Net, r: Request, lims: Settings): (Counter, Answer) {
    Step(CounterIn(net, r.key), r.time, lims(r.key))
  }

  /** The bytes Redis writes in reply. */
  function ReplyTo(net: Net, r: Request, lims: Settings): bytes {
    match r.server
    case Executes => Encode(AnswerWire(Decision(net, r, lims).1))
    case Refuses(line) => Encode(Error(line))
    case Silent => []
  }

  function Heard(net: Net, r: Request): Delivery {
    Deliver(BufferIn(net, r.instance), r.chunks)
  }

  function Serve(net: Net, r: Request, lims: Settings): Net {
    Net(if r.server.Executes? then net.counters[r.key := Decision(net, r, lims).0] else net.counters,
        net.buffers[r.instance := Heard(net, r).buffer])
  }

  /** What the guard is handed, as `RedisThrottlerStorage.Increment` returns it. */
  function GuardSees(net: Net, r: Request, lims: Settings): Result {
    if Heard(net, r).outcome.Pending? then Done(FailOpen(lims(r.key)))
    else ToRecord(Heard(net, r).outcome, lims(r.key))
  }

  predicate Passes(net: Net, r: Request, lims: Settings) {
    GuardSees(net, r, lims).Done? && !GuardSees(net, r, lims).record.isBlocked
  }

  /** The command resolves; otherwise the call has failed. */
  predicate Told(net: Net, r: Request) { Heard(net, r).outcome.Resolved? }

  /** What arrives is the reply, up to where its socket broke. */
  predicate Arrives(net: Net, r: Request, lims: Settings) {
    Flatten(r.chunks) <= ReplyTo(net, r, lims) && (r.server.Refuses? ==> NoCrlf(r.server.line))
  }

  /** No socket breaks within a reply: it arrives in full or not at all. */
  predicate Unbroken(net: Net, r: Request, lims: Settings) {
    Arrives(net, r, lims) && (Flatten(r.chunks) == [] || Flatten(r.chunks) == ReplyTo(net, r, lims))
  }

  function NetAfter(net: Net, run: seq<Request>, lims: Settings): Net
    decreases run
  {
    if run == [] then net else NetAfter(Serve(net, run[0], lims), run[1..], lims)
  }

  predicate AllArrive(net: Net, run: seq<Request>, lims: Settings)
    decreases run
  {
    run == [] || (Arrives(net, run[0], lims) && AllArrive(Serve(net, run[0], lims), run[1..], lims))
  }

  predicate AllUnbroken(net: Net, run: seq<Request>, lims: Settings)
    decreases run
  {
    run == [] || (Unbroken(net, run[0], lims) && AllUnbroken(Serve(net, run[0], lims), run[1..], lims))
  }

  /** How many requests of a key the guard lets pass, and how many of its calls fail. */
  function PassedCount(net: Net, run: seq<Request>, key: string, lims: Settings): nat
    decreases run
  {
    if run == [] then 0
    else
      (if run[0].key == key && Passes(net, run[0], lims) then 1 else 0)
      + PassedCount(Serve(net, run[0], lims), run[1..], key, lims)
  }

  function UntoldCount(net: Net, run: seq<Request>, key: string, lims: Settings): nat
    decreases run
  {
    if run == [] then 0
    else
      (if run[0].key == key && !Told(net, run[0]) then 1 else 0)
      + UntoldCount(Serve(net, run[0], lims), run[1..], key, lims)
  }

  predicate InTime(run: seq<Request>) {
    forall i, j | 0 <= i < j < |run| :: run[i].time <= run[j].time
  }

  // ---------- Connections in step ----------

  /** Every buffer is empty or holds an error that will reject whatever comes. */
  ghost predicate InStep(net: Net) {
    forall i | i in net.buffers :: net.buffers[i] == [] || ParseAt(net.buffers[i], At(0)).Throw?
  }

  lemma NothingArrives(chunks: seq<bytes>)
    requires Flatten(chunks) == []
    ensures Deliver([], chunks).outcome == Pending && Deliver([], chunks).buffer == []
  {
    DeliveryDependsOnBytes([], chunks);
    assert [] + Flatten(chunks) == [];
  }

  lemma ErrorArrives(line: bytes, chunks: seq<bytes>)
    requires NoCrlf(line) && Flatten(chunks) == Encode(Error(line))
    ensures Deliver([], chunks).outcome.Rejected? && ParseAt(Deliver([], chunks).buffer, At(0)).Throw?
  {
    ErrorDelivered(Error(line), chunks);
    RejectionStays([], chunks);
  }

  /** While no reply is broken, a call that is told anything is told the script's decision on it,
      any other call is allowed, and the connections stay in step. */
  lemma UnbrokenIsTold(net: Net, r: Request, lims: Settings)
    requires InStep(net) && Unbroken(net, r, lims)
    ensures InStep(Serve(net, r, lims))
    ensures Told(net, r) ==>
              r.server.Executes? && GuardSees(net, r, lims) == Done(AnswerRecord(Decision(net, r, lims).1))
    ensures !Told(net, r) ==> GuardSees(net, r, lims) == Done(FailOpen(lims(r.key)))
  {
    var buffer := BufferIn(net, r.instance);
    if buffer != [] {
      PoisonStays(buffer, ParseAt(buffer, At(0)).failure, r.chunks);
    } else if Flatten(r.chunks) == [] {
      NothingArrives(r.chunks);
    } else if r.server.Executes? {
      AnswerIsText(Decision(net, r, lims).1);
      GuardSeesScriptDecision(CounterIn(net, r.key), r.time, lims(r.key), r.chunks);
    } else {
      ErrorArrives(r.server.line, r.chunks);
    }
  }

  // ---------- A run on the wire is a run of calls ----------

  function FateOf(net: Net, r: Request): Fate {
    if Told(net, r) then Answered else if r.server.Executes? then LostAfterScript else LostBeforeScript
  }

  function CallOf(net: Net, r: Request): Call { Call(r.time, FateOf(net, r)) }

  /** The calls on one key. */
  function KeyCalls(net: Net, run: seq<Request>, key: string, lims: Settings): seq<Call>
    decreases run
  {
    if run == [] then []
    else
      (if run[0].key == key then [CallOf(net, run[0])] else [])
      + KeyCalls(Serve(net, run[0], lims), run[1..], key, lims)
  }

  /** One request of an unbroken run is one call of its key's run, and no call of any other's. */
  lemma RequestIsCall(net: Net, r: Request, key: string, lims: Settings)
    requires InStep(net) && Unbroken(net, r, lims)
    ensures CounterIn(Serve(net, r, lims), key)
         == if r.key == key then After(CounterIn(net, key), CallOf(net, r), lims(key)) else CounterIn(net, key)
    ensures Passes(net, r, lims) <==> Admitted(CounterIn(net, r.key), CallOf(net, r), lims(r.key))
  {
    UnbrokenIsTold(net, r, lims);
  }

  lemma {:induction false} WireRunIsRun(net: Net, run: seq<Request>, key: string, lims: Settings)
    requires InStep(net) && AllUnbroken(net, run, lims)
    ensures InStep(NetAfter(net, run, lims))
    ensures var c, calls := CounterIn(net, key), KeyCalls(net, run, key, lims);
            && CounterIn(NetAfter(net, run, lims), key) == StateAfter(c, calls, lims(key))
            && PassedCount(net, run, key, lims) == AdmittedCount(c, calls, lims(key))
            && UntoldCount(net, run, key, lims) == FailedCount(calls)
    decreases run
  {
    if run != [] {
      var r, rest := run[0], run[1..];
      UnbrokenIsTold(net, r, lims);
      RequestIsCall(net, r, key, lims);
      WireRunIsRun(Serve(net, r, lims), rest, key, lims);
      var more := KeyCalls(Serve(net, r, lims), rest, key, lims);
      if r.key == key {
        FirstCall(CounterIn(net, key), CallOf(net, r), more, lims(key));
      } else {
        assert KeyCalls(net, run, key, lims) == more;
      }
    }
  }

  lemma FirstCall(c: Counter, call: Call, more: seq<Call>, lim: Limits)
    ensures StateAfter(c, [call] + more, lim) == StateAfter(After(c, call, lim), more, lim)
    ensures AdmittedCount(c, [call] + more, lim)
         == (if Admitted(c, call, lim) then 1 else 0) + AdmittedCount(After(c, call, lim), more, lim)
    ensures FailedCount([call] + more) == (if call.fate != Answered then 1 else 0) + FailedCount(more)
  {
    assert ([call] + more)[1..] == more;
  }

  lemma {:induction false} KeyCallsInTime(
      net: Net, run: seq<Request>, key: string, lims: Settings, from: nat, till: nat)
    requires InTime(run) && forall i | 0 <= i < |run| :: from <= run[i].time <= till
    ensures Within(KeyCalls(net, run, key, lims), from, till)
    decreases run
  {
    if run != [] {
      KeyCallsInTime(Serve(net, run[0], lims), run[1..], key, lims, run[0].time, till);
    }
  }

  // ---------- The bound ----------

  lemma StartUnbroken(before: seq<Request>, after: seq<Request>, key: string, lims: Settings)
    requires AllUnbroken(START, before + after, lims)
    ensures var net, calls := NetAfter(START, before, lims), KeyCalls(START, before, key, lims);
            && InStep(net) && AllUnbroken(net, after, lims)
            && CounterIn(net, key) == StateAfter(FRESH, calls, lims(key))
  {
    UnbrokenSplit(START, before, after, lims);
    WireRunIsRun(START, before, key, lims);
  }

  /** The window bound, from the bytes up: in every run in which no reply breaks off midway, with
      error replies and failures of any other kind, any stretch of time of length k * ttl lets pass
      at most (k + 1) * limit requests of a key plus one for each of its failed calls. */
  lemma RunBound(
      before: seq<Request>, span: seq<Request>, key: string, from: nat, till: nat, k: nat, lims: Settings)
    requires lims(key).Valid() && AllUnbroken(START, before + span, lims)
    requires InTime(span) && (forall i | 0 <= i < |span| :: from <= span[i].time <= till)
    requires till - from <= k * lims(key).ttl
    ensures var net := NetAfter(START, before, lims);
            PassedCount(net, span, key, lims) <= (k + 1) * lims(key).limit + UntoldCount(net, span, key, lims)
  {
    var net := NetAfter(START, before, lims);
    StartUnbroken(before, span, key, lims);
    WireRunIsRun(net, span, key, lims);
    KeyCallsInTime(net, span, key, lims, from, till);
    SegmentBound(CounterIn(net, key), KeyCalls(net, span, key, lims), from, till, k, lims(key));
  }

  lemma {:induction false} UnbrokenSplit(net: Net, before: seq<Request>, after: seq<Request>, lims: Settings)
    requires AllUnbroken(net, before + after, lims)
    ensures AllUnbroken(net, before, lims) && AllUnbroken(NetAfter(net, before, lims), after, lims)
    decreases before
  {
    if before == [] {
      assert before + after == after;
    } else {
      assert (before + after)[1..] == before[1..] + after;
      UnbrokenSplit(Serve(net, before[0], lims), before[1..], after, lims);
    }
  }

  lemma {:induction false} KeyCallsLast(net: Net, before: seq<Request>, r: Request, lims: Settings)
    ensures KeyCalls(net, before + [r], r.key, lims)
         == KeyCalls(net, before, r.key, lims) + [CallOf(NetAfter(net, before, lims), r)]
    decreases before
  {
    if before == [] {
      assert before + [r] == [r] && [r][1..] == [];
      assert KeyCalls(Serve(net, r, lims), [], r.key, lims) == [];
    } else {
      assert (before + [r])[1..] == before[1..] + [r];
      KeyCallsLast(Serve(net, before[0], lims), before[1..], r, lims);
    }
  }

  /** The times at which the script has run for a key. */
  function ExecutedOn(run: seq<Request>, key: string, lims: Settings): Log {
    Executed(KeyCalls(START, run, key, lims))
  }

  lemma LastCallInTime(before: seq<Request>, r: Request, lims: Settings)
    requires InTime(before + [r])
    ensures Ordered(KeyCalls(START, before, r.key, lims) + [CallOf(NetAfter(START, before, lims), r)])
  {
    var all := before + [r];
    forall i | 0 <= i < |all|
      ensures all[i].time <= r.time
    {
      assert i < |before| ==> all[i].time <= all[|before|].time;
    }
    KeyCallsInTime(START, all, r.key, lims, 0, r.time);
    KeyCallsLast(START, before, r, lims);
  }

  /** A request after an unbroken run, as a call after the run of its key. */
  lemma LastRequestIsCall(before: seq<Request>, r: Request, lims: Settings)
    requires AllUnbroken(START, before + [r], lims)
    ensures var net, lim := NetAfter(START, before, lims), lims(r.key);
            Passes(net, r, lims)
            <==> Admitted(StateAfter(FRESH, KeyCalls(START, before, r.key, lims), lim), CallOf(net, r), lim)
  {
    StartUnbroken(before, [r], r.key, lims);
    RequestIsCall(NetAfter(START, before, lims), r, r.key, lims);
  }

  /** Refinement, from the bytes up: in every run in which no reply breaks off midway, a call that
      is told anything passes exactly when the times at which the script ran for its key say so. */
  lemma RunRefinesLog(before: seq<Request>, r: Request, lims: Settings)
    requires lims(r.key).Valid() && InTime(before + [r]) && AllUnbroken(START, before + [r], lims)
    requires Told(NetAfter(START, before, lims), r)
    ensures var log := ExecutedOn(before, r.key, lims) + [r.time];
            Passes(NetAfter(START, before, lims), r, lims) <==> AdmittedAt(log, |log| - 1, lims(r.key))
  {
    var call := CallOf(NetAfter(START, before, lims), r);
    LastRequestIsCall(before, r, lims);
    LastCallInTime(before, r, lims);
    CallRefinesLog(KeyCalls(START, before, r.key, lims), call, lims(r.key));
  }

  /** In every run in which no reply breaks off midway, a client that keeps to the rate is never
      refused, whatever else fails. */
  lemma RunHasNoFalseRefusals(before: seq<Request>, r: Request, lims: Settings)
    requires lims(r.key).Valid() && InTime(before + [r]) && AllUnbroken(START, before + [r], lims)
    requires WithinRate(ExecutedOn(before + [r], r.key, lims), lims(r.key))
    ensures Passes(NetAfter(START, before, lims), r, lims)
  {
    var call := CallOf(NetAfter(START, before, lims), r);
    LastRequestIsCall(before, r, lims);
    LastCallInTime(before, r, lims);
    KeyCallsLast(START, before, r, lims);
    CallNotFalselyRefused(KeyCalls(START, before, r.key, lims), call, lims(r.key));
  }

  // ---------- One broken reply ----------

  /** A request whose answer arrives in full, in one chunk. */
  function WholeRequest(net: Net, instance: nat, key: string, time: nat, lims: Settings): Request {
    Request(instance, key, time, Executes, [Encode(AnswerWire(Step(CounterIn(net, key), time, lims(key)).1))])
  }

  /** `n` such requests at one instant. */
  function WholeRequests(net: Net, instance: nat, key: string, time: nat, n: nat, lims: Settings): seq<Request>
    decreases n
  {
    if n == 0 then []
    else
      var r := WholeRequest(net, instance, key, time, lims);
      [r] + WholeRequests(Serve(net, r, lims), instance, key, time, n - 1, lims)
  }

  /** A request whose answer breaks off after the colon that opens number i. */
  function BrokenRequest(net: Net, instance: nat, key: string, time: nat, i: nat, lims: Settings): Request
    requires i < 4
  {
    Request(instance, key, time, Executes,
            [UpToNumber(AnswerItems(Step(CounterIn(net, key), time, lims(key)).1), i, [COLON])])
  }

  /** `limit` requests answered in full, one whose answer breaks off within the third number, and
      four more. */
  function BreakingRun(instance: nat, key: string, time: nat, lims: Settings): seq<Request> {
    var first := WholeRequests(START, instance, key, time, lims(key).limit, lims);
    var net := NetAfter(START, first, lims);
    var broken := BrokenRequest(net, instance, key, time, 2, lims);
    first + ([broken] + WholeRequests(Serve(net, broken, lims), instance, key, time, 4, lims))
  }

  /** Every request is for one key and of one instant. */
  predicate AllOn(run: seq<Request>, key: string, time: nat) {
    forall i | 0 <= i < |run| :: run[i].key == key && run[i].time == time
  }

  /** A stretch of a run: it is for one key and of one instant, its bytes are what Redis wrote, it
      lets `passed` requests pass and leaves `untold` calls without an answer. */
  predicate Stretch(net: Net, run: seq<Request>, key: string, time: nat, lims: Settings, passed: nat, untold: nat) {
    && AllOn(run, key, time) && AllArrive(net, run, lims)
    && PassedCount(net, run, key, lims) == passed && UntoldCount(net, run, key, lims) == untold
  }

  lemma StretchFirst(net: Net, r: Request, rest: seq<Request>, lims: Settings, passed: nat, untold: nat)
    requires Arrives(net, r, lims) && Passes(net, r, lims)
    requires Stretch(Serve(net, r, lims), rest, r.key, r.time, lims, passed, untold)
    ensures Stretch(net, [r] + rest, r.key, r.time, lims, passed + 1, untold + if Told(net, r) then 0 else 1)
  {
    assert ([r] + rest)[1..] == rest;
  }

  lemma {:induction false} CountsSplit(net: Net, run: seq<Request>, more: seq<Request>, key: string, lims: Settings)
    ensures var d := NetAfter(net, run, lims);
            && (AllArrive(net, run, lims) && AllArrive(d, more, lims) ==> AllArrive(net, run + more, lims))
            && PassedCount(net, run + more, key, lims)
               == PassedCount(net, run, key, lims) + PassedCount(d, more, key, lims)
            && UntoldCount(net, run + more, key, lims)
               == UntoldCount(net, run, key, lims) + UntoldCount(d, more, key, lims)
    decreases run
  {
    if run == [] {
      assert run + more == more;
    } else {
      assert (run + more)[1..] == run[1..] + more;
      CountsSplit(Serve(net, run[0], lims), run[1..], more, key, lims);
    }
  }

  lemma StretchAppend(net: Net, run: seq<Request>, more: seq<Request>, key: string, time: nat, lims: Settings,
                      p: nat, u: nat, q: nat, v: nat)
    requires Stretch(net, run, key, time, lims, p, u)
    requires Stretch(NetAfter(net, run, lims), more, key, time, lims, q, v)
    ensures Stretch(net, run + more, key, time, lims, p + q, u + v)
  {
    CountsSplit(net, run, more, key, lims);
  }

  /** Ready for n more requests within the limit: a clean connection, no block, room in the window. */
  predicate HasRoom(net: Net, instance: nat, key: string, time: nat, n: nat, lims: Settings) {
    && BufferIn(net, instance) == [] && CounterIn(net, key).blockedUntil == 0
    && LiveCount(CounterIn(net, key), time) + n <= lims(key).limit
  }

  lemma OneWithinLimit(net: Net, instance: nat, key: string, time: nat, n: nat, lims: Settings)
    requires lims(key).Valid() && n > 0 && HasRoom(net, instance, key, time, n, lims)
    ensures var r := WholeRequest(net, instance, key, time, lims);
            && Arrives(net, r, lims) && Told(net, r) && Passes(net, r, lims)
            && HasRoom(Serve(net, r, lims), instance, key, time, n - 1, lims)
  {
    WholeOnClean(net, WholeRequest(net, instance, key, time, lims), lims);
  }

  lemma {:induction false} WithinLimitPass(net: Net, instance: nat, key: string, time: nat, n: nat, lims: Settings)
    requires lims(key).Valid() && HasRoom(net, instance, key, time, n, lims)
    ensures var run := WholeRequests(net, instance, key, time, n, lims);
            Stretch(net, run, key, time, lims, n, 0) && HasRoom(NetAfter(net, run, lims), instance, key, time, 0, lims)
    decreases n
  {
    if n > 0 {
      var r := WholeRequest(net, instance, key, time, lims);
      var rest := WholeRequests(Serve(net, r, lims), instance, key, time, n - 1, lims);
      OneWithinLimit(net, instance, key, time, n, lims);
      WithinLimitPass(Serve(net, r, lims), instance, key, time, n - 1, lims);
      StretchFirst(net, r, rest, lims, n - 1, 0);
      assert ([r] + rest)[1..] == rest;
    }
  }

  lemma OneChunk(chunk: bytes)
    ensures Flatten([chunk]) == chunk && [chunk][1..] == []
  {
  }

  lemma WholeOnClean(net: Net, r: Request, lims: Settings)
    requires r == WholeRequest(net, r.instance, r.key, r.time, lims) && BufferIn(net, r.instance) == []
    ensures Arrives(net, r, lims) && Told(net, r) && Heard(net, r).buffer == []
    ensures Passes(net, r, lims) <==> !Decision(net, r, lims).1.blocked
  {
    OneChunk(r.chunks[0]);
    AnswerIsText(Decision(net, r, lims).1);
    GuardSeesScriptDecision(CounterIn(net, r.key), r.time, lims(r.key), r.chunks);
  }

  lemma ColonWithinNumber(a: Answer, i: nat)
    requires i < 4
    ensures WithinNumber(AnswerItems(a), i, [COLON])
  {
    assert Encode(AnswerItems(a)[i])[..1] == [COLON];
  }

  lemma BrokenPasses(net: Net, r: Request, i: nat, lims: Settings)
    requires i < 4 && r == BrokenRequest(net, r.instance, r.key, r.time, i, lims)
    requires BufferIn(net, r.instance) == []
    ensures Arrives(net, r, lims) && !Told(net, r) && Passes(net, r, lims)
    ensures Heard(net, r).buffer == UpToNumber(AnswerItems(Decision(net, r, lims).1), i, [COLON])
  {
    var a := Decision(net, r, lims).1;
    ColonWithinNumber(a, i);
    WithinNumberIsBrokenOff(AnswerItems(a), i, [COLON]);
    WaitsAlone(a, UpToNumber(AnswerItems(a), i, [COLON]));
    OneChunk(UpToNumber(AnswerItems(a), i, [COLON]));
  }

  lemma WaitsAlone(a: Answer, p: bytes)
    requires BrokenOff(p, Encode(AnswerWire(a)))
    ensures Deliver([], [p]) == Delivery(Pending, p, [])
  {
    AnswerValue(a);
    BrokenListWaits(AnswerItems(a), p);
    OneChunk(p);
    assert [] + p == p;
  }

  /** The next request is told a mixture whose flag is NaN. */
  lemma MixturePasses(net: Net, r: Request, a: Answer, lims: Settings)
    requires r == WholeRequest(net, r.instance, r.key, r.time, lims)
    requires BufferIn(net, r.instance) == UpToNumber(AnswerItems(a), 2, [COLON])
    ensures Arrives(net, r, lims) && Told(net, r) && Passes(net, r, lims)
    ensures Heard(net, r).buffer == EncodeAll(AnswerItems(Decision(net, r, lims).1)[1..])
  {
    var b := Decision(net, r, lims).1;
    OneChunk(r.chunks[0]);
    ColonWithinNumber(a, 2);
    MixedAnswer(a, b, 2, [COLON], r.chunks);
    MixedDecision(a, b, 2, [COLON], r.chunks, lims(r.key));
    SingleChunkUsed(BufferIn(net, r.instance), r.chunks[0]);
  }

  lemma SingleChunkUsed(buffer: bytes, chunk: bytes)
    ensures Deliver(buffer, [chunk]).rest == [] && Flatten(Deliver(buffer, [chunk]).rest) == []
  {
    OneChunk(chunk);
  }

  /** A request that finds a number waiting in the buffer is told that number, and passes. */
  lemma NumberPasses(net: Net, r: Request, first: Wire, queue: seq<Wire>, lims: Settings)
    requires r == WholeRequest(net, r.instance, r.key, r.time, lims) && first.Integer?
    requires BufferIn(net, r.instance) == EncodeAll([first] + queue)
    ensures Arrives(net, r, lims) && Told(net, r) && Passes(net, r, lims)
    ensures Heard(net, r).buffer == EncodeAll(queue + [AnswerWire(Decision(net, r, lims).1)])
  {
    OneChunk(r.chunks[0]);
    LaggingCommand(first, queue, AnswerWire(Decision(net, r, lims).1));
  }

  /** The next n requests of an instance each find a number waiting. */
  predicate NumbersWait(net: Net, instance: nat, n: nat, queue: seq<Wire>) {
    n <= |queue| && BufferIn(net, instance) == EncodeAll(queue) && forall i | 0 <= i < n :: queue[i].Integer?
  }

  lemma OneNumberPasses(net: Net, instance: nat, key: string, time: nat, n: nat, queue: seq<Wire>, lims: Settings)
    requires n > 0 && NumbersWait(net, instance, n, queue)
    ensures var r := WholeRequest(net, instance, key, time, lims);
            && Arrives(net, r, lims) && Told(net, r) && Passes(net, r, lims)
            && NumbersWait(Serve(net, r, lims), instance, n - 1, queue[1..] + [AnswerWire(Decision(net, r, lims).1)])
  {
    assert queue == [queue[0]] + queue[1..];
    NumberPasses(net, WholeRequest(net, instance, key, time, lims), queue[0], queue[1..], lims);
  }

  lemma {:induction false} NumbersPass(
      net: Net, instance: nat, key: string, time: nat, n: nat, queue: seq<Wire>, lims: Settings)
    requires NumbersWait(net, instance, n, queue)
    ensures Stretch(net, WholeRequests(net, instance, key, time, n, lims), key, time, lims, n, 0)
    decreases n
  {
    if n > 0 {
      var r := WholeRequest(net, instance, key, time, lims);
      var d := Serve(net, r, lims);
      OneNumberPasses(net, instance, key, time, n, queue, lims);
      NumbersPass(d, instance, key, time, n - 1, queue[1..] + [AnswerWire(Decision(net, r, lims).1)], lims);
      StretchFirst(net, r, WholeRequests(d, instance, key, time, n - 1, lims), lims, n - 1, 0);
    }
  }

  /** Four requests whose answers arrive in full after one that broke off. */
  lemma FourPass(net: Net, instance: nat, key: string, time: nat, a: Answer, lims: Settings)
    requires BufferIn(net, instance) == UpToNumber(AnswerItems(a), 2, [COLON])
    ensures Stretch(net, WholeRequests(net, instance, key, time, 4, lims), key, time, lims, 4, 0)
  {
    var r := WholeRequest(net, instance, key, time, lims);
    var d := Serve(net, r, lims);
    MixturePasses(net, r, a, lims);
    NumbersPass(d, instance, key, time, 3, AnswerItems(Decision(net, r, lims).1)[1..], lims);
    StretchFirst(net, r, WholeRequests(d, instance, key, time, 3, lims), lims, 3, 0);
  }

  lemma BrokenThenFourPass(net: Net, instance: nat, key: string, time: nat, lims: Settings)
    requires BufferIn(net, instance) == []
    ensures var broken := BrokenRequest(net, instance, key, time, 2, lims);
            var rest := WholeRequests(Serve(net, broken, lims), instance, key, time, 4, lims);
            Stretch(net, [broken] + rest, key, time, lims, 5, 1)
  {
    var broken := BrokenRequest(net, instance, key, time, 2, lims);
    var d := Serve(net, broken, lims);
    BrokenPasses(net, broken, 2, lims);
    FourPass(d, instance, key, time, Decision(net, broken, lims).1, lims);
    StretchFirst(net, broken, WholeRequests(d, instance, key, time, 4, lims), lims, 4, 0);
  }

  /** The bound is lost with one broken reply, whatever the limits: limit + 5 requests of one
      instant pass although a single call failed, where `RunBound` allows limit + 1. */
  lemma BrokenReplyBreaksBound(instance: nat, key: string, time: nat, lims: Settings)
    requires lims(key).Valid()
    ensures var run := BreakingRun(instance, key, time, lims);
            && AllOn(run, key, time)
            && AllArrive(START, run, lims)
            && UntoldCount(START, run, key, lims) == 1
            && PassedCount(START, run, key, lims) == lims(key).limit + 5
  {
    var first := WholeRequests(START, instance, key, time, lims(key).limit, lims);
    WithinLimitPass(START, instance, key, time, lims(key).limit, lims);
    BreakingRunAppends(first, instance, key, time, lims);
  }

  lemma BreakingRunAppends(first: seq<Request>, instance: nat, key: string, time: nat, lims: Settings)
    requires first == WholeRequests(START, instance, key, time, lims(key).limit, lims)
    requires Stretch(START, first, key, time, lims, lims(key).limit, 0)
    requires BufferIn(NetAfter(START, first, lims), instance) == []
    ensures Stretch(START, BreakingRun(instance, key, time, lims), key, time, lims, lims(key).limit + 5, 1)
  {
    var net := NetAfter(START, first, lims);
    var broken := BrokenRequest(net, instance, key, time, 2, lims);
    BrokenThenFourPass(net, instance, key, time, lims);
    StretchAppend(START, first, [broken] + WholeRequests(Serve(net, broken, lims), instance, key, time, 4, lims),
                  key, time, lims, lims(key).limit, 0, 5, 1);
  }

  /** So is the promise of no false refusals: of two requests within the limit the first loses its
      reply within the first number, and the second is refused. */
  lemma BrokenReplyRefusesFalsely(instance: nat, key: string, time: nat, lims: Settings)
    requires lims(key).Valid() && lims(key).limit >= 2
    ensures var r := BrokenRequest(START, instance, key, time, 0, lims);
            var net := NetAfter(START, [r], lims);
            var s := WholeRequest(net, instance, key, time, lims);
            && AllArrive(START, [r, s], lims) && WithinRate(ExecutedOn([r, s], key, lims), lims(key))
            && !Passes(net, s, lims)
  {
    var r := BrokenRequest(START, instance, key, time, 0, lims);
    var net := Serve(START, r, lims);
    var s := WholeRequest(net, instance, key, time, lims);
    assert [r][1..] == [] && [r, s][1..] == [s] && [s][1..] == [];
    BrokenPasses(START, r, 0, lims);
    HitTtlAsFlag(net, s, Decision(START, r, lims).1, lims);
    TwoExecuted(r, s, lims);
  }

  /** After a break within the first number the next request is refused, whatever the script
      decided on it: a time to live is never 0. */
  lemma HitTtlAsFlag(net: Net, s: Request, a: Answer, lims: Settings)
    requires s == WholeRequest(net, s.instance, s.key, s.time, lims)
    requires BufferIn(net, s.instance) == UpToNumber(AnswerItems(a), 0, [COLON])
    ensures Arrives(net, s, lims) && Told(net, s) && !Passes(net, s, lims)
  {
    var b := Decision(net, s, lims).1;
    OneChunk(s.chunks[0]);
    ColonWithinNumber(a, 0);
    MixedAnswer(a, b, 0, [COLON], s.chunks);
    MixedDecision(a, b, 0, [COLON], s.chunks, lims(s.key));
  }

  lemma TwoExecuted(r: Request, s: Request, lims: Settings)
    requires r.server.Executes? && s.server.Executes? && r.key == s.key
    requires lims(r.key).limit >= 2
    ensures ExecutedOn([r, s], r.key, lims) == [r.time, s.time]
    ensures WithinRate(ExecutedOn([r, s], r.key, lims), lims(r.key))
  {
    var first, second := CallOf(START, r), CallOf(Serve(START, r, lims), s);
    KeyCallsLast(START, [], r, lims);
    KeyCallsLast(START, [r], s, lims);
    assert [r] + [s] == [r, s] && [] + [r] == [r] && [r][1..] == [];
    assert NetAfter(START, [r], lims) == Serve(START, r, lims);
    LastExecuted([], first);
    LastExecuted([first], second);
    assert [] + [first] == [first];
    var log := ExecutedOn([r, s], r.key, lims);
    forall t: int
      ensures RequestsIn(log, |log|, t, lims(r.key).ttl) <= 2
    {
      assert RequestsIn(log, 1, t, lims(r.key).ttl) <= 1;
    }
  }
}
