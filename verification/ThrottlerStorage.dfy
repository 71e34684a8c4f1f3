/** `RedisThrottlerStorage.increment`: the request as the API instance sees it, from the command
    bytes it sends to the record it hands to the throttler guard. */
module ThrottlerStorage {
  import opened Bytes
  import opened Resp
  import opened RedisConnection
  import opened ThrottlerScript

  /** What the guard is handed. The code casts the reply without checking it, so a field is
      whatever value JavaScript makes of the reply it got. */
  datatype Record = Record(totalHits: Reply, timeToExpire: Num, isBlocked: bool, timeToBlockExpire: Num)

  /** The least number of whole seconds, at least 0, that covers the milliseconds. */
  function MillisecondsToSeconds(ms: int): (s: int)
    ensures s >= 0 && s * 1000 >= ms
    ensures s > 0 ==> (s - 1) * 1000 < ms
  {
    var ceil := -((-ms) / 1000);
    if ceil > 0 then ceil else 0
  }

  /** The arguments of the EVAL command; `script` is the text of the script. */
  function EvalArgs(script: string, key: string, lim: Limits): seq<Arg> {
    [Text("EVAL"), Text(script), Whole(2), Text(HitsName(key)), Text(BlockedName(key)),
     Whole(lim.ttl), Whole(lim.limit), Whole(lim.blockDuration)]
  }

  // ---------- JavaScript values ----------

  const COMMA: byte := 44
  const NAN_TEXT: bytes := [78, 97, 78]

  /** `String(v)`, where a null inside a list prints as nothing. */
  function Printed(v: Reply): bytes
    decreases v
  {
    match v
    case Str(text) => text
    case Number(Int(n)) => Utf8(IntText(n))
    case Number(NaN) => NAN_TEXT
    case Null => []
    case List(items) => Joined(items)
  }

  function Joined(items: seq<Reply>): bytes
    decreases items
  {
    if items == [] then []
    else if |items| == 1 then Printed(items[0])
    else Printed(items[0]) + [COMMA] + Joined(items[1..])
  }

  /** The number arithmetic makes of a value. */
  function Numeric(v: Reply): Num {
    match v
    case Number(n) => n
    case Str(text) => ToNumber(text)
    case Null => Int(0)
    case List(items) => ToNumber(Joined(items))
  }

  /** `Boolean(v)` */
  predicate Truthy(v: Reply) {
    match v
    case Str(text) => text != []
    case Number(n) => n != Int(0) && n != NaN
    case Null => false
    case List(_) => true
  }

  /** `text[i]`, counting UTF-16 units: a character beyond the basic plane fills two of them. */
  function CharAt(text: bytes, i: nat): Reply
    decreases |text|
  {
    var (code, width) := DecodeFirst(text);
    var units := if code >= 0x1_0000 then 2 else 1;
    if width == 0 then Null
    else if i < units then Str(text[..width])
    else CharAt(text[width..], i - units)
  }

  /** `result[i]` of a value that is not null; Null also stands for undefined. */
  function Element(v: Reply, i: nat): Reply {
    match v
    case List(items) => if i < |items| then items[i] else Null
    case Str(text) => CharAt(text, i)
    case _ => Null
  }

  /** `v ?? default` */
  function OrDefault(v: Reply, default: int): Reply {
    if v.Null? then Number(Int(default)) else v
  }

  /** `millisecondsToSeconds` of any value: NaN stays NaN. */
  function Seconds(v: Reply): Num {
    match Numeric(v)
    case NaN => NaN
    case Int(ms) => Int(MillisecondsToSeconds(ms))
  }

  // ---------- The request ----------

  /** The record used when Redis cannot be asked: the request is allowed. */
  function FailOpen(lim: Limits): Record {
    Record(Number(Int(0)), Int(MillisecondsToSeconds(lim.ttl)), false, Int(0))
  }

  datatype Result = Waiting | Done(record: Record)

  /** A settled command gives a record; reading an element of a null reply throws, like any
      rejection, into the same handler. */
  function ToRecord(outcome: Outcome, lim: Limits): Result {
    match outcome
    case Pending => Waiting
    case Untracked => Waiting
    case Rejected(_) => Done(FailOpen(lim))
    case Resolved(v) =>
      if v.Null? then Done(FailOpen(lim))
      else Done(Record(OrDefault(Element(v, 0), 0), Seconds(OrDefault(Element(v, 1), lim.ttl)),
                       Truthy(Element(v, 2)), Seconds(OrDefault(Element(v, 3), 0))))
  }

  class RedisThrottlerStorage {
    const connection: RedisCommandConnection
    const script: string

    constructor (script: string)
      ensures this.script == script && fresh(connection) && connection.buffer == []
    {
      this.script := script;
      connection := new RedisCommandConnection();
    }

    /** One request: `chunks` are what the socket delivers while the command listens, and
        `broken` says that the socket then fails if the command is still waiting. The bytes of a
        broken reply stay in the buffer. */
    method Increment(key: string, lim: Limits, chunks: seq<bytes>, broken: bool)
      returns (sent: bytes, result: Result)
      modifies connection
      ensures sent == Utf8(Serialize(EvalArgs(script, key, lim)))
      ensures var d := Deliver(old(connection.buffer), chunks);
              && connection.buffer == d.buffer
              && result == if broken && d.outcome.Pending? then Done(FailOpen(lim)) else ToRecord(d.outcome, lim)
    {
      sent := Utf8(Serialize(EvalArgs(script, key, lim)));
      var outcome, used := connection.Command(chunks);
      if broken && outcome == Pending {
        result := Done(FailOpen(lim));
      } else {
        result := ToRecord(outcome, lim);
      }
    }
  }

  // ---------- The request and the script together ----------

  /** The Lua table `{ hits, hitTtl, blocked, blockTtl }` as Redis writes it. */
  function AnswerWire(a: Answer): Wire {
    Array([Integer(a.hits), Integer(a.hitTtl), Integer(if a.blocked then 1 else 0), Integer(a.blockTtl)])
  }

  /** The record that says what the script decided. */
  function AnswerRecord(a: Answer): Record {
    Record(Number(Int(a.hits)), Int(MillisecondsToSeconds(a.hitTtl)), a.blocked,
           Int(MillisecondsToSeconds(a.blockTtl)))
  }

  lemma AnswerValue(a: Answer)
    ensures WellFormed(AnswerWire(a)) && FirstError(AnswerWire(a)) == []
    ensures Denote(AnswerWire(a)) == List([Number(Int(a.hits)), Number(Int(a.hitTtl)),
                                           Number(Int(if a.blocked then 1 else 0)), Number(Int(a.blockTtl))])
  {
    var ws := AnswerWire(a).items;
    NoErrorsIn(ws);
    DenoteAllAt(ws, 0);
    DenoteAllAt(ws, 1);
    DenoteAllAt(ws, 2);
    DenoteAllAt(ws, 3);
  }

  /** The answer as text. */
  function AnswerText(hits: int, hitTtl: int, flag: string, blockTtl: int): string {
    "*4\r\n:" + IntText(hits) + "\r\n:" + IntText(hitTtl) + "\r\n:" + flag + "\r\n:" + IntText(blockTtl) + "\r\n"
  }

  lemma TextInLines(hits: int, hitTtl: int, flag: string, blockTtl: int)
    ensures AnswerText(hits, hitTtl, flag, blockTtl)
         == "*4\r\n" + JoinedText([":" + IntText(hits) + "\r\n", ":" + IntText(hitTtl) + "\r\n",
                                   ":" + flag + "\r\n", ":" + IntText(blockTtl) + "\r\n"])
  {
    FourLines(":" + IntText(hits) + "\r\n", ":" + IntText(hitTtl) + "\r\n",
              ":" + flag + "\r\n", ":" + IntText(blockTtl) + "\r\n");
  }

  lemma NumberLine(n: int)
    ensures Utf8(":" + IntText(n) + "\r\n") == Encode(Integer(n))
  {
    Utf8Singleton(':');
    Utf8Append(":", IntText(n));
    Utf8Append(":" + IntText(n), "\r\n");
    Utf8Crlf();
  }

  lemma {:induction false} JoinedLines(lines: seq<string>, ws: seq<Wire>)
    requires |lines| == |ws| && forall i | 0 <= i < |ws| :: Utf8(lines[i]) == Encode(ws[i])
    ensures Utf8(JoinedText(lines)) == EncodeAll(ws)
  {
    if ws != [] {
      JoinedLines(lines[1..], ws[1..]);
      Utf8Append(lines[0], JoinedText(lines[1..]));
    }
  }

  function JoinedText(lines: seq<string>): string {
    if lines == [] then "" else lines[0] + JoinedText(lines[1..])
  }

  lemma FourLines(a: string, b: string, c: string, d: string)
    ensures JoinedText([a, b, c, d]) == a + (b + (c + d))
  {
    assert [a, b, c, d][1..] == [b, c, d] && [b, c, d][1..] == [c, d] && [c, d][1..] == [d] && [d][1..] == [];
    assert JoinedText([d]) == d && JoinedText([c, d]) == c + d;
  }

  lemma AnswerIsText(a: Answer)
    ensures Encode(AnswerWire(a)) == Utf8(AnswerText(a.hits, a.hitTtl, if a.blocked then "1" else "0", a.blockTtl))
  {
    var flag := if a.blocked then 1 else 0;
    var lines := [":" + IntText(a.hits) + "\r\n", ":" + IntText(a.hitTtl) + "\r\n",
                  ":" + IntText(flag) + "\r\n", ":" + IntText(a.blockTtl) + "\r\n"];
    NumberLine(a.hits);
    NumberLine(a.hitTtl);
    NumberLine(flag);
    NumberLine(a.blockTtl);
    JoinedLines(lines, AnswerWire(a).items);
    NumeralsAreDecimal(flag);
    TextInLines(a.hits, a.hitTtl, IntText(flag), a.blockTtl);
    FourItems(JoinedText(lines));
  }

  lemma FourItems(lines: string)
    ensures Utf8("*4\r\n" + lines) == Header(STAR, Utf8(IntText(4))) + Utf8(lines)
  {
    HeaderIsUtf8('*', 4);
    NumeralsAreDecimal(4);
    assert "*" + NatText(4) + "\r\n" == "*4\r\n";
    Utf8Append("*4\r\n", lines);
  }

  /** End to end, from the text Redis writes: however the script's answer is cut into chunks, the
      guard is told the hits and the flag of that answer and its two durations in the least whole
      seconds that cover them, and the connection is clean again. */
  lemma GuardSeesScriptDecision(c: Counter, now: nat, lim: Limits, chunks: seq<bytes>)
    requires var a := Step(c, now, lim).1;
             Flatten(chunks) == Utf8(AnswerText(a.hits, a.hitTtl, if a.blocked then "1" else "0", a.blockTtl))
    ensures var d, a := Deliver([], chunks), Step(c, now, lim).1;
            && d.outcome.Resolved? && d.buffer == [] && ToRecord(d.outcome, lim).Done?
            && var r := ToRecord(d.outcome, lim).record;
               && r.totalHits == Number(Int(a.hits)) && r.isBlocked == a.blocked
               && CoversIn(r.timeToExpire, a.hitTtl) && CoversIn(r.timeToBlockExpire, a.blockTtl)
               && r == AnswerRecord(a)
  {
    AnswerIsText(Step(c, now, lim).1);
    AnswerValue(Step(c, now, lim).1);
    ReplyDelivered(AnswerWire(Step(c, now, lim).1), chunks);
  }

  /** The least whole number of seconds, at least 0, that covers the milliseconds. */
  predicate CoversIn(seconds: Num, ms: int) {
    seconds.Int? && seconds.n >= 0 && seconds.n * 1000 >= ms && (seconds.n > 0 ==> (seconds.n - 1) * 1000 < ms)
  }

  /** A request that is allowed with no hits counted and the window in seconds. */
  predicate Allowed(r: Result, lim: Limits) {
    && r.Done? && r.record.totalHits == Number(Int(0)) && !r.record.isBlocked
    && CoversIn(r.record.timeToExpire, lim.ttl) && r.record.timeToBlockExpire == Int(0)
  }

  /** When the command fails, however it fails, the request is allowed. So it is when the reply is
      null, a bare number or an empty list, where every field takes its default. */
  lemma FailureAllows(failure: Failure, n: Num, lim: Limits)
    ensures Allowed(Done(FailOpen(lim)), lim) && Allowed(ToRecord(Rejected(failure), lim), lim)
    ensures Allowed(ToRecord(Resolved(Null), lim), lim) && Allowed(ToRecord(Resolved(Number(n)), lim), lim)
    ensures Allowed(ToRecord(Resolved(List([])), lim), lim)
  {
  }

  /** A reply that is an ASCII text blocks the request exactly when it has a third character. */
  lemma TextReplyBlocks(text: bytes, lim: Limits)
    requires forall i | 0 <= i < |text| :: text[i] < 128
    ensures var r := ToRecord(Resolved(Str(text)), lim);
            r.Done? && (r.record.isBlocked <==> |text| >= 3)
  {
    AsciiCharAt(text, 2);
  }

  lemma {:induction false} AsciiCharAt(text: bytes, i: nat)
    requires forall k | 0 <= k < |text| :: text[k] < 128
    ensures CharAt(text, i) == if i < |text| then Str([text[i]]) else Null
    decreases i
  {
    if text != [] && i > 0 {
      AsciiCharAt(text[1..], i - 1);
    } else if text != [] {
      assert text[..1] == [text[0]];
    }
  }

  /** Redis is asked to evaluate the script with two keys, so the names arrive as KEYS and the
      three numbers as ARGV. */
  lemma ScriptReceivesItsArguments(script: string, key: string, lim: Limits, rest: bytes)
    ensures var r := ParseAt(Utf8(Serialize(EvalArgs(script, key, lim))) + rest, At(0));
            && r.Ok? && r.value.List? && |r.value.items| == 8
            && r.value.items[0] == Str(Utf8("EVAL")) && r.value.items[1] == Str(Utf8(script))
            && r.value.items[3] == Str(Utf8(key + ":hits")) && r.value.items[4] == Str(Utf8(key + ":blocked"))
            && Numeric(r.value.items[2]) == Int(2) && Numeric(r.value.items[5]) == Int(lim.ttl)
            && Numeric(r.value.items[6]) == Int(lim.limit) && Numeric(r.value.items[7]) == Int(lim.blockDuration)
  {
    var args := EvalArgs(script, key, lim);
    SerializeRoundTrip(args, rest);
    var r := ParseAt(Utf8(Serialize(args)) + rest, At(0));
    assert forall i | 0 <= i < 8 :: r.value.items[i] == Str(Utf8(Stringify(args[i])));
    WholeArgument(args[2]);
    WholeArgument(args[5]);
    WholeArgument(args[6]);
    WholeArgument(args[7]);
  }

  lemma WholeArgument(a: Arg)
    requires a.Whole?
    ensures Numeric(Str(Utf8(Stringify(a)))) == Int(a.value)
  {
    IntTextRoundTrip(a.value);
  }

  /** A refused client that waits the whole seconds it was told is no longer blocked by that
      block, and waiting a second less may not be enough. */
  lemma RetryAfterOutlastsBlock(c: Counter, now: nat, lim: Limits)
    requires lim.Valid() && Step(c, now, lim).1.blocked
    ensures var (d, a) := Step(c, now, lim);
            var seconds := AnswerRecord(a).timeToBlockExpire.n;
            && now + seconds * 1000 >= d.blockedUntil
            && now + (seconds - 1) * 1000 < d.blockedUntil
  {
  }

  /** Once Redis has answered one command of a connection with an error, the limiter allows that
      request and every later one, whatever Redis really decides. */
  lemma ErrorReplyDisablesLimiter(replies: seq<Wire>, script: seq<seq<bytes>>, n: nat, lim: Limits)
    requires |replies| == |script|
    requires forall i | 0 <= i < |replies| :: WellFormed(replies[i]) && Flatten(script[i]) == Encode(replies[i])
    requires n < |replies| && FirstError(replies[n]) != []
    ensures forall i | n <= i < |replies| ::
              var o := RunSession([], script).outcomes[i];
              o.Rejected? && ToRecord(o, lim) == Done(FailOpen(lim))
  {
    SessionAnswersExactly(replies, script);
    forall i | n <= i < |replies|
      ensures RunSession([], script).outcomes[i].Rejected?
    {
      ErrorIsFound(replies[..i + 1], n);
      assert RunSession([], script).outcomes[i] == AnswerAfter(replies, i);
    }
  }

  lemma {:induction false} ErrorIsFound(ws: seq<Wire>, n: nat)
    requires n < |ws| && FirstError(ws[n]) != []
    ensures FirstErrorOf(ws) != []
  {
    if n > 0 {
      ErrorIsFound(ws[1..], n - 1);
    }
  }
}
