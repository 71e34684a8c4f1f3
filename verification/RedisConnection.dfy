/** The connection that sends one command at a time and reassembles its reply from the chunks the
    socket delivers. */
module RedisConnection {
  import opened Bytes
  import opened Resp

  /** How a command's promise ends. `Untracked` is a bulk length below -1, see `Resp.Backward`. */
  datatype Outcome =
    | Pending
    | Resolved(value: Reply)
    | Rejected(failure: Failure)
    | Untracked

  function OutcomeOf(p: Parsed): Outcome {
    match p
    case NeedMore => Pending
    case Ok(value, _) => Resolved(value)
    case Throw(failure) => Rejected(failure)
    case Backward => Untracked
  }

  /** The buffer after a parse: only a success drops bytes, and dropping up to NaN drops none. */
  function Leftover(b: bytes, p: Parsed): bytes
    requires p.Ok? && p.offset.At? ==> p.offset.pos <= |b|
  {
    if p.Ok? && p.offset.At? then b[p.offset.pos..] else b
  }

  /** The state once a command has stopped listening: its outcome, the buffer, and the chunks that
      were still to come. */
  datatype Delivery = Delivery(outcome: Outcome, buffer: bytes, rest: seq<bytes>)

  /** One command listening while `chunks` arrive, starting from what is left in the buffer. */
  function Deliver(buffer: bytes, chunks: seq<bytes>): Delivery
    decreases chunks
  {
    if chunks == [] then Delivery(Pending, buffer, [])
    else
      var b := buffer + chunks[0];
      var p := ParseAt(b, At(0));
      if p == NeedMore then Deliver(b, chunks[1..])
      else Delivery(OutcomeOf(p), Leftover(b, p), chunks[1..])
  }

  function Flatten(chunks: seq<bytes>): bytes {
    if chunks == [] then [] else chunks[0] + Flatten(chunks[1..])
  }

  /** Chunking independence for any byte stream, replies and errors alike: a command's outcome and
      the unconsumed bytes depend on the bytes alone, not on how they were split. */
  lemma {:induction false} DeliveryDependsOnBytes(buffer: bytes, chunks: seq<bytes>)
    requires chunks != [] || ParseAt(buffer, At(0)) == NeedMore
    ensures var all := buffer + Flatten(chunks);
            var d := Deliver(buffer, chunks);
            && d.outcome == OutcomeOf(ParseAt(all, At(0)))
            && d.buffer + Flatten(d.rest) == Leftover(all, ParseAt(all, At(0)))
    decreases chunks
  {
    if chunks == [] {
      assert buffer + Flatten(chunks) == buffer;
    } else {
      var b := buffer + chunks[0];
      Assoc(buffer, chunks[0], Flatten(chunks[1..]));
      if ParseAt(b, At(0)) == NeedMore {
        DeliveryDependsOnBytes(b, chunks[1..]);
      } else {
        ParseStable(b, Flatten(chunks[1..]), At(0));
        LeftoverSplits(b, Flatten(chunks[1..]), ParseAt(b, At(0)));
      }
    }
  }

  lemma LeftoverSplits(b: bytes, c: bytes, p: Parsed)
    requires p.Ok? && p.offset.At? ==> p.offset.pos <= |b|
    ensures Leftover(b, p) + c == Leftover(b + c, p)
  {
  }

  /** Two splittings of the same bytes end the same way. */
  lemma ChunkingIndependence(chunks: seq<bytes>, other: seq<bytes>)
    requires Flatten(chunks) == Flatten(other)
    ensures var d, e := Deliver([], chunks), Deliver([], other);
            d.outcome == e.outcome && d.buffer + Flatten(d.rest) == e.buffer + Flatten(e.rest)
  {
    DeliveryDependsOnBytes([], chunks);
    DeliveryDependsOnBytes([], other);
  }

  /** However one reply is split, the command resolves with its value and consumes every byte. */
  lemma ReplyDelivered(w: Wire, chunks: seq<bytes>)
    requires WellFormed(w) && FirstError(w) == [] && Flatten(chunks) == Encode(w)
    ensures var d := Deliver([], chunks);
            d.outcome == Resolved(Denote(w)) && d.buffer == [] && Flatten(d.rest) == []
  {
    DeliveryDependsOnBytes([], chunks);
    assert [] + Flatten(chunks) == Encode(w) + [];
    ReadsFirstReply(w, []);
  }

  /** However an error reply is split, the command is rejected with its first error. */
  lemma ErrorDelivered(w: Wire, chunks: seq<bytes>)
    requires WellFormed(w) && FirstError(w) != [] && Flatten(chunks) == Encode(w)
    ensures Deliver([], chunks).outcome == Rejected(ErrorReply(FirstError(w)[0]))
  {
    DeliveryDependsOnBytes([], chunks);
    assert [] + Flatten(chunks) == Encode(w) + [];
    ReadsFirstReply(w, []);
  }

  // ---------- Sessions ----------

  datatype Session = Session(outcomes: seq<Outcome>, buffer: bytes)

  /** Commands issued one after another; `script[i]` is what arrives while command i listens.
      Chunks that arrive when nobody listens are lost. */
  function RunSession(buffer: bytes, script: seq<seq<bytes>>): (s: Session)
    ensures |s.outcomes| == |script|
    decreases script
  {
    if script == [] then Session([], buffer)
    else
      var d := Deliver(buffer, script[0]);
      var tail := RunSession(d.buffer, script[1..]);
      Session([d.outcome] + tail.outcomes, tail.buffer)
  }

  /** A rejected command leaves bytes behind that throw the same error again. */
  lemma {:induction false} RejectionStays(buffer: bytes, chunks: seq<bytes>)
    ensures var d := Deliver(buffer, chunks);
            d.outcome.Rejected? ==> ParseAt(d.buffer, At(0)) == Throw(d.outcome.failure)
    decreases chunks
  {
    if chunks != [] && ParseAt(buffer + chunks[0], At(0)) == NeedMore {
      RejectionStays(buffer + chunks[0], chunks[1..]);
    }
  }

  /** While the buffer throws, a command that receives a chunk is rejected and the buffer goes on
      throwing. */
  lemma PoisonStays(buffer: bytes, failure: Failure, chunks: seq<bytes>)
    requires ParseAt(buffer, At(0)) == Throw(failure)
    ensures var d := Deliver(buffer, chunks);
            && d.outcome == (if chunks == [] then Pending else Rejected(failure))
            && ParseAt(d.buffer, At(0)) == Throw(failure)
  {
    if chunks != [] {
      ParseStable(buffer, chunks[0], At(0));
    }
  }

  lemma {:induction false} PoisonedSession(buffer: bytes, failure: Failure, script: seq<seq<bytes>>)
    requires ParseAt(buffer, At(0)) == Throw(failure)
    requires forall i | 0 <= i < |script| :: script[i] != []
    ensures forall i | 0 <= i < |script| :: RunSession(buffer, script).outcomes[i] == Rejected(failure)
    ensures ParseAt(RunSession(buffer, script).buffer, At(0)) == Throw(failure)
    decreases script
  {
    if script != [] {
      PoisonStays(buffer, failure, script[0]);
      PoisonedSession(Deliver(buffer, script[0]).buffer, failure, script[1..]);
    }
  }

  /** How the i-th command of a session ends: with its own reply, unless one of the replies so far
      contained an error; then with the first error of them all. */
  function AnswerAfter(replies: seq<Wire>, i: nat): Outcome
    requires i < |replies|
  {
    var errors := FirstErrorOf(replies[..i + 1]);
    if errors == [] then Resolved(Denote(replies[i])) else Rejected(ErrorReply(errors[0]))
  }

  lemma FirstErrorOfFirst(replies: seq<Wire>, n: nat)
    requires 1 <= n <= |replies|
    ensures FirstErrorOf(replies[..n])
         == if FirstError(replies[0]) != [] then FirstError(replies[0]) else FirstErrorOf(replies[1..][..n - 1])
  {
    assert replies[..n][1..] == replies[1..][..n - 1];
  }

  /** The session went as `AnswerAfter` says. */
  predicate AnsweredExactly(s: Session, replies: seq<Wire>) {
    && |s.outcomes| == |replies| && (forall i | 0 <= i < |replies| :: s.outcomes[i] == AnswerAfter(replies, i))
    && (s.buffer == [] <==> FirstErrorOf(replies) == [])
  }

  lemma AnsweredFirst(reply: Wire, rest: seq<Wire>, tail: Session)
    requires FirstError(reply) == [] && AnsweredExactly(tail, rest)
    ensures AnsweredExactly(Session([Resolved(Denote(reply))] + tail.outcomes, tail.buffer), [reply] + rest)
  {
    var all := [reply] + rest;
    assert all[1..] == rest;
    forall i | 0 <= i < |all|
      ensures AnswerAfter(all, i) == if i == 0 then Resolved(Denote(reply)) else AnswerAfter(rest, i - 1)
    {
      FirstErrorOfFirst(all, i + 1);
      assert i == 0 ==> all[1..][..0] == [];
    }
  }

  lemma PoisonedFirst(reply: Wire, rest: seq<Wire>, tail: Session)
    requires FirstError(reply) != []
    requires var failure := ErrorReply(FirstError(reply)[0]);
             && |tail.outcomes| == |rest| && (forall i | 0 <= i < |rest| :: tail.outcomes[i] == Rejected(failure))
             && ParseAt(tail.buffer, At(0)) == Throw(failure)
    ensures AnsweredExactly(
              Session([Rejected(ErrorReply(FirstError(reply)[0]))] + tail.outcomes, tail.buffer), [reply] + rest)
  {
    var all := [reply] + rest;
    forall i | 0 <= i < |all|
      ensures AnswerAfter(all, i) == Rejected(ErrorReply(FirstError(reply)[0]))
    {
      FirstErrorOfFirst(all, i + 1);
    }
  }

  lemma {:induction false} SessionGoesAsSaid(replies: seq<Wire>, script: seq<seq<bytes>>)
    requires |replies| == |script|
    requires forall i | 0 <= i < |replies| :: WellFormed(replies[i]) && Flatten(script[i]) == Encode(replies[i])
    ensures AnsweredExactly(RunSession([], script), replies)
  {
    if script != [] {
      var d := Deliver([], script[0]);
      assert replies == [replies[0]] + replies[1..];
      if FirstError(replies[0]) == [] {
        ReplyDelivered(replies[0], script[0]);
        SessionGoesAsSaid(replies[1..], script[1..]);
        AnsweredFirst(replies[0], replies[1..], RunSession([], script[1..]));
      } else {
        ErrorDelivered(replies[0], script[0]);
        RejectionStays([], script[0]);
        NoneEmpty(replies, script);
        PoisonedSession(d.buffer, ErrorReply(FirstError(replies[0])[0]), script[1..]);
        PoisonedFirst(replies[0], replies[1..], RunSession(d.buffer, script[1..]));
      }
    }
  }

  /** What every command of a session is told, errors included, however the bytes are split. An
      error is never dropped from the buffer: the first one answers every later command. The
      buffer ends empty if and only if no reply contained an error. */
  lemma SessionAnswersExactly(replies: seq<Wire>, script: seq<seq<bytes>>)
    requires |replies| == |script|
    requires forall i | 0 <= i < |replies| :: WellFormed(replies[i]) && Flatten(script[i]) == Encode(replies[i])
    ensures forall i | 0 <= i < |replies| :: RunSession([], script).outcomes[i] == AnswerAfter(replies, i)
    ensures RunSession([], script).buffer == [] <==> FirstErrorOf(replies) == []
  {
    SessionGoesAsSaid(replies, script);
  }

  lemma NoneEmpty(replies: seq<Wire>, script: seq<seq<bytes>>)
    requires |replies| == |script|
    requires forall i | 0 <= i < |replies| :: Flatten(script[i]) == Encode(replies[i])
    ensures forall i | 0 <= i < |script| :: script[i] != []
  {
    forall i | 0 <= i < |script|
      ensures script[i] != []
    {
      assert |Encode(replies[i])| > 0;
    }
  }

  /** With one command outstanding at a time and no error replies, the i-th command resolves with
      the i-th reply however the bytes are split, and nothing is left over. */
  lemma SessionAnswersInOrder(replies: seq<Wire>, script: seq<seq<bytes>>)
    requires |replies| == |script|
    requires forall i | 0 <= i < |replies| ::
               WellFormed(replies[i]) && FirstError(replies[i]) == [] && Flatten(script[i]) == Encode(replies[i])
    ensures RunSession([], script).buffer == []
    ensures forall i | 0 <= i < |replies| :: RunSession([], script).outcomes[i] == Resolved(Denote(replies[i]))
  {
    SessionAnswersExactly(replies, script);
    NoErrorsIn(replies);
    forall i | 0 <= i < |replies|
      ensures AnswerAfter(replies, i) == Resolved(Denote(replies[i]))
    {
      NoErrorsIn(replies[..i + 1]);
    }
  }

  // ---------- A connection that lags behind ----------

  /** One chunk for each reply. */
  function WholeReplies(replies: seq<Wire>): seq<seq<bytes>> {
    seq(|replies|, i requires 0 <= i < |replies| => [Encode(replies[i])])
  }

  lemma {:induction false} EncodeAllAppend(ws: seq<Wire>, w: Wire)
    ensures EncodeAll(ws + [w]) == EncodeAll(ws) + Encode(w)
  {
    if ws == [] {
      assert [w][1..] == [];
    } else {
      EncodeAllAppend(ws[1..], w);
      assert (ws + [w])[1..] == ws[1..] + [w];
      Assoc(Encode(ws[0]), EncodeAll(ws[1..]), Encode(w));
    }
  }

  /** With replies still waiting in the buffer a command is told the oldest of them, and its own
      reply joins the queue. */
  lemma LaggingCommand(first: Wire, queue: seq<Wire>, own: Wire)
    requires WellFormed(first) && FirstError(first) == []
    ensures Deliver(EncodeAll([first] + queue), [Encode(own)])
         == Delivery(Resolved(Denote(first)), EncodeAll(queue + [own]), [])
  {
    assert ([first] + queue)[1..] == queue;
    var b := EncodeAll([first] + queue) + Encode(own);
    Assoc(Encode(first), EncodeAll(queue), Encode(own));
    EncodeAllAppend(queue, own);
    ReadsFirstReply(first, EncodeAll(queue + [own]));
    TailAfter(Encode(first), EncodeAll(queue + [own]));
    assert [Encode(own)][1..] == [];
  }

  /** The session told command i the reply `all[i]` and ended with the rest of them in its buffer. */
  predicate Lagged(s: Session, all: seq<Wire>, n: nat) {
    && |s.outcomes| == n <= |all| && (forall i | 0 <= i < n :: s.outcomes[i] == Resolved(Denote(all[i])))
    && s.buffer == EncodeAll(all[n..])
  }

  lemma LaggedFirst(tail: Session, all: seq<Wire>, n: nat)
    requires all != [] && Lagged(tail, all[1..], n)
    ensures Lagged(Session([Resolved(Denote(all[0]))] + tail.outcomes, tail.buffer), all, n + 1)
  {
    assert all[1..][n..] == all[n + 1..];
  }

  lemma {:induction false} LaggedSession(backlog: seq<Wire>, replies: seq<Wire>)
    requires forall i | 0 <= i < |backlog| :: WellFormed(backlog[i]) && FirstError(backlog[i]) == []
    requires forall i | 0 <= i < |replies| :: WellFormed(replies[i]) && FirstError(replies[i]) == []
    ensures Lagged(RunSession(EncodeAll(backlog), WholeReplies(replies)), backlog + replies, |replies|)
    decreases replies
  {
    if replies == [] {
      assert (backlog + replies)[0..] == backlog;
    } else {
      var own, more := replies[0], replies[1..];
      var queue := (backlog + [own])[1..];
      assert (backlog + replies)[1..] == queue + more && (backlog + replies)[0] == (backlog + [own])[0];
      assert WholeReplies(replies)[1..] == WholeReplies(more);
      QueueMoves(backlog, own, queue);
      LaggedSession(queue, more);
      LaggedFirst(RunSession(EncodeAll(queue), WholeReplies(more)), backlog + replies, |more|);
    }
  }

  /** A lag lasts while replies arrive in one chunk each: a connection that starts with n replies in
      its buffer tells every command the reply that was due n commands earlier, and ends with n
      replies in its buffer. */
  lemma LagPersists(backlog: seq<Wire>, replies: seq<Wire>)
    requires forall i | 0 <= i < |backlog| :: WellFormed(backlog[i]) && FirstError(backlog[i]) == []
    requires forall i | 0 <= i < |replies| :: WellFormed(replies[i]) && FirstError(replies[i]) == []
    ensures var s := RunSession(EncodeAll(backlog), WholeReplies(replies));
            && (forall i | 0 <= i < |replies| :: s.outcomes[i] == Resolved(Denote((backlog + replies)[i])))
            && s.buffer == EncodeAll((backlog + replies)[|replies|..])
  {
    LaggedSession(backlog, replies);
  }

  lemma QueueMoves(backlog: seq<Wire>, own: Wire, queue: seq<Wire>)
    requires forall i | 0 <= i < |backlog| :: WellFormed(backlog[i]) && FirstError(backlog[i]) == []
    requires WellFormed(own) && FirstError(own) == [] && queue == (backlog + [own])[1..]
    ensures Deliver(EncodeAll(backlog), [Encode(own)])
         == Delivery(Resolved(Denote((backlog + [own])[0])), EncodeAll(queue), [])
  {
    if backlog == [] {
      LaggingEmpty(own);
    } else {
      assert [backlog[0]] + backlog[1..] == backlog && queue == backlog[1..] + [own];
      LaggingCommand(backlog[0], backlog[1..], own);
    }
  }

  lemma LaggingEmpty(own: Wire)
    requires WellFormed(own) && FirstError(own) == []
    ensures Deliver([], [Encode(own)]) == Delivery(Resolved(Denote(own)), [], [])
  {
    assert [] + Encode(own) == Encode(own) + [];
    ReadsFirstReply(own, []);
    assert [Encode(own)][1..] == [];
  }

  // ---------- The connection object ----------

  class RedisCommandConnection {
    var buffer: bytes

    constructor ()
      ensures buffer == []
    {
      buffer := [];
    }

    /** The recursive decoder, with the array loop over `currentOffset` and `values`. */
    method Parse(offset: Offset) returns (r: Parsed)
      ensures r == ParseAt(buffer, offset)
      decreases Ahead(buffer, offset)
    {
      if offset.NaNOffset? {
        return if IndexOfCrlf(buffer, 0) == -1 then NeedMore else Throw(UnsupportedPrefix(0));
      }
      if offset.pos >= |buffer| {
        return NeedMore;
      }
      var prefix := buffer[offset.pos];
      var lineEnd := IndexOfCrlf(buffer, offset.pos);
      if lineEnd == -1 {
        return NeedMore;
      }
      var line := HeaderLine(buffer, offset.pos, lineEnd);
      var nextOffset := lineEnd + 2;
      if prefix == PLUS {
        return Ok(Str(line), At(nextOffset));
      }
      if prefix == MINUS {
        return Throw(ErrorReply(line));
      }
      if prefix == COLON {
        return Ok(Number(ToNumber(line)), At(nextOffset));
      }
      if prefix == DOLLAR {
        return ParseBulk(buffer, nextOffset, ToNumber(line));
      }
      if prefix == STAR {
        var length := ArrayLength(ToNumber(line));
        var values: seq<Reply> := [];
        var currentOffset := At(nextOffset);
        var index := 0;
        while index < length
          invariant 0 <= index <= length
          invariant currentOffset.At? ==> nextOffset <= currentOffset.pos <= |buffer|
          invariant ParseItems(buffer, At(nextOffset), length)
                 == Prepend(values, ParseItems(buffer, currentOffset, length - index))
        {
          var parsed := Parse(currentOffset);
          if !parsed.Ok? {
            return parsed;
          }
          PrependAppend(values, parsed.value, ParseItems(buffer, parsed.offset, length - index - 1));
          values := values + [parsed.value];
          currentOffset := parsed.offset;
          index := index + 1;
        }
        return Ok(List(values), currentOffset);
      }
      return Throw(UnsupportedPrefix(prefix));
    }

    /** The `data` listener: append the chunk, re-parse from 0 and drop what was consumed. */
    method OnData(chunk: bytes) returns (outcome: Outcome)
      modifies this
      ensures var all := old(buffer) + chunk;
              outcome == OutcomeOf(ParseAt(all, At(0))) && buffer == Leftover(all, ParseAt(all, At(0)))
    {
      buffer := buffer + chunk;
      var parsed := Parse(At(0));
      if parsed.Ok? && parsed.offset.At? {
        buffer := buffer[parsed.offset.pos..];
      }
      outcome := OutcomeOf(parsed);
    }

    /** One command: chunks are consumed until the promise settles. */
    method Command(chunks: seq<bytes>) returns (outcome: Outcome, used: nat)
      modifies this
      ensures used <= |chunks|
      ensures Deliver(old(buffer), chunks) == Delivery(outcome, buffer, chunks[used..])
    {
      outcome, used := Pending, 0;
      while used < |chunks| && outcome == Pending
        invariant used <= |chunks|
        invariant outcome == Pending ==> Deliver(old(buffer), chunks) == Deliver(buffer, chunks[used..])
        invariant outcome != Pending ==> Deliver(old(buffer), chunks) == Delivery(outcome, buffer, chunks[used..])
      {
        outcome := OnData(chunks[used]);
        assert chunks[used..][1..] == chunks[used + 1..];
        used := used + 1;
      }
    }
  }

  lemma PrependAppend(values: seq<Reply>, v: Reply, r: Parsed)
    requires r.Ok? ==> r.value.List?
    ensures Prepend(values, Prepend([v], r)) == Prepend(values + [v], r)
  {
    if r.Ok? {
      assert values + ([v] + r.value.items) == values + [v] + r.value.items;
    }
  }
}
