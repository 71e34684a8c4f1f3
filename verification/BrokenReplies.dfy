/** What a reply that breaks off midway does to the next command. The bytes that arrived stay in
    the connection's buffer, and the next reply is parsed together with them. */
module BrokenReplies {
  import opened Bytes
  import opened Resp
  import opened RedisConnection
  import opened ThrottlerScript
  import opened ThrottlerStorage

  // ---------- A numeral that runs into an array header ----------

  lemma StarIsNaN(line: bytes, k: nat)
    requires k < |line| && line[k] == STAR
    ensures ToNumber(line) == NaN
  {
    assert !IsDigit(STAR);
    if k > 0 {
      assert line[1..][k - 1] == STAR;
    }
  }

  /** The bytes a numeral of `n` items runs into. */
  function NextHeader(n: nat): bytes { [STAR] + Utf8(IntText(n)) }

  predicate NoCr(text: bytes) { forall k | 0 <= k < |text| :: text[k] != CR }

  lemma NumeralHasNoCr(n: int)
    ensures NoCr(Utf8(IntText(n)))
  {
    IntTextRoundTrip(n);
  }

  lemma GluedLine(prefix: byte, text: bytes, q: bytes, n: nat)
    requires NoCr(text) && 0 < |q| < |Header(prefix, text)| && q == Header(prefix, text)[..|q|]
    ensures q + Header(STAR, Utf8(IntText(n))) == Header(prefix, q[1..] + NextHeader(n))
    ensures NoCrlf(q[1..] + NextHeader(n)) && ToNumber(q[1..] + NextHeader(n)) == NaN
  {
    NumeralHasNoCr(n);
    var line := q[1..] + NextHeader(n);
    assert line[|q| - 1] == STAR;
    StarIsNaN(line, |q| - 1);
    forall k | 0 <= k < |line|
      ensures line[k] != CR || (k + 1 < |line| && line[k + 1] != LF)
    {
      if k < |q| - 2 {
        assert line[k] == Header(prefix, text)[k + 1] == text[k];
      } else if k == |q| - 2 {
        assert line[k + 1] == STAR;
      } else if k > |q| - 1 {
        assert line[k] == Utf8(IntText(n))[k - |q|];
      }
    }
  }

  /** A numeral cut off in the middle and followed by an array is read as NaN, and the array's
      header is lost with it. */
  lemma CutNumberReadsNaN(b: bytes, at: nat, n: int, q: bytes, f: Wire)
    requires 0 < |q| < |Encode(Integer(n))| && q == Encode(Integer(n))[..|q|]
    requires f.Array? && Holds(b, at, q + Encode(f))
    ensures var next := at + |q| + |Header(STAR, Utf8(IntText(|f.items|)))|;
            && ParseAt(b, At(at)) == Ok(Number(NaN), At(next)) && Holds(b, next, EncodeAll(f.items))
  {
    var header, line := Header(STAR, Utf8(IntText(|f.items|))), q[1..] + NextHeader(|f.items|);
    NumeralHasNoCr(n);
    GluedLine(COLON, Utf8(IntText(n)), q, |f.items|);
    Assoc(q, header, EncodeAll(f.items));
    HoldsSplit(b, at, q + header, EncodeAll(f.items));
    NaNRead(b, at, line);
  }

  lemma NaNRead(b: bytes, at: nat, line: bytes)
    requires Holds(b, at, Header(COLON, line)) && NoCrlf(line) && ToNumber(line) == NaN
    ensures ParseAt(b, At(at)) == Ok(Number(NaN), At(at + |Header(COLON, line)|))
  {
    HeaderRead(b, at, COLON, line);
  }

  // ---------- Integers ----------

  predicate Integers(ws: seq<Wire>) { forall i | 0 <= i < |ws| :: ws[i].Integer? }

  // ---------- The command after a broken list ----------

  /** `p` is what had arrived of `e` when the socket broke. */
  predicate BrokenOff(p: bytes, e: bytes) { |p| < |e| && p == e[..|p|] }

  function HeaderOf(ws: seq<Wire>): bytes { Header(STAR, Utf8(IntText(|ws|))) }

  lemma HeaderFirst(prefix: byte, line: bytes, rest: bytes)
    requires NoCrlf(line) && prefix != CR
    ensures |line| + 3 <= |Header(prefix, line) + rest|
    ensures ParseAt(Header(prefix, line) + rest, At(0))
         == ParseBody(Header(prefix, line) + rest, prefix, line, |line| + 3)
  {
    HoldsHere(Header(prefix, line) + rest, Header(prefix, line), rest);
    HeaderRead(Header(prefix, line) + rest, 0, prefix, line);
  }

  lemma EmptyListRead(line: bytes, rest: bytes)
    requires NoCrlf(line) && ToNumber(line) == NaN
    ensures |line| + 3 <= |Header(STAR, line) + rest|
    ensures ParseAt(Header(STAR, line) + rest, At(0)) == Ok(List([]), At(|line| + 3))
  {
    HeaderFirst(STAR, line, rest);
    NaNListIsEmpty(Header(STAR, line) + rest, line, |line| + 3);
  }

  lemma NaNListIsEmpty(b: bytes, line: bytes, next: nat)
    requires next <= |b| && ToNumber(line) == NaN
    ensures ParseBody(b, STAR, line, next) == Ok(List([]), At(next))
  {
  }

  lemma GluedHeader(us: seq<Wire>, ws: seq<Wire>, p: bytes) returns (line: bytes)
    requires 0 < |p| < |HeaderOf(us)| && p == HeaderOf(us)[..|p|]
    ensures p + Encode(Array(ws)) == Header(STAR, line) + EncodeAll(ws)
    ensures NoCrlf(line) && ToNumber(line) == NaN && |line| + 3 == |p| + |HeaderOf(ws)|
  {
    line := p[1..] + NextHeader(|ws|);
    NumeralHasNoCr(|us|);
    GluedLine(STAR, Utf8(IntText(|us|)), p, |ws|);
    Assoc(p, HeaderOf(ws), EncodeAll(ws));
  }

  /** After a break within the header the list that follows is read as an empty one. */
  lemma BrokenHeaderRead(us: seq<Wire>, ws: seq<Wire>, p: bytes)
    requires 0 < |p| < |HeaderOf(us)| && p == HeaderOf(us)[..|p|]
    ensures ParseAt(p + Encode(Array(ws)), At(0)) == Ok(List([]), At(|p| + |HeaderOf(ws)|))
  {
    var line := GluedHeader(us, ws, p);
    EmptyListRead(line, EncodeAll(ws));
  }

  lemma IntegersAreFine(ws: seq<Wire>)
    requires Integers(ws)
    ensures WellFormed(Array(ws)) && FirstError(Array(ws)) == []
  {
    NoErrorsIn(ws);
  }

  lemma ListOpens(us: seq<Wire>, rest: bytes)
    ensures var buffer := HeaderOf(us) + rest;
            && Holds(buffer, |HeaderOf(us)|, rest) && |HeaderOf(us)| <= |buffer|
            && ParseAt(buffer, At(0)) == ParseItems(buffer, At(|HeaderOf(us)|), |us|)
  {
    HoldsHere(HeaderOf(us) + rest, HeaderOf(us), rest);
    NumeralRead(|us|);
    ArrayHeaderRead(HeaderOf(us) + rest, 0, Utf8(IntText(|us|)), |us|);
  }

  /** What is left of a broken list waits for more. */
  lemma BrokenListWaits(us: seq<Wire>, p: bytes)
    requires WellFormed(Array(us)) && FirstError(Array(us)) == [] && BrokenOff(p, Encode(Array(us)))
    ensures ParseAt(p, At(0)) == NeedMore
  {
    CutReplyNeedsMore(p, 0, Array(us));
  }

  function AnswerItems(a: Answer): seq<Wire> { AnswerWire(a).items }

  // ---------- Any buffer ----------

  predicate AllIntegers(v: Reply) {
    v.List? && forall i | 0 <= i < |v.items| :: v.items[i].Number? && v.items[i].num.Int?
  }

  /** A line that runs over the start of an array holds a star after its first byte. */
  lemma LineOverStar(b: bytes, at: nat, s: nat)
    requires at < s < |b| && b[s] == STAR
    ensures var e := IndexOfCrlf(b, at);
            e == -1 || e + 2 <= s || (at < e && ToNumber(HeaderLine(b, at, e)) == NaN)
  {
    IndexOfCrlfIsFirst(b, at);
    var e := IndexOfCrlf(b, at);
    if e != -1 && e + 2 > s {
      assert e != s - 1 && e != s;
      assert HeaderLine(b, at, e)[s - at - 1] == STAR;
      StarIsNaN(HeaderLine(b, at, e), s - at - 1);
    }
  }

  /** One value at `at`, when an array starts at `s`: an integer never reaches over its start. */
  lemma IntegerEndsBefore(b: bytes, at: nat, s: nat)
    requires at <= s < |b| && b[s] == STAR
    ensures var r := ParseAt(b, At(at));
            r.Ok? && r.value.Number? && r.value.num.Int? ==> r.offset.At? && r.offset.pos <= s
  {
    if at < s {
      LineOverStar(b, at, s);
    }
  }

  lemma FirstInteger(b: bytes, at: nat, n: nat)
    requires at <= |b| && n > 0 && ParseItems(b, At(at), n).Ok? && AllIntegers(ParseItems(b, At(at), n).value)
    ensures var first := ParseAt(b, At(at));
            && first.Ok? && first.value.Number? && first.value.num.Int?
            && (first.offset.At? ==>
                  var rest := ParseItems(b, first.offset, n - 1);
                  rest.Ok? && AllIntegers(rest.value) && rest.offset == ParseItems(b, At(at), n).offset)
  {
    var r, first := ParseItems(b, At(at), n), ParseAt(b, At(at));
    assert r.value.items[0] == first.value;
    if first.offset.At? {
      var rest := ParseItems(b, first.offset, n - 1);
      assert forall i | 0 <= i < n - 1 :: r.value.items[i + 1] == rest.value.items[i];
    }
  }

  lemma {:induction false} IntegersEndBefore(b: bytes, at: nat, n: nat, s: nat)
    requires at <= s < |b| && b[s] == STAR
    ensures var r := ParseItems(b, At(at), n);
            r.Ok? && AllIntegers(r.value) ==> r.offset.At? && r.offset.pos <= s
    decreases n
  {
    var r := ParseItems(b, At(at), n);
    if n > 0 && r.Ok? && AllIntegers(r.value) {
      FirstInteger(b, at, n);
      IntegerEndsBefore(b, at, s);
      IntegersEndBefore(b, ParseAt(b, At(at)).offset.pos, n - 1, s);
    }
  }

  /** A list of integers read at the start of the bytes ends before any array that starts later. */
  lemma IntegerListEndsBefore(b: bytes, s: nat)
    requires 0 < s < |b| && b[s] == STAR
    ensures var r := ParseAt(b, At(0));
            r.Ok? && AllIntegers(r.value) && r.value.items != [] ==> r.offset.At? && r.offset.pos <= s
  {
    LineOverStar(b, 0, s);
    var e := IndexOfCrlf(b, 0);
    if e != -1 && e + 2 <= s {
      IntegersEndBefore(b, e + 2, ArrayLength(ToNumber(HeaderLine(b, 0, e))), s);
    }
  }

  lemma AnswerOverBuffer(buffer: bytes, b: Answer)
    requires buffer != []
    ensures var all := buffer + Encode(AnswerWire(b));
            var p := ParseAt(all, At(0));
            p.Ok? && p.value == Denote(AnswerWire(b)) ==> Leftover(all, p) != []
  {
    var all := buffer + Encode(AnswerWire(b));
    assert Encode(AnswerWire(b))[0] == STAR && all[|buffer|] == STAR;
    AnswerValue(b);
    IntegerListEndsBefore(all, |buffer|);
  }

  /** Whatever a buffer holds, and however its answer is split, a command is told its own answer and
      leaves a clean connection behind if and only if it found one. */
  lemma CleanAnswerExactly(buffer: bytes, b: Answer, chunks: seq<bytes>)
    requires Flatten(chunks) == Encode(AnswerWire(b))
    ensures var d := Deliver(buffer, chunks);
            d.outcome == Resolved(Denote(AnswerWire(b))) && d.buffer == [] && Flatten(d.rest) == []
            <==> buffer == []
  {
    AnswerValue(b);
    if buffer == [] {
      ReplyDelivered(AnswerWire(b), chunks);
    } else {
      DeliveryDependsOnBytes(buffer, chunks);
      AnswerOverBuffer(buffer, b);
    }
  }

  // ---------- A list that breaks off within a number ----------

  /** The bytes of a list up to number i. */
  function UpTo(us: seq<Wire>, i: nat): bytes
    requires i <= |us|
  {
    HeaderOf(us) + EncodeAll(us[..i])
  }

  /** The bytes of a list of integers up to a place within number i: what precedes it and
      a part `q` of its own line. */
  function UpToNumber(us: seq<Wire>, i: nat, q: bytes): bytes
    requires i < |us|
  {
    UpTo(us, i) + q
  }

  predicate WithinNumber(us: seq<Wire>, i: nat, q: bytes) {
    Integers(us) && i < |us| && 0 < |q| && BrokenOff(q, Encode(us[i]))
  }

  lemma {:induction false} EncodeAllSplit(vs: seq<Wire>, ws: seq<Wire>)
    ensures EncodeAll(vs + ws) == EncodeAll(vs) + EncodeAll(ws)
  {
    if vs == [] {
      assert vs + ws == ws;
    } else {
      EncodeAllSplit(vs[1..], ws);
      assert (vs + ws)[1..] == vs[1..] + ws;
      Assoc(Encode(vs[0]), EncodeAll(vs[1..]), EncodeAll(ws));
    }
  }

  lemma EncodeAllFrom(us: seq<Wire>, i: nat)
    requires i < |us|
    ensures EncodeAll(us[i..]) == Encode(us[i]) + EncodeAll(us[i + 1..])
  {
    assert us[i..][0] == us[i] && us[i..][1..] == us[i + 1..];
  }

  lemma EncodeAllAround(us: seq<Wire>, i: nat)
    requires i < |us|
    ensures EncodeAll(us) == EncodeAll(us[..i]) + (Encode(us[i]) + EncodeAll(us[i + 1..]))
  {
    assert us == us[..i] + us[i..];
    EncodeAllSplit(us[..i], us[i..]);
    EncodeAllFrom(us, i);
  }

  lemma WithinNumberIsBrokenOff(us: seq<Wire>, i: nat, q: bytes)
    requires WithinNumber(us, i, q)
    ensures BrokenOff(UpToNumber(us, i, q), Encode(Array(us)))
  {
    var e, before := Encode(us[i]), EncodeAll(us[..i]);
    var tail := e[|q|..] + EncodeAll(us[i + 1..]);
    EncodeAllAround(us, i);
    assert e == q + e[|q|..];
    Assoc(q, e[|q|..], EncodeAll(us[i + 1..]));
    Assoc(before, q, tail);
    Assoc(HeaderOf(us), before + q, tail);
    Assoc(HeaderOf(us), before, q);
    assert Encode(Array(us)) == UpToNumber(us, i, q) + tail && |e[|q|..]| > 0;
  }

  lemma NextItem(b: bytes, at: nat, n: nat, v: Reply, next: nat)
    requires n > 0 && at <= |b| && ParseAt(b, At(at)) == Ok(v, At(next))
    ensures next <= |b| && ParseItems(b, At(at), n) == Prepend([v], ParseItems(b, At(next), n - 1))
  {
  }

  lemma {:induction false} IntegersPart(ws: seq<Wire>, i: nat)
    requires Integers(ws) && i <= |ws|
    ensures FirstErrorOf(ws[..i]) == [] && DenoteAll(ws[..i]) == DenoteAll(ws)[..i]
  {
    if i > 0 {
      IntegersPart(ws[1..], i - 1);
      assert ws[..i][1..] == ws[1..][..i - 1];
    }
  }

  /** The parser at `at` reads one value and stops at `next`. */
  predicate Reads(b: bytes, at: nat, v: Reply, next: nat) {
    at <= |b| && ParseAt(b, At(at)) == Ok(v, At(next))
  }

  /** Reading at `at` gives this list and stops at `end`. */
  predicate Listed(b: bytes, at: nat, values: seq<Reply>, end: nat) {
    at <= |b| && ParseItems(b, At(at), |values|) == Ok(List(values), At(end))
  }

  lemma ListedNext(b: bytes, at: nat, v: Reply, next: nat, rest: seq<Reply>, end: nat)
    requires Reads(b, at, v, next) && Listed(b, next, rest, end)
    ensures Listed(b, at, [v] + rest, end)
  {
    NextItem(b, at, |rest| + 1, v, next);
  }

  lemma FirstRead(b: bytes, at: nat, ws: seq<Wire>)
    requires ws != [] && AllStand(b, at, ws) && FirstErrorOf(ws) == []
    ensures Reads(b, at, Denote(ws[0]), at + |Encode(ws[0])|) && FirstErrorOf(ws[1..]) == []
    ensures AllStand(b, at + |Encode(ws[0])|, ws[1..])
  {
    RepliesSplit(b, at, ws);
    ReadsReply(b, at, ws[0]);
  }

  /** The list that comes out when list `ws` follows a part of `us` that ends within number i. */
  function Mixture(us: seq<Wire>, ws: seq<Wire>, i: nat): seq<Reply>
    requires i < |us| == |ws|
  {
    DenoteAll(us)[..i] + [Number(NaN)] + DenoteAll(ws)[..|ws| - 1 - i]
  }

  /** The first numbers of a list, `vs` of `vs + ts`. */
  lemma OwnNumbers(buffer: bytes, at: nat, vs: seq<Wire>, ts: seq<Wire>)
    requires Integers(vs) && Holds(buffer, at, EncodeAll(vs + ts))
    ensures Listed(buffer, at, DenoteAll(vs), at + |EncodeAll(vs)|)
  {
    EncodeAllSplit(vs, ts);
    HoldsSplit(buffer, at, EncodeAll(vs), EncodeAll(ts));
    NoErrorsIn(vs);
    ReadsReplies(buffer, at, vs);
  }

  /** A number `u` cut off to `q`. */
  predicate CutNumber(u: Wire, q: bytes) { u.Integer? && 0 < |q| && BrokenOff(q, Encode(u)) }

  /** Where the numbers `vs` of the list that follows the cut one end. */
  function CutEnd(at: nat, q: bytes, vs: seq<Wire>, ts: seq<Wire>): nat {
    at + |q| + |HeaderOf(vs + ts)| + |EncodeAll(vs)|
  }

  /** The NaN and what follows it: the first numbers of the next list. */
  lemma AfterTheBreak(buffer: bytes, at: nat, u: Wire, q: bytes, vs: seq<Wire>, ts: seq<Wire>)
    requires CutNumber(u, q) && Integers(vs) && Holds(buffer, at, q + Encode(Array(vs + ts)))
    ensures Listed(buffer, at, [Number(NaN)] + DenoteAll(vs), CutEnd(at, q, vs, ts))
  {
    var next := at + |q| + |HeaderOf(vs + ts)|;
    CutNumberReadsNaN(buffer, at, u.n, q, Array(vs + ts));
    OwnNumbers(buffer, next, vs, ts);
    ListedNext(buffer, at, Number(NaN), next, DenoteAll(vs), CutEnd(at, q, vs, ts));
  }

  /** Reading the numbers before a cut and then what follows it. */
  lemma {:induction false} BeforeTheBreak(
      buffer: bytes, at: nat, vs: seq<Wire>, mid: nat, after: seq<Reply>, end: nat)
    requires AllStand(buffer, at, vs) && FirstErrorOf(vs) == [] && mid == at + |EncodeAll(vs)|
    requires Listed(buffer, mid, after, end)
    ensures Listed(buffer, at, DenoteAll(vs) + after, end)
    decreases vs
  {
    if vs == [] {
      assert DenoteAll(vs) + after == after;
    } else {
      var next, rest := at + |Encode(vs[0])|, DenoteAll(vs[1..]) + after;
      FirstRead(buffer, at, vs);
      BeforeTheBreak(buffer, next, vs[1..], mid, after, end);
      ListedNext(buffer, at, Denote(vs[0]), next, rest, end);
      assert [Denote(vs[0])] + rest == DenoteAll(vs) + after;
    }
  }

  lemma AcrossTheBreak(buffer: bytes, at: nat, us: seq<Wire>, u: Wire, q: bytes, vs: seq<Wire>, ts: seq<Wire>)
    requires Integers(us) && CutNumber(u, q) && Integers(vs)
    requires Holds(buffer, at, EncodeAll(us) + (q + Encode(Array(vs + ts))))
    ensures ParseItems(buffer, At(at), |us| + 1 + |vs|)
         == Ok(List(DenoteAll(us) + ([Number(NaN)] + DenoteAll(vs))), At(CutEnd(at + |EncodeAll(us)|, q, vs, ts)))
  {
    var mid := at + |EncodeAll(us)|;
    HoldsSplit(buffer, at, EncodeAll(us), q + Encode(Array(vs + ts)));
    AfterTheBreak(buffer, mid, u, q, vs, ts);
    NoErrorsIn(us);
    BeforeTheBreak(buffer, at, us, mid, [Number(NaN)] + DenoteAll(vs), CutEnd(mid, q, vs, ts));
  }

  /** How much of the buffer the mixture takes. */
  function MixtureLength(us: seq<Wire>, ws: seq<Wire>, i: nat, q: bytes): nat
    requires i < |us| == |ws|
  {
    |UpToNumber(us, i, q)| + |HeaderOf(ws)| + |EncodeAll(ws[..|ws| - 1 - i])|
  }

  lemma FourParts(a: bytes, b: bytes, c: bytes, d: bytes)
    ensures a + b + c + d == a + (b + (c + d))
  {
  }

  /** The same with the slices named: `pre` and `u` are the numbers up to the break, `vs` and `ts` the
      two parts of the next list. */
  predicate MixtureParts(us: seq<Wire>, ws: seq<Wire>, i: nat, pre: seq<Wire>, vs: seq<Wire>, ts: seq<Wire>) {
    && i < |us| == |ws| && pre == us[..i] && ws == vs + ts && |vs| == |ws| - 1 - i
    && Integers(us) && Integers(ws) && Integers(pre) && Integers(vs)
  }

  lemma PartsNamed(us: seq<Wire>, ws: seq<Wire>, i: nat)
    requires i < |us| == |ws| && Integers(us) && Integers(ws)
    ensures MixtureParts(us, ws, i, us[..i], ws[..|ws| - 1 - i], ws[|ws| - 1 - i..])
  {
    assert ws == ws[..|ws| - 1 - i] + ws[|ws| - 1 - i..];
  }

  lemma MixtureEnds(us: seq<Wire>, ws: seq<Wire>, i: nat, q: bytes, pre: seq<Wire>, vs: seq<Wire>, ts: seq<Wire>)
    requires MixtureParts(us, ws, i, pre, vs, ts)
    ensures CutEnd(|HeaderOf(us)| + |EncodeAll(pre)|, q, vs, ts) == MixtureLength(us, ws, i, q)
    ensures DenoteAll(pre) + ([Number(NaN)] + DenoteAll(vs)) == Mixture(us, ws, i)
  {
    assert ws[..|ws| - 1 - i] == vs;
    IntegersPart(us, i);
    IntegersPart(ws, |vs|);
  }

  /** The buffer opens with the header of a list of n items, which start at `at`. */
  predicate Opens(buffer: bytes, at: nat, n: nat) {
    at <= |buffer| && ParseAt(buffer, At(0)) == ParseItems(buffer, At(at), n)
  }

  lemma MixtureRead(buffer: bytes, at: nat, n: nat, u: Wire, q: bytes, pre: seq<Wire>, vs: seq<Wire>, ts: seq<Wire>)
    requires CutNumber(u, q) && Integers(pre) && Integers(vs) && n == |pre| + 1 + |vs| && Opens(buffer, at, n)
    requires Holds(buffer, at, EncodeAll(pre) + (q + Encode(Array(vs + ts))))
    ensures ParseAt(buffer, At(0))
         == Ok(List(DenoteAll(pre) + ([Number(NaN)] + DenoteAll(vs))), At(CutEnd(at + |EncodeAll(pre)|, q, vs, ts)))
  {
    AcrossTheBreak(buffer, at, pre, u, q, vs, ts);
  }

  lemma MixtureParsed(us: seq<Wire>, ws: seq<Wire>, i: nat, q: bytes)
    requires WithinNumber(us, i, q) && Integers(ws) && |us| == |ws|
    ensures ParseAt(UpToNumber(us, i, q) + Encode(Array(ws)), At(0))
         == Ok(List(Mixture(us, ws, i)), At(MixtureLength(us, ws, i, q)))
  {
    var rest := EncodeAll(us[..i]) + (q + Encode(Array(ws)));
    var m := |ws| - 1 - i;
    FourParts(HeaderOf(us), EncodeAll(us[..i]), q, Encode(Array(ws)));
    PartsNamed(us, ws, i);
    MixtureEnds(us, ws, i, q, us[..i], ws[..m], ws[m..]);
    ListOpens(us, rest);
    MixtureRead(HeaderOf(us) + rest, |HeaderOf(us)|, |us|, us[i], q, us[..i], ws[..m], ws[m..]);
  }

  lemma MixtureLeft(us: seq<Wire>, ws: seq<Wire>, i: nat, q: bytes)
    requires i < |us| == |ws|
    ensures var buffer, n := UpToNumber(us, i, q) + Encode(Array(ws)), MixtureLength(us, ws, i, q);
            n <= |buffer| && buffer[n..] == EncodeAll(ws[|ws| - 1 - i..])
  {
    var m := |ws| - 1 - i;
    EncodeAllSplit(ws[..m], ws[m..]);
    assert ws == ws[..m] + ws[m..];
    Assoc(HeaderOf(ws), EncodeAll(ws[..m]), EncodeAll(ws[m..]));
    var own := HeaderOf(ws) + EncodeAll(ws[..m]);
    Assoc(UpToNumber(us, i, q), own, EncodeAll(ws[m..]));
    TailAfter(UpToNumber(us, i, q) + own, EncodeAll(ws[m..]));
  }

  lemma MixedList(us: seq<Wire>, ws: seq<Wire>, i: nat, q: bytes, chunks: seq<bytes>)
    requires WithinNumber(us, i, q) && Integers(ws) && |us| == |ws| && Flatten(chunks) == Encode(Array(ws))
    ensures var d := Deliver(UpToNumber(us, i, q), chunks);
            && d.outcome == Resolved(List(Mixture(us, ws, i)))
            && d.buffer + Flatten(d.rest) == EncodeAll(ws[|ws| - 1 - i..])
  {
    WithinNumberIsBrokenOff(us, i, q);
    IntegersAreFine(us);
    BrokenListWaits(us, UpToNumber(us, i, q));
    DeliveryDependsOnBytes(UpToNumber(us, i, q), chunks);
    MixtureParsed(us, ws, i, q);
    MixtureLeft(us, ws, i, q);
  }

  /** The command after an answer that broke off within number i resolves with a mixture: the
      numbers before i are those of the broken answer, number i is NaN, then come the first numbers
      of its own answer, and the rest of its own answer stays behind in the buffer. */
  lemma MixedAnswer(a: Answer, b: Answer, i: nat, q: bytes, chunks: seq<bytes>)
    requires WithinNumber(AnswerItems(a), i, q) && Flatten(chunks) == Encode(AnswerWire(b))
    ensures var d := Deliver(UpToNumber(AnswerItems(a), i, q), chunks);
            && d.outcome == Resolved(List(Mixture(AnswerItems(a), AnswerItems(b), i)))
            && d.buffer + Flatten(d.rest) == EncodeAll(AnswerItems(b)[3 - i..])
  {
    MixedList(AnswerItems(a), AnswerItems(b), i, q, chunks);
  }

  /** The flag the guard then reads: number 2 of the mixture. */
  function FlagAfterBreak(a: Answer, b: Answer, i: nat): Num {
    if i == 0 then Int(b.hitTtl) else if i == 1 then Int(b.hits) else if i == 2 then NaN
    else Int(if a.blocked then 1 else 0)
  }

  /** What the guard then decides. A break within the third number admits the request even when the
      script blocked it; one within the first number refuses every request the script admitted,
      because a time to live stands where the flag should; one within the second refuses whoever
      has a live hit count; one within the fourth repeats the earlier decision. */
  lemma MixedDecision(a: Answer, b: Answer, i: nat, q: bytes, chunks: seq<bytes>, lim: Limits)
    requires WithinNumber(AnswerItems(a), i, q) && Flatten(chunks) == Encode(AnswerWire(b))
    ensures var result := ToRecord(Deliver(UpToNumber(AnswerItems(a), i, q), chunks).outcome, lim);
            && result.Done?
            && (result.record.isBlocked <==> FlagAfterBreak(a, b, i) != Int(0) && FlagAfterBreak(a, b, i) != NaN)
  {
    MixedAnswer(a, b, i, q, chunks);
    MixedFlag(a, b, i);
    RecordOfList(Deliver(UpToNumber(AnswerItems(a), i, q), chunks).outcome,
                 Mixture(AnswerItems(a), AnswerItems(b), i), FlagAfterBreak(a, b, i), lim);
  }

  lemma MixedFlag(a: Answer, b: Answer, i: nat)
    requires i < 4
    ensures |Mixture(AnswerItems(a), AnswerItems(b), i)| == 4
    ensures Mixture(AnswerItems(a), AnswerItems(b), i)[2] == Number(FlagAfterBreak(a, b, i))
  {
    AnswerValue(a);
    AnswerValue(b);
  }

  lemma RecordOfList(o: Outcome, items: seq<Reply>, flag: Num, lim: Limits)
    requires o == Resolved(List(items)) && |items| == 4 && items[2] == Number(flag)
    ensures ToRecord(o, lim).Done?
    ensures ToRecord(o, lim).record.isBlocked <==> flag != Int(0) && flag != NaN
  {
  }

  // ---------- A list that breaks off between two numbers ----------

  predicate Fine(w: Wire) { WellFormed(w) && FirstError(w) == [] }

  /** The list with a reply in the place of number i. */
  function Filled(us: seq<Wire>, i: nat, next: Wire): seq<Wire>
    requires i < |us|
  {
    us[..i] + [next] + us[i + 1..]
  }

  lemma FilledIsFine(us: seq<Wire>, i: nat, next: Wire)
    requires Integers(us) && i < |us| && Fine(next)
    ensures Fine(Array(Filled(us, i, next)))
  {
    var ws := Filled(us, i, next);
    forall k | 0 <= k < |ws|
      ensures Fine(ws[k])
    {
    }
    NoErrorsIn(ws);
  }

  /** What arrives after a break before number i takes the place of that number. */
  lemma NextFillsPlace(us: seq<Wire>, i: nat, next: Wire)
    requires i < |us|
    ensures UpTo(us, i) + Encode(next) == UpTo(Filled(us, i, next), i + 1)
  {
    assert Filled(us, i, next)[..i + 1] == us[..i] + [next];
    EncodeAllAppend(us[..i], next);
    Assoc(HeaderOf(us), EncodeAll(us[..i]), Encode(next));
  }

  lemma UpToSplits(us: seq<Wire>, i: nat)
    requires i <= |us|
    ensures Encode(Array(us)) == UpTo(us, i) + EncodeAll(us[i..])
    ensures i < |us| ==> BrokenOff(UpTo(us, i), Encode(Array(us)))
  {
    assert us == us[..i] + us[i..];
    EncodeAllSplit(us[..i], us[i..]);
    Assoc(HeaderOf(us), EncodeAll(us[..i]), EncodeAll(us[i..]));
    if i < |us| {
      EncodeAllFrom(us, i);
      SomeBytes(us[i]);
    }
  }

  lemma SomeBytes(w: Wire)
    ensures Encode(w) != []
  {
  }

  lemma FilledWaits(us: seq<Wire>, i: nat, next: Wire)
    requires Integers(us) && i + 1 < |us| && Fine(next)
    ensures ParseAt(UpTo(us, i) + Encode(next), At(0)) == NeedMore
  {
    NextFillsPlace(us, i, next);
    FilledIsFine(us, i, next);
    UpToSplits(Filled(us, i, next), i + 1);
    BrokenListWaits(Filled(us, i, next), UpTo(Filled(us, i, next), i + 1));
  }

  /** The list of a reply whose last number was lost and the reply that took its place. */
  function Patched(us: seq<Wire>, next: Wire): seq<Reply>
    requires us != []
  {
    DenoteAll(us)[..|us| - 1] + [Denote(next)]
  }

  lemma PatchedIsFilled(us: seq<Wire>, next: Wire)
    requires us != []
    ensures DenoteAll(Filled(us, |us| - 1, next)) == Patched(us, next)
  {
    var ws := Filled(us, |us| - 1, next);
    forall k | 0 <= k < |us|
      ensures DenoteAll(ws)[k] == Patched(us, next)[k]
    {
      DenoteAllAt(ws, k);
      DenoteAllAt(us, k);
    }
  }

  lemma FilledParsed(us: seq<Wire>, next: Wire)
    requires Integers(us) && us != [] && Fine(next)
    ensures var all := UpTo(us, |us| - 1) + Encode(next);
            ParseAt(all, At(0)) == Ok(List(Patched(us, next)), At(|all|))
  {
    var ws := Filled(us, |us| - 1, next);
    NextFillsPlace(us, |us| - 1, next);
    FilledIsFine(us, |us| - 1, next);
    UpToSplits(ws, |us|);
    assert ws[|us|..] == [] && EncodeAll(ws[|us|..]) == [];
    assert Encode(Array(ws)) + [] == UpTo(ws, |us|);
    ReadsFirstReply(Array(ws), []);
    PatchedIsFilled(us, next);
  }

  // ---------- Every break ----------

  /** Where an answer breaks off: within its header, right before number i, or within number i. */
  datatype Break = InHeader(cut: nat) | BeforeNumber(i: nat) | InNumber(i: nat, q: bytes)

  predicate IsBreak(us: seq<Wire>, br: Break) {
    match br
    case InHeader(cut) => 0 < cut < |HeaderOf(us)|
    case BeforeNumber(i) => i < |us|
    case InNumber(i, q) => WithinNumber(us, i, q)
  }

  /** What has arrived by then. */
  function Kept(us: seq<Wire>, br: Break): bytes
    requires IsBreak(us, br)
  {
    match br
    case InHeader(cut) => HeaderOf(us)[..cut]
    case BeforeNumber(i) => UpTo(us, i)
    case InNumber(i, q) => UpToNumber(us, i, q)
  }

  /** Which number a stretch of numbers breaks off in. */
  lemma {:induction false} BrokenNumber(us: seq<Wire>, p: bytes) returns (i: nat, q: bytes)
    requires BrokenOff(p, EncodeAll(us))
    ensures i < |us| && p == EncodeAll(us[..i]) + q && BrokenOff(q, Encode(us[i]))
    decreases us
  {
    var first := Encode(us[0]);
    if |p| < |first| {
      i, q := 0, p;
    } else {
      var rest := p[|first|..];
      assert p == first + rest && rest == EncodeAll(us[1..])[..|rest|];
      i, q := BrokenNumber(us[1..], rest);
      assert us[..i + 1][1..] == us[1..][..i];
      Assoc(first, EncodeAll(us[1..][..i]), q);
      i := i + 1;
    }
  }

  /** Every strict part of an answer is one of these. */
  lemma EveryBreak(us: seq<Wire>, p: bytes) returns (br: Break)
    requires Integers(us) && BrokenOff(p, Encode(Array(us))) && p != []
    ensures IsBreak(us, br) && Kept(us, br) == p
  {
    var header := HeaderOf(us);
    if |p| < |header| {
      br := InHeader(|p|);
    } else {
      var rest := p[|header|..];
      assert p == header + rest && rest == EncodeAll(us)[..|rest|];
      var i, q := BrokenNumber(us, rest);
      Assoc(header, EncodeAll(us[..i]), q);
      if q == [] {
        assert rest == EncodeAll(us[..i]);
        br := BeforeNumber(i);
      } else {
        br := InNumber(i, q);
      }
    }
  }

  /** What the next command is told, its own answer `b` arriving in full after a break of `a`. */
  function ToldAfter(a: Answer, b: Answer, br: Break): Outcome
    requires IsBreak(AnswerItems(a), br)
  {
    match br
    case InHeader(_) => Resolved(List([]))
    case BeforeNumber(i) =>
      if i < 3 then Pending else Resolved(List(Patched(AnswerItems(a), AnswerWire(b))))
    case InNumber(i, _) => Resolved(List(Mixture(AnswerItems(a), AnswerItems(b), i)))
  }

  /** What is then left behind. */
  function LeftAfter(a: Answer, b: Answer, br: Break): bytes
    requires IsBreak(AnswerItems(a), br)
  {
    match br
    case InHeader(_) => EncodeAll(AnswerItems(b))
    case BeforeNumber(i) => if i < 3 then UpTo(AnswerItems(a), i) + Encode(AnswerWire(b)) else []
    case InNumber(i, _) => EncodeAll(AnswerItems(b)[3 - i..])
  }

  lemma KeptIsBrokenOff(us: seq<Wire>, br: Break)
    requires Integers(us) && IsBreak(us, br)
    ensures BrokenOff(Kept(us, br), Encode(Array(us))) && Kept(us, br) != []
  {
    match br
    case InHeader(cut) =>
    case BeforeNumber(i) => UpToSplits(us, i);
    case InNumber(i, q) => WithinNumberIsBrokenOff(us, i, q);
  }

  lemma HeaderBreakTold(us: seq<Wire>, ws: seq<Wire>, p: bytes)
    requires 0 < |p| < |HeaderOf(us)| && p == HeaderOf(us)[..|p|]
    ensures var all := p + Encode(Array(ws));
            var r := ParseAt(all, At(0));
            OutcomeOf(r) == Resolved(List([])) && Leftover(all, r) == EncodeAll(ws)
  {
    BrokenHeaderRead(us, ws, p);
    Assoc(p, HeaderOf(ws), EncodeAll(ws));
    TailAfter(p + HeaderOf(ws), EncodeAll(ws));
  }

  lemma BetweenTold(a: Answer, b: Answer, i: nat)
    requires i < 4
    ensures var all := UpTo(AnswerItems(a), i) + Encode(AnswerWire(b));
            var r := ParseAt(all, At(0));
            && OutcomeOf(r) == ToldAfter(a, b, BeforeNumber(i))
            && Leftover(all, r) == LeftAfter(a, b, BeforeNumber(i))
  {
    AnswerValue(b);
    if i < 3 {
      FilledWaits(AnswerItems(a), i, AnswerWire(b));
    } else {
      FilledParsed(AnswerItems(a), AnswerWire(b));
    }
  }

  /** After every kind of break: a part of the header makes the next answer an empty list and leaves
      its numbers behind; a break right before one of the first three numbers leaves the command
      waiting; one right before the last number puts the next answer in its place and leaves
      nothing; one within a number gives the mixture. */
  lemma BreakAnswer(a: Answer, b: Answer, br: Break, chunks: seq<bytes>)
    requires IsBreak(AnswerItems(a), br) && Flatten(chunks) == Encode(AnswerWire(b))
    ensures var d := Deliver(Kept(AnswerItems(a), br), chunks);
            d.outcome == ToldAfter(a, b, br) && d.buffer + Flatten(d.rest) == LeftAfter(a, b, br)
  {
    var us := AnswerItems(a);
    AnswerValue(a);
    KeptIsBrokenOff(us, br);
    BrokenListWaits(us, Kept(us, br));
    DeliveryDependsOnBytes(Kept(us, br), chunks);
    match br
    case InHeader(_) => HeaderBreakTold(us, AnswerItems(b), Kept(us, br));
    case BeforeNumber(i) => BetweenTold(a, b, i);
    case InNumber(i, q) => MixedAnswer(a, b, i, q, chunks);
  }

  /** What the guard decides after every kind of break. A break within the header admits the request,
      whatever the script decided; so does one within the third number. One within the first number
      refuses every request, because a time to live stands where the flag should; one within the
      second refuses whoever has a live hit count; one within or right before the fourth repeats the
      earlier decision; one right before any other number leaves the request waiting. */
  lemma BreakDecision(a: Answer, b: Answer, br: Break, chunks: seq<bytes>, lim: Limits)
    requires IsBreak(AnswerItems(a), br) && Flatten(chunks) == Encode(AnswerWire(b))
    ensures var result := ToRecord(Deliver(Kept(AnswerItems(a), br), chunks).outcome, lim);
            match br
            case InHeader(_) => result == Done(FailOpen(lim))
            case BeforeNumber(i) =>
              if i < 3 then result == Waiting else result.Done? && (result.record.isBlocked <==> a.blocked)
            case InNumber(i, _) =>
              && result.Done?
              && (result.record.isBlocked <==> FlagAfterBreak(a, b, i) != Int(0) && FlagAfterBreak(a, b, i) != NaN)
  {
    BreakAnswer(a, b, br, chunks);
    match br
    case InHeader(_) =>
    case BeforeNumber(i) =>
      if i == 3 {
        AnswerValue(a);
        RecordOfList(ToldAfter(a, b, br), Patched(AnswerItems(a), AnswerWire(b)),
                     Int(if a.blocked then 1 else 0), lim);
      }
    case InNumber(i, q) => MixedDecision(a, b, i, q, chunks, lim);
  }

  lemma NotOwnAnswer(a: Answer, b: Answer, br: Break)
    requires IsBreak(AnswerItems(a), br)
    ensures ToldAfter(a, b, br) != Resolved(Denote(AnswerWire(b)))
  {
    AnswerValue(a);
    AnswerValue(b);
    match br
    case InHeader(_) =>
    case BeforeNumber(i) =>
      if i == 3 {
        assert Patched(AnswerItems(a), AnswerWire(b))[3].List?;
      }
    case InNumber(i, _) =>
      assert Mixture(AnswerItems(a), AnswerItems(b), i)[i] == Number(NaN);
  }

  /** Exactly when a command is told its own answer: `p` is what a broken reply left in the buffer,
      and the command's answer then arrives in full, however it is split. The command resolves with
      that answer if and only if nothing was left. */
  lemma OwnAnswerExactly(a: Answer, b: Answer, p: bytes, chunks: seq<bytes>)
    requires BrokenOff(p, Encode(AnswerWire(a))) && Flatten(chunks) == Encode(AnswerWire(b))
    ensures Deliver(p, chunks).outcome == Resolved(Denote(AnswerWire(b))) <==> p == []
  {
    if p == [] {
      AnswerValue(b);
      ReplyDelivered(AnswerWire(b), chunks);
    } else {
      var br := EveryBreak(AnswerItems(a), p);
      BreakAnswer(a, b, br, chunks);
      NotOwnAnswer(a, b, br);
    }
  }

  /** A lag can heal when a reply arrives in pieces. A connection holds the whole answer `a`; the next
      command is told `a` as soon as answer `b` begins to arrive, and the last number of `b` finds
      nobody listening. The command after that is told `b` with answer `c` in the place of its last
      number, and the buffer is empty again. */
  lemma LagCanHeal(a: Answer, b: Answer, c: Answer)
    ensures var first := [UpTo(AnswerItems(b), 3), Encode(AnswerItems(b)[3])];
            && Flatten(first) == Encode(AnswerWire(b))
            && RunSession(Encode(AnswerWire(a)), [first, [Encode(AnswerWire(c))]])
               == Session([Resolved(Denote(AnswerWire(a))), ToldAfter(b, c, BeforeNumber(3))], [])
  {
    var part, last, own := UpTo(AnswerItems(b), 3), Encode(AnswerItems(b)[3]), Encode(AnswerWire(c));
    LastNumberApart(b);
    AnswerValue(a);
    ReadsFirstReply(AnswerWire(a), part);
    TailAfter(Encode(AnswerWire(a)), part);
    var d := Deliver(Encode(AnswerWire(a)), [part, last]);
    assert d.outcome == Resolved(Denote(AnswerWire(a))) && d.buffer == part;
    assert Flatten([own]) == own && [own][1..] == [];
    BreakAnswer(b, c, BeforeNumber(3), [own]);
    var e := Deliver(part, [own]);
    assert e.outcome == ToldAfter(b, c, BeforeNumber(3)) && e.buffer == [];
    TwoCommands(Encode(AnswerWire(a)), [part, last], [own]);
  }

  lemma LastNumberApart(b: Answer)
    ensures Flatten([UpTo(AnswerItems(b), 3), Encode(AnswerItems(b)[3])]) == Encode(AnswerWire(b))
  {
    var part, last := UpTo(AnswerItems(b), 3), Encode(AnswerItems(b)[3]);
    UpToSplits(AnswerItems(b), 3);
    assert AnswerItems(b)[3..] == [AnswerItems(b)[3]];
    assert [AnswerItems(b)[3]][1..] == [] && EncodeAll([AnswerItems(b)[3]]) == last;
    assert [part, last][1..] == [last] && [last][1..] == [];
    assert Flatten([last]) == last;
  }

  lemma TwoCommands(buffer: bytes, first: seq<bytes>, second: seq<bytes>)
    ensures var d := Deliver(buffer, first);
            var e := Deliver(d.buffer, second);
            RunSession(buffer, [first, second]) == Session([d.outcome, e.outcome], e.buffer)
  {
    var d := Deliver(buffer, first);
    var e := Deliver(d.buffer, second);
    assert [first, second][1..] == [second] && [second][1..] == [];
    assert RunSession(d.buffer, [second]) == Session([e.outcome], e.buffer);
  }
}
