/** The Redis serialization protocol (RESP2) as the rate limiter's client reads and writes it. */
module Resp {
  import opened Bytes

  // ---------- Commands ----------

  /** An element of the `Array<string | number>` a command is built from. */
  datatype Arg = Text(text: string) | Whole(value: int)

  function Stringify(a: Arg): string {
    match a
    case Text(s) => s
    case Whole(n) => IntText(n)
  }

  function SerializeArg(a: Arg): string {
    "$" + NatText(|Utf8(Stringify(a))|) + "\r\n" + Stringify(a) + "\r\n"
  }

  function SerializeArgs(args: seq<Arg>): string {
    if args == [] then "" else SerializeArg(args[0]) + SerializeArgs(args[1..])
  }

  /** The text a command is written as; the socket sends its UTF-8 encoding. */
  function Serialize(args: seq<Arg>): string {
    "*" + NatText(|args|) + "\r\n" + SerializeArgs(args)
  }

  // ---------- Replies ----------

  datatype Reply =
    | Str(text: bytes)
    | Number(num: Num)
    | Null
    | List(items: seq<Reply>)

  /** A position in the buffer. A bulk header that is not a numeral makes the position NaN. */
  datatype Offset = At(pos: nat) | NaNOffset

  datatype Failure =
    | ErrorReply(line: bytes)
    | UnsupportedPrefix(prefix: byte)

  /** What one call of the parser gives: more bytes needed, a value and the offset after it, or
      an exception. `Backward` marks a bulk length below -1, where the model stops. */
  datatype Parsed =
    | NeedMore
    | Ok(value: Reply, offset: Offset)
    | Throw(failure: Failure)
    | Backward

  predicate CrlfAt(b: bytes, k: int) {
    0 <= k && k + 1 < |b| && b[k] == CR && b[k + 1] == LF
  }

  /** The first CRLF at or after `from`, or -1. */
  function IndexOfCrlf(b: bytes, from: nat): (i: int)
    ensures i == -1 || from <= i <= |b| - 2
    decreases |b| - from
  {
    if from + 1 >= |b| then -1
    else if CrlfAt(b, from) then from
    else IndexOfCrlf(b, from + 1)
  }

  lemma {:induction false} IndexOfCrlfIsFirst(b: bytes, from: nat)
    ensures var i := IndexOfCrlf(b, from);
            && (i != -1 ==> CrlfAt(b, i))
            && forall k | from <= k && (i == -1 || k < i) :: !CrlfAt(b, k)
    decreases |b| - from
  {
    if from + 1 < |b| && !CrlfAt(b, from) {
      IndexOfCrlfIsFirst(b, from + 1);
    }
  }

  /** Bytes still ahead of an offset. */
  function Ahead(b: bytes, off: Offset): nat {
    if off.At? && off.pos < |b| then |b| - off.pos else 0
  }

  const PLUS: byte := 43
  const MINUS: byte := 45
  const COLON: byte := 58
  const DOLLAR: byte := 36
  const STAR: byte := 42

  /** One reply at `off`. Every success moves the offset forward and stays inside the buffer. */
  function ParseAt(b: bytes, off: Offset): (r: Parsed)
    ensures r.Ok? ==> off.At? && off.pos < |b|
    ensures r.Ok? && r.offset.At? ==> off.pos < r.offset.pos <= |b|
    decreases Ahead(b, off), 0, 0
  {
    if off.NaNOffset? then
      if IndexOfCrlf(b, 0) == -1 then NeedMore else Throw(UnsupportedPrefix(0))
    else if off.pos >= |b| then NeedMore
    else
      var lineEnd := IndexOfCrlf(b, off.pos);
      if lineEnd == -1 then NeedMore
      else ParseBody(b, b[off.pos], HeaderLine(b, off.pos, lineEnd), lineEnd + 2)
  }

  /** `toString('utf8', offset + 1, lineEnd)`: empty when the line ends at its own prefix. */
  function HeaderLine(b: bytes, at: nat, lineEnd: nat): bytes
    requires at <= lineEnd <= |b|
  {
    if lineEnd > at then b[at + 1..lineEnd] else []
  }

  /** The rest of a reply whose header line ends at `next`. */
  function ParseBody(b: bytes, prefix: byte, line: bytes, next: nat): (r: Parsed)
    requires next <= |b|
    ensures r.Ok? && r.offset.At? ==> next <= r.offset.pos <= |b|
    decreases |b| - next, 2, 0
  {
    if prefix == PLUS then Ok(Str(line), At(next))
    else if prefix == MINUS then Throw(ErrorReply(line))
    else if prefix == COLON then Ok(Number(ToNumber(line)), At(next))
    else if prefix == DOLLAR then ParseBulk(b, next, ToNumber(line))
    else if prefix == STAR then ParseItems(b, At(next), ArrayLength(ToNumber(line)))
    else Throw(UnsupportedPrefix(prefix))
  }

  /** The rest of a bulk string whose header ends at `next`. */
  function ParseBulk(b: bytes, next: nat, length: Num): (r: Parsed)
    requires next <= |b|
    ensures r.Ok? && r.offset.At? ==> next <= r.offset.pos <= |b|
  {
    match length
    case NaN => Ok(Str([]), NaNOffset)
    case Int(n) =>
      if n == -1 then Ok(Null, At(next))
      else if n < -1 then Backward
      else if |b| < next + n + 2 then NeedMore
      else Ok(Str(b[next..next + n]), At(next + n + 2))
  }

  /** How often the array loop runs. */
  function ArrayLength(length: Num): nat {
    if length.Int? && length.n > 0 then length.n else 0
  }

  /** `n` replies in a row, collected in a list. */
  function ParseItems(b: bytes, off: Offset, n: nat): (r: Parsed)
    requires off.At? ==> off.pos <= |b|
    ensures r.Ok? ==> r.value.List? && |r.value.items| == n
    ensures r.Ok? && r.offset.At? ==> off.At? && off.pos <= r.offset.pos <= |b|
    decreases Ahead(b, off), 1, n
  {
    if n == 0 then Ok(List([]), off)
    else
      var first := ParseAt(b, off);
      if !first.Ok? then first else Prepend([first.value], ParseItems(b, first.offset, n - 1))
  }

  function Prepend(values: seq<Reply>, r: Parsed): (s: Parsed)
    requires r.Ok? ==> r.value.List?
    ensures s.Ok? ==> s.value.List?
  {
    if r.Ok? then Ok(List(values + r.value.items), r.offset) else r
  }

  // ---------- Stability: later bytes do not change a result ----------

  lemma CrlfStable(b: bytes, c: bytes, from: nat)
    requires IndexOfCrlf(b, from) != -1
    ensures IndexOfCrlf(b + c, from) == IndexOfCrlf(b, from)
  {
    var i := IndexOfCrlf(b, from);
    IndexOfCrlfIsFirst(b, from);
    IndexOfCrlfIsFirst(b + c, from);
    assert CrlfAt(b + c, i);
    assert forall k | from <= k < i :: CrlfAt(b + c, k) ==> CrlfAt(b, k);
  }

  /** Once a parse gives anything but "need more", it gives the same on every longer buffer. */
  lemma {:induction false} ParseStable(b: bytes, c: bytes, off: Offset)
    requires ParseAt(b, off) != NeedMore
    ensures ParseAt(b + c, off) == ParseAt(b, off)
    decreases Ahead(b, off), 0, 0
  {
    var from := if off.At? then off.pos else 0;
    CrlfStable(b, c, from);
    if off.At? {
      var lineEnd := IndexOfCrlf(b, from);
      var line := HeaderLine(b, from, lineEnd);
      assert HeaderLine(b + c, from, lineEnd) == line;
      BodyStable(b, c, b[from], line, lineEnd + 2);
    }
  }

  lemma {:induction false} BodyStable(b: bytes, c: bytes, prefix: byte, line: bytes, next: nat)
    requires next <= |b| && ParseBody(b, prefix, line, next) != NeedMore
    ensures ParseBody(b + c, prefix, line, next) == ParseBody(b, prefix, line, next)
    decreases |b| - next, 2, 0
  {
    if prefix == DOLLAR {
      BulkStable(b, c, next, ToNumber(line));
    } else if prefix == STAR {
      ItemsStable(b, c, At(next), ArrayLength(ToNumber(line)));
    }
  }

  lemma BulkStable(b: bytes, c: bytes, next: nat, length: Num)
    requires next <= |b| && ParseBulk(b, next, length) != NeedMore
    ensures ParseBulk(b + c, next, length) == ParseBulk(b, next, length)
  {
    if length.Int? && length.n >= 0 {
      assert (b + c)[next..next + length.n] == b[next..next + length.n];
    }
  }

  lemma {:induction false} ItemsStable(b: bytes, c: bytes, off: Offset, n: nat)
    requires off.At? ==> off.pos <= |b|
    requires ParseItems(b, off, n) != NeedMore
    ensures ParseItems(b + c, off, n) == ParseItems(b, off, n)
    decreases Ahead(b, off), 1, n
  {
    if n > 0 {
      ParseStable(b, c, off);
      var first := ParseAt(b, off);
      if first.Ok? {
        ItemsStable(b, c, first.offset, n - 1);
      }
    }
  }

  // ---------- The wire format ----------

  /** A reply as a RESP2 server writes it. */
  datatype Wire =
    | Simple(line: bytes)
    | Error(line: bytes)
    | Integer(n: int)
    | Bulk(text: bytes)
    | NullBulk
    | NullArray
    | Array(items: seq<Wire>)

  predicate NoCrlf(line: bytes) { forall k | 0 <= k < |line| :: !CrlfAt(line, k) }

  predicate WellFormed(w: Wire) {
    match w
    case Simple(line) => NoCrlf(line)
    case Error(line) => NoCrlf(line)
    case Array(items) => forall i | 0 <= i < |items| :: WellFormed(items[i])
    case _ => true
  }

  const MINUS_ONE: bytes := [45, 49]

  lemma MinusOneRead()
    ensures ToNumber(MINUS_ONE) == Int(-1) && NoCrlf(MINUS_ONE)
  {
    var digits := MINUS_ONE[1..];
    assert digits == [49] && digits[..0] == [];
    assert DigitsValue(digits) == DigitsValue(digits[..0]) * 10 + 1;
  }

  lemma NumeralRead(n: int)
    ensures ToNumber(Utf8(IntText(n))) == Int(n) && NoCrlf(Utf8(IntText(n)))
  {
    IntTextRoundTrip(n);
  }

  function Header(prefix: byte, line: bytes): bytes { [prefix] + line + CRLF }

  function Encode(w: Wire): bytes
    decreases w
  {
    match w
    case Simple(line) => Header(PLUS, line)
    case Error(line) => Header(MINUS, line)
    case Integer(n) => Header(COLON, Utf8(IntText(n)))
    case Bulk(text) => Header(DOLLAR, Utf8(IntText(|text|))) + text + CRLF
    case NullBulk => Header(DOLLAR, MINUS_ONE)
    case NullArray => Header(STAR, MINUS_ONE)
    case Array(items) => Header(STAR, Utf8(IntText(|items|))) + EncodeAll(items)
  }

  function EncodeAll(ws: seq<Wire>): bytes
    decreases ws
  {
    if ws == [] then [] else Encode(ws[0]) + EncodeAll(ws[1..])
  }

  /** The value a reply stands for; a null array is read as an empty list. */
  function Denote(w: Wire): Reply
    decreases w
  {
    match w
    case Simple(line) => Str(line)
    case Error(line) => Str(line)
    case Integer(n) => Number(Int(n))
    case Bulk(text) => Str(text)
    case NullBulk => Null
    case NullArray => List([])
    case Array(items) => List(DenoteAll(items))
  }

  function DenoteAll(ws: seq<Wire>): (r: seq<Reply>)
    ensures |r| == |ws|
    decreases ws
  {
    if ws == [] then [] else [Denote(ws[0])] + DenoteAll(ws[1..])
  }

  /** The first error in a reply, in the order the bytes arrive. */
  function FirstError(w: Wire): (e: seq<bytes>)
    ensures |e| <= 1
    decreases w
  {
    match w
    case Error(line) => [line]
    case Array(items) => FirstErrorOf(items)
    case _ => []
  }

  function FirstErrorOf(ws: seq<Wire>): (e: seq<bytes>)
    ensures |e| <= 1
    decreases ws
  {
    if ws == [] then []
    else if FirstError(ws[0]) != [] then FirstError(ws[0])
    else FirstErrorOf(ws[1..])
  }

  /** `e` stands in the buffer at position `at`. */
  predicate Holds(b: bytes, at: nat, e: bytes) {
    at + |e| <= |b| && forall k | 0 <= k < |e| :: b[at + k] == e[k]
  }

  lemma HoldsSplit(b: bytes, at: nat, e: bytes, f: bytes)
    requires Holds(b, at, e + f)
    ensures Holds(b, at, e) && Holds(b, at + |e|, f)
  {
    forall k | 0 <= k < |e|
      ensures b[at + k] == e[k]
    {
      assert (e + f)[k] == e[k];
    }
    forall k | 0 <= k < |f|
      ensures b[at + |e| + k] == f[k]
    {
      assert (e + f)[|e| + k] == f[k];
    }
  }

  lemma HoldsHere(b: bytes, e: bytes, rest: bytes)
    requires b == e + rest
    ensures Holds(b, 0, e)
  {
  }

  lemma HeaderFound(b: bytes, at: nat, prefix: byte, line: bytes)
    requires Holds(b, at, Header(prefix, line)) && NoCrlf(line) && prefix != CR
    ensures IndexOfCrlf(b, at) == at + 1 + |line|
  {
    var e := Header(prefix, line);
    IndexOfCrlfIsFirst(b, at);
    assert b[at + (1 + |line|)] == e[1 + |line|];
    assert b[at + (2 + |line|)] == e[2 + |line|];
    assert CrlfAt(b, at + 1 + |line|);
    forall k | at <= k < at + 1 + |line|
      ensures !CrlfAt(b, k)
    {
      assert b[at + (k - at)] == e[k - at];
      assert b[at + (k + 1 - at)] == e[k + 1 - at];
      if k > at && k - at < |line| {
        assert !CrlfAt(line, k - at - 1);
      }
    }
  }

  lemma HeaderBytes(b: bytes, at: nat, prefix: byte, line: bytes)
    requires Holds(b, at, Header(prefix, line))
    ensures |Header(prefix, line)| == |line| + 3 && at + |line| + 3 <= |b|
    ensures b[at] == prefix && b[at + 1..at + 1 + |line|] == line
  {
    var e := Header(prefix, line);
    assert b[at + 0] == e[0];
    forall k | 0 <= k < |line|
      ensures b[at + 1 + k] == line[k]
    {
      assert b[at + (1 + k)] == e[1 + k];
    }
  }

  lemma HeaderRead(b: bytes, at: nat, prefix: byte, line: bytes)
    requires Holds(b, at, Header(prefix, line)) && NoCrlf(line) && prefix != CR
    ensures |Header(prefix, line)| == |line| + 3 && at + |line| + 3 <= |b|
    ensures ParseAt(b, At(at)) == ParseBody(b, prefix, line, at + |line| + 3)
  {
    HeaderFound(b, at, prefix, line);
    HeaderBytes(b, at, prefix, line);
    assert HeaderLine(b, at, at + 1 + |line|) == line;
  }

  /** What parsing an encoded reply at `at` gives: its value and the offset after it, or the
      first error it contains. */
  function Expected(value: Reply, errors: seq<bytes>, end: nat): Parsed {
    if errors != [] then Throw(ErrorReply(errors[0])) else Ok(value, At(end))
  }

  lemma IntegerRead(b: bytes, at: nat, line: bytes, n: int)
    requires Holds(b, at, Header(COLON, line)) && NoCrlf(line) && ToNumber(line) == Int(n)
    ensures |Header(COLON, line)| == |line| + 3
    ensures ParseAt(b, At(at)) == Ok(Number(Int(n)), At(at + |line| + 3))
  {
    HeaderRead(b, at, COLON, line);
  }

  lemma BodyOfBulk(b: bytes, line: bytes, next: nat, n: int)
    requires next <= |b| && ToNumber(line) == Int(n)
    ensures ParseBody(b, DOLLAR, line, next) == ParseBulk(b, next, Int(n))
  {
  }

  lemma BodyOfArray(b: bytes, line: bytes, next: nat, n: int)
    requires next <= |b| && ToNumber(line) == Int(n)
    ensures ParseBody(b, STAR, line, next) == ParseItems(b, At(next), ArrayLength(Int(n)))
  {
  }

  lemma BulkHeaderRead(b: bytes, at: nat, line: bytes, n: int)
    requires Holds(b, at, Header(DOLLAR, line)) && NoCrlf(line) && ToNumber(line) == Int(n)
    ensures |Header(DOLLAR, line)| == |line| + 3 && at + |line| + 3 <= |b|
    ensures ParseAt(b, At(at)) == ParseBulk(b, at + |line| + 3, Int(n))
  {
    HeaderRead(b, at, DOLLAR, line);
    BodyOfBulk(b, line, at + |line| + 3, n);
  }

  lemma ArrayHeaderRead(b: bytes, at: nat, line: bytes, n: int)
    requires Holds(b, at, Header(STAR, line)) && NoCrlf(line) && ToNumber(line) == Int(n)
    ensures |Header(STAR, line)| == |line| + 3 && at + |line| + 3 <= |b|
    ensures ParseAt(b, At(at)) == ParseItems(b, At(at + |line| + 3), ArrayLength(Int(n)))
  {
    HeaderRead(b, at, STAR, line);
    BodyOfArray(b, line, at + |line| + 3, n);
  }

  lemma BulkRead(b: bytes, at: nat, line: bytes, text: bytes)
    requires Holds(b, at, Header(DOLLAR, line)) && NoCrlf(line) && ToNumber(line) == Int(|text|)
    requires Holds(b, at + |line| + 3, text + CRLF)
    ensures ParseAt(b, At(at)) == Ok(Str(text), At(at + |line| + |text| + 5))
  {
    var next := at + |line| + 3;
    BulkHeaderRead(b, at, line, |text|);
    HoldsSplit(b, next, text, CRLF);
    assert b[next..next + |text|] == text;
  }

  /** A well-formed reply stands encoded at `at`, or a list of them one after another. */
  predicate Stands(b: bytes, at: nat, w: Wire) {
    WellFormed(w) && Holds(b, at, Encode(w))
  }

  predicate AllStand(b: bytes, at: nat, ws: seq<Wire>) {
    (forall i | 0 <= i < |ws| :: WellFormed(ws[i])) && Holds(b, at, EncodeAll(ws))
  }

  /** The parser at `at` reads the reply back, or the list. */
  predicate ReadBack(b: bytes, at: nat, w: Wire) {
    ParseAt(b, At(at)) == Expected(Denote(w), FirstError(w), at + |Encode(w)|)
  }

  predicate AllReadBack(b: bytes, at: nat, ws: seq<Wire>) {
    && at <= |b|
    && ParseItems(b, At(at), |ws|) == Expected(List(DenoteAll(ws)), FirstErrorOf(ws), at + |EncodeAll(ws)|)
  }

  lemma BulkSplit(b: bytes, at: nat, w: Wire)
    requires w.Bulk? && Stands(b, at, w)
    ensures var line := Utf8(IntText(|w.text|));
            && Holds(b, at, Header(DOLLAR, line)) && Holds(b, at + |line| + 3, w.text + CRLF)
            && |Encode(w)| == |line| + |w.text| + 5
  {
    var header := Header(DOLLAR, Utf8(IntText(|w.text|)));
    Assoc(header, w.text, CRLF);
    HoldsSplit(b, at, header, w.text + CRLF);
  }

  lemma ReadsBulk(b: bytes, at: nat, w: Wire)
    requires w.Bulk? && Stands(b, at, w)
    ensures ReadBack(b, at, w)
  {
    BulkSplit(b, at, w);
    NumeralRead(|w.text|);
    BulkRead(b, at, Utf8(IntText(|w.text|)), w.text);
  }

  lemma ReadsLine(b: bytes, at: nat, w: Wire)
    requires (w.Simple? || w.Error?) && Stands(b, at, w)
    ensures ReadBack(b, at, w)
  {
    HeaderRead(b, at, if w.Simple? then PLUS else MINUS, w.line);
  }

  lemma ReadsInteger(b: bytes, at: nat, w: Wire)
    requires w.Integer? && Stands(b, at, w)
    ensures ReadBack(b, at, w)
  {
    NumeralRead(w.n);
    IntegerRead(b, at, Utf8(IntText(w.n)), w.n);
  }

  lemma ReadsNull(b: bytes, at: nat, w: Wire)
    requires (w.NullBulk? || w.NullArray?) && Stands(b, at, w)
    ensures ReadBack(b, at, w)
  {
    MinusOneRead();
    if w.NullBulk? {
      BulkHeaderRead(b, at, MINUS_ONE, -1);
    } else {
      ArrayHeaderRead(b, at, MINUS_ONE, -1);
    }
  }

  /** Parsing reads back any encoded reply, whatever comes before and after it. */
  lemma {:induction false} ReadsReply(b: bytes, at: nat, w: Wire)
    requires Stands(b, at, w)
    ensures ReadBack(b, at, w)
    decreases w, 1
  {
    match w
    case Simple(_) => ReadsLine(b, at, w);
    case Error(_) => ReadsLine(b, at, w);
    case Integer(_) => ReadsInteger(b, at, w);
    case Bulk(_) => ReadsBulk(b, at, w);
    case NullBulk => ReadsNull(b, at, w);
    case NullArray => ReadsNull(b, at, w);
    case Array(_) => ReadsArray(b, at, w);
  }

  /** Where the items of an array encoded at `at` start. */
  function ItemsStart(at: nat, w: Wire): nat
    requires w.Array?
  {
    at + |Header(STAR, Utf8(IntText(|w.items|)))|
  }

  lemma ArrayOpens(b: bytes, at: nat, w: Wire)
    requires w.Array? && Stands(b, at, w)
    ensures AllStand(b, ItemsStart(at, w), w.items)
    ensures ParseAt(b, At(at)) == ParseItems(b, At(ItemsStart(at, w)), |w.items|)
  {
    var items, line := w.items, Utf8(IntText(|w.items|));
    HoldsSplit(b, at, Header(STAR, line), EncodeAll(items));
    NumeralRead(|items|);
    ArrayHeaderRead(b, at, line, |items|);
  }

  lemma ArrayCloses(b: bytes, at: nat, w: Wire)
    requires w.Array? && AllReadBack(b, ItemsStart(at, w), w.items)
    requires ParseAt(b, At(at)) == ParseItems(b, At(ItemsStart(at, w)), |w.items|)
    ensures ReadBack(b, at, w)
  {
  }

  lemma {:induction false} ReadsArray(b: bytes, at: nat, w: Wire)
    requires w.Array? && Stands(b, at, w)
    ensures ReadBack(b, at, w)
    decreases w, 0
  {
    ArrayOpens(b, at, w);
    ReadsReplies(b, ItemsStart(at, w), w.items);
    ArrayCloses(b, at, w);
  }

  lemma RepliesSplit(b: bytes, at: nat, ws: seq<Wire>)
    requires ws != [] && AllStand(b, at, ws)
    ensures Stands(b, at, ws[0]) && AllStand(b, at + |Encode(ws[0])|, ws[1..])
  {
    HoldsSplit(b, at, Encode(ws[0]), EncodeAll(ws[1..]));
  }

  lemma RepliesJoin(b: bytes, at: nat, ws: seq<Wire>)
    requires ws != [] && at <= |b|
    requires ReadBack(b, at, ws[0]) && AllReadBack(b, at + |Encode(ws[0])|, ws[1..])
    ensures AllReadBack(b, at, ws)
  {
  }

  lemma {:induction false} ReadsReplies(b: bytes, at: nat, ws: seq<Wire>)
    requires AllStand(b, at, ws)
    ensures AllReadBack(b, at, ws)
    decreases ws, 0
  {
    if ws != [] {
      RepliesSplit(b, at, ws);
      ReadsReply(b, at, ws[0]);
      ReadsReplies(b, at + |Encode(ws[0])|, ws[1..]);
      RepliesJoin(b, at, ws);
    }
  }

  // ---------- Prefixes ----------

  /** The buffer ends inside `e`, which starts at `at`. */
  predicate EndsInside(b: bytes, at: nat, e: bytes) {
    at <= |b| < at + |e| && forall k | 0 <= k < |b| - at :: b[at + k] == e[k]
  }

  lemma EndsInsideSplit(b: bytes, at: nat, e: bytes, f: bytes)
    requires EndsInside(b, at, e + f)
    ensures if |b| < at + |e| then EndsInside(b, at, e) else Holds(b, at, e) && EndsInside(b, at + |e|, f)
  {
    forall k | 0 <= k < |e| && at + k < |b|
      ensures b[at + k] == e[k]
    {
      assert (e + f)[k] == e[k];
    }
    forall k | 0 <= k < |f| && at + |e| + k < |b|
      ensures b[at + |e| + k] == f[k]
    {
      assert (e + f)[|e| + k] == f[k];
    }
  }

  lemma HeaderCut(b: bytes, at: nat, prefix: byte, line: bytes)
    requires EndsInside(b, at, Header(prefix, line)) && NoCrlf(line) && prefix != CR
    ensures IndexOfCrlf(b, at) == -1 && ParseAt(b, At(at)) == NeedMore
  {
    var e := Header(prefix, line);
    IndexOfCrlfIsFirst(b, at);
    forall k | at <= k
      ensures !CrlfAt(b, k)
    {
      if k + 1 < |b| {
        assert b[at + (k - at)] == e[k - at] && b[at + (k + 1 - at)] == e[k + 1 - at];
        if k > at && k - at < |line| {
          assert !CrlfAt(line, k - at - 1);
        }
      }
    }
  }

  /** The buffer ends inside an error-free reply, or inside a list of them. */
  predicate Cut(b: bytes, at: nat, w: Wire) {
    WellFormed(w) && FirstError(w) == [] && EndsInside(b, at, Encode(w))
  }

  predicate AllCut(b: bytes, at: nat, ws: seq<Wire>) {
    (forall i | 0 <= i < |ws| :: WellFormed(ws[i])) && FirstErrorOf(ws) == [] && EndsInside(b, at, EncodeAll(ws))
  }

  lemma CutBulkNeedsMore(b: bytes, at: nat, w: Wire)
    requires w.Bulk? && Cut(b, at, w)
    ensures ParseAt(b, At(at)) == NeedMore
  {
    var text, line := w.text, Utf8(IntText(|w.text|));
    Assoc(Header(DOLLAR, line), text, CRLF);
    EndsInsideSplit(b, at, Header(DOLLAR, line), text + CRLF);
    NumeralRead(|text|);
    if |b| < at + |Header(DOLLAR, line)| {
      HeaderCut(b, at, DOLLAR, line);
    } else {
      BulkHeaderRead(b, at, line, |text|);
    }
  }

  lemma CutLineNeedsMore(b: bytes, at: nat, w: Wire)
    requires !w.Bulk? && !w.Array? && Cut(b, at, w)
    ensures ParseAt(b, At(at)) == NeedMore
  {
    match w
    case Simple(line) => HeaderCut(b, at, PLUS, line);
    case Integer(n) =>
      NumeralRead(n);
      HeaderCut(b, at, COLON, Utf8(IntText(n)));
    case NullBulk => HeaderCut(b, at, DOLLAR, MINUS_ONE);
    case NullArray => HeaderCut(b, at, STAR, MINUS_ONE);
    case _ =>
  }

  /** A reply without errors that is cut anywhere before its end is never taken for complete. */
  lemma {:induction false} CutReplyNeedsMore(b: bytes, at: nat, w: Wire)
    requires Cut(b, at, w)
    ensures ParseAt(b, At(at)) == NeedMore
    decreases w, 1
  {
    if w.Array? {
      CutArrayNeedsMore(b, at, w);
    } else if w.Bulk? {
      CutBulkNeedsMore(b, at, w);
    } else {
      CutLineNeedsMore(b, at, w);
    }
  }

  /** A cut array either has no complete header, or its items are cut. */
  lemma CutArraySplit(b: bytes, at: nat, w: Wire)
    requires w.Array? && Cut(b, at, w)
    ensures var header := Header(STAR, Utf8(IntText(|w.items|)));
            if |b| < ItemsStart(at, w) then EndsInside(b, at, header)
            else Holds(b, at, header) && AllCut(b, ItemsStart(at, w), w.items)
  {
    EndsInsideSplit(b, at, Header(STAR, Utf8(IntText(|w.items|))), EncodeAll(w.items));
  }

  lemma {:induction false} CutArrayNeedsMore(b: bytes, at: nat, w: Wire)
    requires w.Array? && Cut(b, at, w)
    ensures ParseAt(b, At(at)) == NeedMore
    decreases w, 0
  {
    var line := Utf8(IntText(|w.items|));
    CutArraySplit(b, at, w);
    NumeralRead(|w.items|);
    if |b| < ItemsStart(at, w) {
      HeaderCut(b, at, STAR, line);
    } else {
      CutRepliesNeedMore(b, ItemsStart(at, w), w.items);
      ArrayHeaderRead(b, at, line, |w.items|);
    }
  }

  lemma CutRepliesSplit(b: bytes, at: nat, ws: seq<Wire>)
    requires AllCut(b, at, ws)
    ensures ws != []
    ensures Cut(b, at, ws[0]) || (Stands(b, at, ws[0]) && AllCut(b, at + |Encode(ws[0])|, ws[1..]))
    ensures FirstError(ws[0]) == []
  {
    EndsInsideSplit(b, at, Encode(ws[0]), EncodeAll(ws[1..]));
  }

  lemma {:induction false} CutRepliesNeedMore(b: bytes, at: nat, ws: seq<Wire>)
    requires AllCut(b, at, ws)
    ensures at <= |b| && ParseItems(b, At(at), |ws|) == NeedMore
    decreases ws, 0
  {
    CutRepliesSplit(b, at, ws);
    if Cut(b, at, ws[0]) {
      CutReplyNeedsMore(b, at, ws[0]);
    } else {
      ReadsReply(b, at, ws[0]);
      CutRepliesNeedMore(b, at + |Encode(ws[0])|, ws[1..]);
    }
  }

  // ---------- Main results about the format ----------

  lemma ReadsFirstReply(w: Wire, rest: bytes)
    requires WellFormed(w)
    ensures ParseAt(Encode(w) + rest, At(0)) == Expected(Denote(w), FirstError(w), |Encode(w)|)
  {
    HoldsHere(Encode(w) + rest, Encode(w), rest);
    ReadsReply(Encode(w) + rest, 0, w);
  }

  /** Two reply streams with the same bytes start with the same reply: the format is prefix-free
      and unambiguous. */
  lemma EncodingUnambiguous(v: Wire, w: Wire, restV: bytes, restW: bytes)
    requires WellFormed(v) && WellFormed(w) && FirstError(v) == [] && FirstError(w) == []
    requires Encode(v) + restV == Encode(w) + restW
    ensures Denote(v) == Denote(w) && restV == restW
  {
    ReadsFirstReply(v, restV);
    ReadsFirstReply(w, restW);
    TailAfter(Encode(v), restV);
    TailAfter(Encode(w), restW);
  }

  lemma TailAfter(e: bytes, rest: bytes)
    ensures (e + rest)[|e|..] == rest
  {
  }

  /** The command as a wire value: an array of bulk strings. */
  function CommandWire(args: seq<Arg>): Wire {
    Array(seq(|args|, i requires 0 <= i < |args| => Bulk(Utf8(Stringify(args[i])))))
  }

  lemma HeaderIsUtf8(c: char, n: nat)
    requires c as int < 0x80
    ensures Utf8([c] + NatText(n) + "\r\n") == Header(c as int as byte, Utf8(NatText(n)))
  {
    Utf8Singleton(c);
    Utf8Append([c], NatText(n));
    Utf8Append([c] + NatText(n), "\r\n");
    Utf8Crlf();
  }

  lemma SerializeArgIsBulk(a: Arg)
    ensures Utf8(SerializeArg(a)) == Encode(Bulk(Utf8(Stringify(a))))
  {
    var head := "$" + NatText(|Utf8(Stringify(a))|) + "\r\n";
    HeaderIsUtf8('$', |Utf8(Stringify(a))|);
    Utf8Append(head, Stringify(a));
    Utf8Append(head + Stringify(a), "\r\n");
    Utf8Crlf();
  }

  lemma {:induction false} SerializeArgsIsBulks(args: seq<Arg>)
    ensures Utf8(SerializeArgs(args)) == EncodeAll(CommandWire(args).items)
  {
    if args != [] {
      SerializeArgIsBulk(args[0]);
      SerializeArgsIsBulks(args[1..]);
      Utf8Append(SerializeArg(args[0]), SerializeArgs(args[1..]));
      assert CommandWire(args).items[1..] == CommandWire(args[1..]).items;
    }
  }

  /** The bytes of a command are the RESP encoding of the array of its arguments. */
  lemma SerializeIsEncode(args: seq<Arg>)
    ensures Utf8(Serialize(args)) == Encode(CommandWire(args))
  {
    SerializeArgsIsBulks(args);
    HeaderIsUtf8('*', |args|);
    Utf8Append("*" + NatText(|args|) + "\r\n", SerializeArgs(args));
  }

  lemma CommandHasNoErrors(args: seq<Arg>)
    ensures WellFormed(CommandWire(args)) && FirstError(CommandWire(args)) == []
  {
    NoErrorsIn(CommandWire(args).items);
  }

  lemma {:induction false} NoErrorsIn(ws: seq<Wire>)
    requires forall i | 0 <= i < |ws| :: FirstError(ws[i]) == []
    ensures FirstErrorOf(ws) == []
  {
    if ws != [] {
      NoErrorsIn(ws[1..]);
    }
  }

  lemma {:induction false} DenoteAllAt(ws: seq<Wire>, i: nat)
    requires i < |ws|
    ensures DenoteAll(ws)[i] == Denote(ws[i])
  {
    if i > 0 {
      DenoteAllAt(ws[1..], i - 1);
    }
  }

  /** Round trip: whatever the arguments contain, parsing a serialized command followed by any
      bytes gives exactly the stringified arguments and stops at the command's end. */
  lemma SerializeRoundTrip(args: seq<Arg>, rest: bytes)
    ensures var sent := Utf8(Serialize(args));
            var r := ParseAt(sent + rest, At(0));
            && r.Ok? && r.offset == At(|sent|)
            && r.value.List? && |r.value.items| == |args|
            && forall i | 0 <= i < |args| :: r.value.items[i] == Str(Utf8(Stringify(args[i])))
  {
    var w := CommandWire(args);
    SerializeIsEncode(args);
    CommandHasNoErrors(args);
    ReadsFirstReply(w, rest);
    forall i | 0 <= i < |args|
      ensures DenoteAll(w.items)[i] == Str(Utf8(Stringify(args[i])))
    {
      DenoteAllAt(w.items, i);
    }
  }

  /** No strict prefix of a serialized command parses as a complete value. */
  lemma SerializePrefixNeedsMore(args: seq<Arg>, n: nat)
    requires n < |Utf8(Serialize(args))|
    ensures ParseAt(Utf8(Serialize(args))[..n], At(0)) == NeedMore
  {
    SerializeIsEncode(args);
    CommandHasNoErrors(args);
    var b := Encode(CommandWire(args))[..n];
    assert b[0..] == b;
    CutReplyNeedsMore(b, 0, CommandWire(args));
  }

  /** Two commands whose serializations agree carry the same texts. */
  lemma SerializeInjective(args: seq<Arg>, other: seq<Arg>)
    requires Serialize(args) == Serialize(other)
    ensures |args| == |other| && forall i | 0 <= i < |args| :: Stringify(args[i]) == Stringify(other[i])
  {
    SerializeRoundTrip(args, []);
    SerializeRoundTrip(other, []);
    forall i | 0 <= i < |args|
      ensures Stringify(args[i]) == Stringify(other[i])
    {
      Utf8Injective(Stringify(args[i]), Stringify(other[i]));
    }
  }

  // ---------- The protocol, byte by byte ----------

  /** `Encode` writes what the RESP2 specification prescribes: the five type bytes `+`, `-`, `:`, `$`
      and `*`, decimal numerals, and CR LF after every line and every bulk string. */
  lemma EncodeIsResp(w: Wire)
    ensures match w
            case Simple(line) => Encode(w) == [43] + line + [13, 10]
            case Error(line) => Encode(w) == [45] + line + [13, 10]
            case Integer(n) => Encode(w) == [58] + Utf8(IntText(n)) + [13, 10]
            case Bulk(text) => Encode(w) == [36] + Utf8(IntText(|text|)) + [13, 10] + text + [13, 10]
            case NullBulk => Encode(w) == [36, 45, 49, 13, 10]
            case NullArray => Encode(w) == [42, 45, 49, 13, 10]
            case Array(items) => Encode(w) == [42] + Utf8(IntText(|items|)) + [13, 10] + EncodeAll(items)
    ensures w.Array? && w.items != [] ==> EncodeAll(w.items) == Encode(w.items[0]) + EncodeAll(w.items[1..])
  {
  }

  /** A reply of one line, whatever follows it: a simple string is its text, an error throws its
      text, and an integer is its number. */
  lemma LinesAreRead(line: bytes, n: int, rest: bytes)
    requires NoCrlf(line)
    ensures ParseAt([43] + line + [13, 10] + rest, At(0)) == Ok(Str(line), At(|line| + 3))
    ensures ParseAt([45] + line + [13, 10] + rest, At(0)) == Throw(ErrorReply(line))
    ensures ParseAt([58] + Utf8(IntText(n)) + [13, 10] + rest, At(0)) == Ok(Number(Int(n)), At(|Utf8(IntText(n))| + 3))
  {
    ReadsFirstReply(Simple(line), rest);
    ReadsFirstReply(Error(line), rest);
    ReadsFirstReply(Integer(n), rest);
  }

  /** Bulk strings and arrays, whatever follows them. A bulk string may hold any bytes; a null one
      is null, and a null array an empty list. */
  lemma BulksAndArraysAreRead(text: bytes, items: seq<Wire>, rest: bytes)
    requires (forall i | 0 <= i < |items| :: WellFormed(items[i])) && FirstErrorOf(items) == []
    ensures var sent := [36] + Utf8(IntText(|text|)) + [13, 10] + text + [13, 10];
            ParseAt(sent + rest, At(0)) == Ok(Str(text), At(|sent|))
    ensures ParseAt([36, 45, 49, 13, 10] + rest, At(0)) == Ok(Null, At(5))
    ensures ParseAt([42, 45, 49, 13, 10] + rest, At(0)) == Ok(List([]), At(5))
    ensures var sent := [42] + Utf8(IntText(|items|)) + [13, 10] + EncodeAll(items);
            ParseAt(sent + rest, At(0)) == Ok(List(DenoteAll(items)), At(|sent|))
  {
    ReadsFirstReply(Bulk(text), rest);
    ReadsFirstReply(NullBulk, rest);
    ReadsFirstReply(NullArray, rest);
    ReadsFirstReply(Array(items), rest);
    EncodeIsResp(NullBulk);
    EncodeIsResp(NullArray);
  }

  /** Any other first byte throws once its line is complete. */
  lemma OtherPrefixesThrow(b: bytes)
    requires b != [] && b[0] !in {43, 45, 58, 36, 42}
    ensures ParseAt(b, At(0))
         == if forall k | 0 <= k < |b| :: !CrlfAt(b, k) then NeedMore else Throw(UnsupportedPrefix(b[0]))
  {
    IndexOfCrlfIsFirst(b, 0);
  }
}
