/** Bytes on the wire: UTF-8 text and decimal numerals.
    A JavaScript string is modelled as a sequence of Unicode scalar values, and what a socket
    carries is its UTF-8 encoding. */
module Bytes {
  newtype byte = x: int | 0 <= x < 256
  type bytes = seq<byte>

  const CR: byte := 13
  const LF: byte := 10
  const CRLF: bytes := [CR, LF]

  // ---------- UTF-8 ----------

  function Utf8Char(c: char): (r: bytes)
    ensures |r| >= 1
  {
    var n := c as int;
    if n < 0x80 then [n as byte]
    else if n < 0x800 then [(0xC0 + n / 64) as byte, (0x80 + n % 64) as byte]
    else if n < 0x1_0000 then
      [(0xE0 + n / 4096) as byte, (0x80 + n / 64 % 64) as byte, (0x80 + n % 64) as byte]
    else
      [(0xF0 + n / 262144) as byte, (0x80 + n / 4096 % 64) as byte,
       (0x80 + n / 64 % 64) as byte, (0x80 + n % 64) as byte]
  }

  function Utf8(s: string): bytes {
    if s == [] then [] else Utf8Char(s[0]) + Utf8(s[1..])
  }

  lemma Assoc(a: bytes, b: bytes, c: bytes)
    ensures a + (b + c) == (a + b) + c
  {
  }

  lemma {:induction false} Utf8Append(s: string, t: string)
    ensures Utf8(s + t) == Utf8(s) + Utf8(t)
  {
    if s == [] {
      assert s + t == t;
    } else {
      Utf8Append(s[1..], t);
      assert (s + t)[1..] == s[1..] + t;
      Assoc(Utf8Char(s[0]), Utf8(s[1..]), Utf8(t));
    }
  }

  lemma Utf8Singleton(c: char)
    requires c as int < 0x80
    ensures Utf8([c]) == [c as int as byte]
  {
    assert [c][1..] == [];
  }

  lemma Utf8Crlf()
    ensures Utf8("\r\n") == CRLF
  {
    Utf8Singleton('\r');
    Utf8Singleton('\n');
    Utf8Append("\r", "\n");
    assert "\r" + "\n" == "\r\n";
  }

  /** An ASCII text is sent as its character codes. */
  lemma {:induction false} AsciiIsSentAsCodes(s: string)
    requires forall i | 0 <= i < |s| :: s[i] as int < 128
    ensures |Utf8(s)| == |s| && forall i | 0 <= i < |s| :: Utf8(s)[i] as int == s[i] as int
  {
    if s != [] {
      AsciiIsSentAsCodes(s[1..]);
    }
  }

  /** The character code and the width that a UTF-8 stream starts with. */
  function DecodeFirst(b: bytes): (int, nat) {
    if |b| >= 1 && b[0] < 0x80 then (b[0] as int, 1)
    else if |b| >= 2 && b[0] < 0xE0 then ((b[0] as int - 0xC0) * 64 + b[1] as int - 0x80, 2)
    else if |b| >= 3 && b[0] < 0xF0 then
      ((b[0] as int - 0xE0) * 4096 + (b[1] as int - 0x80) * 64 + b[2] as int - 0x80, 3)
    else if |b| >= 4 then
      ((b[0] as int - 0xF0) * 262144 + (b[1] as int - 0x80) * 4096 + (b[2] as int - 0x80) * 64 + b[3] as int - 0x80, 4)
    else (-1, 0)
  }

  lemma SplitBase64(n: nat)
    ensures n == n / 64 * 64 + n % 64
    ensures n / 64 == n / 4096 * 64 + n / 64 % 64
    ensures n / 4096 == n / 262144 * 64 + n / 4096 % 64
  {
    assert n / 4096 == n / 64 / 64;
    assert n / 262144 == n / 4096 / 64;
  }

  lemma DecodeFirstChar(c: char, rest: bytes)
    ensures DecodeFirst(Utf8Char(c) + rest) == (c as int, |Utf8Char(c)|)
  {
    SplitBase64(c as int);
  }

  predicate Continues(b: byte) { 128 <= b < 192 }

  /** The encoding of a character is that of RFC 3629, section 3: one to four bytes by its code, a
      lead byte that tells their number, continuation bytes, and six bits in each of these, the most
      significant first. */
  lemma Utf8IsStandard(c: char)
    ensures var n, u := c as int, Utf8([c]);
            if n < 128 then |u| == 1 && u[0] as int == n
            else if n < 2048 then
              && |u| == 2 && 192 <= u[0] < 224 && Continues(u[1])
              && n == (u[0] as int - 192) * 64 + (u[1] as int - 128)
            else if n < 65536 then
              && |u| == 3 && 224 <= u[0] < 240 && Continues(u[1]) && Continues(u[2])
              && n == (u[0] as int - 224) * 4096 + (u[1] as int - 128) * 64 + (u[2] as int - 128)
            else
              && |u| == 4 && 240 <= u[0] < 248 && Continues(u[1]) && Continues(u[2]) && Continues(u[3])
              && n == (u[0] as int - 240) * 262144 + (u[1] as int - 128) * 4096 + (u[2] as int - 128) * 64
                      + (u[3] as int - 128)
  {
    SplitBase64(c as int);
    assert [c][1..] == [] && Utf8([c]) == Utf8Char(c);
  }

  /** The code of one character can be recovered from a byte stream it starts. */
  lemma Utf8CharPrefixCode(c: char, d: char, s: bytes, t: bytes)
    requires Utf8Char(c) + s == Utf8Char(d) + t
    ensures c == d && s == t
  {
    DecodeFirstChar(c, s);
    DecodeFirstChar(d, t);
    assert s == (Utf8Char(c) + s)[|Utf8Char(c)|..];
    assert t == (Utf8Char(d) + t)[|Utf8Char(d)|..];
  }

  /** Different texts have different encodings, so bytes identify the text they came from. */
  lemma {:induction false} Utf8Injective(s: string, t: string)
    requires Utf8(s) == Utf8(t)
    ensures s == t
  {
    if s != [] && t != [] {
      Utf8CharPrefixCode(s[0], t[0], Utf8(s[1..]), Utf8(t[1..]));
      Utf8Injective(s[1..], t[1..]);
      assert s == [s[0]] + s[1..] && t == [t[0]] + t[1..];
    }
  }

  // ---------- Decimal numerals ----------

  function DigitChar(d: nat): char
    requires d < 10
  {
    ('0' as int + d) as char
  }

  /** `String(n)` for a natural number. */
  function NatText(n: nat): string {
    if n < 10 then [DigitChar(n)] else NatText(n / 10) + [DigitChar(n % 10)]
  }

  /** `String(n)` for an integer. */
  function IntText(n: int): string {
    if n < 0 then "-" + NatText(-n) else NatText(n)
  }

  /** Numerals are decimal, most significant digit first, with a minus sign for negative numbers. */
  lemma NumeralsAreDecimal(n: int)
    requires n >= 0
    ensures n < 10 ==> IntText(n) == ["0123456789"[n]]
    ensures n >= 10 ==> IntText(n) == IntText(n / 10) + ["0123456789"[n % 10]]
    ensures n > 0 ==> IntText(-n) == "-" + IntText(n)
  {
  }

  predicate IsDigit(c: byte) { 48 <= c <= 57 }

  predicate AllDigits(s: bytes) { forall k | 0 <= k < |s| :: IsDigit(s[k]) }

  function DigitsValue(s: bytes): (v: int)
  {
    if s == [] then 0 else DigitsValue(s[..|s| - 1]) * 10 + (s[|s| - 1] as int - 48)
  }

  datatype Num = Int(n: int) | NaN

  /** `Number(line)` on the numerals RESP uses: an optional sign and decimal digits.
      The empty string is 0; anything else reads as NaN. */
  function ToNumber(line: bytes): Num {
    if line == [] then Int(0)
    else if line[0] == 45 then
      if |line| > 1 && AllDigits(line[1..]) then Int(-DigitsValue(line[1..])) else NaN
    else if line[0] == 43 then
      if |line| > 1 && AllDigits(line[1..]) then Int(DigitsValue(line[1..])) else NaN
    else if AllDigits(line) then Int(DigitsValue(line))
    else NaN
  }

  lemma {:induction false} NatTextDigits(n: nat)
    ensures |Utf8(NatText(n))| >= 1 && AllDigits(Utf8(NatText(n)))
    ensures DigitsValue(Utf8(NatText(n))) == n
  {
    var last := [DigitChar(n % 10)];
    Utf8Singleton(DigitChar(n % 10));
    if n < 10 {
      assert Utf8(NatText(n))[..0] == [];
    } else {
      NatTextDigits(n / 10);
      Utf8Append(NatText(n / 10), last);
      var u := Utf8(NatText(n));
      assert u == Utf8(NatText(n / 10)) + Utf8(last);
      assert u[..|u| - 1] == Utf8(NatText(n / 10));
    }
  }

  lemma DigitsRead(digits: bytes)
    requires |digits| >= 1 && AllDigits(digits)
    ensures ToNumber(digits) == Int(DigitsValue(digits)) && forall k | 0 <= k < |digits| :: digits[k] != CR
  {
    assert IsDigit(digits[0]);
    forall k | 0 <= k < |digits|
      ensures digits[k] != CR
    {
      assert IsDigit(digits[k]);
    }
  }

  lemma NegativeRead(digits: bytes)
    requires |digits| >= 1 && AllDigits(digits)
    ensures ToNumber([45] + digits) == Int(-DigitsValue(digits))
    ensures forall k | 0 <= k < |[45] + digits| :: ([45] + digits)[k] != CR
  {
    DigitsRead(digits);
    assert ([45] + digits)[1..] == digits;
  }

  lemma NegativeText(n: nat)
    ensures Utf8("-" + NatText(n)) == [45] + Utf8(NatText(n))
  {
    Utf8Singleton('-');
    Utf8Append("-", NatText(n));
  }

  /** Printing an integer and reading it back gives the integer. */
  lemma IntTextRoundTrip(n: int)
    ensures ToNumber(Utf8(IntText(n))) == Int(n)
    ensures forall k | 0 <= k < |Utf8(IntText(n))| :: Utf8(IntText(n))[k] != CR
  {
    if n < 0 {
      NatTextDigits(-n);
      NegativeText(-n);
      NegativeRead(Utf8(NatText(-n)));
    } else {
      NatTextDigits(n);
      DigitsRead(Utf8(NatText(n)));
    }
  }
}
