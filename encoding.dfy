/** The three text encodings the ledger relies on, each with a reader that
    undoes it:
    - `Utf8`: Python's `str.encode()`, the bytes that are fed to SHA-256;
    - `Decimal`: Python's `str(int)`, the text of a proof inside a guess;
    - `BytesRepr`: Python's `str(b)` for a `bytes` object `b`, which is what
      an f-string makes of the encoded block string in the mining handler. */
module Encoding {
  import opened Wrappers

  /** One byte of an encoded string. */
  type byte = b: int | 0 <= b < 0x100

  // ---------------------------------------------------------------------
  // UTF-8

  /** The UTF-8 encoding of one Unicode scalar value. */
  function Utf8Char(c: char): (bs: seq<byte>)
    ensures 1 <= |bs| <= 4
    ensures |bs| == 1 <==> c as int < 0x80
  {
    var n := c as int;
    if n < 0x80 then [n]
    else if n < 0x800 then [0xC0 + n / 0x40, 0x80 + n % 0x40]
    else if n < 0x1_0000 then [0xE0 + n / 0x1000, 0x80 + n / 0x40 % 0x40, 0x80 + n % 0x40]
    else [0xF0 + n / 0x4_0000, 0x80 + n / 0x1000 % 0x40, 0x80 + n / 0x40 % 0x40, 0x80 + n % 0x40]
  }

  /** `s.encode()`: the UTF-8 encoding of a string, character by character.
      Every character takes one to four bytes. */
  function Utf8(s: string): (bs: seq<byte>)
    ensures |s| <= |bs| <= 4 * |s|
  {
    if s == [] then [] else Utf8Char(s[0]) + Utf8(s[1..])
  }

  predicate IsContinuation(b: byte) { 0x80 <= b < 0xC0 }

  predicate IsScalar(n: int) { 0 <= n < 0xD800 || 0xE000 <= n < 0x11_0000 }

  /** Reads the UTF-8 sequence at the front of `bs`: the character and the
      number of bytes it takes. Truncated sequences, stray continuation bytes,
      overlong forms and surrogates are rejected. */
  function DecodeChar(bs: seq<byte>): (r: Option<(char, nat)>)
    requires bs != []
    ensures r.Some? ==> 1 <= r.value.1 <= |bs|
  {
    var b0 := bs[0] as int;
    if b0 < 0x80 then Some((b0 as char, 1))
    else if 0xC0 <= b0 < 0xE0 && 2 <= |bs| && IsContinuation(bs[1]) then
      var n := (b0 - 0xC0) * 0x40 + (bs[1] as int - 0x80);
      if 0x80 <= n then Some((n as char, 2)) else None
    else if 0xE0 <= b0 < 0xF0 && 3 <= |bs| && IsContinuation(bs[1]) && IsContinuation(bs[2]) then
      var n := (b0 - 0xE0) * 0x1000 + (bs[1] as int - 0x80) * 0x40 + (bs[2] as int - 0x80);
      if 0x800 <= n && IsScalar(n) then Some((n as char, 3)) else None
    else if 0xF0 <= b0 < 0xF8 && 4 <= |bs| && IsContinuation(bs[1]) && IsContinuation(bs[2])
            && IsContinuation(bs[3]) then
      var n := (b0 - 0xF0) * 0x4_0000 + (bs[1] as int - 0x80) * 0x1000 + (bs[2] as int - 0x80) * 0x40
               + (bs[3] as int - 0x80);
      if 0x1_0000 <= n && IsScalar(n) then Some((n as char, 4)) else None
    else None
  }

  /** `bs.decode()`: the string whose UTF-8 encoding is `bs`, if any. */
  function Utf8Decode(bs: seq<byte>): Option<string>
    decreases |bs|
  {
    if bs == [] then Some([])
    else match DecodeChar(bs)
      case None => None
      case Some((c, k)) =>
        match Utf8Decode(bs[k..])
        case None => None
        case Some(rest) => Some([c] + rest)
  }

  lemma DecodeCharOfEncoding(c: char, rest: seq<byte>)
    ensures DecodeChar(Utf8Char(c) + rest) == Some((c, |Utf8Char(c)|))
  {
    var n := c as int;
    if n < 0x80 {
    } else if n < 0x800 {
      DecodeTwoBytes(c, rest);
    } else if n < 0x1_0000 {
      DecodeThreeBytes(c, rest);
    } else {
      DecodeFourBytes(c, rest);
    }
  }

  lemma DecodeTwoBytes(c: char, rest: seq<byte>)
    requires 0x80 <= c as int < 0x800
    ensures DecodeChar(Utf8Char(c) + rest) == Some((c, 2))
  {
    var n := c as int;
    var bs := Utf8Char(c) + rest;
    var hi, lo := n / 0x40, n % 0x40;
    assert n == hi * 0x40 + lo;
    assert bs[0] as int == 0xC0 + hi && bs[1] as int == 0x80 + lo;
  }

  lemma DecodeThreeBytes(c: char, rest: seq<byte>)
    requires 0x800 <= c as int < 0x1_0000
    ensures DecodeChar(Utf8Char(c) + rest) == Some((c, 3))
  {
    var n := c as int;
    var bs := Utf8Char(c) + rest;
    var hi, mid, lo := n / 0x1000, n / 0x40 % 0x40, n % 0x40;
    assert n / 0x40 == hi * 0x40 + mid;
    assert n == hi * 0x1000 + mid * 0x40 + lo;
    assert bs[0] as int == 0xE0 + hi && bs[1] as int == 0x80 + mid && bs[2] as int == 0x80 + lo;
  }

  lemma DecodeFourBytes(c: char, rest: seq<byte>)
    requires 0x1_0000 <= c as int
    ensures DecodeChar(Utf8Char(c) + rest) == Some((c, 4))
  {
    var n := c as int;
    var bs := Utf8Char(c) + rest;
    var top, hi, mid, lo := n / 0x4_0000, n / 0x1000 % 0x40, n / 0x40 % 0x40, n % 0x40;
    assert n / 0x1000 == top * 0x40 + hi;
    assert n / 0x40 == (n / 0x1000) * 0x40 + mid;
    assert n == top * 0x4_0000 + hi * 0x1000 + mid * 0x40 + lo;
    assert bs[0] as int == 0xF0 + top && bs[1] as int == 0x80 + hi;
    assert bs[2] as int == 0x80 + mid && bs[3] as int == 0x80 + lo;
  }

  /** Decoding undoes `str.encode()`, so the encoding loses nothing: two
      different strings never hash the same bytes. */
  lemma {:induction false} Utf8RoundTrip(s: string)
    ensures Utf8Decode(Utf8(s)) == Some(s)
  {
    if s != [] {
      var e, tail := Utf8Char(s[0]), Utf8(s[1..]);
      DecodeCharOfEncoding(s[0], tail);
      assert (e + tail)[|e|..] == tail;
      Utf8RoundTrip(s[1..]);
      assert [s[0]] + s[1..] == s;
    }
  }

  /** Encoding a concatenation is concatenating the encodings. */
  lemma {:induction false} Utf8Append(s: string, t: string)
    ensures Utf8(s + t) == Utf8(s) + Utf8(t)
  {
    if s != [] {
      calc {
        Utf8(s + t);
        { assert (s + t)[0] == s[0] && (s + t)[1..] == s[1..] + t; }
        Utf8Char(s[0]) + Utf8(s[1..] + t);
        { Utf8Append(s[1..], t); }
        Utf8Char(s[0]) + (Utf8(s[1..]) + Utf8(t));
      }
    } else {
      assert s + t == t;
    }
  }

  // ---------------------------------------------------------------------
  // Decimal text of an integer

  predicate IsDigit(c: char) { '0' <= c <= '9' }

  predicate AllDigits(s: string) { forall i :: 0 <= i < |s| ==> IsDigit(s[i]) }

  function DigitChar(d: int): (c: char)
    requires 0 <= d < 10
    ensures IsDigit(c)
  {
    ('0' as int + d) as char
  }

  /** The decimal digits of a natural number: no sign, no leading zeros. */
  function NatDecimal(n: nat): (s: string)
    ensures s != [] && AllDigits(s)
    ensures s[0] == '0' ==> n == 0
    decreases n
  {
    if n < 10 then [DigitChar(n)] else NatDecimal(n / 10) + [DigitChar(n % 10)]
  }

  /** `str(n)` for a Python `int`: a minus sign for negative numbers, then
      the digits of the magnitude. */
  function Decimal(n: int): (s: string)
    ensures s != [] && (s[0] == '-' <==> n < 0)
    ensures n < 0 ==> 2 <= |s| && AllDigits(s[1..])
    ensures 0 <= n ==> AllDigits(s)
  {
    if n < 0 then "-" + NatDecimal(-n) else NatDecimal(n)
  }

  /** The number a string of digits denotes. */
  function DigitsValue(s: string): nat
    requires AllDigits(s)
  {
    if s == [] then 0 else DigitsValue(s[..|s| - 1]) * 10 + (s[|s| - 1] as int - '0' as int)
  }

  /** `int(s)` restricted to an optional minus sign followed by digits. */
  function ParseDecimal(s: string): Option<int>
  {
    if 2 <= |s| && s[0] == '-' && AllDigits(s[1..]) then Some(-(DigitsValue(s[1..]) as int))
    else if 1 <= |s| && AllDigits(s) then Some(DigitsValue(s))
    else None
  }

  lemma {:induction false} NatDecimalValue(n: nat)
    ensures DigitsValue(NatDecimal(n)) == n
  {
    if 10 <= n {
      var s := NatDecimal(n);
      assert s[..|s| - 1] == NatDecimal(n / 10);
      NatDecimalValue(n / 10);
    }
  }

  /** Reading back the decimal text of a proof gives the proof: distinct
      proofs are appended to the block string as distinct texts. */
  lemma DecimalRoundTrip(n: int)
    ensures ParseDecimal(Decimal(n)) == Some(n)
  {
    var s := Decimal(n);
    if n < 0 {
      assert s[1..] == NatDecimal(-n);
      NatDecimalValue(-n);
    } else {
      assert s == NatDecimal(n) && s[0] != '-';
      NatDecimalValue(n);
    }
  }

  // ---------------------------------------------------------------------
  // The printed form of a bytes object

  const SingleQuote: byte := 0x27
  const DoubleQuote: byte := 0x22
  const Backslash: byte := 0x5C

  predicate IsQuote(q: char) { q == '\'' || q == '"' }

  function HexDigit(d: int): (c: char)
    requires 0 <= d < 16
  {
    if d < 10 then ('0' as int + d) as char else ('a' as int + d - 10) as char
  }

  predicate IsHexDigit(c: char) { '0' <= c <= '9' || 'a' <= c <= 'f' || 'A' <= c <= 'F' }

  function HexValue(c: char): (d: int)
    requires IsHexDigit(c)
    ensures 0 <= d < 16
  {
    if c <= '9' then c as int - '0' as int
    else if c <= 'F' then c as int - 'A' as int + 10
    else c as int - 'a' as int + 10
  }

  /** The quote CPython puts around a bytes repr: a double quote when the
      bytes hold a single quote and no double quote, a single quote otherwise. */
  function ReprQuote(bs: seq<byte>): (q: char)
    ensures IsQuote(q)
  {
    if SingleQuote in bs && DoubleQuote !in bs then '"' else '\''
  }

  /** How one byte is written inside a bytes repr delimited by `q`. */
  function EscapeByte(q: char, b: byte): string
  {
    if b == q as int || b == Backslash then ['\\', b as char]
    else if b == 0x09 then "\\t"
    else if b == 0x0A then "\\n"
    else if b == 0x0D then "\\r"
    else if b < 0x20 || 0x7F <= b then ['\\', 'x', HexDigit(b / 16), HexDigit(b % 16)]
    else [b as char]
  }

  function EscapeBytes(q: char, bs: seq<byte>): (s: string)
    ensures |bs| <= |s|
  {
    if bs == [] then [] else EscapeByte(q, bs[0]) + EscapeBytes(q, bs[1..])
  }

  /** `str(bs)` (equivalently `repr(bs)`) for a Python `bytes` object:
      `b`, a quote, the escaped bytes, the same quote. It is always at least
      three characters longer than the bytes it shows. */
  function BytesRepr(bs: seq<byte>): (s: string)
    ensures |bs| + 3 <= |s|
    ensures s[0] == 'b' && IsQuote(s[1]) && s[|s| - 1] == s[1]
  {
    var q := ReprQuote(bs);
    ['b', q] + EscapeBytes(q, bs) + [q]
  }

  function Prepend(b: byte, r: Option<seq<byte>>): Option<seq<byte>>
  {
    match r
    case None => None
    case Some(t) => Some([b] + t)
  }

  /** Reads the body of a bytes literal delimited by `q`: printable ASCII
      characters stand for themselves, and the escapes a repr writes
      (backslash with a quote, a backslash, t, n, r, or x and two hex digits)
      stand for one byte each. An unescaped delimiter, a line break, a
      non-ASCII character or any other escape is rejected. */
  function Unescape(q: char, s: string): Option<seq<byte>>
    decreases |s|
  {
    if s == [] then Some([])
    else if s[0] == '\\' then
      if 2 <= |s| && (s[1] == '\\' || s[1] == '\'' || s[1] == '"') then Prepend(s[1] as int, Unescape(q, s[2..]))
      else if 2 <= |s| && s[1] == 't' then Prepend(0x09, Unescape(q, s[2..]))
      else if 2 <= |s| && s[1] == 'n' then Prepend(0x0A, Unescape(q, s[2..]))
      else if 2 <= |s| && s[1] == 'r' then Prepend(0x0D, Unescape(q, s[2..]))
      else if 4 <= |s| && s[1] == 'x' && IsHexDigit(s[2]) && IsHexDigit(s[3]) then
        Prepend(HexValue(s[2]) * 16 + HexValue(s[3]), Unescape(q, s[4..]))
      else None
    else if s[0] == q || s[0] == '\n' || s[0] == '\r' || 0x80 <= s[0] as int then None
    else Prepend(s[0] as int, Unescape(q, s[1..]))
  }

  /** Reads a whole bytes literal `b'…'` or `b"…"`. */
  function ParseBytesLiteral(s: string): Option<seq<byte>>
  {
    if 3 <= |s| && s[0] == 'b' && IsQuote(s[1]) && s[|s| - 1] == s[1] then Unescape(s[1], s[2..|s| - 1])
    else None
  }

  lemma UnescapeEscapedByte(q: char, b: byte, rest: string)
    requires IsQuote(q)
    ensures Unescape(q, EscapeByte(q, b) + rest) == Prepend(b, Unescape(q, rest))
  {
    var e := EscapeByte(q, b);
    var s := e + rest;
    assert s[|e|..] == rest;
    if b == q as int || b == Backslash {
    } else if b == 0x09 || b == 0x0A || b == 0x0D {
    } else if b < 0x20 || 0x7F <= b {
      assert HexValue(s[2]) * 16 + HexValue(s[3]) == b;
    } else {
    }
  }

  lemma {:induction false} EscapeBytesRoundTrip(q: char, bs: seq<byte>)
    requires IsQuote(q)
    ensures Unescape(q, EscapeBytes(q, bs)) == Some(bs)
  {
    if bs != [] {
      UnescapeEscapedByte(q, bs[0], EscapeBytes(q, bs[1..]));
      EscapeBytesRoundTrip(q, bs[1..]);
      assert [bs[0]] + bs[1..] == bs;
    }
  }

  /** Reading the printed form of a bytes object back as a literal gives
      the same bytes. */
  lemma BytesReprRoundTrip(bs: seq<byte>)
    ensures ParseBytesLiteral(BytesRepr(bs)) == Some(bs)
  {
    var q := ReprQuote(bs);
    var s := BytesRepr(bs);
    assert s[2..|s| - 1] == EscapeBytes(q, bs);
    EscapeBytesRoundTrip(q, bs);
  }

}
