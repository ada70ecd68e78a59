/**
 * UTF-8 as RFC 3629 defines it, and as Python's bytes.decode('utf-8') applies it
 * with its default strict error handling: any ill-formed sequence (a stray
 * continuation byte, an overlong form, an encoded surrogate, a value above
 * U+10FFFF, a truncated sequence) makes the whole decoding fail.
 *
 * A Dafny char is a Unicode scalar value, so a string is exactly what a
 * well-formed UTF-8 byte string can denote.
 */
module Utf8 {
  import opened Wrappers
  import opened Bytes

  /** The encoding of one scalar value, in one to four bytes (section 3 of RFC 3629). */
  function EncodeChar(c: char): (b: seq<byte>)
    ensures 1 <= |b| <= 4
  {
    var n := c as int;
    if n < 0x80 then [n]
    else if n < 0x800 then [0xC0 + n / 64, 0x80 + n % 64]
    else if n < 0x1_0000 then [0xE0 + n / 4096, 0x80 + n / 64 % 64, 0x80 + n % 64]
    else [0xF0 + n / 0x4_0000, 0x80 + n / 4096 % 64, 0x80 + n / 64 % 64, 0x80 + n % 64]
  }

  function Encode(s: string): seq<byte>
    decreases |s|
  {
    if s == [] then [] else EncodeChar(s[0]) + Encode(s[1..])
  }

  predicate IsContinuation(x: byte) {
    0x80 <= x <= 0xBF
  }

  /** Length of the sequence a lead byte announces; 0 for a byte that cannot lead one. */
  function SequenceLength(b0: byte): nat {
    if b0 < 0x80 then 1
    else if 0xC2 <= b0 <= 0xDF then 2
    else if 0xE0 <= b0 <= 0xEF then 3
    else if 0xF0 <= b0 <= 0xF4 then 4
    else 0
  }

  /**
   * Bounds on the second byte of a multi-byte sequence (the syntax of section 4 of
   * RFC 3629): they exclude overlong forms, surrogates and values above U+10FFFF.
   */
  function SecondLow(b0: byte): int {
    if b0 == 0xE0 then 0xA0 else if b0 == 0xF0 then 0x90 else 0x80
  }

  function SecondHigh(b0: byte): int {
    if b0 == 0xED then 0x9F else if b0 == 0xF4 then 0x8F else 0xBF
  }

  /**
   * The character a byte string starts with and the number of bytes it takes, when
   * the string starts with a well-formed sequence; those bytes are then exactly the
   * encoding of that character.
   */
  function DecodeFirst(b: seq<byte>): (r: Option<(char, nat)>)
    ensures r.Some? ==> 1 <= r.value.1 <= |b| && b[..r.value.1] == EncodeChar(r.value.0)
  {
    if b == [] then None
    else
      var n := SequenceLength(b[0]);
      if n == 0 || |b| < n then None
      else if n == 1 then Some((b[0] as char, 1))
      else if !(SecondLow(b[0]) <= b[1] <= SecondHigh(b[0])) then None
      else if n == 2 then Some((Value2(b[0], b[1]) as char, 2))
      else if !IsContinuation(b[2]) then None
      else if n == 3 then Some((Value3(b[0], b[1], b[2]) as char, 3))
      else if !IsContinuation(b[3]) then None
      else Some((Value4(b[0], b[1], b[2], b[3]) as char, 4))
  }

  /** The scalar value a well-formed two-byte sequence carries. */
  function Value2(b0: byte, b1: byte): (n: int)
    requires 0xC2 <= b0 <= 0xDF && IsContinuation(b1)
    ensures 0x80 <= n < 0x800 && [0xC0 + n / 64, 0x80 + n % 64] == [b0, b1]
  {
    (b0 as int - 0xC0) * 64 + (b1 as int - 0x80)
  }

  /** The scalar value a well-formed three-byte sequence carries; never a surrogate. */
  function Value3(b0: byte, b1: byte, b2: byte): (n: int)
    requires 0xE0 <= b0 <= 0xEF && SecondLow(b0) <= b1 <= SecondHigh(b0) && IsContinuation(b2)
    ensures 0x800 <= n < 0x1_0000 && !(0xD800 <= n < 0xE000)
    ensures [0xE0 + n / 4096, 0x80 + n / 64 % 64, 0x80 + n % 64] == [b0, b1, b2]
  {
    Digits3(b0 as int - 0xE0, b1 as int - 0x80, b2 as int - 0x80);
    (b0 as int - 0xE0) * 4096 + (b1 as int - 0x80) * 64 + (b2 as int - 0x80)
  }

  /** The scalar value a well-formed four-byte sequence carries; at most U+10FFFF. */
  function Value4(b0: byte, b1: byte, b2: byte, b3: byte): (n: int)
    requires 0xF0 <= b0 <= 0xF4 && SecondLow(b0) <= b1 <= SecondHigh(b0)
    requires IsContinuation(b2) && IsContinuation(b3)
    ensures 0x1_0000 <= n < 0x11_0000
    ensures [0xF0 + n / 0x4_0000, 0x80 + n / 4096 % 64, 0x80 + n / 64 % 64, 0x80 + n % 64] == [b0, b1, b2, b3]
  {
    var n := (b0 as int - 0xF0) * 0x4_0000 + (b1 as int - 0x80) * 4096 + (b2 as int - 0x80) * 64 + (b3 as int - 0x80);
    Digits4(b0 as int - 0xF0, b1 as int - 0x80, b2 as int - 0x80, b3 as int - 0x80);
    n
  }

  /** Reading back the base-64 digits of a number written with three of them. */
  lemma Digits3(d0: int, d1: int, d2: int)
    requires 0 <= d0 < 16 && 0 <= d1 < 64 && 0 <= d2 < 64
    ensures var n := d0 * 4096 + d1 * 64 + d2;
      n / 4096 == d0 && n / 64 % 64 == d1 && n % 64 == d2
  {
    var n := d0 * 4096 + d1 * 64 + d2;
    assert n / 64 == d0 * 64 + d1;
  }

  /** Reading back the base-64 digits of a number written with four of them. */
  lemma Digits4(d0: int, d1: int, d2: int, d3: int)
    requires 0 <= d0 < 8 && 0 <= d1 < 64 && 0 <= d2 < 64 && 0 <= d3 < 64
    ensures var n := d0 * 0x4_0000 + d1 * 4096 + d2 * 64 + d3;
      n / 0x4_0000 == d0 && n / 4096 % 64 == d1 && n / 64 % 64 == d2 && n % 64 == d3
  {
    var n := d0 * 0x4_0000 + d1 * 4096 + d2 * 64 + d3;
    assert n / 0x4_0000 == d0;
    assert n / 4096 == d0 * 64 + d1;
    assert n / 64 == d0 * 4096 + d1 * 64 + d2;
  }

  /** bytes.decode('utf-8'): the text, or None for bytes that are not well-formed UTF-8. */
  function Decode(b: seq<byte>): (r: Option<string>)
    ensures r.Some? ==> |r.value| <= |b|
    decreases |b|
  {
    if b == [] then Some([])
    else match DecodeFirst(b)
      case None => None
      case Some((c, n)) =>
        match Decode(b[n..])
        case None => None
        case Some(s) => Some([c] + s)
  }

  /** The encoding of a character is read back as that character, whatever follows it. */
  lemma DecodeFirstEncodeChar(c: char, rest: seq<byte>)
    ensures DecodeFirst(EncodeChar(c) + rest) == Some((c, |EncodeChar(c)|))
  {
    var n := c as int;
    if n < 0x80 {
    } else if n < 0x800 {
      DecodeFirstTwo(c, rest);
    } else if n < 0x1_0000 {
      DecodeFirstThree(c, rest);
    } else {
      DecodeFirstFour(c, rest);
    }
  }

  lemma DecodeFirstTwo(c: char, rest: seq<byte>)
    requires 0x80 <= c as int < 0x800
    ensures DecodeFirst(EncodeChar(c) + rest) == Some((c, 2))
  {
    var n := c as int;
    var b := EncodeChar(c) + rest;
    assert b[0] == 0xC0 + n / 64 && b[1] == 0x80 + n % 64;
    assert Value2(b[0], b[1]) == n;
  }

  lemma DecodeFirstThree(c: char, rest: seq<byte>)
    requires 0x800 <= c as int < 0x1_0000
    ensures DecodeFirst(EncodeChar(c) + rest) == Some((c, 3))
  {
    var n := c as int;
    var b := EncodeChar(c) + rest;
    ThreeDigits(n);
    assert b[0] == 0xE0 + n / 4096 && b[1] == 0x80 + n / 64 % 64 && b[2] == 0x80 + n % 64;
    assert Value3(b[0], b[1], b[2]) == n;
  }

  lemma DecodeFirstFour(c: char, rest: seq<byte>)
    requires 0x1_0000 <= c as int
    ensures DecodeFirst(EncodeChar(c) + rest) == Some((c, 4))
  {
    var n := c as int;
    var b := EncodeChar(c) + rest;
    FourDigits(n);
    assert b[0] == 0xF0 + n / 0x4_0000 && b[1] == 0x80 + n / 4096 % 64;
    assert b[2] == 0x80 + n / 64 % 64 && b[3] == 0x80 + n % 64;
    assert Value4(b[0], b[1], b[2], b[3]) == n;
  }

  /**
   * The three base-64 digits of a scalar value that takes three bytes, and the
   * bounds on its second digit that the second-byte ranges of RFC 3629 encode.
   */
  lemma ThreeDigits(n: int)
    requires 0x800 <= n < 0x1_0000 && !(0xD800 <= n < 0xE000)
    ensures n == n / 4096 * 4096 + n / 64 % 64 * 64 + n % 64
    ensures n / 4096 < 16
    ensures n / 4096 == 0 ==> 0x20 <= n / 64 % 64
    ensures n / 4096 == 13 ==> n / 64 % 64 < 0x20
  {
    var q1, q2 := n / 64, n / 4096;
    assert q1 / 64 == q2;
  }

  /**
   * The four base-64 digits of a scalar value that takes four bytes, and the
   * bounds on its second digit that the second-byte ranges of RFC 3629 encode.
   */
  lemma FourDigits(n: int)
    requires 0x1_0000 <= n < 0x11_0000
    ensures n == n / 0x4_0000 * 0x4_0000 + n / 4096 % 64 * 4096 + n / 64 % 64 * 64 + n % 64
    ensures n / 0x4_0000 <= 4
    ensures n / 0x4_0000 == 0 ==> 0x10 <= n / 4096 % 64
    ensures n / 0x4_0000 == 4 ==> n / 4096 % 64 < 0x10
  {
    var q1, q2, q3 := n / 64, n / 4096, n / 0x4_0000;
    assert q1 / 64 == q2;
    assert q2 / 64 == q3;
  }

  /** A character's encoding followed by decodable bytes decodes to that character followed by their text. */
  lemma DecodeAfterChar(c: char, rest: seq<byte>)
    requires Decode(rest).Some?
    ensures Decode(EncodeChar(c) + rest) == Some([c] + Decode(rest).value)
  {
    var e := EncodeChar(c);
    DecodeFirstEncodeChar(c, rest);
    assert (e + rest)[|e|..] == rest;
  }

  /** Decoding the UTF-8 encoding of any text gives back that text. */
  lemma {:induction false} DecodeEncode(s: string)
    ensures Decode(Encode(s)) == Some(s)
    decreases |s|
  {
    if s != [] {
      var c, t := s[0], s[1..];
      calc {
        Decode(Encode(s));
        Decode(EncodeChar(c) + Encode(t));
      == { DecodeEncode(t); DecodeAfterChar(c, Encode(t)); }
        Some([c] + t);
      == { Cons(s); }
        Some(s);
      }
    }
  }

  /** Sequence identity kept out of DecodeEncode so that its proof stays small. */
  lemma Cons(s: string)
    requires s != []
    ensures [s[0]] + s[1..] == s
  {
  }

  /** Whatever decodes successfully is the encoding of its result: no other bytes are accepted. */
  lemma {:induction false} EncodeDecode(b: seq<byte>, s: string)
    requires Decode(b) == Some(s)
    ensures Encode(s) == b
    decreases |b|
  {
    if b != [] {
      var (c, n) := DecodeFirst(b).value;
      var t := Decode(b[n..]).value;
      assert s == [c] + t;
      calc {
        Encode(s);
      == { assert s[0] == c && s[1..] == t; }
        EncodeChar(c) + Encode(t);
      == { EncodeDecode(b[n..], t); }
        b[..n] + b[n..];
      == { Rejoin(b, n); }
        b;
      }
    }
  }

  /** A text has one UTF-8 encoding: the only bytes that decode to it are Encode's. */
  lemma EncodingIsUnique(s: string)
    ensures forall b :: Decode(b) == Some(s) ==> b == Encode(s)
  {
    forall b | Decode(b) == Some(s)
      ensures b == Encode(s)
    {
      EncodeDecode(b, s);
    }
  }

  /** Sequence identity kept out of EncodeDecode so that its proof stays small. */
  lemma Rejoin(b: seq<byte>, n: nat)
    requires n <= |b|
    ensures b[..n] + b[n..] == b
  {
  }
}
