/**
 * Python's base64.b64decode with its default arguments (validate=False), as the
 * Basic-Auth decoder calls it, and the standard encoding of section 4 of RFC 4648.
 *
 * The decoder follows CPython's binascii.a2b_base64 in non-strict mode: it reads
 * the text one character at a time, keeps its position inside the current quantum
 * of four characters, silently skips every character outside the alphabet, counts
 * '=' only once two or more characters of a quantum have been read, stops at the
 * first complete padding run, and fails when the text ends inside a quantum.
 * A str argument must be pure ASCII, or the call raises before decoding.
 */
module Base64 {
  import opened Wrappers
  import opened Bytes

  predicate IsAscii(s: string) {
    forall i :: 0 <= i < |s| ==> s[i] as int < 128
  }

  /** The 64 characters of the base64 alphabet (Table 1 of RFC 4648). */
  predicate IsAlphabetChar(c: char) {
    ('A' <= c <= 'Z') || ('a' <= c <= 'z') || ('0' <= c <= '9') || c == '+' || c == '/'
  }

  /** The 6-bit value a character of the alphabet stands for. */
  function SextetOf(c: char): (v: int)
    requires IsAlphabetChar(c)
    ensures 0 <= v < 64
  {
    if 'A' <= c <= 'Z' then c as int - 'A' as int
    else if 'a' <= c <= 'z' then c as int - 'a' as int + 26
    else if '0' <= c <= '9' then c as int - '0' as int + 52
    else if c == '+' then 62
    else 63
  }

  /** The character of the alphabet for a 6-bit value: the inverse of SextetOf. */
  function CharOf(v: int): (c: char)
    requires 0 <= v < 64
    ensures IsAlphabetChar(c) && SextetOf(c) == v
  {
    if v < 26 then (v + 'A' as int) as char
    else if v < 52 then (v - 26 + 'a' as int) as char
    else if v < 62 then (v - 52 + '0' as int) as char
    else if v == 62 then '+'
    else '/'
  }

  /** The four characters that encode a final block of one byte. */
  function PaddedSingle(b0: byte): string {
    [CharOf(b0 / 4), CharOf(b0 % 4 * 16), '=', '=']
  }

  /** The four characters that encode a final block of two bytes. */
  function PaddedPair(b0: byte, b1: byte): string {
    [CharOf(b0 / 4), CharOf(b0 % 4 * 16 + b1 / 16), CharOf(b1 % 16 * 4), '=']
  }

  /** The four characters that encode three bytes. */
  function Quantum(b0: byte, b1: byte, b2: byte): string {
    [CharOf(b0 / 4), CharOf(b0 % 4 * 16 + b1 / 16), CharOf(b1 % 16 * 4 + b2 / 64), CharOf(b2 % 64)]
  }

  /** Standard encoding with '=' padding: each group of three bytes becomes four characters. */
  function Encode(b: seq<byte>): (s: string)
    ensures |s| == (|b| + 2) / 3 * 4
    decreases |b|
  {
    if |b| == 0 then []
    else if |b| == 1 then PaddedSingle(b[0])
    else if |b| == 2 then PaddedPair(b[0], b[1])
    else Quantum(b[0], b[1], b[2]) + Encode(b[3..])
  }

  /**
   * The decoder's variables: the position inside the current quantum (0 to 3),
   * the bits of the last character not yet emitted, the number of '=' seen in the
   * current padding run, the bytes emitted so far, and whether a padding run has
   * ended the input.
   */
  datatype Decoder = Decoder(quad: int, left: int, pads: int, out: seq<byte>, done: bool)

  const Start := Decoder(0, 0, 0, [], false)

  /** One turn of the decoding loop. Emitted bytes are truncated to 8 bits as C stores them. */
  function Step(d: Decoder, c: char): Decoder {
    if d.done then d
    else if c == '=' then
      if d.quad >= 2 && d.quad + d.pads + 1 >= 4 then d.(done := true)
      else if d.quad >= 2 then d.(pads := d.pads + 1)
      else d
    else if !IsAlphabetChar(c) then d
    else
      var v := SextetOf(c);
      if d.quad == 0 then Decoder(1, v, 0, d.out, false)
      else if d.quad == 1 then Decoder(2, v % 16, 0, d.out + [(d.left * 4 + v / 16) % 256], false)
      else if d.quad == 2 then Decoder(3, v % 4, 0, d.out + [(d.left * 16 + v / 4) % 256], false)
      else Decoder(0, 0, 0, d.out + [(d.left * 64 + v) % 256], false)
  }

  function Scan(d: Decoder, s: string): Decoder
    decreases |s|
  {
    if s == [] then d else Scan(Step(d, s[0]), s[1..])
  }

  /** After the loop: a text that ends inside a quantum, without padding, is an error. */
  function Finish(d: Decoder): Option<seq<byte>> {
    if d.done || d.quad == 0 then Some(d.out) else None
  }

  /**
   * base64.b64decode on a str: text with a non-ASCII character is refused, and the
   * decoded bytes are at most three for every four alphabet characters.
   */
  function Decode(s: string): (r: Option<seq<byte>>)
    ensures !IsAscii(s) ==> r.None?
    ensures r.Some? ==> 4 * |r.value| <= 3 * DataCount(s)
  {
    if !IsAscii(s) then None
    else
      ScanBound(Start, s);
      Finish(Scan(Start, s))
  }

  /** Number of alphabet characters in a text: the characters the decoder does not skip. */
  function DataCount(s: string): nat
    decreases |s|
  {
    if s == [] then 0 else (if IsAlphabetChar(s[0]) then 1 else 0) + DataCount(s[1..])
  }

  /** Sextets read in the current quantum still owed to the output, in quarter-bytes: 3, 2, 1 after one, two, three. */
  function Pending(quad: int): int {
    if quad == 0 then 0 else 4 - quad
  }

  /** One character adds at most three quarter-bytes of output, and only when it is an alphabet character. */
  lemma StepBound(d: Decoder, c: char)
    requires 0 <= d.quad < 4
    ensures 0 <= Step(d, c).quad < 4
    ensures 4 * |Step(d, c).out| + Pending(Step(d, c).quad) <= 4 * |d.out| + Pending(d.quad) + (if IsAlphabetChar(c) then 3 else 0)
  {
  }

  /** Over a whole text, the output grows by at most three bytes per four alphabet characters. */
  lemma {:induction false} ScanBound(d: Decoder, s: string)
    requires 0 <= d.quad < 4
    ensures 0 <= Scan(d, s).quad < 4
    ensures 4 * |Scan(d, s).out| + Pending(Scan(d, s).quad) <= 4 * |d.out| + Pending(d.quad) + 3 * DataCount(s)
    decreases |s|
  {
    if s != [] {
      StepBound(d, s[0]);
      ScanBound(Step(d, s[0]), s[1..]);
    }
  }

  lemma {:induction false} ScanAppend(d: Decoder, x: string, y: string)
    ensures Scan(d, x + y) == Scan(Scan(d, x), y)
    decreases |x|
  {
    if x == [] {
      assert x + y == y;
    } else {
      assert (x + y)[0] == x[0];
      assert (x + y)[1..] == x[1..] + y;
      ScanAppend(Step(d, x[0]), x[1..], y);
    }
  }

  lemma {:induction false} ScanAfterPadding(d: Decoder, s: string)
    requires d.done
    ensures Scan(d, s) == d
    decreases |s|
  {
    if s != [] {
      ScanAfterPadding(Step(d, s[0]), s[1..]);
    }
  }

  lemma ScanFour(d: Decoder, c0: char, c1: char, c2: char, c3: char)
    ensures Scan(d, [c0, c1, c2, c3]) == Step(Step(Step(Step(d, c0), c1), c2), c3)
  {
    var s := [c0, c1, c2, c3];
    var d1 := Step(d, c0);
    var d2 := Step(d1, c1);
    var d3 := Step(d2, c2);
    assert s[1..] == [c1, c2, c3];
    assert [c1, c2, c3][1..] == [c2, c3];
    assert [c2, c3][1..] == [c3];
    assert [c3][1..] == [];
    calc {
      Scan(d, s);
      Scan(d1, [c1, c2, c3]);
      Scan(d2, [c2, c3]);
      Scan(d3, [c3]);
      Scan(Step(d3, c3), []);
    }
  }

  /** The three bytes of a block come back out of its four sextets. */
  lemma Regroup(b0: byte, b1: byte, b2: byte)
    ensures (b0 / 4 * 4 + (b0 % 4 * 16 + b1 / 16) / 16) % 256 == b0
    ensures (b0 % 4 * 16 + b1 / 16) % 16 == b1 / 16
    ensures (b1 / 16 * 16 + (b1 % 16 * 4 + b2 / 64) / 4) % 256 == b1
    ensures (b1 % 16 * 4 + b2 / 64) % 4 == b2 / 64
    ensures (b2 / 64 * 64 + b2 % 64) % 256 == b2
  {
  }

  /** Four alphabet characters read from the start of a quantum give three bytes. */
  lemma ScanQuantum(d: Decoder, v0: int, v1: int, v2: int, v3: int)
    requires d.quad == 0 && !d.done
    requires 0 <= v0 < 64 && 0 <= v1 < 64 && 0 <= v2 < 64 && 0 <= v3 < 64
    ensures Scan(d, [CharOf(v0), CharOf(v1), CharOf(v2), CharOf(v3)]) ==
      Decoder(0, 0, 0, d.out + [(v0 * 4 + v1 / 16) % 256, (v1 % 16 * 16 + v2 / 4) % 256, (v2 % 4 * 64 + v3) % 256], false)
  {
    var x0, x1, x2 := (v0 * 4 + v1 / 16) % 256, (v1 % 16 * 16 + v2 / 4) % 256, (v2 % 4 * 64 + v3) % 256;
    ScanFour(d, CharOf(v0), CharOf(v1), CharOf(v2), CharOf(v3));
    var d1 := Step(d, CharOf(v0));
    assert d1 == Decoder(1, v0, 0, d.out, false);
    var d2 := Step(d1, CharOf(v1));
    assert d2 == Decoder(2, v1 % 16, 0, d.out + [x0], false);
    var d3 := Step(d2, CharOf(v2));
    assert d3 == Decoder(3, v2 % 4, 0, d.out + [x0] + [x1], false);
    assert Step(d3, CharOf(v3)) == Decoder(0, 0, 0, d.out + [x0] + [x1] + [x2], false);
    assert d.out + [x0] + [x1] + [x2] == d.out + [x0, x1, x2];
  }

  /** Three alphabet characters and one '=' read from the start of a quantum give two bytes and end the input. */
  lemma ScanPaddedPair(d: Decoder, v0: int, v1: int, v2: int)
    requires d.quad == 0 && d.pads == 0 && !d.done
    requires 0 <= v0 < 64 && 0 <= v1 < 64 && 0 <= v2 < 64
    ensures Scan(d, [CharOf(v0), CharOf(v1), CharOf(v2), '=']) ==
      Decoder(3, v2 % 4, 0, d.out + [(v0 * 4 + v1 / 16) % 256, (v1 % 16 * 16 + v2 / 4) % 256], true)
  {
    var x0, x1 := (v0 * 4 + v1 / 16) % 256, (v1 % 16 * 16 + v2 / 4) % 256;
    ScanFour(d, CharOf(v0), CharOf(v1), CharOf(v2), '=');
    var d1 := Step(d, CharOf(v0));
    assert d1 == Decoder(1, v0, 0, d.out, false);
    var d2 := Step(d1, CharOf(v1));
    assert d2 == Decoder(2, v1 % 16, 0, d.out + [x0], false);
    var d3 := Step(d2, CharOf(v2));
    assert d3 == Decoder(3, v2 % 4, 0, d.out + [x0] + [x1], false);
    assert d.out + [x0] + [x1] == d.out + [x0, x1];
  }

  /** Two alphabet characters and two '=' read from the start of a quantum give one byte and end the input. */
  lemma ScanPaddedSingle(d: Decoder, v0: int, v1: int)
    requires d.quad == 0 && d.pads == 0 && !d.done
    requires 0 <= v0 < 64 && 0 <= v1 < 64
    ensures Scan(d, [CharOf(v0), CharOf(v1), '=', '=']) ==
      Decoder(2, v1 % 16, 1, d.out + [(v0 * 4 + v1 / 16) % 256], true)
  {
    ScanFour(d, CharOf(v0), CharOf(v1), '=', '=');
    var d1 := Step(d, CharOf(v0));
    assert d1 == Decoder(1, v0, 0, d.out, false);
    var d2 := Step(d1, CharOf(v1));
    assert d2 == Decoder(2, v1 % 16, 0, d.out + [(v0 * 4 + v1 / 16) % 256], false);
  }

  /** The padded quantum written for one byte reads back as that byte and ends the input. */
  lemma ScanPaddedSingleBytes(d: Decoder, b0: byte)
    requires d.quad == 0 && d.pads == 0 && !d.done
    ensures Scan(d, PaddedSingle(b0)).done && Scan(d, PaddedSingle(b0)).out == d.out + [b0]
  {
    var v0, v1 := b0 / 4, b0 % 4 * 16;
    calc {
      Scan(d, PaddedSingle(b0));
      Scan(d, [CharOf(v0), CharOf(v1), '=', '=']);
    == { ScanPaddedSingle(d, v0, v1); }
      Decoder(2, v1 % 16, 1, d.out + [(v0 * 4 + v1 / 16) % 256], true);
    == { Regroup(b0, 0, 0); }
      Decoder(2, v1 % 16, 1, d.out + [b0], true);
    }
  }

  /** The padded quantum written for two bytes reads back as those bytes and ends the input. */
  lemma ScanPaddedPairBytes(d: Decoder, b0: byte, b1: byte)
    requires d.quad == 0 && d.pads == 0 && !d.done
    ensures Scan(d, PaddedPair(b0, b1)).done && Scan(d, PaddedPair(b0, b1)).out == d.out + [b0, b1]
  {
    var v0, v1, v2 := b0 / 4, b0 % 4 * 16 + b1 / 16, b1 % 16 * 4;
    calc {
      Scan(d, PaddedPair(b0, b1));
      Scan(d, [CharOf(v0), CharOf(v1), CharOf(v2), '=']);
    == { ScanPaddedPair(d, v0, v1, v2); }
      Decoder(3, v2 % 4, 0, d.out + [(v0 * 4 + v1 / 16) % 256, (v1 % 16 * 16 + v2 / 4) % 256], true);
    == { Regroup(b0, b1, 0); }
      Decoder(3, v2 % 4, 0, d.out + [b0, b1], true);
    }
  }

  /** A final block of one byte reads back as that byte and ends the input (the last step of ScanEncoded). */
  lemma ScanOneByteBlock(d: Decoder, b: seq<byte>)
    requires d.quad == 0 && d.pads == 0 && !d.done && |b| == 1
    ensures Scan(d, Encode(b)).done && Scan(d, Encode(b)).out == d.out + b
  {
    ScanPaddedSingleBytes(d, b[0]);
    assert [b[0]] == b;
  }

  /** A final block of two bytes reads back as those bytes and ends the input (the last step of ScanEncoded). */
  lemma ScanTwoByteBlock(d: Decoder, b: seq<byte>)
    requires d.quad == 0 && d.pads == 0 && !d.done && |b| == 2
    ensures Scan(d, Encode(b)).done && Scan(d, Encode(b)).out == d.out + b
  {
    ScanPaddedPairBytes(d, b[0], b[1]);
    assert [b[0], b[1]] == b;
  }

  lemma EncodeBlock(blk: seq<byte>)
    requires |blk| == 3
    ensures Encode(blk) == Quantum(blk[0], blk[1], blk[2])
  {
    assert blk[3..] == [];
  }

  lemma ScanFullBlock(d: Decoder, blk: seq<byte>)
    requires d.quad == 0 && d.pads == 0 && !d.done && |blk| == 3
    ensures Scan(d, Encode(blk)) == Decoder(0, 0, 0, d.out + blk, false)
  {
    EncodeBlock(blk);
    ScanQuantumBytes(d, blk[0], blk[1], blk[2]);
    assert [blk[0], blk[1], blk[2]] == blk;
  }

  /** The quantum written for three bytes reads back as those bytes. */
  lemma ScanQuantumBytes(d: Decoder, b0: byte, b1: byte, b2: byte)
    requires d.quad == 0 && d.pads == 0 && !d.done
    ensures Scan(d, Quantum(b0, b1, b2)) == Decoder(0, 0, 0, d.out + [b0, b1, b2], false)
  {
    var v0, v1, v2, v3 := b0 / 4, b0 % 4 * 16 + b1 / 16, b1 % 16 * 4 + b2 / 64, b2 % 64;
    calc {
      Scan(d, Quantum(b0, b1, b2));
      Scan(d, [CharOf(v0), CharOf(v1), CharOf(v2), CharOf(v3)]);
    == { ScanQuantum(d, v0, v1, v2, v3); }
      Decoder(0, 0, 0, d.out + [(v0 * 4 + v1 / 16) % 256, (v1 % 16 * 16 + v2 / 4) % 256, (v2 % 4 * 64 + v3) % 256], false);
    == { Regroup(b0, b1, b2); }
      Decoder(0, 0, 0, d.out + [b0, b1, b2], false);
    }
  }

  /** The encoding of a long byte string starts with the encoding of its first three bytes. */
  lemma EncodeFirstBlock(b: seq<byte>)
    requires |b| >= 3
    ensures Encode(b) == Encode(b[..3]) + Encode(b[3..])
  {
    var blk := b[..3];
    assert blk[0] == b[0] && blk[1] == b[1] && blk[2] == b[2];
    EncodeBlock(blk);
  }

  /** Every character of an encoding is from the alphabet or is the pad '='. */
  lemma {:induction false} EncodeUsesAlphabet(b: seq<byte>)
    ensures forall i :: 0 <= i < |Encode(b)| ==> IsAlphabetChar(Encode(b)[i]) || Encode(b)[i] == '='
    decreases |b|
  {
    if |b| >= 3 {
      var s, r := Encode(b), Encode(b[3..]);
      EncodeUsesAlphabet(b[3..]);
      var q := Quantum(b[0], b[1], b[2]);
      assert s == q + r;
      assert IsAlphabetChar(q[0]) && IsAlphabetChar(q[1]) && IsAlphabetChar(q[2]) && IsAlphabetChar(q[3]);
      forall i | 0 <= i < |s| ensures IsAlphabetChar(s[i]) || s[i] == '=' {
        if i < 4 {
          assert s[i] == q[i];
        } else {
          assert s[i] == r[i - 4];
        }
      }
    }
  }

  /** Sequence identity kept out of ScanEncoded so that its proof stays small. */
  lemma SplitAt(out: seq<byte>, b: seq<byte>, n: nat)
    requires n <= |b|
    ensures (out + b[..n]) + b[n..] == out + b
  {
    assert b[..n] + b[n..] == b;
  }

  lemma {:induction false} ScanEncoded(d: Decoder, b: seq<byte>)
    requires d.quad == 0 && d.pads == 0 && !d.done
    ensures Finish(Scan(d, Encode(b))) == Some(d.out + b)
    decreases |b|
  {
    if |b| == 0 {
      assert d.out + b == d.out;
    } else if |b| == 1 {
      ScanOneByteBlock(d, b);
    } else if |b| == 2 {
      ScanTwoByteBlock(d, b);
    } else {
      ScanFullBlock(d, b[..3]);
      EncodeFirstBlock(b);
      ScanAppend(d, Encode(b[..3]), Encode(b[3..]));
      var d' := Decoder(0, 0, 0, d.out + b[..3], false);
      ScanEncoded(d', b[3..]);
      SplitAt(d.out, b, 3);
    }
  }

  /** Decoding the standard encoding of any byte string gives back that byte string. */
  lemma DecodeEncode(b: seq<byte>)
    ensures Decode(Encode(b)) == Some(b)
  {
    var s := Encode(b);
    EncodeUsesAlphabet(b);
    assert IsAscii(s) by {
      forall i | 0 <= i < |s| ensures s[i] as int < 128 {
        assert IsAlphabetChar(s[i]) || s[i] == '=';
      }
    }
    ScanEncoded(Start, b);
    assert Start.out + b == b;
  }

  lemma {:induction false} ScanWithoutPadding(d: Decoder, s: string)
    requires '=' !in s && !d.done && 0 <= d.quad < 4
    ensures !Scan(d, s).done && Scan(d, s).quad == (d.quad + DataCount(s)) % 4
    decreases |s|
  {
    if s != [] {
      var c, k, t := s[0], if IsAlphabetChar(s[0]) then 1 else 0, s[1..];
      assert c != '=' && '=' !in t by { TailHasNoPadding(s); }
      StepWithoutPadding(d, c);
      ScanWithoutPadding(Step(d, c), t);
      assert (d.quad + DataCount(s)) % 4 == ((d.quad + k) % 4 + DataCount(t)) % 4 by {
        ModSum(d.quad + k, DataCount(t));
      }
    }
  }

  /** Membership fact kept out of ScanWithoutPadding so that its proof stays small. */
  lemma TailHasNoPadding(s: string)
    requires s != [] && '=' !in s
    ensures s[0] != '=' && '=' !in s[1..]
  {
    assert s == [s[0]] + s[1..];
  }

  /** One character other than '=' advances the quantum exactly when it is an alphabet character. */
  lemma StepWithoutPadding(d: Decoder, c: char)
    requires c != '=' && !d.done && 0 <= d.quad < 4
    ensures !Step(d, c).done
    ensures Step(d, c).quad == (d.quad + if IsAlphabetChar(c) then 1 else 0) % 4
  {
  }

  /** Arithmetic step of ScanWithoutPadding. */
  lemma ModSum(a: nat, n: nat)
    ensures (a % 4 + n) % 4 == (a + n) % 4
  {
  }

  /**
   * Malformed input: without padding, a text whose count of alphabet characters is
   * not a multiple of four is rejected (a lone trailing character, or missing '=').
   */
  lemma DecodeRejectsIncompleteQuantum(s: string)
    requires '=' !in s && DataCount(s) % 4 != 0
    ensures Decode(s) == None
  {
    if IsAscii(s) {
      ScanWithoutPadding(Start, s);
    }
  }

  /** Once a padding run has ended the input, whatever ASCII text follows is ignored. */
  lemma DecodeIgnoresTextAfterPadding(x: string, y: string)
    requires IsAscii(y) && Scan(Start, x).done
    ensures Decode(x + y) == Decode(x)
  {
    ScanAppend(Start, x, y);
    ScanAfterPadding(Scan(Start, x), y);
    AsciiConcat(x, y);
  }

  /** A concatenation is ASCII exactly when both parts are. */
  lemma AsciiConcat(x: string, y: string)
    ensures IsAscii(x + y) <==> IsAscii(x) && IsAscii(y)
  {
    var s := x + y;
    if IsAscii(s) {
      forall i | 0 <= i < |x| ensures x[i] as int < 128 { assert s[i] == x[i]; }
      forall i | 0 <= i < |y| ensures y[i] as int < 128 { assert s[|x| + i] == y[i]; }
    }
  }

  /** An ASCII character that leaves the decoder where it was can be dropped from the input. */
  lemma DecodeSkipsNeutral(x: string, c: char, y: string)
    requires c as int < 128 && Step(Scan(Start, x), c) == Scan(Start, x)
    ensures Decode(x + [c] + y) == Decode(x + y)
  {
    ScanAppend(Start, x + [c], y);
    ScanAppend(Start, x, [c]);
    ScanAppend(Start, x, y);
    assert Scan(Scan(Start, x), [c]) == Scan(Start, x);
    var s, t := x + [c] + y, x + y;
    if IsAscii(t) {
      forall i | 0 <= i < |s| ensures s[i] as int < 128 {
        if i < |x| { assert s[i] == t[i]; }
        else if i > |x| { assert s[i] == t[i - 1]; }
      }
    } else {
      var i :| 0 <= i < |t| && t[i] as int >= 128;
      if i < |x| { assert s[i] == t[i]; } else { assert s[i + 1] == t[i]; }
    }
  }

  /** Non-strict decoding: an ASCII character outside the alphabet, other than '=', is ignored. */
  lemma DecodeSkipsForeignCharacter(x: string, c: char, y: string)
    requires c as int < 128 && !IsAlphabetChar(c) && c != '='
    ensures Decode(x + [c] + y) == Decode(x + y)
  {
    DecodeSkipsNeutral(x, c, y);
  }

  /** Non-strict decoding: an '=' met before the second character of a quantum is ignored. */
  lemma DecodeSkipsEarlyPadding(x: string, y: string)
    requires Scan(Start, x).quad < 2
    ensures Decode(x + "=" + y) == Decode(x + y)
  {
    DecodeSkipsNeutral(x, '=', y);
  }

  /**
   * The bits of the last sextet before "==" that do not reach a byte are discarded
   * unchecked: the block decodes to the same byte whatever its low four bits are.
   */
  lemma DecodeIgnoresTrailingBits(v0: int, v1: int)
    requires 0 <= v0 < 64 && 0 <= v1 < 64
    ensures Decode([CharOf(v0), CharOf(v1), '=', '=']) == Some([(v0 * 4 + v1 / 16) % 256])
  {
    var s := [CharOf(v0), CharOf(v1), '=', '='];
    assert IsAscii(s) by {
      forall i | 0 <= i < |s| ensures s[i] as int < 128 { assert IsAlphabetChar(s[i]) || s[i] == '='; }
    }
    ScanPaddedSingle(Start, v0, v1);
    assert Scan(Start, s).out == [(v0 * 4 + v1 / 16) % 256];
    assert Decode(s) == Finish(Scan(Start, s));
  }
}
