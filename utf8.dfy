/**
 * Strict UTF-8, as `bytes.decode("utf-8")` applies it: a byte string
 * decodes only if it is a concatenation of the well-formed byte sequences
 * of Table 3-7 of the Unicode Standard (no overlong forms, no surrogates,
 * nothing above U+10FFFF). Any other input raises UnicodeDecodeError, a
 * ValueError, modelled here as `None`.
 */
module Utf8 {
  import opened Wrappers
  import opened Bytes

  predicate IsContinuation(b: byte) {
    0x80 <= b <= 0xBF
  }

  /** Smallest allowed second byte after lead byte `b0` (Table 3-7). */
  function SecondLow(b0: byte): (b: byte)
    ensures 0x80 <= b <= 0xA0
  {
    if b0 == 0xE0 then 0xA0 else if b0 == 0xF0 then 0x90 else 0x80
  }

  /** Largest allowed second byte after lead byte `b0` (Table 3-7). */
  function SecondHigh(b0: byte): (b: byte)
    ensures 0x8F <= b <= 0xBF
  {
    if b0 == 0xED then 0x9F else if b0 == 0xF4 then 0x8F else 0xBF
  }

  /**
   * The code point that `s` starts with and the number of bytes it
   * occupies, or `None` when `s` does not start with a well-formed sequence.
   */
  function DecodeFirst(s: seq<byte>): (r: Option<(char, nat)>)
    requires |s| > 0
    ensures r.Some? ==> 1 <= r.value.1 <= |s| && r.value.1 <= 4
  {
    var b0 := s[0] as int;
    if b0 <= 0x7F then Some((b0 as char, 1))
    else if 0xC2 <= b0 <= 0xDF then
      if 2 <= |s| && IsContinuation(s[1]) then
        var b1 := s[1] as int;
        Some((((b0 - 0xC0) * 0x40 + (b1 - 0x80)) as char, 2))
      else None
    else if 0xE0 <= b0 <= 0xEF then
      if 3 <= |s| && SecondLow(b0) <= s[1] <= SecondHigh(b0) && IsContinuation(s[2]) then
        var b1, b2 := s[1] as int, s[2] as int;
        Some((((b0 - 0xE0) * 0x1000 + (b1 - 0x80) * 0x40 + (b2 - 0x80)) as char, 3))
      else None
    else if 0xF0 <= b0 <= 0xF4 then
      if 4 <= |s| && SecondLow(b0) <= s[1] <= SecondHigh(b0) && IsContinuation(s[2]) && IsContinuation(s[3]) then
        var b1, b2, b3 := s[1] as int, s[2] as int, s[3] as int;
        Some((((b0 - 0xF0) * 0x40000 + (b1 - 0x80) * 0x1000 + (b2 - 0x80) * 0x40 + (b3 - 0x80)) as char, 4))
      else None
    else None
  }

  /** `s.decode("utf-8")`, or `None` where it raises. */
  function Decode(s: seq<byte>): (r: Option<string>)
    ensures r.Some? ==> |r.value| <= |s|
    decreases |s|
  {
    if s == [] then Some([])
    else
      match DecodeFirst(s)
      case None => None
      case Some((c, n)) =>
        match Decode(s[n..])
        case None => None
        case Some(rest) => Some([c] + rest)
  }

  /** The UTF-8 bytes of one code point (`c.encode("utf-8")`). */
  function EncodeChar(c: char): (e: seq<byte>)
    ensures 1 <= |e| <= 4
  {
    var n := c as int;
    var r0, q1 := n % 0x40, n / 0x40;
    var r1, q2 := q1 % 0x40, q1 / 0x40;
    var r2, q3 := q2 % 0x40, q2 / 0x40;
    if n <= 0x7F then [n]
    else if n <= 0x7FF then [0xC0 + q1, 0x80 + r0]
    else if n <= 0xFFFF then [0xE0 + q2, 0x80 + r1, 0x80 + r0]
    else [0xF0 + q3, 0x80 + r2, 0x80 + r1, 0x80 + r0]
  }

  /** `t.encode("utf-8")` */
  function Encode(t: string): (e: seq<byte>)
    ensures |t| <= |e| <= 4 * |t|
  {
    if t == [] then [] else EncodeChar(t[0]) + Encode(t[1..])
  }

  /** The encoding of a code point is read back as that code point, whatever follows it. */
  lemma DecodeFirstEncodeChar(c: char, rest: seq<byte>)
    ensures DecodeFirst(EncodeChar(c) + rest) == Some((c, |EncodeChar(c)|))
  {
    var e := EncodeChar(c);
    var s := e + rest;
    assert s[..|e|] == e;
    var n := c as int;
    if n <= 0x7F {
    } else if n <= 0x7FF {
      DecodeFirstTwo(c, s);
    } else if n <= 0xFFFF {
      DecodeFirstThree(c, s);
    } else {
      DecodeFirstFour(c, s);
    }
  }

  lemma DecodeFirstTwo(c: char, s: seq<byte>)
    requires 0x80 <= c as int <= 0x7FF
    requires |s| >= 2 && s[..2] == EncodeChar(c)
    ensures DecodeFirst(s) == Some((c, 2))
  {
    var n := c as int;
    assert s[0] == 0xC0 + n / 0x40 && s[1] == 0x80 + n % 0x40;
  }

  lemma DecodeFirstThree(c: char, s: seq<byte>)
    requires 0x800 <= c as int <= 0xFFFF
    requires |s| >= 3 && s[..3] == EncodeChar(c)
    ensures DecodeFirst(s) == Some((c, 3))
  {
    var n := c as int;
    var r0, q1 := n % 0x40, n / 0x40;
    var r1, q2 := q1 % 0x40, q1 / 0x40;
    assert s[0] == 0xE0 + q2 && s[1] == 0x80 + r1 && s[2] == 0x80 + r0;
    assert n == 0x1000 * q2 + 0x40 * r1 + r0;
  }

  lemma DecodeFirstFour(c: char, s: seq<byte>)
    requires 0x10000 <= c as int
    requires |s| >= 4 && s[..4] == EncodeChar(c)
    ensures DecodeFirst(s) == Some((c, 4))
  {
    var n := c as int;
    var r0, q1 := n % 0x40, n / 0x40;
    var r1, q2 := q1 % 0x40, q1 / 0x40;
    var r2, q3 := q2 % 0x40, q2 / 0x40;
    assert s[0] == 0xF0 + q3 && s[1] == 0x80 + r2 && s[2] == 0x80 + r1 && s[3] == 0x80 + r0;
    assert n == 0x40000 * q3 + 0x1000 * r2 + 0x40 * r1 + r0;
  }

  /** Every text survives `t.encode("utf-8").decode("utf-8")`. */
  lemma {:induction false} DecodeEncode(t: string)
    ensures Decode(Encode(t)) == Some(t)
  {
    if t != [] {
      var e, rest := EncodeChar(t[0]), Encode(t[1..]);
      DecodeFirstEncodeChar(t[0], rest);
      assert (e + rest)[|e|..] == rest;
      DecodeEncode(t[1..]);
      assert [t[0]] + t[1..] == t;
    }
  }

  /** A decodable byte string is the encoding of what it decodes to. */
  lemma {:induction false} EncodeDecode(s: seq<byte>)
    requires Decode(s).Some?
    ensures Encode(Decode(s).value) == s
    decreases |s|
  {
    if s != [] {
      var (c, n) := DecodeFirst(s).value;
      var rest := Decode(s[n..]).value;
      calc {
        Encode(Decode(s).value);
        { DecodeCons(s); }
        Encode([c] + rest);
        { EncodeCons(c, rest); }
        EncodeChar(c) + Encode(rest);
        { EncodeCharDecodeFirst(s); EncodeDecode(s[n..]); }
        s[..n] + s[n..];
        { assert s[..n] + s[n..] == s; }
        s;
      }
    }
  }

  /** A non-empty decodable byte string decodes to its first code point followed by the rest. */
  lemma DecodeCons(s: seq<byte>)
    requires s != [] && Decode(s).Some?
    ensures DecodeFirst(s).Some? && Decode(s[DecodeFirst(s).value.1..]).Some?
    ensures Decode(s).value == [DecodeFirst(s).value.0] + Decode(s[DecodeFirst(s).value.1..]).value
  {
  }

  /** Encoding a text is encoding its first code point, then the rest. */
  lemma EncodeCons(c: char, rest: string)
    ensures Encode([c] + rest) == EncodeChar(c) + Encode(rest)
  {
    assert ([c] + rest)[1..] == rest;
  }

  /** The code point read from the front of `s` encodes back to the bytes it was read from. */
  lemma EncodeCharDecodeFirst(s: seq<byte>)
    requires |s| > 0 && DecodeFirst(s).Some?
    ensures EncodeChar(DecodeFirst(s).value.0) == s[..DecodeFirst(s).value.1]
  {
    var b0 := s[0] as int;
    if 0xC2 <= b0 <= 0xDF {
      EncodeTwo(s);
    } else if 0xE0 <= b0 <= 0xEF {
      EncodeThree(s);
    } else if 0xF0 <= b0 <= 0xF4 {
      EncodeFour(s);
    }
  }

  lemma EncodeTwo(s: seq<byte>)
    requires |s| >= 2 && 0xC2 <= s[0] <= 0xDF && IsContinuation(s[1])
    ensures DecodeFirst(s).Some? && EncodeChar(DecodeFirst(s).value.0) == s[..2]
  {
    var b0, b1 := s[0] as int, s[1] as int;
    DivMod64(b0 - 0xC0, b1 - 0x80);
  }

  lemma EncodeThree(s: seq<byte>)
    requires |s| >= 3 && 0xE0 <= s[0] <= 0xEF
    requires SecondLow(s[0]) <= s[1] <= SecondHigh(s[0]) && IsContinuation(s[2])
    ensures DecodeFirst(s).Some? && EncodeChar(DecodeFirst(s).value.0) == s[..3]
  {
    var b0, b1, b2 := s[0] as int, s[1] as int, s[2] as int;
    var q1 := (b0 - 0xE0) * 0x40 + (b1 - 0x80);
    DivMod64(q1, b2 - 0x80);
    DivMod64(b0 - 0xE0, b1 - 0x80);
  }

  lemma EncodeFour(s: seq<byte>)
    requires |s| >= 4 && 0xF0 <= s[0] <= 0xF4
    requires SecondLow(s[0]) <= s[1] <= SecondHigh(s[0])
    requires IsContinuation(s[2]) && IsContinuation(s[3])
    ensures DecodeFirst(s).Some? && EncodeChar(DecodeFirst(s).value.0) == s[..4]
  {
    var b0, b1, b2, b3 := s[0] as int, s[1] as int, s[2] as int, s[3] as int;
    var q2 := (b0 - 0xF0) * 0x40 + (b1 - 0x80);
    var q1 := q2 * 0x40 + (b2 - 0x80);
    DivMod64(q1, b3 - 0x80);
    DivMod64(q2, b2 - 0x80);
    DivMod64(b0 - 0xF0, b1 - 0x80);
  }

  lemma DivMod64(q: nat, r: nat)
    requires r < 0x40
    ensures (0x40 * q + r) / 0x40 == q && (0x40 * q + r) % 0x40 == r
  {
  }
}
