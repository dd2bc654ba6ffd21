/**
 * `bytes.fromhex` and its inverse `bytes.hex`.
 *
 * `bytes.fromhex` reads pairs of hexadecimal digits (either case); ASCII
 * whitespace may stand between pairs but not inside one. Any other
 * character, an unpaired digit or a non-ASCII character raises ValueError,
 * modelled here as `None`.
 */
module Hex {
  import opened Wrappers
  import opened Bytes

  /** ASCII whitespace skipped between digit pairs: space, \t, \n, \v, \f, \r. */
  predicate IsSpace(c: char) {
    c == ' ' || '\t' <= c <= '\r'
  }

  predicate IsHexDigit(c: char) {
    '0' <= c <= '9' || 'a' <= c <= 'f' || 'A' <= c <= 'F'
  }

  predicate IsLowerHexDigit(c: char) {
    '0' <= c <= '9' || 'a' <= c <= 'f'
  }

  function DigitValue(c: char): (v: nat)
    requires IsHexDigit(c)
    ensures v < 16
  {
    if '0' <= c <= '9' then c as int - '0' as int
    else if 'a' <= c <= 'f' then c as int - 'a' as int + 10
    else c as int - 'A' as int + 10
  }

  /** The lower-case digit for `v`, as `bytes.hex` writes it. */
  function LowerDigit(v: nat): (c: char)
    requires v < 16
    ensures IsLowerHexDigit(c) && DigitValue(c) == v
  {
    if v < 10 then (v + '0' as int) as char else (v - 10 + 'a' as int) as char
  }

  /** `bytes.fromhex(s)`, or `None` where it raises ValueError. */
  function FromHex(s: string): (r: Option<seq<byte>>)
    ensures r.Some? ==> 2 * |r.value| <= |s|
    decreases |s|
  {
    if s == [] then Some([])
    else if IsSpace(s[0]) then FromHex(s[1..])
    else if 2 <= |s| && IsHexDigit(s[0]) && IsHexDigit(s[1]) then
      match FromHex(s[2..])
      case None => None
      case Some(rest) => Some([DigitValue(s[0]) * 16 + DigitValue(s[1])] + rest)
    else None
  }

  /** `b.hex()`: two lower-case digits per byte, no separators. */
  function ToHex(b: seq<byte>): (s: string)
    ensures |s| == 2 * |b|
    ensures forall i :: 0 <= i < |s| ==> IsLowerHexDigit(s[i])
  {
    if b == [] then [] else [LowerDigit(b[0] / 16), LowerDigit(b[0] % 16)] + ToHex(b[1..])
  }

  /** Every byte string survives `bytes.fromhex(b.hex())`. */
  lemma {:induction false} FromHexToHex(b: seq<byte>)
    ensures FromHex(ToHex(b)) == Some(b)
  {
    if b != [] {
      var s := ToHex(b);
      assert s[2..] == ToHex(b[1..]);
      FromHexToHex(b[1..]);
      assert [b[0]] + b[1..] == b;
    }
  }

  /**
   * Without whitespace, `bytes.fromhex` succeeds exactly on even-length runs
   * of hex digits, and then yields one byte per pair.
   */
  lemma {:induction false} FromHexWithoutSpace(s: string)
    requires forall i :: 0 <= i < |s| ==> !IsSpace(s[i])
    ensures FromHex(s).Some? <==> |s| % 2 == 0 && forall i :: 0 <= i < |s| ==> IsHexDigit(s[i])
    ensures FromHex(s).Some? ==> 2 * |FromHex(s).value| == |s|
    decreases |s|
  {
    if 2 <= |s| {
      FromHexWithoutSpace(s[2..]);
      assert forall i :: 2 <= i < |s| ==> s[2..][i - 2] == s[i];
    }
  }

  /**
   * An even-length run of hex digits, in either case, decodes pair by pair:
   * byte `k` is the value of digits `2k` (high) and `2k + 1` (low).
   */
  lemma {:induction false} FromHexPairs(s: string)
    requires |s| % 2 == 0
    requires forall i :: 0 <= i < |s| ==> IsHexDigit(s[i])
    ensures FromHex(s).Some? && 2 * |FromHex(s).value| == |s|
    ensures forall k :: 0 <= k < |s| / 2 ==>
              FromHex(s).value[k] == DigitValue(s[2 * k]) * 16 + DigitValue(s[2 * k + 1])
    decreases |s|
  {
    if s != [] {
      FromHexPairs(s[2..]);
      var rest := FromHex(s[2..]).value;
      var r := [DigitValue(s[0]) * 16 + DigitValue(s[1])] + rest;
      assert FromHex(s) == Some(r);
      forall k | 1 <= k < |s| / 2
        ensures r[k] == DigitValue(s[2 * k]) * 16 + DigitValue(s[2 * k + 1])
      {
        assert s[2 * k] == s[2..][2 * (k - 1)] && s[2 * k + 1] == s[2..][2 * (k - 1) + 1];
      }
    }
  }

  /** A whitespace character after a run of complete digit pairs is skipped. */
  lemma {:induction false} FromHexSkipsSpace(a: string, c: char, b: string)
    requires |a| % 2 == 0
    requires forall i :: 0 <= i < |a| ==> IsHexDigit(a[i])
    requires IsSpace(c)
    ensures FromHex(a + [c] + b) == FromHex(a + b)
    decreases |a|
  {
    if a == [] {
      assert ([] + [c] + b)[1..] == b;
      assert [] + b == b;
    } else {
      FromHexSkipsSpace(a[2..], c, b);
      assert (a + [c] + b)[2..] == a[2..] + [c] + b;
      assert (a + b)[2..] == a[2..] + b;
    }
  }

  /** A lower-case hex string is exactly the `hex()` of what it decodes to. */
  lemma {:induction false} ToHexFromHex(s: string)
    requires |s| % 2 == 0
    requires forall i :: 0 <= i < |s| ==> IsLowerHexDigit(s[i])
    ensures FromHex(s).Some? && ToHex(FromHex(s).value) == s
    decreases |s|
  {
    if s != [] {
      ToHexFromHex(s[2..]);
      var rest := FromHex(s[2..]).value;
      var b := DigitValue(s[0]) * 16 + DigitValue(s[1]);
      assert FromHex(s) == Some([b] + rest);
      assert ([b] + rest)[1..] == rest;
      PairRoundTrip(s[0], s[1]);
      assert s == [s[0], s[1]] + s[2..];
    }
  }

  /** The byte read from a lower-case digit pair is written back as that pair. */
  lemma PairRoundTrip(hi: char, lo: char)
    requires IsLowerHexDigit(hi) && IsLowerHexDigit(lo)
    ensures var b := DigitValue(hi) * 16 + DigitValue(lo);
            LowerDigit(b / 16) == hi && LowerDigit(b % 16) == lo
  {
    var b := DigitValue(hi) * 16 + DigitValue(lo);
    assert b / 16 == DigitValue(hi) && b % 16 == DigitValue(lo);
    LowerDigitOfValue(hi);
    LowerDigitOfValue(lo);
  }

  lemma LowerDigitOfValue(c: char)
    requires IsLowerHexDigit(c)
    ensures LowerDigit(DigitValue(c)) == c
  {
  }
}
