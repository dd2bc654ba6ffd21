/** The static helpers of `DNSLoggerHelper` (main.py, lines 10-31). */
module DnsLoggerHelper {
  import opened Wrappers
  import opened Text
  import Hex
  import Utf8

  /** Starts and ends with a dot: the configured-suffix normal form. */
  predicate IsDotBounded(s: string) {
    StartsWith(s, ".") && EndsWith(s, ".")
  }

  /** A suffix is normal when it is empty (no suffix configured) or dot-bounded. */
  predicate IsNormalSuffix(s: string) {
    s == "" || IsDotBounded(s)
  }

  /**
   * `parse_suffix`: a non-empty suffix gets a leading dot if it lacks one,
   * then a trailing dot if it lacks one; the empty suffix stays empty.
   */
  function ParseSuffix(suffix: string): (r: string)
    ensures suffix == "" ==> r == ""
    ensures suffix != "" ==> IsDotBounded(r)
    ensures IsDotBounded(suffix) ==> r == suffix
  {
    var withLead := if suffix != "" && !StartsWith(suffix, ".") then "." + suffix else suffix;
    if withLead != "" && !EndsWith(withLead, ".") then withLead + "." else withLead
  }

  /** A dot is added only where one is missing: `example.com` becomes `.example.com.`. */
  lemma ParseSuffixAddsMissingDots(suffix: string)
    requires suffix != ""
    ensures ParseSuffix(suffix)
         == (if StartsWith(suffix, ".") then "" else ".") + suffix + (if EndsWith(suffix, ".") then "" else ".")
  {
    if !StartsWith(suffix, ".") {
      var withLead := "." + suffix;
      assert withLead[|withLead| - 1..] == suffix[|suffix| - 1..];
    }
  }

  /** `parse_suffix` is idempotent, and its result is always in normal form. */
  lemma ParseSuffixIdempotent(suffix: string)
    ensures IsNormalSuffix(ParseSuffix(suffix))
    ensures ParseSuffix(ParseSuffix(suffix)) == ParseSuffix(suffix)
  {
  }

  /** `remove_suffix`: drop `suffix` from the end of `data` if it is non-empty and there. */
  function RemoveSuffix(data: string, suffix: string): (r: string)
    ensures suffix != "" && EndsWith(data, suffix) ==> r + suffix == data
    ensures !(suffix != "" && EndsWith(data, suffix)) ==> r == data
  {
    if suffix != "" && EndsWith(data, suffix) then data[..|data| - |suffix|] else data
  }

  /** Removing a suffix that was just appended gives back the stem, for any suffix. */
  lemma RemoveAppendedSuffix(stem: string, suffix: string)
    ensures RemoveSuffix(stem + suffix, suffix) == stem
  {
    var data := stem + suffix;
    assert data[|data| - |suffix|..] == suffix;
    assert data[..|data| - |suffix|] == stem;
  }

  /**
   * `decode_hex`: the label read as hex-encoded UTF-8, or the label itself
   * where `bytes.fromhex` or the UTF-8 decoding raises ValueError.
   */
  function DecodeHex(data: string): (r: string)
    ensures r == data || (Hex.FromHex(data).Some? && Utf8.Decode(Hex.FromHex(data).value) == Some(r))
    ensures Hex.FromHex(data).Some? && Utf8.Decode(Hex.FromHex(data).value).Some? ==>
              r == Utf8.Decode(Hex.FromHex(data).value).value
    ensures data == "" ==> r == ""
  {
    match Hex.FromHex(data)
    case None => data
    case Some(raw) =>
      match Utf8.Decode(raw)
      case None => data
      case Some(text) => text
  }

  /**
   * A label without whitespace that is not an even-length run of hex digits
   * is passed through unchanged.
   */
  lemma DecodeHexNotHex(data: string)
    requires forall i :: 0 <= i < |data| ==> !Hex.IsSpace(data[i])
    requires |data| % 2 == 1 || exists i :: 0 <= i < |data| && !Hex.IsHexDigit(data[i])
    ensures DecodeHex(data) == data
  {
    Hex.FromHexWithoutSpace(data);
  }

  /** Round trip: the lower-case hex of a text's UTF-8 bytes decodes to that text. */
  lemma DecodeHexOfHex(text: string)
    ensures DecodeHex(Hex.ToHex(Utf8.Encode(text))) == text
  {
    Hex.FromHexToHex(Utf8.Encode(text));
    Utf8.DecodeEncode(text);
  }

  lemma EncodeHello()
    ensures Utf8.Encode("hello") == [0x68, 0x65, 0x6c, 0x6c, 0x6f]
  {
  }

  lemma ToHexHelloBytes()
    ensures Hex.ToHex([0x68, 0x65, 0x6c, 0x6c, 0x6f]) == "68656c6c6f"
  {
  }

  /** The hex form of `hello` is `68656c6c6f`. */
  lemma HexOfHello()
    ensures Hex.ToHex(Utf8.Encode("hello")) == "68656c6c6f"
  {
    EncodeHello();
    ToHexHelloBytes();
  }

  /** `68656c6c6f` is read as `hello`. */
  lemma DecodeHexHello()
    ensures DecodeHex("68656c6c6f") == "hello"
  {
    HexOfHello();
    DecodeHexOfHex("hello");
  }

  lemma EncodeUpperHello()
    ensures Utf8.Encode("HELLO") == [0x48, 0x45, 0x4c, 0x4c, 0x4f]
  {
  }

  /** `bytes.fromhex` reads upper-case digit pairs: `48454C4C4F`. */
  lemma FromHexUpperCase()
    ensures Hex.FromHex("48454C4C4F") == Some([0x48, 0x45, 0x4c, 0x4c, 0x4f])
  {
    var s := "48454C4C4F";
    Hex.FromHexPairs(s);
    var v := Hex.FromHex(s).value;
    assert |v| == 5;
    assert v[0] == 0x48 && v[1] == 0x45 && v[2] == 0x4c && v[3] == 0x4c && v[4] == 0x4f;
    assert v == [0x48, 0x45, 0x4c, 0x4c, 0x4f];
  }

  /** `bytes.fromhex` reads mixed-case digit pairs: `68656C6c6F`. */
  lemma FromHexMixedCase()
    ensures Hex.FromHex("68656C6c6F") == Some([0x68, 0x65, 0x6c, 0x6c, 0x6f])
  {
    var s := "68656C6c6F";
    Hex.FromHexPairs(s);
    var v := Hex.FromHex(s).value;
    assert |v| == 5;
    assert v[0] == 0x68 && v[1] == 0x65 && v[2] == 0x6c && v[3] == 0x6c && v[4] == 0x6f;
    assert v == [0x68, 0x65, 0x6c, 0x6c, 0x6f];
  }

  /** `bytes.fromhex` skips the space between the pairs of `6865 6c6c6f`. */
  lemma FromHexSpaced()
    ensures Hex.FromHex("6865 6c6c6f") == Some([0x68, 0x65, 0x6c, 0x6c, 0x6f])
  {
    assert "6865" + [' '] + "6c6c6f" == "6865 6c6c6f";
    assert "6865" + "6c6c6f" == "68656c6c6f";
    Hex.FromHexSkipsSpace("6865", ' ', "6c6c6f");
    ToHexHelloBytes();
    Hex.FromHexToHex([0x68, 0x65, 0x6c, 0x6c, 0x6f]);
  }

  /**
   * Digits of either case are accepted, and whitespace between digit pairs
   * is skipped: `68656C6c6F` and `6865 6c6c6f` both read as `hello`, and
   * `48454C4C4F` reads as `HELLO`.
   */
  lemma DecodeHexCaseAndSpace()
    ensures DecodeHex("68656C6c6F") == "hello"
    ensures DecodeHex("6865 6c6c6f") == "hello"
    ensures DecodeHex("48454C4C4F") == "HELLO"
  {
    FromHexUpperCase();
    FromHexMixedCase();
    FromHexSpaced();
    EncodeHello();
    Utf8.DecodeEncode("hello");
    EncodeUpperHello();
    Utf8.DecodeEncode("HELLO");
  }
}
