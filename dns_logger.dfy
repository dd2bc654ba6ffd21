/**
 * `DNSLogger` (main.py, lines 34-47): the configured suffix and decoding
 * mode, and `parse_question`, which rewrites a question's name into its
 * decoded form in place.
 */
module DnsLogging {
  import opened Text
  import opened DnsLoggerHelper
  import Hex
  import Utf8

  /** The dnslib question record: its name, record type and class. */
  class Question {
    var qname: string
    var qtype: int
    var qclass: int

    constructor(qname: string, qtype: int, qclass: int)
      ensures this.qname == qname && this.qtype == qtype && this.qclass == qclass
    {
      this.qname := qname;
      this.qtype := qtype;
      this.qclass := qclass;
    }
  }

  /** `map(decode_hex, labels)`: each label decoded on its own, in order. */
  function DecodeLabels(labels: seq<string>): (decoded: seq<string>)
    ensures |decoded| == |labels|
    ensures forall i :: 0 <= i < |labels| ==> decoded[i] == DecodeHex(labels[i])
  {
    if labels == [] then [] else [DecodeHex(labels[0])] + DecodeLabels(labels[1..])
  }

  /**
   * The name `parse_question` writes back in hex-encoded mode: strip the
   * suffix, split on dots, decode each label, rejoin with dots, append the
   * suffix.
   */
  function RenderName(qname: string, suffix: string): (r: string)
    ensures EndsWith(r, suffix)
  {
    var rendered := Join(".", DecodeLabels(Split(RemoveSuffix(qname, suffix), '.'))) + suffix;
    assert rendered[|rendered| - |suffix|..] == suffix;
    rendered
  }

  /** A name that is exactly the suffix renders as the suffix alone. */
  lemma RenderNameOfSuffix(suffix: string)
    ensures RenderName(suffix, suffix) == suffix
  {
    if suffix != "" {
      assert suffix[..|suffix| - |suffix|] == "";
    }
  }

  /** No label changes under `decode_hex`. */
  predicate DecodesToItself(labels: seq<string>) {
    forall i :: 0 <= i < |labels| ==> DecodeHex(labels[i]) == labels[i]
  }

  /**
   * When no label changes under decoding, rendering only restores the
   * suffix: a name that carried it comes back unchanged.
   */
  lemma RenderNamePlainLabels(qname: string, suffix: string)
    requires DecodesToItself(Split(RemoveSuffix(qname, suffix), '.'))
    ensures RenderName(qname, suffix) == RemoveSuffix(qname, suffix) + suffix
    ensures EndsWith(qname, suffix) ==> RenderName(qname, suffix) == qname
  {
    var stem := RemoveSuffix(qname, suffix);
    var labels := Split(stem, '.');
    assert forall i :: 0 <= i < |labels| ==> DecodeLabels(labels)[i] == labels[i];
    assert DecodeLabels(labels) == labels;
    JoinSplit(stem, '.');
  }

  /** The lower-case hex of each text's UTF-8 bytes: how a client hides data in labels. */
  function HexLabels(texts: seq<string>): (labels: seq<string>)
    ensures |labels| == |texts|
    ensures forall i :: 0 <= i < |texts| ==> labels[i] == Hex.ToHex(Utf8.Encode(texts[i]))
  {
    if texts == [] then [] else [Hex.ToHex(Utf8.Encode(texts[0]))] + HexLabels(texts[1..])
  }

  /** Hex labels never contain a dot, so a name built from them splits back into them. */
  lemma HexLabelsHaveNoDots(texts: seq<string>)
    ensures forall i :: 0 <= i < |texts| ==> '.' !in HexLabels(texts)[i]
  {
    var labels := HexLabels(texts);
    forall i, k | 0 <= i < |labels| && 0 <= k < |labels[i]|
      ensures labels[i][k] != '.'
    {
      assert Hex.IsLowerHexDigit(labels[i][k]);
    }
  }

  /** Decoding hex labels label by label recovers the texts. */
  lemma DecodeLabelsOfHexLabels(texts: seq<string>)
    ensures DecodeLabels(HexLabels(texts)) == texts
  {
    var labels := HexLabels(texts);
    forall i | 0 <= i < |labels|
      ensures DecodeLabels(labels)[i] == texts[i]
    {
      DecodeHexOfHex(texts[i]);
    }
  }

  /**
   * End to end: a name made of hex-encoded labels followed by the suffix
   * renders as the original texts joined by dots, followed by the suffix.
   */
  lemma RenderNameOfHexLabels(texts: seq<string>, suffix: string)
    ensures RenderName(Join(".", HexLabels(texts)) + suffix, suffix) == Join(".", texts) + suffix
  {
    if texts == [] {
      RenderNameOfSuffix(suffix);
      return;
    }
    var labels := HexLabels(texts);
    RemoveAppendedSuffix(Join(".", labels), suffix);
    HexLabelsHaveNoDots(texts);
    SplitJoin(labels, '.');
    DecodeLabelsOfHexLabels(texts);
  }

  lemma ParseSuffixC2Test()
    ensures ParseSuffix("c2.test") == ".c2.test."
  {
    ParseSuffixAddsMissingDots("c2.test");
    assert "c2.test"[..1] != ".";
    assert "c2.test"[|"c2.test"| - 1..] != ".";
  }

  lemma HexLabelsHello()
    ensures HexLabels(["hello"]) == ["68656c6c6f"]
  {
    HexOfHello();
  }

  lemma HelloNames()
    ensures Join(".", ["68656c6c6f"]) + ".c2.test." == "68656c6c6f.c2.test."
    ensures Join(".", ["hello"]) + ".c2.test." == "hello.c2.test."
  {
  }

  /** With suffix `c2.test`, `68656c6c6f.c2.test.` renders as `hello.c2.test.`. */
  lemma RenderNameHello()
    ensures RenderName("68656c6c6f.c2.test.", ParseSuffix("c2.test")) == "hello.c2.test."
  {
    ParseSuffixC2Test();
    HexLabelsHello();
    HelloNames();
    RenderNameOfHexLabels(["hello"], ".c2.test.");
  }

  class DnsLogger {
    const suffix: string
    const hexEncoded: bool

    /** `DNSLogger(suffix, hex_encoded)`: the suffix is stored in normal form. */
    constructor(suffix: string := "", hexEncoded: bool := false)
      ensures this.suffix == ParseSuffix(suffix) && this.hexEncoded == hexEncoded
      ensures IsNormalSuffix(this.suffix)
    {
      this.suffix := ParseSuffix(suffix);
      this.hexEncoded := hexEncoded;
      ParseSuffixIdempotent(suffix);
    }

    /**
     * `parse_question`: in hex-encoded mode the question's name is replaced
     * by its rendered form; otherwise the question is left alone. The same
     * question object is returned, and only its name ever changes.
     */
    method ParseQuestion(question: Question) returns (r: Question)
      modifies question
      ensures r == question
      ensures !hexEncoded ==> unchanged(question)
      ensures hexEncoded ==> question.qname == RenderName(old(question.qname), suffix)
      ensures hexEncoded ==> EndsWith(question.qname, suffix)
      ensures question.qtype == old(question.qtype) && question.qclass == old(question.qclass)
    {
      if !hexEncoded {
        return question;
      }
      var qname := question.qname;
      var suffixed := RemoveSuffix(qname, suffix);
      var subdomains := DecodeLabels(Split(suffixed, '.'));
      question.qname := Join(".", subdomains) + suffix;
      return question;
    }
  }
}
