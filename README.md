# dns-exfil query-name rendering, modelled in Dafny

The repository is a small UDP DNS observer. It logs each incoming query's
name, optionally de-obfuscated, then forwards the query to a resolver. This
project models the part that turns a query name into its logged form
(`main.py`, lines 10-47):

- `DNSLoggerHelper.parse_suffix` normalises the configured domain suffix so that
  it starts and ends with a dot. The empty suffix stays empty, which means "no
  suffix configured".
- `DNSLoggerHelper.decode_hex` reads one label as hex-encoded UTF-8. If
  `bytes.fromhex` or the UTF-8 decoding raises `ValueError`, it returns the label
  unchanged.
- `DNSLoggerHelper.remove_suffix` strips a non-empty suffix when the name ends
  with it.
- `DNSLogger` stores the normalised suffix and the `hex_encoded` flag, both set
  once in the constructor. Its `parse_question` works only in hex-encoded mode:
  it strips the suffix, splits the rest on `.`, decodes each label, rejoins the
  labels with `.`, appends the suffix and writes the result into the question's
  name in place.

Files:

- `wrappers.dfy` holds two small modules: `Wrappers`, with `Option`, which
  stands for a Python call that may raise `ValueError`, and `Bytes`, with the
  `byte` type.
- Each of the other files holds one module.
- `text.dfy` holds the Python `str` operations used: `startswith`,
  `endswith`, `split` and `join`. It proves that split and join are inverse to
  each other.
- `hex.dfy` holds `bytes.fromhex` and its inverse `bytes.hex`.
- `utf8.dfy` holds strict UTF-8 decoding, per Table 3-7 of the Unicode
  Standard, and the matching encoder.
- `logger_helper.dfy` holds the three `DNSLoggerHelper` functions.
- `dns_logger.dfy` holds the dnslib question object as a class, plus the
  `DNSLogger` class with `ParseQuestion`. `ParseQuestion` modifies the question
  in place.

Modelling choices:

- `bytes.fromhex` is modelled concretely, as CPython 3.7 and later implement it:
  - digits may be upper or lower case;
  - ASCII whitespace (space, `\t`, `\n`, `\v`, `\f`, `\r`) is skipped between
    digit pairs, but not inside a pair;
  - any other character fails, and so does an unpaired digit.
- UTF-8 decoding is modelled concretely and strictly: no overlong forms, no
  surrogate code points, nothing above U+10FFFF. A Dafny `char` is a Unicode
  scalar value, which is exactly what a successful decode yields.
- The question's name is a plain string. It stands for `str(question.get_qname())`,
  which for a dnslib name ends in a dot.

## Model

| member | source | states |
|---|---|---|
| Text.StartsWithAt | main.py:13 | `str.startswith` holds exactly when the prefix is no longer than the string and agrees with it character by character from the front |
| Text.EndsWithAt | main.py:15 | `str.endswith` holds exactly when the suffix is no longer than the string and agrees with it character by character at the back; `remove_suffix` (main.py:29) uses the same predicate |
| Text.Join | main.py:46 | `".".join` of no pieces is the empty string; `Text.JoinEnds`, `Text.JoinSplit` and `Text.SplitJoin` describe its other results |
| Text.JoinEnds | main.py:46 | a join of one or more pieces starts with its first piece and ends with its last one |
| Text.Split | main.py:45 | `str.split(".")`: one more piece than there are separators, and no piece contains the separator |
| Text.JoinSplit | main.py:45-46 | joining the pieces of a split with the same separator gives back the original string |
| Text.SplitJoin | main.py:45-46 | splitting a join of one or more separator-free pieces gives back exactly those pieces |
| Hex.FromHex | main.py:22 | `bytes.fromhex` reads at least two characters per byte it yields; `Hex.FromHexPairs`, `Hex.FromHexSkipsSpace` and `Hex.FromHexWithoutSpace` describe what it accepts and yields |
| Hex.FromHexPairs | main.py:22 | an even-length run of hex digits, in either case, always decodes, to one byte per pair. Byte `k` is 16 times the value of digit `2k`, plus the value of digit `2k+1` |
| Hex.FromHexSkipsSpace | main.py:22 | one ASCII whitespace character between whole digit pairs does not change the result, whether that result is a failure or bytes |
| Hex.FromHexToHex | main.py:22 | `bytes.fromhex(b.hex())` returns `b` for every byte string |
| Hex.FromHexWithoutSpace | main.py:22-24 | on a string without whitespace, `bytes.fromhex` succeeds if and only if the string is an even-length run of hex digits. On success it yields one byte per digit pair |
| Hex.ToHexFromHex | main.py:22 | a lower-case, even-length hex string is exactly the `hex()` of the bytes it decodes to |
| Utf8.Decode | main.py:22 | strict `decode("utf-8")` yields at most one character per byte; `Utf8.DecodeEncode` and `Utf8.EncodeDecode` show it is exactly the inverse of UTF-8 encoding |
| Utf8.DecodeEncode | main.py:22 | every text survives UTF-8 encoding followed by strict decoding |
| Utf8.EncodeDecode | main.py:22 | a byte string that decodes strictly is exactly the UTF-8 encoding of what it decodes to |
| DnsLoggerHelper.ParseSuffix | main.py:12-17 | the empty suffix stays empty; any other result starts and ends with `.`; a suffix already bounded by dots is returned unchanged |
| DnsLoggerHelper.ParseSuffixAddsMissingDots | main.py:13-16 | a non-empty suffix gets one leading dot only if it lacks one and one trailing dot only if it lacks one, so `example.com` becomes `.example.com.` |
| DnsLoggerHelper.ParseSuffixIdempotent | main.py:12-17 | the result is always in normal form (empty or dot-bounded), and normalising twice is the same as normalising once |
| DnsLoggerHelper.RemoveSuffix | main.py:28-31 | with a non-empty suffix that the name ends with, the result plus the suffix is the name; otherwise the name is returned unchanged |
| DnsLoggerHelper.RemoveAppendedSuffix | main.py:28-31 | removing a suffix that was just appended gives back the stem, for any suffix including the empty one |
| DnsLoggerHelper.DecodeHex | main.py:20-25 | the label is returned unchanged unless it decodes. When `bytes.fromhex` succeeds and its bytes decode as UTF-8, the result is exactly that decoded text. The empty label decodes to itself |
| DnsLoggerHelper.DecodeHexNotHex | main.py:21-24 | a whitespace-free label that has odd length or contains a non-hex character is returned unchanged |
| DnsLoggerHelper.DecodeHexOfHex | main.py:22 | round trip: the lower-case hex of any text's UTF-8 bytes decodes to that text |
| DnsLoggerHelper.DecodeHexHello | main.py:22 | `68656c6c6f` decodes to `hello` |
| DnsLoggerHelper.DecodeHexCaseAndSpace | main.py:22 | upper-case and mixed-case digits and whitespace between pairs are accepted: `68656C6c6F` and `6865 6c6c6f` decode to `hello`, and `48454C4C4F` decodes to `HELLO` |
| DnsLogging.DecodeLabels | main.py:45 | `map(decode_hex, labels)`: the same number of labels, each decoded on its own, in order |
| DnsLogging.RenderName | main.py:43-46 | the rewritten name always ends with the configured suffix, even when the original name did not |
| DnsLogging.RenderNameOfSuffix | main.py:44-46 | a name equal to the suffix renders as the suffix alone: an empty joined string plus the suffix |
| DnsLogging.RenderNamePlainLabels | main.py:44-46 | if no label changes under decoding, the rendering is the stripped name plus the suffix, so a name that carried the suffix comes back unchanged |
| DnsLogging.DecodeLabelsOfHexLabels | main.py:45 | decoding hex-encoded labels one by one recovers the encoded texts |
| DnsLogging.RenderNameOfHexLabels | main.py:43-46 | end to end: for any list of texts, including the empty one, the hex-encoded texts joined by dots and followed by the suffix render as the texts joined by dots and followed by the suffix |
| DnsLogging.RenderNameHello | main.py:36-46 | with suffix `c2.test`, `68656c6c6f.c2.test.` renders as `hello.c2.test.` |
| DnsLogging.Question.constructor | main.py:43-46 | the question record keeps the name, record type and class it was built with; `ParseQuestion` reads and writes the name through it |
| DnsLogging.DnsLogger.constructor | main.py:35-37 | the stored suffix is `parse_suffix` of the argument, so it is always in normal form; the flag is stored as given; the defaults are `""` and `false` |
| DnsLogging.DnsLogger.ParseQuestion | main.py:39-47 | returns the same question object. Without hex decoding it leaves the question untouched. With hex decoding it sets the name to the rendered form of the old name, which ends with the suffix. The record type and class never change |

## Left out

- `DNSLogger.log` (main.py:49-51) is left out: it prints a line to the console, and that line uses dnslib's own formatting of a question.
- `DNSHandler.handle` (main.py:54-61) is left out: it receives and sends on a socket, runs dnslib's wire codec, calls the resolver and makes a `deepcopy`. The copy means logging never alters the request that gets forwarded. Within this model, `ParseQuestion`'s contract shows that the name is the only field it touches.
- `ThreadedUDPServer` and `main` (main.py:64-110) are left out: thread-per-request serving, argument parsing and startup.
- dnslib's `BaseResolver` is left out: it is library code that is not part of this model.
- The conversion of a dnslib name to a string, and back through `set_qname`, is left out. This includes how dnslib escapes unusual bytes. The model uses the name string directly.
- Python versions before 3.7 are not covered: there, `bytes.fromhex` skipped only spaces, not all ASCII whitespace.
