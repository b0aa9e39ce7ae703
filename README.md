# Extension-authenticated library endpoint: a Dafny model of its request check

The endpoint in `html_content.js` answers a CORS preflight, refuses every
method but `POST`, and then authenticates the calling browser extension
before it returns a fixed HTML page. Authentication reads three request
headers: `X-Extension-Auth`, an obfuscated credential; `X-Timestamp`, the
request time in milliseconds as decimal text; and `X-Nonce`. The handler
checks that all three are present, that the timestamp is at most 30 000 ms
old, and that `decryptExtensionHeader` turns the credential into the
configured `EXPECTED_EXTENSION_ID`.

This project models that decision path with pure functions, and proves
what it guarantees:

- `options.dfy`: `Option`. Here `None` plays JavaScript's `null` and `NaN`.
- `text.dfy`: strings as UTF-16 code units. It defines `split` with a
  string separator, `join` and reversal.
- `base64.dfy`: base64 as in section 4 of RFC 4648. It has an encoder, a
  strict decoder and their round trip.
- `utf8.dfy`: UTF-8 encoding of UTF-16 strings (Node's `Buffer.from(s)`)
  and strict decoding (`buf.toString()`). Both round trips are proved.
- `numbers.dfy`: `parseInt(s, radix)` as ECMAScript defines it, and
  `Number.prototype.toString`, over unbounded integers.
- `extension_auth.dfy`: `decryptExtensionHeader`. It also has the encoding
  an extension must use to build the header. The source's comment on line
  73 refers to this encoding, but it is not in the repository. The main
  result is the round trip between the two.
- `handler.dfy`: the handler's early-return cascade, as a function from
  the method, the three headers, the current time and the configured
  identifier to a status code and a JSON body.

Three behaviours of the code are worth stating up front:

- The payload's `|` split may give more than three fields. The code
  destructures the first three and ignores the rest.
- The freshness check is one-directional (`now - headerTime > 30000`), so
  a timestamp from the future passes.
- The decoder accepts the timestamp text `NaN` when the base-36 part has
  no digits. The handler never gets that far, because `parseInt("NaN")`
  fails the freshness check first.

## Model

| member | source | states |
|---|---|---|
| `Text.Reverse` | html_content.js:75 | the result has the same length and holds unit `k` of the input at position `len-1-k` |
| `Text.ReverseInvolutive` | html_content.js:75 | reversing twice gives back the original string |
| `Text.IndexOf` | html_content.js:64 | the result is an occurrence of the separator and no earlier occurrence exists; `None` only when there is no occurrence at all |
| `Text.Split` | html_content.js:64 | `split` yields at least one piece and no piece contains the separator |
| `Text.JoinSplit` | html_content.js:64 | joining the pieces of a split with the separator restores the string |
| `Text.SplitFree` | html_content.js:64-65 | a string without the separator's first unit splits into one piece, itself |
| `Text.SplitAfter` | html_content.js:64-65 | when the separator's first unit is not in `a`, `a + sep + b` splits into `a` followed by the pieces of `b` |
| `Base64.Encode` | html_content.js:73 | an encoding of `n` bytes has `4 * ceil(n / 3)` units; this is the encoding the comment on line 73 says the decoder reverses, used by `ExtensionAuth.EncodeExtensionHeader` |
| `Base64.EncodeUnits` | html_content.js:74-76 | the encoder writes only alphabet symbols and `=` |
| `Base64.Decode` | html_content.js:63 | a successful strict decode had a length divisible by four |
| `Base64.RoundTrip` | html_content.js:76 | decoding the encoding of any byte string gives the bytes back |
| `Utf8.Decode` | html_content.js:63 | whatever the strict decoder returns is well-formed UTF-16, with no lone surrogate |
| `Utf8.RoundTrip` | html_content.js:76 | decoding the UTF-8 encoding of a well-formed string gives the string back |
| `Utf8.DecodeEncode` | html_content.js:63 | the strict decoder accepts only canonical UTF-8: its output re-encodes to exactly the input bytes |
| `Utf8.ScalarRoundTrip` | html_content.js:63 | the strict decoder reads the UTF-8 bytes of any scalar value back as that value, consuming exactly its bytes |
| `Utf8.ConcatWellFormed` | html_content.js:73 | well-formed strings stay well-formed when concatenated; `ExtensionAuth.EncodeExtensionHeader` needs this to show the payload `id\|t\|nonce` survives UTF-8 |
| `Numbers.ParseInt` | html_content.js:52 | `parseInt`: NaN for the empty string and for an invalid radix; a negative result only after a leading `-`, never after `+`. `ParseToRadix`, `ParseCanonical`, `NumberRoundTrip` and `ExpiredExactly` give its values |
| `Numbers.NumberToString` | html_content.js:71 | `String(v)`: `NaN` exactly for NaN, and a leading `-` exactly for negative numbers. `PrintCanonical` and `NumberRoundTrip` give its text |
| `Numbers.NumberRoundTrip` | html_content.js:71 | `parseInt` with no radix reads back what `String` printed, for every integer and for NaN |
| `Numbers.DigitRun` | html_content.js:71 | the digit run is a prefix of digits of the radix, followed by a non-digit or the end |
| `Numbers.ToRadix` | html_content.js:71 | `toString(radix)` writes only digits of the radix, with no leading zero unless the number is 0 |
| `Numbers.ValueToRadix` | html_content.js:71 | the digits `toString(radix)` writes denote the number |
| `Numbers.ParseToRadix` | html_content.js:71 | `parseInt(s, radix)` reads back the `toString(radix)` digits of any non-negative number, for every radix 2 to 36; with no radix given it reads decimal digits |
| `Numbers.ToRadixValue` | html_content.js:71 | decimal digits without a superfluous leading zero are exactly what `toString` prints for their value |
| `Numbers.PrintCanonical` | html_content.js:71 | `String(n)` is a canonical decimal numeral: optional `-`, no leading zero, no `-0` |
| `Numbers.ParseCanonical` | html_content.js:52 | `parseInt` reads a canonical numeral (with no radix or radix 10) to the number whose `String` is that numeral |
| `ExtensionAuth.Unshift` | html_content.js:74 | the unshift step keeps the length |
| `ExtensionAuth.UnshiftKeepsLineTerminators` | html_content.js:74 | a unit is unchanged by the unshift step exactly when it is a line terminator, which `/./` does not match |
| `ExtensionAuth.UnshiftShift` | html_content.js:74 | unshifting undoes the encoder's +3 shift unless a shifted unit lands on a line terminator |
| `ExtensionAuth.DecodeText` | html_content.js:63 | `Buffer.from(s, 'base64').toString()` succeeds only on whole base64 groups and yields well-formed UTF-16. `TextRoundTrip` is its inverse |
| `ExtensionAuth.TextRoundTrip` | html_content.js:76 | base64 + UTF-8 decoding undoes base64 + UTF-8 encoding on well-formed text |
| `ExtensionAuth.ShiftedEncodingUnit` | html_content.js:74 | a base64 unit shifted by 3 is ASCII, is not `_`, and is not a line terminator |
| `ExtensionAuth.ObfuscationRoundTrip` | html_content.js:73-75 | unshift-then-reverse undoes reverse-then-shift on base64 text |
| `ExtensionAuth.ObfuscatedAscii` | html_content.js:64 | obfuscated base64 text is ASCII with no `_`, so it cannot contain `__SENTINEL__` |
| `ExtensionAuth.OuterLayerRoundTrip` | html_content.js:63-71 | the outer header decodes to the obfuscated payload and the base-36 time, which the sentinel split separates; the base-36 time parses back to `t` |
| `ExtensionAuth.SelectId` | html_content.js:78-84 | an accepted identifier never contains `\|` |
| `ExtensionAuth.SplitFields` | html_content.js:78 | splitting `id\|ts\|nonce` followed by any `\|`-led tail yields `id`, `ts`, `nonce` as the first three fields |
| `ExtensionAuth.SelectIdIgnoresExtraFields` | html_content.js:78-84 | fields after the third do not affect the result |
| `ExtensionAuth.SelectIdBinds` | html_content.js:78-84 | an accepted payload begins with `id\|timestamp\|nonce` for the timestamp and nonce the request sent, and anything after that is another field |
| `ExtensionAuth.SelectIdNeedsThreeFields` | html_content.js:78-84 | with fewer than three fields the result is `null` (an `undefined` field never equals a string) |
| `ExtensionAuth.DecryptExtensionHeader` | html_content.js:61-89 | any identifier the decoder returns is free of `\|` |
| `ExtensionAuth.DecryptNeedsTwoParts` | html_content.js:63-71 | success implies the header decodes, splits on `__SENTINEL__` into exactly two parts, and the second part, read in base 36 and printed in decimal, equals the timestamp text |
| `ExtensionAuth.DecryptTimestampPrinted` | html_content.js:71 | success implies the timestamp text is `NaN` or a canonical decimal numeral (no `+`, no leading zero, no trailing junk) |
| `ExtensionAuth.EncodedLayers` | html_content.js:63-76 | each decoding step undoes the matching step of the extension's encoding: the header decodes, splits at the sentinel into the obfuscated payload and `t` in base 36, and unshift-reverse-decode gives back `id\|t\|nonce` |
| `ExtensionAuth.DecryptBinds` | html_content.js:61-89 | a header built for `id`, `t` and `nonce` decodes to `id` exactly when the timestamp header is `t` in decimal and the nonce header is `nonce`; with any other timestamp or nonce it decodes to `null` |
| `ExtensionAuth.DecryptRoundTrip` | html_content.js:61-89 | a header built by the extension's encoding for `id`, `t` and `nonce` decodes to `id` when the timestamp header is `t` in decimal and the nonce header is `nonce` (for `id` and `nonce` well-formed and free of `\|`) |
| `Handler.Handle` | html_content.js:18-100 | the status is 200, 403 or 405, and the body is an error exactly when the status is not 200 |
| `Handler.PreflightAlwaysOk` | html_content.js:18-20 | `OPTIONS` gets 200 `{}` whatever its headers |
| `Handler.OtherMethodsRefused` | html_content.js:22-27 | any method but `POST` or `OPTIONS` gets 405 "Method not allowed" |
| `Handler.MissingHeaderRefused` | html_content.js:43-48 | a `POST` whose auth, timestamp or nonce header is absent or empty gets 403 "Authentication required" |
| `Handler.ExpiredExactly` | html_content.js:51-58 | with all headers present, the answer is 403 "Request expired" exactly when the timestamp does not parse or `now - t > 30000` |
| `Handler.ServedExactly` | html_content.js:92-100 | a `POST` is served exactly when its headers are present, it is fresh, and it decodes to a non-empty identifier equal to the configured one; every other `POST` gets 403 |
| `Handler.InvalidExtensionExactly` | html_content.js:92-100 | once the headers are present and fresh, the request is served exactly when the decoded identifier is non-empty and equals the configured one; otherwise the answer is 403 "Invalid extension" |
| `Handler.WrongHeadersRefused` | html_content.js:51-98 | a header the extension built, sent with a timestamp or nonce other than its own, is never served: it gets 403 "Invalid extension" if the timestamp is fresh and 403 "Request expired" if not |
| `Handler.FreshWindow` | html_content.js:51-53 | a timestamp sent as `String(t)` passes the freshness check exactly when `now - t <= 30000` |
| `Handler.ServedTimestampCanonical` | html_content.js:52-71 | a served request carried a canonical decimal timestamp |
| `Handler.ServedEarlier` | html_content.js:53 | a request served at `now` is served at every earlier time, so future timestamps pass |
| `Handler.HandleRoundTrip` | html_content.js:39-100 | a correctly built header with the configured identifier, its own timestamp (at most 30000 ms old) and its nonce is served; nothing records nonces, so every such request succeeds |

## Left out

- The HTML payload (`HTML_CONTENT`, with its styles and client-side script) is out of scope. The success body keeps only `cached: false`. `htmlResult`, `generationTime` and the ISO `timestamp` are not modelled.
- CORS header setting, `console` logging, the unused client-IP lookup and the `config` export are response plumbing and are not modelled.
- The 500 response is not modelled. Nothing in the modelled path throws: the decoder catches its own exceptions and returns `null`. So the catch block and its `NODE_ENV` gate are unreachable in the model.
- `Date.now()` and `process.env.EXPECTED_EXTENSION_ID` are parameters (`now`, `expectedId`). An absent variable is `None` and matches nothing.
- A repeated header, which Node joins with `", "`, is not modelled. A header is a single string or absent.
- Base64.Decode: strict decoding per section 4 of RFC 4648. It needs a length divisible by four, only alphabet symbols, and pads only at the end. It fails where Node's lenient decoder would skip stray characters or accept the URL-safe alphabet and missing padding. The decoder therefore returns `null` on some headers Node might accept. Padding bits are not checked, as in Node.
- Utf8.Decode: fails on ill-formed UTF-8, where Node substitutes U+FFFD and goes on.
- Numbers.ParseInt: leading white space is not skipped. This changes which 403 a request gets. A timestamp header such as NBSP followed by digits passes freshness in the code and is then refused as "Invalid extension", but the model answers "Request expired". `Handler.ExpiredExactly` inherits this difference. Numbers are unbounded integers, so double-precision rounding above 2^53 and the exponent form `toString` uses from 1e21 upward are not modelled.
- ExtensionAuth.EncodeExtensionHeader: this is the extension's side of the scheme. It is not in the repository. It is written here from the decoder's steps, to state the round trip.
