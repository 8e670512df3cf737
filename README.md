# Charset converter — a Dafny model

A Burp extension that moves HTTP bodies between a declared charset and UTF-8.
`src/charset-converter.kt` registers two listeners. Each listener parses an
intercepted message into an ordered, mutable list of header lines plus a body,
runs one of two rewrites on it, and replaces the message when the rewrite
returns a rebuilt one:

- **inbound** (`processInbound`) finds the first `Content-Type: ` line. It
  extracts the token of the pattern `charset=(\S+)` and transcodes the body.
  It removes that line, appends it with every occurrence of the token
  replaced by `utf-8`, and appends `X-Original-Charset: <token>`;
- **outbound** (`processOutbound`) finds the first `X-Original-Charset: `
  line and takes the text after the prefix as the charset. It transcodes the
  body and finds the first `Content-Type: ` line (`!!`: it raises when there
  is none). It removes both lines and appends the `Content-Type: ` line with
  every `utf-8` replaced by the charset.

The proxy listener runs inbound on requests and outbound on responses. The
HTTP listener, which sees the tools' own traffic, runs outbound on requests
and inbound on responses. Every exception is caught and logged, and the
message is then left as it was.

Modules:

- `Text` (text.dfy): the Kotlin string operations used, namely `startsWith`,
  `indexOf`, `substringAfter` and `replace`. `replace` is characterised
  through a split of the line at the occurrences of the target
  (`Split`, `ReplaceAllJoinsPieces`): all occurrences, left to right,
  non-overlapping, case-sensitive.
- `Headers` (headers.dfy): `findHeader` as a loop (`FindHeader`) proved
  against the first-match specification `FirstMatch`. `MutableList.remove`
  is modelled as `RemoveFirst`.
- `CharsetPattern` (charset.dfy): a scanner for the single pattern
  `charset=(\S+)`, with `\s` being Java's six whitespace characters.
- `Codecs` (codecs.dfy): the charset library as a `Codec` value (which names
  denote a charset that `Charset.forName` accepts and that can encode, the
  UTF-8 decoder, the encoder) and `Transcode`.
- `Converter` (converter.dfy): `Inbound` and `Outbound` as functions of the
  old header list and body, and `ProcessInbound` / `ProcessOutbound`, which
  mutate the `MessageInfo` header list in place and are proved equal to them.
- `ConverterProperties` (properties.dfy): when each rewrite does nothing,
  exactly which lines it removes and appends, and where it raises.
- `RoundTrip` (roundtrip.dfy): both directions use the same body function;
  inbound followed by outbound; a header line that the pair cannot restore.
- `Listeners` (listeners.dfy): the routing table and the two callbacks.

Observations the proofs make precise:

- Both directions compute the body as `encode(decodeUtf8(body), charset)`.
  So an inbound rewrite followed by an outbound one applies the same function
  twice instead of its inverse (`InboundThenOutbound`). The body comes back
  exactly when applying `encode(decodeUtf8(·), charset)` twice gives it
  back, for example when one application already does (ASCII text in an
  ASCII-compatible charset).
- `replace` works on the whole `Content-Type: ` line, not on the parameter.
  For a token that names a supported charset (`Charset.forName` accepts it
  and it can encode) and that occurs inside the header name, the rewritten line no longer starts with `Content-Type: `,
  and the following outbound rewrite raises at the `!!`
  (`TokenInNameBreaksRoundTrip`). None of the JDK's own charset names or
  aliases is such a token, so this needs a charset provider that defines
  one; a token such as `t` that no provider defines makes inbound raise
  for the unsupported charset instead, before any header is rewritten.
- Outbound replaces every `utf-8` in the line, not only the first one, and
  the code is followed here.
- A missing `Content-Type: ` line on outbound raises a null-pointer error.
  The listener's `catch` reports it and leaves the message unmodified, which
  is what the model's `Failed(MissingContentType)` does.
- The two `remove` calls of outbound always delete two different lines: no
  line starts with both prefixes.

## Model

| member | source | states |
|---|---|---|
| `Text.StartsWithCharwise` | src/charset-converter.kt:111 | `startsWith` holds exactly when the prefix is no longer than the line and every position of the prefix holds the same character in the line: no case folding, no trimming. |
| `Text.IndexOf` | src/charset-converter.kt:98 | The result is the leftmost position where the string occurs, and None exactly when it occurs nowhere. |
| `Text.IndexOfFindsFirst` | src/charset-converter.kt:98 | Any occurrence bounds the result of `indexOf` from above, and the first occurrence is the result. |
| `Text.SubstringAfter` | src/charset-converter.kt:98 | For a line that starts with the delimiter, the result is exactly the text after the delimiter; without an occurrence it is the whole line. |
| `Text.ReplaceAll` | src/charset-converter.kt:88 | `replace` leaves a line without an occurrence of the target unchanged. When the replacement has the same length as the target, the line keeps its length. |
| `Text.Split` | src/charset-converter.kt:88 | Every line can be cut at the occurrences of a non-empty target that a left-to-right scan without overlap finds. Joined by the target, the pieces give back the line; each piece but the last is followed by the first occurrence after it, and the last piece holds none. |
| `Text.ReplaceAllJoinsPieces` | src/charset-converter.kt:88 | For every such split of a line, `replace` gives the same pieces joined by the replacement: every occurrence, found left to right and without overlap, is replaced and no other text changes. |
| `Text.ReplaceWithItself` | src/charset-converter.kt:88 | Replacing every occurrence of a string by itself gives back the original line, so the replacement is non-overlapping and loses no text. |
| `Text.ReplaceTrailing` | src/charset-converter.kt:105 | A line ending with the target, with no earlier occurrence, has exactly that last occurrence replaced. |
| `Text.ReplaceKeepsTextBeforeFirst` | src/charset-converter.kt:88 | Text before the first occurrence is kept, and the replacement stands at its position. |
| `Headers.FirstMatch` | src/charset-converter.kt:109-116 | The index of the first header, in list order, that starts with the prefix (case-sensitive), and None exactly when no header does. |
| `Headers.FindHeader` | src/charset-converter.kt:109-116 | The loop returns null exactly when no header starts with the prefix, and otherwise returns the header at the first matching index. |
| `Headers.RemoveFirst` | src/charset-converter.kt:87 | `remove` leaves the list unchanged when the element is absent, and otherwise shortens it by one. |
| `Headers.RemoveFirstAt` | src/charset-converter.kt:87 | Removing an element whose first occurrence is at index i gives the list without index i, in order. |
| `Headers.RemovesLocatedHeader` | src/charset-converter.kt:75-87 | `remove` of the header returned by `findHeader` deletes exactly the element that was located, even when an equal line comes later. |
| `CharsetPattern.NonSpaceRun` | src/charset-converter.kt:11 | The greedy `\S+` run: every character in it is non-whitespace, and it ends at whitespace or at end of line. |
| `CharsetPattern.GroupAt` | src/charset-converter.kt:84 | `groupValues[1]` of a match is non-empty, free of whitespace, and stands right after `charset=`. It ends at whitespace or at end of line. |
| `CharsetPattern.FindFrom` | src/charset-converter.kt:79 | Searching from a position gives the first match at or after it, with the greedy group. It gives None only when no later position matches. |
| `CharsetPattern.FindCharset` | src/charset-converter.kt:79-84 | The match is None exactly when `charset=` followed by a non-whitespace character occurs nowhere. Otherwise the group is non-empty and has no whitespace. It directly follows the leftmost such `charset=` and is maximal: it ends at whitespace or at end of line. |
| `Codecs.Transcode` | src/charset-converter.kt:85 | Fails exactly when `Charset.forName` rejects the name or the charset cannot encode (a decode-only charset makes `toByteArray` throw). Otherwise the result is the UTF-8 decoding of the body encoded in that charset. |
| `Converter.Inbound` | src/charset-converter.kt:74-91 | Without a `Content-Type: ` line inbound returns null. The only error it raises is an unsupported charset, and the rejected name is what it reports. A rebuilt list is one line longer and ends with an `X-Original-Charset: ` line. The exact list is `InboundRewrite`. |
| `Converter.Outbound` | src/charset-converter.kt:93-107 | Outbound returns null exactly when no line starts with `X-Original-Charset: `. It raises the missing-`Content-Type` error only when no line starts with `Content-Type: `, and an unsupported-charset error only for a name the codec rejects. A rebuilt list is never longer. The exact list is `OutboundRewrite`. |
| `Converter.MessageInfo.constructor` | src/charset-converter.kt:6 | A parsed message holds the given header list and body. |
| `Converter.ProcessInbound` | src/charset-converter.kt:74-91 | The in-place rewrite returns what `Inbound` gives for the old list. The header list changes only when a rebuilt message is returned: on null and on a raised error it is untouched. |
| `Converter.ProcessOutbound` | src/charset-converter.kt:93-107 | The in-place rewrite returns what `Outbound` gives for the old list. The unsupported charset and the missing `Content-Type:` both raise before any `remove`, so the list is untouched then. |
| `ConverterProperties.FirstMatchIsFirst` | src/charset-converter.kt:109-116 | The search result is the index of the first header with the prefix. |
| `ConverterProperties.PrefixesExclusive` | src/charset-converter.kt:10-12 | No header line starts with both `Content-Type: ` and `X-Original-Charset: `. |
| `ConverterProperties.InboundNoChange` | src/charset-converter.kt:75-82 | Inbound returns null exactly when no header starts with `Content-Type: ` or the first one has no charset match. |
| `ConverterProperties.InboundFailure` | src/charset-converter.kt:84-85 | Inbound raises exactly when the token of the first `Content-Type: ` line is not a supported charset, and the error names the token. |
| `ConverterProperties.InboundRewrite` | src/charset-converter.kt:84-89 | On success the new list is the old one without the first `Content-Type: ` line, with other lines and duplicates in order. It is followed by that line with every token occurrence replaced by `utf-8`, then by `X-Original-Charset: <token>`. It is one line longer. The body is the UTF-8 decoding encoded in the token's charset. |
| `ConverterProperties.OutboundNoChange` | src/charset-converter.kt:94-97 | Outbound returns null exactly when no header starts with `X-Original-Charset: `. |
| `ConverterProperties.OutboundUnsupported` | src/charset-converter.kt:98-99 | The charset is the text after the prefix of the first `X-Original-Charset: ` line, possibly empty. Outbound raises on it exactly when it is not supported. |
| `ConverterProperties.OutboundMissingContentType` | src/charset-converter.kt:101 | With a supported charset and no `Content-Type: ` line, outbound raises at the `!!` instead of rebuilding. |
| `ConverterProperties.OutboundRewrite` | src/charset-converter.kt:98-105 | On success the first `X-Original-Charset: ` line and the first `Content-Type: ` line, two different lines, are removed. The rest keep their order, and the `Content-Type: ` line with every `utf-8` replaced by the charset is appended. The list is one line shorter. |
| `ConverterProperties.RemovesBothLocatedHeaders` | src/charset-converter.kt:101-104 | The two `remove` calls delete exactly the two located lines and nothing else. |
| `ConverterProperties.FirstAfterRemoval` | src/charset-converter.kt:103-104 | After the first `remove`, the line `findHeader` located for `Content-Type: ` is still the first match, one index lower if it came later. |
| `ConverterProperties.RemoveTwoIndices` | src/charset-converter.kt:103-104 | Deleting two different indices one after the other keeps every other element in order. |
| `RoundTrip.InboundBody` | src/charset-converter.kt:85-89 | A rebuilt inbound message ends with the `X-Original-Charset: ` line naming the charset its body was encoded in. |
| `RoundTrip.OutboundBody` | src/charset-converter.kt:98-99 | A rebuilt outbound body is encoded in the charset read from the first `X-Original-Charset: ` line. |
| `RoundTrip.SameBodyTransform` | src/charset-converter.kt:85-99 | Inbound and outbound produce the same bytes from the same body and charset: both decode as UTF-8 and encode in the charset. |
| `RoundTrip.InboundThenOutbound` | src/charset-converter.kt:74-107 | Take a message whose only `Content-Type: ` line ends with its token, with no earlier occurrence of the token or of `utf-8`, and with no `X-Original-Charset: ` line. Inbound then outbound gives back that line unchanged, moved to the end. The side-channel line is gone and the body has been transcoded twice. |
| `RoundTrip.OutboundRestores` | src/charset-converter.kt:94-105 | Outbound on the lines inbound leaves restores the charset in place of `utf-8` and drops the `X-Original-Charset: ` line. |
| `RoundTrip.TokenInNameBreaksContentType` | src/charset-converter.kt:88 | If the token occurs inside the `Content-Type: ` name, the rewritten line starts with neither `Content-Type: ` nor `X-Original-Charset: `. |
| `RoundTrip.TokenInNameBreaksRoundTrip` | src/charset-converter.kt:86-101 | For a token that occurs inside `Content-Type: ` and that the codec accepts as a charset, inbound succeeds and the following outbound raises for the missing `Content-Type: ` line. |
| `Listeners.Route` | src/charset-converter.kt:24-60 | The inbound rewrite runs exactly for a proxy request or an HTTP-listener response. |
| `Listeners.RoutesAreComplementary` | src/charset-converter.kt:24-60 | Requests and responses at one listener go different ways. The two listeners treat the same kind of message differently. |
| `Listeners.RewriteParsed` | src/charset-converter.kt:62-72 | Parsing into a fresh `MessageInfo` and running the routed rewrite gives exactly the rewrite's outcome on the message. |
| `Listeners.Intercept` | src/charset-converter.kt:24-60 | Only the slot of the intercepted direction changes. It is replaced only by a rebuilt message, and a raised error is what gets logged. |
| `Listeners.ProcessProxyMessage` | src/charset-converter.kt:24-41 | A proxy request goes through inbound and a proxy response through outbound. A slot is replaced only on a non-null result, and an exception leaves it unmodified and is logged. |
| `Listeners.ProcessHttpMessage` | src/charset-converter.kt:43-60 | An HTTP-listener request goes through outbound and a response through inbound, with the same replacement and logging rule. |

## Left out

- The Burp host API is left out: extension registration, `analyzeRequest` / `analyzeResponse`, `buildHttpMessage` and `printError`. A raw message is the `Message` value (header lines and body), so parsing and rebuilding are identities here. The logged text is the `Error` value that `printError` would receive.
- `IInterceptedProxyMessage` is left out: `ProcessProxyMessage` receives its `messageInfo` directly.
- The Java charset library is left out. Its name aliases, malformed-input replacement and unmappable characters are not visible. It is the `Codec` value, and only the fact that the transcoding fails exactly on unsupported charsets is modelled. A charset is supported when `Charset.forName` accepts its name and it can encode: a decode-only charset such as `x-JISAutoDetect` passes `forName` but makes `toByteArray` throw, and is read as unsupported.
- The general Java regex engine is left out. Only the fixed pattern `charset=(\S+)` is modelled, by a scanner.
- `Text.ReplaceAll`: Kotlin's `replace` with an empty target is not modelled. The function requires a non-empty target, and both call sites pass one: the captured token is non-empty, and the other target is the literal `utf-8`.
- Kotlin strings are UTF-16 while Dafny characters are Unicode scalar values. The prefixes and the pattern are ASCII, so this matters only for the length of a token that contains characters outside the Basic Multilingual Plane.
- Exceptions other than the two modelled errors are left out. These include failures of the host parser and builder.
- The `lateinit` callbacks field and listener registration are left out. No state survives between calls.
