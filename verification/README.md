# Postfix REST connector, modelled in Dafny

The Postfix REST connector is a small TCP server that answers Postfix's
lookup and policy protocols by asking a REST endpoint. Each configured
endpoint runs in one of three modes:

- **tcp-lookup**: Postfix sends `get <key>\n`. The connector URL-decodes
  and trims the key and `GET`s the endpoint with it. It answers one line,
  `200 <values>` for found, `500 ...key not found` for not found, or
  `400 <message>` for any failure, with the data escaped and the whole
  reply limited to 4096 bytes.
- **socketmap-lookup**: Postfix sends a netstring `<len>:<name> <key>,`.
  The connector answers with a netstring `OK <values>`, `NOTFOUND `,
  `TEMP ...`, `TIMEOUT ...` or `PERM ...`, limited to 10000 characters.
- **policy**: Postfix sends `name=value` lines ended by an empty line. The
  connector posts them as a form. It answers `action=<body>\n\n` on success,
  `action=451 ...` to defer and `action=554 ...` to reject.

The repository carries three generations of this logic, and the model keeps
each apart where they differ:

- the multiplatform Kotlin code (`commonMain`), used as the reference;
- the Kotlin/JVM code;
- the Java code, including the first Java revision under `tel/schich`.

Lemmas relate the generations to each other. They show where the
generations agree and name the inputs where they part.

## Layout

| file | modules | what |
|---|---|---|
| `wrappers.dfy`, `seqs.dfy` | `Wrappers`, `Seqs` | `Option`/`Result` and three sequence facts |
| `jvm.dfy` | `Jvm` | JVM behaviour the code relies on: signed bytes, `Long` wrap-around, `trim()`, `indexOf`, `Integer.parseInt`, decimal rendering, `null` in templates, byte widening and narrowing |
| `utf8.dfy`, `urlcodec.dfy` | `Utf8`, `UrlCodec` | UTF-8 and the `URLEncoder`/`URLDecoder` codecs, with the `+` handling of `TcpLookup`/`decodeURLEncodedData` |
| `escaper.dfy`, `joiner.dfy` | `Escaper`, `Joiner` | the Java `encodeResponseData` escaper and `encodeResponse`/`encodeLookupResponse` |
| `netstring.dfy` | `Netstring` | `Netstring.parse`, `parseOne`, `compile`, `compileOne` (Java and Kotlin are the same) |
| `outcome.dfy` | `Outcome` | the REST call's outcome, the shared message texts, `ioExceptionMessage` |
| `linereader.dfy` | `LineReader` | the tcp-lookup line reader |
| `tcplookup.dfy`, `tcplookupjvm.dfy`, `lookuphandler.dfy` | `TcpLookupHandler`, `TcpLookupHandlerKt`, `TcpLookupHandlerJava`, `LookupRequestHandler`, `LegacyLookup` | the tcp-lookup handlers of every generation |
| `socketmapreader.dfy`, `socketmaphandler.dfy` | `SocketmapReader`, `SocketmapReaderJava`, `SocketmapLookupHandler`, `SocketmapLookupHandlerKt`, `SocketmapLookupHandlerJava` | the socketmap readers and handlers |
| `policyreader.dfy`, `policyhandler.dfy` | `PolicyReader`, `PolicyRequestHandler`, `PolicyRequestHandlerJvm` | the policy reader and handlers |

## How the model works

A handler is a pure function. Its inputs are:

- the request id;
- the configured list separator;
- the request as read;
- the `HttpOutcome` of the REST call, which is either:
  - `Completed` with a status, a reason phrase, the body and the decoded
    JSON list;
  - `Failed` with a timeout, a transport failure or a cancellation, and
    the exception's message.

It returns a `Handled` value with three fields:

- the query the REST call is made with, or none when no call is made;
- the replies written;
- what happens to the connection afterwards: `Stay`, `Close` (the
  handler closes the channel) or `Abort` (an exception ends the
  connection).

A reply over the length limit makes `writeResponse` throw. The model
follows that exception through each generation's `catch` blocks.

The readers are step functions over bytes. Each has two things proved
about it:

- a lemma that reading two buffers one after the other is the same as
  reading their concatenation;
- a reference reading: whole lines, whole netstrings or whole
  attribute blocks.

Where descriptions and code differ, the code is followed. Two such
differences:

- The socketmap readers of the Kotlin revisions treat a zero-length
  netstring specially: `0:,` is not yet a complete request, because the
  comma is taken as the payload's end and a second comma is expected.
  `SocketmapReader.ZeroLength` states this.
- A policy line without `=` does not end only that line: it ends the
  whole request and leaves its text pending as the start of the next
  attribute name (`PolicyReader.LineWithoutSeparator`).

## Model

| member | source | states |
|---|---|---|
| `Netstring.Chunk` | src/main/java/tel/schich/postfixrestconnector/Netstring.java:90-96 | the private `compile(s, out)` appends exactly the reference frame `<length>:<s>,`, which is `0:,` for the empty string |
| `Netstring.Compile` | src/main/java/tel/schich/postfixrestconnector/Netstring.java:68-78 | `compile` is the in-order concatenation of the frames of the list (the empty list gives the empty string), at least three characters per element |
| `Netstring.CompileOne` | src/main/java/tel/schich/postfixrestconnector/Netstring.java:80-88 | `compileOne` is the single frame of its argument, and `0:,` for the empty string |
| `Netstring.NextFrame` | src/main/java/tel/schich/postfixrestconnector/Netstring.java:47-59 | one turn of the `parse` loop, when it succeeds, moves the offset strictly forward and never past the end, so the loop terminates |
| `Netstring.ParseOne` | src/main/java/tel/schich/postfixrestconnector/Netstring.java:31-37 | `parseOne` succeeds exactly when `parse` finds one netstring and returns it; two or more raise the cause-less IOException; none at all is the index error of `strings.get(0)` |
| `Netstring.ParseFrames` | src/main/java/tel/schich/postfixrestconnector/Netstring.java:39-66 | from any offset where a run of frames starts, the parse loop returns exactly the framed strings |
| `Netstring.NextFrameOfFrame` | src/main/java/tel/schich/postfixrestconnector/Netstring.java:47-59 | at the start of a frame one loop turn yields its payload and the offset just past its comma |
| `Netstring.ParseCompile` | src/main/java/tel/schich/postfixrestconnector/Netstring.java:39-78 | round trip: `parse(compile(xs)) == xs` for every list of Java-sized strings |
| `Netstring.ParseOneCompileOne` | src/main/java/tel/schich/postfixrestconnector/Netstring.java:31-88 | round trip: `parseOne(compileOne(s)) == s` |
| `Netstring.CompileEmptyFixtures` | src/test/kotlin/tel/schich/postfixrestconnector/NetstringTest.kt:45-55 | `compile([])` is empty, `compile([""])` and `compileOne("")` are `0:,` |
| `Netstring.CompileFixture` | src/test/kotlin/tel/schich/postfixrestconnector/NetstringTest.kt:40-50 | `["a", "bc"]` compiles to `1:a,2:bc,` and parses back |
| `Netstring.ParseEmpty` | src/main/java/tel/schich/postfixrestconnector/Netstring.java:31-37 | the empty text parses to no strings, so `parseOne` fails with the index error, which is not an IOException |
| `Netstring.ParseOneOfTwo` | src/test/kotlin/tel/schich/postfixrestconnector/NetstringTest.kt:31-38 | `parseOne("1:a,2:bc,")` is the "multiple netstrings" IOException, with no cause |
| `Netstring.MissingColonFails` | src/main/java/tel/schich/postfixrestconnector/Netstring.java:47-51 | a rest without a colon fails with the missing-colon error at that offset |
| `Netstring.NotANumberFixture` | src/main/java/tel/schich/postfixrestconnector/Netstring.java:52-62 | a length field that is not an int (`x`, or empty) fails with the NumberFormatException cause |
| `Netstring.WrongTerminatorFixture` | src/main/java/tel/schich/postfixrestconnector/Netstring.java:53-57 | a frame whose length points at something other than a comma fails with the cause-less terminator error |
| `Netstring.OutOfRangeFixture` | src/main/java/tel/schich/postfixrestconnector/Netstring.java:47-62 | a length running past the end is the index-error cause; text without a colon is the missing-colon error |
| `Netstring.LenientLengthField` | src/main/java/tel/schich/postfixrestconnector/Netstring.java:52 | `Integer.parseInt` accepts a leading `+` and leading zeros in the length field |
| `Netstring.NegativeZeroLength` | src/main/java/tel/schich/postfixrestconnector/Netstring.java:52-58 | `-0:,` parses to one empty string |
| `Netstring.SingleFrame` | src/main/java/tel/schich/postfixrestconnector/Netstring.java:39-66 | any length field that parses to the payload's length, followed by the payload and a comma, parses to that one payload |
| `Escaper.ToHexString` | src/main/java/tel/schich/postfixrestconnector/PostfixProtocol.java:42-46 | `Integer.toHexString` gives a single digit exactly for values below 16, which is when the escaper pads with `0` |
| `Escaper.EscapeCharShape` | src/main/java/tel/schich/postfixrestconnector/PostfixProtocol.java:37-52 | a character at or below U+0020 becomes `%` and two lower-case hex digits of its code; every other character, `%` included, is copied |
| `Escaper.EncodeResponseDataAppend` | src/main/java/tel/schich/postfixrestconnector/PostfixProtocol.java:37-52 | the escaper works character by character: it distributes over concatenation |
| `Escaper.EncodeResponseDataLength` | src/main/java/tel/schich/postfixrestconnector/PostfixProtocol.java:37-52 | the output is two characters longer per escaped character |
| `Escaper.EncodeResponseDataBound` | src/main/java/tel/schich/postfixrestconnector/PostfixProtocol.java:37-52 | the output is at most three times as long as the input |
| `Escaper.EncodeResponseDataClean` | src/main/java/tel/schich/postfixrestconnector/PostfixProtocol.java:37-52 | no character at or below U+0020 survives, so a reply never contains a raw space or line break in its data |
| `Escaper.EncodeResponseDataClear` | src/main/java/tel/schich/postfixrestconnector/PostfixProtocol.java:37-52 | text without control characters or spaces is unchanged |
| `Escaper.EncodeResponseDataIdempotent` | src/main/java/tel/schich/postfixrestconnector/PostfixProtocol.java:37-52 | escaping twice is escaping once |
| `Escaper.UnescapeEncode` | src/main/java/tel/schich/postfixrestconnector/PostfixProtocol.java:37-52 | for text without `%`, reading each `%xx` back as its character recovers the input: the escaping loses nothing |
| `Escaper.EncodeResponseDataFixture` | src/main/java/tel/schich/PostfixProtocol.java:73-88 | ` \t\n%+a` is escaped to `%20%09%0a%+a` |
| `Joiner.JoinRestSeparated` | src/main/java/tel/schich/postfixrestconnector/LookupResponseHelper.java:43-47 | the `while (it.hasNext())` loop appends nothing for no values, and otherwise the separator followed by the join of the remaining values: one separator in front of each further value |
| `Joiner.JoinEmpty` | src/main/java/tel/schich/postfixrestconnector/LookupResponseHelper.java:37-41 | `encodeResponse` of no values is the empty string |
| `Joiner.JoinSingleton` | src/main/java/tel/schich/postfixrestconnector/LookupResponseHelper.java:37-48 | one value is returned as it is, with no separator |
| `Joiner.JoinCons` | src/main/java/tel/schich/postfixrestconnector/LookupResponseHelper.java:43-47 | a longer list is its first value, the separator, then the join of the rest |
| `Joiner.JoinLength` | src/main/java/tel/schich/postfixrestconnector/LookupResponseHelper.java:37-48 | n values give their total length plus n - 1 separators |
| `Joiner.JoinEnds` | src/main/java/tel/schich/postfixrestconnector/LookupResponseHelper.java:37-48 | the join starts with the first value and ends with the last |
| `Joiner.SplitJoin` | src/main/kotlin/tel/schich/postfixrestconnector/Util.kt:60-70 | splitting a join at its one-character separator gives back the values, when no value contains the separator |
| `Joiner.JoinFixture` | src/main/java/tel/schich/postfixrestconnector/LookupResponseHelper.java:29-48 | with the default separator `,` the values `r1`, `r2` become `r1,r2` |
| `Joiner.SpaceJoinedSuccess` | src/main/java/tel/schich/PostfixProtocol.java:41-54 | the first revision's success writer: no results write nothing (its `-1`); otherwise code 200 with the results joined by single spaces |
| `Jvm.SignedValue` | src/commonMain/kotlin/tel/schich/postfixrestconnector/SocketmapLookupHandler.kt:159-170 | a Kotlin `Byte` as the signed value it compares with: in -128..127, congruent to the byte, negative exactly from 0x80 |
| `Jvm.WidenSigned` | src/main/java/tel/schich/postfixrestconnector/TcpLookupHandler.java:155-161 | `(char) c` on a byte is the UTF-16 unit of its signed value modulo 2^16, and its low eight bits are the byte again, so the widening loses nothing |
| `Jvm.Widen` | src/main/java/tel/schich/postfixrestconnector/TcpLookupHandler.java:152-165 | the reader's pending text: one widened character per byte, in order |
| `Jvm.WrapLong` | src/main/kotlin/tel/schich/postfixrestconnector/SocketmapLookupHandler.kt:151-167 | `length * 10 + digit` on a Kotlin `Long` wraps modulo 2^64 into the `Long` range and is exact inside it |
| `Jvm.Trim` | src/main/java/tel/schich/postfixrestconnector/TcpLookupHandler.java:72 | `trim()` removes exactly the leading and trailing characters at or below U+0020 and keeps the middle as it is |
| `Jvm.TrimKeepsClean` | src/main/java/tel/schich/postfixrestconnector/TcpLookupHandler.java:72 | text whose ends are not trimmable is unchanged by `trim()` |
| `Jvm.TrimIdempotent` | src/main/java/tel/schich/postfixrestconnector/TcpLookupHandler.java:72 | trimming twice is trimming once |
| `Jvm.IndexOf` | src/main/java/tel/schich/postfixrestconnector/Netstring.java:48 | `indexOf(c, from)` is the first position at or after `from` holding `c`, and -1 exactly when there is none |
| `Jvm.NarrowEncode` | src/main/java/tel/schich/postfixrestconnector/TcpLookupHandler.java:140 | `getBytes(US_ASCII)` (and ISO-8859-1 with a higher limit): one byte per character, the character's code when representable, `?` otherwise |
| `Jvm.NarrowEncodeAppend` | src/main/java/tel/schich/postfixrestconnector/TcpLookupHandler.java:140 | that encoding distributes over concatenation |
| `Jvm.NatToString` | src/main/java/tel/schich/postfixrestconnector/Netstring.java:94 | a length is rendered as decimal digits without leading zeros |
| `Jvm.NatToStringValue` | src/main/java/tel/schich/postfixrestconnector/Netstring.java:94 | the rendered digits have exactly the rendered value |
| `Jvm.NatToStringInjective` | src/main/java/tel/schich/postfixrestconnector/Netstring.java:94 | different lengths render differently |
| `Jvm.ParseInt32` | src/main/java/tel/schich/postfixrestconnector/Netstring.java:52 | `Integer.parseInt` accepts only non-empty text and only values in the `int` range; the value it reads is stated by `Jvm.ParseIntToString` and `Jvm.ParseRendered` |
| `Jvm.ParseRendered` | src/main/java/tel/schich/postfixrestconnector/Netstring.java:52-94 | a rendered length up to `Integer.MAX_VALUE` parses back to itself |
| `Jvm.ParseIntToString` | src/main/java/tel/schich/postfixrestconnector/Netstring.java:52 | round trip: `Integer.parseInt` reads back `Integer.toString(i)` for every `int`, negative values and `INT_MIN` included |
| `Utf8.EncodeChar` | src/main/kotlin/tel/schich/postfixrestconnector/TcpLookupHandler.kt:208-213 | one character as UTF-8: one to four bytes by code range, a single byte exactly for ASCII, continuation bytes after the first |
| `Utf8.Encode` | src/main/kotlin/tel/schich/postfixrestconnector/TcpLookupHandler.kt:208-213 | UTF-8 text is at least as long as the characters, and exactly as long for ASCII text |
| `Utf8.EncodeAppend` | src/main/kotlin/tel/schich/postfixrestconnector/TcpLookupHandler.kt:208-213 | UTF-8 encoding distributes over concatenation |
| `Utf8.EncodeAscii` | src/main/kotlin/tel/schich/postfixrestconnector/TcpLookupHandler.kt:208-213 | ASCII text encodes to its own codes, one byte each |
| `Utf8.DecodeFirst` | src/main/kotlin/tel/schich/postfixrestconnector/SocketmapLookupHandler.kt:182 | decoding consumes between one and four bytes per character |
| `Utf8.Decode` | src/main/kotlin/tel/schich/postfixrestconnector/SocketmapLookupHandler.kt:182 | `String(bytes, UTF_8)` yields at most one character per byte |
| `Utf8.DecodeEncode` | src/main/kotlin/tel/schich/postfixrestconnector/TcpLookupHandler.kt:203-213 | round trip: decoding the UTF-8 encoding of any text gives the text back |
| `Utf8.EncodeFixtures` | src/test/kotlin/tel/schich/postfixrestconnector/TcpLookupHandlerTest.kt:26-34 | `§` and `ß` are `C2 A7` and `C3 9F`, the escapes the codec fixtures use |
| `Utf8.DecodeIllFormed` | src/main/kotlin/tel/schich/postfixrestconnector/SocketmapLookupHandler.kt:182 | ill-formed input decodes to U+FFFD per maximal ill-formed prefix: a stray continuation, a truncated sequence, an overlong lead |
| `UrlCodec.CharsetEncodeChar` | src/main/java/tel/schich/PostfixProtocol.java:33-39 | a character in the decoder's charset: ASCII as itself; under US-ASCII every character is one byte below 0x80 |
| `UrlCodec.CharsetEncode` | src/main/kotlin/tel/schich/postfixrestconnector/TcpLookupHandler.kt:208-213 | under UTF-8 the charset encoding is UTF-8 |
| `UrlCodec.CharsetDecode` | src/main/java/tel/schich/PostfixProtocol.java:33-39 | decoding escaped bytes: under US-ASCII one character per byte, U+FFFD for bytes from 0x80 |
| `UrlCodec.AsciiDecode` | src/main/java/tel/schich/PostfixProtocol.java:33-39 | the US-ASCII decoder maps each byte to itself or to U+FFFD |
| `UrlCodec.CharsetDecodeEncode` | src/main/java/tel/schich/PostfixProtocol.java:33-39 | round trip through a charset, for text the charset can represent |
| `UrlCodec.EncodeCharWith` | src/main/kotlin/tel/schich/postfixrestconnector/TcpLookupHandler.kt:208-213 | `URLEncoder` on one character: unreserved characters copied, space as `+`, everything else as `%XX` triplets of its bytes |
| `UrlCodec.FormUrlEncodeAlphabet` | src/main/kotlin/tel/schich/postfixrestconnector/TcpLookupHandler.kt:208-213 | `URLEncoder` output uses only unreserved characters, `+`, `%` and upper-case hex digits |
| `UrlCodec.EscapeRun` | src/main/kotlin/tel/schich/postfixrestconnector/TcpLookupHandler.kt:203-206 | `URLDecoder` gathers a whole run of `%XX` escapes and decodes them together; the run ends before the first non-`%` |
| `UrlCodec.UrlDecode` | src/main/kotlin/tel/schich/postfixrestconnector/TcpLookupHandler.kt:203-206 | `URLDecoder.decode` never lengthens its input |
| `UrlCodec.UrlDecodePlain` | src/main/kotlin/tel/schich/postfixrestconnector/TcpLookupHandler.kt:203-206 | text without `%` and `+` decodes to itself |
| `UrlCodec.UrlDecodeEncodeWith` | src/main/kotlin/tel/schich/postfixrestconnector/TcpLookupHandler.kt:203-213 | round trip: decoding what the percent encoder produced gives the text back, in every escaping mode the connector uses |
| `UrlCodec.UrlDecodeFormUrlEncode` | src/main/kotlin/tel/schich/postfixrestconnector/PolicyRequestHandler.kt:163-167 | round trip: `URLDecoder.decode(URLEncoder.encode(s, UTF_8), UTF_8) == s` |
| `UrlCodec.ReplaceAllAppend` | src/main/kotlin/tel/schich/postfixrestconnector/TcpLookupHandler.kt:208-213 | `String.replace` distributes over a concatenation no occurrence straddles |
| `UrlCodec.EncodeResponseIsResponseText` | src/main/kotlin/tel/schich/postfixrestconnector/TcpLookupHandler.kt:208-213 | `encodeResponseData` (encode, `+` to `%20`, `%2B` to `+`) is the per-character escaping that keeps `+` and writes space as `%20` |
| `UrlCodec.EncodeResponseAlphabet` | src/main/kotlin/tel/schich/postfixrestconnector/TcpLookupHandler.kt:208-213 | an encoded response holds no character at or below U+0020, so it never breaks the reply line |
| `UrlCodec.DecodeRequestEncodeResponse` | src/main/kotlin/tel/schich/postfixrestconnector/TcpLookup.kt:17-25 | round trip: `decodeRequest(encodeResponse(s)) == s` for every text |
| `UrlCodec.DecodeRequestKeepsPlus` | src/main/kotlin/tel/schich/postfixrestconnector/TcpLookup.kt:17-19 | `decodeRequest` leaves text without `%` unchanged, `+` included, because `+` is escaped before decoding |
| `UrlCodec.CharsetNamed` | src/main/java/tel/schich/postfixrestconnector/PostfixProtocol.java:29-35 | the charset names the decoders pass resolve to UTF-8 and US-ASCII |
| `UrlCodec.DecodeWithCharsetName` | src/main/java/tel/schich/postfixrestconnector/PostfixProtocol.java:29-35 | an unknown charset name returns the data unchanged (the `UnsupportedEncodingException` branch); a known one decodes with it |
| `UrlCodec.DecodeUrlEncodedDataIsAscii` | src/main/java/tel/schich/postfixrestconnector/PostfixProtocol.java:29-35 | the Java revisions' `decodeURLEncodedData` is `URLDecoder` under US-ASCII |
| `UrlCodec.UrlDecodeTriplets` | src/main/kotlin/tel/schich/postfixrestconnector/TcpLookupHandler.kt:203-206 | a run of escapes decodes to the charset decoding of its bytes |
| `UrlCodec.UrlDecodePlus` | src/main/kotlin/tel/schich/postfixrestconnector/TcpLookupHandler.kt:203-206 | `URLDecoder` turns `+` into a space |
| `UrlCodec.DecodeRequestFixture` | src/test/kotlin/tel/schich/postfixrestconnector/TcpLookupHandlerTest.kt:26-29 | `+%20%25&%C2%A7%C3%9F` decodes to `+ %&§ß` |
| `UrlCodec.EncodeResponseFixture` | src/test/kotlin/tel/schich/postfixrestconnector/TcpLookupHandlerTest.kt:31-34 | `+ %&§ß` encodes to `+%20%25%26%C2%A7%C3%9F` |
| `UrlCodec.DecodeUrlEncodedDataFixture` | src/main/java/tel/schich/postfixrestconnector/PostfixProtocol.java:29-35 | `decodeURLEncodedData` (URLDecoder under US-ASCII) turns `+%20%25&%C2%A7%C3%9F` into two spaces, `%&` and four U+FFFD |
| `UrlCodec.SingleEscape` | src/main/kotlin/tel/schich/postfixrestconnector/TcpLookupHandler.kt:203-206 | a single `%ab`: illegal hex is an error, a negative value is an error, any other value decodes as that byte |
| `UrlCodec.UrlDecodeErrors` | src/main/kotlin/tel/schich/postfixrestconnector/TcpLookupHandler.kt:203-206 | incomplete escapes and illegal hex are errors; `Integer.parseInt` leniency lets `%+1` and `%-0` through |
| `Outcome.IoExceptionMessageFallback` | src/main/kotlin/tel/schich/postfixrestconnector/Util.kt:72-75 | the fallback text is never empty and tells the two kinds apart |
| `LineReader.Lines` | src/main/java/tel/schich/postfixrestconnector/TcpLookupHandler.java:152-165 | the reference reading of a byte stream: complete lines and an unterminated tail free of line feeds |
| `LineReader.FeedIsLines` | src/main/java/tel/schich/postfixrestconnector/TcpLookupHandler.java:152-165 | the byte-at-a-time reader hands on exactly the reference lines of pending plus new bytes and keeps their tail |
| `LineReader.FeedAppend` | src/main/java/tel/schich/postfixrestconnector/TcpLookupHandler.java:152-165 | reading two buffers one after another is reading their concatenation: where a read ends does not matter |
| `LineReader.UnlinesLines` | src/main/java/tel/schich/postfixrestconnector/TcpLookupHandler.java:152-165 | the lines and the tail, rejoined with line feeds, are the input |
| `LineReader.LinesUnlines` | src/main/java/tel/schich/postfixrestconnector/TcpLookupHandler.java:152-165 | lines without line feeds, joined and terminated, read back as the same lines |
| `LineReader.FeedUnlines` | src/main/java/tel/schich/postfixrestconnector/TcpLookupHandler.java:152-165 | a stream of terminated requests is handed on request by request, nothing left pending |
| `LineReader.Read` | src/main/java/tel/schich/postfixrestconnector/TcpLookupHandler.java:152-165 | the `read` loop computes the reader's step function over the whole buffer and reports every byte as read |
| `TcpLookupHandler.StatusReply` | src/commonMain/kotlin/tel/schich/postfixrestconnector/TcpLookupHandler.kt:65-91 | 200 with a non-empty list gives 200 and the joined values; 404 and an empty list give 500 `key not found`; every other status a 400 |
| `TcpLookupHandler.RespondFailed` | src/commonMain/kotlin/tel/schich/postfixrestconnector/TcpLookupHandler.kt:49-63 | a failed call gives at most one 400 that fits; cancellation ends the connection; other failures stay exactly when the reply was written |
| `TcpLookupHandler.RespondCompleted` | src/commonMain/kotlin/tel/schich/postfixrestconnector/TcpLookupHandler.kt:65-104 | 200 exactly for a non-empty list whose reply fits, 500 exactly for 404 or an empty list; only an undecodable body can end the connection |
| `TcpLookupHandler.Handle` | src/commonMain/kotlin/tel/schich/postfixrestconnector/TcpLookupHandler.kt:37-104 | the REST call is made exactly for `get <key>` lines whose key `decodeURLPart` accepts, with the decoded trimmed key; a key it rejects ends the connection with no reply; at most one reply, always within 4096 characters; malformed lines end the connection |
| `TcpLookupHandler.TextReadable` | src/commonMain/kotlin/tel/schich/postfixrestconnector/TcpLookupHandler.kt:125-134 | a framed reply reads back: the code before the first space, a line feed at the end, and the limit is a limit on its characters |
| `TcpLookupHandlerKt.Guarded` | src/main/kotlin/tel/schich/postfixrestconnector/TcpLookupHandler.kt:115-122 | a reply that fits is written; one that does not is replaced by the `encountered a problem` 400, or by nothing when that does not fit either |
| `TcpLookupHandlerKt.StatusReply` | src/main/kotlin/tel/schich/postfixrestconnector/TcpLookupHandler.kt:82-114 | a null body is the `REST result was broken!` 400, an empty body or list and 404 are 500, a non-empty list is 200; an unparseable body gets no reply |
| `TcpLookupHandlerKt.Respond` | src/main/kotlin/tel/schich/postfixrestconnector/TcpLookupHandler.kt:71-123 | at most one reply, always within the limit; a failed call answers with 400 unless even the fallback reply does not fit; a timeout gets the `REST request timed out` prefix the branch intends |
| `TcpLookupHandlerKt.Handle` | src/main/kotlin/tel/schich/postfixrestconnector/TcpLookupHandler.kt:49-123 | with a timeout recognised as intended: the call is made exactly for `get <key>` lines whose key decodes; a malformed line is answered and closed; after the call the connection stays open and gets the callback's reply |
| `TcpLookupHandlerKt.HandleAsWritten` | src/main/kotlin/tel/schich/postfixrestconnector/TcpLookupHandler.kt:73-81 | as written: the `TimeoutException` test never sees the client's `HttpTimeoutException`, so a failed call is always answered with its bare message; on every other outcome it is `Handle` |
| `TcpLookupHandlerKt.TimeoutAnsweredPlain` | src/main/kotlin/tel/schich/postfixrestconnector/TcpLookupHandler.kt:73-81 | for a timed-out call the code as written sends the bare message, a different reply from the `REST request timed out` one the branch intends |
| `TcpLookupHandlerKt.UndecodableBodyIsSilent` | src/main/kotlin/tel/schich/postfixrestconnector/TcpLookupHandler.kt:84-100 | a 200 body that is not a JSON list gets no reply here, and the `invalid data` 400 in the multiplatform revision |
| `TcpLookupHandlerKt.KeyVerbatim` | src/main/kotlin/tel/schich/postfixrestconnector/TcpLookupHandler.kt:56 | a key without `%` is sent as the trimmed text after the prefix, `+` kept |
| `TcpLookupHandlerJava.Guarded` | src/main/java/tel/schich/postfixrestconnector/TcpLookupHandler.java:115-146 | a reply over 4096 bytes is replaced by the `encountered a problem` 400, which always fits |
| `TcpLookupHandlerJava.ShortRepliesFit` | src/main/java/tel/schich/postfixrestconnector/TcpLookupHandler.java:139-146 | a three-digit code with at most 1000 characters of data stays under the limit |
| `TcpLookupHandlerJava.StatusReply` | src/main/java/tel/schich/postfixrestconnector/TcpLookupHandler.java:86-114 | 200 exactly for a non-empty list, carrying the joined values; 500 `key not found` for 404, an empty body and an empty list; 400 otherwise |
| `TcpLookupHandlerJava.Respond` | src/main/java/tel/schich/postfixrestconnector/TcpLookupHandler.java:79-124 | a completed call always gets one reply within the limit; a failure gets none exactly when its message is null |
| `TcpLookupHandlerJava.BrokenRequestFits` | src/main/java/tel/schich/postfixrestconnector/TcpLookupHandler.java:66-70 | the `Broken request!` reply fits the limit |
| `TcpLookupHandlerJava.Handle` | src/main/java/tel/schich/postfixrestconnector/TcpLookupHandler.java:63-125 | the call is made exactly for `get <key>` lines whose key decodes; a malformed line gets `400 Broken request!` and the channel is closed |
| `TcpLookupHandlerJava.PlusBecomesSpace` | src/main/java/tel/schich/postfixrestconnector/TcpLookupHandler.java:72 | `get a+b` looks up `a b` here and `a+b` in the Kotlin revision |
| `LookupRequestHandler.HandleReadError` | src/main/java/tel/schich/postfixrestconnector/LookupRequestHandler.java:60-64 | a read error is answered with one 400 and the channel is closed |
| `LookupRequestHandler.ReadErrorFits` | src/main/java/tel/schich/postfixrestconnector/LookupRequestHandler.java:60-64 | that reply fits the limit |
| `LookupRequestHandler.StatusReply` | src/main/java/tel/schich/postfixrestconnector/LookupRequestHandler.java:89-112 | a non-empty body is passed through as 200, an empty body and 404 are 500 `key not found`, every other status a 400 |
| `LookupRequestHandler.Respond` | src/main/java/tel/schich/postfixrestconnector/LookupRequestHandler.java:84-120 | a completed call always gets one reply within the limit, a 200 carrying the body; a failure gets none exactly when its message is null |
| `LookupRequestHandler.Handle` | src/main/java/tel/schich/postfixrestconnector/LookupRequestHandler.java:69-120 | the call is made exactly for `get <key>` lines whose key decodes; a malformed line gets `400 Broken request!` and the channel is closed |
| `LookupRequestHandler.AgreesWithTcpLookup` | src/main/java/tel/schich/postfixrestconnector/LookupRequestHandler.java:89-112 | apart from a non-empty 200 body (passed through here, parsed as a list there) this handler answers as the Java tcp-lookup handler |
| `LegacyLookup.Bytes` | src/main/java/tel/schich/LookupRequestHandler.java:129-133 | one byte per character of the reply text, with no length limit |
| `LegacyLookup.TextIsCrlfFramed` | src/main/java/tel/schich/PostfixProtocol.java:64-71 | the first revision frames replies like the later Java one, with `\r\n` in place of `\n` |
| `LegacyLookup.HandleReadError` | src/main/java/tel/schich/LookupRequestHandler.java:59-63 | a read error is answered with one 400 and the channel is closed |
| `LegacyLookup.StatusReply` | src/main/java/tel/schich/LookupRequestHandler.java:87-104 | 200 passes the body on; 4xx, 404 included, is the permanent 500; 5xx the temporary 400; any other status is not answered |
| `LegacyLookup.Respond` | src/main/java/tel/schich/LookupRequestHandler.java:80-114 | a failure is answered with its message as a 400, or not at all when the message is null; a completed call is answered exactly when its status is, and with the status branch's reply, a 200 carrying the body |
| `LegacyLookup.HandleAsWritten` | src/main/java/tel/schich/LookupRequestHandler.java:65-115 | as written: a line without `get ` is rejected and closed, and its key is still looked up whenever it has four characters and decodes |
| `LegacyLookup.RejectedRequestIsLookedUp` | src/main/java/tel/schich/LookupRequestHandler.java:68-78 | `post k` is rejected and closed, and the REST endpoint is still asked for `k` |
| `LegacyLookup.ShortRejectedRequestThrows` | src/main/java/tel/schich/LookupRequestHandler.java:68-73 | a rejected line shorter than the prefix then throws in `substring` |
| `LegacyLookup.Handle` | src/main/java/tel/schich/LookupRequestHandler.java:65-115 | corrected: a line without `get ` is answered, closed and never looked up; the call is made exactly for prefixed lines whose key decodes |
| `LegacyLookup.HandleAgreesOnPrefixed` | src/main/java/tel/schich/LookupRequestHandler.java:65-115 | the correction changes nothing for lines that carry the prefix |
| `LegacyLookup.BarePrefixIsLookedUp` | src/main/java/tel/schich/LookupRequestHandler.java:68-73 | `get ` alone passes this revision's check and looks up the empty key, unlike the later revisions |
| `SocketmapReader.StepByte` | src/commonMain/kotlin/tel/schich/postfixrestconnector/SocketmapLookupHandler.kt:159-193 | a request breaks exactly on a non-digit in the length or a non-comma after the payload; a payload is handed on exactly at the comma; digits extend a 64-bit length; the payload never outgrows it |
| `SocketmapReader.FeedAppend` | src/commonMain/kotlin/tel/schich/postfixrestconnector/SocketmapLookupHandler.kt:159-193 | reading two buffers in turn is reading their concatenation |
| `SocketmapReader.LengthDigits` | src/commonMain/kotlin/tel/schich/postfixrestconnector/SocketmapLookupHandler.kt:161-172 | a run of digits sets the length to its decimal value |
| `SocketmapReader.ValueBytes` | src/commonMain/kotlin/tel/schich/postfixrestconnector/SocketmapLookupHandler.kt:173-180 | payload bytes are collected until the length is reached, then the comma is expected |
| `SocketmapReader.FrameThen` | src/commonMain/kotlin/tel/schich/postfixrestconnector/SocketmapLookupHandler.kt:159-193 | a netstring with a non-empty payload hands on that payload and leaves the reader where it started |
| `SocketmapReader.FeedFrames` | src/commonMain/kotlin/tel/schich/postfixrestconnector/SocketmapLookupHandler.kt:159-193 | a stream of netstrings is handed on payload by payload, in order |
| `SocketmapReader.ZeroLength` | src/commonMain/kotlin/tel/schich/postfixrestconnector/SocketmapLookupHandler.kt:173-180 | a zero-length netstring needs one byte past its colon before the comma is expected: `0:,` alone is not a request, `0:,,` is |
| `SocketmapReader.StoppedStays` | src/commonMain/kotlin/tel/schich/postfixrestconnector/SocketmapLookupHandler.kt:119-123 | once a broken request has thrown, later bytes are never read |
| `SocketmapReader.StoppedReasonShort` | src/commonMain/kotlin/tel/schich/postfixrestconnector/SocketmapLookupHandler.kt:159-193 | every reason the reader stops for is at most 41 characters: the expected token, the byte as a character and its signed value |
| `SocketmapReader.Fixture` | src/test/kotlin/tel/schich/postfixrestconnector/SocketmapLookupHandlerTest.kt:41-50 | `15:test 0123456789,` hands on `test 0123456789` |
| `SocketmapReader.Read` | src/main/kotlin/tel/schich/postfixrestconnector/SocketmapLookupHandler.kt:154-191 | the `read` loop computes the reader's step function over the buffer |
| `SocketmapReaderJava.StepByte` | src/main/java/tel/schich/postfixrestconnector/SocketmapLookupHandler.java:186-228 | the pending text is dispatched exactly at the comma; a non-digit in the length or a non-comma at the end is rejected, and reading goes on |
| `SocketmapReaderJava.Read` | src/main/java/tel/schich/postfixrestconnector/SocketmapLookupHandler.java:186-228 | the `read` loop computes the step function over the buffer and reports every byte as read |
| `SocketmapReaderJava.StepMirrors` | src/main/java/tel/schich/postfixrestconnector/SocketmapLookupHandler.java:186-228 | on well-formed input one byte does what the Kotlin reader does, dispatching the widened payload |
| `SocketmapReaderJava.FeedMirrors` | src/main/java/tel/schich/postfixrestconnector/SocketmapLookupHandler.java:186-228 | on input the Kotlin reader accepts, the Java reader dispatches the same payloads, widened, in the same order |
| `SocketmapReaderJava.BadDigitDiverges` | src/main/java/tel/schich/postfixrestconnector/SocketmapLookupHandler.java:193-222 | after a bad digit the Kotlin reader stops, the Java reader rejects and still dispatches |
| `SocketmapLookupHandler.Word` | src/commonMain/kotlin/tel/schich/postfixrestconnector/SocketmapLookupHandler.kt:111-135 | every status word the writers put before the data is a single word of two to eight letters |
| `SocketmapLookupHandler.StatusOf` | src/commonMain/kotlin/tel/schich/postfixrestconnector/SocketmapLookupHandler.kt:111-135 | a status word read back names the status that writes it |
| `SocketmapLookupHandler.Text` | src/commonMain/kotlin/tel/schich/postfixrestconnector/SocketmapLookupHandler.kt:111-135 | a reply is its status word, one space and its data |
| `SocketmapLookupHandler.ParseReply` | src/commonMain/kotlin/tel/schich/postfixrestconnector/SocketmapLookupHandler.kt:111-135 | reading a reply at its first space only ever yields a reply whose text is the input |
| `SocketmapLookupHandler.ParseText` | src/commonMain/kotlin/tel/schich/postfixrestconnector/SocketmapLookupHandler.kt:111-135 | round trip: every reply the handler writes reads back as itself |
| `SocketmapLookupHandler.FramedReplyReadable` | src/commonMain/kotlin/tel/schich/postfixrestconnector/SocketmapLookupHandler.kt:143-152 | a reply within the 10000-character limit is sent as one netstring, which `parseOne` reads back to the same reply |
| `SocketmapLookupHandler.SplitRequest` | src/commonMain/kotlin/tel/schich/postfixrestconnector/SocketmapLookupHandler.kt:39-48 | a request splits exactly when it has a space: the name before the first space (space-free) and the key after it, which rejoin to the request |
| `SocketmapLookupHandler.SplitJoined` | src/commonMain/kotlin/tel/schich/postfixrestconnector/SocketmapLookupHandler.kt:39-48 | a space-free name and any key, joined by a space, split back into themselves |
| `SocketmapLookupHandler.Chosen` | src/commonMain/kotlin/tel/schich/postfixrestconnector/SocketmapLookupHandler.kt:49-108 | OK exactly for a non-empty list, carrying the joined values; NOTFOUND exactly for 404 or an empty list; TIMEOUT exactly for a timeout; PERM exactly for 4xx other than 404; every error names the request id |
| `SocketmapLookupHandler.Handle` | src/commonMain/kotlin/tel/schich/postfixrestconnector/SocketmapLookupHandler.kt:37-152 | the call is made for every request with a space, with the undecoded name and key; the chosen reply is sent exactly when it fits; a request without a space or a reply that does not fit ends the connection |
| `SocketmapLookupHandler.BrokenRequest` | src/commonMain/kotlin/tel/schich/postfixrestconnector/SocketmapLookupHandler.kt:119-123 | `PERM <id> - Broken request! (<reason>)` is written exactly when it fits, and `error(reason)` then ends the connection with no call made |
| `SocketmapLookupHandler.StoppedReadAnswered` | src/commonMain/kotlin/tel/schich/postfixrestconnector/SocketmapLookupHandler.kt:159-193 | a read the reader stops on is answered with the PERM reply naming the reason it stopped for, which always fits for an id of up to 1000 characters, and the connection ends |
| `SocketmapLookupHandler.FoundValuesReadBack` | src/commonMain/kotlin/tel/schich/postfixrestconnector/SocketmapLookupHandler.kt:73-84 | with a one-character separator no value contains, Postfix can split the OK data back into the REST values |
| `SocketmapLookupHandlerKt.Guarded` | src/main/kotlin/tel/schich/postfixrestconnector/SocketmapLookupHandler.kt:96-104 | a reply that fits is written; one that does not is replaced by the TEMP `encountered a problem` reply, or nothing when even that does not fit |
| `SocketmapLookupHandlerKt.Handle` | src/main/kotlin/tel/schich/postfixrestconnector/SocketmapLookupHandler.kt:33-147 | as the multiplatform handler, except that once the call completed the reply goes through the problem fallback and the connection stays open |
| `SocketmapLookupHandlerKt.AgreesWithReference` | src/main/kotlin/tel/schich/postfixrestconnector/SocketmapLookupHandler.kt:33-147 | the two revisions agree whenever the chosen reply fits; where they differ, the multiplatform one ends the connection and this one stays |
| `SocketmapLookupHandlerKt.OversizedAnswer` | src/main/kotlin/tel/schich/postfixrestconnector/SocketmapLookupHandler.kt:69-104 | an OK reply over the limit: nothing and the end of the connection in the multiplatform revision, the TEMP problem reply here |
| `SocketmapLookupHandlerJava.Guarded` | src/main/java/tel/schich/postfixrestconnector/SocketmapLookupHandler.java:124-164 | always exactly one reply within the limit: the reply itself when it fits, the TEMP problem reply otherwise |
| `SocketmapLookupHandlerJava.ProblemFits` | src/main/java/tel/schich/postfixrestconnector/SocketmapLookupHandler.java:124-131 | the fallback reply fits the limit |
| `SocketmapLookupHandlerJava.BrokenRequestFits` | src/main/java/tel/schich/postfixrestconnector/SocketmapLookupHandler.java:69-76 | the broken-request reply fits the limit |
| `SocketmapLookupHandlerJava.Chosen` | src/main/java/tel/schich/postfixrestconnector/SocketmapLookupHandler.java:84-123 | OK exactly for a non-empty list; NOTFOUND exactly for 404, an empty body or an empty list; TIMEOUT exactly for a timeout; other failures are TEMP with their message |
| `SocketmapLookupHandlerJava.Query` | src/main/java/tel/schich/postfixrestconnector/SocketmapLookupHandler.java:69-76 | the name and key are the two sides of the first space, each URL-decoded under US-ASCII; a decoding error in either is an error |
| `SocketmapLookupHandlerJava.Handle` | src/main/java/tel/schich/postfixrestconnector/SocketmapLookupHandler.java:66-134 | no space: the PERM broken-request reply and the channel is closed; an undecodable name or key: nothing, and the exception ends the connection; otherwise the call is made and exactly one reply within the limit is sent |
| `SocketmapLookupHandlerJava.OnEvent` | src/main/java/tel/schich/postfixrestconnector/SocketmapLookupHandler.java:185-228 | a payload the reader hands on is handled as a request; a rejection is answered with `PERM Broken request! (<reason>)`, without an id, and the channel closed while the read loop goes on |
| `SocketmapLookupHandlerJava.RejectionAnswered` | src/main/java/tel/schich/postfixrestconnector/SocketmapLookupHandler.java:144-147 | every rejection of the Java reader gets its reply, which always fits, and closes the channel |
| `SocketmapLookupHandlerJava.PlainQuery` | src/main/java/tel/schich/postfixrestconnector/SocketmapLookupHandler.java:69-76 | a request without `%` and `+` is sent with the same name and key as the Kotlin revisions |
| `SocketmapLookupHandlerJava.SameAnswers` | src/main/java/tel/schich/postfixrestconnector/SocketmapLookupHandler.java:94-114 | for 404 and for a 200 with a parsed body the Java handler chooses the same reply as the multiplatform one |
| `PolicyReader.StepByte` | src/commonMain/kotlin/tel/schich/postfixrestconnector/PolicyRequestHandler.kt:129-155 | a request is handed on exactly at a line end while reading a name, holding every pair since the previous request; otherwise no pair is lost |
| `PolicyReader.FeedAppend` | src/commonMain/kotlin/tel/schich/postfixrestconnector/PolicyRequestHandler.kt:129-155 | reading two buffers in turn is reading their concatenation |
| `PolicyReader.FeedCollects` | src/commonMain/kotlin/tel/schich/postfixrestconnector/PolicyRequestHandler.kt:129-155 | bytes that end nothing are only collected |
| `PolicyReader.FeedAttribute` | src/commonMain/kotlin/tel/schich/postfixrestconnector/PolicyRequestHandler.kt:129-155 | a `name=value` line appends the decoded pair |
| `PolicyReader.FeedAttributes` | src/commonMain/kotlin/tel/schich/postfixrestconnector/PolicyRequestHandler.kt:129-155 | a run of attribute lines appends their decoded pairs, in order |
| `PolicyReader.FeedRequest` | src/commonMain/kotlin/tel/schich/postfixrestconnector/PolicyRequestHandler.kt:129-155 | attribute lines followed by an empty line hand on exactly those pairs and leave the reader empty |
| `PolicyReader.FeedRequests` | src/commonMain/kotlin/tel/schich/postfixrestconnector/PolicyRequestHandler.kt:129-155 | a stream of requests is handed on request by request, each with its decoded pairs |
| `PolicyReader.WidenAscii` | src/main/kotlin/tel/schich/postfixrestconnector/PolicyRequestHandler.kt:112-148 | the JVM readers' per-byte decoding keeps ASCII as it is |
| `PolicyReader.Utf8Name` | src/commonMain/kotlin/tel/schich/postfixrestconnector/PolicyRequestHandler.kt:129-155 | any text without line end or `=` is a valid attribute name in UTF-8, and a decoder that reads back UTF-8 gives the text again |
| `PolicyReader.LineWithoutSeparator` | src/commonMain/kotlin/tel/schich/postfixrestconnector/PolicyRequestHandler.kt:129-155 | a line without `=` ends the request, and its text stays pending and becomes the start of the next name |
| `PolicyReader.FragmentedFixture` | src/commonTest/kotlin/tel/schich/postfixrestconnector/PolicyRequestHandlerTest.kt:65-91 | `a=b\n`, `\na`, `=c\n\n` arriving in three reads give the requests `a=b` and then `a=c` |
| `PolicyReader.Read` | src/commonMain/kotlin/tel/schich/postfixrestconnector/PolicyRequestHandler.kt:129-155 | the `read` loop computes the reader's step function over the buffer and reports every byte as read |
| `PolicyRequestHandler.ReadActionText` | src/commonMain/kotlin/tel/schich/postfixrestconnector/PolicyRequestHandler.kt:109-115 | an action without a line end is read back by Postfix from `action=<action>\n\n` |
| `PolicyRequestHandler.MultiLineAction` | src/commonMain/kotlin/tel/schich/postfixrestconnector/PolicyRequestHandler.kt:109-115 | an action that contains a line end does not reach Postfix intact |
| `PolicyRequestHandler.Answer` | src/commonMain/kotlin/tel/schich/postfixrestconnector/PolicyRequestHandler.kt:63-69 | the 200 answer is the trimmed body, already trimmed |
| `PolicyRequestHandler.Handle` | src/commonMain/kotlin/tel/schich/postfixrestconnector/PolicyRequestHandler.kt:39-91 | every request is sent; 200 answers the trimmed body; 4xx rejects with 554, 5xx and failures defer with 451; other statuses are not answered; only cancellation ends the connection |
| `PolicyRequestHandlerJvm.Fields` | src/main/kotlin/tel/schich/postfixrestconnector/PolicyRequestHandler.kt:163-167 | one `name=value` field per pair, in order, each side form-encoded under US-ASCII |
| `PolicyRequestHandlerJvm.FormBodyFields` | src/main/kotlin/tel/schich/postfixrestconnector/PolicyRequestHandler.kt:163-167 | the body splits at `&` into the fields, and each field at `=` into the encoded name and value: the body is unambiguous |
| `PolicyRequestHandlerJvm.Replies` | src/main/kotlin/tel/schich/postfixrestconnector/PolicyRequestHandler.kt:59-102 | the callback's reply table with a timeout recognised as intended: a timeout defers with `REST request timed out` and the message, other failures with their message; a null 200 body defers with `REST result was broken!`; any other 200 answers the trimmed body; other statuses as the reference |
| `PolicyRequestHandlerJvm.Handle` | src/main/kotlin/tel/schich/postfixrestconnector/PolicyRequestHandler.kt:43-104 | with a timeout recognised as intended: the call posts the form body; the connection is closed exactly when the call failed, and the callback never ends it otherwise |
| `PolicyRequestHandlerJvm.HandleAsWritten` | src/main/kotlin/tel/schich/postfixrestconnector/PolicyRequestHandler.kt:61-70 | as written: every failed call, a timeout included, defers with its bare message and closes the channel; on every other outcome it is `Handle` |
| `PolicyRequestHandlerJvm.AgreesOnAnswers` | src/main/kotlin/tel/schich/postfixrestconnector/PolicyRequestHandler.kt:71-94 | a completed call with a body gets the same reply as in the multiplatform revision, and both keep the connection |
| `PolicyRequestHandlerJvm.TimeoutCloses` | src/main/kotlin/tel/schich/postfixrestconnector/PolicyRequestHandler.kt:61-70 | a timeout closes the connection here and keeps it in the multiplatform revision; as written the reply is the bare message, not the `REST request timed out` one the branch intends |

## Left out

- The HTTP clients and JSON are not modelled: `AsyncHttpClient`, `java.net.http`, ktor and Jackson/kotlinx serialization. The REST call is the `HttpOutcome` parameter, which carries the status, the body and the decoded list. Request headers, timeouts and URL building are not modelled.
- ktor's `decodeURLPart` and `encodeURLPathPart`, used by the multiplatform tcp-lookup handler, are library code. They stay an uninterpreted `Codec` parameter. The decoder is partial: `None` stands for the `URLDecodeException` it throws on a malformed escape.
- `PolicyReader.DecodeText`: kotlinx-io's `Buffer.readString`, which the multiplatform policy reader decodes with, is library code and stays an uninterpreted function. The model assumes only that it reads back well-formed UTF-8 (`PolicyReader.ReadsUtf8`). Its replacement of ill-formed sequences differs from the JDK decoder's and is not modelled.
- `Jvm.ParseInt32` accepts only the ASCII digits `0`-`9`. `Integer.parseInt` reads digits with `Character.digit`, which also accepts every other Unicode decimal digit: `parse("١:a,")` (U+0661) is `["a"]` in Java and a `NotANumber` error here. The Unicode digit table is not part of this model.
- `UrlCodec.HexValue` accepts only the ASCII hex digits. `URLDecoder` parses an escape with `Integer.parseInt(..., 16)`, which also accepts other Unicode digits and the fullwidth letters, so `%ＡＡ` is the byte 0xAA in Java and an illegal-hex error here. The reason is the same.
- Sockets, selectors, coroutines and concurrency are not modelled. The `after` field stands for `ch.close()` and for an exception leaving the handler, and a write is not modelled as able to fail. So the `encountered a problem` reply appears only where a reply exceeds the length limit.
- Logging is left out everywhere: `printRequest`, `logRequest` and the `LOGGER` calls. So is `connectorEndpointRequest` in `Util.kt`.
- Request ids are plain strings, not UUIDs.
- Dafny characters are Unicode scalar values, while Java strings are UTF-16. Lengths agree for text in the Basic Multilingual Plane, and the model counts characters.
- The byte encoding of socketmap and policy replies is not modelled, so the limits are on characters as in the source. `Jvm.NarrowEncode` and `LegacyLookup.Bytes` state the ASCII narrowing where a reply's bytes matter.
- The multiplatform policy handler receives ktor `Parameters`, which group repeated names. The model passes the ordered list of pairs as read. `FormDataContent`'s encoding of that list is not modelled.
- `PolicyRequestHandler.Answer`: `bodyAsText()` never yields null, so the model reads a missing body as the empty text.
- The multiplatform `writeInvalidDataError` path of the policy handler cannot be reached from `bodyAsText()`, so it is not modelled.
- `readRequest`, `readAsciiString` and `readToEnd` of the Java `LookupRequestHandler` and of the first revision belong to `HandlerHelper`/`PostfixRequestHandler`, which are not part of this model. The handlers are modelled from the request line on.
- The Java readers' `close()` drops the pending text. That affects only a closed connection and is not modelled.
- The Java socketmap reader's `default` branch is not modelled, because its state is always one of the three others.
- `Main`, `Configuration`, `Endpoint`, `RestConnector`, `Session` and `ConnectionState` are wiring and are not part of this model.
- `Netstring.NextFrame` only states that the loop advances. What a turn returns is stated by `Netstring.NextFrameOfFrame` and the fixtures, not by its own contract.

## Findings

| source | as written | input that shows it | evidently intended | confidence | as-written member | corrected member |
|---|---|---|---|---|---|---|
| src/main/kotlin/tel/schich/postfixrestconnector/TcpLookupHandler.kt:73-81 | the callback answers a failure with `REST request timed out: <message>` only when `err is TimeoutException`. `java.net.http` reports a timeout as `HttpTimeoutException`, an `IOException`, so that branch is never taken | a REST call that runs past the endpoint's request timeout: it is answered with the bare exception message | answer a timed-out call with the `REST request timed out` text | not executed | `TcpLookupHandlerKt.HandleAsWritten` (shown by `TcpLookupHandlerKt.TimeoutAnsweredPlain`) | `TcpLookupHandlerKt.Handle` |
| src/main/kotlin/tel/schich/postfixrestconnector/PolicyRequestHandler.kt:61-70 | the same `err is TimeoutException` test in the policy callback, and `err instanceof TimeoutException` in src/main/java/tel/schich/postfixrestconnector/PolicyRequestHandler.java:89-98, can never match the client's `HttpTimeoutException` | a timed-out policy call: it is deferred with the bare exception message | defer with the `REST request timed out` text | not executed | `PolicyRequestHandlerJvm.HandleAsWritten` (shown by `PolicyRequestHandlerJvm.TimeoutCloses`) | `PolicyRequestHandlerJvm.Handle` |
| src/main/java/tel/schich/LookupRequestHandler.java:68-78 | a line without the `get ` prefix is answered with `500 Broken request!` and the channel is closed, but there is no `return`, so the key is still decoded and the REST endpoint is still called | the line `post k`: it is rejected and closed, and the endpoint is asked for the key `k` | reject the line without making the REST call, as every later revision does | not executed | `LegacyLookup.HandleAsWritten` (shown by `LegacyLookup.RejectedRequestIsLookedUp`) | `LegacyLookup.Handle` (agreement on prefixed lines: `LegacyLookup.HandleAgreesOnPrefixed`) |
