/** The tcp-lookup request handler of the multiplatform revision
    (`TcpLookupHandler.handleRequest` and its writers), the reference the
    other revisions are compared with. A request line is `get <key>`; the
    reply is `<code> <data>\n` with code 200 (found), 500 (not found) or
    400 (any failure). */
module TcpLookupHandler {
  import opened Wrappers
  import opened Jvm
  import opened Outcome
  import Joiner

  const LOOKUP_PREFIX: string := "get "
  const MAXIMUM_RESPONSE_LENGTH: nat := 4096
  const END_CHAR: char := '\n'

  const CANCELLED: string := "Coroutine cancelled: "
  const KEY_NOT_FOUND: string := " - key not found"

  /** ktor's `decodeURLPart` and `encodeURLPathPart`, which the connector
      calls through `TcpLookup.decodeRequest` and `encodeResponse`. They
      belong to the HTTP library and stay uninterpreted, except that the
      decoder is partial: `None` stands for the `URLDecodeException` it
      throws on a malformed escape such as `%zz`. */
  datatype Codec = Codec(decode: string -> Option<string>, encode: string -> string)

  /** A reply before it is framed: its code and its text. */
  datatype Reply = Reply(code: int, data: string)

  /** The request check: longer than the prefix and starting with it. */
  predicate IsLookup(line: string) {
    |line| > |LOOKUP_PREFIX| && line[..|LOOKUP_PREFIX|] == LOOKUP_PREFIX
  }

  /** The key sent to the REST endpoint, or `None` when the decoder
      throws. */
  function KeyOf(codec: Codec, line: string): Option<string>
    requires IsLookup(line)
  {
    codec.decode(Trim(line[|LOOKUP_PREFIX|..]))
  }

  function ErrorReply(id: string, message: string): Reply {
    Reply(400, id + " - " + message)
  }

  function NotFoundReply(id: string): Reply {
    Reply(500, id + KEY_NOT_FOUND)
  }

  function SuccessReply(values: seq<string>, sep: string): Reply {
    Reply(200, Joiner.Join(values, sep))
  }

  /** The text `writeResponse` sends. */
  function Text(codec: Codec, r: Reply): string {
    IntToString(r.code) + " " + codec.encode(r.data) + [END_CHAR]
  }

  /** It goes out in ISO-8859-1, and only if it fits the limit. */
  predicate Fits(codec: Codec, r: Reply) {
    |NarrowEncode(Text(codec, r), ISO_8859_1_LIMIT)| <= MAXIMUM_RESPONSE_LENGTH
  }

  /** A write whose `IOException` ("response to long") leaves the handler. */
  function Write(codec: Codec, r: Reply, after: After): (seq<Reply>, After) {
    if Fits(codec, r) then ([r], after) else ([], Abort)
  }

  /** The reply the status branch chooses for a completed call whose body,
      if the status is 200, decoded to `values`. */
  function StatusReply(id: string, sep: string, status: int, reason: string, values: seq<string>): (r: Reply)
    ensures r.code == 200 || r.code == 400 || r.code == 500
    ensures r.code == 200 <==> status == 200 && |values| > 0
    ensures r.code == 200 ==> r == SuccessReply(values, sep)
    ensures r.code == 500 <==> status == 404 || (status == 200 && |values| == 0)
    ensures r.code == 500 ==> r == NotFoundReply(id)
  {
    var code := KtorStatusText(status, reason);
    if status == 200 then
      if |values| == 0 then NotFoundReply(id) else SuccessReply(values, sep)
    else if status == 404 then NotFoundReply(id)
    else if IsClientError(status) then
      ErrorReply(id, USER_ERROR + code)
    else if IsServerError(status) then ErrorReply(id, SERVER_ERROR + code)
    else ErrorReply(id, UNSPECIFIED + code)
  }

  /** A call that failed: one 400 reply if it fits. Cancellation always
      ends the connection; the other failures only when their reply does
      not fit. */
  function RespondFailed(codec: Codec, id: string, f: Failure): (r: (seq<Reply>, After))
    ensures |r.0| <= 1
    ensures |r.0| == 1 ==> Fits(codec, r.0[0]) && r.0[0].code == 400
    ensures f.Cancelled? ==> r.1 == Abort
    ensures !f.Cancelled? ==> (r.1 == Stay <==> |r.0| == 1) && r.1 != Close
  {
    match f
    case TimedOut(_) => Write(codec, ErrorReply(id, TIMED_OUT), Stay)
    case Cancelled(m) => (Write(codec, ErrorReply(id, CANCELLED + NullableText(m)), Abort).0, Abort)
    case IoFailed(m, kind) => Write(codec, ErrorReply(id, IoExceptionMessage(m, kind)), Stay)
  }

  /** A completed call. A failed write inside the status branch is
      answered with a short 400 instead, and if that fails too the
      connection stays silent. */
  function RespondCompleted(codec: Codec, id: string, sep: string, status: int, reason: string, values: Option<seq<string>>)
    : (r: (seq<Reply>, After))
    ensures |r.0| <= 1
    ensures |r.0| == 1 ==> Fits(codec, r.0[0])
    ensures |r.0| == 1 ==> r.0[0].code == 200 || r.0[0].code == 400 || r.0[0].code == 500
    ensures (|r.0| == 1 && r.0[0].code == 200)
      <==> (status == 200 && values.Some? && |values.value| > 0 && Fits(codec, SuccessReply(values.value, sep)))
    ensures |r.0| == 1 && r.0[0].code == 200 ==> r.0[0] == SuccessReply(values.value, sep)
    ensures (|r.0| == 1 && r.0[0].code == 500)
      <==> ((status == 404 || (status == 200 && values == Some([]))) && Fits(codec, NotFoundReply(id)))
    ensures r.1 != Close
    ensures r.1 == Abort ==> status == 200 && values.None?
  {
    if status == 200 && values.None? then
      Write(codec, ErrorReply(id, INVALID_DATA), Stay)
    else
      var r := StatusReply(id, sep, status, reason, values.GetOr([]));
      if Fits(codec, r) then ([r], Stay)
      else
        var problem := ErrorReply(id, PROBLEM);
        (if Fits(codec, problem) then [problem] else [], Stay)
  }

  /** Everything after the REST call. */
  function Respond(codec: Codec, id: string, sep: string, o: HttpOutcome): (seq<Reply>, After) {
    match o
    case Failed(f) => RespondFailed(codec, id, f)
    case Completed(status, reason, _, values) => RespondCompleted(codec, id, sep, status, reason, values)
  }

  /** `handleRequest(ch, id, line)` given the REST call's outcome. */
  function Handle(codec: Codec, id: string, sep: string, line: string, o: HttpOutcome): (h: Handled<string, Reply>)
    // the REST call is made exactly for well-formed requests whose key
    // decodes, with the decoded, trimmed text after the prefix as its key
    ensures h.query.Some? <==> IsLookup(line) && codec.decode(Trim(line[4..])).Some?
    ensures h.query.Some? ==> h.query.value == codec.decode(Trim(line[4..])).value
    // a key the decoder rejects: its exception ends the connection before
    // any call or reply
    ensures IsLookup(line) && codec.decode(Trim(line[4..])).None? ==> h.replies == [] && h.after == Abort
    // at most one reply, always one that fits the limit
    ensures |h.replies| <= 1
    ensures |h.replies| == 1 ==> Fits(codec, h.replies[0])
    ensures |h.replies| == 1 ==> h.replies[0].code == 200 || h.replies[0].code == 400 || h.replies[0].code == 500
    // a malformed request: a 400 at most, then the connection ends
    ensures !IsLookup(line) ==> h.after == Abort && h.replies <= [ErrorReply(id, BROKEN_REQUEST)]
    // 200 exactly for a non-empty list, which it carries joined
    ensures (|h.replies| == 1 && h.replies[0].code == 200)
      <==> (h.query.Some? && o.Completed? && o.status == 200 && o.values.Some? && |o.values.value| > 0
        && Fits(codec, SuccessReply(o.values.value, sep)))
    ensures |h.replies| == 1 && h.replies[0].code == 200 ==> h.replies[0].data == Joiner.Join(o.values.value, sep)
    // 500 exactly for an empty list and for 404
    ensures (|h.replies| == 1 && h.replies[0].code == 500)
      <==> (h.query.Some? && o.Completed? && (o.status == 404 || (o.status == 200 && o.values == Some([])))
        && Fits(codec, NotFoundReply(id)))
    // a failed call: a 400 at most; cancellation always ends the
    // connection, the other failures only when their reply does not fit
    ensures h.query.Some? && o.Failed? ==> |h.replies| == 0 || h.replies[0].code == 400
    ensures h.query.Some? && o.Failed? && o.failure.Cancelled? ==> h.after == Abort
    ensures h.query.Some? && o.Failed? && !o.failure.Cancelled? ==> (h.after == Stay <==> |h.replies| == 1)
    // a completed call never ends the connection, unless the "invalid
    // data" reply does not fit
    ensures h.query.Some? && o.Completed? && h.after == Abort ==> o.status == 200 && o.values.None?
  {
    if !IsLookup(line) then
      Handled(None, Write(codec, ErrorReply(id, BROKEN_REQUEST), Abort).0, Abort)
    else
      match KeyOf(codec, line)
      case None => Handled(None, [], Abort)
      case Some(key) =>
        var (replies, after) := Respond(codec, id, sep, o);
        Handled(Some(key), replies, after)
  }

  /** The framing can be read back: the code is the text before the first
      space, the text ends with the terminator, and the limit is a limit on
      characters, one byte each in ISO-8859-1. */
  lemma TextReadable(codec: Codec, r: Reply)
    requires 0 <= r.code <= INT_MAX
    ensures var t := Text(codec, r);
      var n := |NatToString(r.code)|;
      && IndexOf(t, ' ', 0) == n
      && ParseInt32(t[..n]) == Some(r.code)
      && t[|t| - 1] == END_CHAR
      && (Fits(codec, r) <==> |t| <= MAXIMUM_RESPONSE_LENGTH)
  {
    var t := Text(codec, r);
    var d := NatToString(r.code);
    assert t == d + (" " + codec.encode(r.data) + [END_CHAR]);
    assert t[..|d|] == d;
    assert t[|d|] == ' ';
    assert forall i :: 0 <= i < |d| ==> t[i] == d[i];
    ParseRendered(r.code);
  }
}
