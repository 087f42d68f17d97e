/** The plain lookup handler of the Java revision: the same request line
    and framing as its tcp-lookup handler, but a 200 reply carries the REST
    body as it came, without reading it as JSON. */
module LookupRequestHandler {
  import opened Wrappers
  import opened Jvm
  import opened Outcome
  import TcpLookupHandler
  import opened TcpLookupHandlerJava

  const READ_ERROR: string := "received broken request"

  /** `handleReadError`: a 400 and the channel is closed. */
  function HandleReadError(): (h: Handled<string, TcpLookupHandler.Reply>)
    ensures h.query.None? && h.after == Close
    ensures |h.replies| == 1 && h.replies[0].code == 400
  {
    Handled(None, [TcpLookupHandler.Reply(400, READ_ERROR)], Close)
  }

  /** Its reply always fits the limit, so the write cannot fail. */
  lemma ReadErrorFits()
    ensures Fits(HandleReadError().replies[0])
  {
    ShortRepliesFit(TcpLookupHandler.Reply(400, READ_ERROR));
  }

  /** The status branch: only a 200 with a non-empty body is a success,
      and it carries the body verbatim. */
  function StatusReply(status: int, body: Option<string>): (r: TcpLookupHandler.Reply)
    ensures r.code == 200 || r.code == 400 || r.code == 500
    ensures r.code == 200 <==> status == 200 && body.Some? && body.value != ""
    ensures r.code == 200 ==> r.data == body.value
    ensures r.code == 500 <==> status == 404 || (status == 200 && body == Some(""))
    ensures r.code == 500 ==> r.data == NOT_FOUND
  {
    if status == 200 then
      if body.None? then TcpLookupHandler.Reply(400, BROKEN_RESULT)
      else if body.value == "" then TcpLookupHandler.Reply(500, NOT_FOUND)
      else TcpLookupHandler.Reply(200, body.value)
    else TcpLookupHandlerJava.StatusReply("", status, body, None)
  }

  /** The callback, as in the tcp-lookup handler: a failure is a 400 with
      its message, or nothing when it has none. */
  function Respond(o: HttpOutcome): (rs: seq<TcpLookupHandler.Reply>)
    ensures |rs| <= 1
    ensures |rs| == 1 ==> Fits(rs[0])
    ensures o.Failed? ==> (|rs| == 0 <==> o.failure.message.None?)
    ensures o.Completed? ==> |rs| == 1
    ensures o.Completed? && rs[0].code == 200 ==> o.body.Some? && rs[0].data == o.body.value
  {
    match o
    case Failed(f) => if f.message.None? then [] else Guarded(TcpLookupHandler.Reply(400, f.message.value))
    case Completed(status, _, body, _) => Guarded(StatusReply(status, body))
  }

  /** `handleRequest` and its callback, given the REST call's outcome. */
  function Handle(line: string, o: HttpOutcome): (h: Handled<string, TcpLookupHandler.Reply>)
    ensures h.query.Some? <==> TcpLookupHandler.IsLookup(line) && KeyOf(line).Ok?
    ensures h.query.Some? ==> h.query.value == KeyOf(line).value && h.after == Stay
    ensures !TcpLookupHandler.IsLookup(line)
      ==> h.replies == [TcpLookupHandler.Reply(400, BROKEN_REQUEST)] && h.after == Close
    ensures TcpLookupHandler.IsLookup(line) && KeyOf(line).Err? ==> h.replies == [] && h.after == Abort
    ensures |h.replies| <= 1
  {
    if !TcpLookupHandler.IsLookup(line) then
      Handled(None, [TcpLookupHandler.Reply(400, BROKEN_REQUEST)], Close)
    else
      match KeyOf(line)
      case Err(_) => Handled(None, [], Abort)
      case Ok(key) => Handled(Some(key), Respond(o), Stay)
  }

  /** The two Java handlers answer alike except for a 200 with a body: the
      tcp-lookup handler reads it as a JSON list and joins it, this one
      hands it on. */
  lemma AgreesWithTcpLookup(sep: string, status: int, body: Option<string>, values: Option<seq<string>>)
    requires !(status == 200 && body.Some? && body.value != "")
    ensures StatusReply(status, body) == TcpLookupHandlerJava.StatusReply(sep, status, body, values)
  {
  }
}

/** The first lookup handler, of the `tel.schich` package. A request must
    start with `get `; the reply is `<code> <data>\r\n` with 200 (found),
    500 (permanent error) or 400 (temporary error), escaped with the
    control-character escaper and sent in US-ASCII without a length
    limit. */
module LegacyLookup {
  import opened Wrappers
  import opened Jvm
  import opened Outcome
  import UrlCodec
  import Escaper
  import TcpLookupHandler
  import TcpLookupHandlerJava

  const LOOKUP_PREFIX: string := "get "
  const CRLF: string := "\r\n"

  const READ_ERROR: string := "received broken request"

  datatype Reply = Reply(code: int, data: string)

  /** `writePermanentError` and `writeTemporaryError`. */
  function Permanent(message: string): Reply {
    Reply(500, message)
  }

  function Temporary(message: string): Reply {
    Reply(400, message)
  }

  /** `writeResponse`'s text (the same in `PostfixProtocol`). */
  function Text(r: Reply): string {
    IntToString(r.code) + " " + Escaper.EncodeResponseData(r.data) + CRLF
  }

  /** The bytes written: one per character, `?` for anything outside
      US-ASCII; no limit applies. */
  function Bytes(r: Reply): (bs: seq<byte>)
    ensures |bs| == |Text(r)|
  {
    NarrowEncode(Text(r), US_ASCII_LIMIT)
  }

  /** The legacy framing is the later Java framing with a carriage return
      put before the line feed. */
  lemma TextIsCrlfFramed(r: Reply)
    ensures var later := TcpLookupHandlerJava.Text(TcpLookupHandler.Reply(r.code, r.data));
      && |later| > 0
      && Text(r) == later[..|later| - 1] + "\r\n"
  {
    var body := IntToString(r.code) + " " + Escaper.EncodeResponseData(r.data);
    var later := TcpLookupHandlerJava.Text(TcpLookupHandler.Reply(r.code, r.data));
    assert later == body + "\n";
    assert later[..|later| - 1] == body;
  }

  predicate HasPrefix(line: string) {
    |line| >= |LOOKUP_PREFIX| && line[..|LOOKUP_PREFIX|] == LOOKUP_PREFIX
  }

  /** The key: the decoded, trimmed text after the first four characters.
      `substring(4)` needs at least four. */
  function KeyOf(line: string): Result<string, UrlCodec.DecodeError>
    requires |line| >= |LOOKUP_PREFIX|
  {
    UrlCodec.DecodeUrlEncodedData(Trim(line[|LOOKUP_PREFIX|..]))
  }

  /** `handleReadError`: a temporary error and the channel is closed. */
  function HandleReadError(): (h: Handled<string, Reply>)
    ensures h.query.None? && h.after == Close
    ensures |h.replies| == 1 && h.replies[0].code == 400
  {
    Handled(None, [Temporary(READ_ERROR)], Close)
  }

  /** The status branch: a 200 carries its body, 4xx (404 included) is a
      permanent error, 5xx a temporary one, anything else is not answered. */
  function StatusReply(status: int, body: Option<string>): (r: Option<Reply>)
    ensures r.None? <==> status != 200 && !IsClientError(status) && !IsServerError(status)
    ensures r.Some? && r.value.code == 200 <==> status == 200 && body.Some?
    ensures r.Some? && r.value.code == 200 ==> r.value.data == body.value
    ensures r.Some? && r.value.code == 500 <==> IsClientError(status)
    ensures r.Some? ==> r.value.code in {200, 400, 500}
  {
    if status == 200 then
      if body.Some? then Some(Reply(200, body.value)) else Some(Temporary(BROKEN_RESULT))
    else if IsClientError(status) then Some(Permanent(MISCONFIGURED))
    else if IsServerError(status) then Some(Temporary(INTERNAL_ERROR))
    else None
  }

  /** The callback on an open channel. Writes have no limit, so each
      answer is delivered; a failure without a message throws a
      `NullPointerException` in the escaper and nothing is written. */
  function Respond(o: HttpOutcome): (rs: seq<Reply>)
    ensures |rs| <= 1
    ensures o.Failed? ==> (|rs| == 1 <==> o.failure.message.Some?)
    ensures o.Failed? && |rs| == 1 ==> rs[0] == Temporary(o.failure.message.value)
    ensures o.Completed? ==> (|rs| == 1 <==> StatusReply(o.status, o.body).Some?)
    ensures o.Completed? && |rs| == 1 ==> rs[0] == StatusReply(o.status, o.body).value
  {
    match o
    case Failed(f) => if f.message.Some? then [Temporary(f.message.value)] else []
    case Completed(status, _, body, _) =>
      match StatusReply(status, body)
      case None => []
      case Some(r) => [r]
  }

  /** `handleRequest` as written. A line without the prefix is answered
      and the channel closed, but the method goes on: a line shorter than
      the prefix then fails in `substring`, a key the decoder rejects
      throws, and any other line still has its REST call made, whose
      answer goes to the closed channel and is lost. */
  function HandleAsWritten(line: string, o: HttpOutcome): (h: Handled<string, Reply>)
    ensures h.query.Some? <==> |line| >= |LOOKUP_PREFIX| && KeyOf(line).Ok?
    ensures h.query.Some? ==> h.query.value == KeyOf(line).value
    ensures !HasPrefix(line) ==> h.replies == [Permanent(BROKEN_REQUEST)] && h.after != Stay
  {
    if HasPrefix(line) then
      match KeyOf(line)
      case Err(_) => Handled(None, [], Abort)
      case Ok(key) => Handled(Some(key), Respond(o), Stay)
    else
      var rejected := [Permanent(BROKEN_REQUEST)];
      if |line| < |LOOKUP_PREFIX| then Handled(None, rejected, Abort)
      else
        match KeyOf(line)
        case Err(_) => Handled(None, rejected, Abort)
        case Ok(key) => Handled(Some(key), rejected, Close)
  }

  /** The missing `return`: `post k` is rejected and its channel closed,
      and the REST endpoint is still asked for the key `k`. */
  lemma RejectedRequestIsLookedUp(o: HttpOutcome)
    ensures var h := HandleAsWritten("post k", o);
      && h.replies == [Permanent(BROKEN_REQUEST)]
      && h.after == Close
      && h.query == Some("k")
  {
    var line := "post k";
    assert !HasPrefix(line) by {
      assert line[..|LOOKUP_PREFIX|] != LOOKUP_PREFIX by {
        assert line[0] == 'p';
      }
    }
    assert line[|LOOKUP_PREFIX|..] == " k";
    assert Trim(" k") == "k" by {
      assert KeptFrom(" k", 0) == 1;
      assert KeptUpto(" k", 2) == 2;
    }
    UrlCodec.UrlDecodePlain("k", UrlCodec.UsAscii);
  }

  /** ... and a short line, rejected alike, then makes the handler throw. */
  lemma ShortRejectedRequestThrows(o: HttpOutcome)
    ensures HandleAsWritten("ab", o).after == Abort
  {
  }

  /** `handleRequest` with the `return` the later revisions have. */
  function Handle(line: string, o: HttpOutcome): (h: Handled<string, Reply>)
    // a rejected request is answered, closed, and never looked up
    ensures !HasPrefix(line) ==> h == Handled(None, [Permanent(BROKEN_REQUEST)], Close)
    // the REST call is made exactly for prefixed lines whose key decodes
    ensures h.query.Some? <==> HasPrefix(line) && KeyOf(line).Ok?
    ensures h.query.Some? ==> h.query.value == KeyOf(line).value && h.after == Stay
    ensures h.query.Some? ==> h.replies == Respond(o)
  {
    if !HasPrefix(line) then Handled(None, [Permanent(BROKEN_REQUEST)], Close)
    else HandleAsWritten(line, o)
  }

  /** The correction changes nothing for requests that carry the prefix. */
  lemma HandleAgreesOnPrefixed(line: string, o: HttpOutcome)
    requires HasPrefix(line)
    ensures Handle(line, o) == HandleAsWritten(line, o)
  {
  }

  /** Unlike the later revisions, `get ` alone passes the check, and the
      REST endpoint is asked for the empty key. */
  lemma BarePrefixIsLookedUp(o: HttpOutcome)
    ensures Handle(LOOKUP_PREFIX, o).query == Some("")
    ensures !TcpLookupHandler.IsLookup(LOOKUP_PREFIX)
  {
    assert LOOKUP_PREFIX[|LOOKUP_PREFIX|..] == "";
  }
}
