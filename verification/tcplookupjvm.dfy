/** The tcp-lookup handler of the Kotlin/JVM revision. It differs from the
    multiplatform reference in four ways: it uses the connector's own
    percent codec, it closes the channel after a malformed request instead
    of throwing, it answers a null body and an empty body before reading
    JSON, and the reply is written from the HTTP client's callback, where
    every write failure is caught. */
module TcpLookupHandlerKt {
  import opened Wrappers
  import opened Jvm
  import opened Outcome
  import Joiner
  import UrlCodec
  import opened TcpLookupHandler


  /** The key: the decoded, trimmed text after the prefix, or the
      `IllegalArgumentException` of the decoder. */
  function KeyOf(line: string): Result<string, UrlCodec.DecodeError>
    requires IsLookup(line)
  {
    UrlCodec.DecodeRequest(Trim(line[|LOOKUP_PREFIX|..]))
  }

  /** `writeResponse`'s text: the data through `encodeResponseData`. */
  function Text(r: Reply): string {
    IntToString(r.code) + " " + UrlCodec.EncodeResponse(r.data) + [END_CHAR]
  }

  /** It goes out in US-ASCII, and only if it fits the limit. */
  predicate Fits(r: Reply) {
    |NarrowEncode(Text(r), US_ASCII_LIMIT)| <= MAXIMUM_RESPONSE_LENGTH
  }

  /** A write inside the callback's `try`: a reply too long for the limit
      is replaced by the short "problem" reply, and if that does not fit
      either, nothing is written. */
  function Guarded(id: string, r: Reply): (rs: seq<Reply>)
    ensures |rs| <= 1
    ensures |rs| == 1 ==> Fits(rs[0])
    ensures |rs| == 1 && rs[0] != r ==> rs[0] == ErrorReply(id, PROBLEM)
    ensures Fits(r) ==> rs == [r]
  {
    if Fits(r) then [r]
    else
      var problem := ErrorReply(id, PROBLEM);
      if Fits(problem) then [problem] else []
  }

  /** The reply the status branch chooses for a completed call: 404 and the
      empty answers are "not found", a non-empty list is found, the rest
      are errors. `None` when the body is not a JSON list: the decoder's
      exception escapes the callback and nothing is written. */
  function StatusReply(id: string, sep: string, status: int, body: Option<string>, values: Option<seq<string>>)
    : (r: Option<Reply>)
    ensures r.None? <==> status == 200 && body.Some? && body.value != "" && values.None?
    ensures r.Some? ==> r.value.code == 200 || r.value.code == 400 || r.value.code == 500
    ensures (r.Some? && r.value.code == 200)
      <==> (status == 200 && body.Some? && body.value != "" && values.Some? && |values.value| > 0)
    ensures r.Some? && r.value.code == 200 ==> r.value == SuccessReply(values.value, sep)
    ensures (r.Some? && r.value.code == 500)
      <==> (|| status == 404
            || (status == 200 && body == Some(""))
            || (status == 200 && body.Some? && body.value != "" && values == Some([])))
    ensures r.Some? && r.value.code == 500 ==> r.value == NotFoundReply(id)
    ensures status == 200 && body.None? ==> r == Some(ErrorReply(id, BROKEN_RESULT))
  {
    if status == 200 then
      if body.None? then Some(ErrorReply(id, BROKEN_RESULT))
      else if body.value == "" then Some(NotFoundReply(id))
      else if values.None? then None
      else if |values.value| == 0 then Some(NotFoundReply(id))
      else Some(SuccessReply(values.value, sep))
    else if status == 404 then Some(NotFoundReply(id))
    else if IsClientError(status) then Some(ErrorReply(id, USER_ERROR + IntToString(status)))
    else if IsServerError(status) then Some(ErrorReply(id, SERVER_ERROR + IntToString(status)))
    else Some(ErrorReply(id, UNSPECIFIED + IntToString(status)))
  }

  /** The callback: a failed call is a 400 carrying the error's message,
      prefixed for a timeout; a completed one gets its status reply. The
      timeout branch is the one the code means to take; see
      `HandleAsWritten` for why it cannot. */
  function Respond(id: string, sep: string, o: HttpOutcome): (rs: seq<Reply>)
    ensures |rs| <= 1
    ensures |rs| == 1 ==> Fits(rs[0])
    ensures o.Failed? ==> |rs| == 1 ==> rs[0].code == 400
    ensures o.Failed? ==> |rs| == 1 || !Fits(ErrorReply(id, PROBLEM))
  {
    match o
    case Failed(TimedOut(m)) => Guarded(id, ErrorReply(id, TIMED_OUT + ": " + NullableText(m)))
    case Failed(Cancelled(m)) => Guarded(id, ErrorReply(id, NullableText(m)))
    case Failed(IoFailed(m, _)) => Guarded(id, ErrorReply(id, NullableText(m)))
    case Completed(status, _, body, values) =>
      match StatusReply(id, sep, status, body, values)
      case None => []
      case Some(r) => Guarded(id, r)
  }

  /** `handleRequest` and its callback, given the REST call's outcome, with
      a timeout recognised as the timeout branch intends. */
  function Handle(id: string, sep: string, line: string, o: HttpOutcome): (h: Handled<string, Reply>)
    // the call is made exactly for well-formed requests whose key decodes
    ensures h.query.Some? <==> IsLookup(line) && KeyOf(line).Ok?
    ensures h.query.Some? ==> h.query.value == KeyOf(line).value
    // a malformed request: one 400 and the channel is closed; a key the
    // decoder rejects: nothing, and the exception ends the connection
    ensures !IsLookup(line) ==> h.replies <= [ErrorReply(id, BROKEN_REQUEST)]
    ensures !IsLookup(line) ==> (h.after == Close <==> |h.replies| == 1) && h.after != Stay
    ensures IsLookup(line) && KeyOf(line).Err? ==> h.replies == [] && h.after == Abort
    // once the call is made, the connection stays open whatever happens
    ensures h.query.Some? ==> h.after == Stay
    ensures h.query.Some? ==> h.replies == Respond(id, sep, o)
    ensures |h.replies| <= 1
  {
    if !IsLookup(line) then
      var broken := ErrorReply(id, BROKEN_REQUEST);
      if Fits(broken) then Handled(None, [broken], Close) else Handled(None, [], Abort)
    else
      match KeyOf(line)
      case Err(_) => Handled(None, [], Abort)
      case Ok(key) => Handled(Some(key), Respond(id, sep, o), Stay)
  }

  /** `handleRequest` as written: the callback tests for
      `java.util.concurrent.TimeoutException`, but the HTTP client reports a
      timeout as `HttpTimeoutException`, so a timed-out call is answered
      like any other failure, with the bare message. */
  function HandleAsWritten(id: string, sep: string, line: string, o: HttpOutcome): (h: Handled<string, Reply>)
    ensures h.query == Handle(id, sep, line, o).query
    ensures h.after == Handle(id, sep, line, o).after
    ensures h.query.Some? && o.Failed? ==> h.replies == Guarded(id, ErrorReply(id, NullableText(o.failure.message)))
    ensures !(o.Failed? && o.failure.TimedOut?) ==> h == Handle(id, sep, line, o)
  {
    Handle(id, sep, line, JdkReported(o))
  }

  /** The dead branch: for a timed-out call the code as written sends the
      bare message, where the branch meant to send "REST request timed
      out" in front of it. */
  lemma TimeoutAnsweredPlain(id: string, sep: string, line: string, m: Option<string>)
    requires IsLookup(line) && KeyOf(line).Ok?
    ensures HandleAsWritten(id, sep, line, Failed(TimedOut(m))).replies
      == Guarded(id, ErrorReply(id, NullableText(m)))
    ensures Handle(id, sep, line, Failed(TimedOut(m))).replies
      == Guarded(id, ErrorReply(id, TIMED_OUT + ": " + NullableText(m)))
    ensures ErrorReply(id, NullableText(m)) != ErrorReply(id, TIMED_OUT + ": " + NullableText(m))
  {
    assert |TIMED_OUT + ": " + NullableText(m)| > |NullableText(m)|;
  }

  /** Where this revision parts from the reference: a body that is not a
      JSON list gets no reply at all here, and a 400 "invalid data" reply
      there. */
  lemma UndecodableBodyIsSilent(codec: Codec, id: string, sep: string, line: string, reason: string, body: string)
    requires IsLookup(line) && KeyOf(line).Ok? && body != ""
    requires TcpLookupHandler.KeyOf(codec, line).Some?
    requires TcpLookupHandler.Fits(codec, ErrorReply(id, INVALID_DATA))
    ensures Handle(id, sep, line, Completed(200, reason, Some(body), None)).replies == []
    ensures TcpLookupHandler.Handle(codec, id, sep, line, Completed(200, reason, Some(body), None)).replies
      == [ErrorReply(id, INVALID_DATA)]
  {
  }

  /** A key without escapes is sent as written, plus signs included. */
  lemma KeyVerbatim(line: string)
    requires IsLookup(line)
    requires forall i :: 0 <= i < |Trim(line[|LOOKUP_PREFIX|..])| ==> Trim(line[|LOOKUP_PREFIX|..])[i] != '%'
    ensures KeyOf(line) == Ok(Trim(line[|LOOKUP_PREFIX|..]))
  {
    UrlCodec.DecodeRequestKeepsPlus(Trim(line[|LOOKUP_PREFIX|..]));
  }
}

/** The tcp-lookup handler of the Java revision. Its key goes through the
    US-ASCII URL decoder, which reads `+` as a space; its replies are
    escaped with the control-character escaper; its messages carry no
    request id; and a failure without a message makes the callback throw
    before anything is written. */
module TcpLookupHandlerJava {
  import opened Wrappers
  import opened Jvm
  import opened Outcome
  import Joiner
  import UrlCodec
  import Escaper
  import opened TcpLookupHandler
  import TcpLookupHandlerKt

  const NOT_FOUND: string := "key not found"

  /** The key: `PostfixProtocol.decodeURLEncodedData` of the trimmed text
      after the prefix. */
  function KeyOf(line: string): Result<string, UrlCodec.DecodeError>
    requires IsLookup(line)
  {
    UrlCodec.DecodeUrlEncodedData(Trim(line[|LOOKUP_PREFIX|..]))
  }

  /** `writeResponse`'s text: the data through `encodeResponseData`. */
  function Text(r: Reply): string {
    IntToString(r.code) + " " + Escaper.EncodeResponseData(r.data) + [END_CHAR]
  }

  predicate Fits(r: Reply) {
    |NarrowEncode(Text(r), US_ASCII_LIMIT)| <= MAXIMUM_RESPONSE_LENGTH
  }

  function Guarded(r: Reply): (rs: seq<Reply>)
    ensures |rs| <= 1
    ensures |rs| == 1 ==> Fits(rs[0])
    ensures Fits(r) ==> rs == [r]
    ensures !Fits(r) ==> rs == [Reply(400, PROBLEM)]
  {
    if Fits(r) then [r]
    else
      var problem := Reply(400, PROBLEM);
      assert Fits(problem) by {
        ShortRepliesFit(problem);
      }
      [problem]
  }

  /** Any reply with a three-digit code and at most a thousand characters
      of text fits the limit: the escaper at most triples the text. */
  lemma ShortRepliesFit(r: Reply)
    requires 0 <= r.code < 1000 && |r.data| <= 1000
    ensures Fits(r)
  {
    NatToStringShort(r.code);
    Escaper.EncodeResponseDataBound(r.data);
  }

  /** The status branch of the callback. A body that is not a JSON list
      makes Jackson throw an `IOException`, answered with the "problem"
      reply. */
  function StatusReply(sep: string, status: int, body: Option<string>, values: Option<seq<string>>): (r: Reply)
    ensures r.code == 200 || r.code == 400 || r.code == 500
    ensures r.code == 200 <==> status == 200 && body.Some? && body.value != "" && values.Some? && |values.value| > 0
    ensures r.code == 200 ==> r.data == Joiner.Join(values.value, sep)
    ensures r.code == 500
      <==> (|| status == 404
            || (status == 200 && body == Some(""))
            || (status == 200 && body.Some? && body.value != "" && values == Some([])))
    ensures r.code == 500 ==> r.data == NOT_FOUND
  {
    if status == 200 then
      if body.None? then Reply(400, BROKEN_RESULT)
      else if body.value == "" then Reply(500, NOT_FOUND)
      else if values.None? then Reply(400, PROBLEM)
      else if |values.value| == 0 then Reply(500, NOT_FOUND)
      else Reply(200, Joiner.Join(values.value, sep))
    else if status == 404 then Reply(500, NOT_FOUND)
    else if IsClientError(status) then Reply(400, USER_ERROR + IntToString(status))
    else if IsServerError(status) then Reply(400, SERVER_ERROR + IntToString(status))
    else Reply(400, UNSPECIFIED + IntToString(status))
  }

  /** The callback. Every failure is answered with its bare message; one
      without a message reaches `encodeResponseData` as `null` and the
      resulting `NullPointerException` leaves the callback silently. */
  function Respond(sep: string, o: HttpOutcome): (rs: seq<Reply>)
    ensures |rs| <= 1
    ensures |rs| == 1 ==> Fits(rs[0])
    ensures o.Failed? ==> (|rs| == 0 <==> o.failure.message.None?)
    ensures o.Failed? && |rs| == 1 ==> rs[0].code == 400
    ensures o.Completed? ==> |rs| == 1
  {
    match o
    case Failed(f) => if f.message.None? then [] else Guarded(Reply(400, f.message.value))
    case Completed(status, _, body, values) => Guarded(StatusReply(sep, status, body, values))
  }

  /** The "Broken request!" reply is short enough for the limit, so the
      validation's write never fails. */
  lemma BrokenRequestFits()
    ensures Fits(Reply(400, BROKEN_REQUEST))
  {
    ShortRepliesFit(Reply(400, BROKEN_REQUEST));
  }

  /** `handleRequest` and its callback, given the REST call's outcome. */
  function Handle(line: string, sep: string, o: HttpOutcome): (h: Handled<string, Reply>)
    ensures h.query.Some? <==> IsLookup(line) && KeyOf(line).Ok?
    ensures h.query.Some? ==> h.query.value == KeyOf(line).value && h.after == Stay
    ensures !IsLookup(line) ==> h.replies == [Reply(400, BROKEN_REQUEST)] && h.after == Close
    ensures IsLookup(line) && KeyOf(line).Err? ==> h.replies == [] && h.after == Abort
    ensures |h.replies| <= 1
  {
    if !IsLookup(line) then Handled(None, [Reply(400, BROKEN_REQUEST)], Close)
    else
      match KeyOf(line)
      case Err(_) => Handled(None, [], Abort)
      case Ok(key) => Handled(Some(key), Respond(sep, o), Stay)
  }

  /** Where this revision parts from the others: a `+` in the key is read as
      a space, so `get a+b` asks for `a b` here and for `a+b` in the Kotlin
      revisions. */
  lemma PlusBecomesSpace()
    ensures IsLookup("get a+b") && KeyOf("get a+b") == Ok("a b")
    ensures TcpLookupHandlerKt.KeyOf("get a+b") == Ok("a+b")
  {
    var line := "get a+b";
    assert line[|LOOKUP_PREFIX|..] == "a+b";
    TrimKeepsClean("a+b");
    UrlCodec.UrlDecodePlain("b", UrlCodec.UsAscii);
    UrlCodec.UrlDecodePlus("b", UrlCodec.UsAscii, "b");
    assert UrlCodec.PLUS + "b" == "+b" && " " + "b" == " b";
    UrlCodec.UrlDecodeLiteral('a', "+b", UrlCodec.UsAscii, " b");
    assert ['a'] + "+b" == "a+b" && ['a'] + " b" == "a b";
    TcpLookupHandlerKt.KeyVerbatim(line);
  }
}
