/** The socketmap lookup handler of the multiplatform revision
    (`SocketmapLookupHandler.handleRequest` and its writers), the reference
    the other revisions are compared with. A request is the payload of one
    netstring, `<name> <key>`; the reply is one netstring holding
    `<STATUS> <data>`, where STATUS is a word of Postfix's socketmap
    protocol. */
module SocketmapLookupHandler {
  import opened Wrappers
  import opened Jvm
  import opened Outcome
  import Joiner
  import Netstring
  import SocketmapReader

  const MAXIMUM_RESPONSE_LENGTH: nat := 10000
  const INVALID_FORMAT: string := "invalid request format"

  /** The first word of a reply. */
  datatype Status = OK | NOTFOUND | TEMP | TIMEOUT | PERM

  function Word(s: Status): (w: string)
    ensures 2 <= |w| <= 8
    ensures Joiner.Lacks(w, ' ')
  {
    match s
    case OK => "OK"
    case NOTFOUND => "NOTFOUND"
    case TEMP => "TEMP"
    case TIMEOUT => "TIMEOUT"
    case PERM => "PERM"
  }

  /** The status a word names, if any. */
  function StatusOf(w: string): (r: Option<Status>)
    ensures r.Some? ==> Word(r.value) == w
  {
    if w == "OK" then Some(OK)
    else if w == "NOTFOUND" then Some(NOTFOUND)
    else if w == "TEMP" then Some(TEMP)
    else if w == "TIMEOUT" then Some(TIMEOUT)
    else if w == "PERM" then Some(PERM)
    else None
  }

  /** A reply before it is framed. */
  datatype Reply = Reply(status: Status, data: string)

  /** The text `writeResponse` is given: the word, a space, the data. */
  function Text(r: Reply): (t: string)
    ensures |t| == |Word(r.status)| + 1 + |r.data|
  {
    Word(r.status) + " " + r.data
  }

  /** How a client reads a reply back: the word before the first space
      names the status, everything after it is the data. */
  function ParseReply(t: string): (r: Option<Reply>)
    ensures r.Some? ==> Text(r.value) == t
  {
    var k := Joiner.IndexOfChar(t, ' ');
    if k == -1 then None
    else
      match StatusOf(t[..k])
      case None => None
      case Some(s) =>
        assert t == t[..k] + " " + t[k + 1..];
        Some(Reply(s, t[k + 1..]))
  }

  /** Every reply reads back as itself. */
  lemma ParseText(r: Reply)
    ensures ParseReply(Text(r)) == Some(r)
  {
    var w := Word(r.status);
    Joiner.IndexOfCharAfter(w, ' ', r.data);
    assert Text(r)[..|w|] == w;
    assert Text(r)[|w| + 1..] == r.data;
    match r.status
    case OK =>
    case NOTFOUND =>
    case TEMP =>
    case TIMEOUT =>
    case PERM =>
  }

  /** `writeResponse` refuses a text longer than the limit. */
  predicate Fits(r: Reply) {
    |Text(r)| <= MAXIMUM_RESPONSE_LENGTH
  }

  /** A reply whose data is short enough always fits. */
  lemma ShortRepliesFit(r: Reply)
    requires |r.data| <= MAXIMUM_RESPONSE_LENGTH - 9
    ensures Fits(r)
  {
  }

  /** What goes on the wire is the netstring of the text, and a reply that
      was written can be taken out of its frame and read back. */
  lemma FramedReplyReadable(r: Reply)
    requires Fits(r)
    ensures Netstring.CompileOne(Text(r)) == Netstring.Frame(Text(r))
    ensures match Netstring.ParseOne(Netstring.CompileOne(Text(r)))
      case Ok(t) => ParseReply(t) == Some(r)
      case Err(_) => false
  {
    Netstring.ParseOneCompileOne(Text(r));
    ParseText(r);
  }

  /** An error reply names the request's id before its message. */
  function ErrorReply(s: Status, id: string, message: string): Reply {
    Reply(s, id + " - " + message)
  }

  /** `writeBrokenRequestErrorAndClose(ch, id, reason)`'s reply. */
  function BrokenRequestReply(id: string, reason: string): Reply {
    ErrorReply(PERM, id, BROKEN_REQUEST + " (" + reason + ")")
  }

  /** `writeBrokenRequestErrorAndClose`: the permanent error naming the
      reason, if it fits, and then `error(reason)` ends the connection
      before anything is looked up. */
  function BrokenRequest(id: string, reason: string): (h: Handled<(string, string), Reply>)
    ensures h.query.None? && h.after == Abort
    ensures h.replies <= [BrokenRequestReply(id, reason)]
    ensures h.replies == [BrokenRequestReply(id, reason)] <==> Fits(BrokenRequestReply(id, reason))
  {
    Handled(None, Write(BrokenRequestReply(id, reason), Abort).0, Abort)
  }

  /** A connection whose reader stops on a broken netstring is told why:
      the reply names the reason the reader stopped for, always fits for an
      id of up to a thousand characters (a UUID has 36), and the
      connection ends. */
  lemma StoppedReadAnswered(id: string, s: SocketmapReader.State, bs: seq<Jvm.byte>)
    requires |id| <= 1000
    requires SocketmapReader.Feed(s, bs).rest.Stopped?
    ensures var reason := SocketmapReader.Feed(s, bs).rest.reason;
      BrokenRequest(id, reason) == Handled(None, [BrokenRequestReply(id, reason)], Abort)
  {
    SocketmapReader.StoppedReasonShort(s, bs);
  }

  function NotFoundReply(): Reply {
    Reply(NOTFOUND, "")
  }

  function FoundReply(values: seq<string>, sep: string): Reply {
    Reply(OK, Joiner.Join(values, sep))
  }

  /** The request split at its first space into map name and key, neither
      of them decoded; `None` when there is no space. */
  function SplitRequest(request: string): (r: Option<(string, string)>)
    ensures r.None? <==> Joiner.Lacks(request, ' ')
    ensures r.Some? ==> r.value.0 + " " + r.value.1 == request
    ensures r.Some? ==> Joiner.Lacks(r.value.0, ' ')
  {
    var k := Joiner.IndexOfChar(request, ' ');
    if k == -1 then None
    else
      assert request == request[..k] + " " + request[k + 1..];
      Some((request[..k], request[k + 1..]))
  }

  /** Joining a name without spaces and any key with one space is undone
      by the split. */
  lemma SplitJoined(name: string, key: string)
    requires Joiner.Lacks(name, ' ')
    ensures SplitRequest(name + " " + key) == Some((name, key))
  {
    Joiner.IndexOfCharAfter(name, ' ', key);
    assert (name + " " + key)[..|name|] == name;
    assert (name + " " + key)[|name| + 1..] == key;
  }

  /** The reply the handler means to send for the REST call's outcome. */
  function Chosen(id: string, sep: string, o: HttpOutcome): (r: Reply)
    ensures r.status == OK <==> o.Completed? && o.status == 200 && o.values.Some? && |o.values.value| > 0
    ensures r.status == OK ==> r == FoundReply(o.values.value, sep)
    ensures r.status == NOTFOUND
      <==> o.Completed? && (o.status == 404 || (o.status == 200 && o.values == Some([])))
    ensures r.status == NOTFOUND ==> r == NotFoundReply()
    ensures r.status == TIMEOUT <==> o.Failed? && o.failure.TimedOut?
    ensures r.status == PERM <==> o.Completed? && o.status != 404 && IsClientError(o.status)
    ensures r.status != OK && r.status != NOTFOUND ==> id + " - " <= r.data
  {
    match o
    case Failed(TimedOut(_)) => ErrorReply(TIMEOUT, id, TIMED_OUT)
    case Failed(Cancelled(m)) => ErrorReply(TEMP, id, NullableText(m))
    case Failed(IoFailed(m, kind)) => ErrorReply(TEMP, id, IoExceptionMessage(m, kind))
    case Completed(status, reason, _, values) =>
      var code := KtorStatusText(status, reason);
      if status == 200 then
        match values
        case None => ErrorReply(TEMP, id, INVALID_DATA)
        case Some(vs) => if |vs| == 0 then NotFoundReply() else FoundReply(vs, sep)
      else if status == 404 then NotFoundReply()
      else if IsClientError(status) then ErrorReply(PERM, id, USER_ERROR + code)
      else if IsServerError(status) then ErrorReply(TEMP, id, SERVER_ERROR + code)
      else ErrorReply(TEMP, id, UNSPECIFIED + code)
  }

  /** A write whose `IllegalStateException` ("response to long") leaves
      the handler: no `catch` in it is for that exception. */
  function Write(r: Reply, after: After): (seq<Reply>, After) {
    if Fits(r) then ([r], after) else ([], Abort)
  }

  /** `handleRequest(ch, id, requestData)` given the REST call's outcome.
      A request without a space is answered with a permanent error and then
      `error(...)` ends the connection; a cancelled call is answered and the
      cancellation rethrown. */
  function Handle(id: string, sep: string, request: string, o: HttpOutcome): (h: Handled<(string, string), Reply>)
    // the call is made for every request with a space, with the undecoded
    // name and key around the first one
    ensures h.query == SplitRequest(request)
    ensures |h.replies| <= 1
    ensures |h.replies| == 1 ==> Fits(h.replies[0])
    ensures h.after != Close
    ensures h.query.None? ==> h == BrokenRequest(id, INVALID_FORMAT)
    // the chosen reply is sent exactly when it fits; a reply that does not
    // fit ends the connection
    ensures h.query.Some? ==> h.replies <= [Chosen(id, sep, o)]
    ensures h.query.Some? ==> (|h.replies| == 1 <==> Fits(Chosen(id, sep, o)))
    ensures h.query.Some? ==> (h.after == Stay <==> |h.replies| == 1 && !(o.Failed? && o.failure.Cancelled?))
  {
    match SplitRequest(request)
    case None => BrokenRequest(id, INVALID_FORMAT)
    case Some(q) =>
      var (replies, after) := Write(Chosen(id, sep, o), Stay);
      Handled(Some(q), replies, if o.Failed? && o.failure.Cancelled? then Abort else after)
  }

  /** A list the endpoint found is answered with `OK` and the values
      joined by the separator; a client splitting at a one-character
      separator gets the list back when no value contains it. */
  lemma FoundValuesReadBack(id: string, request: string, o: HttpOutcome, c: char)
    requires SplitRequest(request).Some?
    requires o.Completed? && o.status == 200 && o.values.Some? && |o.values.value| > 0
    requires forall i :: 0 <= i < |o.values.value| ==> Joiner.Lacks(o.values.value[i], c)
    requires Fits(FoundReply(o.values.value, [c]))
    ensures Handle(id, [c], request, o).replies == [FoundReply(o.values.value, [c])]
    ensures Joiner.Split(Handle(id, [c], request, o).replies[0].data, c) == o.values.value
  {
    Joiner.SplitJoin(o.values.value, c);
  }
}

/** The socketmap handler of the Kotlin/JVM revision. It differs from the
    reference in one respect: `writeResponse` throws an `IOException`, which
    the status branch catches and answers with a short temporary error. */
module SocketmapLookupHandlerKt {
  import opened Wrappers
  import opened Outcome
  import opened SocketmapLookupHandler

  /** The status branch's `catch (e: IOException)`: the "problem" reply if
      that fits, otherwise nothing, and reading goes on. */
  function Guarded(id: string, r: Reply): (rs: seq<Reply>)
    ensures |rs| <= 1
    ensures |rs| == 1 ==> Fits(rs[0])
    ensures Fits(r) <==> rs == [r]
    ensures !Fits(r) ==> rs <= [ErrorReply(TEMP, id, PROBLEM)]
  {
    if Fits(r) then [r]
    else
      var problem := ErrorReply(TEMP, id, PROBLEM);
      if Fits(problem) then [problem] else []
  }

  /** `handleRequest(ch, id, requestData)`. The broken-request reply and
      the failure replies are written outside the `try`, and so is the
      "invalid data" reply, from inside a `catch` clause: their exceptions
      still end the connection. */
  function Handle(id: string, sep: string, request: string, o: HttpOutcome): (h: Handled<(string, string), Reply>)
    ensures h.query == SplitRequest(request)
    ensures |h.replies| <= 1
    ensures |h.replies| == 1 ==> Fits(h.replies[0])
    ensures h.after != Close
    ensures h.query.None? ==> h == BrokenRequest(id, INVALID_FORMAT)
    // a completed call never ends the connection, unless the "invalid data"
    // reply does not fit
    ensures h.query.Some? && o.Completed? && h.after == Abort ==> o.status == 200 && o.values.None?
    ensures h.query.Some? && o.Completed? && !(o.status == 200 && o.values.None?)
      ==> h.after == Stay && h.replies == Guarded(id, Chosen(id, sep, o))
  {
    match SplitRequest(request)
    case None => BrokenRequest(id, INVALID_FORMAT)
    case Some(q) =>
      if o.Completed? && !(o.status == 200 && o.values.None?) then
        Handled(Some(q), Guarded(id, Chosen(id, sep, o)), Stay)
      else
        var (replies, after) := Write(Chosen(id, sep, o), Stay);
        Handled(Some(q), replies, if o.Failed? && o.failure.Cancelled? then Abort else after)
  }

  /** Whenever the chosen reply fits, the revision behaves exactly as the
      reference; it differs only where the reference ends the connection. */
  lemma AgreesWithReference(id: string, sep: string, request: string, o: HttpOutcome)
    ensures Fits(Chosen(id, sep, o)) ==>
      Handle(id, sep, request, o) == SocketmapLookupHandler.Handle(id, sep, request, o)
    ensures Handle(id, sep, request, o) != SocketmapLookupHandler.Handle(id, sep, request, o) ==>
      SocketmapLookupHandler.Handle(id, sep, request, o).after == Abort
      && Handle(id, sep, request, o).after == Stay
  {
  }

  /** An answer too long to send: the reference drops the connection, this
      revision sends the "problem" reply and reads on. */
  lemma OversizedAnswer(id: string, sep: string, request: string, o: HttpOutcome)
    requires SplitRequest(request).Some?
    requires o.Completed? && o.status == 200 && o.values.Some? && |o.values.value| > 0
    requires !Fits(FoundReply(o.values.value, sep))
    requires |id| <= 100
    ensures SocketmapLookupHandler.Handle(id, sep, request, o).replies == []
    ensures SocketmapLookupHandler.Handle(id, sep, request, o).after == Abort
    ensures Handle(id, sep, request, o) == Handled(SplitRequest(request), [ErrorReply(TEMP, id, PROBLEM)], Stay)
  {
    ShortRepliesFit(ErrorReply(TEMP, id, PROBLEM));
  }
}

/** The socketmap handler of the Java revision. Its replies carry no id;
    name and key are URL-decoded; a request without a space is answered and
    the channel closed; and every write of the response callback is guarded
    by the "problem" reply, since the callback runs apart from the
    connection. */
module SocketmapLookupHandlerJava {
  import opened Wrappers
  import opened Jvm
  import opened Outcome
  import UrlCodec
  import Joiner
  import SocketmapReaderJava
  import opened SocketmapLookupHandler

  /** `writeBrokenRequestErrorAndClose(ch, reason)`'s reply, without an
      id. */
  function BrokenRequestReply(reason: string): Reply {
    Reply(PERM, BROKEN_REQUEST + " (" + reason + ")")
  }

  const BROKEN_REQUEST_REPLY: Reply := BrokenRequestReply(INVALID_FORMAT)
  const PROBLEM_REPLY: Reply := Reply(TEMP, PROBLEM)

  /** The callback's `catch (IOException e)`: the "problem" reply, which
      always fits, in place of a reply that does not. */
  function Guarded(r: Reply): (rs: seq<Reply>)
    ensures |rs| == 1 && Fits(rs[0])
    ensures Fits(r) <==> rs == [r]
    ensures !Fits(r) ==> rs == [PROBLEM_REPLY]
  {
    ProblemFits();
    if Fits(r) then [r] else [PROBLEM_REPLY]
  }

  lemma ProblemFits()
    ensures Fits(PROBLEM_REPLY)
  {
    ShortRepliesFit(PROBLEM_REPLY);
  }

  lemma BrokenRequestFits()
    ensures Fits(BROKEN_REQUEST_REPLY)
  {
    ShortRepliesFit(BROKEN_REQUEST_REPLY);
  }

  /** What the connection does with one event of the Java reader: a
      payload is handled as a request; a broken netstring is answered with
      its reason and the channel closed, but the read loop goes on with the
      next byte. */
  function OnEvent(sep: string, e: SocketmapReaderJava.Event, o: HttpOutcome): (h: Handled<(string, string), Reply>)
    ensures e.Dispatch? ==> h == Handle(sep, e.request, o)
    ensures e.Rejected? && Fits(BrokenRequestReply(e.reason)) ==> h == Handled(None, [BrokenRequestReply(e.reason)], Close)
    ensures e.Rejected? && !Fits(BrokenRequestReply(e.reason)) ==> h == Handled(None, [], Abort)
  {
    match e
    case Dispatch(request) => Handle(sep, request, o)
    case Rejected(reason) =>
      if Fits(BrokenRequestReply(reason)) then Handled(None, [BrokenRequestReply(reason)], Close)
      else Handled(None, [], Abort)
  }

  /** Every rejection of the Java reader is answered with its reason: the
      reasons are short, so the reply always fits, and the channel is
      closed without ending the read loop. */
  lemma RejectionAnswered(sep: string, s: SocketmapReaderJava.State, b: Jvm.byte, o: HttpOutcome)
    requires SocketmapReaderJava.StepByte(s, b).1.Some? && SocketmapReaderJava.StepByte(s, b).1.value.Rejected?
    ensures var reason := SocketmapReaderJava.StepByte(s, b).1.value.reason;
      OnEvent(sep, SocketmapReaderJava.StepByte(s, b).1.value, o) == Handled(None, [BrokenRequestReply(reason)], Close)
  {
    var reason := SocketmapReaderJava.StepByte(s, b).1.value.reason;
    assert |reason| <= 28;
    ShortRepliesFit(BrokenRequestReply(reason));
  }

  /** The reply the callback means to send. A failed call is answered
      with its message, which is `null` when there is none; a body that is
      not a list of strings makes the mapper throw an `IOException`, which
      is answered like a failed write. */
  function Chosen(sep: string, o: HttpOutcome): (r: Reply)
    ensures r.status == OK
      <==> (o.Completed? && o.status == 200 && o.body.Some? && o.body.value != ""
        && o.values.Some? && |o.values.value| > 0)
    ensures r.status == OK ==> r == FoundReply(o.values.value, sep)
    ensures r.status == NOTFOUND
      <==> o.Completed? && (o.status == 404 || (o.status == 200 && (o.body == Some("") || (o.body.Some? && o.values == Some([])))))
    ensures r.status == NOTFOUND ==> r == NotFoundReply()
    ensures r.status == TIMEOUT <==> o.Failed? && o.failure.TimedOut?
    ensures r.status == PERM <==> o.Completed? && o.status != 404 && IsClientError(o.status)
    ensures o.Failed? && !o.failure.TimedOut? ==> r == Reply(TEMP, NullableText(o.failure.message))
  {
    match o
    case Failed(TimedOut(m)) => Reply(TIMEOUT, TIMED_OUT + ": " + NullableText(m))
    case Failed(f) => Reply(TEMP, NullableText(f.message))
    case Completed(status, _, body, values) =>
      var code := IntToString(status);
      if status == 200 then
        match body
        case None => Reply(TEMP, BROKEN_RESULT)
        case Some(text) =>
          if text == "" then NotFoundReply()
          else
            match values
            case None => PROBLEM_REPLY
            case Some(vs) => if |vs| == 0 then NotFoundReply() else FoundReply(vs, sep)
      else if status == 404 then NotFoundReply()
      else if IsClientError(status) then Reply(PERM, USER_ERROR + code)
      else if IsServerError(status) then Reply(TEMP, SERVER_ERROR + code)
      else Reply(TEMP, UNSPECIFIED + code)
  }

  /** Name and key, each decoded from `application/x-www-form-urlencoded`.
      A failure to decode is an exception that ends the connection. */
  function Query(request: string): (r: Option<Result<(string, string), UrlCodec.DecodeError>>)
    ensures r.None? <==> SplitRequest(request).None?
    ensures r.Some? && r.value.Ok? ==>
      var (name, key) := SplitRequest(request).value;
      UrlCodec.DecodeUrlEncodedData(name) == Ok(r.value.value.0)
      && UrlCodec.DecodeUrlEncodedData(key) == Ok(r.value.value.1)
    ensures r.Some? && r.value.Err? ==>
      var (name, key) := SplitRequest(request).value;
      UrlCodec.DecodeUrlEncodedData(name).Err? || UrlCodec.DecodeUrlEncodedData(key).Err?
  {
    match SplitRequest(request)
    case None => None
    case Some((name, key)) =>
      match UrlCodec.DecodeUrlEncodedData(name)
      case Err(e) => Some(Err(e))
      case Ok(n) =>
        match UrlCodec.DecodeUrlEncodedData(key)
        case Err(e) => Some(Err(e))
        case Ok(k) => Some(Ok((n, k)))
  }

  /** `handleRequest(ch, requestData)` and its callback, given the REST
      call's outcome. */
  function Handle(sep: string, request: string, o: HttpOutcome): (h: Handled<(string, string), Reply>)
    ensures h.query.Some? <==> Query(request).Some? && Query(request).value.Ok?
    ensures h.query.Some? ==> h.query.value == Query(request).value.value
    ensures h.after == Close <==> SplitRequest(request).None?
    ensures h.after == Close ==> h.replies == [BROKEN_REQUEST_REPLY]
    ensures h.after == Abort <==> h.replies == []
    ensures h.query.Some? <==> h.after == Stay
    ensures h.query.Some? ==> h.replies == Guarded(Chosen(sep, o))
  {
    match Query(request)
    case None => Handled(None, [BROKEN_REQUEST_REPLY], Close)
    case Some(Err(_)) => Handled(None, [], Abort)
    case Some(Ok(q)) => Handled(Some(q), Guarded(Chosen(sep, o)), Stay)
  }

  /** Without escapes or plus signs the decoding changes nothing, and the
      query is the reference's. */
  lemma PlainQuery(request: string)
    requires forall i :: 0 <= i < |request| ==> request[i] != '%' && request[i] != '+'
    requires SplitRequest(request).Some?
    ensures Query(request) == Some(Ok(SplitRequest(request).value))
  {
    var (name, key) := SplitRequest(request).value;
    assert request == name + " " + key;
    assert forall i :: 0 <= i < |name| ==> name[i] == request[i];
    assert forall i :: 0 <= i < |key| ==> key[i] == request[|name| + 1 + i];
    UrlCodec.UrlDecodePlain(name, UrlCodec.UsAscii);
    UrlCodec.UrlDecodePlain(key, UrlCodec.UsAscii);
    UrlCodec.DecodeUrlEncodedDataIsAscii(name);
    UrlCodec.DecodeUrlEncodedDataIsAscii(key);
  }

  /** Found and not-found answers are the reference's, id and all, since
      neither carries the id. */
  lemma SameAnswers(id: string, sep: string, o: HttpOutcome)
    requires o.Completed? && (o.status == 404 || (o.status == 200 && o.body.Some? && o.body.value != "" && o.values.Some?))
    ensures Chosen(sep, o) == SocketmapLookupHandler.Chosen(id, sep, o)
  {
  }
}
