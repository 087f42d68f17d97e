/** The policy request handler of the multiplatform revision
    (`PolicyRequestHandler.handleRequest` and its writers), the reference the
    JVM revisions are compared with. Every request read is sent to the REST
    endpoint; the reply is one policy response, `action=<action>` and an
    empty line, whose action is the endpoint's trimmed answer or a `451`
    (defer) or `554` (reject) with the request's id and a message. */
module PolicyRequestHandler {
  import opened Wrappers
  import opened Jvm
  import opened Outcome
  import Joiner
  import PolicyReader

  const ACTION_PREFIX: string := "action="
  const LINE_END: char := '\n'
  const TEMPORARY: string := "451"
  const PERMANENT: string := "554"
  const UNKNOWN_CANCELLATION: string := "unknown coroutine cancellation"

  /** `writeActionResponse`: the action, framed as a policy response. */
  function ActionText(action: string): string {
    ACTION_PREFIX + action + [LINE_END, LINE_END]
  }

  /** How Postfix reads a policy response: its first line must be an
      `action=` attribute, and the empty line must follow it at once. */
  function ReadResponse(t: string): (r: Option<string>)
    ensures r.Some? ==> Joiner.Lacks(r.value, LINE_END)
    ensures r.Some? ==> ActionText(r.value) <= t
  {
    var k := Joiner.IndexOfChar(t, LINE_END);
    if k < |ACTION_PREFIX| || k + 1 >= |t| || t[..|ACTION_PREFIX|] != ACTION_PREFIX || t[k + 1] != LINE_END then None
    else
      assert t[..k + 2] == ACTION_PREFIX + t[|ACTION_PREFIX|..k] + [LINE_END, LINE_END];
      Some(t[|ACTION_PREFIX|..k])
  }

  /** An action on one line reads back as itself. */
  lemma ReadActionText(action: string)
    requires Joiner.Lacks(action, LINE_END)
    ensures ReadResponse(ActionText(action)) == Some(action)
  {
    var t := ActionText(action);
    var line := ACTION_PREFIX + action;
    assert Joiner.Lacks(line, LINE_END) by {
      assert forall i :: 0 <= i < |line| ==> line[i] == if i < 7 then ACTION_PREFIX[i] else action[i - 7];
    }
    assert t == line + [LINE_END] + [LINE_END];
    Joiner.IndexOfCharAfter(line, LINE_END, [LINE_END]);
    assert t[..7] == ACTION_PREFIX;
    assert t[7..|line|] == action;
  }

  /** An action that spans lines is not what Postfix reads: the response
      ends, or is malformed, at the action's first line end. */
  lemma MultiLineAction(action: string)
    requires !Joiner.Lacks(action, LINE_END)
    ensures ReadResponse(ActionText(action)) != Some(action)
  {
    var t := ActionText(action);
    var j :| 0 <= j < |action| && action[j] == LINE_END;
    assert t[7 + j] == LINE_END;
    var k := Joiner.IndexOfChar(t, LINE_END);
    assert 0 <= k <= 7 + j;
  }

  /** `"451 $id - $message"` and `"554 $id - $message"`. */
  function TemporaryError(id: string, message: string): string {
    TEMPORARY + " " + id + " - " + message
  }

  function PermanentError(id: string, message: string): string {
    PERMANENT + " " + id + " - " + message
  }

  /** The endpoint's answer as the action: its body without edge
      whitespace. The multiplatform client always hands over a body. */
  function Answer(body: Option<string>): (a: string)
    ensures Trim(a) == a
    ensures body.Some? ==> a == Trim(body.value)
  {
    TrimIdempotent(body.GetOr(""));
    Trim(body.GetOr(""))
  }

  /** `handleRequest(ch, id, params)` given the REST call's outcome; the
      replies are actions. A cancelled call is answered and the
      cancellation rethrown. */
  function Handle(id: string, params: PolicyReader.Params, o: HttpOutcome): (h: Handled<PolicyReader.Params, string>)
    // every request is sent, with its attributes as read
    ensures h.query == Some(params)
    ensures |h.replies| <= 1
    ensures h.after != Close
    ensures h.after == Abort <==> o.Failed? && o.failure.Cancelled?
    // a status outside 200, 4xx and 5xx is not answered at all
    ensures |h.replies| == 0
      <==> (o.Completed? && o.status != 200 && !IsClientError(o.status) && !IsServerError(o.status))
    // 200: the trimmed body
    ensures o.Completed? && o.status == 200 ==> h.replies == [Answer(o.body)]
    // a failed call defers, naming its failure
    ensures o.Failed? ==> |h.replies| == 1 && TemporaryError(id, "") <= h.replies[0]
    ensures o.Failed? && o.failure.Cancelled? && o.failure.message.None?
      ==> h.replies == [TemporaryError(id, UNKNOWN_CANCELLATION)]
    // 4xx rejects, 5xx defers
    ensures o.Completed? && IsClientError(o.status) ==> h.replies == [PermanentError(id, MISCONFIGURED)]
    ensures o.Completed? && IsServerError(o.status) ==> h.replies == [TemporaryError(id, INTERNAL_ERROR)]
  {
    var replies := match o
      case Failed(TimedOut(_)) => [TemporaryError(id, TIMED_OUT)]
      case Failed(Cancelled(m)) => [TemporaryError(id, m.GetOr(UNKNOWN_CANCELLATION))]
      case Failed(IoFailed(m, kind)) => [TemporaryError(id, IoExceptionMessage(m, kind))]
      case Completed(status, _, body, _) =>
        if status == 200 then [Answer(body)]
        else if IsClientError(status) then [PermanentError(id, MISCONFIGURED)]
        else if IsServerError(status) then [TemporaryError(id, INTERNAL_ERROR)]
        else [];
    Handled(Some(params), replies, if o.Failed? && o.failure.Cancelled? then Abort else Stay)
  }
}

/** The policy handler of the Kotlin/JVM revision, which the Java revision
    repeats line for line: the attributes go out as an
    `application/x-www-form-urlencoded` body the connector encodes itself,
    a failed call is answered and the channel closed, and a missing body
    is a broken result. */
module PolicyRequestHandlerJvm {
  import opened Wrappers
  import opened Jvm
  import opened Outcome
  import Joiner
  import UrlCodec
  import PolicyReader
  import opened PolicyRequestHandler

  /** One attribute as the body carries it, `name=value`, both encoded by
      `URLEncoder` in US-ASCII. */
  function Field(p: (string, string)): string {
    UrlCodec.FormUrlEncode(p.0, UrlCodec.UsAscii) + "=" + UrlCodec.FormUrlEncode(p.1, UrlCodec.UsAscii)
  }

  function Fields(params: PolicyReader.Params): (r: seq<string>)
    ensures |r| == |params|
    ensures forall i :: 0 <= i < |params| ==> r[i] == Field(params[i])
  {
    if |params| == 0 then [] else [Field(params[0])] + Fields(params[1..])
  }

  /** `formUrlEncode(params)`: the fields joined by `&`. */
  function FormBody(params: PolicyReader.Params): string {
    Joiner.Join(Fields(params), "&")
  }

  /** The encoder writes neither `&` nor `=`. */
  lemma EncodedLacks(s: string)
    ensures Joiner.Lacks(UrlCodec.FormUrlEncode(s, UrlCodec.UsAscii), '&')
    ensures Joiner.Lacks(UrlCodec.FormUrlEncode(s, UrlCodec.UsAscii), '=')
  {
    UrlCodec.FormUrlEncodeAlphabet(s, UrlCodec.UsAscii);
  }

  /** A field has no `&`, and its one `=` separates name and value. */
  lemma FieldSplits(p: (string, string))
    ensures Joiner.Lacks(Field(p), '&')
    ensures Joiner.Split(Field(p), '=')
      == [UrlCodec.FormUrlEncode(p.0, UrlCodec.UsAscii), UrlCodec.FormUrlEncode(p.1, UrlCodec.UsAscii)]
  {
    var n := UrlCodec.FormUrlEncode(p.0, UrlCodec.UsAscii);
    var v := UrlCodec.FormUrlEncode(p.1, UrlCodec.UsAscii);
    var f := Field(p);
    EncodedLacks(p.0);
    EncodedLacks(p.1);
    assert f == n + ['='] + v;
    assert forall k :: 0 <= k < |f| ==> f[k] == if k < |n| then n[k] else if k == |n| then '=' else v[k - |n| - 1];
    Joiner.JoinCons(n, [v], "=");
    Joiner.JoinSingleton(v, "=");
    assert [n] + [v] == [n, v];
    Joiner.SplitJoin([n, v], '=');
  }

  /** The body can be taken apart again: split at `&` it gives one field
      per attribute, in order, and each field split at `=` gives the
      encoded name and value. */
  lemma FormBodyFields(params: PolicyReader.Params)
    requires |params| > 0
    ensures Joiner.Split(FormBody(params), '&') == Fields(params)
    ensures forall i :: 0 <= i < |params| ==>
      Joiner.Split(Fields(params)[i], '=')
        == [UrlCodec.FormUrlEncode(params[i].0, UrlCodec.UsAscii), UrlCodec.FormUrlEncode(params[i].1, UrlCodec.UsAscii)]
  {
    var fs := Fields(params);
    forall i | 0 <= i < |params|
      ensures Joiner.Lacks(fs[i], '&')
    {
      FieldSplits(params[i]);
    }
    forall i | 0 <= i < |params|
      ensures Joiner.Split(fs[i], '=')
        == [UrlCodec.FormUrlEncode(params[i].0, UrlCodec.UsAscii), UrlCodec.FormUrlEncode(params[i].1, UrlCodec.UsAscii)]
    {
      FieldSplits(params[i]);
    }
    Joiner.SplitJoin(fs, '&');
  }

  /** The reply the callback writes. Every write is inside the `try`, but
      a write without a length limit can only fail on the channel, which
      is not modelled, so the "problem" reply never appears. */
  function Replies(id: string, o: HttpOutcome): (rs: seq<string>)
    ensures |rs| <= 1
    ensures |rs| == 0
      <==> (o.Completed? && o.status != 200 && !IsClientError(o.status) && !IsServerError(o.status))
    ensures o.Failed? && o.failure.TimedOut?
      ==> rs == [TemporaryError(id, TIMED_OUT + ": " + NullableText(o.failure.message))]
    ensures o.Failed? && !o.failure.TimedOut? ==> rs == [TemporaryError(id, NullableText(o.failure.message))]
    ensures o.Completed? && o.status == 200 && o.body.None? ==> rs == [TemporaryError(id, BROKEN_RESULT)]
    ensures o.Completed? && o.status == 200 && o.body.Some? ==> rs == [Trim(o.body.value)]
  {
    match o
    case Failed(TimedOut(m)) => [TemporaryError(id, TIMED_OUT + ": " + NullableText(m))]
    case Failed(f) => [TemporaryError(id, NullableText(f.message))]
    case Completed(status, _, body, _) =>
      if status == 200 then
        match body
        case None => [TemporaryError(id, BROKEN_RESULT)]
        case Some(text) => [Trim(text)]
      else if IsClientError(status) then [PermanentError(id, MISCONFIGURED)]
      else if IsServerError(status) then [TemporaryError(id, INTERNAL_ERROR)]
      else []
  }

  /** `handleRequest(ch, id, params)` and its callback: the query is the
      form body sent. */
  function Handle(id: string, params: PolicyReader.Params, o: HttpOutcome): (h: Handled<string, string>)
    ensures h.query == Some(FormBody(params))
    ensures h.replies == Replies(id, o)
    // the callback never throws into the connection; only a failed call
    // closes it
    ensures h.after != Abort
    ensures h.after == Close <==> o.Failed?
  {
    Handled(Some(FormBody(params)), Replies(id, o), if o.Failed? then Close else Stay)
  }

  /** `handleRequest` as written: the callback's `TimeoutException` test
      never matches the `HttpTimeoutException` of the HTTP client, so a
      timed-out call is deferred with the bare message. */
  function HandleAsWritten(id: string, params: PolicyReader.Params, o: HttpOutcome): (h: Handled<string, string>)
    ensures h.query == Some(FormBody(params))
    ensures h.after == Handle(id, params, o).after
    ensures o.Failed? ==> h.replies == [TemporaryError(id, NullableText(o.failure.message))]
    ensures !(o.Failed? && o.failure.TimedOut?) ==> h == Handle(id, params, o)
  {
    Handle(id, params, JdkReported(o))
  }

  /** Once the endpoint answered with a body, the revisions send the same
      action; they differ on a failed call, which closes the connection
      here and not in the reference, and in the texts of failures. */
  lemma AgreesOnAnswers(id: string, params: PolicyReader.Params, o: HttpOutcome)
    requires o.Completed? && o.body.Some?
    ensures Handle(id, params, o).replies == PolicyRequestHandler.Handle(id, params, o).replies
    ensures Handle(id, params, o).after == PolicyRequestHandler.Handle(id, params, o).after == Stay
  {
  }

  /** A timed-out call: the reference defers and reads on, this revision
      defers and closes the channel. As written it defers with the bare
      message; the timeout branch meant to put "REST request timed out"
      in front of it. */
  lemma TimeoutCloses(id: string, params: PolicyReader.Params, m: Option<string>)
    ensures PolicyRequestHandler.Handle(id, params, Failed(TimedOut(m))).after == Stay
    ensures Handle(id, params, Failed(TimedOut(m))).after == Close
    ensures HandleAsWritten(id, params, Failed(TimedOut(m))).after == Close
    ensures Handle(id, params, Failed(TimedOut(m))).replies
      == [TemporaryError(id, TIMED_OUT + ": " + NullableText(m))]
    ensures HandleAsWritten(id, params, Failed(TimedOut(m))).replies
      == [TemporaryError(id, NullableText(m))]
    ensures TemporaryError(id, NullableText(m)) != TemporaryError(id, TIMED_OUT + ": " + NullableText(m))
  {
    assert |TIMED_OUT + ": " + NullableText(m)| > |NullableText(m)|;
  }
}
