/** What the REST call of a request can come back with, and what handling a
    request can do to its connection. The HTTP clients and the JSON mapper
    are outside the model: their results arrive as an `HttpOutcome`. */
module Outcome {
  import opened Wrappers
  import opened Jvm

  /** The kind of an `IOException` that matters to `ioExceptionMessage`. */
  datatype IoKind = ConnectRefused | OtherIo

  /** Why the REST call produced no response. */
  datatype Failure =
    | TimedOut(message: Option<string>)   // the call ran past the endpoint's request timeout
    | Cancelled(message: Option<string>)  // the connection's coroutine was cancelled
    | IoFailed(message: Option<string>, kind: IoKind)  // any other transport failure

  /** A REST call's result.

      - `status` is the HTTP status code and `reason` the phrase ktor's
        `HttpStatusCode` prints after it.
      - `body` is the response text (`None` for the `null` a JVM client may
        hand over).
      - `values` is the body read as a JSON list of strings, `None` when it
        is not one. */
  datatype HttpOutcome =
    | Completed(status: int, reason: string, body: Option<string>, values: Option<seq<string>>)
    | Failed(failure: Failure)

  // The texts the handlers answer with, shared by every revision
  const BROKEN_REQUEST: string := "Broken request!"
  const BROKEN_RESULT: string := "REST result was broken!"
  const TIMED_OUT: string := "REST request timed out"
  const INVALID_DATA: string := "REST connector received invalid data!"
  const PROBLEM: string := "REST connector encountered a problem!"
  const USER_ERROR: string := "REST server signaled a user error, is the connector misconfigured? Code: "
  const SERVER_ERROR: string := "REST server had an internal error: "
  const UNSPECIFIED: string := "REST server responded with an unspecified code: "
  // the forms without a status code, of the policy handlers and the first
  // lookup handler
  const MISCONFIGURED: string := "REST server signaled a user error, is the connector misconfigured?"
  const INTERNAL_ERROR: string := "REST server had an internal error!"

  /** The outcome as `java.net.http.HttpClient` hands it to a callback. A
      call that runs past its timeout fails with `HttpTimeoutException`,
      which is an `IOException` and not a
      `java.util.concurrent.TimeoutException`, so no callback can tell it
      from any other transport failure; everything else arrives as it
      is. */
  function JdkReported(o: HttpOutcome): (r: HttpOutcome)
    ensures r.Failed? ==> !r.failure.TimedOut?
    ensures r.Completed? <==> o.Completed?
    ensures r.Failed? ==> r.failure.message == o.failure.message
    ensures r != o <==> o.Failed? && o.failure.TimedOut?
  {
    match o
    case Failed(TimedOut(m)) => Failed(IoFailed(m, OtherIo))
    case _ => o
  }

  /** How handling a request leaves the connection. */
  datatype After =
    | Stay    // reading goes on
    | Close   // the handler closed the channel
    | Abort   // an exception left the handler, ending the connection

  /** One handled request: the REST query issued (`None` when the request
      was rejected before any call), the replies written, in order, and the
      state the connection is left in. */
  datatype Handled<Q, R> = Handled(query: Option<Q>, replies: seq<R>, after: After)

  /** `ioExceptionMessage(e)`: the exception's message when it has one,
      otherwise a fixed text naming the kind of failure. */
  function IoExceptionMessage(message: Option<string>, kind: IoKind): (r: string)
    ensures message.Some? ==> r == message.value
    ensures message.None? ==> r == (if kind == ConnectRefused then "Failed to connect" else "unknown IO error")
  {
    match message
    case Some(m) => m
    case None => if kind == ConnectRefused then "Failed to connect" else "unknown IO error"
  }

  /** The fallback texts tell the two kinds apart, and neither is empty, so
      a reply built from a message-less failure always says something and
      says which kind it was. */
  lemma IoExceptionMessageFallback(kind1: IoKind, kind2: IoKind)
    ensures |IoExceptionMessage(None, kind1)| > 0
    ensures IoExceptionMessage(None, kind1) == IoExceptionMessage(None, kind2) <==> kind1 == kind2
  {
    if kind1 != kind2 {
      assert IoExceptionMessage(None, kind1)[0] != IoExceptionMessage(None, kind2)[0];
    }
  }

  /** ktor's `HttpStatusCode.toString()`: the code, a space, the reason. */
  function KtorStatusText(status: int, reason: string): string {
    IntToString(status) + " " + reason
  }

  /** The range checks `statusCode.value in 400..499` and `in 500..599`. */
  predicate IsClientError(status: int) {
    400 <= status <= 499
  }

  predicate IsServerError(status: int) {
    500 <= status <= 599
  }
}
