/** The socketmap connection reader of the Kotlin revisions
    (`SocketMapConnectionState.read`): a byte-at-a-time state machine over
    netstrings `<length>:<payload>,`. The length is read digit by digit into
    a 64-bit `long`; the payload is collected until it has that many bytes;
    the comma that follows hands the payload to the request handler. Any
    other byte where a digit or the comma belongs is a broken request, which
    ends the connection. */
module SocketmapReader {
  import opened Wrappers
  import opened Jvm
  import Seqs

  /** `LENGTH_VALUE_SEPARATOR_CHAR_CODE` and `END_CHAR_CODE`. */
  const COLON: byte := 0x3A
  const COMMA: byte := 0x2C
  const ZERO: int := 0x30

  const EXPECTED_DIGIT: string := "Expected a digit, but got: "
  const EXPECTED_COMMA: string := "Expected comma, but got: "

  /** `ReadState`: reading the length, the payload, or the comma. */
  datatype Phase = Length | Value | Terminator

  /** The reader's fields: the phase, the `long` length, the pending bytes. */
  datatype State = State(phase: Phase, length: int, pending: seq<byte>)

  const INITIAL: State := State(Length, 0, [])

  /** What one byte does: a next state, with the payload it completes, or
      a broken request with the reason given to the client. */
  datatype Step =
    | Next(state: State, request: Option<seq<byte>>)
    | Broken(reason: string)

  /** `"... ${byte.toInt().toChar()} (code: $byte)"`: the byte as a
      character and as its signed value. */
  function Reason(prefix: string, b: byte): string {
    prefix + [WidenSigned(b)] + " (code: " + IntToString(SignedValue(b)) + ")"
  }

  /** The digit a byte stands for, if it is one: `byte - '0'` on the
      signed value. */
  function Digit(b: byte): int {
    SignedValue(b) - ZERO
  }

  function StepByte(s: State, b: byte): (r: Step)
    // the two ways to break a request
    ensures r.Broken? <==> (|| (s.phase == Length && b != COLON && !(0 <= Digit(b) <= 9))
                            || (s.phase == Terminator && b != COMMA))
    // a payload is handed on exactly at the comma, and the reader starts over
    ensures r.Next? && r.request.Some? <==> s.phase == Terminator && b == COMMA
    ensures r.Next? && r.request.Some? ==> r.request.value == s.pending && r.state == INITIAL
    // a digit extends the length, in 64 bits
    ensures s.phase == Length && b != COLON && r.Next? ==> r.state == s.(length := WrapLong(s.length * 10 + Digit(b)))
    // the payload never grows beyond the length
    ensures s.phase == Value && |s.pending| <= s.length ==> r.Next? && |r.state.pending| <= r.state.length
  {
    match s.phase
    case Length =>
      if b == COLON then Next(s.(phase := Value), None)
      else if Digit(b) < 0 || Digit(b) > 9 then Broken(Reason(EXPECTED_DIGIT, b))
      else Next(s.(length := WrapLong(s.length * 10 + Digit(b))), None)
    case Value =>
      var pending := if |s.pending| < s.length then s.pending + [b] else s.pending;
      Next(State(if |pending| >= s.length then Terminator else Value, s.length, pending), None)
    case Terminator =>
      if b == COMMA then Next(INITIAL, Some(s.pending))
      else Broken(Reason(EXPECTED_COMMA, b))
  }

  /** Where the reader is after some bytes: still reading, or stopped by a
      broken request. */
  datatype Rest = Reading(state: State) | Stopped(reason: string)

  /** The payloads handed on, in order, and where the reader is. */
  datatype Fed = Fed(requests: seq<seq<byte>>, rest: Rest)

  function Feed(s: State, bs: seq<byte>): Fed
    decreases |bs|
  {
    if |bs| == 0 then Fed([], Reading(s))
    else
      match StepByte(s, bs[0])
      case Broken(reason) => Fed([], Stopped(reason))
      case Next(next, request) =>
        var f := Feed(next, bs[1..]);
        Fed((if request.Some? then [request.value] else []) + f.requests, f.rest)
  }

  /** Feeding more bytes to a reader: nothing happens once it stopped. */
  function Continue(f: Fed, bs: seq<byte>): Fed {
    match f.rest
    case Stopped(_) => f
    case Reading(s) =>
      var g := Feed(s, bs);
      Fed(f.requests + g.requests, g.rest)
  }

  // ---------------------------------------------------------------------
  // Chunk independence

  /** Two reads in a row do what one read of both chunks does, whatever the
      split. */
  lemma {:induction false} FeedAppend(s: State, a: seq<byte>, b: seq<byte>)
    ensures Feed(s, a + b) == Continue(Feed(s, a), b)
    decreases |a|
  {
    if |a| == 0 {
      assert a + b == b;
      assert [] + Feed(s, b).requests == Feed(s, b).requests;
    } else {
      assert (a + b)[0] == a[0];
      assert (a + b)[1..] == a[1..] + b;
      match StepByte(s, a[0])
      case Broken(_) =>
      case Next(next, request) =>
        FeedAppend(next, a[1..], b);
        var head: seq<seq<byte>> := if request.Some? then [request.value] else [];
        var f := Feed(next, a[1..]);
        if f.rest.Reading? {
          Seqs.Assoc(head, f.requests, Feed(f.rest.state, b).requests);
        }
    }
  }

  // ---------------------------------------------------------------------
  // A well-formed netstring is read as its payload

  /** The ASCII bytes of a decimal numeral, built from the back the way
      `DecimalValue` reads it. */
  function DigitBytes(ds: string): (r: seq<byte>)
    requires AllDigits(ds)
    ensures |r| == |ds|
  {
    if |ds| == 0 then [] else DigitBytes(ds[..|ds| - 1]) + [ds[|ds| - 1] as int as byte]
  }

  /** How Postfix sends a request: its byte length in decimal, a colon, the
      bytes, a comma. */
  function FrameBytes(x: seq<byte>): seq<byte> {
    DigitBytes(NatToString(|x|)) + [COLON] + x + [COMMA]
  }

  function Frames(xs: seq<seq<byte>>): seq<byte> {
    if |xs| == 0 then [] else FrameBytes(xs[0]) + Frames(xs[1..])
  }

  /** The digits of a length accumulate into its value, as long as it fits a
      `long`. */
  lemma {:induction false} LengthDigits(ds: string, p: seq<byte>)
    requires AllDigits(ds) && DecimalValue(ds) <= LONG_MAX
    ensures Feed(State(Length, 0, p), DigitBytes(ds)) == Fed([], Reading(State(Length, DecimalValue(ds), p)))
    decreases |ds|
  {
    if |ds| > 0 {
      var init := ds[..|ds| - 1];
      var c := ds[|ds| - 1];
      assert AllDigits(init) by {
        assert forall i :: 0 <= i < |init| ==> init[i] == ds[i];
      }
      var n := DecimalValue(init);
      var d := c as int - '0' as int;
      assert 0 <= d <= 9 && DecimalValue(ds) == n * 10 + d;
      LengthDigits(init, p);
      var b := c as int as byte;
      assert DigitBytes(ds) == DigitBytes(init) + [b];
      FeedAppend(State(Length, 0, p), DigitBytes(init), [b]);
      assert SignedValue(b) == c as int;
      var s := State(Length, n, p);
      var t := State(Length, DecimalValue(ds), p);
      assert StepByte(s, b) == Next(t, None);
      assert [b][1..] == [];
      var none: seq<seq<byte>> := [];
      assert Feed(s, [b]) == Fed(none + none, Reading(t));
      assert none + (none + none) == none;
    }
  }

  /** Payload bytes are collected until there are `length` of them. */
  lemma {:induction false} ValueBytes(n: int, p: seq<byte>, y: seq<byte>)
    requires |y| > 0 && |p| + |y| == n
    ensures Feed(State(Value, n, p), y) == Fed([], Reading(State(Terminator, n, p + y)))
    decreases |y|
  {
    var next := p + [y[0]];
    if |y| == 1 {
      assert y[1..] == [];
      assert next == p + y;
    } else {
      ValueBytes(n, next, y[1..]);
      Seqs.Assoc(p, [y[0]], y[1..]);
      Seqs.HeadTail(y);
    }
    var none: seq<seq<byte>> := [];
    assert none + none == none;
  }

  /** A well-formed netstring with a non-empty payload hands the payload
      on, and the reader is back where it started. */
  lemma FrameThen(x: seq<byte>, rest: seq<byte>)
    requires 0 < |x| <= LONG_MAX
    ensures Feed(INITIAL, FrameBytes(x) + rest)
      == Fed([x] + Feed(INITIAL, rest).requests, Feed(INITIAL, rest).rest)
  {
    var ds := NatToString(|x|);
    var d := DigitBytes(ds);
    var tail := [COMMA] + rest;
    assert FrameBytes(x) + rest == d + ([COLON] + (x + tail)) by {
      Seqs.Assoc(d + [COLON] + x, [COMMA], rest);
      Seqs.Assoc(d + [COLON], x, tail);
      Seqs.Assoc(d, [COLON], x + tail);
    }
    NatToStringValue(|x|);
    LengthDigits(ds, []);
    FeedAppend(INITIAL, d, [COLON] + (x + tail));
    var value := State(Value, |x|, []);
    assert ([COLON] + (x + tail))[1..] == x + tail;
    assert Feed(State(Length, |x|, []), [COLON] + (x + tail)) == Feed(value, x + tail) by {
      assert [] + Feed(value, x + tail).requests == Feed(value, x + tail).requests;
    }
    FeedAppend(value, x, tail);
    ValueBytes(|x|, [], x);
    assert [] + x == x;
    assert tail[1..] == rest;
    var r := Feed(INITIAL, rest);
    assert [] + ([] + ([x] + r.requests)) == [x] + r.requests;
  }

  /** Well-formed netstrings, read from a fresh connection, hand on their
      payloads in order and leave the reader ready for the next one. */
  lemma {:induction false} FeedFrames(xs: seq<seq<byte>>)
    requires forall i :: 0 <= i < |xs| ==> 0 < |xs[i]| <= LONG_MAX
    ensures Feed(INITIAL, Frames(xs)) == Fed(xs, Reading(INITIAL))
  {
    if |xs| > 0 {
      FeedFrames(xs[1..]);
      FrameThen(xs[0], Frames(xs[1..]));
      Seqs.HeadTail(xs);
    }
  }

  /** A length of zero is a quirk: the byte after the colon is taken as the
      (ignored) payload, so `0:,` alone completes nothing and the empty
      payload is handed on only at a second comma. */
  lemma ZeroLength()
    ensures Feed(INITIAL, [ZERO as byte, COLON, COMMA]) == Fed([], Reading(State(Terminator, 0, [])))
    ensures Feed(INITIAL, [ZERO as byte, COLON, COMMA, COMMA]) == Fed([[]], Reading(INITIAL))
  {
    var none: seq<seq<byte>> := [];
    var value := State(Value, 0, []);
    var terminator := State(Terminator, 0, []);
    assert StepByte(INITIAL, ZERO as byte) == Next(INITIAL, None);
    assert StepByte(INITIAL, COLON) == Next(value, None);
    assert StepByte(value, COMMA) == Next(terminator, None);
    assert StepByte(terminator, COMMA) == Next(INITIAL, Some([]));
    assert Feed(terminator, []) == Fed(none, Reading(terminator));
    assert Feed(INITIAL, []) == Fed(none, Reading(INITIAL));
    assert Feed(terminator, [COMMA]) == Fed([[]], Reading(INITIAL)) by {
      assert [COMMA][1..] == [];
      assert [[]] + none == [[]];
    }
    assert Feed(value, [COMMA]) == Fed(none, Reading(terminator)) by {
      assert [COMMA][1..] == [];
      assert none + none == none;
    }
    assert Feed(value, [COMMA, COMMA]) == Fed([[]], Reading(INITIAL)) by {
      assert [COMMA, COMMA][1..] == [COMMA];
      assert none + [[]] == [[]];
    }
    assert Feed(INITIAL, [COLON, COMMA]) == Fed(none, Reading(terminator)) by {
      assert [COLON, COMMA][1..] == [COMMA];
      assert none + none == none;
    }
    assert Feed(INITIAL, [COLON, COMMA, COMMA]) == Fed([[]], Reading(INITIAL)) by {
      assert [COLON, COMMA, COMMA][1..] == [COMMA, COMMA];
      assert none + [[]] == [[]];
    }
    assert [ZERO as byte, COLON, COMMA][1..] == [COLON, COMMA];
    assert [ZERO as byte, COLON, COMMA, COMMA][1..] == [COLON, COMMA, COMMA];
    assert none + none == none;
    assert none + [[]] == [[]];
  }

  /** A broken request stops the reader for good: what follows is never
      read. */
  lemma StoppedStays(s: State, a: seq<byte>, b: seq<byte>)
    requires Feed(s, a).rest.Stopped?
    ensures Feed(s, a + b) == Feed(s, a)
  {
    FeedAppend(s, a, b);
  }

  /** Every reason the reader stops for is short: the expected token, the
      offending byte as a character and its signed value. */
  lemma ReasonShort(prefix: string, b: byte)
    requires |prefix| <= 27
    ensures |Reason(prefix, b)| <= 41
  {
    var v := SignedValue(b);
    if v < 0 {
      NatToStringShort(-v);
    } else {
      NatToStringShort(v);
    }
  }

  lemma {:induction false} StoppedReasonShort(s: State, bs: seq<byte>)
    requires Feed(s, bs).rest.Stopped?
    ensures |Feed(s, bs).rest.reason| <= 41
    decreases |bs|
  {
    match StepByte(s, bs[0])
    case Broken(_) =>
      if s.phase == Length {
        ReasonShort(EXPECTED_DIGIT, bs[0]);
      } else {
        ReasonShort(EXPECTED_COMMA, bs[0]);
      }
    case Next(next, _) =>
      StoppedReasonShort(next, bs[1..]);
  }

  /** The request of the connector's own test, `15:test 0123456789,`: the
      length field, the payload, the comma. */
  lemma Fixture(x: seq<byte>)
    requires x == NarrowEncode("test 0123456789", US_ASCII_LIMIT)
    ensures Feed(INITIAL, NarrowEncode("15:", US_ASCII_LIMIT) + x + NarrowEncode(",", US_ASCII_LIMIT))
      == Fed([x], Reading(INITIAL))
  {
    FifteenBytes(x);
  }

  /** Any fifteen bytes after `15:` and before `,` are one request. */
  lemma FifteenBytes(x: seq<byte>)
    requires |x| == 15
    ensures Feed(INITIAL, NarrowEncode("15:", US_ASCII_LIMIT) + x + NarrowEncode(",", US_ASCII_LIMIT))
      == Fed([x], Reading(INITIAL))
  {
    FixtureLength();
    assert FrameBytes(x) + [] == FrameBytes(x);
    FrameThen(x, []);
    assert [x] + [] == [x];
  }

  lemma FixtureLength()
    ensures DigitBytes(NatToString(15)) + [COLON] == NarrowEncode("15:", US_ASCII_LIMIT)
    ensures [COMMA] == NarrowEncode(",", US_ASCII_LIMIT)
  {
    assert NatToString(15) == "15";
    assert DigitBytes("15") == [0x31, 0x35];
  }

  // ---------------------------------------------------------------------
  // One `read` call

  /** `read(ch, buffer)` of the Kotlin/JVM revision: consumes the buffer,
      handing on each completed payload, until the buffer is empty or a
      broken request throws. */
  method Read(s: State, buffer: seq<byte>) returns (requests: seq<seq<byte>>, rest: Rest)
    ensures Fed(requests, rest) == Feed(s, buffer)
  {
    var state := s;
    var i := 0;
    requests := [];
    assert buffer[0..] == buffer;
    assert [] + Feed(s, buffer).requests == Feed(s, buffer).requests;
    while i < |buffer|
      invariant i <= |buffer|
      invariant Feed(s, buffer).requests == requests + Feed(state, buffer[i..]).requests
      invariant Feed(s, buffer).rest == Feed(state, buffer[i..]).rest
      decreases |buffer| - i
    {
      var b := buffer[i];
      assert buffer[i..] == [b] + buffer[i + 1..];
      assert ([b] + buffer[i + 1..])[1..] == buffer[i + 1..];
      match StepByte(state, b)
      case Broken(reason) =>
        assert requests + [] == requests;
        return requests, Stopped(reason);
      case Next(next, request) =>
        var head: seq<seq<byte>> := if request.Some? then [request.value] else [];
        Seqs.Assoc(requests, head, Feed(next, buffer[i + 1..]).requests);
        requests := requests + head;
        state := next;
        i := i + 1;
    }
    assert buffer[i..] == [];
    assert requests + [] == requests;
    rest := Reading(state);
  }
}

/** The socketmap reader of the Java revision. It differs from the Kotlin
    reader in three ways: a broken request is answered but reading goes on
    (with the bad digit still added into the length), the payload is kept
    as characters, one `(char) c` per byte, and the pending text is emptied
    at the colon instead of at the comma. */
module SocketmapReaderJava {
  import opened Wrappers
  import opened Jvm
  import Seqs
  import R = SocketmapReader

  datatype State = State(phase: R.Phase, length: int, pending: string)

  const INITIAL: State := State(R.Length, 0, "")

  /** What the reader does besides changing state. */
  datatype Event =
    | Dispatch(request: string)   // `handleRequest(ch, pendingRead.toString())`
    | Rejected(reason: string)    // `writeBrokenRequestErrorAndClose(ch, reason)`

  function StepByte(s: State, b: byte): (r: (State, Option<Event>))
    ensures r.1.Some? && r.1.value.Dispatch? <==> s.phase == R.Terminator && b == R.COMMA
    ensures r.1.Some? && r.1.value.Dispatch? ==> r.1.value.request == s.pending
    ensures r.1.Some? && r.1.value.Rejected?
      <==> (|| (s.phase == R.Length && b != R.COLON && !(0 <= R.Digit(b) <= 9))
            || (s.phase == R.Terminator && b != R.COMMA))
    // a bad digit still counts
    ensures s.phase == R.Length && b != R.COLON ==> r.0 == s.(length := WrapLong(s.length * 10 + R.Digit(b)))
  {
    match s.phase
    case Length =>
      if b == R.COLON then (State(R.Value, s.length, ""), None)
      else
        var event := if R.Digit(b) < 0 || R.Digit(b) > 9 then Some(Rejected(R.EXPECTED_DIGIT + [WidenSigned(b)])) else None;
        (s.(length := WrapLong(s.length * 10 + R.Digit(b))), event)
    case Value =>
      var pending := if |s.pending| < s.length then s.pending + [WidenSigned(b)] else s.pending;
      (State(if |pending| >= s.length then R.Terminator else R.Value, s.length, pending), None)
    case Terminator =>
      if b == R.COMMA then (State(R.Length, 0, s.pending), Some(Dispatch(s.pending)))
      else (s, Some(Rejected(R.EXPECTED_COMMA + [WidenSigned(b)])))
  }

  /** The state after `bs`, and the events on the way. */
  function Feed(s: State, bs: seq<byte>): (State, seq<Event>)
    decreases |bs|
  {
    if |bs| == 0 then (s, [])
    else
      var (next, event) := StepByte(s, bs[0]);
      var (last, events) := Feed(next, bs[1..]);
      (last, (if event.Some? then [event.value] else []) + events)
  }

  /** `read(ch, buffer)`: consumes every byte and returns how many. */
  method Read(s: State, buffer: seq<byte>) returns (after: State, events: seq<Event>, bytesRead: nat)
    ensures (after, events) == Feed(s, buffer)
    ensures bytesRead == |buffer|
  {
    after, events, bytesRead := s, [], 0;
    assert buffer[0..] == buffer;
    assert [] + Feed(s, buffer).1 == Feed(s, buffer).1;
    while bytesRead < |buffer|
      invariant bytesRead <= |buffer|
      invariant Feed(s, buffer).0 == Feed(after, buffer[bytesRead..]).0
      invariant Feed(s, buffer).1 == events + Feed(after, buffer[bytesRead..]).1
      decreases |buffer| - bytesRead
    {
      var c := buffer[bytesRead];
      assert buffer[bytesRead..] == [c] + buffer[bytesRead + 1..];
      assert ([c] + buffer[bytesRead + 1..])[1..] == buffer[bytesRead + 1..];
      var (next, event) := StepByte(after, c);
      var head: seq<Event> := if event.Some? then [event.value] else [];
      Seqs.Assoc(events, head, Feed(next, buffer[bytesRead + 1..]).1);
      events := events + head;
      after := next;
      bytesRead := bytesRead + 1;
    }
    assert buffer[bytesRead..] == [];
    assert events + [] == events;
  }

  // ---------------------------------------------------------------------
  // Agreement with the Kotlin reader

  /** A Java state mirrors a Kotlin state: same phase and length, and,
      past the colon, the same payload read byte by byte as characters. */
  predicate Mirrors(k: R.State, j: State) {
    && j.phase == k.phase
    && j.length == k.length
    && (k.phase == R.Length ==> k.pending == [])
    && (k.phase != R.Length ==> j.pending == Widen(k.pending))
  }

  function Dispatches(requests: seq<seq<byte>>): (r: seq<Event>)
    ensures |r| == |requests|
  {
    if |requests| == 0 then [] else [Dispatch(Widen(requests[0]))] + Dispatches(requests[1..])
  }

  lemma WidenSnoc(p: seq<byte>, b: byte)
    ensures Widen(p + [b]) == Widen(p) + [WidenSigned(b)]
  {
    assert forall i :: 0 <= i < |p| ==> (p + [b])[i] == p[i];
  }

  /** One byte keeps the mirror, and emits the Kotlin reader's payload. */
  lemma StepMirrors(k: R.State, j: State, b: byte)
    requires Mirrors(k, j)
    requires R.StepByte(k, b).Next?
    ensures Mirrors(R.StepByte(k, b).state, StepByte(j, b).0)
    ensures StepByte(j, b).1 == (if R.StepByte(k, b).request.Some?
                                 then Some(Dispatch(Widen(R.StepByte(k, b).request.value))) else None)
  {
    if k.phase == R.Value && |k.pending| < k.length {
      WidenSnoc(k.pending, b);
    }
  }

  /** On every input the Kotlin reader accepts, the Java reader hands on the
      same requests, each read byte by byte as characters where the Kotlin
      reader decodes UTF-8, and ends in a mirroring state. */
  lemma {:induction false} FeedMirrors(k: R.State, j: State, bs: seq<byte>)
    requires Mirrors(k, j)
    requires R.Feed(k, bs).rest.Reading?
    ensures Mirrors(R.Feed(k, bs).rest.state, Feed(j, bs).0)
    ensures Feed(j, bs).1 == Dispatches(R.Feed(k, bs).requests)
    decreases |bs|
  {
    if |bs| > 0 {
      var b := bs[0];
      StepMirrors(k, j, b);
      var kn := R.StepByte(k, b).state;
      var (jn, event) := StepByte(j, b);
      FeedMirrors(kn, jn, bs[1..]);
      var request := R.StepByte(k, b).request;
      var tail := R.Feed(kn, bs[1..]).requests;
      if request.Some? {
        assert ([request.value] + tail)[1..] == tail;
      } else {
        assert [] + tail == tail;
        assert [] + Feed(jn, bs[1..]).1 == Feed(jn, bs[1..]).1;
      }
    }
  }

  /** Where the two readers part: after a bad digit the Kotlin reader stops,
      while the Java reader answers, adds the digit anyway (`'/'` counts as
      -1) and goes on, here to hand on an empty request. */
  lemma BadDigitDiverges()
    ensures R.Feed(R.INITIAL, [0x2F, R.COLON, 0x78, R.COMMA]).rest.Stopped?
    ensures Feed(INITIAL, [0x2F, R.COLON, 0x78, R.COMMA]).1
      == [Rejected(R.EXPECTED_DIGIT + "/"), Dispatch("")]
  {
    var none: seq<Event> := [];
    var counted := State(R.Length, -1, "");
    var value := State(R.Value, -1, "");
    var terminator := State(R.Terminator, -1, "");
    assert WidenSigned(0x2F) == '/';
    assert StepByte(INITIAL, 0x2F) == (counted, Some(Rejected(R.EXPECTED_DIGIT + "/")));
    assert StepByte(counted, R.COLON) == (value, None);
    assert StepByte(value, 0x78) == (terminator, None);
    assert StepByte(terminator, R.COMMA) == (State(R.Length, 0, ""), Some(Dispatch("")));
    assert Feed(terminator, [R.COMMA]).1 == [Dispatch("")] by {
      assert [R.COMMA][1..] == [];
      assert [Dispatch("")] + none == [Dispatch("")];
    }
    assert Feed(value, [0x78, R.COMMA]).1 == [Dispatch("")] by {
      assert [0x78, R.COMMA][1..] == [R.COMMA];
      assert none + [Dispatch("")] == [Dispatch("")];
    }
    assert Feed(counted, [R.COLON, 0x78, R.COMMA]).1 == [Dispatch("")] by {
      assert [R.COLON, 0x78, R.COMMA][1..] == [0x78, R.COMMA];
      assert none + [Dispatch("")] == [Dispatch("")];
    }
    assert [0x2F, R.COLON, 0x78, R.COMMA][1..] == [R.COLON, 0x78, R.COMMA];
  }
}
