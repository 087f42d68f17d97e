/** The policy connection reader (`PolicyConnectionState.read`) of every
    revision: a byte-at-a-time state machine over Postfix's policy
    delegation requests, which are lines `name=value` ended by an empty
    line. A name ends at the first `=`, a value at the end of its line, and
    a line end where a name is being read hands the pairs collected so far
    to the request handler. */
module PolicyReader {
  import opened Wrappers
  import opened Jvm
  import Utf8
  import Seqs

  /** `LINE_END_CHAR_CODE` and `VALUE_SEPARATOR_CHAR_CODE`. */
  const LINE_END: byte := 0x0A
  const VALUE_SEPARATOR: byte := 0x3D

  /** How collected bytes become text: the multiplatform revision reads its
      buffer as UTF-8 with kotlinx-io's `Buffer.readString`, given here as
      the function `decode`; the JVM revisions append one sign-extended
      `char` per byte to a `StringBuilder`. */
  datatype Decoding = Utf8Text(decode: seq<byte> -> string) | WidenedBytes

  /** What the model takes for granted of `readString`: it reads back the
      UTF-8 encoding of any text. What it makes of ill-formed bytes is the
      library's own affair and left open. */
  ghost predicate ReadsUtf8(d: Decoding) {
    d.Utf8Text? ==> forall s: string :: d.decode(Utf8.Encode(s)) == s
  }

  function DecodeText(bs: seq<byte>, d: Decoding): string {
    match d
    case Utf8Text(decode) => decode(bs)
    case WidenedBytes => Widen(bs)
  }

  /** The request's attributes, in the order they arrived. */
  type Params = seq<(string, string)>

  /** `ReadState`: reading a name, or a value. */
  datatype Phase = Name | Value

  /** The reader's fields: the phase, `pendingPairName`, `pendingRead` and
      `pendingRequest`. */
  datatype State = State(phase: Phase, name: string, pending: seq<byte>, pairs: Params)

  const INITIAL: State := State(Name, "", [], [])

  /** What one byte does: the next state, and the request it completes. */
  datatype Step = Step(state: State, request: Option<Params>)

  function StepByte(s: State, b: byte, d: Decoding): (r: Step)
    // a request is handed on exactly at a line end while reading a name,
    // and it holds every pair collected since the previous one
    ensures r.request.Some? <==> s.phase == Name && b == LINE_END
    ensures r.request.Some? ==> r.request.value == s.pairs && r.state.pairs == []
    // otherwise no pair is ever lost
    ensures r.request.None? ==> s.pairs <= r.state.pairs
  {
    match s.phase
    case Name =>
      if b == LINE_END then Step(s.(pairs := []), Some(s.pairs))
      else if b == VALUE_SEPARATOR then Step(State(Value, DecodeText(s.pending, d), [], s.pairs), None)
      else Step(s.(pending := s.pending + [b]), None)
    case Value =>
      if b == LINE_END then Step(State(Name, s.name, [], s.pairs + [(s.name, DecodeText(s.pending, d))]), None)
      else Step(s.(pending := s.pending + [b]), None)
  }

  /** The requests handed on, in order, and the state after the bytes. */
  datatype Fed = Fed(state: State, requests: seq<Params>)

  function Feed(s: State, bs: seq<byte>, d: Decoding): Fed
    decreases |bs|
  {
    if |bs| == 0 then Fed(s, [])
    else
      var step := StepByte(s, bs[0], d);
      var f := Feed(step.state, bs[1..], d);
      Fed(f.state, (if step.request.Some? then [step.request.value] else []) + f.requests)
  }

  /** Feeding more bytes to a reader. */
  function Continue(f: Fed, bs: seq<byte>, d: Decoding): Fed {
    var g := Feed(f.state, bs, d);
    Fed(g.state, f.requests + g.requests)
  }

  /** Feeding a single byte is one step. */
  lemma FeedOne(s: State, b: byte, d: Decoding)
    ensures var step := StepByte(s, b, d);
      Feed(s, [b], d) == Fed(step.state, if step.request.Some? then [step.request.value] else [])
  {
    var step := StepByte(s, b, d);
    assert [b][1..] == [];
    var head: seq<Params> := if step.request.Some? then [step.request.value] else [];
    assert head + [] == head;
  }

  // ---------------------------------------------------------------------
  // Chunk independence

  /** Two reads in a row do what one read of both chunks does, whatever the
      split. */
  lemma {:induction false} FeedAppend(s: State, a: seq<byte>, b: seq<byte>, d: Decoding)
    ensures Feed(s, a + b, d) == Continue(Feed(s, a, d), b, d)
    decreases |a|
  {
    if |a| == 0 {
      assert a + b == b;
      assert [] + Feed(s, b, d).requests == Feed(s, b, d).requests;
    } else {
      assert (a + b)[0] == a[0];
      assert (a + b)[1..] == a[1..] + b;
      var step := StepByte(s, a[0], d);
      FeedAppend(step.state, a[1..], b, d);
      var head: seq<Params> := if step.request.Some? then [step.request.value] else [];
      var f := Feed(step.state, a[1..], d);
      Seqs.Assoc(head, f.requests, Feed(f.state, b, d).requests);
    }
  }

  // ---------------------------------------------------------------------
  // A request as Postfix sends it is read as its attributes

  /** A name holds neither a line end nor `=`; a value no line end. */
  predicate IsName(n: seq<byte>) {
    forall i :: 0 <= i < |n| ==> n[i] != LINE_END && n[i] != VALUE_SEPARATOR
  }

  predicate IsValue(v: seq<byte>) {
    forall i :: 0 <= i < |v| ==> v[i] != LINE_END
  }

  predicate WellFormed(ps: seq<(seq<byte>, seq<byte>)>) {
    forall i :: 0 <= i < |ps| ==> IsName(ps[i].0) && IsValue(ps[i].1)
  }

  /** One attribute line, `name=value\n`. */
  function Attribute(n: seq<byte>, v: seq<byte>): seq<byte> {
    n + [VALUE_SEPARATOR] + v + [LINE_END]
  }

  function Attributes(ps: seq<(seq<byte>, seq<byte>)>): seq<byte> {
    if |ps| == 0 then [] else Attribute(ps[0].0, ps[0].1) + Attributes(ps[1..])
  }

  /** A whole request: its attribute lines and an empty line. */
  function Request(ps: seq<(seq<byte>, seq<byte>)>): seq<byte> {
    Attributes(ps) + [LINE_END]
  }

  /** Several requests one after the other on a connection. */
  function Requests(rs: seq<seq<(seq<byte>, seq<byte>)>>): seq<byte> {
    if |rs| == 0 then [] else Request(rs[0]) + Requests(rs[1..])
  }

  function DecodedPairs(ps: seq<(seq<byte>, seq<byte>)>, d: Decoding): (r: Params)
    ensures |r| == |ps|
  {
    if |ps| == 0 then [] else [(DecodeText(ps[0].0, d), DecodeText(ps[0].1, d))] + DecodedPairs(ps[1..], d)
  }

  function DecodedRequests(rs: seq<seq<(seq<byte>, seq<byte>)>>, d: Decoding): (r: seq<Params>)
    ensures |r| == |rs|
  {
    if |rs| == 0 then [] else [DecodedPairs(rs[0], d)] + DecodedRequests(rs[1..], d)
  }

  /** Bytes without a line end (and without `=` while reading a name) are
      only collected. */
  lemma {:induction false} FeedCollects(s: State, bs: seq<byte>, d: Decoding)
    requires forall i :: 0 <= i < |bs| ==> bs[i] != LINE_END
    requires s.phase == Name ==> forall i :: 0 <= i < |bs| ==> bs[i] != VALUE_SEPARATOR
    ensures Feed(s, bs, d) == Fed(s.(pending := s.pending + bs), [])
    decreases |bs|
  {
    if |bs| == 0 {
      assert s.pending + bs == s.pending;
    } else {
      var next := s.(pending := s.pending + [bs[0]]);
      assert StepByte(s, bs[0], d) == Step(next, None);
      FeedCollects(next, bs[1..], d);
      assert next.pending + bs[1..] == s.pending + bs;
    }
  }

  /** One attribute line read from the start of a line adds its pair. */
  lemma FeedAttribute(s: State, n: seq<byte>, v: seq<byte>, d: Decoding)
    requires s.phase == Name && s.pending == []
    requires IsName(n) && IsValue(v)
    ensures Feed(s, Attribute(n, v), d)
      == Fed(State(Name, DecodeText(n, d), [], s.pairs + [(DecodeText(n, d), DecodeText(v, d))]), [])
  {
    var none: seq<Params> := [];
    assert none + none == none;
    var nm := DecodeText(n, d);
    var s1 := s.(pending := n);
    FeedCollects(s, n, d);
    assert s.pending + n == n;
    var s2 := State(Value, nm, [], s.pairs);
    FeedOne(s1, VALUE_SEPARATOR, d);
    FeedAppend(s, n, [VALUE_SEPARATOR], d);
    assert Feed(s, n + [VALUE_SEPARATOR], d) == Fed(s2, none);
    var s3 := s2.(pending := v);
    FeedCollects(s2, v, d);
    assert s2.pending + v == v;
    FeedAppend(s, n + [VALUE_SEPARATOR], v, d);
    assert Feed(s, n + [VALUE_SEPARATOR] + v, d) == Fed(s3, none);
    FeedOne(s3, LINE_END, d);
    FeedAppend(s, n + [VALUE_SEPARATOR] + v, [LINE_END], d);
  }

  /** All attribute lines of a request add their pairs, in order. */
  lemma {:induction false} FeedAttributes(s: State, ps: seq<(seq<byte>, seq<byte>)>, d: Decoding)
    requires s.phase == Name && s.pending == []
    requires WellFormed(ps)
    ensures var f := Feed(s, Attributes(ps), d);
      && f.requests == []
      && f.state.phase == Name && f.state.pending == []
      && f.state.pairs == s.pairs + DecodedPairs(ps, d)
    decreases |ps|
  {
    if |ps| == 0 {
      assert s.pairs + [] == s.pairs;
    } else {
      var (n, v) := ps[0];
      FeedAttribute(s, n, v, d);
      var next := State(Name, DecodeText(n, d), [], s.pairs + [(DecodeText(n, d), DecodeText(v, d))]);
      assert WellFormed(ps[1..]) by {
        assert forall i :: 0 <= i < |ps[1..]| ==> ps[1..][i] == ps[i + 1];
      }
      FeedAttributes(next, ps[1..], d);
      FeedAppend(s, Attribute(n, v), Attributes(ps[1..]), d);
      Seqs.Assoc(s.pairs, [(DecodeText(n, d), DecodeText(v, d))], DecodedPairs(ps[1..], d));
    }
  }

  /** A whole request is handed on as its decoded attributes, after any
      pairs still pending, and the reader is left empty. */
  lemma FeedRequest(s: State, ps: seq<(seq<byte>, seq<byte>)>, d: Decoding)
    requires s.phase == Name && s.pending == []
    requires WellFormed(ps)
    ensures var f := Feed(s, Request(ps), d);
      && f.requests == [s.pairs + DecodedPairs(ps, d)]
      && f.state.phase == Name && f.state.pending == [] && f.state.pairs == []
  {
    FeedAttributes(s, ps, d);
    FeedOne(Feed(s, Attributes(ps), d).state, LINE_END, d);
    FeedAppend(s, Attributes(ps), [LINE_END], d);
  }

  /** Requests sent one after the other are handed on one by one, each as
      exactly its own attributes. */
  lemma {:induction false} FeedRequests(s: State, rs: seq<seq<(seq<byte>, seq<byte>)>>, d: Decoding)
    requires s.phase == Name && s.pending == [] && s.pairs == []
    requires forall i :: 0 <= i < |rs| ==> WellFormed(rs[i])
    ensures var f := Feed(s, Requests(rs), d);
      && f.requests == DecodedRequests(rs, d)
      && f.state.phase == Name && f.state.pending == [] && f.state.pairs == []
    decreases |rs|
  {
    if |rs| > 0 {
      FeedRequest(s, rs[0], d);
      assert [] + DecodedPairs(rs[0], d) == DecodedPairs(rs[0], d);
      var next := Feed(s, Request(rs[0]), d).state;
      FeedRequests(next, rs[1..], d);
      FeedAppend(s, Request(rs[0]), Requests(rs[1..]), d);
    }
  }

  /** The JVM revisions read every byte as the character with that value
      when it is ASCII. */
  lemma WidenAscii(bs: seq<byte>)
    requires forall i :: 0 <= i < |bs| ==> bs[i] < 0x80
    ensures forall i :: 0 <= i < |bs| ==> DecodeText(bs, WidenedBytes)[i] as int == bs[i] as int
  {
  }

  /** The multiplatform revision reads back the UTF-8 bytes of any text, and
      UTF-8 keeps line ends and `=` where the text has them. */
  lemma {:induction false} Utf8Name(n: string, d: Decoding)
    requires d.Utf8Text? && ReadsUtf8(d)
    requires forall i :: 0 <= i < |n| ==> n[i] != '\n' && n[i] != '='
    ensures IsName(Utf8.Encode(n))
    ensures DecodeText(Utf8.Encode(n), d) == n
  {
    if |n| > 0 {
      Utf8Name(n[1..], d);
      var e := Utf8.EncodeChar(n[0]);
      assert Utf8.Encode(n) == e + Utf8.Encode(n[1..]);
      assert forall i :: 0 <= i < |e| ==> e[i] != LINE_END && e[i] != VALUE_SEPARATOR by {
        if |e| == 1 {
          assert e[0] as int == n[0] as int;
        } else {
          assert e[0] >= 0x80;
        }
      }
    }
  }

  // ---------------------------------------------------------------------
  // Behaviour on particular inputs

  /** A line without `=` hands on the pairs collected so far as a request
      of its own, and its bytes stay pending: they become the front of the
      next name. */
  lemma LineWithoutSeparator(s: State, n: seq<byte>, d: Decoding)
    requires s.phase == Name && s.pending == []
    requires IsName(n)
    ensures Feed(s, n + [LINE_END], d) == Fed(s.(pending := n, pairs := []), [s.pairs])
  {
    FeedCollects(s, n, d);
    assert s.pending + n == n;
    FeedOne(s.(pending := n), LINE_END, d);
    FeedAppend(s, n, [LINE_END], d);
  }

  lemma RequestOne(n: seq<byte>, v: seq<byte>)
    ensures Request([(n, v)]) == n + [VALUE_SEPARATOR] + v + [LINE_END, LINE_END]
  {
    var ps := [(n, v)];
    assert ps[1..] == [];
    assert Attributes(ps) == Attribute(n, v) + [];
  }

  lemma RequestsTwo(r1: seq<(seq<byte>, seq<byte>)>, r2: seq<(seq<byte>, seq<byte>)>, d: Decoding)
    ensures Requests([r1, r2]) == Request(r1) + Request(r2)
    ensures DecodedRequests([r1, r2], d) == [DecodedPairs(r1, d), DecodedPairs(r2, d)]
  {
    var rs := [r1, r2];
    assert rs[1..] == [r2] && rs[1..][1..] == [];
    var none: seq<seq<(seq<byte>, seq<byte>)>> := [];
    assert Requests(none) == [];
    assert Requests([r2]) == Request(r2) + Requests(none);
    assert Requests(rs) == Request(r1) + Requests([r2]);
    assert Request(r2) + [] == Request(r2);
  }

  /** A request followed by the start of the next name: the request is
      handed on and the name's bytes wait. */
  lemma RequestThenName(ps: seq<(seq<byte>, seq<byte>)>, n: seq<byte>, d: Decoding)
    requires WellFormed(ps) && IsName(n)
    ensures Feed(INITIAL, Request(ps) + n, d).requests == [DecodedPairs(ps, d)]
  {
    FeedRequest(INITIAL, ps, d);
    var after := Feed(INITIAL, Request(ps), d);
    FeedCollects(after.state, n, d);
    FeedAppend(INITIAL, Request(ps), n, d);
    assert [] + DecodedPairs(ps, d) == DecodedPairs(ps, d);
  }

  /** Two requests with the same name, the second sent with its name
      ahead of the rest: the name's bytes wait as the front of the next
      name, and both requests are read whole. */
  lemma SplitSecondRequest(n: seq<byte>, v: seq<byte>, w: seq<byte>, d: Decoding)
    requires IsName(n) && IsValue(v) && IsValue(w)
    ensures Feed(INITIAL, Request([(n, v)]) + n, d).requests == [DecodedPairs([(n, v)], d)]
    ensures Continue(Feed(INITIAL, Request([(n, v)]) + n, d), [VALUE_SEPARATOR] + w + [LINE_END, LINE_END], d).requests
      == [DecodedPairs([(n, v)], d), DecodedPairs([(n, w)], d)]
  {
    var first := [(n, v)];
    var second := [(n, w)];
    assert WellFormed(first) && WellFormed(second);
    RequestThenName(first, n, d);
    var tail := [VALUE_SEPARATOR] + w + [LINE_END, LINE_END];
    RequestOne(n, w);
    assert Request(first) + n + tail == Request(first) + Request(second);
    RequestsTwo(first, second, d);
    FeedRequests(INITIAL, [first, second], d);
    FeedAppend(INITIAL, Request(first) + n, tail, d);
  }

  /** The fragmented request of the handler tests: `a=b\n`, then `\na`,
      then `=c\n\n` are read as the two requests `a=b` and `a=c`. */
  lemma FragmentedFixture(first: seq<byte>, second: seq<byte>, third: seq<byte>, d: Decoding)
    requires first == [0x61, 0x3D, 0x62, 0x0A]
    requires second == [0x0A, 0x61]
    requires third == [0x3D, 0x63, 0x0A, 0x0A]
    ensures Feed(INITIAL, first + second, d).requests == [DecodedPairs([([0x61], [0x62])], d)]
    ensures Continue(Feed(INITIAL, first + second, d), third, d).requests
      == [DecodedPairs([([0x61], [0x62])], d), DecodedPairs([([0x61], [0x63])], d)]
  {
    var a: seq<byte> := [0x61];
    var ab := [(a, [0x62])];
    RequestOne(a, [0x62]);
    assert first + second == Request(ab) + a;
    assert third == [VALUE_SEPARATOR] + [0x63] + [LINE_END, LINE_END];
    SplitSecondRequest(a, [0x62], [0x63], d);
  }

  /** `read(ch, buffer)` of the JVM revisions: consumes the whole buffer,
      handing on each completed request, and returns how many bytes it
      read. */
  method Read(s: State, buffer: seq<byte>, d: Decoding) returns (f: Fed, bytesRead: nat)
    ensures f == Feed(s, buffer, d)
    ensures bytesRead == |buffer|
  {
    var state := s;
    var requests: seq<Params> := [];
    bytesRead := 0;
    assert buffer[..0] == [];
    while bytesRead < |buffer|
      invariant bytesRead <= |buffer|
      invariant Feed(s, buffer[..bytesRead], d) == Fed(state, requests)
      decreases |buffer| - bytesRead
    {
      var b := buffer[bytesRead];
      var step := StepByte(state, b, d);
      FeedOne(state, b, d);
      FeedAppend(s, buffer[..bytesRead], [b], d);
      assert buffer[..bytesRead + 1] == buffer[..bytesRead] + [b];
      requests := requests + (if step.request.Some? then [step.request.value] else []);
      state := step.state;
      bytesRead := bytesRead + 1;
    }
    assert buffer[..bytesRead] == buffer;
    f := Fed(state, requests);
  }
}
