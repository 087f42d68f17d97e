/** D. J. Bernstein's netstring framing `<decimal length>:<data>,`, as the
    connector's `Netstring` object (Kotlin) and class (Java) implement it.
    Both revisions have the same logic; lengths count characters. */
module Netstring {
  import opened Wrappers
  import opened Jvm

  /** The fixed rendering of the empty string. */
  const EMPTY: string := "0:,"

  /** Reference framing of one string: its length in decimal, a colon, the
      data, a comma. */
  function Frame(s: string): string {
    NatToString(|s|) + ":" + s + ","
  }

  /** The private `compile(s, out)`: appends `EMPTY` for the empty string and
      the general framing otherwise. */
  function Chunk(s: string): (r: string)
    ensures r == Frame(s)
  {
    if |s| == 0 then EMPTY else NatToString(|s|) + ":" + s + ","
  }

  /** Reference: the in-order concatenation of every element's frame. */
  function Frames(xs: seq<string>): string {
    if |xs| == 0 then "" else Frame(xs[0]) + Frames(xs[1..])
  }

  function Chunks(xs: seq<string>): (r: string)
    ensures r == Frames(xs)
  {
    if |xs| == 0 then "" else Chunk(xs[0]) + Chunks(xs[1..])
  }

  /** `compile(strings)`: the empty list renders as the empty string, every
      other list as its frames in order. */
  function Compile(xs: seq<string>): (r: string)
    ensures r == Frames(xs)
    ensures |r| >= 3 * |xs|
  {
    FramesLength(xs);
    if |xs| == 0 then "" else Chunks(xs)
  }

  lemma {:induction false} FramesLength(xs: seq<string>)
    ensures |Frames(xs)| >= 3 * |xs|
  {
    if |xs| > 0 {
      FramesLength(xs[1..]);
    }
  }

  /** `compileOne(s)`: a single frame, `0:,` for the empty string. */
  function CompileOne(s: string): (r: string)
    ensures r == Frame(s)
    ensures |s| == 0 ==> r == "0:,"
  {
    if |s| == 0 then EMPTY else Chunk(s)
  }

  /** Why `parse` fails. All four are raised as `IOException`; the last two
      wrap the `NumberFormatException` or `IndexOutOfBoundsException` that
      caused them. */
  datatype ParseError =
    | NoColon(offset: nat)
    | NotANumber
    | WrongTerminator(offset: nat)
    | IndexOutOfRange

  predicate HasCause(e: ParseError) {
    e.NotANumber? || e.IndexOutOfRange?
  }

  /** One turn of the `parse` loop at `offset`: the payload of the frame
      that starts there and the offset just past its comma. The comma index
      is computed exactly; for Java strings (shorter than 2^31) an `int`
      overflow there only moves an out-of-range index to another out-of-range
      index, with the same outcome. */
  function NextFrame(s: string, offset: nat): (r: Result<(string, nat), ParseError>)
    requires offset < |s|
    ensures r.Ok? ==> offset < r.value.1 <= |s|
  {
    var colon := IndexOf(s, ':', offset);
    if colon == -1 then Err(NoColon(offset))
    else
      match ParseInt32(s[offset..colon])
      case None => Err(NotANumber)
      case Some(runLength) =>
        var comma := colon + 1 + runLength;
        if comma < 0 || comma >= |s| then Err(IndexOutOfRange)
        else if s[comma] != ',' then Err(WrongTerminator(offset))
        else if comma < colon + 1 then Err(IndexOutOfRange)
        else Ok((s[colon + 1..comma], comma + 1))
  }

  /** The loop of `parse` from `offset` to the end of `s`. */
  function ParseFrom(s: string, offset: nat): Result<seq<string>, ParseError>
    decreases |s| - offset
  {
    if offset >= |s| then Ok([])
    else
      match NextFrame(s, offset)
      case Err(e) => Err(e)
      case Ok((x, next)) =>
        match ParseFrom(s, next)
        case Err(e) => Err(e)
        case Ok(rest) => Ok([x] + rest)
  }

  /** `parse(s)`. */
  function Parse(s: string): Result<seq<string>, ParseError> {
    ParseFrom(s, 0)
  }

  /** Why `parseOne` fails: a `parse` failure, more than one netstring (an
      `IOException` without a cause), or none at all (the `strings[0]` index
      error, which is not an `IOException`). */
  datatype ParseOneError =
    | Malformed(cause: ParseError)
    | MultipleNetstrings
    | NoNetstring

  predicate IsIOException(e: ParseOneError) {
    !e.NoNetstring?
  }

  predicate HasCauseOne(e: ParseOneError) {
    e.Malformed? && HasCause(e.cause)
  }

  /** `parseOne(s)`. */
  function ParseOne(s: string): (r: Result<string, ParseOneError>)
    ensures r.Ok? <==> Parse(s).Ok? && |Parse(s).value| == 1
    ensures r.Ok? ==> r.value == Parse(s).value[0]
    ensures r == Err(NoNetstring) <==> Parse(s) == Ok([])
    ensures r == Err(MultipleNetstrings) <==> Parse(s).Ok? && |Parse(s).value| > 1
  {
    match Parse(s)
    case Err(e) => Err(Malformed(e))
    case Ok(strings) =>
      if |strings| > 1 then Err(MultipleNetstrings)
      else if |strings| == 0 then Err(NoNetstring)
      else Ok(strings[0])
  }

  // ---------------------------------------------------------------------
  // Round trip

  /** Every element fits a Java string, whose length is an `int`. */
  predicate JavaSized(xs: seq<string>) {
    forall i :: 0 <= i < |xs| ==> |xs[i]| <= INT_MAX
  }

  /** The colon that ends a length field is the first colon at or after the
      field's start. */
  lemma ColonAfterDigits(s: string, offset: nat, d: string, rest: string)
    requires AllDigits(d)
    requires offset <= |s| && s[offset..] == d + rest
    requires |rest| > 0 && rest[0] == ':'
    ensures IndexOf(s, ':', offset) == offset + |d|
    ensures s[offset..offset + |d|] == d
  {
    var k := offset + |d|;
    assert s[k] == s[offset..][|d|];
    forall i | offset <= i < k
      ensures s[i] != ':'
    {
      assert s[i] == s[offset..][i - offset] == d[i - offset];
    }
    assert s[offset..offset + |d|] == s[offset..][..|d|];
  }

  /** Where the payload and the comma sit after a colon at `colon`. */
  lemma PayloadAfterColon(s: string, colon: nat, x: string, tail: string)
    requires colon <= |s| && s[colon..] == ":" + x + "," + tail
    ensures colon + 1 + |x| < |s|
    ensures s[colon + 1 + |x|] == ','
    ensures s[colon + 1..colon + 1 + |x|] == x
  {
    var u := s[colon..];
    assert s[colon + 1 + |x|] == u[1 + |x|];
    forall i | 0 <= i < |x|
      ensures s[colon + 1..colon + 1 + |x|][i] == x[i]
    {
      assert s[colon + 1 + i] == u[1 + i];
    }
  }

  /** The frame a well-formed length field announces. */
  lemma NextFrameAt(s: string, offset: nat, colon: nat, field: string, n: nat, x: string)
    requires offset < |s|
    requires IndexOf(s, ':', offset) == colon
    requires 0 <= offset <= colon
    requires s[offset..colon] == field && ParseInt32(field) == Some(n)
    requires 0 <= n && colon + 1 + n < |s| && s[colon + 1 + n] == ','
    requires s[colon + 1..colon + 1 + n] == x
    ensures NextFrame(s, offset) == Ok((x, colon + 1 + n + 1))
  {
  }

  /** Where the length field, colon, payload and comma sit in text laid out
      as `<digits>:<x>,<tail>`. */
  lemma FieldLayout(s: string, offset: nat, d: string, x: string, tail: string)
    requires AllDigits(d)
    requires offset <= |s| && s[offset..] == d + (":" + x + "," + tail)
    ensures var colon := offset + |d|;
      && IndexOf(s, ':', offset) == colon
      && s[offset..colon] == d
      && colon + 1 + |x| < |s|
      && s[colon + 1 + |x|] == ','
      && s[colon + 1..colon + 1 + |x|] == x
  {
    var colon := offset + |d|;
    var rest := ":" + x + "," + tail;
    ColonAfterDigits(s, offset, d, rest);
    assert s[colon..] == rest by {
      assert s[colon..] == s[offset..][|d|..];
    }
    PayloadAfterColon(s, colon, x, tail);
  }

  /** A length field that parses to the payload's length, then the colon,
      payload and comma: one turn of the `parse` loop reads the payload. */
  lemma NextFrameOfField(s: string, offset: nat, d: string, n: nat, x: string, tail: string)
    requires AllDigits(d) && ParseInt32(d) == Some(n) && n == |x|
    requires offset <= |s| && s[offset..] == d + (":" + x + "," + tail)
    ensures offset < |s|
    ensures NextFrame(s, offset) == Ok((x, offset + |d| + 1 + n + 1))
  {
    FieldLayout(s, offset, d, x, tail);
    NextFrameAt(s, offset, offset + |d|, d, n, x);
  }

  /** A frame at `offset` is read back whole, and reading resumes right
      after it. */
  lemma NextFrameOfFrame(s: string, offset: nat, x: string, tail: string)
    requires |x| <= INT_MAX
    requires offset <= |s| && s[offset..] == Frame(x) + tail
    ensures offset < |s|
    ensures NextFrame(s, offset) == Ok((x, offset + |Frame(x)|))
  {
    var d := NatToString(|x|);
    assert s[offset..] == d + (":" + x + "," + tail) by {
      assert Frame(x) + tail == d + (":" + x + "," + tail);
    }
    ParseRendered(|x|);
    NextFrameOfField(s, offset, d, |x|, x, tail);
  }

  /** A frame followed by a successfully parsed remainder parses to the
      frame's payload in front of that remainder. */
  lemma ParseFromCons(s: string, offset: nat, x: string, next: nat, rest: seq<string>)
    requires offset < |s|
    requires NextFrame(s, offset) == Ok((x, next))
    requires ParseFrom(s, next) == Ok(rest)
    ensures ParseFrom(s, offset) == Ok([x] + rest)
  {
  }

  /** A frame in front of a parsable remainder: the step of the round trip. */
  lemma ParseFrameThen(s: string, offset: nat, x: string, tail: string, next: nat, rest: seq<string>)
    requires |x| <= INT_MAX
    requires offset <= |s| && s[offset..] == Frame(x) + tail
    requires next == offset + |Frame(x)|
    requires ParseFrom(s, next) == Ok(rest)
    ensures ParseFrom(s, offset) == Ok([x] + rest)
  {
    NextFrameOfFrame(s, offset, x, tail);
    ParseFromCons(s, offset, x, next, rest);
  }

  lemma {:induction false} ParseFrames(s: string, offset: nat, xs: seq<string>)
    requires JavaSized(xs)
    requires offset <= |s| && s[offset..] == Frames(xs)
    ensures ParseFrom(s, offset) == Ok(xs)
    decreases |xs|
  {
    if |xs| > 0 {
      var x, tail := xs[0], Frames(xs[1..]);
      var next := offset + |Frame(x)|;
      assert s[offset..] == Frame(x) + tail;
      assert s[next..] == tail by {
        assert s[next..] == s[offset..][|Frame(x)|..];
      }
      assert JavaSized(xs[1..]) by {
        forall i | 0 <= i < |xs[1..]|
          ensures |xs[1..][i]| <= INT_MAX
        {
          assert xs[1..][i] == xs[i + 1];
        }
      }
      ParseFrames(s, next, xs[1..]);
      ParseFrameThen(s, offset, x, tail, next, xs[1..]);
      assert [x] + xs[1..] == xs;
    }
  }

  /** `parse(compile(xs)) == xs` for every list. */
  lemma ParseCompile(xs: seq<string>)
    requires JavaSized(xs)
    ensures Parse(Compile(xs)) == Ok(xs)
  {
    ParseFrames(Compile(xs), 0, xs);
  }

  /** `parseOne(compileOne(s)) == s`, the empty string included. */
  lemma ParseOneCompileOne(s: string)
    requires |s| <= INT_MAX
    ensures ParseOne(CompileOne(s)) == Ok(s)
  {
    assert CompileOne(s) == Frames([s]);
    ParseFrames(CompileOne(s), 0, [s]);
  }

  // ---------------------------------------------------------------------
  // Behaviour on particular inputs

  /** `compile` of the empty list is the empty string, while `compileOne` of
      the empty string is `0:,`. */
  lemma CompileEmptyFixtures()
    ensures Compile([]) == ""
    ensures Compile([""]) == "0:,"
    ensures CompileOne("") == "0:,"
  {
  }

  /** `compile(["a", "bc"]) == "1:a,2:bc,"`, which parses back. */
  lemma CompileFixture()
    ensures Compile(["a", "bc"]) == "1:a,2:bc,"
    ensures Parse("1:a,2:bc,") == Ok(["a", "bc"])
  {
    var xs := ["a", "bc"];
    assert Frame("a") == "1:a," by {
      assert NatToString(1) == "1";
    }
    assert Frame("bc") == "2:bc," by {
      assert NatToString(2) == "2";
    }
    assert Frames(xs) == "1:a,2:bc," by {
      assert Frames(xs) == Frame("a") + Frames(xs[1..]);
      assert xs[1..] == ["bc"];
      assert Frames(["bc"]) == Frame("bc") + Frames([]);
    }
    ParseCompile(xs);
  }

  /** The empty input parses to the empty list: the loop never runs. */
  lemma ParseEmpty()
    ensures Parse("") == Ok([])
    ensures ParseOne("") == Err(NoNetstring)
    ensures !IsIOException(NoNetstring)
  {
  }

  /** Two netstrings make `parseOne` fail with an `IOException` that has no
      cause. */
  lemma ParseOneOfTwo()
    ensures ParseOne("1:a,2:bc,") == Err(MultipleNetstrings)
    ensures IsIOException(MultipleNetstrings) && !HasCauseOne(MultipleNetstrings)
  {
    CompileFixture();
  }

  /** Input left over without a colon is rejected at its offset. */
  lemma MissingColonFails(s: string, offset: nat)
    requires offset < |s|
    requires forall i :: offset <= i < |s| ==> s[i] != ':'
    ensures ParseFrom(s, offset) == Err(NoColon(offset))
  {
  }

  /** A length field that is not an integer fails with a cause. */
  lemma NotANumberFixture()
    ensures Parse("x:a,") == Err(NotANumber)
    ensures Parse(":a,") == Err(NotANumber)
    ensures HasCause(NotANumber)
  {
    assert IndexOf("x:a,", ':', 0) == 1;
    assert "x:a,"[0..1] == "x";
    assert IndexOf(":a,", ':', 0) == 0;
  }

  /** A payload longer than announced is caught at the terminator. */
  lemma WrongTerminatorFixture()
    ensures Parse("1:ab,") == Err(WrongTerminator(0))
    ensures !HasCause(WrongTerminator(0))
  {
    var s := "1:ab,";
    assert IndexOf(s, ':', 0) == 1;
    assert s[0..1] == "1";
    assert ParseInt32("1") == Some(1) by {
      ParseRendered(1);
      assert NatToString(1) == "1";
    }
  }

  /** A length reaching past the end fails with an index error as cause. */
  lemma OutOfRangeFixture()
    ensures Parse("5:a,") == Err(IndexOutOfRange)
    ensures Parse("abc") == Err(NoColon(0))
  {
    var s := "5:a,";
    assert IndexOf(s, ':', 0) == 1;
    assert s[0..1] == "5";
    assert ParseInt32("5") == Some(5) by {
      ParseRendered(5);
      assert NatToString(5) == "5";
    }
    MissingColonFails("abc", 0);
  }

  /** `Integer.parseInt` accepts a sign and leading zeros, so `parse` takes
      length fields that `compile` never writes. */
  lemma LenientLengthField()
    ensures Parse("+1:a,") == Ok(["a"])
    ensures Parse("01:a,") == Ok(["a"])
  {
    assert Parse("+1:a,") == Ok(["a"]) by {
      assert ParseInt32("+1") == Some(1) by {
        assert "+1"[1..] == "1";
        assert DecimalValue("1") == 1;
      }
      SingleFrame("+1:a,", "+1", 1, "a");
    }
    assert Parse("01:a,") == Ok(["a"]) by {
      assert ParseInt32("01") == Some(1) by {
        assert "01"[..1] == "0";
        assert DecimalValue("01") == 1;
      }
      SingleFrame("01:a,", "01", 1, "a");
    }
  }

  /** A negative zero announces an empty payload. */
  lemma NegativeZeroLength()
    ensures Parse("-0:,") == Ok([""])
  {
    assert ParseInt32("-0") == Some(0) by {
      assert "-0"[1..] == "0";
      assert DecimalValue("0") == 0;
    }
    SingleFrame("-0:,", "-0", 0, "");
  }

  /** A string made of one length field, colon, payload and comma. */
  lemma SingleFrame(s: string, field: string, n: nat, x: string)
    requires s == field + ":" + x + ","
    requires ParseInt32(field) == Some(n) && n == |x|
    requires forall i :: 0 <= i < |field| ==> field[i] != ':'
    ensures Parse(s) == Ok([x])
  {
    var colon := |field|;
    assert s[colon] == ':';
    assert IndexOf(s, ':', 0) == colon by {
      forall i | 0 <= i < colon
        ensures s[i] != ':'
      {
        assert s[i] == field[i];
      }
    }
    assert s[0..colon] == field;
    assert s[colon + 1..colon + 1 + n] == x;
    NextFrameAt(s, 0, colon, field, n, x);
    assert ParseFrom(s, |s|) == Ok([]);
    ParseFromCons(s, 0, x, |s|, []);
    assert [x] + [] == [x];
  }
}
