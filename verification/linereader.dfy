/** The tcp-lookup connection reader (`TcpConnectionState.read` in every
    revision): bytes accumulate until a `\n`, which hands the bytes before
    it to the request handler and empties the buffer. The state is the
    pending buffer, kept between reads, so a request may arrive in any
    number of pieces. */
module LineReader {
  import opened Wrappers
  import opened Jvm
  import Seqs

  /** `TcpLookup.END_CHAR_CODE`, the request terminator `\n`. */
  const END: byte := 0x0A

  /** What one byte does: the buffer after it, and the line it completes,
      if any. */
  function Step(pending: seq<byte>, b: byte): (seq<byte>, Option<seq<byte>>) {
    if b == END then ([], Some(pending)) else (pending + [b], None)
  }

  /** The buffer and the lines dispatched, in order, after feeding `bs`. */
  function Feed(pending: seq<byte>, bs: seq<byte>): (r: (seq<byte>, seq<seq<byte>>))
    decreases |bs|
  {
    if |bs| == 0 then (pending, [])
    else
      var (next, line) := Step(pending, bs[0]);
      var (rest, lines) := Feed(next, bs[1..]);
      (rest, (if line.Some? then [line.value] else []) + lines)
  }

  // ---------------------------------------------------------------------
  // Reference reading: split at every terminator

  predicate NoEnd(bs: seq<byte>) {
    forall i :: 0 <= i < |bs| ==> bs[i] != END
  }

  /** The complete lines of `bs`, and the unterminated tail. */
  function Lines(bs: seq<byte>): (r: (seq<seq<byte>>, seq<byte>))
    ensures NoEnd(r.1)
    decreases |bs|
  {
    if |bs| == 0 then ([], [])
    else if bs[0] == END then
      var (ls, tail) := Lines(bs[1..]);
      ([[]] + ls, tail)
    else
      var (ls, tail) := Lines(bs[1..]);
      if |ls| == 0 then ([], [bs[0]] + tail)
      else ([[bs[0]] + ls[0]] + ls[1..], tail)
  }

  /** Writes lines back: each followed by its terminator. */
  function Unlines(ls: seq<seq<byte>>): seq<byte> {
    if |ls| == 0 then [] else ls[0] + [END] + Unlines(ls[1..])
  }

  /** Feeding bytes into a buffer gives exactly the lines of the buffered
      bytes followed by the new ones, and keeps their unterminated tail: the
      result depends only on the concatenation, never on where a read
      ended. */
  lemma {:induction false} FeedIsLines(pending: seq<byte>, bs: seq<byte>)
    requires NoEnd(pending)
    ensures Feed(pending, bs) == (Lines(pending + bs).1, Lines(pending + bs).0)
    decreases |bs|
  {
    if |bs| > 0 {
      var (next, line) := Step(pending, bs[0]);
      FeedIsLines(next, bs[1..]);
      if bs[0] == END {
        assert [] + bs[1..] == bs[1..];
        Seqs.HeadTail(bs);
        LinesAfterEnd(pending, bs[1..]);
      } else {
        assert Feed(pending, bs) == Feed(next, bs[1..]) by {
          var (r, ls) := Feed(next, bs[1..]);
          assert [] + ls == ls;
        }
        assert next + bs[1..] == pending + bs by {
          Seqs.Assoc(pending, [bs[0]], bs[1..]);
          Seqs.HeadTail(bs);
        }
      }
    } else {
      assert pending + bs == pending;
      LinesOfUnterminated(pending);
    }
  }

  /** A terminator right after buffered bytes completes them as one line. */
  lemma {:induction false} LinesAfterEnd(pending: seq<byte>, rest: seq<byte>)
    requires NoEnd(pending)
    ensures Lines(pending + ([END] + rest)) == ([pending] + Lines(rest).0, Lines(rest).1)
    decreases |pending|
  {
    if |pending| == 0 {
      assert pending + ([END] + rest) == [END] + rest;
      assert ([END] + rest)[1..] == rest;
    } else {
      var s := pending + ([END] + rest);
      assert s[0] == pending[0];
      assert s[1..] == pending[1..] + ([END] + rest);
      LinesAfterEnd(pending[1..], rest);
      Seqs.HeadTail(pending);
    }
  }

  /** Bytes without a terminator form no line. */
  lemma {:induction false} LinesOfUnterminated(bs: seq<byte>)
    requires NoEnd(bs)
    ensures Lines(bs) == ([], bs)
    decreases |bs|
  {
    if |bs| > 0 {
      LinesOfUnterminated(bs[1..]);
      Seqs.HeadTail(bs);
    }
  }

  // ---------------------------------------------------------------------
  // Chunk independence

  /** Feeding `a` and then `b` into the buffer left by `a` dispatches what
      feeding `a + b` at once dispatches, and leaves the same buffer. */
  lemma {:induction false} FeedAppend(pending: seq<byte>, a: seq<byte>, b: seq<byte>)
    ensures var (p1, l1) := Feed(pending, a);
      var (p2, l2) := Feed(p1, b);
      Feed(pending, a + b) == (p2, l1 + l2)
    decreases |a|
  {
    if |a| == 0 {
      assert a + b == b;
      assert [] + Feed(pending, b).1 == Feed(pending, b).1;
    } else {
      var (next, line) := Step(pending, a[0]);
      assert (a + b)[0] == a[0];
      assert (a + b)[1..] == a[1..] + b;
      FeedAppend(next, a[1..], b);
      var (p1, l1) := Feed(next, a[1..]);
      var (p2, l2) := Feed(p1, b);
      var head: seq<seq<byte>> := if line.Some? then [line.value] else [];
      Seqs.Assoc(head, l1, l2);
    }
  }

  // ---------------------------------------------------------------------
  // The reference reading is exact

  /** Splitting loses nothing: the lines, each given back its terminator,
      followed by the tail, are the input. */
  lemma {:induction false} UnlinesLines(bs: seq<byte>)
    ensures Unlines(Lines(bs).0) + Lines(bs).1 == bs
    ensures forall i :: 0 <= i < |Lines(bs).0| ==> NoEnd(Lines(bs).0[i])
    decreases |bs|
  {
    if |bs| > 0 {
      UnlinesLines(bs[1..]);
      var (ls, tail) := Lines(bs[1..]);
      if bs[0] == END {
        assert Lines(bs).0 == [[]] + ls;
        assert ([[]] + ls)[1..] == ls;
        assert Unlines([[]] + ls) == [END] + Unlines(ls);
        Seqs.Assoc([END], Unlines(ls), tail);
        Seqs.HeadTail(bs);
      } else if |ls| == 0 {
        Seqs.HeadTail(bs);
      } else {
        var first := [bs[0]] + ls[0];
        assert Lines(bs).0 == [first] + ls[1..];
        assert ([first] + ls[1..])[1..] == ls[1..];
        assert Unlines(ls) == ls[0] + [END] + Unlines(ls[1..]);
        calc {
          Unlines([first] + ls[1..]) + tail;
          first + [END] + Unlines(ls[1..]) + tail;
          [bs[0]] + (ls[0] + [END] + Unlines(ls[1..]) + tail);
          [bs[0]] + (Unlines(ls) + tail);
          { Seqs.HeadTail(bs); }
          bs;
        }
        forall i | 0 <= i < |Lines(bs).0|
          ensures NoEnd(Lines(bs).0[i])
        {
          if i > 0 {
            assert Lines(bs).0[i] == ls[i];
          }
        }
      }
    }
  }

  /** Lines free of terminators, written back with their terminators and
      followed by a terminator-free tail, read back as themselves. */
  lemma {:induction false} LinesUnlines(ls: seq<seq<byte>>, tail: seq<byte>)
    requires forall i :: 0 <= i < |ls| ==> NoEnd(ls[i])
    requires NoEnd(tail)
    ensures Lines(Unlines(ls) + tail) == (ls, tail)
    decreases |ls|
  {
    if |ls| == 0 {
      assert Unlines(ls) + tail == tail;
      LinesOfUnterminated(tail);
    } else {
      LinesUnlines(ls[1..], tail);
      var rest := Unlines(ls[1..]) + tail;
      assert Unlines(ls) + tail == ls[0] + ([END] + rest) by {
        Seqs.Assoc(ls[0] + [END], Unlines(ls[1..]), tail);
        Seqs.Assoc(ls[0], [END], rest);
      }
      LinesAfterEnd(ls[0], rest);
      Seqs.HeadTail(ls);
    }
  }

  /** A fresh connection fed whole lines dispatches exactly those lines, in
      order, and ends with an empty buffer. */
  lemma FeedUnlines(ls: seq<seq<byte>>)
    requires forall i :: 0 <= i < |ls| ==> NoEnd(ls[i])
    ensures Feed([], Unlines(ls)) == ([], ls)
  {
    FeedIsLines([], Unlines(ls));
    assert [] + Unlines(ls) == Unlines(ls) + [];
    LinesUnlines(ls, []);
  }

  // ---------------------------------------------------------------------
  // One `read` call

  /** `read(ch, buffer)` of the JVM revisions: consumes every remaining byte
      of the buffer, dispatching a line at each terminator, and returns the
      number of bytes consumed. */
  method Read(pending: seq<byte>, buffer: seq<byte>) returns (after: seq<byte>, lines: seq<seq<byte>>, bytesRead: nat)
    ensures (after, lines) == Feed(pending, buffer)
    ensures bytesRead == |buffer|
  {
    after, lines, bytesRead := pending, [], 0;
    assert buffer[0..] == buffer;
    assert [] + Feed(pending, buffer).1 == Feed(pending, buffer).1;
    while bytesRead < |buffer|
      invariant bytesRead <= |buffer|
      invariant Feed(pending, buffer).0 == Feed(after, buffer[bytesRead..]).0
      invariant Feed(pending, buffer).1 == lines + Feed(after, buffer[bytesRead..]).1
      decreases |buffer| - bytesRead
    {
      var c := buffer[bytesRead];
      ghost var rest := buffer[bytesRead + 1..];
      assert buffer[bytesRead..] == [c] + rest;
      assert ([c] + rest)[1..] == rest;
      if c == END {
        assert Feed(after, [c] + rest).1 == [after] + Feed([], rest).1;
        Seqs.Assoc(lines, [after], Feed([], rest).1);
        lines := lines + [after];
        after := [];
      } else {
        assert Feed(after, [c] + rest).1 == [] + Feed(after + [c], rest).1;
        assert [] + Feed(after + [c], rest).1 == Feed(after + [c], rest).1;
        after := after + [c];
      }
      bytesRead := bytesRead + 1;
    }
    assert buffer[bytesRead..] == [];
    assert lines + [] == lines;
  }
}
