/** UTF-8 as the JVM's `StandardCharsets.UTF_8` applies it: every scalar value
    encodes to one to four bytes (section 3.9 of the Unicode Standard, table
    3-7), and decoding replaces each maximal ill-formed subpart with U+FFFD. */
module Utf8 {
  import opened Jvm

  const REPLACEMENT: char := '\U{FFFD}'

  /** A continuation byte `10xxxxxx`. */
  predicate IsContinuation(b: byte) {
    0x80 <= b <= 0xBF
  }

  /** The number of bytes the scalar value `v` encodes to. */
  function EncodedLength(v: int): nat {
    if v < 0x80 then 1 else if v < 0x800 then 2 else if v < 0x1_0000 then 3 else 4
  }

  /** The low six bits of `v / 64^k` as a continuation byte. */
  function ContinuationOf(v: nat): (b: byte)
    ensures IsContinuation(b) && b as int == 0x80 + v % 64
  {
    (0x80 + v % 64) as byte
  }

  function EncodeChar(c: char): (r: seq<byte>)
    ensures |r| == EncodedLength(c as int)
    ensures |r| == 1 <==> r[0] < 0x80
    ensures forall i :: 1 <= i < |r| ==> IsContinuation(r[i])
  {
    var v := c as int;
    if v < 0x80 then [v as byte]
    else if v < 0x800 then [(0xC0 + v / 64) as byte, ContinuationOf(v)]
    else if v < 0x1_0000 then
      [(0xE0 + v / 4096) as byte, ContinuationOf(v / 64), ContinuationOf(v)]
    else
      [(0xF0 + v / 262144) as byte, ContinuationOf(v / 4096), ContinuationOf(v / 64), ContinuationOf(v)]
  }

  /** `s.getBytes(UTF_8)`. */
  function Encode(s: string): (r: seq<byte>)
    ensures |r| >= |s|
    ensures (forall i :: 0 <= i < |s| ==> s[i] < '\U{80}') ==> |r| == |s|
  {
    if |s| == 0 then [] else EncodeChar(s[0]) + Encode(s[1..])
  }

  /** The range the second byte of a sequence led by `b0` must fall in. */
  function SecondLow(b0: byte): byte {
    if b0 == 0xE0 then 0xA0 else if b0 == 0xF0 then 0x90 else 0x80
  }

  function SecondHigh(b0: byte): byte {
    if b0 == 0xED then 0x9F else if b0 == 0xF4 then 0x8F else 0xBF
  }

  function Bits(b: byte): int {
    b as int - 0x80
  }

  /** Decodes the sequence at the front of `bs`: a character and the number
      of bytes it took. An ill-formed prefix yields U+FFFD and is consumed up
      to, not including, the first byte that cannot continue it. */
  function DecodeFirst(bs: seq<byte>): (r: (char, nat))
    requires |bs| > 0
    ensures 1 <= r.1 <= |bs| && r.1 <= 4
  {
    var b0 := bs[0];
    if b0 < 0x80 then (b0 as int as char, 1)
    else if 0xC2 <= b0 <= 0xDF then
      if |bs| < 2 || !IsContinuation(bs[1]) then (REPLACEMENT, 1)
      else (((b0 as int - 0xC0) * 64 + Bits(bs[1])) as char, 2)
    else if 0xE0 <= b0 <= 0xEF then
      if |bs| < 2 || !(SecondLow(b0) <= bs[1] <= SecondHigh(b0)) then (REPLACEMENT, 1)
      else if |bs| < 3 || !IsContinuation(bs[2]) then (REPLACEMENT, 2)
      else
        var v := (b0 as int - 0xE0) * 4096 + Bits(bs[1]) * 64 + Bits(bs[2]);
        (v as char, 3)
    else if 0xF0 <= b0 <= 0xF4 then
      if |bs| < 2 || !(SecondLow(b0) <= bs[1] <= SecondHigh(b0)) then (REPLACEMENT, 1)
      else if |bs| < 3 || !IsContinuation(bs[2]) then (REPLACEMENT, 2)
      else if |bs| < 4 || !IsContinuation(bs[3]) then (REPLACEMENT, 3)
      else
        var v := (b0 as int - 0xF0) * 262144 + Bits(bs[1]) * 4096 + Bits(bs[2]) * 64 + Bits(bs[3]);
        (v as char, 4)
    else (REPLACEMENT, 1)
  }

  /** `new String(bytes, UTF_8)`. */
  function Decode(bs: seq<byte>): (r: string)
    ensures |r| <= |bs|
    decreases |bs|
  {
    if |bs| == 0 then []
    else
      var (c, n) := DecodeFirst(bs);
      [c] + Decode(bs[n..])
  }

  // ---------------------------------------------------------------------
  // Round trip

  lemma DecodeFirstOneByte(c: char, rest: seq<byte>)
    requires c as int < 0x80
    ensures DecodeFirst(EncodeChar(c) + rest) == (c, 1)
  {
  }

  lemma DecodeFirstTwoBytes(c: char, rest: seq<byte>)
    requires 0x80 <= c as int < 0x800
    ensures DecodeFirst(EncodeChar(c) + rest) == (c, 2)
  {
    var v := c as int;
    var bs := EncodeChar(c) + rest;
    assert bs[0] as int == 0xC0 + v / 64;
    assert bs[1] as int == 0x80 + v % 64;
    assert (v / 64) * 64 + v % 64 == v;
  }

  lemma DecodeFirstThreeBytes(c: char, rest: seq<byte>)
    requires 0x800 <= c as int < 0x1_0000
    ensures DecodeFirst(EncodeChar(c) + rest) == (c, 3)
  {
    var v := c as int;
    var bs := EncodeChar(c) + rest;
    var hi, mid, lo := v / 4096, (v / 64) % 64, v % 64;
    assert bs[0] as int == 0xE0 + hi;
    assert bs[1] as int == 0x80 + mid;
    assert bs[2] as int == 0x80 + lo;
    assert (v / 64) / 64 == hi;
    assert v == hi * 4096 + mid * 64 + lo;
    assert hi == 0 ==> mid >= 0x20;
    assert hi == 0xD ==> mid < 0x20;
  }

  lemma DecodeFirstFourBytes(c: char, rest: seq<byte>)
    requires 0x1_0000 <= c as int
    ensures DecodeFirst(EncodeChar(c) + rest) == (c, 4)
  {
    var v := c as int;
    var bs := EncodeChar(c) + rest;
    var top, hi, mid, lo := v / 262144, (v / 4096) % 64, (v / 64) % 64, v % 64;
    assert bs[0] as int == 0xF0 + top;
    assert bs[1] as int == 0x80 + hi;
    assert bs[2] as int == 0x80 + mid;
    assert bs[3] as int == 0x80 + lo;
    assert (v / 4096) / 64 == top;
    assert (v / 64) / 64 == v / 4096;
    assert v == top * 262144 + hi * 4096 + mid * 64 + lo;
    assert top == 0 ==> hi >= 0x10;
    assert top == 4 ==> hi < 0x10;
  }

  /** Decoding reads back the first encoded character and nothing more. */
  lemma DecodeFirstEncoded(c: char, rest: seq<byte>)
    ensures DecodeFirst(EncodeChar(c) + rest) == (c, |EncodeChar(c)|)
  {
    var v := c as int;
    if v < 0x80 {
      DecodeFirstOneByte(c, rest);
    } else if v < 0x800 {
      DecodeFirstTwoBytes(c, rest);
    } else if v < 0x1_0000 {
      DecodeFirstThreeBytes(c, rest);
    } else {
      DecodeFirstFourBytes(c, rest);
    }
  }

  /** `new String(s.getBytes(UTF_8), UTF_8) == s`. */
  lemma {:induction false} DecodeEncode(s: string)
    ensures Decode(Encode(s)) == s
  {
    if |s| > 0 {
      var e := EncodeChar(s[0]);
      var bs := Encode(s);
      assert bs == e + Encode(s[1..]);
      DecodeFirstEncoded(s[0], Encode(s[1..]));
      assert bs[|e|..] == Encode(s[1..]);
      DecodeEncode(s[1..]);
      assert [s[0]] + s[1..] == s;
    }
  }

  /** Encoding distributes over concatenation. */
  lemma {:induction false} EncodeAppend(a: string, b: string)
    ensures Encode(a + b) == Encode(a) + Encode(b)
  {
    if |a| == 0 {
      assert a + b == b;
    } else {
      assert (a + b)[1..] == a[1..] + b;
      EncodeAppend(a[1..], b);
    }
  }

  /** ASCII text encodes byte for byte. */
  lemma {:induction false} EncodeAscii(s: string)
    requires forall i :: 0 <= i < |s| ==> s[i] < '\U{80}'
    ensures |Encode(s)| == |s|
    ensures forall i :: 0 <= i < |s| ==> Encode(s)[i] as int == s[i] as int
  {
    if |s| > 0 {
      EncodeAscii(s[1..]);
    }
  }

  /** Fixtures used by the URL codec: `§` (U+00A7) is `C2 A7` and `ß`
      (U+00DF) is `C3 9F`. */
  lemma EncodeFixtures()
    ensures EncodeChar('§') == [0xC2, 0xA7]
    ensures EncodeChar('ß') == [0xC3, 0x9F]
  {
  }

  /** A lone continuation byte and a truncated sequence each decode to a
      single U+FFFD. */
  lemma DecodeIllFormed()
    ensures Decode([0x80]) == [REPLACEMENT]
    ensures Decode([0xE2, 0x82]) == [REPLACEMENT]
    ensures Decode([0xC0, 0x41]) == [REPLACEMENT, 'A']
  {
    assert DecodeFirst([0x80]) == (REPLACEMENT, 1);
    assert DecodeFirst([0xE2, 0x82]) == (REPLACEMENT, 2);
    assert [0xE2, 0x82][2..] == [];
    assert DecodeFirst([0xC0, 0x41]) == (REPLACEMENT, 1);
    assert [0xC0, 0x41][1..] == [0x41];
    assert DecodeFirst([0x41]) == ('A', 1);
  }
}
