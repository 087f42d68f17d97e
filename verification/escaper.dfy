/** The control-character escaper `encodeResponseData` of the Java
    revisions: every character at or below U+0020 becomes `%` and its code as
    two lower-case hex digits (`Integer.toHexString`, padded with a `0`);
    every other character, `%` and `+` included, is copied. */
module Escaper {

  /** A character the escaper rewrites. */
  predicate IsControl(c: char) {
    c <= ' '
  }

  predicate NoControls(s: string) {
    forall i :: 0 <= i < |s| ==> !IsControl(s[i])
  }

  /** One lower-case hex digit. */
  function HexLower(d: nat): (c: char)
    requires d < 16
    ensures !IsControl(c)
    ensures ('0' <= c <= '9') || ('a' <= c <= 'f')
  {
    if d < 10 then ('0' as int + d) as char else ('a' as int + d - 10) as char
  }

  /** `Integer.toHexString(n)` for `n >= 0`: lower-case digits, no leading
      zeros, `"0"` for zero. */
  function ToHexString(n: nat): (r: string)
    ensures |r| >= 1
    ensures n < 16 <==> |r| == 1
  {
    if n < 16 then [HexLower(n)] else ToHexString(n / 16) + [HexLower(n % 16)]
  }

  /** What the loop appends for one character. */
  function EscapeChar(c: char): string {
    if IsControl(c) then
      var hex := ToHexString(c as int);
      "%" + (if |hex| == 1 then "0" else "") + hex
    else [c]
  }

  /** `encodeResponseData(data)`. */
  function EncodeResponseData(s: string): string {
    if |s| == 0 then "" else EscapeChar(s[0]) + EncodeResponseData(s[1..])
  }

  /** The number of characters the escaper rewrites. */
  function Controls(s: string): nat {
    if |s| == 0 then 0 else (if IsControl(s[0]) then 1 else 0) + Controls(s[1..])
  }

  // ---------------------------------------------------------------------
  // Properties

  /** A control character becomes `%` and its two lower-case hex digits; any
      other character is copied as it is. */
  lemma EscapeCharShape(c: char)
    ensures IsControl(c) ==> EscapeChar(c) == ['%', HexLower(c as int / 16), HexLower(c as int % 16)]
    ensures !IsControl(c) ==> EscapeChar(c) == [c]
  {
    if IsControl(c) {
      var n := c as int;
      if n >= 16 {
        assert ToHexString(n) == ToHexString(n / 16) + [HexLower(n % 16)];
        assert ToHexString(n / 16) == [HexLower(n / 16)];
      }
    }
  }

  lemma EncodeResponseDataCons(c: char, s: string)
    ensures EncodeResponseData([c] + s) == EscapeChar(c) + EncodeResponseData(s)
  {
    assert ([c] + s)[1..] == s;
  }

  /** The escaper works character by character, so it distributes over
      concatenation. */
  lemma {:induction false} EncodeResponseDataAppend(a: string, b: string)
    ensures EncodeResponseData(a + b) == EncodeResponseData(a) + EncodeResponseData(b)
  {
    if |a| == 0 {
      assert a + b == b;
    } else {
      assert (a + b)[1..] == a[1..] + b;
      EncodeResponseDataAppend(a[1..], b);
    }
  }

  /** Each control character grows by two, everything else stays. */
  lemma {:induction false} EncodeResponseDataLength(s: string)
    ensures |EncodeResponseData(s)| == |s| + 2 * Controls(s)
  {
    if |s| > 0 {
      EscapeCharShape(s[0]);
      EncodeResponseDataLength(s[1..]);
    }
  }

  /** The escaper at most triples its input. */
  lemma {:induction false} EncodeResponseDataBound(s: string)
    ensures |EncodeResponseData(s)| <= 3 * |s|
  {
    EncodeResponseDataLength(s);
    ControlsBound(s);
  }

  lemma {:induction false} ControlsBound(s: string)
    ensures Controls(s) <= |s|
  {
    if |s| > 0 {
      ControlsBound(s[1..]);
    }
  }

  /** The output holds no character at or below U+0020. */
  lemma {:induction false} EncodeResponseDataClean(s: string)
    ensures NoControls(EncodeResponseData(s))
  {
    if |s| > 0 {
      EscapeCharShape(s[0]);
      EncodeResponseDataClean(s[1..]);
      var e, rest := EscapeChar(s[0]), EncodeResponseData(s[1..]);
      forall i | 0 <= i < |e + rest|
        ensures !IsControl((e + rest)[i])
      {
        if i >= |e| {
          assert (e + rest)[i] == rest[i - |e|];
        }
      }
    }
  }

  /** Text without control characters passes unchanged. */
  lemma {:induction false} EncodeResponseDataClear(s: string)
    requires NoControls(s)
    ensures EncodeResponseData(s) == s
  {
    if |s| > 0 {
      EncodeResponseDataClear(s[1..]);
      assert [s[0]] + s[1..] == s;
    }
  }

  /** Escaping twice is escaping once. */
  lemma EncodeResponseDataIdempotent(s: string)
    ensures EncodeResponseData(EncodeResponseData(s)) == EncodeResponseData(s)
  {
    EncodeResponseDataClean(s);
    EncodeResponseDataClear(EncodeResponseData(s));
  }

  // ---------------------------------------------------------------------
  // The inverse

  function HexLowerValue(c: char): (r: int)
    ensures -1 <= r < 16
  {
    if '0' <= c <= '9' then c as int - '0' as int
    else if 'a' <= c <= 'f' then c as int - 'a' as int + 10
    else -1
  }

  /** Reads escaped text back: `%` and two lower-case hex digits whose value
      is at most 0x20 stand for that character; everything else is itself. */
  function Unescape(t: string): (r: string)
    decreases |t|
  {
    if |t| >= 3 && t[0] == '%' && HexLowerValue(t[1]) >= 0 && HexLowerValue(t[2]) >= 0
       && HexLowerValue(t[1]) * 16 + HexLowerValue(t[2]) <= 0x20
    then [(HexLowerValue(t[1]) * 16 + HexLowerValue(t[2])) as char] + Unescape(t[3..])
    else if |t| == 0 then ""
    else [t[0]] + Unescape(t[1..])
  }

  lemma HexLowerRoundTrip(d: nat)
    requires d < 16
    ensures HexLowerValue(HexLower(d)) == d
  {
  }

  /** `Unescape` undoes the escaper on text free of `%`. */
  lemma {:induction false} UnescapeEncode(s: string)
    requires forall i :: 0 <= i < |s| ==> s[i] != '%'
    ensures Unescape(EncodeResponseData(s)) == s
  {
    if |s| > 0 {
      var c := s[0];
      var rest := EncodeResponseData(s[1..]);
      EncodeResponseDataCons(c, s[1..]);
      assert [c] + s[1..] == s;
      UnescapeEncode(s[1..]);
      EscapeCharShape(c);
      if IsControl(c) {
        var t := EscapeChar(c) + rest;
        HexLowerRoundTrip(c as int / 16);
        HexLowerRoundTrip(c as int % 16);
        assert t[0] == '%' && t[1] == HexLower(c as int / 16) && t[2] == HexLower(c as int % 16);
        assert t[3..] == rest;
        assert (c as int / 16) * 16 + c as int % 16 == c as int;
      } else {
        var t := [c] + rest;
        assert t[1..] == rest;
      }
    }
  }

  /** `encodeResponseData(" \t\n%+a") == "%20%09%0a%+a"`. */
  lemma EncodeResponseDataFixture()
    ensures EncodeResponseData(" \t\n%+a") == "%20%09%0a%+a"
  {
    EscapeCharShape(' ');
    EscapeCharShape('\t');
    EscapeCharShape('\n');
    EscapeCharShape('%');
    EscapeCharShape('+');
    EscapeCharShape('a');
  }
}
