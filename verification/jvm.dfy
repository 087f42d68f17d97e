/** The few JVM semantics the connector's code leans on, written out: signed
    bytes, 64-bit `long` wrap-around, `String.trim`, `indexOf`, decimal
    rendering (`Integer.toString`) and parsing (`Integer.parseInt`), and the
    text `"null"` that string concatenation and Kotlin templates produce for a
    null reference. */
module Jvm {
  import opened Wrappers

  /** One octet on the wire, as its unsigned value. */
  newtype byte = b: int | 0 <= b < 0x100

  const INT_MIN: int := -0x8000_0000
  const INT_MAX: int := 0x7FFF_FFFF
  const LONG_MODULUS: int := 0x1_0000_0000_0000_0000
  const LONG_MIN: int := -0x8000_0000_0000_0000
  const LONG_MAX: int := 0x7FFF_FFFF_FFFF_FFFF

  /** The value a JVM `byte` holds: the octet read as two's complement. */
  function SignedValue(b: byte): (r: int)
    ensures -128 <= r < 128
    ensures (r + 256) % 256 == b as int
    ensures b < 0x80 <==> r >= 0
  {
    if b < 0x80 then b as int else b as int - 256
  }

  /** `(char) b` in Java and `Char(b.toUShort())` in Kotlin: the signed byte
      sign-extended into a UTF-16 unit, so bytes 0x80-0xFF become
      U+FF80-U+FFFF. */
  function WidenSigned(b: byte): (c: char)
    // the UTF-16 unit holding the byte's signed value modulo 2^16
    ensures c as int == (SignedValue(b) + 0x10000) % 0x10000
    // the low eight bits still are the byte, so widening loses nothing
    ensures c as int % 0x100 == b as int
  {
    if b < 0x80 then b as int as char else (0xFF00 + b as int) as char
  }

  /** Two's complement wrap-around of a 64-bit `long`. */
  function WrapLong(x: int): (r: int)
    ensures LONG_MIN <= r <= LONG_MAX
    ensures (r - x) % LONG_MODULUS == 0
    ensures LONG_MIN <= x <= LONG_MAX ==> r == x
  {
    (x - LONG_MIN) % LONG_MODULUS + LONG_MIN
  }

  /** The characters `trim()` and `trim { it <= ' ' }` remove. */
  predicate IsTrimmed(c: char) {
    c <= ' '
  }

  /** The index of the first character at or after `from` that `trim`
      keeps, or `|s|`. */
  function KeptFrom(s: string, from: nat): (n: nat)
    requires from <= |s|
    ensures from <= n <= |s|
    ensures forall i :: from <= i < n ==> IsTrimmed(s[i])
    ensures n < |s| ==> !IsTrimmed(s[n])
    decreases |s| - from
  {
    if from == |s| || !IsTrimmed(s[from]) then from else KeptFrom(s, from + 1)
  }

  /** One past the last character before `upto` that `trim` keeps, or 0. */
  function KeptUpto(s: string, upto: nat): (n: nat)
    requires upto <= |s|
    ensures n <= upto
    ensures forall i :: n <= i < upto ==> IsTrimmed(s[i])
    ensures n > 0 ==> !IsTrimmed(s[n - 1])
  {
    if upto == 0 || !IsTrimmed(s[upto - 1]) then upto else KeptUpto(s, upto - 1)
  }

  /** `String.trim()` / Kotlin `trim { it <= ' ' }`: strips every leading and
      trailing character at or below U+0020, and nothing else. What it keeps
      is one slice of the input, starting at the first kept character. */
  function Trim(s: string): (r: string)
    ensures var p := KeptFrom(s, 0);
      && p + |r| <= |s|
      && r == s[p..p + |r|]
      && (forall i :: 0 <= i < p ==> IsTrimmed(s[i]))
      && (forall i :: p + |r| <= i < |s| ==> IsTrimmed(s[i]))
    ensures |r| > 0 ==> !IsTrimmed(r[0]) && !IsTrimmed(r[|r| - 1])
  {
    var p := KeptFrom(s, 0);
    if p == |s| then "" else s[p..KeptUpto(s, |s|)]
  }

  /** A string already free of edge whitespace is its own trim, so `Trim` is
      idempotent. */
  lemma TrimKeepsClean(s: string)
    requires |s| > 0 ==> !IsTrimmed(s[0]) && !IsTrimmed(s[|s| - 1])
    ensures Trim(s) == s
  {
  }

  lemma TrimIdempotent(s: string)
    ensures Trim(Trim(s)) == Trim(s)
  {
    TrimKeepsClean(Trim(s));
  }

  /** `s.indexOf(c, from)`: the first position at or after `from` holding
      `c`, or -1. */
  function IndexOf(s: string, c: char, from: nat): (r: int)
    ensures r == -1 || from <= r < |s|
    ensures r >= 0 ==> s[r] == c
    ensures r == -1 <==> forall i :: from <= i < |s| ==> s[i] != c
    ensures r >= 0 ==> forall i :: from <= i < r ==> s[i] != c
    decreases |s| - from
  {
    if from >= |s| then -1
    else if s[from] == c then from
    else IndexOf(s, c, from + 1)
  }

  /** What `"..." + x` (Java) and `"$x"` (Kotlin) produce for a nullable
      string. */
  function NullableText(x: Option<string>): (r: string)
    ensures x.Some? ==> r == x.value
    ensures x.None? ==> r == "null"
  {
    match x
    case Some(s) => s
    case None => "null"
  }

  /** A byte buffer as the JVM revisions accumulate it, one `(char) b`
      (Java) or `Char(b.toUShort())` (Kotlin) per byte. */
  function Widen(bs: seq<byte>): (r: string)
    ensures |r| == |bs|
    ensures forall i :: 0 <= i < |bs| ==> r[i] == WidenSigned(bs[i])
  {
    if |bs| == 0 then "" else [WidenSigned(bs[0])] + Widen(bs[1..])
  }

  /** The highest code, plus one, that `US_ASCII` and `ISO_8859_1` map to
      a byte of the same value. */
  const US_ASCII_LIMIT: nat := 0x80
  const ISO_8859_1_LIMIT: nat := 0x100

  /** `getBytes` / `writeText` in a single-byte charset: a character below
      `limit` becomes the byte of the same value, any other character the
      replacement byte `?`. */
  function NarrowEncode(s: string, limit: nat): (r: seq<byte>)
    requires limit <= 0x100
    ensures |r| == |s|
    ensures forall i :: 0 <= i < |s| && (s[i] as int) < limit ==> r[i] as int == s[i] as int
    ensures forall i :: 0 <= i < |s| && (s[i] as int) >= limit ==> r[i] == 0x3F
  {
    if |s| == 0 then []
    else [if (s[0] as int) < limit then s[0] as int as byte else 0x3F] + NarrowEncode(s[1..], limit)
  }

  /** A single-byte charset encodes character by character. */
  lemma {:induction false} NarrowEncodeAppend(a: string, b: string, limit: nat)
    requires limit <= 0x100
    ensures NarrowEncode(a + b, limit) == NarrowEncode(a, limit) + NarrowEncode(b, limit)
  {
    if |a| > 0 {
      assert (a + b)[1..] == a[1..] + b;
      NarrowEncodeAppend(a[1..], b, limit);
    } else {
      assert a + b == b;
    }
  }

  // ---------------------------------------------------------------------
  // Decimal numbers

  predicate IsDigit(c: char) {
    '0' <= c <= '9'
  }

  predicate AllDigits(s: string) {
    forall i :: 0 <= i < |s| ==> IsDigit(s[i])
  }

  function DigitChar(d: nat): (c: char)
    requires d < 10
    ensures IsDigit(c) && c as int - '0' as int == d
  {
    ('0' as int + d) as char
  }

  /** The number an all-digit string denotes. */
  function DecimalValue(s: string): nat
    requires AllDigits(s)
  {
    if |s| == 0 then 0
    else DecimalValue(s[..|s| - 1]) * 10 + (s[|s| - 1] as int - '0' as int)
  }

  /** `Integer.toString(n)` / `StringBuilder.append(int)` for `n >= 0`. */
  function NatToString(n: nat): (r: string)
    ensures |r| >= 1 && AllDigits(r)
    ensures |r| > 1 ==> r[0] != '0'
  {
    if n < 10 then [DigitChar(n)] else NatToString(n / 10) + [DigitChar(n % 10)]
  }

  /** The rendering denotes the number it renders. */
  lemma {:induction false} NatToStringValue(n: nat)
    ensures DecimalValue(NatToString(n)) == n
  {
    if n >= 10 {
      var s := NatToString(n);
      assert s[..|s| - 1] == NatToString(n / 10);
      NatToStringValue(n / 10);
    }
  }

  /** Numbers below a thousand take at most three digits. */
  lemma {:induction false} NatToStringShort(n: nat)
    requires n < 1000
    ensures |NatToString(n)| <= 3
  {
    if n >= 10 {
      if n / 10 >= 10 {
        assert |NatToString(n / 10 / 10)| == 1;
      }
    }
  }

  /** Rendering is injective: two numbers with the same text are equal. */
  lemma NatToStringInjective(m: nat, n: nat)
    requires NatToString(m) == NatToString(n)
    ensures m == n
  {
    NatToStringValue(m);
    NatToStringValue(n);
  }

  /** `Integer.parseInt(s)` in radix 10: an optional `+` or `-`, then at least
      one digit, and a value that fits an `int`; anything else is a
      `NumberFormatException` (`None`). */
  function ParseInt32(s: string): (r: Option<int>)
    ensures r.Some? ==> INT_MIN <= r.value <= INT_MAX
    ensures r.Some? ==> |s| > 0
  {
    if |s| == 0 then None
    else
      var negative := s[0] == '-';
      var signed := s[0] == '-' || s[0] == '+';
      var digits := if signed then s[1..] else s;
      if |digits| == 0 || !AllDigits(digits) then None
      else
        var v := if negative then -(DecimalValue(digits) as int) else DecimalValue(digits);
        if INT_MIN <= v <= INT_MAX then Some(v) else None
  }

  /** `Integer.toString(i)` and `"$i"` for any `int`. */
  function IntToString(i: int): (r: string)
    ensures i >= 0 ==> r == NatToString(i)
    ensures i < 0 ==> r == "-" + NatToString(-i)
  {
    if i < 0 then "-" + NatToString(-i) else NatToString(i)
  }

  /** `Integer.parseInt` reads back what `Integer.toString` renders, for
      every `int`, negative ones and `INT_MIN` included. */
  lemma ParseIntToString(i: int)
    requires INT_MIN <= i <= INT_MAX
    ensures ParseInt32(IntToString(i)) == Some(i)
  {
    if i < 0 {
      var d := NatToString(-i);
      assert IntToString(i)[1..] == d;
      NatToStringValue(-i);
    } else {
      NatToStringValue(i);
    }
  }

  /** `parseInt` reads back every rendering of an `int`-sized count. */
  lemma ParseRendered(n: nat)
    requires n <= INT_MAX
    ensures ParseInt32(NatToString(n)) == Some(n)
  {
    NatToStringValue(n);
  }
}
