/** The percent codec of the JDK's `URLEncoder` and `URLDecoder`, and the
    tcp-lookup wrappers around them that keep `+` and space apart.

    `URLEncoder.encode` is the application/x-www-form-urlencoded serializer
    of the WHATWG URL Standard (section 5.2): letters, digits and `.-*_`
    stay, a space becomes `+`, and every other character becomes its
    charset bytes as `%XX` with upper-case hex digits. `URLDecoder.decode`
    undoes it: `+` is a space, and each maximal run of `%XX` triplets is
    turned into bytes (section 2.1 of RFC 3986) and decoded with the
    charset as one unit. */
module UrlCodec {
  import opened Wrappers
  import opened Jvm
  import Utf8
  import Seqs
  import Joiner

  /** The charsets the connector passes to the codec. */
  datatype Charset = Utf8Charset | UsAscii

  /** The characters `URLEncoder` writes as themselves. */
  predicate IsUnreserved(c: char) {
    ('a' <= c <= 'z') || ('A' <= c <= 'Z') || ('0' <= c <= '9')
    || c == '.' || c == '-' || c == '*' || c == '_'
  }

  // ---------------------------------------------------------------------
  // Charsets

  /** `String.valueOf(c).getBytes(cs)`: UTF-8 bytes, or for US-ASCII the
      byte itself and `?` (0x3F) for any character outside ASCII. */
  function CharsetEncodeChar(c: char, cs: Charset): (r: seq<byte>)
    ensures |r| >= 1
    ensures c < '\U{80}' ==> r == [c as int as byte]
    ensures cs == UsAscii ==> |r| == 1 && r[0] < 0x80
  {
    match cs
    case Utf8Charset => Utf8.EncodeChar(c)
    case UsAscii => if c < '\U{80}' then [c as int as byte] else [0x3F]
  }

  function CharsetEncode(s: string, cs: Charset): (r: seq<byte>)
    ensures cs == Utf8Charset ==> r == Utf8.Encode(s)
  {
    if |s| == 0 then [] else CharsetEncodeChar(s[0], cs) + CharsetEncode(s[1..], cs)
  }

  /** `new String(bytes, cs)`: UTF-8 with U+FFFD for each ill-formed
      subpart, or US-ASCII with U+FFFD for every byte above 0x7F. */
  function CharsetDecode(bs: seq<byte>, cs: Charset): (r: string)
    ensures |r| <= |bs|
    ensures cs == UsAscii ==> |r| == |bs|
    ensures cs == UsAscii ==> forall i :: 0 <= i < |bs| ==>
      r[i] == if bs[i] < 0x80 then bs[i] as int as char else Utf8.REPLACEMENT
  {
    match cs
    case Utf8Charset => Utf8.Decode(bs)
    case UsAscii => AsciiDecode(bs)
  }

  function AsciiDecode(bs: seq<byte>): (r: string)
    ensures |r| == |bs|
    ensures forall i :: 0 <= i < |bs| ==>
      r[i] == if bs[i] < 0x80 then bs[i] as int as char else Utf8.REPLACEMENT
  {
    if |bs| == 0 then []
    else [if bs[0] < 0x80 then bs[0] as int as char else Utf8.REPLACEMENT] + AsciiDecode(bs[1..])
  }

  /** Both charsets read back the bytes of ASCII text. */
  lemma {:induction false} CharsetDecodeEncode(s: string, cs: Charset)
    requires cs == UsAscii ==> forall i :: 0 <= i < |s| ==> s[i] < '\U{80}'
    ensures CharsetDecode(CharsetEncode(s, cs), cs) == s
  {
    match cs
    case Utf8Charset => Utf8.DecodeEncode(s);
    case UsAscii =>
      AsciiEncodeBytes(s);
  }

  lemma {:induction false} AsciiEncodeBytes(s: string)
    requires forall i :: 0 <= i < |s| ==> s[i] < '\U{80}'
    ensures |CharsetEncode(s, UsAscii)| == |s|
    ensures forall i :: 0 <= i < |s| ==> CharsetEncode(s, UsAscii)[i] as int == s[i] as int
  {
    if |s| > 0 {
      AsciiEncodeBytes(s[1..]);
    }
  }

  // ---------------------------------------------------------------------
  // Hex digits and triplets

  predicate IsUpperHex(c: char) {
    ('0' <= c <= '9') || ('A' <= c <= 'F')
  }

  /** `Character.forDigit(d, 16)` raised to upper case, as `URLEncoder`
      writes it. */
  function HexUpper(d: nat): (c: char)
    requires d < 16
    ensures IsUpperHex(c)
  {
    if d < 10 then ('0' as int + d) as char else ('A' as int + d - 10) as char
  }

  /** `Character.digit(c, 16)` on ASCII: the value of a hex digit in either
      case. */
  function HexValue(c: char): (r: Option<nat>)
    ensures r.Some? ==> r.value < 16
  {
    if '0' <= c <= '9' then Some(c as int - '0' as int)
    else if 'a' <= c <= 'f' then Some(c as int - 'a' as int + 10)
    else if 'A' <= c <= 'F' then Some(c as int - 'A' as int + 10)
    else None
  }

  /** `Integer.parseInt(s, i + 1, i + 3, 16)` on the two characters after a
      `%`. Like every `parseInt`, it accepts a leading sign, so `+1` reads as
      1 and `-1` as -1; `None` is the `NumberFormatException`. */
  function ParseHexPair(a: char, b: char): (r: Option<int>)
    ensures r.Some? ==> -15 <= r.value < 256
    ensures r.Some? && r.value < 0 ==> a == '-'
  {
    if a == '-' then
      match HexValue(b)
      case Some(d) => Some(-(d as int))
      case None => None
    else if a == '+' then
      match HexValue(b)
      case Some(d) => Some(d)
      case None => None
    else
      match (HexValue(a), HexValue(b))
      case (Some(h), Some(l)) => Some(h * 16 + l)
      case _ => None
  }

  /** One byte as `URLEncoder` writes it. */
  function Triplet(b: byte): string {
    ['%', HexUpper(b as int / 16), HexUpper(b as int % 16)]
  }

  function Triplets(bs: seq<byte>): (r: string)
    ensures |r| == 3 * |bs|
  {
    if |bs| == 0 then "" else Triplet(bs[0]) + Triplets(bs[1..])
  }

  /** `parseInt` reads back the two digits of a triplet. */
  lemma ParseTriplet(b: byte)
    ensures ParseHexPair(Triplet(b)[1], Triplet(b)[2]) == Some(b as int)
  {
  }

  lemma {:induction false} TripletsAppend(a: seq<byte>, b: seq<byte>)
    ensures Triplets(a + b) == Triplets(a) + Triplets(b)
  {
    if |a| == 0 {
      assert a + b == b;
    } else {
      assert (a + b)[1..] == a[1..] + b;
      TripletsAppend(a[1..], b);
    }
  }

  /** The characters of a run of triplets: `%` at every third position, an
      upper-case hex digit elsewhere. */
  lemma {:induction false} TripletsShape(bs: seq<byte>)
    ensures forall i :: 0 <= i < |Triplets(bs)| ==>
      if i % 3 == 0 then Triplets(bs)[i] == '%' else IsUpperHex(Triplets(bs)[i])
  {
    if |bs| > 0 {
      TripletsShape(bs[1..]);
      var t := Triplets(bs);
      forall i | 3 <= i < |t|
        ensures if i % 3 == 0 then t[i] == '%' else IsUpperHex(t[i])
      {
        assert t[i] == Triplets(bs[1..])[i - 3];
      }
    }
  }

  // ---------------------------------------------------------------------
  // Encoding

  /** Which characters an encoding writes as triplets, and how it writes
      a space.
      - `Form`: `URLEncoder.encode` itself; a space becomes `+`.
      - `Percent`: every non-unreserved character is escaped, the space
        included.
      - `PlusOnly`: only `+` is escaped; everything else is copied. This is
        what `replace("+", "%2B")` does to a string. */
  datatype Escaping = Form | Percent | PlusOnly

  predicate Escaped(c: char, mode: Escaping) {
    match mode
    case Form => !IsUnreserved(c) && c != ' '
    case Percent => !IsUnreserved(c)
    case PlusOnly => c == '+'
  }

  /** The encoding of one character. */
  function EncodeCharWith(c: char, cs: Charset, mode: Escaping): (r: string)
    ensures Escaped(c, mode) ==> r == Triplets(CharsetEncodeChar(c, cs))
    ensures !Escaped(c, mode) && mode == Form && c == ' ' ==> r == "+"
    ensures !Escaped(c, mode) && !(mode == Form && c == ' ') ==> r == [c]
  {
    if Escaped(c, mode) then Triplets(CharsetEncodeChar(c, cs))
    else if mode == Form && c == ' ' then "+"
    else [c]
  }

  function EncodeWith(s: string, cs: Charset, mode: Escaping): (r: string)
    ensures |r| >= |s|
  {
    if |s| == 0 then "" else EncodeCharWith(s[0], cs, mode) + EncodeWith(s[1..], cs, mode)
  }

  lemma {:induction false} EncodeWithAppend(a: string, b: string, cs: Charset, mode: Escaping)
    ensures EncodeWith(a + b, cs, mode) == EncodeWith(a, cs, mode) + EncodeWith(b, cs, mode)
  {
    if |a| == 0 {
      assert a + b == b;
    } else {
      assert (a + b)[1..] == a[1..] + b;
      EncodeWithAppend(a[1..], b, cs, mode);
    }
  }

  /** A run of escaped characters encodes to the triplets of its charset
      bytes, which is how `URLEncoder` writes such a run. */
  lemma {:induction false} EncodeEscapedRun(s: string, cs: Charset, mode: Escaping)
    requires forall i :: 0 <= i < |s| ==> Escaped(s[i], mode)
    ensures EncodeWith(s, cs, mode) == Triplets(CharsetEncode(s, cs))
  {
    if |s| > 0 {
      EncodeEscapedRun(s[1..], cs, mode);
      TripletsAppend(CharsetEncodeChar(s[0], cs), CharsetEncode(s[1..], cs));
    }
  }

  /** `URLEncoder.encode(s, cs)`. */
  function FormUrlEncode(s: string, cs: Charset): (r: string)
    ensures |r| >= |s|
  {
    EncodeWith(s, cs, Form)
  }

  /** The output of `URLEncoder.encode` holds only unreserved characters,
      `+`, and `%` followed by two upper-case hex digits; in particular it
      has no space and no control character. */
  lemma {:induction false} FormUrlEncodeAlphabet(s: string, cs: Charset)
    ensures forall i :: 0 <= i < |FormUrlEncode(s, cs)| ==>
      var c := FormUrlEncode(s, cs)[i];
      IsUnreserved(c) || c == '+' || c == '%' || IsUpperHex(c)
  {
    if |s| > 0 {
      FormUrlEncodeAlphabet(s[1..], cs);
      var head := EncodeCharWith(s[0], cs, Form);
      TripletsShape(CharsetEncodeChar(s[0], cs));
      var r := FormUrlEncode(s, cs);
      assert r == head + FormUrlEncode(s[1..], cs);
      forall i | 0 <= i < |r|
        ensures IsUnreserved(r[i]) || r[i] == '+' || r[i] == '%' || IsUpperHex(r[i])
      {
        if i >= |head| {
          assert r[i] == FormUrlEncode(s[1..], cs)[i - |head|];
        }
      }
    }
  }

  // ---------------------------------------------------------------------
  // Decoding

  /** Why `URLDecoder.decode` throws its `IllegalArgumentException`. */
  datatype DecodeError =
    | IllegalHex         // `parseInt` rejected the two characters after `%`
    | NegativeEscape     // they read as a negative number, such as `-1`
    | IncompleteEscape   // a `%` with fewer than two characters after it

  /** The inner loop of `URLDecoder.decode` at a `%`: collects the bytes of
      consecutive triplets, and returns them with the text after the last
      one. The text left over never starts with `%`. */
  function EscapeRun(t: string): (r: Result<(seq<byte>, string), DecodeError>)
    ensures r.Ok? ==> |t| == 3 * |r.value.0| + |r.value.1| && r.value.1 == t[3 * |r.value.0|..]
    ensures r.Ok? ==> |r.value.1| == 0 || r.value.1[0] != '%'
    ensures r.Ok? && |t| > 0 && t[0] == '%' ==> |r.value.0| > 0
  {
    if |t| >= 3 && t[0] == '%' then
      match ParseHexPair(t[1], t[2])
      case None => Err(IllegalHex)
      case Some(v) =>
        if v < 0 then Err(NegativeEscape)
        else
          match EscapeRun(t[3..])
          case Err(e) => Err(e)
          case Ok((bs, rest)) => Ok(([v as byte] + bs, rest))
    else if |t| > 0 && t[0] == '%' then Err(IncompleteEscape)
    else Ok(([], t))
  }

  /** `URLDecoder.decode(t, cs)`. */
  function UrlDecode(t: string, cs: Charset): (r: Result<string, DecodeError>)
    ensures r.Ok? ==> |r.value| <= |t|
    decreases |t|
  {
    if |t| == 0 then Ok("")
    else if t[0] == '+' then
      match UrlDecode(t[1..], cs)
      case Err(e) => Err(e)
      case Ok(rest) => Ok(" " + rest)
    else if t[0] == '%' then
      match EscapeRun(t)
      case Err(e) => Err(e)
      case Ok((bs, after)) =>
        match UrlDecode(after, cs)
        case Err(e) => Err(e)
        case Ok(rest) => Ok(CharsetDecode(bs, cs) + rest)
    else
      match UrlDecode(t[1..], cs)
      case Err(e) => Err(e)
      case Ok(rest) => Ok([t[0]] + rest)
  }

  /** The triplets of `bs` in front of text that does not start with `%`
      form one run. */
  lemma {:induction false} EscapeRunOfTriplets(bs: seq<byte>, tail: string)
    requires |tail| == 0 || tail[0] != '%'
    ensures EscapeRun(Triplets(bs) + tail) == Ok((bs, tail))
  {
    if |bs| == 0 {
      assert Triplets(bs) + tail == tail;
    } else {
      EscapeRunOfTriplets(bs[1..], tail);
      EscapeRunTriplet(bs[0], Triplets(bs[1..]) + tail, bs[1..], tail);
      Seqs.Assoc(Triplet(bs[0]), Triplets(bs[1..]), tail);
      Seqs.HeadTail(bs);
    }
  }

  /** A triplet in front of a run adds its byte to the front of the run. */
  lemma EscapeRunTriplet(b: byte, u: string, bs: seq<byte>, rest: string)
    requires EscapeRun(u) == Ok((bs, rest))
    ensures EscapeRun(Triplet(b) + u) == Ok(([b] + bs, rest))
  {
    var t := Triplet(b) + u;
    assert |t| >= 3 && t[0] == '%' && t[1] == Triplet(b)[1] && t[2] == Triplet(b)[2];
    ParseTriplet(b);
    assert t[3..] == u;
  }

  /** Text without `%` and `+` decodes to itself. */
  lemma {:induction false} UrlDecodePlain(t: string, cs: Charset)
    requires forall i :: 0 <= i < |t| ==> t[i] != '%' && t[i] != '+'
    ensures UrlDecode(t, cs) == Ok(t)
  {
    if |t| > 0 {
      UrlDecodePlain(t[1..], cs);
      assert [t[0]] + t[1..] == t;
    }
  }

  /** How many leading characters of `s` an encoding escapes. */
  function EscapedPrefix(s: string, mode: Escaping): (n: nat)
    ensures n <= |s|
    ensures forall i :: 0 <= i < n ==> Escaped(s[i], mode)
    ensures n < |s| ==> !Escaped(s[n], mode)
  {
    if |s| == 0 || !Escaped(s[0], mode) then 0 else 1 + EscapedPrefix(s[1..], mode)
  }

  /** Text whose unescaped characters are neither `%` nor a `+` the decoder
      would turn into a space. */
  predicate Decodable(s: string, mode: Escaping) {
    forall i :: 0 <= i < |s| ==>
      Escaped(s[i], mode) || (s[i] != '%' && (s[i] != '+' || mode == Form))
  }

  /** The encoding of text that starts with an unescaped character does not
      start with `%`. */
  lemma EncodedHead(s: string, cs: Charset, mode: Escaping)
    requires Decodable(s, mode)
    requires |s| > 0 && !Escaped(s[0], mode)
    ensures EncodeWith(s, cs, mode)[0] != '%'
    ensures mode == Form && s[0] == ' ' ==> EncodeWith(s, cs, mode)[0] == '+'
    ensures !(mode == Form && s[0] == ' ') ==> EncodeWith(s, cs, mode)[0] == s[0]
  {
  }

  lemma DecodableSuffix(s: string, mode: Escaping, k: nat)
    requires Decodable(s, mode) && k <= |s|
    ensures Decodable(s[k..], mode)
  {
    forall i | 0 <= i < |s[k..]|
      ensures Escaped(s[k..][i], mode) || (s[k..][i] != '%' && (s[k..][i] != '+' || mode == Form))
    {
      assert s[k..][i] == s[k + i];
    }
  }

  /** The decoding step for a character the encoding copied (or wrote as
      `+`). */
  lemma DecodeUnescapedHead(s: string, mode: Escaping)
    requires Decodable(s, mode)
    requires |s| > 0 && !Escaped(s[0], mode)
    requires UrlDecode(EncodeWith(s[1..], Utf8Charset, mode), Utf8Charset) == Ok(s[1..])
    ensures UrlDecode(EncodeWith(s, Utf8Charset, mode), Utf8Charset) == Ok(s)
  {
    var t := EncodeWith(s, Utf8Charset, mode);
    var tail := EncodeWith(s[1..], Utf8Charset, mode);
    assert t == EncodeCharWith(s[0], Utf8Charset, mode) + tail;
    Seqs.HeadTail(s);
    if mode == Form && s[0] == ' ' {
      assert t == "+" + tail;
      assert t[1..] == tail;
    } else {
      assert t == [s[0]] + tail;
      assert t[1..] == tail;
      assert t[0] != '%' && t[0] != '+';
    }
  }

  /** Encoding a text that opens with a run of escaped characters: the
      run's triplets, then an encoding that does not open with `%`. */
  lemma EncodeEscapedHead(s: string, mode: Escaping, n: nat)
    requires Decodable(s, mode)
    requires n == EscapedPrefix(s, mode)
    ensures EncodeWith(s, Utf8Charset, mode)
      == Triplets(Utf8.Encode(s[..n])) + EncodeWith(s[n..], Utf8Charset, mode)
    ensures |EncodeWith(s[n..], Utf8Charset, mode)| == 0
      || EncodeWith(s[n..], Utf8Charset, mode)[0] != '%'
  {
    var run, after := s[..n], s[n..];
    Seqs.SplitAt(s, n);
    EncodeWithAppend(run, after, Utf8Charset, mode);
    EncodeEscapedRun(run, Utf8Charset, mode);
    DecodableSuffix(s, mode, n);
    if |after| > 0 {
      EncodedHead(after, Utf8Charset, mode);
    }
  }

  lemma DecodeEscapedHead(s: string, mode: Escaping, n: nat)
    requires Decodable(s, mode)
    requires n == EscapedPrefix(s, mode) && n > 0
    requires UrlDecode(EncodeWith(s[n..], Utf8Charset, mode), Utf8Charset) == Ok(s[n..])
    ensures UrlDecode(EncodeWith(s, Utf8Charset, mode), Utf8Charset) == Ok(s)
  {
    EncodeEscapedHead(s, mode, n);
    DecodeRunThen(s[..n], s[n..], EncodeWith(s[n..], Utf8Charset, mode));
    Seqs.SplitAt(s, n);
  }

  /** The UTF-8 triplets of a non-empty text, then a tail that does not
      open with `%`, decode to the text, then the tail's decoding. */
  lemma DecodeRunThen(run: string, after: string, tail: string)
    requires |run| > 0
    requires |tail| == 0 || tail[0] != '%'
    requires UrlDecode(tail, Utf8Charset) == Ok(after)
    ensures UrlDecode(Triplets(Utf8.Encode(run)) + tail, Utf8Charset) == Ok(run + after)
  {
    Utf8.DecodeEncode(run);
    UrlDecodeRun(Utf8.Encode(run), tail, Utf8Charset, after);
  }

  /** `URLDecoder.decode(e, UTF-8)` reads back every encoding `e` of `s`
      made by escaping characters as UTF-8 triplets. */
  lemma {:induction false} UrlDecodeEncodeWith(s: string, mode: Escaping)
    requires Decodable(s, mode)
    ensures UrlDecode(EncodeWith(s, Utf8Charset, mode), Utf8Charset) == Ok(s)
    decreases |s|
  {
    if |s| > 0 {
      if !Escaped(s[0], mode) {
        DecodableSuffix(s, mode, 1);
        UrlDecodeEncodeWith(s[1..], mode);
        DecodeUnescapedHead(s, mode);
      } else {
        var n := EscapedPrefix(s, mode);
        DecodableSuffix(s, mode, n);
        UrlDecodeEncodeWith(s[n..], mode);
        DecodeEscapedHead(s, mode, n);
      }
    }
  }

  /** `URLDecoder.decode(URLEncoder.encode(s, UTF_8), UTF_8) == s`. */
  lemma UrlDecodeFormUrlEncode(s: string)
    ensures UrlDecode(FormUrlEncode(s, Utf8Charset), Utf8Charset) == Ok(s)
  {
    UrlDecodeEncodeWith(s, Form);
  }

  // ---------------------------------------------------------------------
  // `String.replace(target, replacement)`

  /** Replaces every occurrence of `pat`, scanning left to right and
      resuming after each replaced occurrence. */
  function ReplaceAll(s: string, pat: string, rep: string): string
    requires |pat| > 0
  {
    if |pat| <= |s| && s[..|pat|] == pat then rep + ReplaceAll(s[|pat|..], pat, rep)
    else if |s| == 0 then ""
    else [s[0]] + ReplaceAll(s[1..], pat, rep)
  }

  /** No occurrence of `pat` can start in `a` and run past its end. */
  predicate NoStraddle(a: string, pat: string)
    requires |pat| > 0
  {
    forall j :: 0 <= j < |a| && |a| < j + |pat| ==> a[j] != pat[0]
  }

  /** Replacing distributes over `a + b` when no occurrence straddles the
      seam; for a one-character pattern it always does. */
  lemma {:induction false} ReplaceAllAppend(a: string, b: string, pat: string, rep: string)
    requires |pat| > 0 && NoStraddle(a, pat)
    ensures ReplaceAll(a + b, pat, rep) == ReplaceAll(a, pat, rep) + ReplaceAll(b, pat, rep)
  {
    if |a| == 0 {
      assert a + b == b;
    } else if |pat| <= |a| && a[..|pat|] == pat {
      assert (a + b)[..|pat|] == pat;
      assert (a + b)[|pat|..] == a[|pat|..] + b;
      var a' := a[|pat|..];
      assert NoStraddle(a', pat) by {
        forall j | 0 <= j < |a'| && |a'| < j + |pat|
          ensures a'[j] != pat[0]
        {
          assert a'[j] == a[j + |pat|];
        }
      }
      ReplaceAllAppend(a', b, pat, rep);
    } else {
      if |pat| <= |a + b| {
        if |pat| <= |a| {
          assert (a + b)[..|pat|] == a[..|pat|];
        } else {
          assert (a + b)[..|pat|][0] == a[0];
        }
      }
      assert (a + b)[1..] == a[1..] + b;
      assert NoStraddle(a[1..], pat) by {
        forall j | 0 <= j < |a[1..]| && |a[1..]| < j + |pat|
          ensures a[1..][j] != pat[0]
        {
          assert a[1..][j] == a[j + 1];
        }
      }
      ReplaceAllAppend(a[1..], b, pat, rep);
      assert [a[0]] + (ReplaceAll(a[1..], pat, rep) + ReplaceAll(b, pat, rep))
        == ([a[0]] + ReplaceAll(a[1..], pat, rep)) + ReplaceAll(b, pat, rep);
    }
  }

  /** Text in which the pattern's first character never occurs is left
      alone. */
  lemma {:induction false} ReplaceAllAbsent(s: string, pat: string, rep: string)
    requires |pat| > 0
    requires forall i :: 0 <= i < |s| ==> s[i] != pat[0]
    ensures ReplaceAll(s, pat, rep) == s
  {
    if |s| > 0 {
      if |pat| <= |s| {
        assert s[..|pat|][0] == s[0];
      }
      ReplaceAllAbsent(s[1..], pat, rep);
      assert [s[0]] + s[1..] == s;
    }
  }

  lemma ReplaceAllWhole(pat: string, rep: string)
    requires |pat| > 0
    ensures ReplaceAll(pat, pat, rep) == rep
  {
    assert pat[..|pat|] == pat;
    assert ReplaceAll(pat[|pat|..], pat, rep) == "";
  }

  // ---------------------------------------------------------------------
  // The tcp-lookup codec

  const PLUS: string := "+"
  const PLUS_URL_ENCODED: string := "%2B"
  const SPACE_URL_ENCODED: string := "%20"

  /** `TcpLookup.decodeRequest`: every `+` becomes `%2B` before decoding,
      so it is read as a plus sign, never as a space. */
  function DecodeRequest(data: string): Result<string, DecodeError> {
    UrlDecode(ReplaceAll(data, PLUS, PLUS_URL_ENCODED), Utf8Charset)
  }

  /** `TcpLookup.encodeResponse`: the form encoding, with its `+` for a
      space turned into `%20` and its `%2B` for a plus turned back into
      `+`. */
  function EncodeResponse(data: string): string {
    ReplaceAll(ReplaceAll(FormUrlEncode(data, Utf8Charset), PLUS, SPACE_URL_ENCODED), PLUS_URL_ENCODED, PLUS)
  }

  /** Reference: how the tcp-lookup reply writes each character. */
  function ResponseChar(c: char): string {
    if IsUnreserved(c) || c == '+' then [c]
    else if c == ' ' then SPACE_URL_ENCODED
    else Triplets(Utf8.EncodeChar(c))
  }

  function ResponseText(s: string): string {
    if |s| == 0 then "" else ResponseChar(s[0]) + ResponseText(s[1..])
  }

  /** The triplets `URLEncoder` writes for `+` and for a space. */
  lemma EscapedSigns()
    ensures Triplets([0x2B]) == PLUS_URL_ENCODED
    ensures Triplets([0x20]) == SPACE_URL_ENCODED
    ensures Utf8.EncodeChar('+') == [0x2B]
    ensures Utf8.EncodeChar(' ') == [0x20]
  {
    assert [0x2B as byte][1..] == [];
    assert [0x20 as byte][1..] == [];
  }

  lemma TripletsNoPlus(bs: seq<byte>)
    ensures forall i :: 0 <= i < |Triplets(bs)| ==> Triplets(bs)[i] != '+'
  {
    TripletsShape(bs);
  }

  /** The one byte whose triplet is `%2B` is 0x2B. */
  lemma TripletIsPlus(b: byte)
    ensures Triplet(b) == PLUS_URL_ENCODED <==> b == 0x2B
  {
    if Triplet(b) == PLUS_URL_ENCODED {
      assert HexUpper(b as int / 16) == '2' && HexUpper(b as int % 16) == 'B';
    }
  }

  /** Triplets of bytes other than 0x2B survive the `%2B` rewrite. */
  lemma {:induction false} ReplacePlusTripletsAbsent(bs: seq<byte>)
    requires forall i :: 0 <= i < |bs| ==> bs[i] != 0x2B
    ensures ReplaceAll(Triplets(bs), PLUS_URL_ENCODED, PLUS) == Triplets(bs)
  {
    if |bs| > 0 {
      var t := Triplet(bs[0]);
      ReplaceTripletUntouched(bs[0]);
      ReplaceAllAppend(t, Triplets(bs[1..]), PLUS_URL_ENCODED, PLUS);
      ReplacePlusTripletsAbsent(bs[1..]);
    }
  }

  /** One triplet other than `%2B` neither is nor starts a `%2B`. */
  lemma ReplaceTripletUntouched(b: byte)
    requires b != 0x2B
    ensures NoStraddle(Triplet(b), PLUS_URL_ENCODED)
    ensures ReplaceAll(Triplet(b), PLUS_URL_ENCODED, PLUS) == Triplet(b)
  {
    var t := Triplet(b);
    TripletIsPlus(b);
    assert t[..3] == t;
    ReplaceAllAbsent(t[1..], PLUS_URL_ENCODED, PLUS);
    assert [t[0]] + t[1..] == t;
  }

  /** Only `+` itself has 0x2B among its UTF-8 bytes. */
  lemma Utf8PlusByte(c: char)
    requires c != '+'
    ensures forall i :: 0 <= i < |Utf8.EncodeChar(c)| ==> Utf8.EncodeChar(c)[i] != 0x2B
  {
  }

  /** One character through both rewrites of `encodeResponse`. */
  lemma EncodeResponseChar(c: char)
    ensures ReplaceAll(ReplaceAll(EncodeCharWith(c, Utf8Charset, Form), PLUS, SPACE_URL_ENCODED),
                       PLUS_URL_ENCODED, PLUS) == ResponseChar(c)
  {
    var e := EncodeCharWith(c, Utf8Charset, Form);
    if IsUnreserved(c) {
      ReplaceAllAbsent(e, PLUS, SPACE_URL_ENCODED);
      ReplaceAllAbsent(e, PLUS_URL_ENCODED, PLUS);
    } else if c == ' ' {
      ReplaceAllWhole(PLUS, SPACE_URL_ENCODED);
      assert ReplaceAll(SPACE_URL_ENCODED, PLUS_URL_ENCODED, PLUS) == SPACE_URL_ENCODED by {
        ReplaceAllAbsent(SPACE_URL_ENCODED[1..], PLUS_URL_ENCODED, PLUS);
      }
    } else {
      TripletsNoPlus(Utf8.EncodeChar(c));
      ReplaceAllAbsent(e, PLUS, SPACE_URL_ENCODED);
      if c == '+' {
        EscapedSigns();
        ReplaceAllWhole(PLUS_URL_ENCODED, PLUS);
      } else {
        Utf8PlusByte(c);
        ReplacePlusTripletsAbsent(Utf8.EncodeChar(c));
      }
    }
  }

  /** The form encoding of a single character is whole: any `%` in it has
      its two digits inside it. */
  lemma EncodedCharNoStraddle(c: char)
    ensures NoStraddle(EncodeCharWith(c, Utf8Charset, Form), PLUS_URL_ENCODED)
    ensures NoStraddle(ResponseChar(c), PLUS_URL_ENCODED)
    ensures NoStraddle(ResponseChar(c), PLUS)
  {
    var bs := Utf8.EncodeChar(c);
    if Escaped(c, Form) {
      TripletsNoStraddle(bs, PLUS_URL_ENCODED);
    }
    if !(IsUnreserved(c) || c == '+' || c == ' ') {
      TripletsNoStraddle(bs, PLUS_URL_ENCODED);
    }
  }

  /** The last two characters of a run of triplets are hex digits, so no
      pattern of at most three characters that opens with `%` starts there. */
  lemma TripletsNoStraddle(bs: seq<byte>, pat: string)
    requires 0 < |pat| <= 3 && pat[0] == '%'
    ensures NoStraddle(Triplets(bs), pat)
  {
    var t := Triplets(bs);
    TripletsShape(bs);
    forall j | 0 <= j < |t| && |t| < j + |pat|
      ensures t[j] != pat[0]
    {
      assert j % 3 != 0;
    }
  }

  /** `encodeResponse` writes every character on its own: letters, digits,
      `.-*_` and `+` as themselves, a space as `%20`, anything else as the
      upper-case triplets of its UTF-8 bytes. */
  lemma {:induction false} EncodeResponseIsResponseText(s: string)
    ensures EncodeResponse(s) == ResponseText(s)
  {
    if |s| > 0 {
      var e := EncodeCharWith(s[0], Utf8Charset, Form);
      var f := FormUrlEncode(s[1..], Utf8Charset);
      assert FormUrlEncode(s, Utf8Charset) == e + f;
      ReplaceAllAppend(e, f, PLUS, SPACE_URL_ENCODED);
      var e1 := ReplaceAll(e, PLUS, SPACE_URL_ENCODED);
      var f1 := ReplaceAll(f, PLUS, SPACE_URL_ENCODED);
      EncodedCharNoStraddle(s[0]);
      EncodeResponseChar(s[0]);
      NoStraddleAfterPlus(s[0]);
      ReplaceAllAppend(e1, f1, PLUS_URL_ENCODED, PLUS);
      EncodeResponseIsResponseText(s[1..]);
    }
  }

  /** Rewriting `+` in a single character's form encoding keeps it whole. */
  lemma NoStraddleAfterPlus(c: char)
    ensures NoStraddle(ReplaceAll(EncodeCharWith(c, Utf8Charset, Form), PLUS, SPACE_URL_ENCODED),
                       PLUS_URL_ENCODED)
  {
    var e := EncodeCharWith(c, Utf8Charset, Form);
    if c == ' ' {
      ReplaceAllWhole(PLUS, SPACE_URL_ENCODED);
    } else {
      TripletsNoPlus(Utf8.EncodeChar(c));
      ReplaceAllAbsent(e, PLUS, SPACE_URL_ENCODED);
      EncodedCharNoStraddle(c);
    }
  }

  /** The output of `encodeResponse` holds only unreserved characters, `+`,
      and `%` followed by two upper-case hex digits: never a space, never a
      control character. */
  lemma {:induction false} EncodeResponseAlphabet(s: string)
    ensures forall i :: 0 <= i < |EncodeResponse(s)| ==>
      var c := EncodeResponse(s)[i];
      (IsUnreserved(c) || c == '+' || c == '%' || IsUpperHex(c)) && c > ' '
  {
    EncodeResponseIsResponseText(s);
    ResponseTextAlphabet(s);
  }

  lemma {:induction false} ResponseTextAlphabet(s: string)
    ensures forall i :: 0 <= i < |ResponseText(s)| ==>
      var c := ResponseText(s)[i];
      (IsUnreserved(c) || c == '+' || c == '%' || IsUpperHex(c)) && c > ' '
  {
    if |s| > 0 {
      ResponseTextAlphabet(s[1..]);
      var head := ResponseChar(s[0]);
      TripletsShape(Utf8.EncodeChar(s[0]));
      var r := ResponseText(s);
      forall i | 0 <= i < |r|
        ensures (IsUnreserved(r[i]) || r[i] == '+' || r[i] == '%' || IsUpperHex(r[i])) && r[i] > ' '
      {
        if i >= |head| {
          assert r[i] == ResponseText(s[1..])[i - |head|];
        }
      }
    }
  }

  /** What `replace("+", "%2B")` does to the reply: exactly the percent
      encoding that escapes every non-unreserved character. */
  lemma {:induction false} ResponseTextPlusRewrite(s: string)
    ensures ReplaceAll(ResponseText(s), PLUS, PLUS_URL_ENCODED) == EncodeWith(s, Utf8Charset, Percent)
  {
    if |s| > 0 {
      var c := s[0];
      var h := ResponseChar(c);
      EncodedCharNoStraddle(c);
      ReplaceAllAppend(h, ResponseText(s[1..]), PLUS, PLUS_URL_ENCODED);
      ResponseTextPlusRewrite(s[1..]);
      if IsUnreserved(c) {
        ReplaceAllAbsent(h, PLUS, PLUS_URL_ENCODED);
      } else if c == '+' {
        ReplaceAllWhole(PLUS, PLUS_URL_ENCODED);
        EscapedSigns();
      } else if c == ' ' {
        ReplaceAllAbsent(h, PLUS, PLUS_URL_ENCODED);
        EscapedSigns();
      } else {
        TripletsNoPlus(Utf8.EncodeChar(c));
        ReplaceAllAbsent(h, PLUS, PLUS_URL_ENCODED);
      }
    }
  }

  /** Every text survives percent-only escaping: `%` and `+` are escaped. */
  lemma PercentDecodable(s: string)
    ensures Decodable(s, Percent)
  {
  }

  /** `decodeRequest(encodeResponse(s)) == s` for every string. */
  lemma DecodeRequestEncodeResponse(s: string)
    ensures DecodeRequest(EncodeResponse(s)) == Ok(s)
  {
    EncodeResponseIsResponseText(s);
    ResponseTextPlusRewrite(s);
    PercentDecodable(s);
    UrlDecodeEncodeWith(s, Percent);
  }

  /** `replace("+", "%2B")` on text without `%` is the encoding that
      escapes just `+`. */
  lemma {:induction false} PlusRewriteEncodes(t: string)
    ensures ReplaceAll(t, PLUS, PLUS_URL_ENCODED) == EncodeWith(t, Utf8Charset, PlusOnly)
  {
    if |t| > 0 {
      var h := EncodeCharWith(t[0], Utf8Charset, PlusOnly);
      assert [t[0]] + t[1..] == t;
      ReplaceAllAppend([t[0]], t[1..], PLUS, PLUS_URL_ENCODED);
      PlusRewriteEncodes(t[1..]);
      if t[0] == '+' {
        ReplaceAllWhole(PLUS, PLUS_URL_ENCODED);
        EscapedSigns();
      } else {
        ReplaceAllAbsent([t[0]], PLUS, PLUS_URL_ENCODED);
      }
    }
  }

  /** A wire `+` decodes to `+`: text without `%` decodes to itself, plus
      signs included, where the bare `URLDecoder` would give spaces. */
  lemma DecodeRequestKeepsPlus(t: string)
    requires forall i :: 0 <= i < |t| ==> t[i] != '%'
    ensures DecodeRequest(t) == Ok(t)
  {
    PlusRewriteEncodes(t);
    UrlDecodeEncodeWith(t, PlusOnly);
  }

  // ---------------------------------------------------------------------
  // `URLDecoder.decode(data, charsetName)`

  /** `Charset.forName` on the names the connector uses; any other name is
      an `UnsupportedEncodingException`. */
  function CharsetNamed(name: string): (r: Option<Charset>)
    ensures r == Some(Utf8Charset) <==> name == "UTF-8"
    ensures r == Some(UsAscii) <==> name == "US-ASCII"
  {
    if name == "UTF-8" then Some(Utf8Charset)
    else if name == "US-ASCII" then Some(UsAscii)
    else None
  }

  /** `decodeURLEncodedData` with the charset given by name: an unsupported
      name hands the data back undecoded; a malformed escape still throws. */
  function DecodeWithCharsetName(data: string, name: string): (r: Result<string, DecodeError>)
    ensures CharsetNamed(name).None? ==> r == Ok(data)
    ensures CharsetNamed(name).Some? ==> r == UrlDecode(data, CharsetNamed(name).value)
  {
    match CharsetNamed(name)
    case None => Ok(data)
    case Some(cs) => UrlDecode(data, cs)
  }

  /** The Java revisions' `PostfixProtocol.decodeURLEncodedData` and the
      legacy `decodeRequestData`: the bare decoder with `US_ASCII.name()`. */
  function DecodeUrlEncodedData(data: string): Result<string, DecodeError> {
    DecodeWithCharsetName(data, "US-ASCII")
  }

  /** The Java decoder reads `+` as a space and every escaped byte above
      0x7F as U+FFFD. */
  lemma DecodeUrlEncodedDataIsAscii(data: string)
    ensures DecodeUrlEncodedData(data) == UrlDecode(data, UsAscii)
  {
  }

  // ---------------------------------------------------------------------
  // Behaviour on particular inputs

  /** A run of triplets decodes as one unit, in front of whatever follows. */
  lemma UrlDecodeRun(bs: seq<byte>, tail: string, cs: Charset, rest: string)
    requires |bs| > 0
    requires |tail| == 0 || tail[0] != '%'
    requires UrlDecode(tail, cs) == Ok(rest)
    ensures UrlDecode(Triplets(bs) + tail, cs) == Ok(CharsetDecode(bs, cs) + rest)
  {
    EscapeRunOfTriplets(bs, tail);
  }

  lemma UrlDecodeTriplets(bs: seq<byte>, cs: Charset)
    requires |bs| > 0
    ensures UrlDecode(Triplets(bs), cs) == Ok(CharsetDecode(bs, cs))
  {
    var t := Triplets(bs);
    assert t + "" == t;
    UrlDecodeRun(bs, "", cs, "");
    assert CharsetDecode(bs, cs) + "" == CharsetDecode(bs, cs);
  }

  /** A character other than `%` and `+` is copied. */
  lemma UrlDecodeLiteral(c: char, t: string, cs: Charset, rest: string)
    requires c != '%' && c != '+'
    requires UrlDecode(t, cs) == Ok(rest)
    ensures UrlDecode([c] + t, cs) == Ok([c] + rest)
  {
    assert ([c] + t)[1..] == t;
  }

  /** A `+` is a space. */
  lemma UrlDecodePlus(t: string, cs: Charset, rest: string)
    requires UrlDecode(t, cs) == Ok(rest)
    ensures UrlDecode(PLUS + t, cs) == Ok(" " + rest)
  {
    assert (PLUS + t)[1..] == t;
  }

  /** Two runs of triplets around one plain character. */
  lemma UrlDecodeTwoRuns(b1: seq<byte>, c: char, b2: seq<byte>, cs: Charset)
    requires |b1| > 0 && |b2| > 0 && c != '%' && c != '+'
    ensures UrlDecode(Triplets(b1) + ([c] + Triplets(b2)), cs)
      == Ok(CharsetDecode(b1, cs) + [c] + CharsetDecode(b2, cs))
  {
    var t2 := Triplets(b2);
    UrlDecodeTriplets(b2, cs);
    var d2 := CharsetDecode(b2, cs);
    UrlDecodeLiteral(c, t2, cs, d2);
    UrlDecodeRun(b1, [c] + t2, cs, [c] + d2);
    assert CharsetDecode(b1, cs) + ([c] + d2) == CharsetDecode(b1, cs) + [c] + d2;
  }

  /** A leading `+` is the only one `replace("+", "%2B")` finds. */
  lemma EscapeLeadingPlus(t: string)
    requires Joiner.Lacks(t, '+')
    ensures ReplaceAll(PLUS + t, PLUS, PLUS_URL_ENCODED) == Triplets([0x2B]) + t
  {
    ReplaceAllAppend(PLUS, t, PLUS, PLUS_URL_ENCODED);
    ReplaceAllWhole(PLUS, PLUS_URL_ENCODED);
    ReplaceAllAbsent(t, PLUS, PLUS_URL_ENCODED);
    EscapedSigns();
  }

  lemma TwoRunsNoPlus(b1: seq<byte>, c: char, b2: seq<byte>)
    requires c != '+'
    ensures Joiner.Lacks(Triplets(b1) + ([c] + Triplets(b2)), '+')
  {
    TripletsNoPlus(b1);
    TripletsNoPlus(b2);
    var t := Triplets(b1) + ([c] + Triplets(b2));
    forall i | 0 <= i < |t|
      ensures t[i] != '+'
    {
      if i >= |Triplets(b1)| + 1 {
        assert t[i] == Triplets(b2)[i - |Triplets(b1)| - 1];
      }
    }
  }

  /** Escaping the `+` signs of a wire text that starts with one and holds
      no other. */
  lemma EscapePlusTwoRuns(b1: seq<byte>, c: char, b2: seq<byte>)
    requires c != '+'
    ensures ReplaceAll(PLUS + (Triplets(b1) + ([c] + Triplets(b2))), PLUS, PLUS_URL_ENCODED)
      == Triplets([0x2B] + b1) + ([c] + Triplets(b2))
  {
    var t1, t2 := Triplets(b1), Triplets(b2);
    var t := t1 + ([c] + t2);
    TwoRunsNoPlus(b1, c, b2);
    EscapeLeadingPlus(t);
    TripletsAppend([0x2B], b1);
    assert Triplets([0x2B]) + t == (Triplets([0x2B]) + t1) + ([c] + t2);
  }

  /** `decodeRequest` of a `+`, then two runs of triplets around one plain
      character. */
  lemma DecodeRequestTwoRuns(b1: seq<byte>, c: char, b2: seq<byte>)
    requires |b2| > 0 && c != '%' && c != '+'
    ensures DecodeRequest(PLUS + (Triplets(b1) + ([c] + Triplets(b2))))
      == Ok(CharsetDecode([0x2B] + b1, Utf8Charset) + [c] + CharsetDecode(b2, Utf8Charset))
  {
    EscapePlusTwoRuns(b1, c, b2);
    UrlDecodeTwoRuns([0x2B] + b1, c, b2, Utf8Charset);
  }

  lemma TripletsCons(b: byte, bs: seq<byte>)
    ensures Triplets([b] + bs) == Triplet(b) + Triplets(bs)
  {
    assert ([b] + bs)[1..] == bs;
  }

  /** The triplets of three bytes, and of four. */
  lemma Triplets3(a: byte, b: byte, c: byte)
    ensures Triplets([a, b, c]) == Triplet(a) + (Triplet(b) + Triplet(c))
  {
    TripletsCons(c, []);
    assert [c] + [] == [c];
    assert Triplet(c) + Triplets([]) == Triplet(c);
    TripletsCons(b, [c]);
    TripletsCons(a, [b] + [c]);
    assert [a, b, c] == [a] + ([b] + [c]);
  }

  lemma Triplets4(a: byte, b: byte, c: byte, d: byte)
    ensures Triplets([a, b, c, d]) == Triplet(a) + (Triplet(b) + (Triplet(c) + Triplet(d)))
  {
    Triplets3(b, c, d);
    TripletsCons(a, [b, c, d]);
    assert [a, b, c, d] == [a] + [b, c, d];
  }

  lemma SpacePercentTriplets()
    ensures Triplets([0x20, 0x25]) == "%20%25"
  {
    assert Triplets([0x20, 0x25]) == Triplet(0x20) + Triplet(0x25);
  }

  lemma SectionSharpSTriplets()
    ensures Triplets([0xC2, 0xA7, 0xC3, 0x9F]) == "%C2%A7%C3%9F"
  {
    Triplets4(0xC2, 0xA7, 0xC3, 0x9F);
  }

  lemma FixtureWire()
    ensures PLUS + (Triplets([0x20, 0x25]) + (['&'] + Triplets([0xC2, 0xA7, 0xC3, 0x9F])))
      == "+%20%25&%C2%A7%C3%9F"
  {
    SpacePercentTriplets();
    SectionSharpSTriplets();
  }

  lemma FixtureBytes()
    ensures CharsetDecode([0x2B, 0x20, 0x25], Utf8Charset) == "+ %"
    ensures CharsetDecode([0xC2, 0xA7, 0xC3, 0x9F], Utf8Charset) == "§ß"
  {
    assert Utf8.Encode("+ %") == [0x2B, 0x20, 0x25];
    Utf8.DecodeEncode("+ %");
    assert Utf8.Encode("§ß") == [0xC2, 0xA7, 0xC3, 0x9F] by {
      Utf8.EncodeFixtures();
    }
    Utf8.DecodeEncode("§ß");
  }

  /** `decodeRequest("+%20%25&%C2%A7%C3%9F") == "+ %&§ß"`. */
  lemma DecodeRequestFixture()
    ensures DecodeRequest("+%20%25&%C2%A7%C3%9F") == Ok("+ %&§ß")
  {
    var b1: seq<byte> := [0x20, 0x25];
    var b2: seq<byte> := [0xC2, 0xA7, 0xC3, 0x9F];
    var w := PLUS + (Triplets(b1) + (['&'] + Triplets(b2)));
    var d := CharsetDecode([0x2B] + b1, Utf8Charset) + ['&'] + CharsetDecode(b2, Utf8Charset);
    assert w == "+%20%25&%C2%A7%C3%9F" by {
      FixtureWire();
    }
    assert d == "+ %&§ß" by {
      assert [0x2B as byte] + b1 == [0x2B, 0x20, 0x25];
      FixtureBytes();
    }
    assert DecodeRequest(w) == Ok(d) by {
      DecodeRequestTwoRuns(b1, '&', b2);
    }
  }

  /** The Java decoder turns the same wire text into a leading space and a
      replacement character per byte of `§` and `ß`. */
  lemma DecodeUrlEncodedDataFixture()
    ensures DecodeUrlEncodedData("+%20%25&%C2%A7%C3%9F")
      == Ok("  %&" + [Utf8.REPLACEMENT, Utf8.REPLACEMENT, Utf8.REPLACEMENT, Utf8.REPLACEMENT])
  {
    var b1: seq<byte> := [0x20, 0x25];
    var b2: seq<byte> := [0xC2, 0xA7, 0xC3, 0x9F];
    var t := Triplets(b1) + (['&'] + Triplets(b2));
    var w := PLUS + t;
    var d := " " + (CharsetDecode(b1, UsAscii) + ['&'] + CharsetDecode(b2, UsAscii));
    assert w == "+%20%25&%C2%A7%C3%9F" by {
      FixtureWire();
    }
    assert d == "  %&" + [Utf8.REPLACEMENT, Utf8.REPLACEMENT, Utf8.REPLACEMENT, Utf8.REPLACEMENT] by {
      AsciiFixtureBytes();
    }
    assert UrlDecode(w, UsAscii) == Ok(d) by {
      UrlDecodeTwoRuns(b1, '&', b2, UsAscii);
      UrlDecodePlus(t, UsAscii, CharsetDecode(b1, UsAscii) + ['&'] + CharsetDecode(b2, UsAscii));
    }
    DecodeUrlEncodedDataIsAscii(w);
  }

  lemma AsciiFixtureBytes()
    ensures CharsetDecode([0x20, 0x25], UsAscii) == " %"
    ensures CharsetDecode([0xC2, 0xA7, 0xC3, 0x9F], UsAscii)
      == [Utf8.REPLACEMENT, Utf8.REPLACEMENT, Utf8.REPLACEMENT, Utf8.REPLACEMENT]
  {
  }

  lemma ResponseTextCons(c: char, s: string)
    ensures ResponseText([c] + s) == ResponseChar(c) + ResponseText(s)
  {
    assert ([c] + s)[1..] == s;
  }

  /** `ResponseText` of six characters. */
  lemma ResponseText6(c0: char, c1: char, c2: char, c3: char, c4: char, c5: char)
    ensures ResponseText([c0, c1, c2, c3, c4, c5])
      == ResponseChar(c0) + (ResponseChar(c1) + (ResponseChar(c2)
       + (ResponseChar(c3) + (ResponseChar(c4) + ResponseChar(c5)))))
  {
    var s := [c0, c1, c2, c3, c4, c5];
    assert s == [c0] + ([c1] + ([c2] + ([c3] + ([c4] + [c5]))));
    ResponseTextCons(c5, []);
    assert [c5] + [] == [c5];
    assert ResponseChar(c5) + ResponseText([]) == ResponseChar(c5);
    ResponseTextCons(c4, [c5]);
    ResponseTextCons(c3, [c4] + [c5]);
    ResponseTextCons(c2, [c3] + ([c4] + [c5]));
    ResponseTextCons(c1, [c2] + ([c3] + ([c4] + [c5])));
    ResponseTextCons(c0, [c1] + ([c2] + ([c3] + ([c4] + [c5]))));
  }

  lemma FixtureResponseChars()
    ensures ResponseChar('+') == "+"
    ensures ResponseChar(' ') == "%20"
    ensures ResponseChar('%') == "%25"
    ensures ResponseChar('&') == "%26"
    ensures ResponseChar('§') == "%C2%A7"
    ensures ResponseChar('ß') == "%C3%9F"
  {
    Utf8.EncodeFixtures();
    assert Triplets([0xC2, 0xA7]) == Triplet(0xC2) + Triplet(0xA7);
    assert Triplets([0xC3, 0x9F]) == Triplet(0xC3) + Triplet(0x9F);
  }

  /** `encodeResponse("+ %&§ß") == "+%20%25%26%C2%A7%C3%9F"`. */
  lemma EncodeResponseFixture()
    ensures EncodeResponse("+ %&§ß") == "+%20%25%26%C2%A7%C3%9F"
  {
    var r := ResponseChar('+') + (ResponseChar(' ') + (ResponseChar('%')
      + (ResponseChar('&') + (ResponseChar('§') + ResponseChar('ß')))));
    assert r == "+%20%25%26%C2%A7%C3%9F" by {
      FixtureResponseChars();
    }
    assert EncodeResponse("+ %&§ß") == r by {
      EncodeResponseIsResponseText("+ %&§ß");
      ResponseText6('+', ' ', '%', '&', '§', 'ß');
    }
  }

  /** `URLDecoder.decode` of a lone escape. */
  lemma SingleEscape(a: char, b: char, cs: Charset)
    ensures ParseHexPair(a, b).None? ==> UrlDecode(['%', a, b], cs) == Err(IllegalHex)
    ensures ParseHexPair(a, b).Some? && ParseHexPair(a, b).value < 0
      ==> UrlDecode(['%', a, b], cs) == Err(NegativeEscape)
    ensures ParseHexPair(a, b).Some? && ParseHexPair(a, b).value >= 0
      ==> UrlDecode(['%', a, b], cs) == Ok(CharsetDecode([ParseHexPair(a, b).value as byte], cs))
  {
    var t := ['%', a, b];
    assert |t| == 3 && t[0] == '%' && t[1] == a && t[2] == b;
    assert t[3..] == [];
    assert EscapeRun(t[3..]) == Ok(([], []));
    assert UrlDecode([], cs) == Ok([]);
    match ParseHexPair(a, b)
    case None =>
    case Some(v) =>
      if v >= 0 {
        assert [v as byte] + [] == [v as byte];
        assert EscapeRun(t) == Ok(([v as byte], []));
        assert CharsetDecode([v as byte], cs) + [] == CharsetDecode([v as byte], cs);
      }
  }

  /** The three ways `URLDecoder.decode` fails, and the signed escapes it
      accepts. */
  lemma UrlDecodeErrors(cs: Charset)
    ensures UrlDecode("%4", cs) == Err(IncompleteEscape)
    ensures UrlDecode("a%", cs) == Err(IncompleteEscape)
    ensures UrlDecode("%zz", cs) == Err(IllegalHex)
    ensures UrlDecode("%-1", cs) == Err(NegativeEscape)
    ensures UrlDecode("%+1", cs) == Ok(['\U{1}'])
    ensures UrlDecode("%-0", cs) == Ok(['\U{0}'])
  {
    assert "a%"[1..] == "%";
    SingleEscape('z', 'z', cs);
    SingleEscape('-', '1', cs);
    SingleEscape('+', '1', cs);
    SingleEscape('-', '0', cs);
    assert Utf8.Decode([1]) == ['\U{1}'];
    assert Utf8.Decode([0]) == ['\U{0}'];
  }
}
