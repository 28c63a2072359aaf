/**
 * The JavaScript built-in `encodeURIComponent`, as the ECMAScript Language
 * Specification defines it (the Encode abstract operation with the
 * unreserved set of encodeURIComponent): characters outside the unreserved
 * set are written as the UTF-8 bytes of their code point, each byte as `%`
 * followed by two upper-case hexadecimal digits.
 *
 * Dafny's `char` is a Unicode scalar value, so the lone surrogates for which
 * the built-in throws `URIError` cannot be expressed here.
 *
 * The decoder below is a left inverse of the encoder; it is what makes the
 * encoder injective.
 */
module UriEncoding {
  import opened Wrappers

  type byte = b: int | 0 <= b < 256

  /** Characters that encodeURIComponent copies unchanged. */
  predicate IsUnreserved(c: char) {
    ('A' <= c <= 'Z') || ('a' <= c <= 'z') || ('0' <= c <= '9') || c in "-_.!~*'()"
  }

  predicate IsUpperHexDigit(c: char) {
    ('0' <= c <= '9') || ('A' <= c <= 'F')
  }

  /** The upper-case hexadecimal digit of `n`. */
  function HexDigit(n: int): (c: char)
    requires 0 <= n < 16
    ensures IsUpperHexDigit(c)
    ensures HexValue(c) == Some(n)
  {
    if n < 10 then (48 + n) as char else (55 + n) as char
  }

  /** The value of a hexadecimal digit of either case. */
  function HexValue(c: char): (r: Option<int>)
    ensures r.Some? ==> 0 <= r.value < 16
    ensures r.Some? <==> ('0' <= c <= '9') || ('A' <= c <= 'F') || ('a' <= c <= 'f')
  {
    if '0' <= c <= '9' then Some(c as int - 48)
    else if 'A' <= c <= 'F' then Some(c as int - 55)
    else if 'a' <= c <= 'f' then Some(c as int - 87)
    else None
  }

  /** The UTF-8 encoding of one Unicode scalar value. */
  function Utf8(c: char): (bs: seq<byte>)
    ensures 1 <= |bs| <= 4
  {
    var cp := c as int;
    if cp < 0x80 then [cp]
    else if cp < 0x800 then [0xC0 + cp / 64, 0x80 + cp % 64]
    else if cp < 0x1_0000 then [0xE0 + cp / 4096, 0x80 + (cp / 64) % 64, 0x80 + cp % 64]
    else [0xF0 + cp / 262144, 0x80 + (cp / 4096) % 64, 0x80 + (cp / 64) % 64, 0x80 + cp % 64]
  }

  /** How many bytes a UTF-8 sequence has, read off its first byte (0 for a byte that cannot start one). */
  function SequenceLength(lead: byte): nat {
    if lead < 0x80 then 1
    else if 0xC0 <= lead < 0xE0 then 2
    else if 0xE0 <= lead < 0xF0 then 3
    else if 0xF0 <= lead < 0xF8 then 4
    else 0
  }

  /** The code point a UTF-8 sequence of the length its lead byte announces stands for. */
  function CodePoint(bs: seq<byte>): int
    requires 1 <= |bs| <= 4
  {
    var b := seq(|bs|, i requires 0 <= i < |bs| => bs[i] as int);
    if |b| == 1 then b[0]
    else if |b| == 2 then (b[0] - 0xC0) * 64 + (b[1] - 0x80)
    else if |b| == 3 then (b[0] - 0xE0) * 4096 + (b[1] - 0x80) * 64 + (b[2] - 0x80)
    else (b[0] - 0xF0) * 262144 + (b[1] - 0x80) * 4096 + (b[2] - 0x80) * 64 + (b[3] - 0x80)
  }

  predicate IsScalarValue(cp: int) {
    (0 <= cp < 0xD800) || (0xE000 <= cp < 0x11_0000)
  }

  /** A code point splits into the six-bit groups that UTF-8 stores. */
  lemma SixBitGroups(cp: int)
    requires 0 <= cp
    ensures cp == (cp / 64) * 64 + cp % 64
    ensures cp / 64 == ((cp / 64) / 64) * 64 + (cp / 64) % 64
    ensures (cp / 64) / 64 == cp / 4096
    ensures (cp / 4096) / 64 == cp / 262144
    ensures cp / 4096 == (cp / 262144) * 64 + (cp / 4096) % 64
  {
  }

  /** The lead byte announces the sequence length, and the sequence decodes back to the character. */
  lemma Utf8RoundTrip(c: char)
    ensures SequenceLength(Utf8(c)[0]) == |Utf8(c)|
    ensures CodePoint(Utf8(c)) == c as int
  {
    var cp := c as int;
    SixBitGroups(cp);
  }

  /** `%XX` for one byte. */
  function PercentByte(b: byte): (t: string)
    ensures |t| == 3 && t[0] == '%'
    ensures IsUpperHexDigit(t[1]) && IsUpperHexDigit(t[2])
  {
    ['%', HexDigit(b / 16), HexDigit(b % 16)]
  }

  function PercentBytes(bs: seq<byte>): (t: string)
    ensures |t| == 3 * |bs|
  {
    if bs == [] then [] else PercentByte(bs[0]) + PercentBytes(bs[1..])
  }

  /** The encoding of one character: itself when unreserved, otherwise its percent-encoded UTF-8 bytes. */
  function EncodeChar(c: char): (t: string)
    ensures |t| >= 1
    ensures IsUnreserved(c) ==> t == [c]
    ensures !IsUnreserved(c) ==> t[0] == '%'
  {
    if IsUnreserved(c) then [c] else PercentBytes(Utf8(c))
  }

  /** `encodeURIComponent(s)`. */
  function EncodeUriComponent(s: string): string {
    if s == [] then [] else EncodeChar(s[0]) + EncodeUriComponent(s[1..])
  }

  /** Reads the byte of a `%XX` triplet. */
  function ParseByte(t: string): (r: Option<byte>)
    requires |t| >= 3
  {
    if t[0] != '%' then None
    else match (HexValue(t[1]), HexValue(t[2]))
      case (Some(hi), Some(lo)) => Some(hi * 16 + lo)
      case _ => None
  }

  /** Reads `n` consecutive `%XX` triplets from the front of `t`. */
  function ParseBytes(t: string, n: nat): (r: Option<seq<byte>>)
    ensures r.Some? ==> |r.value| == n && 3 * n <= |t|
    decreases n
  {
    if n == 0 then Some([])
    else if |t| < 3 then None
    else match (ParseByte(t[..3]), ParseBytes(t[3..], n - 1))
      case (Some(b), Some(bs)) => Some([b] + bs)
      case _ => None
  }

  /** Decodes the first character of an encoded string; returns it and how many characters it took. */
  function DecodeStep(t: string): (r: Option<(char, nat)>)
    requires t != []
    ensures r.Some? ==> 1 <= r.value.1 <= |t|
  {
    if t[0] != '%' then Some((t[0], 1))
    else if |t| < 3 then None
    else match ParseByte(t[..3])
      case None => None
      case Some(lead) =>
        var n := SequenceLength(lead);
        if n == 0 then None
        else match ParseBytes(t, n)
          case None => None
          case Some(bs) =>
            var cp := CodePoint(bs);
            if IsScalarValue(cp) then Some((cp as char, 3 * n)) else None
  }

  /** `decodeURIComponent`, as far as needed to undo the encoder: `None` for malformed input. */
  function DecodeUriComponent(t: string): (r: Option<string>)
    decreases |t|
  {
    if t == [] then Some([])
    else match DecodeStep(t)
      case None => None
      case Some((c, k)) =>
        match DecodeUriComponent(t[k..])
        case None => None
        case Some(rest) => Some([c] + rest)
  }

  lemma {:induction false} ParsePercentBytes(bs: seq<byte>, rest: string)
    ensures ParseBytes(PercentBytes(bs) + rest, |bs|) == Some(bs)
  {
    if bs != [] {
      var t := PercentBytes(bs) + rest;
      var b := bs[0];
      assert t[..3] == PercentByte(b);
      assert b == (b / 16) * 16 + b % 16;
      assert ParseByte(t[..3]) == Some(b);
      assert t[3..] == PercentBytes(bs[1..]) + rest;
      ParsePercentBytes(bs[1..], rest);
      assert ParseBytes(t[3..], |bs| - 1) == Some(bs[1..]);
      assert [b] + bs[1..] == bs;
    }
  }

  lemma DecodeStepEncodeChar(c: char, rest: string)
    ensures DecodeStep(EncodeChar(c) + rest) == Some((c, |EncodeChar(c)|))
  {
    var t := EncodeChar(c) + rest;
    if !IsUnreserved(c) {
      var bs := Utf8(c);
      Utf8RoundTrip(c);
      ParsePercentBytes(bs, rest);
      ParsePercentBytes([bs[0]], t[3..]);
      assert t == PercentBytes([bs[0]]) + t[3..];
      assert ParseBytes(t, 1) == Some([bs[0]]);
      assert ParseByte(t[..3]) == Some(bs[0]);
    }
  }

  /** decodeURIComponent(encodeURIComponent(s)) == s. */
  lemma {:induction false} DecodeEncode(s: string)
    ensures DecodeUriComponent(EncodeUriComponent(s)) == Some(s)
  {
    if s != [] {
      var t := EncodeUriComponent(s);
      DecodeStepEncodeChar(s[0], EncodeUriComponent(s[1..]));
      assert t[|EncodeChar(s[0])|..] == EncodeUriComponent(s[1..]);
      DecodeEncode(s[1..]);
      assert [s[0]] + s[1..] == s;
    }
  }

  /** Different strings have different encodings. */
  lemma EncodeInjective(s1: string, s2: string)
    requires EncodeUriComponent(s1) == EncodeUriComponent(s2)
    ensures s1 == s2
  {
    DecodeEncode(s1);
    DecodeEncode(s2);
  }

  /** Every character of an encoding is unreserved, `%`, or an upper-case hex digit. */
  predicate IsUriSafe(t: string) {
    forall i :: 0 <= i < |t| ==> IsUnreserved(t[i]) || t[i] == '%' || IsUpperHexDigit(t[i])
  }

  lemma {:induction false} PercentBytesSafe(bs: seq<byte>)
    ensures IsUriSafe(PercentBytes(bs))
  {
    if bs != [] {
      PercentBytesSafe(bs[1..]);
    }
  }

  /** The encoding never contains `/`, `?`, `&`, `=` or `#`, so it cannot end the query parameter it is put in. */
  lemma {:induction false} EncodeIsUriSafe(s: string)
    ensures IsUriSafe(EncodeUriComponent(s))
    ensures forall ch :: ch in "/?&=#" ==> ch !in EncodeUriComponent(s)
  {
    if s != [] {
      if !IsUnreserved(s[0]) {
        PercentBytesSafe(Utf8(s[0]));
      }
      EncodeIsUriSafe(s[1..]);
    }
  }
}
