/** `encodeURIComponent` (ECMAScript, section "URI Handling Functions"):
    every character outside the unreserved set `A-Z a-z 0-9 - _ . ! ~ * ' ( )`
    is replaced by the `%XX` escapes of its UTF-8 encoding, with upper-case hex
    digits. A Dafny `char` is a Unicode scalar value, so the lone surrogates
    for which the JavaScript function throws cannot occur here. */
module UriEncode {
  import opened Wrappers

  newtype byte = x: int | 0 <= x < 256

  const HexDigits: string := "0123456789ABCDEF"

  predicate IsAsciiAlnum(c: char) {
    ('A' <= c <= 'Z') || ('a' <= c <= 'z') || ('0' <= c <= '9')
  }

  /** The characters `encodeURIComponent` leaves as they are. */
  predicate IsUnreserved(c: char) {
    IsAsciiAlnum(c) || c == '-' || c == '_' || c == '.' || c == '!' || c == '~'
    || c == '*' || c == '\'' || c == '(' || c == ')'
  }

  predicate IsHexDigit(c: char) {
    ('0' <= c <= '9') || ('A' <= c <= 'F')
  }

  /** What an encoded string may contain. */
  predicate IsEncodedChar(c: char) {
    IsUnreserved(c) || c == '%'
  }

  /** The UTF-8 encoding of one scalar value. */
  function Utf8(c: char): (r: seq<byte>)
    ensures 1 <= |r| <= 4
    ensures c as int < 0x80 <==> |r| == 1
    ensures c as int < 0x80 ==> r[0] as int == c as int
  {
    var cp := c as int;
    if cp < 0x80 then [cp as byte]
    else if cp < 0x800 then [(0xC0 + cp / 64) as byte, (0x80 + cp % 64) as byte]
    else if cp < 0x10000 then
      [(0xE0 + cp / 4096) as byte, (0x80 + (cp / 64) % 64) as byte, (0x80 + cp % 64) as byte]
    else
      [(0xF0 + cp / 262144) as byte, (0x80 + (cp / 4096) % 64) as byte,
       (0x80 + (cp / 64) % 64) as byte, (0x80 + cp % 64) as byte]
  }

  function Utf8String(s: string): seq<byte> {
    if s == [] then [] else Utf8(s[0]) + Utf8String(s[1..])
  }

  /** `%XX` for one byte. */
  function Triplet(b: byte): string {
    ['%', HexDigits[b as int / 16], HexDigits[b as int % 16]]
  }

  /** `%XX` for each byte. */
  function PercentBytes(bs: seq<byte>): (r: string)
    ensures |r| == 3 * |bs|
  {
    if bs == [] then [] else Triplet(bs[0]) + PercentBytes(bs[1..])
  }

  lemma {:induction false} PercentBytesChars(bs: seq<byte>)
    ensures forall k :: 0 <= k < |PercentBytes(bs)| ==> IsEncodedChar(PercentBytes(bs)[k])
  {
    if bs != [] {
      PercentBytesChars(bs[1..]);
      var t, r := Triplet(bs[0]), PercentBytes(bs[1..]);
      assert PercentBytes(bs) == t + r;
      forall k | 0 <= k < |t + r| ensures IsEncodedChar((t + r)[k]) {
        if k >= 3 { assert (t + r)[k] == r[k - 3]; }
      }
    }
  }

  function EncodeChar(c: char): (r: string)
    ensures forall k :: 0 <= k < |r| ==> IsEncodedChar(r[k])
  {
    if IsUnreserved(c) then [c] else PercentBytesChars(Utf8(c)); PercentBytes(Utf8(c))
  }

  /** `encodeURIComponent(s)` */
  function EncodeURIComponent(s: string): (r: string)
    ensures forall k :: 0 <= k < |r| ==> IsEncodedChar(r[k])
    ensures |r| >= |s|
  {
    if s == [] then [] else EncodeChar(s[0]) + EncodeURIComponent(s[1..])
  }

  function HexValue(c: char): (v: nat)
    requires IsHexDigit(c)
    ensures v < 16 && HexDigits[v] == c
  {
    if '0' <= c <= '9' then c as int - '0' as int else c as int - 'A' as int + 10
  }

  /** Percent-decoding into bytes: `%XX` is byte XX, any other ASCII
      character is its own code. The partner that `EncodeURIComponent` is
      checked against. */
  function PercentDecode(t: string): (r: Option<seq<byte>>)
  {
    if t == [] then Some([])
    else if t[0] == '%' then
      if |t| >= 3 && IsHexDigit(t[1]) && IsHexDigit(t[2]) then
        match PercentDecode(t[3..])
        case Some(rest) => Some([(16 * HexValue(t[1]) + HexValue(t[2])) as byte] + rest)
        case None => None
      else None
    else if t[0] as int < 0x80 then
      match PercentDecode(t[1..])
      case Some(rest) => Some([t[0] as int as byte] + rest)
      case None => None
    else None
  }

  lemma DecodeTriplet(b: byte, rest: string, tail: seq<byte>)
    requires PercentDecode(rest) == Some(tail)
    ensures PercentDecode(Triplet(b) + rest) == Some([b] + tail)
  {
    var hi, lo := b as int / 16, b as int % 16;
    var t := Triplet(b) + rest;
    HexDigitValue(hi);
    HexDigitValue(lo);
    assert t[0] == '%' && t[1] == HexDigits[hi] && t[2] == HexDigits[lo];
    assert t[3..] == rest;
    assert (16 * hi + lo) as byte == b;
  }

  lemma HexDigitValue(v: nat)
    requires v < 16
    ensures IsHexDigit(HexDigits[v]) && HexValue(HexDigits[v]) == v
  {
  }

  lemma {:induction false} DecodePercentBytes(bs: seq<byte>, rest: string, tail: seq<byte>)
    requires PercentDecode(rest) == Some(tail)
    ensures PercentDecode(PercentBytes(bs) + rest) == Some(bs + tail)
  {
    if bs == [] {
      assert PercentBytes(bs) + rest == rest;
      assert bs + tail == tail;
    } else {
      DecodePercentBytes(bs[1..], rest, tail);
      DecodeCons(bs[0], bs[1..], rest, tail);
      assert [bs[0]] + bs[1..] == bs;
    }
  }

  lemma DecodeCons(b: byte, bs: seq<byte>, rest: string, tail: seq<byte>)
    requires PercentDecode(PercentBytes(bs) + rest) == Some(bs + tail)
    ensures PercentDecode(PercentBytes([b] + bs) + rest) == Some([b] + bs + tail)
  {
    var t, p1 := Triplet(b), PercentBytes(bs);
    assert ([b] + bs)[1..] == bs;
    assert PercentBytes([b] + bs) == t + p1;
    ConcatAssoc(t, p1, rest);
    DecodeTriplet(b, p1 + rest, bs + tail);
    assert [b] + (bs + tail) == [b] + bs + tail;
  }

  lemma ConcatAssoc(a: string, b: string, c: string)
    ensures (a + b) + c == a + (b + c)
  {
  }

  lemma {:induction false} DecodeEncodeChar(c: char, rest: string, tail: seq<byte>)
    requires PercentDecode(rest) == Some(tail)
    ensures PercentDecode(EncodeChar(c) + rest) == Some(Utf8(c) + tail)
  {
    if IsUnreserved(c) {
      assert (EncodeChar(c) + rest)[1..] == rest;
    } else {
      DecodePercentBytes(Utf8(c), rest, tail);
    }
  }

  /** Percent-decoding `encodeURIComponent(s)` gives back the UTF-8 bytes of `s`. */
  lemma {:induction false} DecodeEncode(s: string)
    ensures PercentDecode(EncodeURIComponent(s)) == Some(Utf8String(s))
  {
    if s != [] {
      DecodeEncode(s[1..]);
      DecodeEncodeChar(s[0], EncodeURIComponent(s[1..]), Utf8String(s[1..]));
    }
  }

  /** An ASCII string that needs no escaping comes out of `encodeURIComponent` unchanged. */
  lemma {:induction false} EncodeUnreservedIdentity(s: string)
    requires forall k :: 0 <= k < |s| ==> IsUnreserved(s[k])
    ensures EncodeURIComponent(s) == s
  {
    if s != [] {
      EncodeUnreservedIdentity(s[1..]);
    }
  }
}
