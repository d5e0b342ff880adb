/**
  The Ghost Admin API token (src/utils/jwt.ts): a JSON Web Token in the JWS
  compact serialization (section 7.1 of RFC 7515), signed with HS256
  (section 3.2 of RFC 7518), each part encoded as base64url without padding
  (section 5 of RFC 4648). HMAC-SHA-256 and the clock are parameters.
 */
module Jwt {

  import opened Wrappers
  import opened Text

  type byte = x: int | 0 <= x < 256

  // ---------------------------------------------------------------------
  // Base64 (section 4 of RFC 4648) and its URL-safe variant (section 5)

  /** The standard alphabet: A-Z, a-z, 0-9, '+', '/'. */
  function StdChar(i: nat): char
    requires i < 64
  {
    if i < 26 then ('A' as int + i) as char
    else if i < 52 then ('a' as int + i - 26) as char
    else if i < 62 then ('0' as int + i - 52) as char
    else if i == 62 then '+' else '/'
  }

  /** The URL-safe alphabet: '-' and '_' stand where '+' and '/' stood. */
  function UrlChar(i: nat): (c: char)
    requires i < 64
    ensures IsUrlChar(c)
  {
    if i == 62 then '-' else if i == 63 then '_' else StdChar(i)
  }

  predicate IsUrlChar(c: char) {
    'A' <= c <= 'Z' || 'a' <= c <= 'z' || '0' <= c <= '9' || c == '-' || c == '_'
  }

  /** The six-bit value a URL-safe character encodes. */
  function UrlValue(c: char): (r: Option<nat>)
    ensures r.Some? <==> IsUrlChar(c)
    ensures r.Some? ==> r.value < 64
  {
    if 'A' <= c <= 'Z' then Some(c as int - 'A' as int)
    else if 'a' <= c <= 'z' then Some(c as int - 'a' as int + 26)
    else if '0' <= c <= '9' then Some(c as int - '0' as int + 52)
    else if c == '-' then Some(62)
    else if c == '_' then Some(63)
    else None
  }

  lemma UrlValueOfChar(i: nat)
    requires i < 64
    ensures UrlValue(UrlChar(i)) == Some(i)
  {
  }

  /** The four characters that spell three bytes, six bits each. */
  function StdQuad(b0: byte, b1: byte, b2: byte): string {
    [StdChar(b0 / 4), StdChar((b0 % 4) * 16 + b1 / 16), StdChar((b1 % 16) * 4 + b2 / 64), StdChar(b2 % 64)]
  }

  function Quad(b0: byte, b1: byte, b2: byte): (s: string)
    ensures |s| == 4 && forall k :: 0 <= k < 4 ==> IsUrlChar(s[k])
  {
    [UrlChar(b0 / 4), UrlChar((b0 % 4) * 16 + b1 / 16), UrlChar((b1 % 16) * 4 + b2 / 64), UrlChar(b2 % 64)]
  }

  /** `btoa` over bytes: three bytes become four characters; a final group
      of one or two bytes is filled with zero bits, spelled in two or three
      characters and padded with '='. */
  function Base64(b: seq<byte>): string
    decreases |b|
  {
    if |b| == 0 then ""
    else if |b| == 1 then StdQuad(b[0], 0, 0)[..2] + "=="
    else if |b| == 2 then StdQuad(b[0], b[1], 0)[..3] + "="
    else StdQuad(b[0], b[1], b[2]) + Base64(b[3..])
  }

  /** base64url without padding: section 5 of RFC 4648 with the trailing '='
      left out. */
  function Base64Url(b: seq<byte>): (s: string)
    decreases |b|
    ensures forall k :: 0 <= k < |s| ==> IsUrlChar(s[k])
  {
    if |b| == 0 then ""
    else if |b| == 1 then Quad(b[0], 0, 0)[..2]
    else if |b| == 2 then Quad(b[0], b[1], 0)[..3]
    else Quad(b[0], b[1], b[2]) + Base64Url(b[3..])
  }

  /** The three bytes four characters spell; `None` for a character
      outside the alphabet. */
  function GroupBytes(g: string): Option<seq<byte>>
    requires |g| == 4
  {
    var v0, v1, v2, v3 := UrlValue(g[0]), UrlValue(g[1]), UrlValue(g[2]), UrlValue(g[3]);
    if v0.None? || v1.None? || v2.None? || v3.None? then None
    else Some([v0.value * 4 + v1.value / 16, (v1.value % 16) * 16 + v2.value / 4, (v2.value % 4) * 64 + v3.value])
  }

  /** The bytes of a final group of two to four characters, missing
      characters counting as zero bits. */
  function DecodeGroup(s: string): Option<seq<byte>>
    requires 2 <= |s| <= 4
  {
    match GroupBytes(s + seq(4 - |s|, _ => 'A'))
    case None => None
    case Some(bytes) => Some(bytes[..|s| - 1])
  }

  /** Decoding of unpadded base64url; `None` for a stray character or a
      length of one more than a multiple of four. */
  function Base64UrlDecode(s: string): Option<seq<byte>>
    decreases |s|
  {
    if |s| == 0 then Some([])
    else if |s| == 1 then None
    else if |s| <= 4 then DecodeGroup(s)
    else
      match (DecodeGroup(s[..4]), Base64UrlDecode(s[4..]))
      case (Some(head), Some(rest)) => Some(head + rest)
      case _ => None
  }

  /** The bit arithmetic of one group: the sextets give back the bytes. */
  lemma GroupRoundTrip(b0: byte, b1: byte, b2: byte)
    ensures (b0 / 4) * 4 + ((b0 % 4) * 16 + b1 / 16) / 16 == b0
    ensures (((b0 % 4) * 16 + b1 / 16) % 16) * 16 + ((b1 % 16) * 4 + b2 / 64) / 4 == b1
    ensures (((b1 % 16) * 4 + b2 / 64) % 4) * 64 + b2 % 64 == b2
  {
    assert ((b0 % 4) * 16 + b1 / 16) / 16 == b0 % 4;
    assert ((b0 % 4) * 16 + b1 / 16) % 16 == b1 / 16;
    assert ((b1 % 16) * 4 + b2 / 64) / 4 == b1 % 16;
    assert ((b1 % 16) * 4 + b2 / 64) % 4 == b2 / 64;
  }

  /** A group decodes to its bytes. */
  lemma QuadDecodes(b0: byte, b1: byte, b2: byte)
    ensures GroupBytes(Quad(b0, b1, b2)) == Some([b0, b1, b2])
  {
    var i0, i1, i2, i3 := b0 / 4, (b0 % 4) * 16 + b1 / 16, (b1 % 16) * 4 + b2 / 64, b2 % 64;
    var q := Quad(b0, b1, b2);
    assert q[0] == UrlChar(i0) && q[1] == UrlChar(i1) && q[2] == UrlChar(i2) && q[3] == UrlChar(i3);
    UrlValueOfChar(i0);
    UrlValueOfChar(i1);
    UrlValueOfChar(i2);
    UrlValueOfChar(i3);
    GroupRoundTrip(b0, b1, b2);
    assert i0 * 4 + i1 / 16 == b0;
    assert (i1 % 16) * 16 + i2 / 4 == b1;
    assert (i2 % 4) * 64 + i3 == b2;
  }

  /** A group cut after `n` characters, the rest being zero characters,
      decodes to the first `n - 1` bytes. */
  lemma DecodeCut(s: string, n: nat)
    requires |s| == 4 && 2 <= n <= 4
    requires forall i :: n <= i < 4 ==> s[i] == 'A'
    requires GroupBytes(s).Some?
    ensures DecodeGroup(s[..n]) == Some(GroupBytes(s).value[..n - 1])
  {
    assert s[..n] + seq(4 - n, _ => 'A') == s;
  }

  /** Decoding undoes the encoding. */
  lemma {:induction false} Base64UrlRoundTrip(b: seq<byte>)
    ensures Base64UrlDecode(Base64Url(b)) == Some(b)
    decreases |b|
  {
    if |b| == 1 {
      OneByteRoundTrip(b);
    } else if |b| == 2 {
      TwoBytesRoundTrip(b);
    } else if |b| >= 3 {
      RoundTripStep(b);
    }
  }

  /** Zero bits encode as 'A'. */
  lemma QuadZeroTail(b0: byte, b1: byte)
    ensures Quad(b0, b1, 0)[3] == 'A'
    ensures b1 == 0 ==> Quad(b0, b1, 0)[2] == 'A'
  {
    assert UrlChar(0) == 'A';
  }

  lemma OneByteRoundTrip(b: seq<byte>)
    requires |b| == 1
    ensures Base64UrlDecode(Base64Url(b)) == Some(b)
  {
    var q := Quad(b[0], 0, 0);
    assert Base64Url(b) == q[..2];
    assert GroupBytes(q) == Some([b[0], 0, 0]) by {
      QuadDecodes(b[0], 0, 0);
    }
    assert DecodeGroup(q[..2]) == Some([b[0], 0, 0][..1]) by {
      QuadZeroTail(b[0], 0);
      assert q[2] == 'A' && q[3] == 'A';
      DecodeCut(q, 2);
    }
    assert [b[0], 0, 0][..1] == b;
  }

  lemma TwoBytesRoundTrip(b: seq<byte>)
    requires |b| == 2
    ensures Base64UrlDecode(Base64Url(b)) == Some(b)
  {
    var q := Quad(b[0], b[1], 0);
    assert Base64Url(b) == q[..3];
    assert GroupBytes(q) == Some([b[0], b[1], 0]) by {
      QuadDecodes(b[0], b[1], 0);
    }
    assert DecodeGroup(q[..3]) == Some([b[0], b[1], 0][..2]) by {
      QuadZeroTail(b[0], b[1]);
      DecodeCut(q, 3);
    }
    assert [b[0], b[1], 0][..2] == b;
  }

  /** The first group of a longer encoding decodes to the first three bytes. */
  lemma FirstGroupDecodes(b: seq<byte>)
    requires |b| >= 3
    ensures DecodeGroup(Quad(b[0], b[1], b[2])) == Some(b[..3])
  {
    var q := Quad(b[0], b[1], b[2]);
    var head := [b[0], b[1], b[2]];
    assert GroupBytes(q) == Some(head) by {
      QuadDecodes(b[0], b[1], b[2]);
    }
    assert DecodeGroup(q) == Some(head) by {
      DecodeCut(q, 4);
      assert q[..4] == q && head[..3] == head;
    }
    assert b[..3] == head;
  }

  lemma {:induction false} RoundTripStep(b: seq<byte>)
    requires |b| >= 3
    ensures Base64UrlDecode(Base64Url(b)) == Some(b)
    decreases |b|, 0
  {
    var q := Quad(b[0], b[1], b[2]);
    FirstGroupDecodes(b);
    if |b| == 3 {
      assert Base64Url(b) == q + Base64Url([]);
      assert q + [] == q;
      assert b[..3] == b;
    } else {
      var rest := Base64Url(b[3..]);
      Base64UrlRoundTrip(b[3..]);
      var s := q + rest;
      assert s[..4] == q && s[4..] == rest;
      assert b == b[..3] + b[3..];
    }
  }

  /** Without padding, `n` bytes take `4n/3` characters, rounded up. */
  lemma {:induction false} Base64UrlLength(b: seq<byte>)
    ensures |Base64Url(b)| == (4 * |b| + 2) / 3
    decreases |b|
  {
    if |b| >= 3 {
      Base64UrlLength(b[3..]);
    }
  }

  // ---------------------------------------------------------------------
  // `base64UrlEncode`: btoa, then the character replacements

  /** `.replace(/c/g, d)` for a single character. */
  function ReplaceChar(s: string, c: char, d: char): (r: string)
    ensures |r| == |s|
    ensures forall k :: 0 <= k < |s| ==> r[k] == (if s[k] == c then d else s[k])
  {
    Map(s, (x: char) => if x == c then d else x)
  }

  /** Both replacements at once. */
  function ToUrl(c: char): char {
    if c == '+' then '-' else if c == '/' then '_' else c
  }

  /** The padding `btoa` adds to the encoding of `n` bytes: one '=' for
      each byte the final group lacks. */
  function Padding(n: nat): string {
    if n >= 3 then Padding(n - 3) else if n == 1 then "==" else if n == 2 then "=" else ""
  }

  lemma {:induction false} PaddingIsEquals(n: nat)
    ensures |Padding(n)| <= 2 && forall k :: 0 <= k < |Padding(n)| ==> Padding(n)[k] == '='
  {
    if n >= 3 {
      PaddingIsEquals(n - 3);
    }
  }

  lemma ToUrlQuad(b0: byte, b1: byte, b2: byte)
    ensures Map(StdQuad(b0, b1, b2), ToUrl) == Quad(b0, b1, b2)
  {
    var q := Map(StdQuad(b0, b1, b2), ToUrl);
    assert q[0] == UrlChar(b0 / 4);
    assert q[1] == UrlChar((b0 % 4) * 16 + b1 / 16);
    assert q[2] == UrlChar((b1 % 16) * 4 + b2 / 64);
    assert q[3] == UrlChar(b2 % 64);
  }

  /** The replacements turn `btoa`'s alphabet into the URL-safe one and
      leave the padding. */
  lemma {:induction false} Base64ToUrl(b: seq<byte>)
    ensures Map(Base64(b), ToUrl) == Base64Url(b) + Padding(|b|)
    decreases |b|
  {
    if |b| == 1 {
      ToUrlQuad(b[0], 0, 0);
      MapConcat(StdQuad(b[0], 0, 0)[..2], "==", ToUrl);
    } else if |b| == 2 {
      ToUrlQuad(b[0], b[1], 0);
      MapConcat(StdQuad(b[0], b[1], 0)[..3], "=", ToUrl);
    } else if |b| >= 3 {
      ToUrlQuad(b[0], b[1], b[2]);
      MapConcat(StdQuad(b[0], b[1], b[2]), Base64(b[3..]), ToUrl);
      Base64ToUrl(b[3..]);
    }
  }

  lemma {:induction false} DropPadding(u: string, pad: string)
    requires u == [] || u[|u| - 1] != '='
    requires forall k :: 0 <= k < |pad| ==> pad[k] == '='
    ensures DropTrailing(u + pad, '=') == u
    decreases |pad|
  {
    if pad != [] {
      assert (u + pad)[..|u + pad| - 1] == u + pad[..|pad| - 1];
      DropPadding(u, pad[..|pad| - 1]);
    } else {
      assert u + pad == u;
    }
  }

  /** Every character is at most 0xFF. */
  predicate IsLatin1(s: string) {
    forall k :: 0 <= k < |s| ==> s[k] as int < 256
  }

  lemma Latin1Append(a: string, b: string)
    ensures IsLatin1(a + b) <==> IsLatin1(a) && IsLatin1(b)
  {
    if IsLatin1(a + b) {
      forall k | 0 <= k < |a|
        ensures a[k] as int < 256
      {
        assert (a + b)[k] == a[k];
      }
      forall k | 0 <= k < |b|
        ensures b[k] as int < 256
      {
        assert (a + b)[|a| + k] == b[k];
      }
    }
  }

  /** The characters `btoa` reads: character codes, `None` when one is
      above 0xFF (`btoa` throws InvalidCharacterError). */
  function Latin1(s: string): (r: Option<seq<byte>>)
    ensures r.Some? <==> IsLatin1(s)
    ensures r.Some? ==> |r.value| == |s| && forall k :: 0 <= k < |s| ==> r.value[k] == s[k] as int
  {
    if IsLatin1(s) then Some(seq(|s|, k requires 0 <= k < |s| => s[k] as int))
    else None
  }

  /** `String.fromCharCode(byte)`. */
  function ByteChar(b: byte): char {
    b as char
  }

  function Latin1String(b: seq<byte>): (s: string)
    ensures |s| == |b|
    ensures forall k :: 0 <= k < |b| ==> s[k] == ByteChar(b[k])
  {
    Map(b, ByteChar)
  }

  /** A string of byte characters reads back as its bytes. */
  lemma Latin1StringRoundTrip(b: seq<byte>)
    ensures Latin1(Latin1String(b)) == Some(b)
  {
    var s := Latin1String(b);
    assert forall k :: 0 <= k < |s| ==> s[k] as int == b[k];
    assert Latin1(s).Some?;
    assert Latin1(s).value == b;
  }

  const InvalidCharacter := "InvalidCharacterError"

  /** `base64UrlEncode(input)`: `btoa`, '+' to '-', '/' to '_', trailing '=' dropped. */
  function Base64UrlEncode(input: string): Result<string, string> {
    match Latin1(input)
    case None => Failure(InvalidCharacter)
    case Some(b) => Success(DropTrailing(ReplaceChar(ReplaceChar(Base64(b), '+', '-'), '/', '_'), '='))
  }

  /** The replacements turn `btoa`'s output into unpadded base64url: the
      result decodes to the input's bytes and holds no '+', '/' or '='. */
  lemma Base64UrlEncodeIs(input: string)
    ensures Latin1(input).None? <==> Base64UrlEncode(input) == Failure(InvalidCharacter)
    ensures Latin1(input).Some? ==> Base64UrlEncode(input) == Success(Base64Url(Latin1(input).value))
    ensures Latin1(input).Some? ==> Base64UrlDecode(Base64UrlEncode(input).value) == Latin1(input)
  {
    if Latin1(input).Some? {
      var b := Latin1(input).value;
      var replaced := ReplaceChar(ReplaceChar(Base64(b), '+', '-'), '/', '_');
      assert replaced == Map(Base64(b), ToUrl);
      Base64ToUrl(b);
      var u := Base64Url(b);
      PaddingIsEquals(|b|);
      assert u == [] || IsUrlChar(u[|u| - 1]);
      DropPadding(u, Padding(|b|));
      Base64UrlRoundTrip(b);
    }
  }

  // ---------------------------------------------------------------------
  // `hexToBytes`

  predicate IsHexDigit(c: char) {
    '0' <= c <= '9' || 'a' <= c <= 'f' || 'A' <= c <= 'F'
  }

  function HexDigitValue(c: char): (d: nat)
    requires IsHexDigit(c)
    ensures d < 16
  {
    if '0' <= c <= '9' then c as int - '0' as int
    else if 'a' <= c <= 'f' then c as int - 'a' as int + 10
    else c as int - 'A' as int + 10
  }

  /** The value of a string of hex digits. */
  function HexDigitsValue(s: string): nat
    requires forall k :: 0 <= k < |s| ==> IsHexDigit(s[k])
  {
    if s == [] then 0 else HexDigitsValue(s[..|s| - 1]) * 16 + HexDigitValue(s[|s| - 1])
  }

  /** `parseInt(s, 16)`, `None` standing for NaN: leading whitespace is
      skipped, then one sign, then an optional "0x"; the longest run of hex
      digits that follows is the value. */
  function ParseIntHex(s: string): Option<int>
    decreases |s|
  {
    if s != [] && IsSpace(s[0]) then ParseIntHex(s[1..])
    else
      var negative := s != [] && s[0] == '-';
      var u := if s != [] && (s[0] == '-' || s[0] == '+') then s[1..] else s;
      var v := if |u| >= 2 && u[0] == '0' && (u[1] == 'x' || u[1] == 'X') then u[2..] else u;
      var n := RunWhile(v, 0, IsHexDigit);
      if n == 0 then None
      else
        var magnitude: int := HexDigitsValue(v[..n]);
        Some(if negative then -magnitude else magnitude)
  }

  /** A number stored in a `Uint8Array`: NaN becomes 0, any integer is
      taken modulo 256. */
  function ToUint8(n: Option<int>): byte {
    if n.None? then 0 else n.value % 256
  }

  /** Byte `k` of the decoded secret. */
  function PairByte(hex: string, k: nat): byte
    requires 2 * k + 2 <= |hex|
  {
    ToUint8(ParseIntHex(hex[2 * k..2 * k + 2]))
  }

  const InvalidHex := "Secret must be a valid hex string"

  /** What `hexToBytes` returns: an error for an odd length, else one byte per pair. */
  function HexDecoded(hex: string): (r: Result<seq<byte>, string>)
  {
    if |hex| % 2 != 0 then Failure(InvalidHex)
    else Success(seq(|hex| / 2, k requires 0 <= k < |hex| / 2 => PairByte(hex, k)))
  }

  /** `hexToBytes`: a zero-filled buffer of half the length, filled pair by pair. */
  method HexToBytes(hex: string) returns (r: Result<seq<byte>, string>)
    ensures r == HexDecoded(hex)
  {
    if |hex| % 2 != 0 {
      return Failure(InvalidHex);
    }
    var bytes := new byte[|hex| / 2];
    for j := 0 to |hex| / 2
      invariant forall k :: 0 <= k < j ==> bytes[k] == PairByte(hex, k)
    {
      bytes[j] := PairByte(hex, j);
    }
    assert bytes[..] == HexDecoded(hex).value;
    r := Success(bytes[..]);
  }

  /** Two hex digits give the byte they spell. */
  lemma PairOfDigits(s: string)
    requires |s| == 2 && IsHexDigit(s[0]) && IsHexDigit(s[1])
    ensures ParseIntHex(s) == Some(HexDigitValue(s[0]) * 16 + HexDigitValue(s[1]))
    ensures ToUint8(ParseIntHex(s)) == HexDigitValue(s[0]) * 16 + HexDigitValue(s[1])
  {
    var x := HexDigitValue(s[0]) * 16 + HexDigitValue(s[1]);
    assert RunWhile(s, 0, IsHexDigit) == 2 by {
      assert RunWhile(s, 2, IsHexDigit) == 2;
      assert RunWhile(s, 1, IsHexDigit) == 2;
    }
    assert HexDigitsValue(s[..2]) == x by {
      assert s[..2] == s;
      assert s[..1] == [s[0]];
      assert HexDigitsValue([s[0]]) == HexDigitValue(s[0]);
    }
    assert ParseIntHex(s) == Some(x) by {
      assert !IsSpace(s[0]) && s[0] != '-' && s[0] != '+';
      assert !(s[0] == '0' && (s[1] == 'x' || s[1] == 'X'));
    }
    ByteInRange(x);
  }

  lemma ByteInRange(v: int)
    requires 0 <= v < 256
    ensures ToUint8(Some(v)) == v
  {
  }

  /** A pair of hex digits decodes to the byte they spell. */
  lemma PairByteOfDigits(hex: string, k: nat)
    requires 2 * k + 2 <= |hex| && IsHexDigit(hex[2 * k]) && IsHexDigit(hex[2 * k + 1])
    ensures PairByte(hex, k) == HexDigitValue(hex[2 * k]) * 16 + HexDigitValue(hex[2 * k + 1])
  {
    var pair := hex[2 * k..2 * k + 2];
    assert pair[0] == hex[2 * k] && pair[1] == hex[2 * k + 1];
    PairOfDigits(pair);
  }

  /** The lower-case hex digit of a value below 16. */
  function HexChar(d: nat): (c: char)
    requires d < 16
    ensures IsHexDigit(c) && HexDigitValue(c) == d
  {
    if d < 10 then ('0' as int + d) as char else ('a' as int + d - 10) as char
  }

  /** Lower-case hex text of some bytes, two digits each. */
  function HexOf(b: seq<byte>): (s: string)
    ensures |s| == 2 * |b|
  {
    seq(2 * |b|, i requires 0 <= i < 2 * |b| => if i % 2 == 0 then HexChar(b[i / 2] / 16) else HexChar(b[i / 2] % 16))
  }

  lemma HexPair(b: seq<byte>, k: nat)
    requires k < |b|
    ensures PairByte(HexOf(b), k) == b[k]
  {
    var hex := HexOf(b);
    assert hex[2 * k] == HexChar(b[k] / 16);
    assert hex[2 * k + 1] == HexChar(b[k] % 16);
    PairByteOfDigits(hex, k);
  }

  lemma HexRoundTrip(b: seq<byte>)
    ensures HexDecoded(HexOf(b)) == Success(b)
  {
    var hex := HexOf(b);
    forall k | 0 <= k < |b|
      ensures PairByte(hex, k) == b[k]
    {
      HexPair(b, k);
    }
    assert HexDecoded(hex).value == b;
  }

  // ---------------------------------------------------------------------
  // `sign`

  /** UTF-8 (section 3 of RFC 3629) of one character. */
  function Utf8Char(c: char): (r: seq<byte>)
    ensures c as int < 0x80 ==> r == [c as int]
  {
    var n := c as int;
    if n < 0x80 then [n]
    else if n < 0x800 then [0xC0 + n / 64, 0x80 + n % 64]
    else if n < 0x10000 then [0xE0 + n / 4096, 0x80 + (n / 64) % 64, 0x80 + n % 64]
    else [0xF0 + n / 0x40000 % 8, 0x80 + (n / 4096) % 64, 0x80 + (n / 64) % 64, 0x80 + n % 64]
  }

  /** `TextEncoder.encode`. */
  function Utf8(s: string): seq<byte>
  {
    if s == [] then [] else Utf8Char(s[0]) + Utf8(s[1..])
  }

  predicate IsAscii(s: string) {
    forall k :: 0 <= k < |s| ==> s[k] as int < 0x80
  }

  /** On ASCII text UTF-8 is the character codes. */
  lemma {:induction false} Utf8OfAscii(s: string)
    requires IsAscii(s)
    ensures Latin1(s).Some? && Utf8(s) == Latin1(s).value
    decreases |s|
  {
    if s != [] {
      Utf8OfAscii(s[1..]);
    }
  }

  /** HMAC-SHA-256 as `crypto.subtle.sign` computes it: key bytes, message bytes, tag. */
  type Hmac = (seq<byte>, seq<byte>) -> seq<byte>

  /** The signature `sign` produces: the base64url of the HMAC of `data`'s
      UTF-8 bytes under the hex-decoded secret. */
  function Signature(data: string, secret: string, hmac: Hmac): Result<string, string>
  {
    match HexDecoded(secret)
    case Failure(e) => Failure(e)
    case Success(key) => Success(Base64Url(hmac(key, Utf8(data))))
  }

  /** `sign`: the tag's bytes are turned into a byte string one by one and
      encoded like `base64UrlEncode`. */
  method Sign(data: string, secret: string, hmac: Hmac) returns (r: Result<string, string>)
    ensures r == Signature(data, secret, hmac)
  {
    var keyBytes := HexToBytes(secret);
    if keyBytes.Failure? {
      return Failure(keyBytes.error);
    }
    var raw := hmac(keyBytes.value, Utf8(data));
    var binary := "";
    for i := 0 to |raw|
      invariant binary == Latin1String(raw[..i])
    {
      assert raw[..i + 1] == raw[..i] + [raw[i]];
      binary := binary + [ByteChar(raw[i])];
    }
    assert raw[..|raw|] == raw;
    Latin1StringRoundTrip(raw);
    Base64UrlEncodeIs(binary);
    r := Base64UrlEncode(binary);
  }

  // ---------------------------------------------------------------------
  // `generateGhostAdminToken`

  /** The two readings of `Date.now()`, in milliseconds, that one token
      takes: the first for `iat`, the second for `exp`. */
  datatype Clock = Clock(iatMs: nat, expMs: nat)

  const Audience := "/admin/"
  const InvalidKeyFormat := "Invalid Admin API key format. Expected keyId:secret"

  /** The key id and the secret: the first two ':'-separated segments, when
      both are present and non-empty. */
  function KeyParts(apiKey: string): (r: Option<(string, string)>)
    ensures r.Some? ==> r.value.0 != "" && r.value.1 != "" && ':' !in r.value.0 && ':' !in r.value.1
  {
    var parts := Split(apiKey, ':');
    if parts[0] == "" || |parts| < 2 || parts[1] == "" then None else Some((parts[0], parts[1]))
  }

  /** `JSON.stringify` of one character inside a string literal. */
  function JsonEscape(c: char): (r: string)
    ensures IsLatin1(r) <==> c as int < 256
  {
    var n := c as int;
    if c == '"' then "\\\""
    else if c == '\\' then "\\\\"
    else if n == 8 then "\\b"
    else if n == 9 then "\\t"
    else if n == 10 then "\\n"
    else if n == 12 then "\\f"
    else if n == 13 then "\\r"
    else if n < 0x20 then "\\u00" + [HexChar(n / 16), HexChar(n % 16)]
    else
      assert [c][0] == c;
      [c]
  }

  /** `JSON.stringify` of a string. */
  function JsonQuote(s: string): (r: string)
    ensures |r| >= 2 && r[0] == '"'
    ensures IsLatin1(r) <==> IsLatin1(s)
  {
    if s == [] then "\"\"" else
      var rest := JsonQuote(s[1..]);
      Latin1Append("\"" + JsonEscape(s[0]), rest[1..]);
      Latin1Append("\"", JsonEscape(s[0]));
      Latin1Append("\"", rest[1..]);
      assert rest == "\"" + rest[1..];
      assert s == [s[0]] + s[1..];
      Latin1Append([s[0]], s[1..]);
      "\"" + JsonEscape(s[0]) + rest[1..]
  }

  function HeaderJson(keyId: string): string {
    "{\"alg\":\"HS256\",\"typ\":\"JWT\",\"kid\":" + JsonQuote(keyId) + "}"
  }

  function PayloadJson(iat: nat, exp: nat): string {
    "{\"iat\":" + NatToString(iat) + ",\"exp\":" + NatToString(exp) + ",\"aud\":" + JsonQuote(Audience) + "}"
  }

  /** The claims: `iat` is the first reading in whole seconds, `exp` five
      minutes past the second. */
  function Claims(clock: Clock): string {
    PayloadJson(clock.iatMs / 1000, clock.expMs / 1000 + 5 * 60)
  }

  /** `generateGhostAdminToken(apiKey)`: the token, or the message it throws. */
  function AdminToken(apiKey: string, clock: Clock, hmac: Hmac): Result<string, string>
  {
    match KeyParts(apiKey)
    case None => Failure(InvalidKeyFormat)
    case Some((keyId, secret)) =>
      match Base64UrlEncode(HeaderJson(keyId))
      case Failure(e) => Failure(e)
      case Success(header) =>
        match Base64UrlEncode(Claims(clock))
        case Failure(e) => Failure(e)
        case Success(payload) =>
          var data := header + "." + payload;
          match Signature(data, secret, hmac)
          case Failure(e) => Failure(e)
          case Success(signature) => Success(data + "." + signature)
  }

  /** A key of the form `id:secret`, whatever ':'-separated segments follow,
      yields that id and secret. */
  lemma KeyPartsOfKey(id: string, secret: string, rest: string)
    requires id != "" && secret != "" && ':' !in id && ':' !in secret
    requires rest == "" || rest[0] == ':'
    ensures KeyParts(id + ":" + secret + rest) == Some((id, secret))
  {
    var k := id + ":" + secret + rest;
    var tail := secret + rest;
    assert Split(k, ':') == [id] + Split(tail, ':') by {
      assert k == id + [':'] + tail;
      SplitAtFirst(id, tail, ':');
    }
    assert Split(tail, ':')[0] == secret by {
      if rest == "" {
        assert tail == secret;
        SplitWithout(secret, ':');
      } else {
        assert tail == secret + [':'] + rest[1..];
        SplitAtFirst(secret, rest[1..], ':');
      }
    }
  }

  /** Conversely, a key that yields an id and a secret has that shape: the
      id, a ':', the secret, then the end or another ':'. */
  lemma KeyPartsShape(apiKey: string)
    requires KeyParts(apiKey).Some?
    ensures var (id, secret) := KeyParts(apiKey).value;
      var n := |id| + 1 + |secret|;
      n <= |apiKey| && apiKey[..n] == id + ":" + secret && (n == |apiKey| || apiKey[n] == ':')
  {
    var i := FirstIndex(apiKey, 0, ':');
    assert i < |apiKey|;
    var tail := apiKey[i + 1..];
    var j := FirstIndex(tail, 0, ':');
    var parts := Split(apiKey, ':');
    assert parts == [apiKey[..i]] + Split(tail, ':');
    assert Split(tail, ':')[0] == tail[..j];
    assert KeyParts(apiKey).value == (apiKey[..i], tail[..j]);
    assert apiKey[..i + 1 + j] == apiKey[..i] + ":" + tail[..j];
  }

  /** A key without a ':', or with an empty id, is refused. */
  lemma KeyPartsRefused(apiKey: string)
    requires ':' !in apiKey || (apiKey != [] && apiKey[0] == ':')
    ensures KeyParts(apiKey).None?
  {
    if ':' !in apiKey {
      SplitWithout(apiKey, ':');
    } else {
      FirstIndexIs(apiKey, 0, ':', 0);
    }
  }

  /** The fixed text of the header and the claims is Latin-1. */
  lemma JsonLiteralsLatin1()
    ensures IsLatin1("{\"alg\":\"HS256\",\"typ\":\"JWT\",\"kid\":") && IsLatin1("}")
    ensures IsLatin1("{\"iat\":") && IsLatin1(",\"exp\":") && IsLatin1(",\"aud\":") && IsLatin1(Audience)
  {
  }

  /** The payload is plain ASCII, so `btoa` accepts it. */
  lemma ClaimsAreLatin1(clock: Clock)
    ensures IsLatin1(Claims(clock))
  {
    var iat, exp := clock.iatMs / 1000, clock.expMs / 1000 + 5 * 60;
    PayloadLatin1(iat, exp);
    assert Claims(clock) == PayloadJson(iat, exp);
  }

  lemma PayloadLatin1(iat: nat, exp: nat)
    ensures IsLatin1(PayloadJson(iat, exp))
  {
    var i, e := NatToString(iat), NatToString(exp);
    var aud := JsonQuote(Audience);
    assert IsLatin1(i) && IsLatin1(e);
    assert IsLatin1(aud) by {
      JsonLiteralsLatin1();
    }
    var p0 := "{\"iat\":" + i;
    assert IsLatin1(p0) by {
      JsonLiteralsLatin1();
      Latin1Append("{\"iat\":", i);
    }
    var p1 := p0 + ",\"exp\":";
    assert IsLatin1(p1) by {
      JsonLiteralsLatin1();
      Latin1Append(p0, ",\"exp\":");
    }
    var p2 := p1 + e;
    assert IsLatin1(p2) by {
      Latin1Append(p1, e);
    }
    var p3 := p2 + ",\"aud\":";
    assert IsLatin1(p3) by {
      JsonLiteralsLatin1();
      Latin1Append(p2, ",\"aud\":");
    }
    var p4 := p3 + aud;
    assert IsLatin1(p4) by {
      Latin1Append(p3, aud);
    }
    assert IsLatin1(p4 + "}") by {
      JsonLiteralsLatin1();
      Latin1Append(p4, "}");
    }
  }

  /** The header is Latin-1 exactly when the key id is. */
  lemma HeaderLatin1(keyId: string)
    ensures IsLatin1(HeaderJson(keyId)) <==> IsLatin1(keyId)
  {
    var open := "{\"alg\":\"HS256\",\"typ\":\"JWT\",\"kid\":";
    JsonLiteralsLatin1();
    Latin1Append(open, JsonQuote(keyId));
    Latin1Append(open + JsonQuote(keyId), "}");
  }

  /** The key-format error is raised exactly for a key without a
      non-empty id and secret; later failures carry other messages. */
  lemma AdminTokenKeyError(apiKey: string, clock: Clock, hmac: Hmac)
    ensures AdminToken(apiKey, clock, hmac) == Failure(InvalidKeyFormat) <==> KeyParts(apiKey).None?
  {
    if KeyParts(apiKey).Some? {
      AdminTokenOutcome(apiKey, clock, hmac);
    }
  }

  /** When the key is well formed, the token fails exactly when the key id
      holds a character `btoa` refuses or the secret has an odd length. */
  lemma AdminTokenOutcome(apiKey: string, clock: Clock, hmac: Hmac)
    requires KeyParts(apiKey).Some?
    ensures var (id, secret) := KeyParts(apiKey).value;
      && (!IsLatin1(id) ==> AdminToken(apiKey, clock, hmac) == Failure(InvalidCharacter))
      && (IsLatin1(id) && |secret| % 2 != 0 ==> AdminToken(apiKey, clock, hmac) == Failure(InvalidHex))
      && (IsLatin1(id) && |secret| % 2 == 0 ==> AdminToken(apiKey, clock, hmac).Success?)
  {
    var (id, secret) := KeyParts(apiKey).value;
    ClaimsAreLatin1(clock);
    HeaderLatin1(id);
  }

  /** Whether a token can be signed depends on the key alone, not on the
      clock: every failure comes from the key. */
  lemma AdminTokenClockIndependent(apiKey: string, c1: Clock, c2: Clock, hmac: Hmac)
    ensures AdminToken(apiKey, c1, hmac).Success? <==> AdminToken(apiKey, c2, hmac).Success?
  {
    AdminTokenKeyError(apiKey, c1, hmac);
    AdminTokenKeyError(apiKey, c2, hmac);
    if KeyParts(apiKey).Some? {
      AdminTokenOutcome(apiKey, c1, hmac);
      AdminTokenOutcome(apiKey, c2, hmac);
    }
  }

  /** A token is three base64url segments joined by '.': the header naming
      the key id, the claims, and the HMAC of the first two under the
      hex-decoded secret. */
  lemma AdminTokenStructure(apiKey: string, clock: Clock, hmac: Hmac)
    requires AdminToken(apiKey, clock, hmac).Success?
    ensures KeyParts(apiKey).Some?
    ensures var (id, secret) := KeyParts(apiKey).value;
      var parts := Split(AdminToken(apiKey, clock, hmac).value, '.');
      && |parts| == 3
      && Base64UrlDecode(parts[0]) == Latin1(HeaderJson(id))
      && Base64UrlDecode(parts[1]) == Latin1(Claims(clock))
      && HexDecoded(secret).Success?
      && parts[2] == Base64Url(hmac(HexDecoded(secret).value, Utf8(parts[0] + "." + parts[1])))
  {
    var (id, secret) := KeyParts(apiKey).value;
    Base64UrlEncodeIs(HeaderJson(id));
    Base64UrlEncodeIs(Claims(clock));
    var header := Base64UrlEncode(HeaderJson(id)).value;
    var payload := Base64UrlEncode(Claims(clock)).value;
    var key := HexDecoded(secret).value;
    UrlHasNoDot(Latin1(HeaderJson(id)).value);
    UrlHasNoDot(Latin1(Claims(clock)).value);
    UrlHasNoDot(hmac(key, Utf8(header + "." + payload)));
    SplitThree(header, payload, Base64Url(hmac(key, Utf8(header + "." + payload))));
  }

  /** Three segments free of '.', joined by '.', split back apart. */
  lemma SplitThree(a: string, b: string, c: string)
    requires '.' !in a && '.' !in b && '.' !in c
    ensures Split(a + "." + b + "." + c, '.') == [a, b, c]
  {
    var parts := [a, b, c];
    assert parts[1..] == [b, c];
    assert parts[1..][1..] == [c];
    assert Join([c], '.') == c;
    assert Join([b, c], '.') == b + "." + c;
    assert Join(parts, '.') == a + "." + (b + "." + c);
    assert a + "." + (b + "." + c) == a + "." + b + "." + c;
    SplitJoin(parts, '.');
  }

  /** Base64url text holds no '.', so the segments split apart again. */
  lemma UrlHasNoDot(b: seq<byte>)
    ensures '.' !in Base64Url(b)
  {
    var u := Base64Url(b);
    assert forall k :: 0 <= k < |u| ==> IsUrlChar(u[k]);
  }
}
