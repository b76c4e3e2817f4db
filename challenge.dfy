/**
 * The PKCE code challenge of capi/utils.py `generate_challenge` (the same
 * expression is repeated in main.py): the S256 method of section 4.2 of
 * RFC 7636, that is the URL-safe base64 encoding (section 5 of RFC 4648) of
 * the SHA-256 digest of the verifier, with its one trailing '=' cut off.
 * SHA-256 itself is a parameter `hash`, any function into 32-byte strings.
 */
module Challenge {
  import opened Wrappers

  newtype byte = x: int | 0 <= x < 256

  /** A SHA-256 digest, or the output of `os.urandom(32)`. */
  type Bytes32 = s: seq<byte> | |s| == 32 witness seq(32, _ => 0 as byte)

  /** The ASCII code of '='. */
  const Pad: byte := 61

  /** The URL-safe alphabet of section 5 of RFC 4648: A-Z, a-z, 0-9, '-' and '_'. */
  predicate IsUrlSafe(c: byte) {
    (65 <= c <= 90) || (97 <= c <= 122) || (48 <= c <= 57) || c == 45 || c == 95
  }

  /** The character that encodes a 6-bit value. */
  function Sextet(v: int): (c: byte)
    requires 0 <= v < 64
    ensures IsUrlSafe(c)
  {
    if v < 26 then (65 + v) as byte
    else if v < 52 then (97 + v - 26) as byte
    else if v < 62 then (48 + v - 52) as byte
    else if v == 62 then 45
    else 95
  }

  /** The 6-bit value a character of the alphabet stands for. */
  function SextetValue(c: byte): (v: int)
    requires IsUrlSafe(c)
    ensures 0 <= v < 64 && Sextet(v) == c
  {
    if 65 <= c <= 90 then c as int - 65
    else if 97 <= c <= 122 then c as int - 97 + 26
    else if 48 <= c <= 57 then c as int - 48 + 52
    else if c == 45 then 62
    else 63
  }

  lemma SextetRoundTrip(v: int)
    requires 0 <= v < 64
    ensures SextetValue(Sextet(v)) == v
  {
  }

  /** Three bytes become four characters. */
  function EncodeGroup(b0: byte, b1: byte, b2: byte): (r: seq<byte>)
    ensures |r| == 4 && forall i | 0 <= i < 4 :: IsUrlSafe(r[i])
  {
    [Sextet(b0 as int / 4), Sextet(b0 as int % 4 * 16 + b1 as int / 16),
     Sextet(b1 as int % 16 * 4 + b2 as int / 64), Sextet(b2 as int % 64)]
  }

  /** The last one or two bytes become two or three characters and the padding. */
  function EncodeLast(b: seq<byte>): (r: seq<byte>)
    requires 1 <= |b| <= 2
    ensures |r| == 4
  {
    if |b| == 1 then [Sextet(b[0] as int / 4), Sextet(b[0] as int % 4 * 16), Pad, Pad]
    else [Sextet(b[0] as int / 4), Sextet(b[0] as int % 4 * 16 + b[1] as int / 16), Sextet(b[1] as int % 16 * 4), Pad]
  }

  /** `base64.urlsafe_b64encode`: groups of three bytes, the last group padded with '='. */
  function Base64UrlEncode(b: seq<byte>): (r: seq<byte>)
    ensures |r| == 4 * ((|b| + 2) / 3)
  {
    if |b| == 0 then []
    else if |b| < 3 then EncodeLast(b)
    else EncodeGroup(b[0], b[1], b[2]) + Base64UrlEncode(b[3..])
  }

  /** One group of four characters: three bytes, or one or two before the padding; None when malformed. */
  function DecodeQuad(c0: byte, c1: byte, c2: byte, c3: byte): (r: Option<seq<byte>>)
    ensures r.Some? ==> 1 <= |r.value| <= 3
  {
    if !IsUrlSafe(c0) || !IsUrlSafe(c1) then None
    else
      var v0, v1 := SextetValue(c0), SextetValue(c1);
      var x0 := (v0 * 4 + v1 / 16) as byte;
      if c2 == Pad && c3 == Pad then Some([x0])
      else if !IsUrlSafe(c2) then None
      else
        var v2 := SextetValue(c2);
        var x1 := (v1 % 16 * 16 + v2 / 4) as byte;
        if c3 == Pad then Some([x0, x1])
        else if !IsUrlSafe(c3) then None
        else Some([x0, x1, (v2 % 4 * 64 + SextetValue(c3)) as byte])
  }

  /** Decoding, the inverse of `Base64UrlEncode`; None on text that is not padded URL-safe base64. */
  function Base64UrlDecode(s: seq<byte>): (r: Option<seq<byte>>)
  {
    if |s| == 0 then Some([])
    else if |s| < 4 then None
    else match DecodeQuad(s[0], s[1], s[2], s[3])
      case None => None
      case Some(g) =>
        // padding may only end the text
        if |g| < 3 then (if |s| == 4 then Some(g) else None)
        else match Base64UrlDecode(s[4..])
          case None => None
          case Some(rest) => Some(g + rest)
  }

  /** The 6-bit splits of two bytes recombine to the bytes. */
  lemma SplitRecombines(b0: int, b1: int, b2: int)
    requires 0 <= b0 < 256 && 0 <= b1 < 256 && 0 <= b2 < 256
    ensures var v0, v1, v2, v3 := b0 / 4, b0 % 4 * 16 + b1 / 16, b1 % 16 * 4 + b2 / 64, b2 % 64;
      && v0 * 4 + v1 / 16 == b0
      && v1 % 16 * 16 + v2 / 4 == b1
      && v2 % 4 * 64 + v3 == b2
  {
  }

  /** The last group of an encoding of 3k+1 bytes decodes to its byte. */
  lemma DecodeLastOne(b0: byte)
    ensures Base64UrlDecode(EncodeLast([b0])) == Some([b0])
  {
    var v0, v1 := b0 as int / 4, b0 as int % 4 * 16;
    SplitRecombines(b0 as int, 0, 0);
    SextetRoundTrip(v0);
    SextetRoundTrip(v1);
    assert DecodeQuad(Sextet(v0), Sextet(v1), Pad, Pad) == Some([b0]);
  }

  /** The last group of an encoding of 3k+2 bytes decodes to its two bytes. */
  lemma DecodeLastTwo(b0: byte, b1: byte)
    ensures Base64UrlDecode(EncodeLast([b0, b1])) == Some([b0, b1])
  {
    var v0, v1, v2 := b0 as int / 4, b0 as int % 4 * 16 + b1 as int / 16, b1 as int % 16 * 4;
    SplitRecombines(b0 as int, b1 as int, 0);
    SextetRoundTrip(v0);
    SextetRoundTrip(v1);
    SextetRoundTrip(v2);
    assert Sextet(v2) != Pad;
    assert DecodeQuad(Sextet(v0), Sextet(v1), Sextet(v2), Pad) == Some([b0, b1]);
  }

  /** The four characters of a full group decode to its three bytes. */
  lemma DecodeQuadOfGroup(b0: byte, b1: byte, b2: byte)
    ensures var g := EncodeGroup(b0, b1, b2);
      DecodeQuad(g[0], g[1], g[2], g[3]) == Some([b0, b1, b2])
  {
    var v0, v1, v2, v3 := b0 as int / 4, b0 as int % 4 * 16 + b1 as int / 16, b1 as int % 16 * 4 + b2 as int / 64, b2 as int % 64;
    SplitRecombines(b0 as int, b1 as int, b2 as int);
    SextetRoundTrip(v0);
    SextetRoundTrip(v1);
    SextetRoundTrip(v2);
    SextetRoundTrip(v3);
    assert Sextet(v2) != Pad && Sextet(v3) != Pad;
  }

  /** A full group decodes to its three bytes, followed by the decoding of what comes after. */
  lemma DecodeFullGroup(b0: byte, b1: byte, b2: byte, rest: seq<byte>)
    ensures Base64UrlDecode(EncodeGroup(b0, b1, b2) + rest) ==
      match Base64UrlDecode(rest)
      case None => None
      case Some(tail) => Some([b0, b1, b2] + tail)
  {
    var g := EncodeGroup(b0, b1, b2);
    var s := g + rest;
    DecodeQuadOfGroup(b0, b1, b2);
    assert s[0] == g[0] && s[1] == g[1] && s[2] == g[2] && s[3] == g[3];
    assert s[4..] == rest;
  }

  /** One full group in front: the round trip of the rest carries over to the whole. */
  lemma FirstThree(b: seq<byte>)
    requires |b| >= 3
    ensures [b[0], b[1], b[2]] + b[3..] == b
  {
  }

  lemma DecodeEncodeStep(b: seq<byte>)
    requires |b| >= 3 && Base64UrlDecode(Base64UrlEncode(b[3..])) == Some(b[3..])
    ensures Base64UrlDecode(Base64UrlEncode(b)) == Some(b)
  {
    FirstThree(b);
    var g, rest := EncodeGroup(b[0], b[1], b[2]), Base64UrlEncode(b[3..]);
    assert Base64UrlEncode(b) == g + rest;
    DecodeFullGroup(b[0], b[1], b[2], rest);
  }

  /** Round trip: decoding an encoding gives the bytes back. */
  lemma {:induction false} DecodeEncode(b: seq<byte>)
    ensures Base64UrlDecode(Base64UrlEncode(b)) == Some(b)
    decreases |b|
  {
    if |b| == 1 {
      assert [b[0]] == b;
      DecodeLastOne(b[0]);
    } else if |b| == 2 {
      assert [b[0], b[1]] == b;
      DecodeLastTwo(b[0], b[1]);
    } else if |b| >= 3 {
      DecodeEncode(b[3..]);
      DecodeEncodeStep(b);
    }
  }

  /** Number of '=' characters the encoding of n bytes ends in. */
  function PadCount(n: nat): nat {
    (3 - n % 3) % 3
  }

  /** `r` is alphabet characters followed by `pads` padding characters. */
  predicate PaddedShape(r: seq<byte>, pads: int) {
    && 0 <= pads <= |r|
    && (forall i | 0 <= i < |r| - pads :: IsUrlSafe(r[i]))
    && (forall i | |r| - pads <= i < |r| :: r[i] == Pad)
  }

  /** A full group in front keeps the shape. */
  lemma PrependGroupShape(g: seq<byte>, rest: seq<byte>, pads: int)
    requires |g| == 4 && forall i | 0 <= i < 4 :: IsUrlSafe(g[i])
    requires PaddedShape(rest, pads)
    ensures PaddedShape(g + rest, pads)
  {
    var r := g + rest;
    forall i | 0 <= i < |r| - pads ensures IsUrlSafe(r[i]) {
      if i < 4 {
        assert r[i] == g[i];
      } else {
        assert r[i] == rest[i - 4];
      }
    }
    forall i | |r| - pads <= i < |r| ensures r[i] == Pad {
      assert r[i] == rest[i - 4];
    }
  }

  /** Every character of an encoding is in the alphabet, except the padding at its end. */
  lemma {:induction false} EncodingShape(b: seq<byte>)
    ensures PaddedShape(Base64UrlEncode(b), PadCount(|b|))
    decreases |b|
  {
    if |b| >= 3 {
      EncodingShape(b[3..]);
      assert PadCount(|b|) == PadCount(|b[3..]|);
      PrependGroupShape(EncodeGroup(b[0], b[1], b[2]), Base64UrlEncode(b[3..]), PadCount(|b|));
    }
  }

  /** The encoding of a 32-byte digest: 44 characters, 43 from the alphabet and one final '='. */
  lemma DigestEncodingShape(d: Bytes32)
    ensures var r := Base64UrlEncode(d);
      |r| == 44 && r[43] == Pad && forall i | 0 <= i < 43 :: IsUrlSafe(r[i])
  {
    EncodingShape(d);
    assert PadCount(|d|) == 1;
  }

  /** Python's `s[:-1]`: everything but the last element, and empty stays empty. */
  function DropLast(s: seq<byte>): (r: seq<byte>)
    ensures |s| > 0 ==> s == r + [s[|s| - 1]]
    ensures |s| == 0 ==> r == []
  {
    if |s| == 0 then [] else s[..|s| - 1]
  }

  predicate IsAscii(b: seq<byte>) {
    forall i | 0 <= i < |b| :: b[i] < 128
  }

  /** `bytes.decode('utf-8')` of ASCII bytes: one character per byte. */
  function AsciiText(b: seq<byte>): (s: string)
    requires IsAscii(b)
    ensures |s| == |b| && forall i | 0 <= i < |b| :: s[i] as int == b[i] as int
  {
    seq(|b|, i requires 0 <= i < |b| => (b[i] as int) as char)
  }

  /** `str.encode()` of ASCII text: the inverse of `AsciiText`. */
  function AsciiBytes(s: string): (b: seq<byte>)
    requires forall i | 0 <= i < |s| :: s[i] as int < 128
    ensures |b| == |s| && forall i | 0 <= i < |s| :: b[i] as int == s[i] as int
  {
    seq(|s|, i requires 0 <= i < |s| => (s[i] as int) as byte)
  }

  /** Characters of the URL-safe alphabet, as text. */
  predicate IsUrlSafeChar(c: char) {
    ('A' <= c <= 'Z') || ('a' <= c <= 'z') || ('0' <= c <= '9') || c == '-' || c == '_'
  }

  /** The output of `base64.urlsafe_b64encode` is ASCII text. */
  lemma EncodingIsAscii(b: seq<byte>)
    ensures IsAscii(Base64UrlEncode(b))
  {
    EncodingShape(b);
  }

  /** `base64.urlsafe_b64encode(...).decode('utf-8')`: the text form of an encoding. */
  function Base64UrlText(b: seq<byte>): (s: string)
    ensures |s| == 4 * ((|b| + 2) / 3)
    ensures forall i | 0 <= i < |s| :: s[i] as int < 128
    ensures AsciiBytes(s) == Base64UrlEncode(b)
  {
    EncodingIsAscii(b);
    var s := AsciiText(Base64UrlEncode(b));
    assert AsciiBytes(s) == Base64UrlEncode(b);
    s
  }

  /**
   * `generate_challenge(verifier)`: 43 characters of the URL-safe alphabet, so
   * no '=' survives the cut.
   */
  function GenerateChallenge(hash: seq<byte> -> Bytes32, verifier: seq<byte>): (c: string)
    ensures |c| == 43
    ensures forall i | 0 <= i < |c| :: IsUrlSafeChar(c[i])
    ensures forall i | 0 <= i < |c| :: c[i] != '='
  {
    var enc := Base64UrlEncode(hash(verifier));
    DigestEncodingShape(hash(verifier));
    var cut := DropLast(enc);
    assert IsAscii(cut);
    AsciiText(cut)
  }

  /**
   * The challenge is the unpadded S256 encoding of the digest: put the '='
   * back and it decodes to SHA-256 of the verifier.
   */
  lemma ChallengeDecodesToDigest(hash: seq<byte> -> Bytes32, verifier: seq<byte>)
    ensures var c := GenerateChallenge(hash, verifier);
      Base64UrlDecode(AsciiBytes(c) + [Pad]) == Some(hash(verifier))
  {
    var d := hash(verifier);
    var enc := Base64UrlEncode(d);
    DigestEncodingShape(d);
    var c := GenerateChallenge(hash, verifier);
    assert AsciiBytes(c) == DropLast(enc);
    assert AsciiBytes(c) + [Pad] == enc;
    DecodeEncode(d);
  }
}
