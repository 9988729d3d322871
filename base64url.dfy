/** The URL-safe base64 alphabet of section 5 of RFC 4648, the padding-stripping
    encoder `url_safe_b64encode` and the re-padding decoder `decode_xsrf_token`. */
module Base64Url {
  import opened Common

  /** The sextet `i` of the URL-safe alphabet: A-Z, a-z, 0-9, '-', '_'. */
  function SextetChar(i: int): (c: char)
    requires 0 <= i < 64
  {
    if i < 26 then ('A' as int + i) as char
    else if i < 52 then ('a' as int + i - 26) as char
    else if i < 62 then ('0' as int + i - 52) as char
    else if i == 62 then '-'
    else '_'
  }

  predicate IsUrlSafeChar(c: char)
  {
    ('A' <= c <= 'Z') || ('a' <= c <= 'z') || ('0' <= c <= '9') || c == '-' || c == '_'
  }

  /** The sextet a character stands for when decoding, -1 if none.
      `urlsafe_b64decode` maps '-' and '_' to '+' and '/' before decoding, so it
      accepts both spellings of sextets 62 and 63. */
  function CharSextet(c: char): (v: int)
    ensures -1 <= v < 64
    ensures IsUrlSafeChar(c) ==> v >= 0 && SextetChar(v) == c
  {
    if 'A' <= c <= 'Z' then c as int - 'A' as int
    else if 'a' <= c <= 'z' then c as int - 'a' as int + 26
    else if '0' <= c <= '9' then c as int - '0' as int + 52
    else if c == '-' || c == '+' then 62
    else if c == '_' || c == '/' then 63
    else -1
  }

  lemma SextetRoundTrip(i: int)
    requires 0 <= i < 64
    ensures IsUrlSafeChar(SextetChar(i)) && CharSextet(SextetChar(i)) == i
  {
  }

  /** Standard base64 with '=' padding over the URL-safe alphabet
      (`base64.urlsafe_b64encode`). */
  function EncodePadded(b: seq<byte>): (s: string)
    decreases |b|
  {
    if |b| == 0 then ""
    else if |b| == 1 then
      [SextetChar(b[0] / 4), SextetChar((b[0] % 4) * 16), '=', '=']
    else if |b| == 2 then
      [SextetChar(b[0] / 4), SextetChar((b[0] % 4) * 16 + b[1] / 16), SextetChar((b[1] % 16) * 4), '=']
    else
      Quad(b[0], b[1], b[2]) + EncodePadded(b[3..])
  }

  function Quad(b0: byte, b1: byte, b2: byte): (s: string)
  {
    [SextetChar(b0 / 4), SextetChar((b0 % 4) * 16 + b1 / 16),
     SextetChar((b1 % 16) * 4 + b2 / 64), SextetChar(b2 % 64)]
  }

  /** `s.rstrip(ch)`: drops every trailing occurrence of `ch`. */
  function RStripChar(s: string, ch: char): (r: string)
    ensures |r| <= |s| && r == s[..|r|]
    ensures r == [] || r[|r| - 1] != ch
  {
    if s != [] && s[|s| - 1] == ch then RStripChar(s[..|s| - 1], ch) else s
  }

  /** `url_safe_b64encode` (gemini.py): the padded encoding with its '=' stripped. */
  function UrlSafeB64Encode(data: seq<byte>): (s: string)
  {
    RStripChar(EncodePadded(data), '=')
  }

  /** The padding `EncodePadded` puts after the last group. */
  function Padding(n: nat): string
  {
    if n % 3 == 1 then "==" else if n % 3 == 2 then "=" else ""
  }

  /** The encoding without padding, a group at a time. */
  function EncodeBare(b: seq<byte>): (s: string)
    decreases |b|
  {
    if |b| == 0 then ""
    else if |b| == 1 then
      [SextetChar(b[0] / 4), SextetChar((b[0] % 4) * 16)]
    else if |b| == 2 then
      [SextetChar(b[0] / 4), SextetChar((b[0] % 4) * 16 + b[1] / 16), SextetChar((b[1] % 16) * 4)]
    else
      Quad(b[0], b[1], b[2]) + EncodeBare(b[3..])
  }

  /** Four characters for every three bytes, and two or three for a final partial group. */
  lemma {:induction false} EncodeBareLength(b: seq<byte>)
    ensures |EncodeBare(b)| == 4 * (|b| / 3) + (if |b| % 3 == 0 then 0 else |b| % 3 + 1)
    decreases |b|
  {
    if |b| > 2 {
      EncodeBareLength(b[3..]);
      assert EncodeBare(b) == Quad(b[0], b[1], b[2]) + EncodeBare(b[3..]);
      assert |b[3..]| / 3 == |b| / 3 - 1 && |b[3..]| % 3 == |b| % 3;
    }
  }

  lemma {:induction false} EncodeBareAlphabet(b: seq<byte>)
    ensures forall i :: 0 <= i < |EncodeBare(b)| ==> IsUrlSafeChar(EncodeBare(b)[i])
    decreases |b|
  {
    if |b| > 2 {
      EncodeBareAlphabet(b[3..]);
      var q := Quad(b[0], b[1], b[2]);
      assert EncodeBare(b) == q + EncodeBare(b[3..]);
    }
  }

  lemma PaddingStep(n: nat)
    ensures Padding(n + 3) == Padding(n)
  {
  }

  lemma {:induction false} PaddedIsBarePlusPadding(b: seq<byte>)
    ensures EncodePadded(b) == EncodeBare(b) + Padding(|b|)
    decreases |b|
  {
    if |b| == 1 {
      assert EncodePadded(b) == EncodeBare(b) + "==";
    } else if |b| == 2 {
      assert EncodePadded(b) == EncodeBare(b) + "=";
    } else if |b| > 2 {
      PaddedIsBarePlusPadding(b[3..]);
      PaddingStep(|b[3..]|);
      var q := Quad(b[0], b[1], b[2]);
      calc {
        EncodePadded(b);
        q + EncodePadded(b[3..]);
        q + (EncodeBare(b[3..]) + Padding(|b|));
        (q + EncodeBare(b[3..])) + Padding(|b|);
        EncodeBare(b) + Padding(|b|);
      }
    }
  }

  lemma RStripPadding(s: string, pad: string)
    requires s == [] || s[|s| - 1] != '='
    requires forall i :: 0 <= i < |pad| ==> pad[i] == '='
    ensures RStripChar(s + pad, '=') == s
    decreases |pad|
  {
    if pad != [] {
      assert (s + pad)[..|s + pad| - 1] == s + pad[..|pad| - 1];
      RStripPadding(s, pad[..|pad| - 1]);
    } else {
      assert s + pad == s;
    }
  }

  /** `url_safe_b64encode` is the bare encoding: no '=' and only URL-safe characters,
      four characters for every three bytes and two or three for a final partial group. */
  lemma UrlSafeB64EncodeIsBare(data: seq<byte>)
    ensures UrlSafeB64Encode(data) == EncodeBare(data)
  {
    PaddedIsBarePlusPadding(data);
    EncodeBareAlphabet(data);
    var s := EncodeBare(data);
    RStripPadding(s, Padding(|data|));
  }

  lemma UrlSafeB64EncodeAlphabet(data: seq<byte>)
    ensures var s := UrlSafeB64Encode(data);
      && (forall i :: 0 <= i < |s| ==> IsUrlSafeChar(s[i]))
      && '=' !in s
      && '.' !in s
      && |s| == 4 * (|data| / 3) + (if |data| % 3 == 0 then 0 else |data| % 3 + 1)
  {
    UrlSafeB64EncodeIsBare(data);
    EncodeBareAlphabet(data);
    EncodeBareLength(data);
    var s := UrlSafeB64Encode(data);
    forall i | 0 <= i < |s| ensures s[i] != '=' && s[i] != '.' {
      assert IsUrlSafeChar(s[i]);
    }
  }

  /** One group of four data characters: three bytes, or None if a character is
      not in the alphabet. */
  function DecodeFull(q: string): (r: Option<seq<byte>>)
    requires |q| == 4
  {
    var v0, v1, v2, v3 := CharSextet(q[0]), CharSextet(q[1]), CharSextet(q[2]), CharSextet(q[3]);
    if v0 < 0 || v1 < 0 || v2 < 0 || v3 < 0 then None
    else Some([(v0 * 4 + v1 / 16) as byte, ((v1 % 16) * 16 + v2 / 4) as byte, ((v2 % 4) * 64 + v3) as byte])
  }

  /** The final group, which may end in "==" (one byte) or "=" (two bytes). */
  function DecodeLast(q: string): (r: Option<seq<byte>>)
    requires |q| == 4
  {
    var v0, v1, v2 := CharSextet(q[0]), CharSextet(q[1]), CharSextet(q[2]);
    if v0 < 0 || v1 < 0 then None
    else if q[2] == '=' && q[3] == '=' then Some([(v0 * 4 + v1 / 16) as byte])
    else if v2 < 0 then None
    else if q[3] == '=' then Some([(v0 * 4 + v1 / 16) as byte, ((v1 % 16) * 16 + v2 / 4) as byte])
    else DecodeFull(q)
  }

  /** `base64.urlsafe_b64decode` on a string whose length is a multiple of four,
      with '=' allowed only as the padding of the final group. */
  function DecodePadded(t: string): (r: Result<seq<byte>>)
    decreases |t|
  {
    if |t| == 0 then Ok([])
    else if |t| < 4 then Err("Incorrect padding")
    else if |t| == 4 then
      (match DecodeLast(t)
       case None => Err("Invalid base64-encoded string")
       case Some(bs) => Ok(bs))
    else
      match DecodeFull(t[..4])
      case None => Err("Invalid base64-encoded string")
      case Some(bs) =>
        match DecodePadded(t[4..])
        case Err(e) => Err(e)
        case Ok(rest) => Ok(bs + rest)
  }

  /** The re-padding `decode_xsrf_token` applies: '=' up to a multiple of four. */
  function Repad(token: string): (t: string)
  {
    var padding := 4 - |token| % 4;
    if padding != 4 then token + seq(padding, _ => '=') else token
  }

  /** `decode_xsrf_token` (gemini.py): re-pad to a multiple of four, then decode. */
  function DecodeXsrfToken(token: string): (r: Result<seq<byte>>)
  {
    DecodePadded(Repad(token))
  }

  lemma SplitOne(b0: byte)
    ensures (b0 / 4) * 4 + ((b0 % 4) * 16) / 16 == b0
  {
  }

  lemma SplitTwo(b0: byte, b1: byte)
    ensures var v1 := (b0 % 4) * 16 + b1 / 16; var v2 := (b1 % 16) * 4;
      (b0 / 4) * 4 + v1 / 16 == b0 && (v1 % 16) * 16 + v2 / 4 == b1
  {
  }

  lemma SplitThreeBytes(b0: byte, b1: byte, b2: byte)
    ensures var v1 := (b0 % 4) * 16 + b1 / 16; var v2 := (b1 % 16) * 4 + b2 / 64; var v3 := b2 % 64;
      (b0 / 4) * 4 + v1 / 16 == b0 && (v1 % 16) * 16 + v2 / 4 == b1 && (v2 % 4) * 64 + v3 == b2
  {
  }

  lemma DecodeFullQuad(b0: byte, b1: byte, b2: byte)
    ensures DecodeFull(Quad(b0, b1, b2)) == Some([b0, b1, b2])
  {
    var v0, v1, v2, v3 := b0 / 4, (b0 % 4) * 16 + b1 / 16, (b1 % 16) * 4 + b2 / 64, b2 % 64;
    var q := Quad(b0, b1, b2);
    assert q == [SextetChar(v0), SextetChar(v1), SextetChar(v2), SextetChar(v3)];
    SextetRoundTrip(v0);
    SextetRoundTrip(v1);
    SextetRoundTrip(v2);
    SextetRoundTrip(v3);
    SplitThreeBytes(b0, b1, b2);
  }

  lemma DecodeLastOne(b: seq<byte>)
    requires |b| == 1
    ensures |EncodePadded(b)| == 4 && DecodeLast(EncodePadded(b)) == Some(b)
  {
    var v0, v1 := b[0] / 4, (b[0] % 4) * 16;
    var q := EncodePadded(b);
    assert q == [SextetChar(v0), SextetChar(v1), '=', '='];
    SextetRoundTrip(v0);
    SextetRoundTrip(v1);
    SplitOne(b[0]);
    assert b == [b[0]];
  }

  lemma DecodeLastTwo(b: seq<byte>)
    requires |b| == 2
    ensures |EncodePadded(b)| == 4 && DecodeLast(EncodePadded(b)) == Some(b)
  {
    var v0, v1, v2 := b[0] / 4, (b[0] % 4) * 16 + b[1] / 16, (b[1] % 16) * 4;
    var q := EncodePadded(b);
    assert q == [SextetChar(v0), SextetChar(v1), SextetChar(v2), '='];
    SextetRoundTrip(v0);
    SextetRoundTrip(v1);
    SextetRoundTrip(v2);
    SplitTwo(b[0], b[1]);
    assert q[2] != '=';
    assert b == [b[0], b[1]];
  }

  lemma DecodeLastQuad(b0: byte, b1: byte, b2: byte)
    ensures DecodeLast(Quad(b0, b1, b2)) == Some([b0, b1, b2])
  {
    var v2, v3 := (b1 % 16) * 4 + b2 / 64, b2 % 64;
    var q := Quad(b0, b1, b2);
    assert q[2] == SextetChar(v2) && q[3] == SextetChar(v3);
    DecodeFullQuad(b0, b1, b2);
    SextetRoundTrip(v2);
    SextetRoundTrip(v3);
  }

  lemma EncodePaddedThree(b: seq<byte>)
    requires |b| == 3
    ensures EncodePadded(b) == Quad(b[0], b[1], b[2])
  {
    assert EncodePadded(b[3..]) == [];
  }

  lemma DecodeLastThree(b: seq<byte>)
    requires |b| == 3
    ensures |EncodePadded(b)| == 4 && DecodeLast(EncodePadded(b)) == Some(b)
  {
    EncodePaddedThree(b);
    DecodeLastQuad(b[0], b[1], b[2]);
    assert b == [b[0], b[1], b[2]];
  }

  lemma DecodeLastGroup(b: seq<byte>)
    requires 1 <= |b| <= 3
    ensures |EncodePadded(b)| == 4 && DecodeLast(EncodePadded(b)) == Some(b)
  {
    if |b| == 1 {
      DecodeLastOne(b);
    } else if |b| == 2 {
      DecodeLastTwo(b);
    } else {
      DecodeLastThree(b);
    }
  }

  lemma {:induction false} DecodeEncodePadded(b: seq<byte>)
    ensures DecodePadded(EncodePadded(b)) == Ok(b)
    decreases |b|
  {
    if |b| == 0 {
    } else if |b| <= 3 {
      DecodeLastGroup(b);
    } else {
      var t := EncodePadded(b);
      var q := Quad(b[0], b[1], b[2]);
      assert t == q + EncodePadded(b[3..]);
      assert t[..4] == q;
      assert t[4..] == EncodePadded(b[3..]);
      DecodeFullQuad(b[0], b[1], b[2]);
      DecodeEncodePadded(b[3..]);
      assert b == [b[0], b[1], b[2]] + b[3..];
    }
  }

  lemma QuadLengthMod(q: int, k: int)
    requires 0 <= k < 4
    ensures (4 * q + k) % 4 == k
  {
  }

  /** The round trip: `decode_xsrf_token(url_safe_b64encode(b)) == b` for every byte string. */
  lemma RepadBare(s: string, n: nat)
    requires |s| % 4 == (if n % 3 == 0 then 0 else n % 3 + 1)
    ensures Repad(s) == s + Padding(n)
  {
    if n % 3 == 1 {
      assert seq(4 - |s| % 4, _ => '=') == "==";
    } else if n % 3 == 2 {
      assert seq(4 - |s| % 4, _ => '=') == "=";
    } else {
      assert s + Padding(n) == s;
    }
  }

  lemma DecodeXsrfTokenOfEncode(b: seq<byte>)
    ensures DecodeXsrfToken(UrlSafeB64Encode(b)) == Ok(b)
  {
    var s := EncodeBare(b);
    UrlSafeB64EncodeIsBare(b);
    EncodeBareLength(b);
    QuadLengthMod(|b| / 3, if |b| % 3 == 0 then 0 else |b| % 3 + 1);
    RepadBare(s, |b|);
    PaddedIsBarePlusPadding(b);
    DecodeEncodePadded(b);
  }
}
