/** The token signer of gemini.py: `kq_encode`, the compact JSON text `json.dumps`
    produces for the header and the claims, and `create_jwt`, a JWS compact
    serialisation (section 7.1 of RFC 7515) signed with HS256 (section 3.2 of RFC 7518). */
module Jwt {
  import opened Common
  import opened Base64Url

  // ---------------------------------------------------------------------------
  // JSON text as `json.dumps(obj, separators=(',', ':'))` writes it (ensure_ascii on)
  // ---------------------------------------------------------------------------

  predicate Printable(c: char)
  {
    ' ' <= c <= '~'
  }

  predicate PrintableAscii(s: string)
  {
    forall i :: 0 <= i < |s| ==> Printable(s[i])
  }

  function HexDigit(d: int): (c: char)
    requires 0 <= d < 16
    ensures Printable(c)
  {
    if d < 10 then ('0' as int + d) as char else ('a' as int + d - 10) as char
  }

  /** `'{0:04x}'.format(n)`: four lower-case hexadecimal digits. */
  function Hex4(n: int): (s: string)
    requires 0 <= n < 0x1_0000
    ensures |s| == 4 && PrintableAscii(s)
  {
    [HexDigit(n / 0x1000), HexDigit(n / 0x100 % 16), HexDigit(n / 16 % 16), HexDigit(n % 16)]
  }

  /** How the ASCII-only JSON encoder writes one character of a string: the short
      escapes, the printable characters as they are, any other character of the
      basic plane as \uXXXX and a character beyond it as a surrogate pair. */
  function EscapeChar(c: char): (s: string)
    ensures PrintableAscii(s)
  {
    if Printable(c) && c != '"' && c != '\\' then [c]
    else if c == '"' then "\\\""
    else if c == '\\' then "\\\\"
    else if c == '\n' then "\\n"
    else if c == '\r' then "\\r"
    else if c == '\t' then "\\t"
    else if c == '\U{0008}' then "\\b"
    else if c == '\U{000c}' then "\\f"
    else if c as int < 0x1_0000 then "\\u" + Hex4(c as int)
    else
      var v := c as int - 0x1_0000;
      "\\u" + Hex4(0xd800 + v / 0x400) + "\\u" + Hex4(0xdc00 + v % 0x400)
  }

  function Escaped(s: string): (r: string)
    ensures PrintableAscii(r)
  {
    if s == [] then "" else EscapeChar(s[0]) + Escaped(s[1..])
  }

  /** Printable text without quote or backslash is dumped as it is. */
  lemma {:induction false} EscapedPlain(s: string)
    requires forall i :: 0 <= i < |s| ==> Printable(s[i]) && s[i] != '"' && s[i] != '\\'
    ensures Escaped(s) == s
  {
    if s != [] {
      EscapedPlain(s[1..]);
    }
  }

  function JsonQuote(s: string): (r: string)
    ensures PrintableAscii(r)
  {
    "\"" + Escaped(s) + "\""
  }

  function DigitsOf(n: nat): (s: string)
    ensures |s| >= 1 && forall i :: 0 <= i < |s| ==> '0' <= s[i] <= '9'
  {
    if n < 10 then [('0' as int + n) as char] else DigitsOf(n / 10) + [('0' as int + n % 10) as char]
  }

  /** A JSON value of the two kinds the token carries. */
  datatype JValue = JStr(s: string) | JNat(n: nat)

  function ValueText(v: JValue): (s: string)
    ensures PrintableAscii(s)
  {
    match v
    case JStr(s) => JsonQuote(s)
    case JNat(n) => DigitsOf(n)
  }

  function MemberTexts(members: seq<(string, JValue)>): (r: seq<string>)
    ensures |r| == |members|
    ensures forall i :: 0 <= i < |r| ==> PrintableAscii(r[i])
  {
    if members == [] then []
    else [JsonQuote(members[0].0) + ":" + ValueText(members[0].1)] + MemberTexts(members[1..])
  }

  lemma {:induction false} JoinPrintable(sep: string, parts: seq<string>)
    requires PrintableAscii(sep)
    requires forall i :: 0 <= i < |parts| ==> PrintableAscii(parts[i])
    ensures PrintableAscii(Join(sep, parts))
    decreases |parts|
  {
    if |parts| > 1 {
      JoinPrintable(sep, parts[1..]);
    }
  }

  /** `json.dumps(obj, separators=(',', ':'))` of an object, keys in the given order. */
  function ObjectText(members: seq<(string, JValue)>): (s: string)
    ensures PrintableAscii(s)
  {
    JoinPrintable(",", MemberTexts(members));
    "{" + Join(",", MemberTexts(members)) + "}"
  }

  // ---------------------------------------------------------------------------
  // kq_encode
  // ---------------------------------------------------------------------------

  /** Every code point fits 16 bits, so that `val >> 8` is a byte. */
  predicate InBasicPlane(s: string)
  {
    forall i :: 0 <= i < |s| ==> s[i] as int < 0x1_0000
  }

  /** The bytes `kq_encode` appends for one character: a code point above 255
      becomes its low byte and then its high byte. */
  function WidenChar(c: char): (r: seq<byte>)
    requires c as int < 0x1_0000
  {
    if c as int > 255 then [c as int % 256, c as int / 256] else [c as int]
  }

  function Widen(s: string): (r: seq<byte>)
    requires InBasicPlane(s)
  {
    if s == [] then [] else Widen(s[..|s| - 1]) + WidenChar(s[|s| - 1])
  }

  /** Widening leaves an ASCII string byte for byte as it is. */
  lemma {:induction false} WidenAscii(s: string)
    requires PrintableAscii(s)
    ensures InBasicPlane(s)
    ensures |Widen(s)| == |s| && forall i :: 0 <= i < |s| ==> Widen(s)[i] == s[i] as int
    decreases |s|
  {
    if s != [] {
      WidenAscii(s[..|s| - 1]);
    }
  }

  /** The bytes of a widened character give back its code point, low byte first. */
  lemma WidenCharLittleEndian(c: char)
    requires 255 < c as int < 0x1_0000
    ensures var w := WidenChar(c); |w| == 2 && w[0] as int + 256 * (w[1] as int) == c as int
  {
  }

  /** The encoding `create_jwt` uses for its header and payload. */
  function KqEncoded(s: string): (r: string)
    requires InBasicPlane(s)
  {
    UrlSafeB64Encode(Widen(s))
  }

  /** `kq_encode` (gemini.py): the loop that appends to a bytearray; a code point
      above 0xFFFF makes `bytearray.append` raise. */
  method KqEncode(s: string) returns (r: Result<string>)
    ensures InBasicPlane(s) ==> r == Ok(KqEncoded(s))
    ensures !InBasicPlane(s) ==> r.Err?
  {
    var bytes: seq<byte> := [];
    var i := 0;
    while i < |s|
      invariant 0 <= i <= |s|
      invariant InBasicPlane(s[..i])
      invariant bytes == Widen(s[..i])
    {
      var v := s[i] as int;
      assert s[..i + 1][..i] == s[..i];
      if v > 255 {
        if v / 256 > 255 {
          return Err("byte must be in range(0, 256)");
        }
        bytes := bytes + [v % 256, v / 256];
      } else {
        bytes := bytes + [v];
      }
      i := i + 1;
    }
    assert s[..i] == s;
    r := Ok(UrlSafeB64Encode(bytes));
  }

  // ---------------------------------------------------------------------------
  // create_jwt
  // ---------------------------------------------------------------------------

  const Issuer := "https://business.gemini.google"
  const Audience := "https://biz-discoveryengine.googleapis.com"
  /** Seconds between `iat` and `exp`. */
  const Lifetime := 300

  function HeaderMembers(keyId: string): seq<(string, JValue)>
  {
    [("alg", JStr("HS256")), ("typ", JStr("JWT")), ("kid", JStr(keyId))]
  }

  function ClaimMembers(issuer: string, audience: string, csesidx: string, now: nat): seq<(string, JValue)>
  {
    [("iss", JStr(issuer)), ("aud", JStr(audience)), ("sub", JStr("csesidx/" + csesidx)),
     ("iat", JNat(now)), ("exp", JNat(now + Lifetime)), ("nbf", JNat(now))]
  }

  /** `json.dumps(header, separators=(',', ':'))`. */
  function HeaderText(keyId: string): (s: string)
    ensures PrintableAscii(s)
  {
    ObjectText(HeaderMembers(keyId))
  }

  /** `json.dumps(payload, separators=(',', ':'))`. */
  function ClaimsText(issuer: string, audience: string, csesidx: string, now: nat): (s: string)
    ensures PrintableAscii(s)
  {
    ObjectText(ClaimMembers(issuer, audience, csesidx, now))
  }

  /** `message.encode('utf-8')` for a message that is ASCII. */
  predicate Ascii(s: string)
  {
    forall i :: 0 <= i < |s| ==> s[i] as int < 128
  }

  function AsciiBytes(s: string): (r: seq<byte>)
    requires Ascii(s)
    ensures |r| == |s| && forall i :: 0 <= i < |s| ==> r[i] == s[i] as int
  {
    if s == [] then [] else [s[0] as int] + AsciiBytes(s[1..])
  }

  lemma PrintableInBasicPlane(s: string)
    requires PrintableAscii(s)
    ensures InBasicPlane(s)
  {
  }

  lemma SegmentAscii(b: seq<byte>)
    ensures var s := UrlSafeB64Encode(b); Ascii(s) && '.' !in s
  {
    UrlSafeB64EncodeAlphabet(b);
  }

  /** One encoded segment of the token: the kq_encode of a JSON text. */
  function Segment(text: string): (s: string)
    requires PrintableAscii(text)
    ensures Ascii(s) && '.' !in s
  {
    PrintableInBasicPlane(text);
    SegmentAscii(Widen(text));
    KqEncoded(text)
  }

  /** The bytes HMAC signs: the UTF-8 of "header.payload", here plain ASCII. */
  function SigningInput(header: string, payload: string): (r: seq<byte>)
    requires Ascii(header) && Ascii(payload)
    ensures |r| == |header| + 1 + |payload|
  {
    assert Ascii(header + "." + payload);
    AsciiBytes(header + "." + payload)
  }

  /** "header.payload.signature" for the given JSON texts. */
  function SignedToken(headerText: string, payloadText: string, keyBytes: seq<byte>,
                       mac: (seq<byte>, seq<byte>) -> seq<byte>): (token: string)
    requires PrintableAscii(headerText) && PrintableAscii(payloadText)
  {
    var message := Segment(headerText) + "." + Segment(payloadText);
    message + "." + UrlSafeB64Encode(mac(keyBytes, SigningInput(Segment(headerText), Segment(payloadText))))
  }

  /** The construction of `create_jwt` for a given issuer and audience. */
  function TokenFor(issuer: string, audience: string, keyBytes: seq<byte>, keyId: string,
                    csesidx: string, now: nat, mac: (seq<byte>, seq<byte>) -> seq<byte>): (token: string)
  {
    SignedToken(HeaderText(keyId), ClaimsText(issuer, audience, csesidx, now), keyBytes, mac)
  }

  /** `create_jwt` (gemini.py). `now` is `int(time.time())` and `mac` stands for
      HMAC-SHA256, keyed by its first argument. */
  function CreateJwt(keyBytes: seq<byte>, keyId: string, csesidx: string, now: nat,
                     mac: (seq<byte>, seq<byte>) -> seq<byte>): (token: string)
  {
    TokenFor(Issuer, Audience, keyBytes, keyId, csesidx, now, mac)
  }

  // ---------------------------------------------------------------------------
  // Reading a token back
  // ---------------------------------------------------------------------------

  function FirstIndex(s: string, d: char): (i: nat)
    requires d in s
    ensures i < |s| && s[i] == d && d !in s[..i]
  {
    if s[0] == d then 0 else 1 + FirstIndex(s[1..], d)
  }

  /** `s.split(d)`. */
  function Split(s: string, d: char): (parts: seq<string>)
    ensures |parts| >= 1
    decreases |s|
  {
    if d !in s then [s]
    else
      var i := FirstIndex(s, d);
      [s[..i]] + Split(s[i + 1..], d)
  }

  lemma SplitAfter(a: string, d: char, rest: string)
    requires d !in a
    ensures Split(a + [d] + rest, d) == [a] + Split(rest, d)
  {
    var s := a + [d] + rest;
    assert s[|a|] == d;
    assert s[..|a|] == a;
    var i := FirstIndex(s, d);
    assert s[|a| + 1..] == rest;
  }

  lemma SplitThree(a: string, b: string, c: string, d: char)
    requires d !in a && d !in b && d !in c
    ensures Split(a + [d] + b + [d] + c, d) == [a, b, c]
  {
    assert a + [d] + b + [d] + c == a + [d] + (b + [d] + c);
    SplitAfter(a, d, b + [d] + c);
    SplitAfter(b, d, c);
  }

  lemma SegmentDecodes(text: string)
    requires PrintableAscii(text)
    ensures DecodeXsrfToken(Segment(text)) == Ok(AsciiBytes(text))
  {
    WidenAscii(text);
    assert Widen(text) == AsciiBytes(text);
    DecodeXsrfTokenOfEncode(Widen(text));
  }

  lemma {:induction false} SignedTokenStructure(headerText: string, payloadText: string, keyBytes: seq<byte>,
                                               mac: (seq<byte>, seq<byte>) -> seq<byte>)
    requires PrintableAscii(headerText) && PrintableAscii(payloadText)
    ensures var parts := Split(SignedToken(headerText, payloadText, keyBytes, mac), '.');
      && |parts| == 3
      && parts[0] == Segment(headerText) && parts[1] == Segment(payloadText)
      && DecodeXsrfToken(parts[0]) == Ok(AsciiBytes(headerText))
      && DecodeXsrfToken(parts[1]) == Ok(AsciiBytes(payloadText))
      && DecodeXsrfToken(parts[2]) == Ok(mac(keyBytes, SigningInput(parts[0], parts[1])))
  {
    var hs, ps := Segment(headerText), Segment(payloadText);
    var message := hs + "." + ps;
    var sig := mac(keyBytes, SigningInput(hs, ps));
    SegmentAscii(sig);
    var ss := UrlSafeB64Encode(sig);
    assert SignedToken(headerText, payloadText, keyBytes, mac) == hs + "." + ps + "." + ss;
    SplitThree(hs, ps, ss, '.');
    SegmentDecodes(headerText);
    SegmentDecodes(payloadText);
    DecodeXsrfTokenOfEncode(sig);
  }

  /** A token splits at its two dots into the encoded header, the encoded claims and
      the encoded signature over the first two; the first two decode back to the JSON
      text of the header (alg, typ, kid = the key id) and of the claims (iss, aud,
      sub = "csesidx/" + csesidx, iat = now, exp = now + 300, nbf = now). It is stated
      for any issuer and audience; `CreateJwt` is the instance with the two fixed URLs. */
  lemma CreateJwtStructure(issuer: string, audience: string, keyBytes: seq<byte>, keyId: string,
                           csesidx: string, now: nat, mac: (seq<byte>, seq<byte>) -> seq<byte>)
    ensures var parts := Split(TokenFor(issuer, audience, keyBytes, keyId, csesidx, now, mac), '.');
      && |parts| == 3
      && parts[0] == Segment(HeaderText(keyId))
      && parts[1] == Segment(ClaimsText(issuer, audience, csesidx, now))
      && DecodeXsrfToken(parts[0]) == Ok(AsciiBytes(HeaderText(keyId)))
      && DecodeXsrfToken(parts[1]) == Ok(AsciiBytes(ClaimsText(issuer, audience, csesidx, now)))
      && DecodeXsrfToken(parts[2]) == Ok(mac(keyBytes, SigningInput(parts[0], parts[1])))
  {
    SignedTokenStructure(HeaderText(keyId), ClaimsText(issuer, audience, csesidx, now), keyBytes, mac);
  }
}
