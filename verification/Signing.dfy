/** Lower-case hexadecimal, as the `hex` crate and the browser's `toHex` write it, read in either case. */
module Hex {
  import opened Bits
  import opened Collections

  type Nibble = n: int | 0 <= n < 16

  function Digit(n: Nibble): char {
    if n < 10 then ('0' as int + n) as char else ('a' as int + n - 10) as char
  }

  function ValueOf(c: char): Option<Nibble> {
    if '0' <= c <= '9' then Some(c as int - '0' as int)
    else if 'a' <= c <= 'f' then Some(c as int - 'a' as int + 10)
    else if 'A' <= c <= 'F' then Some(c as int - 'A' as int + 10)
    else None
  }

  function Encode(bytes: seq<Byte>): string {
    if bytes == [] then ""
    else Encode(bytes[..|bytes| - 1]) + [Digit(bytes[|bytes| - 1] / 16), Digit(bytes[|bytes| - 1] % 16)]
  }

  /** `None` for an odd length or a character that is no hexadecimal digit. */
  function Decode(s: string): Option<seq<Byte>> {
    if s == "" then Some([])
    else if |s| == 1 then None
    else
      var n := |s| - 2;
      var front, high, low := Decode(s[..n]), ValueOf(s[n]), ValueOf(s[n + 1]);
      if front == None || high == None || low == None then None
      else Some(front.value + [Joined(high.value, low.value)])
  }

  function Joined(high: Nibble, low: Nibble): Byte { high * 16 + low }

  function LowerDigit(c: char): char {
    if 'A' <= c <= 'F' then (c as int + 32) as char else c
  }

  function Lowered(s: string): string { seq(|s|, i requires 0 <= i < |s| => LowerDigit(s[i])) }

  lemma DigitValue(c: char, n: Nibble)
    ensures ValueOf(c) == Some(n) <==> LowerDigit(c) == Digit(n)
  {
  }

  lemma {:induction false} EncodeLength(bytes: seq<Byte>)
    ensures |Encode(bytes)| == 2 * |bytes|
  {
    if bytes != [] { EncodeLength(bytes[..|bytes| - 1]); }
  }

  /** Two digits to the byte, the high one first. */
  lemma {:induction false} EncodeAt(bytes: seq<Byte>, i: nat)
    requires i < |bytes|
    ensures |Encode(bytes)| == 2 * |bytes|
    ensures Encode(bytes)[2 * i] == "0123456789abcdef"[bytes[i] / 16]
    ensures Encode(bytes)[2 * i + 1] == "0123456789abcdef"[bytes[i] % 16]
    decreases |bytes|
  {
    var n := |bytes| - 1;
    EncodeLength(bytes);
    EncodeLength(bytes[..n]);
    if i < n {
      EncodeAt(bytes[..n], i);
    } else {
      DigitInOrder(bytes[n] / 16);
      DigitInOrder(bytes[n] % 16);
    }
    hide Digit;
  }

  lemma DigitInOrder(n: Nibble)
    ensures Digit(n) == "0123456789abcdef"[n]
  {
  }

  /** Decoding is the exact inverse of encoding, up to the case of the digits. */
  lemma {:induction false} DecodeExact(s: string, bytes: seq<Byte>)
    ensures Decode(s) == Some(bytes) <==> Lowered(s) == Encode(bytes)
    decreases |s|
  {
    if |s| < 2 || bytes == [] {
      DecodeShort(s, bytes);
    } else {
      hide *;
      DecodeExact(s[..|s| - 2], bytes[..|bytes| - 1]);
      DecodeLast(s, bytes);
    }
  }

  lemma {:induction false} DecodeShort(s: string, bytes: seq<Byte>)
    requires |s| < 2 || bytes == []
    ensures Decode(s) == Some(bytes) <==> Lowered(s) == Encode(bytes)
  {
    EncodeLength(bytes);
    assert |Lowered(s)| == |s|;
    if |s| >= 2 { NotEmpty(s); }
  }

  lemma {:induction false} NotEmpty(s: string)
    requires |s| >= 2
    ensures Decode(s) != Some([])
  {
  }

  lemma LoweredLast(s: string)
    requires |s| >= 2
    ensures Lowered(s) == Lowered(s[..|s| - 2]) + [LowerDigit(s[|s| - 2]), LowerDigit(s[|s| - 1])]
  {
    hide LowerDigit;
  }

  lemma Nibbles(high: Nibble, low: Nibble, b: Byte)
    ensures Joined(high, low) == b <==> high == b / 16 && low == b % 16
  {
  }

  lemma {:induction false} DecodeStep(s: string, bytes: seq<Byte>)
    requires |s| >= 2 && bytes != []
    ensures var n, m := |s| - 2, |bytes| - 1;
            Decode(s) == Some(bytes) <==>
              Decode(s[..n]) == Some(bytes[..m]) && ValueOf(s[n]) == Some(bytes[m] / 16) && ValueOf(s[n + 1]) == Some(bytes[m] % 16)
  {
    hide ValueOf, Joined;
    var n, m := |s| - 2, |bytes| - 1;
    var front, high, low := Decode(s[..n]), ValueOf(s[n]), ValueOf(s[n + 1]);
    assert bytes == bytes[..m] + [bytes[m]];
    if front.Some? && high.Some? && low.Some? {
      Nibbles(high.value, low.value, bytes[m]);
      LastOf(front.value, Joined(high.value, low.value), bytes[..m], bytes[m]);
    }
  }

  lemma LastOf(p: seq<Byte>, a: Byte, q: seq<Byte>, b: Byte)
    ensures p + [a] == q + [b] <==> p == q && a == b
  {
    assert (p + [a])[..|p|] == p && (q + [b])[..|q|] == q;
  }

  lemma {:induction false} DecodeLast(s: string, bytes: seq<Byte>)
    requires |s| >= 2 && bytes != []
    requires Decode(s[..|s| - 2]) == Some(bytes[..|bytes| - 1]) <==> Lowered(s[..|s| - 2]) == Encode(bytes[..|bytes| - 1])
    ensures Decode(s) == Some(bytes) <==> Lowered(s) == Encode(bytes)
  {
    hide Digit, LowerDigit, ValueOf, Lowered, Decode;
    var n, m := |s| - 2, |bytes| - 1;
    var b := bytes[m];
    DecodeStep(s, bytes);
    DigitValue(s[n], b / 16);
    DigitValue(s[n + 1], b % 16);
    LoweredLast(s);
    Ends(Lowered(s[..n]), LowerDigit(s[n]), LowerDigit(s[n + 1]), Encode(bytes[..m]), Digit(b / 16), Digit(b % 16));
  }

  lemma Ends(p: string, a: char, b: char, q: string, c: char, d: char)
    ensures p + [a, b] == q + [c, d] <==> p == q && a == c && b == d
  {
    if p + [a, b] == q + [c, d] {
      assert |p| == |q|;
      assert (p + [a, b])[|p|] == a && (p + [a, b])[|p| + 1] == b;
      assert p == (p + [a, b])[..|p|] == q;
    }
  }

  lemma DigitIsLower(n: Nibble)
    ensures LowerDigit(Digit(n)) == Digit(n) && ValueOf(Digit(n)).Some?
  {
  }

  lemma {:induction false} EncodeIsLower(bytes: seq<Byte>)
    ensures Lowered(Encode(bytes)) == Encode(bytes)
    ensures forall c :: c in Encode(bytes) ==> ValueOf(c).Some?
  {
    hide Digit, LowerDigit, ValueOf;
    if bytes != [] {
      var front, b := bytes[..|bytes| - 1], bytes[|bytes| - 1];
      EncodeIsLower(front);
      DigitIsLower(b / 16);
      DigitIsLower(b % 16);
      var s := Encode(bytes);
      assert s[..|s| - 2] == Encode(front);
      LoweredLast(s);
    }
  }

  lemma {:induction false} RoundTrip(bytes: seq<Byte>)
    ensures Decode(Encode(bytes)) == Some(bytes)
  {
    EncodeIsLower(bytes);
    DecodeExact(Encode(bytes), bytes);
  }
}

/** Request signatures: what the dashboard sends (static/app.js) and what the server checks
    (src/crypto.rs). */
module Signing {
  import opened Bits
  import opened Collections
  import opened JsNumber
  import Hex
  import Rfc2104
  import Sha256Js
  import opened Text

  const NEWLINE: Byte := 10

  /** `METHOD\nTARGET\nTIMESTAMP\nBODY` */
  function CanonicalPayload(verb: seq<Byte>, target: seq<Byte>, timestamp: seq<Byte>, body: seq<Byte>): seq<Byte> {
    verb + [NEWLINE] + target + [NEWLINE] + timestamp + [NEWLINE] + body
  }

  /** `canonical_v1_payload` fills a buffer piece by piece. */
  method BuildPayload(verb: seq<Byte>, target: seq<Byte>, timestamp: seq<Byte>, body: seq<Byte>)
    returns (message: seq<Byte>)
    ensures message == CanonicalPayload(verb, target, timestamp, body)
  {
    message := verb;
    message := message + [NEWLINE];
    message := message + target;
    message := message + [NEWLINE];
    message := message + timestamp;
    message := message + [NEWLINE];
    message := message + body;
  }

  lemma LineDiffers(a: seq<Byte>, x: seq<Byte>, b: seq<Byte>)
    requires NEWLINE !in b && |a| < |b| <= |a + [NEWLINE] + x|
    ensures (a + [NEWLINE] + x)[..|b|] != b
  {
    assert (a + [NEWLINE] + x)[..|b|][|a|] == NEWLINE;
    assert b[|a|] in b;
  }

  lemma FirstLine(a: seq<Byte>, x: seq<Byte>, b: seq<Byte>, y: seq<Byte>)
    requires NEWLINE !in a && NEWLINE !in b && a + [NEWLINE] + x == b + [NEWLINE] + y
    ensures a == b && x == y
  {
    var s, t := a + [NEWLINE] + x, b + [NEWLINE] + y;
    assert s[..|a|] == a && t[..|b|] == b;
    if |a| < |b| { LineDiffers(a, x, b); }
    if |b| < |a| { LineDiffers(b, y, a); }
    assert s[|a| + 1..] == x && t[|b| + 1..] == y;
  }

  /** Everything before the first line feed, and after it. */
  ghost function Line(s: seq<Byte>): (seq<Byte>, seq<Byte>) {
    if s == [] then ([], [])
    else if s[0] == 10 then ([], s[1..])
    else ([s[0]] + Line(s[1..]).0, Line(s[1..]).1)
  }

  lemma {:induction false} LineOf(a: seq<Byte>, x: seq<Byte>)
    requires 10 !in a
    ensures Line(a + [10] + x) == (a, x)
  {
    var s := a + [10] + x;
    if a == [] {
      assert s[1..] == x;
    } else {
      LineOf(a[1..], x);
      assert s[0] == a[0] && s[1..] == a[1..] + [10] + x && [a[0]] + a[1..] == a;
    }
  }

  /** Read line by line, a payload gives the method, then the target, then the timestamp, and the rest is the
      body, whatever it holds. */
  lemma {:induction false} PayloadReadsBack(verb: seq<Byte>, target: seq<Byte>, timestamp: seq<Byte>, body: seq<Byte>)
    requires 10 !in verb && 10 !in target && 10 !in timestamp
    ensures var first := Line(CanonicalPayload(verb, target, timestamp, body));
            var second := Line(first.1);
            first.0 == verb && second.0 == target && Line(second.1) == (timestamp, body)
  {
    hide Line;
    var third := timestamp + [10] + body;
    var rest := target + [10] + third;
    assert CanonicalPayload(verb, target, timestamp, body) == verb + [10] + rest;
    LineOf(verb, rest);
    LineOf(target, third);
    LineOf(timestamp, body);
  }

  /** No two requests share a payload: a method, a target and a header value hold no line feed. */
  lemma PayloadInjective(v: seq<Byte>, t: seq<Byte>, s: seq<Byte>, b: seq<Byte>,
                         v': seq<Byte>, t': seq<Byte>, s': seq<Byte>, b': seq<Byte>)
    requires NEWLINE !in v && NEWLINE !in t && NEWLINE !in s && NEWLINE !in v' && NEWLINE !in t' && NEWLINE !in s'
    requires CanonicalPayload(v, t, s, b) == CanonicalPayload(v', t', s', b')
    ensures v == v' && t == t' && s == s' && b == b'
  {
    var r, r' := s + [NEWLINE] + b, s' + [NEWLINE] + b';
    var q, q' := t + [NEWLINE] + r, t' + [NEWLINE] + r';
    assert CanonicalPayload(v, t, s, b) == v + [NEWLINE] + q;
    assert CanonicalPayload(v', t', s', b') == v' + [NEWLINE] + q';
    FirstLine(v, q, v', q');
    FirstLine(t, r, t', r');
    FirstLine(s, b, s', b');
  }

  /** The hypothesis is needed: with a line feed allowed in one field two requests can collide. */
  lemma PayloadCollides(v: seq<Byte>, t: seq<Byte>, s: seq<Byte>, b: seq<Byte>)
    ensures CanonicalPayload(v, t + [NEWLINE] + t, s, b) == CanonicalPayload(v + [NEWLINE] + t, t, s, b)
    ensures v != v + [NEWLINE] + t
  {
    assert |v| != |v + [NEWLINE] + t|;
  }

  // ---------------------------------------------------------------- signature headers

  const SIGNATURE_PREFIX: string := "sha256="

  datatype Rejection = MissingPrefix | MalformedHex | Mismatch
  datatype Verdict = Ok(digest: seq<Byte>) | Err(rejection: Rejection)

  /** What SHA-256 can hash: section 1 of FIPS 180-4 limits a message to fewer than 2^64 bits. */
  predicate Hashable(secret: seq<Byte>, payload: seq<Byte>) {
    8 * |secret| < 0x1_0000_0000_0000_0000 && 8 * (|payload| + 64) < 0x1_0000_0000_0000_0000
  }

  ghost function ComputeSignature(secret: seq<Byte>, payload: seq<Byte>): string
    requires Hashable(secret, payload)
  {
    SIGNATURE_PREFIX + Hex.Encode(Rfc2104.Hmac(secret, payload))
  }

  ghost function VerifySignature(secret: seq<Byte>, payload: seq<Byte>, provided: string): Verdict
    requires Hashable(secret, payload)
  {
    var header := Trim(provided);
    if !(SIGNATURE_PREFIX <= header) then Err(MissingPrefix)
    else
      var bytes := Hex.Decode(Trim(header[|SIGNATURE_PREFIX|..]));
      if bytes == None then Err(MalformedHex)
      else if bytes.value != Rfc2104.Hmac(secret, payload) then Err(Mismatch)
      else Ok(bytes.value)
  }

  /** The header has the prefix, after white space. */
  ghost predicate HasPrefix(provided: string) { exists a, rest :: Prefixed(provided, a, rest) }

  ghost predicate Prefixed(provided: string, a: string, rest: string) { Blank(a) && provided == a + "sha256=" + rest }

  /** The header spells these bytes: the prefix and their digits, in either case, with white space around each. */
  ghost predicate Spells(provided: string, bytes: seq<Byte>) { exists a, b, digits, c :: Spelt(provided, bytes, a, b, digits, c) }

  ghost predicate Spelt(provided: string, bytes: seq<Byte>, a: string, b: string, digits: string, c: string) {
    && Blank(a) && Blank(b) && Blank(c) && provided == a + "sha256=" + b + digits + c
    && Hex.Lowered(digits) == Hex.Encode(bytes)
  }

  /** Accepted exactly when the header spells the HMAC, and then the digest handed to the replay guard is the
      HMAC itself, however it was spelt. Each rejection exactly for its reason. */
  lemma {:induction false} VerifyExact(secret: seq<Byte>, payload: seq<Byte>, provided: string)
    requires Hashable(secret, payload)
    ensures var mac, verdict := Rfc2104.Hmac(secret, payload), VerifySignature(secret, payload, provided);
            && (Spells(provided, mac) <==> verdict == Ok(mac)) && (verdict.Ok? ==> verdict.digest == mac)
            && (verdict == Err(Mismatch) <==> exists bytes :: bytes != mac && Spells(provided, bytes))
            && (verdict == Err(MissingPrefix) <==> !HasPrefix(provided))
            && (verdict == Err(MalformedHex) <==> HasPrefix(provided) && forall bytes :: !Spells(provided, bytes))
  {
    var mac, read := Rfc2104.Hmac(secret, payload), Reading(provided);
    hide Rfc2104.Hmac, Reading, Trim, Spells, HasPrefix, VerifySignature;
    PrefixIff(provided);
    VerdictOfReading(secret, payload, provided);
    forall bytes ensures Spells(provided, bytes) <==> read == Some(bytes) { SpellsIff(provided, bytes); }
    if read.Some? { assert Spells(provided, read.value); }
  }

  /** The bytes the verifier reads off a header. */
  ghost function Reading(provided: string): Option<seq<Byte>> {
    if "sha256=" <= Trim(provided) then Hex.Decode(Trim(Trim(provided)[7..])) else None
  }

  ghost predicate Presents(provided: string, bytes: seq<Byte>) { Reading(provided) == Some(bytes) }

  lemma {:induction false} VerdictOfReading(secret: seq<Byte>, payload: seq<Byte>, provided: string)
    requires Hashable(secret, payload)
    ensures var mac, read := Rfc2104.Hmac(secret, payload), Reading(provided);
            VerifySignature(secret, payload, provided) ==
              if !("sha256=" <= Trim(provided)) then Err(MissingPrefix)
              else if read == None then Err(MalformedHex)
              else if read.value != mac then Err(Mismatch) else Ok(mac)
    ensures !("sha256=" <= Trim(provided)) ==> Reading(provided) == None
  {
    hide Rfc2104.Hmac, Trim, Hex.Decode;
  }

  lemma {:induction false} PrefixIff(provided: string)
    ensures HasPrefix(provided) <==> "sha256=" <= Trim(provided)
  {
    var a, c := TrimSplits(provided);
    hide Trim;
    if "sha256=" <= Trim(provided) {
      var rest := Trim(provided)[7..] + c;
      assert Trim(provided) == "sha256=" + Trim(provided)[7..];
      assert provided == a + "sha256=" + rest;
      assert Prefixed(provided, a, rest);
    }
    if a', rest :| Prefixed(provided, a', rest) { PrefixKept(a', rest); }
  }

  lemma {:induction false} PrefixKept(a: string, rest: string)
    requires Blank(a)
    ensures "sha256=" <= Trim(a + "sha256=" + rest)
  {
    var c := EndSplits(rest);
    var t := "sha256=" + TrimEnd(rest);
    hide TrimEnd;
    assert t[0] == 's' && (TrimEnd(rest) == "" ==> t[6] == '=');
    assert a + "sha256=" + rest == a + t + c;
    TrimOf(a, t, c);
  }

  lemma {:induction false} SpellsIff(provided: string, bytes: seq<Byte>)
    ensures Spells(provided, bytes) <==> Presents(provided, bytes)
  {
    if Presents(provided, bytes) { PresentedIsSpelt(provided, bytes); }
    if a, b, digits, c :| Spelt(provided, bytes, a, b, digits, c) { SpeltIsPresented(provided, bytes, a, b, digits, c); }
  }

  lemma {:induction false} PresentedIsSpelt(provided: string, bytes: seq<Byte>)
    requires Presents(provided, bytes)
    ensures Spells(provided, bytes)
  {
    var a, c := TrimSplits(provided);
    var rest := Trim(provided)[7..];
    var b, c' := TrimSplits(rest);
    var digits := Trim(rest);
    assert Trim(provided) == "sha256=" + rest && Hex.Decode(digits) == Some(bytes);
    BlankJoined(c', c);
    Regroup(a, "sha256=", b, digits, c', c);
    hide *;
    Hex.DecodeExact(digits, bytes);
    SpeltWith(provided, bytes, a, b, digits, c' + c);
  }

  lemma Regroup(a: string, p: string, b: string, d: string, c': string, c: string)
    ensures a + (p + (b + d + c')) + c == a + p + b + d + (c' + c)
  {
  }

  lemma {:induction false} SpeltWith(provided: string, bytes: seq<Byte>, a: string, b: string, digits: string, c: string)
    requires Blank(a) && Blank(b) && Blank(c) && provided == a + "sha256=" + b + digits + c
    requires Hex.Lowered(digits) == Hex.Encode(bytes)
    ensures Spells(provided, bytes)
  {
    hide Blank, Hex.Lowered, Hex.Encode;
    assert Spelt(provided, bytes, a, b, digits, c);
  }

  lemma BlankJoined(a: string, b: string)
    requires Blank(a) && Blank(b)
    ensures Blank(a + b)
  {
    hide IsWhitespace;
  }

  lemma {:induction false} SpeltIsPresented(provided: string, bytes: seq<Byte>, a: string, b: string, digits: string, c: string)
    requires Spelt(provided, bytes, a, b, digits, c)
    ensures Presents(provided, bytes)
  {
    DigitsTight(digits, bytes);
    Hex.DecodeExact(digits, bytes);
    EqualsSolid();
    HeaderTrimmed("sha256=", a, b, digits, c);
    assert "sha256=" <= Trim(provided) && Trim(Trim(provided)[7..]) == digits;
    hide Trim, Hex.Decode;
  }

  /** Trimming a header and then what follows its prefix leaves the digits. */
  lemma {:induction false} HeaderTrimmed(p: string, a: string, b: string, digits: string, c: string)
    requires p != "" && Tight(p) && Blank(a) && Blank(b) && Blank(c) && Tight(digits)
    ensures var header := Trim(a + p + b + digits + c); p <= header && Trim(header[|p|..]) == digits
  {
    hide Trim, IsWhitespace;
    if digits == "" {
      BlankJoined(b, c);
      assert a + p + b + digits + c == a + p + (b + c);
      TrimOf(a, p, b + c);
      assert p[|p|..] == "" + "" + "";
      TrimOf("", "", "");
    } else {
      var t := p + (b + digits);
      assert a + p + b + digits + c == a + t + c;
      assert t[0] == p[0] && t[|t| - 1] == digits[|digits| - 1];
      TrimOf(a, t, c);
      assert t[|p|..] == b + digits + "";
      TrimOf(b, digits, "");
    }
  }

  lemma EqualsSolid()
    ensures Tight("sha256=")
  {
  }

  lemma {:induction false} DigitsTight(digits: string, bytes: seq<Byte>)
    requires Hex.Lowered(digits) == Hex.Encode(bytes)
    ensures Tight(digits)
  {
    if digits != "" {
      Hex.EncodeIsLower(bytes);
      var s := Hex.Encode(bytes);
      assert s[0] in s && s[|s| - 1] in s && |s| == |digits|;
      hide Hex.Encode;
      assert Hex.LowerDigit(digits[0]) == s[0] && Hex.LowerDigit(digits[|digits| - 1]) == s[|s| - 1];
    }
  }

  lemma {:induction false} DigitsSolid(bytes: seq<Byte>)
    requires bytes != []
    ensures var s := Hex.Encode(bytes); s != "" && !IsWhitespace(s[0]) && !IsWhitespace(s[|s| - 1])
  {
    Hex.EncodeLength(bytes);
    Hex.EncodeIsLower(bytes);
    var s := Hex.Encode(bytes);
    assert s[0] in s && s[|s| - 1] in s;
  }

  /** What `compute_signature` produces, `verify_signature` accepts. */
  lemma VerifyComputed(secret: seq<Byte>, payload: seq<Byte>)
    requires Hashable(secret, payload)
    ensures VerifySignature(secret, payload, ComputeSignature(secret, payload)) == Ok(Rfc2104.Hmac(secret, payload))
  {
    hide Rfc2104.Hmac;
    var mac := Rfc2104.Hmac(secret, payload);
    assert mac != [] by { HmacLength(secret, payload); }
    var digits := Hex.Encode(mac);
    var header := SIGNATURE_PREFIX + digits;
    DigitsSolid(mac);
    assert header[0] == 's' && header[|header| - 1] == digits[|digits| - 1];
    Untrimmed(header);
    Untrimmed(digits);
    assert header[|SIGNATURE_PREFIX|..] == digits;
    Hex.RoundTrip(mac);
  }

  lemma HmacLength(secret: seq<Byte>, payload: seq<Byte>)
    requires Hashable(secret, payload)
    ensures |Rfc2104.Hmac(secret, payload)| == 32
  {
  }

  /** `hmacSign` without the browser's own cryptography: the header the dashboard sends is the one the
      server computes, and the server accepts it. */
  method HmacSign(secret: seq<Byte>, verb: seq<Byte>, target: seq<Byte>, timestamp: seq<Byte>, body: seq<Byte>)
    returns (header: string)
    requires Hashable(secret, CanonicalPayload(verb, target, timestamp, body))
    requires Exact(8 * |secret|) && Exact(8 * (|CanonicalPayload(verb, target, timestamp, body)| + 64))
    ensures header == ComputeSignature(secret, CanonicalPayload(verb, target, timestamp, body))
    ensures VerifySignature(secret, CanonicalPayload(verb, target, timestamp, body), header).Ok?
  {
    var message := verb + [NEWLINE] + target + [NEWLINE] + timestamp + [NEWLINE] + body;
    assert message == CanonicalPayload(verb, target, timestamp, body) && Hashable(secret, message);
    assert ComputeSignature(secret, message) == SIGNATURE_PREFIX + Hex.Encode(Rfc2104.Hmac(secret, message));
    hide *;
    var mac := Sha256Js.HmacSha256(secret, message);
    header := SIGNATURE_PREFIX + Hex.Encode(mac);
    VerifyComputed(secret, message);
  }
}
