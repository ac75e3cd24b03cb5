/** Token creation and verification of src/auth/JWT.cpp (RFC 7515 section 3.1). */
module Jwt {
  import opened Options
  import opened Octets
  import opened Base64
  import opened Split
  import Hmac
  import Base64Codec

  datatype Json =
    | Null
    | Bool(b: bool)
    | Int(n: int)
    | Float(x: real)
    | Str(s: Bytes)
    | Arr(items: seq<Json>)
    | Obj(members: map<Bytes, Json>)

  /**
   The JSON library: dump gives None where it throws, parse where the text is rejected. The cast of a
   floating-point number to long is undefined out of range, where it may be any function.
   */
  datatype Library = Library(dump: Json -> Option<Bytes>, parse: Bytes -> Option<Json>, farCast: real -> int)

  /** The one thing assumed of the library: parse undoes dump. */
  ghost predicate Lossless(lib: Library) {
    forall v: Json :: lib.dump(v).Some? ==> lib.parse(lib.dump(v).value) == Some(v)
  }

  const DOT: Byte := 46
  const EXP: Bytes := Ascii("exp")
  const ISS: Bytes := Ascii("iss")
  const IAT: Bytes := Ascii("iat")
  const HEADER: Json := Obj(map[Ascii("alg") := Str(Ascii("HS256")), Ascii("typ") := Str(Ascii("JWT"))])

  /** The value of a 64-bit signed integer after wrap-around. */
  function Long(x: int): (w: int)
    ensures -0x8000_0000_0000_0000 <= w < 0x8000_0000_0000_0000
    ensures -0x8000_0000_0000_0000 <= x < 0x8000_0000_0000_0000 ==> w == x
  {
    (x + 0x8000_0000_0000_0000) % 0x1_0000_0000_0000_0000 - 0x8000_0000_0000_0000
  }

  // ----- creating

  function Signature(input: Bytes, secret: Bytes): Bytes {
    UrlEncode(Hmac.HmacOf(secret, input))
  }

  /** The payload with the registered claims; a payload that is neither object nor null throws. */
  function Claims(payload: Json, issuer: Bytes, expirationSec: int, now: int): Option<Json> {
    var members := if payload.Obj? then payload.members else map[];
    if payload.Obj? || payload.Null?
    then Some(Obj(members[ISS := Str(issuer)][IAT := Int(now)][EXP := Int(Long(now + expirationSec))]))
    else None
  }

  function Created(lib: Library, payload: Json, secret: Bytes, issuer: Bytes, expirationSec: int, now: int)
    : Option<Bytes>
  {
    var claims := Claims(payload, issuer, expirationSec, now);
    if claims.None? || lib.dump(HEADER).None? || lib.dump(claims.value).None? then None
    else
      var input := UrlEncode(lib.dump(HEADER).value) + [DOT] + UrlEncode(lib.dump(claims.value).value);
      Some(input + [DOT] + Signature(input, secret))
  }

  // ----- verifying

  predicate Has(j: Json, key: Bytes) {
    j.Obj? && key in j.members
  }

  function Truncated(x: real): int {
    if x >= 0.0 then x.Floor else -(-x).Floor
  }

  /** get<long>: integers wrap around, floating-point numbers are cut off, anything else throws. */
  function AsLong(lib: Library, value: Json): Option<int> {
    match value
    case Int(n) => Some(Long(n))
    case Float(x) => Some(if Long(Truncated(x)) == Truncated(x) then Truncated(x) else lib.farCast(x))
    case _ => None
  }

  /** The exp claim, when there is one, is a number that is not before now. */
  predicate Timely(lib: Library, payload: Json, now: int) {
    Has(payload, EXP) ==>
      var exp := AsLong(lib, payload.members[EXP]);
      exp.Some? && exp.value >= now
  }

  /** The iss claim, when there is one, is the expected issuer. */
  predicate IssuedBy(payload: Json, issuer: Bytes) {
    Has(payload, ISS) ==> payload.members[ISS] == Str(issuer)
  }

  function Verified(lib: Library, token: Bytes, secret: Bytes, issuer: Bytes, now: int): Option<Json> {
    var parts := Parts(token, DOT);
    if |parts| != 3 then None
    else if parts[2] != Signature(parts[0] + [DOT] + parts[1], secret) then None
    else
      var payload := lib.parse(UrlDecode(parts[1]));
      if payload.None? || !Timely(lib, payload.value, now) || !IssuedBy(payload.value, issuer) then None
      else payload
  }

  // ----- the methods

  method CreateSignature(signingInput: Bytes, secret: Bytes) returns (signature: Bytes)
    ensures signature == Signature(signingInput, secret)
  {
    var hmac := Hmac.HmacSha256(secret, signingInput);
    signature := Base64Codec.Base64UrlEncode(hmac);
  }

  method Create(lib: Library, payload: Json, secret: Bytes, issuer: Bytes, expirationSec: int, now: int)
    returns (token: Option<Bytes>)
    ensures token == Created(lib, payload, secret, issuer, expirationSec, now)
  {
    hide Signature;
    var claims := payload;
    if claims.Null? {
      claims := Obj(map[]);
    }
    if !claims.Obj? {
      return None;
    }
    claims := Obj(claims.members[ISS := Str(issuer)]);
    claims := Obj(claims.members[IAT := Int(now)]);
    claims := Obj(claims.members[EXP := Int(Long(now + expirationSec))]);
    var header, body := lib.dump(HEADER), lib.dump(claims);
    if header.None? || body.None? {
      return None;
    }
    var headerEncoded := Base64Codec.Base64UrlEncode(header.value);
    var payloadEncoded := Base64Codec.Base64UrlEncode(body.value);
    var signingInput := headerEncoded + [DOT] + payloadEncoded;
    var signature := CreateSignature(signingInput, secret);
    token := Some(signingInput + [DOT] + signature);
  }

  method Verify(lib: Library, token: Bytes, secret: Bytes, issuer: Bytes, now: int) returns (payload: Option<Json>)
    ensures payload == Verified(lib, token, secret, issuer, now)
  {
    hide Signature, UrlDecode, Parts;
    var parts, current := SplitAt(token, DOT);
    parts := parts + [current];
    if |parts| != 3 {
      return None;
    }
    var signingInput := parts[0] + [DOT] + parts[1];
    var expectedSig := CreateSignature(signingInput, secret);
    if parts[2] != expectedSig {
      return None;
    }
    var decoded := Base64Codec.Base64UrlDecode(parts[1]);
    payload := lib.parse(decoded);
    if payload.None? {
      return None;
    }
    var p := payload.value;
    if Has(p, EXP) {
      var exp := AsLong(lib, p.members[EXP]);
      if exp.None? || exp.value < now {
        return None;
      }
    }
    if Has(p, ISS) && (!p.members[ISS].Str? || p.members[ISS].s != issuer) {
      return None;
    }
  }

  // ----- what verification accepts

  lemma UrlTextHasNoDot(data: Bytes)
    ensures Free(UrlEncode(data), DOT)
  {
    EncodedIsCanonical(data);
  }

  lemma ThreeParts(a: Bytes, b: Bytes, c: Bytes)
    requires Free(a, DOT) && Free(b, DOT) && Free(c, DOT)
    ensures Parts(a + [DOT] + b + [DOT] + c, DOT) == [a, b, c]
  {
    PartsOfFree(a, DOT);
    PartsOfFree(b, DOT);
    PartsOfFree(c, DOT);
    PartsOfConcat(a, b, DOT);
    PartsOfConcat(a + [DOT] + b, c, DOT);
  }

  /** A signed token with the two given parts. */
  function Signed(a: Bytes, b: Bytes, secret: Bytes): Bytes {
    a + [DOT] + b + [DOT] + Signature(a + [DOT] + b, secret)
  }

  lemma SignedParts(a: Bytes, b: Bytes, secret: Bytes)
    requires Free(a, DOT) && Free(b, DOT)
    ensures Parts(Signed(a, b, secret), DOT) == [a, b, Signature(a + [DOT] + b, secret)]
  {
    UrlTextHasNoDot(Hmac.HmacOf(secret, a + [DOT] + b));
    ThreeParts(a, b, Signature(a + [DOT] + b, secret));
  }

  /** The accepted strings are the signed pairs whose second part decodes to an acceptable payload. */
  lemma AcceptsExactly(lib: Library, token: Bytes, secret: Bytes, issuer: Bytes, now: int, p: Json)
    ensures Verified(lib, token, secret, issuer, now) == Some(p) <==>
            (Timely(lib, p, now) && IssuedBy(p, issuer) &&
             exists a: Bytes, b: Bytes ::
               Free(a, DOT) && Free(b, DOT) && token == Signed(a, b, secret) && lib.parse(UrlDecode(b)) == Some(p))
  {
    hide Signature, UrlDecode;
    if Verified(lib, token, secret, issuer, now) == Some(p) {
      var parts := Parts(token, DOT);
      PartsAreFree(token, DOT);
      JoinOfParts(token, DOT);
      ThreeJoined(parts);
      assert token == Signed(parts[0], parts[1], secret);
    }
    if a: Bytes, b: Bytes :| Free(a, DOT) && Free(b, DOT) && token == Signed(a, b, secret) &&
                             lib.parse(UrlDecode(b)) == Some(p) {
      SignedParts(a, b, secret);
    }
  }

  lemma ThreeJoined(p: seq<Bytes>)
    requires |p| == 3
    ensures Join(p, DOT) == p[0] + [DOT] + p[1] + [DOT] + p[2]
  {
    var q := p[..2];
    assert q[..1][0] == p[0] && Join(q, DOT) == p[0] + [DOT] + p[1];
  }

  /** The claims are the payload's members with the three registered ones set. */
  lemma ClaimsMeaning(payload: Json, issuer: Bytes, expirationSec: int, now: int, key: Bytes)
    requires payload.Obj?
    requires -0x8000_0000_0000_0000 <= now + expirationSec < 0x8000_0000_0000_0000
    ensures var claims := Claims(payload, issuer, expirationSec, now);
            && claims.Some? && claims.value.Obj?
            && (key in claims.value.members <==> key in payload.members || key in {ISS, IAT, EXP})
            && (key in claims.value.members ==>
                  claims.value.members[key] ==
                  (if key == ISS then Str(issuer) else if key == IAT then Int(now)
                   else if key == EXP then Int(now + expirationSec) else payload.members[key]))
  {
    DifferentKeys();
  }

  // ----- the conditions written out

  /** Cutting off a fraction passes an integer bound exactly when the number itself does, or nearly so below one. */
  lemma TruncatedAtLeast(x: real, n: int)
    ensures Truncated(x) >= n <==> if n > 0 then x >= n as real else x > n as real - 1.0
  {
  }

  lemma InRange(x: real)
    ensures Long(Truncated(x)) == Truncated(x) <==>
            -9223372036854775809.0 < x < 9223372036854775808.0
  {
    TruncatedAtLeast(x, -0x8000_0000_0000_0000);
    TruncatedAtLeast(x, 0x8000_0000_0000_0000);
    hide Truncated;
  }

  /** The value of an exp claim is not before now. */
  predicate NotBefore(lib: Library, exp: Json, now: int) {
    match exp
    case Int(n) => (n + 0x8000_0000_0000_0000) % 0x1_0000_0000_0000_0000 - 0x8000_0000_0000_0000 >= now
    case Float(x) =>
      if !(-9223372036854775809.0 < x < 9223372036854775808.0) then lib.farCast(x) >= now
      else if now > 0 then x >= now as real
      else x > now as real - 1.0
    case _ => false
  }

  lemma TimelyMeans(lib: Library, p: Json, now: int)
    ensures Timely(lib, p, now) <==>
            (p.Obj? && [101, 120, 112] in p.members ==> NotBefore(lib, p.members[[101, 120, 112]], now))
  {
    assert EXP == [101, 120, 112];
    if Has(p, EXP) && p.members[EXP].Float? {
      InRange(p.members[EXP].x);
      TruncatedAtLeast(p.members[EXP].x, now);
      hide Truncated, Long;
    }
  }

  lemma IssuedMeans(p: Json, issuer: Bytes)
    ensures IssuedBy(p, issuer) <==>
            (p.Obj? && [105, 115, 115] in p.members ==> p.members[[105, 115, 115]] == Str(issuer))
  {
    assert ISS == [105, 115, 115];
  }

  /**
   A token is accepted exactly when it is two dot-free texts and the encoded HMAC of these, the second
   decodes to the payload, and the claims "exp" and "iss", where there are any, are a number that is
   not before now and the issuer.
   */
  lemma AcceptedWrittenOut(lib: Library, token: Bytes, secret: Bytes, issuer: Bytes, now: int, p: Json)
    ensures Verified(lib, token, secret, issuer, now) == Some(p) <==>
            && (exists a: Bytes, b: Bytes ::
                  46 !in a && 46 !in b && lib.parse(UrlDecode(b)) == Some(p) &&
                  token == a + [46] + b + [46] + UrlEncode(Hmac.HmacOf(secret, a + [46] + b)))
            && (p.Obj? && [101, 120, 112] in p.members ==> NotBefore(lib, p.members[[101, 120, 112]], now))
            && (p.Obj? && [105, 115, 115] in p.members ==> p.members[[105, 115, 115]] == Str(issuer))
  {
    AcceptsExactly(lib, token, secret, issuer, now, p);
    TimelyMeans(lib, p, now);
    IssuedMeans(p, issuer);
    hide Verified, Timely, IssuedBy, NotBefore, UrlDecode, UrlEncode;
    if a: Bytes, b: Bytes :| Free(a, DOT) && Free(b, DOT) && token == Signed(a, b, secret) &&
                             lib.parse(UrlDecode(b)) == Some(p) {
      assert 46 !in a && 46 !in b && token == a + [46] + b + [46] + UrlEncode(Hmac.HmacOf(secret, a + [46] + b));
    }
    if a: Bytes, b: Bytes :| 46 !in a && 46 !in b && lib.parse(UrlDecode(b)) == Some(p) &&
                             token == a + [46] + b + [46] + UrlEncode(Hmac.HmacOf(secret, a + [46] + b)) {
      assert Free(a, DOT) && Free(b, DOT) && token == Signed(a, b, secret);
    }
  }

  /** No payload counts as an empty object; any other value that is no object throws. */
  lemma OtherPayloads(lib: Library, payload: Json, secret: Bytes, issuer: Bytes, expirationSec: int, now: int)
    ensures payload.Null? ==> Created(lib, payload, secret, issuer, expirationSec, now) ==
                              Created(lib, Obj(map[]), secret, issuer, expirationSec, now)
    ensures !payload.Null? && !payload.Obj? ==> Created(lib, payload, secret, issuer, expirationSec, now).None?
  {
    hide UrlEncode, Signature;
  }

  /** A token made for one issuer is accepted for no other, at any time. */
  lemma OtherIssuerRejected(lib: Library, payload: Json, secret: Bytes, issuer: Bytes, expirationSec: int, now: int,
          other: Bytes, later: int)
    requires Lossless(lib) && other != issuer
    requires -0x8000_0000_0000_0000 <= now + expirationSec < 0x8000_0000_0000_0000
    requires Created(lib, payload, secret, issuer, expirationSec, now).Some?
    ensures Verified(lib, Created(lib, payload, secret, issuer, expirationSec, now).value, secret, other, later).None?
  {
    hide Signature, UrlDecode, UrlEncode;
    var claims := Claims(payload, issuer, expirationSec, now).value;
    var a, b := UrlEncode(lib.dump(HEADER).value), UrlEncode(lib.dump(claims).value);
    UrlTextHasNoDot(lib.dump(HEADER).value);
    UrlTextHasNoDot(lib.dump(claims).value);
    SignedParts(a, b, secret);
    RoundTrip(lib.dump(claims).value);
    DifferentKeys();
    assert claims.members[ISS] == Str(issuer);
  }

  /** The text of a created token: header, claims and code, each in the URL alphabet. */
  lemma CreatedWrittenOut(lib: Library, payload: Json, secret: Bytes, issuer: Bytes, expirationSec: int, now: int,
          token: Bytes)
    requires -0x8000_0000_0000_0000 <= now + expirationSec < 0x8000_0000_0000_0000
    requires payload.Obj? && Created(lib, payload, secret, issuer, expirationSec, now) == Some(token)
    ensures var header := lib.dump(Obj(map[Ascii("alg") := Str(Ascii("HS256")), Ascii("typ") := Str(Ascii("JWT"))]));
            var claims := lib.dump(Obj(payload.members[Ascii("iss") := Str(issuer)][Ascii("iat") := Int(now)]
                                                       [Ascii("exp") := Int(now + expirationSec)]));
            header.Some? && claims.Some? &&
            var input := UrlEncode(header.value) + [46] + UrlEncode(claims.value);
            token == input + [46] + UrlEncode(Hmac.HmacOf(secret, input))
  {
    hide UrlEncode, Hmac.HmacOf, Ascii;
    var claims := Claims(payload, issuer, expirationSec, now).value;
    assert claims == Obj(payload.members[Ascii("iss") := Str(issuer)][Ascii("iat") := Int(now)]
                                        [Ascii("exp") := Int(now + expirationSec)]);
    hide Claims;
  }

  /** The assumption on the library can be met together with dumping any two values. */
  lemma LosslessIsPossible(v: Json, w: Json) returns (lib: Library)
    ensures Lossless(lib) && lib.dump(v).Some? && lib.dump(w).Some?
  {
    lib := Library((x: Json) => if x == v then Some([0]) else if x == w then Some([1]) else None,
                   (b: Bytes) => if b == [0] then Some(v) else if b == [1] then Some(w) else None,
                   (x: real) => 0);
  }

  /** Created tokens verify to their claims up to and including the instant of expiry, and never after. */
  lemma CreatedVerifies(lib: Library, payload: Json, secret: Bytes, issuer: Bytes, expirationSec: int,
          now: int, later: int)
    requires Lossless(lib)
    requires -0x8000_0000_0000_0000 <= now + expirationSec < 0x8000_0000_0000_0000
    requires Created(lib, payload, secret, issuer, expirationSec, now).Some?
    ensures Verified(lib, Created(lib, payload, secret, issuer, expirationSec, now).value, secret, issuer, later) ==
            if later <= now + expirationSec then Claims(payload, issuer, expirationSec, now) else None
  {
    hide Signature, UrlDecode, UrlEncode;
    var claims := Claims(payload, issuer, expirationSec, now).value;
    var a, b := UrlEncode(lib.dump(HEADER).value), UrlEncode(lib.dump(claims).value);
    UrlTextHasNoDot(lib.dump(HEADER).value);
    UrlTextHasNoDot(lib.dump(claims).value);
    SignedParts(a, b, secret);
    RoundTrip(lib.dump(claims).value);
    DifferentKeys();
    assert claims.members[EXP] == Int(now + expirationSec) && claims.members[ISS] == Str(issuer);
  }

  /** What is accepted at one instant was accepted, with the same payload, at every earlier one. */
  lemma RejectionPersists(lib: Library, token: Bytes, secret: Bytes, issuer: Bytes, now: int, later: int)
    requires now <= later
    requires Verified(lib, token, secret, issuer, now).None?
    ensures Verified(lib, token, secret, issuer, later).None?
  {
    hide Signature, UrlDecode, Parts;
  }

  lemma DifferentKeys()
    ensures EXP != ISS && EXP != IAT && ISS != IAT
  {
    assert EXP[0] == 101 && ISS[0] == 105 && IAT[0] == 105 && ISS[1] == 115 && IAT[1] == 97;
  }
}
