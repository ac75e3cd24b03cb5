/** The payment payload text of src/qr_sim/QRSimulator.cpp. */
module QRPayload {
  import opened Options
  import opened Octets
  import opened Radix
  import opened Split
  import opened Decimal
  import opened Machine
  import opened Spaces

  datatype Payload = Payload(merchantId: Bytes, merchantName: Bytes, reference: Bytes, cents: Int64)

  const COLON: Byte := 58
  const PREFIX: Bytes := Ascii("FREEBUFFQR:")

  // ----- std::stoll

  function SkipSpaces(t: Bytes): Bytes { DropWhile(t, (c: Byte) => IsSpaceCode(c as int)) }

  /** The leading digits. */
  function DigitRun(t: Bytes): (d: Bytes)
    ensures d <= t && forall i :: 0 <= i < |d| ==> IsDigit(d[i])
  {
    if t == [] || !IsDigit(t[0]) then [] else [t[0]] + DigitRun(t[1..])
  }

  /** Spaces, a sign, digits; what follows is ignored. None where stoll throws. */
  function ParseLong(text: Bytes): Option<Int64> {
    var t := SkipSpaces(text);
    var negative := t != [] && t[0] == MINUS;
    var digits := DigitRun(if t != [] && (t[0] == MINUS || t[0] == 43) then t[1..] else t);
    var magnitude: int := Value(10, TextDigits(digits));
    var n: int := if negative then -magnitude else magnitude;
    if digits == [] || n < -0x8000_0000_0000_0000 || n >= 0x8000_0000_0000_0000 then None else Some(n)
  }

  lemma {:induction false} DigitRunOfDigits(d: Bytes)
    requires forall i :: 0 <= i < |d| ==> IsDigit(d[i])
    ensures DigitRun(d) == d
  {
    if d != [] {
      DigitRunOfDigits(d[1..]);
    }
  }

  lemma DigitsRead(n: nat)
    ensures var t := DigitText(DigitsOf(n));
            t != [] && IsDigit(t[0]) && DigitRun(t) == t && Value(10, TextDigits(t)) == n
  {
    TextOfDigits(DigitsOf(n));
    DigitRunOfDigits(DigitText(DigitsOf(n)));
  }

  /** Every amount, the most negative included, is read back as it was written. */
  lemma LongRoundTrip(n: Int64)
    ensures ParseLong(Text(n)) == Some(n)
  {
    hide DigitText, DigitsOf, DigitRun, Value, TextDigits;
    var t, k: int := Text(n), n;
    if k < 0 {
      DigitsRead(-k);
      assert t[1..] == DigitText(DigitsOf(-k));
      assert SkipSpaces(t) == t;
    } else {
      DigitsRead(k);
      assert SkipSpaces(t) == t;
    }
  }

  // ----- encoding and decoding

  function Encoded(p: Payload): Bytes {
    PREFIX + p.merchantId + [COLON] + p.merchantName + [COLON] + p.reference + [COLON] + Text(p.cents)
  }

  /** The parts of decode: an empty last part is dropped. */
  function Fields(t: Bytes): seq<Bytes> {
    var p := Parts(t, COLON);
    if p[|p| - 1] == [] then p[..|p| - 1] else p
  }

  function Decoded(data: Bytes): Option<Payload> {
    if !(PREFIX <= data) then None
    else
      var parts := Fields(data[|PREFIX|..]);
      if |parts| < 4 then None
      else
        var cents := ParseLong(parts[3]);
        if cents.None? then None else Some(Payload(parts[0], parts[1], parts[2], cents.value))
  }

  method Encode(p: Payload) returns (data: Bytes)
    ensures data == Encoded(p)
  {
    data := PREFIX;
    data := data + p.merchantId + [COLON] + p.merchantName;
    data := data + [COLON] + p.reference + [COLON] + Text(p.cents);
  }

  method Decode(data: Bytes) returns (payload: Option<Payload>)
    ensures payload == Decoded(data)
  {
    hide Parts, ParseLong;
    if !(PREFIX <= data) {
      return None;
    }
    var rest := data[|PREFIX|..];
    var parts, current := SplitAt(rest, COLON);
    assert Parts(rest, COLON)[..|parts|] == parts;
    if current != [] {
      parts := parts + [current];
    }
    if |parts| < 4 {
      return None;
    }
    var cents := ParseLong(parts[3]);
    if cents.None? {
      return None;
    }
    payload := Some(Payload(parts[0], parts[1], parts[2], cents.value));
  }

  // ----- when decoding undoes encoding

  predicate ColonFree(p: Payload) {
    Free(p.merchantId, COLON) && Free(p.merchantName, COLON) && Free(p.reference, COLON)
  }

  lemma AmountIsColonFree(n: Int64)
    ensures Text(n) != [] && Free(Text(n), COLON)
  {
  }

  lemma FourParts(a: Bytes, b: Bytes, c: Bytes, d: Bytes)
    requires Free(a, COLON) && Free(b, COLON) && Free(c, COLON) && Free(d, COLON)
    ensures Parts(a + [COLON] + b + [COLON] + c + [COLON] + d, COLON) == [a, b, c, d]
  {
    hide Parts;
    PartsOfFree(a, COLON);
    PartsOfFree(b, COLON);
    PartsOfFree(c, COLON);
    PartsOfFree(d, COLON);
    PartsOfConcat(a, b, COLON);
    PartsOfConcat(a + [COLON] + b, c, COLON);
    PartsOfConcat(a + [COLON] + b + [COLON] + c, d, COLON);
  }

  lemma LastKept(t: Bytes, parts: seq<Bytes>)
    requires Parts(t, COLON) == parts && parts != [] && parts[|parts| - 1] != []
    ensures Fields(t) == parts
  {
    hide Parts;
  }

  lemma FourFields(a: Bytes, b: Bytes, c: Bytes, d: Bytes)
    requires Free(a, COLON) && Free(b, COLON) && Free(c, COLON) && Free(d, COLON) && d != []
    ensures Fields(a + [COLON] + b + [COLON] + c + [COLON] + d) == [a, b, c, d]
  {
    FourParts(a, b, c, d);
    LastKept(a + [COLON] + b + [COLON] + c + [COLON] + d, [a, b, c, d]);
  }

  /** Whatever is decoded has no colon in its three texts. */
  lemma DecodedIsColonFree(data: Bytes)
    ensures Decoded(data).Some? ==> ColonFree(Decoded(data).value)
  {
    hide Parts;
    if PREFIX <= data {
      PartsAreFree(data[|PREFIX|..], COLON);
    }
  }

  /** Decoding gives the payload back exactly when none of its texts has a colon. */
  lemma RoundTripExactly(p: Payload)
    ensures Decoded(Encoded(p)) == Some(p) <==> ColonFree(p)
  {
    hide Fields, ParseLong, Text;
    DecodedIsColonFree(Encoded(p));
    if ColonFree(p) {
      AmountIsColonFree(p.cents);
      FourFields(p.merchantId, p.merchantName, p.reference, Text(p.cents));
      var body := p.merchantId + [COLON] + p.merchantName + [COLON] + p.reference + [COLON] + Text(p.cents);
      assert Encoded(p) == PREFIX + body;
      assert Encoded(p)[|PREFIX|..] == body;
      LongRoundTrip(p.cents);
    }
  }

  lemma FifthFieldIgnored(a: Bytes, b: Bytes, c: Bytes, d: Bytes, e: Bytes)
    requires Free(a, COLON) && Free(b, COLON) && Free(c, COLON) && Free(d, COLON) && Free(e, COLON) && e != []
    ensures Fields(a + [COLON] + b + [COLON] + c + [COLON] + d + [COLON] + e) == [a, b, c, d, e]
  {
    hide Fields, Parts;
    var front := a + [COLON] + b + [COLON] + c + [COLON] + d;
    FourParts(a, b, c, d);
    PartsOfFree(e, COLON);
    PartsOfConcat(front, e, COLON);
    LastKept(front + [COLON] + e, [a, b, c, d, e]);
  }

  /** A colon in the merchant id moves the fields: a reference that is a number is paid as the amount. */
  lemma ColonMovesFields(a: Bytes, b: Bytes, name: Bytes, amount: Int64, cents: Int64)
    requires Free(a, COLON) && Free(b, COLON) && Free(name, COLON)
    ensures Decoded(Encoded(Payload(a + [COLON] + b, name, Text(amount), cents))) == Some(Payload(a, b, name, amount))
  {
    hide Fields, ParseLong, Text;
    AmountIsColonFree(amount);
    AmountIsColonFree(cents);
    FifthFieldIgnored(a, b, name, Text(amount), Text(cents));
    var body := a + [COLON] + b + [COLON] + name + [COLON] + Text(amount) + [COLON] + Text(cents);
    var data := Encoded(Payload(a + [COLON] + b, name, Text(amount), cents));
    assert data == PREFIX + body;
    assert data[|PREFIX|..] == body;
    LongRoundTrip(amount);
  }

  /** The concrete failure: merchant "a:b", reference "7" and amount 5 are read as an amount of 7 for "b". */
  lemma ColonExample()
    ensures var p := Payload(Ascii("a:b"), Ascii("c"), Text(7), 5);
            Decoded(Encoded(p)) == Some(Payload(Ascii("a"), Ascii("b"), Ascii("c"), 7))
  {
    assert Ascii("a:b") == Ascii("a") + [COLON] + Ascii("b");
    ColonMovesFields(Ascii("a"), Ascii("b"), Ascii("c"), 7, 5);
  }

  // ----- which texts are payloads

  /** The fields make up the text, and the first four the payload. */
  predicate Spells(parts: seq<Bytes>, data: Bytes, p: Payload) {
    && |parts| >= 4 && (forall i :: 0 <= i < |parts| ==> Free(parts[i], 58))
    && data == Ascii("FREEBUFFQR:") + Join(parts, 58)
    && parts[0] == p.merchantId && parts[1] == p.merchantName && parts[2] == p.reference
    && ParseLong(parts[3]) == Some(p.cents)
  }

  /**
   A text is a payload exactly when it is the prefix and at least four fields between colons, of which
   the fourth is read as the amount; further fields do not matter.
   */
  lemma DecodedExactly(data: Bytes, p: Payload)
    ensures Decoded(data) == Some(p) <==> exists parts: seq<Bytes> :: Spells(parts, data, p)
  {
    hide Parts, ParseLong, Ascii, Join, Fields;
    if Decoded(data) == Some(p) {
      var rest := data[|PREFIX|..];
      FieldsOf(rest);
      PartsAreFree(rest, COLON);
      JoinOfParts(rest, COLON);
      assert Spells(Parts(rest, COLON), data, p);
    }
    if parts: seq<Bytes> :| Spells(parts, data, p) {
      assert data[|PREFIX|..] == Join(parts, 58);
      PartsOfJoin(parts, 58);
      FieldsOf(Join(parts, 58));
      NothingParsed();
    }
  }

  lemma FieldsOf(t: Bytes)
    ensures var p, f := Parts(t, COLON), Fields(t);
            f == p || (p[|p| - 1] == [] && f == p[..|p| - 1])
    ensures Parts(t, COLON)[|Parts(t, COLON)| - 1] != [] ==> Fields(t) == Parts(t, COLON)
  {
    hide Parts;
  }

  lemma NothingParsed()
    ensures ParseLong([]).None?
  {
  }

  predicate AllDigits(t: Bytes) {
    forall i :: 0 <= i < |t| ==> 48 <= t[i] <= 57
  }

  lemma {:induction false} SpacesSkipped(spaces: Bytes, rest: Bytes)
    requires forall i :: 0 <= i < |spaces| ==> spaces[i] in {9, 10, 11, 12, 13, 32}
    requires rest != [] && rest[0] !in {9, 10, 11, 12, 13, 32}
    ensures SkipSpaces(spaces + rest) == rest
  {
    if spaces == [] {
      assert spaces + rest == rest;
    } else {
      assert (spaces + rest)[1..] == spaces[1..] + rest;
      SpacesSkipped(spaces[1..], rest);
    }
  }

  lemma {:induction false} RunOf(digits: Bytes, rest: Bytes)
    requires AllDigits(digits) && (rest == [] || !(48 <= rest[0] <= 57))
    ensures DigitRun(digits + rest) == digits
  {
    if digits == [] {
      assert digits + rest == rest;
    } else {
      assert (digits + rest)[1..] == digits[1..] + rest;
      RunOf(digits[1..], rest);
    }
  }

  /** The amount: white space, a sign or none, and digits are read, what follows is not; no digit or too much throws. */
  lemma AmountRead(spaces: Bytes, sign: Bytes, digits: Bytes, rest: Bytes)
    requires forall i :: 0 <= i < |spaces| ==> spaces[i] in {9, 10, 11, 12, 13, 32}
    requires sign in {[], [43], [45]} && AllDigits(digits) && (rest == [] || !(48 <= rest[0] <= 57))
    requires sign + digits != []
    ensures var n: int := (if sign == [45] then -1 else 1) * Value(10, TextDigits(digits));
            ParseLong(spaces + (sign + (digits + rest))) ==
            if digits != [] && -0x8000_0000_0000_0000 <= n < 0x8000_0000_0000_0000 then Some(n) else None
  {
    hide Value, TextDigits, DigitRun, SkipSpaces;
    var t := sign + (digits + rest);
    RunOf(digits, rest);
    if sign == [] {
      assert t == digits + rest && t[0] == digits[0];
      SpacesSkipped(spaces, t);
    } else {
      assert t[0] == sign[0] && t[1..] == digits + rest;
      SpacesSkipped(spaces, t);
    }
  }

  /** An amount is written with a minus sign if negative, never with a plus or leading zeros. */
  lemma AmountWritten(n: Int64)
    ensures var t := Text(n);
            var digits := if n < 0 then t[1..] else t;
            && (n < 0 ==> t != [] && t[0] == 45)
            && digits != [] && AllDigits(digits)
            && (var k: int := n; Value(10, TextDigits(digits)) == if k < 0 then -k else k)
            && (n != 0 ==> digits[0] != 48)
  {
    var k: int := n;
    var m: nat := if k < 0 then -k else k;
    NoLeadingZero(m);
    TextOfDigits(DigitsOf(m));
    hide Value;
    assert k < 0 ==> Text(n)[1..] == DigitText(DigitsOf(m));
  }

  /** The text of one payload. */
  lemma EncodedExample()
    ensures Encoded(Payload(Ascii("m"), Ascii("n"), Ascii("r"), -5)) == Ascii("FREEBUFFQR:m:n:r:-5")
  {
    assert DigitsOf(5) == [5];
    assert Text(-5) == Ascii("-5");
  }
}
