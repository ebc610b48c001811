/**
 64-bit integers end to end: the decimal parsers of the C++ and JavaScript sides, and the little-endian payloads between
 them. The C library's strtoll and strtoull are taken at their word: the value, or a range error.
 */
module Integers {
  import opened Common
  import opened Arithmetic
  import opened Utf16
  import opened Decimal

  /** canonical_decimal_syntax. "-0" passes; the callers that care refuse it. */
  method CanonicalDecimalSyntax(text: Text, allowNegative: bool) returns (ok: bool)
    ensures ok <==> Canonical(text) || (allowNegative && SignedSyntax(text))
  {
    if text == [] {
      return false;
    }
    var cursor := 0;
    if text[0] == MINUS {
      if !allowNegative {
        return false;
      }
      cursor := 1;
      if |text| == 1 {
        return false;
      }
      assert text[1..][0] == text[1];
    }
    ghost var digits := text[cursor..];
    assert text[0] != MINUS ==> digits == text;
    if text[cursor] == ZERO {
      return cursor + 1 == |text|;
    }
    if text[cursor] < 49 || text[cursor] > 57 {
      assert !IsDigit(digits[0]);
      return false;
    }
    ghost var first := cursor;
    cursor := cursor + 1;
    while cursor < |text|
      invariant first < cursor <= |text|
      invariant forall k :: first <= k < cursor ==> IsDigit(text[k])
    {
      if text[cursor] < 48 || text[cursor] > 57 {
        assert !IsDigit(digits[cursor - first]);
        return false;
      }
      cursor := cursor + 1;
    }
    assert Canonical(digits);
    return true;
  }

  lemma ZeroText()
    ensures Canonical([ZERO]) && ValueOf([ZERO]) == 0 && Print(0) == [ZERO]
  {
    PrintIsCanonical(0);
  }

  /** parse_i64_decimal of the adapter: exactly the canonical texts of the 64-bit integers. */
  method ParseI64Decimal(text: Text) returns (value: Option<int>)
    ensures value.Some? <==> CanonicalSigned(text) && InInt64(IntOf(text))
    ensures value.Some? ==> value.value == IntOf(text)
  {
    var syntax := CanonicalDecimalSyntax(text, true);
    if !syntax || text == [MINUS, ZERO] {
      return None;
    }
    var n := IntOf(text);
    return if InInt64(n) then Some(n) else None;
  }

  method ParseRevisionDecimal(text: Text) returns (value: Option<nat>)
    ensures value.Some? <==> Canonical(text) && ValueOf(text) <= REVISION_MAX
    ensures value.Some? ==> value.value == ValueOf(text)
  {
    var syntax := CanonicalDecimalSyntax(text, false);
    if !syntax {
      return None;
    }
    var n := ValueOf(text);
    return if n <= REVISION_MAX then Some(n) else None;
  }

  method ParseU32Decimal(text: Text) returns (value: Option<nat>)
    ensures value.Some? <==> Canonical(text) && ValueOf(text) <= UINT32_MAX
    ensures value.Some? ==> value.value == ValueOf(text)
  {
    var syntax := CanonicalDecimalSyntax(text, false);
    if !syntax {
      return None;
    }
    var n := ValueOf(text);
    return if n <= UINT32_MAX then Some(n) else None;
  }

  lemma {:induction false} PrefixValue(t: Text, i: nat)
    requires Digits(t) && i <= |t|
    ensures ValueOf(t[..i]) <= ValueOf(t)
    decreases |t| - i
  {
    if i < |t| {
      assert t[..i + 1][..i] == t[..i];
      PrefixValue(t, i + 1);
    } else {
      assert t[..i] == t;
    }
  }

  /**
   parse_revision_text: accepts exactly the canonical decimals up to 2^63 - 1. The guard keeps every intermediate
   value in the revision domain, so the 64-bit arithmetic cannot wrap.
   */
  method ParseRevisionText(text: Text) returns (value: Option<nat>)
    ensures value.Some? <==> Canonical(text) && ValueOf(text) <= REVISION_MAX
    ensures value.Some? ==> value.value == ValueOf(text)
  {
    if text == [] {
      return None;
    }
    if text[0] == ZERO && |text| > 1 {
      return None;
    }
    var sum: nat := 0;
    var i := 0;
    while i < |text|
      invariant i <= |text| && Digits(text[..i])
      invariant sum == ValueOf(text[..i]) <= REVISION_MAX
    {
      if text[i] < 48 || text[i] > 57 {
        return None;
      }
      var digit: nat := text[i] - 48;
      assert text[..i + 1][..i] == text[..i];
      if sum > (REVISION_MAX - digit) / 10 {
        assert ValueOf(text[..i + 1]) > REVISION_MAX;
        if Digits(text) {
          PrefixValue(text, i + 1);
        }
        return None;
      }
      sum := sum * 10 + digit;
      i := i + 1;
    }
    assert text[..|text|] == text;
    value := Some(sum);
  }

  /** canonical_int64 of the ORM bridge, written on its own, accepts the same texts as the adapter's parser. */
  method BridgeCanonicalInt64(text: Text) returns (value: Option<int>)
    ensures value.Some? <==> CanonicalSigned(text) && InInt64(IntOf(text))
    ensures value.Some? ==> value.value == IntOf(text)
  {
    if text == [] {
      return None;
    }
    var cursor := 0;
    if text[0] == MINUS {
      cursor := 1;
      if |text| == 1 {
        return None;
      }
      assert text[1..][0] == text[1];
    }
    ghost var digits := text[cursor..];
    assert text[0] != MINUS ==> digits == text;
    if text[cursor] == ZERO {
      if cursor + 1 < |text| {
        assert |digits| > 1;
        return None;
      }
      if cursor != 0 {
        assert text == [MINUS, ZERO];
        return None;
      }
      ZeroText();
      assert text == [ZERO];
      return Some(0);
    }
    if text[cursor] < 49 || text[cursor] > 57 {
      assert !IsDigit(digits[0]) && !IsDigit(text[0]);
      return None;
    }
    ghost var first := cursor;
    cursor := cursor + 1;
    while cursor < |text|
      invariant first < cursor <= |text|
      invariant forall k :: first <= k < cursor ==> IsDigit(text[k])
    {
      if text[cursor] < 48 || text[cursor] > 57 {
        assert !IsDigit(digits[cursor - first]);
        return None;
      }
      cursor := cursor + 1;
    }
    assert Canonical(digits);
    var n := IntOf(text);
    return if InInt64(n) then Some(n) else None;
  }

  // ---- the JavaScript side ----

  /** The limits are compared as text. */
  const MAX_REVISION_TEXT: Text := Print(REVISION_MAX)
  const MIN_MAGNITUDE_TEXT: Text := Print(0x8000_0000_0000_0000)
  const SAFE_TEXT: Text := Print(SAFE_MAX)

  /** canonicalUnsigned: a canonical decimal not above the limit, compared as text. */
  method CanonicalUnsigned(text: Text, maxText: Text) returns (result: Option<Text>)
    requires Canonical(maxText)
    ensures result.Some? <==> Canonical(text) && ValueOf(text) <= ValueOf(maxText)
    ensures result.Some? ==> result.value == text
  {
    if !Canonical(text) {
      return None;
    }
    LengthThenText(text, maxText);
    if |text| > |maxText| || (|text| == |maxText| && TextBelow(maxText, text)) {
      return None;
    }
    return Some(text);
  }

  /** The text of the greatest magnitude of a signed 64-bit integer of that sign. */
  method MagnitudeLimit(negative: bool) returns (limit: Text)
    ensures Canonical(limit) && ValueOf(limit) == if negative then 0x8000_0000_0000_0000 else REVISION_MAX
  {
    PrintIsCanonical(if negative then 0x8000_0000_0000_0000 else REVISION_MAX);
    limit := if negative then MIN_MAGNITUDE_TEXT else MAX_REVISION_TEXT;
  }

  /** canonicalInt64: an integer of the 64-bit range in its canonical text, "-0" included. */
  method CanonicalInt64(text: Text) returns (result: Option<Text>)
    ensures result.Some? <==> SignedSyntax(text) && InInt64(IntOf(text))
    ensures result.Some? ==> result.value == PrintInt(IntOf(text))
  {
    if !SignedSyntax(text) {
      return None;
    }
    if text == [MINUS, ZERO] {
      ZeroText();
      assert text[1..] == [ZERO];
      return Some([ZERO]);
    }
    var negative := text[0] == MINUS;
    var magnitude := if negative then text[1..] else text;
    var max := MagnitudeLimit(negative);
    LengthThenText(magnitude, max);
    if |magnitude| > |max| || (|magnitude| == |max| && TextBelow(max, magnitude)) {
      return None;
    }
    SignedIsPrinted(text);
    result := Some(if negative then [MINUS] + magnitude else magnitude);
  }

  /** An optional sign and digits, leading zeros and all. */
  predicate SignedDigits(t: Text) {
    Digits(if t != [] && t[0] == MINUS then t[1..] else t)
  }

  function SignedValue(t: Text): int
    requires SignedDigits(t)
  {
    if t != [] && t[0] == MINUS then 0 - ValueOf(t[1..]) else ValueOf(t)
  }

  lemma {:induction false} LeadingZero(t: Text)
    requires Digits(t) && t != [] && t[0] == ZERO
    ensures ValueOf(t[1..]) == ValueOf(t)
  {
    if |t| > 1 {
      LeadingZero(t[..|t| - 1]);
      assert t[1..][..|t[1..]| - 1] == t[..|t| - 1][1..];
    } else {
      assert t[..0] == [];
    }
  }

  /** digits.replace(/^0+/, ""), and "0" for nothing. */
  method StripZeros(text: Text) returns (digits: Text)
    requires Digits(text)
    ensures Canonical(digits) && ValueOf(digits) == ValueOf(text)
  {
    digits := text;
    while digits != [] && digits[0] == ZERO
      invariant Digits(digits) && ValueOf(digits) == ValueOf(text)
      decreases |digits|
    {
      LeadingZero(digits);
      digits := digits[1..];
    }
    if digits == [] {
      ZeroText();
      digits := [ZERO];
    }
  }

  /** int64TextInRange of the ORM client strips leading zeros before it compares. */
  method Int64TextInRange(text: Text) returns (inRange: bool)
    requires SignedDigits(text)
    ensures inRange <==> InInt64(SignedValue(text))
  {
    var negative := text != [] && text[0] == MINUS;
    var digits := StripZeros(if negative then text[1..] else text);
    var limit := MagnitudeLimit(negative);
    LengthThenText(digits, limit);
    if |digits| != |limit| {
      return |digits| < |limit|;
    }
    return !TextBelow(limit, digits);
  }

  datatype Decoded = Exact(text: Text) | Number(value: int)

  /** int64FromWire: exact mode hands the text on; number mode takes only what a JavaScript number holds exactly. */
  method Int64FromWire(text: Text, exact: bool) returns (result: Option<Decoded>)
    ensures result.Some? <==>
              CanonicalSigned(text) && InInt64(IntOf(text)) && (exact || 0 - SAFE_MAX <= IntOf(text) <= SAFE_MAX)
    ensures result.Some? ==> result.value == if exact then Exact(text) else Number(IntOf(text))
  {
    if !CanonicalSigned(text) {
      return None;
    }
    var inRange := Int64TextInRange(text);
    if !inRange {
      return None;
    }
    if exact {
      return Some(Exact(text));
    }
    var negative := text[0] == MINUS;
    var digits := if negative then text[1..] else text;
    PrintIsCanonical(SAFE_MAX);
    LengthThenText(digits, SAFE_TEXT);
    if |digits| > |SAFE_TEXT| || (|digits| == |SAFE_TEXT| && TextBelow(SAFE_TEXT, digits)) {
      return None;
    }
    return Some(Number(if negative then 0 - ValueOf(digits) else ValueOf(digits)));
  }

  // ---- payloads ----

  function Pow256(n: nat): (p: nat)
    ensures p >= 1
  {
    if n == 0 then 1 else 256 * Pow256(n - 1)
  }

  /** The number whose octets, least significant first, are these. */
  function LittleEndian(b: seq<byte>): nat {
    if b == [] then 0 else b[0] + 256 * LittleEndian(b[1..])
  }

  function Octet(value: nat, i: nat): byte {
    value / Pow256(i) % 256
  }

  /** append_le32 and append_le64: each octet is shifted out of the value. */
  method AppendLittleEndian(value: nat, size: nat) returns (out: array<byte>)
    ensures fresh(out) && out.Length == size
    ensures out[..] == seq(size, i requires 0 <= i < size => Octet(value, i))
  {
    out := new byte[size](_ => 0);
    for i := 0 to size
      invariant out.Length == size
      invariant forall k :: 0 <= k < i ==> out[k] == Octet(value, k)
    {
      out[i] := value / Pow256(i) % 256;
    }
  }

  /** read_le32 and read_le64: each octet is shifted into an accumulator. */
  method ReadLittleEndian(b: seq<byte>) returns (value: nat)
    ensures value == LittleEndian(b)
  {
    value := 0;
    for i := 0 to |b|
      invariant value == LittleEndian(b[..i])
    {
      LittleEndianAppend(b[..i], b[i]);
      assert b[..i + 1] == b[..i] + [b[i]];
      value := value + b[i] * Pow256(i);
    }
    assert b[..|b|] == b;
  }

  lemma {:induction false} LittleEndianAppend(b: seq<byte>, last: byte)
    ensures LittleEndian(b + [last]) == LittleEndian(b) + last * Pow256(|b|)
  {
    if b == [] {
      assert b + [last] == [last];
    } else {
      assert (b + [last])[1..] == b[1..] + [last];
      LittleEndianAppend(b[1..], last);
      assert 256 * (last * Pow256(|b| - 1)) == last * Pow256(|b|);
    }
  }

  function Payload(value: nat, size: nat): (b: seq<byte>)
    ensures |b| == size
  {
    seq(size, i requires 0 <= i < size => Octet(value, i))
  }

  lemma FirstOctet(value: nat)
    ensures Octet(value, 0) == value % 256
  {
    assert Pow256(0) == 1;
  }

  lemma OctetOfRest(value: nat, i: nat)
    ensures Octet(value / 256, i) == Octet(value, i + 1)
  {
    DivideTwice(value, Pow256(i));
  }

  lemma {:induction false} PayloadShift(value: nat, size: nat)
    requires size > 0
    ensures Payload(value, size) == [value % 256] + Payload(value / 256, size - 1)
  {
    assert Payload(value, size)[0] == value % 256 by {
      FirstOctet(value);
    }
    var rest := Payload(value / 256, size - 1);
    forall i | 0 <= i < size - 1 ensures Payload(value, size)[i + 1] == rest[i] {
      OctetOfRest(value, i);
    }
    HeadThenRest(Payload(value, size), value % 256, rest);
  }

  lemma HeadThenRest<T>(s: seq<T>, head: T, rest: seq<T>)
    requires |s| == |rest| + 1 && s[0] == head && forall i :: 0 <= i < |rest| ==> s[i + 1] == rest[i]
    ensures s == [head] + rest
  {
    assert forall i :: 0 < i < |s| ==> s[i] == rest[i - 1] by {
      forall i | 0 < i < |s| ensures s[i] == rest[i - 1] {
        var k := i - 1;
        assert s[k + 1] == rest[k];
      }
    }
  }

  /** Reading back what was written gives the value, as far as it fits. */
  lemma {:induction false} ReadsBack(value: nat, size: nat)
    requires value < Pow256(size)
    ensures LittleEndian(Payload(value, size)) == value
  {
    if size > 0 {
      PayloadShift(value, size);
      ReadsBack(value / 256, size - 1);
    }
  }

  /** And writing back what was read gives the same octets: nothing but the number is in them. */
  lemma {:induction false} WritesBack(b: seq<byte>)
    ensures LittleEndian(b) < Pow256(|b|)
    ensures Payload(LittleEndian(b), |b|) == b
  {
    if b != [] {
      WritesBack(b[1..]);
      var n := LittleEndian(b);
      PayloadShift(n, |b|);
      assert n / 256 == LittleEndian(b[1..]) && n % 256 == b[0];
      assert b == [b[0]] + b[1..];
    }
  }

  const TWO_64: nat := 0x1_0000_0000_0000_0000

  /** The two's complement conversions of a 64-bit integer. */
  function ToUnsigned(n: int): (u: nat)
    requires InInt64(n)
    ensures u < TWO_64 && (u - n) % TWO_64 == 0
  {
    if n >= 0 then n else n + TWO_64
  }

  function ToSigned(u: nat): (n: int)
    requires u < TWO_64
    ensures InInt64(n) && ToUnsigned(n) == u
  {
    if u <= INT64_MAX then u else u - TWO_64
  }

  lemma Pow256Of8()
    ensures Pow256(8) == TWO_64
  {
    assert Pow256(2) == 0x1_0000;
    assert Pow256(4) == 0x1_0000_0000;
    assert Pow256(6) == 0x1_0000_0000_0000;
  }

  /** esdb_value_create_int64 */
  method CreateInt64(n: int) returns (value: Value)
    requires InInt64(n)
    ensures value == Value(Int64Type, Payload(ToUnsigned(n), 8))
  {
    var payload := AppendLittleEndian(ToUnsigned(n), 8);
    value := Value(Int64Type, payload[..]);
  }

  /** esdb_value_get_int64; None stands for a type mismatch. */
  method GetInt64(value: Value) returns (n: Option<int>)
    ensures n.Some? <==> value.valueType == Int64Type && |value.payload| == 8
    ensures n.Some? ==> InInt64(n.value) && value.payload == Payload(ToUnsigned(n.value), 8)
  {
    if value.valueType != Int64Type || |value.payload| != 8 {
      return None;
    }
    var u := ReadLittleEndian(value.payload);
    WritesBack(value.payload);
    Pow256Of8();
    n := Some(ToSigned(u));
  }

  /** Two integers with the same payload are the same integer. */
  lemma PayloadDecides(m: int, n: int)
    requires InInt64(m) && InInt64(n) && Payload(ToUnsigned(m), 8) == Payload(ToUnsigned(n), 8)
    ensures m == n
  {
    Pow256Of8();
    ReadsBack(ToUnsigned(m), 8);
    ReadsBack(ToUnsigned(n), 8);
  }

  /**
   The whole chain: a decimal text that the facade accepts as an INT64 is parsed by the adapter, stored as a payload,
   read from it and printed again as the same canonical text.
   */
  method Int64Chain(text: Text) returns (printed: Option<Text>)
    ensures printed.Some? <==> SignedSyntax(text) && InInt64(IntOf(text))
    ensures printed.Some? ==> printed.value == if text == [MINUS, ZERO] then [ZERO] else text
  {
    var wire := CanonicalInt64(text);
    if wire.None? {
      return None;
    }
    PrintIntIsCanonical(IntOf(text));
    var parsed := ParseI64Decimal(wire.value);
    var value := CreateInt64(parsed.value);
    var n := GetInt64(value);
    PayloadDecides(n.value, parsed.value);
    printed := Some(PrintInt(n.value));
    if text == [MINUS, ZERO] {
      ZeroText();
      assert text[1..] == [ZERO];
    } else {
      SignedIsPrinted(text);
    }
  }
}
