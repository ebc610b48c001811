/**
 The loops of the JavaScript facades that move text: utf8ToHex and utf8FromHex of extendscript/esdb.jsx, and the ORM
 client's own hexToUtf8, written independently. None stands for a thrown error.
 */
module TextCodec {
  import opened Common
  import opened Utf16
  import Utf8

  /** One step of encoding: the hex so far, one more character. */
  lemma AppendCharacter(text: Text, i: nat, done: seq<byte>)
    requires i < |text| && PairedFrom(text, i)
    ensures var o := Octets(PointAt(text, i));
            && PairedFrom(text, i + UnitsAt(text, i))
            && done + EncodeFrom(text, i) == (done + o) + EncodeFrom(text, i + UnitsAt(text, i))
  {
  }

  /** The characters of `text` from `i` on are still to be encoded; `done` are the octets of those before. */
  ghost predicate Encoding(text: Text, i: nat, done: seq<byte>) {
    && i <= |text|
    && (PairedFrom(text, 0) <==> PairedFrom(text, i))
    && (PairedFrom(text, i) ==> EncodeFrom(text, 0) == done + EncodeFrom(text, i))
  }

  lemma EncodingStep(text: Text, i: nat, done: seq<byte>)
    requires Encoding(text, i, done) && i < |text| && UnitsAt(text, i) > 0
    ensures Encoding(text, i + UnitsAt(text, i), done + Octets(PointAt(text, i)))
  {
    if PairedFrom(text, i) {
      AppendCharacter(text, i, done);
    }
  }

  lemma EncodingStops(text: Text, i: nat, done: seq<byte>)
    requires Encoding(text, i, done) && i < |text| && UnitsAt(text, i) == 0
    ensures !Transportable(text)
  {
  }

  lemma EncodingEnds(text: Text, done: seq<byte>)
    requires Encoding(text, |text|, done)
    ensures Transportable(text) && EncodeFrom(text, 0) == done
  {
    assert done + [] == done;
  }

  /** The octets of the character at `i`, and how many units it took: 0 for a lone surrogate. */
  method EncodeCharacter(text: Text, i: nat) returns (octets: seq<byte>, units: nat)
    requires i < |text|
    ensures units == UnitsAt(text, i)
    ensures units > 0 ==> octets == Octets(PointAt(text, i))
  {
    var code: nat := text[i];
    if code <= 0x7f {
      return [code], 1;
    }
    if code <= 0x7ff {
      return [0xc0 + code / 64, 0x80 + code % 64], 1;
    }
    if 0xd800 <= code <= 0xdbff {
      if i + 1 >= |text| {
        return [], 0;
      }
      var low: nat := text[i + 1];
      if low < 0xdc00 || low > 0xdfff {
        return [], 0;
      }
      var point := 0x10000 + (code - 0xd800) * 1024 + (low - 0xdc00);
      return [0xf0 + point / 262144, 0x80 + point / 4096 % 64, 0x80 + point / 64 % 64, 0x80 + point % 64], 2;
    }
    if 0xdc00 <= code <= 0xdfff {
      return [], 0;
    }
    return [0xe0 + code / 4096, 0x80 + code / 64 % 64, 0x80 + code % 64], 1;
  }

  method Utf8ToHex(text: Text) returns (hex: Option<Text>)
    ensures hex.Some? <==> Transportable(text)
    ensures hex.Some? ==> hex.value == ToHex(text)
  {
    var out: Text := [];
    ghost var done: seq<byte> := [];
    var i := 0;
    while i < |text|
      invariant Encoding(text, i, done) && out == HexOf(done)
    {
      var octets, units := EncodeCharacter(text, i);
      if units == 0 {
        EncodingStops(text, i, done);
        return None;
      }
      EncodingStep(text, i, done);
      out := AppendHex(out, octets, done);
      done := done + octets;
      i := i + units;
    }
    EncodingEnds(text, done);
    hex := Some(out);
  }

  lemma HexNext(done: seq<byte>, octets: seq<byte>, k: nat)
    requires k < |octets|
    ensures HexOf(done + octets[..k + 1]) == HexOf(done + octets[..k]) + HexByte(octets[k])
  {
    HexAppendOctet(done + octets[..k], octets[k]);
    assert done + octets[..k + 1] == (done + octets[..k]) + [octets[k]];
  }

  /** hexByte of each octet, appended. */
  method AppendHex(out: Text, octets: seq<byte>, ghost done: seq<byte>) returns (out': Text)
    requires out == HexOf(done)
    ensures out' == HexOf(done + octets)
  {
    out' := out;
    assert done + octets[..0] == done;
    for k := 0 to |octets|
      invariant out' == HexOf(done + octets[..k])
    {
      HexNext(done, octets, k);
      out' := out' + HexByte(octets[k]);
    }
    assert octets[..|octets|] == octets;
  }

  /** hexBytes: every digit is checked before any byte is decoded. */
  method HexBytes(hex: Text) returns (bytes: Option<seq<byte>>)
    ensures bytes.Some? <==> IsHex(hex)
    ensures bytes.Some? ==> bytes.value == BytesOf(hex)
  {
    if |hex| % 2 != 0 {
      return None;
    }
    for i := 0 to |hex|
      invariant forall k :: 0 <= k < i ==> Nibble(hex[k]) >= 0
    {
      if Nibble(hex[i]) < 0 {
        return None;
      }
    }
    var out: seq<byte> := [];
    var i := 0;
    while i < |hex| / 2
      invariant i <= |hex| / 2 && out == BytesOf(hex)[..i]
    {
      out := out + [Nibble(hex[2 * i]) * 16 + Nibble(hex[2 * i + 1])];
      i := i + 1;
    }
    bytes := Some(out);
  }

  /** The octets from `i` on are still to be decoded; `done` is the text of those before. */
  ghost predicate Decoding(b: seq<byte>, i: nat, done: Text) {
    i <= |b| && Decoded(b, 0) == Before(done, Decoded(b, i))
  }

  lemma DecodingStarts(b: seq<byte>)
    ensures Decoding(b, 0, [])
  {
    if Utf8.WellFormed(b) {
      assert [] + DecodeFrom(b, 0) == DecodeFrom(b, 0);
    }
  }

  lemma DecodingStep(b: seq<byte>, i: nat, done: Text)
    requires Decoding(b, i, done) && i < |b| && Utf8.CharSize(b, i) > 0
    ensures Scalar(CodePointAt(b, i))
    ensures Decoding(b, i + Utf8.CharSize(b, i), done + UnitsOf(CodePointAt(b, i)))
  {
    ScalarAt(b, i);
    var units, rest := UnitsOf(CodePointAt(b, i)), Decoded(b, i + Utf8.CharSize(b, i));
    if rest.Some? {
      DecodeStep(b, i, CodePointAt(b, i));
      assert done + (units + rest.value) == (done + units) + rest.value;
    }
  }

  lemma DecodingStops(b: seq<byte>, i: nat, done: Text)
    requires Decoding(b, i, done) && i < |b| && Utf8.CharSize(b, i) == 0
    ensures !Utf8.WellFormed(b)
  {
  }

  lemma DecodingEnds(b: seq<byte>, done: Text)
    requires Decoding(b, |b|, done)
    ensures Utf8.WellFormed(b) && DecodeFrom(b, 0) == done
  {
    assert done + [] == done;
  }

  /**
   The units of the character at `i` and its size, 0 when it is refused: the second octet is tested, never the number.
   */
  method DecodeCharacter(bytes: seq<byte>, i: nat) returns (units: Text, size: nat)
    requires i < |bytes|
    ensures size == Utf8.CharSize(bytes, i)
    ensures size > 0 ==> Scalar(CodePointAt(bytes, i)) && units == UnitsOf(CodePointAt(bytes, i))
  {
    var b0: nat := bytes[i];
    units, size := [], 0;
    if b0 <= 0x7f {
      units, size := [b0], 1;
    } else if 0xc2 <= b0 <= 0xdf {
      if i + 1 < |bytes| && bytes[i + 1] / 64 == 2 {
        units, size := [b0 % 32 * 64 + bytes[i + 1] % 64], 2;
      }
    } else if 0xe0 <= b0 <= 0xef {
      units, size := ThreeByteCharacter(bytes, i);
    } else if 0xf0 <= b0 <= 0xf4 {
      units, size := FourByteCharacter(bytes, i);
    }
  }

  method DecodeBytes(bytes: seq<byte>) returns (text: Option<Text>)
    ensures text.Some? <==> Utf8.WellFormed(bytes)
    ensures text.Some? ==> text.value == DecodeFrom(bytes, 0)
  {
    var out: Text := [];
    var i := 0;
    DecodingStarts(bytes);
    while i < |bytes|
      invariant Decoding(bytes, i, out)
    {
      var units, size := DecodeCharacter(bytes, i);
      if size == 0 {
        DecodingStops(bytes, i, out);
        return None;
      }
      DecodingStep(bytes, i, out);
      out, i := out + units, i + size;
    }
    DecodingEnds(bytes, out);
    text := Some(out);
  }

  /** utf8FromHex accepts exactly hex of well-formed UTF-8. */
  method Utf8FromHex(hex: Text) returns (text: Option<Text>)
    ensures text.Some? <==> Receivable(hex)
    ensures text.Some? ==> text.value == FromHex(hex)
  {
    var bytes := HexBytes(hex);
    if bytes.None? {
      return None;
    }
    text := DecodeBytes(bytes.value);
  }

  /** Size 0 when the character is refused. */
  method ThreeByteCharacter(bytes: seq<byte>, i: nat) returns (units: Text, size: nat)
    requires i < |bytes| && 0xe0 <= bytes[i] <= 0xef
    ensures size == Utf8.CharSize(bytes, i)
    ensures size > 0 ==> Scalar(CodePointAt(bytes, i)) && units == UnitsOf(CodePointAt(bytes, i))
  {
    if i + 2 >= |bytes| {
      return [], 0;
    }
    var b0: nat, b1: nat, b2: nat := bytes[i], bytes[i + 1], bytes[i + 2];
    if b1 / 64 != 2 || b2 / 64 != 2 || (b0 == 0xe0 && b1 < 0xa0) || (b0 == 0xed && b1 >= 0xa0) {
      return [], 0;
    }
    Utf8.ThreeOctetRange(b0, b1, b2);
    return [b0 % 16 * 4096 + b1 % 64 * 64 + b2 % 64], 3;
  }

  lemma SurrogatePair(p: nat)
    requires 0x10000 <= p <= 0x10ffff
    ensures UnitsOf(p) == [0xd800 + (p - 0x10000) / 1024 % 1024, 0xdc00 + (p - 0x10000) % 1024]
  {
    assert (p - 0x10000) / 1024 < 1024;
  }

  method FourByteCharacter(bytes: seq<byte>, i: nat) returns (units: Text, size: nat)
    requires i < |bytes| && 0xf0 <= bytes[i] <= 0xf4
    ensures size == Utf8.CharSize(bytes, i)
    ensures size > 0 ==> Scalar(CodePointAt(bytes, i)) && units == UnitsOf(CodePointAt(bytes, i))
  {
    if i + 3 >= |bytes| {
      return [], 0;
    }
    var b0: nat, b1: nat, b2: nat, b3: nat := bytes[i], bytes[i + 1], bytes[i + 2], bytes[i + 3];
    if b1 / 64 != 2 || b2 / 64 != 2 || b3 / 64 != 2 || (b0 == 0xf0 && b1 < 0x90) || (b0 == 0xf4 && b1 >= 0x90) {
      return [], 0;
    }
    Utf8.FourOctetRange(b0, b1, b2, b3);
    var point := b0 % 8 * 262144 + b1 % 64 * 4096 + b2 % 64 * 64 + b3 % 64 - 0x10000;
    SurrogatePair(Utf8.FourOctets(b0, b1, b2, b3));
    return [0xd800 + point / 1024 % 1024, 0xdc00 + point % 1024], 4;
  }

  /** The i-th pair of digits as a number, negative when either is no hex digit. */
  function PairAt(hex: Text, i: nat): int
    requires 2 * i + 1 < |hex|
  {
    if Nibble(hex[2 * i]) < 0 || Nibble(hex[2 * i + 1]) < 0 then -1
        else Nibble(hex[2 * i]) * 16 + Nibble(hex[2 * i + 1])
  }

  /** The pairs of digits in a range are all hex. */
  predicate Digits(hex: Text, from: nat, to: nat)
    requires 2 * to <= |hex|
  {
    forall k :: from <= k < to ==> PairAt(hex, k) >= 0
  }

  predicate InClass(b: byte, extra: nat) {
    match extra
    case 0 => b < 0x80
    case 1 => 0xc2 <= b <= 0xdf
    case 2 => 0xe0 <= b <= 0xef
    case _ => 0xf0 <= b <= 0xf4
  }

  /** The continuation octets of a character, digits and all, added to its number. */
  method ReadTail(hex: Text, i: nat, b: byte, extra: nat, lead: nat, ghost bytes: seq<byte>)
      returns (ok: bool, code: nat)
    requires |hex| % 2 == 0 && i + extra < |hex| / 2 && bytes == Sanitized(hex)
    requires b == bytes[i] && extra <= 3 && InClass(b, extra) && Digits(hex, i, i + 1) && lead == Utf8.LeadBits(b)
    ensures !ok ==> !IsHex(hex) || Utf8.CharSize(bytes, i) == 0
    ensures ok ==> Digits(hex, i, i + 1 + extra)
    ensures ok ==> Utf8.CharSize(bytes, i) == extra + 1 && code == CodePointAt(bytes, i)
  {
    code := lead;
    var j := 0;
    while j < extra
      invariant j <= extra
      invariant Digits(hex, i, i + 1 + j)
      invariant TailRead(bytes, i, j, code)
    {
      var b2 := PairAt(hex, i + 1 + j);
      if b2 < 0x80 || b2 > 0xbf || (j == 0 && !SecondAllowed(b, b2)) {
        if b2 < 0 {
          NotHexAt(hex, i + 1 + j);
        } else {
          RefusedAt(bytes, i, extra, j);
        }
        return false, 0;
      }
      TailStep(bytes, i, j, code, b2);
      code := code * 64 + Utf8.Low6(b2);
      j := j + 1;
    }
    AcceptedAt(bytes, i, extra);
    ok := true;
  }

  /** The first j continuation octets of the character at `i` are allowed, and `code` is what they spell so far. */
  ghost predicate TailRead(bytes: seq<byte>, i: nat, j: nat, code: nat)
    requires i + j < |bytes|
  {
    && (forall k :: i < k <= i + j ==> Utf8.Tail(bytes[k]))
    && (j > 0 ==> SecondAllowed(bytes[i], bytes[i + 1]))
    && code == Utf8.Accumulate(Utf8.LeadBits(bytes[i]), bytes, i + 1, i + 1 + j)
  }

  lemma TailStep(bytes: seq<byte>, i: nat, j: nat, code: nat, b2: byte)
    requires i + j + 1 < |bytes| && bytes[i + 1 + j] == b2
    requires TailRead(bytes, i, j, code)
    requires Utf8.Tail(b2) && (j == 0 ==> SecondAllowed(bytes[i], b2))
    ensures TailRead(bytes, i, j + 1, code * 64 + Utf8.Low6(b2))
  {
  }

  /** How many octets follow a lead octet, and the bits they are added to; None for no lead octet. */
  method ExtraOf(b: byte) returns (extra: Option<nat>, lead: nat)
    ensures extra.None? <==> 0x80 <= b < 0xc2 || b > 0xf4
    ensures extra.Some? ==> extra.value <= 3 && InClass(b, extra.value) && lead == Utf8.LeadBits(b)
  {
    if b < 0x80 {
      return Some(0), b;
    } else if 0xc2 <= b <= 0xdf {
      return Some(1), b % 32;
    } else if 0xe0 <= b <= 0xef {
      return Some(2), b % 16;
    } else if 0xf0 <= b <= 0xf4 {
      return Some(3), b % 8;
    }
    return None, 0;
  }

  /** String.fromCharCode of a code point, as a surrogate pair where it takes one. */
  method UnitsFor(code: nat) returns (units: Text)
    requires Scalar(code)
    ensures units == UnitsOf(code)
  {
    if code > 0xffff {
      var rest := code - 0x10000;
      units := [0xd800 + rest / 1024, 0xdc00 + rest % 1024];
    } else {
      units := [code];
    }
  }

  /** One character of hexToUtf8; size 0 when it throws. */
  method ReadCharacter(hex: Text, i: nat, ghost bytes: seq<byte>) returns (units: Text, size: nat)
    requires |hex| % 2 == 0 && i < |hex| / 2 && bytes == Sanitized(hex)
    ensures i + size <= |hex| / 2
    ensures size == 0 ==> !IsHex(hex) || Utf8.CharSize(bytes, i) == 0
    ensures size > 0 ==> Digits(hex, i, i + size) && size == Utf8.CharSize(bytes, i)
    ensures size > 0 ==> Scalar(CodePointAt(bytes, i)) && units == UnitsOf(CodePointAt(bytes, i))
  {
    var b := PairAt(hex, i);
    if b < 0 {
      NotHexAt(hex, i);
      return [], 0;
    }
    var extra, lead := ExtraOf(b);
    if extra.None? || i + extra.value + 1 > |hex| / 2 {
      return [], 0;
    }
    var ok, code := ReadTail(hex, i, b, extra.value, lead, bytes);
    if !ok {
      return [], 0;
    }
    ScalarAt(bytes, i);
    size := extra.value + 1;
    units := UnitsFor(code);
  }

  /**
   hexToUtf8 decodes hex and UTF-8 in one pass and rules characters out as it accumulates them, yet accepts the same hex
   and gives the same text.
   */
  method HexToUtf8(hex: Text) returns (text: Option<Text>)
    ensures text.Some? <==> Receivable(hex)
    ensures text.Some? ==> text.value == FromHex(hex)
  {
    if |hex| % 2 != 0 {
      return None;
    }
    ghost var bytes := Sanitized(hex);
    var out: Text := [];
    var i := 0;
    DecodingStarts(bytes);
    while i < |hex| / 2
      invariant i <= |hex| / 2
      invariant Digits(hex, 0, i)
      invariant Decoding(bytes, i, out)
    {
      var units, size := ReadCharacter(hex, i, bytes);
      if size == 0 {
        HexDecodingStops(hex, i, out);
        return None;
      }
      DecodingStep(bytes, i, out);
      out, i := out + units, i + size;
    }
    HexDecodingEnds(hex, out);
    text := Some(out);
  }

  /** The bytes of hex digits, with 0 for every pair that is not hex. */
  ghost function Sanitized(hex: Text): (b: seq<byte>)
    requires |hex| % 2 == 0
    ensures |b| == |hex| / 2
    ensures forall i :: 0 <= i < |b| ==> b[i] == if PairAt(hex, i) < 0 then 0 else PairAt(hex, i)
    ensures IsHex(hex) ==> b == BytesOf(hex)
  {
    seq(|hex| / 2, i requires 0 <= i < |hex| / 2 => if PairAt(hex, i) < 0 then 0 else PairAt(hex, i))
  }

  predicate SecondAllowed(b: nat, b1: nat) {
    && (b == 0xe0 ==> b1 >= 0xa0)
    && (b == 0xed ==> b1 < 0xa0)
    && (b == 0xf0 ==> b1 >= 0x90)
    && (b == 0xf4 ==> b1 < 0x90)
  }

  lemma NotHexAt(hex: Text, k: nat)
    requires 2 * k + 1 < |hex| && PairAt(hex, k) < 0
    ensures !IsHex(hex)
  {
  }

  lemma DigitsAreHex(hex: Text)
    requires |hex| % 2 == 0
    ensures Digits(hex, 0, |hex| / 2) <==> IsHex(hex)
  {
    if Digits(hex, 0, |hex| / 2) {
      forall k | 0 <= k < |hex| ensures Nibble(hex[k]) >= 0 {
        assert PairAt(hex, k / 2) >= 0;
        assert k == 2 * (k / 2) || k == 2 * (k / 2) + 1;
      }
    }
  }

  lemma HexDecodingStops(hex: Text, i: nat, done: Text)
    requires |hex| % 2 == 0 && i < |hex| / 2 && Decoding(Sanitized(hex), i, done)
    requires !IsHex(hex) || Utf8.CharSize(Sanitized(hex), i) == 0
    ensures !Receivable(hex)
  {
  }

  lemma HexDecodingEnds(hex: Text, done: Text)
    requires |hex| % 2 == 0 && Digits(hex, 0, |hex| / 2) && Decoding(Sanitized(hex), |hex| / 2, done)
    ensures Receivable(hex) && FromHex(hex) == done
  {
    DigitsAreHex(hex);
    DecodingEnds(Sanitized(hex), done);
  }

  lemma RefusedAt(b: seq<byte>, i: nat, extra: nat, j: nat)
    requires extra <= 3 && j < extra && i + extra < |b| && InClass(b[i], extra)
    requires !Utf8.Tail(b[i + 1 + j]) || (j == 0 && !SecondAllowed(b[i], b[i + 1]))
    ensures Utf8.CharSize(b, i) == 0
  {
  }

  lemma AcceptedAt(b: seq<byte>, i: nat, extra: nat)
    requires extra <= 3 && i + extra < |b| && InClass(b[i], extra)
    requires TailRead(b, i, extra, Utf8.Accumulate(Utf8.LeadBits(b[i]), b, i + 1, i + 1 + extra))
    ensures Utf8.CharSize(b, i) == extra + 1
    ensures CodePointAt(b, i) == Utf8.Accumulate(Utf8.LeadBits(b[i]), b, i + 1, i + 1 + extra)
  {
    var lead := Utf8.LeadBits(b[i]);
    if extra > 0 {
      assert Utf8.Accumulate(lead, b, i + 1, i + 2) == lead * 64 + Utf8.Low6(b[i + 1]);
    }
    if extra == 2 {
      assert Utf8.Accumulate(lead, b, i + 1, i + 3) == Utf8.ThreeOctets(b[i], b[i + 1], b[i + 2]);
    } else if extra == 3 {
      assert Utf8.Accumulate(lead, b, i + 1, i + 4) == Utf8.FourOctets(b[i], b[i + 1], b[i + 2], b[i + 3]);
    }
  }
}
