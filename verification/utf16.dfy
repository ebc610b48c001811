/**
 The text transport of the JavaScript facades: UTF-16 strings to upper-case ASCII hex of their UTF-8 encoding and back.
 A JavaScript string is a sequence of 16-bit code units; lone surrogates have no encoding (section 3 of RFC 3629,
 section 2 of RFC 2781).
 */
module Utf16 {
  import opened Common
  import Utf8

  type unit = u: nat | u < 0x10000

  type Text = seq<unit>

  predicate High(u: unit) { 0xd800 <= u <= 0xdbff }

  predicate Low(u: unit) { 0xdc00 <= u <= 0xdfff }

  /** A Unicode scalar value. */
  predicate Scalar(p: nat) {
    p <= 0x10ffff && !(0xd800 <= p <= 0xdfff)
  }

  /** How many units the character at `i` has: 0 for a lone surrogate. */
  function UnitsAt(s: Text, i: nat): (n: nat)
    requires i < |s|
    ensures i + n <= |s| && n <= 2
  {
    if High(s[i]) then if i + 1 < |s| && Low(s[i + 1]) then 2 else 0
    else if Low(s[i]) then 0
    else 1
  }

  /** Every surrogate from `i` on is one of a pair. */
  predicate PairedFrom(s: Text, i: nat)
    requires i <= |s|
    decreases |s| - i
  {
    i == |s| || (UnitsAt(s, i) > 0 && PairedFrom(s, i + UnitsAt(s, i)))
  }

  function PointAt(s: Text, i: nat): (p: nat)
    requires i < |s| && UnitsAt(s, i) > 0
    ensures Scalar(p)
  {
    if High(s[i]) then
      var high: nat, low: nat := s[i], s[i + 1];
      0x10000 + (high - 0xd800) * 1024 + (low - 0xdc00)
    else s[i]
  }

  function UnitsOf(p: nat): Text
    requires Scalar(p)
  {
    assert p >= 0x10000 ==> (p - 0x10000) / 1024 < 1024;
    if p < 0x10000 then [p] else [0xd800 + (p - 0x10000) / 1024, 0xdc00 + (p - 0x10000) % 1024]
  }

  /** The table of section 3 of RFC 3629. */
  function Octets(p: nat): seq<byte>
    requires Scalar(p)
  {
    if p <= 0x7f then [p]
    else if p <= 0x7ff then [0xc0 + p / 64, 0x80 + p % 64]
    else if p <= 0xffff then [0xe0 + p / 4096, 0x80 + p / 64 % 64, 0x80 + p % 64]
    else [0xf0 + p / 262144, 0x80 + p / 4096 % 64, 0x80 + p / 64 % 64, 0x80 + p % 64]
  }

  /** The number that the grammar character at `i` spells. */
  function CodePointAt(b: seq<byte>, i: nat): nat
    requires i <= |b| && Utf8.CharSize(b, i) > 0
  {
    match Utf8.CharSize(b, i)
    case 1 => b[i]
    case 2 => Utf8.LeadBits(b[i]) * 64 + Utf8.Low6(b[i + 1])
    case 3 => Utf8.ThreeOctets(b[i], b[i + 1], b[i + 2])
    case _ => Utf8.FourOctets(b[i], b[i + 1], b[i + 2], b[i + 3])
  }

  function EncodeFrom(s: Text, i: nat): seq<byte>
    requires i <= |s| && PairedFrom(s, i)
    decreases |s| - i
  {
    if i == |s| then [] else Octets(PointAt(s, i)) + EncodeFrom(s, i + UnitsAt(s, i))
  }

  function DecodeFrom(b: seq<byte>, i: nat): Text
    requires i <= |b| && Utf8.WellFormedFrom(b, i)
    decreases |b| - i
  {
    if i == |b| then []
    else
      ScalarAt(b, i);
      UnitsOf(CodePointAt(b, i)) + DecodeFrom(b, i + Utf8.CharSize(b, i))
  }

  lemma TwoOctetsSplit(c: byte, b1: byte)
    requires 0xc2 <= c <= 0xdf && Utf8.Tail(b1)
    ensures var p := Utf8.LeadBits(c) * 64 + Utf8.Low6(b1); 0x80 <= p <= 0x7ff && Octets(p) == [c, b1]
  {
    var p := Utf8.LeadBits(c) * 64 + Utf8.Low6(b1);
    assert p / 64 == c - 0xc0 && p % 64 == b1 - 0x80;
  }

  lemma Shift6(q: nat, r: nat)
    requires r < 64
    ensures (q * 64 + r) / 64 == q && (q * 64 + r) % 64 == r
  {
  }

  lemma Shifts(p: nat)
    ensures p / 4096 == p / 64 / 64 && p / 262144 == p / 64 / 64 / 64
  {
  }

  lemma ThreeOctetsSplit(c: byte, b1: byte, b2: byte)
    requires 0xe0 <= c <= 0xef && Utf8.Tail(b1) && Utf8.Tail(b2)
    ensures var p := Utf8.ThreeOctets(c, b1, b2); Scalar(p) && p >= 0x800 ==> Octets(p) == [c, b1, b2]
  {
    ThreeOctetsBits(c, b1, b2);
    ThreeOctetsOf(c - 0xe0, b1 - 0x80, b2 - 0x80);
  }

  lemma ThreeOctetsBits(c: byte, b1: byte, b2: byte)
    requires 0xe0 <= c <= 0xef && Utf8.Tail(b1) && Utf8.Tail(b2)
    ensures Utf8.ThreeOctets(c, b1, b2) == (c - 0xe0) * 4096 + (b1 - 0x80) * 64 + (b2 - 0x80)
  {
  }

  lemma ThreeOctetsOf(x0: nat, x1: nat, x2: nat)
    requires x0 < 16 && x1 < 64 && x2 < 64
    ensures var p := x0 * 4096 + x1 * 64 + x2;
            Scalar(p) && p >= 0x800 ==> Octets(p) == [0xe0 + x0, 0x80 + x1, 0x80 + x2]
  {
    Shift6(x0 * 64 + x1, x2);
    Shift6(x0, x1);
    Shifts((x0 * 64 + x1) * 64 + x2);
  }

  lemma FourDigits(x0: nat, x1: nat, x2: nat, x3: nat)
    requires x1 < 64 && x2 < 64 && x3 < 64
    ensures var p := x0 * 262144 + x1 * 4096 + x2 * 64 + x3;
            p / 262144 == x0 && p / 4096 % 64 == x1 && p / 64 % 64 == x2 && p % 64 == x3
  {
    var q := x0 * 64 + x1;
    var r := q * 64 + x2;
    Shift6(r, x3);
    Shift6(q, x2);
    Shift6(x0, x1);
    Shifts(r * 64 + x3);
  }

  lemma FourOctetsSplit(c: byte, b1: byte, b2: byte, b3: byte)
    requires 0xf0 <= c <= 0xf4 && Utf8.Tail(b1) && Utf8.Tail(b2) && Utf8.Tail(b3)
    ensures var p := Utf8.FourOctets(c, b1, b2, b3);
            0x10000 <= p <= 0x10ffff ==> Octets(p) == [c, b1, b2, b3]
  {
    var x0: nat, x1: nat, x2: nat, x3: nat := c - 0xf0, b1 - 0x80, b2 - 0x80, b3 - 0x80;
    FourOctetsBits(c, b1, b2, b3);
    FourOctetsOf(x0, x1, x2, x3);
  }

  lemma FourOctetsBits(c: byte, b1: byte, b2: byte, b3: byte)
    requires 0xf0 <= c <= 0xf4 && Utf8.Tail(b1) && Utf8.Tail(b2) && Utf8.Tail(b3)
    ensures Utf8.FourOctets(c, b1, b2, b3) == (c - 0xf0) * 262144 + (b1 - 0x80) * 4096 + (b2 - 0x80) * 64 + (b3 - 0x80)
  {
  }

  lemma FourOctetsOf(x0: nat, x1: nat, x2: nat, x3: nat)
    requires x0 <= 4 && x1 < 64 && x2 < 64 && x3 < 64
    ensures var p := x0 * 262144 + x1 * 4096 + x2 * 64 + x3;
            0x10000 <= p <= 0x10ffff ==> Octets(p) == [0xf0 + x0, 0x80 + x1, 0x80 + x2, 0x80 + x3]
  {
    FourDigits(x0, x1, x2, x3);
  }

  lemma ScalarAt(b: seq<byte>, i: nat)
    requires i <= |b| && Utf8.CharSize(b, i) > 0
    ensures Scalar(CodePointAt(b, i))
    ensures Octets(CodePointAt(b, i)) == b[i..i + Utf8.CharSize(b, i)]
  {
    var n := Utf8.CharSize(b, i);
    if n == 2 {
      assert 0xc2 <= b[i] <= 0xdf && Utf8.Tail(b[i + 1]);
      TwoOctetsSplit(b[i], b[i + 1]);
    } else if n == 3 {
      assert 0xe0 <= b[i] <= 0xef && Utf8.Tail(b[i + 1]) && Utf8.Tail(b[i + 2]);
      ThreeOctetsScalar(b, i);
    } else if n == 4 {
      assert 0xf0 <= b[i] <= 0xf4 && Utf8.Tail(b[i + 1]) && Utf8.Tail(b[i + 2]) && Utf8.Tail(b[i + 3]);
      FourOctetsScalar(b, i);
    }
  }

  lemma ThreeOctetsScalar(b: seq<byte>, i: nat)
    requires i <= |b| && Utf8.CharSize(b, i) == 3
    ensures Scalar(CodePointAt(b, i)) && Octets(CodePointAt(b, i)) == b[i..i + 3]
  {
    Utf8.ThreeOctetRange(b[i], b[i + 1], b[i + 2]);
    ThreeOctetsSplit(b[i], b[i + 1], b[i + 2]);
    assert b[i..i + 3] == [b[i], b[i + 1], b[i + 2]];
  }

  lemma FourOctetsScalar(b: seq<byte>, i: nat)
    requires i <= |b| && Utf8.CharSize(b, i) == 4
    ensures Scalar(CodePointAt(b, i)) && Octets(CodePointAt(b, i)) == b[i..i + 4]
  {
    Utf8.FourOctetRange(b[i], b[i + 1], b[i + 2], b[i + 3]);
    FourOctetsSplit(b[i], b[i + 1], b[i + 2], b[i + 3]);
    assert b[i..i + 4] == [b[i], b[i + 1], b[i + 2], b[i + 3]];
  }

  lemma TwoOctetsJoin(p: nat)
    requires 0x80 <= p <= 0x7ff
    ensures var c, b1 := 0xc0 + p / 64, 0x80 + p % 64;
            0xc2 <= c <= 0xdf && Utf8.Tail(b1) && Utf8.LeadBits(c) * 64 + Utf8.Low6(b1) == p
  {
    assert (0xc0 + p / 64) % 32 == p / 64 && (0x80 + p % 64) % 64 == p % 64;
  }

  lemma ThreeOctetsJoin(p: nat)
    requires 0x800 <= p <= 0xffff
    ensures var c, b1, b2 := 0xe0 + p / 4096, 0x80 + p / 64 % 64, 0x80 + p % 64;
            0xe0 <= c <= 0xef && Utf8.Tail(b1) && Utf8.Tail(b2) && Utf8.ThreeOctets(c, b1, b2) == p
  {
    var q := p / 64;
    assert p == q * 64 + p % 64;
    assert p / 4096 == q / 64;
    assert (0xe0 + q / 64) % 16 == q / 64 && (0x80 + q % 64) % 64 == q % 64 && (0x80 + p % 64) % 64 == p % 64;
  }

  lemma FourOctetsJoin(p: nat)
    requires 0x10000 <= p <= 0x10ffff
    ensures var c, b1, b2, b3 := 0xf0 + p / 262144, 0x80 + p / 4096 % 64, 0x80 + p / 64 % 64, 0x80 + p % 64;
            0xf0 <= c <= 0xf4 && Utf8.Tail(b1) && Utf8.Tail(b2) && Utf8.Tail(b3) && Utf8.FourOctets(c, b1, b2, b3) == p
  {
    var r := p / 64;
    var q := r / 64;
    assert p == r * 64 + p % 64 && r == q * 64 + r % 64;
    assert p / 4096 == q && p / 262144 == q / 64;
    assert (0xf0 + q / 64) % 8 == q / 64 && (0x80 + q % 64) % 64 == q % 64;
    assert (0x80 + r % 64) % 64 == r % 64 && (0x80 + p % 64) % 64 == p % 64;
  }

  lemma OctetsAreACharacter(p: nat, b: seq<byte>, i: nat)
    requires Scalar(p) && i + |Octets(p)| <= |b| && b[i..i + |Octets(p)|] == Octets(p)
    ensures Utf8.CharSize(b, i) == |Octets(p)| && CodePointAt(b, i) == p
  {
    var o := Octets(p);
    assert forall k :: 0 <= k < |o| ==> b[i + k] == o[k];
    if |o| == 1 {
      assert b[i] == o[0];
    } else if |o| == 2 {
      TwoOctetsJoin(p);
      assert b[i] == o[0] && b[i + 1] == o[1];
    } else if |o| == 3 {
      ThreeOctetsJoin(p);
      Utf8.ThreeOctetRange(o[0], o[1], o[2]);
      assert b[i] == o[0] && b[i + 1] == o[1] && b[i + 2] == o[2];
    } else {
      FourOctetsJoin(p);
      Utf8.FourOctetRange(o[0], o[1], o[2], o[3]);
      assert b[i] == o[0] && b[i + 1] == o[1] && b[i + 2] == o[2] && b[i + 3] == o[3];
    }
  }

  lemma UnitsAreACharacter(p: nat, s: Text, i: nat)
    requires Scalar(p) && i + |UnitsOf(p)| <= |s| && s[i..i + |UnitsOf(p)|] == UnitsOf(p)
    ensures UnitsAt(s, i) == |UnitsOf(p)| && PointAt(s, i) == p
  {
    var u := UnitsOf(p);
    assert forall k :: 0 <= k < |u| ==> s[i + k] == u[k];
  }

  lemma UnitsOfPoint(s: Text, i: nat)
    requires i < |s| && UnitsAt(s, i) > 0
    ensures UnitsOf(PointAt(s, i)) == s[i..i + UnitsAt(s, i)]
  {
  }

  lemma SuffixSplit<T>(s: seq<T>, i: nat, head: seq<T>, rest: seq<T>)
    requires i <= |s| && s[i..] == head + rest
    ensures i + |head| <= |s| && s[i..i + |head|] == head && s[i + |head|..] == rest
  {
    assert |s[i..]| == |head| + |rest|;
    assert s[i..i + |head|] == s[i..][..|head|];
    assert s[i + |head|..] == s[i..][|head|..];
  }

  lemma SuffixJoin<T>(s: seq<T>, i: nat, n: nat)
    requires i + n <= |s|
    ensures s[i..] == s[i..i + n] + s[i + n..]
  {
  }

  lemma DecodeStep(b: seq<byte>, j: nat, p: nat)
    requires j < |b| && Utf8.CharSize(b, j) > 0 && Scalar(p) && CodePointAt(b, j) == p
    requires Utf8.WellFormedFrom(b, j + Utf8.CharSize(b, j))
    ensures Utf8.WellFormedFrom(b, j) && DecodeFrom(b, j) == UnitsOf(p) + DecodeFrom(b, j + Utf8.CharSize(b, j))
  {
  }

  /** The same character in text and in octets, with what follows it in both. */
  ghost predicate SameCharacter(s: Text, i: nat, b: seq<byte>, j: nat) {
    && i < |s| && j < |b| && UnitsAt(s, i) > 0 && Utf8.CharSize(b, j) > 0
    && CodePointAt(b, j) == PointAt(s, i)
  }

  /** The octets of the text from `i` on, if it has an encoding. */
  ghost function Encoded(s: Text, i: nat): Option<seq<byte>>
    requires i <= |s|
  {
    if PairedFrom(s, i) then Some(EncodeFrom(s, i)) else None
  }

  /** The text of the octets from `j` on, if they are well-formed. */
  ghost function Decoded(b: seq<byte>, j: nat): Option<Text>
    requires j <= |b|
  {
    if Utf8.WellFormedFrom(b, j) then Some(DecodeFrom(b, j)) else None
  }

  /** Text put before the rest, if there is one. */
  ghost function Before(done: Text, rest: Option<Text>): Option<Text> {
    if rest.Some? then Some(done + rest.value) else None
  }

  lemma EncodedCharacter(s: Text, i: nat, b: seq<byte>, j: nat)
    requires i < |s| && j <= |b| && Encoded(s, i) == Some(b[j..])
    ensures SameCharacter(s, i, b, j)
    ensures Encoded(s, i + UnitsAt(s, i)) == Some(b[j + Utf8.CharSize(b, j)..])
  {
    var p := PointAt(s, i);
    SuffixSplit(b, j, Octets(p), EncodeFrom(s, i + UnitsAt(s, i)));
    OctetsAreACharacter(p, b, j);
  }

  lemma DecodedCharacter(b: seq<byte>, j: nat, s: Text, i: nat)
    requires j < |b| && i <= |s| && Decoded(b, j) == Some(s[i..])
    ensures SameCharacter(s, i, b, j)
    ensures Decoded(b, j + Utf8.CharSize(b, j)) == Some(s[i + UnitsAt(s, i)..])
  {
    ScalarAt(b, j);
    var p := CodePointAt(b, j);
    SuffixSplit(s, i, UnitsOf(p), DecodeFrom(b, j + Utf8.CharSize(b, j)));
    UnitsAreACharacter(p, s, i);
  }

  lemma DecodeOne(s: Text, i: nat, b: seq<byte>, j: nat)
    requires SameCharacter(s, i, b, j)
    requires Decoded(b, j + Utf8.CharSize(b, j)) == Some(s[i + UnitsAt(s, i)..])
    ensures Decoded(b, j) == Some(s[i..])
  {
    DecodeStep(b, j, PointAt(s, i));
    UnitsOfPoint(s, i);
    SuffixJoin(s, i, UnitsAt(s, i));
  }

  lemma EncodeOne(s: Text, i: nat, b: seq<byte>, j: nat)
    requires SameCharacter(s, i, b, j)
    requires Encoded(s, i + UnitsAt(s, i)) == Some(b[j + Utf8.CharSize(b, j)..])
    ensures Encoded(s, i) == Some(b[j..])
  {
    ScalarAt(b, j);
    SuffixJoin(b, j, Utf8.CharSize(b, j));
  }

  lemma NothingLeft(s: Text, i: nat, b: seq<byte>, j: nat)
    requires i <= |s| && j <= |b| && (i == |s| || j == |b|)
    ensures i == |s| && Encoded(s, i) == Some(b[j..]) ==> Decoded(b, j) == Some(s[i..])
    ensures j == |b| && Decoded(b, j) == Some(s[i..]) ==> Encoded(s, i) == Some(b[j..])
  {
    assert s[|s|..] == [] && b[|b|..] == [];
    assert |s[i..]| == |s| - i && |b[j..]| == |b| - j;
  }

  /** Every well-formed string encodes to well-formed UTF-8, which decodes to the same string. */
  lemma {:induction false} DecodeEncode(s: Text, i: nat, b: seq<byte>, j: nat)
    requires i <= |s| && j <= |b| && Encoded(s, i) == Some(b[j..])
    ensures Decoded(b, j) == Some(s[i..])
    decreases |s| - i
  {
    if i == |s| {
      NothingLeft(s, i, b, j);
    } else {
      EncodedCharacter(s, i, b, j);
      DecodeEncode(s, i + UnitsAt(s, i), b, j + Utf8.CharSize(b, j));
      DecodeOne(s, i, b, j);
    }
  }

  /** And well-formed UTF-8 decodes to a string without lone surrogates, which encodes to the same octets. */
  lemma {:induction false} EncodeDecode(b: seq<byte>, j: nat, s: Text, i: nat)
    requires i <= |s| && j <= |b| && Decoded(b, j) == Some(s[i..])
    ensures Encoded(s, i) == Some(b[j..])
    decreases |b| - j
  {
    if j == |b| {
      NothingLeft(s, i, b, j);
    } else {
      DecodedCharacter(b, j, s, i);
      EncodeDecode(b, j + Utf8.CharSize(b, j), s, i + UnitsAt(s, i));
      EncodeOne(s, i, b, j);
    }
  }

  lemma WellFormedText(b: seq<byte>)
    requires Utf8.WellFormed(b)
    ensures PairedFrom(DecodeFrom(b, 0), 0) && EncodeFrom(DecodeFrom(b, 0), 0) == b
  {
    var s := DecodeFrom(b, 0);
    assert s[0..] == s && b[0..] == b;
    EncodeDecode(b, 0, s, 0);
  }

  lemma PairedText(s: Text)
    requires PairedFrom(s, 0)
    ensures Utf8.WellFormed(EncodeFrom(s, 0)) && DecodeFrom(EncodeFrom(s, 0), 0) == s
  {
    var b := EncodeFrom(s, 0);
    assert s[0..] == s && b[0..] == b;
    DecodeEncode(s, 0, b, 0);
  }

  // ---- hex ----

  function HexDigit(n: nat): unit
    requires n < 16
  {
    if n < 10 then 48 + n else 55 + n
  }

  const DIGITS: string := "0123456789ABCDEF"

  /** The digits are those of the facades' table, in its order, and lower case is accepted as well. */
  lemma DigitTable(n: nat)
    requires n < 16
    ensures HexDigit(n) == DIGITS[n] as int && Nibble(DIGITS[n] as int) == n
    ensures n >= 10 ==> Nibble(DIGITS[n] as int + 32) == n
  {
  }

  /** -1 for anything that is not a hex digit. */
  function Nibble(code: unit): (n: int)
    ensures -1 <= n < 16
  {
    if 48 <= code <= 57 then code - 48
    else if 65 <= code <= 70 then code - 55
    else if 97 <= code <= 102 then code - 87
    else -1
  }

  predicate IsHex(hex: Text) {
    |hex| % 2 == 0 && forall i :: 0 <= i < |hex| ==> Nibble(hex[i]) >= 0
  }

  function HexByte(value: byte): Text {
    [HexDigit(value / 16), HexDigit(value % 16)]
  }

  function HexOf(b: seq<byte>): (hex: Text)
    ensures |hex| == 2 * |b|
    ensures forall i :: 0 <= i < |b| ==> hex[2 * i] == HexDigit(b[i] / 16) && hex[2 * i + 1] == HexDigit(b[i] % 16)
  {
    if b == [] then [] else HexOf(b[..|b| - 1]) + HexByte(b[|b| - 1])
  }

  function BytesOf(hex: Text): (b: seq<byte>)
    requires IsHex(hex)
    ensures |b| == |hex| / 2
    ensures forall i :: 0 <= i < |b| ==> b[i] == Nibble(hex[2 * i]) * 16 + Nibble(hex[2 * i + 1])
  {
    seq(|hex| / 2, i requires 0 <= i < |hex| / 2 => Nibble(hex[2 * i]) * 16 + Nibble(hex[2 * i + 1]))
  }

  /** toUpperCase, on hex digits. */
  function Upper(hex: Text): (upper: Text)
    ensures |upper| == |hex|
    ensures forall i :: 0 <= i < |hex| ==> upper[i] == if 97 <= hex[i] <= 122 then hex[i] - 32 else hex[i]
  {
    seq(|hex|, i requires 0 <= i < |hex| => if 97 <= hex[i] <= 122 then hex[i] - 32 else hex[i])
  }

  lemma PairwiseEqual(x: Text, y: Text)
    requires |x| == |y| && |x| % 2 == 0
    requires forall i :: 0 <= i < |x| / 2 ==> x[2 * i] == y[2 * i] && x[2 * i + 1] == y[2 * i + 1]
    ensures x == y
  {
    forall k | 0 <= k < |x| ensures x[k] == y[k] {
      var i := k / 2;
      assert k == 2 * i || k == 2 * i + 1;
    }
  }

  lemma DigitNibble(code: unit)
    requires Nibble(code) >= 0
    ensures HexDigit(Nibble(code)) == if 97 <= code <= 122 then code - 32 else code
  {
  }

  lemma TwoDigits(high: nat, low: nat)
    requires low < 16
    ensures (high * 16 + low) / 16 == high && (high * 16 + low) % 16 == low
  {
  }

  lemma NibbleDigit(n: nat)
    requires n < 16
    ensures Nibble(HexDigit(n)) == n
  {
  }

  lemma HexRoundTrip(b: seq<byte>)
    ensures IsHex(HexOf(b)) && BytesOf(HexOf(b)) == b
  {
    var hex := HexOf(b);
    forall k | 0 <= k < |hex| ensures Nibble(hex[k]) >= 0 {
      var i := k / 2;
      assert k == 2 * i || k == 2 * i + 1;
      NibbleDigit(b[i] / 16);
      NibbleDigit(b[i] % 16);
    }
    forall i | 0 <= i < |b| ensures BytesOf(hex)[i] == b[i] {
      NibbleDigit(b[i] / 16);
      NibbleDigit(b[i] % 16);
    }
  }

  /** Hex is only normalised to upper case by going through the bytes. */
  lemma BytesRoundTrip(hex: Text)
    requires IsHex(hex)
    ensures HexOf(BytesOf(hex)) == Upper(hex)
  {
    var b := BytesOf(hex);
    forall i | 0 <= i < |b|
      ensures HexOf(b)[2 * i] == Upper(hex)[2 * i] && HexOf(b)[2 * i + 1] == Upper(hex)[2 * i + 1]
    {
      var high, low := Nibble(hex[2 * i]), Nibble(hex[2 * i + 1]);
      assert high >= 0 && low >= 0 && b[i] == high * 16 + low;
      TwoDigits(high, low);
      DigitNibble(hex[2 * i]);
      DigitNibble(hex[2 * i + 1]);
    }
    PairwiseEqual(HexOf(b), Upper(hex));
  }

  lemma HexAppendOctet(a: seq<byte>, value: byte)
    ensures HexOf(a + [value]) == HexOf(a) + HexByte(value)
  {
    assert (a + [value])[..|a|] == a;
  }

  // ---- the transport ----

  predicate Transportable(text: Text) {
    PairedFrom(text, 0)
  }

  function ToHex(text: Text): Text
    requires Transportable(text)
  {
    HexOf(EncodeFrom(text, 0))
  }

  predicate Receivable(hex: Text) {
    IsHex(hex) && Utf8.WellFormed(BytesOf(hex))
  }

  function FromHex(hex: Text): Text
    requires Receivable(hex)
  {
    DecodeFrom(BytesOf(hex), 0)
  }

  /** Text survives the transport unchanged. */
  lemma TextRoundTrip(text: Text)
    requires Transportable(text)
    ensures Receivable(ToHex(text)) && FromHex(ToHex(text)) == text
  {
    var b := EncodeFrom(text, 0);
    HexRoundTrip(b);
    DecodeEncode(text, 0, b, 0);
  }

  /** Whatever is received is sent back as the same hex in upper case. */
  lemma HexTextRoundTrip(hex: Text)
    requires Receivable(hex)
    ensures Transportable(FromHex(hex)) && ToHex(FromHex(hex)) == Upper(hex)
  {
    EncodeDecode(BytesOf(hex), 0, FromHex(hex), 0);
    BytesRoundTrip(hex);
  }
}
