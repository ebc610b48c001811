/**
 UTF-8 well-formedness. `WellFormed` is the grammar of section 4 of RFC 3629, stated on octets; the
 checkers of the repository are loops proved to accept exactly that grammar. Masks and shifts are
 written as division and remainder by the same powers of two.
 */
module Utf8 {
  import opened Common

  predicate Tail(b: byte) { 0x80 <= b <= 0xbf }

  /** The number of octets of the UTF8-char that starts at `i` by the RFC grammar, or 0 if there is none. */
  function CharSize(b: seq<byte>, i: nat): (n: nat)
    requires i <= |b|
    ensures i + n <= |b| && n <= 4
  {
    if i + 1 <= |b| && b[i] <= 0x7f then 1
    else if i + 2 <= |b| && 0xc2 <= b[i] <= 0xdf && Tail(b[i + 1]) then 2
    else if i + 3 <= |b| && Tail(b[i + 2]) && (
        || (b[i] == 0xe0 && 0xa0 <= b[i + 1] <= 0xbf)
        || (0xe1 <= b[i] <= 0xec && Tail(b[i + 1]))
        || (b[i] == 0xed && 0x80 <= b[i + 1] <= 0x9f)
        || (0xee <= b[i] <= 0xef && Tail(b[i + 1]))) then 3
    else if i + 4 <= |b| && Tail(b[i + 2]) && Tail(b[i + 3]) && (
        || (b[i] == 0xf0 && 0x90 <= b[i + 1] <= 0xbf)
        || (0xf1 <= b[i] <= 0xf3 && Tail(b[i + 1]))
        || (b[i] == 0xf4 && 0x80 <= b[i + 1] <= 0x8f)) then 4
    else 0
  }

  /** The octets from `i` on are a sequence of grammar characters. */
  predicate WellFormedFrom(b: seq<byte>, i: nat)
    requires i <= |b|
    decreases |b| - i
  {
    i == |b| || (CharSize(b, i) > 0 && WellFormedFrom(b, i + CharSize(b, i)))
  }

  /** UTF8-octets = *( UTF8-char ) */
  predicate WellFormed(b: seq<byte>) {
    WellFormedFrom(b, 0)
  }

  /** The six payload bits of a continuation octet, cc & 0x3f. */
  function Low6(b: byte): nat { b % 64 }

  /** The bits a lead octet contributes: c & 0x1f, c & 0x0f or c & 0x07 by its class. */
  function LeadBits(c: byte): nat {
    if c <= 0x7f then c
    else if c <= 0xdf then c % 32
    else if c <= 0xef then c % 16
    else c % 8
  }

  /** The number that a lead and the octets b[from..to] spell, as the code-point checkers accumulate it. */
  function Accumulate(lead: nat, b: seq<byte>, from: nat, to: nat): nat
    requires from <= to <= |b|
  {
    if from == to then lead else Accumulate(lead, b, from, to - 1) * 64 + Low6(b[to - 1])
  }

  function ThreeOctets(c: byte, b1: byte, b2: byte): nat {
    LeadBits(c) * 4096 + Low6(b1) * 64 + Low6(b2)
  }

  function FourOctets(c: byte, b1: byte, b2: byte, b3: byte): nat {
    LeadBits(c) * 262144 + Low6(b1) * 4096 + Low6(b2) * 64 + Low6(b3)
  }

  lemma ThreeOctetRange(c: byte, b1: byte, b2: byte)
    requires 0xe0 <= c <= 0xef && Tail(b1) && Tail(b2)
    ensures ThreeOctets(c, b1, b2) < 0x800 <==> c == 0xe0 && b1 < 0xa0
    ensures 0xd800 <= ThreeOctets(c, b1, b2) <= 0xdfff <==> c == 0xed && b1 >= 0xa0
  {
  }

  lemma FourOctetRange(c: byte, b1: byte, b2: byte, b3: byte)
    requires 0xf0 <= c <= 0xf4 && Tail(b1) && Tail(b2) && Tail(b3)
    ensures FourOctets(c, b1, b2, b3) < 0x10000 <==> c == 0xf0 && b1 < 0x90
    ensures FourOctets(c, b1, b2, b3) > 0x10ffff <==> c == 0xf4 && b1 >= 0x90
  {
  }

  /**
   The two ways of excluding overlong, surrogate and too-large characters agree: after the lead-octet
   and continuation tests, a range test on the number and the grammar's test on the second octet
   decide the same.
   */
  lemma CodePointDecidesGrammar(b: seq<byte>, i: nat, need: nat)
    requires 1 <= need <= 3 && i + need + 1 <= |b|
    requires need == 1 ==> 0xc2 <= b[i] <= 0xdf
    requires need == 2 ==> 0xe0 <= b[i] <= 0xef
    requires need == 3 ==> 0xf0 <= b[i] <= 0xf4
    requires forall k :: i < k <= i + need ==> Tail(b[k])
    ensures var code := Accumulate(LeadBits(b[i]), b, i + 1, i + need + 1);
            CharSize(b, i) == if || (need == 2 && (code < 0x800 || 0xd800 <= code <= 0xdfff))
                                 || (need == 3 && (code < 0x10000 || code > 0x10ffff)) then 0 else need + 1
    ensures need == 1 ==> !(0xd800 <= Accumulate(LeadBits(b[i]), b, i + 1, i + need + 1) <= 0xdfff)
    ensures need != 3 ==> Accumulate(LeadBits(b[i]), b, i + 1, i + need + 1) <= 0x10ffff
  {
    var lead := LeadBits(b[i]);
    assert Accumulate(lead, b, i + 1, i + 2) == lead * 64 + Low6(b[i + 1]);
    if need == 2 {
      ThreeOctetRange(b[i], b[i + 1], b[i + 2]);
      assert Accumulate(lead, b, i + 1, i + 3) == ThreeOctets(b[i], b[i + 1], b[i + 2]);
    } else if need == 3 {
      FourOctetRange(b[i], b[i + 1], b[i + 2], b[i + 3]);
      assert Accumulate(lead, b, i + 1, i + 4) == FourOctets(b[i], b[i + 1], b[i + 2], b[i + 3]);
    }
  }

  /** The first j octets after the lead at `i` are continuation octets, and `code` is what they spell so far. */
  ghost predicate TailsRead(b: seq<byte>, i: nat, j: nat, code: nat)
    requires i + j < |b|
  {
    && (forall k :: i < k <= i + j ==> Tail(b[k]))
    && code == Accumulate(LeadBits(b[i]), b, i + 1, i + 1 + j)
  }

  lemma TailReadNext(b: seq<byte>, i: nat, j: nat, code: nat)
    requires i + j + 1 < |b| && TailsRead(b, i, j, code) && Tail(b[i + 1 + j])
    ensures TailsRead(b, i, j + 1, code * 64 + Low6(b[i + 1 + j]))
  {
  }

  lemma TailRefused(b: seq<byte>, i: nat, need: nat, j: nat)
    requires 1 <= need <= 3 && j < need && i + need + 1 <= |b| && !Tail(b[i + 1 + j])
    requires need == 1 ==> 0xc2 <= b[i] <= 0xdf
    requires need == 2 ==> 0xe0 <= b[i] <= 0xef
    requires need == 3 ==> 0xf0 <= b[i] <= 0xf4
    ensures CharSize(b, i) == 0
  {
  }

  lemma OneCharacter(b: seq<byte>, i: nat)
    requires i < |b|
    ensures WellFormedFrom(b, i) == (CharSize(b, i) > 0 && WellFormedFrom(b, i + CharSize(b, i)))
  {
  }

  /** esdb_detail::valid_utf8 of the runtime: decodes the number, then tests its range. */
  method ValidUtf8(s: seq<byte>) returns (valid: bool)
    ensures valid == WellFormed(s)
  {
    var i: nat := 0;
    while i < |s|
      invariant i <= |s|
      invariant WellFormed(s) == WellFormedFrom(s, i)
    {
      ghost var start := i;
      OneCharacter(s, i);
      var c := s[i];
      i := i + 1;
      if c <= 0x7f {
        continue;
      }
      var code: nat, need: nat := 0, 0;
      if 0xc2 <= c <= 0xdf {
        code, need := c % 32, 1;
      } else if 0xe0 <= c <= 0xef {
        code, need := c % 16, 2;
      } else if 0xf0 <= c <= 0xf4 {
        code, need := c % 8, 3;
      } else {
        return false;
      }
      if i + need > |s| {
        return false;
      }
      var j := 0;
      while j < need
        invariant j <= need && i == start + 1 + j
        invariant TailsRead(s, start, j, code)
      {
        var cc := s[i];
        i := i + 1;
        if cc / 64 != 2 {
          TailRefused(s, start, need, j);
          return false;
        }
        TailReadNext(s, start, j, code);
        code := code * 64 + Low6(cc);
        j := j + 1;
      }
      CodePointDecidesGrammar(s, start, need);
      if (need == 2 && code < 0x800) || (need == 3 && code < 0x10000) {
        return false;
      }
      if 0xd800 <= code <= 0xdfff {
        return false;
      }
      if code > 0x10ffff {
        return false;
      }
    }
    return true;
  }

  /** utf8_valid of the ORM bridge: other bounds arithmetic, other continuation test, another order of range tests. */
  method BridgeUtf8Valid(bytes: seq<byte>) returns (valid: bool)
    ensures valid == WellFormed(bytes)
  {
    var i: nat := 0;
    while i < |bytes|
      invariant i <= |bytes|
      invariant WellFormed(bytes) == WellFormedFrom(bytes, i)
    {
      OneCharacter(bytes, i);
      var lead := bytes[i];
      var extra: nat, code: nat := 0, 0;
      if lead < 0x80 {
        i := i + 1;
        continue;
      }
      if 0xc2 <= lead <= 0xdf {
        extra, code := 1, lead % 32;
      } else if 0xe0 <= lead <= 0xef {
        extra, code := 2, lead % 16;
      } else if 0xf0 <= lead <= 0xf4 {
        extra, code := 3, lead % 8;
      } else {
        return false;
      }
      if i + extra >= |bytes| {
        return false;
      }
      var j := 1;
      while j <= extra
        invariant 1 <= j <= extra + 1
        invariant TailsRead(bytes, i, j - 1, code)
      {
        var continuation := bytes[i + j];
        if continuation < 0x80 || continuation > 0xbf {
          TailRefused(bytes, i, extra, j - 1);
          return false;
        }
        TailReadNext(bytes, i, j - 1, code);
        code := code * 64 + Low6(continuation);
        j := j + 1;
      }
      assert i + j == i + extra + 1;
      CodePointDecidesGrammar(bytes, i, extra);
      if extra == 2 && (code < 0x800 || 0xd800 <= code <= 0xdfff) {
        return false;
      }
      if extra == 3 && (code < 0x10000 || code > 0x10ffff) {
        return false;
      }
      i := i + extra + 1;
    }
    return true;
  }
}
