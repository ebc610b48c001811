/**
 Canonical decimals: what a text of digits is worth, how numbers are printed, and the comparison of numbers by length
 and then by text that the JavaScript side uses because its own numbers are not exact to 64 bits.
 */
module Decimal {
  import opened Common
  import opened Utf16

  const MINUS: unit := 45
  const ZERO: unit := 48

  const INT64_MAX: nat := 0x7fff_ffff_ffff_ffff
  const INT64_MIN: int := -0x8000_0000_0000_0000
  const UINT32_MAX: nat := 0xffff_ffff
  const SAFE_MAX: nat := 9007199254740991

  predicate IsDigit(c: unit) { 48 <= c <= 57 }

  predicate Digits(t: Text) {
    forall i :: 0 <= i < |t| ==> IsDigit(t[i])
  }

  function ValueOf(t: Text): nat
    requires Digits(t)
  {
    if t == [] then 0 else ValueOf(t[..|t| - 1]) * 10 + (t[|t| - 1] - 48)
  }

  /** 0 | [1-9][0-9]* */
  predicate Canonical(t: Text) {
    t != [] && Digits(t) && (t[0] == ZERO ==> |t| == 1)
  }

  /** How every printer in the repository writes an unsigned number. */
  function Print(n: nat): Text {
    if n < 10 then [48 + n] else Print(n / 10) + [48 + n % 10]
  }

  /** Printing gives the canonical text of the number. */
  lemma {:induction false} PrintIsCanonical(n: nat)
    ensures Canonical(Print(n)) && ValueOf(Print(n)) == n
    ensures n > 0 ==> Print(n)[0] != ZERO
  {
    if n >= 10 {
      PrintIsCanonical(n / 10);
      var t := Print(n);
      assert t[..|t| - 1] == Print(n / 10);
    } else {
      assert Print(n)[..0] == [];
    }
  }

  /** And it is the only one: a canonical text is what printing its value gives. */
  lemma {:induction false} CanonicalIsPrinted(t: Text)
    requires Canonical(t)
    ensures Print(ValueOf(t)) == t
  {
    var front, d := t[..|t| - 1], t[|t| - 1];
    if front == [] {
      assert t == [d] && ValueOf(front) == 0;
    } else {
      assert front[0] == t[0];
      CanonicalIsPrinted(front);
      NonzeroIsPositive(front);
      var n := ValueOf(front);
      assert (n * 10 + (d - 48)) / 10 == n && (n * 10 + (d - 48)) % 10 == d - 48;
      assert t == front + [d];
    }
  }

  lemma {:induction false} NonzeroIsPositive(t: Text)
    requires Canonical(t) && t[0] != ZERO
    ensures ValueOf(t) > 0
  {
    var front := t[..|t| - 1];
    if front == [] {
      assert ValueOf(front) == 0;
    } else {
      assert front[0] == t[0];
      NonzeroIsPositive(front);
    }
  }

  // ---- comparison by length, then text ----

  /** The `<` of JavaScript strings. */
  predicate TextBelow(a: Text, b: Text) {
    b != [] && (a == [] || a[0] < b[0] || (a[0] == b[0] && TextBelow(a[1..], b[1..])))
  }

  lemma {:induction false} TextBelowLast(a: Text, x: unit, b: Text, y: unit)
    requires |a| == |b|
    ensures TextBelow(a + [x], b + [y]) <==> TextBelow(a, b) || (a == b && x < y)
  {
    if a == [] {
      assert a + [x] == [x] && b + [y] == [y];
    } else {
      assert (a + [x])[1..] == a[1..] + [x] && (b + [y])[1..] == b[1..] + [y];
      TextBelowLast(a[1..], x, b[1..], y);
      assert a == [a[0]] + a[1..] && b == [b[0]] + b[1..];
    }
  }

  /** Texts of the same length compare as their values do. */
  lemma {:induction false} SameLength(a: Text, b: Text)
    requires Digits(a) && Digits(b) && |a| == |b|
    ensures TextBelow(a, b) <==> ValueOf(a) < ValueOf(b)
    ensures a == b <==> ValueOf(a) == ValueOf(b)
  {
    if a != [] {
      var a', b' := a[..|a| - 1], b[..|b| - 1];
      var x, y := a[|a| - 1], b[|b| - 1];
      assert a == a' + [x] && b == b' + [y];
      SameLength(a', b');
      TextBelowLast(a', x, b', y);
    }
  }

  function Pow10(n: nat): nat {
    if n == 0 then 1 else 10 * Pow10(n - 1)
  }

  lemma {:induction false} Magnitude(t: Text)
    requires Digits(t)
    ensures ValueOf(t) < Pow10(|t|)
    ensures t != [] && t[0] != ZERO ==> ValueOf(t) >= Pow10(|t| - 1)
  {
    if t != [] {
      var front := t[..|t| - 1];
      Magnitude(front);
      if front != [] {
        assert front[0] == t[0];
      }
    }
  }

  lemma {:induction false} Pow10Monotone(m: nat, n: nat)
    requires m <= n
    ensures Pow10(m) <= Pow10(n)
  {
    if m < n {
      Pow10Monotone(m, n - 1);
    }
  }

  /** Shorter first, then by text. */
  predicate Exceeds(t: Text, maxText: Text) {
    |t| > |maxText| || (|t| == |maxText| && TextBelow(maxText, t))
  }

  /** On canonical texts the comparison decides the numbers exactly, whatever their size. */
  lemma LengthThenText(t: Text, maxText: Text)
    requires Canonical(t) && Canonical(maxText)
    ensures Exceeds(t, maxText) <==> ValueOf(t) > ValueOf(maxText)
  {
    if |t| == |maxText| {
      SameLength(maxText, t);
    } else if |t| > |maxText| {
      LongerIsGreater(t, maxText);
    } else {
      LongerIsGreater(maxText, t);
    }
  }

  lemma LongerIsGreater(t: Text, u: Text)
    requires Canonical(t) && Canonical(u) && |t| > |u|
    ensures ValueOf(t) > ValueOf(u)
  {
    Magnitude(t);
    Magnitude(u);
    Pow10Monotone(|u|, |t| - 1);
  }

  // ---- signed ----

  /** -?(0|[1-9][0-9]*) */
  predicate SignedSyntax(t: Text) {
    Canonical(t) || (t != [] && t[0] == MINUS && Canonical(t[1..]))
  }

  /** The one text of each integer: no "-0". */
  predicate CanonicalSigned(t: Text) {
    SignedSyntax(t) && t != [MINUS, ZERO]
  }

  function IntOf(t: Text): (n: int)
    requires SignedSyntax(t)
  {
    if t[0] == MINUS then 0 - ValueOf(t[1..]) else ValueOf(t)
  }

  function PrintInt(n: int): Text {
    if n < 0 then [MINUS] + Print(-n) else Print(n)
  }

  predicate InInt64(n: int) { INT64_MIN <= n <= INT64_MAX }

  lemma PrintIntIsCanonical(n: int)
    ensures CanonicalSigned(PrintInt(n)) && IntOf(PrintInt(n)) == n
  {
    PrintIsCanonical(if n < 0 then -n else n);
    if n < 0 {
      assert PrintInt(n)[1..] == Print(-n);
    }
  }

  lemma SignedIsPrinted(t: Text)
    requires CanonicalSigned(t)
    ensures PrintInt(IntOf(t)) == t
  {
    if t[0] == MINUS {
      var digits := t[1..];
      CanonicalIsPrinted(digits);
      assert t == [MINUS] + digits;
      assert digits[0] == ZERO ==> digits == [ZERO];
      NonzeroIsPositive(digits);
    } else {
      CanonicalIsPrinted(t);
    }
  }
}
