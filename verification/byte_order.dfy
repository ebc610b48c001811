/**
 The Store's key order: `ByteLess`, proved to be the lexicographic order on unsigned bytes, and that to be a strict
 total order.
 */
module ByteOrder {
  import opened Common

  predicate Below(a: seq<byte>, b: seq<byte>) {
    if b == [] then false
    else if a == [] then true
    else a[0] < b[0] || (a[0] == b[0] && Below(a[1..], b[1..]))
  }

  method ByteLess(left: seq<byte>, right: seq<byte>) returns (less: bool)
    ensures less == Below(left, right)
  {
    var common := if |left| < |right| then |left| else |right|;
    for i := 0 to common
      invariant Below(left, right) == Below(left[i..], right[i..])
    {
      if left[i] < right[i] {
        return true;
      }
      if left[i] > right[i] {
        return false;
      }
      assert left[i..][1..] == left[i + 1..] && right[i..][1..] == right[i + 1..];
    }
    return |left| < |right|;
  }

  lemma {:induction false} BelowIrreflexive(a: seq<byte>)
    ensures !Below(a, a)
  {
    if a != [] {
      BelowIrreflexive(a[1..]);
    }
  }

  lemma {:induction false} BelowTransitive(a: seq<byte>, b: seq<byte>, c: seq<byte>)
    requires Below(a, b) && Below(b, c)
    ensures Below(a, c)
  {
    if a != [] && a[0] == b[0] == c[0] {
      BelowTransitive(a[1..], b[1..], c[1..]);
    }
  }

  lemma BelowAsymmetric(a: seq<byte>, b: seq<byte>)
    ensures !(Below(a, b) && Below(b, a))
  {
    if Below(a, b) && Below(b, a) {
      BelowTransitive(a, b, a);
      BelowIrreflexive(a);
    }
  }

  lemma {:induction false} BelowTotal(a: seq<byte>, b: seq<byte>)
    ensures Below(a, b) || Below(b, a) || a == b
  {
    if a != [] && b != [] && a[0] == b[0] {
      BelowTotal(a[1..], b[1..]);
      assert a == [a[0]] + a[1..] && b == [b[0]] + b[1..];
    }
  }

  /** The strict order in quantified form, for proofs about sets of keys. */
  lemma StrictTotalOrder()
    ensures forall a: seq<byte> :: !Below(a, a)
    ensures forall a: seq<byte>, b: seq<byte>, c: seq<byte> :: Below(a, b) && Below(b, c) ==> Below(a, c)
    ensures forall a: seq<byte>, b: seq<byte> :: Below(a, b) || Below(b, a) || a == b
  {
    forall a: seq<byte> ensures !Below(a, a) { BelowIrreflexive(a); }
    forall a: seq<byte>, b: seq<byte>, c: seq<byte> | Below(a, b) && Below(b, c)
        ensures Below(a, c) { BelowTransitive(a, b, c); }
    forall a: seq<byte>, b: seq<byte> ensures Below(a, b) || Below(b, a) || a == b { BelowTotal(a, b); }
  }
}
