/**
 Generation-tagged handle tables. A token packs a slot number and the slot's generation into a positive 32-bit
 integer; closing advances the generation, and a slot whose generations are used up is retired rather than wrapped.
 The number of slot bits is a parameter: the ExternalObject adapter uses 8, the ORM bridge 6.
 */
module Handles {
  import opened Common
  import opened Arithmetic

  const INT32_MAX: nat := 0x7fff_ffff

  type DatabaseId = nat

  function Pow2(n: nat): (p: nat)
    ensures p >= 1
  {
    if n == 0 then 1 else 2 * Pow2(n - 1)
  }

  /** Slots are numbered from 1 inside a token, so that no token is zero. */
  function SlotCount(bits: nat): nat { Pow2(bits) - 1 }

  function GenerationMax(bits: nat): nat { INT32_MAX / Pow2(bits) }

  /** (generation << bits) | (slot + 1) */
  function Encode(bits: nat, slot: nat, generation: nat): int {
    generation * Pow2(bits) + (slot + 1)
  }

  datatype SlotRef = SlotRef(slot: nat, generation: nat)

  function Decode(bits: nat, token: int): Option<SlotRef> {
    if token <= 0 then None
    else
      var encodedSlot, generation := token % Pow2(bits), token / Pow2(bits);
      if encodedSlot == 0 || encodedSlot > SlotCount(bits) || generation == 0 || generation > GenerationMax(bits)
          then None
      else Some(SlotRef(encodedSlot - 1, generation))
  }

  lemma {:induction false} PowersAdd(a: nat, b: nat)
    ensures Pow2(a + b) == Pow2(a) * Pow2(b)
  {
    if a > 0 {
      PowersAdd(a - 1, b);
      assert 2 * Pow2(a - 1) * Pow2(b) == 2 * (Pow2(a - 1) * Pow2(b));
    }
  }

  lemma Power31()
    ensures Pow2(31) == 0x8000_0000
  {
    assert Pow2(2) == 4 && Pow2(3) == 8 && Pow2(4) == 16;
    PowersAdd(4, 4);
    PowersAdd(8, 8);
    PowersAdd(16, 8);
    PowersAdd(24, 4);
    PowersAdd(28, 3);
  }

  lemma PowersDivide(bits: nat)
    requires bits <= 31
    ensures Pow2(bits) * Pow2(31 - bits) == INT32_MAX + 1
  {
    PowersAdd(bits, 31 - bits);
    Power31();
  }

  lemma OneLessThanAMultiple(m: nat, p: nat, q: nat)
    requires p >= 1 && p * q == m + 1
    ensures (m / p + 1) * p == m + 1
  {
    if q >= 1 {
      assert (q - 1) * p == p * q - p;
      DivMod(q - 1, p, p - 1);
    }
  }

  /** The generations fill the rest of the 31 bits: the largest token is 2^31 - 1. */
  lemma GenerationRoom(bits: nat)
    requires bits <= 31
    ensures (GenerationMax(bits) + 1) * Pow2(bits) == INT32_MAX + 1
  {
    var p, q := Pow2(bits), Pow2(31 - bits);
    PowersDivide(bits);
    assert p >= 1 && p * q == INT32_MAX + 1;
    OneLessThanAMultiple(INT32_MAX, p, q);
    assert GenerationMax(bits) == INT32_MAX / p;
  }

  /** Decoding inverts encoding, and tokens are positive 32-bit integers. */
  lemma DecodeEncode(bits: nat, slot: nat, generation: nat)
    requires bits <= 31 && slot < SlotCount(bits) && 1 <= generation <= GenerationMax(bits)
    ensures 1 <= Encode(bits, slot, generation) <= INT32_MAX
    ensures Decode(bits, Encode(bits, slot, generation)) == Some(SlotRef(slot, generation))
  {
    var p := Pow2(bits);
    DivMod(generation, p, slot + 1);
    GenerationRoom(bits);
    MultipleLater(generation, GenerationMax(bits) + 1, p);
  }

  /** And encoding inverts decoding: two different tokens never name the same slot and generation. */
  lemma EncodeDecode(bits: nat, token: int)
    requires Decode(bits, token).Some?
    ensures var r := Decode(bits, token).value;
            && r.slot < SlotCount(bits) && 1 <= r.generation <= GenerationMax(bits)
            && Encode(bits, r.slot, r.generation) == token
  {
  }

  /** `database` is the open database, if any. */
  datatype Slot = Slot(database: Option<DatabaseId>, generation: nat, retired: bool)

  /** A slot whose handle was closed: free for the next generation, or retired if there is none. */
  function AfterClose(bits: nat, s: Slot): Slot {
    if s.generation < GenerationMax(bits) then Slot(None, s.generation + 1, false) else Slot(None, s.generation, true)
  }

  class SlotTable {
    const bits: nat
    const slots: array<Slot>
    /** Every token ever issued, and the database it was issued for. */
    ghost var owner: map<int, DatabaseId>
    ghost var closed: set<int>

    /** The state of the slot a token was issued from: unchanged since, or moved on for good. */
    ghost predicate TokenOk(token: int)
      reads this, slots
      requires token in owner
    {
      var r := Decode(bits, token);
      && r.Some?
      && r.value.slot < slots.Length
      && var s := slots[r.value.slot];
         if token in closed then r.value.generation < s.generation || (r.value.generation == s.generation && s.retired)
         else r.value.generation == s.generation && s.database == Some(owner[token])
    }

    ghost predicate SlotOk(i: nat)
      reads this, slots
      requires i < slots.Length
    {
      var s := slots[i];
      && s.generation <= GenerationMax(bits)
      && (s.database.Some? ==> !s.retired && s.generation >= 1)
      && (s.database.Some? ==> Encode(bits, i, s.generation) in owner && Encode(bits, i, s.generation) !in closed)
    }

    ghost predicate Valid()
      reads this, slots
    {
      && 1 <= bits <= 30
      && slots.Length == SlotCount(bits)
      && closed <= owner.Keys
      && (forall i :: 0 <= i < slots.Length ==> SlotOk(i))
      && (forall token :: token in owner ==> TokenOk(token))
    }

    /** The adapter starts every generation at 1; the bridge starts at 0 and corrects it on first use. */
    constructor (bits: nat, start: nat)
      requires 1 <= bits <= 30 && start <= 1
      ensures Valid() && this.bits == bits && owner == map[] && closed == {} && fresh(slots)
    {
      this.bits := bits;
      slots := new Slot[SlotCount(bits)](_ => Slot(None, start, false));
      owner, closed := map[], {};
      new;
      GenerationPositive(bits);
    }

    predicate Free(i: nat)
      reads slots
      requires i < slots.Length
    {
      slots[i].database.None? && !slots[i].retired
    }

    /** Resolving a token finds its own database, and does so exactly as long as it has not been closed. */
    method Lookup(token: int) returns (index: Option<nat>)
      requires Valid()
      ensures index.Some? <==> token in owner && token !in closed
      ensures index.Some? ==> index.value < slots.Length && slots[index.value].database == Some(owner[token])
      ensures index.Some? ==> Encode(bits, index.value, slots[index.value].generation) == token
    {
      var r := Decode(bits, token);
      if r.None? {
        return None;
      }
      EncodeDecode(bits, token);
      var slot := slots[r.value.slot];
      if slot.retired || slot.database.None? || slot.generation != r.value.generation {
        return None;
      }
      assert SlotOk(r.value.slot);
      return Some(r.value.slot);
    }

    /** Opening issues a token that was never issued before, or none when every slot is in use or retired. */
    method Open(database: DatabaseId) returns (token: int)
      requires Valid()
      modifies slots, this`owner
      ensures Valid()
      ensures token == 0 <==> forall i :: 0 <= i < slots.Length ==> !old(Free(i))
      ensures token == 0 ==> slots[..] == old(slots[..]) && owner == old(owner)
      ensures token != 0 ==> token !in old(owner) && owner == old(owner)[token := database]
      ensures token != 0 ==>
                && Decode(bits, token).Some?
                && var r := Decode(bits, token).value;
                && r.slot < slots.Length && old(Free(r.slot)) && (forall i :: 0 <= i < r.slot ==> !old(Free(i)))
                && r.generation == (if old(slots[r.slot].generation) == 0 then 1 else old(slots[r.slot].generation))
                && slots[..] == old(slots[..])[r.slot := Slot(Some(database), r.generation, false)]
                && token == r.generation * Pow2(bits) + r.slot + 1
      ensures 0 <= token <= INT32_MAX
    {
      var index := 0;
      while index < slots.Length && !(slots[index].database.None? && !slots[index].retired)
        invariant index <= slots.Length
        invariant forall i :: 0 <= i < index ==> !Free(i)
      {
        index := index + 1;
      }
      if index == slots.Length {
        return 0;
      }
      assert Free(index) && SlotOk(index);
      var generation := if slots[index].generation == 0 then 1 else slots[index].generation;
      GenerationRoom(bits);
      PowersDivide(bits + 1);
      GenerationPositive(bits);
      DecodeEncode(bits, index, generation);
      token := Encode(bits, index, generation);
      assert token in owner ==> TokenOk(token);
      slots[index] := Slot(Some(database), generation, false);
      owner := owner[token := database];
      forall t | t in owner ensures TokenOk(t) {
        if t != token {
          assert old(TokenOk(t));
        }
      }
      forall i | 0 <= i < slots.Length ensures SlotOk(i) {
        assert i != index ==> old(SlotOk(i));
      }
    }

    /** advance_generation: never wrap; a slot on its last generation is retired. */
    method Advance(index: nat, ghost token: int)
      requires 1 <= bits <= 30 && slots.Length == SlotCount(bits) && closed <= owner.Keys
      requires index < slots.Length && token in owner && token !in closed
      requires Encode(bits, index, slots[index].generation) == token
      requires slots[index].database == Some(owner[token])
      requires forall i :: 0 <= i < slots.Length ==> SlotOk(i)
      requires forall t :: t in owner ==> TokenOk(t)
      modifies slots, this`closed
      ensures Valid() && closed == old(closed) + {token}
      ensures forall i :: 0 <= i < slots.Length && i != index ==> slots[i] == old(slots[i])
      ensures slots[index] == AfterClose(bits, old(slots[index]))
    {
      assert SlotOk(index) && TokenOk(token);
      DecodeEncode(bits, index, slots[index].generation);
      slots[index] := slots[index].(database := None);
      if slots[index].generation >= GenerationMax(bits) {
        slots[index] := slots[index].(retired := true);
      } else {
        slots[index] := slots[index].(generation := slots[index].generation + 1);
      }
      closed := closed + {token};
      forall t | t in owner ensures TokenOk(t) {
        assert old(TokenOk(t));
        EncodeDecode(bits, t);
      }
      forall i | 0 <= i < slots.Length ensures SlotOk(i) {
        assert i != index ==> old(SlotOk(i));
        if i != index && slots[i].database.Some? {
          DecodeEncode(bits, i, slots[i].generation);
        }
      }
    }

    /** Closing works exactly for a live token, once; that token never resolves again and no other is affected. */
    method Close(token: int) returns (ok: bool)
      requires Valid()
      modifies slots, this`closed
      ensures Valid()
      ensures ok <==> token in owner && token !in old(closed)
      ensures closed == if ok then old(closed) + {token} else old(closed)
      ensures ok ==>
                && Decode(bits, token).Some?
                && var slot := Decode(bits, token).value.slot;
                && slot < slots.Length
                && slots[..] == old(slots[..])[slot := AfterClose(bits, old(slots[slot]))]
      ensures !ok ==> slots[..] == old(slots[..])
    {
      var index := Lookup(token);
      if index.None? {
        return false;
      }
      assert SlotOk(index.value) && TokenOk(token);
      DecodeEncode(bits, index.value, slots[index.value].generation);
      Advance(index.value, token);
      return true;
    }

    /** Termination closes every remaining handle, and the tokens stay used up for whatever comes after. */
    method Terminate()
      requires Valid()
      modifies slots, this`closed
      ensures Valid() && closed == owner.Keys
      ensures forall i :: 0 <= i < slots.Length ==>
                slots[i] == if old(slots[i]).database.Some? then AfterClose(bits, old(slots[i])) else old(slots[i])
    {
      for index := 0 to slots.Length
        invariant Valid()
        invariant forall i :: 0 <= i < index ==> slots[i].database.None?
        invariant forall i :: 0 <= i < index ==>
                    slots[i] == if old(slots[i]).database.Some? then AfterClose(bits, old(slots[i])) else old(slots[i])
        invariant forall i :: index <= i < slots.Length ==> slots[i] == old(slots[i])
      {
        if slots[index].database.Some? {
          assert SlotOk(index);
          ghost var token := Encode(bits, index, slots[index].generation);
          DecodeEncode(bits, index, slots[index].generation);
          assert TokenOk(token);
          Advance(index, token);
        }
      }
      forall t | t in owner ensures t in closed {
        assert TokenOk(t);
      }
    }
  }

  lemma GenerationPositive(bits: nat)
    requires bits <= 30
    ensures GenerationMax(bits) >= 1
  {
    var p, q := Pow2(bits), Pow2(31 - bits);
    assert q == 2 * Pow2(31 - bits - 1);
    GenerationRoom(bits);
    PowersDivide(bits);
    assert p * q == q * p;
    QuotientUnique(GenerationMax(bits) + 1, 0, q, 0, p);
  }
}
