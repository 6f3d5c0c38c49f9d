/** The 4-bit register array of hll/include/Hll4Array-internal.hpp: a nibble per slot holds the
  * register above a moving minimum, or the token 15 for the slots of the exception map.
  */
module Hll4Spec {
  const AUX_TOKEN: nat := 15

  /** First sizes of the exception map, by lgK. */
  const LG_AUX_ARR_INTS: seq<nat> :=
    [0, 2, 2, 2, 2, 2, 2, 3, 3, 3, 4, 4, 5, 5, 6, 7, 8, 9, 10, 11, 12, 13, 14, 15, 16, 17, 18]

  /** The nibble of a slot: the low half of a byte for even slots, the high half for odd ones. */
  function Nibble(bytes: seq<nat>, slot: nat): (v: nat)
    requires slot < 2 * |bytes|
  {
    if slot % 2 == 1 then bytes[slot / 2] / 16 else bytes[slot / 2] % 16
  }

  function WithNibble(bytes: seq<nat>, slot: nat, v: nat): (r: seq<nat>)
    requires slot < 2 * |bytes|
    ensures |r| == |bytes|
  {
    var b := bytes[slot / 2];
    bytes[slot / 2 := if slot % 2 == 0 then b / 16 * 16 + v % 16 else b % 16 + v % 16 * 16]
  }

  lemma NibblePut(bytes: seq<nat>, slot: nat, v: nat, j: nat)
    requires slot < 2 * |bytes| && j < 2 * |bytes| && v < 16
    ensures Nibble(WithNibble(bytes, slot, v), j) == if j == slot then v else Nibble(bytes, j)
  {
    if j / 2 == slot / 2 { NibbleParts(bytes[slot / 2], v); }
  }

  lemma NibbleParts(b: nat, v: nat)
    requires v < 16
    ensures (b / 16 * 16 + v % 16) % 16 == v && (b / 16 * 16 + v % 16) / 16 == b / 16
    ensures (b % 16 + v % 16 * 16) % 16 == b % 16 && (b % 16 + v % 16 * 16) / 16 == v
  {}

  /** The register r of slot i, above curMin. */
  ghost predicate SlotHolds(bytes: seq<nat>, curMin: nat, aux: map<nat, nat>, i: nat, r: nat)
    requires i < 2 * |bytes|
  {
    && curMin <= r <= 63
    && Nibble(bytes, i) == (if r - curMin < AUX_TOKEN then r - curMin else AUX_TOKEN)
    && (i in aux <==> r - curMin >= AUX_TOKEN)
    && (i in aux ==> aux[i] == r)
  }

  /** Nibbles, minimum and exceptions stand for the registers. */
  ghost predicate Encodes(bytes: seq<nat>, curMin: nat, aux: map<nat, nat>, regs: seq<nat>) {
    && 2 * |bytes| == |regs|
    && (forall i :: 0 <= i < |regs| ==> SlotHolds(bytes, curMin, aux, i, regs[i]))
    && (forall k :: k in aux ==> k < |regs|)
  }

  ghost function Decode(bytes: seq<nat>, curMin: nat, aux: map<nat, nat>): (regs: seq<nat>) {
    seq(2 * |bytes|, i requires 0 <= i < 2 * |bytes| =>
      if Nibble(bytes, i) != AUX_TOKEN then Nibble(bytes, i) + curMin else if i in aux then aux[i] else 0)
  }

  lemma DecodeIs(bytes: seq<nat>, curMin: nat, aux: map<nat, nat>, regs: seq<nat>)
    requires Encodes(bytes, curMin, aux, regs)
    ensures Decode(bytes, curMin, aux) == regs
  {}

  lemma EncodesAt(bytes: seq<nat>, curMin: nat, aux: map<nat, nat>, regs: seq<nat>, i: nat)
    requires Encodes(bytes, curMin, aux, regs) && i < |regs|
    ensures 2 * |bytes| == |regs| && SlotHolds(bytes, curMin, aux, i, regs[i])
  {}

  /** Only slot changes. */
  lemma SlotKept(bytes: seq<nat>, curMin: nat, aux: map<nat, nat>, slot: nat, nib: nat, v: nat, i: nat, r: nat)
    requires slot < 2 * |bytes| && i < 2 * |bytes| && i != slot && nib < 16 && SlotHolds(bytes, curMin, aux, i, r)
    ensures SlotHolds(WithNibble(bytes, slot, nib), curMin, aux, i, r)
    ensures SlotHolds(WithNibble(bytes, slot, nib), curMin, aux[slot := v], i, r)
    ensures SlotHolds(bytes, curMin, aux[slot := v], i, r)
  {}

  /** The three ways of raising a register. */
  lemma EncodesException(bytes: seq<nat>, curMin: nat, aux: map<nat, nat>, regs: seq<nat>, slot: nat, v: nat)
    requires Encodes(bytes, curMin, aux, regs) && slot < |regs| && slot in aux && regs[slot] < v <= 63
    ensures Encodes(bytes, curMin, aux[slot := v], regs[slot := v])
  {}

  lemma EncodesToken(bytes: seq<nat>, curMin: nat, aux: map<nat, nat>, regs: seq<nat>, slot: nat, v: nat)
    requires Encodes(bytes, curMin, aux, regs) && slot < |regs| && curMin + AUX_TOKEN <= v <= 63
    ensures Encodes(WithNibble(bytes, slot, AUX_TOKEN), curMin, aux[slot := v], regs[slot := v])
  {}

  lemma EncodesNibble(bytes: seq<nat>, curMin: nat, aux: map<nat, nat>, regs: seq<nat>, slot: nat, v: nat)
    requires Encodes(bytes, curMin, aux, regs) && slot < |regs| && slot !in aux && curMin <= v < curMin + AUX_TOKEN && v <= 63
    ensures Encodes(WithNibble(bytes, slot, v - curMin), curMin, aux, regs[slot := v])
  {
    hide Nibble, SlotHolds, WithNibble;
    var after := regs[slot := v];
    forall i | 0 <= i < |after| ensures SlotHolds(WithNibble(bytes, slot, v - curMin), curMin, aux, i, after[i]) {
      EncodesAt(bytes, curMin, aux, regs, i);
      if i != slot { SlotKept(bytes, curMin, aux, slot, v - curMin, v, i, regs[i]); } else { SlotPut(bytes, curMin, aux, slot, v); }
    }
  }

  /** A slot written anew. */
  lemma SlotPut(bytes: seq<nat>, curMin: nat, aux: map<nat, nat>, slot: nat, v: nat)
    requires slot < 2 * |bytes| && curMin <= v <= 63
    requires if v - curMin < AUX_TOKEN then slot !in aux else slot in aux && aux[slot] == v
    ensures SlotHolds(WithNibble(bytes, slot, if v - curMin < AUX_TOKEN then v - curMin else AUX_TOKEN), curMin, aux, slot, v)
  {}

  // ---------- the next minimum ----------

  /** The nibble after the minimum moves up: one less, unless it is the token. */
  function LoweredNibble(x: nat): nat {
    if 0 < x < AUX_TOKEN then x - 1 else x
  }

  /** The slots before n are lowered. */
  ghost predicate Lowering(bytes: seq<nat>, was: seq<nat>, n: nat) {
    && |bytes| == |was|
    && forall j :: 0 <= j < 2 * |bytes| ==> Nibble(bytes, j) == if j < n then LoweredNibble(Nibble(was, j)) else Nibble(was, j)
  }

  lemma LoweringNext(bytes: seq<nat>, was: seq<nat>, n: nat)
    requires Lowering(bytes, was, n) && n < 2 * |bytes| && Nibble(bytes, n) > 0
    ensures Nibble(bytes, n) == Nibble(was, n)
    ensures Nibble(bytes, n) < AUX_TOKEN ==> Lowering(WithNibble(bytes, n, Nibble(bytes, n) - 1), was, n + 1)
    ensures Nibble(bytes, n) == AUX_TOKEN ==> Lowering(bytes, was, n + 1)
  {
    hide Nibble, WithNibble;
    if Nibble(bytes, n) < AUX_TOKEN {
      forall j | 0 <= j < 2 * |bytes|
        ensures Nibble(WithNibble(bytes, n, Nibble(bytes, n) - 1), j) == if j < n + 1 then LoweredNibble(Nibble(was, j)) else Nibble(was, j)
      {
        NibblePut(bytes, n, Nibble(bytes, n) - 1, j);
      }
    }
  }

  /** The exceptions still to be moved. */
  ghost predicate Shifting(bytes: seq<nat>, newMin: nat, aux: map<nat, nat>, regs: seq<nat>, pending: set<nat>) {
    && 2 * |bytes| == |regs|
    && (forall i :: 0 <= i < |regs| && i in pending ==>
          Nibble(bytes, i) == AUX_TOKEN && i !in aux && newMin + AUX_TOKEN - 1 <= regs[i] <= 63)
    && (forall i :: 0 <= i < |regs| && i !in pending ==> SlotHolds(bytes, newMin, aux, i, regs[i]))
    && (forall k :: k in aux ==> k < |regs|)
  }

  lemma ShiftStart(bytes: seq<nat>, was: seq<nat>, curMin: nat, aux: map<nat, nat>, regs: seq<nat>)
    requires Encodes(was, curMin, aux, regs) && Lowering(bytes, was, |regs|)
    requires forall i :: 0 <= i < |regs| ==> regs[i] > curMin
    ensures Shifting(bytes, curMin + 1, map[], regs, aux.Keys)
  {
    hide Nibble;
    forall i | 0 <= i < |regs|
      ensures i in aux ==> Nibble(bytes, i) == AUX_TOKEN && curMin + AUX_TOKEN <= regs[i] <= 63
      ensures i !in aux ==> SlotHolds(bytes, curMin + 1, map[], i, regs[i])
    {
      EncodesAt(was, curMin, aux, regs, i);
    }
  }

  lemma ShiftDown(bytes: seq<nat>, newMin: nat, aux: map<nat, nat>, regs: seq<nat>, pending: set<nat>, slot: nat)
    requires Shifting(bytes, newMin, aux, regs, pending) && slot < |regs| && slot in pending && regs[slot] == newMin + AUX_TOKEN - 1
    ensures Shifting(WithNibble(bytes, slot, AUX_TOKEN - 1), newMin, aux, regs, pending - {slot})
  {
    hide Nibble, WithNibble, SlotHolds;
    var b := WithNibble(bytes, slot, AUX_TOKEN - 1);
    forall i | 0 <= i < |regs|
      ensures i in pending - {slot} ==> Nibble(b, i) == AUX_TOKEN
      ensures i !in pending - {slot} ==> SlotHolds(b, newMin, aux, i, regs[i])
    {
      NibblePut(bytes, slot, AUX_TOKEN - 1, i);
      if i == slot { SlotPut(bytes, newMin, aux, slot, regs[slot]); }
      else if i !in pending { SlotKept(bytes, newMin, aux, slot, AUX_TOKEN - 1, 0, i, regs[i]); }
    }
  }

  lemma ShiftKeep(bytes: seq<nat>, newMin: nat, aux: map<nat, nat>, regs: seq<nat>, pending: set<nat>, slot: nat)
    requires Shifting(bytes, newMin, aux, regs, pending) && slot < |regs| && slot in pending && regs[slot] >= newMin + AUX_TOKEN
    ensures Shifting(bytes, newMin, aux[slot := regs[slot]], regs, pending - {slot})
  {}

  lemma ShiftDone(bytes: seq<nat>, newMin: nat, aux: map<nat, nat>, regs: seq<nat>)
    requires Shifting(bytes, newMin, aux, regs, {})
    ensures Encodes(bytes, newMin, aux, regs)
  {}
}

module Hll4Arrays {
  import opened Words
  import opened Sets
  import opened HllSpec
  import opened Hll4Spec
  import opened AuxHashMaps

  ghost function ContentsOf(aux: AuxHashMap?): (m: map<nat, nat>)
    reads aux
  {
    if aux == null then map[] else aux.Contents()
  }

  /** The members of s below n. */
  ghost function Below(s: set<nat>, n: nat): (r: set<nat>) {
    set k | k in s && k < n
  }

  class Hll4Array {
    const lgConfigK: nat
    var bytes: seq<nat>
    var curMin: nat
    var numAtCurMin: nat
    var aux: AuxHashMap?

    ghost predicate AuxValid()
      reads this, aux
    {
      aux != null ==> aux.Valid() && aux.lgConfigK == lgConfigK
    }

    /** The array stands for its registers, curMin is no larger than any of them, and numAtCurMin
      * counts those equal to it. */
    ghost predicate Shape()
      reads this, aux
    {
      && 4 <= lgConfigK <= 21
      && AuxValid()
      && |Regs()| == Pow2(lgConfigK)
      && Encodes(bytes, curMin, ContentsOf(aux), Regs())
      && numAtCurMin == CountAt(Regs(), curMin)
    }

    /** ... and curMin is the minimum. */
    ghost predicate Valid()
      reads this, aux
    {
      Shape() && numAtCurMin > 0
    }

    ghost function Regs(): (regs: seq<nat>)
      reads this, aux
    {
      Decode(bytes, curMin, ContentsOf(aux))
    }

    constructor (lgConfigK: nat)
      requires 4 <= lgConfigK <= 21
      ensures Valid() && Regs() == Registers([], lgConfigK) && aux == null && this.lgConfigK == lgConfigK
    {
      this.lgConfigK := lgConfigK;
      bytes := seq(Pow2(lgConfigK - 1), _ => 0);
      curMin, numAtCurMin, aux := 0, Pow2(lgConfigK), null;
      new;
      assert Regs() == Zeros(Pow2(lgConfigK));
      CountZeros(Pow2(lgConfigK));
    }

    function GetSlot(slotNo: nat): (v: nat)
      requires slotNo < 2 * |bytes|
      reads this
    {
      Nibble(bytes, slotNo)
    }

    method PutSlot(slotNo: nat, newValue: nat)
      requires slotNo < 2 * |bytes|
      modifies this`bytes
      ensures bytes == WithNibble(old(bytes), slotNo, newValue)
    {
      var byteNo, oldValue := slotNo / 2, bytes[slotNo / 2];
      if slotNo % 2 == 0 {
        bytes := bytes[byteNo := oldValue / 16 * 16 + newValue % 16];
      } else {
        bytes := bytes[byteNo := oldValue % 16 + newValue % 16 * 16];
      }
    }

    /** The register behind a raw nibble. */
    method AdjustRawValue(slot: nat, value: nat) returns (r: nat)
      requires Shape() && slot < Pow2(lgConfigK) && value == GetSlot(slot)
      ensures r == Regs()[slot]
    {
      hide Nibble, AuxHashMap.Valid, AuxHashMap.Contents, CountAt, Pow2, Decode;
      EncodesAt(bytes, curMin, ContentsOf(aux), Regs(), slot);
      if value != AUX_TOKEN { return value + curMin; }
      var found := aux.MustFindValueFor(slot);
      r := found.value;
    }

    method InternalCouponUpdate(coupon: nat)
      requires Valid() && IsCoupon(coupon)
      modifies this, aux
      ensures Valid() && Regs() == Raise(old(Regs()), SlotOf(coupon, lgConfigK), ValueOf(coupon))
      ensures aux == null || aux == old(aux) || fresh(aux)
    {
      hide Nibble, AuxHashMap.Valid, AuxHashMap.Contents, CountAt, Pow2, Decode, Low26, ValueOf;
      var newValue := ValueOf(coupon);
      var slotNo := SlotOf(coupon, lgConfigK);
      if newValue <= curMin {
        EncodesAt(bytes, curMin, ContentsOf(aux), Regs(), slotNo);
        return;
      }
      InternalHll4Update(slotNo, newValue);
    }

    method InternalHll4Update(slotNo: nat, newVal: nat)
      requires Valid() && slotNo < Pow2(lgConfigK) && 0 < newVal <= 63
      modifies this, aux
      ensures Valid() && Regs() == Raise(old(Regs()), slotNo, newVal)
      ensures aux == null || aux == old(aux) || fresh(aux)
    {
      hide Nibble, AuxHashMap.Valid, AuxHashMap.Contents, CountAt, Pow2, Decode;
      ghost var regs := Regs();
      EncodesAt(bytes, curMin, ContentsOf(aux), regs, slotNo);
      var rawStoredOldValue := GetSlot(slotNo);
      var lbOnOldValue := rawStoredOldValue + curMin;
      if newVal > lbOnOldValue {
        var actualOldValue := AdjustRawValue(slotNo, rawStoredOldValue);
        if newVal > actualOldValue {
          CountPut(regs, slotNo, newVal, curMin);
          Store(slotNo, newVal, rawStoredOldValue);
          if actualOldValue == curMin {
            numAtCurMin := numAtCurMin - 1;
            while numAtCurMin == 0
              invariant Shape() && Regs() == regs[slotNo := newVal] && (aux == null || aux == old(aux) || fresh(aux))
              decreases 63 - curMin
            {
              ShiftToBiggerCurMin();
            }
          }
        }
      }
    }

    /** Stores a larger value: as a nibble, as a new exception, or in place of an exception. */
    method Store(slotNo: nat, newVal: nat, rawStoredOldValue: nat)
      requires Shape() && slotNo < Pow2(lgConfigK) && rawStoredOldValue == GetSlot(slotNo)
      requires Regs()[slotNo] < newVal <= 63
      modifies this`bytes, this`aux, aux
      ensures AuxValid() && Encodes(bytes, curMin, ContentsOf(aux), Regs()) && Regs() == old(Regs())[slotNo := newVal]
      ensures aux == old(aux) || fresh(aux)
    {
      hide Nibble, WithNibble, AuxHashMap.Valid, AuxHashMap.Contents, CountAt, Pow2, Decode, Encodes;
      ghost var regs, m := Regs(), ContentsOf(aux);
      EncodesAt(bytes, curMin, m, regs, slotNo);
      var shiftedNewValue := newVal - curMin;
      if rawStoredOldValue == AUX_TOKEN {
        assert shiftedNewValue >= AUX_TOKEN;
        EncodesException(bytes, curMin, m, regs, slotNo, newVal);
        var ok := aux.MustReplace(slotNo, newVal);
        assert ok;
      } else if shiftedNewValue >= AUX_TOKEN {
        EncodesToken(bytes, curMin, m, regs, slotNo, newVal);
        PutSlot(slotNo, AUX_TOKEN);
        aux := AddException(aux, lgConfigK, slotNo, newVal);
      } else {
        EncodesNibble(bytes, curMin, m, regs, slotNo, newVal);
        PutSlot(slotNo, shiftedNewValue);
      }
      DecodeIs(bytes, curMin, ContentsOf(aux), regs[slotNo := newVal]);
    }

    /** Moves the minimum up by one and rebuilds the exception map. */
    method ShiftToBiggerCurMin()
      requires Shape() && numAtCurMin == 0
      modifies this
      ensures Shape() && Regs() == old(Regs()) && curMin == old(curMin) + 1 <= 63
      ensures aux == null || fresh(aux)
    {
      hide Nibble, WithNibble, AuxHashMap.Valid, AuxHashMap.Contents, CountAt, Pow2, Decode, Encodes, Shifting, Lowering, KeysOf;
      ghost var regs, m := Regs(), ContentsOf(aux);
      var newCurMin := curMin + 1;
      AllAbove(bytes, curMin, m, regs);
      SomeRegister(lgConfigK);
      assert curMin < regs[0] <= 63;
      var numAtNewCurMin, numAuxTokens := LowerNibbles(regs);
      ShiftStart(bytes, old(bytes), curMin, m, regs);
      var newAux: AuxHashMap? := null;
      if aux != null {
        var pairs := aux.Pairs();
        PairsHold(old(bytes), curMin, m, regs, pairs);
        newAux, numAuxTokens := MoveExceptions(pairs, newCurMin, numAuxTokens, regs);
      } else {
        assert numAuxTokens == 0;
        ShiftDone(bytes, newCurMin, map[], regs);
      }
      aux := newAux;
      curMin, numAtCurMin := newCurMin, numAtNewCurMin;
      DecodeIs(bytes, curMin, ContentsOf(aux), regs);
    }

    /** Lowers every nibble below the token, and counts the new minimum and the tokens. */
    method LowerNibbles(ghost regs: seq<nat>) returns (numAtNewCurMin: nat, numAuxTokens: nat)
      requires |regs| == Pow2(lgConfigK) && Encodes(bytes, curMin, ContentsOf(aux), regs)
      requires forall i :: 0 <= i < |regs| ==> regs[i] > curMin
      modifies this`bytes
      ensures Lowering(bytes, old(bytes), |regs|)
      ensures numAtNewCurMin == CountAt(regs, curMin + 1) && numAuxTokens == |ContentsOf(aux)|
    {
      hide Nibble, WithNibble, AuxHashMap.Contents, CountAt, Pow2, Lowering, Encodes;
      ghost var was, m := bytes, ContentsOf(aux);
      SomeRegister(lgConfigK);
      EncodesAt(bytes, curMin, m, regs, 0);
      BelowNext(m.Keys, 0);
      LoweringNone(bytes);
      CountNext(regs, 0, curMin + 1);
      numAtNewCurMin, numAuxTokens := 0, 0;
      var i := 0;
      while i < Pow2(lgConfigK)
        invariant i <= |regs| == 2 * |bytes| && Lowering(bytes, was, i)
        invariant numAtNewCurMin == CountAt(regs[..i], curMin + 1) && numAuxTokens == |Below(m.Keys, i)|
      {
        LoweringAt(bytes, was, i);
        EncodesAt(was, curMin, m, regs, i);
        LoweringNext(bytes, was, i);
        CountNext(regs, i, curMin + 1);
        BelowNext(m.Keys, i);
        var oldStoredValue := GetSlot(i);
        assert oldStoredValue != 0;
        if oldStoredValue < AUX_TOKEN {
          oldStoredValue := oldStoredValue - 1;
          PutSlot(i, oldStoredValue);
          if oldStoredValue == 0 { numAtNewCurMin := numAtNewCurMin + 1; }
        } else {
          numAuxTokens := numAuxTokens + 1;
          assert aux != null;
        }
        i := i + 1;
      }
      assert regs[..i] == regs;
      AllBelow(was, curMin, m, regs);
    }

    /** Moves the exceptions that fit a nibble into the array and the others into a new map. */
    method MoveExceptions(pairs: seq<(nat, nat)>, newCurMin: nat, numTokens: nat, ghost regs: seq<nat>)
        returns (newAux: AuxHashMap?, numAuxTokens: nat)
      requires 4 <= lgConfigK <= 21 && |regs| == Pow2(lgConfigK) && numTokens == |pairs|
      requires Shifting(bytes, newCurMin, map[], regs, KeysOf(pairs[0..]))
      requires forall i :: 0 <= i < |pairs| ==> pairs[i].0 < |regs| && regs[pairs[i].0] == pairs[i].1
      requires forall i, j :: 0 <= i < j < |pairs| ==> pairs[i].0 != pairs[j].0
      modifies this`bytes
      ensures newAux != null ==> fresh(newAux) && newAux.Valid() && newAux.lgConfigK == lgConfigK && newAux.auxCount == numAuxTokens
      ensures Encodes(bytes, newCurMin, ContentsOf(newAux), regs)
    {
      hide Nibble, WithNibble, AuxHashMap.Valid, AuxHashMap.Contents, Pow2, Encodes, KeysOf, Shifting;
      newAux, numAuxTokens := null, numTokens;
      var i := 0;
      while i < |pairs|
        invariant i <= |pairs| && numAuxTokens == |ContentsOf(newAux)| + |pairs| - i
        invariant newAux != null ==> fresh(newAux) && newAux.Valid() && newAux.lgConfigK == lgConfigK
        invariant Shifting(bytes, newCurMin, ContentsOf(newAux), regs, KeysOf(pairs[i..]))
      {
        var slotNum, oldActualVal := pairs[i].0, pairs[i].1;
        KeysRest(pairs, i);
        ShiftAt(bytes, newCurMin, ContentsOf(newAux), regs, KeysOf(pairs[i..]), slotNum);
        assert oldActualVal >= newCurMin;
        var newShiftedVal := oldActualVal - newCurMin;
        assert GetSlot(slotNum) == AUX_TOKEN;
        if newShiftedVal < AUX_TOKEN {
          assert newShiftedVal == 14;
          ShiftDown(bytes, newCurMin, ContentsOf(newAux), regs, KeysOf(pairs[i..]), slotNum);
          PutSlot(slotNum, newShiftedVal);
          numAuxTokens := numAuxTokens - 1;
        } else {
          ShiftKeep(bytes, newCurMin, ContentsOf(newAux), regs, KeysOf(pairs[i..]), slotNum);
          newAux := AddException(newAux, lgConfigK, slotNum, oldActualVal);
        }
        i := i + 1;
      }
      NoKeys(pairs[i..]);
      ShiftDone(bytes, newCurMin, ContentsOf(newAux), regs);
      if newAux != null { AuxCount(newAux); }
    }
  }

  /** Adds an exception, to a new map if there is none yet. */
  method AddException(aux: AuxHashMap?, lgConfigK: nat, slotNo: nat, value: nat) returns (r: AuxHashMap)
    requires 4 <= lgConfigK <= 21 && slotNo < Pow2(lgConfigK) && value > 0 && slotNo !in ContentsOf(aux)
    requires aux != null ==> aux.Valid() && aux.lgConfigK == lgConfigK
    modifies aux
    ensures (r == aux || fresh(r)) && r.Valid() && r.lgConfigK == lgConfigK
    ensures r.Contents() == old(ContentsOf(aux))[slotNo := value] && |r.Contents()| == |old(ContentsOf(aux))| + 1
  {
    hide AuxHashMap.Valid, AuxHashMap.Contents, Pow2;
    if aux == null { r := new AuxHashMap(LG_AUX_ARR_INTS[lgConfigK], lgConfigK); } else { r := aux; }
    ghost var before := r.Contents();
    var ok := r.MustAdd(slotNo, value);
    assert ok;
    assert before[slotNo := value].Keys == before.Keys + {slotNo};
  }

  lemma AuxCount(aux: AuxHashMap)
    requires aux.Valid()
    ensures aux.auxCount == |aux.Contents()|
  {
    hide StrideTables.Items, MapOf, Unambiguous;
    TableUnambiguous(aux.entries, aux.lgConfigK);
    MapCount(StrideTables.Items(aux.entries), aux.lgConfigK);
  }

  lemma AllAbove(bytes: seq<nat>, curMin: nat, m: map<nat, nat>, regs: seq<nat>)
    requires Encodes(bytes, curMin, m, regs) && CountAt(regs, curMin) == 0
    ensures forall i :: 0 <= i < |regs| ==> curMin < regs[i] <= 63
  {
    forall i | 0 <= i < |regs| ensures curMin < regs[i] <= 63 {
      CountNone(regs, curMin, i);
      EncodesAt(bytes, curMin, m, regs, i);
    }
  }

  lemma SomeRegister(lgK: nat)
    ensures Pow2(lgK) > 0
  {}

  lemma LoweringNone(bytes: seq<nat>)
    ensures Lowering(bytes, bytes, 0)
  {}

  lemma LoweringAt(bytes: seq<nat>, was: seq<nat>, n: nat)
    requires Lowering(bytes, was, n) && n < 2 * |bytes|
    ensures |bytes| == |was| && Nibble(bytes, n) == Nibble(was, n)
  {}

  lemma BelowNext(s: set<nat>, n: nat)
    ensures |Below(s, n + 1)| == |Below(s, n)| + (if n in s then 1 else 0) && |Below(s, 0)| == 0
  {
    assert Below(s, 0) == {};
    assert Below(s, n + 1) == Below(s, n) + if n in s then {n} else {};
  }

  lemma AllBelow(bytes: seq<nat>, curMin: nat, m: map<nat, nat>, regs: seq<nat>)
    requires Encodes(bytes, curMin, m, regs)
    ensures Below(m.Keys, |regs|) == m.Keys
  {}

  lemma PairsHold(bytes: seq<nat>, curMin: nat, m: map<nat, nat>, regs: seq<nat>, pairs: seq<(nat, nat)>)
    requires Encodes(bytes, curMin, m, regs)
    requires forall i :: 0 <= i < |pairs| ==> pairs[i].0 in m && m[pairs[i].0] == pairs[i].1
    ensures forall i :: 0 <= i < |pairs| ==> pairs[i].0 < |regs| && regs[pairs[i].0] == pairs[i].1
    ensures pairs[0..] == pairs
  {}

  lemma KeysRest(pairs: seq<(nat, nat)>, i: nat)
    requires i < |pairs| && forall i, j :: 0 <= i < j < |pairs| ==> pairs[i].0 != pairs[j].0
    ensures pairs[i].0 in KeysOf(pairs[i..]) && KeysOf(pairs[i + 1..]) == KeysOf(pairs[i..]) - {pairs[i].0}
  {}

  lemma NoKeys(pairs: seq<(nat, nat)>)
    requires pairs == []
    ensures KeysOf(pairs) == {}
  {}

  lemma ShiftAt(bytes: seq<nat>, newMin: nat, aux: map<nat, nat>, regs: seq<nat>, pending: set<nat>, slot: nat)
    requires Shifting(bytes, newMin, aux, regs, pending) && slot in pending && slot < |regs|
    ensures 2 * |bytes| == |regs| && slot !in aux && Nibble(bytes, slot) == AUX_TOKEN && newMin + AUX_TOKEN - 1 <= regs[slot] <= 63
  {}

  /** curMin is the true minimum, and the exceptions are exactly the slots with a token. */
  lemma MinimumAndTokens(a: Hll4Array)
    requires a.Valid()
    ensures (forall j :: 0 <= j < |a.Regs()| ==> a.curMin <= a.Regs()[j]) && a.curMin in a.Regs()
    ensures 2 * |a.bytes| == |a.Regs()|
    ensures forall j :: 0 <= j < |a.Regs()| ==> (j in ContentsOf(a.aux) <==> a.GetSlot(j) == AUX_TOKEN)
  {
    hide Nibble, Decode, AuxHashMap.Valid, AuxHashMap.Contents, Pow2;
    var regs := a.Regs();
    var j := CountSome(regs, a.curMin);
    assert regs[j] in regs;
    forall j | 0 <= j < |regs| ensures a.curMin <= regs[j] && (j in ContentsOf(a.aux) <==> Nibble(a.bytes, j) == AUX_TOKEN) {
      EncodesAt(a.bytes, a.curMin, ContentsOf(a.aux), regs, j);
    }
  }

  /** Every run: the array decodes to the largest value offered for each slot. */
  method Replay(lgConfigK: nat, coupons: seq<nat>) returns (a: Hll4Array)
    requires 4 <= lgConfigK <= 21 && forall i :: 0 <= i < |coupons| ==> IsCoupon(coupons[i])
    ensures a.Valid() && a.Regs() == Registers(coupons, lgConfigK)
  {
    hide AuxHashMap.Valid, AuxHashMap.Contents, Encodes, CountAt, Decode, Pow2, Registers, IsCoupon;
    a := new Hll4Array(lgConfigK);
    assert coupons[..0] == [];
    var i := 0;
    while i < |coupons|
      invariant i <= |coupons| && fresh(a) && (a.aux != null ==> fresh(a.aux)) && a.lgConfigK == lgConfigK
      invariant a.Valid() && a.Regs() == Registers(coupons[..i], lgConfigK)
    {
      RegistersSnoc(coupons[..i], coupons[i], lgConfigK);
      assert coupons[..i + 1] == coupons[..i] + [coupons[i]];
      a.InternalCouponUpdate(coupons[i]);
      i := i + 1;
    }
    assert coupons[..i] == coupons;
  }
}
