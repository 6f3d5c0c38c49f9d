/** The 8-bit register array of hll/include/Hll8Array-internal.hpp, and its merge with arrays of any
  * packing and of at least as many slots.
  */
module Hll8Arrays {
  import opened Words
  import opened HllSpec
  import opened Hll4Spec
  import opened Hll4Arrays
  import opened Hll6Arrays

  datatype HllArray = Hll4(a4: Hll4Array) | Hll6(a6: Hll6Array) | Hll8(a8: Hll8Array)

  ghost predicate ValidSource(src: HllArray)
    reads match src case Hll4(a) => {a, a.aux} case Hll6(a) => {a} case Hll8(a) => {a}
  {
    match src case Hll4(a) => a.Valid() case Hll6(a) => a.Valid() case Hll8(a) => a.Valid()
  }

  ghost function RegsOf(src: HllArray): (regs: seq<nat>)
    reads match src case Hll4(a) => {a, a.aux} case Hll6(a) => {a} case Hll8(a) => {a}
  {
    match src case Hll4(a) => a.Regs() case Hll6(a) => a.Regs() case Hll8(a) => a.bytes
  }

  function LgOf(src: HllArray): nat {
    match src case Hll4(a) => a.lgConfigK case Hll6(a) => a.lgConfigK case Hll8(a) => a.lgConfigK
  }

  class Hll8Array {
    const lgConfigK: nat
    /** One register a byte. */
    var bytes: seq<nat>
    var curMin: nat
    var numAtCurMin: nat
    /** Set by a merge, which leaves the counts for later. */
    var rebuildCurMin: bool

    /** The number of empty slots according to the counts. */
    ghost function EmptySlots(): nat
      reads this
    {
      if curMin == 0 then numAtCurMin else 0
    }

    /** The counts answer for the empty slots; after a merge there may be fewer. */
    ghost predicate Valid()
      reads this
    {
      && 4 <= lgConfigK <= 21 && |bytes| == Pow2(lgConfigK)
      && CountAt(bytes, 0) <= EmptySlots() && (!rebuildCurMin ==> CountAt(bytes, 0) == EmptySlots())
    }

    constructor (lgConfigK: nat)
      requires 4 <= lgConfigK <= 21
      ensures Valid() && bytes == Registers([], lgConfigK) && this.lgConfigK == lgConfigK && !rebuildCurMin
    {
      this.lgConfigK := lgConfigK;
      bytes := seq(Pow2(lgConfigK), _ => 0);
      curMin, numAtCurMin, rebuildCurMin := 0, Pow2(lgConfigK), false;
      new;
      assert bytes == Zeros(Pow2(lgConfigK));
      CountZeros(Pow2(lgConfigK));
    }

    method InternalCouponUpdate(coupon: nat)
      requires Valid()
      modifies this
      ensures Valid() && rebuildCurMin == old(rebuildCurMin) && bytes == Raise(old(bytes), SlotOf(coupon, lgConfigK), ValueOf(coupon))
      ensures curMin == old(curMin)
      ensures numAtCurMin == old(numAtCurMin)
                - if old(bytes)[SlotOf(coupon, lgConfigK)] == 0 < ValueOf(coupon) then 1 else 0
    {
      hide Pow2, CountAt, Low26, ValueOf;
      var slotNo := SlotOf(coupon, lgConfigK);
      var newVal := ValueOf(coupon);
      var curVal := bytes[slotNo];
      if newVal > curVal {
        CountPut(bytes, slotNo, newVal, 0);
        CountHas(bytes, slotNo, curVal);
        bytes := bytes[slotNo := newVal];
        numAtCurMin := numAtCurMin - if curVal == 0 then 1 else 0;
      }
    }

    /** Offers the value of source slot i to the register it folds to; with as many slots, to slot i. */
    method ProcessValue(i: nat, sameK: bool, value: nat, ghost dst: seq<nat>, ghost src: seq<nat>)
      requires 0 < |bytes| == |dst| && (sameK ==> i < |bytes|)
      requires i < |src| && value == src[i] && bytes == Processed(dst, src, i)
      modifies this`bytes
      ensures bytes == Processed(dst, src, i + 1)
    {
      if sameK { ModSmall(i, |bytes|); }
      var index := if sameK then i else i % |bytes|;
      bytes := bytes[index := Max(bytes[index], value)];
    }

    /** Takes in the registers of src, as if its coupons had been offered here. */
    method MergeHll(src: HllArray)
      requires Valid() && ValidSource(src) && lgConfigK <= LgOf(src)
      modifies this
      ensures Valid() && rebuildCurMin && curMin == old(curMin) && numAtCurMin == old(numAtCurMin)
      ensures |old(RegsOf(src))| == Pow2(LgOf(src))
      ensures bytes == Processed(old(bytes), old(RegsOf(src)), Pow2(LgOf(src)))
      ensures forall mine, theirs :: old(bytes) == Registers(mine, lgConfigK) && old(RegsOf(src)) == Registers(theirs, LgOf(src)) ==>
                bytes == Registers(mine + theirs, lgConfigK)
    {
      hide Pow2, CountAt, Processed, Registers, Hll4Array.Valid, Hll6Array.Valid;
      match src {
        case Hll8(a) => Merge8(a);
        case Hll6(a) => Merge6(a);
        case Hll4(a) => Merge4(a);
      }
      forall mine, theirs | old(bytes) == Registers(mine, lgConfigK) && old(RegsOf(src)) == Registers(theirs, LgOf(src))
        ensures bytes == Registers(mine + theirs, lgConfigK)
      {
        MergeIsFeeding(mine, theirs, lgConfigK, LgOf(src));
      }
    }

    method Merge8(src: Hll8Array)
      requires Valid() && src.Valid() && lgConfigK <= src.lgConfigK
      modifies this
      ensures rebuildCurMin && curMin == old(curMin) && numAtCurMin == old(numAtCurMin)
      ensures Valid() && |old(src.bytes)| == Pow2(src.lgConfigK) && bytes == Processed(old(bytes), old(src.bytes), |old(src.bytes)|)
    {
      hide Pow2, CountAt, Processed;
      ghost var regs := src.bytes;
      ProcessedNone(bytes, regs);
      ProcessedZerosFewer(bytes, regs, |regs|);
      var sameK := lgConfigK == src.lgConfigK;
      SomeSlots(lgConfigK);
      var i := 0;
      while i < |src.bytes|
        invariant i <= |regs| && |bytes| == Pow2(lgConfigK) && src.bytes == regs
        invariant bytes == Processed(old(bytes), regs, i) && curMin == old(curMin) && numAtCurMin == old(numAtCurMin)
      {
        if src == this { ProcessedSelf(regs, i + 1); }
        ProcessValue(i, sameK, src.bytes[i], old(bytes), regs);
        i := i + 1;
      }
      rebuildCurMin := true;
    }

    /** Four slots from three bytes at a time. */
    method Merge6(src: Hll6Array)
      requires Valid() && src.Valid() && lgConfigK <= src.lgConfigK
      modifies this
      ensures rebuildCurMin && curMin == old(curMin) && numAtCurMin == old(numAtCurMin)
      ensures Valid() && |src.Regs()| == Pow2(src.lgConfigK) && bytes == Processed(old(bytes), src.Regs(), Pow2(src.lgConfigK))
    {
      hide Pow2, CountAt, Regs6, Bytes, Processed;
      ProcessedNone(bytes, src.Regs());
      ProcessedZerosFewer(bytes, src.Regs(), |src.Regs()|);
      var sameK := lgConfigK == src.lgConfigK;
      SomeSlots(lgConfigK);
      ghost var regs := src.Regs();
      var srcK := Pow2(src.lgConfigK);
      var i, ptr := 0, 0;
      while i < srcK
        invariant i <= srcK && i % 4 == 0 && ptr == 3 * (i / 4) && |bytes| == Pow2(lgConfigK)
        invariant bytes == Processed(old(bytes), regs, i) && curMin == old(curMin) && numAtCurMin == old(numAtCurMin)
      {
        GroupOfFour(src.bytes, srcK, i);
        var value := src.bytes[ptr] % 64;
        ProcessValue(i, sameK, value, old(bytes), regs);
        value := src.bytes[ptr] / 64;
        ptr := ptr + 1;
        value := value + src.bytes[ptr] % 16 * 4;
        ProcessValue(i + 1, sameK, value, old(bytes), regs);
        value := src.bytes[ptr] / 16;
        ptr := ptr + 1;
        value := value + src.bytes[ptr] % 4 * 16;
        ProcessValue(i + 2, sameK, value, old(bytes), regs);
        value := src.bytes[ptr] / 4;
        ptr := ptr + 1;
        ProcessValue(i + 3, sameK, value, old(bytes), regs);
        i := i + 4;
      }
      rebuildCurMin := true;
    }

    /** Two slots a byte. */
    method Merge4(src: Hll4Array)
      requires Valid() && src.Valid() && lgConfigK <= src.lgConfigK
      modifies this
      ensures rebuildCurMin && curMin == old(curMin) && numAtCurMin == old(numAtCurMin)
      ensures Valid() && |src.Regs()| == Pow2(src.lgConfigK) && bytes == Processed(old(bytes), src.Regs(), Pow2(src.lgConfigK))
    {
      hide Pow2, CountAt, Encodes, Decode, Hll4Arrays.ContentsOf, Nibble, Processed;
      ProcessedNone(bytes, src.Regs());
      ProcessedZerosFewer(bytes, src.Regs(), |src.Regs()|);
      var sameK := lgConfigK == src.lgConfigK;
      SomeSlots(lgConfigK);
      ghost var regs := src.Regs();
      TwoSlots(src);
      var i := 0;
      for b := 0 to |src.bytes|
        invariant i == 2 * b && |bytes| == Pow2(lgConfigK) && src.Valid() && src.Regs() == regs
        invariant bytes == Processed(old(bytes), regs, i) && curMin == old(curMin) && numAtCurMin == old(numAtCurMin)
      {
        var byte := src.bytes[b];
        HalvesOf(src.bytes, b);
        var value := src.AdjustRawValue(i, byte % 16);
        ProcessValue(i, sameK, value, old(bytes), regs);
        i := i + 1;
        value := src.AdjustRawValue(i, byte / 16);
        ProcessValue(i, sameK, value, old(bytes), regs);
        i := i + 1;
      }
      rebuildCurMin := true;
    }

    /** Recounts the minimum after a merge. */
    method CheckRebuildCurMin()
      requires Valid() && forall i :: 0 <= i < |bytes| ==> bytes[i] <= 63
      modifies this`curMin, this`numAtCurMin, this`rebuildCurMin
      ensures Valid() && !rebuildCurMin
      ensures old(rebuildCurMin) ==> curMin in bytes && (forall i :: 0 <= i < |bytes| ==> curMin <= bytes[i])
                                     && numAtCurMin == CountAt(bytes, curMin)
    {
      hide Pow2, CountAt;
      if !rebuildCurMin { return; }
      SomeSlots(lgConfigK);
      CountNext(bytes, 0, 64);
      var least, number := 64, 0;
      var i := 0;
      while i < |bytes|
        invariant i <= |bytes| && (i == 0 ==> least == 64) && (i > 0 ==> least in bytes)
        invariant forall j :: 0 <= j < i ==> least <= bytes[j]
        invariant number == CountAt(bytes[..i], least)
      {
        var v := bytes[i];
        CountNext(bytes, i, least);
        if v < least {
          CountLess(bytes[..i], v);
          CountNext(bytes, i, v);
          least, number := v, 1;
        } else if v == least {
          number := number + 1;
        }
        i := i + 1;
      }
      assert bytes[..i] == bytes;
      if least > 0 { CountLess(bytes, 0); }
      curMin, numAtCurMin, rebuildCurMin := least, number, false;
    }
  }

  lemma SomeSlots(lg: nat)
    ensures Pow2(lg) > 0
  {}

  lemma {:induction false} CountLess(regs: seq<nat>, v: nat)
    requires forall j :: 0 <= j < |regs| ==> v < regs[j]
    ensures CountAt(regs, v) == 0
  {
    if regs != [] { CountLess(regs[..|regs| - 1], v); }
  }

  /** Merging an array with itself changes nothing. */
  lemma {:induction false} ProcessedSelf(regs: seq<nat>, n: nat)
    requires n <= |regs| && |regs| > 0
    ensures Processed(regs, regs, n) == regs
  {
    if n > 0 {
      ProcessedSelf(regs, n - 1);
      ModSmall(n - 1, |regs|);
    }
  }

  /** A merge leaves no more empty slots. */
  lemma {:induction false} ProcessedZerosFewer(dst: seq<nat>, src: seq<nat>, n: nat)
    requires n <= |src|
    ensures |dst| > 0 ==> CountAt(Processed(dst, src, n), 0) <= CountAt(dst, 0)
  {
    hide CountAt;
    if n > 0 && |dst| > 0 {
      ProcessedZerosFewer(dst, src, n - 1);
      var p, j := Processed(dst, src, n - 1), (n - 1) % |dst|;
      CountPut(p, j, Max(p[j], src[n - 1]), 0);
    }
  }

  lemma {:induction false} CountHas(regs: seq<nat>, j: nat, v: nat)
    requires j < |regs| && regs[j] == v
    ensures CountAt(regs, v) > 0
  {
    if j < |regs| - 1 { CountHas(regs[..|regs| - 1], j, v); }
  }

  lemma ProcessedNone(dst: seq<nat>, src: seq<nat>)
    ensures |dst| > 0 ==> Processed(dst, src, 0) == dst
  {}

  /** The three bytes of a group unpack to its four slots. */
  lemma GroupOfFour(bytes: seq<nat>, k: nat, i: nat)
    requires k % 4 == 0 && |bytes| == 3 * k / 4 + 1 && Bytes(bytes) && i % 4 == 0 && i < k
    ensures i + 4 <= k && 3 * (i / 4) + 3 < |bytes| && 3 * ((i + 4) / 4) == 3 * (i / 4) + 3
    ensures var regs, q := Regs6(bytes, k), 3 * (i / 4);
            && regs[i] == bytes[q] % 64 && regs[i + 1] == bytes[q] / 64 + bytes[q + 1] % 16 * 4
            && regs[i + 2] == bytes[q + 1] / 16 + bytes[q + 2] % 4 * 16 && regs[i + 3] == bytes[q + 2] / 4
  {
    hide Regs6, Bytes;
    SlotOfGroup(bytes, k, i, 0);
    SlotOfGroup(bytes, k, i, 1);
    SlotOfGroup(bytes, k, i, 2);
    SlotOfGroup(bytes, k, i, 3);
  }

  lemma SlotOfGroup(bytes: seq<nat>, k: nat, i: nat, j: nat)
    requires k % 4 == 0 && |bytes| == 3 * k / 4 + 1 && Bytes(bytes) && i % 4 == 0 && i < k && j < 4
    ensures i + j < k && 3 * (i / 4) + 3 < |bytes|
    ensures var q := 3 * (i / 4); Regs6(bytes, k)[i + j] == Unpacked(bytes[q], bytes[q + 1], bytes[q + 2], j)
  {
    hide Slot6, Bytes, Unpacked, ByteOf;
    DivUnique(i + j, 4, i / 4, j);
    SlotFits(i + j, k);
    SlotIsUnpacked(bytes, i + j);
  }

  lemma TwoSlots(a: Hll4Array)
    requires a.Valid()
    ensures |a.Regs()| == Pow2(a.lgConfigK) == 2 * |a.bytes|
  {}

  lemma HalvesOf(bytes: seq<nat>, b: nat)
    requires b < |bytes|
    ensures Nibble(bytes, 2 * b) == bytes[b] % 16 && Nibble(bytes, 2 * b + 1) == bytes[b] / 16
  {}
}
