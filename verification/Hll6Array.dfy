/** The 6-bit register array of hll/include/Hll6Array-internal.hpp: slot n occupies the six bits from
  * bit 6 n of a little-endian byte string, so a slot may straddle two bytes.
  */
module Hll6Arrays {
  import opened Words
  import opened HllSpec

  /** Two to the shift of a slot within its first byte: shifts 0, 6, 4, 2 in turn. */
  function ShiftOf(slot: nat): (p: nat) {
    match slot % 4 case 0 => 1 case 1 => 64 case 2 => 16 case _ => 4
  }

  function ByteOf(slot: nat): nat { slot * 6 / 8 }

  lemma ShiftIs(slot: nat)
    ensures ShiftOf(slot) == Pow2(slot * 6 % 8)
    ensures ByteOf(slot) == 3 * (slot / 4) + (if slot % 4 == 0 then 0 else slot % 4 - 1)
  {
    Pow2Values();
    assert slot == 4 * (slot / 4) + slot % 4;
  }

  function TwoBytes(bytes: seq<nat>, b: nat): nat
    requires b + 1 < |bytes|
  {
    bytes[b + 1] * 256 + bytes[b]
  }

  /** Six bits of a 16-bit value, from the bit of weight p. */
  function SixBits(w: nat, p: nat): (v: nat)
    requires p > 0
    ensures v < 64
  {
    w / p % 64
  }

  /** ... and the same value with other bits there. */
  function WithSixBits(w: nat, p: nat, v: nat): nat
    requires p > 0
  {
    var q: nat := 64 * p;
    var high: nat := DivNat(w, q) * q;
    var middle: nat := v % 64 * p;
    high + middle + w % p
  }

  function DivNat(x: nat, n: nat): nat
    requires n > 0
  {
    x / n
  }

  ghost predicate Bytes(bytes: seq<nat>) {
    forall i :: 0 <= i < |bytes| ==> bytes[i] < 256
  }

  function Slot6(bytes: seq<nat>, slot: nat): (v: nat)
    requires ByteOf(slot) + 1 < |bytes|
    ensures v < 64
  {
    SixBits(TwoBytes(bytes, ByteOf(slot)), ShiftOf(slot))
  }

  function WithSlot6(bytes: seq<nat>, slot: nat, v: nat): (r: seq<nat>)
    requires ByteOf(slot) + 1 < |bytes|
    ensures |r| == |bytes|
  {
    var b := ByteOf(slot);
    var insert := WithSixBits(TwoBytes(bytes, b), ShiftOf(slot), v);
    bytes[b := insert % 256][b + 1 := insert / 256 % 256]
  }

  /** The four slots of a group of three bytes, and the byte after it. */
  function Unpacked(x: nat, y: nat, z: nat, j: nat): (v: nat) {
    match j case 0 => x % 64 case 1 => x / 64 + y % 16 * 4 case 2 => y / 16 + z % 4 * 16 case _ => z / 4
  }

  lemma SlotIsUnpacked(bytes: seq<nat>, slot: nat)
    requires Bytes(bytes) && 3 * (slot / 4) + 3 < |bytes|
    ensures ByteOf(slot) + 1 < |bytes|
    ensures var q := 3 * (slot / 4); Slot6(bytes, slot) == Unpacked(bytes[q], bytes[q + 1], bytes[q + 2], slot % 4)
  {
    ShiftIs(slot);
    hide Pow2, ByteOf, SixBits, Unpacked;
    var q := 3 * (slot / 4);
    UnpackTwo(bytes[q], bytes[q + 1], bytes[q + 2], bytes[q + 3]);
  }

  lemma UnpackTwo(x: nat, y: nat, z: nat, w: nat)
    requires x < 256 && y < 256 && z < 256
    ensures SixBits(y * 256 + x, 1) == Unpacked(x, y, z, 0) && SixBits(y * 256 + x, 64) == Unpacked(x, y, z, 1)
    ensures SixBits(z * 256 + y, 16) == Unpacked(x, y, z, 2) && SixBits(w * 256 + z, 4) == Unpacked(x, y, z, 3)
  {
    Unpack0(x, y);
    Unpack1(x, y);
    Unpack2(y, z);
    Unpack3(z, w);
  }

  lemma Unpack0(x: nat, y: nat)
    ensures (y * 256 + x) % 64 == x % 64
  {
    DivUnique(y * 256 + x, 64, 4 * y + x / 64, x % 64);
  }

  lemma Unpack1(x: nat, y: nat)
    requires x < 256 && y < 256
    ensures (y * 256 + x) / 64 % 64 == x / 64 + y % 16 * 4
  {
    DivUnique(y * 256 + x, 64, 64 * (y / 16) + 4 * (y % 16) + x / 64, x % 64);
    DivUnique(64 * (y / 16) + 4 * (y % 16) + x / 64, 64, y / 16, 4 * (y % 16) + x / 64);
  }

  lemma Unpack2(y: nat, z: nat)
    requires y < 256 && z < 256
    ensures (z * 256 + y) / 16 % 64 == y / 16 + z % 4 * 16
  {
    DivUnique(z * 256 + y, 16, 64 * (z / 4) + 16 * (z % 4) + y / 16, y % 16);
    DivUnique(64 * (z / 4) + 16 * (z % 4) + y / 16, 64, z / 4, 16 * (z % 4) + y / 16);
  }

  lemma Unpack3(z: nat, w: nat)
    requires z < 256
    ensures (w * 256 + z) / 4 % 64 == z / 4
  {
    DivUnique(w * 256 + z, 4, 64 * w + z / 4, z % 4);
    DivUnique(64 * w + z / 4, 64, w, z / 4);
  }

  /** The three bytes of a group with slot j of it set to v. */
  function Packed(x: nat, y: nat, z: nat, j: nat, v: nat): (nat, nat, nat) {
    match j
    case 0 => (x / 64 * 64 + v, y, z)
    case 1 => (x % 64 + v % 4 * 64, y / 16 * 16 + v / 4, z)
    case 2 => (x, y % 16 + v % 16 * 16, z / 4 * 4 + v / 16)
    case _ => (x, y, z % 4 + v * 4)
  }

  lemma PackNone(x: nat, y: nat, v: nat)
    requires x < 256 && y < 256 && v < 64
    ensures WithSixBits(y * 256 + x, 1, v) == y * 256 + x / 64 * 64 + v
  {
    var w := y * 256 + x;
    assert w / 64 * 64 == y * 256 + x / 64 * 64;
  }

  lemma PackTwo(x: nat, y: nat, v: nat)
    requires x < 256 && y < 256 && v < 64
    ensures WithSixBits(y * 256 + x, 4, v) == y * 256 + x % 4 + v * 4
  {
    var w := y * 256 + x;
    assert w / 256 * 256 == y * 256;
    assert w % 4 == x % 4;
  }

  lemma PackSix(x: nat, y: nat, v: nat)
    requires x < 256 && y < 256 && v < 64
    ensures WithSixBits(y * 256 + x, 64, v) == (y / 16 * 16 + v / 4) * 256 + x % 64 + v % 4 * 64
  {
    var w := y * 256 + x;
    assert w / 4096 * 4096 == y / 16 * 4096;
    assert w % 64 == x % 64;
    assert v * 64 == v / 4 * 256 + v % 4 * 64;
  }

  lemma PackFour(x: nat, y: nat, v: nat)
    requires x < 256 && y < 256 && v < 64
    ensures WithSixBits(y * 256 + x, 16, v) == (y / 4 * 4 + v / 16) * 256 + x % 16 + v % 16 * 16
  {
    var w := y * 256 + x;
    assert w / 1024 * 1024 == y / 4 * 1024;
    assert w % 16 == x % 16;
    assert v * 16 == v / 16 * 256 + v % 16 * 16;
  }

  lemma HighLow(h: nat, l: nat)
    requires h < 256 && l < 256
    ensures (h * 256 + l) % 256 == l && (h * 256 + l) / 256 == h && h % 256 == h
  {}

  lemma WithSlotIs(bytes: seq<nat>, slot: nat, v: nat)
    requires Bytes(bytes) && 3 * (slot / 4) + 3 < |bytes| && v < 64
    ensures ByteOf(slot) + 1 < |bytes|
    ensures var q := 3 * (slot / 4);
            var (x, y, z) := Packed(bytes[q], bytes[q + 1], bytes[q + 2], slot % 4, v);
            x < 256 && y < 256 && z < 256 && WithSlot6(bytes, slot, v) == bytes[q := x][q + 1 := y][q + 2 := z]
  {
    ShiftIs(slot);
    hide Pow2, WithSixBits, ByteOf, Packed;
    var q := 3 * (slot / 4);
    PackedBytes(bytes[q], bytes[q + 1], bytes[q + 2], slot % 4, v);
    if slot % 4 < 2 { FirstPair(bytes, slot, v); } else { LastPair(bytes, slot, v); }
  }

  lemma FirstPair(bytes: seq<nat>, slot: nat, v: nat)
    requires Bytes(bytes) && 3 * (slot / 4) + 3 < |bytes| && v < 64 && slot % 4 < 2 && ByteOf(slot) == 3 * (slot / 4)
    ensures var q := 3 * (slot / 4);
            var (x, y, z) := Packed(bytes[q], bytes[q + 1], bytes[q + 2], slot % 4, v);
            WithSlot6(bytes, slot, v) == bytes[q := x][q + 1 := y][q + 2 := z]
  {
    hide Pow2, WithSixBits, ByteOf;
    var q := 3 * (slot / 4);
    var (x, y, z) := (bytes[q], bytes[q + 1], bytes[q + 2]);
    PackedBytes(x, y, z, slot % 4, v);
    var (x', y', _) := Packed(x, y, z, slot % 4, v);
    if slot % 4 == 0 { PackNone(x, y, v); } else { PackSix(x, y, v); }
    HighLow(y', x');
    assert bytes[q := x'][q + 1 := y'][q + 2 := z] == bytes[q := x'][q + 1 := y'];
  }

  lemma LastPair(bytes: seq<nat>, slot: nat, v: nat)
    requires Bytes(bytes) && 3 * (slot / 4) + 3 < |bytes| && v < 64 && slot % 4 >= 2 && ByteOf(slot) == 3 * (slot / 4) + slot % 4 - 1
    ensures var q := 3 * (slot / 4);
            var (x, y, z) := Packed(bytes[q], bytes[q + 1], bytes[q + 2], slot % 4, v);
            WithSlot6(bytes, slot, v) == bytes[q := x][q + 1 := y][q + 2 := z]
  {
    hide Pow2, WithSixBits, ByteOf;
    var q := 3 * (slot / 4);
    var (x, y, z) := (bytes[q], bytes[q + 1], bytes[q + 2]);
    PackedBytes(x, y, z, slot % 4, v);
    var (_, y', z') := Packed(x, y, z, slot % 4, v);
    if slot % 4 == 2 {
      PackFour(y, z, v);
      HighLow(z', y');
      assert bytes[q := x][q + 1 := y'][q + 2 := z'] == bytes[q + 1 := y'][q + 2 := z'];
    } else {
      PackTwo(z, bytes[q + 3], v);
      HighLow(bytes[q + 3], z');
      assert bytes[q := x][q + 1 := y][q + 2 := z'] == bytes[q + 2 := z'][q + 3 := bytes[q + 3]];
    }
  }

  lemma PackedBytes(x: nat, y: nat, z: nat, j: nat, v: nat)
    requires x < 256 && y < 256 && z < 256 && v < 64
    ensures var (x', y', z') := Packed(x, y, z, j, v); x' < 256 && y' < 256 && z' < 256
  {}

  lemma PackUnpack(x: nat, y: nat, z: nat, j: nat, v: nat, i: nat)
    requires x < 256 && y < 256 && z < 256 && v < 64 && j < 4 && i < 4
    ensures var (x', y', z') := Packed(x, y, z, j, v); Unpacked(x', y', z', i) == if i == j then v else Unpacked(x, y, z, i)
  {
    if j < 2 { PackUnpackLow(x, y, z, j, v, i); } else { PackUnpackHigh(x, y, z, j, v, i); }
  }

  lemma PackUnpackLow(x: nat, y: nat, z: nat, j: nat, v: nat, i: nat)
    requires x < 256 && y < 256 && z < 256 && v < 64 && j < 2 && i < 4
    ensures var (x', y', z') := Packed(x, y, z, j, v); Unpacked(x', y', z', i) == if i == j then v else Unpacked(x, y, z, i)
  {
    if j == 0 {
      Cut(x / 64, v, 64);
    } else {
      Cut(v % 4, x % 64, 64);
      Cut(y / 16, v / 4, 16);
    }
  }

  lemma PackUnpackHigh(x: nat, y: nat, z: nat, j: nat, v: nat, i: nat)
    requires x < 256 && y < 256 && z < 256 && v < 64 && 2 <= j < 4 && i < 4
    ensures var (x', y', z') := Packed(x, y, z, j, v); Unpacked(x', y', z', i) == if i == j then v else Unpacked(x, y, z, i)
  {
    if j == 2 {
      Cut(v % 16, y % 16, 16);
      Cut(z / 4, v / 16, 4);
    } else {
      Cut(v, z % 4, 4);
    }
  }

  lemma Cut(h: nat, l: nat, n: nat)
    requires l < n
    ensures (h * n + l) / n == h && (h * n + l) % n == l
  {
    DivUnique(h * n + l, n, h, l);
  }

  /** A slot can be read back, and no other slot changes. */
  lemma PutThenGet(bytes: seq<nat>, slot: nat, v: nat, i: nat)
    requires Bytes(bytes) && 3 * (slot / 4) + 3 < |bytes| && 3 * (i / 4) + 3 < |bytes| && v < 64
    ensures ByteOf(slot) + 1 < |bytes| && ByteOf(i) + 1 < |bytes| && Bytes(WithSlot6(bytes, slot, v))
    ensures Slot6(WithSlot6(bytes, slot, v), i) == if i == slot then v else Slot6(bytes, i)
  {
    hide Pow2, Slot6, WithSlot6, Unpacked, Packed;
    WithSlotIs(bytes, slot, v);
    SlotIsUnpacked(bytes, i);
    SlotIsUnpacked(WithSlot6(bytes, slot, v), i);
    var q, g := 3 * (slot / 4), 3 * (i / 4);
    PackUnpack(bytes[q], bytes[q + 1], bytes[q + 2], slot % 4, v, i % 4);
    assert slot / 4 == i / 4 || q + 3 <= g || g + 3 <= q;
  }

  /** The registers of the first k slots. */
  ghost function Regs6(bytes: seq<nat>, k: nat): (regs: seq<nat>)
    requires k % 4 == 0 && |bytes| == 3 * k / 4 + 1
    ensures |regs| == k
  {
    seq(k, i requires 0 <= i < k => SlotFits(i, k); Slot6(bytes, i))
  }

  lemma SlotFits(slot: nat, k: nat)
    requires k % 4 == 0 && slot < k
    ensures 3 * (slot / 4) + 3 < 3 * k / 4 + 1 && ByteOf(slot) + 1 < 3 * k / 4 + 1
  {
    ShiftIs(slot);
    hide ByteOf, ShiftOf, Pow2;
    DivUnique(3 * k, 4, 3 * (k / 4), 0);
    assert slot / 4 < k / 4;
  }

  lemma RegsPut(bytes: seq<nat>, k: nat, slot: nat, v: nat)
    requires k % 4 == 0 && |bytes| == 3 * k / 4 + 1 && Bytes(bytes) && slot < k && v < 64
    ensures ByteOf(slot) + 1 < |bytes| && Bytes(WithSlot6(bytes, slot, v))
    ensures Regs6(WithSlot6(bytes, slot, v), k) == Regs6(bytes, k)[slot := v]
  {
    hide Slot6, WithSlot6, Bytes, ByteOf;
    SlotFits(slot, k);
    PutThenGet(bytes, slot, v, slot);
    var after, was := Regs6(WithSlot6(bytes, slot, v), k), Regs6(bytes, k);
    forall i | 0 <= i < k ensures after[i] == was[slot := v][i] {
      SlotFits(i, k);
      PutThenGet(bytes, slot, v, i);
    }
  }

  class Hll6Array {
    const lgConfigK: nat
    var bytes: seq<nat>
    /** The number of empty slots. */
    var numAtCurMin: nat

    ghost predicate Shape()
      reads this
    {
      && 4 <= lgConfigK <= 21 && Pow2(lgConfigK) % 4 == 0
      && |bytes| == 3 * Pow2(lgConfigK) / 4 + 1 && Bytes(bytes)
    }

    ghost predicate Valid()
      reads this
    {
      Shape() && numAtCurMin == CountAt(Regs6(bytes, Pow2(lgConfigK)), 0)
    }

    ghost function Regs(): (regs: seq<nat>)
      reads this
    {
      if Shape() then Regs6(bytes, Pow2(lgConfigK)) else []
    }

    constructor (lgConfigK: nat)
      requires 4 <= lgConfigK <= 21
      ensures Valid() && Regs() == Registers([], lgConfigK) && this.lgConfigK == lgConfigK
    {
      this.lgConfigK := lgConfigK;
      bytes := seq(3 * Pow2(lgConfigK) / 4 + 1, _ => 0);
      numAtCurMin := Pow2(lgConfigK);
      new;
      FourDivides(lgConfigK);
      NoRegs(bytes, Pow2(lgConfigK));
      CountZeros(Pow2(lgConfigK));
    }

    function GetSlot(slotNo: nat): (v: nat)
      requires Shape() && slotNo < Pow2(lgConfigK)
      reads this
      ensures v == Regs()[slotNo] && v < 64
    {
      SlotFits(slotNo, Pow2(lgConfigK));
      Slot6(bytes, slotNo)
    }

    method PutSlot(slotNo: nat, value: nat)
      requires Shape() && slotNo < Pow2(lgConfigK) && value < 64
      modifies this`bytes
      ensures Shape() && Regs() == old(Regs())[slotNo := value]
    {
      hide Slot6, Bytes, Pow2, WithSixBits;
      RegsPut(bytes, Pow2(lgConfigK), slotNo, value);
      var startBit := slotNo * 6;
      var byteIdx := startBit / 8;
      var insert := WithSixBits(TwoBytes(bytes, byteIdx), ShiftOf(slotNo), value);
      bytes := bytes[byteIdx := insert % 256][byteIdx + 1 := insert / 256 % 256];
    }

    method InternalCouponUpdate(coupon: nat)
      requires Valid() && IsCoupon(coupon)
      modifies this
      ensures Valid() && Regs() == Raise(old(Regs()), SlotOf(coupon, lgConfigK), ValueOf(coupon))
    {
      hide Slot6, Bytes, Pow2, CountAt, Low26, ValueOf, Regs6;
      var slotNo := SlotOf(coupon, lgConfigK);
      var newVal := ValueOf(coupon);
      var curVal := GetSlot(slotNo);
      if newVal > curVal {
        CountPut(Regs(), slotNo, newVal, 0);
        PutSlot(slotNo, newVal);
        if curVal == 0 { numAtCurMin := numAtCurMin - 1; }
      }
    }
  }

  lemma FourDivides(lg: nat)
    requires lg >= 2
    ensures Pow2(lg) % 4 == 0
  {}

  lemma NoRegs(bytes: seq<nat>, k: nat)
    requires k % 4 == 0 && |bytes| == 3 * k / 4 + 1 && forall i :: 0 <= i < |bytes| ==> bytes[i] == 0
    ensures Regs6(bytes, k) == Zeros(k)
  {
    forall i | 0 <= i < k ensures Regs6(bytes, k)[i] == 0 {
      SlotFits(i, k);
      SlotIsUnpacked(bytes, i);
    }
  }
}
