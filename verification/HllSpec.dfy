/** HLL coupons, and the plain array of per-slot maxima that every HLL array stands for. */
module HllSpec {
  import opened Words

  /** A coupon is a value of 1 to 63 above a 26-bit key. */
  const KEY_SPAN: nat := 0x400_0000

  const EMPTY: nat := 0

  function Low26(coupon: nat): (key: nat)
    ensures key < KEY_SPAN
  {
    coupon % KEY_SPAN
  }

  function ValueOf(coupon: nat): nat { coupon / KEY_SPAN }

  function SlotOf(coupon: nat, lgK: nat): (slot: nat)
    ensures slot < Pow2(lgK)
  {
    Low26(coupon) % Pow2(lgK)
  }

  function Pair(slot: nat, value: nat): nat { value * KEY_SPAN + slot % KEY_SPAN }

  predicate IsCoupon(c: nat) {
    1 <= ValueOf(c) <= 63
  }

  lemma PairParts(slot: nat, value: nat, lgK: nat)
    requires slot < Pow2(lgK) && lgK <= 26
    ensures ValueOf(Pair(slot, value)) == value && Low26(Pair(slot, value)) == slot && SlotOf(Pair(slot, value), lgK) == slot
    ensures value > 0 ==> Pair(slot, value) != EMPTY
  {
    Pow2Mono(lgK, 26);
    Pow2Values();
    ModSmall(slot, Pow2(lgK));
  }

  lemma ModSmall(x: nat, n: nat)
    requires x < n
    ensures x % n == x
  {}

  /** A larger number of slots refines a smaller one. */
  lemma SlotFold(coupon: nat, lgK: nat, lgSource: nat)
    requires lgK <= lgSource
    ensures SlotOf(coupon, lgSource) % Pow2(lgK) == SlotOf(coupon, lgK)
  {
    Pow2Add(lgK, lgSource - lgK);
    ModOfMod(Low26(coupon), Pow2(lgK), Pow2(lgSource - lgK));
  }

  lemma ModOfMod(x: nat, a: nat, b: nat)
    requires a > 0 && b > 0 && a * b > 0
    ensures (x % (a * b)) % a == x % a
  {
    var y := x % (a * b);
    var q := x / (a * b);
    DivModIdentity(x, a * b);
    DivModIdentity(y, a);
    assert x == a * (b * q + y / a) + y % a by {
      assert (a * b) * q == a * (b * q);
      assert a * (b * q + y / a) == a * (b * q) + a * (y / a);
    }
    DivUnique(x, a, b * q + y / a, y % a);
  }

  // ---------- registers ----------

  function Max(x: nat, y: nat): (r: nat) { if x < y then y else x }

  /** Register j at least v. */
  function Raise(regs: seq<nat>, j: nat, v: nat): (r: seq<nat>)
    requires j < |regs|
    ensures |r| == |regs|
  {
    regs[j := Max(regs[j], v)]
  }

  function Zeros(n: nat): (r: seq<nat>) { seq(n, _ => 0) }

  /** The largest value offered for each slot. */
  ghost function Registers(coupons: seq<nat>, lgK: nat): (r: seq<nat>)
    ensures |r| == Pow2(lgK)
  {
    if coupons == [] then Zeros(Pow2(lgK))
    else
      var c := coupons[|coupons| - 1];
      Raise(Registers(coupons[..|coupons| - 1], lgK), SlotOf(c, lgK), ValueOf(c))
  }

  lemma RegistersSnoc(coupons: seq<nat>, c: nat, lgK: nat)
    ensures Registers(coupons + [c], lgK) == Raise(Registers(coupons, lgK), SlotOf(c, lgK), ValueOf(c))
  {}

  lemma {:induction false} RegistersBound(coupons: seq<nat>, lgK: nat, j: nat)
    requires j < Pow2(lgK) && forall i :: 0 <= i < |coupons| ==> IsCoupon(coupons[i])
    ensures Registers(coupons, lgK)[j] <= 63
  {
    if coupons != [] { RegistersBound(coupons[..|coupons| - 1], lgK, j); }
  }

  /** The first n registers of a source with a multiple of the slots, offered one by one. */
  ghost function Processed(dst: seq<nat>, src: seq<nat>, n: nat): (r: seq<nat>)
    requires n <= |src| && |dst| > 0
    ensures |r| == |dst|
  {
    if n == 0 then dst else Raise(Processed(dst, src, n - 1), (n - 1) % |dst|, src[n - 1])
  }

  lemma RaiseTwice(r: seq<nat>, a: nat, x: nat, b: nat, y: nat)
    requires a < |r| && b < |r|
    ensures Raise(Raise(r, a, x), b, y) == Raise(Raise(r, b, y), a, x)
    ensures a == b ==> Raise(Raise(r, a, x), b, y) == Raise(r, a, Max(x, y))
  {}

  lemma {:induction false} ProcessedZeros(dst: seq<nat>, m: nat, n: nat)
    requires n <= m && |dst| > 0
    ensures Processed(dst, Zeros(m), n) == dst
  {
    if n > 0 { ProcessedZeros(dst, m, n - 1); }
  }

  /** Raising a source register raises the register it folds to. */
  lemma {:induction false} ProcessedRaise(dst: seq<nat>, src: seq<nat>, n: nat, s: nat, v: nat)
    requires n <= |src| && |dst| > 0 && s < |src|
    ensures Processed(dst, Raise(src, s, v), n)
              == if s < n then Raise(Processed(dst, src, n), s % |dst|, v) else Processed(dst, src, n)
  {
    if n > 0 {
      ProcessedRaise(dst, src, n - 1, s, v);
      var p := Processed(dst, src, n - 1);
      RaiseTwice(p, (n - 1) % |dst|, src[n - 1], s % |dst|, v);
    }
  }

  /** Merging the registers of two streams gives the registers of the streams together. */
  lemma {:induction false} MergeIsFeeding(a: seq<nat>, b: seq<nat>, lgK: nat, lgSource: nat)
    requires lgK <= lgSource
    ensures Processed(Registers(a, lgK), Registers(b, lgSource), Pow2(lgSource)) == Registers(a + b, lgK)
  {
    var n := Pow2(lgSource);
    if b == [] {
      assert a + b == a;
      ProcessedZeros(Registers(a, lgK), n, n);
    } else {
      var front, c := b[..|b| - 1], b[|b| - 1];
      MergeIsFeeding(a, front, lgK, lgSource);
      ProcessedRaise(Registers(a, lgK), Registers(front, lgSource), n, SlotOf(c, lgSource), ValueOf(c));
      SlotFold(c, lgK, lgSource);
      assert a + b == a + front + [c];
      RegistersSnoc(a + front, c, lgK);
    }
  }

  // ---------- counting registers at a value ----------

  ghost function CountAt(regs: seq<nat>, v: nat): (n: nat) {
    if regs == [] then 0 else CountAt(regs[..|regs| - 1], v) + if regs[|regs| - 1] == v then 1 else 0
  }

  lemma {:induction false} CountPut(regs: seq<nat>, j: nat, x: nat, v: nat)
    requires j < |regs|
    ensures CountAt(regs[j := x], v) + (if regs[j] == v then 1 else 0) == CountAt(regs, v) + if x == v then 1 else 0
  {
    var n := |regs| - 1;
    if j == n {
      assert regs[j := x][..n] == regs[..n];
    } else {
      assert regs[j := x][..n] == regs[..n][j := x];
      CountPut(regs[..n], j, x, v);
    }
  }

  lemma CountNext(regs: seq<nat>, n: nat, v: nat)
    requires n < |regs|
    ensures CountAt(regs[..n + 1], v) == CountAt(regs[..n], v) + if regs[n] == v then 1 else 0
    ensures CountAt(regs[..0], v) == 0
  {
    assert regs[..n + 1][..n] == regs[..n];
  }

  lemma {:induction false} CountNone(regs: seq<nat>, v: nat, j: nat)
    requires CountAt(regs, v) == 0 && j < |regs|
    ensures regs[j] != v
  {
    if j < |regs| - 1 { CountNone(regs[..|regs| - 1], v, j); }
  }

  lemma {:induction false} CountSome(regs: seq<nat>, v: nat) returns (j: nat)
    requires CountAt(regs, v) > 0
    ensures j < |regs| && regs[j] == v
  {
    if regs[|regs| - 1] == v { j := |regs| - 1; } else { j := CountSome(regs[..|regs| - 1], v); }
  }

  lemma {:induction false} CountZeros(n: nat)
    ensures CountAt(Zeros(n), 0) == n
  {
    if n > 0 {
      assert Zeros(n)[..n - 1] == Zeros(n - 1);
      CountZeros(n - 1);
    }
  }
}
