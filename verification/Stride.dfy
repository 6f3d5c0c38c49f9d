/** Walking a table of a power-of-two size with an odd stride.
  *
  * The walk start, start + stride, start + 2 * stride, ... (mod size) reaches every slot within size
  * steps. The union's table walk, the frequent-items iterator and the probe sequences of the HLL hash
  * tables all rely on it.
  */
module Strides {
  import opened Words

  /** The slot reached after i steps. */
  function Slot(start: nat, stride: nat, i: nat, size: nat): (s: nat)
    requires size > 0
    ensures s < size
  {
    (start + i * stride) % size
  }

  lemma SlotNext(start: nat, stride: nat, i: nat, size: nat)
    requires size > 0
    ensures Slot(start, stride, i + 1, size) == (Slot(start, stride, i, size) + stride) % size
  {
    var x := start + i * stride;
    assert start + (i + 1) * stride == x + stride;
    AddMod(x, stride, size);
  }

  lemma AddMod(x: nat, y: nat, n: nat)
    requires n > 0
    ensures (x % n + y) % n == (x + y) % n
  {
    var z := x % n + y;
    DivModIdentity(x, n);
    DivModIdentity(z, n);
    assert n * (x / n) + n * (z / n) == n * (x / n + z / n);
    DivUnique(x + y, n, x / n + z / n, z % n);
  }

  /** Some number of steps, fewer than 2^m, from zero ends 2^m-congruent to target. */
  lemma {:induction false} OddStrideHits(m: nat, stride: nat, target: int) returns (i: nat, q: int)
    requires stride % 2 == 1
    ensures i < Pow2(m) && i * stride - target == q * Pow2(m)
  {
    if m == 0 {
      i, q := 0, -target;
    } else {
      var p := Pow2(m - 1);
      i, q := OddStrideHits(m - 1, stride, target);
      if q % 2 == 0 {
        assert (q / 2) * (2 * p) == q * p by { assert q == 2 * (q / 2); MulTwo(q / 2, p); }
        q := q / 2;
      } else {
        HitStep(i, q, p, stride, target);
        i, q := i + p, (q + stride) / 2;
      }
    }
  }

  lemma MulTwo(a: int, p: int)
    ensures a * (2 * p) == (2 * a) * p
  {}

  lemma HitStep(i: nat, q: int, p: nat, stride: nat, target: int)
    requires i * stride - target == q * p && (q + stride) % 2 == 0
    ensures (i + p) * stride - target == ((q + stride) / 2) * (2 * p)
  {}

  /** Every slot is reached. */
  lemma StrideReaches(m: nat, start: nat, stride: nat, slot: nat) returns (i: nat)
    requires stride % 2 == 1 && slot < Pow2(m)
    ensures i < Pow2(m) && Slot(start, stride, i, Pow2(m)) == slot
  {
    var q;
    i, q := OddStrideHits(m, stride, slot - start);
    DivUnique(start + i * stride, Pow2(m), q, slot);
  }

  /** ... and no slot is reached twice. */
  lemma StrideInjective(m: nat, start: nat, stride: nat, i: nat, j: nat)
    requires stride % 2 == 1 && i < j < Pow2(m)
    ensures Slot(start, stride, i, Pow2(m)) != Slot(start, stride, j, Pow2(m))
  {
    var n := Pow2(m);
    if Slot(start, stride, i, n) == Slot(start, stride, j, n) {
      var x, y := start + i * stride, start + j * stride;
      DivModIdentity(x, n);
      DivModIdentity(y, n);
      assert (j - i) * stride == n * (y / n - x / n) by { assert n * (y / n) - n * (x / n) == n * (y / n - x / n); assert (j - i) * stride == j * stride - i * stride; }
      OddFactor(m, j - i, stride, y / n - x / n);
      assert false;
    }
  }

  /** 2^m divides a product with an odd factor only if it divides the other factor. */
  lemma {:induction false} OddFactor(m: nat, a: nat, s: nat, q: int)
    requires s % 2 == 1 && a * s == Pow2(m) * q && a > 0
    ensures a >= Pow2(m)
  {
    if m > 0 {
      var p := Pow2(m - 1);
      assert Pow2(m) * q == 2 * (p * q);
      EvenFactor(a, s, p * q);
      var b := a / 2;
      assert a == 2 * b;
      assert b * s == p * q by { assert 2 * (b * s) == a * s; }
      OddFactor(m - 1, b, s, q);
    }
  }

  lemma EvenFactor(a: nat, s: nat, r: int)
    requires s % 2 == 1 && a * s == 2 * r
    ensures a % 2 == 0
  {
    var h := s / 2;
    assert s == 2 * h + 1;
    assert a * s == 2 * (a * h) + a;
  }
}
