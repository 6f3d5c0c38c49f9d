/** Machine words.
  *
  * An unsigned word of the source is a natural number below a power of two.
  * The bitwise operators are defined by recursion on the binary digits, and the
  * lemmas say which digits the result of each operator has.
  */
module Words {

  /** One more than the largest 32-bit value. */
  const U32: nat := 0x1_0000_0000

  function Pow2(n: nat): (p: nat)
    ensures p > 0
  {
    if n == 0 then 1 else 2 * Pow2(n - 1)
  }

  lemma {:induction false} Pow2Add(a: nat, b: nat)
    ensures Pow2(a + b) == Pow2(a) * Pow2(b)
  {
    if a != 0 {
      Pow2Add(a - 1, b);
      assert 2 * (Pow2(a - 1) * Pow2(b)) == 2 * Pow2(a - 1) * Pow2(b);
    }
  }

  lemma {:induction false} Pow2Mono(a: nat, b: nat)
    requires a <= b
    ensures Pow2(a) <= Pow2(b)
    decreases b
  {
    if a < b { Pow2Mono(a, b - 1); }
  }

  lemma Pow2Values()
    ensures Pow2(0) == 1 && Pow2(1) == 2 && Pow2(2) == 4 && Pow2(3) == 8 && Pow2(4) == 16
    ensures Pow2(5) == 32 && Pow2(6) == 64 && Pow2(8) == 256 && Pow2(12) == 4096 && Pow2(16) == 0x1_0000
    ensures Pow2(26) == 0x400_0000 && Pow2(32) == 0x1_0000_0000
  {}

  /** Binary digit i of x. */
  predicate Bit(x: nat, i: nat) {
    if i == 0 then x % 2 == 1 else Bit(x / 2, i - 1)
  }

  function Or(x: nat, y: nat): (r: nat) {
    if x == 0 && y == 0 then 0
    else 2 * Or(x / 2, y / 2) + (if x % 2 == 1 || y % 2 == 1 then 1 else 0)
  }

  function And(x: nat, y: nat): (r: nat) {
    if x == 0 || y == 0 then 0
    else 2 * And(x / 2, y / 2) + (if x % 2 == 1 && y % 2 == 1 then 1 else 0)
  }

  function Xor(x: nat, y: nat): (r: nat) {
    if x == 0 && y == 0 then 0
    else 2 * Xor(x / 2, y / 2) + (if x % 2 != y % 2 then 1 else 0)
  }

  lemma {:induction false} BitZero(i: nat)
    ensures !Bit(0, i)
  {
    if i != 0 { BitZero(i - 1); }
  }

  lemma {:induction false} BitOr(x: nat, y: nat, i: nat)
    ensures Bit(Or(x, y), i) == (Bit(x, i) || Bit(y, i))
    decreases i
  {
    if x == 0 && y == 0 { BitZero(i); }
    else if i != 0 { BitOr(x / 2, y / 2, i - 1); }
  }

  lemma {:induction false} BitAnd(x: nat, y: nat, i: nat)
    ensures Bit(And(x, y), i) == (Bit(x, i) && Bit(y, i))
    decreases i
  {
    if x == 0 || y == 0 { BitZero(i); }
    else if i != 0 { BitAnd(x / 2, y / 2, i - 1); }
  }

  lemma {:induction false} BitXor(x: nat, y: nat, i: nat)
    ensures Bit(Xor(x, y), i) == (Bit(x, i) != Bit(y, i))
    decreases i
  {
    if x == 0 && y == 0 { BitZero(i); }
    else if i != 0 { BitXor(x / 2, y / 2, i - 1); }
  }

  /** x << c and x >> c, on words wide enough to lose no digit. */
  function Shl(x: nat, c: nat): (r: nat) {
    if c == 0 then x else 2 * Shl(x, c - 1)
  }

  function Shr(x: nat, c: nat): (r: nat) {
    if c == 0 then x else Shr(x / 2, c - 1)
  }

  lemma {:induction false} ShlIsMul(x: nat, c: nat)
    ensures Shl(x, c) == x * Pow2(c)
  {
    if c != 0 { ShlIsMul(x, c - 1); }
  }

  lemma {:induction false} BitShl(x: nat, c: nat, i: nat)
    ensures Bit(Shl(x, c), i) == (c <= i && Bit(x, i - c))
    decreases c
  {
    if c != 0 && i != 0 { BitShl(x, c - 1, i - 1); }
  }

  /** A right shift is a division. */
  lemma {:induction false} ShrIsDiv(x: nat, c: nat)
    ensures Shr(x, c) * Pow2(c) <= x < (Shr(x, c) + 1) * Pow2(c)
    decreases c
  {
    if c != 0 {
      ShrIsDiv(x / 2, c - 1);
      ShiftOnce(Shr(x / 2, c - 1), Pow2(c - 1), x);
    }
  }

  lemma ShiftOnce(q: nat, p: nat, x: nat)
    requires q * p <= x / 2 < (q + 1) * p
    ensures q * (2 * p) <= x < (q + 1) * (2 * p)
  {
    assert q * (2 * p) == 2 * (q * p) && (q + 1) * (2 * p) == 2 * ((q + 1) * p);
  }

  lemma {:induction false} BitShr(x: nat, c: nat, i: nat)
    ensures Bit(Shr(x, c), i) == Bit(x, i + c)
    decreases c
  {
    if c != 0 { BitShr(x / 2, c - 1, i); }
  }

  lemma DivUnique(x: int, d: int, q: int, r: int)
    requires d > 0 && x == d * q + r && 0 <= r < d
    ensures x / d == q && x % d == r
  {
    var q' := x / d;
    assert x == d * q' + x % d;
    MulLess(d, q', q + 1);
    MulLess(d, q, q' + 1);
  }

  /** Division and remainder by a product, in two steps. */
  lemma DivModParts(x: nat, a: nat, b: nat)
    requires a > 0 && b > 0
    ensures a * b > 0 && x / (a * b) == x / a / b && x % (a * b) == a * (x / a % b) + x % a
  {
    DivModIdentity(x, a);
    DivModIdentity(x / a, b);
    DivModCompose(x, a, b, x / a, x % a, x / a / b, x / a % b);
  }

  lemma DivModIdentity(x: nat, a: nat)
    requires a > 0
    ensures x == a * (x / a) + x % a
  {}

  lemma DivModCompose(x: nat, a: nat, b: nat, y: nat, s: nat, q: nat, r: nat)
    requires x == a * y + s && y == b * q + r && s < a && r < b
    ensures a * b > 0 && x / (a * b) == q && x % (a * b) == a * r + s
  {
    Distribute(a, b, q, r);
    RemainderFits(a, b, r, s);
    DivUnique(x, a * b, q, a * r + s);
  }

  lemma Distribute(a: nat, b: nat, q: nat, r: nat)
    ensures a * (b * q + r) == a * b * q + a * r
  {}

  lemma RemainderFits(a: nat, b: nat, r: nat, s: nat)
    requires r < b && s < a
    ensures 0 <= a * r + s < a * b
  {
    assert a * (r + 1) <= a * b;
  }

  lemma MulMono(a: nat, b: nat, x: nat)
    requires a <= b
    ensures a * x <= b * x
  {}

  lemma MulLess(d: int, a: int, b: int)
    requires d > 0 && d * a < d * b
    ensures a < b
  {}

  lemma {:induction false} BitOne(c: nat, i: nat)
    ensures Bit(Pow2(c), i) == (i == c)
  {
    ShlIsMul(1, c);
    BitShl(1, c, i);
    if i > c { BitZero(i - c - 1); }
  }

  /** (1 << c) - 1 */
  lemma {:induction false} BitMask(c: nat, i: nat)
    ensures Bit(Pow2(c) - 1, i) == (i < c)
    decreases c
  {
    if c == 0 { BitZero(i); }
    else if i != 0 {
      assert (Pow2(c) - 1) / 2 == Pow2(c - 1) - 1;
      BitMask(c - 1, i - 1);
    }
  }

  /** A number below 2^c has no digit at or above place c, and conversely. */
  lemma {:induction false} BitAbove(x: nat, c: nat, i: nat)
    requires x < Pow2(c) && i >= c
    ensures !Bit(x, i)
    decreases c
  {
    if c == 0 { BitZero(i); } else { BitAbove(x / 2, c - 1, i - 1); }
  }

  lemma {:induction false} BoundFromBits(x: nat, c: nat)
    requires forall i: nat :: i >= c ==> !Bit(x, i)
    ensures x < Pow2(c)
    decreases c
  {
    if c == 0 {
      if x != 0 { var i := SomeBit(x); }
    } else {
      forall i: nat | i >= c - 1 ensures !Bit(x / 2, i) { assert !Bit(x, i + 1); }
      BoundFromBits(x / 2, c - 1);
    }
  }

  lemma {:induction false} SomeBit(x: nat) returns (i: nat)
    requires x != 0
    ensures Bit(x, i)
  {
    if x % 2 == 1 { i := 0; } else { i := SomeBit(x / 2); i := i + 1; }
  }

  /** Words are equal when all their digits are. */
  lemma {:induction false} BitExt(x: nat, y: nat)
    requires forall i: nat :: Bit(x, i) == Bit(y, i)
    ensures x == y
    decreases x + y
  {
    assert Bit(x, 0) == Bit(y, 0);
    if x != 0 || y != 0 {
      forall i: nat ensures Bit(x / 2, i) == Bit(y / 2, i) { assert Bit(x, i + 1) == Bit(y, i + 1); }
      BitExt(x / 2, y / 2);
    }
  }

  /** count_trailing_zeros_in_u64 */
  function TrailingZeros(x: nat): (c: nat)
    ensures x == 0 ==> c == 64
    ensures x > 0 ==> Bit(x, c)
    ensures forall i: nat :: i < c ==> !Bit(x, i)
  {
    if x == 0 then NoBits(); 64
    else if x % 2 == 1 then 0
    else assert forall i: nat :: 0 < i ==> Bit(x, i) == Bit(x / 2, i - 1); 1 + TrailingZeros(x / 2)
  }

  lemma NoBits()
    ensures forall i: nat :: !Bit(0, i)
  {
    forall i: nat ensures !Bit(0, i) { BitZero(i); }
  }

  /** Erasing a one makes the word smaller. */
  lemma {:induction false} ClearBit(x: nat, c: nat)
    requires Bit(x, c)
    ensures Xor(x, Shl(1, c)) + Pow2(c) == x
    decreases c
  {
    if c == 0 { XorZero(x / 2); } else { ClearBit(x / 2, c - 1); }
  }

  lemma {:induction false} XorZero(x: nat)
    ensures Xor(x, 0) == x
  {
    if x != 0 { XorZero(x / 2); }
  }

  lemma BitErase(x: nat, c: nat, i: nat)
    requires Bit(x, c)
    ensures Bit(Xor(x, Shl(1, c)), i) == (Bit(x, i) && i != c)
  {
    BitXor(x, Shl(1, c), i);
    ShlIsMul(1, c);
    BitOne(c, i);
  }
}
