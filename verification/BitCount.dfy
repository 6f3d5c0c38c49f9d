/** Counting the ones of a bit matrix (cpc/include/cpc_util.hpp:50-126). */
module BitCounts {
  import opened Words

  /** The number of ones of a word. */
  function Pop(x: nat): (c: nat) {
    if x == 0 then 0 else x % 2 + Pop(x / 2)
  }

  function PopSum(a: seq<nat>): (c: nat) {
    if a == [] then 0 else PopSum(a[..|a| - 1]) + Pop(a[|a| - 1])
  }

  // ---------- Wegner ----------

  lemma {:induction false} AndSelf(x: nat)
    ensures And(x, x) == x
  {
    if x != 0 { AndSelf(x / 2); }
  }

  /** x & (x - 1) drops the lowest one. */
  lemma {:induction false} DropLowestOne(x: nat)
    requires x > 0
    ensures Pop(And(x, x - 1)) == Pop(x) - 1 && And(x, x - 1) < x
  {
    if x % 2 == 1 {
      AndSelf(x / 2);
      assert x == 1 || And(x, x - 1) == 2 * And(x / 2, x / 2);
    } else {
      DropLowestOne(x / 2);
      assert (x - 1) / 2 == x / 2 - 1;
      if x / 2 - 1 > 0 { assert And(x, x - 1) == 2 * And(x / 2, x / 2 - 1); }
    }
  }

  method WegnerCount(a: seq<nat>) returns (count: nat)
    ensures count == PopSum(a)
  {
    count := 0;
    for i := 0 to |a|
      invariant count == PopSum(a[..i])
    {
      assert a[..i + 1][..i] == a[..i];
      var pattern: nat := a[i];
      while pattern != 0
        invariant count + Pop(pattern) == PopSum(a[..i + 1])
        decreases pattern
      {
        DropLowestOne(pattern);
        pattern := And(pattern, pattern - 1);
        count := count + 1;
      }
    }
    assert a[..|a|] == a;
  }

  // ---------- carry-save adder ----------

  function CsaHigh(a: nat, b: nat, c: nat): (h: nat) { Or(And(a, b), And(Xor(a, b), c)) }
  function CsaLow(a: nat, b: nat, c: nat): (l: nat) { Xor(Xor(a, b), c) }

  /** Three words are added digit by digit: the high word counts twice. */
  lemma {:induction false} CarrySave(a: nat, b: nat, c: nat)
    ensures Pop(a) + Pop(b) + Pop(c) == 2 * Pop(CsaHigh(a, b, c)) + Pop(CsaLow(a, b, c))
    decreases a + b + c
  {
    if a != 0 || b != 0 || c != 0 {
      CarrySave(a / 2, b / 2, c / 2);
      AndHalf(a, b);
      XorHalf(a, b);
      AndHalf(Xor(a, b), c);
      XorHalf(Xor(a, b), c);
      OrHalf(And(a, b), And(Xor(a, b), c));
      hide And, Or, Xor;
      PopHalf(a);
      PopHalf(b);
      PopHalf(c);
      PopHalf(CsaHigh(a, b, c));
      PopHalf(CsaLow(a, b, c));
    }
  }

  lemma PopHalf(x: nat)
    ensures Pop(x) == x % 2 + Pop(x / 2)
  {}

  lemma AndHalf(x: nat, y: nat)
    ensures And(x, y) / 2 == And(x / 2, y / 2) && And(x, y) % 2 == (if x % 2 == 1 && y % 2 == 1 then 1 else 0)
  {}

  lemma OrHalf(x: nat, y: nat)
    ensures Or(x, y) / 2 == Or(x / 2, y / 2) && Or(x, y) % 2 == (if x % 2 == 1 || y % 2 == 1 then 1 else 0)
  {}

  lemma XorHalf(x: nat, y: nat)
    ensures Xor(x, y) / 2 == Xor(x / 2, y / 2) && Xor(x, y) % 2 == (if x % 2 != y % 2 then 1 else 0)
  {}

  // ---------- Warren ----------

  /** Masks of n two-bit, four-bit and eight-bit fields. */
  function Mask55(n: nat): (m: nat) { if n == 0 then 0 else 4 * Mask55(n - 1) + 1 }
  function Mask33(n: nat): (m: nat) { if n == 0 then 0 else 16 * Mask33(n - 1) + 3 }
  function Mask0F(n: nat): (m: nat) { if n == 0 then 0 else 256 * Mask0F(n - 1) + 15 }

  /** The word whose two-bit, four-bit and eight-bit fields hold the counts of the fields of x. */
  function Counts2(x: nat): (y: nat) { if x == 0 then 0 else 4 * Counts2(x / 4) + Pop(x % 4) }
  function Counts4(x: nat): (y: nat) { if x == 0 then 0 else 16 * Counts4(x / 16) + Pop(x % 16) }
  function Counts8(x: nat): (y: nat) { if x == 0 then 0 else 256 * Counts8(x / 256) + Pop(x % 256) }

  lemma PopBelow4(d: nat)
    requires d < 4
    ensures Pop(d) == d % 2 + d / 2 == d - d / 2
  {
    assert Pop(d / 2) == d / 2;
  }

  /** Counts of fields add up. */
  lemma PopQuarter(x: nat)
    ensures Pop(x) == Pop(x % 4) + Pop(x / 4) && Pop(x % 4) <= 2
  {
    PopHalf(x);
    PopHalf(x / 2);
    PopBelow4(x % 4);
    hide Pop;
    DivModParts(x, 2, 2);
  }

  lemma PopBelow16(x: nat)
    ensures Pop(x % 16) == Pop(x % 4) + Pop(x / 4 % 4) <= 4
  {
    hide Pop;
    LowNibble(x);
    PopQuarter(x % 16);
    PopQuarter(x);
    PopQuarter(x / 4);
  }

  lemma LowNibble(x: nat)
    ensures x % 16 / 4 == x / 4 % 4 && x % 16 % 4 == x % 4 && x / 4 / 4 == x / 16
  {
    DivModParts(x, 4, 4);
  }

  lemma LowByte(x: nat)
    ensures x % 256 / 16 == x / 16 % 16 && x % 256 % 16 == x % 16 && x / 16 / 16 == x / 256
  {
    DivModParts(x, 16, 16);
  }

  lemma PopSixteenth(x: nat)
    ensures Pop(x) == Pop(x % 16) + Pop(x / 16)
  {
    hide Pop;
    PopQuarter(x);
    PopQuarter(x / 4);
    PopBelow16(x);
    LowNibble(x);
  }

  lemma PopBelow256(x: nat)
    ensures Pop(x % 256) == Pop(x % 16) + Pop(x / 16 % 16) <= 8
  {
    hide Pop;
    PopSixteenth(x % 256);
    PopBelow16(x);
    PopBelow16(x / 16);
    LowByte(x);
  }

  lemma Pop256th(x: nat)
    ensures Pop(x) == Pop(x % 256) + Pop(x / 256)
  {
    hide Pop;
    PopSixteenth(x);
    PopSixteenth(x / 16);
    PopBelow256(x);
    LowByte(x);
  }

  lemma FieldBound(x: nat, f: nat, m: nat)
    requires x < Pow2(f + m) && (f == 2 || f == 4 || f == 8)
    ensures f == 2 ==> x / 4 < Pow2(m)
    ensures f == 4 ==> x / 16 < Pow2(m)
    ensures f == 8 ==> x / 256 < Pow2(m)
  {
    Pow2Add(f, m);
    Pow2Values();
    hide Pow2;
  }

  lemma HalfQuarter(x: nat)
    ensures x / 2 / 4 == x / 4 / 2 && x % 4 / 2 == x / 2 % 2 && x == 4 * (x / 4) + x % 4
  {
    DivModParts(x, 2, 4);
    DivModParts(x, 4, 2);
    DivModParts(x, 2, 2);
  }

  lemma QuarterSixteenth(x: nat)
    ensures x / 4 / 16 == x / 16 / 4
  {
    DivModParts(x, 4, 16);
    DivModParts(x, 16, 4);
  }

  lemma ByteFields(x: nat)
    ensures x / 2 / 2 == x / 4 && x / 4 / 16 == x / 64 && x / 64 / 2 == x / 128 && x / 128 / 2 == x / 256
    ensures x % 16 == 4 * (x / 4 % 4) + 2 * (x / 2 % 2) + x % 2
  {
    DivModParts(x, 2, 2);
    DivModParts(x, 4, 16);
    DivModParts(x, 64, 2);
    DivModParts(x, 128, 2);
    DivModParts(x, 4, 4);
  }

  lemma MaskStep(n: nat)
    requires n > 0
    ensures Mask55(n) == 4 * Mask55(n - 1) + 1
    ensures Mask33(n) == 16 * Mask33(n - 1) + 3
    ensures Mask0F(n) == 256 * Mask0F(n - 1) + 15
  {}

  /** i - ((i >> 1) & 0x55..) */
  lemma {:induction false} Step2(x: nat, n: nat)
    requires x < Pow2(2 * n)
    ensures x - And(x / 2, Mask55(n)) == Counts2(x)
    decreases n
  {
    if n > 0 && x > 0 {
      hide *;
      FieldBound(x, 2, 2 * (n - 1));
      Step2(x / 4, n - 1);
      Counts2Step(x);
      MaskStep(n);
      AndField2(x / 2, Mask55(n - 1));
      PopBelow4(x % 4);
      HalfQuarter(x);
    }
  }

  lemma Counts2Step(x: nat)
    ensures Counts2(x) == 4 * Counts2(x / 4) + Pop(x % 4)
  {}

  lemma Counts4Step(x: nat)
    ensures Counts4(x) == 16 * Counts4(x / 16) + Pop(x % 16)
  {}

  lemma Counts8Step(x: nat)
    ensures Counts8(x) == 256 * Counts8(x / 256) + Pop(x % 256)
  {}

  lemma AndField2(x: nat, m: nat)
    ensures And(x, 4 * m + 1) == 4 * And(x / 4, m) + x % 2
  {
    hide And;
    AndTwice(x, 4 * m + 1);
    AndTwice(x / 2, 2 * m);
    DivModParts(x, 2, 2);
  }

  lemma AndTwice(x: nat, y: nat)
    ensures And(x, y) == 2 * And(x / 2, y / 2) + (if x % 2 == 1 && y % 2 == 1 then 1 else 0)
  {}

  lemma AndField4(x: nat, m: nat)
    ensures And(x, 16 * m + 3) == 16 * And(x / 16, m) + x % 4
  {
    hide And;
    AndTwice(x, 16 * m + 3);
    AndField2(x / 2, 2 * m);
    AndTwice(x / 8, 2 * m);
    assert x / 2 / 4 == x / 8 by { DivModParts(x, 2, 4); }
    assert x / 8 / 2 == x / 16 by { DivModParts(x, 8, 2); }
    assert x % 4 == 2 * (x / 2 % 2) + x % 2 by { DivModParts(x, 2, 2); }
    assert (16 * m + 3) / 2 == 8 * m + 1 && (2 * m) / 2 == m && (2 * m) % 2 == 0;
  }

  lemma AndField8(x: nat, m: nat)
    ensures And(x, 256 * m + 15) == 256 * And(x / 256, m) + x % 16
  {
    hide And;
    AndTwice(x, 256 * m + 15);
    AndTwice(x / 2, 128 * m + 7);
    AndField4(x / 4, 4 * m);
    AndTwice(x / 64, 4 * m);
    AndTwice(x / 128, 2 * m);
    ByteFields(x);
  }

  lemma Counts2Split(x: nat)
    ensures Counts2(x) == 16 * Counts2(x / 16) + 4 * Pop(x / 4 % 4) + Pop(x % 4)
    ensures Counts2(x) % 4 == Pop(x % 4) && Counts2(x) / 4 % 4 == Pop(x / 4 % 4) && Counts2(x) / 16 == Counts2(x / 16)
  {
    hide Pop, Counts2;
    LowNibble(x);
    Counts2Step(x);
    Counts2Step(x / 4);
    PopQuarter(x);
    PopQuarter(x / 4);
  }

  /** (i & 0x33..) + ((i >> 2) & 0x33..) */
  lemma {:induction false} Step4(x: nat, n: nat)
    requires x < Pow2(4 * n)
    ensures And(Counts2(x), Mask33(n)) + And(Counts2(x) / 4, Mask33(n)) == Counts4(x)
    decreases n
  {
    if n > 0 && x > 0 {
      hide *;
      FieldBound(x, 4, 4 * (n - 1));
      Step4(x / 16, n - 1);
      MaskStep(n);
      Counts4Step(x);
      Counts2Split(x);
      Fields4(Counts2(x), Mask33(n - 1));
      PopBelow16(x);
    }
  }

  lemma Fields4(y: nat, m: nat)
    ensures And(y, 16 * m + 3) + And(y / 4, 16 * m + 3) == 16 * (And(y / 16, m) + And(y / 16 / 4, m)) + y % 4 + y / 4 % 4
  {
    hide *;
    AndField4(y, m);
    AndField4(y / 4, m);
    QuarterSixteenth(y);
  }

  lemma Counts4Split(x: nat)
    ensures Counts4(x) == 256 * Counts4(x / 256) + 16 * Pop(x / 16 % 16) + Pop(x % 16)
    ensures Counts4(x) % 16 <= 4
  {
    hide *;
    LowByte(x);
    Counts4Step(x);
    Counts4Step(x / 16);
    PopBelow16(x);
    DivUnique(Counts4(x), 16, Counts4(x / 16), Pop(x % 16));
  }

  /** (i + (i >> 4)) & 0x0f.. */
  lemma {:induction false} Step8(x: nat, n: nat)
    requires x < Pow2(8 * n)
    ensures And(Counts4(x) + Counts4(x) / 16, Mask0F(n)) == Counts8(x)
    decreases n
  {
    if n > 0 && x > 0 {
      hide *;
      EighthBound(x, n);
      Step8(x / 256, n - 1);
      Fields8(x, n);
      Counts8Step(x);
    }
  }

  lemma EighthBound(x: nat, n: nat)
    requires n > 0 && x < Pow2(8 * n)
    ensures x / 256 < Pow2(8 * (n - 1))
  {
    hide *;
    FieldBound(x, 8, 8 * (n - 1));
  }

  lemma Fields8(x: nat, n: nat)
    requires n > 0
    ensures And(Counts4(x) + Counts4(x) / 16, Mask0F(n))
         == 256 * And(Counts4(x / 256) + Counts4(x / 256) / 16, Mask0F(n - 1)) + Pop(x % 256)
  {
    hide *;
    MaskStep(n);
    NibblePair(x);
    AndField8(Counts4(x) + Counts4(x) / 16, Mask0F(n - 1));
  }

  lemma NibblePair(x: nat)
    ensures (Counts4(x) + Counts4(x) / 16) % 16 == Pop(x % 256)
    ensures (Counts4(x) + Counts4(x) / 16) / 256 == Counts4(x / 256) + Counts4(x / 256) / 16
  {
    hide *;
    Counts4Split(x);
    Counts4Split(x / 256);
    PopBelow256(x);
    PopBelow16(x);
    PopBelow16(x / 16);
    NoCarry(Counts4(x / 256), Pop(x / 16 % 16), Pop(x % 16));
  }

  lemma NoCarry(q: nat, hi: nat, lo: nat)
    requires q % 16 <= 4 && hi <= 4 && lo <= 4
    ensures var z := 256 * q + 16 * hi + lo; (z + z / 16) % 16 == hi + lo && (z + z / 16) / 256 == q + q / 16
  {
    var z := 256 * q + 16 * hi + lo;
    assert z / 16 == 16 * q + hi;
    assert q == 16 * (q / 16) + q % 16;
  }

  /** The last three steps add up the eight byte fields. */
  function AddBytes(c: nat): (r: nat) {
    var d := c + c / 0x100;
    var e := d + d / 0x1_0000;
    var f := e + e / 0x1_0000_0000;
    f % 128
  }

  /** Folding the upper half of a word onto the lower, when no field overflows. */
  lemma FoldOnce(low: nat, high: nat, p: nat)
    requires 0 <= low < p
    ensures (low + p * high) / p == high
  {
    DivUnique(low + p * high, p, high, low);
  }

  /** c = low 32-bit half + 2^32 * high half, each made of four byte fields */
  function FourBytes(b0: nat, b1: nat, b2: nat, b3: nat): (r: nat) {
    b0 + 0x100 * b1 + 0x1_0000 * b2 + 0x100_0000 * b3
  }

  /** Eight byte fields. */
  function Fields(b: seq<nat>): (r: nat)
    requires |b| == 8
  {
    FourBytes(b[0], b[1], b[2], b[3]) + 0x1_0000_0000 * FourBytes(b[4], b[5], b[6], b[7])
  }

  /** i + (i >> 8) */
  lemma FoldBytes(b0: nat, b1: nat, b2: nat, b3: nat, b4: nat, b5: nat, b6: nat, b7: nat)
    requires b0 < 256
    ensures var c := Fields([b0, b1, b2, b3, b4, b5, b6, b7]);
            c + c / 0x100 == Fields([b0 + b1, b1 + b2, b2 + b3, b3 + b4, b4 + b5, b5 + b6, b6 + b7, b7])
  {
    FoldOnce(b0, FourBytes(b1, b2, b3, b4) + 0x1_0000_0000 * FourBytes(b5, b6, b7, 0), 0x100);
  }

  /** i + (i >> 16) */
  lemma FoldPairs(b0: nat, b1: nat, b2: nat, b3: nat, b4: nat, b5: nat, b6: nat, b7: nat)
    requires b0 < 256 && b1 < 256
    ensures var c := Fields([b0, b1, b2, b3, b4, b5, b6, b7]);
            c + c / 0x1_0000 == Fields([b0 + b2, b1 + b3, b2 + b4, b3 + b5, b4 + b6, b5 + b7, b6, b7])
  {
    FoldOnce(b0 + 0x100 * b1, FourBytes(b2, b3, b4, b5) + 0x1_0000_0000 * FourBytes(b6, b7, 0, 0), 0x1_0000);
  }

  /** (i + (i >> 32)) & 0x7f */
  lemma FoldHalves(b0: nat, b1: nat, b2: nat, b3: nat, b4: nat, b5: nat, b6: nat, b7: nat)
    requires b0 + b4 < 128 && b1 < 256 && b2 < 256 && b3 < 256
    ensures var c := Fields([b0, b1, b2, b3, b4, b5, b6, b7]); (c + c / 0x1_0000_0000) % 128 == b0 + b4
  {
    hide FourBytes;
    LowestByte(b0, b1, b2, b3);
    LowestByte(b4, b5, b6, b7);
    HalvesSum(FourBytes(b0, b1, b2, b3), FourBytes(b4, b5, b6, b7), FourBytes(b1, b2, b3, 0), FourBytes(b5, b6, b7, 0), b0, b4);
  }

  lemma HalvesSum(low: nat, high: nat, l: nat, h: nat, s: nat, t: nat)
    requires low == 0x100 * l + s && high == 0x100 * h + t && s + t < 128 && low < 0x1_0000_0000
    ensures var c := low + 0x1_0000_0000 * high; (c + c / 0x1_0000_0000) % 128 == s + t
  {
    FoldOnce(low, high, 0x1_0000_0000);
    LastSeven(l, h, s, t);
  }

  lemma LowestByte(b0: nat, b1: nat, b2: nat, b3: nat)
    ensures FourBytes(b0, b1, b2, b3) == 0x100 * FourBytes(b1, b2, b3, 0) + b0
    ensures b0 < 256 && b1 < 256 && b2 < 256 && b3 < 256 ==> FourBytes(b0, b1, b2, b3) < 0x1_0000_0000
  {}

  lemma AddBytesIs(b0: nat, b1: nat, b2: nat, b3: nat, b4: nat, b5: nat, b6: nat, b7: nat)
    requires b0 <= 8 && b1 <= 8 && b2 <= 8 && b3 <= 8 && b4 <= 8 && b5 <= 8 && b6 <= 8 && b7 <= 8
    ensures AddBytes(Fields([b0, b1, b2, b3, b4, b5, b6, b7])) == b0 + b1 + b2 + b3 + b4 + b5 + b6 + b7
  {
    hide Fields, FourBytes;
    FoldBytes(b0, b1, b2, b3, b4, b5, b6, b7);
    FoldPairs(b0 + b1, b1 + b2, b2 + b3, b3 + b4, b4 + b5, b5 + b6, b6 + b7, b7);
    FoldHalves((b0 + b1) + (b2 + b3), (b1 + b2) + (b3 + b4), (b2 + b3) + (b4 + b5), (b3 + b4) + (b5 + b6),
               (b4 + b5) + (b6 + b7), (b5 + b6) + b7, b6 + b7, b7);
  }

  lemma LastSeven(l: nat, h: nat, s: nat, t: nat)
    requires s + t < 128
    ensures var low, high := 0x100 * l + s, 0x100 * h + t; (low + 0x1_0000_0000 * high + high) % 128 == s + t
  {
    var low, high := 0x100 * l + s, 0x100 * h + t;
    DivUnique(low + 0x1_0000_0000 * high + high, 128, 2 * l + 2 * h + 0x200_0000 * high, s + t);
  }

  lemma FourSteps(x: nat, n: nat) returns (p0: nat, p1: nat, p2: nat, p3: nat, rest: nat)
    requires x < Pow2(32 + n)
    ensures p0 <= 8 && p1 <= 8 && p2 <= 8 && p3 <= 8 && rest < Pow2(n)
    ensures Counts8(x) == FourBytes(p0, p1, p2, p3) + 0x1_0000_0000 * Counts8(rest)
    ensures Pop(x) == p0 + p1 + p2 + p3 + Pop(rest)
  {
    hide Pop, Counts8, Pow2;
    var x1 := x / 256; var x2 := x1 / 256; var x3 := x2 / 256;
    rest := x3 / 256;
    ByteStep(x, 24 + n); ByteStep(x1, 16 + n); ByteStep(x2, 8 + n); ByteStep(x3, n);
    p0, p1, p2, p3 := Pop(x % 256), Pop(x1 % 256), Pop(x2 % 256), Pop(x3 % 256);
  }

  lemma SumOfBytes(x: nat)
    requires x < Pow2(64)
    ensures AddBytes(Counts8(x)) == Pop(x)
  {
    hide Pop, Counts8, Pow2, AddBytes, FourBytes;
    var b0, b1, b2, b3, y := FourSteps(x, 32);
    var b4, b5, b6, b7, z := FourSteps(y, 0);
    NothingLeft(z);
    AddBytesIs(b0, b1, b2, b3, b4, b5, b6, b7);
  }

  lemma NothingLeft(x: nat)
    requires x < Pow2(0)
    ensures Counts8(x) == 0 && Pop(x) == 0
  {}

  lemma ByteStep(x: nat, n: nat)
    requires x < Pow2(8 + n)
    ensures x / 256 < Pow2(n)
    ensures Counts8(x) == Pop(x % 256) + 0x100 * Counts8(x / 256)
    ensures Pop(x) == Pop(x % 256) + Pop(x / 256) && Pop(x % 256) <= 8
  {
    FieldBound(x, 8, n);
    hide *;
    Counts8Step(x);
    Pop256th(x);
    PopBelow256(x);
  }

  function WarrenBitCount(i: nat): (r: int) {
    var a := i - And(i / 2, 0x5555_5555_5555_5555);
    if a < 0 then a
    else
      var b := And(a, 0x3333_3333_3333_3333) + And(a / 4, 0x3333_3333_3333_3333);
      AddBytes(And(b + b / 16, 0x0F0F_0F0F_0F0F_0F0F))
  }

  /** The branch-free count of a 64-bit word is its number of ones. */
  lemma WarrenIsPop(i: nat)
    requires i < Pow2(64)
    ensures WarrenBitCount(i) == Pop(i)
  {
    hide And, Counts2, Counts4, Counts8, Pop, Pow2, AddBytes, Mask55, Mask33, Mask0F;
    Masks();
    Step2(i, 32);
    Step4(i, 16);
    Step8(i, 8);
    SumOfBytes(i);
  }

  lemma Masks()
    ensures Mask55(32) == 0x5555_5555_5555_5555
    ensures Mask33(16) == 0x3333_3333_3333_3333
    ensures Mask0F(8) == 0x0F0F_0F0F_0F0F_0F0F
  {
    hide Mask55, Mask33, Mask0F;
    MaskFour(0); MaskFour(4); MaskFour(8); MaskFour(12); MaskFour(16); MaskFour(20); MaskFour(24); MaskFour(28);
    NoMask();
  }

  lemma NoMask()
    ensures Mask55(0) == 0 && Mask33(0) == 0 && Mask0F(0) == 0
  {}

  lemma MaskFour(n: nat)
    ensures Mask55(n + 4) == 0x100 * Mask55(n) + 0x55
    ensures Mask33(n + 4) == 0x1_0000 * Mask33(n) + 0x3333
    ensures Mask0F(n + 4) == 0x1_0000_0000 * Mask0F(n) + 0x0F0F_0F0F
  {
    hide *;
    MaskStep(n + 1); MaskStep(n + 2); MaskStep(n + 3); MaskStep(n + 4);
  }

  // ---------- carry-save counting of a whole array ----------

  datatype CountResult = Count(value: nat) | InvalidLength

  lemma {:induction false} BitwiseBound(x: nat, y: nat, n: nat)
    requires x < Pow2(n) && y < Pow2(n)
    ensures Or(x, y) < Pow2(n) && And(x, y) < Pow2(n) && Xor(x, y) < Pow2(n)
    decreases n
  {
    if n > 0 { BitwiseBound(x / 2, y / 2, n - 1); }
  }

  lemma CsaBound(a: nat, b: nat, c: nat)
    requires a < Pow2(64) && b < Pow2(64) && c < Pow2(64)
    ensures CsaHigh(a, b, c) < Pow2(64) && CsaLow(a, b, c) < Pow2(64)
  {
    hide *;
    BitwiseBound(a, b, 64);
    BitwiseBound(Xor(a, b), c, 64);
    BitwiseBound(And(a, b), And(Xor(a, b), c), 64);
    CsaParts(a, b, c);
  }

  lemma CsaParts(a: nat, b: nat, c: nat)
    ensures CsaHigh(a, b, c) == Or(And(a, b), And(Xor(a, b), c)) && CsaLow(a, b, c) == Xor(Xor(a, b), c)
  {}

  /** The carry-save adder of the source's macro, on 64-bit words. */
  method Csa(a: nat, b: nat, c: nat) returns (h: nat, l: nat)
    requires a < Pow2(64) && b < Pow2(64) && c < Pow2(64)
    ensures h < Pow2(64) && l < Pow2(64) && 2 * Pop(h) + Pop(l) == Pop(a) + Pop(b) + Pop(c)
  {
    hide *;
    var u := Xor(a, b);
    var v := c;
    h := Or(And(a, b), And(u, v));
    l := Xor(u, v);
    CsaParts(a, b, c);
    CsaBound(a, b, c);
    CarrySave(a, b, c);
  }

  lemma PopSumEight(a: seq<nat>, i: nat)
    requires i + 8 <= |a|
    ensures PopSum(a[..i + 8]) == PopSum(a[..i]) + Pop(a[i]) + Pop(a[i + 1]) + Pop(a[i + 2]) + Pop(a[i + 3])
              + Pop(a[i + 4]) + Pop(a[i + 5]) + Pop(a[i + 6]) + Pop(a[i + 7])
  {
    PopSumFour(a, i);
    PopSumFour(a, i + 4);
  }

  lemma PopSumFour(a: seq<nat>, i: nat)
    requires i + 4 <= |a|
    ensures PopSum(a[..i + 4]) == PopSum(a[..i]) + Pop(a[i]) + Pop(a[i + 1]) + Pop(a[i + 2]) + Pop(a[i + 3])
  {
    hide *;
    PopSumSnoc(a, i); PopSumSnoc(a, i + 1); PopSumSnoc(a, i + 2); PopSumSnoc(a, i + 3);
  }

  lemma PopSumSnoc(a: seq<nat>, i: nat)
    requires i < |a|
    ensures PopSum(a[..i + 1]) == PopSum(a[..i]) + Pop(a[i])
  {
    assert a[..i + 1][..i] == a[..i];
  }

  /** One round: eight words go into the running ones, twos and fours, and a word of eights comes out. */
  method AddEight(ones: nat, twos: nat, fours: nat, a0: nat, a1: nat, a2: nat, a3: nat, a4: nat, a5: nat, a6: nat, a7: nat)
    returns (ones': nat, twos': nat, fours': nat, eights: nat)
    requires ones < Pow2(64) && twos < Pow2(64) && fours < Pow2(64)
    requires a0 < Pow2(64) && a1 < Pow2(64) && a2 < Pow2(64) && a3 < Pow2(64)
    requires a4 < Pow2(64) && a5 < Pow2(64) && a6 < Pow2(64) && a7 < Pow2(64)
    ensures ones' < Pow2(64) && twos' < Pow2(64) && fours' < Pow2(64) && eights < Pow2(64)
    ensures 8 * Pop(eights) + 4 * Pop(fours') + 2 * Pop(twos') + Pop(ones')
         == 4 * Pop(fours) + 2 * Pop(twos) + Pop(ones)
            + Pop(a0) + Pop(a1) + Pop(a2) + Pop(a3) + Pop(a4) + Pop(a5) + Pop(a6) + Pop(a7)
  {
    hide *;
    var twosA, twosB, foursA, foursB;
    twosA, ones' := Csa(ones, a0, a1);
    twosB, ones' := Csa(ones', a2, a3);
    foursA, twos' := Csa(twos, twosA, twosB);
    twosA, ones' := Csa(ones', a4, a5);
    twosB, ones' := Csa(ones', a6, a7);
    foursB, twos' := Csa(twos', twosA, twosB);
    eights, fours' := Csa(fours, foursA, foursB);
  }

  /** Counts eight words at a time; the total is kept in 32 bits. */
  method CountBitsSetInMatrix(a: seq<nat>) returns (r: CountResult)
    requires |a| > 0 && forall i :: 0 <= i < |a| ==> a[i] < Pow2(64)
    ensures r == if |a| % 8 != 0 then InvalidLength else Count(PopSum(a) % U32)
  {
    hide Pop, PopSum, WarrenBitCount, Pow2;
    if |a| % 8 != 0 { return InvalidLength; }
    var total: nat := 0;
    ghost var exact: nat := 0;
    var ones: nat, twos: nat, fours: nat := 0, 0, 0;
    var i := 0;
    ghost var rounds := |a| / 8;
    ghost var done := 0;
    assert a[..0] == [];
    PopSumNone();
    while i <= |a| - 8
      invariant i == 8 * done && done <= rounds && |a| == 8 * rounds
      invariant ones < Pow2(64) && twos < Pow2(64) && fours < Pow2(64)
      invariant total == exact % U32
      invariant 8 * exact + 4 * Pop(fours) + 2 * Pop(twos) + Pop(ones) == PopSum(a[..i])
    {
      PopSumEight(a, i);
      var eights;
      ones, twos, fours, eights := AddEight(ones, twos, fours, a[i], a[i + 1], a[i + 2], a[i + 3], a[i + 4], a[i + 5], a[i + 6], a[i + 7]);
      WarrenIsPop(eights);
      AddWraps(exact, Pop(eights));
      total := (total + WarrenBitCount(eights)) % U32;
      exact := exact + Pop(eights);
      i := i + 8;
      done := done + 1;
    }
    assert a[..i] == a;
    WarrenIsPop(ones);
    WarrenIsPop(twos);
    WarrenIsPop(fours);
    TotalWraps(exact, 4 * Pop(fours) + 2 * Pop(twos) + Pop(ones));
    r := Count((8 * total + 4 * WarrenBitCount(fours) + 2 * WarrenBitCount(twos) + WarrenBitCount(ones)) % U32);
  }

  lemma PopSumNone()
    ensures PopSum([]) == 0 && Pop(0) == 0
  {}

  lemma AddWraps(x: nat, y: nat)
    ensures (x % U32 + y) % U32 == (x + y) % U32
  {
    var z := x % U32 + y;
    DivUnique(x + y, U32, x / U32 + z / U32, z % U32);
  }

  lemma TotalWraps(exact: nat, rest: nat)
    ensures (8 * (exact % U32) + rest) % U32 == (8 * exact + rest) % U32
  {
    var q := exact / U32;
    assert 8 * exact + rest == 8 * (exact % U32) + rest + U32 * (8 * q);
    var y := 8 * (exact % U32) + rest;
    DivUnique(8 * exact + rest, U32, y / U32 + 8 * q, y % U32);
  }
}
