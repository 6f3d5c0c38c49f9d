/** The union of CPC sketches (cpc/include/cpc_union_impl.hpp).
  *
  * Sketches of a larger K are folded to the union's K: a coupon keeps its column, and its row is
  * reduced modulo K.
  */
module CpcUnionSpec {
  import opened Words
  import opened Sets
  import opened CpcSpec

  function FoldCoupon(x: nat, k: nat): (y: nat)
    requires k > 0
    ensures y < 64 * k
  {
    x % (64 * k)
  }

  /** The coupons of s, folded to k rows. */
  ghost function Fold(s: set<nat>, k: nat): (r: set<nat>)
    requires k > 0
  {
    set x | x in s :: FoldCoupon(x, k)
  }

  ghost predicate Below64K(s: set<nat>, k: nat) {
    forall x :: x in s ==> x < 64 * k
  }

  /** Folding takes the row modulo k and keeps the column. */
  lemma FoldRowCol(x: nat, k: nat)
    requires k > 0
    ensures FoldCoupon(x, k) == 64 * (x / 64 % k) + x % 64
    ensures FoldCoupon(x, k) / 64 == x / 64 % k && FoldCoupon(x, k) % 64 == x % 64
  {
    DivModParts(x, 64, k);
  }

  lemma FoldIdentity(s: set<nat>, k: nat)
    requires k > 0 && Below64K(s, k)
    ensures Fold(s, k) == s
  {
    forall x | x in s ensures FoldCoupon(x, k) == x { DivUnique(x, 64 * k, 0, x); }
    forall x | x in s ensures x in Fold(s, k) { assert FoldCoupon(x, k) == x; }
  }

  lemma FoldRange(s: set<nat>, k: nat)
    requires k > 0
    ensures Below64K(Fold(s, k), k)
  {}

  lemma FoldUnion(a: set<nat>, b: set<nat>, k: nat)
    requires k > 0
    ensures Fold(a + b, k) == Fold(a, k) + Fold(b, k)
  {}

  lemma {:induction false} FoldSize(s: set<nat>, k: nat)
    requires k > 0
    ensures |Fold(s, k)| <= |s|
  {
    hide FoldCoupon;
    if s == {} {
      assert Fold(s, k) == {};
    } else {
      var x :| x in s;
      FoldSize(s - {x}, k);
      assert Fold(s, k) == Fold(s - {x}, k) + {FoldCoupon(x, k)};
    }
  }

  /** Folding in two steps is folding once. */
  lemma FoldTwice(s: set<nat>, a: nat, b: nat)
    requires b <= a
    ensures Fold(Fold(s, Pow2(a)), Pow2(b)) == Fold(s, Pow2(b))
  {
    hide Pow2, FoldCoupon;
    forall x | x in s ensures FoldCoupon(FoldCoupon(x, Pow2(a)), Pow2(b)) == FoldCoupon(x, Pow2(b)) {
      FoldCouponTwice(x, a, b);
    }
    forall y | y in Fold(s, Pow2(b)) ensures y in Fold(Fold(s, Pow2(a)), Pow2(b)) {
      var x :| x in s && y == FoldCoupon(x, Pow2(b));
      assert FoldCoupon(x, Pow2(a)) in Fold(s, Pow2(a));
    }
  }

  lemma FoldCouponTwice(x: nat, a: nat, b: nat)
    requires b <= a
    ensures FoldCoupon(FoldCoupon(x, Pow2(a)), Pow2(b)) == FoldCoupon(x, Pow2(b))
  {
    var d, n := Pow2(a - b), 64 * Pow2(b);
    assert 64 * Pow2(a) == n * d by { Pow2Add(b, a - b); TimesAssoc(Pow2(b), d); }
    DivModParts(x, n, d);
    DivUnique(n * (x / n % d) + x % n, n, x / n % d, x % n);
  }

  lemma TimesAssoc(p: nat, d: nat)
    ensures 64 * (p * d) == (64 * p) * d
  {}

  // ---------- folding loses at most a factor ----------

  ghost function Shifted(s: set<nat>, d: nat): (r: set<nat>) {
    set x | x in s && x >= d :: x - d
  }

  lemma {:induction false} ShiftedCount(s: set<nat>, d: nat)
    requires forall x :: x in s ==> x >= d
    ensures |Shifted(s, d)| == |s|
  {
    if s == {} {
      assert Shifted(s, d) == {};
    } else {
      var x :| x in s;
      ShiftedCount(s - {x}, d);
      ShiftedPut(s - {x}, d, x);
      assert s == s - {x} + {x};
    }
  }

  lemma ShiftedPut(s: set<nat>, d: nat, x: nat)
    requires x !in s && x >= d
    ensures Shifted(s + {x}, d) == Shifted(s, d) + {x - d} && x - d !in Shifted(s, d)
  {}

  /** Halving the number of rows at most halves the number of coupons. */
  lemma HalfFoldCount(s: set<nat>, k: nat)
    requires k > 0 && Below64K(s, 2 * k)
    ensures |s| <= 2 * |Fold(s, k)|
  {
    var low := set x | x in s && x < 64 * k;
    var high := set x | x in s && x >= 64 * k;
    assert s == low + high;
    forall x | x in low ensures x in Fold(s, k) { DivUnique(x, 64 * k, 0, x); assert FoldCoupon(x, k) == x; }
    forall y | y in Shifted(high, 64 * k) ensures y in Fold(s, k) {
      DivUnique(y + 64 * k, 64 * k, 1, y);
      assert FoldCoupon(y + 64 * k, k) == y;
    }
    ShiftedCount(high, 64 * k);
    SubsetSize(low, Fold(s, k));
    SubsetSize(Shifted(high, 64 * k), Fold(s, k));
  }

  /** Each coupon of the folded set has at most 2^(a - b) originals. */
  lemma {:induction false} FoldCount(s: set<nat>, a: nat, b: nat)
    requires b <= a && Below64K(s, Pow2(a))
    ensures |s| <= Pow2(a - b) * |Fold(s, Pow2(b))|
    decreases a - b
  {
    if a == b {
      FoldIdentity(s, Pow2(b));
    } else {
      var half := Fold(s, Pow2(a - 1));
      HalfFoldCount(s, Pow2(a - 1));
      FoldRange(s, Pow2(a - 1));
      FoldCount(half, a - 1, b);
      FoldTwice(s, a - 1, b);
      assert Pow2(a - b) == 2 * Pow2(a - 1 - b);
      TwiceTimes(Pow2(a - 1 - b), |Fold(s, Pow2(b))|);
    }
  }

  lemma TwiceTimes(p: nat, n: nat)
    ensures 2 * (p * n) == (2 * p) * n
  {}

  /** Past the sparse threshold before folding, past it after folding. */
  lemma FoldKeepsThreshold(s: set<nat>, a: nat, b: nat)
    requires b <= a && Below64K(s, Pow2(a)) && 32 * |s| >= 3 * Pow2(a)
    ensures 32 * |Fold(s, Pow2(b))| >= 3 * Pow2(b)
  {
    var d, n := Pow2(a - b), |Fold(s, Pow2(b))|;
    FoldCount(s, a, b);
    Pow2Add(a - b, b);
    Threshold(d, Pow2(b), n);
  }

  lemma Threshold(d: nat, k: nat, n: nat)
    requires d > 0 && 32 * (d * n) >= 3 * (d * k)
    ensures 32 * n >= 3 * k
  {}

  // ---------- rows ----------

  lemma FoldRow(pattern: nat, row: nat, k: nat)
    requires k > 0
    ensures Fold(RowBits(pattern, row), k) == RowBits(pattern, row % k)
  {
    forall x | x in RowBits(pattern, row) ensures FoldCoupon(x, k) in RowBits(pattern, row % k) {
      FoldRowCol(x, k);
      assert InRow(pattern, row % k, FoldCoupon(x, k));
    }
    forall y | y in RowBits(pattern, row % k) ensures y in Fold(RowBits(pattern, row), k) {
      var x := 64 * row + y % 64;
      FoldRowCol(x, k);
      assert InRow(pattern, row, x) && FoldCoupon(x, k) == y;
    }
  }

  /** matrix[row] |= word adds the coupons of the word in that row. */
  lemma OrRow(m: seq<nat>, s: set<nat>, row: nat, word: nat)
    requires MatrixOf(m, s) && row < |m| && word < WORD_LIMIT
    ensures MatrixOf(m[row := Or(m[row], word)], s + RowBits(word, row))
  {
    var m', s' := m[row := Or(m[row], word)], s + RowBits(word, row);
    OrWord(m[row], word);
    forall rc | 0 <= rc < 64 * |m'| ensures rc in s' <==> Bit(m'[rc / 64], rc % 64) {
      if rc / 64 == row { BitOr(m[row], word, rc % 64); assert rc in RowBits(word, row) <==> InRow(word, row, rc); }
    }
  }

  lemma OrWord(x: nat, y: nat)
    requires x < WORD_LIMIT && y < WORD_LIMIT
    ensures Or(x, y) < WORD_LIMIT
  {
    WordLimit();
    forall i: nat | i >= 64 ensures !Bit(Or(x, y), i) { BitOr(x, y, i); BitAbove(x, 64, i); BitAbove(y, 64, i); }
    BoundFromBits(Or(x, y), 64);
  }

  /** The coupons of the first rows of a matrix. */
  ghost function MatrixRows(m: seq<nat>, rows: nat): (r: set<nat>) {
    set rc | 0 <= rc < 64 * rows && rc / 64 < |m| && Bit(m[rc / 64], rc % 64)
  }

  lemma MatrixRowsNext(m: seq<nat>, row: nat)
    requires row < |m|
    ensures MatrixRows(m, row + 1) == MatrixRows(m, row) + RowBits(m[row], row)
  {}

  lemma MatrixRowsAll(m: seq<nat>, s: set<nat>, k: nat)
    requires MatrixOf(m, s) && Below64K(s, k) && k <= |m|
    ensures MatrixRows(m, k) == s && MatrixOf(m[..k], s)
  {}
}

module CpcUnions {
  import opened Words
  import opened Sets
  import opened Strides
  import opened U32Tables
  import opened CpcSpec
  import opened CpcSketches
  import opened CpcRuns
  import opened CpcUnionSpec
  import BitCounts

  // ---------- counting ----------

  lemma {:induction false} PopClear(x: nat, c: nat)
    requires Bit(x, c)
    ensures BitCounts.Pop(Xor(x, Shl(1, c))) + 1 == BitCounts.Pop(x)
    decreases c
  {
    BitCounts.XorHalf(x, Shl(1, c));
    if c == 0 {
      XorZero(x / 2);
    } else {
      PopClear(x / 2, c - 1);
    }
    BitCounts.PopHalf(x);
    BitCounts.PopHalf(Xor(x, Shl(1, c)));
  }

  lemma {:induction false} RowBitsCount(x: nat, row: nat)
    requires x < WORD_LIMIT
    ensures |RowBits(x, row)| == BitCounts.Pop(x)
  {
    hide RowBits, Bit, TrailingZeros, Xor, Shl;
    if x == 0 {
      RowBitsNone(row);
    } else {
      var c := TrailingZeros(x);
      ColumnBelow64(x, c);
      ClearBit(x, c);
      PopClear(x, c);
      RowBitsErase(x, c, row);
      RowBitsCount(Xor(x, Shl(1, c)), row);
    }
  }

  /** The ones of a matrix are its coupons. */
  lemma {:induction false} MatrixCount(m: seq<nat>, rows: nat)
    requires rows <= |m| && forall i :: 0 <= i < |m| ==> m[i] < WORD_LIMIT
    ensures |MatrixRows(m, rows)| == BitCounts.PopSum(m[..rows])
  {
    hide RowBits, Bit;
    if rows == 0 {
      assert MatrixRows(m, 0) == {};
    } else {
      MatrixCount(m, rows - 1);
      MatrixRowsNext(m, rows - 1);
      RowBitsCount(m[rows - 1], rows - 1);
      RowsApart(m, rows - 1);
      BitCounts.PopSumSnoc(m, rows - 1);
    }
  }

  lemma RowsApart(m: seq<nat>, row: nat)
    requires row < |m|
    ensures MatrixRows(m, row) !! RowBits(m[row], row)
  {}

  // ---------- walking a table ----------

  const GOLDEN: real := 0.6180339887498949025

  /** The golden-ratio stride of the table walk, made odd. */
  function GoldenStride(numSlots: nat): (stride: int)
    requires numSlots >= 4
    ensures stride % 2 == 1 && 3 <= stride < numSlots
  {
    var stride := (GOLDEN * numSlots as real).Floor;
    if stride % 2 == 0 then stride + 1 else stride
  }

  /** The coupons the walk has offered after i steps. */
  ghost function Walked(slots: seq<nat>, stride: nat, i: nat, k: nat): (s: set<nat>)
    requires |slots| > 0 && k > 0
  {
    set j | 0 <= j < i && slots[Slot(0, stride, j, |slots|)] != EMPTY :: FoldCoupon(slots[Slot(0, stride, j, |slots|)], k)
  }

  /** The whole walk offers every item. */
  lemma WalkedAll(slots: seq<nat>, m: nat, stride: nat, k: nat)
    requires |slots| == Pow2(m) && stride % 2 == 1 && k > 0
    ensures Walked(slots, stride, |slots|, k) == Fold(Items(slots), k)
  {
    hide Slot;
    forall y | y in Fold(Items(slots), k) ensures y in Walked(slots, stride, |slots|, k) {
      var x :| x in Items(slots) && FoldCoupon(x, k) == y;
      var p :| 0 <= p < |slots| && slots[p] == x;
      var i := StrideReaches(m, 0, stride, p);
      assert slots[Slot(0, stride, i, |slots|)] == x;
    }
  }

  lemma WalkedStep(slots: seq<nat>, stride: nat, i: nat, k: nat)
    requires |slots| > 0 && k > 0
    ensures var x := slots[Slot(0, stride, i, |slots|)];
            Walked(slots, stride, i + 1, k)
              == if x == EMPTY then Walked(slots, stride, i, k) else Walked(slots, stride, i, k) + {FoldCoupon(x, k)}
  {}

  /** A sketch with the coupons of start has room after each of the first steps of a walk. */
  ghost predicate FitsUpTo(lgK: nat, start: set<nat>, slots: seq<nat>, stride: nat, steps: nat)
    requires |slots| > 0
  {
    forall n :: 0 <= n <= steps ==> RoomFor(lgK, start + Walked(slots, stride, n, Pow2(lgK)))
  }

  /** ... and after every step. */
  ghost predicate WalkFits(lgK: nat, start: set<nat>, slots: seq<nat>) {
    |slots| >= 4 && FitsUpTo(lgK, start, slots, GoldenStride(|slots|), |slots|)
  }

  lemma FitsNext(lgK: nat, start: set<nat>, slots: seq<nat>, stride: nat, i: nat, s: set<nat>)
    requires |slots| > 0 && FitsUpTo(lgK, start, slots, stride, i) && s == start + Walked(slots, stride, i + 1, Pow2(lgK))
    ensures FitsUpTo(lgK, start, slots, stride, i + 1) <==> RoomFor(lgK, s)
    ensures !RoomFor(lgK, s) ==> forall n :: n > i ==> !FitsUpTo(lgK, start, slots, stride, n)
  {
    hide RoomFor, Walked;
  }

  /** Offers every item of a table, folded to the sketch's K, in golden-stride order; possible if and
    * only if there is room at every step. */
  method WalkTableUpdatingSketch(accumulator: CpcSketch, table: U32Table) returns (ok: bool)
    requires accumulator.Valid() && |accumulator.window| == 0 && table.Valid() && table != accumulator.table
    requires EMPTY !in Fold(table.Contents(), Pow2(accumulator.lgK))
    modifies accumulator, accumulator.table
    ensures ok <==> WalkFits(accumulator.lgK, old(accumulator.Coupons()), old(table.slots))
    ensures ok ==> accumulator.Valid() && accumulator.Coupons() == old(accumulator.Coupons() + Fold(table.Contents(), Pow2(accumulator.lgK)))
    ensures accumulator.lgK == old(accumulator.lgK) && (accumulator.table == old(accumulator.table) || fresh(accumulator.table))
  {
    hide RoomFor, Pow2, FoldCoupon, Fold, Walked, Slot, FitsUpTo, GoldenStride,
         CpcSketch.Valid, CpcSketch.Coupons, U32Table.Valid, U32Table.Contents;
    var slots := table.slots;
    ghost var lgK, k, start := accumulator.lgK, Pow2(accumulator.lgK), accumulator.Coupons();
    TableSlots(table);
    SparseRoom(accumulator);
    var stride: nat := GoldenStride(|slots|);
    var j: nat := 0;
    WalkStarts(lgK, start, slots, stride);
    for i := 0 to |slots|
      invariant accumulator.Valid() && accumulator.lgK == lgK
      invariant accumulator.table == old(accumulator.table) || fresh(accumulator.table)
      invariant j == Slot(0, stride, i, |slots|)
      invariant accumulator.Coupons() == start + Walked(slots, stride, i, k) && FitsUpTo(lgK, start, slots, stride, i)
    {
      WalkedStep(slots, stride, i, k);
      var rowCol := slots[j];
      if rowCol != EMPTY {
        WalkedItem(slots, stride, i, k);
        var folded := FoldCoupon(rowCol, Pow2(accumulator.lgK));
        ghost var s := accumulator.Coupons() + {folded};
        assert s == start + Walked(slots, stride, i + 1, k);
        FitsNext(lgK, start, slots, stride, i, s);
        if folded in accumulator.Coupons() { assert s == accumulator.Coupons(); FitsSame(lgK, start, slots, stride, i); }
        ok := accumulator.RowColUpdate(folded);
        if !ok { return; }
      } else {
        FitsSame(lgK, start, slots, stride, i);
      }
      SlotNext(0, stride, i, |slots|);
      j := (j + stride) % |slots|;
    }
    WalkedAll(slots, table.lgSize, stride, k);
    ok := true;
  }

  lemma WalkStarts(lgK: nat, start: set<nat>, slots: seq<nat>, stride: nat)
    requires |slots| > 0 && RoomFor(lgK, start)
    ensures Slot(0, stride, 0, |slots|) == 0 && start + Walked(slots, stride, 0, Pow2(lgK)) == start
    ensures FitsUpTo(lgK, start, slots, stride, 0)
  {
    hide RoomFor, Pow2;
    WalkedNone(slots, stride, Pow2(lgK));
  }

  lemma FitsSame(lgK: nat, start: set<nat>, slots: seq<nat>, stride: nat, i: nat)
    requires |slots| > 0 && FitsUpTo(lgK, start, slots, stride, i)
    requires start + Walked(slots, stride, i + 1, Pow2(lgK)) == start + Walked(slots, stride, i, Pow2(lgK))
    ensures RoomFor(lgK, start + Walked(slots, stride, i, Pow2(lgK))) && FitsUpTo(lgK, start, slots, stride, i + 1)
  {
    hide RoomFor, Walked;
  }

  lemma TableSlots(table: U32Table)
    requires table.Valid()
    ensures |table.slots| == Pow2(table.lgSize) && |table.slots| >= 4 && table.Contents() == Items(table.slots)
  {
    LeastSlots(table.lgSize);
  }

  lemma SparseRoom(sketch: CpcSketch)
    requires sketch.Valid() && |sketch.window| == 0
    ensures RoomFor(sketch.lgK, sketch.Coupons()) && 4 <= sketch.lgK <= 26 && Pow2(sketch.lgK) > 0
  {
    RoomForSparse(sketch.lgK, sketch.Coupons());
  }

  /** An item met on the walk is a coupon in range. */
  lemma WalkedItem(slots: seq<nat>, stride: nat, i: nat, k: nat)
    requires |slots| > 0 && k > 0 && slots[Slot(0, stride, i, |slots|)] != EMPTY
    ensures FoldCoupon(slots[Slot(0, stride, i, |slots|)], k) in Fold(Items(slots), k)
    ensures FoldCoupon(slots[Slot(0, stride, i, |slots|)], k) < 64 * k
  {
    FoldRange(Items(slots), k);
  }

  /** Few coupons fit in whatever order they are walked. */
  lemma FewWalk(lgK: nat, start: set<nat>, slots: seq<nat>)
    requires 4 <= lgK <= 24 && |slots| >= 4 && |start| + |Items(slots)| <= 25 * Pow2(lgK)
    ensures WalkFits(lgK, start, slots)
  {
    LeastK(lgK);
    hide RoomFor, Pow2, Items, Walked, GoldenStride;
    var stride: nat := GoldenStride(|slots|);
    forall n | 0 <= n <= |slots| ensures RoomFor(lgK, start + Walked(slots, stride, n, Pow2(lgK))) {
      WalkedSize(slots, stride, n, Pow2(lgK));
      var w := Walked(slots, stride, n, Pow2(lgK));
      assert |start + w| <= |start| + |w|;
      RoomForFew(lgK, start + w);
    }
  }

  lemma WalkedSize(slots: seq<nat>, stride: nat, n: nat, k: nat)
    requires |slots| > 0 && k > 0
    ensures |Walked(slots, stride, n, k)| <= |Items(slots)|
  {
    hide Items, Slot, FoldCoupon;
    WalkedFold(slots, stride, n, k);
    SubsetSize(Walked(slots, stride, n, k), Fold(Items(slots), k));
    FoldSize(Items(slots), k);
  }

  lemma WalkedFold(slots: seq<nat>, stride: nat, n: nat, k: nat)
    requires |slots| > 0 && k > 0
    ensures Walked(slots, stride, n, k) <= Fold(Items(slots), k)
  {
    hide FoldCoupon, Slot;
  }

  lemma LeastSlots(lg: nat)
    requires lg >= 2
    ensures Pow2(lg) >= 4
  {}

  lemma WalkedNone(slots: seq<nat>, stride: nat, k: nat)
    requires |slots| > 0 && k > 0
    ensures Walked(slots, stride, 0, k) == {} && Slot(0, stride, 0, |slots|) == 0
  {}

  lemma FoldNotEmpty(s: set<nat>, a: nat, b: nat)
    requires b <= a <= 26 && Below64K(s, Pow2(a)) && EMPTY !in s
    ensures EMPTY !in Fold(s, Pow2(b))
  {
    if b == a {
      FoldIdentity(s, Pow2(b));
    } else {
      FoldRange(s, Pow2(b));
      Pow2Mono(b, 25);
      Pow2Values();
      assert Pow2(26) == 2 * Pow2(25);
    }
  }

  // ---------- OR-ing into the matrix ----------

  /** The matrix holds the coupons of s, which lie in its first k rows. */
  ghost predicate Holding(matrix: seq<nat>, k: nat, s: set<nat>) {
    0 < k <= |matrix| && MatrixOf(matrix, s) && Below64K(s, k)
  }

  lemma OrFoldedRow(matrix: seq<nat>, k: nat, s: set<nat>, row: nat, word: nat)
    requires Holding(matrix, k, s) && word < WORD_LIMIT
    ensures Holding(matrix[row % k := Or(matrix[row % k], word)], k, s + Fold(RowBits(word, row), k))
  {
    OrRow(matrix, s, row % k, word);
    FoldRow(word, row, k);
    FoldRange(RowBits(word, row), k);
  }

  lemma OneBitRow(rc: nat)
    ensures RowBits(Shl(1, rc % 64), rc / 64) == {rc} && Shl(1, rc % 64) < WORD_LIMIT
  {
    var c, row := rc % 64, rc / 64;
    ShlIsMul(1, c);
    forall x | 64 * row <= x < 64 * row + 64 ensures InRow(Shl(1, c), row, x) <==> x == rc { BitOne(c, x % 64); }
    WordLimit();
    Pow2Mono(c + 1, 64);
  }

  method OrTableIntoMatrix(matrix: seq<nat>, k: nat, slots: seq<nat>, ghost s: set<nat>) returns (m: seq<nat>)
    requires Holding(matrix, k, s)
    ensures |m| == |matrix| && Holding(m, k, s + Fold(Items(slots), k))
  {
    hide Holding, RowBits, Fold, Items, Or, Shl;
    m := matrix;
    NoPrefixItems(slots);
    FoldNothing(k, s, m);
    for i := 0 to |slots|
      invariant |m| == |matrix| >= k > 0 && Holding(m, k, s + Fold(Items(slots[..i]), k))
    {
      ItemsSnoc(slots, i);
      var rowCol := slots[i];
      if rowCol != EMPTY {
        ghost var seen := Items(slots[..i]);
        OneBitRow(rowCol);
        OrFoldedRow(m, k, s + Fold(seen, k), rowCol / 64, Shl(1, rowCol % 64));
        FoldUnion(seen, {rowCol}, k);
        assert s + Fold(seen, k) + Fold({rowCol}, k) == s + Fold(seen + {rowCol}, k);
        m := m[rowCol / 64 % k := Or(m[rowCol / 64 % k], Shl(1, rowCol % 64))];
      }
    }
    assert slots[..|slots|] == slots;
  }

  lemma FoldNothing(k: nat, s: set<nat>, m: seq<nat>)
    requires Holding(m, k, s)
    ensures 0 < k <= |m| && Fold({}, k) == {} && s + {} == s
  {}

  /** ORs the rows of src, shifted left by offset, into the matrix; a window byte row and a whole
    * matrix row are the two uses. */
  method OrRowsIntoMatrix(matrix: seq<nat>, k: nat, src: seq<nat>, ghost s: set<nat>) returns (m: seq<nat>)
    requires Holding(matrix, k, s) && forall i :: 0 <= i < |src| ==> src[i] < WORD_LIMIT
    ensures |m| == |matrix| && Holding(m, k, s + Fold(MatrixRows(src, |src|), k))
  {
    hide Holding, RowBits, Fold, Or, MatrixRows;
    m := matrix;
    FoldNothing(k, s, m);
    NoRows(src);
    for row := 0 to |src|
      invariant |m| == |matrix| >= k > 0 && Holding(m, k, s + Fold(MatrixRows(src, row), k))
    {
      ghost var seen := MatrixRows(src, row);
      MatrixRowsNext(src, row);
      OrFoldedRow(m, k, s + Fold(seen, k), row, src[row]);
      FoldUnion(seen, RowBits(src[row], row), k);
      assert s + Fold(seen, k) + Fold(RowBits(src[row], row), k) == s + Fold(seen + RowBits(src[row], row), k);
      m := m[row % k := Or(m[row % k], src[row])];
    }
  }

  lemma NoRows(src: seq<nat>)
    ensures MatrixRows(src, 0) == {}
  {}

  // ---------- what a union has merged ----------

  /** A sketch that was merged: its lgK and its coupons. */
  datatype Source = Source(lgK: nat, coupons: set<nat>)

  ghost function FoldedUnion(sources: set<Source>, lgK: nat): (s: set<nat>) {
    set src, x | src in sources && x in src.coupons :: FoldCoupon(x, Pow2(lgK))
  }

  /** lgK is the least of the union's own and of those of the non-empty sources, and s is the union
    * of all sources folded to it. */
  ghost predicate Merges(initial: nat, sources: set<Source>, lgK: nat, s: set<nat>) {
    && lgK <= initial
    && (forall src :: src in sources && src.coupons != {} ==> lgK <= src.lgK)
    && (lgK == initial || exists src :: src in sources && src.coupons != {} && src.lgK == lgK)
    && s == FoldedUnion(sources, lgK)
  }

  /** Neither the order of the updates nor repetitions matter: the set of sources decides. */
  lemma MergesIsFunction(initial: nat, sources: set<Source>, lgK: nat, s: set<nat>, lgK': nat, s': set<nat>)
    requires Merges(initial, sources, lgK, s) && Merges(initial, sources, lgK', s')
    ensures lgK == lgK' && s == s'
  {}

  lemma FoldedUnionFold(sources: set<Source>, a: nat, b: nat)
    requires b <= a
    ensures Fold(FoldedUnion(sources, a), Pow2(b)) == FoldedUnion(sources, b)
  {
    hide Pow2, FoldCoupon;
    forall src, x | src in sources && x in src.coupons
      ensures FoldCoupon(FoldCoupon(x, Pow2(a)), Pow2(b)) == FoldCoupon(x, Pow2(b))
    {
      FoldCouponTwice(x, a, b);
    }
    forall y | y in FoldedUnion(sources, b) ensures y in Fold(FoldedUnion(sources, a), Pow2(b)) {
      var src, x :| src in sources && x in src.coupons && y == FoldCoupon(x, Pow2(b));
      assert FoldCoupon(x, Pow2(a)) in FoldedUnion(sources, a);
    }
  }

  function Min(a: nat, b: nat): nat { if a < b then a else b }

  lemma MergesNext(initial: nat, sources: set<Source>, lgK: nat, s: set<nat>, src: Source)
    requires Merges(initial, sources, lgK, s) && src.coupons != {}
    ensures var m := Min(lgK, src.lgK);
            Merges(initial, sources + {src}, m, Fold(s, Pow2(m)) + Fold(src.coupons, Pow2(m)))
  {
    hide Pow2, FoldCoupon;
    var m := Min(lgK, src.lgK);
    FoldedUnionFold(sources, lgK, m);
    assert FoldedUnion(sources + {src}, m) == FoldedUnion(sources, m) + Fold(src.coupons, Pow2(m));
  }

  lemma MergesEmpty(initial: nat, sources: set<Source>, lgK: nat, s: set<nat>, src: Source)
    requires Merges(initial, sources, lgK, s) && src.coupons == {}
    ensures Merges(initial, sources + {src}, lgK, s)
  {}

  // ---------- the union ----------

  /** A source past the sparse stage, at offset zero, is its window and its table. */
  lemma WindowAndTable(lgK: nat, c: nat, t: set<nat>, window: seq<nat>, w: nat, first: nat)
    requires Sound(lgK, c, t, window, w, first) && |window| > 0 && w == 0
    ensures CouponsOf(t, window, w, Pow2(lgK)) == t + MatrixRows(window, |window|)
    ensures forall i :: 0 <= i < |window| ==> window[i] < WORD_LIMIT
  {
    forall rc | 0 <= rc < 64 * |window| && rc % 64 >= 8 ensures !Bit(window[rc / 64], rc % 64) {
      Pow2Values();
      BitAbove(window[rc / 64], 8, rc % 64);
    }
  }

  function ShiftedWindow(window: seq<nat>, offset: nat): (r: seq<nat>)
    ensures |r| == |window| && forall i :: 0 <= i < |r| ==> r[i] == Shl(window[i], offset)
  {
    seq(|window|, i requires 0 <= i < |window| => Shl(window[i], offset))
  }

  class CpcUnion {
    var lgK: nat
    var accumulator: CpcSketch?
    var matrix: seq<nat>
    ghost const initialLgK: nat
    ghost var sources: set<Source>

    ghost function Footprint(): set<object?>
      reads this, accumulator
    {
      if accumulator == null then {} else {accumulator, accumulator.table}
    }

    ghost function Coupons(): set<nat>
      reads this, Footprint()
    {
      if accumulator == null then MatrixRows(matrix, Pow2(lgK)) else accumulator.Coupons()
    }

    /** A sparse accumulator sketch or a bit matrix, never both. After reduce_k an empty accumulator may
      * keep its larger K. */
    ghost predicate Shape()
      reads this, Footprint()
    {
      && 4 <= lgK <= 26
      && (accumulator != null ==>
            && matrix == [] && accumulator.Valid() && |accumulator.window| == 0
            && (accumulator.lgK == lgK || (accumulator.Coupons() == {} && accumulator.lgK >= lgK)))
      && (accumulator == null ==>
            && Holding(matrix, Pow2(lgK), Coupons()) && EMPTY !in Coupons()
            && 32 * |Coupons()| >= 3 * Pow2(lgK))
    }

    ghost predicate Valid()
      reads this, Footprint()
    {
      && Shape()
      && (accumulator != null ==> accumulator.lgK == lgK)
      && Merges(initialLgK, sources, lgK, Coupons())
    }

    constructor (lgK: nat)
      requires 4 <= lgK <= 26
      ensures Valid() && fresh(Footprint()) && this.lgK == lgK && initialLgK == lgK && sources == {} && Coupons() == {}
    {
      this.lgK := lgK;
      accumulator := new CpcSketch(lgK);
      matrix := [];
      initialLgK := lgK;
      sources := {};
    }

    /** Replaces the accumulator by its bit matrix, which may have more than K rows if the
      * accumulator is empty. */
    method SwitchToBitMatrix()
      requires 4 <= lgK <= 26 && accumulator != null && accumulator.Valid()
      requires accumulator.lgK == lgK || (accumulator.Coupons() == {} && accumulator.lgK >= lgK)
      modifies this`accumulator, this`matrix
      ensures accumulator == null && Coupons() == old(Coupons())
      ensures Holding(matrix, Pow2(lgK), Coupons()) && EMPTY !in Coupons()
    {
      hide CouponsOf, Pow2, Items, NoGap, Distinct, MatrixOf, MatrixRows;
      ghost var s := accumulator.Coupons();
      CouponsInRange(accumulator.table.Contents(), accumulator.window, accumulator.offset, Pow2(accumulator.lgK));
      Pow2Mono(lgK, accumulator.lgK);
      matrix := accumulator.BuildBitMatrix();
      accumulator := null;
      MatrixRowsAll(matrix, s, Pow2(lgK));
    }

    /** Sets the matrix to one that holds more coupons. */
    method SetMatrix(m: seq<nat>, ghost s: set<nat>)
      requires accumulator == null && Holding(m, Pow2(lgK), s)
      modifies this`matrix
      ensures Coupons() == s && Holding(matrix, Pow2(lgK), Coupons())
    {
      hide Pow2, MatrixOf, MatrixRows;
      matrix := m;
      MatrixRowsAll(m, s, Pow2(lgK));
    }

    /** Downsamples the union to a smaller K; an accumulator with coupons needs room for the walk. */
    method ReduceK(newLgK: nat) returns (ok: bool)
      requires Shape() && 4 <= newLgK < lgK && (accumulator != null ==> accumulator.lgK == lgK)
      modifies this`lgK, this`accumulator, this`matrix
      ensures ok <==> old(accumulator == null || accumulator.numCoupons == 0 || WalkFits(newLgK, {}, accumulator.table.slots))
      ensures ok ==> Shape() && lgK == newLgK && Coupons() == Fold(old(Coupons()), Pow2(newLgK))
      ensures ok ==> (accumulator != null <==> old(accumulator) != null && 32 * |Coupons()| < 3 * Pow2(lgK))
      ensures ok ==> fresh(Footprint() - old(Footprint()))
    {
      hide CouponsOf, Pow2, MatrixOf, MatrixRows, Fold, RoomFor, Holding, U32Table.Valid, U32Table.Contents;
      ghost var s := Coupons();
      ok := true;
      if accumulator == null {
        var oldMatrix, oldLgK := matrix, lgK;
        var m := seq(Pow2(newLgK), _ => 0);
        BlankMatrix(newLgK);
        RowsOf(oldMatrix, Pow2(oldLgK), s);
        m := OrRowsIntoMatrix(m, Pow2(newLgK), oldMatrix[..Pow2(oldLgK)], {});
        lgK := newLgK;
        assert {} + Fold(s, Pow2(newLgK)) == Fold(s, Pow2(newLgK));
        SetMatrix(m, Fold(s, Pow2(newLgK)));
        RangeOf(oldMatrix, Pow2(oldLgK), s);
        FoldKeepsThreshold(s, oldLgK, newLgK);
        FoldNotEmpty(s, oldLgK, newLgK);
      } else if accumulator.numCoupons != 0 {
        ok := ReduceAccumulator(newLgK);
      } else {
        lgK := newLgK;
        NoCoupons(accumulator);
        FoldNone(s, Pow2(newLgK));
        LeastK(newLgK);
      }
    }

    method ReduceAccumulator(newLgK: nat) returns (ok: bool)
      requires Shape() && 4 <= newLgK < lgK && accumulator != null && accumulator.lgK == lgK
      modifies this`lgK, this`accumulator, this`matrix
      ensures ok <==> old(WalkFits(newLgK, {}, accumulator.table.slots))
      ensures ok ==> Shape() && lgK == newLgK && Coupons() == Fold(old(Coupons()), Pow2(newLgK))
      ensures ok ==> (accumulator != null <==> 32 * |Coupons()| < 3 * Pow2(lgK)) && (accumulator != null ==> accumulator.lgK == lgK)
      ensures ok ==> fresh(Footprint() - old(Footprint()))
    {
      hide CouponsOf, Pow2, MatrixOf, MatrixRows, Fold, RoomFor, Holding, WalkFits, U32Table.Valid, U32Table.Contents;
      var oldAccumulator := accumulator;
      ghost var s := oldAccumulator.Coupons();
      SparseCoupons(oldAccumulator);
      CouponsInRange(oldAccumulator.table.Contents(), [], 0, Pow2(lgK));
      FoldNotEmpty(s, lgK, newLgK);
      var sketch := new CpcSketch(newLgK);
      assert {} + Fold(s, Pow2(newLgK)) == Fold(s, Pow2(newLgK));
      ok := WalkTableUpdatingSketch(sketch, oldAccumulator.table);
      if !ok { return; }
      accumulator := sketch;
      lgK := newLgK;
      Graduate();
    }

    /** An accumulator past the sparse stage becomes a bit matrix. */
    method Graduate()
      requires 4 <= lgK <= 26 && accumulator != null && accumulator.Valid() && accumulator.lgK == lgK && matrix == []
      modifies this`accumulator, this`matrix
      ensures Shape() && Coupons() == old(Coupons()) && (accumulator == old(accumulator) || accumulator == null)
      ensures accumulator != null <==> 32 * |Coupons()| < 3 * Pow2(lgK)
    {
      hide CouponsOf, Pow2, MatrixOf, MatrixRows, Holding, U32Table.Valid, U32Table.Contents, Represents;
      CountsCoupons(accumulator.lgK, accumulator.numCoupons, accumulator.table.Contents(),
                    accumulator.window, accumulator.offset, accumulator.first);
      if 32 * accumulator.numCoupons >= 3 * Pow2(accumulator.lgK) { SwitchToBitMatrix(); }
    }

    /** Case A: a sparse source goes into the accumulator, which may graduate to a bit matrix. A source
      * that only replaces an empty accumulator needs no room. */
    method MergeIntoAccumulator(sketch: CpcSketch) returns (ok: bool)
      requires Shape() && accumulator != null && sketch.Valid() && |sketch.window| == 0 && sketch.lgK >= lgK
      requires accumulator.lgK == lgK || sketch.lgK == lgK
      requires {sketch, sketch.table} !! Footprint()
      modifies this`accumulator, this`matrix, Footprint()
      ensures ok <==> old((Coupons() == {} && lgK == sketch.lgK) || WalkFits(lgK, Coupons(), sketch.table.slots))
      ensures ok ==> Shape() && fresh(Footprint() - old(Footprint())) && (accumulator != null ==> accumulator.lgK == lgK)
      ensures ok ==> Coupons() == old(Coupons()) + Fold(old(sketch.Coupons()), Pow2(lgK))
    {
      hide CouponsOf, Pow2, MatrixOf, MatrixRows, Fold, RoomFor, Holding, WalkFits, U32Table.Valid, U32Table.Contents;
      SparseCoupons(sketch);
      CouponsInRange(sketch.table.Contents(), [], 0, Pow2(sketch.lgK));
      EmptyOrNot(accumulator);
      if accumulator.numCoupons == 0 && lgK == sketch.lgK {
        FoldIdentity(sketch.Coupons(), Pow2(lgK));
        accumulator := new CpcSketch.Copy(sketch);
        return true;
      }
      FoldNotEmpty(sketch.Coupons(), sketch.lgK, lgK);
      KeepsK(accumulator, lgK, sketch.lgK);
      ok := WalkTableUpdatingSketch(accumulator, sketch.table);
      if ok { Graduate(); }
    }

    /** Cases B, C and D: the source's coupons are OR-ed into the bit matrix. */
    method MergeIntoMatrix(sketch: CpcSketch)
      requires Shape() && accumulator == null && sketch.Valid() && sketch.lgK >= lgK
      modifies this`matrix
      ensures Shape() && accumulator == null && Coupons() == old(Coupons()) + Fold(sketch.Coupons(), Pow2(lgK))
    {
      hide CouponsOf, Pow2, Items, NoGap, Distinct, MatrixOf, MatrixRows, Fold, Holding;
      ghost var s, added := Coupons(), Fold(sketch.Coupons(), Pow2(lgK));
      var m := OrSketch(matrix, lgK, sketch, s);
      SetMatrix(m, s + added);
      SubsetSize(s, s + added);
      SketchEmptyFree(sketch);
      FoldNotEmpty(sketch.Coupons(), sketch.lgK, lgK);
    }

    /** A source past the sparse stage turns the union into a bit matrix first. */
    method MergeDense(sketch: CpcSketch)
      requires Shape() && sketch.Valid() && |sketch.window| > 0 && sketch.lgK >= lgK
      modifies this`accumulator, this`matrix
      ensures Shape() && accumulator == null && Coupons() == old(Coupons()) + Fold(sketch.Coupons(), Pow2(lgK))
    {
      hide CouponsOf, Pow2, Items, NoGap, Distinct, MatrixOf, MatrixRows, Fold, Holding;
      if accumulator != null { SwitchToBitMatrix(); }
      ghost var s, added := Coupons(), Fold(sketch.Coupons(), Pow2(lgK));
      var m := OrSketch(matrix, lgK, sketch, s);
      SetMatrix(m, s + added);
      SketchEmptyFree(sketch);
      FoldNotEmpty(sketch.Coupons(), sketch.lgK, lgK);
      DenseCount(sketch);
      FoldKeepsThreshold(sketch.Coupons(), sketch.lgK, lgK);
      SubsetSize(added, s + added);
    }

    /** While the union is an accumulator sketch, that sketch needs room for the walks that reduce it and
      * that merge a sparse source. */
    ghost predicate RoomToMerge(sketch: CpcSketch)
      reads this, Footprint(), sketch, sketch.table
    {
      var m := Min(lgK, sketch.lgK);
      var s := Fold(Coupons(), Pow2(m));
      accumulator != null ==>
        && (m < lgK && accumulator.numCoupons != 0 ==> WalkFits(m, {}, accumulator.table.slots))
        && (|sketch.window| == 0 && 32 * |s| < 3 * Pow2(m) ==>
              (s == {} && m == sketch.lgK) || WalkFits(m, s, sketch.table.slots))
    }

    /** Merges a sketch of any lgK and flavor. The source goes on if and only if there is room. */
    method Update(sketch: CpcSketch) returns (ok: bool)
      requires Valid() && sketch.Valid() && {sketch, sketch.table} !! Footprint()
      modifies this, Footprint()
      ensures ok <==> old(sketch.Coupons() == {} || RoomToMerge(sketch))
      ensures ok ==> Valid() && fresh(Footprint() - old(Footprint()))
      ensures ok ==> sources == old(sources) + {Source(sketch.lgK, old(sketch.Coupons()))}
      ensures ok && old(sketch.Coupons()) == {} ==> lgK == old(lgK) && Coupons() == old(Coupons())
      ensures ok && old(sketch.Coupons()) != {} ==>
        && lgK == Min(old(lgK), sketch.lgK)
        && Coupons() == Fold(old(Coupons()), Pow2(lgK)) + Fold(old(sketch.Coupons()), Pow2(lgK))
    {
      hide Pow2, MatrixOf, MatrixRows, Fold, Holding, Merges, WalkFits, CpcSketch.Valid, CpcSketch.Coupons;
      ghost var src := Source(sketch.lgK, sketch.Coupons());
      ghost var s := Coupons();
      EmptyOrNot(sketch);
      SketchEmptyFree(sketch);
      if sketch.numCoupons == 0 {
        MergesEmpty(initialLgK, sources, lgK, s, src);
        sources := sources + {src};
        return true;
      }
      MergesNext(initialLgK, sources, lgK, s, src);
      ok := AlignK(sketch.lgK);
      if !ok { return; }
      ok := MergeAligned(sketch);
      sources := sources + {src};
    }

    /** Brings the union down to the source's K if that is smaller. */
    method AlignK(srcLgK: nat) returns (ok: bool)
      requires Shape() && 4 <= srcLgK <= 26 && (accumulator != null ==> accumulator.lgK == lgK)
      modifies this`lgK, this`accumulator, this`matrix
      ensures ok <==> old(srcLgK < lgK && accumulator != null && accumulator.numCoupons != 0 ==> WalkFits(srcLgK, {}, accumulator.table.slots))
      ensures ok ==> Shape() && lgK == Min(old(lgK), srcLgK) && Coupons() == Fold(old(Coupons()), Pow2(lgK))
      ensures ok ==> (accumulator != null <==> old(accumulator) != null && 32 * |Coupons()| < 3 * Pow2(lgK))
      ensures ok ==> fresh(Footprint() - old(Footprint())) && (accumulator != null ==> accumulator.lgK == lgK || srcLgK == lgK)
    {
      hide CouponsOf, Pow2, MatrixOf, MatrixRows, Fold, Holding, WalkFits, U32Table.Valid, U32Table.Contents;
      ok := true;
      if srcLgK < lgK {
        ok := ReduceK(srcLgK);
      } else {
        InRange();
        FoldIdentity(Coupons(), Pow2(lgK));
        if accumulator != null { SparseCount(accumulator); }
      }
    }

    method MergeAligned(sketch: CpcSketch) returns (ok: bool)
      requires Shape() && sketch.Valid() && sketch.lgK >= lgK && {sketch, sketch.table} !! Footprint()
      requires accumulator != null ==> accumulator.lgK == lgK || sketch.lgK == lgK
      modifies this`accumulator, this`matrix, Footprint()
      ensures ok <==> old(accumulator != null && |sketch.window| == 0 ==>
                            (Coupons() == {} && lgK == sketch.lgK) || WalkFits(lgK, Coupons(), sketch.table.slots))
      ensures ok ==> Shape() && fresh(Footprint() - old(Footprint())) && (accumulator != null ==> accumulator.lgK == lgK)
      ensures ok ==> Coupons() == old(Coupons()) + Fold(old(sketch.Coupons()), Pow2(lgK))
    {
      hide CouponsOf, Pow2, MatrixOf, MatrixRows, Fold, Holding, WalkFits, U32Table.Valid, U32Table.Contents;
      ok := true;
      if 32 * sketch.numCoupons < 3 * Pow2(sketch.lgK) {
        if accumulator != null { ok := MergeIntoAccumulator(sketch); } else { MergeIntoMatrix(sketch); }
      } else {
        MergeDense(sketch);
      }
    }

    lemma InRange()
      requires Shape() && (accumulator != null ==> accumulator.lgK == lgK)
      ensures Below64K(Coupons(), Pow2(lgK))
    {}

    /** The merged coupons as a sketch; null stands for a table that the source cannot build. */
    method GetResult() returns (result: CpcSketch?)
      requires Valid()
      ensures result == null <==>
              accumulator == null && !SurprisesFit(lgK, Coupons(), CorrectOffset(Pow2(lgK), |Coupons()|))
      ensures result != null ==>
        && fresh(result) && result.lgK == lgK && result.Coupons() == Coupons()
        && (result.Valid() <==> 8 * |Coupons()| < 475 * Pow2(lgK))
    {
      hide CouponsOf, Pow2, MatrixOf, MatrixRows, Fold, Holding, Merges, SurprisesFit, U32Table.Valid, U32Table.Contents, CorrectOffset;
      if accumulator != null {
        if accumulator.numCoupons == 0 {
          EmptyOrNot(accumulator);
          result := new CpcSketch(lgK);
        } else {
          result := new CpcSketch.Copy(accumulator);
        }
      } else {
        RowsOf(matrix, Pow2(lgK), Coupons());
        FirstRows(matrix, Pow2(lgK), Coupons());
        result := SketchFromMatrix(lgK, matrix[..Pow2(lgK)], Coupons());
      }
    }
  }

  // ---------- the result ----------

  lemma FirstRows(m: seq<nat>, k: nat, s: set<nat>)
    requires Holding(m, k, s)
    ensures k <= |m| && MatrixOf(m[..k], s) && Below64K(s, k)
  {}

  /** The window range of the offset that the count prescribes. */
  lemma OffsetInRange(k: nat, c: nat)
    requires k > 0
    ensures WindowRange(k, c, CorrectOffset(k, c))
  {}

  lemma OffsetLimits(k: nat, c: nat, w: nat)
    requires k > 0 && WindowRange(k, c, w)
    ensures 8 * c < 475 * k <==> w <= 56
    ensures c <= 64 * k ==> w < 64
  {
    if w <= 56 {
      MulMono(27 + 8 * w, 475, k);
    } else {
      MulMono(475, 19 + 8 * w, k);
      if w >= 64 { MulMono(531, 19 + 8 * w, k); }
    }
  }

  /** Turns a bit matrix past the sparse stage into a sketch, unless its surprises do not fit a table. */
  method SketchFromMatrix(lgK: nat, matrix: seq<nat>, ghost s: set<nat>) returns (result: CpcSketch?)
    requires 4 <= lgK <= 26 && |matrix| == Pow2(lgK) && MatrixOf(matrix, s) && Below64K(s, Pow2(lgK)) && EMPTY !in s
    requires 3 * Pow2(lgK) <= 32 * |s|
    ensures result == null <==> !SurprisesFit(lgK, s, CorrectOffset(Pow2(lgK), |s|))
    ensures result != null ==>
      && fresh(result) && result.lgK == lgK && result.Coupons() == s
      && (result.Valid() <==> 8 * |s| < 475 * Pow2(lgK))
  {
    hide CouponsOf, Pow2, MatrixOf, MatrixRows, Surprises, WindowByte, CorrectOffset, U32Table.Valid, U32Table.Contents;
    var k := Pow2(lgK);
    var numCoupons := CountCoupons(lgK, matrix, s);
    assert DetermineFlavor(k, numCoupons) != Empty && DetermineFlavor(k, numCoupons) != Sparse by { LeastK(lgK); }
    // so the guard at cpc_union_impl.hpp:202 never fires
    OffsetInRange(k, numCoupons);
    var offset := CorrectOffset(k, numCoupons);
    OffsetLimits(k, numCoupons, offset);
    var tableLgSize := if lgK - 4 < 2 then 2 else lgK - 4;
    var table := new U32Table(tableLgSize, 6 + lgK);
    var window, first, refused := SliceMatrix(table, lgK, matrix, offset, s);
    if refused { return null; }
    SliceKeepsCoupons(matrix, s, window, offset);
    if offset <= 56 { SliceRepresents(lgK, matrix, s, window, offset, first); }
    result := new CpcSketch.FromParts(lgK, numCoupons, first, table, window);
  }

  lemma KBounds(lgK: nat)
    requires 4 <= lgK <= 26
    ensures Pow2(lgK) % 8 == 0 && Pow2(lgK) <= 0x400_0000
  {
    hide Pow2;
    Pow2Mono(lgK, 26);
    Pow2Values();
    Pow2Add(3, lgK - 3);
    DivUnique(Pow2(lgK), 8, Pow2(lgK - 3), 0);
  }

  lemma MatrixPop(matrix: seq<nat>, s: set<nat>)
    requires MatrixOf(matrix, s) && Below64K(s, |matrix|)
    ensures BitCounts.PopSum(matrix) == |s| && forall i :: 0 <= i < |matrix| ==> matrix[i] < Pow2(64)
  {
    WordLimit();
    MatrixRowsAll(matrix, s, |matrix|);
    MatrixCount(matrix, |matrix|);
    assert matrix[..|matrix|] == matrix;
  }

  lemma {:induction false} CountBelow(s: set<nat>, n: nat)
    requires forall x :: x in s ==> x < n
    ensures |s| <= n
  {
    if n > 0 { CountBelow(s - {n - 1}, n - 1); }
  }

  /** One coupon is the marker of empty slots, so even a full matrix has less than 2^32 of them. */
  lemma CountFits(s: set<nat>, n: nat)
    requires n <= U32 && EMPTY !in s && forall x :: x in s ==> x < n
    ensures |s| <= n && |s| < U32
  {
    CountBelow(s, n);
    CountBelow(s + {EMPTY}, U32);
  }

  /** The carry-save count of the matrix is its number of coupons; it fits 32 bits. */
  method CountCoupons(lgK: nat, matrix: seq<nat>, ghost s: set<nat>) returns (c: nat)
    requires 4 <= lgK <= 26 && |matrix| == Pow2(lgK) && MatrixOf(matrix, s) && Below64K(s, Pow2(lgK)) && EMPTY !in s
    ensures c == |s| <= 64 * Pow2(lgK)
  {
    hide BitCounts.PopSum, MatrixRows, MatrixOf, Pow2;
    MatrixPop(matrix, s);
    KBounds(lgK);
    CountFits(s, 64 * Pow2(lgK));
    assert |s| % U32 == |s|;
    var r := BitCounts.CountBitsSetInMatrix(matrix);
    c := r.value;
  }

  /** ORs a sketch into a matrix: a sparse one slot by slot, a hybrid or pinned one as window and
    * table, a sliding one, whose table is partly inverted, as a matrix. */
  method OrSketch(matrix: seq<nat>, lgK: nat, sketch: CpcSketch, ghost s: set<nat>) returns (m: seq<nat>)
    requires Holding(matrix, Pow2(lgK), s) && sketch.Valid()
    ensures Holding(m, Pow2(lgK), s + Fold(sketch.Coupons(), Pow2(lgK)))
  {
    hide CouponsOf, Pow2, Items, NoGap, Distinct, MatrixOf, MatrixRows, Fold, Holding, Shl;
    var flavor := DetermineFlavor(Pow2(sketch.lgK), sketch.numCoupons);
    ghost var t := sketch.table.Contents();
    var k := Pow2(lgK);
    if flavor == Empty || flavor == Sparse {
      SparseCoupons(sketch);
      m := OrTableIntoMatrix(matrix, k, sketch.table.slots, s);
    } else if flavor == Hybrid || flavor == Pinned {
      OffsetZero(sketch);
      WindowAndTable(sketch.lgK, sketch.numCoupons, t, sketch.window, sketch.offset, sketch.first);
      var rows := ShiftedWindow(sketch.window, sketch.offset);
      UnshiftedWindow(sketch.window);
      m := OrRowsIntoMatrix(matrix, k, rows, s);
      ghost var fromWindow := MatrixRows(sketch.window, |sketch.window|);
      m := OrTableIntoMatrix(m, k, sketch.table.slots, s + Fold(fromWindow, k));
      FoldUnion(t, fromWindow, k);
      assert s + Fold(fromWindow, k) + Fold(t, k) == s + Fold(t + fromWindow, k);
    } else {
      var src := sketch.BuildBitMatrix();
      SketchEmptyFree(sketch);
      AllRows(src, sketch.lgK, sketch.Coupons());
      m := OrRowsIntoMatrix(matrix, k, src, s);
    }
  }

  lemma OffsetZero(sketch: CpcSketch)
    requires sketch.Valid() && 8 * sketch.numCoupons < 27 * Pow2(sketch.lgK)
    ensures sketch.offset == 0
  {
    hide CouponsOf, U32Table.Valid, U32Table.Contents, Pow2;
    LaterRange(Pow2(sketch.lgK), sketch.offset);
  }

  lemma LaterRange(k: nat, w: nat)
    ensures w > 0 ==> 27 * k <= (19 + 8 * w) * k
  {}

  lemma UnshiftedWindow(window: seq<nat>)
    ensures ShiftedWindow(window, 0) == window
  {}

  lemma AllRows(src: seq<nat>, lgK: nat, s: set<nat>)
    requires |src| == Pow2(lgK) && MatrixOf(src, s) && Below64K(s, Pow2(lgK))
    ensures MatrixRows(src, |src|) == s && forall i :: 0 <= i < |src| ==> src[i] < WORD_LIMIT
  {}

  lemma SketchEmptyFree(sketch: CpcSketch)
    requires sketch.Valid()
    ensures EMPTY !in sketch.Coupons() && Below64K(sketch.Coupons(), Pow2(sketch.lgK)) && 4 <= sketch.lgK <= 26
  {}

  lemma DenseCount(sketch: CpcSketch)
    requires sketch.Valid() && |sketch.window| > 0
    ensures 32 * |sketch.Coupons()| >= 3 * Pow2(sketch.lgK)
  {}

  lemma EmptyOrNot(sketch: CpcSketch)
    requires sketch.Valid()
    ensures sketch.numCoupons == 0 <==> sketch.Coupons() == {}
  {}

  lemma SparseCount(sketch: CpcSketch)
    requires sketch.Valid() && |sketch.window| == 0
    ensures 32 * |sketch.Coupons()| < 3 * Pow2(sketch.lgK)
  {}

  lemma KeepsK(accumulator: CpcSketch, lgK: nat, srcLgK: nat)
    requires accumulator.Valid() && (accumulator.lgK == lgK || (accumulator.Coupons() == {} && accumulator.lgK >= lgK))
    requires accumulator.lgK == lgK || srcLgK == lgK
    requires accumulator.numCoupons != 0 || lgK != srcLgK
    ensures accumulator.lgK == lgK
  {}

  lemma BlankMatrix(lgK: nat)
    ensures Holding(seq(Pow2(lgK), _ => 0), Pow2(lgK), {})
  {
    NoBits();
  }

  lemma RowsOf(m: seq<nat>, k: nat, s: set<nat>)
    requires Holding(m, k, s)
    ensures k <= |m| && MatrixRows(m[..k], k) == s && forall i :: 0 <= i < k ==> m[..k][i] < WORD_LIMIT
  {}

  lemma RangeOf(m: seq<nat>, k: nat, s: set<nat>)
    requires Holding(m, k, s)
    ensures Below64K(s, k)
  {}

  lemma NoCoupons(sketch: CpcSketch)
    requires sketch.Valid() && sketch.numCoupons == 0
    ensures sketch.Coupons() == {}
  {}

  lemma FoldNone(s: set<nat>, k: nat)
    requires k > 0 && s == {}
    ensures Fold(s, k) == {}
  {}

  lemma SparseCoupons(sketch: CpcSketch)
    requires sketch.Valid() && |sketch.window| == 0
    ensures sketch.Coupons() == sketch.table.Contents() == CouponsOf(sketch.table.Contents(), [], 0, Pow2(sketch.lgK))
    ensures EMPTY !in sketch.Coupons()
  {}
}
