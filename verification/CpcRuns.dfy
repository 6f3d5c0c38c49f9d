/** Whole runs of a CPC sketch, and when the table has room for them. */
module CpcRuns {
  import opened Words
  import opened Sets
  import opened U32Tables
  import opened CpcSpec
  import opened CpcSketches

  // ---------- how many surprises there can be ----------

  /** The bits of the first w columns. */
  ghost function EarlyZone(k: nat, w: nat): (r: set<nat>) {
    set rc | 0 <= rc < 64 * k && rc % 64 < w
  }

  ghost function RowStart(row: nat, w: nat): (r: set<nat>) {
    set rc | 64 * row <= rc < 64 * row + 64 && rc % 64 < w
  }

  lemma {:induction false} RowStartCount(row: nat, w: nat)
    requires w <= 64
    ensures |RowStart(row, w)| == w
  {
    if w == 0 {
      assert RowStart(row, 0) == {};
    } else {
      RowStartCount(row, w - 1);
      forall rc | 64 * row <= rc < 64 * row + 64 ensures rc % 64 == rc - 64 * row { DivUnique(rc, 64, row, rc - 64 * row); }
      assert RowStart(row, w) == RowStart(row, w - 1) + {64 * row + w - 1};
    }
  }

  lemma {:induction false} EarlyZoneCount(k: nat, w: nat)
    requires w <= 64
    ensures |EarlyZone(k, w)| == k * w
  {
    if k == 0 {
      assert EarlyZone(0, w) == {};
    } else {
      EarlyZoneCount(k - 1, w);
      RowStartCount(k - 1, w);
      assert EarlyZone(k, w) == EarlyZone(k - 1, w) + RowStart(k - 1, w);
      assert k * w == (k - 1) * w + w;
    }
  }

  lemma SurprisesBound(s: set<nat>, k: nat, w: nat)
    requires w <= 64
    ensures |Surprises(s, k, w)| <= |s| + k * w
  {
    EarlyZoneCount(k, w);
    SubsetSize(Surprises(s, k, w), s + EarlyZone(k, w));
    assert |s + EarlyZone(k, w)| <= |s| + |EarlyZone(k, w)|;
  }

  /** Up to 25 K coupons, whichever they are, always fit. */
  lemma RoomForFew(lgK: nat, s: set<nat>)
    requires 4 <= lgK <= 24 && |s| <= 25 * Pow2(lgK)
    ensures RoomFor(lgK, s)
  {
    LimitIs(lgK);
    hide Pow2, CorrectOffset, Surprises, TableLimit, SurprisesFit;
    FewFit(lgK, s, |s|);
    if |s| > 0 { FewFit(lgK, s, |s| - 1); }
  }

  lemma LimitIs(lgK: nat)
    requires 4 <= lgK <= 24
    ensures TableLimit(lgK) == 192 * Pow2(lgK) && Pow2(lgK) > 0
  {
    CouponBound(lgK);
  }

  lemma FewFit(lgK: nat, s: set<nat>, c: nat)
    requires 4 <= lgK <= 24 && |s| <= 25 * Pow2(lgK) && c <= 25 * Pow2(lgK)
    ensures SurprisesFit(lgK, s, CorrectOffset(Pow2(lgK), c))
  {
    LimitIs(lgK);
    hide Pow2, CorrectOffset, Surprises, TableLimit;
    FewOffset(Pow2(lgK), c);
    FewSurprises(s, Pow2(lgK), CorrectOffset(Pow2(lgK), c));
  }

  lemma FewOffset(k: nat, c: nat)
    requires k > 0 && c <= 25 * k
    ensures CorrectOffset(k, c) <= 22
  {
    if 8 * c >= 19 * k {
      var w := CorrectOffset(k, c);
      DivModIdentity(8 * c - 19 * k, 8 * k);
      MulLess(8 * k, w, 23);
    }
  }

  lemma FewSurprises(s: set<nat>, k: nat, w: nat)
    requires |s| <= 25 * k && w <= 22
    ensures 4 * |Surprises(s, k, w)| <= 192 * k
  {
    SurprisesBound(s, k, w);
    assert k * w <= k * 22;
  }

  // ---------- a run that does not fit ----------

  /** All coupons of the columns from lo on. */
  ghost function LateColumns(k: nat, lo: nat): (r: set<nat>) {
    set rc | 0 <= rc < 64 * k && rc % 64 >= lo
  }

  lemma LateColumnsCount(k: nat, lo: nat)
    requires lo <= 64
    ensures |LateColumns(k, lo)| == k * (64 - lo)
  {
    EarlyZoneCount(k, lo);
    EarlyZoneCount(k, 64);
    assert EarlyZone(k, 64) == EarlyZone(k, lo) + LateColumns(k, lo);
    assert k * 64 == k * lo + k * (64 - lo);
  }

  /** If the late columns are full and no others, everything before the window is a surprise too. */
  lemma LateSurprises(k: nat, lo: nat, w: nat)
    requires w + 8 <= lo <= 64
    ensures |Surprises(LateColumns(k, lo), k, w)| == k * w + k * (64 - lo)
  {
    EarlyZoneCount(k, w);
    LateColumnsCount(k, lo);
    assert Surprises(LateColumns(k, lo), k, w) == EarlyZone(k, w) + LateColumns(k, lo);
    assert EarlyZone(k, w) !! LateColumns(k, lo);
  }

  /** Within the limit on the window offset a table can still be asked for more items than it has
    * home slots for: with K = 16 and every coupon of the columns from 36 on. */
  lemma RoomCanRunOut()
    ensures var s := LateColumns(16, 36); 8 * |s| < 475 * Pow2(4) && CorrectOffset(16, |s|) == 25 && !RoomFor(4, s)
  {
    var s := LateColumns(16, 36);
    Pow2Values();
    CouponBound(4);
    LateColumnsCount(16, 36);
    assert |s| == 448 && CorrectOffset(16, 448) == 25;
    LateSurprises(16, 36, 25);
    assert TableLimit(4) == 3072;
  }

  // ---------- runs ----------

  ghost function Offered(coupons: seq<nat>, n: nat): (s: set<nat>)
    requires n <= |coupons|
  {
    Elems(coupons[..n])
  }

  /** The sketch has room after every coupon of a sequence. */
  ghost predicate RoomThroughout(lgK: nat, coupons: seq<nat>) {
    forall n :: 0 <= n <= |coupons| ==> RoomFor(lgK, Offered(coupons, n))
  }

  /** A sequence of coupons can be fed to a sketch if and only if there is room after each of them. The
    * sketch then holds exactly the coupons offered, counted without repetition, with the window where
    * their number puts it. */
  method Replay(lgK: nat, coupons: seq<nat>) returns (sketch: CpcSketch, ok: bool)
    requires 4 <= lgK <= 26
    requires forall i :: 0 <= i < |coupons| ==> coupons[i] < 64 * Pow2(lgK) && coupons[i] != EMPTY
    ensures ok <==> RoomThroughout(lgK, coupons)
    ensures ok ==>
      && fresh(sketch) && fresh(sketch.table) && sketch.Valid() && sketch.lgK == lgK
      && sketch.Coupons() == Elems(coupons)
      && sketch.numCoupons == |Elems(coupons)|
      && sketch.offset == CorrectOffset(Pow2(lgK), sketch.numCoupons)
  {
    hide RoomFor, Pow2, Elems, CpcSketch.Valid, CpcSketch.Coupons, CorrectOffset;
    sketch := new CpcSketch(lgK);
    NothingOffered(lgK, coupons);
    for i := 0 to |coupons|
      invariant fresh(sketch) && fresh(sketch.table) && sketch.Valid() && sketch.lgK == lgK
      invariant sketch.Coupons() == Offered(coupons, i)
      invariant forall n :: 0 <= n <= i ==> RoomFor(lgK, Offered(coupons, n))
    {
      ElemsSnoc(coupons, i);
      assert coupons[i] in Offered(coupons, i) ==> Offered(coupons, i + 1) == Offered(coupons, i);
      ok := sketch.RowColUpdate(coupons[i]);
      if !ok {
        assert !RoomFor(lgK, Offered(coupons, i + 1));
        return;
      }
    }
    assert coupons[..|coupons|] == coupons;
    SketchFacts(sketch);
    ok := true;
  }

  lemma NothingOffered(lgK: nat, coupons: seq<nat>)
    requires 4 <= lgK <= 26
    ensures Offered(coupons, 0) == {} && RoomFor(lgK, {})
  {
    RoomForSparse(lgK, {});
  }

  lemma SketchFacts(sketch: CpcSketch)
    requires sketch.Valid()
    ensures sketch.numCoupons == |sketch.Coupons()| && sketch.offset == CorrectOffset(Pow2(sketch.lgK), sketch.numCoupons)
  {
    SoundOffset(sketch.lgK, sketch.numCoupons, sketch.table.Contents(), sketch.window, sketch.offset, sketch.first);
  }

  /** Runs of few coupons always succeed. */
  lemma FewThroughout(lgK: nat, coupons: seq<nat>)
    requires 4 <= lgK <= 24 && |Elems(coupons)| <= 25 * Pow2(lgK)
    ensures RoomThroughout(lgK, coupons)
  {
    hide RoomFor, Pow2;
    forall n | 0 <= n <= |coupons| ensures RoomFor(lgK, Offered(coupons, n)) {
      SubsetSize(Offered(coupons, n), Elems(coupons));
      RoomForFew(lgK, Offered(coupons, n));
    }
  }

  /** The coupons of the columns from lo on, in order. */
  method ListLateColumns(k: nat, lo: nat) returns (coupons: seq<nat>)
    ensures Elems(coupons) == LateColumns(k, lo)
    ensures forall i :: 0 <= i < |coupons| ==> coupons[i] < 64 * k
  {
    coupons := [];
    for rc := 0 to 64 * k
      invariant Elems(coupons) == set x | 0 <= x < rc && x % 64 >= lo
      invariant forall i :: 0 <= i < |coupons| ==> coupons[i] < 64 * k
    {
      if rc % 64 >= lo {
        assert Elems(coupons + [rc]) == Elems(coupons) + {rc};
        coupons := coupons + [rc];
      }
    }
  }

  /** With K = 16, offering every coupon of the columns from 36 on fails, although the window offset
    * would stay within its limit. */
  method RunWithoutRoom() returns (coupons: seq<nat>, ok: bool)
    ensures Elems(coupons) == LateColumns(16, 36) && CorrectOffset(16, |Elems(coupons)|) == 25
    ensures !ok && !RoomThroughout(4, coupons)
  {
    hide RoomFor, LateColumns, Elems, CorrectOffset;
    Pow2Values();
    RoomCanRunOut();
    coupons := ListLateColumns(16, 36);
    assert coupons[..|coupons|] == coupons;
    assert Offered(coupons, |coupons|) == LateColumns(16, 36);
    var sketch;
    sketch, ok := Replay(4, coupons);
  }

  /** The one pair of row and column that looks like an empty slot: the last row and column of the largest sketch. */
  predicate IsMoved(hash0: nat, leadingZeros: nat, lgK: nat) {
    lgK == 26 && hash0 % Pow2(lgK) == Pow2(lgK) - 1 && leadingZeros >= 63
  }

  lemma LastCoupon(lgK: nat, row: nat, col: nat)
    requires 4 <= lgK <= 26 && row < Pow2(lgK) && col < 64
    ensures 64 * row + col == EMPTY <==> lgK == 26 && row == Pow2(lgK) - 1 && col == 63
  {
    Pow2Mono(lgK, 26);
    if lgK < 26 { Pow2Mono(lgK, 25); }
    Pow2Values();
    Pow2Add(16, 10);
    Pow2Add(16, 9);
  }

  lemma RowAndColumn(lgK: nat, row: nat, col: nat)
    requires 4 <= lgK <= 26 && row < Pow2(lgK) && col < 64
    ensures var rc := 64 * row + col;
            var moved := if rc == EMPTY then 1 else 0;
            && (rc == EMPTY <==> lgK == 26 && row == Pow2(lgK) - 1 && col == 63) && row >= moved
            && (64 * (row - moved) + col) / 64 == row - moved && (64 * (row - moved) + col) % 64 == col
            && 64 * (row - moved) + col < 64 * Pow2(lgK)
  {
    LastCoupon(lgK, row, col);
    hide Pow2;
  }

  /** Apart from that coupon, two hash values fall into the same row if and only if they agree modulo K. */
  lemma SameRow(a: nat, aZeros: nat, b: nat, bZeros: nat, lgK: nat)
    requires 4 <= lgK <= 26 && aZeros <= 64 && bZeros <= 64 && !IsMoved(a, aZeros, lgK) && !IsMoved(b, bZeros, lgK)
    ensures RowColFromTwoHashes(a, aZeros, lgK) / 64 == RowColFromTwoHashes(b, bZeros, lgK) / 64 <==> a % Pow2(lgK) == b % Pow2(lgK)
  {}

  /** The coupon of a pair of hash values: row from the first, leading zeros of the second as column.
    * The one coupon that looks like an empty slot is moved to another row. */
  function RowColFromTwoHashes(hash0: nat, leadingZeros: nat, lgK: nat): (rowCol: nat)
    requires 4 <= lgK <= 26 && leadingZeros <= 64
    ensures rowCol < 64 * Pow2(lgK) && rowCol != EMPTY
    ensures rowCol % 64 == if leadingZeros > 63 then 63 else leadingZeros
    ensures rowCol / 64 == hash0 % Pow2(lgK) - if IsMoved(hash0, leadingZeros, lgK) then 1 else 0
  {
    var col := if leadingZeros > 63 then 63 else leadingZeros;
    var row := hash0 % Pow2(lgK);
    var rowCol := 64 * row + col;
    RowAndColumn(lgK, row, col);
    if rowCol == EMPTY then rowCol - 64 else rowCol
  }
}
