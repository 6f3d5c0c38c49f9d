/** The CPC sketch of cpc/include/cpc_sketch_impl.hpp.
  *
  * The abstract value of a sketch is the set of coupons it has been offered. The fields hold it as
  * a table of surprising bits, a byte window and the offset of the window.
  */
module CpcSketches {
  import opened Words
  import opened Sets
  import opened U32Tables
  import opened CpcSpec

  /** Four times the number of surprises a table can hold (see U32Tables.MaxLg). */
  function TableLimit(lgK: nat): nat {
    UPSIZE_NUMER * Pow2(MaxLg(6 + lgK))
  }

  ghost predicate SurprisesFit(lgK: nat, s: set<nat>, w: nat) {
    UPSIZE_DENOM * |Surprises(s, Pow2(lgK), w)| <= TableLimit(lgK)
  }

  /** The sketch can take the coupons of s: the window need not move past offset 56, and the table
    * holds the surprises both before and after the window moves. */
  ghost predicate RoomFor(lgK: nat, s: set<nat>) {
    && 8 * |s| < 475 * Pow2(lgK)
    && SurprisesFit(lgK, s, CorrectOffset(Pow2(lgK), |s|))
    && (|s| > 0 ==> SurprisesFit(lgK, s, CorrectOffset(Pow2(lgK), |s| - 1)))
  }

  /** Inserts the ones of a surprise pattern as coupons of the given row; refused if and only if the
    * table cannot hold them. */
  method InsertRow(table: U32Table, lgK: nat, row: nat, word: nat) returns (refused: bool)
    requires table.Valid() && lgK <= 26 && table.validBits == 6 + lgK && row < Pow2(lgK)
    requires word < WORD_LIMIT && EMPTY !in RowBits(word, row) && RowBits(word, row) !! table.Contents()
    modifies table
    ensures refused <==> UPSIZE_DENOM * |old(table.Contents()) + RowBits(word, row)| > TableLimit(lgK)
    ensures !refused ==> table.Valid() && table.validBits == 6 + lgK
                         && table.Contents() == old(table.Contents()) + RowBits(word, row)
  {
    hide RowBits, Xor, Shl, Bit, TrailingZeros, Pow2, U32Table.Valid, U32Table.Contents;
    ghost var all := table.Contents() + RowBits(word, row);
    var pattern: nat := word;
    while pattern != 0
      invariant table.Valid() && table.validBits == 6 + lgK
      invariant pattern < WORD_LIMIT && RowBits(pattern, row) !! table.Contents() && EMPTY !in RowBits(pattern, row)
      invariant table.Contents() + RowBits(pattern, row) == all
      decreases pattern
    {
      var col := TrailingZeros(pattern);
      ColumnBelow64(pattern, col);
      ClearBit(pattern, col);
      RowBitsErase(pattern, col, row);
      pattern := Xor(pattern, Shl(1, col));
      var rowCol := 64 * row + col;
      assert rowCol < Pow2(6 + lgK) by { Pow2Add(6, lgK); Pow2Values(); }
      SubsetSize(table.Contents() + {rowCol}, all);
      TableLoad(table, lgK);
      var novel;
      novel, refused := table.MaybeInsert(rowCol);
      assert novel; // the guard at cpc_sketch_impl.hpp:342 never fires
      if refused { return; }
    }
    RowBitsNone(row);
    TableLoad(table, lgK);
    refused := false;
  }

  lemma TableLoad(table: U32Table, lgK: nat)
    requires table.Valid() && table.validBits == 6 + lgK
    ensures table.numItems == |table.Contents()| && UPSIZE_DENOM * |table.Contents()| <= TableLimit(lgK)
  {
    Pow2Mono(table.lgSize, MaxLg(6 + lgK));
  }

  lemma ColumnBelow64(x: nat, c: nat)
    requires x < WORD_LIMIT && Bit(x, c)
    ensures c < 64
  {
    WordLimit();
    if c >= 64 { BitAbove(x, 64, c); }
  }

  /** first is the first column that holds a surprise, but not beyond the window offset. */
  ghost predicate IsFirst(t: set<nat>, w: nat, first: nat) {
    && first <= w && (forall x :: x in t ==> first <= x % 64)
    && (first == w || exists x :: x in t && x % 64 == first)
  }

  ghost predicate HasColumn(t: set<nat>, c: nat) {
    exists x :: x in t && x % 64 == c
  }

  /** The OR of all patterns has a one in exactly the columns that hold a surprise. */
  ghost predicate Columns(ored: nat, t: set<nat>) {
    (forall x :: x in t ==> Bit(ored, x % 64)) && (forall c: nat :: Bit(ored, c) ==> HasColumn(t, c))
  }

  lemma FirstColumn(ored: nat, t: set<nat>, w: nat)
    requires Columns(ored, t) && w < 64
    ensures var c := TrailingZeros(ored); IsFirst(t, w, if c > w then w else c)
  {
    var c := TrailingZeros(ored);
    if c < w { assert HasColumn(t, c); }
  }

  /** Slices a bit matrix at offset w: the window bytes are returned and the surprises inserted
    * into the empty table; refused if and only if these do not fit. */
  method SliceMatrix(table: U32Table, lgK: nat, matrix: seq<nat>, w: nat, ghost s: set<nat>)
    returns (window: seq<nat>, first: nat, refused: bool)
    requires table.Valid() && table.Contents() == {} && lgK <= 26 && table.validBits == 6 + lgK
    requires |matrix| == Pow2(lgK) && MatrixOf(matrix, s) && w < 64 && EMPTY !in s
    modifies table
    ensures refused <==> !SurprisesFit(lgK, s, w)
    ensures !refused ==>
      && table.Valid() && table.validBits == 6 + lgK && table.Contents() == Surprises(s, Pow2(lgK), w)
      && |window| == |matrix| && (forall i :: 0 <= i < |matrix| ==> window[i] == WindowByte(matrix[i], w))
      && IsFirst(table.Contents(), w, first)
  {
    hide Bit, Or, SurprisePattern, WindowByte, RowBits, TrailingZeros, Columns, IsFirst, Pow2, U32Table.Valid, U32Table.Contents, MatrixOf, Surprises;
    window, first := [], 0;
    NoColumns();
    NoSurprises(s, w);
    var ored: nat := 0;
    for i := 0 to |matrix|
      invariant table.Valid() && table.validBits == 6 + lgK
      invariant table.Contents() == Surprises(s, i, w)
      invariant |window| == i && forall j :: 0 <= j < i ==> window[j] == WindowByte(matrix[j], w)
      invariant Columns(ored, table.Contents())
    {
      window := window + [WindowByte(matrix[i], w)];
      var pattern := SurprisePattern(matrix[i], w);
      MatrixWord(matrix, s, i);
      PatternIsWord(matrix[i], w);
      SurprisesRow(matrix, s, w, i);
      SurprisesGrow(s, i + 1, |matrix|, w);
      SubsetSize(Surprises(s, i + 1, w), Surprises(s, |matrix|, w));
      OrKeeps(ored, pattern, table.Contents(), i);
      ored := Or(ored, pattern);
      refused := InsertRow(table, lgK, i, pattern);
      if refused { return; }
    }
    TableLoad(table, lgK);
    refused := false;
    FirstColumn(ored, table.Contents(), w);
    first := TrailingZeros(ored);
    if first > w { first := w; }
  }

  lemma NoSurprises(s: set<nat>, w: nat)
    ensures Surprises(s, 0, w) == {}
  {}

  lemma MatrixWord(m: seq<nat>, s: set<nat>, i: nat)
    requires MatrixOf(m, s) && i < |m|
    ensures m[i] < WORD_LIMIT
  {}

  lemma PatternIsWord(row: nat, w: nat)
    requires row < WORD_LIMIT && w < 64
    ensures SurprisePattern(row, w) < WORD_LIMIT
  {
    WordLimit();
    forall i: nat | i >= 64 ensures !Bit(SurprisePattern(row, w), i) { SurprisePatternBits(row, w, i); }
    BoundFromBits(SurprisePattern(row, w), 64);
  }

  lemma SurprisesGrow(s: set<nat>, i: nat, k: nat, w: nat)
    requires i <= k
    ensures Surprises(s, i, w) <= Surprises(s, k, w)
    ensures EMPTY !in s && w < 64 ==> EMPTY !in Surprises(s, k, w)
  {}

  lemma OrKeeps(ored: nat, pattern: nat, t: set<nat>, row: nat)
    requires Columns(ored, t) && pattern < WORD_LIMIT
    ensures Columns(Or(ored, pattern), t + RowBits(pattern, row))
  {
    hide Or, RowBits, Bit;
    var all := t + RowBits(pattern, row);
    forall x | x in all ensures Bit(Or(ored, pattern), x % 64) {
      BitOr(ored, pattern, x % 64);
      if x in RowBits(pattern, row) { RowBit(pattern, row, x); }
    }
    forall c: nat | Bit(Or(ored, pattern), c) ensures HasColumn(all, c) {
      BitOr(ored, pattern, c);
      if Bit(ored, c) {
        var x :| x in t && x % 64 == c;
        assert x in all;
      } else {
        ColumnBelow64(pattern, c);
        BitInRow(pattern, row, c);
        assert 64 * row + c in all && (64 * row + c) % 64 == c;
      }
    }
  }

  lemma RowBit(pattern: nat, row: nat, x: nat)
    requires x in RowBits(pattern, row)
    ensures Bit(pattern, x % 64)
  {}

  lemma BitInRow(pattern: nat, row: nat, c: nat)
    requires Bit(pattern, c) && c < 64
    ensures 64 * row + c in RowBits(pattern, row)
  {
    assert (64 * row + c) / 64 == row && (64 * row + c) % 64 == c;
    assert InRow(pattern, row, 64 * row + c);
  }

  lemma NoColumns()
    ensures Columns(0, {})
  {
    NoBits();
  }

  /** The loop of promote_sparse_to_windowed: coupons of the first eight columns go to the window,
    * the others to a new table. */
  method SplitSlots(slots: seq<nat>, lgK: nat) returns (newTable: U32Table, newWindow: seq<nat>)
    requires 4 <= lgK <= 26 && Distinct(slots) && forall x :: x in Items(slots) ==> x < 64 * Pow2(lgK)
    requires UPSIZE_DENOM * (|Items(slots)| + 1) <= TableLimit(lgK)
    ensures fresh(newTable) && newTable.Valid() && newTable.validBits == 6 + lgK
    ensures Halves(newTable.Contents(), newWindow, Pow2(lgK), Items(slots))
    ensures newTable.Contents() <= Items(slots)
  {
    hide Distinct, NoGap, Items, Pow2, Halves, Or, Bit, Shl, WithBit;
    var k := Pow2(lgK);
    newTable := new U32Table(2, 6 + lgK);
    newWindow := seq(k, _ => 0);
    NoPrefixItems(slots);
    BlankWindow(k);
    CouponBound(lgK);
    for i := 0 to |slots|
      invariant newTable.Valid() && newTable.validBits == 6 + lgK && fresh(newTable)
      invariant Halves(newTable.Contents(), newWindow, k, Items(slots[..i]))
      invariant newTable.Contents() <= Items(slots[..i])
    {
      ItemsSnoc(slots, i);
      var rowCol := slots[i];
      if rowCol != EMPTY {
        NotYetSeen(slots, i);
        if rowCol % 64 < 8 {
          HalvesWindow(newTable.Contents(), newWindow, k, Items(slots[..i]), rowCol);
          newWindow := WithBit(newWindow, rowCol / 64, rowCol % 64);
        } else {
          HalvesTable(newTable.Contents(), newWindow, k, Items(slots[..i]), rowCol);
          SubsetSize(newTable.Contents(), Items(slots[..i]));
          var novel, refused := newTable.MaybeInsert(rowCol);
          assert novel && !refused; // the guard at cpc_sketch_impl.hpp:300 never fires
        }
      }
    }
    assert slots[..|slots|] == slots;
  }

  lemma CouponBound(lgK: nat)
    ensures Pow2(6 + lgK) == 64 * Pow2(lgK)
  {
    Pow2Add(6, lgK);
    Pow2Values();
  }

  class CpcSketch {
    var lgK: nat
    var numCoupons: nat
    var table: U32Table
    var window: seq<nat> // empty until the sketch is promoted from sparse to windowed
    var offset: nat
    var first: nat       // first interesting column

    ghost function Coupons(): set<nat>
      reads this, table
    {
      CouponsOf(table.Contents(), window, offset, Pow2(lgK))
    }

    /** All of Valid() but the thresholds on the number of coupons. */
    ghost predicate Shape()
      reads this, table
    {
      && table.Valid()
      && table.validBits == 6 + lgK
      && Represents(lgK, numCoupons, table.Contents(), window, offset, first)
    }

    ghost predicate Valid()
      reads this, table
    {
      && Shape()
      && Sound(lgK, numCoupons, table.Contents(), window, offset, first)
    }

    constructor (lgK: nat)
      requires 4 <= lgK <= 26
      ensures Valid() && fresh(table) && this.lgK == lgK && Coupons() == {}
    {
      this.lgK := lgK;
      numCoupons := 0;
      table := new U32Table(2, 6 + lgK);
      window := [];
      offset := 0;
      first := 0;
    }

    /** Rebuilds a sketch from its parts; the offset is recomputed from the number of coupons. */
    constructor FromParts(lgK: nat, numCoupons: nat, first: nat, table: U32Table, window: seq<nat>)
      requires table.Valid() && table.validBits == 6 + lgK
      ensures Valid() <==> Sound(lgK, numCoupons, table.Contents(), window, CorrectOffset(Pow2(lgK), numCoupons), first)
      ensures this.table == table && this.lgK == lgK && this.window == window
      ensures Coupons() == CouponsOf(table.Contents(), window, CorrectOffset(Pow2(lgK), numCoupons), Pow2(lgK))
    {
      this.lgK := lgK;
      this.numCoupons := numCoupons;
      this.table := table;
      this.window := window;
      offset := CorrectOffset(Pow2(lgK), numCoupons);
      this.first := first;
    }

    constructor Copy(other: CpcSketch)
      requires other.Valid()
      ensures Valid() && fresh(table) && lgK == other.lgK && numCoupons == other.numCoupons && window == other.window
      ensures Coupons() == other.Coupons()
    {
      lgK := other.lgK;
      numCoupons := other.numCoupons;
      table := new U32Table.Copy(other.table);
      window := other.window;
      offset := other.offset;
      first := other.first;
    }

    /** The K x 64 bit matrix of the coupons collected. */
    method BuildBitMatrix() returns (matrix: seq<nat>)
      requires Shape() && (numCoupons == 0 ==> offset == 0)
      ensures |matrix| == Pow2(lgK) && MatrixOf(matrix, Coupons())
    {
      hide Distinct, NoGap, Items, MatrixOf, Flipped, Xor, Shl, Or, Bit, Pow2, CouponsOf;
      var k := Pow2(lgK);
      var defaultRow := DefaultRow(offset);
      matrix := seq(k, _ => defaultRow);
      if numCoupons == 0 {
        EmptyMatrix(matrix, Coupons());
        return;
      }
      if |window| > 0 {
        for i := 0 to k
          invariant |matrix| == k
          invariant forall j :: 0 <= j < i ==> matrix[j] == WindowRow(window, offset, j)
          invariant forall j :: i <= j < k ==> matrix[j] == DefaultRow(offset)
        {
          matrix := matrix[i := Or(matrix[i], Shl(window[i], offset))];
        }
      }
      FlipStart(matrix, window, offset);
      var slots := table.slots;
      NoPrefixItems(slots);
      for i := 0 to |slots|
        invariant |matrix| == k
        invariant Flipped(matrix, window, offset, Items(slots[..i]))
      {
        ItemsSnoc(slots, i);
        var rowCol := slots[i];
        if rowCol != EMPTY {
          NotYetSeen(slots, i);
          FlipStep(matrix, window, offset, Items(slots[..i]), rowCol);
          matrix := matrix[rowCol / 64 := Xor(matrix[rowCol / 64], Shl(1, rowCol % 64))];
        }
      }
      assert slots[..|slots|] == slots;
      FlipDone(lgK, numCoupons, matrix, table.Contents(), window, offset, first);
    }

    /** Moves the window one column to the right; the matrix stays the same. Beyond offset 56 the source
      * throws; a table too small for the new surprises is refused. */
    method MoveWindow() returns (ok: bool)
      requires Shape() && |window| > 0 && numCoupons > 0 && 32 * numCoupons >= 3 * Pow2(lgK)
      requires WindowRange(Pow2(lgK), numCoupons, offset + 1)
      modifies this`window, this`offset, this`first, table
      ensures ok <==> old(offset) < 56 && SurprisesFit(lgK, old(Coupons()), old(offset) + 1)
      ensures ok ==> Valid() && Coupons() == old(Coupons()) && offset == old(offset) + 1 && |window| > 0
                     && IsFirst(table.Contents(), offset, first)
    {
      hide MatrixOf, Pow2, CouponsOf, WindowByte, Surprises, U32Table.Valid, U32Table.Contents;
      var newOffset := offset + 1;
      if newOffset > 56 { return false; }
      OffsetBounds(Pow2(lgK), numCoupons, newOffset);
      assert newOffset == CorrectOffset(Pow2(lgK), numCoupons); // the guard at cpc_sketch_impl.hpp:312 never fires
      ghost var s := Coupons();
      var matrix := BuildBitMatrix();
      table.Clear();
      var refused;
      window, first, refused := SliceMatrix(table, lgK, matrix, newOffset, s);
      if refused { return false; }
      ok := true;
      offset := newOffset;
      CouponsInRange(old(table.Contents()), old(window), old(offset), Pow2(lgK));
      SliceKeepsCoupons(matrix, s, window, offset);
      SliceRepresents(lgK, matrix, s, window, offset, first);
    }

    /** Moves the coupons of the first eight columns from the table into a new window. */
    method PromoteSparseToWindowed()
      requires Shape() && |window| == 0 && 32 * numCoupons >= 3 * Pow2(lgK)
      requires 32 * numCoupons < 3 * Pow2(lgK) + 32
      modifies this`window, this`table
      ensures Valid() && Coupons() == old(Coupons())
      ensures fresh(table) && |window| > 0
    {
      hide Distinct, NoGap, Items, Pow2, CouponsOf;
      var k := Pow2(lgK);
      PromotionCount(lgK, numCoupons);
      assert 32 * numCoupons == 3 * k || (lgK == 4 && 32 * numCoupons > 3 * k); // the guard at cpc_sketch_impl.hpp:279 never fires
      SparseMeaning(table.Contents(), k);
      SmallTable(lgK, numCoupons);
      var newTable, newWindow := SplitSlots(table.slots, lgK);
      window := newWindow;
      table := newTable;
      LeastK(lgK);
      PromotionRange(k, numCoupons);
    }

    method UpdateSparse(rowCol: nat)
      requires Valid() && |window| == 0 && rowCol < 64 * Pow2(lgK) && rowCol != EMPTY
      modifies this, table
      ensures Valid() && Coupons() == old(Coupons()) + {rowCol} && lgK == old(lgK)
      ensures table == old(table) || fresh(table)
    {
      hide Distinct, NoGap, Items, Pow2, CouponsOf;
      CouponBound(lgK);
      SmallTable(lgK, numCoupons);
      SparseMeaning(table.Contents(), Pow2(lgK));
      ghost var before := table.Contents();
      var novel, refused := table.MaybeInsert(rowCol);
      assert !refused;
      if novel {
        SparseKeeps(lgK, numCoupons, before, rowCol);
        SparseMeaning(before + {rowCol}, Pow2(lgK));
        numCoupons := numCoupons + 1;
        if 32 * numCoupons >= 3 * Pow2(lgK) { PromoteSparseToWindowed(); }
      } else {
        assert table.Contents() == before;
      }
    }

    /** Records the coupon in its zone: before, inside or after the window. Refused if and only if it is
      * new and the table cannot hold the surprises with it. */
    method Record(rowCol: nat) returns (novel: bool, refused: bool)
      requires Valid() && |window| > 0 && rowCol < 64 * Pow2(lgK) && rowCol != EMPTY
      modifies this`window, this`numCoupons, table
      ensures refused <==> rowCol !in old(Coupons()) && !SurprisesFit(lgK, old(Coupons()) + {rowCol}, offset)
      ensures novel <==> rowCol !in old(Coupons())
      ensures !refused ==> Shape() && |window| == old(|window|) && Coupons() == old(Coupons()) + {rowCol}
                           && numCoupons == old(numCoupons) + (if novel then 1 else 0)
    {
      hide Pow2, CouponsOf, Sound, SurprisesFit, U32Table.Valid, U32Table.Contents;
      var col := rowCol % 64;
      refused := false;
      NewSurprises(lgK, numCoupons, table.Contents(), window, offset, first, rowCol);
      TableLoad(table, lgK);
      if col < offset {
        novel := RecordEarly(rowCol);
      } else if col < offset + 8 {
        novel := RecordInWindow(rowCol);
      } else {
        novel, refused := RecordLate(rowCol);
      }
    }

    /** Before the window the table holds the coupons that are missing. */
    method RecordEarly(rowCol: nat) returns (novel: bool)
      requires Shape() && |window| > 0 && rowCol < 64 * Pow2(lgK) && rowCol != EMPTY && rowCol % 64 < offset
      modifies this`numCoupons, table
      ensures Shape() && |window| == old(|window|)
      ensures Coupons() == old(Coupons()) + {rowCol}
      ensures novel <==> rowCol !in old(Coupons())
      ensures numCoupons == old(numCoupons) + (if novel then 1 else 0)
    {
      hide Distinct, NoGap, Items, Pow2, CouponsOf;
      CouponBound(lgK);
      ghost var t := table.Contents();
      ghost var k := Pow2(lgK);
      ZoneOf(t, window, offset, k, rowCol);
      EarlyDelete(t, window, offset, k, rowCol);
      if rowCol in t { EarlyKeeps(lgK, numCoupons, t, window, offset, first, rowCol); }
      novel := table.MaybeDelete(rowCol);
      assert !novel ==> table.Contents() == t;
      if novel { numCoupons := numCoupons + 1; }
    }

    method RecordInWindow(rowCol: nat) returns (novel: bool)
      requires Shape() && |window| > 0 && rowCol < 64 * Pow2(lgK) && rowCol != EMPTY && offset <= rowCol % 64 < offset + 8
      modifies this`window, this`numCoupons
      ensures Shape() && |window| == old(|window|)
      ensures Coupons() == old(Coupons()) + {rowCol}
      ensures novel <==> rowCol !in old(Coupons())
      ensures numCoupons == old(numCoupons) + (if novel then 1 else 0)
    {
      hide Distinct, NoGap, Items, Pow2, CouponsOf, WithBit;
      ghost var t := table.Contents();
      ghost var k := Pow2(lgK);
      ZoneOf(t, window, offset, k, rowCol);
      var row, col := rowCol / 64, rowCol % 64;
      var newWindow := WithBit(window, row, col - offset);
      WithBitAt(window, row, col - offset);
      WindowSet(t, window, offset, k, rowCol);
      if newWindow[row] != window[row] {
        WindowKeeps(lgK, numCoupons, t, window, offset, first, rowCol);
        window := newWindow;
        numCoupons := numCoupons + 1;
        novel := true;
      } else {
        assert newWindow == window;
        novel := false;
      }
    }

    method RecordLate(rowCol: nat) returns (novel: bool, refused: bool)
      requires Shape() && |window| > 0 && rowCol < 64 * Pow2(lgK) && rowCol != EMPTY && offset + 8 <= rowCol % 64
      modifies this`numCoupons, table
      ensures refused <==> rowCol !in old(Coupons()) && UPSIZE_DENOM * (|old(table.Contents())| + 1) > TableLimit(lgK)
      ensures novel <==> rowCol !in old(Coupons())
      ensures !refused ==> Shape() && |window| == old(|window|) && Coupons() == old(Coupons()) + {rowCol}
                           && numCoupons == old(numCoupons) + (if novel then 1 else 0)
    {
      hide Pow2, CouponsOf, U32Table.Valid, U32Table.Contents;
      TableLoad(table, lgK);
      CouponBound(lgK);
      ghost var t := table.Contents();
      ghost var k := Pow2(lgK);
      ZoneOf(t, window, offset, k, rowCol);
      LateInsert(t, window, offset, k, rowCol);
      if rowCol !in t { LateKeeps(lgK, numCoupons, t, window, offset, first, rowCol); }
      novel, refused := table.MaybeInsert(rowCol);
      assert !novel ==> table.Contents() == t;
      if novel { numCoupons := numCoupons + 1; }
    }

    method UpdateWindowed(rowCol: nat) returns (ok: bool)
      requires Valid() && |window| > 0 && rowCol < 64 * Pow2(lgK) && rowCol != EMPTY
      modifies this`window, this`numCoupons, this`offset, this`first, table
      ensures ok <==> rowCol in old(Coupons()) || RoomFor(lgK, old(Coupons()) + {rowCol})
      ensures ok ==> Valid() && Coupons() == old(Coupons()) + {rowCol}
    {
      hide Pow2, CouponsOf, Represents, RoomFor, SurprisesFit, WindowRange, MoveThreshold, U32Table.Valid, U32Table.Contents;
      var k := Pow2(lgK);
      CountsCoupons(lgK, numCoupons, table.Contents(), window, offset, first);
      ghost var c, s := numCoupons, Coupons();
      if rowCol !in s { RoomNeeded(lgK, s, rowCol, offset); }
      var novel, refused := Record(rowCol);
      if refused { return false; }
      ok := true;
      if novel {
        CountsCoupons(lgK, numCoupons, table.Contents(), window, offset, first);
        if 8 * numCoupons >= MoveThreshold(k, offset) {
          LeastK(lgK);
          NextOffset(k, c, offset);
          ok := MoveWindow();
        } else {
          SameOffset(k, c, offset);
        }
      }
    }

    /** Offers a coupon. The source goes on if and only if the coupon is already there or there is room
      * for it; otherwise it throws because the window is at its end, or asks for too large a table. */
    method RowColUpdate(rowCol: nat) returns (ok: bool)
      requires Valid() && rowCol < 64 * Pow2(lgK) && rowCol != EMPTY
      modifies this, table
      ensures ok <==> rowCol in old(Coupons()) || RoomFor(lgK, old(Coupons()) + {rowCol})
      ensures ok ==> Valid() && Coupons() == old(Coupons()) + {rowCol}
      ensures lgK == old(lgK) && (table == old(table) || fresh(table))
    {
      hide Pow2, CouponsOf, RoomFor, U32Table.Valid, U32Table.Contents;
      ok := true;
      if rowCol % 64 < first {
        SkippedColumns(lgK, numCoupons, table.Contents(), window, offset, first, rowCol);
        assert Coupons() == Coupons() + {rowCol};
        return;
      }
      if |window| == 0 {
        RoomWhileSparse(lgK, numCoupons, table.Contents(), rowCol);
        UpdateSparse(rowCol);
      } else {
        ok := UpdateWindowed(rowCol);
      }
    }
  }

  /** What room for a new coupon means while the window is at offset w: the surprises fit now and, if
    * the window has to move, it can, and they fit then. */
  lemma RoomNeeded(lgK: nat, s: set<nat>, rc: nat, w: nat)
    requires lgK >= 4 && rc !in s && w <= 56 && WindowRange(Pow2(lgK), |s|, w)
    ensures RoomFor(lgK, s + {rc}) <==>
              (SurprisesFit(lgK, s + {rc}, w)
               && (8 * (|s| + 1) >= MoveThreshold(Pow2(lgK), w) ==> w < 56 && SurprisesFit(lgK, s + {rc}, w + 1)))
  {
    hide Pow2, SurprisesFit, WindowRange, MoveThreshold, CorrectOffset;
    var k, c := Pow2(lgK), |s|;
    assert |s + {rc}| == c + 1;
    LeastK(lgK);
    OffsetBounds(k, c, w);
    if 8 * (c + 1) >= MoveThreshold(k, w) {
      NextOffset(k, c, w);
      OffsetBounds(k, c + 1, w + 1);
      BelowEnd(k, c + 1, w + 1);
    } else {
      SameOffset(k, c, w);
      OffsetBounds(k, c + 1, w);
      BelowEnd(k, c + 1, w);
    }
  }

  lemma BelowEnd(k: nat, c: nat, w: nat)
    requires WindowRange(k, c, w) && w <= 57
    ensures w <= 56 ==> 8 * c < 475 * k
  {}

  /** Surprises with a new coupon: one more after the window, no more elsewhere. */
  lemma NewSurprises(lgK: nat, c: nat, t: set<nat>, window: seq<nat>, w: nat, first: nat, rc: nat)
    requires Represents(lgK, c, t, window, w, first) && |window| > 0 && rc < 64 * Pow2(lgK)
    ensures var s := CouponsOf(t, window, w, Pow2(lgK)); rc !in s ==>
            (SurprisesFit(lgK, s + {rc}, w) <==>
               UPSIZE_DENOM * (if rc % 64 < w then |t| - 1 else if rc % 64 < w + 8 then |t| else |t| + 1) <= TableLimit(lgK))
  {
    SoundTable(lgK, c, t, window, w, first);
    hide CouponsOf, Surprises, Pow2, Represents;
    var s := CouponsOf(t, window, w, Pow2(lgK));
    if rc !in s { SurprisesPut(s, Pow2(lgK), w, rc); }
  }

  lemma SurprisesPut(s: set<nat>, k: nat, w: nat, rc: nat)
    requires rc !in s && rc < 64 * k
    ensures |Surprises(s + {rc}, k, w)| == |Surprises(s, k, w)| + (if rc % 64 < w then -1 else if rc % 64 < w + 8 then 0 else 1)
  {
    var before, after := Surprises(s, k, w), Surprises(s + {rc}, k, w);
    if rc % 64 < w {
      assert rc in before && after == before - {rc};
    } else if rc % 64 < w + 8 {
      assert after == before;
    } else {
      assert rc !in before && after == before + {rc};
    }
  }

  /** A sparse sketch always has room. */
  lemma RoomForSparse(lgK: nat, s: set<nat>)
    requires 4 <= lgK <= 26 && 32 * |s| < 3 * Pow2(lgK) + 32
    ensures RoomFor(lgK, s)
  {
    hide Pow2, Surprises, CorrectOffset;
    var k := Pow2(lgK);
    LeastK(lgK);
    SmallTable(lgK, |s|);
    SurprisesAtZero(s, k);
    OffsetBounds(k, |s|, 0);
    if |s| > 0 { OffsetBounds(k, |s| - 1, 0); }
  }

  lemma SurprisesAtZero(s: set<nat>, k: nat)
    ensures |Surprises(s, k, 0)| <= |s|
  {
    SubsetSize(Surprises(s, k, 0), s);
  }

  lemma RoomWhileSparse(lgK: nat, c: nat, t: set<nat>, rc: nat)
    requires Sound(lgK, c, t, [], 0, 0)
    ensures RoomFor(lgK, CouponsOf(t, [], 0, Pow2(lgK)) + {rc})
  {
    hide RoomFor, Pow2, CouponsOf;
    RoomForSparse(lgK, CouponsOf(t, [], 0, Pow2(lgK)) + {rc});
  }

  lemma ZoneOf(t: set<nat>, window: seq<nat>, w: nat, k: nat, rc: nat)
    requires |window| == k > 0 && rc < 64 * k
    ensures rc in CouponsOf(t, window, w, k) <==>
              if rc % 64 < w then rc !in t
              else if rc % 64 < w + 8 then Bit(window[rc / 64], rc % 64 - w)
              else rc in t
  {}

  lemma WithBitAt(window: seq<nat>, row: nat, c: nat)
    requires row < |window|
    ensures |WithBit(window, row, c)| == |window|
    ensures forall i :: 0 <= i < |window| && i != row ==> WithBit(window, row, c)[i] == window[i]
    ensures WithBit(window, row, c)[row] == window[row] <==> Bit(window[row], c)
  {
    WindowNovel(window[row], c);
  }

  lemma CountsCoupons(lgK: nat, c: nat, t: set<nat>, window: seq<nat>, w: nat, first: nat)
    requires Represents(lgK, c, t, window, w, first)
    ensures 4 <= lgK <= 26 && w <= 56 && c == |CouponsOf(t, window, w, Pow2(lgK))|
  {}

  lemma EmptyMatrix(m: seq<nat>, s: set<nat>)
    requires |s| == 0 && forall i :: 0 <= i < |m| ==> m[i] == DefaultRow(0)
    ensures MatrixOf(m, s)
  {
    NoBits();
  }

  lemma NoPrefixItems(s: seq<nat>)
    ensures Items(s[..0]) == {}
  {}

  lemma CouponsInRange(t: set<nat>, window: seq<nat>, w: nat, k: nat)
    ensures forall rc :: rc in CouponsOf(t, window, w, k) ==> rc < 64 * k
  {}

  lemma SliceRepresents(lgK: nat, m: seq<nat>, s: set<nat>, window: seq<nat>, w: nat, first: nat)
    requires MatrixOf(m, s) && 4 <= lgK <= 26 && |m| == Pow2(lgK) && w <= 56 && EMPTY !in s
    requires |window| == |m| && forall i :: 0 <= i < |m| ==> window[i] == WindowByte(m[i], w)
    requires CouponsOf(Surprises(s, |m|, w), window, w, |m|) == s
    requires first <= w && forall x :: x in Surprises(s, |m|, w) ==> first <= x % 64
    ensures Represents(lgK, |s|, Surprises(s, |m|, w), window, w, first)
  {
    forall i | 0 <= i < |m| ensures window[i] < 256 { WindowByteBound(m[i], w); }
  }

  lemma PromotionCount(lgK: nat, c: nat)
    requires lgK >= 4 && 3 * Pow2(lgK) <= 32 * c < 3 * Pow2(lgK) + 32
    ensures 32 * c == 3 * Pow2(lgK) || lgK == 4
  {
    if lgK > 4 {
      assert Pow2(lgK) == 32 * Pow2(lgK - 5) by { Pow2Add(5, lgK - 5); Pow2Values(); }
      hide Pow2;
      assert c == 3 * Pow2(lgK - 5);
    }
  }

  lemma LeastK(lgK: nat)
    requires lgK >= 4
    ensures Pow2(lgK) >= 16
  {}

  lemma PromotionRange(k: nat, c: nat)
    requires k >= 16 && 32 * c < 3 * k + 32
    ensures WindowRange(k, c, 0)
  {}

  lemma SmallTable(lgK: nat, c: nat)
    requires 4 <= lgK <= 26 && 32 * c < 3 * Pow2(lgK) + 32
    ensures UPSIZE_DENOM * (c + 1) <= TableLimit(lgK)
  {
    LeastK(lgK);
    Pow2Mono(lgK, MaxLg(6 + lgK));
  }

  lemma SparseMeaning(t: set<nat>, k: nat)
    requires forall x :: x in t ==> x < 64 * k
    ensures CouponsOf(t, [], 0, k) == t
  {}

  /** While a sparse table is being split: t and window together hold the coupons of s. */
  ghost predicate Halves(t: set<nat>, window: seq<nat>, k: nat, s: set<nat>) {
    && |window| == k
    && (forall i :: 0 <= i < k ==> window[i] < 256)
    && (forall x :: x in t ==> 8 <= x % 64)
    && CouponsOf(t, window, 0, k) == s
  }

  lemma BlankWindow(k: nat)
    requires k > 0
    ensures Halves({}, seq(k, _ => 0), k, {})
  {
    NoBits();
  }

  lemma HalvesWindow(t: set<nat>, window: seq<nat>, k: nat, s: set<nat>, rc: nat)
    requires k > 0 && Halves(t, window, k, s) && rc < 64 * k && rc % 64 < 8
    ensures rc / 64 < |window|
    ensures Halves(t, WithBit(window, rc / 64, rc % 64), k, s + {rc})
  {
    WindowSet(t, window, 0, k, rc);
    OrByte(window[rc / 64], rc % 64);
  }

  lemma HalvesTable(t: set<nat>, window: seq<nat>, k: nat, s: set<nat>, rc: nat)
    requires k > 0 && Halves(t, window, k, s) && rc < 64 * k && rc % 64 >= 8
    ensures Halves(t + {rc}, window, k, s + {rc})
  {}
}
