/** Compression of whole sketches, flavor by flavor (cpc/include/cpc_compressor_impl.hpp:143-366). */
module CpcFlavors {
  import opened Words
  import opened Sets
  import opened U32Tables
  import opened CpcSpec
  import opened PrefixCodes
  import opened PairCodecs
  import opened Sorting
  import opened PairLists
  import opened CpcSketches
  import opened CpcCompressors

  // ---------- column transformations ----------

  /** Pinned: no table item lies in the first eight columns, so they are cut off. */
  function PinnedKey(x: nat): (y: nat) {
    if x >= 8 then x - 8 else 0
  }

  ghost function PinnedMap(): (f: nat -> nat) {
    x => PinnedKey(x)
  }

  /** Sliding: columns are rotated so that the window comes last, then permuted within the row. */
  function SlidingKey(x: nat, w: nat, permutation: seq<nat>): (y: nat) {
    var col := (x % 64 + 56 - w) % 64;
    64 * (x / 64) + if col < |permutation| then permutation[col] else 0
  }

  function SlidingBack(y: nat, w: nat, inverse: seq<nat>): (x: nat) {
    64 * (y / 64) + ((if y % 64 < |inverse| then inverse[y % 64] else 0) + w + 8) % 64
  }

  ghost predicate OutsideWindow(x: nat, w: nat) {
    x % 64 < w || w + 8 <= x % 64
  }

  lemma RotatedColumn(x: nat, w: nat)
    requires w <= 56 && OutsideWindow(x, w)
    ensures var col := (x % 64 + 56 - w) % 64;
            col < 56 && (col + w + 8) % 64 == x % 64
  {}

  lemma SlidingInverse(x: nat, w: nat, permutation: seq<nat>, inverse: seq<nat>)
    requires w <= 56 && OutsideWindow(x, w) && InversePermutations(permutation, inverse)
    ensures SlidingKey(x, w, permutation) / 64 == x / 64
    ensures SlidingKey(x, w, permutation) % 64 < 56
    ensures SlidingBack(SlidingKey(x, w, permutation), w, inverse) == x
  {}

  ghost function Image(t: set<nat>, f: nat -> nat): (r: set<nat>) {
    set x | x in t :: f(x)
  }

  ghost predicate Inverts(t: set<nat>, f: nat -> nat, g: nat -> nat) {
    forall x :: x in t ==> g(f(x)) == x
  }

  /** Mapping a list of distinct items through an invertible f lists the image, again without repetition. */
  lemma MapPairs(items: seq<nat>, mapped: seq<nat>, t: set<nat>, f: nat -> nat, g: nat -> nat)
    requires Unique(items) && Elems(items) == t && Inverts(t, f, g)
    requires |mapped| == |items| && forall i :: 0 <= i < |items| ==> mapped[i] == f(items[i])
    ensures Unique(mapped) && Elems(mapped) == Image(t, f)
  {}

  /** Mapping the image back gives the set. */
  lemma UnmapPairs(pairs: seq<nat>, unmapped: seq<nat>, t: set<nat>, f: nat -> nat, g: nat -> nat)
    requires Unique(pairs) && Elems(pairs) == Image(t, f) && Inverts(t, f, g)
    requires |unmapped| == |pairs| && forall i :: 0 <= i < |pairs| ==> unmapped[i] == g(pairs[i])
    ensures Unique(unmapped) && Elems(unmapped) == t
  {
    var s := Image(t, f);
    forall y | y in s ensures f(g(y)) == y && g(y) in t {
      var x :| x in t && f(x) == y;
    }
    MapPairs(pairs, unmapped, s, g, f);
    forall x | x in t ensures x in Image(s, g) { assert f(x) in s; }
    assert Image(s, g) == t;
  }

  // ---------- what a compressed state holds ----------

  /** The table part stores the pairs of s. */
  ghost predicate TableHolds(cb: Codebook, lgK: nat, st: CompressedState, s: set<nat>)
    requires |cb.columnCode| == 65
  {
    exists pairs: seq<nat> ::
      PairsIn(cb, lgK, pairs, st.tableData, st.tableDataWords) && Elems(pairs) == s && |pairs| == st.tableNumEntries
  }

  /** The set of pairs that a sketch's flavor stores in the table part. */
  ghost function Stored(cb: Codebook, lgK: nat, c: nat, t: set<nat>, window: seq<nat>, w: nat): (s: set<nat>)
    requires 4 <= lgK <= 26
  {
    match DetermineFlavor(Pow2(lgK), c)
    case Empty => {}
    case Sparse => t
    case Hybrid => CouponsOf(t, window, 0, Pow2(lgK))
    case Pinned => Image(t, PinnedMap())
    case Sliding => Image(t, Rotation(cb, lgK, c, w))
  }

  ghost function Rotation(cb: Codebook, lgK: nat, c: nat, w: nat): (f: nat -> nat)
    requires 4 <= lgK <= 26
  {
    var phase := PseudoPhase(lgK, c);
    var permutation := if phase < |cb.permutations| then cb.permutations[phase] else [];
    x => SlidingKey(x, w, permutation)
  }

  /** A sliding sketch with surprises needs one of the sixteen phases that have a permutation. */
  ghost predicate Compressible(lgK: nat, c: nat, t: set<nat>)
    requires 4 <= lgK <= 26
  {
    DetermineFlavor(Pow2(lgK), c) == Sliding && t != {} ==> PseudoPhase(lgK, c) < 16
  }

  /** The pairs of s, in increasing order, fit the buffer allocated for them. */
  ghost predicate SetFits(enc: seq<nat>, lgK: nat, s: set<nat>)
    requires |enc| == 65
  {
    forall pairs: seq<nat> :: Increasing(pairs) && |pairs| > 0 && Elems(pairs) == s ==> PairsFit(enc, lgK, pairs)
  }

  /** What the encoder writes for the pairs of s, and the length of the buffer it writes to, in words. */
  ghost predicate Written(enc: seq<nat>, lgK: nat, s: set<nat>, words: nat, room: nat)
    requires |enc| == 65
  {
    forall pairs: seq<nat> :: Increasing(pairs) && |pairs| > 0 && Elems(pairs) == s ==>
      words == PairWords(enc, BaseBits(lgK, |pairs|), pairs) && room == PairRoom(lgK, |pairs|)
  }

  /** The buffer for the surprises of a sliding sketch is long enough; the other flavors always fit. */
  ghost predicate BufferHolds(cb: Codebook, lgK: nat, c: nat, t: set<nat>, w: nat)
    requires |cb.columnCode| == 65 && 4 <= lgK <= 26
  {
    DetermineFlavor(Pow2(lgK), c) == Sliding && t != {} ==> SetFits(cb.columnCode, lgK, Image(t, Rotation(cb, lgK, c, w)))
  }

  ghost predicate Holds(cb: Codebook, lgK: nat, c: nat, t: set<nat>, window: seq<nat>, w: nat, st: CompressedState)
    requires GoodBook(cb) && 4 <= lgK <= 26
  {
    var flavor := DetermineFlavor(Pow2(lgK), c);
    && (flavor == Sparse || flavor == Hybrid || t != {} ==>
          TableHolds(cb, lgK, st, Stored(cb, lgK, c, t, window, w)) && |st.tableData| > 0)
    && (flavor == Sparse || flavor == Hybrid ==> st.windowData == [])
    && ((flavor == Pinned || flavor == Sliding) && t == {} ==> st.tableNumEntries == 0)
    && (flavor == Pinned || flavor == Sliding ==>
          BytesIn(cb, PseudoPhase(lgK, c), window, st.windowData, st.windowDataWords))
  }

  // ---------- compression ----------

  /** Sorts distinct pairs and compresses them. */
  method CompressSorted(cb: Codebook, lgK: nat, pairs: array<nat>, ghost s: set<nat>) returns (st: CompressedState, room: nat)
    requires GoodBook(cb) && lgK <= 26 && pairs.Length > 0 && Unique(pairs[..]) && Elems(pairs[..]) == s
    requires forall x :: x in s ==> x < 64 * Pow2(lgK)
    modifies pairs
    ensures Written(cb.columnCode, lgK, s, st.tableDataWords, room) && (st.tableDataWords > room <==> !SetFits(cb.columnCode, lgK, s))
    ensures TableHolds(cb, lgK, st, s) && |st.tableData| > 0 && st.windowData == []
  {
    hide GoodBook, Unique, Elems, Increasing, PairsIn, Pow2, SetFits, Written;
    SortPairs(pairs);
    BookCode(cb);
    st, room := CompressIncreasing(cb, lgK, pairs[..], s);
  }

  lemma BookCode(cb: Codebook)
    requires GoodBook(cb)
    ensures |cb.columnCode| == 65 && GoodTable(cb.columnCode)
  {}

  method CompressIncreasing(cb: Codebook, lgK: nat, pairs: seq<nat>, ghost s: set<nat>) returns (st: CompressedState, room: nat)
    requires GoodBook(cb) && lgK <= 26 && |pairs| > 0 && Increasing(pairs) && Elems(pairs) == s
    requires forall x :: x in s ==> x < 64 * Pow2(lgK)
    ensures |cb.columnCode| == 65 && Written(cb.columnCode, lgK, s, st.tableDataWords, room)
    ensures st.tableDataWords > room <==> !SetFits(cb.columnCode, lgK, s)
    ensures TableHolds(cb, lgK, st, s) && |st.tableData| > 0 && st.windowData == []
  {
    hide Increasing, PairsIn, Pow2, PairsFit, SetFits, Written, PairWords, PairRoom, BaseBits;
    assert forall i :: 0 <= i < |pairs| ==> pairs[i] in s;
    OneListFits(cb.columnCode, lgK, pairs, s);
    OneListWritten(cb.columnCode, lgK, pairs, s);
    var data, words;
    data, words, room := CompressSurprisingValues(cb, pairs, lgK);
    st := CompressedState(data, words, |pairs|, [], 0);
  }

  /** A set has one increasing list. */
  lemma {:induction false} IncreasingIsUnique(a: seq<nat>, b: seq<nat>)
    requires Increasing(a) && Increasing(b) && Elems(a) == Elems(b)
    ensures a == b
  {
    UniqueCount(a);
    UniqueCount(b);
    if |a| > 0 {
      assert a[|a| - 1] in Elems(b);
      var x, y := a[|a| - 1], b[|b| - 1];
      assert y in Elems(a);
      assert x == y by { LastIsLargest(a, y); LastIsLargest(b, x); }
      WithoutLast(a);
      WithoutLast(b);
      IncreasingIsUnique(a[..|a| - 1], b[..|b| - 1]);
    }
  }

  lemma LastIsLargest(a: seq<nat>, x: nat)
    requires Increasing(a) && x in Elems(a)
    ensures |a| > 0 && x <= a[|a| - 1]
  {
    var i :| 0 <= i < |a| && a[i] == x;
  }

  lemma WithoutLast(a: seq<nat>)
    requires Increasing(a) && |a| > 0
    ensures Increasing(a[..|a| - 1]) && Elems(a[..|a| - 1]) == Elems(a) - {a[|a| - 1]}
  {
    var n := |a| - 1;
    forall x | x in Elems(a) - {a[n]} ensures x in a[..n] {
      var i :| 0 <= i < |a| && a[i] == x;
      assert a[..n][i] == x;
    }
  }

  lemma OneListFits(enc: seq<nat>, lgK: nat, pairs: seq<nat>, s: set<nat>)
    requires |enc| == 65 && |pairs| > 0 && Increasing(pairs) && Elems(pairs) == s
    ensures SetFits(enc, lgK, s) <==> PairsFit(enc, lgK, pairs)
  {
    hide PairsFit, Increasing, Elems;
    forall other: seq<nat> | Increasing(other) && |other| > 0 && Elems(other) == s ensures other == pairs {
      IncreasingIsUnique(other, pairs);
    }
  }

  lemma OneListWritten(enc: seq<nat>, lgK: nat, pairs: seq<nat>, s: set<nat>)
    requires |enc| == 65 && |pairs| > 0 && Increasing(pairs) && Elems(pairs) == s
    ensures Written(enc, lgK, s, PairWords(enc, BaseBits(lgK, |pairs|), pairs), PairRoom(lgK, |pairs|))
  {
    hide PairWords, PairRoom, BaseBits, Increasing, Elems;
    forall other: seq<nat> | Increasing(other) && |other| > 0 && Elems(other) == s ensures other == pairs {
      IncreasingIsUnique(other, pairs);
    }
  }

  /** Small sets fit. */
  lemma FewFit(enc: seq<nat>, lgK: nat, s: set<nat>)
    requires |enc| == 65 && GoodTable(enc) && lgK <= 26 && 12 * |s| < U32 && forall x :: x in s ==> x < 64 * Pow2(lgK)
    ensures SetFits(enc, lgK, s)
  {
    hide PairsFit, Pow2, GoodTable;
    forall pairs: seq<nat> | Increasing(pairs) && |pairs| > 0 && Elems(pairs) == s ensures PairsFit(enc, lgK, pairs) {
      assert forall i :: 0 <= i < |pairs| ==> pairs[i] in s;
      UniqueCount(pairs);
      FewPairsFit(enc, lgK, pairs);
    }
  }

  /** ... so a sketch with fewer than 2^32 / 12 surprises does, and that is every sketch up to lgK = 22. */
  lemma BufferHoldsFew(cb: Codebook, sketch: CpcSketch)
    requires GoodBook(cb) && sketch.Valid()
    requires Compressible(sketch.lgK, sketch.numCoupons, sketch.table.Contents())
    requires sketch.lgK <= 22 || 12 * |sketch.table.Contents()| < U32
    ensures |cb.columnCode| == 65 && BufferHolds(cb, sketch.lgK, sketch.numCoupons, sketch.table.Contents(), sketch.offset)
  {
    BookCode(cb);
    if sketch.lgK <= 22 { SmallTables(sketch); }
    hide SetFits, Pow2, GoodBook, U32Table.Valid, U32Table.Contents, CouponsOf, Rotation, Image;
    var t := sketch.table.Contents();
    if DetermineFlavor(Pow2(sketch.lgK), sketch.numCoupons) == Sliding && t != {} {
      var f := Rotation(cb, sketch.lgK, sketch.numCoupons, sketch.offset);
      ImageSize(t, f);
      SlidingRange(sketch);
      RotationRange(cb, sketch.lgK, sketch.numCoupons, sketch.offset, t);
      FewFit(cb.columnCode, sketch.lgK, Image(t, f));
    }
  }

  lemma SmallTables(sketch: CpcSketch)
    requires sketch.Valid() && sketch.lgK <= 22
    ensures 12 * |sketch.table.Contents()| < U32
  {
    TableLoad(sketch.table, sketch.lgK);
    Pow2Mono(MaxLg(6 + sketch.lgK), 28);
    Pow2Add(2, 26);
    Pow2Values();
  }

  lemma SlidingRange(sketch: CpcSketch)
    requires sketch.Valid() && DetermineFlavor(Pow2(sketch.lgK), sketch.numCoupons) == Sliding
    ensures |sketch.window| > 0 && sketch.offset <= 56
    ensures forall x :: x in sketch.table.Contents() ==> OutsideWindow(x, sketch.offset) && x < 64 * Pow2(sketch.lgK)
  {
    LeastK(sketch.lgK);
    hide U32Table.Valid, U32Table.Contents, CouponsOf, Pow2;
  }

  lemma {:induction false} ImageSize(t: set<nat>, f: nat -> nat)
    ensures |Image(t, f)| <= |t|
  {
    if t == {} {
      assert Image(t, f) == {};
    } else {
      var x :| x in t;
      ImageSize(t - {x}, f);
      assert Image(t, f) == Image(t - {x}, f) + {f(x)};
    }
  }

  lemma UniqueItems(items: seq<nat>, t: set<nat>)
    requires Elems(items) == t && |items| == |t|
    ensures Unique(items)
  {
    UniqueCount(items);
  }

  method CompressSparseFlavor(cb: Codebook, sketch: CpcSketch) returns (st: CompressedState)
    requires GoodBook(cb) && sketch.Valid() && DetermineFlavor(Pow2(sketch.lgK), sketch.numCoupons) == Sparse
    ensures Holds(cb, sketch.lgK, sketch.numCoupons, sketch.table.Contents(), sketch.window, sketch.offset, st)
  {
    hide GoodBook, Unique, Elems, TableHolds, BytesIn, Pow2, CouponsOf, Items, NoGap, Distinct;
    ghost var t := sketch.table.Contents();
    SoundTable(sketch.lgK, sketch.numCoupons, t, sketch.window, sketch.offset, sketch.first);
    var pairs := sketch.table.UnwrappingGetItems();
    UniqueItems(pairs[..], t);
    BookCode(cb);
    SparseFits(sketch);
    FewFit(cb.columnCode, sketch.lgK, t);
    var room;
    st, room := CompressSorted(cb, sketch.lgK, pairs, t);
    assert st.tableDataWords <= room; // the buffer is long enough
  }

  /** A table that stores no missing coupons is small enough. */
  lemma SparseFits(sketch: CpcSketch)
    requires sketch.Valid() && 8 * sketch.numCoupons < 27 * Pow2(sketch.lgK)
    ensures 12 * sketch.numCoupons < U32 && 12 * |sketch.table.Contents()| < U32
  {
    hide U32Table.Valid, U32Table.Contents;
    var t, s, k := sketch.table.Contents(), sketch.Coupons(), Pow2(sketch.lgK);
    Pow2Mono(sketch.lgK, 26);
    Pow2Values();
    SoundTable(sketch.lgK, sketch.numCoupons, t, sketch.window, sketch.offset, sketch.first);
    SoundOffset(sketch.lgK, sketch.numCoupons, t, sketch.window, sketch.offset, sketch.first);
    hide Pow2, CouponsOf, Represents;
    OffsetBounds(k, sketch.numCoupons, 0);
    SurprisesAtZero(s, k);
  }

  method CompressPinnedFlavor(cb: Codebook, sketch: CpcSketch) returns (st: CompressedState)
    requires GoodBook(cb) && sketch.Valid() && DetermineFlavor(Pow2(sketch.lgK), sketch.numCoupons) == Pinned
    ensures Holds(cb, sketch.lgK, sketch.numCoupons, sketch.table.Contents(), sketch.window, sketch.offset, st)
  {
    hide GoodTable, Decodes, GoodByteCode, InversePermutations, Unique, Elems, TableHolds, BytesIn, Pow2, CouponsOf, Items, NoGap, Distinct, PinnedKey, Image, PseudoPhase;
    ghost var t := sketch.table.Contents();
    SmallOffset(sketch.lgK, sketch.numCoupons, t, sketch.window, sketch.offset, sketch.first);
    var windowData, windowWords := CompressSlidingWindow(cb, sketch.window, sketch.lgK, sketch.numCoupons);
    st := CompressedState([], 0, 0, windowData, windowWords);
    var pairs := sketch.table.UnwrappingGetItems();
    if pairs.Length > 0 {
      UniqueItems(pairs[..], t);
      ghost var items := pairs[..];
      PinnedInverts(t);
      ElemsIn(items, t);
      for i := 0 to pairs.Length
        invariant forall j :: 0 <= j < i ==> pairs[j] == PinnedKey(items[j])
        invariant forall j :: i <= j < pairs.Length ==> pairs[j] == items[j]
      {
        assert items[i] in t; // so the guard at cpc_compressor_impl.hpp:271 never fires
        PinnedKeyIs(items[i]);
        pairs[i] := pairs[i] - 8;
      }
      MapPairs(items, pairs[..], t, PinnedMap(), y => y + 8);
      PinnedImageRange(t, sketch.lgK);
      SparseFits(sketch);
      ImageSize(t, PinnedMap());
      FewFit(cb.columnCode, sketch.lgK, Image(t, PinnedMap()));
      var table, room := CompressSorted(cb, sketch.lgK, pairs, Image(t, PinnedMap()));
      assert table.tableDataWords <= room; // the buffer is long enough
      st := table.(windowData := windowData, windowDataWords := windowWords);
      SameTable(cb, sketch.lgK, table, st, Image(t, PinnedMap()));
      NonEmpty(items, t);
    } else {
      EmptyItems(pairs[..], t);
    }
  }

  lemma SmallOffset(lgK: nat, c: nat, t: set<nat>, window: seq<nat>, w: nat, first: nat)
    requires Sound(lgK, c, t, window, w, first) && 8 * c < 27 * Pow2(lgK) && |window| > 0
    ensures w == 0 && forall x :: x in t ==> 8 <= x % 64
  {
    var k := Pow2(lgK);
    if w > 0 { MulLess(k, 19 + 8 * w, 27); }
  }

  lemma PinnedKeyIs(x: nat)
    requires x >= 8
    ensures PinnedKey(x) == x - 8
  {}

  lemma PinnedInverts(t: set<nat>)
    requires forall x :: x in t ==> 8 <= x % 64
    ensures Inverts(t, PinnedMap(), y => y + 8) && forall x :: x in t ==> x >= 8
  {}

  lemma PinnedColumns(t: set<nat>)
    requires forall x :: x in t ==> 8 <= x % 64
    ensures forall y :: y in Image(t, PinnedMap()) ==> y % 64 < 56
  {}

  lemma PinnedImageRange(t: set<nat>, lgK: nat)
    requires forall x :: x in t ==> x < 64 * Pow2(lgK)
    ensures forall y :: y in Image(t, PinnedMap()) ==> y < 64 * Pow2(lgK)
  {}

  lemma ElemsIn(items: seq<nat>, t: set<nat>)
    requires Elems(items) == t
    ensures forall i :: 0 <= i < |items| ==> items[i] in t
  {}

  lemma NonEmpty(items: seq<nat>, t: set<nat>)
    requires Elems(items) == t && |items| > 0
    ensures t != {}
  {
    assert items[0] in t;
  }

  lemma EmptyItems(items: seq<nat>, t: set<nat>)
    requires Elems(items) == t && |items| == 0
    ensures t == {}
  {}

  lemma SameTable(cb: Codebook, lgK: nat, a: CompressedState, b: CompressedState, s: set<nat>)
    requires |cb.columnCode| == 65 && TableHolds(cb, lgK, a, s)
    requires b == a.(windowData := b.windowData, windowDataWords := b.windowDataWords)
    ensures TableHolds(cb, lgK, b, s)
  {}

  /** Builds the sparse form of a windowed sketch before compressing it. */
  method CompressHybridFlavor(cb: Codebook, sketch: CpcSketch) returns (st: CompressedState)
    requires GoodBook(cb) && sketch.Valid() && DetermineFlavor(Pow2(sketch.lgK), sketch.numCoupons) == Hybrid
    ensures Holds(cb, sketch.lgK, sketch.numCoupons, sketch.table.Contents(), sketch.window, sketch.offset, st)
  {
    hide GoodTable, Decodes, GoodByteCode, InversePermutations, Unique, Elems, TableHolds, BytesIn, Pow2, CouponsOf,
         Items, NoGap, Distinct, PseudoPhase, Increasing, WindowCoupons, Merged;
    ghost var t, k := sketch.table.Contents(), Pow2(sketch.lgK);
    SmallOffset(sketch.lgK, sketch.numCoupons, t, sketch.window, sketch.offset, sketch.first);
    HybridCoupons(t, sketch.window, k);
    var pairsFromTable := sketch.table.UnwrappingGetItems();
    UniqueItems(pairsFromTable[..], t);
    SortPairs(pairsFromTable);
    var numPairsFromWindow := sketch.numCoupons - pairsFromTable.Length;
    var allPairs := TrickyGetPairsFromWindow(sketch.window, numPairsFromWindow, pairsFromTable.Length);
    ghost var fromWindow := allPairs[pairsFromTable.Length..];
    Merge(pairsFromTable[..], allPairs);
    MergedIncreasing(pairsFromTable[..], fromWindow, t, WindowCoupons(sketch.window, k));
    CouponsInRange(t, sketch.window, 0, k);
    SparseFits(sketch);
    FewFit(cb.columnCode, sketch.lgK, CouponsOf(t, sketch.window, 0, k));
    var room;
    st, room := CompressIncreasing(cb, sketch.lgK, allPairs[..], CouponsOf(t, sketch.window, 0, k));
    assert st.tableDataWords <= room; // the buffer is long enough
  }

  /** Merging increasing lists of disjoint sets lists their union in increasing order. */
  lemma MergedIncreasing(a: seq<nat>, b: seq<nat>, s: set<nat>, t: set<nat>)
    requires Increasing(a) && Increasing(b) && Elems(a) == s && Elems(b) == t && s !! t
    ensures Increasing(Merged(a, b)) && Elems(Merged(a, b)) == s + t
  {
    var c := Merged(a, b);
    MergedElements(a, b);
    MergedSorted(a, b);
    MergedElems(a, b, c);
    UniqueCount(a);
    UniqueCount(b);
    UniqueCount(c);
    SortedUnique(c);
  }

  lemma MergedElems(a: seq<nat>, b: seq<nat>, c: seq<nat>)
    requires multiset(c) == multiset(a) + multiset(b)
    ensures Elems(c) == Elems(a) + Elems(b)
  {
    forall x ensures x in c <==> x in a || x in b {
      assert x in multiset(c) <==> x in multiset(a) || x in multiset(b);
    }
  }

  method CompressSlidingFlavor(cb: Codebook, sketch: CpcSketch) returns (r: CompressResult)
    requires GoodBook(cb) && sketch.Valid() && DetermineFlavor(Pow2(sketch.lgK), sketch.numCoupons) == Sliding
    ensures r.Throws? <==> !Compressible(sketch.lgK, sketch.numCoupons, sketch.table.Contents())
    ensures r.Overruns? <==> (Compressible(sketch.lgK, sketch.numCoupons, sketch.table.Contents())
                              && !BufferHolds(cb, sketch.lgK, sketch.numCoupons, sketch.table.Contents(), sketch.offset))
    ensures r.Overruns? ==>
      && r.words > r.room
      && Written(cb.columnCode, sketch.lgK, Image(sketch.table.Contents(), Rotation(cb, sketch.lgK, sketch.numCoupons, sketch.offset)), r.words, r.room)
    ensures r.Compressed? ==>
      Holds(cb, sketch.lgK, sketch.numCoupons, sketch.table.Contents(), sketch.window, sketch.offset, r.state)
  {
    hide GoodTable, Decodes, GoodByteCode, InversePermutations, Unique, Elems, TableHolds, BytesIn, Pow2, CouponsOf,
         Items, NoGap, Distinct, PseudoPhase, SlidingKey, Image, Rotation, SetFits, Written;
    ghost var t := sketch.table.Contents();
    var windowData, windowWords := CompressSlidingWindow(cb, sketch.window, sketch.lgK, sketch.numCoupons);
    var st := CompressedState([], 0, 0, windowData, windowWords);
    var pairs := sketch.table.UnwrappingGetItems();
    if pairs.Length == 0 { EmptyItems(pairs[..], t); return Compressed(st); }
    NonEmpty(pairs[..], t);
    var phase := PseudoPhase(sketch.lgK, sketch.numCoupons);
    if phase >= 16 { return Throws; }
    UniqueItems(pairs[..], t);
    ghost var f := Rotation(cb, sketch.lgK, sketch.numCoupons, sketch.offset);
    ghost var items := pairs[..];
    RotatePairs(pairs, sketch.offset, cb.permutations[phase], cb.inverses[phase], t);
    RotationIs(cb, sketch.lgK, sketch.numCoupons, sketch.offset, t);
    MapPairs(items, pairs[..], t, f, RotationBack(cb, sketch.lgK, sketch.numCoupons, sketch.offset));
    RotationRange(cb, sketch.lgK, sketch.numCoupons, sketch.offset, t);
    var table, room := CompressSorted(cb, sketch.lgK, pairs, Image(t, f));
    if table.tableDataWords > room { return Overruns(table.tableDataWords, room); }
    st := table.(windowData := windowData, windowDataWords := windowWords);
    SameTable(cb, sketch.lgK, table, st, Image(t, f));
    r := Compressed(st);
  }

  /** Rotates and permutes the columns in place. */
  method RotatePairs(pairs: array<nat>, offset: nat, permutation: seq<nat>, ghost inverse: seq<nat>, ghost t: set<nat>)
    requires offset <= 56 && InversePermutations(permutation, inverse)
    requires Elems(pairs[..]) == t && forall x :: x in t ==> OutsideWindow(x, offset)
    modifies pairs
    ensures forall i :: 0 <= i < pairs.Length ==> pairs[i] == SlidingKey(old(pairs[i]), offset, permutation)
  {
    hide Elems;
    ghost var items := pairs[..];
    ElemsIn(items, t);
    for i := 0 to pairs.Length
      invariant forall j :: 0 <= j < i ==> pairs[j] == SlidingKey(items[j], offset, permutation)
      invariant forall j :: i <= j < pairs.Length ==> pairs[j] == items[j]
    {
      var row, col := pairs[i] / 64, pairs[i] % 64;
      assert items[i] in t;
      RotatedColumn(items[i], offset);
      col := (col + 56 - offset) % 64;
      assert col < 56; // the guard at cpc_compressor_impl.hpp:322 never fires
      col := permutation[col];
      pairs[i] := 64 * row + col;
    }
  }

  ghost function RotationBack(cb: Codebook, lgK: nat, c: nat, w: nat): (f: nat -> nat)
    requires 4 <= lgK <= 26
  {
    var phase := PseudoPhase(lgK, c);
    var inverse := if phase < |cb.inverses| then cb.inverses[phase] else [];
    y => SlidingBack(y, w, inverse)
  }

  lemma RotationIs(cb: Codebook, lgK: nat, c: nat, w: nat, t: set<nat>)
    requires GoodBook(cb) && 4 <= lgK <= 26 && w <= 56 && PseudoPhase(lgK, c) < 16
    requires forall x :: x in t ==> OutsideWindow(x, w)
    ensures var phase := PseudoPhase(lgK, c);
      && (forall x: nat :: Rotation(cb, lgK, c, w)(x) == SlidingKey(x, w, cb.permutations[phase]))
      && (forall y: nat :: RotationBack(cb, lgK, c, w)(y) == SlidingBack(y, w, cb.inverses[phase]))
    ensures Inverts(t, Rotation(cb, lgK, c, w), RotationBack(cb, lgK, c, w))
  {
    var phase := PseudoPhase(lgK, c);
    forall x | x in t ensures RotationBack(cb, lgK, c, w)(Rotation(cb, lgK, c, w)(x)) == x {
      SlidingInverse(x, w, cb.permutations[phase], cb.inverses[phase]);
    }
  }

  lemma RotationRange(cb: Codebook, lgK: nat, c: nat, w: nat, t: set<nat>)
    requires GoodBook(cb) && 4 <= lgK <= 26 && w <= 56 && PseudoPhase(lgK, c) < 16
    requires forall x :: x in t ==> OutsideWindow(x, w) && x < 64 * Pow2(lgK)
    ensures forall y :: y in Image(t, Rotation(cb, lgK, c, w)) ==> y < 64 * Pow2(lgK)
  {
    hide GoodTable, Decodes, GoodByteCode, InversePermutations, PseudoPhase, Pow2, Rotation, GoodBook, OutsideWindow;
    forall y | y in Image(t, Rotation(cb, lgK, c, w)) ensures y < 64 * Pow2(lgK) {
      var x :| x in t && y == Rotation(cb, lgK, c, w)(x);
      RotatedBound(cb, lgK, c, w, x);
    }
  }

  lemma RotatedBound(cb: Codebook, lgK: nat, c: nat, w: nat, x: nat)
    requires GoodBook(cb) && 4 <= lgK <= 26 && w <= 56 && PseudoPhase(lgK, c) < 16 && OutsideWindow(x, w) && x < 64 * Pow2(lgK)
    ensures Rotation(cb, lgK, c, w)(x) < 64 * Pow2(lgK)
  {
    hide GoodTable, Decodes, GoodByteCode, InversePermutations, PseudoPhase, Pow2;
    var phase := PseudoPhase(lgK, c);
    SlidingInverse(x, w, cb.permutations[phase], cb.inverses[phase]);
  }

  // ---------- decompression ----------

  method UncompressTable(cb: Codebook, st: CompressedState, lgK: nat, ghost s: set<nat>) returns (pairs: seq<nat>)
    requires GoodBook(cb) && lgK <= 26 && TableHolds(cb, lgK, st, s)
    ensures Elems(pairs) == s && Unique(pairs) && |pairs| == st.tableNumEntries
  {
    hide GoodTable, Decodes, GoodByteCode, InversePermutations, Elems, Pow2;
    ghost var stored: seq<nat> :|
      PairsIn(cb, lgK, stored, st.tableData, st.tableDataWords) && Elems(stored) == s && |stored| == st.tableNumEntries;
    pairs := UncompressSurprisingValues(cb, st.tableData, st.tableDataWords, st.tableNumEntries, lgK, stored);
  }

  ghost predicate TableFits(lgK: nat, t: set<nat>) {
    && EMPTY !in t && (forall x :: x in t ==> x < 64 * Pow2(lgK))
    && UPSIZE_DENOM * |t| <= TableLimit(lgK)
  }

  /** The table of the given distinct pairs. */
  method TableFrom(pairs: seq<nat>, lgK: nat, ghost t: set<nat>) returns (table: U32Table)
    requires 4 <= lgK <= 26 && Unique(pairs) && Elems(pairs) == t && TableFits(lgK, t)
    ensures fresh(table) && table.Valid() && table.validBits == 6 + lgK && table.Contents() == t
  {
    hide Pow2, Items, NoGap, Distinct;
    UniqueCount(pairs);
    CouponBound(lgK);
    assert forall i :: 0 <= i < |pairs| ==> pairs[i] in t;
    table := MakeFromPairs(pairs, lgK);
  }

  /** Sorts the pairs of a hybrid sketch into window and table again. */
  method SplitPairs(pairs: seq<nat>, lgK: nat, ghost s: set<nat>) returns (window: seq<nat>, truePairs: seq<nat>)
    requires 4 <= lgK <= 26 && Unique(pairs) && Elems(pairs) == s && EMPTY !in s && forall x :: x in s ==> x < 64 * Pow2(lgK)
    ensures Unique(truePairs) && Elems(truePairs) <= s
    ensures Halves(Elems(truePairs), window, Pow2(lgK), s)
  {
    hide Pow2, Halves, WithBit, Elems, Unique;
    var k := Pow2(lgK);
    window := seq(k, _ => 0);
    truePairs := [];
    BlankWindow(k);
    NoElems(pairs[..0]);
    NoElems(truePairs);
    NoneTwice();
    ElemsIn(pairs, s);
    for i := 0 to |pairs|
      invariant Unique(truePairs) && Elems(truePairs) <= Elems(pairs[..i])
      invariant Halves(Elems(truePairs), window, k, Elems(pairs[..i]))
    {
      ElemsSnoc(pairs, i);
      FreshPair(pairs, i);
      var rowCol := pairs[i];
      assert rowCol in s; // so the guard at cpc_compressor_impl.hpp:248 never fires
      assert rowCol != EMPTY;
      if rowCol % 64 < 8 {
        HalvesWindow(Elems(truePairs), window, k, Elems(pairs[..i]), rowCol);
        window := WithBit(window, rowCol / 64, rowCol % 64);
      } else {
        HalvesTable(Elems(truePairs), window, k, Elems(pairs[..i]), rowCol);
        AppendUnique(truePairs, rowCol);
        truePairs := truePairs + [rowCol];
      }
    }
    assert pairs[..|pairs|] == pairs;
  }

  lemma NoneTwice()
    ensures Unique([])
  {}

  lemma FreshPair(pairs: seq<nat>, i: nat)
    requires i < |pairs| && Unique(pairs)
    ensures pairs[i] !in Elems(pairs[..i])
  {}

  lemma AppendUnique(s: seq<nat>, x: nat)
    requires Unique(s) && x !in Elems(s)
    ensures Unique(s + [x]) && Elems(s + [x]) == Elems(s) + {x}
  {}

  /** A split at offset zero is determined by the coupons. */
  lemma HalvesUnique(t: set<nat>, window: seq<nat>, t': set<nat>, window': seq<nat>, k: nat, s: set<nat>)
    requires k > 0 && Halves(t, window, k, s) && Halves(t', window', k, s)
    requires forall x :: x in t + t' ==> x < 64 * k
    ensures t == t' && window == window'
  {
    forall x | x in t + t' ensures x in t <==> x in t' {
      assert x in s <==> HasBit(t, window, 0, x);
      assert x in s <==> HasBit(t', window', 0, x);
    }
    forall i | 0 <= i < k ensures window[i] == window'[i] {
      forall c: nat ensures Bit(window[i], c) == Bit(window'[i], c) {
        if c < 8 {
          var x := 64 * i + c;
          assert x / 64 == i && x % 64 == c;
          assert x in s <==> HasBit(t, window, 0, x);
          assert x in s <==> HasBit(t', window', 0, x);
        } else {
          Pow2Values();
          BitAbove(window[i], 8, c);
          BitAbove(window'[i], 8, c);
        }
      }
      BitExt(window[i], window'[i]);
    }
  }

  method UncompressHybridFlavor(cb: Codebook, st: CompressedState, lgK: nat, ghost t: set<nat>, ghost window: seq<nat>)
    returns (table: U32Table, newWindow: seq<nat>)
    requires GoodBook(cb) && 4 <= lgK <= 26 && TableFits(lgK, t)
    requires Halves(t, window, Pow2(lgK), CouponsOf(t, window, 0, Pow2(lgK))) && EMPTY !in CouponsOf(t, window, 0, Pow2(lgK))
    requires TableHolds(cb, lgK, st, CouponsOf(t, window, 0, Pow2(lgK)))
    ensures fresh(table) && table.Valid() && table.validBits == 6 + lgK && table.Contents() == t && newWindow == window
  {
    hide GoodBook, Pow2, Halves, CouponsOf, TableHolds, Elems, Unique, Items, NoGap, Distinct;
    ghost var s := CouponsOf(t, window, 0, Pow2(lgK));
    var pairs := UncompressTable(cb, st, lgK, s);
    CouponsInRange(t, window, 0, Pow2(lgK));
    var truePairs;
    newWindow, truePairs := SplitPairs(pairs, lgK, s);
    HalvesUnique(t, window, Elems(truePairs), newWindow, Pow2(lgK), s);
    table := TableFrom(truePairs, lgK, t);
  }

  /** Undoes a column transformation on the decoded pairs. */
  method UncompressPinnedTable(cb: Codebook, st: CompressedState, lgK: nat, ghost t: set<nat>) returns (table: U32Table)
    requires GoodBook(cb) && 4 <= lgK <= 26 && TableFits(lgK, t) && TableHolds(cb, lgK, st, Image(t, PinnedMap()))
    requires forall x :: x in t ==> 8 <= x % 64
    ensures fresh(table) && table.Valid() && table.validBits == 6 + lgK && table.Contents() == t
  {
    hide GoodBook, Pow2, Elems, Unique, TableHolds, Items, NoGap, Distinct;
    var pairs := UncompressTable(cb, st, lgK, Image(t, PinnedMap()));
    ElemsIn(pairs, Image(t, PinnedMap()));
    PinnedColumns(t);
    var restored: seq<nat> := [];
    for i := 0 to |pairs|
      invariant |restored| == i && forall j :: 0 <= j < i ==> restored[j] == pairs[j] + 8
    {
      assert pairs[i] in Image(t, PinnedMap()) && pairs[i] % 64 < 56; // the guard at cpc_compressor_impl.hpp:294 never fires
      restored := restored + [pairs[i] + 8];
    }
    PinnedInverts(t);
    UnmapPairs(pairs, restored, t, PinnedMap(), y => y + 8);
    table := TableFrom(restored, lgK, t);
  }

  method UncompressSlidingTable(cb: Codebook, st: CompressedState, lgK: nat, c: nat, ghost t: set<nat>) returns (table: U32Table)
    requires GoodBook(cb) && 4 <= lgK <= 26 && TableFits(lgK, t)
    requires var w := CorrectOffset(Pow2(lgK), c);
      && w <= 56 && PseudoPhase(lgK, c) < 16 && TableHolds(cb, lgK, st, Image(t, Rotation(cb, lgK, c, w)))
      && forall x :: x in t ==> OutsideWindow(x, w)
    ensures fresh(table) && table.Valid() && table.validBits == 6 + lgK && table.Contents() == t
  {
    hide Pow2, Elems, Unique, TableHolds, Items, NoGap, Distinct, SlidingBack, PseudoPhase, Rotation, RotationBack,
         GoodTable, Decodes, GoodByteCode, InversePermutations, Image, CorrectOffset;
    var offset := CorrectOffset(Pow2(lgK), c);
    var phase := PseudoPhase(lgK, c);
    assert phase < 16 && offset <= 56; // the guards at cpc_compressor_impl.hpp:347 and 351 never fire
    ghost var f, g := Rotation(cb, lgK, c, offset), RotationBack(cb, lgK, c, offset);
    var pairs := UncompressTable(cb, st, lgK, Image(t, f));
    RotationIs(cb, lgK, c, offset, t);
    var restored: seq<nat> := [];
    for i := 0 to |pairs|
      invariant |restored| == i && forall j :: 0 <= j < i ==> restored[j] == SlidingBack(pairs[j], offset, cb.inverses[phase])
    {
      restored := restored + [SlidingBack(pairs[i], offset, cb.inverses[phase])];
    }
    UnmapPairs(pairs, restored, t, f, g);
    table := TableFrom(restored, lgK, t);
  }

  // ---------- whole sketches ----------

  /** Overruns: so many words are written to a buffer of less room. */
  datatype CompressResult = Compressed(state: CompressedState) | Throws | Overruns(words: nat, room: nat)

  /** Compresses a sketch of any flavor; it throws exactly when the phase of a sliding sketch with
    * surprises has no column permutation. */
  method Compress(cb: Codebook, sketch: CpcSketch) returns (r: CompressResult)
    requires GoodBook(cb) && sketch.Valid()
    ensures r.Throws? <==> !Compressible(sketch.lgK, sketch.numCoupons, sketch.table.Contents())
    ensures |cb.columnCode| == 65 && (r.Overruns? <==> (Compressible(sketch.lgK, sketch.numCoupons, sketch.table.Contents())
                                        && !BufferHolds(cb, sketch.lgK, sketch.numCoupons, sketch.table.Contents(), sketch.offset)))
    ensures r.Overruns? ==>
      && r.words > r.room
      && Written(cb.columnCode, sketch.lgK, Image(sketch.table.Contents(), Rotation(cb, sketch.lgK, sketch.numCoupons, sketch.offset)), r.words, r.room)
    ensures r.Compressed? ==>
      Holds(cb, sketch.lgK, sketch.numCoupons, sketch.table.Contents(), sketch.window, sketch.offset, r.state)
  {
    hide GoodBook, Pow2, CouponsOf, TableHolds, BytesIn, PseudoPhase, Stored, Items, NoGap, Distinct, SetFits, Written;
    BookCode(cb);
    match DetermineFlavor(Pow2(sketch.lgK), sketch.numCoupons)
    case Empty =>
      EmptySketch(sketch.lgK, sketch.table.Contents(), sketch.window, sketch.offset, sketch.first);
      r := Compressed(CompressedState([], 0, 0, [], 0));
    case Sparse =>
      var st := CompressSparseFlavor(cb, sketch);
      r := Compressed(st);
    case Hybrid =>
      var st := CompressHybridFlavor(cb, sketch);
      r := Compressed(st);
    case Pinned =>
      var st := CompressPinnedFlavor(cb, sketch);
      r := Compressed(st);
    case Sliding =>
      r := CompressSlidingFlavor(cb, sketch);
  }

  lemma EmptySketch(lgK: nat, t: set<nat>, window: seq<nat>, w: nat, first: nat)
    requires Sound(lgK, 0, t, window, w, first)
    ensures t == {} && window == []
  {}

  /** Decompression gives back the window and the table's set of items. */
  method Uncompress(cb: Codebook, st: CompressedState, lgK: nat, numCoupons: nat,
                    ghost t: set<nat>, ghost window: seq<nat>, ghost w: nat, ghost first: nat)
    returns (table: U32Table, newWindow: seq<nat>)
    requires GoodBook(cb) && Sound(lgK, numCoupons, t, window, w, first) && TableFits(lgK, t)
    requires Compressible(lgK, numCoupons, t) && Holds(cb, lgK, numCoupons, t, window, w, st)
    ensures fresh(table) && table.Valid() && table.validBits == 6 + lgK
    ensures table.Contents() == t && newWindow == window
  {
    hide GoodBook, Pow2, CouponsOf, TableHolds, BytesIn, PseudoPhase, Items, NoGap, Distinct, Rotation, Image, Elems, Unique,
         CorrectOffset;
    match DetermineFlavor(Pow2(lgK), numCoupons)
    case Empty =>
      EmptySketch(lgK, t, window, w, first);
      table := new U32Table(2, 6 + lgK);
      newWindow := [];
    case Sparse =>
      var pairs := UncompressTable(cb, st, lgK, t);
      table := TableFrom(pairs, lgK, t);
      newWindow := [];
    case Hybrid =>
      SmallOffset(lgK, numCoupons, t, window, w, first);
      table, newWindow := UncompressHybridFlavor(cb, st, lgK, t, window);
    case Pinned =>
      SmallOffset(lgK, numCoupons, t, window, w, first);
      newWindow := UncompressSlidingWindow(cb, st.windowData, st.windowDataWords, lgK, numCoupons, window);
      if st.tableNumEntries == 0 {
        NoEntries(cb, lgK, st, t, PinnedMap());
        table := new U32Table(2, 6 + lgK);
      } else {
        table := UncompressPinnedTable(cb, st, lgK, t);
      }
    case Sliding =>
      newWindow := UncompressSlidingWindow(cb, st.windowData, st.windowDataWords, lgK, numCoupons, window);
      SoundOffset(lgK, numCoupons, t, window, w, first);
      if st.tableNumEntries == 0 {
        NoEntries(cb, lgK, st, t, Rotation(cb, lgK, numCoupons, w));
        table := new U32Table(2, 6 + lgK);
      } else {
        table := UncompressSlidingTable(cb, st, lgK, numCoupons, t);
      }
  }

  lemma NoEntries(cb: Codebook, lgK: nat, st: CompressedState, t: set<nat>, f: nat -> nat)
    requires GoodBook(cb) && st.tableNumEntries == 0 && (t != {} ==> TableHolds(cb, lgK, st, Image(t, f)))
    ensures t == {}
  {}

  /** Compressing and decompressing a sketch gives back its matrix, part by part. */
  method RoundTrip(cb: Codebook, sketch: CpcSketch) returns (copy: CpcSketch?)
    requires GoodBook(cb) && sketch.Valid()
    ensures |cb.columnCode| == 65 && (copy != null <==> (Compressible(sketch.lgK, sketch.numCoupons, sketch.table.Contents())
                                        && BufferHolds(cb, sketch.lgK, sketch.numCoupons, sketch.table.Contents(), sketch.offset)))
    ensures copy != null ==>
      && fresh(copy) && copy.Valid() && copy.lgK == sketch.lgK
      && copy.window == sketch.window && copy.table.Contents() == sketch.table.Contents()
      && copy.Coupons() == sketch.Coupons()
  {
    hide GoodBook, Pow2, CouponsOf, Holds, Items, NoGap, Distinct, Compressible, BufferHolds, CorrectOffset;
    var r := Compress(cb, sketch);
    if !r.Compressed? { return null; }
    ghost var t := sketch.table.Contents();
    FitsItself(sketch);
    SoundOffset(sketch.lgK, sketch.numCoupons, t, sketch.window, sketch.offset, sketch.first);
    var table, window := Uncompress(cb, r.state, sketch.lgK, sketch.numCoupons, t, sketch.window, sketch.offset, sketch.first);
    copy := new CpcSketch.FromParts(sketch.lgK, sketch.numCoupons, sketch.first, table, window);
  }

  lemma FitsItself(sketch: CpcSketch)
    requires sketch.Valid()
    ensures TableFits(sketch.lgK, sketch.table.Contents())
  {
    Pow2Mono(sketch.table.lgSize, MaxLg(6 + sketch.lgK));
  }
}
