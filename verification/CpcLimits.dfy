/** Two sketches that cannot be compressed, built coupon by coupon. */
module CpcLimits {
  import opened Words
  import opened Sets
  import opened U32Tables
  import opened CpcSpec
  import opened CpcSketches
  import opened CpcRuns
  import opened PrefixCodes
  import opened ByteCodecs
  import opened PairCodecs
  import opened PairLists
  import opened CpcCompressors
  import opened CpcFlavors

  lemma Powers()
    ensures Pow2(20) == 0x10_0000 && Pow2(23) == 0x80_0000
  {
    Pow2Add(16, 4);
    Pow2Add(20, 3);
    Pow2Values();
  }

  // ---------- a wrapped phase ----------

  /** With lgK = 20 and the coupons 0, 1, ..., 4294967 the phase of a sliding sketch wraps to 20. */
  method WrappedPhase(cb: Codebook) returns (sketch: CpcSketch, r: CompressResult)
    requires GoodBook(cb)
    ensures sketch.Valid() && sketch.lgK == 20 && sketch.numCoupons == 4294968 && sketch.table.Contents() != {}
    ensures r == Throws
  {
    hide GoodBook, Pow2, Elems, RoomThroughout, CpcSketch.Valid, CpcSketch.Coupons, PseudoPhase, BufferHolds, Holds, CorrectOffset;
    Powers();
    var coupons := seq(4294968, i => i);
    FirstNumbers(coupons);
    FewThroughout(20, coupons);
    var ok;
    sketch, ok := Replay(20, coupons);
    SomeSurprise(sketch);
    SlidingPhaseWraps();
    r := Compress(cb, sketch);
  }

  lemma FirstNumbers(coupons: seq<nat>)
    requires forall i :: 0 <= i < |coupons| ==> coupons[i] == i
    ensures |Elems(coupons)| == |coupons| && forall x: nat :: x in Elems(coupons) <==> x < |coupons|
  {
    UniqueCount(coupons);
    forall x: nat | x < |coupons| ensures x in Elems(coupons) { assert coupons[x] == x; }
  }

  lemma SomeSurprise(sketch: CpcSketch)
    requires sketch.Valid() && sketch.lgK == 20 && sketch.numCoupons == 4294968 && 9 in sketch.Coupons()
    ensures sketch.table.Contents() != {}
  {
    Powers();
    var k := Pow2(20);
    SketchFacts(sketch);
    OffsetBounds(k, 4294968, 1);
    hide Pow2, CouponsOf, U32Table.Valid, U32Table.Contents;
    SoundTable(20, sketch.numCoupons, sketch.table.Contents(), sketch.window, sketch.offset, sketch.first);
    assert 9 in Surprises(sketch.Coupons(), k, 1);
  }

  // ---------- a buffer that is too short ----------

  /** With lgK = 23 and the columns from 40 on full there are 45 K surprises: the product of their number
    * and 12 wraps, and the encoder writes over four million words behind the buffer, whatever the code. */
  method ShortBuffer(cb: Codebook) returns (sketch: CpcSketch, r: CompressResult)
    requires GoodBook(cb)
    ensures sketch.Valid() && sketch.lgK == 23 && sketch.Coupons() == LateColumns(Pow2(23), 40)
    ensures |sketch.table.Contents()| == 45 * Pow2(23)
    ensures r.Overruns? && r.room == 19398657 && r.words >= 23592961
  {
    hide GoodBook, Pow2, Elems, RoomThroughout, CpcSketch.Valid, CpcSketch.Coupons, LateColumns, BufferHolds, Compressible, Holds, CorrectOffset;
    Powers();
    var coupons := ListLateColumns(Pow2(23), 40);
    LateColumnsCount(Pow2(23), 40);
    FewThroughout(23, coupons);
    var ok;
    sketch, ok := Replay(23, coupons);
    BookCode(cb);
    TooManySurprises(cb, sketch);
    r := Compress(cb, sketch);
    if r.Overruns? { ManyWords(cb, sketch, r.words, r.room); }
  }

  lemma ManyWords(cb: Codebook, sketch: CpcSketch, words: nat, room: nat)
    requires GoodBook(cb) && sketch.Valid() && sketch.lgK == 23 && sketch.Coupons() == LateColumns(Pow2(23), 40)
    requires |sketch.table.Contents()| == 45 * Pow2(23) && |cb.columnCode| == 65
    requires Compressible(23, sketch.numCoupons, sketch.table.Contents())
    requires Written(cb.columnCode, 23, Image(sketch.table.Contents(), Rotation(cb, 23, sketch.numCoupons, sketch.offset)), words, room)
    ensures room == 19398657 && words >= 23592961
  {
    var c, t, w := sketch.numCoupons, sketch.table.Contents(), sketch.offset;
    Powers();
    LateColumnsCount(Pow2(23), 40);
    SketchFacts(sketch);
    SlidingRange(sketch);
    RotatedSize(cb, 23, c, w, t);
    BookCode(cb);
    hide *;
    var pairs := ListOf(Image(t, Rotation(cb, 23, c, w)), 64 * Pow2(23));
    WordsOfList(cb.columnCode, pairs, Image(t, Rotation(cb, 23, c, w)), words, room);
  }

  lemma WordsOfList(enc: seq<nat>, pairs: seq<nat>, s: set<nat>, words: nat, room: nat)
    requires |enc| == 65 && GoodTable(enc) && Increasing(pairs) && Elems(pairs) == s && |pairs| == 377487360
    requires Written(enc, 23, s, words, room)
    ensures room == 19398657 && words >= 23592961
  {
    hide PairWords, PairRoom, BaseBits, Increasing, Elems, GoodTable;
    ThisRoom();
    ManyBits(enc, pairs);
    assert words == PairWords(enc, BaseBits(23, |pairs|), pairs) && room == PairRoom(23, |pairs|);
  }

  lemma ManyBits(enc: seq<nat>, pairs: seq<nat>)
    requires |enc| == 65 && GoodTable(enc) && Increasing(pairs) && |pairs| == 377487360
    ensures PairWords(enc, 0, pairs) >= 23592961
  {
    hide EncodePairs, Increasing, GoodTable, DivideRoundingUp, AtLeastBits;
    EveryCodeword(enc);
    EncodePairsAtLeast(enc, 0, pairs, 0, 1);
    WordsFit(|EncodePairs(enc, 0, pairs, 0)| + 10, 23592960);
  }

  lemma ThisRoom()
    ensures BaseBits(23, 377487360) == 0 && PairRoom(23, 377487360) == 19398657
  {
    Powers();
    hide Pow2, Log2;
  }

  lemma TooManySurprises(cb: Codebook, sketch: CpcSketch)
    requires GoodBook(cb) && sketch.Valid() && sketch.lgK == 23 && sketch.Coupons() == LateColumns(Pow2(23), 40)
    ensures Compressible(sketch.lgK, sketch.numCoupons, sketch.table.Contents())
    ensures |sketch.table.Contents()| == 45 * Pow2(23)
    ensures |cb.columnCode| == 65 && !BufferHolds(cb, sketch.lgK, sketch.numCoupons, sketch.table.Contents(), sketch.offset)
  {
    var k, c := Pow2(23), sketch.numCoupons;
    Powers();
    SketchFacts(sketch);
    LateColumnsCount(k, 40);
    LateSurprises(k, 40, 21);
    OffsetBounds(k, c, 21);
    SteadyPhase();
    BookCode(cb);
    SlidingRange(sketch);
    SoundTable(23, c, sketch.table.Contents(), sketch.window, sketch.offset, sketch.first);
    hide Pow2, CouponsOf, U32Table.Valid, U32Table.Contents, GoodBook, LateColumns, PseudoPhase, Rotation, Image, SetFits, Surprises;
    TooLong(cb, 23, c, 21, sketch.table.Contents());
  }

  lemma SteadyPhase()
    ensures PseudoPhase(23, 201326592) < 16
  {
    Powers();
    hide Pow2;
    assert 1000 * 201326592 % U32 == 3758096384 && 2375 * 0x80_0000 % U32 == 2743074816;
  }

  /** Too many surprises for the 32-bit product, but not so many that short codewords could make up for it. */
  lemma TooLong(cb: Codebook, lgK: nat, c: nat, w: nat, t: set<nat>)
    requires GoodBook(cb) && 4 <= lgK <= 26 && w <= 56 && PseudoPhase(lgK, c) < 16 && |cb.columnCode| == 65
    requires forall x :: x in t ==> OutsideWindow(x, w) && x < 64 * Pow2(lgK)
    requires U32 <= 12 * |t| && 11 * |t| + Pow2(lgK) + 31 < U32
    ensures !SetFits(cb.columnCode, lgK, Image(t, Rotation(cb, lgK, c, w)))
  {
    BookCode(cb);
    RotatedSize(cb, lgK, c, w, t);
    hide Pow2, GoodBook, GoodTable, PseudoPhase, Rotation, Image, SetFits, OutsideWindow;
    TooManyPairs(cb.columnCode, lgK, Image(t, Rotation(cb, lgK, c, w)));
  }

  lemma TooManyPairs(enc: seq<nat>, lgK: nat, s: set<nat>)
    requires |enc| == 65 && GoodTable(enc) && lgK <= 26 && forall x :: x in s ==> x < 64 * Pow2(lgK)
    requires U32 <= 12 * |s| && 11 * |s| + Pow2(lgK) + 31 < U32
    ensures !SetFits(enc, lgK, s)
  {
    hide Pow2, GoodTable, SetFits, PairsFit, Increasing, Elems, AtLeastBits;
    var pairs := ListOf(s, 64 * Pow2(lgK));
    EveryCodeword(enc);
    ManyPairs(enc, lgK, pairs);
    OneListFits(enc, lgK, pairs, s);
  }

  lemma ListOf(s: set<nat>, n: nat) returns (pairs: seq<nat>)
    requires forall x :: x in s ==> x < n
    ensures Increasing(pairs) && Elems(pairs) == s && |pairs| == |s|
  {
    hide Elems, Unique, Increasing;
    pairs := IncreasingList(s, n);
    UniqueCount(pairs);
  }

  lemma ManyPairs(enc: seq<nat>, lgK: nat, pairs: seq<nat>)
    requires |enc| == 65 && GoodTable(enc) && lgK <= 26 && Increasing(pairs) && AtLeastBits(enc, 1)
    requires U32 <= 12 * |pairs| && 11 * |pairs| + Pow2(lgK) + 31 < U32
    ensures |pairs| > 0 && !PairsFit(enc, lgK, pairs)
  {
    hide Pow2, PairsFit, GoodTable, Increasing, AtLeastBits;
    ManyPairsDoNotFit(enc, lgK, pairs, 1);
  }

  lemma RotatedSize(cb: Codebook, lgK: nat, c: nat, w: nat, t: set<nat>)
    requires GoodBook(cb) && 4 <= lgK <= 26 && w <= 56 && PseudoPhase(lgK, c) < 16
    requires forall x :: x in t ==> OutsideWindow(x, w) && x < 64 * Pow2(lgK)
    ensures |Image(t, Rotation(cb, lgK, c, w))| == |t|
    ensures forall y :: y in Image(t, Rotation(cb, lgK, c, w)) ==> y < 64 * Pow2(lgK)
  {
    hide Pow2, GoodBook, PseudoPhase, Rotation, RotationBack, Image, OutsideWindow, SlidingKey, SlidingBack;
    RotationIs(cb, lgK, c, w, t);
    ImageCount(t, Rotation(cb, lgK, c, w), RotationBack(cb, lgK, c, w));
    RotationRange(cb, lgK, c, w, t);
  }

  lemma EveryCodeword(enc: seq<nat>)
    requires GoodTable(enc)
    ensures AtLeastBits(enc, 1)
  {}

  lemma ImageCount(t: set<nat>, f: nat -> nat, g: nat -> nat)
    requires Inverts(t, f, g)
    ensures |Image(t, f)| == |t|
  {
    ImageSize(t, f);
    ImageSize(Image(t, f), g);
    forall x | x in t ensures x in Image(Image(t, f), g) { assert f(x) in Image(t, f); }
    assert Image(Image(t, f), g) == t;
  }

  lemma {:induction false} IncreasingList(s: set<nat>, n: nat) returns (pairs: seq<nat>)
    requires forall x :: x in s ==> x < n
    ensures Increasing(pairs) && Elems(pairs) == s && Unique(pairs)
  {
    if n == 0 {
      pairs := [];
    } else if n - 1 in s {
      var front := IncreasingList(s - {n - 1}, n - 1);
      assert forall i :: 0 <= i < |front| ==> front[i] in s - {n - 1};
      pairs := front + [n - 1];
      assert Elems(pairs) == Elems(front) + {n - 1};
    } else {
      pairs := IncreasingList(s, n - 1);
    }
  }
}
