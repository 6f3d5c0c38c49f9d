/** Unions over whole sequences of sketches (cpc/include/cpc_union_impl.hpp:103-171): what they hold, when they
  * succeed, and that neither order nor repetition matters.
  */
module CpcUnionRuns {
  import opened Words
  import opened Sets
  import opened U32Tables
  import opened CpcSpec
  import opened CpcSketches
  import opened CpcRuns
  import opened CpcUnionSpec
  import opened CpcUnions

  /** A sketch as the union reads it: a source, whether it is sparse, and the slots of its table. */
  datatype Input = Input(source: Source, sparse: bool, slots: seq<nat>)

  /** The sketches are valid and are the inputs. */
  ghost predicate Stand(sketches: seq<CpcSketch>, inputs: seq<Input>)
    reads sketches, set x | x in sketches :: x.table
  {
    |sketches| == |inputs| && forall i :: 0 <= i < |sketches| ==>
      sketches[i].Valid() && IsInput(sketches[i], inputs[i])
  }

  ghost predicate IsInput(sketch: CpcSketch, x: Input)
    reads sketch, sketch.table
  {
    x == Input(Source(sketch.lgK, sketch.Coupons()), |sketch.window| == 0, sketch.table.slots)
  }

  lemma StandAt(sketches: seq<CpcSketch>, inputs: seq<Input>, i: nat)
    requires Stand(sketches, inputs) && i < |sketches|
    ensures sketches[i].Valid() && i < |inputs| && IsInput(sketches[i], inputs[i])
  {}

  ghost function SourceSet(inputs: seq<Input>): (r: set<Source>) {
    set x | x in inputs :: x.source
  }

  lemma SourceSetNext(inputs: seq<Input>, i: nat)
    requires i < |inputs|
    ensures SourceSet(inputs[..i + 1]) == SourceSet(inputs[..i]) + {inputs[i].source}
  {
    assert inputs[..i + 1] == inputs[..i] + [inputs[i]];
  }

  /** K and coupons of a union. */
  datatype UnionState = UnionState(lgK: nat, coupons: set<nat>)

  ghost function After(lgK: nat, inputs: seq<Input>): (st: UnionState) {
    if inputs == [] then UnionState(lgK, {})
    else
      var before, src := After(lgK, inputs[..|inputs| - 1]), inputs[|inputs| - 1].source;
      if src.coupons == {} then before
      else
        var m := Min(before.lgK, src.lgK);
        UnionState(m, Fold(before.coupons, Pow2(m)) + Fold(src.coupons, Pow2(m)))
  }

  lemma AfterNext(lgK: nat, inputs: seq<Input>, i: nat)
    requires i < |inputs|
    ensures var before, src := After(lgK, inputs[..i]), inputs[i].source;
            var m := Min(before.lgK, src.lgK);
            After(lgK, inputs[..i + 1]) == if src.coupons == {} then before
              else UnionState(m, Fold(before.coupons, Pow2(m)) + Fold(src.coupons, Pow2(m)))
  {
    assert inputs[..i + 1][..i] == inputs[..i];
  }

  /** A union of so many coupons, kept in a table of the given slots while it is sparse, has room for
    * the walks that merging a sketch takes. */
  ghost predicate RoomToTake(st: UnionState, layout: seq<nat>, x: Input) {
    var m := Min(st.lgK, x.source.lgK);
    var s := Fold(st.coupons, Pow2(m));
    x.source.coupons != {} && 32 * |st.coupons| < 3 * Pow2(st.lgK) ==>
      && (m < st.lgK && st.coupons != {} ==> WalkFits(m, {}, layout))
      && (x.sparse && 32 * |s| < 3 * Pow2(m) ==> (s == {} && m == x.source.lgK) || WalkFits(m, s, x.slots))
  }

  /** There is room for each of the first n sketches after those before it. */
  ghost predicate RoomBefore(lgK: nat, inputs: seq<Input>, layouts: seq<seq<nat>>, n: nat)
    requires n <= |inputs| && n <= |layouts|
  {
    forall i :: 0 <= i < n ==> RoomToTake(After(lgK, inputs[..i]), layouts[i], inputs[i])
  }

  lemma RoomNext(lgK: nat, inputs: seq<Input>, layouts: seq<seq<nat>>, i: nat)
    requires i < |inputs| && i < |layouts|
    ensures RoomBefore(lgK, inputs, layouts, i + 1) <==>
            (RoomBefore(lgK, inputs, layouts, i) && RoomToTake(After(lgK, inputs[..i]), layouts[i], inputs[i]))
  {
    hide RoomToTake, After;
  }

  lemma RoomSame(lgK: nat, inputs: seq<Input>, a: seq<seq<nat>>, b: seq<seq<nat>>, n: nat)
    requires n <= |inputs| && n <= |a| && n <= |b| && forall i :: 0 <= i < n ==> a[i] == b[i]
    ensures RoomBefore(lgK, inputs, a, n) <==> RoomBefore(lgK, inputs, b, n)
  {
    hide RoomToTake, After;
    forall i | 0 <= i < n
      ensures RoomToTake(After(lgK, inputs[..i]), a[i], inputs[i]) <==> RoomToTake(After(lgK, inputs[..i]), b[i], inputs[i]) {}
  }

  /** ... for all of them, whatever the union's own table looks like. */
  ghost predicate RoomForAll(lgK: nat, inputs: seq<Input>) {
    RoomBefore(lgK, inputs, seq(|inputs|, _ => []), |inputs|)
  }

  /** No sketch has a smaller K than the union. */
  ghost predicate NoneSmaller(lgK: nat, inputs: seq<Input>) {
    forall i :: 0 <= i < |inputs| ==> lgK <= inputs[i].source.lgK
  }

  lemma {:induction false} SameK(lgK: nat, inputs: seq<Input>)
    requires NoneSmaller(lgK, inputs)
    ensures After(lgK, inputs).lgK == lgK
  {
    hide Fold;
    if inputs != [] { SameK(lgK, inputs[..|inputs| - 1]); }
  }

  /** Then the layouts play no part: K and coupons of the sketches decide, and the slots of sparse ones. */
  lemma LayoutsPlayNoPart(lgK: nat, inputs: seq<Input>, a: seq<seq<nat>>, b: seq<seq<nat>>, n: nat)
    requires NoneSmaller(lgK, inputs) && n <= |inputs| && n <= |a| && n <= |b|
    ensures RoomBefore(lgK, inputs, a, n) <==> RoomBefore(lgK, inputs, b, n)
  {
    hide WalkFits, Fold, After;
    forall i | 0 <= i < n
      ensures RoomToTake(After(lgK, inputs[..i]), a[i], inputs[i]) <==> RoomToTake(After(lgK, inputs[..i]), b[i], inputs[i])
    {
      SameK(lgK, inputs[..i]);
    }
  }

  /** The condition in terms of the union itself. */
  lemma RoomIs(union: CpcUnion, sketch: CpcSketch, layout: seq<nat>, x: Input)
    requires union.Valid() && sketch.Valid() && IsInput(sketch, x)
    requires union.accumulator != null ==> layout == union.accumulator.table.slots
    ensures sketch.Coupons() == {} || union.RoomToMerge(sketch) <==> RoomToTake(UnionState(union.lgK, union.Coupons()), layout, x)
  {
    hide Pow2, Fold, WalkFits, MatrixRows, Holding, Merges, CouponsOf, U32Table.Valid, U32Table.Contents;
    if union.accumulator != null {
      SparseCount(union.accumulator);
      EmptyOrNot(union.accumulator);
    }
  }

  ghost function CouponTotal(inputs: seq<Input>): (n: nat) {
    if inputs == [] then 0 else |inputs[0].source.coupons| + CouponTotal(inputs[1..])
  }

  /** Few coupons: together at most 25 per row of the smallest K. */
  ghost predicate Few(lgK: nat, inputs: seq<Input>, m: nat) {
    4 <= m <= lgK <= 24 && (forall i :: 0 <= i < |inputs| ==> m <= inputs[i].source.lgK) && CouponTotal(inputs) <= 25 * Pow2(m)
  }

  /** What the first i inputs leave room for. */
  ghost predicate StillFew(st: UnionState, inputs: seq<Input>, m: nat, i: nat) {
    4 <= m <= st.lgK <= 24 && i <= |inputs| && (forall j :: i <= j < |inputs| ==> m <= inputs[j].source.lgK)
    && |st.coupons| + CouponTotal(inputs[i..]) <= 25 * Pow2(m)
  }

  lemma MergedSize(a: set<nat>, b: set<nat>, k: nat)
    requires k > 0
    ensures |Fold(a, k) + Fold(b, k)| <= |a| + |b|
  {
    FoldSize(a, k);
    FoldSize(b, k);
  }

  /** Merging one more of few. */
  lemma FewNext(lgK: nat, inputs: seq<Input>, m: nat, i: nat)
    requires i < |inputs| && StillFew(After(lgK, inputs[..i]), inputs, m, i)
    ensures StillFew(After(lgK, inputs[..i + 1]), inputs, m, i + 1)
    ensures |After(lgK, inputs[..i]).coupons| + |inputs[i].source.coupons| <= 25 * Pow2(m) && m <= inputs[i].source.lgK
  {
    hide Pow2, Fold, After;
    assert inputs[i..][1..] == inputs[i + 1..];
    AfterNext(lgK, inputs, i);
    var st, src := After(lgK, inputs[..i]), inputs[i].source;
    MergedSize(st.coupons, src.coupons, Pow2(Min(st.lgK, src.lgK)));
  }

  /** A source and a union with few coupons always merge. */
  lemma FewToMerge(union: CpcUnion, sketch: CpcSketch, m: nat)
    requires union.Valid() && sketch.Valid() && 4 <= m <= union.lgK <= 24 && m <= sketch.lgK
    requires |union.Coupons()| + |sketch.Coupons()| <= 25 * Pow2(m)
    ensures union.RoomToMerge(sketch)
  {
    hide Pow2, Fold, WalkFits, MatrixRows, Holding, Merges, U32Table.Valid, CouponsOf;
    var lg := Min(union.lgK, sketch.lgK);
    Pow2Mono(m, lg);
    LeastK(lg);
    FoldSize(union.Coupons(), Pow2(lg));
    TableSlots(sketch.table);
    if union.accumulator != null {
      TableSlots(union.accumulator.table);
      SparseCoupons(union.accumulator);
      FewWalk(lg, {}, union.accumulator.table.slots);
      if |sketch.window| == 0 {
        SparseCoupons(sketch);
        FewWalk(lg, Fold(union.Coupons(), Pow2(lg)), sketch.table.slots);
      }
    }
  }

  /** A table of the given slots holds the coupons of a sparse union. */
  ghost predicate LaidOut(st: UnionState, layout: seq<nat>) {
    32 * |st.coupons| < 3 * Pow2(st.lgK) ==> Distinct(layout) && Items(layout) == st.coupons
  }

  /** layouts lists the slots of the union's table before each sketch. */
  ghost predicate LaidOutBefore(lgK: nat, inputs: seq<Input>, layouts: seq<seq<nat>>, n: nat)
    requires n <= |inputs| && n <= |layouts|
  {
    forall i :: 0 <= i < n ==> LaidOut(After(lgK, inputs[..i]), layouts[i])
  }

  /** Merges sketches of any lgK and flavor one after the other, up to the first, if any, for which there
    * is no room. The union then holds the OR of all sources, folded to the least lgK; few coupons always
    * merge. layouts are the slots of the union's table before each sketch that was taken or refused. */
  method MergeAll(lgK: nat, sketches: seq<CpcSketch>, ghost inputs: seq<Input>, ghost m: nat)
      returns (union: CpcUnion, ok: bool, ghost layouts: seq<seq<nat>>)
    requires 4 <= lgK <= 26 && Stand(sketches, inputs)
    ensures |layouts| <= |inputs| && LaidOutBefore(lgK, inputs, layouts, |layouts|)
    ensures ok ==> |layouts| == |inputs| && RoomBefore(lgK, inputs, layouts, |inputs|)
    ensures !ok ==> |layouts| > 0 && !RoomBefore(lgK, inputs, layouts, |layouts|)
    ensures NoneSmaller(lgK, inputs) ==> (ok <==> RoomForAll(lgK, inputs))
    ensures ok ==> fresh(union) && fresh(union.Footprint()) && union.Valid()
                   && After(lgK, inputs) == UnionState(union.lgK, union.Coupons())
                   && Merges(lgK, SourceSet(inputs), union.lgK, union.Coupons())
    ensures Few(lgK, inputs, m) ==> ok
  {
    hide Pow2, Fold, Merges, Stand, IsInput, StillFew, SourceSet, After, RoomBefore, LaidOut, RoomToTake, CpcUnion.Coupons, CpcUnion.Shape,
         CpcUnion.RoomToMerge, CpcSketch.Valid, CpcSketch.Coupons;
    union := new CpcUnion(lgK);
    layouts := [];
    ghost var few := Few(lgK, inputs, m);
    StandSize(sketches, inputs);
    NothingMerged(lgK, inputs);
    if few { FewStart(lgK, inputs, m); }
    for i := 0 to |sketches|
      invariant fresh(union) && fresh(union.Footprint()) && union.Valid() && union.initialLgK == lgK
      invariant Stand(sketches, inputs) && union.sources == SourceSet(inputs[..i])
      invariant After(lgK, inputs[..i]) == UnionState(union.lgK, union.Coupons())
      invariant |layouts| == i && LaidOutBefore(lgK, inputs, layouts, i) && RoomBefore(lgK, inputs, layouts, i)
      invariant few ==> StillFew(After(lgK, inputs[..i]), inputs, m, i)
    {
      StandAt(sketches, inputs, i);
      ghost var layout := LayoutOf(union);
      TakeNext(lgK, inputs, layouts, i, union, sketches[i], layout);
      layouts := layouts + [layout];
      if few { FewFits(lgK, inputs, m, i, union, sketches[i]); }
      ok := union.Update(sketches[i]);
      if !ok {
        Refused(lgK, inputs, layouts, i);
        return;
      }
    }
    assert inputs[..|inputs|] == inputs;
    ok := true;
    if NoneSmaller(lgK, inputs) { LayoutsPlayNoPart(lgK, inputs, layouts, seq(|inputs|, _ => []), |inputs|); }
  }

  lemma StandSize(sketches: seq<CpcSketch>, inputs: seq<Input>)
    requires Stand(sketches, inputs)
    ensures |sketches| == |inputs|
  {}

  lemma NothingMerged(lgK: nat, inputs: seq<Input>)
    ensures SourceSet(inputs[..0]) == {} && After(lgK, inputs[..0]) == UnionState(lgK, {}) && RoomBefore(lgK, inputs, [], 0)
  {}

  lemma FewStart(lgK: nat, inputs: seq<Input>, m: nat)
    requires Few(lgK, inputs, m)
    ensures StillFew(After(lgK, inputs[..0]), inputs, m, 0)
  {
    assert inputs[0..] == inputs;
  }

  lemma FewFits(lgK: nat, inputs: seq<Input>, m: nat, i: nat, union: CpcUnion, sketch: CpcSketch)
    requires union.Valid() && sketch.Valid() && i < |inputs| && IsInput(sketch, inputs[i])
    requires After(lgK, inputs[..i]) == UnionState(union.lgK, union.Coupons()) && StillFew(After(lgK, inputs[..i]), inputs, m, i)
    ensures union.RoomToMerge(sketch) && StillFew(After(lgK, inputs[..i + 1]), inputs, m, i + 1)
  {
    hide Pow2, After, CpcUnion.Coupons, CpcUnion.Valid, CpcUnion.RoomToMerge, CpcSketch.Valid, CpcSketch.Coupons;
    FewNext(lgK, inputs, m, i);
    FewToMerge(union, sketch, m);
  }

  ghost function LayoutOf(union: CpcUnion): (layout: seq<nat>)
    reads union, union.Footprint()
  {
    if union.accumulator == null then [] else union.accumulator.table.slots
  }

  /** One more sketch: what it needs and what it leaves. */
  lemma TakeNext(lgK: nat, inputs: seq<Input>, layouts: seq<seq<nat>>, i: nat, union: CpcUnion, sketch: CpcSketch, layout: seq<nat>)
    requires union.Valid() && sketch.Valid() && i < |inputs| && IsInput(sketch, inputs[i]) && layout == LayoutOf(union)
    requires After(lgK, inputs[..i]) == UnionState(union.lgK, union.Coupons())
    requires |layouts| == i && LaidOutBefore(lgK, inputs, layouts, i) && RoomBefore(lgK, inputs, layouts, i)
    ensures LaidOutBefore(lgK, inputs, layouts + [layout], i + 1)
    ensures RoomBefore(lgK, inputs, layouts + [layout], i + 1) <==> (sketch.Coupons() == {} || union.RoomToMerge(sketch))
    ensures SourceSet(inputs[..i + 1]) == SourceSet(inputs[..i]) + {Source(sketch.lgK, sketch.Coupons())}
    ensures var m := Min(union.lgK, sketch.lgK);
            After(lgK, inputs[..i + 1]) == if sketch.Coupons() == {} then UnionState(union.lgK, union.Coupons())
              else UnionState(m, Fold(union.Coupons(), Pow2(m)) + Fold(sketch.Coupons(), Pow2(m)))
  {
    hide Pow2, Fold, After, RoomBefore, RoomToTake, SourceSet, LaidOut, CpcUnion.RoomToMerge, CpcSketch.Valid, CpcSketch.Coupons, CpcUnion.Valid, CpcUnion.Coupons;
    SourceSetNext(inputs, i);
    AfterNext(lgK, inputs, i);
    RoomSame(lgK, inputs, layouts, layouts + [layout], i);
    RoomNext(lgK, inputs, layouts + [layout], i);
    RoomIs(union, sketch, layout, inputs[i]);
    LayoutIs(union, layout);
  }

  lemma LayoutIs(union: CpcUnion, layout: seq<nat>)
    requires union.Valid() && layout == LayoutOf(union)
    ensures LaidOut(UnionState(union.lgK, union.Coupons()), layout)
  {
    if union.accumulator != null { SparseCoupons(union.accumulator); TableSlots(union.accumulator.table); }
    hide Pow2, MatrixRows, Holding, Merges, CouponsOf, Items, NoGap;
  }

  /** A refusal is final, whatever the layouts would have been later. */
  lemma Refused(lgK: nat, inputs: seq<Input>, layouts: seq<seq<nat>>, i: nat)
    requires i < |inputs| && |layouts| == i + 1 && !RoomBefore(lgK, inputs, layouts, i + 1)
    ensures NoneSmaller(lgK, inputs) ==> !RoomForAll(lgK, inputs)
  {
    hide RoomToTake, After;
    if NoneSmaller(lgK, inputs) { LayoutsPlayNoPart(lgK, inputs, layouts, seq(|inputs|, _ => []), i + 1); }
  }

  /** Two sequences with the same sources, in any order and with any repetitions, give the same union. */
  method MergeTwice(lgK: nat, a: seq<CpcSketch>, ghost fromA: seq<Input>, b: seq<CpcSketch>, ghost fromB: seq<Input>)
      returns (u: CpcUnion, v: CpcUnion, ok: bool)
    requires 4 <= lgK <= 26 && Stand(a, fromA) && Stand(b, fromB) && SourceSet(fromA) == SourceSet(fromB)
    ensures ok ==> u.Valid() && v.Valid() && u.lgK == v.lgK && u.Coupons() == v.Coupons()
    ensures (exists m :: Few(lgK, fromA, m)) && (exists m :: Few(lgK, fromB, m)) ==> ok
    ensures NoneSmaller(lgK, fromA) && NoneSmaller(lgK, fromB) ==> (ok <==> RoomForAll(lgK, fromA) && RoomForAll(lgK, fromB))
  {
    hide Merges, Stand, Few, After, RoomBefore, RoomForAll, NoneSmaller, LaidOutBefore, CpcUnion.Coupons, CpcUnion.Valid, SourceSet;
    ghost var m: nat, n: nat := 0, 0;
    if exists x :: Few(lgK, fromA, x) { m :| Few(lgK, fromA, m); }
    if exists x :: Few(lgK, fromB, x) { n :| Few(lgK, fromB, n); }
    var first, second;
    ghost var layouts;
    u, first, layouts := MergeAll(lgK, a, fromA, m);
    ghost var s, lg := u.Coupons(), u.lgK;
    v, second, layouts := MergeAll(lgK, b, fromB, n);
    ok := first && second;
    if ok { MergesIsFunction(lgK, SourceSet(fromA), lg, s, v.lgK, v.Coupons()); }
  }

  // ---------- a merge that does not fit ----------

  /** A union of lgK = 4 refuses a sparse sketch of lgK = 13 that holds the coupons of the columns from 36
    * on of its first 16 rows. */
  method MergeWithoutRoom() returns (sketch: CpcSketch, ok: bool)
    ensures sketch.Valid() && sketch.lgK == 13 && |sketch.window| == 0 && sketch.Coupons() == LateColumns(16, 36)
    ensures !ok
  {
    hide Elems, RoomThroughout, LateColumns, CpcUnion.Valid, CpcUnion.Coupons, CpcUnion.RoomToMerge, CpcSketch.Valid, CpcSketch.Coupons;
    var coupons := ListLateColumns(16, 36);
    LateList(coupons);
    sketch, ok := Replay(13, coupons);
    StillSparse(sketch);
    var union := new CpcUnion(4);
    NoRoomToMerge(union, sketch);
    ok := union.Update(sketch);
  }

  lemma LateList(coupons: seq<nat>)
    requires Elems(coupons) == LateColumns(16, 36) && forall i :: 0 <= i < |coupons| ==> coupons[i] < 64 * 16
    ensures Pow2(13) == 8192 && RoomThroughout(13, coupons) && |Elems(coupons)| == 448
    ensures forall i :: 0 <= i < |coupons| ==> coupons[i] < 64 * Pow2(13) && coupons[i] != EMPTY
  {
    Pow2Values();
    Pow2Add(8, 5);
    LateColumnsCount(16, 36);
    hide Pow2, Elems, LateColumns, RoomThroughout;
    FewThroughout(13, coupons);
  }

  lemma StillSparse(sketch: CpcSketch)
    requires sketch.Valid() && 32 * sketch.numCoupons < 3 * Pow2(sketch.lgK)
    ensures |sketch.window| == 0
  {
    hide CouponsOf, U32Table.Valid, U32Table.Contents;
  }

  /** The walk ends with coupons that do not fit K = 16. */
  lemma WalkWithoutRoom(slots: seq<nat>, lgSize: nat)
    requires |slots| == Pow2(lgSize) >= 4 && Items(slots) == LateColumns(16, 36)
    ensures !WalkFits(4, {}, slots)
  {
    Pow2Values();
    RoomCanRunOut();
    hide Pow2, RoomFor, Fold, Walked, GoldenStride, Items, CorrectOffset;
    var stride := GoldenStride(|slots|);
    FoldIdentity(LateColumns(16, 36), 16);
    WalkedAll(slots, lgSize, stride, 16);
    assert {} + Walked(slots, stride, |slots|, Pow2(4)) == LateColumns(16, 36);
  }

  lemma NoRoomToMerge(union: CpcUnion, sketch: CpcSketch)
    requires union.Valid() && union.lgK == 4 && union.Coupons() == {}
    requires sketch.Valid() && sketch.lgK == 13 && |sketch.window| == 0 && sketch.Coupons() == LateColumns(16, 36)
    ensures !union.RoomToMerge(sketch) && sketch.Coupons() != {}
  {
    Pow2Values();
    LateColumnsCount(16, 36);
    SparseCoupons(sketch);
    TableSlots(sketch.table);
    hide Pow2, Fold, WalkFits, LateColumns, CouponsOf, Items, U32Table.Valid, MatrixRows, Holding, Merges;
    FoldNone({}, 16);
    WalkWithoutRoom(sketch.table.slots, sketch.table.lgSize);
  }
}
