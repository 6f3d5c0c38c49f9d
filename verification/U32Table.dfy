/** The linear-probing hash set of cpc/include/u32_table_impl.hpp.
  *
  * A slot holds an item or EMPTY. An item's home slot is given by its high bits, and the
  * table keeps every slot from an item's home up to the item itself occupied, so that a
  * search may stop at the first empty slot.
  */
module U32Tables {
  import opened Words
  import opened Sets
  import opened Probing

  const EMPTY: nat := 0xFFFF_FFFF
  const UPSIZE_NUMER: nat := 3
  const UPSIZE_DENOM: nat := 4
  const DOWNSIZE_NUMER: nat := 1
  const DOWNSIZE_DENOM: nat := 4

  // ---------- slots as a value ----------

  /** The items held by a sequence of slots. */
  ghost function Items(s: seq<nat>): (r: set<nat>) {
    set i | 0 <= i < |s| && s[i] != EMPTY :: s[i]
  }

  ghost predicate Distinct(s: seq<nat>) {
    forall i, j :: 0 <= i < j < |s| && s[i] != EMPTY ==> s[i] != s[j]
  }

  /** The slot at which a search for x starts; d slots' worth of item values share a home. */
  function Home(x: nat, d: nat): (h: nat)
    requires d > 0
  {
    x / d
  }

  /** No empty slot lies between the home of the item in slot i and slot i. */
  ghost predicate Reachable(s: seq<nat>, d: nat, i: nat)
    requires d > 0 && i < |s|
  {
    forall j :: 0 <= j < |s| && InArc(Home(s[i], d), j, i) ==> s[j] != EMPTY
  }

  ghost predicate NoGap(s: seq<nat>, d: nat)
    requires d > 0
  {
    forall i :: 0 <= i < |s| && s[i] != EMPTY ==> Reachable(s, d, i)
  }

  /** p is the first slot, from the home of x on, that is empty or holds x. */
  ghost predicate Found(s: seq<nat>, d: nat, x: nat, p: nat)
    requires d > 0
  {
    && p < |s|
    && (s[p] == x || s[p] == EMPTY)
    && forall j :: 0 <= j < |s| && InArc(Home(x, d), j, p) ==> s[j] != EMPTY && s[j] != x
  }

  lemma HomeInRange(x: nat, validBits: nat, lg: nat)
    requires x < Pow2(validBits) && lg <= validBits
    ensures Home(x, Pow2(validBits - lg)) < Pow2(lg)
  {
    var d := Pow2(validBits - lg);
    Pow2Add(lg, validBits - lg);
    DivModIdentity(x, d);
    hide Pow2;
    MulLess(d, x / d, Pow2(lg));
  }

  /** A search that ends at an empty slot has proved that the item is absent. */
  lemma FoundIsExact(s: seq<nat>, d: nat, x: nat, p: nat)
    requires d > 0 && x != EMPTY && Found(s, d, x, p) && NoGap(s, d) && Home(x, d) < |s|
    ensures x in Items(s) <==> s[p] == x
  {}

  lemma ItemsPut(s: seq<nat>, p: nat, x: nat)
    requires p < |s| && s[p] == EMPTY && x != EMPTY && x !in Items(s) && Distinct(s)
    ensures Items(s[p := x]) == Items(s) + {x}
    ensures Distinct(s[p := x])
    ensures |Items(s[p := x])| == |Items(s)| + 1
  {
    var t := s[p := x];
    assert t[p] == x;
    forall y | y in Items(s) ensures y in Items(t) {
      var i :| 0 <= i < |s| && s[i] == y && y != EMPTY;
      assert t[i] == y;
    }
    assert Items(t) == Items(s) + {x};
  }

  lemma ItemsErase(s: seq<nat>, p: nat)
    requires p < |s| && s[p] != EMPTY && Distinct(s)
    ensures Items(s[p := EMPTY]) == Items(s) - {s[p]}
    ensures Distinct(s[p := EMPTY])
    ensures |Items(s[p := EMPTY])| == |Items(s)| - 1
  {
    var t := s[p := EMPTY];
    forall y | y in Items(s) && y != s[p] ensures y in Items(t) {
      var i :| 0 <= i < |s| && s[i] == y && y != EMPTY;
      assert t[i] == y;
    }
    assert Items(t) == Items(s) - {s[p]};
  }

  lemma NoGapPut(s: seq<nat>, d: nat, p: nat, x: nat)
    requires d > 0 && x != EMPTY && Found(s, d, x, p) && s[p] == EMPTY && NoGap(s, d)
    ensures NoGap(s[p := x], d)
  {}

  lemma {:induction false} ItemsSnoc(s: seq<nat>, n: nat)
    requires n < |s|
    ensures Items(s[..n + 1]) == if s[n] == EMPTY then Items(s[..n]) else Items(s[..n]) + {s[n]}
  {}

  /** A prefix of slots without an empty one holds as many items as it has slots. */
  lemma {:induction false} FullPrefix(s: seq<nat>, n: nat)
    requires n <= |s| && Distinct(s) && forall i :: 0 <= i < n ==> s[i] != EMPTY
    ensures |Items(s[..n])| == n
  {
    if n > 0 {
      hide Items, Distinct;
      FullPrefix(s, n - 1);
      ItemsSnoc(s, n - 1);
      NotYetSeen(s, n - 1);
    } else {
      assert Items(s[..0]) == {};
    }
  }

  /** A table with fewer items than slots has an empty slot. */
  lemma EmptySlot(s: seq<nat>) returns (e: nat)
    requires Distinct(s) && |Items(s)| < |s|
    ensures e < |s| && s[e] == EMPTY
  {
    assert s[..|s|] == s;
    if forall i :: 0 <= i < |s| ==> s[i] != EMPTY {
      FullPrefix(s, |s|);
      assert false;
    }
    e :| 0 <= e < |s| && s[e] == EMPTY;
  }

  lemma FoundAbsent(s: seq<nat>, d: nat, x: nat, p: nat)
    requires d > 0 && x != EMPTY && Found(s, d, x, p) && x !in Items(s)
    ensures p < |s| && s[p] == EMPTY
  {}

  lemma NoItems(n: nat, d: nat)
    requires d > 0
    ensures var s := seq(n, _ => EMPTY); Items(s) == {} && Distinct(s) && NoGap(s, d)
  {}

  lemma NotYetSeen(s: seq<nat>, n: nat)
    requires n < |s| && Distinct(s) && s[n] != EMPTY
    ensures s[n] in Items(s) && s[n] !in Items(s[..n])
    ensures |Items(s[..n])| < |Items(s)|
  {
    assert s[n] in Items(s);
    forall y | y in Items(s[..n]) ensures y in Items(s) {
      var i :| 0 <= i < n && s[i] == y;
    }
    SubsetSize(Items(s[..n]) + {s[n]}, Items(s));
  }

  // ---------- deletion ----------

  /** The table while the cluster after the freed slot is being re-inserted: only items still
    * waiting on [probe, stop) may have gaps before them, and only on [hole, probe). */
  ghost predicate Repairing(s: seq<nat>, d: nat, hole: nat, probe: nat, stop: nat)
    requires d > 0
  {
    && hole < |s| && probe < |s| && stop < |s|
    && s[stop] == EMPTY
    && hole != stop && !InArc(probe, hole, stop)
    && (forall i :: 0 <= i < |s| && InArc(probe, i, stop) ==> s[i] != EMPTY)
    && (forall i :: 0 <= i < |s| && s[i] != EMPTY && !InArc(probe, i, stop) ==> Reachable(s, d, i))
    && (forall i, j ::
          (0 <= i < |s| && 0 <= j < |s| && InArc(probe, i, stop) && InArc(Home(s[i], d), j, i) && s[j] == EMPTY)
          ==> InArc(hole, j, probe))
  }

  /** Freeing slot p opens the repair, with the next empty slot as its end. */
  lemma RepairStart(s: seq<nat>, d: nat, p: nat, stop: nat)
    requires d > 0 && NoGap(s, d) && p < |s| && s[p] != EMPTY && stop < |s| && s[stop] == EMPTY
    requires forall j :: 0 <= j < |s| && InArc(p, j, stop) ==> s[j] != EMPTY
    ensures Repairing(s[p := EMPTY], d, p, Next(p, |s|), stop)
  {}

  /** Re-inserting the item under the probe moves the repair on by one slot. */
  lemma RepairStep(s: seq<nat>, d: nat, hole: nat, probe: nat, stop: nat, p: nat)
    requires d > 0 && Repairing(s, d, hole, probe, stop) && probe != stop
    requires Found(s[probe := EMPTY], d, s[probe], p) && s[probe := EMPTY][p] == EMPTY
    requires Home(s[probe], d) < |s|
    ensures Repairing(s[probe := EMPTY][p := s[probe]], d, hole, Next(probe, |s|), stop)
  {
    var x, n := s[probe], |s|;
    var u := s[probe := EMPTY];
    var t := u[p := x];
    var next := Next(probe, n);
    assert InArc(hole, p, next) by {
      assert !InArc(Home(x, d), probe, p);
      if p != probe { assert InArc(Home(x, d), p, probe) && s[p] == EMPTY; }
    }
    forall i | 0 <= i < n && t[i] != EMPTY && !InArc(next, i, stop) ensures Reachable(t, d, i) {
      if i != p {
        assert Reachable(s, d, i);
        assert !InArc(Home(s[i], d), stop, i);
      }
    }
    forall i, j | 0 <= i < n && 0 <= j < n && InArc(next, i, stop) && InArc(Home(t[i], d), j, i) && t[j] == EMPTY
      ensures InArc(hole, j, next)
    {
      assert t[i] == s[i];
    }
  }

  /** The repair ends at the first empty slot, and then no item has a gap before it. */
  lemma RepairDone(s: seq<nat>, d: nat, hole: nat, probe: nat, stop: nat)
    requires d > 0 && Repairing(s, d, hole, probe, stop) && s[probe] == EMPTY
    ensures NoGap(s, d)
  {}

  lemma RepairGoesOn(s: seq<nat>, d: nat, hole: nat, probe: nat, stop: nat)
    requires d > 0 && Repairing(s, d, hole, probe, stop) && s[probe] != EMPTY
    ensures probe != stop && stop < |s|
  {}

  /** The first empty slot after p. */
  lemma NextEmpty(s: seq<nat>, p: nat, e: nat) returns (stop: nat)
    requires p < |s| && e < |s| && s[e] == EMPTY && s[p] != EMPTY
    ensures stop < |s| && s[stop] == EMPTY
    ensures forall j :: 0 <= j < |s| && InArc(p, j, stop) ==> s[j] != EMPTY
  {
    stop := Next(p, |s|);
    while s[stop] != EMPTY
      invariant stop < |s| && stop != p
      invariant forall j :: 0 <= j < |s| && InArc(p, j, stop) ==> s[j] != EMPTY
      decreases Dist(stop, e, |s|)
    {
      stop := Next(stop, |s|);
    }
  }

  // ---------- the table ----------

  /** The largest table the index arithmetic supports: the home slot takes its bits from the
    * item, and slot counts are computed as an int, which cannot hold 2^31. */
  function MaxLg(validBits: nat): nat {
    if validBits < 30 then validBits else 30
  }

  class U32Table {
    var lgSize: nat
    var validBits: nat
    var numItems: nat
    var slots: seq<nat>

    /** Everything but the bound on the number of items. */
    ghost predicate Shape()
      reads this
    {
      && 1 <= validBits <= 32
      && 2 <= lgSize <= MaxLg(validBits)
      && |slots| == Pow2(lgSize)
      && (forall i :: 0 <= i < |slots| && slots[i] != EMPTY ==> slots[i] < Pow2(validBits))
      && Distinct(slots)
    }

    function Divisor(): (d: nat)
      requires lgSize <= validBits
      reads this
      ensures d > 0
    {
      Pow2(validBits - lgSize)
    }

    ghost predicate Valid()
      reads this
    {
      && Shape()
      && NoGap(slots, Divisor())
      && numItems == |Items(slots)|
      && UPSIZE_DENOM * numItems <= UPSIZE_NUMER * |slots|
    }

    ghost function Contents(): set<nat>
      reads this
    {
      Items(slots)
    }

    constructor (lgSize: nat, validBits: nat)
      requires 1 <= validBits <= 32 && 2 <= lgSize <= MaxLg(validBits)
      ensures Valid() && Contents() == {} && this.validBits == validBits && this.lgSize == lgSize
    {
      this.lgSize := lgSize;
      this.validBits := validBits;
      numItems := 0;
      slots := seq(Pow2(lgSize), _ => EMPTY);
    }

    constructor Copy(other: U32Table)
      requires other.Valid()
      ensures Valid() && Contents() == other.Contents() && validBits == other.validBits
    {
      lgSize := other.lgSize;
      validBits := other.validBits;
      numItems := other.numItems;
      slots := other.slots;
    }

    method Clear()
      requires Valid()
      modifies this
      ensures Valid() && Contents() == {} && validBits == old(validBits)
    {
      slots := seq(|slots|, _ => EMPTY);
      numItems := 0;
    }

    method Lookup(item: nat) returns (probe: nat)
      requires Shape() && item < Pow2(validBits) && item != EMPTY
      requires exists e :: 0 <= e < |slots| && slots[e] == EMPTY
      ensures Found(slots, Divisor(), item, probe)
      ensures Home(item, Divisor()) < |slots|
    {
      HomeInRange(item, validBits, lgSize);
      ghost var home := Home(item, Divisor());
      ghost var e :| 0 <= e < |slots| && slots[e] == EMPTY;
      probe := item / Pow2(validBits - lgSize);
      while slots[probe] != item && slots[probe] != EMPTY
        invariant probe < |slots|
        invariant forall j :: 0 <= j < |slots| && InArc(home, j, probe) ==> slots[j] != EMPTY && slots[j] != item
        decreases Dist(probe, e, |slots|)
      {
        ghost var prev := probe;
        probe := (probe + 1) % |slots|;
        assert probe == Next(prev, |slots|);
      }
    }

    /** Counts and resizing are left to the caller. */
    method MustInsert(item: nat) returns (ghost p: nat)
      requires Shape() && item < Pow2(validBits) && item != EMPTY && item !in Contents()
      requires exists e :: 0 <= e < |slots| && slots[e] == EMPTY
      modifies this`slots
      ensures Shape()
      ensures Found(old(slots), Divisor(), item, p) && old(slots)[p] == EMPTY && slots == old(slots)[p := item]
      ensures Home(item, Divisor()) < |slots|
      ensures Contents() == old(Contents()) + {item} && |Contents()| == old(|Contents()|) + 1
    {
      hide Distinct, NoGap, Repairing, Found, Items;
      var index := Lookup(item);
      p := index;
      FoundAbsent(slots, Divisor(), item, index);
      ItemsPut(slots, index, item);
      slots := slots[index := item];
    }

    method Rebuild(newLgSize: nat)
      requires Shape() && NoGap(slots, Divisor()) && numItems == |Items(slots)|
      requires 2 <= newLgSize <= MaxLg(validBits) && UPSIZE_DENOM * numItems <= UPSIZE_NUMER * Pow2(newLgSize)
      modifies this
      ensures Valid() && Contents() == old(Contents()) && numItems == old(numItems) && validBits == old(validBits)
      ensures lgSize == newLgSize
    {
      hide Distinct, NoGap, Repairing, Found, Items;
      var oldSlots := slots;
      slots := seq(Pow2(newLgSize), _ => EMPTY);
      lgSize := newLgSize;
      NoItems(Pow2(newLgSize), Divisor());
      NoItems(0, 1);
      assert oldSlots[..0] == seq(0, _ => EMPTY);
      for i := 0 to |oldSlots|
        invariant numItems == old(numItems) && validBits == old(validBits) && lgSize == newLgSize
        invariant Shape() && NoGap(slots, Divisor())
        invariant Contents() == Items(oldSlots[..i])
      {
        ItemsSnoc(oldSlots, i);
        if oldSlots[i] != EMPTY {
          NotYetSeen(oldSlots, i);
          ghost var e := EmptySlot(slots);
          ghost var before := slots;
          ghost var p := MustInsert(oldSlots[i]);
          NoGapPut(before, Divisor(), p, oldSlots[i]);
        }
      }
      assert oldSlots[..|oldSlots|] == oldSlots;
    }

    /** Adds the item and reports whether it was new. The growth that follows is refused when it asks
      * for more slots than the index arithmetic supports; the table is then unusable. */
    method MaybeInsert(item: nat) returns (novel: bool, refused: bool)
      requires Valid() && item < Pow2(validBits) && item != EMPTY
      modifies this
      ensures refused <==> (item !in old(Contents())
                            && UPSIZE_DENOM * (old(numItems) + 1) > UPSIZE_NUMER * Pow2(MaxLg(validBits)))
      ensures (!refused ==> Valid()) && validBits == old(validBits)
      ensures Contents() == old(Contents()) + {item}
      ensures novel <==> item !in old(Contents())
      ensures !refused ==>
        lgSize == old(lgSize) + if novel && UPSIZE_DENOM * (old(numItems) + 1) > UPSIZE_NUMER * Pow2(old(lgSize)) then 1 else 0
    {
      hide Distinct, NoGap, Repairing, Found, Items;
      ghost var e := EmptySlot(slots);
      var index := Lookup(item);
      FoundIsExact(slots, Divisor(), item, index);
      if slots[index] == item { return false, false; }
      ItemsPut(slots, index, item);
      NoGapPut(slots, Divisor(), index, item);
      slots := slots[index := item];
      numItems := numItems + 1;
      refused := Grow();
      novel := true;
    }

    /** Doubles the table beyond three quarters. A larger table than MaxLg allows is refused. */
    method Grow() returns (refused: bool)
      requires Shape() && NoGap(slots, Divisor()) && numItems == |Contents()| && 0 < numItems
      requires UPSIZE_DENOM * (numItems - 1) <= UPSIZE_NUMER * Pow2(lgSize)
      modifies this
      ensures refused <==> UPSIZE_DENOM * old(numItems) > UPSIZE_NUMER * Pow2(MaxLg(validBits))
      ensures (!refused ==> Valid()) && validBits == old(validBits) && Contents() == old(Contents())
      ensures !refused ==> lgSize == old(lgSize) + if UPSIZE_DENOM * old(numItems) > UPSIZE_NUMER * Pow2(old(lgSize)) then 1 else 0
    {
      hide Distinct, NoGap, Items, Pow2;
      GrowthIsRefused(numItems - 1, lgSize, MaxLg(validBits));
      refused := false;
      if UPSIZE_DENOM * numItems > UPSIZE_NUMER * Pow2(lgSize) {
        if lgSize + 1 > MaxLg(validBits) { return true; }
        GrowthFits(numItems, lgSize, MaxLg(validBits));
        Rebuild(lgSize + 1);
      }
    }

    /** Removes the item and reports whether it was present. */
    method MaybeDelete(item: nat) returns (novel: bool)
      requires Valid() && item < Pow2(validBits) && item != EMPTY
      modifies this
      ensures Valid() && validBits == old(validBits)
      ensures Contents() == old(Contents()) - {item}
      ensures novel <==> item in old(Contents())
      ensures lgSize == old(lgSize)
                - if novel && DOWNSIZE_DENOM * (old(numItems) - 1) < DOWNSIZE_NUMER * Pow2(old(lgSize)) && old(lgSize) > 2 then 1 else 0
    {
      hide Distinct, NoGap, Repairing, Found, Items;
      ghost var e := EmptySlot(slots);
      var index := Lookup(item);
      FoundIsExact(slots, Divisor(), item, index);
      if slots[index] == EMPTY { return false; }
      ghost var stop := NextEmpty(slots, index, e);
      RepairStart(slots, Divisor(), index, stop);
      ItemsErase(slots, index);
      slots := slots[index := EMPTY];
      numItems := numItems - 1;
      Reinsert(index, stop);
      if DOWNSIZE_DENOM * numItems < DOWNSIZE_NUMER * Pow2(lgSize) && lgSize > 2 {
        assert Pow2(lgSize) == 2 * Pow2(lgSize - 1);
        Rebuild(lgSize - 1);
      }
      return true;
    }

    /** Re-inserts all items between the freed slot and the next empty slot. */
    method Reinsert(index: nat, ghost stop: nat)
      requires Shape() && index < |slots| && Repairing(slots, Divisor(), index, Next(index, |slots|), stop)
      modifies this`slots
      ensures Shape() && NoGap(slots, Divisor()) && |slots| == old(|slots|)
      ensures Contents() == old(Contents())
    {
      hide Distinct, NoGap, Repairing, Found, Items;
      var probe := Next(index, |slots|);
      var fetched := slots[probe];
      while fetched != EMPTY
        invariant Shape() && probe < |slots| && fetched == slots[probe]
        invariant Repairing(slots, Divisor(), index, probe, stop)
        invariant Contents() == old(Contents())
        decreases if stop < |slots| then Dist(probe, stop, |slots|) else 0
      {
        ghost var before := slots;
        RepairGoesOn(slots, Divisor(), index, probe, stop);
        HomeInRange(fetched, validBits, lgSize);
        ItemsErase(slots, probe);
        slots := slots[probe := EMPTY];
        assert slots[probe] == EMPTY;
        ghost var p := MustInsert(fetched);
        RepairStep(before, Divisor(), index, probe, stop, p);
        probe := Next(probe, |slots|);
        fetched := slots[probe];
      }
      RepairDone(slots, Divisor(), index, probe, stop);
    }

    /** Copies the items out, undoing the wrap-around of the first cluster where its items have the
      * high bit set. */
    method UnwrappingGetItems() returns (result: array<nat>)
      requires Valid()
      ensures fresh(result) && result.Length == numItems && Elems(result[..]) == Contents()
    {
      hide Distinct, NoGap, Items, Elems, Gathered, Pow2;
      result := new nat[numItems];
      if numItems == 0 { NoElems(result[..]); return; }
      GatherStart(result[..], slots[..0]);
      var i, l, r := UnwrapFirst(result);
      l := GatherRest(result, i, l, r);
      assert slots[..|slots|] == slots;
      GatherDone(result[..], slots, l, r);
    }

    /** The first cluster: items with the high bit set go to the end. */
    method UnwrapFirst(result: array<nat>) returns (i: nat, l: nat, r: int)
      requires Distinct(slots) && 0 < result.Length == |Items(slots)| && validBits > 0
      requires Gathered(result[..], slots[..0], 0, result.Length - 1)
      modifies result
      ensures i <= |slots| && Gathered(result[..], slots[..i], l, r)
    {
      hide Distinct, Items, Gathered, Pow2;
      i, l, r := 0, 0, result.Length - 1;
      while i < |slots| && slots[i] != EMPTY
        invariant i <= |slots| && Gathered(result[..], slots[..i], l, r)
      {
        NotYetSeen(slots, i);
        GatherRoom(result[..], slots, i, l, r);
        var item: nat := slots[i];
        ghost var before := result[..];
        if item / Pow2(validBits - 1) % 2 == 1 {
          GatherRight(before, slots, i, l, r);
          result[r] := item;
          assert result[..] == before[r := item];
          r := r - 1;
        } else {
          GatherLeft(before, slots, i, l, r);
          result[l] := item;
          assert result[..] == before[l := item];
          l := l + 1;
        }
        i := i + 1;
      }
    }

    method GatherRest(result: array<nat>, first: nat, left: nat, r: int) returns (l: nat)
      requires Distinct(slots) && result.Length == |Items(slots)|
      requires first <= |slots| && Gathered(result[..], slots[..first], left, r)
      modifies result
      ensures Gathered(result[..], slots[..|slots|], l, r)
    {
      hide Distinct, Items, Gathered;
      l := left;
      var i := first;
      while i < |slots|
        invariant i <= |slots| && Gathered(result[..], slots[..i], l, r)
      {
        var item: nat := slots[i];
        if item != EMPTY {
          NotYetSeen(slots, i);
          GatherRoom(result[..], slots, i, l, r);
          ghost var before := result[..];
          GatherLeft(before, slots, i, l, r);
          result[l] := item;
          assert result[..] == before[l := item];
          l := l + 1;
        } else {
          ItemsSnoc(slots, i);
          GatherSame(result[..], slots[..i], slots[..i + 1], l, r);
        }
        i := i + 1;
      }
    }
  }

  // ---------- copying the items out ----------

  /** The items of the slots seen so far fill result from both ends, up to l and down to r. */
  ghost predicate Gathered(result: seq<nat>, seen: seq<nat>, l: nat, r: int) {
    && l <= r + 1 <= |result|
    && l + (|result| - 1 - r) == |Items(seen)|
    && Elems(result[..l]) + Elems(result[r + 1..]) == Items(seen)
  }

  lemma GatherStart(result: seq<nat>, seen: seq<nat>)
    requires seen == []
    ensures Gathered(result, seen, 0, |result| - 1)
  {}

  lemma GatherRoom(result: seq<nat>, slots: seq<nat>, i: nat, l: nat, r: int)
    requires i < |slots| && slots[i] != EMPTY && Distinct(slots) && |result| == |Items(slots)|
    requires Gathered(result, slots[..i], l, r)
    ensures l <= r < |result|
  {
    hide Items, Distinct;
    NotYetSeen(slots, i);
  }

  lemma GatherLeft(result: seq<nat>, slots: seq<nat>, i: nat, l: nat, r: int)
    requires i < |slots| && slots[i] != EMPTY && slots[i] !in Items(slots[..i])
    requires Gathered(result, slots[..i], l, r) && l <= r
    ensures Gathered(result[l := slots[i]], slots[..i + 1], l + 1, r)
  {
    ItemsSnoc(slots, i);
    var t := result[l := slots[i]];
    assert t[..l + 1] == result[..l] + [slots[i]];
    assert t[r + 1..] == result[r + 1..];
  }

  lemma GatherRight(result: seq<nat>, slots: seq<nat>, i: nat, l: nat, r: int)
    requires i < |slots| && slots[i] != EMPTY && slots[i] !in Items(slots[..i])
    requires Gathered(result, slots[..i], l, r) && l <= r
    ensures Gathered(result[r := slots[i]], slots[..i + 1], l, r - 1)
  {
    ItemsSnoc(slots, i);
    var t := result[r := slots[i]];
    assert t[..l] == result[..l];
    assert t[r..] == [slots[i]] + result[r + 1..];
  }

  lemma GatherSame(result: seq<nat>, seen: seq<nat>, seen': seq<nat>, l: nat, r: int)
    requires Gathered(result, seen, l, r) && Items(seen') == Items(seen)
    ensures Gathered(result, seen', l, r)
  {}

  lemma GatherDone(result: seq<nat>, slots: seq<nat>, l: nat, r: int)
    requires Gathered(result, slots, l, r) && |Items(slots)| == |result|
    ensures l == r + 1 && Elems(result) == Items(slots)
  {}

  /** Builds a table of the right final size from distinct pairs. */
  method MakeFromPairs(pairs: seq<nat>, lgK: nat) returns (table: U32Table)
    requires 4 <= lgK <= 26
    requires forall i :: 0 <= i < |pairs| ==> pairs[i] < Pow2(6 + lgK) && pairs[i] != EMPTY
    requires forall i, j :: 0 <= i < j < |pairs| ==> pairs[i] != pairs[j]
    requires UPSIZE_DENOM * |pairs| <= UPSIZE_NUMER * Pow2(MaxLg(6 + lgK))
    ensures fresh(table) && table.Valid() && table.validBits == 6 + lgK && table.Contents() == Elems(pairs)
    ensures table.lgSize == 2 || UPSIZE_DENOM * |pairs| > UPSIZE_NUMER * Pow2(table.lgSize - 1)
  {
    hide Distinct, NoGap, Items, Elems, Pow2;
    var lgNumSlots: nat := 2;
    while UPSIZE_DENOM * |pairs| > UPSIZE_NUMER * Pow2(lgNumSlots)
      invariant 2 <= lgNumSlots <= MaxLg(6 + lgK)
      invariant lgNumSlots == 2 || UPSIZE_DENOM * |pairs| > UPSIZE_NUMER * Pow2(lgNumSlots - 1)
      decreases MaxLg(6 + lgK) - lgNumSlots
    {
      lgNumSlots := lgNumSlots + 1;
    }
    table := new U32Table(lgNumSlots, 6 + lgK);
    NoElems(pairs[..0]);
    for i := 0 to |pairs|
      invariant fresh(table) && table.Shape() && table.validBits == 6 + lgK && table.lgSize == lgNumSlots
      invariant NoGap(table.slots, table.Divisor())
      invariant table.Contents() == Elems(pairs[..i]) && |table.Contents()| == i
    {
      ElemsSnoc(pairs, i);
      ghost var e := EmptySlot(table.slots);
      ghost var before := table.slots;
      ghost var p := table.MustInsert(pairs[i]);
      NoGapPut(before, table.Divisor(), p, pairs[i]);
    }
    assert pairs[..|pairs|] == pairs;
    table.numItems := |pairs|;
  }

  lemma NoElems(s: seq<nat>)
    requires s == []
    ensures Elems(s) == {}
  {}

  lemma GrowthFits(n: nat, lg: nat, maxLg: nat)
    requires lg <= maxLg && UPSIZE_DENOM * n > UPSIZE_NUMER * Pow2(lg)
    requires UPSIZE_DENOM * (n - 1) <= UPSIZE_NUMER * Pow2(lg) && UPSIZE_DENOM * n <= UPSIZE_NUMER * Pow2(maxLg)
    requires lg >= 2
    ensures lg + 1 <= maxLg && UPSIZE_DENOM * n <= UPSIZE_NUMER * Pow2(lg + 1)
  {}

  /** An insertion asks for a table larger than the index arithmetic supports exactly when the items
    * exceed three quarters of the largest table. */
  lemma GrowthIsRefused(n: nat, lg: nat, maxLg: nat)
    requires 2 <= lg <= maxLg && UPSIZE_DENOM * n <= UPSIZE_NUMER * Pow2(lg)
    ensures UPSIZE_DENOM * (n + 1) > UPSIZE_NUMER * Pow2(lg) && lg + 1 > maxLg
            <==> UPSIZE_DENOM * (n + 1) > UPSIZE_NUMER * Pow2(maxLg)
  {}
}
