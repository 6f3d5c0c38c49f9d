/** The exception map of an HLL4 array, hll/include/AuxHashMap-internal.hpp. */
module AuxHashMaps {
  import opened Words
  import opened Sets
  import opened HllSpec
  import opened StrideTables

  datatype Option = None | Some(value: nat)

  ghost predicate Unambiguous(items: set<nat>, lgK: nat) {
    forall x, y :: x in items && y in items && KeyOf(BySlot(lgK), x) == KeyOf(BySlot(lgK), y) ==> x == y
  }

  /** The map from slots to values that a set of pairs stands for. */
  ghost function MapOf(items: set<nat>, lgK: nat): (m: map<nat, nat>)
    requires Unambiguous(items, lgK)
  {
    map x | x in items :: KeyOf(BySlot(lgK), x) := ValueOf(x)
  }

  lemma MapHas(items: set<nat>, lgK: nat, x: nat)
    requires Unambiguous(items, lgK) && x in items
    ensures KeyOf(BySlot(lgK), x) in MapOf(items, lgK) && MapOf(items, lgK)[KeyOf(BySlot(lgK), x)] == ValueOf(x)
  {}

  lemma MapFrom(items: set<nat>, lgK: nat, k: nat) returns (x: nat)
    requires Unambiguous(items, lgK) && k in MapOf(items, lgK)
    ensures x in items && KeyOf(BySlot(lgK), x) == k && ValueOf(x) == MapOf(items, lgK)[k]
  {
    hide ValueOf, KeyOf;
    x :| x in items && KeyOf(BySlot(lgK), x) == k;
  }

  lemma MapPut(items: set<nat>, lgK: nat, x: nat)
    requires Unambiguous(items, lgK) && forall y :: y in items ==> KeyOf(BySlot(lgK), y) != KeyOf(BySlot(lgK), x)
    ensures Unambiguous(items + {x}, lgK)
    ensures MapOf(items + {x}, lgK) == MapOf(items, lgK)[KeyOf(BySlot(lgK), x) := ValueOf(x)]
    ensures KeyOf(BySlot(lgK), x) !in MapOf(items, lgK)
  {}

  lemma MapReplace(items: set<nat>, lgK: nat, x: nat, y: nat)
    requires Unambiguous(items, lgK) && x in items && KeyOf(BySlot(lgK), x) == KeyOf(BySlot(lgK), y)
    ensures Unambiguous(items - {x} + {y}, lgK)
    ensures MapOf(items - {x} + {y}, lgK) == MapOf(items, lgK)[KeyOf(BySlot(lgK), y) := ValueOf(y)]
  {}

  lemma {:induction false} MapCount(items: set<nat>, lgK: nat)
    requires Unambiguous(items, lgK)
    ensures |MapOf(items, lgK)| == |items|
  {
    hide ValueOf, KeyOf, MapOf;
    if items == {} {
      NoMap(lgK);
    } else {
      var x :| x in items;
      MapCount(items - {x}, lgK);
      MapPut(items - {x}, lgK, x);
      assert items == items - {x} + {x};
      var m := MapOf(items - {x}, lgK);
      assert m[KeyOf(BySlot(lgK), x) := ValueOf(x)].Keys == m.Keys + {KeyOf(BySlot(lgK), x)};
    }
  }

  lemma NoMap(lgK: nat)
    ensures Unambiguous({}, lgK) && MapOf({}, lgK) == map[]
  {}

  lemma TableUnambiguous(s: seq<nat>, lgK: nat)
    requires DistinctKeys(BySlot(lgK), s)
    ensures Unambiguous(Items(s), lgK)
  {}

  lemma PairKey(slot: nat, value: nat, lgK: nat)
    requires slot < Pow2(lgK) && lgK <= 26
    ensures KeyOf(BySlot(lgK), Pair(slot, value)) == slot && ValueOf(Pair(slot, value)) == value
    ensures value > 0 ==> Pair(slot, value) != EMPTY
  {
    hide Pair, Low26, ValueOf;
    PairParts(slot, value, lgK);
    SlotIsKey(Pair(slot, value), lgK);
  }

  lemma SlotIsKey(e: nat, lgK: nat)
    requires lgK <= 26
    ensures SlotOf(e, lgK) == KeyOf(BySlot(lgK), e)
  {
    Pow2Values();
    Pow2Add(lgK, 26 - lgK);
    ModOfMod(e, Pow2(lgK), Pow2(26 - lgK));
  }

  class AuxHashMap {
    const lgConfigK: nat
    var lgAuxArrInts: nat
    var auxCount: nat
    var entries: seq<nat>

    ghost predicate Valid()
      reads this
    {
      && lgConfigK <= 26 && 1 <= lgAuxArrInts
      && Table(BySlot(lgConfigK), entries, lgAuxArrInts)
      && auxCount == |Items(entries)|
      && 4 * auxCount <= 3 * |entries|
    }

    ghost function Contents(): (m: map<nat, nat>)
      reads this
    {
      if Unambiguous(Items(entries), lgConfigK) then MapOf(Items(entries), lgConfigK) else map[]
    }

    constructor (lgAuxArrInts: nat, lgConfigK: nat)
      requires 1 <= lgAuxArrInts && lgConfigK <= 26
      ensures Valid() && Contents() == map[] && this.lgConfigK == lgConfigK
    {
      this.lgConfigK := lgConfigK;
      this.lgAuxArrInts := lgAuxArrInts;
      auxCount := 0;
      entries := seq(Pow2(lgAuxArrInts), _ => EMPTY);
      new;
      NoEntries(BySlot(lgConfigK), entries, lgAuxArrInts);
      NoMap(lgConfigK);
    }

    /** Adds a pair; a slot that is already there is refused. */
    method MustAdd(slotNo: nat, value: nat) returns (ok: bool)
      requires Valid() && slotNo < Pow2(lgConfigK) && value > 0
      modifies this
      ensures Valid() && (ok <==> slotNo !in old(Contents()))
      ensures Contents() == if ok then old(Contents())[slotNo := value] else old(Contents())
      ensures auxCount == old(auxCount) + (if ok then 1 else 0)
      ensures lgAuxArrInts == old(lgAuxArrInts) + if ok && 4 * (old(auxCount) + 1) > 3 * Pow2(old(lgAuxArrInts)) then 1 else 0
    {
      hide DistinctKeys, AllPlaced, Items, KeyOf, Pow2, StrideTables.Found, MapOf, Unambiguous, Pair, ValueOf;
      ghost var kind := BySlot(lgConfigK);
      var index := Find(BySlot(lgConfigK), entries, lgAuxArrInts, slotNo);
      FoundIsExact(kind, entries, lgAuxArrInts, slotNo, index);
      TableUnambiguous(entries, lgConfigK);
      PairKey(slotNo, value, lgConfigK);
      var entryPair := Pair(slotNo, value);
      if entries[index] != EMPTY {
        MapHas(Items(entries), lgConfigK, entries[index]);
        return false;
      }
      MapPut(Items(entries), lgConfigK, entryPair);
      PutEntry(kind, entries, lgAuxArrInts, index, entryPair);
      entries := entries[index := entryPair];
      auxCount := auxCount + 1;
      CheckGrow();
      ok := true;
    }

    /** Doubles the table beyond three quarters. */
    method CheckGrow()
      requires lgConfigK <= 26 && 1 <= lgAuxArrInts && |entries| == Pow2(lgAuxArrInts)
      requires DistinctKeys(BySlot(lgConfigK), entries) && AllPlaced(BySlot(lgConfigK), entries, lgAuxArrInts)
      requires auxCount == |Items(entries)| && 4 * auxCount <= 3 * |entries| + 4
      modifies this
      ensures Valid() && Items(entries) == old(Items(entries)) && auxCount == old(auxCount)
      ensures lgAuxArrInts == old(lgAuxArrInts) + if 4 * auxCount > 3 * Pow2(old(lgAuxArrInts)) then 1 else 0
    {
      hide DistinctKeys, AllPlaced, Items, KeyOf, Pow2;
      TwiceThat(lgAuxArrInts);
      if 4 * auxCount > 3 * Pow2(lgAuxArrInts) {
        entries := Rehash(BySlot(lgConfigK), entries, lgAuxArrInts);
        lgAuxArrInts := lgAuxArrInts + 1;
      }
    }

    method MustFindValueFor(slotNo: nat) returns (r: Option)
      requires Valid() && slotNo < Pow2(lgConfigK)
      ensures r == if slotNo in Contents() then Some(Contents()[slotNo]) else None
    {
      hide DistinctKeys, AllPlaced, Items, KeyOf, Pow2, StrideTables.Found, MapOf, Unambiguous, Pair, ValueOf;
      ghost var kind := BySlot(lgConfigK);
      var index := Find(BySlot(lgConfigK), entries, lgAuxArrInts, slotNo);
      FoundIsExact(kind, entries, lgAuxArrInts, slotNo, index);
      TableUnambiguous(entries, lgConfigK);
      if entries[index] != EMPTY {
        MapHas(Items(entries), lgConfigK, entries[index]);
        r := Some(ValueOf(entries[index]));
      } else {
        NotMapped(Items(entries), lgConfigK, slotNo);
        r := None;
      }
    }

    method MustReplace(slotNo: nat, value: nat) returns (ok: bool)
      requires Valid() && slotNo < Pow2(lgConfigK) && value > 0
      modifies this
      ensures Valid() && (ok <==> slotNo in old(Contents()))
      ensures Contents() == if ok then old(Contents())[slotNo := value] else old(Contents())
    {
      hide DistinctKeys, AllPlaced, Items, KeyOf, Pow2, StrideTables.Found, MapOf, Unambiguous, Pair, ValueOf;
      ghost var kind := BySlot(lgConfigK);
      var index := Find(BySlot(lgConfigK), entries, lgAuxArrInts, slotNo);
      FoundIsExact(kind, entries, lgAuxArrInts, slotNo, index);
      TableUnambiguous(entries, lgConfigK);
      if entries[index] == EMPTY {
        NotMapped(Items(entries), lgConfigK, slotNo);
        return false;
      }
      var entryPair := Pair(slotNo, value);
      PairKey(slotNo, value, lgConfigK);
      MapHas(Items(entries), lgConfigK, entries[index]);
      MapReplace(Items(entries), lgConfigK, entries[index], entryPair);
      ReplaceEntry(kind, entries, lgAuxArrInts, index, entryPair);
      entries := entries[index := entryPair];
      ok := true;
    }

    /** The used entries in table order, as the coupon iterator visits them. */
    method Pairs() returns (pairs: seq<(nat, nat)>)
      requires Valid()
      ensures |pairs| == auxCount == |Contents()| && KeysOf(pairs) == Contents().Keys
      ensures forall i :: 0 <= i < |pairs| ==> pairs[i].0 in Contents() && Contents()[pairs[i].0] == pairs[i].1
      ensures forall i, j :: 0 <= i < j < |pairs| ==> pairs[i].0 != pairs[j].0
    {
      hide DistinctKeys, AllPlaced, KeyOf, Pow2, MapOf, Unambiguous, ValueOf, Low26, Items;
      ghost var m := Contents();
      TableUnambiguous(entries, lgConfigK);
      MapCount(Items(entries), lgConfigK);
      pairs := [];
      NoItems(entries);
      var i := 0;
      while i < |entries|
        invariant i <= |entries| && Listing(pairs, entries[..i], lgConfigK)
      {
        ListingNext(pairs, entries, i, lgConfigK);
        var coupon := entries[i];
        if coupon != EMPTY {
          pairs := pairs + [(SlotOf(coupon, lgConfigK), ValueOf(coupon))];
        }
        i := i + 1;
      }
      assert entries[..i] == entries;
      ListingDone(pairs, entries, lgConfigK);
    }
  }

  lemma TwiceThat(lg: nat)
    requires lg >= 1
    ensures 2 <= Pow2(lg) && Pow2(lg + 1) == 2 * Pow2(lg)
  {}

  lemma NotMapped(items: set<nat>, lgK: nat, k: nat)
    requires Unambiguous(items, lgK) && forall x :: x in items ==> KeyOf(BySlot(lgK), x) != k
    ensures k !in MapOf(items, lgK)
  {}

  // ---------- the iterator ----------

  function PairOf(x: nat, lgK: nat): (nat, nat) { (KeyOf(BySlot(lgK), x), ValueOf(x)) }

  ghost predicate Comes(pair: (nat, nat), items: set<nat>, lgK: nat) {
    exists x :: x in items && PairOf(x, lgK) == pair
  }

  /** pairs lists the used entries of s. */
  ghost predicate Listing(pairs: seq<(nat, nat)>, s: seq<nat>, lgK: nat) {
    && (forall i :: 0 <= i < |pairs| ==> Comes(pairs[i], Items(s), lgK))
    && (forall x :: x in Items(s) ==> KeyOf(BySlot(lgK), x) in KeysOf(pairs))
    && (forall i, j :: 0 <= i < j < |pairs| ==> pairs[i].0 != pairs[j].0)
  }

  lemma ListingNext(pairs: seq<(nat, nat)>, s: seq<nat>, i: nat, lgK: nat)
    requires i < |s| && lgK <= 26 && DistinctKeys(BySlot(lgK), s) && Listing(pairs, s[..i], lgK)
    ensures s[i] == EMPTY ==> Listing(pairs, s[..i + 1], lgK)
    ensures s[i] != EMPTY ==> Listing(pairs + [(SlotOf(s[i], lgK), ValueOf(s[i]))], s[..i + 1], lgK)
  {
    hide KeyOf, ValueOf, Low26, Items;
    SlotIsKey(s[i], lgK);
    ItemsNext(s, i);
    forall j | 0 <= j < |pairs| ensures Comes(pairs[j], Items(s[..i + 1]), lgK) {
      var x :| x in Items(s[..i]) && PairOf(x, lgK) == pairs[j];
    }
    if s[i] != EMPTY {
      var more := pairs + [PairOf(s[i], lgK)];
      KeysSnoc(pairs, PairOf(s[i], lgK));
      assert Comes(more[|pairs|], Items(s[..i + 1]), lgK);
      forall j | 0 <= j < |pairs| ensures pairs[j].0 != KeyOf(BySlot(lgK), s[i]) {
        var x :| x in Items(s[..i]) && PairOf(x, lgK) == pairs[j];
        EarlierKey(BySlot(lgK), s, i, x);
      }
    }
  }

  lemma KeysSnoc(pairs: seq<(nat, nat)>, x: (nat, nat))
    ensures KeysOf(pairs + [x]) == KeysOf(pairs) + {x.0}
  {
    var more := pairs + [x];
    assert more[|pairs|] == x;
    forall j | 0 <= j < |pairs| ensures pairs[j].0 in KeysOf(more) { assert more[j] == pairs[j]; }
  }

  lemma ListingDone(pairs: seq<(nat, nat)>, s: seq<nat>, lgK: nat)
    requires DistinctKeys(BySlot(lgK), s) && Unambiguous(Items(s), lgK) && Listing(pairs, s, lgK)
    ensures var m := MapOf(Items(s), lgK);
            && |pairs| == |m| && KeysOf(pairs) == m.Keys
            && (forall i :: 0 <= i < |pairs| ==> pairs[i].0 in m && m[pairs[i].0] == pairs[i].1)
  {
    hide KeyOf, ValueOf, Items, MapOf, Unambiguous;
    var m := MapOf(Items(s), lgK);
    forall i | 0 <= i < |pairs| ensures pairs[i].0 in m && m[pairs[i].0] == pairs[i].1 {
      assert Comes(pairs[i], Items(s), lgK);
      var x :| x in Items(s) && PairOf(x, lgK) == pairs[i];
      MapHas(Items(s), lgK, x);
    }
    forall k | k in m ensures k in KeysOf(pairs) {
      var x := MapFrom(Items(s), lgK, k);
    }
    assert KeysOf(pairs) == m.Keys;
    KeysOfCount(pairs);
  }
}
