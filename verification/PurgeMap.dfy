/** The reverse-purge hash map of fi/include/reverse_purge_hash_map_impl.hpp. */
module PurgeMaps {
  import opened Words
  import opened Sets
  import opened Probing
  import opened PurgeSlots
  import opened MapSums
  import opened Sorting
  import opened Strides

  /** Three quarters of the slots. */
  function Capacity(lg: nat): nat {
    3 * Pow2(lg) / 4
  }

  /** The map after adding value to the entry of key. */
  ghost function Added<K>(m: map<K, nat>, key: K, value: nat): (r: map<K, nat>) {
    m[key := (if key in m then m[key] else 0) + value]
  }

  ghost predicate Positive<K(!new)>(m: map<K, nat>) {
    forall k :: k in m ==> m[k] > 0
  }

  /** Probing further than this throws; the limit can only be met in maps of more than 1024 slots. */
  const DRIFT_LIMIT: nat := 1024

  class ReversePurgeHashMap<K(==, !new)> {
    const hash: K -> nat
    const lgMax: nat
    var lgCur: nat
    var numActive: nat
    var slots: Table<K>

    /** All of Valid() but the load limit. */
    ghost predicate Shape()
      reads this
    {
      && 3 <= lgCur <= lgMax
      && |slots| == Pow2(lgCur)
      && DistinctKeys(slots)
      && AllPlaced(slots, hash)
      && numActive == |Entries(slots)|
      && numActive <= Capacity(lgCur) + 1
      && Positive(Entries(slots))
    }

    ghost predicate Valid()
      reads this
    {
      Shape() && numActive <= Capacity(lgCur)
    }

    ghost function Contents(): map<K, nat>
      reads this
    {
      if DistinctKeys(slots) then Entries(slots) else map[]
    }

    constructor (lgStart: nat, lgMax: nat, hash: K -> nat)
      requires 3 <= lgStart <= lgMax
      ensures Valid() && Contents() == map[] && this.lgMax == lgMax && this.hash == hash && lgCur == lgStart
    {
      this.hash := hash;
      this.lgMax := lgMax;
      lgCur := lgStart;
      numActive := 0;
      slots := seq(Pow2(lgStart), _ => Free);
    }

    /** The value of a key, or zero. */
    method Get(key: K) returns (value: nat)
      requires Shape()
      ensures value == if key in Contents() then Contents()[key] else 0
    {
      hide Entries, DistinctKeys, AllPlaced, Pow2;
      var probe, _ := Find(key);
      FoundIsExact(slots, hash, key, probe);
      if slots[probe].Used? { value := slots[probe].value; } else { value := 0; }
    }

    /** Probes for a key; drift counts the probes. */
    method Find(key: K) returns (index: nat, drift: nat)
      requires Shape()
      ensures PurgeSlots.Found(slots, hash, key, index)
      ensures drift == Dist(Home(hash(key), |slots|), index, |slots|) + 1
      ensures drift <= numActive + 1 && (lgMax <= 10 ==> drift < DRIFT_LIMIT)
    {
      hide Entries, DistinctKeys, AllPlaced, Pow2;
      SomeRoom(lgCur);
      ghost var e := FreeSlot(slots);
      ghost var home := Home(hash(key), |slots|);
      index := hash(key) % |slots|;
      drift := 1;
      while slots[index].Used? && slots[index].key != key
        invariant index < |slots| && drift == Dist(home, index, |slots|) + 1
        invariant forall j :: 0 <= j < |slots| && InArc(home, j, index) ==> slots[j].Used? && slots[j].key != key
        decreases Dist(index, e, |slots|)
      {
        assert (index + 1) % |slots| == Next(index, |slots|);
        index := (index + 1) % |slots|;
        drift := drift + 1;
      }
      ArcCount(slots, home, index);
      if lgMax <= 10 { DriftFits(lgCur); }
    }

    /** Adds to the entry of a key, or inserts one; the load limit is left to the caller. */
    method InternalAdjustOrInsert(key: K, value: nat)
      requires Valid() && value > 0
      modifies this`slots, this`numActive
      ensures Shape() && Contents() == Added(old(Contents()), key, value)
      ensures numActive == old(numActive) + (if key in old(Contents()) then 0 else 1)
      ensures key !in old(Contents()) ==> Inserted(old(slots), slots, hash, key, value)
    {
      hide Entries, DistinctKeys, AllPlaced, Pow2, PurgeSlots.Found, Capacity, Positive, Added;
      var index, drift := Find(key);
      FoundIsExact(slots, hash, key, index);
      if slots[index].Used? {
        AdjustSlot(index, value);
      } else {
        FillSlot(index, key, value, drift);
      }
    }

    method AdjustSlot(index: nat, value: nat)
      requires Valid() && index < |slots| && slots[index].Used? && value > 0
      modifies this`slots
      ensures Shape() && Contents() == Added(old(Contents()), old(slots[index].key), value) && old(slots[index].key) in old(Contents())
    {
      hide Entries, DistinctKeys, AllPlaced, Pow2, Capacity, Positive;
      ghost var key := slots[index].key;
      PositiveAdded(Entries(slots), key, value);
      EntriesAt(slots, index);
      EntriesSet(slots, index, slots[index].value + value);
      PlacedSet(slots, hash, index, slots[index].value + value);
      AddKey(Entries(slots), key, slots[index].value + value);
      slots := slots[index := slots[index].(value := slots[index].value + value)];
    }

    /** A new entry; numActive <= Capacity(lgCur), so the guard at reverse_purge_hash_map_impl.hpp:295 never fires. */
    method FillSlot(index: nat, key: K, value: nat, drift: nat)
      requires Valid() && PurgeSlots.Found(slots, hash, key, index) && slots[index].Free? && value > 0
      requires drift == Dist(Home(hash(key), |slots|), index, |slots|) + 1
      modifies this`slots, this`numActive
      ensures Shape() && Contents() == Added(old(Contents()), key, value) && key !in old(Contents())
      ensures numActive == old(numActive) + 1 && Inserted(old(slots), slots, hash, key, value)
    {
      hide Entries, DistinctKeys, AllPlaced, Pow2, PurgeSlots.Found, Capacity, Positive;
      FoundIsExact(slots, hash, key, index);
      PositiveAdded(Entries(slots), key, value);
      EntriesPut(slots, index, key, value, drift);
      PlacedPut(slots, hash, key, index, value);
      AddKey(Entries(slots), key, value);
      slots := slots[index := Used(key, value, drift)];
      numActive := numActive + 1;
    }

    /** Frees a slot and moves later items of the cluster back; nothing outside the arc from index up
      * to the free slot e changes. */
    method HashDelete(index: nat, ghost e: nat)
      requires DistinctKeys(slots) && AllPlaced(slots, hash) && index < |slots| && slots[index].Used?
      requires e < |slots| && slots[e].Free?
      modifies this`slots
      ensures |slots| == old(|slots|) && DistinctKeys(slots) && AllPlaced(slots, hash)
      ensures Contents() == old(Contents()) - {old(slots[index].key)}
      ensures SameOutsideArc(slots, old(slots), index, e)
    {
      hide Entries, DistinctKeys, AllPlaced, Hole, SameOutsideArc, Moved;
      ghost var stop := NextFree(slots, index, e);
      SameArcStart(slots, index, stop);
      SameArcPut(slots, slots, index, stop, index, Free);
      HoleStart(slots, hash, index, stop);
      EntriesErase(slots, index);
      slots := slots[index := Free];
      var deleteIndex: nat, drift: nat := index, 1;
      var probe: nat := Next(index, |slots|);
      while slots[probe].Used?
        invariant |slots| == old(|slots|) && probe < |slots| && deleteIndex < |slots| && stop < |slots|
        invariant DistinctKeys(slots) && Hole(slots, hash, deleteIndex, probe, stop)
        invariant drift == Dist(deleteIndex, probe, |slots|)
        invariant InArc(index, deleteIndex, stop) && (probe == stop || InArc(index, probe, stop))
        invariant Contents() == old(Contents()) - {old(slots[index].key)}
        invariant SameOutsideArc(slots, old(slots), index, stop)
        decreases Dist(probe, stop, |slots|)
      {
        HoleAhead(slots, hash, deleteIndex, probe, stop);
        if slots[probe].drift > drift {
          HoleMove(slots, hash, deleteIndex, probe, stop);
          EntriesMoved(slots, deleteIndex, probe);
          SameArcMoved(slots, old(slots), index, stop, deleteIndex, probe);
          slots := Moved(slots, deleteIndex, probe);
          drift := 0;
          deleteIndex := probe;
        } else {
          HoleStay(slots, hash, deleteIndex, probe, stop);
        }
        probe := Next(probe, |slots|);
        drift := drift + 1;
        assert |slots| <= DRIFT_LIMIT ==> drift < DRIFT_LIMIT;
      }
      HoleDone(slots, hash, deleteIndex, probe, stop);
      SameArcWider(slots, old(slots), index, stop, e);
    }

    /** One step of the purge: lowers or deletes the entry in slot probe. */
    method PurgeSlot(probe: nat, amount: nat, ghost first: nat, ghost s0: Table<K>)
      requires probe < |slots| && probe != first && Purging(s0, slots, hash, Next(probe, |slots|), first, amount)
      requires numActive == |Entries(slots)|
      modifies this`slots, this`numActive
      ensures |slots| == old(|slots|) && DistinctKeys(slots) && Purging(s0, slots, hash, probe, first, amount)
      ensures numActive == |Entries(slots)|
    {
      hide Entries, DistinctKeys, AllPlaced, Lowered;
      ghost var before := slots;
      LoweredStep(s0, probe, first, amount);
      ghost var lowered := Lowered(s0, Next(probe, |slots|), first, amount);
      LoweredDistinct(s0, Next(probe, |slots|), first, amount);
      LoweredDistinct(s0, probe, first, amount);
      assert slots[probe] == s0[probe];
      if slots[probe].Used? {
        EntriesAt(slots, probe);
        if slots[probe].value <= amount {
          EntriesErase(lowered, probe);
          DropKey(Entries(slots), slots[probe].key);
          HashDelete(probe, first);
          numActive := numActive - 1;
        } else {
          var v := slots[probe].value - amount;
          EntriesSet(lowered, probe, v);
          EntriesSet(slots, probe, v);
          PlacedSet(slots, hash, probe, v);
          AddKey(Entries(slots), slots[probe].key, v);
          slots := slots[probe := slots[probe].(value := v)];
        }
      } else {
        assert Lowered(s0, probe, first, amount) == lowered;
      }
      ArcFromNext(probe, first, |slots|);
    }

    /** Lowers every entry by amount and drops those that would not stay positive. It works from the
      * back, one cluster after the other, so that deletions only move entries already lowered. */
    method SubtractAndKeepPositiveOnly(amount: nat)
      requires Shape()
      modifies this`slots, this`numActive
      ensures |slots| == old(|slots|) && DistinctKeys(slots) && AllPlaced(slots, hash)
      ensures Contents() == Purged(old(Contents()), amount) && numActive == |Contents()|
    {
      hide Entries, DistinctKeys, AllPlaced, Lowered, Pow2, Purging;
      ghost var s0 := slots;
      SomeRoom(lgCur);
      ghost var e := FreeSlot(slots);
      var firstProbe := |slots| - 1;
      while slots[firstProbe].Used?
        invariant e <= firstProbe < |slots|
        decreases firstProbe
      {
        firstProbe := firstProbe - 1;
      }
      PurgingStart(s0, hash, firstProbe, amount);
      var probe := firstProbe;
      while probe > 0
        invariant 0 <= probe <= firstProbe && |slots| == |s0| && DistinctKeys(slots) && numActive == |Entries(slots)|
        invariant Purging(s0, slots, hash, probe, firstProbe, amount)
      {
        probe := probe - 1;
        PurgeSlot(probe, amount, firstProbe, s0);
      }
      PurgingWraps(s0, slots, hash, firstProbe, amount);
      probe := |slots|;
      while probe > firstProbe + 1
        invariant firstProbe < probe <= |slots| == |s0| && DistinctKeys(slots) && numActive == |Entries(slots)|
        invariant Purging(s0, slots, hash, if probe == |slots| then 0 else probe, firstProbe, amount)
      {
        probe := probe - 1;
        assert Next(probe, |slots|) == if probe + 1 == |slots| then 0 else probe + 1;
        PurgeSlot(probe, amount, firstProbe, s0);
      }
      // the last step of the source's loop looks at the free slot firstProbe and does nothing
      PurgingEnd(s0, slots, hash, firstProbe, amount);
    }

    /** Values of the first limit used slots. */
    method Sample(limit: nat) returns (samples: array<nat>)
      requires DistinctKeys(slots) && limit <= |Entries(slots)|
      ensures fresh(samples) && samples.Length == limit
      ensures exists n: nat :: n <= |slots| && samples[..] == UsedValues(slots[..n])
    {
      hide Entries, DistinctKeys, UsedValues;
      samples := new nat[limit];
      var numSamples, i := 0, 0;
      NoUsed(slots[..0]);
      while numSamples < limit
        invariant numSamples <= limit && i <= |slots| && samples[..numSamples] == UsedValues(slots[..i])
        decreases |slots| - i
      {
        assert i < |slots| by {
          if i == |slots| { assert slots[..|slots|] == slots; UsedCount(slots, |slots|); }
        }
        UsedSnoc(slots, i);
        if slots[i].Used? {
          samples[numSamples] := slots[i].value;
          numSamples := numSamples + 1;
          assert samples[..numSamples] == UsedValues(slots[..i]) + [slots[i].value];
        }
        i := i + 1;
      }
      assert samples[..limit] == samples[..];
    }

    /** Purges by the median of a sample, and returns it. */
    method Purge() returns (median: nat)
      requires Shape() && numActive > 0
      modifies this`slots, this`numActive
      ensures |slots| == old(|slots|) && DistinctKeys(slots) && AllPlaced(slots, hash)
      ensures Contents() == Purged(old(Contents()), median) && numActive == |Contents()|
      ensures median > 0
      ensures var n := SampleSize(old(numActive));
              && HalfTimes(n, median) + Sum(Contents()) <= Sum(old(Contents()))
              && numActive + n / 2 + 1 <= old(numActive)
              && IsMedian(SampleOf(old(slots), n), median)
    {
      hide Entries, DistinctKeys, AllPlaced, Pow2, UsedValues, Capacity, Sum, HalfTimes, Purged, Mapped, Positive;
      var limit := SampleSize(numActive);
      var samples := Sample(limit);
      ghost var raw := samples[..];
      ghost var n: nat :| n <= |slots| && raw == UsedValues(slots[..n]);
      IntrospectiveInsertionSort(samples, 0, samples.Length);
      median := samples[limit / 2];
      MedianGain(slots, n, raw, samples[..]);
      UsedPrefix(slots, n);
      SampledMedian(raw, samples[..]);
      SubtractAndKeepPositiveOnly(median);
      PurgedSum(old(Contents()), median);
    }

    /** Moves all entries to a table of twice the size. */
    method Resize(lgNew: nat)
      requires Shape() && lgNew == lgCur + 1 <= lgMax
      modifies this
      ensures Valid() && Contents() == old(Contents()) && lgCur == lgNew
    {
      hide Entries, DistinctKeys, AllPlaced, Pow2, Capacity;
      var oldSlots := slots;
      slots := seq(Pow2(lgNew), _ => Free);
      numActive := 0;
      lgCur := lgNew;
      FreshTable(slots, hash);
      EntriesNone(oldSlots[..0]);
      CapacityGrows(lgNew);
      for i := 0 to |oldSlots|
        invariant Shape() && lgCur == lgNew && DistinctKeys(oldSlots[..i])
        invariant Contents() == Entries(oldSlots[..i]) && numActive <= Capacity(lgNew)
      {
        EntriesSnoc(oldSlots, i);
        PrefixSmaller(oldSlots, i);
        PrefixSmaller(oldSlots, i + 1);
        if oldSlots[i].Used? {
          EntriesAt(oldSlots, i);
          InternalAdjustOrInsert(oldSlots[i].key, oldSlots[i].value);
        }
      }
      assert oldSlots[..|oldSlots|] == oldSlots;
    }

    /** Adds value to the entry of key. When the load limit is exceeded the table grows, or, at its
      * largest size, is purged; the amount purged is returned. */
    method AdjustOrInsert(key: K, value: nat) returns (purged: nat)
      requires Valid() && value > 0
      modifies this
      ensures Valid()
      ensures Contents() == Purged(Added(old(Contents()), key, value), purged)
      ensures purged > 0 <==> key !in old(Contents()) && old(lgCur) == lgMax && old(numActive) == Capacity(lgMax)
      ensures lgCur == old(lgCur)
                + if key !in old(Contents()) && old(lgCur) < lgMax && old(numActive) == Capacity(old(lgCur)) then 1 else 0
      ensures purged > 0 ==> HalfTimes(SampleSize(Capacity(lgMax) + 1), purged) + Sum(Contents())
                               <= Sum(Added(old(Contents()), key, value))
      ensures purged > 0 ==> PurgedAfter(old(slots), hash, key, value, SampleSize(Capacity(lgMax) + 1), purged)
      ensures purged > 0 ==> SampleMedian(Added(old(Contents()), key, value), purged)
    {
      hide Entries, DistinctKeys, AllPlaced, Pow2, Capacity, Sum, Purged, HalfTimes, Positive, SampleSize, SampleOf, IsMedian, Inserted;
      ghost var m := Added(Contents(), key, value);
      PositiveAdded(Contents(), key, value);
      NotPurged(m);
      InternalAdjustOrInsert(key, value);
      purged := 0;
      if numActive > Capacity(lgCur) {
        if lgCur < lgMax {
          Resize(lgCur + 1);
        } else {
          purged := Purge();
          PurgedPositive(m, purged);
          // numActive <= Capacity(lgCur): the guard at reverse_purge_hash_map_impl.hpp:311 never fires
        }
      }
    }

    method FirstUsed() returns (index: nat)
      requires DistinctKeys(slots) && |Entries(slots)| > 0
      ensures index < |slots| && slots[index].Used?
    {
      hide Entries, DistinctKeys;
      index := 0;
      while index < |slots| && !slots[index].Used?
        invariant index <= |slots| && forall j :: 0 <= j < index ==> !slots[j].Used?
      {
        index := index + 1;
      }
      if index == |slots| { EntriesNone(slots); assert false; }
    }

    /** Visits the used slots in golden-stride order, as the source's iterator does. */
    method AllEntries() returns (entries: seq<(K, nat)>)
      requires Valid()
      ensures |entries| == numActive
      ensures forall i :: 0 <= i < |entries| ==> entries[i].0 in Contents() && Contents()[entries[i].0] == entries[i].1
      ensures forall i :: 0 <= i < |entries| ==> entries[i].1 > 0
      ensures forall i, j :: 0 <= i < j < |entries| ==> entries[i].0 != entries[j].0
      ensures KeysOf(entries) == Contents().Keys
    {
      hide Entries, DistinctKeys, AllPlaced, Pow2, Capacity, Slot;
      entries := [];
      if numActive == 0 { return; }
      SomeRoom(lgCur);
      var stride := IteratorStride(|slots|);
      var index := FirstUsed();
      ghost var start, step := index, 0;
      StartSlot(start, stride, |slots|);
      WalkSnoc(slots, start, stride, 0);
      entries := [(slots[index].key, slots[index].value)];
      while |entries| < numActive
        invariant step < |slots| && index == Slot(start, stride, step, |slots|)
        invariant entries == Walk(slots, start, stride, step + 1) && |entries| <= numActive
        decreases |slots| - step
      {
        WalkIncomplete(slots, lgCur, start, stride, step + 1);
        SlotNext(start, stride, step, |slots|);
        WalkSnoc(slots, start, stride, step + 1);
        index := (index + stride) % |slots|;
        step := step + 1;
        if slots[index].Used? { entries := entries + [(slots[index].key, slots[index].value)]; }
      }
      WalkLists(slots, lgCur, start, stride, step + 1);
    }
  }

  lemma FreshTable<K(!new)>(s: Table<K>, hash: K -> nat)
    requires forall i :: 0 <= i < |s| ==> s[i].Free?
    ensures DistinctKeys(s) && AllPlaced(s, hash) && Entries(s) == map[]
  {}

  lemma DriftFits(lg: nat)
    requires lg <= 10
    ensures Capacity(lg) + 2 < DRIFT_LIMIT
  {
    Pow2Mono(lg, 10);
  }

  lemma CapacityGrows(lg: nat)
    requires lg >= 4
    ensures Capacity(lg - 1) + 1 <= Capacity(lg)
  {}

  lemma PrefixSmaller<K(!new)>(s: Table<K>, n: nat)
    requires DistinctKeys(s) && n <= |s|
    ensures DistinctKeys(s[..n]) && |Entries(s[..n])| <= |Entries(s)|
  {
    hide Entries, DistinctKeys;
    EntriesSubmap(s, n);
    SubsetSize(Entries(s[..n]).Keys, Entries(s).Keys);
  }

  lemma NotPurged<K(!new)>(m: map<K, nat>)
    requires Positive(m)
    ensures Purged(m, 0) == m
  {}

  lemma PurgedPositive<K(!new)>(m: map<K, nat>, amount: nat)
    ensures Positive(Purged(m, amount))
  {}

  // ---------- the iterator ----------

  /** The golden-ratio stride of the iterator, forced to be odd. */
  function IteratorStride(n: nat): (stride: nat)
    ensures stride % 2 == 1
  {
    var x := (0.6180339887498949 * n as real).Floor;
    if x % 2 == 0 then x + 1 else x
  }

  lemma StartSlot(start: nat, stride: nat, n: nat)
    requires start < n
    ensures Slot(start, stride, 0, n) == start
  {}

  /** The entries of the used slots among the first steps visited. */
  ghost function Walk<K>(s: Table<K>, start: nat, stride: nat, steps: nat): (r: seq<(K, nat)>)
    requires |s| > 0
  {
    if steps == 0 then []
    else
      var x := s[Slot(start, stride, steps - 1, |s|)];
      Walk(s, start, stride, steps - 1) + if x.Used? then [(x.key, x.value)] else []
  }

  lemma WalkSnoc<K>(s: Table<K>, start: nat, stride: nat, steps: nat)
    requires |s| > 0
    ensures var x := s[Slot(start, stride, steps, |s|)];
            Walk(s, start, stride, steps + 1)
              == Walk(s, start, stride, steps) + if x.Used? then [(x.key, x.value)] else []
    ensures Walk(s, start, stride, 0) == []
  {}

  /** What is listed comes from a slot visited. */
  lemma {:induction false} WalkFrom<K(!new)>(s: Table<K>, start: nat, stride: nat, steps: nat, j: nat) returns (i: nat)
    requires |s| > 0 && j < |Walk(s, start, stride, steps)|
    ensures i < steps && var x := s[Slot(start, stride, i, |s|)]; x.Used? && (x.key, x.value) == Walk(s, start, stride, steps)[j]
  {
    hide Walk, Slot;
    i := 0;
    WalkSnoc(s, start, stride, 0);
    if steps > 0 {
      WalkSnoc(s, start, stride, steps - 1);
      if j < |Walk(s, start, stride, steps - 1)| { i := WalkFrom(s, start, stride, steps - 1, j); } else { i := steps - 1; }
    }
  }

  /** What is visited is listed. */
  lemma {:induction false} WalkHas<K(!new)>(s: Table<K>, start: nat, stride: nat, steps: nat, i: nat) returns (j: nat)
    requires |s| > 0 && i < steps && s[Slot(start, stride, i, |s|)].Used?
    ensures j < |Walk(s, start, stride, steps)| && Walk(s, start, stride, steps)[j].0 == s[Slot(start, stride, i, |s|)].key
  {
    hide Walk, Slot;
    WalkSnoc(s, start, stride, steps - 1);
    if i < steps - 1 { j := WalkHas(s, start, stride, steps - 1, i); } else { j := |Walk(s, start, stride, steps - 1)|; }
  }

  /** No key is listed twice in one round. */
  lemma {:induction false} WalkOnce<K(!new)>(s: Table<K>, lg: nat, start: nat, stride: nat, steps: nat, j: nat, k: nat)
    requires |s| == Pow2(lg) && DistinctKeys(s) && stride % 2 == 1 && steps <= |s|
    requires j < k < |Walk(s, start, stride, steps)|
    ensures Walk(s, start, stride, steps)[j].0 != Walk(s, start, stride, steps)[k].0
  {
    hide Slot, Pow2;
    if k < |Walk(s, start, stride, steps - 1)| {
      WalkOnce(s, lg, start, stride, steps - 1, j, k);
    } else {
      var i := WalkFrom(s, start, stride, steps - 1, j);
      StrideInjective(lg, start, stride, i, steps - 1);
    }
  }

  lemma WalkKeys<K(!new)>(s: Table<K>, lg: nat, start: nat, stride: nat, steps: nat)
    requires |s| == Pow2(lg) && DistinctKeys(s) && stride % 2 == 1 && steps <= |s|
    ensures var w := Walk(s, start, stride, steps);
            && (forall j :: 0 <= j < |w| ==> w[j].0 in Entries(s) && Entries(s)[w[j].0] == w[j].1)
            && (forall j, k :: 0 <= j < k < |w| ==> w[j].0 != w[k].0)
            && |KeysOf(w)| == |w| && KeysOf(w) <= Entries(s).Keys
  {
    hide Walk, Slot, Entries, DistinctKeys, Pow2;
    var w := Walk(s, start, stride, steps);
    forall j | 0 <= j < |w| ensures w[j].0 in Entries(s) && Entries(s)[w[j].0] == w[j].1 {
      var i := WalkFrom(s, start, stride, steps, j);
      EntriesAt(s, Slot(start, stride, i, |s|));
    }
    forall j, k | 0 <= j < k < |w| ensures w[j].0 != w[k].0 { WalkOnce(s, lg, start, stride, steps, j, k); }
    KeysOfCount(w);
  }

  /** As long as an entry is missing, the round is not over. */
  lemma WalkIncomplete<K(!new)>(s: Table<K>, lg: nat, start: nat, stride: nat, steps: nat)
    requires |s| == Pow2(lg) && DistinctKeys(s) && stride % 2 == 1 && steps <= |s|
    requires |Walk(s, start, stride, steps)| < |Entries(s)|
    ensures steps < |s|
    ensures |Walk(s, start, stride, steps + 1)| <= |Entries(s)|
  {
    hide Walk, Slot, Entries, DistinctKeys, Pow2;
    var w := Walk(s, start, stride, steps);
    WalkSnoc(s, start, stride, steps);
    if steps == |s| {
      forall k | k in Entries(s) ensures k in KeysOf(w) {
        var p := EntriesFrom(s, k);
        var i := StrideReaches(lg, start, stride, p);
        var j := WalkHas(s, start, stride, steps, i);
        assert w[j].0 == k;
      }
      WalkKeys(s, lg, start, stride, steps);
      SubsetSize(Entries(s).Keys, KeysOf(w));
    }
  }

  /** A list as long as the number of entries lists every entry exactly once. */
  lemma WalkLists<K(!new)>(s: Table<K>, lg: nat, start: nat, stride: nat, steps: nat)
    requires |s| == Pow2(lg) && DistinctKeys(s) && stride % 2 == 1 && steps <= |s|
    requires |Walk(s, start, stride, steps)| == |Entries(s)|
    ensures var w := Walk(s, start, stride, steps);
            && (forall j :: 0 <= j < |w| ==> w[j].0 in Entries(s) && Entries(s)[w[j].0] == w[j].1)
            && (forall j, k :: 0 <= j < k < |w| ==> w[j].0 != w[k].0)
            && KeysOf(w) == Entries(s).Keys
  {
    hide Walk, Slot, Entries, DistinctKeys, Pow2;
    var w := Walk(s, start, stride, steps);
    WalkKeys(s, lg, start, stride, steps);
    SameSet(KeysOf(w), Entries(s).Keys);
  }

  const MAX_SAMPLE_SIZE: nat := 1024

  function SampleSize(numActive: nat): (n: nat) {
    if numActive < MAX_SAMPLE_SIZE then numActive else MAX_SAMPLE_SIZE
  }

  /** At most half of the values, rounded down, are below v, and more than half are at most v. */
  ghost predicate IsMedian(values: seq<nat>, v: nat) {
    SumOf(values, Under(v)) <= |values| / 2 < SumOf(values, AtMost(v))
  }

  /** There is only one such value. */
  lemma MedianIsUnique(values: seq<nat>, v: nat, w: nat)
    requires IsMedian(values, v) && IsMedian(values, w)
    ensures v == w
  {
    hide SumOf;
    if v < w { FewerBelow(values, v, w); }
    if w < v { FewerBelow(values, w, v); }
  }

  lemma {:induction false} FewerBelow(values: seq<nat>, v: nat, w: nat)
    requires v < w
    ensures SumOf(values, AtMost(v)) <= SumOf(values, Under(w))
  {
    if values != [] { FewerBelow(values[..|values| - 1], v, w); }
  }

  /** The values of the first used slots, up to size of them. */
  ghost function SampleOf<K>(s: Table<K>, size: nat): (xs: seq<nat>) {
    var xs := UsedValues(s);
    if size <= |xs| then xs[..size] else xs
  }

  /** The table s1 is s0 with a new entry in the slot where the probe sequence of its key ends. */
  ghost predicate Inserted<K(!new)>(s0: Table<K>, s1: Table<K>, hash: K -> nat, key: K, value: nat) {
    exists i, drift :: 0 <= i < |s0| && PurgeSlots.Found(s0, hash, key, i) && s0[i].Free? && s1 == s0[i := Used(key, value, drift)]
  }

  /** The amount is the median of the sample taken after the insertion. */
  ghost predicate PurgedAfter<K(!new)>(s0: Table<K>, hash: K -> nat, key: K, value: nat, size: nat, amount: nat) {
    exists s1 :: Inserted(s0, s1, hash, key, value) && IsMedian(SampleOf(s1, size), amount)
  }

  /** The amount is the median of the values that some layout of the entries has in its first used slots. */
  ghost predicate SampleMedian<K(!new)>(m: map<K, nat>, amount: nat) {
    exists s: Table<K> :: DistinctKeys(s) && Entries(s) == m && IsMedian(SampleOf(s, SampleSize(|m|)), amount)
  }

  /** Up to 1024 entries the sample is all of them, and the layout plays no part. */
  lemma WholeSample<K(!new)>(m: map<K, nat>, amount: nat)
    requires |m| <= MAX_SAMPLE_SIZE && SampleMedian(m, amount)
    ensures Sum(Mapped(m, Under(amount))) <= |m| / 2 < Sum(Mapped(m, AtMost(amount)))
  {
    hide Entries, DistinctKeys, UsedValues, Sum, SumOf, Mapped;
    var s: Table<K> :| DistinctKeys(s) && Entries(s) == m && IsMedian(SampleOf(s, SampleSize(|m|)), amount);
    assert s[..|s|] == s;
    UsedCount(s, |s|);
    assert SampleOf(s, SampleSize(|m|)) == UsedValues(s) by { assert UsedValues(s)[..|m|] == UsedValues(s); }
    UsedSum(s, |s|, Under(amount));
    UsedSum(s, |s|, AtMost(amount));
  }

  lemma SampleMedianIsUnique<K(!new)>(m: map<K, nat>, v: nat, w: nat)
    requires |m| <= MAX_SAMPLE_SIZE && SampleMedian(m, v) && SampleMedian(m, w)
    ensures v == w
  {
    hide SampleMedian, Sum, Mapped;
    WholeSample(m, v);
    WholeSample(m, w);
    if v < w { FewerEntriesBelow(m, v, w); }
    if w < v { FewerEntriesBelow(m, w, v); }
  }

  lemma FewerEntriesBelow<K(!new)>(m: map<K, nat>, v: nat, w: nat)
    requires v < w
    ensures Sum(Mapped(m, AtMost(v))) <= Sum(Mapped(m, Under(w)))
  {
    hide Sum;
    SumSubmap(Mapped(m, AtMost(v)), Mapped(m, Under(w)));
  }

  /** v for every second element of n, rounded up. */
  function HalfTimes(n: nat, v: nat): (r: nat) {
    (n - n / 2) * v
  }

  /** The values of the used slots, in slot order. */
  ghost function UsedValues<K>(s: Table<K>): (xs: seq<nat>) {
    if s == [] then []
    else UsedValues(s[..|s| - 1]) + if s[|s| - 1].Used? then [s[|s| - 1].value] else []
  }

  lemma NoUsed<K>(s: Table<K>)
    requires s == []
    ensures UsedValues(s) == []
  {}

  lemma UsedSnoc<K>(s: Table<K>, n: nat)
    requires n < |s|
    ensures UsedValues(s[..n + 1]) == UsedValues(s[..n]) + if s[n].Used? then [s[n].value] else []
  {
    assert s[..n + 1][..n] == s[..n];
  }

  /** Summing over the used slots is summing over the entries. */
  lemma {:induction false} UsedSum<K(!new)>(s: Table<K>, n: nat, f: nat -> nat)
    requires DistinctKeys(s) && n <= |s|
    ensures DistinctKeys(s[..n]) && SumOf(UsedValues(s[..n]), f) == Sum(Mapped(Entries(s[..n]), f))
  {
    hide Entries, DistinctKeys, UsedValues, Sum, Mapped, SumOf;
    if n == 0 {
      NoUsed(s[..0]);
      EntriesNone(s[..0]);
      NothingToSum<K>(f);
    } else {
      UsedSum(s, n - 1, f);
      UsedSnoc(s, n - 1);
      EntriesSnoc(s, n - 1);
      if s[n - 1].Used? {
        SumOfConcat(UsedValues(s[..n - 1]), [s[n - 1].value], f);
        SumOfOne(s[n - 1].value, f);
        MappedPut(Entries(s[..n - 1]), s[n - 1].key, s[n - 1].value, f);
      } else {
        assert UsedValues(s[..n]) == UsedValues(s[..n - 1]);
      }
    }
  }

  lemma NothingToSum<K(!new)>(f: nat -> nat)
    ensures SumOf([], f) == 0 && Sum(Mapped<K>(map[], f)) == 0
  {}

  lemma {:induction false} UsedCount<K(!new)>(s: Table<K>, n: nat)
    requires DistinctKeys(s) && n <= |s|
    ensures DistinctKeys(s[..n]) && |UsedValues(s[..n])| == |Entries(s[..n])|
  {
    hide Entries, DistinctKeys, UsedValues;
    if n == 0 {
      NoUsed(s[..0]);
      EntriesNone(s[..0]);
    } else {
      UsedCount(s, n - 1);
      UsedSnoc(s, n - 1);
      EntriesSnoc(s, n - 1);
      if s[n - 1].Used? { AddKey(Entries(s[..n - 1]), s[n - 1].key, s[n - 1].value); }
    }
  }

  /** The used slots of a prefix come first. */
  lemma UsedPrefix<K(!new)>(s: Table<K>, n: nat)
    requires n <= |s|
    ensures UsedValues(s[..n]) == SampleOf(s, |UsedValues(s[..n])|)
  {
    hide UsedValues;
    PrefixOfLonger(s, n, |s|);
    assert s[..|s|] == s;
  }

  lemma {:induction false} PrefixOfLonger<K(!new)>(s: Table<K>, n: nat, m: nat)
    requires n <= m <= |s|
    ensures UsedValues(s[..n]) <= UsedValues(s[..m])
    decreases m
  {
    hide UsedValues;
    if n < m {
      PrefixOfLonger(s, n, m - 1);
      UsedSnoc(s, m - 1);
    }
  }

  /** The middle of the sorted sample is its median. */
  lemma SampledMedian(raw: seq<nat>, sorted: seq<nat>)
    requires multiset(sorted) == multiset(raw) && SortedUpTo(sorted, 0, |sorted|) && |raw| > 0
    ensures |sorted| == |raw| && IsMedian(raw, sorted[|sorted| / 2])
  {
    hide SumOf;
    assert |multiset(sorted)| == |sorted| && |multiset(raw)| == |raw|;
    var h := |sorted| / 2;
    LowerHalf(sorted, h);
    FewUnder(sorted, h);
    SumOfPermutation(sorted, raw, AtMost(sorted[h]));
    SumOfPermutation(sorted, raw, Under(sorted[h]));
  }

  lemma FewUnder(sorted: seq<nat>, h: nat)
    requires SortedUpTo(sorted, 0, |sorted|) && h < |sorted|
    ensures SumOf(sorted, Under(sorted[h])) <= h
  {
    hide SumOf;
    var f := Under(sorted[h]);
    assert sorted == sorted[..h] + sorted[h..];
    SumOfConcat(sorted[..h], sorted[h..], f);
    SumOfAtMost(sorted[..h], f, 1);
    SumOfAtMost(sorted[h..], f, 0);
  }

  /** Half of the sample is at least the median, and the other half, with it, at most the median. */
  lemma MedianSums(sorted: seq<nat>)
    requires SortedUpTo(sorted, 0, |sorted|) && |sorted| > 0
    ensures var n := |sorted|; var median := sorted[n / 2];
            && SumOf(sorted, Capped(median)) >= HalfTimes(n, median)
            && SumOf(sorted, AtMost(median)) >= n / 2 + 1
  {
    UpperHalf(sorted, |sorted| / 2);
    LowerHalf(sorted, |sorted| / 2);
  }

  lemma UpperHalf(sorted: seq<nat>, h: nat)
    requires SortedUpTo(sorted, 0, |sorted|) && h < |sorted|
    ensures SumOf(sorted, Capped(sorted[h])) >= (|sorted| - h) * sorted[h]
  {
    hide SumOf;
    var f, upper := Capped(sorted[h]), sorted[h..];
    assert sorted == sorted[..h] + upper;
    SumOfConcat(sorted[..h], upper, f);
    SumOfAtLeast(upper, f, sorted[h]);
  }

  lemma LowerHalf(sorted: seq<nat>, h: nat)
    requires SortedUpTo(sorted, 0, |sorted|) && h < |sorted|
    ensures SumOf(sorted, AtMost(sorted[h])) >= h + 1
  {
    hide SumOf;
    var f, lower := AtMost(sorted[h]), sorted[..h + 1];
    assert sorted == lower + sorted[h + 1..];
    SumOfConcat(lower, sorted[h + 1..], f);
    SumOfAtLeast(lower, f, 1);
  }

  lemma MedianGain<K(!new)>(s: Table<K>, n: nat, raw: seq<nat>, sorted: seq<nat>)
    requires DistinctKeys(s) && n <= |s| && raw == UsedValues(s[..n]) && |raw| > 0
    requires multiset(sorted) == multiset(raw) && SortedUpTo(sorted, 0, |sorted|) && Positive(Entries(s))
    ensures |sorted| == |raw| && sorted[|sorted| / 2] > 0
    ensures var c := |sorted|; var median := sorted[c / 2];
            && Sum(Mapped(Entries(s), Capped(median))) >= HalfTimes(c, median)
            && Sum(Mapped(Entries(s), AtMost(median))) >= c / 2 + 1
  {
    hide Entries, DistinctKeys, UsedValues, Sum, SumOf, SortedUpTo, HalfTimes;
    assert |multiset(sorted)| == |sorted| && |multiset(raw)| == |raw|;
    var median := sorted[|sorted| / 2];
    MedianSums(sorted);
    SampleSums(s, n, raw, sorted, Capped(median));
    SampleSums(s, n, raw, sorted, AtMost(median));
    assert median in multiset(raw);
    var i :| 0 <= i < |raw| && raw[i] == median;
    UsedPositive(s, n, i);
  }

  lemma SampleSums<K(!new)>(s: Table<K>, n: nat, raw: seq<nat>, sorted: seq<nat>, f: nat -> nat)
    requires DistinctKeys(s) && n <= |s| && raw == UsedValues(s[..n]) && multiset(sorted) == multiset(raw)
    ensures SumOf(sorted, f) <= Sum(Mapped(Entries(s), f))
  {
    hide Entries, DistinctKeys, UsedValues, Sum, SumOf;
    SumOfPermutation(sorted, raw, f);
    UsedSum(s, n, f);
    EntriesSubmap(s, n);
    SumSubmap(Mapped(Entries(s[..n]), f), Mapped(Entries(s), f));
  }

  lemma {:induction false} UsedPositive<K(!new)>(s: Table<K>, n: nat, i: nat)
    requires DistinctKeys(s) && n <= |s| && Positive(Entries(s)) && i < |UsedValues(s[..n])|
    ensures UsedValues(s[..n])[i] > 0
  {
    hide Entries, DistinctKeys, UsedValues;
    if n == 0 { NoUsed(s[..0]); }
    else {
      UsedSnoc(s, n - 1);
      if i < |UsedValues(s[..n - 1])| { UsedPositive(s, n - 1, i); } else { EntriesAt(s, n - 1); }
    }
  }

  /** s is s0 with the slots from p up to first lowered and the gaps closed. */
  ghost predicate Purging<K(!new)>(s0: Table<K>, s: Table<K>, hash: K -> nat, p: nat, first: nat, amount: nat) {
    && |s| == |s0| && first < |s|
    && DistinctKeys(s0) && DistinctKeys(s) && AllPlaced(s, hash)
    && s[first].Free? && s0[first].Free?
    && (forall i :: 0 <= i < |s| && !InArc(p, i, first) ==> s[i] == s0[i])
    && DistinctKeys(Lowered(s0, p, first, amount))
    && Entries(s) == Entries(Lowered(s0, p, first, amount))
  }

  lemma PurgingStart<K(!new)>(s: Table<K>, hash: K -> nat, first: nat, amount: nat)
    requires DistinctKeys(s) && AllPlaced(s, hash) && first < |s| && s[first].Free?
    ensures Purging(s, s, hash, first, first, amount)
  {
    LoweredNone(s, first, amount);
  }

  /** Slot zero and the slot past the last are the same place in the cycle. */
  lemma PurgingWraps<K(!new)>(s0: Table<K>, s: Table<K>, hash: K -> nat, first: nat, amount: nat)
    requires Purging(s0, s, hash, 0, first, amount)
    ensures first < |s|
  {}

  lemma PurgingEnd<K(!new)>(s0: Table<K>, s: Table<K>, hash: K -> nat, first: nat, amount: nat)
    requires first < |s| && Purging(s0, s, hash, Next(first, |s|), first, amount)
    ensures DistinctKeys(s0) && DistinctKeys(s) && AllPlaced(s, hash) && Entries(s) == Purged(Entries(s0), amount)
  {
    LoweredAll(s0, first, amount);
  }

  lemma ArcFromNext(p: nat, first: nat, n: nat)
    requires p < n && first < n && p != first
    ensures forall i :: 0 <= i < n ==> (InArc(p, i, first) <==> i == p || InArc(Next(p, n), i, first))
  {}

  lemma PositiveAdded<K(!new)>(m: map<K, nat>, key: K, value: nat)
    requires Positive(m) && value > 0
    ensures Positive(Added(m, key, value))
  {}

  lemma HoleAhead<K>(s: Table<K>, hash: K -> nat, h: nat, p: nat, stop: nat)
    requires Hole(s, hash, h, p, stop) && s[p].Used?
    ensures p != stop && h != p && s[h].Free? && h != stop && s[stop].Free?
    ensures Dist(h, Next(p, |s|), |s|) == Dist(h, p, |s|) + 1
    ensures Dist(Next(p, |s|), stop, |s|) < Dist(p, stop, |s|)
  {}

  /** s and t agree outside the arc from a up to b. */
  ghost predicate SameOutsideArc<K>(s: Table<K>, t: Table<K>, a: nat, b: nat) {
    |s| == |t| && forall j :: 0 <= j < |s| && !InArc(a, j, b) ==> s[j] == t[j]
  }

  lemma SameArcStart<K>(s: Table<K>, a: nat, b: nat)
    ensures SameOutsideArc(s, s, a, b)
  {}

  lemma SameArcPut<K>(s: Table<K>, t: Table<K>, a: nat, b: nat, p: nat, x: Cell<K>)
    requires SameOutsideArc(s, t, a, b) && p < |s| && InArc(a, p, b)
    ensures SameOutsideArc(s[p := x], t, a, b)
  {}

  lemma SameArcMoved<K>(s: Table<K>, t: Table<K>, a: nat, b: nat, h: nat, p: nat)
    requires SameOutsideArc(s, t, a, b) && h < |s| && p < |s| && InArc(a, h, b) && InArc(a, p, b)
    requires s[p].Used? && s[p].drift >= Dist(h, p, |s|)
    ensures SameOutsideArc(Moved(s, h, p), t, a, b)
  {}

  lemma SameArcWider<K>(s: Table<K>, t: Table<K>, a: nat, b: nat, e: nat)
    requires SameOutsideArc(s, t, a, b) && forall j :: 0 <= j < |s| && InArc(a, j, b) ==> InArc(a, j, e)
    ensures SameOutsideArc(s, t, a, e)
  {}

  lemma SomeRoom(lg: nat)
    requires lg >= 3
    ensures Capacity(lg) + 1 < Pow2(lg) && Pow2(lg) >= 8
  {}

  /** A run of used slots is no longer than the number of entries. */
  lemma ArcCount<K(!new)>(s: Table<K>, home: nat, p: nat)
    requires DistinctKeys(s) && home < |s| && p < |s| && forall j :: 0 <= j < |s| && InArc(home, j, p) ==> s[j].Used?
    ensures Dist(home, p, |s|) <= |Entries(s)|
  {
    var ks := ArcKeys(s, home, p);
    forall k | k in ks ensures k in Entries(s) {
      var j :| 0 <= j < |s| && InArc(home, j, p) && s[j].Used? && s[j].key == k;
      EntriesAt(s, j);
    }
    SubsetSize(ks, Entries(s).Keys);
  }

  lemma {:induction false} ArcKeys<K(!new)>(s: Table<K>, home: nat, p: nat) returns (ks: set<K>)
    requires DistinctKeys(s) && home < |s| && p < |s| && forall j :: 0 <= j < |s| && InArc(home, j, p) ==> s[j].Used?
    ensures |ks| == Dist(home, p, |s|)
    ensures forall k :: k in ks ==> exists j :: 0 <= j < |s| && InArc(home, j, p) && s[j].Used? && s[j].key == k
    decreases Dist(home, p, |s|)
  {
    if home == p {
      ks := {};
    } else {
      var q := if p == 0 then |s| - 1 else p - 1;
      assert forall j :: 0 <= j < |s| ==> (InArc(home, j, p) <==> j == q || InArc(home, j, q));
      ks := ArcKeys(s, home, q);
      assert s[q].key !in ks;
      ks := ks + {s[q].key};
    }
  }
}
