/** The frequent-items sketch of fi/include/frequent_items_sketch_impl.hpp. */
module FrequentItems {
  import opened Words
  import opened Sets
  import opened MapSums
  import opened PurgeMaps

  const LG_MIN_MAP_SIZE: nat := 3

  ghost function Weight<K>(m: map<K, nat>, k: K): (w: nat) {
    if k in m then m[k] else 0
  }

  /** Key by key, the sum of two maps. */
  ghost function Plus<K>(a: map<K, nat>, b: map<K, nat>): (r: map<K, nat>) {
    map k | k in a.Keys + b.Keys :: Weight(a, k) + Weight(b, k)
  }

  /** The counters m are at most the weights of truth and at most offset below them. */
  ghost predicate Bounds<K(!new)>(m: map<K, nat>, offset: nat, truth: map<K, nat>) {
    forall k :: Weight(m, k) <= Weight(truth, k) <= Weight(m, k) + offset
  }

  ghost predicate Summary<K(!new)>(m: map<K, nat>, offset: nat, truth: map<K, nat>, total: nat) {
    Bounds(m, offset, truth) && Sum(truth) == total
  }

  /** How many units of weight every unit of offset has cost. */
  function Share(lgMax: nat): (d: nat) {
    var s := SampleSize(Capacity(lgMax) + 1);
    s - s / 2
  }

  ghost predicate Paid<K(!new)>(lgMax: nat, offset: nat, m: map<K, nat>, total: nat) {
    Share(lgMax) * offset + Sum(m) <= total
  }

  /** Adding a value for a key to the counters m purges by p: nothing unless the key is new and the largest
    * map is full, and then by the median of a sample. */
  ghost predicate Due<K(!new)>(lgMax: nat, m: map<K, nat>, key: K, value: nat, p: nat) {
    && (p > 0 <==> key !in m && |m| == Capacity(lgMax))
    && (p > 0 ==> SampleMedian(Added(m, key, value), p))
  }

  /** The counters m after some entries, with the amounts purged on the way. */
  ghost function Replayed<K(!new)>(m: map<K, nat>, entries: seq<(K, nat)>, purges: seq<nat>): (r: map<K, nat>)
    requires |entries| == |purges|
  {
    if entries == [] then m
    else
      var n := |entries| - 1;
      Purged(Added(Replayed(m, entries[..n], purges[..n]), entries[n].0, entries[n].1), purges[n])
  }

  ghost predicate DueUpTo<K(!new)>(lgMax: nat, m: map<K, nat>, entries: seq<(K, nat)>, purges: seq<nat>, n: nat)
    requires n <= |entries| && n <= |purges|
  {
    forall i :: 0 <= i < n ==> Due(lgMax, Replayed(m, entries[..i], purges[..i]), entries[i].0, entries[i].1, purges[i])
  }

  /** A map of the largest size has room for the keys of both. */
  ghost predicate RoomForKeys<K(!new)>(lgMax: nat, m: map<K, nat>, m2: map<K, nat>) {
    |m.Keys + m2.Keys| <= Capacity(lgMax)
  }

  /** The entries of m2, added in some order to the counters m, purge these amounts and leave r. */
  ghost predicate Absorbed<K(!new)>(lgMax: nat, m: map<K, nat>, m2: map<K, nat>, entries: seq<(K, nat)>, purges: seq<nat>, r: map<K, nat>) {
    && Listing(entries, m2) && |purges| == |entries|
    && r == Replayed(m, entries, purges) && DueUpTo(lgMax, m, entries, purges, |entries|)
  }

  ghost function Total(purges: seq<nat>): (t: nat) {
    if purges == [] then 0 else Total(purges[..|purges| - 1]) + purges[|purges| - 1]
  }

  datatype ErrorType = NoFalsePositives | NoFalseNegatives

  datatype Row<K> = Row(item: K, lower: nat, offset: nat) {
    function Estimate(): (r: nat) { lower + offset }
  }

  class FrequentItemsSketch<K(==, !new)> {
    var totalWeight: nat
    var offset: nat
    const counters: ReversePurgeHashMap<K>
    /** The weight offered for every item so far. */
    ghost var truth: map<K, nat>

    ghost predicate Valid()
      reads this, counters
    {
      counters.Valid() && Summary(counters.Contents(), offset, truth, totalWeight)
    }

    /** The amortised bound: the weight still counted plus a fixed share of the offset never exceeds
      * the total weight. */
    ghost predicate Amortised()
      reads this, counters
    {
      Paid(counters.lgMax, offset, counters.Contents(), totalWeight)
    }

    constructor (lgMax: nat, lgStart: nat, hash: K -> nat)
      requires lgStart <= lgMax
      ensures Valid() && Amortised() && truth == map[] && totalWeight == offset == 0 && fresh(counters) && counters.Contents() == map[]
      ensures counters.lgMax == if lgMax < LG_MIN_MAP_SIZE then LG_MIN_MAP_SIZE else lgMax
      ensures counters.lgCur == if lgStart < LG_MIN_MAP_SIZE then LG_MIN_MAP_SIZE else lgStart
    {
      totalWeight, offset, truth := 0, 0, map[];
      var largest: nat := if lgMax < LG_MIN_MAP_SIZE then LG_MIN_MAP_SIZE else lgMax;
      var first: nat := if lgStart < LG_MIN_MAP_SIZE then LG_MIN_MAP_SIZE else lgStart;
      counters := new ReversePurgeHashMap<K>(first, largest, hash);
    }

    method Update(item: K, weight: nat)
      requires Valid()
      modifies this, counters
      ensures Valid() && (old(Amortised()) ==> Amortised())
      ensures truth == if weight == 0 then old(truth) else Added(old(truth), item, weight)
      ensures totalWeight == old(totalWeight) + weight
      ensures offset >= old(offset)
      ensures offset > old(offset) <==>
              (weight > 0 && item !in old(counters.Contents())
               && old(counters.lgCur) == counters.lgMax && old(counters.numActive) == Capacity(counters.lgMax))
      ensures counters.Contents() == if weight == 0 then old(counters.Contents())
                else Purged(Added(old(counters.Contents()), item, weight), offset - old(offset))
      ensures weight > 0 ==> Due(counters.lgMax, old(counters.Contents()), item, weight, offset - old(offset))
      ensures offset > old(offset) ==>
              PurgedAfter(old(counters.slots), counters.hash, item, weight, SampleSize(Capacity(counters.lgMax) + 1), offset - old(offset))
    {
      hide Summary, Sum, Added, Purged, HalfTimes, SampleSize, Capacity, Paid, SampleMedian, PurgedAfter,
           ReversePurgeHashMap.Valid, ReversePurgeHashMap.Contents;
      FullOnlyIfLargest(counters);
      if weight == 0 { return; }
      ghost var m, t := counters.Contents(), truth;
      totalWeight := totalWeight + weight;
      var purged := counters.AdjustOrInsert(item, weight);
      SummaryStep(m, offset, t, old(totalWeight), item, weight, purged);
      PaidStep(counters.lgMax, offset, m, old(totalWeight), item, weight, purged);
      offset := offset + purged;
      truth := Added(truth, item, weight);
    }

    /** Updates with the entries of a sketch; purges are the amounts purged by them. */
    method UpdateAll(entries: seq<(K, nat)>) returns (ghost purges: seq<nat>)
      requires Valid() && (forall i :: 0 <= i < |entries| ==> entries[i].1 > 0)
      requires forall i, j :: 0 <= i < j < |entries| ==> entries[i].0 != entries[j].0
      modifies this, counters
      ensures Valid() && (old(Amortised()) ==> Amortised())
      ensures truth == Plus(old(truth), Listed(entries))
      ensures |purges| == |entries| && offset == old(offset) + Total(purges)
      ensures counters.Contents() == Replayed(old(counters.Contents()), entries, purges)
      ensures DueUpTo(counters.lgMax, old(counters.Contents()), entries, purges, |entries|)
    {
      hide Summary, Added, Purged, Capacity, Paid, Plus, Listed, Due, DueUpTo, Replayed, Total, PurgedAfter,
           ReversePurgeHashMap.Valid, ReversePurgeHashMap.Contents;
      ghost var m := counters.Contents();
      PlusNone(truth);
      assert entries[..0] == [];
      purges := [];
      NothingReplayed(counters.lgMax, m, entries);
      var i := 0;
      while i < |entries|
        invariant i <= |entries| && Valid() && (old(Amortised()) ==> Amortised())
        invariant truth == Plus(old(truth), Listed(entries[..i]))
        invariant |purges| == i && offset == old(offset) + Total(purges) && counters.Contents() == Replayed(m, entries[..i], purges)
        invariant DueUpTo(counters.lgMax, m, entries, purges, i)
      {
        ListedNext(entries, i);
        PlusPut(old(truth), Listed(entries[..i]), entries[i].0, entries[i].1);
        ghost var before := offset;
        Update(entries[i].0, entries[i].1);
        ReplayedNext(counters.lgMax, m, entries, purges, offset - before);
        purges := purges + [offset - before];
        i := i + 1;
      }
      assert entries[..i] == entries;
    }

    /** A source without counters is ignored, whatever its total weight and offset: the total weight
      * is right exactly when the source has counters or never had any weight. Otherwise its entries are
      * replayed, and the offset grows by that of the source and by what is purged on the way: nothing if
      * all keys have room. The source may be the sketch itself: then no entry is new, so no slot moves
      * and each is read before it grows. */
    method Merge(other: FrequentItemsSketch<K>) returns (ghost entries: seq<(K, nat)>, ghost purges: seq<nat>)
      requires Valid() && other.Valid() && (other == this || other.counters != counters)
      modifies this, counters
      ensures Valid() && (old(Amortised() && other.Amortised()) && counters.lgMax <= other.counters.lgMax ==> Amortised())
      ensures truth == if old(other.counters.numActive) == 0 then old(truth) else Plus(old(truth), old(other.truth))
      ensures old(other.counters.numActive) == 0 ==> counters.Contents() == old(counters.Contents()) && offset == old(offset)
      ensures old(other.counters.numActive) > 0 ==>
        && Absorbed(counters.lgMax, old(counters.Contents()), old(other.counters.Contents()), entries, purges, counters.Contents())
        && offset == old(offset) + Total(purges) + old(other.offset)
      ensures old(other.counters.numActive) > 0
              && RoomForKeys(counters.lgMax, old(counters.Contents()), old(other.counters.Contents())) ==>
        && counters.Contents() == Plus(old(counters.Contents()), old(other.counters.Contents()))
        && offset == old(offset) + old(other.offset)
      ensures totalWeight == old(totalWeight) + if old(other.counters.numActive) == 0 then 0 else old(other.totalWeight)
      ensures totalWeight == old(totalWeight) + old(other.totalWeight) <==>
              (old(other.counters.numActive) > 0 || old(other.totalWeight) == 0)
    {
      hide Summary, Sum, Capacity, Paid, Plus, Listed, Absorbed, RoomForKeys, Replayed, DueUpTo, Total,
           ReversePurgeHashMap.Valid, ReversePurgeHashMap.Contents;
      entries, purges := [], [];
      if other.counters.numActive == 0 { return; }
      var mergedTotalWeight := totalWeight + other.totalWeight;
      ghost var m, m2, t2, w2 := counters.Contents(), other.counters.Contents(), other.truth, other.totalWeight;
      var list := other.counters.AllEntries();
      entries := list;
      ListedAll(entries, m2);
      CounterFacts(counters);
      CounterFacts(other.counters);
      if other == this { SameKeys(m, counters.lgCur, counters.lgMax); }
      purges := UpdateAll(list);
      EnoughRoom(counters.lgMax, m, m2, entries, purges);
      assert other.offset == old(other.offset);
      SummaryMerged(counters.Contents(), offset, totalWeight, old(counters.Contents()), old(offset), old(truth), old(totalWeight),
                    m2, other.offset, t2, w2);
      if old(Amortised() && other.Amortised()) && counters.lgMax <= other.counters.lgMax {
        PaidMerged(counters.lgMax, offset, counters.Contents(), totalWeight, other.counters.lgMax, other.offset, m2, w2);
      }
      offset := offset + other.offset;
      totalWeight := mergedTotalWeight;
      truth := Plus(old(truth), t2);
    }

    /** Update, and what it does to the account of the weights offered. */
    method Account(item: K, weight: nat, ghost offered: map<K, nat>, ghost complete: bool)
      requires Valid() && Accounts(truth, totalWeight, offered, complete)
      modifies this, counters
      ensures Valid() && (old(Amortised()) ==> Amortised())
      ensures Accounts(truth, totalWeight, if weight == 0 then offered else Added(offered, item, weight), complete)
    {
      hide Summary, Paid, Added, Purged, Accounts, Capacity, ReversePurgeHashMap.Valid, ReversePurgeHashMap.Contents;
      AccountsUpdate(truth, totalWeight, offered, complete, item, weight);
      Update(item, weight);
    }

    /** Merge, likewise. */
    method Absorb(other: FrequentItemsSketch<K>, ghost offered: map<K, nat>, ghost complete: bool)
      requires Valid() && other.Valid() && other != this && other.counters != counters
      requires Accounts(truth, totalWeight, offered, complete)
      modifies this, counters
      ensures Valid() && (old(Amortised()) && other.Amortised() && counters.lgMax <= other.counters.lgMax ==> Amortised())
      ensures Accounts(truth, totalWeight, Plus(offered, other.truth),
                       complete && (other.counters.numActive > 0 || other.totalWeight == 0))
    {
      hide Summary, Paid, Plus, Accounts, Capacity, Absorbed, RoomForKeys, Total, ReversePurgeHashMap.Valid, ReversePurgeHashMap.Contents;
      SummarySum(other.counters.Contents(), other.offset, other.truth, other.totalWeight);
      AccountsMerge(truth, totalWeight, offered, complete, other.truth, other.totalWeight, other.counters.numActive > 0);
      ghost var entries, purges := Merge(other);
    }

    method GetEstimate(item: K) returns (estimate: nat)
      requires Valid()
      ensures estimate == if item in counters.Contents() then counters.Contents()[item] + offset else 0
      ensures item in counters.Contents() ==> Weight(truth, item) <= estimate <= Weight(truth, item) + offset
      ensures item !in counters.Contents() ==> estimate == 0 && Weight(truth, item) <= offset
    {
      hide Sum;
      var weight := counters.Get(item);
      assert Weight(counters.Contents(), item) <= Weight(truth, item);
      if item in counters.Contents() { EntryPositive(counters.Contents(), item); }
      estimate := if weight > 0 then weight + offset else 0;
    }

    method GetLowerBound(item: K) returns (bound: nat)
      requires Valid()
      ensures bound == Weight(counters.Contents(), item) && bound <= Weight(truth, item) <= bound + offset
    {
      hide Sum;
      bound := counters.Get(item);
      assert bound == Weight(counters.Contents(), item);
    }

    method GetUpperBound(item: K) returns (bound: nat)
      requires Valid()
      ensures bound == Weight(counters.Contents(), item) + offset && Weight(truth, item) <= bound <= Weight(truth, item) + offset
    {
      hide Sum;
      var weight := counters.Get(item);
      assert weight == Weight(counters.Contents(), item);
      bound := weight + offset;
    }

    /** The tracked items that pass the test, each once, by descending estimate. */
    method GetFrequentItems(errorType: ErrorType, threshold: nat) returns (rows: seq<Row<K>>)
      requires Valid()
      ensures forall k :: Reported(rows, k) <==> Passes(counters.Contents(), offset, errorType, threshold, k)
      ensures forall i, j :: 0 <= i < j < |rows| ==> rows[i].item != rows[j].item && rows[i].Estimate() >= rows[j].Estimate()
      ensures forall i :: 0 <= i < |rows| ==> rows[i].lower <= Weight(truth, rows[i].item) <= rows[i].Estimate()
      ensures errorType == NoFalsePositives ==> forall k :: Reported(rows, k) ==> Weight(truth, k) > threshold
      ensures errorType == NoFalseNegatives && threshold >= offset ==>
                forall k :: Weight(truth, k) > threshold ==> Reported(rows, k)
    {
      hide Sum, Bounds, Reported, Passes, Weight;
      var entries := counters.AllEntries();
      ghost var m := counters.Contents();
      rows := [];
      Collecting0(entries, m, offset, errorType, threshold);
      var i := 0;
      while i < |entries|
        invariant i <= |entries| && Collecting(rows, entries[..i], m, offset, errorType, threshold)
      {
        var lower, upper := entries[i].1, entries[i].1 + offset;
        CollectNext(rows, entries, i, m, offset, errorType, threshold);
        if (errorType == NoFalseNegatives && upper > threshold) || (errorType == NoFalsePositives && lower > threshold) {
          rows := InsertRow(rows, Row(entries[i].0, lower, offset));
        }
        i := i + 1;
      }
      assert entries[..i] == entries;
      Collected(rows, entries, m, offset, truth, errorType, threshold);
    }
  }

  /** A new sketch; null stands for the exception on a first size above the largest one. */
  method MakeSketch<K(==, !new)>(lgMax: nat, lgStart: nat, hash: K -> nat) returns (sketch: FrequentItemsSketch?<K>)
    ensures sketch == null <==> lgStart > lgMax
    ensures sketch != null ==>
      && fresh(sketch) && fresh(sketch.counters) && sketch.Valid() && sketch.Amortised()
      && sketch.truth == map[] && sketch.counters.Contents() == map[] && sketch.totalWeight == sketch.offset == 0
      && sketch.counters.lgMax == (if lgMax < LG_MIN_MAP_SIZE then LG_MIN_MAP_SIZE else lgMax)
      && sketch.counters.lgCur == (if lgStart < LG_MIN_MAP_SIZE then LG_MIN_MAP_SIZE else lgStart)
  {
    if lgStart > lgMax { return null; }
    sketch := new FrequentItemsSketch<K>(lgMax, lgStart, hash);
  }

  // ---------- the bounds ----------

  lemma BoundsAdded<K(!new)>(m: map<K, nat>, offset: nat, truth: map<K, nat>, item: K, weight: nat)
    requires Bounds(m, offset, truth)
    ensures Bounds(Added(m, item, weight), offset, Added(truth, item, weight))
  {
    forall k ensures Weight(Added(m, item, weight), k) <= Weight(Added(truth, item, weight), k)
                       <= Weight(Added(m, item, weight), k) + offset {
      assert Weight(m, k) <= Weight(truth, k) <= Weight(m, k) + offset;
    }
  }

  lemma BoundsPurged<K(!new)>(m: map<K, nat>, offset: nat, truth: map<K, nat>, purged: nat)
    requires Bounds(m, offset, truth)
    ensures Bounds(Purged(m, purged), offset + purged, truth)
  {}

  /** The counters m count truth t1 and the counters m2 within offset; m2 counts t2 within offset2. */
  lemma BoundsMerged<K(!new)>(m: map<K, nat>, offset: nat, t1: map<K, nat>, m2: map<K, nat>, offset2: nat, t2: map<K, nat>)
    requires Bounds(m, offset, Plus(t1, m2)) && Bounds(m2, offset2, t2)
    ensures Bounds(m, offset + offset2, Plus(t1, t2))
  {}

  lemma PlusNone<K(!new)>(a: map<K, nat>)
    ensures Plus(a, Listed<K>([])) == a
  {}

  lemma PlusPut<K(!new)>(a: map<K, nat>, b: map<K, nat>, k: K, v: nat)
    requires k !in b
    ensures Added(Plus(a, b), k, v) == Plus(a, b[k := v])
  {}

  lemma {:induction false} SumPlus<K(!new)>(a: map<K, nat>, b: map<K, nat>)
    ensures Sum(Plus(a, b)) == Sum(a) + Sum(b)
    decreases |b|
  {
    hide Sum, Plus, Added;
    if b == map[] {
      PlusNone(a);
      assert Listed<K>([]) == b;
      SumNone(b);
    } else {
      var k :| k in b;
      var rest := b - {k};
      assert |rest| == |b| - 1 by { assert rest.Keys == b.Keys - {k}; }
      assert b == rest[k := b[k]];
      SumPlus(a, rest);
      PlusPut(a, rest, k, b[k]);
      SumAdded(Plus(a, rest), k, b[k]);
      SumRemove(b, k);
    }
  }

  lemma SumNone<K(!new)>(m: map<K, nat>)
    requires m == map[]
    ensures Sum(m) == 0
  {}

  lemma SumAdded<K(!new)>(m: map<K, nat>, k: K, v: nat)
    ensures Sum(Added(m, k, v)) == Sum(m) + v
  {
    hide Sum;
    SumPut(m, k, (if k in m then m[k] else 0) + v);
  }

  lemma SummaryStep<K(!new)>(m: map<K, nat>, offset: nat, truth: map<K, nat>, total: nat, item: K, weight: nat, purged: nat)
    requires Summary(m, offset, truth, total)
    ensures Summary(Purged(Added(m, item, weight), purged), offset + purged, Added(truth, item, weight), total + weight)
  {
    hide Sum, Bounds, Added, Purged;
    BoundsAdded(m, offset, truth, item, weight);
    BoundsPurged(Added(m, item, weight), offset, Added(truth, item, weight), purged);
    SumAdded(truth, item, weight);
  }

  lemma SummaryMerged<K(!new)>(m: map<K, nat>, offset: nat, total: nat, m1: map<K, nat>, offset1: nat, t1: map<K, nat>, total1: nat,
                               m2: map<K, nat>, offset2: nat, t2: map<K, nat>, total2: nat)
    requires Summary(m, offset, Plus(t1, m2), total) && Summary(m2, offset2, t2, total2) && Summary(m1, offset1, t1, total1)
    ensures Summary(m, offset + offset2, Plus(t1, t2), total1 + total2)
    ensures total == total1 + Sum(m2)
  {
    hide Sum, Bounds, Plus;
    BoundsMerged(m, offset, t1, m2, offset2, t2);
    SumPlus(t1, m2);
    SumPlus(t1, t2);
  }

  // ---------- the amortised bound ----------

  lemma PaidStep<K(!new)>(lgMax: nat, offset: nat, m: map<K, nat>, total: nat, item: K, weight: nat, purged: nat)
    requires purged > 0 ==> HalfTimes(SampleSize(Capacity(lgMax) + 1), purged) + Sum(Purged(Added(m, item, weight), purged))
                              <= Sum(Added(m, item, weight))
    ensures Paid(lgMax, offset, m, total) ==>
              Paid(lgMax, offset + purged, Purged(Added(m, item, weight), purged), total + weight)
  {
    hide Sum, Added, Purged, SampleSize, Capacity;
    SumAdded(m, item, weight);
    var s := SampleSize(Capacity(lgMax) + 1);
    Distribute(s - s / 2, offset, purged);
    if purged == 0 {
      PurgedSubmap(Added(m, item, weight), purged);
    }
  }

  lemma Distribute(d: nat, x: nat, y: nat)
    ensures d * (x + y) == d * x + d * y
  {}

  lemma PurgedSubmap<K(!new)>(m: map<K, nat>, purged: nat)
    ensures Sum(Purged(m, purged)) <= Sum(m)
  {
    hide Sum;
    SumSubmap(Purged(m, purged), m);
  }

  lemma PaidMerged<K(!new)>(lg: nat, offset: nat, m: map<K, nat>, total: nat,
                            lg2: nat, offset2: nat, m2: map<K, nat>, total2: nat)
    requires Paid(lg, offset, m, total) && Paid(lg2, offset2, m2, total2) && lg <= lg2 && total >= Sum(m2)
    ensures Paid(lg, offset + offset2, m, total - Sum(m2) + total2)
  {
    hide Sum, Share;
    ShareMono(lg, lg2);
    Distribute(Share(lg), offset, offset2);
    MulMono(Share(lg), Share(lg2), offset2);
  }

  lemma ShareMono(lg: nat, lg2: nat)
    requires lg <= lg2
    ensures Share(lg) <= Share(lg2)
  {
    hide Pow2;
    Pow2Mono(lg, lg2);
  }

  /** A sketch of at most 1024 slots meets the a-priori error of 3.5 / 2^lgMax times the total weight. */
  lemma AprioriError<K(!new)>(lgMax: nat, offset: nat, m: map<K, nat>, total: nat)
    requires 3 <= lgMax <= 10 && Paid(lgMax, offset, m, total)
    ensures 2 * Pow2(lgMax) * offset <= 7 * total
  {
    hide Sum;
    Pow2Mono(3, lgMax);
    Pow2Mono(lgMax, 10);
    ShareBound(lgMax);
    hide Share, Pow2;
    ScaledBound(2 * Pow2(lgMax), Share(lgMax), offset);
  }

  lemma ShareBound(lgMax: nat)
    requires 8 <= Pow2(lgMax) <= 1024
    ensures 2 * Pow2(lgMax) <= 7 * Share(lgMax)
  {}

  lemma ScaledBound(a: nat, d: nat, offset: nat)
    requires a <= 7 * d
    ensures a * offset <= 7 * (d * offset)
  {}

  // ---------- the entries of the source of a merge ----------

  ghost function Listed<K>(entries: seq<(K, nat)>): (m: map<K, nat>) {
    if entries == [] then map[]
    else var x := entries[|entries| - 1]; Listed(entries[..|entries| - 1])[x.0 := x.1]
  }

  lemma {:induction false} ListedKeys<K(!new)>(entries: seq<(K, nat)>)
    ensures Listed(entries).Keys == KeysOf(entries)
  {
    if entries == [] {
    } else {
      var front, x := entries[..|entries| - 1], entries[|entries| - 1];
      ListedKeys(front);
      assert KeysOf(entries) == KeysOf(front) + {x.0};
    }
  }

  lemma ListedNext<K(!new)>(entries: seq<(K, nat)>, i: nat)
    requires i < |entries| && forall j, k :: 0 <= j < k < |entries| ==> entries[j].0 != entries[k].0
    ensures entries[i].0 !in Listed(entries[..i])
    ensures Listed(entries[..i + 1]) == Listed(entries[..i])[entries[i].0 := entries[i].1]
  {
    ListedKeys(entries[..i]);
    assert entries[..i + 1][..i] == entries[..i];
  }

  lemma {:induction false} ListedValues<K(!new)>(entries: seq<(K, nat)>, m: map<K, nat>, k: K)
    requires forall i :: 0 <= i < |entries| ==> entries[i].0 in m && m[entries[i].0] == entries[i].1
    requires k in Listed(entries)
    ensures k in m && Listed(entries)[k] == m[k]
  {
    var x := entries[|entries| - 1];
    if k != x.0 { ListedValues(entries[..|entries| - 1], m, k); }
  }

  lemma ListedAll<K(!new)>(entries: seq<(K, nat)>, m: map<K, nat>)
    requires forall i :: 0 <= i < |entries| ==> entries[i].0 in m && m[entries[i].0] == entries[i].1
    requires KeysOf(entries) == m.Keys
    ensures Listed(entries) == m
  {
    hide Listed;
    ListedKeys(entries);
    forall k | k in Listed(entries) ensures Listed(entries)[k] == m[k] { ListedValues(entries, m, k); }
  }

  /** entries lists every entry of m once. */
  ghost predicate Listing<K(!new)>(entries: seq<(K, nat)>, m: map<K, nat>) {
    && (forall i, j :: 0 <= i < j < |entries| ==> entries[i].0 != entries[j].0)
    && Listed(entries) == m
  }

  lemma NothingReplayed<K(!new)>(lgMax: nat, m: map<K, nat>, entries: seq<(K, nat)>)
    ensures Replayed(m, entries[..0], []) == m && Total([]) == 0 && DueUpTo(lgMax, m, entries, [], 0)
  {}

  lemma ReplayedNext<K(!new)>(lgMax: nat, m: map<K, nat>, entries: seq<(K, nat)>, purges: seq<nat>, p: nat)
    requires |purges| < |entries| && DueUpTo(lgMax, m, entries, purges, |purges|)
    requires Due(lgMax, Replayed(m, entries[..|purges|], purges), entries[|purges|].0, entries[|purges|].1, p)
    ensures var i := |purges|;
            && Replayed(m, entries[..i + 1], purges + [p]) == Purged(Added(Replayed(m, entries[..i], purges), entries[i].0, entries[i].1), p)
            && Total(purges + [p]) == Total(purges) + p && DueUpTo(lgMax, m, entries, purges + [p], i + 1)
  {
    hide Due, Purged, Added;
    var i := |purges|;
    var longer := purges + [p];
    assert longer[..i] == purges && entries[..i + 1][..i] == entries[..i];
    forall j | 0 <= j < i + 1
      ensures Due(lgMax, Replayed(m, entries[..j], longer[..j]), entries[j].0, entries[j].1, longer[j])
    {
      if j < i { assert longer[..j] == purges[..j]; }
    }
  }

  /** If all keys have room, nothing is purged and the counters are added key by key. */
  lemma EnoughRoom<K(!new)>(lgMax: nat, m: map<K, nat>, m2: map<K, nat>, entries: seq<(K, nat)>, purges: seq<nat>)
    requires Positive(m) && Positive(m2) && |purges| == |entries| && Listed(entries) == m2
    requires forall i, j :: 0 <= i < j < |entries| ==> entries[i].0 != entries[j].0
    requires DueUpTo(lgMax, m, entries, purges, |entries|)
    ensures Absorbed(lgMax, m, m2, entries, purges, Replayed(m, entries, purges))
    ensures RoomForKeys(lgMax, m, m2) ==> Replayed(m, entries, purges) == Plus(m, m2) && Total(purges) == 0
  {
    hide RoomForKeys, Listed, Replayed, Plus, DueUpTo, Total;
    if RoomForKeys(lgMax, m, m2) {
      assert entries[..|entries|] == entries && purges[..|purges|] == purges;
      RoomAllAlong(lgMax, m, m2, entries, purges, |entries|);
    }
  }

  lemma {:induction false} RoomAllAlong<K(!new)>(lgMax: nat, m: map<K, nat>, m2: map<K, nat>, entries: seq<(K, nat)>, purges: seq<nat>, n: nat)
    requires Positive(m) && Positive(m2) && Listing(entries, m2) && |purges| == |entries| && n <= |entries|
    requires DueUpTo(lgMax, m, entries, purges, |entries|) && RoomForKeys(lgMax, m, m2)
    ensures Replayed(m, entries[..n], purges[..n]) == Plus(m, Listed(entries[..n])) && Total(purges[..n]) == 0
  {
    hide RoomForKeys, Plus, Purged, Added, Listed, Listing, Due;
    ListingIs(entries, m2);
    if n == 0 {
      PlusNone(m);
      assert entries[..0] == [];
    } else {
      var i := n - 1;
      RoomAllAlong(lgMax, m, m2, entries, purges, i);
      ListedNext(entries, i);
      assert entries[..n][..i] == entries[..i] && purges[..n][..i] == purges[..i];
      var soFar := Listed(entries[..i]);
      RoomForOne(lgMax, m, m2, entries, i, purges[i]);
      PlusPut(m, soFar, entries[i].0, entries[i].1);
    }
  }

  lemma ListingIs<K(!new)>(entries: seq<(K, nat)>, m: map<K, nat>)
    requires Listing(entries, m)
    ensures (forall i, j :: 0 <= i < j < |entries| ==> entries[i].0 != entries[j].0) && Listed(entries) == m
  {}

  lemma RoomForOne<K(!new)>(lgMax: nat, m: map<K, nat>, m2: map<K, nat>, entries: seq<(K, nat)>, i: nat, p: nat)
    requires Positive(m) && Positive(m2) && Listing(entries, m2) && i < |entries| && RoomForKeys(lgMax, m, m2)
    requires Due(lgMax, Plus(m, Listed(entries[..i])), entries[i].0, entries[i].1, p)
    ensures p == 0
    ensures Purged(Added(Plus(m, Listed(entries[..i])), entries[i].0, entries[i].1), 0)
         == Added(Plus(m, Listed(entries[..i])), entries[i].0, entries[i].1)
  {
    hide Capacity, Listed, Listing, SampleMedian, Plus, Added, Purged, Positive;
    var soFar, key, value := Listed(entries[..i]), entries[i].0, entries[i].1;
    PartOf(entries, m2, i);
    EntryPositive(m2, key);
    KeysSoFar(m, m2, soFar, key);
    PlusPositive(m, m2, soFar);
    PositiveAdded(Plus(m, soFar), key, value);
    NotPurged(Added(Plus(m, soFar), key, value));
  }

  lemma KeysSoFar<K(!new)>(m: map<K, nat>, m2: map<K, nat>, soFar: map<K, nat>, key: K)
    requires soFar.Keys <= m2.Keys && key in m2
    ensures key !in Plus(m, soFar) ==> |Plus(m, soFar)| < |m.Keys + m2.Keys|
  {
    PlusKeys(m, soFar);
    hide Plus;
    var keys := Plus(m, soFar).Keys;
    if key !in keys { SubsetSize(keys + {key}, m.Keys + m2.Keys); }
  }

  lemma PlusKeys<K(!new)>(a: map<K, nat>, b: map<K, nat>)
    ensures Plus(a, b).Keys == a.Keys + b.Keys
    ensures |Plus(a, b)| == |Plus(a, b).Keys|
  {}

  lemma PlusPositive<K(!new)>(m: map<K, nat>, m2: map<K, nat>, soFar: map<K, nat>)
    requires Positive(m) && Positive(m2) && forall k :: k in soFar ==> k in m2 && soFar[k] == m2[k]
    ensures Positive(Plus(m, soFar))
  {}

  lemma PartOf<K(!new)>(entries: seq<(K, nat)>, m2: map<K, nat>, i: nat)
    requires Listing(entries, m2) && i < |entries|
    ensures entries[i].0 in m2 && m2[entries[i].0] == entries[i].1
    ensures forall k :: k in Listed(entries[..i]) ==> k in m2 && Listed(entries[..i])[k] == m2[k]
  {
    hide Listed;
    ListingIs(entries, m2);
    assert entries[..|entries|] == entries;
    ListedGrows(entries, i, |entries|);
    ListedGrows(entries, i + 1, |entries|);
    ListedNext(entries, i);
  }

  lemma {:induction false} ListedGrows<K(!new)>(entries: seq<(K, nat)>, i: nat, n: nat)
    requires i <= n <= |entries| && forall j, k :: 0 <= j < k < |entries| ==> entries[j].0 != entries[k].0
    ensures forall k :: k in Listed(entries[..i]) ==> k in Listed(entries[..n]) && Listed(entries[..i])[k] == Listed(entries[..n])[k]
    decreases n
  {
    hide Listed;
    if i < n {
      ListedGrows(entries, i, n - 1);
      ListedNext(entries, n - 1);
    }
  }

  lemma SameKeys<K(!new)>(m: map<K, nat>, lg: nat, lgMax: nat)
    requires |m| <= Capacity(lg) && lg <= lgMax
    ensures RoomForKeys(lgMax, m, m)
  {
    Pow2Mono(lg, lgMax);
    assert m.Keys + m.Keys == m.Keys;
  }

  /** Up to 1024 slots the amounts purged, and so the result, depend on the counters and the entries alone. */
  lemma {:induction false} PurgesAreUnique<K(!new)>(lgMax: nat, m: map<K, nat>, entries: seq<(K, nat)>, a: seq<nat>, b: seq<nat>, n: nat)
    requires lgMax <= 10 && |a| == |b| == |entries| && n <= |entries|
    requires DueUpTo(lgMax, m, entries, a, |entries|) && DueUpTo(lgMax, m, entries, b, |entries|)
    ensures a[..n] == b[..n]
  {
    hide Replayed, Due;
    if n > 0 {
      var i := n - 1;
      PurgesAreUnique(lgMax, m, entries, a, b, i);
      DueIsUnique(lgMax, Replayed(m, entries[..i], a[..i]), entries[i].0, entries[i].1, a[i], b[i]);
      assert a[..n] == a[..i] + [a[i]] && b[..n] == b[..i] + [b[i]];
    }
  }

  lemma DueIsUnique<K(!new)>(lgMax: nat, m: map<K, nat>, key: K, value: nat, p: nat, q: nat)
    requires lgMax <= 10 && Due(lgMax, m, key, value, p) && Due(lgMax, m, key, value, q)
    ensures p == q
  {
    hide SampleMedian;
    if p > 0 {
      DriftFits(lgMax);
      assert Added(m, key, value).Keys == m.Keys + {key};
      SampleMedianIsUnique(Added(m, key, value), p, q);
    }
  }

  lemma FullOnlyIfLargest<K(!new)>(counters: ReversePurgeHashMap<K>)
    requires counters.Valid()
    ensures counters.numActive == |counters.Contents()|
    ensures counters.numActive == Capacity(counters.lgMax) ==> counters.lgCur == counters.lgMax
  {
    if counters.lgCur < counters.lgMax { CapacityLess(counters.lgCur, counters.lgMax); }
  }

  lemma CapacityLess(lg: nat, lgMax: nat)
    requires 3 <= lg < lgMax
    ensures Capacity(lg) < Capacity(lgMax)
  {
    Pow2Mono(3, lg);
    Pow2Values();
    Pow2Mono(lg + 1, lgMax);
  }

  lemma EntryPositive<K(!new)>(m: map<K, nat>, k: K)
    requires Positive(m) && k in m
    ensures m[k] > 0
  {}

  // ---------- the frequent items ----------

  /** The test an item passes to be reported. */
  ghost predicate Passes<K>(m: map<K, nat>, offset: nat, errorType: ErrorType, threshold: nat, k: K) {
    k in m && match errorType
              case NoFalseNegatives => m[k] + offset > threshold
              case NoFalsePositives => m[k] > threshold
  }

  ghost predicate Reported<K>(rows: seq<Row<K>>, k: K) {
    exists i :: 0 <= i < |rows| && rows[i].item == k
  }

  ghost predicate Ordered<K>(rows: seq<Row<K>>) {
    forall i, j :: 0 <= i < j < |rows| ==> rows[i].item != rows[j].item && rows[i].Estimate() >= rows[j].Estimate()
  }

  /** The row into its place by descending estimate. */
  function InsertRow<K(!new)>(rows: seq<Row<K>>, row: Row<K>): (r: seq<Row<K>>)
    ensures forall x :: x in r <==> x in rows || x == row
  {
    if rows == [] || row.Estimate() >= rows[0].Estimate() then [row] + rows
    else
      assert rows == [rows[0]] + rows[1..];
      [rows[0]] + InsertRow(rows[1..], row)
  }

  lemma {:induction false} InsertRowOrdered<K(!new)>(rows: seq<Row<K>>, row: Row<K>)
    requires Ordered(rows) && !Reported(rows, row.item)
    ensures Ordered(InsertRow(rows, row))
  {
    if rows == [] || row.Estimate() >= rows[0].Estimate() {
    } else {
      var tail := rows[1..];
      assert !Reported(tail, row.item);
      InsertRowOrdered(tail, row);
      var r := InsertRow(tail, row);
      forall j | 0 <= j < |r| ensures rows[0].item != r[j].item && rows[0].Estimate() >= r[j].Estimate() {
        assert r[j] in r;
        if r[j] in tail { var i :| 0 <= i < |tail| && tail[i] == r[j]; assert rows[i + 1] == r[j]; }
      }
    }
  }

  /** rows lists exactly the entries seen that pass. */
  ghost predicate Collecting<K(!new)>(rows: seq<Row<K>>, seen: seq<(K, nat)>, m: map<K, nat>, offset: nat,
                                      errorType: ErrorType, threshold: nat) {
    && Ordered(rows)
    && (forall x :: x in rows ==> x.item in m && x.lower == m[x.item] && x.offset == offset)
    && (forall k :: Reported(rows, k) <==> k in KeysOf(seen) && Passes(m, offset, errorType, threshold, k))
  }

  lemma Collecting0<K(!new)>(entries: seq<(K, nat)>, m: map<K, nat>, offset: nat, errorType: ErrorType, threshold: nat)
    ensures Collecting([], entries[..0], m, offset, errorType, threshold)
  {}

  lemma CollectNext<K(!new)>(rows: seq<Row<K>>, entries: seq<(K, nat)>, i: nat, m: map<K, nat>, offset: nat,
                             errorType: ErrorType, threshold: nat)
    requires i < |entries| && Collecting(rows, entries[..i], m, offset, errorType, threshold)
    requires forall j, k :: 0 <= j < k < |entries| ==> entries[j].0 != entries[k].0
    requires entries[i].0 in m && m[entries[i].0] == entries[i].1
    ensures Passes(m, offset, errorType, threshold, entries[i].0) <==>
              ((errorType == NoFalseNegatives && entries[i].1 + offset > threshold)
               || (errorType == NoFalsePositives && entries[i].1 > threshold))
    ensures Collecting(if Passes(m, offset, errorType, threshold, entries[i].0)
                       then InsertRow(rows, Row(entries[i].0, entries[i].1, offset)) else rows,
                       entries[..i + 1], m, offset, errorType, threshold)
  {
    var k := entries[i].0;
    assert KeysOf(entries[..i + 1]) == KeysOf(entries[..i]) + {k};
    assert k !in KeysOf(entries[..i]);
    if Passes(m, offset, errorType, threshold, k) {
      var row := Row(k, entries[i].1, offset);
      InsertRowOrdered(rows, row);
      InsertRowReports(rows, row);
    }
  }

  lemma InsertRowReports<K(!new)>(rows: seq<Row<K>>, row: Row<K>)
    ensures forall k :: Reported(InsertRow(rows, row), k) <==> Reported(rows, k) || k == row.item
  {
    var r := InsertRow(rows, row);
    assert row in r;
    forall k ensures Reported(r, k) <==> Reported(rows, k) || k == row.item {
      ReportedBy(r, k);
      ReportedBy(rows, k);
    }
  }

  lemma ReportedBy<K(!new)>(rows: seq<Row<K>>, k: K)
    ensures Reported(rows, k) <==> exists x :: x in rows && x.item == k
  {}

  lemma Collected<K(!new)>(rows: seq<Row<K>>, entries: seq<(K, nat)>, m: map<K, nat>, offset: nat, truth: map<K, nat>,
                           errorType: ErrorType, threshold: nat)
    requires Collecting(rows, entries, m, offset, errorType, threshold) && Bounds(m, offset, truth)
    requires KeysOf(entries) == m.Keys
    ensures forall k :: Reported(rows, k) <==> Passes(m, offset, errorType, threshold, k)
    ensures forall i, j :: 0 <= i < j < |rows| ==> rows[i].item != rows[j].item && rows[i].Estimate() >= rows[j].Estimate()
    ensures forall i :: 0 <= i < |rows| ==> rows[i].lower <= Weight(truth, rows[i].item) <= rows[i].Estimate()
    ensures errorType == NoFalsePositives ==> forall k :: Reported(rows, k) ==> Weight(truth, k) > threshold
    ensures errorType == NoFalseNegatives && threshold >= offset ==>
              forall k :: Weight(truth, k) > threshold ==> Reported(rows, k)
  {}

  // ---------- whole runs ----------

  /** A run of one sketch: its size, then updates and merges of other sketches. */
  datatype History<K(!new)> = Fresh(lgMax: nat)
                      | Updated(before: History<K>, item: K, weight: nat)
                      | Merged(before: History<K>, source: FrequentItemsSketch<K>)

  /** The sketches merged in a run. */
  ghost function Merges<K(!new)>(h: History<K>): (r: set<FrequentItemsSketch<K>>) {
    match h
    case Fresh(_) => {}
    case Updated(before, _, _) => Merges(before)
    case Merged(before, source) => Merges(before) + {source}
  }

  ghost function CountersOf<K(!new)>(h: History<K>): (r: set<ReversePurgeHashMap<K>>)
    ensures forall x :: x in Merges(h) ==> x.counters in r
  {
    match h
    case Fresh(_) => {}
    case Updated(before, _, _) => CountersOf(before)
    case Merged(before, source) => CountersOf(before) + {source.counters}
  }

  function LgMax<K(!new)>(h: History<K>): (lg: nat) {
    match h
    case Fresh(lgMax) => if lgMax < LG_MIN_MAP_SIZE then LG_MIN_MAP_SIZE else lgMax
    case Updated(before, _, _) => LgMax(before)
    case Merged(before, _) => LgMax(before)
  }

  /** The weight a run offers for every item. */
  ghost function Offered<K(!new)>(h: History<K>): (m: map<K, nat>)
    reads Merges(h)
  {
    match h
    case Fresh(_) => map[]
    case Updated(before, item, weight) => if weight == 0 then Offered(before) else Added(Offered(before), item, weight)
    case Merged(before, source) => Plus(Offered(before), source.truth)
  }

  ghost predicate AllValid<K(!new)>(h: History<K>)
    reads Merges(h), CountersOf(h)
  {
    forall x :: x in Merges(h) ==> x.Valid()
  }

  /** Every sketch merged has counters, or never had any weight. */
  ghost predicate NoneEmptied<K(!new)>(h: History<K>)
    reads Merges(h), CountersOf(h)
  {
    forall x :: x in Merges(h) ==> x.counters.numActive > 0 || x.totalWeight == 0
  }

  /** Every sketch merged meets the amortised bound and has at least as large a map. */
  ghost predicate AllLarge<K(!new)>(h: History<K>)
    reads Merges(h), CountersOf(h)
  {
    forall x :: x in Merges(h) ==> x.Amortised() && LgMax(h) <= x.counters.lgMax
  }

  /** What a run leaves: its weights are at most those offered, and all of them if and only if no sketch
    * merged had been emptied. */
  ghost predicate Accounts<K(!new)>(truth: map<K, nat>, total: nat, offered: map<K, nat>, complete: bool) {
    && (forall k :: Weight(truth, k) <= Weight(offered, k))
    && total <= Sum(offered) && (total == Sum(offered) <==> complete)
    && (complete ==> forall k :: Weight(truth, k) == Weight(offered, k))
  }

  /** Every run of updates and merges keeps the lower bound. The upper bound holds as well, and the total
    * weight is right, if no sketch merged had been emptied by a purge; the total weight only then. With
    * sources of at least the same size the amortised bound holds, and up to 1024 slots the a-priori error. */
  method Run<K(==, !new)>(hash: K -> nat, h: History<K>) returns (sketch: FrequentItemsSketch<K>)
    requires AllValid(h)
    ensures fresh(sketch) && fresh(sketch.counters) && sketch.Valid() && sketch.counters.lgMax == LgMax(h)
    ensures Accounts(sketch.truth, sketch.totalWeight, Offered(h), NoneEmptied(h))
    ensures forall k :: Weight(sketch.counters.Contents(), k) <= Weight(Offered(h), k)
    ensures NoneEmptied(h) ==> forall k :: Weight(Offered(h), k) <= Weight(sketch.counters.Contents(), k) + sketch.offset
    ensures sketch.totalWeight == Sum(Offered(h)) <==> NoneEmptied(h)
    ensures AllLarge(h) ==> sketch.Amortised()
    ensures AllLarge(h) && LgMax(h) <= 10 ==> 2 * Pow2(LgMax(h)) * sketch.offset <= 7 * sketch.totalWeight
    decreases h
  {
    hide Summary, Paid, Pow2, Capacity, Added, Purged, Plus, Sum, Accounts, Offered, NoneEmptied, AllLarge,
         ReversePurgeHashMap.Valid, ReversePurgeHashMap.Contents;
    ghost var offered, complete, large := Offered(h), NoneEmptied(h), AllLarge(h);
    MergesExist(h);
    match h {
      case Fresh(lgMax) =>
        FreshIs<K>(lgMax);
        sketch := new FrequentItemsSketch<K>(lgMax, 0, hash);
        AccountsFresh<K>();
      case Updated(before, item, weight) =>
        UpdatedIs(before, item, weight);
        MergesExist(before);
        sketch := Run(hash, before);
        sketch.Account(item, weight, Offered(before), NoneEmptied(before));
      case Merged(before, source) =>
        MergedIs(before, source);
        MergesExist(before);
        sketch := Run(hash, before);
        sketch.Absorb(source, Offered(before), NoneEmptied(before));
    }
    assert Offered(h) == offered && NoneEmptied(h) == complete && AllLarge(h) == large;
    AccountsBounds(sketch.counters.Contents(), sketch.offset, sketch.truth, sketch.totalWeight, offered, complete);
    if large && LgMax(h) <= 10 {
      AtLeastEight(h);
      AprioriError(LgMax(h), sketch.offset, sketch.counters.Contents(), sketch.totalWeight);
    }
  }

  lemma {:induction false} MergesExist<K(!new)>(h: History<K>)
    ensures forall x :: x in Merges(h) ==> allocated(x)
    ensures forall x :: x in CountersOf(h) ==> allocated(x)
  {
    match h
    case Fresh(_) =>
    case Updated(before, _, _) => MergesExist(before);
    case Merged(before, source) => MergesExist(before);
  }

  lemma AtLeastEight<K(!new)>(h: History<K>)
    ensures LgMax(h) >= 3
  {}

  lemma FreshIs<K(!new)>(lgMax: nat)
    ensures var h: History<K> := Fresh(lgMax); Offered(h) == map[] && NoneEmptied(h) && AllLarge(h)
  {}

  lemma UpdatedIs<K(!new)>(before: History<K>, item: K, weight: nat)
    ensures var h := Updated(before, item, weight);
            && Offered(h) == (if weight == 0 then Offered(before) else Added(Offered(before), item, weight))
            && NoneEmptied(h) == NoneEmptied(before) && AllLarge(h) == AllLarge(before) && AllValid(h) == AllValid(before)
            && LgMax(h) == LgMax(before)
  {}

  lemma MergedIs<K(!new)>(before: History<K>, source: FrequentItemsSketch<K>)
    ensures var h := Merged(before, source);
            && Offered(h) == Plus(Offered(before), source.truth)
            && (NoneEmptied(h) <==> NoneEmptied(before) && (source.counters.numActive > 0 || source.totalWeight == 0))
            && (AllLarge(h) <==> AllLarge(before) && source.Amortised() && LgMax(before) <= source.counters.lgMax)
            && (AllValid(h) <==> AllValid(before) && source.Valid()) && LgMax(h) == LgMax(before)
  {
    hide Summary, Paid, Plus, Sum, ReversePurgeHashMap.Valid, ReversePurgeHashMap.Contents;
  }

  lemma AccountsFresh<K(!new)>()
    ensures Accounts<K>(map[], 0, map[], true)
  {}

  lemma AccountsUpdate<K(!new)>(truth: map<K, nat>, total: nat, offered: map<K, nat>, complete: bool, item: K, weight: nat)
    requires Accounts(truth, total, offered, complete)
    ensures Accounts(Added(truth, item, weight), total + weight, Added(offered, item, weight), complete)
  {
    hide Sum;
    SumAdded(offered, item, weight);
    forall k ensures Weight(Added(truth, item, weight), k) == Weight(truth, k) + (if k == item then weight else 0)
             ensures Weight(Added(offered, item, weight), k) == Weight(offered, k) + (if k == item then weight else 0) {}
  }

  lemma AccountsMerge<K(!new)>(truth: map<K, nat>, total: nat, offered: map<K, nat>, complete: bool,
                               source: map<K, nat>, sourceTotal: nat, active: bool)
    requires Accounts(truth, total, offered, complete) && Sum(source) == sourceTotal
    ensures Accounts(if active then Plus(truth, source) else truth, if active then total + sourceTotal else total,
                     Plus(offered, source), complete && (active || sourceTotal == 0))
  {
    hide Sum, Plus;
    SumPlus(offered, source);
    forall k ensures Weight(Plus(truth, source), k) == Weight(truth, k) + Weight(source, k)
             ensures Weight(Plus(offered, source), k) == Weight(offered, k) + Weight(source, k)
             ensures Weight(source, k) <= sourceTotal {
      PlusWeight(truth, source, k);
      PlusWeight(offered, source, k);
      if k in source { SumRemove(source, k); }
    }
  }

  lemma PlusWeight<K(!new)>(a: map<K, nat>, b: map<K, nat>, k: K)
    ensures Weight(Plus(a, b), k) == Weight(a, k) + Weight(b, k)
  {}

  lemma AccountsBounds<K(!new)>(m: map<K, nat>, offset: nat, truth: map<K, nat>, total: nat, offered: map<K, nat>, complete: bool)
    requires Summary(m, offset, truth, total) && Accounts(truth, total, offered, complete)
    ensures forall k :: Weight(m, k) <= Weight(offered, k)
    ensures complete ==> forall k :: Weight(offered, k) <= Weight(m, k) + offset
    ensures total == Sum(offered) <==> complete
  {
    hide Sum;
    forall k ensures Weight(m, k) <= Weight(offered, k) && (complete ==> Weight(offered, k) <= Weight(m, k) + offset) {
      assert Weight(m, k) <= Weight(truth, k) <= Weight(m, k) + offset;
    }
  }

  lemma SummarySum<K(!new)>(m: map<K, nat>, offset: nat, truth: map<K, nat>, total: nat)
    requires Summary(m, offset, truth, total)
    ensures Sum(truth) == total
  {}

  ghost function Ones(n: nat): (m: map<nat, nat>) {
    if n == 0 then map[] else Ones(n - 1)[n - 1 := 1]
  }

  lemma {:induction false} OnesHas(n: nat, k: nat)
    ensures (k in Ones(n) <==> k < n) && (k < n ==> Ones(n)[k] == 1)
  {
    if n > 0 { OnesHas(n - 1, k); }
  }

  lemma {:induction false} OnesAre(n: nat)
    ensures |Ones(n)| == n && Ones(0) == map[] && Added(Ones(n), n, 1) == Ones(n + 1) && n !in Ones(n)
  {
    OnesHas(n, n);
    if n > 0 {
      OnesAre(n - 1);
      assert Ones(n).Keys == Ones(n - 1).Keys + {n - 1};
    }
  }

  /** Seven items of weight one fill a map of eight slots, and the purge drops all of them. */
  method SevenOnes(hash: nat -> nat) returns (source: FrequentItemsSketch<nat>)
    ensures fresh(source) && fresh(source.counters) && source.Valid() && source.truth == Ones(7) && source.totalWeight == 7
    ensures source.counters.Contents() == map[] && source.counters.numActive == 0 && source.offset > 0
  {
    hide Summary, Paid, Pow2, Added, Purged, Ones, Capacity, Due, PurgedAfter, SampleSize,
         ReversePurgeHashMap.Valid, ReversePurgeHashMap.Contents;
    source := new FrequentItemsSketch<nat>(3, 3, hash);
    OnesAre(0);
    CapacityOfEight();
    var i: nat := 0;
    while i < 7
      invariant i <= 7 && fresh(source) && fresh(source.counters) && source.Valid() && source.counters.lgMax == 3
      invariant source.truth == Ones(i) && source.totalWeight == i
      invariant if i < 7 then source.offset == 0 && source.counters.Contents() == Ones(i)
                else source.offset > 0 && source.counters.Contents() == map[]
    {
      CounterFacts(source.counters);
      OnesAre(i);
      OnesPurged(i + 1);
      source.Update(i, 1);
      i := i + 1;
    }
    CounterFacts(source.counters);
  }

  /** The weight of a sketch emptied by a purge is lost in a merge, and a threshold below its offset
    * reports none of its items. */
  method EmptiedByPurge(hash: nat -> nat) returns (source: FrequentItemsSketch<nat>, target: FrequentItemsSketch<nat>, rows: seq<Row<nat>>)
    ensures source.Valid() && source.truth == Ones(7) && source.totalWeight == 7 && source.offset > 0
    ensures target.Valid() && target.totalWeight == 0 && target.counters.Contents() == map[] && target.offset == 0
    ensures Weight(source.truth, 0) == 1
    ensures rows == []
  {
    hide Summary, Paid, Ones, Reported, Passes, Absorbed, RoomForKeys, Total,
         ReversePurgeHashMap.Valid, ReversePurgeHashMap.Contents, Plus;
    source := SevenOnes(hash);
    OnesHas(7, 0);
    target := new FrequentItemsSketch<nat>(3, 3, hash);
    ghost var entries, purges := target.Merge(source);
    rows := source.GetFrequentItems(NoFalseNegatives, 0);
    NothingPasses(rows, source.offset);
  }

  lemma CapacityOfEight()
    ensures Capacity(3) == 6
  {}

  lemma CounterFacts<K(!new)>(counters: ReversePurgeHashMap<K>)
    requires counters.Valid()
    ensures counters.numActive == |counters.Contents()| && 3 <= counters.lgCur <= counters.lgMax && Positive(counters.Contents())
    ensures counters.numActive <= Capacity(counters.lgCur)
  {}

  lemma OnesPurged(n: nat)
    ensures Purged(Ones(n), 0) == Ones(n) && forall purged: nat :: purged > 0 ==> Purged(Ones(n), purged) == map[]
  {
    forall k: nat ensures (k in Ones(n) <==> k < n) && (k < n ==> Ones(n)[k] == 1) { OnesHas(n, k); }
    hide Ones;
    assert Purged(Ones(n), 0).Keys == Ones(n).Keys;
  }

  lemma NothingPasses(rows: seq<Row<nat>>, offset: nat)
    requires forall k :: Reported(rows, k) <==> Passes(map[], offset, NoFalseNegatives, 0, k)
    ensures rows == []
  {
    if rows != [] { assert Reported(rows, rows[0].item); }
  }
}
