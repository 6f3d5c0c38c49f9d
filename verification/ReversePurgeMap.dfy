/** Slots of the reverse-purge hash map (fi/include/reverse_purge_hash_map_impl.hpp) as a value.
  *
  * The source keeps keys, values and states in three parallel arrays; a state of zero marks a free
  * slot. Here a slot is one value. The drift of a used slot is one more than its distance from the
  * home slot of its key.
  */
module PurgeSlots {
  import opened Probing
  import opened MapSums

  datatype Cell<K> = Free | Used(key: K, value: nat, drift: nat)

  type Table<K> = seq<Cell<K>>

  ghost predicate DistinctKeys<K>(s: Table<K>) {
    forall i, j :: 0 <= i < j < |s| && s[i].Used? && s[j].Used? ==> s[i].key != s[j].key
  }

  /** The entries of the table. */
  ghost function Entries<K(!new)>(s: Table<K>): (m: map<K, nat>)
    requires DistinctKeys(s)
  {
    map i | 0 <= i < |s| && s[i].Used? :: s[i].key := s[i].value
  }

  /** The home slot of a key, given its hash. */
  function Home(hash: nat, n: nat): (h: nat)
    requires n > 0
    ensures h < n
  {
    hash % n
  }

  /** The used slot i is at the distance from its home that its drift says, and no slot between is free. */
  ghost predicate Placed<K>(s: Table<K>, hash: K -> nat, i: nat)
    requires i < |s| && s[i].Used?
  {
    && s[i].drift == Dist(Home(hash(s[i].key), |s|), i, |s|) + 1
    && forall j :: 0 <= j < |s| && InArc(Home(hash(s[i].key), |s|), j, i) ==> s[j].Used?
  }

  ghost predicate AllPlaced<K>(s: Table<K>, hash: K -> nat) {
    forall i :: 0 <= i < |s| && s[i].Used? ==> Placed(s, hash, i)
  }

  /** p is the first slot from the home of k on that is free or holds k. */
  ghost predicate Found<K>(s: Table<K>, hash: K -> nat, k: K, p: nat)
    requires |s| > 0
  {
    && p < |s|
    && (s[p].Used? ==> s[p].key == k)
    && forall j :: 0 <= j < |s| && InArc(Home(hash(k), |s|), j, p) ==> s[j].Used? && s[j].key != k
  }

  lemma EntriesAt<K(!new)>(s: Table<K>, i: nat)
    requires DistinctKeys(s) && i < |s| && s[i].Used?
    ensures s[i].key in Entries(s) && Entries(s)[s[i].key] == s[i].value
  {}

  lemma EntriesFrom<K(!new)>(s: Table<K>, k: K) returns (i: nat)
    requires DistinctKeys(s) && k in Entries(s)
    ensures i < |s| && s[i].Used? && s[i].key == k && s[i].value == Entries(s)[k]
  {
    i :| 0 <= i < |s| && s[i].Used? && s[i].key == k;
  }

  /** A search that ends at a free slot has proved that the key is absent. */
  lemma FoundIsExact<K(!new)>(s: Table<K>, hash: K -> nat, k: K, p: nat)
    requires |s| > 0 && DistinctKeys(s) && AllPlaced(s, hash) && Found(s, hash, k, p)
    ensures p < |s|
    ensures k in Entries(s) <==> s[p].Used?
    ensures s[p].Used? ==> s[p].key == k && Entries(s)[k] == s[p].value
  {}

  // ---------- insertion and value changes ----------

  lemma EntriesPut<K(!new)>(s: Table<K>, p: nat, k: K, v: nat, d: nat)
    requires p < |s| && s[p].Free? && DistinctKeys(s) && k !in Entries(s)
    ensures DistinctKeys(s[p := Used(k, v, d)])
    ensures Entries(s[p := Used(k, v, d)]) == Entries(s)[k := v]
  {
    var t := s[p := Used(k, v, d)];
    forall i | 0 <= i < |s| && s[i].Used? ensures s[i].key != k { EntriesAt(s, i); }
    assert DistinctKeys(t);
    hide Entries, DistinctKeys;
    SameEntries(s, t, p);
    EntriesAt(t, p);
    assert Entries(t) == Entries(s)[k := v];
  }

  /** Tables that agree but for slot p have the same entries but for the keys in that slot. */
  lemma SameEntries<K(!new)>(s: Table<K>, t: Table<K>, p: nat)
    requires DistinctKeys(s) && DistinctKeys(t) && |s| == |t| && p < |s| && forall i :: 0 <= i < |s| && i != p ==> s[i] == t[i]
    ensures forall k :: k in Entries(s) && !(s[p].Used? && s[p].key == k) ==> k in Entries(t) && Entries(t)[k] == Entries(s)[k]
    ensures forall k :: k in Entries(t) && !(t[p].Used? && t[p].key == k) ==> k in Entries(s) && Entries(s)[k] == Entries(t)[k]
  {}

  lemma EntriesSet<K(!new)>(s: Table<K>, p: nat, v: nat)
    requires p < |s| && s[p].Used? && DistinctKeys(s)
    ensures DistinctKeys(s[p := s[p].(value := v)])
    ensures Entries(s[p := s[p].(value := v)]) == Entries(s)[s[p].key := v]
  {
    var t := s[p := s[p].(value := v)];
    assert DistinctKeys(t);
    hide Entries, DistinctKeys;
    SameEntries(s, t, p);
    EntriesAt(s, p);
    EntriesAt(t, p);
    assert Entries(t) == Entries(s)[s[p].key := v];
  }

  lemma PlacedSet<K>(s: Table<K>, hash: K -> nat, p: nat, v: nat)
    requires p < |s| && s[p].Used? && AllPlaced(s, hash)
    ensures AllPlaced(s[p := s[p].(value := v)], hash)
  {}

  lemma PlacedPut<K>(s: Table<K>, hash: K -> nat, k: K, p: nat, v: nat)
    requires |s| > 0 && AllPlaced(s, hash) && Found(s, hash, k, p) && s[p].Free?
    ensures AllPlaced(s[p := Used(k, v, Dist(Home(hash(k), |s|), p, |s|) + 1)], hash)
  {}

  lemma EntriesErase<K(!new)>(s: Table<K>, p: nat)
    requires p < |s| && s[p].Used? && DistinctKeys(s)
    ensures DistinctKeys(s[p := Free]) && Entries(s[p := Free]) == Entries(s) - {s[p].key}
    ensures s[p].key in Entries(s) && Entries(s)[s[p].key] == s[p].value
  {
    var t := s[p := Free];
    assert DistinctKeys(t);
    forall i | 0 <= i < |t| && t[i].Used? ensures t[i].key != s[p].key {}
    hide Entries, DistinctKeys;
    SameEntries(s, t, p);
    EntriesAt(s, p);
    assert s[p].key !in Entries(t) by { if s[p].key in Entries(t) { var i := EntriesFrom(t, s[p].key); } }
    assert Entries(t) == Entries(s) - {s[p].key};
  }

  // ---------- deletion by shifting back ----------

  /** While the hole travels up its cluster, which ends at the free slot stop: items before the probe
    * are in place, and those from the probe on may only have the hole before them. */
  ghost predicate Hole<K>(s: Table<K>, hash: K -> nat, h: nat, p: nat, stop: nat) {
    && h < |s| && p < |s| && stop < |s|
    && s[h].Free? && s[stop].Free? && h != stop && h != p && !InArc(p, h, stop)
    && (forall j :: 0 <= j < |s| && InArc(h, j, stop) && j != h ==> s[j].Used?)
    && (forall i :: 0 <= i < |s| && s[i].Used? && !InArc(p, i, stop) ==> Placed(s, hash, i))
    && (forall i :: 0 <= i < |s| && InArc(p, i, stop) ==> NearlyPlaced(s, hash, i, h))
  }

  /** In place but for a possible gap at h. */
  ghost predicate NearlyPlaced<K>(s: Table<K>, hash: K -> nat, i: nat, h: nat)
    requires i < |s|
  {
    && s[i].Used?
    && s[i].drift == Dist(Home(hash(s[i].key), |s|), i, |s|) + 1
    && forall j :: 0 <= j < |s| && InArc(Home(hash(s[i].key), |s|), j, i) && j != h ==> s[j].Used?
  }

  lemma HoleStart<K>(s: Table<K>, hash: K -> nat, p: nat, stop: nat)
    requires AllPlaced(s, hash) && p < |s| && s[p].Used? && stop < |s| && s[stop].Free?
    requires forall j :: 0 <= j < |s| && InArc(p, j, stop) ==> s[j].Used?
    ensures Hole(s[p := Free], hash, p, Next(p, |s|), stop)
  {}

  /** The item under the probe belongs at or before the hole: it moves there, and leaves a new hole. */
  lemma HoleMove<K>(s: Table<K>, hash: K -> nat, h: nat, p: nat, stop: nat)
    requires Hole(s, hash, h, p, stop) && s[p].Used? && s[p].drift > Dist(h, p, |s|)
    ensures Hole(Moved(s, h, p), hash, p, Next(p, |s|), stop)
  {
    var n, next := |s|, Next(p, |s|);
    var t := Moved(s, h, p);
    var home := Home(hash(s[p].key), n);
    assert p != stop && InArc(p, p, stop);
    assert NearlyPlaced(s, hash, p, h);
    assert InArc(home, h, p);
    forall i | 0 <= i < n && t[i].Used? && !InArc(next, i, stop) ensures Placed(t, hash, i) {
      if i != h {
        assert Placed(s, hash, i);
        assert !InArc(Home(hash(s[i].key), n), stop, i);
      }
    }
    forall i | 0 <= i < n && InArc(next, i, stop) ensures NearlyPlaced(t, hash, i, p) {
      assert NearlyPlaced(s, hash, i, h);
    }
  }

  function Moved<K>(s: Table<K>, h: nat, p: nat): (t: Table<K>)
    requires h < |s| && p < |s| && s[p].Used? && s[p].drift >= Dist(h, p, |s|)
    ensures |t| == |s|
  {
    s[p := Free][h := Used(s[p].key, s[p].value, s[p].drift - Dist(h, p, |s|))]
  }

  /** The item under the probe has its home after the hole: it stays. */
  lemma HoleStay<K>(s: Table<K>, hash: K -> nat, h: nat, p: nat, stop: nat)
    requires Hole(s, hash, h, p, stop) && s[p].Used? && s[p].drift <= Dist(h, p, |s|)
    ensures Hole(s, hash, h, Next(p, |s|), stop)
  {}

  lemma HoleDone<K>(s: Table<K>, hash: K -> nat, h: nat, p: nat, stop: nat)
    requires Hole(s, hash, h, p, stop) && s[p].Free?
    ensures AllPlaced(s, hash) && p == stop
  {}

  lemma EntriesMoved<K(!new)>(s: Table<K>, h: nat, p: nat)
    requires DistinctKeys(s) && h < |s| && p < |s| && s[h].Free? && s[p].Used? && s[p].drift >= Dist(h, p, |s|)
    ensures DistinctKeys(Moved(s, h, p)) && Entries(Moved(s, h, p)) == Entries(s)
  {
    hide Entries, DistinctKeys;
    EntriesErase(s, p);
    EntriesPut(s[p := Free], h, s[p].key, s[p].value, s[p].drift - Dist(h, p, |s|));
  }

  /** The next free slot after p. */
  lemma NextFree<K>(s: Table<K>, p: nat, e: nat) returns (stop: nat)
    requires p < |s| && e < |s| && s[e].Free? && s[p].Used?
    ensures stop < |s| && s[stop].Free?
    ensures forall j :: 0 <= j < |s| && InArc(p, j, stop) ==> s[j].Used?
    ensures forall j :: 0 <= j < |s| && InArc(p, j, stop) ==> InArc(p, j, e)
  {
    stop := Next(p, |s|);
    while s[stop].Used?
      invariant stop < |s| && stop != p
      invariant forall j :: 0 <= j < |s| && InArc(p, j, stop) ==> s[j].Used?
      decreases Dist(stop, e, |s|)
    {
      stop := Next(stop, |s|);
    }
  }

  // ---------- purging ----------

  function LoweredSlot<K>(x: Cell<K>, amount: nat): (y: Cell<K>) {
    if x.Free? || x.value <= amount then Free else x.(value := x.value - amount)
  }

  /** The table in which the slots from p up to the free slot first have been lowered, and no slot has
    * moved. */
  function Lowered<K>(s: Table<K>, p: nat, first: nat, amount: nat): (t: Table<K>)
    ensures |t| == |s|
  {
    seq(|s|, i requires 0 <= i < |s| => if InArc(p, i, first) then LoweredSlot(s[i], amount) else s[i])
  }

  lemma LoweredDistinct<K>(s: Table<K>, p: nat, first: nat, amount: nat)
    requires DistinctKeys(s)
    ensures DistinctKeys(Lowered(s, p, first, amount))
  {}

  /** No slot has been lowered yet. */
  lemma LoweredNone<K>(s: Table<K>, first: nat, amount: nat)
    ensures Lowered(s, first, first, amount) == s
  {}

  /** Lowering one more slot, the one before those lowered so far. */
  lemma LoweredStep<K>(s: Table<K>, p: nat, first: nat, amount: nat)
    requires p < |s| && first < |s| && p != first
    ensures Lowered(s, Next(p, |s|), first, amount)[p] == s[p]
    ensures Lowered(s, p, first, amount) == Lowered(s, Next(p, |s|), first, amount)[p := LoweredSlot(s[p], amount)]
  {}

  /** When every slot has been lowered, the entries are purged. */
  lemma LoweredAll<K(!new)>(s: Table<K>, first: nat, amount: nat)
    requires DistinctKeys(s) && first < |s| && s[first].Free?
    ensures DistinctKeys(Lowered(s, Next(first, |s|), first, amount))
    ensures Entries(Lowered(s, Next(first, |s|), first, amount)) == Purged(Entries(s), amount)
  {
    hide Entries, DistinctKeys, Lowered, Purged;
    var t := Lowered(s, Next(first, |s|), first, amount);
    LoweredDistinct(s, Next(first, |s|), first, amount);
    var m, r := Entries(t), Purged(Entries(s), amount);
    forall k ensures k in m <==> k in r
             ensures k in r ==> m[k] == r[k] {
      PurgedAt(Entries(s), amount, k);
      if k in r { LoweredEntry(s, first, amount, k); }
      if k in m { LoweredFrom(s, first, amount, k); }
    }
    assert m.Keys == r.Keys;
  }

  lemma LoweredCell<K>(s: Table<K>, first: nat, amount: nat, i: nat)
    requires first < |s| && s[first].Free? && i < |s|
    ensures Lowered(s, Next(first, |s|), first, amount)[i] == LoweredSlot(s[i], amount)
  {}

  lemma LoweredEntry<K(!new)>(s: Table<K>, first: nat, amount: nat, k: K)
    requires DistinctKeys(s) && first < |s| && s[first].Free? && k in Entries(s) && Entries(s)[k] > amount
    ensures var t := Lowered(s, Next(first, |s|), first, amount);
            DistinctKeys(t) && k in Entries(t) && Entries(t)[k] == Entries(s)[k] - amount
  {
    LoweredDistinct(s, Next(first, |s|), first, amount);
    hide Entries, DistinctKeys, Lowered;
    var i := EntriesFrom(s, k);
    LoweredCell(s, first, amount, i);
    EntriesAt(Lowered(s, Next(first, |s|), first, amount), i);
  }

  lemma LoweredFrom<K(!new)>(s: Table<K>, first: nat, amount: nat, k: K)
    requires DistinctKeys(s) && first < |s| && s[first].Free?
    requires var t := Lowered(s, Next(first, |s|), first, amount); DistinctKeys(t) && k in Entries(t)
    ensures k in Entries(s) && Entries(s)[k] > amount
  {}

  // ---------- prefixes ----------

  lemma PrefixDistinct<K>(s: Table<K>, n: nat)
    requires DistinctKeys(s) && n <= |s|
    ensures DistinctKeys(s[..n])
  {}

  lemma EntriesSnoc<K(!new)>(s: Table<K>, n: nat)
    requires DistinctKeys(s) && n < |s|
    ensures DistinctKeys(s[..n]) && DistinctKeys(s[..n + 1])
    ensures Entries(s[..n + 1]) == if s[n].Used? then Entries(s[..n])[s[n].key := s[n].value] else Entries(s[..n])
    ensures s[n].Used? ==> s[n].key !in Entries(s[..n])
  {
    PrefixDistinct(s, n);
    PrefixDistinct(s, n + 1);
    hide Entries, DistinctKeys;
    var a, b := s[..n], s[..n + 1];
    if s[n].Used? { NewKey(s, n); EntriesAt(b, n); }
    forall k | k in Entries(a) ensures k in Entries(b) && Entries(b)[k] == Entries(a)[k] {
      var i := EntriesFrom(a, k);
      EntriesAt(b, i);
    }
    forall k | k in Entries(b) && !(s[n].Used? && k == s[n].key) ensures k in Entries(a) {
      var i := EntriesFrom(b, k);
      EntriesAt(a, i);
    }
  }

  lemma NewKey<K(!new)>(s: Table<K>, n: nat)
    requires DistinctKeys(s) && n < |s| && s[n].Used? && DistinctKeys(s[..n])
    ensures s[n].key !in Entries(s[..n])
  {}

  lemma EntriesSubmap<K(!new)>(s: Table<K>, n: nat)
    requires DistinctKeys(s) && n <= |s|
    ensures DistinctKeys(s[..n]) && forall k :: k in Entries(s[..n]) ==> k in Entries(s) && Entries(s)[k] == Entries(s[..n])[k]
  {}

  lemma EntriesNone<K(!new)>(s: Table<K>)
    requires forall i :: 0 <= i < |s| ==> s[i].Free?
    ensures DistinctKeys(s) && Entries(s) == map[]
  {}

  lemma {:induction false} AllUsed<K(!new)>(s: Table<K>, n: nat)
    requires DistinctKeys(s) && n <= |s| && forall i :: 0 <= i < n ==> s[i].Used?
    ensures DistinctKeys(s[..n]) && |Entries(s[..n])| == n
  {
    hide Entries, DistinctKeys;
    if n == 0 {
      EntriesNone(s[..0]);
    } else {
      AllUsed(s, n - 1);
      EntriesSnoc(s, n - 1);
      AddKey(Entries(s[..n - 1]), s[n - 1].key, s[n - 1].value);
    }
  }

  lemma AddKey<K(!new)>(m: map<K, nat>, k: K, v: nat)
    ensures |m[k := v]| == if k in m then |m| else |m| + 1
    ensures m[k := v].Keys == m.Keys + {k}
  {}

  lemma DropKey<K(!new)>(m: map<K, nat>, k: K)
    requires k in m
    ensures |m - {k}| == |m| - 1
  {}

  /** A table with fewer entries than slots has a free slot. */
  lemma FreeSlot<K(!new)>(s: Table<K>) returns (e: nat)
    requires DistinctKeys(s) && |Entries(s)| < |s|
    ensures e < |s| && s[e].Free?
  {
    assert s[..|s|] == s;
    if forall i :: 0 <= i < |s| ==> s[i].Used? {
      AllUsed(s, |s|);
      assert false;
    }
    e :| 0 <= e < |s| && s[e].Free?;
  }
}

/** Sums over finite maps. */
module MapSums {
  ghost function Sum<K(!new)>(m: map<K, nat>): (s: nat) {
    if m == map[] then 0 else var k :| k in m; m[k] + Sum(m - {k})
  }

  /** The order of summation does not matter. */
  lemma {:induction false} SumRemove<K(!new)>(m: map<K, nat>, k: K)
    requires k in m
    ensures Sum(m) == m[k] + Sum(m - {k})
    decreases |m|
  {
    var c :| c in m && Sum(m) == m[c] + Sum(m - {c});
    if c != k {
      assert |m - {c}| < |m| by { assert (m - {c}).Keys == m.Keys - {c}; }
      assert |m - {k}| < |m| by { assert (m - {k}).Keys == m.Keys - {k}; }
      SumRemove(m - {c}, k);
      SumRemove(m - {k}, c);
      assert m - {c} - {k} == m - {k} - {c};
    }
  }

  lemma SumPut<K(!new)>(m: map<K, nat>, k: K, v: nat)
    ensures Sum(m[k := v]) == Sum(m) + v - (if k in m then m[k] else 0)
  {
    SumRemove(m[k := v], k);
    if k in m {
      SumRemove(m, k);
      assert m[k := v] - {k} == m - {k};
    } else {
      assert m[k := v] - {k} == m;
    }
  }

  lemma {:induction false} SumSubmap<K(!new)>(a: map<K, nat>, b: map<K, nat>)
    requires forall k :: k in a ==> k in b && a[k] <= b[k]
    ensures Sum(a) <= Sum(b)
    decreases |a|
  {
    if a != map[] {
      var k :| k in a;
      assert |a - {k}| < |a| by { assert (a - {k}).Keys == a.Keys - {k}; }
      SumRemove(a, k);
      SumRemove(b, k);
      SumSubmap(a - {k}, b - {k});
    }
  }

  /** Every value passed through f. */
  ghost function Mapped<K>(m: map<K, nat>, f: nat -> nat): (r: map<K, nat>) {
    map k | k in m :: f(m[k])
  }

  lemma MappedPut<K(!new)>(m: map<K, nat>, k: K, v: nat, f: nat -> nat)
    requires k !in m
    ensures Sum(Mapped(m[k := v], f)) == Sum(Mapped(m, f)) + f(v)
  {
    hide Sum;
    assert Mapped(m[k := v], f) == Mapped(m, f)[k := f(v)];
    SumPut(Mapped(m, f), k, f(v));
  }

  // ---------- sums over sequences ----------

  ghost function SumOf(xs: seq<nat>, f: nat -> nat): (s: nat) {
    if xs == [] then 0 else SumOf(xs[..|xs| - 1], f) + f(xs[|xs| - 1])
  }

  lemma {:induction false} SumOfConcat(a: seq<nat>, b: seq<nat>, f: nat -> nat)
    ensures SumOf(a + b, f) == SumOf(a, f) + SumOf(b, f)
    decreases |b|
  {
    if b == [] {
      assert a + b == a;
    } else {
      SumOfConcat(a, b[..|b| - 1], f);
      assert (a + b)[..|a + b| - 1] == a + b[..|b| - 1];
    }
  }

  lemma SumOfOne(x: nat, f: nat -> nat)
    ensures SumOf([x], f) == f(x)
  {}

  /** The sum does not depend on the order. */
  lemma {:induction false} SumOfPermutation(a: seq<nat>, b: seq<nat>, f: nat -> nat)
    requires multiset(a) == multiset(b)
    ensures SumOf(a, f) == SumOf(b, f)
    decreases |a|
  {
    assert |multiset(a)| == |a| && |multiset(b)| == |b|;
    if a != [] {
      var front, x := a[..|a| - 1], a[|a| - 1];
      assert a == front + [x];
      assert x in multiset(b);
      var j :| 0 <= j < |b| && b[j] == x;
      var l, r := b[..j], b[j + 1..];
      assert b == l + [x] + r;
      WithoutOne(front, l, r, x);
      SumOfPermutation(front, l + r, f);
      SumOfConcat(l + [x], r, f);
      SumOfConcat(l, [x], f);
      SumOfConcat(l, r, f);
      SumOfOne(x, f);
    }
  }

  lemma WithoutOne(front: seq<nat>, l: seq<nat>, r: seq<nat>, x: nat)
    requires multiset(front + [x]) == multiset(l + [x] + r)
    ensures multiset(front) == multiset(l + r)
  {
    assert multiset(front + [x]) == multiset(front) + multiset{x};
    assert multiset(l + [x] + r) == multiset(l) + multiset{x} + multiset(r);
    assert multiset(l + r) == multiset(l) + multiset(r);
    assert multiset(front) == multiset(front + [x]) - multiset{x};
    assert multiset(l + r) == multiset(l + [x] + r) - multiset{x};
  }

  lemma {:induction false} SumOfAtLeast(xs: seq<nat>, f: nat -> nat, v: nat)
    requires forall i :: 0 <= i < |xs| ==> f(xs[i]) >= v
    ensures SumOf(xs, f) >= |xs| * v
  {
    if xs != [] {
      SumOfAtLeast(xs[..|xs| - 1], f, v);
      assert |xs| * v == (|xs| - 1) * v + v;
    }
  }

  lemma {:induction false} SumOfAtMost(xs: seq<nat>, f: nat -> nat, v: nat)
    requires forall i :: 0 <= i < |xs| ==> f(xs[i]) <= v
    ensures SumOf(xs, f) <= |xs| * v
  {
    if xs != [] {
      SumOfAtMost(xs[..|xs| - 1], f, v);
      assert |xs| * v == (|xs| - 1) * v + v;
    }
  }

  // ---------- what a purge by amount takes away ----------

  ghost function Capped(amount: nat): (f: nat -> nat) {
    x => if x < amount then x else amount
  }

  ghost function AtMost(amount: nat): (f: nat -> nat) {
    x => if x <= amount then 1 else 0
  }

  ghost function Under(amount: nat): (f: nat -> nat) {
    x => if x < amount then 1 else 0
  }

  /** Entries lowered by amount, without those that would not stay positive. */
  ghost function Purged<K>(m: map<K, nat>, amount: nat): (r: map<K, nat>) {
    map k | k in m && m[k] > amount :: m[k] - amount
  }

  lemma PurgedAt<K>(m: map<K, nat>, amount: nat, k: K)
    ensures k in Purged(m, amount) <==> k in m && m[k] > amount
    ensures k in Purged(m, amount) ==> Purged(m, amount)[k] == m[k] - amount
  {}

  /** The sum of the entries drops by the sum of the values capped at amount, and the number of entries
    * by the number of values not above amount. */
  lemma {:induction false} PurgedSum<K(!new)>(m: map<K, nat>, amount: nat)
    ensures Sum(m) == Sum(Purged(m, amount)) + Sum(Mapped(m, Capped(amount)))
    ensures |m| == |Purged(m, amount)| + Sum(Mapped(m, AtMost(amount)))
    decreases |m|
  {
    hide Sum, Purged, Mapped;
    if m == map[] {
      NoneMapped<K>(amount);
    } else {
      var k :| k in m;
      var rest, v := m - {k}, m[k];
      assert |rest| == |m| - 1 by { assert rest.Keys == m.Keys - {k}; }
      assert m == rest[k := v];
      PurgedSum(rest, amount);
      SumRemove(m, k);
      MappedPut(rest, k, v, Capped(amount));
      MappedPut(rest, k, v, AtMost(amount));
      PurgedPut(rest, k, v, amount);
    }
  }

  lemma NoneMapped<K(!new)>(amount: nat)
    ensures var m: map<K, nat> := map[];
            Sum(m) == 0 && Purged(m, amount) == m && Mapped(m, Capped(amount)) == m && Mapped(m, AtMost(amount)) == m
  {}

  lemma PurgedPutIs<K(!new)>(m: map<K, nat>, k: K, v: nat, amount: nat)
    requires k !in m
    ensures Purged(m[k := v], amount) == if v > amount then Purged(m, amount)[k := v - amount] else Purged(m, amount)
  {}

  lemma PurgedPut<K(!new)>(m: map<K, nat>, k: K, v: nat, amount: nat)
    requires k !in m
    ensures Sum(Purged(m[k := v], amount)) == Sum(Purged(m, amount)) + (if v > amount then v - amount else 0)
    ensures |Purged(m[k := v], amount)| == |Purged(m, amount)| + (if v > amount then 1 else 0)
  {
    PurgedPutIs(m, k, v, amount);
    var p := Purged(m, amount);
    assert k !in p;
    hide Sum, Purged;
    if v > amount {
      SumPut(p, k, v - amount);
      assert p[k := v - amount].Keys == p.Keys + {k};
    }
  }
}
