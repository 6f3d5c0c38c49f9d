/** The open-addressing tables of the HLL sketches: a power-of-two array of 32-bit entries, zero when
  * empty, probed from the low bits of the key with an odd stride made of its next bits.
  *
  * Two tables work this way: the exception map of an HLL4 array, whose entries are (value, slot) pairs
  * compared by slot, and the coupon set, whose entries are whole coupons.
  */
module StrideTables {
  import opened Words
  import opened Strides
  import opened HllSpec

  datatype Kind = BySlot(lgK: nat) | Whole

  function KeyOf(kind: Kind, e: nat): nat {
    match kind
    case BySlot(lgK) => e % Pow2(lgK)
    case Whole => e
  }

  /** The bits above those of the first probe, with the lowest one set. */
  function StrideOf(kind: Kind, key: nat, lg: nat): (stride: nat)
    ensures stride % 2 == 1
  {
    var bits := (if kind.Whole? then Low26(key) else key) / Pow2(lg);
    if bits % 2 == 1 then bits else bits + 1
  }

  function ProbeAt(kind: Kind, key: nat, lg: nat, i: nat): (p: nat)
    ensures p < Pow2(lg)
  {
    Slot(key % Pow2(lg), StrideOf(kind, key, lg), i, Pow2(lg))
  }

  ghost predicate DistinctKeys(kind: Kind, s: seq<nat>) {
    forall i, j :: 0 <= i < j < |s| && s[i] != EMPTY && s[j] != EMPTY ==> KeyOf(kind, s[i]) != KeyOf(kind, s[j])
  }

  /** The first n probes for a key meet used slots. */
  ghost predicate PathUsed(kind: Kind, s: seq<nat>, lg: nat, key: nat, n: nat)
    requires |s| == Pow2(lg)
  {
    forall j: nat :: j < n ==> s[ProbeAt(kind, key, lg, j)] != EMPTY
  }

  ghost predicate Reaches(kind: Kind, s: seq<nat>, lg: nat, key: nat, p: nat, i: nat)
    requires |s| == Pow2(lg)
  {
    i < |s| && ProbeAt(kind, key, lg, i) == p && PathUsed(kind, s, lg, key, i)
  }

  /** Every entry is reached by probing for its key. */
  ghost predicate AllPlaced(kind: Kind, s: seq<nat>, lg: nat)
    requires |s| == Pow2(lg)
  {
    forall p :: 0 <= p < |s| && s[p] != EMPTY ==> exists i: nat :: Reaches(kind, s, lg, KeyOf(kind, s[p]), p, i)
  }

  ghost predicate Absent(kind: Kind, s: seq<nat>, key: nat) {
    forall p :: 0 <= p < |s| && s[p] != EMPTY ==> KeyOf(kind, s[p]) != key
  }

  ghost function Items(s: seq<nat>): (r: set<nat>) {
    set p | 0 <= p < |s| && s[p] != EMPTY :: s[p]
  }

  /** A table in good order that is not full. */
  ghost predicate Table(kind: Kind, s: seq<nat>, lg: nat) {
    |s| == Pow2(lg) && DistinctKeys(kind, s) && AllPlaced(kind, s, lg) && |Items(s)| < |s|
  }

  /** What a probe sequence finds: the entry of the key, or the free slot where it belongs. */
  ghost predicate Found(kind: Kind, s: seq<nat>, lg: nat, key: nat, p: nat)
    requires |s| == Pow2(lg)
  {
    && p < |s|
    && (s[p] != EMPTY ==> KeyOf(kind, s[p]) == key)
    && (s[p] == EMPTY ==> Absent(kind, s, key) && exists i: nat :: Reaches(kind, s, lg, key, p, i))
  }

  /** The probe loop; a table that is not full never sends it back to its start. */
  method Find(kind: Kind, s: seq<nat>, lg: nat, key: nat) returns (p: nat)
    requires Table(kind, s, lg)
    ensures |s| == Pow2(lg) && Found(kind, s, lg, key, p)
  {
    hide DistinctKeys, AllPlaced, Items, PathUsed, StrideOf, ProbeAt, Absent, Pow2;
    p := key % Pow2(lg);
    var loopIndex := p;
    ghost var i: nat := 0;
    ghost var free := SomeFree(kind, s);
    ghost var last := PathEnds(kind, s, lg, key, free);
    PathStart(kind, s, lg, key);
    while true
      invariant p < |s| && p == ProbeAt(kind, key, lg, i) && i <= last < |s|
      invariant PathUsed(kind, s, lg, key, i) && Missed(kind, s, lg, key, i)
      decreases last - i
    {
      if s[p] == EMPTY {
        assert Reaches(kind, s, lg, key, p, i);
        MissedAll(kind, s, lg, key, p, i);
        return;
      } else if KeyOf(kind, s[p]) == key {
        return;
      }
      PathNext(kind, s, lg, key, i, last);
      var stride := StrideOf(kind, key, lg);
      p := (p + stride) % Pow2(lg);
      i := i + 1;
      if p == loopIndex { assert false; }
    }
  }

  /** The first n probes for a key meet no entry with that key. */
  ghost predicate Missed(kind: Kind, s: seq<nat>, lg: nat, key: nat, n: nat)
    requires |s| == Pow2(lg)
  {
    forall j: nat :: j < n ==> KeyOf(kind, s[ProbeAt(kind, key, lg, j)]) != key
  }

  lemma {:induction false} UsedCount(kind: Kind, s: seq<nat>)
    requires DistinctKeys(kind, s) && forall p :: 0 <= p < |s| ==> s[p] != EMPTY
    ensures |Items(s)| == |s|
  {
    if s == [] {
    } else {
      var n := |s| - 1;
      UsedCount(kind, s[..n]);
      assert Items(s) == Items(s[..n]) + {s[n]};
      assert s[n] !in Items(s[..n]);
    }
  }

  lemma SomeFree(kind: Kind, s: seq<nat>) returns (p: nat)
    requires DistinctKeys(kind, s) && |Items(s)| < |s|
    ensures p < |s| && s[p] == EMPTY
  {
    if forall p :: 0 <= p < |s| ==> s[p] != EMPTY { UsedCount(kind, s); }
    p :| p < |s| && s[p] == EMPTY;
  }

  /** The odd stride leads to every slot, so to a free one. */
  lemma PathEnds(kind: Kind, s: seq<nat>, lg: nat, key: nat, free: nat) returns (last: nat)
    requires |s| == Pow2(lg) && free < |s| && s[free] == EMPTY
    ensures last < |s| && ProbeAt(kind, key, lg, last) == free && s[free] == EMPTY
  {
    last := StrideReaches(lg, key % Pow2(lg), StrideOf(kind, key, lg), free);
  }

  lemma PathStart(kind: Kind, s: seq<nat>, lg: nat, key: nat)
    requires |s| == Pow2(lg)
    ensures ProbeAt(kind, key, lg, 0) == key % Pow2(lg) && PathUsed(kind, s, lg, key, 0) && Missed(kind, s, lg, key, 0)
  {
    ModTwice(key, Pow2(lg));
  }

  lemma ModTwice(x: nat, n: nat)
    requires n > 0
    ensures (x % n) % n == x % n
  {}

  /** A used slot of another key is not the last one, and the next slot is not the first one again. */
  lemma PathNext(kind: Kind, s: seq<nat>, lg: nat, key: nat, i: nat, last: nat)
    requires |s| == Pow2(lg) && i <= last < |s| && s[ProbeAt(kind, key, lg, last)] == EMPTY
    requires PathUsed(kind, s, lg, key, i) && Missed(kind, s, lg, key, i)
    requires s[ProbeAt(kind, key, lg, i)] != EMPTY && KeyOf(kind, s[ProbeAt(kind, key, lg, i)]) != key
    ensures i + 1 <= last && PathUsed(kind, s, lg, key, i + 1) && Missed(kind, s, lg, key, i + 1)
    ensures ProbeAt(kind, key, lg, i + 1) == (ProbeAt(kind, key, lg, i) + StrideOf(kind, key, lg)) % Pow2(lg)
    ensures ProbeAt(kind, key, lg, i + 1) != key % Pow2(lg)
  {
    hide StrideOf, KeyOf, Pow2, Slot;
    var start, stride := key % Pow2(lg), StrideOf(kind, key, lg);
    SlotNext(start, stride, i, Pow2(lg));
    StrideInjective(lg, start, stride, 0, i + 1);
    PathStart(kind, s, lg, key);
  }

  lemma MissedAll(kind: Kind, s: seq<nat>, lg: nat, key: nat, p: nat, i: nat)
    requires |s| == Pow2(lg) && AllPlaced(kind, s, lg) && Reaches(kind, s, lg, key, p, i) && s[p] == EMPTY
    requires Missed(kind, s, lg, key, i)
    ensures Absent(kind, s, key)
  {
    hide KeyOf, Pow2, ProbeAt;
    forall q | 0 <= q < |s| && s[q] != EMPTY ensures KeyOf(kind, s[q]) != key {
      if KeyOf(kind, s[q]) == key {
        var j: nat :| Reaches(kind, s, lg, key, q, j);
        assert false;
      }
    }
  }

  // ---------- changes ----------

  /** An entry put where its probe sequence ends. */
  lemma PutEntry(kind: Kind, s: seq<nat>, lg: nat, p: nat, e: nat)
    requires |s| == Pow2(lg) && DistinctKeys(kind, s) && AllPlaced(kind, s, lg) && e != EMPTY
    requires Found(kind, s, lg, KeyOf(kind, e), p) && s[p] == EMPTY
    ensures DistinctKeys(kind, s[p := e]) && AllPlaced(kind, s[p := e], lg)
    ensures Items(s[p := e]) == Items(s) + {e} && e !in Items(s) && |Items(s[p := e])| == |Items(s)| + 1
  {
    hide KeyOf, Pow2, ProbeAt, Items;
    PutItems(kind, s, p, e);
    var t := s[p := e];
    forall q | 0 <= q < |t| && t[q] != EMPTY ensures exists i: nat :: Reaches(kind, t, lg, KeyOf(kind, t[q]), q, i) {
      if q == p {
        var i: nat :| Reaches(kind, s, lg, KeyOf(kind, e), p, i);
        assert Reaches(kind, t, lg, KeyOf(kind, e), p, i);
      } else {
        var i: nat :| Reaches(kind, s, lg, KeyOf(kind, s[q]), q, i);
        assert Reaches(kind, t, lg, KeyOf(kind, s[q]), q, i);
      }
    }
  }

  lemma PutItems(kind: Kind, s: seq<nat>, p: nat, e: nat)
    requires p < |s| && s[p] == EMPTY && e != EMPTY && Absent(kind, s, KeyOf(kind, e))
    ensures Items(s[p := e]) == Items(s) + {e} && e !in Items(s)
  {
    hide KeyOf;
    var t := s[p := e];
    forall x | x in Items(s) + {e} ensures x in Items(t) {
      if x == e { assert t[p] == e; } else { var q :| 0 <= q < |s| && s[q] == x && s[q] != EMPTY; assert t[q] == x; }
    }
  }

  /** An entry replaced by another of the same key. */
  lemma ReplaceEntry(kind: Kind, s: seq<nat>, lg: nat, p: nat, e: nat)
    requires |s| == Pow2(lg) && DistinctKeys(kind, s) && AllPlaced(kind, s, lg) && e != EMPTY
    requires p < |s| && s[p] != EMPTY && KeyOf(kind, e) == KeyOf(kind, s[p])
    ensures DistinctKeys(kind, s[p := e]) && AllPlaced(kind, s[p := e], lg)
    ensures Items(s[p := e]) == Items(s) - {s[p]} + {e} && |Items(s[p := e])| == |Items(s)|
  {
    hide KeyOf, Pow2, ProbeAt, Items;
    ReplaceItems(kind, s, p, e);
    var t := s[p := e];
    forall q | 0 <= q < |t| && t[q] != EMPTY ensures exists i: nat :: Reaches(kind, t, lg, KeyOf(kind, t[q]), q, i) {
      var i: nat :| Reaches(kind, s, lg, KeyOf(kind, s[q]), q, i);
      assert Reaches(kind, t, lg, KeyOf(kind, t[q]), q, i);
    }
  }

  lemma ReplaceItems(kind: Kind, s: seq<nat>, p: nat, e: nat)
    requires DistinctKeys(kind, s) && p < |s| && s[p] != EMPTY && e != EMPTY && KeyOf(kind, e) == KeyOf(kind, s[p])
    ensures Items(s[p := e]) == Items(s) - {s[p]} + {e} && s[p] in Items(s) && e !in Items(s) - {s[p]}
  {
    hide KeyOf;
    var t := s[p := e];
    forall x | x in Items(s) - {s[p]} + {e} ensures x in Items(t) {
      if x == e { assert t[p] == e; } else { var q :| 0 <= q < |s| && s[q] == x && s[q] != EMPTY; assert t[q] == x; }
    }
    forall x | x in Items(t) ensures x in Items(s) - {s[p]} + {e} {
      var q :| 0 <= q < |t| && t[q] == x && t[q] != EMPTY;
    }
  }

  lemma NoEntries(kind: Kind, s: seq<nat>, lg: nat)
    requires |s| == Pow2(lg) && forall p :: 0 <= p < |s| ==> s[p] == EMPTY
    ensures DistinctKeys(kind, s) && AllPlaced(kind, s, lg) && Items(s) == {} && Table(kind, s, lg)
  {}

  /** All entries into a table of twice the size. */
  method Rehash(kind: Kind, s: seq<nat>, lg: nat) returns (t: seq<nat>)
    requires |s| == Pow2(lg) && DistinctKeys(kind, s) && AllPlaced(kind, s, lg)
    ensures Table(kind, t, lg + 1) && Items(t) == Items(s)
  {
    hide DistinctKeys, AllPlaced, Items, KeyOf, Found, Pow2;
    t := seq(Pow2(lg + 1), _ => EMPTY);
    NoEntries(kind, t, lg + 1);
    Doubles(lg);
    NoItems(s);
    var i := 0;
    while i < |s|
      invariant i <= |s| && Table(kind, t, lg + 1) && Items(t) == Items(s[..i]) && |Items(t)| <= i
    {
      ItemsNext(s, i);
      var fetched := s[i];
      if fetched != EMPTY {
        var p := Find(kind, t, lg + 1, KeyOf(kind, fetched));
        FreshKey(kind, s, i, t, lg + 1, p);
        PutEntry(kind, t, lg + 1, p, fetched);
        t := t[p := fetched];
      }
      i := i + 1;
    }
    assert s[..i] == s;
  }

  lemma Doubles(lg: nat)
    ensures Pow2(lg) < Pow2(lg + 1)
  {}

  lemma NoItems(s: seq<nat>)
    ensures Items(s[..0]) == {}
  {}

  lemma ItemsNext(s: seq<nat>, i: nat)
    requires i < |s|
    ensures Items(s[..i + 1]) == Items(s[..i]) + if s[i] == EMPTY then {} else {s[i]}
  {}

  lemma EarlierKey(kind: Kind, s: seq<nat>, i: nat, x: nat)
    requires i < |s| && s[i] != EMPTY && DistinctKeys(kind, s) && x in Items(s[..i])
    ensures KeyOf(kind, x) != KeyOf(kind, s[i])
  {}

  /** An entry not yet moved is not found in the new table. */
  lemma FreshKey(kind: Kind, s: seq<nat>, i: nat, t: seq<nat>, lg: nat, p: nat)
    requires DistinctKeys(kind, s) && i < |s| && s[i] != EMPTY && Items(t) == Items(s[..i])
    requires |t| == Pow2(lg) && Found(kind, t, lg, KeyOf(kind, s[i]), p)
    ensures p < |t| && t[p] == EMPTY
  {
    hide KeyOf, Absent, Pow2, DistinctKeys, Items, Found;
    FoundIsExact(kind, t, lg, KeyOf(kind, s[i]), p);
    forall x | x in Items(t) ensures KeyOf(kind, x) != KeyOf(kind, s[i]) { EarlierKey(kind, s, i, x); }
  }

  /** Found is exact. */
  lemma FoundIsExact(kind: Kind, s: seq<nat>, lg: nat, key: nat, p: nat)
    requires |s| == Pow2(lg) && Found(kind, s, lg, key, p)
    ensures p < |s|
    ensures s[p] != EMPTY ==> s[p] in Items(s) && KeyOf(kind, s[p]) == key
    ensures s[p] == EMPTY ==> forall x :: x in Items(s) ==> KeyOf(kind, x) != key
  {}
}
