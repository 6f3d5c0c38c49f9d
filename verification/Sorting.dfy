/** Sorting and merging of pairs (cpc/include/u32_table_impl.hpp:196-262). */
module Sorting {

  ghost predicate SortedUpTo(s: seq<nat>, l: nat, r: nat) {
    r <= |s| && forall i, j :: l <= i < j < r ==> s[i] <= s[j]
  }

  /** While the gap at j travels down, v is kept outside the array. */
  ghost predicate Held(s: seq<nat>, j: nat, v: nat, m: multiset<nat>) {
    j < |s| && multiset(s[j := v]) == m
  }

  lemma HeldStep(s: seq<nat>, j: nat, h: nat, v: nat, m: multiset<nat>)
    requires Held(s, j, v, m) && 0 < h <= j
    ensures Held(s[j := s[j - h]], j - h, v, m)
  {}

  /** Elements l..i other than the gap at j are sorted, and those above the gap exceed v. */
  ghost predicate Shifting(s: seq<nat>, l: nat, i: nat, j: nat, v: nat) {
    && l <= j <= i < |s|
    && (forall p, q :: l <= p < q <= i && p != j && q != j ==> s[p] <= s[q])
    && (forall q :: j < q <= i ==> v < s[q])
  }

  lemma ShiftStart(s: seq<nat>, l: nat, i: nat)
    requires l <= i < |s| && SortedUpTo(s, l, i)
    ensures Shifting(s, l, i, i, s[i])
  {}

  lemma ShiftStep(s: seq<nat>, l: nat, i: nat, j: nat, v: nat)
    requires Shifting(s, l, i, j, v) && l < j && v < s[j - 1]
    ensures Shifting(s[j := s[j - 1]], l, i, j - 1, v)
  {}

  lemma ShiftDone(s: seq<nat>, l: nat, i: nat, j: nat, v: nat)
    requires Shifting(s, l, i, j, v) && (j == l || s[j - 1] <= v)
    ensures SortedUpTo(s[j := v], l, i + 1)
  {}

  /** s and t agree outside l..i. */
  ghost predicate SameOutside(s: seq<nat>, t: seq<nat>, l: nat, i: nat) {
    |s| == |t| && forall p :: 0 <= p < |s| && (p < l || i < p) ==> s[p] == t[p]
  }

  lemma SameOutsidePut(s: seq<nat>, t: seq<nat>, l: nat, i: nat, j: nat, v: nat)
    requires SameOutside(s, t, l, i) && l <= j <= i < |s|
    ensures SameOutside(s[j := v], t, l, i)
  {}

  /** One insertion: moves a[i] down in steps of h to its place. With h == 1 a sorted prefix grows. */
  method InsertOne(a: array<nat>, l: nat, i: nat, h: nat) returns (j: nat)
    requires 0 < h && l + h <= i < a.Length
    modifies a
    ensures multiset(a[..]) == old(multiset(a[..]))
    ensures j <= i
    ensures SameOutside(a[..], old(a[..]), l, i)
    ensures h == 1 && old(SortedUpTo(a[..], l, i)) ==> SortedUpTo(a[..], l, i + 1)
  {
    hide Held, Shifting, SortedUpTo, SameOutside;
    j := i;
    var v := a[i];
    ghost var m := multiset(a[..]);
    ghost var sorted := h == 1 && SortedUpTo(a[..], l, i);
    HeldStart(a[..], i);
    SameStart(a[..], l, i);
    if sorted { ShiftStart(a[..], l, i); }
    while j >= l + h && v < a[j - h]
      invariant l <= j <= i
      invariant Held(a[..], j, v, m)
      invariant SameOutside(a[..], old(a[..]), l, i)
      invariant sorted ==> Shifting(a[..], l, i, j, v)
    {
      HeldStep(a[..], j, h, v, m);
      if sorted { ShiftStep(a[..], l, i, j, v); }
      ghost var before := a[..];
      SameOutsidePut(before, old(a[..]), l, i, j, before[j - h]);
      a[j] := a[j - h];
      assert a[..] == before[j := before[j - h]];
      j := j - h;
    }
    if sorted { ShiftDone(a[..], l, i, j, v); }
    ghost var s := a[..];
    SameOutsidePut(s, old(a[..]), l, i, j, v);
    a[j] := v;
    assert a[..] == s[j := v];
    HeldDone(s, j, v, m);
  }

  lemma SameStart(s: seq<nat>, l: nat, i: nat)
    ensures SameOutside(s, s, l, i)
  {}

  lemma HeldStart(s: seq<nat>, i: nat)
    requires i < |s|
    ensures Held(s, i, s[i], multiset(s))
  {}

  lemma HeldDone(s: seq<nat>, j: nat, v: nat, m: multiset<nat>)
    requires Held(s, j, v, m)
    ensures j < |s| && multiset(s[j := v]) == m
  {}

  /** Increments 1, 4, 13, 40, ...: each is three times the one before, plus one. */
  ghost predicate KnuthIncrement(h: nat) {
    h == 1 || (h > 3 && h % 3 == 1 && KnuthIncrement(h / 3))
  }

  method KnuthShellSort(a: array<nat>, l: nat, r: nat)
    requires l <= r <= a.Length
    modifies a
    ensures multiset(a[..]) == old(multiset(a[..]))
    ensures SortedUpTo(a[..], l, r)
    ensures forall p :: 0 <= p < a.Length && (p < l || r <= p) ==> a[p] == old(a[p])
  {
    var h: nat := 1;
    while h < (r - l) / 9
      invariant KnuthIncrement(h)
    {
      h := 3 * h + 1;
    }
    while h > 0
      invariant h == 0 || KnuthIncrement(h)
      invariant multiset(a[..]) == old(multiset(a[..]))
      invariant forall p :: 0 <= p < a.Length && (p < l || r <= p) ==> a[p] == old(a[p])
      invariant h == 0 ==> SortedUpTo(a[..], l, r)
    {
      GapPass(a, l, r, h);
      h := h / 3;
    }
  }

  /** Insertion sort with stride h; with h == 1 it sorts. */
  method GapPass(a: array<nat>, l: nat, r: nat, h: nat)
    requires 0 < h && l <= r <= a.Length
    modifies a
    ensures multiset(a[..]) == old(multiset(a[..]))
    ensures forall p :: 0 <= p < a.Length && (p < l || r <= p) ==> a[p] == old(a[p])
    ensures h == 1 ==> SortedUpTo(a[..], l, r)
  {
    var i := l + h;
    while i < r
      invariant l + h <= i
      invariant multiset(a[..]) == old(multiset(a[..]))
      invariant forall p :: 0 <= p < a.Length && (p < l || r <= p) ==> a[p] == old(a[p])
      invariant h == 1 ==> SortedUpTo(a[..], l, if i <= r then i else r)
    {
      var _ := InsertOne(a, l, i, h);
      i := i + 1;
    }
  }

  /** Insertion sort that switches to shell sort once it has moved elements too far. */
  method IntrospectiveInsertionSort(a: array<nat>, l: nat, r: nat)
    requires l <= r <= a.Length
    modifies a
    ensures multiset(a[..]) == old(multiset(a[..]))
    ensures SortedUpTo(a[..], l, r)
    ensures forall p :: 0 <= p < a.Length && (p < l || r <= p) ==> a[p] == old(a[p])
  {
    var costLimit := 8 * (r - l);
    var cost := 0;
    var i := l + 1;
    while i < r
      invariant l + 1 <= i
      invariant multiset(a[..]) == old(multiset(a[..]))
      invariant forall p :: 0 <= p < a.Length && (p < l || r <= p) ==> a[p] == old(a[p])
      invariant SortedUpTo(a[..], l, if i <= r then i else r)
    {
      var j := InsertOne(a, l, i, 1);
      cost := cost + (i - j);
      if cost > costLimit {
        KnuthShellSort(a, l, r);
        return;
      }
      i := i + 1;
    }
  }

  // ---------- merge ----------

  /** The merge of two sorted sequences, taking from a first only when its head is smaller. */
  function Merged(a: seq<nat>, b: seq<nat>): (c: seq<nat>)
    ensures |c| == |a| + |b|
    decreases |a| + |b|
  {
    if b == [] then a
    else if a == [] then b
    else if a[0] < b[0] then [a[0]] + Merged(a[1..], b)
    else [b[0]] + Merged(a, b[1..])
  }

  lemma MergedStep(a: seq<nat>, b: seq<nat>)
    ensures a != [] && (b == [] || a[0] < b[0]) ==> Merged(a, b) == [a[0]] + Merged(a[1..], b)
    ensures b != [] && (a == [] || b[0] <= a[0]) ==> Merged(a, b) == [b[0]] + Merged(a, b[1..])
  {}

  lemma HeadElement(s: seq<nat>)
    requires s != []
    ensures multiset(s) == multiset{s[0]} + multiset(s[1..])
  {
    assert s == [s[0]] + s[1..];
  }

  lemma {:induction false} MergedElements(a: seq<nat>, b: seq<nat>)
    ensures multiset(Merged(a, b)) == multiset(a) + multiset(b)
    decreases |a| + |b|
  {
    if a != [] && b != [] {
      hide Merged;
      MergedStep(a, b);
      HeadElement(Merged(a, b));
      if a[0] < b[0] {
        MergedElements(a[1..], b);
        HeadElement(a);
      } else {
        MergedElements(a, b[1..]);
        HeadElement(b);
      }
    }
  }

  ghost predicate AllAtLeast(s: seq<nat>, x: nat) {
    forall i :: 0 <= i < |s| ==> x <= s[i]
  }

  lemma {:induction false} MergedAtLeast(a: seq<nat>, b: seq<nat>, x: nat)
    requires AllAtLeast(a, x) && AllAtLeast(b, x)
    ensures AllAtLeast(Merged(a, b), x)
    decreases |a| + |b|
  {
    if a != [] && b != [] {
      if a[0] < b[0] { MergedAtLeast(a[1..], b, x); } else { MergedAtLeast(a, b[1..], x); }
    }
  }

  ghost predicate Sorted(s: seq<nat>) {
    forall i, j :: 0 <= i < j < |s| ==> s[i] <= s[j]
  }

  lemma ConsSorted(x: nat, s: seq<nat>)
    requires AllAtLeast(s, x) && Sorted(s)
    ensures Sorted([x] + s)
  {}

  lemma TailSorted(s: seq<nat>)
    requires Sorted(s) && s != []
    ensures Sorted(s[1..]) && forall x: nat :: x <= s[0] ==> AllAtLeast(s, x) && AllAtLeast(s[1..], x)
  {}

  lemma {:induction false} MergedSorted(a: seq<nat>, b: seq<nat>)
    requires Sorted(a) && Sorted(b)
    ensures Sorted(Merged(a, b))
    decreases |a| + |b|
  {
    if a != [] && b != [] {
      hide Sorted, AllAtLeast;
      TailSorted(a);
      TailSorted(b);
      if a[0] < b[0] {
        MergedSorted(a[1..], b);
        MergedAtLeast(a[1..], b, a[0]);
        ConsSorted(a[0], Merged(a[1..], b));
      } else {
        MergedSorted(a, b[1..]);
        MergedAtLeast(a, b[1..], b[0]);
        ConsSorted(b[0], Merged(a, b[1..]));
      }
    }
  }

  /** After i elements of a and j of b have gone to front. */
  ghost predicate Merging(a: seq<nat>, b: seq<nat>, i: nat, j: nat, front: seq<nat>) {
    i <= |a| && j <= |b| && front + Merged(a[i..], b[j..]) == Merged(a, b)
  }

  lemma TakeA(a: seq<nat>, b: seq<nat>, i: nat, j: nat, front: seq<nat>)
    requires Merging(a, b, i, j, front) && i < |a| && (j == |b| || a[i] < b[j])
    ensures Merging(a, b, i + 1, j, front + [a[i]])
  {}

  lemma TakeB(a: seq<nat>, b: seq<nat>, i: nat, j: nat, front: seq<nat>)
    requires Merging(a, b, i, j, front) && j < |b| && (i == |a| || b[j] <= a[i])
    ensures Merging(a, b, i, j + 1, front + [b[j]])
  {}

  lemma MergingEnds(a: seq<nat>, b: seq<nat>, front: seq<nat>)
    ensures Merging(a, b, 0, 0, [])
    ensures Merging(a, b, |a|, |b|, front) ==> front == Merged(a, b)
  {}

  /** Merges into the front of the array that also holds b at its back: the write position never
    * passes the read position of b. */
  method Merge(a: seq<nat>, c: array<nat>)
    requires |a| <= c.Length
    modifies c
    ensures c[..] == Merged(a, old(c[|a|..]))
  {
    hide Merging, Merged;
    var i, j := 0, |a|;
    ghost var b := c[|a|..];
    MergingEnds(a, b, []);
    for p := 0 to c.Length
      invariant i <= |a| <= j <= c.Length && p == i + (j - |a|)
      invariant forall q :: j <= q < c.Length ==> c[q] == b[q - |a|]
      invariant Merging(a, b, i, j - |a|, c[..p])
    {
      ghost var front := c[..p];
      if j >= c.Length {
        TakeA(a, b, i, j - |a|, front);
        c[p] := a[i];
        i := i + 1;
      } else if i >= |a| {
        TakeB(a, b, i, j - |a|, front);
        c[p] := c[j];
        j := j + 1;
      } else if a[i] < c[j] {
        TakeA(a, b, i, j - |a|, front);
        c[p] := a[i];
        i := i + 1;
      } else {
        TakeB(a, b, i, j - |a|, front);
        c[p] := c[j];
        j := j + 1;
      }
      assert c[..p + 1] == front + [c[p]];
    }
    assert i == |a| && j == c.Length; // the guard at u32_table_impl.hpp:216 never fires
    assert c[..c.Length] == c[..];
    MergingEnds(a, b, c[..]);
  }
}
