/** Lists of distinct pairs and the sets they stand for. */
module PairLists {
  import opened Words
  import opened Sets
  import opened CpcSpec
  import opened Sorting
  import opened PairCodecs

  ghost predicate Unique(s: seq<nat>) {
    forall i, j :: 0 <= i < j < |s| ==> s[i] != s[j]
  }

  lemma {:induction false} UniqueCount(s: seq<nat>)
    ensures |Elems(s)| <= |s|
    ensures Unique(s) <==> |Elems(s)| == |s|
  {
    if s == [] {
      assert Elems(s) == {};
    } else {
      var front, x := s[..|s| - 1], s[|s| - 1];
      UniqueCount(front);
      assert s == front + [x];
      assert Elems(s) == Elems(front) + {x};
      if x in front { var i :| 0 <= i < |front| && front[i] == x; assert s[i] == s[|s| - 1]; }
    }
  }

  lemma SameElems(s: seq<nat>, t: seq<nat>)
    requires multiset(s) == multiset(t)
    ensures Elems(s) == Elems(t) && |s| == |t|
  {
    assert |multiset(s)| == |s| && |multiset(t)| == |t|;
    forall x ensures x in s <==> x in t { assert x in multiset(s) <==> x in multiset(t); }
  }

  lemma SortedUnique(s: seq<nat>)
    requires Sorted(s) && Unique(s)
    ensures Increasing(s)
  {}

  /** Sorting a list of distinct pairs puts it in increasing order. */
  method SortPairs(a: array<nat>)
    requires Unique(a[..])
    modifies a
    ensures Increasing(a[..]) && Elems(a[..]) == old(Elems(a[..]))
  {
    hide Unique, Elems, Increasing, Sorted;
    UniqueCount(a[..]);
    IntrospectiveInsertionSort(a, 0, a.Length);
    SameElems(a[..], old(a[..]));
    UniqueCount(a[..]);
    AllSorted(a[..]);
    SortedUnique(a[..]);
  }

  lemma AllSorted(s: seq<nat>)
    requires SortedUpTo(s, 0, |s|)
    ensures Sorted(s)
  {}

  // ---------- pairs of a window at offset zero ----------

  ghost predicate InWindow(window: seq<nat>, rc: nat) {
    rc / 64 < |window| && rc % 64 < 8 && Bit(window[rc / 64], rc % 64)
  }

  /** The coupons that the first rows of the window hold. */
  ghost function WindowCoupons(window: seq<nat>, rows: nat): (r: set<nat>) {
    set rc | 0 <= rc < 64 * rows && InWindow(window, rc)
  }

  lemma WindowCouponsRow(window: seq<nat>, row: nat)
    requires row < |window| && window[row] < 256
    ensures WindowCoupons(window, row + 1) == WindowCoupons(window, row) + RowBits(window[row], row)
    ensures WindowCoupons(window, row) !! RowBits(window[row], row)
  {
    forall rc | 64 * row <= rc < 64 * row + 64 ensures InWindow(window, rc) <==> InRow(window[row], row, rc) {
      Pow2Values();
      if rc % 64 >= 8 { BitAbove(window[row], 8, rc % 64); }
    }
  }

  /** A sketch at offset zero splits into its table and its window. */
  lemma HybridCoupons(t: set<nat>, window: seq<nat>, k: nat)
    requires |window| == k > 0 && (forall x :: x in t ==> x < 64 * k && 8 <= x % 64)
    ensures CouponsOf(t, window, 0, k) == t + WindowCoupons(window, k)
    ensures t !! WindowCoupons(window, k)
    ensures |WindowCoupons(window, k)| == |CouponsOf(t, window, 0, k)| - |t|
  {}

  /** The pairs written so far, from start on, are the increasing list of the coupons in s. */
  ghost predicate Listed(pairs: seq<nat>, start: nat, end: nat, s: set<nat>) {
    start <= end <= |pairs| && Increasing(pairs[start..end]) && Elems(pairs[start..end]) == s && end - start == |s|
  }

  lemma ListNext(pairs: seq<nat>, start: nat, end: nat, s: set<nat>, x: nat)
    requires Listed(pairs, start, end, s) && end < |pairs| && forall y :: y in s ==> y < x
    ensures Listed(pairs[end := x], start, end + 1, s + {x})
  {
    var t := pairs[end := x];
    assert t[start..end + 1] == pairs[start..end] + [x];
    forall i | 0 <= i < end - start ensures pairs[start..end][i] < x {
      assert pairs[start..end][i] in Elems(pairs[start..end]);
    }
    assert Elems(t[start..end + 1]) == s + {x};
  }

  /** Appends the pairs of one window byte, lowest column first. */
  method ListByte(pairs: array<nat>, window: seq<nat>, row: nat, start: nat, first: nat, ghost s: set<nat>)
    returns (index: nat)
    requires row < |window| && window[row] < 256 && Listed(pairs[..], start, first, s)
    requires forall y :: y in s ==> y < 64 * row
    requires start + |s + RowBits(window[row], row)| <= pairs.Length
    modifies pairs
    ensures Listed(pairs[..], start, index, s + RowBits(window[row], row))
  {
    hide Listed, RowBits, Bit, Shl, Xor, TrailingZeros;
    index := first;
    var byte: nat := window[row];
    ghost var done: set<nat>, bound: nat := s, 64 * row;
    RowBitsRange(byte, row);
    while byte != 0
      invariant Listed(pairs[..], start, index, done)
      invariant byte <= window[row]
      invariant done + RowBits(byte, row) == s + RowBits(window[row], row) && done !! RowBits(byte, row)
      invariant forall x :: x in done ==> x < bound
      invariant forall y :: y in RowBits(byte, row) ==> bound <= y
      decreases byte
    {
      var col := TrailingZeros(byte);
      ColumnOfByte(byte, col);
      ClearBit(byte, col);
      RowBitsErase(byte, col, row);
      LowestPair(byte, col, row);
      ghost var x: nat := 64 * row + col;
      SubsetSize(done + {x}, s + RowBits(window[row], row));
      ListedCount(pairs[..], start, index, done);
      ghost var before := pairs[..];
      ListNext(before, start, index, done, x);
      byte := Xor(byte, Shl(1, col));
      pairs[index] := 64 * row + col;
      assert pairs[..] == before[index := x];
      index := index + 1;
      done, bound := done + {x}, x + 1;
    }
    RowBitsNone(row);
  }

  lemma ColumnOfByte(b: nat, c: nat)
    requires b < 256 && Bit(b, c)
    ensures c < 8
  {
    Pow2Values();
    if c >= 8 { BitAbove(b, 8, c); }
  }

  lemma ListedCount(pairs: seq<nat>, start: nat, end: nat, s: set<nat>)
    requires Listed(pairs, start, end, s)
    ensures start <= end <= |pairs| && end == start + |s|
  {}

  lemma RowBitsRange(byte: nat, row: nat)
    ensures forall y :: y in RowBits(byte, row) ==> 64 * row <= y < 64 * row + 64
  {}

  lemma LowestPair(byte: nat, col: nat, row: nat)
    requires byte > 0 && col == TrailingZeros(byte) && col < 8
    ensures forall y :: y in RowBits(byte, row) ==> 64 * row + col <= y
  {}

  /** Lists the window's pairs, leaving emptySpace entries free in front. */
  method TrickyGetPairsFromWindow(window: seq<nat>, numPairs: nat, emptySpace: nat) returns (pairs: array<nat>)
    requires (forall i :: 0 <= i < |window| ==> window[i] < 256) && numPairs == |WindowCoupons(window, |window|)|
    ensures fresh(pairs) && pairs.Length == emptySpace + numPairs
    ensures Increasing(pairs[emptySpace..]) && Elems(pairs[emptySpace..]) == WindowCoupons(window, |window|)
  {
    hide Listed, RowBits;
    pairs := new nat[emptySpace + numPairs];
    var index := emptySpace;
    ListNone(pairs[..], emptySpace, window);
    for row := 0 to |window|
      invariant Listed(pairs[..], emptySpace, index, WindowCoupons(window, row))
    {
      WindowCouponsRow(window, row);
      SubsetSize(WindowCoupons(window, row + 1), WindowCoupons(window, |window|));
      index := ListByte(pairs, window, row, emptySpace, index, WindowCoupons(window, row));
    }
    ListedCount(pairs[..], emptySpace, index, WindowCoupons(window, |window|));
    assert index == pairs.Length; // the guard at cpc_compressor_impl.hpp:748 never fires
    ListAll(pairs[..], emptySpace, WindowCoupons(window, |window|));
  }

  lemma ListNone(pairs: seq<nat>, start: nat, window: seq<nat>)
    requires start <= |pairs|
    ensures Listed(pairs, start, start, WindowCoupons(window, 0))
  {}

  lemma ListAll(pairs: seq<nat>, start: nat, s: set<nat>)
    requires Listed(pairs, start, |pairs|, s)
    ensures Increasing(pairs[start..]) && Elems(pairs[start..]) == s
  {}
}
