/** Finite sets, and lists of (key, value) entries. */
module Sets {
  lemma SubsetSize<T>(a: set<T>, b: set<T>)
    requires a <= b
    ensures |a| <= |b|
  {
    if a != {} {
      var x :| x in a;
      SubsetSize(a - {x}, b - {x});
    }
  }

  lemma SameSet<T>(a: set<T>, b: set<T>)
    requires a <= b && |a| == |b|
    ensures a == b
  {
    if a != b {
      var x :| x in b && x !in a;
      SubsetSize(a, b - {x});
      assert false;
    }
  }

  ghost function Elems(s: seq<nat>): (r: set<nat>) {
    set x | x in s
  }

  lemma ElemsSnoc(s: seq<nat>, i: nat)
    requires i < |s|
    ensures Elems(s[..i + 1]) == Elems(s[..i]) + {s[i]}
    ensures (forall j :: 0 <= j < i ==> s[j] != s[i]) ==> s[i] !in Elems(s[..i])
  {}

  ghost function KeysOf<K>(entries: seq<(K, nat)>): (r: set<K>) {
    set i | 0 <= i < |entries| :: entries[i].0
  }

  lemma {:induction false} KeysOfCount<K(!new)>(entries: seq<(K, nat)>)
    requires forall i, j :: 0 <= i < j < |entries| ==> entries[i].0 != entries[j].0
    ensures |KeysOf(entries)| == |entries|
  {
    if entries == [] {
      assert KeysOf(entries) == {};
    } else {
      var front, x := entries[..|entries| - 1], entries[|entries| - 1];
      KeysOfCount(front);
      assert KeysOf(entries) == KeysOf(front) + {x.0};
      assert x.0 !in KeysOf(front);
    }
  }
}
