/** Length-limited prefix codes and their 4096-entry decoding tables
  * (cpc/include/cpc_compressor_impl.hpp:74-109).
  *
  * An entry of an encoding table holds a codeword length in its top four bits and the codeword,
  * lowest bit first, in the other twelve.
  */
module PrefixCodes {
  import opened Words
  import opened Sets
  import opened BitStreams

  function CodeLen(e: nat): (n: nat) { e / 4096 }
  function CodeVal(e: nat): (v: nat) { e % 4096 }

  /** Every codeword has 1 to 12 bits. */
  ghost predicate GoodTable(enc: seq<nat>) {
    |enc| <= 256 && forall b :: 0 <= b < |enc| ==> GoodEntry(enc[b])
  }

  ghost predicate GoodEntry(e: nat) {
    1 <= CodeLen(e) <= 12 && CodeVal(e) < Pow2(CodeLen(e))
  }

  /** The twelve bits x start with the codeword of e. */
  predicate Covers(e: nat, x: nat) {
    Low(x, CodeLen(e)) == CodeVal(e)
  }

  /** The decoding entry for byte b. */
  function Entry(e: nat, b: nat): (d: nat) {
    256 * CodeLen(e) + b
  }

  /** The decoding table gives back the byte of every codeword, whatever bits follow it. */
  ghost predicate Decodes(dec: seq<nat>, enc: seq<nat>) {
    && |dec| == 4096
    && forall b, x :: 0 <= b < |enc| && 0 <= x < 4096 && Covers(enc[b], x) ==> dec[x] == Entry(enc[b], b)
  }

  // ---------- splitting a word ----------

  lemma {:induction false} Recompose(x: nat, n: nat)
    ensures Or(Low(x, n), Shl(Shr(x, n), n)) == x
  {
    forall i: nat ensures Bit(Or(Low(x, n), Shl(Shr(x, n), n)), i) == Bit(x, i) {
      BitOr(Low(x, n), Shl(Shr(x, n), n), i);
      BitShl(Shr(x, n), n, i);
      if i < n {
        LowBits(x, n);
        ToBitsAt(x, n, i);
        ToBitsAt(Low(x, n), n, i);
      } else {
        BitAbove(Low(x, n), n, i);
        BitShr(x, n, i - n);
      }
    }
    BitExt(Or(Low(x, n), Shl(Shr(x, n), n)), x);
  }

  lemma {:induction false} Decompose(v: nat, g: nat, n: nat)
    requires v < Pow2(n)
    ensures Low(Or(v, Shl(g, n)), n) == v && Shr(Or(v, Shl(g, n)), n) == g
  {
    var y := Or(v, Shl(g, n));
    AppendBits(v, n, g, 0);
    LowBits(y, n);
    assert ToBits(v, n) + ToBits(g, 0) == ToBits(v, n);
    ToBitsInjective(Low(y, n), v, n);
    forall i: nat ensures Bit(Shr(y, n), i) == Bit(g, i) {
      BitShr(y, n, i);
      BitOr(v, Shl(g, n), i + n);
      BitShl(g, n, i + n);
      BitAbove(v, n, i + n);
    }
    BitExt(Shr(y, n), g);
  }

  // ---------- make_decoding_table ----------

  /** The last byte before n whose codeword starts x, or -1. */
  ghost function LastCover(enc: seq<nat>, n: nat, x: nat): (b: int)
    requires n <= |enc|
    ensures -1 <= b < n
    ensures b >= 0 ==> Covers(enc[b], x)
    ensures forall i :: b < i < n ==> !Covers(enc[i], x)
  {
    if n == 0 then -1 else if Covers(enc[n - 1], x) then n - 1 else LastCover(enc, n - 1, x)
  }

  /** Writes the entry of one byte at every twelve-bit word that starts with its codeword. */
  method FillEntry(dec: array<nat>, e: nat, b: nat)
    requires dec.Length == 4096 && GoodEntry(e)
    modifies dec
    ensures forall x :: 0 <= x < 4096 ==> dec[x] == if Covers(e, x) then Entry(e, b) else old(dec[x])
  {
    hide Low, Or, Shl, Shr, Pow2;
    var codeLen, codeVal := CodeLen(e), CodeVal(e);
    assert codeVal < Pow2(codeLen);
    var numCopies := Pow2(12 - codeLen);
    for garbage := 0 to numCopies
      invariant forall x :: 0 <= x < 4096 ==>
        dec[x] == if Covers(e, x) && Shr(x, codeLen) < garbage then Entry(e, b) else old(dec[x])
    {
      var extended := Or(codeVal, Shl(garbage, codeLen));
      ExtendedInTable(codeVal, garbage, codeLen);
      Decompose(codeVal, garbage, codeLen);
      forall x | 0 <= x < 4096 && Covers(e, x) && Shr(x, codeLen) == garbage ensures x == extended {
        Recompose(x, codeLen);
      }
      dec[extended] := Entry(e, b);
    }
    forall x | 0 <= x < 4096 ensures Shr(x, codeLen) < numCopies { GarbageBound(x, codeLen); }
  }

  lemma ExtendedInTable(v: nat, g: nat, n: nat)
    requires v < Pow2(n) && n <= 12 && g < Pow2(12 - n)
    ensures Or(v, Shl(g, n)) < 4096
  {
    AppendBound(v, n, g, 12 - n);
    Pow2Values();
  }

  lemma GarbageBound(x: nat, n: nat)
    requires x < 4096 && n <= 12
    ensures Shr(x, n) < Pow2(12 - n)
  {
    Pow2Values();
    ShrBound(x, n, 12 - n);
  }

  /** The table keeps, for each word, the last byte whose codeword starts it; a word that starts
    * with no codeword is left as the allocation found it. */
  method MakeDecodingTable(enc: seq<nat>) returns (dec: array<nat>)
    requires GoodTable(enc)
    ensures dec.Length == 4096 && fresh(dec)
    ensures forall x :: 0 <= x < 4096 ==>
      var b := LastCover(enc, |enc|, x); b >= 0 ==> dec[x] == Entry(enc[b], b)
  {
    hide Covers, Entry, GoodEntry;
    dec := new nat[4096];
    for byteValue := 0 to |enc|
      invariant forall x :: 0 <= x < 4096 ==>
        var b := LastCover(enc, byteValue, x); b >= 0 ==> dec[x] == Entry(enc[b], b)
    {
      FillEntry(dec, enc[byteValue], byteValue);
    }
  }

  /** What validate_decoding_table asks of one entry. */
  predicate ValidEntry(enc: seq<nat>, d: nat, x: nat) {
    && d % 256 < |enc|
    && d / 256 == CodeLen(enc[d % 256])
    && Low(x, d / 256) == CodeVal(enc[d % 256])
  }

  method ValidateDecodingTable(dec: seq<nat>, enc: seq<nat>) returns (ok: bool)
    requires |dec| == 4096
    ensures ok <==> forall x :: 0 <= x < 4096 ==> ValidEntry(enc, dec[x], x)
  {
    hide ValidEntry;
    for x := 0 to 4096
      invariant forall i :: 0 <= i < x ==> ValidEntry(enc, dec[i], i)
    {
      if !ValidEntry(enc, dec[x], x) { return false; }
    }
    return true;
  }

  // ---------- a complete code that validates is a prefix code ----------

  /** Twelve-bit words that start with the codeword of e. */
  ghost function CoverSet(e: nat): (r: set<nat>) {
    set x: nat | 0 <= x < 4096 && Covers(e, x)
  }

  ghost function CoverUnion(enc: seq<nat>): (r: set<nat>) {
    if enc == [] then {} else CoverUnion(enc[..|enc| - 1]) + CoverSet(enc[|enc| - 1])
  }

  /** The Kraft sum in units of 2^-12. */
  function KraftSum(enc: seq<nat>): (r: nat)
    requires forall b :: 0 <= b < |enc| ==> CodeLen(enc[b]) <= 12
  {
    if enc == [] then 0 else KraftSum(enc[..|enc| - 1]) + Pow2(12 - CodeLen(enc[|enc| - 1]))
  }

  ghost predicate PrefixFree(enc: seq<nat>) {
    forall b, c, x :: 0 <= b < c < |enc| && 0 <= x < 4096 && Covers(enc[b], x) ==> !Covers(enc[c], x)
  }

  ghost function CoverUpTo(e: nat, g: nat): (r: set<nat>)
    requires CodeLen(e) <= 12
  {
    set x: nat | 0 <= x < 4096 && Covers(e, x) && Shr(x, CodeLen(e)) < g
  }

  lemma {:induction false} CoverCount(e: nat, g: nat)
    requires GoodEntry(e) && g <= Pow2(12 - CodeLen(e))
    ensures |CoverUpTo(e, g)| == g
  {
    if g == 0 {
      assert CoverUpTo(e, 0) == {};
    } else {
      CoverCount(e, g - 1);
      hide CoverUpTo, CodeLen, CodeVal, Pow2;
      CoverStep(e, g - 1);
    }
  }

  /** One more garbage value above the codeword is one more entry covered. */
  lemma CoverStep(e: nat, g: nat)
    requires GoodEntry(e) && g < Pow2(12 - CodeLen(e))
    ensures |CoverUpTo(e, g + 1)| == |CoverUpTo(e, g)| + 1
  {
    hide Or, Shl, Shr, Pow2;
    var n := CodeLen(e);
    var y := Or(CodeVal(e), Shl(g, n));
    ExtendedInTable(CodeVal(e), g, n);
    Decompose(CodeVal(e), g, n);
    forall x | 0 <= x < 4096 && Covers(e, x) && Shr(x, n) == g ensures x == y { Recompose(x, n); }
    assert CoverUpTo(e, g + 1) == CoverUpTo(e, g) + {y};
  }

  lemma CoverSize(e: nat)
    requires GoodEntry(e)
    ensures |CoverSet(e)| == Pow2(12 - CodeLen(e))
  {
    CoverCount(e, Pow2(12 - CodeLen(e)));
    forall x | 0 <= x < 4096 ensures Shr(x, CodeLen(e)) < Pow2(12 - CodeLen(e)) { GarbageBound(x, CodeLen(e)); }
    assert CoverSet(e) == CoverUpTo(e, Pow2(12 - CodeLen(e)));
  }

  lemma {:induction false} CoverUnionHas(enc: seq<nat>, b: nat)
    requires b < |enc|
    ensures CoverSet(enc[b]) <= CoverUnion(enc)
  {
    if b < |enc| - 1 { CoverUnionHas(enc[..|enc| - 1], b); }
  }

  lemma UnionSize<T>(a: set<T>, b: set<T>)
    ensures |a + b| <= |a| + |b|
    ensures |a + b| == |a| + |b| ==> a !! b
  {
    assert a + b == a + (b - a);
    assert b == (b - a) + (b * a);
    assert |b| == |b - a| + |b * a|;
  }

  /** Sets whose sizes add up to the size of their union are disjoint. */
  lemma {:induction false} NoOverlap(enc: seq<nat>)
    requires GoodTable(enc)
    ensures |CoverUnion(enc)| <= KraftSum(enc)
    ensures |CoverUnion(enc)| == KraftSum(enc) ==> PrefixFree(enc)
  {
    hide Covers, Pow2, CoverSet;
    if enc != [] {
      var front, e := enc[..|enc| - 1], enc[|enc| - 1];
      assert GoodEntry(e);
      NoOverlap(front);
      CoverSize(e);
      UnionSize(CoverUnion(front), CoverSet(e));
      if |CoverUnion(enc)| == KraftSum(enc) {
        forall b, c, x | 0 <= b < c < |enc| && 0 <= x < 4096 && Covers(enc[b], x) ensures !Covers(enc[c], x) {
          if c == |enc| - 1 {
            CoverUnionHas(front, b);
            InCover(enc[b], x);
            InCover(e, x);
          } else {
            assert enc[b] == front[b] && enc[c] == front[c];
          }
        }
      }
    }
  }

  lemma InCover(e: nat, x: nat)
    requires x < 4096
    ensures x in CoverSet(e) <==> Covers(e, x)
  {}

  lemma {:induction false} Below(n: nat) returns (s: set<nat>)
    ensures |s| == n && forall x: nat :: x in s <==> x < n
  {
    if n == 0 { s := {}; } else { s := Below(n - 1); s := s + {n - 1}; }
  }

  /** If the Kraft sum is exactly one and every decoding entry validates, each codeword followed by
    * any bits decodes to its own byte and length. */
  lemma CompleteCodeDecodes(enc: seq<nat>, dec: seq<nat>)
    requires GoodTable(enc) && KraftSum(enc) == 4096 && |dec| == 4096
    requires forall x :: 0 <= x < 4096 ==> var b := LastCover(enc, |enc|, x); b >= 0 ==> dec[x] == Entry(enc[b], b)
    requires forall x :: 0 <= x < 4096 ==> ValidEntry(enc, dec[x], x)
    ensures Decodes(dec, enc) && PrefixFree(enc)
  {
    hide Low, Pow2, KraftSum;
    var all := Below(4096);
    forall x | x in all ensures x in CoverUnion(enc) {
      var b := dec[x] % 256;
      assert ValidEntry(enc, dec[x], x);
      assert Covers(enc[b], x);
      CoverUnionHas(enc, b);
      InCover(enc[b], x);
    }
    SubsetSize(all, CoverUnion(enc));
    NoOverlap(enc);
    PrefixFreeDecodes(enc, dec);
  }

  lemma PrefixFreeDecodes(enc: seq<nat>, dec: seq<nat>)
    requires GoodTable(enc) && |dec| == 4096 && PrefixFree(enc)
    requires forall x :: 0 <= x < 4096 ==> var b := LastCover(enc, |enc|, x); b >= 0 ==> dec[x] == Entry(enc[b], b)
    ensures Decodes(dec, enc)
  {}

  lemma {:induction false} CoverUnionFrom(enc: seq<nat>, x: nat) returns (b: nat)
    requires x in CoverUnion(enc)
    ensures x < 4096 && b < |enc| && Covers(enc[b], x)
  {
    hide Covers;
    if x in CoverSet(enc[|enc| - 1]) { b := |enc| - 1; } else { b := CoverUnionFrom(enc[..|enc| - 1], x); }
  }

  /** The patterns of a prefix-free code do not overlap. */
  lemma {:induction false} PrefixFreeSize(enc: seq<nat>)
    requires GoodTable(enc) && PrefixFree(enc)
    ensures |CoverUnion(enc)| == KraftSum(enc)
  {
    hide Covers, Pow2, CoverSet;
    if enc != [] {
      var front, e := enc[..|enc| - 1], enc[|enc| - 1];
      assert GoodEntry(e);
      PrefixFreeSize(front);
      CoverSize(e);
      forall x | x in CoverUnion(front) ensures x !in CoverSet(e) {
        var b := CoverUnionFrom(front, x);
        assert Covers(enc[b], x);
        InCover(e, x);
      }
    }
  }

  /** Validation accepts every complete prefix-free code. */
  lemma PrefixFreeValidates(enc: seq<nat>, dec: seq<nat>)
    requires GoodTable(enc) && KraftSum(enc) == 4096 && |dec| == 4096 && PrefixFree(enc)
    requires forall x :: 0 <= x < 4096 ==> var b := LastCover(enc, |enc|, x); b >= 0 ==> dec[x] == Entry(enc[b], b)
    ensures forall x :: 0 <= x < 4096 ==> ValidEntry(enc, dec[x], x)
  {
    hide Low, Pow2, KraftSum, PrefixFree, CoverUnion;
    var all := Below(4096);
    PrefixFreeSize(enc);
    forall x | x in CoverUnion(enc) ensures x in all { var b := CoverUnionFrom(enc, x); }
    SameSet(CoverUnion(enc), all);
    forall x: nat | x < 4096 ensures ValidEntry(enc, dec[x], x) {
      var b := CoverUnionFrom(enc, x);
      assert LastCover(enc, |enc|, x) >= b;
    }
  }

  // ---------- codewords in a stream ----------

  function CodeBits(e: nat): (b: Bits) {
    ToBits(CodeVal(e), CodeLen(e))
  }

  /** Twelve bits taken from a stream that starts with a codeword decode to its byte. */
  lemma PeekDecodes(enc: seq<nat>, dec: seq<nat>, b: nat, peek: nat, rest: Bits)
    requires GoodTable(enc) && Decodes(dec, enc) && b < |enc|
    requires peek < 4096 && ToBits(peek, 12) <= CodeBits(enc[b]) + rest
    ensures |dec| == 4096 && dec[peek] / 256 == CodeLen(enc[b]) && dec[peek] % 256 == b
  {
    var e := enc[b];
    assert GoodEntry(e);
    var n := CodeLen(e);
    SplitBits(peek, n, 12 - n);
    LowBits(peek, n);
    assert ToBits(peek, n) == CodeBits(e) by {
      assert (CodeBits(e) + rest)[..n] == CodeBits(e);
      assert ToBits(peek, 12)[..n] == ToBits(peek, n);
    }
    ToBitsInjective(Low(peek, n), CodeVal(e), n);
    assert Covers(e, peek);
  }
}
