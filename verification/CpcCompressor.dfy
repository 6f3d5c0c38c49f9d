/** The compressor of cpc/include/cpc_compressor_impl.hpp: every flavor of sketch is turned into two
  * lists of words and back.
  */
module CpcCompressors {
  import opened Words
  import opened Sets
  import opened CpcSpec
  import opened BitStreams
  import opened PrefixCodes
  import opened ByteCodecs
  import opened PairCodecs
  import opened PairLists

  // ---------- parameters chosen from lgK and the number of coupons ----------

  function Log2(x: nat): (p: nat)
    requires x > 0
    ensures Pow2(p) <= x < Pow2(p + 1)
  {
    if x == 1 then 0 else 1 + Log2(x / 2)
  }

  lemma Log2Unique(x: nat, p: nat)
    requires x > 0 && Pow2(p) <= x < Pow2(p + 1)
    ensures p == Log2(x)
  {
    if p < Log2(x) { Pow2Mono(p + 1, Log2(x)); }
    if p > Log2(x) { Pow2Mono(Log2(x) + 1, p); }
  }

  method FloorLog2(x: nat) returns (p: nat)
    requires x > 0
    ensures p == Log2(x)
  {
    p := 0;
    var y := 1;
    while true
      invariant y == Pow2(p) && (p == 0 || Pow2(p - 1) < x)
      decreases 2 * x - y
    {
      if y == x { Log2Unique(x, p); return; }
      if y > x { Log2Unique(x, p - 1); return p - 1; }
      p := p + 1;
      y := 2 * y;
    }
  }

  /** Number of low row-difference bits stored verbatim. */
  function BaseBits(lgK: nat, numPairs: nat): (b: nat)
    requires numPairs > 0
  {
    if Pow2(lgK) / numPairs == 0 then 0 else Log2(Pow2(lgK) / numPairs)
  }

  lemma BaseBitsBound(lgK: nat, numPairs: nat)
    requires numPairs > 0
    ensures BaseBits(lgK, numPairs) <= lgK
  {
    var q := Pow2(lgK) / numPairs;
    if q > 0 {
      QuotientBound(Pow2(lgK), numPairs);
      hide Log2, Pow2;
      if Log2(q) > lgK { Pow2Mono(lgK + 1, Log2(q)); TwicePow2(lgK); }
    }
  }

  lemma QuotientBound(x: nat, n: nat)
    requires n > 0
    ensures x / n <= x
  {
    DivModIdentity(x, n);
    if x / n > x { MulLess(x / n, n, 1); }
  }

  lemma TwicePow2(n: nat)
    ensures Pow2(n + 1) == 2 * Pow2(n) && Pow2(n) > 0
  {}

  /** The base bits are the right ones: 2^b is the mean row difference K / n, to within a factor of two. */
  lemma BaseBitsAreRight(lgK: nat, n: nat)
    requires n > 0
    ensures var b := BaseBits(lgK, n); Pow2(lgK) < 2 * n * Pow2(b) && (b > 0 ==> n * Pow2(b) <= Pow2(lgK))
  {
    var k := Pow2(lgK);
    var q := k / n;
    DivModIdentity(k, n);
    hide Log2;
    if q > 0 {
      TwicePow2(Log2(q));
      hide Pow2;
      MeanGap(k, n, q, k % n, Pow2(Log2(q)));
    }
  }

  lemma MeanGap(k: nat, n: nat, q: nat, r: nat, p: nat)
    requires k == n * q + r && r < n && p <= q < 2 * p
    ensures n * p <= k < 2 * n * p
  {
    ProductAtMost(n, p, q);
    ProductAtMost(n, q + 1, 2 * p);
    assert n * (q + 1) == n * q + n && n * (2 * p) == 2 * n * p;
  }

  /** So the unary parts take at most two bits a pair beyond their stop bits, and a pair at most 15 + b bits. */
  lemma PairBitsBound(enc: seq<nat>, lgK: nat, pairs: seq<nat>)
    requires GoodTable(enc) && |enc| == 65 && Increasing(pairs) && |pairs| > 0
    requires forall j :: 0 <= j < |pairs| ==> pairs[j] < 64 * Pow2(lgK)
    ensures var b := BaseBits(lgK, |pairs|); |EncodePairs(enc, b, pairs, 0)| < |pairs| * (15 + b)
  {
    hide BaseBits, Pow2, EncodePairs, Shr, GoodTable, Increasing;
    var k, n, b := Pow2(lgK), |pairs|, BaseBits(lgK, |pairs|);
    TwicePow2(lgK);
    EncodePairsLength(enc, b, pairs, 0, k);
    BaseBitsAreRight(lgK, n);
    ShrIsDiv(k, b);
    TwicePow2(b);
    MulLess(Pow2(b), Shr(k, b), 2 * n);
    assert n * (15 + b) == n * (13 + b) + 2 * n;
  }

  method GolombChooseNumberOfBaseBits(k: nat, count: nat) returns (b: nat)
    requires 0 < count <= k
    ensures b == if (k - count) / count == 0 then 0 else Log2((k - count) / count)
  {
    var quotient := (k - count) / count;
    if quotient == 0 { return 0; }
    b := FloorLog2(quotient);
  }

  /** The encoding table for the window; products are taken in 32 bits. */
  function PseudoPhase(lgK: nat, c: nat): (p: nat)
    requires 4 <= lgK <= 26
    ensures p < 22
  {
    var k := Pow2(lgK);
    if 1000 * c % U32 < 2375 * k % U32 then
      if 4 * c % U32 < 3 * k % U32 then 16
      else if 10 * c % U32 < 11 * k % U32 then 17
      else if 100 * c % U32 < 132 * k % U32 then 18
      else if 3 * c % U32 < 5 * k % U32 then 19
      else if 1000 * c % U32 < 1965 * k % U32 then 20
      else if 1000 * c % U32 < 2275 * k % U32 then 21
      else 6
    else Low(Shr(c, lgK - 4), 4)
  }

  /** No product wraps for lgK <= 16, and a sliding sketch then gets one of the sixteen phases. */
  lemma SlidingPhase(lgK: nat, c: nat)
    requires 4 <= lgK <= 16 && 27 * Pow2(lgK) <= 8 * c < 475 * Pow2(lgK)
    ensures PseudoPhase(lgK, c) < 16
  {
    assert Pow2(lgK) <= 0x1_0000 && Pow2(4) == 16 by { Pow2Mono(lgK, 16); Pow2Values(); }
    hide Pow2, Low, Shr;
    assert 1000 * c % U32 == 1000 * c;
    assert 2375 * Pow2(lgK) % U32 == 2375 * Pow2(lgK);
  }

  /** In steady state the phase is the number of sixteenths of K by which the coupons exceed a multiple of K. */
  lemma SteadyPhaseIs(lgK: nat, c: nat)
    requires 4 <= lgK <= 26 && 1000 * c % U32 >= 2375 * Pow2(lgK) % U32
    ensures PseudoPhase(lgK, c) == 16 * c / Pow2(lgK) % 16
  {
    SteadyBranch(lgK, c);
    hide PseudoPhase;
    Pow2Add(4, lgK - 4);
    Pow2Values();
    TwicePow2(lgK - 4);
    ShrIsDiv(c, lgK - 4);
    hide Pow2, Low, Shr;
    Sixteenths(c, Pow2(lgK - 4), Shr(c, lgK - 4));
    LowIs(Shr(c, lgK - 4));
  }

  lemma SteadyBranch(lgK: nat, c: nat)
    requires 4 <= lgK <= 26 && 1000 * c % U32 >= 2375 * Pow2(lgK) % U32
    ensures PseudoPhase(lgK, c) == Low(Shr(c, lgK - 4), 4)
  {
    hide Pow2, Low, Shr;
  }

  lemma Sixteenths(c: nat, p: nat, q: nat)
    requires p > 0 && q * p <= c < (q + 1) * p
    ensures 16 * c / (16 * p) == q
  {
    assert (16 * p) * q == 16 * (q * p) && (q + 1) * p == q * p + p;
    DivUnique(16 * c, 16 * p, q, 16 * c - (16 * p) * q);
  }

  lemma LowIs(q: nat)
    ensures Low(q, 4) == q % 16
  {
    var a, b, c := q / 2, q / 2 / 2, q / 2 / 2 / 2;
    assert Low(c, 1) == 2 * Low(c / 2, 0) + c % 2 == c % 2;
    assert Low(b, 2) == 2 * Low(c, 1) + b % 2;
    assert Low(a, 3) == 2 * Low(b, 2) + a % 2;
    assert Low(q, 4) == 2 * Low(a, 3) + q % 2;
    hide Low;
    DivUnique(q, 16, c / 2, 8 * (c % 2) + 4 * (b % 2) + 2 * (a % 2) + q % 2);
  }

  /** ... so up to lgK = 16 it repeats after every K coupons. */
  lemma PhaseRepeats(lgK: nat, c: nat)
    requires 4 <= lgK <= 16 && 2375 * Pow2(lgK) <= 1000 * c && 8 * (c + Pow2(lgK)) < 475 * Pow2(lgK)
    ensures PseudoPhase(lgK, c + Pow2(lgK)) == PseudoPhase(lgK, c) == 16 * c / Pow2(lgK) % 16
  {
    hide Pow2, PseudoPhase;
    TwicePow2(lgK);
    PhaseAt(lgK, c, 16 * c);
    PhaseAt(lgK, c + Pow2(lgK), 16 * c + 16 * Pow2(lgK));
    OneMore(16 * c, Pow2(lgK));
  }

  lemma PhaseAt(lgK: nat, c: nat, x: nat)
    requires 4 <= lgK <= 16 && 2375 * Pow2(lgK) <= 1000 * c && 8 * c < 475 * Pow2(lgK) && x == 16 * c
    ensures PseudoPhase(lgK, c) == x / Pow2(lgK) % 16
  {
    assert 0 < Pow2(lgK) <= 0x1_0000 by { Pow2Mono(lgK, 16); Pow2Values(); TwicePow2(lgK); }
    hide Pow2, PseudoPhase;
    NoWrapLate(Pow2(lgK), c);
    SteadyPhaseIs(lgK, c);
  }

  lemma NoWrapLate(k: nat, c: nat)
    requires 0 < k <= 0x1_0000 && 8 * c < 475 * k
    ensures 1000 * c % U32 == 1000 * c && 2375 * k % U32 == 2375 * k
  {}

  lemma OneMore(x: nat, k: nat)
    requires k > 0
    ensures (x + 16 * k) / k % 16 == x / k % 16
  {
    DivModIdentity(x, k);
    DivUnique(x + 16 * k, k, x / k + 16, x % k);
  }

  /** Before that the table number grows with the coupons, in six steps from 16 to 21. */
  lemma MidRangePhases(lgK: nat, c: nat, d: nat)
    requires 4 <= lgK <= 16 && c <= d && 1000 * d < 2275 * Pow2(lgK)
    ensures 16 <= PseudoPhase(lgK, c) <= PseudoPhase(lgK, d) <= 21
    ensures 4 * c < 3 * Pow2(lgK) <==> PseudoPhase(lgK, c) == 16
    ensures 1965 * Pow2(lgK) <= 1000 * c <==> PseudoPhase(lgK, c) == 21
  {
    assert 0 < Pow2(lgK) <= 0x1_0000 by { Pow2Mono(lgK, 16); Pow2Values(); TwicePow2(lgK); }
    hide Pow2, Low, Shr;
    NoWrap(Pow2(lgK), c);
    NoWrap(Pow2(lgK), d);
  }

  lemma NoWrap(k: nat, c: nat)
    requires 0 < k <= 0x1_0000 && 1000 * c < 2275 * k
    ensures 1000 * c % U32 == 1000 * c && 2375 * k % U32 == 2375 * k && 4 * c % U32 == 4 * c && 3 * k % U32 == 3 * k
    ensures 10 * c % U32 == 10 * c && 11 * k % U32 == 11 * k && 100 * c % U32 == 100 * c && 132 * k % U32 == 132 * k
    ensures 3 * c % U32 == 3 * c && 5 * k % U32 == 5 * k && 1965 * k % U32 == 1965 * k && 2275 * k % U32 == 2275 * k
  {}

  /** With larger K the first product can wrap, and the phase of a sliding sketch is then refused. */
  lemma SlidingPhaseWraps()
    ensures DetermineFlavor(Pow2(20), 4294968) == Sliding && 8 * 4294968 < 475 * Pow2(20)
    ensures PseudoPhase(20, 4294968) == 20
  {
    assert Pow2(20) == 0x10_0000 by { Pow2Add(16, 4); Pow2Values(); }
    hide Pow2, Low, Shr;
    WrappedProducts();
  }

  lemma WrappedProducts()
    ensures var c, k := 4294968, 0x10_0000;
            && 1000 * c % U32 == 704 && 2375 * k % U32 == 2490368000 && 1965 * k % U32 == 2060451840
            && 4 * c % U32 == 4 * c && 3 * k % U32 == 3 * k && 10 * c % U32 == 10 * c && 11 * k % U32 == 11 * k
            && 100 * c % U32 == 100 * c && 132 * k % U32 == 132 * k && 3 * c % U32 == 3 * c && 5 * k % U32 == 5 * k
  {}

  // ---------- code tables ----------

  /** Encoding tables and the decoding tables made from them at startup. */
  datatype Codebook = Codebook(
    columnCode: seq<nat>, columnDecoder: seq<nat>,
    byteCodes: seq<seq<nat>>, byteDecoders: seq<seq<nat>>,
    permutations: seq<seq<nat>>, inverses: seq<seq<nat>>)

  ghost predicate GoodBook(cb: Codebook) {
    && |cb.columnCode| == 65 && GoodTable(cb.columnCode) && Decodes(cb.columnDecoder, cb.columnCode)
    && |cb.byteCodes| == |cb.byteDecoders| == 22
    && (forall i :: 0 <= i < 22 ==> GoodByteCode(cb.byteCodes[i], cb.byteDecoders[i]))
    && |cb.permutations| == |cb.inverses| == 16
    && (forall i :: 0 <= i < 16 ==> InversePermutations(cb.permutations[i], cb.inverses[i]))
  }

  ghost predicate GoodByteCode(enc: seq<nat>, dec: seq<nat>) {
    |enc| == 256 && GoodTable(enc) && Decodes(dec, enc)
  }

  ghost predicate InversePermutations(permutation: seq<nat>, inverse: seq<nat>) {
    && |permutation| == |inverse| == 56
    && forall i :: 0 <= i < 56 ==> permutation[i] < 56 && inverse[permutation[i]] == i
  }

  /** Inverts a permutation, and reports an entry that its inverse does not lead back to. */
  method MakeInversePermutation(permutation: seq<nat>) returns (inverse: array<nat>, ok: bool)
    requires |permutation| == 56 && forall i :: 0 <= i < 56 ==> permutation[i] < 56
    ensures fresh(inverse) && inverse.Length == 56
    ensures ok ==> InversePermutations(permutation, inverse[..])
    ensures ok <==> Unique(permutation)
  {
    inverse := new nat[56];
    for i := 0 to 56
      invariant forall j :: 0 <= j < i ==> inverse[permutation[j]] < i
      invariant forall j :: 0 <= j < i ==> permutation[inverse[permutation[j]]] == permutation[j]
    {
      inverse[permutation[i]] := i;
    }
    for i := 0 to 56
      invariant forall j :: 0 <= j < i ==> inverse[j] < 56 && permutation[inverse[j]] == j
    {
      if inverse[i] >= 56 || permutation[inverse[i]] != i {
        if Unique(permutation) { OntoFromUnique(permutation, i); assert false; }
        return inverse, false;
      }
    }
    UniqueFromOnto(permutation, inverse[..]);
    return inverse, true;
  }

  /** Distinct numbers below 56, 56 of them, leave none out. */
  lemma OntoFromUnique(permutation: seq<nat>, x: nat)
    requires |permutation| == 56 && (forall i :: 0 <= i < 56 ==> permutation[i] < 56) && Unique(permutation) && x < 56
    ensures exists i :: 0 <= i < 56 && permutation[i] == x
  {
    hide Unique;
    UniqueCount(permutation);
    var all := Below(56);
    if x !in permutation {
      SubsetSize(Elems(permutation), all - {x});
      assert false;
    }
  }

  lemma UniqueFromOnto(permutation: seq<nat>, inverse: seq<nat>)
    requires |permutation| == |inverse| == 56 && forall i :: 0 <= i < 56 ==> permutation[i] < 56
    requires forall i :: 0 <= i < 56 ==> inverse[i] < 56 && permutation[inverse[i]] == i
    ensures InversePermutations(permutation, inverse) && Unique(permutation)
  {
    var all := Below(56);
    forall x | x in all ensures x in Elems(permutation) { assert permutation[inverse[x]] == x; }
    SubsetSize(all, Elems(permutation));
    UniqueCount(permutation);
    forall i | 0 <= i < 56 ensures inverse[permutation[i]] == i {
      var j := inverse[permutation[i]];
      assert permutation[j] == permutation[i];
    }
  }

  /** A complete code: every codeword has 1 to 12 bits and the Kraft sum is one. */
  ghost predicate CompleteCode(enc: seq<nat>) {
    GoodTable(enc) && KraftSum(enc) == 4096
  }

  /** Makes and validates one decoding table. */
  method MakeDecoder(enc: seq<nat>) returns (dec: seq<nat>, ok: bool)
    requires CompleteCode(enc)
    ensures ok <==> PrefixFree(enc)
    ensures ok ==> Decodes(dec, enc)
  {
    hide KraftSum, Decodes, LastCover, ValidEntry, PrefixFree, GoodTable;
    var table := MakeDecodingTable(enc);
    dec := table[..];
    ok := ValidateDecodingTable(dec, enc);
    if ok { CompleteCodeDecodes(enc, dec); }
    if PrefixFree(enc) { PrefixFreeValidates(enc, dec); }
  }

  /** The tables built at startup, unless a validation throws. */
  method MakeDecodingTables(columnCode: seq<nat>, byteCodes: seq<seq<nat>>, permutations: seq<seq<nat>>)
    returns (cb: Codebook, ok: bool)
    requires |columnCode| == 65 && CompleteCode(columnCode)
    requires |byteCodes| == 22 && forall i :: 0 <= i < 22 ==> |byteCodes[i]| == 256 && CompleteCode(byteCodes[i])
    requires |permutations| == 16
    requires forall i :: 0 <= i < 16 ==> |permutations[i]| == 56 && forall j :: 0 <= j < 56 ==> permutations[i][j] < 56
    ensures ok <==> (PrefixFree(columnCode) && (forall i :: 0 <= i < 22 ==> PrefixFree(byteCodes[i]))
                     && (forall i :: 0 <= i < 16 ==> Unique(permutations[i])))
    ensures ok ==> GoodBook(cb) && cb.columnCode == columnCode && cb.byteCodes == byteCodes && cb.permutations == permutations
  {
    hide KraftSum, Decodes, GoodTable, InversePermutations, PrefixFree, Unique;
    var columnDecoder;
    columnDecoder, ok := MakeDecoder(columnCode);
    cb := Codebook(columnCode, columnDecoder, byteCodes, [], permutations, []);
    if !ok { return; }
    var byteDecoders := [];
    for i := 0 to 22
      invariant |byteDecoders| == i && forall j :: 0 <= j < i ==> GoodByteCode(byteCodes[j], byteDecoders[j])
      invariant forall j :: 0 <= j < i ==> PrefixFree(byteCodes[j])
    {
      assert CompleteCode(byteCodes[i]);
      var dec;
      dec, ok := MakeDecoder(byteCodes[i]);
      if !ok { return; }
      byteDecoders := byteDecoders + [dec];
    }
    var inverses := [];
    for i := 0 to 16
      invariant |inverses| == i && forall j :: 0 <= j < i ==> InversePermutations(permutations[j], inverses[j])
      invariant forall j :: 0 <= j < i ==> Unique(permutations[j])
    {
      var inverse;
      inverse, ok := MakeInversePermutation(permutations[i]);
      if !ok { return; }
      inverses := inverses + [inverse[..]];
    }
    cb := Codebook(columnCode, columnDecoder, byteCodes, byteDecoders, permutations, inverses);
    ok := true;
  }

  // ---------- compressed words ----------

  datatype CompressedState = CompressedState(
    tableData: seq<nat>, tableDataWords: nat, tableNumEntries: nat, windowData: seq<nat>, windowDataWords: nat)

  /** The first words of data hold the given pairs. */
  ghost predicate PairsIn(cb: Codebook, lgK: nat, pairs: seq<nat>, data: seq<nat>, words: nat)
    requires |cb.columnCode| == 65
  {
    && 0 < |pairs| && Increasing(pairs)
    && words <= |data| && (forall i :: 0 <= i < words ==> data[i] < Pow2(32))
    && var b := BaseBits(lgK, |pairs|);
       EncodePairs(cb.columnCode, b, pairs, 0) + Zeros(Padding(b)) <= WordBits(data[..words])
  }

  ghost predicate BytesIn(cb: Codebook, phase: nat, bytes: seq<nat>, data: seq<nat>, words: nat)
    requires phase < |cb.byteCodes|
  {
    && (forall i :: 0 <= i < |bytes| ==> bytes[i] < |cb.byteCodes[phase]|)
    && 0 < words <= |data| && (forall i :: 0 <= i < words ==> data[i] < Pow2(32))
    && EncodeBytes(cb.byteCodes[phase], bytes) + Zeros(11) <= WordBits(data[..words])
  }

  /** The words of the buffer that is allocated for so many pairs. */
  function PairRoom(lgK: nat, numPairs: nat): (n: nat)
    requires numPairs > 0
  {
    SafeLengthForPairs(Pow2(lgK), numPairs, BaseBits(lgK, numPairs))
  }

  /** ... holds their stream. */
  predicate PairsFit(enc: seq<nat>, lgK: nat, pairs: seq<nat>)
    requires |enc| == 65 && |pairs| > 0 && Increasing(pairs)
  {
    var b := BaseBits(lgK, |pairs|);
    |EncodePairs(enc, b, pairs, 0)| + Padding(b) <= 32 * PairRoom(lgK, |pairs|)
  }

  /** Up to 357913941 pairs always fit. */
  lemma FewPairsFit(enc: seq<nat>, lgK: nat, pairs: seq<nat>)
    requires GoodTable(enc) && |enc| == 65 && lgK <= 26 && 0 < |pairs| && Increasing(pairs)
    requires forall i :: 0 <= i < |pairs| ==> pairs[i] < 64 * Pow2(lgK)
    requires 12 * |pairs| < U32
    ensures PairsFit(enc, lgK, pairs)
  {
    hide BaseBits, Pow2, EncodePairs, Padding, SafeLengthForPairs, GoodTable, Increasing;
    RowBitsFit(lgK, |pairs|);
    TwicePow2(lgK);
    SafeLengthSuffices(enc, BaseBits(lgK, |pairs|), pairs, Pow2(lgK));
  }

  /** From there on they do not, if codewords have at least least bits and the pairs are not too many
    * for that; a code of 12-bit words alone never fits. */
  lemma ManyPairsDoNotFit(enc: seq<nat>, lgK: nat, pairs: seq<nat>, least: nat)
    requires GoodTable(enc) && |enc| == 65 && lgK <= 26 && 0 < |pairs| && Increasing(pairs) && AtLeastBits(enc, least) && least <= 12
    requires U32 <= 12 * |pairs| && (12 - least) * |pairs| + Pow2(lgK) + 31 < U32
    ensures !PairsFit(enc, lgK, pairs)
  {
    hide BaseBits, Pow2, EncodePairs, Padding, SafeLengthForPairs, GoodTable, Increasing;
    SafeLengthTooShort(enc, BaseBits(lgK, |pairs|), pairs, Pow2(lgK), least);
  }

  /** For a code of 12-bit words the safe length suffices exactly up to that number of pairs. */
  lemma FitsExactly(enc: seq<nat>, lgK: nat, pairs: seq<nat>)
    requires GoodTable(enc) && |enc| == 65 && lgK <= 26 && 0 < |pairs| && Increasing(pairs) && AtLeastBits(enc, 12)
    requires forall i :: 0 <= i < |pairs| ==> pairs[i] < 64 * Pow2(lgK)
    ensures PairsFit(enc, lgK, pairs) <==> 12 * |pairs| < U32
  {
    hide PairsFit, Pow2, GoodTable, Increasing;
    Pow2Mono(lgK, 26);
    Pow2Values();
    if 12 * |pairs| < U32 { FewPairsFit(enc, lgK, pairs); } else { ManyPairsDoNotFit(enc, lgK, pairs, 12); }
  }

  /** The second product does not wrap for the base bits that are chosen. */
  lemma RowBitsFit(lgK: nat, n: nat)
    requires lgK <= 26 && 0 < 12 * n < U32
    ensures n * (1 + BaseBits(lgK, n)) + Shr(Pow2(lgK), BaseBits(lgK, n)) < U32
  {
    var k, b := Pow2(lgK), BaseBits(lgK, n);
    Pow2Mono(lgK, 26);
    Pow2Values();
    ShrAtMost(k, b);
    hide Pow2, Shr, Log2;
    if k / n > 0 {
      var q := k / n;
      DivModIdentity(k, n);
      LinearBelowPow2(b);
      ProductAtMost(n, 1 + b, q);
    }
  }

  lemma ProductAtMost(n: nat, a: nat, q: nat)
    requires a <= q
    ensures n * a <= n * q
  {}

  lemma {:induction false} LinearBelowPow2(b: nat)
    ensures 1 + b <= Pow2(b)
  {
    if b > 0 { LinearBelowPow2(b - 1); }
  }

  /** Compresses pairs. The source allocates a buffer of the safe length; here the array goes on behind
    * its end if need be, so that the words written there can be counted. */
  method CompressSurprisingValues(cb: Codebook, pairs: seq<nat>, lgK: nat) returns (data: seq<nat>, words: nat, room: nat)
    requires GoodBook(cb) && lgK <= 26 && 0 < |pairs| && Increasing(pairs)
    requires forall i :: 0 <= i < |pairs| ==> pairs[i] < 64 * Pow2(lgK)
    ensures words == PairWords(cb.columnCode, BaseBits(lgK, |pairs|), pairs)
    ensures room == PairRoom(lgK, |pairs|) && (words > room <==> !PairsFit(cb.columnCode, lgK, pairs))
    ensures PairsIn(cb, lgK, pairs, data, words) && 0 < |data| == if words > room then words else room
    ensures var b := BaseBits(lgK, |pairs|); 32 * words < |pairs| * (15 + b) + Padding(b) + 32
  {
    hide Increasing, Pow2, WordBits, EncodePairs, GoodTable, Decodes, SafeLengthForPairs, Padding, DivideRoundingUp;
    var k, numPairs := Pow2(lgK), |pairs|;
    var baseBits := GolombChooseNumberOfBaseBits(k + numPairs, numPairs);
    BaseBitsBound(lgK, numPairs);
    room := SafeLengthForPairs(k, numPairs, baseBits);
    var need := PairWords(cb.columnCode, baseBits, pairs);
    var buffer := new nat[if need > room then need else room];
    words := CompressPairs(pairs, baseBits, cb.columnCode, buffer);
    data := buffer[..];
    assert data[..words] == buffer[..words];
    SomeBits(cb.columnCode, baseBits, pairs);
    PairBitsBound(cb.columnCode, lgK, pairs);
    WordsFit(|EncodePairs(cb.columnCode, baseBits, pairs, 0)| + Padding(baseBits), room);
  }

  lemma SomeBits(enc: seq<nat>, baseBits: nat, pairs: seq<nat>)
    requires GoodTable(enc) && |enc| == 65 && 0 < |pairs| && Increasing(pairs)
    ensures |EncodePairs(enc, baseBits, pairs, 0)| > 0
  {
    EncodePairsAtLeast(enc, baseBits, pairs, 0, 1);
    hide EncodePairs;
    ProductAtMost(|pairs|, 1, 2 + baseBits);
  }

  method UncompressSurprisingValues(cb: Codebook, data: seq<nat>, words: nat, numPairs: nat, lgK: nat, ghost pairs: seq<nat>)
    returns (result: seq<nat>)
    requires GoodBook(cb) && lgK <= 26 && PairsIn(cb, lgK, pairs, data, words) && |pairs| == numPairs
    ensures result == pairs
  {
    hide Increasing, Pow2, WordBits, EncodePairs, GoodTable, Decodes, Padding;
    var baseBits := GolombChooseNumberOfBaseBits(Pow2(lgK) + numPairs, numPairs);
    BaseBitsBound(lgK, numPairs);
    result := UncompressPairs(numPairs, baseBits, cb.columnDecoder, data[..words], cb.columnCode, pairs);
  }

  method CompressSlidingWindow(cb: Codebook, window: seq<nat>, lgK: nat, c: nat) returns (data: seq<nat>, words: nat)
    requires GoodBook(cb) && 4 <= lgK <= 26 && |window| == Pow2(lgK) && forall i :: 0 <= i < |window| ==> window[i] < 256
    ensures BytesIn(cb, PseudoPhase(lgK, c), window, data, words)
  {
    hide Pow2, WordBits, EncodeBytes, GoodTable, Decodes, PseudoPhase;
    var phase := PseudoPhase(lgK, c);
    assert GoodByteCode(cb.byteCodes[phase], cb.byteDecoders[phase]);
    Pow2Mono(lgK, 26);
    Pow2Values();
    var buffer := new nat[SafeLengthForWindow(|window|)];
    words := CompressBytes(window, cb.byteCodes[phase], buffer);
    data := buffer[..];
    assert data[..words] == buffer[..words];
  }

  method UncompressSlidingWindow(cb: Codebook, data: seq<nat>, words: nat, lgK: nat, c: nat, ghost window: seq<nat>)
    returns (result: seq<nat>)
    requires GoodBook(cb) && 4 <= lgK <= 26 && |window| == Pow2(lgK) && BytesIn(cb, PseudoPhase(lgK, c), window, data, words)
    ensures result == window
  {
    hide Pow2, WordBits, EncodeBytes, GoodTable, Decodes, PseudoPhase;
    var phase := PseudoPhase(lgK, c);
    assert GoodByteCode(cb.byteCodes[phase], cb.byteDecoders[phase]);
    result := UncompressBytes(Pow2(lgK), cb.byteDecoders[phase], data[..words], cb.byteCodes[phase], window);
  }
}
