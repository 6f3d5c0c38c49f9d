/** Compression of the sorted row-column pairs (cpc/include/cpc_compressor_impl.hpp:420-437, 563-730, 752-761).
  *
  * Each pair is stored relative to the one before it: the column difference as a codeword of a
  * 65-symbol prefix code, then the row difference as a Golomb code, high part in unary and
  * numBaseBits low bits.
  */
module PairCodecs {
  import opened Words
  import opened BitStreams
  import opened PrefixCodes
  import opened ByteCodecs

  ghost predicate Increasing(pairs: seq<nat>) {
    forall i, j :: 0 <= i < j < |pairs| ==> pairs[i] < pairs[j]
  }

  /** Row and column predicted for pair i: those just after pair i - 1. */
  function PredictedRow(pairs: seq<nat>, i: nat): (r: nat)
    requires i <= |pairs|
  {
    if i == 0 then 0 else pairs[i - 1] / 64
  }

  function PredictedCol(pairs: seq<nat>, i: nat): (c: nat)
    requires i < |pairs|
  {
    if i == 0 || pairs[i] / 64 != PredictedRow(pairs, i) then 0 else pairs[i - 1] % 64 + 1
  }

  lemma DeltasAreNatural(pairs: seq<nat>, i: nat)
    requires Increasing(pairs) && i < |pairs|
    ensures PredictedRow(pairs, i) <= pairs[i] / 64
    ensures PredictedCol(pairs, i) <= pairs[i] % 64
  {}

  function YDelta(pairs: seq<nat>, i: nat): (y: int)
    requires i < |pairs|
  {
    pairs[i] / 64 - PredictedRow(pairs, i)
  }

  function XDelta(pairs: seq<nat>, i: nat): (x: int)
    requires i < |pairs|
  {
    pairs[i] % 64 - PredictedCol(pairs, i)
  }

  /** The bits of a pair with column difference x and row difference y. */
  function PairBits(enc: seq<nat>, baseBits: nat, x: nat, y: nat): (b: Bits)
    requires x < |enc|
  {
    CodeBits(enc[x]) + Unary(Shr(y, baseBits)) + ToBits(Low(y, baseBits), baseBits)
  }

  function EncodePairs(enc: seq<nat>, baseBits: nat, pairs: seq<nat>, i: nat): (b: Bits)
    requires |enc| == 65 && Increasing(pairs) && i <= |pairs|
    decreases |pairs| - i
  {
    if i == |pairs| then []
    else
      DeltasAreNatural(pairs, i);
      PairBits(enc, baseBits, XDelta(pairs, i), YDelta(pairs, i)) + EncodePairs(enc, baseBits, pairs, i + 1)
  }

  lemma PairBitsLength(enc: seq<nat>, baseBits: nat, x: nat, y: nat)
    requires GoodTable(enc) && x < |enc|
    ensures |PairBits(enc, baseBits, x, y)| == CodeLen(enc[x]) + 1 + baseBits + Shr(y, baseBits)
    ensures 2 + baseBits <= |PairBits(enc, baseBits, x, y)| <= 13 + baseBits + Shr(y, baseBits)
  {}

  lemma {:induction false} ShrSuper(a: nat, b: nat, n: nat)
    ensures Shr(a, n) + Shr(b, n) <= Shr(a + b, n)
    decreases n
  {
    if n > 0 {
      ShrSuper(a / 2, b / 2, n - 1);
      ShrMono(a / 2 + b / 2, (a + b) / 2, n - 1);
    }
  }

  lemma {:induction false} ShrMono(a: nat, b: nat, n: nat)
    requires a <= b
    ensures Shr(a, n) <= Shr(b, n)
    decreases n
  {
    if n > 0 { ShrMono(a / 2, b / 2, n - 1); }
  }

  /** The unary parts together take at most k >> baseBits bits beyond their stop bits. */
  lemma {:induction false} EncodePairsLength(enc: seq<nat>, baseBits: nat, pairs: seq<nat>, i: nat, k: nat)
    requires GoodTable(enc) && |enc| == 65 && Increasing(pairs) && i <= |pairs|
    requires k > 0 && forall j :: 0 <= j < |pairs| ==> pairs[j] < 64 * k
    ensures |EncodePairs(enc, baseBits, pairs, i)| + Shr(PredictedRow(pairs, i), baseBits)
              <= (|pairs| - i) * (13 + baseBits) + Shr(k, baseBits)
    decreases |pairs| - i
  {
    hide Shr, Increasing, PairBits, EncodePairs, GoodTable;
    EncodeNoPairs(enc, baseBits, pairs);
    ShrMono(PredictedRow(pairs, i), k, baseBits);
    if i < |pairs| {
      DeltasAreNatural(pairs, i);
      EncodePairsLength(enc, baseBits, pairs, i + 1, k);
      PairBitsLength(enc, baseBits, XDelta(pairs, i), YDelta(pairs, i));
      ShrSuper(PredictedRow(pairs, i), YDelta(pairs, i), baseBits);
      EncodePairsStep(enc, baseBits, pairs, i, []);
      OneLess(|pairs| - i, 13 + baseBits);
    }
  }

  lemma OneLess(n: nat, m: nat)
    requires n > 0
    ensures n * m == (n - 1) * m + m
  {}

  function Padding(baseBits: nat): (p: nat)
    ensures baseBits + p >= 10
  {
    if baseBits > 10 then 0 else 10 - baseBits
  }

  /** Words meant to suffice for numPairs pairs of a sketch with k rows; the products are taken in 32 bits. */
  function SafeLengthForPairs(k: nat, numPairs: nat, baseBits: nat): (n: nat) {
    DivideRoundingUp(12 * numPairs % U32 + (numPairs * (1 + baseBits) + Shr(k, baseBits)) % U32 + Padding(baseBits), 32)
  }

  /** Without a wrap the safe length holds the stream of every list. */
  lemma SafeLengthSuffices(enc: seq<nat>, baseBits: nat, pairs: seq<nat>, k: nat)
    requires GoodTable(enc) && |enc| == 65 && Increasing(pairs)
    requires k > 0 && forall j :: 0 <= j < |pairs| ==> pairs[j] < 64 * k
    requires 12 * |pairs| < U32 && |pairs| * (1 + baseBits) + Shr(k, baseBits) < U32
    ensures |EncodePairs(enc, baseBits, pairs, 0)| + Padding(baseBits) <= 32 * SafeLengthForPairs(k, |pairs|, baseBits)
  {
    hide Shr, EncodePairs, Padding, GoodTable, Increasing, SafeLengthForPairs;
    EncodePairsLength(enc, baseBits, pairs, 0, k);
    SplitProduct(|pairs|, 12, baseBits);
    SafeLengthAtLeast(k, |pairs|, baseBits);
  }

  lemma SafeLengthAtLeast(k: nat, n: nat, baseBits: nat)
    requires 12 * n < U32 && n * (1 + baseBits) + Shr(k, baseBits) < U32
    ensures 32 * SafeLengthForPairs(k, n, baseBits) >= 12 * n + n * (1 + baseBits) + Shr(k, baseBits) + Padding(baseBits)
  {
    hide Shr, Padding, DivideRoundingUp;
    NotWrapped(12 * n);
    NotWrapped(n * (1 + baseBits) + Shr(k, baseBits));
  }

  lemma NotWrapped(x: nat)
    requires x < U32
    ensures x % U32 == x
  {}

  /** Every codeword of the table has at least least bits. */
  ghost predicate AtLeastBits(enc: seq<nat>, least: nat) {
    forall b :: 0 <= b < |enc| ==> CodeLen(enc[b]) >= least
  }

  lemma {:induction false} EncodePairsAtLeast(enc: seq<nat>, baseBits: nat, pairs: seq<nat>, i: nat, least: nat)
    requires GoodTable(enc) && |enc| == 65 && Increasing(pairs) && i <= |pairs| && AtLeastBits(enc, least)
    ensures |EncodePairs(enc, baseBits, pairs, i)| >= (|pairs| - i) * (least + 1 + baseBits)
    decreases |pairs| - i
  {
    hide Shr, Increasing, PairBits, EncodePairs, GoodTable;
    EncodeNoPairs(enc, baseBits, pairs);
    if i < |pairs| {
      DeltasAreNatural(pairs, i);
      EncodePairsAtLeast(enc, baseBits, pairs, i + 1, least);
      PairBitsLength(enc, baseBits, XDelta(pairs, i), YDelta(pairs, i));
      EncodePairsStep(enc, baseBits, pairs, i, []);
      OneLess(|pairs| - i, least + 1 + baseBits);
    }
  }

  /** Once the first product wraps, the safe length is too short for codewords of at least least bits,
    * up to a number of pairs that depends on least; for 12 bits there is no such limit. */
  lemma SafeLengthTooShort(enc: seq<nat>, baseBits: nat, pairs: seq<nat>, k: nat, least: nat)
    requires GoodTable(enc) && |enc| == 65 && Increasing(pairs) && AtLeastBits(enc, least) && least <= 12
    requires U32 <= 12 * |pairs| && (12 - least) * |pairs| + k + 31 < U32
    ensures |EncodePairs(enc, baseBits, pairs, 0)| + Padding(baseBits) > 32 * SafeLengthForPairs(k, |pairs|, baseBits)
  {
    EncodePairsAtLeast(enc, baseBits, pairs, 0, least);
    SafeLengthAtMost(k, |pairs|, baseBits);
    hide EncodePairs, Padding, GoodTable, Increasing, AtLeastBits, SafeLengthForPairs;
    SplitProduct(|pairs|, least, baseBits);
  }

  lemma SafeLengthAtMost(k: nat, n: nat, baseBits: nat)
    requires U32 <= 12 * n
    ensures 32 * SafeLengthForPairs(k, n, baseBits) <= 12 * n - U32 + n * (1 + baseBits) + k + Padding(baseBits) + 31
  {
    ShrAtMost(k, baseBits);
    hide Shr, Padding;
    WrappedOnce(12 * n);
    ModAtMost(n * (1 + baseBits) + Shr(k, baseBits));
  }

  lemma SplitProduct(n: nat, least: nat, baseBits: nat)
    requires least <= 12
    ensures n * (least + 1 + baseBits) == 12 * n - (12 - least) * n + n * (1 + baseBits)
  {}

  lemma ShrAtMost(x: nat, n: nat)
    ensures Shr(x, n) <= x
  {}

  lemma WrappedOnce(x: nat)
    requires x >= U32
    ensures x % U32 <= x - U32
  {}

  lemma ModAtMost(x: nat)
    ensures x % U32 <= x
  {}

  method WritePair(writer: BitWriter, baseBits: nat, enc: seq<nat>, xDelta: nat, yDelta: nat)
    requires GoodTable(enc) && xDelta < |enc| && baseBits <= 32
    requires writer.Valid() && writer.bufbits < 32
    requires |writer.Stream()| + |PairBits(enc, baseBits, xDelta, yDelta)| <= 32 * writer.words.Length
    modifies writer, writer.words
    ensures writer.Valid() && writer.bufbits < 32
    ensures writer.Stream() == old(writer.Stream()) + PairBits(enc, baseBits, xDelta, yDelta)
  {
    hide Pow2, ToBits, WordBits, CodeBits, Low, Shr, GoodTable, Unary;
    CodeBitsLength(enc, xDelta);
    var codeInfo := enc[xDelta];
    writer.Put(CodeVal(codeInfo), CodeLen(codeInfo));
    writer.WriteUnary(Shr(yDelta, baseBits));
    writer.Put(Low(yDelta, baseBits), baseBits);
  }

  lemma EncodeNoPairs(enc: seq<nat>, baseBits: nat, pairs: seq<nat>)
    requires |enc| == 65 && Increasing(pairs)
    ensures EncodePairs(enc, baseBits, pairs, |pairs|) == []
  {}

  /** The number of words that the stream of the pairs and its padding take. */
  function PairWords(enc: seq<nat>, baseBits: nat, pairs: seq<nat>): (n: nat)
    requires |enc| == 65 && Increasing(pairs)
  {
    DivideRoundingUp(|EncodePairs(enc, baseBits, pairs, 0)| + Padding(baseBits), 32)
  }

  lemma WordsFit(bits: nat, room: nat)
    ensures DivideRoundingUp(bits, 32) <= room <==> bits <= 32 * room
  {
    hide DivideRoundingUp;
  }

  /** Writes the pairs to a new stream of exactly so many words. */
  method CompressPairs(pairs: seq<nat>, baseBits: nat, enc: seq<nat>, words: array<nat>) returns (numWords: nat)
    requires GoodTable(enc) && |enc| == 65 && Increasing(pairs) && baseBits <= 32
    requires |EncodePairs(enc, baseBits, pairs, 0)| + Padding(baseBits) <= 32 * words.Length
    modifies words
    ensures numWords == PairWords(enc, baseBits, pairs) <= words.Length && forall i :: 0 <= i < numWords ==> words[i] < Pow2(32)
    ensures EncodePairs(enc, baseBits, pairs, 0) + Zeros(Padding(baseBits)) <= WordBits(words[..numWords])
  {
    hide Pow2, ToBits, WordBits, Increasing, GoodTable, EncodePairs;
    var writer := new BitWriter(words);
    WritePairs(writer, pairs, baseBits, enc);
    writer.Skip(Padding(baseBits));
    numWords := writer.Finish();
  }

  method WritePairs(writer: BitWriter, pairs: seq<nat>, baseBits: nat, enc: seq<nat>)
    requires GoodTable(enc) && |enc| == 65 && Increasing(pairs) && baseBits <= 32
    requires writer.Valid() && writer.bufbits < 32 && writer.Stream() == []
    requires |EncodePairs(enc, baseBits, pairs, 0)| <= 32 * writer.words.Length
    modifies writer, writer.words
    ensures writer.Valid() && writer.bufbits < 32 && writer.Stream() == EncodePairs(enc, baseBits, pairs, 0)
  {
    hide Pow2, ToBits, WordBits, Increasing, GoodTable, PairBits, EncodePairs, BitWriter.Stream;
    var predictedRow, predictedCol := 0, 0;
    for i := 0 to |pairs|
      invariant writer.Valid() && writer.bufbits < 32
      invariant predictedRow == PredictedRow(pairs, i) && predictedCol == if i == 0 then 0 else pairs[i - 1] % 64 + 1
      invariant writer.Stream() + EncodePairs(enc, baseBits, pairs, i) == EncodePairs(enc, baseBits, pairs, 0)
    {
      DeltasAreNatural(pairs, i);
      var row, col := pairs[i] / 64, pairs[i] % 64;
      if row != predictedRow { predictedCol := 0; }
      assert predictedCol == PredictedCol(pairs, i);
      // the guards at cpc_compressor_impl.hpp:588-589 never fire
      var yDelta, xDelta := row - predictedRow, col - predictedCol;
      predictedRow := row;
      predictedCol := col + 1;
      EncodePairsStep(enc, baseBits, pairs, i, []);
      WritePair(writer, baseBits, enc, xDelta, yDelta);
    }
    EncodeNoPairs(enc, baseBits, pairs);
  }

  lemma OrComm(x: nat, y: nat)
    ensures Or(x, y) == Or(y, x)
  {}

  /** Decodes n pairs; pairs is the list that was encoded. */
  method UncompressPairs(n: nat, baseBits: nat, dec: seq<nat>, words: seq<nat>, ghost enc: seq<nat>, ghost pairs: seq<nat>)
    returns (result: seq<nat>)
    requires GoodTable(enc) && |enc| == 65 && Decodes(dec, enc) && baseBits <= 32
    requires Increasing(pairs) && |pairs| == n
    requires forall i :: 0 <= i < |words| ==> words[i] < Pow2(32)
    requires EncodePairs(enc, baseBits, pairs, 0) + Zeros(Padding(baseBits)) <= WordBits(words)
    ensures result == pairs
  {
    hide Pow2, ToBits, WordBits, CodeBits, Low, Shr, Increasing, GoodTable, Unary, Decodes, EncodePairs, PairBits, Padding;
    result := [];
    var reader := new BitReader(words);
    ghost var rest := reader.Rest()[|EncodePairs(enc, baseBits, pairs, 0)|..];
    assert reader.Rest() == EncodePairs(enc, baseBits, pairs, 0) + rest && |rest| >= Padding(baseBits);
    var predictedRow, predictedCol := 0, 0;
    for i := 0 to n
      invariant fresh(reader) && reader.words == words && reader.Valid()
      invariant reader.Rest() == EncodePairs(enc, baseBits, pairs, i) + rest
      invariant predictedRow == PredictedRow(pairs, i) && predictedCol == if i == 0 then 0 else pairs[i - 1] % 64 + 1
      invariant result == pairs[..i]
    {
      DeltasAreNatural(pairs, i);
      ghost var tail := EncodePairs(enc, baseBits, pairs, i + 1) + rest;
      EncodePairsStep(enc, baseBits, pairs, i, rest);
      var xDelta, yDelta := ReadPair(reader, baseBits, dec, enc, XDelta(pairs, i), YDelta(pairs, i), tail);
      if yDelta > 0 { predictedCol := 0; }
      var row, col := predictedRow + yDelta, predictedCol + xDelta;
      result := result + [64 * row + col];
      predictedRow, predictedCol := row, col + 1;
    }
  }

  lemma EncodePairsStep(enc: seq<nat>, baseBits: nat, pairs: seq<nat>, i: nat, rest: Bits)
    requires |enc| == 65 && Increasing(pairs) && i < |pairs|
    ensures XDelta(pairs, i) >= 0 && YDelta(pairs, i) >= 0
    ensures EncodePairs(enc, baseBits, pairs, i)
         == PairBits(enc, baseBits, XDelta(pairs, i), YDelta(pairs, i)) + EncodePairs(enc, baseBits, pairs, i + 1)
    ensures EncodePairs(enc, baseBits, pairs, i) + rest
         == PairBits(enc, baseBits, XDelta(pairs, i), YDelta(pairs, i)) + (EncodePairs(enc, baseBits, pairs, i + 1) + rest)
  {}

  /** One pair of differences is read back whatever follows it, given the padding's worth of bits. */
  method ReadPair(reader: BitReader, baseBits: nat, dec: seq<nat>, ghost enc: seq<nat>, ghost x: nat, ghost y: nat, ghost tail: Bits)
    returns (xDelta: nat, yDelta: nat)
    requires GoodTable(enc) && Decodes(dec, enc) && x < |enc| && baseBits <= 32
    requires reader.Valid() && reader.Rest() == PairBits(enc, baseBits, x, y) + tail && |tail| >= Padding(baseBits)
    modifies reader
    ensures reader.Valid() && reader.Rest() == tail && xDelta == x && yDelta == y
  {
    hide Pow2, ToBits, WordBits, CodeBits, Low, Shr, GoodTable, Unary, Decodes, Or, Shl;
    ghost var hi, lo := Shr(y, baseBits), Low(y, baseBits);
    ghost var afterUnary := ToBits(lo, baseBits) + tail;
    ghost var afterCode := Unary(hi) + afterUnary;
    CodeBitsLength(enc, x);
    assert reader.Rest() == CodeBits(enc[x]) + afterCode;
    reader.MaybeFill(12);
    var peek12 := reader.Peek(12);
    PeekInTable(peek12);
    PeekDecodes(enc, dec, x, peek12, afterCode);
    var lookup := dec[peek12];
    xDelta := lookup % 256;
    reader.Drop(lookup / 256);
    var golombHi := reader.ReadUnary(hi, afterUnary);
    reader.MaybeFill(baseBits);
    var golombLo := reader.Peek(baseBits);
    ToBitsInjective(golombLo, lo, baseBits);
    reader.Drop(baseBits);
    Recompose(y, baseBits);
    OrComm(Shl(golombHi, baseBits), golombLo);
    yDelta := Or(Shl(golombHi, baseBits), golombLo);
  }
}
