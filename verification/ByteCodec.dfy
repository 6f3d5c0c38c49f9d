/** Compression of the sliding window's bytes (cpc/include/cpc_compressor_impl.hpp:438-442, 482-546). */
module ByteCodecs {
  import opened Words
  import opened BitStreams
  import opened PrefixCodes

  /** The concatenated codewords of a byte string. */
  function EncodeBytes(enc: seq<nat>, bytes: seq<nat>): (b: Bits)
    requires forall i :: 0 <= i < |bytes| ==> bytes[i] < |enc|
  {
    if bytes == [] then [] else CodeBits(enc[bytes[0]]) + EncodeBytes(enc, bytes[1..])
  }

  lemma {:induction false} EncodeBytesLength(enc: seq<nat>, bytes: seq<nat>)
    requires GoodTable(enc) && forall i :: 0 <= i < |bytes| ==> bytes[i] < |enc|
    ensures |EncodeBytes(enc, bytes)| <= 12 * |bytes|
  {
    if bytes != [] {
      EncodeBytesLength(enc, bytes[1..]);
      assert GoodEntry(enc[bytes[0]]);
    }
  }

  lemma EncodeBytesStep(enc: seq<nat>, bytes: seq<nat>, n: nat)
    requires n < |bytes| && forall i :: 0 <= i < |bytes| ==> bytes[i] < |enc|
    ensures EncodeBytes(enc, bytes[n..]) == CodeBits(enc[bytes[n]]) + EncodeBytes(enc, bytes[n + 1..])
  {}

  /** Words that always suffice: 12 bits a byte and 11 bits of padding, rounded up. */
  function SafeLengthForWindow(k: nat): (n: nat)
    ensures k <= 0x400_0000 ==> 12 * k + 11 <= 32 * n < 12 * k + 11 + 32
  {
    DivideRoundingUp((12 * k + 11) % U32, 32)
  }

  function DivideRoundingUp(x: nat, y: nat): (q: nat)
    requires y > 0
    ensures x <= q * y < x + y
  {
    var quotient := x / y;
    assert quotient * y + x % y == x;
    if quotient * y == x then quotient else quotient + 1
  }

  method CompressBytes(bytes: seq<nat>, enc: seq<nat>, words: array<nat>) returns (numWords: nat)
    requires GoodTable(enc) && forall i :: 0 <= i < |bytes| ==> bytes[i] < |enc|
    requires 12 * |bytes| + 11 <= 32 * words.Length
    modifies words
    ensures numWords == DivideRoundingUp(|EncodeBytes(enc, bytes)| + 11, 32) <= words.Length
    ensures forall i :: 0 <= i < numWords ==> words[i] < Pow2(32)
    ensures EncodeBytes(enc, bytes) + Zeros(11) <= WordBits(words[..numWords])
  {
    hide Pow2, ToBits, WordBits, EncodeBytes, CodeBits;
    EncodeBytesLength(enc, bytes);
    var writer := new BitWriter(words);
    assert bytes[0..] == bytes;
    for i := 0 to |bytes|
      invariant fresh(writer) && writer.words == words && writer.Valid() && writer.bufbits < 32
      invariant writer.Stream() + EncodeBytes(enc, bytes[i..]) == EncodeBytes(enc, bytes)
    {
      EncodeBytesStep(enc, bytes, i);
      CodeBitsLength(enc, bytes[i]);
      var codeInfo := enc[bytes[i]];
      writer.Put(CodeVal(codeInfo), CodeLen(codeInfo));
    }
    assert bytes[|bytes|..] == [];
    EncodeNone(enc);
    writer.Skip(11);
    numWords := writer.Finish();
  }

  /** Decodes n bytes; bytes is the string that was encoded. */
  method UncompressBytes(n: nat, dec: seq<nat>, words: seq<nat>, ghost enc: seq<nat>, ghost bytes: seq<nat>)
    returns (result: seq<nat>)
    requires GoodTable(enc) && Decodes(dec, enc) && |bytes| == n
    requires forall i :: 0 <= i < |bytes| ==> bytes[i] < |enc|
    requires forall i :: 0 <= i < |words| ==> words[i] < Pow2(32)
    requires EncodeBytes(enc, bytes) + Zeros(11) <= WordBits(words)
    ensures result == bytes
  {
    hide Pow2, ToBits, WordBits, EncodeBytes, CodeBits, Decodes;
    result := [];
    var reader := new BitReader(words);
    assert bytes[0..] == bytes;
    ghost var rest := reader.Rest()[|EncodeBytes(enc, bytes)|..];
    assert reader.Rest() == EncodeBytes(enc, bytes) + rest && |rest| >= 11;
    for i := 0 to n
      invariant fresh(reader) && reader.words == words && reader.Valid()
      invariant reader.Rest() == EncodeBytes(enc, bytes[i..]) + rest
      invariant result == bytes[..i]
    {
      ghost var e := enc[bytes[i]];
      ghost var tail := EncodeBytes(enc, bytes[i + 1..]) + rest;
      EncodeBytesStep(enc, bytes, i);
      CodeBitsLength(enc, bytes[i]);
      assert reader.Rest() == CodeBits(e) + tail;
      reader.MaybeFill(12);
      var peek12 := reader.Peek(12);
      PeekInTable(peek12);
      PeekDecodes(enc, dec, bytes[i], peek12, tail);
      var lookup := dec[peek12];
      result := result + [lookup % 256];
      reader.Drop(lookup / 256);
    }
  }

  lemma CodeBitsLength(enc: seq<nat>, b: nat)
    requires GoodTable(enc) && b < |enc|
    ensures CodeBits(enc[b]) == ToBits(CodeVal(enc[b]), CodeLen(enc[b])) && CodeVal(enc[b]) < Pow2(CodeLen(enc[b]))
    ensures 1 <= |CodeBits(enc[b])| == CodeLen(enc[b]) <= 12
  {}

  lemma EncodeNone(enc: seq<nat>)
    ensures EncodeBytes(enc, []) == []
  {}

  lemma PeekInTable(x: nat)
    requires x < Pow2(12)
    ensures x < 4096
  {}
}
