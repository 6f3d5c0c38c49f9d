/** Bit streams packed into 32-bit words through a 64-bit buffer
  * (cpc/include/cpc_compressor_impl.hpp:467-480).
  */
module BitStreams {
  import opened Words

  type Bits = seq<bool>

  /** The n low digits of x, least significant first. */
  function ToBits(x: nat, n: nat): (b: Bits)
    ensures |b| == n
  {
    if n == 0 then [] else [x % 2 == 1] + ToBits(x / 2, n - 1)
  }

  lemma {:induction false} ToBitsAt(x: nat, n: nat, i: nat)
    requires i < n
    ensures ToBits(x, n)[i] == Bit(x, i)
  {
    if i > 0 { ToBitsAt(x / 2, n - 1, i - 1); }
  }

  /** Words of n digits are determined by their digits. */
  lemma ToBitsInjective(x: nat, y: nat, n: nat)
    requires x < Pow2(n) && y < Pow2(n) && ToBits(x, n) == ToBits(y, n)
    ensures x == y
  {
    forall i: nat ensures Bit(x, i) == Bit(y, i) {
      if i < n { ToBitsAt(x, n, i); ToBitsAt(y, n, i); } else { BitAbove(x, n, i); BitAbove(y, n, i); }
    }
    BitExt(x, y);
  }

  /** Putting y above the n digits of x, as bitbuf |= y << bufbits does. */
  lemma AppendBits(x: nat, n: nat, y: nat, m: nat)
    requires x < Pow2(n)
    ensures ToBits(Or(x, Shl(y, n)), n + m) == ToBits(x, n) + ToBits(y, m)
  {
    var z := Or(x, Shl(y, n));
    forall i | 0 <= i < n + m ensures ToBits(z, n + m)[i] == (ToBits(x, n) + ToBits(y, m))[i] {
      ToBitsAt(z, n + m, i);
      BitOr(x, Shl(y, n), i);
      BitShl(y, n, i);
      if i < n { ToBitsAt(x, n, i); } else { BitAbove(x, n, i); ToBitsAt(y, m, i - n); }
    }
  }

  lemma AppendBound(x: nat, n: nat, y: nat, m: nat)
    requires x < Pow2(n) && y < Pow2(m)
    ensures Or(x, Shl(y, n)) < Pow2(n + m)
  {
    var z := Or(x, Shl(y, n));
    forall i: nat | i >= n + m ensures !Bit(z, i) {
      BitOr(x, Shl(y, n), i);
      BitShl(y, n, i);
      BitAbove(x, n, i);
      BitAbove(y, m, i - n);
    }
    BoundFromBits(z, n + m);
  }

  /** Dropping the n low digits. */
  lemma {:induction false} SplitBits(x: nat, n: nat, m: nat)
    ensures ToBits(x, n + m) == ToBits(x, n) + ToBits(Shr(x, n), m)
    decreases n
  {
    if n > 0 { SplitBits(x / 2, n - 1, m); }
  }

  lemma {:induction false} ShrBound(x: nat, n: nat, m: nat)
    requires x < Pow2(n + m)
    ensures Shr(x, n) < Pow2(m)
    decreases n
  {
    if n > 0 { ShrBound(x / 2, n - 1, m); }
  }

  /** x & ((1 << n) - 1) */
  function Low(x: nat, n: nat): (r: nat)
    ensures r < Pow2(n)
  {
    if n == 0 then 0 else 2 * Low(x / 2, n - 1) + x % 2
  }

  lemma {:induction false} LowBits(x: nat, n: nat)
    ensures ToBits(Low(x, n), n) == ToBits(x, n)
  {
    if n > 0 {
      LowBits(x / 2, n - 1);
      assert Low(x, n) / 2 == Low(x / 2, n - 1);
    }
  }

  // ---------- words ----------

  function WordBits(words: seq<nat>): (b: Bits)
    ensures |b| == 32 * |words|
  {
    if words == [] then [] else ToBits(words[0], 32) + WordBits(words[1..])
  }

  lemma {:induction false} WordBitsSnoc(words: seq<nat>, w: nat)
    ensures WordBits(words + [w]) == WordBits(words) + ToBits(w, 32)
  {
    hide ToBits;
    if words == [] {
      assert words + [w] == [w];
      assert [w][1..] == [];
    } else {
      WordBitsSnoc(words[1..], w);
      assert (words + [w])[1..] == words[1..] + [w];
    }
  }

  function Zeros(n: nat): (b: Bits)
    ensures |b| == n
  {
    seq(n, _ => false)
  }

  /** value zeros, then a one */
  function Unary(value: nat): (b: Bits)
    ensures |b| == value + 1
  {
    Zeros(value) + [true]
  }

  lemma OneBits(n: nat)
    ensures ToBits(Shl(1, n), n + 1) == Unary(n)
  {}

  lemma ShlOneBound(n: nat)
    ensures Shl(1, n) < Pow2(n + 1)
  {}

  /** The encoders' state: bits go into bitbuf first and are flushed to words 32 at a time. */
  class BitWriter {
    const words: array<nat>
    var index: nat
    var bitbuf: nat
    var bufbits: nat

    ghost predicate Valid()
      reads this, words
    {
      && index <= words.Length && bufbits < 64 && bitbuf < Pow2(bufbits)
      && forall i :: 0 <= i < index ==> words[i] < Pow2(32)
    }

    /** Everything written so far. */
    ghost function Stream(): Bits
      requires index <= words.Length
      reads this, words
    {
      WordBits(words[..index]) + ToBits(bitbuf, bufbits)
    }

    constructor (words: array<nat>)
      ensures Valid() && this.words == words && bufbits == 0 && index == 0 && Stream() == []
    {
      this.words := words;
      index, bitbuf, bufbits := 0, 0, 0;
    }

    method MaybeFlush()
      requires Valid() && |Stream()| <= 32 * words.Length
      modifies this, words
      ensures Valid() && bufbits < 32 && Stream() == old(Stream())
    {
      hide Pow2, ToBits, Low, Shr;
      if bufbits >= 32 {
        SplitBits(bitbuf, 32, bufbits - 32);
        LowBits(bitbuf, 32);
        ShrBound(bitbuf, 32, bufbits - 32);
        WordBitsSnoc(words[..index], Low(bitbuf, 32));
        words[index] := Low(bitbuf, 32);
        assert words[..index + 1] == old(words[..index]) + [Low(bitbuf, 32)];
        index := index + 1;
        bitbuf := Shr(bitbuf, 32);
        bufbits := bufbits - 32;
      }
    }

    /** Appends the n digits of code. */
    method Put(code: nat, n: nat)
      requires Valid() && bufbits < 32 && n <= 32 && code < Pow2(n) && |Stream()| + n <= 32 * words.Length
      modifies this, words
      ensures Valid() && bufbits < 32 && Stream() == old(Stream()) + ToBits(code, n)
    {
      hide Pow2, ToBits, Or, Shl;
      AppendBits(bitbuf, bufbits, code, n);
      AppendBound(bitbuf, bufbits, code, n);
      bitbuf := Or(bitbuf, Shl(code, bufbits));
      bufbits := bufbits + n;
      MaybeFlush();
    }

    /** Appends n zeros, which the buffer already contains. */
    method Skip(n: nat)
      requires Valid() && bufbits < 32 && n <= 32 && |Stream()| + n <= 32 * words.Length
      modifies this, words
      ensures Valid() && bufbits < 32 && Stream() == old(Stream()) + Zeros(n)
    {
      hide Pow2, ToBits;
      ExtendZeros(bitbuf, bufbits, n);
      bufbits := bufbits + n;
      MaybeFlush();
    }

    method WriteUnary(value: nat)
      requires Valid() && bufbits < 32 && |Stream()| + value + 1 <= 32 * words.Length
      modifies this, words
      ensures Valid() && bufbits < 32 && Stream() == old(Stream()) + Unary(value)
    {
      hide Pow2, ToBits, Shl, WordBits;
      ghost var start := Stream();
      var remaining: nat := value;
      while remaining >= 16
        invariant Valid() && bufbits < 32 && remaining <= value
        invariant Stream() == start + Zeros(value - remaining)
      {
        assert Zeros(value - remaining) + Zeros(16) == Zeros(value - remaining + 16);
        remaining := remaining - 16;
        Skip(16);
      }
      OneBits(remaining);
      ShlOneBound(remaining);
      assert Zeros(value - remaining) + Unary(remaining) == Unary(value);
      Put(Shl(1, remaining), remaining + 1);
    }

    /** Writes the last, partial word. */
    method Finish() returns (numWords: nat)
      requires Valid() && bufbits < 32 && |Stream()| <= 32 * words.Length
      modifies this, words
      ensures numWords <= words.Length && forall i :: 0 <= i < numWords ==> words[i] < Pow2(32)
      ensures old(Stream()) <= WordBits(words[..numWords])
      ensures |WordBits(words[..numWords])| < |old(Stream())| + 32
    {
      hide Pow2, ToBits, Low;
      if bufbits > 0 {
        SplitBits(bitbuf, bufbits, 32 - bufbits);
        LowBits(bitbuf, 32);
        WordBitsSnoc(words[..index], Low(bitbuf, 32));
        words[index] := Low(bitbuf, 32);
        assert words[..index + 1] == old(words[..index]) + [Low(bitbuf, 32)];
        index := index + 1;
        bitbuf, bufbits := 0, 0;
      }
      numWords := index;
    }
  }

  lemma ExtendZeros(x: nat, n: nat, m: nat)
    requires x < Pow2(n)
    ensures x < Pow2(n + m) && ToBits(x, n + m) == ToBits(x, n) + Zeros(m)
  {
    Pow2Mono(n, n + m);
    forall i | 0 <= i < n + m ensures ToBits(x, n + m)[i] == (ToBits(x, n) + Zeros(m))[i] {
      ToBitsAt(x, n + m, i);
      if i < n { ToBitsAt(x, n, i); } else { BitAbove(x, n, i); }
    }
  }

  lemma {:induction false} WordBitsCons(words: seq<nat>, i: nat)
    requires i < |words|
    ensures WordBits(words[i..]) == ToBits(words[i], 32) + WordBits(words[i + 1..])
  {}

  /** byte_trailing_zeros_table */
  function ByteTrailingZeros(b: nat): (c: nat) {
    if b == 0 then 8 else TrailingZeros(b)
  }

  lemma PeekUnary(b: nat, m: nat, rest: Bits)
    requires b < Pow2(8) && ToBits(b, 8) <= Unary(m) + rest
    ensures ByteTrailingZeros(b) == if m < 8 then m else 8
  {
    forall i | 0 <= i < 8 ensures Bit(b, i) == (Unary(m) + rest)[i] { ToBitsAt(b, 8, i); }
    if m < 8 {
      assert Bit(b, m);
      if b == 0 { NoBits(); }
    } else {
      forall i: nat ensures !Bit(b, i) { if i >= 8 { BitAbove(b, 8, i); } }
      NoBits();
      BitExt(b, 0);
    }
  }

  /** The decoders' state: words are taken into bitbuf as bits are needed. */
  class BitReader {
    const words: seq<nat>
    var index: nat
    var bitbuf: nat
    var bufbits: nat

    ghost predicate Valid()
      reads this
    {
      && index <= |words| && bufbits < 64 && bitbuf < Pow2(bufbits)
      && forall i :: 0 <= i < |words| ==> words[i] < Pow2(32)
    }

    /** Everything not consumed yet. */
    ghost function Rest(): Bits
      requires index <= |words|
      reads this
    {
      ToBits(bitbuf, bufbits) + WordBits(words[index..])
    }

    constructor (words: seq<nat>)
      requires forall i :: 0 <= i < |words| ==> words[i] < Pow2(32)
      ensures Valid() && this.words == words && Rest() == WordBits(words)
    {
      this.words := words;
      index, bitbuf, bufbits := 0, 0, 0;
      new;
      assert words[0..] == words;
    }

    /** Makes sure that minbits bits are in the buffer; there is always a word left to take. */
    method MaybeFill(minbits: nat)
      requires Valid() && minbits <= 32 && minbits <= |Rest()|
      modifies this
      ensures Valid() && Rest() == old(Rest()) && minbits <= bufbits
    {
      hide Pow2, ToBits, Or, Shl, WordBits;
      if bufbits < minbits {
        WordBitsCons(words, index);
        AppendBits(bitbuf, bufbits, words[index], 32);
        AppendBound(bitbuf, bufbits, words[index], 32);
        bitbuf := Or(bitbuf, Shl(words[index], bufbits));
        index := index + 1;
        bufbits := bufbits + 32;
      }
    }

    method Peek(n: nat) returns (x: nat)
      requires Valid() && n <= bufbits
      ensures x < Pow2(n) && ToBits(x, n) == Rest()[..n]
    {
      SplitBits(bitbuf, n, bufbits - n);
      LowBits(bitbuf, n);
      x := Low(bitbuf, n);
    }

    method Drop(n: nat)
      requires Valid() && n <= bufbits
      modifies this
      ensures Valid() && Rest() == old(Rest())[n..]
    {
      hide Pow2, ToBits, Shr;
      SplitBits(bitbuf, n, bufbits - n);
      ShrBound(bitbuf, n, bufbits - n);
      bitbuf := Shr(bitbuf, n);
      bufbits := bufbits - n;
    }

    method ReadUnary(ghost value: nat, ghost tail: Bits) returns (result: nat)
      requires Valid() && Rest() == Unary(value) + tail && |tail| >= 7
      modifies this
      ensures Valid() && result == value && Rest() == tail
    {
      hide Pow2, ToBits, ByteTrailingZeros, WordBits;
      var subtotal: nat := 0;
      ghost var left: nat := value;
      while true
        invariant Valid() && subtotal + left == value
        invariant Rest() == Unary(left) + tail
        decreases left
      {
        MaybeFill(8);
        var peek8 := Peek(8);
        var trailingZeros := ByteTrailingZeros(peek8);
        PeekUnary(peek8, left, tail);
        if trailingZeros < 8 {
          Drop(1 + trailingZeros);
          return subtotal + trailingZeros;
        }
        subtotal := subtotal + 8;
        UnaryTail(left, tail);
        Drop(8);
        left := left - 8;
      }
    }
  }

  lemma UnaryTail(m: nat, tail: Bits)
    requires m >= 8
    ensures (Unary(m) + tail)[8..] == Unary(m - 8) + tail
  {}
}
