/** The buffering of common/include/xxhash64.h: a stream of bytes hashed in successive chunks. */
module XxHash64Spec {
  type Byte = bv8
  type Word = bv64

  const PRIME1: Word := 11400714785074694791
  const PRIME2: Word := 14029467366897019727
  const PRIME3: Word := 1609587929392839161
  const PRIME4: Word := 9650029242287828579
  const PRIME5: Word := 2870177450012600261

  // Sums and products of words, named so that proofs can leave them closed. Factors are literals, because
  // the verifier multiplies words well only by these.
  function Sum(x: Word, y: Word): Word { x + y }
  function Mix(x: Word, y: Word): Word { x ^ y }
  function Widen(b: Byte): Word { b as Word }
  function Times1(x: Word): Word { x * 11400714785074694791 }
  function Times2(x: Word): Word { x * 14029467366897019727 }
  function Times3(x: Word): Word { x * 1609587929392839161 }
  function Times5(x: Word): Word { x * 2870177450012600261 }

  const MAX_BUFFER_SIZE: nat := 32
  const WORD_SPAN: nat := 0x1_0000_0000_0000_0000

  datatype State = State(s0: Word, s1: Word, s2: Word, s3: Word)

  function Initial(seed: Word): State {
    State(seed + PRIME1 + PRIME2, seed + PRIME2, seed, seed - PRIME1)
  }

  // Left rotations, one function an amount for the same reason.
  function Rotate1(x: Word): Word { (x << 1) | (x >> 63) }
  function Rotate7(x: Word): Word { (x << 7) | (x >> 57) }
  function Rotate11(x: Word): Word { (x << 11) | (x >> 53) }
  function Rotate12(x: Word): Word { (x << 12) | (x >> 52) }
  function Rotate18(x: Word): Word { (x << 18) | (x >> 46) }
  function Rotate23(x: Word): Word { (x << 23) | (x >> 41) }
  function Rotate27(x: Word): Word { (x << 27) | (x >> 37) }
  function Rotate31(x: Word): Word { (x << 31) | (x >> 33) }

  function ProcessSingle(previous: Word, input: Word): Word {
    Times1(Rotate31(Sum(previous, Times2(input))))
  }

  /** Bytes as a little-endian word. */
  function Load(bytes: seq<Byte>): Word {
    if bytes == [] then 0 else WithByte(bytes[0], Load(bytes[1..]))
  }

  function Process(s: State, block: seq<Byte>): State
    requires |block| == MAX_BUFFER_SIZE
  {
    State(ProcessSingle(s.s0, Load(block[..8])), ProcessSingle(s.s1, Load(block[8..16])),
          ProcessSingle(s.s2, Load(block[16..24])), ProcessSingle(s.s3, Load(block[24..])))
  }

  /** The state after all full blocks of data. */
  ghost function Fold(s: State, data: seq<Byte>): (r: State)
    decreases |data|
  {
    if |data| < MAX_BUFFER_SIZE then s else Fold(Process(s, data[..MAX_BUFFER_SIZE]), data[MAX_BUFFER_SIZE..])
  }

  /** The bytes after the last full block. */
  ghost function Rest(data: seq<Byte>): (r: seq<Byte>)
    ensures |r| < MAX_BUFFER_SIZE
    decreases |data|
  {
    if |data| < MAX_BUFFER_SIZE then data else Rest(data[MAX_BUFFER_SIZE..])
  }

  /** Later data continue from the state and the remainder. */
  lemma {:induction false} FoldAppend(s: State, a: seq<Byte>, b: seq<Byte>)
    ensures Fold(s, a + b) == Fold(Fold(s, a), Rest(a) + b) && Rest(a + b) == Rest(Rest(a) + b)
    decreases |a|
  {
    hide Process;
    if |a| >= MAX_BUFFER_SIZE {
      var block, tail := a[..MAX_BUFFER_SIZE], a[MAX_BUFFER_SIZE..];
      assert (a + b)[..MAX_BUFFER_SIZE] == block && (a + b)[MAX_BUFFER_SIZE..] == tail + b;
      FoldAppend(Process(s, block), tail, b);
    }
  }

  lemma ShortFold(s: State, data: seq<Byte>)
    requires |data| < MAX_BUFFER_SIZE
    ensures Fold(s, data) == s && Rest(data) == data
  {}

  // ---------- the digest ----------

  function MergeWord(result: Word, s: Word): Word {
    Sum(Times1(Mix(result, ProcessSingle(0, s))), PRIME4)
  }

  function Converge(s: State): Word {
    var r := Sum(Sum(Sum(Rotate1(s.s0), Rotate7(s.s1)), Rotate12(s.s2)), Rotate18(s.s3));
    MergeWord(MergeWord(MergeWord(MergeWord(r, s.s0), s.s1), s.s2), s.s3)
  }

  function EatEight(result: Word, word: Word): Word {
    Sum(Times1(Rotate27(Mix(result, ProcessSingle(0, word)))), PRIME4)
  }

  function EatFour(result: Word, word: Word): Word {
    Sum(Times2(Rotate23(Mix(result, Times1(word)))), PRIME3)
  }

  function EatOne(result: Word, b: Byte): Word {
    Times1(Rotate11(Mix(result, Times5(Widen(b)))))
  }

  function ShiftXor33(x: Word): Word { x ^ (x >> 33) }
  function ShiftXor29(x: Word): Word { x ^ (x >> 29) }
  function ShiftXor32(x: Word): Word { x ^ (x >> 32) }

  function Avalanche(x: Word): Word {
    ShiftXor32(Times3(ShiftXor29(Times2(ShiftXor33(x)))))
  }

  /** The remainder: eight bytes at a time, then four, then one at a time. */
  ghost function Eights(result: Word, rest: seq<Byte>): Word
    decreases |rest|
  {
    if |rest| >= 8 then Eights(EatEight(result, Load(rest[..8])), rest[8..]) else Four(result, rest)
  }

  ghost function Four(result: Word, rest: seq<Byte>): Word {
    if |rest| >= 4 then Ones(EatFour(result, Load(rest[..4])), rest[4..]) else Ones(result, rest)
  }

  ghost function Ones(result: Word, rest: seq<Byte>): Word
    decreases |rest|
  {
    if rest == [] then result else Ones(EatOne(result, rest[0]), rest[1..])
  }

  function LengthWord(n: nat): Word { (n % WORD_SPAN) as Word }

  function Start(s: State, totalLength: nat): Word {
    Sum(if totalLength >= MAX_BUFFER_SIZE then Converge(s) else Sum(s.s2, PRIME5), LengthWord(totalLength))
  }

  /** The hash of a byte string. */
  ghost function Digest(seed: Word, data: seq<Byte>): Word {
    Avalanche(Eights(Start(Fold(Initial(seed), data), |data| % WORD_SPAN), Rest(data)))
  }

  // ---------- every byte counts ----------

  // The primes are odd, so their products can be undone.
  function Over1(x: Word): Word { x * 614540362697595703 }
  function Over2(x: Word): Word { x * 839798700976720815 }
  function Over3(x: Word): Word { x * 16855272203555305545 }
  function Over5(x: Word): Word { x * 14236653164957433613 }

  lemma Inverse1(x: Word)
    ensures Over1(x * 11400714785074694791) == x
  {}

  lemma Undo1(x: Word)
    ensures Over1(Times1(x)) == x
  {
    Inverse1(x);
    hide Over1;
  }

  lemma Times1Injective(x: Word, y: Word)
    requires Times1(x) == Times1(y)
    ensures x == y
  {
    hide Times1, Over1;
    Undo1(x);
    Undo1(y);
  }

  lemma Inverse2(x: Word)
    ensures Over2(x * 14029467366897019727) == x
  {}

  lemma Undo2(x: Word)
    ensures Over2(Times2(x)) == x
  {
    Inverse2(x);
    hide Over2;
  }

  lemma Times2Injective(x: Word, y: Word)
    requires Times2(x) == Times2(y)
    ensures x == y
  {
    hide Times2, Over2;
    Undo2(x);
    Undo2(y);
  }

  lemma Inverse3(x: Word)
    ensures Over3(x * 1609587929392839161) == x
  {}

  lemma Undo3(x: Word)
    ensures Over3(Times3(x)) == x
  {
    Inverse3(x);
    hide Over3;
  }

  lemma Times3Injective(x: Word, y: Word)
    requires Times3(x) == Times3(y)
    ensures x == y
  {
    hide Times3, Over3;
    Undo3(x);
    Undo3(y);
  }

  lemma Inverse5(x: Word)
    ensures Over5(x * 2870177450012600261) == x
  {}

  lemma Undo5(x: Word)
    ensures Over5(Times5(x)) == x
  {
    Inverse5(x);
    hide Over5;
  }

  lemma Times5Injective(x: Word, y: Word)
    requires Times5(x) == Times5(y)
    ensures x == y
  {
    hide Times5, Over5;
    Undo5(x);
    Undo5(y);
  }

  lemma MixInjective(r: Word, x: Word, y: Word)
    ensures Mix(r, x) == Mix(r, y) ==> x == y
    ensures Mix(x, r) == Mix(y, r) ==> x == y
  {}

  function Less(x: Word, y: Word): Word { x - y }

  lemma LessPlus(r: Word, x: Word)
    ensures Less(r + x, r) == x && Less(x + r, r) == x
  {}

  lemma UndoSum(r: Word, x: Word)
    ensures Less(Sum(r, x), r) == x && Less(Sum(x, r), r) == x
  {
    LessPlus(r, x);
    hide Less;
  }

  lemma SumInjective(r: Word, x: Word, y: Word)
    ensures Sum(r, x) == Sum(r, y) ==> x == y
    ensures Sum(x, r) == Sum(y, r) ==> x == y
  {
    hide Sum, Less;
    UndoSum(r, x);
    UndoSum(r, y);
  }

  lemma Shifted33(x: Word)
    ensures ShiftXor33(x ^ (x >> 33)) == x
  {}

  lemma Unshift33(x: Word)
    ensures ShiftXor33(ShiftXor33(x)) == x
  {
    Shifted33(x);
  }

  lemma Shifted32(x: Word)
    ensures ShiftXor32(x ^ (x >> 32)) == x
  {}

  lemma Unshift32(x: Word)
    ensures ShiftXor32(ShiftXor32(x)) == x
  {
    Shifted32(x);
  }

  function Unshifted29(x: Word): Word { x ^ (x >> 29) ^ (x >> 58) }

  lemma Shifted29(x: Word)
    ensures Unshifted29(x ^ (x >> 29)) == x
  {}

  lemma Unshift29(x: Word)
    ensures Unshifted29(ShiftXor29(x)) == x
  {
    Shifted29(x);
    hide Unshifted29;
  }

  lemma AvalancheInjective(x: Word, y: Word)
    requires Avalanche(x) == Avalanche(y)
    ensures x == y
  {
    hide Times2, Times3, ShiftXor33, ShiftXor29, ShiftXor32, Unshifted29;
    var a, b := Times2(ShiftXor33(x)), Times2(ShiftXor33(y));
    Unshift32(Times3(ShiftXor29(a)));
    Unshift32(Times3(ShiftXor29(b)));
    Times3Injective(ShiftXor29(a), ShiftXor29(b));
    Unshift29(a);
    Unshift29(b);
    Times2Injective(ShiftXor33(x), ShiftXor33(y));
    Unshift33(x);
    Unshift33(y);
  }

  lemma Rotate31Injective(x: Word, y: Word)
    requires Rotate31(x) == Rotate31(y)
    ensures x == y
  {}

  lemma Rotate27Injective(x: Word, y: Word)
    requires Rotate27(x) == Rotate27(y)
    ensures x == y
  {}

  lemma Rotate23Injective(x: Word, y: Word)
    requires Rotate23(x) == Rotate23(y)
    ensures x == y
  {}

  lemma Rotate11Injective(x: Word, y: Word)
    requires Rotate11(x) == Rotate11(y)
    ensures x == y
  {}

  /** A lane depends on every bit of its input and of the lane before. */
  lemma ProcessSingleInjective(p: Word, q: Word, x: Word, y: Word)
    requires ProcessSingle(p, x) == ProcessSingle(q, y)
    ensures p == q <==> x == y
  {
    hide Sum, Times1, Times2, Rotate31;
    Times1Injective(Rotate31(Sum(p, Times2(x))), Rotate31(Sum(q, Times2(y))));
    Rotate31Injective(Sum(p, Times2(x)), Sum(q, Times2(y)));
    SumInjective(p, Times2(x), Times2(y));
    SumInjective(Times2(x), p, q);
    if p == q { Times2Injective(x, y); }
  }

  lemma EatEightInjective(r: Word, q: Word, x: Word, y: Word)
    requires EatEight(r, x) == EatEight(q, y)
    ensures r == q <==> x == y
  {
    hide Sum, Mix, Times1, Rotate27, ProcessSingle;
    var a, b := Mix(r, ProcessSingle(0, x)), Mix(q, ProcessSingle(0, y));
    SumInjective(PRIME4, Times1(Rotate27(a)), Times1(Rotate27(b)));
    Times1Injective(Rotate27(a), Rotate27(b));
    Rotate27Injective(a, b);
    MixInjective(r, ProcessSingle(0, x), ProcessSingle(0, y));
    MixInjective(ProcessSingle(0, x), r, q);
    if r == q { ProcessSingleInjective(0, 0, x, y); }
  }

  lemma EatFourInjective(r: Word, q: Word, x: Word, y: Word)
    requires EatFour(r, x) == EatFour(q, y)
    ensures r == q <==> x == y
  {
    hide Sum, Mix, Times1, Times2, Rotate23;
    var a, b := Mix(r, Times1(x)), Mix(q, Times1(y));
    SumInjective(PRIME3, Times2(Rotate23(a)), Times2(Rotate23(b)));
    Times2Injective(Rotate23(a), Rotate23(b));
    Rotate23Injective(a, b);
    MixInjective(r, Times1(x), Times1(y));
    MixInjective(Times1(x), r, q);
    if r == q { Times1Injective(x, y); }
  }

  lemma ByteOfWord(x: Byte, y: Byte)
    requires Widen(x) == Widen(y)
    ensures x == y
  {}

  lemma EatOneInjective(r: Word, q: Word, x: Byte, y: Byte)
    requires EatOne(r, x) == EatOne(q, y)
    ensures r == q <==> x == y
  {
    hide Mix, Times1, Times5, Rotate11, Widen;
    var u, v := Widen(x), Widen(y);
    Times1Injective(Rotate11(Mix(r, Times5(u))), Rotate11(Mix(q, Times5(v))));
    Rotate11Injective(Mix(r, Times5(u)), Mix(q, Times5(v)));
    MixInjective(r, Times5(u), Times5(v));
    MixInjective(Times5(u), r, q);
    if r == q { Times5Injective(u, v); ByteOfWord(x, y); }
  }

  // ---------- words from bytes ----------

  /** The first word that takes more than n bytes. */
  function Span(n: nat): Word
    requires n < 8
  {
    match n
    case 0 => 1
    case 1 => 0x100
    case 2 => 0x1_0000
    case 3 => 0x100_0000
    case 4 => 0x1_0000_0000
    case 5 => 0x100_0000_0000
    case 6 => 0x1_0000_0000_0000
    case 7 => 0x100_0000_0000_0000
  }

  function WithByte(b: Byte, high: Word): Word { Widen(b) | (high << 8) }

  lemma WithByteParts(b: Byte, high: Word)
    requires high < 0x100_0000_0000_0000
    ensures WithByte(b, high) >> 8 == high && WithByte(b, high) & 0xFF == Widen(b)
  {}

  lemma WithByteBound(b: Byte, high: Word, n: nat)
    requires n < 7 && high < Span(n)
    ensures WithByte(b, high) < Span(n + 1)
  {
    match n
    case 0 =>
    case 1 =>
    case 2 =>
    case 3 =>
    case 4 =>
    case 5 =>
    case 6 =>
  }

  lemma {:induction false} LoadBound(bytes: seq<Byte>)
    requires |bytes| < 8
    ensures Load(bytes) < Span(|bytes|)
  {
    hide Span, WithByte;
    if bytes == [] {
      SpanOfNone();
    } else {
      LoadBound(bytes[1..]);
      WithByteBound(bytes[0], Load(bytes[1..]), |bytes| - 1);
    }
  }

  lemma SpanOfNone()
    ensures Span(0) == 1
  {}

  lemma SpanMost(n: nat)
    requires n < 8
    ensures Span(n) <= 0x100_0000_0000_0000
  {}

  /** Up to eight bytes are recovered from their word. */
  lemma {:induction false} LoadInjective(a: seq<Byte>, b: seq<Byte>)
    requires |a| == |b| <= 8 && Load(a) == Load(b)
    ensures a == b
  {
    hide Load, Widen;
    if a != [] {
      LoadParts(a);
      LoadParts(b);
      ByteOfWord(a[0], b[0]);
      LoadInjective(a[1..], b[1..]);
      assert a == [a[0]] + a[1..] && b == [b[0]] + b[1..];
    }
  }

  lemma LoadParts(a: seq<Byte>)
    requires 0 < |a| <= 8
    ensures Load(a) >> 8 == Load(a[1..]) && Load(a) & 0xFF == Widen(a[0])
  {
    hide Span, WithByte, Widen;
    LoadBound(a[1..]);
    SpanMost(|a| - 1);
    WithByteParts(a[0], Load(a[1..]));
  }

  // ---------- strings that differ in one byte ----------

  lemma {:induction false} OnesKeep(r: Word, q: Word, rest: seq<Byte>)
    requires r != q
    ensures Ones(r, rest) != Ones(q, rest)
    decreases |rest|
  {
    hide EatOne;
    if rest != [] {
      if EatOne(r, rest[0]) == EatOne(q, rest[0]) { EatOneInjective(r, q, rest[0], rest[0]); }
      OnesKeep(EatOne(r, rest[0]), EatOne(q, rest[0]), rest[1..]);
    }
  }

  lemma {:induction false} OnesDiffer(r: Word, a: seq<Byte>, i: nat, x: Byte)
    requires i < |a| && a[i] != x
    ensures Ones(r, a) != Ones(r, a[i := x])
    decreases |a|
  {
    hide EatOne;
    var b := a[i := x];
    if i == 0 {
      assert a[1..] == b[1..];
      if EatOne(r, a[0]) == EatOne(r, x) { EatOneInjective(r, r, a[0], x); }
      OnesKeep(EatOne(r, a[0]), EatOne(r, x), a[1..]);
    } else {
      assert b[1..] == a[1..][i - 1 := x];
      OnesDiffer(EatOne(r, a[0]), a[1..], i - 1, x);
    }
  }

  lemma FourKeep(r: Word, q: Word, rest: seq<Byte>)
    requires r != q
    ensures Four(r, rest) != Four(q, rest)
  {
    hide EatFour, Ones, Load;
    if |rest| >= 4 {
      var w := Load(rest[..4]);
      if EatFour(r, w) == EatFour(q, w) { EatFourInjective(r, q, w, w); }
      OnesKeep(EatFour(r, w), EatFour(q, w), rest[4..]);
    } else {
      OnesKeep(r, q, rest);
    }
  }

  lemma FourDiffer(r: Word, a: seq<Byte>, i: nat, x: Byte)
    requires i < |a| && a[i] != x
    ensures Four(r, a) != Four(r, a[i := x])
  {
    hide EatFour, Ones, Load;
    var b := a[i := x];
    if |a| < 4 {
      OnesDiffer(r, a, i, x);
    } else if i < 4 {
      assert a[4..] == b[4..];
      LoadsDiffer(a[..4], b[..4], i);
      var v, w := Load(a[..4]), Load(b[..4]);
      if EatFour(r, v) == EatFour(r, w) { EatFourInjective(r, r, v, w); }
      OnesKeep(EatFour(r, v), EatFour(r, w), a[4..]);
    } else {
      assert a[..4] == b[..4] && b[4..] == a[4..][i - 4 := x];
      OnesDiffer(EatFour(r, Load(a[..4])), a[4..], i - 4, x);
    }
  }

  lemma LoadsDiffer(a: seq<Byte>, b: seq<Byte>, i: nat)
    requires |a| == |b| <= 8 && i < |a| && a[i] != b[i]
    ensures Load(a) != Load(b)
  {
    hide Load;
    if Load(a) == Load(b) { LoadInjective(a, b); }
  }

  lemma {:induction false} EightsKeep(r: Word, q: Word, rest: seq<Byte>)
    requires r != q
    ensures Eights(r, rest) != Eights(q, rest)
    decreases |rest|
  {
    hide EatEight, Four, Load;
    if |rest| >= 8 {
      var w := Load(rest[..8]);
      if EatEight(r, w) == EatEight(q, w) { EatEightInjective(r, q, w, w); }
      EightsKeep(EatEight(r, w), EatEight(q, w), rest[8..]);
    } else {
      FourKeep(r, q, rest);
    }
  }

  lemma {:induction false} EightsDiffer(r: Word, a: seq<Byte>, i: nat, x: Byte)
    requires i < |a| && a[i] != x
    ensures Eights(r, a) != Eights(r, a[i := x])
    decreases |a|
  {
    hide EatEight, Four, Load;
    var b := a[i := x];
    if |a| < 8 {
      FourDiffer(r, a, i, x);
    } else if i < 8 {
      assert a[8..] == b[8..];
      LoadsDiffer(a[..8], b[..8], i);
      var v, w := Load(a[..8]), Load(b[..8]);
      if EatEight(r, v) == EatEight(r, w) { EatEightInjective(r, r, v, w); }
      EightsKeep(EatEight(r, v), EatEight(r, w), a[8..]);
    } else {
      assert a[..8] == b[..8] && b[8..] == a[8..][i - 8 := x];
      EightsDiffer(EatEight(r, Load(a[..8])), a[8..], i - 8, x);
    }
  }

  /** A changed byte of a block changes the state. */
  lemma ProcessDiffers(s: State, block: seq<Byte>, i: nat, x: Byte)
    requires |block| == MAX_BUFFER_SIZE && i < |block| && block[i] != x
    ensures Process(s, block) != Process(s, block[i := x])
  {
    hide ProcessSingle, Load;
    var b := block[i := x];
    if i < 8 {
      LaneDiffers(s.s0, block[..8], b[..8], i);
    } else if i < 16 {
      LaneDiffers(s.s1, block[8..16], b[8..16], i - 8);
    } else if i < 24 {
      LaneDiffers(s.s2, block[16..24], b[16..24], i - 16);
    } else {
      LaneDiffers(s.s3, block[24..], b[24..], i - 24);
    }
  }

  lemma LaneDiffers(p: Word, a: seq<Byte>, b: seq<Byte>, i: nat)
    requires |a| == |b| <= 8 && i < |a| && a[i] != b[i]
    ensures ProcessSingle(p, Load(a)) != ProcessSingle(p, Load(b))
  {
    hide ProcessSingle, Load;
    LoadsDiffer(a, b, i);
    if ProcessSingle(p, Load(a)) == ProcessSingle(p, Load(b)) { ProcessSingleInjective(p, p, Load(a), Load(b)); }
  }

  /** ... and different states stay different. */
  lemma ProcessKeeps(s: State, t: State, block: seq<Byte>)
    requires |block| == MAX_BUFFER_SIZE && Process(s, block) == Process(t, block)
    ensures s == t
  {
    hide ProcessSingle, Load;
    ProcessSingleInjective(s.s0, t.s0, Load(block[..8]), Load(block[..8]));
    ProcessSingleInjective(s.s1, t.s1, Load(block[8..16]), Load(block[8..16]));
    ProcessSingleInjective(s.s2, t.s2, Load(block[16..24]), Load(block[16..24]));
    ProcessSingleInjective(s.s3, t.s3, Load(block[24..]), Load(block[24..]));
  }

  lemma {:induction false} FoldKeeps(s: State, t: State, data: seq<Byte>)
    requires s != t
    ensures Fold(s, data) != Fold(t, data)
    decreases |data|
  {
    hide Process;
    if |data| >= MAX_BUFFER_SIZE {
      var block := data[..MAX_BUFFER_SIZE];
      if Process(s, block) == Process(t, block) { ProcessKeeps(s, t, block); }
      FoldKeeps(Process(s, block), Process(t, block), data[MAX_BUFFER_SIZE..]);
    }
  }

  /** Strings of the same length that differ in one byte differ in the state if it is part of a block, and
    * in the remainder otherwise. */
  lemma {:induction false} OneByteChanged(s: State, data: seq<Byte>, i: nat, x: Byte)
    requires i < |data| && data[i] != x
    ensures |Rest(data)| <= |data|
    ensures i < |data| - |Rest(data)| ==> Fold(s, data) != Fold(s, data[i := x]) && Rest(data) == Rest(data[i := x])
    ensures var tail := |data| - |Rest(data)|;
            i >= tail ==> (Fold(s, data) == Fold(s, data[i := x]) && Rest(data[i := x]) == Rest(data)[i - tail := x]
                           && Rest(data)[i - tail] == data[i])
    decreases |data|
  {
    hide Process;
    if |data| >= MAX_BUFFER_SIZE {
      var block, rest, b := data[..MAX_BUFFER_SIZE], data[MAX_BUFFER_SIZE..], data[i := x];
      if i < MAX_BUFFER_SIZE {
        assert b[..MAX_BUFFER_SIZE] == block[i := x] && b[MAX_BUFFER_SIZE..] == rest;
        ProcessDiffers(s, block, i, x);
        FoldKeeps(Process(s, block), Process(s, block[i := x]), rest);
        RestLength(rest);
      } else {
        assert b[..MAX_BUFFER_SIZE] == block && b[MAX_BUFFER_SIZE..] == rest[i - MAX_BUFFER_SIZE := x];
        OneByteChanged(Process(s, block), rest, i - MAX_BUFFER_SIZE, x);
      }
    }
  }

  lemma {:induction false} RestLength(data: seq<Byte>)
    ensures |Rest(data)| <= |data|
    decreases |data|
  {
    if |data| >= MAX_BUFFER_SIZE { RestLength(data[MAX_BUFFER_SIZE..]); }
  }

  /** Changing one byte after the last block, hence any byte of a string of less than 32, changes the hash. */
  lemma DigestDiffers(seed: Word, data: seq<Byte>, i: nat, x: Byte)
    requires |data| - |Rest(data)| <= i < |data| && data[i] != x
    ensures Digest(seed, data) != Digest(seed, data[i := x])
  {
    hide Fold, Rest, Initial, Start, Eights, Avalanche;
    OneByteChanged(Initial(seed), data, i, x);
    var start := Start(Fold(Initial(seed), data), |data| % WORD_SPAN);
    var rest, j := Rest(data), i - (|data| - |Rest(data)|);
    EightsDiffer(start, rest, j, x);
    var u, v := Eights(start, rest), Eights(start, rest[j := x]);
    if Avalanche(u) == Avalanche(v) { AvalancheInjective(u, v); }
  }

  lemma InitialIs(seed: Word)
    ensures Initial(seed).s2 == seed
  {}

  lemma ShortStart(s: State, n: nat)
    requires n < MAX_BUFFER_SIZE
    ensures n % WORD_SPAN == n && Start(s, n) == Sum(Sum(s.s2, PRIME5), LengthWord(n))
  {
    hide Sum, LengthWord, Converge;
  }

  lemma ShortDigest(seed: Word, data: seq<Byte>)
    requires |data| < MAX_BUFFER_SIZE
    ensures Digest(seed, data) == Avalanche(Eights(Sum(Sum(seed, PRIME5), LengthWord(|data|)), data))
  {
    hide Fold, Rest, Initial, Start, Eights, Avalanche, Sum, LengthWord;
    ShortStart(Initial(seed), |data|);
    ShortFold(Initial(seed), data);
    InitialIs(seed);
  }

  /** Another seed changes the hash of every string of less than 32 bytes. */
  lemma SeedMatters(seed: Word, other: Word, data: seq<Byte>)
    requires |data| < MAX_BUFFER_SIZE && seed != other
    ensures Digest(seed, data) != Digest(other, data)
  {
    hide Eights, Avalanche, Sum, Digest, LengthWord;
    ShortDigest(seed, data);
    ShortDigest(other, data);
    var n := LengthWord(|data|);
    var r, q := Sum(Sum(seed, PRIME5), n), Sum(Sum(other, PRIME5), n);
    SumInjective(n, Sum(seed, PRIME5), Sum(other, PRIME5));
    SumInjective(PRIME5, seed, other);
    EightsKeep(r, q, data);
    var u, v := Eights(r, data), Eights(q, data);
    if Avalanche(u) == Avalanche(v) { AvalancheInjective(u, v); }
  }

  ghost function Flatten(chunks: seq<seq<Byte>>): seq<Byte> {
    if chunks == [] then [] else Flatten(chunks[..|chunks| - 1]) + chunks[|chunks| - 1]
  }

  lemma FlattenNext(chunks: seq<seq<Byte>>, i: nat)
    requires i < |chunks|
    ensures Flatten(chunks[..i + 1]) == Flatten(chunks[..i]) + chunks[i]
  {
    assert chunks[..i + 1][..i] == chunks[..i];
  }
}

module XxHash64s {
  import opened XxHash64Spec

  class XxHash64 {
    ghost const seed: Word
    /** The bytes added so far. */
    ghost var data: seq<Byte>
    var state: State
    const buffer: array<Byte>
    var bufferSize: nat
    var totalLength: nat

    ghost predicate Valid()
      reads this, buffer
    {
      && buffer.Length == MAX_BUFFER_SIZE && bufferSize < MAX_BUFFER_SIZE
      && state == Fold(Initial(seed), data) && buffer[..bufferSize] == Rest(data)
      && totalLength == |data| % WORD_SPAN
    }

    constructor (seed: Word)
      ensures Valid() && data == [] && this.seed == seed && fresh(buffer)
    {
      this.seed := seed;
      data := [];
      state := Initial(seed);
      buffer := new Byte[MAX_BUFFER_SIZE](_ => 0);
      bufferSize, totalLength := 0, 0;
    }

    method Add(input: seq<Byte>) returns (added: bool)
      requires Valid()
      modifies this, buffer
      ensures Valid() && data == old(data) + input && (added <==> input != [])
    {
      hide Fold, Process, Initial, Rest;
      if input == [] { assert data + input == data; return false; }
      ghost var whole := Rest(data) + input;
      FoldAppend(Initial(seed), data, input);
      LengthAdds(data, input);
      totalLength := (totalLength + |input|) % WORD_SPAN;
      data := data + input;
      if bufferSize + |input| < MAX_BUFFER_SIZE {
        Append(input);
        ShortFold(old(state), whole);
        return true;
      }
      var pos := FillBuffer(input);
      Blocks(input, pos, old(state), whole);
      added := true;
    }

    /** Copies input behind the buffered bytes. */
    method Append(input: seq<Byte>)
      requires buffer.Length == MAX_BUFFER_SIZE && bufferSize + |input| <= MAX_BUFFER_SIZE
      modifies this`bufferSize, buffer
      ensures bufferSize == old(bufferSize) + |input| && buffer[..bufferSize] == old(buffer[..bufferSize]) + input
    {
      var i := 0;
      while i < |input|
        invariant i <= |input| && bufferSize == old(bufferSize) + i
        invariant buffer[..bufferSize] == old(buffer[..bufferSize]) + input[..i]
      {
        buffer[bufferSize] := input[i];
        bufferSize, i := bufferSize + 1, i + 1;
      }
      assert input[..i] == input;
    }

    /** Completes and processes a buffered block; returns the number of bytes used for it. */
    method FillBuffer(input: seq<Byte>) returns (pos: nat)
      requires buffer.Length == MAX_BUFFER_SIZE && bufferSize < MAX_BUFFER_SIZE && bufferSize + |input| >= MAX_BUFFER_SIZE
      modifies this`bufferSize, this`state, buffer
      ensures pos <= |input|
      ensures var whole := old(buffer[..bufferSize]) + input;
              Fold(old(state), whole) == Fold(state, input[pos..]) && Rest(whole) == Rest(input[pos..])
    {
      hide Process, Rest, Fold;
      ghost var whole := buffer[..bufferSize] + input;
      pos := 0;
      if bufferSize > 0 {
        pos := MAX_BUFFER_SIZE - bufferSize;
        Append(input[..pos]);
        assert buffer[..] == whole[..MAX_BUFFER_SIZE] && whole[MAX_BUFFER_SIZE..] == input[pos..];
        OneBlock(state, whole);
        state := Process(state, buffer[..]);
      } else {
        assert whole == input[pos..];
      }
    }

    /** Processes the full blocks of input from pos on and buffers the remainder. */
    method Blocks(input: seq<Byte>, from: nat, ghost s: State, ghost whole: seq<Byte>)
      requires buffer.Length == MAX_BUFFER_SIZE && from <= |input|
      requires Fold(s, whole) == Fold(state, input[from..]) && Rest(whole) == Rest(input[from..])
      modifies this`bufferSize, this`state, buffer
      ensures bufferSize < MAX_BUFFER_SIZE && state == Fold(s, whole) && buffer[..bufferSize] == Rest(whole)
    {
      hide Process, Rest, Fold;
      var pos := from;
      while pos + MAX_BUFFER_SIZE <= |input|
        invariant pos <= |input| && Fold(s, whole) == Fold(state, input[pos..]) && Rest(whole) == Rest(input[pos..])
      {
        var tail := input[pos..];
        OneBlock(state, tail);
        assert tail[..MAX_BUFFER_SIZE] == input[pos..pos + MAX_BUFFER_SIZE] && tail[MAX_BUFFER_SIZE..] == input[pos + MAX_BUFFER_SIZE..];
        state := Process(state, input[pos..pos + MAX_BUFFER_SIZE]);
        pos := pos + MAX_BUFFER_SIZE;
      }
      ShortFold(state, input[pos..]);
      bufferSize := 0;
      Append(input[pos..]);
    }

    /** The hash of the bytes added so far. */
    method Hash() returns (result: Word)
      requires Valid()
      ensures result == Digest(seed, data)
    {
      hide Fold, Rest, Start, EatEight, EatFour, EatOne, Load, Initial, Avalanche;
      result := Start(state, totalLength);
      ghost var start := result;
      var rest, pos := buffer[..bufferSize], 0;
      assert rest[pos..] == rest;
      while pos + 8 <= |rest|
        invariant pos <= |rest| && Eights(result, rest[pos..]) == Eights(start, rest)
      {
        assert rest[pos..][..8] == rest[pos..pos + 8] && rest[pos..][8..] == rest[pos + 8..];
        result := EatEight(result, Load(rest[pos..pos + 8]));
        pos := pos + 8;
      }
      ghost var end := Four(result, rest[pos..]);
      if pos + 4 <= |rest| {
        assert rest[pos..][..4] == rest[pos..pos + 4] && rest[pos..][4..] == rest[pos + 4..];
        result := EatFour(result, Load(rest[pos..pos + 4]));
        pos := pos + 4;
      }
      while pos != |rest|
        invariant pos <= |rest| && Ones(result, rest[pos..]) == end
      {
        assert rest[pos..][0] == rest[pos] && rest[pos..][1..] == rest[pos + 1..];
        result := EatOne(result, rest[pos]);
        pos := pos + 1;
      }
      result := Avalanche(result);
    }
  }

  lemma LengthAdds(a: seq<Byte>, b: seq<Byte>)
    ensures (|a| % WORD_SPAN + |b|) % WORD_SPAN == |a + b| % WORD_SPAN
  {}

  lemma OneBlock(s: State, data: seq<Byte>)
    requires |data| >= MAX_BUFFER_SIZE
    ensures Fold(s, data) == Fold(Process(s, data[..MAX_BUFFER_SIZE]), data[MAX_BUFFER_SIZE..])
    ensures Rest(data) == Rest(data[MAX_BUFFER_SIZE..])
  {}

  /** Constructor, add and hash in one. */
  method HashOnce(input: seq<Byte>, seed: Word) returns (result: Word)
    ensures result == Digest(seed, input)
  {
    hide Digest, Fold, Rest, Initial;
    var hasher := new XxHash64(seed);
    var _ := hasher.Add(input);
    assert [] + input == input;
    result := hasher.Hash();
  }

  /** However the bytes are split into chunks, the hash is that of the whole. */
  method HashChunks(chunks: seq<seq<Byte>>, seed: Word) returns (result: Word)
    ensures result == Digest(seed, Flatten(chunks))
  {
    hide Digest, Fold, Rest, Initial, Flatten;
    var hasher := new XxHash64(seed);
    NoChunks(chunks);
    var i := 0;
    while i < |chunks|
      invariant i <= |chunks| && fresh(hasher) && fresh(hasher.buffer) && hasher.Valid() && hasher.seed == seed
      invariant hasher.data == Flatten(chunks[..i])
    {
      FlattenNext(chunks, i);
      var _ := hasher.Add(chunks[i]);
      i := i + 1;
    }
    assert chunks[..i] == chunks;
    result := hasher.Hash();
  }

  lemma NoChunks(chunks: seq<seq<Byte>>)
    ensures Flatten(chunks[..0]) == []
  {}
}
