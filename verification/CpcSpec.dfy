/** What a CPC sketch means: a set of coupons.
  *
  * A coupon is row * 64 + col with row < K and col < 64, that is, one bit of a K x 64 matrix.
  * The functions here are the parts of cpc/include/cpc_sketch_impl.hpp that depend only on the
  * coupons collected so far.
  */
module CpcSpec {
  import opened Words
  import opened U32Tables

  datatype Flavor = Empty | Sparse | Hybrid | Pinned | Sliding

  function DetermineFlavor(k: nat, c: nat): (f: Flavor) {
    if c == 0 then Empty
    else if 32 * c < 3 * k then Sparse
    else if 2 * c < k then Hybrid
    else if 8 * c < 27 * k then Pinned
    else Sliding
  }

  function CorrectOffset(k: nat, c: nat): (w: nat)
    requires k > 0
  {
    if 8 * c < 19 * k then 0 else (8 * c - 19 * k) / (8 * k)
  }

  /** The offset is pinned down by the thresholds at which the window moves. */
  lemma OffsetBounds(k: nat, c: nat, w: nat)
    requires k > 0 && WindowRange(k, c, w)
    ensures CorrectOffset(k, c) == w
  {
    if 8 * c >= 19 * k {
      assert (8 * k) * w == 8 * w * k;
      assert (19 + 8 * w) * k == 19 * k + 8 * w * k;
      assert (27 + 8 * w) * k == 27 * k + 8 * w * k;
      DivUnique(8 * c - 19 * k, 8 * k, w, 8 * c - 19 * k - (8 * k) * w);
    }
  }

  /** Bits a sketch with window offset w keeps in its table: zeros before the window, ones after it. */
  ghost predicate Surprising(s: set<nat>, w: nat, rc: nat) {
    (rc % 64 < w && rc !in s) || (rc % 64 >= w + 8 && rc in s)
  }

  ghost function Surprises(s: set<nat>, k: nat, w: nat): (r: set<nat>) {
    set rc | 0 <= rc < 64 * k && Surprising(s, w, rc)
  }

  /** The matrix bit at rc, as a table, a window and an offset represent it. */
  ghost predicate HasBit(t: set<nat>, window: seq<nat>, w: nat, rc: nat) {
    if |window| == 0 then rc in t
    else if rc % 64 < w then rc !in t
    else if rc % 64 < w + 8 then rc / 64 < |window| && Bit(window[rc / 64], rc % 64 - w)
    else rc in t
  }

  ghost function CouponsOf(t: set<nat>, window: seq<nat>, w: nat, k: nat): (s: set<nat>) {
    set rc | 0 <= rc < 64 * k && HasBit(t, window, w, rc)
  }

  // ---------- the three zones of an update ----------

  lemma SparseInsert(t: set<nat>, k: nat, rc: nat)
    requires rc < 64 * k
    ensures CouponsOf(t + {rc}, [], 0, k) == CouponsOf(t, [], 0, k) + {rc}
  {}

  lemma EarlyDelete(t: set<nat>, window: seq<nat>, w: nat, k: nat, rc: nat)
    requires |window| == k > 0 && rc < 64 * k && rc % 64 < w
    ensures CouponsOf(t - {rc}, window, w, k) == CouponsOf(t, window, w, k) + {rc}
  {}

  lemma LateInsert(t: set<nat>, window: seq<nat>, w: nat, k: nat, rc: nat)
    requires |window| == k > 0 && rc < 64 * k && rc % 64 >= w + 8
    ensures CouponsOf(t + {rc}, window, w, k) == CouponsOf(t, window, w, k) + {rc}
  {}

  /** The window after window[row] |= 1 << c. */
  function WithBit(window: seq<nat>, row: nat, c: nat): (r: seq<nat>)
    requires row < |window|
  {
    window[row := Or(window[row], Shl(1, c))]
  }

  lemma WindowSet(t: set<nat>, window: seq<nat>, w: nat, k: nat, rc: nat)
    requires |window| == k > 0 && rc < 64 * k && w <= rc % 64 < w + 8
    ensures CouponsOf(t, WithBit(window, rc / 64, rc % 64 - w), w, k) == CouponsOf(t, window, w, k) + {rc}
  {
    var row, bits := rc / 64, Shl(1, rc % 64 - w);
    var window' := WithBit(window, row, rc % 64 - w);
    forall x | 0 <= x < 64 * k ensures HasBit(t, window', w, x) <==> HasBit(t, window, w, x) || x == rc {
      if w <= x % 64 < w + 8 && x / 64 == row {
        BitOr(window[row], bits, x % 64 - w);
        ShlIsMul(1, rc % 64 - w);
        BitOne(rc % 64 - w, x % 64 - w);
      }
    }
  }

  /** The byte changes exactly when the coupon is new. */
  lemma WindowNovel(b: nat, c: nat)
    ensures Or(b, Shl(1, c)) == b <==> Bit(b, c)
  {
    forall i: nat ensures Bit(Or(b, Shl(1, c)), i) == (Bit(b, i) || i == c) {
      BitOr(b, Shl(1, c), i);
      ShlIsMul(1, c);
      BitOne(c, i);
    }
    if Bit(b, c) { BitExt(Or(b, Shl(1, c)), b); }
  }

  // ---------- the bit matrix ----------

  const WORD_LIMIT: nat := 0x1_0000_0000_0000_0000

  lemma WordLimit()
    ensures Pow2(64) == WORD_LIMIT
  {
    Pow2Values();
    Pow2Add(32, 32);
  }

  /** The rows of m hold exactly the coupons of s. */
  ghost predicate MatrixOf(m: seq<nat>, s: set<nat>) {
    && (forall i :: 0 <= i < |m| ==> m[i] < WORD_LIMIT)
    && (forall rc :: 0 <= rc < 64 * |m| ==> (rc in s <==> Bit(m[rc / 64], rc % 64)))
  }

  /** A matrix row with the window cleared and the early zone inverted: its ones are the surprises. */
  function SurprisePattern(row: nat, w: nat): (p: nat) {
    Xor(And(row, Xor(Shl(0xFF, w), WORD_LIMIT - 1)), Pow2(w) - 1)
  }

  function WindowByte(row: nat, w: nat): (b: nat) {
    And(Shr(row, w), 0xFF)
  }

  lemma ByteMask(i: nat)
    ensures Bit(0xFF, i) == (i < 8)
  {
    Pow2Values();
    BitMask(8, i);
  }

  lemma SurprisePatternBits(row: nat, w: nat, c: nat)
    requires row < WORD_LIMIT && w < 64
    ensures Bit(SurprisePattern(row, w), c) <==> c < 64 && ((c < w && !Bit(row, c)) || (c >= w + 8 && Bit(row, c)))
  {
    WordLimit();
    var clear := Xor(Shl(0xFF, w), WORD_LIMIT - 1);
    BitXor(And(row, clear), Pow2(w) - 1, c);
    BitAnd(row, clear, c);
    BitXor(Shl(0xFF, w), WORD_LIMIT - 1, c);
    BitShl(0xFF, w, c);
    if w <= c { ByteMask(c - w); }
    BitMask(64, c);
    BitMask(w, c);
    if c >= 64 { BitAbove(row, 64, c); }
  }

  lemma WindowByteBits(row: nat, w: nat, c: nat)
    ensures Bit(WindowByte(row, w), c) <==> c < 8 && Bit(row, w + c)
  {
    BitAnd(Shr(row, w), 0xFF, c);
    ByteMask(c);
    BitShr(row, w, c);
  }

  lemma WindowByteBound(row: nat, w: nat)
    ensures WindowByte(row, w) < 256
  {
    forall i: nat | i >= 8 ensures !Bit(WindowByte(row, w), i) { WindowByteBits(row, w, i); }
    BoundFromBits(WindowByte(row, w), 8);
    Pow2Values();
  }

  /** Slicing a matrix at any offset into a window and a table of surprises loses nothing. */
  lemma SliceKeepsCoupons(m: seq<nat>, s: set<nat>, window: seq<nat>, w: nat)
    requires MatrixOf(m, s) && |m| > 0 && w < 64
    requires |window| == |m| && forall i :: 0 <= i < |m| ==> window[i] == WindowByte(m[i], w)
    requires forall rc :: rc in s ==> rc < 64 * |m|
    ensures CouponsOf(Surprises(s, |m|, w), window, w, |m|) == s
  {
    forall rc | 0 <= rc < 64 * |m| ensures HasBit(Surprises(s, |m|, w), window, w, rc) <==> rc in s {
      if w <= rc % 64 < w + 8 { WindowByteBits(m[rc / 64], w, rc % 64 - w); }
    }
  }

  /** The coupons of one row, read from its word. */
  ghost predicate InRow(pattern: nat, row: nat, rc: nat) {
    rc / 64 == row && Bit(pattern, rc % 64)
  }

  ghost function RowBits(pattern: nat, row: nat): (r: set<nat>) {
    set rc | 64 * row <= rc < 64 * row + 64 && InRow(pattern, row, rc)
  }

  lemma SurprisesRow(m: seq<nat>, s: set<nat>, w: nat, row: nat)
    requires MatrixOf(m, s) && row < |m| && w < 64
    ensures Surprises(s, row + 1, w) == Surprises(s, row, w) + RowBits(SurprisePattern(m[row], w), row)
    ensures Surprises(s, row, w) !! RowBits(SurprisePattern(m[row], w), row)
  {
    var bits := RowBits(SurprisePattern(m[row], w), row);
    forall rc | 64 * row <= rc < 64 * row + 64 ensures rc in bits <==> Surprising(s, w, rc) {
      assert rc / 64 == row && rc % 64 == rc - 64 * row;
      SurprisePatternBits(m[row], w, rc % 64);
    }
  }

  lemma RowBitsErase(pattern: nat, c: nat, row: nat)
    requires Bit(pattern, c) && c < 64
    ensures RowBits(Xor(pattern, Shl(1, c)), row) == RowBits(pattern, row) - {64 * row + c}
    ensures 64 * row + c in RowBits(pattern, row)
  {
    hide Bit, Xor, Shl;
    assert InRow(pattern, row, 64 * row + c);
    forall rc | 64 * row <= rc < 64 * row + 64
      ensures InRow(Xor(pattern, Shl(1, c)), row, rc) <==> InRow(pattern, row, rc) && rc != 64 * row + c
    {
      BitErase(pattern, c, rc % 64);
    }
  }

  lemma RowBitsNone(row: nat)
    ensures RowBits(0, row) == {}
  {
    NoBits();
  }

  // ---------- the representation ----------

  /** Thresholds on the number of coupons between which the window stays at offset w. */
  predicate WindowRange(k: nat, c: nat, w: nat) {
    if w == 0 then 8 * c < 27 * k else (19 + 8 * w) * k <= 8 * c < (27 + 8 * w) * k
  }

  /** The fields of a sketch, as values, represent c coupons. */
  ghost predicate Represents(lgK: nat, c: nat, t: set<nat>, window: seq<nat>, w: nat, first: nat) {
    && 4 <= lgK <= 26
    && c == |CouponsOf(t, window, w, Pow2(lgK))|
    && EMPTY !in CouponsOf(t, window, w, Pow2(lgK))
    && (forall x :: x in t ==> x < 64 * Pow2(lgK))
    && (forall x :: x in t ==> first <= x % 64)
    && first <= w <= 56
    && (if |window| == 0 then w == 0
        else
          && |window| == Pow2(lgK)
          && (forall i :: 0 <= i < |window| ==> window[i] < 256)
          && (forall x :: x in t ==> x % 64 < w || w + 8 <= x % 64))
  }

  /** ... and their number is the right one for the mode and for the window offset. */
  ghost predicate Sound(lgK: nat, c: nat, t: set<nat>, window: seq<nat>, w: nat, first: nat) {
    && Represents(lgK, c, t, window, w, first)
    && (if |window| == 0 then 32 * c < 3 * Pow2(lgK)
        else 32 * c >= 3 * Pow2(lgK) && WindowRange(Pow2(lgK), c, w))
  }

  /** The table of a sound sketch is determined by its coupons. */
  lemma SoundTable(lgK: nat, c: nat, t: set<nat>, window: seq<nat>, w: nat, first: nat)
    requires Represents(lgK, c, t, window, w, first)
    ensures var s := CouponsOf(t, window, w, Pow2(lgK)); t == if |window| == 0 then s else Surprises(s, Pow2(lgK), w)
  {}

  /** The window of a sound sketch sits at the offset the number of coupons prescribes. */
  lemma SoundOffset(lgK: nat, c: nat, t: set<nat>, window: seq<nat>, w: nat, first: nat)
    requires Sound(lgK, c, t, window, w, first)
    ensures w == CorrectOffset(Pow2(lgK), c)
  {
    if |window| > 0 { OffsetBounds(Pow2(lgK), c, w); } else { OffsetBounds(Pow2(lgK), c, 0); }
  }

  /** Columns below the first interesting one are full, so skipping them changes nothing. */
  lemma SkippedColumns(lgK: nat, c: nat, t: set<nat>, window: seq<nat>, w: nat, first: nat, rc: nat)
    requires Represents(lgK, c, t, window, w, first) && rc < 64 * Pow2(lgK) && rc % 64 < first
    ensures rc in CouponsOf(t, window, w, Pow2(lgK))
  {}

  // ---------- building the matrix ----------

  /** A matrix bit before the table is applied: ones before the window, and the window itself. */
  ghost predicate BaseBit(window: seq<nat>, w: nat, rc: nat) {
    rc % 64 < w || (rc / 64 < |window| && w <= rc % 64 < w + 8 && Bit(window[rc / 64], rc % 64 - w))
  }

  /** The matrix after the items of t have each flipped their bit. */
  ghost predicate Flipped(m: seq<nat>, window: seq<nat>, w: nat, t: set<nat>) {
    && (forall i :: 0 <= i < |m| ==> m[i] < WORD_LIMIT)
    && (forall rc :: 0 <= rc < 64 * |m| ==> (Bit(m[rc / 64], rc % 64) <==> (BaseBit(window, w, rc) != (rc in t))))
  }

  function DefaultRow(w: nat): (r: nat) { Pow2(w) - 1 }

  function WindowRow(window: seq<nat>, w: nat, i: nat): (r: nat) {
    if i < |window| then Or(DefaultRow(w), Shl(window[i], w)) else DefaultRow(w)
  }

  lemma WindowRowBits(window: seq<nat>, w: nat, i: nat, c: nat)
    requires w <= 56 && (i < |window| ==> window[i] < 256)
    ensures Bit(WindowRow(window, w, i), c) <==> c < w || (i < |window| && w <= c < w + 8 && Bit(window[i], c - w))
  {
    BitMask(w, c);
    if i < |window| {
      BitOr(DefaultRow(w), Shl(window[i], w), c);
      BitShl(window[i], w, c);
      Pow2Values();
      if c >= w + 8 { BitAbove(window[i], 8, c - w); }
    }
  }

  lemma WindowRowIsWord(window: seq<nat>, w: nat, i: nat)
    requires w <= 56 && (i < |window| ==> window[i] < 256)
    ensures WindowRow(window, w, i) < WORD_LIMIT
  {
    WordLimit();
    forall c: nat | c >= 64 ensures !Bit(WindowRow(window, w, i), c) { WindowRowBits(window, w, i, c); }
    BoundFromBits(WindowRow(window, w, i), 64);
  }

  lemma FlipStart(m: seq<nat>, window: seq<nat>, w: nat)
    requires w <= 56 && forall i :: 0 <= i < |window| ==> window[i] < 256
    requires forall i :: 0 <= i < |m| ==> m[i] == WindowRow(window, w, i)
    ensures Flipped(m, window, w, {})
  {
    forall i | 0 <= i < |m| ensures m[i] < WORD_LIMIT { WindowRowIsWord(window, w, i); }
    forall rc | 0 <= rc < 64 * |m| ensures Bit(m[rc / 64], rc % 64) <==> BaseBit(window, w, rc) {
      WindowRowBits(window, w, rc / 64, rc % 64);
    }
  }

  lemma FlipWord(x: nat, c: nat)
    requires x < WORD_LIMIT && c < 64
    ensures Xor(x, Shl(1, c)) < WORD_LIMIT
    ensures forall i: nat :: Bit(Xor(x, Shl(1, c)), i) == (Bit(x, i) != (i == c))
  {
    WordLimit();
    ShlIsMul(1, c);
    forall i: nat ensures Bit(Xor(x, Shl(1, c)), i) == (Bit(x, i) != (i == c)) {
      BitXor(x, Shl(1, c), i);
      BitOne(c, i);
    }
    forall i: nat | i >= 64 ensures !Bit(Xor(x, Shl(1, c)), i) { BitAbove(x, 64, i); }
    BoundFromBits(Xor(x, Shl(1, c)), 64);
  }

  lemma FlipStep(m: seq<nat>, window: seq<nat>, w: nat, t: set<nat>, x: nat)
    requires Flipped(m, window, w, t) && x < 64 * |m| && x !in t
    ensures Flipped(m[x / 64 := Xor(m[x / 64], Shl(1, x % 64))], window, w, t + {x})
  {
    hide BaseBit;
    FlipWord(m[x / 64], x % 64);
  }

  lemma FlipDone(lgK: nat, c: nat, m: seq<nat>, t: set<nat>, window: seq<nat>, w: nat, first: nat)
    requires Represents(lgK, c, t, window, w, first) && |m| == Pow2(lgK) && Flipped(m, window, w, t)
    ensures MatrixOf(m, CouponsOf(t, window, w, Pow2(lgK)))
  {}

  // ---------- one new coupon ----------

  lemma SparseKeeps(lgK: nat, c: nat, t: set<nat>, rc: nat)
    requires Represents(lgK, c, t, [], 0, 0) && rc < 64 * Pow2(lgK) && rc != EMPTY && rc !in t
    ensures Represents(lgK, c + 1, t + {rc}, [], 0, 0)
    ensures c == |t|
  {
    SparseInsert(t, Pow2(lgK), rc);
    assert CouponsOf(t, [], 0, Pow2(lgK)) == t;
  }

  lemma EarlyKeeps(lgK: nat, c: nat, t: set<nat>, window: seq<nat>, w: nat, first: nat, rc: nat)
    requires Represents(lgK, c, t, window, w, first) && |window| > 0
    requires rc < 64 * Pow2(lgK) && rc % 64 < w && rc in t
    ensures Represents(lgK, c + 1, t - {rc}, window, w, first)
  {
    EarlyDelete(t, window, w, Pow2(lgK), rc);
    assert rc !in CouponsOf(t, window, w, Pow2(lgK));
    assert EMPTY % 64 == 63;
  }

  lemma LateKeeps(lgK: nat, c: nat, t: set<nat>, window: seq<nat>, w: nat, first: nat, rc: nat)
    requires Represents(lgK, c, t, window, w, first) && |window| > 0
    requires rc < 64 * Pow2(lgK) && rc % 64 >= w + 8 && rc !in t && rc != EMPTY
    ensures Represents(lgK, c + 1, t + {rc}, window, w, first)
  {
    LateInsert(t, window, w, Pow2(lgK), rc);
    assert rc !in CouponsOf(t, window, w, Pow2(lgK));
  }

  lemma WindowKeeps(lgK: nat, c: nat, t: set<nat>, window: seq<nat>, w: nat, first: nat, rc: nat)
    requires Represents(lgK, c, t, window, w, first) && |window| > 0
    requires rc < 64 * Pow2(lgK) && w <= rc % 64 < w + 8 && rc != EMPTY && !Bit(window[rc / 64], rc % 64 - w)
    ensures Represents(lgK, c + 1, t, WithBit(window, rc / 64, rc % 64 - w), w, first)
  {
    WindowSet(t, window, w, Pow2(lgK), rc);
    assert rc !in CouponsOf(t, window, w, Pow2(lgK));
    OrByte(window[rc / 64], rc % 64 - w);
  }

  lemma OrByte(b: nat, c: nat)
    requires b < 256 && c < 8
    ensures Or(b, Shl(1, c)) < 256
  {
    Pow2Values();
    forall i: nat | i >= 8 ensures !Bit(Or(b, Shl(1, c)), i) {
      BitOr(b, Shl(1, c), i);
      BitAbove(b, 8, i);
      ShlIsMul(1, c);
      BitOne(c, i);
    }
    BoundFromBits(Or(b, Shl(1, c)), 8);
  }

  /** Eight times the number of coupons at which the window moves on from offset w. */
  function MoveThreshold(k: nat, w: nat): nat {
    (27 + 8 * w) * k
  }

  /** Crossing the upper threshold puts the count inside the next window position's range. */
  lemma NextOffset(k: nat, c: nat, w: nat)
    requires k >= 16 && WindowRange(k, c, w) && 8 * (c + 1) >= MoveThreshold(k, w)
    ensures WindowRange(k, c + 1, w + 1)
    ensures 8 * (c + 1) < 475 * k ==> w + 1 <= 56
  {}

  lemma SameOffset(k: nat, c: nat, w: nat)
    requires WindowRange(k, c, w) && 8 * (c + 1) < MoveThreshold(k, w)
    ensures WindowRange(k, c + 1, w)
  {}
}
