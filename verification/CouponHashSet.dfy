/** The coupon set of a small HLL sketch, hll/include/CouponHashSet-internal.hpp. */
module CouponHashSets {
  import opened Words
  import opened Sets
  import opened HllSpec
  import opened StrideTables

  const LG_INIT_SET_SIZE: nat := 5

  class CouponHashSet {
    const lgConfigK: nat
    var couponCount: nat
    var lgCouponArrInts: nat
    var coupons: seq<nat>

    /** All of Valid() but the load limit. */
    ghost predicate Shape()
      reads this
    {
      && LG_INIT_SET_SIZE <= lgCouponArrInts && lgCouponArrInts + 3 <= lgConfigK
      && Table(Whole, coupons, lgCouponArrInts)
      && couponCount == |Items(coupons)|
    }

    ghost predicate Valid()
      reads this
    {
      Shape() && 4 * couponCount <= 3 * |coupons|
    }

    ghost function Contents(): (s: set<nat>)
      reads this
    {
      Items(coupons)
    }

    constructor (lgConfigK: nat)
      requires LG_INIT_SET_SIZE + 3 <= lgConfigK
      ensures Valid() && Contents() == {} && this.lgConfigK == lgConfigK
    {
      this.lgConfigK := lgConfigK;
      couponCount := 0;
      lgCouponArrInts := LG_INIT_SET_SIZE;
      coupons := seq(Pow2(LG_INIT_SET_SIZE), _ => EMPTY);
      new;
      NoEntries(Whole, coupons, LG_INIT_SET_SIZE);
    }

    /** Adds a coupon; the set asks for promotion when its largest table is three quarters full. */
    method CouponUpdate(coupon: nat) returns (promote: bool)
      requires Valid() && coupon != EMPTY
      modifies this
      ensures Shape() && Contents() == old(Contents()) + {coupon}
      ensures !promote ==> Valid()
      ensures promote ==> lgCouponArrInts == old(lgCouponArrInts) && 4 * couponCount > 3 * |coupons|
      ensures promote <==>
              (coupon !in old(Contents()) && old(lgCouponArrInts) + 3 == lgConfigK
               && 4 * (old(couponCount) + 1) > 3 * Pow2(old(lgCouponArrInts)))
      ensures lgCouponArrInts == old(lgCouponArrInts)
                + if !promote && coupon !in old(Contents()) && 4 * (old(couponCount) + 1) > 3 * Pow2(old(lgCouponArrInts)) then 1 else 0
    {
      hide DistinctKeys, AllPlaced, Items, Pow2, Found;
      var index := Find(Whole, coupons, lgCouponArrInts, coupon);
      FoundIsExact(Whole, coupons, lgCouponArrInts, coupon, index);
      if coupons[index] != EMPTY {
        assert Items(coupons) + {coupon} == Items(coupons);
        return false;
      }
      PutEntry(Whole, coupons, lgCouponArrInts, index, coupon);
      coupons := coupons[index := coupon];
      couponCount := couponCount + 1;
      promote := CheckGrowOrPromote();
    }

    method CheckGrowOrPromote() returns (promote: bool)
      requires LG_INIT_SET_SIZE <= lgCouponArrInts && lgCouponArrInts + 3 <= lgConfigK && |coupons| == Pow2(lgCouponArrInts)
      requires DistinctKeys(Whole, coupons) && AllPlaced(Whole, coupons, lgCouponArrInts)
      requires couponCount == |Items(coupons)| && 4 * couponCount <= 3 * |coupons| + 4
      modifies this
      ensures Shape() && Contents() == old(Contents()) && (!promote ==> Valid())
      ensures promote ==> lgCouponArrInts == old(lgCouponArrInts) && 4 * couponCount > 3 * |coupons|
      ensures promote <==> (old(lgCouponArrInts) + 3 == lgConfigK && 4 * old(couponCount) > 3 * Pow2(old(lgCouponArrInts)))
      ensures lgCouponArrInts == old(lgCouponArrInts) + if !promote && 4 * old(couponCount) > 3 * Pow2(old(lgCouponArrInts)) then 1 else 0
    {
      hide DistinctKeys, AllPlaced, Items, Pow2;
      LargeTable(lgCouponArrInts);
      if 4 * couponCount > 3 * |coupons| {
        if lgCouponArrInts == lgConfigK - 3 { return true; }
        coupons := Rehash(Whole, coupons, lgCouponArrInts);
        lgCouponArrInts := lgCouponArrInts + 1;
      }
      promote := false;
    }
  }

  lemma LargeTable(lg: nat)
    requires lg >= 3
    ensures Pow2(lg) >= 8 && Pow2(lg + 1) == 2 * Pow2(lg)
  {
    Pow2Mono(3, lg);
    Pow2Values();
  }

  /** Every run up to promotion: the set holds exactly the coupons offered. */
  method Replay(lgConfigK: nat, stream: seq<nat>) returns (s: CouponHashSet, used: nat)
    requires LG_INIT_SET_SIZE + 3 <= lgConfigK && forall i :: 0 <= i < |stream| ==> stream[i] != EMPTY
    ensures used <= |stream| && s.Shape() && s.Contents() == Elems(stream[..used])
    ensures used < |stream| ==> s.lgCouponArrInts + 3 == lgConfigK && 4 * |Elems(stream[..used])| > 3 * Pow2(lgConfigK - 3)
  {
    hide DistinctKeys, AllPlaced, Items, Pow2;
    s := new CouponHashSet(lgConfigK);
    used := 0;
    var promote := false;
    while used < |stream| && !promote
      invariant used <= |stream| && fresh(s) && s.Shape() && s.lgConfigK == lgConfigK && (!promote ==> s.Valid())
      invariant s.Contents() == Elems(stream[..used])
      invariant promote ==> s.lgCouponArrInts + 3 == lgConfigK && 4 * s.couponCount > 3 * |s.coupons|
    {
      ElemsSnoc(stream, used);
      promote := s.CouponUpdate(stream[used]);
      used := used + 1;
    }
  }
}
