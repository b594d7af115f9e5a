/**
 * Coupons: `createCoupon` stores a coupon under its upper-cased code, `applyCoupon` checks
 * the coupon's validity window and usage limit and prices a plan with the discount, and
 * `markCouponUsed` counts one use.
 *
 * Dates are milliseconds since the epoch; an absent date or limit is `None`, and a
 * JavaScript comparison with `undefined` is false, so an absent bound never rejects.
 * Amounts are exact reals.
 */
module Coupons {
  import opened Wrappers
  import opened Text
  import opened Collections

  datatype Coupon = Coupon(code: string, discountType: string, discountValue: real,
                           validFrom: Option<int>, validUntil: Option<int>,
                           usedCount: int, maxUsageCount: Option<int>, active: bool)

  // ----- createCoupon -----

  /** The fields a new coupon is created with; the rest are the collection's defaults. */
  datatype NewCoupon = NewCoupon(code: string, discountType: string, discountValue: real,
                                 validUntil: int, maxUsageCount: Option<int>)

  datatype CreateOutcome = CouponFieldsRequired | CouponCreated(coupon: NewCoupon)

  /** A missing `validUntil` is `None`; `discountValue` 0 is falsy and so counts as missing. */
  function CreateCoupon(code: string, discountType: string, discountValue: real,
                        validUntil: Option<int>, maxUsageCount: Option<int>): CreateOutcome
  {
    if code == "" || discountType == "" || discountValue == 0.0 || validUntil.None? then CouponFieldsRequired
    else CouponCreated(NewCoupon(ToUpper(code), discountType, discountValue, validUntil.value, maxUsageCount))
  }

  /**
   * All four fields are required (a zero discount is refused), and the stored code is the
   * given one upper-cased: the same length, no lower-case letter left.
   */
  lemma CreateChecks(code: string, discountType: string, discountValue: real,
                     validUntil: Option<int>, maxUsageCount: Option<int>)
    ensures var out := CreateCoupon(code, discountType, discountValue, validUntil, maxUsageCount);
      (out.CouponFieldsRequired? <==> code == "" || discountType == "" || discountValue == 0.0 || validUntil.None?) &&
      (out.CouponCreated? ==>
         out.coupon.code == ToUpper(code) && |out.coupon.code| == |code| &&
         (forall i :: 0 <= i < |code| ==> !('a' <= out.coupon.code[i] <= 'z')) &&
         out.coupon.discountValue == discountValue && out.coupon.validUntil == validUntil.value)
  {
    UpperIsCanonical(code);
  }

  // ----- applyCoupon -----

  datatype ApplyOutcome =
    | ApplyFieldsRequired                    // 400
    | CouponNotFound                         // 404
    | OutsideValidity                        // 400
    | UsageLimitReached                      // 400
    | ApplyInvalidPlan                       // 404
    | Applied(originalPrice: real, discountAmount: real, finalAmount: real, couponCode: string) // 200

  /** `findOne({ code, active: true })`. */
  function FindActive(coupons: seq<Coupon>, code: string): (r: Option<Coupon>)
    ensures r.Some? ==> r.value in coupons && r.value.code == code && r.value.active
    ensures r.None? <==> forall k :: 0 <= k < |coupons| ==> !(coupons[k].code == code && coupons[k].active)
  {
    if coupons == [] then None
    else if coupons[0].code == code && coupons[0].active then Some(coupons[0])
    else FindActive(coupons[1..], code)
  }

  /** `now < validFrom || now > validUntil`, with absent bounds comparing false. */
  predicate OutsideWindow(c: Coupon, now: int) {
    (c.validFrom.Some? && now < c.validFrom.value) || (c.validUntil.Some? && now > c.validUntil.value)
  }

  /** `usedCount >= maxUsageCount`, with an absent limit comparing false. */
  predicate LimitReached(c: Coupon) {
    c.maxUsageCount.Some? && c.usedCount >= c.maxUsageCount.value
  }

  function Discount(c: Coupon, amount: real): real {
    if c.discountType == "percentage" then amount * c.discountValue / 100.0 else c.discountValue
  }

  function Max(a: real, b: real): real { if a >= b then a else b }

  /** `planAmount` is `None` when the plan does not exist. */
  function ApplyCoupon(code: string, planId: string, coupons: seq<Coupon>, planAmount: Option<real>, now: int)
    : ApplyOutcome
  {
    if code == "" || planId == "" then ApplyFieldsRequired
    else
      match FindActive(coupons, ToUpper(code))
      case None => CouponNotFound
      case Some(c) =>
        if OutsideWindow(c, now) then OutsideValidity
        else if LimitReached(c) then UsageLimitReached
        else if planAmount.None? then ApplyInvalidPlan
        else
          var amount := planAmount.value;
          var discount := Discount(c, amount);
          Applied(amount, discount, Max(amount - discount, 0.0), c.code)
  }

  /**
   * The checks run in order — fields, an active coupon with the upper-cased code, the
   * validity window, the usage limit, the plan — and the first that fails decides.
   */
  lemma ApplyChecks(code: string, planId: string, coupons: seq<Coupon>, planAmount: Option<real>, now: int)
    ensures var out := ApplyCoupon(code, planId, coupons, planAmount, now);
      var found := FindActive(coupons, ToUpper(code));
      (out == ApplyFieldsRequired <==> code == "" || planId == "") &&
      (out == CouponNotFound <==> code != "" && planId != "" && found.None?) &&
      (out == OutsideValidity <==> code != "" && planId != "" && found.Some? && OutsideWindow(found.value, now)) &&
      (out == UsageLimitReached <==>
         code != "" && planId != "" && found.Some? && !OutsideWindow(found.value, now) && LimitReached(found.value)) &&
      (out == ApplyInvalidPlan <==>
         code != "" && planId != "" && found.Some? && !OutsideWindow(found.value, now) &&
         !LimitReached(found.value) && planAmount.None?)
  {
  }

  /** Both ends of the validity window are inside it. */
  lemma WindowIsInclusive(c: Coupon, now: int)
    requires c.validFrom.Some? && c.validUntil.Some? && c.validFrom.value <= c.validUntil.value
    ensures !OutsideWindow(c, c.validFrom.value) && !OutsideWindow(c, c.validUntil.value)
    ensures !OutsideWindow(c, now) <==> c.validFrom.value <= now <= c.validUntil.value
  {
  }

  /**
   * The price never drops below zero, never exceeds a non-negative plan amount when the
   * discount is not negative, and is the amount less the discount whenever that is not
   * negative. A
   * percentage between 0 and 100 of a non-negative amount is a discount between 0 and the
   * amount, leaving `amount * (100 - value) / 100`.
   */
  lemma PriceBounds(code: string, planId: string, coupons: seq<Coupon>, planAmount: Option<real>, now: int)
    requires ApplyCoupon(code, planId, coupons, planAmount, now).Applied?
    ensures var out := ApplyCoupon(code, planId, coupons, planAmount, now);
      var c := FindActive(coupons, ToUpper(code)).value;
      planAmount == Some(out.originalPrice) &&
      out.discountAmount == Discount(c, out.originalPrice) &&
      0.0 <= out.finalAmount &&
      (out.discountAmount >= 0.0 && out.originalPrice >= 0.0 ==> out.finalAmount <= out.originalPrice) &&
      (out.discountAmount <= out.originalPrice ==> out.finalAmount == out.originalPrice - out.discountAmount) &&
      (out.discountAmount > out.originalPrice ==> out.finalAmount == 0.0)
    ensures var out := ApplyCoupon(code, planId, coupons, planAmount, now);
      var c := FindActive(coupons, ToUpper(code)).value;
      c.discountType == "percentage" && 0.0 <= c.discountValue <= 100.0 && 0.0 <= out.originalPrice ==>
        0.0 <= out.discountAmount <= out.originalPrice &&
        out.finalAmount == out.originalPrice * (100.0 - c.discountValue) / 100.0
  {
    var out := ApplyCoupon(code, planId, coupons, planAmount, now);
    var c := FindActive(coupons, ToUpper(code)).value;
    var a := planAmount.value;
    assert FindActive(coupons, ToUpper(code)) == Some(c);
    assert !OutsideWindow(c, now) && !LimitReached(c) && planAmount.Some?;
    assert out == Applied(a, Discount(c, a), Max(a - Discount(c, a), 0.0), c.code);
    if c.discountType == "percentage" && 0.0 <= c.discountValue <= 100.0 && 0.0 <= a {
      var v := c.discountValue;
      assert a * v <= a * 100.0;
      assert 0.0 <= a * v;
      var d := a * v / 100.0;
      assert Discount(c, a) == d;
      assert 0.0 <= d <= a;
      assert Max(a - d, 0.0) == a - d;
      assert a - d == a * (100.0 - v) / 100.0;
    }
  }

  /** The code is matched case-insensitively: applying a code or its upper-case form is the same. */
  lemma CodeCaseIgnored(code: string, planId: string, coupons: seq<Coupon>, planAmount: Option<real>, now: int)
    ensures ApplyCoupon(code, planId, coupons, planAmount, now) ==
            ApplyCoupon(ToUpper(code), planId, coupons, planAmount, now)
  {
    UpperIsCanonical(code);
  }

  // ----- markCouponUsed -----

  function HasCode(code: string): Coupon -> bool {
    (c: Coupon) => c.code == ToUpper(code)
  }

  /**
   * `findOneAndUpdate({ code }, { $inc: { usedCount: 1 } })`: exactly one coupon changes,
   * the first whose code is the upper-cased `code`, active or not, and only its use count,
   * which goes up by one; with no such coupon nothing changes.
   */
  function MarkCouponUsed(code: string, coupons: seq<Coupon>): (r: seq<Coupon>)
    ensures |r| == |coupons|
    ensures forall i :: 0 <= i < |coupons| ==>
      r[i] == (if coupons[i].code == ToUpper(code) && (forall k :: 0 <= k < i ==> coupons[k].code != ToUpper(code))
               then coupons[i].(usedCount := coupons[i].usedCount + 1) else coupons[i])
  {
    var m := HasCode(code);
    assert forall c :: m(c) <==> c.code == ToUpper(code);
    match FindIndex(coupons, m)
    case Some(i) => coupons[i := coupons[i].(usedCount := coupons[i].usedCount + 1)]
    case None => coupons
  }

  /**
   * With codes unique in the collection, marking a use of the coupon just applied brings it
   * one use closer to its limit: once the count reaches the limit, the next application is
   * refused.
   */
  lemma MarkUsedReachesLimit(code: string, planId: string, coupons: seq<Coupon>, planAmount: Option<real>,
                             now: int, i: nat)
    requires forall a, b :: 0 <= a < b < |coupons| ==> coupons[a].code != coupons[b].code
    requires i < |coupons| && coupons[i].code == ToUpper(code) && coupons[i].active
    requires code != "" && planId != "" && !OutsideWindow(coupons[i], now)
    requires coupons[i].maxUsageCount == Some(coupons[i].usedCount + 1)
    ensures ApplyCoupon(code, planId, MarkCouponUsed(code, coupons), planAmount, now) == UsageLimitReached
  {
    var r := MarkCouponUsed(code, coupons);
    assert forall k :: 0 <= k < i ==> coupons[k].code != ToUpper(code);
    assert r[i] == coupons[i].(usedCount := coupons[i].usedCount + 1);
    FindActiveUnique(r, ToUpper(code), i);
  }

  /** In a collection with unique codes, the active coupon with a code is the one at its index. */
  lemma {:induction false} FindActiveUnique(coupons: seq<Coupon>, code: string, i: nat)
    requires i < |coupons| && coupons[i].code == code && coupons[i].active
    requires forall k :: 0 <= k < i ==> coupons[k].code != code
    ensures FindActive(coupons, code) == Some(coupons[i])
  {
    if i > 0 {
      assert coupons[1..][i - 1] == coupons[i];
      FindActiveUnique(coupons[1..], code, i - 1);
    }
  }
}
