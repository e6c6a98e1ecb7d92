/** The deploy fee a gateway quotes and the fee the signer is willing to sign. */
module Fees {
  import opened Machine

  const NATIVE_TRANSFER_METER: u64 := 1_210
  const MAX_METER_LIMIT: u64 := 12_500_000
  const MAX_DEPLOY_METER_LIMIT: u64 := 50_000_000
  const MAX_CALL_ARGS: nat := 128 * 1024
  const DEPLOY_FEE_MICRO_USD: u128 := 5_000_000
  const FEE_BAND_FLOOR_MICRO_USD: u128 := 500
  const FEE_BAND_CEILING_MICRO_USD: u128 := 1_000
  const DEPLOY_TO_TRANSFER_FLOOR: u128 := DEPLOY_FEE_MICRO_USD / FEE_BAND_CEILING_MICRO_USD
  const DEPLOY_TO_TRANSFER_CEILING: u128 := DEPLOY_FEE_MICRO_USD / FEE_BAND_FLOOR_MICRO_USD

  /** The prices in a `NodeInfo`. */
  datatype Prices = Prices(transferFee: u128, deployFee: Option<u128>, rate: Option<u128>, unit: Option<u128>)

  /** `vm_call_fee` */
  function VmCallFee(transferFee: u128, meterLimit: u64): u128 {
    transferFee
  }

  /** `check_call_under` */
  predicate CheckCallUnder(ceiling: u64, meterLimit: u64, argsLen: nat, fee: u128, transferFee: u128, deploy: bool) {
    var required := VmCallFee(transferFee, meterLimit);
    && NATIVE_TRANSFER_METER <= meterLimit <= ceiling
    && argsLen <= MAX_CALL_ARGS
    && fee >= required
    && !(deploy && fee == required)
    && (deploy ==>
          var floor := SaturatingMul128(transferFee, DEPLOY_TO_TRANSFER_FLOOR);
          var top := SaturatingMul128(SaturatingAdd128(transferFee, 1), DEPLOY_TO_TRANSFER_CEILING);
          floor <= fee - required <= top)
    && !(!deploy && fee > required)
  }

  /** `check_call_to`, given whether the target is the deploy address. */
  predicate CheckCallTo(deploy: bool, meterLimit: u64, argsLen: nat, fee: u128, transferFee: u128) {
    CheckCallUnder(if deploy then MAX_DEPLOY_METER_LIMIT else MAX_METER_LIMIT, meterLimit, argsLen, fee, transferFee, deploy)
  }

  /** `a.saturating_mul(b) / rate`, zero for a zero rate as `checked_div(..).unwrap_or(0)` gives. */
  function PricedAt(microUsd: u128, unit: u128, rate: u128): u128 {
    if rate == 0 then 0
    else
      QuotientWithin(SaturatingMul128(microUsd, unit), rate);
      SaturatingMul128(microUsd, unit) / rate
  }

  /** `deploy_fee_of` */
  function DeployFeeOf(info: Prices): Option<u128> {
    if info.deployFee.None? || info.rate.None? || info.unit.None? then None
    else
      var fee, rate, unit := info.deployFee.value, info.rate.value, info.unit.value;
      if rate == 0 || unit == 0 || fee != PricedAt(DEPLOY_FEE_MICRO_USD, unit, rate) then None
      else if info.transferFee < PricedAt(FEE_BAND_FLOOR_MICRO_USD, unit, rate)
              || info.transferFee > PricedAt(FEE_BAND_CEILING_MICRO_USD, unit, rate) then None
      else Some(fee)
  }

  /** The fee `call_payable_expecting` and `deploy_with_params_expecting` put on a deploy. */
  function DeployCallFee(info: Prices, meterLimit: u64, quote: u128): u128 {
    SaturatingAdd128(VmCallFee(info.transferFee, meterLimit), quote)
  }

  // ---- floor division ----

  lemma QuotientWithin(a: nat, d: nat)
    requires d > 0
    ensures 0 <= a / d <= a
    ensures a / d * d <= a < (a / d + 1) * d
  {
    var q, r := a / d, a % d;
    assert a == q * d + r;
    assert (q + 1) * d == q * d + d;
    MulNonNegative(q, d - 1);
    assert q * d == q * (d - 1) + q;
  }

  lemma AtMostQuotient(n: nat, a: nat, d: nat)
    requires d > 0
    ensures n <= a / d <==> n * d <= a
  {
    QuotientWithin(a, d);
    var q := a / d;
    if n <= q {
      MulNonNegative(q - n, d);
      assert (q - n) * d == q * d - n * d;
    } else {
      MulNonNegative(n - q - 1, d);
      assert (n - q - 1) * d == n * d - (q + 1) * d;
    }
  }

  // ---- the quote and the check agree ----

  lemma Rearranged(n: nat, t: nat, d: nat)
    ensures n * t * d == n * (t * d)
  {
  }

  /** The upper bound of the check never refuses an accepted quote. */
  lemma QuoteIsUnderTheTop(info: Prices, quote: u128)
    requires DeployFeeOf(info) == Some(quote)
    ensures quote <= SaturatingMul128(SaturatingAdd128(info.transferFee, 1), DEPLOY_TO_TRANSFER_CEILING)
  {
    var t, rate, unit := info.transferFee, info.rate.value, info.unit.value;
    if 10_000 * (t + 1) < quote {
      AtMostQuotient(10_000 * (t + 1), SaturatingMul128(DEPLOY_FEE_MICRO_USD, unit), rate);
      AtMostQuotient(t + 1, SaturatingMul128(FEE_BAND_FLOOR_MICRO_USD, unit), rate);
      Rearranged(10_000, t + 1, rate);
      MulNonNegative(t + 1, rate);
    }
  }

  /** The lower bound holds of an accepted quote exactly when it could be computed without saturating. */
  lemma QuoteIsOverTheFloor(info: Prices, quote: u128)
    requires DeployFeeOf(info) == Some(quote)
    ensures 5_000 * info.transferFee <= quote <==> 5_000 * info.transferFee * info.rate.value <= U128_MAX
  {
    var t: nat, rate, unit := info.transferFee, info.rate.value, info.unit.value;
    AtMostQuotient(5_000 * t, SaturatingMul128(DEPLOY_FEE_MICRO_USD, unit), rate);
    AtMostQuotient(t, SaturatingMul128(FEE_BAND_CEILING_MICRO_USD, unit), rate);
    Rearranged(5_000, t, rate);
  }

  /**
   * A quote the client accepts, added to the transfer fee, passes the signer's own check exactly when
   * it is not zero and neither the priced floor nor the whole fee leaves 128 bits.
   */
  lemma QuoteIsSignable(info: Prices, quote: u128, meterLimit: u64, argsLen: nat)
    requires DeployFeeOf(info) == Some(quote)
    requires NATIVE_TRANSFER_METER <= meterLimit <= MAX_DEPLOY_METER_LIMIT && argsLen <= MAX_CALL_ARGS
    ensures CheckCallTo(true, meterLimit, argsLen, DeployCallFee(info, meterLimit, quote), info.transferFee)
            <==> && quote > 0
                 && 5_000 * info.transferFee * info.rate.value <= U128_MAX
                 && 5_001 * info.transferFee <= U128_MAX
  {
    QuoteIsUnderTheTop(info, quote);
    QuoteIsOverTheFloor(info, quote);
    hide DeployFeeOf;
  }

  /** With amounts that fit, every accepted quote is signable. */
  lemma FittingQuoteIsSignable(info: Prices, quote: u128, meterLimit: u64, argsLen: nat)
    requires DeployFeeOf(info) == Some(quote) && quote > 0
    requires DEPLOY_FEE_MICRO_USD * info.unit.value <= U128_MAX && info.transferFee + quote <= U128_MAX
    requires NATIVE_TRANSFER_METER <= meterLimit <= MAX_DEPLOY_METER_LIMIT && argsLen <= MAX_CALL_ARGS
    ensures CheckCallTo(true, meterLimit, argsLen, info.transferFee + quote, info.transferFee)
  {
    var t, rate, unit := info.transferFee, info.rate.value, info.unit.value;
    AtMostQuotient(t, SaturatingMul128(FEE_BAND_CEILING_MICRO_USD, unit), rate);
    Rearranged(5_000, t, rate);
    QuoteIsOverTheFloor(info, quote);
    QuoteIsSignable(info, quote, meterLimit, argsLen);
  }

  /** Without that, an accepted quote can be one no deploy can be signed with. */
  lemma AQuoteCanBeUnsignable()
    ensures exists info: Prices, quote: u128 ::
              DeployFeeOf(info) == Some(quote) && quote > 0
              && !CheckCallTo(true, NATIVE_TRANSFER_METER, 0, DeployCallFee(info, NATIVE_TRANSFER_METER, quote),
                              info.transferFee)
  {
    var unit := U128_MAX / 1_000;
    var info := Prices(500 * unit, Some(U128_MAX / 2), Some(2), Some(unit));
    assert DeployFeeOf(info) == Some(U128_MAX / 2);
    QuoteIsSignable(info, U128_MAX / 2, NATIVE_TRANSFER_METER, 0);
  }

  /** A rate far above the deploy price is quoted as nothing, and nothing pays for no deploy. */
  lemma AZeroQuoteIsUnsignable()
    ensures var info := Prices(0, Some(0), Some(10_000_000), Some(1));
            && DeployFeeOf(info) == Some(0)
            && !CheckCallTo(true, NATIVE_TRANSFER_METER, 0, DeployCallFee(info, NATIVE_TRANSFER_METER, 0), info.transferFee)
  {
    var info := Prices(0, Some(0), Some(10_000_000), Some(1));
    assert DeployFeeOf(info) == Some(0);
    QuoteIsSignable(info, 0, NATIVE_TRANSFER_METER, 0);
  }

  // ---- the check and the quote, in unbounded numbers ----

  /** A call pays exactly the transfer fee: not less, and not more. */
  lemma CallFeeIsExact(meterLimit: u64, argsLen: nat, fee: u128, transferFee: u128)
    ensures CheckCallTo(false, meterLimit, argsLen, fee, transferFee) <==>
              1_210 <= meterLimit <= 12_500_000 && argsLen <= 131_072 && fee == transferFee
  {
  }

  /** A deploy pays more than the transfer fee, by between 5,000 and 10,000 times it, within 128 bits. */
  lemma DeployFeeIsExact(meterLimit: u64, argsLen: nat, fee: u128, transferFee: u128)
    ensures CheckCallTo(true, meterLimit, argsLen, fee, transferFee) <==>
              && 1_210 <= meterLimit <= 50_000_000 && argsLen <= 131_072 && fee > transferFee
              && (5_000 * transferFee <= fee - transferFee
                  || (5_000 * transferFee > U128_MAX && fee - transferFee == U128_MAX))
              && fee - transferFee <= 10_000 * (transferFee + 1)
  {
  }

  /** So many millionths of a dollar in units, cut off at 128 bits. */
  function Capped(microUsd: nat, unit: nat): int {
    if microUsd * unit > U128_MAX then U128_MAX else microUsd * unit
  }

  /** `n` at this rate is no more than that. */
  predicate AtMost(n: nat, microUsd: nat, unit: nat, rate: nat) {
    n * rate <= Capped(microUsd, unit)
  }

  /** The price is a larger whole number than `n`. */
  predicate Above(microUsd: nat, unit: nat, rate: nat, n: nat) {
    AtMost(n + 1, microUsd, unit, rate)
  }

  /** The largest whole number that is no more. */
  predicate IsPrice(n: nat, microUsd: nat, unit: nat, rate: nat) {
    AtMost(n, microUsd, unit, rate) && !Above(microUsd, unit, rate, n)
  }

  /**
   * A quote is accepted if and only if rate and unit are given and not zero, the quote is five dollars at
   * that rate and the transfer fee lies between the prices of 500 and of 1,000 millionths of a dollar.
   */
  lemma QuoteIsExact(info: Prices, quote: u128)
    ensures DeployFeeOf(info) == Some(quote) <==>
              && info.deployFee == Some(quote) && info.rate.Some? && info.unit.Some?
              && info.rate.value > 0 && info.unit.value > 0
              && IsPrice(quote, 5_000_000, info.unit.value, info.rate.value)
              && !Above(500, info.unit.value, info.rate.value, info.transferFee)
              && AtMost(info.transferFee, 1_000, info.unit.value, info.rate.value)
  {
    if info.rate.Some? && info.unit.Some? && info.rate.value > 0 {
      var unit, rate := info.unit.value, info.rate.value;
      AtMostQuotient(quote, Capped(5_000_000, unit), rate);
      AtMostQuotient(quote + 1, Capped(5_000_000, unit), rate);
      AtMostQuotient(info.transferFee + 1, Capped(500, unit), rate);
      AtMostQuotient(info.transferFee, Capped(1_000, unit), rate);
      hide SaturatingMul128;
    }
  }
}
