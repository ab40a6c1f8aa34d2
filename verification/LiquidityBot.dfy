/** The price the liquidity bot asks, and what its rounding does to a fill. */
module LiquidityBot {
  import opened Basics
  import opened Quotes

  // ---------------------------------------------------------------------------------------------
  // The price
  // ---------------------------------------------------------------------------------------------

  function Ceil(x: real): int { -((-x).Floor) }

  /** The counter tokens asked for `value` base tokens, rounded up; none if it is not a u64. */
  function CounterAmount(value: u64, rate: real): Option<u64> {
    var c := Ceil(value as real * rate);
    if 0 <= c < TWO_64 then Some(c) else None
  }

  /** What the SCI builder makes of an output: all of it, for a partial fill of `counterAmount`. */
  ghost predicate IsBotSci(sci: Sci, amount: Amount, counterAmount: u64, counterTokenId: u64) {
    && sci.validation.None? && sci.pseudoOutput == amount && sci.inputRules.Some?
    && sci.inputRules.value.requiredOutputs == [] && sci.inputRules.value.minPartialFillValue == 0
    && sci.inputRules.value.partialFillOutputs == [Some(Amount(counterAmount, counterTokenId))]
  }

  /** Rounding the whole up and a part of it down: the part stays within one token of its exact price. */
  lemma RoundingsDoNotCompound(v: real, whole: real, t: real, cost: real, rate: real)
    requires 0.0 < v && 0.0 <= t <= v
    requires v * rate <= whole < v * rate + 1.0
    requires cost * v <= whole * t < (cost + 1.0) * v
    ensures rate * t - 1.0 < cost < rate * t + 1.0
  {
    RealOrder(v * rate, whole, t);
    assert v * rate * t == (rate * t) * v;
    RealCancel(rate * t, cost + 1.0, v);
    if t == 0.0 {
      RealCancel(cost, 1.0, v);
    } else {
      calc {
        cost * v;
      <=
        whole * t;
      <  { RealStrict(whole, v * rate + 1.0, t); }
        (v * rate + 1.0) * t;
      ==
        (rate * t) * v + t;
      <=
        (rate * t) * v + v;
      ==
        (rate * t + 1.0) * v;
      }
      RealCancel(cost, rate * t + 1.0, v);
    }
  }

  lemma RealOrder(x: real, y: real, k: real)
    requires x <= y && 0.0 <= k
    ensures x * k <= y * k
  {
  }

  lemma RealStrict(x: real, y: real, k: real)
    requires x < y && 0.0 < k
    ensures x * k < y * k
  {
  }

  lemma RealCancel(x: real, y: real, k: real)
    requires x * k < y * k && 0.0 < k
    ensures x < y
  {
    if y <= x { RealOrder(y, x, k); }
  }

  lemma CeilBounds(x: real)
    ensures x <= Ceil(x) as real < x + 1.0
  {
  }

  /**
   * A quote the bot makes on `v` base tokens at an exact rate is accepted, offers all of them, and
   * charges for any part within one counter token of the exact price; a full fill never pays less
   * than the exact price.
   */
  lemma BotPriceIsFair(sci: Sci, amount: Amount, rate: real, counterTokenId: u64, timestamp: u64, t: u64)
    requires 0 < amount.value && t <= amount.value
    requires CounterAmount(amount.value, rate).Some?
    requires IsBotSci(sci, amount, CounterAmount(amount.value, rate).value, counterTokenId)
    ensures QuoteNew(sci, timestamp).Ok?
    ensures var q := QuoteNew(sci, timestamp).value;
            && q.maxBase == amount.value && CounterTokensCost(q, t).Returns? && CounterTokensCost(q, t).value.Ok?
            && var cost := CounterTokensCost(q, t).value.value;
               && rate * t as real - 1.0 < cost as real < rate * t as real + 1.0
               && (t == amount.value ==> rate * t as real <= cost as real)
  {
    var q := QuoteNew(sci, timestamp).value;
    var v, whole := amount.value, CounterAmount(amount.value, rate).value;
    CostIsFlooredPrice(q, t);
    var cost := Cost(q, t);
    CeilBounds(v as real * rate);
    IntsAsReals(cost, v, whole, t);
    RoundingsDoNotCompound(v as real, whole as real, t as real, cost as real, rate);
    if t == v { ShareAtMostAll(whole, t, v); }
  }

  lemma IntsAsReals(cost: nat, v: nat, whole: nat, t: nat)
    requires cost * v <= whole * t < (cost + 1) * v
    ensures cost as real * v as real <= whole as real * t as real < (cost as real + 1.0) * v as real
  {
    assert (cost * v) as real == cost as real * v as real;
    assert (whole * t) as real == whole as real * t as real;
    assert ((cost + 1) * v) as real == (cost + 1) as real * v as real;
  }
}
