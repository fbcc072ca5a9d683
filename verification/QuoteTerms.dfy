/** The whole quote in plain arithmetic: what must hold between the request, the pool and the answer, without the
    functions the quote is computed with (crates/flashnet/src/models.rs). */
module QuoteTerms {
  import opened Prelude
  import opened Quote

  /** What is asked of the pool: the amount itself, or the next multiple of 64 when bitcoin leaves a pool that is not
      a V3 pool. */
  predicate Rounded(pool: Pool, assetIn: string, amountOut: u128, out: int) {
    var assetOut := if assetIn == pool.assetA then pool.assetB else pool.assetA;
    if assetOut == BTC_ASSET_ADDRESS && pool.curve != Some(V3Concentrated)
    then out % 64 == 0 && amountOut <= out < amountOut + 64
    else out == amountOut
  }

  /** q is n / d rounded up, at most one unit short when the ceiling division saturates. */
  ghost predicate CeilingOf(n: int, d: int, q: int) {
    && d > 0 && 0 <= n <= U128_MAX
    && (q * d >= n <==> n <= U128_MAX / d * d) && (q + 1) * d >= n
    && forall i: nat :: i * d >= n ==> i >= q
  }

  /** What goes in before input fees for `dy` out: by the reserves of a pool that is not V3 and has both, the reserve of
      the input asset against what is left of the other; else by the price. */
  ghost predicate Pays(pool: Pool, assetIn: string, dy: int, q: int) {
    if pool.curve != Some(V3Concentrated) && pool.reserveA.Some? && pool.reserveB.Some? then
      if assetIn == pool.assetA
      then CeilingOf(pool.reserveA.value * dy, pool.reserveB.value - dy, q)
      else CeilingOf(pool.reserveB.value * dy, pool.reserveA.value - dy, q)
    else
      pool.price.Some? && var p := pool.price.value;
      if assetIn != pool.assetA then CeilingOf(dy * p.billions, 1_000_000_000, q)
      else if p.above100 then CeilingOf(dy * 1_000_000, p.millions, q)
      else CeilingOf(dy * p.inverseBillions, 1_000_000_000, q)
  }

  /** Fees that raise the output, and fees that raise the input. */
  function OutputFees(pool: Pool, assetIn: string, integratorBps: u32): u32 {
    if assetIn == pool.assetA then Capped(pool.hostFeeBps + integratorBps) else 0
  }

  function InputFees(pool: Pool, assetIn: string, integratorBps: u32): u32 {
    if assetIn == pool.assetA then pool.lpFeeBps else Capped(pool.hostFeeBps + pool.lpFeeBps + integratorBps)
  }

  lemma CeilingIs(n: u128, d: u128)
    requires d > 0
    ensures CeilingOf(n, d, DivCeil(n, d))
  {
    DivCeilExact(n, d);
    OneMoreSuffices(n, d);
  }

  lemma PaysIs(pool: Pool, assetIn: string, dy: u128)
    requires pool.price.Some? ==> SanePrice(pool.price.value)
    requires BeforeInputFees(pool, assetIn, dy).Ok?
    ensures Pays(pool, assetIn, dy, BeforeInputFees(pool, assetIn, dy).value)
  {
    if UsesReserves(pool) {
      var x, y := ReserveIn(pool, assetIn), ReserveOut(pool, assetIn);
      MulNonNegative(x, dy);
      CeilingIs(x * dy, y - dy);
    } else {
      var p := pool.price.value;
      if assetIn != pool.assetA {
        MulNonNegative(dy, p.billions);
        CeilingIs(dy * p.billions, 1_000_000_000);
      } else if p.above100 {
        CeilingIs(dy * 1_000_000, p.millions);
      } else {
        MulNonNegative(dy, p.inverseBillions);
        CeilingIs(dy * p.inverseBillions, 1_000_000_000);
      }
    }
  }

  lemma RoundedIs(pool: Pool, assetIn: string, amountOut: u128)
    requires amountOut + 63 <= U128_MAX
    ensures Rounded(pool, assetIn, amountOut, RequestedOut(pool, assetIn, amountOut))
  {
    RoundUpExact(amountOut);
  }

  /** The answer determined step by step: the request is rounded, raised by the slippage and by the output fees; the
      pool is paid for that; the payment is raised by the input fees. Each step has one result. */
  lemma QuoteInPlainTerms(pool: Pool, assetIn: string, amountOut: u128, slippageBps: u32, integratorBps: u32)
    requires pool.price.Some? ==> SanePrice(pool.price.value)
    requires CalculateAmountIn(pool, assetIn, amountOut, slippageBps, integratorBps).Ok?
    ensures slippageBps <= 10_000
    ensures exists out, slipped, dy, q ::
              && Rounded(pool, assetIn, amountOut, out) && RaisedBy(out, slippageBps, slipped)
              && RaisedBy(slipped, OutputFees(pool, assetIn, integratorBps), dy) && Pays(pool, assetIn, dy, q)
              && RaisedBy(q, InputFees(pool, assetIn, integratorBps),
                          CalculateAmountIn(pool, assetIn, amountOut, slippageBps, integratorBps).value)
  {
    var dy := GrossOut(pool, assetIn, amountOut, slippageBps, integratorBps).value;
    GrossOutCovers(pool, assetIn, amountOut, slippageBps, integratorBps);
    RoundedIs(pool, assetIn, amountOut);
    SlippageAndFees(pool, assetIn, amountOut, slippageBps, integratorBps);
    PaysIs(pool, assetIn, dy);
  }

  lemma RaisedOnce(base: nat, bps: nat, more: int, other: int)
    requires RaisedBy(base, bps, more) && RaisedBy(base, bps, other)
    ensures more == other && more >= base
  {
    MulNonNegative(base, bps);
  }

  lemma CeilingOnce(n: int, d: int, q: nat, other: nat)
    requires CeilingOf(n, d, q) && CeilingOf(n, d, other)
    ensures q == other
  {
    if n <= U128_MAX / d * d {
      assert q * d >= n && other * d >= n;
    } else {
      assert (q + 1) * d >= n && (other + 1) * d >= n;
      if q < other { assert q + 1 >= other; ShortOfBoth(n, d, q, other); }
      if other < q { assert other + 1 >= q; ShortOfBoth(n, d, other, q); }
    }
  }

  lemma ShortOfBoth(n: int, d: int, q: nat, more: nat)
    requires more == q + 1 && (q + 1) * d >= n
    ensures more * d >= n
  {
  }

  /** Which error is reported: too much slippage first; then products that do not fit 128 bits on the way to the output;
      then an output that exceeds the reserve, or a pool without reserves and price; then later products. */
  lemma QuoteErrors(pool: Pool, assetIn: string, amountOut: u128, slippageBps: u32, integratorBps: u32)
    requires pool.price.Some? ==> SanePrice(pool.price.value)
    ensures var r := CalculateAmountIn(pool, assetIn, amountOut, slippageBps, integratorBps);
            var gross := GrossOut(pool, assetIn, amountOut, slippageBps, integratorBps);
            var byReserves := pool.curve != Some(V3Concentrated) && pool.reserveA.Some? && pool.reserveB.Some?;
            && (r == Err(SlippageTooHigh) <==> slippageBps > 10_000)
            && (slippageBps <= 10_000 && gross.Err? ==> r == Err(Overflow))
            && (gross.Ok? && byReserves ==>
                  var (x, y) := if assetIn == pool.assetA then (pool.reserveA.value, pool.reserveB.value)
                                else (pool.reserveB.value, pool.reserveA.value);
                  && (r == Err(ExceedsReserve) <==> gross.value >= y)
                  && (gross.value < y && x * gross.value > U128_MAX ==> r == Err(Overflow)))
            && (gross.Ok? && !byReserves ==> (r == Err(NoPoolData) <==> pool.price.None?))
            && (gross.Err? ==> r != Err(ExceedsReserve) && r != Err(NoPoolData))
  {
  }

  /** The products on the way to the output are the only reason for an error there. */
  lemma GrossOutFails(pool: Pool, assetIn: string, amountOut: u128, slippageBps: u32, integratorBps: u32)
    requires slippageBps <= 10_000
    ensures var out := RequestedOut(pool, assetIn, amountOut);
            var slipped := out * (10_000 + slippageBps) / 10_000;
            GrossOut(pool, assetIn, amountOut, slippageBps, integratorBps).Err?
            <==> out * (10_000 + slippageBps) > U128_MAX
                 || (assetIn == pool.assetA
                     && slipped * (10_000 + OutputFees(pool, assetIn, integratorBps)) > U128_MAX)
  {
  }

}
