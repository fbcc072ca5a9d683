/** The AMM input quote of a pool: Pool::calculate_amount_in (crates/flashnet/src/models.rs). */
module Quote {
  import opened Prelude
  import opened PowersOfTwo

  const U128_MAX: int := 0xFFFF_FFFF_FFFF_FFFF_FFFF_FFFF_FFFF_FFFF
  const U64_MAX: int := 0xFFFF_FFFF_FFFF_FFFF
  const U32_MAX: int := 0xFFFF_FFFF

  type u128 = x: int | 0 <= x <= U128_MAX
  type u64 = x: int | 0 <= x <= U64_MAX
  type u32 = x: int | 0 <= x <= U32_MAX

  /** 24h volatility in basis points; the score adds 10000 to it in 64 bits without a check. */
  type VolatilityBps = x: int | 0 <= x <= U64_MAX - 10_000

  const BTC_ASSET_ADDRESS := "020202020202020202020202020202020202020202020202020202020202020202"
  const PRICE_SCALE: u128 := 1_000_000_000
  const LARGE_PRICE_SCALE: u128 := 1_000_000

  datatype CurveType = ConstantProduct | SingleSided | V3Concentrated | UnknownCurve

  /** The three integers the code derives from the floating-point price p: p * 10^6 (used above 100), 10^9 / p and
      p * 10^9. A price above 100 has a positive first one. */
  datatype Price = Price(above100: bool, millions: u128, inverseBillions: u128, billions: u128)

  predicate SanePrice(p: Price) { p.above100 ==> p.millions > 0 }

  datatype Pool = Pool(
    key: string, assetA: string, assetB: string, hostFeeBps: u32, lpFeeBps: u32,
    reserveA: Option<u128>, reserveB: Option<u128>, price: Option<Price>, curve: Option<CurveType>,
    tvlB: Option<u64>, volume24h: Option<u64>, volatilityBps: Option<VolatilityBps>)

  datatype QuoteError = Overflow | SlippageTooHigh | ExceedsReserve | NoPoolData

  /* ---------- unsigned 128-bit arithmetic ---------- */

  function SatAdd(a: u128, b: u128): u128 {
    if a + b <= U128_MAX then a + b else U128_MAX
  }

  function SatAdd32(a: u32, b: u32): u32 {
    if a + b <= U32_MAX then a + b else U32_MAX
  }

  function CheckedMul(a: u128, b: u128): (r: Result<u128, QuoteError>)
    ensures r == if a * b <= U128_MAX then Ok(a * b) else Err(Overflow)
  {
    MulNonNegative(a, b);
    if a * b <= U128_MAX then Ok(a * b) else Err(Overflow)
  }

  /** (n + 63) & !63, the addition saturating: the low six bits cleared (RoundUpIsTheMask). */
  function RoundUp64(n: u128): u128 {
    SatAdd(n, 63) / 64 * 64
  }

  /** The ceiling division of the source, whose addition saturates. */
  function DivCeil(n: u128, d: u128): (r: u128)
    requires d > 0
  {
    var sum := SatAdd(n, d - 1);
    QuotientBounds(sum, d);
    QuotientAtMost(sum, d);
    sum / d
  }

  /** n * (bps + 10000) / 10000 */
  function AddBps(n: u128, bps: u32): Result<u128, QuoteError> {
    match CheckedMul(n, bps + 10_000)
    case Err(e) => Err(e)
    case Ok(product) => Ok(product / 10_000)
  }

  /* ---------- the quote ---------- */

  predicate AToB(pool: Pool, assetIn: string) { assetIn == pool.assetA }

  predicate IsV3(pool: Pool) { pool.curve == Some(V3Concentrated) }

  predicate UsesReserves(pool: Pool) {
    !IsV3(pool) && pool.reserveA.Some? && pool.reserveB.Some?
  }

  function RequestedOut(pool: Pool, assetIn: string, amountOut: u128): u128 {
    var assetOut := if AToB(pool, assetIn) then pool.assetB else pool.assetA;
    if assetOut == BTC_ASSET_ADDRESS && !IsV3(pool) then RoundUp64(amountOut) else amountOut
  }

  /** What must leave the pool: the request grossed up by slippage and, from A to B, by the output fees. */
  function GrossOut(pool: Pool, assetIn: string, amountOut: u128, slippageBps: u32, integratorBps: u32)
    : Result<u128, QuoteError>
  {
    if slippageBps > 10_000 then Err(SlippageTooHigh)
    else
      match AddBps(RequestedOut(pool, assetIn, amountOut), slippageBps)
      case Err(e) => Err(e)
      case Ok(out) =>
        if AToB(pool, assetIn) then AddBps(out, SatAdd32(pool.hostFeeBps, integratorBps)) else Ok(out)
  }

  function ReserveIn(pool: Pool, assetIn: string): u128
    requires UsesReserves(pool)
  {
    if AToB(pool, assetIn) then pool.reserveA.value else pool.reserveB.value
  }

  function ReserveOut(pool: Pool, assetIn: string): u128
    requires UsesReserves(pool)
  {
    if AToB(pool, assetIn) then pool.reserveB.value else pool.reserveA.value
  }

  function InByReserves(x: u128, y: u128, dy: u128): Result<u128, QuoteError> {
    if dy >= y then Err(ExceedsReserve)
    else
      match CheckedMul(x, dy)
      case Err(e) => Err(e)
      case Ok(n) => Ok(DivCeil(n, y - dy))
  }

  function InByPrice(p: Price, aToB: bool, dy: u128): Result<u128, QuoteError>
    requires SanePrice(p)
  {
    var factor, divisor :=
      if !aToB then p.billions else if p.above100 then LARGE_PRICE_SCALE else p.inverseBillions,
      if aToB && p.above100 then p.millions else PRICE_SCALE;
    match CheckedMul(dy, factor)
    case Err(e) => Err(e)
    case Ok(n) => Ok(DivCeil(n, divisor))
  }

  function BeforeInputFees(pool: Pool, assetIn: string, dy: u128): Result<u128, QuoteError>
    requires pool.price.Some? ==> SanePrice(pool.price.value)
  {
    if UsesReserves(pool) then InByReserves(ReserveIn(pool, assetIn), ReserveOut(pool, assetIn), dy)
    else if pool.price.Some? then InByPrice(pool.price.value, AToB(pool, assetIn), dy)
    else Err(NoPoolData)
  }

  function InputFeeBps(pool: Pool, assetIn: string, integratorBps: u32): u32 {
    if AToB(pool, assetIn) then pool.lpFeeBps
    else SatAdd32(SatAdd32(pool.hostFeeBps, pool.lpFeeBps), integratorBps)
  }

  /** `assetIn` is the decoded address of the input asset. */
  function CalculateAmountIn(pool: Pool, assetIn: string, amountOut: u128, slippageBps: u32, integratorBps: u32)
    : Result<u128, QuoteError>
    requires pool.price.Some? ==> SanePrice(pool.price.value)
  {
    match GrossOut(pool, assetIn, amountOut, slippageBps, integratorBps)
    case Err(e) => Err(e)
    case Ok(dy) =>
      match BeforeInputFees(pool, assetIn, dy)
      case Err(e) => Err(e)
      case Ok(q) => AddBps(q, InputFeeBps(pool, assetIn, integratorBps))
  }

  /* ---------- arithmetic facts ---------- */

  lemma MulNonNegative(a: int, b: int)
    requires 0 <= a && 0 <= b
    ensures 0 <= a * b
  {
  }

  lemma MulMonotone(a: int, b: int, c: int, d: int)
    requires 0 <= a <= b && 0 <= c <= d
    ensures a * c <= b * d
  {
    assert a * c <= b * c;
    assert b * c <= b * d;
  }

  lemma QuotientBounds(n: int, d: int)
    requires 0 <= n && 0 < d
    ensures 0 <= n / d && (n / d) * d <= n < (n / d) * d + d
  {
    assert n == (n / d) * d + n % d;
  }

  lemma QuotientAtMost(n: int, d: int)
    requires 0 <= n && 0 < d
    ensures n / d <= n
  {
    QuotientBounds(n, d);
    MulMonotone(1, d, n / d, n / d);
  }

  /** q is the quotient as soon as it satisfies the bounds. */
  lemma QuotientUnique(n: int, d: int, q: int)
    requires 0 <= n && 0 < d && 0 <= q
    ensures q * d <= n ==> q <= n / d
    ensures n < (q + 1) * d ==> n / d <= q
  {
    QuotientBounds(n, d);
    if q > n / d {
      MulMonotone(n / d + 1, q, d, d);
    }
    if n / d > q {
      MulMonotone(q + 1, n / d, d, d);
    }
  }

  lemma QuotientMonotone(n: int, m: int, d: int, e: int)
    requires 0 <= n <= m && 0 < e <= d
    ensures n / d <= m / e
  {
    QuotientBounds(n, d);
    MulMonotone(n / d, n / d, e, d);
    QuotientUnique(m, e, n / d);
  }

  /** The saturating ceiling division never exceeds a sufficient multiplier, and suffices itself exactly when the
      numerator fits below the last whole multiple of the divisor. */
  lemma DivCeilExact(n: u128, d: u128)
    requires d > 0
    ensures DivCeil(n, d) * d >= n <==> n <= U128_MAX / d * d
    ensures forall p: nat :: p * d >= n ==> p >= DivCeil(n, d)
  {
    var sum, q := SatAdd(n, d - 1), DivCeil(n, d);
    QuotientBounds(sum, d);
    QuotientBounds(U128_MAX, d);
    if n + (d - 1) <= U128_MAX {
      QuotientUnique(U128_MAX, d, q);
      MulMonotone(q, U128_MAX / d, d, d);
    }
    forall p: nat | p * d >= n ensures p >= q {
      MulDistributes(p, d);
      if p < q {
        MulMonotone(p + 1, q, d, d);
      }
    }
  }

  lemma DivCeilMonotone(n: u128, m: u128, d: u128, e: u128)
    requires n <= m && 0 < e <= d
    ensures DivCeil(n, d) <= DivCeil(m, e)
  {
    var p := DivCeil(m, e);
    QuotientBounds(U128_MAX, e);
    if m <= U128_MAX / e * e {
      DivCeilExact(m, e);
      DivCeilExact(n, d);
      MulMonotone(p, p, e, d);
    } else {
      QuotientMonotone(SatAdd(n, d - 1), U128_MAX, d, e);
      assert m + (e - 1) > U128_MAX by {
        MulDistributes(U128_MAX / e, e);
      }
      assert p == U128_MAX / e;
    }
  }

  lemma MulDistributes(q: int, e: int)
    ensures (q + 1) * e == q * e + e
  {
  }

  lemma AddBpsGrows(n: u128, bps: u32)
    requires AddBps(n, bps).Ok?
    ensures AddBps(n, bps).value >= n && n * 10_000 <= U128_MAX
  {
    MulMonotone(n, n, 10_000, bps + 10_000);
    QuotientUnique(n * (bps + 10_000), 10_000, n);
  }

  /** Ok for larger arguments implies Ok, and no more, for smaller ones. */
  lemma AddBpsMonotone(n: u128, m: u128, b: u32, c: u32)
    requires n <= m && b <= c && AddBps(m, c).Ok?
    ensures AddBps(n, b).Ok? && AddBps(n, b).value <= AddBps(m, c).value
  {
    MulMonotone(n, m, b + 10_000, c + 10_000);
    QuotientMonotone(n * (b + 10_000), m * (c + 10_000), 10_000, 10_000);
  }

  /* ---------- the rounding to 64 sats ---------- */

  /** !63 in 128 bits. */
  const NOT_63: u128 := 0xFFFF_FFFF_FFFF_FFFF_FFFF_FFFF_FFFF_FFC0

  lemma PowerOf122(k: nat)
    requires k == 122
    ensures 64 * Pow2(k) == U128_MAX + 1
  {
    var j := k - 114;
    assert Pow2(6) == 64 && Pow2(8) == 0x100;
    PowSquare(j, 0x100);
    PowSquare(2 * j, 0x1_0000);
    PowSquare(4 * j, 0x1_0000_0000);
    PowSquare(8 * j, 0x1_0000_0000_0000_0000);
    assert 16 * j == 6 + k;
    PowSum(6, k);
  }

  /** The bit mask of the source clears the low six bits of the saturated sum. */
  lemma RoundUpIsTheMask(n: u128)
    ensures BitAnd(SatAdd(n, 63), NOT_63) == RoundUp64(n)
  {
    var sum, k := SatAdd(n, 63), 122;
    PowerOf122(k);
    LowSixClear(sum, Pow2(k) - 1);
    LowBits(sum / 64, k);
  }

  lemma RoundUpExact(n: u128)
    requires n + 63 <= U128_MAX
    ensures RoundUp64(n) % 64 == 0 && n <= RoundUp64(n) < n + 64
  {
  }

  /** The quoted output covers the request, and whenever the quote is Ok the 64-sat rounding did not saturate. */
  lemma GrossOutCovers(pool: Pool, assetIn: string, amountOut: u128, slippageBps: u32, integratorBps: u32)
    requires GrossOut(pool, assetIn, amountOut, slippageBps, integratorBps).Ok?
    ensures var dy := GrossOut(pool, assetIn, amountOut, slippageBps, integratorBps).value;
            && dy >= RequestedOut(pool, assetIn, amountOut) >= amountOut
            && amountOut + 63 <= U128_MAX
  {
    var out := RequestedOut(pool, assetIn, amountOut);
    AddBpsGrows(out, slippageBps);
    if AToB(pool, assetIn) {
      AddBpsGrows(AddBps(out, slippageBps).value, SatAdd32(pool.hostFeeBps, integratorBps));
    }
    if amountOut + 63 <= U128_MAX {
      RoundUpExact(amountOut);
    }
  }

  /* ---------- what slippage and fees add ---------- */

  /** `more` is `base` raised by `bps` basis points, rounded down. */
  predicate RaisedBy(base: int, bps: int, more: int) {
    more * 10_000 <= base * (10_000 + bps) < (more + 1) * 10_000
  }

  function Capped(fees: nat): u32 {
    if fees <= U32_MAX then fees else U32_MAX
  }

  lemma AddBpsRaises(n: u128, bps: u32)
    requires AddBps(n, bps).Ok?
    ensures RaisedBy(n, bps, AddBps(n, bps).value)
  {
    QuotientBounds(n * (bps + 10_000), 10_000);
  }

  /** Which fee goes where: from A to B the host and integrator fees raise the output and the LP fee raises the input;
      from B to A all three raise the input. Slippage raises the output first. A fee sum is capped at 32 bits. */
  lemma SlippageAndFees(pool: Pool, assetIn: string, amountOut: u128, slippageBps: u32, integratorBps: u32)
    requires pool.price.Some? ==> SanePrice(pool.price.value)
    requires CalculateAmountIn(pool, assetIn, amountOut, slippageBps, integratorBps).Ok?
    ensures slippageBps <= 10_000
    ensures var dy := GrossOut(pool, assetIn, amountOut, slippageBps, integratorBps).value;
            var q := BeforeInputFees(pool, assetIn, dy).value;
            var amountIn := CalculateAmountIn(pool, assetIn, amountOut, slippageBps, integratorBps).value;
            exists slipped: u128 ::
              && RaisedBy(RequestedOut(pool, assetIn, amountOut), slippageBps, slipped)
              && RaisedBy(slipped, if assetIn == pool.assetA then Capped(pool.hostFeeBps + integratorBps) else 0, dy)
              && RaisedBy(q, if assetIn == pool.assetA then pool.lpFeeBps
                             else Capped(pool.hostFeeBps + pool.lpFeeBps + integratorBps), amountIn)
  {
    var out := RequestedOut(pool, assetIn, amountOut);
    var slipped := AddBps(out, slippageBps).value;
    AddBpsRaises(out, slippageBps);
    if AToB(pool, assetIn) {
      AddBpsRaises(slipped, SatAdd32(pool.hostFeeBps, integratorBps));
    }
    var dy := GrossOut(pool, assetIn, amountOut, slippageBps, integratorBps).value;
    AddBpsRaises(BeforeInputFees(pool, assetIn, dy).value, InputFeeBps(pool, assetIn, integratorBps));
  }

  /** A quote by price, its ceiling not saturating, is the least input whose worth at the scaled price reaches the
      output: from A to B the input times the price, from B to A the input against the output times the price. */
  lemma PriceQuoteLeast(p: Price, aToB: bool, dy: u128)
    requires SanePrice(p) && InByPrice(p, aToB, dy).Ok?
    requires (if aToB && p.above100 then dy * 1_000_000 + p.millions
              else dy * (if aToB then p.inverseBillions else p.billions) + 1_000_000_000) <= U128_MAX
    ensures var q := InByPrice(p, aToB, dy).value;
            && (aToB && p.above100 ==>
                  q * p.millions >= dy * 1_000_000
                  && forall i: nat :: i * p.millions >= dy * 1_000_000 ==> i >= q)
            && (aToB && !p.above100 ==>
                  q * 1_000_000_000 >= dy * p.inverseBillions
                  && forall i: nat :: i * 1_000_000_000 >= dy * p.inverseBillions ==> i >= q)
            && (!aToB ==>
                  q * 1_000_000_000 >= dy * p.billions
                  && forall i: nat :: i * 1_000_000_000 >= dy * p.billions ==> i >= q)
  {
    if aToB && p.above100 {
      LeastWithin(dy * 1_000_000, p.millions);
    } else if aToB {
      MulNonNegative(dy, p.inverseBillions);
      LeastWithin(dy * p.inverseBillions, 1_000_000_000);
    } else {
      MulNonNegative(dy, p.billions);
      LeastWithin(dy * p.billions, 1_000_000_000);
    }
  }

  lemma LeastWithin(n: u128, d: u128)
    requires d > 0 && n + d <= U128_MAX
    ensures DivCeil(n, d) * d >= n
    ensures forall i: nat :: i * d >= n ==> i >= DivCeil(n, d)
  {
    DivCeilExact(n, d);
    NotSaturating(n, d);
  }

  /* ---------- sufficiency and minimality ---------- */

  /** Paying `p` into reserve `x` for `dy` out of reserve `y` does not lower the product of the reserves. */
  predicate KeepsProduct(x: int, y: int, dy: int, p: int) {
    (x + p) * (y - dy) >= x * y
  }

  lemma KeepsProductWhen(x: int, y: int, dy: int, p: int)
    ensures KeepsProduct(x, y, dy, p) <==> p * (y - dy) >= x * dy
  {
    assert (x + p) * (y - dy) == x * (y - dy) + p * (y - dy);
    assert x * (y - dy) == x * y - x * dy;
  }

  lemma OneMoreSuffices(n: u128, d: u128)
    requires d > 0
    ensures (DivCeil(n, d) + 1) * d >= n
  {
    QuotientBounds(SatAdd(n, d - 1), d);
    MulDistributes(DivCeil(n, d), d);
  }

  lemma OneUnitMoreKeepsProduct(x: u128, y: u128, dy: u128)
    requires InByReserves(x, y, dy).Ok?
    ensures KeepsProduct(x, y, dy, InByReserves(x, y, dy).value + 1)
  {
    MulNonNegative(x, dy);
    OneMoreSuffices(x * dy, y - dy);
    var more: int := DivCeil(x * dy, y - dy) + 1;
    KeepsProductWhen(x, y, dy, more);
  }

  /** The quote before input fees never exceeds any payment that keeps the constant product. It keeps the product
      itself if and only if x * dy is at most the last multiple of y - dy within 128 bits, and otherwise it is one unit
      short. */
  lemma ReserveQuoteExact(x: u128, y: u128, dy: u128)
    requires InByReserves(x, y, dy).Ok?
    ensures dy < y
    ensures KeepsProduct(x, y, dy, InByReserves(x, y, dy).value) <==> x * dy <= U128_MAX / (y - dy) * (y - dy)
    ensures KeepsProduct(x, y, dy, InByReserves(x, y, dy).value + 1)
    ensures forall p: nat :: KeepsProduct(x, y, dy, p) ==> p >= InByReserves(x, y, dy).value
  {
    MulNonNegative(x, dy);
    var n, d, q := x * dy, y - dy, InByReserves(x, y, dy).value;
    DivCeilExact(n, d);
    KeepsProductWhen(x, y, dy, q);
    OneUnitMoreKeepsProduct(x, y, dy);
    forall p: nat | KeepsProduct(x, y, dy, p) ensures p >= q {
      KeepsProductWhen(x, y, dy, p);
    }
  }

  /** The exact condition for the full payment: it keeps the constant product if and only if the numerator of the
      ceiling fits, or the input fee adds at least one unit. */
  lemma PaymentKeepsProductIff(pool: Pool, assetIn: string, amountOut: u128, slippageBps: u32, integratorBps: u32)
    requires pool.price.Some? ==> SanePrice(pool.price.value)
    requires pool.curve != Some(V3Concentrated) && pool.reserveA.Some? && pool.reserveB.Some?
    requires CalculateAmountIn(pool, assetIn, amountOut, slippageBps, integratorBps).Ok?
    ensures var dy := GrossOut(pool, assetIn, amountOut, slippageBps, integratorBps).value;
            var (x, y) := if assetIn == pool.assetA then (pool.reserveA.value, pool.reserveB.value)
                          else (pool.reserveB.value, pool.reserveA.value);
            var q := BeforeInputFees(pool, assetIn, dy).value;
            var amountIn := CalculateAmountIn(pool, assetIn, amountOut, slippageBps, integratorBps).value;
            dy < y && (KeepsProduct(x, y, dy, amountIn) <==>
                         x * dy <= U128_MAX / (y - dy) * (y - dy)
                         || q * InputFeeBps(pool, assetIn, integratorBps) >= 10_000)
  {
    var dy := GrossOut(pool, assetIn, amountOut, slippageBps, integratorBps).value;
    var x, y := ReserveIn(pool, assetIn), ReserveOut(pool, assetIn);
    var q := BeforeInputFees(pool, assetIn, dy).value;
    var bps := InputFeeBps(pool, assetIn, integratorBps);
    var amountIn := CalculateAmountIn(pool, assetIn, amountOut, slippageBps, integratorBps).value;
    ReserveQuoteExact(x, y, dy);
    FeeAddsAUnit(q, bps);
    if q * bps >= 10_000 {
      PayingMoreKeepsProduct(x, y, dy, q + 1, amountIn);
    }
  }

  lemma FeeAddsAUnit(n: u128, bps: u32)
    requires AddBps(n, bps).Ok?
    ensures if n * bps >= 10_000 then AddBps(n, bps).value >= n + 1 else AddBps(n, bps).value == n
  {
    assert n * (bps + 10_000) == n * bps + n * 10_000;
    MulNonNegative(n, bps);
    if n * bps >= 10_000 {
      QuotientMonotone((n + 1) * 10_000, n * (bps + 10_000), 10_000, 10_000);
      QuotientUnique((n + 1) * 10_000, 10_000, n + 1);
    } else {
      QuotientUnique(n * (bps + 10_000), 10_000, n);
    }
  }

  lemma PayingMoreKeepsProduct(x: int, y: int, dy: int, p: int, more: int)
    requires 0 <= x && 0 <= p <= more && dy <= y && KeepsProduct(x, y, dy, p)
    ensures KeepsProduct(x, y, dy, more)
  {
    MulMonotone(x + p, x + more, y - dy, y - dy);
  }

  /** A pool quoted by its reserves, with the numerator of the ceiling not saturating: the output covers the
      request, the full payment keeps the constant product, and before input fees it is the least that does. */
  lemma QuoteSufficientAndLeast(pool: Pool, assetIn: string, amountOut: u128, slippageBps: u32, integratorBps: u32)
    requires pool.price.Some? ==> SanePrice(pool.price.value)
    requires pool.curve != Some(V3Concentrated) && pool.reserveA.Some? && pool.reserveB.Some?
    requires CalculateAmountIn(pool, assetIn, amountOut, slippageBps, integratorBps).Ok?
    ensures var dy := GrossOut(pool, assetIn, amountOut, slippageBps, integratorBps).value;
            var (x, y) := if assetIn == pool.assetA then (pool.reserveA.value, pool.reserveB.value)
                          else (pool.reserveB.value, pool.reserveA.value);
            var q := BeforeInputFees(pool, assetIn, dy).value;
            var amountIn := CalculateAmountIn(pool, assetIn, amountOut, slippageBps, integratorBps).value;
            && amountOut <= dy < y && q <= amountIn
            && (forall p: nat :: KeepsProduct(x, y, dy, p) ==> p >= q)
            && (x * dy + (y - dy - 1) <= U128_MAX ==> KeepsProduct(x, y, dy, q) && KeepsProduct(x, y, dy, amountIn))
  {
    var dy := GrossOut(pool, assetIn, amountOut, slippageBps, integratorBps).value;
    var x, y := ReserveIn(pool, assetIn), ReserveOut(pool, assetIn);
    var q := BeforeInputFees(pool, assetIn, dy).value;
    var amountIn := CalculateAmountIn(pool, assetIn, amountOut, slippageBps, integratorBps).value;
    GrossOutCovers(pool, assetIn, amountOut, slippageBps, integratorBps);
    AddBpsGrows(q, InputFeeBps(pool, assetIn, integratorBps));
    ReserveQuoteExact(x, y, dy);
    MulNonNegative(x, dy);
    if x * dy + (y - dy - 1) <= U128_MAX {
      NotSaturating(x * dy, y - dy);
      PayingMoreKeepsProduct(x, y, dy, q, amountIn);
    }
  }

  lemma NotSaturating(n: int, d: int)
    requires 0 <= n && 0 < d && n + (d - 1) <= U128_MAX
    ensures n <= U128_MAX / d * d
  {
    QuotientBounds(U128_MAX, d);
  }

  /** The saturating ceiling can fall one short: here the quoted input no longer keeps the product. */
  lemma SaturationUndercharges(pool: Pool, amountOut: u128)
    requires pool.assetA == "a" && pool.assetB == "b" && pool.curve == Some(ConstantProduct)
    requires pool.reserveA == Some(0x1_0000_0000_0000_0001) && pool.reserveB == Some(0x1_FFFF_FFFF_FFFF_FFFF)
    requires pool.hostFeeBps == 0 && pool.lpFeeBps == 0 && pool.price.None?
    requires amountOut == 0xFFFF_FFFF_FFFF_FFFF
    ensures CalculateAmountIn(pool, "a", amountOut, 0, 0) == Ok(0xFFFF_FFFF_FFFF_FFFF)
    ensures !KeepsProduct(pool.reserveA.value, pool.reserveB.value, amountOut, 0xFFFF_FFFF_FFFF_FFFF)
  {
    assert "b" != BTC_ASSET_ADDRESS by { assert |"b"| != |BTC_ASSET_ADDRESS|; }
    assert GrossOut(pool, "a", amountOut, 0, 0) == Ok(amountOut);
    assert InByReserves(0x1_0000_0000_0000_0001, 0x1_FFFF_FFFF_FFFF_FFFF, amountOut) == Ok(0xFFFF_FFFF_FFFF_FFFF);
  }

  /* ---------- monotonicity ---------- */

  lemma RequestedMonotone(pool: Pool, more: Pool, assetIn: string, a: u128, b: u128)
    requires SamePoolUpToFees(pool, more) && a <= b
    ensures RequestedOut(pool, assetIn, a) <= RequestedOut(more, assetIn, b)
  {
  }

  /** `more` is the same pool with fees at least as high. */
  predicate SamePoolUpToFees(pool: Pool, more: Pool) {
    && more == pool.(hostFeeBps := more.hostFeeBps, lpFeeBps := more.lpFeeBps)
    && pool.hostFeeBps <= more.hostFeeBps && pool.lpFeeBps <= more.lpFeeBps
  }

  lemma GrossOutMonotone(pool: Pool, more: Pool, assetIn: string, a: u128, b: u128, s: u32, t: u32, f: u32, g: u32)
    requires SamePoolUpToFees(pool, more) && a <= b && s <= t && f <= g
    requires GrossOut(more, assetIn, b, t, g).Ok?
    ensures GrossOut(pool, assetIn, a, s, f).Ok?
    ensures GrossOut(pool, assetIn, a, s, f).value <= GrossOut(more, assetIn, b, t, g).value
  {
    RequestedMonotone(pool, more, assetIn, a, b);
    AddBpsMonotone(RequestedOut(pool, assetIn, a), RequestedOut(more, assetIn, b), s, t);
    if AToB(pool, assetIn) {
      AddBpsMonotone(AddBps(RequestedOut(pool, assetIn, a), s).value, AddBps(RequestedOut(more, assetIn, b), t).value,
                     SatAdd32(pool.hostFeeBps, f), SatAdd32(more.hostFeeBps, g));
    }
  }

  lemma InByReservesMonotone(x: u128, y: u128, dy: u128, dz: u128)
    requires dy <= dz && InByReserves(x, y, dz).Ok?
    ensures InByReserves(x, y, dy).Ok? && InByReserves(x, y, dy).value <= InByReserves(x, y, dz).value
  {
    MulNonNegative(x, dy);
    MulMonotone(x, x, dy, dz);
    DivCeilMonotone(x * dy, x * dz, y - dy, y - dz);
  }

  lemma InByPriceMonotone(p: Price, aToB: bool, dy: u128, dz: u128)
    requires SanePrice(p) && dy <= dz && InByPrice(p, aToB, dz).Ok?
    ensures InByPrice(p, aToB, dy).Ok? && InByPrice(p, aToB, dy).value <= InByPrice(p, aToB, dz).value
  {
    var factor, divisor :=
      if !aToB then p.billions else if p.above100 then LARGE_PRICE_SCALE else p.inverseBillions,
      if aToB && p.above100 then p.millions else PRICE_SCALE;
    MulNonNegative(dy, factor);
    MulMonotone(dy, dz, factor, factor);
    DivCeilMonotone(dy * factor, dz * factor, divisor, divisor);
  }

  /** A quote that is Ok stays Ok and does not rise when the amount out, the slippage, the integrator fee and the
      pool's own fees all stay or fall, saturation included. */
  lemma QuoteMonotone(pool: Pool, more: Pool, assetIn: string, a: u128, b: u128, s: u32, t: u32, f: u32, g: u32)
    requires pool.price.Some? ==> SanePrice(pool.price.value)
    requires SamePoolUpToFees(pool, more) && a <= b && s <= t && f <= g
    requires CalculateAmountIn(more, assetIn, b, t, g).Ok?
    ensures CalculateAmountIn(pool, assetIn, a, s, f).Ok?
    ensures CalculateAmountIn(pool, assetIn, a, s, f).value <= CalculateAmountIn(more, assetIn, b, t, g).value
  {
    GrossOutMonotone(pool, more, assetIn, a, b, s, t, f, g);
    var dy, dz := GrossOut(pool, assetIn, a, s, f).value, GrossOut(more, assetIn, b, t, g).value;
    if UsesReserves(pool) {
      InByReservesMonotone(ReserveIn(pool, assetIn), ReserveOut(pool, assetIn), dy, dz);
    } else {
      InByPriceMonotone(pool.price.value, AToB(pool, assetIn), dy, dz);
    }
    AddBpsMonotone(BeforeInputFees(pool, assetIn, dy).value, BeforeInputFees(more, assetIn, dz).value,
                   InputFeeBps(pool, assetIn, f), InputFeeBps(more, assetIn, g));
  }
}
