/** Choosing the pool to swap in: select_best_pool and score_pool (crates/flashnet/src/pool_selection.rs). */
module PoolSelection {
  import opened Prelude
  import opened Quote

  const FEE_WEIGHT_BPS: u64 := 5_000
  const LIQUIDITY_WEIGHT_BPS: u64 := 3_000
  const STABILITY_WEIGHT_BPS: u64 := 2_000

  datatype Request = Request(assetIn: string, amountOut: u128, slippageBps: u32, integratorBps: u32)

  datatype Candidate = Candidate(pool: Pool, amountIn: u128)

  /** What the scores are normalised by. */
  datatype Scale = Scale(minIn: u128, maxIn: u128, maxTvl: Option<u128>)

  datatype PoolScore = PoolScore(pool: Pool, fee: u64, liquidity: u64, stability: u64, total: u64)

  predicate Sane(pool: Pool) {
    pool.price.Some? ==> SanePrice(pool.price.value)
  }

  function QuoteFor(pool: Pool, q: Request): Result<u128, QuoteError>
    requires Sane(pool)
  {
    CalculateAmountIn(pool, q.assetIn, q.amountOut, q.slippageBps, q.integratorBps)
  }

  predicate AllSane(pools: seq<Pool>) {
    forall p :: p in pools ==> Sane(p)
  }

  /* ---------- candidates ---------- */

  function Viable(pools: seq<Pool>, q: Request): seq<Candidate>
    requires AllSane(pools)
  {
    if pools == [] then []
    else
      assert pools[0] in pools;
      var rest := Viable(pools[1..], q);
      match QuoteFor(pools[0], q)
      case Ok(amount) => [Candidate(pools[0], amount)] + rest
      case Err(_) => rest
  }

  function OnlyV3(candidates: seq<Candidate>): seq<Candidate> {
    if candidates == [] then []
    else if IsV3(candidates[0].pool) then [candidates[0]] + OnlyV3(candidates[1..])
    else OnlyV3(candidates[1..])
  }

  predicate HasV3(candidates: seq<Candidate>) {
    exists c :: c in candidates && IsV3(c.pool)
  }

  /** The viable pools, only the V3 ones if there is one. */
  function Contenders(pools: seq<Pool>, q: Request): seq<Candidate>
    requires AllSane(pools)
  {
    var viable := Viable(pools, q);
    if HasV3(viable) then OnlyV3(viable) else viable
  }

  lemma {:induction false} ViableAre(pools: seq<Pool>, q: Request)
    requires AllSane(pools)
    ensures forall c :: c in Viable(pools, q) <==> c.pool in pools && QuoteFor(c.pool, q) == Ok(c.amountIn)
  {
    if pools != [] {
      assert pools[0] in pools;
      ViableAre(pools[1..], q);
    }
  }

  lemma {:induction false} OnlyV3Are(candidates: seq<Candidate>)
    ensures forall c :: c in OnlyV3(candidates) <==> c in candidates && IsV3(c.pool)
  {
    if candidates != [] {
      OnlyV3Are(candidates[1..]);
    }
  }

  predicate SomeViable(pools: seq<Pool>, q: Request)
    requires AllSane(pools)
  {
    exists p :: p in pools && QuoteFor(p, q).Ok?
  }

  predicate SomeViableV3(pools: seq<Pool>, q: Request)
    requires AllSane(pools)
  {
    exists p :: p in pools && QuoteFor(p, q).Ok? && IsV3(p)
  }

  lemma ViableQuotes(pools: seq<Pool>, q: Request)
    requires AllSane(pools)
    ensures HasV3(Viable(pools, q)) <==> SomeViableV3(pools, q)
    ensures Viable(pools, q) != [] <==> SomeViable(pools, q)
  {
    var viable := Viable(pools, q);
    ViableAre(pools, q);
    forall p | p in pools && QuoteFor(p, q).Ok? ensures Candidate(p, QuoteFor(p, q).value) in viable {}
    if viable != [] {
      assert viable[0] in viable;
    }
    if HasV3(viable) {
      var c :| c in viable && IsV3(c.pool);
      assert c.pool in pools;
    }
  }

  lemma ContendersAre(pools: seq<Pool>, q: Request)
    requires AllSane(pools)
    ensures forall c :: c in Contenders(pools, q) <==>
              && c.pool in pools && QuoteFor(c.pool, q) == Ok(c.amountIn)
              && (SomeViableV3(pools, q) ==> IsV3(c.pool))
    ensures Contenders(pools, q) != [] <==> SomeViable(pools, q)
  {
    var viable := Viable(pools, q);
    ViableAre(pools, q);
    ViableQuotes(pools, q);
    OnlyV3Are(viable);
    if HasV3(viable) {
      var c :| c in viable && IsV3(c.pool);
      assert c in OnlyV3(viable);
    }
  }

  /* ---------- normalisation ---------- */

  /** tvl_asset_b, or else the reserve of asset B. */
  function Liquidity(pool: Pool): Option<u128> {
    if pool.tvlB.Some? then Some(pool.tvlB.value) else pool.reserveB
  }

  function LiquidityOrZero(pool: Pool): u128 {
    if Liquidity(pool).Some? then Liquidity(pool).value else 0
  }

  function MinIn(cs: seq<Candidate>): (m: u128)
    requires cs != []
    ensures (forall c :: c in cs ==> m <= c.amountIn) && exists c :: c in cs && c.amountIn == m
  {
    if |cs| == 1 then cs[0].amountIn
    else
      var m := MinIn(cs[1..]);
      if m < cs[0].amountIn then m else cs[0].amountIn
  }

  function MaxIn(cs: seq<Candidate>): (m: u128)
    requires cs != []
    ensures (forall c :: c in cs ==> c.amountIn <= m) && exists c :: c in cs && c.amountIn == m
  {
    if |cs| == 1 then cs[0].amountIn
    else
      var m := MaxIn(cs[1..]);
      if m > cs[0].amountIn then m else cs[0].amountIn
  }

  function MaxTvl(cs: seq<Candidate>): (m: Option<u128>)
    ensures forall c :: c in cs && Liquidity(c.pool).Some? ==> m.Some? && Liquidity(c.pool).value <= m.value
    ensures m.Some? ==> exists c :: c in cs && Liquidity(c.pool) == m
  {
    if cs == [] then None
    else
      var m, l := MaxTvl(cs[1..]), Liquidity(cs[0].pool);
      if m.None? || (l.Some? && l.value > m.value) then l else m
  }

  function ScaleOf(cs: seq<Candidate>): Scale
    requires cs != []
  {
    Scale(MinIn(cs), MaxIn(cs), MaxTvl(cs))
  }

  predicate InScale(c: Candidate, s: Scale) {
    && s.minIn <= c.amountIn <= s.maxIn
    && (Liquidity(c.pool).Some? ==> s.maxTvl.Some? && Liquidity(c.pool).value <= s.maxTvl.value)
  }

  /* ---------- the score ---------- */

  function SatMul128(a: u128, b: u128): u128 {
    MulNonNegative(a, b);
    if a * b <= U128_MAX then a * b else U128_MAX
  }

  function SatMul64(a: u64, b: u64): u64 {
    MulNonNegative(a, b);
    if a * b <= U64_MAX then a * b else U64_MAX
  }

  function SatAdd64(a: u64, b: u64): u64 {
    if a + b <= U64_MAX then a + b else U64_MAX
  }

  /** `as u64` */
  function CastU64(x: u128): u64 { x % (U64_MAX + 1) }

  /** (part * 10000) / whole with a saturating product. */
  function Share(part: u128, whole: u128): (r: u128)
    requires whole > 0
  {
    QuotientBounds(SatMul128(part, 10_000), whole);
    QuotientAtMost(SatMul128(part, 10_000), whole);
    SatMul128(part, 10_000) / whole
  }

  function FeeScore(amountIn: u128, s: Scale): u64 {
    if s.maxIn > s.minIn then
      CastU64(Share(if s.maxIn > amountIn then s.maxIn - amountIn else 0, s.maxIn - s.minIn))
    else 10_000
  }

  /** The divisor is positive for every candidate of the scale: a zero maximum means zero liquidity. */
  function LiquidityScore(pool: Pool, s: Scale): u64
    requires s.maxTvl.Some? && LiquidityOrZero(pool) > 0 ==> s.maxTvl.value > 0
  {
    if s.maxTvl.None? then 5_000
    else if LiquidityOrZero(pool) == 0 then 1_000
    else CastU64(Share(LiquidityOrZero(pool), s.maxTvl.value))
  }

  function StabilityScore(volatility: Option<VolatilityBps>): u64 {
    if volatility.None? then 5_000
    else
      QuotientAtMost(100_000_000, 10_000 + volatility.value);
      QuotientBounds(100_000_000, 10_000 + volatility.value);
      SatMul64(10_000, 10_000) / (10_000 + volatility.value)
  }

  function TotalScore(fee: u64, liquidity: u64, stability: u64): u64 {
    SatAdd64(SatAdd64(SatMul64(fee, FEE_WEIGHT_BPS), SatMul64(liquidity, LIQUIDITY_WEIGHT_BPS)),
             SatMul64(stability, STABILITY_WEIGHT_BPS)) / 10_000
  }

  function ScorePool(c: Candidate, s: Scale): PoolScore
    requires InScale(c, s)
  {
    var fee, liquidity := FeeScore(c.amountIn, s), LiquidityScore(c.pool, s);
    var stability := StabilityScore(c.pool.volatilityBps);
    PoolScore(c.pool, fee, liquidity, stability, TotalScore(fee, liquidity, stability))
  }

  lemma ShareBound(part: u128, whole: u128)
    requires whole > 0 && part <= whole
    ensures Share(part, whole) <= 10_000
  {
    MulMonotone(part, whole, 10_000, 10_000);
    QuotientUnique(SatMul128(part, 10_000), whole, 10_000);
    MulDistributes(10_000, whole);
  }

  lemma ShareMonotone(part: u128, more: u128, whole: u128)
    requires whole > 0 && part <= more
    ensures Share(part, whole) <= Share(more, whole)
  {
    MulMonotone(part, more, 10_000, 10_000);
    QuotientMonotone(SatMul128(part, 10_000), SatMul128(more, 10_000), whole, whole);
  }

  lemma StabilityBound(volatility: Option<VolatilityBps>)
    ensures StabilityScore(volatility) <= 10_000
  {
    if volatility.Some? {
      QuotientMonotone(100_000_000, 100_000_000, 10_000 + volatility.value, 10_000);
    }
  }

  lemma FeeBound(c: Candidate, s: Scale)
    requires InScale(c, s)
    ensures FeeScore(c.amountIn, s) <= 10_000
    ensures s.maxIn > s.minIn ==> FeeScore(c.amountIn, s) == Share(s.maxIn - c.amountIn, s.maxIn - s.minIn)
  {
    if s.maxIn > s.minIn {
      ShareBound(s.maxIn - c.amountIn, s.maxIn - s.minIn);
    }
  }

  lemma LiquidityBound(c: Candidate, s: Scale)
    requires InScale(c, s)
    ensures LiquidityScore(c.pool, s) <= 10_000
    ensures s.maxTvl.Some? && LiquidityOrZero(c.pool) > 0 ==>
              LiquidityScore(c.pool, s) == Share(LiquidityOrZero(c.pool), s.maxTvl.value)
  {
    if s.maxTvl.Some? && LiquidityOrZero(c.pool) > 0 {
      ShareBound(LiquidityOrZero(c.pool), s.maxTvl.value);
    }
  }

  lemma TotalIsWeightedMean(fee: u64, liquidity: u64, stability: u64)
    requires fee <= 10_000 && liquidity <= 10_000 && stability <= 10_000
    ensures TotalScore(fee, liquidity, stability) == (fee * 5_000 + liquidity * 3_000 + stability * 2_000) / 10_000
    ensures TotalScore(fee, liquidity, stability) <= 10_000
  {
  }

  /** Each component and the total lie between 0 and 10000. The narrowing casts lose nothing: fee and liquidity are
      the uncast shares. No product or sum saturates the total: it is the weighted mean. */
  lemma ScoreBounds(c: Candidate, s: Scale)
    requires InScale(c, s)
    ensures var r := ScorePool(c, s);
            && r.fee <= 10_000 && r.liquidity <= 10_000 && r.stability <= 10_000 && r.total <= 10_000
            && (s.maxIn > s.minIn ==> r.fee == Share(s.maxIn - c.amountIn, s.maxIn - s.minIn))
            && (s.maxTvl.Some? && LiquidityOrZero(c.pool) > 0 ==>
                  r.liquidity == Share(LiquidityOrZero(c.pool), s.maxTvl.value))
            && r.total == (r.fee * 5_000 + r.liquidity * 3_000 + r.stability * 2_000) / 10_000
  {
    FeeBound(c, s);
    LiquidityBound(c, s);
    StabilityBound(c.pool.volatilityBps);
    var r := ScorePool(c, s);
    TotalIsWeightedMean(r.fee, r.liquidity, r.stability);
  }

  /** Missing volatility counts as 100%. */
  function EffectiveVolatility(pool: Pool): VolatilityBps {
    if pool.volatilityBps.Some? then pool.volatilityBps.value else 10_000
  }

  lemma StabilityMonotone(a: Pool, b: Pool)
    requires EffectiveVolatility(a) <= EffectiveVolatility(b)
    ensures StabilityScore(a.volatilityBps) >= StabilityScore(b.volatilityBps)
  {
    QuotientMonotone(100_000_000, 100_000_000, 10_000 + EffectiveVolatility(b), 10_000 + EffectiveVolatility(a));
    assert 100_000_000 / 20_000 == 5_000;
  }

  /** `a` asks for no more than `b` and is no more volatile; their liquidities are `la` and `lb`. */
  predicate NoWorse(a: Candidate, b: Candidate, la: u128, lb: u128, s: Scale) {
    && InScale(a, s) && InScale(b, s)
    && LiquidityOrZero(a.pool) == la && LiquidityOrZero(b.pool) == lb
    && a.amountIn <= b.amountIn && EffectiveVolatility(a.pool) <= EffectiveVolatility(b.pool)
  }

  /** `l` is at least a tenth of the maximum, in a range where the products do not saturate too early. */
  predicate ATenth(l: u128, max: u128) {
    l * 10 >= max && max * 1_000 <= U128_MAX
  }

  /** Being no worse on price and volatility and no shallower never scores less, as long as the shallower side has
      liquidity, both lack it, or the deeper side has a tenth of the maximum. */
  lemma BetterScoresNoLess(a: Candidate, b: Candidate, s: Scale)
    requires NoWorse(a, b, LiquidityOrZero(a.pool), LiquidityOrZero(b.pool), s)
    requires LiquidityOrZero(a.pool) >= LiquidityOrZero(b.pool)
    requires LiquidityOrZero(b.pool) > 0 || LiquidityOrZero(a.pool) == 0
             || ATenth(LiquidityOrZero(a.pool), s.maxTvl.value)
    ensures ScorePool(a, s).total >= ScorePool(b, s).total
  {
    FeeBound(a, s);
    FeeBound(b, s);
    LiquidityBound(a, s);
    LiquidityBound(b, s);
    if s.maxIn > s.minIn {
      ShareMonotone(s.maxIn - b.amountIn, s.maxIn - a.amountIn, s.maxIn - s.minIn);
    }
    if LiquidityOrZero(b.pool) > 0 {
      ShareMonotone(LiquidityOrZero(b.pool), LiquidityOrZero(a.pool), s.maxTvl.value);
    } else if LiquidityOrZero(a.pool) > 0 {
      ShareOfATenth(LiquidityOrZero(a.pool), s.maxTvl.value);
    }
    StabilityMonotone(a.pool, b.pool);
    StabilityBound(a.pool.volatilityBps);
    StabilityBound(b.pool.volatilityBps);
    TotalMonotone(ScorePool(b, s), ScorePool(a, s));
  }

  lemma TotalMonotone(low: PoolScore, high: PoolScore)
    requires low.fee <= high.fee <= 10_000 && low.liquidity <= high.liquidity <= 10_000
    requires low.stability <= high.stability <= 10_000
    ensures TotalScore(low.fee, low.liquidity, low.stability) <= TotalScore(high.fee, high.liquidity, high.stability)
  {
  }

  /** The share reaches the flat 1000 of missing data exactly for a tenth of the maximum. */
  lemma ShareOfATenth(l: u128, max: u128)
    requires 0 < l <= max
    ensures Share(l, max) >= 1_000 <==> ATenth(l, max)
  {
    var n := SatMul128(l, 10_000);
    MulNonNegative(l, 10_000);
    QuotientBounds(n, max);
    if Share(l, max) >= 1_000 {
      MulMonotone(1_000, Share(l, max), max, max);
    } else {
      MulMonotone(Share(l, max) + 1, 1_000, max, max);
      MulDistributes(Share(l, max), max);
    }
  }

  /** Missing liquidity gets the higher liquidity component exactly when the known one is below a tenth. */
  lemma MissingLiquidityBeatsShallow(missing: Pool, shallow: Pool, s: Scale)
    requires s.maxTvl.Some? && LiquidityOrZero(missing) == 0 && 0 < LiquidityOrZero(shallow) <= s.maxTvl.value
    ensures LiquidityScore(missing, s) > LiquidityScore(shallow, s)
       <==> !ATenth(LiquidityOrZero(shallow), s.maxTvl.value)
  {
    ShareBound(LiquidityOrZero(shallow), s.maxTvl.value);
    ShareOfATenth(LiquidityOrZero(shallow), s.maxTvl.value);
  }

  /** Deeper is never worse: for all pairs of candidates with liquidities `la` and `lb`. */
  ghost predicate DeeperIsNoWorse(la: u128, lb: u128, s: Scale) {
    forall a, b :: NoWorse(a, b, la, lb, s) ==> ScorePool(a, s).total >= ScorePool(b, s).total
  }

  /** A candidate at the expensive end with stability 0 and the given liquidity. */
  function Worst(l: u128, s: Scale): Candidate {
    var pool := Pool("", "", "", 0, 0, None, if l == 0 then None else Some(l), None, None, None, None,
                     Some(100_000_000));
    Candidate(pool, s.maxIn)
  }

  lemma WorstScores(l: u128, s: Scale)
    requires s.minIn <= s.maxIn && (l > 0 ==> s.maxTvl.Some? && l <= s.maxTvl.value)
    ensures InScale(Worst(l, s), s) && LiquidityOrZero(Worst(l, s).pool) == l
    ensures EffectiveVolatility(Worst(l, s).pool) == 100_000_000
    ensures var r := ScorePool(Worst(l, s), s);
            && r.stability == 0 && r.fee == (if s.maxIn > s.minIn then 0 else 10_000)
            && r.total == (r.fee * 5_000 + r.liquidity * 3_000) / 10_000
  {
    ScoreBounds(Worst(l, s), s);
    StabilityAnchors(Some(100_000_000));
    if s.maxIn > s.minIn {
      NoShare(s.maxIn - s.minIn);
    }
  }

  /** The exact condition: the deeper pool never has the lower total if and only if the other one has liquidity too,
      both have none, or the deeper one has at least a tenth of the maximum. */
  lemma DeeperIsNoWorseIff(la: u128, lb: u128, s: Scale)
    requires s.minIn <= s.maxIn && lb <= la && (la > 0 ==> s.maxTvl.Some? && la <= s.maxTvl.value)
    ensures DeeperIsNoWorse(la, lb, s) <==> lb > 0 || la == 0 || ATenth(la, s.maxTvl.value)
  {
    if lb > 0 || la == 0 || ATenth(la, s.maxTvl.value) {
      forall a, b | NoWorse(a, b, la, lb, s) ensures ScorePool(a, s).total >= ScorePool(b, s).total {
        BetterScoresNoLess(a, b, s);
      }
    } else {
      var a, b := Worst(la, s), Worst(lb, s);
      WorstScores(la, s);
      WorstScores(lb, s);
      ScoreBounds(a, s);
      ShareOfATenth(la, s.maxTvl.value);
      assert ScorePool(b, s).liquidity == 1_000 && ScorePool(a, s).liquidity <= 999;
      assert NoWorse(a, b, la, lb, s) && ScorePool(a, s).total < ScorePool(b, s).total;
    }
  }

  /** A pool with liquidity 10 of at most 1000 loses to an equally priced, equally stable pool without any. */
  lemma ShallowLosesToMissing(a: Candidate, b: Candidate, s: Scale)
    requires s == Scale(100, 100, Some(1_000)) && a.amountIn == 100 && b.amountIn == 100
    requires Liquidity(a.pool) == Some(10) && Liquidity(b.pool) == None
    requires a.pool.volatilityBps == Some(0) && b.pool.volatilityBps == Some(0)
    ensures ScorePool(a, s).total == 7_030 && ScorePool(b, s).total == 7_300
  {
    assert SatMul128(10, 10_000) == 100_000;
    assert SatMul64(10_000, 10_000) == 100_000_000;
    ScoreBounds(a, s);
    ScoreBounds(b, s);
  }

  /** The ends of the fee scale: the dearest candidate scores 0, the cheapest 10000 exactly when the product by 10000
      fits in 128 bits. */
  lemma FeeAnchors(c: Candidate, s: Scale)
    requires InScale(c, s)
    ensures var fee := ScorePool(c, s).fee;
            && (s.maxIn == s.minIn ==> fee == 10_000)
            && (s.maxIn > s.minIn && c.amountIn == s.maxIn ==> fee == 0)
            && (s.maxIn > s.minIn && c.amountIn == s.minIn ==>
                  (fee == 10_000 <==> (s.maxIn - s.minIn) * 10_000 <= U128_MAX))
  {
    FeeBound(c, s);
    if s.maxIn > s.minIn {
      WholeShare(s.maxIn - s.minIn);
      NoShare(s.maxIn - s.minIn);
    }
  }

  /** The ends of the liquidity scale: 5000 without any data, 1000 for missing data, 10000 for the deepest exactly
      when the product by 10000 fits in 128 bits. */
  lemma LiquidityAnchors(c: Candidate, s: Scale)
    requires InScale(c, s)
    ensures var liquidity := ScorePool(c, s).liquidity;
            && (s.maxTvl.None? ==> liquidity == 5_000)
            && (s.maxTvl.Some? && LiquidityOrZero(c.pool) == 0 ==> liquidity == 1_000)
            && (s.maxTvl.Some? && LiquidityOrZero(c.pool) == s.maxTvl.value > 0 ==>
                  (liquidity == 10_000 <==> s.maxTvl.value * 10_000 <= U128_MAX))
  {
    LiquidityBound(c, s);
    if s.maxTvl.Some? && s.maxTvl.value > 0 {
      WholeShare(s.maxTvl.value);
    }
  }

  /** The ends of the stability scale: 10000 without volatility, 5000 for missing data as for 100%, and 0 exactly
      above 999900%. */
  lemma StabilityAnchors(volatility: Option<VolatilityBps>)
    ensures volatility == Some(0) ==> StabilityScore(volatility) == 10_000
    ensures volatility.None? || volatility == Some(10_000) ==> StabilityScore(volatility) == 5_000
    ensures volatility.Some? ==> (StabilityScore(volatility) == 0 <==> volatility.value > 99_990_000)
  {
    assert SatMul64(10_000, 10_000) == 100_000_000;
    if volatility.Some? {
      var d := 10_000 + volatility.value;
      QuotientBounds(100_000_000, d);
      if volatility.value > 99_990_000 {
        QuotientUnique(100_000_000, d, 0);
      } else {
        QuotientMonotone(100_000_000, 100_000_000, 100_000_000, d);
      }
    }
  }

  lemma NoShare(whole: u128)
    requires whole > 0
    ensures Share(0, whole) == 0
  {
    assert SatMul128(0, 10_000) == 0;
    QuotientUnique(0, whole, 0);
  }

  lemma WholeShare(whole: u128)
    requires whole > 0
    ensures Share(whole, whole) == 10_000 <==> whole * 10_000 <= U128_MAX
  {
    MulNonNegative(whole, 10_000);
    if whole * 10_000 <= U128_MAX {
      ShareBound(whole, whole);
      QuotientUnique(whole * 10_000, whole, 10_000);
    } else {
      QuotientUnique(U128_MAX, whole, 9_999);
    }
  }

  /* ---------- the choice ---------- */

  function Volume(p: PoolScore): u64 {
    if p.pool.volume24h.Some? then p.pool.volume24h.value else 0
  }

  /** Strictly ahead on score, then on volume. */
  predicate Beats(a: PoolScore, b: PoolScore) {
    a.total > b.total || (a.total == b.total && Volume(a) > Volume(b))
  }

  function ScoreAll(cs: seq<Candidate>, s: Scale): (r: seq<PoolScore>)
    requires forall c :: c in cs ==> InScale(c, s)
    ensures |r| == |cs| && forall i :: 0 <= i < |cs| ==> cs[i] in cs && r[i] == ScorePool(cs[i], s)
  {
    if cs == [] then []
    else
      assert cs[0] in cs;
      [ScorePool(cs[0], s)] + ScoreAll(cs[1..], s)
  }

  /** max_by keeps the later of two equal elements. */
  function LastMax(scores: seq<PoolScore>): (k: nat)
    requires scores != []
    ensures k < |scores|
  {
    if |scores| == 1 then 0
    else
      var last := |scores| - 1;
      var k := LastMax(scores[..last]);
      if Beats(scores[k], scores[last]) then k else last
  }

  predicate IsLastMaximum(scores: seq<PoolScore>, k: nat)
    requires k < |scores|
  {
    && (forall j :: 0 <= j < |scores| ==> !Beats(scores[j], scores[k]))
    && (forall j :: k < j < |scores| ==> Beats(scores[k], scores[j]))
  }

  /** Nothing beats the choice, and it beats everything after it. */
  lemma {:induction false} LastMaxIsLastMaximum(scores: seq<PoolScore>)
    requires scores != []
    ensures IsLastMaximum(scores, LastMax(scores))
  {
    if |scores| > 1 {
      var last := |scores| - 1;
      var prefix := scores[..last];
      LastMaxIsLastMaximum(prefix);
      assert forall j :: 0 <= j < last ==> prefix[j] == scores[j];
    }
  }

  /** The scale holds every candidate and is no wider than they are: its ends and its depth are attained. */
  lemma ScaleFits(cs: seq<Candidate>)
    requires cs != []
    ensures forall c :: c in cs ==> InScale(c, ScaleOf(cs))
    ensures exists c :: c in cs && c.amountIn == ScaleOf(cs).minIn
    ensures exists c :: c in cs && c.amountIn == ScaleOf(cs).maxIn
    ensures ScaleOf(cs).maxTvl.Some? ==> exists c :: c in cs && Liquidity(c.pool) == ScaleOf(cs).maxTvl
  {
    var deepest := MaxTvl(cs);
    if deepest.Some? {
      var c :| c in cs && Liquidity(c.pool) == deepest;
    }
  }

  function Scores(cs: seq<Candidate>): (r: seq<PoolScore>)
    requires cs != []
    ensures |r| == |cs| && forall i :: 0 <= i < |cs| ==> r[i].pool == cs[i].pool
  {
    ScaleFits(cs);
    ScoreAll(cs, ScaleOf(cs))
  }

  function SelectBestPool(pools: seq<Pool>, q: Request): Option<Pool>
    requires AllSane(pools)
  {
    var cs := Contenders(pools, q);
    if cs == [] then None
    else if |cs| == 1 then Some(cs[0].pool)
    else Some(cs[LastMax(Scores(cs))].pool)
  }

  /** If some pool can be chosen, one can be for every smaller amount, slippage and integrator fee. */
  lemma SelectSucceedsBelow(pools: seq<Pool>, q: Request, less: Request)
    requires AllSane(pools) && SelectBestPool(pools, q).Some?
    requires less.assetIn == q.assetIn && less.amountOut <= q.amountOut
    requires less.slippageBps <= q.slippageBps && less.integratorBps <= q.integratorBps
    ensures SelectBestPool(pools, less).Some?
  {
    ContendersAre(pools, q);
    ContendersAre(pools, less);
    var p :| p in pools && QuoteFor(p, q).Ok?;
    QuoteMonotone(p, p, q.assetIn, less.amountOut, q.amountOut, less.slippageBps, q.slippageBps,
                  less.integratorBps, q.integratorBps);
    assert SomeViable(pools, less);
  }
}
