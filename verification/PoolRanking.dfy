/** The pool choice in plain terms: over the positions of the given list, without the functions the choice is computed
    with (crates/flashnet/src/pool_selection.rs). */
module PoolRanking {
  import opened Prelude
  import opened Quote
  import opened PoolSelection

  /** What each pool of the list asks for. */
  ghost predicate Quoted(pools: seq<Pool>, q: Request, quotes: seq<Result<u128, QuoteError>>)
    requires AllSane(pools)
  {
    && |quotes| == |pools|
    && forall i :: 0 <= i < |pools| ==>
         pools[i] in pools
         && quotes[i] == CalculateAmountIn(pools[i], q.assetIn, q.amountOut, q.slippageBps, q.integratorBps)
  }

  /** The pool at position i has a quote, and it is a V3 pool if any pool with a quote is. */
  ghost predicate Contends(pools: seq<Pool>, quotes: seq<Result<u128, QuoteError>>, i: nat)
    requires |quotes| == |pools|
  {
    && i < |pools| && quotes[i].Ok?
    && (pools[i].curve == Some(V3Concentrated)
        || forall j :: 0 <= j < |pools| && quotes[j].Ok? ==> pools[j].curve != Some(V3Concentrated))
  }

  /** The value locked in asset B if it is known, else the reserve of asset B if that is. */
  function Depth(pool: Pool): Option<u128> {
    if pool.tvlB.Some? then Some(pool.tvlB.value) else if pool.reserveB.Some? then Some(pool.reserveB.value) else None
  }

  /** The scale runs from the cheapest to the dearest contender, its depth is that of the deepest one. */
  ghost predicate Spans(pools: seq<Pool>, quotes: seq<Result<u128, QuoteError>>, s: Scale)
    requires |quotes| == |pools|
  {
    && (forall i: nat :: Contends(pools, quotes, i) ==> s.minIn <= quotes[i].value <= s.maxIn)
    && (exists i: nat :: Contends(pools, quotes, i) && quotes[i].value == s.minIn)
    && (exists i: nat :: Contends(pools, quotes, i) && quotes[i].value == s.maxIn)
    && (forall i: nat :: Contends(pools, quotes, i) && Depth(pools[i]).Some? ==>
          s.maxTvl.Some? && Depth(pools[i]).value <= s.maxTvl.value)
    && (s.maxTvl.Some? ==> exists i: nat :: Contends(pools, quotes, i) && Depth(pools[i]) == s.maxTvl)
  }

  function VolumeOf(pool: Pool): nat {
    if pool.volume24h.Some? then pool.volume24h.value else 0
  }

  /** The totals of the contenders under the scale. */
  ghost predicate Scored(pools: seq<Pool>, quotes: seq<Result<u128, QuoteError>>, s: Scale, totals: seq<nat>)
    requires |quotes| == |pools|
  {
    && |totals| == |pools|
    && forall i: nat :: Contends(pools, quotes, i) ==>
         var c := Candidate(pools[i], quotes[i].value); InScale(c, s) && totals[i] == ScorePool(c, s).total
  }

  /** The contender at k has the highest total, of those the highest volume, and of those it stands last. */
  ghost predicate IsBest(pools: seq<Pool>, quotes: seq<Result<u128, QuoteError>>, totals: seq<nat>, k: nat)
    requires |quotes| == |pools| == |totals|
  {
    && Contends(pools, quotes, k)
    && forall j: nat :: Contends(pools, quotes, j) ==>
         || totals[j] < totals[k]
         || (totals[j] == totals[k] && VolumeOf(pools[j]) < VolumeOf(pools[k]))
         || (totals[j] == totals[k] && VolumeOf(pools[j]) == VolumeOf(pools[k]) && j <= k)
  }

  /* ---------- positions of the contenders ---------- */

  predicate Occupies(pools: seq<Pool>, quotes: seq<Result<u128, QuoteError>>, c: Candidate, i: nat)
    requires |quotes| == |pools|
  {
    i < |pools| && quotes[i].Ok? && c == Candidate(pools[i], quotes[i].value)
  }

  predicate Ascending(spots: seq<nat>) {
    forall m, n :: 0 <= m < n < |spots| ==> spots[m] < spots[n]
  }

  /** `spots` are the positions, in order, of the candidates in the list. */
  ghost predicate Places(pools: seq<Pool>, quotes: seq<Result<u128, QuoteError>>, cs: seq<Candidate>, spots: seq<nat>)
    requires |quotes| == |pools|
  {
    && |spots| == |cs| && Ascending(spots)
    && forall n :: 0 <= n < |cs| ==> Occupies(pools, quotes, cs[n], spots[n])
  }

  /** The positions of exactly the contenders. */
  ghost predicate Located(pools: seq<Pool>, quotes: seq<Result<u128, QuoteError>>, cs: seq<Candidate>, spots: seq<nat>)
    requires |quotes| == |pools|
  {
    Places(pools, quotes, cs, spots) && forall i: nat :: i in spots <==> Contends(pools, quotes, i)
  }

  lemma {:induction false} ViablePlaces(pools: seq<Pool>, q: Request, quotes: seq<Result<u128, QuoteError>>)
    returns (spots: seq<nat>)
    requires AllSane(pools) && Quoted(pools, q, quotes)
    ensures Places(pools, quotes, Viable(pools, q), spots)
    ensures forall i :: 0 <= i < |pools| && quotes[i].Ok? ==> i in spots
  {
    if pools == [] {
      return [];
    }
    var rest := ViablePlaces(pools[1..], q, quotes[1..]);
    assert QuoteFor(pools[0], q) == quotes[0];
    spots := Shifted(pools, quotes, Viable(pools[1..], q), rest);
  }

  function Later(rest: seq<nat>): (later: seq<nat>)
    ensures |later| == |rest| && forall n :: 0 <= n < |rest| ==> later[n] == rest[n] + 1
  {
    seq(|rest|, n requires 0 <= n < |rest| => rest[n] + 1)
  }

  /** One more pool in front. */
  lemma Shifted(pools: seq<Pool>, quotes: seq<Result<u128, QuoteError>>, cs: seq<Candidate>, rest: seq<nat>)
    returns (spots: seq<nat>)
    requires |quotes| == |pools| > 0 && Places(pools[1..], quotes[1..], cs, rest)
    requires forall i :: 0 <= i < |pools| - 1 && quotes[1..][i].Ok? ==> i in rest
    ensures Places(pools, quotes, if quotes[0].Ok? then [Candidate(pools[0], quotes[0].value)] + cs else cs, spots)
    ensures forall i :: 0 <= i < |pools| && quotes[i].Ok? ==> i in spots
  {
    var later := Later(rest);
    ShiftedPlaces(pools, quotes, cs, rest);
    spots := if quotes[0].Ok? then [0] + later else later;
    if quotes[0].Ok? {
      InFront(pools, quotes, Candidate(pools[0], quotes[0].value), 0, cs, later);
    }
    forall i | 1 <= i < |pools| && quotes[i].Ok? ensures i in spots {
      assert quotes[1..][i - 1] == quotes[i];
      var n :| 0 <= n < |rest| && rest[n] == i - 1;
      assert later[n] == i;
    }
  }

  lemma ShiftedPlaces(pools: seq<Pool>, quotes: seq<Result<u128, QuoteError>>, cs: seq<Candidate>, rest: seq<nat>)
    requires |quotes| == |pools| > 0 && Places(pools[1..], quotes[1..], cs, rest)
    ensures Places(pools, quotes, cs, Later(rest))
  {
    forall n | 0 <= n < |cs| ensures Occupies(pools, quotes, cs[n], Later(rest)[n]) {
      assert Occupies(pools[1..], quotes[1..], cs[n], rest[n]);
    }
  }

  lemma InFront(pools: seq<Pool>, quotes: seq<Result<u128, QuoteError>>, c: Candidate, i: nat, cs: seq<Candidate>,
                spots: seq<nat>)
    requires |quotes| == |pools| && Places(pools, quotes, cs, spots) && Occupies(pools, quotes, c, i)
    requires forall n :: 0 <= n < |spots| ==> i < spots[n]
    ensures Places(pools, quotes, [c] + cs, [i] + spots)
  {
    var more, places := [c] + cs, [i] + spots;
    forall n | 0 <= n < |more| ensures Occupies(pools, quotes, more[n], places[n]) {
      if n > 0 {
        assert more[n] == cs[n - 1] && places[n] == spots[n - 1];
      }
    }
  }

  lemma Behind(pools: seq<Pool>, quotes: seq<Result<u128, QuoteError>>, cs: seq<Candidate>, spots: seq<nat>)
    requires |quotes| == |pools| && Places(pools, quotes, cs, spots) && cs != []
    ensures Places(pools, quotes, cs[1..], spots[1..]) && Occupies(pools, quotes, cs[0], spots[0])
    ensures forall i :: i in spots[1..] ==> spots[0] < i
  {
    forall n | 0 <= n < |cs| - 1 ensures Occupies(pools, quotes, cs[1..][n], spots[1..][n]) {
      assert Occupies(pools, quotes, cs[n + 1], spots[n + 1]);
    }
  }

  lemma {:induction false} OnlyV3Places(pools: seq<Pool>, quotes: seq<Result<u128, QuoteError>>, cs: seq<Candidate>,
                                        all: seq<nat>) returns (spots: seq<nat>)
    requires |quotes| == |pools| && Places(pools, quotes, cs, all)
    ensures Places(pools, quotes, OnlyV3(cs), spots)
    ensures forall i :: i in spots <==> i in all && i < |pools| && IsV3(pools[i])
  {
    if cs == [] {
      return [];
    }
    Behind(pools, quotes, cs, all);
    var rest := OnlyV3Places(pools, quotes, cs[1..], all[1..]);
    assert all == [all[0]] + all[1..];
    if IsV3(cs[0].pool) {
      forall n | 0 <= n < |rest| ensures all[0] < rest[n] {
        assert rest[n] in all[1..];
      }
      InFront(pools, quotes, cs[0], all[0], OnlyV3(cs[1..]), rest);
      spots := [all[0]] + rest;
    } else {
      spots := rest;
    }
  }

  /** The candidate a position stands for. */
  lemma Occupant(pools: seq<Pool>, quotes: seq<Result<u128, QuoteError>>, cs: seq<Candidate>, spots: seq<nat>, i: nat)
    returns (n: nat)
    requires |quotes| == |pools| && Places(pools, quotes, cs, spots) && i in spots
    ensures n < |spots| && spots[n] == i && i < |pools| && quotes[i].Ok?
    ensures cs[n] == Candidate(pools[i], quotes[i].value) && cs[n] in cs
  {
    n :| 0 <= n < |spots| && spots[n] == i;
    assert Occupies(pools, quotes, cs[n], spots[n]);
  }

  /** The position a candidate stands at. */
  lemma Stands(pools: seq<Pool>, quotes: seq<Result<u128, QuoteError>>, cs: seq<Candidate>, spots: seq<nat>,
               c: Candidate) returns (i: nat)
    requires |quotes| == |pools| && Places(pools, quotes, cs, spots) && c in cs
    ensures i in spots && i < |pools| && quotes[i].Ok? && c == Candidate(pools[i], quotes[i].value)
  {
    var n :| 0 <= n < |cs| && cs[n] == c;
    i := spots[n];
    assert Occupies(pools, quotes, cs[n], spots[n]);
  }

  /** The contenders stand in the order of the list. */
  lemma ContenderPlaces(pools: seq<Pool>, q: Request, quotes: seq<Result<u128, QuoteError>>)
    returns (spots: seq<nat>)
    requires AllSane(pools) && Quoted(pools, q, quotes)
    ensures Located(pools, quotes, Contenders(pools, q), spots)
  {
    var viable := Viable(pools, q);
    var all := ViablePlaces(pools, q, quotes);
    forall i: nat ensures i in all <==> i < |pools| && quotes[i].Ok? {
      if i in all {
        var n := Occupant(pools, quotes, viable, all, i);
      }
    }
    if HasV3(viable) {
      spots := OnlyV3Places(pools, quotes, viable, all);
      var c :| c in viable && IsV3(c.pool);
      var i := Stands(pools, quotes, viable, all, c);
    } else {
      spots := all;
      forall j: nat | j < |pools| && quotes[j].Ok? ensures pools[j].curve != Some(V3Concentrated) {
        var n := Occupant(pools, quotes, viable, all, j);
      }
    }
  }

  /* ---------- the choice ---------- */

  lemma ContendersFit(pools: seq<Pool>, quotes: seq<Result<u128, QuoteError>>, cs: seq<Candidate>, spots: seq<nat>)
    requires |quotes| == |pools| && Located(pools, quotes, cs, spots) && cs != []
    ensures forall i: nat :: Contends(pools, quotes, i) ==> InScale(Candidate(pools[i], quotes[i].value), ScaleOf(cs))
  {
    ScaleFits(cs);
    forall i: nat | Contends(pools, quotes, i) ensures InScale(Candidate(pools[i], quotes[i].value), ScaleOf(cs)) {
      var n := Occupant(pools, quotes, cs, spots, i);
    }
  }

  predicate Asks(cs: seq<Candidate>, amount: u128) {
    exists c :: c in cs && c.amountIn == amount
  }

  predicate Reaches(cs: seq<Candidate>, depth: Option<u128>) {
    exists c :: c in cs && Depth(c.pool) == depth
  }

  lemma ScaleEnds(cs: seq<Candidate>)
    requires cs != []
    ensures var s := ScaleOf(cs);
            Asks(cs, s.minIn) && Asks(cs, s.maxIn) && (s.maxTvl.Some? ==> Reaches(cs, s.maxTvl))
  {
    ScaleFits(cs);
    var deepest := ScaleOf(cs).maxTvl;
    if deepest.Some? {
      var c :| c in cs && Liquidity(c.pool) == deepest;
      assert Depth(c.pool) == deepest;
    }
  }

  lemma EndStands(pools: seq<Pool>, quotes: seq<Result<u128, QuoteError>>, cs: seq<Candidate>, spots: seq<nat>,
                  amount: u128)
    requires |quotes| == |pools| && Located(pools, quotes, cs, spots) && Asks(cs, amount)
    ensures exists i: nat :: Contends(pools, quotes, i) && quotes[i].value == amount
  {
    var c :| c in cs && c.amountIn == amount;
    var i := Stands(pools, quotes, cs, spots, c);
    assert Contends(pools, quotes, i);
  }

  lemma DepthStands(pools: seq<Pool>, quotes: seq<Result<u128, QuoteError>>, cs: seq<Candidate>, spots: seq<nat>,
                    depth: Option<u128>)
    requires |quotes| == |pools| && Located(pools, quotes, cs, spots) && Reaches(cs, depth)
    ensures exists i: nat :: Contends(pools, quotes, i) && Depth(pools[i]) == depth
  {
    var c :| c in cs && Depth(c.pool) == depth;
    var i := Stands(pools, quotes, cs, spots, c);
    assert Contends(pools, quotes, i);
  }

  lemma ScaleSpans(pools: seq<Pool>, quotes: seq<Result<u128, QuoteError>>, cs: seq<Candidate>, spots: seq<nat>,
                   s: Scale)
    requires |quotes| == |pools| && Located(pools, quotes, cs, spots)
    requires Asks(cs, s.minIn) && Asks(cs, s.maxIn) && (s.maxTvl.Some? ==> Reaches(cs, s.maxTvl))
    requires forall i: nat :: Contends(pools, quotes, i) ==> InScale(Candidate(pools[i], quotes[i].value), s)
    ensures Spans(pools, quotes, s)
  {
    EndStands(pools, quotes, cs, spots, s.minIn);
    EndStands(pools, quotes, cs, spots, s.maxIn);
    if s.maxTvl.Some? {
      DepthStands(pools, quotes, cs, spots, s.maxTvl);
    }
  }

  /** No two scales have these ends. */
  lemma SpansOnce(pools: seq<Pool>, quotes: seq<Result<u128, QuoteError>>, s: Scale, t: Scale)
    requires |quotes| == |pools| && Spans(pools, quotes, s) && Spans(pools, quotes, t)
    ensures s == t
  {
    assert s.minIn == t.minIn && s.maxIn == t.maxIn;
    assert s.maxTvl.Some? <==> t.maxTvl.Some?;
  }

  /** The totals of the candidates at their positions, 0 elsewhere. */
  ghost function TotalsOf(pools: seq<Pool>, quotes: seq<Result<u128, QuoteError>>, s: Scale): seq<nat>
    requires |quotes| == |pools|
    requires forall i: nat :: Contends(pools, quotes, i) ==> InScale(Candidate(pools[i], quotes[i].value), s)
  {
    seq(|pools|, i requires 0 <= i < |pools| =>
      if Contends(pools, quotes, i) then ScorePool(Candidate(pools[i], quotes[i].value), s).total else 0)
  }

  lemma BestByScores(pools: seq<Pool>, quotes: seq<Result<u128, QuoteError>>, cs: seq<Candidate>, spots: seq<nat>,
                     scores: seq<PoolScore>, totals: seq<nat>, k: nat)
    requires |quotes| == |pools| == |totals| && Located(pools, quotes, cs, spots) && |scores| == |cs|
    requires forall n :: 0 <= n < |cs| ==> scores[n].pool == cs[n].pool && scores[n].total == totals[spots[n]]
    requires k < |scores| && IsLastMaximum(scores, k)
    ensures IsBest(pools, quotes, totals, spots[k])
  {
    assert spots[k] in spots;
    forall j: nat | Contends(pools, quotes, j)
      ensures || totals[j] < totals[spots[k]]
              || (totals[j] == totals[spots[k]] && VolumeOf(pools[j]) < VolumeOf(pools[spots[k]]))
              || (totals[j] == totals[spots[k]] && VolumeOf(pools[j]) == VolumeOf(pools[spots[k]]) && j <= spots[k])
    {
      var n := Occupant(pools, quotes, cs, spots, j);
      assert !Beats(scores[n], scores[k]);
      if n > k {
        assert Beats(scores[k], scores[n]);
      }
    }
  }

  lemma ScoresAre(pools: seq<Pool>, quotes: seq<Result<u128, QuoteError>>, cs: seq<Candidate>, spots: seq<nat>)
    requires |quotes| == |pools| && Located(pools, quotes, cs, spots) && cs != []
    requires forall i: nat :: Contends(pools, quotes, i) ==>
               InScale(Candidate(pools[i], quotes[i].value), ScaleOf(cs))
    ensures var scores, totals := Scores(cs), TotalsOf(pools, quotes, ScaleOf(cs));
            forall n :: 0 <= n < |cs| ==> spots[n] < |pools| && scores[n].total == totals[spots[n]]
  {
    ScaleFits(cs);
    forall n | 0 <= n < |cs| ensures spots[n] in spots {}
  }

  /** There is an answer exactly when some pool has a quote. Under the scale that the contenders span, the answer is
      the contender with the highest total, of those the highest volume, and of those the last in the list. */
  lemma SelectBestPoolSpec(pools: seq<Pool>, q: Request, quotes: seq<Result<u128, QuoteError>>)
    requires AllSane(pools) && Quoted(pools, q, quotes)
    ensures SelectBestPool(pools, q).Some? <==> exists i :: 0 <= i < |pools| && quotes[i].Ok?
    ensures SelectBestPool(pools, q).Some? ==>
              exists s: Scale, totals: seq<nat>, k: nat ::
                && Spans(pools, quotes, s) && Scored(pools, quotes, s, totals)
                && IsBest(pools, quotes, totals, k) && SelectBestPool(pools, q) == Some(pools[k])
  {
    var cs := Contenders(pools, q);
    var spots := ContenderPlaces(pools, q, quotes);
    if cs == [] {
      NoneContends(pools, quotes, spots);
    } else {
      var k := LastMax(Scores(cs));
      LastMaxIsLastMaximum(Scores(cs));
      BestOf(pools, quotes, cs, spots, k);
      assert cs[k].pool == pools[spots[k]];
    }
  }

  lemma BestOf(pools: seq<Pool>, quotes: seq<Result<u128, QuoteError>>, cs: seq<Candidate>, spots: seq<nat>, k: nat)
    requires |quotes| == |pools| && Located(pools, quotes, cs, spots)
    requires k < |cs| && IsLastMaximum(Scores(cs), k)
    ensures exists s: Scale, totals: seq<nat> ::
              Spans(pools, quotes, s) && Scored(pools, quotes, s, totals) && IsBest(pools, quotes, totals, spots[k])
  {
    ContendersFit(pools, quotes, cs, spots);
    ScaleEnds(cs);
    ScaleSpans(pools, quotes, cs, spots, ScaleOf(cs));
    ScoresAre(pools, quotes, cs, spots);
    var totals := TotalsOf(pools, quotes, ScaleOf(cs));
    assert Scored(pools, quotes, ScaleOf(cs), totals);
    BestByScores(pools, quotes, cs, spots, Scores(cs), totals, k);
  }

  lemma NoneContends(pools: seq<Pool>, quotes: seq<Result<u128, QuoteError>>, spots: seq<nat>)
    requires |quotes| == |pools| && Located(pools, quotes, [], spots)
    ensures forall i :: 0 <= i < |pools| ==> quotes[i].Err?
  {
    forall i: nat | i < |pools| ensures quotes[i].Err? {
      if quotes[i].Ok? {
        assert i !in spots;
        var j: nat :| j < |pools| && quotes[j].Ok? && pools[j].curve == Some(V3Concentrated);
        assert Contends(pools, quotes, j);
      }
    }
  }

  /* ---------- the score ---------- */

  /** r is part * 10000 / whole rounded down, the product capped at 128 bits. */
  predicate IsShare(part: int, whole: int, r: int) {
    var product := if part * 10_000 <= U128_MAX then part * 10_000 else U128_MAX;
    r * whole <= product < (r + 1) * whole
  }

  lemma ShareIs(part: u128, whole: u128)
    requires whole > 0
    ensures IsShare(part, whole, Share(part, whole))
  {
    var n := SatMul128(part, 10_000);
    MulNonNegative(part, 10_000);
    QuotientBounds(n, whole);
    MulDistributes(Share(part, whole), whole);
  }

  /** The whole score: price and depth as shares of the scale, stability as 10000 over one plus the volatility, half
      of it where the volatility is missing, and the total as the mean with weights 5, 3 and 2, all rounded down. */
  lemma ScoreExactly(c: Candidate, s: Scale)
    requires InScale(c, s)
    ensures var r, depth := ScorePool(c, s), if Depth(c.pool).Some? then Depth(c.pool).value else 0;
            && r.pool == c.pool
            && (if s.maxIn == s.minIn then r.fee == 10_000
                else IsShare(s.maxIn - c.amountIn, s.maxIn - s.minIn, r.fee))
            && (if s.maxTvl.None? then r.liquidity == 5_000
                else if depth == 0 then r.liquidity == 1_000
                else IsShare(depth, s.maxTvl.value, r.liquidity))
            && (if c.pool.volatilityBps.None? then r.stability == 5_000
                else IsShare(10_000, 10_000 + c.pool.volatilityBps.value, r.stability))
            && r.total * 10 <= r.fee * 5 + r.liquidity * 3 + r.stability * 2 < r.total * 10 + 10
  {
    ScoreBounds(c, s);
    if s.maxIn > s.minIn {
      ShareIs(s.maxIn - c.amountIn, s.maxIn - s.minIn);
    }
    if s.maxTvl.Some? && LiquidityOrZero(c.pool) > 0 {
      ShareIs(LiquidityOrZero(c.pool), s.maxTvl.value);
    }
    if c.pool.volatilityBps.Some? {
      StabilityIs(c.pool.volatilityBps.value);
    }
  }

  lemma StabilityIs(volatility: VolatilityBps)
    ensures IsShare(10_000, 10_000 + volatility, StabilityScore(Some(volatility)))
  {
    var d := 10_000 + volatility;
    assert SatMul64(10_000, 10_000) == 100_000_000;
    QuotientBounds(100_000_000, d);
    MulDistributes(StabilityScore(Some(volatility)), d);
  }
}
