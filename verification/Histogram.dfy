/** Benchmark histograms (crates/breez-sdk/breez-bench/src/stats.rs), durations in whole milliseconds. */
module Histogram {
  import opened Prelude

  datatype Bucket = Bucket(lower: nat, upper: nat, count: nat)
  datatype Histogram = Histogram(buckets: seq<Bucket>, totalCount: nat)

  /* ---------- counting ---------- */

  predicate Holds(b: Bucket, ms: nat) { b.lower <= ms < b.upper }

  function CountIn(samples: seq<nat>, lo: nat, hi: nat): nat {
    if samples == [] then 0
    else CountIn(samples[..|samples| - 1], lo, hi) + if lo <= samples[|samples| - 1] < hi then 1 else 0
  }

  function CountFrom(samples: seq<nat>, lo: nat): nat {
    if samples == [] then 0
    else CountFrom(samples[..|samples| - 1], lo) + if lo <= samples[|samples| - 1] then 1 else 0
  }

  function Sum(buckets: seq<Bucket>): nat {
    if buckets == [] then 0 else buckets[0].count + Sum(buckets[1..])
  }

  /** Empty buckets of the given width from `start` until `end` is reached; the last may reach past it. */
  function Empty(start: nat, end: nat, width: nat): seq<Bucket>
    requires width > 0
    decreases end - start
  {
    if start >= end then [] else [Bucket(start, start + width, 0)] + Empty(start + width, end, width)
  }

  predicate Contiguous(buckets: seq<Bucket>, width: nat) {
    && (forall i :: 0 <= i < |buckets| ==> buckets[i].upper == buckets[i].lower + width)
    && (forall i :: 0 <= i < |buckets| - 1 ==> buckets[i + 1].lower == buckets[i].upper)
  }

  lemma {:induction false} EmptyAre(start: nat, end: nat, width: nat)
    requires width > 0
    ensures var b := Empty(start, end, width);
            && Contiguous(b, width)
            && (b != [] ==> start < end && b[0].lower == start && b[|b| - 1].lower < end <= b[|b| - 1].upper)
            && (b == [] ==> start >= end)
            && (forall i :: 0 <= i < |b| ==> b[i].count == 0)
    decreases end - start
  {
    if start < end {
      var b, rest := Empty(start, end, width), Empty(start + width, end, width);
      EmptyAre(start + width, end, width);
      assert forall i :: 1 <= i < |b| ==> b[i] == rest[i - 1];
      forall i | 0 <= i < |b| - 1 ensures b[i + 1].lower == b[i].upper {
        assert b[i + 1] == rest[i];
      }
    }
  }

  lemma {:induction false} EmptyLower(start: nat, end: nat, width: nat, i: nat)
    requires width > 0 && i < |Empty(start, end, width)|
    ensures Empty(start, end, width)[i].lower == start + i * width
    ensures Empty(start, end, width)[i].upper == start + i * width + width
    decreases i
  {
    if i > 0 {
      EmptyLower(start + width, end, width, i - 1);
      assert (i - 1) * width + width == i * width;
    }
  }

  /** A bucket counts the samples inside it; the last one also every sample at or beyond `end`. */
  function Tally(buckets: seq<Bucket>, samples: seq<nat>, end: nat): seq<Bucket> {
    seq(|buckets|, i requires 0 <= i < |buckets| =>
      buckets[i].(count := CountIn(samples, buckets[i].lower, buckets[i].upper)
                           + if i == |buckets| - 1 then CountFrom(samples, end) else 0))
  }

  function TrimFront(buckets: seq<Bucket>): seq<Bucket> {
    if buckets != [] && buckets[0].count == 0 then TrimFront(buckets[1..]) else buckets
  }

  function TrimBack(buckets: seq<Bucket>): seq<Bucket> {
    if buckets != [] && buckets[|buckets| - 1].count == 0 then TrimBack(buckets[..|buckets| - 1]) else buckets
  }

  function WithBuckets(samples: seq<nat>, start: nat, end: nat, width: nat): Option<Histogram> {
    if samples == [] || width == 0 then None
    else Some(Histogram(TrimBack(TrimFront(Tally(Empty(start, end, width), samples, end))), |samples|))
  }

  /* ---------- the loops ---------- */

  method FromDurationsWithBuckets(samples: seq<nat>, start: nat, end: nat, width: nat) returns (r: Option<Histogram>)
    ensures r == WithBuckets(samples, start, end, width)
  {
    if samples == [] || width == 0 {
      return None;
    }
    var buckets := BuildEmpty(start, end, width);
    ghost var empty := Empty(start, end, width);
    EmptyAre(start, end, width);
    assert buckets == Tally(empty, samples[..0], end);
    for s := 0 to |samples|
      invariant buckets == Tally(empty, samples[..s], end)
    {
      buckets := CountSample(buckets, samples[s], end);
      CountedOnce(empty, samples, s, end, width);
    }
    assert samples[..|samples|] == samples;
    buckets := Trim(buckets);
    return Some(Histogram(buckets, |samples|));
  }

  method BuildEmpty(start: nat, end: nat, width: nat) returns (buckets: seq<Bucket>)
    requires width > 0
    ensures buckets == Empty(start, end, width)
  {
    var current := start;
    buckets := [];
    while current < end
      invariant buckets + Empty(current, end, width) == Empty(start, end, width)
      decreases end - current
    {
      var b := Bucket(current, current + width, 0);
      assert Empty(current, end, width) == [b] + Empty(current + width, end, width);
      assert buckets + ([b] + Empty(current + width, end, width)) == buckets + [b] + Empty(current + width, end, width);
      buckets := buckets + [b];
      current := current + width;
    }
  }

  method Trim(all: seq<Bucket>) returns (buckets: seq<Bucket>)
    ensures buckets == TrimBack(TrimFront(all))
  {
    buckets := all;
    while buckets != [] && buckets[0].count == 0
      invariant TrimFront(buckets) == TrimFront(all)
    {
      buckets := buckets[1..];
    }
    while buckets != [] && buckets[|buckets| - 1].count == 0
      invariant TrimBack(buckets) == TrimBack(TrimFront(all))
    {
      buckets := buckets[..|buckets| - 1];
    }
  }

  /** The first bucket that holds the sample is incremented; a sample at or beyond `end` also counts in the last. */
  function Counted(buckets: seq<Bucket>, ms: nat, end: nat): seq<Bucket> {
    var first := FirstHolding(buckets, ms);
    var once := if first < |buckets| then buckets[first := buckets[first].(count := buckets[first].count + 1)]
                else buckets;
    if ms >= end && once != [] then
      var last := |once| - 1;
      once[last := once[last].(count := once[last].count + 1)]
    else once
  }

  function FirstHolding(buckets: seq<Bucket>, ms: nat): (k: nat)
    ensures k <= |buckets| && (k < |buckets| ==> Holds(buckets[k], ms))
    ensures forall j :: 0 <= j < k ==> !Holds(buckets[j], ms)
  {
    if buckets == [] || Holds(buckets[0], ms) then 0 else 1 + FirstHolding(buckets[1..], ms)
  }

  method CountSample(buckets: seq<Bucket>, ms: nat, end: nat) returns (r: seq<Bucket>)
    ensures r == Counted(buckets, ms, end)
  {
    r := buckets;
    for k := 0 to |buckets|
      invariant r == buckets && k <= FirstHolding(buckets, ms)
    {
      if Holds(buckets[k], ms) {
        r := buckets[k := buckets[k].(count := buckets[k].count + 1)];
        break;
      }
    }
    if ms >= end && r != [] {
      var last := |r| - 1;
      r := r[last := r[last].(count := r[last].count + 1)];
    }
  }

  lemma OneHolder(buckets: seq<Bucket>, width: nat, i: nat, j: nat, ms: nat)
    requires Contiguous(buckets, width) && i < j < |buckets|
    ensures buckets[i].upper <= buckets[j].lower
  {
    if i + 1 < j {
      OneHolder(buckets, width, i, j - 1, ms);
    }
  }

  /** At most one bucket holds a sample, and it is the first that does. */
  lemma HolderIsFirst(empty: seq<Bucket>, before: seq<Bucket>, width: nat, ms: nat, i: nat)
    requires Contiguous(empty, width) && |before| == |empty| && i < |empty|
    requires forall j :: 0 <= j < |empty| ==> before[j].lower == empty[j].lower && before[j].upper == empty[j].upper
    ensures Holds(empty[i], ms) <==> i == FirstHolding(before, ms)
  {
    var first := FirstHolding(before, ms);
    if first < i {
      assert Holds(before[first], ms);
      OneHolder(empty, width, first, i, ms);
    } else if i < first {
      assert !Holds(before[i], ms);
    }
  }

  lemma OneMoreSample(samples: seq<nat>, s: nat, lo: nat, hi: nat)
    requires s < |samples|
    ensures CountIn(samples[..s + 1], lo, hi) == CountIn(samples[..s], lo, hi) + if lo <= samples[s] < hi then 1 else 0
    ensures CountFrom(samples[..s + 1], lo) == CountFrom(samples[..s], lo) + if lo <= samples[s] then 1 else 0
  {
    assert samples[..s + 1][..s] == samples[..s];
  }

  lemma CountedBucket(buckets: seq<Bucket>, ms: nat, end: nat, i: nat)
    requires i < |buckets|
    ensures |Counted(buckets, ms, end)| == |buckets|
    ensures Counted(buckets, ms, end)[i]
         == buckets[i].(count := buckets[i].count + (if i == FirstHolding(buckets, ms) then 1 else 0)
                                 + if i == |buckets| - 1 && ms >= end then 1 else 0)
  {
  }

  lemma CountedOnce(empty: seq<Bucket>, samples: seq<nat>, s: nat, end: nat, width: nat)
    requires s < |samples| && Contiguous(empty, width)
    ensures Counted(Tally(empty, samples[..s], end), samples[s], end) == Tally(empty, samples[..s + 1], end)
  {
    var before, after := Tally(empty, samples[..s], end), Tally(empty, samples[..s + 1], end);
    var counted := Counted(before, samples[s], end);
    if empty != [] { CountedBucket(before, samples[s], end, 0); }
    forall i | 0 <= i < |empty| ensures counted[i] == after[i] {
      CountedBucket(before, samples[s], end, i);
      HolderIsFirst(empty, before, width, samples[s], i);
      OneMoreSample(samples, s, empty[i].lower, empty[i].upper);
      OneMoreSample(samples, s, end, end);
    }
    assert |counted| == |after|;
  }

  /* ---------- what is counted ---------- */

  lemma {:induction false} SumTrimFront(buckets: seq<Bucket>)
    ensures Sum(TrimFront(buckets)) == Sum(buckets) && |TrimFront(buckets)| <= |buckets|
  {
    if buckets != [] && buckets[0].count == 0 { SumTrimFront(buckets[1..]); }
  }

  lemma {:induction false} SumSnoc(buckets: seq<Bucket>, b: Bucket)
    ensures Sum(buckets + [b]) == Sum(buckets) + b.count
  {
    if buckets == [] {
      assert [b][1..] == [];
    } else {
      assert (buckets + [b])[1..] == buckets[1..] + [b];
      SumSnoc(buckets[1..], b);
    }
  }

  lemma {:induction false} SumTrimBack(buckets: seq<Bucket>)
    ensures Sum(TrimBack(buckets)) == Sum(buckets) && |TrimBack(buckets)| <= |buckets|
  {
    if buckets != [] && buckets[|buckets| - 1].count == 0 {
      var k := |buckets| - 1;
      assert buckets == buckets[..k] + [buckets[k]];
      SumSnoc(buckets[..k], buckets[k]);
      SumTrimBack(buckets[..k]);
    }
  }

  lemma CountSplit(samples: seq<nat>, a: nat, b: nat, c: nat)
    requires a <= b <= c
    ensures CountIn(samples, a, b) + CountIn(samples, b, c) == CountIn(samples, a, c)
  {
  }

  lemma {:induction false} SumTally(start: nat, end: nat, width: nat, samples: seq<nat>)
    requires width > 0 && start < end
    ensures var b := Empty(start, end, width);
            b != [] && Sum(Tally(b, samples, end))
                       == CountIn(samples, start, b[|b| - 1].upper) + CountFrom(samples, end)
    decreases end - start
  {
    var b := Empty(start, end, width);
    var t := Tally(b, samples, end);
    EmptyAre(start + width, end, width);
    if start + width < end {
      var rest := Empty(start + width, end, width);
      SumTally(start + width, end, width, samples);
      assert t[1..] == Tally(rest, samples, end);
      EmptyAre(start, end, width);
      CountSplit(samples, start, start + width, b[|b| - 1].upper);
    } else {
      assert b == [Bucket(start, start + width, 0)];
      assert t[1..] == [];
    }
  }

  lemma {:induction false} EverySample(samples: seq<nat>, edge: nat)
    ensures CountIn(samples, 0, edge) + CountFrom(samples, edge) == |samples|
  {
    if samples != [] { EverySample(samples[..|samples| - 1], edge); }
  }

  /** With explicit bounds the buckets hold every sample from `start` to the end of the last bucket, and once more
      every sample at or beyond `end`. Compared with the samples: those below `start` are missing, and those between
      `end` and an unaligned last edge are counted twice. */
  lemma ExplicitBoundsCount(samples: seq<nat>, start: nat, end: nat, width: nat)
    requires samples != [] && width > 0 && start < end
    ensures var h, b := WithBuckets(samples, start, end, width), Empty(start, end, width);
            b != [] && h.Some? && end <= b[|b| - 1].upper
            && Sum(h.value.buckets) == CountIn(samples, start, b[|b| - 1].upper) + CountFrom(samples, end)
            && Sum(h.value.buckets) + CountIn(samples, 0, start)
               == |samples| + CountIn(samples, end, b[|b| - 1].upper)
  {
    var b := Empty(start, end, width);
    var t := Tally(b, samples, end);
    SumTally(start, end, width, samples);
    SumTrimFront(t);
    SumTrimBack(TrimFront(t));
    EmptyAre(start, end, width);
    CountSplit(samples, 0, start, b[|b| - 1].upper);
    CountSplit(samples, 0, end, b[|b| - 1].upper);
    EverySample(samples, end);
  }

  predicate AllWithin(samples: seq<nat>, lo: nat, hi: nat) {
    forall i :: 0 <= i < |samples| ==> lo <= samples[i] < hi
  }

  predicate AllFrom(samples: seq<nat>, lo: nat) {
    forall i :: 0 <= i < |samples| ==> lo <= samples[i]
  }

  lemma {:induction false} NoneBelow(samples: seq<nat>, lo: nat)
    requires AllFrom(samples, lo)
    ensures CountIn(samples, 0, lo) == 0
  {
    if samples != [] { NoneBelow(samples[..|samples| - 1], lo); }
  }

  lemma {:induction false} NoneInEmptyRange(samples: seq<nat>, lo: nat)
    ensures CountIn(samples, lo, lo) == 0
  {
    if samples != [] { NoneInEmptyRange(samples[..|samples| - 1], lo); }
  }

  /** Explicit bounds that count every list of samples at or above `start` exactly once. */
  ghost predicate CountsOnce(start: nat, end: nat, width: nat) {
    forall samples: seq<nat> :: samples != [] && AllFrom(samples, start) ==>
      CountsAll(WithBuckets(samples, start, end, width), samples)
  }

  predicate CountsAll(h: Option<Histogram>, samples: seq<nat>) {
    h.Some? && Sum(h.value.buckets) == |samples|
  }

  lemma LastEdgeIsEnd(start: nat, end: nat, width: nat)
    requires width > 0 && start < end
    ensures var b := Empty(start, end, width);
            b != [] && (b[|b| - 1].upper == end <==> (end - start) % width == 0)
  {
    var b := Empty(start, end, width);
    EmptyAre(start, end, width);
    var k := |b| - 1;
    EmptyLower(start, end, width, k);
    // the last bucket starts below end and reaches it: k whole widths fit below end - start, k + 1 do not
    assert k * width < end - start <= k * width + width;
    WholeWidths(end - start, width, k);
  }

  lemma Smaller(q: nat, n: nat, w: nat)
    requires w > 0 && q * w < n * w
    ensures q < n
  {
    assert (n - q) * w == n * w - q * w;
  }

  lemma WholeWidths(n: nat, w: nat, k: nat)
    requires w > 0 && k * w < n <= k * w + w
    ensures n == k * w + w <==> n % w == 0
  {
    var q := n / w;
    assert n == q * w + n % w;
    assert (k + 1) * w == k * w + w && (k + 2) * w == k * w + 2 * w && (q + 1) * w == q * w + w;
    if n == k * w + w {
      Smaller(q, k + 2, w);
      Smaller(k + 1, q + 1, w);
    }
    if n % w == 0 {
      Smaller(k, q, w);
      Smaller(q, k + 2, w);
    }
  }

  /** The exact condition: explicit bounds count every sample once if and only if there is at least one bucket and
      the bounds are a whole number of buckets apart. */
  lemma ExplicitBoundsCountOnceIff(start: nat, end: nat, width: nat)
    ensures CountsOnce(start, end, width) <==> width > 0 && start < end && (end - start) % width == 0
  {
    if width > 0 && start < end {
      var b := Empty(start, end, width);
      var edge := b[|b| - 1].upper;
      LastEdgeIsEnd(start, end, width);
      if (end - start) % width == 0 {
        forall samples: seq<nat> | samples != [] && AllFrom(samples, start)
          ensures CountsAll(WithBuckets(samples, start, end, width), samples)
        {
          ExplicitBoundsCount(samples, start, end, width);
          NoneBelow(samples, start);
          NoneInEmptyRange(samples, end);
        }
      } else {
        ExplicitBoundsCount([end], start, end, width);
        NoneBelow([end], start);
        assert CountIn([], end, edge) == 0 && [end][..0] == [];
        assert CountIn([end], end, edge) == 1;
        assert AllFrom([end], start) && !CountsAll(WithBuckets([end], start, end, width), [end]);
      }
    } else {
      assert AllFrom([start], start);
      assert width > 0 ==> Empty(start, end, width) == [];
      assert width > 0 ==> Tally([], [start], end) == [];
      assert !CountsAll(WithBuckets([start], start, end, width), [start]);
    }
  }

  /** One sample of 5 ms in buckets of 2 ms from 0 to 5 is counted twice. */
  lemma UnalignedEndCountsTwice()
    ensures var h := WithBuckets([5], 0, 5, 2); h.Some? && h.value.totalCount == 1 && Sum(h.value.buckets) == 2
  {
    ExplicitBoundsCount([5], 0, 5, 2);
    LastEdgeIsEnd(0, 5, 2);
    EmptyLower(0, 5, 2, |Empty(0, 5, 2)| - 1);
    EmptyAre(0, 5, 2);
    assert [5][..0] == [];
    NoneBelow([5], 0);
  }

  /* ---------- automatic buckets ---------- */

  function MinOf(s: seq<nat>): (m: nat)
    requires s != []
    ensures forall i :: 0 <= i < |s| ==> m <= s[i]
    ensures exists i :: 0 <= i < |s| && s[i] == m
  {
    if |s| == 1 then s[0]
    else
      var m := MinOf(s[1..]);
      assert exists i :: 0 <= i < |s| - 1 && s[1..][i] == m && s[i + 1] == m;
      assert forall i :: 1 <= i < |s| ==> s[i] == s[1..][i - 1];
      if m < s[0] then m else s[0]
  }

  function MaxOf(s: seq<nat>): (m: nat)
    requires s != []
    ensures forall i :: 0 <= i < |s| ==> s[i] <= m
    ensures exists i :: 0 <= i < |s| && s[i] == m
  {
    if |s| == 1 then s[0]
    else
      var m := MaxOf(s[1..]);
      assert exists i :: 0 <= i < |s| - 1 && s[1..][i] == m && s[i + 1] == m;
      assert forall i :: 1 <= i < |s| ==> s[i] == s[1..][i - 1];
      if m > s[0] then m else s[0]
  }

  /** The greatest power of ten not above `raw`. */
  function Magnitude(raw: nat): (m: nat)
    requires raw > 0
    ensures 0 < m <= raw < 10 * m
    ensures raw < 10 ==> m == 1
  {
    if raw < 10 then 1 else 10 * Magnitude(raw / 10)
  }

  /** 1, 2, 5 or 10 times the magnitude; the thresholds 1.5, 3.5 and 7.5 in integers. */
  function NiceWidth(raw: nat): nat {
    if raw == 0 then 1
    else
      var m := Magnitude(raw);
      if 2 * raw <= 3 * m then m
      else if 2 * raw <= 7 * m then 2 * m
      else if 2 * raw <= 15 * m then 5 * m
      else 10 * m
  }

  function PowerOfTen(k: nat): nat {
    if k == 0 then 1 else 10 * PowerOfTen(k - 1)
  }

  lemma {:induction false} MagnitudeIsAPower(raw: nat)
    requires raw > 0
    ensures exists k: nat :: Magnitude(raw) == PowerOfTen(k)
  {
    if raw < 10 {
      assert Magnitude(raw) == PowerOfTen(0);
    } else {
      MagnitudeIsAPower(raw / 10);
      var k: nat :| Magnitude(raw / 10) == PowerOfTen(k);
      assert Magnitude(raw) == PowerOfTen(k + 1);
    }
  }

  /** The width is 1, 2 or 5 times a power of ten and between 4/7 and 10/7 of the raw width. */
  lemma NiceWidthIsNice(raw: nat)
    requires raw > 0
    ensures exists k: nat ::
              var m := PowerOfTen(k); NiceWidth(raw) == m || NiceWidth(raw) == 2 * m || NiceWidth(raw) == 5 * m
    ensures 4 * raw <= 7 * NiceWidth(raw) <= 10 * raw
  {
    MagnitudeIsAPower(raw);
    var k: nat :| Magnitude(raw) == PowerOfTen(k);
    assert PowerOfTen(k + 1) == 10 * Magnitude(raw);
  }

  datatype Layout = Layout(start: nat, end: nat, width: nat)

  function AutoWidth(range: nat): (w: nat)
    ensures w > 0
  {
    NiceWidth(if range / 10 > 1 then range / 10 else 1)
  }

  function Aligned(lo: nat, hi: nat, width: nat): Layout
    requires width > 0
  {
    WidthQuotient(lo, width);
    WidthQuotient(hi, width);
    assert (hi / width + 1) * width == hi / width * width + width;
    Layout(lo / width * width, (hi / width + 1) * width, width)
  }

  function AutoLayout(samples: seq<nat>): Layout
    requires samples != []
  {
    var lo, hi := MinOf(samples), MaxOf(samples);
    Aligned(lo, hi, AutoWidth(if hi > lo + 1 then hi - lo else 1))
  }

  lemma WidthQuotient(n: nat, w: nat)
    requires w > 0
    ensures 0 <= n / w * w <= n < n / w * w + w
  {
    assert n == (n / w) * w + n % w;
  }

  lemma RangeBelowTwentyWidths(range: nat)
    ensures range < 20 * AutoWidth(range)
  {
    var raw := if range / 10 > 1 then range / 10 else 1;
    var m := Magnitude(raw);
    assert range <= 10 * raw + 9;
  }

  lemma AlignedFits(lo: nat, hi: nat, w: nat)
    requires w > 0 && lo <= hi < lo + 20 * w
    ensures var l := Aligned(lo, hi, w);
            && l.start <= lo && hi < l.end
            && exists n: nat :: 1 <= n <= 21 && l.end == l.start + n * w
  {
    WidthQuotient(lo, w);
    WidthQuotient(hi, w);
    var a, b := lo / w, hi / w;
    assert (b + 1) * w == b * w + w;
    assert (a + 21) * w == a * w + 21 * w;
    Smaller(b, a + 21, w);
    Smaller(a, b + 1, w);
    assert (b + 1 - a) * w == (b + 1) * w - a * w;
  }

  lemma LayoutFits(samples: seq<nat>)
    requires samples != []
    ensures var l := AutoLayout(samples);
            && l.width > 0
            && AllWithin(samples, l.start, l.end)
            && exists n: nat :: 1 <= n <= 21 && l.end == l.start + n * l.width
  {
    var lo, hi := MinOf(samples), MaxOf(samples);
    var i :| 0 <= i < |samples| && samples[i] == lo;
    var range := if hi > lo + 1 then hi - lo else 1;
    RangeBelowTwentyWidths(range);
    AlignedFits(lo, hi, AutoWidth(range));
  }

  lemma {:induction false} AlignedBuckets(start: nat, end: nat, width: nat, n: nat)
    requires width > 0 && end == start + n * width
    ensures |Empty(start, end, width)| == n
    decreases n
  {
    if n > 0 {
      assert n * width == (n - 1) * width + width;
      AlignedBuckets(start + width, end, width, n - 1);
    }
  }

  lemma {:induction false} NoneBeyond(samples: seq<nat>, lo: nat, hi: nat)
    requires AllWithin(samples, lo, hi)
    ensures CountIn(samples, lo, hi) == |samples| && CountFrom(samples, hi) == 0
  {
    if samples != [] {
      NoneBeyond(samples[..|samples| - 1], lo, hi);
    }
  }

  lemma LastEdge(start: nat, end: nat, width: nat, n: nat)
    requires width > 0 && n >= 1 && end == start + n * width
    ensures |Empty(start, end, width)| == n && Empty(start, end, width)[n - 1].upper == end
  {
    AlignedBuckets(start, end, width, n);
    EmptyLower(start, end, width, n - 1);
    assert n * width == (n - 1) * width + width;
  }

  /** A faithful histogram: contiguous buckets of one width, each with the number of samples inside it, the first
      and the last not empty, no sample outside. */
  predicate Describes(h: Histogram, samples: seq<nat>, width: nat) {
    && h.totalCount == |samples|
    && h.buckets != [] && Contiguous(h.buckets, width)
    && (forall i :: 0 <= i < |h.buckets| ==>
          h.buckets[i].count == CountIn(samples, h.buckets[i].lower, h.buckets[i].upper))
    && h.buckets[0].count > 0 && h.buckets[|h.buckets| - 1].count > 0
    && AllWithin(samples, h.buckets[0].lower, h.buckets[|h.buckets| - 1].upper)
    && Sum(h.buckets) == |samples|
  }

  /** Trimming cuts a slice whose ends are not empty. */
  lemma {:induction false} TrimmedFront(b: seq<Bucket>)
    ensures var k := |b| - |TrimFront(b)|; 0 <= k <= |b| && TrimFront(b) == b[k..]
    ensures TrimFront(b) != [] ==> TrimFront(b)[0].count > 0
  {
    if b != [] && b[0].count == 0 {
      TrimmedFront(b[1..]);
    }
  }

  lemma {:induction false} TrimmedBack(b: seq<Bucket>)
    ensures var k := |TrimBack(b)|; k <= |b| && TrimBack(b) == b[..k]
    ensures TrimBack(b) != [] ==> TrimBack(b)[|TrimBack(b)| - 1].count > 0
  {
    if b != [] && b[|b| - 1].count == 0 {
      TrimmedBack(b[..|b| - 1]);
    }
  }

  predicate CountsInside(b: seq<Bucket>, samples: seq<nat>) {
    forall i :: 0 <= i < |b| ==> b[i].count == CountIn(samples, b[i].lower, b[i].upper)
  }

  lemma {:induction false} SumIsRange(b: seq<Bucket>, samples: seq<nat>, width: nat)
    requires b != [] && Contiguous(b, width) && CountsInside(b, samples)
    ensures b[0].lower <= b[|b| - 1].upper
    ensures Sum(b) == CountIn(samples, b[0].lower, b[|b| - 1].upper)
  {
    if |b| == 1 {
      assert b[1..] == [];
    } else {
      SumIsRange(b[1..], samples, width);
      assert b[1].lower == b[0].upper;
      CountSplit(samples, b[0].lower, b[0].upper, b[|b| - 1].upper);
    }
  }

  lemma {:induction false} CountInAtMost(samples: seq<nat>, lo: nat, hi: nat)
    ensures CountIn(samples, lo, hi) <= |samples|
    ensures CountIn(samples, lo, hi) == |samples| ==> AllWithin(samples, lo, hi)
  {
    if samples != [] { CountInAtMost(samples[..|samples| - 1], lo, hi); }
  }

  lemma SliceKeeps(t: seq<Bucket>, lo: nat, hi: nat, samples: seq<nat>, width: nat)
    requires lo <= hi <= |t| && Contiguous(t, width) && CountsInside(t, samples)
    ensures Contiguous(t[lo..hi], width) && CountsInside(t[lo..hi], samples)
  {
    var b := t[lo..hi];
    forall i | 0 <= i < |b| - 1 ensures b[i + 1].lower == b[i].upper {
      assert b[i] == t[lo + i] && b[i + 1] == t[lo + i + 1];
    }
  }

  /** Trimming keeps the sum and cuts a slice with ends that are not empty. */
  lemma TrimmedIs(t: seq<Bucket>)
    ensures var b := TrimBack(TrimFront(t));
            && Sum(b) == Sum(t) && |b| <= |t|
            && (b != [] ==> b[0].count > 0 && b[|b| - 1].count > 0)
            && exists lo, hi :: 0 <= lo <= hi <= |t| && b == t[lo..hi]
  {
    var front := TrimFront(t);
    var b := TrimBack(front);
    SumTrimFront(t);
    SumTrimBack(front);
    TrimmedFront(t);
    TrimmedBack(front);
    var k := |t| - |front|;
    assert b == t[k..k + |b|];
    assert b != [] ==> b[0] == front[0];
  }

  lemma TrimmedDescribes(t: seq<Bucket>, samples: seq<nat>, width: nat)
    requires samples != [] && Contiguous(t, width) && CountsInside(t, samples) && Sum(t) == |samples|
    ensures Describes(Histogram(TrimBack(TrimFront(t)), |samples|), samples, width)
    ensures |TrimBack(TrimFront(t))| <= |t|
  {
    TrimmedIs(t);
    var b := TrimBack(TrimFront(t));
    var lo, hi :| 0 <= lo <= hi <= |t| && b == t[lo..hi];
    SliceKeeps(t, lo, hi, samples, width);
    assert b != [];
    SumIsRange(b, samples, width);
    CountInAtMost(samples, b[0].lower, b[|b| - 1].upper);
  }

  lemma AlignedTally(samples: seq<nat>, start: nat, end: nat, width: nat, n: nat)
    requires width > 0 && n >= 1 && end == start + n * width && AllWithin(samples, start, end)
    requires start < end
    ensures var t := Tally(Empty(start, end, width), samples, end);
            |t| == n && Contiguous(t, width) && CountsInside(t, samples) && Sum(t) == |samples|
  {
    LastEdge(start, end, width, n);
    EmptyAre(start, end, width);
    SumTally(start, end, width, samples);
    NoneBeyond(samples, start, end);
  }

  /** Automatic histograms are faithful and have at most 21 buckets. */
  lemma AutomaticDescribes(samples: seq<nat>)
    requires samples != []
    ensures var l := AutoLayout(samples);
            var h := WithBuckets(samples, l.start, l.end, l.width);
            h.Some? && Describes(h.value, samples, l.width) && |h.value.buckets| <= 21
  {
    var l := AutoLayout(samples);
    LayoutFits(samples);
    var n: nat :| 1 <= n <= 21 && l.end == l.start + n * l.width;
    assert l.start <= samples[0] < l.end;
    AlignedTally(samples, l.start, l.end, l.width, n);
    TrimmedDescribes(Tally(Empty(l.start, l.end, l.width), samples, l.end), samples, l.width);
  }

  method FromDurations(samples: seq<nat>) returns (r: Option<Histogram>)
    ensures r.None? <==> samples == []
    ensures r.Some? ==> Describes(r.value, samples, AutoLayout(samples).width) && |r.value.buckets| <= 21
    ensures r.Some? ==> var l := AutoLayout(samples); r == WithBuckets(samples, l.start, l.end, l.width)
  {
    if samples == [] {
      return None;
    }
    var l := AutoLayout(samples);
    r := FromDurationsWithBuckets(samples, l.start, l.end, l.width);
    AutomaticDescribes(samples);
  }
}
