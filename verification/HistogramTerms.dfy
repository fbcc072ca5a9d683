/** The histogram in plain terms: the width is the nearest nice number, the bounds are multiples of it, and every
    bucket is said with its bounds and its count (crates/breez-sdk/breez-bench/src/stats.rs). */
module HistogramTerms {
  import opened Prelude
  import opened Histogram

  /* ---------- the width ---------- */

  predicate IsNice(w: nat, k: nat) {
    w == PowerOfTen(k) || w == 2 * PowerOfTen(k) || w == 5 * PowerOfTen(k)
  }

  lemma {:induction false} PowersApart(j: nat, k: nat)
    requires j < k
    ensures 0 < 10 * PowerOfTen(j) <= PowerOfTen(k)
  {
    if j + 1 < k {
      PowersApart(j, k - 1);
    } else if j > 0 {
      PowersApart(j - 1, j);
    }
  }

  function Distance(a: nat, b: nat): nat { if a < b then b - a else a - b }

  /** The width is the nice number nearest to the raw width (to 1, if that is 0), the smaller of two equally near
      ones. */
  lemma NiceWidthIsNearest(raw: nat)
    requires raw > 0
    ensures NiceWidth(0) == 1
    ensures exists k: nat :: IsNice(NiceWidth(raw), k)
    ensures forall w: nat, k: nat :: IsNice(w, k) ==>
              || Distance(NiceWidth(raw), raw) < Distance(w, raw)
              || (Distance(NiceWidth(raw), raw) == Distance(w, raw) && NiceWidth(raw) <= w)
  {
    MagnitudeIsAPower(raw);
    var e: nat :| Magnitude(raw) == PowerOfTen(e);
    assert PowerOfTen(e + 1) == 10 * PowerOfTen(e);
    assert IsNice(NiceWidth(raw), e) || IsNice(NiceWidth(raw), e + 1);
    forall w: nat, k: nat | IsNice(w, k)
      ensures || Distance(NiceWidth(raw), raw) < Distance(w, raw)
              || (Distance(NiceWidth(raw), raw) == Distance(w, raw) && NiceWidth(raw) <= w)
    {
      if k < e {
        PowersApart(k, e);
      } else if e < k {
        PowersApart(e, k);
      }
    }
  }

  /* ---------- the automatic bounds ---------- */

  lemma ExtremesAre(samples: seq<nat>, lo: nat, hi: nat)
    requires lo in samples && hi in samples && forall s :: s in samples ==> lo <= s <= hi
    ensures MinOf(samples) == lo && MaxOf(samples) == hi
  {
    assert MinOf(samples) in samples && MaxOf(samples) in samples;
  }

  lemma AlignedIs(lo: nat, hi: nat, w: nat)
    requires w > 0
    ensures var l := Aligned(lo, hi, w);
            && l.width == w && (exists a: nat, b: nat :: l.start == a * w && l.end == b * w)
            && l.start <= lo < l.start + w && l.end - w <= hi < l.end
  {
    WidthQuotient(lo, w);
    WidthQuotient(hi, w);
    var a, b: nat := lo / w, hi / w + 1;
    assert b * w == hi / w * w + w;
    assert Aligned(lo, hi, w).start == a * w && Aligned(lo, hi, w).end == b * w;
  }

  lemma WidthFor(samples: seq<nat>, lo: nat, hi: nat) returns (w: nat)
    requires lo in samples && hi in samples && forall s :: s in samples ==> lo <= s <= hi
    ensures w > 0 && w == NiceWidth(if (hi - lo) / 10 >= 1 then (hi - lo) / 10 else 1)
    ensures AutoLayout(samples) == Aligned(lo, hi, w)
  {
    ExtremesAre(samples, lo, hi);
    var range := if hi > lo + 1 then hi - lo else 1;
    w := AutoWidth(range);
    assert (if range / 10 > 1 then range / 10 else 1) == (if (hi - lo) / 10 >= 1 then (hi - lo) / 10 else 1);
  }

  /** The bounds are the multiples of the width around the samples, and the width is the nice one for a tenth of their
      range, at least 1. */
  lemma AutoLayoutIs(samples: seq<nat>, lo: nat, hi: nat)
    requires lo in samples && hi in samples && forall s :: s in samples ==> lo <= s <= hi
    ensures var l := AutoLayout(samples);
            && l.width == NiceWidth(if (hi - lo) / 10 >= 1 then (hi - lo) / 10 else 1)
            && (exists a: nat, b: nat :: l.start == a * l.width && l.end == b * l.width)
            && l.start <= lo < l.start + l.width && l.end - l.width <= hi < l.end
  {
    var w := WidthFor(samples, lo, hi);
    AlignedIs(lo, hi, w);
  }

  /* ---------- explicit buckets ---------- */

  /** How many buckets the bounds give: the last one reaches `end` or past it. */
  predicate Buckets(start: nat, end: nat, width: nat, n: nat) {
    if start >= end then n == 0 else n >= 1 && start + (n - 1) * width < end <= start + n * width
  }

  /** The count of bucket i of n: the samples inside it, and in the last one again those at or beyond `end`. */
  function CountAt(samples: seq<nat>, start: nat, end: nat, width: nat, n: nat, i: nat): nat {
    CountIn(samples, start + i * width, start + i * width + width) + if i == n - 1 then CountFrom(samples, end) else 0
  }

  lemma FullTally(samples: seq<nat>, start: nat, end: nat, width: nat)
    requires width > 0
    ensures var t := Tally(Empty(start, end, width), samples, end);
            && Buckets(start, end, width, |t|)
            && forall i :: 0 <= i < |t| ==>
                 t[i] == Bucket(start + i * width, start + i * width + width,
                                CountAt(samples, start, end, width, |t|, i))
  {
    var b := Empty(start, end, width);
    EmptyAre(start, end, width);
    forall i: nat | i < |b| ensures b[i].lower == start + i * width && b[i].upper == start + i * width + width {
      EmptyLower(start, end, width, i);
    }
    if b != [] {
      var n := |b|;
      assert n * width == (n - 1) * width + width;
    }
  }

  /** Trimming drops empty buckets only, at both ends. */
  lemma {:induction false} TrimmedAre(t: seq<Bucket>) returns (lo: nat, hi: nat)
    ensures lo <= hi <= |t| && TrimBack(TrimFront(t)) == t[lo..hi]
    ensures forall i :: 0 <= i < |t| && !(lo <= i < hi) ==> t[i].count == 0
    ensures lo < hi ==> t[lo].count > 0 && t[hi - 1].count > 0
  {
    if t != [] && t[0].count == 0 {
      lo, hi := TrimmedAre(t[1..]);
      assert t[1..][lo..hi] == t[lo + 1..hi + 1];
      forall i | 0 <= i < |t| && !(lo + 1 <= i < hi + 1) ensures t[i].count == 0 {
        if i > 0 {
          assert t[1..][i - 1] == t[i];
        }
      }
      lo, hi := lo + 1, hi + 1;
    } else {
      lo := 0;
      hi := TrimmedBackAre(t);
    }
  }

  lemma {:induction false} TrimmedBackAre(t: seq<Bucket>) returns (hi: nat)
    ensures hi <= |t| && TrimBack(t) == t[..hi]
    ensures forall i :: hi <= i < |t| ==> t[i].count == 0
    ensures hi > 0 ==> t[hi - 1].count > 0
  {
    if t != [] && t[|t| - 1].count == 0 {
      hi := TrimmedBackAre(t[..|t| - 1]);
    } else {
      hi := |t|;
    }
  }

  /** Buckets lo to hi of the n, with their bounds and counts. */
  ghost predicate Shows(b: seq<Bucket>, samples: seq<nat>, start: nat, end: nat, width: nat, n: nat, lo: nat, hi: nat) {
    && lo <= hi <= n && |b| == hi - lo
    && (forall i :: 0 <= i < |b| ==>
          b[i] == Bucket(start + (lo + i) * width, start + (lo + i) * width + width,
                         CountAt(samples, start, end, width, n, lo + i)))
    && (forall i: nat :: i < n && !(lo <= i < hi) ==> CountAt(samples, start, end, width, n, i) == 0)
    && (b != [] ==> b[0].count > 0 && b[|b| - 1].count > 0)
  }

  /** The whole histogram for explicit bounds: nothing without samples or width; else all samples in the total, and
      the buckets between the first and the last with a count, each with its bounds and its count. */
  lemma WithBucketsExactly(samples: seq<nat>, start: nat, end: nat, width: nat)
    ensures var h := WithBuckets(samples, start, end, width);
            && (h.None? <==> samples == [] || width == 0)
            && (h.Some? ==>
                  && h.value.totalCount == |samples|
                  && exists n: nat, lo: nat, hi: nat ::
                       && Buckets(start, end, width, n)
                       && Shows(h.value.buckets, samples, start, end, width, n, lo, hi))
  {
    if samples != [] && width > 0 {
      var t := Tally(Empty(start, end, width), samples, end);
      FullTally(samples, start, end, width);
      var lo, hi := TrimmedAre(t);
      assert Shows(t[lo..hi], samples, start, end, width, |t|, lo, hi) by {
        forall i: nat | i < |t| && !(lo <= i < hi) ensures CountAt(samples, start, end, width, |t|, i) == 0 {
          assert t[i].count == 0;
        }
      }
    }
  }
}
