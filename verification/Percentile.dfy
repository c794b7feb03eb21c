/** Interpolated percentiles of a cumulative histogram
    (NostrRelayApp/NostrRelayApp/Services/MetricsService.swift). */
module Percentile {

  datatype Bound = Finite(le: real) | Infinite

  datatype Bucket = Bucket(bound: Bound, count: real)

  /** From a lower bound and count on: bounds ascend, counts accumulate. */
  predicate Cumulative(buckets: seq<Bucket>, lowerBound: real, lowerCount: real) {
    buckets == [] ||
    var b := buckets[0];
    && (b.bound.Finite? ==> lowerBound <= b.bound.le)
    && lowerCount <= b.count
    && Cumulative(buckets[1..], NextBound(b, lowerBound), b.count)
  }

  /** Sorted, cumulative and non-negative. */
  predicate IsHistogram(buckets: seq<Bucket>) {
    Cumulative(buckets, 0.0, 0.0)
  }

  function NextBound(b: Bucket, lowerBound: real): real {
    if b.bound.Finite? then b.bound.le else lowerBound
  }

  /** Linear interpolation inside one bucket. */
  function Interpolate(rank: real, b: Bucket, lowerBound: real, lowerCount: real): real
    requires b.bound.Finite? && b.count > lowerCount
  {
    lowerBound + (b.bound.le - lowerBound) * ((rank - lowerCount) / (b.count - lowerCount))
  }

  /** The value for a rank, looking from one bucket on. */
  function ValueFrom(rank: real, buckets: seq<Bucket>, lowerBound: real, lowerCount: real): real {
    if buckets == [] then lowerBound
    else
      var b := buckets[0];
      if b.count >= rank then
        if b.bound.Infinite? then lowerBound
        else if b.count - lowerCount <= 0.0 then b.bound.le
        else Interpolate(rank, b, lowerBound, lowerCount)
      else ValueFrom(rank, buckets[1..], NextBound(b, lowerBound), b.count)
  }

  /** The value at a fraction of the samples; zero without samples or buckets. */
  function ValueAt(q: real, buckets: seq<Bucket>, total: real): real {
    if total > 0.0 && buckets != [] then ValueFrom(q * total, buckets, 0.0, 0.0) else 0.0
  }

  /** `percentile`. */
  method Compute(q: real, buckets: seq<Bucket>, total: real) returns (r: real)
    ensures r == ValueAt(q, buckets, total)
  {
    if !(total > 0.0) || buckets == [] {
      return 0.0;
    }
    var rank := q * total;
    var lowerBound, lowerCount := 0.0, 0.0;
    for i := 0 to |buckets|
      invariant ValueFrom(rank, buckets, 0.0, 0.0) == ValueFrom(rank, buckets[i..], lowerBound, lowerCount)
    {
      var b := buckets[i];
      assert buckets[i..][0] == b && buckets[i..][1..] == buckets[i + 1..];
      if b.count >= rank {
        if b.bound.Infinite? {
          return lowerBound;
        }
        var bucketCount := b.count - lowerCount;
        if !(bucketCount > 0.0) {
          return b.bound.le;
        }
        var fraction := (rank - lowerCount) / bucketCount;
        return lowerBound + (b.bound.le - lowerBound) * fraction;
      }
      lowerBound := if b.bound.Finite? then b.bound.le else lowerBound;
      lowerCount := b.count;
    }
    r := lowerBound;
  }

  // ----- where the value lies -----

  /** Index of the bucket that holds the rank, or the number of buckets. */
  function Holding(rank: real, buckets: seq<Bucket>): (i: nat)
    ensures i <= |buckets| && (i < |buckets| ==> buckets[i].count >= rank)
    ensures forall j :: 0 <= j < i ==> buckets[j].count < rank
  {
    if buckets == [] || buckets[0].count >= rank then 0 else 1 + Holding(rank, buckets[1..])
  }

  /** The lower end of bucket i: the last finite bound before it. */
  function LowerEnd(buckets: seq<Bucket>, i: nat, lowerBound: real): real
    requires i <= |buckets|
  {
    if i == 0 then lowerBound else LowerEnd(buckets[1..], i - 1, NextBound(buckets[0], lowerBound))
  }

  /** The cumulative count before bucket i. */
  function LowerCount(buckets: seq<Bucket>, i: nat, lowerCount: real): real
    requires i <= |buckets|
  {
    if i == 0 then lowerCount else buckets[i - 1].count
  }

  /** The value divides the bucket as the rank divides its samples. */
  predicate Proportional(v: real, lower: real, upper: real, rank: real, before: real, count: real) {
    (v - lower) * (count - before) == (upper - lower) * (rank - before)
  }

  lemma {:induction false} ValueIsProportional(rank: real, buckets: seq<Bucket>, lowerBound: real, lowerCount: real)
    requires Holding(rank, buckets) < |buckets|
    ensures
      var i := Holding(rank, buckets);
      var v := ValueFrom(rank, buckets, lowerBound, lowerCount);
      var before, lower := LowerCount(buckets, i, lowerCount), LowerEnd(buckets, i, lowerBound);
      buckets[i].bound.Finite? && before < buckets[i].count ==>
        Proportional(v, lower, buckets[i].bound.le, rank, before, buckets[i].count)
  {
    var b := buckets[0];
    if b.count >= rank {
      if b.bound.Finite? && lowerCount < b.count {
        InterpolateProportional(rank, b, lowerBound, lowerCount);
      }
    } else {
      ValueIsProportional(rank, buckets[1..], NextBound(b, lowerBound), b.count);
      var i := Holding(rank, buckets[1..]);
      assert Holding(rank, buckets) == i + 1;
      assert buckets[i + 1] == buckets[1..][i];
    }
  }

  lemma InterpolateProportional(rank: real, b: Bucket, lowerBound: real, lowerCount: real)
    requires b.bound.Finite? && lowerCount < b.count
    ensures Proportional(Interpolate(rank, b, lowerBound, lowerCount), lowerBound, b.bound.le, rank, lowerCount, b.count)
  {
    ScaleBack(b.bound.le - lowerBound, rank - lowerCount, b.count - lowerCount);
  }

  lemma ScaleBack(w: real, x: real, y: real)
    requires y > 0.0
    ensures w * (x / y) * y == w * x
  {
    assert (x / y) * y == x;
  }

  lemma FractionBounds(x: real, y: real)
    requires 0.0 <= x <= y && y > 0.0
    ensures 0.0 <= x / y <= 1.0
  {
  }

  lemma ScaledBounds(width: real, fraction: real)
    requires 0.0 <= width && 0.0 <= fraction <= 1.0
    ensures 0.0 <= width * fraction <= width
  {
  }

  lemma InterpolateWithin(rank: real, b: Bucket, lowerBound: real, lowerCount: real)
    requires b.bound.Finite? && lowerBound <= b.bound.le && lowerCount <= rank <= b.count && lowerCount < b.count
    ensures lowerBound <= Interpolate(rank, b, lowerBound, lowerCount) <= b.bound.le
  {
    FractionBounds(rank - lowerCount, b.count - lowerCount);
    ScaledBounds(b.bound.le - lowerBound, (rank - lowerCount) / (b.count - lowerCount));
  }

  lemma InterpolateMonotone(r1: real, r2: real, b: Bucket, lowerBound: real, lowerCount: real)
    requires b.bound.Finite? && lowerBound <= b.bound.le && lowerCount < b.count && r1 <= r2
    ensures Interpolate(r1, b, lowerBound, lowerCount) <= Interpolate(r2, b, lowerBound, lowerCount)
  {
    var width, size := b.bound.le - lowerBound, b.count - lowerCount;
    var f1, f2 := (r1 - lowerCount) / size, (r2 - lowerCount) / size;
    assert f2 - f1 == (r2 - r1) / size;
    assert f1 <= f2;
    ProductMonotone(width, f1, f2);
  }

  lemma ProductMonotone(w: real, x: real, y: real)
    requires w >= 0.0 && x <= y
    ensures w * x <= w * y
  {
  }

  /** For a rank not below what came before, the value lies between the ends of the bucket that holds
      the rank, and is the lower end where there is no finite upper end. */
  lemma {:induction false} ValueLiesInItsBucket(rank: real, buckets: seq<Bucket>, lowerBound: real, lowerCount: real)
    requires Cumulative(buckets, lowerBound, lowerCount) && lowerCount <= rank
    ensures
      var i := Holding(rank, buckets);
      var v := ValueFrom(rank, buckets, lowerBound, lowerCount);
      && lowerBound <= LowerEnd(buckets, i, lowerBound) <= v
      && (i < |buckets| && buckets[i].bound.Finite? ==> v <= buckets[i].bound.le)
      && (i == |buckets| || buckets[i].bound.Infinite? ==> v == LowerEnd(buckets, i, lowerBound))
  {
    if buckets == [] {
    } else {
      var b := buckets[0];
      if b.count >= rank {
        if b.bound.Finite? && b.count > lowerCount {
          InterpolateWithin(rank, b, lowerBound, lowerCount);
        }
      } else {
        ValueLiesInItsBucket(rank, buckets[1..], NextBound(b, lowerBound), b.count);
        var i := Holding(rank, buckets[1..]);
        assert Holding(rank, buckets) == i + 1;
        assert i < |buckets[1..]| ==> buckets[i + 1] == buckets[1..][i];
      }
    }
  }

  lemma {:induction false} ValueIsMonotone(r1: real, r2: real, buckets: seq<Bucket>, lowerBound: real, lowerCount: real)
    requires Cumulative(buckets, lowerBound, lowerCount) && r1 <= r2 && lowerCount <= r1
    ensures ValueFrom(r1, buckets, lowerBound, lowerCount) <= ValueFrom(r2, buckets, lowerBound, lowerCount)
  {
    if buckets == [] {
    } else {
      var b := buckets[0];
      if b.count >= r2 {
        if b.bound.Finite? && b.count > lowerCount {
          InterpolateMonotone(r1, r2, b, lowerBound, lowerCount);
        }
      } else if b.count >= r1 {
        ValueLiesInItsBucket(r2, buckets[1..], NextBound(b, lowerBound), b.count);
        if b.bound.Finite? && b.count > lowerCount {
          InterpolateWithin(r1, b, lowerBound, lowerCount);
        }
      } else {
        ValueIsMonotone(r1, r2, buckets[1..], NextBound(b, lowerBound), b.count);
      }
    }
  }

  /** The value at a fraction lies in the first bucket that counts that fraction of the samples, and divides
      it in proportion; it is zero exactly where there is nothing to look at. */
  lemma ValueAtMeans(q: real, total: real, buckets: seq<Bucket>)
    requires IsHistogram(buckets) && 0.0 <= q
    ensures total <= 0.0 || buckets == [] ==> ValueAt(q, buckets, total) == 0.0
    ensures total > 0.0 && buckets != [] ==>
              var i, v := Holding(q * total, buckets), ValueAt(q, buckets, total);
              var lower := LowerEnd(buckets, i, 0.0);
              && lower <= v
              && (i == |buckets| || buckets[i].bound.Infinite? ==> v == lower)
              && (i < |buckets| && buckets[i].bound.Finite? ==>
                    v <= buckets[i].bound.le &&
                    (LowerCount(buckets, i, 0.0) < buckets[i].count ==>
                       Proportional(v, lower, buckets[i].bound.le, q * total, LowerCount(buckets, i, 0.0), buckets[i].count)))
  {
    if total > 0.0 && buckets != [] {
      ProductMonotone(total, 0.0, q);
      ValueLiesInItsBucket(q * total, buckets, 0.0, 0.0);
      if Holding(q * total, buckets) < |buckets| {
        ValueIsProportional(q * total, buckets, 0.0, 0.0);
      }
    }
  }

  /** A higher percentile never has a smaller value, and none is negative. */
  lemma PercentilesAreOrdered(p: real, q: real, total: real, buckets: seq<Bucket>)
    requires IsHistogram(buckets) && 0.0 <= p <= q
    ensures 0.0 <= ValueAt(p, buckets, total) <= ValueAt(q, buckets, total)
  {
    if total > 0.0 && buckets != [] {
      ProductMonotone(total, p, q);
      ProductMonotone(total, 0.0, p);
      ValueIsMonotone(p * total, q * total, buckets, 0.0, 0.0);
      ValueLiesInItsBucket(p * total, buckets, 0.0, 0.0);
    }
  }

  /** `latency`: the three percentiles of a metric, zero while it has no samples. */
  method Latency(count: real, buckets: seq<Bucket>) returns (p50: real, p95: real, p99: real)
    ensures p50 == ValueAt(0.50, buckets, count) && p95 == ValueAt(0.95, buckets, count)
    ensures p99 == ValueAt(0.99, buckets, count)
    ensures IsHistogram(buckets) ==> 0.0 <= p50 <= p95 <= p99
  {
    p50, p95, p99 := 0.0, 0.0, 0.0;
    if !(count > 0.0) {
      return;
    }
    p50 := Compute(0.50, buckets, count);
    p95 := Compute(0.95, buckets, count);
    p99 := Compute(0.99, buckets, count);
    if IsHistogram(buckets) {
      PercentilesAreOrdered(0.50, 0.95, count, buckets);
      PercentilesAreOrdered(0.95, 0.99, count, buckets);
    }
  }
}
