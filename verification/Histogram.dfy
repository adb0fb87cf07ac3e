/**
 Latency histograms with power-of-two buckets, and what a percentile read from the buckets
 says about the latencies themselves.
 */
module Histogram {
  import opened Bits
  import opened Modular

  const NBUCKETS: nat := 27

  // ----- the base-2 logarithm ----------------------------------------------------------------

  /** The position of the highest set bit; 0 for 0. */
  function Log2(v: nat): (r: nat)
  {
    if v < 2 then 0 else 1 + Log2(v / 2)
  }

  lemma {:induction false} Log2Brackets(v: nat)
    requires 1 <= v
    ensures Pow2(Log2(v)) <= v < Pow2(Log2(v) + 1)
  {
    if v < 2 {
    } else {
      Log2Brackets(v / 2);
    }
  }

  lemma {:induction false} Log2Monotone(v: nat, w: nat)
    requires v <= w
    ensures Log2(v) <= Log2(w)
  {
    if v < 2 {
    } else {
      Log2Monotone(v / 2, w / 2);
    }
  }

  /** The shifting loop of the nginx probe. */
  method ShiftingLog2(value: u64) returns (r: nat)
    ensures value == 0 ==> r == 0
    ensures 0 < value ==> Pow2(r) <= value < Pow2(r + 1)
    ensures r == Log2(value) && r < 64
  {
    var v: u64 := value;
    r := 0;
    while v > 1
      invariant 0 < value ==> 0 < v
      invariant r + Log2(v) == Log2(value)
    {
      v := v / 2;
      r := r + 1;
    }
    WordLog2(value);
    if 0 < value {
      Log2Brackets(value);
    }
  }

  lemma WordLog2(v: u64)
    ensures Log2(v) < 64
  {
    Pow2Constants();
    if 1 <= v && 64 <= Log2(v) {
      Log2Brackets(v);
      Pow2Monotone(64, Log2(v));
      assert false;
    }
  }

  // ----- buckets ------------------------------------------------------------------------------

  /** `63 - leading_zeros`, the last bucket taking everything longer. */
  function Bucket(us: nat): (i: nat)
    ensures i < NBUCKETS
  {
    var l := Log2(if us < 1 then 1 else us);
    if l < NBUCKETS - 1 then l else NBUCKETS - 1
  }

  lemma BucketMonotone(x: nat, y: nat)
    requires x <= y
    ensures Bucket(x) <= Bucket(y)
  {
    Log2Monotone(if x < 1 then 1 else x, if y < 1 then 1 else y);
  }

  /** How many of the delays fall in bucket i. */
  function CountIn(delays: seq<nat>, i: nat): nat
  {
    if delays == [] then 0
    else
      var n := |delays| - 1;
      CountIn(delays[..n], i) + if Bucket(delays[n]) == i then 1 else 0
  }

  function Buckets(delays: seq<nat>): (b: seq<nat>)
    ensures |b| == NBUCKETS
  {
    seq(NBUCKETS, i requires 0 <= i => CountIn(delays, i))
  }

  function Sum(b: seq<nat>): nat
  {
    if b == [] then 0 else Sum(b[..|b| - 1]) + b[|b| - 1]
  }

  // ----- percentiles ------------------------------------------------------------------------

  /** The first bucket at which the running count reaches k. */
  function RankBucket(b: seq<nat>, k: nat): (i: nat)
    requires 0 < k <= Sum(b)
    ensures i < |b| && Sum(b[..i]) < k <= Sum(b[..i + 1])
  {
    var n := |b| - 1;
    if k <= Sum(b[..n]) then
      var i := RankBucket(b[..n], k);
      assert b[..n][..i] == b[..i] && b[..n][..i + 1] == b[..i + 1];
      i
    else
      assert b[..n + 1] == b;
      n
  }

  /** The count a percentile must reach: total * num / den, rounded down. */
  function Target(b: seq<nat>, num: nat, den: nat): nat
    requires 0 < den
  {
    Sum(b) * num / den
  }

  /** The reported percentile: an upper bucket edge. */
  function Percentile(b: seq<nat>, num: nat, den: nat): nat
    requires 0 < den
  {
    var target := Target(b, num, den);
    if Sum(b) == 0 then 0
    else if target == 0 then 2
    else if Sum(b) < target then Pow2(|b|)
    else Pow2(RankBucket(b, target) + 1)
  }

  method PercentileUs(b: seq<nat>, num: nat, den: nat) returns (r: nat)
    requires |b| == NBUCKETS && 0 < den
    ensures r == Percentile(b, num, den)
  {
    var total := 0;
    for i := 0 to |b|
      invariant total == Sum(b[..i])
    {
      assert b[..i + 1][..i] == b[..i];
      total := total + b[i];
    }
    assert b[..|b|] == b;
    if total == 0 {
      return 0;
    }
    var target := total * num / den;
    var cum := 0;
    for i := 0 to |b|
      invariant cum == Sum(b[..i])
      invariant 0 < i ==> cum < target
    {
      assert b[..i + 1][..i] == b[..i];
      cum := cum + b[i];
      if cum >= target {
        SumGrows(b, i + 1, |b|);
        if 0 < target {
          OneRank(b, target, i);
        }
        return Pow2(i + 1);
      }
    }
    r := Pow2(NBUCKETS);
  }

  lemma {:induction false} SumGrows(b: seq<nat>, i: nat, j: nat)
    requires i <= j <= |b|
    ensures Sum(b[..i]) <= Sum(b[..j])
  {
    if j <= i {
    } else {
      assert b[..j][..j - 1] == b[..j - 1];
      SumGrows(b, i, j - 1);
    }
  }

  lemma OneRank(b: seq<nat>, k: nat, i: nat)
    requires 0 < k <= Sum(b) && i < |b| && Sum(b[..i]) < k <= Sum(b[..i + 1])
    ensures RankBucket(b, k) == i
  {
    var j := RankBucket(b, k);
    if j < i {
      SumGrows(b, j + 1, i);
    } else if i < j {
      SumGrows(b, i + 1, j);
    }
  }

  // ----- the percentile against the delays themselves ---------------------------------------

  /** How many delays lie below x. */
  function CountLess(delays: seq<nat>, x: nat): (c: nat)
    ensures c <= |delays|
  {
    if delays == [] then 0
    else
      var n := |delays| - 1;
      CountLess(delays[..n], x) + if delays[n] < x then 1 else 0
  }

  /** x is the k-th smallest delay, counting from 1. */
  predicate IsKth(delays: seq<nat>, k: nat, x: nat)
  {
    CountLess(delays, x) < k <= CountLess(delays, x + 1)
  }

  /** How many delays fall in a bucket before i. */
  function CountBefore(delays: seq<nat>, i: nat): (c: nat)
    ensures c <= |delays|
  {
    if delays == [] then 0
    else
      var n := |delays| - 1;
      CountBefore(delays[..n], i) + if Bucket(delays[n]) < i then 1 else 0
  }

  lemma {:induction false} CountBeforeNext(delays: seq<nat>, i: nat)
    ensures CountBefore(delays, i + 1) == CountBefore(delays, i) + CountIn(delays, i)
    ensures CountBefore(delays, 0) == 0
    ensures NBUCKETS <= i ==> CountBefore(delays, i) == |delays|
  {
    hide Bucket;
    if delays == [] {
    } else {
      CountBeforeNext(delays[..|delays| - 1], i);
    }
  }

  lemma {:induction false} SumOfBuckets(delays: seq<nat>, i: nat)
    requires i <= NBUCKETS
    ensures Sum(Buckets(delays)[..i]) == CountBefore(delays, i)
  {
    hide CountIn, CountBefore;
    if i == 0 {
      CountBeforeNext(delays, 0);
    } else {
      SumOfBuckets(delays, i - 1);
      CountBeforeNext(delays, i - 1);
      var b := Buckets(delays);
      assert b[..i][..i - 1] == b[..i - 1];
    }
  }

  /** No delay is lost: the buckets add up to their number. */
  lemma BucketsCountAll(delays: seq<nat>)
    ensures Sum(Buckets(delays)) == |delays|
  {
    SumOfBuckets(delays, NBUCKETS);
    CountBeforeNext(delays, NBUCKETS);
    assert Buckets(delays)[..NBUCKETS] == Buckets(delays);
  }

  /** Delays up to x lie in buckets up to x's. */
  lemma {:induction false} UpToBucket(delays: seq<nat>, x: nat, i: nat)
    ensures Bucket(x) < i ==> CountLess(delays, x + 1) <= CountBefore(delays, i)
    ensures i <= Bucket(x) ==> CountBefore(delays, i) <= CountLess(delays, x)
  {
    if delays == [] {
    } else {
      var n := |delays| - 1;
      UpToBucket(delays[..n], x, i);
      if delays[n] <= x {
        BucketMonotone(delays[n], x);
      } else {
        BucketMonotone(x, delays[n]);
      }
      hide Bucket;
    }
  }

  /** The bucket that reaches rank k holds the k-th smallest delay. */
  lemma RankBucketHoldsKth(delays: seq<nat>, k: nat, x: nat)
    requires 0 < k <= |delays| && IsKth(delays, k, x)
    ensures Sum(Buckets(delays)) == |delays|
    ensures RankBucket(Buckets(delays), k) == Bucket(x)
  {
    BucketsCountAll(delays);
    var i := RankBucket(Buckets(delays), k);
    SumOfBuckets(delays, i);
    SumOfBuckets(delays, i + 1);
    UpToBucket(delays, x, i);
    UpToBucket(delays, x, i + 1);
    hide Bucket, Buckets, CountLess, CountBefore, Sum;
  }

  /** Some delay has each rank. */
  lemma KthExists(delays: seq<nat>, k: nat) returns (x: nat)
    requires 0 < k <= |delays|
    ensures IsKth(delays, k, x)
    ensures x in delays
  {
    var high := Bound(delays);
    x := Search(delays, k, high);
    LessOrEqual(delays, x);
  }

  lemma {:induction false} Bound(delays: seq<nat>) returns (high: nat)
    ensures CountLess(delays, high) == |delays| && CountLess(delays, 0) == 0
  {
    high := 0;
    if delays == [] {
    } else {
      var n := |delays| - 1;
      var h := Bound(delays[..n]);
      high := if h <= delays[n] then delays[n] + 1 else h;
      LessMonotone(delays[..n], h, high);
    }
  }

  lemma {:induction false} LessMonotone(delays: seq<nat>, x: nat, y: nat)
    requires x <= y
    ensures CountLess(delays, x) <= CountLess(delays, y)
  {
    if delays == [] {
    } else {
      LessMonotone(delays[..|delays| - 1], x, y);
    }
  }

  lemma {:induction false} Search(delays: seq<nat>, k: nat, high: nat) returns (x: nat)
    requires 0 < k <= CountLess(delays, high) && CountLess(delays, 0) == 0
    ensures IsKth(delays, k, x)
    decreases high
  {
    if k <= CountLess(delays, high - 1) {
      x := Search(delays, k, high - 1);
    } else {
      x := high - 1;
    }
  }

  lemma {:induction false} LessOrEqual(delays: seq<nat>, x: nat)
    ensures x !in delays ==> CountLess(delays, x) == CountLess(delays, x + 1)
  {
    if delays == [] {
    } else {
      var n := |delays| - 1;
      assert delays == delays[..n] + [delays[n]];
      LessOrEqual(delays[..n], x);
    }
  }

  lemma TargetWithin(b: seq<nat>, num: nat, den: nat)
    requires 0 < den && num <= den
    ensures Target(b, num, den) <= Sum(b)
  {
    var total := Sum(b);
    if total < total * num / den {
      var t := total * num / den;
      assert den * t <= total * num;
      LargerProduct(den, t, total, num);
      assert false;
    }
  }

  lemma LargerProduct(den: nat, t: nat, total: nat, num: nat)
    requires total < t && num <= den && 0 < den
    ensures total * num < den * t
  {
    assert total * num <= total * den by {
      assert total * den == total * num + total * (den - num);
    }
    assert den * t == den * total + den * (t - total);
  }

  /**
   Main result. A percentile p <= 1 whose rank is not zero reports less than or exactly
   twice the delay of that rank (at least 1 us), and more than it unless that delay
   overflows the last bucket.
   */
  lemma PercentileWithinFactorTwo(delays: seq<nat>, num: nat, den: nat, x: nat)
    requires 0 < den && num <= den
    requires 0 < |delays| * num / den && IsKth(delays, |delays| * num / den, x)
    ensures var r := Percentile(Buckets(delays), num, den);
            && r <= 2 * (if x < 1 then 1 else x)
            && (x < r <==> x < 0x800_0000)
  {
    var b, k := Buckets(delays), |delays| * num / den;
    BucketsCountAll(delays);
    TargetWithin(b, num, den);
    RankBucketHoldsKth(delays, k, x);
    BucketEdges(x);
    hide Bucket, Buckets, CountLess;
  }

  lemma BucketEdges(x: nat)
    ensures Pow2(Bucket(x) + 1) <= 2 * (if x < 1 then 1 else x)
    ensures x < Pow2(Bucket(x) + 1) <==> x < 0x800_0000
  {
    var us := if x < 1 then 1 else x;
    Log2Brackets(us);
    assert Pow2(27) == 0x800_0000 by {
      Pow2Constants();
      assert Pow2(31) == 16 * Pow2(27);
    }
    if Log2(us) < 26 {
      Pow2Monotone(Log2(us) + 1, 27);
    } else {
      Pow2Monotone(27, Log2(us) + 1);
      Pow2Monotone(26, Log2(us));
    }
  }

  /** No two delays share a rank. */
  lemma KthUnique(delays: seq<nat>, k: nat, x: nat, y: nat)
    requires IsKth(delays, k, x) && IsKth(delays, k, y)
    ensures x == y
  {
    if x < y {
      LessMonotone(delays, x + 1, y);
    } else if y < x {
      LessMonotone(delays, y + 1, x);
    }
  }

  /** So the report brackets one of the delays, the one of that rank. */
  lemma PercentileBracketsADelay(delays: seq<nat>, num: nat, den: nat) returns (x: nat)
    requires 0 < den && num <= den && 0 < |delays| * num / den
    ensures x in delays && IsKth(delays, |delays| * num / den, x)
    ensures forall y :: IsKth(delays, |delays| * num / den, y) ==> y == x
    ensures var r := Percentile(Buckets(delays), num, den);
            r <= 2 * (if x < 1 then 1 else x) && (x < r <==> x < 0x800_0000)
  {
    var k := |delays| * num / den;
    BucketsCountAll(delays);
    TargetWithin(Buckets(delays), num, den);
    x := KthExists(delays, k);
    hide Buckets, CountLess;
    PercentileWithinFactorTwo(delays, num, den, x);
    forall y: nat | IsKth(delays, k, y)
      ensures y == x
    {
      KthUnique(delays, k, x, y);
    }
  }

  /** With too few delays for the rank to reach one, the report is 2 whatever they were. */
  lemma TooFewDelays(delays: seq<nat>, num: nat, den: nat)
    requires 0 < den && 0 < |delays|
    ensures |delays| * num < den ==> Percentile(Buckets(delays), num, den) == 2
  {
    hide Buckets, Sum, RankBucket, Pow2;
    BucketsCountAll(delays);
    NoTarget(|delays| * num, den);
  }

  /** No delay at all reports 0; a rank past the last delay reports 2^27. */
  lemma PercentileExtremes(b: seq<nat>, num: nat, den: nat)
    requires |b| == NBUCKETS && 0 < den
    ensures Sum(b) == 0 ==> Percentile(b, num, den) == 0
    ensures 0 < Sum(b) < Sum(b) * num / den ==> Percentile(b, num, den) == 0x800_0000
  {
    hide Sum, RankBucket;
    assert Pow2(27) == 0x800_0000 by {
      Pow2Constants();
      assert Pow2(31) == 16 * Pow2(27);
    }
  }

  lemma NoTarget(a: nat, den: nat)
    requires 0 < den
    ensures a < den ==> a / den == 0
  {}

  /** A higher percentile never reports less: num / den <= num' / den'. */
  lemma PercentileMonotone(b: seq<nat>, num: nat, den: nat, num': nat, den': nat)
    requires |b| == NBUCKETS && 0 < den && 0 < den' && num * den' <= num' * den
    ensures Percentile(b, num, den) <= Percentile(b, num', den')
  {
    var t, t' := Target(b, num, den), Target(b, num', den');
    TargetMonotone(Sum(b), num, den, num', den');
    hide Sum, Target, Pow2;
    EdgeBounds(b, t);
    EdgeBounds(b, t');
    if 0 < t && t' <= Sum(b) {
      SumGrowsTo(b, RankBucket(b, t'), RankBucket(b, t), t, t');
      Pow2Monotone(RankBucket(b, t) + 1, RankBucket(b, t') + 1);
    }
  }

  lemma SumGrowsTo(b: seq<nat>, i': nat, i: nat, t: nat, t': nat)
    requires 0 < t <= t' <= Sum(b) && i == RankBucket(b, t) && i' == RankBucket(b, t')
    ensures i <= i'
  {
    if i' < i {
      SumGrows(b, i' + 1, i);
    }
  }

  lemma EdgeBounds(b: seq<nat>, k: nat)
    ensures 0 < k <= Sum(b) ==> 2 <= Pow2(RankBucket(b, k) + 1) <= Pow2(|b|)
    ensures 0 < |b| ==> 2 <= Pow2(|b|)
  {
    assert Pow2(1) == 2;
    if 0 < k <= Sum(b) {
      Pow2Monotone(RankBucket(b, k) + 1, |b|);
    }
  }

  lemma TargetMonotone(total: nat, num: nat, den: nat, num': nat, den': nat)
    requires 0 < den && 0 < den' && num * den' <= num' * den
    ensures total * num / den <= total * num' / den'
  {
    Scale(num * den', num' * den, total);
    Rearrange(total, num, den');
    Rearrange(total, num', den);
    FloorMonotone(total * num, den, total * num', den');
  }

  lemma FloorMonotone(a: nat, den: nat, a': nat, den': nat)
    requires 0 < den && 0 < den' && den' * a <= den * a'
    ensures a / den <= a' / den'
  {
    var t := a / den;
    Scale(den * t, a, den');
    Rearrange(den', den, t);
    Rearrange(den, den', t);
    Cancel(den, den' * t, a');
    FloorAtLeast(a', den', t);
  }

  lemma Rearrange(a: nat, b: nat, c: nat)
    ensures a * (b * c) == c * (a * b) == b * (a * c)
  {}

  lemma Cancel(m: nat, a: nat, b: nat)
    requires 0 < m && m * a <= m * b
    ensures a <= b
  {
    if b < a {
      Scale(b + 1, a, m);
    }
  }

  lemma FloorAtLeast(a: nat, m: nat, t: nat)
    requires 0 < m && m * t <= a
    ensures t <= a / m
  {
    var q, r := a / m, a % m;
    assert m * t < m * (q + 1);
    if q + 1 <= t {
      Scale(q + 1, t, m);
    }
  }
}
