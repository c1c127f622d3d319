/** The histogram buckets: the table built by `bm_stat_init`, the search in `bm_stat_add_op`, and the
    reconstruction in `create_histogram_plot`. The factor 1.1 is the real number 11/10. */
module Buckets {
  import opened Arithmetic

  const BUCKETS: nat := 60

  datatype Bucket = Bucket(lo: nat, hi: nat)

  /** The bucket after b starts where b ends and is a tenth wider, rounded down. */
  function Next(b: Bucket): (r: Bucket)
    requires b.lo <= b.hi
    ensures r.lo <= r.hi
  {
    Bucket(b.hi + 1, b.hi + 11 * (b.hi - b.lo + 1) / 10)
  }

  /** The table in integer arithmetic. */
  function BucketAt(i: nat): (b: Bucket)
    ensures b.lo <= b.hi
  {
    if i == 0 then Bucket(0, 99) else Next(BucketAt(i - 1))
  }

  function Width(i: nat): int { BucketAt(i).hi - BucketAt(i).lo + 1 }

  /** Buckets are contiguous and strictly growing, with widths following w -> floor(1.1 w) from 100. */
  lemma {:induction false} BucketsGrow(i: nat)
    ensures BucketAt(i + 1).lo == BucketAt(i).hi + 1
    ensures Width(i) >= 100 && Width(0) == 100
    ensures Width(i + 1) == 11 * Width(i) / 10 > Width(i)
  {
    if i > 0 { BucketsGrow(i - 1); }
  }

  lemma {:induction false} BoundsGrow(i: nat, j: nat)
    requires i < j
    ensures BucketAt(i).hi < BucketAt(j).lo
  {
    BucketsGrow(j - 1);
    if i < j - 1 { BoundsGrow(i, j - 1); }
  }

  lemma FloorTenths(w: nat)
    ensures (w as real * 1.1).Floor == 11 * w / 10
  {
    var q := 11 * w / 10;
    assert w as real * 1.1 * 10.0 == (11 * w) as real;
    assert 10 * q <= 11 * w < 10 * q + 10;
    assert (10 * q) as real <= (11 * w) as real < (10 * q + 10) as real;
  }

  lemma FloorSum(n: int, x: real)
    ensures (n as real + x).Floor == n + x.Floor
  {
  }

  /** The update of min and max in `bm_stat_init`: the sum is taken first and then truncated. */
  method NextInC(min: nat, max: nat) returns (min': nat, max': nat)
    requires min <= max
    ensures Bucket(min', max') == Next(Bucket(min, max))
  {
    FloorSum(max, (max - min + 1) as real * 1.1);
    FloorTenths(max - min + 1);
    var oldMax := max;
    max' := (max as real + (max - min + 1) as real * 1.1).Floor;
    min' := oldMax + 1;
  }

  /** The update in `create_histogram_plot`: the growth is truncated and then added. */
  method NextInPython(bucketMin: nat, bucketMax: nat) returns (max': nat, min': nat)
    requires bucketMin <= bucketMax
    ensures Bucket(min', max') == Next(Bucket(bucketMin, bucketMax))
  {
    FloorTenths(bucketMax - bucketMin + 1);
    max', min' := bucketMax + ((bucketMax - bucketMin + 1) as real * 1.1).Floor, bucketMax + 1;
  }

  // ----- The C side -----

  /** The stored upper bounds. */
  ghost predicate Stores(ranges: seq<nat>) {
    forall k :: 0 <= k < |ranges| ==> ranges[k] == BucketAt(k).hi
  }

  /** The loop of `bm_stat_init` that stores the upper bounds, for any number of buckets. */
  method InitRanges(ranges: array<nat>)
    modifies ranges
    ensures Stores(ranges[..])
  {
    var min: nat, max: nat := 0, 99;
    for i := 0 to ranges.Length
      invariant Bucket(min, max) == BucketAt(i)
      invariant Stores(ranges[..i])
    {
      ranges[i] := max;
      assert ranges[..i + 1] == ranges[..i] + [max];
      min, max := NextInC(min, max);
    }
    assert ranges[..] == ranges[..ranges.Length];
  }

  /** Where the search of `bm_stat_add_op` ends among n buckets. */
  function IndexFor(d: nat, n: nat): (j: nat)
    requires n > 0
    ensures j < n
  {
    Search(d, n, 0)
  }

  predicate Reaches(j: nat, d: nat) { d <= BucketAt(j).hi }

  function Search(d: nat, n: nat, from: nat): (j: nat)
    requires from < n
    ensures from <= j < n
    decreases n - from, d
  {
    if Reaches(from, d) || from + 1 == n then from else Search(d, n, from + 1)
  }

  lemma {:induction false} SearchIsFirst(d: nat, n: nat, from: nat)
    requires from < n
    ensures var j := Search(d, n, from);
            && (Reaches(j, d) || j == n - 1)
            && (from < j ==> !Reaches(j - 1, d))
    decreases n - from
  {
    if !Reaches(from, d) && from + 1 < n {
      var j := Search(d, n, from + 1);
      assert Search(d, n, from) == j;
      SearchIsFirst(d, n, from + 1);
      if j == from + 1 { assert !Reaches(j - 1, d); }
    }
  }

  /** The search of `bm_stat_add_op` over the stored upper bounds. */
  method FindBucket(ranges: array<nat>, d: nat) returns (idx: nat)
    requires ranges.Length > 0 && Stores(ranges[..])
    ensures idx == IndexFor(d, ranges.Length)
  {
    idx := 0;
    while idx < ranges.Length
      invariant idx <= ranges.Length
      invariant idx < ranges.Length ==> IndexFor(d, ranges.Length) == Search(d, ranges.Length, idx)
      invariant idx == ranges.Length ==> IndexFor(d, ranges.Length) == ranges.Length - 1
    {
      assert ranges[..][idx] == BucketAt(idx).hi;
      if d <= ranges[idx] {
        break;
      }
      idx := idx + 1;
    }
    if idx == ranges.Length {
      idx := idx - 1;
    }
  }

  /** A sample lands in the one bucket that contains it; the last bucket also takes what is above the table. */
  lemma UniqueBucket(d: nat, n: nat, k: nat)
    requires n > 0 && k < n
    ensures k == IndexFor(d, n) <==> BucketAt(k).lo <= d && (d <= BucketAt(k).hi || k == n - 1)
  {
    var j := IndexFor(d, n);
    SearchIsFirst(d, n, 0);
    if j > 0 { BucketsGrow(j - 1); }
    if k < j { BoundsGrow(k, j); }
    if j < k { BoundsGrow(j, k); }
  }

  // ----- The Python side -----

  function Average(b: Bucket): real { (b.hi + b.lo) as real / 2.0 }

  lemma AverageInside(b: Bucket)
    requires b.lo <= b.hi
    ensures b.lo as real <= Average(b) <= b.hi as real
    ensures Average(b) - b.lo as real == b.hi as real - Average(b)
  {
    assert (b.hi + b.lo) as real == b.hi as real + b.lo as real;
  }

  /** The middle of the bucket that entry i of the list belongs to. */
  function ColumnAverage(i: nat): real {
    if i < BUCKETS then Average(BucketAt(i)) else ColumnAverage(i - BUCKETS)
  }

  lemma {:induction false} ColumnOf(turns: nat, i: nat)
    requires i < BUCKETS
    ensures ColumnAverage(turns * BUCKETS + i) == Average(BucketAt(i))
  {
    if turns > 0 { ColumnOf(turns - 1, i); }
  }

  /** The global list `bucket_avg`, to which every histogram plot appends all its buckets again. */
  class Averages {
    var bucketAvg: seq<real>

    ghost predicate Valid()
      reads this
    {
      forall i :: 0 <= i < |bucketAvg| ==> bucketAvg[i] == ColumnAverage(i)
    }

    constructor ()
      ensures Valid() && bucketAvg == []
    {
      bucketAvg := [];
    }

    /** The loop of `create_histogram_plot`. */
    method AppendBuckets(cols: nat, ghost turns: nat)
      requires Valid() && |bucketAvg| == turns * BUCKETS && cols <= BUCKETS
      modifies this
      ensures Valid() && |bucketAvg| == turns * BUCKETS + cols
    {
      var bucketMin: nat, bucketMax: nat := 0, 99;
      for i := 1 to cols + 1
        invariant Bucket(bucketMin, bucketMax) == BucketAt(i - 1)
        invariant Valid() && |bucketAvg| == turns * BUCKETS + i - 1
      {
        bucketMax, bucketMin := AppendColumn(bucketMin, bucketMax, turns, i - 1);
      }
    }

    /** Each call of `create_histogram_plot` appends all columns. */
    method CreateHistogramPlot()
      requires Valid() && |bucketAvg| % BUCKETS == 0
      modifies this
      ensures Valid() && |bucketAvg| % BUCKETS == 0 && |bucketAvg| == |old(bucketAvg)| + 60
    {
      DivMod(|bucketAvg|, BUCKETS);
      ModPlus(|bucketAvg|, BUCKETS);
      AppendBuckets(BUCKETS, |bucketAvg| / BUCKETS);
    }

    /** The loop body: one more entry, and the next bounds. */
    method AppendColumn(bucketMin: nat, bucketMax: nat, ghost turns: nat, ghost i: nat) returns (max': nat, min': nat)
      requires Valid() && i < BUCKETS && |bucketAvg| == turns * BUCKETS + i && Bucket(bucketMin, bucketMax) == BucketAt(i)
      modifies this
      ensures Valid() && |bucketAvg| == turns * BUCKETS + i + 1 && Bucket(min', max') == BucketAt(i + 1)
    {
      ColumnOf(turns, i);
      bucketAvg := bucketAvg + [(bucketMax + bucketMin) as real / 2.0];
      max', min' := NextInPython(bucketMin, bucketMax);
    }

    /** `gen_row` reads entry i of the list for histogram column i: the middle of bucket i of the C side,
        however many plots were drawn before. */
    method RowLatency(i: nat) returns (latency: real)
      requires Valid() && i < BUCKETS <= |bucketAvg|
      ensures BucketAt(i).lo as real <= latency <= BucketAt(i).hi as real
      ensures latency - BucketAt(i).lo as real == BucketAt(i).hi as real - latency
    {
      ColumnOf(0, i);
      AverageInside(BucketAt(i));
      latency := bucketAvg[i];
    }
  }
}
