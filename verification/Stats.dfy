/** The statistics engine of `bm_stats.h`: per-thread, per-operation cells updated in place, and the
    merge over threads and operations that prints the totals. All counters are 64-bit and wrap.

    The reference is a set of direct definitions over the whole sample trace, in whatever order the
    threads produced it. */
module Stats {
  import opened Arithmetic
  import opened Bits
  import opened Buckets

  datatype Sample = Sample(tid: nat, op: nat, count: nat, succ: nat, duration: nat, skipped: bool)

  datatype OpStat = OpStat(succCount: nat, count: nat, skipped: nat, sum: nat, min: nat, max: nat, histogram: seq<nat>)

  // ----- Direct statistics over a trace -----

  /** Which samples a statistic is about. */
  datatype Scope =
    | Cell(tid: nat, op: nat)       // one thread, one operation
    | Below(threads: nat, op: nat)  // one operation, the threads below a bound
    | Operation(op: nat)            // one operation, all threads
    | Ops(ops: nat)                 // the operations below a bound, all threads
    | Everything

  predicate In(scope: Scope, x: Sample) {
    match scope
    case Cell(tid, op) => x.tid == tid && x.op == op
    case Below(threads, op) => x.tid < threads && x.op == op
    case Operation(op) => x.op == op
    case Ops(ops) => x.op < ops
    case Everything => true
  }

  datatype Quantity = Succ | Calls | Skipped | Time | Hits(bucket: nat)

  /** What one sample adds to a quantity. */
  function Amount(q: Quantity, x: Sample): nat {
    if x.skipped then if q == Skipped then 1 else 0
    else
      match q
      case Succ => x.succ
      case Calls => x.count
      case Skipped => 0
      case Time => x.duration
      case Hits(j) => if IndexFor(x.duration, BUCKETS) == j then 1 else 0
  }

  function Total(q: Quantity, scope: Scope, trace: seq<Sample>): nat {
    if trace == [] then 0
    else
      var x := trace[|trace| - 1];
      Total(q, scope, trace[..|trace| - 1]) + if In(scope, x) then Amount(q, x) else 0
  }

  function Max(a: nat, b: nat): nat { if a > b then a else b }

  function Min(a: nat, b: nat): nat { if a < b then a else b }

  predicate Measured(scope: Scope, x: Sample) { In(scope, x) && !x.skipped }

  function Longest(scope: Scope, trace: seq<Sample>): nat {
    if trace == [] then 0
    else
      var x := trace[|trace| - 1];
      var rest := Longest(scope, trace[..|trace| - 1]);
      if Measured(scope, x) then Max(rest, x.duration) else rest
  }

  function Shortest(scope: Scope, trace: seq<Sample>): nat {
    if trace == [] then U64_MAX
    else
      var x := trace[|trace| - 1];
      var rest := Shortest(scope, trace[..|trace| - 1]);
      if Measured(scope, x) then Min(rest, x.duration) else rest
  }

  /** The longest and shortest durations are reached by a sample, unless there is none. */
  lemma {:induction false} ExtremesAreReached(scope: Scope, trace: seq<Sample>)
    requires forall x :: x in trace ==> x.duration <= U64_MAX
    ensures forall x :: x in trace && Measured(scope, x) ==>
              Shortest(scope, trace) <= x.duration <= Longest(scope, trace)
    ensures if exists x :: x in trace && Measured(scope, x) then
              && (exists x :: x in trace && Measured(scope, x) && x.duration == Longest(scope, trace))
              && (exists x :: x in trace && Measured(scope, x) && x.duration == Shortest(scope, trace))
            else Longest(scope, trace) == 0 && Shortest(scope, trace) == U64_MAX
  {
    if trace != [] {
      var front, last := trace[..|trace| - 1], trace[|trace| - 1];
      assert trace == front + [last];
      ExtremesAreReached(scope, front);
      if Measured(scope, last) { assert last in trace; }
    }
  }

  /** A total as a 64-bit counter holds it. */
  function Counter(q: Quantity, scope: Scope, trace: seq<Sample>): nat { Wrap64(Total(q, scope, trace)) }

  function Histogram(scope: Scope, trace: seq<Sample>): (h: seq<nat>)
    ensures |h| == BUCKETS
  {
    seq(BUCKETS, j requires 0 <= j < BUCKETS => Counter(Hits(j), scope, trace))
  }

  /** The cell that counts exactly the samples of a scope. */
  function Direct(scope: Scope, trace: seq<Sample>): OpStat {
    OpStat(Counter(Succ, scope, trace), Counter(Calls, scope, trace), Counter(Skipped, scope, trace),
           Counter(Time, scope, trace), Shortest(scope, trace), Longest(scope, trace), Histogram(scope, trace))
  }

  const ZERO: OpStat := OpStat(0, 0, 0, 0, U64_MAX, 0, seq(BUCKETS, _ => 0))

  lemma {:induction false} WrapLeft(a: nat, b: nat)
    ensures Wrap64(Wrap64(a) + b) == Wrap64(a + b)
  {
    if a > U64_MAX { WrapLeft(a - TWO64, b); }
  }

  lemma WrapAdd(a: nat, b: nat)
    ensures Wrap64(Wrap64(a) + b) == Wrap64(a + b) == Wrap64(Wrap64(a) + Wrap64(b))
  {
    WrapLeft(a, b);
    WrapLeft(b, Wrap64(a));
  }

  /** The merge of two cells, as the loop over threads does it. */
  function Merge(a: OpStat, b: OpStat): OpStat
    requires |a.histogram| == |b.histogram|
  {
    OpStat(Wrap64(a.succCount + b.succCount), Wrap64(a.count + b.count), Wrap64(a.skipped + b.skipped),
           Wrap64(a.sum + b.sum), Min(a.min, b.min), Max(a.max, b.max), AddEach(a.histogram, b.histogram))
  }

  function AddEach(a: seq<nat>, b: seq<nat>): (c: seq<nat>)
    requires |a| == |b|
    ensures |c| == |a| && forall j :: 0 <= j < |a| ==> c[j] == Wrap64(a[j] + b[j])
  {
    seq(|a|, j requires 0 <= j < |a| => Wrap64(a[j] + b[j]))
  }

  /** u holds exactly the samples of the disjoint scopes a and b. */
  ghost predicate Splits(a: Scope, b: Scope, u: Scope, trace: seq<Sample>) {
    forall x :: x in trace ==> (In(u, x) <==> In(a, x) || In(b, x)) && !(In(a, x) && In(b, x))
  }

  /** Merging the cells of two disjoint scopes gives the cell of their union. */
  lemma MergeIsUnion(a: Scope, b: Scope, u: Scope, trace: seq<Sample>)
    requires Splits(a, b, u, trace)
    ensures Merge(Direct(a, trace), Direct(b, trace)) == Direct(u, trace)
  {
    CounterOfUnion(Succ, a, b, u, trace);
    CounterOfUnion(Calls, a, b, u, trace);
    CounterOfUnion(Skipped, a, b, u, trace);
    CounterOfUnion(Time, a, b, u, trace);
    LongestOfUnion(a, b, u, trace);
    ShortestOfUnion(a, b, u, trace);
    HistogramOfUnion(a, b, u, trace);
  }

  lemma HistogramOfUnion(a: Scope, b: Scope, u: Scope, trace: seq<Sample>)
    requires Splits(a, b, u, trace)
    ensures AddEach(Histogram(a, trace), Histogram(b, trace)) == Histogram(u, trace)
  {
    var merged := AddEach(Histogram(a, trace), Histogram(b, trace));
    forall j | 0 <= j < BUCKETS ensures merged[j] == Histogram(u, trace)[j] {
      CounterOfUnion(Hits(j), a, b, u, trace);
    }
  }

  lemma CounterOfUnion(q: Quantity, a: Scope, b: Scope, u: Scope, trace: seq<Sample>)
    requires Splits(a, b, u, trace)
    ensures Wrap64(Counter(q, a, trace) + Counter(q, b, trace)) == Counter(q, u, trace)
  {
    TotalOfUnion(q, a, b, u, trace);
    WrapAdd(Total(q, a, trace), Total(q, b, trace));
  }

  lemma {:induction false} TotalOfUnion(q: Quantity, a: Scope, b: Scope, u: Scope, trace: seq<Sample>)
    requires Splits(a, b, u, trace)
    ensures Total(q, u, trace) == Total(q, a, trace) + Total(q, b, trace)
  {
    if trace != [] {
      assert trace[|trace| - 1] in trace;
      TotalOfUnion(q, a, b, u, trace[..|trace| - 1]);
    }
  }

  lemma {:induction false} LongestOfUnion(a: Scope, b: Scope, u: Scope, trace: seq<Sample>)
    requires Splits(a, b, u, trace)
    ensures Longest(u, trace) == Max(Longest(a, trace), Longest(b, trace))
  {
    if trace != [] {
      assert trace[|trace| - 1] in trace;
      LongestOfUnion(a, b, u, trace[..|trace| - 1]);
    }
  }

  lemma {:induction false} ShortestOfUnion(a: Scope, b: Scope, u: Scope, trace: seq<Sample>)
    requires Splits(a, b, u, trace)
    ensures Shortest(u, trace) == Min(Shortest(a, trace), Shortest(b, trace))
  {
    if trace != [] {
      assert trace[|trace| - 1] in trace;
      ShortestOfUnion(a, b, u, trace[..|trace| - 1]);
    }
  }

  /** A scope without samples keeps the initial cell. */
  lemma EmptyScope(a: Scope, trace: seq<Sample>)
    requires forall x :: x in trace ==> !In(a, x)
    ensures Direct(a, trace) == ZERO
  {
    forall q ensures Total(q, a, trace) == 0 { NoTotal(q, a, trace); }
    NoExtremes(a, trace);
    assert Histogram(a, trace) == ZERO.histogram;
  }

  lemma {:induction false} NoTotal(q: Quantity, a: Scope, trace: seq<Sample>)
    requires forall x :: x in trace ==> !In(a, x)
    ensures Total(q, a, trace) == 0
  {
    if trace != [] { NoTotal(q, a, trace[..|trace| - 1]); }
  }

  lemma {:induction false} NoExtremes(a: Scope, trace: seq<Sample>)
    requires forall x :: x in trace ==> !In(a, x)
    ensures Longest(a, trace) == 0 && Shortest(a, trace) == U64_MAX
  {
    if trace != [] { NoExtremes(a, trace[..|trace| - 1]); }
  }

  /** Two scopes with the same samples have the same cell. */
  lemma SameScope(a: Scope, b: Scope, trace: seq<Sample>)
    requires forall x :: x in trace ==> (In(a, x) <==> In(b, x))
    ensures Direct(a, trace) == Direct(b, trace)
  {
    MergeIsUnion(a, Below(0, 0), a, trace);
    MergeIsUnion(a, Below(0, 0), b, trace);
  }

  // ----- One more sample -----

  lemma TotalAppend(q: Quantity, scope: Scope, trace: seq<Sample>, x: Sample)
    ensures Total(q, scope, trace + [x]) == Total(q, scope, trace) + if In(scope, x) then Amount(q, x) else 0
    ensures Counter(q, scope, trace + [x]) ==
            Wrap64(Counter(q, scope, trace) + if In(scope, x) then Amount(q, x) else 0)
    ensures Wrap64(Counter(q, scope, trace)) == Counter(q, scope, trace)
  {
    assert (trace + [x])[..|trace|] == trace;
    CounterAdd(Total(q, scope, trace), if In(scope, x) then Amount(q, x) else 0);
  }

  lemma CounterAdd(total: nat, amount: nat)
    ensures Wrap64(Wrap64(total) + amount) == Wrap64(total + amount)
    ensures Wrap64(Wrap64(total)) == Wrap64(total)
  {
    WrapLeft(total, amount);
    WrapLeft(total, 0);
  }

  lemma ExtremesAppend(scope: Scope, trace: seq<Sample>, x: Sample)
    ensures Longest(scope, trace + [x]) ==
            if Measured(scope, x) then Max(Longest(scope, trace), x.duration) else Longest(scope, trace)
    ensures Shortest(scope, trace + [x]) ==
            if Measured(scope, x) then Min(Shortest(scope, trace), x.duration) else Shortest(scope, trace)
  {
    assert (trace + [x])[..|trace|] == trace;
  }

  lemma HistogramAppend(scope: Scope, trace: seq<Sample>, x: Sample)
    ensures var h, idx := Histogram(scope, trace), IndexFor(x.duration, BUCKETS);
            Histogram(scope, trace + [x]) == if Measured(scope, x) then h[idx := Wrap64(h[idx] + 1)] else h
  {
    var h, idx := Histogram(scope, trace), IndexFor(x.duration, BUCKETS);
    var expected := if Measured(scope, x) then h[idx := Wrap64(h[idx] + 1)] else h;
    forall j | 0 <= j < BUCKETS ensures Histogram(scope, trace + [x])[j] == expected[j] {
      TotalAppend(Hits(j), scope, trace, x);
    }
  }

  /** A cell after one more sample of its own. */
  function Recorded(d: OpStat, x: Sample): OpStat
    requires |d.histogram| == BUCKETS
  {
    if x.skipped then d.(skipped := Wrap64(d.skipped + 1))
    else
      var idx := IndexFor(x.duration, BUCKETS);
      OpStat(Wrap64(d.succCount + x.succ), Wrap64(d.count + x.count), d.skipped, Wrap64(d.sum + x.duration),
             Min(d.min, x.duration), Max(d.max, x.duration), d.histogram[idx := Wrap64(d.histogram[idx] + 1)])
  }

  /** The cell of a scope after one more sample x. */
  lemma DirectAppend(scope: Scope, trace: seq<Sample>, x: Sample)
    ensures Direct(scope, trace + [x]) == if In(scope, x) then Recorded(Direct(scope, trace), x) else Direct(scope, trace)
  {
    HistogramAppend(scope, trace, x);
    CountersAppend(scope, trace, x);
    ExtremesAppend(scope, trace, x);
  }

  lemma CountersAppend(scope: Scope, trace: seq<Sample>, x: Sample)
    ensures var d, e := Direct(scope, trace), Direct(scope, trace + [x]);
            var r := if In(scope, x) then Recorded(d, x) else d;
            e.succCount == r.succCount && e.count == r.count && e.skipped == r.skipped && e.sum == r.sum
  {
    CallsAppend(scope, trace, x);
    TotalAppend(Skipped, scope, trace, x);
    TotalAppend(Time, scope, trace, x);
  }

  lemma CallsAppend(scope: Scope, trace: seq<Sample>, x: Sample)
    ensures var d, e := Direct(scope, trace), Direct(scope, trace + [x]);
            var r := if In(scope, x) then Recorded(d, x) else d;
            e.succCount == r.succCount && e.count == r.count
  {
    TotalAppend(Succ, scope, trace, x);
    TotalAppend(Calls, scope, trace, x);
  }

  // ----- The object -----

  /** The statistics over all operations; they have no histogram. */
  datatype Universal = Universal(succCount: nat, count: nat, skipped: nat, sum: nat, min: nat, max: nat)

  function WithoutHistogram(d: OpStat): Universal {
    Universal(d.succCount, d.count, d.skipped, d.sum, d.min, d.max)
  }

  datatype Report = Report(ops: seq<OpStat>, univ: Universal)

  /** A printed operation shows 0 as its minimum when no minimum was found. */
  function Printed(d: OpStat): OpStat { d.(min := if d.min == U64_MAX then 0 else d.min) }

  /** The innermost loop of the merge. */
  method MergeHistogram(into: seq<nat>, from: seq<nat>) returns (merged: seq<nat>)
    requires |into| == |from|
    ensures merged == AddEach(into, from)
  {
    merged := into;
    for j := 0 to |into|
      invariant |merged| == |into|
      invariant forall k :: 0 <= k < |into| ==> merged[k] == if k < j then Wrap64(into[k] + from[k]) else into[k]
    {
      merged := merged[j := Wrap64(merged[j] + from[j])];
    }
  }

  /** The totals over the operations below a bound, with the next one added. */
  lemma OneMoreOperation(op: nat, trace: seq<Sample>)
    ensures WithoutHistogram(Direct(Ops(op + 1), trace)) ==
            Add(WithoutHistogram(Direct(Ops(op), trace)), Direct(Operation(op), trace))
  {
    MergeIsUnion(Ops(op), Operation(op), Ops(op + 1), trace);
  }

  function Add(u: Universal, d: OpStat): Universal {
    Universal(Wrap64(u.succCount + d.succCount), Wrap64(u.count + d.count), Wrap64(u.skipped + d.skipped),
              Wrap64(u.sum + d.sum), Min(u.min, d.min), Max(u.max, d.max))
  }

  class BmStat {
    const threads: nat
    const ops: nat
    const cells: array2<OpStat>
    const ranges: array<nat>
    ghost var trace: seq<Sample>

    /** Every cell holds the direct statistics of its own samples. */
    ghost predicate Valid()
      reads this, cells, ranges
    {
      && cells.Length0 == threads && cells.Length1 == ops && ranges.Length == BUCKETS
      && Stores(ranges[..])
      && (forall x :: x in trace ==> x.tid < threads && x.op < ops && x.duration <= U64_MAX)
      && (forall t, o :: 0 <= t < threads && 0 <= o < ops ==> cells[t, o] == Direct(Cell(t, o), trace))
    }

    /** `bm_stat_init`. */
    constructor (threads: nat, ops: nat)
      ensures Valid() && fresh(cells) && fresh(ranges)
      ensures this.threads == threads && this.ops == ops && trace == []
    {
      this.threads, this.ops := threads, ops;
      cells := new OpStat[threads, ops]((t, o) => ZERO);
      ranges := new nat[BUCKETS];
      trace := [];
      new;
      InitRanges(ranges);
      forall t, o | 0 <= t < threads && 0 <= o < ops ensures Direct(Cell(t, o), []) == ZERO {
        EmptyScope(Cell(t, o), []);
      }
    }

    /** `bm_stat_add_op`. Only the cell of this thread and operation is written. */
    method AddOp(tid: nat, op: nat, count: nat, succ: nat, duration: nat, skipped: bool)
      requires Valid() && tid < threads && op < ops && duration <= U64_MAX
      modifies this`trace, cells
      ensures Valid()
      ensures trace == old(trace) + [Sample(tid, op, count, succ, duration, skipped)]
    {
      var cell := cells[tid, op];
      ghost var x := Sample(tid, op, count, succ, duration, skipped);
      if skipped {
        cell := cell.(skipped := Wrap64(cell.skipped + 1));
      } else {
        cell := cell.(succCount := Wrap64(cell.succCount + succ));
        cell := cell.(sum := Wrap64(cell.sum + duration));
        cell := cell.(count := Wrap64(cell.count + count));
        cell := cell.(max := Max(cell.max, duration));
        cell := cell.(min := Min(cell.min, duration));
        var idx := FindBucket(ranges, duration);
        cell := cell.(histogram := cell.histogram[idx := Wrap64(cell.histogram[idx] + 1)]);
      }
      forall t, o | 0 <= t < threads && 0 <= o < ops
        ensures Direct(Cell(t, o), trace + [x]) == if t == tid && o == op then cell else Direct(Cell(t, o), trace)
      {
        DirectAppend(Cell(t, o), trace, x);
      }
      cells[tid, op] := cell;
      trace := trace + [x];
    }

    /** The loop of `bm_print_stats` that merges the cells over threads. */
    method MergeThreads() returns (per: array<OpStat>)
      requires Valid()
      ensures fresh(per) && per.Length == ops
      ensures forall o :: 0 <= o < ops ==> per[o] == Direct(Operation(o), trace)
    {
      per := new OpStat[ops](_ => ZERO);
      forall o | 0 <= o < ops ensures Direct(Below(0, o), trace) == ZERO {
        EmptyScope(Below(0, o), trace);
      }
      for i := 0 to threads
        invariant forall o :: 0 <= o < ops ==> per[o] == Direct(Below(i, o), trace)
      {
        for op := 0 to ops
          invariant forall o :: 0 <= o < ops ==> per[o] == Direct(Below(if o < op then i + 1 else i, o), trace)
        {
          MergeIsUnion(Below(i, op), Cell(i, op), Below(i + 1, op), trace);
          per[op] := MergeCell(per[op], cells[i, op]);
        }
      }
      forall o | 0 <= o < ops ensures Direct(Below(threads, o), trace) == Direct(Operation(o), trace) {
        SameScope(Below(threads, o), Operation(o), trace);
      }
    }

    /** `bm_print_stats`: after the merge, the totals over all operations, and the minimum as it is printed. */
    method Collect() returns (report: Report)
      requires Valid()
      ensures |report.ops| == ops
      ensures forall o :: 0 <= o < ops ==> report.ops[o] == Printed(Direct(Operation(o), trace))
      ensures report.univ == WithoutHistogram(Direct(Everything, trace))
    {
      var per := MergeThreads();
      var univ := Universal(0, 0, 0, 0, U64_MAX, 0);
      EmptyScope(Ops(0), trace);
      for op := 0 to ops
        invariant forall o :: 0 <= o < ops ==>
                    per[o] == if o < op then Printed(Direct(Operation(o), trace)) else Direct(Operation(o), trace)
        invariant univ == WithoutHistogram(Direct(Ops(op), trace))
      {
        OneMoreOperation(op, trace);
        univ := AddUniversal(univ, per[op]);
        per[op] := per[op].(min := if per[op].min == U64_MAX then 0 else per[op].min);
      }
      SameScope(Ops(ops), Everything, trace);
      report := Report(per[..], univ);
    }

    static method AddUniversal(u: Universal, d: OpStat) returns (r: Universal)
      ensures r == Add(u, d)
    {
      r := u.(max := Max(u.max, d.max));
      r := r.(min := Min(r.min, d.min));
      r := r.(sum := Wrap64(r.sum + d.sum));
      r := r.(count := Wrap64(r.count + d.count));
      r := r.(succCount := Wrap64(r.succCount + d.succCount));
      r := r.(skipped := Wrap64(r.skipped + d.skipped));
    }

    static method MergeCell(a: OpStat, b: OpStat) returns (m: OpStat)
      requires |a.histogram| == |b.histogram|
      ensures m == Merge(a, b)
    {
      m := a;
      m := m.(max := Max(m.max, b.max));
      m := m.(min := Min(m.min, b.min));
      m := m.(sum := Wrap64(m.sum + b.sum));
      m := m.(count := Wrap64(m.count + b.count));
      m := m.(succCount := Wrap64(m.succCount + b.succCount));
      m := m.(skipped := Wrap64(m.skipped + b.skipped));
      var h := MergeHistogram(m.histogram, b.histogram);
      m := m.(histogram := h);
    }
  }

  // ----- What the numbers mean -----

  /** Success counts never exceed operation counts, at any level, if they do not in any sample. */
  lemma SuccessesAreCalls(scope: Scope, trace: seq<Sample>)
    requires forall x :: x in trace ==> x.succ <= x.count
    requires Total(Calls, scope, trace) <= U64_MAX
    ensures Direct(scope, trace).succCount <= Direct(scope, trace).count
  {
    SuccessTotals(scope, trace);
  }

  lemma {:induction false} SuccessTotals(scope: Scope, trace: seq<Sample>)
    requires forall x :: x in trace ==> x.succ <= x.count
    ensures Total(Succ, scope, trace) <= Total(Calls, scope, trace)
  {
    if trace != [] {
      assert trace[|trace| - 1] in trace;
      SuccessTotals(scope, trace[..|trace| - 1]);
    }
  }

  /** The hits of the first n buckets, bucket j counted weights[j] times. */
  function Weighted(weights: seq<nat>, scope: Scope, trace: seq<Sample>, n: nat): int
    requires n <= |weights|
  {
    if n == 0 then 0
    else Weighted(weights, scope, trace, n - 1) + Times(Total(Hits(n - 1), scope, trace), weights[n - 1])
  }

  lemma {:induction false} WeightedAppend(weights: seq<nat>, scope: Scope, trace: seq<Sample>, x: Sample, idx: nat, n: nat)
    requires n <= |weights| && idx == IndexFor(x.duration, BUCKETS) < |weights|
    ensures Weighted(weights, scope, trace + [x], n) ==
            Weighted(weights, scope, trace, n) + if Measured(scope, x) && idx < n then weights[idx] else 0
  {
    if n > 0 {
      WeightedAppend(weights, scope, trace, x, idx, n - 1);
      HitsAppend(scope, trace, x, n - 1);
      OneMoreTimes(Total(Hits(n - 1), scope, trace), weights[n - 1]);
    }
  }

  lemma HitsAppend(scope: Scope, trace: seq<Sample>, x: Sample, j: nat)
    ensures Total(Hits(j), scope, trace + [x]) == Total(Hits(j), scope, trace) +
              if Measured(scope, x) && IndexFor(x.duration, BUCKETS) == j then 1 else 0
  {
    TotalAppend(Hits(j), scope, trace, x);
  }

  lemma OneMoreTimes(a: nat, b: nat)
    ensures Times(a + 1, b) == Times(a, b) + b
  {
  }

  lemma {:induction false} WeightedEmpty(weights: seq<nat>, scope: Scope, n: nat)
    requires n <= |weights|
    ensures Weighted(weights, scope, [], n) == 0
  {
    if n > 0 { WeightedEmpty(weights, scope, n - 1); }
  }

  function MeasuredCount(scope: Scope, trace: seq<Sample>): nat {
    if trace == [] then 0
    else MeasuredCount(scope, trace[..|trace| - 1]) + if Measured(scope, trace[|trace| - 1]) then 1 else 0
  }

  lemma WeightedLast(weights: seq<nat>, scope: Scope, trace: seq<Sample>)
    requires |weights| == BUCKETS && trace != []
    ensures var x := trace[|trace| - 1];
            Weighted(weights, scope, trace, |weights|) ==
            Weighted(weights, scope, trace[..|trace| - 1], |weights|) +
            if Measured(scope, x) then weights[IndexFor(x.duration, BUCKETS)] else 0
  {
    var front, x := trace[..|trace| - 1], trace[|trace| - 1];
    assert trace == front + [x];
    WeightedAppend(weights, scope, front, x, IndexFor(x.duration, BUCKETS), |weights|);
  }

  /** The hits of all buckets are the measured samples. */
  lemma {:induction false} HitsCountSamples(ones: seq<nat>, scope: Scope, trace: seq<Sample>)
    requires |ones| == BUCKETS && forall j :: 0 <= j < |ones| ==> ones[j] == 1
    ensures Weighted(ones, scope, trace, |ones|) == MeasuredCount(scope, trace)
  {
    if trace == [] {
      WeightedEmpty(ones, scope, |ones|);
    } else {
      HitsCountSamples(ones, scope, trace[..|trace| - 1]);
      WeightedLast(ones, scope, trace);
    }
  }

  /** The sum of the durations is at least the histogram weighted by the lower bucket bounds. */
  lemma {:induction false} TotalAtLeastLowers(lowers: seq<nat>, scope: Scope, trace: seq<Sample>)
    requires |lowers| == BUCKETS && forall j :: 0 <= j < |lowers| ==> lowers[j] == BucketAt(j).lo
    ensures Weighted(lowers, scope, trace, |lowers|) <= Total(Time, scope, trace)
  {
    if trace == [] {
      WeightedEmpty(lowers, scope, |lowers|);
    } else {
      TotalAtLeastLowers(lowers, scope, trace[..|trace| - 1]);
      WeightedLast(lowers, scope, trace);
      var d := trace[|trace| - 1].duration;
      UniqueBucket(d, BUCKETS, IndexFor(d, BUCKETS));
    }
  }

  /** It is at most the histogram weighted by the upper bounds when no sample lies above the last one. */
  lemma {:induction false} TotalAtMostUppers(uppers: seq<nat>, scope: Scope, trace: seq<Sample>)
    requires |uppers| == BUCKETS && Stores(uppers) && Longest(scope, trace) <= uppers[|uppers| - 1]
    ensures Total(Time, scope, trace) <= Weighted(uppers, scope, trace, |uppers|)
  {
    if trace == [] {
      WeightedEmpty(uppers, scope, |uppers|);
    } else {
      var x := trace[|trace| - 1];
      TotalAtMostUppers(uppers, scope, trace[..|trace| - 1]);
      WeightedLast(uppers, scope, trace);
      if Measured(scope, x) { BelowUpper(uppers, x.duration); }
    }
  }

  lemma BelowUpper(uppers: seq<nat>, d: nat)
    requires |uppers| == BUCKETS && Stores(uppers) && d <= uppers[|uppers| - 1]
    ensures d <= uppers[IndexFor(d, BUCKETS)]
  {
    UniqueBucket(d, BUCKETS, IndexFor(d, BUCKETS));
  }

  /** With fewer than 2^64 samples the stored histogram entries are the exact hits. */
  lemma {:induction false} HistogramIsExact(scope: Scope, trace: seq<Sample>, j: nat)
    requires j < BUCKETS && |trace| <= U64_MAX
    ensures Direct(scope, trace).histogram[j] == Total(Hits(j), scope, trace) <= |trace|
  {
    HitsUpToLength(scope, trace, j);
  }

  lemma {:induction false} HitsUpToLength(scope: Scope, trace: seq<Sample>, j: nat)
    ensures Total(Hits(j), scope, trace) <= |trace|
  {
    if trace != [] { HitsUpToLength(scope, trace[..|trace| - 1], j); }
  }

  /** The first n entries of a stored histogram, entry j counted weights[j] times. */
  function Dot(weights: seq<nat>, histogram: seq<nat>, n: nat): int
    requires n <= |weights| && n <= |histogram|
  {
    if n == 0 then 0 else Dot(weights, histogram, n - 1) + Times(histogram[n - 1], weights[n - 1])
  }

  lemma {:induction false} DotIsWeighted(weights: seq<nat>, scope: Scope, trace: seq<Sample>, n: nat)
    requires n <= |weights| && n <= BUCKETS && |trace| <= U64_MAX
    ensures Dot(weights, Direct(scope, trace).histogram, n) == Weighted(weights, scope, trace, n)
  {
    if n > 0 {
      DotIsWeighted(weights, scope, trace, n - 1);
      HistogramIsExact(scope, trace, n - 1);
    }
  }

  /** So the stored histogram holds every measured sample exactly once. */
  lemma HistogramCountsSamples(ones: seq<nat>, scope: Scope, trace: seq<Sample>)
    requires |ones| == BUCKETS && (forall j :: 0 <= j < |ones| ==> ones[j] == 1) && |trace| <= U64_MAX
    ensures Dot(ones, Direct(scope, trace).histogram, |ones|) == MeasuredCount(scope, trace)
  {
    DotIsWeighted(ones, scope, trace, |ones|);
    HitsCountSamples(ones, scope, trace);
  }

  /** While nothing wraps, the stored histogram weighted by lower bounds is at most the stored sum. */
  lemma SumAtLeastLowers(lowers: seq<nat>, scope: Scope, trace: seq<Sample>)
    requires |lowers| == BUCKETS && forall j :: 0 <= j < |lowers| ==> lowers[j] == BucketAt(j).lo
    requires |trace| <= U64_MAX && Total(Time, scope, trace) <= U64_MAX
    ensures var d := Direct(scope, trace);
            d.sum == Total(Time, scope, trace) && Dot(lowers, d.histogram, |lowers|) <= d.sum
  {
    DotIsWeighted(lowers, scope, trace, |lowers|);
    TotalAtLeastLowers(lowers, scope, trace);
  }

  /** And the stored sum is at most the histogram weighted by upper bounds when the maximum is within the table. */
  lemma SumAtMostUppers(uppers: seq<nat>, scope: Scope, trace: seq<Sample>)
    requires |uppers| == BUCKETS && Stores(uppers) && Direct(scope, trace).max <= uppers[|uppers| - 1]
    requires |trace| <= U64_MAX && Total(Time, scope, trace) <= U64_MAX
    ensures var d := Direct(scope, trace);
            d.sum == Total(Time, scope, trace) && d.sum <= Dot(uppers, d.histogram, |uppers|)
  {
    DotIsWeighted(uppers, scope, trace, |uppers|);
    TotalAtMostUppers(uppers, scope, trace);
  }

  // ----- Printed minima -----

  /** A minimum keeps its initial value exactly when every measured sample of its scope has that duration. */
  lemma MinimumIsInitial(scope: Scope, trace: seq<Sample>)
    requires forall x :: x in trace ==> x.duration <= U64_MAX
    ensures Direct(scope, trace).min == U64_MAX
            <==> forall x :: x in trace && Measured(scope, x) ==> x.duration == U64_MAX
  {
    ExtremesAreReached(scope, trace);
  }

  /** It is positive exactly when every measured sample took time. */
  lemma MinimumIsPositive(scope: Scope, trace: seq<Sample>)
    requires forall x :: x in trace ==> x.duration <= U64_MAX
    ensures Direct(scope, trace).min > 0 <==> forall x :: x in trace && Measured(scope, x) ==> x.duration > 0
  {
    ExtremesAreReached(scope, trace);
  }

  /** Before printing, no operation has a minimum below the universal one. */
  lemma {:induction false} UniversalIsLeast(o: nat, trace: seq<Sample>)
    ensures Shortest(Everything, trace) <= Shortest(Operation(o), trace)
  {
    if trace != [] { UniversalIsLeast(o, trace[..|trace| - 1]); }
  }

  /** No sample of the operation was measured below the initial value of a minimum. */
  ghost predicate Idle(o: nat, trace: seq<Sample>) {
    forall x :: x in trace && Measured(Operation(o), x) ==> x.duration == U64_MAX
  }

  /** An operation prints a minimum below the universal one exactly when it was idle and no measured sample of any
      operation took 0 ticks: its initial minimum is printed as 0, that of all operations is printed as it is. */
  lemma MinimaDisagreeExactly(trace: seq<Sample>, o: nat)
    requires forall x :: x in trace ==> x.duration <= U64_MAX
    ensures Printed(Direct(Operation(o), trace)).min < WithoutHistogram(Direct(Everything, trace)).min
            <==> Idle(o, trace) && forall x :: x in trace && !x.skipped ==> x.duration > 0
  {
    MinimumIsInitial(Operation(o), trace);
    MinimumIsPositive(Everything, trace);
    UniversalIsLeast(o, trace);
    assert forall x :: x in trace ==> (Measured(Everything, x) <==> !x.skipped);
  }

  /** For example when no sample at all was measured: then the universal minimum prints as 2^64 - 1. */
  lemma EmptyMinimaDiffer(trace: seq<Sample>, o: nat)
    requires forall x :: x in trace ==> x.skipped && x.duration <= U64_MAX
    ensures Printed(Direct(Operation(o), trace)).min == 0
    ensures WithoutHistogram(Direct(Everything, trace)).min == U64_MAX
  {
    MinimumIsInitial(Operation(o), trace);
    MinimumIsInitial(Everything, trace);
  }
}
