/** What the printed statistics of a run say about the recorded operations, without going through samples and scopes. */
module Report {
  import opened Arithmetic
  import opened Bits
  import opened Buckets
  import opened PhaseProtocol
  import Stats

  /** The time an operation took. */
  function Duration(e: Event): int { e.end - e.start }

  /** The recorded operations with this index, in order. */
  function EventsOf(log: seq<Event>, op: nat): seq<Event> {
    if log == [] then []
    else EventsOf(log[..|log| - 1], op) + if log[|log| - 1].op == op then [log[|log| - 1]] else []
  }

  function AllCalls(es: seq<Event>): nat {
    if es == [] then 0 else AllCalls(es[..|es| - 1]) + es[|es| - 1].res.count
  }

  function AllSuccesses(es: seq<Event>): nat {
    if es == [] then 0 else AllSuccesses(es[..|es| - 1]) + es[|es| - 1].res.succ
  }

  function AllTime(es: seq<Event>): int {
    if es == [] then 0 else AllTime(es[..|es| - 1]) + Duration(es[|es| - 1])
  }

  /** A duration belongs to the bucket that contains it; the last bucket also takes what is above the table. */
  predicate InBucket(d: int, j: nat) {
    BucketAt(j).lo <= d && (d <= BucketAt(j).hi || j == 59)
  }

  function HitsOf(es: seq<Event>, j: nat): nat {
    if es == [] then 0 else HitsOf(es[..|es| - 1], j) + if InBucket(Duration(es[|es| - 1]), j) then 1 else 0
  }

  /** The 64-bit totals over some operations; nothing is skipped. */
  ghost predicate Totals(es: seq<Event>, count: nat, succ: nat, sum: nat, skipped: nat) {
    && count == AllCalls(es) % TWO64
    && succ == AllSuccesses(es) % TWO64
    && sum as int == AllTime(es) % TWO64
    && skipped == 0
  }

  /** The longest duration, or 0. */
  ghost predicate IsLongest(es: seq<Event>, m: nat) {
    if es == [] then m == 0
    else (exists e :: e in es && Duration(e) == m) && forall e :: e in es ==> Duration(e) <= m
  }

  /** The shortest duration, or the given value when none is below 2^64 - 1. */
  ghost predicate IsShortest(es: seq<Event>, m: nat, none: nat) {
    if exists e :: e in es && Duration(e) < U64_MAX
    then (exists e :: e in es && Duration(e) == m) && forall e :: e in es ==> m <= Duration(e)
    else m == none
  }

  /** The printed line of one operation. */
  ghost predicate Describes(es: seq<Event>, d: Stats.OpStat) {
    && Totals(es, d.count, d.succCount, d.sum, d.skipped)
    && IsLongest(es, d.max) && IsShortest(es, d.min, 0)
    && |d.histogram| == 60 && forall j :: 0 <= j < 60 ==> d.histogram[j] == HitsOf(es, j) % TWO64
  }

  /** The printed line over all operations. */
  ghost predicate DescribesAll(es: seq<Event>, u: Stats.Universal) {
    Totals(es, u.count, u.succCount, u.sum, u.skipped) && IsLongest(es, u.max) && IsShortest(es, u.min, U64_MAX)
  }

  // ----- From samples to operations -----

  /** The sample `run` hands to `bm_stat_add_op` for a recorded operation. */
  function SampleOf(e: Event): Stats.Sample {
    Stats.Sample(e.tid, e.op, e.res.count, e.res.succ, if e.start <= e.end then e.end - e.start else 0, false)
  }

  function Samples(log: seq<Event>): (r: seq<Stats.Sample>)
    ensures |r| == |log|
    ensures forall i :: 0 <= i < |log| ==> r[i] == SampleOf(log[i])
  {
    seq(|log|, i requires 0 <= i < |log| => SampleOf(log[i]))
  }

  ghost predicate Forward(log: seq<Event>) {
    forall e :: e in log ==> e.start <= e.end && Duration(e) <= U64_MAX
  }

  /** The recorded operations of a scope. */
  function Part(scope: Stats.Scope, log: seq<Event>): seq<Event> {
    if log == [] then []
    else Part(scope, log[..|log| - 1]) + if Stats.In(scope, SampleOf(log[|log| - 1])) then [log[|log| - 1]] else []
  }

  lemma {:induction false} PartOfOperation(log: seq<Event>, op: nat)
    ensures Part(Stats.Operation(op), log) == EventsOf(log, op)
  {
    if log != [] { PartOfOperation(log[..|log| - 1], op); }
  }

  lemma {:induction false} PartOfEverything(log: seq<Event>)
    ensures Part(Stats.Everything, log) == log
  {
    if log != [] {
      PartOfEverything(log[..|log| - 1]);
      assert log == log[..|log| - 1] + [log[|log| - 1]];
    }
  }

  lemma SamplesFront(log: seq<Event>)
    requires log != []
    ensures Samples(log)[..|log| - 1] == Samples(log[..|log| - 1])
  {
  }

  /** One more operation at the end of a part. */
  lemma PartAppend(part: seq<Event>, e: Event, j: nat)
    ensures AllCalls(part + [e]) == AllCalls(part) + e.res.count
    ensures AllSuccesses(part + [e]) == AllSuccesses(part) + e.res.succ
    ensures AllTime(part + [e]) == AllTime(part) + Duration(e)
    ensures HitsOf(part + [e], j) == HitsOf(part, j) + if InBucket(Duration(e), j) then 1 else 0
  {
    assert (part + [e])[..|part|] == part;
  }

  /** What a quantity of the statistics is on the operations themselves. */
  function Over(q: Stats.Quantity, es: seq<Event>): int {
    match q
    case Succ => AllSuccesses(es)
    case Calls => AllCalls(es)
    case Skipped => 0
    case Time => AllTime(es)
    case Hits(j) => HitsOf(es, j)
  }

  lemma HitIsInBucket(d: nat, j: nat)
    requires j < BUCKETS
    ensures IndexFor(d, BUCKETS) == j <==> InBucket(d, j)
  {
    UniqueBucket(d, BUCKETS, j);
  }

  lemma OverAppend(q: Stats.Quantity, part: seq<Event>, e: Event)
    requires e.start <= e.end && (q.Hits? ==> q.bucket < BUCKETS)
    ensures Over(q, part + [e]) == Over(q, part) + Stats.Amount(q, SampleOf(e))
  {
    PartAppend(part, e, if q.Hits? then q.bucket else 0);
    if q.Hits? { HitIsInBucket(Duration(e), q.bucket); }
  }

  lemma {:induction false} TotalIsOver(q: Stats.Quantity, scope: Stats.Scope, log: seq<Event>)
    requires Forward(log) && (q.Hits? ==> q.bucket < BUCKETS)
    ensures Stats.Total(q, scope, Samples(log)) == Over(q, Part(scope, log))
  {
    if log != [] {
      var front, e := log[..|log| - 1], log[|log| - 1];
      SamplesFront(log);
      assert e in log;
      TotalIsOver(q, scope, front);
      if Stats.In(scope, SampleOf(e)) {
        OverAppend(q, Part(scope, front), e);
      } else {
        assert Part(scope, log) == Part(scope, front);
      }
    }
  }

  lemma {:induction false} PartHolds(scope: Stats.Scope, log: seq<Event>, e: Event)
    ensures e in Part(scope, log) <==> e in log && Stats.In(scope, SampleOf(e))
  {
    if log != [] {
      PartHolds(scope, log[..|log| - 1], e);
      assert log == log[..|log| - 1] + [log[|log| - 1]];
    }
  }

  lemma SampleHasEvent(scope: Stats.Scope, log: seq<Event>, x: Stats.Sample) returns (e: Event)
    requires x in Samples(log) && Stats.Measured(scope, x)
    ensures e in Part(scope, log) && SampleOf(e) == x
  {
    var i :| 0 <= i < |log| && Samples(log)[i] == x;
    e := log[i];
    PartHolds(scope, log, e);
  }

  lemma EventHasSample(scope: Stats.Scope, log: seq<Event>, e: Event)
    requires e in Part(scope, log)
    ensures e in log && SampleOf(e) in Samples(log) && Stats.Measured(scope, SampleOf(e))
  {
    PartHolds(scope, log, e);
    var i :| 0 <= i < |log| && log[i] == e;
    assert Samples(log)[i] == SampleOf(e);
  }

  lemma LongestOfPart(scope: Stats.Scope, log: seq<Event>)
    requires Forward(log)
    ensures IsLongest(Part(scope, log), Stats.Longest(scope, Samples(log)))
  {
    var part, trace := Part(scope, log), Samples(log);
    SamplesAreBounded(log);
    Stats.ExtremesAreReached(scope, trace);
    forall e | e in part ensures Duration(e) <= Stats.Longest(scope, trace) { EventHasSample(scope, log, e); }
    if part != [] {
      EventHasSample(scope, log, part[0]);
      var x :| x in trace && Stats.Measured(scope, x) && x.duration == Stats.Longest(scope, trace);
      var e := SampleHasEvent(scope, log, x);
      EventHasSample(scope, log, e);
    } else if x :| x in trace && Stats.Measured(scope, x) {
      var e := SampleHasEvent(scope, log, x);
    }
  }

  lemma SamplesAreBounded(log: seq<Event>)
    requires Forward(log)
    ensures forall x :: x in Samples(log) ==> x.duration <= U64_MAX
  {
    forall x | x in Samples(log) ensures x.duration <= U64_MAX {
      var i :| 0 <= i < |log| && Samples(log)[i] == x;
      assert log[i] in log;
    }
  }

  lemma ShortestOfPart(scope: Stats.Scope, log: seq<Event>)
    requires Forward(log)
    ensures IsShortest(Part(scope, log), Stats.Shortest(scope, Samples(log)), U64_MAX)
    ensures Stats.Shortest(scope, Samples(log)) == U64_MAX <==>
            !exists e :: e in Part(scope, log) && Duration(e) < U64_MAX
  {
    var part, trace := Part(scope, log), Samples(log);
    SamplesAreBounded(log);
    Stats.ExtremesAreReached(scope, trace);
    var m := Stats.Shortest(scope, trace);
    forall e | e in part ensures m <= Duration(e) { EventHasSample(scope, log, e); }
    if x :| x in trace && Stats.Measured(scope, x) && x.duration == m {
      var e := SampleHasEvent(scope, log, x);
      EventHasSample(scope, log, e);
    } else {
      assert m == U64_MAX;
    }
  }

  /** The totals of a scope are those of its operations. */
  lemma TotalsOfPart(scope: Stats.Scope, log: seq<Event>)
    requires Forward(log)
    ensures var d := Stats.Direct(scope, Samples(log));
            Totals(Part(scope, log), d.count, d.succCount, d.sum, d.skipped)
  {
    TotalIsOver(Stats.Calls, scope, log);
    TotalIsOver(Stats.Succ, scope, log);
    TotalIsOver(Stats.Time, scope, log);
    TotalIsOver(Stats.Skipped, scope, log);
    Wrap64IsModulo(AllCalls(Part(scope, log)));
    Wrap64IsModulo(AllSuccesses(Part(scope, log)));
    Wrap64IsModulo(AllTime(Part(scope, log)));
  }

  lemma HistogramOfPart(scope: Stats.Scope, log: seq<Event>, j: nat)
    requires Forward(log) && j < BUCKETS
    ensures Stats.Direct(scope, Samples(log)).histogram[j] == HitsOf(Part(scope, log), j) % TWO64
  {
    TotalIsOver(Stats.Hits(j), scope, log);
    Wrap64IsModulo(HitsOf(Part(scope, log), j));
  }

  /** The direct statistics of an operation, as they are printed, describe its recorded operations. */
  lemma DirectDescribes(log: seq<Event>, op: nat)
    requires Forward(log)
    ensures Describes(EventsOf(log, op), Stats.Printed(Stats.Direct(Stats.Operation(op), Samples(log))))
  {
    var scope := Stats.Operation(op);
    PartOfOperation(log, op);
    TotalsOfPart(scope, log);
    LongestOfPart(scope, log);
    ShortestOfPart(scope, log);
    forall j | 0 <= j < BUCKETS
      ensures Stats.Direct(scope, Samples(log)).histogram[j] == HitsOf(EventsOf(log, op), j) % TWO64
    {
      HistogramOfPart(scope, log, j);
    }
  }

  lemma DirectDescribesAll(log: seq<Event>)
    requires Forward(log)
    ensures DescribesAll(log, Stats.WithoutHistogram(Stats.Direct(Stats.Everything, Samples(log))))
  {
    PartOfEverything(log);
    TotalsOfPart(Stats.Everything, log);
    LongestOfPart(Stats.Everything, log);
    ShortestOfPart(Stats.Everything, log);
  }
}
