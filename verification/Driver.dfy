/** The benchmark program as a whole: what the warm-up, the run phase, the statistics and the clocks guarantee together. */
module Driver {
  import opened Arithmetic
  import opened Bits
  import opened Clock
  import Flags
  import opened Lines
  import opened OpTable
  import opened PhaseProtocol
  import opened Report
  import opened Sampling
  import opened Seqs
  import Stats

  /** From the configuration of the runner to the filled table: the printed command line is read back without an error,
      and the sum that the warm-up asserts is there exactly when operations are configured. */
  method ReadAndWarmUp(c: Flags.RunConfig, memory: seq<nat>, ops: array<nat>, source: WordSource)
    returns (e: Flags.Error, outcome: Outcome)
    requires Flags.Printable(c) && Flags.RunnerAccepts(c.dist) && |memory| == |c.dist|
    requires ops.Length == SLOTS && source.pos <= |source.words|
    modifies ops, source
    ensures e == Flags.None
    ensures outcome.AssertFailed? <==> c.dist == []
    ensures outcome.Filled? ==> FilledFrom(ops[..], c.dist)
  {
    var params := new Flags.Params(memory);
    Flags.CommandLineSplits(c);
    Flags.FlagsAreReadBack(c, memory, Flags.AllFlags(c));
    e := params.Extract(Split(Flags.CommandLine(c), ' '));
    outcome := Warmup(params.opDist[..], ops, source);
  }

  /** In every state of every run, each worker has run operation op between its frequency times the completed turns
      of 1024 operations and its frequency times the turns begun, and exactly so after complete turns. */
  lemma FrequenciesAreKept(c: Config, dist: seq<nat>, trace: seq<State>, k: nat, w: nat, op: nat)
    requires Run(c, trace) && k < |trace| && w < c.threads && FilledFrom(c.table, dist) && op < |dist|
    ensures var row := Row(trace[k].log, w);
            && Times(dist[op], |row| / SLOTS) <= OpCount(row, op) <= Times(dist[op], (|row| + SLOTS - 1) / SLOTS)
            && (|row| % SLOTS == 0 ==> OpCount(row, op) == Times(dist[op], |row| / SLOTS))
  {
    RunKeepsDistribution(c, trace, k, w, op);
  }

  /** Every recorded operation of a run meets the asserts of `bm_stat_add_op`. */
  lemma RunFeedsStatistics(c: Config, dist: seq<nat>, trace: seq<State>, k: nat, i: nat)
    requires Run(c, trace) && k < |trace| && FilledFrom(c.table, dist)
    requires trace[k].now.clk <= U64_MAX && i < |trace[k].log|
    ensures var x, e := Samples(trace[k].log)[i], trace[k].log[i];
            && x.tid == e.tid < c.threads && x.op == e.op < |dist|
            && x.duration == Duration(e) <= U64_MAX
  {
    RunInv(c, trace, k);
    var s := trace[k];
    var e := s.log[i];
    assert EventInWindow(s, e);
    assert RowOk(c, s, e.tid);
    InRow(s.log, e.tid, i);
    var row := Row(s.log, e.tid);
    var j :| 0 <= j < |row| && row[j] == e;
    assert row[j].op == OpAt(c.table, StartPosition(e.tid, c.threads) + j);
  }

  lemma {:induction false} InRow(log: seq<Event>, w: nat, i: nat)
    requires i < |log| && log[i].tid == w
    ensures log[i] in Row(log, w)
  {
    var n := |log| - 1;
    if i < n { InRow(log[..n], w, i); }
  }

  lemma RunIsForward(c: Config, trace: seq<State>)
    requires Run(c, trace) && trace[|trace| - 1].now.clk <= U64_MAX
    ensures Forward(trace[|trace| - 1].log)
  {
    var s := trace[|trace| - 1];
    RunInv(c, trace, |trace| - 1);
    forall e | e in s.log ensures e.start <= e.end && Duration(e) <= U64_MAX {
      var i :| 0 <= i < |s.log| && s.log[i] == e;
      assert EventInWindow(s, s.log[i]);
    }
  }

  /** The statistics printed at the end of a run are the direct statistics over everything the workers recorded,
      in whatever order they wrote it: per operation and over all, the totals, extremes and histogram of the recorded
      operations themselves. */
  method ReportOfRun(c: Config, dist: seq<nat>, ghost trace: seq<State>, log: seq<Event>) returns (report: Stats.Report)
    requires Run(c, trace) && trace[|trace| - 1].main == MDone && log == trace[|trace| - 1].log
    requires FilledFrom(c.table, dist) && trace[|trace| - 1].now.clk <= U64_MAX
    ensures |report.ops| == |dist|
    ensures forall o :: 0 <= o < |dist| ==>
              report.ops[o] == Stats.Printed(Stats.Direct(Stats.Operation(o), Samples(log)))
    ensures report.univ == Stats.WithoutHistogram(Stats.Direct(Stats.Everything, Samples(log)))
    ensures forall o :: 0 <= o < |dist| ==> Describes(EventsOf(log, o), report.ops[o])
    ensures DescribesAll(log, report.univ)
  {
    var stats := new Stats.BmStat(c.threads, |dist|);
    for i := 0 to |log|
      invariant stats.Valid() && stats.threads == c.threads && stats.ops == |dist|
      invariant fresh(stats) && fresh(stats.cells) && fresh(stats.ranges)
      invariant stats.trace == Samples(log)[..i]
    {
      RunFeedsStatistics(c, dist, trace, |trace| - 1, i);
      var x := SampleOf(log[i]);
      stats.AddOp(x.tid, x.op, x.count, x.succ, x.duration, x.skipped);
      assert Samples(log)[..i + 1] == Samples(log)[..i] + [x];
    }
    assert Samples(log)[..|log|] == Samples(log);
    report := stats.Collect();
    RunIsForward(c, trace);
    forall o | 0 <= o < |dist| ensures Describes(EventsOf(log, o), report.ops[o]) { DirectDescribes(log, o); }
    DirectDescribesAll(log);
  }

  function TimeOf(nanos: nat): (t: Time)
    ensures Normal(t) && Nanos(t) == nanos
  {
    Time(nanos / NANOS, nanos % NANOS)
  }

  /** At the end of a run the inner windows of both clocks are not longer than the outer ones, so the smaller of each
      pair of printed throughputs is the one called minimal. */
  lemma ThroughputsAreOrdered(c: Config, trace: seq<State>, count: nat, ticks: nat)
    requires Run(c, trace) && trace[|trace| - 1].main == MDone
    ensures var w := trace[|trace| - 1].window;
            var minClk, maxClk := w.minStop.clk - w.minStart.clk, w.maxStop.clk - w.maxStart.clk;
            var minMs := SpentTime(TimeOf(w.minStart.wall), TimeOf(w.minStop.wall));
            var maxMs := SpentTime(TimeOf(w.maxStart.wall), TimeOf(w.maxStop.wall));
            && 0 <= minClk <= maxClk && 0 <= minMs <= maxMs
            && (0 < minClk ==> Throughput(count, ticks, maxClk) <= Throughput(count, ticks, minClk))
            && (0 < minMs ==> Throughput(count, 1, maxMs) <= Throughput(count, 1, minMs))
  {
    RunIsMeasured(c, trace, |trace| - 1);
    var w := trace[|trace| - 1].window;
    NestedWindows(TimeOf(w.maxStart.wall), TimeOf(w.minStart.wall), TimeOf(w.minStop.wall), TimeOf(w.maxStop.wall));
    var minClk, maxClk := w.minStop.clk - w.minStart.clk, w.maxStop.clk - w.maxStart.clk;
    if 0 < minClk { ThroughputOrder(count, ticks, minClk, maxClk); }
    var minMs := SpentTime(TimeOf(w.minStart.wall), TimeOf(w.minStop.wall));
    var maxMs := SpentTime(TimeOf(w.maxStart.wall), TimeOf(w.maxStop.wall));
    if 0 < minMs { ThroughputOrder(count, 1, minMs, maxMs); }
  }
}
