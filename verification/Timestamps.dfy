/** Where the times of a run come from: each recorded operation holds the clock of its own pick and of its own end
    reading and the result of its own dispatch, and each kept reading of main is the clock at its own step. */
module Timestamps {
  import opened OpTable
  import opened PhaseProtocol

  /** State k of the trace leads to the next one by this step. */
  ghost predicate Takes(c: Config, trace: seq<State>, k: nat, step: Step) {
    && k + 1 < |trace| && |c.table| == SLOTS && |trace[k].workers| == c.threads == |trace[k].late|
    && Enabled(c, trace[k], step) && trace[k + 1] == Apply(c, trace[k], step)
  }

  function WorkerOf(s: State, w: nat): Worker {
    if w < |s.workers| then s.workers[w] else Worker(WAbsent, 0)
  }

  // ----- Recorded operations -----

  /** Step p of the trace picks operation op at counter i of worker w, and the clock shows start. */
  ghost predicate PicksAt(c: Config, trace: seq<State>, w: nat, p: nat, i: nat, op: nat, start: nat) {
    && p + 1 < |trace|
    && WorkerOf(trace[p], w) == Worker(WPickOp, i) && WorkerOf(trace[p + 1], w) == Worker(WDispatch(op, start), i)
    && start == trace[p + 1].now.clk
    && exists res :: Takes(c, trace, p, Work(w, start, res))
  }

  /** Step d dispatches it with the result res. */
  ghost predicate DispatchesAt(c: Config, trace: seq<State>, w: nat, d: nat, i: nat, op: nat, start: nat, res: OpResult) {
    && d + 1 < |trace|
    && WorkerOf(trace[d], w) == Worker(WDispatch(op, start), i)
    && WorkerOf(trace[d + 1], w) == Worker(WReadEnd(op, start, res), i)
    && exists now :: Takes(c, trace, d, Work(w, now, res))
  }

  /** Step e reads the end time. */
  ghost predicate ReadsEndAt(c: Config, trace: seq<State>, w: nat, e: nat, i: nat, op: nat, start: nat, res: OpResult, end: nat) {
    && e + 1 < |trace|
    && WorkerOf(trace[e], w) == Worker(WReadEnd(op, start, res), i)
    && WorkerOf(trace[e + 1], w) == Worker(WRecord(op, start, res, end), i)
    && end == trace[e + 1].now.clk
    && exists r :: Takes(c, trace, e, Work(w, end, r))
  }

  ghost predicate Picked(c: Config, trace: seq<State>, w: nat, k: nat, i: nat, op: nat, start: nat) {
    exists p :: 0 <= p < k && PicksAt(c, trace, w, p, i, op, start)
  }

  ghost predicate Dispatched(c: Config, trace: seq<State>, w: nat, k: nat, i: nat, op: nat, start: nat, res: OpResult) {
    exists d :: 0 <= d < k && DispatchesAt(c, trace, w, d, i, op, start, res) && Picked(c, trace, w, d, i, op, start)
  }

  ghost predicate Ended(c: Config, trace: seq<State>, w: nat, k: nat, i: nat, op: nat, start: nat, res: OpResult, end: nat) {
    exists e :: 0 <= e < k && ReadsEndAt(c, trace, w, e, i, op, start, res, end) && Dispatched(c, trace, w, e, i, op, start, res)
  }

  /** What worker w holds before state k comes from its own earlier steps. */
  ghost predicate Origin(c: Config, trace: seq<State>, w: nat, k: nat, me: Worker) {
    match me.pc
    case WDispatch(op, start) => Picked(c, trace, w, k, me.i, op, start)
    case WReadEnd(op, start, res) => Dispatched(c, trace, w, k, me.i, op, start, res)
    case WRecord(op, start, res, end) => Ended(c, trace, w, k, me.i, op, start, res, end)
    case _ => true
  }

  lemma OriginStays(c: Config, trace: seq<State>, w: nat, k: nat, me: Worker)
    requires Origin(c, trace, w, k, me)
    ensures Origin(c, trace, w, k + 1, me)
  {
  }

  lemma StepTaken(c: Config, trace: seq<State>, k: nat) returns (step: Step)
    requires Run(c, trace) && k + 1 < |trace|
    ensures Shape(c, trace[k]) && Takes(c, trace, k, step)
  {
    step := StepAt(c, trace, k + 1);
  }

  /** A worker that does not take the step itself keeps what it holds, or is created. */
  lemma OthersStay(c: Config, trace: seq<State>, k: nat, step: Step, w: nat)
    requires Takes(c, trace, k, step) && Shape(c, trace[k]) && w < c.threads && (step.Work? ==> step.w != w)
    ensures WorkerOf(trace[k + 1], w) == WorkerOf(trace[k], w) || WorkerOf(trace[k + 1], w).pc == WRegister
  {
    match step
    case Main(now) => MainStepMoves(c, trace[k], now);
    case Work(v, now, res) => WorkStepMoves(c, trace[k], v, now, res);
  }

  lemma OwnOrigin(c: Config, trace: seq<State>, k: nat, now: nat, res: OpResult, w: nat)
    requires Takes(c, trace, k, Work(w, now, res)) && Shape(c, trace[k]) && w < c.threads
    requires Origin(c, trace, w, k, WorkerOf(trace[k], w))
    ensures Origin(c, trace, w, k + 1, WorkerOf(trace[k + 1], w))
  {
    var me, t := WorkerOf(trace[k], w), trace[k + 1];
    match me.pc
    case WPickOp => assert PicksAt(c, trace, w, k, me.i, WorkerOf(t, w).pc.op, now);
    case WDispatch(op, start) => assert DispatchesAt(c, trace, w, k, me.i, op, start, res);
    case WReadEnd(op, start, got) => assert ReadsEndAt(c, trace, w, k, me.i, op, start, got, now);
    case _ =>
  }

  lemma {:induction false} HeldFromOwnSteps(c: Config, trace: seq<State>, k: nat, w: nat)
    requires Run(c, trace) && k < |trace| && w < c.threads
    ensures Origin(c, trace, w, k, WorkerOf(trace[k], w))
  {
    if k > 0 {
      HeldFromOwnSteps(c, trace, k - 1, w);
      var step := StepTaken(c, trace, k - 1);
      OriginStep(c, trace, k - 1, step, w);
    }
  }

  lemma OriginStep(c: Config, trace: seq<State>, k: nat, step: Step, w: nat)
    requires Takes(c, trace, k, step) && Shape(c, trace[k]) && w < c.threads
    requires Origin(c, trace, w, k, WorkerOf(trace[k], w))
    ensures Origin(c, trace, w, k + 1, WorkerOf(trace[k + 1], w))
  {
    if step.Work? && step.w == w {
      OwnOrigin(c, trace, k, step.now, step.res, w);
    } else {
      OthersStay(c, trace, k, step, w);
      OriginStays(c, trace, w, k, WorkerOf(trace[k], w));
    }
  }

  /** The counter at which an event was recorded: the start of its worker plus the events before it in its row. */
  function CounterOf(c: Config, log: seq<Event>, n: nat): nat
    requires n < |log| && log[n].tid < c.threads
  {
    StartPosition(log[n].tid, c.threads) + |Row(log[..n], log[n].tid)|
  }

  ghost predicate EventHasOrigin(c: Config, trace: seq<State>, k: nat, log: seq<Event>, n: nat)
    requires n < |log|
  {
    log[n].tid < c.threads &&
    var e := log[n]; Ended(c, trace, e.tid, k, CounterOf(c, log, n), e.op, e.start, e.res, e.end)
  }

  /** What a step does to the log: nothing, or a worker appends what it holds. */
  lemma LogStep(c: Config, trace: seq<State>, k: nat, step: Step)
    requires Takes(c, trace, k, step) && Shape(c, trace[k])
    ensures trace[k + 1].log == trace[k].log || (Appends(trace, k, step) && step.w < c.threads)
  {
    match step
    case Main(now) => MainStepMoves(c, trace[k], now);
    case Work(v, now, res) => WorkStepMoves(c, trace[k], v, now, res);
  }

  /** For every recorded operation there are earlier steps p < d < e of its worker, at its own counter: the pick, right
      after which the clock shows its start, the dispatch, which carries its result, and the end reading, right after
      which the clock shows its end. */
  lemma {:induction false} RecordsComeFromSteps(c: Config, trace: seq<State>, k: nat, n: nat)
    requires Run(c, trace) && k < |trace| && n < |trace[k].log|
    ensures EventHasOrigin(c, trace, k, trace[k].log, n)
  {
    if k > 0 {
      var step := StepTaken(c, trace, k - 1);
      LogStep(c, trace, k - 1, step);
      if n < |trace[k - 1].log| {
        RecordsComeFromSteps(c, trace, k - 1, n);
        OldEventHasOrigin(c, trace, k - 1, step, n);
      } else {
        LastEventHasOrigin(c, trace, k - 1, step);
      }
    }
  }

  /** What LogStep says. */
  ghost predicate Appends(trace: seq<State>, k: nat, step: Step) {
    && k + 1 < |trace| && step.Work? && WorkerOf(trace[k], step.w).pc.WRecord?
    && var pc := WorkerOf(trace[k], step.w).pc;
    trace[k + 1].log == trace[k].log + [Event(step.w, pc.op, pc.res, pc.start, pc.end)]
  }

  lemma OldEventHasOrigin(c: Config, trace: seq<State>, k: nat, step: Step, n: nat)
    requires k + 1 < |trace| && n < |trace[k].log| && EventHasOrigin(c, trace, k, trace[k].log, n)
    requires trace[k + 1].log == trace[k].log || Appends(trace, k, step)
    ensures n < |trace[k + 1].log| && EventHasOrigin(c, trace, k + 1, trace[k + 1].log, n)
  {
    EventKeepsOrigin(c, trace, k, n);
  }

  lemma LastEventHasOrigin(c: Config, trace: seq<State>, k: nat, step: Step)
    requires Run(c, trace) && Appends(trace, k, step) && step.w < c.threads
    ensures EventHasOrigin(c, trace, k + 1, trace[k + 1].log, |trace[k].log|)
  {
    HeldFromOwnSteps(c, trace, k, step.w);
    CounterFits(c, trace, k, step.w);
    NewEventHasOrigin(c, trace, k, step.w);
  }

  lemma EventKeepsOrigin(c: Config, trace: seq<State>, k: nat, n: nat)
    requires k + 1 < |trace| && n < |trace[k].log| && n < |trace[k + 1].log|
    requires trace[k + 1].log[..n + 1] == trace[k].log[..n + 1] && EventHasOrigin(c, trace, k, trace[k].log, n)
    ensures EventHasOrigin(c, trace, k + 1, trace[k + 1].log, n)
  {
    assert trace[k + 1].log[..n + 1][n] == trace[k].log[..n + 1][n];
    assert trace[k + 1].log[..n] == trace[k + 1].log[..n + 1][..n] == trace[k].log[..n];
  }

  lemma CounterFits(c: Config, trace: seq<State>, k: nat, w: nat)
    requires Run(c, trace) && k < |trace| && w < c.threads && WorkerOf(trace[k], w).pc.WRecord?
    ensures WorkerOf(trace[k], w).i == StartPosition(w, c.threads) + |Row(trace[k].log, w)|
  {
    RunInv(c, trace, k);
    assert RowOk(c, trace[k], w);
  }

  lemma NewEventHasOrigin(c: Config, trace: seq<State>, k: nat, w: nat)
    requires k + 1 < |trace| && w < c.threads && WorkerOf(trace[k], w).pc.WRecord?
    requires var pc := WorkerOf(trace[k], w).pc;
             trace[k + 1].log == trace[k].log + [Event(w, pc.op, pc.res, pc.start, pc.end)]
    requires Origin(c, trace, w, k, WorkerOf(trace[k], w))
    requires WorkerOf(trace[k], w).i == StartPosition(w, c.threads) + |Row(trace[k].log, w)|
    ensures EventHasOrigin(c, trace, k + 1, trace[k + 1].log, |trace[k].log|)
  {
    assert trace[k + 1].log[..|trace[k].log|] == trace[k].log;
    OriginStays(c, trace, w, k, WorkerOf(trace[k], w));
  }

  // ----- Kept readings -----

  /** The reading that a step of main keeps. */
  function Kept(win: Window, pc: MainPc): nat {
    match pc
    case MMaxStartClk => win.maxStart.clk
    case MMaxStartWall => win.maxStart.wall
    case MMinStartClk => win.minStart.clk
    case MMinStartWall => win.minStart.wall
    case MMinStopClk => win.minStop.clk
    case MMinStopWall => win.minStop.wall
    case MMaxStopClk => win.maxStop.clk
    case MMaxStopWall => win.maxStop.wall
    case _ => 0
  }

  predicate ReadsClk(pc: MainPc) { pc in {MMaxStartClk, MMinStartClk, MMinStopClk, MMaxStopClk} }

  predicate ReadsWall(pc: MainPc) { pc in {MMaxStartWall, MMinStartWall, MMinStopWall, MMaxStopWall} }

  /** Step q of the trace is the one at pc, it reads the clock, and that is the value. */
  ghost predicate ReadAt(c: Config, trace: seq<State>, q: nat, pc: MainPc, value: nat) {
    && q + 1 < |trace| && trace[q].main == pc && trace[q + 1].main != pc
    && value == (if ReadsClk(pc) then trace[q + 1].now.clk else trace[q + 1].now.wall)
    && Takes(c, trace, q, Main(value))
  }

  lemma MainReads(c: Config, trace: seq<State>, k: nat, step: Step, pc: MainPc)
    requires Takes(c, trace, k, step) && Shape(c, trace[k]) && (ReadsClk(pc) || ReadsWall(pc))
    requires MRank(trace[k + 1].main) > MRank(pc)
    ensures if MRank(trace[k].main) > MRank(pc) then Kept(trace[k + 1].window, pc) == Kept(trace[k].window, pc)
            else ReadAt(c, trace, k, pc, Kept(trace[k + 1].window, pc))
  {
    match step
    case Main(now) => MainStepMoves(c, trace[k], now);
    case Work(v, now, res) => WorkStepMoves(c, trace[k], v, now, res);
  }

  /** Every kept reading is the clock at the step of main that belongs to it. */
  lemma {:induction false} KeptReadingsAreOwn(c: Config, trace: seq<State>, k: nat, pc: MainPc) returns (q: nat)
    requires Run(c, trace) && k < |trace| && (ReadsClk(pc) || ReadsWall(pc)) && MRank(trace[k].main) > MRank(pc)
    ensures q < k && ReadAt(c, trace, q, pc, Kept(trace[k].window, pc))
  {
    assert k > 0;
    var step := StepTaken(c, trace, k - 1);
    MainReads(c, trace, k - 1, step, pc);
    if MRank(trace[k - 1].main) > MRank(pc) {
      q := KeptReadingsAreOwn(c, trace, k - 1, pc);
    } else {
      q := k - 1;
    }
  }
}
