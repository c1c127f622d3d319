/** The run phase of `benchmark.c` as a step relation over the main thread and N workers.

    A state holds the program counter of every thread, the stop flag, who has arrived at each of the
    two barriers, the last readings of the two clocks, the eight clock readings main keeps, and the
    log of all recorded operations in the order of their writes. Every step is one thread's next
    action; interleavings are arbitrary, and clock readings never decrease. */
module PhaseProtocol {
  import opened Arithmetic
  import opened Cyclic
  import opened OpTable
  import opened Seqs

  datatype Config = Config(threads: nat, table: seq<nat>)

  datatype MainPc =
    | MCreate(next: nat) | MMaxStartClk | MMaxStartWall | MArriveStart | MPassStart
    | MMinStartClk | MMinStartWall | MSetStop | MMinStopClk | MMinStopWall | MArriveStop | MPassStop
    | MMaxStopClk | MMaxStopWall | MJoin(next: nat) | MConclude | MDone

  datatype OpResult = OpResult(count: nat, succ: nat)

  datatype WorkerPc =
    | WAbsent | WRegister | WArriveStart | WPassStart
    | WCheckStop | WPickOp | WDispatch(op: nat, start: nat) | WReadEnd(op: nat, start: nat, res: OpResult)
    | WRecord(op: nat, start: nat, res: OpResult, end: nat)
    | WArriveStop | WPassStop | WDeregister | WExited

  datatype Worker = Worker(pc: WorkerPc, i: nat)

  datatype Event = Event(tid: nat, op: nat, res: OpResult, start: nat, end: nat)

  datatype Reading = Reading(clk: nat, wall: nat)

  /** The readings of main, zero until taken. */
  datatype Window = Window(maxStart: Reading, minStart: Reading, minStop: Reading, maxStop: Reading)

  datatype State = State(
    main: MainPc, workers: seq<Worker>, stop: bool,
    atStart: set<nat>, atStop: set<nat>,
    now: Reading, window: Window,
    log: seq<Event>, late: seq<nat>)

  datatype Step = Main(now: nat) | Work(w: nat, now: nat, res: OpResult)

  // ----- Program order -----

  function MRank(pc: MainPc): nat {
    match pc
    case MCreate(_) => 0
    case MMaxStartClk => 1
    case MMaxStartWall => 2
    case MArriveStart => 3
    case MPassStart => 4
    case MMinStartClk => 5
    case MMinStartWall => 6
    case MSetStop => 7
    case MMinStopClk => 8
    case MMinStopWall => 9
    case MArriveStop => 10
    case MPassStop => 11
    case MMaxStopClk => 12
    case MMaxStopWall => 13
    case MJoin(_) => 14
    case MConclude => 15
    case MDone => 16
  }

  function WRank(pc: WorkerPc): nat {
    match pc
    case WAbsent => 0
    case WRegister => 1
    case WArriveStart => 2
    case WPassStart => 3
    case WCheckStop => 4
    case WPickOp => 5
    case WDispatch(_, _) => 6
    case WReadEnd(_, _, _) => 7
    case WRecord(_, _, _, _) => 8
    case WArriveStop => 9
    case WPassStop => 10
    case WDeregister => 11
    case WExited => 12
  }

  /** Inside the loop body, between a stop check that failed and the write of the record. */
  predicate InFlight(pc: WorkerPc) { 5 <= WRank(pc) <= 8 }

  // ----- Steps -----

  const ZERO: Window := Window(Reading(0, 0), Reading(0, 0), Reading(0, 0), Reading(0, 0))

  ghost predicate Init(c: Config, s: State) {
    && s.main == MCreate(0)
    && s.workers == seq(c.threads, _ => Worker(WAbsent, 0))
    && !s.stop && s.atStart == {} && s.atStop == {} && s.window == ZERO
    && s.log == [] && s.late == seq(c.threads, _ => 0)
  }

  predicate MainEnabled(c: Config, s: State, now: nat)
    requires |s.workers| == c.threads
  {
    match s.main
    case MMaxStartClk | MMinStartClk | MMinStopClk | MMaxStopClk => s.now.clk <= now
    case MMaxStartWall | MMinStartWall | MMinStopWall | MMaxStopWall => s.now.wall <= now
    case MPassStart => |s.atStart| == c.threads + 1
    case MPassStop => |s.atStop| == c.threads + 1
    case MJoin(next) => next < c.threads ==> s.workers[next].pc == WExited
    case MDone => false
    case _ => true
  }

  function MainStep(c: Config, s: State, now: nat): State
    requires |s.workers| == c.threads && MainEnabled(c, s, now)
  {
    match s.main
    case MCreate(next) =>
      if next < c.threads then
        s.(main := MCreate(next + 1), workers := s.workers[next := Worker(WRegister, 0)])
      else s.(main := MMaxStartClk)
    case MMaxStartClk =>
      s.(main := MMaxStartWall, now := s.now.(clk := now), window := s.window.(maxStart := Reading(now, 0)))
    case MMaxStartWall =>
      s.(main := MArriveStart, now := s.now.(wall := now),
         window := s.window.(maxStart := Reading(s.window.maxStart.clk, now)))
    case MArriveStart => s.(main := MPassStart, atStart := s.atStart + {c.threads})
    case MPassStart => s.(main := MMinStartClk)
    case MMinStartClk =>
      s.(main := MMinStartWall, now := s.now.(clk := now), window := s.window.(minStart := Reading(now, 0)))
    case MMinStartWall =>
      s.(main := MSetStop, now := s.now.(wall := now),
         window := s.window.(minStart := Reading(s.window.minStart.clk, now)))
    case MSetStop => s.(main := MMinStopClk, stop := true)
    case MMinStopClk =>
      s.(main := MMinStopWall, now := s.now.(clk := now), window := s.window.(minStop := Reading(now, 0)))
    case MMinStopWall =>
      s.(main := MArriveStop, now := s.now.(wall := now),
         window := s.window.(minStop := Reading(s.window.minStop.clk, now)))
    case MArriveStop => s.(main := MPassStop, atStop := s.atStop + {c.threads})
    case MPassStop => s.(main := MMaxStopClk)
    case MMaxStopClk =>
      s.(main := MMaxStopWall, now := s.now.(clk := now), window := s.window.(maxStop := Reading(now, 0)))
    case MMaxStopWall =>
      s.(main := MJoin(0), now := s.now.(wall := now),
         window := s.window.(maxStop := Reading(s.window.maxStop.clk, now)))
    case MJoin(next) => s.(main := if next < c.threads then MJoin(next + 1) else MConclude)
    case MConclude => s.(main := MDone)
  }

  predicate WorkEnabled(c: Config, s: State, w: nat, now: nat)
    requires |s.workers| == c.threads
  {
    && w < c.threads
    && match s.workers[w].pc
       case WAbsent | WExited => false
       case WPassStart => |s.atStart| == c.threads + 1
       case WPassStop => |s.atStop| == c.threads + 1
       case WPickOp | WReadEnd(_, _, _) => s.now.clk <= now
       case _ => true
  }

  predicate Runs(pc: WorkerPc) { pc != WAbsent && pc != WExited }

  /** What the next step makes of a worker: its program counter and its loop counter. */
  function Advance(c: Config, w: nat, me: Worker, stop: bool, now: nat, res: OpResult): Worker
    requires |c.table| == SLOTS && w < c.threads && Runs(me.pc)
  {
    match me.pc
    case WRegister => Worker(WArriveStart, StartPosition(w, c.threads))
    case WArriveStart => me.(pc := WPassStart)
    case WPassStart => me.(pc := WCheckStop)
    case WCheckStop => me.(pc := if stop then WArriveStop else WPickOp)
    case WPickOp => me.(pc := WDispatch(OpAt(c.table, me.i), now))
    case WDispatch(op, start) => me.(pc := WReadEnd(op, start, res))
    case WReadEnd(op, start, got) => me.(pc := WRecord(op, start, got, now))
    case WRecord(_, _, _, _) => Worker(WCheckStop, me.i + 1)
    case WArriveStop => me.(pc := WPassStop)
    case WPassStop => me.(pc := WDeregister)
    case WDeregister => me.(pc := WExited)
  }

  /** A step of worker w: it advances, and some steps also touch a barrier, a clock or the statistics. */
  function WorkStep(c: Config, s: State, w: nat, now: nat, res: OpResult): State
    requires |c.table| == SLOTS && |s.workers| == c.threads == |s.late| && WorkEnabled(c, s, w, now)
  {
    var me := s.workers[w];
    var t := s.(workers := s.workers[w := Advance(c, w, me, s.stop, now, res)]);
    match me.pc
    case WArriveStart => t.(atStart := s.atStart + {w})
    case WPickOp => t.(now := s.now.(clk := now))
    case WReadEnd(_, _, _) => t.(now := s.now.(clk := now))
    case WRecord(op, start, got, end) =>
      t.(log := s.log + [Event(w, op, got, start, end)],
         late := if s.stop then s.late[w := s.late[w] + 1] else s.late)
    case WArriveStop => t.(atStop := s.atStop + {w})
    case _ => t
  }

  predicate Enabled(c: Config, s: State, step: Step)
    requires |s.workers| == c.threads
  {
    match step
    case Main(now) => MainEnabled(c, s, now)
    case Work(w, now, _) => WorkEnabled(c, s, w, now)
  }

  function Apply(c: Config, s: State, step: Step): State
    requires |c.table| == SLOTS && |s.workers| == c.threads == |s.late| && Enabled(c, s, step)
  {
    match step
    case Main(now) => MainStep(c, s, now)
    case Work(w, now, res) => WorkStep(c, s, w, now, res)
  }

  // ----- Runs -----

  /** trace is a run from a start state: each state follows from the one before by some enabled step. */
  ghost predicate Run(c: Config, trace: seq<State>) {
    && |c.table| == SLOTS
    && |trace| > 0 && Init(c, trace[0])
    && Steps(c, trace)
  }

  ghost predicate Steps(c: Config, trace: seq<State>)
    requires |c.table| == SLOTS
  {
    forall k :: 0 < k < |trace| ==> Follows(c, trace[k - 1], trace[k])
  }

  ghost predicate Stuck(c: Config, s: State)
    requires |c.table| == SLOTS
  {
    forall t :: !Follows(c, s, t)
  }

  ghost predicate Follows(c: Config, s: State, t: State)
    requires |c.table| == SLOTS
  {
    && |s.workers| == c.threads == |s.late|
    && exists step :: Enabled(c, s, step) && t == Apply(c, s, step)
  }

  // ----- The invariant -----

  ghost predicate Shape(c: Config, s: State) {
    && |c.table| == SLOTS && |s.workers| == c.threads == |s.late|
    && (s.main.MCreate? ==> s.main.next <= c.threads)
    && (s.main.MJoin? ==> s.main.next <= c.threads)
  }

  /** A barrier holds exactly the threads that arrived, and nobody passed before all arrived. Main
      arrives at rank mAt of its program, a worker at rank wAt of its own. */
  ghost predicate BarrierOk(n: nat, arrived: set<nat>, r: nat, workers: seq<Worker>, mAt: nat, wAt: nat)
    requires |workers| == n
  {
    && (forall x :: x in arrived ==> x <= n)
    && (n in arrived <==> r > mAt)
    && (forall w :: 0 <= w < n ==> (w in arrived <==> WRank(workers[w].pc) > wAt))
    && (r > mAt + 1 ==> |arrived| == n + 1)
    && (forall w :: 0 <= w < n && WRank(workers[w].pc) > wAt + 1 ==> |arrived| == n + 1)
  }

  ghost predicate Barriers(c: Config, s: State)
    requires Shape(c, s)
  {
    && BarrierOk(c.threads, s.atStart, MRank(s.main), s.workers, 3, 2)
    && BarrierOk(c.threads, s.atStop, MRank(s.main), s.workers, 10, 9)
  }

  ghost predicate Phases(c: Config, s: State)
    requires Shape(c, s)
  {
    && (s.stop <==> MRank(s.main) > 7)
    && (forall w :: 0 <= w < c.threads ==>
          (s.workers[w].pc == WAbsent <==> s.main.MCreate? && s.main.next <= w))
    && (forall w :: 0 <= w < c.threads && WRank(s.workers[w].pc) >= 9 ==> s.stop)
    && (s.main.MJoin? ==> forall w :: 0 <= w < s.main.next ==> s.workers[w].pc == WExited)
    && (MRank(s.main) > 14 ==> forall w :: 0 <= w < c.threads ==> s.workers[w].pc == WExited)
  }

  /** The readings taken so far are ordered, and every operation lies between the outer two. */
  ghost predicate Clocks(c: Config, s: State)
    requires Shape(c, s)
  {
    var r, n := MRank(s.main), s.window;
    && (r > 1 ==> n.maxStart.clk <= s.now.clk)
    && (r > 5 ==> n.maxStart.clk <= n.minStart.clk <= s.now.clk)
    && (r > 8 ==> n.minStart.clk <= n.minStop.clk <= s.now.clk)
    && (r > 12 ==> n.minStop.clk <= n.maxStop.clk <= s.now.clk)
    && (r > 2 ==> n.maxStart.wall <= s.now.wall)
    && (r > 6 ==> n.maxStart.wall <= n.minStart.wall <= s.now.wall)
    && (r > 9 ==> n.minStart.wall <= n.minStop.wall <= s.now.wall)
    && (r > 13 ==> n.minStop.wall <= n.maxStop.wall <= s.now.wall)
    && (forall w :: 0 <= w < c.threads ==> PcInWindow(s, s.workers[w].pc))
    && (forall k :: 0 <= k < |s.log| ==> EventInWindow(s, s.log[k]))
  }

  ghost predicate PcInWindow(s: State, pc: WorkerPc) {
    match pc
    case WDispatch(_, start) => s.window.maxStart.clk <= start <= s.now.clk
    case WReadEnd(_, start, _) => s.window.maxStart.clk <= start <= s.now.clk
    case WRecord(_, start, _, end) => s.window.maxStart.clk <= start <= end <= s.now.clk
    case _ => true
  }

  ghost predicate EventInWindow(s: State, e: Event) {
    && MRank(s.main) > 3
    && s.window.maxStart.clk <= e.start <= e.end <= s.now.clk
    && (MRank(s.main) > 12 ==> e.end <= s.window.maxStop.clk)
  }

  /** The operations worker w has recorded, in order. */
  function Row(log: seq<Event>, w: nat): seq<Event> {
    if log == [] then []
    else Row(log[..|log| - 1], w) + if log[|log| - 1].tid == w then [log[|log| - 1]] else []
  }

  /** Each worker's row is the table read cyclically from its own start position. */
  ghost predicate Rows(c: Config, s: State)
    requires Shape(c, s)
  {
    && (forall k :: 0 <= k < |s.log| ==> s.log[k].tid < c.threads)
    && forall w :: 0 <= w < c.threads ==> RowOk(c, s, w)
  }

  /** The operations of a row are the table read cyclically from position i on. */
  ghost predicate ReadsTable(table: seq<nat>, row: seq<Event>, i: nat)
    requires |table| == SLOTS
  {
    forall k :: 0 <= k < |row| ==> row[k].op == OpAt(table, i + k)
  }

  ghost predicate RowOk(c: Config, s: State, w: nat)
    requires Shape(c, s) && w < c.threads
  {
    RowFits(c, w, Row(s.log, w), s.workers[w])
  }

  /** A row that belongs to the counter of worker w and to the operation it holds. */
  ghost predicate RowFits(c: Config, w: nat, row: seq<Event>, me: Worker)
    requires |c.table| == SLOTS && w < c.threads
  {
    && (WRank(me.pc) < 2 ==> row == [])
    && (WRank(me.pc) >= 2 ==> me.i == StartPosition(w, c.threads) + |row|)
    && ReadsTable(c.table, row, StartPosition(w, c.threads))
    && (HoldsOp(me.pc) ==> me.pc.op == OpAt(c.table, me.i))
  }

  predicate HoldsOp(pc: WorkerPc) { pc.WDispatch? || pc.WReadEnd? || pc.WRecord? }

  /** After the stop flag is set a worker records at most the operation it was in. */
  ghost predicate Late(c: Config, s: State)
    requires Shape(c, s)
  {
    forall w :: 0 <= w < c.threads ==>
      && s.late[w] + (if InFlight(s.workers[w].pc) then 1 else 0) <= 1
      && (!s.stop ==> s.late[w] == 0)
  }

  ghost predicate Inv(c: Config, s: State) {
    Shape(c, s) && Barriers(c, s) && Phases(c, s) && Clocks(c, s) && Rows(c, s) && Late(c, s)
  }

  /** A barrier that counts threads + 1 arrivals has seen every thread. */
  lemma FullBarrier(arrived: set<nat>, threads: nat)
    requires forall x :: x in arrived ==> x <= threads
    ensures |arrived| <= threads + 1
    ensures |arrived| == threads + 1 <==> forall x :: 0 <= x <= threads ==> x in arrived
  {
    var all := AllIds(threads);
    assert arrived <= all;
    if |arrived| == threads + 1 {
      SubsetOfSameSize(arrived, all);
    } else if forall x :: 0 <= x <= threads ==> x in arrived {
      assert all <= arrived;
      assert all == arrived;
    }
    if |arrived| > threads + 1 { SubsetSize(arrived, all); }
  }

  function AllIds(n: nat): (s: set<nat>)
    ensures |s| == n + 1
    ensures forall x: nat :: x in s <==> x <= n
  {
    if n == 0 then {0} else AllIds(n - 1) + {n}
  }

  lemma {:induction false} SubsetSize(a: set<nat>, b: set<nat>)
    requires a <= b
    ensures |a| <= |b|
  {
    assert b == a + (b - a);
  }

  lemma SubsetOfSameSize(a: set<nat>, b: set<nat>)
    requires a <= b && |a| == |b|
    ensures a == b
  {
    assert b == a + (b - a);
    assert |b - a| == 0;
  }

  // ----- Every step keeps the invariant -----

  lemma InitInv(c: Config, s: State)
    requires |c.table| == SLOTS && Init(c, s)
    ensures Inv(c, s)
  {
  }

  /** What a step of main changes, as far as the workers, the barriers and the flag are concerned. */
  ghost predicate MainMoves(c: Config, s: State, t: State)
    requires Shape(c, s)
  {
    MainAdvances(c, s, t) && MainWrites(c, s, t)
  }

  ghost predicate MainAdvances(c: Config, s: State, t: State)
    requires Shape(c, s)
  {
    var n, r := c.threads, MRank(s.main);
    && (r == 0 ==> t.main == if s.main.next < n then MCreate(s.main.next + 1) else MMaxStartClk)
    && (r == 14 ==> t.main == if s.main.next < n then MJoin(s.main.next + 1) else MConclude)
    && (r == 14 && s.main.next < n ==> s.workers[s.main.next].pc == WExited)
    && (r == 13 ==> t.main == MJoin(0))
    && (r != 0 && r != 14 ==> MRank(t.main) == r + 1)
    && (r == 4 ==> |s.atStart| == n + 1)
    && (r == 11 ==> |s.atStop| == n + 1)
  }

  ghost predicate MainWrites(c: Config, s: State, t: State)
    requires Shape(c, s)
  {
    var n, r := c.threads, MRank(s.main);
    && |t.workers| == n && t.log == s.log && t.late == s.late
    && t.workers == (if r == 0 && s.main.next < n then s.workers[s.main.next := Worker(WRegister, 0)] else s.workers)
    && t.stop == (s.stop || r == 7)
    && t.atStart == (if r == 3 then s.atStart + {n} else s.atStart)
    && t.atStop == (if r == 10 then s.atStop + {n} else s.atStop)
  }

  lemma MainStepAdvances(c: Config, s: State, now: nat)
    requires Shape(c, s) && MainEnabled(c, s, now)
    ensures MainAdvances(c, s, MainStep(c, s, now))
  {
  }

  lemma MainStepWrites(c: Config, s: State, now: nat)
    requires Shape(c, s) && MainEnabled(c, s, now)
    ensures MainWrites(c, s, MainStep(c, s, now)) && Shape(c, MainStep(c, s, now))
  {
    match s.main
    case MCreate(_) =>
    case MArriveStart =>
    case MSetStop =>
    case MArriveStop =>
    case _ =>
  }

  lemma MainStepMoves(c: Config, s: State, now: nat)
    requires Shape(c, s) && MainEnabled(c, s, now)
    ensures MainMoves(c, s, MainStep(c, s, now)) && Shape(c, MainStep(c, s, now))
  {
    MainStepAdvances(c, s, now);
    MainStepWrites(c, s, now);
  }

  /** What a step of worker w changes. */
  ghost predicate WorkMoves(c: Config, s: State, w: nat, t: State)
    requires Shape(c, s)
  {
    WorkAdvances(c, s, w, t) && WorkWrites(c, s, w, t)
  }

  ghost predicate WorkAdvances(c: Config, s: State, w: nat, t: State)
    requires Shape(c, s)
  {
    && w < c.threads && |t.workers| == c.threads
    && t.workers == s.workers[w := t.workers[w]]
    && t.main == s.main && t.stop == s.stop && t.window == s.window
    && s.now.clk <= t.now.clk && s.now.wall == t.now.wall
    && var r, r' := WRank(s.workers[w].pc), WRank(t.workers[w].pc);
    && 0 < r < 12
    && r' == (if r == 4 && s.stop then 9 else if r == 8 then 4 else r + 1)
    && (r == 3 ==> |s.atStart| == c.threads + 1)
    && (r == 10 ==> |s.atStop| == c.threads + 1)
  }

  ghost predicate WorkWrites(c: Config, s: State, w: nat, t: State)
    requires Shape(c, s)
  {
    && w < c.threads
    && var r := WRank(s.workers[w].pc);
    && t.atStart == (if r == 2 then s.atStart + {w} else s.atStart)
    && t.atStop == (if r == 9 then s.atStop + {w} else s.atStop)
    && t.late == (if r == 8 && s.stop then s.late[w := s.late[w] + 1] else s.late)
    && |t.log| == |s.log| + (if r == 8 then 1 else 0)
    && (if r == 8 then t.log == s.log + [t.log[|s.log|]] && t.log[|s.log|].tid == w else t.log == s.log)
  }

  lemma WorkStepMoves(c: Config, s: State, w: nat, now: nat, res: OpResult)
    requires Shape(c, s) && WorkEnabled(c, s, w, now)
    ensures WorkMoves(c, s, w, WorkStep(c, s, w, now, res)) && Shape(c, WorkStep(c, s, w, now, res))
  {
    WorkStepAdvances(c, s, w, now, res);
    WorkStepWrites(c, s, w, now, res);
  }

  lemma WorkStepAdvances(c: Config, s: State, w: nat, now: nat, res: OpResult)
    requires Shape(c, s) && WorkEnabled(c, s, w, now)
    ensures WorkAdvances(c, s, w, WorkStep(c, s, w, now, res)) && Shape(c, WorkStep(c, s, w, now, res))
  {
    AdvanceRank(c, w, s.workers[w], s.stop, now, res);
  }

  lemma AdvanceRank(c: Config, w: nat, me: Worker, stop: bool, now: nat, res: OpResult)
    requires |c.table| == SLOTS && w < c.threads && Runs(me.pc)
    ensures var r, r' := WRank(me.pc), WRank(Advance(c, w, me, stop, now, res).pc);
            0 < r < 12 && r' == if r == 4 && stop then 9 else if r == 8 then 4 else r + 1
  {
  }

  lemma WorkStepWrites(c: Config, s: State, w: nat, now: nat, res: OpResult)
    requires Shape(c, s) && WorkEnabled(c, s, w, now)
    ensures WorkWrites(c, s, w, WorkStep(c, s, w, now, res))
  {
    match s.workers[w].pc
    case WRecord(_, _, _, _) =>
    case WArriveStart =>
    case WArriveStop =>
    case _ =>
  }

  /** Thread x arriving keeps a barrier in order. */
  lemma Arrive(n: nat, arrived: set<nat>, r: nat, ws: seq<Worker>, r': nat, ws': seq<Worker>, mAt: nat, wAt: nat, x: nat)
    requires |ws| == |ws'| == n && BarrierOk(n, arrived, r, ws, mAt, wAt)
    requires x <= n && x !in arrived
    requires if x == n then r' == mAt + 1 && ws' == ws
             else r' == r && ws' == ws[x := ws'[x]] && WRank(ws'[x].pc) == wAt + 1
    ensures BarrierOk(n, arrived + {x}, r', ws', mAt, wAt)
  {
    FullBarrier(arrived, n);
  }

  lemma MainKeepsBarriers(c: Config, s: State, t: State)
    requires Inv(c, s) && Shape(c, t) && MainMoves(c, s, t)
    ensures Barriers(c, t)
  {
    var n, r := c.threads, MRank(s.main);
    if r == 3 { Arrive(n, s.atStart, r, s.workers, r + 1, t.workers, 3, 2, n); }
    if r == 10 { Arrive(n, s.atStop, r, s.workers, r + 1, t.workers, 10, 9, n); }
  }

  lemma MainKeepsPhases(c: Config, s: State, t: State)
    requires Shape(c, s) && Phases(c, s) && Shape(c, t) && MainMoves(c, s, t)
    ensures Phases(c, t)
  {
    var r := MRank(s.main);
    if r == 0 {
      forall w | 0 <= w < c.threads
        ensures t.workers[w].pc == WAbsent <==> t.main.MCreate? && t.main.next <= w
        ensures WRank(t.workers[w].pc) < 9
      {
        assert s.workers[w].pc == WAbsent <==> s.main.next <= w;
      }
    } else {
      assert t.workers == s.workers;
    }
  }

  lemma MainKeepsLate(c: Config, s: State, t: State)
    requires Inv(c, s) && Shape(c, t) && MainMoves(c, s, t)
    ensures Late(c, t)
  {
    if MRank(s.main) != 0 { assert t.workers == s.workers; }
  }

  /** A worker inside the loop keeps main between the two outer readings. */
  lemma InFlightInWindow(c: Config, s: State, w: nat)
    requires Inv(c, s) && w < c.threads && InFlight(s.workers[w].pc)
    ensures 3 < MRank(s.main) <= 11
  {
    FullBarrier(s.atStart, c.threads);
    FullBarrier(s.atStop, c.threads);
  }

  lemma MainKeepsClocks(c: Config, s: State, now: nat)
    requires Inv(c, s) && MainEnabled(c, s, now)
    ensures Shape(c, MainStep(c, s, now)) && Clocks(c, MainStep(c, s, now))
  {
    var t := MainStep(c, s, now);
    MainStepMoves(c, s, now);
    forall w | 0 <= w < c.threads ensures PcInWindow(t, t.workers[w].pc) {
      assert PcInWindow(s, s.workers[w].pc);
      if InFlight(s.workers[w].pc) { InFlightInWindow(c, s, w); }
    }
    forall k | 0 <= k < |t.log| ensures EventInWindow(t, t.log[k]) {
      assert EventInWindow(s, s.log[k]);
    }
  }

  lemma MainKeepsRows(c: Config, s: State, t: State)
    requires Inv(c, s) && Shape(c, t) && MainMoves(c, s, t)
    ensures Rows(c, t)
  {
    forall w | 0 <= w < c.threads ensures RowOk(c, t, w) {
      assert RowOk(c, s, w);
    }
  }

  lemma WorkKeepsBarriers(c: Config, s: State, w: nat, t: State)
    requires Inv(c, s) && Shape(c, t) && WorkMoves(c, s, w, t)
    ensures Barriers(c, t)
  {
    var n, r, wr := c.threads, MRank(s.main), WRank(s.workers[w].pc);
    if wr == 2 { Arrive(n, s.atStart, r, s.workers, r, t.workers, 3, 2, w); }
    if wr == 9 { Arrive(n, s.atStop, r, s.workers, r, t.workers, 10, 9, w); }
  }

  lemma WorkKeepsPhases(c: Config, s: State, w: nat, t: State)
    requires Inv(c, s) && Shape(c, t) && WorkMoves(c, s, w, t)
    ensures Phases(c, t) && Late(c, t)
  {
  }

  lemma WorkKeepsClocks(c: Config, s: State, w: nat, now: nat, res: OpResult)
    requires Inv(c, s) && WorkEnabled(c, s, w, now)
    ensures Shape(c, WorkStep(c, s, w, now, res)) && Clocks(c, WorkStep(c, s, w, now, res))
  {
    var t := WorkStep(c, s, w, now, res);
    WorkStepMoves(c, s, w, now, res);
    if InFlight(s.workers[w].pc) { InFlightInWindow(c, s, w); }
    forall v | 0 <= v < c.threads ensures PcInWindow(t, t.workers[v].pc) {
      assert PcInWindow(s, s.workers[v].pc);
    }
    forall k | 0 <= k < |t.log| ensures EventInWindow(t, t.log[k]) {
      if k < |s.log| { assert EventInWindow(s, s.log[k]); } else { assert PcInWindow(s, s.workers[w].pc); }
    }
  }

  lemma RowAppend(log: seq<Event>, e: Event, w: nat)
    ensures Row(log + [e], w) == Row(log, w) + if e.tid == w then [e] else []
  {
    assert (log + [e])[..|log|] == log;
  }

  lemma WorkKeepsRows(c: Config, s: State, w: nat, now: nat, res: OpResult)
    requires Inv(c, s) && WorkEnabled(c, s, w, now)
    ensures Shape(c, WorkStep(c, s, w, now, res)) && Rows(c, WorkStep(c, s, w, now, res))
  {
    var t := WorkStep(c, s, w, now, res);
    WorkStepMoves(c, s, w, now, res);
    forall v | 0 <= v < c.threads ensures RowOk(c, t, v) {
      assert RowOk(c, s, v);
      if v == w {
        OwnRow(c, s, w, now, res);
        OwnRowFits(c, w, Row(s.log, w), s.workers[w], s.stop, now, res);
      } else {
        OtherRowOk(c, s, w, t, v);
      }
    }
  }

  lemma ReadsOneMore(table: seq<nat>, row: seq<Event>, i: nat, e: Event)
    requires |table| == SLOTS && ReadsTable(table, row, i) && e.op == OpAt(table, i + |row|)
    ensures ReadsTable(table, row + [e], i)
  {
  }

  /** What a worker records in its next step. */
  function Recorded(w: nat, pc: WorkerPc): seq<Event> {
    if pc.WRecord? then [Event(w, pc.op, pc.res, pc.start, pc.end)] else []
  }

  /** A step of worker w keeps its row fitting, with the event it records. */
  lemma OwnRowFits(c: Config, w: nat, row: seq<Event>, me: Worker, stop: bool, now: nat, res: OpResult)
    requires |c.table| == SLOTS && w < c.threads && Runs(me.pc) && RowFits(c, w, row, me)
    ensures RowFits(c, w, row + Recorded(w, me.pc), Advance(c, w, me, stop, now, res))
  {
    if me.pc.WRecord? {
      ReadsOneMore(c.table, row, StartPosition(w, c.threads), Event(w, me.pc.op, me.pc.res, me.pc.start, me.pc.end));
    } else {
      assert row + Recorded(w, me.pc) == row;
    }
  }

  lemma OwnRow(c: Config, s: State, w: nat, now: nat, res: OpResult)
    requires Shape(c, s) && WorkEnabled(c, s, w, now)
    ensures Row(WorkStep(c, s, w, now, res).log, w) == Row(s.log, w) + Recorded(w, s.workers[w].pc)
  {
    var pc := s.workers[w].pc;
    if pc.WRecord? {
      RowAppend(s.log, Event(w, pc.op, pc.res, pc.start, pc.end), w);
    } else {
      assert Row(s.log, w) + Recorded(w, pc) == Row(s.log, w);
    }
  }

  lemma OtherRowOk(c: Config, s: State, w: nat, t: State, v: nat)
    requires Shape(c, s) && Shape(c, t) && WorkMoves(c, s, w, t) && v < c.threads && v != w && RowOk(c, s, v)
    ensures Row(t.log, v) == Row(s.log, v) && RowOk(c, t, v)
  {
    if |t.log| > |s.log| { RowAppend(s.log, t.log[|s.log|], v); }
  }

  lemma StepKeepsInv(c: Config, s: State, step: Step)
    requires Inv(c, s) && Enabled(c, s, step)
    ensures Inv(c, Apply(c, s, step))
  {
    var t := Apply(c, s, step);
    match step
    case Main(now) =>
      MainStepMoves(c, s, now);
      MainKeepsBarriers(c, s, t);
      MainKeepsPhases(c, s, t);
      MainKeepsLate(c, s, t);
      MainKeepsClocks(c, s, now);
      MainKeepsRows(c, s, t);
    case Work(w, now, res) =>
      WorkStepMoves(c, s, w, now, res);
      WorkKeepsBarriers(c, s, w, t);
      WorkKeepsPhases(c, s, w, t);
      WorkKeepsClocks(c, s, w, now, res);
      WorkKeepsRows(c, s, w, now, res);
  }

  // ----- Safety over whole runs -----

  lemma StepAt(c: Config, trace: seq<State>, k: nat) returns (step: Step)
    requires Run(c, trace) && 0 < k < |trace|
    ensures Inv(c, trace[k - 1]) && Enabled(c, trace[k - 1], step) && trace[k] == Apply(c, trace[k - 1], step)
  {
    RunInv(c, trace, k - 1);
    assert Follows(c, trace[k - 1], trace[k]);
    step :| Enabled(c, trace[k - 1], step) && trace[k] == Apply(c, trace[k - 1], step);
  }

  lemma {:induction false} RunInv(c: Config, trace: seq<State>, k: nat)
    requires Run(c, trace) && k < |trace|
    ensures Inv(c, trace[k])
  {
    if k == 0 {
      InitInv(c, trace[0]);
    } else {
      RunInv(c, trace, k - 1);
      assert Follows(c, trace[k - 1], trace[k]);
      var step :| Enabled(c, trace[k - 1], step) && trace[k] == Apply(c, trace[k - 1], step);
      StepKeepsInv(c, trace[k - 1], step);
    }
  }

  /** In every state of every run, each recorded operation started after the first reading of main and,
      once the last reading is taken, ended before it; and the four readings of each clock are nested. */
  lemma RunIsMeasured(c: Config, trace: seq<State>, k: nat)
    requires Run(c, trace) && k < |trace|
    ensures var s := trace[k];
            && (forall e :: e in s.log ==> s.window.maxStart.clk <= e.start <= e.end)
            && (MRank(s.main) > 12 ==> forall e :: e in s.log ==> e.end <= s.window.maxStop.clk)
            && (MRank(s.main) > 13 ==>
                  && s.window.maxStart.clk <= s.window.minStart.clk <= s.window.minStop.clk <= s.window.maxStop.clk
                  && s.window.maxStart.wall <= s.window.minStart.wall <= s.window.minStop.wall <= s.window.maxStop.wall)
  {
    RunInv(c, trace, k);
    var s := trace[k];
    forall e | e in s.log ensures EventInWindow(s, e) {
      var j :| 0 <= j < |s.log| && s.log[j] == e;
      assert EventInWindow(s, s.log[j]);
    }
  }

  /** A worker step that picks, dispatches or records an operation happens after main took its first
      reading and before it takes its last one; and it extends the log of its own worker only. */
  lemma OperationsInsideWindow(c: Config, trace: seq<State>, k: nat, w: nat, now: nat, res: OpResult)
    requires Run(c, trace) && k < |trace|
    requires |trace[k].workers| == c.threads == |trace[k].late| && WorkEnabled(c, trace[k], w, now)
    requires InFlight(trace[k].workers[w].pc)
    ensures MRank(MMaxStartClk) < MRank(trace[k].main) < MRank(MMaxStopClk)
    ensures forall v: nat :: v != w ==> Row(WorkStep(c, trace[k], w, now, res).log, v) == Row(trace[k].log, v)
    ensures Row(trace[k].log, w) <= Row(WorkStep(c, trace[k], w, now, res).log, w)
  {
    RunInv(c, trace, k);
    InFlightInWindow(c, trace[k], w);
    var t := WorkStep(c, trace[k], w, now, res);
    if t.log != trace[k].log {
      forall v: nat { RowAppend(trace[k].log, t.log[|trace[k].log|], v); }
    }
  }

  /** `bm_phase_conclude` runs only after every worker has deregistered and left. */
  lemma ConcludeAfterAllLeft(c: Config, trace: seq<State>, k: nat)
    requires Run(c, trace) && k < |trace| && trace[k].main in {MConclude, MDone}
    ensures |trace[k].workers| == c.threads
    ensures forall w :: 0 <= w < c.threads ==> trace[k].workers[w].pc == WExited
  {
    RunInv(c, trace, k);
  }

  /** Once the flag is set, a worker records at most one more operation. */
  lemma AtMostOneLate(c: Config, trace: seq<State>, j: nat, k: nat, w: nat)
    requires Run(c, trace) && j <= k < |trace| && trace[j].stop && w < c.threads
    ensures |Row(trace[k].log, w)| <= |Row(trace[j].log, w)| + 1
  {
    LateCountsRecords(c, trace, j, k, w);
    RunInv(c, trace, k);
  }

  lemma {:induction false} LateCountsRecords(c: Config, trace: seq<State>, j: nat, k: nat, w: nat)
    requires Run(c, trace) && j <= k < |trace| && trace[j].stop && w < c.threads
    ensures Shape(c, trace[j]) && Shape(c, trace[k]) && trace[k].stop
    ensures Unlogged(c, trace[k], w) == Unlogged(c, trace[j], w)
    decreases k
  {
    if j == k {
      RunInv(c, trace, k);
    } else {
      LateCountsRecords(c, trace, j, k - 1, w);
      AfterStop(c, trace, k, w);
    }
  }

  /** The records of w that are not counted as late. */
  function Unlogged(c: Config, s: State, w: nat): int
    requires Shape(c, s) && w < c.threads
  {
    |Row(s.log, w)| - s.late[w]
  }

  lemma AfterStop(c: Config, trace: seq<State>, k: nat, w: nat)
    requires Run(c, trace) && 0 < k < |trace| && trace[k - 1].stop && w < c.threads
    ensures Shape(c, trace[k - 1]) && Shape(c, trace[k]) && trace[k].stop
    ensures Unlogged(c, trace[k], w) == Unlogged(c, trace[k - 1], w)
  {
    var step := StepAt(c, trace, k);
    LateStep(c, trace[k - 1], step, w);
  }

  lemma LateStep(c: Config, s: State, step: Step, w: nat)
    requires Shape(c, s) && Enabled(c, s, step) && s.stop && w < c.threads
    ensures var t := Apply(c, s, step);
            t.stop && Shape(c, t) && Unlogged(c, t, w) == Unlogged(c, s, w)
  {
    match step
    case Main(now) => MainStepMoves(c, s, now);
    case Work(v, now, res) =>
      WorkStepMoves(c, s, v, now, res);
      var t := Apply(c, s, step);
      if |t.log| > |s.log| { RowAppend(s.log, t.log[|s.log|], w); }
  }

  /** In every state of a run, worker w has run every operation within one turn of its share of the table. */
  lemma RunKeepsDistribution(c: Config, trace: seq<State>, k: nat, w: nat, op: nat)
    requires Run(c, trace) && k < |trace| && w < c.threads
    ensures var row, share := Row(trace[k].log, w), Count(c.table, op);
            && Times(share, |row| / SLOTS) <= OpCount(row, op) <= Times(share, (|row| + SLOTS - 1) / SLOTS)
            && (|row| % SLOTS == 0 ==> OpCount(row, op) == Times(share, |row| / SLOTS))
  {
    RunInv(c, trace, k);
    var row, i := Row(trace[k].log, w), StartPosition(w, c.threads);
    assert RowOk(c, trace[k], w);
    RowIsCyclic(c, row, i, op);
    FairShare(c.table, i, |row|, op);
  }

  function OpCount(row: seq<Event>, op: nat): nat {
    if row == [] then 0 else OpCount(row[..|row| - 1], op) + if row[|row| - 1].op == op then 1 else 0
  }

  lemma {:induction false} RowIsCyclic(c: Config, row: seq<Event>, i: nat, op: nat)
    requires |c.table| == SLOTS && ReadsTable(c.table, row, i)
    ensures OpCount(row, op) == CyclicCount(c.table, i, |row|, op)
  {
    if row != [] {
      RowIsCyclic(c, row[..|row| - 1], i, op);
      OpAtIsCyclic(c.table, i + |row| - 1);
    }
  }

  // ----- Progress -----

  /** Steps main still has to take, and steps a worker has to take from here once the flag is set. */
  function MainLeft(c: Config, pc: MainPc): nat
    requires pc.MCreate? || pc.MJoin? ==> pc.next <= c.threads
  {
    match pc
    case MCreate(next) => (c.threads - next) + c.threads + 16
    case MJoin(next) => (c.threads - next) + 2
    case MConclude => 1
    case MDone => 0
    case _ => c.threads + 16 - MRank(pc)
  }

  function WorkLeft(pc: WorkerPc): (n: nat)
    ensures n <= 8
  {
    var r := WRank(pc);
    if r <= 3 then 8 - r else if r == 4 then 4 else if r <= 8 then 13 - r else 12 - r
  }

  function AllWorkLeft(ws: seq<Worker>): (n: nat)
    ensures n <= 8 * |ws|
  {
    if ws == [] then 0 else AllWorkLeft(ws[..|ws| - 1]) + WorkLeft(ws[|ws| - 1].pc)
  }

  function Left(c: Config, s: State): nat
    requires Shape(c, s)
  {
    MainLeft(c, s.main) + AllWorkLeft(s.workers)
  }

  lemma {:induction false} AllWorkLeftUpdate(ws: seq<Worker>, w: nat, me: Worker)
    requires w < |ws|
    ensures AllWorkLeft(ws[w := me]) == AllWorkLeft(ws) - WorkLeft(ws[w].pc) + WorkLeft(me.pc)
  {
    var n := |ws| - 1;
    if w == n {
      assert ws[w := me][..n] == ws[..n];
    } else {
      assert ws[w := me][..n] == ws[..n][w := me];
      AllWorkLeftUpdate(ws[..n], w, me);
    }
  }

  /** Every step of main is progress, and so is every worker step outside the loop or after the stop flag. */
  lemma StepIsProgress(c: Config, s: State, step: Step)
    requires Inv(c, s) && Enabled(c, s, step)
    requires step.Work? && !s.stop ==> WRank(s.workers[step.w].pc) != 4 && WRank(s.workers[step.w].pc) != 8
    ensures Left(c, Apply(c, s, step)) < Left(c, s)
    ensures s.stop ==> Apply(c, s, step).stop
  {
    match step
    case Main(now) =>
      MainStepMoves(c, s, now);
      MainIsProgress(c, s, MainStep(c, s, now));
    case Work(w, now, res) =>
      WorkStepMoves(c, s, w, now, res);
      AllWorkLeftUpdate(s.workers, w, WorkStep(c, s, w, now, res).workers[w]);
  }

  lemma MainIsProgress(c: Config, s: State, t: State)
    requires Shape(c, s) && Phases(c, s) && Shape(c, t) && MainMoves(c, s, t) && s.main != MDone
    ensures Left(c, t) < Left(c, s)
  {
    if MRank(s.main) == 0 && s.main.next < c.threads {
      AllWorkLeftUpdate(s.workers, s.main.next, Worker(WRegister, 0));
    }
  }

  /** No deadlock: a run that has not ended always has an enabled step, and one that is progress. */
  lemma SomeStepIsProgress(c: Config, s: State) returns (step: Step)
    requires Inv(c, s) && s.main != MDone
    ensures Enabled(c, s, step) && Left(c, Apply(c, s, step)) < Left(c, s)
  {
    var now := s.now.clk + s.now.wall;
    if MainEnabled(c, s, now) {
      step := Main(now);
    } else {
      var w := Awaited(c, s);
      step := Work(w, now, OpResult(0, 0));
    }
    StepIsProgress(c, s, step);
  }

  /** When main waits, some worker it waits for can move, and is past the loop if the flag is not set. */
  lemma Awaited(c: Config, s: State) returns (w: nat)
    requires Inv(c, s) && s.main != MDone && !MainEnabled(c, s, s.now.clk + s.now.wall)
    ensures WorkEnabled(c, s, w, s.now.clk + s.now.wall)
    ensures !s.stop ==> WRank(s.workers[w].pc) < 3
  {
    FullBarrier(s.atStart, c.threads);
    FullBarrier(s.atStop, c.threads);
    if s.main == MPassStart {
      w :| 0 <= w <= c.threads && w !in s.atStart;
    } else if s.main == MPassStop {
      w :| 0 <= w <= c.threads && w !in s.atStop;
    } else {
      w := s.main.next;
    }
  }

  /** From every reachable state some continuation ends the program. */
  lemma {:induction false} CanFinish(c: Config, s: State) returns (rest: seq<State>)
    requires Inv(c, s)
    ensures |rest| > 0 && rest[0] == s && Steps(c, rest) && rest[|rest| - 1].main == MDone
    decreases Left(c, s)
  {
    if s.main == MDone {
      rest := [s];
    } else {
      var t := SomeProgress(c, s);
      var tail := CanFinish(c, t);
      rest := [s] + tail;
      StepsBefore(c, s, tail);
    }
  }

  lemma SomeProgress(c: Config, s: State) returns (t: State)
    requires Inv(c, s) && s.main != MDone
    ensures Inv(c, t) && Follows(c, s, t) && Left(c, t) < Left(c, s)
  {
    var step := SomeStepIsProgress(c, s);
    t := Apply(c, s, step);
    StepKeepsInv(c, s, step);
  }

  lemma StepsBefore(c: Config, s: State, tail: seq<State>)
    requires |c.table| == SLOTS && Steps(c, tail) && |tail| > 0 && Follows(c, s, tail[0])
    ensures Steps(c, [s] + tail)
  {
    var rest := [s] + tail;
    forall k | 0 < k < |rest| ensures Follows(c, rest[k - 1], rest[k]) {
      if k > 1 { assert Follows(c, tail[k - 2], tail[k - 1]); }
    }
  }

  /** Every run can be completed, and a run that cannot be continued has ended with all workers gone. */
  lemma RunsCanFinish(c: Config, trace: seq<State>) returns (rest: seq<State>)
    requires Run(c, trace)
    ensures Run(c, trace + rest) && (trace + rest)[|trace + rest| - 1].main == MDone
    ensures Stuck(c, trace[|trace| - 1]) ==> trace[|trace| - 1].main == MDone
  {
    var last := trace[|trace| - 1];
    RunInv(c, trace, |trace| - 1);
    var more := CanFinish(c, last);
    rest := more[1..];
    forall k | 0 < k < |trace + rest| ensures Follows(c, (trace + rest)[k - 1], (trace + rest)[k]) {
      if k < |trace| {
        assert Follows(c, trace[k - 1], trace[k]);
      } else {
        assert Follows(c, more[k - |trace|], more[k - |trace| + 1]);
      }
    }
    if last.main != MDone {
      var step := SomeStepIsProgress(c, last);
      assert Follows(c, last, Apply(c, last, step));
    }
  }

  /** Once the flag is set, every schedule ends: at most 9 N + 8 steps remain, whoever takes them. */
  lemma StopEndsEveryRun(c: Config, trace: seq<State>, j: nat)
    requires Run(c, trace) && j < |trace| && trace[j].stop
    ensures |trace| - 1 - j <= 9 * c.threads + 8
  {
    RunInv(c, trace, j);
    LeftDecreases(c, trace, j, |trace| - 1);
  }

  lemma StepAfterStop(c: Config, trace: seq<State>, k: nat)
    requires Run(c, trace) && 0 < k < |trace| && trace[k - 1].stop
    ensures Shape(c, trace[k - 1]) && Shape(c, trace[k]) && trace[k].stop
    ensures Left(c, trace[k]) < Left(c, trace[k - 1])
  {
    var step := StepAt(c, trace, k);
    StepKeepsInv(c, trace[k - 1], step);
    StepIsProgress(c, trace[k - 1], step);
  }

  lemma {:induction false} LeftDecreases(c: Config, trace: seq<State>, j: nat, k: nat)
    requires Run(c, trace) && j <= k < |trace| && trace[j].stop
    ensures trace[k].stop && Shape(c, trace[j]) && Shape(c, trace[k])
    ensures Left(c, trace[k]) <= Left(c, trace[j]) - (k - j)
    decreases k
  {
    if j == k {
      RunInv(c, trace, k);
    } else {
      LeftDecreases(c, trace, j, k - 1);
      StepAfterStop(c, trace, k);
    }
  }
}
