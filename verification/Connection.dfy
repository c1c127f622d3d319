/** The per-connection state machines of `server.c` and `client.c`: a position in the operation program,
    the epoll interest that goes with it, and the number of live connections of the client.

    Events and the results of send and recv are inputs. The asserts of the source appear as assert
    statements in the methods. */
module Connection {
  import opened Arithmetic
  import opened Bits
  import opened OpProgram
  import opened Seqs
  import opened Text

  // ----- Positions in a repeated program -----

  /** The current operation and how often it has been done. */
  datatype Pos = Pos(step: nat, n: nat)

  /** Where the calls have led: with an empty program, moving to the next operation takes a remainder by 0. */
  datatype Walk = At(pos: Pos) | RemainderByZero

  /** The entry of the table at a step: the static table holds zeros behind the program. */
  function Current(ops: seq<Op>, step: nat): (op: Op)
    ensures step < |ops| ==> op == ops[step]
  {
    if step < |ops| then ops[step] else Op(0, 0, false)
  }

  /** A position in the program; the empty program knows only step 0. */
  predicate InProgram(ops: seq<Op>, step: nat) { if ops == [] then step == 0 else step < |ops| }

  /** The first call of the operation behind a step. */
  function NextOp(ops: seq<Op>, step: nat): (w: Walk)
    ensures w.At? ==> InProgram(ops, w.pos.step)
  {
    if ops == [] then RemainderByZero else At(Pos((step + 1) % |ops|, 0))
  }

  /** `advance_step` of the server: the counter is a 64-bit integer and compared for equality. */
  function ServerNext(ops: seq<Op>, p: Pos): (w: Walk)
    requires InProgram(ops, p.step)
    ensures w.At? ==> InProgram(ops, w.pos.step)
  {
    var n := Wrap64(p.n + 1);
    if n == Current(ops, p.step).n then NextOp(ops, p.step) else At(Pos(p.step, n))
  }

  /** `advance_step` of the client: the counter is compared with >=. */
  function ClientNext(ops: seq<Op>, p: Pos): (w: Walk)
    requires InProgram(ops, p.step)
    ensures w.At? ==> InProgram(ops, w.pos.step)
  {
    var n := Wrap64(p.n + 1);
    if n >= Current(ops, p.step).n then NextOp(ops, p.step) else At(Pos(p.step, n))
  }

  /** Where k calls lead. */
  function ServerAt(ops: seq<Op>, k: nat): (w: Walk)
    ensures w.At? ==> InProgram(ops, w.pos.step)
    ensures ops != [] ==> w.At?
  {
    if k == 0 then At(Pos(0, 0))
    else
      var before := ServerAt(ops, k - 1);
      if before.RemainderByZero? then before else ServerNext(ops, before.pos)
  }

  function ClientAt(ops: seq<Op>, k: nat): (w: Walk)
    ensures w.At? ==> InProgram(ops, w.pos.step)
    ensures ops != [] ==> w.At?
  {
    if k == 0 then At(Pos(0, 0))
    else
      var before := ClientAt(ops, k - 1);
      if before.RemainderByZero? then before else ClientNext(ops, before.pos)
  }

  /** How often the server really repeats each operation: a count of 0 is met when the counter wraps. */
  function ServerCounts(ops: seq<Op>): (c: seq<nat>)
    ensures |c| == |ops|
  {
    seq(|ops|, i requires 0 <= i < |ops| => if ops[i].n == 0 then TWO64 else ops[i].n)
  }

  /** How often the client repeats each operation: a count of 0 counts as 1. */
  function ClientCounts(ops: seq<Op>): (c: seq<nat>)
    ensures |c| == |ops|
  {
    seq(|ops|, i requires 0 <= i < |ops| => if ops[i].n == 0 then 1 else ops[i].n)
  }

  /** What parsing yields: counts are 64-bit integers. */
  ghost predicate Program(ops: seq<Op>) {
    forall i :: 0 <= i < |ops| ==> ops[i].n <= U64_MAX
  }

  ghost predicate Runnable(ops: seq<Op>) { ops != [] && Program(ops) }

  /** Every text that parses is a program, and it is a runnable one exactly when the text is not empty. */
  lemma ParsedIsProgram(s: string)
    ensures match Parse(s, 0, CAPACITY)
            case Error(_) => true
            case Ops(ops) => Program(ops) && (Runnable(ops) <==> s != "")
  {
    ParsedIs(s, 0, CAPACITY);
  }

  /** Position p is number k of the program in which operation i is repeated counts[i] times, read cyclically. */
  ghost predicate IsPlace(counts: seq<nat>, p: Pos, k: nat) {
    && p.step < |counts| && p.n < counts[p.step]
    && Sum(counts) > 0
    && Sum(counts[..p.step]) + p.n == k % Sum(counts)
  }

  lemma PlaceIsUnique(counts: seq<nat>, p: Pos, q: Pos, k: nat)
    requires IsPlace(counts, p, k) && IsPlace(counts, q, k)
    ensures p == q
  {
    if p.step < q.step {
      SumStep(counts, p.step);
      SumPrefix(counts, p.step + 1, q.step);
    } else if q.step < p.step {
      SumStep(counts, q.step);
      SumPrefix(counts, q.step + 1, p.step);
    }
  }

  /** Taking one more call moves from place k to place k + 1. */
  lemma NextPlace(counts: seq<nat>, p: Pos, k: nat)
    requires IsPlace(counts, p, k) && forall i :: 0 <= i < |counts| ==> counts[i] > 0
    ensures IsPlace(counts, if p.n + 1 == counts[p.step] then Pos((p.step + 1) % |counts|, 0) else Pos(p.step, p.n + 1), k + 1)
  {
    var t := Sum(counts);
    SumStep(counts, p.step);
    assert counts[..|counts|] == counts;
    SumPrefix(counts, p.step + 1, |counts|);
    DivMod(k, t);
    if p.step + 1 == |counts| && p.n + 1 == counts[p.step] {
      ModUnique(|counts|, |counts|, 1, 0);
      assert (k / t + 1) * t == (k / t) * t + t;
      ModUnique(k + 1, t, k / t + 1, 0);
    } else {
      if p.n + 1 == counts[p.step] {
        SmallMod(p.step + 1, |counts|);
        SumStep(counts, p.step + 1);
        SumPrefix(counts, p.step + 2, |counts|);
      }
      ModUnique(k + 1, t, k / t, k % t + 1);
    }
  }

  lemma FirstPlace(counts: seq<nat>)
    requires counts != [] && forall i :: 0 <= i < |counts| ==> counts[i] > 0
    ensures IsPlace(counts, Pos(0, 0), 0)
  {
    SumStep(counts, 0);
    assert counts[..|counts|] == counts;
    SumPrefix(counts, 1, |counts|);
    SmallMod(0, Sum(counts));
  }

  lemma ServerMoves(ops: seq<Op>, p: Pos, k: nat)
    requires Runnable(ops) && IsPlace(ServerCounts(ops), p, k)
    ensures ServerNext(ops, p).At? && IsPlace(ServerCounts(ops), ServerNext(ops, p).pos, k + 1)
  {
    NextPlace(ServerCounts(ops), p, k);
  }

  /** After k calls the server is at place k of its repeated program; with the empty program its counter has to wrap
      before it divides by 0. */
  lemma {:induction false} ServerPlace(ops: seq<Op>, k: nat)
    requires Program(ops)
    ensures if ops == [] then ServerAt(ops, k) == if k <= U64_MAX then At(Pos(0, k)) else RemainderByZero
            else IsPlace(ServerCounts(ops), ServerAt(ops, k).pos, k)
  {
    var counts := ServerCounts(ops);
    if k == 0 {
      if ops != [] { FirstPlace(counts); }
    } else {
      ServerPlace(ops, k - 1);
      if ops != [] { ServerMoves(ops, ServerAt(ops, k - 1).pos, k - 1); }
    }
  }

  lemma ClientMoves(ops: seq<Op>, p: Pos, k: nat)
    requires Runnable(ops) && IsPlace(ClientCounts(ops), p, k)
    ensures ClientNext(ops, p).At? && IsPlace(ClientCounts(ops), ClientNext(ops, p).pos, k + 1)
  {
    NextPlace(ClientCounts(ops), p, k);
  }

  /** After k calls the client is at place k of its repeated program; with the empty program its first call divides
      by 0. */
  lemma {:induction false} ClientPlace(ops: seq<Op>, k: nat)
    requires Program(ops)
    ensures if ops == [] then ClientAt(ops, k) == if k == 0 then At(Pos(0, 0)) else RemainderByZero
            else IsPlace(ClientCounts(ops), ClientAt(ops, k).pos, k)
  {
    var counts := ClientCounts(ops);
    if k == 0 {
      if ops != [] { FirstPlace(counts); }
    } else {
      ClientPlace(ops, k - 1);
      if ops != [] { ClientMoves(ops, ClientAt(ops, k - 1).pos, k - 1); }
    }
  }

  /** The two `advance_step` functions lead to the same positions for ever exactly when there are operations and no
      count is 0. */
  lemma SidesAgreeExactly(ops: seq<Op>)
    requires Program(ops)
    ensures (forall k: nat :: ServerAt(ops, k) == ClientAt(ops, k))
            <==> ops != [] && forall i :: 0 <= i < |ops| ==> ops[i].n > 0
  {
    if ops == [] {
      ServerPlace(ops, 1);
      ClientPlace(ops, 1);
      assert ServerAt(ops, 1) != ClientAt(ops, 1);
    } else if i :| 0 <= i < |ops| && ops[i].n == 0 {
      var k := FirstDifference(ops, i);
    } else {
      assert ServerCounts(ops) == ClientCounts(ops);
      forall k: nat ensures ServerAt(ops, k) == ClientAt(ops, k) {
        ServerPlace(ops, k);
        ClientPlace(ops, k);
        PlaceIsUnique(ServerCounts(ops), ServerAt(ops, k).pos, ClientAt(ops, k).pos, k);
      }
    }
  }

  lemma FirstDifference(ops: seq<Op>, i: nat) returns (k: nat)
    requires Runnable(ops) && i < |ops| && ops[i].n == 0
    ensures ServerAt(ops, k) != ClientAt(ops, k)
  {
    k := CallOf(ClientCounts(ops), i);
    ClientPlace(ops, k);
    PlaceIsUnique(ClientCounts(ops), ClientAt(ops, k).pos, Pos(i, 0), k);
    if ServerAt(ops, k) == ClientAt(ops, k) {
      k := k + 1;
    }
  }

  /** The first call that is at operation i. */
  lemma CallOf(counts: seq<nat>, i: nat) returns (k: nat)
    requires i < |counts| && forall j :: 0 <= j < |counts| ==> counts[j] > 0
    ensures k == Sum(counts[..i]) && IsPlace(counts, Pos(i, 0), k)
  {
    k := Sum(counts[..i]);
    SumStep(counts, i);
    assert counts[..|counts|] == counts;
    SumPrefix(counts, i + 1, |counts|);
    SmallMod(k, Sum(counts));
  }

  // ----- How long the server keeps a connection -----

  /** The server unregisters after the first successful call that leaves it at step 0. */
  ghost predicate ClosesAfter(ops: seq<Op>, k: nat) {
    k > 0 && !MidProgram(ops, k) && forall j :: 0 < j < k ==> MidProgram(ops, j)
  }

  ghost predicate MidProgram(ops: seq<Op>, k: nat) {
    ServerAt(ops, k).At? && ServerAt(ops, k).pos.step != 0
  }

  function Lifetime(ops: seq<Op>): nat {
    if Current(ops, 0).n == 1 then Sum(ServerCounts(ops)) else 1
  }

  /** That is after the whole program when its first count is 1, and after a single call otherwise. */
  lemma ServerLifetime(ops: seq<Op>, k: nat)
    requires Program(ops)
    ensures ClosesAfter(ops, k) <==> k == Lifetime(ops)
  {
    if ops == [] || ops[0].n != 1 {
      assert ServerAt(ops, 0) == At(Pos(0, 0));
      assert ServerAt(ops, 1) == At(Pos(0, 1)) && !MidProgram(ops, 1);
    } else {
      WholeProgramCloses(ops);
    }
  }

  lemma WholeProgramCloses(ops: seq<Op>)
    requires Runnable(ops) && ops[0].n == 1
    ensures ClosesAfter(ops, Sum(ServerCounts(ops)))
  {
    var counts := ServerCounts(ops);
    var life := Sum(counts);
    SumStep(counts, 0);
    assert counts[..|counts|] == counts;
    SumPrefix(counts, 1, |counts|);
    ServerPlace(ops, life);
    ModUnique(life, life, 1, 0);
    FirstPlace(counts);
    SmallMod(0, life);
    PlaceIsUnique(counts, ServerAt(ops, life).pos, Pos(0, 0), life);
    forall j | 0 < j < life ensures MidProgram(ops, j) {
      ServerPlace(ops, j);
      SmallMod(j, life);
    }
  }

  /** So a connection runs the whole program once exactly when the first count is 1. */
  lemma RunsOnceExactly(ops: seq<Op>)
    requires Runnable(ops)
    ensures ClosesAfter(ops, Sum(ServerCounts(ops))) <==> ops[0].n == 1
  {
    var counts := ServerCounts(ops);
    ServerLifetime(ops, Sum(counts));
    SumStep(counts, 0);
    assert counts[..|counts|] == counts;
    SumPrefix(counts, 1, |counts|);
  }

  ghost predicate SameCall(ops: seq<Op>, k: nat) { ServerAt(ops, k) == ClientAt(ops, k) }

  /** While the server keeps the connection, both sides make the same calls. */
  ghost predicate SameCalls(ops: seq<Op>) {
    forall k: nat :: k < Lifetime(ops) ==> SameCall(ops, k)
  }

  ghost predicate NoZeroCount(ops: seq<Op>) {
    forall i :: 0 <= i < |ops| ==> ops[i].n > 0
  }

  /** That is the case exactly when no count is 0 or the first count cuts the connection off after one call. Behind
      the last call, too, both sides stand at the same position exactly when moreover there are operations and the
      first count is not 0. */
  lemma SameCallsExactly(ops: seq<Op>)
    requires Program(ops)
    ensures SameCalls(ops) <==> Current(ops, 0).n != 1 || NoZeroCount(ops)
    ensures SameCalls(ops) && SameCall(ops, Lifetime(ops)) <==> ops != [] && (ops[0].n >= 2 || NoZeroCount(ops))
  {
    assert ServerAt(ops, 0) == ClientAt(ops, 0) == At(Pos(0, 0));
    if Current(ops, 0).n != 1 {
      assert ServerAt(ops, 1) == At(Pos(0, 1));
      FirstClientCall(ops);
    } else if NoZeroCount(ops) {
      SidesAgreeExactly(ops);
      forall k: nat ensures SameCall(ops, k) {}
    } else {
      var i :| 0 <= i < |ops| && ops[i].n == 0;
      var k := DifferenceInLife(ops, i);
    }
  }

  lemma FirstClientCall(ops: seq<Op>)
    requires Program(ops) && Current(ops, 0).n != 1
    ensures ClientAt(ops, 1) == At(Pos(0, 1)) <==> Current(ops, 0).n >= 2
  {
  }

  /** At a count of 0 the client goes on after one call and the server does not, long before the server closes. */
  lemma DifferenceInLife(ops: seq<Op>, i: nat) returns (k: nat)
    requires Runnable(ops) && ops[0].n == 1 && i < |ops| && ops[i].n == 0
    ensures k < Lifetime(ops) && !SameCall(ops, k)
  {
    var counts := ServerCounts(ops);
    k := CallOf(counts, i);
    SumStep(counts, i);
    assert counts[..|counts|] == counts;
    SumPrefix(counts, i + 1, |counts|);
    ServerPlace(ops, k);
    PlaceIsUnique(counts, ServerAt(ops, k).pos, Pos(i, 0), k);
    if SameCall(ops, k) {
      StepsApart(ops, i, k);
      k := k + 1;
    }
  }

  lemma StepsApart(ops: seq<Op>, i: nat, k: nat)
    requires Runnable(ops) && i < |ops| && ops[i].n == 0
    requires ServerAt(ops, k) == ClientAt(ops, k) == At(Pos(i, 0))
    ensures !SameCall(ops, k + 1)
  {
    assert ServerAt(ops, k + 1) == At(Pos(i, 1));
  }

  /** For example `2r5-0w1`: the positions part at the second entry, but the server closes before. */
  lemma SameCallsInSpiteOfZero()
    ensures var ops := [Op(2, 5, false), Op(0, 1, true)];
            SameCalls(ops) && exists k: nat :: ServerAt(ops, k) != ClientAt(ops, k)
  {
    var ops := [Op(2, 5, false), Op(0, 1, true)];
    SameCallsExactly(ops);
    assert ops[1].n == 0;
    SidesAgreeExactly(ops);
  }

  /** The program of the usage text and of the communication test. */
  function UsageExample(): seq<Op> { [Op(2, 1023, false), Op(1, 32, true)] }

  /** It is cut off after its first call, although it asks for three. */
  lemma UsageExampleIsCutOff()
    ensures Parse("2r1023-1w32", 0, CAPACITY) == Ops(UsageExample())
    ensures ClosesAfter(UsageExample(), 1)
  {
    ServerLifetime(UsageExample(), 1);
    UsageText();
    ParseUndoesPrint("2r1023-1w32", UsageExample(), CAPACITY);
  }

  lemma UsageText()
    ensures Print(UsageExample()) == "2r1023-1w32"
  {
    assert Decimal(10) == "10";
    assert Decimal(102) == "102";
    assert Decimal(1023) == "1023" && Decimal(32) == "32";
    assert PrintOp(UsageExample()[0]) == "2r1023" && PrintOp(UsageExample()[1]) == "1w32";
    assert UsageExample()[1..] == [Op(1, 32, true)];
  }

  // ----- The server connection -----

  datatype Interest = In | Out

  /** The direction an operation waits for: either program receives on 'w' and sends on 'r'. */
  function Wanted(op: Op): Interest { if op.isWrite then In else Out }

  /** Readiness as epoll reports it. */
  datatype Event = Event(failed: bool, canRead: bool, canWrite: bool)

  /** Only a registered direction, or a failure, is ever reported. */
  predicate Deliverable(registered: Interest, ev: Event) {
    && (ev.canRead ==> registered == In)
    && (ev.canWrite ==> registered == Out)
    && (ev.failed || ev.canRead || ev.canWrite)
  }

  /** A failure can be reported in every state, and otherwise readiness in the registered direction only. */
  lemma ReportedEvents(registered: Interest, canRead: bool, canWrite: bool)
    ensures Deliverable(registered, Event(true, false, false))
    ensures Deliverable(registered, Event(false, canRead, canWrite)) <==>
              if registered == In then canRead && !canWrite else canWrite && !canRead
  {
  }

  /** The buffer the tools allocate is one byte larger than the largest operation. */
  ghost predicate BufferFor(ops: seq<Op>, size: nat) {
    size > 0 && forall x :: x in ops ==> x.sz < size
  }

  /** The allocation `get_max_buffer_size(...) + 1` in 64-bit arithmetic fits every operation exactly when no
      size is the largest 64-bit value. */
  lemma BufferFitsExactly(ops: seq<Op>, maxSz: nat)
    requires forall x :: x in ops ==> x.sz <= maxSz
    requires maxSz <= U64_MAX && (maxSz == 0 || exists x :: x in ops && x.sz == maxSz)
    ensures BufferFor(ops, Wrap64(maxSz + 1)) <==> forall x :: x in ops ==> x.sz < U64_MAX
  {
    assert Wrap64(maxSz + 1) == if maxSz < U64_MAX then maxSz + 1 else Wrap64(0);
  }

  /** Each call was the operation of its position, and only the last one can have led back to step 0. */
  ghost predicate IsServerLog(ops: seq<Op>, log: seq<Op>) {
    && (forall j :: 0 <= j < |log| ==> IsCall(ops, j, log[j]))
    && (forall j :: 0 < j < |log| ==> MidProgram(ops, j))
  }

  ghost predicate IsCall(ops: seq<Op>, j: nat, op: Op) {
    ServerAt(ops, j).At? && op == Current(ops, ServerAt(ops, j).pos.step)
  }

  /** An open connection can make its next call: it never takes a remainder by 0. */
  lemma ServerLogGrows(ops: seq<Op>, log: seq<Op>)
    requires Program(ops) && IsServerLog(ops, log) && (log == [] || MidProgram(ops, |log|))
    ensures ServerAt(ops, |log|).At? && ServerAt(ops, |log| + 1).At?
    ensures var more := log + [Current(ops, ServerAt(ops, |log|).pos.step)];
            && IsServerLog(ops, more)
            && (ClosesAfter(ops, |more|) <==> ServerAt(ops, |more|).pos.step == 0)
  {
    ServerPlace(ops, |log|);
    ServerPlace(ops, |log| + 1);
    var more := log + [Current(ops, ServerAt(ops, |log|).pos.step)];
    forall j | 0 <= j < |more| ensures IsCall(ops, j, more[j]) {
      if j < |log| { assert IsCall(ops, j, log[j]); }
    }
  }

  class ServerConn {
    const ops: seq<Op>
    var n: nat
    var step: nat
    var lastEpoll: Interest
    var registered: Interest         // what the kernel waits for
    var open: bool
    ghost var log: seq<Op>           // the successful calls so far

    /** The position is the one after the calls made, each call was the operation of its position, and while the
        connection is open the kernel waits for the direction of the current operation. */
    ghost predicate Valid()
      reads this
    {
      && Program(ops)
      && ServerAt(ops, |log|) == At(Pos(step, n))
      && IsServerLog(ops, log)
      && (open ==> lastEpoll == registered == Wanted(Current(ops, step)) && (log == [] || step != 0))
    }

    /** The accept branch of the main loop. */
    constructor (ops: seq<Op>)
      requires Program(ops)
      ensures Valid() && this.ops == ops && open && log == []
    {
      this.ops := ops;
      lastEpoll := Wanted(Current(ops, 0));
      registered := Wanted(Current(ops, 0));
      step, n := 0, 0;
      open := true;
      log := [];
    }

    /** `advance_step`; false is the remainder by 0. */
    method AdvanceStep() returns (ok: bool)
      requires InProgram(ops, step)
      modifies this`n, this`step
      ensures ok <==> ServerNext(ops, old(Pos(step, n))).At?
      ensures ok ==> ServerNext(ops, old(Pos(step, n))) == At(Pos(step, n))
    {
      n := Wrap64(n + 1);
      if n == Current(ops, step).n {
        n := 0;
        if |ops| == 0 {
          return false;
        }
        step := (step + 1) % |ops|;
      }
      return true;
    }

    /** `config_wait`. */
    method ConfigWait()
      requires lastEpoll == registered
      modifies this`lastEpoll, this`registered
      ensures lastEpoll == registered == Wanted(Current(ops, step))
    {
      var nextEpoll := if Current(ops, step).isWrite then In else Out;
      if lastEpoll == nextEpoll {
        return;
      }
      lastEpoll := nextEpoll;
      registered := nextEpoll;
    }

    /** `readwrite` on an event, where r is what send or recv returns. */
    method ReadWrite(ev: Event, r: int, bufferSize: nat)
      requires Valid() && open && Deliverable(registered, ev) && BufferFor(ops, bufferSize)
      modifies this
      ensures Valid()
      ensures log == if ev.failed || r == -1 then old(log) else old(log + [Current(ops, step)])
      ensures open <==> !ev.failed && r != -1 && !ClosesAfter(ops, |log|)
    {
      if ev.failed {
        open := false;
        return;
      }
      var op := Current(ops, step);
      assert op.sz < bufferSize;
      if ev.canWrite {
        assert !op.isWrite;
      } else if ev.canRead {
        assert op.isWrite;
      }
      if r == -1 {
        open := false;
        return;
      }
      ServerLogGrows(ops, log);
      log := log + [op];
      var ok := AdvanceStep();
      assert ok && ServerAt(ops, |log|) == At(Pos(step, n));
      if step == 0 {
        open := false;
      } else {
        ConfigWait();
      }
    }

    /** A connection without failures, for as many events as it gets: it makes one call per event and closes after
        one pass through the program when the first count is 1, and after a single call when it is not. */
    method Serve(rounds: nat, bufferSize: nat)
      requires Valid() && open && log == [] && BufferFor(ops, bufferSize)
      modifies this
      ensures Valid()
      ensures var life := Lifetime(ops);
              |log| == (if rounds < life then rounds else life) && (open <==> rounds < life)
    {
      ghost var life := Lifetime(ops);
      ServerLifetime(ops, life);
      var i := 0;
      while open && i < rounds
        invariant Valid() && i <= rounds && |log| == i
        invariant if open then i < life else i == life
      {
        ReadWrite(if registered == In then Event(false, true, false) else Event(false, false, true), 0, bufferSize);
        i := i + 1;
        ServerLifetime(ops, i);
      }
    }
  }

  /** In a program whose first count is 1 and with no count 0, the calls of a completed connection are the
      operations in order, each repeated as often as its count says. */
  lemma FullPassIsTheProgram(ops: seq<Op>, i: nat, j: nat)
    requires Runnable(ops) && (forall k :: 0 <= k < |ops| ==> ops[k].n > 0) && i < |ops| && j < ops[i].n
    ensures var k := Sum(ServerCounts(ops)[..i]) + j;
            k < Sum(ServerCounts(ops)) && ServerAt(ops, k) == At(Pos(i, j))
  {
    var counts := ServerCounts(ops);
    var k := Sum(counts[..i]) + j;
    SumStep(counts, i);
    assert counts[..|counts|] == counts;
    SumPrefix(counts, i + 1, |counts|);
    SmallMod(k, Sum(counts));
    ServerPlace(ops, k);
    PlaceIsUnique(counts, ServerAt(ops, k).pos, Pos(i, j), k);
  }

  // ----- The client connections -----

  /** After k calls the client is at an operation that receives. */
  ghost predicate ReceivesAt(ops: seq<Op>, k: nat) {
    ClientAt(ops, k).At? && Current(ops, ClientAt(ops, k).pos.step).isWrite
  }

  /** Once the server has closed, a receive returns 0 at once, which counts as a success, and only a send fails. Then
      the inner loop of the client goes on for ever, from any position, exactly when no operation sends. */
  lemma LoopsForeverExactly(ops: seq<Op>, from: nat)
    requires Program(ops)
    ensures (forall k: nat :: k >= from ==> ReceivesAt(ops, k)) <==> ops != [] && forall i :: 0 <= i < |ops| ==> ops[i].isWrite
  {
    if ops == [] {
      ClientPlace(ops, from + 1);
      assert !ReceivesAt(ops, from + 1);
    } else if i :| 0 <= i < |ops| && !ops[i].isWrite {
      var k := LaterCallOf(ClientCounts(ops), i, from);
      ClientPlace(ops, k);
      PlaceIsUnique(ClientCounts(ops), ClientAt(ops, k).pos, Pos(i, 0), k);
      assert !ReceivesAt(ops, k);
    }
  }

  /** Every operation comes again, however many calls were made. */
  lemma LaterCallOf(counts: seq<nat>, i: nat, from: nat) returns (k: nat)
    requires i < |counts| && forall j :: 0 <= j < |counts| ==> counts[j] > 0
    ensures k >= from && IsPlace(counts, Pos(i, 0), k)
  {
    var first := CallOf(counts, i);
    var turn := Sum(counts);
    DivMod(first, turn);
    TimesMonotone(1, turn, from);
    k := first + turn * from;
    assert (first / turn + from) * turn == (first / turn) * turn + turn * from;
    ModUnique(k, turn, first / turn + from, first % turn);
  }

  ghost predicate IsClientLog(ops: seq<Op>, log: seq<Op>) {
    forall j :: 0 <= j < |log| ==> IsClientCall(ops, j, log[j])
  }

  ghost predicate IsClientCall(ops: seq<Op>, j: nat, op: Op) {
    ClientAt(ops, j).At? && op == Current(ops, ClientAt(ops, j).pos.step)
  }

  lemma ClientLogGrows(ops: seq<Op>, log: seq<Op>, p: Pos)
    requires Program(ops) && IsClientLog(ops, log) && ClientAt(ops, |log|) == At(p)
    ensures ClientNext(ops, p).At? <==> ops != []
    ensures var more := log + [Current(ops, p.step)];
            IsClientLog(ops, more) && ClientAt(ops, |more|) == ClientNext(ops, p)
  {
    ClientPlace(ops, |log|);
    var more := log + [Current(ops, p.step)];
    forall j | 0 <= j < |more| ensures IsClientCall(ops, j, more[j]) {
      if j < |log| { assert IsClientCall(ops, j, log[j]); }
    }
  }

  class ClientConn {
    const ops: seq<Op>
    var n: nat
    var step: nat
    var lastEpoll: Interest
    var registered: Interest
    var open: bool
    ghost var log: seq<Op>

    /** The part of validity that also holds in the middle of a batch of calls. */
    ghost predicate InPlace()
      reads this
    {
      Program(ops) && ClientAt(ops, |log|) == At(Pos(step, n)) && IsClientLog(ops, log)
    }

    ghost predicate Valid()
      reads this
    {
      InPlace() && (open ==> lastEpoll == registered == Wanted(Current(ops, step)))
    }

    /** `register_new` once the socket is connected. */
    constructor (ops: seq<Op>)
      requires Program(ops)
      ensures Valid() && this.ops == ops && open && log == []
    {
      this.ops := ops;
      lastEpoll := Wanted(Current(ops, 0));
      registered := Wanted(Current(ops, 0));
      step, n := 0, 0;
      open := true;
      log := [];
    }

    /** `advance_step` after a successful call; false is the remainder by 0, which only the empty program takes. */
    method AdvanceStep() returns (ok: bool)
      requires InPlace()
      modifies this`n, this`step, this`log
      ensures ok <==> ops != []
      ensures ok ==> InPlace() && log == old(log) + [old(Current(ops, step))]
    {
      ClientLogGrows(ops, log, Pos(step, n));
      log := log + [Current(ops, step)];
      n := Wrap64(n + 1);
      if n >= Current(ops, step).n {
        n := 0;
        if |ops| == 0 {
          return false;
        }
        step := (step + 1) % |ops|;
      }
      return true;
    }

    /** `config_wait`. */
    method ConfigWait()
      requires InPlace() && lastEpoll == registered
      modifies this`lastEpoll, this`registered
      ensures InPlace() && lastEpoll == registered == Wanted(Current(ops, step))
    {
      var nextEpoll := if Current(ops, step).isWrite then In else Out;
      if lastEpoll == nextEpoll {
        return;
      }
      lastEpoll := nextEpoll;
      registered := nextEpoll;
    }

    /** The inner loop of `readwrite`: calls until one fails, here after so many successes. */
    method CallUntilBlocked(successes: nat) returns (ok: bool)
      requires InPlace()
      modifies this`n, this`step, this`log
      ensures ok <==> ops != [] || successes == 0
      ensures ok ==> InPlace() && |log| == |old(log)| + successes && old(log) <= log
    {
      var r, done := 0, 0;
      while r != -1
        invariant InPlace() && done <= successes && |log| == |old(log)| + done && old(log) <= log
        invariant r == -1 ==> done == successes
        invariant done > 0 ==> ops != []
        decreases successes - done, r + 1
      {
        r := if done < successes then 0 else -1;
        if r != -1 {
          ok := AdvanceStep();
          if !ok {
            return;
          }
          done := done + 1;
        }
      }
      return true;
    }
  }

  /** The epoll state of the client: the number of connections, and which they are. */
  class ClientPool {
    const ops: seq<Op>
    var nconn: nat
    ghost var live: set<ClientConn>

    ghost predicate Valid()
      reads this, live
    {
      && Program(ops)
      && nconn == |live|
      && forall d :: d in live ==> d.Valid() && d.open && d.ops == ops
    }

    constructor (ops: seq<Op>)
      requires Program(ops)
      ensures Valid() && this.ops == ops && live == {}
    {
      this.ops := ops;
      nconn := 0;
      live := {};
    }

    /** `unregister`. */
    method Unregister(d: ClientConn)
      requires nconn == |live| && d in live
      modifies this`nconn, this`live, d`open
      ensures live == old(live) - {d} && nconn == |live| && !d.open
    {
      d.open := false;
      live := live - {d};
      nconn := nconn - 1;
    }

    /** `register_new`; connecting may fail. */
    method RegisterNew(connected: bool) returns (ok: bool)
      requires Valid()
      modifies this`nconn, this`live
      ensures Valid() && ok == connected
      ensures nconn == old(nconn) + if ok then 1 else 0
      ensures old(live) <= live && fresh(live - old(live))
      ensures forall d :: d in live - old(live) ==> d.log == []
    {
      if !connected {
        return false;
      }
      var d := new ClientConn(ops);
      nconn := nconn + 1;
      live := live + {d};
      return true;
    }

    /** `readwrite` on an event of d: calls succeed until one returns -1, with an error that is temporary or not.
        The result is false when the program divides by 0, which needs an empty program and a successful call. */
    method ReadWrite(d: ClientConn, ev: Event, successes: nat, temporary: bool, bufferSize: nat) returns (ok: bool)
      requires Valid() && d in live && Deliverable(d.registered, ev) && BufferFor(ops, bufferSize)
      modifies this`nconn, this`live, d
      ensures ok <==> ev.failed || ops != [] || successes == 0
      ensures ok ==> Valid()
      ensures ok ==> live == if ev.failed || !temporary then old(live) - {d} else old(live)
      ensures ok ==> d.InPlace() && |d.log| == |old(d.log)| + if ev.failed then 0 else successes
      ensures ok ==> old(d.log) <= d.log
    {
      if ev.failed {
        Unregister(d);
        return true;
      }
      var op := Current(ops, d.step);
      assert op.sz < bufferSize;
      if ev.canWrite {
        assert !op.isWrite;
      } else if ev.canRead {
        assert op.isWrite;
      }
      ok := d.CallUntilBlocked(successes);
      if !ok {
        return;
      }
      if !temporary {
        Unregister(d);
        return;
      }
      d.ConfigWait();
    }

    /** The end of a round of the main loop: connect again until the wanted number is reached or one attempt fails. */
    method Refill(wanted: nat, successes: nat)
      requires Valid()
      modifies this`nconn, this`live
      ensures Valid()
      ensures nconn == if old(nconn) >= wanted then old(nconn)
                       else if old(nconn) + successes < wanted then old(nconn) + successes else wanted
    {
      var tries := 0;
      while nconn < wanted
        invariant Valid() && nconn == old(nconn) + tries && tries <= successes
        invariant old(nconn) < wanted ==> nconn <= wanted
        invariant old(nconn) >= wanted ==> tries == 0
        invariant old(live) <= live && fresh(live - old(live))
      {
        var ok := RegisterNew(tries < successes);
        if !ok {
          break;
        }
        tries := tries + 1;
      }
    }
  }
}
