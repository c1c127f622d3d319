/** A server and a client that run the same operation program, as the communication test starts them, joined by one
    byte queue in each direction. Both send on 'r' and receive on 'w', in whatever portions the network allows. */
module Pair {
  import opened Bits
  import opened Connection
  import opened OpProgram
  import opened Seqs

  datatype Side = Server | Client

  /** The successful calls of each side, and the bytes under way. */
  datatype Link = Link(serverCalls: nat, clientCalls: nat, serverOpen: bool, toServer: nat, toClient: nat)

  const START: Link := Link(0, 0, true, 0, 0)

  /** Where k calls of a side lead. */
  function WalkOf(side: Side, ops: seq<Op>, k: nat): Walk {
    if side == Server then ServerAt(ops, k) else ClientAt(ops, k)
  }

  /** Call number k of a side, as far as it gets. */
  function Call(side: Side, ops: seq<Op>, k: nat): Op {
    var w := WalkOf(side, ops, k);
    if w.At? then Current(ops, w.pos.step) else Op(0, 0, false)
  }

  /** What a successful call moves: a send up to its size, a receive up to its size and to what has arrived.
      Nothing is moved only when the size is 0. */
  predicate Moves(op: Op, arrived: nat, n: nat) {
    && n <= op.sz && (n == 0 ==> op.sz == 0)
    && (op.isWrite ==> 0 < arrived && n <= arrived)
  }

  function ServerMoved(l: Link, op: Op, n: nat, open: bool): Link
    requires op.isWrite ==> n <= l.toServer
  {
    if op.isWrite then Link(l.serverCalls + 1, l.clientCalls, open, l.toServer - n, l.toClient)
    else Link(l.serverCalls + 1, l.clientCalls, open, l.toServer, l.toClient + n)
  }

  function ClientMoved(l: Link, op: Op, n: nat): Link
    requires op.isWrite ==> n <= l.toClient
  {
    if op.isWrite then Link(l.serverCalls, l.clientCalls + 1, l.serverOpen, l.toServer, l.toClient - n)
    else Link(l.serverCalls, l.clientCalls + 1, l.serverOpen, l.toServer + n, l.toClient)
  }

  /** A call of the server, which closes after the last one of its life. */
  ghost predicate ServerCalls(ops: seq<Op>, l: Link, n: nat, m: Link) {
    && l.serverOpen && WalkOf(Server, ops, l.serverCalls).At?
    && var op := Call(Server, ops, l.serverCalls);
    && Moves(op, l.toServer, n)
    && m == ServerMoved(l, op, n, l.serverCalls + 1 != Lifetime(ops))
  }

  /** A call of the client. From a server that has closed it receives 0 bytes once the queue is empty. */
  ghost predicate ClientCalls(ops: seq<Op>, l: Link, n: nat, m: Link) {
    && WalkOf(Client, ops, l.clientCalls).At?
    && var op := Call(Client, ops, l.clientCalls);
    && (Moves(op, l.toClient, n) || (op.isWrite && l.toClient == n == 0 && !l.serverOpen))
    && m == ClientMoved(l, op, n)
  }

  ghost predicate Next(ops: seq<Op>, l: Link, m: Link) {
    exists n :: ServerCalls(ops, l, n, m) || ClientCalls(ops, l, n, m)
  }

  ghost predicate Run(ops: seq<Op>, run: seq<Link>) {
    |run| > 0 && run[0] == START && forall i :: 0 < i < |run| ==> Follows(ops, run, i)
  }

  ghost predicate Follows(ops: seq<Op>, run: seq<Link>, i: nat)
    requires 0 < i < |run|
  {
    Next(ops, run[i - 1], run[i])
  }

  /** The server can make all calls of its life. */
  ghost predicate Finishes(ops: seq<Op>) {
    exists run: seq<Link> :: Run(ops, run) && !run[|run| - 1].serverOpen
  }

  // ----- What has to be under way -----

  /** The most that a side can have sent in its first k calls. */
  function Sent(side: Side, ops: seq<Op>, k: nat): nat {
    if k == 0 then 0
    else Sent(side, ops, k - 1) + if Call(side, ops, k - 1).isWrite then 0 else Call(side, ops, k - 1).sz
  }

  /** The least that it must have received. */
  function Received(side: Side, ops: seq<Op>, k: nat): nat {
    if k == 0 then 0
    else Received(side, ops, k - 1) + if Call(side, ops, k - 1).isWrite then Least(Call(side, ops, k - 1)) else 0
  }

  function Least(op: Op): nat { if op.sz > 0 then 1 else 0 }

  lemma {:induction false} SentGrows(side: Side, ops: seq<Op>, j: nat, k: nat)
    requires j <= k
    ensures Sent(side, ops, j) <= Sent(side, ops, k)
  {
    if j < k { SentGrows(side, ops, j, k - 1); }
  }

  /** Call k of a side is a receive, and whatever the j calls of the other side have sent may be used up. */
  ghost predicate Starved(side: Side, ops: seq<Op>, k: nat, j: nat) {
    && Call(side, ops, k).isWrite
    && Sent(if side == Server then Client else Server, ops, j) <= Received(side, ops, k)
  }

  /** After j calls of the server and k of the client, neither side can go on. */
  ghost predicate Deadlock(ops: seq<Op>, j: nat, k: nat) {
    && j < Lifetime(ops) && Starved(Server, ops, j, k)
    && (WalkOf(Client, ops, k).At? ==> Starved(Client, ops, k, j))
  }

  /** If call j of the server is a receive, the client sends enough for it some time. */
  ghost predicate Fed(ops: seq<Op>, j: nat) {
    Call(Server, ops, j).isWrite ==> exists k: nat :: Received(Server, ops, j) < Sent(Client, ops, k)
  }

  // ----- Necessary -----

  /** No more bytes are under way than the one side can have sent and the other must have received. */
  ghost predicate Flow(ops: seq<Op>, l: Link) {
    && l.toServer + Received(Server, ops, l.serverCalls) <= Sent(Client, ops, l.clientCalls)
    && l.toClient + Received(Client, ops, l.clientCalls) <= Sent(Server, ops, l.serverCalls)
  }

  lemma ServerKeepsFlow(ops: seq<Op>, l: Link, n: nat, m: Link)
    requires Flow(ops, l) && ServerCalls(ops, l, n, m)
    ensures Flow(ops, m) && !Starved(Server, ops, l.serverCalls, l.clientCalls)
  {
  }

  lemma ClientKeepsFlow(ops: seq<Op>, l: Link, n: nat, m: Link)
    requires Flow(ops, l) && l.serverOpen && ClientCalls(ops, l, n, m)
    ensures Flow(ops, m) && !Starved(Client, ops, l.clientCalls, l.serverCalls)
  {
  }

  lemma Starves(side: Side, ops: seq<Op>, k: nat, i: nat, j: nat)
    requires i <= j && Starved(side, ops, k, j)
    ensures Starved(side, ops, k, i)
  {
    SentGrows(if side == Server then Client else Server, ops, i, j);
  }

  ghost predicate Held(ops: seq<Op>, j: nat, k: nat, l: Link) {
    l.serverOpen && l.serverCalls <= j && l.clientCalls <= k && Flow(ops, l)
  }

  lemma StepIsHeld(ops: seq<Op>, j: nat, k: nat, l: Link, m: Link)
    requires Deadlock(ops, j, k) && Held(ops, j, k, l) && Next(ops, l, m)
    ensures Held(ops, j, k, m)
  {
    var n :| ServerCalls(ops, l, n, m) || ClientCalls(ops, l, n, m);
    if ServerCalls(ops, l, n, m) {
      ServerKeepsFlow(ops, l, n, m);
      if l.serverCalls == j { Starves(Server, ops, j, l.clientCalls, k); }
    } else {
      ClientKeepsFlow(ops, l, n, m);
      if l.clientCalls == k { Starves(Client, ops, k, l.serverCalls, j); }
    }
  }

  /** A deadlock holds up every schedule: in no state of any run has either side gone beyond it. */
  lemma {:induction false} DeadlockHolds(ops: seq<Op>, j: nat, k: nat, run: seq<Link>, i: nat)
    requires Deadlock(ops, j, k) && Run(ops, run) && i < |run|
    ensures Held(ops, j, k, run[i])
  {
    if i > 0 {
      DeadlockHolds(ops, j, k, run, i - 1);
      assert Follows(ops, run, i);
      StepIsHeld(ops, j, k, run[i - 1], run[i]);
    }
  }

  /** What the server has done so far it was fed for. */
  ghost predicate FedSoFar(ops: seq<Op>, l: Link) {
    && (forall j: nat :: j < l.serverCalls ==> Fed(ops, j))
    && if l.serverOpen then Flow(ops, l) && l.serverCalls < Lifetime(ops) else l.serverCalls == Lifetime(ops)
  }

  lemma StepIsFed(ops: seq<Op>, l: Link, m: Link)
    requires FedSoFar(ops, l) && Next(ops, l, m)
    ensures FedSoFar(ops, m)
  {
    var n :| ServerCalls(ops, l, n, m) || ClientCalls(ops, l, n, m);
    if ServerCalls(ops, l, n, m) {
      ServerKeepsFlow(ops, l, n, m);
      assert Fed(ops, l.serverCalls);
    } else if l.serverOpen {
      ClientKeepsFlow(ops, l, n, m);
    }
  }

  lemma {:induction false} RunIsFed(ops: seq<Op>, run: seq<Link>, i: nat)
    requires Program(ops) && Run(ops, run) && i < |run|
    ensures FedSoFar(ops, run[i])
  {
    if i == 0 {
      LifetimeIsPositive(ops);
    } else {
      RunIsFed(ops, run, i - 1);
      assert Follows(ops, run, i);
      StepIsFed(ops, run[i - 1], run[i]);
    }
  }

  lemma LifetimeIsPositive(ops: seq<Op>)
    requires Program(ops)
    ensures Lifetime(ops) > 0
  {
    ServerLifetime(ops, Lifetime(ops));
  }

  // ----- Sufficient -----

  /** j calls of the server and k of the client, all sending all they can and receiving as little as they can. */
  ghost predicate Thrifty(ops: seq<Op>, j: nat, k: nat, l: Link) {
    && l.serverCalls == j && l.clientCalls == k
    && l.toServer + Received(Server, ops, j) == Sent(Client, ops, k)
    && l.toClient + Received(Client, ops, k) == Sent(Server, ops, j)
  }

  function Portion(op: Op): nat { if op.isWrite then Least(op) else op.sz }

  lemma ServerGoesOn(ops: seq<Op>, j: nat, k: nat, l: Link) returns (m: Link)
    requires Program(ops) && j < Lifetime(ops) && Thrifty(ops, j, k, l) && l.serverOpen && !Starved(Server, ops, j, k)
    ensures Next(ops, l, m) && Thrifty(ops, j + 1, k, m) && (m.serverOpen <==> j + 1 != Lifetime(ops))
  {
    ServerLives(ops, j);
    var op := Call(Server, ops, j);
    m := ServerMoved(l, op, Portion(op), j + 1 != Lifetime(ops));
    assert ServerCalls(ops, l, Portion(op), m);
  }

  lemma ServerLives(ops: seq<Op>, j: nat)
    requires Program(ops) && j < Lifetime(ops)
    ensures WalkOf(Server, ops, j).At?
  {
    if ops == [] { ServerPlace(ops, j); }
  }

  lemma ClientGoesOn(ops: seq<Op>, j: nat, k: nat, l: Link) returns (m: Link)
    requires Thrifty(ops, j, k, l) && l.serverOpen && WalkOf(Client, ops, k).At? && !Starved(Client, ops, k, j)
    ensures Next(ops, l, m) && Thrifty(ops, j, k + 1, m) && m.serverOpen
  {
    var op := Call(Client, ops, k);
    m := ClientMoved(l, op, Portion(op));
    assert ClientCalls(ops, l, Portion(op), m);
  }

  lemma ExtendRun(ops: seq<Op>, run: seq<Link>, l: Link)
    requires Run(ops, run) && Next(ops, run[|run| - 1], l)
    ensures Run(ops, run + [l])
  {
    forall i | 0 < i < |run + [l]| ensures Follows(ops, run + [l], i) {
      if i < |run| { assert Follows(ops, run, i); }
    }
  }

  /** From a thrifty state the server goes on whenever it can, and otherwise the client, until the server can. */
  lemma {:induction false} GoOn(ops: seq<Op>, run: seq<Link>, j: nat, k: nat, enough: nat) returns (all: seq<Link>)
    requires Program(ops) && Run(ops, run) && run[|run| - 1].serverOpen
    requires j < Lifetime(ops) && Thrifty(ops, j, k, run[|run| - 1])
    requires (forall i: nat :: i < Lifetime(ops) ==> Fed(ops, i)) && (forall i: nat, n: nat :: !Deadlock(ops, i, n))
    requires Starved(Server, ops, j, k) ==> Received(Server, ops, j) < Sent(Client, ops, enough)
    ensures Run(ops, all) && !all[|all| - 1].serverOpen
    decreases Lifetime(ops) - j, enough - k
  {
    var l := run[|run| - 1];
    if !Starved(Server, ops, j, k) {
      var m := ServerGoesOn(ops, j, k, l);
      ExtendRun(ops, run, m);
      if j + 1 == Lifetime(ops) {
        all := run + [m];
      } else {
        var more := Enough(ops, j + 1);
        all := GoOn(ops, run + [m], j + 1, k, more);
      }
    } else {
      assert !Deadlock(ops, j, k);
      if k >= enough { SentGrows(Client, ops, enough, k); }
      var m := ClientGoesOn(ops, j, k, l);
      ExtendRun(ops, run, m);
      all := GoOn(ops, run + [m], j, k + 1, enough);
    }
  }

  lemma Enough(ops: seq<Op>, j: nat) returns (k: nat)
    requires Fed(ops, j)
    ensures Call(Server, ops, j).isWrite ==> Received(Server, ops, j) < Sent(Client, ops, k)
  {
    k := 0;
    if Call(Server, ops, j).isWrite { k :| Received(Server, ops, j) < Sent(Client, ops, k); }
  }

  // ----- Results -----

  /** For every program, the server can make all calls of its life exactly when the client sends enough for each of
      its receives and the two sides have no deadlock. */
  lemma FinishesExactly(ops: seq<Op>)
    requires Program(ops)
    ensures Finishes(ops) <==>
              (forall j: nat :: j < Lifetime(ops) ==> Fed(ops, j)) && (forall j: nat, k: nat :: !Deadlock(ops, j, k))
  {
    if run: seq<Link> :| Run(ops, run) && !run[|run| - 1].serverOpen {
      RunIsFed(ops, run, |run| - 1);
      forall j: nat, k: nat ensures !Deadlock(ops, j, k) {
        if Deadlock(ops, j, k) { DeadlockHolds(ops, j, k, run, |run| - 1); }
      }
    } else if (forall j: nat :: j < Lifetime(ops) ==> Fed(ops, j)) && (forall j: nat, k: nat :: !Deadlock(ops, j, k)) {
      LifetimeIsPositive(ops);
      var enough := Enough(ops, 0);
      assert Run(ops, [START]);
      var run := GoOn(ops, [START], 0, 0, enough);
      assert false;
    }
  }

  /** Call k is supplied: if it is a receive, more bytes can have been sent before it than receives were made. */
  ghost predicate Supplied(ops: seq<Op>, k: nat) {
    Call(Server, ops, k).isWrite ==> Received(Server, ops, k) < Sent(Server, ops, k)
  }

  lemma {:induction false} SameCallsSameBytes(ops: seq<Op>, k: nat)
    requires SameCalls(ops) && k <= Lifetime(ops)
    ensures Sent(Server, ops, k) == Sent(Client, ops, k) && Received(Server, ops, k) == Received(Client, ops, k)
    ensures k < Lifetime(ops) ==> WalkOf(Server, ops, k) == WalkOf(Client, ops, k)
  {
    if k < Lifetime(ops) { assert SameCall(ops, k); }
    if k > 0 { SameCallsSameBytes(ops, k - 1); }
  }

  /** When both sides make the same calls, one look at the program is enough: every receive has to be supplied. */
  lemma SameCallsFinishExactly(ops: seq<Op>)
    requires Program(ops) && SameCalls(ops)
    ensures Finishes(ops) <==> forall k: nat :: k < Lifetime(ops) ==> Supplied(ops, k)
  {
    FinishesExactly(ops);
    if forall k: nat :: k < Lifetime(ops) ==> Supplied(ops, k) {
      forall j: nat | j < Lifetime(ops) ensures Fed(ops, j) {
        assert Supplied(ops, j);
        SameCallsSameBytes(ops, j);
      }
      forall j: nat, k: nat ensures !Deadlock(ops, j, k) {
        if j < Lifetime(ops) { SuppliedIsNoDeadlock(ops, j, k); }
      }
    } else {
      var j: nat :| j < Lifetime(ops) && !Supplied(ops, j);
      SameCallsSameBytes(ops, j);
      assert Deadlock(ops, j, j);
    }
  }

  lemma SuppliedIsNoDeadlock(ops: seq<Op>, j: nat, k: nat)
    requires Program(ops) && SameCalls(ops) && j < Lifetime(ops)
    requires forall i: nat :: i < Lifetime(ops) ==> Supplied(ops, i)
    ensures !Deadlock(ops, j, k)
  {
    assert Supplied(ops, j);
    SameCallsSameBytes(ops, j);
    if j <= k {
      SentGrows(Client, ops, j, k);
    } else {
      assert Supplied(ops, k);
      SameCallsSameBytes(ops, k);
      ServerLives(ops, k);
      SentGrows(Server, ops, k, j);
    }
  }

  /** For example `1r1-2w1`: each side sends one byte and then wants to receive twice. */
  lemma SecondReceiveStarves()
    ensures var ops := [Op(1, 1, false), Op(2, 1, true)]; Program(ops) && SameCalls(ops) && !Finishes(ops)
  {
    var ops := [Op(1, 1, false), Op(2, 1, true)];
    SameCallsExactly(ops);
    var counts := ServerCounts(ops);
    assert counts[..1] == [1] && counts[..2] == counts && Sum(counts[..0]) == 0;
    SumStep(counts, 0);
    SumStep(counts, 1);
    assert ServerAt(ops, 0) == At(Pos(0, 0));
    assert ServerAt(ops, 1) == At(Pos(1, 0));
    assert ServerAt(ops, 2) == At(Pos(1, 1));
    assert Sent(Server, ops, 1) == 1 && Received(Server, ops, 1) == 0;
    assert !Supplied(ops, 2);
    SameCallsFinishExactly(ops);
  }

  /** A pair can make a call at all exactly when its program does not begin with a receive. */
  lemma PairStartsExactly(ops: seq<Op>)
    requires Program(ops)
    ensures (exists run: seq<Link> :: Run(ops, run) && run[|run| - 1] != START) <==> ops == [] || !ops[0].isWrite
  {
    var op := Current(ops, 0);
    if op.isWrite {
      forall run: seq<Link> | Run(ops, run) ensures run[|run| - 1] == START {
        if |run| > 1 {
          assert Follows(ops, run, 1);
          NothingFromStart(ops, run[1]);
        }
      }
    } else {
      var l := START.(clientCalls := 1, toServer := op.sz);
      assert ClientCalls(ops, START, op.sz, l);
      assert Run(ops, [START]);
      ExtendRun(ops, [START], l);
    }
  }

  lemma NothingFromStart(ops: seq<Op>, l: Link)
    requires Current(ops, 0).isWrite
    ensures !Next(ops, START, l)
  {
  }

  /** Once the server has closed, nothing holds up a client that can still make a call. */
  lemma ClosedServerHoldsNobodyUp(ops: seq<Op>, l: Link) returns (m: Link)
    requires !l.serverOpen && WalkOf(Client, ops, l.clientCalls).At?
    ensures Next(ops, l, m) && m.clientCalls == l.clientCalls + 1
  {
    var op := Call(Client, ops, l.clientCalls);
    var n := if op.isWrite && l.toClient == 0 then 0 else Portion(op);
    m := ClientMoved(l, op, n);
    assert ClientCalls(ops, l, n, m);
  }
}
