/** The operation table of `benchmark.c`: filling it in the warm-up phase and reading it cyclically. */
module OpTable {
  import opened Arithmetic
  import opened Bits
  import opened Cyclic
  import opened Sampling
  import opened Seqs

  const SLOTS: nat := 1024
  const EMPTY: nat := 0xFFFF_FFFF

  datatype Outcome = AssertFailed | OutOfWords | Filled

  /** What the fill loops have placed so far: operations below i completely, operation i j times. */
  ghost predicate PlacedSoFar(table: seq<nat>, dist: seq<nat>, i: nat, j: nat)
    requires i <= |dist|
  {
    && |table| == SLOTS
    && (forall k :: 0 <= k < i ==> Count(table, k) == dist[k])
    && (i < |dist| ==> Count(table, i) == j)
    && (i == |dist| ==> j == 0)
    && (forall p :: 0 <= p < SLOTS ==> table[p] == EMPTY || table[p] < i || (table[p] == i && j > 0))
    && Count(table, EMPTY) + Sum(dist[..i]) + j == SLOTS
  }

  /** Placing operation i in an empty slot advances the fill by one. */
  lemma PlaceOne(table: seq<nat>, dist: seq<nat>, i: nat, j: nat, pos: nat)
    requires i < |dist| < EMPTY && PlacedSoFar(table, dist, i, j)
    requires pos < SLOTS && table[pos] == EMPTY
    ensures PlacedSoFar(table[pos := i], dist, i, j + 1)
  {
    forall k: nat ensures Count(table[pos := i], k) == Count(table, k) - (if EMPTY == k then 1 else 0) + if i == k then 1 else 0 {
      CountUpdate(table, pos, i, k);
    }
  }

  lemma NextOperation(table: seq<nat>, dist: seq<nat>, i: nat)
    requires i < |dist| < EMPTY && PlacedSoFar(table, dist, i, dist[i])
    ensures PlacedSoFar(table, dist, i + 1, 0)
  {
    SumStep(dist, i);
    if i + 1 < |dist| { CountZero(table, i + 1); }
  }

  /** While fewer than 1024 operations are placed, some slot is still empty. */
  lemma FreeSlot(table: seq<nat>, dist: seq<nat>, i: nat, j: nat)
    requires Sum(dist) == SLOTS && i < |dist| && j < dist[i] && PlacedSoFar(table, dist, i, j)
    ensures exists p :: 0 <= p < SLOTS && table[p] == EMPTY
  {
    SumStep(dist, i);
    SumPrefix(dist, i + 1, |dist|);
    assert dist[..|dist|] == dist;
    CountZero(table, EMPTY);
  }

  /** Probing: the first accepted draw that hits an empty slot, and the words used up to it. */
  function Probe(table: seq<nat>, words: seq<nat>): (r: Draw)
    requires 0 < |table| <= 0x8000_0000
    ensures r.Drawn? ==> r.value < |table| && table[r.value] == EMPTY && 0 < r.used <= |words|
    decreases |words|
  {
    var r := Reject(words, |table|);
    if r.Exhausted? || table[r.value] == EMPTY then r else After(r.used, Probe(table, words[r.used..]))
  }

  function After(used: nat, r: Draw): Draw {
    match r
    case Exhausted => Exhausted
    case Drawn(pos, more) => Drawn(pos, used + more)
  }

  /** The operations in the order in which they are placed, from operation i on. */
  ghost function Todo(dist: seq<nat>, i: nat): seq<nat>
    requires i <= |dist|
    decreases |dist| - i
  {
    if i == |dist| then [] else Repeat(i, dist[i]) + Todo(dist, i + 1)
  }

  ghost function Repeat(x: nat, n: nat): seq<nat> {
    seq(n, _ => x)
  }

  /** The table after placing the operations one by one, each in the next probed empty slot, as far as the words go. */
  ghost function Fill(table: seq<nat>, todo: seq<nat>, words: seq<nat>): (r: seq<nat>)
    requires 0 < |table| <= 0x8000_0000
    decreases |todo|
  {
    var r := Probe(table, words);
    if todo == [] || r.Exhausted? then table
    else Fill(table[r.value := todo[0]], todo[1..], words[r.used..])
  }

  lemma FillOne(table: seq<nat>, x: nat, n: nat, rest: seq<nat>, words: seq<nat>)
    requires 0 < |table| <= 0x8000_0000 && n > 0
    ensures Fill(table, Repeat(x, n) + rest, words) ==
            var r := Probe(table, words);
            if r.Exhausted? then table else Fill(table[r.value := x], Repeat(x, n - 1) + rest, words[r.used..])
  {
    assert (Repeat(x, n) + rest)[1..] == Repeat(x, n - 1) + rest;
  }

  lemma FillNext(table: seq<nat>, dist: seq<nat>, i: nat, words: seq<nat>)
    requires 0 < |table| <= 0x8000_0000 && i < |dist|
    ensures Fill(table, Repeat(i, 0) + Todo(dist, i + 1), words) == Fill(table, Todo(dist, i + 1), words)
    ensures Todo(dist, i) == Repeat(i, dist[i]) + Todo(dist, i + 1)
  {
    assert Repeat(i, 0) + Todo(dist, i + 1) == Todo(dist, i + 1);
  }

  lemma ProbeOn(table: seq<nat>, words: seq<nat>, used: nat, slot: Draw)
    requires 0 < |table| <= 0x8000_0000
    requires slot == Reject(words, |table|) && slot.Drawn? && table[slot.value] != EMPTY
    ensures After(used, Probe(table, words)) == After(used + slot.used, Probe(table, words[slot.used..]))
  {
  }

  lemma DropDrop(s: seq<nat>, i: nat, j: nat)
    requires i + j <= |s|
    ensures s[i..][j..] == s[i + j..]
  {
  }

  /** The innermost loop: probe random slots until an empty one is found. */
  method FindEmptySlot(ops: array<nat>, source: WordSource) returns (slot: Draw)
    requires 0 < ops.Length <= 0x8000_0000 && source.pos <= |source.words|
    modifies source
    ensures source.pos <= |source.words|
    ensures slot.Drawn? <==> Probe(ops[..], old(source.Remaining())).Drawn?
    ensures slot.Drawn? ==>
              var r := Probe(ops[..], old(source.Remaining()));
              slot.value == r.value && source.Remaining() == old(source.Remaining())[r.used..]
    ensures slot.Exhausted? ==> source.pos == |source.words|
  {
    ghost var table, first := ops[..], source.Remaining();
    ghost var used: nat := 0;
    while true
      invariant source.pos == old(source.pos) + used <= |source.words|
      invariant Probe(table, first) == After(used, Probe(table, source.Remaining()))
      decreases |source.words| - source.pos
    {
      ghost var words := source.Remaining();
      slot := source.DeterministicRandomNextInt(0, ops.Length - 1);
      if slot.Exhausted? {
        return;
      }
      assert |source.Remaining()| == |words| - slot.used;
      if ops[slot.value] == EMPTY {
        DropDrop(source.words, old(source.pos), used + slot.used);
        return;
      }
      ProbeOn(table, words, used, slot);
      used := used + slot.used;
    }
  }

  method Total(dist: seq<nat>) returns (total: nat)
    ensures total == Sum(dist)
  {
    total := 0;
    for i := 0 to |dist|
      invariant total == Sum(dist[..i])
    {
      SumStep(dist, i);
      total := total + dist[i];
    }
    assert dist[..|dist|] == dist;
  }

  method Clear(ops: array<nat>)
    modifies ops
    ensures forall p :: 0 <= p < ops.Length ==> ops[p] == EMPTY
  {
    for i := 0 to ops.Length
      invariant forall p :: 0 <= p < i ==> ops[p] == EMPTY
    {
      ops[i] := EMPTY;
    }
  }

  lemma NothingPlaced(table: seq<nat>, dist: seq<nat>)
    requires |table| == SLOTS && |dist| < EMPTY && forall p :: 0 <= p < SLOTS ==> table[p] == EMPTY
    ensures PlacedSoFar(table, dist, 0, 0)
  {
    CountAll(table, EMPTY);
    CountZero(table, 0);
  }

  /** A complete fill leaves no slot empty, so the final check over all slots passes. */
  lemma AllPlaced(table: seq<nat>, dist: seq<nat>)
    requires Sum(dist) == SLOTS && PlacedSoFar(table, dist, |dist|, 0)
    ensures forall p :: 0 <= p < SLOTS ==> table[p] < |dist|
  {
    assert dist[..|dist|] == dist;
    CountZero(table, EMPTY);
  }

  /** One turn of the inner loops: operation i goes to the next probed empty slot. */
  method PlaceOnce(i: nat, ops: array<nat>, source: WordSource) returns (slot: Draw)
    requires 0 < ops.Length <= 0x8000_0000 && source.pos <= |source.words|
    modifies ops, source
    ensures source.pos <= |source.words|
    ensures slot.Exhausted? ==>
              Probe(old(ops[..]), old(source.Remaining())).Exhausted? && ops[..] == old(ops[..]) && source.pos == |source.words|
    ensures slot.Drawn? ==>
              var r := Probe(old(ops[..]), old(source.Remaining()));
              && r.Drawn? && slot.value == r.value
              && ops[..] == old(ops[..])[r.value := i] && source.Remaining() == old(source.Remaining())[r.used..]
  {
    slot := FindEmptySlot(ops, source);
    if slot.Drawn? {
      ops[slot.value] := i;
    }
  }

  /** The table when n more copies of x and then the rest are still to be placed, on the way to all. */
  ghost predicate OnTheWay(all: seq<nat>, table: seq<nat>, x: nat, n: nat, rest: seq<nat>, words: seq<nat>)
    requires 0 < |table| <= 0x8000_0000
  {
    all == Fill(table, Repeat(x, n) + rest, words)
  }

  lemma OneTurn(all: seq<nat>, dist: seq<nat>, table: seq<nat>, i: nat, j: nat, rest: seq<nat>, words: seq<nat>)
    requires |table| == SLOTS && i < |dist| < EMPTY && j < dist[i]
    requires OnTheWay(all, table, i, dist[i] - j, rest, words)
    ensures var r := Probe(table, words);
            if r.Exhausted? then all == table
            else OnTheWay(all, table[r.value := i], i, dist[i] - (j + 1), rest, words[r.used..])
                 && (PlacedSoFar(table, dist, i, j) ==> PlacedSoFar(table[r.value := i], dist, i, j + 1))
  {
    FillOne(table, i, dist[i] - j, rest, words);
    var r := Probe(table, words);
    if r.Drawn? && PlacedSoFar(table, dist, i, j) { PlaceOne(table, dist, i, j, r.value); }
  }

  /** The two inner loops: operation i is placed dist[i] times. */
  method PlaceOperation(dist: seq<nat>, i: nat, ops: array<nat>, source: WordSource) returns (done: bool)
    requires Sum(dist) == SLOTS && i < |dist| < EMPTY && ops.Length == SLOTS && source.pos <= |source.words|
    requires PlacedSoFar(ops[..], dist, i, 0)
    modifies ops, source
    ensures source.pos <= |source.words|
    ensures Fill(ops[..], if done then Todo(dist, i + 1) else [], source.Remaining())
         == Fill(old(ops[..]), Todo(dist, i), old(source.Remaining()))
    ensures done ==> PlacedSoFar(ops[..], dist, i + 1, 0)
    ensures !done ==> source.pos == |source.words| && exists j :: 0 <= j < dist[i] && PlacedSoFar(ops[..], dist, i, j)
  {
    ghost var rest := Todo(dist, i + 1);
    ghost var all := Fill(ops[..], Todo(dist, i), source.Remaining());
    FillNext(ops[..], dist, i, source.Remaining());
    for j := 0 to dist[i]
      invariant PlacedSoFar(ops[..], dist, i, j) && source.pos <= |source.words|
      invariant OnTheWay(all, ops[..], i, dist[i] - j, rest, source.Remaining())
    {
      OneTurn(all, dist, ops[..], i, j, rest, source.Remaining());
      var slot := PlaceOnce(i, ops, source);
      if slot.Exhausted? {
        return false;
      }
    }
    NextOperation(ops[..], dist, i);
    FillNext(ops[..], dist, i, source.Remaining());
    return true;
  }

  /** A completed table: every operation as often as its frequency says, and nothing else. */
  ghost predicate FilledFrom(table: seq<nat>, dist: seq<nat>) {
    && |table| == SLOTS
    && (forall k :: 0 <= k < |dist| ==> Count(table, k) == dist[k])
    && (forall p :: 0 <= p < SLOTS ==> table[p] < |dist|)
  }

  /** The table part of `bm_phase_warmup`. OutOfWords means that the call is still probing. */
  method Warmup(dist: seq<nat>, ops: array<nat>, source: WordSource) returns (outcome: Outcome)
    requires |dist| < EMPTY && ops.Length == SLOTS && source.pos <= |source.words|
    modifies ops, source
    ensures source.pos <= |source.words|
    ensures outcome.AssertFailed? <==> Sum(dist) != SLOTS
    ensures outcome.AssertFailed? ==> ops[..] == old(ops[..]) && source.pos == old(source.pos)
    ensures !outcome.AssertFailed? ==> ops[..] == Fill(Repeat(EMPTY, SLOTS), Todo(dist, 0), old(source.Remaining()))
    ensures outcome.Filled? ==> FilledFrom(ops[..], dist)
    ensures outcome.OutOfWords? ==>
              && source.pos == |source.words|
              && (exists p :: 0 <= p < SLOTS && ops[..][p] == EMPTY)
              && (exists i, j :: 0 <= i < |dist| && 0 <= j < dist[i] && PlacedSoFar(ops[..], dist, i, j))
  {
    var total := Total(dist);
    if total != SLOTS {
      return Outcome.AssertFailed;
    }
    Clear(ops);
    NothingPlaced(ops[..], dist);
    assert ops[..] == Repeat(EMPTY, SLOTS);
    ghost var all := Fill(ops[..], Todo(dist, 0), source.Remaining());
    for i := 0 to |dist|
      invariant PlacedSoFar(ops[..], dist, i, 0) && source.pos <= |source.words|
      invariant all == Fill(ops[..], Todo(dist, i), source.Remaining())
    {
      var done := PlaceOperation(dist, i, ops, source);
      if !done {
        ghost var j :| 0 <= j < dist[i] && PlacedSoFar(ops[..], dist, i, j);
        FreeSlot(ops[..], dist, i, j);
        return OutOfWords;
      }
    }
    AllPlaced(ops[..], dist);
    return Filled;
  }

  /** Whatever words missed so far, the number of any empty slot ends the probing there. */
  lemma {:induction false} ProbeCanEnd(table: seq<nat>, words: seq<nat>, p: nat)
    requires 0 < |table| <= 0x8000_0000 && p < |table| && table[p] == EMPTY
    requires Probe(table, words).Exhausted?
    ensures Probe(table, words + [p]) == Drawn(p, |words| + 1)
    decreases |words|
  {
    var r := Reject(words, |table|);
    if r.Exhausted? {
      DrawCanEnd(words, |table|, p);
    } else {
      DrawIsLocal(words, [p], |table|);
      assert (words + [p])[r.used..] == words[r.used..] + [p];
      ProbeCanEnd(table, words[r.used..], p);
    }
  }

  /** A finished draw does not depend on the words after it. */
  lemma {:induction false} DrawIsLocal(words: seq<nat>, more: seq<nat>, range: nat)
    requires 0 < range <= 0x8000_0000 && Reject(words, range).Drawn?
    ensures Reject(words + more, range) == Reject(words, range)
  {
    assert (words + more)[1..] == words[1..] + more;
    if Reject(words[1..], range).Drawn? { DrawIsLocal(words[1..], more, range); }
  }

  // ----- Cyclic dispatch -----

  /** The first position of a worker, `DISTRIBUTION_BOUND * tid / num_threads`. */
  function StartPosition(tid: nat, threads: nat): (r: nat)
    requires tid < threads
  {
    SLOTS * tid / threads
  }

  /** The starts are spread evenly: the first is 0, and from one thread to the next it is 1024 / threads positions,
      rounded down or up. */
  lemma StartsAreSpread(t: nat, threads: nat)
    requires t < threads
    ensures threads * StartPosition(t, threads) <= SLOTS * t < threads * (StartPosition(t, threads) + 1)
    ensures StartPosition(0, threads) == 0
    ensures t + 1 < threads ==>
              SLOTS / threads <= StartPosition(t + 1, threads) - StartPosition(t, threads) <= SLOTS / threads + 1
  {
    var s, q := StartPosition(t, threads), SLOTS / threads;
    DivMod(SLOTS * t, threads);
    DivMod(SLOTS, threads);
    SmallMod(0, threads);
    if t + 1 < threads {
      var r := SLOTS * t % threads + SLOTS % threads;
      assert SLOTS * (t + 1) == s * threads + q * threads + r;
      assert (s + q) * threads == s * threads + q * threads && (s + q + 1) * threads == (s + q) * threads + threads;
      if r < threads {
        ModUnique(SLOTS * (t + 1), threads, s + q, r);
      } else {
        ModUnique(SLOTS * (t + 1), threads, s + q + 1, r - threads);
      }
    }
  }

  /** Threads start at different positions exactly when there are at most 1024 of them. */
  lemma StartsDifferExactly(threads: nat)
    ensures (forall t, u :: 0 <= t < u < threads ==> StartPosition(t, threads) != StartPosition(u, threads))
            <==> threads <= SLOTS
  {
    if threads <= SLOTS {
      forall t, u | 0 <= t < u < threads ensures StartPosition(t, threads) != StartPosition(u, threads) {
        var a, b := StartPosition(t, threads), StartPosition(u, threads);
        DivMod(SLOTS * t, threads);
        DivMod(SLOTS * u, threads);
        if b <= a { TimesMonotone(b, a, threads); }
      }
    } else {
      SmallMod(SLOTS, threads);
      SmallMod(0, threads);
      assert StartPosition(0, threads) == StartPosition(1, threads);
    }
  }

  /** The operation at counter value i; the counter is a 64-bit integer. */
  function OpAt(table: seq<nat>, i: nat): nat
    requires |table| == SLOTS
  {
    table[i % TWO64 % SLOTS]
  }

  lemma OpAtIsCyclic(table: seq<nat>, i: nat)
    requires |table| == SLOTS
    ensures OpAt(table, i) == table[i % SLOTS]
  {
    assert TWO64 == SLOTS * 0x40_0000_0000_0000;
    DivMod(i, TWO64);
    var r := i % TWO64;
    DivMod(r, SLOTS);
    ModUnique(i, SLOTS, (i / TWO64) * 0x40_0000_0000_0000 + r / SLOTS, r % SLOTS);
  }
}
