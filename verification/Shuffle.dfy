/** The in-place shuffle of `deterministic_random_shuffle` and what it does to the order of the array.

    The source picks, for i = 1, 2, ..., a position strictly below i and swaps the two elements.
    The sequence of picks is the only input; the module proves that every sequence of picks makes one
    single cycle through all positions, and that picks and single cycles correspond one to one. */
module Shuffle {
  import opened Sampling

  /** A list of picks: the k-th one (made when i = k + 1) is a position at most k. */
  ghost predicate Picks(cs: seq<nat>) {
    forall k :: 0 <= k < |cs| ==> cs[k] <= k
  }

  function Without(l: seq<nat>, at: nat): (r: seq<nat>)
    requires at < |l|
    ensures |r| == |l| - 1
  {
    l[..at] + l[at + 1..]
  }

  function Swap<T>(a: seq<T>, i: nat, j: nat): (r: seq<T>)
    requires i < |a| && j < |a|
    ensures |r| == |a|
  {
    a[i := a[j]][j := a[i]]
  }

  /** The array after the first |cs| rounds of the loop. */
  function Shuffled<T>(a: seq<T>, cs: seq<nat>): (r: seq<T>)
    requires Picks(cs) && (cs == [] || |cs| < |a|)
    ensures |r| == |a|
  {
    if cs == [] then a
    else
      var k := |cs| - 1;
      Swap(Shuffled(a, cs[..k]), k + 1, cs[k])
  }

  lemma ShuffledStep<T>(a: seq<T>, cs: seq<nat>, c: nat)
    requires Picks(cs) && |cs| + 1 < |a| && c <= |cs|
    ensures Picks(cs + [c])
    ensures Shuffled(a, cs + [c]) == Swap(Shuffled(a, cs), |cs| + 1, c)
  {
    assert (cs + [c])[..|cs|] == cs;
  }

  /** The picks the loop makes from round i on, until the array ends or the random words run out. */
  function DrawPicks(words: seq<nat>, i: nat, len: nat): (r: seq<nat>)
    requires 1 <= i && len <= MAX_SHUFFLE
    ensures |r| <= if i < len then len - i else 0
    ensures forall k :: 0 <= k < |r| ==> r[k] < i + k
    decreases len - i
  {
    if i >= len then []
    else
      match Reject(words, i)
      case Exhausted => []
      case Drawn(value, used) => [value] + DrawPicks(words[used..], i + 1, len)
  }

  /** The largest length for which `v_pow2_round_up(i)` stays within 32 bits in every round. */
  const MAX_SHUFFLE: nat := 0x8000_0001

  /** The loop before round |done| + 1: all is the list of picks it ends with, words is what is left of the words. */
  ghost predicate Round<T>(a: seq<T>, all: seq<nat>, done: seq<nat>, words: seq<nat>, now: seq<T>) {
    && |a| <= MAX_SHUFFLE
    && Picks(done) && (done == [] || |done| < |a|)
    && all == done + DrawPicks(words, |done| + 1, |a|)
    && now == Shuffled(a, done)
  }

  lemma NextRound<T>(a: seq<T>, all: seq<nat>, done: seq<nat>, words: seq<nat>, now: seq<T>, pick: nat, used: nat)
    requires Round(a, all, done, words, now) && |done| + 1 < |a|
    requires Reject(words, |done| + 1) == Drawn(pick, used)
    ensures |now| == |a| && pick <= |done| && used <= |words|
    ensures Round(a, all, done + [pick], words[used..], Swap(now, |done| + 1, pick))
  {
    ShuffledStep(a, done, pick);
    var more := DrawPicks(words[used..], |done| + 2, |a|);
    assert DrawPicks(words, |done| + 1, |a|) == [pick] + more by { FirstPick(words, |done| + 1, |a|, pick, used); }
    Reassociate(done, pick, more);
    assert |done + [pick]| + 1 == |done| + 2;
  }

  lemma FirstPick(words: seq<nat>, i: nat, len: nat, pick: nat, used: nat)
    requires 1 <= i < len <= MAX_SHUFFLE && Reject(words, i) == Drawn(pick, used)
    ensures DrawPicks(words, i, len) == [pick] + DrawPicks(words[used..], i + 1, len)
  {
  }

  lemma LastRound<T>(a: seq<T>, all: seq<nat>, done: seq<nat>, words: seq<nat>, now: seq<T>)
    requires Round(a, all, done, words, now)
    requires |done| + 1 < |a| ==> Reject(words, |done| + 1).Exhausted?
    ensures Picks(all) && (all == [] || |all| < |a|) && now == Shuffled(a, all) && all == done
  {
    assert all == done;
  }

  lemma Reassociate(s: seq<nat>, x: nat, t: seq<nat>)
    ensures s + ([x] + t) == (s + [x]) + t
  {
  }

  method SwapElements<T>(arr: array<T>, i: nat, index: nat)
    requires i < arr.Length && index < arr.Length
    modifies arr
    ensures arr[..] == Swap(old(arr[..]), i, index)
  {
    var temp := arr[i];
    arr[i] := arr[index];
    arr[index] := temp;
  }

  /** One round: draw a position below i and swap. */
  method ShuffleRound<T>(arr: array<T>, i: nat, source: WordSource) returns (index: Draw)
    requires 0 < i < arr.Length <= MAX_SHUFFLE && source.pos <= |source.words|
    modifies arr, source
    ensures source.pos <= |source.words|
    ensures index == Reject(old(source.Remaining()), i)
    ensures index.Exhausted? ==> arr[..] == old(arr[..])
    ensures index.Drawn? ==> arr[..] == Swap(old(arr[..]), i, index.value)
    ensures index.Drawn? ==> source.Remaining() == old(source.Remaining())[index.used..]
  {
    index := source.DeterministicRandomNextInt(0, i - 1);
    if index.Drawn? {
      SwapElements(arr, i, index.value);
    }
  }

  method ShuffleInPlace<T>(arr: array<T>, source: WordSource) returns (complete: bool)
    requires arr.Length <= MAX_SHUFFLE
    requires source.pos <= |source.words|
    modifies arr, source
    ensures source.pos <= |source.words|
    ensures var cs := DrawPicks(old(source.Remaining()), 1, arr.Length);
            arr[..] == Shuffled(old(arr[..]), cs) &&
            (complete <==> arr.Length <= 1 || |cs| == arr.Length - 1)
  {
    ghost var was, all := arr[..], DrawPicks(source.Remaining(), 1, arr.Length);
    ghost var done: seq<nat> := [];
    var i := 1;
    while i < arr.Length
      invariant i == |done| + 1 && source.pos <= |source.words|
      invariant Round(was, all, done, source.Remaining(), arr[..])
    {
      ghost var words, now := source.Remaining(), arr[..];
      var index := ShuffleRound(arr, i, source);
      if index.Exhausted? {
        LastRound(was, all, done, words, now);
        return false;
      }
      NextRound(was, all, done, words, now, index.value, index.used);
      done := done + [index.value];
      i := i + 1;
    }
    LastRound(was, all, done, source.Remaining(), arr[..]);
    return true;
  }

  // ----- One cycle -----

  /** The permutation made by the picks alone: position x receives the element from Sattolo(cs)[x]. */
  function Sattolo(cs: seq<nat>): (p: seq<nat>)
    requires Picks(cs)
    ensures |p| == |cs| + 1
  {
    if cs == [] then [0]
    else
      var k := |cs| - 1;
      Swap(Sattolo(cs[..k]) + [k + 1], k + 1, cs[k])
  }

  /** p applied k times to x. */
  ghost function Iterate(p: seq<nat>, k: nat, x: nat): nat
    requires x < |p| && forall i :: 0 <= i < |p| ==> p[i] < |p|
    ensures Iterate(p, k, x) < |p|
  {
    if k == 0 then x else p[Iterate(p, k - 1, x)]
  }

  ghost predicate Reaches(p: seq<nat>, x: nat, y: nat)
    requires x < |p| && forall i :: 0 <= i < |p| ==> p[i] < |p|
  {
    exists k: nat :: k < |p| && Iterate(p, k, x) == y
  }

  /** Following p from any position visits every position: p is one n-cycle. */
  ghost predicate SingleCycle(p: seq<nat>) {
    && |p| > 0
    && (forall i :: 0 <= i < |p| ==> p[i] < |p|)
    && forall x, y :: 0 <= x < |p| && 0 <= y < |p| ==> Reaches(p, x, y)
  }

  ghost function Follower(l: seq<nat>, k: nat): nat
    requires k < |l|
  {
    if k + 1 == |l| then l[0] else l[k + 1]
  }

  /** l lists all positions in the order p visits them. */
  ghost predicate Visits(p: seq<nat>, l: seq<nat>) {
    && |l| == |p| > 0
    && (forall x :: 0 <= x < |p| ==> x in l)
    && (forall k :: 0 <= k < |l| ==> l[k] < |p|)
    && (forall j, k :: 0 <= j < k < |l| ==> l[j] != l[k])
    && (forall k :: 0 <= k < |l| ==> NextIs(p, l, k))
  }

  ghost predicate NextIs(p: seq<nat>, l: seq<nat>, k: nat)
    requires k < |l|
  {
    l[k] < |p| && p[l[k]] == Follower(l, k)
  }

  /** Every round splices the new position into the visiting order, right after the pick. */
  lemma {:induction false} SattoloVisits(cs: seq<nat>) returns (l: seq<nat>)
    requires Picks(cs)
    ensures Visits(Sattolo(cs), l)
  {
    if cs == [] {
      l := [0];
    } else {
      var m := |cs| - 1;
      var before := SattoloVisits(cs[..m]);
      l := Splice(Sattolo(cs[..m]), before, cs[m]);
    }
  }

  lemma Splice(p: seq<nat>, l: seq<nat>, c: nat) returns (r: seq<nat>)
    requires Visits(p, l) && c < |p|
    ensures Visits(Swap(p + [|p|], |p|, c), r)
  {
    var n := |p|;
    var k := Where(l, c);
    r := l[..k + 1] + [n] + l[k + 1..];
    var q := Swap(p + [n], n, c);
    ListedAfterSplice(l, r, k, n);
    forall j | 0 <= j < |r| ensures NextIs(q, r, j) {
      assert NextIs(p, l, if j <= k then j else j - 1);
    }
  }

  lemma ListedAfterSplice(l: seq<nat>, r: seq<nat>, k: nat, n: nat)
    requires k < |l| && r == l[..k + 1] + [n] + l[k + 1..] && forall x :: 0 <= x < n ==> x in l
    ensures forall x :: 0 <= x < n + 1 ==> x in r
  {
    forall x | 0 <= x < n + 1 ensures x in r {
      if x < n {
        var j := Where(l, x);
        assert r[if j <= k then j else j + 1] == x;
      } else {
        assert r[k + 1] == x;
      }
    }
  }

  lemma {:induction false} IterateAlong(p: seq<nat>, l: seq<nat>, j: nat, k: nat)
    requires Visits(p, l) && j < |l| && k < |l|
    requires forall i :: 0 <= i < |p| ==> p[i] < |p|
    ensures Iterate(p, k, l[j]) == l[if j + k < |l| then j + k else j + k - |l|]
  {
    if k > 0 {
      IterateAlong(p, l, j, k - 1);
      var at := if j + k - 1 < |l| then j + k - 1 else j + k - 1 - |l|;
      assert NextIs(p, l, at);
    }
  }

  lemma VisitsIsSingleCycle(p: seq<nat>, l: seq<nat>)
    requires Visits(p, l)
    ensures SingleCycle(p)
  {
    forall x | 0 <= x < |p| ensures p[x] < |p| {
      var j := Where(l, x);
      assert NextIs(p, l, j);
    }
    forall x, y | 0 <= x < |p| && 0 <= y < |p| ensures Reaches(p, x, y) {
      var i := Where(l, x);
      var j := Where(l, y);
      IterateAlong(p, l, i, if j >= i then j - i else j - i + |l|);
    }
  }

  lemma Where<T>(l: seq<T>, x: T) returns (k: nat)
    requires x in l
    ensures k < |l| && l[k] == x
  {
    k :| 0 <= k < |l| && l[k] == x;
  }

  /** Whatever the picks, the shuffle moves the elements along one cycle through all positions. */
  lemma ShuffleIsOneCycle(cs: seq<nat>)
    requires Picks(cs)
    ensures SingleCycle(Sattolo(cs))
  {
    var l := SattoloVisits(cs);
    VisitsIsSingleCycle(Sattolo(cs), l);
  }

  /** The shuffled array is the old one read through that permutation; what was not reached is unchanged. */
  lemma {:induction false} ShuffledReadsThrough<T>(a: seq<T>, cs: seq<nat>)
    requires Picks(cs) && |cs| < |a|
    ensures forall x :: 0 <= x <= |cs| ==> 0 <= Sattolo(cs)[x] <= |cs| && Shuffled(a, cs)[x] == a[Sattolo(cs)[x]]
    ensures forall x :: |cs| < x < |a| ==> Shuffled(a, cs)[x] == a[x]
  {
    if cs != [] {
      ShuffledReadsThrough(a, cs[..|cs| - 1]);
    }
  }

  /** In a completed shuffle of two or more elements, nothing keeps its position. */
  lemma NothingStays<T>(a: seq<T>, cs: seq<nat>, x: nat)
    requires Picks(cs) && |cs| == |a| - 1 && |a| >= 2 && x < |a|
    requires forall i, j :: 0 <= i < j < |a| ==> a[i] != a[j]
    ensures Shuffled(a, cs)[x] != a[x]
  {
    ShuffleIsOneCycle(cs);
    ShuffledReadsThrough(a, cs);
    var p := Sattolo(cs);
    if p[x] == x {
      var y := if x == 0 then 1 else 0;
      assert Reaches(p, x, y);
      var k: nat :| k < |p| && Iterate(p, k, x) == y;
      FixedPointStays(p, x, k);
    }
  }

  lemma {:induction false} FixedPointStays(p: seq<nat>, x: nat, k: nat)
    requires x < |p| && p[x] == x && forall i :: 0 <= i < |p| ==> p[i] < |p|
    ensures Iterate(p, k, x) == x
  {
    if k > 0 { FixedPointStays(p, x, k - 1); }
  }

  // ----- Picks and cycles correspond one to one -----

  function Find(p: seq<nat>, v: nat): (k: nat)
    ensures k <= |p|
    ensures k < |p| ==> p[k] == v
    ensures forall j :: 0 <= j < k ==> p[j] != v
  {
    if p == [] then 0 else if p[0] == v then 0 else 1 + Find(p[1..], v)
  }

  /** Undoes the rounds from the last one on: the last pick is where the largest position ended up. */
  function Recover(p: seq<nat>): (cs: seq<nat>)
    decreases |p|
  {
    if |p| <= 1 then []
    else
      var n := |p| - 1;
      var c := Find(p, n);
      if c >= n then [] else Recover(Swap(p, n, c)[..n]) + [c]
  }

  /** The picks can be read off the result, so different picks give different results. */
  lemma {:induction false} RecoverUndoesSattolo(cs: seq<nat>)
    requires Picks(cs)
    ensures Recover(Sattolo(cs)) == cs
  {
    if cs != [] {
      var k := |cs| - 1;
      var before := Sattolo(cs[..k]);
      var p := Sattolo(cs);
      SattoloInRange(cs[..k]);
      RecoverUndoesSattolo(cs[..k]);
      SwapForward(before, k + 1, cs[k]);
      RecoverStep(p, cs[k]);
      assert cs == cs[..k] + [cs[k]];
    }
  }

  /** So on distinct elements different picks shuffle to different arrays. */
  lemma ShuffledTellsPicks<T>(a: seq<T>, cs: seq<nat>, ds: seq<nat>)
    requires Picks(cs) && Picks(ds) && |cs| == |ds| < |a|
    requires forall i, j :: 0 <= i < j < |a| ==> a[i] != a[j]
    requires Shuffled(a, cs) == Shuffled(a, ds)
    ensures cs == ds
  {
    ShuffledReadsThrough(a, cs);
    ShuffledReadsThrough(a, ds);
    assert Sattolo(cs) == Sattolo(ds);
    RecoverUndoesSattolo(cs);
    RecoverUndoesSattolo(ds);
  }

  lemma RecoverStep(p: seq<nat>, c: nat)
    requires |p| >= 2 && Find(p, |p| - 1) == c < |p| - 1
    ensures Recover(p) == Recover(Swap(p, |p| - 1, c)[..|p| - 1]) + [c]
  {
  }

  lemma SwapForward(q: seq<nat>, n: nat, c: nat)
    requires |q| == n && c < n && forall x :: 0 <= x < n ==> q[x] < n
    ensures var p := Swap(q + [n], n, c); Find(p, n) == c && Swap(p, n, c)[..n] == q
  {
    var p := Swap(q + [n], n, c);
    assert p[c] == n;
  }

  lemma SattoloInRange(cs: seq<nat>)
    requires Picks(cs)
    ensures forall x :: 0 <= x <= |cs| ==> Sattolo(cs)[x] <= |cs|
  {
    ShuffledReadsThrough(Sattolo(cs), cs);
  }

  /** Every single cycle is the result of some picks, namely of the recovered ones. */
  lemma EveryCycleIsShuffled(p: seq<nat>)
    requires SingleCycle(p)
    ensures Picks(Recover(p)) && Sattolo(Recover(p)) == p
  {
    var l := OrbitVisits(p);
    RecoverIsInverse(p, l);
  }

  lemma {:induction false} RecoverIsInverse(p: seq<nat>, l: seq<nat>)
    requires Visits(p, l)
    ensures Picks(Recover(p)) && |Recover(p)| == |p| - 1 && Sattolo(Recover(p)) == p
    decreases |p|
  {
    if |p| == 1 {
      assert l[0] == 0 && NextIs(p, l, 0);
      assert p == [0];
    } else {
      var n := |p| - 1;
      var at := Where(l, n);
      var c := if at == 0 then l[|l| - 1] else l[at - 1];
      LastPick(p, l, at, c);
      var q := Swap(p, n, c)[..n];
      UnspliceVisits(p, l, at, c);
      RecoverIsInverse(q, Without(l, at));
      SattoloStep(Recover(q), c);
      SwapBack(p, n, c);
    }
  }

  lemma SattoloStep(cs: seq<nat>, c: nat)
    requires Picks(cs) && c <= |cs|
    ensures Picks(cs + [c]) && Sattolo(cs + [c]) == Swap(Sattolo(cs) + [|cs| + 1], |cs| + 1, c)
  {
    assert (cs + [c])[..|cs|] == cs;
  }

  lemma SwapBack(p: seq<nat>, n: nat, c: nat)
    requires |p| == n + 1 && c < n && p[c] == n
    ensures Swap(Swap(p, n, c)[..n] + [n], n, c) == p
  {
  }

  lemma LastPick(p: seq<nat>, l: seq<nat>, at: nat, c: nat)
    requires Visits(p, l) && |p| >= 2 && at < |l| && l[at] == |p| - 1
    requires c == if at == 0 then l[|l| - 1] else l[at - 1]
    ensures c < |p| - 1 && p[c] == |p| - 1 && Find(p, |p| - 1) == c
  {
    assert NextIs(p, l, if at == 0 then |l| - 1 else at - 1);
    OnlyPreimage(p, l, c);
  }

  lemma OnlyPreimage(p: seq<nat>, l: seq<nat>, c: nat)
    requires Visits(p, l) && c < |p|
    ensures forall x :: 0 <= x < |p| && p[x] == p[c] ==> x == c
  {
    forall x | 0 <= x < |p| && p[x] == p[c] ensures x == c {
      var i := Where(l, x);
      var j := Where(l, c);
      assert NextIs(p, l, i) && NextIs(p, l, j);
    }
  }

  lemma StillListed(l: seq<nat>, at: nat, n: nat)
    requires at < |l| && l[at] == n && forall x :: 0 <= x <= n ==> x in l
    ensures forall x :: 0 <= x < n ==> x in Without(l, at)
  {
    forall x | 0 <= x < n ensures x in Without(l, at) {
      var j := Where(l, x);
      assert Without(l, at)[if j < at then j else j - 1] == x;
    }
  }

  lemma UnspliceVisits(p: seq<nat>, l: seq<nat>, at: nat, c: nat)
    requires Visits(p, l) && |p| >= 2 && at < |l| && l[at] == |p| - 1
    requires c == if at == 0 then l[|l| - 1] else l[at - 1]
    requires c < |p| - 1 && p[c] == |p| - 1
    ensures Visits(Swap(p, |p| - 1, c)[..|p| - 1], Without(l, at))
  {
    var n := |p| - 1;
    var q := Swap(p, n, c)[..n];
    var rest := Without(l, at);
    StillListed(l, at, n);
    assert NextIs(p, l, at);
    forall j | 0 <= j < |rest| ensures NextIs(q, rest, j) {
      var i := if j < at then j else j + 1;
      assert rest[j] == l[i] && l[i] != l[at];
      assert NextIs(p, l, i);
    }
  }

  /** From the orbit statement back to the list of visited positions. */
  lemma OrbitVisits(p: seq<nat>) returns (l: seq<nat>)
    requires SingleCycle(p)
    ensures Visits(p, l)
  {
    var n := |p|;
    l := seq(n, k requires 0 <= k < n => Iterate(p, k, 0));
    forall x | 0 <= x < n ensures x in l {
      assert Reaches(p, 0, x);
      var k: nat :| k < |p| && Iterate(p, k, 0) == x;
      assert l[k] == x;
    }
    CoversIsInjective(l, n);
    forall k | 0 <= k < n ensures NextIs(p, l, k) {
      if k + 1 < n {
        assert l[k + 1] == Iterate(p, k + 1, 0);
      } else {
        var x := p[l[k]];
        var j := Where(l, x);
        if j > 0 {
          assert Reaches(p, x, 0);
          var m: nat :| m < |p| && Iterate(p, m, x) == 0;
          var i := StaysBehind(p, l, j, m);
        }
      }
    }
  }

  /** If the walk closed on a position other than its start, it would stay in the list from there on. */
  lemma {:induction false} StaysBehind(p: seq<nat>, l: seq<nat>, j: nat, m: nat) returns (i: nat)
    requires SingleCycle(p) && |l| == |p| && 0 < j < |l|
    requires forall k :: 0 <= k < |l| ==> l[k] == Iterate(p, k, 0)
    requires p[Iterate(p, |l| - 1, 0)] == l[j]
    ensures j <= i < |l| && Iterate(p, m, l[j]) == Iterate(p, i, 0)
  {
    if m == 0 {
      i := j;
    } else {
      var before := StaysBehind(p, l, j, m - 1);
      i := if before + 1 < |l| then before + 1 else j;
    }
  }

  /** A list of n entries that contains all n positions has no repeats. */
  lemma CoversIsInjective(l: seq<nat>, n: nat)
    requires |l| == n && forall x :: 0 <= x < n ==> x in l
    ensures forall a, b :: 0 <= a < b < |l| ==> l[a] != l[b]
  {
    forall a, b | 0 <= a < b < |l| ensures l[a] != l[b] {
      if l[a] == l[b] {
        var short := Without(l, b);
        forall x | 0 <= x < n ensures x in short {
          var k := Where(l, x);
          var k' := if k == b then a else k;
          assert short[if k' < b then k' else k' - 1] == x;
        }
        CoverIsLong(short, n);
      }
    }
  }

  lemma {:induction false} CoverIsLong(l: seq<nat>, n: nat)
    requires forall x :: 0 <= x < n ==> x in l
    ensures |l| >= n
  {
    if n > 0 {
      var k := Where(l, n - 1);
      var rest := Without(l, k);
      forall x | 0 <= x < n - 1 ensures x in rest {
        var j := Where(l, x);
        assert rest[if j < k then j else j - 1] == x;
      }
      CoverIsLong(rest, n - 1);
    }
  }
}
