/** Random draws of `rand.h`: rejection sampling, weighted choice and aligned 64-bit draws.

    The random source is an arbitrary finite list of words. A draw consumes words until one is
    accepted; when the list ends first the draw is Exhausted, which stands for a call that has not
    returned yet. */
module Sampling {
  import opened Arithmetic
  import opened Bits
  import opened Seqs

  datatype Draw = Drawn(value: nat, used: nat) | Exhausted

  /** The do/while loop of `deterministic_random` and `_random`: the first word whose remainder is below range. */
  function Reject(words: seq<nat>, range: nat): (r: Draw)
    requires 0 < range <= 0x8000_0000
    ensures r.Drawn? ==> r.value < range && 0 < r.used <= |words|
  {
    if words == [] then Exhausted
    else
      var v := words[0] % Pow2RoundUp(range);
      if v < range then Drawn(v, 1)
      else
        match Reject(words[1..], range)
        case Exhausted => Exhausted
        case Drawn(value, used) => Drawn(value, used + 1)
  }

  /** A random source: the words it will deliver and how many have been read. */
  class WordSource {
    const words: seq<nat>
    var pos: nat

    function Remaining(): (r: seq<nat>)
      requires pos <= |words|
      reads this
      ensures |r| == |words| - pos
    {
      words[pos..]
    }

    constructor (words: seq<nat>)
      ensures this.words == words && pos == 0
    {
      this.words := words;
      pos := 0;
    }

    /** `deterministic_random` (and `_random`, which runs the same loop on another source of words). */
    method DeterministicRandom(range: nat) returns (r: Draw)
      requires pos <= |words| && 0 < range <= 0x8000_0000
      modifies this
      ensures pos <= |words|
      ensures r == Reject(old(Remaining()), range)
      ensures r.Drawn? ==> Remaining() == old(Remaining())[r.used..]
      ensures r.Exhausted? ==> pos == |words|
    {
      var used := 0;
      ghost var first := Remaining();
      while pos < |words|
        invariant old(pos) <= pos <= |words| && used == pos - old(pos)
        invariant Reject(first, range) == match Reject(Remaining(), range)
                                          case Exhausted => Exhausted
                                          case Drawn(value, more) => Drawn(value, used + more)
      {
        var v := words[pos] % Pow2RoundUp(range);
        ghost var before := Remaining();
        pos, used := pos + 1, used + 1;
        assert before[1..] == Remaining();
        if v < range {
          return Drawn(v, used);
        }
      }
      return Exhausted;
    }

    /** `deterministic_random_next_int` and `random_next_int`: a value in [min, max]. */
    method DeterministicRandomNextInt(min: nat, max: nat) returns (r: Draw)
      requires pos <= |words| && min <= max && max - min < 0x8000_0000
      modifies this
      ensures pos <= |words|
      ensures r == match Reject(old(Remaining()), max - min + 1)
                   case Exhausted => Exhausted
                   case Drawn(value, used) => Drawn(value + min, used)
      ensures r.Exhausted? ==> pos == |words|
      ensures r.Drawn? ==> min <= r.value <= max && Remaining() == old(Remaining())[r.used..]
    {
      r := DeterministicRandom(max - min + 1);
      if r.Drawn? {
        r := Drawn(r.value + min, r.used);
      }
    }
  }

  // ----- Every value is drawn by equally many words -----

  ghost function WordsFor(limit: nat, m: nat, v: nat): set<nat>
    requires m > 0
  {
    set w: nat | w < limit && w % m == v
  }

  lemma {:induction false} ResidueCount(q: nat, m: nat, v: nat)
    requires m > 0 && v < m
    ensures |WordsFor(q * m, m, v)| == q
  {
    if q == 0 {
      assert WordsFor(0, m, v) == {};
    } else {
      ResidueCount(q - 1, m, v);
      var before := WordsFor((q - 1) * m, m, v);
      var last := (q - 1) * m + v;
      assert q * m == (q - 1) * m + m;
      ModUnique(last, m, q - 1, v);
      forall w: nat | (q - 1) * m <= w < q * m && w % m == v ensures w == last {
        ModUnique(w, m, q - 1, w - (q - 1) * m);
      }
      assert WordsFor(q * m, m, v) == before + {last};
    }
  }

  ghost function AcceptedWords(bits: nat, range: nat, v: nat): set<nat>
    requires 0 < range <= 0x8000_0000
  {
    set w: nat | w < Pow2(bits) && Reject([w], range) == Drawn(v, 1)
  }

  /** Over all 2^bits words, each value below the range is accepted for the same, nonzero number of words. */
  lemma RejectionIsUniform(bits: nat, range: nat, v: nat)
    requires 0 < range <= 0x8000_0000 && range <= Pow2(bits) && v < range
    ensures var each := Pow2(bits) / Pow2RoundUp(range);
            each > 0 && |AcceptedWords(bits, range, v)| == each
  {
    var m := Pow2RoundUp(range);
    RoundUpIsLeast(range);
    var each := RoundUpDivides(bits, range);
    ResidueCount(each, m, v);
    assert AcceptedWords(bits, range, v) == WordsFor(Pow2(bits), m, v);
  }

  lemma RoundUpDivides(bits: nat, range: nat) returns (each: nat)
    requires 0 < range <= 0x8000_0000 && range <= Pow2(bits)
    ensures each > 0 && Pow2(bits) == each * Pow2RoundUp(range)
    ensures each == Pow2(bits) / Pow2RoundUp(range)
  {
    RoundUpIsLeast(range);
    var k: nat :| Pow2RoundUp(range) == Pow2(k);
    if k > bits { Pow2Monotone(bits, k - 1); }
    each := Pow2(bits - k);
    Pow2Add(bits - k, k);
    ModUnique(Pow2(bits), Pow2(k), each, 0);
  }

  /** Whatever words were rejected so far, a word exists that ends the draw with any wanted value. */
  lemma {:induction false} DrawCanEnd(words: seq<nat>, range: nat, v: nat)
    requires 0 < range <= 0x8000_0000 && v < range && Reject(words, range).Exhausted?
    ensures Reject(words + [v], range) == Drawn(v, |words| + 1)
  {
    RoundUpIsLeast(range);
    if words == [] {
      ModUnique(v, Pow2RoundUp(range), 0, v);
    } else {
      DrawCanEnd(words[1..], range, v);
      assert (words + [v])[1..] == words[1..] + [v];
    }
  }

  // ----- Weighted choice -----

  /** The 32-bit running sum of the first i weights. */
  function Running(weights: seq<nat>, i: nat): nat
    requires i <= |weights|
  {
    Sum(weights[..i]) % TWO32
  }

  lemma RunningStep(weights: seq<nat>, i: nat)
    requires i < |weights|
    ensures (Running(weights, i) + weights[i]) % TWO32 == Running(weights, i + 1)
  {
    SumStep(weights, i);
    ModAdd(Sum(weights[..i]), weights[i], TWO32);
  }

  lemma RunningIsSum(weights: seq<nat>, i: nat)
    requires i <= |weights| && Sum(weights) < TWO32
    ensures Running(weights, i) == Sum(weights[..i]) <= Sum(weights)
  {
    SumPrefix(weights, i, |weights|);
    assert weights[..|weights|] == weights;
    SmallMod(Sum(weights[..i]), TWO32);
  }

  datatype Choice = Index(i: nat) | Unreachable

  /** `random_with_probability` after its draw r; Unreachable is the assert at its end. */
  method RandomWithProbability(weights: seq<nat>, r: nat) returns (c: Choice)
    ensures c == Chosen(weights, r, 0)
  {
    var start := 0;
    for i := 0 to |weights|
      invariant start == Running(weights, i)
      invariant Chosen(weights, r, 0) == Chosen(weights, r, i)
    {
      RunningStep(weights, i);
      if r > start && r <= (start + weights[i]) % TWO32 {
        return Index(i);
      }
      start := (start + weights[i]) % TWO32;
    }
    return Unreachable;
  }

  /** The first index from i on between whose running sums r lies. */
  function Chosen(weights: seq<nat>, r: nat, i: nat): Choice
    requires i <= |weights|
    decreases |weights| - i
  {
    if i == |weights| then Unreachable
    else if Running(weights, i) < r <= Running(weights, i + 1) then Index(i)
    else Chosen(weights, r, i + 1)
  }

  ghost predicate AllBelow(weights: seq<nat>, r: nat, i: nat, k: nat)
    requires k < |weights|
  {
    forall j :: i <= j <= k ==> Running(weights, j) < r
  }

  /** Index k is returned exactly when its weight is the first to lift the running sum to r or above. */
  lemma {:induction false} ChosenExactly(weights: seq<nat>, r: nat, i: nat, k: nat)
    requires i <= k < |weights| && Running(weights, i) < r
    ensures Chosen(weights, r, i) == Index(k) <==> AllBelow(weights, r, i, k) && r <= Running(weights, k + 1)
    decreases |weights| - i
  {
    if Running(weights, i + 1) < r {
      if i < k { ChosenExactly(weights, r, i + 1, k); } else { ChosenAtLeast(weights, r, i + 1); }
    }
  }

  lemma {:induction false} ChosenAtLeast(weights: seq<nat>, r: nat, i: nat)
    requires i <= |weights|
    ensures Chosen(weights, r, i).Index? ==> i <= Chosen(weights, r, i).i < |weights|
    decreases |weights| - i
  {
    if i < |weights| { ChosenAtLeast(weights, r, i + 1); }
  }

  /** The draws of 1 to 100 that return index k. */
  ghost function DrawsFor(weights: seq<nat>, k: nat): set<nat> {
    set r: nat | 1 <= r <= 100 && Chosen(weights, r, 0) == Index(k)
  }

  /** When the weights sum to 100, exactly weights[k] of the 100 draws return k. */
  lemma WeightsAreExact(weights: seq<nat>, k: nat)
    requires Sum(weights) == 100 && k < |weights|
    ensures |DrawsFor(weights, k)| == weights[k]
  {
    var lo, hi := Sum(weights[..k]), Sum(weights[..k + 1]);
    SumStep(weights, k);
    RunningIsSum(weights, k + 1);
    forall r: nat ensures r in DrawsFor(weights, k) <==> r in Interval(lo, hi) {
      ChosenBySums(weights, r, k);
    }
    assert DrawsFor(weights, k) == Interval(lo, hi);
  }

  /** Without wrap-around, index k is returned exactly for the draws between its two prefix sums. */
  lemma ChosenBySums(weights: seq<nat>, r: nat, k: nat)
    requires Sum(weights) < TWO32 && k < |weights|
    ensures Chosen(weights, r, 0) == Index(k) <==> Sum(weights[..k]) < r <= Sum(weights[..k + 1])
  {
    RunningIsSum(weights, 0);
    RunningIsSum(weights, k);
    RunningIsSum(weights, k + 1);
    if r == 0 {
      ZeroIsNeverChosen(weights, 0);
    } else {
      ChosenExactly(weights, r, 0, k);
      forall j | 0 <= j <= k ensures Running(weights, j) <= Running(weights, k) {
        RunningIsSum(weights, j);
        SumPrefix(weights, j, k);
      }
    }
  }

  lemma {:induction false} ZeroIsNeverChosen(weights: seq<nat>, i: nat)
    requires i <= |weights|
    ensures Chosen(weights, 0, i) == Unreachable
    decreases |weights| - i
  {
    if i < |weights| { ZeroIsNeverChosen(weights, i + 1); }
  }

  ghost function Interval(lo: nat, hi: nat): (s: set<nat>)
    requires lo <= hi
    ensures |s| == hi - lo
    ensures forall r :: r in s <==> lo < r <= hi
  {
    if lo == hi then {} else Interval(lo, hi - 1) + {hi}
  }

  /** The assert at the end is never hit by a draw in [1, 100] exactly when some 32-bit running sum reaches 100. */
  lemma UnreachableExact(weights: seq<nat>)
    ensures (forall r: nat :: 1 <= r <= 100 ==> Chosen(weights, r, 0).Index?)
            <==> exists k :: 0 <= k <= |weights| && Running(weights, k) >= 100
  {
    SmallMod(0, TWO32);
    if k :| 0 <= k <= |weights| && Running(weights, k) >= 100 {
      forall r: nat | 1 <= r <= 100 ensures Chosen(weights, r, 0).Index? { ReachedIsChosen(weights, r, 0, k); }
    } else {
      NeverReached(weights, 100, 0);
    }
  }

  lemma {:induction false} ReachedIsChosen(weights: seq<nat>, r: nat, i: nat, k: nat)
    requires i <= k <= |weights| && Running(weights, i) < r <= Running(weights, k)
    ensures Chosen(weights, r, i).Index?
    decreases k - i
  {
    if Running(weights, i + 1) < r { ReachedIsChosen(weights, r, i + 1, k); }
  }

  lemma {:induction false} NeverReached(weights: seq<nat>, r: nat, i: nat)
    requires i <= |weights| && forall k :: i <= k <= |weights| ==> Running(weights, k) < r
    ensures Chosen(weights, r, i) == Unreachable
    decreases |weights| - i
  {
    if i < |weights| { NeverReached(weights, r, i + 1); }
  }

  /** For weights whose sum stays in 32 bits that means that they sum to 100 or more. */
  lemma UnreachableBySum(weights: seq<nat>)
    requires Sum(weights) < TWO32
    ensures (forall r: nat :: 1 <= r <= 100 ==> Chosen(weights, r, 0).Index?) <==> Sum(weights) >= 100
  {
    UnreachableExact(weights);
    forall k | 0 <= k <= |weights| ensures Running(weights, k) <= Sum(weights) { RunningIsSum(weights, k); }
    RunningIsSum(weights, |weights|);
    assert weights[..|weights|] == weights;
  }

  // ----- Aligned 64-bit draws -----

  datatype Aligned = Value(v: nat) | AssertFailed

  /** The two words reduced to the range and moved above min. */
  function Shifted(lsb: nat, msb: nat, min: nat, max: nat): nat
    requires min <= max
  {
    (msb * TWO32 + lsb) % (max - min + 1) + min
  }

  lemma ShiftedInRange(lsb: nat, msb: nat, min: nat, max: nat)
    requires min <= max
    ensures min <= Shifted(lsb, msb, min, max) <= max
    ensures Shifted(0, 0, min, max) == min
  {
    DivMod(msb * TWO32 + lsb, max - min + 1);
    SmallMod(0, max - min + 1);
  }

  /** `random_next_int64` on its two 32-bit words. `~((1 << a) - 1)` is an int for a <= 30 and
      becomes 2^64 - 2^a when widened. */
  function NextInt64(lsb: nat, msb: nat, min: nat, max: nat, a: nat): (r: Aligned)
    requires lsb < TWO32 && msb < TWO32
    requires min <= max < TWO64 && max - min + 1 < TWO64 && a <= 30
  {
    MaskedDraw(Shifted(lsb, msb, min, max), min, max, a)
  }

  /** The shifted number masked with `~((1 << a) - 1)`, and the two asserts. */
  function MaskedDraw(x: nat, min: nat, max: nat, a: nat): (r: Aligned)
    requires a <= 30
  {
    Pow2Small(a);
    var masked := And(Wrap64(x), TWO64 - Pow2(a));
    if masked >= min && masked <= max then Value(masked) else AssertFailed
  }

  lemma Pow2Small(a: nat)
    requires a <= 64
    ensures Pow2(a) <= TWO64 == Pow2(64)
  {
    Pow2Is64();
    Pow2Monotone(a, 64);
  }

  lemma Pow2Is64()
    ensures Pow2(64) == TWO64
  {
    assert Pow2(8) == 256;
    Pow2Add(8, 8);
    Pow2Add(16, 16);
    Pow2Add(32, 32);
  }

  /** The draw floors the shifted number to a multiple of 2^a. */
  lemma NextInt64Floors(lsb: nat, msb: nat, min: nat, max: nat, a: nat)
    requires lsb < TWO32 && msb < TWO32
    requires min <= max < TWO64 && max - min + 1 < TWO64 && a <= 30
    ensures var x := Shifted(lsb, msb, min, max);
            min <= x <= max && NextInt64(lsb, msb, min, max, a) ==
            if x - x % Pow2(a) >= min then Value(x - x % Pow2(a)) else AssertFailed
  {
    ShiftedInRange(lsb, msb, min, max);
    var x := Shifted(lsb, msb, min, max);
    Pow2Small(a);
    AndHighMask(x, 64 - a, a);
  }

  /** Both asserts hold for every pair of words exactly when min is aligned. */
  lemma AlignedDrawExact(min: nat, max: nat, a: nat)
    requires min <= max < TWO64 && max - min + 1 < TWO64 && a <= 30
    ensures (forall lsb: nat, msb: nat :: lsb < TWO32 && msb < TWO32 ==> NextInt64(lsb, msb, min, max, a).Value?)
            <==> min % Pow2(a) == 0
  {
    NextInt64Floors(0, 0, min, max, a);
    ShiftedInRange(0, 0, min, max);
    DivMod(min, Pow2(a));
    assert NextInt64(0, 0, min, max, a).Value? <==> min % Pow2(a) == 0;
    if min % Pow2(a) == 0 {
      forall lsb: nat, msb: nat | lsb < TWO32 && msb < TWO32 ensures NextInt64(lsb, msb, min, max, a).Value? {
        AlignedDraw(lsb, msb, min, max, a);
      }
    }
  }

  /** With an aligned min every draw is a multiple of 2^a in [min, max]. */
  lemma AlignedDraw(lsb: nat, msb: nat, min: nat, max: nat, a: nat)
    requires lsb < TWO32 && msb < TWO32
    requires min <= max < TWO64 && max - min + 1 < TWO64 && a <= 30 && min % Pow2(a) == 0
    ensures var r := NextInt64(lsb, msb, min, max, a);
            r.Value? && min <= r.v <= max && r.v % Pow2(a) == 0
  {
    NextInt64Floors(lsb, msb, min, max, a);
    FloorStaysAbove(min, Shifted(lsb, msb, min, max), Pow2(a));
  }

  /** Rounding down to a multiple of p does not cross another multiple of p. */
  lemma FloorStaysAbove(min: nat, x: nat, p: nat)
    requires p > 0 && min % p == 0 && min <= x
    ensures min <= x - x % p <= x && (x - x % p) % p == 0
  {
    var q, t := min / p, x / p;
    DivMod(min, p);
    DivMod(x, p);
    if t < q { BelowMultiple(t, q, p); } else { TimesMonotone(q, t, p); }
    ModUnique(t * p, p, t, 0);
  }

  /** The number that the two words make. */
  function Number(lsb: nat, msb: nat): nat { msb * TWO32 + lsb }

  /** A number below the range is moved above min and floored: the draw lies less than 2^a below it. */
  lemma SmallNumbersAreKept(lsb: nat, msb: nat, min: nat, max: nat, a: nat)
    requires lsb < TWO32 && msb < TWO32
    requires min <= max < TWO64 && max - min + 1 < TWO64 && a <= 30
    requires Number(lsb, msb) < max - min + 1
    ensures var r := NextInt64(lsb, msb, min, max, a);
            r.Value? ==> r.v <= min + Number(lsb, msb) < r.v + Pow2(a)
  {
    var x := min + Number(lsb, msb);
    assert Shifted(lsb, msb, min, max) == x by { SmallMod(Number(lsb, msb), max - min + 1); }
    NextInt64Floors(lsb, msb, min, max, a);
    assert 0 <= x % Pow2(a) < Pow2(a) by { DivMod(x, Pow2(a)); }
  }

  /** Words whose numbers differ by a multiple of the range draw the same. */
  lemma OnlyTheRemainderCounts(lsb: nat, msb: nat, lsb': nat, msb': nat, min: nat, max: nat, a: nat, q: nat)
    requires lsb < TWO32 && msb < TWO32 && lsb' < TWO32 && msb' < TWO32
    requires min <= max < TWO64 && max - min + 1 < TWO64 && a <= 30
    requires Number(lsb', msb') == Number(lsb, msb) + Times(q, max - min + 1)
    ensures NextInt64(lsb', msb', min, max, a) == NextInt64(lsb, msb, min, max, a)
  {
    assert Shifted(lsb', msb', min, max) == Shifted(lsb, msb, min, max) by {
      ModAddTimes(Number(lsb, msb), q, max - min + 1);
    }
  }

  /** With an aligned min, every aligned value of the range is drawn by some words. */
  lemma EveryAlignedValueIsDrawn(v: nat, min: nat, max: nat, a: nat) returns (lsb: nat, msb: nat)
    requires min <= v <= max < TWO64 && max - min + 1 < TWO64 && a <= 30
    requires min % Pow2(a) == 0 && v % Pow2(a) == 0
    ensures lsb < TWO32 && msb < TWO32 && NextInt64(lsb, msb, min, max, a) == Value(v)
  {
    lsb, msb := (v - min) % TWO32, (v - min) / TWO32;
    DivMod(v - min, TWO32);
    SmallMod(v - min, max - min + 1);
    NextInt64Floors(lsb, msb, min, max, a);
    AlignedDraw(lsb, msb, min, max, a);
  }
}
