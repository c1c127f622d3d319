/** Command-line flags: printed by the runner in `application.py`, read back by `bm_params.h`.

    The patterns of the reader are not anchored, so a flag is searched anywhere in an argument. */
module Flags {
  import opened Arithmetic
  import opened Bits
  import opened Lines
  import opened Seqs
  import opened Text

  const NONE: nat := 0xFFFF_FFFF

  datatype Maybe = Nothing | At(pos: nat)

  // ----- Reading -----

  /** The pattern -X=([0-9]+) at position p. */
  predicate MatchesAt(s: string, p: nat, letter: char) {
    p + 3 < |s| && s[p] == '-' && s[p + 1] == letter && s[p + 2] == '=' && IsDigit(s[p + 3])
  }

  function FindFlag(s: string, p: nat, letter: char): (r: Maybe)
    ensures r.At? ==> r.pos + 3 < |s|
    decreases |s| - p
  {
    if p >= |s| then Nothing else if MatchesAt(s, p, letter) then At(p) else FindFlag(s, p + 1, letter)
  }

  /** The pattern -op([0-9]+)=([0-9]+) at position p. */
  predicate MatchesOpAt(s: string, p: nat) {
    && p + 3 < |s| && s[p] == '-' && s[p + 1] == 'o' && s[p + 2] == 'p'
    && var q := DigitEnd(s, p + 3);
       p + 3 < q && q + 1 < |s| && s[q] == '=' && IsDigit(s[q + 1])
  }

  function FindOp(s: string, p: nat): (r: Maybe)
    ensures r.At? ==> MatchesOpAt(s, r.pos)
    decreases |s| - p
  {
    if p >= |s| then Nothing else if MatchesOpAt(s, p) then At(p) else FindOp(s, p + 1)
  }

  /** `strtoul` in base 0 on a position that holds a digit, stored in 32 bits: a leading 0 means octal. */
  function ValueAt(s: string, p: nat): nat
    requires p < |s|
  {
    var v := if s[p] == '0' then OctalFrom(s, p, 0) else ValueOf(s, p, DigitEnd(s, p));
    (if v > U64_MAX then U64_MAX else v) % TWO32
  }

  function OctalFrom(s: string, p: nat, acc: nat): nat
    requires p <= |s|
    decreases |s| - p
  {
    if p < |s| && '0' <= s[p] <= '7' then OctalFrom(s, p + 1, 8 * acc + DigitValue(s[p])) else acc
  }

  datatype Field = Threads(v: nat) | Noise(v: nat) | Duration(v: nat) | InitSize(v: nat) | OpDist(i: nat, v: nat) | NoMatch

  /** Which field `_bm_params_match_field` stores an argument in: the patterns are tried in this order. */
  function Classify(s: string): Field {
    match FindFlag(s, 0, 't')
    case At(p) => Threads(ValueAt(s, p + 3))
    case Nothing =>
      match FindFlag(s, 0, 'n')
      case At(p) => Noise(ValueAt(s, p + 3))
      case Nothing =>
        match FindFlag(s, 0, 'd')
        case At(p) => Duration(ValueAt(s, p + 3))
        case Nothing =>
          match FindFlag(s, 0, 's')
          case At(p) => InitSize(ValueAt(s, p + 3))
          case Nothing =>
            match FindOp(s, 0)
            case At(p) => OpDist(ValueAt(s, p + 3), ValueAt(s, DigitEnd(s, p + 3) + 1))
            case Nothing => NoMatch
  }

  datatype Error = None | IncorrectCount | Missing | AssertFailed

  /** The contents of `bm_params_t`. */
  datatype Fields = Fields(threads: nat, noise: nat, duration: nat, initSize: nat, dist: seq<nat>)

  /** The effect of one argument on the fields; an operation index out of range fails the assert. */
  function Store(f: Fields, field: Field): (r: Fields)
    requires field.OpDist? ==> field.i < |f.dist|
    ensures |r.dist| == |f.dist|
  {
    match field
    case Threads(v) => f.(threads := v)
    case Noise(v) => f.(noise := v)
    case Duration(v) => f.(duration := v)
    case InitSize(v) => f.(initSize := v)
    case OpDist(i, v) => f.(dist := f.dist[i := v])
    case NoMatch => f
  }

  /** `_bm_are_params_set`. */
  predicate AllSet(f: Fields) {
    f.threads != NONE && f.initSize != NONE && f.noise != NONE && f.duration != NONE &&
    forall i :: 0 <= i < |f.dist| ==> f.dist[i] != NONE
  }

  class Params {
    var numThreads: nat
    var initSz: nat
    var maxNoise: nat
    var duration: nat
    const opDist: array<nat>

    function Contents(): Fields
      reads this, opDist
    {
      Fields(numThreads, maxNoise, duration, initSz, opDist[..])
    }

    /** `op_dist` is allocated and not initialised: its first contents are arbitrary. */
    constructor (memory: seq<nat>)
      ensures Contents() == Fields(NONE, NONE, NONE, NONE, memory) && fresh(opDist)
    {
      numThreads, initSz, maxNoise, duration := NONE, NONE, NONE, NONE;
      opDist := new nat[|memory|](i requires 0 <= i < |memory| => memory[i]);
    }

    /** `_bm_params_match_field`; false is the failed assert on the operation index. */
    method MatchField(param: string) returns (ok: bool)
      modifies this, opDist
      ensures var field := Classify(param);
              if field.OpDist? && field.i >= opDist.Length then !ok && Contents() == old(Contents())
              else ok && Contents() == Store(old(Contents()), field)
    {
      var m := FindFlag(param, 0, 't');
      if m.At? {
        numThreads := ValueAt(param, m.pos + 3);
        return true;
      }
      m := FindFlag(param, 0, 'n');
      if m.At? {
        maxNoise := ValueAt(param, m.pos + 3);
        return true;
      }
      m := FindFlag(param, 0, 'd');
      if m.At? {
        duration := ValueAt(param, m.pos + 3);
        return true;
      }
      m := FindFlag(param, 0, 's');
      if m.At? {
        initSz := ValueAt(param, m.pos + 3);
        return true;
      }
      m := FindOp(param, 0);
      if m.At? {
        var i := ValueAt(param, m.pos + 3);
        if i >= opDist.Length {
          return false;
        }
        opDist[i] := ValueAt(param, DigitEnd(param, m.pos + 3) + 1);
      }
      return true;
    }

    /** `bm_params_extract` on the arguments behind the program name, for a target with opDist.Length operations. */
    method Extract(args: seq<string>) returns (e: Error)
      modifies this, opDist
      ensures e == IncorrectCount <==> |args| != 4 + opDist.Length
      ensures e == IncorrectCount ==> Contents() == old(Contents())
      ensures e != IncorrectCount ==>
                match StoreAll(old(Contents()), args)
                case Failed => e == AssertFailed
                case Stored(f) => Contents() == f && e == if AllSet(f) then None else Missing
    {
      if |args| != 4 + opDist.Length {
        return IncorrectCount;
      }
      ghost var first := Contents();
      assert args[..0] == [];
      for i := 0 to |args|
        invariant StoreAll(first, args[..i]) == Stored(Contents())
      {
        assert args[..i + 1][..i] == args[..i];
        var ok := MatchField(args[i]);
        if !ok {
          StaysFailed(first, args, i + 1);
          return Error.AssertFailed;
        }
      }
      assert args[..|args|] == args;
      var set_ := numThreads != NONE && initSz != NONE && maxNoise != NONE && duration != NONE;
      for i := 0 to opDist.Length
        invariant set_ <==> numThreads != NONE && initSz != NONE && maxNoise != NONE && duration != NONE &&
                            forall j :: 0 <= j < i ==> opDist[j] != NONE
      {
        set_ := set_ && opDist[i] != NONE;
      }
      e := if set_ then None else Missing;
    }
  }

  datatype Storing = Stored(f: Fields) | Failed

  /** The loop over all arguments. */
  function StoreAll(f: Fields, args: seq<string>): (r: Storing)
    ensures r.Stored? ==> |r.f.dist| == |f.dist|
  {
    if args == [] then Stored(f)
    else
      match StoreAll(f, args[..|args| - 1])
      case Failed => Failed
      case Stored(g) =>
        var field := Classify(args[|args| - 1]);
        if field.OpDist? && field.i >= |g.dist| then Failed else Stored(Store(g, field))
  }

  lemma {:induction false} StaysFailed(f: Fields, args: seq<string>, k: nat)
    requires k <= |args| && StoreAll(f, args[..k]).Failed?
    ensures StoreAll(f, args).Failed?
    decreases |args|
  {
    if k < |args| {
      assert args[..|args| - 1][..k] == args[..k];
      StaysFailed(f, args[..|args| - 1], k);
    } else {
      assert args[..k] == args;
    }
  }

  // ----- Printing -----

  /** What a benchmark run is configured with; `operations` of the runner is dist. */
  datatype RunConfig = RunConfig(threads: nat, noise: nat, duration: nat, initSize: nat, dist: seq<nat>)

  /** Every value below 2^32 - 1, which the reader takes for a value that was not set. */
  ghost predicate Printable(c: RunConfig) {
    && c.threads < NONE && c.noise < NONE && c.duration < NONE && c.initSize < NONE
    && |c.dist| < NONE && forall i :: 0 <= i < |c.dist| ==> c.dist[i] < NONE
  }

  function SimpleFlag(letter: char, v: nat): string { ['-', letter, '='] + Decimal(v) }

  function OpFlag(i: nat, v: nat): string { "-op" + Decimal(i) + "=" + Decimal(v) }

  function OpFlags(dist: seq<nat>): (r: seq<string>)
    ensures |r| == |dist| && forall i :: 0 <= i < |dist| ==> r[i] == OpFlag(i, dist[i])
  {
    if dist == [] then [] else OpFlags(dist[..|dist| - 1]) + [OpFlag(|dist| - 1, dist[|dist| - 1])]
  }

  /** The flags `get_cmd` prints with the default arguments, in its order. */
  function AllFlags(c: RunConfig): (r: seq<string>)
    ensures |r| == |c.dist| + 4
  {
    OpFlags(c.dist) + [SimpleFlag('t', c.threads), SimpleFlag('n', c.noise), SimpleFlag('d', c.duration),
                       SimpleFlag('s', c.initSize)]
  }

  function CommandLine(c: RunConfig): string { Join(AllFlags(c), ' ') }

  // ----- Where a pattern matches -----

  /** At position i stands -X= and a digit. */
  ghost predicate FlagText(s: string, i: nat, letter: char) {
    i <= |s| && exists d: char, rest: string :: IsDigit(d) && s[i..] == ['-', letter, '=', d] + rest
  }

  /** At position i stands -op, one or more digits, = and a digit. */
  ghost predicate OpText(s: string, i: nat) {
    i <= |s| && exists index: string, d: char, rest: string ::
      index != "" && AllDigits(index) && IsDigit(d) && s[i..] == "-op" + index + ['=', d] + rest
  }

  lemma MatchIsText(s: string, i: nat, letter: char)
    ensures MatchesAt(s, i, letter) <==> FlagText(s, i, letter)
  {
    if MatchesAt(s, i, letter) {
      assert s[i..] == ['-', letter, '=', s[i + 3]] + s[i + 4..];
    }
    if FlagText(s, i, letter) {
      var d: char, rest: string :| IsDigit(d) && s[i..] == ['-', letter, '=', d] + rest;
      var t := s[i..];
      assert t[0] == '-' && t[1] == letter && t[2] == '=' && t[3] == d;
    }
  }

  lemma MatchOpIsText(s: string, i: nat)
    ensures MatchesOpAt(s, i) <==> OpText(s, i)
  {
    if MatchesOpAt(s, i) {
      var q := DigitEnd(s, i + 3);
      AllDigitsUpTo(s, i + 3);
      var index := s[i + 3..q];
      assert s[i..] == "-op" + index + ['=', s[q + 1]] + s[q + 2..];
    }
    if OpText(s, i) {
      var index: string, d: char, rest: string :|
        index != "" && AllDigits(index) && IsDigit(d) && s[i..] == "-op" + index + ['=', d] + rest;
      OpTextMatches(s, i, index, d, rest);
    }
  }

  lemma OpTextMatches(s: string, i: nat, index: string, d: char, rest: string)
    requires i <= |s| && index != "" && AllDigits(index) && IsDigit(d) && s[i..] == "-op" + index + ['=', d] + rest
    ensures MatchesOpAt(s, i)
  {
    var t, q := s[i..], i + 3 + |index|;
    assert t[0] == '-' && t[1] == 'o' && t[2] == 'p' && t[3..3 + |index|] == index;
    assert t[3 + |index|] == '=' && t[4 + |index|] == d;
    forall k | i + 3 <= k < q ensures IsDigit(s[k]) { assert s[k] == t[k - i] == index[k - i - 3]; }
    assert s[q] == t[q - i] && s[q + 1] == t[q + 1 - i];
    DigitEndIs(s, i + 3, q);
  }

  lemma {:induction false} AllDigitsUpTo(s: string, p: nat)
    requires p <= |s|
    ensures forall k :: p <= k < DigitEnd(s, p) ==> IsDigit(s[k])
    decreases |s| - p
  {
    if p < |s| && IsDigit(s[p]) { AllDigitsUpTo(s, p + 1); }
  }

  /** The search of a simple pattern finds the first place where its text stands, anywhere in the argument. */
  lemma {:induction false} FlagIsFoundFirst(s: string, p: nat, letter: char)
    ensures match FindFlag(s, p, letter)
            case At(r) => p <= r && FlagText(s, r, letter) && forall i :: p <= i < r ==> !FlagText(s, i, letter)
            case Nothing => forall i :: p <= i ==> !FlagText(s, i, letter)
    decreases |s| - p
  {
    MatchIsText(s, p, letter);
    if p < |s| && !MatchesAt(s, p, letter) { FlagIsFoundFirst(s, p + 1, letter); }
    if p >= |s| {
      forall i | p <= i ensures !FlagText(s, i, letter) { MatchIsText(s, i, letter); }
    }
  }

  /** So does the search of the operation pattern. */
  lemma {:induction false} OpIsFoundFirst(s: string, p: nat)
    ensures match FindOp(s, p)
            case At(r) => p <= r && OpText(s, r) && forall i :: p <= i < r ==> !OpText(s, i)
            case Nothing => forall i :: p <= i ==> !OpText(s, i)
    decreases |s| - p
  {
    MatchOpIsText(s, p);
    if p < |s| && !MatchesOpAt(s, p) { OpIsFoundFirst(s, p + 1); }
    if p >= |s| {
      forall i | p <= i ensures !OpText(s, i) { MatchOpIsText(s, i); }
    }
  }

  // ----- Each flag matches one pattern -----

  lemma {:induction false} NoFlagBehind(s: string, p: nat, letter: char)
    requires forall i :: p <= i < |s| ==> s[i] != '-'
    ensures FindFlag(s, p, letter) == Nothing
    decreases |s| - p
  {
    if p < |s| { NoFlagBehind(s, p + 1, letter); }
  }

  lemma {:induction false} NoOpBehind(s: string, p: nat)
    requires forall i :: p <= i < |s| ==> s[i] != '-'
    ensures FindOp(s, p) == Nothing
    decreases |s| - p
  {
    if p < |s| { NoOpBehind(s, p + 1); }
  }

  lemma LeadingZero(n: nat)
    ensures Decimal(n)[0] == '0' <==> n == 0
  {
    if n >= 10 { LeadingZeroOf(n); }
  }

  lemma {:induction false} LeadingZeroOf(n: nat)
    requires n > 0
    ensures Decimal(n)[0] != '0'
  {
    if n >= 10 { LeadingZeroOf(n / 10); }
  }

  /** A printed value is read back in base 0 as well. */
  lemma ValueReadsDecimal(s: string, p: nat, q: nat, n: nat)
    requires p <= q <= |s| && s[p..q] == Decimal(n) && n < TWO32 && (q == |s| || !IsDigit(s[q]))
    ensures p < q && IsDigit(s[p]) && DigitEnd(s, p) == q && ValueAt(s, p) == n
  {
    forall i | p <= i < q ensures IsDigit(s[i]) { assert s[i] == Decimal(n)[i - p]; }
    DigitEndIs(s, p, q);
    assert s[p] == Decimal(n)[0];
    LeadingZero(n);
    if n == 0 {
      assert q == p + 1;
      ZeroIsOctal(s, p);
    } else {
      assert ValueOf(s, p, q) == n by {
        ValueOfSlice(s, p, q, Decimal(n));
        ValueOfDecimal(n);
      }
      SmallMod(n, TWO32);
    }
  }

  /** A larger value is clamped to 64 bits and stored in 32. */
  lemma LargeValuesWrap(s: string, p: nat, q: nat, n: nat)
    requires p <= q <= |s| && s[p..q] == Decimal(n) && n > 0 && (q == |s| || !IsDigit(s[q]))
    ensures p < q && ValueAt(s, p) == (if n > U64_MAX then U64_MAX else n) % TWO32
  {
    forall i | p <= i < q ensures IsDigit(s[i]) { assert s[i] == Decimal(n)[i - p]; }
    DigitEndIs(s, p, q);
    assert s[p] == Decimal(n)[0];
    LeadingZero(n);
    ValueOfSlice(s, p, q, Decimal(n));
    ValueOfDecimal(n);
  }

  function Octal(n: nat): (s: string)
    ensures s != "" && AllDigits(s)
  {
    if n < 8 then [DigitOf(n)] else Octal(n / 8) + [DigitOf(n % 8)]
  }

  lemma {:induction false} OctalDigits(s: string, p: nat, q: nat, n: nat)
    requires p <= q <= |s| && s[p..q] == Octal(n)
    ensures OctalFrom(s, p, 0) == OctalFrom(s, q, n)
    decreases n
  {
    var last := s[p..q][q - 1 - p];
    assert s[q - 1] == last;
    if n < 8 {
      assert last == DigitOf(n) && q == p + 1;
    } else {
      assert s[p..q - 1] == Octal(n)[..q - 1 - p] == Octal(n / 8);
      OctalDigits(s, p, q - 1, n / 8);
      assert last == DigitOf(n % 8);
    }
  }

  /** Behind a leading 0 the digits are octal. */
  lemma ValueReadsOctal(s: string, p: nat, q: nat, n: nat)
    requires p < q <= |s| && s[p] == '0' && s[p + 1..q] == Octal(n) && (q == |s| || !('0' <= s[q] <= '7'))
    ensures ValueAt(s, p) == (if n > U64_MAX then U64_MAX else n) % TWO32
  {
    OctalDigits(s, p + 1, q, n);
    assert OctalFrom(s, p, 0) == OctalFrom(s, p + 1, 0);
  }

  lemma ZeroIsOctal(s: string, p: nat)
    requires p < |s| && s[p] == '0' && (p + 1 == |s| || !IsDigit(s[p + 1]))
    ensures ValueAt(s, p) == 0
  {
    assert OctalFrom(s, p + 1, 0) == 0;
  }

  /** A printed -X= flag matches its own pattern and no other. */
  lemma SimpleFlagMatches(letter: char, v: nat, other: char)
    requires v < TWO32 && letter != '-'
    ensures var s := SimpleFlag(letter, v);
            && FindFlag(s, 0, other) == (if other == letter then At(0) else Nothing)
            && FindOp(s, 0) == Nothing
            && ValueAt(s, 3) == v
  {
    var s := SimpleFlag(letter, v);
    assert s[3..|s|] == Decimal(v);
    ValueReadsDecimal(s, 3, |s|, v);
    forall i | 1 <= i < |s| ensures s[i] != '-' {
      if i >= 3 { assert s[i] == Decimal(v)[i - 3]; }
    }
    NoFlagBehind(s, 1, other);
    NoOpBehind(s, 1);
  }

  /** A printed -opN= flag matches the operation pattern and no other. */
  lemma OpFlagMatches(i: nat, v: nat, other: char)
    requires i < TWO32 && v < TWO32 && other != 'o'
    ensures var s := OpFlag(i, v);
            && FindFlag(s, 0, other) == Nothing
            && FindOp(s, 0) == At(0)
            && ValueAt(s, 3) == i && ValueAt(s, DigitEnd(s, 3) + 1) == v
  {
    var s := OpFlag(i, v);
    var m := 3 + |Decimal(i)|;
    assert s[3..m] == Decimal(i) && s[m] == '=' && s[m + 1..|s|] == Decimal(v);
    ValueReadsDecimal(s, 3, m, i);
    ValueReadsDecimal(s, m + 1, |s|, v);
    forall k | 1 <= k < |s| ensures s[k] != '-' {
      if 3 <= k < m { assert s[k] == Decimal(i)[k - 3]; }
      if m < k { assert s[k] == Decimal(v)[k - m - 1]; }
    }
    NoFlagBehind(s, 1, other);
  }

  lemma SimpleFlagIsClassified(letter: char, v: nat)
    requires letter in {'t', 'n', 'd', 's'} && v < TWO32
    ensures Classify(SimpleFlag(letter, v)) ==
            if letter == 't' then Threads(v) else if letter == 'n' then Noise(v)
            else if letter == 'd' then Duration(v) else InitSize(v)
  {
    SimpleFlagMatches(letter, v, 't');
    SimpleFlagMatches(letter, v, 'n');
    SimpleFlagMatches(letter, v, 'd');
    SimpleFlagMatches(letter, v, 's');
  }

  lemma OpFlagIsClassified(i: nat, v: nat)
    requires i < TWO32 && v < TWO32
    ensures Classify(OpFlag(i, v)) == OpDist(i, v)
  {
    OpFlagMatches(i, v, 't');
    OpFlagMatches(i, v, 'n');
    OpFlagMatches(i, v, 'd');
    OpFlagMatches(i, v, 's');
  }

  // ----- The round trip -----

  /** f holds the value of every flag that is among args and the initial value of the others. */
  ghost predicate Partly(c: RunConfig, memory: seq<nat>, args: seq<string>, f: Fields) {
    && |f.dist| == |memory| == |c.dist|
    && f.threads == (if SimpleFlag('t', c.threads) in args then c.threads else NONE)
    && f.noise == (if SimpleFlag('n', c.noise) in args then c.noise else NONE)
    && f.duration == (if SimpleFlag('d', c.duration) in args then c.duration else NONE)
    && f.initSize == (if SimpleFlag('s', c.initSize) in args then c.initSize else NONE)
    && forall i :: 0 <= i < |c.dist| ==> f.dist[i] == if OpFlag(i, c.dist[i]) in args then c.dist[i] else memory[i]
  }

  lemma {:induction false} FlagsInAnyOrder(c: RunConfig, memory: seq<nat>, args: seq<string>)
    requires Printable(c) && |memory| == |c.dist|
    requires forall a :: a in args ==> a in AllFlags(c)
    ensures var r := StoreAll(Fields(NONE, NONE, NONE, NONE, memory), args);
            r.Stored? && Partly(c, memory, args, r.f)
    decreases |args|
  {
    if args != [] {
      var front, a := args[..|args| - 1], args[|args| - 1];
      assert args == front + [a];
      FlagsInAnyOrder(c, memory, front);
      OneMoreFlag(c, memory, front, a, StoreAll(Fields(NONE, NONE, NONE, NONE, memory), front).f);
    }
  }

  lemma OneMoreFlag(c: RunConfig, memory: seq<nat>, front: seq<string>, a: string, f: Fields)
    requires Printable(c) && Partly(c, memory, front, f) && a in AllFlags(c)
    ensures var field := Classify(a);
            && (field.OpDist? ==> field.i < |f.dist|)
            && Partly(c, memory, front + [a], Store(f, field))
  {
    if a in OpFlags(c.dist) {
      var i :| 0 <= i < |c.dist| && OpFlags(c.dist)[i] == a;
      OneMoreOp(c, memory, front, i, f);
    } else {
      OneMoreSimple(c, memory, front, a, f);
    }
  }

  lemma OneMoreSimple(c: RunConfig, memory: seq<nat>, front: seq<string>, a: string, f: Fields)
    requires Printable(c) && Partly(c, memory, front, f)
    requires a in [SimpleFlag('t', c.threads), SimpleFlag('n', c.noise), SimpleFlag('d', c.duration), SimpleFlag('s', c.initSize)]
    ensures Classify(a).Threads? || Classify(a).Noise? || Classify(a).Duration? || Classify(a).InitSize?
    ensures Partly(c, memory, front + [a], Store(f, Classify(a)))
  {
    ClassesDiffer(c);
    forall i | 0 <= i < |c.dist| ensures OpFlag(i, c.dist[i]) in front + [a] <==> OpFlag(i, c.dist[i]) in front {
      assert Classify(OpFlag(i, c.dist[i])) == OpDist(i, c.dist[i]);
    }
  }

  /** The flags of one configuration are classified as their own fields, so no two kinds are the same text. */
  lemma ClassesDiffer(c: RunConfig)
    requires Printable(c)
    ensures Classify(SimpleFlag('t', c.threads)) == Threads(c.threads)
    ensures Classify(SimpleFlag('n', c.noise)) == Noise(c.noise)
    ensures Classify(SimpleFlag('d', c.duration)) == Duration(c.duration)
    ensures Classify(SimpleFlag('s', c.initSize)) == InitSize(c.initSize)
    ensures forall i :: 0 <= i < |c.dist| ==> Classify(OpFlag(i, c.dist[i])) == OpDist(i, c.dist[i])
  {
    SimpleFlagIsClassified('t', c.threads);
    SimpleFlagIsClassified('n', c.noise);
    SimpleFlagIsClassified('d', c.duration);
    SimpleFlagIsClassified('s', c.initSize);
    forall i | 0 <= i < |c.dist| ensures Classify(OpFlag(i, c.dist[i])) == OpDist(i, c.dist[i]) {
      OpFlagIsClassified(i, c.dist[i]);
    }
  }

  lemma OneMoreOp(c: RunConfig, memory: seq<nat>, front: seq<string>, i: nat, f: Fields)
    requires Printable(c) && Partly(c, memory, front, f) && i < |c.dist|
    ensures var a := OpFlag(i, c.dist[i]);
            Classify(a) == OpDist(i, c.dist[i]) && Partly(c, memory, front + [a], Store(f, Classify(a)))
  {
    ClassesDiffer(c);
    var a := OpFlag(i, c.dist[i]);
    forall k | 0 <= k < |c.dist| && k != i ensures OpFlag(k, c.dist[k]) != a {
      assert Classify(OpFlag(k, c.dist[k])) == OpDist(k, c.dist[k]);
    }
  }

  lemma AllFlagsHold(c: RunConfig)
    ensures SimpleFlag('t', c.threads) in AllFlags(c) && SimpleFlag('n', c.noise) in AllFlags(c)
    ensures SimpleFlag('d', c.duration) in AllFlags(c) && SimpleFlag('s', c.initSize) in AllFlags(c)
    ensures forall i :: 0 <= i < |c.dist| ==> OpFlag(i, c.dist[i]) in AllFlags(c)
  {
    var flags, n := AllFlags(c), |c.dist|;
    assert flags[n] in flags && flags[n + 1] in flags && flags[n + 2] in flags && flags[n + 3] in flags;
    forall i | 0 <= i < n ensures OpFlag(i, c.dist[i]) in flags { assert flags[i] in flags; }
  }

  lemma NothingFromMemory(c: RunConfig, memory: seq<nat>, args: seq<string>, f: Fields)
    requires Printable(c) && Partly(c, memory, args, f)
    requires forall a :: a in AllFlags(c) ==> a in args
    ensures f == Fields(c.threads, c.noise, c.duration, c.initSize, c.dist)
  {
    AllFlagsHold(c);
    assert f.dist == c.dist;
  }

  /** For every configuration with printable values, any order of the printed flags, and whatever the memory held,
      the reader accepts and stores exactly the configuration. */
  lemma FlagsAreReadBack(c: RunConfig, memory: seq<nat>, args: seq<string>)
    requires Printable(c) && |memory| == |c.dist| && multiset(args) == multiset(AllFlags(c))
    ensures |args| == 4 + |memory|
    ensures StoreAll(Fields(NONE, NONE, NONE, NONE, memory), args) ==
            Stored(Fields(c.threads, c.noise, c.duration, c.initSize, c.dist))
    ensures AllSet(Fields(c.threads, c.noise, c.duration, c.initSize, c.dist))
  {
    SameElements(args, AllFlags(c));
    FlagsInAnyOrder(c, memory, args);
    NothingFromMemory(c, memory, args, StoreAll(Fields(NONE, NONE, NONE, NONE, memory), args).f);
  }

  /** The shell splits the printed command line into exactly the flags. */
  lemma CommandLineSplits(c: RunConfig)
    ensures Split(CommandLine(c), ' ') == AllFlags(c)
  {
    forall a | a in AllFlags(c) ensures ' ' !in a {
      var k :| 0 <= k < |AllFlags(c)| && AllFlags(c)[k] == a;
      FlagHasNoSpace(c, k);
    }
    SplitUndoesJoin(AllFlags(c), ' ');
  }

  lemma FlagHasNoSpace(c: RunConfig, k: nat)
    requires k < |c.dist| + 4
    ensures ' ' !in AllFlags(c)[k]
  {
    if k < |c.dist| {
      assert AllFlags(c)[k] == OpFlag(k, c.dist[k]);
      DigitsHaveNoSpace(Decimal(k));
      DigitsHaveNoSpace(Decimal(c.dist[k]));
    } else {
      DigitsHaveNoSpace(Decimal(c.threads));
      DigitsHaveNoSpace(Decimal(c.noise));
      DigitsHaveNoSpace(Decimal(c.duration));
      DigitsHaveNoSpace(Decimal(c.initSize));
    }
  }

  lemma DigitsHaveNoSpace(s: string)
    requires AllDigits(s)
    ensures ' ' !in s
  {
  }

  /** The configuration check of the runner. */
  predicate RunnerAccepts(dist: seq<nat>) { |dist| > 0 ==> Sum(dist) == 1024 }

  /** A configuration without operations passes the check, whatever the warm-up then makes of it. */
  lemma NoOperationsAreAccepted()
    ensures RunnerAccepts([])
  {
  }

  /** A command line the runner prints for a target with at least one operation is accepted, and the sum that the
      warm-up phase asserts is the one the runner checked. */
  lemma RunnerDischargesWarmup(c: RunConfig, memory: seq<nat>)
    requires Printable(c) && c.dist != [] && RunnerAccepts(c.dist) && |memory| == |c.dist|
    ensures var r := StoreAll(Fields(NONE, NONE, NONE, NONE, memory), Split(CommandLine(c), ' '));
            r.Stored? && AllSet(r.f) && Sum(r.f.dist) == 1024
  {
    CommandLineSplits(c);
    FlagsAreReadBack(c, memory, AllFlags(c));
  }

  // ----- Missing flags -----

  /** What a start with this memory stores. */
  function StoredFrom(memory: seq<nat>, args: seq<string>): (r: Storing)
    ensures r.Stored? ==> |r.f.dist| == |memory|
  {
    StoreAll(Fields(NONE, NONE, NONE, NONE, memory), args)
  }

  /** Some argument sets operation i. */
  ghost predicate Sets(args: seq<string>, i: nat) {
    exists a :: a in args && SetsOp(a, i)
  }

  predicate SetsOp(a: string, i: nat) {
    Classify(a).OpDist? && Classify(a).i == i
  }

  /** Without an argument for one of the four simple fields, the field keeps its initial value and the line is reported
      as incomplete. */
  lemma {:induction false} MissingSimpleFlag(memory: seq<nat>, args: seq<string>)
    requires StoredFrom(memory, args).Stored?
    ensures var f := StoredFrom(memory, args).f;
            && ((forall a :: a in args ==> !Classify(a).Threads?) ==> f.threads == NONE && !AllSet(f))
            && ((forall a :: a in args ==> !Classify(a).Noise?) ==> f.noise == NONE && !AllSet(f))
            && ((forall a :: a in args ==> !Classify(a).Duration?) ==> f.duration == NONE && !AllSet(f))
            && ((forall a :: a in args ==> !Classify(a).InitSize?) ==> f.initSize == NONE && !AllSet(f))
    decreases |args|
  {
    if args != [] {
      var front, a := args[..|args| - 1], args[|args| - 1];
      assert a in args && forall b :: b in front ==> b in args;
      MissingSimpleFlag(memory, front);
    }
  }

  /** An operation whose flag is missing keeps what the memory held. */
  lemma {:induction false} MissingOperationKeepsMemory(memory: seq<nat>, args: seq<string>, i: nat)
    requires i < |memory| && !Sets(args, i)
    ensures var r := StoredFrom(memory, args); r.Stored? ==> r.f.dist[i] == memory[i]
    decreases |args|
  {
    if args != [] {
      var front, a := args[..|args| - 1], args[|args| - 1];
      assert a in args && !SetsOp(a, i);
      assert !Sets(front, i);
      MissingOperationKeepsMemory(memory, front, i);
    }
  }

  /** From two memories the same arguments fail or are stored alike, except for operations they do not set. */
  lemma {:induction false} StoredAlike(m: seq<nat>, n: seq<nat>, args: seq<string>)
    requires |m| == |n|
    ensures match (StoredFrom(m, args), StoredFrom(n, args))
            case (Stored(f), Stored(g)) =>
              && f == g.(dist := f.dist)
              && forall i :: 0 <= i < |m| && Sets(args, i) ==> f.dist[i] == g.dist[i]
            case (Failed, Failed) => true
            case _ => false
    decreases |args|
  {
    if args != [] {
      var front, a := args[..|args| - 1], args[|args| - 1];
      StoredAlike(m, n, front);
      forall i: nat | Sets(args, i) && !SetsOp(a, i) ensures Sets(front, i) {
        var b :| b in args && SetsOp(b, i);
        assert args == front + [a];
      }
    }
  }

  /** n entries of uninitialised memory: 32-bit values. */
  ghost predicate IsMemory(m: seq<nat>, n: nat) {
    |m| == n && forall i :: 0 <= i < n ==> m[i] < TWO32
  }

  /** What is stored does not depend on the memory exactly when every operation is set by some argument. */
  lemma StoredExactlyWhenSet(args: seq<string>, n: nat)
    requires exists m :: IsMemory(m, n) && StoredFrom(m, args).Stored?
    ensures (forall m, m' | IsMemory(m, n) && IsMemory(m', n) :: StoredFrom(m, args) == StoredFrom(m', args))
            <==> forall i :: 0 <= i < n ==> Sets(args, i)
  {
    if forall i :: 0 <= i < n ==> Sets(args, i) {
      forall m, m' | IsMemory(m, n) && IsMemory(m', n) ensures StoredFrom(m, args) == StoredFrom(m', args) {
        StoredAlike(m, m', args);
        var r, r' := StoredFrom(m, args), StoredFrom(m', args);
        if r.Stored? { assert r.f.dist == r'.f.dist; }
      }
    } else {
      var i :| 0 <= i < n && !Sets(args, i);
      var m :| IsMemory(m, n) && StoredFrom(m, args).Stored?;
      var other := m[i := if m[i] == 0 then 1 else 0];
      assert IsMemory(other, n);
      MissingOperationKeepsMemory(m, args, i);
      MissingOperationKeepsMemory(other, args, i);
      StoredAlike(m, other, args);
    }
  }

  /** Arguments that are accepted on some memory are accepted on another one exactly when that does not hold 2^32 - 1
      for an operation without a flag. */
  lemma AcceptedExactly(args: seq<string>, good: seq<nat>, memory: seq<nat>)
    requires |good| == |memory| && StoredFrom(good, args).Stored? && AllSet(StoredFrom(good, args).f)
    ensures StoredFrom(memory, args).Stored?
    ensures AllSet(StoredFrom(memory, args).f) <==>
            forall i :: 0 <= i < |memory| && !Sets(args, i) ==> memory[i] != 0xFFFF_FFFF
  {
    StoredAlike(good, memory, args);
    forall i | 0 <= i < |memory| && !Sets(args, i) ensures StoredFrom(memory, args).f.dist[i] == memory[i] {
      MissingOperationKeepsMemory(memory, args, i);
    }
  }

  /** The printed flags with the flag of operation i replaced by a second one of operation j. */
  function Repeated(c: RunConfig, i: nat, j: nat): (r: seq<string>)
    requires i < |c.dist| && j < |c.dist|
    ensures |r| == |c.dist| + 4
  {
    AllFlags(c)[i := OpFlag(j, c.dist[j])]
  }

  /** Among the printed flags only the one of operation i sets operation i. */
  lemma PrintedSets(c: RunConfig, k: nat, i: nat)
    requires Printable(c) && k < |c.dist| + 4 && i < |c.dist|
    ensures SetsOp(AllFlags(c)[k], i) <==> k == i
  {
    ClassesDiffer(c);
    if k < |c.dist| { assert AllFlags(c)[k] == OpFlag(k, c.dist[k]); }
  }

  lemma RepeatedIsPrinted(c: RunConfig, i: nat, j: nat)
    requires Printable(c) && i < |c.dist| && j < |c.dist| && i != j
    ensures forall a :: a in Repeated(c, i, j) ==> a in AllFlags(c)
    ensures !Sets(Repeated(c, i, j), i)
  {
    var flags, args := AllFlags(c), Repeated(c, i, j);
    forall a | a in args ensures a in flags && !SetsOp(a, i) {
      var k :| 0 <= k < |args| && args[k] == a;
      var from := if k == i then j else k;
      assert a == flags[from];
      PrintedSets(c, from, i);
    }
  }

  lemma RepeatedHoldsTheOthers(c: RunConfig, i: nat, j: nat)
    requires i < |c.dist| && j < |c.dist| && i != j
    ensures var args := Repeated(c, i, j);
            && SimpleFlag('t', c.threads) in args && SimpleFlag('n', c.noise) in args
            && SimpleFlag('d', c.duration) in args && SimpleFlag('s', c.initSize) in args
            && forall k :: 0 <= k < |c.dist| && k != i ==> OpFlag(k, c.dist[k]) in args
  {
    var args, n := Repeated(c, i, j), |c.dist|;
    assert args[n] in args && args[n + 1] in args && args[n + 2] in args && args[n + 3] in args;
    forall k | 0 <= k < n && k != i ensures OpFlag(k, c.dist[k]) in args {
      assert args[k] == OpFlag(k, c.dist[k]) && args[k] in args;
    }
  }

  /** Such a command line has the right number of arguments and no flag for operation i; it is accepted, with
      whatever the memory held for that operation, unless that is 2^32 - 1. */
  lemma RepeatedFlagHidesMissing(c: RunConfig, memory: seq<nat>, i: nat, j: nat)
    requires Printable(c) && |memory| == |c.dist| && i < |c.dist| && j < |c.dist| && i != j
    ensures !Sets(Repeated(c, i, j), i)
    ensures var r := StoredFrom(memory, Repeated(c, i, j));
            && r == Stored(Fields(c.threads, c.noise, c.duration, c.initSize, c.dist[i := memory[i]]))
            && (AllSet(r.f) <==> memory[i] != NONE)
  {
    var args := Repeated(c, i, j);
    RepeatedIsPrinted(c, i, j);
    RepeatedHoldsTheOthers(c, i, j);
    FlagsInAnyOrder(c, memory, args);
    MissingOperationKeepsMemory(memory, args, i);
    OnlyOneFromMemory(c, memory, args, StoredFrom(memory, args).f, i);
  }

  lemma OnlyOneFromMemory(c: RunConfig, memory: seq<nat>, args: seq<string>, f: Fields, i: nat)
    requires Printable(c) && Partly(c, memory, args, f) && i < |c.dist| && f.dist[i] == memory[i]
    requires SimpleFlag('t', c.threads) in args && SimpleFlag('n', c.noise) in args
    requires SimpleFlag('d', c.duration) in args && SimpleFlag('s', c.initSize) in args
    requires forall k :: 0 <= k < |c.dist| && k != i ==> OpFlag(k, c.dist[k]) in args
    ensures f == Fields(c.threads, c.noise, c.duration, c.initSize, c.dist[i := memory[i]])
    ensures AllSet(f) <==> memory[i] != NONE
  {
    assert f.dist == c.dist[i := memory[i]];
  }

  /** For example `-op0=512` given twice, and no `-op1=`: on a memory that holds 7 the line is accepted. */
  lemma AcceptedWithoutFlag()
    ensures var args := ["-op0=512", "-op0=512", "-t=1", "-n=0", "-d=1", "-s=1"];
            !Sets(args, 1) && StoredFrom([0, 7], args) == Stored(Fields(1, 0, 1, 1, [512, 7]))
    ensures AllSet(Fields(1, 0, 1, 1, [512, 7]))
  {
    var c := RunConfig(1, 0, 1, 1, [512, 512]);
    RepeatedFlagHidesMissing(c, [0, 7], 1, 0);
    TwoOperationsPrinted(c);
    assert c.dist[1 := 7] == [512, 7];
  }

  lemma TwoOperationsPrinted(c: RunConfig)
    requires c == RunConfig(1, 0, 1, 1, [512, 512])
    ensures Repeated(c, 1, 0) == ["-op0=512", "-op0=512", "-t=1", "-n=0", "-d=1", "-s=1"]
  {
    assert Decimal(0) == "0" && Decimal(1) == "1";
    assert Decimal(51) == "51";
    assert Decimal(512) == "512";
    assert OpFlag(0, 512) == "-op0=512" && SimpleFlag('t', 1) == "-t=1" && SimpleFlag('n', 0) == "-n=0";
    assert SimpleFlag('d', 1) == "-d=1" && SimpleFlag('s', 1) == "-s=1";
    var args := Repeated(c, 1, 0);
    assert args[0] == OpFlag(0, 512) && args[1] == OpFlag(0, 512);
  }
}
