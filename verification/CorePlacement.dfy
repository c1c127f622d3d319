/** Which cores each container gets: the count list of `list.py`, the default offsets of `container.py`
    and the core sets of `get_cpu_set` in `bm_utils.py`. */
module CorePlacement {
  import opened Arithmetic
  import opened Cyclic
  import opened Seqs

  datatype Option<T> = None | Some(value: T)

  // ----- Lists of values -----

  /** x is reached from start by whole steps before stop. */
  predicate InRange(start: int, stop: int, step: int, x: int)
    requires step != 0
  {
    if step > 0 then start <= x < stop && (x - start) % step == 0
    else stop < x <= start && (start - x) % (-step) == 0
  }

  lemma RangeMembers(start: int, stop: int, step: int, rest: seq<int>)
    requires step != 0 && (if step > 0 then start < stop else start > stop)
    requires forall x :: x in rest <==> InRange(start + step, stop, step, x)
    ensures forall x :: x in [start] + rest <==> InRange(start, stop, step, x)
  {
    forall x ensures x == start || InRange(start + step, stop, step, x) <==> InRange(start, stop, step, x) {
      if step > 0 { OneStepLess(x - start, step); } else { OneStepLess(start - x, -step); }
    }
  }

  lemma OneStepLess(d: int, step: int)
    requires step > 0
    ensures d >= 0 && d % step == 0 <==> d == 0 || (d - step >= 0 && (d - step) % step == 0)
  {
    ModPlus(d - step, step);
    if 0 < d < step { SmallMod(d, step); }
    SmallMod(0, step);
  }

  /** Python's range(start, stop, step) for a step that is not 0. */
  function Range(start: int, stop: int, step: int): (r: seq<int>)
    requires step != 0
    ensures forall i :: 0 <= i < |r| ==> r[i] == start + Times(i, step)
    ensures forall x :: x in r <==> InRange(start, stop, step, x)
    decreases if step > 0 then stop - start else start - stop
  {
    if (if step > 0 then start >= stop else start <= stop) then []
    else
      var rest := Range(start + step, stop, step);
      RangeStep(start, step, rest);
      RangeMembers(start, stop, step, rest);
      [start] + rest
  }

  lemma RangeStep(start: int, step: int, rest: seq<int>)
    requires forall i :: 0 <= i < |rest| ==> rest[i] == start + step + Times(i, step)
    ensures forall i :: 0 <= i < |rest| + 1 ==> ([start] + rest)[i] == start + Times(i, step)
  {
    forall i | 0 <= i < |rest| ensures start + step + Times(i, step) == start + Times(i + 1, step) {}
  }

  datatype Item = Values(list: seq<int>) | Span(min: int, max: int, step: int) | Unknown

  predicate StrictlyIncreasing(s: seq<int>) {
    forall i, j :: 0 <= i < j < |s| ==> s[i] < s[j]
  }

  /** What one configured item contributes. */
  function ItemValues(item: Item): (r: seq<int>)
    requires item.Span? ==> item.step != 0
    ensures forall x :: x in r <==> StandsFor(item, x)
  {
    match item
    case Values(list) => list
    case Span(min, max, step) => Range(min, max + 1, step)
    case Unknown => []
  }

  /** What an item stands for: the values it lists, or those from min to max in whole steps; a negative step goes down
      from min to, but not including, max + 1. */
  predicate StandsFor(item: Item, x: int) {
    match item
    case Values(list) => x in list
    case Span(min, max, step) =>
      || (step > 0 && min <= x <= max && (x - min) % step == 0)
      || (step < 0 && max + 1 < x <= min && (min - x) % (-step) == 0)
    case Unknown => false
  }

  /** `ListConfig.get_list` without a format: None is the ValueError of a zero step. */
  method GetList(vals: seq<Item>) returns (r: Option<seq<int>>)
    ensures r.None? <==> exists v :: v in vals && v.Span? && v.step == 0
    ensures r.Some? ==> StrictlyIncreasing(r.value)
    ensures r.Some? ==> forall x :: x in r.value <==> exists v :: v in vals && StandsFor(v, x)
  {
    var combined: seq<int> := [];
    for i := 0 to |vals|
      invariant forall v :: v in vals[..i] && v.Span? ==> v.step != 0
      invariant forall x :: x in combined <==> exists v :: v in vals[..i] && StandsFor(v, x)
    {
      assert vals[..i + 1] == vals[..i] + [vals[i]];
      if vals[i].Span? && vals[i].step == 0 {
        return None;
      }
      combined := combined + ItemValues(vals[i]);
    }
    assert vals[..|vals|] == vals;
    var unique := SortedUnique(combined);
    return Some(unique);
  }

  /** sorted(set(items)). */
  method SortedUnique(items: seq<int>) returns (r: seq<int>)
    ensures StrictlyIncreasing(r)
    ensures forall x :: x in r <==> x in items
  {
    r := [];
    for i := 0 to |items|
      invariant StrictlyIncreasing(r)
      invariant forall x :: x in r <==> x in items[..i]
    {
      assert items[..i + 1] == items[..i] + [items[i]];
      InsertKeepsOrder(r, items[i]);
      r := Insert(r, items[i]);
    }
    assert items[..|items|] == items;
  }

  function Insert(s: seq<int>, x: int): seq<int>
  {
    if s == [] then [x]
    else if x < s[0] then [x] + s
    else if x == s[0] then s
    else [s[0]] + Insert(s[1..], x)
  }

  lemma PrependKeepsOrder(x: int, s: seq<int>)
    requires StrictlyIncreasing(s) && forall y :: y in s ==> x < y
    ensures StrictlyIncreasing([x] + s)
  {
    forall j | 0 <= j < |s| ensures x < s[j] { assert s[j] in s; }
  }

  lemma {:induction false} InsertKeepsOrder(s: seq<int>, x: int)
    requires StrictlyIncreasing(s)
    ensures StrictlyIncreasing(Insert(s, x))
    ensures forall y :: y in Insert(s, x) <==> y in s || y == x
  {
    if s != [] {
      assert s == [s[0]] + s[1..];
      forall y | y in s[1..] ensures s[0] < y {}
      if x < s[0] {
        PrependKeepsOrder(x, s);
      } else if x > s[0] {
        InsertKeepsOrder(s[1..], x);
        PrependKeepsOrder(s[0], Insert(s[1..], x));
      }
    }
  }

  // ----- Offsets and core sets -----

  /** The default `core_affinity_offsets`; None is the IndexError of an empty count list. */
  function DefaultOffsets(counts: seq<int>, coreCount: int): Option<seq<int>> {
    if counts == [] then None
    else
      var last := counts[|counts| - 1];
      Some(seq(if last > 0 then last else 0, i => Times(coreCount, i)))
  }

  /** Every container count of the list finds an offset for each of its containers. */
  lemma OffsetsCoverEveryCount(counts: seq<int>, coreCount: int, k: int, i: nat)
    requires StrictlyIncreasing(counts) && k in counts && i < k
    ensures DefaultOffsets(counts, coreCount).Some?
    ensures i < |DefaultOffsets(counts, coreCount).value|
    ensures DefaultOffsets(counts, coreCount).value[i] == coreCount * i
    ensures |DefaultOffsets(counts, coreCount).value| in counts
    ensures forall n :: n in counts ==> n <= |DefaultOffsets(counts, coreCount).value|
  {
    var j :| 0 <= j < |counts| && counts[j] == k;
    assert j < |counts| - 1 ==> counts[j] < counts[|counts| - 1];
  }

  function Core(start: int, i: nat, total: nat): int
    requires total > 0
  {
    if start + i >= total then (start + i) % total else start + i
  }

  /** `get_cpu_set`, as the list of cores it joins with commas. */
  method GetCpuSet(start: int, coreCnt: nat, total: nat) returns (cores: seq<int>)
    requires coreCnt > 0 && total > 0
    ensures cores == CpuSet(start, coreCnt, total)
  {
    var cnt := coreCnt;
    if cnt > total {
      cnt := total;
    }
    cores := [];
    for i := 0 to cnt
      invariant |cores| == i && forall j :: 0 <= j < i ==> cores[j] == Core(start, j, total)
    {
      var core := start + i;
      if core >= total {
        core := core % total;
      }
      cores := cores + [core];
    }
  }

  function CpuSet(start: int, coreCnt: nat, total: nat): (r: seq<int>)
    requires total > 0
  {
    seq(if coreCnt > total then total else coreCnt, j requires 0 <= j => Core(start, j, total))
  }

  /** The cores of container i with the default offsets. */
  function Block(i: nat, coreCnt: nat, total: nat): seq<int>
    requires total > 0
  {
    CpuSet(Times(coreCnt, i), coreCnt, total)
  }

  lemma BlockEntry(i: nat, j: nat, coreCnt: nat, total: nat)
    requires total > 0 && j < |Block(i, coreCnt, total)|
    ensures Times(coreCnt, i) >= 0
    ensures Block(i, coreCnt, total)[j] == (Times(coreCnt, i) + j) % total
  {
    TimesMonotone(0, i, coreCnt);
    var m := Times(coreCnt, i) + j;
    if m < total { SmallMod(m, total); }
  }

  /** No container gets a core twice, and every core exists. */
  lemma BlockHasNoRepeats(i: nat, coreCnt: nat, total: nat)
    requires total > 0
    ensures var b := Block(i, coreCnt, total);
            && (forall j :: 0 <= j < |b| ==> 0 <= b[j] < total)
            && (forall j, k :: 0 <= j < k < |b| ==> b[j] != b[k])
  {
    var b := Block(i, coreCnt, total);
    forall j | 0 <= j < |b| ensures 0 <= b[j] < total { BlockEntry(i, j, coreCnt, total); }
    forall j, k | 0 <= j < k < |b| ensures b[j] != b[k] {
      BlockEntry(i, j, coreCnt, total);
      BlockEntry(i, k, coreCnt, total);
      var x, y := Times(coreCnt, i) + j, Times(coreCnt, i) + k;
      if x % total == y % total {
        DivMod(x, total);
        DivMod(y, total);
        if y / total > x / total { BelowMultiple(x / total, y / total, total); }
        if y / total < x / total { BelowMultiple(y / total, x / total, total); }
      }
    }
  }

  // ----- Load -----

  function Identity(n: nat): (s: seq<nat>)
    ensures |s| == n && forall i :: 0 <= i < n ==> s[i] == i
  {
    seq(n, i requires 0 <= i => i)
  }

  /** How many of the first k containers use a core. */
  function Load(k: nat, coreCnt: nat, total: nat, core: nat): nat
    requires total > 0
  {
    if k == 0 then 0
    else Load(k - 1, coreCnt, total, core) + if core in Block(k - 1, coreCnt, total) then 1 else 0
  }

  /** Membership of a core in a block, as a count over the cyclic list of cores. */
  lemma BlockIsStretch(i: nat, coreCnt: nat, total: nat, core: nat)
    requires total > 0 && core < total
    ensures Times(coreCnt, i) >= 0
    ensures CyclicCount(Identity(total), Times(coreCnt, i), |Block(i, coreCnt, total)|, core) ==
            if core in Block(i, coreCnt, total) then 1 else 0
  {
    var b := Block(i, coreCnt, total);
    TimesMonotone(0, i, coreCnt);
    BlockHasNoRepeats(i, coreCnt, total);
    StretchCount(i, coreCnt, total, core, |b|);
    assert b[..|b|] == b;
  }

  lemma {:induction false} StretchCount(i: nat, coreCnt: nat, total: nat, core: nat, n: nat)
    requires total > 0 && core < total && n <= |Block(i, coreCnt, total)| && Times(coreCnt, i) >= 0
    requires var b := Block(i, coreCnt, total); forall j, k :: 0 <= j < k < |b| ==> b[j] != b[k]
    ensures CyclicCount(Identity(total), Times(coreCnt, i), n, core) ==
            if core in Block(i, coreCnt, total)[..n] then 1 else 0
  {
    if n > 0 {
      var b := Block(i, coreCnt, total);
      StretchCount(i, coreCnt, total, core, n - 1);
      BlockEntry(i, n - 1, coreCnt, total);
      assert b[..n] == b[..n - 1] + [b[n - 1]];
    }
  }

  /** With no more cores per container than the machine has, the blocks form one stretch of k * coreCnt cores. */
  lemma {:induction false} LoadIsStretch(k: nat, coreCnt: nat, total: nat, core: nat)
    requires total > 0 && core < total && coreCnt <= total
    ensures Times(coreCnt, k) >= 0
    ensures Load(k, coreCnt, total, core) == CyclicCount(Identity(total), 0, Times(coreCnt, k), core)
  {
    TimesMonotone(0, k, coreCnt);
    if k > 0 {
      LoadIsStretch(k - 1, coreCnt, total, core);
      BlockIsStretch(k - 1, coreCnt, total, core);
      TimesNext(coreCnt, k - 1);
      CyclicAppend(Identity(total), 0, Times(coreCnt, k - 1), coreCnt, core);
    }
  }

  /** Otherwise every container uses every core. */
  lemma {:induction false} LoadWhenClamped(k: nat, coreCnt: nat, total: nat, core: nat)
    requires total > 0 && core < total && coreCnt > total
    ensures Load(k, coreCnt, total, core) == k
  {
    if k > 0 {
      LoadWhenClamped(k - 1, coreCnt, total, core);
      BlockIsStretch(k - 1, coreCnt, total, core);
      FullTurn(Identity(total), Times(coreCnt, k - 1), core);
      CountIdentity(total, core);
    }
  }

  lemma {:induction false} CountIdentity(n: nat, v: nat)
    ensures Count(Identity(n), v) == if v < n then 1 else 0
  {
    if n > 0 {
      CountIdentity(n - 1, v);
      assert Identity(n)[..n - 1] == Identity(n - 1);
    }
  }

  /** The loads of any two cores differ by at most one. */
  lemma LoadsAreBalanced(k: nat, coreCnt: nat, total: nat, a: nat, b: nat)
    requires a < total && b < total
    ensures Load(k, coreCnt, total, a) <= Load(k, coreCnt, total, b) + 1
  {
    if coreCnt > total {
      LoadWhenClamped(k, coreCnt, total, a);
      LoadWhenClamped(k, coreCnt, total, b);
    } else {
      LoadIsStretch(k, coreCnt, total, a);
      LoadIsStretch(k, coreCnt, total, b);
      var n := Times(coreCnt, k);
      CountIdentity(total, a);
      CountIdentity(total, b);
      FairShare(Identity(total), 0, n, a);
      FairShare(Identity(total), 0, n, b);
      CeilIsNear(n, total);
    }
  }

  lemma CeilIsNear(n: nat, m: nat)
    requires m > 0
    ensures (n + m - 1) / m <= n / m + 1
    ensures Times(1, n / m) == n / m && Times(1, (n + m - 1) / m) == (n + m - 1) / m
  {
    DivMod(n, m);
    DivMod(n + m - 1, m);
    if (n + m - 1) / m > n / m + 1 { BelowMultiple(n / m + 1, (n + m - 1) / m, m); }
  }

  /** How many of the core sets contain a core. */
  function Uses(sets: seq<seq<int>>, core: nat): nat {
    if sets == [] then 0
    else Uses(sets[..|sets| - 1], core) + if core in sets[|sets| - 1] then 1 else 0
  }

  /** The core sets of k containers with the default offsets are their blocks. */
  ghost predicate DefaultPlacement(sets: seq<seq<int>>, k: nat, coreCnt: nat, total: nat)
    requires total > 0
  {
    |sets| == k && forall i :: 0 <= i < k ==> sets[i] == Block(i, coreCnt, total)
  }

  lemma {:induction false} UsesAreLoad(sets: seq<seq<int>>, k: nat, coreCnt: nat, total: nat, core: nat)
    requires total > 0 && DefaultPlacement(sets, k, coreCnt, total)
    ensures Uses(sets, core) == Load(k, coreCnt, total, core)
  {
    if k > 0 { UsesAreLoad(sets[..k - 1], k - 1, coreCnt, total, core); }
  }

  /** From the configured counts to the core sets: for each count k of the list, every container finds its default
      offset, and the loads of any two cores differ by at most one. */
  method PlaceContainers(vals: seq<Item>, k: nat, coreCnt: nat, total: nat) returns (sets: Option<seq<seq<int>>>)
    requires coreCnt > 0 && total > 0
    requires exists v :: v in vals && StandsFor(v, k)
    ensures sets.None? <==> exists v :: v in vals && v.Span? && v.step == 0
    ensures sets.Some? ==> DefaultPlacement(sets.value, k, coreCnt, total)
    ensures sets.Some? ==>
              forall a: nat, b: nat :: a < total && b < total ==> Uses(sets.value, a) <= Uses(sets.value, b) + 1
  {
    var counts := GetList(vals);
    if counts.None? {
      return None;
    }
    if k > 0 { OffsetsCoverEveryCount(counts.value, coreCnt, k, 0); }
    var offsets := DefaultOffsets(counts.value, coreCnt);
    var placed: seq<seq<int>> := [];
    for i := 0 to k
      invariant DefaultPlacement(placed, i, coreCnt, total)
    {
      OffsetsCoverEveryCount(counts.value, coreCnt, k, i);
      var cores := GetCpuSet(offsets.value[i], coreCnt, total);
      placed := placed + [cores];
    }
    forall a: nat, b: nat | a < total && b < total ensures Uses(placed, a) <= Uses(placed, b) + 1 {
      UsesAreLoad(placed, k, coreCnt, total, a);
      UsesAreLoad(placed, k, coreCnt, total, b);
      LoadsAreBalanced(k, coreCnt, total, a, b);
    }
    return Some(placed);
  }

  ghost predicate Disjoint(k: nat, coreCnt: nat, total: nat)
    requires total > 0
  {
    forall i, j :: 0 <= i < j < k ==> Apart(i, j, coreCnt, total)
  }

  ghost predicate Apart(i: nat, j: nat, coreCnt: nat, total: nat)
    requires total > 0
  {
    forall x :: x in Block(i, coreCnt, total) ==> x !in Block(j, coreCnt, total)
  }

  /** Two or more containers have disjoint cores exactly when the machine has enough cores for all of them. */
  lemma DisjointExactly(k: nat, coreCnt: nat, total: nat)
    requires total > 0 && coreCnt > 0 && k >= 2
    ensures Disjoint(k, coreCnt, total) <==> k * coreCnt <= total
  {
    if k * coreCnt <= total {
      forall i, j | 0 <= i < j < k ensures Apart(i, j, coreCnt, total) {
        BlocksInOrder(i, j, k, coreCnt, total);
      }
    } else {
      var i := SharesCoreZero(k, coreCnt, total);
      assert !Apart(0, i, coreCnt, total);
    }
  }

  lemma BlocksInOrder(i: nat, j: nat, k: nat, coreCnt: nat, total: nat)
    requires total > 0 && i < j < k && k * coreCnt <= total
    ensures Apart(i, j, coreCnt, total)
  {
    BelowMultiple(i, j, coreCnt);
    BelowMultiple(j, k, coreCnt);
    TimesMonotone(0, i, coreCnt);
    assert Times(coreCnt, i) == i * coreCnt && Times(coreCnt, j) == j * coreCnt;
    var a, b := Block(i, coreCnt, total), Block(j, coreCnt, total);
    forall x | x in a ensures x !in b {
      var u :| 0 <= u < |a| && a[u] == x;
      BlockEntry(i, u, coreCnt, total);
      SmallMod(Times(coreCnt, i) + u, total);
      forall v | 0 <= v < |b| ensures b[v] != x {
        BlockEntry(j, v, coreCnt, total);
        SmallMod(Times(coreCnt, j) + v, total);
      }
    }
  }

  /** When the cores do not suffice, some later container shares core 0 with the first. */
  lemma SharesCoreZero(k: nat, coreCnt: nat, total: nat) returns (i: nat)
    requires total > 0 && coreCnt > 0 && k >= 2 && k * coreCnt > total
    ensures 0 < i < k && 0 in Block(0, coreCnt, total) && 0 in Block(i, coreCnt, total)
  {
    BlockEntry(0, 0, coreCnt, total);
    SmallMod(0, total);
    assert Block(0, coreCnt, total)[0] == 0;
    if coreCnt > total {
      i := 1;
      BlockIsStretch(1, coreCnt, total, 0);
      FullTurn(Identity(total), Times(coreCnt, 1), 0);
      CountIdentity(total, 0);
    } else {
      i := total / coreCnt;
      DivMod(total, coreCnt);
      if i >= k { TimesMonotone(k, i, coreCnt); }
      var j := total % coreCnt;
      BlockEntry(i, j, coreCnt, total);
      assert Times(coreCnt, i) == i * coreCnt;
      ModUnique(total, total, 1, 0);
      assert Block(i, coreCnt, total)[j] == 0;
    }
  }
}
