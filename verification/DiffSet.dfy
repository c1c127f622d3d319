/** Benchmark selection: the destructive pass of `process` in `diffset.py` over pairs of benchmarks and
    their measured difference. Benchmark names are compared as strings. */
module DiffSet {
  import opened Seqs

  type Name = string

  datatype Row = Row(a: Name, b: Name, diff: real)

  /** Lexicographic order. */
  predicate Less(a: Name, b: Name) {
    if b == "" then false
    else if a == "" then true
    else if a[0] != b[0] then a[0] < b[0]
    else Less(a[1..], b[1..])
  }

  lemma {:induction false} LessIsStrict(a: Name)
    ensures !Less(a, a)
  {
    if a != "" { LessIsStrict(a[1..]); }
  }

  lemma {:induction false} LessIsTransitive(a: Name, b: Name, c: Name)
    requires Less(a, b) && Less(b, c)
    ensures Less(a, c)
  {
    if a != "" && a[0] == b[0] == c[0] { LessIsTransitive(a[1..], b[1..], c[1..]); }
  }

  lemma {:induction false} LessIsTotal(a: Name, b: Name)
    ensures Less(a, b) || a == b || Less(b, a)
  {
    if a != "" && b != "" && a[0] == b[0] {
      LessIsTotal(a[1..], b[1..]);
      assert a == [a[0]] + a[1..] && b == [b[0]] + b[1..];
    }
  }

  /** The first character in which two names differ decides. */
  lemma {:induction false} LessByFirstDifference(a: Name, b: Name, k: nat)
    requires k < |a| && k < |b| && a[..k] == b[..k] && a[k] < b[k]
    ensures Less(a, b)
  {
    if k > 0 {
      assert a[0] == a[..k][0] == b[..k][0] == b[0];
      assert a[1..][..k - 1] == a[..k][1..] == b[..k][1..] == b[1..][..k - 1];
      LessByFirstDifference(a[1..], b[1..], k - 1);
    }
  }

  /** A proper prefix comes before what it begins. */
  lemma {:induction false} PrefixIsLess(a: Name, b: Name)
    requires a < b
    ensures Less(a, b)
  {
    if a != "" {
      assert a[0] == b[0] && a[1..] < b[1..];
      PrefixIsLess(a[1..], b[1..]);
    }
  }

  /** Where two different names first differ. */
  lemma {:induction false} FirstDifferenceOf(a: Name, b: Name) returns (k: nat)
    requires a != b
    ensures k <= |a| && k <= |b| && a[..k] == b[..k] && (k == |a| || k == |b| || a[k] != b[k])
  {
    if a == "" || b == "" || a[0] != b[0] {
      k := 0;
    } else {
      assert a == [a[0]] + a[1..] && b == [b[0]] + b[1..];
      var j := FirstDifferenceOf(a[1..], b[1..]);
      k := j + 1;
      assert a[..k] == [a[0]] + a[1..][..j] && b[..k] == [b[0]] + b[1..][..j];
    }
  }

  /** Two names are compared like this: the shorter comes first if it begins the longer, and otherwise the one with
      the smaller character where they first differ. */
  lemma LessExactly(a: Name, b: Name)
    ensures Less(a, b) <==>
              a < b || exists k :: 0 <= k < |a| && k < |b| && a[..k] == b[..k] && a[k] < b[k]
  {
    if a < b {
      PrefixIsLess(a, b);
    } else if k :| 0 <= k < |a| && k < |b| && a[..k] == b[..k] && a[k] < b[k] {
      LessByFirstDifference(a, b, k);
    } else if a == b {
      LessIsStrict(a);
    } else {
      var k := FirstDifferenceOf(a, b);
      if k < |b| {
        assert k < |a| && b[k] < a[k];
        LessByFirstDifference(b, a, k);
      } else {
        assert b < a;
        PrefixIsLess(b, a);
      }
      if Less(a, b) {
        LessIsTransitive(a, b, a);
        LessIsStrict(a);
      }
    }
  }

  // ----- What the rows say -----

  /** The benchmarks: the first column. */
  function Names(rows: seq<Row>): (s: set<Name>)
    ensures forall r :: r in rows ==> r.a in s
    ensures forall n :: n in s ==> exists r :: r in rows && r.a == n
  {
    set r | r in rows :: r.a
  }

  /** Some row puts b below the cutoff of a. */
  ghost predicate Close(rows: seq<Row>, cutoff: real, a: Name, b: Name) {
    a != b && exists r :: r in rows && Drops(r, cutoff, a, b)
  }

  predicate Drops(r: Row, cutoff: real, a: Name, b: Name) {
    r.a == a && r.b == b && r.a != r.b && r.diff < cutoff
  }

  ghost function Smaller(rows: seq<Row>, a: Name): set<Name> {
    set n | n in Names(rows) && Less(n, a)
  }

  /** Whether a is still selected when the pass reaches its own rows: no active benchmark of smaller name is close to it. */
  ghost predicate Active(rows: seq<Row>, cutoff: real, a: Name)
    decreases Smaller(rows, a)
  {
    && a in Names(rows)
    && forall b | b in Names(rows) && Less(b, a) && Close(rows, cutoff, b, a) ::
         SmallerShrinks(rows, b, a); !Active(rows, cutoff, b)
  }

  lemma SmallerShrinks(rows: seq<Row>, b: Name, a: Name)
    requires b in Names(rows) && Less(b, a)
    ensures Smaller(rows, b) < Smaller(rows, a)
  {
    LessIsStrict(b);
    forall n | n in Smaller(rows, b) ensures n in Smaller(rows, a) { LessIsTransitive(n, b, a); }
    assert b in Smaller(rows, a) && b !in Smaller(rows, b);
  }

  /** The selection, for any relation: the benchmarks no active benchmark is close to. */
  ghost predicate Survives(rows: seq<Row>, cutoff: real, b: Name) {
    b in Names(rows) && forall a | Active(rows, cutoff, a) :: !Close(rows, cutoff, a, b)
  }

  /** Sorted by first and second column, as `sort_values(by=[0, 1])` leaves the rows. */
  ghost predicate Sorted(rows: seq<Row>) {
    forall i, j :: 0 <= i < j < |rows| ==>
      !Less(rows[j].a, rows[i].a) && (rows[i].a == rows[j].a ==> !Less(rows[j].b, rows[i].b))
  }

  /** No row before k has dropped b, if only the rows of active benchmarks count. */
  ghost predicate KeptUpTo(rows: seq<Row>, sorted: seq<Row>, cutoff: real, k: nat, b: Name)
    requires k <= |sorted|
  {
    forall j | 0 <= j < k :: Active(rows, cutoff, sorted[j].a) ==> !Drops(sorted[j], cutoff, sorted[j].a, b)
  }

  /** When the pass reaches a row of a, being selected and being active are the same. */
  lemma SelectedIsActive(rows: seq<Row>, sorted: seq<Row>, cutoff: real, k: nat)
    requires Sorted(sorted) && (forall r :: r in rows <==> r in sorted) && k < |sorted|
    ensures KeptUpTo(rows, sorted, cutoff, k, sorted[k].a) <==> Active(rows, cutoff, sorted[k].a)
  {
    var a := sorted[k].a;
    assert sorted[k] in rows;
    if KeptUpTo(rows, sorted, cutoff, k, a) {
      forall b | b in Names(rows) && Less(b, a) && Close(rows, cutoff, b, a) ensures !Active(rows, cutoff, b) {
        var r :| r in rows && Drops(r, cutoff, b, a);
        var j :| 0 <= j < |sorted| && sorted[j] == r;
        LessIsStrict(a);
        assert j < k;
      }
    }
    if Active(rows, cutoff, a) {
      forall j | 0 <= j < k && Active(rows, cutoff, sorted[j].a) ensures !Drops(sorted[j], cutoff, sorted[j].a, a) {
        LessIsTotal(sorted[j].a, a);
        assert sorted[j] in rows;
      }
    }
  }

  lemma KeptStep(rows: seq<Row>, sorted: seq<Row>, cutoff: real, k: nat, b: Name)
    requires k < |sorted|
    ensures KeptUpTo(rows, sorted, cutoff, k + 1, b) <==>
              KeptUpTo(rows, sorted, cutoff, k, b) &&
              !(Active(rows, cutoff, sorted[k].a) && Drops(sorted[k], cutoff, sorted[k].a, b))
  {
  }

  lemma KeptToTheEnd(rows: seq<Row>, sorted: seq<Row>, cutoff: real, b: Name)
    requires forall r :: r in rows <==> r in sorted
    ensures b in Names(rows) && KeptUpTo(rows, sorted, cutoff, |sorted|, b) <==> Survives(rows, cutoff, b)
  {
    if b in Names(rows) && !Survives(rows, cutoff, b) {
      var a :| Active(rows, cutoff, a) && Close(rows, cutoff, a, b);
      var r :| r in rows && Drops(r, cutoff, a, b);
      var j :| 0 <= j < |sorted| && sorted[j] == r;
      assert !KeptUpTo(rows, sorted, cutoff, |sorted|, b);
    }
    if Survives(rows, cutoff, b) {
      forall j | 0 <= j < |sorted| && Active(rows, cutoff, sorted[j].a) ensures !Drops(sorted[j], cutoff, sorted[j].a, b) {
        assert sorted[j] in rows;
      }
    }
  }

  /** The selection after the first k rows. */
  ghost predicate SelectionAt(rows: seq<Row>, sorted: seq<Row>, cutoff: real, k: nat, s: set<Name>)
    requires k <= |sorted|
  {
    forall b :: b in s <==> b in Names(rows) && KeptUpTo(rows, sorted, cutoff, k, b)
  }

  lemma SelectionStep(rows: seq<Row>, sorted: seq<Row>, cutoff: real, k: nat, s: set<Name>)
    requires Sorted(sorted) && (forall r :: r in rows <==> r in sorted) && k < |sorted|
    requires SelectionAt(rows, sorted, cutoff, k, s)
    ensures var r := sorted[k];
            SelectionAt(rows, sorted, cutoff, k + 1, if r.a != r.b && r.a in s && r.diff < cutoff then s - {r.b} else s)
  {
    assert sorted[k] in rows;
    SelectedIsActive(rows, sorted, cutoff, k);
    forall b { KeptStep(rows, sorted, cutoff, k, b); }
  }

  /** The pass. Its result does not depend on how ties in the sort are ordered, and it never drops everything. */
  method Process(rows: seq<Row>, sorted: seq<Row>, cutoff: real) returns (s: set<Name>)
    requires Sorted(sorted) && multiset(sorted) == multiset(rows)
    ensures forall b :: b in s <==> Survives(rows, cutoff, b)
    ensures rows != [] ==> s != {}
  {
    SameElements(rows, sorted);
    s := Names(rows);
    if rows != [] { assert rows[0].a in s; }
    for i := 0 to |sorted|
      invariant SelectionAt(rows, sorted, cutoff, i, s)
      invariant rows != [] ==> s != {}
    {
      var r := sorted[i];
      SelectionStep(rows, sorted, cutoff, i, s);
      if r.a != r.b && r.a in s && r.diff < cutoff {
        assert r.a in s - {r.b};
        s := s - {r.b};
      }
    }
    forall b { KeptToTheEnd(rows, sorted, cutoff, b); }
  }

  // ----- What the selection guarantees -----

  /** For any relation: no row relates two distinct survivors below the cutoff. */
  lemma SurvivorsAreApart(rows: seq<Row>, cutoff: real, a: Name, b: Name)
    requires Survives(rows, cutoff, a) && Survives(rows, cutoff, b)
    ensures !Close(rows, cutoff, a, b)
  {
    SurvivorIsActive(rows, cutoff, a);
  }

  lemma SurvivorIsActive(rows: seq<Row>, cutoff: real, a: Name)
    requires Survives(rows, cutoff, a)
    ensures Active(rows, cutoff, a)
  {
  }

  /** The promise of the selection: whatever was dropped is represented by a survivor of smaller name close to it. */
  ghost predicate DroppedAreRepresented(rows: seq<Row>, cutoff: real) {
    forall b | b in Names(rows) && !Survives(rows, cutoff, b) :: Represented(rows, cutoff, b)
  }

  ghost predicate Represented(rows: seq<Row>, cutoff: real, b: Name) {
    exists a :: Survives(rows, cutoff, a) && Less(a, b) && Close(rows, cutoff, a, b)
  }

  /** No active benchmark is close to an active one of smaller name. */
  ghost predicate NoBackwardDrop(rows: seq<Row>, cutoff: real) {
    forall a, b | Active(rows, cutoff, a) && Active(rows, cutoff, b) && Less(b, a) :: !Close(rows, cutoff, a, b)
  }

  /** The promise holds exactly when, among the benchmarks kept by the forward rows alone, no backward row is below the cutoff. */
  lemma RepresentedExactly(rows: seq<Row>, cutoff: real)
    ensures DroppedAreRepresented(rows, cutoff) <==> NoBackwardDrop(rows, cutoff)
  {
    if NoBackwardDrop(rows, cutoff) {
      forall b | b in Names(rows) && !Survives(rows, cutoff, b) ensures Represented(rows, cutoff, b) {
        if Active(rows, cutoff, b) { ActiveSurvives(rows, cutoff, b); }
        var a :| a in Names(rows) && Less(a, b) && Close(rows, cutoff, a, b) && Active(rows, cutoff, a);
        ActiveSurvives(rows, cutoff, a);
      }
    }
    if DroppedAreRepresented(rows, cutoff) {
      forall a, b | Active(rows, cutoff, a) && Active(rows, cutoff, b) && Less(b, a)
        ensures !Close(rows, cutoff, a, b)
      {
        if Close(rows, cutoff, a, b) {
          assert Represented(rows, cutoff, b);
          var c :| Survives(rows, cutoff, c) && Less(c, b) && Close(rows, cutoff, c, b);
          SurvivorIsActive(rows, cutoff, c);
        }
      }
    }
  }

  lemma ActiveSurvives(rows: seq<Row>, cutoff: real, b: Name)
    requires NoBackwardDrop(rows, cutoff) && Active(rows, cutoff, b)
    ensures Survives(rows, cutoff, b)
  {
    forall a | Active(rows, cutoff, a) ensures !Close(rows, cutoff, a, b) {
      LessIsTotal(a, b);
    }
  }

  /** Being close in the backward direction implies being close in the forward one; every symmetric relation has this. */
  ghost predicate BackwardImpliesForward(rows: seq<Row>, cutoff: real) {
    forall a, b | Less(b, a) && Close(rows, cutoff, a, b) :: b in Names(rows) && Close(rows, cutoff, b, a)
  }

  /** Then the survivors are the lexicographically first maximal independent set: a benchmark survives exactly
      when no smaller survivor is close to it. */
  lemma FirstIndependentSet(rows: seq<Row>, cutoff: real)
    requires BackwardImpliesForward(rows, cutoff)
    ensures DroppedAreRepresented(rows, cutoff)
    ensures GreedyChoice(rows, cutoff, iset b | Survives(rows, cutoff, b))
  {
    forall a, b | Active(rows, cutoff, a) && Active(rows, cutoff, b) && Less(b, a)
      ensures !Close(rows, cutoff, a, b)
    {
    }
    RepresentedExactly(rows, cutoff);
    forall b | b in Names(rows) && !Survives(rows, cutoff, b) ensures Represented(rows, cutoff, b) {}
    forall a, b | Survives(rows, cutoff, a) && Survives(rows, cutoff, b) ensures !Close(rows, cutoff, a, b) {
      SurvivorsAreApart(rows, cutoff, a, b);
    }
  }

  ghost predicate GreedyChoice(rows: seq<Row>, cutoff: real, s: iset<Name>) {
    forall b :: b in s <==> b in Names(rows) && NoneBelow(rows, cutoff, s, b)
  }

  ghost predicate NoneBelow(rows: seq<Row>, cutoff: real, s: iset<Name>, b: Name) {
    forall a | a in s && Less(a, b) :: !Close(rows, cutoff, a, b)
  }

  /** That description has only one solution. */
  lemma {:induction false} GreedyChoiceIsUnique(rows: seq<Row>, cutoff: real, s: iset<Name>, t: iset<Name>, b: Name)
    requires GreedyChoice(rows, cutoff, s) && GreedyChoice(rows, cutoff, t)
    ensures b in s <==> b in t
    decreases Smaller(rows, b)
  {
    if b in Names(rows) {
      forall a | Less(a, b) ensures a in s <==> a in t {
        if a in Names(rows) {
          SmallerShrinks(rows, a, b);
          GreedyChoiceIsUnique(rows, cutoff, s, t, a);
        }
      }
      assert NoneBelow(rows, cutoff, s, b) <==> NoneBelow(rows, cutoff, t, b);
    }
  }

  ghost predicate Independent(rows: seq<Row>, cutoff: real, t: set<Name>) {
    t <= Names(rows) && forall a, b | a in t && b in t :: !Close(rows, cutoff, a, b)
  }

  /** The survivors differ from t at x and agree with it below. */
  ghost predicate FirstDifference(rows: seq<Row>, cutoff: real, t: set<Name>, x: Name) {
    && (Survives(rows, cutoff, x) <==> x !in t)
    && forall y | Less(y, x) :: Survives(rows, cutoff, y) <==> y in t
  }

  /** Lexicographically first: compared with any independent set, the least name on which they differ is a survivor. */
  lemma LexicographicallyFirst(rows: seq<Row>, cutoff: real, t: set<Name>, x: Name)
    requires BackwardImpliesForward(rows, cutoff) && Independent(rows, cutoff, t) && FirstDifference(rows, cutoff, t, x)
    ensures Survives(rows, cutoff, x) && x !in t
  {
    FirstIndependentSet(rows, cutoff);
  }

  // ----- The rows of diff-all.sh -----

  /** The measured difference of two benchmarks: the script takes the larger of both directions. */
  type Measure = (Name, Name) -> real

  ghost predicate Symmetric(m: Measure) {
    forall a, b :: m(a, b) == m(b, a)
  }

  /** The rows of file i against the first n files. */
  function RowsOf(l: seq<Name>, m: Measure, i: nat, n: nat): seq<Row>
    requires i < |l| && n <= |l|
  {
    if n == 0 then [] else RowsOf(l, m, i, n - 1) + [Row(l[i], l[n - 1], m(l[i], l[n - 1]))]
  }

  /** The rows of the first n files, each against those up to itself. */
  function RowsUpTo(l: seq<Name>, m: Measure, n: nat): seq<Row>
    requires n <= |l|
  {
    if n == 0 then [] else RowsUpTo(l, m, n - 1) + RowsOf(l, m, n - 1, n)
  }

  /** The two loops of the script: j counts the rows of a file and stops behind i. */
  method DiffAll(l: seq<Name>, m: Measure) returns (rows: seq<Row>)
    ensures rows == RowsUpTo(l, m, |l|)
  {
    rows := [];
    for i := 0 to |l|
      invariant rows == RowsUpTo(l, m, i)
    {
      var j := 0;
      ghost var before := rows;
      for b := 0 to |l|
        invariant j == (if b <= i then b else i + 1) && rows == before + RowsOf(l, m, i, j)
      {
        if i >= j {
          rows := rows + [Row(l[i], l[b], m(l[i], l[b]))];
          j := j + 1;
        }
      }
    }
  }

  predicate IsRow(l: seq<Name>, m: Measure, r: Row, i: nat, j: nat) {
    i < |l| && j < |l| && r == Row(l[i], l[j], m(l[i], l[j]))
  }

  ghost predicate IsRowOf(l: seq<Name>, m: Measure, r: Row, i: nat, n: nat) {
    exists j :: 0 <= j < n && IsRow(l, m, r, i, j)
  }

  ghost predicate IsRowUpTo(l: seq<Name>, m: Measure, r: Row, n: nat) {
    exists i :: 0 <= i < n && IsRowOfFile(l, m, r, i)
  }

  ghost predicate IsRowOfFile(l: seq<Name>, m: Measure, r: Row, i: nat) {
    IsRowOf(l, m, r, i, i + 1)
  }

  lemma OneMoreFile(l: seq<Name>, m: Measure, r: Row, n: nat)
    requires n > 0
    ensures IsRowUpTo(l, m, r, n) <==> IsRowUpTo(l, m, r, n - 1) || IsRowOfFile(l, m, r, n - 1)
  {
  }

  lemma {:induction false} RowsOfAre(l: seq<Name>, m: Measure, i: nat, n: nat, r: Row)
    requires i < |l| && n <= |l|
    ensures r in RowsOf(l, m, i, n) <==> IsRowOf(l, m, r, i, n)
  {
    if n > 0 {
      RowsOfAre(l, m, i, n - 1, r);
      if r == Row(l[i], l[n - 1], m(l[i], l[n - 1])) { assert IsRow(l, m, r, i, n - 1); }
    }
  }

  lemma {:induction false} RowsUpToAre(l: seq<Name>, m: Measure, n: nat, r: Row)
    requires n <= |l|
    ensures r in RowsUpTo(l, m, n) <==> IsRowUpTo(l, m, r, n)
  {
    if n > 0 {
      var front, last := RowsUpTo(l, m, n - 1), RowsOf(l, m, n - 1, n);
      calc {
        r in RowsUpTo(l, m, n);
      <==>
        r in front || r in last;
      <==> { RowsUpToAre(l, m, n - 1, r); }
        IsRowUpTo(l, m, r, n - 1) || r in last;
      <==> { RowsOfAre(l, m, n - 1, n, r); }
        IsRowUpTo(l, m, r, n - 1) || IsRowOfFile(l, m, r, n - 1);
      <==> { OneMoreFile(l, m, r, n); }
        IsRowUpTo(l, m, r, n);
      }
    }
  }

  ghost predicate Distinct(l: seq<Name>) {
    forall i, j :: 0 <= i < j < |l| ==> l[i] != l[j]
  }

  /** File a is close to file b, which stands before it in the list. */
  ghost predicate CloseInList(l: seq<Name>, m: Measure, cutoff: real, a: Name, b: Name) {
    m(a, b) < cutoff && After(l, a, b)
  }

  ghost predicate After(l: seq<Name>, a: Name, b: Name) {
    exists i, j :: 0 <= j < i < |l| && l[i] == a && l[j] == b
  }

  /** On the rows of the script, being close relates a later file to an earlier one. */
  lemma CloseIsCloseInList(l: seq<Name>, m: Measure, cutoff: real, a: Name, b: Name)
    requires Distinct(l)
    ensures Close(RowsUpTo(l, m, |l|), cutoff, a, b) <==> CloseInList(l, m, cutoff, a, b)
  {
    if Close(RowsUpTo(l, m, |l|), cutoff, a, b) {
      var r :| r in RowsUpTo(l, m, |l|) && Drops(r, cutoff, a, b);
      RowsUpToAre(l, m, |l|, r);
    }
    if CloseInList(l, m, cutoff, a, b) {
      var i, j :| 0 <= j < i < |l| && l[i] == a && l[j] == b;
      var r := Row(a, b, m(a, b));
      assert IsRow(l, m, r, i, j) && IsRowOfFile(l, m, r, i);
      RowsUpToAre(l, m, |l|, r);
    }
  }

  lemma NamesAreTheFiles(l: seq<Name>, m: Measure, i: nat)
    requires i < |l|
    ensures l[i] in Names(RowsUpTo(l, m, |l|))
  {
    var r := Row(l[i], l[i], m(l[i], l[i]));
    assert IsRow(l, m, r, i, i) && IsRowOfFile(l, m, r, i);
    RowsUpToAre(l, m, |l|, r);
    assert r in RowsUpTo(l, m, |l|) && r.a == l[i];
  }

  /** From position n on, every name is smaller than those before it. */
  ghost predicate DescendingFrom(l: seq<Name>, n: nat) {
    forall j, k :: n <= j < k < |l| ==> Less(l[k], l[j])
  }

  /** The promise of the selection without regard to names: every dropped benchmark is close to some survivor. */
  ghost predicate DroppedHaveSurvivors(rows: seq<Row>, cutoff: real) {
    forall b | b in Names(rows) && !Survives(rows, cutoff, b) :: NearSurvivor(rows, cutoff, b)
  }

  ghost predicate NearSurvivor(rows: seq<Row>, cutoff: real, b: Name) {
    exists s :: Survives(rows, cutoff, s) && (Close(rows, cutoff, s, b) || Close(rows, cutoff, b, s))
  }

  /** In a list that descends from its second file on, an active benchmark that drops another one survives: what could
      drop it stands behind it and so has a smaller name. */
  lemma DescendingKeepsPromise(l: seq<Name>, m: Measure, cutoff: real)
    requires Distinct(l) && DescendingFrom(l, 1)
    ensures DroppedHaveSurvivors(RowsUpTo(l, m, |l|), cutoff)
  {
    var rows := RowsUpTo(l, m, |l|);
    forall b | b in Names(rows) && !Survives(rows, cutoff, b) ensures NearSurvivor(rows, cutoff, b) {
      var a :| Active(rows, cutoff, a) && Close(rows, cutoff, a, b);
      CloseIsCloseInList(l, m, cutoff, a, b);
      forall c | Active(rows, cutoff, c) ensures !Close(rows, cutoff, c, a) {
        CloseIsCloseInList(l, m, cutoff, c, a);
        if After(l, c, a) { BehindIsSmaller(l, a, b, c); }
      }
      assert Survives(rows, cutoff, a);
    }
  }

  lemma BehindIsSmaller(l: seq<Name>, a: Name, b: Name, c: Name)
    requires Distinct(l) && DescendingFrom(l, 1) && After(l, a, b) && After(l, c, a)
    ensures Less(c, a)
  {
  }

  /** Only a and b, and b and c, are close. */
  function Chain(a: Name, b: Name, c: Name): (m: Measure)
    ensures Symmetric(m)
  {
    (x: Name, y: Name) =>
      if (x == a && y == b) || (x == b && y == a) || (x == b && y == c) || (x == c && y == b) then 0.0 else 1.0
  }

  lemma CloseInChain(l: seq<Name>, i: nat, j: nat, k: nat, x: Name, y: Name)
    requires Distinct(l) && i < j <= k < |l|
    ensures Close(RowsUpTo(l, Chain(l[i], l[j], l[k]), |l|), 0.5, x, y)
            <==> (x == l[j] && y == l[i]) || (j < k && x == l[k] && y == l[j])
  {
    var m := Chain(l[i], l[j], l[k]);
    CloseIsCloseInList(l, m, 0.5, x, y);
    assert After(l, l[j], l[i]);
    assert j < k ==> After(l, l[k], l[j]);
  }

  /** When file k does not have a smaller name than file j, and both stand behind file i, file j drops file i and is
      dropped itself. */
  lemma AscentLosesABenchmark(l: seq<Name>, i: nat, j: nat, k: nat)
    requires Distinct(l) && i < j < k < |l| && !Less(l[k], l[j])
    ensures !DroppedHaveSurvivors(RowsUpTo(l, Chain(l[i], l[j], l[k]), |l|), 0.5)
  {
    var rows := RowsUpTo(l, Chain(l[i], l[j], l[k]), |l|);
    forall x, y { CloseInChain(l, i, j, k, x, y); }
    NamesAreTheFiles(l, Chain(l[i], l[j], l[k]), i);
    NamesAreTheFiles(l, Chain(l[i], l[j], l[k]), j);
    NamesAreTheFiles(l, Chain(l[i], l[j], l[k]), k);
    assert Active(rows, 0.5, l[k]);
    assert Active(rows, 0.5, l[j]);
    assert !NearSurvivor(rows, 0.5, l[i]);
  }

  /** On a list of distinct files, every dropped benchmark is close to some survivor, whatever the measure and the
      cutoff, exactly when the names descend from the second file on. */
  lemma DiffAllKeepsPromiseExactly(l: seq<Name>)
    requires Distinct(l)
    ensures (forall m: Measure, cutoff | Symmetric(m) :: DroppedHaveSurvivors(RowsUpTo(l, m, |l|), cutoff))
            <==> DescendingFrom(l, 1)
  {
    if DescendingFrom(l, 1) {
      forall m: Measure, cutoff | Symmetric(m) ensures DroppedHaveSurvivors(RowsUpTo(l, m, |l|), cutoff) {
        DescendingKeepsPromise(l, m, cutoff);
      }
    } else {
      var j, k :| 1 <= j < k < |l| && !Less(l[k], l[j]);
      AscentLosesABenchmark(l, 0, j, k);
    }
  }

  /** That survivor has a smaller name in every case exactly when the whole list descends. */
  lemma DiffAllRepresentsExactly(l: seq<Name>)
    requires Distinct(l)
    ensures (forall m: Measure, cutoff | Symmetric(m) :: DroppedAreRepresented(RowsUpTo(l, m, |l|), cutoff))
            <==> DescendingFrom(l, 0)
  {
    if DescendingFrom(l, 0) {
      forall m: Measure, cutoff | Symmetric(m) ensures DroppedAreRepresented(RowsUpTo(l, m, |l|), cutoff) {
        DescendingRepresents(l, m, cutoff);
      }
    } else {
      var j, k :| 0 <= j < k < |l| && !Less(l[k], l[j]);
      AscentDropsSmaller(l, j, k);
    }
  }

  lemma DescendingRepresents(l: seq<Name>, m: Measure, cutoff: real)
    requires Distinct(l) && DescendingFrom(l, 0)
    ensures DroppedAreRepresented(RowsUpTo(l, m, |l|), cutoff)
  {
    var rows := RowsUpTo(l, m, |l|);
    forall a, b | Close(rows, cutoff, a, b) ensures !Less(b, a) {
      CloseIsCloseInList(l, m, cutoff, a, b);
      assert Less(a, b);
      if Less(b, a) {
        LessIsTransitive(a, b, a);
        LessIsStrict(a);
      }
    }
    RepresentedExactly(rows, cutoff);
  }

  lemma AscentDropsSmaller(l: seq<Name>, j: nat, k: nat)
    requires Distinct(l) && j < k < |l| && !Less(l[k], l[j])
    ensures !DroppedAreRepresented(RowsUpTo(l, Chain(l[j], l[k], l[k]), |l|), 0.5)
  {
    var rows := RowsUpTo(l, Chain(l[j], l[k], l[k]), |l|);
    forall x, y { CloseInChain(l, j, k, k, x, y); }
    NamesAreTheFiles(l, Chain(l[j], l[k], l[k]), j);
    NamesAreTheFiles(l, Chain(l[j], l[k], l[k]), k);
    assert Active(rows, 0.5, l[k]);
    assert !Represented(rows, 0.5, l[j]);
  }

  /** The rows `diff-all.sh` prints for a file list b, a, c where a is close to b and to c: each pair in one direction. */
  function OneDirection(): seq<Row> {
    [Row("b", "b", 0.0), Row("a", "b", 1.0), Row("a", "a", 0.0), Row("c", "b", 9.0), Row("c", "a", 1.0), Row("c", "c", 0.0)]
  }

  /** They are the rows of the script for one symmetric measure. */
  lemma OneDirectionIsPrinted(m: Measure)
    requires forall x, y :: m(x, y) == if x == y then 0.0 else if x != "a" && y != "a" then 9.0 else 1.0
    ensures Symmetric(m) && RowsUpTo(["b", "a", "c"], m, 3) == OneDirection()
  {
    var l := ["b", "a", "c"];
    assert RowsOf(l, m, 0, 1) == [Row("b", "b", 0.0)];
    assert RowsOf(l, m, 1, 2) == [Row("a", "b", 1.0), Row("a", "a", 0.0)];
    assert RowsOf(l, m, 2, 3) == [Row("c", "b", 9.0), Row("c", "a", 1.0), Row("c", "c", 0.0)];
    assert RowsUpTo(l, m, 1) == RowsOf(l, m, 0, 1);
    assert RowsUpTo(l, m, 2) == RowsUpTo(l, m, 1) + RowsOf(l, m, 1, 2);
  }

  lemma CloseInOneDirection(a: Name, b: Name)
    ensures Close(OneDirection(), 5.0, a, b) <==> (a == "a" && b == "b") || (a == "c" && b == "a")
  {
    var rows := OneDirection();
    assert rows[1] in rows && rows[4] in rows;
    if a == "a" && b == "b" { assert Drops(rows[1], 5.0, a, b); }
    if a == "c" && b == "a" { assert Drops(rows[4], 5.0, a, b); }
  }

  /** On them b is dropped because of a, and then a because of c: no survivor is close to b. */
  lemma OneDirectionLosesABenchmark()
    ensures "b" in Names(OneDirection()) && !Survives(OneDirection(), 5.0, "b")
    ensures forall s :: Survives(OneDirection(), 5.0, s) ==>
              !Close(OneDirection(), 5.0, s, "b") && !Close(OneDirection(), 5.0, "b", s)
  {
    var rows := OneDirection();
    forall a, b { CloseInOneDirection(a, b); }
    assert rows[0] in rows && rows[1] in rows && rows[3] in rows;
    assert rows[0].a in Names(rows) && rows[1].a in Names(rows) && rows[3].a in Names(rows);
    assert !Less("c", "a");
    assert Active(rows, 5.0, "a");
    assert Active(rows, 5.0, "c");
    assert Close(rows, 5.0, "a", "b") && Close(rows, 5.0, "c", "a");
  }
}
