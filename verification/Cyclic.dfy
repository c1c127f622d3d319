/** Reading a table cyclically: what any stretch of consecutive positions contains. */
module Cyclic {
  import opened Arithmetic
  import opened Seqs

  /** How often v is among the n entries met from position i on. */
  function CyclicCount(table: seq<nat>, i: nat, n: nat, v: nat): nat
    requires |table| > 0
  {
    if n == 0 then 0
    else CyclicCount(table, i, n - 1, v) + if table[(i + n - 1) % |table|] == v then 1 else 0
  }

  lemma {:induction false} CyclicAppend(table: seq<nat>, i: nat, n: nat, m: nat, v: nat)
    requires |table| > 0
    ensures CyclicCount(table, i, n + m, v) == CyclicCount(table, i, n, v) + CyclicCount(table, i + n, m, v)
  {
    if m > 0 { CyclicAppend(table, i, n, m - 1, v); }
  }

  lemma {:induction false} CyclicPrefix(table: seq<nat>, n: nat, v: nat)
    requires 0 < |table| && n <= |table|
    ensures CyclicCount(table, 0, n, v) == Count(table[..n], v)
  {
    if n > 0 {
      CyclicPrefix(table, n - 1, v);
      SmallMod(n - 1, |table|);
      assert table[..n][..n - 1] == table[..n - 1];
    }
  }

  /** One full turn meets every value as often as the table holds it, wherever it starts. */
  lemma {:induction false} FullTurn(table: seq<nat>, i: nat, v: nat)
    requires |table| > 0
    ensures CyclicCount(table, i, |table|, v) == Count(table, v)
  {
    var len := |table|;
    if i == 0 {
      CyclicPrefix(table, len, v);
      assert table[..len] == table;
    } else {
      FullTurn(table, i - 1, v);
      CyclicAppend(table, i - 1, 1, len, v);
      CyclicAppend(table, i - 1, len, 1, v);
      CyclicOne(table, i - 1, v);
      CyclicOne(table, i - 1 + len, v);
      ModPlus(i - 1, len);
    }
  }

  lemma CyclicOne(table: seq<nat>, i: nat, v: nat)
    requires |table| > 0
    ensures CyclicCount(table, i, 1, v) == if table[i % |table|] == v then 1 else 0
  {
    assert CyclicCount(table, i, 0, v) == 0;
  }

  /** Any n consecutive positions meet v between floor(n/len) and ceil(n/len) times its share of the table. */
  lemma {:induction false} FairShare(table: seq<nat>, i: nat, n: nat, v: nat)
    requires |table| > 0
    ensures var len, c := |table|, Count(table, v);
            && Times(c, n / len) <= CyclicCount(table, i, n, v) <= Times(c, (n + len - 1) / len)
            && (n % len == 0 ==> CyclicCount(table, i, n, v) == Times(c, n / len))
    decreases n
  {
    var len, c := |table|, Count(table, v);
    if n < len {
      CyclicAppend(table, i, n, len - n, v);
      FullTurn(table, i, v);
      SmallMod(n, len);
      if n == 0 {
        SmallMod(len - 1, len);
      } else {
        SmallMod(n - 1, len);
        ModPlus(n - 1, len);
      }
    } else {
      FairShare(table, i + len, n - len, v);
      CyclicAppend(table, i, len, n - len, v);
      FullTurn(table, i, v);
      ModPlus(n - len, len);
      ModPlus(n - 1, len);
      TimesNext(c, (n - len) / len);
      TimesNext(c, (n - 1) / len);
    }
  }
}
