/** Decimal numbers in text, and `strtoul` in base 10. */
module Text {
  import opened Bits

  predicate IsDigit(c: char) { '0' <= c <= '9' }

  predicate AllDigits(s: string) { forall i :: 0 <= i < |s| ==> IsDigit(s[i]) }

  function DigitOf(d: nat): (c: char)
    requires d < 10
    ensures IsDigit(c) && c as int - '0' as int == d
  {
    ('0' as int + d) as char
  }

  /** The decimal text of a number, without leading zeros. */
  function Decimal(n: nat): (s: string)
    ensures s != "" && AllDigits(s)
  {
    if n < 10 then [DigitOf(n)] else Decimal(n / 10) + [DigitOf(n % 10)]
  }

  function DigitValue(c: char): nat { if IsDigit(c) then c as int - '0' as int else 0 }

  /** The number that the digits of s between two positions stand for. */
  function ValueOf(s: string, lo: nat, hi: nat): nat
    requires lo <= hi <= |s|
    decreases hi
  {
    if lo == hi then 0 else 10 * ValueOf(s, lo, hi - 1) + DigitValue(s[hi - 1])
  }

  lemma {:induction false} ValueOfSlice(s: string, lo: nat, hi: nat, t: string)
    requires lo <= hi <= |s| && s[lo..hi] == t
    ensures ValueOf(s, lo, hi) == ValueOf(t, 0, |t|)
    decreases hi
  {
    if lo < hi {
      var front := t[..|t| - 1];
      assert s[lo..hi - 1] == front;
      ValueOfSlice(s, lo, hi - 1, front);
      ValueOfSlice(t, 0, |t| - 1, front);
      assert s[hi - 1] == t[|t| - 1];
    }
  }

  lemma {:induction false} ValueOfDecimal(n: nat)
    ensures ValueOf(Decimal(n), 0, |Decimal(n)|) == n
  {
    var t := Decimal(n);
    if n >= 10 {
      ValueOfDecimal(n / 10);
      assert t[0..|t| - 1] == Decimal(n / 10);
      ValueOfSlice(t, 0, |t| - 1, Decimal(n / 10));
    } else {
      assert ValueOf(t, 0, 0) == 0;
    }
  }

  /** The end of the run of digits that starts at p. */
  function DigitEnd(s: string, p: nat): (q: nat)
    requires p <= |s|
    ensures p <= q <= |s|
    decreases |s| - p
  {
    if p == |s| || !IsDigit(s[p]) then p else DigitEnd(s, p + 1)
  }

  lemma {:induction false} DigitEndIs(s: string, p: nat, q: nat)
    requires p <= q <= |s| && (forall i :: p <= i < q ==> IsDigit(s[i]))
    requires q == |s| || !IsDigit(s[q])
    ensures DigitEnd(s, p) == q
    decreases q - p
  {
    if p < q { DigitEndIs(s, p + 1, q); }
  }

  // ----- strtoul, base 10 -----

  predicate IsSpace(c: char) { c == ' ' || 9 <= c as int <= 13 }

  /** A value and the position behind it. */
  datatype Number = Number(value: nat, next: nat)

  datatype Phase = Blank | Signed | Digits

  /** The scan of strtoul that began at start: leading white space and one sign are skipped, a value too large
      becomes U64_MAX, a minus sign negates modulo 2^64, and without digits the pointer stays at start. */
  function Scan(s: string, p: nat, start: nat, phase: Phase, acc: nat, negative: bool): (r: Number)
    requires start <= p <= |s|
    ensures start <= r.next <= |s| && r.value <= U64_MAX
    decreases |s| - p
  {
    if p < |s| && phase == Blank && IsSpace(s[p]) then Scan(s, p + 1, start, Blank, 0, false)
    else if p < |s| && phase == Blank && (s[p] == '+' || s[p] == '-') then Scan(s, p + 1, start, Signed, 0, s[p] == '-')
    else if p < |s| && IsDigit(s[p]) then Scan(s, p + 1, start, Digits, 10 * acc + DigitValue(s[p]), negative)
    else if phase != Digits then Number(0, start)
    else if acc > U64_MAX then Number(U64_MAX, p)
    else if negative && acc > 0 then Number(TWO64 - acc, p)
    else Number(acc, p)
  }

  /** strtoul(s + p, &next, 10). */
  function Strtoul(s: string, p: nat): (r: Number)
    requires p <= |s|
    ensures p <= r.next <= |s| && r.value <= U64_MAX
  {
    Scan(s, p, p, Blank, 0, false)
  }

  lemma ScanDigit(s: string, p: nat, start: nat, phase: Phase, acc: nat, d: nat)
    requires start <= p < |s| && d < 10 && s[p] == DigitOf(d)
    ensures Scan(s, p, start, phase, acc, false) == Scan(s, p + 1, start, Digits, 10 * acc + d, false)
  {
  }

  lemma {:induction false} ScanDecimal(s: string, p: nat, q: nat, start: nat, n: nat)
    requires start <= p <= q <= |s| && s[p..q] == Decimal(n)
    ensures Scan(s, p, start, Blank, 0, false) == Scan(s, q, start, Digits, n, false)
    decreases n
  {
    var last := s[p..q][q - 1 - p];
    assert s[q - 1] == last;
    if n < 10 {
      assert last == DigitOf(n) && q == p + 1;
      ScanDigit(s, p, start, Blank, 0, n);
    } else {
      assert s[p..q - 1] == Decimal(n)[..q - 1 - p] == Decimal(n / 10);
      ScanDecimal(s, p, q - 1, start, n / 10);
      assert last == DigitOf(n % 10);
      ScanDigit(s, q - 1, start, Digits, n / 10, n % 10);
    }
  }

  /** A printed number is read back, and the pointer stops right behind it. */
  lemma StrtoulReadsDecimal(s: string, p: nat, q: nat, n: nat)
    requires p <= q <= |s| && s[p..q] == Decimal(n) && n <= U64_MAX
    requires q == |s| || !IsDigit(s[q])
    ensures Strtoul(s, p) == Number(n, q)
  {
    ScanDecimal(s, p, q, p, n);
  }

  /** White space as `isspace` knows it in the C locale. */
  lemma SpacesAre(c: char)
    ensures IsSpace(c) <==> c in {' ', '\t', '\n', '\r', 11 as char, 12 as char}
  {
  }

  lemma {:induction false} ScanBlanks(s: string, p: nat, q: nat, start: nat)
    requires start <= p <= q <= |s| && forall i :: p <= i < q ==> IsSpace(s[i])
    ensures Scan(s, p, start, Blank, 0, false) == Scan(s, q, start, Blank, 0, false)
    decreases q - p
  {
    if p < q { ScanBlanks(s, p + 1, q, start); }
  }

  lemma {:induction false} ScanDigits(s: string, lo: nat, p: nat, q: nat, start: nat, negative: bool)
    requires start <= lo < p <= q <= |s| && forall i :: p <= i < q ==> IsDigit(s[i])
    ensures Scan(s, p, start, Digits, ValueOf(s, lo, p), negative) == Scan(s, q, start, Digits, ValueOf(s, lo, q), negative)
    decreases q - p
  {
    if p < q { ScanDigits(s, lo, p + 1, q, start, negative); }
  }

  /** The text from p on: white space up to a, then at most one sign up to b. */
  ghost predicate Lead(s: string, p: nat, a: nat, b: nat) {
    && p <= a <= b <= |s|
    && (forall i :: p <= i < a ==> IsSpace(s[i])) && (a < |s| ==> !IsSpace(s[a]))
    && b == if a < |s| && (s[a] == '+' || s[a] == '-') then a + 1 else a
  }

  /** A 64-bit result: too large values are the largest one, and a minus sign negates modulo 2^64. */
  function Clamped(v: nat, negative: bool): nat {
    if v > U64_MAX then U64_MAX else if negative && v > 0 then TWO64 - v else v
  }

  /** Behind white space and a sign, the longest run of digits is the number, and the pointer stops behind it. */
  lemma StrtoulExactly(s: string, p: nat, a: nat, b: nat, q: nat)
    requires Lead(s, p, a, b) && b < q <= |s| && (forall i :: b <= i < q ==> IsDigit(s[i])) && (q == |s| || !IsDigit(s[q]))
    ensures Strtoul(s, p) == Number(Clamped(ValueOf(s, b, q), a < b && s[a] == '-'), q)
  {
    ScanBlanks(s, p, a, p);
    var negative := a < b && s[a] == '-';
    assert ValueOf(s, b, b + 1) == DigitValue(s[b]) by { assert ValueOf(s, b, b) == 0; }
    assert Scan(s, a, p, Blank, 0, false) == Scan(s, b + 1, p, Digits, ValueOf(s, b, b + 1), negative);
    ScanDigits(s, b, b + 1, q, p, negative);
  }

  /** Without a digit there is no number: the result is 0 and the pointer stays. */
  lemma NoNumber(s: string, p: nat, a: nat, b: nat)
    requires Lead(s, p, a, b) && (b == |s| || !IsDigit(s[b]))
    ensures Strtoul(s, p) == Number(0, p)
  {
    ScanBlanks(s, p, a, p);
  }
}
