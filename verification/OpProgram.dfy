/** Operation programs of the network tools: `parse_ops` and `get_max_buffer_size` in `helper.h`.

    A program is the text `<count>r<size>` or `<count>w<size>`, joined by '-'. The text is a C string:
    its end plays the part of the terminating zero. */
module OpProgram {
  import opened Bits
  import opened Text

  datatype Op = Op(n: nat, sz: nat, isWrite: bool)

  datatype Parsed = Ops(ops: seq<Op>) | Error(code: int)

  /** One turn of the loop of `parse_ops`: an entry and the position behind it. */
  datatype Entry = Entry(op: Op, next: nat) | Bad(code: int)

  function ReadEntry(s: string, p: nat): (r: Entry)
    requires p < |s|
    ensures r.Entry? ==> p < r.next <= |s| && r.op.n <= U64_MAX && r.op.sz <= U64_MAX
  {
    var n := Strtoul(s, p);
    if n.next == |s| || (s[n.next] != 'r' && s[n.next] != 'w') then Bad(-1)
    else
      var sz := Strtoul(s, n.next + 1);
      var op := Op(n.value, sz.value, s[n.next] == 'w');
      if sz.next == |s| then Entry(op, sz.next)
      else if s[sz.next] == '-' then Entry(op, sz.next + 1)
      else Bad(-2)
  }

  /** What the loop of `parse_ops` reads from position p on with room for so many more entries. */
  function Parse(s: string, p: nat, room: nat): (r: Parsed)
    requires p <= |s|
    ensures r.Ops? ==> |r.ops| <= room
    decreases |s| - p
  {
    if p == |s| || room == 0 then Ops([])
    else
      match ReadEntry(s, p)
      case Bad(code) => Error(code)
      case Entry(op, next) => After([op], Parse(s, next, room - 1))
  }

  function After(before: seq<Op>, p: Parsed): (r: Parsed)
    ensures r.Ops? ==> p.Ops? && |r.ops| == |before| + |p.ops|
  {
    if p.Error? then p else Ops(before + p.ops)
  }

  lemma AfterAfter(before: seq<Op>, x: Op, p: Parsed)
    ensures After(before, After([x], p)) == After(before + [x], p)
  {
    if p.Ops? { assert before + ([x] + p.ops) == (before + [x]) + p.ops; }
  }

  /** The body of the loop: two numbers with a letter between and a separator behind. */
  method NextEntry(input: string, str: nat) returns (entry: Entry)
    requires str < |input|
    ensures entry == ReadEntry(input, str)
  {
    var n := Strtoul(input, str);
    var next := n.next;
    if next == |input| || (input[next] != 'r' && input[next] != 'w') {
      return Bad(-1);
    }
    var isWrite := input[next] == 'w';
    next := next + 1;
    var sz := Strtoul(input, next);
    next := sz.next;
    if next < |input| {
      if input[next] != '-' {
        return Bad(-2);
      }
      next := next + 1;
    }
    return Entry(Op(n.value, sz.value, isWrite), next);
  }

  /** `parse_ops`: fills ops from the left and returns the number of entries, or a negative code. */
  method ParseOps(input: string, ops: array<Op>) returns (r: int)
    modifies ops
    ensures match Parse(input, 0, ops.Length)
            case Error(code) => r == code
            case Ops(list) => r == |list| && ops[..r] == list && ops[r..] == old(ops[..])[r..]
  {
    var str, i := 0, 0;
    ghost var whole := Parse(input, 0, ops.Length);
    while str < |input| && i < ops.Length
      invariant str <= |input| && i <= ops.Length
      invariant ops[i..] == old(ops[..])[i..]
      invariant whole == After(ops[..i], Parse(input, str, ops.Length - i))
      decreases |input| - str
    {
      var entry := NextEntry(input, str);
      if entry.Bad? {
        return entry.code;
      }
      ghost var before, tail := ops[..i], ops[i + 1..];
      assert tail == old(ops[..])[i..][1..] == old(ops[..])[i + 1..];
      AfterAfter(before, entry.op, Parse(input, entry.next, ops.Length - i - 1));
      ops[i] := entry.op;
      assert ops[..i + 1] == before + [entry.op] && ops[i + 1..] == tail;
      str, i := entry.next, i + 1;
    }
    return i;
  }

  // ----- What the programs make of the result -----

  /** The length of the operation table of both programs. */
  const CAPACITY: nat := 128

  /** Both programs keep the result of `parse_ops` in a `size_t`, where a negative code becomes 2^64 + code. */
  function StoredCount(p: Parsed): int {
    match p
    case Ops(ops) => |ops|
    case Error(code) => TWO64 + code
  }

  lemma {:induction false} ParsedIs(s: string, p: nat, room: nat)
    requires p <= |s|
    ensures match Parse(s, p, room)
            case Error(code) => code == -1 || code == -2
            case Ops(ops) => Printable(ops) && (ops == [] <==> p == |s| || room == 0)
    decreases |s| - p
  {
    if p < |s| && room > 0 {
      var e := ReadEntry(s, p);
      if e.Entry? { ParsedIs(s, e.next, room - 1); }
    }
  }

  /** The part of main that loads a program. It means to refuse a malformed one and never does. */
  method LoadProgram(program: string, eops: array<Op>) returns (refused: bool, size: int)
    requires eops.Length == 128
    modifies eops
    ensures !refused && size == StoredCount(Parse(program, 0, CAPACITY))
    ensures match Parse(program, 0, CAPACITY)
            case Error(_) => true
            case Ops(list) => eops[..|list|] == list && eops[|list|..] == old(eops[..])[|list|..]
  {
    ParsedIs(program, 0, CAPACITY);
    var r := ParseOps(program, eops);
    size := if r < 0 then TWO64 + r else r;
    refused := size < 0;
  }

  /** The text is well formed from position p on: entry after entry reads, to the end. */
  predicate WellFormed(s: string, p: nat)
    requires p <= |s|
    decreases |s| - p
  {
    p == |s| || (ReadEntry(s, p).Entry? && WellFormed(s, ReadEntry(s, p).next))
  }

  /** How many entries read from position p on, before the end or the first malformed one. */
  function GoodEntries(s: string, p: nat): nat
    requires p <= |s|
    decreases |s| - p
  {
    if p == |s| || ReadEntry(s, p).Bad? then 0 else 1 + GoodEntries(s, ReadEntry(s, p).next)
  }

  lemma {:induction false} ParseLooksAhead(s: string, p: nat, room: nat)
    requires p <= |s|
    ensures match Parse(s, p, room)
            case Ops(ops) => |ops| == (if GoodEntries(s, p) < room then GoodEntries(s, p) else room)
            case Error(_) => true
    ensures Parse(s, p, room).Ops? <==> WellFormed(s, p) || GoodEntries(s, p) >= room
    decreases |s| - p
  {
    if p < |s| && room > 0 {
      var e := ReadEntry(s, p);
      if e.Entry? { ParseLooksAhead(s, e.next, room - 1); }
    }
  }

  /** The stored count fits the table exactly when the text is well formed or its first 128 entries are, which is as
      far as the parser looks. Then it is the number of good entries, at most 128; otherwise it is close to 2^64. */
  lemma CountFitsExactly(s: string)
    ensures StoredCount(Parse(s, 0, CAPACITY)) <= CAPACITY <==> WellFormed(s, 0) || GoodEntries(s, 0) >= CAPACITY
    ensures var good := GoodEntries(s, 0);
            StoredCount(Parse(s, 0, CAPACITY)) ==
            if WellFormed(s, 0) || good >= CAPACITY then (if good < CAPACITY then good else CAPACITY)
            else TWO64 + Parse(s, 0, CAPACITY).code
    ensures Parse(s, 0, CAPACITY).Error? ==> TWO64 - 2 <= StoredCount(Parse(s, 0, CAPACITY)) < TWO64
  {
    ParsedIs(s, 0, CAPACITY);
    ParseLooksAhead(s, 0, CAPACITY);
  }

  function Copies(n: nat): string {
    if n == 0 then "" else "1r1-" + Copies(n - 1)
  }

  lemma {:induction false} CopiesAreGood(s: string, p: nat, n: nat)
    requires p <= |s| && s[p..] == Copies(n) + "x"
    ensures GoodEntries(s, p) == n && !WellFormed(s, p)
    decreases n
  {
    var t := s[p..];
    if n == 0 {
      assert s[p] == t[0] == 'x' && p + 1 == |s|;
    } else {
      assert s[p] == t[0] == '1' && s[p + 1] == t[1] == 'r' && s[p + 2] == t[2] == '1' && s[p + 3] == t[3] == '-';
      OneEntry(s, p);
      assert s[p + 4..] == t[4..] == Copies(n - 1) + "x";
      CopiesAreGood(s, p + 4, n - 1);
    }
  }

  lemma OneEntry(s: string, p: nat)
    requires p + 3 < |s| && s[p] == '1' && s[p + 1] == 'r' && s[p + 2] == '1' && s[p + 3] == '-'
    ensures ReadEntry(s, p) == Entry(Op(1, 1, false), p + 4)
  {
    assert s[p..p + 1] == Decimal(1) && s[p + 2..p + 3] == Decimal(1);
    StrtoulReadsDecimal(s, p, p + 1, 1);
    StrtoulReadsDecimal(s, p + 2, p + 3, 1);
  }

  /** For example 128 or more times `1r1-` and an x behind them: malformed, and stored as a full table. */
  lemma MalformedBehindFullTable(n: nat)
    requires n >= 128
    ensures !WellFormed(Copies(n) + "x", 0)
    ensures StoredCount(Parse(Copies(n) + "x", 0, CAPACITY)) == 128
  {
    var s := Copies(n) + "x";
    assert s[0..] == s;
    CopiesAreGood(s, 0, n);
    CountFitsExactly(s);
  }

  /** For example the text "x" counts as 2^64 - 1 operations. */
  lemma MalformedIsCounted()
    ensures !WellFormed("x", 0)
    ensures Parse("x", 0, CAPACITY) == Error(-1) && StoredCount(Parse("x", 0, CAPACITY)) == U64_MAX
  {
  }

  // ----- Printing and reading back -----

  function PrintOp(x: Op): string {
    Decimal(x.n) + [if x.isWrite then 'w' else 'r'] + Decimal(x.sz)
  }

  function Print(ops: seq<Op>): string {
    if ops == [] then ""
    else if |ops| == 1 then PrintOp(ops[0])
    else PrintOp(ops[0]) + "-" + Print(ops[1..])
  }

  ghost predicate Printable(ops: seq<Op>) {
    forall x :: x in ops ==> x.n <= U64_MAX && x.sz <= U64_MAX
  }

  /** The text from pos[i] on reads entry i and goes on at pos[i + 1]; the last position is the end. */
  ghost predicate ReadsAlong(s: string, pos: seq<nat>, ops: seq<Op>) {
    && |pos| == |ops| + 1 && pos[|ops|] == |s|
    && forall i :: 0 <= i < |ops| ==> ReadsAt(s, pos, ops, i)
  }

  ghost predicate ReadsAt(s: string, pos: seq<nat>, ops: seq<Op>, i: nat)
    requires i < |ops| && |pos| == |ops| + 1
  {
    pos[i] < |s| && ReadEntry(s, pos[i]) == Entry(ops[i], pos[i + 1])
  }

  /** A printed program is read entry by entry. */
  lemma {:induction false} PrintedReadsAlong(s: string, p: nat, ops: seq<Op>) returns (pos: seq<nat>)
    requires Printable(ops) && p <= |s| && s[p..] == Print(ops)
    ensures ReadsAlong(s, pos, ops) && pos[0] == p
    decreases ops
  {
    if ops == [] {
      pos := [p];
    } else {
      var q := PrintSplits(s, p, ops);
      assert ops[0] in ops;
      ReadPrinted(s, p, q, ops[0]);
      var rest := PrintedReadsAlong(s, if q == |s| then q else q + 1, ops[1..]);
      pos := [p] + rest;
      OneMoreEntry(s, p, rest, ops);
    }
  }

  lemma OneMoreEntry(s: string, p: nat, rest: seq<nat>, ops: seq<Op>)
    requires ops != [] && p < |s| && ReadsAlong(s, rest, ops[1..]) && ReadEntry(s, p) == Entry(ops[0], rest[0])
    ensures ReadsAlong(s, [p] + rest, ops)
  {
    forall i | 0 <= i < |ops| ensures ReadsAt(s, [p] + rest, ops, i) {
      if i > 0 { assert ReadsAt(s, rest, ops[1..], i - 1); }
    }
  }

  lemma {:induction false} ParseAlong(s: string, pos: seq<nat>, ops: seq<Op>, room: nat)
    requires ReadsAlong(s, pos, ops)
    ensures pos[0] <= |s| && Parse(s, pos[0], room) == Ops(FirstEntries(ops, room))
    decreases ops
  {
    if ops != [] {
      assert ReadsAt(s, pos, ops, 0);
      if room > 0 {
        TailReadsAlong(s, pos, ops);
        ParseAlong(s, pos[1..], ops[1..], room - 1);
        FirstEntriesStep(ops, room, Parse(s, pos[0], room), Parse(s, pos[1], room - 1));
      }
    }
  }

  lemma FirstEntriesStep(ops: seq<Op>, room: nat, whole: Parsed, rest: Parsed)
    requires ops != [] && room > 0
    requires whole == After([ops[0]], rest) && rest == Ops(FirstEntries(ops[1..], room - 1))
    ensures whole == Ops(FirstEntries(ops, room))
  {
    assert FirstEntries(ops, room) == [ops[0]] + FirstEntries(ops[1..], room - 1);
  }

  lemma TailReadsAlong(s: string, pos: seq<nat>, ops: seq<Op>)
    requires ops != [] && ReadsAlong(s, pos, ops)
    ensures ReadsAlong(s, pos[1..], ops[1..])
  {
    forall i | 0 <= i < |ops[1..]| ensures ReadsAt(s, pos[1..], ops[1..], i) {
      assert ReadsAt(s, pos, ops, i + 1);
    }
  }

  /** Parsing undoes printing, up to the capacity of the array. */
  lemma ParseUndoesPrint(s: string, ops: seq<Op>, room: nat)
    requires Printable(ops) && s == Print(ops)
    ensures Parse(s, 0, room) == Ops(FirstEntries(ops, room))
  {
    assert s[0..] == s;
    var pos := PrintedReadsAlong(s, 0, ops);
    ParseAlong(s, pos, ops, room);
  }

  function FirstEntries(ops: seq<Op>, room: nat): seq<Op> {
    if |ops| <= room then ops else ops[..room]
  }

  lemma PrintSplits(s: string, p: nat, ops: seq<Op>) returns (q: nat)
    requires ops != [] && p <= |s| && s[p..] == Print(ops)
    ensures p <= q <= |s| && s[p..q] == PrintOp(ops[0])
    ensures if |ops| == 1 then q == |s| else q < |s| && s[q] == '-' && s[q + 1..] == Print(ops[1..])
    ensures |ops| == 1 ==> s[q..] == Print(ops[1..])
  {
    var t, m := s[p..], |PrintOp(ops[0])|;
    q := p + m;
    assert t[..m] == PrintOp(ops[0]) && s[p..q] == t[..m];
    if |ops| > 1 {
      assert t[m] == '-' && s[q] == t[m];
      assert t[m + 1..] == Print(ops[1..]) && s[q + 1..] == t[m + 1..];
    }
  }

  lemma PartsOfPrinted(s: string, p: nat, q: nat, x: Op) returns (mid: nat)
    requires p <= q <= |s| && s[p..q] == PrintOp(x)
    ensures p < mid < q && s[p..mid] == Decimal(x.n)
    ensures s[mid] == if x.isWrite then 'w' else 'r'
    ensures s[mid + 1..q] == Decimal(x.sz)
  {
    var t, m := PrintOp(x), |Decimal(x.n)|;
    mid := p + m;
    assert t[..m] == Decimal(x.n) && t[m + 1..] == Decimal(x.sz);
    assert s[p..mid] == t[..m] && s[mid] == t[m] && s[mid + 1..q] == t[m + 1..];
  }

  lemma ReadPrinted(s: string, p: nat, q: nat, x: Op)
    requires x.n <= U64_MAX && x.sz <= U64_MAX
    requires p <= q <= |s| && s[p..q] == PrintOp(x) && (q == |s| || s[q] == '-')
    ensures p < q && ReadEntry(s, p) == Entry(x, if q == |s| then q else q + 1)
  {
    var mid := PartsOfPrinted(s, p, q, x);
    StrtoulReadsDecimal(s, p, mid, x.n);
    StrtoulReadsDecimal(s, mid + 1, q, x.sz);
  }

  /** Behind a printed count, anything but r and w is refused. */
  lemma LetterDecides(n: nat, c: char, rest: string)
    requires n <= U64_MAX && !IsDigit(c)
    ensures ReadEntry(Decimal(n) + [c] + rest, 0) == Bad(-1) <==> c != 'r' && c != 'w'
  {
    var s, m := Decimal(n) + [c] + rest, |Decimal(n)|;
    assert s[0..m] == Decimal(n) && s[m] == c;
    StrtoulReadsDecimal(s, 0, m, n);
  }

  /** A text that ends behind its first number is refused as well. */
  lemma LetterIsNeeded(n: nat)
    requires n <= U64_MAX
    ensures ReadEntry(Decimal(n), 0) == Bad(-1)
  {
    assert Decimal(n)[0..|Decimal(n)|] == Decimal(n);
    StrtoulReadsDecimal(Decimal(n), 0, |Decimal(n)|, n);
  }

  /** Behind a printed entry, a '-' leads on and anything else is refused. */
  lemma SeparatorDecides(x: Op, c: char, rest: string)
    requires x.n <= U64_MAX && x.sz <= U64_MAX && !IsDigit(c)
    ensures ReadEntry(PrintOp(x) + [c] + rest, 0) == if c == '-' then Entry(x, |PrintOp(x)| + 1) else Bad(-2)
  {
    var s, q := PrintOp(x) + [c] + rest, |PrintOp(x)|;
    assert s[0..q] == PrintOp(x) && s[q] == c;
    var mid := PartsOfPrinted(s, 0, q, x);
    StrtoulReadsDecimal(s, 0, mid, x.n);
    StrtoulReadsDecimal(s, mid + 1, q, x.sz);
  }

  // ----- Buffer size -----

  /** `get_max_buffer_size`. */
  method GetMaxBufferSize(ops: seq<Op>) returns (maxSz: nat)
    ensures forall x :: x in ops ==> x.sz <= maxSz
    ensures maxSz == 0 || exists x :: x in ops && x.sz == maxSz
  {
    maxSz := 0;
    for i := 0 to |ops|
      invariant forall j :: 0 <= j < i ==> ops[j].sz <= maxSz
      invariant maxSz == 0 || exists j :: 0 <= j < i && ops[j].sz == maxSz
    {
      if ops[i].sz > maxSz {
        maxSz := ops[i].sz;
      }
    }
  }
}
