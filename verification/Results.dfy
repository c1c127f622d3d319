/** Result lines: printed by `bm_stats.h` and the runner as `key=val;` fields, one line per execution unit, parsed
    by `parse_output_to_results` and intersected by `dict_intersect`. */
module Results {
  import opened Lines
  import opened Text

  type Dict = map<string, string>

  // ----- Parsing -----

  function LeftStrip(s: string): string {
    if s != "" && IsSpace(s[0]) then LeftStrip(s[1..]) else s
  }

  function RightStrip(s: string): string {
    if s != "" && IsSpace(s[|s| - 1]) then RightStrip(s[..|s| - 1]) else s
  }

  function Strip(s: string): string { RightStrip(LeftStrip(s)) }

  /** str.splitlines for lines that end with a newline character. */
  function SplitLines(s: string): seq<string> {
    if s == "" then []
    else
      var parts := Split(s, '\n');
      if parts[|parts| - 1] == "" then parts[..|parts| - 1] else parts
  }

  datatype Field = Field(key: string, value: string) | NoValue

  /** x.split("=", maxsplit=1): everything behind the first '=' is the value. */
  function SplitField(x: string): Field {
    if x == "" then NoValue
    else if x[0] == '=' then Field("", x[1..])
    else
      match SplitField(x[1..])
      case NoValue => NoValue
      case Field(key, value) => Field([x[0]] + key, value)
  }

  /** The dictionary of some fields; a repeated key keeps its last value, a field without '=' is an IndexError. */
  datatype Line = Ok(dict: Dict) | IndexError

  function ParseFields(fields: seq<string>): Line {
    if fields == [] then Ok(map[])
    else
      match (ParseFields(fields[..|fields| - 1]), SplitField(fields[|fields| - 1]))
      case (Ok(d), Field(key, value)) => Ok(d[key := value])
      case _ => IndexError
  }

  function ParseLine(line: string): Line {
    var body := if line != "" && line[|line| - 1] == ';' then line[..|line| - 1] else line;
    ParseFields(Split(body, ';'))
  }

  datatype Parsed = Dicts(dicts: seq<Dict>) | Failed

  /** The dictionaries of all lines that are not blank. */
  function ParseLines(lines: seq<string>): Parsed {
    if lines == [] then Dicts([]) else OneMoreLine(ParseLines(lines[..|lines| - 1]), lines[|lines| - 1])
  }

  function OneMoreLine(p: Parsed, line: string): Parsed {
    if p.Failed? || Strip(line) == "" then p
    else
      match ParseLine(line)
      case IndexError => Failed
      case Ok(d) => Dicts(p.dicts + [d])
  }

  /** `parse_output_to_results`, up to the choice of intersecting. */
  method ParseOutput(commandOutput: string) returns (r: Parsed)
    ensures r == ParseLines(SplitLines(Strip(commandOutput)))
  {
    var output := Strip(commandOutput);
    var lines := SplitLines(output);
    var dicts: seq<Dict> := [];
    for i := 0 to |lines|
      invariant ParseLines(lines[..i]) == Dicts(dicts)
    {
      assert lines[..i + 1][..i] == lines[..i];
      output := lines[i];
      if Strip(output) == "" {
        continue;
      }
      var d := ParseLine(output);
      if d.IndexError? {
        FailureStays(lines, i + 1);
        return Failed;
      }
      dicts := dicts + [d.dict];
    }
    assert lines[..|lines|] == lines;
    return Dicts(dicts);
  }

  lemma {:induction false} FailureStays(lines: seq<string>, k: nat)
    requires k <= |lines| && ParseLines(lines[..k]).Failed?
    ensures ParseLines(lines).Failed?
    decreases |lines|
  {
    if k == |lines| {
      assert lines[..k] == lines;
    } else {
      assert lines[..|lines| - 1][..k] == lines[..k];
      FailureStays(lines[..|lines| - 1], k);
    }
  }

  // ----- What parsing does with any text -----

  /** Stripping cuts off exactly the white space at both ends. */
  lemma StripExactly(s: string) returns (lo: nat, hi: nat)
    ensures lo <= hi <= |s| && Strip(s) == s[lo..hi]
    ensures forall i :: 0 <= i < lo || hi <= i < |s| ==> IsSpace(s[i])
    ensures lo < hi ==> !IsSpace(s[lo]) && !IsSpace(s[hi - 1])
  {
    lo := LeftCut(s);
    var keep := RightCut(LeftStrip(s));
    hi := lo + keep;
    assert s[lo..][..keep] == s[lo..hi];
    forall i | hi <= i < |s| ensures IsSpace(s[i]) { assert s[i] == s[lo..][i - lo]; }
    if lo < hi { assert s[lo] == s[lo..][0] && s[hi - 1] == s[lo..][keep - 1]; }
  }

  lemma {:induction false} LeftCut(s: string) returns (lo: nat)
    ensures lo <= |s| && LeftStrip(s) == s[lo..] && (forall i :: 0 <= i < lo ==> IsSpace(s[i]))
    ensures lo < |s| ==> !IsSpace(s[lo])
  {
    if s != "" && IsSpace(s[0]) {
      var rest := LeftCut(s[1..]);
      lo := rest + 1;
      forall i | 0 <= i < lo ensures IsSpace(s[i]) { if i > 0 { assert s[i] == s[1..][i - 1]; } }
    } else {
      lo := 0;
    }
  }

  lemma {:induction false} RightCut(s: string) returns (hi: nat)
    ensures hi <= |s| && RightStrip(s) == s[..hi] && (forall i :: hi <= i < |s| ==> IsSpace(s[i]))
    ensures hi > 0 ==> !IsSpace(s[hi - 1])
  {
    if s != "" && IsSpace(s[|s| - 1]) {
      hi := RightCut(s[..|s| - 1]);
      assert s[..|s| - 1][..hi] == s[..hi];
      forall i | hi <= i < |s| ensures IsSpace(s[i]) { if i < |s| - 1 { assert s[i] == s[..|s| - 1][i]; } }
    } else {
      hi := |s|;
    }
  }

  /** A field is split at its first '='; without one it has no value. */
  lemma {:induction false} SplitFieldExactly(x: string)
    ensures match SplitField(x)
            case NoValue => '=' !in x
            case Field(key, value) => x == key + "=" + value && '=' !in key
  {
    if x != "" && x[0] != '=' {
      SplitFieldExactly(x[1..]);
      assert x == [x[0]] + x[1..];
      if SplitField(x[1..]).Field? {
        var key, value := SplitField(x[1..]).key, SplitField(x[1..]).value;
        assert [x[0]] + (key + "=" + value) == ([x[0]] + key) + "=" + value;
      }
    } else if x != "" {
      assert x == "" + "=" + x[1..];
    }
  }

  /** Field i is the last one with its key. */
  ghost predicate LastOfKey(fields: seq<string>, i: nat, key: string) {
    && i < |fields| && SplitField(fields[i]).Field? && SplitField(fields[i]).key == key
    && forall j :: i < j < |fields| ==> SplitField(fields[j]).Field? && SplitField(fields[j]).key != key
  }

  /** A line is an error exactly when some field has no '='; otherwise a key has the value of its last field. */
  lemma {:induction false} ParseFieldsExactly(fields: seq<string>)
    ensures ParseFields(fields).IndexError? <==> exists i :: 0 <= i < |fields| && '=' !in fields[i]
    ensures ParseFields(fields).Ok? ==>
              forall key :: key in ParseFields(fields).dict <==> exists i: nat :: LastOfKey(fields, i, key)
    ensures ParseFields(fields).Ok? ==>
              forall key, i: nat :: LastOfKey(fields, i, key) ==>
                key in ParseFields(fields).dict && ParseFields(fields).dict[key] == SplitField(fields[i]).value
  {
    if fields != [] {
      var front, n := fields[..|fields| - 1], |fields| - 1;
      ParseFieldsExactly(front);
      SplitFieldExactly(fields[n]);
      if i :| 0 <= i < |front| && '=' !in front[i] { assert fields[i] == front[i]; }
      if ParseFields(fields).Ok? {
        forall key ensures key in ParseFields(fields).dict <==> exists i: nat :: LastOfKey(fields, i, key) {
          LastKey(fields, front, key);
        }
        forall key, i: nat | LastOfKey(fields, i, key)
          ensures key in ParseFields(fields).dict && ParseFields(fields).dict[key] == SplitField(fields[i]).value
        {
          if i < n { assert LastOfKey(front, i, key); }
        }
      }
    }
  }

  lemma LastKey(fields: seq<string>, front: seq<string>, key: string)
    requires fields != [] && front == fields[..|fields| - 1] && SplitField(fields[|fields| - 1]).Field?
    ensures (exists i: nat :: LastOfKey(fields, i, key)) <==>
            SplitField(fields[|fields| - 1]).key == key || exists i: nat :: LastOfKey(front, i, key)
  {
    if SplitField(fields[|front|]).key == key {
      assert LastOfKey(fields, |front|, key);
    } else {
      if i: nat :| LastOfKey(fields, i, key) { assert LastOfKey(front, i, key); }
      if i: nat :| LastOfKey(front, i, key) { assert LastOfKey(fields, i, key); }
    }
  }

  /** A line may end with a ';' that separates nothing, and what is left is split at every other ';'. */
  lemma ParseLineExactly(fields: seq<string>)
    requires fields != [] && (forall x :: x in fields ==> ';' !in x)
    ensures ParseLine(Join(fields, ';') + ";") == ParseFields(fields)
    ensures (fields[|fields| - 1] != "" || |fields| == 1) ==> ParseLine(Join(fields, ';')) == ParseFields(fields)
  {
    SplitUndoesJoin(fields, ';');
    var body := Join(fields, ';');
    assert (body + ";")[..|body|] == body;
    LastOfJoined(fields, ';');
  }

  lemma {:induction false} LastOfJoined(parts: seq<string>, sep: char)
    requires parts != [] && (forall x :: x in parts ==> sep !in x)
    ensures var j, last := Join(parts, sep), parts[|parts| - 1];
            (last != "" ==> j != "" && j[|j| - 1] == last[|last| - 1] && j[|j| - 1] != sep) &&
            (last == "" && |parts| == 1 ==> j == "")
  {
    assert parts[|parts| - 1] in parts;
    if |parts| > 1 { LastOfJoined(parts[1..], sep); }
  }

  /** Blank lines do not matter. */
  lemma {:induction false} BlankLinesAreSkipped(front: seq<string>, blank: string, back: seq<string>)
    requires Strip(blank) == ""
    ensures ParseLines(front + [blank] + back) == ParseLines(front + back)
    decreases |back|
  {
    var lines := front + [blank] + back;
    if back == [] {
      assert lines[..|lines| - 1] == front && front + back == front;
    } else {
      var less := back[..|back| - 1];
      BlankLinesAreSkipped(front, blank, less);
      assert lines[..|lines| - 1] == front + [blank] + less;
      assert (front + back)[..|front + back| - 1] == front + less;
    }
  }

  /** An error in some line, or the dictionaries of all lines in order. */
  ghost predicate ReadsInOrder(lines: seq<string>, p: Parsed) {
    match p
    case Failed => exists i :: 0 <= i < |lines| && ParseLine(lines[i]).IndexError?
    case Dicts(ds) => |ds| == |lines| && forall i :: 0 <= i < |lines| ==> ParseLine(lines[i]) == Ok(ds[i])
  }

  lemma OneMoreInOrder(front: seq<string>, p: Parsed, line: string)
    requires ReadsInOrder(front, p) && Strip(line) != ""
    ensures ReadsInOrder(front + [line], OneMoreLine(p, line))
  {
    var lines := front + [line];
    if p.Failed? {
      var i :| 0 <= i < |front| && ParseLine(front[i]).IndexError?;
      assert lines[i] == front[i];
    } else if ParseLine(line).IndexError? {
      assert lines[|front|] == line;
    }
  }

  /** Lines that are not blank give their dictionaries in order, and an error in one of them fails the whole. */
  lemma {:induction false} LinesInOrder(lines: seq<string>)
    requires forall i :: 0 <= i < |lines| ==> Strip(lines[i]) != ""
    ensures ReadsInOrder(lines, ParseLines(lines))
  {
    if lines != [] {
      var front, last := lines[..|lines| - 1], lines[|lines| - 1];
      LinesInOrder(front);
      OneMoreInOrder(front, ParseLines(front), last);
      assert lines == front + [last];
    }
  }

  /** The lines are what stands between newlines; one newline at the end begins no further line. */
  lemma SplitLinesExactly(lines: seq<string>)
    requires lines != [] && lines[|lines| - 1] != "" && forall x :: x in lines ==> '\n' !in x
    ensures SplitLines(Join(lines, '\n')) == lines && SplitLines(Join(lines, '\n') + "\n") == lines
  {
    SplitUndoesJoin(lines, '\n');
    LastOfJoined(lines, '\n');
    var more := lines + [""];
    JoinAppend(lines, "", '\n');
    assert Join(more, '\n') == Join(lines, '\n') + "\n";
    SplitUndoesJoin(more, '\n');
    assert more[..|more| - 1] == lines;
  }

  // ----- Printing and reading back -----

  datatype Entry = Entry(key: string, value: string)

  /** Keys and values without separators and white space; a value may contain '='. */
  ghost predicate Clean(s: string) {
    forall i :: 0 <= i < |s| ==> s[i] != ';' && !IsSpace(s[i])
  }

  ghost predicate CleanUnit(unit: seq<Entry>) {
    unit != [] && forall i :: 0 <= i < |unit| ==> Clean(unit[i].key) && Clean(unit[i].value) && '=' !in unit[i].key
  }

  function FieldText(e: Entry): string { e.key + "=" + e.value }

  function Texts(unit: seq<Entry>): (r: seq<string>)
    ensures |r| == |unit|
  {
    seq(|unit|, i requires 0 <= i < |unit| => FieldText(unit[i]))
  }

  /** One unit's line: every field is followed by the delimiter. */
  function PrintUnit(unit: seq<Entry>): string {
    if unit == [] then "" else PrintUnit(unit[..|unit| - 1]) + FieldText(unit[|unit| - 1]) + ";"
  }

  /** The concatenated output of all units. */
  function PrintAll(units: seq<seq<Entry>>): string {
    if units == [] then "" else PrintUnit(units[0]) + "\n" + PrintAll(units[1..])
  }

  function DictOf(unit: seq<Entry>): Dict {
    if unit == [] then map[] else DictOf(unit[..|unit| - 1])[unit[|unit| - 1].key := unit[|unit| - 1].value]
  }

  function DictsOf(units: seq<seq<Entry>>): seq<Dict> {
    if units == [] then [] else DictsOf(units[..|units| - 1]) + [DictOf(units[|units| - 1])]
  }

  lemma {:induction false} FieldReadsBack(key: string, value: string)
    requires '=' !in key
    ensures SplitField(key + ("=" + value)) == Field(key, value)
  {
    var x := key + ("=" + value);
    if key != "" {
      FieldReadsBack(key[1..], value);
      assert x[1..] == key[1..] + ("=" + value);
      assert [key[0]] + key[1..] == key;
    }
  }

  lemma TextReadsBack(e: Entry)
    requires '=' !in e.key
    ensures SplitField(FieldText(e)) == Field(e.key, e.value)
  {
    assert FieldText(e) == e.key + ("=" + e.value);
    FieldReadsBack(e.key, e.value);
  }

  lemma {:induction false} FieldsReadBack(unit: seq<Entry>)
    requires forall i :: 0 <= i < |unit| ==> '=' !in unit[i].key
    ensures ParseFields(Texts(unit)) == Ok(DictOf(unit))
  {
    if unit != [] {
      var n := |unit| - 1;
      FieldsReadBack(unit[..n]);
      TextReadsBack(unit[n]);
      assert Texts(unit)[..n] == Texts(unit[..n]);
    }
  }

  lemma {:induction false} UnitIsJoined(unit: seq<Entry>)
    requires unit != []
    ensures PrintUnit(unit) == Join(Texts(unit), ';') + ";"
  {
    var n := |unit| - 1;
    if n == 0 {
      assert PrintUnit(unit[..0]) == "";
      assert Texts(unit) == [FieldText(unit[0])];
    } else {
      UnitIsJoined(unit[..n]);
      assert Texts(unit) == Texts(unit[..n]) + [FieldText(unit[n])];
      JoinAppend(Texts(unit[..n]), FieldText(unit[n]), ';');
    }
  }

  lemma {:induction false} JoinAppend(parts: seq<string>, p: string, sep: char)
    requires parts != []
    ensures Join(parts + [p], sep) == Join(parts, sep) + [sep] + p
  {
    var all := parts + [p];
    if |parts| == 1 {
      assert all[1..] == [p];
    } else {
      JoinAppend(parts[1..], p, sep);
      assert all[1..] == parts[1..] + [p];
    }
  }

  /** A printed line parses to the dictionary of its unit. */
  lemma LineReadsBack(unit: seq<Entry>)
    requires CleanUnit(unit)
    ensures ParseLine(PrintUnit(unit)) == Ok(DictOf(unit))
  {
    UnitIsJoined(unit);
    var line, body := PrintUnit(unit), Join(Texts(unit), ';');
    assert line[..|line| - 1] == body && line[|line| - 1] == ';';
    forall p | p in Texts(unit) ensures ';' !in p {
      var i :| 0 <= i < |unit| && Texts(unit)[i] == p;
    }
    SplitUndoesJoin(Texts(unit), ';');
    FieldsReadBack(unit);
  }

  /** A printed line has no white space and is not empty. */
  lemma {:induction false} LineIsSolid(unit: seq<Entry>)
    requires forall i :: 0 <= i < |unit| ==> Clean(unit[i].key) && Clean(unit[i].value)
    ensures forall i :: 0 <= i < |PrintUnit(unit)| ==> !IsSpace(PrintUnit(unit)[i])
    ensures unit != [] ==> PrintUnit(unit) != ""
  {
    if unit != [] { LineIsSolid(unit[..|unit| - 1]); }
  }

  function LinesOf(units: seq<seq<Entry>>): (r: seq<string>)
    ensures |r| == |units|
  {
    seq(|units|, i requires 0 <= i < |units| => PrintUnit(units[i]))
  }

  lemma {:induction false} OutputIsJoined(units: seq<seq<Entry>>)
    requires units != []
    ensures PrintAll(units) == Join(LinesOf(units), '\n') + "\n"
  {
    if |units| == 1 {
      assert PrintAll(units[1..]) == "";
      assert LinesOf(units) == [PrintUnit(units[0])];
    } else {
      OutputIsJoined(units[1..]);
      assert LinesOf(units)[1..] == LinesOf(units[1..]);
    }
  }

  lemma SolidStrip(s: string)
    requires s != "" && !IsSpace(s[0]) && !IsSpace(s[|s| - 1])
    ensures Strip(s) == s && Strip(s + "\n") == s
  {
    var t := s + "\n";
    assert LeftStrip(t) == t;
    assert t[..|t| - 1] == s;
    assert RightStrip(s) == s;
  }

  lemma {:induction false} JoinEnds(parts: seq<string>, sep: char)
    requires parts != [] && forall p :: p in parts ==> p != "" && !IsSpace(p[0]) && !IsSpace(p[|p| - 1])
    ensures var j := Join(parts, sep); j != "" && !IsSpace(j[0]) && !IsSpace(j[|j| - 1])
  {
    assert parts[0] in parts;
    if |parts| > 1 { JoinEnds(parts[1..], sep); }
  }

  lemma {:induction false} AllLinesReadBack(units: seq<seq<Entry>>)
    requires forall u :: u in units ==> CleanUnit(u)
    ensures ParseLines(LinesOf(units)) == Dicts(DictsOf(units))
  {
    if units != [] {
      var n := |units| - 1;
      assert units[n] in units;
      AllLinesReadBack(units[..n]);
      assert LinesOf(units)[..n] == LinesOf(units[..n]);
      LineReadsBack(units[n]);
      LineIsSolid(units[n]);
      SolidStrip(PrintUnit(units[n]));
    }
  }

  lemma OutputSplits(units: seq<seq<Entry>>)
    requires forall u :: u in units ==> CleanUnit(u)
    ensures SplitLines(Strip(PrintAll(units))) == LinesOf(units)
  {
    if units != [] {
      var lines := LinesOf(units);
      forall p | p in lines ensures p != "" && '\n' !in p && !IsSpace(p[0]) && !IsSpace(p[|p| - 1]) {
        var i :| 0 <= i < |units| && lines[i] == p;
        assert units[i] in units;
        LineIsSolid(units[i]);
      }
      OutputIsJoined(units);
      JoinEnds(lines, '\n');
      SolidStrip(Join(lines, '\n'));
      SplitUndoesJoin(lines, '\n');
      assert lines[|lines| - 1] in lines;
    }
  }

  /** Whatever number of units with clean fields print their lines, parsing the concatenated output gives their
      dictionaries in order. */
  lemma OutputReadsBack(units: seq<seq<Entry>>)
    requires forall u :: u in units ==> CleanUnit(u)
    ensures ParseLines(SplitLines(Strip(PrintAll(units)))) ==
            Dicts(DictsOf(units))
  {
    OutputSplits(units);
    AllLinesReadBack(units);
  }

  // ----- Intersecting the dictionaries -----

  ghost predicate InAll(dicts: seq<Dict>, k: string) { forall d :: d in dicts ==> k in d }

  /** set.intersection over the key sets. */
  function CommonKeys(dicts: seq<Dict>): (s: set<string>)
    requires dicts != []
    ensures forall k :: k in s <==> InAll(dicts, k)
  {
    var n := |dicts| - 1;
    assert dicts == dicts[..n] + [dicts[n]];
    if n == 0 then dicts[0].Keys else CommonKeys(dicts[..n]) * dicts[n].Keys
  }

  ghost predicate SameKeys(dicts: seq<Dict>) {
    forall d, e :: d in dicts && e in dicts ==> d.Keys == e.Keys
  }

  /** Comparing lengths with the number of common keys decides whether all key sets are equal. */
  lemma LengthsDecide(dicts: seq<Dict>)
    requires dicts != []
    ensures (forall d :: d in dicts ==> |d| == |CommonKeys(dicts)|) <==> SameKeys(dicts)
  {
    var common := CommonKeys(dicts);
    forall d | d in dicts ensures common <= d.Keys && (|d| == |common| <==> d.Keys == common) {
      assert forall k :: k in common ==> k in d;
      assert |d| == |d.Keys|;
      assert d.Keys == common + (d.Keys - common);
    }
    if SameKeys(dicts) {
      assert dicts[0] in dicts;
      assert dicts[0].Keys == common;
    }
  }

  /** {k: d[k] for k in common}. */
  function Keep(d: Dict, common: set<string>): Dict {
    map k | k in common && k in d :: d[k]
  }

  function Filtered(dicts: seq<Dict>): (r: seq<Dict>)
    requires dicts != []
    ensures |r| == |dicts|
  {
    seq(|dicts|, i requires 0 <= i < |dicts| => Keep(dicts[i], CommonKeys(dicts)))
  }

  /** Each filtered dictionary has exactly the common keys, with its own original values. */
  lemma FilteredKeepsCommonKeys(dicts: seq<Dict>, i: nat, k: string)
    requires i < |dicts|
    ensures k in Filtered(dicts)[i] <==> InAll(dicts, k)
    ensures k in Filtered(dicts)[i] ==> k in dicts[i] && Filtered(dicts)[i][k] == dicts[i][k]
  {
    assert dicts[i] in dicts;
    assert k in CommonKeys(dicts) <==> InAll(dicts, k);
  }

  datatype Intersection = Result(dicts: seq<Dict>) | TypeError

  /** `dict_intersect`. The listed dictionaries get the header when their keys differ; without any dictionary Python
      raises a TypeError. */
  method DictIntersect(dicts: array<Dict>, header: Dict) returns (r: Intersection)
    modifies dicts
    ensures dicts.Length == 0 ==> r == TypeError
    ensures dicts.Length > 0 && SameKeys(old(dicts[..])) ==> r == Result(old(dicts[..])) && dicts[..] == old(dicts[..])
    ensures dicts.Length > 0 && !SameKeys(old(dicts[..])) ==>
              && r == Result(Filtered(old(dicts[..])))
              && forall i :: 0 <= i < dicts.Length ==> dicts[i] == old(dicts[i]) + header
  {
    if dicts.Length == 0 {
      return TypeError;
    }
    var originals := dicts[..];
    var common := CommonKeys(originals);
    var identical := AllOfSize(originals, |common|);
    LengthsDecide(originals);
    if identical {
      return Result(originals);
    }
    var filtered := seq(|originals|, i requires 0 <= i < |originals| => Keep(originals[i], common));
    assert filtered == Filtered(originals);
    AppendHeader(dicts, header);
    return Result(filtered);
  }

  method AppendHeader(dicts: array<Dict>, header: Dict)
    modifies dicts
    ensures forall i :: 0 <= i < dicts.Length ==> dicts[i] == old(dicts[i]) + header
  {
    for i := 0 to dicts.Length
      invariant forall j :: 0 <= j < dicts.Length ==> dicts[j] == if j < i then old(dicts[j]) + header else old(dicts[j])
    {
      dicts[i] := dicts[i] + header;
    }
  }

  /** all(len(d) == size for d in dicts). */
  method AllOfSize(dicts: seq<Dict>, size: nat) returns (all: bool)
    ensures all <==> forall d :: d in dicts ==> |d| == size
  {
    for i := 0 to |dicts|
      invariant forall j :: 0 <= j < i ==> |dicts[j]| == size
    {
      if |dicts[i]| != size {
        assert dicts[i] in dicts;
        return false;
      }
    }
    return true;
  }
}
