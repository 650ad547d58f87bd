/** The tables as text: six hexadecimal digits a value, and what a reader gets back. */
module UnicodeText {
  import opened Options
  import opened UnicodeTables
  import opened UnicodeCodec
  import opened Numbers

  const LIMIT: nat := 0x100_0000

  predicate IsHexDigit(c: char) {
    '0' <= c <= '9' || 'a' <= c <= 'f'
  }

  function HexDigit(d: nat): (c: char)
    requires d < 16
    ensures IsHexDigit(c) && HexValue(c) == d
  {
    if d < 10 then '0' + d as char else 'a' + (d - 10) as char
  }

  function HexValue(c: char): (d: nat)
    requires IsHexDigit(c)
    ensures d < 16
  {
    if c <= '9' then (c - '0') as nat else 10 + (c - 'a') as nat
  }

  /** The shortest hexadecimal form. */
  function HexText(v: nat): (t: string)
    ensures |t| >= 1 && forall i :: 0 <= i < |t| ==> IsHexDigit(t[i])
  {
    if v < 16 then [HexDigit(v)] else HexText(v / 16) + [HexDigit(v % 16)]
  }

  function Zeros(n: nat): (t: string)
    ensures |t| == n && forall i :: 0 <= i < n ==> t[i] == '0'
  {
    seq(n, i => '0')
  }

  /** Python's format `06x`: at least six digits. */
  function SixDigits(v: nat): (t: string)
    ensures |t| >= 6 && forall i :: 0 <= i < |t| ==> IsHexDigit(t[i])
  {
    var t := HexText(v);
    if |t| < 6 then Zeros(6 - |t|) + t else t
  }

  function HexNumber(t: string): nat
    requires forall i :: 0 <= i < |t| ==> IsHexDigit(t[i])
  {
    if t == [] then 0 else 16 * HexNumber(t[..|t| - 1]) + HexValue(t[|t| - 1])
  }

  lemma {:induction false} HexTextValue(v: nat)
    ensures HexNumber(HexText(v)) == v
  {
    var t := HexText(v);
    if v < 16 {
      assert t[..0] == [];
    } else {
      HexTextValue(v / 16);
      assert t[..|t| - 1] == HexText(v / 16);
    }
  }

  lemma {:induction false} LeadingZeros(n: nat, t: string)
    requires forall i :: 0 <= i < |t| ==> IsHexDigit(t[i])
    ensures forall i :: 0 <= i < |Zeros(n) + t| ==> IsHexDigit((Zeros(n) + t)[i])
    ensures HexNumber(Zeros(n) + t) == HexNumber(t)
    decreases n + |t|
  {
    var z := Zeros(n) + t;
    if t != [] {
      LeadingZeros(n, t[..|t| - 1]);
      assert z[..|z| - 1] == Zeros(n) + t[..|t| - 1];
    } else if n > 0 {
      LeadingZeros(n - 1, t);
      assert z[..|z| - 1] == Zeros(n - 1) + t;
      assert z[|z| - 1] == '0';
    }
  }

  ghost function Power16(n: nat): nat {
    if n == 0 then 1 else 16 * Power16(n - 1)
  }

  lemma {:induction false} HexTextLength(v: nat, n: nat)
    requires n >= 1
    ensures |HexText(v)| <= n <==> v < Power16(n)
  {
    if n == 1 {
      assert Power16(1) == 16;
    } else if v >= 16 {
      HexTextLength(v / 16, n - 1);
    } else {
      PowerAtLeast(n);
    }
  }

  lemma {:induction false} PowerAtLeast(n: nat)
    requires n >= 1
    ensures Power16(n) >= 16
  {
    if n > 1 {
      PowerAtLeast(n - 1);
    } else {
      assert Power16(0) == 1;
    }
  }

  /** Six digits are enough exactly below 2^24, and always carry the value. */
  lemma SixDigitsValue(v: nat)
    ensures HexNumber(SixDigits(v)) == v
    ensures |SixDigits(v)| == 6 <==> v < LIMIT
  {
    var t := HexText(v);
    HexTextValue(v);
    HexTextLength(v, 6);
    assert Power16(6) == 16 * 16 * 16 * 16 * 16 * 16;
    if |t| < 6 {
      LeadingZeros(6 - |t|, t);
    } else {
      HexTextLength(v, 5);
    }
  }

  /** The digits in order. */
  const DIGITS: string := "0123456789abcdef"

  lemma HexDigitIs(d: nat)
    requires d < 16
    ensures HexDigit(d) == DIGITS[d]
  {
  }

  /** The digit of `v` that weighs 16^n. */
  function DigitAt(v: nat, n: nat): (c: char) {
    if n == 0 then DIGITS[v % 16] else DigitAt(v / 16, n - 1)
  }

  lemma {:induction false} DigitIsQuotient(v: nat, n: nat)
    ensures Power16(n) > 0 && DigitAt(v, n) == DIGITS[v / Power16(n) % 16]
  {
    if n > 0 {
      DigitIsQuotient(v / 16, n - 1);
      QuotientOfQuotient(v, Power16(n - 1));
    }
  }

  lemma QuotientOfQuotient(v: nat, p: nat)
    requires p > 0
    ensures 16 * p > 0 && v / 16 / p == v / (16 * p)
  {
    var q, r, s := v / 16 / p, v / 16 % p, v % 16;
    assert v == 16 * (q * p + r) + s;
    assert 16 * (q * p) == q * (16 * p);
    DivModUnique(v, 16 * p, q, 16 * r + s);
  }

  lemma {:induction false} HexTextDigits(v: nat, k: nat)
    requires k < |HexText(v)|
    ensures HexText(v)[k] == DigitAt(v, |HexText(v)| - 1 - k)
  {
    HexDigitIs(v % 16);
    if v >= 16 && k < |HexText(v)| - 1 {
      HexTextDigits(v / 16, k);
    }
  }

  /** Beyond the shortest form the digits are zero. */
  lemma {:induction false} HighDigitIsZero(v: nat, n: nat)
    requires n >= |HexText(v)|
    ensures DigitAt(v, n) == '0'
  {
    if v >= 16 {
      HighDigitIsZero(v / 16, n - 1);
    } else {
      ZeroDigit(n - 1);
    }
  }

  lemma {:induction false} ZeroDigit(n: nat)
    ensures DigitAt(0, n) == '0'
  {
    if n > 0 {
      ZeroDigit(n - 1);
    }
  }

  /** Character `k` of a six-digit value is the lower-case digit of v / 16^(5-k) mod 16. */
  lemma SixDigitsAt(v: nat, k: nat)
    requires v < LIMIT && k < 6
    ensures |SixDigits(v)| == 6 && Power16(5 - k) > 0
    ensures SixDigits(v)[k] == "0123456789abcdef"[v / Power16(5 - k) % 16]
  {
    SixDigitsValue(v);
    DigitIsQuotient(v, 5 - k);
    var t := HexText(v);
    if k >= 6 - |t| {
      HexTextDigits(v, k - (6 - |t|));
    } else {
      HighDigitIsZero(v, 5 - k);
    }
  }

  // ------------------------------------------------------------------- tables

  function EmitTable(values: seq<nat>): string {
    if values == [] then "" else SixDigits(values[0]) + EmitTable(values[1..])
  }

  /** A reader takes six characters at a time. */
  function ParseTable(text: string): Option<seq<nat>> {
    if text == "" then Some([])
    else if |text| < 6 || exists i :: 0 <= i < 6 && !IsHexDigit(text[i]) then None
    else
      var rest := ParseTable(text[6..]);
      if rest.None? then None else Some([HexNumber(text[..6])] + rest.value)
  }

  ghost predicate Fits(values: seq<nat>) {
    forall i :: 0 <= i < |values| ==> values[i] < LIMIT
  }

  lemma {:induction false} ParseLength(text: string)
    requires ParseTable(text).Some?
    ensures |text| == 6 * |ParseTable(text).value|
  {
    if text != "" {
      ParseLength(text[6..]);
    }
  }

  lemma {:induction false} EmitLength(values: seq<nat>)
    ensures |EmitTable(values)| >= 6 * |values|
    ensures |EmitTable(values)| == 6 * |values| <==> Fits(values)
  {
    if values != [] {
      EmitLength(values[1..]);
      SixDigitsValue(values[0]);
      assert Fits(values) <==> values[0] < LIMIT && Fits(values[1..]) by {
        if values[0] < LIMIT && Fits(values[1..]) {
          forall i | 0 <= i < |values| ensures values[i] < LIMIT {
            assert i > 0 ==> values[i] == values[1..][i - 1];
          }
        }
        if Fits(values) {
          forall i | 0 <= i < |values[1..]| ensures values[1..][i] < LIMIT {
            assert values[1..][i] == values[i + 1];
          }
        }
      }
    }
  }

  lemma {:induction false} ParseEmitted(values: seq<nat>)
    requires Fits(values)
    ensures ParseTable(EmitTable(values)) == Some(values)
  {
    if values != [] {
      var d, rest := SixDigits(values[0]), EmitTable(values[1..]);
      forall i | 0 <= i < |values[1..]| ensures values[1..][i] < LIMIT {
        assert values[1..][i] == values[i + 1];
      }
      ParseEmitted(values[1..]);
      SixDigitsValue(values[0]);
      assert values == [values[0]] + values[1..];
      assert (d + rest)[..6] == d && (d + rest)[6..] == rest;
      assert forall i :: 0 <= i < 6 ==> (d + rest)[i] == d[i];
    }
  }

  /** A table reads back as it was written exactly when every value is below 2^24. */
  lemma TableRoundTrip(values: seq<nat>)
    ensures ParseTable(EmitTable(values)) == Some(values) <==> Fits(values)
  {
    EmitLength(values);
    if Fits(values) {
      ParseEmitted(values);
    } else if ParseTable(EmitTable(values)) == Some(values) {
      ParseLength(EmitTable(values));
    }
  }

  /** The text of a table is its values' six digits in order. */
  lemma {:induction false} EmitTableAt(values: seq<nat>, i: nat)
    requires Fits(values) && i < |values|
    ensures |EmitTable(values)| == 6 * |values|
    ensures EmitTable(values)[6 * i..6 * i + 6] == SixDigits(values[i])
  {
    var d, rest := SixDigits(values[0]), EmitTable(values[1..]);
    EmitLength(values);
    SixDigitsValue(values[0]);
    if i == 0 {
      assert (d + rest)[..6] == d;
    } else {
      FitsTail(values);
      EmitTableAt(values[1..], i - 1);
      SliceBehind(d, rest, 6 * (i - 1));
      assert 6 * (i - 1) + 6 == 6 * i;
    }
  }

  lemma FitsTail(values: seq<nat>)
    requires Fits(values) && values != []
    ensures Fits(values[1..])
  {
    var rest := values[1..];
    assert forall k :: 0 <= k < |rest| ==> rest[k] == values[k + 1];
  }

  lemma SliceBehind(a: string, b: string, i: nat)
    requires |a| == 6 && i + 6 <= |b|
    ensures (a + b)[i + 6..i + 12] == b[i..i + 6]
  {
  }

  // ---------------------------------------------------- records in the tables

  function FlattenRuns(runs: seq<Run>): seq<nat> {
    if runs == [] then []
    else [runs[0].first, runs[0].last, runs[0].step, runs[0].target] + FlattenRuns(runs[1..])
  }

  function ReadRuns(v: seq<nat>): Option<seq<Run>> {
    if v == [] then Some([])
    else if |v| < 4 then None
    else
      var rest := ReadRuns(v[4..]);
      if rest.None? then None else Some([Run(v[0], v[1], v[2], v[3])] + rest.value)
  }

  lemma {:induction false} RunsReadBack(runs: seq<Run>)
    ensures ReadRuns(FlattenRuns(runs)) == Some(runs)
  {
    if runs != [] {
      RunsReadBack(runs[1..]);
      assert runs == [runs[0]] + runs[1..];
      assert FlattenRuns(runs)[4..] == FlattenRuns(runs[1..]);
    }
  }

  /** Four values a run: first code, last code, step, and what the first code maps to. */
  lemma {:induction false} RunFieldsAt(runs: seq<Run>, i: nat)
    requires i < |runs|
    ensures |FlattenRuns(runs)| == 4 * |runs|
    ensures FlattenRuns(runs)[4 * i] == runs[i].first && FlattenRuns(runs)[4 * i + 1] == runs[i].last
    ensures FlattenRuns(runs)[4 * i + 2] == runs[i].step && FlattenRuns(runs)[4 * i + 3] == runs[i].target
  {
    FlatRunsLength(runs);
    if i > 0 {
      RunFieldsAt(runs[1..], i - 1);
    }
  }

  lemma {:induction false} FlatRunsLength(runs: seq<Run>)
    ensures |FlattenRuns(runs)| == 4 * |runs|
  {
    if runs != [] {
      FlatRunsLength(runs[1..]);
    }
  }

  function FlattenSingles(singles: seq<Single>): seq<nat> {
    if singles == [] then [] else [singles[0].code, singles[0].target] + FlattenSingles(singles[1..])
  }

  function ReadSingles(v: seq<nat>): Option<seq<Single>> {
    if v == [] then Some([])
    else if |v| < 2 then None
    else
      var rest := ReadSingles(v[2..]);
      if rest.None? then None else Some([Single(v[0], v[1])] + rest.value)
  }

  lemma {:induction false} SinglesReadBack(singles: seq<Single>)
    ensures ReadSingles(FlattenSingles(singles)) == Some(singles)
  {
    if singles != [] {
      SinglesReadBack(singles[1..]);
      assert singles == [singles[0]] + singles[1..];
      assert FlattenSingles(singles)[2..] == FlattenSingles(singles[1..]);
    }
  }

  /** Two values a single entry: code and target. */
  lemma {:induction false} SingleFieldsAt(singles: seq<Single>, i: nat)
    requires i < |singles|
    ensures |FlattenSingles(singles)| == 2 * |singles|
    ensures FlattenSingles(singles)[2 * i] == singles[i].code && FlattenSingles(singles)[2 * i + 1] == singles[i].target
  {
    FlatSinglesLength(singles);
    if i > 0 {
      SingleFieldsAt(singles[1..], i - 1);
    }
  }

  lemma {:induction false} FlatSinglesLength(singles: seq<Single>)
    ensures |FlattenSingles(singles)| == 2 * |singles|
  {
    if singles != [] {
      FlatSinglesLength(singles[1..]);
    }
  }

  datatype Record = Record(code: nat, offset: nat, length: nat)

  function FlattenRecords(records: seq<Record>): seq<nat> {
    if records == [] then []
    else [records[0].code, records[0].offset, records[0].length] + FlattenRecords(records[1..])
  }

  function ReadRecords(v: seq<nat>): Option<seq<Record>> {
    if v == [] then Some([])
    else if |v| < 3 then None
    else
      var rest := ReadRecords(v[3..]);
      if rest.None? then None else Some([Record(v[0], v[1], v[2])] + rest.value)
  }

  lemma {:induction false} RecordsReadBack(records: seq<Record>)
    ensures ReadRecords(FlattenRecords(records)) == Some(records)
  {
    if records != [] {
      RecordsReadBack(records[1..]);
      assert records == [records[0]] + records[1..];
      assert FlattenRecords(records)[3..] == FlattenRecords(records[1..]);
    }
  }

  lemma {:induction false} FlatRecordsLength(records: seq<Record>)
    ensures |FlattenRecords(records)| == 3 * |records|
  {
    if records != [] {
      FlatRecordsLength(records[1..]);
    }
  }

  /** Three values an expansion record: code, offset and length. */
  lemma {:induction false} RecordFieldsAt(records: seq<Record>, i: nat)
    requires i < |records|
    ensures |FlattenRecords(records)| == 3 * |records|
    ensures FlattenRecords(records)[3 * i] == records[i].code
    ensures FlattenRecords(records)[3 * i + 1] == records[i].offset
    ensures FlattenRecords(records)[3 * i + 2] == records[i].length
  {
    FlatRecordsLength(records);
    if i > 0 {
      RecordFieldsAt(records[1..], i - 1);
    }
  }

  /** The first `n` records, each with its slice of the shared value table. */
  function ReadFirst(records: seq<Record>, values: seq<nat>, n: nat): (r: Option<seq<Expansion>>)
    requires n <= |records|
    ensures r.Some? ==> |r.value| == n
  {
    if n == 0 then Some([])
    else
      var front, last := ReadFirst(records, values, n - 1), records[n - 1];
      if front.None? || last.offset + last.length > |values| then None
      else Some(front.value + [Expansion(last.code, values[last.offset..last.offset + last.length])])
  }

  function ReadExpansions(records: seq<Record>, values: seq<nat>): (r: Option<seq<Expansion>>)
    ensures r.Some? ==> |r.value| == |records|
  {
    ReadFirst(records, values, |records|)
  }

  /** Later records and values do not disturb earlier records. */
  lemma {:induction false} ReadFirstExtend(records: seq<Record>, values: seq<nat>, last: Record, more: seq<nat>, n: nat)
    requires n <= |records| && ReadFirst(records, values, n).Some?
    ensures ReadFirst(records + [last], values + more, n) == ReadFirst(records, values, n)
  {
    if n > 0 {
      ReadFirstExtend(records, values, last, more, n - 1);
      SliceOfPrefix(values, more, records[n - 1].offset, records[n - 1].length);
    }
  }

  lemma SliceOfPrefix(values: seq<nat>, more: seq<nat>, offset: nat, length: nat)
    requires offset + length <= |values|
    ensures (values + more)[offset..offset + length] == values[offset..offset + length]
  {
  }

  /** All expansion points in a row. */
  function Concat(expansions: seq<Expansion>): seq<nat> {
    if expansions == [] then []
    else Concat(expansions[..|expansions| - 1]) + expansions[|expansions| - 1].points
  }

  /** The record of every expansion: its points follow those of the expansions before it. */
  function RecordsOf(expansions: seq<Expansion>): seq<Record> {
    if expansions == [] then []
    else
      var front, e := expansions[..|expansions| - 1], expansions[|expansions| - 1];
      RecordsOf(front) + [Record(e.code, |Concat(front)|, |e.points|)]
  }

  /** Record `i` has the expansion's code and names exactly its points in the value table. */
  lemma {:induction false} RecordsOfAt(expansions: seq<Expansion>, i: nat)
    requires i < |expansions|
    ensures |RecordsOf(expansions)| == |expansions|
    ensures var r, values := RecordsOf(expansions)[i], Concat(expansions);
            && r.code == expansions[i].code && r.length == |expansions[i].points|
            && r.offset + r.length <= |values| && values[r.offset..r.offset + r.length] == expansions[i].points
  {
    var front, e := expansions[..|expansions| - 1], expansions[|expansions| - 1];
    RecordsLength(expansions);
    RecordsLength(front);
    if i < |front| {
      RecordsOfAt(front, i);
      var r := RecordsOf(front)[i];
      assert RecordsOf(expansions)[i] == r;
      SliceOfPrefix(Concat(front), e.points, r.offset, r.length);
    }
  }

  lemma {:induction false} RecordsLength(expansions: seq<Expansion>)
    ensures |RecordsOf(expansions)| == |expansions|
  {
    if expansions != [] {
      RecordsLength(expansions[..|expansions| - 1]);
    }
  }

  /** The records and the value table of these expansions: each record names its points. */
  ghost predicate Recorded(records: seq<Record>, values: seq<nat>, expansions: seq<Expansion>) {
    && ReadExpansions(records, values) == Some(expansions)
    && values == Concat(expansions) && records == RecordsOf(expansions)
  }

  lemma RecordStep(records: seq<Record>, values: seq<nat>, front: seq<Expansion>, e: Expansion)
    requires Recorded(records, values, front)
    ensures Recorded(records + [Record(e.code, |values|, |e.points|)], values + e.points, front + [e])
  {
    ReadStep(records, values, front, e, Record(e.code, |values|, |e.points|));
    var all := front + [e];
    assert all[..|all| - 1] == front;
  }

  lemma ReadStep(records: seq<Record>, values: seq<nat>, front: seq<Expansion>, e: Expansion, last: Record)
    requires ReadExpansions(records, values) == Some(front) && last == Record(e.code, |values|, |e.points|)
    ensures ReadExpansions(records + [last], values + e.points) == Some(front + [e])
  {
    ReadFirstExtend(records, values, last, e.points, |records|);
    assert (values + e.points)[|values|..|values| + |e.points|] == e.points;
    ReadOneMore(records + [last], values + e.points, |records|, front);
  }

  lemma ReadOneMore(records: seq<Record>, values: seq<nat>, n: nat, front: seq<Expansion>)
    requires n < |records| && ReadFirst(records, values, n) == Some(front)
    requires records[n].offset + records[n].length <= |values|
    ensures var last := records[n];
            ReadFirst(records, values, n + 1)
            == Some(front + [Expansion(last.code, values[last.offset..last.offset + last.length])])
  {
  }

  lemma Prefix<T>(s: seq<T>, i: nat)
    requires i < |s|
    ensures s[..i + 1] == s[..i] + [s[i]]
  {
  }

  lemma RecordNext(records: seq<Record>, values: seq<nat>, expansions: seq<Expansion>, i: nat)
    requires i < |expansions| && Recorded(records, values, expansions[..i])
    ensures var e := expansions[i];
            Recorded(records + [Record(e.code, |values|, |e.points|)], values + e.points, expansions[..i + 1])
  {
    Prefix(expansions, i);
    RecordStep(records, values, expansions[..i], expansions[i]);
  }

  /** The offset loop of `emit_mapping`. */
  method RecordExpansions(expansions: seq<Expansion>) returns (records: seq<Record>, values: seq<nat>)
    ensures Recorded(records, values, expansions)
  {
    records, values := [], [];
    for i := 0 to |expansions|
      invariant Recorded(records, values, expansions[..i])
    {
      var e := expansions[i];
      RecordNext(records, values, expansions, i);
      records := records + [Record(e.code, |values|, |e.points|)];
      values := values + e.points;
    }
    assert expansions[..|expansions|] == expansions;
  }

  // ------------------------------------------------------------ the whole trip

  datatype Tables = Tables(runs: string, singles: string, records: string, values: string)

  /** What a reader of the four tables reconstructs. */
  function ReadTables(t: Tables): Option<Compressed> {
    var runs, singles := ParseTable(t.runs), ParseTable(t.singles);
    var records, values := ParseTable(t.records), ParseTable(t.values);
    if runs.None? || singles.None? || records.None? || values.None? then None
    else
      var r, s, x := ReadRuns(runs.value), ReadSingles(singles.value), ReadRecords(records.value);
      if r.None? || s.None? || x.None? then None
      else
        var e := ReadExpansions(x.value, values.value);
        if e.None? then None else Some(Compressed(r.value, s.value, e.value))
  }

  /** The number of codes that the expansions below `n` hold in all: the offset of an expansion at `n`. */
  ghost function OffsetAt(m: Mapping, n: nat): nat
    requires n <= |m|
  {
    if n == 0 then 0 else OffsetAt(m, n - 1) + if IsExpansion(m, n - 1) then |m[n - 1]| else 0
  }

  /** Codes and targets are below 2^24. */
  ghost predicate CodesFit(m: Mapping) {
    |m| <= LIMIT && forall code :: 0 <= code < |m| ==> Fits(m[code])
  }

  /** So are the offset and the length of every expansion. */
  ghost predicate OffsetsFit(m: Mapping) {
    forall code :: 0 <= code < |m| && IsExpansion(m, code) ==> OffsetAt(m, code) < LIMIT && |m[code]| < LIMIT
  }

  ghost predicate OffsetsFitBelow(m: Mapping, n: nat)
    requires n <= |m|
  {
    if n == 0 then true
    else OffsetsFitBelow(m, n - 1) && (IsExpansion(m, n - 1) ==> OffsetAt(m, n - 1) < LIMIT && |m[n - 1]| < LIMIT)
  }

  lemma {:induction false} OffsetsFitAll(m: Mapping, n: nat)
    requires n <= |m|
    ensures OffsetsFitBelow(m, n) <==>
            forall code :: 0 <= code < n && IsExpansion(m, code) ==> OffsetAt(m, code) < LIMIT && |m[code]| < LIMIT
  {
    if n > 0 {
      OffsetsFitAll(m, n - 1);
    }
  }

  lemma {:induction false} OffsetIsLength(m: Mapping, n: nat)
    requires n <= |m|
    ensures |Concat(ExpansionsOf(m, n))| == OffsetAt(m, n)
  {
    if n > 0 {
      OffsetIsLength(m, n - 1);
    }
  }

  ghost predicate RecordsBelowLimit(records: seq<Record>) {
    forall i :: 0 <= i < |records| ==> records[i].code < LIMIT && records[i].offset < LIMIT && records[i].length < LIMIT
  }

  /** The records fit exactly when the offsets and lengths of the mapping's expansions do. */
  lemma {:induction false} RecordsFitExactly(m: Mapping, n: nat)
    requires n <= |m| <= LIMIT
    ensures RecordsBelowLimit(RecordsOf(ExpansionsOf(m, n))) <==> OffsetsFitBelow(m, n)
  {
    if n > 0 {
      RecordsFitExactly(m, n - 1);
      if IsExpansion(m, n - 1) {
        OffsetIsLength(m, n - 1);
        NextRecordFits(ExpansionsOf(m, n - 1), Expansion(n - 1, m[n - 1]));
      }
    }
  }

  lemma NextRecordFits(front: seq<Expansion>, e: Expansion)
    ensures RecordsBelowLimit(RecordsOf(front + [e]))
            <==> RecordsBelowLimit(RecordsOf(front)) && e.code < LIMIT && |Concat(front)| < LIMIT && |e.points| < LIMIT
  {
    LastRecord(front, e);
    AppendedRecord(RecordsOf(front), Record(e.code, |Concat(front)|, |e.points|));
  }

  lemma LastRecord(front: seq<Expansion>, e: Expansion)
    ensures RecordsOf(front + [e]) == RecordsOf(front) + [Record(e.code, |Concat(front)|, |e.points|)]
  {
    assert (front + [e])[..|front|] == front;
  }

  lemma AppendedRecord(records: seq<Record>, last: Record)
    ensures RecordsBelowLimit(records + [last])
            <==> RecordsBelowLimit(records) && last.code < LIMIT && last.offset < LIMIT && last.length < LIMIT
  {
    var all := records + [last];
    assert all[|records|] == last && forall i :: 0 <= i < |records| ==> all[i] == records[i];
  }

  lemma {:induction false} ConcatFits(expansions: seq<Expansion>)
    requires forall e :: e in expansions ==> Fits(e.points)
    ensures Fits(Concat(expansions))
  {
    if expansions != [] {
      ConcatFits(expansions[..|expansions| - 1]);
      assert expansions[|expansions| - 1] in expansions;
    }
  }

  lemma {:induction false} RunsFit(runs: seq<Run>)
    requires forall r :: r in runs ==> r.first < LIMIT && r.last < LIMIT && r.step < LIMIT && r.target < LIMIT
    ensures Fits(FlattenRuns(runs))
  {
    if runs != [] {
      assert runs[0] in runs;
      RunsFit(runs[1..]);
    }
  }

  lemma {:induction false} SinglesFit(singles: seq<Single>)
    requires forall s :: s in singles ==> s.code < LIMIT && s.target < LIMIT
    ensures Fits(FlattenSingles(singles))
  {
    if singles != [] {
      assert singles[0] in singles;
      SinglesFit(singles[1..]);
    }
  }

  lemma {:induction false} RecordsFit(records: seq<Record>)
    ensures Fits(FlattenRecords(records)) <==> RecordsBelowLimit(records)
  {
    if records != [] {
      RecordsFit(records[1..]);
      assert records == [records[0]] + records[1..];
      var r := records[0];
      FitsSplit([r.code, r.offset, r.length], FlattenRecords(records[1..]));
      FirstRecord(r, records[1..]);
    }
  }

  lemma FitsSplit(a: seq<nat>, b: seq<nat>)
    ensures Fits(a + b) <==> Fits(a) && Fits(b)
  {
    assert forall i :: 0 <= i < |a| ==> (a + b)[i] == a[i];
    assert forall i :: 0 <= i < |b| ==> (a + b)[|a| + i] == b[i];
  }

  lemma FirstRecord(first: Record, records: seq<Record>)
    ensures RecordsBelowLimit([first] + records)
            <==> Fits([first.code, first.offset, first.length]) && RecordsBelowLimit(records)
  {
    var all, v := [first] + records, [first.code, first.offset, first.length];
    assert all[0] == first && forall i :: 0 <= i < |records| ==> all[i + 1] == records[i];
    assert v[0] == first.code && v[1] == first.offset && v[2] == first.length;
  }

  ghost predicate AllFit(c: Compressed) {
    && Fits(FlattenRuns(c.runs)) && Fits(FlattenSingles(c.singles))
    && Fits(FlattenRecords(RecordsOf(c.expansions))) && Fits(Concat(c.expansions))
  }

  /** The numbers in the tables of a mapping with codes and targets below 2^24 are all below 2^24
      exactly when the offsets and lengths of its expansions are. */
  lemma FitsExactly(m: Mapping, c: Compressed)
    requires CodesFit(m) && IsCompression(m, c)
    ensures AllFit(c) <==> OffsetsFit(m)
  {
    RecordsFitExactly(m, |m|);
    OffsetsFitAll(m, |m|);
    RecordsFit(RecordsOf(c.expansions));
    RunsAndSinglesFit(m, c);
    PointsFit(m, c);
  }

  lemma PointsFit(m: Mapping, c: Compressed)
    requires CodesFit(m) && c.expansions == ExpansionsOf(m, |m|)
    ensures Fits(Concat(c.expansions))
  {
    ExpansionsOfBelow(m, |m|);
    forall e | e in c.expansions ensures Fits(e.points) {
      assert Fits(m[e.code]);
    }
    ConcatFits(c.expansions);
  }

  lemma RunsAndSinglesFit(m: Mapping, c: Compressed)
    requires CodesFit(m) && IsCompression(m, c)
    ensures Fits(FlattenRuns(c.runs)) && Fits(FlattenSingles(c.singles))
  {
    forall r | r in c.runs ensures r.first < LIMIT && r.last < LIMIT && r.step < LIMIT && r.target < LIMIT {
      assert IsProgression(r, LookupOf(m)) && Covers(r, r.first) && Covers(r, r.last);
      assert Fits(m[r.first]) && m[r.first][0] == r.target;
    }
    forall s | s in c.singles ensures s.code < LIMIT && s.target < LIMIT {
      assert Fits(m[s.code]) && m[s.code][0] == s.target;
    }
    RunsFit(c.runs);
    SinglesFit(c.singles);
  }

  // ------------------------------------------- what can be read at all is in range

  lemma {:induction false} HexNumberBound(t: string)
    requires forall i :: 0 <= i < |t| ==> IsHexDigit(t[i])
    ensures HexNumber(t) < Power16(|t|)
  {
    if t != [] {
      HexNumberBound(t[..|t| - 1]);
    }
  }

  /** A reader never gets a value of 2^24 or more. */
  lemma {:induction false} ParsedFits(text: string)
    requires ParseTable(text).Some?
    ensures Fits(ParseTable(text).value)
  {
    if text != "" {
      ParsedFits(text[6..]);
      HexNumberBound(text[..6]);
      assert Power16(6) == 16 * 16 * 16 * 16 * 16 * 16;
    }
  }

  lemma {:induction false} ReadRunsExact(v: seq<nat>)
    requires ReadRuns(v).Some?
    ensures FlattenRuns(ReadRuns(v).value) == v
  {
    if v != [] {
      ReadRunsExact(v[4..]);
      assert v == [v[0], v[1], v[2], v[3]] + v[4..];
    }
  }

  lemma {:induction false} ReadSinglesExact(v: seq<nat>)
    requires ReadSingles(v).Some?
    ensures FlattenSingles(ReadSingles(v).value) == v
  {
    if v != [] {
      ReadSinglesExact(v[2..]);
      assert v == [v[0], v[1]] + v[2..];
    }
  }

  lemma {:induction false} ReadRecordsLength(v: seq<nat>)
    requires ReadRecords(v).Some?
    ensures |v| == 3 * |ReadRecords(v).value|
  {
    if v != [] {
      ReadRecordsLength(v[3..]);
    }
  }

  lemma {:induction false} ReadExpansionsFit(records: seq<Record>, values: seq<nat>, n: nat)
    requires n <= |records| && Fits(values) && ReadFirst(records, values, n).Some?
    ensures Fits(Concat(ReadFirst(records, values, n).value))
  {
    if n > 0 {
      ReadExpansionsFit(records, values, n - 1);
      var front, last := ReadFirst(records, values, n - 1).value, records[n - 1];
      ConcatSnoc(front, Expansion(last.code, values[last.offset..last.offset + last.length]));
    }
  }

  lemma ConcatSnoc(front: seq<Expansion>, e: Expansion)
    ensures Concat(front + [e]) == Concat(front) + e.points
  {
    assert (front + [e])[..|front|] == front;
  }

  ghost predicate RunsRead(text: string, runs: seq<Run>) {
    ParseTable(text).Some? && ReadRuns(ParseTable(text).value) == Some(runs)
  }

  ghost predicate SinglesRead(text: string, singles: seq<Single>) {
    ParseTable(text).Some? && ReadSingles(ParseTable(text).value) == Some(singles)
  }

  ghost predicate RecordsRead(text: string, records: seq<Record>) {
    ParseTable(text).Some? && ReadRecords(ParseTable(text).value) == Some(records)
  }

  lemma RunsTableFits(text: string, runs: seq<Run>)
    requires RunsRead(text, runs)
    ensures Fits(FlattenRuns(runs))
  {
    ParsedFits(text);
    ReadRunsExact(ParseTable(text).value);
  }

  lemma SinglesTableFits(text: string, singles: seq<Single>)
    requires SinglesRead(text, singles)
    ensures Fits(FlattenSingles(singles))
  {
    ParsedFits(text);
    ReadSinglesExact(ParseTable(text).value);
  }

  ghost predicate TableOf(text: string, values: seq<nat>) {
    text == EmitTable(values)
  }

  ghost predicate RecordsWritten(text: string, records: seq<Record>) {
    TableOf(text, FlattenRecords(records))
  }

  /** As many values as were written can only be read back if each took six digits. */
  lemma AllSixDigits(text: string, values: seq<nat>)
    requires TableOf(text, values) && ParseTable(text).Some? && |ParseTable(text).value| == |values|
    ensures Fits(values)
  {
    ParseLength(text);
    EmitLength(values);
  }

  lemma RecordsTableFits(text: string, records: seq<Record>, read: seq<Record>)
    requires RecordsWritten(text, records) && RecordsRead(text, read) && |read| == |records|
    ensures Fits(FlattenRecords(records))
  {
    ReadRecordsLength(ParseTable(text).value);
    FlatRecordsLength(records);
    AllSixDigits(text, FlattenRecords(records));
  }

  lemma ValuesTableFits(text: string, records: seq<Record>, expansions: seq<Expansion>)
    requires ParseTable(text).Some? && ReadExpansions(records, ParseTable(text).value) == Some(expansions)
    ensures Fits(Concat(expansions))
  {
    ParsedFits(text);
    ReadExpansionsFit(records, ParseTable(text).value, |records|);
  }

  lemma TablesRead(t: Tables, c: Compressed) returns (read: seq<Record>)
    requires ReadTables(t) == Some(c)
    ensures RunsRead(t.runs, c.runs) && SinglesRead(t.singles, c.singles) && RecordsRead(t.records, read)
    ensures ParseTable(t.values).Some? && ReadExpansions(read, ParseTable(t.values).value) == Some(c.expansions)
  {
    read := ReadRecords(ParseTable(t.records).value).value;
  }

  /** Tables from which the compressed form reads back hold numbers below 2^24 only. */
  lemma ReadBackFits(c: Compressed, t: Tables)
    requires ReadTables(t) == Some(c) && RecordsWritten(t.records, RecordsOf(c.expansions))
    requires |RecordsOf(c.expansions)| == |c.expansions|
    ensures AllFit(c)
  {
    var read := TablesRead(t, c);
    RunsTableFits(t.runs, c.runs);
    SinglesTableFits(t.singles, c.singles);
    RecordsTableFits(t.records, RecordsOf(c.expansions), read);
    ValuesTableFits(t.values, read, c.expansions);
  }

  /** The four texts of a compressed form. */
  function TablesOf(c: Compressed): Tables {
    Tables(EmitTable(FlattenRuns(c.runs)), EmitTable(FlattenSingles(c.singles)),
           EmitTable(FlattenRecords(RecordsOf(c.expansions))), EmitTable(Concat(c.expansions)))
  }

  /** They read back as the compressed form exactly when all their numbers are below 2^24. */
  lemma TablesReadBack(c: Compressed)
    ensures ReadTables(TablesOf(c)) == Some(c) <==> AllFit(c)
  {
    var t := TablesOf(c);
    TableRoundTrip(FlattenRuns(c.runs));
    TableRoundTrip(FlattenSingles(c.singles));
    TableRoundTrip(FlattenRecords(RecordsOf(c.expansions)));
    TableRoundTrip(Concat(c.expansions));
    RunsReadBack(c.runs);
    SinglesReadBack(c.singles);
    RecordsReadBack(RecordsOf(c.expansions));
    ExpansionsReadBack(c.expansions);
    RecordsLength(c.expansions);
    if ReadTables(t) == Some(c) {
      ReadBackFits(c, t);
    }
  }

  lemma {:induction false} ExpansionsReadBack(expansions: seq<Expansion>)
    ensures Recorded(RecordsOf(expansions), Concat(expansions), expansions)
  {
    if expansions != [] {
      var front, e := expansions[..|expansions| - 1], expansions[|expansions| - 1];
      ExpansionsReadBack(front);
      RecordStep(RecordsOf(front), Concat(front), front, e);
      assert expansions == front + [e];
    }
  }

  method WriteTables(c: Compressed) returns (t: Tables)
    ensures t == TablesOf(c)
    ensures ReadTables(t) == Some(c) <==> AllFit(c)
  {
    var records, values := RecordExpansions(c.expansions);
    t := Tables(EmitTable(FlattenRuns(c.runs)), EmitTable(FlattenSingles(c.singles)),
                EmitTable(FlattenRecords(records)), EmitTable(values));
    TablesReadBack(c);
  }

  /** A reader of the tables gets a compressed form of the mapping. */
  ghost predicate ReadsBack(t: Tables, m: Mapping) {
    ReadTables(t).Some? && IsCompression(m, ReadTables(t).value)
  }

  /** Whatever compressed form of the mapping is read, its records were written with six digits. */
  lemma ReadRecordsFit(m: Mapping, c: Compressed, t: Tables)
    requires CodesFit(m) && IsCompression(m, c) && ReadsBack(t, m)
    requires t == TablesOf(c)
    ensures OffsetsFit(m)
  {
    var d := ReadTables(t).value;
    var read := TablesRead(t, d);
    RecordsLength(c.expansions);
    RecordsTableFits(t.records, RecordsOf(c.expansions), read);
    RecordsFit(RecordsOf(c.expansions));
    RecordsFitExactly(m, |m|);
    OffsetsFitAll(m, |m|);
  }

  /** The four texts are those of a compressed form of the mapping. */
  ghost predicate IsTextOf(t: Tables, m: Mapping) {
    exists c :: IsCompression(m, c) && t == TablesOf(c)
  }

  /** For codes and targets below 2^24: a reader of the text gets a compressed form of the mapping
      if and only if the offsets and lengths of its expansions are below 2^24 too, and decoding
      it then restores the mapping. */
  method EmitMapping(m: Mapping) returns (t: Tables)
    ensures IsTextOf(t, m)
    ensures CodesFit(m) ==> (ReadsBack(t, m) <==> OffsetsFit(m))
    ensures CodesFit(m) && OffsetsFit(m) ==>
              && ReadTables(t).Some?
              && forall code :: 0 <= code < |m| ==> Resolve(DecodeAt(ReadTables(t).value, code), code) == m[code]
  {
    var c := Compress(m);
    t := WriteTables(c);
    if CodesFit(m) {
      FitsExactly(m, c);
      if ReadsBack(t, m) {
        ReadRecordsFit(m, c, t);
      }
      forall code | 0 <= code < |m| ensures Resolve(DecodeAt(c, code), code) == m[code] {
        DecodeRestores(m, c, code);
      }
    }
  }

  /** Codes and targets below 2^24 alone are not enough: one code that expands to 2^24 zeros. */
  lemma LongExpansion(m: Mapping)
    requires m == [seq(LIMIT, i => 0)]
    ensures CodesFit(m) && IsExpansion(m, 0) && !OffsetsFit(m)
  {
    assert |m[0]| == LIMIT;
  }
}
