/** Solutions::better: reads the file row by row, splits each row at its last `;`, turns the
    value text into hundredths by rewriting its last two characters in place and folding the
    digits, and keeps one accumulator per station, in hundredths. */
module Better {
  import opened FixedPoint
  import opened Lines
  import opened Stats
  import opened Tables
  import opened Output

  /** The text after the rewrite: the fractional digit moves over the point and a `0` takes
      its place, so `12.3` becomes `1230`. */
  function Scaled(t: seq<char>): seq<char>
    requires |t| >= 2
  {
    t[..|t| - 2] + [t[|t| - 1], '0']
  }

  /** The rewrite of the measurement text, in place: position `n - 2` gets the last character
      and position `n - 1` gets `0`. */
  method ScaleToHundredths(a: array<char>)
    requires a.Length >= 2
    modifies a
    ensures a[..] == Scaled(old(a[..]))
  {
    var n := a.Length;
    a[n - 2] := a[n - 1];
    a[n - 1] := '0';
  }

  /** The value `parse_measurement` gives: the characters after an optional leading `-`
      folded as `result * 10 + (c - '0')`, negated when the `-` is there. */
  function SignedFold(u: seq<char>): int
    requires |u| >= 1
  {
    if u[0] == '-' then -DigitsIn(u, 1, |u|) else DigitsIn(u, 0, |u|)
  }

  /** parse_measurement: the fold loop over the characters after the sign. */
  method ParseHundredths(u: seq<char>) returns (r: int)
    requires |u| >= 1
    ensures r == SignedFold(u)
  {
    var isNegative := u[0] == '-';
    var start := if isNegative then 1 else 0;
    r := 0;
    for i := start to |u|
      invariant r == DigitsIn(u, start, i)
    {
      r := r * 10;
      r := r + DigitValue(u[i]);
    }
    if isNegative {
      r := r * -1;
    }
  }

  /** The rewrite and the fold together read a value text as its value in hundredths: ten
      times its value in tenths. */
  lemma ScaledValue(t: seq<char>)
    requires ValidValueText(t)
    ensures |t| >= 3 && SignedFold(Scaled(t)) == 10 * ValueOf(t)
  {
    var u := Scaled(t);
    var n := |t|;
    var start := DigitsStart(t, 0);
    assert u[0] == t[0];
    DigitsInSame(t, start, n - 2, u, start);
    assert DigitsIn(u, start, n) == (DigitsIn(u, start, n - 2) * 10 + DigitValue(t[n - 1])) * 10;
  }

  /** `row[..hi]` split at its last `;`: the text before it and the text after it; with no `;`
      both parts are the whole row (`substr(0, npos)` and `substr(npos + 1)`, `npos + 1`
      wrapping round to offset 0). */
  function SplitLast(row: seq<char>, hi: nat): (seq<char>, seq<char>)
    requires hi <= |row|
  {
    if hi == 0 then (row, row)
    else if row[hi - 1] == ';' then (row[..hi - 1], row[hi..])
    else SplitLast(row, hi - 1)
  }

  /** The station name: the row up to its last `;`. */
  function StationName(row: seq<char>): seq<char>
  {
    SplitLast(row, |row|).0
  }

  /** The measurement text: the row after its last `;`. */
  function MeasurementText(row: seq<char>): seq<char>
  {
    SplitLast(row, |row|).1
  }

  /** The split is made where `find_last_of` points: `substr(0, idx)` and `substr(idx + 1)`. */
  lemma {:induction false} SplitLastIs(row: seq<char>, hi: nat)
    requires hi <= |row|
    ensures var idx := FindLastIn(row, hi, ';');
            SplitLast(row, hi) == if idx < 0 then (row, row) else (row[..idx], row[idx + 1..])
  {
    if hi > 0 && row[hi - 1] != ';' {
      SplitLastIs(row, hi - 1);
    }
  }

  /** A row with a `;` is its station name, the `;` and its measurement text, and the
      measurement text holds no `;`: the split is at the last one. */
  lemma SplitAtLast(row: seq<char>)
    requires ';' in row
    ensures StationName(row) + [';'] + MeasurementText(row) == row
    ensures ';' !in MeasurementText(row)
  {
    SplitLastIs(row, |row|);
    FindLastInLast(row, |row|, ';');
    var idx := FindLastIn(row, |row|, ';');
    var k :| 0 <= k < |row| && row[k] == ';';
    assert row == row[..idx] + [';'] + row[idx + 1..];
    var text := row[idx + 1..];
    assert forall x :: 0 <= x < |text| ==> text[x] == row[idx + 1 + x];
  }

  /** When the text after some `;` holds no `;`, that `;` is the one the row is split at. */
  lemma SplitKnown(name: seq<char>, text: seq<char>, row: seq<char>)
    requires row == name + [';'] + text && ';' !in text
    ensures StationName(row) == name && MeasurementText(row) == text
  {
    assert row[|name|] == ';';
    assert forall k :: |name| < k < |row| ==> row[k] == text[k - |name| - 1];
    FindLastInIs(row, |row|, |name|, ';');
    SplitLastIs(row, |row|);
    assert row[..|name|] == name;
  }

  /** A row the rewrite can be applied to: its measurement text has at least two characters. */
  predicate Readable(row: seq<char>)
  {
    |MeasurementText(row)| >= 2
  }

  /** The record a row adds: its station name and its measurement in hundredths. A measurement
      text shorter than two characters has no value (the rewrite would write outside it); such a
      row is given 0 here and is kept out of the row loop by `Readable`. */
  function RowRecord(row: seq<char>): Record
  {
    var text := MeasurementText(row);
    Record(StationName(row), if |text| >= 2 then SignedFold(Scaled(text)) else 0)
  }

  predicate AllReadable(rows: seq<seq<char>>)
  {
    forall i :: 0 <= i < |rows| ==> Readable(rows[i])
  }

  /** The records of the rows, in order. */
  function RowRecords(rows: seq<seq<char>>): (rs: seq<Record>)
    ensures |rs| == |rows|
  {
    if rows == [] then [] else [RowRecord(rows[0])] + RowRecords(rows[1..])
  }

  /** One row more at the end is one record more at the end. */
  lemma {:induction false} RowRecordsSnoc(rows: seq<seq<char>>, row: seq<char>)
    ensures RowRecords(rows + [row]) == RowRecords(rows) + [RowRecord(row)]
  {
    var all := rows + [row];
    if rows != [] {
      assert all[0] == rows[0] && all[1..] == rows[1..] + [row];
      RowRecordsSnoc(rows[1..], row);
    } else {
      assert all[1..] == [];
    }
  }

  /** The measurement text copied into a buffer, rewritten in place and parsed: its value in
      hundredths. */
  method ReadMeasurement(text: seq<char>) returns (v: int)
    requires |text| >= 2
    ensures v == SignedFold(Scaled(text))
  {
    var a := new char[|text|](i requires 0 <= i < |text| => text[i]);
    assert a[..] == text;
    ScaleToHundredths(a);
    v := ParseHundredths(a[..]);
  }

  /** The body of the row loop: split at the last `;`, read the measurement, then count, sum
      and widen the station's entry (default-constructed when absent). */
  method ProcessRow(row: seq<char>, m: Table) returns (m': Table)
    requires Readable(row)
    ensures m' == Update(m, RowRecord(row))
  {
    var idx := FindLastIn(row, |row|, ';');
    var stationName := if idx < 0 then row else row[..idx];
    var measurementStr := row[idx + 1..];
    SplitLastIs(row, |row|);
    var measurement := ReadMeasurement(measurementStr);
    var info := Get(m, stationName);
    info := info.(count := info.count + 1);
    info := info.(sum := info.sum + measurement);
    info := info.(max := Max(info.max, measurement));
    info := info.(min := Min(info.min, measurement));
    m' := m[stationName := info];
  }

  /** One record more at the end of the run is one update more. */
  lemma AccumulateSnoc(t: Table, rs: seq<Record>, r: Record)
    ensures Accumulate(t, rs + [r]) == Update(Accumulate(t, rs), r)
  {
    assert (rs + [r])[..|rs|] == rs;
  }

  /** The row loop: the table after every row is the table one pass over the rows' records
      builds; then the names in ascending order, as `all` is sorted before printing. */
  method Solve(rows: seq<seq<char>>) returns (t: Table, names: seq<seq<char>>)
    requires AllReadable(rows)
    ensures t == Aggregate(RowRecords(rows))
    ensures names == SortedKeys(t.Keys)
  {
    t := map[];
    for i := 0 to |rows|
      invariant t == Aggregate(RowRecords(rows[..i]))
    {
      assert rows[..i + 1] == rows[..i] + [rows[i]];
      RowRecordsSnoc(rows[..i], rows[i]);
      AccumulateSnoc(map[], RowRecords(rows[..i]), RowRecord(rows[i]));
      t := ProcessRow(rows[i], t);
    }
    assert rows[..|rows|] == rows;
    names := SortKeys(t);
  }

  /** The mean as `Information::print` writes it from a sum in hundredths. */
  function MeanText(st: Stats): seq<char>
    requires st.count > 0
  {
    FixedText(st.sum < 0, MeanHundredths(st.sum, st.count))
  }

  /** An accumulator with every measurement in hundredths instead of tenths. */
  function ScaleStats(st: Stats): Stats
  {
    Stats(10 * st.min, 10 * st.max, 10 * st.sum, st.count)
  }

  /** Printed from hundredths, the mean reads exactly as the other variants print it from
      tenths. */
  lemma MeanTextAgrees(st: Stats)
    requires st.count > 0
    ensures MeanText(ScaleStats(st)) == FixedText(st.sum < 0, MeanTenths(st.sum, st.count))
  {
    MeansAgree(st.sum, st.count);
  }

  /** Every entry of a table in hundredths. */
  function ScaleTable(t: Table): (t': Table)
    ensures t'.Keys == t.Keys
  {
    map k | k in t :: ScaleStats(t[k])
  }

  /** Records in hundredths. */
  function ScaleRecords(rs: seq<Record>): seq<Record>
  {
    seq(|rs|, i requires 0 <= i < |rs| => Record(rs[i].key, 10 * rs[i].value))
  }

  /** Measurements in hundredths. */
  function ScaleValues(vs: seq<int>): seq<int>
  {
    seq(|vs|, i requires 0 <= i < |vs| => 10 * vs[i])
  }

  lemma ScaleValuesSnoc(vs: seq<int>, v: int)
    ensures ScaleValues(vs + [v]) == ScaleValues(vs) + [10 * v]
  {
    assert forall i :: 0 <= i < |vs| ==> (vs + [v])[i] == vs[i];
  }

  /** Every measurement lies in `[-99.9, 99.9]`. */
  predicate InRange(vs: seq<int>)
  {
    forall i :: 0 <= i < |vs| ==> -999 <= vs[i] <= 999
  }

  /** Every record's measurement lies in `[-99.9, 99.9]`. */
  predicate RecordsInRange(rs: seq<Record>)
  {
    forall i :: 0 <= i < |rs| ==> -999 <= rs[i].value <= 999
  }

  /** Observing a measurement in hundredths is observing it in tenths, scaled. */
  lemma ObserveScaled(st: Stats, v: int)
    ensures Observe(ScaleStats(st), 10 * v) == ScaleStats(Observe(st, v))
  {
  }

  /** The sentinels give way to the first measurement in either unit. */
  lemma FirstScaled(v: int)
    requires -999 <= v <= 999
    ensures Observe(Unset, 10 * v) == ScaleStats(Observe(Unset, v))
  {
  }

  /** Folding in measurements in hundredths gives the accumulator of the same measurements in
      tenths, scaled, once there is at least one (before that both are the sentinels). */
  lemma {:induction false} ScaledSummary(vs: seq<int>)
    requires vs != [] && InRange(vs)
    ensures Summary(ScaleValues(vs)) == ScaleStats(Summary(vs))
  {
    var init, v := vs[..|vs| - 1], vs[|vs| - 1];
    assert vs == init + [v];
    ScaleValuesSnoc(init, v);
    SummarySnoc(ScaleValues(init), 10 * v);
    SummarySnoc(init, v);
    if init == [] {
      assert ScaleValues(init) == [];
      FirstScaled(v);
    } else {
      assert InRange(init) by { assert forall i :: 0 <= i < |init| ==> init[i] == vs[i]; }
      ScaledSummary(init);
      ObserveScaled(Summary(init), v);
    }
  }

  /** A station's measurements among records in hundredths are its measurements in tenths,
      scaled. */
  lemma {:induction false} ValuesForScaled(rs: seq<Record>, k: seq<char>)
    ensures ValuesFor(ScaleRecords(rs), k) == ScaleValues(ValuesFor(rs, k))
  {
    if rs != [] {
      var init, r := rs[..|rs| - 1], rs[|rs| - 1];
      var srs := ScaleRecords(rs);
      assert srs[..|srs| - 1] == ScaleRecords(init);
      ValuesForScaled(init, k);
      if r.key == k {
        ScaleValuesSnoc(ValuesFor(init, k), r.value);
      } else {
        assert ValuesFor(rs, k) == ValuesFor(init, k) + [];
      }
    }
  }

  /** A station's measurements are some of the records' measurements. */
  lemma {:induction false} ValuesForInRange(rs: seq<Record>, k: seq<char>)
    requires RecordsInRange(rs)
    ensures InRange(ValuesFor(rs, k))
  {
    if rs != [] {
      var init := rs[..|rs| - 1];
      assert RecordsInRange(init) by { assert forall i :: 0 <= i < |init| ==> init[i] == rs[i]; }
      ValuesForInRange(init, k);
    }
  }

  /** Scaling the records scales the table one pass over them builds. */
  lemma AggregateScaled(rs: seq<Record>)
    requires RecordsInRange(rs)
    ensures Aggregate(ScaleRecords(rs)) == ScaleTable(Aggregate(rs))
  {
    var srs := ScaleRecords(rs);
    AggregateMeaning(rs);
    AggregateMeaning(srs);
    assert KeysOf(srs) == KeysOf(rs) by {
      forall k | k in KeysOf(rs) ensures k in KeysOf(srs) {
        var i :| 0 <= i < |rs| && rs[i].key == k;
        assert srs[i].key == k;
      }
    }
    AccumulateCounted(map[], rs);
    var t, t' := Aggregate(rs), Aggregate(srs);
    forall k | k in t ensures t'[k] == ScaleStats(t[k]) {
      var vs := ValuesFor(rs, k);
      SummaryTotals(vs);
      assert Get(t, k) == Summary(vs);
      ValuesForScaled(rs, k);
      ValuesForInRange(rs, k);
      ScaledSummary(vs);
      assert Get(t', k) == Summary(ScaleValues(vs));
    }
  }

  /** The text of a line without its newline: a row as `getline` yields it. */
  function LineText(s: seq<char>, l: Line): seq<char>
  {
    if l.start <= l.end <= |s| then s[l.start..l.end] else []
  }

  /** The rows `getline` yields for the lines `ls`. */
  function Texts(s: seq<char>, ls: seq<Line>): (rows: seq<seq<char>>)
    ensures |rows| == |ls|
  {
    if ls == [] then [] else [LineText(s, ls[0])] + Texts(s, ls[1..])
  }

  /** The rows of the text `s`, one per line. */
  ghost function Rows(s: seq<char>): seq<seq<char>>
    requires LinesSpan(s, 0, |s|)
  {
    Texts(s, LinesOf(s, 0, |s|))
  }

  /** A line with its first `;` before its end and a value text filling the rest. */
  predicate GoodLine(s: seq<char>, l: Line)
  {
    l.start <= l.end <= |s| && l.semi == FindIn(s, l.start, l.end, ';') && l.semi < l.end &&
    ValueLine(s, l.start, l.end, true)
  }

  predicate GoodLines(s: seq<char>, ls: seq<Line>)
  {
    ls == [] || (GoodLine(s, ls[0]) && GoodLines(s, ls[1..]))
  }

  /** Every line of a well-formed span is good. */
  lemma {:induction false} LinesGood(s: seq<char>, p: nat, stop: nat)
    requires p <= stop <= |s| && WellFormedSpan(s, p, stop)
    ensures GoodLines(s, LinesOf(s, p, stop))
    decreases stop - p
  {
    if p < stop {
      var e := FindIn(s, p, stop, '\n');
      FirstLine(s, p, stop, true);
      assert WellFormedSpan(s, e + 1, stop);
      LinesGood(s, e + 1, stop);
      var ls := LinesOf(s, p, stop);
      assert ls[0] == LineOf(s, p, e) && ls[1..] == LinesOf(s, e + 1, stop);
    }
  }

  /** A well-formed line read as a row: its last `;` is its first, as the value text after it
      has none; the station name is the record's key and the measurement its value in hundredths. */
  lemma RowOfLine(s: seq<char>, p: nat, e: nat)
    requires p <= e <= |s| && FindIn(s, p, e, ';') < e && ValueLine(s, p, e, true)
    ensures Readable(s[p..e])
    ensures var r := RecordOf(s, LineOf(s, p, e));
            RowRecord(s[p..e]) == Record(r.key, 10 * r.value) && -999 <= r.value <= 999
  {
    var semi := FindIn(s, p, e, ';');
    var row := s[p..e];
    var t := s[semi + 1..e];
    RecordOfLine(s, p, e);
    ValueTextOf(s, semi + 1, e);
    SplitInPlace(s, p, semi, e);
    ScaledValue(t);
  }

  /** A row read in place, `s[p..e]`, with a `;` at `k` and none after it, splits at `k`:
      the name is the bytes before it and the measurement text the bytes after it. */
  lemma SplitInPlace(s: seq<char>, p: nat, k: nat, e: nat)
    requires p <= k < e <= |s| && s[k] == ';' && ';' !in s[k + 1..e]
    ensures StationName(s[p..e]) == s[p..k] && MeasurementText(s[p..e]) == s[k + 1..e]
  {
    assert s[p..e] == s[p..k] + [';'] + s[k + 1..e];
    SplitKnown(s[p..k], s[k + 1..e], s[p..e]);
  }

  /** The value text `s[i..e]`, read on its own, is a value text in the format with the value
      it has in place, and holds no `;`. */
  lemma ValueTextOf(s: seq<char>, i: nat, e: nat)
    requires ValueAt(s, i) && ValueEnd(s, i) == e
    ensures ValidValueText(s[i..e]) && ValueOf(s[i..e]) == ParseMeasurement(s, i)
    ensures ';' !in s[i..e]
  {
    var t := s[i..e];
    var j := DigitsStart(s, i);
    assert forall x :: 0 <= x < |t| ==> t[x] == s[i + x];
    assert DigitsStart(t, 0) == j - i;
    ValueDigits(s, i);
    ValueDigits(t, 0);
  }

  /** A row in front of some rows and its record in front of their records: the readable rows
      and their records in hundredths extend by one. */
  lemma RowsCons(row: seq<char>, rest: seq<seq<char>>, rows: seq<seq<char>>, r: Record, tail: seq<Record>, rs: seq<Record>)
    requires rows == [row] + rest && rs == [r] + tail
    requires Readable(row) && RowRecord(row) == Record(r.key, 10 * r.value) && -999 <= r.value <= 999
    requires AllReadable(rest) && RowRecords(rest) == ScaleRecords(tail) && RecordsInRange(tail)
    ensures AllReadable(rows) && RecordsInRange(rs) && RowRecords(rows) == ScaleRecords(rs)
  {
    assert forall i :: 0 < i < |rows| ==> rows[i] == rest[i - 1];
    assert forall i :: 0 < i < |rs| ==> rs[i] == tail[i - 1];
    assert rows[1..] == rest;
    ScaleRecordsCons(r, tail, rs);
  }

  lemma ScaleRecordsCons(r: Record, tail: seq<Record>, rs: seq<Record>)
    requires rs == [r] + tail
    ensures ScaleRecords(rs) == [Record(r.key, 10 * r.value)] + ScaleRecords(tail)
  {
    assert forall i :: 0 < i < |rs| ==> rs[i] == tail[i - 1];
  }

  /** A good line in front of the rest: its row is readable and its record is the line's
      record in hundredths. */
  lemma RowsStep(s: seq<char>, l: Line, rest: seq<seq<char>>, rows: seq<seq<char>>, tail: seq<Record>, rs: seq<Record>)
    requires GoodLine(s, l)
    requires rows == [LineText(s, l)] + rest && rs == [RecordOf(s, l)] + tail
    requires AllReadable(rest) && RowRecords(rest) == ScaleRecords(tail) && RecordsInRange(tail)
    ensures AllReadable(rows) && RecordsInRange(rs) && RowRecords(rows) == ScaleRecords(rs)
  {
    assert l == LineOf(s, l.start, l.end);
    RowOfLine(s, l.start, l.end);
    RowsCons(s[l.start..l.end], rest, rows, RecordOf(s, l), tail, rs);
  }

  /** Over good lines, the rows are readable and their records are the lines' records in
      hundredths, all within `[-99.9, 99.9]`. */
  lemma {:induction false} RowsOfLines(s: seq<char>, ls: seq<Line>)
    requires GoodLines(s, ls)
    ensures AllReadable(Texts(s, ls))
    ensures RowRecords(Texts(s, ls)) == ScaleRecords(Decode(s, ls))
    ensures RecordsInRange(Decode(s, ls))
  {
    if ls != [] {
      RowsOfLines(s, ls[1..]);
      RowsStep(s, ls[0], Texts(s, ls[1..]), Texts(s, ls), Decode(s, ls[1..]), Decode(s, ls));
    }
  }

  /** On a well-formed file the two-decimal variant builds the same table as the other
      variants, with every minimum, maximum and sum in hundredths instead of tenths, and it
      prints the same means. */
  lemma BetterAgrees(s: seq<char>)
    requires WellFormed(s)
    ensures AllReadable(Rows(s))
    ensures Aggregate(RowRecords(Rows(s))) == ScaleTable(Aggregate(Records(s)))
  {
    LinesGood(s, 0, |s|);
    RowsOfLines(s, LinesOf(s, 0, |s|));
    AggregateScaled(Records(s));
  }
}
