/** The multi-threaded solution: the file is cut into newline-aligned ranges, each range is
    scanned into its own table, the tables are merged into the first, and the merged table is
    reported. The ranges are scanned one after the other here; see README for threads. */
module Multithreaded {
  import opened FixedPoint
  import opened Stats
  import opened Lines
  import opened Tables
  import opened Output

  /** One past the last byte a range `[lo, hi)` covers: a range ending at a newline owns it. */
  function RangeStop(s: seq<char>, hi: nat): (stop: nat)
    requires hi <= |s|
    ensures hi <= stop <= |s|
  {
    if hi < |s| then hi + 1 else |s|
  }

  /** The value decoding inlined in process_measurements: an optional `-`, one or two integer
      digits, the `.` and the fractional digit, read with the cursor moving one byte at a time;
      the cursor is left on the fractional digit. */
  method ParseInPlace(s: seq<char>, i: nat) returns (measurement: int, curr: nat)
    requires ValueAt(s, i)
    ensures measurement == ParseMeasurement(s, i) && measurement == ValueIn(s, i, ValueEnd(s, i))
    ensures curr == ValueEnd(s, i) - 1
  {
    var sign := 1;
    curr := i;
    if s[curr] == '-' {
      curr := curr + 1;
      sign := -1;
    }
    measurement := DigitValue(s[curr]) * 10;
    curr := curr + 1;
    if s[curr] != '.' {
      measurement := (measurement + DigitValue(s[curr])) * 10;
      curr := curr + 1;
    }
    curr := curr + 1;
    measurement := measurement + DigitValue(s[curr]);
    measurement := measurement * sign;
  }

  /** One pass of process_measurements' loop body: the station name runs up to the first `;`,
      the value after it is decoded in place, that record is folded into the table, and the
      cursor moves two bytes past the fractional digit, over the newline, to the next line. */
  method ProcessRow(s: seq<char>, curr: nat, ghost e: nat, m: Table) returns (m': Table, next: nat)
    requires curr <= e < |s| && FindIn(s, curr, e, ';') < e && ValueLine(s, curr, e, true)
    ensures next == e + 1 && m' == Update(m, RecordOf(s, LineOf(s, curr, e)))
  {
    FindInExtend(s, curr, e, |s|, ';');
    RecordOfLine(s, curr, e);
    var startOfRow := curr;
    next := FindIn(s, curr, |s|, ';');
    var stationName := s[startOfRow..next];
    var measurement;
    ghost var valueEnd := ValueEnd(s, next + 1);
    assert valueEnd == e;
    measurement, next := ParseInPlace(s, next + 1);
    ghost var r := RecordOf(s, LineOf(s, curr, e));
    assert r.key == stationName && r.value == measurement;
    m' := m[stationName := Observe(Get(m, stationName), measurement)];
    assert m' == Update(m, r);
    next := next + 2;
  }

  /** The loop body on a well-formed span: the rest of the span is well-formed, and folding it
      into the new table gives what folding the whole span into the old one gives. */
  method ScanRow(s: seq<char>, curr: nat, ghost stop: nat, m: Table) returns (m': Table, next: nat)
    requires curr < stop <= |s| && WellFormedSpan(s, curr, stop)
    ensures curr < next <= stop && WellFormedSpan(s, next, stop)
    ensures Accumulate(m', RecordsSpan(s, next, stop)) == Accumulate(m, RecordsSpan(s, curr, stop))
  {
    ghost var e := FindIn(s, curr, stop, '\n');
    FirstLine(s, curr, stop, true);
    assert WellFormedSpan(s, e + 1, stop);
    m', next := ProcessRow(s, curr, e, m);
    RowFold(s, curr, stop, m, m', e, next);
  }

  /** process_measurements: scan the records starting in `[lo, hi)` and fold each into the
      table; the table ends up as folding in every record of the range would leave it. */
  method ProcessMeasurements(s: seq<char>, lo: nat, hi: nat, m0: Table) returns (m: Table)
    requires lo <= hi <= |s| && WellFormedSpan(s, lo, RangeStop(s, hi))
    ensures m == Accumulate(m0, RecordsSpan(s, lo, RangeStop(s, hi)))
  {
    ghost var stop := RangeStop(s, hi);
    ghost var target := Accumulate(m0, RecordsSpan(s, lo, stop));
    m := m0;
    var curr := lo;
    while curr < hi
      invariant lo <= curr <= stop && WellFormedSpan(s, curr, stop)
      invariant Accumulate(m, RecordsSpan(s, curr, stop)) == target
      decreases stop - curr
    {
      m, curr := ScanRow(s, curr, stop, m);
    }
    if curr < stop {
      NextLine(s, curr, stop, true);
      assert false;
    }
  }

  /** A range of the file `[lo, hi)`: `hi` is the newline that ends it, or the end of the file. */
  datatype Range = Range(lo: nat, hi: nat)

  /** The range lies in the file, and ends at a newline unless it ends at the end of the file. */
  predicate Placed(s: seq<char>, r: Range)
  {
    r.lo <= r.hi <= |s| && (r.hi < |s| ==> s[r.hi] == '\n')
  }

  /** Where a range starting at `lo` ends: the first newline at or after `lo + delta`, or the end
      of the file when there is none or `lo + delta` is already past it. */
  function RangeEnd(s: seq<char>, lo: nat, delta: nat): (hi: nat)
    requires lo <= |s|
    ensures lo <= hi <= |s| && (hi < |s| ==> s[hi] == '\n')
  {
    if lo + delta < |s| then FindIn(s, lo + delta, |s|, '\n') else |s|
  }

  /** The partition loop as written: `rawmemchr(curr + delta, '\n')` for each of the first
      `left` ranges. None stands for a search that reads outside the file: it starts at or past
      the end of the file, or finds no newline before the end. */
  function PartitionAsWritten(s: seq<char>, curr: nat, delta: nat, left: nat): (ends: Option<seq<nat>>)
    ensures ends.Some? ==> |ends.value| == left
    ensures ends.Some? ==> forall i :: 0 <= i < left ==> ends.value[i] < |s| && s[ends.value[i]] == '\n'
    decreases left
  {
    if left == 0 then Some([])
    else if curr + delta >= |s| then None
    else
      var end := FindIn(s, curr + delta, |s|, '\n');
      if end == |s| then None
      else
        match PartitionAsWritten(s, end + 1, delta, left - 1)
        case None => None
        case Some(rest) => Some([end] + rest)
  }

  /** A one-line file cut for three threads: the second search would start two bytes past the
      end of the file. */
  lemma PartitionOverrun()
    ensures WellFormed("a;1.0\n")
    ensures PartitionAsWritten("a;1.0\n", 0, |"a;1.0\n"| / 3, 3 - 1) == None
  {
    var s := "a;1.0\n";
    assert FindIn(s, 0, 6, '\n') == 5;
    assert FindIn(s, 0, 5, ';') == 1;
    assert ValueAt(s, 2) && ValueEnd(s, 2) == 5;
    assert FindIn(s, 2, 6, '\n') == 5;
  }

  /** A step of the loop as written that stays inside the file ends the range where the
      bounded search does, and the next range starts just past that newline. */
  lemma AsWrittenStep(s: seq<char>, curr: nat, delta: nat, left: nat, ends: seq<nat>)
    requires curr <= |s| && left > 0 && PartitionAsWritten(s, curr, delta, left) == Some(ends)
    ensures |ends| == left && ends[0] == RangeEnd(s, curr, delta) && ends[0] < |s|
    ensures RangeStop(s, ends[0]) == ends[0] + 1
    ensures PartitionAsWritten(s, ends[0] + 1, delta, left - 1) == Some(ends[1..])
  {
    var end := FindIn(s, curr + delta, |s|, '\n');
    var rest := PartitionAsWritten(s, end + 1, delta, left - 1).value;
    assert ends == [end] + rest;
    assert ends[1..] == rest;
  }

  /** Range `i` of `rs` lies in the file, starts a line (or is empty at the end of the file)
      and ends at a newline or at the end of the file; unless it is the last, it ends at the
      first newline at or after its start plus `delta`, and the next range starts just past
      that newline. */
  predicate CutAt(s: seq<char>, delta: nat, rs: seq<Range>, i: nat)
    requires i < |rs|
  {
    Placed(s, rs[i]) && (LineStart(s, rs[i].lo) || rs[i].lo == |s|) &&
    (i < |rs| - 1 ==> rs[i].hi == RangeEnd(s, rs[i].lo, delta) &&
                      rs[i + 1].lo == RangeStop(s, rs[i].hi))
  }

  /** The ranges cover the file in order: the first starts at its start, the last ends at its
      end, each lies in the file, starts a line (or is empty at the end of the file), ends at a
      newline or at the end of the file, and is followed directly by the next. */
  predicate Covers(s: seq<char>, ranges: seq<Range>)
  {
    |ranges| >= 1 && ranges[0].lo == 0 && ranges[|ranges| - 1].hi == |s| &&
    forall i :: 0 <= i < |ranges| ==>
      Placed(s, ranges[i]) && (LineStart(s, ranges[i].lo) || ranges[i].lo == |s|) &&
      (i < |ranges| - 1 ==> ranges[i + 1].lo == RangeStop(s, ranges[i].hi))
  }

  /** The `left` ranges cut from `curr` on, each search kept inside the file: every range but
      the last ends at the first newline at or after its start plus `delta` (`RangeEnd`), the
      next starts just past that newline, and the last range ends at the end of the file. */
  function Cuts(s: seq<char>, curr: nat, delta: nat, left: nat): (rs: seq<Range>)
    requires curr <= |s| && left >= 1
    ensures |rs| == left
    decreases left
  {
    if left == 1 then [Range(curr, |s|)]
    else
      var end := RangeEnd(s, curr, delta);
      [Range(curr, end)] + Cuts(s, RangeStop(s, end), delta, left - 1)
  }

  /** Cut from a line start, every range lies in the file, starts a line (or is empty at the
      end of the file) and ends at a newline or at the end of the file; each but the last ends
      at `RangeEnd` and is followed directly by the next one. */
  lemma {:induction false} CutsPlaced(s: seq<char>, curr: nat, delta: nat, left: nat)
    requires curr <= |s| && left >= 1 && (LineStart(s, curr) || curr == |s|)
    ensures var rs := Cuts(s, curr, delta, left);
            rs[0].lo == curr && rs[left - 1].hi == |s| &&
            forall i :: 0 <= i < left ==> CutAt(s, delta, rs, i)
    decreases left
  {
    if left > 1 {
      var end := RangeEnd(s, curr, delta);
      var next := RangeStop(s, end);
      CutsPlaced(s, next, delta, left - 1);
      var rs, rest := Cuts(s, curr, delta, left), Cuts(s, next, delta, left - 1);
      assert rs == [Range(curr, end)] + rest;
      forall i | 0 <= i < left ensures CutAt(s, delta, rs, i) {
        if i == 0 {
          assert rs[1] == rest[0];
        } else {
          assert rs[i] == rest[i - 1] && CutAt(s, delta, rest, i - 1);
          if i < left - 1 {
            assert rs[i + 1] == rest[i];
          }
        }
      }
    }
  }

  /** Wherever the loop as written stays inside the file, the ranges end where it makes them end. */
  lemma {:induction false} CutsAsWritten(s: seq<char>, curr: nat, delta: nat, left: nat, ends: seq<nat>)
    requires curr <= |s| && left >= 1 && PartitionAsWritten(s, curr, delta, left - 1) == Some(ends)
    ensures forall i :: 0 <= i < left - 1 ==> Cuts(s, curr, delta, left)[i].hi == ends[i]
    decreases left
  {
    if left > 1 {
      AsWrittenStep(s, curr, delta, left - 1, ends);
      var next := RangeStop(s, ends[0]);
      CutsAsWritten(s, next, delta, left - 1, ends[1..]);
      var rs, rest := Cuts(s, curr, delta, left), Cuts(s, next, delta, left - 1);
      assert rs == [Range(curr, ends[0])] + rest;
      forall i | 1 <= i < left - 1 ensures rs[i].hi == ends[i] {
        assert rs[i] == rest[i - 1];
      }
    }
  }

  /** The partition loop, each search kept inside the file: `n` ranges, the first starting at
      the start of the file and the last ending at its end, each following the previous one
      directly and ending at a newline, each but the last at the first one at or after its start
      plus `|s| / n`; and wherever the loop as written stays inside the file, ending where that
      loop makes it end. */
  method Partition(s: seq<char>, n: nat) returns (ranges: seq<Range>)
    requires n >= 1
    ensures ranges == Cuts(s, 0, |s| / n, n)
    ensures |ranges| == n && ranges[0].lo == 0 && ranges[n - 1].hi == |s|
    ensures Covers(s, ranges)
    ensures forall i :: 0 <= i < n ==> CutAt(s, |s| / n, ranges, i)
    ensures var w := PartitionAsWritten(s, 0, |s| / n, n - 1);
            w.Some? ==> forall i :: 0 <= i < n - 1 ==> ranges[i].hi == w.value[i]
  {
    var delta := |s| / n;
    ranges := CutRanges(s, delta, n);
    CutsFacts(s, delta, n, ranges);
  }

  /** What `Cuts` promises, for the ranges cut from the start of the file. */
  lemma CutsFacts(s: seq<char>, delta: nat, n: nat, ranges: seq<Range>)
    requires n >= 1 && ranges == Cuts(s, 0, delta, n)
    ensures |ranges| == n && ranges[0].lo == 0 && ranges[n - 1].hi == |s|
    ensures Covers(s, ranges)
    ensures forall i :: 0 <= i < n ==> CutAt(s, delta, ranges, i)
    ensures var w := PartitionAsWritten(s, 0, delta, n - 1);
            w.Some? ==> forall i :: 0 <= i < n - 1 ==> ranges[i].hi == w.value[i]
  {
    var w := PartitionAsWritten(s, 0, delta, n - 1);
    if w.Some? {
      CutsAsWritten(s, 0, delta, n, w.value);
    }
    CutsPlaced(s, 0, delta, n);
    forall i | 0 <= i < n
      ensures Placed(s, ranges[i]) && (LineStart(s, ranges[i].lo) || ranges[i].lo == |s|)
      ensures i < n - 1 ==> ranges[i + 1].lo == RangeStop(s, ranges[i].hi)
    {
      assert CutAt(s, delta, ranges, i);
    }
  }

  /** The loop of the partition: the first `n - 1` ranges are cut one after the other, each
      starting just past the newline that ends the previous one; the last takes the rest. */
  method CutRanges(s: seq<char>, delta: nat, n: nat) returns (ranges: seq<Range>)
    requires n >= 1
    ensures ranges == Cuts(s, 0, delta, n)
  {
    var curr: nat := 0;
    ranges := [];
    for i := 0 to n - 1
      invariant curr <= |s| && |ranges| == i
      invariant ranges + Cuts(s, curr, delta, n - i) == Cuts(s, 0, delta, n)
    {
      var end := RangeEnd(s, curr, delta);
      assert ranges + Cuts(s, curr, delta, n - i) ==
             (ranges + [Range(curr, end)]) + Cuts(s, RangeStop(s, end), delta, n - i - 1);
      ranges := ranges + [Range(curr, end)];
      curr := RangeStop(s, end);
    }
    ranges := ranges + [Range(curr, |s|)];
  }

  /** The entries of `t` whose keys are in `ks`. */
  function Restrict(t: Table, ks: set<seq<char>>): Table
  {
    map k | k in t && k in ks :: t[k]
  }

  /** Merging none of `other`'s entries leaves `main`, and merging all of them is the merge. */
  lemma MergeNoneAll(main: Table, other: Table, rest: set<seq<char>>)
    ensures rest == other.Keys ==> Merge(main, Restrict(other, other.Keys - rest)) == main
    ensures rest == {} ==> Merge(main, Restrict(other, other.Keys - rest)) == Merge(main, other)
  {
    if rest == other.Keys {
      assert Restrict(other, other.Keys - rest) == map[];
    }
    if rest == {} {
      assert Restrict(other, other.Keys - rest) == other;
    }
  }

  /** Merging one more entry of `other`, the one for `k`, into the merge of the entries whose
      keys are not in `rest`. */
  lemma MergeOneMore(main: Table, other: Table, rest: set<seq<char>>, k: seq<char>)
    requires k in rest && rest <= other.Keys
    ensures var merged := Merge(main, Restrict(other, other.Keys - rest));
            Merge(main, Restrict(other, other.Keys - (rest - {k}))) == merged[k := Combine(Get(merged, k), other[k])]
  {
    var merged := Merge(main, Restrict(other, other.Keys - rest));
    assert other.Keys - (rest - {k}) == (other.Keys - rest) + {k};
    var a, b := Merge(main, Restrict(other, other.Keys - (rest - {k}))), merged[k := Combine(Get(merged, k), other[k])];
    assert Get(merged, k) == Get(main, k);
    assert a.Keys == b.Keys;
    forall j | j in a ensures a[j] == b[j] {
    }
  }

  /** The merge loop's body: `main[k]`, default-constructed when absent, takes the lesser
      minimum, the greater maximum, and the sums of the counts and of the sums. */
  method MergeEntry(merged: Table, k: seq<char>, v: Stats) returns (merged': Table)
    ensures merged' == merged[k := Combine(Get(merged, k), v)]
  {
    var info := Get(merged, k);
    info := info.(max := Max(info.max, v.max));
    info := info.(min := Min(info.min, v.min));
    info := info.(count := info.count + v.count);
    info := info.(sum := info.sum + v.sum);
    merged' := merged[k := info];
  }

  /** The merge loop: every entry of `other` is combined into `main`'s entry for the same key,
      which starts from the default accumulator when `main` has none. */
  method MergeInto(main: Table, other: Table) returns (merged: Table)
    ensures merged == Merge(main, other)
  {
    merged := main;
    var rest := other.Keys;
    MergeNoneAll(main, other, rest);
    while rest != {}
      invariant rest <= other.Keys
      invariant merged == Merge(main, Restrict(other, other.Keys - rest))
      decreases |rest|
    {
      var k :| k in rest;
      MergeOneMore(main, other, rest, k);
      merged := MergeEntry(merged, k, other[k]);
      rest := rest - {k};
    }
    MergeNoneAll(main, other, rest);
  }

  /** A range of a non-empty text in the format is a well-formed span, and the records up to its
      end are those before it followed by its own. */
  lemma RangeSpan(s: seq<char>, lo: nat, hi: nat)
    requires WellFormed(s) && s != [] && lo <= hi <= |s|
    requires (LineStart(s, lo) || lo == |s|) && (hi < |s| ==> s[hi] == '\n')
    ensures WellFormedSpan(s, 0, RangeStop(s, hi))
    ensures WellFormedSpan(s, 0, lo) && WellFormedSpan(s, lo, RangeStop(s, hi))
    ensures RecordsSpan(s, 0, RangeStop(s, hi)) == RecordsSpan(s, 0, lo) + RecordsSpan(s, lo, RangeStop(s, hi))
  {
    EndsWithNewline(s, 0, |s|);
    var stop := RangeStop(s, hi);
    SplitSpan(s, 0, stop, |s|);
    SplitSpan(s, 0, lo, stop);
  }

  /** The records of a range: those of its lines, up to and including the newline that ends it. */
  ghost function RangeRecords(s: seq<char>, r: Range): seq<Record>
  {
    if r.lo <= r.hi <= |s| && LinesSpan(s, r.lo, RangeStop(s, r.hi)) then RecordsSpan(s, r.lo, RangeStop(s, r.hi))
    else []
  }

  /** One worker thread: range `i` of a text in the format, scanned into a fresh table. */
  method ProcessRange(s: seq<char>, ranges: seq<Range>, i: nat) returns (t: Table)
    requires WellFormed(s) && s != [] && Covers(s, ranges) && i < |ranges|
    ensures t == Aggregate(RangeRecords(s, ranges[i]))
  {
    RangeSpan(s, ranges[i].lo, ranges[i].hi);
    t := ProcessMeasurements(s, ranges[i].lo, ranges[i].hi, map[]);
  }

  /** The worker threads, one after the other: range `j` gets the table of its own records. */
  method ProcessRanges(s: seq<char>, ranges: seq<Range>) returns (tables: seq<Table>)
    requires WellFormed(s) && s != [] && Covers(s, ranges)
    ensures |tables| == |ranges|
    ensures forall j :: 0 <= j < |ranges| ==> tables[j] == Aggregate(RangeRecords(s, ranges[j]))
  {
    tables := [];
    for i := 0 to |ranges|
      invariant |tables| == i
      invariant forall j :: 0 <= j < i ==> tables[j] == Aggregate(RangeRecords(s, ranges[j]))
    {
      var t := ProcessRange(s, ranges, i);
      ghost var done := tables;
      tables := tables + [t];
      forall j | 0 <= j <= i ensures tables[j] == Aggregate(RangeRecords(s, ranges[j])) {
        if j < i {
          assert tables[j] == done[j];
        }
      }
    }
  }

  /** The merge of the worker tables, in range order, into the first: the table one pass over
      the whole file builds. */
  method MergeTables(s: seq<char>, ranges: seq<Range>, tables: seq<Table>) returns (main: Table)
    requires WellFormed(s) && s != [] && Covers(s, ranges) && |tables| == |ranges|
    requires forall j :: 0 <= j < |ranges| ==> tables[j] == Aggregate(RangeRecords(s, ranges[j]))
    ensures main == Aggregate(Records(s))
  {
    main := tables[0];
    RangeSpan(s, ranges[0].lo, ranges[0].hi);
    for i := 1 to |ranges|
      invariant WellFormedSpan(s, 0, RangeStop(s, ranges[i - 1].hi))
      invariant main == Aggregate(RecordsSpan(s, 0, RangeStop(s, ranges[i - 1].hi)))
    {
      RangeSpan(s, ranges[i].lo, ranges[i].hi);
      MergeAggregate(RecordsSpan(s, 0, ranges[i].lo), RecordsSpan(s, ranges[i].lo, RangeStop(s, ranges[i].hi)));
      main := MergeInto(main, tables[i]);
    }
  }

  /** Solutions::multithreaded on a file already in memory, with `n` worker ranges: the report
      is the one a single pass over every record of the file produces. */
  method Solve(s: seq<char>, n: nat) returns (out: seq<char>)
    requires n >= 1 && WellFormed(s) && s != []
    ensures Counted(Aggregate(Records(s)))
    ensures out == Render(Aggregate(Records(s)))
  {
    var ranges := Partition(s, n);
    var tables := ProcessRanges(s, ranges);
    var main := MergeTables(s, ranges, tables);
    AccumulateCounted(map[], Records(s));
    SomeRecord(s);
    AggregateMeaning(Records(s));
    assert Records(s)[0].key in KeysOf(Records(s));
    out := Report(main);
  }
}
