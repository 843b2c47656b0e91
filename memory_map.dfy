/** Solutions::memory_map: one scan over the whole mapped file. The row is cut at the first `;`
    (`strchr`), the value right after it is decoded by `parse_measurement`, and the next row
    starts one byte past the first newline after the `;`, so bytes between the value and the
    newline are skipped. `strchr` stops at a NUL byte, so the file must hold none. */
module MemoryMap {
  import opened FixedPoint
  import opened Lines
  import opened Stats
  import opened Tables
  import opened Output

  /** `strchr(s + lo, c)` on the mapped file: the first `c` from `lo` on. `None` when a NUL byte
      comes first, where `strchr` stops and returns a null pointer, or when the file ends first,
      where the mapping holds no terminator and the search reads past the file. */
  function Strchr(s: seq<char>, lo: nat, c: char): (r: Option<nat>)
    requires lo <= |s|
    ensures r.Some? ==> lo <= r.value < |s| && s[r.value] == c
    decreases |s| - lo
  {
    if lo == |s| then None
    else if s[lo] == c then Some(lo)
    else if s[lo] == '\0' then None
    else Strchr(s, lo + 1, c)
  }

  /** `strchr` finds a byte exactly when the bounded search finds it in the file with no NUL
      byte before it, and then finds the same one. */
  lemma {:induction false} StrchrFinds(s: seq<char>, lo: nat, c: char)
    requires lo <= |s|
    ensures var j := FindIn(s, lo, |s|, c);
            Strchr(s, lo, c).Some? <==> j < |s| && forall k :: lo <= k < j ==> s[k] != '\0'
    ensures Strchr(s, lo, c).Some? ==> Strchr(s, lo, c).value == FindIn(s, lo, |s|, c)
    decreases |s| - lo
  {
    if lo < |s| && s[lo] != c && s[lo] != '\0' {
      StrchrFinds(s, lo + 1, c);
    }
  }

  /** A NUL byte stops `strchr` where the bounded search goes on: in a station name, before
      its `;`, and among the bytes skipped between a value and its newline. */
  lemma NulStopsStrchr()
    ensures FindIn("a\0;1.0\n", 0, 7, ';') == 2 && Strchr("a\0;1.0\n", 0, ';') == None
    ensures FindIn("b;1.0\0\n", 1, 7, '\n') == 6 && Strchr("b;1.0\0\n", 1, '\n') == None
  {
  }

  /** On a row of a file with no NUL byte, `strchr` from the row start finds the row's first
      `;`, and `strchr` from there finds the row's newline. */
  lemma RowSearches(s: seq<char>, curr: nat, e: nat)
    requires '\0' !in s
    requires curr <= e < |s| && e == FindIn(s, curr, |s|, '\n') && FindIn(s, curr, e, ';') < e
    ensures var semi := FindIn(s, curr, e, ';');
            Strchr(s, curr, ';') == Some(semi) && Strchr(s, semi, '\n') == Some(e)
  {
    FindInExtend(s, curr, e, |s|, ';');
    var semi := FindIn(s, curr, e, ';');
    StrchrFinds(s, curr, ';');
    FindInFrom(s, curr, semi, |s|, '\n');
    StrchrFinds(s, semi, '\n');
  }

  /** One pass of the scan loop on the row `s[curr..e]`, `e` being its newline: the key is
      the bytes up to the first `;`, the value is decoded right after it, the key's entry
      (default-constructed when absent) counts, sums and widens over it, and the cursor moves
      one byte past the newline. */
  method ProcessRow(s: seq<char>, curr: nat, ghost e: nat, m: Table) returns (m': Table, next: nat)
    requires '\0' !in s
    requires curr <= e < |s| && e == FindIn(s, curr, |s|, '\n')
    requires FindIn(s, curr, e, ';') < e && ValueLine(s, curr, e, false)
    ensures next == e + 1 && m' == Update(m, RecordOf(s, LineOf(s, curr, e)))
  {
    RowSearches(s, curr, e);
    RecordOfLine(s, curr, e);
    var startOfRow := curr;
    var semi := Strchr(s, curr, ';').value;
    var stationName := s[startOfRow..semi];
    var endOfRow := Strchr(s, semi, '\n').value;
    var measurement := ParseMeasurement(s, semi + 1);
    var info := Get(m, stationName);
    info := info.(count := info.count + 1);
    info := info.(sum := info.sum + measurement);
    info := info.(max := Max(info.max, measurement));
    info := info.(min := Min(info.min, measurement));
    m' := m[stationName := info];
    ghost var r := RecordOf(s, LineOf(s, curr, e));
    assert r.key == stationName && r.value == measurement;
    assert m' == Update(m, r);
    next := endOfRow + 1;
  }

  /** The loop body on the rest of the file: the rest after the row is again rows with value
      texts, and folding it into the new table gives what folding the whole rest into the old
      one gives. */
  method ScanRow(s: seq<char>, curr: nat, m: Table) returns (m': Table, next: nat)
    requires '\0' !in s
    requires curr < |s| && LinesSpan(s, curr, |s|) && ValuesSpan(s, curr, |s|, false)
    ensures curr < next <= |s| && LinesSpan(s, next, |s|) && ValuesSpan(s, next, |s|, false)
    ensures Accumulate(m', RecordsSpan(s, next, |s|)) == Accumulate(m, RecordsSpan(s, curr, |s|))
  {
    ghost var e := FindIn(s, curr, |s|, '\n');
    FirstLine(s, curr, |s|, false);
    assert LinesSpan(s, e + 1, |s|) && ValuesSpan(s, e + 1, |s|, false);
    m', next := ProcessRow(s, curr, e, m);
    RowFold(s, curr, |s|, m, m', e, next);
  }

  /** The scan loop over the whole file: the table one pass over every record builds. Every
      byte of a row lies before the `;` or the newline one of its two `strchr` calls looks for,
      so the file must hold no NUL byte. */
  method ScanFile(s: seq<char>) returns (m: Table)
    requires Tolerated(s) && '\0' !in s
    ensures m == Aggregate(RecordsSpan(s, 0, |s|))
  {
    ghost var target := Aggregate(RecordsSpan(s, 0, |s|));
    m := map[];
    var curr := 0;
    while curr < |s|
      invariant curr <= |s| && LinesSpan(s, curr, |s|) && ValuesSpan(s, curr, |s|, false)
      invariant Accumulate(m, RecordsSpan(s, curr, |s|)) == target
      decreases |s| - curr
    {
      m, curr := ScanRow(s, curr, m);
    }
  }

  /** Solutions::memory_map on a file already in memory: the report of the table one pass over
      every record builds. */
  method Solve(s: seq<char>) returns (out: seq<char>)
    requires Tolerated(s) && '\0' !in s && s != []
    ensures Counted(Aggregate(RecordsSpan(s, 0, |s|)))
    ensures out == Render(Aggregate(RecordsSpan(s, 0, |s|)))
  {
    var m := ScanFile(s);
    ghost var rs := RecordsSpan(s, 0, |s|);
    AccumulateCounted(map[], rs);
    SomeRecord(s);
    AggregateMeaning(rs);
    assert rs[0].key in KeysOf(rs);
    out := Report(m);
  }

  /** A row ended by `\r\n` is read like one ended by `\n`: the `\r` after the value is
      skipped, though the text is not in the strict format. */
  lemma CarriageReturnSkipped()
    ensures Tolerated("b;-2.5\r\n") && !WellFormed("b;-2.5\r\n")
    ensures RecordsSpan("b;-2.5\r\n", 0, 8) == [Record("b", -25)]
  {
    var s := "b;-2.5\r\n";
    assert FindIn(s, 0, 8, '\n') == 7;
    assert FindIn(s, 0, 7, ';') == 1;
    assert ValueAt(s, 2) && ValueEnd(s, 2) == 6;
    assert ParseMeasurement(s, 2) == -25;
    assert LinesOf(s, 8, 8) == [];
    assert LinesOf(s, 0, 8) == [Line(0, 1, 7)];
    assert s[0..1] == "b";
    assert RecordOf(s, Line(0, 1, 7)) == Record("b", -25);
    assert Decode(s, [Line(0, 1, 7)]) == [Record("b", -25)] + Decode(s, []);
  }
}
