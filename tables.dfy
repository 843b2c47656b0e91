/** The station table (`InfoMap`): station name to accumulator. Folding records into it, and
    merging one table into another as the worker tables are merged into the first. */
module Tables {
  import opened FixedPoint
  import opened Stats
  import opened Lines

  type Table = map<seq<char>, Stats>

  /** `table[key]`: the entry, or a default-constructed one when the key is absent. */
  function Get(t: Table, key: seq<char>): Stats
  {
    if key in t then t[key] else Unset
  }

  /** One record folded into the table: its key's entry, default-constructed when absent,
      observes the record's value. */
  function Update(t: Table, r: Record): Table
  {
    t[r.key := Observe(Get(t, r.key), r.value)]
  }

  /** A record changes only its own key's entry: one more measurement, with the value between
      the new minimum and maximum; every other entry stays as it was. */
  lemma UpdateEffect(t: Table, r: Record)
    ensures Update(t, r).Keys == t.Keys + {r.key}
    ensures forall k :: k in t && k != r.key ==> Update(t, r)[k] == t[k]
    ensures Update(t, r)[r.key].count == Get(t, r.key).count + 1
    ensures Update(t, r)[r.key].sum == Get(t, r.key).sum + r.value
    ensures Update(t, r)[r.key].min <= r.value <= Update(t, r)[r.key].max
  {
  }

  /** The table after folding the records in order into `t`. */
  function Accumulate(t: Table, rs: seq<Record>): Table
  {
    if rs == [] then t else Update(Accumulate(t, rs[..|rs| - 1]), rs[|rs| - 1])
  }

  /** The table one pass over the records builds from an empty table. */
  function Aggregate(rs: seq<Record>): Table
  {
    Accumulate(map[], rs)
  }

  /** Folding two runs one after the other is folding their concatenation. */
  lemma {:induction false} AccumulateConcat(t: Table, a: seq<Record>, b: seq<Record>)
    ensures Accumulate(t, a + b) == Accumulate(Accumulate(t, a), b)
  {
    if b == [] {
      assert a + b == a;
    } else {
      assert (a + b)[..|a + b| - 1] == a + b[..|b| - 1];
      AccumulateConcat(t, a, b[..|b| - 1]);
    }
  }

  /** Folding a run that starts with `r` is folding the rest into the table `r` updated. */
  lemma AccumulateCons(t: Table, t': Table, r: Record, rest: seq<Record>, rs: seq<Record>)
    requires rs == [r] + rest && t' == Update(t, r)
    ensures Accumulate(t', rest) == Accumulate(t, rs)
  {
    AccumulateConcat(t, [r], rest);
    assert [r][..0] == [];
  }

  /** Folding the rest of a span, after its first line, into the table that line's record
      updated gives what folding the whole span into the old table gives. */
  lemma RowFold(s: seq<char>, curr: nat, stop: nat, m: Table, m': Table, e: nat, next: nat)
    requires curr < stop <= |s| && LinesSpan(s, curr, stop)
    requires e == FindIn(s, curr, stop, '\n') && next == e + 1
    requires m' == Update(m, RecordOf(s, LineOf(s, curr, e)))
    ensures next <= stop && LinesSpan(s, next, stop)
    ensures Accumulate(m', RecordsSpan(s, next, stop)) == Accumulate(m, RecordsSpan(s, curr, stop))
  {
    FirstRecord(s, curr, stop);
    AccumulateCons(m, m', RecordOf(s, LineOf(s, curr, e)), RecordsSpan(s, next, stop), RecordsSpan(s, curr, stop));
  }

  /** Every entry of a table holds at least one measurement. */
  predicate Counted(t: Table)
  {
    forall k :: k in t ==> t[k].count > 0
  }

  /** Folding records into a table whose entries are counted keeps them counted. */
  lemma {:induction false} AccumulateCounted(t: Table, rs: seq<Record>)
    requires Counted(t)
    ensures Counted(Accumulate(t, rs))
  {
    if rs != [] {
      AccumulateCounted(t, rs[..|rs| - 1]);
    }
  }

  /** The measurements recorded for `key`, in order. */
  function ValuesFor(rs: seq<Record>, key: seq<char>): seq<int>
  {
    if rs == [] then []
    else ValuesFor(rs[..|rs| - 1], key) + (if rs[|rs| - 1].key == key then [rs[|rs| - 1].value] else [])
  }

  /** The station names that occur in the records. */
  function KeysOf(rs: seq<Record>): set<seq<char>>
  {
    set i | 0 <= i < |rs| :: rs[i].key
  }

  lemma {:induction false} ValuesForConcat(a: seq<Record>, b: seq<Record>, key: seq<char>)
    ensures ValuesFor(a + b, key) == ValuesFor(a, key) + ValuesFor(b, key)
  {
    if b == [] {
      assert a + b == a;
    } else {
      var init, r := b[..|b| - 1], b[|b| - 1];
      var tail := if r.key == key then [r.value] else [];
      assert (a + b)[..|a + b| - 1] == a + init;
      assert (a + b)[|a + b| - 1] == r;
      ValuesForConcat(a, init, key);
      assert ValuesFor(a + b, key) == (ValuesFor(a, key) + ValuesFor(init, key)) + tail;
      assert ValuesFor(b, key) == ValuesFor(init, key) + tail;
    }
  }

  /** One pass builds, for every station name of the records and for no other, the accumulator
      of exactly that station's measurements. */
  lemma {:induction false} AggregateMeaning(rs: seq<Record>)
    ensures Aggregate(rs).Keys == KeysOf(rs)
    ensures forall k :: Get(Aggregate(rs), k) == Summary(ValuesFor(rs, k))
  {
    if rs != [] {
      var init, r := rs[..|rs| - 1], rs[|rs| - 1];
      AggregateMeaning(init);
      assert rs == init + [r];
      KeysOfConcat(init, [r]);
      assert KeysOf([r]) == {r.key} by { assert [r][0].key == r.key; }
      assert Aggregate(rs) == Update(Aggregate(init), r);
      forall k ensures Get(Aggregate(rs), k) == Summary(ValuesFor(rs, k)) {
        if k == r.key {
          assert ValuesFor(rs, k) == ValuesFor(init, k) + [r.value];
          SummarySnoc(ValuesFor(init, k), r.value);
          assert Get(Aggregate(rs), k) == Observe(Get(Aggregate(init), k), r.value);
        } else {
          assert ValuesFor(rs, k) == ValuesFor(init, k) + [];
          assert ValuesFor(rs, k) == ValuesFor(init, k);
          assert Get(Aggregate(rs), k) == Get(Aggregate(init), k);
        }
      }
    }
  }

  /** The merge of `other` into `main`: every key of `other` gets `main[k]` (default-constructed
      when absent) combined field-wise with `other[k]`; the other keys of `main` keep their entry. */
  function Merge(main: Table, other: Table): Table
  {
    map k | k in main.Keys + other.Keys :: if k in other then Combine(Get(main, k), other[k]) else main[k]
  }

  lemma KeysOfConcat(a: seq<Record>, b: seq<Record>)
    ensures KeysOf(a + b) == KeysOf(a) + KeysOf(b)
  {
    forall k | k in KeysOf(a + b) ensures k in KeysOf(a) + KeysOf(b) {
      var i :| 0 <= i < |a + b| && (a + b)[i].key == k;
      if i < |a| { assert a[i].key == k; } else { assert b[i - |a|].key == k; }
    }
    forall k | k in KeysOf(a) ensures k in KeysOf(a + b) {
      var i :| 0 <= i < |a| && a[i].key == k;
      assert (a + b)[i].key == k;
    }
    forall k | k in KeysOf(b) ensures k in KeysOf(a + b) {
      var i :| 0 <= i < |b| && b[i].key == k;
      assert (a + b)[|a| + i].key == k;
    }
  }

  /** Merging the tables of two runs of records gives the table of one pass over both runs. */
  lemma MergeAggregate(a: seq<Record>, b: seq<Record>)
    ensures Merge(Aggregate(a), Aggregate(b)) == Aggregate(a + b)
  {
    AggregateMeaning(a);
    AggregateMeaning(b);
    AggregateMeaning(a + b);
    KeysOfConcat(a, b);
    var m, t := Merge(Aggregate(a), Aggregate(b)), Aggregate(a + b);
    assert m.Keys == t.Keys;
    forall k | k in t ensures m[k] == t[k] {
      MergeAggregateAt(a, b, k);
    }
  }

  lemma MergeAggregateAt(a: seq<Record>, b: seq<Record>, k: seq<char>)
    requires k in Aggregate(a) || k in Aggregate(b)
    requires Get(Aggregate(a), k) == Summary(ValuesFor(a, k))
    requires Get(Aggregate(b), k) == Summary(ValuesFor(b, k))
    requires Get(Aggregate(a + b), k) == Summary(ValuesFor(a + b, k))
    ensures Merge(Aggregate(a), Aggregate(b))[k] == Get(Aggregate(a + b), k)
  {
    ValuesForConcat(a, b, k);
    SummaryConcat(ValuesFor(a, k), ValuesFor(b, k));
    if k !in Aggregate(b) {
      SummaryBounds(ValuesFor(a, k));
    }
  }
}
