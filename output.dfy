/** The report: entries sorted ascending by station name, each printed as
    `name=min/mean/max` with one decimal, joined by `", "` inside braces, then a newline. */
module Output {
  import opened FixedPoint
  import opened Stats
  import opened Tables

  /** `operator<` on station names: byte-wise lexicographic order, a proper prefix first. */
  predicate Less(a: seq<char>, b: seq<char>)
    decreases |a|
  {
    if a == [] then b != []
    else b != [] && (a[0] < b[0] || (a[0] == b[0] && Less(a[1..], b[1..])))
  }

  lemma {:induction false} LessIrreflexive(a: seq<char>)
    ensures !Less(a, a)
    decreases |a|
  {
    if a != [] {
      LessIrreflexive(a[1..]);
    }
  }

  lemma {:induction false} LessTransitive(a: seq<char>, b: seq<char>, c: seq<char>)
    requires Less(a, b) && Less(b, c)
    ensures Less(a, c)
    decreases |a|
  {
    if a != [] && a[0] == b[0] && b[0] == c[0] {
      LessTransitive(a[1..], b[1..], c[1..]);
    }
  }

  /** Any two different names are ordered one way or the other. */
  lemma {:induction false} LessTotal(a: seq<char>, b: seq<char>)
    requires a != b
    ensures Less(a, b) || Less(b, a)
    decreases |a|
  {
    if a != [] && b != [] && a[0] == b[0] {
      assert a == [a[0]] + a[1..] && b == [b[0]] + b[1..];
      LessTotal(a[1..], b[1..]);
    }
  }

  /** Strictly ascending, hence without repetitions. */
  ghost predicate StrictlySorted(ks: seq<seq<char>>)
  {
    forall i, j :: 0 <= i < j < |ks| ==> Less(ks[i], ks[j])
  }

  /** `k` put into its place among the ascending names `ks`. */
  function Insert(k: seq<char>, ks: seq<seq<char>>): (r: seq<seq<char>>)
    ensures |r| == |ks| + 1
    ensures forall x :: x in r <==> x == k || x in ks
  {
    if ks == [] || Less(k, ks[0]) then [k] + ks
    else [ks[0]] + Insert(k, ks[1..])
  }

  lemma {:induction false} InsertSorted(k: seq<char>, ks: seq<seq<char>>)
    requires StrictlySorted(ks) && k !in ks
    ensures StrictlySorted(Insert(k, ks))
  {
    var r := Insert(k, ks);
    if ks == [] {
    } else if Less(k, ks[0]) {
      forall j | 0 < j < |r| ensures Less(k, r[j]) {
        if j > 1 { LessTransitive(k, ks[0], ks[j - 1]); }
      }
    } else {
      LessTotal(k, ks[0]);
      var rest := ks[1..];
      assert StrictlySorted(rest) by {
        forall i, j | 0 <= i < j < |rest| ensures Less(rest[i], rest[j]) {
          assert rest[i] == ks[i + 1] && rest[j] == ks[j + 1];
        }
      }
      InsertSorted(k, rest);
      var tail := Insert(k, rest);
      assert r == [ks[0]] + tail;
      forall j | 0 <= j < |tail| ensures Less(ks[0], tail[j]) {
        if tail[j] != k {
          assert tail[j] in rest;
          var i :| 0 <= i < |rest| && rest[i] == tail[j];
          assert ks[i + 1] == tail[j];
        }
      }
      forall i, j | 0 <= i < j < |r| ensures Less(r[i], r[j]) {
        if i == 0 { assert r[j] == tail[j - 1]; } else { assert r[i] == tail[i - 1] && r[j] == tail[j - 1]; }
      }
    }
  }

  /** The names of `names` in ascending order. */
  ghost function SortedKeys(names: set<seq<char>>): (r: seq<seq<char>>)
    ensures StrictlySorted(r) && |r| == |names|
    ensures forall x :: x in r <==> x in names
  {
    if names == {} then []
    else
      var k :| k in names;
      var rest := SortedKeys(names - {k});
      InsertSorted(k, rest);
      Insert(k, rest)
  }

  /** Two ascending sequences holding the same names are the same sequence. */
  lemma {:induction false} SortedUnique(a: seq<seq<char>>, b: seq<seq<char>>)
    requires StrictlySorted(a) && StrictlySorted(b)
    requires |a| == |b| && forall x :: x in a <==> x in b
    ensures a == b
    decreases |a|
  {
    if a != [] {
      assert a[0] in b;
      if a[0] != b[0] {
        assert b[0] in b;
        var i :| 0 <= i < |a| && a[i] == b[0];
        var j :| 0 <= j < |b| && b[j] == a[0];
        assert Less(a[0], b[0]) && Less(b[0], a[0]);
        LessTransitive(a[0], b[0], a[0]);
        LessIrreflexive(a[0]);
      }
      var a', b' := a[1..], b[1..];
      forall x ensures x in a' <==> x in b' {
        if x in a' {
          var i :| 0 <= i < |a'| && a'[i] == x;
          assert Less(a[0], a[i + 1]);
          if x == b[0] { LessIrreflexive(x); }
          assert x in b;
        }
        if x in b' {
          var i :| 0 <= i < |b'| && b'[i] == x;
          assert Less(b[0], b[i + 1]);
          if x == a[0] { LessIrreflexive(x); }
          assert x in a;
        }
      }
      assert StrictlySorted(a') by {
        forall i, j | 0 <= i < j < |a'| ensures Less(a'[i], a'[j]) { assert a'[i] == a[i + 1] && a'[j] == a[j + 1]; }
      }
      assert StrictlySorted(b') by {
        forall i, j | 0 <= i < j < |b'| ensures Less(b'[i], b'[j]) { assert b'[i] == b[i + 1] && b'[j] == b[j + 1]; }
      }
      SortedUnique(a', b');
      assert a == [a[0]] + a' && b == [b[0]] + b';
    }
  }

  /** The keys of the table gathered one by one and put in ascending order. */
  method SortKeys(t: Table) returns (ks: seq<seq<char>>)
    ensures ks == SortedKeys(t.Keys)
  {
    ks := [];
    var rest := t.Keys;
    while rest != {}
      invariant rest <= t.Keys
      invariant StrictlySorted(ks) && |ks| + |rest| == |t.Keys|
      invariant forall x :: x in ks <==> x in t.Keys && x !in rest
      decreases |rest|
    {
      var k :| k in rest;
      InsertSorted(k, ks);
      ks := Insert(k, ks);
      rest := rest - {k};
    }
    SortedUnique(ks, SortedKeys(t.Keys));
  }

  /** `Information::print`: the name, `=`, then minimum, mean and maximum as fixed-point text
      separated by `/`; the mean carries the sign of the sum. */
  function EntryText(name: seq<char>, st: Stats): seq<char>
    requires st.count > 0
  {
    name + "=" + ValueText(st.min) + "/" + FixedText(st.sum < 0, MeanTenths(st.sum, st.count)) + "/" + ValueText(st.max)
  }

  /** The entries for `ks`, in that order, separated by `", "`. */
  function Entries(t: Table, ks: seq<seq<char>>): seq<char>
    requires Counted(t) && forall i :: 0 <= i < |ks| ==> ks[i] in t
  {
    if |ks| == 0 then []
    else if |ks| == 1 then EntryText(ks[0], t[ks[0]])
    else Entries(t, ks[..|ks| - 1]) + ", " + EntryText(ks[|ks| - 1], t[ks[|ks| - 1]])
  }

  /** The whole report of a table: `{`, its entries in ascending name order, `}` and a newline. */
  ghost function Render(t: Table): seq<char>
    requires Counted(t)
  {
    "{" + Entries(t, SortedKeys(t.Keys)) + "}\n"
  }

  lemma EntriesStep(t: Table, ks: seq<seq<char>>, i: nat)
    requires Counted(t) && 1 <= i < |ks| && forall j :: 0 <= j < |ks| ==> ks[j] in t
    ensures Entries(t, ks[..i + 1]) == Entries(t, ks[..i]) + ", " + EntryText(ks[i], t[ks[i]])
  {
    assert ks[..i + 1][..i] == ks[..i];
  }

  /** The entries printed one after the other: the first, then each further one after `", "`. */
  method PrintEntries(t: Table, ks: seq<seq<char>>) returns (out: seq<char>)
    requires Counted(t) && |ks| > 0 && forall i :: 0 <= i < |ks| ==> ks[i] in t
    ensures out == Entries(t, ks)
  {
    out := EntryText(ks[0], t[ks[0]]);
    assert ks[..1][0] == ks[0];
    for i := 1 to |ks|
      invariant out == Entries(t, ks[..i])
    {
      EntriesStep(t, ks, i);
      out := out + ", " + EntryText(ks[i], t[ks[i]]);
    }
    assert ks[..|ks|] == ks;
  }

  /** The report as the program writes it: sort the entries, then print them inside braces. */
  method Report(t: Table) returns (out: seq<char>)
    requires Counted(t) && t != map[]
    ensures out == Render(t)
  {
    var ks := SortKeys(t);
    assert |ks| > 0 by {
      var k :| k in t;
      assert k in ks;
    }
    var body := PrintEntries(t, ks);
    out := "{" + body + "}\n";
  }
}
