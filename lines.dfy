/** The input file as text: lines `key;value\n`, the bounded searches that stand for
    `rawmemchr`/`strchr`, and the sequence of records a well-formed text holds. */
module Lines {
  import opened FixedPoint

  /** A result that may be missing, e.g. a search that leaves the file. */
  datatype Option<T> = None | Some(value: T)

  /** One observation: a station name and a measurement in tenths. */
  datatype Record = Record(key: seq<char>, value: int)

  /** The first occurrence of `c` in `s[lo..hi]`, or `hi` when there is none: a search
      bounded by `hi`. */
  function FindIn(s: seq<char>, lo: nat, hi: nat, c: char): (j: nat)
    requires lo <= hi <= |s|
    ensures lo <= j <= hi && (j < hi ==> s[j] == c)
    decreases hi - lo
  {
    if lo == hi then hi else if s[lo] == c then lo else FindIn(s, lo + 1, hi, c)
  }

  /** Nothing before the position `FindIn` returns holds `c`. */
  lemma {:induction false} FindInFirst(s: seq<char>, lo: nat, hi: nat, c: char)
    requires lo <= hi <= |s|
    ensures forall k :: lo <= k < FindIn(s, lo, hi, c) ==> s[k] != c
    decreases hi - lo
  {
    if lo < hi && s[lo] != c {
      FindInFirst(s, lo + 1, hi, c);
    }
  }

  /** A position holding `c` with no earlier `c` from `lo` on is what `FindIn` returns, whatever the bound. */
  lemma {:induction false} FindInIs(s: seq<char>, lo: nat, hi: nat, c: char, j: nat)
    requires lo <= j < hi <= |s| && s[j] == c
    requires forall k :: lo <= k < j ==> s[k] != c
    ensures FindIn(s, lo, hi, c) == j
    decreases hi - lo
  {
    if lo < j {
      FindInIs(s, lo + 1, hi, c, j);
    }
  }

  /** A search that finds `c` before its bound finds the same position under any wider bound. */
  lemma {:induction false} FindInExtend(s: seq<char>, lo: nat, hi: nat, hi': nat, c: char)
    requires lo <= hi <= hi' <= |s| && FindIn(s, lo, hi, c) < hi
    ensures FindIn(s, lo, hi', c) == FindIn(s, lo, hi, c)
    decreases hi - lo
  {
    if s[lo] != c {
      FindInExtend(s, lo + 1, hi, hi', c);
    }
  }

  /** Starting the search later, but not past what it finds, finds the same position. */
  lemma {:induction false} FindInFrom(s: seq<char>, lo: nat, mid: nat, hi: nat, c: char)
    requires lo <= mid <= hi <= |s| && mid <= FindIn(s, lo, hi, c)
    ensures FindIn(s, mid, hi, c) == FindIn(s, lo, hi, c)
    decreases mid - lo
  {
    if lo < mid {
      FindInFrom(s, lo + 1, mid, hi, c);
    }
  }

  /** `find_last_of`: the last occurrence of `c` in `s[..hi]`, or -1 standing for `npos`
      when there is none. */
  function FindLastIn(s: seq<char>, hi: nat, c: char): (j: int)
    requires hi <= |s|
    ensures -1 <= j < hi && (0 <= j ==> s[j] == c)
  {
    if hi == 0 then -1 else if s[hi - 1] == c then hi - 1 else FindLastIn(s, hi - 1, c)
  }

  /** Nothing after the position `FindLastIn` returns holds `c`, and when it returns -1 nothing
      does. */
  lemma {:induction false} FindLastInLast(s: seq<char>, hi: nat, c: char)
    requires hi <= |s|
    ensures forall k :: FindLastIn(s, hi, c) < k < hi ==> s[k] != c
  {
    if hi > 0 && s[hi - 1] != c {
      FindLastInLast(s, hi - 1, c);
    }
  }

  /** An occurrence of `c` with none after it is the one `FindLastIn` returns. */
  lemma {:induction false} FindLastInIs(s: seq<char>, hi: nat, k: nat, c: char)
    requires k < hi <= |s| && s[k] == c
    requires forall x :: k < x < hi ==> s[x] != c
    ensures FindLastIn(s, hi, c) == k
  {
    if s[hi - 1] != c {
      FindLastInIs(s, hi - 1, k, c);
    }
  }

  /** The line starting at `p` ends at the first newline before `stop`, and holds a `;`. */
  predicate LineAt(s: seq<char>, p: nat, stop: nat)
    requires p <= stop <= |s|
  {
    var e := FindIn(s, p, stop, '\n');
    e < stop && FindIn(s, p, e, ';') < e
  }

  /** `s[p..stop]` is a sequence of lines, each holding a `;` and ended by `\n`. */
  ghost predicate LinesSpan(s: seq<char>, p: nat, stop: nat)
    requires p <= stop <= |s|
    decreases stop - p
  {
    p == stop || (LineAt(s, p, stop) && LinesSpan(s, FindIn(s, p, stop, '\n') + 1, stop))
  }

  /** A line by its offsets: it starts at `start`, its first `;` is at `semi` and its newline at `end`. */
  datatype Line = Line(start: nat, semi: nat, end: nat)

  /** The line `s[p..e]`, split at its first `;`. */
  function LineOf(s: seq<char>, p: nat, e: nat): Line
    requires p <= e <= |s|
  {
    Line(p, FindIn(s, p, e, ';'), e)
  }

  /** The lines of `s[p..stop]`, in order. */
  ghost function LinesOf(s: seq<char>, p: nat, stop: nat): seq<Line>
    requires p <= stop <= |s| && LinesSpan(s, p, stop)
    decreases stop - p
  {
    if p == stop then []
    else
      var e := FindIn(s, p, stop, '\n');
      [LineOf(s, p, e)] + LinesOf(s, e + 1, stop)
  }

  /** The record a line of `s` stands for: the bytes before its first `;`, and the value of the
      value text right after that `;` (none there stands for 0). */
  ghost function RecordOf(s: seq<char>, l: Line): Record
  {
    if l.start <= l.semi < l.end <= |s| then
      Record(s[l.start..l.semi], if ValueAt(s, l.semi + 1) then ParseMeasurement(s, l.semi + 1) else 0)
    else Record([], 0)
  }

  /** The records the lines of `s` stand for. */
  ghost function Decode(s: seq<char>, ls: seq<Line>): (rs: seq<Record>)
    ensures |rs| == |ls|
  {
    if ls == [] then [] else [RecordOf(s, ls[0])] + Decode(s, ls[1..])
  }

  lemma {:induction false} DecodeConcat(s: seq<char>, a: seq<Line>, b: seq<Line>)
    ensures Decode(s, a + b) == Decode(s, a) + Decode(s, b)
  {
    if a == [] {
      assert a + b == b;
    } else {
      assert (a + b)[0] == a[0] && (a + b)[1..] == a[1..] + b;
      DecodeConcat(s, a[1..], b);
    }
  }

  /** Every line of `s[p..stop]` has a value text `-?\d{1,2}\.\d` starting just after its first
      `;`; when `exact`, the newline follows the fractional digit at once, otherwise other bytes
      (a `\r`, say) may come between them. */
  ghost predicate ValuesSpan(s: seq<char>, p: nat, stop: nat, exact: bool)
    requires p <= stop <= |s| && LinesSpan(s, p, stop)
    decreases stop - p
  {
    p == stop ||
    (var e := FindIn(s, p, stop, '\n');
     ValueLine(s, p, e, exact) && ValuesSpan(s, e + 1, stop, exact))
  }

  /** The line `s[p..e]` has a value text starting just after its first `;`, ending at the
      line's end when `exact` and at or before it otherwise. */
  predicate ValueLine(s: seq<char>, p: nat, e: nat, exact: bool)
    requires p <= e <= |s|
  {
    var k := FindIn(s, p, e, ';');
    ValueAt(s, k + 1) && (if exact then ValueEnd(s, k + 1) == e else ValueEnd(s, k + 1) <= e)
  }

  /** `s[p..stop]` follows the input format. */
  ghost predicate WellFormedSpan(s: seq<char>, p: nat, stop: nat)
    requires p <= stop <= |s|
  {
    LinesSpan(s, p, stop) && ValuesSpan(s, p, stop, true)
  }

  /** The whole input follows the format. */
  ghost predicate WellFormed(s: seq<char>)
  {
    WellFormedSpan(s, 0, |s|)
  }

  /** The whole input follows the format, except that bytes may stand between a value and its newline. */
  ghost predicate Tolerated(s: seq<char>)
  {
    LinesSpan(s, 0, |s|) && ValuesSpan(s, 0, |s|, false)
  }

  /** A text in the format is also one with the looser line ends. */
  lemma {:induction false} ExactIsTolerated(s: seq<char>, p: nat, stop: nat)
    requires p <= stop <= |s| && WellFormedSpan(s, p, stop)
    ensures ValuesSpan(s, p, stop, false)
    decreases stop - p
  {
    if p < stop {
      ExactIsTolerated(s, FindIn(s, p, stop, '\n') + 1, stop);
    }
  }

  /** The records of the lines of `s[p..stop]`, in order. */
  ghost function RecordsSpan(s: seq<char>, p: nat, stop: nat): seq<Record>
    requires p <= stop <= |s| && LinesSpan(s, p, stop)
  {
    Decode(s, LinesOf(s, p, stop))
  }

  /** Every record of the input, in file order. */
  ghost function Records(s: seq<char>): seq<Record>
    requires WellFormed(s)
  {
    RecordsSpan(s, 0, |s|)
  }

  /** Offset `m` starts a line: it is the start of the text or follows a newline. */
  predicate LineStart(s: seq<char>, m: nat)
  {
    m == 0 || (m <= |s| && s[m - 1] == '\n')
  }

  /** Narrowing the bound of a search does not change what it finds, as long as the found
      position stays inside the narrower bound. */
  lemma {:induction false} FindInPrefix(s: seq<char>, lo: nat, hi: nat, hi': nat, c: char)
    requires lo <= hi <= hi' <= |s| && FindIn(s, lo, hi', c) < hi
    ensures FindIn(s, lo, hi, c) == FindIn(s, lo, hi', c)
    decreases hi - lo
  {
    if s[lo] != c {
      FindInPrefix(s, lo + 1, hi, hi', c);
    }
  }

  /** A line `s[p..e]` followed by lines up to `m`: the lines from `p` to `m`. */
  lemma ConsLine(s: seq<char>, p: nat, e: nat, m: nat)
    requires p <= e < m <= |s| && FindIn(s, p, m, '\n') == e
    requires FindIn(s, p, e, ';') < e && LinesSpan(s, e + 1, m)
    ensures LinesSpan(s, p, m)
    ensures LinesOf(s, p, m) == [LineOf(s, p, e)] + LinesOf(s, e + 1, m)
  {
  }

  /** A line `s[p..e]` with a value text after its `;`, followed by lines up to `m` with value
      texts: lines with value texts from `p` to `m`. */
  lemma ConsValues(s: seq<char>, p: nat, e: nat, m: nat, exact: bool)
    requires p <= e < m <= |s| && FindIn(s, p, m, '\n') == e && LinesSpan(s, p, m)
    requires ValueLine(s, p, e, exact) && ValuesSpan(s, e + 1, m, exact)
    ensures ValuesSpan(s, p, m, exact)
  {
  }

  /** The lines of a span split at any line start into two spans of lines whose records,
      concatenated, are the records of the whole. */
  lemma {:induction false} SplitLines(s: seq<char>, p: nat, m: nat, stop: nat)
    requires p <= m <= stop <= |s| && LinesSpan(s, p, stop)
    requires m == p || s[m - 1] == '\n'
    ensures LinesSpan(s, p, m) && LinesSpan(s, m, stop)
    ensures LinesOf(s, p, stop) == LinesOf(s, p, m) + LinesOf(s, m, stop)
    decreases stop - p
  {
    if m != p {
      var e := FindIn(s, p, stop, '\n');
      assert e <= m - 1 by { FindInFirst(s, p, stop, '\n'); }
      FindInPrefix(s, p, m, stop, '\n');
      SplitLines(s, e + 1, m, stop);
      ConsLine(s, p, e, m);
      ConsLine(s, p, e, stop);
      var first, a, b := [LineOf(s, p, e)], LinesOf(s, e + 1, m), LinesOf(s, m, stop);
      assert first + (a + b) == (first + a) + b;
    }
  }

  /** Valid value texts on every line of a span remain so on both parts of a split at a line start. */
  lemma {:induction false} SplitValues(s: seq<char>, p: nat, m: nat, stop: nat)
    requires p <= m <= stop <= |s| && LinesSpan(s, p, stop) && ValuesSpan(s, p, stop, true)
    requires m == p || s[m - 1] == '\n'
    ensures LinesSpan(s, p, m) && LinesSpan(s, m, stop)
    ensures ValuesSpan(s, p, m, true) && ValuesSpan(s, m, stop, true)
    decreases stop - p
  {
    SplitLines(s, p, m, stop);
    if m != p {
      var e := FindIn(s, p, stop, '\n');
      assert e <= m - 1 by { FindInFirst(s, p, stop, '\n'); }
      FindInPrefix(s, p, m, stop, '\n');
      SplitValues(s, e + 1, m, stop);
      ConsValues(s, p, e, m, true);
    }
  }

  /** A well-formed span splits at a line start into two well-formed spans, and its records
      are those of the first followed by those of the second. */
  lemma SplitSpan(s: seq<char>, p: nat, m: nat, stop: nat)
    requires p <= m <= stop <= |s| && WellFormedSpan(s, p, stop)
    requires LineStart(s, m) && (m == 0 ==> p == 0)
    ensures WellFormedSpan(s, p, m) && WellFormedSpan(s, m, stop)
    ensures RecordsSpan(s, p, stop) == RecordsSpan(s, p, m) + RecordsSpan(s, m, stop)
  {
    SplitLines(s, p, m, stop);
    SplitValues(s, p, m, stop);
    DecodeConcat(s, LinesOf(s, p, m), LinesOf(s, m, stop));
  }

  /** A non-empty span of lines ends with a newline. */
  lemma {:induction false} EndsWithNewline(s: seq<char>, p: nat, stop: nat)
    requires p < stop <= |s| && LinesSpan(s, p, stop)
    ensures s[stop - 1] == '\n'
    decreases stop - p
  {
    var e := FindIn(s, p, stop, '\n');
    if e + 1 < stop {
      EndsWithNewline(s, e + 1, stop);
    }
  }

  /** A span of lines with value texts starts with a line that has a `;` and a value text
      right after it, and goes on with a span of the same kind. */
  lemma FirstLine(s: seq<char>, p: nat, stop: nat, exact: bool)
    requires p < stop <= |s| && LinesSpan(s, p, stop) && ValuesSpan(s, p, stop, exact)
    ensures var e := FindIn(s, p, stop, '\n');
            e < stop && FindIn(s, p, e, ';') < e && ValueLine(s, p, e, exact) &&
            LinesSpan(s, e + 1, stop) && ValuesSpan(s, e + 1, stop, exact)
  {
  }

  /** The first line of a span gives its first record, and the rest of the span the rest. */
  lemma FirstRecord(s: seq<char>, p: nat, stop: nat)
    requires p < stop <= |s| && LinesSpan(s, p, stop)
    ensures var e := FindIn(s, p, stop, '\n');
            e < stop && LinesSpan(s, e + 1, stop) &&
            RecordsSpan(s, p, stop) == [RecordOf(s, LineOf(s, p, e))] + RecordsSpan(s, e + 1, stop)
  {
    var e := FindIn(s, p, stop, '\n');
    var ls := LinesOf(s, p, stop);
    assert ls[1..] == LinesOf(s, e + 1, stop);
  }

  /** What a scan finds at the start of a non-empty span: its first `;` (searched for with no
      bound but the end of the text), a value text right after it that ends at the line's
      newline (or before it, when not `exact`), and the rest of the span of the same kind. */
  lemma NextLine(s: seq<char>, p: nat, stop: nat, exact: bool)
    requires p < stop <= |s| && LinesSpan(s, p, stop) && ValuesSpan(s, p, stop, exact)
    ensures var e := FindIn(s, p, stop, '\n');
            var semi := FindIn(s, p, |s|, ';');
            p <= semi < e < stop && semi == FindIn(s, p, e, ';') && ValueAt(s, semi + 1) &&
            (if exact then ValueEnd(s, semi + 1) == e else ValueEnd(s, semi + 1) <= e) &&
            LinesSpan(s, e + 1, stop) && ValuesSpan(s, e + 1, stop, exact)
  {
    var e := FindIn(s, p, stop, '\n');
    FindInExtend(s, p, e, |s|, ';');
  }

  /** The record of a line with a `;` and a value text right after it. */
  lemma RecordOfLine(s: seq<char>, p: nat, e: nat)
    requires p <= e <= |s| && FindIn(s, p, e, ';') < e && ValueAt(s, FindIn(s, p, e, ';') + 1)
    ensures var semi := FindIn(s, p, e, ';');
            RecordOf(s, LineOf(s, p, e)) == Record(s[p..semi], ParseMeasurement(s, semi + 1))
  {
  }

  /** The key of a line is exactly its bytes from the start up to, and not including, its first `;`. */
  lemma KeyBeforeFirstSemicolon(s: seq<char>, p: nat, e: nat)
    requires p <= e <= |s| && FindIn(s, p, e, ';') < e
    ensures var j := FindIn(s, p, e, ';');
            var key := RecordOf(s, LineOf(s, p, e)).key;
            key == s[p..j] && s[j] == ';' && ';' !in key
  {
    var j := FindIn(s, p, e, ';');
    FindInFirst(s, p, e, ';');
    assert forall i :: 0 <= i < j - p ==> s[p..j][i] == s[p + i];
  }

  /** A non-empty text of lines holds at least one record. */
  lemma SomeRecord(s: seq<char>)
    requires LinesSpan(s, 0, |s|) && s != []
    ensures |RecordsSpan(s, 0, |s|)| > 0
  {
    FirstRecord(s, 0, |s|);
  }
}
