/** The per-station accumulator `Information`: minimum, maximum, sum and count of the
    measurements seen, with `INT64_MAX`/`INT64_MIN` as the minimum/maximum before any. */
module Stats {

  const Int64Max: int := 0x7FFF_FFFF_FFFF_FFFF
  const Int64Min: int := -0x8000_0000_0000_0000

  datatype Stats = Stats(min: int, max: int, sum: int, count: nat)

  /** A default-constructed accumulator: sentinel extremes, zero sum, zero count. */
  const Unset: Stats := Stats(Int64Max, Int64Min, 0, 0)

  function Min(a: int, b: int): int { if a <= b then a else b }
  function Max(a: int, b: int): int { if a >= b then a else b }

  /** One measurement folded in: count + 1, sum + v, min and max widened to cover `v`. */
  function Observe(st: Stats, v: int): (r: Stats)
    ensures r.count == st.count + 1
    ensures r.min <= v <= r.max && r.min <= st.min && st.max <= r.max
  {
    Stats(Min(st.min, v), Max(st.max, v), st.sum + v, st.count + 1)
  }

  /** Field-wise merge of two accumulators, as the merge loop does it. */
  function Combine(a: Stats, b: Stats): Stats
  {
    Stats(Min(a.min, b.min), Max(a.max, b.max), a.sum + b.sum, a.count + b.count)
  }

  /** The accumulator after folding in `vs` in order, starting from `Unset`. */
  function Summary(vs: seq<int>): Stats
  {
    if vs == [] then Unset else Observe(Summary(vs[..|vs| - 1]), vs[|vs| - 1])
  }

  /** One more measurement at the end is one more observation. */
  lemma SummarySnoc(vs: seq<int>, v: int)
    ensures Summary(vs + [v]) == Observe(Summary(vs), v)
  {
    assert (vs + [v])[..|vs|] == vs;
  }

  /** Reference sum of a sequence of measurements. */
  function Sum(vs: seq<int>): int
  {
    if vs == [] then 0 else vs[0] + Sum(vs[1..])
  }

  lemma {:induction false} SumAppend(vs: seq<int>, v: int)
    ensures Sum(vs + [v]) == Sum(vs) + v
  {
    if vs != [] {
      assert (vs + [v])[1..] == vs[1..] + [v];
      SumAppend(vs[1..], v);
    }
  }

  /** Every measurement fits an `int64_t`. */
  predicate InInt64(vs: seq<int>)
  {
    forall i :: 0 <= i < |vs| ==> Int64Min <= vs[i] <= Int64Max
  }

  /** The accumulator counts the measurements and sums them. */
  lemma {:induction false} SummaryTotals(vs: seq<int>)
    ensures Summary(vs).count == |vs| && Summary(vs).sum == Sum(vs)
  {
    if vs != [] {
      var init, v := vs[..|vs| - 1], vs[|vs| - 1];
      assert vs == init + [v];
      SummaryTotals(init);
      SumAppend(init, v);
    }
  }

  /** With no measurement the accumulator is still `Unset`; once there is one, its minimum and
      maximum are measurements, the least and the greatest. */
  lemma {:induction false} SummaryExtremes(vs: seq<int>)
    requires InInt64(vs)
    ensures vs == [] ==> Summary(vs) == Unset
    ensures vs != [] ==> Summary(vs).min in vs && Summary(vs).max in vs
    ensures forall i :: 0 <= i < |vs| ==> Summary(vs).min <= vs[i] <= Summary(vs).max
  {
    if vs != [] {
      var init, v := vs[..|vs| - 1], vs[|vs| - 1];
      assert vs == init + [v];
      assert InInt64(init) by { assert forall i :: 0 <= i < |init| ==> init[i] == vs[i]; }
      SummaryExtremes(init);
      SummarySnoc(init, v);
      var st, r := Summary(init), Summary(vs);
      assert vs[|vs| - 1] == v;
      if init == [] {
        assert r.min == v && r.max == v;
      } else {
        if r.min != v {
          var i :| 0 <= i < |init| && init[i] == st.min;
          assert vs[i] == r.min;
        }
        if r.max != v {
          var i :| 0 <= i < |init| && init[i] == st.max;
          assert vs[i] == r.max;
        }
      }
      forall i | 0 <= i < |vs| ensures r.min <= vs[i] <= r.max {
        if i < |init| { assert vs[i] == init[i]; }
      }
    }
  }

  /** The sentinels make the first measurement both the minimum and the maximum, and from then
      on `min <= max`. */
  lemma FirstObservation(st: Stats, v: int)
    requires Int64Min <= v <= Int64Max
    requires st == Unset || st.min <= st.max
    ensures st == Unset ==> Observe(st, v) == Stats(v, v, v, 1)
    ensures Observe(st, v).min <= Observe(st, v).max
  {
  }

  /** Folding in two runs of measurements one after the other equals combining their separate
      accumulators: the merge gives what one pass would. */
  lemma {:induction false} SummaryConcat(a: seq<int>, b: seq<int>)
    ensures Summary(a + b) == Combine(Summary(a), Summary(b))
  {
    if b == [] {
      assert a + b == a;
      assert Summary(a).min <= Int64Max && Summary(a).max >= Int64Min by { SummaryBounds(a); }
    } else {
      var init, v := b[..|b| - 1], b[|b| - 1];
      assert b == init + [v];
      assert a + b == (a + init) + [v];
      SummarySnoc(a + init, v);
      SummarySnoc(init, v);
      SummaryConcat(a, init);
    }
  }

  /** The minimum never exceeds its sentinel and the maximum never falls below its sentinel. */
  lemma {:induction false} SummaryBounds(vs: seq<int>)
    ensures Summary(vs).min <= Int64Max && Summary(vs).max >= Int64Min
  {
    if vs != [] {
      SummaryBounds(vs[..|vs| - 1]);
    }
  }

  /** The merge is commutative and associative, and `Unset` is its identity on accumulators. */
  lemma CombineLaws(a: Stats, b: Stats, c: Stats)
    requires a.min <= Int64Max && a.max >= Int64Min
    ensures Combine(a, b) == Combine(b, a)
    ensures Combine(Combine(a, b), c) == Combine(a, Combine(b, c))
    ensures Combine(Unset, a) == a && Combine(a, Unset) == a
  {
  }
}
