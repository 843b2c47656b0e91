/** Measurement text `-?D.D` or `-?DD.D`, decoded into an integer number of
    tenths without floating point, and the fixed-point text the reporter prints. */
module FixedPoint {

  predicate IsDigit(c: char) { '0' <= c <= '9' }

  /** `c - '0'`, computed for any character, as the source does. */
  function DigitValue(c: char): int { c as int - '0' as int }

  /** Base-10 value of the characters `s[i..j]`, folded left to right as `r * 10 + digit`. */
  function DigitsIn(s: seq<char>, i: nat, j: nat): int
    requires i <= j <= |s|
    decreases j - i
  {
    if i == j then 0 else DigitsIn(s, i, j - 1) * 10 + DigitValue(s[j - 1])
  }

  /** Base-10 value of a whole character string. */
  function DigitsValue(ds: seq<char>): int
  {
    DigitsIn(ds, 0, |ds|)
  }

  /** The fold sees only the characters it folds: equal runs have equal values. */
  lemma {:induction false} DigitsInSame(s: seq<char>, i: nat, j: nat, t: seq<char>, k: nat)
    requires i <= j <= |s| && k + (j - i) <= |t|
    requires forall x :: i <= x < j ==> s[x] == t[k + (x - i)]
    ensures DigitsIn(s, i, j) == DigitsIn(t, k, k + (j - i))
    decreases j - i
  {
    if i < j {
      DigitsInSame(s, i, j - 1, t, k);
    }
  }

  function Abs(x: int): nat { if x < 0 then -x else x }

  /** Index of the first digit of the value text that starts at `i` (after an optional `-`). */
  function DigitsStart(s: seq<char>, i: nat): nat
    requires i < |s|
  {
    if s[i] == '-' then i + 1 else i
  }

  /** `D.D` at position `j`. */
  predicate ShortAt(s: seq<char>, j: nat)
  {
    j + 3 <= |s| && IsDigit(s[j]) && s[j + 1] == '.' && IsDigit(s[j + 2])
  }

  /** `DD.D` at position `j`. */
  predicate LongAt(s: seq<char>, j: nat)
  {
    j + 4 <= |s| && IsDigit(s[j]) && IsDigit(s[j + 1]) && s[j + 2] == '.' && IsDigit(s[j + 3])
  }

  /** A value text `-?\d{1,2}\.\d` starts at position `i` of `s`. */
  predicate ValueAt(s: seq<char>, i: nat)
  {
    i < |s| && (ShortAt(s, DigitsStart(s, i)) || LongAt(s, DigitsStart(s, i)))
  }

  /** One past the fractional digit of the value text starting at `i`. */
  function ValueEnd(s: seq<char>, i: nat): (e: nat)
    requires ValueAt(s, i)
    ensures i + 3 <= e <= i + 5 && e <= |s| && IsDigit(s[e - 1]) && s[e - 2] == '.'
  {
    var j := DigitsStart(s, i);
    if ShortAt(s, j) then j + 3 else j + 4
  }

  /** The whole of `t` is one value text. */
  predicate ValidValueText(t: seq<char>)
  {
    ValueAt(t, 0) && ValueEnd(t, 0) == |t|
  }

  /** Meaning of the value text `s[i..e]` in tenths: its sign, the digits before the point
      times ten, plus the digit after it. Only a text with `ValueAt(s, i)` ending at
      `ValueEnd(s, i)` is given a meaning by the format; on any other text this is some integer. */
  function ValueIn(s: seq<char>, i: nat, e: nat): int
    requires i <= e <= |s|
  {
    var neg := i < e && s[i] == '-';
    var start := if neg then i + 1 else i;
    if e - start < 2 then 0
    else
      var mag := DigitsIn(s, start, e - 2) * 10 + DigitValue(s[e - 1]);
      if neg then -mag else mag
  }

  /** Meaning of a whole value text in tenths. */
  function ValueOf(t: seq<char>): int
  {
    ValueIn(t, 0, |t|)
  }

  /** The digit formulas of the format: `D.D` is 10*d1+d2 and `DD.D` is 100*d1+10*d2+d3, negated after `-`. */
  lemma ValueDigits(s: seq<char>, i: nat)
    requires ValueAt(s, i)
    ensures var j := DigitsStart(s, i);
            var mag := if ShortAt(s, j) then 10 * DigitValue(s[j]) + DigitValue(s[j + 2])
                       else 100 * DigitValue(s[j]) + 10 * DigitValue(s[j + 1]) + DigitValue(s[j + 3]);
            ValueIn(s, i, ValueEnd(s, i)) == if s[i] == '-' then -mag else mag
    ensures -999 <= ValueIn(s, i, ValueEnd(s, i)) <= 999
  {
    var j := DigitsStart(s, i);
    assert DigitsIn(s, j, j) == 0;
    assert DigitsIn(s, j, j + 1) == DigitValue(s[j]);
    if !ShortAt(s, j) {
      assert DigitsIn(s, j, j + 2) == 10 * DigitValue(s[j]) + DigitValue(s[j + 1]);
    }
  }

  /** parse_measurement: reads the digits at their fixed positions, skipping the decimal point. */
  function ParseMeasurement(s: seq<char>, i: nat): (r: int)
    requires ValueAt(s, i)
    ensures r == ValueIn(s, i, ValueEnd(s, i))
    ensures -999 <= r <= 999
  {
    var sign := if s[i] == '-' then -1 else 1;
    var j := DigitsStart(s, i);
    var tens := DigitValue(s[j]) * 10;
    var (whole, frac) := if s[j + 1] != '.' then ((tens + DigitValue(s[j + 1])) * 10, j + 3) else (tens, j + 2);
    ValueDigits(s, i);
    (whole + DigitValue(s[frac])) * sign
  }

  /** The character for digit `d`. */
  function DigitChar(d: nat): (c: char)
    requires d < 10
    ensures IsDigit(c) && DigitValue(c) == d
  {
    ('0' as int + d) as char
  }

  lemma DigitCharOfValue(c: char)
    requires IsDigit(c)
    ensures DigitChar(DigitValue(c) as nat) == c
  {
  }

  /** Decimal text of a non-negative integer, as `operator<<` writes it. */
  function NatText(n: nat): (t: seq<char>)
    ensures |t| > 0 && forall i :: 0 <= i < |t| ==> IsDigit(t[i])
    ensures DigitsValue(t) == n
    ensures t[0] == '0' ==> n == 0 && |t| == 1
  {
    if n < 10 then
      assert DigitsIn([DigitChar(n)], 0, 0) == 0;
      [DigitChar(n)]
    else
      var a := NatText(n / 10);
      var t := a + [DigitChar(n % 10)];
      DigitsInSame(a, 0, |a|, t, 0);
      t
  }

  /** print_fixed: an optional `-`, then `n / 10`, a point and `n % 10`. */
  function FixedText(neg: bool, n: nat): seq<char>
  {
    (if neg then "-" else "") + NatText(n / 10) + "." + [DigitChar(n % 10)]
  }

  /** How a minimum or maximum is printed: `print_fixed(v < 0, abs(v))`. */
  function ValueText(v: int): seq<char>
  {
    FixedText(v < 0, Abs(v))
  }

  /** Printing a decoded value yields text in the format, and decoding it gives the value back. */
  lemma RenderThenDecode(v: int)
    requires -999 <= v <= 999
    ensures ValidValueText(ValueText(v)) && ValueOf(ValueText(v)) == v
  {
    var n := Abs(v);
    var ip := NatText(n / 10);
    var sign: seq<char> := if v < 0 then ['-'] else [];
    var t := ValueText(v);
    RenderedShape(v);
    assert ValidValueText(t);
    DigitsInSame(ip, 0, |ip|, t, |sign|);
  }

  /** The printed value: the sign, one or two digits, the point and the fractional digit. */
  lemma RenderedShape(v: int)
    requires -999 <= v <= 999
    ensures var n := Abs(v);
            var sign: seq<char> := if v < 0 then ['-'] else [];
            ValueText(v) == sign + NatText(n / 10) + ['.', DigitChar(n % 10)] &&
            |NatText(n / 10)| == (if n / 10 >= 10 then 2 else 1)
  {
    var n := Abs(v);
    if n / 10 >= 10 {
      assert NatText(n / 10 / 10) == [DigitChar(n / 100)];
    }
  }

  /** A value text as the reporter would print it: no leading zero and no negative zero. */
  predicate Canonical(t: seq<char>)
    requires ValidValueText(t)
  {
    (LongAt(t, DigitsStart(t, 0)) ==> t[DigitsStart(t, 0)] != '0') && (t[0] == '-' ==> ValueOf(t) != 0)
  }

  /** Decoding a canonical value text and printing the value reproduces the text. */
  lemma DecodeThenRender(t: seq<char>)
    requires ValidValueText(t) && Canonical(t)
    ensures ValueText(ValueOf(t)) == t
  {
    var j := DigitsStart(t, 0);
    var v := ValueOf(t);
    ValueDigits(t, 0);
    var n := Abs(v);
    if ShortAt(t, j) {
      ShortRender(t, j, n);
    } else {
      LongRender(t, j, n);
    }
    assert (v < 0) == (t[0] == '-');
    if t[0] == '-' { assert t == ['-'] + t[j..]; } else { assert t == t[j..]; }
  }

  /** The magnitude `D.D` printed back: one digit, the point, the fractional digit. */
  lemma ShortRender(t: seq<char>, j: nat, n: nat)
    requires ShortAt(t, j) && j + 3 == |t| && n == 10 * DigitValue(t[j]) + DigitValue(t[j + 2])
    ensures NatText(n / 10) + "." + [DigitChar(n % 10)] == t[j..]
  {
    assert n / 10 == DigitValue(t[j]) && n % 10 == DigitValue(t[j + 2]);
    DigitCharOfValue(t[j]);
    DigitCharOfValue(t[j + 2]);
    assert NatText(n / 10) == [t[j]];
    assert t[j..] == [t[j], '.', t[j + 2]];
  }

  /** The magnitude `DD.D` with no leading zero printed back: two digits, the point, the
      fractional digit. */
  lemma LongRender(t: seq<char>, j: nat, n: nat)
    requires LongAt(t, j) && j + 4 == |t| && t[j] != '0'
    requires n == 100 * DigitValue(t[j]) + 10 * DigitValue(t[j + 1]) + DigitValue(t[j + 3])
    ensures NatText(n / 10) + "." + [DigitChar(n % 10)] == t[j..]
  {
    assert n / 10 == 10 * DigitValue(t[j]) + DigitValue(t[j + 1]) && n % 10 == DigitValue(t[j + 3]);
    assert n / 10 >= 10;
    assert n / 10 / 10 == DigitValue(t[j]) && n / 10 % 10 == DigitValue(t[j + 1]);
    DigitCharOfValue(t[j]);
    DigitCharOfValue(t[j + 1]);
    DigitCharOfValue(t[j + 3]);
    assert NatText(n / 10) == [t[j], t[j + 1]];
    assert t[j..] == [t[j], t[j + 1], '.', t[j + 3]];
  }

  /** Round half up of `a / (10 * c)`, computed as the source does: `(a / c + 5) / 10`. */
  lemma RoundHalfUp(a: nat, c: nat)
    requires c > 0
    ensures var m := (a / c + 5) / 10;
            20 * c * m <= 2 * a + 10 * c < 20 * c * (m + 1)
  {
    var q := a / c;
    var m := (q + 5) / 10;
    assert q * c <= a < (q + 1) * c by { assert a == q * c + a % c; }
    assert 10 * m <= q + 5 < 10 * m + 10;
    MulMonotone(10 * m, q + 5, c);
    MulMonotone(q + 6, 10 * m + 10, c);
    assert 20 * c * m == 2 * ((10 * m) * c);
    assert 20 * c * (m + 1) == 2 * ((10 * m + 10) * c);
    assert 2 * ((q + 5) * c) == 2 * (q * c) + 10 * c;
    assert 2 * ((q + 6) * c) == 2 * ((q + 1) * c) + 10 * c;
  }

  lemma MulMonotone(x: int, y: int, c: nat)
    requires x <= y
    ensures x * c <= y * c
  {
    assert y * c - x * c == (y - x) * c;
  }

  /** The mean in tenths printed by `Information::print`: `((|sum| * 10) / count + 5) / 10`,
      which is `|sum| / count` rounded half up to a whole number of tenths. */
  function MeanTenths(sum: int, count: nat): (m: nat)
    requires count > 0
    ensures 2 * count * m <= 2 * Abs(sum) + count < 2 * count * (m + 1)
  {
    var m := ((Abs(sum) * 10) / count + 5) / 10;
    TenthsBound(Abs(sum), count, m);
    m
  }

  /** `((a * 10) / c + 5) / 10` is `a / c` rounded half up. */
  lemma TenthsBound(a: nat, c: nat, m: nat)
    requires c > 0 && m == ((a * 10) / c + 5) / 10
    ensures 2 * c * m <= 2 * a + c < 2 * c * (m + 1)
  {
    RoundHalfUp(a * 10, c);
    assert 20 * c * m == 10 * (2 * c * m);
    assert 20 * c * (m + 1) == 10 * (2 * c * (m + 1));
    assert 2 * (a * 10) + 10 * c == 10 * (2 * a + c);
  }

  /** The mean in tenths printed by the two-decimal variant from a sum in hundredths:
      `(|sum| / count + 5) / 10`, which is `|sum| / (10 * count)` rounded half up. */
  function MeanHundredths(sum: int, count: nat): (m: nat)
    requires count > 0
    ensures 20 * count * m <= 2 * Abs(sum) + 10 * count < 20 * count * (m + 1)
  {
    RoundHalfUp(Abs(sum), count);
    (Abs(sum) / count + 5) / 10
  }

  /** Both variants print the same mean for the same measurements. */
  lemma {:induction false} MeansAgree(sum: int, count: nat)
    requires count > 0
    ensures MeanHundredths(10 * sum, count) == MeanTenths(sum, count)
  {
    assert Abs(10 * sum) == Abs(sum) * 10;
  }
}
