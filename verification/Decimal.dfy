/** Decimal digit strings, least significant digit first, and fixed-point values. */
module Decimal {

  function Pow10(n: nat): (p: nat)
    ensures p > 0
  {
    if n == 0 then 1 else 10 * Pow10(n - 1)
  }

  ghost predicate Digits(s: seq<int>) {
    forall i | 0 <= i < |s| :: 0 <= s[i] <= 9
  }

  ghost function Number(s: seq<int>): (n: nat)
    requires Digits(s)
  {
    if s == [] then 0 else s[0] + 10 * Number(s[1..])
  }

  function Zeros(n: nat): (s: seq<int>)
    ensures |s| == n && Digits(s)
  {
    seq(n, _ => 0)
  }

  // ---------------------------------------------------------------- arithmetic on variables

  lemma MulOrder(x: nat, y: nat, p: nat)
    requires x <= y
    ensures x * p <= y * p
  {}

  lemma MulCancel(x: int, y: int, p: nat)
    requires p > 0 && x * p == y * p
    ensures x == y
  {
    if x < y { MulStrict(x, y, p); }
    if x > y { MulStrict(y, x, p); }
  }

  lemma MulStrict(x: int, y: int, p: nat)
    requires x < y && p > 0
    ensures x * p < y * p
  {
    var e := y - x;
    MulOrder(1, e, p);
    assert y * p == (x + e) * p == x * p + e * p;
  }

  lemma {:induction false} Pow10Add(m: nat, n: nat)
    ensures Pow10(m + n) == Pow10(m) * Pow10(n)
  {
    if m > 0 {
      Pow10Add(m - 1, n);
      Triple(10, Pow10(m - 1), Pow10(n));
    }
  }

  lemma Triple(a: int, b: int, c: int)
    ensures (a * b) * c == a * (b * c)
  {}

  lemma {:induction false} Pow10Order(m: nat, n: nat)
    requires m <= n
    ensures Pow10(m) <= Pow10(n)
  {
    if m < n { Pow10Order(m, n - 1); }
  }

  // ---------------------------------------------------------------- numbers

  lemma {:induction false} NumberBound(s: seq<int>)
    requires Digits(s)
    ensures Number(s) < Pow10(|s|)
  {
    if s != [] { NumberBound(s[1..]); }
  }

  lemma {:induction false} NumberConcat(s: seq<int>, t: seq<int>)
    requires Digits(s) && Digits(t)
    ensures Digits(s + t) && Number(s + t) == Number(s) + Pow10(|s|) * Number(t)
  {
    if s == [] {
      assert s + t == t;
    } else {
      assert (s + t)[1..] == s[1..] + t;
      NumberConcat(s[1..], t);
      Triple(10, Pow10(|s| - 1), Number(t));
    }
  }

  lemma NumberAppend(s: seq<int>, d: int)
    requires Digits(s) && 0 <= d <= 9
    ensures Digits(s + [d]) && Number(s + [d]) == Number(s) + d * Pow10(|s|)
  {
    hide Pow10, Number;
    NumberConcat(s, [d]);
    OneDigit(d);
  }

  lemma OneDigit(d: int)
    requires 0 <= d <= 9
    ensures Digits([d]) && Number([d]) == d
  {
    assert [d][1..] == [];
  }

  lemma {:induction false} NumberZeros(n: nat)
    ensures Number(Zeros(n)) == 0
  {
    if n > 0 {
      assert Zeros(n)[1..] == Zeros(n - 1);
      NumberZeros(n - 1);
    }
  }

  lemma NumberShift(s: seq<int>, k: nat)
    requires Digits(s)
    ensures Digits(Zeros(k) + s) && Number(Zeros(k) + s) == Number(s) * Pow10(k)
  {
    NumberConcat(Zeros(k), s);
    NumberZeros(k);
  }

  lemma NumberPad(s: seq<int>, k: nat)
    requires Digits(s)
    ensures Digits(s + Zeros(k)) && Number(s + Zeros(k)) == Number(s)
  {
    NumberConcat(s, Zeros(k));
    NumberZeros(k);
  }

  /** A digit string without leading zero is as long as its number demands. */
  lemma NumberLength(s: seq<int>, n: nat)
    requires Digits(s) && |s| > 0 && s[|s| - 1] != 0 && Number(s) < Pow10(n)
    ensures |s| <= n
  {
    hide Pow10, Number;
    if |s| > n {
      Pow10Order(n, |s| - 1);
      NumberAtLeast(s);
    }
  }

  lemma NumberAtLeast(s: seq<int>)
    requires Digits(s) && |s| > 0 && s[|s| - 1] != 0
    ensures Number(s) >= Pow10(|s| - 1)
  {
    hide Pow10, Number;
    var front, d := s[..|s| - 1], s[|s| - 1];
    assert s == front + [d];
    NumberAppend(front, d);
    MulOrder(1, d, Pow10(|front|));
  }

  // ---------------------------------------------------------------- fixed-point values

  ghost function Frac(m: int, p: nat): real {
    m as real / Pow10(p) as real
  }

  lemma RealDivide(x: real, y: real, k: real)
    requires y > 0.0 && k > 0.0 && y * k > 0.0
    ensures x / y == (x * k) / (y * k)
  {
    var q := x / y;
    assert q * y == x;
    assert q * (y * k) == x * k;
  }

  lemma FracScale(m: int, k: nat, p: nat)
    ensures Frac(m * Pow10(k), p + k) == Frac(m, p)
  {
    hide Pow10;
    Pow10Add(p, k);
    RealScale(m, Pow10(p), Pow10(k));
  }

  lemma RealScale(m: int, p: nat, k: nat)
    requires p > 0 && k > 0
    ensures p * k > 0 && (m * k) as real / (p * k) as real == m as real / p as real
  {
    RealProduct(m, k);
    RealProduct(p, k);
    MulStrict(0, p, k);
    RealDivide(m as real, p as real, k as real);
  }

  lemma RealProduct(a: int, b: int)
    ensures (a * b) as real == a as real * b as real
  {}

  lemma FracAdd(m: int, n: int, p: nat)
    ensures Frac(m + n, p) == Frac(m, p) + Frac(n, p)
  {
    RealSum(m as real, n as real, Pow10(p) as real);
  }

  lemma RealSum(x: real, y: real, p: real)
    requires p > 0.0
    ensures (x + y) / p == x / p + y / p
  {}

  lemma FracNegate(m: int, p: nat)
    ensures Frac(-m, p) == -Frac(m, p)
  {
    FracAdd(m, -m, p);
    assert Frac(0, p) == 0.0;
  }

  lemma FracMul(m: int, p: nat, n: int, q: nat)
    ensures Frac(m * n, p + q) == Frac(m, p) * Frac(n, q)
  {
    hide Pow10;
    Pow10Add(p, q);
    RealProduct(m, n);
    RealProduct(Pow10(p), Pow10(q));
    RealQuotients(m as real, Pow10(p) as real, n as real, Pow10(q) as real);
  }

  lemma RealQuotients(a: real, p: real, b: real, q: real)
    requires p > 0.0 && q > 0.0
    ensures (a * b) / (p * q) == (a / p) * (b / q)
  {
    var x, y := a / p, b / q;
    assert x * p == a && y * q == b;
    assert (x * y) * (p * q) == (x * p) * (y * q);
    assert p * q > 0.0;
  }

  lemma FracOrder(m: int, n: int, p: nat)
    ensures m < n <==> Frac(m, p) < Frac(n, p)
    ensures m == n <==> Frac(m, p) == Frac(n, p)
  {
    var P := Pow10(p) as real;
    assert Frac(m, p) * P == m as real && Frac(n, p) * P == n as real;
    RealOrder(Frac(m, p), Frac(n, p), P);
  }

  lemma RealOrder(x: real, y: real, p: real)
    requires p > 0.0
    ensures x < y <==> x * p < y * p
  {
    if x < y { assert (y - x) * p > 0.0; }
    if x > y { assert (x - y) * p > 0.0; }
  }
}
