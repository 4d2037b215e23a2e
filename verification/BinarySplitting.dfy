/** Binary splitting over bignums (`calculateLoop`, `bsP`, `bsQ`, `calculateT`). */
module BinarySplitting {
  import opened Decimal
  import opened Bignums

  /** The function handed to `calculateLoop`. */
  datatype Factor = P | Q

  ghost function FactorOf(f: Factor, v: real): real {
    if f.P? then 2.0 * v - 1.0 else 4.0 * v
  }

  /** The product of the factors of `v[i..j)`. */
  ghost function Prod(f: Factor, v: seq<real>, i: nat, j: nat): real
    requires i <= j <= |v|
  {
    if i == j then 1.0 else Prod(f, v, i, j - 1) * FactorOf(f, v[j - 1])
  }

  /** The terms `k`, `k + 1`, … of the sum: P over what comes first, Q over the rest. */
  ghost function Terms(v: seq<real>, start: nat, k: nat, end: nat): real
    requires start <= k <= end <= |v|
    decreases end - k
  {
    if k == end then 0.0 else Prod(P, v, start, k + 1) * Prod(Q, v, k + 1, end) + Terms(v, start, k + 1, end)
  }

  ghost function T(v: seq<real>, start: nat, end: nat): real
    requires start <= end <= |v|
  {
    Terms(v, start, start, end)
  }

  // ---------------------------------------------------------------- algebra

  lemma {:induction false} ProdSplit(f: Factor, v: seq<real>, i: nat, m: nat, j: nat)
    requires i <= m <= j <= |v|
    ensures Prod(f, v, i, j) == Prod(f, v, i, m) * Prod(f, v, m, j)
    decreases j - m
  {
    if m < j {
      ProdSplit(f, v, i, m, j - 1);
      RealAssoc(Prod(f, v, i, m), Prod(f, v, m, j - 1), FactorOf(f, v[j - 1]));
    }
  }

  lemma RealAssoc(x: real, y: real, z: real)
    ensures (x * y) * z == x * (y * z)
  {}

  lemma RealDistribute(x: real, y: real, z: real)
    ensures x * (y + z) == x * y + x * z
  {}

  lemma RealCommute(x: real, y: real)
    ensures x * y == y * x
  {}

  /** The terms before the split carry all of the right half's Q. */
  lemma {:induction false} TermsBefore(v: seq<real>, start: nat, k: nat, m: nat, end: nat)
    requires start <= k <= m <= end <= |v|
    ensures Terms(v, start, k, end) == Prod(Q, v, m, end) * Terms(v, start, k, m) + Terms(v, start, m, end)
    decreases m - k
  {
    if k < m {
      TermsBefore(v, start, k + 1, m, end);
      ProdSplit(Q, v, k + 1, m, end);
      var p, q, r := Prod(P, v, start, k + 1), Prod(Q, v, k + 1, m), Prod(Q, v, m, end);
      RealAssoc(p, q, r);
      RealCommute(p * q, r);
      RealDistribute(r, p * q, Terms(v, start, k + 1, m));
    }
  }

  /** The terms from the split on carry all of the left half's P. */
  lemma {:induction false} TermsBehind(v: seq<real>, start: nat, m: nat, k: nat, end: nat)
    requires start <= m <= k <= end <= |v|
    ensures Terms(v, start, k, end) == Prod(P, v, start, m) * Terms(v, m, k, end)
    decreases end - k
  {
    if k < end {
      TermsBehind(v, start, m, k + 1, end);
      ProdSplit(P, v, start, m, k + 1);
      var l, p, q := Prod(P, v, start, m), Prod(P, v, m, k + 1), Prod(Q, v, k + 1, end);
      RealAssoc(l, p, q);
      RealDistribute(l, p * q, Terms(v, m, k + 1, end));
    }
  }

  /** Where the range is split makes no difference. */
  lemma TSplit(v: seq<real>, start: nat, m: nat, end: nat)
    requires start <= m <= end <= |v|
    ensures T(v, start, end) == Prod(Q, v, m, end) * T(v, start, m) + Prod(P, v, start, m) * T(v, m, end)
  {
    hide Terms, Prod;
    TermsBefore(v, start, start, m, end);
    TermsBehind(v, start, m, m, end);
  }

  lemma TOne(v: seq<real>, i: nat)
    requires i < |v|
    ensures T(v, i, i + 1) == FactorOf(P, v[i])
  {
    assert Terms(v, i, i + 1, i + 1) == 0.0;
    assert Prod(P, v, i, i) == 1.0 && Prod(Q, v, i + 1, i + 1) == 1.0;
    assert Prod(P, v, i, i + 1) == 1.0 * FactorOf(P, v[i]);
  }

  // ---------------------------------------------------------------- the series behind the sum

  /** The product of (2x - 1) / 4x over `v[start..k)`. */
  ghost function Ratio(v: seq<real>, start: nat, k: nat): real
    requires start <= k <= |v| && forall i | start <= i < k :: v[i] != 0.0
  {
    if start == k then 1.0 else Ratio(v, start, k - 1) * ((2.0 * v[k - 1] - 1.0) / (4.0 * v[k - 1]))
  }

  /** The sum of those products, each one factor longer than the one before. */
  ghost function Series(v: seq<real>, start: nat, k: nat, end: nat): real
    requires start <= k <= end <= |v| && forall i | start <= i < end :: v[i] != 0.0
    decreases end - k
  {
    if k == end then 0.0 else Ratio(v, start, k + 1) + Series(v, start, k + 1, end)
  }

  /** What binary splitting is for: `T` over the product of all 4x is the series. */
  lemma TIsSeries(v: seq<real>, start: nat, end: nat)
    requires start <= end <= |v| && forall i | start <= i < end :: v[i] != 0.0
    ensures T(v, start, end) == Prod(Q, v, start, end) * Series(v, start, start, end)
  {
    hide Terms, Series;
    TermsAreSeries(v, start, start, end);
  }

  lemma {:induction false} TermsAreSeries(v: seq<real>, start: nat, k: nat, end: nat)
    requires start <= k <= end <= |v| && forall i | start <= i < end :: v[i] != 0.0
    ensures Terms(v, start, k, end) == Prod(Q, v, start, end) * Series(v, start, k, end)
    decreases end - k
  {
    hide Prod, Ratio;
    if k < end {
      TermsAreSeries(v, start, k + 1, end);
      RatioIs(v, start, k + 1);
      ProdSplit(Q, v, start, k + 1, end);
      var r, q, s := Ratio(v, start, k + 1), Prod(Q, v, start, k + 1), Prod(Q, v, k + 1, end);
      RealAssoc(r, q, s);
      RealCommute(r, q * s);
      RealDistribute(q * s, r, Series(v, start, k + 1, end));
    }
  }

  lemma {:induction false} RatioIs(v: seq<real>, start: nat, k: nat)
    requires start <= k <= |v| && forall i | start <= i < k :: v[i] != 0.0
    ensures Prod(P, v, start, k) == Ratio(v, start, k) * Prod(Q, v, start, k)
    decreases k
  {
    if start < k {
      RatioIs(v, start, k - 1);
      var x := v[k - 1];
      Cancelled(Ratio(v, start, k - 1), Prod(Q, v, start, k - 1), 2.0 * x - 1.0, 4.0 * x);
    }
  }

  lemma Cancelled(r: real, q: real, a: real, b: real)
    requires b != 0.0
    ensures (r * q) * a == (r * (a / b)) * (q * b)
  {
    var x := a / b;
    assert x * b == a;
    assert (r * x) * (q * b) == (r * q) * (x * b) by { Regroup(r, x, q, b); }
  }

  lemma Regroup(r: real, x: real, q: real, b: real)
    ensures (r * x) * (q * b) == (r * q) * (x * b)
  {}

  // ---------------------------------------------------------------- what the program computes, on values

  ghost function Magnitude(x: real): (m: real)
    ensures m >= 0.0
  {
    if x < 0.0 then -x else x
  }

  /** A whole number of one digit. */
  ghost predicate Short(x: real) {
    -9.0 <= x <= 9.0 && x == x.Floor as real
  }

  /** What `MulBignum` gives for two numbers without superfluous zeros. */
  ghost function Mul(x: real, y: real): real {
    if Short(x) && Short(y) then Magnitude(x) * Magnitude(y) else x * y
  }

  /** The factor made from an input: its sign is not seen when it is stored in one digit. */
  ghost function FactorRun(f: Factor, x: real, single: bool): real {
    FactorOf(f, if single then Magnitude(x) else x)
  }

  /** After use an input has one digit if and only if its number is short. */
  ghost function Touch(singles: set<Bignum>, b: Bignum, x: real): set<Bignum> {
    if Short(x) then singles + {b} else singles
  }

  /** The inputs from `i` to `j` that have one digit after use, when their superfluous zeros are gone. */
  ghost function Used(bs: seq<Bignum>, v: seq<real>, i: nat, j: nat): set<Bignum>
    requires i <= j <= |bs| == |v|
  {
    set k | i <= k < j && Short(v[k]) :: bs[k]
  }

  /** `CalculateLoop` on values. `singles` are the inputs stored in one digit at the start. */
  ghost function LoopRun(f: Factor, bs: seq<Bignum>, v: seq<real>, singles: set<Bignum>, i: nat, j: nat): real
    requires i <= j <= |bs| == |v|
    decreases j - i
  {
    if i == j then 1.0
    else Mul(LoopRun(f, bs, v, singles, i, j - 1), FactorRun(f, v[j - 1], bs[j - 1] in singles + Used(bs, v, i, j - 1)))
  }

  /** `CalculateT` on values, operands from left to right. */
  ghost function TRun(bs: seq<Bignum>, v: seq<real>, singles: set<Bignum>, start: nat, end: nat): real
    requires start < end <= |bs| == |v|
    decreases end - start
  {
    if start == end - 1 then FactorRun(P, v[start], bs[start] in singles)
    else
      var m := (end + start) / 2;
      var all := singles + Used(bs, v, start, end);
      Mul(LoopRun(Q, bs, v, singles, m, end), TRun(bs, v, singles + Used(bs, v, m, end), start, m))
      + Mul(LoopRun(P, bs, v, all, start, m), TRun(bs, v, all, m, end))
  }

  lemma UsedNext(bs: seq<Bignum>, v: seq<real>, i: nat, j: nat)
    requires i <= j < |bs| == |v|
    ensures Used(bs, v, i, j + 1) == Used(bs, v, i, j) + (if Short(v[j]) then {bs[j]} else {})
  {
    hide Short;
    var a, b := Used(bs, v, i, j + 1), Used(bs, v, i, j) + (if Short(v[j]) then {bs[j]} else {});
    forall o | o in b ensures o in a {}
    forall o | o in a ensures o in b {}
  }

  lemma UsedSplit(bs: seq<Bignum>, v: seq<real>, i: nat, m: nat, j: nat)
    requires i <= m <= j <= |bs| == |v|
    ensures Used(bs, v, i, j) == Used(bs, v, i, m) + Used(bs, v, m, j)
  {
    hide Short;
    var a, b := Used(bs, v, i, j), Used(bs, v, i, m) + Used(bs, v, m, j);
    forall o | o in b ensures o in a {}
    forall o | o in a ensures o in b {}
  }

  // ---------------------------------------------------------------- when that is the product

  ghost function Signed(negative: bool, x: real): real {
    if negative then -x else x
  }

  /** Two one-digit numbers of different sign: the sign of the product is lost. */
  ghost predicate Loses(x: real, y: real) {
    Short(x) && Short(y) && x * y < 0.0
  }

  lemma MulIs(x: real, y: real)
    ensures Mul(x, y) == Signed(Loses(x, y), x * y)
  {
    SignsOfProduct(x, y);
  }

  lemma SignsOfProduct(x: real, y: real)
    ensures Magnitude(x) * Magnitude(y) == Magnitude(x * y)
  {
    if x < 0.0 { assert (-x) * y == -(x * y); }
    if y < 0.0 { assert x * (-y) == -(x * y); }
    RealNonNegative(Magnitude(x), Magnitude(y));
  }

  lemma RealNonNegative(x: real, y: real)
    requires x >= 0.0 && y >= 0.0
    ensures x * y >= 0.0
  {}

  /** A negative input that is stored in one digit when its turn comes. */
  ghost predicate Misread(bs: seq<Bignum>, v: seq<real>, singles: set<Bignum>, i: nat, k: nat)
    requires i <= k < |bs| == |v|
  {
    v[k] < 0.0 && bs[k] in singles + Used(bs, v, i, k)
  }

  ghost predicate AnyMisread(bs: seq<Bignum>, v: seq<real>, singles: set<Bignum>, i: nat, j: nat)
    requires i <= j <= |bs| == |v|
  {
    exists k :: i <= k < j && Misread(bs, v, singles, i, k)
  }

  /** Behind the last step whose product so far and factor are both short: there the sign of the loop starts afresh. */
  ghost function Restart(f: Factor, v: seq<real>, i: nat, j: nat): (m: nat)
    requires i <= j <= |v|
    ensures i <= m <= j
    decreases j - i
  {
    if i == j then i
    else if Short(Prod(f, v, i, j - 1)) && Short(FactorOf(f, v[j - 1])) then j
    else Restart(f, v, i, j - 1)
  }

  ghost function Negatives(f: Factor, v: seq<real>, i: nat, j: nat): nat
    requires i <= j <= |v|
    decreases j - i
  {
    if i == j then 0 else Negatives(f, v, i, j - 1) + if FactorOf(f, v[j - 1]) < 0.0 then 1 else 0
  }

  /** How many inputs from `m` to `j` are misread in a loop that starts at `i`. */
  ghost function Misreads(bs: seq<Bignum>, v: seq<real>, singles: set<Bignum>, i: nat, m: nat, j: nat): nat
    requires i <= m <= j <= |bs| == |v|
    decreases j - m
  {
    if m == j then 0 else Misreads(bs, v, singles, i, m, j - 1) + if Misread(bs, v, singles, i, j - 1) then 1 else 0
  }

  /** The signs the loop loses: those of all factors before it starts afresh, and of misread inputs behind. */
  ghost function LostSigns(f: Factor, bs: seq<Bignum>, v: seq<real>, singles: set<Bignum>, i: nat, j: nat): nat
    requires i <= j <= |bs| == |v|
  {
    Negatives(f, v, i, Restart(f, v, i, j)) + Misreads(bs, v, singles, i, Restart(f, v, i, j), j)
  }

  /** Only short numbers are stored in one digit. */
  ghost predicate SinglesShort(bs: seq<Bignum>, v: seq<real>, singles: set<Bignum>)
    requires |bs| == |v|
  {
    forall k | 0 <= k < |bs| && bs[k] in singles :: Short(v[k])
  }

  /** The loop gives the product: no P factor is made from a misread input, and signs are lost in pairs; or the product
      is zero. This is about the inputs and how they are stored, not about the run. */
  ghost predicate LoopKeeps(f: Factor, bs: seq<Bignum>, v: seq<real>, singles: set<Bignum>, i: nat, j: nat)
    requires i <= j <= |bs| == |v|
  {
    Prod(f, v, i, j) == 0.0 || (!(f.P? && AnyMisread(bs, v, singles, i, j))
        && LostSigns(f, bs, v, singles, i, j) % 2 == 0)
  }

  lemma QFactor(x: real, single: bool)
    ensures FactorRun(Q, x, single) == Signed(single && x < 0.0, FactorOf(Q, x))
  {}

  lemma PFactor(x: real, single: bool)
    requires single ==> Short(x)
    ensures !(single && x < 0.0) ==> FactorRun(P, x, single) == FactorOf(P, x)
    ensures single && x < 0.0 ==> 0.0 < Magnitude(FactorRun(P, x, single)) < Magnitude(FactorOf(P, x))
  {}

  lemma ShortSigned(negative: bool, x: real)
    ensures Short(Signed(negative, x)) <==> Short(x)
  {
    if Short(x) { ShortNegated(x); }
    if Short(-x) { ShortNegated(-x); }
  }

  lemma ShortNegated(x: real)
    requires Short(x)
    ensures Short(-x)
  {
    NegateWhole(x.Floor);
  }

  /** A product that is not zero is negative when an odd number of its factors is. */
  lemma {:induction false} ProdSign(f: Factor, v: seq<real>, i: nat, j: nat)
    requires i <= j <= |v| && Prod(f, v, i, j) != 0.0
    ensures Prod(f, v, i, j) < 0.0 <==> Negatives(f, v, i, j) % 2 == 1
    decreases j - i
  {
    hide FactorOf;
    if i < j {
      var x, y := Prod(f, v, i, j - 1), FactorOf(f, v[j - 1]);
      ZeroTimes(x, y);
      ProdSign(f, v, i, j - 1);
      SignOfProduct(x, y);
    }
  }

  lemma ZeroTimes(x: real, y: real)
    ensures x == 0.0 || y == 0.0 ==> x * y == 0.0
  {}

  lemma SignOfProduct(x: real, y: real)
    requires x != 0.0 && y != 0.0
    ensures x * y < 0.0 <==> (x < 0.0) != (y < 0.0)
  {
    RealSigns(x, y);
    RealOrders(0.0, Magnitude(x), Magnitude(y));
  }

  /** Without a misread P factor only signs can differ, and they do when an odd number is lost. */
  lemma {:induction false} OnlySigns(f: Factor, bs: seq<Bignum>, v: seq<real>, singles: set<Bignum>, i: nat, j: nat)
    requires i <= j <= |bs| == |v| && (f.P? ==> !AnyMisread(bs, v, singles, i, j)) && SinglesShort(bs, v, singles)
    ensures LoopRun(f, bs, v, singles, i, j) == Signed(LostSigns(f, bs, v, singles, i, j) % 2 == 1, Prod(f, v, i, j))
    decreases j - i
  {
    hide Mul, Loses, Short, FactorRun, FactorOf, Used, LoopRun, Prod, LostSigns, Misread, AnyMisread, SinglesShort,
        Negatives, Misreads, Restart;
    LoopStart(f, bs, v, singles, i);
    SignsStart(f, bs, v, singles, i);
    if i < j {
      var k := j - 1;
      if f.P? { NoneBefore(bs, v, singles, i, j); }
      OnlySigns(f, bs, v, singles, i, k);
      FactorSign(f, bs, v, singles, i, k);
      LoopNext(f, bs, v, singles, i, k);
      SignsNext(f, bs, v, singles, i, k);
      if Prod(f, v, i, j) != 0.0 { ProdSign(f, v, i, j); }
      SignsStep(LostSigns(f, bs, v, singles, i, k) % 2 == 1, Prod(f, v, i, k), Misread(bs, v, singles, i, k),
                FactorOf(f, v[k]),
                LoopRun(f, bs, v, singles, i, k), FactorRun(f, v[k], bs[k] in singles + Used(bs, v, i, k)));
    }
  }

  lemma SignsStart(f: Factor, bs: seq<Bignum>, v: seq<real>, singles: set<Bignum>, i: nat)
    requires i <= |bs| == |v|
    ensures LostSigns(f, bs, v, singles, i, i) == 0 && Prod(f, v, i, i) == 1.0
  {}

  lemma SignsNext(f: Factor, bs: seq<Bignum>, v: seq<real>, singles: set<Bignum>, i: nat, j: nat)
    requires i <= j < |bs| == |v|
    ensures Prod(f, v, i, j + 1) == Prod(f, v, i, j) * FactorOf(f, v[j])
    ensures LostSigns(f, bs, v, singles, i, j + 1)
         == if Short(Prod(f, v, i, j)) && Short(FactorOf(f, v[j])) then Negatives(f, v, i, j + 1)
            else LostSigns(f, bs, v, singles, i, j) + if Misread(bs, v, singles, i, j) then 1 else 0
  {
    hide FactorOf, Misread, Short, Negatives;
  }

  /** One step of the loop: signs add up, but a short step leaves no sign at all. */
  lemma SignsStep(lost: bool, product: real, misread: bool, factor: real, loop: real, run: real)
    requires loop == Signed(lost, product) && run == Signed(misread, factor)
    ensures Mul(loop, run)
         == if Short(product) && Short(factor) then Signed(product * factor < 0.0, product * factor)
            else Signed(lost != misread, product * factor)
  {
    hide Short;
    ShortSigned(lost, product);
    ShortSigned(misread, factor);
    RealSigns(product, factor);
    SignsOfProduct(loop, run);
  }

  lemma MulKeeps(x: real, y: real)
    requires !Loses(x, y)
    ensures Mul(x, y) == x * y
  {
    MulIs(x, y);
  }

  lemma NoneBefore(bs: seq<Bignum>, v: seq<real>, singles: set<Bignum>, i: nat, j: nat)
    requires i < j <= |bs| == |v| && !AnyMisread(bs, v, singles, i, j)
    ensures !AnyMisread(bs, v, singles, i, j - 1) && !Misread(bs, v, singles, i, j - 1)
  {
    hide Misread;
  }

  lemma FactorSign(f: Factor, bs: seq<Bignum>, v: seq<real>, singles: set<Bignum>, i: nat, k: nat)
    requires i <= k < |bs| == |v| && SinglesShort(bs, v, singles) && (f.P? ==> !Misread(bs, v, singles, i, k))
    ensures FactorRun(f, v[k], bs[k] in singles + Used(bs, v, i, k))
          == Signed(Misread(bs, v, singles, i, k), FactorOf(f, v[k]))
  {
    QFactor(v[k], bs[k] in singles + Used(bs, v, i, k));
  }

  /** Misread P factors make the loop's result too small, unless the product is zero. */
  lemma {:induction false} TooSmall(bs: seq<Bignum>, v: seq<real>, singles: set<Bignum>, i: nat, j: nat)
    requires i <= j <= |bs| == |v| && SinglesShort(bs, v, singles)
    requires forall a, b | 0 <= a < |bs| && 0 <= b < |bs| && bs[a] == bs[b] :: v[a] == v[b]
    ensures var loop, product := LoopRun(P, bs, v, singles, i, j), Prod(P, v, i, j);
            && Magnitude(loop) <= Magnitude(product) && (loop == 0.0 <==> product == 0.0)
            && (AnyMisread(bs, v, singles, i, j) && product != 0.0 ==> Magnitude(loop) < Magnitude(product))
    decreases j - i
  {
    hide Mul, Loses, Short, FactorRun, FactorOf, Used, Magnitude, Misread;
    if i < j {
      var k := j - 1;
      TooSmall(bs, v, singles, i, k);
      var single := bs[k] in singles + Used(bs, v, i, k);
      var loop, product, run, factor := LoopRun(P, bs, v, singles, i, k), Prod(P, v, i, k), FactorRun(P, v[k], single),
          FactorOf(P, v[k]);
      SingleIsShort(bs, v, singles, i, k);
      MisreadIs(bs, v, singles, i, k);
      PFactor(v[k], single);
      LoopNext(P, bs, v, singles, i, k);
      MulMagnitude(loop, run);
      assert Prod(P, v, i, j) == product * factor;
      SignsOfProduct(product, factor);
      Magnitudes(loop, run, product, factor, Mul(loop, run));
      if AnyMisread(bs, v, singles, i, j) && !Misread(bs, v, singles, i, k) {
        LastOrBefore(bs, v, singles, i, j);
      }
    }
  }

  lemma MisreadIs(bs: seq<Bignum>, v: seq<real>, singles: set<Bignum>, i: nat, k: nat)
    requires i <= k < |bs| == |v|
    ensures Misread(bs, v, singles, i, k) <==> v[k] < 0.0 && bs[k] in singles + Used(bs, v, i, k)
  {}

  lemma LastOrBefore(bs: seq<Bignum>, v: seq<real>, singles: set<Bignum>, i: nat, j: nat)
    requires i < j <= |bs| == |v| && AnyMisread(bs, v, singles, i, j) && !Misread(bs, v, singles, i, j - 1)
    ensures AnyMisread(bs, v, singles, i, j - 1)
  {
    hide Misread;
    var k :| i <= k < j && Misread(bs, v, singles, i, k);
  }

  lemma SingleIsShort(bs: seq<Bignum>, v: seq<real>, singles: set<Bignum>, i: nat, k: nat)
    requires i <= k < |bs| == |v| && SinglesShort(bs, v, singles)
    requires forall a, b | 0 <= a < |bs| && 0 <= b < |bs| && bs[a] == bs[b] :: v[a] == v[b]
    ensures bs[k] in singles + Used(bs, v, i, k) ==> Short(v[k])
  {}

  lemma MulMagnitude(x: real, y: real)
    ensures Magnitude(Mul(x, y)) == Magnitude(x) * Magnitude(y)
  {
    SignsOfProduct(x, y);
  }

  lemma ZeroMagnitude(x: real)
    ensures Magnitude(x) == 0.0 <==> x == 0.0
  {}

  lemma Magnitudes(loop: real, run: real, product: real, factor: real, next: real)
    requires Magnitude(loop) <= Magnitude(product) && (loop == 0.0 <==> product == 0.0)
    requires run == factor || 0.0 < Magnitude(run) < Magnitude(factor)
    requires Magnitude(next) == Magnitude(loop) * Magnitude(run)
    ensures Magnitude(next) <= Magnitude(product * factor) && (next == 0.0 <==> product * factor == 0.0)
    ensures product * factor != 0.0 && (Magnitude(loop) < Magnitude(product) || run != factor) ==>
          Magnitude(next) < Magnitude(product * factor)
  {
    SignsOfProduct(product, factor);
    ZeroMagnitude(loop); ZeroMagnitude(run); ZeroMagnitude(product); ZeroMagnitude(factor);
    ZeroMagnitude(next); ZeroMagnitude(product * factor);
    ProductOrder(Magnitude(loop), Magnitude(run), Magnitude(product), Magnitude(factor));
  }

  lemma ProductOrder(a: real, b: real, c: real, d: real)
    requires 0.0 <= a <= c && 0.0 <= b <= d
    ensures a * b <= c * d && (a * b == 0.0 <==> a == 0.0 || b == 0.0) && (c * d == 0.0 <==> c == 0.0 || d == 0.0)
    ensures a > 0.0 && b > 0.0 && (a < c || b < d) ==> a * b < c * d
  {
    RealOrders(a, c, b);
    RealOrders(b, d, c);
    RealCommute(b, c);
    RealCommute(d, c);
    ZeroProduct(a, b);
    ZeroProduct(c, d);
  }

  lemma ZeroProduct(x: real, y: real)
    requires x >= 0.0 && y >= 0.0
    ensures x * y == 0.0 <==> x == 0.0 || y == 0.0
  {
    if x > 0.0 && y > 0.0 { RealOrders(0.0, x, y); }
  }

  lemma RealOrders(x: real, y: real, z: real)
    requires x <= y && z >= 0.0
    ensures x * z <= y * z && (x < y && z > 0.0 ==> x * z < y * z)
  {}

  /** The loop gives the product of its factors if and only if `LoopKeeps` holds. */
  lemma LoopExact(f: Factor, bs: seq<Bignum>, v: seq<real>, singles: set<Bignum>, i: nat, j: nat)
    requires i <= j <= |bs| == |v| && SinglesShort(bs, v, singles)
    requires forall a, b | 0 <= a < |bs| && 0 <= b < |bs| && bs[a] == bs[b] :: v[a] == v[b]
    ensures LoopRun(f, bs, v, singles, i, j) == Prod(f, v, i, j) <==> LoopKeeps(f, bs, v, singles, i, j)
  {
    hide LoopRun, Prod, LostSigns, AnyMisread;
    if f.P? { TooSmall(bs, v, singles, i, j); }
    if f.Q? || !AnyMisread(bs, v, singles, i, j) { OnlySigns(f, bs, v, singles, i, j); }
  }

  // ---------------------------------------------------------------- when that is the sum

  /** Nothing is lost anywhere in the recursion. */
  ghost predicate TKeeps(bs: seq<Bignum>, v: seq<real>, singles: set<Bignum>, start: nat, end: nat)
    requires start < end <= |bs| == |v|
    decreases end - start
  {
    if start == end - 1 then !(bs[start] in singles && v[start] < 0.0)
    else
      var m := (end + start) / 2;
      var all := singles + Used(bs, v, start, end);
      && LoopKeeps(Q, bs, v, singles, m, end) && TKeeps(bs, v, singles + Used(bs, v, m, end), start, m)
      && LoopKeeps(P, bs, v, all, start, m) && TKeeps(bs, v, all, m, end)
      && !Loses(Prod(Q, v, m, end), T(v, start, m)) && !Loses(Prod(P, v, start, m), T(v, m, end))
  }

  lemma UsedShort(bs: seq<Bignum>, v: seq<real>, singles: set<Bignum>, i: nat, j: nat)
    requires i <= j <= |bs| == |v| && SinglesShort(bs, v, singles)
    requires forall a, b | 0 <= a < |bs| && 0 <= b < |bs| && bs[a] == bs[b] :: v[a] == v[b]
    ensures SinglesShort(bs, v, singles + Used(bs, v, i, j))
  {
    hide Short;
  }

  /** Then the program computes the sum. Two losses may cancel, so this goes one way. */
  lemma {:induction false} TExact(bs: seq<Bignum>, v: seq<real>, singles: set<Bignum>, start: nat, end: nat)
    requires start < end <= |bs| == |v| && SinglesShort(bs, v, singles) && TKeeps(bs, v, singles, start, end)
    requires forall a, b | 0 <= a < |bs| && 0 <= b < |bs| && bs[a] == bs[b] :: v[a] == v[b]
    ensures TRun(bs, v, singles, start, end) == T(v, start, end)
    decreases end - start
  {
    hide *;
    if start == end - 1 {
      TOne(v, start);
      TRunOne(bs, v, singles, start);
      TKeepsOne(bs, v, singles, start);
    } else {
      var m := (end + start) / 2;
      var right, all := singles + Used(bs, v, m, end), singles + Used(bs, v, start, end);
      TKeepsSplit(bs, v, singles, start, m, end);
      TRunSplit(bs, v, singles, start, m, end);
      UsedShort(bs, v, singles, m, end);
      UsedShort(bs, v, singles, start, end);
      LoopExact(Q, bs, v, singles, m, end);
      LoopExact(P, bs, v, all, start, m);
      TExact(bs, v, right, start, m);
      TExact(bs, v, all, m, end);
      MulKeeps(Prod(Q, v, m, end), T(v, start, m));
      MulKeeps(Prod(P, v, start, m), T(v, m, end));
      TSplit(v, start, m, end);
    }
  }

  lemma TKeepsOne(bs: seq<Bignum>, v: seq<real>, singles: set<Bignum>, i: nat)
    requires i < |bs| == |v| && SinglesShort(bs, v, singles) && TKeeps(bs, v, singles, i, i + 1)
    ensures FactorRun(P, v[i], bs[i] in singles) == FactorOf(P, v[i])
  {}

  lemma TKeepsSplit(bs: seq<Bignum>, v: seq<real>, singles: set<Bignum>, start: nat, m: nat, end: nat)
    requires start < m < end <= |bs| == |v| && m == (end + start) / 2 && TKeeps(bs, v, singles, start, end)
    ensures var all := singles + Used(bs, v, start, end);
            && LoopKeeps(Q, bs, v, singles, m, end) && TKeeps(bs, v, singles + Used(bs, v, m, end), start, m)
            && LoopKeeps(P, bs, v, all, start, m) && TKeeps(bs, v, all, m, end)
            && !Loses(Prod(Q, v, m, end), T(v, start, m)) && !Loses(Prod(P, v, start, m), T(v, m, end))
  {
    hide LoopKeeps, Loses, Prod, T, Used;
  }

  // ---------------------------------------------------------------- inputs for which nothing is lost

  /** Inputs whose factors are not negative: at least one half for P, at least zero for Q. */
  ghost predicate Fine(f: Factor, v: seq<real>) {
    forall i | 0 <= i < |v| :: v[i] >= if f.P? then 0.5 else 0.0
  }

  lemma FineFactor(f: Factor, x: real, single: bool)
    requires x >= if f.P? then 0.5 else 0.0
    ensures FactorRun(f, x, single) == FactorOf(f, x) >= 0.0
  {}

  lemma FineMul(x: real, y: real)
    requires x >= 0.0 && y >= 0.0
    ensures Mul(x, y) == x * y >= 0.0 && !Loses(x, y)
  {
    RealNonNegative(x, y);
  }

  lemma {:induction false} FineLoop(f: Factor, bs: seq<Bignum>, v: seq<real>, singles: set<Bignum>, i: nat, j: nat)
    requires i <= j <= |bs| == |v| && Fine(f, v)
    ensures LoopRun(f, bs, v, singles, i, j) == Prod(f, v, i, j) >= 0.0
    ensures LoopKeeps(f, bs, v, singles, i, j)
    decreases j - i
  {
    hide Mul, Loses, FactorRun, FactorOf, Used;
    FineSigns(f, bs, v, singles, i, Restart(f, v, i, j), j);
    if i < j {
      FineLoop(f, bs, v, singles, i, j - 1);
      var single := bs[j - 1] in singles + Used(bs, v, i, j - 1);
      FineFactor(f, v[j - 1], single);
      FineMul(Prod(f, v, i, j - 1), FactorOf(f, v[j - 1]));
    }
  }

  lemma {:induction false} FineSigns(f: Factor, bs: seq<Bignum>, v: seq<real>, singles: set<Bignum>, i: nat, m: nat,
                                     j: nat)
    requires i <= m <= j <= |bs| == |v| && Fine(f, v)
    ensures Negatives(f, v, i, m) == 0 && Misreads(bs, v, singles, i, m, j) == 0 && !AnyMisread(bs, v, singles, i, j)
    decreases j - i
  {
    if m < j {
      FineSigns(f, bs, v, singles, i, m, j - 1);
    } else if i < m {
      FineSigns(f, bs, v, singles, i, m - 1, j - 1);
    }
  }

  lemma {:induction false} FineTerms(v: seq<real>, start: nat, k: nat, end: nat)
    requires start <= k <= end <= |v| && Fine(P, v)
    ensures Terms(v, start, k, end) >= 0.0
    decreases end - k
  {
    if k < end {
      FineTerms(v, start, k + 1, end);
      ProdNonNegative(P, v, start, k + 1);
      ProdNonNegative(Q, v, k + 1, end);
      RealNonNegative(Prod(P, v, start, k + 1), Prod(Q, v, k + 1, end));
    }
  }

  lemma {:induction false} ProdNonNegative(f: Factor, v: seq<real>, i: nat, j: nat)
    requires i <= j <= |v| && Fine(f, v)
    ensures Prod(f, v, i, j) >= 0.0
    decreases j - i
  {
    if i < j {
      ProdNonNegative(f, v, i, j - 1);
      RealNonNegative(Prod(f, v, i, j - 1), FactorOf(f, v[j - 1]));
    }
  }

  /** Inputs of one half or more, such as the counting numbers `sqrt2` hands over, lose nothing. */
  lemma {:induction false} FineT(bs: seq<Bignum>, v: seq<real>, singles: set<Bignum>, start: nat, end: nat)
    requires start < end <= |bs| == |v| && Fine(P, v)
    ensures TKeeps(bs, v, singles, start, end)
    decreases end - start
  {
    hide LoopRun, Prod, LoopKeeps, Terms, Used, Loses;
    if start < end - 1 {
      var m := (end + start) / 2;
      var right, all := singles + Used(bs, v, m, end), singles + Used(bs, v, start, end);
      FineLoop(Q, bs, v, singles, m, end);
      FineLoop(P, bs, v, all, start, m);
      FineT(bs, v, right, start, m);
      FineT(bs, v, all, m, end);
      FineTerms(v, start, start, m);
      FineTerms(v, m, m, end);
      FineMul(Prod(Q, v, m, end), T(v, start, m));
      FineMul(Prod(P, v, start, m), T(v, m, end));
    }
  }

  // ---------------------------------------------------------------- inputs for which something is lost

  /** -3 in one digit: the factor 2 * -3 - 1 is computed as 2 * 3 - 1. */
  lemma FactorLoses()
    ensures Short(-3.0) && FactorRun(P, -3.0, true) == 5.0 && FactorOf(P, -3.0) == -7.0
  {}

  lemma PlainLoop(f: Factor, bs: seq<Bignum>, v: seq<real>, singles: set<Bignum>, i: nat, j: nat)
    requires i <= j < |bs| == |v| && (v[j] >= 0.0 || bs[j] !in singles + Used(bs, v, i, j))
    ensures LoopRun(f, bs, v, singles, i, i) == 1.0 == Prod(f, v, i, i)
    ensures LoopRun(f, bs, v, singles, i, j + 1) == Mul(LoopRun(f, bs, v, singles, i, j), FactorOf(f, v[j]))
    ensures Prod(f, v, i, j + 1) == Prod(f, v, i, j) * FactorOf(f, v[j])
  {
    hide Mul;
  }

  lemma OneLoop(f: Factor, bs: seq<Bignum>, v: seq<real>, singles: set<Bignum>, i: nat)
    requires i < |bs| == |v| && (v[i] >= 0.0 || bs[i] !in singles)
    ensures LoopRun(f, bs, v, singles, i, i + 1) == Mul(1.0, FactorOf(f, v[i]))
    ensures Prod(f, v, i, i + 1) == FactorOf(f, v[i])
  {
    PlainLoop(f, bs, v, singles, i, i);
  }

  lemma TwoLoop(f: Factor, bs: seq<Bignum>, v: seq<real>, singles: set<Bignum>, i: nat)
    requires i + 1 < |bs| == |v| && (v[i] >= 0.0 || bs[i] !in singles)
    requires v[i + 1] >= 0.0 || bs[i + 1] !in singles + Used(bs, v, i, i + 1)
    ensures LoopRun(f, bs, v, singles, i, i + 2) == Mul(Mul(1.0, FactorOf(f, v[i])), FactorOf(f, v[i + 1]))
    ensures Prod(f, v, i, i + 2) == FactorOf(f, v[i]) * FactorOf(f, v[i + 1])
  {
    hide LoopRun, Prod, Mul, FactorOf;
    OneLoop(f, bs, v, singles, i);
    PlainLoop(f, bs, v, singles, i, i + 1);
  }

  /** Zero: the P factor is -1, and 1 * -1 is taken for 1 * 1. */
  lemma ZeroLoses(bs: seq<Bignum>, singles: set<Bignum>)
    requires |bs| == 1
    ensures Prod(P, [0.0], 0, 1) == -1.0 && LoopRun(P, bs, [0.0], singles, 0, 1) == 1.0
  {
    OneLoop(P, bs, [0.0], singles, 0);
    assert (-1.0).Floor == -1 && (1.0).Floor == 1;
  }

  /** 1/4, 5/2 and 2: the P factors are -1/2, 4 and 3, and -2 * 3 is taken for 2 * 3. */
  lemma LoopLoses(bs: seq<Bignum>, singles: set<Bignum>)
    requires |bs| == 3
    ensures Prod(P, [0.25, 2.5, 2.0], 0, 3) == -6.0 && LoopRun(P, bs, [0.25, 2.5, 2.0], singles, 0, 3) == 6.0
  {
    hide LoopRun, Prod;
    var v := [0.25, 2.5, 2.0];
    TwoLoop(P, bs, v, singles, 0);
    PlainLoop(P, bs, v, singles, 0, 2);
    NotShort(-1, -2);
    assert LoopRun(P, bs, v, singles, 0, 2) == -2.0;
    assert Short(-2.0) && Short(3.0);
    assert Mul(-2.0, 3.0) == 2.0 * 3.0;
  }

  /** Halves, quarters and large numbers are not short. */
  lemma NotShort(n: int, m: int)
    ensures !Short(n as real + 0.5) && !Short(m as real + 0.25)
  {
    assert (n as real + 0.5).Floor == n && (m as real + 0.25).Floor == m;
  }

  lemma TRunOfTwo(bs: seq<Bignum>, v: seq<real>, singles: set<Bignum>, i: nat)
    requires i + 1 < |bs| == |v|
    requires (v[i] >= 0.0 && v[i + 1] >= 0.0)
          || (bs[i] !in singles + Used(bs, v, i, i + 2) && bs[i + 1] !in singles + Used(bs, v, i, i + 2))
    ensures TRun(bs, v, singles, i, i + 2)
         == Mul(Mul(1.0, FactorOf(Q, v[i + 1])), FactorOf(P, v[i]))
             + Mul(Mul(1.0, FactorOf(P, v[i])), FactorOf(P, v[i + 1]))
    ensures T(v, i, i + 2) == FactorOf(Q, v[i + 1]) * FactorOf(P, v[i]) + FactorOf(P, v[i]) * FactorOf(P, v[i + 1])
  {
    hide LoopRun, Prod, Mul, T, Used;
    UsedSplit(bs, v, i, i + 1, i + 2);
    TRunSplit(bs, v, singles, i, i + 1, i + 2);
    var right, all := singles + Used(bs, v, i + 1, i + 2), singles + Used(bs, v, i, i + 2);
    TRunOne(bs, v, right, i);
    TRunOne(bs, v, all, i + 1);
    OneLoop(Q, bs, v, singles, i + 1);
    OneLoop(P, bs, v, all, i);
    TSplit(v, i, i + 1, i + 2);
    TOne(v, i);
    TOne(v, i + 1);
  }

  /** 1/4, 5/2, 1 and 1: the sum is -122, and the program answers -102. */
  lemma TLoses(bs: seq<Bignum>, singles: set<Bignum>)
    requires |bs| == 4
    ensures T([0.25, 2.5, 1.0, 1.0], 0, 4) == -122.0 && TRun(bs, [0.25, 2.5, 1.0, 1.0], singles, 0, 4) == -102.0
  {
    hide LoopRun, Prod, T, TRun, Used;
    var v := [0.25, 2.5, 1.0, 1.0];
    TRunSplit(bs, v, singles, 0, 2, 4);
    var right, all := singles + Used(bs, v, 2, 4), singles + Used(bs, v, 0, 4);
    TRunOfTwo(bs, v, right, 0);
    TRunOfTwo(bs, v, all, 2);
    TwoLoop(Q, bs, v, singles, 2);
    TwoLoop(P, bs, v, all, 0);
    TSplit(v, 0, 2, 4);
    NotShort(-1, 0);
    assert (-2.0).Floor == -2 && (4.0).Floor == 4 && (5.0).Floor == 5 && (1.0).Floor == 1;
  }

  /** -13/4, -3/2 and 1/8: two signs are lost, and the answer is the sum, 15, all the same. */
  lemma LossesCancel(bs: seq<Bignum>)
    requires |bs| == 3 && forall a, b | 0 <= a < b < 3 :: bs[a] != bs[b]
    ensures T([-3.25, -1.5, 0.125], 0, 3) == TRun(bs, [-3.25, -1.5, 0.125], {}, 0, 3) == 15.0
    ensures !TKeeps(bs, [-3.25, -1.5, 0.125], {}, 0, 3)
  {
    hide LoopRun, Prod, T, TRun, Used, TKeeps, LoopKeeps;
    var v := [-3.25, -1.5, 0.125];
    NoneShort(bs, v);
    assert (-6.0).Floor == -6 && (1.0).Floor == 1 && (-4.0).Floor == -4 && (0.5).Floor == 0 && (-7.5).Floor == -8
        && (-0.75).Floor == -1;
    TRunSplit(bs, v, {}, 0, 1, 3);
    TRunOne(bs, v, {}, 0);
    TwoLoop(Q, bs, v, {}, 1);
    OneLoop(P, bs, v, {}, 0);
    TRunOfTwo(bs, v, {}, 1);
    TOne(v, 0);
    TSplit(v, 0, 1, 3);
    assert LoopRun(Q, bs, v, {}, 1, 3) == 3.0 && Prod(Q, v, 1, 3) == -3.0;
    LoopExact(Q, bs, v, {}, 1, 3);
    if TKeeps(bs, v, {}, 0, 3) { TKeepsSplit(bs, v, {}, 0, 1, 3); }
  }

  lemma NoneShort(bs: seq<Bignum>, v: seq<real>)
    requires |bs| == 3 && v == [-3.25, -1.5, 0.125]
    ensures forall i, j | 0 <= i <= j <= 3 :: Used(bs, v, i, j) == {}
  {
    assert (-3.25).Floor == -4 && (-1.5).Floor == -2 && (0.125).Floor == 0;
  }

  // ---------------------------------------------------------------- the program

  lemma ShrunkShort(b: Bignum)
    requires b.Valid() && b.Shrunk()
    ensures |b.digits| < 2 <==> Short(b.Value())
  {
    hide Number, Digits, Frac;
    if |b.digits| < 2 {
      SingleShort(b);
    } else if Short(b.Value()) {
      AbsNonNegative(b);
      WholeMagnitude(b.Value());
      if |b.digits| >= 2 {
        LongNumber(b.digits, b.point, b.Abs().Floor);
      }
    }
  }

  lemma SingleShort(b: Bignum)
    requires b.Valid() && |b.digits| < 2
    ensures Short(b.Value())
  {
    DigitAbs(b);
    var d := b.digits[0];
    assert -(d as real) == (-d) as real;
  }

  lemma WholeMagnitude(x: real)
    requires x == x.Floor as real
    ensures Magnitude(x) == Magnitude(x).Floor as real
  {
    hide Magnitude;
    var n := x.Floor;
    if x < 0.0 {
      MagnitudeIs(x);
      NegateWhole(n);
    } else {
      MagnitudeIs(x);
    }
  }

  lemma MagnitudeIs(x: real)
    ensures Magnitude(x) == if x < 0.0 then -x else x
  {}

  lemma NegateWhole(n: int)
    ensures -(n as real) == (-n) as real && ((-n) as real).Floor == -n
  {}

  /** A whole number of two digits or more without superfluous zeros is no short one. */
  lemma LongNumber(s: seq<int>, point: nat, k: int)
    requires Digits(s) && |s| >= 2 && point < |s| && (point > 0 ==> s[0] != 0) && (|s| > point + 1 ==> s[|s| - 1] != 0)
    requires 0 <= k && Frac(Number(s), point) == k as real
    ensures k > 9
  {
    FracScale(k, point, 0);
    FracOrder(Number(s), k * Pow10(point), point);
    WholeFrac(k);
    if point > 0 {
      TenDivides(k, Pow10(point - 1), s[0], Number(s[1..]));
      assert false;
    } else {
      NumberAtLeast(s);
      Pow10Order(1, |s| - 1);
      assert Pow10(1) == 10 * Pow10(0) == 10;
    }
  }

  lemma WholeFrac(k: int)
    ensures Frac(k, 0) == k as real && Pow10(0) == 1
  {}

  lemma TenDivides(k: int, p: int, d: int, rest: int)
    requires d + 10 * rest == k * (10 * p) && 0 <= d <= 9
    ensures d == 0
  {
    assert k * (10 * p) == 10 * (k * p);
  }

  lemma AbsIsMagnitude(b: Bignum)
    requires b.Valid()
    ensures b.Abs() == Magnitude(b.Value())
  {
    AbsNonNegative(b);
  }

  /** Two results multiplied. */
  method MulResults(a: Bignum, b: Bignum, ghost x: real, ghost y: real) returns (r: Bignum)
    requires a.Valid() && b.Valid() && a.Shrunk() && b.Shrunk() && a.Value() == x && b.Value() == y
    modifies a, b
    ensures fresh(r) && r.Valid() && r.Shrunk() && r.Value() == Mul(x, y)
  {
    hide Number, Digits, Frac, Bignum.Value, Bignum.Abs, Bignum.Shrunk, Short, Magnitude;
    ShrunkShort(a);
    ShrunkShort(b);
    AbsIsMagnitude(a);
    AbsIsMagnitude(b);
    r := MulBignum(a, b);
  }

  /** An input times a one-digit constant. Afterwards the input has no superfluous zeros. */
  method MulInput(b: Bignum, c: Bignum, ghost v: real, ghost n: real) returns (r: Bignum)
    requires b.Valid() && c.Valid() && b != c && b.Value() == v && c.Value() == n >= 0.0 && |c.digits| < 2
    modifies b, c
    ensures fresh(r) && r.Valid() && r.Shrunk() && r.Value() == (if |old(b.digits)| < 2 then Magnitude(v) else v) * n
    ensures b.Valid() && b.Value() == v && (|b.digits| < 2 <==> Short(v))
  {
    hide Number, Digits, Frac, Bignum.Value, Bignum.Abs, Bignum.Shrunk, Short;
    AbsIsMagnitude(b);
    AbsIsMagnitude(c);
    if |b.digits| < 2 { SingleShort(b); }
    r := MulBignum(b, c);
    if |old(b.digits)| >= 2 { ShrunkShort(b); }
  }

  method BsP(b: Bignum, ghost v: real) returns (r: Bignum)
    requires b.Valid() && b.Value() == v
    modifies b
    ensures fresh(r) && r.Valid() && r.Shrunk() && r.Value() == FactorRun(P, v, |old(b.digits)| < 2)
    ensures b.Valid() && b.Value() == v && (|b.digits| < 2 <==> Short(v))
  {
    hide Number, Digits, Frac, Bignum.Value, Bignum.Abs, Bignum.Shrunk, Short, Magnitude;
    var one := NewBignumOf(1);
    var two := NewBignumOf(2);
    var t := MulInput(b, two, v, 2.0);
    r := SubBignum(t, one);
  }

  method BsQ(b: Bignum, ghost v: real) returns (r: Bignum)
    requires b.Valid() && b.Value() == v
    modifies b
    ensures fresh(r) && r.Valid() && r.Shrunk() && r.Value() == FactorRun(Q, v, |old(b.digits)| < 2)
    ensures b.Valid() && b.Value() == v && (|b.digits| < 2 <==> Short(v))
  {
    hide Number, Digits, Frac, Bignum.Value, Bignum.Abs, Bignum.Shrunk, Short, Magnitude;
    var four := NewBignumOf(4);
    r := MulInput(b, four, v, 4.0);
  }

  method Apply(f: Factor, b: Bignum, ghost v: real) returns (r: Bignum)
    requires b.Valid() && b.Value() == v
    modifies b
    ensures fresh(r) && r.Valid() && r.Shrunk() && r.Value() == FactorRun(f, v, |old(b.digits)| < 2)
    ensures b.Valid() && b.Value() == v && (|b.digits| < 2 <==> Short(v))
  {
    if f == P { r := BsP(b, v); } else { r := BsQ(b, v); }
  }

  /** The numbers behind the pointers, and which of them are stored in one digit. */
  ghost predicate Are(bs: seq<Bignum>, v: seq<real>, singles: set<Bignum>)
    reads bs
  {
    && |bs| == |v|
    && forall i | 0 <= i < |bs| :: bs[i].Valid() && bs[i].Value() == v[i] && (bs[i] in singles <==> |bs[i].digits| < 2)
  }

  lemma AreFacts(bs: seq<Bignum>, v: seq<real>, singles: set<Bignum>)
    requires Are(bs, v, singles)
    ensures |bs| == |v| && SinglesShort(bs, v, singles)
    ensures forall a, b | 0 <= a < |bs| && 0 <= b < |bs| && bs[a] == bs[b] :: v[a] == v[b]
  {
    hide Bignum.Value, Bignum.Valid, Short;
    forall k | 0 <= k < |bs| && bs[k] in singles ensures Short(v[k]) {
      SingleShort(bs[k]);
    }
  }

  method ApplyAt(f: Factor, bs: seq<Bignum>, i: nat, ghost v: seq<real>, ghost singles: set<Bignum>) returns (r: Bignum)
    requires Are(bs, v, singles) && i < |bs|
    modifies bs[i]
    ensures fresh(r) && r.Valid() && r.Shrunk() && r.Value() == FactorRun(f, v[i], bs[i] in singles)
    ensures Are(bs, v, Touch(singles, bs[i], v[i]))
  {
    hide Short, Bignum.Value, Bignum.Valid, Bignum.Shrunk, FactorRun;
    AreFacts(bs, v, singles);
    var b := bs[i];
    r := Apply(f, b, v[i]);
    ghost var after := Touch(singles, b, v[i]);
    forall k | 0 <= k < |bs|
      ensures bs[k].Valid() && bs[k].Value() == v[k] && (bs[k] in after <==> |bs[k].digits| < 2)
    {
      if bs[k] != b { assert bs[k].digits == old(bs[k].digits); }
    }
  }

  /** The product of the factors, as far as `MulBignum` gives it; exactly the product if and only if `LoopKeeps` holds,
      which it does for inputs of at least one half (P) or zero (Q). */
  method CalculateLoop(f: Factor, bs: seq<Bignum>, start: nat, end: nat, ghost v: seq<real>, ghost singles: set<Bignum>)
    returns (r: Bignum)
    requires Are(bs, v, singles) && start <= end <= |bs|
    modifies bs
    ensures fresh(r) && r.Valid() && r.Shrunk() && r.Value() == LoopRun(f, bs, v, singles, start, end)
    ensures Are(bs, v, singles + Used(bs, v, start, end))
    ensures r.Value() == Prod(f, v, start, end) <==> LoopKeeps(f, bs, v, singles, start, end)
    ensures Fine(f, v) ==> r.Value() == Prod(f, v, start, end)
  {
    hide *;
    AreFacts(bs, v, singles);
    r := NewBignumOf(1);
    LoopStart(f, bs, v, singles, start);
    for i := start to end
      invariant fresh(r) && r.Valid() && r.Shrunk() && r.Value() == LoopRun(f, bs, v, singles, start, i)
      invariant Are(bs, v, singles + Used(bs, v, start, i))
    {
      LoopNext(f, bs, v, singles, start, i);
      var factor := ApplyAt(f, bs, i, v, singles + Used(bs, v, start, i));
      r := MulResults(r, factor, LoopRun(f, bs, v, singles, start, i),
                      FactorRun(f, v[i], bs[i] in singles + Used(bs, v, start, i)));
    }
    LoopExact(f, bs, v, singles, start, end);
    if Fine(f, v) { FineLoop(f, bs, v, singles, start, end); }
  }

  lemma LoopStart(f: Factor, bs: seq<Bignum>, v: seq<real>, singles: set<Bignum>, i: nat)
    requires i <= |bs| == |v|
    ensures LoopRun(f, bs, v, singles, i, i) == 1.0 && singles + Used(bs, v, i, i) == singles
  {}

  lemma LoopNext(f: Factor, bs: seq<Bignum>, v: seq<real>, singles: set<Bignum>, i: nat, j: nat)
    requires i <= j < |bs| == |v|
    ensures LoopRun(f, bs, v, singles, i, j + 1)
         == Mul(LoopRun(f, bs, v, singles, i, j), FactorRun(f, v[j], bs[j] in singles + Used(bs, v, i, j)))
    ensures singles + Used(bs, v, i, j + 1) == Touch(singles + Used(bs, v, i, j), bs[j], v[j])
  {
    hide Mul, FactorRun, Short, Used;
    UsedNext(bs, v, i, j);
  }

  /** The sum over the range, as far as `MulBignum` gives its products; exactly the sum when `TKeeps` holds,
      which it does for inputs of at least one half. */
  method CalculateT(bs: seq<Bignum>, start: nat, end: nat, ghost v: seq<real>, ghost singles: set<Bignum>)
    returns (r: Bignum)
    requires Are(bs, v, singles) && start < end <= |bs|
    modifies bs
    ensures fresh(r) && r.Valid() && r.Shrunk() && r.Value() == TRun(bs, v, singles, start, end)
    ensures Are(bs, v, singles + Used(bs, v, start, end))
    ensures TKeeps(bs, v, singles, start, end) || Fine(P, v) ==> r.Value() == T(v, start, end)
    decreases end - start
  {
    hide *;
    AreFacts(bs, v, singles);
    if Fine(P, v) { FineT(bs, v, singles, start, end); }
    if TKeeps(bs, v, singles, start, end) { TExact(bs, v, singles, start, end); }
    if start == end - 1 {
      TRunOne(bs, v, singles, start);
      r := ApplyAt(P, bs, start, v, singles);
      return;
    }
    var m := (end + start) / 2;
    ghost var right, all := singles + Used(bs, v, m, end), singles + Used(bs, v, start, end);
    TRunSplit(bs, v, singles, start, m, end);
    var q := CalculateLoop(Q, bs, m, end, v, singles);
    var left := CalculateT(bs, start, m, v, right);
    var x := MulResults(q, left, LoopRun(Q, bs, v, singles, m, end), TRun(bs, v, right, start, m));
    var p := CalculateLoop(P, bs, start, m, v, all);
    var last := CalculateT(bs, m, end, v, all);
    var y := MulResults(p, last, LoopRun(P, bs, v, all, start, m), TRun(bs, v, all, m, end));
    r := AddBignum(x, y);
  }

  lemma TRunOne(bs: seq<Bignum>, v: seq<real>, singles: set<Bignum>, i: nat)
    requires i < |bs| == |v|
    ensures TRun(bs, v, singles, i, i + 1) == FactorRun(P, v[i], bs[i] in singles)
    ensures singles + Used(bs, v, i, i + 1) == Touch(singles, bs[i], v[i])
  {
    hide Short;
    UsedNext(bs, v, i, i);
  }

  lemma TRunSplit(bs: seq<Bignum>, v: seq<real>, singles: set<Bignum>, start: nat, m: nat, end: nat)
    requires start < m < end <= |bs| == |v| && m == (end + start) / 2
    ensures var right, all := singles + Used(bs, v, m, end), singles + Used(bs, v, start, end);
            && TRun(bs, v, singles, start, end)
               == Mul(LoopRun(Q, bs, v, singles, m, end), TRun(bs, v, right, start, m))
                  + Mul(LoopRun(P, bs, v, all, start, m), TRun(bs, v, all, m, end))
            && right + Used(bs, v, start, m) == all && all + Used(bs, v, start, m) == all
                && all + Used(bs, v, m, end) == all
  {
    hide Mul, LoopRun, Used;
    UsedSplit(bs, v, start, m, end);
  }
}
