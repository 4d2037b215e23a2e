/** `bignum.c`: signed decimal fixed-point numbers whose operations reshape their operands and put them back. */
module Bignums {
  import opened Decimal

  const PLUS: int := 1
  const MINUS: int := -1

  newtype int8 = x: int | -128 <= x < 128

  datatype Ord = LT | EQ | GT

  class Bignum {
    var sign: int
    var point: nat
    var digits: seq<int>

    /** At least one digit stands before the point. */
    ghost predicate Valid()
      reads this
    {
      (sign == PLUS || sign == MINUS) && point < |digits| && Digits(digits)
    }

    /** The digits without point and sign. */
    ghost function Mantissa(): (n: int)
      reads this
      requires Valid()
      ensures n >= 0
    {
      Number(digits)
    }

    ghost function Abs(): real
      reads this
      requires Valid()
    {
      Frac(Number(digits), point)
    }

    ghost function Value(): real
      reads this
      requires Valid()
    {
      if sign == PLUS then Abs() else -Abs()
    }

    /** No superfluous zero at either end. */
    ghost predicate Shrunk()
      reads this
      requires Valid()
    {
      (point > 0 ==> digits[0] != 0) && (|digits| > point + 1 ==> digits[|digits| - 1] != 0)
    }

    constructor (size: nat)
      requires size > 0
      ensures Valid() && sign == PLUS && point == 0 && digits == Zeros(size)
    {
      sign := PLUS;
      point := 0;
      digits := Zeros(size);
    }
  }

  /** Same number, same sign; the digits may have been reshaped. */
  twostate predicate Kept(b: Bignum)
    reads b
  {
    old(b.Valid()) && b.Valid() && b.sign == old(b.sign) && b.Abs() == old(b.Abs()) && b.Value() == old(b.Value())
  }

  // ---------------------------------------------------------------- shape

  /** Drops digits at the top or fills in zeros there. */
  method ResizeBignum(b: Bignum, size: nat)
    modifies b`digits
    ensures b.digits == if size <= |old(b.digits)| then old(b.digits)[..size]
          else old(b.digits) + Zeros(size - |old(b.digits)|)
  {
    var len := |b.digits|;
    if size > len {
      b.digits := b.digits + Zeros(size - len);
    } else {
      b.digits := b.digits[..size];
    }
  }

  method CopyBignum(b: Bignum) returns (r: Bignum)
    requires b.Valid()
    ensures fresh(r) && r.Valid() && r.sign == b.sign && r.point == b.point && r.digits == b.digits
  {
    r := new Bignum(|b.digits|);
    r.sign := b.sign;
    r.point := b.point;
    r.digits := b.digits;
  }

  function DigitCount(n: nat): (c: nat)
    requires n < 0x8000_0000
    ensures 1 <= c <= 10 && n < Pow10(c) && (c > 1 ==> Pow10(c - 1) <= n)
  {
    assert Pow10(10) == 10000000000;
    if n < 10 then 1 else if n < 100 then 2 else if n < 1000 then 3 else if n < 10000 then 4 else if n < 100000 then 5
    else if n < 1000000 then 6 else if n < 10000000 then 7 else if n < 100000000 then 8 else if n < 1000000000 then 9
        else 10
  }

  /** The digits of `n`, least significant first. */
  function DigitsOf(n: nat, len: nat): (s: seq<int>)
    ensures |s| == len && Digits(s)
  {
    if len == 0 then [] else [n % 10] + DigitsOf(n / 10, len - 1)
  }

  lemma {:induction false} NumberOfDigits(n: nat, len: nat)
    requires n < Pow10(len)
    ensures Number(DigitsOf(n, len)) == n
  {
    if len > 0 { NumberOfDigits(n / 10, len - 1); }
  }

  method NewBignumOf(n: int) returns (r: Bignum)
    requires -0x8000_0000 < n < 0x8000_0000
    ensures fresh(r) && r.Valid() && r.Shrunk() && r.Value() == n as real && r.point == 0
    ensures r.sign == (if n < 0 then MINUS else PLUS) && |r.digits| == DigitCount(if n < 0 then -n else n)
  {
    hide Number, Pow10, DigitCount, DigitsOf;
    var m := if n < 0 then -n else n;
    r := new Bignum(DigitCount(m));
    if n < 0 { r.sign := MINUS; }
    WriteDigits(r, m);
    NewIsShrunk(m, r.digits);
    assert Pow10(0) == 1 by { PowZero(); }
  }

  lemma PowZero()
    ensures Pow10(0) == 1
  {}

  /** The digit loop: division by ten until all places are filled. */
  method WriteDigits(r: Bignum, n: nat)
    requires n < Pow10(|r.digits|)
    modifies r`digits
    ensures |r.digits| == |old(r.digits)| && Digits(r.digits) && Number(r.digits) == n
  {
    hide Number, Pow10;
    ghost var len := |r.digits|;
    var m: nat := n;
    for i := 0 to |r.digits|
      invariant |r.digits| == len && r.digits[..i] + DigitsOf(m, len - i) == DigitsOf(n, len)
    {
      ghost var before := r.digits[..i];
      r.digits := r.digits[i := m % 10];
      assert r.digits[..i + 1] == before + [m % 10];
      m := m / 10;
    }
    NumberOfDigits(n, len);
    assert r.digits == r.digits[..len] == DigitsOf(n, len);
  }

  lemma NewIsShrunk(n: nat, s: seq<int>)
    requires Digits(s) && n < 0x8000_0000 && |s| == DigitCount(n) && Number(s) == n
    ensures |s| > 1 ==> s[|s| - 1] != 0
  {
    hide DigitCount;
    if |s| > 1 && s[|s| - 1] == 0 {
      var front := s[..|s| - 1];
      assert s == front + [0];
      NumberAppend(front, 0);
      NumberBound(front);
    }
  }

  /** Multiplies by 10^s: the point stays. */
  method ShlBignum(b: Bignum, s: nat)
    requires Digits(b.digits)
    modifies b`digits
    ensures b.digits == Zeros(s) + old(b.digits)
  {
    var len := |b.digits|;
    ResizeBignum(b, len + s);
    b.digits := Zeros(s) + b.digits[..len];
  }

  /** `size` digits behind the point, if there are fewer. */
  method ExtendLSP(b: Bignum, size: nat)
    requires b.Valid()
    modifies b`digits, b`point
    ensures Kept(b)
    ensures b.point == (if size > old(b.point) then size else old(b.point))
    ensures b.digits == Zeros(b.point - old(b.point)) + old(b.digits)
  {
    if size <= b.point {
      assert b.digits == Zeros(0) + b.digits;
      return;
    }
    var delta := size - b.point;
    NumberShift(b.digits, delta);
    FracScale(Number(b.digits), delta, b.point);
    ShlBignum(b, delta);
    b.point := size;
  }

  /** `size` digits before the point. */
  method ExtendMSP(b: Bignum, size: nat)
    requires b.Valid() && b.point + size >= |b.digits|
    modifies b`digits
    ensures Kept(b) && b.digits == old(b.digits) + Zeros(b.point + size - |old(b.digits)|)
  {
    NumberPad(b.digits, b.point + size - |b.digits|);
    ResizeBignum(b, b.point + size);
    assert b.digits == old(b.digits) + Zeros(b.point + size - |old(b.digits)|);
  }

  function Max(a: nat, b: nat): nat {
    if a >= b then a else b
  }

  /** How many digits both operands have after matching. */
  ghost function MatchedLen(a: Bignum, b: Bignum): nat
    reads a, b
    requires a.Valid() && b.Valid()
  {
    Max(a.point, b.point) + Max(|a.digits| - a.point, |b.digits| - b.point)
  }

  /** The mantissa of `b` when it has `point` digits behind the point. */
  ghost function MantissaAt(b: Bignum, point: nat): nat
    reads b
    requires b.Valid() && point >= b.point
  {
    Number(b.digits) * Pow10(point - b.point)
  }

  /** Aligns both operands: same point, same length, same numbers. */
  method MatchSizes(a: Bignum, b: Bignum)
    requires a.Valid() && b.Valid()
    modifies a`digits, a`point, b`digits, b`point
    ensures Kept(a) && Kept(b)
    ensures a.point == b.point == Max(old(a.point), old(b.point)) && |a.digits| == |b.digits| == old(MatchedLen(a, b))
    ensures a.Mantissa() == old(MantissaAt(a, Max(a.point, b.point)))
    ensures b.Mantissa() == old(MantissaAt(b, Max(a.point, b.point)))
  {
    hide Number, Frac, Digits;
    if a.point > b.point {
      NumberShift(b.digits, a.point - b.point);
      ExtendLSP(b, a.point);
    } else if a.point < b.point {
      NumberShift(a.digits, b.point - a.point);
      ExtendLSP(a, b.point);
    }
    assert Pow10(0) == 1;
    var msa, msb := |a.digits| - a.point, |b.digits| - b.point;
    if msa > msb {
      NumberPad(b.digits, b.point + msa - |b.digits|);
      ExtendMSP(b, msa);
    } else if msa < msb {
      NumberPad(a.digits, a.point + msb - |a.digits|);
      ExtendMSP(a, msb);
    }
  }

  method CountZerosBelow(b: Bignum) returns (n: nat)
    requires b.Valid()
    ensures n <= b.point && b.digits[..n] == Zeros(n) && (n < b.point ==> b.digits[n] != 0)
  {
    n := 0;
    while n < b.point && b.digits[n] == 0
      invariant n <= b.point && b.digits[..n] == Zeros(n)
    {
      n := n + 1;
      assert b.digits[..n] == Zeros(n - 1) + [0];
    }
  }

  method CountZerosAbove(b: Bignum) returns (n: nat)
    requires b.Valid()
    ensures n + b.point < |b.digits| && b.digits[|b.digits| - n..] == Zeros(n)
    ensures n + b.point + 1 < |b.digits| ==> b.digits[|b.digits| - 1 - n] != 0
  {
    var len := |b.digits|;
    n := 0;
    while len - 1 - n > b.point && b.digits[len - 1 - n] == 0
      invariant n <= len - 1 - b.point && b.digits[len - n..] == Zeros(n)
    {
      assert b.digits[len - n - 1..] == [0] + b.digits[len - n..];
      n := n + 1;
    }
  }

  /** Strips zeros behind the point from below and zeros before it from above, one digit before the point excepted. */
  method Shrink(b: Bignum)
    requires b.Valid()
    modifies b`digits, b`point
    ensures Kept(b) && b.Shrunk() && b.point <= old(b.point) && |b.digits| <= |old(b.digits)|
    ensures old(b.point) == 0 ==> b.Mantissa() == old(b.Mantissa())
  {
    hide Number, Frac, Pow10, Zeros, Digits;
    ghost var s := b.digits;
    var lspZeros := CountZerosBelow(b);
    var mspZeros := CountZerosAbove(b);
    var size := |b.digits| - lspZeros - mspZeros;
    assert size > 0;  // there is always a digit before the point
    ShrinkValue(s, lspZeros, mspZeros, b.point);
    b.digits := b.digits[lspZeros..] + b.digits[..lspZeros];  // moved down within the buffer
    ResizeBignum(b, size);
    MovedDown(s, lspZeros, mspZeros);
    b.point := b.point - lspZeros;
  }

  lemma MovedDown(s: seq<int>, lz: nat, mz: nat)
    requires lz + mz < |s|
    ensures (s[lz..] + s[..lz])[..|s| - lz - mz] == s[lz..|s| - mz]
  {}

  lemma ShrinkValue(s: seq<int>, lz: nat, mz: nat, point: nat)
    requires Digits(s) && lz + mz < |s| && lz <= point
    requires s[..lz] == Zeros(lz) && s[|s| - mz..] == Zeros(mz)
    ensures Digits(s[lz..|s| - mz])
    ensures Frac(Number(s), point) == Frac(Number(s[lz..|s| - mz]), point - lz)
    ensures lz == 0 ==> Number(s) == Number(s[lz..|s| - mz])
  {
    hide Number, Pow10, Frac;
    var mid := s[lz..|s| - mz];
    assert s == Zeros(lz) + (mid + Zeros(mz));
    NumberPad(mid, mz);
    NumberShift(mid + Zeros(mz), lz);
    FracScale(Number(mid), lz, point - lz);
    if lz == 0 { assert Zeros(0) + (mid + Zeros(mz)) == mid + Zeros(mz); }
  }

  method SetPoint(b: Bignum, point: nat)
    requires Digits(b.digits) && (b.sign == PLUS || b.sign == MINUS)
    modifies b`digits, b`point
    ensures b.Valid() && b.point == point && Number(b.digits) == old(Number(b.digits))
  {
    if point >= |b.digits| {
      NumberPad(b.digits, b.point + point + 1 - |b.digits|);
      ResizeBignum(b, b.point + (point + 1));
    }
    b.point := point;
  }

  // ---------------------------------------------------------------- comparison

  lemma NumberAround(s: seq<int>, i: nat)
    requires Digits(s) && i < |s|
    ensures Number(s) == Number(s[..i]) + Pow10(i) * Number(s[i..]) && Number(s[..i]) < Pow10(i)
    ensures Number(s[i..]) == s[i] + 10 * Number(s[i + 1..])
  {
    hide Number, Pow10;
    SplitNumber(s, i);
    assert s[i..] == [s[i]] + s[i + 1..];
    NumberCons(s[i], s[i + 1..]);
  }

  /** The first difference from the top decides. */
  lemma TopDecides(s: seq<int>, t: seq<int>, i: nat)
    requires Digits(s) && Digits(t) && i < |s| == |t| && s[i + 1..] == t[i + 1..] && s[i] < t[i]
    ensures Number(s) < Number(t)
  {
    hide Number, Pow10;
    NumberAround(s, i);
    NumberAround(t, i);
    Leading(Number(s[..i]), Pow10(i), Number(s[i..]), Number(t[..i]), Number(t[i..]));
  }

  lemma Leading(x: nat, p: nat, u: nat, y: nat, v: nat)
    requires x < p && u < v
    ensures x + p * u < y + p * v
  {
    MulOrder(u + 1, v, p);
    assert (u + 1) * p == p * u + p;
  }

  lemma NumberCons(d: int, s: seq<int>)
    requires Digits(s) && 0 <= d <= 9
    ensures Digits([d] + s) && Number([d] + s) == d + 10 * Number(s)
  {
    assert ([d] + s)[1..] == s;
  }

  function OrdOf(x: real, y: real): Ord {
    if x < y then LT else if x > y then GT else EQ
  }

  /** Compares the absolute values; the operands stay aligned. */
  method CompareAbs(a: Bignum, b: Bignum) returns (r: Ord)
    requires a.Valid() && b.Valid()
    modifies a`digits, a`point, b`digits, b`point
    ensures Kept(a) && Kept(b) && a.point == b.point && |a.digits| == |b.digits|
    ensures a.point == Max(old(a.point), old(b.point)) && |a.digits| == old(MatchedLen(a, b))
    ensures a.Mantissa() == old(MantissaAt(a, Max(a.point, b.point)))
    ensures b.Mantissa() == old(MantissaAt(b, Max(a.point, b.point)))
    ensures r == OrdOf(a.Abs(), b.Abs())
    ensures r == LT <==> a.Mantissa() < b.Mantissa()
    ensures r == EQ <==> a.Mantissa() == b.Mantissa()
  {
    hide Number, Frac, Digits;
    MatchSizes(a, b);
    FracOrder(Number(a.digits), Number(b.digits), a.point);
    FracOrder(Number(b.digits), Number(a.digits), a.point);
    r := CompareDigits(a, b);
  }

  method CompareDigits(a: Bignum, b: Bignum) returns (r: Ord)
    requires a.Valid() && b.Valid() && |a.digits| == |b.digits|
    ensures r == if Number(a.digits) < Number(b.digits) then LT else if Number(a.digits) > Number(b.digits) then GT
          else EQ
  {
    hide Number;
    var i := |a.digits| - 1;
    while true
      invariant 0 <= i < |a.digits| && a.digits[i + 1..] == b.digits[i + 1..]
      decreases i
    {
      var delta := a.digits[i] - b.digits[i];
      if delta < 0 { TopDecides(a.digits, b.digits, i); return LT; }
      if delta > 0 { TopDecides(b.digits, a.digits, i); return GT; }
      assert a.digits[i..] == [a.digits[i]] + a.digits[i + 1..];
      assert b.digits[i..] == [b.digits[i]] + b.digits[i + 1..];
      if i == 0 { assert a.digits == a.digits[0..] && b.digits == b.digits[0..]; return EQ; }
      i := i - 1;
    }
  }

  /** Compares signs first: zero with a minus sign counts as less than zero with a plus sign. */
  method Compare(a: Bignum, b: Bignum) returns (r: Ord)
    requires a.Valid() && b.Valid()
    modifies a`digits, a`point, b`digits, b`point
    ensures Kept(a) && Kept(b)
    ensures a.sign == b.sign || a.Value() != 0.0 || b.Value() != 0.0 ==> r == OrdOf(a.Value(), b.Value())
    ensures a.sign != b.sign ==> r == if a.sign == MINUS then LT else GT
  {
    hide Number, Digits;
    AbsNonNegative(a);
    AbsNonNegative(b);
    var signDiff := a.sign - b.sign;
    if signDiff < 0 { return LT; }
    if signDiff > 0 { return GT; }
    r := CompareAbs(a, b);
    if a.sign == MINUS {
      r := match r case LT => GT case EQ => EQ case GT => LT;
    }
  }

  lemma AbsNonNegative(b: Bignum)
    requires b.Valid()
    ensures b.Abs() >= 0.0
  {
    FracOrder(0, Number(b.digits), b.point);
    assert Frac(0, b.point) == 0.0;
  }

  // ---------------------------------------------------------------- addition and subtraction

  /** One column: what is written and what is carried, within eight bits. */
  lemma Column(x: int, y: int, sigma: int, carry: int)
    requires 0 <= x <= 9 && 0 <= y <= 9
    requires (sigma == 1 && 0 <= carry <= 1) || (sigma == -1 && -1 <= carry <= 0)
    ensures -128 <= x + y * sigma + carry < 128
    ensures var t := x + y * sigma + carry; if t < 0 then 0 <= t + 10 <= 9 && sigma == -1
          else t / 10 <= (if sigma == 1 then 1 else 0)
  {}

  lemma ColumnNumber(s: seq<int>, t: seq<int>, r: seq<int>, sigma: int, i: nat, carry: int, d: int, carry': int)
    requires Digits(s) && Digits(t) && i < |s| == |t| && Digits(r) && |r| == i && 0 <= d <= 9
    requires Number(r) + carry * Pow10(i) == Number(s[..i]) + sigma * Number(t[..i])
    requires d + 10 * carry' == s[i] + sigma * t[i] + carry
    ensures Digits(r + [d])
    ensures Number(r + [d]) + carry' * Pow10(i + 1) == Number(s[..i + 1]) + sigma * Number(t[..i + 1])
  {
    hide Number;
    NumberAppend(r, d);
    assert s[..i + 1] == s[..i] + [s[i]] && t[..i + 1] == t[..i] + [t[i]];
    NumberAppend(s[..i], s[i]);
    NumberAppend(t[..i], t[i]);
    ColumnSum(Number(r), Pow10(i), Number(s[..i]), Number(t[..i]), sigma, carry, d, carry', s[i], t[i]);
  }

  lemma ColumnSum(r: int, p: int, x: int, y: int, sigma: int, carry: int, d: int, carry': int, u: int, v: int)
    requires r + carry * p == x + sigma * y && d + 10 * carry' == u + sigma * v + carry
    ensures r + d * p + carry' * (10 * p) == x + u * p + sigma * (y + v * p)
  {
    assert d * p + carry' * (10 * p) == (d + 10 * carry') * p;
    assert (u + sigma * v + carry) * p == u * p + sigma * (v * p) + carry * p;
  }

  /** The column loop on aligned operands; a difference needs the larger one first. */
  method AddDigits(a: Bignum, b: Bignum) returns (r: Bignum)
    requires a.Valid() && b.Valid() && |a.digits| == |b.digits| && a.point == b.point
    requires a.sign == b.sign || a.Mantissa() >= b.Mantissa()
    ensures fresh(r) && r.Valid() && r.sign == a.sign && r.point == a.point && |r.digits| == |a.digits| + 1
    ensures r.Mantissa() == a.Mantissa() + (if a.sign == b.sign then b.Mantissa() else -b.Mantissa())
  {
    hide Number, Pow10;
    ghost var sigma := if a.sign == b.sign then 1 else -1;
    var len := |a.digits|;
    r := CopyBignum(a);
    ResizeBignum(r, len + 1);
    var carry := 0;
    ColumnStart();
    for i := 0 to len
      invariant |r.digits| == len + 1 && r.sign == a.sign && r.point == a.point && Digits(r.digits[..i])
      invariant if sigma == 1 then 0 <= carry <= 1 else -1 <= carry <= 0
      invariant Number(r.digits[..i]) + carry * Pow10(i) == Number(a.digits[..i]) + sigma * Number(b.digits[..i])
    {
      ghost var done, before := r.digits[..i], carry;
      SignProduct(a.sign, b.sign, b.digits[i]);
      Column(a.digits[i], b.digits[i], sigma, carry);
      var t: int8 := (a.digits[i] + b.digits[i] * a.sign * b.sign + carry) as int8;
      if t < 0 {
        carry := -1;
        t := t + 10;
      } else {
        carry := t as int / 10;
        t := t % 10;
      }
      r.digits := r.digits[i := t as int];
      ColumnNumber(a.digits, b.digits, done, sigma, i, before, t as int, carry);
      assert r.digits[..i + 1] == done + [t as int];
    }
    assert a.digits[..len] == a.digits && b.digits[..len] == b.digits;
    NumberBound(r.digits[..len]);
    NoBorrowLeft(Number(r.digits[..len]), Pow10(len), carry, Number(a.digits) + sigma * Number(b.digits));
    ghost var low := r.digits[..len];
    r.digits := r.digits[len := carry];
    assert r.digits == low + [carry];
    NumberAppend(low, carry);
  }

  lemma ColumnStart()
    ensures Number([]) == 0 && 0 * Pow10(0) == 0
  {}

  lemma SignProduct(x: int, y: int, d: int)
    requires (x == 1 || x == -1) && (y == 1 || y == -1)
    ensures d * x * y == d * (if x == y then 1 else -1)
  {}

  lemma NoBorrowLeft(n: nat, p: nat, carry: int, total: int)
    requires n < p && n + carry * p == total >= 0 && -1 <= carry
    ensures carry >= 0
  {}

  /** `b->sign *= MINUS`. */
  method Negate(b: Bignum)
    requires b.Valid()
    modifies b`sign
    ensures b.Valid() && b.sign == -old(b.sign) && b.Abs() == old(b.Abs()) && b.Value() == -old(b.Value())
    ensures b.Mantissa() == old(b.Mantissa()) && b.Shrunk() == old(b.Shrunk())
  {
    b.sign := -b.sign;
  }

  /** How far the operands are from the order the column loop wants. */
  ghost function AddRank(a: Bignum, b: Bignum): nat
    reads a, b
    requires a.Valid() && b.Valid()
  {
    if a.sign == b.sign then 0
    else if a.Abs() < b.Abs() then 2
    else if a.sign == MINUS then 1
    else 0
  }

  /** The exact sum, for all signs, lengths and points; the operands keep their values. */
  method AddBignum(a: Bignum, b: Bignum) returns (r: Bignum)
    requires a.Valid() && b.Valid()
    modifies a, b
    ensures fresh(r) && r.Valid() && r.Shrunk() && r.Value() == old(a.Value()) + old(b.Value())
    ensures Kept(a) && Kept(b) && a.Shrunk() && b.Shrunk()
    ensures r.point <= Max(old(a.point), old(b.point))
    ensures if old(a.sign) == old(b.sign) then r.sign == old(a.sign) else r.Value() >= 0.0 ==> r.sign == PLUS
    ensures a.point <= Max(old(a.point), old(b.point)) && b.point <= Max(old(a.point), old(b.point))
    decreases AddRank(a, b), 1
  {
    hide Number, Digits, Frac, Pow10, Bignum.Abs, Bignum.Value, Bignum.Shrunk, MatchedLen, MantissaAt;
    MatchSizes(a, b);
    if a.sign != b.sign {
      var cmp := CompareAbs(a, b);
      if cmp == LT || (cmp == EQ && a.sign == MINUS) {
        r := AddBignum(b, a);
        return;
      } else if cmp == GT && a.sign == MINUS {
        r := AddNegated(a, b);
        return;
      }
    }
    r := AddAligned(a, b);
  }

  /** A negative number and a smaller positive one: both signs are flipped for the sum, and back. */
  method AddNegated(a: Bignum, b: Bignum) returns (r: Bignum)
    requires a.Valid() && b.Valid() && a.sign == MINUS && b.sign == PLUS && a.Abs() > b.Abs()
    modifies a, b
    ensures fresh(r) && r.Valid() && r.Shrunk() && r.Value() == old(a.Value()) + old(b.Value()) < 0.0
    ensures Kept(a) && Kept(b) && a.Shrunk() && b.Shrunk()
    ensures r.point <= Max(old(a.point), old(b.point))
    ensures a.point <= Max(old(a.point), old(b.point)) && b.point <= Max(old(a.point), old(b.point))
    decreases AddRank(a, b), 0
  {
    hide Number, Digits, Frac, Pow10, Bignum.Abs, Bignum.Value, Bignum.Shrunk;
    SignedValue(a);
    SignedValue(b);
    Negate(a);
    Negate(b);
    r := AddBignum(a, b);
    Negate(a);
    Negate(b);
    Negate(r);
  }

  lemma SignedValue(b: Bignum)
    requires b.Valid()
    ensures b.Value() == if b.sign == PLUS then b.Abs() else -b.Abs()
  {}

  /** The end of an addition: the column loop, and all three numbers shrunk. */
  method AddAligned(a: Bignum, b: Bignum) returns (r: Bignum)
    requires a.Valid() && b.Valid() && |a.digits| == |b.digits| && a.point == b.point
    requires a.sign == b.sign || a.Mantissa() >= b.Mantissa()
    modifies a, b
    ensures fresh(r) && r.Valid() && r.Shrunk() && r.Value() == old(a.Value()) + old(b.Value())
    ensures Kept(a) && Kept(b) && a.Shrunk() && b.Shrunk()
    ensures r.sign == old(a.sign) && r.point <= old(a.point)
    ensures a.point <= old(a.point) && b.point <= old(a.point)
  {
    hide Number, Digits, Frac, Pow10, Bignum.Abs, Bignum.Value, Bignum.Shrunk;
    r := AddDigits(a, b);
    AddValue(a, b, r);
    Shrink(a);
    Shrink(b);
    Shrink(r);
  }

  lemma AddValue(a: Bignum, b: Bignum, r: Bignum)
    requires a.Valid() && b.Valid() && r.Valid() && a.point == b.point == r.point && r.sign == a.sign
    requires r.Mantissa() == a.Mantissa() + (if a.sign == b.sign then b.Mantissa() else -b.Mantissa())
    ensures r.Value() == a.Value() + b.Value()
  {
    FracAdd(a.Mantissa(), b.Mantissa(), a.point);
    FracAdd(a.Mantissa(), -b.Mantissa(), a.point);
    FracNegate(b.Mantissa(), a.point);
  }

  /** The exact difference, unless both operands are one object: then flipping the sign of one flips both. */
  method SubBignum(a: Bignum, b: Bignum) returns (r: Bignum)
    requires a.Valid() && b.Valid()
    modifies a, b
    ensures fresh(r) && r.Valid() && r.Shrunk()
    ensures r.Value() == if a != b then old(a.Value()) - old(b.Value()) else -2.0 * old(a.Value())
    ensures Kept(a) && Kept(b) && a.Shrunk() && b.Shrunk()
    ensures r.point <= Max(old(a.point), old(b.point))
    ensures a != b && old(a.sign) == old(b.sign) && r.Value() >= 0.0 ==> r.sign == PLUS
    ensures a.point <= Max(old(a.point), old(b.point)) && b.point <= Max(old(a.point), old(b.point))
  {
    hide Number, Digits, Frac;
    Negate(b);
    r := AddBignum(a, b);
    Negate(b);
  }

  // ---------------------------------------------------------------- multiplication

  /** A number without sign and fraction. */
  ghost predicate Whole(b: Bignum, n: int)
    reads b
  {
    b.Valid() && b.sign == PLUS && b.point == 0 && b.Mantissa() == n
  }

  lemma WholeValue(b: Bignum, n: int)
    requires b.Valid() && b.sign == PLUS && b.point == 0
    ensures Whole(b, n) <==> b.Value() == n as real
  {
    assert Pow10(0) == 1;
  }

  /** The low `loLen` digits and the rest, as whole numbers without leading zeros. */
  method Split(b: Bignum, loLen: nat) returns (hi: Bignum, lo: Bignum)
    requires b.Valid() && loLen > 0
    ensures fresh(hi) && fresh(lo) && hi != lo && hi.Valid() && lo.Valid()
    ensures loLen < |b.digits| ==> Whole(lo, Number(b.digits[..loLen])) && Whole(hi, Number(b.digits[loLen..]))
    ensures loLen < |b.digits| ==> |lo.digits| <= loLen && |hi.digits| <= |b.digits| - loLen
    ensures loLen >= |b.digits| ==> Whole(hi, 0) && lo.sign == b.sign && lo.point == b.point && lo.digits == b.digits
  {
    hide Frac;
    var len := |b.digits|;
    if loLen > len - 1 {
      hi := new Bignum(1);
      NumberZeros(1);
      lo := CopyBignum(b);
    } else {
      hide Number;
      hi := new Bignum(len - loLen);
      lo := new Bignum(loLen);
      hi.digits := b.digits[loLen..];
      lo.digits := b.digits[..loLen];
      Shrink(hi);
      Shrink(lo);
    }
  }

  lemma SplitNumber(s: seq<int>, m: nat)
    requires Digits(s) && m <= |s|
    ensures Number(s) == Number(s[..m]) + Pow10(m) * Number(s[m..])
    ensures Number(s[..m]) < Pow10(m) && Number(s[m..]) < Pow10(|s| - m)
  {
    NumberBound(s[m..]);
    assert s == s[..m] + s[m..];
    NumberConcat(s[..m], s[m..]);
    NumberBound(s[..m]);
  }

  /** What the recursion descends on: the aligned mantissas, then the aligned length. */
  ghost function AlignedSum(a: Bignum, b: Bignum): nat
    reads a, b
    requires a.Valid() && b.Valid()
  {
    MantissaAt(a, Max(a.point, b.point)) + MantissaAt(b, Max(a.point, b.point))
  }

  lemma WholeMeasure(a: Bignum, b: Bignum, x: int, y: int)
    requires Whole(a, x) && Whole(b, y)
    ensures AlignedSum(a, b) == x + y && MatchedLen(a, b) == Max(|a.digits|, |b.digits|)
  {
    assert Pow10(0) == 1;
  }

  /** Karatsuba's identity. */
  lemma Karatsuba(p: int, aLo: int, aHi: int, bLo: int, bHi: int)
    ensures p * p * (aHi * bHi) + p * ((aLo + aHi) * (bLo + bHi) - aHi * bHi - aLo * bLo) + aLo * bLo
         == (aLo + p * aHi) * (bLo + p * bHi)
    ensures (aLo + aHi) * (bLo + bHi) - aHi * bHi == aLo * bLo + (aLo * bHi + aHi * bLo)
  {
    var cross := aLo * bHi + aHi * bLo;
    assert (aLo + aHi) * (bLo + bHi) == aLo * bLo + cross + aHi * bHi;
    assert p * cross == aLo * (p * bHi) + (p * aHi) * bLo;
    assert p * p * (aHi * bHi) == (p * aHi) * (p * bHi);
    assert (aLo + p * aHi) * (bLo + p * bHi) == aLo * bLo + aLo * (p * bHi) + (p * aHi) * bLo + (p * aHi) * (p * bHi);
  }

  lemma NonNegative(x: nat, y: nat)
    ensures x * y >= 0
  {}

  /** Addition as whole numbers see it. */
  method AddWhole(a: Bignum, b: Bignum, ghost x: nat, ghost y: nat) returns (r: Bignum)
    requires Whole(a, x) && Whole(b, y)
    modifies a, b
    ensures fresh(r) && Whole(r, x + y) && r.Shrunk() && Whole(a, x) && Whole(b, y) && a.Shrunk() && b.Shrunk()
  {
    hide Number, Digits;
    WholeValue(a, x);
    WholeValue(b, y);
    r := AddBignum(a, b);
    WholeValue(r, x + y);
    WholeValue(a, x);
    WholeValue(b, y);
  }

  method SubWhole(a: Bignum, b: Bignum, ghost x: nat, ghost y: nat) returns (r: Bignum)
    requires Whole(a, x) && Whole(b, y) && a != b && x >= y
    modifies a, b
    ensures fresh(r) && Whole(r, x - y) && r.Shrunk() && Whole(a, x) && Whole(b, y)
  {
    hide Number, Digits;
    WholeValue(a, x);
    WholeValue(b, y);
    r := SubBignum(a, b);
    WholeValue(r, x - y);
    WholeValue(a, x);
    WholeValue(b, y);
  }

  /** Puts the three products together. */
  method Combine(z0: Bignum, z1: Bignum, z2: Bignum, m: nat, ghost aLo: nat, ghost aHi: nat, ghost bLo: nat,
                 ghost bHi: nat)
    returns (r: Bignum)
    requires z0 != z1 && z1 != z2 && z0 != z2
    requires Whole(z0, aLo * bLo) && Whole(z1, (aLo + aHi) * (bLo + bHi)) && Whole(z2, aHi * bHi)
    modifies z0, z1, z2
    ensures fresh(r) && Whole(r, (aLo + Pow10(m) * aHi) * (bLo + Pow10(m) * bHi))
  {
    ghost var p, x0: int, x1: int, x2: int := Pow10(m), aLo * bLo, (aLo + aHi) * (bLo + bHi), aHi * bHi;
    Products(p, aLo, aHi, bLo, bHi, x0, x1, x2);
    Reassemble(m, p, aLo, aHi, bLo, bHi, x0, x1, x2);
    hide Pow10, Whole;
    var top := TopTerm(z2, 2 * m, x2);
    var middle := MiddleTerm(z0, z1, z2, m, x0, x1, x2);
    var s := AddWhole(top, middle, x2 * Pow10(2 * m), (x1 - x2 - x0) * p);
    r := AddWhole(s, z0, x2 * Pow10(2 * m) + (x1 - x2 - x0) * p, x0);
  }

  method TopTerm(z2: Bignum, s: nat, ghost x2: nat) returns (r: Bignum)
    requires Whole(z2, x2)
    ensures fresh(r) && Whole(r, x2 * Pow10(s))
  {
    hide Pow10, Number;
    r := CopyBignum(z2);
    ShlWhole(r, s, x2);
  }

  method MiddleTerm(z0: Bignum, z1: Bignum, z2: Bignum, s: nat, ghost x0: nat, ghost x1: nat, ghost x2: nat)
    returns (r: Bignum)
    requires z0 != z1 && z1 != z2 && z0 != z2 && Whole(z0, x0) && Whole(z1, x1) && Whole(z2, x2) && x0 + x2 <= x1
    modifies z0, z1, z2
    ensures fresh(r) && Whole(r, (x1 - x2 - x0) * Pow10(s)) && Whole(z0, x0)
  {
    hide Pow10, Whole;
    var t := SubWhole(z1, z2, x1, x2);
    r := SubWhole(t, z0, x1 - x2, x0);
    ShlWhole(r, s, x1 - x2 - x0);
  }

  /** The three products are natural, and so are the differences taken. */
  lemma Products(p: nat, aLo: nat, aHi: nat, bLo: nat, bHi: nat, x0: int, x1: int, x2: int)
    requires x0 == aLo * bLo && x1 == (aLo + aHi) * (bLo + bHi) && x2 == aHi * bHi
    ensures 0 <= x0 && 0 <= x2 <= x1 && x0 <= x1 - x2
  {
    Karatsuba(p, aLo, aHi, bLo, bHi);
    NonNegative(aLo, bLo);
    NonNegative(aHi, bHi);
    NonNegative(aLo, bHi);
    NonNegative(aHi, bLo);
  }

  lemma Reassemble(m: nat, p: nat, aLo: nat, aHi: nat, bLo: nat, bHi: nat, x0: int, x1: int, x2: int)
    requires x0 == aLo * bLo && x1 == (aLo + aHi) * (bLo + bHi) && x2 == aHi * bHi && p == Pow10(m)
    ensures x2 * Pow10(2 * m) + (x1 - x2 - x0) * p + x0 == (aLo + Pow10(m) * aHi) * (bLo + Pow10(m) * bHi)
  {
    hide Pow10;
    Pow10Add(m, m);
    Karatsuba(p, aLo, aHi, bLo, bHi);
    Reorder(x2, p, x1 - x2 - x0);
  }

  lemma Reorder(x: int, p: int, y: int)
    ensures x * (p * p) == p * p * x && y * p == p * y
  {}

  method ShlWhole(b: Bignum, s: nat, ghost n: nat)
    requires Whole(b, n)
    modifies b`digits
    ensures Whole(b, n * Pow10(s))
  {
    hide Pow10;
    NumberShift(b.digits, s);
    ShlBignum(b, s);
  }

  /** Both operands one digit long: then, and only then, the sign is lost. */
  ghost predicate SingleDigits(a: Bignum, b: Bignum)
    reads a, b
  {
    |a.digits| < 2 && |b.digits| < 2
  }

  ghost function Product(a: Bignum, b: Bignum): real
    reads a, b
    requires a.Valid() && b.Valid()
  {
    if SingleDigits(a, b) then a.Abs() * b.Abs() else a.Value() * b.Value()
  }

  lemma DigitAbs(a: Bignum)
    requires a.Valid() && |a.digits| < 2
    ensures a.point == 0 && 0 <= a.digits[0] <= 9 && a.Abs() == a.digits[0] as real
  {
    assert a.digits == [a.digits[0]];
    OneDigit(a.digits[0]);
    assert Pow10(0) == 1;
  }

  lemma DigitProduct(x: int, y: int)
    requires 0 <= x <= 9 && 0 <= y <= 9
    ensures 0 <= x * y <= 81 && x as real * y as real == (x * y) as real
  {
    RealProduct(x, y);
    MulOrder(x, 9, y);
  }

  method MulDigits(a: Bignum, b: Bignum) returns (r: Bignum)
    requires a.Valid() && b.Valid() && SingleDigits(a, b)
    ensures fresh(r) && r.Valid() && r.Shrunk() && r.Value() == a.Abs() * b.Abs() && r.sign == PLUS && r.point == 0
  {
    hide Number, Frac, DigitCount, Digits, Bignum.Abs, Bignum.Value;
    DigitAbs(a);
    DigitAbs(b);
    DigitProduct(a.digits[0], b.digits[0]);
    r := NewBignumOf(a.digits[0] * b.digits[0]);
  }

  /** The exact product, up to the sign of one-digit operands; the points add, and the operands keep their values.
      Three smaller products do: aligned mantissas shrink, or stay and lose digits. */
  method MulBignum(a: Bignum, b: Bignum) returns (r: Bignum)
    requires a.Valid() && b.Valid()
    modifies a, b
    ensures fresh(r) && r.Valid() && r.Shrunk() && r.Value() == old(Product(a, b))
    ensures Kept(a) && Kept(b)
    ensures if old(SingleDigits(a, b)) then a.digits == old(a.digits) && b.digits == old(b.digits)
          else a.Shrunk() && b.Shrunk()
    ensures old(a.point) == old(b.point) == 0 ==> a.point == b.point == r.point == 0
    ensures old(a.sign) == old(b.sign) ==> r.sign == PLUS
    decreases AlignedSum(a, b), MatchedLen(a, b), 3
  {
    hide Number, Digits, Frac, Pow10, Bignum.Abs, Bignum.Value;
    if |a.digits| < 2 && |b.digits| < 2 {
      r := MulDigits(a, b);
      return;
    }
    r := MulLong(a, b);
  }

  method MulLong(a: Bignum, b: Bignum) returns (r: Bignum)
    requires a.Valid() && b.Valid() && !SingleDigits(a, b)
    modifies a, b
    ensures fresh(r) && r.Valid() && r.Shrunk() && r.Value() == old(a.Value()) * old(b.Value())
    ensures Kept(a) && Kept(b) && a.Shrunk() && b.Shrunk()
    ensures old(a.point) == old(b.point) == 0 ==> a.point == b.point == r.point == 0
    ensures old(a.sign) == old(b.sign) ==> r.sign == PLUS
    decreases AlignedSum(a, b), MatchedLen(a, b), 2
  {
    hide Number, Digits, Frac, Pow10, Bignum.Abs, Bignum.Value;
    MatchSizes(a, b);
    r := MulParts(a, b, |a.digits| / 2);
    PlacePoint(a, b, r);
    Shrink(a);
    Shrink(b);
    Shrink(r);
  }

  /** Signs multiply and points add. */
  method PlacePoint(a: Bignum, b: Bignum, r: Bignum)
    requires a.Valid() && b.Valid() && r != a && r != b && Whole(r, a.Mantissa() * b.Mantissa())
    modifies r
    ensures r.Valid() && r.Value() == a.Value() * b.Value() && r.sign == a.sign * b.sign && r.point == a.point + b.point
  {
    hide Number, Digits, Frac, Pow10;
    r.sign := a.sign * b.sign;
    r.point := a.point + b.point;
    SetPoint(r, r.point);
    MulValue(a, b, r);
  }

  lemma MulValue(a: Bignum, b: Bignum, r: Bignum)
    requires a.Valid() && b.Valid() && r.Valid() && r.Mantissa() == a.Mantissa() * b.Mantissa()
    requires r.point == a.point + b.point && r.sign == a.sign * b.sign
    ensures r.Value() == a.Value() * b.Value()
  {
    hide Frac;
    FracMul(a.Mantissa(), a.point, b.Mantissa(), b.point);
    RealSigns(a.Abs(), b.Abs());
  }

  lemma RealSigns(x: real, y: real)
    ensures (-x) * y == -(x * y) && x * (-y) == -(x * y) && (-x) * (-y) == x * y
  {}

  /** The product of aligned mantissas, from those of their parts. */
  method MulParts(a: Bignum, b: Bignum, m: nat) returns (r: Bignum)
    requires a.Valid() && b.Valid() && 0 < m < |a.digits| == |b.digits| && |a.digits| <= 2 * m + 1
    ensures fresh(r) && Whole(r, a.Mantissa() * b.Mantissa())
    decreases Number(a.digits) + Number(b.digits), |a.digits|, 1
  {
    ghost var x, y, n, p := Number(a.digits), Number(b.digits), |a.digits|, Pow10(m);
    ghost var xLo, xHi, yLo, yHi := Number(a.digits[..m]), Number(a.digits[m..]), Number(b.digits[..m]),
        Number(b.digits[m..]);
    SplitNumber(a.digits, m);
    SplitNumber(b.digits, m);
    PartsSmaller(x, p, xLo, xHi, m);
    PartsSmaller(y, p, yLo, yHi, m);
    var aHi, aLo := Split(a, m);
    hide Number, Digits, Frac, Pow10;
    var bHi, bLo := Split(b, m);
    r := MulPieces(aLo, aHi, bLo, bHi, m, xLo, xHi, yLo, yHi, x + y, n);
  }

  /** Three smaller products. `sum` and `n` bound the pieces: each product has a smaller sum, or the same sum and fewer
      digits. */
  method MulPieces(aLo: Bignum, aHi: Bignum, bLo: Bignum, bHi: Bignum, m: nat, ghost xLo: nat, ghost xHi: nat,
                   ghost yLo: nat, ghost yHi: nat, ghost sum: nat, ghost n: nat)
    returns (r: Bignum)
    requires aLo != aHi && aLo != bLo && aLo != bHi && aHi != bLo && aHi != bHi && bLo != bHi
    requires Whole(aLo, xLo) && Whole(aHi, xHi) && Whole(bLo, yLo) && Whole(bHi, yHi)
    requires 0 < m < n && |aLo.digits| <= m && |bLo.digits| <= m
    requires xLo < Pow10(m) && yLo < Pow10(m) && xHi < Pow10(n - m) && yHi < Pow10(n - m)
    requires xLo + yLo <= sum && xHi + yHi <= sum && xLo + xHi + yLo + yHi <= sum
    requires xLo + xHi + yLo + yHi == sum ==> xHi == yHi == 0
    modifies aLo, aHi, bLo, bHi
    ensures fresh(r) && Whole(r, (xLo + Pow10(m) * xHi) * (yLo + Pow10(m) * yHi))
    decreases sum, n, 0
  {
    hide Whole, Pow10, Bignum.Shrunk, AlignedSum, MatchedLen, Bignum.Valid;
    WholeMeasure(aLo, bLo, xLo, yLo);
    var z0 := MulWhole(aLo, bLo, xLo, yLo);
    var sa := AddWhole(aLo, aHi, xLo, xHi);
    var sb := AddWhole(bLo, bHi, yLo, yHi);
    WholeMeasure(sa, sb, xLo + xHi, yLo + yHi);
    if xHi == 0 { WholeLength(sa, xLo + xHi, m); }
    if yHi == 0 { WholeLength(sb, yLo + yHi, m); }
    var z1 := MulWhole(sa, sb, xLo + xHi, yLo + yHi);
    WholeLength(aHi, xHi, n - m);
    WholeLength(bHi, yHi, n - m);
    WholeMeasure(aHi, bHi, xHi, yHi);
    var z2 := MulWhole(aHi, bHi, xHi, yHi);
    r := Combine(z0, z1, z2, m, xLo, xHi, yLo, yHi);
  }

  method MulWhole(a: Bignum, b: Bignum, ghost x: nat, ghost y: nat) returns (r: Bignum)
    requires Whole(a, x) && Whole(b, y)
    modifies a, b
    ensures fresh(r) && Whole(r, x * y) && Whole(a, x) && Whole(b, y)
    decreases AlignedSum(a, b), MatchedLen(a, b), 4
  {
    hide Number, Digits;
    WholeValue(a, x);
    WholeValue(b, y);
    RealProduct(x, y);
    NonNegative(x, y);
    r := MulBignum(a, b);
    WholeValue(r, x * y);
    WholeValue(a, x);
    WholeValue(b, y);
  }

  /** The sum of both parts is less than the whole, unless there is no high part. */
  lemma PartsSmaller(x: nat, p: nat, lo: nat, hi: nat, m: nat)
    requires x == lo + p * hi && p == Pow10(m) && m > 0
    ensures lo <= x && hi <= x && lo + hi <= x && (lo + hi == x ==> hi == 0)
  {
    assert p >= 10 by { Pow10Order(1, m); assert Pow10(1) == 10 * Pow10(0) == 10; }
    hide Pow10;
    MulOrder(10, p, hi);
  }

  lemma WholeLength(s: Bignum, v: nat, k: nat)
    requires Whole(s, v) && s.Shrunk() && v < Pow10(k) && k > 0
    ensures |s.digits| <= k
  {
    hide Number, Pow10;
    if |s.digits| > 1 { NumberLength(s.digits, k); }
  }
}
