/** Bit strings and their integer readings.

    A bit string is a `seq<bool>`. Deflate reads one both ways: plain fields least significant
    bit first (`Lsb`), Huffman codes most significant bit first (`Msb`). C's bitwise operators
    on unsigned values are given arithmetically: `x >> k` is `Shr`, `x << k` a product with
    `Pow2(k)`, a mask with `2^k - 1` is `Low`, and `Or`, `And`, `Xor` are defined bit by bit. */
module Bits {

  type byte = x: int | 0 <= x < 256

  function Pow2(n: nat): (r: nat)
    ensures r > 0
  {
    if n == 0 then 1 else 2 * Pow2(n - 1)
  }

  function Bit(b: bool): nat {
    if b then 1 else 0
  }

  /** The value of a bit string whose first bit is the least significant. */
  function Lsb(s: seq<bool>): nat {
    if s == [] then 0 else Bit(s[0]) + 2 * Lsb(s[1..])
  }

  /** The value of a bit string whose first bit is the most significant. */
  function Msb(s: seq<bool>): nat {
    if s == [] then 0 else 2 * Msb(s[..|s| - 1]) + Bit(s[|s| - 1])
  }

  /** The `n` low bits of `v`, least significant first. */
  function ToLsb(v: nat, n: nat): (s: seq<bool>)
    ensures |s| == n
  {
    if n == 0 then [] else [v % 2 == 1] + ToLsb(v / 2, n - 1)
  }

  /** The `n` low bits of `v`, most significant first. */
  function ToMsb(v: nat, n: nat): (s: seq<bool>)
    ensures |s| == n
  {
    if n == 0 then [] else ToMsb(v / 2, n - 1) + [v % 2 == 1]
  }

  function Zeros(n: nat): (s: seq<bool>)
    ensures |s| == n
  {
    seq(n, i => false)
  }

  /** Bit `k` of `v`. */
  predicate BitAt(v: nat, k: nat) {
    Shr(v, k) % 2 == 1
  }

  /** C's `v >> k`, and `v & ((1 << k) - 1)`. */
  function Shr(v: nat, k: nat): nat {
    DivNonNegative(v, Pow2(k));
    v / Pow2(k)
  }

  function Low(v: nat, k: nat): (r: nat)
    ensures r < Pow2(k)
  {
    v % Pow2(k)
  }

  /** C's `v << k` on a 32-bit unsigned value: what passes bit 31 is lost. */
  function Shl32(v: nat, k: nat): nat {
    v * Pow2(k) % 0x1_0000_0000
  }

  /** C's `a | b` and `a & b` on unsigned values. */
  function Or(a: nat, b: nat): nat
    decreases a + b
  {
    if a == 0 then b else if b == 0 then a
    else (if a % 2 == 1 || b % 2 == 1 then 1 else 0) + 2 * Or(a / 2, b / 2)
  }

  function And(a: nat, b: nat): nat
    decreases a
  {
    if a == 0 || b == 0 then 0
    else (if a % 2 == 1 && b % 2 == 1 then 1 else 0) + 2 * And(a / 2, b / 2)
  }

  function Xor(a: nat, b: nat): nat
    decreases a + b
  {
    if a == 0 then b else if b == 0 then a
    else (if a % 2 == b % 2 then 0 else 1) + 2 * Xor(a / 2, b / 2)
  }

  // ---------------------------------------------------------------- powers of two

  lemma {:induction false} Pow2Add(a: nat, b: nat)
    ensures Pow2(a + b) == Pow2(a) * Pow2(b)
  {
    if a > 0 {
      Pow2Add(a - 1, b);
      assert Pow2(a + b) == 2 * (Pow2(a - 1) * Pow2(b));
      MulAssoc(2, Pow2(a - 1), Pow2(b));
    }
  }

  lemma {:induction false} Pow2Mono(a: nat, b: nat)
    requires a <= b
    ensures Pow2(a) <= Pow2(b)
    decreases b - a
  {
    if a < b { Pow2Mono(a + 1, b); }
  }

  lemma Pow2Values()
    ensures Pow2(0) == 1 && Pow2(1) == 2 && Pow2(2) == 4 && Pow2(3) == 8 && Pow2(4) == 16 && Pow2(5) == 32
    ensures Pow2(6) == 64 && Pow2(7) == 128 && Pow2(8) == 256 && Pow2(9) == 512 && Pow2(15) == 32768
    ensures Pow2(16) == 65536 && Pow2(24) == 0x100_0000 && Pow2(32) == 0x1_0000_0000
  {
    Pow2Add(8, 1); Pow2Add(8, 7); Pow2Add(8, 8); Pow2Add(16, 8); Pow2Add(16, 16);
  }

  // ---------------------------------------------------------------- division facts

  lemma MulAssoc(a: int, b: int, c: int)
    ensures a * (b * c) == (a * b) * c
  {}

  /** Quotient and remainder are unique. */
  lemma DivModUnique(x: int, d: int, q: int, r: int)
    requires d > 0 && 0 <= r < d && x == q * d + r
    ensures x / d == q && x % d == r
  {
    var q', r' := x / d, x % d;
    assert x == q' * d + r';
    if q' < q { MulLe(q' + 1, q, d); }
    if q < q' { MulLe(q + 1, q', d); }
  }

  lemma MulNonNegative(a: nat, b: nat)
    ensures a * b >= 0
  {}

  lemma MulDistribute(a: int, b: int, c: int)
    ensures (a + b) * c == a * c + b * c
  {}

  lemma DivNonNegative(v: nat, d: nat)
    requires d > 0
    ensures v / d >= 0
  {}

  lemma DivBounds(x: nat, d: nat)
    requires d > 0
    ensures 0 <= x / d && (x / d) * d <= x < (x / d + 1) * d
  {}

  /** Multiples of `w` compare like their quotients. */
  lemma MulLt(a: nat, b: nat, w: nat)
    requires a * w < b * w
    ensures a < b
  {
    if b <= a { MulLe(b, a, w); }
  }

  lemma MulLe(a: int, b: int, d: nat)
    requires a <= b
    ensures a * d <= b * d
  {}

  lemma DivDiv(x: nat, a: nat, b: nat)
    requires a > 0 && b > 0
    ensures a * b > 0 && x / (a * b) == (x / a) / b
  {
    var q, r := x / a, x % a;
    var q', r' := q / b, q % b;
    assert x == q * a + r;
    assert q == q' * b + r';
    assert x == (q' * b + r') * a + r;
    assert (q' * b + r') * a == q' * (a * b) + r' * a by {
      assert (q' * b + r') * a == (q' * b) * a + r' * a;
      assert (q' * b) * a == q' * (a * b);
    }
    assert r' * a + r < a * b by { MulLe(r' + 1, b, a); }
    assert a * b > 0;
    DivModUnique(x, a * b, q', r' * a + r);
  }

  /** Shifting and masking in either order. */
  lemma ShrLow(v: nat, k: nat, n: nat)
    requires k <= n
    ensures Shr(Low(v, n), k) == Low(Shr(v, k), n - k)
    ensures Low(Low(v, n), k) == Low(v, k)
  {
    hide Pow2;
    Pow2Add(k, n - k);
    ModDiv(v, Pow2(k), Pow2(n - k));
  }

  lemma LowNoop(v: nat, n: nat)
    requires v < Pow2(n)
    ensures Low(v, n) == v && Shr(v, n) == 0
  {
    hide Pow2;
    DivModUnique(v, Pow2(n), 0, v);
  }

  lemma ShrShr(v: nat, a: nat, b: nat)
    ensures Shr(v, a + b) == Shr(Shr(v, a), b)
  {
    hide Pow2;
    Pow2Add(a, b);
    DivDiv(v, Pow2(a), Pow2(b));
  }

  lemma ShrBound(v: nat, k: nat, n: nat)
    requires v < Pow2(k + n)
    ensures Shr(v, k) < Pow2(n)
  {
    hide Pow2;
    Pow2Add(k, n);
    ShrLowJoin(v, k);
    MulLt(Shr(v, k), Pow2(n), Pow2(k));
  }

  /** Filling bits `k..n` above `a` stays below 2^n. */
  lemma JoinBound(a: nat, b: nat, k: nat, n: nat)
    requires k <= n && a < Pow2(k) && b < Pow2(n - k)
    ensures a + b * Pow2(k) < Pow2(n)
  {
    hide Pow2;
    Pow2Add(n - k, k);
    MulLe(b + 1, Pow2(n - k), Pow2(k));
  }

  lemma LowAddMultiple(q: nat, c: nat, k: nat)
    ensures Low(q + c * Pow2(k), k) == Low(q, k)
  {
    hide Pow2;
    var p := Pow2(k);
    MulDistribute(q / p, c, p);
    DivModUnique(q + c * p, p, q / p + c, q % p);
  }

  /** `v` from its `k` low bits and the rest. */
  lemma ShrLowJoin(v: nat, k: nat)
    ensures v == Low(v, k) + Shr(v, k) * Pow2(k)
  {
    hide Pow2;
  }

  /** Putting `b` above the `k` bits of `a`. */
  lemma JoinShrLow(a: nat, b: nat, k: nat)
    requires a < Pow2(k)
    ensures Low(a + b * Pow2(k), k) == a && Shr(a + b * Pow2(k), k) == b
  {
    hide Pow2;
    DivModUnique(a + b * Pow2(k), Pow2(k), b, a);
  }

  /** `(x % (a*b)) / a == (x / a) % b`, and `(x % (a*b)) % a == x % a`. */
  lemma ModDiv(x: nat, a: nat, b: nat)
    requires a > 0 && b > 0
    ensures a * b > 0 && (x % (a * b)) / a == (x / a) % b && (x % (a * b)) % a == x % a
  {
    var q, r := x / a, x % a;
    var q', r' := q / b, q % b;
    assert x == q * a + r;
    assert q == q' * b + r';
    assert (q' * b + r') * a == q' * (a * b) + r' * a by {
      assert (q' * b + r') * a == (q' * b) * a + r' * a;
      assert (q' * b) * a == q' * (a * b);
    }
    assert x == q' * (a * b) + (r' * a + r);
    assert 0 <= r' * a;
    assert r' * a + r < a * b by { MulLe(r' + 1, b, a); }
    DivModUnique(x, a * b, q', r' * a + r);
    DivModUnique(r' * a + r, a, r', r);
  }

  // ---------------------------------------------------------------- readings of bit strings

  lemma {:induction false} LsbBound(s: seq<bool>)
    ensures Lsb(s) < Pow2(|s|)
  {
    if s != [] { LsbBound(s[1..]); }
  }

  lemma {:induction false} LsbConcat(a: seq<bool>, b: seq<bool>)
    ensures Lsb(a + b) == Lsb(a) + Pow2(|a|) * Lsb(b)
  {
    if a == [] {
      assert a + b == b;
    } else {
      LsbConcat(a[1..], b);
      assert (a + b)[1..] == a[1..] + b;
      MulAssoc(2, Pow2(|a| - 1), Lsb(b));
    }
  }

  /** A right shift drops the first bits; a mask keeps them. */
  lemma LsbSplit(s: seq<bool>, k: nat)
    requires k <= |s|
    ensures Shr(Lsb(s), k) == Lsb(s[k..])
    ensures Low(Lsb(s), k) == Lsb(s[..k])
  {
    hide Lsb, Pow2;
    var a, b := s[..k], s[k..];
    assert s == a + b;
    LsbConcat(a, b);
    LsbBound(a);
    assert Lsb(s) == Lsb(b) * Pow2(k) + Lsb(a);
    DivModUnique(Lsb(s), Pow2(k), Lsb(b), Lsb(a));
  }

  lemma {:induction false} LsbZeros(n: nat)
    ensures Lsb(Zeros(n)) == 0
  {
    if n > 0 {
      LsbZeros(n - 1);
      assert Zeros(n)[1..] == Zeros(n - 1);
    }
  }

  lemma {:induction false} LsbOfToLsb(v: nat, n: nat)
    ensures Lsb(ToLsb(v, n)) == Low(v, n)
  {
    if n > 0 {
      LsbOfToLsb(v / 2, n - 1);
      assert ToLsb(v, n)[1..] == ToLsb(v / 2, n - 1);
      ModDiv(v, 2, Pow2(n - 1));
      var m := v % Pow2(n);
      assert m == 2 * (m / 2) + m % 2;
    }
  }

  lemma {:induction false} ToLsbOfLsb(s: seq<bool>)
    ensures ToLsb(Lsb(s), |s|) == s
  {
    if s != [] {
      ToLsbOfLsb(s[1..]);
      var v := Lsb(s);
      assert v / 2 == Lsb(s[1..]) && (v % 2 == 1) == s[0];
      assert ToLsb(v, |s|) == [v % 2 == 1] + ToLsb(v / 2, |s| - 1);
      assert s == [s[0]] + s[1..];
    }
  }

  lemma {:induction false} ToLsbAt(v: nat, n: nat, i: nat)
    requires i < n
    ensures ToLsb(v, n)[i] == BitAt(v, i)
  {
    if i > 0 {
      ToLsbAt(v / 2, n - 1, i - 1);
      DivDiv(v, 2, Pow2(i - 1));
    }
  }

  lemma {:induction false} ToMsbAt(v: nat, n: nat, i: nat)
    requires i < n
    ensures ToMsb(v, n)[i] == BitAt(v, n - 1 - i)
  {
    if i < n - 1 {
      ToMsbAt(v / 2, n - 1, i);
      DivDiv(v, 2, Pow2(n - 2 - i));
    }
  }

  /** A bit string is determined by the value whose bits it lists. */
  lemma LsbFromBits(s: seq<bool>, v: nat)
    requires v < Pow2(|s|)
    requires forall k | 0 <= k < |s| :: s[k] == BitAt(v, k)
    ensures Lsb(s) == v && s == ToLsb(v, |s|)
  {
    forall k | 0 <= k < |s| ensures s[k] == ToLsb(v, |s|)[k] { ToLsbAt(v, |s|, k); }
    assert s == ToLsb(v, |s|);
    LsbOfToLsb(v, |s|);
    DivModUnique(v, Pow2(|s|), 0, v);
  }

  lemma {:induction false} MsbBound(s: seq<bool>)
    ensures Msb(s) < Pow2(|s|)
  {
    if s != [] { MsbBound(s[..|s| - 1]); }
  }

  lemma {:induction false} MsbConcat(a: seq<bool>, b: seq<bool>)
    ensures Msb(a + b) == Msb(a) * Pow2(|b|) + Msb(b)
  {
    if b == [] {
      assert a + b == a;
    } else {
      var b' := b[..|b| - 1];
      MsbConcat(a, b');
      assert (a + b)[..|a + b| - 1] == a + b';
      assert 2 * (Msb(a) * Pow2(|b'|)) == Msb(a) * Pow2(|b|);
    }
  }

  lemma MsbTake(s: seq<bool>, k: nat)
    requires k <= |s|
    ensures Shr(Msb(s), |s| - k) == Msb(s[..k])
  {
    hide Msb, Pow2;
    assert s == s[..k] + s[k..];
    MsbConcat(s[..k], s[k..]);
    MsbBound(s[k..]);
    DivModUnique(Msb(s), Pow2(|s| - k), Msb(s[..k]), Msb(s[k..]));
  }

  lemma {:induction false} MsbOfToMsb(v: nat, n: nat)
    requires v < Pow2(n)
    ensures Msb(ToMsb(v, n)) == v
  {
    if n > 0 {
      MsbOfToMsb(v / 2, n - 1);
      assert ToMsb(v, n)[..n - 1] == ToMsb(v / 2, n - 1);
    }
  }

  lemma {:induction false} ToMsbOfMsb(s: seq<bool>)
    ensures ToMsb(Msb(s), |s|) == s
  {
    if s != [] {
      var t, v := s[..|s| - 1], Msb(s);
      ToMsbOfMsb(t);
      assert v / 2 == Msb(t) && (v % 2 == 1) == s[|s| - 1];
      assert ToMsb(v, |s|) == ToMsb(v / 2, |t|) + [v % 2 == 1];
      assert s == t + [s[|s| - 1]];
    }
  }

  /** The first `k` bits of a most-significant-first string are the high bits. */
  lemma ToMsbTake(v: nat, n: nat, k: nat)
    requires k <= n
    ensures ToMsb(v, n)[..k] == ToMsb(Shr(v, n - k), k)
  {
    forall i | 0 <= i < k ensures ToMsb(v, n)[i] == ToMsb(Shr(v, n - k), k)[i] {
      hide Shr, ToMsb;
      ToMsbAt(v, n, i);
      ToMsbAt(Shr(v, n - k), k, i);
      ShrShr(v, n - k, k - 1 - i);
    }
  }

  /** Taking the `k` low bits commutes with masking. */
  lemma ToLsbTake(v: nat, n: nat, k: nat)
    requires k <= n
    ensures ToLsb(v, n)[..k] == ToLsb(v, k)
  {
    forall i | 0 <= i < k ensures ToLsb(v, n)[i] == ToLsb(v, k)[i] {
      ToLsbAt(v, n, i);
      ToLsbAt(v, k, i);
    }
  }

  // ---------------------------------------------------------------- C's | on disjoint operands

  /** `a | (b << k)` is a sum when `a` fits below bit `k`. */
  lemma {:induction false} OrDisjoint(a: nat, b: nat, k: nat)
    requires a < Pow2(k)
    ensures Or(a, b * Pow2(k)) == a + b * Pow2(k)
  {
    if a != 0 && b * Pow2(k) != 0 {
      assert k > 0;
      var c := b * Pow2(k - 1);
      assert b * Pow2(k) == 2 * c;
      OrDisjoint(a / 2, b, k - 1);
      assert Or(a, 2 * c) == (if a % 2 == 1 || (2 * c) % 2 == 1 then 1 else 0) + 2 * Or(a / 2, (2 * c) / 2);
      assert (2 * c) / 2 == c;
    }
  }

  /** Shifting a byte from bit 24 past bit 31 keeps its `k` low bits only. */
  lemma Shl32Byte(d: nat, k: nat)
    requires d < 256 && k < 8
    ensures Shl32(d * 0x100_0000, 8 - k) == Low(d, k) * Pow2(32 - k)
  {
    hide Pow2;
    var p, q := Pow2(32 - k), Pow2(k);
    assert d * 0x100_0000 * Pow2(8 - k) == d * p by {
      assert Pow2(24) == 0x100_0000 by { Pow2Values(); }
      Pow2Add(24, 8 - k);
      MulAssoc(d, Pow2(24), Pow2(8 - k));
    }
    assert p * q == 0x1_0000_0000 by { Pow2Add(32 - k, k); Pow2Values(); }
    KeepLow(d, p, q);
  }

  lemma KeepLow(d: nat, p: nat, q: nat)
    requires p > 0 && q > 0
    ensures p * q > 0 && d * p % (p * q) == (d % q) * p
  {
    ModDiv(d * p, p, q);
    DivModUnique(d * p, p, d, 0);
    var kept := d * p % (p * q);
    assert kept == (kept / p) * p + kept % p;
  }

  /** `x & (x - 1)` is zero exactly for powers of two. */
  lemma {:induction false} PowerOfTwoTest(x: nat) returns (k: nat)
    requires x > 0 && And(x, x - 1) == 0
    ensures x == Pow2(k)
  {
    k := 0;
    if x > 1 && x % 2 == 0 {
      assert And(x, x - 1) == 2 * And(x / 2, (x - 1) / 2);
      assert (x - 1) / 2 == x / 2 - 1;
      var j := PowerOfTwoTest(x / 2);
      k := j + 1;
    } else if x > 1 {
      // both operands have the same non-zero upper bits, so some bit survives
      AndSelf(x / 2);
    }
  }

  lemma {:induction false} AndSelf(x: nat)
    ensures And(x, x) == x
  {
    if x > 0 { AndSelf(x / 2); }
  }

  /** A mask of ones keeps the low bits. */
  lemma {:induction false} AndMask(x: nat, n: nat)
    ensures And(x, Pow2(n) - 1) == x % Pow2(n)
    decreases n
  {
    if n == 0 {
      AndZero(x);
    } else {
      AndMask(x / 2, n - 1);
      var m := Pow2(n - 1);
      assert (2 * m - 1) / 2 == m - 1 && (2 * m - 1) % 2 == 1;
      DoubleModulus(x, m);
      if x != 0 && m > 0 { assert And(x, 2 * m - 1) == x % 2 + 2 * And(x / 2, m - 1); }
    }
  }

  lemma AndZero(x: nat)
    ensures And(x, 0) == 0
  {}

  lemma DoubleModulus(x: nat, m: nat)
    requires m > 0
    ensures x % (2 * m) == x % 2 + 2 * (x / 2 % m)
  {
    var q, r := x / 2 / m, x / 2 % m;
    assert x / 2 == q * m + r;
    assert x == q * (2 * m) + (2 * r + x % 2);
    DivModUnique(x, 2 * m, q, 2 * r + x % 2);
  }

  lemma TakeNext<T>(s: seq<T>, k: nat)
    requires k < |s|
    ensures s[..k + 1] == s[..k] + [s[k]]
  {}

  lemma ConcatAssoc<T>(a: seq<T>, b: seq<T>, c: seq<T>)
    ensures (a + b) + c == a + (b + c)
  {}

  lemma TakeAll<T>(s: seq<T>, k: nat)
    requires k == |s|
    ensures s[..k] == s
  {}
}
