/** Adler-32 (section 2.2 of RFC 1950): one modulo per 5552 bytes against one modulo per byte. */
module Adler {
  import opened Bits

  const MODULUS: nat := 65521

  const WORD: nat := 0x1_0000_0000

  datatype Sums = Sums(s1: nat, s2: nat)

  /** The definition: both sums reduced after every byte. */
  function Update(s: Sums, data: seq<byte>): Sums {
    if data == [] then s
    else
      var t := Update(s, data[..|data| - 1]);
      var s1 := (t.s1 + data[|data| - 1]) % MODULUS;
      Sums(s1, (t.s2 + s1) % MODULUS)
  }

  function Split(adler: nat): Sums {
    Sums(adler % 0x1_0000, adler / 0x1_0000 % 0x1_0000)
  }

  function Join(s: Sums): nat {
    s.s2 * 0x1_0000 + s.s1
  }

  /** The checksum of `data`, continued from `adler`. */
  function Checksum(adler: nat, data: seq<byte>): nat {
    Join(Update(Split(adler), data))
  }

  lemma {:induction false} UpdateBounds(s: Sums, data: seq<byte>)
    requires s.s1 < 0x1_0000 && s.s2 < 0x1_0000
    ensures Update(s, data).s1 < 0x1_0000 && Update(s, data).s2 < 0x1_0000
    ensures data != [] ==> Update(s, data).s1 < MODULUS && Update(s, data).s2 < MODULUS
  {}

  lemma {:induction false} UpdateConcat(s: Sums, x: seq<byte>, y: seq<byte>)
    ensures Update(s, x + y) == Update(Update(s, x), y)
    decreases |y|
  {
    if y == [] {
      assert x + y == x;
    } else {
      assert (x + y)[..|x + y| - 1] == x + y[..|y| - 1];
      UpdateConcat(s, x, y[..|y| - 1]);
    }
  }

  /** Checksums compose: the checksum of a prefix continues over the rest. */
  lemma ChecksumConcat(adler: nat, x: seq<byte>, y: seq<byte>)
    ensures Checksum(adler, x + y) == Checksum(Checksum(adler, x), y)
  {
    var s := Split(adler);
    UpdateBounds(s, x);
    UpdateConcat(s, x, y);
    assert Split(Join(Update(s, x))) == Update(s, x);
  }

  // ---------------------------------------------------------------- the sums without any recurrence

  /** The sum of all bytes. */
  function Total(data: seq<byte>): nat {
    if data == [] then 0 else data[0] as nat + Total(data[1..])
  }

  /** The sum of all bytes, each as often as there are bytes from it on. */
  function Weighted(data: seq<byte>): nat {
    if data == [] then 0 else |data| * data[0] as nat + Weighted(data[1..])
  }

  lemma {:induction false} TotalNext(data: seq<byte>, b: byte)
    ensures Total(data + [b]) == Total(data) + b as nat
    ensures Weighted(data + [b]) == Weighted(data) + Total(data) + b as nat
    decreases |data|
  {
    var all := data + [b];
    if data == [] {
      assert all[1..] == [];
      assert Total([]) == 0 && Weighted([]) == 0;
    } else {
      assert all[1..] == data[1..] + [b];
      TotalNext(data[1..], b);
      assert (|data| + 1) * data[0] as nat == |data| * data[0] as nat + data[0] as nat;
    }
  }

  /** The sums `t` come from `s` by `n` bytes with these totals. */
  ghost predicate Closed(t: Sums, s: Sums, n: nat, total: nat, weighted: nat) {
    t.s1 % 65521 == (s.s1 + total) % 65521 && t.s2 % 65521 == (s.s2 + n * s.s1 + weighted) % 65521
  }

  /** Both sums in closed form. */
  lemma {:induction false} ClosedForm(s: Sums, data: seq<byte>)
    ensures Closed(Update(s, data), s, |data|, Total(data), Weighted(data))
    decreases |data|
  {
    hide *;
    NoUpdate(s);
    NoTotal();
    if data == [] {
      ClosedStart(s);
    } else {
      var n := |data| - 1;
      assert data == data[..n] + [data[n]] && data[..n + 1] == data;
      ClosedForm(s, data[..n]);
      TotalNext(data[..n], data[n]);
      UpdateNext(s, data, n, Update(s, data[..n]), data[n]);
      ClosedStep(s, Update(s, data[..n]), n, Total(data[..n]), Weighted(data[..n]), data[n]);
    }
  }

  lemma NoTotal()
    ensures Total([]) == 0 && Weighted([]) == 0
  {}

  lemma ClosedStart(s: Sums)
    ensures Closed(s, s, 0, 0, 0)
  {}

  lemma ClosedStep(s: Sums, t: Sums, n: nat, total: nat, weighted: nat, b: byte)
    requires Closed(t, s, n, total, weighted)
    ensures Closed(Sums((t.s1 + b) % MODULUS, (t.s2 + (t.s1 + b) % MODULUS) % MODULUS), s, n + 1, total + b as nat,
                   weighted + total + b as nat)
  {
    var x, y := s.s1 + total, s.s2 + n * s.s1 + weighted;
    CongruentNext(x, y, t, b);
    Twice((t.s1 + b) % MODULUS, t.s2);
    assert (n + 1) * s.s1 == n * s.s1 + s.s1;
  }

  /** What `Checksum` means, byte by byte of the data: the sums are those of section 2.2 of RFC 1950. */
  lemma ChecksumIs(adler: nat, data: seq<byte>)
    requires adler < WORD && (data != [] || (adler % 0x1_0000 < 65521 && adler / 0x1_0000 < 65521))
    ensures Checksum(adler, data) < WORD
    ensures Checksum(adler, data) % 0x1_0000 == (adler % 0x1_0000 + Total(data)) % 65521
    ensures Checksum(adler, data) / 0x1_0000
         == (adler / 0x1_0000 + |data| * (adler % 0x1_0000) + Weighted(data)) % 65521
  {
    hide *;
    HalvesOf(adler, data);
    ClosedForm(Split(adler), data);
    UpdateReduced(Split(adler), data);
    Joined(Update(Split(adler), data), Split(adler), |data|, Total(data), Weighted(data));
  }

  lemma HalvesOf(adler: nat, data: seq<byte>)
    requires adler < WORD
    ensures Checksum(adler, data) == Join(Update(Split(adler), data))
    ensures Split(adler).s1 == adler % 0x1_0000 < 0x1_0000 && Split(adler).s2 == adler / 0x1_0000 < 0x1_0000
  {}

  lemma UpdateReduced(s: Sums, data: seq<byte>)
    requires s.s1 < 0x1_0000 && s.s2 < 0x1_0000 && (data != [] || (s.s1 < 65521 && s.s2 < 65521))
    ensures Update(s, data).s1 < 65521 && Update(s, data).s2 < 65521
  {
    UpdateBounds(s, data);
  }

  lemma Joined(t: Sums, s: Sums, n: nat, total: nat, weighted: nat)
    requires t.s1 < 65521 && t.s2 < 65521 && Closed(t, s, n, total, weighted)
    ensures Join(t) < WORD
    ensures Join(t) % 0x1_0000 == (s.s1 + total) % 65521
    ensures Join(t) / 0x1_0000 == (s.s2 + n * s.s1 + weighted) % 65521
  {
    hide Join;
    JoinHalves(t);
    Reduced(t.s1);
    Reduced(t.s2);
  }

  lemma JoinHalves(t: Sums)
    requires t.s1 < 0x1_0000 && t.s2 < 0x1_0000
    ensures Join(t) < WORD && Join(t) % 0x1_0000 == t.s1 && Join(t) / 0x1_0000 == t.s2
  {
    DivModUnique(Join(t), 0x1_0000, t.s2, t.s1);
  }

  lemma Reduced(x: nat)
    requires x < 65521
    ensures x % 65521 == x
  {}

  predicate Divides(d: nat, n: nat)
    requires d > 0
  {
    n % d == 0
  }

  /** No number from 2 to `k` divides `n`. */
  predicate NoDivisor(n: nat, k: nat) {
    forall d: nat | 2 <= d <= k :: !Divides(d, n)
  }

  lemma NotUpTo65(d: nat)
    requires 2 <= d <= 65
    ensures !Divides(d, 65521)
  {}

  lemma NotUpTo129(d: nat)
    requires 66 <= d <= 129
    ensures !Divides(d, 65521)
  {}

  lemma NotUpTo193(d: nat)
    requires 130 <= d <= 193
    ensures !Divides(d, 65521)
  {}

  lemma NotUpTo255(d: nat)
    requires 194 <= d <= 255
    ensures !Divides(d, 65521)
  {}

  lemma SmallDivisors()
    ensures NoDivisor(65521, 255)
  {
    hide Divides;
    forall d: nat | 2 <= d <= 255 ensures !Divides(d, 65521) {
      if d <= 65 {
        NotUpTo65(d);
      } else if d <= 129 {
        NotUpTo129(d);
      } else if d <= 193 {
        NotUpTo193(d);
      } else {
        NotUpTo255(d);
      }
    }
  }

  predicate Prime(n: nat) {
    n >= 2 && NoDivisor(n, n - 1)
  }

  /** The modulus is a prime, and there is no larger one below 2^16. */
  lemma LargestPrime()
    ensures Prime(MODULUS)
    ensures forall n: nat | MODULUS < n < 0x1_0000 :: !Prime(n)
  {
    SmallDivisors();
    forall d: nat | 2 <= d < 65521 ensures !Divides(d, 65521) {
      if Divides(d, 65521) && d > 255 { Cofactor(65521, 65521 / d, d); }
    }
    forall n: nat | MODULUS < n < 0x1_0000 ensures !Prime(n) { NoneAbove(n); }
  }

  lemma NoneAbove(n: nat)
    requires 65521 < n < 0x1_0000
    ensures !Prime(n)
  {
    assert Divides(2, n) || Divides(3, n) || Divides(5, n) || Divides(7, n) || Divides(13, n) || Divides(19, n);
  }

  /** Of two factors of a number below 2^16 one is below 256. */
  lemma Cofactor(n: nat, q: nat, d: nat)
    requires 255 < d < n < 0x1_0000 && q == n / d && Divides(d, n)
    ensures 2 <= q <= 255 && Divides(q, n)
  {
    DivBounds(n, d);
    assert q * d == n;
    if q >= 256 { MulLe(256, q, d); }
    DivModUnique(n, q, d, 0);
  }

  // ---------------------------------------------------------------- the deferred form

  /** How far the sums can grow over `i` bytes without a reduction. */
  ghost predicate Bounded(s1: nat, s2: nat, i: nat) {
    s1 <= 65535 + 255 * i && 2 * s2 <= 131070 + i * (131070 + 255 * (i + 1))
  }

  lemma BoundedNext(s1: nat, s2: nat, i: nat, b: byte)
    requires Bounded(s1, s2, i) && i < 5552
    ensures Bounded(s1 + b, s2 + (s1 + b), i + 1) && s1 + b < WORD && s2 + (s1 + b) < WORD
  {
    var j := i + 1;
    assert j * (131070 + 255 * (j + 1)) == i * (131070 + 255 * (i + 1)) + 131070 + 510 * j;
    MulLe(j, 5552, 131070 + 255 * (j + 1));
    assert 5552 * (131070 + 255 * (j + 1)) <= 5552 * (131070 + 255 * 5553);
  }

  lemma Congruent(a: nat, b: nat)
    ensures (a % MODULUS + b) % MODULUS == (a + b) % MODULUS
    ensures (a % MODULUS + b % MODULUS) % MODULUS == (a + b) % MODULUS
  {}

  /** One byte on both sides: the unreduced sums stay congruent to the reduced ones. */
  lemma CongruentNext(s1: nat, s2: nat, t: Sums, b: byte)
    requires s1 % MODULUS == t.s1 % MODULUS && s2 % MODULUS == t.s2 % MODULUS
    ensures (s1 + b) % MODULUS == (t.s1 + b) % MODULUS
    ensures (s2 + (s1 + b)) % MODULUS == (t.s2 + (t.s1 + b) % MODULUS) % MODULUS
  {
    Congruent(s1, b);
    Congruent(t.s1, b);
    Congruent(s2, s1 + b);
    Congruent(t.s2, (t.s1 + b) % MODULUS);
  }

  function Wrap(x: nat): nat {
    x % WORD
  }

  /** `s1`, `s2` are the unreduced sums after `i` more bytes; `t` are the reduced ones. */
  ghost predicate Deferred(s1: nat, s2: nat, i: nat, t: Sums) {
    Bounded(s1, s2, i) && s1 % MODULUS == t.s1 % MODULUS && s2 % MODULUS == t.s2 % MODULUS
  }

  /** Deferring the reduction by one more byte is safe: nothing wraps. */
  lemma DeferredNext(s1: nat, s2: nat, i: nat, s: Sums, data: seq<byte>, k: nat)
    requires k < |data| && i < 5552 && Deferred(s1, s2, i, Update(s, data[..k]))
    ensures Wrap(s1 + data[k]) == s1 + data[k] && Wrap(s2 + (s1 + data[k])) == s2 + (s1 + data[k])
    ensures Deferred(s1 + data[k], s2 + (s1 + data[k]), i + 1, Update(s, data[..k + 1]))
  {
    hide Bounded, Update;
    var t, b := Update(s, data[..k]), data[k];
    UpdateNext(s, data, k, t, b);
    BoundedNext(s1, s2, i, b);
    CongruentNext(s1, s2, t, b);
    Twice((t.s1 + b) % MODULUS, t.s2);
  }

  lemma UpdateNext(s: Sums, data: seq<byte>, k: nat, t: Sums, b: byte)
    requires k < |data| && t == Update(s, data[..k]) && b == data[k]
    ensures Update(s, data[..k + 1]) == Sums((t.s1 + b) % MODULUS, (t.s2 + (t.s1 + b) % MODULUS) % MODULUS)
  {
    assert data[..k + 1][..k] == data[..k];
  }

  lemma Twice(r: nat, x: nat)
    requires r < MODULUS
    ensures r % MODULUS == r && (x + r) % MODULUS % MODULUS == (x + r) % MODULUS
  {}

  lemma DeferredEnd(s1: nat, s2: nat, i: nat, s: Sums, x: seq<byte>)
    requires x != [] && s.s1 < 0x1_0000 && s.s2 < 0x1_0000 && Deferred(s1, s2, i, Update(s, x))
    ensures Sums(s1 % MODULUS, s2 % MODULUS) == Update(s, x)
  {
    hide Update, Bounded;
    UpdateReduced(s, x);
    Reduced(Update(s, x).s1);
    Reduced(Update(s, x).s2);
  }

  /** 32-bit arithmetic throughout; it never wraps, and the result is the per-byte definition. */
  method UpdateAdler32(adler: nat, data: seq<byte>) returns (r: nat)
    requires adler < WORD
    ensures r == Checksum(adler, data) < WORD
    ensures data == [] ==> r == adler
    ensures data != [] ==>
              && r % 0x1_0000 == (adler % 0x1_0000 + Total(data)) % 65521
              && r / 0x1_0000 == (adler / 0x1_0000 + |data| * (adler % 0x1_0000) + Weighted(data)) % 65521
  {
    hide Deferred, Update, Wrap, Total, Weighted;
    var s1: nat, s2: nat := adler % 0x1_0000, adler / 0x1_0000 % 0x1_0000;
    ghost var s := Sums(s1, s2);
    var pos := 0;
    NoUpdate(s);
    while pos < |data|
      invariant pos <= |data| && Sums(s1, s2) == Update(s, data[..pos]) && s1 < 0x1_0000 && s2 < 0x1_0000
    {
      var amount := if |data| - pos > 5552 then 5552 else |data| - pos;
      DeferredStart(s1, s2);
      for i := 0 to amount
        invariant Deferred(s1, s2, i, Update(s, data[..pos + i]))
      {
        DeferredNext(s1, s2, i, s, data, pos + i);
        s1 := Wrap(s1 + data[pos + i]);
        s2 := Wrap(s2 + s1);
      }
      pos := pos + amount;
      DeferredEnd(s1, s2, amount, s, data[..pos]);
      s1 := s1 % MODULUS;
      s2 := s2 % MODULUS;
    }
    assert data[..pos] == data;
    r := s2 * 0x1_0000 + s1;
    if data != [] { ChecksumIs(adler, data); } else { WholeAgain(adler); }
  }

  lemma WholeAgain(adler: nat)
    requires adler < WORD
    ensures Checksum(adler, []) == adler
  {}

  lemma DeferredStart(s1: nat, s2: nat)
    requires s1 < 0x1_0000 && s2 < 0x1_0000
    ensures Deferred(s1, s2, 0, Sums(s1, s2))
  {}

  lemma NoUpdate(s: Sums)
    ensures Update(s, []) == s
  {}

  lemma OneSplits()
    ensures 1 < WORD && 1 % 0x1_0000 == 1 && 1 / 0x1_0000 == 0
  {}

  /** `unsigned` length: the checksum covers the size modulo 2^32. */
  method Adler32(data: seq<byte>) returns (r: nat)
    ensures r == Checksum(1, data[..|data| % WORD]) < WORD
    ensures r % 0x1_0000 == (1 + Total(data[..|data| % WORD])) % 65521
    ensures r / 0x1_0000 == (|data| % WORD + Weighted(data[..|data| % WORD])) % 65521
  {
    hide *;
    OneSplits();
    r := UpdateAdler32(1, data[..|data| % WORD]);
    ChecksumIs(1, data[..|data| % WORD]);
  }
}
