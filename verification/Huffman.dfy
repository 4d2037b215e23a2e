/** Canonical Huffman codes as Deflate defines them from code lengths alone (section 3.2.2 of RFC 1951).

    Every symbol with length l > 0 owns an interval of width 2^(15-l) inside [0, 2^15); the
    intervals are laid out by (length, symbol). The code of a symbol is the common l-bit prefix
    of its interval, so a code set is complete exactly when the widths sum to 2^15. */
module Huffman {
  import opened Wrappers
  import opened Bits

  const MAXBITS: nat := 15

  ghost predicate ValidLengths(lens: seq<nat>) {
    forall i | 0 <= i < |lens| :: lens[i] <= 15
  }

  function Weight(l: nat): nat
    requires l <= 15
  {
    if l == 0 then 0 else Pow2(15 - l)
  }

  /** The Kraft sum, in units of 2^-15. */
  ghost function Kraft(lens: seq<nat>): nat
    requires ValidLengths(lens)
  {
    if lens == [] then 0 else Kraft(lens[..|lens| - 1]) + Weight(lens[|lens| - 1])
  }

  /** The part of the Kraft sum owed to lengths below `l`. */
  ghost function Below(lens: seq<nat>, l: nat): nat
    requires ValidLengths(lens)
  {
    if lens == [] then 0
    else Below(lens[..|lens| - 1], l) + (if lens[|lens| - 1] < l then Weight(lens[|lens| - 1]) else 0)
  }

  function Count(lens: seq<nat>, l: nat): (c: nat)
    ensures c <= |lens|
  {
    if lens == [] then 0 else Count(lens[..|lens| - 1], l) + (if lens[|lens| - 1] == l then 1 else 0)
  }

  function NumPresent(lens: seq<nat>): (c: nat)
    ensures c == |lens| - Count(lens, 0)
  {
    if lens == [] then 0 else NumPresent(lens[..|lens| - 1]) + (if lens[|lens| - 1] != 0 then 1 else 0)
  }

  /** Where the interval of symbol `n` starts. */
  ghost function Start(lens: seq<nat>, n: nat): nat
    requires ValidLengths(lens) && n < |lens|
  {
    MulNonNegative(Count(lens[..n], lens[n]), Weight(lens[n]));
    Below(lens, lens[n]) + Count(lens[..n], lens[n]) * Weight(lens[n])
  }

  ghost function Code(lens: seq<nat>, n: nat): (c: nat)
    requires ValidLengths(lens) && n < |lens|
    ensures c < Pow2(lens[n])
  {
    Low(Shr(Start(lens, n), 15 - lens[n]), lens[n])
  }

  /** The code word, in stream order. */
  ghost function CodeBits(lens: seq<nat>, n: nat): (s: seq<bool>)
    requires ValidLengths(lens) && n < |lens|
    ensures |s| == lens[n]
  {
    ToMsb(Code(lens, n), lens[n])
  }

  /** The code word as the bit reader sees it: first bit least significant. */
  ghost function Rev(lens: seq<nat>, n: nat): (c: nat)
    requires ValidLengths(lens) && n < |lens|
    ensures c < Pow2(lens[n])
  {
    LsbBound(CodeBits(lens, n));
    Lsb(CodeBits(lens, n))
  }

  /** The bits of `u`, first bit least significant, begin with the code of `n`. */
  ghost predicate Match(lens: seq<nat>, n: nat, u: nat)
    requires ValidLengths(lens)
  {
    n < |lens| && lens[n] > 0 && Low(u, lens[n]) == Rev(lens, n)
  }

  /** Decoding, by definition: the symbol whose code the next 15 bits begin with. */
  ghost function Decode(lens: seq<nat>, u: nat): (r: Option<nat>)
    requires ValidLengths(lens)
    ensures r.Some? ==> Match(lens, r.value, u)
    ensures r.None? ==> forall n: nat :: !Match(lens, n, u)
  {
    if exists n: nat :: Match(lens, n, u) then
      var n: nat :| Match(lens, n, u); Some(n)
    else None
  }

  /** The length lists Deflate lets a tree be built from; 0 or 1 symbol is tolerated. */
  ghost predicate Acceptable(lens: seq<nat>)
    requires ValidLengths(lens)
  {
    NumPresent(lens) < 2 || Kraft(lens) == 0x8000
  }

  // ---------------------------------------------------------------- sums

  lemma WeightFacts(l: nat)
    requires 0 < l <= 15
    ensures Weight(l) > 0 && Weight(l) * Pow2(l) == 0x8000
    ensures l < 15 ==> Weight(l) == 2 * Weight(l + 1)
  {
    Pow2Add(15 - l, l);
    Pow2Values();
  }

  lemma {:induction false} BelowStep(lens: seq<nat>, l: nat)
    requires ValidLengths(lens) && 0 < l <= 15
    ensures Below(lens, l + 1) == Below(lens, l) + Count(lens, l) * Weight(l)
  {
    hide Weight;
    if lens != [] {
      var front := lens[..|lens| - 1];
      BelowStep(front, l);
      OneMore(Count(front, l), Weight(l));
    }
  }

  lemma OneMore(c: nat, w: nat)
    ensures (c + 1) * w == c * w + w
  {}

  /** Giving a symbol without a code one of length `l`. */
  lemma {:induction false} KraftUpdate(lens: seq<nat>, j: nat, l: nat)
    requires ValidLengths(lens) && j < |lens| && lens[j] == 0 && l <= 15
    ensures ValidLengths(lens[j := l]) && Kraft(lens[j := l]) == Kraft(lens) + Weight(l)
  {
    hide Weight;
    var k := |lens| - 1;
    if j == k {
      assert lens[j := l][..k] == lens[..k];
      assert Weight(0) == 0 by { WeightZero(); }
    } else {
      KraftUpdate(lens[..k], j, l);
      assert lens[j := l][..k] == lens[..k][j := l];
    }
  }

  lemma {:induction false} KraftRepeat(lens: seq<nat>, v: nat, n: nat)
    requires ValidLengths(lens) && v <= 15
    ensures ValidLengths(lens + seq(n, _ => v)) && Kraft(lens + seq(n, _ => v)) == Kraft(lens) + n * Weight(v)
  {
    hide Weight;
    var whole := lens + seq(n, _ => v);
    if n == 0 {
      assert whole == lens;
    } else {
      KraftRepeat(lens, v, n - 1);
      assert whole[..|whole| - 1] == lens + seq(n - 1, _ => v);
      MulDistribute(n - 1, 1, Weight(v));
    }
  }

  lemma WeightZero()
    ensures Weight(0) == 0
  {}

  lemma {:induction false} KraftZeros(n: nat)
    ensures ValidLengths(seq(n, _ => 0)) && Kraft(seq(n, _ => 0)) == 0
  {
    if n > 0 {
      KraftZeros(n - 1);
      assert seq(n, _ => 0)[..n - 1] == seq(n - 1, _ => 0);
    }
  }

  lemma {:induction false} BelowEnds(lens: seq<nat>)
    requires ValidLengths(lens)
    ensures Below(lens, 1) == 0 && Below(lens, 16) == Kraft(lens)
  {
    if lens != [] {
      BelowEnds(lens[..|lens| - 1]);
    }
  }

  lemma {:induction false} BelowMono(lens: seq<nat>, a: nat, b: nat)
    requires ValidLengths(lens) && a <= b
    ensures Below(lens, a) <= Below(lens, b)
  {
    if lens != [] {
      BelowMono(lens[..|lens| - 1], a, b);
    }
  }

  lemma {:induction false} CountSplit(a: seq<nat>, b: seq<nat>, l: nat)
    ensures Count(a + b, l) == Count(a, l) + Count(b, l)
  {
    if b == [] {
      assert a + b == a;
    } else {
      CountSplit(a, b[..|b| - 1], l);
      assert (a + b)[..|a + b| - 1] == a + b[..|b| - 1];
    }
  }

  lemma CountStep(lens: seq<nat>, n: nat, l: nat)
    requires n < |lens|
    ensures Count(lens[..n + 1], l) == Count(lens[..n], l) + (if lens[n] == l then 1 else 0)
  {
    assert lens[..n + 1][..n] == lens[..n];
  }

  lemma CountMono(lens: seq<nat>, n: nat, m: nat, l: nat)
    requires n <= m <= |lens|
    ensures Count(lens[..n], l) <= Count(lens[..m], l)
  {
    assert lens[..m] == lens[..n] + lens[n..m];
    CountSplit(lens[..n], lens[n..m], l);
  }

  /** The `r`-th symbol of length `l`. */
  lemma {:induction false} Select(lens: seq<nat>, l: nat, r: nat) returns (n: nat)
    requires r < Count(lens, l)
    ensures n < |lens| && lens[n] == l && Count(lens[..n], l) == r
  {
    var k := |lens| - 1;
    if lens[k] == l && Count(lens[..k], l) == r {
      n := k;
    } else {
      n := Select(lens[..k], l, r);
      assert lens[..k][..n] == lens[..n];
    }
  }

  // ---------------------------------------------------------------- intervals

  ghost predicate InInterval(lens: seq<nat>, n: nat, v: nat)
    requires ValidLengths(lens)
  {
    n < |lens| && lens[n] > 0 && Start(lens, n) <= v < Start(lens, n) + Weight(lens[n])
  }

  lemma IntervalBounds(lens: seq<nat>, n: nat)
    requires ValidLengths(lens) && n < |lens| && lens[n] > 0
    ensures Below(lens, lens[n]) <= Start(lens, n)
    ensures Start(lens, n) + Weight(lens[n]) <= Below(lens, lens[n] + 1) <= Kraft(lens)
  {
    hide Below, Weight, Kraft, Count;
    var l := lens[n];
    BelowStep(lens, l);
    BelowEnds(lens);
    BelowMono(lens, l + 1, 16);
    CountStep(lens, n, l);
    CountMono(lens, n + 1, |lens|, l);
    assert lens[..|lens|] == lens;
    var c, r, w := Count(lens, l), Count(lens[..n], l), Weight(l);
    IntervalFits(r, c, w);
  }

  lemma IntervalFits(r: nat, c: nat, w: nat)
    requires r + 1 <= c
    ensures 0 <= r * w && r * w + w <= c * w
  {
    MulLe(r + 1, c, w);
  }

  lemma IntervalsDisjoint(lens: seq<nat>, n: nat, m: nat, v: nat)
    requires ValidLengths(lens) && InInterval(lens, n, v) && InInterval(lens, m, v)
    ensures n == m
  {
    hide Below, Weight, Kraft, Count;
    IntervalBounds(lens, n);
    IntervalBounds(lens, m);
    if lens[n] < lens[m] {
      BelowMono(lens, lens[n] + 1, lens[m]);
    } else if lens[m] < lens[n] {
      BelowMono(lens, lens[m] + 1, lens[n]);
    } else if n < m {
      RankApart(lens, n, m);
    } else if m < n {
      RankApart(lens, m, n);
    }
  }

  lemma RankApart(lens: seq<nat>, n: nat, m: nat)
    requires ValidLengths(lens) && n < m < |lens| && lens[n] == lens[m]
    ensures Start(lens, n) + Weight(lens[n]) <= Start(lens, m)
  {
    hide Below, Weight, Count;
    var l := lens[n];
    CountStep(lens, n, l);
    CountMono(lens, n + 1, m, l);
    MulLe(Count(lens[..n], l) + 1, Count(lens[..m], l), Weight(l));
  }

  /** The intervals leave no gap below the Kraft sum. */
  lemma IntervalCover(lens: seq<nat>, v: nat) returns (n: nat)
    requires ValidLengths(lens) && v < Kraft(lens)
    ensures InInterval(lens, n, v)
  {
    hide Below, Weight, Kraft, Count, Pow2;
    BelowEnds(lens);
    var l := 1;
    while v >= Below(lens, l + 1)
      invariant 1 <= l <= 15 && Below(lens, l) <= v
      decreases 16 - l
    {
      l := l + 1;
    }
    BelowStep(lens, l);
    WeightFacts(l);
    var w := Weight(l);
    DivBounds(v - Below(lens, l), w);
    var r := (v - Below(lens, l)) / w;
    MulLt(r, Count(lens, l), w);
    n := Select(lens, l, r);
  }

  /** Starts are multiples of the width. */
  lemma {:induction false} BelowMultiple(lens: seq<nat>, l: nat)
    requires ValidLengths(lens) && 0 < l <= 15
    ensures Below(lens, l) == Shr(Below(lens, l), 15 - l) * Weight(l)
  {
    hide Pow2, Shr;
    if lens != [] {
      var front, x := lens[..|lens| - 1], lens[|lens| - 1];
      BelowMultiple(front, l);
      var q, k := Shr(Below(front, l), 15 - l), if 0 < x < l then Pow2(l - x) else 0;
      if 0 < x < l { Pow2Add(l - x, 15 - l); }
      MulDistribute(q, k, Pow2(15 - l));
      JoinShrLow(0, q + k, 15 - l);
    } else {
      LowNoop(0, 15 - l);
    }
  }

  lemma StartMultiple(lens: seq<nat>, n: nat)
    requires ValidLengths(lens) && n < |lens| && lens[n] > 0
    ensures Start(lens, n) == Shr(Start(lens, n), 15 - lens[n]) * Weight(lens[n])
  {
    hide Below, Pow2, Count, Shr;
    var l := lens[n];
    BelowMultiple(lens, l);
    var q := Shr(Below(lens, l), 15 - l) + Count(lens[..n], l);
    assert Start(lens, n) == q * Weight(l) + 0;
    JoinShrLow(0, q, 15 - l);
  }

  lemma SameQuotient(v: nat, p: nat, r: nat, q: nat, w: nat)
    requires v == r + p * w && r < w
    ensures p == q <==> q * w <= v < q * w + w
  {
    if p < q { MulLe(p + 1, q, w); }
    if p > q { MulLe(q + 1, p, w); }
  }

  /** When nothing wraps, having the code as prefix is lying in the interval. */
  lemma CodeIsInterval(lens: seq<nat>, n: nat, v: nat)
    requires ValidLengths(lens) && n < |lens| && lens[n] > 0
    requires Start(lens, n) < 0x8000
    ensures Shr(v, 15 - lens[n]) == Code(lens, n) <==> InInterval(lens, n, v)
    ensures Code(lens, n) * Weight(lens[n]) == Start(lens, n)
  {
    hide Start, Pow2, Shr, Low;
    var l := lens[n];
    var w, q := Weight(l), Shr(Start(lens, n), 15 - l);
    StartMultiple(lens, n);
    WeightFacts(l);
    MulLt(q, Pow2(l), w);
    LowNoop(q, l);
    ShrLowJoin(v, 15 - l);
    SameQuotient(v, Shr(v, 15 - l), Low(v, 15 - l), q, w);
  }

  // ---------------------------------------------------------------- reading order

  /** The 15 bits of `u` read in the other direction. */
  ghost function Flip(u: nat): (v: nat)
    ensures v < 0x8000
  {
    MsbBound(ToLsb(u, MAXBITS));
    Pow2Values();
    Msb(ToLsb(u, MAXBITS))
  }

  lemma MatchIsPrefix(lens: seq<nat>, n: nat, u: nat)
    requires ValidLengths(lens) && n < |lens| && lens[n] > 0
    ensures Match(lens, n, u) <==> Shr(Flip(u), 15 - lens[n]) == Code(lens, n)
  {
    hide Shr, Low, Pow2, Lsb, Msb, ToLsb, ToMsb, Code;
    var l, c := lens[n], Code(lens, n);
    var s := ToLsb(u, l);
    ToLsbTake(u, MAXBITS, l);
    MsbTake(ToLsb(u, MAXBITS), l);
    assert Shr(Flip(u), 15 - l) == Msb(s);
    LsbOfToLsb(u, l);
    if Msb(s) == c {
      ToMsbOfMsb(s);
    }
    if Low(u, l) == Rev(lens, n) {
      ToLsbOfLsb(s);
      ToLsbOfLsb(CodeBits(lens, n));
      MsbOfToMsb(c, l);
    }
  }

  /** Every 15-bit value is the flip of one. */
  lemma FlipOnto(v: nat) returns (u: nat)
    requires v < 0x8000
    ensures u < 0x8000 && Flip(u) == v
  {
    hide Pow2, Lsb, Msb, ToLsb, ToMsb;
    var s := ToMsb(v, MAXBITS);
    u := Lsb(s);
    LsbBound(s);
    Pow2Values();
    ToLsbOfLsb(s);
    MsbOfToMsb(v, MAXBITS);
  }

  // ---------------------------------------------------------------- the theorems

  /** No code is a prefix of another one. */
  lemma PrefixFree(lens: seq<nat>, n: nat, m: nat, u: nat)
    requires ValidLengths(lens) && Kraft(lens) <= 0x8000
    requires Match(lens, n, u) && Match(lens, m, u)
    ensures n == m
  {
    hide Start, Shr, Code, Flip, Rev, Weight, Kraft;
    MatchIsPrefix(lens, n, u);
    MatchIsPrefix(lens, m, u);
    IntervalBounds(lens, n);
    IntervalBounds(lens, m);
    WeightFacts(lens[n]);
    WeightFacts(lens[m]);
    CodeIsInterval(lens, n, Flip(u));
    CodeIsInterval(lens, m, Flip(u));
    IntervalsDisjoint(lens, n, m, Flip(u));
  }

  /** With Kraft's equality every bit string begins with a code. */
  lemma CompleteCover(lens: seq<nat>, u: nat) returns (n: nat)
    requires ValidLengths(lens) && Kraft(lens) == 0x8000
    ensures Match(lens, n, u)
  {
    hide Start, Shr, Code, Flip, Rev, Weight, Kraft;
    n := IntervalCover(lens, Flip(u));
    CodeIsInterval(lens, n, Flip(u));
    MatchIsPrefix(lens, n, u);
  }

  /** Below Kraft's equality some bit string begins with no code. */
  lemma Incomplete(lens: seq<nat>) returns (u: nat)
    requires ValidLengths(lens) && Kraft(lens) < 0x8000
    ensures u < 0x8000 && forall n: nat :: !Match(lens, n, u)
  {
    hide Start, Shr, Code, Flip, Rev, Weight, Kraft;
    u := FlipOnto(Kraft(lens));
    forall n: nat ensures !Match(lens, n, u) {
      if n < |lens| && lens[n] > 0 {
        MatchIsPrefix(lens, n, u);
        IntervalBounds(lens, n);
        WeightFacts(lens[n]);
        CodeIsInterval(lens, n, Kraft(lens));
      }
    }
  }

  /** Above it two symbols share the all-zero code, one of them short enough for the first table. */
  lemma Oversubscribed(lens: seq<nat>) returns (n: nat, m: nat)
    requires ValidLengths(lens) && Kraft(lens) > 0x8000 && |lens| <= 288
    ensures n < |lens| && m < |lens| && n != m && 0 < lens[n] <= 9 && lens[n] <= lens[m]
    ensures Rev(lens, n) == 0 && Rev(lens, m) == 0
  {
    hide Start, Shr, Code, Rev, Weight, Kraft, Below, Count;
    n := IntervalCover(lens, 0);
    assert Start(lens, n) == 0;
    ZeroCode(lens, n);
    m := WrapSymbol(lens);
    ZeroCode(lens, m);
    ShortestIsShort(lens);
    IntervalBounds(lens, n);
    IntervalBounds(lens, m);
    if lens[n] > lens[m] {
      BelowMono(lens, lens[m] + 1, lens[n]);
      assert false;
    }
    if lens[n] > 9 {
      BelowMono(lens, 10, lens[n]);
      assert false;
    }
  }

  lemma ZeroCode(lens: seq<nat>, n: nat)
    requires ValidLengths(lens) && n < |lens| && lens[n] > 0
    requires Start(lens, n) == 0 || Start(lens, n) == 0x8000
    ensures Rev(lens, n) == 0
  {
    hide Start, Pow2, Lsb, ToMsb;
    var l := lens[n];
    WeightFacts(l);
    var q := if Start(lens, n) == 0 then 0 else 1;
    assert Start(lens, n) == 0 + (q * Pow2(l)) * Pow2(15 - l);
    JoinShrLow(0, q * Pow2(l), 15 - l);
    JoinShrLow(0, q, l);
    assert Code(lens, n) == 0;
    ToMsbOfZero(l);
    LsbZeros(l);
  }

  lemma {:induction false} ToMsbOfZero(l: nat)
    ensures ToMsb(0, l) == Zeros(l)
  {
    if l > 0 { ToMsbOfZero(l - 1); }
  }

  /** The layout passes 2^15 exactly at the start of some interval. */
  lemma WrapSymbol(lens: seq<nat>) returns (n: nat)
    requires ValidLengths(lens) && Kraft(lens) > 0x8000
    ensures n < |lens| && lens[n] > 0 && Start(lens, n) == 0x8000
  {
    hide Start, Shr, Weight, Kraft, Below, Count, Pow2;
    n := IntervalCover(lens, 0x8000);
    var l := lens[n];
    StartMultiple(lens, n);
    WeightFacts(l);
    // both ends of the interval and 2^15 are multiples of its width
    SameQuotient(0x8000, Pow2(l), 0, Shr(Start(lens, n), 15 - l), Weight(l));
  }

  /** 288 codes of ten bits or more fill less than the code space. */
  lemma {:induction false} LongCodesBound(lens: seq<nat>)
    requires ValidLengths(lens)
    ensures Kraft(lens) <= Below(lens, 10) + 32 * |lens|
  {
    if lens != [] {
      LongCodesBound(lens[..|lens| - 1]);
      var x := lens[|lens| - 1];
      if x >= 10 { Pow2Mono(15 - x, 5); Pow2Values(); }
    }
  }

  lemma ShortestIsShort(lens: seq<nat>)
    requires ValidLengths(lens) && Kraft(lens) > 0x8000 && |lens| <= 288
    ensures Below(lens, 10) > 0
  {
    LongCodesBound(lens);
  }

  // ---------------------------------------------------------------- unused trailing symbols

  /** Trailing zero lengths change nothing. */
  lemma {:induction false} TrailingZeros(lens: seq<nat>, k: nat)
    requires ValidLengths(lens)
    ensures ValidLengths(lens + seq(k, _ => 0))
    ensures Kraft(lens + seq(k, _ => 0)) == Kraft(lens)
    ensures forall l: nat :: Below(lens + seq(k, _ => 0), l) == Below(lens, l)
    ensures forall l: nat :: l > 0 ==> Count(lens + seq(k, _ => 0), l) == Count(lens, l)
    ensures NumPresent(lens + seq(k, _ => 0)) == NumPresent(lens)
  {
    var whole := lens + seq(k, _ => 0);
    if k == 0 {
      assert whole == lens;
    } else {
      TrailingZeros(lens, k - 1);
      assert whole[..|whole| - 1] == lens + seq(k - 1, _ => 0);
    }
  }

  lemma CodeBitsTrailingZeros(lens: seq<nat>, k: nat, n: nat)
    requires ValidLengths(lens) && n < |lens| && lens[n] > 0
    ensures ValidLengths(lens + seq(k, _ => 0))
    ensures CodeBits(lens + seq(k, _ => 0), n) == CodeBits(lens, n)
  {
    TrailingZeros(lens, k);
    var whole := lens + seq(k, _ => 0);
    assert whole[..n] == lens[..n];
  }
}
