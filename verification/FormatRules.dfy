/** The Deflate format in the numbers of RFC 1951: what the tables, the codes and the headers are, stated without
    them. */
module FormatRules {
  import opened Wrappers
  import opened Bits
  import opened BitIO
  import opened Huffman
  import opened Format
  import Tokens
  import Stream
  import Deflate
  import Inflate

  // ---------------------------------------------------------------- section 3.2.2: codes from lengths

  /** The two rules: codes of one length go up by one in symbol order, and shorter codes come before longer ones. */
  lemma CodeOrder(lens: seq<nat>, n: nat, m: nat)
    requires ValidLengths(lens) && Kraft(lens) <= 0x8000 && n < |lens| && m < |lens| && lens[n] > 0 && lens[m] > 0
    ensures lens[n] == lens[m] && n < m ==> Code(lens, n) < Code(lens, m)
    ensures lens[n] == lens[m] && n < m && (forall k | n < k < m :: lens[k] != lens[n]) ==>
              Code(lens, m) == Code(lens, n) + 1
    ensures lens[n] < lens[m] ==> (Code(lens, n) + 1) * Pow2(lens[m] - lens[n]) <= Code(lens, m)
  {
    hide *;
    Interval(lens, n);
    Interval(lens, m);
    if lens[n] == lens[m] && n < m {
      RankApart(lens, n, m);
      MulLt(Code(lens, n), Code(lens, m), Weight(lens[n]));
      if forall k | n < k < m :: lens[k] != lens[n] {
        NextStart(lens, n, m);
        SameFactor(Code(lens, n) + 1, Code(lens, m), Weight(lens[n]));
      }
    } else if lens[n] < lens[m] {
      BelowMono(lens, lens[n] + 1, lens[m]);
      WeightOf(lens[n], lens[m]);
      LongerCode(Code(lens, n), Code(lens, m), Weight(lens[n]), Weight(lens[m]), Pow2(lens[m] - lens[n]));
    }
  }

  /** When nothing wraps, a code is the start of its interval in units of its width. */
  lemma Interval(lens: seq<nat>, n: nat)
    requires ValidLengths(lens) && Kraft(lens) <= 0x8000 && n < |lens| && lens[n] > 0
    ensures lens[n] <= 15 && Weight(lens[n]) > 0 && Code(lens, n) * Weight(lens[n]) == Start(lens, n)
    ensures Below(lens, lens[n]) <= Start(lens, n)
    ensures (Code(lens, n) + 1) * Weight(lens[n]) == Start(lens, n) + Weight(lens[n]) <= Below(lens, lens[n] + 1)
  {
    hide Kraft, Below, Start, Weight, Code;
    IntervalBounds(lens, n);
    WeightFacts(lens[n]);
    CodeIsInterval(lens, n, 0);
    OneMore(Code(lens, n), Weight(lens[n]));
  }

  lemma SameFactor(a: nat, b: nat, w: nat)
    requires w > 0 && a * w == b * w
    ensures a == b
  {
    if a < b { MulLe(a + 1, b, w); }
    if b < a { MulLe(b + 1, a, w); }
  }

  lemma WeightOf(a: nat, b: nat)
    requires 0 < a < b <= 15
    ensures Weight(a) == Pow2(b - a) * Weight(b) && Weight(b) > 0
  {
    Pow2Add(b - a, 15 - b);
  }

  lemma LongerCode(c: nat, d: nat, v: nat, w: nat, p: nat)
    requires v == p * w && w > 0 && (c + 1) * v <= d * w
    ensures (c + 1) * p <= d
  {
    assert (c + 1) * v == (c + 1) * p * w by { MulAssoc(c + 1, p, w); }
    if (c + 1) * p > d { MulLe(d + 1, (c + 1) * p, w); }
  }

  lemma NextStart(lens: seq<nat>, n: nat, m: nat)
    requires ValidLengths(lens) && n < m < |lens| && lens[n] == lens[m] && forall k | n < k < m :: lens[k] != lens[n]
    ensures Start(lens, m) == Start(lens, n) + Weight(lens[n])
  {
    hide Below, Weight, Count;
    var l := lens[n];
    CountStep(lens, n, l);
    assert lens[..m] == lens[..n + 1] + lens[n + 1..m];
    CountSplit(lens[..n + 1], lens[n + 1..m], l);
    CountNone(lens[n + 1..m], l);
    OneMore(Count(lens[..n], l), Weight(l));
  }

  lemma {:induction false} CountNone(lens: seq<nat>, l: nat)
    requires forall k | 0 <= k < |lens| :: lens[k] != l
    ensures Count(lens, l) == 0
  {
    if lens != [] { CountNone(lens[..|lens| - 1], l); }
  }

  /** The first symbol of the shortest length has the code zero. */
  lemma FirstCode(lens: seq<nat>, n: nat)
    requires ValidLengths(lens) && Kraft(lens) <= 0x8000 && n < |lens| && lens[n] > 0
    requires forall k | 0 <= k < |lens| && lens[k] > 0 :: lens[n] < lens[k] || (lens[n] == lens[k] && n <= k)
    ensures Code(lens, n) == 0
  {
    hide *;
    Interval(lens, n);
    FirstStart(lens, n);
    SameFactor(Code(lens, n), 0, Weight(lens[n]));
  }

  lemma FirstStart(lens: seq<nat>, n: nat)
    requires ValidLengths(lens) && n < |lens| && lens[n] > 0
    requires forall k | 0 <= k < |lens| && lens[k] > 0 :: lens[n] < lens[k] || (lens[n] == lens[k] && n <= k)
    ensures Start(lens, n) == 0
  {
    hide Below, Count, Weight;
    NothingBelow(lens, lens[n]);
    CountNone(lens[..n], lens[n]);
  }

  lemma {:induction false} NothingBelow(lens: seq<nat>, l: nat)
    requires ValidLengths(lens) && forall k | 0 <= k < |lens| && lens[k] > 0 :: l <= lens[k]
    ensures Below(lens, l) == 0
  {
    if lens != [] { NothingBelow(lens[..|lens| - 1], l); }
  }

  /** The codes of a length start where those of the next shorter length in use end, with zeros appended. */
  lemma NextLength(lens: seq<nat>, n: nat, m: nat)
    requires ValidLengths(lens) && Kraft(lens) <= 0x8000 && n < |lens| && m < |lens| && 0 < lens[n] < lens[m]
    requires forall k | 0 <= k < |lens| :: lens[k] <= lens[n] || lens[k] >= lens[m]
    requires forall k | n < k < |lens| :: lens[k] != lens[n]
    requires forall k | 0 <= k < m :: lens[k] != lens[m]
    ensures Code(lens, m) == (Code(lens, n) + 1) * Pow2(lens[m] - lens[n])
  {
    hide *;
    Interval(lens, n);
    Interval(lens, m);
    LastStart(lens, n);
    NothingBetween(lens, lens[n] + 1, lens[m]);
    StartOfFirst(lens, m);
    WeightOf(lens[n], lens[m]);
    var c, p, w := Code(lens, n) + 1, Pow2(lens[m] - lens[n]), Weight(lens[m]);
    assert c * Weight(lens[n]) == c * p * w by { MulAssoc(c, p, w); }
    SameFactor(c * p, Code(lens, m), w);
  }

  lemma StartOfFirst(lens: seq<nat>, m: nat)
    requires ValidLengths(lens) && m < |lens| && forall k | 0 <= k < m :: lens[k] != lens[m]
    ensures Start(lens, m) == Below(lens, lens[m])
  {
    hide Below, Weight, Count;
    CountNone(lens[..m], lens[m]);
  }

  lemma LastStart(lens: seq<nat>, n: nat)
    requires ValidLengths(lens) && n < |lens| && lens[n] > 0 && forall k | n < k < |lens| :: lens[k] != lens[n]
    ensures Start(lens, n) + Weight(lens[n]) == Below(lens, lens[n] + 1)
  {
    hide Below, Weight, Count;
    var l := lens[n];
    BelowStep(lens, l);
    CountStep(lens, n, l);
    assert lens == lens[..n + 1] + lens[n + 1..];
    CountSplit(lens[..n + 1], lens[n + 1..], l);
    CountNone(lens[n + 1..], l);
    OneMore(Count(lens[..n], l), Weight(l));
  }

  lemma {:induction false} NothingBetween(lens: seq<nat>, a: nat, b: nat)
    requires ValidLengths(lens) && a <= b && forall k | 0 <= k < |lens| :: lens[k] < a || lens[k] >= b
    ensures Below(lens, a) == Below(lens, b)
  {
    if lens != [] { NothingBetween(lens[..|lens| - 1], a, b); }
  }

  /** Symbols of one length side by side. */
  lemma {:induction false} CodesRun(lens: seq<nat>, a: nat, k: nat)
    requires ValidLengths(lens) && Kraft(lens) <= 0x8000 && a <= k < |lens|
    requires forall i | a <= i <= k :: lens[i] == lens[a] > 0
    ensures Code(lens, k) == Code(lens, a) + (k - a)
    decreases k
  {
    hide *;
    if a < k {
      CodesRun(lens, a, k - 1);
      CodeOrder(lens, k - 1, k);
    }
  }

  /** Codes are sent from their highest bit on. */
  lemma CodeSent(lens: seq<nat>, n: nat, i: nat)
    requires ValidLengths(lens) && n < |lens| && i < lens[n]
    ensures CodeBits(lens, n)[i] == (Code(lens, n) / Pow2(lens[n] - 1 - i) % 2 == 1)
  {
    hide ToMsb, Code, Pow2;
    ToMsbAt(Code(lens, n), lens[n], i);
  }

  // ---------------------------------------------------------------- section 3.2.5: lengths and distances

  /** Length codes: eight single lengths, then four codes to each number of extra bits, and 258 by itself. */
  lemma LengthTable(l: nat)
    requires l < 29
    ensures l < 8 ==> Tokens.LengthBase(l) == l + 3 && Tokens.LengthExtra(l) == 0
    ensures 8 <= l < 28 ==>
              && Tokens.LengthExtra(l) == l / 4 - 1
              && Tokens.LengthBase(l) == 3 + (4 + l % 4) * Pow2(l / 4 - 1)
    ensures l == 28 ==> Tokens.LengthBase(l) == 258 && Tokens.LengthExtra(l) == 0
  {
    hide Pow2;
    Tokens.ExtraPowers();
    if 8 <= l < 28 { LengthEntries(l); }
  }

  lemma LengthEntries(l: nat)
    requires 8 <= l < 28
    ensures Tokens.LengthExtra(l) == l / 4 - 1
    ensures Tokens.LengthBase(l)
         == 3 + (4 + l % 4)
                * (if l < 12 then 2 else if l < 16 then 4 else if l < 20 then 8 else if l < 24 then 16 else 32)
  {}

  /** Distance codes: two single distances, then two codes to each number of extra bits. */
  lemma DistanceTable(d: nat)
    requires d < 30
    ensures d < 2 ==> Tokens.DistanceBase(d) == d + 1 && Tokens.DistanceExtra(d) == 0
    ensures d >= 2 ==>
              && Tokens.DistanceExtra(d) == d / 2 - 1
              && Tokens.DistanceBase(d) == 1 + (2 + d % 2) * Pow2(d / 2 - 1)
  {
    hide Pow2;
    Tokens.ExtraPowers();
  }

  // ---------------------------------------------------------------- section 3.2.6: the fixed codes

  /** The table of the section: lengths and codes of all 288 symbols, and five plain bits for a distance. */
  lemma FixedCodes(s: nat)
    requires s < 288
    ensures ValidLengths(FixedLL()) && ValidLengths(FixedD())
    ensures s <= 143 ==> FixedLL()[s] == 8 && Code(FixedLL(), s) == 0x30 + s
    ensures 144 <= s <= 255 ==> FixedLL()[s] == 9 && Code(FixedLL(), s) == 0x190 + (s - 144)
    ensures 256 <= s <= 279 ==> FixedLL()[s] == 7 && Code(FixedLL(), s) == s - 256
    ensures 280 <= s ==> FixedLL()[s] == 8 && Code(FixedLL(), s) == 0xC0 + (s - 280)
    ensures s < 32 ==> FixedD()[s] == 5 && Code(FixedD(), s) == s
  {
    hide *;
    Stream.FixedComplete();
    FixedShape();
    var ll := FixedLL();
    assert Pow2(1) == 2 by { Pow2Values(); }
    FirstCode(ll, 256);
    CodesRun(ll, 256, 279);
    NextLength(ll, 279, 0);
    CodesRun(ll, 0, 143);
    CodeOrder(ll, 143, 280);
    CodesRun(ll, 280, 287);
    NextLength(ll, 287, 144);
    if s <= 143 {
      CodesRun(ll, 0, s);
    } else if s <= 255 {
      CodesRun(ll, 144, s);
    } else if s <= 279 {
      CodesRun(ll, 256, s);
    } else {
      CodesRun(ll, 280, s);
    }
    if s < 32 {
      FirstCode(FixedD(), 0);
      CodesRun(FixedD(), 0, s);
    }
  }

  lemma FixedShape()
    ensures forall i | 0 <= i < |FixedLL()| ::
              FixedLL()[i] == if i < 144 then 8 else if i < 256 then 9 else if i < 280 then 7 else 8
    ensures |FixedLL()| == 288 && |FixedD()| == 32 && forall i | 0 <= i < 32 :: FixedD()[i] == 5
    ensures ValidLengths(FixedLL()) && ValidLengths(FixedD())
    ensures Stream.Complete(FixedLL()) ==> Kraft(FixedLL()) <= 0x8000
    ensures Stream.Complete(FixedD()) ==> Kraft(FixedD()) <= 0x8000
  {
    hide Kraft;
    Inflate.FixedLLAt();
  }

  // ---------------------------------------------------------------- section 3.2.7: runs of code lengths

  /** Symbol 16 repeats the length before it three to six times, 17 stands for three to ten zeros, 18 for 11 to 138. */
  lemma RunsReached(acc: seq<nat>, n: nat, v: nat)
    requires acc != []
    ensures (exists extra: nat :: extra < Pow2(ExtraBits(16)) && LengthRun(16, extra, acc) == Repeat(v, n)) <==>
              3 <= n <= 6 && v == acc[|acc| - 1]
    ensures (exists extra: nat :: extra < Pow2(ExtraBits(17)) && LengthRun(17, extra, acc) == Repeat(v, n)) <==>
              3 <= n <= 10 && v == 0
    ensures (exists extra: nat :: extra < Pow2(ExtraBits(18)) && LengthRun(18, extra, acc) == Repeat(v, n)) <==>
              11 <= n <= 138 && v == 0
  {
    hide Pow2;
    assert Pow2(2) == 4 && Pow2(3) == 8 && Pow2(7) == 128 by { Pow2Values(); }
    var last := acc[|acc| - 1];
    forall extra: nat | extra < 4 && LengthRun(16, extra, acc) == Repeat(v, n) ensures 3 <= n <= 6 && v == last {
      SameRepeat(last, 3 + extra, v, n);
    }
    forall extra: nat | extra < 8 && LengthRun(17, extra, acc) == Repeat(v, n) ensures 3 <= n <= 10 && v == 0 {
      SameRepeat(0, 3 + extra, v, n);
    }
    forall extra: nat | extra < 128 && LengthRun(18, extra, acc) == Repeat(v, n) ensures 11 <= n <= 138 && v == 0 {
      SameRepeat(0, 11 + extra, v, n);
    }
    if 3 <= n <= 6 && v == last { assert LengthRun(16, n - 3, acc) == Repeat(v, n); }
    if 3 <= n <= 10 && v == 0 { assert LengthRun(17, n - 3, acc) == Repeat(v, n); }
    if 11 <= n <= 138 && v == 0 { assert LengthRun(18, n - 11, acc) == Repeat(v, n); }
  }

  lemma SameRepeat(w: nat, k: nat, v: nat, n: nat)
    requires Repeat(w, k) == Repeat(v, n)
    ensures k == n && (n > 0 ==> w == v)
  {
    assert |Repeat(w, k)| == k && |Repeat(v, n)| == n;
    if n > 0 { assert Repeat(w, k)[0] == w && Repeat(v, n)[0] == v; }
  }

  // ---------------------------------------------------------------- sections 3.2.3 and 3.2.4: blocks

  /** A block with its own codes: the codes, then the compressed data. */
  ghost function ReadDynamic(bits: seq<bool>, p: nat, out: seq<byte>, max: nat): Option<Reading<seq<byte>>>
    requires p <= |bits|
  {
    match ReadTrees(bits, p)
    case None => None
    case Some(t) => ReadSymbols(bits, t.end, t.value.ll, t.value.d, out, max)
  }

  /** The three header bits: the last block is marked by the first; then, in the order of the bits, 00 is stored,
      10 fixed, 01 dynamic and 11 an error. */
  lemma BlockHeader(data: seq<byte>, p: nat, out: seq<byte>, settings: DecompressSettings)
    requires p + 3 <= 8 * |data|
    ensures |BitsOf(data)| == 8 * |data| && ValidLengths(FixedLL()) && ValidLengths(FixedD())
    ensures var bits := BitsOf(data);
            var block :=
              if !bits[p + 1] && !bits[p + 2] then ReadStored(data, p + 3, out, settings.ignoreNlen)
              else if !bits[p + 2] then ReadSymbols(bits, p + 3, FixedLL(), FixedD(), out, settings.maxOutputSize)
              else if !bits[p + 1] then ReadDynamic(bits, p + 3, out, settings.maxOutputSize)
              else None;
            ReadBlocks(data, p, out, settings)
            == if block.None? || TooLarge(|block.value.value|, settings.maxOutputSize) then None
               else if bits[p] then Some(block.value.value)
               else if block.value.end <= 8 * |data| then ReadBlocks(data, block.value.end, block.value.value, settings)
               else None
  {
    hide BitsOf, ReadStored, ReadTrees, ReadSymbols, FixedLL, FixedD, Field;
    FixedValid();
    TypeField(data, p);
  }

  lemma TypeField(data: seq<byte>, p: nat)
    requires p + 3 <= 8 * |data|
    ensures |BitsOf(data)| == 8 * |data|
    ensures Field(BitsOf(data), p + 1, 2) == Bit(BitsOf(data)[p + 1]) + 2 * Bit(BitsOf(data)[p + 2])
  {
    hide BitsOf;
    var x, y := BitsOf(data)[p + 1], BitsOf(data)[p + 2];
    assert Window(BitsOf(data), p + 1, 2) == [x, y];
    assert [x, y][1..] == [y] && [y][1..] == [];
    assert Lsb([y]) == Bit(y) && Lsb([x, y]) == Bit(x) + 2 * Lsb([y]);
  }

  /** Up to 65535 bytes are stored behind a byte with the header bits, their number and its complement, low bytes
      first. */
  lemma StoredBytes(data: seq<byte>, low: byte, high: byte)
    requires 0 < |data| == 256 * high as nat + low as nat
    ensures Deflate.Stored(data, 0) == [1, low, high, 255 - low, 255 - high] + data
    ensures Deflate.InflatesTo([1, low, high, 255 - low, 255 - high] + data, data)
  {
    hide *;
    StoredWhole(data);
    ComplementBytes(|data|, low, high);
    Glue(StoredBytesOf(|data|), data);
    Deflate.StoredInflates(data);
  }

  lemma Glue(header: seq<byte>, data: seq<byte>)
    ensures header + data[0..|data|] + [] == header + data
  {
    assert data[0..|data|] == data;
  }

  function StoredBytesOf(n: nat): seq<byte>
    requires n <= 65535
  {
    Deflate.StoredHeader(n, true)
  }

  lemma StoredWhole(data: seq<byte>)
    requires 0 < |data| <= 65535
    ensures Deflate.Stored(data, 0) == StoredBytesOf(|data|) + data[0..|data|] + []
  {
    Deflate.StoredNext(data, 0, |data|);
    assert Deflate.Stored(data, |data|) == [];
    hide *;
  }

  lemma ComplementBytes(n: nat, low: byte, high: byte)
    requires n == 256 * high as nat + low as nat
    ensures n <= 65535 && StoredBytesOf(n) == [1, low, high, 255 - low, 255 - high]
  {
    DivModUnique(n, 256, high, low);
    DivModUnique(65535 - n, 256, 255 - high, 255 - low);
  }
}
