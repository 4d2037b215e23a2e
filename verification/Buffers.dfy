/** Overwriting part of a sequence, and bits of a byte buffer with the most significant bit first. */
module Buffers {
  import opened Bits

  function Area(width: nat, height: nat): nat {
    width * height
  }

  lemma AreaNext(width: nat, n: nat)
    ensures Area(width, n + 1) == Area(width, n) + width && Area(width, 0) == 0
    ensures Area(width + 1, n) == Area(width, n) + n
  {}

  lemma AreaOrder(width: nat, m: nat, n: nat)
    requires m <= n
    ensures Area(width, m) <= Area(width, n)
  {
    MulLe(m, n, width);
  }

  /** `was` with `r` written over it from `at` on. */
  ghost function Placed<T>(was: seq<T>, at: nat, r: seq<T>): (s: seq<T>)
    requires at + |r| <= |was|
    ensures |s| == |was|
  {
    was[..at] + r + was[at + |r|..]
  }

  lemma PlacedTwice<T>(was: seq<T>, at: nat, r: seq<T>, s: seq<T>)
    requires at + |r| + |s| <= |was|
    ensures Placed(Placed(was, at, r), at + |r|, s) == Placed(was, at, r + s)
  {}

  lemma PlacedKeeps<T>(was: seq<T>, at: nat, r: seq<T>, a: nat, n: nat)
    requires at + |r| <= |was| && a + n <= |was| && (a + n <= at || at + |r| <= a)
    ensures Placed(was, at, r)[a..a + n] == was[a..a + n]
  {
    var all := Placed(was, at, r);
    var now, before := all[a..a + n], was[a..a + n];
    forall i | 0 <= i < n ensures now[i] == before[i] {
      assert all[a + i] == was[a + i];
    }
  }

  lemma PlacedNothing<T>(was: seq<T>, at: nat)
    requires at <= |was|
    ensures Placed(was, at, []) == was
  {}

  lemma PlacedOne<T>(was: seq<T>, at: nat, v: T)
    requires at < |was|
    ensures was[at := v] == Placed(was, at, [v])
  {}

  /** What is still to be read is intact: writing never gets ahead of reading. */
  lemma StillThere<T>(same: bool, now: seq<T>, was: seq<T>, at: nat, front: seq<T>, data: seq<T>, scan: seq<T>,
                      from: nat, m: nat, n: nat)
    requires at + |front| <= |was| && from + |scan| <= |data| && m <= n <= |scan|
    requires if same then now == data == Placed(was, at, front) && scan == was[from..from + |scan|]
          && at + |front| <= from + m
             else scan == data[from..from + |scan|]
    ensures data[from + m..from + n] == scan[m..n]
  {
    forall k | m <= k < n ensures data[from + k] == scan[k] {
      if same {
        assert scan[k] == was[from + k];
        assert was[at + |front|..][from + k - at - |front|] == was[from + k];
      }
    }
    var part := data[from + m..from + n];
    assert forall k | 0 <= k < n - m :: part[k] == data[from + (m + k)] == scan[m + k];
  }

  // ---------------------------------------------------------------- bits of numbers

  lemma BitAtNext(v: nat, k: nat)
    ensures BitAt(v, 0) == (v % 2 == 1) && BitAt(v, k + 1) == BitAt(v / 2, k)
  {
    DivDiv(v, 2, Pow2(k));
    assert Pow2(0) == 1;
  }

  lemma {:induction false} OrBits(a: nat, b: nat, k: nat)
    ensures BitAt(Or(a, b), k) == (BitAt(a, k) || BitAt(b, k))
    decreases k
  {
    hide BitAt, Pow2;
    BitsOfZero(k);
    if a != 0 && b != 0 {
      var low := if a % 2 == 1 || b % 2 == 1 then 1 else 0;
      assert Or(a, b) == low + 2 * Or(a / 2, b / 2);
      Halves(Or(a, b), low, Or(a / 2, b / 2));
      if k == 0 {
        BitAtNext(a, 0); BitAtNext(b, 0); BitAtNext(Or(a, b), 0);
      } else {
        BitAtNext(a, k - 1); BitAtNext(b, k - 1); BitAtNext(Or(a, b), k - 1);
        OrBits(a / 2, b / 2, k - 1);
      }
    }
  }

  lemma {:induction false} AndBits(a: nat, b: nat, k: nat)
    ensures BitAt(And(a, b), k) == (BitAt(a, k) && BitAt(b, k))
    decreases k
  {
    hide BitAt, Pow2;
    BitsOfZero(k);
    if a != 0 && b != 0 {
      var low := if a % 2 == 1 && b % 2 == 1 then 1 else 0;
      assert And(a, b) == low + 2 * And(a / 2, b / 2);
      Halves(And(a, b), low, And(a / 2, b / 2));
      if k == 0 {
        BitAtNext(a, 0); BitAtNext(b, 0); BitAtNext(And(a, b), 0);
      } else {
        BitAtNext(a, k - 1); BitAtNext(b, k - 1); BitAtNext(And(a, b), k - 1);
        AndBits(a / 2, b / 2, k - 1);
      }
    }
  }

  lemma BitsOfZero(k: nat)
    ensures !BitAt(0, k)
  {
    DivModUnique(0, Pow2(k), 0, 0);
  }

  lemma Halves(v: nat, low: nat, high: nat)
    requires low < 2 && v == low + 2 * high
    ensures v / 2 == high && v % 2 == low
  {}

  lemma {:induction false} OrBound(a: nat, b: nat, n: nat)
    requires a < Pow2(n) && b < Pow2(n)
    ensures Or(a, b) < Pow2(n)
    decreases n
  {
    if n > 0 && a != 0 && b != 0 { OrBound(a / 2, b / 2, n - 1); }
  }

  lemma {:induction false} AndBound(a: nat, b: nat)
    ensures And(a, b) <= a
  {
    if a != 0 && b != 0 { AndBound(a / 2, b / 2); }
  }

  lemma {:induction false} PowerBits(n: nat, k: nat)
    ensures BitAt(Pow2(n), k) == (k == n)
  {
    hide BitAt;
    if k == 0 { BitAtNext(Pow2(n), 0); } else { BitAtNext(Pow2(n), k - 1); }
    if n == 0 && k > 0 {
      BitsOfZero(k - 1);
    } else if k > 0 {
      PowerBits(n - 1, k - 1);
    }
  }

  /** The complement within `n` bits. */
  lemma {:induction false} ComplementBits(v: nat, n: nat, k: nat)
    requires v < Pow2(n) && k < n
    ensures BitAt(Pow2(n) - 1 - v, k) == !BitAt(v, k)
  {
    hide BitAt;
    var c := Pow2(n) - 1 - v;
    Halves(c, 1 - v % 2, Pow2(n - 1) - 1 - v / 2);
    if k == 0 {
      BitAtNext(v, 0);
      BitAtNext(c, 0);
    } else {
      BitAtNext(v, k - 1);
      BitAtNext(c, k - 1);
      ComplementBits(v / 2, n - 1, k - 1);
    }
  }

  // ---------------------------------------------------------------- bits of buffers

  /** Pixels smaller than a byte are packed from the top of each byte down. */
  ghost function PixelBits(data: seq<byte>): (s: seq<bool>)
    ensures |s| == 8 * |data|
  {
    seq(8 * |data|, i requires 0 <= i < 8 * |data| => BitAt(data[i / 8], 7 - i % 8))
  }

  lemma PixelBitAt(data: seq<byte>, i: nat)
    requires i < 8 * |data|
    ensures PixelBits(data)[i] == BitAt(data[i / 8], 7 - i % 8)
  {}

  method ReadBit(buf: array<byte>, bp: nat) returns (bit: nat, bp': nat)
    requires bp < 8 * buf.Length
    ensures bit == Bit(PixelBits(buf[..])[bp]) && bp' == bp + 1
  {
    PixelBitAt(buf[..], bp);
    bit := Shr(buf[bp / 8], 7 - bp % 8) % 2;
    bp' := bp + 1;
  }

  /** Clears or sets one bit; the others stay. */
  method SetBit(buf: array<byte>, bp: nat, bit: nat) returns (bp': nat)
    requires bp < 8 * buf.Length && bit < 2
    modifies buf
    ensures PixelBits(buf[..]) == old(PixelBits(buf[..]))[bp := bit == 1] && bp' == bp + 1
  {
    hide And, Or, Pow2, BitAt;
    ghost var before := buf[..];
    var i, k := bp / 8, 7 - bp % 8;
    if bit == 0 {
      ghost var r := ClearedByte(buf[i], k);
      buf[i] := And(buf[i], 255 - Pow2(k));
    } else {
      ghost var r := SetByte(buf[i], k);
      buf[i] := Or(buf[i], Pow2(k));
    }
    bp' := bp + 1;
    assert buf[..] == before[i := buf[i]];
    OneByteChanged(before, bp, buf[i], bit == 1);
  }

  lemma ClearedByte(v: byte, k: nat) returns (r: byte)
    requires k < 8
    ensures Pow2(k) <= 255 && r == And(v, 255 - Pow2(k))
    ensures forall j | 0 <= j < 8 :: BitAt(r, j) == (j != k && BitAt(v, j))
  {
    hide *;
    BitOfByte(k);
    AndBound(v, 255 - Pow2(k));
    r := And(v, 255 - Pow2(k));
    forall j | 0 <= j < 8 ensures BitAt(r, j) == (j != k && BitAt(v, j)) {
      AndBits(v, 255 - Pow2(k), j);
      ComplementBits(Pow2(k), 8, j);
      PowerBits(k, j);
    }
  }

  lemma BitOfByte(k: nat)
    requires k < 8
    ensures Pow2(k) <= 128 && Pow2(8) == 256
  {
    hide Pow2;
    Pow2Values();
    Pow2Mono(k, 7);
  }

  lemma SetByte(v: byte, k: nat) returns (r: byte)
    requires k < 8
    ensures r == Or(v, Pow2(k))
    ensures forall j | 0 <= j < 8 :: BitAt(r, j) == (j == k || BitAt(v, j))
  {
    hide Or, BitAt;
    Pow2Values();
    Pow2Mono(k, 7);
    OrBound(v, Pow2(k), 8);
    r := Or(v, Pow2(k));
    forall j | 0 <= j < 8 ensures BitAt(r, j) == (j == k || BitAt(v, j)) {
      OrBits(v, Pow2(k), j);
      PowerBits(k, j);
    }
  }

  lemma OneByteChanged(data: seq<byte>, bp: nat, v: byte, bit: bool)
    requires bp < 8 * |data|
    requires forall j | 0 <= j < 8 :: BitAt(v, j) == (if j == 7 - bp % 8 then bit else BitAt(data[bp / 8], j))
    ensures PixelBits(data[bp / 8 := v]) == PixelBits(data)[bp := bit]
  {
    hide BitAt, PixelBits;
    var data' := data[bp / 8 := v];
    forall i | 0 <= i < 8 * |data| ensures PixelBits(data')[i] == PixelBits(data)[bp := bit][i] {
      PixelBitAt(data, i);
      PixelBitAt(data', i);
    }
  }

  // ---------------------------------------------------------------- copying bits

  /** `n` bits from place `ibp` to place `obp`, one at a time. */
  method CopyBits(out: array<byte>, obp: nat, data: array<byte>, ibp: nat, n: nat, ghost scan: seq<bool>)
    requires obp + n <= 8 * out.Length && ibp + n <= 8 * data.Length && (out == data ==> obp <= ibp)
    requires scan == PixelBits(data[..])[ibp..ibp + n]
    modifies out
    ensures PixelBits(out[..]) == Placed(old(PixelBits(out[..])), obp, scan)
  {
    hide PixelBits, Placed;
    ghost var was, src := PixelBits(out[..]), PixelBits(data[..]);
    PlacedNothing(was, obp);
    assert scan[..0] == [];
    var i, o := ibp, obp;
    for x := 0 to n
      invariant i == ibp + x && o == obp + x && PixelBits(out[..]) == Placed(was, obp, scan[..x])
      invariant out != data ==> PixelBits(data[..]) == src
    {
      ghost var now := PixelBits(out[..]);
      assert PixelBits(data[..])[i] == scan[x] by {
        BitStillThere(out == data, was, obp, scan, PixelBits(data[..]), src, ibp, x);
      }
      var bit;
      bit, i := ReadBit(data, i);
      o := SetBit(out, o, bit);
      PlacedOne(now, obp + x, scan[x]);
      PlacedTwice(was, obp, scan[..x], [scan[x]]);
      TakeNext(scan, x);
    }
    TakeAll(scan, n);
  }

  lemma BitStillThere(same: bool, was: seq<bool>, obp: nat, scan: seq<bool>, data: seq<bool>, src: seq<bool>, ibp: nat,
                      x: nat)
    requires x < |scan| && ibp + |scan| <= |src| && scan == src[ibp..ibp + |scan|] && obp + |scan| <= |was|
    requires if same then data == Placed(was, obp, scan[..x]) && src == was && obp <= ibp else data == src
    ensures |data| == |src| && data[ibp + x] == scan[x]
  {
    if same { StillThere(true, data, was, obp, scan[..x], data, src, 0, ibp + x, ibp + x + 1); }
    assert data[ibp + x] == data[ibp + x..ibp + x + 1][0];
    assert src[ibp + x] == src[ibp + x..ibp + x + 1][0];
  }

  // ---------------------------------------------------------------- padding

  /** Rows of `take` bits out of rows of `skip` bits. */
  ghost function Gathered(bits: seq<bool>, start: nat, take: nat, skip: nat, n: nat): (r: seq<bool>)
    requires take <= skip && start + Area(skip, n) <= |bits|
    ensures |r| == Area(take, n)
  {
    AreaNext(take, 0);
    if n == 0 then []
    else
      AreaNext(take, n - 1);
      AreaNext(skip, n - 1);
      var p := start + Area(skip, n - 1);
      Gathered(bits, start, take, skip, n - 1) + bits[p..p + take]
  }

  /** Rows of `take` bits filled up with zeros to rows of `fill` bits. */
  ghost function Spread(bits: seq<bool>, start: nat, take: nat, fill: nat, n: nat): (r: seq<bool>)
    requires take <= fill && start + Area(take, n) <= |bits|
    ensures |r| == Area(fill, n)
  {
    AreaNext(fill, 0);
    if n == 0 then []
    else
      AreaNext(take, n - 1);
      AreaNext(fill, n - 1);
      var p := start + Area(take, n - 1);
      Spread(bits, start, take, fill, n - 1) + (bits[p..p + take] + Zeros(fill - take))
  }

  /** Removing the padding gives back what was padded. */
  lemma {:induction false} PaddingRoundTrip(bits: seq<bool>, start: nat, take: nat, fill: nat, n: nat,
                                            padded: seq<bool>, at: nat)
    requires take <= fill && start + Area(take, n) <= |bits| && at + Area(fill, n) <= |padded|
    requires Spread(bits, start, take, fill, n) == padded[at..at + Area(fill, n)]
    ensures Gathered(padded, at, take, fill, n) == bits[start..start + Area(take, n)]
  {
    hide Area, Spread, Gathered;
    AreaNext(take, 0);
    AreaNext(fill, 0);
    if n == 0 {
      GatheredNone(padded, at, take, fill);
    } else {
      AreaNext(take, n - 1);
      AreaNext(fill, n - 1);
      SpreadNext(bits, start, take, fill, n - 1);
      GatheredNext(padded, at, take, fill, n - 1);
      var front, row := Spread(bits, start, take, fill, n - 1),
          bits[start + Area(take, n - 1)..start + Area(take, n - 1) + take];
      SpreadParts(padded, at, front, row, fill - take);
      PaddingRoundTrip(bits, start, take, fill, n - 1, padded, at);
      Longer(bits, start, Area(take, n - 1), take);
    }
  }

  lemma SpreadParts(padded: seq<bool>, at: nat, front: seq<bool>, row: seq<bool>, gap: nat)
    requires at + |front| + |row| + gap <= |padded|
    requires padded[at..at + |front| + |row| + gap] == front + (row + Zeros(gap))
    ensures padded[at..at + |front|] == front && padded[at + |front|..at + |front| + |row|] == row
  {
    var all := front + (row + Zeros(gap));
    forall i | 0 <= i < |front| + |row| ensures padded[at + i] == all[i] {
      assert padded[at..at + |front| + |row| + gap][i] == all[i];
    }
    var first, second := padded[at..at + |front|], padded[at + |front|..at + |front| + |row|];
    assert forall i | 0 <= i < |front| :: first[i] == padded[at + i];
    assert forall i | 0 <= i < |row| :: second[i] == padded[at + (|front| + i)] == row[i];
  }

  lemma Longer(s: seq<bool>, start: nat, n: nat, k: nat)
    requires start + n + k <= |s|
    ensures s[start..start + n] + s[start + n..start + n + k] == s[start..start + n + k]
  {}

  /** `removePaddingBits`, from byte `ib` of `data` to byte `ob` of `out`; they may overlap as long as writing stays
      behind. */
  method RemovePaddingBits(out: array<byte>, ob: nat, data: array<byte>, ib: nat, olinebits: nat, ilinebits: nat,
                           h: nat)
    requires olinebits <= ilinebits && (out == data ==> ob <= ib)
    requires 8 * ob + Area(olinebits, h) <= 8 * out.Length && 8 * ib + Area(ilinebits, h) <= 8 * data.Length
    modifies out
    ensures PixelBits(out[..]) == Placed(old(PixelBits(out[..])), 8 * ob,
                                         old(Gathered(PixelBits(data[..]), 8 * ib, olinebits, ilinebits, h)))
  {
    hide PixelBits, Placed, Area;
    ghost var was, src := PixelBits(out[..]), PixelBits(data[..]);
    ghost var all := Gathered(src, 8 * ib, olinebits, ilinebits, h);
    var diff := ilinebits - olinebits;
    var ibp, obp := 8 * ib, 8 * ob;
    AreaNext(olinebits, 0);
    AreaNext(ilinebits, 0);
    AreaOrder(ilinebits, 0, h);
    AreaOrder(olinebits, 0, h);
    GatheredNone(src, 8 * ib, olinebits, ilinebits);
    PlacedNothing(was, obp);
    for y := 0 to h
      invariant ibp == 8 * ib + Area(ilinebits, y) && obp == 8 * ob + Area(olinebits, y)
      invariant Area(ilinebits, y) <= Area(ilinebits, h) && Area(olinebits, y) <= Area(olinebits, h)
      invariant PixelBits(out[..]) == Placed(was, 8 * ob, Gathered(src, 8 * ib, olinebits, ilinebits, y))
      invariant out != data ==> PixelBits(data[..]) == src
    {
      AreaNext(olinebits, y);
      AreaNext(ilinebits, y);
      AreaOrder(olinebits, y + 1, h);
      AreaOrder(ilinebits, y + 1, h);
      AreaWider(olinebits, ilinebits, y);
      ghost var front, row := Gathered(src, 8 * ib, olinebits, ilinebits, y), src[ibp..ibp + olinebits];
      StillThere(out == data, PixelBits(out[..]), was, 8 * ob, front, PixelBits(data[..]), src, 0, ibp,
                 ibp + olinebits);
      CopyBits(out, obp, data, ibp, olinebits, row);
      GatheredNext(src, 8 * ib, olinebits, ilinebits, y);
      PlacedTwice(was, 8 * ob, front, row);
      ibp := ibp + olinebits + diff;
      obp := obp + olinebits;
    }
  }

  lemma GatheredNone(bits: seq<bool>, start: nat, take: nat, skip: nat)
    requires take <= skip && start <= |bits|
    ensures Area(skip, 0) == 0 && Gathered(bits, start, take, skip, 0) == []
  {}

  lemma GatheredNext(bits: seq<bool>, start: nat, take: nat, skip: nat, n: nat)
    requires take <= skip && start + Area(skip, n) + skip == start + Area(skip, n + 1) <= |bits|
    ensures Gathered(bits, start, take, skip, n + 1)
         == Gathered(bits, start, take, skip, n) + bits[start + Area(skip, n)..start + Area(skip, n) + take]
  {}

  lemma AreaWider(a: nat, b: nat, n: nat)
    requires a <= b
    ensures Area(a, n) <= Area(b, n)
  {
    MulLe(a, b, n);
  }

  lemma SpreadNone(bits: seq<bool>, start: nat, take: nat, fill: nat)
    requires take <= fill && start <= |bits|
    ensures Area(take, 0) == 0 && Spread(bits, start, take, fill, 0) == []
  {}

  lemma SpreadNext(bits: seq<bool>, start: nat, take: nat, fill: nat, n: nat)
    requires take <= fill && start + Area(take, n) + take == start + Area(take, n + 1) <= |bits|
    ensures Spread(bits, start, take, fill, n + 1)
         == Spread(bits, start, take, fill, n) + (bits[start + Area(take, n)..start + Area(take, n) + take]
             + Zeros(fill - take))
  {}

  /** `addPaddingBits` into a buffer of its own. */
  method AddPaddingBits(out: array<byte>, data: array<byte>, ib: nat, olinebits: nat, ilinebits: nat, h: nat)
    requires ilinebits <= olinebits && out != data
    requires Area(olinebits, h) <= 8 * out.Length && 8 * ib + Area(ilinebits, h) <= 8 * data.Length
    modifies out
    ensures PixelBits(out[..]) == Placed(old(PixelBits(out[..])), 0,
                                         Spread(PixelBits(data[..]), 8 * ib, ilinebits, olinebits, h))
  {
    hide PixelBits, Placed, Area;
    ghost var was, src := PixelBits(out[..]), PixelBits(data[..]);
    var diff := olinebits - ilinebits;
    var ibp, obp := 8 * ib, 0;
    AreaNext(olinebits, 0);
    AreaNext(ilinebits, 0);
    AreaOrder(ilinebits, 0, h);
    AreaOrder(olinebits, 0, h);
    SpreadNone(src, 8 * ib, ilinebits, olinebits);
    PlacedNothing(was, 0);
    for y := 0 to h
      invariant ibp == 8 * ib + Area(ilinebits, y) && obp == Area(olinebits, y)
      invariant Area(ilinebits, y) <= Area(ilinebits, h) && Area(olinebits, y) <= Area(olinebits, h)
      invariant PixelBits(out[..]) == Placed(was, 0, Spread(src, 8 * ib, ilinebits, olinebits, y))
      invariant PixelBits(data[..]) == src
    {
      AreaNext(olinebits, y);
      AreaNext(ilinebits, y);
      AreaOrder(olinebits, y + 1, h);
      AreaOrder(ilinebits, y + 1, h);
      ghost var front, row := Spread(src, 8 * ib, ilinebits, olinebits, y), src[ibp..ibp + ilinebits];
      CopyBits(out, obp, data, ibp, ilinebits, row);
      PlacedTwice(was, 0, front, row);
      ClearBits(out, obp + ilinebits, diff);
      PlacedTwice(was, 0, front + row, Zeros(diff));
      SpreadNext(src, 8 * ib, ilinebits, olinebits, y);
      ConcatAssoc(front, row, Zeros(diff));
      ibp := ibp + ilinebits;
      obp := obp + ilinebits + diff;
    }
  }

  method ClearBits(out: array<byte>, obp: nat, n: nat)
    requires obp + n <= 8 * out.Length
    modifies out
    ensures PixelBits(out[..]) == Placed(old(PixelBits(out[..])), obp, Zeros(n))
  {
    hide PixelBits, Placed;
    ghost var was := PixelBits(out[..]);
    PlacedNothing(was, obp);
    assert Zeros(0) == [];
    var o := obp;
    for x := 0 to n
      invariant o == obp + x && PixelBits(out[..]) == Placed(was, obp, Zeros(x))
    {
      ghost var now := PixelBits(out[..]);
      o := SetBit(out, o, 0);
      PlacedOne(now, obp + x, false);
      PlacedTwice(was, obp, Zeros(x), [false]);
      assert Zeros(x) + [false] == Zeros(x + 1);
    }
  }

  /** Bytes with the same bits are the same. */
  lemma SameBitsSameBytes(s: seq<byte>, t: seq<byte>)
    requires PixelBits(s) == PixelBits(t)
    ensures s == t
  {
    hide PixelBits, BitAt;
    assert |s| == |t| by { assert |PixelBits(s)| == |PixelBits(t)|; }
    forall i | 0 <= i < |s| ensures s[i] == t[i] {
      forall k | 0 <= k < 8 ensures BitAt(s[i], k) == BitAt(t[i], k) {
        var p := 8 * i + (7 - k);
        assert p / 8 == i && 7 - p % 8 == k;
        PixelBitAt(s, p);
        PixelBitAt(t, p);
      }
      SameBits(s[i], t[i]);
    }
  }

  lemma SameBits(v: byte, u: byte)
    requires forall k | 0 <= k < 8 :: BitAt(v, k) == BitAt(u, k)
    ensures v == u
  {
    var s := seq(8, k requires 0 <= k < 8 => BitAt(v, k));
    assert Pow2(8) == 256 by { Pow2Values(); }
    hide Pow2, BitAt, Lsb;
    LsbFromBits(s, v);
    LsbFromBits(s, u);
  }
}
