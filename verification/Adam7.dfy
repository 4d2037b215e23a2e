/** Adam7 interlacing (section 8.2 of the PNG specification, second edition): seven reduced images that
    together hold every pixel exactly once. */
module Adam7 {
  import Bits
  import opened Buffers
  import opened ImageRows

  const ADAM7IX: seq<nat> := [0, 4, 0, 2, 0, 1, 0]
  const ADAM7IY: seq<nat> := [0, 0, 4, 0, 2, 0, 1]
  const ADAM7DX: seq<nat> := [8, 8, 4, 4, 2, 2, 1]
  const ADAM7DY: seq<nat> := [8, 8, 8, 4, 4, 2, 2]

  function IX(i: nat): nat
    requires i < 7
  {
    ADAM7IX[i]
  }

  function IY(i: nat): nat
    requires i < 7
  {
    ADAM7IY[i]
  }

  function DX(i: nat): (d: nat)
    requires i < 7
    ensures d > 0
  {
    ADAM7DX[i]
  }

  function DY(i: nat): (d: nat)
    requires i < 7
    ensures d > 0
  {
    ADAM7DY[i]
  }

  function PassWidth(w: nat, i: nat): nat
    requires i < 7
  {
    ColumnBounds(w, i);
    (w + DX(i) - IX(i) - 1) / DX(i)
  }

  function PassHeight(h: nat, i: nat): nat
    requires i < 7
  {
    ColumnBounds(h, i);
    (h + DY(i) - IY(i) - 1) / DY(i)
  }

  lemma ColumnBounds(n: nat, i: nat)
    requires i < 7
    ensures n + DX(i) - IX(i) - 1 >= 0 && n + DY(i) - IY(i) - 1 >= 0
    ensures (n + DX(i) - IX(i) - 1) / DX(i) >= 0 && (n + DY(i) - IY(i) - 1) / DY(i) >= 0
  {}

  /** Width and height of pass `i`, both zero if either is. */
  function PassW(w: nat, h: nat, i: nat): nat
    requires i < 7
  {
    if PassHeight(h, i) == 0 then 0 else PassWidth(w, i)
  }

  function PassH(w: nat, h: nat, i: nat): nat
    requires i < 7
  {
    if PassWidth(w, i) == 0 then 0 else PassHeight(h, i)
  }

  // ---------------------------------------------------------------- the partition

  /** The pass of a pixel, from the parities of its coordinates. */
  function PassOf(x: nat, y: nat): (i: nat)
    ensures i < 7
  {
    if y % 2 == 1 then 6
    else if x % 2 == 1 then 5
    else if y % 4 == 2 then 4
    else if x % 4 == 2 then 3
    else if y % 8 == 4 then 2
    else if x % 8 == 4 then 1
    else 0
  }

  /** Pass `i` holds the pixel at column `px` and row `py` of its reduced image. */
  ghost predicate Holds(i: nat, px: nat, py: nat, x: nat, y: nat) {
    i < 7 && x == IX(i) + px * DX(i) && y == IY(i) + py * DY(i)
  }

  lemma ColumnInPass(x: nat, w: nat, i: nat)
    requires i < 7 && x < w && x % DX(i) == IX(i) % DX(i) && x >= IX(i)
    ensures x == IX(i) + x / DX(i) * DX(i) && x / DX(i) < PassWidth(w, i)
  {}

  lemma RowInPass(y: nat, h: nat, i: nat)
    requires i < 7 && y < h && y % DY(i) == IY(i) % DY(i) && y >= IY(i)
    ensures y == IY(i) + y / DY(i) * DY(i) && y / DY(i) < PassHeight(h, i)
  {}

  lemma ResidueX(x: nat, y: nat)
    ensures x % DX(PassOf(x, y)) == IX(PassOf(x, y)) % DX(PassOf(x, y)) && x >= IX(PassOf(x, y))
  {}

  lemma ResidueY(x: nat, y: nat)
    ensures y % DY(PassOf(x, y)) == IY(PassOf(x, y)) % DY(PassOf(x, y)) && y >= IY(PassOf(x, y))
  {}

  /** Every pixel of the image lies in its pass, inside the reduced image. */
  lemma PixelInPass(x: nat, y: nat, w: nat, h: nat)
    requires x < w && y < h
    ensures var i := PassOf(x, y);
            && Holds(i, x / DX(i), y / DY(i), x, y) && x / DX(i) < PassW(w, h, i) && y / DY(i) < PassH(w, h, i)
  {
    hide IX, IY, DX, DY;
    ResidueX(x, y);
    ResidueY(x, y);
    ColumnInPass(x, w, PassOf(x, y));
    RowInPass(y, h, PassOf(x, y));
  }

  /** Every place of a reduced image is a pixel of the image, found in no other pass and nowhere else in its own. */
  lemma PassHoldsOnly(i: nat, px: nat, py: nat, x: nat, y: nat, w: nat, h: nat)
    requires Holds(i, px, py, x, y) && px < PassW(w, h, i) && py < PassH(w, h, i)
    ensures x < w && y < h && PassOf(x, y) == i && x / DX(i) == px && y / DY(i) == py
    ensures forall j, qx, qy :: Holds(j, qx, qy, x, y) ==> j == i && qx == px && qy == py
  {
    HeldOnce(i, px, py, x, y);
    forall j, qx, qy | Holds(j, qx, qy, x, y) ensures j == i && qx == px && qy == py {
      HeldOnce(j, qx, qy, x, y);
    }
    PlaceInImage(i, px, w);
    PlaceInImage(i, py, h);
  }

  lemma HeldOnce(i: nat, px: nat, py: nat, x: nat, y: nat)
    requires Holds(i, px, py, x, y)
    ensures PassOf(x, y) == i && x / DX(i) == px && y / DY(i) == py
  {
    HeldPass(i, px, py, x, y);
    HeldPlace(i, px, py, x, y);
  }

  lemma HeldPass(i: nat, px: nat, py: nat, x: nat, y: nat)
    requires Holds(i, px, py, x, y)
    ensures PassOf(x, y) == i
  {
    if i == 0 {
      Multiple(px, 8, 0); Multiple(py, 8, 0);
    } else if i == 1 {
      Multiple(px, 8, 4); Multiple(py, 8, 0);
    } else if i == 2 {
      Multiple(px, 4, 0); Multiple(py, 8, 4);
    } else if i == 3 {
      Multiple(px, 4, 2); Multiple(py, 4, 0);
    } else if i == 4 {
      Multiple(px, 2, 0); Multiple(py, 4, 2);
    } else if i == 5 {
      Multiple(px, 2, 1); Multiple(py, 2, 0);
    } else {
      Multiple(py, 2, 1);
    }
  }

  /** Residues of a coordinate modulo 2, 4 and 8. */
  lemma Multiple(p: nat, d: nat, o: nat)
    requires d in {2, 4, 8} && o < d
    ensures (o + p * d) % 2 == o % 2
    ensures d >= 4 ==> (o + p * d) % 4 == o % 4
    ensures d == 8 ==> (o + p * d) % 8 == o
  {
    if d == 2 {
      Residue(p, 2, o);
    } else if d == 4 {
      Residue(2 * p + o / 2, 2, o % 2);
      Residue(p, 4, o);
    } else {
      Residue(4 * p + o / 2, 2, o % 2);
      Residue(2 * p + o / 4, 4, o % 4);
      Residue(p, 8, o);
    }
  }

  lemma Residue(q: nat, m: nat, r: nat)
    requires r < m
    ensures (q * m + r) % m == r
  {
    Bits.DivModUnique(q * m + r, m, q, r);
  }

  lemma HeldPlace(i: nat, px: nat, py: nat, x: nat, y: nat)
    requires Holds(i, px, py, x, y)
    ensures x / DX(i) == px && y / DY(i) == py
  {}

  lemma PlaceInImage(i: nat, p: nat, n: nat)
    requires i < 7
    ensures p < PassWidth(n, i) ==> IX(i) + p * DX(i) < n
    ensures p < PassHeight(n, i) ==> IY(i) + p * DY(i) < n
  {}

  // ---------------------------------------------------------------- sizes

  ghost function PassCount(w: nat, h: nat, i: nat): nat
    requires i < 7
  {
    Area(PassW(w, h, i), PassH(w, h, i))
  }

  /** Bits of a reduced image without padding between its rows. */
  ghost function PassBits(w: nat, h: nat, bpp: nat, i: nat): nat
    requires i < 7
  {
    Area(bpp, PassCount(w, h, i))
  }

  /** Where pass `i` starts with filter bytes, with padded rows, and with only its end padded. */
  ghost function FilterStart(w: nat, h: nat, bpp: nat, i: nat): nat
    requires i <= 7
  {
    if i == 0 then 0
    else FilterStart(w, h, bpp, i - 1) + Area(LineBytes(PassW(w, h, i - 1), bpp) + 1, PassH(w, h, i - 1))
  }

  ghost function PaddedStart(w: nat, h: nat, bpp: nat, i: nat): nat
    requires i <= 7
  {
    if i == 0 then 0
    else PaddedStart(w, h, bpp, i - 1) + Area(LineBytes(PassW(w, h, i - 1), bpp), PassH(w, h, i - 1))
  }

  ghost function PassStart(w: nat, h: nat, bpp: nat, i: nat): nat
    requires i <= 7
  {
    if i == 0 then 0 else PassStart(w, h, bpp, i - 1) + (PassBits(w, h, bpp, i - 1) + 7) / 8
  }

  /** Removing filter bytes and padding only ever moves data towards the front. */
  lemma {:induction false} StartsOrdered(w: nat, h: nat, bpp: nat, i: nat)
    requires i <= 7
    ensures PassStart(w, h, bpp, i) <= PaddedStart(w, h, bpp, i) <= FilterStart(w, h, bpp, i)
  {
    if i > 0 {
      StartsOrdered(w, h, bpp, i - 1);
      PassSizesOrdered(PassW(w, h, i - 1), PassH(w, h, i - 1), bpp);
    }
  }

  lemma PassSizesOrdered(pw: nat, ph: nat, bpp: nat)
    ensures (Area(bpp, Area(pw, ph)) + 7) / 8 <= Area(LineBytes(pw, bpp), ph) <= Area(LineBytes(pw, bpp) + 1, ph)
    ensures Area(bpp, Area(pw, ph)) <= Area(8 * LineBytes(pw, bpp), ph)
  {
    var line := LineBytes(pw, bpp);
    Bits.MulLe(pw * bpp, 8 * line, ph);
    Regroup(bpp, pw, ph);
    Eightfold(line, ph);
    AreaNext(line, ph);
  }

  lemma Regroup(a: nat, b: nat, c: nat)
    ensures a * (b * c) == (b * a) * c
  {}

  lemma Eightfold(a: nat, b: nat)
    ensures (8 * a) * b == 8 * (a * b)
  {}

  /** The size the decoder predicts for interlaced data before inflating it. */
  function ExpectedSize(w: nat, h: nat, bpp: nat): nat {
    RawSizeIdat((w + 7) / 8, (h + 7) / 8, bpp)
    + (if w > 4 then RawSizeIdat((w + 3) / 8, (h + 7) / 8, bpp) else 0)
    + RawSizeIdat((w + 3) / 4, (h + 3) / 8, bpp)
    + (if w > 2 then RawSizeIdat((w + 1) / 4, (h + 3) / 4, bpp) else 0)
    + RawSizeIdat((w + 1) / 2, (h + 1) / 4, bpp)
    + (if w > 1 then RawSizeIdat(w / 2, (h + 1) / 2, bpp) else 0)
    + RawSizeIdat(w, h / 2, bpp)
  }

  /** It is the size the encoder writes. */
  lemma PredictedSize(w: nat, h: nat, bpp: nat)
    requires w > 0 && h > 0
    ensures ExpectedSize(w, h, bpp) == FilterStart(w, h, bpp, 7)
  {
    hide *;
    StartsAtZero(w, h, bpp);
    ExpectedByPasses(w, h, bpp);
    PredictedPass(w, h, bpp, 0);
    PredictedPass(w, h, bpp, 1);
    PredictedPass(w, h, bpp, 2);
    PredictedPass(w, h, bpp, 3);
    PredictedPass(w, h, bpp, 4);
    PredictedPass(w, h, bpp, 5);
    PredictedPass(w, h, bpp, 6);
  }

  /** Bytes of pass `i` with its filter bytes. */
  ghost function PassSize(w: nat, h: nat, bpp: nat, i: nat): nat
    requires i < 7
  {
    if PassWidth(w, i) == 0 then 0 else RawSizeIdat(PassWidth(w, i), PassHeight(h, i), bpp)
  }

  lemma ExpectedByPasses(w: nat, h: nat, bpp: nat)
    requires w > 0 && h > 0
    ensures ExpectedSize(w, h, bpp)
         == PassSize(w, h, bpp, 0) + PassSize(w, h, bpp, 1) + PassSize(w, h, bpp, 2) + PassSize(w, h, bpp, 3)
          + PassSize(w, h, bpp, 4) + PassSize(w, h, bpp, 5) + PassSize(w, h, bpp, 6)
  {
    hide RawSizeIdat, PassWidth, PassHeight, PassSize;
    Pass0Size(w, h, bpp);
    Pass1Size(w, h, bpp);
    Pass2Size(w, h, bpp);
    Pass3Size(w, h, bpp);
    Pass4Size(w, h, bpp);
    Pass5Size(w, h, bpp);
    Pass6Size(w, h, bpp);
  }

  lemma Pass0Size(w: nat, h: nat, bpp: nat)
    requires w > 0
    ensures PassSize(w, h, bpp, 0) == RawSizeIdat((w + 7) / 8, (h + 7) / 8, bpp)
  {
    hide RawSizeIdat;
  }

  lemma Pass1Size(w: nat, h: nat, bpp: nat)
    ensures PassSize(w, h, bpp, 1) == if w > 4 then RawSizeIdat((w + 3) / 8, (h + 7) / 8, bpp) else 0
  {
    hide RawSizeIdat;
  }

  lemma Pass2Size(w: nat, h: nat, bpp: nat)
    requires w > 0
    ensures PassSize(w, h, bpp, 2) == RawSizeIdat((w + 3) / 4, (h + 3) / 8, bpp)
  {
    hide RawSizeIdat;
  }

  lemma Pass3Size(w: nat, h: nat, bpp: nat)
    ensures PassSize(w, h, bpp, 3) == if w > 2 then RawSizeIdat((w + 1) / 4, (h + 3) / 4, bpp) else 0
  {
    hide RawSizeIdat;
  }

  lemma Pass4Size(w: nat, h: nat, bpp: nat)
    requires w > 0
    ensures PassSize(w, h, bpp, 4) == RawSizeIdat((w + 1) / 2, (h + 1) / 4, bpp)
  {
    hide RawSizeIdat;
  }

  lemma Pass5Size(w: nat, h: nat, bpp: nat)
    ensures PassSize(w, h, bpp, 5) == if w > 1 then RawSizeIdat(w / 2, (h + 1) / 2, bpp) else 0
  {
    hide RawSizeIdat;
  }

  lemma Pass6Size(w: nat, h: nat, bpp: nat)
    requires w > 0
    ensures PassSize(w, h, bpp, 6) == RawSizeIdat(w, h / 2, bpp)
  {
    hide RawSizeIdat;
  }

  lemma PredictedPass(w: nat, h: nat, bpp: nat, i: nat)
    requires i < 7 && w > 0 && h > 0
    ensures FilterStart(w, h, bpp, i + 1)
         == FilterStart(w, h, bpp, i) + PassSize(w, h, bpp, i)
  {
    hide PassWidth, PassHeight;
    RawSizeIsLineBytes(PassWidth(w, i), PassHeight(h, i), bpp);
    AreaNext(LineBytes(PassW(w, h, i), bpp) + 1, 0);
    AreaNext(LineBytes(PassWidth(w, i), bpp) + 1, 0);
  }

  ghost predicate AreFilterStarts(s: seq<nat>, w: nat, h: nat, bpp: nat) {
    |s| <= 8 && forall i | 0 <= i < |s| :: s[i] == FilterStart(w, h, bpp, i)
  }

  ghost predicate ArePaddedStarts(s: seq<nat>, w: nat, h: nat, bpp: nat) {
    |s| <= 8 && forall i | 0 <= i < |s| :: s[i] == PaddedStart(w, h, bpp, i)
  }

  ghost predicate ArePassStarts(s: seq<nat>, w: nat, h: nat, bpp: nat) {
    |s| <= 8 && forall i | 0 <= i < |s| :: s[i] == PassStart(w, h, bpp, i)
  }

  /** `Adam7_getpassvalues` */
  method GetPassValues(w: nat, h: nat, bpp: nat)
    returns (passw: seq<nat>, passh: seq<nat>, filterStart: seq<nat>, paddedStart: seq<nat>, passStart: seq<nat>)
    ensures |passw| == |passh| == 7 && |filterStart| == |paddedStart| == |passStart| == 8
    ensures forall i | 0 <= i < 7 :: passw[i] == PassW(w, h, i) && passh[i] == PassH(w, h, i)
    ensures AreFilterStarts(filterStart, w, h, bpp) && ArePaddedStarts(paddedStart, w, h, bpp)
    ensures ArePassStarts(passStart, w, h, bpp)
  {
    hide LineBytes, PassW, PassH, Area, FilterStart, PaddedStart, PassStart, PassWidth, PassHeight;
    passw, passh := GetPassSizes(w, h);
    StartsAtZero(w, h, bpp);
    filterStart, paddedStart, passStart := [0], [0], [0];
    for i := 0 to 7
      invariant |filterStart| == |paddedStart| == |passStart| == i + 1
      invariant AreFilterStarts(filterStart, w, h, bpp) && ArePaddedStarts(paddedStart, w, h, bpp)
      invariant ArePassStarts(passStart, w, h, bpp)
    {
      var filtered, padded, packed := PassSizesInBytes(passw[i], passh[i], bpp);
      NextStarts(w, h, bpp, i);
      filterStart := filterStart + [filterStart[i] + filtered];
      paddedStart := paddedStart + [paddedStart[i] + padded];
      passStart := passStart + [passStart[i] + packed];
    }
  }

  lemma StartsAtZero(w: nat, h: nat, bpp: nat)
    ensures FilterStart(w, h, bpp, 0) == PaddedStart(w, h, bpp, 0) == PassStart(w, h, bpp, 0) == 0
  {}

  lemma NextStarts(w: nat, h: nat, bpp: nat, i: nat)
    requires i < 7
    ensures FilterStart(w, h, bpp, i + 1) == FilterStart(w, h, bpp, i)
          + Area(LineBytes(PassW(w, h, i), bpp) + 1, PassH(w, h, i))
    ensures PaddedStart(w, h, bpp, i + 1) == PaddedStart(w, h, bpp, i)
          + Area(LineBytes(PassW(w, h, i), bpp), PassH(w, h, i))
    ensures PassStart(w, h, bpp, i + 1) == PassStart(w, h, bpp, i)
          + (Area(bpp, Area(PassW(w, h, i), PassH(w, h, i))) + 7) / 8
  {
    hide Area, LineBytes, PassW, PassH;
  }

  method PassSizesInBytes(pw: nat, ph: nat, bpp: nat) returns (filtered: nat, padded: nat, packed: nat)
    ensures filtered == Area(LineBytes(pw, bpp) + 1, ph) || (pw == 0 && ph != 0)
    ensures pw == 0 && ph != 0 ==> filtered == 0
    ensures padded == Area(LineBytes(pw, bpp), ph) && packed == (Area(bpp, Area(pw, ph)) + 7) / 8
  {
    PassValues(pw, ph, bpp);
    filtered := if pw != 0 && ph != 0 then ph * (1 + LineBytes(pw, bpp)) else 0;
    padded := ph * LineBytes(pw, bpp);
    packed := (ph * pw * bpp + 7) / 8;
  }

  method GetPassSizes(w: nat, h: nat) returns (passw: seq<nat>, passh: seq<nat>)
    ensures |passw| == |passh| == 7
    ensures forall i | 0 <= i < 7 :: passw[i] == PassW(w, h, i) && passh[i] == PassH(w, h, i)
    ensures forall i | 0 <= i < 7 && passw[i] == 0 :: passh[i] == 0
  {
    hide LineBytes, PassWidth, PassHeight;
    passw, passh := [], [];
    for i := 0 to 7
      invariant |passw| == |passh| == i
      invariant forall j | 0 <= j < i :: passw[j] == PassW(w, h, j) && passh[j] == PassH(w, h, j)
    {
      var pw, ph := PassWidth(w, i), PassHeight(h, i);
      if pw == 0 { ph := 0; }
      if ph == 0 { pw := 0; }
      passw, passh := passw + [pw], passh + [ph];
    }
  }

  lemma PassValues(pw: nat, ph: nat, bpp: nat)
    ensures ph * (1 + LineBytes(pw, bpp)) == Area(LineBytes(pw, bpp) + 1, ph)
    ensures ph * LineBytes(pw, bpp) == Area(LineBytes(pw, bpp), ph)
    ensures ph == 0 ==> Area(LineBytes(pw, bpp) + 1, ph) == 0
    ensures ph * pw * bpp == Area(bpp, Area(pw, ph)) >= 0
  {
    hide LineBytes;
    Regroup(bpp, pw, ph);
    Regroup(ph, pw, bpp);
  }

  // ---------------------------------------------------------------- pixels

  /** Place of a pixel in row order. */
  function Flat(width: nat, x: nat, y: nat): nat {
    Area(width, y) + x
  }

  lemma FlatBound(width: nat, height: nat, x: nat, y: nat)
    requires x < width && y < height
    ensures Flat(width, x, y) < Area(width, height)
  {
    AreaNext(width, y);
    AreaOrder(width, y + 1, height);
  }

  lemma FlatInverse(width: nat, x: nat, y: nat)
    requires x < width
    ensures Flat(width, x, y) / width == y && Flat(width, x, y) % width == x
  {
    Bits.DivModUnique(Flat(width, x, y), width, y, x);
  }

  lemma FlatOfQuotient(width: nat, height: nat, p: nat)
    requires p < Area(width, height)
    ensures width > 0 && p % width < width && p / width < height && Flat(width, p % width, p / width) == p
  {
    var q := p / width;
    if q >= height { Bits.MulLe(height, q, width); }
  }

  /** The `k` items of pixel number `p`. */
  ghost function Pixel<T>(items: seq<T>, k: nat, p: nat): (s: seq<T>)
    requires Area(k, p + 1) <= |items|
    ensures |s| == k
  {
    AreaNext(k, p);
    items[Area(k, p)..Area(k, p) + k]
  }

  /** Where pixel number `n` of pass `i` lies in the image. */
  ghost function Source(w: nat, h: nat, i: nat, n: nat): (p: nat)
    requires i < 7 && n < PassCount(w, h, i)
    ensures p < Area(w, h)
  {
    var pw := PassW(w, h, i);
    FlatOfQuotient(pw, PassH(w, h, i), n);
    PlaceInImage(i, n % pw, w);
    PlaceInImage(i, n / pw, h);
    FlatBound(w, h, IX(i) + n % pw * DX(i), IY(i) + n / pw * DY(i));
    Flat(w, IX(i) + n % pw * DX(i), IY(i) + n / pw * DY(i))
  }

  /** The first `n` pixels of pass `i`. */
  ghost function PassItems<T>(items: seq<T>, w: nat, h: nat, k: nat, i: nat, n: nat): (r: seq<T>)
    requires i < 7 && n <= PassCount(w, h, i) && Area(k, Area(w, h)) <= |items|
    ensures |r| == Area(k, n)
  {
    AreaNext(k, 0);
    if n == 0 then []
    else
      AreaNext(k, n - 1);
      AreaOrder(k, Source(w, h, i, n - 1) + 1, Area(w, h));
      PassItems(items, w, h, k, i, n - 1) + Pixel(items, k, Source(w, h, i, n - 1))
  }

  lemma {:induction false} PassItemsAt<T>(items: seq<T>, w: nat, h: nat, k: nat, i: nat, n: nat, m: nat)
    requires i < 7 && m < n <= PassCount(w, h, i) && Area(k, Area(w, h)) <= |items|
    ensures Area(k, m + 1) <= Area(k, n) && Area(k, Source(w, h, i, m) + 1) <= |items|
    ensures Pixel(PassItems(items, w, h, k, i, n), k, m) == Pixel(items, k, Source(w, h, i, m))
  {
    hide Area, Source;
    AreaNext(k, m);
    AreaNext(k, n - 1);
    AreaOrder(k, m + 1, n);
    AreaOrder(k, Source(w, h, i, m) + 1, Area(w, h));
    var front := PassItems(items, w, h, k, i, n - 1);
    if m < n - 1 {
      PassItemsAt(items, w, h, k, i, n - 1, m);
      assert PassItems(items, w, h, k, i, n)[Area(k, m)..Area(k, m) + k] == front[Area(k, m)..Area(k, m) + k];
    }
  }

  /** Number of the pass and place in it of a pixel of the image. */
  ghost function PlaceInPass(w: nat, h: nat, x: nat, y: nat): (n: nat)
    requires x < w && y < h
    ensures n < PassCount(w, h, PassOf(x, y)) && Source(w, h, PassOf(x, y), n) == Flat(w, x, y)
  {
    var i := PassOf(x, y);
    PixelInPass(x, y, w, h);
    FlatBound(PassW(w, h, i), PassH(w, h, i), x / DX(i), y / DY(i));
    FlatInverse(PassW(w, h, i), x / DX(i), y / DY(i));
    Flat(PassW(w, h, i), x / DX(i), y / DY(i))
  }

  /** `content` holds every pass of the image, pass `i` from `starts[i]` on. */
  ghost predicate Interlaced<T>(content: seq<T>, items: seq<T>, w: nat, h: nat, k: nat, starts: seq<nat>, passes: nat)
    requires passes <= 7 == |starts|
  {
    Area(k, Area(w, h)) <= |items|
    && forall i | 0 <= i < passes :: HoldsPass(content, items, w, h, k, starts[i], i)
  }

  ghost predicate HoldsPass<T>(content: seq<T>, items: seq<T>, w: nat, h: nat, k: nat, start: nat, i: nat)
    requires i < 7 && Area(k, Area(w, h)) <= |items|
  {
    && start + Area(k, PassCount(w, h, i)) <= |content|
    && content[start..start + Area(k, PassCount(w, h, i))] == PassItems(items, w, h, k, i, PassCount(w, h, i))
  }

  /** Every pixel of `out` comes from its place in its pass. */
  ghost predicate Deinterlaced<T>(out: seq<T>, content: seq<T>, w: nat, h: nat, k: nat, starts: seq<nat>)
    requires |starts| == 7
  {
    && Area(k, Area(w, h)) <= |out| && (forall i | 0 <= i < 7 :: starts[i] + Area(k, PassCount(w, h, i)) <= |content|)
    && forall x, y | 0 <= x < w && 0 <= y < h :: PixelRestored(out, content, w, h, k, starts[PassOf(x, y)], x, y)
  }

  ghost predicate PixelRestored<T>(out: seq<T>, content: seq<T>, w: nat, h: nat, k: nat, start: nat, x: nat, y: nat)
    requires x < w && y < h
  {
    && Area(k, Flat(w, x, y) + 1) <= |out| && start + Area(k, PlaceInPass(w, h, x, y)) + k <= |content|
    && Pixel(out, k, Flat(w, x, y))
       == content[start + Area(k, PlaceInPass(w, h, x, y))..start + Area(k, PlaceInPass(w, h, x, y)) + k]
  }

  /** Deinterlacing undoes interlacing. */
  lemma InterlaceRoundTrip<T>(items: seq<T>, content: seq<T>, out: seq<T>, w: nat, h: nat, k: nat, starts: seq<nat>)
    requires |starts| == 7 && Interlaced(content, items, w, h, k, starts, 7)
    requires Deinterlaced(out, content, w, h, k, starts)
    ensures out[..Area(k, Area(w, h))] == items[..Area(k, Area(w, h))]
  {
    forall p: nat | p < Area(w, h) ensures SamePixel(out, items, k, p) {
      FlatOfQuotient(w, h, p);
      var x, y := p % w, p / w;
      OnePixelBack(items, content, out, w, h, k, starts, x, y);
    }
    SamePixels(out, items, k, Area(w, h));
  }

  lemma OnePixelBack<T>(items: seq<T>, content: seq<T>, out: seq<T>, w: nat, h: nat, k: nat, starts: seq<nat>, x: nat,
                        y: nat)
    requires |starts| == 7 && Interlaced(content, items, w, h, k, starts, 7)
    requires Deinterlaced(out, content, w, h, k, starts)
    requires x < w && y < h
    ensures Area(k, Flat(w, x, y) + 1) <= |out| && Area(k, Flat(w, x, y) + 1) <= |items|
    ensures Pixel(out, k, Flat(w, x, y)) == Pixel(items, k, Flat(w, x, y))
  {
    hide Area, PassItems, Source, PassCount, PassOf, PlaceInPass;
    var i, m := PassOf(x, y), PlaceInPass(w, h, x, y);
    var n := PassCount(w, h, i);
    assert HoldsPass(content, items, w, h, k, starts[i], i);
    assert PixelRestored(out, content, w, h, k, starts[i], x, y);
    PassItemsAt(items, w, h, k, i, n, m);
    AreaNext(k, m);
    SliceAgain(content, starts[i], Area(k, n), Area(k, m), k);
  }

  lemma SliceAgain<T>(s: seq<T>, start: nat, n: nat, m: nat, k: nat)
    requires start + n <= |s| && m + k <= n
    ensures s[start..start + n][m..m + k] == s[start + m..start + m + k]
  {
    var all := s[start..start + n];
    var part, here := all[m..m + k], s[start + m..start + m + k];
    forall i | 0 <= i < k ensures part[i] == here[i] {
      assert all[m + i] == s[start + (m + i)];
    }
  }

  ghost predicate SamePixel<T>(s: seq<T>, t: seq<T>, k: nat, p: nat) {
    Area(k, p + 1) <= |s| && Area(k, p + 1) <= |t| && Pixel(s, k, p) == Pixel(t, k, p)
  }

  /** Sequences that agree on every pixel agree. */
  lemma {:induction false} SamePixels<T>(s: seq<T>, t: seq<T>, k: nat, n: nat)
    requires forall p: nat | p < n :: SamePixel(s, t, k, p)
    ensures Area(k, n) <= |s| && Area(k, n) <= |t| && s[..Area(k, n)] == t[..Area(k, n)]
  {
    hide Area;
    AreaNext(k, 0);
    if n > 0 {
      SamePixels(s, t, k, n - 1);
      AreaNext(k, n - 1);
      var m := Area(k, n - 1);
      assert SamePixel(s, t, k, n - 1);
      assert s[..m + k] == s[..m] + s[m..m + k] && t[..m + k] == t[..m] + t[m..m + k];
    }
  }
}
