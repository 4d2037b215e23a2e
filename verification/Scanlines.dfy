/** `preProcessScanlines` and `postProcessScanlines`: between the plain image and the filtered, padded,
    possibly interlaced scanlines of a PNG file. */
module Scanlines {
  import opened Wrappers
  import opened Bits
  import opened Buffers
  import opened ImageRows
  import opened Adam7
  import opened Interlace

  // ---------------------------------------------------------------- bits and bytes

  lemma PlacedBits(was: seq<byte>, at: nat, r: seq<byte>)
    requires at + |r| <= |was|
    ensures PixelBits(Placed(was, at, r)) == Placed(PixelBits(was), 8 * at, PixelBits(r))
  {
    hide PixelBits, Placed, BitAt;
    var all := Placed(was, at, r);
    forall i | 0 <= i < 8 * |was| ensures PixelBits(all)[i] == Placed(PixelBits(was), 8 * at, PixelBits(r))[i] {
      PixelBitAt(all, i);
      PixelBitAt(was, i);
      PlacedAt(was, at, r, i / 8);
      PlacedAt(PixelBits(was), 8 * at, PixelBits(r), i);
      if 8 * at <= i < 8 * at + 8 * |r| {
        PixelBitAt(r, i - 8 * at);
      }
    }
  }

  lemma PlacedAt<T>(was: seq<T>, at: nat, r: seq<T>, i: nat)
    requires at + |r| <= |was| && i < |was|
    ensures Placed(was, at, r)[i] == if at <= i < at + |r| then r[i - at] else was[i]
  {}

  lemma PixelBitsOfSlice(data: seq<byte>, at: nat, n: nat)
    requires at + n <= |data|
    ensures PixelBits(data[at..at + n]) == PixelBits(data)[8 * at..8 * at + 8 * n]
  {
    hide PixelBits;
    var part := data[at..at + n];
    forall i | 0 <= i < 8 * n ensures PixelBits(part)[i] == PixelBits(data)[8 * at..8 * at + 8 * n][i] {
      PixelBitAt(part, i);
      PixelBitAt(data, 8 * at + i);
    }
  }

  /** Rows that fill their bytes need no gathering. */
  lemma {:induction false} GatheredAll(bits: seq<bool>, start: nat, take: nat, n: nat)
    requires start + Area(take, n) <= |bits|
    ensures Gathered(bits, start, take, take, n) == bits[start..start + Area(take, n)]
  {
    hide Area;
    AreaNext(take, 0);
    if n > 0 {
      AreaNext(take, n - 1);
      GatheredAll(bits, start, take, n - 1);
      Longer(bits, start, Area(take, n - 1), take);
    }
  }

  lemma {:induction false} SpreadAll(bits: seq<bool>, start: nat, take: nat, n: nat)
    requires start + Area(take, n) <= |bits|
    ensures Spread(bits, start, take, take, n) == bits[start..start + Area(take, n)]
  {
    hide Area;
    AreaNext(take, 0);
    if n > 0 {
      AreaNext(take, n - 1);
      SpreadAll(bits, start, take, n - 1);
      Longer(bits, start, Area(take, n - 1), take);
      assert bits[start + Area(take, n - 1)..start + Area(take, n - 1) + take] + Zeros(0)
          == bits[start + Area(take, n - 1)..start + Area(take, n - 1) + take];
    }
  }

  lemma LineFits(w: nat, bpp: nat)
    ensures w * bpp <= 8 * LineBytes(w, bpp)
    ensures bpp % 8 == 0 ==> LineBytes(w, bpp) == Area(bpp / 8, w) && 8 * LineBytes(w, bpp) == w * bpp
  {
    if bpp % 8 == 0 {
      var k := bpp / 8;
      assert bpp == 8 * k;
      assert w * bpp == 8 * (w * k);
    }
  }

  lemma ImageBits(w: nat, h: nat, bpp: nat)
    ensures Area(w * bpp, h) == Area(bpp, Area(w, h)) >= 0
    ensures bpp % 8 == 0 ==> Area(LineBytes(w, bpp), h) == Area(bpp / 8, Area(w, h))
  {
    Regroup(bpp, w, h);
    LineFits(w, bpp);
    if bpp % 8 == 0 { Regroup(bpp / 8, w, h); }
  }

  // ---------------------------------------------------------------- one (reduced) image

  /** The rows of an image of `w` by `h` pixels, unfiltered; nothing if some row names an unknown filter. */
  ghost function Rows(data: seq<byte>, w: nat, h: nat, bpp: nat): (r: Option<seq<byte>>)
    requires Area(LineBytes(w, bpp) + 1, h) <= |data| && bpp > 0
    ensures r.Some? ==> |r.value| == Area(LineBytes(w, bpp), h)
  {
    UnfilteredImage(data, LineBytes(w, bpp), (bpp + 7) / 8, h)
  }

  /** The pixels in those rows, without padding. */
  ghost function PackedBits(rows: seq<byte>, w: nat, h: nat, bpp: nat): (bits: seq<bool>)
    requires Area(LineBytes(w, bpp), h) <= |rows|
    ensures |bits| == Area(w * bpp, h)
  {
    LineFits(w, bpp);
    RowBits(w, h, bpp);
    Gathered(PixelBits(rows), 0, w * bpp, 8 * LineBytes(w, bpp), h)
  }

  lemma RowBits(w: nat, h: nat, bpp: nat)
    ensures Area(8 * LineBytes(w, bpp), h) == 8 * Area(LineBytes(w, bpp), h)
  {
    Eightfold(LineBytes(w, bpp), h);
  }

  /** `data` is what PNG stores for the pixels `bits`: rows filled up to bytes, each filtered by one of
      the five types. */
  ghost predicate StoresBits(data: seq<byte>, bits: seq<bool>, w: nat, h: nat, bpp: nat) {
    exists rows, types ::
      StoredAs(data, rows, types, w, h, bpp) && |bits| == Area(w * bpp, h) && w * bpp <= 8 * LineBytes(w, bpp)
      && PixelBits(rows) == Spread(bits, 0, w * bpp, 8 * LineBytes(w, bpp), h)
  }

  ghost predicate StoresBytes(data: seq<byte>, bytes: seq<byte>, w: nat, h: nat, bpp: nat) {
    exists types :: StoredAs(data, bytes, types, w, h, bpp)
  }

  ghost predicate StoredAs(data: seq<byte>, rows: seq<byte>, types: seq<nat>, w: nat, h: nat, bpp: nat) {
    && bpp > 0 && |types| == h && ValidTypes(types) && |rows| == Area(LineBytes(w, bpp), h)
    && data == FilteredImage(rows, LineBytes(w, bpp), (bpp + 7) / 8, types, h)
  }

  /** What is stored is what is read. */
  lemma StoredRows(data: seq<byte>, rows: seq<byte>, types: seq<nat>, w: nat, h: nat, bpp: nat)
    requires StoredAs(data, rows, types, w, h, bpp)
    ensures |data| == Area(LineBytes(w, bpp) + 1, h) && Rows(data, w, h, bpp) == Some(rows)
  {
    hide Area, FilteredImage, UnfilteredImage;
    ImageRoundTrip(rows, LineBytes(w, bpp), (bpp + 7) / 8, types, h, data);
    assert rows[..|rows|] == rows;
  }

  lemma StoredBits(data: seq<byte>, bits: seq<bool>, w: nat, h: nat, bpp: nat)
    requires StoresBits(data, bits, w, h, bpp) && bpp > 0
    ensures |data| == Area(LineBytes(w, bpp) + 1, h) && Rows(data, w, h, bpp).Some?
    ensures PackedBits(Rows(data, w, h, bpp).value, w, h, bpp) == bits
  {
    hide Area, PixelBits;
    var rows, types :| StoredAs(data, rows, types, w, h, bpp) && |bits| == Area(w * bpp, h)
        && w * bpp <= 8 * LineBytes(w, bpp)
                       && PixelBits(rows) == Spread(bits, 0, w * bpp, 8 * LineBytes(w, bpp), h);
    StoredRows(data, rows, types, w, h, bpp);
    RowBits(w, h, bpp);
    var padded := PixelBits(rows);
    assert padded[0..|padded|] == padded;
    PaddingRoundTrip(bits, 0, w * bpp, 8 * LineBytes(w, bpp), h, padded, 0);
    assert bits[0..|bits|] == bits;
  }

  lemma StoredBytes(data: seq<byte>, bytes: seq<byte>, w: nat, h: nat, bpp: nat)
    requires StoresBytes(data, bytes, w, h, bpp) && bpp > 0
    ensures |data| == Area(LineBytes(w, bpp) + 1, h) && Rows(data, w, h, bpp) == Some(bytes)
  {
    var types :| StoredAs(data, bytes, types, w, h, bpp);
    StoredRows(data, bytes, types, w, h, bpp);
  }

  // ---------------------------------------------------------------- the encoder's side

  lemma FilteredSize(w: nat, h: nat, bpp: nat)
    ensures Area(LineBytes(w, bpp) + 1, h) == h + Area(LineBytes(w, bpp), h)
  {
    AreaNext(LineBytes(w, bpp), h);
  }

  lemma PlacedAll<T>(was: seq<T>, r: seq<T>)
    requires |r| == |was|
    ensures Placed(was, 0, r) == r
  {}

  lemma StoresBitsBy(data: seq<byte>, bits: seq<bool>, rows: seq<byte>, types: seq<nat>, w: nat, h: nat, bpp: nat)
    requires StoredAs(data, rows, types, w, h, bpp) && |bits| == Area(w * bpp, h) && w * bpp <= 8 * LineBytes(w, bpp)
    requires PixelBits(rows) == Spread(bits, 0, w * bpp, 8 * LineBytes(w, bpp), h)
    ensures StoresBits(data, bits, w, h, bpp)
  {}

  lemma StoresBytesBy(data: seq<byte>, bytes: seq<byte>, types: seq<nat>, w: nat, h: nat, bpp: nat)
    requires StoredAs(data, bytes, types, w, h, bpp)
    ensures StoresBytes(data, bytes, w, h, bpp)
  {}

  /** One (reduced) image with pixels below a byte, from byte `from` of `data`: padded into a buffer of its own, then
      filtered. */
  method StorePadded(out: array<byte>, at: nat, data: array<byte>, from: nat, w: nat, h: nat, bpp: nat, types: seq<nat>)
    returns (ghost stored: seq<byte>)
    requires out != data && LegalBpp(bpp) && (w > 0 || h == 0) && |types| == h && ValidTypes(types)
    requires at + Area(LineBytes(w, bpp) + 1, h) <= out.Length && 8 * from + Area(w * bpp, h) <= 8 * data.Length
    modifies out
    ensures |stored| == Area(LineBytes(w, bpp) + 1, h) && out[..] == Placed(old(out[..]), at, stored)
    ensures StoresBits(stored, old(PixelBits(data[..])[8 * from..8 * from + Area(w * bpp, h)]), w, h, bpp)
  {
    hide Area, PixelBits, FilteredImage, Placed, LineBytes, ValidTypes, LegalBpp, StoresBits;
    ghost var src := PixelBits(data[..]);
    ghost var bits := src[8 * from..8 * from + Area(w * bpp, h)];
    LineFits(w, bpp);
    RowBits(w, h, bpp);
    var padded := MakePadded(data, from, w, h, bpp, bits);
    ghost var rows := padded[..];
    FilterImage(out, at, padded, 0, w, h, bpp, types);
    assert padded[0..0 + Area(LineBytes(w, bpp), h)] == rows;
    assert bpp > 0 by { LegalPositive(bpp); }
    stored := FilteredImage(rows, LineBytes(w, bpp), (bpp + 7) / 8, types, h);
    StoresBitsBy(stored, bits, rows, types, w, h, bpp);
  }

  lemma LegalPositive(bpp: nat)
    requires LegalBpp(bpp)
    ensures bpp > 0 && (bpp >= 8 ==> bpp % 8 == 0)
  {}

  method MakePadded(data: array<byte>, from: nat, w: nat, h: nat, bpp: nat, ghost bits: seq<bool>)
    returns (padded: array<byte>)
    requires w * bpp <= 8 * LineBytes(w, bpp) && Area(8 * LineBytes(w, bpp), h) == 8 * Area(LineBytes(w, bpp), h)
    requires 8 * from + Area(w * bpp, h) <= 8 * data.Length
    requires bits == PixelBits(data[..])[8 * from..8 * from + Area(w * bpp, h)]
    ensures fresh(padded) && padded.Length == Area(LineBytes(w, bpp), h)
    ensures PixelBits(padded[..]) == Spread(bits, 0, w * bpp, 8 * LineBytes(w, bpp), h)
  {
    hide Area, PixelBits, LineBytes, Placed;
    padded := new byte[Area(LineBytes(w, bpp), h)];
    ghost var was := PixelBits(padded[..]);
    AddPaddingBits(padded, data, from, 8 * LineBytes(w, bpp), w * bpp, h);
    PlacedAll(was, Spread(PixelBits(data[..]), 8 * from, w * bpp, 8 * LineBytes(w, bpp), h));
    SpreadShift(PixelBits(data[..]), 8 * from, w * bpp, 8 * LineBytes(w, bpp), h);
  }

  /** Padding a slice. */
  lemma {:induction false} SpreadShift(bits: seq<bool>, start: nat, take: nat, fill: nat, n: nat)
    requires take <= fill && start + Area(take, n) <= |bits|
    ensures Spread(bits, start, take, fill, n) == Spread(bits[start..start + Area(take, n)], 0, take, fill, n)
  {
    SpreadOfSlice(bits, start, bits[start..start + Area(take, n)], take, fill, n);
  }

  lemma {:induction false} SpreadOfSlice(bits: seq<bool>, start: nat, part: seq<bool>, take: nat, fill: nat, n: nat)
    requires take <= fill && Area(take, n) <= |part| && start + |part| <= |bits| && part == bits[start..start + |part|]
    ensures Spread(bits, start, take, fill, n) == Spread(part, 0, take, fill, n)
  {
    hide Area;
    AreaNext(take, 0);
    if n > 0 {
      AreaNext(take, n - 1);
      SpreadOfSlice(bits, start, part, take, fill, n - 1);
      SliceAgain(bits, start, |part|, Area(take, n - 1), take);
    }
  }

  /** One (reduced) image of whole-byte pixels, filtered straight from the buffer. */
  method StoreBytes(out: array<byte>, at: nat, data: array<byte>, from: nat, w: nat, h: nat, bpp: nat, types: seq<nat>)
    returns (ghost stored: seq<byte>)
    requires out != data && LegalBpp(bpp) && (w > 0 || h == 0) && |types| == h && ValidTypes(types)
    requires at + Area(LineBytes(w, bpp) + 1, h) <= out.Length && from + Area(LineBytes(w, bpp), h) <= data.Length
    modifies out
    ensures |stored| == Area(LineBytes(w, bpp) + 1, h) && out[..] == Placed(old(out[..]), at, stored)
    ensures StoredAs(stored, old(data[from..from + Area(LineBytes(w, bpp), h)]), types, w, h, bpp)
  {
    hide Area, FilteredImage, Placed, LineBytes;
    ghost var rows := data[from..from + Area(LineBytes(w, bpp), h)];
    FilterImage(out, at, data, from, w, h, bpp, types);
    assert data[from..from + Area(LineBytes(w, bpp), h)] == rows;
    stored := FilteredImage(rows, LineBytes(w, bpp), (bpp + 7) / 8, types, h);
  }

  /** What stands in the scanlines of a plain image. */
  ghost predicate StoresPlain(data: seq<byte>, image: seq<byte>, w: nat, h: nat, bpp: nat) {
    if bpp < 8 then Area(w * bpp, h) <= 8 * |image| && StoresBits(data, PixelBits(image)[..Area(w * bpp, h)], w, h, bpp)
    else Area(LineBytes(w, bpp), h) <= |image| && StoresBytes(data, image[..Area(LineBytes(w, bpp), h)], w, h, bpp)
  }

  /** `preProcessScanlines` without interlacing; row `y` is filtered by `types[y]`. */
  method PreProcessPlain(data: array<byte>, w: nat, h: nat, bpp: nat, types: seq<nat>) returns (out: array<byte>)
    requires LegalBpp(bpp) && w > 0 && |types| == h && ValidTypes(types) && Area(w * bpp, h) <= 8 * data.Length
    ensures fresh(out) && StoresPlain(out[..], data[..], w, h, bpp)
  {
    hide Area, PixelBits, FilteredImage, Placed, ValidTypes, StoresBits, StoresBytes, StoredAs, LegalBpp, LineBytes;
    FilteredSize(w, h, bpp);
    LegalPositive(bpp);
    LineFits(w, bpp);
    RowBits(w, h, bpp);
    out := new byte[h + Area(LineBytes(w, bpp), h)];
    ghost var was := out[..];
    ghost var stored;
    if bpp < 8 && w * bpp != 8 * LineBytes(w, bpp) {
      stored := StorePadded(out, 0, data, 0, w, h, bpp, types);
      assert PixelBits(data[..])[8 * 0..8 * 0 + Area(w * bpp, h)] == PixelBits(data[..])[..Area(w * bpp, h)];
    } else {
      assert 8 * Area(LineBytes(w, bpp), h) == Area(w * bpp, h);
      stored := StoreBytes(out, 0, data, 0, w, h, bpp, types);
      ghost var rows := data[..Area(LineBytes(w, bpp), h)];
      assert data[0..0 + Area(LineBytes(w, bpp), h)] == rows == data[..][..Area(LineBytes(w, bpp), h)];
      if bpp < 8 {
        FullRows(data[..], rows, w, h, bpp);
        StoresBitsBy(stored, PixelBits(data[..])[..Area(w * bpp, h)], rows, types, w, h, bpp);
      } else {
        StoresBytesBy(stored, rows, types, w, h, bpp);
      }
    }
    PlacedAll(was, stored);
  }

  /** Small pixels that fill their rows are stored like bytes. */
  lemma FullRows(image: seq<byte>, rows: seq<byte>, w: nat, h: nat, bpp: nat)
    requires w * bpp == 8 * LineBytes(w, bpp) && Area(LineBytes(w, bpp), h) <= |image|
    requires rows == image[..Area(LineBytes(w, bpp), h)]
    ensures Area(w * bpp, h) <= 8 * |image|
    ensures PixelBits(rows) == Spread(PixelBits(image)[..Area(w * bpp, h)], 0, w * bpp, 8 * LineBytes(w, bpp), h)
  {
    hide PixelBits, LineBytes;
    RowBits(w, h, bpp);
    hide Area;
    PixelBitsOfSlice(image, 0, |rows|);
    assert image[0..0 + |rows|] == rows;
    var bits := PixelBits(image)[..Area(w * bpp, h)];
    SpreadAll(bits, 0, w * bpp, h);
    assert bits[0..|bits|] == bits;
  }

  // ---------------------------------------------------------------- interlaced, encoder

  /** The stored scanlines of pass `i`. */
  ghost function PassData(data: seq<byte>, w: nat, h: nat, bpp: nat, i: nat): (s: seq<byte>)
    requires i < 7 && FilterStart(w, h, bpp, 7) <= |data|
    ensures |s| == Area(LineBytes(PassW(w, h, i), bpp) + 1, PassH(w, h, i))
  {
    FiltersInside(w, h, bpp, i + 1);
    data[FilterStart(w, h, bpp, i)..FilterStart(w, h, bpp, i + 1)]
  }

  lemma {:induction false} FiltersInside(w: nat, h: nat, bpp: nat, i: nat)
    requires i <= 7
    ensures FilterStart(w, h, bpp, i) <= FilterStart(w, h, bpp, 7)
    ensures PaddedStart(w, h, bpp, i) <= PaddedStart(w, h, bpp, 7)
    decreases 7 - i
  {
    if i < 7 { FiltersInside(w, h, bpp, i + 1); }
  }

  /** Pass `i` of the scanlines stores pass `i` of the image. */
  ghost predicate StoresPass(stored: seq<byte>, image: seq<byte>, w: nat, h: nat, bpp: nat, i: nat)
    requires i < 7
  {
    if bpp < 8 then
      && Area(bpp, Area(w, h)) <= 8 * |image|
      && StoresBits(stored, PassItems(PixelBits(image), w, h, bpp, i, PassCount(w, h, i)), PassW(w, h, i),
                    PassH(w, h, i), bpp)
    else
      && Area(bpp / 8, Area(w, h)) <= |image|
      && StoresBytes(stored, PassItems(image, w, h, bpp / 8, i, PassCount(w, h, i)), PassW(w, h, i), PassH(w, h, i),
                     bpp)
  }

  ghost predicate StoresPasses(data: seq<byte>, image: seq<byte>, w: nat, h: nat, bpp: nat, passes: nat)
    requires passes <= 7
  {
    FilterStart(w, h, bpp, 7) <= |data| && forall i | 0 <= i < passes ::
        StoresPass(PassData(data, w, h, bpp, i), image, w, h, bpp, i)
  }

  /** One more pass behind the others. */
  lemma StoreNext(data: seq<byte>, data': seq<byte>, stored: seq<byte>, image: seq<byte>, w: nat, h: nat, bpp: nat,
                  i: nat)
    requires i < 7 && StoresPasses(data, image, w, h, bpp, i) && StoresPass(stored, image, w, h, bpp, i)
    requires FilterStart(w, h, bpp, i) + |stored| == FilterStart(w, h, bpp, i + 1) <= |data|
    requires data' == Placed(data, FilterStart(w, h, bpp, i), stored)
    ensures StoresPasses(data', image, w, h, bpp, i + 1)
  {
    hide FilterStart, StoresPass, PassW, PassH, Placed, PassData;
    forall j | 0 <= j < i + 1 ensures StoresPass(PassData(data', w, h, bpp, j), image, w, h, bpp, j) {
      if j < i {
        EarlierPassKept(data, data', stored, w, h, bpp, i, j);
      } else {
        PassWritten(data, data', stored, w, h, bpp, i);
      }
    }
  }

  lemma EarlierPassKept(data: seq<byte>, data': seq<byte>, stored: seq<byte>, w: nat, h: nat, bpp: nat, i: nat, j: nat)
    requires j < i < 7 && FilterStart(w, h, bpp, 7) <= |data| && FilterStart(w, h, bpp, i) + |stored| <= |data|
    requires data' == Placed(data, FilterStart(w, h, bpp, i), stored)
    ensures PassData(data', w, h, bpp, j) == PassData(data, w, h, bpp, j)
  {
    FiltersApart(w, h, bpp, j + 1, i);
    FiltersApart(w, h, bpp, j, j + 1);
    hide FilterStart, PassW, PassH;
    var a, b := FilterStart(w, h, bpp, j), FilterStart(w, h, bpp, j + 1);
    PlacedKeeps(data, FilterStart(w, h, bpp, i), stored, a, b - a);
  }

  lemma PassWritten(data: seq<byte>, data': seq<byte>, stored: seq<byte>, w: nat, h: nat, bpp: nat, i: nat)
    requires i < 7 && FilterStart(w, h, bpp, 7) <= |data|
    requires FilterStart(w, h, bpp, i) + |stored| == FilterStart(w, h, bpp, i + 1) <= |data|
    requires data' == Placed(data, FilterStart(w, h, bpp, i), stored)
    ensures PassData(data', w, h, bpp, i) == stored
  {
    hide FilterStart, PassW, PassH;
    var a := FilterStart(w, h, bpp, i);
    assert data'[a..a + |stored|] == stored;
  }

  lemma {:induction false} FiltersApart(w: nat, h: nat, bpp: nat, j: nat, i: nat)
    requires j <= i <= 7
    ensures FilterStart(w, h, bpp, j) <= FilterStart(w, h, bpp, i)
    ensures PaddedStart(w, h, bpp, j) <= PaddedStart(w, h, bpp, i)
  {
    if j < i { FiltersApart(w, h, bpp, j, i - 1); }
  }

  /** Whole-byte passes lie where their padded rows would. */
  lemma {:induction false} NoPaddingStarts(w: nat, h: nat, bpp: nat, i: nat)
    requires i <= 7 && bpp % 8 == 0
    ensures PassStart(w, h, bpp, i) == PaddedStart(w, h, bpp, i)
  {
    if i > 0 {
      NoPaddingStarts(w, h, bpp, i - 1);
      hide PassW, PassH;
      var pw, ph := PassW(w, h, i - 1), PassH(w, h, i - 1);
      ImageBits(pw, ph, bpp);
      Eightfold(bpp / 8, Area(pw, ph));
      assert Area(bpp, Area(pw, ph)) == 8 * Area(bpp / 8, Area(pw, ph));
    }
  }

  /** Filter types for every row of a pass. */
  function RowTypes(choice: (nat, nat) -> nat, i: nat, ph: nat): (types: seq<nat>)
    ensures |types| == ph && forall y | 0 <= y < ph :: types[y] == choice(i, y)
  {
    seq(ph, y requires 0 <= y < ph => choice(i, y))
  }

  lemma PassEmpty(w: nat, h: nat, i: nat)
    requires i < 7
    ensures PassW(w, h, i) > 0 || PassH(w, h, i) == 0
  {}

  /** `preProcessScanlines` with interlacing; row `y` of pass `i` is filtered by `choice(i, y)`. */
  method PreProcessInterlaced(data: array<byte>, w: nat, h: nat, bpp: nat, choice: (nat, nat) -> nat)
    returns (out: array<byte>)
    requires LegalBpp(bpp) && Area(bpp, Area(w, h)) <= 8 * data.Length && (forall i, y :: choice(i, y) <= 4)
    ensures fresh(out) && out.Length == FilterStart(w, h, bpp, 7) && StoresPasses(out[..], data[..], w, h, bpp, 7)
  {
    hide Area, PixelBits, Placed, StoresPass, LegalBpp, PassW, PassH, FilterStart, PassStart, PaddedStart, Interlaced,
        LineBytes;
    var passw, passh, filterStart, paddedStart, passStart := GetPassValues(w, h, bpp);
    out := new byte[filterStart[7]];
    var adam7 := new byte[passStart[7]];
    Adam7Interlace(adam7, data, w, h, bpp);
    StoresNone(out[..], data[..], w, h, bpp);
    for i := 0 to 7
      invariant fresh(out) && out != adam7 && StoresPasses(out[..], data[..], w, h, bpp, i)
      invariant bpp < 8 ==> Interlaced(PixelBits(adam7[..]), PixelBits(data[..]), w, h, bpp,
                                       PassStarts(w, h, bpp, true), 7)
      invariant bpp >= 8 ==> Interlaced(adam7[..], data[..], w, h, bpp / 8, PassStarts(w, h, bpp, false), 7)
    {
      var types := RowTypes(choice, i, passh[i]);
      PassEmpty(w, h, i);
      FilterNext(w, h, bpp, i);
      FiltersInside(w, h, bpp, i + 1);
      ghost var before, stored := out[..], [];
      if bpp < 8 {
        stored := StorePassBits(out, adam7, data, w, h, bpp, i, passw[i], passh[i], filterStart[i], passStart[i],
                                types);
      } else {
        stored := StorePassBytes(out, adam7, data, w, h, bpp, i, passw[i], passh[i], filterStart[i], paddedStart[i],
                                 types);
      }
      StoreNext(before, out[..], stored, data[..], w, h, bpp, i);
    }
  }

  lemma StoresNone(data: seq<byte>, image: seq<byte>, w: nat, h: nat, bpp: nat)
    requires FilterStart(w, h, bpp, 7) <= |data|
    ensures StoresPasses(data, image, w, h, bpp, 0)
  {}

  lemma FilterNext(w: nat, h: nat, bpp: nat, i: nat)
    requires i < 7
    ensures FilterStart(w, h, bpp, i + 1) == FilterStart(w, h, bpp, i)
          + Area(LineBytes(PassW(w, h, i), bpp) + 1, PassH(w, h, i))
    ensures PaddedStart(w, h, bpp, i + 1) == PaddedStart(w, h, bpp, i)
          + Area(LineBytes(PassW(w, h, i), bpp), PassH(w, h, i))
  {}

  method StorePassBits(out: array<byte>, adam7: array<byte>, data: array<byte>, w: nat, h: nat, bpp: nat, i: nat,
                       pw: nat, ph: nat, filterStart: nat, passStart: nat, types: seq<nat>)
    returns (ghost stored: seq<byte>)
    requires out != adam7 && out != data && i < 7 && LegalBpp(bpp) && bpp < 8 && pw == PassW(w, h, i)
    requires ph == PassH(w, h, i)
    requires filterStart == FilterStart(w, h, bpp, i) && passStart == PassStart(w, h, bpp, i)
    requires FilterStart(w, h, bpp, i) + Area(LineBytes(PassW(w, h, i), bpp) + 1, PassH(w, h, i)) <= out.Length
    requires Interlaced(PixelBits(adam7[..]), PixelBits(data[..]), w, h, bpp, PassStarts(w, h, bpp, true), 7)
    requires (pw > 0 || ph == 0) && |types| == ph && ValidTypes(types)
    modifies out
    ensures |stored| == Area(LineBytes(PassW(w, h, i), bpp) + 1, PassH(w, h, i))
    ensures out[..] == Placed(old(out[..]), filterStart, stored) && StoresPass(stored, data[..], w, h, bpp, i)
  {
    hide Area, PixelBits, Placed, PassW, PassH, PassStart, FilterStart, LineBytes, PassItems;
    ghost var content := PixelBits(adam7[..]);
    assert HoldsPass(content, PixelBits(data[..]), w, h, bpp, PassStarts(w, h, bpp, true)[i], i);
    ImageBits(pw, ph, bpp);
    stored := StorePadded(out, filterStart, adam7, passStart, pw, ph, bpp, types);
  }

  method StorePassBytes(out: array<byte>, adam7: array<byte>, data: array<byte>, w: nat, h: nat, bpp: nat, i: nat,
                        pw: nat, ph: nat, filterStart: nat, paddedStart: nat, types: seq<nat>)
    returns (ghost stored: seq<byte>)
    requires out != adam7 && out != data && i < 7 && LegalBpp(bpp) && bpp >= 8 && pw == PassW(w, h, i)
    requires ph == PassH(w, h, i)
    requires filterStart == FilterStart(w, h, bpp, i) && paddedStart == PaddedStart(w, h, bpp, i)
    requires FilterStart(w, h, bpp, i) + Area(LineBytes(PassW(w, h, i), bpp) + 1, PassH(w, h, i)) <= out.Length
    requires Interlaced(adam7[..], data[..], w, h, bpp / 8, PassStarts(w, h, bpp, false), 7)
    requires (pw > 0 || ph == 0) && |types| == ph && ValidTypes(types)
    modifies out
    ensures |stored| == Area(LineBytes(PassW(w, h, i), bpp) + 1, PassH(w, h, i))
    ensures out[..] == Placed(old(out[..]), filterStart, stored) && StoresPass(stored, data[..], w, h, bpp, i)
  {
    hide Area, Placed, PassW, PassH, PassStart, PaddedStart, FilterStart, LineBytes, PassItems, StoredAs, StoresBytes;
    LegalPositive(bpp);
    NoPaddingStarts(w, h, bpp, i);
    ImageBits(pw, ph, bpp);
    ghost var content, rows := adam7[..], PassItems(data[..], w, h, bpp / 8, i, PassCount(w, h, i));
    assert HoldsPass(content, data[..], w, h, bpp / 8, PassStarts(w, h, bpp, false)[i], i);
    assert adam7[paddedStart..paddedStart + Area(LineBytes(pw, bpp), ph)] == rows;
    stored := StoreBytes(out, filterStart, adam7, paddedStart, pw, ph, bpp, types);
    StoresBytesBy(stored, rows, types, pw, ph, bpp);
  }

  // ---------------------------------------------------------------- the decoder's side

  lemma PlacedFront<T>(was: seq<T>, r: seq<T>)
    requires |r| <= |was|
    ensures Placed(was, 0, r)[..|r|] == r
  {}

  /** `postProcessScanlines` without interlacing: error 36 exactly for an unknown filter type, else the pixels of the
      rows. */
  method PostProcessPlain(out: array<byte>, data: array<byte>, w: nat, h: nat, bpp: nat) returns (error: nat)
    requires out != data && LegalBpp(bpp) && w > 0 && Area(w * bpp, h) <= 8 * out.Length
    requires data.Length == Area(LineBytes(w, bpp) + 1, h)
    modifies out, data
    ensures match old(Rows(data[..], w, h, bpp))
            case None => error == 36
            case Some(rows) =>
              && error == 0
              && (bpp < 8 ==> PixelBits(out[..])[..Area(w * bpp, h)] == PackedBits(rows, w, h, bpp))
              && (bpp >= 8 ==> Area(LineBytes(w, bpp), h) <= out.Length && out[..Area(LineBytes(w, bpp), h)] == rows)
  {
    hide Area, PixelBits, UnfilteredImage, Placed, LegalBpp, LineBytes;
    FilteredSize(w, h, bpp);
    LegalPositive(bpp);
    LineFits(w, bpp);
    RowBits(w, h, bpp);
    ghost var all, was := data[..], out[..];
    assert data[0..0 + Area(LineBytes(w, bpp) + 1, h)] == all;
    if bpp < 8 && w * bpp != 8 * LineBytes(w, bpp) {
      error := UnfilterImage(data, 0, data, 0, w, h, bpp);
      if error != 0 { return; }
      ghost var rows, mid := Rows(all, w, h, bpp).value, data[..];
      PlacedFront(all, rows);
      RemovePaddingBits(out, 0, data, 0, w * bpp, 8 * LineBytes(w, bpp), h);
      GatheredPrefix(mid, rows, w * bpp, 8 * LineBytes(w, bpp), h);
      PlacedFront(PixelBits(was), PackedBits(rows, w, h, bpp));
    } else {
      error := UnfilterImage(out, 0, data, 0, w, h, bpp);
      if error != 0 { return; }
      ghost var rows := Rows(all, w, h, bpp).value;
      PlacedFront(was, rows);
      assert out[..][..|rows|] == out[..|rows|];
      if bpp < 8 {
        PixelBitsOfSlice(out[..], 0, |rows|);
        assert out[..][0..0 + |rows|] == rows;
        GatheredAll(PixelBits(rows), 0, w * bpp, h);
        assert PixelBits(rows)[0..0 + Area(w * bpp, h)] == PixelBits(rows);
        assert PixelBits(out[..])[8 * 0..8 * 0 + 8 * |rows|] == PixelBits(out[..])[..Area(w * bpp, h)];
      }
    }
  }

  /** Only the rows matter to gathering. */
  lemma GatheredPrefix(data: seq<byte>, rows: seq<byte>, take: nat, skip: nat, n: nat)
    requires take <= skip && |rows| <= |data| && data[..|rows|] == rows && Area(skip, n) == 8 * |rows|
    ensures Gathered(PixelBits(data), 0, take, skip, n) == Gathered(PixelBits(rows), 0, take, skip, n)
  {
    hide PixelBits, Area, Gathered;
    PixelBitsOfSlice(data, 0, |rows|);
    assert data[0..0 + |rows|] == rows;
    GatheredOfSlice(PixelBits(data), 0, PixelBits(rows), take, skip, n);
  }

  lemma {:induction false} GatheredOfSlice(bits: seq<bool>, start: nat, part: seq<bool>, take: nat, skip: nat, n: nat)
    requires take <= skip && Area(skip, n) <= |part| && start + |part| <= |bits| && part == bits[start..start + |part|]
    ensures Gathered(bits, start, take, skip, n) == Gathered(part, 0, take, skip, n)
  {
    hide Area;
    AreaNext(skip, 0);
    if n > 0 {
      AreaNext(skip, n - 1);
      GatheredOfSlice(bits, start, part, take, skip, n - 1);
      SliceAgain(bits, start, |part|, Area(skip, n - 1), take);
    }
  }

  /** Reading what was stored gives back every bit of every pixel, whatever filters were chosen. */
  lemma PlainRoundTrip(data: seq<byte>, image: seq<byte>, out: seq<byte>, w: nat, h: nat, bpp: nat)
    requires LegalBpp(bpp) && StoresPlain(data, image, w, h, bpp) && |data| == Area(LineBytes(w, bpp) + 1, h)
    requires Rows(data, w, h, bpp).Some? ==>
               && Area(w * bpp, h) <= 8 * |out|
               && (bpp < 8 ==> PixelBits(out)[..Area(w * bpp, h)] == PackedBits(Rows(data, w, h, bpp).value, w, h, bpp))
               && (bpp >= 8 ==>
                     && Area(LineBytes(w, bpp), h) <= |out|
                     && out[..Area(LineBytes(w, bpp), h)] == Rows(data, w, h, bpp).value)
    ensures Rows(data, w, h, bpp).Some? && Area(w * bpp, h) <= 8 * |out| && Area(w * bpp, h) <= 8 * |image|
    ensures PixelBits(out)[..Area(w * bpp, h)] == PixelBits(image)[..Area(w * bpp, h)]
  {
    hide Area, PixelBits, LineBytes, PackedBits, Rows;
    LegalPositive(bpp);
    if bpp < 8 {
      StoredBits(data, PixelBits(image)[..Area(w * bpp, h)], w, h, bpp);
    } else {
      var n := Area(LineBytes(w, bpp), h);
      StoredBytes(data, image[..n], w, h, bpp);
      LineFits(w, bpp);
      RowBits(w, h, bpp);
      SameBytesSameBits(out, image, n);
    }
  }

  // ---------------------------------------------------------------- interlaced, decoder

  /** The rows of pass `i`. */
  ghost function PassRows(data: seq<byte>, w: nat, h: nat, bpp: nat, i: nat): (r: Option<seq<byte>>)
    requires i < 7 && FilterStart(w, h, bpp, 7) <= |data| && bpp > 0
    ensures r.Some? ==> |r.value| == Area(LineBytes(PassW(w, h, i), bpp), PassH(w, h, i))
  {
    Rows(PassData(data, w, h, bpp, i), PassW(w, h, i), PassH(w, h, i), bpp)
  }

  ghost predicate AllRows(data: seq<byte>, w: nat, h: nat, bpp: nat, passes: nat)
    requires passes <= 7 && FilterStart(w, h, bpp, 7) <= |data| && bpp > 0
  {
    forall i | 0 <= i < passes :: PassRows(data, w, h, bpp, i).Some?
  }

  /** The pixels of pass `i`. */
  ghost function PassPixels(data: seq<byte>, w: nat, h: nat, bpp: nat, i: nat): (bits: seq<bool>)
    requires i < 7 && FilterStart(w, h, bpp, 7) <= |data| && bpp > 0 && PassRows(data, w, h, bpp, i).Some?
    ensures |bits| == PassBits(w, h, bpp, i)
  {
    ImageBits(PassW(w, h, i), PassH(w, h, i), bpp);
    PackedBits(PassRows(data, w, h, bpp, i).value, PassW(w, h, i), PassH(w, h, i), bpp)
  }

  /** The part of the buffer that has not been read yet. */
  ghost predicate TailKept(now: seq<byte>, was: seq<byte>, from: nat) {
    |now| == |was| && from <= |was| && now[from..] == was[from..]
  }

  /** The passes already packed, by bits. */
  ghost predicate PackedPasses(now: seq<byte>, was: seq<byte>, w: nat, h: nat, bpp: nat, passes: nat)
    requires passes <= 7 && FilterStart(w, h, bpp, 7) <= |was| && bpp > 0 && AllRows(was, w, h, bpp, passes)
  {
    forall i | 0 <= i < passes :: HasPiece(PixelBits(now), 8 * PassStart(w, h, bpp, i), PassPixels(was, w, h, bpp, i))
  }

  ghost predicate HasPiece<T>(content: seq<T>, start: nat, piece: seq<T>) {
    start + |piece| <= |content| && content[start..start + |piece|] == piece
  }

  lemma PieceKept<T>(content: seq<T>, start: nat, piece: seq<T>, at: nat, r: seq<T>)
    requires HasPiece(content, start, piece) && start + |piece| <= at && at + |r| <= |content|
    ensures HasPiece(Placed(content, at, r), start, piece)
  {
    PlacedKeeps(content, at, r, start, |piece|);
  }

  lemma PieceWritten<T>(content: seq<T>, at: nat, r: seq<T>)
    requires at + |r| <= |content|
    ensures HasPiece(Placed(content, at, r), at, r)
  {}

  lemma TailAfterPlaced(now: seq<byte>, was: seq<byte>, from: nat, at: nat, r: seq<byte>, from': nat)
    requires TailKept(now, was, from) && at + |r| <= from' && from <= from' <= |was|
    ensures TailKept(Placed(now, at, r), was, from')
  {
    var now' := Placed(now, at, r);
    forall i | from' <= i < |was| ensures now'[i] == was[i] {
      assert now[i] == now[from..][i - from] == was[from..][i - from];
    }
    assert now'[from'..] == was[from'..];
  }

  /** Bits written before a byte boundary leave the bytes behind it alone. */
  lemma TailAfterBits(now: seq<byte>, now': seq<byte>, was: seq<byte>, from: nat, at: nat, r: seq<bool>)
    requires TailKept(now, was, from) && |now'| == |now| && at + |r| <= 8 * from
    requires PixelBits(now') == Placed(PixelBits(now), at, r)
    ensures TailKept(now', was, from)
  {
    hide PixelBits;
    var n := |now| - from;
    PixelBitsOfSlice(now, from, n);
    PixelBitsOfSlice(now', from, n);
    assert now[from..from + n] == now[from..] && now'[from..from + n] == now'[from..];
    assert PixelBits(now')[8 * from..8 * from + 8 * n] == PixelBits(now)[8 * from..8 * from + 8 * n];
    SameBitsSameBytes(now'[from..], now[from..]);
  }

  /** Where pass `i` and the next one lie in all three layouts. */
  lemma PassLayout(w: nat, h: nat, bpp: nat, i: nat)
    requires i < 7
    ensures PassStart(w, h, bpp, i) <= PaddedStart(w, h, bpp, i) <= FilterStart(w, h, bpp, i)
          <= FilterStart(w, h, bpp, i + 1)
    ensures PassStart(w, h, bpp, i + 1) <= PaddedStart(w, h, bpp, i + 1) <= FilterStart(w, h, bpp, i + 1)
          <= FilterStart(w, h, bpp, 7)
    ensures 8 * PassStart(w, h, bpp, i) + PassBits(w, h, bpp, i) <= 8 * PassStart(w, h, bpp, i + 1)
    ensures forall j | 0 <= j < i :: 8 * PassStart(w, h, bpp, j) + PassBits(w, h, bpp, j) <= 8 * PassStart(w, h, bpp, i)
  {
    hide *;
    StartsOrdered(w, h, bpp, i);
    StartsOrdered(w, h, bpp, i + 1);
    FiltersApart(w, h, bpp, i, i + 1);
    FiltersInside(w, h, bpp, i + 1);
    forall j | 0 <= j <= i ensures 8 * PassStart(w, h, bpp, j) + PassBits(w, h, bpp, j)
        <= 8 * PassStart(w, h, bpp, if j < i then i else i + 1) {
      PassEndsBits(w, h, bpp, if j < i then i else i + 1, j);
    }
  }

  lemma PassEndsBits(w: nat, h: nat, bpp: nat, i: nat, j: nat)
    requires j < i <= 7
    ensures 8 * PassStart(w, h, bpp, j) + PassBits(w, h, bpp, j) <= 8 * PassStart(w, h, bpp, i)
  {
    hide PassStart;
    PassEnds(w, h, bpp, i, j);
  }

  /** Unfilters pass `i` towards the front of the buffer. */
  method UnfilterPass(data: array<byte>, w: nat, h: nat, bpp: nat, i: nat, pw: nat, ph: nat, paddedStart: nat,
                      filterStart: nat, ghost was: seq<byte>)
    returns (error: nat)
    requires i < 7 && LegalBpp(bpp) && bpp > 0 && pw == PassW(w, h, i) && ph == PassH(w, h, i)
    requires paddedStart == PaddedStart(w, h, bpp, i) && filterStart == FilterStart(w, h, bpp, i)
    requires FilterStart(w, h, bpp, 7) <= |was| && TailKept(data[..], was, FilterStart(w, h, bpp, i))
    modifies data
    ensures match PassRows(was, w, h, bpp, i)
            case None => error == 36
            case Some(rows) =>
              && error == 0 && paddedStart + |rows| == PaddedStart(w, h, bpp, i + 1) <= |was| == data.Length
              && data[..] == Placed(old(data[..]), paddedStart, rows)
  {
    hide Area, UnfilteredImage, Placed, LegalBpp, LineBytes, FilterStart, PaddedStart, PassStart, PassW, PassH,
        PassBits;
    PassLayout(w, h, bpp, i);
    FilterNext(w, h, bpp, i);
    PassEmpty(w, h, i);
    ghost var n := Area(LineBytes(pw, bpp) + 1, ph);
    assert data[filterStart..filterStart + n] == PassData(was, w, h, bpp, i) by {
      assert data[..][filterStart..][..n] == was[filterStart..][..n];
      assert data[filterStart..filterStart + n] == data[..][filterStart..][..n];
      assert was[filterStart..filterStart + n] == was[filterStart..][..n];
    }
    error := UnfilterImage(data, paddedStart, data, filterStart, pw, ph, bpp);
  }

  /** Unfilters and packs pass `i` of small pixels. */
  method UnpackPass(data: array<byte>, w: nat, h: nat, bpp: nat, i: nat, pw: nat, ph: nat, passStart: nat,
                    paddedStart: nat, filterStart: nat, ghost was: seq<byte>)
    returns (error: nat)
    requires i < 7 && LegalBpp(bpp) && bpp > 0 && pw == PassW(w, h, i) && ph == PassH(w, h, i)
    requires passStart == PassStart(w, h, bpp, i) && paddedStart == PaddedStart(w, h, bpp, i)
    requires filterStart == FilterStart(w, h, bpp, i)
    requires FilterStart(w, h, bpp, 7) <= |was| && TailKept(data[..], was, FilterStart(w, h, bpp, i))
    requires AllRows(was, w, h, bpp, i) && PackedPasses(data[..], was, w, h, bpp, i)
    modifies data
    ensures if AllRows(was, w, h, bpp, i + 1)
            then error == 0 && TailKept(data[..], was, FilterStart(w, h, bpp, i + 1))
                && PackedPasses(data[..], was, w, h, bpp, i + 1)
            else error == 36
  {
    hide Area, PixelBits, Placed, LegalBpp, LineBytes, FilterStart, PaddedStart, PassStart, PassW, PassH, PassRows,
        HasPiece, TailKept;
    ghost var before := data[..];
    error := UnfilterPass(data, w, h, bpp, i, pw, ph, paddedStart, filterStart, was);
    if error != 0 { return; }
    ghost var rows, mid := PassRows(was, w, h, bpp, i).value, data[..];
    PassLayout(w, h, bpp, i);
    ImageBits(pw, ph, bpp);
    LineFits(pw, bpp);
    RowBits(pw, ph, bpp);
    PiecesAfterUnfilter(before, mid, was, w, h, bpp, i, rows);
    RemovePaddingBits(data, passStart, data, paddedStart, pw * bpp, 8 * LineBytes(pw, bpp), ph);
    GatheredPlaced(before, mid, paddedStart, rows, pw * bpp, 8 * LineBytes(pw, bpp), ph);
    PiecesAfterPacking(mid, data[..], was, w, h, bpp, i);
  }

  /** Gathering from rows that were just written. */
  lemma GatheredPlaced(before: seq<byte>, mid: seq<byte>, at: nat, rows: seq<byte>, take: nat, skip: nat, n: nat)
    requires take <= skip && at + |rows| <= |before| && mid == Placed(before, at, rows) && Area(skip, n) == 8 * |rows|
    ensures Gathered(PixelBits(mid), 8 * at, take, skip, n) == Gathered(PixelBits(rows), 0, take, skip, n)
  {
    hide PixelBits, Area, Gathered;
    PixelBitsOfSlice(mid, at, |rows|);
    assert mid[at..at + |rows|] == rows;
    GatheredOfSlice(PixelBits(mid), 8 * at, PixelBits(rows), take, skip, n);
  }

  lemma PiecesAfterUnfilter(before: seq<byte>, mid: seq<byte>, was: seq<byte>, w: nat, h: nat, bpp: nat, i: nat,
                            rows: seq<byte>)
    requires i < 7 && bpp > 0 && FilterStart(w, h, bpp, 7) <= |was| && TailKept(before, was, FilterStart(w, h, bpp, i))
    requires AllRows(was, w, h, bpp, i) && PackedPasses(before, was, w, h, bpp, i)
    requires PaddedStart(w, h, bpp, i) + |rows| == PaddedStart(w, h, bpp, i + 1) <= |before|
    requires mid == Placed(before, PaddedStart(w, h, bpp, i), rows)
    ensures TailKept(mid, was, FilterStart(w, h, bpp, i + 1)) && PackedPasses(mid, was, w, h, bpp, i)
  {
    hide PixelBits, Placed, FilterStart, PaddedStart, PassStart, PassBits, PassRows, HasPiece, TailKept;
    var at := PaddedStart(w, h, bpp, i);
    PassLayout(w, h, bpp, i);
    TailAfterPlaced(before, was, FilterStart(w, h, bpp, i), at, rows, FilterStart(w, h, bpp, i + 1));
    PlacedBits(before, at, rows);
    forall j | 0 <= j < i ensures HasPiece(PixelBits(mid), 8 * PassStart(w, h, bpp, j), PassPixels(was, w, h, bpp, j)) {
      PieceKept(PixelBits(before), 8 * PassStart(w, h, bpp, j), PassPixels(was, w, h, bpp, j), 8 * at, PixelBits(rows));
    }
  }

  lemma PiecesAfterPacking(mid: seq<byte>, now: seq<byte>, was: seq<byte>, w: nat, h: nat, bpp: nat, i: nat)
    requires i < 7 && bpp > 0 && FilterStart(w, h, bpp, 7) <= |was| && TailKept(mid, was, FilterStart(w, h, bpp, i + 1))
    requires AllRows(was, w, h, bpp, i) && PackedPasses(mid, was, w, h, bpp, i) && PassRows(was, w, h, bpp, i).Some?
    requires |now| == |mid| && 8 * PassStart(w, h, bpp, i) + PassBits(w, h, bpp, i) <= 8 * |mid|
    requires PixelBits(now) == Placed(PixelBits(mid), 8 * PassStart(w, h, bpp, i), PassPixels(was, w, h, bpp, i))
    ensures AllRows(was, w, h, bpp, i + 1)
    ensures TailKept(now, was, FilterStart(w, h, bpp, i + 1)) && PackedPasses(now, was, w, h, bpp, i + 1)
  {
    hide PixelBits, Placed, FilterStart, PaddedStart, PassStart, PassBits, PassRows, HasPiece, TailKept;
    var at, piece := 8 * PassStart(w, h, bpp, i), PassPixels(was, w, h, bpp, i);
    PassLayout(w, h, bpp, i);
    TailAfterBits(mid, now, was, FilterStart(w, h, bpp, i + 1), at, piece);
    forall j | 0 <= j < i + 1 ensures HasPiece(PixelBits(now), 8 * PassStart(w, h, bpp, j),
                                               PassPixels(was, w, h, bpp, j)) {
      if j < i {
        PieceKept(PixelBits(mid), 8 * PassStart(w, h, bpp, j), PassPixels(was, w, h, bpp, j), at, piece);
      } else {
        PieceWritten(PixelBits(mid), at, piece);
      }
    }
  }

  /** The passes already unfiltered, for whole-byte pixels. */
  ghost predicate RowPasses(now: seq<byte>, was: seq<byte>, w: nat, h: nat, bpp: nat, passes: nat)
    requires passes <= 7 && FilterStart(w, h, bpp, 7) <= |was| && bpp > 0 && AllRows(was, w, h, bpp, passes)
  {
    forall i | 0 <= i < passes :: HasPiece(now, PaddedStart(w, h, bpp, i), PassRows(was, w, h, bpp, i).value)
  }

  lemma RowsAfterUnfilter(before: seq<byte>, now: seq<byte>, was: seq<byte>, w: nat, h: nat, bpp: nat, i: nat)
    requires i < 7 && bpp > 0 && FilterStart(w, h, bpp, 7) <= |was| && TailKept(before, was, FilterStart(w, h, bpp, i))
    requires AllRows(was, w, h, bpp, i) && RowPasses(before, was, w, h, bpp, i) && PassRows(was, w, h, bpp, i).Some?
    requires PaddedStart(w, h, bpp, i) + |PassRows(was, w, h, bpp, i).value| == PaddedStart(w, h, bpp, i + 1)
          <= |before|
    requires now == Placed(before, PaddedStart(w, h, bpp, i), PassRows(was, w, h, bpp, i).value)
    ensures AllRows(was, w, h, bpp, i + 1)
    ensures TailKept(now, was, FilterStart(w, h, bpp, i + 1)) && RowPasses(now, was, w, h, bpp, i + 1)
  {
    hide Placed, FilterStart, PaddedStart, PassStart, PassBits, PassRows, HasPiece, TailKept, PassW, PassH, Area,
        LineBytes;
    var at, rows := PaddedStart(w, h, bpp, i), PassRows(was, w, h, bpp, i).value;
    PassLayout(w, h, bpp, i);
    TailAfterPlaced(before, was, FilterStart(w, h, bpp, i), at, rows, FilterStart(w, h, bpp, i + 1));
    forall j | 0 <= j < i + 1 ensures HasPiece(now, PaddedStart(w, h, bpp, j), PassRows(was, w, h, bpp, j).value) {
      if j < i {
        FilterNext(w, h, bpp, j);
        FiltersApart(w, h, bpp, j + 1, i);
        PieceKept(before, PaddedStart(w, h, bpp, j), PassRows(was, w, h, bpp, j).value, at, rows);
      } else {
        PieceWritten(before, at, rows);
      }
    }
  }

  /** Every pixel of `out` is the pixel its pass holds for it. */
  ghost predicate FromPasses(out: seq<byte>, data: seq<byte>, w: nat, h: nat, bpp: nat)
    requires FilterStart(w, h, bpp, 7) <= |data| && bpp > 0 && AllRows(data, w, h, bpp, 7)
  {
    forall x, y | 0 <= x < w && 0 <= y < h :: PixelFromPass(out, data, w, h, bpp, x, y)
  }

  ghost predicate PixelFromPass(out: seq<byte>, data: seq<byte>, w: nat, h: nat, bpp: nat, x: nat, y: nat)
    requires FilterStart(w, h, bpp, 7) <= |data| && bpp > 0 && AllRows(data, w, h, bpp, 7) && x < w && y < h
  {
    var i, p, n := PassOf(x, y), Flat(w, x, y), PlaceInPass(w, h, x, y);
    if bpp < 8 then
      && Area(bpp, p + 1) <= 8 * |out| && Area(bpp, n + 1) <= PassBits(w, h, bpp, i)
      && Pixel(PixelBits(out), bpp, p) == Pixel(PassPixels(data, w, h, bpp, i), bpp, n)
    else
      && Area(bpp / 8, p + 1) <= |out| && Area(bpp / 8, n + 1) <= |PassRows(data, w, h, bpp, i).value|
      && Pixel(out, bpp / 8, p) == Pixel(PassRows(data, w, h, bpp, i).value, bpp / 8, n)
  }

  /** `postProcessScanlines` with interlacing, in the buffer it is given: error 36 exactly when some row of some pass
      carries an unknown filter type, else every pixel is found in its place. */
  method PostProcessInterlaced(out: array<byte>, data: array<byte>, w: nat, h: nat, bpp: nat) returns (error: nat)
    requires out != data && LegalBpp(bpp) && bpp > 0 && Area(bpp, Area(w, h)) <= 8 * out.Length
    requires data.Length == FilterStart(w, h, bpp, 7)
    modifies out, data
    ensures if old(AllRows(data[..], w, h, bpp, 7)) then error == 0 && FromPasses(out[..], old(data[..]), w, h, bpp)
          else error == 36
  {
    hide Area, PixelBits, Placed, LegalBpp, LineBytes, FilterStart, PaddedStart, PassStart, PassW, PassH, PassBits,
        PassRows, PassPixels,
         HasPiece, TailKept, PackedPasses, RowPasses, FromPasses, Deinterlaced;
    ghost var was := data[..];
    var passw, passh, filterStart, paddedStart, passStart := GetPassValues(w, h, bpp);
    NoPiecesYet(was, w, h, bpp);
    error := 0;
    for i := 0 to 7
      invariant error == 0 && TailKept(data[..], was, FilterStart(w, h, bpp, i)) && AllRows(was, w, h, bpp, i)
      invariant bpp < 8 ==> PackedPasses(data[..], was, w, h, bpp, i)
      invariant bpp >= 8 ==> RowPasses(data[..], was, w, h, bpp, i)
    {
      if bpp < 8 {
        error := UnpackPass(data, w, h, bpp, i, passw[i], passh[i], passStart[i], paddedStart[i], filterStart[i], was);
        if error != 0 { return; }
      } else {
        ghost var before := data[..];
        error := UnfilterPass(data, w, h, bpp, i, passw[i], passh[i], paddedStart[i], filterStart[i], was);
        if error != 0 { return; }
        RowsAfterUnfilter(before, data[..], was, w, h, bpp, i);
      }
    }
    PassLayout(w, h, bpp, 6);
    Adam7Deinterlace(out, data, w, h, bpp);
    LegalPositive(bpp);
    if bpp < 8 {
      FromPackedPasses(out[..], data[..], was, w, h, bpp);
    } else {
      FromRowPasses(out[..], data[..], was, w, h, bpp);
    }
  }

  lemma NoPiecesYet(was: seq<byte>, w: nat, h: nat, bpp: nat)
    requires FilterStart(w, h, bpp, 7) <= |was| && bpp > 0
    ensures TailKept(was, was, FilterStart(w, h, bpp, 0)) && AllRows(was, w, h, bpp, 0)
    ensures PackedPasses(was, was, w, h, bpp, 0) && RowPasses(was, was, w, h, bpp, 0)
  {}

  lemma FromPackedPasses(out: seq<byte>, now: seq<byte>, was: seq<byte>, w: nat, h: nat, bpp: nat)
    requires 0 < bpp < 8 && FilterStart(w, h, bpp, 7) <= |was| && AllRows(was, w, h, bpp, 7)
    requires PackedPasses(now, was, w, h, bpp, 7)
    requires Deinterlaced(PixelBits(out), PixelBits(now), w, h, bpp, PassStarts(w, h, bpp, true))
    ensures FromPasses(out, was, w, h, bpp)
  {
    hide Area, PixelBits, FilterStart, PassStart, PassRows, PassPixels, PassOf, PlaceInPass, Flat, PassCount;
    forall x, y | 0 <= x < w && 0 <= y < h ensures PixelFromPass(out, was, w, h, bpp, x, y) {
      var i, n := PassOf(x, y), PlaceInPass(w, h, x, y);
      var piece := PassPixels(was, w, h, bpp, i);
      assert PixelRestored(PixelBits(out), PixelBits(now), w, h, bpp, PassStarts(w, h, bpp, true)[i], x, y);
      assert HasPiece(PixelBits(now), 8 * PassStart(w, h, bpp, i), piece);
      AreaNext(bpp, n);
      AreaOrder(bpp, n + 1, PassCount(w, h, i));
      SliceAgain(PixelBits(now), 8 * PassStart(w, h, bpp, i), |piece|, Area(bpp, n), bpp);
    }
  }

  lemma FromRowPasses(out: seq<byte>, now: seq<byte>, was: seq<byte>, w: nat, h: nat, bpp: nat)
    requires bpp >= 8 && bpp % 8 == 0 && FilterStart(w, h, bpp, 7) <= |was| && AllRows(was, w, h, bpp, 7)
    requires RowPasses(now, was, w, h, bpp, 7) && Deinterlaced(out, now, w, h, bpp / 8, PassStarts(w, h, bpp, false))
    ensures FromPasses(out, was, w, h, bpp)
  {
    hide Area, FilterStart, PassStart, PaddedStart, PassRows, PassOf, PlaceInPass, Flat, PassW, PassH, LineBytes;
    forall x, y | 0 <= x < w && 0 <= y < h ensures PixelFromPass(out, was, w, h, bpp, x, y) {
      var i, n, k := PassOf(x, y), PlaceInPass(w, h, x, y), bpp / 8;
      var rows := PassRows(was, w, h, bpp, i).value;
      NoPaddingStarts(w, h, bpp, i);
      ImageBits(PassW(w, h, i), PassH(w, h, i), bpp);
      assert PixelRestored(out, now, w, h, k, PassStarts(w, h, bpp, false)[i], x, y);
      assert HasPiece(now, PaddedStart(w, h, bpp, i), rows);
      AreaNext(k, n);
      AreaOrder(k, n + 1, PassCount(w, h, i));
      SliceAgain(now, PaddedStart(w, h, bpp, i), |rows|, Area(k, n), k);
    }
  }

  /** Reading what was stored gives back every bit of every pixel. */
  lemma InterlacedRoundTrip(data: seq<byte>, image: seq<byte>, out: seq<byte>, w: nat, h: nat, bpp: nat)
    requires LegalBpp(bpp) && bpp > 0 && Area(bpp, Area(w, h)) <= 8 * |image|
    requires FilterStart(w, h, bpp, 7) <= |data| && StoresPasses(data, image, w, h, bpp, 7)
    ensures AllRows(data, w, h, bpp, 7)
    ensures Area(bpp, Area(w, h)) <= 8 * |out| && FromPasses(out, data, w, h, bpp)
        ==> PixelBits(out)[..Area(bpp, Area(w, h))] == PixelBits(image)[..Area(bpp, Area(w, h))]
  {
    hide Area, PixelBits, FilterStart, LegalBpp, PassRows, PassPixels, FromPasses, PassData, StoresPass, PassBits;
    LegalPositive(bpp);
    forall i | 0 <= i < 7 ensures PassRows(data, w, h, bpp, i).Some? {
      assert StoresPass(PassData(data, w, h, bpp, i), image, w, h, bpp, i);
      StoredPass(data, image, w, h, bpp, i);
    }
    if Area(bpp, Area(w, h)) <= 8 * |out| && FromPasses(out, data, w, h, bpp) {
      if bpp < 8 {
        SameSmallPixels(data, image, out, w, h, bpp);
      } else {
        SameWholePixels(data, image, out, w, h, bpp);
      }
    }
  }

  lemma StoredPass(data: seq<byte>, image: seq<byte>, w: nat, h: nat, bpp: nat, i: nat)
    requires i < 7 && bpp > 0 && FilterStart(w, h, bpp, 7) <= |data|
    requires StoresPass(PassData(data, w, h, bpp, i), image, w, h, bpp, i)
    ensures PassRows(data, w, h, bpp, i).Some?
    ensures bpp < 8 ==> Area(bpp, Area(w, h)) <= 8 * |image|
                        && PassPixels(data, w, h, bpp, i) == PassItems(PixelBits(image), w, h, bpp, i,
                            PassCount(w, h, i))
    ensures bpp >= 8 ==> Area(bpp / 8, Area(w, h)) <= |image|
                         && PassRows(data, w, h, bpp, i).value == PassItems(image, w, h, bpp / 8, i, PassCount(w, h, i))
  {
    hide Area, PixelBits, FilterStart, PassItems, StoresBits, StoresBytes, PassW, PassH, PackedBits, Rows, LineBytes;
    var stored := PassData(data, w, h, bpp, i);
    if bpp < 8 {
      StoredBits(stored, PassItems(PixelBits(image), w, h, bpp, i, PassCount(w, h, i)), PassW(w, h, i), PassH(w, h, i),
                 bpp);
    } else {
      StoredBytes(stored, PassItems(image, w, h, bpp / 8, i, PassCount(w, h, i)), PassW(w, h, i), PassH(w, h, i), bpp);
    }
  }

  lemma SameSmallPixels(data: seq<byte>, image: seq<byte>, out: seq<byte>, w: nat, h: nat, bpp: nat)
    requires 0 < bpp < 8 && Area(bpp, Area(w, h)) <= 8 * |image| && Area(bpp, Area(w, h)) <= 8 * |out|
    requires FilterStart(w, h, bpp, 7) <= |data| && StoresPasses(data, image, w, h, bpp, 7)
    requires AllRows(data, w, h, bpp, 7)
    requires FromPasses(out, data, w, h, bpp)
    ensures PixelBits(out)[..Area(bpp, Area(w, h))] == PixelBits(image)[..Area(bpp, Area(w, h))]
  {
    hide Area, PixelBits, FilterStart, PassRows, PassPixels, PassData, StoresPass, PassBits, Flat, PassOf, PlaceInPass,
        PassItems, Adam7.Source, PassCount;
    forall p: nat | p < Area(w, h) ensures SamePixel(PixelBits(out), PixelBits(image), bpp, p) {
      FlatOfQuotient(w, h, p);
      var x, y := p % w, p / w;
      var i, n := PassOf(x, y), PlaceInPass(w, h, x, y);
      assert PixelFromPass(out, data, w, h, bpp, x, y);
      assert StoresPass(PassData(data, w, h, bpp, i), image, w, h, bpp, i);
      StoredPass(data, image, w, h, bpp, i);
      PassItemsAt(PixelBits(image), w, h, bpp, i, PassCount(w, h, i), n);
    }
    SamePixels(PixelBits(out), PixelBits(image), bpp, Area(w, h));
  }

  lemma SameWholePixels(data: seq<byte>, image: seq<byte>, out: seq<byte>, w: nat, h: nat, bpp: nat)
    requires bpp >= 8 && bpp % 8 == 0 && Area(bpp, Area(w, h)) <= 8 * |image| && Area(bpp, Area(w, h)) <= 8 * |out|
    requires FilterStart(w, h, bpp, 7) <= |data| && StoresPasses(data, image, w, h, bpp, 7)
    requires AllRows(data, w, h, bpp, 7)
    requires FromPasses(out, data, w, h, bpp)
    ensures PixelBits(out)[..Area(bpp, Area(w, h))] == PixelBits(image)[..Area(bpp, Area(w, h))]
  {
    var k, count := bpp / 8, Area(w, h);
    assert Area(bpp, count) == 8 * Area(k, count) by { Eightfold(k, count); }
    hide Area, PixelBits, FilterStart, PassRows, PassPixels, PassData, StoresPass, PassBits, Flat, PassOf, PlaceInPass,
        PassItems, Adam7.Source, PassCount;
    forall p: nat | p < count ensures SamePixel(out, image, k, p) {
      FlatOfQuotient(w, h, p);
      SameWholePixel(data, image, out, w, h, bpp, p % w, p / w);
    }
    SamePixels(out, image, k, count);
    SameBytesSameBits(out, image, Area(k, count));
  }

  lemma SameWholePixel(data: seq<byte>, image: seq<byte>, out: seq<byte>, w: nat, h: nat, bpp: nat, x: nat, y: nat)
    requires bpp >= 8 && bpp % 8 == 0 && x < w && y < h
    requires FilterStart(w, h, bpp, 7) <= |data| && StoresPasses(data, image, w, h, bpp, 7)
    requires AllRows(data, w, h, bpp, 7)
    requires FromPasses(out, data, w, h, bpp)
    ensures SamePixel(out, image, bpp / 8, Flat(w, x, y))
  {
    hide Area, PixelBits, FilterStart, PassRows, PassPixels, PassData, StoresPass, PassBits, Flat, PassOf, PlaceInPass,
        PassItems, Adam7.Source,
         PassCount;
    var i, n := PassOf(x, y), PlaceInPass(w, h, x, y);
    assert PixelFromPass(out, data, w, h, bpp, x, y);
    assert StoresPass(PassData(data, w, h, bpp, i), image, w, h, bpp, i);
    StoredPass(data, image, w, h, bpp, i);
    PassItemsAt(image, w, h, bpp / 8, i, PassCount(w, h, i), n);
  }

  lemma SameBytesSameBits(s: seq<byte>, t: seq<byte>, n: nat)
    requires n <= |s| && n <= |t| && s[..n] == t[..n]
    ensures PixelBits(s)[..8 * n] == PixelBits(t)[..8 * n]
  {
    hide PixelBits;
    PixelBitsOfSlice(s, 0, n);
    PixelBitsOfSlice(t, 0, n);
    assert s[0..0 + n] == s[..n] && t[0..0 + n] == t[..n];
    assert PixelBits(s)[8 * 0..8 * 0 + 8 * n] == PixelBits(s)[..8 * n];
    assert PixelBits(t)[8 * 0..8 * 0 + 8 * n] == PixelBits(t)[..8 * n];
  }
}
