/** `Adam7_interlace` and `Adam7_deinterlace`: whole bytes, or bits when pixels are smaller than a byte. */
module Interlace {
  import opened Bits
  import opened Buffers
  import ImageRows
  import opened Adam7

  // ---------------------------------------------------------------- one pixel at a time

  /** The address the source computes for pixel number `n` of pass `i`, in units of which a pixel has `k`. */
  lemma SourceAddress(w: nat, h: nat, k: nat, i: nat, x: nat, y: nat)
    requires i < 7 && x < PassW(w, h, i) && y < PassH(w, h, i)
    ensures Flat(PassW(w, h, i), x, y) < PassCount(w, h, i)
    ensures (IY(i) + y * DY(i)) * (k * w) + (IX(i) + x * DX(i)) * k
          == Area(k, Source(w, h, i, Flat(PassW(w, h, i), x, y)))
    ensures ((IY(i) + y * DY(i)) * w + IX(i) + x * DX(i)) * k == Area(k, Source(w, h, i, Flat(PassW(w, h, i), x, y)))
    ensures y * (k * PassW(w, h, i)) + x * k == Area(k, Flat(PassW(w, h, i), x, y)) == (y * PassW(w, h, i) + x) * k
  {
    hide DX, DY, IX, IY, PassW, PassH;
    var pw := PassW(w, h, i);
    FlatBound(pw, PassH(w, h, i), x, y);
    FlatInverse(pw, x, y);
    Address(k, w, IX(i) + x * DX(i), IY(i) + y * DY(i));
    Address(k, pw, x, y);
  }

  lemma Address(k: nat, w: nat, x: nat, y: nat)
    ensures y * (k * w) + x * k == k * (w * y + x) == (y * w + x) * k
  {}

  lemma PassNext<T>(items: seq<T>, w: nat, h: nat, k: nat, i: nat, n: nat)
    requires i < 7 && n < PassCount(w, h, i) && Area(k, Area(w, h)) <= |items|
    ensures Area(k, Source(w, h, i, n)) + k <= Area(k, Area(w, h)) && Area(k, n) + k <= Area(k, PassCount(w, h, i))
    ensures PassItems(items, w, h, k, i, n + 1)
         == PassItems(items, w, h, k, i, n) + items[Area(k, Source(w, h, i, n))..Area(k, Source(w, h, i, n)) + k]
  {
    hide Area, Source, PassCount;
    AreaNext(k, n);
    AreaNext(k, Source(w, h, i, n));
    AreaOrder(k, Source(w, h, i, n) + 1, Area(w, h));
    AreaOrder(k, n + 1, PassCount(w, h, i));
  }

  lemma PassNone<T>(items: seq<T>, w: nat, h: nat, k: nat, i: nat)
    requires i < 7 && Area(k, Area(w, h)) <= |items|
    ensures PassItems(items, w, h, k, i, 0) == []
  {}

  /** Where a row of a reduced image ends the next one starts. */
  lemma RowEnd(pw: nat, ph: nat, y: nat)
    requires y <= ph
    ensures Flat(pw, pw, y) == Flat(pw, 0, y + 1) && Flat(pw, 0, y) <= Area(pw, ph) && Flat(pw, 0, 0) == 0
    ensures Flat(pw, 0, ph) == Area(pw, ph)
    ensures y < ph ==> Flat(pw, pw, y) <= Area(pw, ph)
  {
    AreaNext(pw, y);
    AreaNext(pw, 0);
    AreaOrder(pw, y, ph);
    if y < ph { AreaOrder(pw, y + 1, ph); }
  }

  lemma FlatUpTo(pw: nat, ph: nat, x: nat, y: nat)
    requires y < ph && x <= pw
    ensures Flat(pw, x, y) <= Area(pw, ph)
  {
    RowEnd(pw, ph, y);
  }

  // ---------------------------------------------------------------- interlacing bits

  method InterlacePassBits(out: array<byte>, start: nat, data: array<byte>, w: nat, h: nat, bpp: nat, i: nat, pw: nat,
                           ph: nat)
    requires out != data && i < 7 && pw == PassW(w, h, i) && ph == PassH(w, h, i)
    requires Area(bpp, Area(w, h)) <= 8 * data.Length && 8 * start + Area(bpp, PassCount(w, h, i)) <= 8 * out.Length
    modifies out
    ensures PixelBits(out[..]) == Placed(old(PixelBits(out[..])), 8 * start,
                                         old(PassItems(PixelBits(data[..]), w, h, bpp, i, PassCount(w, h, i))))
  {
    hide PixelBits, Placed, PassItems, Area, PassW, PassH, Flat;
    ghost var was, src, count := PixelBits(out[..]), PixelBits(data[..]), PassCount(w, h, i);
    assert count == Area(pw, ph);
    PassNone(src, w, h, bpp, i);
    PlacedNothing(was, 8 * start);
    RowEnd(pw, ph, 0);
    RowEnd(pw, ph, ph);
    AreaOrder(bpp, 0, count);
    for y := 0 to ph
      invariant Flat(pw, 0, y) <= count && Area(bpp, Flat(pw, 0, y)) <= Area(bpp, count) && PixelBits(data[..]) == src
      invariant PixelBits(out[..]) == Placed(was, 8 * start, PassItems(src, w, h, bpp, i, Flat(pw, 0, y)))
    {
      for x := 0 to pw
        invariant Flat(pw, x, y) <= count && Area(bpp, Flat(pw, x, y)) <= Area(bpp, count) && PixelBits(data[..]) == src
        invariant PixelBits(out[..]) == Placed(was, 8 * start, PassItems(src, w, h, bpp, i, Flat(pw, x, y)))
      {
        InterlacePixelBits(out, start, data, w, h, bpp, i, pw, x, y, was, src);
        FlatUpTo(pw, ph, x + 1, y);
        AreaOrder(bpp, Flat(pw, x + 1, y), count);
      }
      RowEnd(pw, ph, y);
    }
  }

  lemma FlatNext(pw: nat, x: nat, y: nat)
    ensures Flat(pw, x + 1, y) == Flat(pw, x, y) + 1
  {}

  method InterlacePixelBits(out: array<byte>, start: nat, data: array<byte>, w: nat, h: nat, bpp: nat, i: nat, pw: nat,
                            x: nat, y: nat, ghost was: seq<bool>, ghost src: seq<bool>)
    requires out != data && i < 7 && pw == PassW(w, h, i) && x < pw && y < PassH(w, h, i) && |was| == 8 * out.Length
    requires Area(bpp, Area(w, h)) <= |src| && 8 * start + Area(bpp, PassCount(w, h, i)) <= 8 * out.Length
    requires PixelBits(data[..]) == src
    requires Flat(pw, x, y) <= PassCount(w, h, i) && Area(bpp, Flat(pw, x, y)) <= Area(bpp, PassCount(w, h, i))
    requires PixelBits(out[..]) == Placed(was, 8 * start, PassItems(src, w, h, bpp, i, Flat(pw, x, y)))
    modifies out
    ensures Flat(pw, x + 1, y) <= PassCount(w, h, i) && Area(bpp, Flat(pw, x + 1, y)) <= Area(bpp, PassCount(w, h, i))
    ensures PixelBits(out[..]) == Placed(was, 8 * start, PassItems(src, w, h, bpp, i, Flat(pw, x + 1, y)))
  {
    hide PixelBits, Placed, PassItems, Area, PassW, PassH, Flat, PassCount, Source, IX, IY, DX, DY;
    SourceAddress(w, h, bpp, i, x, y);
    FlatNext(pw, x, y);
    ghost var n := Flat(pw, x, y);
    PassNext(src, w, h, bpp, i, n);
    AreaNext(bpp, n);
    var ilinebits, olinebits := bpp * pw, bpp * w;
    var ibp := (IY(i) + y * DY(i)) * olinebits + (IX(i) + x * DX(i)) * bpp;
    var obp := 8 * start + (y * ilinebits + x * bpp);
    ghost var front, piece := PassItems(src, w, h, bpp, i, n), src[ibp..ibp + bpp];
    CopyBits(out, obp, data, ibp, bpp, piece);
    PlacedTwice(was, 8 * start, front, piece);
  }

  // ---------------------------------------------------------------- interlacing bytes

  method InterlacePassBytes(out: array<byte>, start: nat, data: array<byte>, w: nat, h: nat, bytewidth: nat, i: nat,
                            pw: nat, ph: nat)
    requires out != data && i < 7 && pw == PassW(w, h, i) && ph == PassH(w, h, i)
    requires Area(bytewidth, Area(w, h)) <= data.Length && start + Area(bytewidth, PassCount(w, h, i)) <= out.Length
    modifies out
    ensures out[..] == Placed(old(out[..]), start,
                                         old(PassItems(data[..], w, h, bytewidth, i, PassCount(w, h, i))))
  {
    hide Placed, PassItems, Area, PassW, PassH, Flat;
    ghost var was, src, count := out[..], data[..], PassCount(w, h, i);
    assert count == Area(pw, ph);
    PassNone(src, w, h, bytewidth, i);
    PlacedNothing(was, start);
    RowEnd(pw, ph, 0);
    RowEnd(pw, ph, ph);
    AreaOrder(bytewidth, 0, count);
    for y := 0 to ph
      invariant Flat(pw, 0, y) <= count && Area(bytewidth, Flat(pw, 0, y)) <= Area(bytewidth, count) && data[..] == src
      invariant out[..] == Placed(was, start, PassItems(src, w, h, bytewidth, i, Flat(pw, 0, y)))
    {
      for x := 0 to pw
        invariant Flat(pw, x, y) <= count && Area(bytewidth, Flat(pw, x, y)) <= Area(bytewidth, count)
        invariant data[..] == src
        invariant out[..] == Placed(was, start, PassItems(src, w, h, bytewidth, i, Flat(pw, x, y)))
      {
        InterlacePixelBytes(out, start, data, w, h, bytewidth, i, pw, x, y, was, src);
        FlatUpTo(pw, ph, x + 1, y);
        AreaOrder(bytewidth, Flat(pw, x + 1, y), count);
      }
      RowEnd(pw, ph, y);
    }
  }

  method InterlacePixelBytes(out: array<byte>, start: nat, data: array<byte>, w: nat, h: nat, bytewidth: nat, i: nat,
                             pw: nat, x: nat, y: nat, ghost was: seq<byte>, ghost src: seq<byte>)
    requires out != data && i < 7 && pw == PassW(w, h, i) && x < pw && y < PassH(w, h, i) && |was| == out.Length
    requires Area(bytewidth, Area(w, h)) <= |src| && start + Area(bytewidth, PassCount(w, h, i)) <= out.Length
    requires data[..] == src
    requires Flat(pw, x, y) <= PassCount(w, h, i)
    requires Area(bytewidth, Flat(pw, x, y)) <= Area(bytewidth, PassCount(w, h, i))
    requires out[..] == Placed(was, start, PassItems(src, w, h, bytewidth, i, Flat(pw, x, y)))
    modifies out
    ensures Flat(pw, x + 1, y) <= PassCount(w, h, i)
    ensures Area(bytewidth, Flat(pw, x + 1, y)) <= Area(bytewidth, PassCount(w, h, i))
    ensures out[..] == Placed(was, start, PassItems(src, w, h, bytewidth, i, Flat(pw, x + 1, y)))
  {
    hide Placed, PassItems, Area, PassW, PassH, Flat, PassCount, Source, IX, IY, DX, DY;
    SourceAddress(w, h, bytewidth, i, x, y);
    FlatNext(pw, x, y);
    ghost var n := Flat(pw, x, y);
    PassNext(src, w, h, bytewidth, i, n);
    AreaNext(bytewidth, n);
    var pixelinstart := ((IY(i) + y * DY(i)) * w + IX(i) + x * DX(i)) * bytewidth;
    var pixeloutstart := start + (y * pw + x) * bytewidth;
    ghost var front, piece := PassItems(src, w, h, bytewidth, i, n), src[pixelinstart..pixelinstart + bytewidth];
    CopyBytes(out, pixeloutstart, data, pixelinstart, bytewidth, piece);
    PlacedTwice(was, start, front, piece);
  }

  /** `n` bytes from one buffer to another. */
  method CopyBytes(out: array<byte>, o: nat, data: array<byte>, i: nat, n: nat, ghost piece: seq<byte>)
    requires out != data && o + n <= out.Length && i + n <= data.Length && piece == data[..][i..i + n]
    modifies out
    ensures out[..] == Placed(old(out[..]), o, piece)
  {
    ghost var was, all := out[..], data[..];
    assert piece[..0] == [];
    PlacedNothing(was, o);
    for b := 0 to n
      invariant out[..] == Placed(was, o, piece[..b]) && data[..] == all
    {
      PlacedNext(was, o, piece, b);
      assert data[i + b] == all[i..i + n][b];
      out[o + b] := data[i + b];
    }
    TakeAll(piece, n);
  }

  lemma PlacedNext(was: seq<byte>, o: nat, piece: seq<byte>, b: nat)
    requires b < |piece| && o + |piece| <= |was|
    ensures Placed(was, o, piece[..b + 1]) == Placed(was, o, piece[..b])[o + b := piece[b]]
  {}

  // ---------------------------------------------------------------- all seven passes

  /** Writing a later pass leaves the earlier ones alone. */
  lemma NextPass<T>(content: seq<T>, content': seq<T>, items: seq<T>, w: nat, h: nat, k: nat, starts: seq<nat>, i: nat)
    requires i < 7 == |starts| && Interlaced(content, items, w, h, k, starts, i)
    requires starts[i] + Area(k, PassCount(w, h, i)) <= |content|
    requires content' == Placed(content, starts[i], PassItems(items, w, h, k, i, PassCount(w, h, i)))
    requires forall j | 0 <= j < i :: starts[j] + Area(k, PassCount(w, h, j)) <= starts[i]
    ensures Interlaced(content', items, w, h, k, starts, i + 1)
  {
    hide Area, PassItems, PassCount;
    forall j | 0 <= j < i + 1 ensures HoldsPass(content', items, w, h, k, starts[j], j) {
      var e := starts[j] + Area(k, PassCount(w, h, j));
      if j < i {
        assert HoldsPass(content, items, w, h, k, starts[j], j);
        PlacedKeeps(content, starts[i], PassItems(items, w, h, k, i, PassCount(w, h, i)), starts[j],
                    Area(k, PassCount(w, h, j)));
      } else {
        assert content'[starts[i]..e] == PassItems(items, w, h, k, i, PassCount(w, h, i));
      }
    }
  }

  /** Unit offsets of the passes: bits or bytes. */
  ghost function PassStarts(w: nat, h: nat, bpp: nat, bits: bool): (s: seq<nat>)
    ensures |s| == 7
  {
    seq(7, i requires 0 <= i < 7 => if bits then 8 * PassStart(w, h, bpp, i) else PassStart(w, h, bpp, i))
  }

  lemma {:induction false} PassesApart(w: nat, h: nat, bpp: nat, i: nat, j: nat)
    requires j < i <= 7
    ensures PassStart(w, h, bpp, j) + (PassBits(w, h, bpp, j) + 7) / 8 <= PassStart(w, h, bpp, i)
  {
    if j < i - 1 { PassesApart(w, h, bpp, i - 1, j); }
  }

  /** The end of every pass, in bits, and in bytes for whole-byte pixels. */
  lemma PassEnds(w: nat, h: nat, bpp: nat, i: nat, j: nat)
    requires j < i <= 7
    ensures 8 * PassStart(w, h, bpp, j) + Area(bpp, PassCount(w, h, j)) <= 8 * PassStart(w, h, bpp, i)
    ensures bpp % 8 == 0 ==> PassStart(w, h, bpp, j) + Area(bpp / 8, PassCount(w, h, j)) <= PassStart(w, h, bpp, i)
  {
    hide PassStart, PassCount;
    PassesApart(w, h, bpp, i, j);
    if bpp % 8 == 0 {
      Eightfold(bpp / 8, PassCount(w, h, j));
      assert Area(bpp, PassCount(w, h, j)) == 8 * Area(bpp / 8, PassCount(w, h, j));
    }
  }

  /** The image reordered into its seven reduced images; the units are bits when pixels are smaller than a byte. */
  method Adam7Interlace(out: array<byte>, data: array<byte>, w: nat, h: nat, bpp: nat)
    requires out != data && ImageRows.LegalBpp(bpp) && out.Length == PassStart(w, h, bpp, 7)
    requires Area(bpp, Area(w, h)) <= 8 * data.Length
    modifies out
    ensures bpp < 8 ==> Interlaced(PixelBits(out[..]), PixelBits(data[..]), w, h, bpp, PassStarts(w, h, bpp, true), 7)
    ensures bpp >= 8 ==> Interlaced(out[..], data[..], w, h, bpp / 8, PassStarts(w, h, bpp, false), 7)
  {
    hide Area, PassW, PassH, PassItems, PixelBits, PassStart, Interlaced, PassCount, Placed;
    var passw, passh, filterStart, paddedStart, passStart := GetPassValues(w, h, bpp);
    if bpp >= 8 {
      ghost var starts, src := PassStarts(w, h, bpp, false), data[..];
      BytesOfImage(bpp, Area(w, h), data.Length);
      NoPasses(out[..], src, w, h, bpp / 8, starts);
      for i := 0 to 7
        invariant data[..] == src && Interlaced(out[..], src, w, h, bpp / 8, starts, i)
      {
        PassEnds(w, h, bpp, i + 1, i);
        EndsInside(w, h, bpp, i + 1);
        forall j | 0 <= j < i ensures starts[j] + Area(bpp / 8, PassCount(w, h, j)) <= starts[i] {
          PassEnds(w, h, bpp, i, j);
        }
        ghost var before := out[..];
        InterlacePassBytes(out, passStart[i], data, w, h, bpp / 8, i, passw[i], passh[i]);
        NextPass(before, out[..], src, w, h, bpp / 8, starts, i);
      }
    } else {
      ghost var starts, src := PassStarts(w, h, bpp, true), PixelBits(data[..]);
      NoPasses(PixelBits(out[..]), src, w, h, bpp, starts);
      for i := 0 to 7
        invariant PixelBits(data[..]) == src && Interlaced(PixelBits(out[..]), src, w, h, bpp, starts, i)
      {
        PassEnds(w, h, bpp, i + 1, i);
        EndsInside(w, h, bpp, i + 1);
        forall j | 0 <= j < i ensures starts[j] + Area(bpp, PassCount(w, h, j)) <= starts[i] {
          PassEnds(w, h, bpp, i, j);
        }
        ghost var before := PixelBits(out[..]);
        InterlacePassBits(out, passStart[i], data, w, h, bpp, i, passw[i], passh[i]);
        NextPass(before, PixelBits(out[..]), src, w, h, bpp, starts, i);
      }
    }
  }

  lemma NoPasses<T>(content: seq<T>, items: seq<T>, w: nat, h: nat, k: nat, starts: seq<nat>)
    requires |starts| == 7 && Area(k, Area(w, h)) <= |items|
    ensures Interlaced(content, items, w, h, k, starts, 0)
  {}

  lemma BytesOfImage(bpp: nat, count: nat, size: nat)
    requires ImageRows.LegalBpp(bpp) && bpp >= 8 && Area(bpp, count) <= 8 * size
    ensures bpp % 8 == 0 && Area(bpp, count) == 8 * Area(bpp / 8, count) && Area(bpp / 8, count) <= size
  {
    Eightfold(bpp / 8, count);
  }

  lemma {:induction false} EndsInside(w: nat, h: nat, bpp: nat, i: nat)
    requires i <= 7
    ensures PassStart(w, h, bpp, i) <= PassStart(w, h, bpp, 7)
    decreases 7 - i
  {
    if i < 7 { PassesApart(w, h, bpp, 7, i); }
  }

  // ---------------------------------------------------------------- deinterlacing

  /** The pixels of the passes before `i` and the first `n` of pass `i` are in their places. */
  ghost predicate Restored<T>(out: seq<T>, content: seq<T>, w: nat, h: nat, k: nat, starts: seq<nat>, i: nat, n: nat)
    requires |starts| == 7
  {
    forall x, y | 0 <= x < w && 0 <= y < h && Reached(w, h, x, y, i, n) ::
        PixelRestored(out, content, w, h, k, starts[PassOf(x, y)], x, y)
  }

  ghost predicate Reached(w: nat, h: nat, x: nat, y: nat, i: nat, n: nat)
    requires x < w && y < h
  {
    PassOf(x, y) < i || (PassOf(x, y) == i && PlaceInPass(w, h, x, y) < n)
  }

  /** A pixel of a pass is the only one with its place in the image. */
  lemma SourceOnly(w: nat, h: nat, i: nat, n: nat, x: nat, y: nat)
    requires i < 7 && n < PassCount(w, h, i) && x < w && y < h
    ensures Flat(w, x, y) == Source(w, h, i, n) <==> PassOf(x, y) == i && PlaceInPass(w, h, x, y) == n
  {
    if Flat(w, x, y) == Source(w, h, i, n) {
      var pw, ph := PassW(w, h, i), PassH(w, h, i);
      FlatOfQuotient(pw, ph, n);
      var px, py := n % pw, n / pw;
      PlaceInImage(i, px, w);
      PlaceInImage(i, py, h);
      FlatInverse(w, x, y);
      FlatInverse(w, IX(i) + px * DX(i), IY(i) + py * DY(i));
      assert Adam7.Holds(i, px, py, x, y);
      PassHoldsOnly(i, px, py, x, y, w, h);
    }
  }

  lemma RestoreNext<T>(out: seq<T>, out': seq<T>, content: seq<T>, w: nat, h: nat, k: nat, starts: seq<nat>, i: nat,
                       n: nat)
    requires |starts| == 7 && i < 7 && n < PassCount(w, h, i) && Restored(out, content, w, h, k, starts, i, n)
    requires Area(k, Source(w, h, i, n)) + k <= |out| && starts[i] + Area(k, n) + k <= |content|
    requires out' == Placed(out, Area(k, Source(w, h, i, n)),
                            content[starts[i] + Area(k, n)..starts[i] + Area(k, n) + k])
    ensures Restored(out', content, w, h, k, starts, i, n + 1)
  {
    hide Area, Source, PassCount, Placed, PassOf, PlaceInPass, Flat, Restored, PixelRestored;
    var p := Source(w, h, i, n);
    forall x, y | 0 <= x < w && 0 <= y < h && Reached(w, h, x, y, i, n + 1)
      ensures PixelRestored(out', content, w, h, k, starts[PassOf(x, y)], x, y)
    {
      SourceOnly(w, h, i, n, x, y);
      AreaNext(k, p);
      if Flat(w, x, y) == p {
        PixelWritten(out, out', content, w, h, k, starts[i], n, x, y);
      } else {
        assert Reached(w, h, x, y, i, n);
        RestoredHere(out, content, w, h, k, starts, i, n, x, y);
        PixelKept(out, out', content, w, h, k, starts[PassOf(x, y)], x, y, p,
                  content[starts[i] + Area(k, n)..starts[i] + Area(k, n) + k]);
      }
    }
    RestoredBy(out', content, w, h, k, starts, i, n + 1);
  }

  lemma RestoredHere<T>(out: seq<T>, content: seq<T>, w: nat, h: nat, k: nat, starts: seq<nat>, i: nat, n: nat, x: nat,
                        y: nat)
    requires |starts| == 7 && Restored(out, content, w, h, k, starts, i, n) && x < w && y < h
    requires Reached(w, h, x, y, i, n)
    ensures PixelRestored(out, content, w, h, k, starts[PassOf(x, y)], x, y)
  {}

  lemma RestoredBy<T>(out: seq<T>, content: seq<T>, w: nat, h: nat, k: nat, starts: seq<nat>, i: nat, n: nat)
    requires |starts| == 7
    requires forall x, y | 0 <= x < w && 0 <= y < h && Reached(w, h, x, y, i, n) ::
               PixelRestored(out, content, w, h, k, starts[PassOf(x, y)], x, y)
    ensures Restored(out, content, w, h, k, starts, i, n)
  {}

  lemma PixelWritten<T>(out: seq<T>, out': seq<T>, content: seq<T>, w: nat, h: nat, k: nat, start: nat, n: nat, x: nat,
                        y: nat)
    requires x < w && y < h && PlaceInPass(w, h, x, y) == n
    requires Area(k, Flat(w, x, y)) + k <= |out| && start + Area(k, n) + k <= |content|
    requires out' == Placed(out, Area(k, Flat(w, x, y)), content[start + Area(k, n)..start + Area(k, n) + k])
    ensures PixelRestored(out', content, w, h, k, start, x, y)
  {
    hide Area, PlaceInPass, Flat;
    AreaNext(k, Flat(w, x, y));
  }

  lemma PixelKept<T>(out: seq<T>, out': seq<T>, content: seq<T>, w: nat, h: nat, k: nat, start: nat, x: nat, y: nat,
                     p: nat, piece: seq<T>)
    requires x < w && y < h && PixelRestored(out, content, w, h, k, start, x, y) && Flat(w, x, y) != p && |piece| == k
    requires Area(k, p) + k <= |out| && out' == Placed(out, Area(k, p), piece)
    ensures PixelRestored(out', content, w, h, k, start, x, y)
  {
    hide Area, PlaceInPass, Flat;
    var q := Flat(w, x, y);
    AreaNext(k, p);
    AreaNext(k, q);
    if p < q { AreaOrder(k, p + 1, q); } else { AreaOrder(k, q + 1, p); }
    PlacedKeeps(out, Area(k, p), piece, Area(k, q), k);
  }

  /** A finished pass. */
  lemma RestorePass<T>(out: seq<T>, content: seq<T>, w: nat, h: nat, k: nat, starts: seq<nat>, i: nat)
    requires |starts| == 7 && i < 7 && Restored(out, content, w, h, k, starts, i, PassCount(w, h, i))
    ensures Restored(out, content, w, h, k, starts, i + 1, 0)
  {
    hide PassCount, PixelRestored, PlaceInPass, PassOf;
    forall x, y | 0 <= x < w && 0 <= y < h && Reached(w, h, x, y, i + 1, 0)
      ensures PixelRestored(out, content, w, h, k, starts[PassOf(x, y)], x, y)
    {
      assert Reached(w, h, x, y, i, PassCount(w, h, i));
    }
  }

  lemma RestoreStart<T>(out: seq<T>, content: seq<T>, w: nat, h: nat, k: nat, starts: seq<nat>)
    requires |starts| == 7
    ensures Restored(out, content, w, h, k, starts, 0, 0)
  {}

  lemma RestoreEnd<T>(out: seq<T>, content: seq<T>, w: nat, h: nat, k: nat, starts: seq<nat>)
    requires |starts| == 7 && Restored(out, content, w, h, k, starts, 7, 0) && Area(k, Area(w, h)) <= |out|
    requires forall i | 0 <= i < 7 :: starts[i] + Area(k, PassCount(w, h, i)) <= |content|
    ensures Deinterlaced(out, content, w, h, k, starts)
  {
    hide Area, PassCount, PlaceInPass, PassOf, PixelRestored;
  }

  method DeinterlacePassBits(out: array<byte>, data: array<byte>, start: nat, w: nat, h: nat, bpp: nat, i: nat, pw: nat,
                             ph: nat, ghost starts: seq<nat>)
    requires out != data && i < 7 && pw == PassW(w, h, i) && ph == PassH(w, h, i) && |starts| == 7
    requires starts[i] == 8 * start
    requires Area(bpp, Area(w, h)) <= 8 * out.Length && 8 * start + Area(bpp, PassCount(w, h, i)) <= 8 * data.Length
    requires Restored(PixelBits(out[..]), PixelBits(data[..]), w, h, bpp, starts, i, 0)
    modifies out
    ensures Restored(PixelBits(out[..]), PixelBits(data[..]), w, h, bpp, starts, i, PassCount(w, h, i))
  {
    hide PixelBits, Restored, Area, PassW, PassH, Flat;
    ghost var src, count := PixelBits(data[..]), PassCount(w, h, i);
    assert count == Area(pw, ph);
    RowEnd(pw, ph, 0);
    RowEnd(pw, ph, ph);
    for y := 0 to ph
      invariant Flat(pw, 0, y) <= count && PixelBits(data[..]) == src
      invariant Restored(PixelBits(out[..]), src, w, h, bpp, starts, i, Flat(pw, 0, y))
    {
      for x := 0 to pw
        invariant Flat(pw, x, y) <= count && PixelBits(data[..]) == src
        invariant Restored(PixelBits(out[..]), src, w, h, bpp, starts, i, Flat(pw, x, y))
      {
        DeinterlacePixelBits(out, data, start, w, h, bpp, i, pw, x, y, starts, src);
      }
      RowEnd(pw, ph, y);
    }
  }

  method DeinterlacePixelBits(out: array<byte>, data: array<byte>, start: nat, w: nat, h: nat, bpp: nat, i: nat,
                              pw: nat, x: nat, y: nat, ghost starts: seq<nat>, ghost src: seq<bool>)
    requires out != data && i < 7 && pw == PassW(w, h, i) && x < pw && y < PassH(w, h, i) && |starts| == 7
    requires starts[i] == 8 * start
    requires Area(bpp, Area(w, h)) <= 8 * out.Length && 8 * start + Area(bpp, PassCount(w, h, i)) <= 8 * data.Length
    requires PixelBits(data[..]) == src && Restored(PixelBits(out[..]), src, w, h, bpp, starts, i, Flat(pw, x, y))
    modifies out
    ensures Flat(pw, x + 1, y) <= PassCount(w, h, i)
    ensures Restored(PixelBits(out[..]), src, w, h, bpp, starts, i, Flat(pw, x + 1, y))
  {
    hide PixelBits, Placed, Restored, Area, PassW, PassH, Flat, PassCount, Source, IX, IY, DX, DY;
    SourceAddress(w, h, bpp, i, x, y);
    FlatNext(pw, x, y);
    ghost var n, before := Flat(pw, x, y), PixelBits(out[..]);
    PassFits(w, h, bpp, i, n);
    var ilinebits, olinebits := bpp * pw, bpp * w;
    var ibp := 8 * start + (y * ilinebits + x * bpp);
    var obp := (IY(i) + y * DY(i)) * olinebits + (IX(i) + x * DX(i)) * bpp;
    CopyBits(out, obp, data, ibp, bpp, src[ibp..ibp + bpp]);
    RestoreNext(before, PixelBits(out[..]), src, w, h, bpp, starts, i, n);
  }

  method DeinterlacePassBytes(out: array<byte>, data: array<byte>, start: nat, w: nat, h: nat, bytewidth: nat, i: nat,
                              pw: nat, ph: nat, ghost starts: seq<nat>)
    requires out != data && i < 7 && pw == PassW(w, h, i) && ph == PassH(w, h, i) && |starts| == 7 && starts[i] == start
    requires Area(bytewidth, Area(w, h)) <= out.Length && start + Area(bytewidth, PassCount(w, h, i)) <= data.Length
    requires Restored(out[..], data[..], w, h, bytewidth, starts, i, 0)
    modifies out
    ensures Restored(out[..], data[..], w, h, bytewidth, starts, i, PassCount(w, h, i))
  {
    hide PixelBits, Restored, Area, PassW, PassH, Flat;
    ghost var src, count := data[..], PassCount(w, h, i);
    assert count == Area(pw, ph);
    RowEnd(pw, ph, 0);
    RowEnd(pw, ph, ph);
    for y := 0 to ph
      invariant Flat(pw, 0, y) <= count && data[..] == src
      invariant Restored(out[..], src, w, h, bytewidth, starts, i, Flat(pw, 0, y))
    {
      for x := 0 to pw
        invariant Flat(pw, x, y) <= count && data[..] == src
        invariant Restored(out[..], src, w, h, bytewidth, starts, i, Flat(pw, x, y))
      {
        DeinterlacePixelBytes(out, data, start, w, h, bytewidth, i, pw, x, y, starts, src);
      }
      RowEnd(pw, ph, y);
    }
  }

  method DeinterlacePixelBytes(out: array<byte>, data: array<byte>, start: nat, w: nat, h: nat, bytewidth: nat, i: nat,
                               pw: nat, x: nat, y: nat, ghost starts: seq<nat>, ghost src: seq<byte>)
    requires out != data && i < 7 && pw == PassW(w, h, i) && x < pw && y < PassH(w, h, i) && |starts| == 7
    requires starts[i] == start
    requires Area(bytewidth, Area(w, h)) <= out.Length && start + Area(bytewidth, PassCount(w, h, i)) <= data.Length
    requires data[..] == src && Restored(out[..], src, w, h, bytewidth, starts, i, Flat(pw, x, y))
    modifies out
    ensures Flat(pw, x + 1, y) <= PassCount(w, h, i)
    ensures Restored(out[..], src, w, h, bytewidth, starts, i, Flat(pw, x + 1, y))
  {
    hide PixelBits, Placed, Restored, Area, PassW, PassH, Flat, PassCount, Source, IX, IY, DX, DY;
    SourceAddress(w, h, bytewidth, i, x, y);
    FlatNext(pw, x, y);
    ghost var n, before := Flat(pw, x, y), out[..];
    PassFits(w, h, bytewidth, i, n);
    var pixelinstart := start + (y * pw + x) * bytewidth;
    var pixeloutstart := ((IY(i) + y * DY(i)) * w + IX(i) + x * DX(i)) * bytewidth;
    CopyBytes(out, pixeloutstart, data, pixelinstart, bytewidth, src[pixelinstart..pixelinstart + bytewidth]);
    RestoreNext(before, out[..], src, w, h, bytewidth, starts, i, n);
  }

  lemma PassFits(w: nat, h: nat, k: nat, i: nat, n: nat)
    requires i < 7 && n < PassCount(w, h, i)
    ensures Area(k, Source(w, h, i, n)) + k <= Area(k, Area(w, h)) && Area(k, n) + k <= Area(k, PassCount(w, h, i))
  {
    hide Area, Source, PassCount;
    AreaNext(k, n);
    AreaNext(k, Source(w, h, i, n));
    AreaOrder(k, Source(w, h, i, n) + 1, Area(w, h));
    AreaOrder(k, n + 1, PassCount(w, h, i));
  }

  /** Every pixel back to its place. */
  method Adam7Deinterlace(out: array<byte>, data: array<byte>, w: nat, h: nat, bpp: nat)
    requires out != data && ImageRows.LegalBpp(bpp) && PassStart(w, h, bpp, 7) <= data.Length
    requires Area(bpp, Area(w, h)) <= 8 * out.Length
    modifies out
    ensures bpp < 8 ==> Deinterlaced(PixelBits(out[..]), PixelBits(data[..]), w, h, bpp, PassStarts(w, h, bpp, true))
    ensures bpp >= 8 ==> Deinterlaced(out[..], data[..], w, h, bpp / 8, PassStarts(w, h, bpp, false))
  {
    hide Area, PassW, PassH, PixelBits, PassStart, PassCount, Restored, Deinterlaced;
    var passw, passh, filterStart, paddedStart, passStart := GetPassValues(w, h, bpp);
    forall i | 0 <= i < 7
      ensures 8 * PassStart(w, h, bpp, i) + Area(bpp, PassCount(w, h, i)) <= 8 * data.Length
      ensures bpp % 8 == 0 ==> PassStart(w, h, bpp, i) + Area(bpp / 8, PassCount(w, h, i)) <= data.Length
    {
      PassEnds(w, h, bpp, i + 1, i);
      EndsInside(w, h, bpp, i + 1);
    }
    if bpp >= 8 {
      ghost var starts, src := PassStarts(w, h, bpp, false), data[..];
      BytesOfImage(bpp, Area(w, h), out.Length);
      RestoreStart(out[..], src, w, h, bpp / 8, starts);
      for i := 0 to 7
        invariant data[..] == src && Restored(out[..], src, w, h, bpp / 8, starts, i, 0)
      {
        DeinterlacePassBytes(out, data, passStart[i], w, h, bpp / 8, i, passw[i], passh[i], starts);
        RestorePass(out[..], src, w, h, bpp / 8, starts, i);
      }
      RestoreEnd(out[..], src, w, h, bpp / 8, starts);
    } else {
      ghost var starts, src := PassStarts(w, h, bpp, true), PixelBits(data[..]);
      RestoreStart(PixelBits(out[..]), src, w, h, bpp, starts);
      for i := 0 to 7
        invariant PixelBits(data[..]) == src && Restored(PixelBits(out[..]), src, w, h, bpp, starts, i, 0)
      {
        DeinterlacePassBits(out, data, passStart[i], w, h, bpp, i, passw[i], passh[i], starts);
        RestorePass(PixelBits(out[..]), src, w, h, bpp, starts, i);
      }
      RestoreEnd(PixelBits(out[..]), src, w, h, bpp, starts);
    }
  }
}
