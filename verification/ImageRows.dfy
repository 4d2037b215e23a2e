/** Filtering and unfiltering whole (reduced) images, row by row, with one filter type byte before each row. */
module ImageRows {
  import opened Wrappers
  import opened Bits
  import opened Filter
  import opened Buffers

  /** `lodepng_get_raw_size_idat`: filter bytes included. */
  function RawSizeIdat(w: nat, h: nat, bpp: nat): nat {
    Area((w / 8) * bpp + 1 + (w % 8 * bpp + 7) / 8, h)
  }

  function LineBytes(w: nat, bpp: nat): nat {
    (w * bpp + 7) / 8
  }

  /** The overflow-safe form computes the same line size. */
  lemma RawSizeIsLineBytes(w: nat, h: nat, bpp: nat)
    ensures RawSizeIdat(w, h, bpp) == Area(LineBytes(w, bpp) + 1, h)
  {
    var q, r := w / 8, w % 8;
    SplitProduct(q, r, bpp);
    LineSplit(q * bpp, r * bpp);
  }

  lemma SplitProduct(q: nat, r: nat, bpp: nat)
    ensures (8 * q + r) * bpp == 8 * (q * bpp) + r * bpp
  {}

  lemma LineSplit(a: nat, b: nat)
    ensures (8 * a + b + 7) / 8 == a + (b + 7) / 8
  {}

  ghost predicate ValidTypes(types: seq<nat>) {
    forall y | 0 <= y < |types| :: types[y] <= 4
  }

  /** Row `y`. */
  ghost function Row(image: seq<byte>, width: nat, y: nat): (r: seq<byte>)
    requires Area(width, y) + width <= |image|
    ensures |r| == width
  {
    image[Area(width, y)..Area(width, y) + width]
  }

  ghost function Previous(image: seq<byte>, width: nat, y: nat): (r: Option<seq<byte>>)
    requires Area(width, y) <= |image|
    ensures r.Some? ==> |r.value| == width
  {
    if y == 0 then None
    else
      AreaNext(width, y - 1);
      Some(Row(image, width, y - 1))
  }

  /** The first `n` rows with their filter types. */
  ghost function FilteredImage(image: seq<byte>, width: nat, bytewidth: nat, types: seq<nat>, n: nat): (r: seq<byte>)
    requires bytewidth > 0 && ValidTypes(types) && n <= |types| && Area(width, n) <= |image|
    ensures |r| == Area(width + 1, n)
  {
    AreaNext(width + 1, 0);
    if n == 0 then []
    else
      AreaNext(width, n - 1);
      AreaNext(width + 1, n - 1);
      FilteredImage(image, width, bytewidth, types, n - 1)
      + ([types[n - 1] as byte] + Filtered(Row(image, width, n - 1), Previous(image, width, n - 1), bytewidth,
                                           types[n - 1]))
  }

  /** What the first `n` rows of `data` unfilter to; nothing if a filter type is not one of the five. */
  ghost function UnfilteredImage(data: seq<byte>, width: nat, bytewidth: nat, n: nat): (r: Option<seq<byte>>)
    requires bytewidth > 0 && Area(width + 1, n) <= |data|
    ensures r.Some? ==> |r.value| == Area(width, n)
  {
    AreaNext(width, 0);
    if n == 0 then Some([])
    else
      AreaNext(width, n - 1);
      AreaNext(width + 1, n - 1);
      var at := Area(width + 1, n - 1);
      match UnfilteredImage(data, width, bytewidth, n - 1)
      case None => None
      case Some(front) =>
        if data[at] > 4 then None
        else Some(front + Reconstructed(data[at + 1..at + 1 + width], Previous(front, width, n - 1), bytewidth,
                                        data[at]))
  }

  /** Unfiltering undoes filtering, whatever types were chosen. */
  lemma {:induction false} ImageRoundTrip(image: seq<byte>, width: nat, bytewidth: nat, types: seq<nat>, n: nat,
                                          data: seq<byte>)
    requires bytewidth > 0 && ValidTypes(types) && n <= |types| && Area(width, n) <= |image|
    requires FilteredImage(image, width, bytewidth, types, n) <= data
    ensures UnfilteredImage(data, width, bytewidth, n) == Some(image[..Area(width, n)])
  {
    hide Area, Filtered, Reconstructed;
    AreaNext(width, 0);
    if n > 0 {
      AreaNext(width, n - 1);
      AreaNext(width + 1, n - 1);
      var front, row, prev := FilteredImage(image, width, bytewidth, types, n - 1), Row(image, width, n - 1),
          Previous(image, width, n - 1);
      var line := Filtered(row, prev, bytewidth, types[n - 1]);
      assert front + ([types[n - 1] as byte] + line) <= data;
      RowAppends(image, width, n - 1);
      hide FilteredImage, ValidTypes, Previous, Row;
      assert front <= data;
      ImageRoundTrip(image, width, bytewidth, types, n - 1, data);
      RowAt(data, front, types[n - 1] as byte, line);
      PreviousOfPrefix(image, width, n - 1);
      RowRoundTrip(row, prev, bytewidth, types[n - 1]);
    }
  }

  lemma RowAppends(image: seq<byte>, width: nat, y: nat)
    requires Area(width, y + 1) <= |image|
    ensures Area(width, y + 1) == Area(width, y) + width
    ensures image[..Area(width, y)] + Row(image, width, y) == image[..Area(width, y + 1)]
  {
    AreaNext(width, y);
    hide Area;
  }

  lemma RowRoundTrip(row: seq<byte>, prev: Option<seq<byte>>, bytewidth: nat, filter: nat)
    requires filter <= 4 && bytewidth > 0 && (prev.Some? ==> |prev.value| == |row|)
    ensures Reconstructed(Filtered(row, prev, bytewidth, filter), prev, bytewidth, filter) == row
  {
    hide Filtered, Reconstructed;
    FilterRoundTrip(row, prev, bytewidth, filter, |row|);
    assert row[..|row|] == row;
    assert Filtered(row, prev, bytewidth, filter)[..|row|] == Filtered(row, prev, bytewidth, filter);
  }

  lemma RowAt(data: seq<byte>, front: seq<byte>, t: byte, line: seq<byte>)
    requires front + ([t] + line) <= data
    ensures |front| < |data| && data[|front|] == t && data[|front| + 1..|front| + 1 + |line|] == line
  {
    var all := front + ([t] + line);
    assert data[|front|] == all[|front|];
    assert data[..|all|][|front| + 1..|front| + 1 + |line|] == all[|front| + 1..|front| + 1 + |line|] == line;
  }

  lemma PreviousOfPrefix(image: seq<byte>, width: nat, y: nat)
    requires Area(width, y) <= |image|
    ensures Previous(image[..Area(width, y)], width, y) == Previous(image, width, y)
  {
    if y > 0 {
      AreaNext(width, y - 1);
      var m := Area(width, y - 1);
      assert image[..Area(width, y)][m..m + width] == image[m..m + width];
    }
  }

  // ---------------------------------------------------------------- in buffers

  lemma WrittenPlaced(buf: array<byte>, was: seq<byte>, at: nat, r: seq<byte>)
    requires Written(buf, was, at, r, |r|)
    ensures buf[..] == Placed(was, at, r)
  {}

  /** Bits per pixel of the legal colour types and depths. */
  predicate LegalBpp(bpp: nat) {
    bpp in {1, 2, 4, 8, 16, 24, 32, 48, 64}
  }

  lemma PixelFits(w: nat, bpp: nat)
    requires LegalBpp(bpp) && w > 0
    ensures 0 < (bpp + 7) / 8 <= LineBytes(w, bpp)
  {
    MulLe(1, w, bpp);
  }

  /** `filter` with the type of every row given: which types the heuristics pick does not matter to the decoder. */
  method FilterImage(out: array<byte>, at: nat, image: array<byte>, from: nat, w: nat, h: nat, bpp: nat,
                     types: seq<nat>)
    requires out != image && LegalBpp(bpp) && (w > 0 || h == 0) && |types| == h && ValidTypes(types)
    requires at + Area(LineBytes(w, bpp) + 1, h) <= out.Length && from + Area(LineBytes(w, bpp), h) <= image.Length
    modifies out
    ensures out[..] == Placed(old(out[..]), at,
                              FilteredImage(image[from..from + Area(LineBytes(w, bpp), h)], LineBytes(w, bpp),
                                            (bpp + 7) / 8, types, h))
  {
    var linebytes := RawSizeIdat(w, 1, bpp) - 1;
    RawSizeIsLineBytes(w, 1, bpp);
    AreaNext(LineBytes(w, bpp) + 1, 0);
    assert linebytes == LineBytes(w, bpp);
    var bytewidth := (bpp + 7) / 8;
    if h == 0 { FilteredNone(image[from..from + Area(linebytes, h)], linebytes, bytewidth, types); } else {
      PixelFits(w, bpp);
    }
    hide *;
    FilterRows(out, at, image, from, linebytes, bytewidth, types, h);
  }

  method FilterRows(out: array<byte>, at: nat, image: array<byte>, from: nat, linebytes: nat, bytewidth: nat,
                    types: seq<nat>, h: nat)
    requires out != image && 0 < bytewidth && (h > 0 ==> bytewidth <= linebytes) && |types| == h && ValidTypes(types)
    requires at + Area(linebytes + 1, h) <= out.Length && from + Area(linebytes, h) <= image.Length
    modifies out
    ensures out[..] == Placed(old(out[..]), at,
                              FilteredImage(image[from..from + Area(linebytes, h)], linebytes, bytewidth, types, h))
  {
    hide Area, Filtered, FilteredImage, Placed, ValidTypes;
    ghost var was, img := out[..], image[from..from + Area(linebytes, h)];
    AreaOrder(linebytes, 0, h);
    AreaOrder(linebytes + 1, 0, h);
    FilteredNone(img, linebytes, bytewidth, types);
    PlacedNothing(was, at);
    for y := 0 to h
      invariant Area(linebytes, y) <= |img| && Area(linebytes + 1, y) <= Area(linebytes + 1, h)
      invariant out[..] == Placed(was, at, FilteredImage(img, linebytes, bytewidth, types, y))
    {
      AreaNext(linebytes, y);
      AreaOrder(linebytes, y + 1, h);
      AreaOrder(linebytes + 1, y + 1, h);
      FilterRow(out, at, image, from, linebytes, bytewidth, types, y, h, was);
    }
  }

  lemma FilteredNext(image: seq<byte>, width: nat, bytewidth: nat, types: seq<nat>, n: nat)
    requires bytewidth > 0 && ValidTypes(types) && n < |types|
    requires Area(width, n) + width == Area(width, n + 1) <= |image|
    ensures FilteredImage(image, width, bytewidth, types, n + 1)
         == FilteredImage(image, width, bytewidth, types, n)
            + ([types[n] as byte] + Filtered(Row(image, width, n), Previous(image, width, n), bytewidth, types[n]))
  {}

  lemma FilteredNone(image: seq<byte>, width: nat, bytewidth: nat, types: seq<nat>)
    requires bytewidth > 0 && ValidTypes(types)
    ensures Area(width, 0) == 0 && FilteredImage(image, width, bytewidth, types, 0) == []
  {
    AreaNext(width, 0);
  }

  method FilterRow(out: array<byte>, at: nat, image: array<byte>, from: nat, linebytes: nat, bytewidth: nat,
                   types: seq<nat>, y: nat, ghost h: nat, ghost was: seq<byte>)
    requires out != image && 0 < bytewidth <= linebytes && y < h == |types| && ValidTypes(types) && |was| == out.Length
    requires at + Area(linebytes + 1, y + 1) <= out.Length && from + Area(linebytes, h) <= image.Length
    requires Area(linebytes, y) <= Area(linebytes, y + 1) <= Area(linebytes, h)
    requires out[..] == Placed(was, at, FilteredImage(image[from..from + Area(linebytes, h)], linebytes, bytewidth,
                                                      types, y))
    modifies out
    ensures out[..] == Placed(was, at, FilteredImage(image[from..from + Area(linebytes, h)], linebytes, bytewidth,
                                                     types, y + 1))
  {
    assert types[y] <= 4;
    hide Area, Filtered, FilteredImage, Placed, Row, Previous, RowAbove, ValidTypes;
    AreaNext(linebytes, y);
    AreaNext(linebytes + 1, y);
    if y > 0 { AreaNext(linebytes, y - 1); }
    var filter := types[y];
    var outindex, inindex := at + Area(linebytes + 1, y), from + Area(linebytes, y);
    var prevline := if y > 0 then Some(inindex - linebytes) else None;
    ghost var img := image[from..from + Area(linebytes, h)];
    ghost var front := FilteredImage(img, linebytes, bytewidth, types, y);
    RowsInBuffer(image, from, linebytes, y, h, prevline);
    ghost var row, prev := Row(img, linebytes, y), Previous(img, linebytes, y);
    FilteredNext(img, linebytes, bytewidth, types, y);
    PutRow(out, outindex, image, inindex, prevline, linebytes, bytewidth, filter, row, prev);
    assert image[from..from + Area(linebytes, h)] == img;
    PlacedTwice(was, at, front, [filter as byte] + Filtered(row, prev, bytewidth, filter));
  }

  /** The filter type and the filtered row behind it. */
  method PutRow(out: array<byte>, at: nat, image: array<byte>, from: nat, above: Option<nat>, length: nat,
                bytewidth: nat, filter: nat, ghost row: seq<byte>, ghost prev: Option<seq<byte>>)
    requires out != image && at + 1 + length <= out.Length && from + length <= image.Length && filter <= 4
    requires 0 < bytewidth <= length
    requires above.Some? ==> above.value + length <= image.Length
    requires row == image[from..from + length] && prev == RowAbove(image, above, length)
    modifies out
    ensures out[..] == Placed(old(out[..]), at, [filter as byte] + Filtered(row, prev, bytewidth, filter))
  {
    hide Filtered, Placed, RowAbove, Written;
    ghost var before, line := out[..], Filtered(row, prev, bytewidth, filter);
    out[at] := filter;
    assert out[..] == before[at := filter as byte];
    PlacedOne(before, at, filter as byte);
    FilterScanline(out, at + 1, image, from, above, length, bytewidth, filter);
    assert image[from..from + length] == row;
    WrittenPlaced(out, Placed(before, at, [filter as byte]), at + 1, line);
    PlacedTwice(before, at, [filter as byte], line);
  }

  /** The rows of an image that stands in a buffer from `from` on. */
  lemma RowsInBuffer(image: array<byte>, from: nat, width: nat, y: nat, h: nat, above: Option<nat>)
    requires from + Area(width, h) <= image.Length && Area(width, y) + width == Area(width, y + 1) <= Area(width, h)
    requires above == if y > 0 then Some(from + Area(width, y) - width) else None
    requires y > 0 ==> Area(width, y) == Area(width, y - 1) + width
    ensures image[from + Area(width, y)..from + Area(width, y) + width]
          == Row(image[from..from + Area(width, h)], width, y)
    ensures RowAbove(image, above, width) == Previous(image[from..from + Area(width, h)], width, y)
  {
    hide Area;
    SliceOfBuffer(image, from, Area(width, h), Area(width, y), width);
    if y > 0 { SliceOfBuffer(image, from, Area(width, h), Area(width, y - 1), width); }
  }

  lemma SliceOfBuffer(buf: array<byte>, from: nat, n: nat, m: nat, k: nat)
    requires from + n <= buf.Length && m + k <= n
    ensures buf[from..from + n][m..m + k] == buf[from + m..from + m + k]
  {
    var all := buf[from..from + n];
    var part, here := all[m..m + k], buf[from + m..from + m + k];
    forall i | 0 <= i < k ensures part[i] == here[i] {
      assert all[m + i] == buf[from + m + i];
    }
  }

  // ---------------------------------------------------------------- unfiltering in buffers

  lemma UnfilteredNext(data: seq<byte>, width: nat, bytewidth: nat, n: nat, front: seq<byte>)
    requires bytewidth > 0 && Area(width + 1, n) + 1 + width == Area(width + 1, n + 1) <= |data|
    requires UnfilteredImage(data, width, bytewidth, n) == Some(front)
    ensures UnfilteredImage(data, width, bytewidth, n + 1)
         == if data[Area(width + 1, n)] > 4 then None
            else Some(front + Reconstructed(data[Area(width + 1, n) + 1..Area(width + 1, n + 1)],
                                            Previous(front, width, n), bytewidth,
                                            data[Area(width + 1, n)]))
  {}

  lemma UnfilteredNone(data: seq<byte>, width: nat, bytewidth: nat)
    requires bytewidth > 0
    ensures Area(width + 1, 0) == 0 && UnfilteredImage(data, width, bytewidth, 0) == Some([])
  {
    AreaNext(width, 0);
  }

  /** Once a filter type is wrong the whole image is. */
  lemma {:induction false} UnfilteredFails(data: seq<byte>, width: nat, bytewidth: nat, m: nat, n: nat)
    requires bytewidth > 0 && m <= n && Area(width + 1, m) <= Area(width + 1, n) <= |data|
    requires UnfilteredImage(data, width, bytewidth, m) == None
    ensures UnfilteredImage(data, width, bytewidth, n) == None
    decreases n - m
  {
    if m < n {
      AreaOrder(width + 1, n - 1, n);
      AreaOrder(width + 1, m, n - 1);
      UnfilteredFails(data, width, bytewidth, m, n - 1);
    }
  }

  /** A filter type and its row, read off the buffer. */
  lemma LineHere(data: array<byte>, from: nat, scan: seq<byte>, m: nat, n: nat)
    requires from + |scan| <= data.Length && m + 1 + n <= |scan|
    requires data[..][from + m..from + m + 1 + n] == scan[m..m + 1 + n]
    ensures data[from + m] == scan[m] && data[from + m + 1..from + m + 1 + n] == scan[m + 1..m + 1 + n]
  {
    var here, there := data[..][from + m..from + m + 1 + n], scan[m..m + 1 + n];
    assert forall k | 0 <= k < 1 + n :: here[k] == data[from + (m + k)] && there[k] == scan[m + k];
    var line, expected := data[from + m + 1..from + m + 1 + n], scan[m + 1..m + 1 + n];
    forall k | 0 <= k < n ensures line[k] == expected[k] {
      assert here[k + 1] == there[k + 1];
    }
    assert here[0] == there[0];
  }

  method UnfilterRow(out: array<byte>, at: nat, data: array<byte>, from: nat, linebytes: nat, bytewidth: nat, y: nat,
                     ghost scan: seq<byte>, ghost was: seq<byte>, ghost front: seq<byte>)
    returns (error: nat)
    requires 0 < bytewidth <= linebytes && |was| == out.Length && from + |scan| <= data.Length
    requires at + Area(linebytes, y + 1) <= out.Length
    requires Area(linebytes, y) <= Area(linebytes, y + 1)
    requires Area(linebytes + 1, y) <= Area(linebytes + 1, y + 1) <= |scan|
    requires UnfilteredImage(scan, linebytes, bytewidth, y) == Some(front)
    requires |front| == Area(linebytes, y) && out[..] == Placed(was, at, front)
    requires if out == data then at <= from && scan == was[from..from + |scan|] else scan == data[from..from + |scan|]
    modifies out
    ensures match UnfilteredImage(scan, linebytes, bytewidth, y + 1)
            case None => error == 36
            case Some(r) => error == 0 && out[..] == Placed(was, at, r)
  {
    hide Area, Placed, Reconstructed, UnfilteredImage, Written;
    AreaNext(linebytes, y);
    AreaNext(linebytes + 1, y);
    if y > 0 { AreaNext(linebytes, y - 1); }
    var outindex, inindex := at + Area(linebytes, y), from + Area(linebytes + 1, y);
    ghost var m, before := Area(linebytes + 1, y), out[..];
    StillThere(out == data, out[..], was, at, front, data[..], scan, from, m, m + 1 + linebytes);
    LineHere(data, from, scan, m, linebytes);
    UnfilteredNext(scan, linebytes, bytewidth, y, front);
    var filter := data[inindex];
    var prevline := if y > 0 then Some(outindex - linebytes) else None;
    PreviousInBuffer(out, was, at, front, linebytes, y, prevline);
    hide RowAbove, Previous;
    error := UnfilterScanline(out, outindex, data, inindex + 1, prevline, bytewidth, filter, linebytes);
    if error == 0 {
      ghost var r := Reconstructed(scan[m + 1..m + 1 + linebytes], Previous(front, linebytes, y), bytewidth, filter);
      WrittenPlaced(out, before, outindex, r);
      PlacedTwice(was, at, front, r);
    }
  }

  /** The row above stands where it was written. */
  lemma PreviousInBuffer(out: array<byte>, was: seq<byte>, at: nat, front: seq<byte>, width: nat, y: nat,
                         above: Option<nat>)
    requires at + |front| <= |was| == out.Length && out[..] == Placed(was, at, front) && |front| == Area(width, y)
    requires y > 0 ==> Area(width, y) == Area(width, y - 1) + width
    requires above == if y > 0 then Some(at + Area(width, y) - width) else None
    ensures RowAbove(out, above, width) == Previous(front, width, y)
  {
    hide Area;
    if y > 0 {
      var m := Area(width, y - 1);
      var here := out[at + m..at + m + width];
      assert here == out[..][at + m..at + m + width] == front[m..m + width];
    }
  }

  /** `unfilter`: error 36 exactly when some row carries an unknown filter type. The buffers may be one and the same. */
  method UnfilterImage(out: array<byte>, at: nat, data: array<byte>, from: nat, w: nat, h: nat, bpp: nat)
    returns (error: nat)
    requires LegalBpp(bpp) && (w > 0 || h == 0) && (out == data ==> at <= from)
    requires at + Area(LineBytes(w, bpp), h) <= out.Length && from + Area(LineBytes(w, bpp) + 1, h) <= data.Length
    modifies out
    ensures match old(UnfilteredImage(data[from..from + Area(LineBytes(w, bpp) + 1, h)], LineBytes(w, bpp),
                                      (bpp + 7) / 8, h))
            case None => error == 36
            case Some(r) => error == 0 && out[..] == Placed(old(out[..]), at, r)
  {
    var bytewidth := (bpp + 7) / 8;
    var linebytes := RawSizeIdat(w, 1, bpp) - 1;
    RawSizeIsLineBytes(w, 1, bpp);
    AreaNext(LineBytes(w, bpp) + 1, 0);
    assert linebytes == LineBytes(w, bpp);
    if h > 0 { PixelFits(w, bpp); }
    hide *;
    error := UnfilterRows(out, at, data, from, linebytes, bytewidth, h, data[from..from + Area(linebytes + 1, h)]);
  }

  method UnfilterRows(out: array<byte>, at: nat, data: array<byte>, from: nat, linebytes: nat, bytewidth: nat, h: nat,
                      ghost scan: seq<byte>)
    returns (error: nat)
    requires 0 < bytewidth && (h > 0 ==> bytewidth <= linebytes) && (out == data ==> at <= from)
    requires |scan| == Area(linebytes + 1, h)
    requires at + Area(linebytes, h) <= out.Length && from + Area(linebytes + 1, h) <= data.Length
    requires scan == data[from..from + |scan|]
    modifies out
    ensures match UnfilteredImage(scan, linebytes, bytewidth, h)
            case None => error == 36
            case Some(r) => error == 0 && out[..] == Placed(old(out[..]), at, r)
  {
    hide Area, Placed, UnfilteredImage;
    ghost var was, front := out[..], [];
    assert out == data ==> scan == was[from..from + |scan|];
    UnfilteredNone(scan, linebytes, bytewidth);
    AreaNext(linebytes, 0);
    PlacedNothing(was, at);
    error := 0;
    for y := 0 to h
      invariant Area(linebytes, y) <= Area(linebytes, h) && Area(linebytes + 1, y) <= Area(linebytes + 1, h)
      invariant UnfilteredImage(scan, linebytes, bytewidth, y) == Some(front) && |front| == Area(linebytes, y)
      invariant out[..] == Placed(was, at, front) && error == 0
      invariant out != data ==> scan == data[from..from + |scan|]
    {
      AreaNext(linebytes, y);
      AreaNext(linebytes + 1, y);
      AreaOrder(linebytes, y + 1, h);
      AreaOrder(linebytes + 1, y + 1, h);
      error := UnfilterRow(out, at, data, from, linebytes, bytewidth, y, scan, was, front);
      if error != 0 {
        UnfilteredFails(scan, linebytes, bytewidth, y + 1, h);
        return;
      }
      front := UnfilteredImage(scan, linebytes, bytewidth, y + 1).value;
    }
  }
}
