/** The way of the pixels through the encoder and back through the decoder: colour mode, scanlines, zlib. */
module Codec {
  import opened Wrappers
  import opened Bits
  import opened Buffers
  import opened ImageRows
  import opened Adam7
  import opened ColorTrees
  import opened Colors
  import opened ColorConvert
  import opened ColorChoice
  import opened Scanlines
  import opened Format
  import Inflate
  import opened Deflate
  import opened Zlib

  lemma LegalPixel(mode: ColorMode)
    requires Legal(mode)
    ensures LegalBpp(BitsPerPixel(mode)) && BitsPerPixel(mode) > 0
  {}

  lemma PaletteMissing(mode: ColorMode)
    ensures NoPalette(mode) <==> mode.colortype == Palette && mode.palette == []
  {}

  // ---------------------------------------------------------------- bits, bytes, colours

  lemma AreaOfPixels(bpp: nat, w: nat, h: nat)
    ensures Area(w * bpp, h) == Area(bpp, Area(w, h))
  {
    MulAssoc(bpp, w, h);
  }

  /** Room for the pixels is room for their bits. */
  lemma FitsBits(data: seq<byte>, n: nat, mode: ColorMode)
    requires Legal(mode) && Fits(data, n, mode)
    ensures Area(BitsPerPixel(mode), n) <= 8 * |data|
  {
    if mode.bitdepth == 8 { Eightfold(Channels(mode.colortype), n); }
  }

  lemma SameBitsSameFront(a: seq<byte>, b: seq<byte>, e: nat)
    requires e <= |a| && e <= |b| && PixelBits(a)[..8 * e] == PixelBits(b)[..8 * e]
    ensures a[..e] == b[..e]
  {
    forall q | 0 <= q < e ensures a[q] == b[q] {
      SameBitsSameByte(a, b, e, q);
    }
  }

  lemma SameBitsSameByte(a: seq<byte>, b: seq<byte>, e: nat, q: nat)
    requires q < e <= |a| && e <= |b| && PixelBits(a)[..8 * e] == PixelBits(b)[..8 * e]
    ensures a[q] == b[q]
  {
    hide PixelBits, BitAt;
    forall k | 0 <= k < 8 ensures BitAt(a[q], k) == BitAt(b[q], k) {
      var i := 8 * q + (7 - k);
      PixelBitAt(a, i);
      PixelBitAt(b, i);
      assert PixelBits(a)[i] == PixelBits(a)[..8 * e][i] == PixelBits(b)[..8 * e][i] == PixelBits(b)[i];
    }
    SameBits(a[q], b[q]);
  }

  /** The same bits are the same colours, in every mode. */
  lemma SameBitsSameColours(a: seq<byte>, b: seq<byte>, n: nat, mode: ColorMode)
    requires Legal(mode) && Fits(a, n, mode) && Fits(b, n, mode)
    requires Area(BitsPerPixel(mode), n) <= 8 * |a| && Area(BitsPerPixel(mode), n) <= 8 * |b|
    requires PixelBits(a)[..Area(BitsPerPixel(mode), n)] == PixelBits(b)[..Area(BitsPerPixel(mode), n)]
    ensures ColoursOf(a, n, mode) == ColoursOf(b, n, mode)
  {
    hide PixelBits, PixelAt, ColoursOf;
    if mode.bitdepth == 8 {
      var e := Area(Channels(mode.colortype), n);
      Eightfold(Channels(mode.colortype), n);
      SameBitsSameFront(a, b, e);
      SamePixelsAll(a, b, e, n, mode);
    } else {
      forall i | 0 <= i < n ensures ColoursOf(a, n, mode)[i] == ColoursOf(b, n, mode)[i] {
        SameBitsSameColour(a, b, n, mode, i);
      }
    }
  }

  lemma SameBitsSameColour(a: seq<byte>, b: seq<byte>, n: nat, mode: ColorMode, i: nat)
    requires Legal(mode) && mode.bitdepth < 8 && Fits(a, n, mode) && Fits(b, n, mode) && i < n
    requires PixelBits(a)[..Area(mode.bitdepth, n)] == PixelBits(b)[..Area(mode.bitdepth, n)]
    ensures Fits(a, i + 1, mode) && Fits(b, i + 1, mode) && PixelAt(a, i, mode) == PixelAt(b, i, mode)
  {
    hide PixelBits, FromBits, Area;
    FitsFewer(a, i + 1, n, mode);
    FitsFewer(b, i + 1, n, mode);
    SamePiece(PixelBits(a), PixelBits(b), mode.bitdepth, n, i);
  }

  // ---------------------------------------------------------------- scanlines of either kind

  /** The size of the scanlines of an image. */
  ghost function ImageSize(w: nat, h: nat, bpp: nat, interlaced: bool): nat {
    if interlaced then FilterStart(w, h, bpp, 7) else Area(LineBytes(w, bpp) + 1, h)
  }

  ghost predicate StoresImage(data: seq<byte>, raw: seq<byte>, w: nat, h: nat, bpp: nat, interlaced: bool) {
    && bpp > 0 && Area(w * bpp, h) <= 8 * |raw| && |data| == ImageSize(w, h, bpp, interlaced)
    && if interlaced then StoresPasses(data, raw, w, h, bpp, 7) else StoresPlain(data, raw, w, h, bpp)
  }

  /** Every scanline has a known filter type. */
  ghost predicate Readable(data: seq<byte>, w: nat, h: nat, bpp: nat, interlaced: bool) {
    && |data| == ImageSize(w, h, bpp, interlaced) && bpp > 0
    && if interlaced then AllRows(data, w, h, bpp, 7) else Rows(data, w, h, bpp).Some?
  }

  /** What the decoder answers for a stream, apart from the codes of the inflater. */
  ghost predicate RightError(error: nat, stream: seq<byte>, w: nat, h: nat, bpp: nat, interlaced: bool,
                             settings: DecompressSettings) {
    match Decompressed(stream, settings)
    case None => error != 0
    case Some(d) =>
      if |d| != ImageSize(w, h, bpp, interlaced) then error == 91
      else error == if Readable(d, w, h, bpp, interlaced) then 0 else 36
  }

  lemma PlainSize(data: seq<byte>, raw: seq<byte>, w: nat, h: nat, bpp: nat)
    requires StoresPlain(data, raw, w, h, bpp) && bpp > 0
    ensures |data| == Area(LineBytes(w, bpp) + 1, h)
  {
    hide Area, PixelBits, Rows, PackedBits, LineBytes;
    if bpp < 8 {
      Scanlines.StoredBits(data, PixelBits(raw)[..Area(w * bpp, h)], w, h, bpp);
    } else {
      StoredBytes(data, raw[..Area(LineBytes(w, bpp), h)], w, h, bpp);
    }
  }

  /** `preProcessScanlines`; row `y` of pass `i` is filtered by `choice(i, y)`. */
  method PreProcess(raw: array<byte>, w: nat, h: nat, bpp: nat, interlaced: bool, choice: (nat, nat) -> nat)
    returns (data: array<byte>)
    requires LegalBpp(bpp) && bpp > 0 && w > 0 && Area(w * bpp, h) <= 8 * raw.Length && forall i, y :: choice(i, y) <= 4
    ensures fresh(data) && StoresImage(data[..], raw[..], w, h, bpp, interlaced)
  {
    hide Area, LegalBpp, StoresPasses, StoresPlain, FilterStart, LineBytes;
    AreaOfPixels(bpp, w, h);
    if interlaced {
      data := PreProcessInterlaced(raw, w, h, bpp, choice);
    } else {
      data := PreProcessPlain(raw, w, h, bpp, RowTypes(choice, 0, h));
      PlainSize(data[..], raw[..], w, h, bpp);
    }
  }

  /** `out` has the pixels of the scanlines, whatever stands in their padding. */
  ghost predicate Shown(out: seq<byte>, data: seq<byte>, w: nat, h: nat, bpp: nat, interlaced: bool) {
    hide Area, FilterStart, AllRows, Rows, ImageSize, LineBytes;
    && Readable(data, w, h, bpp, interlaced) && Area(w * bpp, h) <= 8 * |out|
    && (if interlaced then ShownPasses(out, data, w, h, bpp) else ShownPlain(out, data, w, h, bpp))
  }

  ghost predicate ShownPasses(out: seq<byte>, data: seq<byte>, w: nat, h: nat, bpp: nat)
    requires Readable(data, w, h, bpp, true)
  {
    hide Area, FilterStart, AllRows;
    FromPasses(out, data, w, h, bpp)
  }

  ghost predicate ShownPlain(out: seq<byte>, data: seq<byte>, w: nat, h: nat, bpp: nat)
    requires Readable(data, w, h, bpp, false) && Area(w * bpp, h) <= 8 * |out|
  {
    var rows := Rows(data, w, h, bpp).value;
    if bpp < 8 then PixelBits(out)[..Area(w * bpp, h)] == PackedBits(rows, w, h, bpp) else rows <= out
  }

  /** `postProcessScanlines`: error 36 exactly for an unknown filter type, else the pixels of the scanlines. */
  method PostProcess(out: array<byte>, data: array<byte>, w: nat, h: nat, bpp: nat, interlaced: bool,
                     ghost raw: seq<byte>)
    returns (error: nat)
    requires out != data && LegalBpp(bpp) && bpp > 0 && w > 0 && Area(w * bpp, h) <= 8 * out.Length
    requires data.Length == ImageSize(w, h, bpp, interlaced)
    modifies out, data
    ensures error == if old(Readable(data[..], w, h, bpp, interlaced)) then 0 else 36
    ensures error == 0 ==> Shown(out[..], old(data[..]), w, h, bpp, interlaced)
    ensures old(StoresImage(data[..], raw, w, h, bpp, interlaced)) ==>
              error == 0 && PixelBits(out[..])[..Area(w * bpp, h)] == PixelBits(raw)[..Area(w * bpp, h)]
  {
    hide Area, LegalBpp, StoresPasses, StoresPlain, FilterStart, LineBytes, AllRows, Rows, FromPasses, PixelBits,
        PackedBits;
    ghost var was := data[..];
    AreaOfPixels(bpp, w, h);
    if interlaced {
      error := PostProcessInterlaced(out, data, w, h, bpp);
      if StoresImage(was, raw, w, h, bpp, interlaced) { InterlacedRoundTrip(was, raw, out[..], w, h, bpp); }
    } else {
      error := PostProcessPlain(out, data, w, h, bpp);
      if error == 0 { RowsShown(out[..], was, w, h, bpp); }
      if StoresImage(was, raw, w, h, bpp, interlaced) { PlainBack(was, raw, out[..], w, h, bpp); }
    }
  }

  lemma RowsShown(out: seq<byte>, data: seq<byte>, w: nat, h: nat, bpp: nat)
    requires Readable(data, w, h, bpp, false) && Area(w * bpp, h) <= 8 * |out|
    requires bpp < 8 ==> PixelBits(out)[..Area(w * bpp, h)] == PackedBits(Rows(data, w, h, bpp).value, w, h, bpp)
    requires bpp >= 8 ==>
               && Area(LineBytes(w, bpp), h) <= |out|
               && out[..Area(LineBytes(w, bpp), h)] == Rows(data, w, h, bpp).value
    ensures ShownPlain(out, data, w, h, bpp)
  {
    hide PixelBits, PackedBits, Rows, Area, LineBytes;
  }

  lemma PlainBack(data: seq<byte>, raw: seq<byte>, out: seq<byte>, w: nat, h: nat, bpp: nat)
    requires LegalBpp(bpp) && bpp > 0 && StoresImage(data, raw, w, h, bpp, false)
    requires Rows(data, w, h, bpp).Some? ==>
               && Area(w * bpp, h) <= 8 * |out|
               && (bpp < 8 ==> PixelBits(out)[..Area(w * bpp, h)] == PackedBits(Rows(data, w, h, bpp).value, w, h, bpp))
               && (bpp >= 8 ==>
                     && Area(LineBytes(w, bpp), h) <= |out|
                     && out[..Area(LineBytes(w, bpp), h)] == Rows(data, w, h, bpp).value)
    ensures Rows(data, w, h, bpp).Some? && Area(w * bpp, h) <= 8 * |out|
    ensures PixelBits(out)[..Area(w * bpp, h)] == PixelBits(raw)[..Area(w * bpp, h)]
  {
    hide Area, LegalBpp, StoresPlain, LineBytes, Rows, PixelBits, PackedBits;
    PlainRoundTrip(data, raw, out, w, h, bpp);
  }

  // ---------------------------------------------------------------- encoder and decoder

  /** The stream holds scanlines of an image with these colours. */
  ghost predicate Holds(stream: seq<byte>, scanlines: seq<byte>, raw: seq<byte>, px: seq<Rgba>, mode: ColorMode, w: nat,
                        h: nat, interlaced: bool)
  {
    && Legal(mode) && !NoPalette(mode)
    && DecompressesTo(stream, scanlines) && StoresImage(scanlines, raw, w, h, BitsPerPixel(mode), interlaced)
    && Fits(raw, Area(w, h), mode) && ColoursOf(raw, Area(w, h), mode) == px
  }

  /** Scanlines and compression: what the encoder does with pixels in the mode of the file. */
  method Pack(raw: array<byte>, mode: ColorMode, w: nat, h: nat, interlaced: bool, choice: (nat, nat) -> nat,
              settings: CompressSettings)
    returns (error: nat, stream: seq<byte>, ghost scanlines: seq<byte>)
    requires w > 0 && h > 0 && Legal(mode) && !NoPalette(mode) && Fits(raw[..], Area(w, h), mode)
    requires forall i, y :: choice(i, y) <= 4
    ensures error == DeflateError(settings)
    ensures error == 0 ==> Holds(stream, scanlines, raw[..], ColoursOf(raw[..], Area(w, h), mode), mode, w, h,
                                 interlaced)
  {
    hide Area, LegalBpp, Legal, Fits, ColoursOf, PixelAt, StoresImage, DecompressesTo, DeflateError, BitsPerPixel;
    var bpp := BitsPerPixel(mode);
    LegalPixel(mode);
    FitsBits(raw[..], Area(w, h), mode);
    AreaOfPixels(bpp, w, h);
    var data := PreProcess(raw, w, h, bpp, interlaced, choice);
    scanlines := data[..];
    SomeScanlines(scanlines, raw[..], w, h, bpp, interlaced);
    error, stream := ZlibCompress(data[..], settings);
  }

  ghost function EncodeError(settings: CompressSettings, modeIn: ColorMode): nat {
    if settings.btype > 2 then 61 else if NoPalette(modeIn) then 107 else DeflateError(settings)
  }

  /** From an image to the compressed data of its PNG file, in a mode chosen for it. `px` are the colours that get
      there. */
  method Encode(image: array<byte>, modeIn: ColorMode, w: nat, h: nat, interlaced: bool, choice: (nat, nat) -> nat,
                settings: CompressSettings, allowPalette: bool, allowGreyscale: bool)
    returns (error: nat, mode: ColorMode, stream: seq<byte>, ghost scanlines: seq<byte>, ghost raw: seq<byte>,
             ghost px: seq<Rgba>)
    requires w > 0 && h > 0 && Legal(modeIn) && Fits(image[..], Area(w, h), modeIn) && forall i, y :: choice(i, y) <= 4
    ensures error == EncodeError(settings, modeIn)
    ensures error == 0 ==> Holds(stream, scanlines, raw, px, mode, w, h, interlaced)
    ensures error == 0 ==>
              (px == ColoursOf(image[..], Area(w, h), modeIn)
               <==> !Loses(ColoursOf(image[..], Area(w, h), modeIn), BitsPerPixel(modeIn), allowPalette,
                           allowGreyscale))
  {
    hide Area, Legal, Fits, ColoursOf, PixelAt, Holds, BitsPerPixel, Loses;
    stream, scanlines, raw, px, mode := [], [], [], [], modeIn;
    if settings.btype > 2 { return 61, mode, stream, scanlines, raw, px; }
    var converted;
    error, mode, converted := AutoConvert(image, Area(w, h), modeIn, allowPalette, allowGreyscale);
    if error != 0 { return; }
    raw := converted[..];
    px := ColoursOf(raw, Area(w, h), mode);
    error, stream, scanlines := Pack(converted, mode, w, h, interlaced, choice, settings);
  }

  /** What an image becomes in a given mode. */
  ghost predicate Becomes(px: seq<Rgba>, px': seq<Rgba>, mode: ColorMode)
    requires Legal(mode)
  {
    |px'| == |px| && forall t | 0 <= t < |px| :: Projected(px[t], mode) == Some(px'[t])
  }

  /** The same in a mode that is given: error 68 for a palette of no or more than 256 colours, 107 for a missing one, 82
      for a colour that is not in it. */
  method EncodeAs(image: array<byte>, modeIn: ColorMode, mode: ColorMode, w: nat, h: nat, interlaced: bool,
                  choice: (nat, nat) -> nat, settings: CompressSettings)
    returns (error: nat, stream: seq<byte>, ghost scanlines: seq<byte>, ghost raw: seq<byte>, ghost px: seq<Rgba>)
    requires w > 0 && h > 0 && Legal(modeIn) && Legal(mode) && Fits(image[..], Area(w, h), modeIn)
    requires forall i, y :: choice(i, y) <= 4
    ensures mode.colortype == Palette && (mode.palette == [] || |mode.palette| > 256) ==> error == 68
    ensures !(mode.colortype == Palette && (mode.palette == [] || |mode.palette| > 256)) ==>
              if settings.btype > 2 then error == 61
              else if mode != modeIn && NoPalette(modeIn) then error == 107
              else if mode != modeIn
                   && (exists c :: c in ColoursOf(image[..], Area(w, h), modeIn) && Projected(c, mode).None?)
                then error == 82
              else error == DeflateError(settings)
    ensures error == 0 ==> Holds(stream, scanlines, raw, px, mode, w, h, interlaced)
    ensures error == 0 ==>
              if mode == modeIn then px == ColoursOf(image[..], Area(w, h), modeIn)
                  else Becomes(ColoursOf(image[..], Area(w, h), modeIn), px, mode)
  {
    hide Area, Legal, Fits, ColoursOf, PixelAt, Holds, ColorConvert.Stored, Becomes, Projected, RawSize;
    stream, scanlines, raw, px := [], [], [], [];
    if mode.colortype == Palette && (mode.palette == [] || |mode.palette| > 256) {
      return 68, stream, scanlines, raw, px;
    }
    if settings.btype > 2 { return 61, stream, scanlines, raw, px; }
    ghost var all, colours := image[..], ColoursOf(image[..], Area(w, h), modeIn);
    var converted := image;
    if mode != modeIn {
      converted := new byte[RawSize(Area(w, h), mode)];
      RoomFor(converted[..], Area(w, h), mode);
      error := Convert(converted, image, mode, modeIn, Area(w, h));
      assert image[..] == all;
      AnyMissing(colours, mode);
      if error != 0 { return; }
      StoredBecomes(converted[..], colours, mode, Area(w, h));
    }
    raw := converted[..];
    px := ColoursOf(raw, Area(w, h), mode);
    error, stream, scanlines := Pack(converted, mode, w, h, interlaced, choice, settings);
  }

  lemma AnyMissing(px: seq<Rgba>, mode: ColorMode)
    requires Legal(mode)
    ensures (exists c :: c in px && Projected(c, mode).None?) <==>
          !forall t | 0 <= t < |px| :: Projected(px[t], mode).Some?
  {
    hide Projected;
    if exists c :: c in px && Projected(c, mode).None? {
      var c :| c in px && Projected(c, mode).None?;
      var t :| 0 <= t < |px| && px[t] == c;
    }
    if t: nat :| t < |px| && Projected(px[t], mode).None? {
      assert px[t] in px;
    }
  }

  lemma StoredBecomes(out: seq<byte>, px: seq<Rgba>, mode: ColorMode, n: nat)
    requires Legal(mode) && |px| == n && ColorConvert.Stored(out, px, mode, n)
    ensures Fits(out, n, mode) && Becomes(px, ColoursOf(out, n, mode), mode)
  {
    hide PixelAt, Projected, Fits;
    forall t | 0 <= t < n ensures Projected(px[t], mode) == Some(ColoursOf(out, n, mode)[t]) {
      assert IsStored(out, t, px[t], mode);
    }
  }

  lemma SomeScanlines(data: seq<byte>, raw: seq<byte>, w: nat, h: nat, bpp: nat, interlaced: bool)
    requires w > 0 && h > 0 && StoresImage(data, raw, w, h, bpp, interlaced)
    ensures data != []
  {
    hide FilterStart, StoresPasses, StoresPlain, LineBytes;
    if interlaced {
      FirstPass(w, h, bpp);
    } else {
      AreaNext(LineBytes(w, bpp), h);
    }
  }

  lemma FirstPass(w: nat, h: nat, bpp: nat)
    requires w > 0 && h > 0
    ensures FilterStart(w, h, bpp, 7) > 0
  {
    PredictedSize(w, h, bpp);
    RawSizeIsLineBytes((w + 7) / 8, (h + 7) / 8, bpp);
    AreaNext(LineBytes((w + 7) / 8, bpp), (h + 7) / 8);
  }

  /** An RGBA buffer with these colours. */
  ghost predicate Shows(out: seq<byte>, n: nat, px: seq<Rgba>) {
    Fits(out, n, RGBA8) && ColoursOf(out, n, RGBA8) == px
  }

  /** `decodeGeneric` behind the chunks, and the conversion to RGBA of `lodepng_decode`. */
  method Decode(stream: seq<byte>, mode: ColorMode, w: nat, h: nat, interlaced: bool, settings: DecompressSettings,
                ghost scanlines: seq<byte>, ghost raw: seq<byte>, ghost px: seq<Rgba>)
    returns (error: nat, out: array<byte>, ghost pixels: seq<byte>)
    requires w > 0 && h > 0 && Legal(mode)
    ensures if NoPalette(mode) then error == 106
          else RightError(error, stream, w, h, BitsPerPixel(mode), interlaced, settings)
    ensures error == 0 ==> RightPixels(out[..], pixels, stream, mode, w, h, interlaced, settings)
    ensures error == 0 && mode.colortype == Rgb ==> ShowsRgb(out[..], pixels, Area(w, h), mode.key)
    ensures (Holds(stream, scanlines, raw, px, mode, w, h, interlaced)
             && !TooLarge(|scanlines|, settings.maxOutputSize)) ==>
              error == 0 && Shows(out[..], Area(w, h), px)
  {
    hide *;
    LegalPixel(mode);
    assert NoPalette(mode) <==> mode.colortype == Palette && mode.palette == [] by { PaletteMissing(mode); }
    if Holds(stream, scanlines, raw, px, mode, w, h, interlaced) && !TooLarge(|scanlines|, settings.maxOutputSize) {
      HoldsParts(stream, scanlines, raw, px, mode, w, h, interlaced, settings);
    }
    out, pixels := new byte[0], [];
    if mode.colortype == Palette && mode.palette == [] { return 106, out, pixels; }
    var data;
    error, data := ReadScanlines(stream, w, h, BitsPerPixel(mode), interlaced, settings);
    if error != 0 {
      EarlyErrorIsRight(error, stream, w, h, BitsPerPixel(mode), interlaced, settings);
      return;
    }
    ghost var d := data[..];
    error, out := ReadPixels(data, mode, w, h, interlaced, raw);
    ErrorIsRight(error, stream, d, w, h, BitsPerPixel(mode), interlaced, settings);
    if error != 0 { return; }
    pixels := out[..];
    error, out := ToRgba(out, mode, Area(w, h));
    PixelsAreRight(out[..], pixels, stream, d, mode, w, h, interlaced, settings);
    RgbIsRight(out[..], pixels, stream, mode, w, h, interlaced, settings);
  }

  lemma RgbIsRight(out: seq<byte>, pixels: seq<byte>, stream: seq<byte>, mode: ColorMode, w: nat, h: nat,
                   interlaced: bool, settings: DecompressSettings)
    requires RightPixels(out, pixels, stream, mode, w, h, interlaced, settings)
    ensures mode.colortype == Rgb ==> ShowsRgb(out, pixels, Area(w, h), mode.key)
  {
    hide Legal, Decompressed, Shown, Fits, BitsPerPixel, BytesShown, Area;
    RgbBytes(out, pixels, Area(w, h), mode);
  }

  /** The pixels of the scanlines in the mode of the file, and the same colours as RGBA. */
  ghost predicate RightPixels(out: seq<byte>, pixels: seq<byte>, stream: seq<byte>, mode: ColorMode, w: nat, h: nat,
                              interlaced: bool, settings: DecompressSettings)
  {
    && Legal(mode) && Decompressed(stream, settings).Some?
    && Shown(pixels, Decompressed(stream, settings).value, w, h, BitsPerPixel(mode), interlaced)
    && Fits(pixels, Area(w, h), mode) && BytesShown(out, pixels, Area(w, h), mode)
  }

  lemma PixelsAreRight(out: seq<byte>, pixels: seq<byte>, stream: seq<byte>, d: seq<byte>, mode: ColorMode, w: nat,
                       h: nat, interlaced: bool, settings: DecompressSettings)
    requires Legal(mode) && Decompressed(stream, settings) == Some(d)
    requires Shown(pixels, d, w, h, BitsPerPixel(mode), interlaced)
    requires Fits(pixels, Area(w, h), mode) && Shows(out, Area(w, h), ColoursOf(pixels, Area(w, h), mode))
    ensures RightPixels(out, pixels, stream, mode, w, h, interlaced, settings)
  {
    hide Legal, Decompressed, Shown, Fits, ColoursOf, BitsPerPixel, BytesShown;
    SameColoursShown(out, pixels, Area(w, h), mode);
  }

  lemma EarlyErrorIsRight(error: nat, stream: seq<byte>, w: nat, h: nat, bpp: nat, interlaced: bool,
                          settings: DecompressSettings)
    requires error != 0
    requires Decompressed(stream, settings).Some? ==>
          |Decompressed(stream, settings).value| != ImageSize(w, h, bpp, interlaced) && error == 91
    ensures RightError(error, stream, w, h, bpp, interlaced, settings)
  {
    hide Decompressed, ImageSize, Readable;
  }

  lemma ErrorIsRight(error: nat, stream: seq<byte>, d: seq<byte>, w: nat, h: nat, bpp: nat, interlaced: bool,
                     settings: DecompressSettings)
    requires Decompressed(stream, settings) == Some(d) && |d| == ImageSize(w, h, bpp, interlaced)
    requires error == if Readable(d, w, h, bpp, interlaced) then 0 else 36
    ensures RightError(error, stream, w, h, bpp, interlaced, settings)
  {
    hide Decompressed, ImageSize, Readable;
  }

  lemma HoldsParts(stream: seq<byte>, scanlines: seq<byte>, raw: seq<byte>, px: seq<Rgba>, mode: ColorMode, w: nat,
                   h: nat, interlaced: bool, s: DecompressSettings)
    requires Holds(stream, scanlines, raw, px, mode, w, h, interlaced) && !TooLarge(|scanlines|, s.maxOutputSize)
    ensures Legal(mode) && !NoPalette(mode) && Decompressed(stream, s) == Some(scanlines)
    ensures StoresImage(scanlines, raw, w, h, BitsPerPixel(mode), interlaced)
    ensures |scanlines| == ImageSize(w, h, BitsPerPixel(mode), interlaced)
    ensures Fits(raw, Area(w, h), mode) && ColoursOf(raw, Area(w, h), mode) == px
  {
    hide Legal, Decompressed, StoresPasses, StoresPlain, ImageSize, Fits, ColoursOf, BitsPerPixel;
  }

  /** The scanlines of a stream; error 91 when there are more or fewer than expected. */
  method ReadScanlines(stream: seq<byte>, w: nat, h: nat, bpp: nat, interlaced: bool, settings: DecompressSettings)
    returns (error: nat, data: array<byte>)
    requires w > 0 && h > 0
    ensures match Decompressed(stream, settings)
            case None => error != 0
            case Some(d) => if |d| != ImageSize(w, h, bpp, interlaced) then error == 91 else error == 0 && data[..] == d
    ensures fresh(data)
  {
    hide DecompressedAfter, ImageSize;
    var expected := Expected(w, h, bpp, interlaced);
    var vector := new Inflate.ByteVector();
    data := new byte[0];
    error := ZlibDecompressV(vector, stream, settings);
    if error != 0 { return; }
    if |vector.data| != expected { return 91, data; }
    data := new byte[expected](i requires 0 <= i < |vector.data| reads vector => vector.data[i]);
    assert data[..] == vector.data;
  }

  /** The pixels of the scanlines, still in the mode of the file. */
  method ReadPixels(data: array<byte>, mode: ColorMode, w: nat, h: nat, interlaced: bool, ghost raw: seq<byte>)
    returns (error: nat, out: array<byte>)
    requires w > 0 && Legal(mode) && BitsPerPixel(mode) > 0
    requires data.Length == ImageSize(w, h, BitsPerPixel(mode), interlaced)
    modifies data
    ensures error == if old(Readable(data[..], w, h, BitsPerPixel(mode), interlaced)) then 0 else 36
    ensures fresh(out) && Fits(out[..], Area(w, h), mode)
    ensures error == 0 ==> Shown(out[..], old(data[..]), w, h, BitsPerPixel(mode), interlaced)
    ensures old(StoresImage(data[..], raw, w, h, BitsPerPixel(mode), interlaced)) && Fits(raw, Area(w, h), mode) ==>
              error == 0 && ColoursOf(out[..], Area(w, h), mode) == ColoursOf(raw, Area(w, h), mode)
  {
    hide *;
    LegalPixel(mode);
    ghost var was := data[..];
    var bpp, n := BitsPerPixel(mode), Area(w, h);
    AreaOfPixels(bpp, w, h);
    out := new byte[RawSize(n, mode)](_ => 0);
    RoomFor(out[..], n, mode);
    FitsBits(out[..], n, mode);
    error := PostProcess(out, data, w, h, bpp, interlaced, raw);
    StillFits(out[..], n, mode);
    if StoresImage(was, raw, w, h, bpp, interlaced) && Fits(raw, n, mode) {
      FitsBits(raw, n, mode);
      SameBitsSameColours(out[..], raw, n, mode);
    }
  }

  lemma StillFits(out: seq<byte>, n: nat, mode: ColorMode)
    requires Legal(mode) && |out| == RawSize(n, mode)
    ensures Fits(out, n, mode) && Area(BitsPerPixel(mode), n) <= 8 * |out|
  {
    hide Legal, Fits, RawSize, BitsPerPixel, Area;
    RoomFor(out, n, mode);
    FitsBits(out, n, mode);
  }

  /** The conversion the decoder does when the file is not RGBA already. */
  method ToRgba(pixels: array<byte>, mode: ColorMode, n: nat) returns (error: nat, out: array<byte>)
    requires Legal(mode) && Fits(pixels[..], n, mode) && !NoPalette(mode)
    ensures error == 0 && Shows(out[..], n, ColoursOf(pixels[..], n, mode))
  {
    hide Legal, Fits, ColoursOf;
    if mode == RGBA8 { return 0, pixels; }
    ghost var all := pixels[..];
    out := new byte[4 * n];
    RoomForRgba(out[..], n);
    error := ConvertBack(out, pixels, mode, n);
    assert pixels[..] == all;
  }

  method Expected(w: nat, h: nat, bpp: nat, interlaced: bool) returns (size: nat)
    requires w > 0 && h > 0
    ensures size == ImageSize(w, h, bpp, interlaced)
  {
    hide Area, FilterStart, LineBytes, ExpectedSize, RawSizeIdat;
    PredictedSize(w, h, bpp);
    RawSizeIsLineBytes(w, h, bpp);
    size := if interlaced then ExpectedSize(w, h, bpp) else RawSizeIdat(w, h, bpp);
  }

  /** What is encoded is decoded: images of any size and mode, for all settings the encoder accepts, all filter types,
      interlaced or not, under every sufficient size limit. All colours come back if and only if the chosen mode keeps
      them; RGBA images always come back. */
  method EncodeThenDecode(image: array<byte>, modeIn: ColorMode, w: nat, h: nat, interlaced: bool,
                          choice: (nat, nat) -> nat, settings: CompressSettings, allowPalette: bool,
                          allowGreyscale: bool, back: DecompressSettings)
    returns (error: nat, mode: ColorMode, error': nat, out: array<byte>)
    requires w > 0 && h > 0 && Legal(modeIn) && Fits(image[..], Area(w, h), modeIn) && forall i, y :: choice(i, y) <= 4
    ensures error == EncodeError(settings, modeIn)
    ensures error == 0 && !TooLarge(ImageSize(w, h, BitsPerPixel(mode), interlaced), back.maxOutputSize) ==>
              && error' == 0 && Fits(out[..], Area(w, h), RGBA8)
              && (BytesShown(out[..], image[..], Area(w, h), modeIn)
                  <==> !Loses(ColoursOf(image[..], Area(w, h), modeIn), BitsPerPixel(modeIn), allowPalette,
                              allowGreyscale))
    ensures (error == 0 && modeIn == RGBA8
             && !TooLarge(ImageSize(w, h, BitsPerPixel(mode), interlaced), back.maxOutputSize)) ==>
              && 4 * Area(w, h) <= image.Length && 4 * Area(w, h) <= out.Length
              && out[..4 * Area(w, h)] == image[..4 * Area(w, h)]
  {
    hide Area, Fits, ColoursOf, Holds, EncodeError, PixelAt, Decompressed, Readable, ImageSize, BitsPerPixel, Loses,
        Legal, RightPixels, RightError, BytesShown;
    ghost var all := image[..];
    var stream;
    ghost var scanlines, raw, px, pixels;
    out := image;
    error' := 0;
    error, mode, stream, scanlines, raw, px :=
        Encode(image, modeIn, w, h, interlaced, choice, settings, allowPalette, allowGreyscale);
    if error != 0 { return; }
    HoldsLegal(stream, scanlines, raw, px, mode, w, h, interlaced);
    error', out, pixels := Decode(stream, mode, w, h, interlaced, back, scanlines, raw, px);
    assert image[..] == all;
    if !TooLarge(|scanlines|, back.maxOutputSize) { SameColoursShown(out[..], all, Area(w, h), modeIn); }
    if !TooLarge(|scanlines|, back.maxOutputSize) && modeIn == RGBA8 {
      RgbaNeverLoses(all, Area(w, h), allowPalette, allowGreyscale);
      ColoursAreBytes(out[..], all, Area(w, h));
      assert out[..4 * Area(w, h)] == out[..][..4 * Area(w, h)];
    }
  }

  lemma HoldsLegal(stream: seq<byte>, scanlines: seq<byte>, raw: seq<byte>, px: seq<Rgba>, mode: ColorMode, w: nat,
                   h: nat, interlaced: bool)
    requires Holds(stream, scanlines, raw, px, mode, w, h, interlaced)
    ensures Legal(mode) && |scanlines| == ImageSize(w, h, BitsPerPixel(mode), interlaced)
  {
    hide DecompressesTo, StoresPasses, StoresPlain, ImageSize, ColoursOf;
  }
}
