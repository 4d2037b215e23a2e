/** `lodepng_convert` between the modes with at most eight bits per channel. */
module ColorConvert {
  import opened Wrappers
  import opened Bits
  import opened Buffers
  import Adam7
  import opened ColorTrees
  import opened Colors
  import Scanlines

  lemma HoldsNoRgb(out: seq<byte>, target: seq<Rgba>)
    requires Area(3, |target|) <= |out|
    ensures HoldsRgb(out, target, 0)
  {}

  /** Byte `p` of RGB data shows pixel `p / 3`. */
  ghost predicate RgbByteShown(out: seq<byte>, data: seq<byte>, p: nat, mode: ColorMode)
    requires Legal(mode) && Fits(data, p / 3 + 1, mode) && p < |out|
  {
    ColourIs(data, p / 3, mode);
    var t, q, bits := p / 3, p % 3, mode.bitdepth;
    match mode.colortype
    case Rgb => out[p] == data[p]
    case GreyAlpha => out[p] == data[2 * t]
    case RgbAlpha => out[p] == data[4 * t + q]
    case Grey =>
      out[p] as int == SampleIn(data, bits, t)
        * (if bits == 1 then 255 else if bits == 2 then 85 else if bits == 4 then 17 else 1)
    case Palette =>
      var v := SampleIn(data, bits, t);
      var c := if v < |mode.palette| then mode.palette[v] else Rgba(0, 0, 0, 255);
      out[p] == [c.r, c.g, c.b][q]
  }

  ghost predicate RgbBytesShown(out: seq<byte>, data: seq<byte>, n: nat, mode: ColorMode)
    requires Legal(mode) && Fits(data, n, mode)
  {
    AllFit(data, n, mode);
    3 * n <= |out| && forall p | 0 <= p < 3 * n :: RgbByteShown(out, data, p, mode)
  }

  lemma RgbPixelShown(out: seq<byte>, data: seq<byte>, p: nat, mode: ColorMode)
    requires Legal(mode) && Fits(data, p / 3 + 1, mode) && IsRgb(out, p / 3, PixelAt(data, p / 3, mode))
    ensures p < |out| && RgbByteShown(out, data, p, mode)
  {
    hide Fits, PixelAt, SampleIn, Widen, Highest, Pow2;
    var t := p / 3;
    ColourIs(data, t, mode);
    if mode.colortype == Grey { WidenIs(SampleIn(data, mode.bitdepth, t), mode.bitdepth); }
  }

  lemma RgbColoursShown(out: seq<byte>, data: seq<byte>, n: nat, mode: ColorMode)
    requires Legal(mode) && Fits(data, n, mode) && HoldsRgb(out, ColoursOf(data, n, mode), n)
    ensures RgbBytesShown(out, data, n, mode)
  {
    hide Fits, PixelAt, RgbByteShown, IsRgb, Legal;
    AllFit(data, n, mode);
    AreaIs(3, n);
    forall p | 0 <= p < 3 * n ensures RgbByteShown(out, data, p, mode) {
      RgbPixelShown(out, data, p, mode);
    }
  }

  lemma RgbCopied(out: seq<byte>, data: seq<byte>, n: nat, mode: ColorMode)
    requires mode.colortype == Rgb && Legal(mode) && Fits(data, n, mode) && RgbBytesShown(out, data, n, mode)
    ensures 3 * n <= |data| && 3 * n <= |out| && out[..3 * n] == data[..3 * n]
  {
    AllFit(data, n, mode);
    AreaIs(3, n);
    hide PixelAt;
    forall p | 0 <= p < 3 * n ensures out[p] == data[p] {
      assert RgbByteShown(out, data, p, mode);
    }
  }

  /** `getPixelColorsRGB8`: colours without their alpha. */
  method GetPixelColorsRGB8(out: array<byte>, n: nat, data: array<byte>, mode: ColorMode)
    requires out != data && Legal(mode) && Fits(data[..], n, mode) && Area(3, n) <= out.Length
    modifies out
    ensures HoldsRgb(out[..], ColoursOf(data[..], n, mode), n) && RgbBytesShown(out[..], data[..], n, mode)
    ensures mode.colortype == Rgb ==>
              && 3 * n <= data.Length && 3 * n <= out.Length && out[..3 * n] == data[..3 * n]
  {
    hide Area, ColoursOf, PixelAt, FromSample, HoldsRgb, RgbBytesShown;
    ghost var target, all := ColoursOf(data[..], n, mode), data[..];
    HoldsNoRgb(out[..], target);
    if mode.colortype == Grey || mode.colortype == Palette {
      AreaNext(mode.bitdepth, 0);
      var j := 0;
      for i := 0 to n
        invariant j == Area(mode.bitdepth, i) && HoldsRgb(out[..], target, i)
      {
        assert data[..] == all;
        var value;
        value, j := NextSample(data, i, mode, j, n);
        var c := FromSample(value, mode);
        PutRgb(out, i, c.r, c.g, c.b, target);
      }
    } else {
      for i := 0 to n
        invariant HoldsRgb(out[..], target, i)
      {
        assert data[..] == all;
        ByteColour(all, n, mode, i);
        if mode.colortype == Rgb {
          PutRgb(out, i, data[i * 3], data[i * 3 + 1], data[i * 3 + 2], target);
        } else if mode.colortype == GreyAlpha {
          PutRgb(out, i, data[i * 2], data[i * 2], data[i * 2], target);
        } else {
          PutRgb(out, i, data[i * 4], data[i * 4 + 1], data[i * 4 + 2], target);
        }
      }
    }
    assert data[..] == all;
    RgbColoursShown(out[..], all, n, mode);
    if mode.colortype == Rgb {
      RgbCopied(out[..], all, n, mode);
      assert out[..3 * n] == out[..][..3 * n] && data[..3 * n] == all[..3 * n];
    }
  }

  /** Every one of the first `i` pixels is what the mode keeps of its colour. */
  ghost predicate Stored(out: seq<byte>, target: seq<Rgba>, mode: ColorMode, i: nat)
    requires Legal(mode)
  {
    i <= |target| && Fits(out, |target|, mode)
    && forall t | 0 <= t < i :: IsStored(out, t, target[t], mode)
  }

  ghost predicate IsStored(out: seq<byte>, t: nat, c: Rgba, mode: ColorMode)
    requires Legal(mode)
  {
    Fits(out, t + 1, mode) && Projected(c, mode) == Some(PixelAt(out, t, mode))
  }

  lemma RgbaIsStored(out: seq<byte>, target: seq<Rgba>, mode: ColorMode)
    requires Legal(mode) && mode.colortype == RgbAlpha && HoldsRgba(out, target, |target|)
    ensures Stored(out, target, mode, |target|)
  {
    forall t | 0 <= t < |target| ensures IsStored(out, t, target[t], mode) {
      assert IsRgba(out, t, target[t]);
      FitsFewer(out, t + 1, |target|, mode);
      PixelBytes(out, 4, t);
    }
  }

  lemma RgbIsStored(out: seq<byte>, target: seq<Rgba>, mode: ColorMode)
    requires Legal(mode) && mode.colortype == Rgb && HoldsRgb(out, target, |target|)
    ensures Stored(out, target, mode, |target|)
  {
    forall t | 0 <= t < |target| ensures IsStored(out, t, target[t], mode) {
      assert IsRgb(out, t, target[t]);
      FitsFewer(out, t + 1, |target|, mode);
      PixelBytes(out, 3, t);
    }
  }

  /** The tree of the colours an index can name; of equal ones the last. */
  method PaletteTree(mode: ColorMode) returns (tree: ColorTree)
    requires Legal(mode)
    ensures TreeFor(tree, mode.palette, InPalette(mode))
  {
    hide Index, Shaped, Add;
    var size := if |mode.palette| < Pow2(mode.bitdepth) then |mode.palette| else Pow2(mode.bitdepth);
    tree := NewNode();
    EmptyTree(mode.palette);
    for i := 0 to size
      invariant TreeFor(tree, mode.palette, i)
    {
      tree := AddColour(tree, mode.palette, i);
    }
  }

  lemma EmptyTree(palette: seq<Rgba>)
    ensures TreeFor(NewNode(), palette, 0)
  {
    hide Get;
    forall c ensures Shaped(NewNode(), 0) && IndexOk(NewNode(), palette, 0, c) { NewIsEmpty(c); }
    NewIsEmpty(Rgba(0, 0, 0, 0));
  }

  method AddColour(tree: ColorTree, palette: seq<Rgba>, i: nat) returns (tree': ColorTree)
    requires i < |palette| && TreeFor(tree, palette, i)
    ensures TreeFor(tree', palette, i + 1)
  {
    hide Index, Shaped, Add;
    tree' := Add(tree, palette[i], i, 0);
    TreeNext(tree, palette, i);
  }

  lemma TreeNext(tree: ColorTree, palette: seq<Rgba>, i: nat)
    requires i < |palette| && TreeFor(tree, palette, i)
    ensures TreeFor(Add(tree, palette[i], i, 0), palette, i + 1)
  {
    hide Index, Shaped, Add;
    var tree', n := Add(tree, palette[i], i, 0), i + 1;
    forall c ensures IndexOk(tree', palette, n, c) {
      assert IndexOk(tree, palette, i, c);
      IndexAdd(tree, palette[i], i, c);
      TakeNext(palette, i);
    }
  }

  /** The same bytes are the same pixels. */
  lemma SameBytesSamePixels(out: seq<byte>, data: seq<byte>, m: nat, n: nat, mode: ColorMode, i: nat)
    requires Legal(mode) && i < n && Fits(data, n, mode) && m <= |out| && m <= |data| && out[..m] == data[..m]
    requires (if mode.bitdepth == 8 then Area(Channels(mode.colortype), n) <= m else Area(mode.bitdepth, n) <= 8 * m)
    ensures Fits(out, i + 1, mode) && Fits(data, i + 1, mode) && PixelAt(out, i, mode) == PixelAt(data, i, mode)
  {
    hide PixelBits, FromBits, FromBytes, Area;
    FitsFewer(data, i + 1, n, mode);
    FitsFewer(out, i + 1, n, mode);
    if mode.bitdepth == 8 {
      var e := Area(Channels(mode.colortype), n);
      assert out[..e] == out[..m][..e] == data[..m][..e] == data[..e];
      SamePiece(out, data, Channels(mode.colortype), n, i);
    } else {
      var e := Area(mode.bitdepth, n);
      Scanlines.SameBytesSameBits(out, data, m);
      assert PixelBits(out)[..e] == PixelBits(out)[..8 * m][..e] == PixelBits(data)[..8 * m][..e]
          == PixelBits(data)[..e];
      SamePiece(PixelBits(out), PixelBits(data), mode.bitdepth, n, i);
    }
  }

  /** `lodepng_get_raw_size` for `n` pixels. */
  function RawSize(n: nat, mode: ColorMode): nat {
    (Area(Channels(mode.colortype) * mode.bitdepth, n) + 7) / 8
  }

  lemma RawSizeFits(data: seq<byte>, n: nat, mode: ColorMode)
    requires Legal(mode) && Fits(data, n, mode)
    ensures RawSize(n, mode) <= |data|
    ensures if mode.bitdepth == 8 then Area(Channels(mode.colortype), n) <= RawSize(n, mode)
          else Area(mode.bitdepth, n) <= 8 * RawSize(n, mode)
  {
    var k := Channels(mode.colortype);
    if mode.bitdepth == 8 {
      Adam7.Eightfold(k, n);
      assert Area(k * 8, n) == 8 * Area(k, n);
    }
  }

  /** A palette that is not given is that of the input. */
  function WithPalette(modeOut: ColorMode, modeIn: ColorMode): ColorMode {
    if modeOut.colortype == Palette && modeOut.palette == [] then modeOut.(palette := modeIn.palette) else modeOut
  }

  /** The bytes are taken as they are. */
  predicate SameMode(modeOut: ColorMode, modeIn: ColorMode) {
    || modeOut == modeIn
    || (modeOut.colortype == modeIn.colortype == Palette && modeOut.palette == []
        && modeOut.bitdepth == modeIn.bitdepth)
  }

  predicate NoPalette(mode: ColorMode) {
    mode.colortype == Palette && mode.palette == []
  }

  /** `lodepng_convert`: every pixel becomes what the output mode keeps of its colour. Error 107 for a palette that is
      missing, 82 exactly when some colour is not in the output palette. */
  method Convert(out: array<byte>, data: array<byte>, modeOut: ColorMode, modeIn: ColorMode, n: nat)
    returns (error: nat)
    requires out != data && Legal(modeOut) && Legal(modeIn) && Fits(out[..], n, modeOut) && Fits(data[..], n, modeIn)
    modifies out
    ensures NoPalette(modeIn) ==> error == 107
    ensures !NoPalette(modeIn) && SameMode(modeOut, modeIn) ==>
              && error == 0 && Fits(out[..], n, modeOut)
              && ColoursOf(out[..], n, WithPalette(modeOut, modeIn)) == ColoursOf(data[..], n, modeIn)
    ensures !NoPalette(modeIn) && !SameMode(modeOut, modeIn) ==>
              if forall t | 0 <= t < n :: Projected(ColoursOf(data[..], n, modeIn)[t],
                                                    WithPalette(modeOut, modeIn)).Some?
              then error == 0 && Stored(out[..], ColoursOf(data[..], n, modeIn), WithPalette(modeOut, modeIn), n)
              else error == 82
    ensures error == 0 && modeOut.colortype == RgbAlpha ==> BytesShown(out[..], data[..], n, modeIn)
    ensures error == 0 && modeOut.colortype == Rgb ==> RgbBytesShown(out[..], data[..], n, modeIn)
  {
    hide Area, ColoursOf, PixelAt, FromSample, Fits, Projected, Stored, HoldsRgba, HoldsRgb, RawSize, TreeFor;
    hide BytesShown, RgbBytesShown;
    if modeIn.colortype == Palette && modeIn.palette == [] { return 107; }
    if modeOut == modeIn {
      CopyRaw(out, data, modeIn, n);
      CopyShown(out[..], data[..], n, modeIn);
      return 0;
    }
    ghost var target, all := ColoursOf(data[..], n, modeIn), data[..];
    var mode := modeOut;
    if modeOut.colortype == Palette && modeOut.palette == [] {
      mode := modeOut.(palette := modeIn.palette);
      FitsEither(out[..], n, modeOut, mode);
      if modeIn.colortype == Palette && modeIn.bitdepth == modeOut.bitdepth {
        FitsEither(out[..], n, modeOut, modeIn);
        CopyRaw(out, data, modeIn, n);
        KeyIgnored(out[..], n, mode, modeIn);
        FitsEither(out[..], n, modeIn, modeOut);
        return 0;
      }
    }
    FitsUnfold(out[..], n, mode);
    if mode.colortype == RgbAlpha {
      GetPixelColorsRGBA8(out, n, data, modeIn);
      assert data[..] == all;
      RgbaIsStored(out[..], target, mode);
      AlwaysProjected(target, mode);
      error := 0;
    } else if mode.colortype == Rgb {
      GetPixelColorsRGB8(out, n, data, modeIn);
      assert data[..] == all;
      RgbIsStored(out[..], target, mode);
      AlwaysProjected(target, mode);
      error := 0;
    } else {
      error := ConvertPixels(out, data, mode, modeIn, n, target);
      assert data[..] == all;
    }
  }

  /** Bytes taken as they are show themselves. */
  lemma CopyShown(out: seq<byte>, data: seq<byte>, n: nat, mode: ColorMode)
    requires Legal(mode) && Fits(data, n, mode) && Fits(out, n, mode)
    requires ColoursOf(out, n, mode) == ColoursOf(data, n, mode)
    ensures mode.colortype == RgbAlpha ==> BytesShown(out, data, n, mode)
    ensures mode.colortype == Rgb ==> RgbBytesShown(out, data, n, mode)
  {
    hide Fits, PixelAt, ColoursOf, BytesShown, RgbBytesShown, HoldsRgba, HoldsRgb;
    if mode.colortype == RgbAlpha {
      OwnColours(out, n, mode);
      ColoursShown(out, data, n, mode);
    }
    if mode.colortype == Rgb {
      OwnRgb(out, n, mode);
      RgbColoursShown(out, data, n, mode);
    }
  }

  lemma OwnColours(out: seq<byte>, n: nat, mode: ColorMode)
    requires Legal(mode) && Fits(out, n, mode) && mode.colortype == RgbAlpha
    ensures HoldsRgba(out, ColoursOf(out, n, mode), n)
  {
    hide PixelAt;
    AllFit(out, n, mode);
    forall t | 0 <= t < n ensures IsRgba(out, t, ColoursOf(out, n, mode)[t]) { ColourIs(out, t, mode); }
  }

  /** RGBA data has the colours of other data exactly when its bytes show them. */
  lemma SameColoursShown(out: seq<byte>, data: seq<byte>, n: nat, mode: ColorMode)
    requires Legal(mode) && Fits(data, n, mode) && Fits(out, n, RGBA8)
    ensures ColoursOf(out, n, RGBA8) == ColoursOf(data, n, mode) <==> BytesShown(out, data, n, mode)
  {
    hide Fits, PixelAt, BytesShown, IsRgba;
    OwnColours(out, n, RGBA8);
    ColoursShown(out, data, n, mode);
    var own, px := ColoursOf(out, n, RGBA8), ColoursOf(data, n, mode);
    if HoldsRgba(out, px, n) {
      forall t | 0 <= t < n ensures own[t] == px[t] { OneColour(out, t, own[t], px[t]); }
    }
  }

  lemma OneColour(out: seq<byte>, t: nat, c: Rgba, d: Rgba)
    requires IsRgba(out, t, c) && IsRgba(out, t, d)
    ensures c == d
  {}

  lemma OwnRgb(out: seq<byte>, n: nat, mode: ColorMode)
    requires Legal(mode) && Fits(out, n, mode) && mode.colortype == Rgb
    ensures HoldsRgb(out, ColoursOf(out, n, mode), n)
  {
    hide PixelAt;
    AllFit(out, n, mode);
    forall t | 0 <= t < n ensures IsRgb(out, t, ColoursOf(out, n, mode)[t]) { ColourIs(out, t, mode); }
  }

  lemma FitsEither(out: seq<byte>, n: nat, mode: ColorMode, mode': ColorMode)
    requires Fits(out, n, mode) && mode.colortype == mode'.colortype && mode.bitdepth == mode'.bitdepth
    ensures Fits(out, n, mode')
  {}

  /** A palette mode makes no use of a key. */
  lemma KeyIgnored(out: seq<byte>, n: nat, mode: ColorMode, mode': ColorMode)
    requires Legal(mode) && mode.colortype == mode'.colortype == Palette && mode.bitdepth == mode'.bitdepth
    requires mode.palette == mode'.palette
    requires Fits(out, n, mode')
    ensures Fits(out, n, mode) && ColoursOf(out, n, mode) == ColoursOf(out, n, mode')
  {
    hide PixelBits, Area, Msb;
    forall t | 0 <= t < n ensures ColoursOf(out, n, mode)[t] == ColoursOf(out, n, mode')[t] {}
  }

  lemma FitsUnfold(out: seq<byte>, n: nat, mode: ColorMode)
    requires Fits(out, n, mode)
    ensures mode.bitdepth == 8 ==> Area(Channels(mode.colortype), n) <= |out|
  {}

  lemma AlwaysProjected(target: seq<Rgba>, mode: ColorMode)
    requires Legal(mode) && mode.colortype != Palette
    ensures forall t | 0 <= t < |target| :: Projected(target[t], mode).Some?
  {}

  method CopyRaw(out: array<byte>, data: array<byte>, mode: ColorMode, n: nat)
    requires out != data && Legal(mode) && Fits(out[..], n, mode) && Fits(data[..], n, mode)
    modifies out
    ensures Fits(out[..], n, mode) && ColoursOf(out[..], n, mode) == ColoursOf(data[..], n, mode)
  {
    hide Area, PixelAt, RawSize, Legal;
    RawSizeFits(data[..], n, mode);
    RawSizeFits(out[..], n, mode);
    var m := RawSize(n, mode);
    ghost var all := data[..];
    for i := 0 to m
      invariant out[..i] == data[..i]
    {
      out[i] := data[i];
    }
    assert data[..] == all;
    assert out[..][..m] == data[..][..m];
    SamePixelsAll(out[..], data[..], m, n, mode);
  }

  lemma SamePixelsAll(out: seq<byte>, data: seq<byte>, m: nat, n: nat, mode: ColorMode)
    requires Legal(mode) && Fits(data, n, mode) && m <= |out| && m <= |data| && out[..m] == data[..m]
    requires if mode.bitdepth == 8 then Area(Channels(mode.colortype), n) <= m else Area(mode.bitdepth, n) <= 8 * m
    ensures Fits(out, n, mode) && ColoursOf(out, n, mode) == ColoursOf(data, n, mode)
  {
    hide Area, PixelAt;
    forall i | 0 <= i < n ensures ColoursOf(out, n, mode)[i] == ColoursOf(data, n, mode)[i] {
      SameBytesSamePixels(out, data, m, n, mode, i);
    }
  }

  /** One pixel at a time. */
  method ConvertPixels(out: array<byte>, data: array<byte>, modeOut: ColorMode, modeIn: ColorMode, n: nat,
                       ghost target: seq<Rgba>)
    returns (error: nat)
    requires out != data && Legal(modeOut) && Legal(modeIn) && Fits(out[..], n, modeOut) && Fits(data[..], n, modeIn)
    requires target == ColoursOf(data[..], n, modeIn)
    modifies out
    ensures if forall t | 0 <= t < n :: Projected(target[t], modeOut).Some?
          then error == 0 && Stored(out[..], target, modeOut, n) else error == 82
  {
    hide Area, ColoursOf, PixelAt, FromSample, Fits, Projected, Stored, ReadyFor, TreeFor, Earlier;
    ghost var all := data[..];
    var tree := NewNode();
    if modeOut.colortype == Palette { tree := PaletteTree(modeOut); }
    StoredNone(out[..], target, modeOut);
    ReadyAtStart(out[..], modeOut);
    for i := 0 to n
      invariant Stored(out[..], target, modeOut, i) && ReadyFor(out[..], i, modeOut) && Fits(out[..], n, modeOut)
      invariant forall t | 0 <= t < i :: Projected(target[t], modeOut).Some?
    {
      assert data[..] == all;
      ghost var before := out[..];
      FitsFewer(out[..], i + 1, n, modeOut);
      FitsFewer(data[..], i + 1, n, modeIn);
      var c := GetPixelColorRGBA8(data, i, modeIn);
      error := Rgba8ToPixel(out, i, modeOut, tree, c);
      if error != 0 { return; }
      FitsKept(before, out[..], n, modeOut);
      FitsFewer(out[..], i + 1, n, modeOut);
      StoredNext(before, out[..], target, modeOut, i);
    }
    error := 0;
  }

  lemma FitsKept(before: seq<byte>, now: seq<byte>, n: nat, mode: ColorMode)
    requires |before| == |now| && Fits(before, n, mode)
    ensures Fits(now, n, mode)
  {}

  lemma StoredNone(out: seq<byte>, target: seq<Rgba>, mode: ColorMode)
    requires Legal(mode) && Fits(out, |target|, mode)
    ensures Stored(out, target, mode, 0)
  {}

  lemma ReadyAtStart(out: seq<byte>, mode: ColorMode)
    ensures ReadyFor(out, 0, mode)
  {
    AreaNext(mode.bitdepth, 0);
  }

  lemma StoredNext(before: seq<byte>, now: seq<byte>, target: seq<Rgba>, mode: ColorMode, i: nat)
    requires Legal(mode) && i < |target| && Stored(before, target, mode, i) && Earlier(now, before, i, mode)
    requires IsStored(now, i, target[i], mode)
    ensures Stored(now, target, mode, i + 1) && Fits(now, |target|, mode)
  {
    hide PixelAt, Projected;
    forall t | 0 <= t < i + 1 ensures IsStored(now, t, target[t], mode) {
      if t < i {
        assert IsStored(before, t, target[t], mode);
        EarlierPixel(now, before, i, mode, t);
      }
    }
  }
}
