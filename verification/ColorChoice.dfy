/** The automatic choice of a smaller colour mode, and when it keeps every pixel. */
module ColorChoice {
  import opened Wrappers
  import opened Bits
  import opened Buffers
  import opened ColorTrees
  import opened Colors
  import opened ColorConvert
  import opened ColorStatistics
  import Adam7

  /** The mode keeps every pixel. */
  ghost predicate Lossless(px: seq<Rgba>, mode: ColorMode)
    requires Legal(mode)
  {
    forall i | 0 <= i < |px| :: Projected(px[i], mode) == Some(px[i])
  }

  /** The key, masked to the depth, is the key colour at that depth. */
  lemma MaskedKey(v: byte, bits: nat)
    requires bits in {1, 2, 4, 8} && RequiredBits(v) <= bits
    ensures And(v as nat * 257, Pow2(bits) - 1) == Shr(v, 8 - bits)
  {
    var w: nat := v;
    AndMask(w * 257, bits);
    assert Pow2(0) == 1 && Pow2(1) == 2 && Pow2(2) == 4 && Pow2(4) == 16 by { Pow2Values(); }
    assert Pow2(8) == 256 && Pow2(7) == 128 && Pow2(6) == 64 by { Pow2Values(); }
    assert Shr(v, 8 - bits) == w / Pow2(8 - bits);
    hide Pow2, And, Shr;
    if bits == 1 {
      MaskedOne(w);
    } else if bits == 2 {
      MaskedTwo(w);
    } else if bits == 4 {
      MaskedFour(w);
    } else {
      MaskedEight(w);
    }
  }

  lemma MaskedOne(w: nat)
    requires w == 0 || w == 255
    ensures w * 257 % 2 == w / 128
  {}

  lemma MaskedEight(w: nat)
    requires w < 256
    ensures w * 257 % 256 == w == w / 1
  {}

  lemma MaskedTwo(w: nat)
    requires w < 256 && w % 85 == 0
    ensures w * 257 % 4 == w / 64
  {}

  lemma MaskedFour(w: nat)
    requires w < 256 && w % 17 == 0
    ensures w * 257 % 16 == w / 16
  {
    var k := w / 17;
    assert w == 17 * k && k < 16;
  }

  /** Grey values that survive the depth, with or without a key among them. */
  lemma GreyKeeps(px: seq<Rgba>, mode: ColorMode, key: bool, k: Rgba)
    requires Legal(mode) && mode.colortype == Grey && BitsSeen(px, mode.bitdepth) && AllGrey(px)
    requires if key then
               && mode.key.Some? && mode.key.value.r == Shr(k.r, 8 - mode.bitdepth)
                   && RequiredBits(k.r) <= mode.bitdepth && IsGrey(k)
               && KeyWorks(px, k)
             else mode.key.None? && AllSolid(px)
    ensures Lossless(px, mode)
  {
    forall i | 0 <= i < |px| ensures Projected(px[i], mode) == Some(px[i]) {
      GreyPixelKeeps(px[i], mode, key, k);
    }
  }

  lemma GreyPixelKeeps(c: Rgba, mode: ColorMode, key: bool, k: Rgba)
    requires Legal(mode) && mode.colortype == Grey && IsGrey(c) && RequiredBits(c.r) <= mode.bitdepth
    requires if key then
               && mode.key.Some? && mode.key.value.r == Shr(k.r, 8 - mode.bitdepth)
                   && RequiredBits(k.r) <= mode.bitdepth && IsGrey(k)
               && (if SameRgb(c, k) then c.a == 0 else c.a == 255)
             else mode.key.None? && c.a == 255
    ensures Projected(c, mode) == Some(c)
  {
    hide Widen, RequiredBits, Shr;
    RequiredBitsExact(c.r, mode.bitdepth);
    RequiredBitsExact(k.r, mode.bitdepth);
  }

  /** A grey value that needs more bits is lost. */
  lemma GreyLoses(px: seq<Rgba>, mode: ColorMode)
    requires Legal(mode) && mode.colortype == Grey && !BitsSeen(px, mode.bitdepth)
    ensures !Lossless(px, mode)
  {
    hide Widen, RequiredBits, Shr;
    var i :| 0 <= i < |px| && RequiredBits(px[i].r) > mode.bitdepth;
    RequiredBitsExact(px[i].r, mode.bitdepth);
  }

  lemma RgbKeeps(px: seq<Rgba>, mode: ColorMode, key: bool, k: Rgba)
    requires Legal(mode) && mode.colortype == Rgb
    requires if key then mode.key == Some(Key(k.r, k.g, k.b)) && KeyWorks(px, k) else mode.key.None? && AllSolid(px)
    ensures Lossless(px, mode)
  {
    forall i | 0 <= i < |px| ensures Projected(px[i], mode) == Some(px[i]) {
      assert key ==> (if SameRgb(px[i], k) then px[i].a == 0 else px[i].a == 255);
    }
  }

  lemma PaletteKeeps(px: seq<Rgba>, mode: ColorMode)
    requires Legal(mode) && mode.colortype == Palette && |mode.palette| <= Pow2(mode.bitdepth)
    requires forall c | c in px :: c in mode.palette
    ensures Lossless(px, mode)
  {
    assert mode.palette[..|mode.palette|] == mode.palette;
  }

  lemma AlphaKeeps(px: seq<Rgba>, mode: ColorMode)
    requires Legal(mode)
    requires mode.colortype == RgbAlpha || (mode.colortype == GreyAlpha && AllGrey(px))
    ensures Lossless(px, mode)
  {}

  /** The key colour is the colour of some pixel. */
  lemma KeyIsPixel(px: seq<Rgba>, k: Rgba)
    requires KeyWorks(px, k) && exists i :: 0 <= i < |px| && px[i].a == 0
    ensures exists i :: 0 <= i < |px| && SameRgb(px[i], k)
  {
    var i :| 0 <= i < |px| && px[i].a == 0;
    assert SameRgb(px[i], k);
  }

  // ---------------------------------------------------------------- what the choice depends on

  ghost function NumColors(px: seq<Rgba>): nat {
    |set c | c in px|
  }

  function PaletteBits(n: nat): nat {
    if n <= 2 then 1 else if n <= 4 then 2 else if n <= 16 then 4 else 8
  }

  /** Few enough colours for a palette, and a palette is smaller than grey samples. */
  ghost predicate PaletteWins(px: seq<Rgba>, bpp: nat, allowPalette: bool) {
    allowPalette && 0 < NumColors(px) <= 256 && |px| >= 2 * NumColors(px)
        && CountedBits(px, bpp) > PaletteBits(NumColors(px))
  }

  /** No alpha channel: the image is solid, or has a key and is not too small for it. */
  ghost predicate NoAlpha(px: seq<Rgba>) {
    AllSolid(px) || (|px| > 16 && exists k :: KeyWorks(px, k))
  }

  /** Grey samples without alpha are chosen. */
  ghost predicate PicksGrey(px: seq<Rgba>, bpp: nat, allowPalette: bool, allowGreyscale: bool) {
    allowGreyscale && AllGrey(px) && NoAlpha(px) && !PaletteWins(px, bpp, allowPalette)
  }

  /** A palette is chosen: it is allowed, there are at most 256 colours and at least twice as many pixels, and plain
      grey samples would not do with as few bits. */
  ghost predicate PicksPalette(px: seq<Rgba>, bpp: nat, allowPalette: bool, allowGreyscale: bool) {
    && allowPalette && 0 < NumColors(px) <= 256 && |px| >= 2 * NumColors(px)
    && !(allowGreyscale && AllGrey(px) && NoAlpha(px) && CountedBits(px, bpp) <= PaletteBits(NumColors(px)))
  }

  /** The colours of the image, each once. */
  ghost predicate Lists(palette: seq<Rgba>, px: seq<Rgba>) {
    && (forall i, j | 0 <= i < j < |palette| :: palette[i] != palette[j])
    && (forall c :: c in palette <==> c in px)
  }

  /** What goes wrong: grey samples are chosen after the count of their bits was given up too early. */
  ghost predicate Loses(px: seq<Rgba>, bpp: nat, allowPalette: bool, allowGreyscale: bool) {
    PicksGrey(px, bpp, allowPalette, allowGreyscale) && Undercounted(px, bpp)
  }

  lemma CountIsSize(px: seq<Rgba>, numcolors: nat, palette: seq<Rgba>)
    requires ColoursSeen(px, numcolors, palette)
    ensures if numcolors <= 256 then numcolors == NumColors(px) else NumColors(px) > 256
  {
    DistinctCount(palette);
    var all, some := set c | c in px, set c | c in palette;
    if numcolors <= 256 {
      assert all == some;
    } else {
      var c :| c in px && c !in palette;
      assert |some + {c}| == 257;
      SubsetSize(some + {c}, all);
    }
  }

  lemma AlphaIsNeeded(stats: ColorStats, px: seq<Rgba>, bpp: nat)
    requires stats.Describe(px, bpp)
    ensures NoAlpha(px) <==> !stats.alpha && !(stats.key && |px| <= 16)
    ensures AllSolid(px) <==> !stats.alpha && !stats.key
  {
    hide ColourSeen, CountedBits, ColoursSeen;
    if stats.alpha {
      forall k ensures !AllSolid(px) && !KeyWorks(px, k) { NoKeyWorks(px, k); }
      NoKeyWorks(px, Rgba(0, 0, 0, 0));
    }
  }

  /** What the statistics say about grey. */
  lemma GreyFacts(stats: ColorStats, px: seq<Rgba>, bpp: nat)
    requires stats.Describe(px, bpp)
    ensures !stats.colored <==> AllGrey(px)
    ensures stats.bits in {1, 2, 4, 8} && ((stats.colored || stats.alpha) ==> stats.bits == 8)
    ensures !stats.colored && !stats.alpha ==> stats.bits == CountedBits(px, bpp)
    ensures stats.numpixels == |px| && !(stats.alpha && stats.key)
  {
    hide CountedBits, ColoursSeen, AllSolid, KeyWorks, NoKey;
  }

  lemma PaletteFacts(stats: ColorStats, px: seq<Rgba>, bpp: nat)
    requires stats.Describe(px, bpp)
    ensures stats.allowPalette && stats.numcolors <= 256 ==>
              && stats.numcolors == NumColors(px) == |stats.palette| && forall c | c in px :: c in stats.palette
    ensures stats.allowPalette && stats.numcolors > 256 ==> NumColors(px) > 256
    ensures !stats.allowPalette ==> stats.numcolors == 0
    ensures stats.allowPalette && stats.numcolors <= 256 ==> Lists(stats.palette, px)
  {
    hide ColourSeen, CountedBits, AllSolid, KeyWorks, NoKey;
    if stats.allowPalette { CountIsSize(px, stats.numcolors, stats.palette); }
  }

  /** `auto_choose_color`: the mode chosen keeps every pixel unless `Loses` says so, and an alpha channel is stored
      for more than 16 pixels only when the image needs one. An input palette that will do is taken over as it is. */
  method AutoChooseColor(stats: ColorStats, modeIn: ColorMode, ghost px: seq<Rgba>) returns (mode: ColorMode)
    requires Legal(modeIn) && stats.Describe(px, BitsPerPixel(modeIn))
    ensures Legal(mode) && !NoPalette(mode)
    ensures mode.colortype == Grey <==> PicksGrey(px, BitsPerPixel(modeIn), stats.allowPalette, stats.allowGreyscale)
    ensures mode.colortype == Grey ==> mode.bitdepth == CountedBits(px, BitsPerPixel(modeIn))
    ensures var grey, palette := stats.allowGreyscale && AllGrey(px),
                PicksPalette(px, BitsPerPixel(modeIn), stats.allowPalette, stats.allowGreyscale);
            && mode.colortype == (if palette then Palette
                                  else if NoAlpha(px) then (if grey then Grey else Rgb)
                                  else if grey then GreyAlpha else RgbAlpha)
            && (palette ==> mode.bitdepth == PaletteBits(NumColors(px))
                            && if mode == modeIn then |modeIn.palette| >= NumColors(px) else Lists(mode.palette, px))
            && (mode != modeIn ==> (mode.key.Some? <==> !palette && NoAlpha(px) && !AllSolid(px)))
    ensures mode == modeIn || (Lossless(px, mode) <==>
          !Loses(px, BitsPerPixel(modeIn), stats.allowPalette, stats.allowGreyscale))
    ensures HasAlpha(mode) && |px| > 16 ==> !AllSolid(px) && forall k :: !KeyWorks(px, k)
  {
    hide ColorStats.Describe, CountedBits, AllGrey, AllSolid, KeyWorks, Lossless, Undercounted, NumColors, NoAlpha,
        BitsPerPixel, Lists, PaletteBits, BitsSeen, PicksGrey, PicksPalette, Loses;
    ghost var bpp := BitsPerPixel(modeIn);
    GreyFacts(stats, px, bpp);
    PaletteFacts(stats, px, bpp);
    AlphaIsNeeded(stats, px, bpp);
    PickFacts(px, bpp, stats.allowPalette, stats.allowGreyscale);
    var alpha, key, bits, numpixels := stats.alpha, stats.key, stats.bits, stats.numpixels;
    if key && numpixels <= 16 {
      alpha := true;
      key := false;
      if bits < 8 { bits := 8; }
    }
    var grayOk := !stats.colored;
    if !stats.allowGreyscale { grayOk := false; }
    if !grayOk && bits < 8 { bits := 8; }
    var n := stats.numcolors;
    var palettebits := PaletteBits(n);
    var paletteOk := n <= 256 && bits <= 8 && n != 0;
    if numpixels < n * 2 { paletteOk := false; }
    if grayOk && !alpha && bits <= palettebits { paletteOk := false; }
    if !stats.allowPalette { paletteOk := false; }
    if paletteOk {
      mode := ColorMode(Palette, palettebits, stats.palette, None);
      PaletteRoom(n);
      PaletteKeeps(px, mode);
      if modeIn.colortype == Palette && |modeIn.palette| >= |mode.palette| && modeIn.bitdepth == mode.bitdepth {
        mode := modeIn;
      }
    } else {
      mode := DirectMode(stats, alpha, key, bits, grayOk, px, bpp);
      AlphaWanted(px);
      GreyLossIs(px, bpp, bits);
    }
  }

  lemma PickFacts(px: seq<Rgba>, bpp: nat, allowPalette: bool, allowGreyscale: bool)
    ensures PicksPalette(px, bpp, allowPalette, allowGreyscale) <==>
              && allowPalette && 0 < NumColors(px) <= 256 && |px| >= 2 * NumColors(px)
              && !(allowGreyscale && AllGrey(px) && NoAlpha(px) && CountedBits(px, bpp) <= PaletteBits(NumColors(px)))
    ensures PicksGrey(px, bpp, allowPalette, allowGreyscale) <==>
              allowGreyscale && AllGrey(px) && NoAlpha(px) && !PicksPalette(px, bpp, allowPalette, allowGreyscale)
    ensures Loses(px, bpp, allowPalette, allowGreyscale) <==>
              PicksGrey(px, bpp, allowPalette, allowGreyscale) && Undercounted(px, bpp)
  {
    hide CountedBits, AllGrey, NumColors, NoAlpha, Undercounted;
  }

  lemma GreyLossIs(px: seq<Rgba>, bpp: nat, bits: nat)
    ensures bits == CountedBits(px, bpp) ==> (Undercounted(px, bpp) <==> !BitsSeen(px, bits))
  {
    hide CountedBits, BitsSeen;
  }

  /** The depth of a palette is the least that has room for it. */
  lemma PaletteRoom(n: nat)
    requires n <= 256
    ensures PaletteBits(n) in {1, 2, 4, 8} && n <= Pow2(PaletteBits(n))
    ensures PaletteBits(n) > 1 ==> n > Pow2(PaletteBits(n) / 2)
  {
    Pow2Values();
  }

  lemma AlphaWanted(px: seq<Rgba>)
    ensures |px| > 16 && !NoAlpha(px) ==> !AllSolid(px) && forall k :: !KeyWorks(px, k)
  {}

  /** One sample or more per pixel, with a key if there is one. */
  method DirectMode(stats: ColorStats, alpha: bool, key: bool, bits: nat, grayOk: bool, ghost px: seq<Rgba>,
                    ghost bpp: nat)
    returns (mode: ColorMode)
    requires stats.Describe(px, bpp) && (key ==> stats.key && !alpha) && (!alpha && !key ==> !stats.key && !stats.alpha)
    requires bits in {1, 2, 4, 8} && (alpha || !grayOk ==> bits == 8) && (grayOk ==> AllGrey(px))
    ensures Legal(mode) && mode.colortype != Palette && (HasAlpha(mode) <==> alpha)
    ensures mode.colortype == (if alpha then (if grayOk then GreyAlpha else RgbAlpha) else if grayOk then Grey else Rgb)
    ensures mode.bitdepth == bits && (mode.key.Some? <==> key)
    ensures Lossless(px, mode) <==> !(mode.colortype == Grey && !BitsSeen(px, bits))
  {
    hide KeyWorks, AllSolid, AllGrey, RequiredBits, NoKey, Lossless, Projected, CountedBits, BitsSeen, ColoursSeen,
        ColourSeen;
    var colortype := if alpha then (if grayOk then GreyAlpha else RgbAlpha) else if grayOk then Grey else Rgb;
    mode := ColorMode(colortype, bits, [], None);
    ghost var k := Rgba(0, 0, 0, 0);
    if key {
      k := stats.KeyColour();
      var mask := Pow2(bits) - 1;
      mode := mode.(key := Some(Key(And(stats.keyR, mask), And(stats.keyG, mask), And(stats.keyB, mask))));
      KeyIsPixel(px, k);
    }
    EightBits(px);
    if !BitsSeen(px, bits) {
      GreyLoses(px, mode);
    } else {
      if key { KeyAtDepth(px, k, bits, grayOk); }
      if alpha {
        AlphaKeeps(px, mode);
      } else if grayOk {
        GreyKeeps(px, mode, key, k);
      } else {
        RgbKeeps(px, mode, key, k);
      }
    }
  }

  lemma EightBits(px: seq<Rgba>)
    ensures BitsSeen(px, 8)
  {}

  lemma KeyAtDepth(px: seq<Rgba>, k: Rgba, bits: nat, grayOk: bool)
    requires bits in {1, 2, 4, 8} && BitsSeen(px, bits) && (exists i :: 0 <= i < |px| && SameRgb(px[i], k))
    requires (!grayOk ==> bits == 8)
    requires grayOk ==> AllGrey(px)
    ensures RequiredBits(k.r) <= bits && And(k.r as nat * 257, Pow2(bits) - 1) == Shr(k.r, 8 - bits)
    ensures grayOk ==> IsGrey(k)
    ensures bits == 8 ==> And(k.r as nat * 257, Pow2(bits) - 1) == k.r as nat
    ensures bits == 8 ==> And(k.g as nat * 257, Pow2(bits) - 1) == k.g as nat
    ensures bits == 8 ==> And(k.b as nat * 257, Pow2(bits) - 1) == k.b as nat
  {
    var i :| 0 <= i < |px| && SameRgb(px[i], k);
    MaskedKey(k.r, bits);
    if bits == 8 {
      MaskedKey(k.g, 8);
      MaskedKey(k.b, 8);
      assert Pow2(0) == 1;
    }
  }

  // ---------------------------------------------------------------- input that is always counted right

  lemma GreyValues(v: nat, bits: nat)
    requires bits in {1, 2, 4} && v <= Highest(bits)
    ensures RequiredBits(Widen(v, bits)) <= bits
  {
    hide *;
    HighestValues();
    if bits == 1 {
      TimesFactor(v, 1, 255);
    } else if bits == 2 {
      TimesFactor(v, 2, 85);
      SmallMultiple(v, 85);
    } else {
      TimesFactor(v, 4, 17);
      SmallMultiple(v, 17);
    }
  }

  lemma HighestValues()
    ensures Highest(1) == 1 && Highest(2) == 3 && Highest(4) == 15
  {
    Pow2Values();
  }

  lemma TimesFactor(v: nat, bits: nat, factor: nat)
    requires 0 < bits && v <= Highest(bits) && factor * Highest(bits) == 255
    ensures Widen(v, bits) as nat == v * factor
    ensures bits == 1 && Highest(1) == 1 ==> RequiredBits(Widen(v, bits)) == 1
  {
    hide Highest, RequiredBits;
    var h := Highest(bits);
    assert v * 255 == (v * factor) * h;
    assert v * 255 / h == v * factor;
    if bits == 1 && h == 1 { ZeroOrFull(v * 255); }
  }

  lemma ZeroOrFull(v: nat)
    requires v == 0 || v == 255
    ensures RequiredBits(v as byte) == 1
  {}

  lemma SmallMultiple(v: nat, factor: nat)
    requires (factor == 17 && v <= 15) || (factor == 85 && v <= 3)
    ensures v * factor <= 255 && RequiredBits((v * factor) as byte) <= if factor == 17 then 4 else 2
  {
    assert v * 17 % 17 == 0 && v * 85 % 85 == 0 && v * 85 == (v * 5) * 17 && (v * 5) * 17 % 17 == 0;
  }

  /** Only palettes of fewer than 256 places can be counted wrong. */
  lemma CountedRight(data: seq<byte>, n: nat, mode: ColorMode)
    requires Legal(mode) && Fits(data, n, mode) && (mode.colortype == Palette ==> mode.bitdepth == 8)
    ensures !Undercounted(ColoursOf(data, n, mode), BitsPerPixel(mode))
  {
    hide ColoursOf, PixelAt, Fits, FromSample, RequiredBits, CountedBits, Widen;
    var px, bpp := ColoursOf(data, n, mode), BitsPerPixel(mode);
    if mode.colortype == Grey && mode.bitdepth < 8 {
      AllFit(data, n, mode);
      forall i | 0 <= i < n ensures RequiredBits(px[i].r) <= bpp { GreyNeeds(data, i, mode); }
      NarrowGrey(px, bpp);
    } else {
      CountAtMost(px, bpp);
      CountIsRight(px, bpp);
    }
  }

  lemma GreyNeeds(data: seq<byte>, i: nat, mode: ColorMode)
    requires Legal(mode) && mode.colortype == Grey && mode.bitdepth < 8 && Fits(data, i + 1, mode)
    ensures RequiredBits(PixelAt(data, i, mode).r) <= mode.bitdepth
  {
    hide PixelAt, RequiredBits, Widen, Highest;
    OneChannelColour(data, i, mode);
    var v: nat :| v <= Highest(mode.bitdepth) && PixelAt(data, i, mode) == FromSample(v, mode);
    GreyValues(v, mode.bitdepth);
  }

  // ---------------------------------------------------------------- there and back

  /** An image converted to the mode chosen for it has the same colours, unless `Loses` says otherwise. */
  method AutoConvert(image: array<byte>, n: nat, modeIn: ColorMode, allowPalette: bool, allowGreyscale: bool)
    returns (error: nat, mode: ColorMode, converted: array<byte>)
    requires Legal(modeIn) && Fits(image[..], n, modeIn)
    ensures error == if NoPalette(modeIn) then 107 else 0
    ensures error == 0 ==>
              && Legal(mode) && !NoPalette(mode) && Fits(converted[..], n, mode)
              && (ColoursOf(converted[..], n, mode) == ColoursOf(image[..], n, modeIn)
                  <==> !Loses(ColoursOf(image[..], n, modeIn), BitsPerPixel(modeIn), allowPalette, allowGreyscale))
  {
    hide Fits, PixelAt, ColoursOf, Lossless, Projected, Stored, RawSize, Loses, Legal, BitsPerPixel, PicksGrey;
    ghost var px, bpp := ColoursOf(image[..], n, modeIn), BitsPerPixel(modeIn);
    var stats := new ColorStats();
    stats.allowPalette, stats.allowGreyscale := allowPalette, allowGreyscale;
    stats.ComputeColorStats(image, n, modeIn);
    mode := AutoChooseColor(stats, modeIn, px);
    if mode == modeIn {
      NothingLost(image[..], n, modeIn, px, allowPalette, allowGreyscale);
      return 0, mode, image;
    }
    converted := new byte[RawSize(n, mode)];
    RoomFor(converted[..], n, mode);
    ghost var all := image[..];
    error := Convert(converted, image, mode, modeIn, n);
    assert image[..] == all;
    if error != 107 {
      if mode.colortype != Grey { OnlyGreyLoses(px, bpp, allowPalette, allowGreyscale); }
      AllProjected(px, mode);
      StoredColours(converted[..], px, mode, n);
    }
  }

  lemma OnlyGreyLoses(px: seq<Rgba>, bpp: nat, allowPalette: bool, allowGreyscale: bool)
    requires !PicksGrey(px, bpp, allowPalette, allowGreyscale)
    ensures !Loses(px, bpp, allowPalette, allowGreyscale)
  {}

  /** The mode of the input, chosen again, is no narrower than it was. */
  lemma NothingLost(data: seq<byte>, n: nat, mode: ColorMode, px: seq<Rgba>, allowPalette: bool, allowGreyscale: bool)
    requires Legal(mode) && Fits(data, n, mode) && px == ColoursOf(data, n, mode)
    requires mode.colortype == Grey <==> PicksGrey(px, BitsPerPixel(mode), allowPalette, allowGreyscale)
    ensures !Loses(px, BitsPerPixel(mode), allowPalette, allowGreyscale)
  {
    hide ColoursOf, Fits, PicksGrey, Undercounted, Legal;
    if mode.colortype == Grey { CountedRight(data, n, mode); }
  }

  /** `lodepng_decode`'s conversion to RGBA. */
  method ConvertBack(out: array<byte>, data: array<byte>, mode: ColorMode, n: nat) returns (error: nat)
    requires out != data && Legal(mode) && Fits(data[..], n, mode) && Fits(out[..], n, RGBA8)
    modifies out
    ensures error == if NoPalette(mode) then 107 else 0
    ensures error == 0 ==> Fits(out[..], n, RGBA8) && ColoursOf(out[..], n, RGBA8) == ColoursOf(data[..], n, mode)
    ensures error == 0 ==> BytesShown(out[..], data[..], n, mode)
  {
    hide Fits, PixelAt, ColoursOf, Lossless, Projected, Stored, BytesShown;
    ghost var px, all := ColoursOf(data[..], n, mode), data[..];
    AllRgba(px);
    error := Convert(out, data, RGBA8, mode, n);
    assert data[..] == all;
    if error == 0 && RGBA8 != mode { StoredColours(out[..], px, RGBA8, n); }
  }

  /** Conversion to the chosen mode and back to RGBA: the exact condition for every colour to come back, and the bytes
      of RGBA input. */
  method ThereAndBack(image: array<byte>, n: nat, modeIn: ColorMode, allowPalette: bool, allowGreyscale: bool)
    returns (error: nat, out: array<byte>)
    requires Legal(modeIn) && Fits(image[..], n, modeIn)
    ensures error == if NoPalette(modeIn) then 107 else 0
    ensures error == 0 ==>
              && Fits(out[..], n, RGBA8)
              && (BytesShown(out[..], image[..], n, modeIn)
                  <==> !Loses(ColoursOf(image[..], n, modeIn), BitsPerPixel(modeIn), allowPalette, allowGreyscale))
    ensures modeIn == RGBA8 ==> 4 * n <= out.Length && 4 * n <= image.Length && out[..4 * n] == image[..4 * n]
  {
    hide Fits, PixelAt, ColoursOf, Area, Loses, Legal, BitsPerPixel, BytesShown;
    ghost var all := image[..];
    var mode, converted;
    error, mode, converted := AutoConvert(image, n, modeIn, allowPalette, allowGreyscale);
    out := new byte[4 * n];
    if error != 0 { return; }
    RoomForRgba(out[..], n);
    error := ConvertBack(out, converted, mode, n);
    assert image[..] == all;
    SameColoursShown(out[..], all, n, modeIn);
    if modeIn == RGBA8 {
      RgbaNeverLoses(all, n, allowPalette, allowGreyscale);
      ColoursAreBytes(out[..], all, n);
      assert out[..4 * n] == out[..][..4 * n];
    }
  }

  lemma RgbaNeverLoses(data: seq<byte>, n: nat, allowPalette: bool, allowGreyscale: bool)
    requires Fits(data, n, RGBA8)
    ensures !Loses(ColoursOf(data, n, RGBA8), BitsPerPixel(RGBA8), allowPalette, allowGreyscale)
  {
    hide Fits, ColoursOf, Undercounted;
    CountedRight(data, n, RGBA8);
  }

  /** Two greys that are neither black nor white, in a palette of two: the mode chosen has one bit per pixel and makes
      them black and white. */
  lemma PaletteLoses()
    ensures var mode := ColorMode(Palette, 1, [Rgba(100, 100, 100, 255), Rgba(200, 200, 200, 255)], None);
            Fits([80], 4, mode) && Loses(ColoursOf([80], 4, mode), 1, true, true)
  {
    hide Fits, ColoursOf, Loses;
    var a, b := Rgba(100, 100, 100, 255), Rgba(200, 200, 200, 255);
    FourPixels(ColorMode(Palette, 1, [a, b], None), a, b);
    FourGreysLose([a, b, a, b]);
  }

  /** No palette is smaller than one bit per pixel, and the count of bits stops there. */
  lemma FourGreysLose(px: seq<Rgba>)
    requires px != [] && RequiredBits(px[0].r) > 1 && AllGrey(px) && AllSolid(px)
    ensures Loses(px, 1, true, true)
  {
    hide CountedBits, NumColors, AllGrey, AllSolid, RequiredBits;
    CountStays(px);
  }

  lemma {:induction false} CountStays(px: seq<Rgba>)
    ensures CountedBits(px, 1) == 1
    decreases |px|
  {
    if px != [] { CountStays(px[..|px| - 1]); }
  }

  lemma FourPixels(mode: ColorMode, a: Rgba, b: Rgba)
    requires mode == ColorMode(Palette, 1, [a, b], None)
    ensures Fits([80], 4, mode) && ColoursOf([80], 4, mode) == [a, b, a, b]
  {
    hide ColoursOf, PixelAt, BitAt, PixelBits;
    var bits := PixelBits([80]);
    assert BitAt(80, 7) == BitAt(80, 5) == false && BitAt(80, 6) == BitAt(80, 4) == true by { BitsOf80(); }
    PixelBitAt([80], 0); PixelBitAt([80], 1); PixelBitAt([80], 2); PixelBitAt([80], 3);
    forall i | 0 <= i < 4 ensures Fits([80], i + 1, mode) && PixelAt([80], i, mode) == if bits[i] then b else a {
      OneBitPixel([80], i, mode, a, b);
    }
  }

  lemma BitsOf80()
    ensures BitAt(80, 7) == BitAt(80, 5) == false && BitAt(80, 6) == BitAt(80, 4) == true
  {
    Pow2Values();
  }

  lemma OneBitPixel(data: seq<byte>, i: nat, mode: ColorMode, a: Rgba, b: Rgba)
    requires mode == ColorMode(Palette, 1, [a, b], None) && i < 8 * |data|
    ensures Fits(data, i + 1, mode) && PixelAt(data, i, mode) == if PixelBits(data)[i] then b else a
  {
    hide PixelBits;
    var s := Adam7.Pixel(PixelBits(data), 1, i);
    assert s == [PixelBits(data)[i]];
    assert s[..0] == [] && Msb(s[..0]) == 0;
    assert Msb(s) == Bit(s[0]);
    assert Pow2(1) == 2;
  }

  lemma RoomForRgba(out: seq<byte>, n: nat)
    requires |out| == 4 * n
    ensures Fits(out, n, RGBA8)
  {
    AreaIs(4, n);
  }

  /** In an RGBA buffer the colours are the bytes. */
  lemma ColoursAreBytes(a: seq<byte>, b: seq<byte>, n: nat)
    requires Fits(a, n, RGBA8) && Fits(b, n, RGBA8) && ColoursOf(a, n, RGBA8) == ColoursOf(b, n, RGBA8)
    ensures 4 * n <= |a| && 4 * n <= |b| && a[..4 * n] == b[..4 * n]
  {
    AreaIs(4, n);
    hide ColoursOf, Fits, PixelAt;
    forall q | 0 <= q < 4 * n ensures a[q] == b[q] {
      var i := q / 4;
      RgbaBytes(a, n, i);
      RgbaBytes(b, n, i);
    }
  }

  lemma RgbaBytes(a: seq<byte>, n: nat, i: nat)
    requires Fits(a, n, RGBA8) && i < n
    ensures 4 * i + 4 <= |a| && ColoursOf(a, n, RGBA8)[i] == Rgba(a[4 * i], a[4 * i + 1], a[4 * i + 2], a[4 * i + 3])
  {
    hide ColoursOf, Fits;
    ByteColour(a, n, RGBA8, i);
  }

  lemma AllRgba(px: seq<Rgba>)
    ensures Lossless(px, RGBA8) && forall t | 0 <= t < |px| :: Projected(px[t], RGBA8).Some?
  {}

  lemma AllProjected(px: seq<Rgba>, mode: ColorMode)
    requires Legal(mode) && (Lossless(px, mode) || mode.colortype != Palette)
    ensures forall t | 0 <= t < |px| :: Projected(px[t], mode).Some?
  {}

  lemma StoredColours(out: seq<byte>, px: seq<Rgba>, mode: ColorMode, n: nat)
    requires Legal(mode) && |px| == n && Stored(out, px, mode, n)
    ensures Fits(out, n, mode) && (ColoursOf(out, n, mode) == px <==> Lossless(px, mode))
  {
    hide PixelAt, Projected, Fits;
    forall t | 0 <= t < n ensures Projected(px[t], mode) == Some(ColoursOf(out, n, mode)[t]) {
      assert IsStored(out, t, px[t], mode);
    }
    hide ColoursOf;
    var colours := ColoursOf(out, n, mode);
    if Lossless(px, mode) {
      assert forall t | 0 <= t < n :: colours[t] == px[t];
      assert colours == px;
    }
  }

  lemma RoomFor(out: seq<byte>, n: nat, mode: ColorMode)
    requires Legal(mode) && |out| == RawSize(n, mode)
    ensures Fits(out, n, mode)
  {
    var k := Channels(mode.colortype);
    if mode.bitdepth == 8 {
      Adam7.Eightfold(k, n);
      assert Area(k * 8, n) == 8 * Area(k, n);
    }
  }
}
