/** Colour statistics of an image of any mode with at most eight bits per channel. */
module ColorStatistics {
  import opened Wrappers
  import opened Bits
  import Buffers
  import opened ColorTrees
  import opened Colors
  import ColorConvert
  import Adam7

  predicate IsGrey(c: Rgba) {
    c.r == c.g && c.r == c.b
  }

  predicate SameRgb(c: Rgba, d: Rgba) {
    c.r == d.r && c.g == d.g && c.b == d.b
  }

  ghost predicate AllSolid(px: seq<Rgba>) {
    forall i | 0 <= i < |px| :: px[i].a == 255
  }

  /** All transparent pixels have the colour `k`, all others are solid and have another. */
  ghost predicate KeyWorks(px: seq<Rgba>, k: Rgba) {
    forall i | 0 <= i < |px| :: if SameRgb(px[i], k) then px[i].a == 0 else px[i].a == 255
  }

  /** Two pixels no key can serve. */
  predicate Clash(c: Rgba, d: Rgba) {
    (c.a != 0 && c.a != 255) || (c.a == 0 && (if d.a == 0 then !SameRgb(c, d) else SameRgb(c, d)))
  }

  ghost predicate NoKey(px: seq<Rgba>) {
    exists i, j :: 0 <= i < |px| && 0 <= j < |px| && Clash(px[i], px[j])
  }

  /** An alpha channel is called for only when it is needed. */
  lemma NoKeyWorks(px: seq<Rgba>, k: Rgba)
    requires NoKey(px)
    ensures !AllSolid(px) && !KeyWorks(px, k)
  {
    var i, j :| 0 <= i < |px| && 0 <= j < |px| && Clash(px[i], px[j]);
    if KeyWorks(px, k) { KeyServes(px, k, i, j); }
  }

  lemma KeyServes(px: seq<Rgba>, k: Rgba, i: nat, j: nat)
    requires KeyWorks(px, k) && i < |px| && j < |px|
    ensures !Clash(px[i], px[j])
  {}

  /** What the alpha state says about the pixels seen. */
  ghost predicate AlphaSeen(px: seq<Rgba>, alpha: bool, key: bool, k: Rgba) {
    if alpha then !key && NoKey(px)
    else if key then
      && (exists i :: 0 <= i < |px| && px[i].a == 0 && SameRgb(px[i], k))
      && forall i | 0 <= i < |px| :: px[i].a == 255 || (px[i].a == 0 && SameRgb(px[i], k))
    else AllSolid(px)
  }

  ghost predicate AllGrey(px: seq<Rgba>) {
    forall i | 0 <= i < |px| :: IsGrey(px[i])
  }

  /** What the palette says about them; 257 stands for more colours than a palette holds. */
  ghost predicate ColoursSeen(px: seq<Rgba>, numcolors: nat, palette: seq<Rgba>) {
    && numcolors <= 257 && |palette| == (if numcolors <= 256 then numcolors else 256)
    && (forall i, j | 0 <= i < j < |palette| :: palette[i] != palette[j])
    && (forall c | c in palette :: c in px)
    && if numcolors <= 256 then forall c | c in px :: c in palette else exists c :: c in px && c !in palette
  }

  ghost predicate BitsSeen(px: seq<Rgba>, bits: nat) {
    forall i | 0 <= i < |px| :: RequiredBits(px[i].r) <= bits
  }

  /** The bits counted: pixels are no longer looked at once the count has reached the bits per pixel of the input. */
  ghost function CountedBits(px: seq<Rgba>, bpp: nat): (bits: nat)
    ensures bits in {1, 2, 4, 8}
  {
    if px == [] then 1
    else
      var bits, required := CountedBits(px[..|px| - 1], bpp), RequiredBits(px[|px| - 1].r);
      if bits >= bpp || required <= bits then bits else required
  }

  /** Some pixel needs more bits than were counted. */
  ghost predicate Undercounted(px: seq<Rgba>, bpp: nat) {
    !BitsSeen(px, CountedBits(px, bpp))
  }

  /** A count that has not stopped is right. */
  lemma {:induction false} CountIsRight(px: seq<Rgba>, bpp: nat)
    ensures CountedBits(px, bpp) < bpp || CountedBits(px, bpp) == 8 ==> BitsSeen(px, CountedBits(px, bpp))
  {
    if px != [] {
      var front := px[..|px| - 1];
      CountIsRight(front, bpp);
      forall i | 0 <= i < |px| && (CountedBits(px, bpp) < bpp || CountedBits(px, bpp) == 8)
        ensures RequiredBits(px[i].r) <= CountedBits(px, bpp)
      {
        if i < |front| { assert front[i] == px[i]; }
      }
    }
  }

  lemma {:induction false} CountStops(px: seq<Rgba>, bpp: nat, i: nat)
    requires i <= |px| && CountedBits(px[..i], bpp) >= bpp
    ensures CountedBits(px, bpp) == CountedBits(px[..i], bpp)
    decreases |px| - i
  {
    if i == |px| {
      TakeAll(px, i);
    } else {
      assert px[..i + 1][..i] == px[..i];
      CountStops(px, bpp, i + 1);
    }
  }

  lemma CountNext(px: seq<Rgba>, c: Rgba, bpp: nat)
    ensures CountedBits(px + [c], bpp)
         == if CountedBits(px, bpp) >= bpp || RequiredBits(c.r) <= CountedBits(px, bpp) then CountedBits(px, bpp)
             else RequiredBits(c.r)
  {
    assert (px + [c])[..|px|] == px;
  }

  /** Grey input of few bits never needs more of them. */
  lemma {:induction false} NarrowGrey(px: seq<Rgba>, bpp: nat)
    requires bpp in {1, 2, 4} && BitsSeen(px, bpp)
    ensures !Undercounted(px, bpp)
  {
    if px != [] {
      var front, last := px[..|px| - 1], px[|px| - 1];
      forall i | 0 <= i < |front| ensures RequiredBits(front[i].r) <= bpp { assert front[i] == px[i]; }
      NarrowGrey(front, bpp);
      forall i | 0 <= i < |px| ensures RequiredBits(px[i].r) <= CountedBits(px, bpp) {
        if i < |front| { assert front[i] == px[i]; }
      }
    }
  }

  ghost predicate ColourSeen(px: seq<Rgba>, colored: bool) {
    colored <==> exists i :: 0 <= i < |px| && !IsGrey(px[i])
  }

  // ---------------------------------------------------------------- what the input mode says beforehand

  /** `lodepng_is_greyscale_type` */
  predicate IsGreyType(mode: ColorMode) {
    mode.colortype == Grey || mode.colortype == GreyAlpha
  }

  predicate HasAlpha(mode: ColorMode) {
    mode.colortype == GreyAlpha || mode.colortype == RgbAlpha
  }

  /** `lodepng_can_have_alpha`; a key or a palette counts even where the mode makes no use of it. */
  method CanHaveAlpha(mode: ColorMode) returns (b: bool)
    ensures !b ==> mode.key.None? && !HasAlpha(mode) && forall i | 0 <= i < |mode.palette| :: mode.palette[i].a == 255
  {
    if mode.key.Some? || HasAlpha(mode) { return true; }
    for i := 0 to |mode.palette|
      invariant forall k | 0 <= k < i :: mode.palette[k].a == 255
    {
      if mode.palette[i].a < 255 { return true; }
    }
    b := false;
  }

  /** The colours an input of one channel can have. */
  ghost function PossibleColours(mode: ColorMode, n: nat): set<Rgba>
    requires mode.bitdepth > 0 && n <= Pow2(mode.bitdepth)
  {
    set v: nat | v < n :: FromSample(v, mode)
  }

  lemma {:induction false} FewColours(mode: ColorMode, n: nat)
    requires mode.bitdepth > 0 && n <= Pow2(mode.bitdepth)
    ensures |PossibleColours(mode, n)| <= n
  {
    hide FromSample, Pow2;
    if n > 0 {
      FewColours(mode, n - 1);
      assert PossibleColours(mode, n) == PossibleColours(mode, n - 1) + {FromSample(n - 1, mode)};
    } else {
      assert PossibleColours(mode, 0) == {};
    }
  }

  lemma OneChannelColour(data: seq<byte>, i: nat, mode: ColorMode)
    requires Legal(mode) && Channels(mode.colortype) == 1 && Fits(data, i + 1, mode)
    ensures PixelAt(data, i, mode) in PossibleColours(mode, Pow2(mode.bitdepth))
    ensures exists v: nat :: v <= Highest(mode.bitdepth) && PixelAt(data, i, mode) == FromSample(v, mode)
  {
    hide FromSample, Buffers.PixelBits, Msb;
    var v: nat;
    if mode.bitdepth == 8 {
      Pow2Values();
      v := Adam7.Pixel(data, 1, i)[0];
    } else {
      var bits := Adam7.Pixel(Buffers.PixelBits(data), mode.bitdepth, i);
      MsbBound(bits);
      v := Msb(bits);
    }
    assert PixelAt(data, i, mode) == FromSample(v, mode);
  }

  lemma {:induction false} DistinctCount(s: seq<Rgba>)
    requires forall i, j | 0 <= i < j < |s| :: s[i] != s[j]
    ensures |set c | c in s| == |s|
  {
    if s != [] {
      var front, last := s[..|s| - 1], s[|s| - 1];
      DistinctCount(front);
      assert s == front + [last];
      assert (set c | c in s) == (set c | c in front) + {last};
      assert last !in front;
    }
  }

  /** When as many colours have been seen as there can be, all have. */
  lemma AllColoursSeen(px: seq<Rgba>, seen: seq<Rgba>, numcolors: nat, palette: seq<Rgba>, mode: ColorMode)
    requires mode.bitdepth > 0 && Pow2(mode.bitdepth) <= 256 && numcolors >= Pow2(mode.bitdepth)
    requires ColoursSeen(seen, numcolors, palette) && (forall c | c in seen :: c in px)
    requires forall c | c in px :: c in PossibleColours(mode, Pow2(mode.bitdepth))
    ensures ColoursSeen(px, numcolors, palette)
  {
    hide FromSample, Pow2, PossibleColours;
    var all, some := PossibleColours(mode, Pow2(mode.bitdepth)), set c | c in palette;
    FewColours(mode, Pow2(mode.bitdepth));
    DistinctCount(palette);
    assert some <= all;
    SubsetSize(some, all);
    forall c | c in px ensures c in palette { assert c in some; }
    if numcolors > 256 { assert false; }
  }

  lemma SubsetSize(a: set<Rgba>, b: set<Rgba>)
    requires a <= b
    ensures |a| <= |b| && (|a| == |b| ==> a == b)
  {
    assert b == a + (b - a);
    assert |b| == |a| + |b - a|;
  }

  class ColorStats {
    var colored: bool
    var key: bool
    var keyR: nat
    var keyG: nat
    var keyB: nat
    var alpha: bool
    var numcolors: nat
    var palette: seq<Rgba>
    var bits: nat
    var numpixels: nat
    var allowPalette: bool
    var allowGreyscale: bool

    /** `lodepng_color_stats_init` */
    constructor ()
      ensures Fresh() && allowPalette && allowGreyscale
    {
      colored, key, alpha := false, false, false;
      keyR, keyG, keyB := 0, 0, 0;
      numcolors, palette, bits, numpixels := 0, [], 1, 0;
      allowPalette, allowGreyscale := true, true;
    }

    ghost predicate Fresh()
      reads this
    {
      !colored && !key && !alpha && numcolors == 0 && palette == [] && bits == 1 && numpixels == 0
      && keyR == 0 && keyG == 0 && keyB == 0
    }

    /** The statistics of the pixels `px`; the key has been widened to sixteen bits. */
    ghost predicate Describe(px: seq<Rgba>, bpp: nat)
      reads this
    {
      && ColourSeen(px, colored) && bits == (if colored || alpha then 8 else CountedBits(px, bpp)) && numpixels == |px|
      && (if allowPalette then ColoursSeen(px, numcolors, palette) else numcolors == 0)
      && (if alpha then !key && NoKey(px)
          else if key then
            && keyR <= 65535 && keyG <= 65535 && keyB <= 65535
            && KeyColour().r as nat * 257 == keyR && KeyColour().g as nat * 257 == keyG
                && KeyColour().b as nat * 257 == keyB
            && (exists i :: 0 <= i < |px| && px[i].a == 0) && KeyWorks(px, KeyColour())
          else AllSolid(px))
    }

    ghost function KeyColour(): Rgba
      reads this
      requires keyR <= 65535 && keyG <= 65535 && keyB <= 65535
    {
      Rgba(keyR / 256, keyG / 256, keyB / 256, 0)
    }

    /** While pixels are being looked at the key still has eight bits. */
    ghost predicate Seen(px: seq<Rgba>, bpp: nat)
      reads this
    {
      && ColourSeen(px, colored) && bits == (if colored || alpha then 8 else CountedBits(px, bpp))
      && keyR <= 255 && keyG <= 255 && keyB <= 255 && AlphaSeen(px, alpha, key, Rgba(keyR, keyG, keyB, 0))
      && (if allowPalette then ColoursSeen(px, numcolors, palette) else numcolors == 0)
    }

    /** The flags for bits and colour; only red is looked at for the bits, which matter for grey images alone. */
    method SeeBitsAndColour(c: Rgba, bitsDone0: bool, coloredDone0: bool, bpp: nat, ghost px: seq<Rgba>)
      returns (bitsDone: bool, coloredDone: bool)
      requires ColourSeen(px, colored) && bits == (if colored || alpha then 8 else CountedBits(px, bpp))
      requires !colored && !alpha ==> bitsDone0 == (bits >= bpp)
      requires (colored ==> coloredDone0) && (coloredDone0 ==> colored || IsGrey(c))
      modifies this`bits, this`colored
      ensures ColourSeen(px + [c], colored) && bits == (if colored || alpha then 8 else CountedBits(px + [c], bpp))
      ensures !colored && !alpha ==> bitsDone == (bits >= bpp)
      ensures coloredDone == (coloredDone0 || colored) && (old(colored) ==> colored)
    {
      hide CountedBits, RequiredBits;
      ghost var px' := px + [c];
      CountNext(px, c, bpp);
      if !bitsDone0 && bits < 8 {
        var required := GetValueRequiredBits(c.r);
        if required > bits { bits := required; }
      }
      RequiredAtMost(c.r);
      bitsDone := bits >= bpp;
      coloredDone := coloredDone0;
      if !coloredDone && (c.r != c.g || c.r != c.b) {
        colored := true;
        coloredDone := true;
        if bits < 8 { bits := 8; }
        assert !IsGrey(px'[|px|]);
      }
      if exists i :: 0 <= i < |px| && !IsGrey(px[i]) {
        ghost var i :| 0 <= i < |px| && !IsGrey(px[i]);
        assert px'[i] == px[i];
      }
    }

    /** Colour key or alpha channel. */
    method SeeAlpha(c: Rgba, alphaDone0: bool, ghost px: seq<Rgba>) returns (alphaDone: bool)
      requires (alpha ==> alphaDone0) && (alphaDone0 ==> alpha || (!key && c.a == 255)) && keyR <= 255 && keyG <= 255
      requires keyB <= 255
      requires AlphaSeen(px, alpha, key, Rgba(keyR, keyG, keyB, 0)) && bits <= 8 && (alpha ==> bits == 8)
      modifies this`alpha, this`key, this`keyR, this`keyG, this`keyB, this`bits
      ensures alphaDone == (alphaDone0 || alpha) && keyR <= 255 && keyG <= 255 && keyB <= 255
      ensures (alphaDone0 ==> alpha == old(alpha) && !key)
      ensures AlphaSeen(px + [c], alpha, key, Rgba(keyR, keyG, keyB, 0))
      ensures bits == if alpha then 8 else old(bits)
    {
      hide AlphaSeen;
      ghost var px', n := px + [c], |px|;
      alphaDone := alphaDone0;
      AlphaMore(px, c, alpha, key, Rgba(keyR, keyG, keyB, 0));
      AlphaFlags(px, alpha, key, Rgba(keyR, keyG, keyB, 0));
      if !alphaDone {
        var matchkey := c.r as nat == keyR && c.g as nat == keyG && c.b as nat == keyB;
        if c.a != 255 && (c.a != 0 || (key && !matchkey)) {
          alpha := true;
          key := false;
          alphaDone := true;
          if bits < 8 { bits := 8; }
        } else if c.a == 0 && !alpha && !key {
          key := true;
          keyR, keyG, keyB := c.r, c.g, c.b;
        } else if c.a == 255 && key && matchkey {
          alpha := true;
          key := false;
          alphaDone := true;
          if bits < 8 { bits := 8; }
        }
      }
    }

    /** The number of different colours, and the first 256 of them; `max` is where counting stops. */
    method SeeNumColors(c: Rgba, tree: ColorTree, max: nat, done0: bool, ghost px: seq<Rgba>)
      returns (tree': ColorTree, done: bool)
      requires if allowPalette then ColoursSeen(px, numcolors, palette) && done0 == (numcolors >= max)
            else numcolors == 0 && done0
      requires max <= 257 && (allowPalette && done0 && numcolors <= 256 ==> c in palette)
      requires !done0 ==> TreeFor(tree, palette, |palette|)
      modifies this`numcolors, this`palette
      ensures if allowPalette then ColoursSeen(px + [c], numcolors, palette) && done == (numcolors >= max)
            else numcolors == 0 && done
      ensures !done ==> TreeFor(tree', palette, |palette|)
    {
      hide TreeFor, ColoursSeen, Shaped, Index, Add;
      tree', done := tree, done0;
      if allowPalette { MoreColours(px, c, numcolors, palette); }
      if !done {
        TreeKnows(tree, palette, c);
        var index := ColorTreeGet(tree, c);
        if index < 0 {
          tree' := Add(tree, c, numcolors, 0);
          if numcolors < 256 {
            TreeGrows(tree, palette, c);
            palette := palette + [c];
          }
          numcolors := numcolors + 1;
          done := numcolors >= max;
        }
      }
    }

    /** `lodepng_compute_color_stats` for fresh statistics. */
    method ComputeColorStats(data: array<byte>, n: nat, mode: ColorMode)
      requires Fresh() && Legal(mode) && Fits(data[..], n, mode)
      modifies this
      ensures Describe(ColoursOf(data[..], n, mode), BitsPerPixel(mode))
      ensures allowPalette == old(allowPalette) && allowGreyscale == old(allowGreyscale)
    {
      hide Fits, PixelAt, ColourSeen, CountedBits, AlphaSeen, ColoursSeen, TreeFor, ColoursOf, Legal, BitsPerPixel;
      ghost var px := ColoursOf(data[..], n, mode);
      LookAtAll(data, n, mode, px);
      AlphaFlags(px, alpha, key, Rgba(keyR, keyG, keyB, 0));
      if key && !alpha { LookForKey(data, n, mode, px); }
      ghost var r, g, b := keyR, keyG, keyB;
      keyR := keyR + keyR * 256;
      keyG := keyG + keyG * 256;
      keyB := keyB + keyB * 256;
      AllSeen(px, BitsPerPixel(mode), r, g, b);
    }

    /** What is already settled: by the mode, or by what has been seen. */
    ghost predicate Settled(px: seq<Rgba>, max: nat, coloredDone: bool, alphaDone: bool, numcolorsDone: bool)
      reads this
    {
      && (colored ==> coloredDone) && (coloredDone ==> colored || AllGrey(px))
      && (alpha ==> alphaDone) && (alphaDone ==> alpha || (!key && AllSolid(px)))
      && numcolorsDone == (!allowPalette || numcolors >= max)
    }

    /** The first pass. */
    method LookAtAll(data: array<byte>, n: nat, mode: ColorMode, ghost px: seq<Rgba>)
      requires Fresh() && Legal(mode) && Fits(data[..], n, mode) && px == ColoursOf(data[..], n, mode)
      modifies this
      ensures Seen(px, BitsPerPixel(mode)) && numpixels == n
      ensures allowPalette == old(allowPalette) && allowGreyscale == old(allowGreyscale)
    {
      hide Fits, PixelAt, ColourSeen, CountedBits, AlphaSeen, ColoursSeen, TreeFor, ColoursOf, AllGrey, AllSolid, Legal,
          BitsPerPixel;
      var coloredDone := IsGreyType(mode);
      var canHaveAlpha := CanHaveAlpha(mode);
      ModeSettles(data[..], n, mode, px, !canHaveAlpha);
      var bpp := BitsPerPixel(mode);
      var bitsDone := bits == 1 && bpp == 1;
      BppIsPositive(mode);
      var max := 257;
      if bpp <= 8 && numcolors + Pow2(bpp) < 257 { max := numcolors + Pow2(bpp); }
      numpixels := numpixels + n;
      var tree := NewNode();
      ColorConvert.EmptyTree(palette);
      NothingSeen(Rgba(0, 0, 0, 0), bpp);
      LookOn(data, n, mode, bpp, max, tree, coloredDone, !canHaveAlpha, !allowPalette, bitsDone, px);
    }

    method LookOn(data: array<byte>, n: nat, mode: ColorMode, bpp: nat, max: nat, tree0: ColorTree, coloredDone0: bool,
                  alphaDone0: bool, numcolorsDone0: bool, bitsDone0: bool, ghost px: seq<Rgba>)
      requires Legal(mode) && Fits(data[..], n, mode) && px == ColoursOf(data[..], n, mode) && bpp == BitsPerPixel(mode)
      requires 0 < max <= 257 && (max < 257 ==> AtMost(px, mode, max))
      requires Seen([], bpp) && TreeFor(tree0, palette, |palette|) && bitsDone0 == (bits >= bpp) && !colored && !alpha
      requires Settled(px, max, coloredDone0, alphaDone0, numcolorsDone0)
      modifies this
      ensures Seen(px, bpp) && numpixels == old(numpixels) && allowPalette == old(allowPalette)
      ensures allowGreyscale == old(allowGreyscale)
    {
      hide *;
      var coloredDone, alphaDone, numcolorsDone, bitsDone := coloredDone0, alphaDone0, numcolorsDone0, bitsDone0;
      var tree := tree0;
      assert px[..0] == [];
      for i := 0 to n
        invariant |px| == n && px == ColoursOf(data[..], n, mode) && Fits(data[..], n, mode)
        invariant Seen(px[..i], bpp) && numpixels == old(numpixels) && allowPalette == old(allowPalette)
        invariant allowGreyscale == old(allowGreyscale)
        invariant Settled(px, max, coloredDone, alphaDone, numcolorsDone)
        invariant !colored && !alpha ==> bitsDone == (bits >= bpp)
        invariant !numcolorsDone ==> TreeFor(tree, palette, |palette|)
      {
        var c := ReadColour(data, i, n, mode, px);
        tree, coloredDone, alphaDone, numcolorsDone, bitsDone :=
          SeePixel(c, mode, bpp, max, tree, coloredDone, alphaDone, numcolorsDone, bitsDone, px, i);
        if alphaDone && numcolorsDone && coloredDone && bitsDone {
          NothingNew(px, i + 1, bpp, max, mode);
          return;
        }
      }
      TakeAll(px, n);
    }

    method SeePixel(c: Rgba, ghost mode: ColorMode, bpp: nat, max: nat, tree0: ColorTree, coloredDone0: bool,
                    alphaDone0: bool, numcolorsDone0: bool, bitsDone0: bool, ghost px: seq<Rgba>, ghost i: nat)
      returns (tree: ColorTree, coloredDone: bool, alphaDone: bool, numcolorsDone: bool, bitsDone: bool)
      requires i < |px| && c == px[i] && max <= 257 && (max < 257 ==> AtMost(px, mode, max))
      requires Seen(px[..i], bpp) && Settled(px, max, coloredDone0, alphaDone0, numcolorsDone0)
      requires !colored && !alpha ==> bitsDone0 == (bits >= bpp)
      requires !numcolorsDone0 ==> TreeFor(tree0, palette, |palette|)
      modifies this
      ensures Seen(px[..i + 1], bpp) && Settled(px, max, coloredDone, alphaDone, numcolorsDone)
      ensures !colored && !alpha ==> bitsDone == (bits >= bpp)
      ensures !numcolorsDone ==> TreeFor(tree, palette, |palette|)
      ensures numpixels == old(numpixels) && allowPalette == old(allowPalette) && allowGreyscale == old(allowGreyscale)
    {
      hide ColourSeen, CountedBits, AlphaSeen, ColoursSeen, TreeFor, AtMost;
      CountAtMost(px[..i], bpp);
      SettledPixel(px, i);
      bitsDone, coloredDone := SeeBitsAndColour(c, bitsDone0, coloredDone0, bpp, px[..i]);
      CountAtMost(px[..i] + [c], bpp);
      alphaDone := SeeAlpha(c, alphaDone0, px[..i]);
      if allowPalette && numcolors >= max && numcolors <= 256 { KnownColour(px, i, numcolors, palette, mode, max); }
      tree, numcolorsDone := SeeNumColors(c, tree0, max, numcolorsDone0, px[..i]);
      TakeNext(px, i);
    }

    /** Once everything is settled the rest of the image changes nothing. */
    lemma NothingNew(px: seq<Rgba>, i: nat, bpp: nat, max: nat, mode: ColorMode)
      requires i <= |px| && Seen(px[..i], bpp) && Settled(px, max, true, true, true)
      requires (!colored && !alpha ==> bits >= bpp)
      requires max <= 257 && (max < 257 ==> AtMost(px, mode, max))
      ensures Seen(px, bpp)
    {
      hide CountedBits, ColoursSeen, AtMost;
      if !colored && !alpha { CountStops(px, bpp, i); }
      if colored {
        var k :| 0 <= k < i && !IsGrey(px[..i][k]);
        assert !IsGrey(px[k]);
      }
      if alpha {
        var a, b :| 0 <= a < i && 0 <= b < i && Clash(px[..i][a], px[..i][b]);
        assert Clash(px[a], px[b]);
      }
      if allowPalette { CountIsComplete(px, i, numcolors, palette, mode, max); }
    }

    /** The second pass: a solid pixel before the first transparent one may have its colour. */
    method LookForKey(data: array<byte>, n: nat, mode: ColorMode, ghost px: seq<Rgba>)
      requires Legal(mode) && Seen(px, BitsPerPixel(mode)) && key && !alpha && Fits(data[..], n, mode)
      requires px == ColoursOf(data[..], n, mode)
      modifies this`alpha, this`key, this`bits
      ensures Seen(px, BitsPerPixel(mode)) && (key ==> !alpha && NoSolidKey(px, n, Rgba(keyR, keyG, keyB, 0)))
    {
      hide Fits, PixelAt, ColourSeen, CountedBits, AlphaSeen, ColoursSeen, ColoursOf, Clash, NoKey, Legal, BitsPerPixel;
      ghost var k := Rgba(keyR, keyG, keyB, 0);
      CountAtMost(px, BitsPerPixel(mode));
      for i := 0 to n
        invariant Seen(px, BitsPerPixel(mode)) && keyR == k.r as nat && keyG == k.g as nat && keyB == k.b as nat
        invariant |px| == n
        invariant AlphaSeen(px, false, true, k) && (key ==> !alpha && NoSolidKey(px, i, k))
      {
        var c := ReadColour(data, i, n, mode, px);
        if c.a != 0 && c.r as nat == keyR && c.g as nat == keyG && c.b as nat == keyB {
          SolidKey(px, k, i);
          alpha := true;
          key := false;
          if bits < 8 { bits := 8; }
        }
      }
    }

    lemma AllSeen(px: seq<Rgba>, bpp: nat, r: nat, g: nat, b: nat)
      requires ColourSeen(px, colored) && bits == (if colored || alpha then 8 else CountedBits(px, bpp))
      requires numpixels == |px|
      requires r <= 255 && g <= 255 && b <= 255 && keyR == r + r * 256 && keyG == g + g * 256 && keyB == b + b * 256
      requires AlphaSeen(px, alpha, key, Rgba(r, g, b, 0)) && (key ==> !alpha && NoSolidKey(px, |px|, Rgba(r, g, b, 0)))
      requires if allowPalette then ColoursSeen(px, numcolors, palette) else numcolors == 0
      ensures Describe(px, bpp)
    {
      hide ColourSeen, CountedBits, ColoursSeen, KeyWorks, NoSolidKey, NoKey, AllSolid;
      if key { KeySeen(px, Rgba(r, g, b, 0)); }
    }
  }

  lemma KeySeen(px: seq<Rgba>, k: Rgba)
    requires AlphaSeen(px, false, true, k) && NoSolidKey(px, |px|, k)
    ensures (exists i :: 0 <= i < |px| && px[i].a == 0) && KeyWorks(px, k)
  {}

  /** None of the first `i` pixels is solid and has the key colour. */
  ghost predicate NoSolidKey(px: seq<Rgba>, i: nat, k: Rgba) {
    i <= |px| && forall j | 0 <= j < i :: SameRgb(px[j], k) ==> px[j].a == 0
  }

  lemma SolidKey(px: seq<Rgba>, k: Rgba, j: nat)
    requires AlphaSeen(px, false, true, k) && j < |px| && px[j].a != 0 && SameRgb(px[j], k)
    ensures AlphaSeen(px, true, false, k)
  {
    var i :| 0 <= i < |px| && px[i].a == 0 && SameRgb(px[i], k);
    assert Clash(px[i], px[j]);
  }

  lemma AlphaFlags(px: seq<Rgba>, alpha: bool, key: bool, k: Rgba)
    requires AlphaSeen(px, alpha, key, k)
    ensures !(alpha && key)
  {}

  lemma NothingSeen(k: Rgba, bpp: nat)
    ensures ColourSeen([], false) && CountedBits([], bpp) == 1 && AlphaSeen([], false, false, k)
    ensures ColoursSeen([], 0, [])
  {}

  lemma CountAtMost(px: seq<Rgba>, bpp: nat)
    ensures 1 <= CountedBits(px, bpp) <= 8
  {}

  lemma RequiredAtMost(v: byte)
    ensures RequiredBits(v) <= 8
  {}

  lemma BppIsPositive(mode: ColorMode)
    requires Legal(mode)
    ensures BitsPerPixel(mode) > 0
    ensures BitsPerPixel(mode) <= 8 ==> Channels(mode.colortype) == 1 && BitsPerPixel(mode) == mode.bitdepth
  {}

  /** There are no more than `max` colours, all that the mode has. */
  ghost predicate AtMost(px: seq<Rgba>, mode: ColorMode, max: nat) {
    0 < mode.bitdepth && max == Pow2(mode.bitdepth) <= 256 && forall c | c in px :: c in PossibleColours(mode, max)
  }

  lemma SettledPixel(px: seq<Rgba>, i: nat)
    requires i < |px|
    ensures (AllGrey(px) ==> IsGrey(px[i])) && (AllSolid(px) ==> px[i].a == 255)
  {}

  lemma CountIsComplete(px: seq<Rgba>, i: nat, numcolors: nat, palette: seq<Rgba>, mode: ColorMode, max: nat)
    requires i <= |px| && ColoursSeen(px[..i], numcolors, palette) && numcolors >= max
    requires max <= 257 && (max < 257 ==> AtMost(px, mode, max))
    ensures ColoursSeen(px, numcolors, palette)
  {
    hide PossibleColours, Pow2;
    forall c | c in px[..i] ensures c in px {}
    if max < 257 {
      AllColoursSeen(px, px[..i], numcolors, palette, mode);
    } else {
      var c :| c in px[..i] && c !in palette;
      assert c in px;
    }
  }

  lemma KnownColour(px: seq<Rgba>, i: nat, numcolors: nat, palette: seq<Rgba>, mode: ColorMode, max: nat)
    requires i < |px| && ColoursSeen(px[..i], numcolors, palette) && max <= numcolors <= 256
    requires AtMost(px, mode, max)
    ensures px[i] in palette
  {
    hide AtMost;
    CountIsComplete(px, i, numcolors, palette, mode, max);
  }

  /** What the mode settles before any pixel is looked at. */
  lemma ModeSettles(data: seq<byte>, n: nat, mode: ColorMode, px: seq<Rgba>, solid: bool)
    requires Legal(mode) && Fits(data, n, mode) && px == ColoursOf(data, n, mode)
    requires solid ==>
               && mode.key.None? && !HasAlpha(mode)
               && forall i | 0 <= i < |mode.palette| :: mode.palette[i].a == 255
    ensures IsGreyType(mode) ==> AllGrey(px)
    ensures solid ==> AllSolid(px)
    ensures BitsPerPixel(mode) <= 8 && Pow2(BitsPerPixel(mode)) < 257 ==> AtMost(px, mode, Pow2(BitsPerPixel(mode)))
  {
    hide ColoursOf, PixelAt, Fits, PossibleColours, Pow2;
    BppIsPositive(mode);
    AllFit(data, n, mode);
    forall i | 0 <= i < n
      ensures IsGreyType(mode) ==> IsGrey(px[i])
      ensures solid ==> px[i].a == 255
      ensures BitsPerPixel(mode) <= 8 ==> px[i] in PossibleColours(mode, Pow2(mode.bitdepth))
    {
      PixelSettled(data, i, mode, solid);
      if Channels(mode.colortype) == 1 { OneChannelColour(data, i, mode); }
    }
  }

  lemma PixelSettled(data: seq<byte>, i: nat, mode: ColorMode, solid: bool)
    requires Legal(mode) && Fits(data, i + 1, mode)
    requires solid ==>
               && mode.key.None? && !HasAlpha(mode)
               && forall i | 0 <= i < |mode.palette| :: mode.palette[i].a == 255
    ensures IsGreyType(mode) ==> IsGrey(PixelAt(data, i, mode))
    ensures solid ==> PixelAt(data, i, mode).a == 255
  {
    if Channels(mode.colortype) == 1 {
      OneChannelColour(data, i, mode);
    }
  }

  method ReadColour(data: array<byte>, i: nat, n: nat, mode: ColorMode, ghost px: seq<Rgba>) returns (c: Rgba)
    requires Legal(mode) && Fits(data[..], n, mode) && px == ColoursOf(data[..], n, mode) && i < n
    ensures |px| == n && c == px[i]
  {
    hide Fits, PixelAt, Legal;
    FitsFewer(data[..], i + 1, n, mode);
    c := GetPixelColorRGBA8(data, i, mode);
  }

  /** `getValueRequiredBits` */
  method GetValueRequiredBits(value: byte) returns (bits: nat)
    ensures bits == RequiredBits(value) && bits in {1, 2, 4, 8}
  {
    if value == 0 || value == 255 { return 1; }
    if value % 17 == 0 { return if value % 85 == 0 then 2 else 4; }
    return 8;
  }

  /** One more pixel, of a colour that is known or not. */
  lemma MoreColours(px: seq<Rgba>, c: Rgba, numcolors: nat, palette: seq<Rgba>)
    requires ColoursSeen(px, numcolors, palette)
    ensures numcolors <= 257 && |palette| == if numcolors <= 256 then numcolors else 256
    ensures numcolors >= 257 || c in palette ==> ColoursSeen(px + [c], numcolors, palette)
    ensures numcolors <= 256 && c !in palette ==>
              ColoursSeen(px + [c], numcolors + 1, if numcolors < 256 then palette + [c] else palette)
  {
    var px', palette' := px + [c], palette + [c];
    forall d | d in palette ensures d in px' { assert d in px; }
    assert px'[|px|] == c && c in px';
    if numcolors >= 257 {
      var d :| d in px && d !in palette;
      assert d in px';
    }
    if numcolors < 256 && c !in palette {
      forall d | d in px' ensures d in palette' {
        if d in px { assert d in palette; } else { assert palette'[|palette|] == d; }
      }
      forall i, j | 0 <= i < j < |palette'| ensures palette'[i] != palette'[j] {
        assert palette'[i] == palette[i];
        if j < |palette| { assert palette'[j] == palette[j]; }
      }
    }
  }

  lemma TreeKnows(tree: ColorTree, palette: seq<Rgba>, c: Rgba)
    requires TreeFor(tree, palette, |palette|)
    ensures Shaped(tree, 0) && (Index(tree, c) >= 0 <==> c in palette)
  {
    assert IndexOk(tree, palette, |palette|, c);
    assert palette[..|palette|] == palette;
  }

  lemma TreeGrows(tree: ColorTree, palette: seq<Rgba>, c: Rgba)
    requires TreeFor(tree, palette, |palette|)
    ensures Shaped(tree, 0) && TreeFor(Add(tree, c, |palette|, 0), palette + [c], |palette| + 1)
  {
    hide Index, Shaped, Add;
    var n, palette' := |palette|, palette + [c];
    forall d ensures IndexOk(tree, palette', n, d) {
      assert IndexOk(tree, palette, n, d);
      assert palette[..n] == palette'[..n];
    }
    ColorConvert.TreeNext(tree, palette', n);
  }

  /** One more pixel: what the state must become. */
  lemma AlphaMore(px: seq<Rgba>, c: Rgba, alpha: bool, key: bool, k: Rgba)
    requires AlphaSeen(px, alpha, key, k)
    ensures alpha ==> AlphaSeen(px + [c], true, false, k)
    ensures c.a != 255 && c.a != 0 ==> forall k' :: AlphaSeen(px + [c], true, false, k')
    ensures !alpha && key && c.a == 0 && !SameRgb(c, k) ==> forall k' :: AlphaSeen(px + [c], true, false, k')
    ensures !alpha && key && c.a == 255 && SameRgb(c, k) ==> forall k' :: AlphaSeen(px + [c], true, false, k')
    ensures !alpha && !key && c.a == 0 ==> forall k' | SameRgb(c, k') :: AlphaSeen(px + [c], false, true, k')
    ensures !alpha && !key && c.a == 255 ==> forall k' :: AlphaSeen(px + [c], false, false, k')
    ensures !alpha && key && ((c.a == 0 && SameRgb(c, k)) || (c.a == 255 && !SameRgb(c, k))) ==>
          AlphaSeen(px + [c], false, true, k)
  {
    var px', n := px + [c], |px|;
    assert px'[n] == c;
    if alpha {
      var i, j :| 0 <= i < |px| && 0 <= j < |px| && Clash(px[i], px[j]);
      assert Clash(px'[i], px'[j]);
    } else if c.a != 255 && c.a != 0 {
      assert Clash(px'[n], px'[n]);
    } else if key {
      var i :| 0 <= i < |px| && px[i].a == 0 && SameRgb(px[i], k);
      assert px'[i] == px[i];
      if c.a == 0 && !SameRgb(c, k) { assert Clash(px'[n], px'[i]); }
      if c.a == 255 && SameRgb(c, k) { assert Clash(px'[i], px'[n]); }
    }
  }
}
