/** Pixels of the colour modes with at most eight bits per channel, and conversion between them. */
module Colors {
  import opened Wrappers
  import opened Bits
  import opened Buffers
  import opened Adam7
  import opened ColorTrees

  datatype ColorType = Grey | Rgb | Palette | GreyAlpha | RgbAlpha

  datatype Key = Key(r: nat, g: nat, b: nat)

  datatype ColorMode = ColorMode(colortype: ColorType, bitdepth: nat, palette: seq<Rgba>, key: Option<Key>)

  const RGBA8: ColorMode := ColorMode(RgbAlpha, 8, [], None)

  predicate Legal(mode: ColorMode) {
    if mode.colortype == Grey || mode.colortype == Palette then mode.bitdepth in {1, 2, 4, 8} else mode.bitdepth == 8
  }

  function Channels(t: ColorType): nat {
    match t
    case Grey => 1
    case Rgb => 3
    case Palette => 1
    case GreyAlpha => 2
    case RgbAlpha => 4
  }

  function BitsPerPixel(mode: ColorMode): nat {
    Channels(mode.colortype) * mode.bitdepth
  }

  /** Colours not in the palette read as black. */
  function PaletteAt(palette: seq<Rgba>, i: nat): Rgba {
    if i < |palette| then palette[i] else Rgba(0, 0, 0, 255)
  }

  function Highest(bits: nat): (h: nat)
    ensures bits > 0 ==> h > 0
  {
    Pow2(bits) - 1
  }

  /** A grey sample of `bits` bits as eight. */
  function Widen(v: nat, bits: nat): (w: byte)
    requires bits > 0 && v <= Highest(bits)
  {
    WidenBound(v, Highest(bits));
    v * 255 / Highest(bits)
  }

  lemma WidenBound(v: nat, h: nat)
    requires h > 0 && v <= h
    ensures 0 <= v * 255 / h < 256
  {
    DivBounds(v * 255, h);
    if v * 255 / h >= 256 { MulLe(256, v * 255 / h, h); }
  }

  /** What a one-channel sample means. */
  function FromSample(v: nat, mode: ColorMode): Rgba
    requires mode.bitdepth > 0 && v <= Highest(mode.bitdepth)
  {
    if mode.colortype == Palette then PaletteAt(mode.palette, v)
    else
      var g := Widen(v, mode.bitdepth);
      Rgba(g, g, g, if mode.key.Some? && v == mode.key.value.r then 0 else 255)
  }

  /** What the bytes of a pixel mean. */
  function FromBytes(s: seq<byte>, mode: ColorMode): Rgba
    requires |s| == Channels(mode.colortype) && mode.bitdepth == 8
  {
    match mode.colortype
    case Rgb => Rgba(s[0], s[1], s[2], if mode.key == Some(Key(s[0], s[1], s[2])) then 0 else 255)
    case GreyAlpha => Rgba(s[0], s[0], s[0], s[1])
    case RgbAlpha => Rgba(s[0], s[1], s[2], s[3])
    case _ =>
      Pow2Values();
      FromSample(s[0], mode)
  }

  ghost function FromBits(s: seq<bool>, mode: ColorMode): Rgba
    requires |s| == mode.bitdepth > 0
  {
    MsbBound(s);
    FromSample(Msb(s), mode)
  }

  /** `data` has room for pixels `0` to `n - 1`. */
  ghost predicate Fits(data: seq<byte>, n: nat, mode: ColorMode) {
    if mode.bitdepth == 8 then Area(Channels(mode.colortype), n) <= |data| else Area(mode.bitdepth, n) <= 8 * |data|
  }

  /** The colour of pixel `i`. */
  ghost function PixelAt(data: seq<byte>, i: nat, mode: ColorMode): Rgba
    requires Legal(mode) && Fits(data, i + 1, mode)
  {
    if mode.bitdepth == 8 then FromBytes(Pixel(data, Channels(mode.colortype), i), mode)
    else FromBits(Pixel(PixelBits(data), mode.bitdepth, i), mode)
  }

  lemma FitsFewer(data: seq<byte>, i: nat, n: nat, mode: ColorMode)
    requires Fits(data, n, mode) && i <= n
    ensures Fits(data, i, mode)
  {
    AreaOrder(Channels(mode.colortype), i, n);
    AreaOrder(mode.bitdepth, i, n);
  }

  // ---------------------------------------------------------------- storing a colour

  /** What is left of a colour stored in a mode; nothing if the palette lacks it. */
  function Projected(c: Rgba, mode: ColorMode): Option<Rgba>
    requires Legal(mode)
  {
    match mode.colortype
    case Grey => Some(FromGrey(c, mode))
    case Rgb => Some(Rgba(c.r, c.g, c.b, if mode.key == Some(Key(c.r, c.g, c.b)) then 0 else 255))
    case Palette => if c in mode.palette[..InPalette(mode)] then Some(c) else None
    case GreyAlpha => Some(Rgba(c.r, c.r, c.r, c.a))
    case RgbAlpha => Some(c)
  }

  /** How many entries of the palette an index can name. */
  function InPalette(mode: ColorMode): (n: nat)
    ensures n <= |mode.palette| && n <= Pow2(mode.bitdepth)
  {
    if |mode.palette| < Pow2(mode.bitdepth) then |mode.palette| else Pow2(mode.bitdepth)
  }

  function FromGrey(c: Rgba, mode: ColorMode): Rgba
    requires Legal(mode)
  {
    NarrowBound(c.r, mode.bitdepth);
    FromSample(Shr(c.r, 8 - mode.bitdepth), mode)
  }

  lemma NarrowBound(v: byte, bits: nat)
    requires 0 < bits <= 8
    ensures Shr(v, 8 - bits) <= Highest(bits)
  {
    Pow2Values();
    ShrBound(v, 8 - bits, bits);
  }

  /** The fewest bits that keep a grey value. */
  function RequiredBits(v: byte): nat {
    if v == 0 || v == 255 then 1 else if v % 17 == 0 then (if v % 85 == 0 then 2 else 4) else 8
  }

  /** A grey value survives a depth exactly when it needs no more bits. */
  lemma RequiredBitsExact(v: byte, bits: nat)
    requires bits in {1, 2, 4, 8}
    ensures Shr(v, 8 - bits) <= Highest(bits)
    ensures Widen(Shr(v, 8 - bits), bits) == v <==> RequiredBits(v) <= bits
  {
    NarrowBound(v, bits);
    assert Pow2(0) == 1 && Pow2(1) == 2 && Pow2(2) == 4 && Pow2(4) == 16 by { Pow2Values(); }
    assert Pow2(8) == 256 && Pow2(7) == 128 && Pow2(6) == 64 by { Pow2Values(); }
    hide Pow2;
    var w: nat := v;
    if bits == 1 {
      assert Shr(v, 7) == w / 128 && Widen(Shr(v, 7), 1) == w / 128 * 255 / 1;
    } else if bits == 2 {
      assert Shr(v, 6) == w / 64 && Widen(Shr(v, 6), 2) == w / 64 * 255 / 3;
      TwoBits(w);
    } else if bits == 4 {
      assert Shr(v, 4) == w / 16 && Widen(Shr(v, 4), 4) == w / 16 * 255 / 15;
      FourBits(w);
    } else {
      assert Shr(v, 0) == w && Widen(Shr(v, 0), 8) == w * 255 / 255;
    }
  }

  lemma TwoBits(w: nat)
    requires w < 256
    ensures w / 64 * 255 / 3 == w <==> w % 85 == 0
  {}

  lemma FourBits(w: nat)
    requires w < 256
    ensures w / 16 * 255 / 15 == w <==> w % 17 == 0
  {}

  // ---------------------------------------------------------------- reading pixels

  /** `readBitsFromReversedStream` */
  method ReadBits(buf: array<byte>, bp: nat, n: nat) returns (v: nat, bp': nat)
    requires bp + n <= 8 * buf.Length
    ensures v == Msb(PixelBits(buf[..])[bp..bp + n]) && bp' == bp + n
  {
    hide PixelBits;
    ghost var bits := PixelBits(buf[..]);
    v, bp' := 0, bp;
    assert bits[bp..bp] == [];
    for i := 0 to n
      invariant bp' == bp + i && v == Msb(bits[bp..bp + i])
    {
      var bit;
      bit, bp' := ReadBit(buf, bp');
      MsbNext(bits, bp, i);
      v := 2 * v + bit;
    }
  }

  lemma MsbNext(bits: seq<bool>, p: nat, i: nat)
    requires p + i < |bits|
    ensures Msb(bits[p..p + i + 1]) == 2 * Msb(bits[p..p + i]) + Bit(bits[p + i])
  {
    var s := bits[p..p + i + 1];
    MsbTake(s, i);
    assert s[..i] == bits[p..p + i];
    MsbConcat(s[..i], [bits[p + i]]);
    assert s == s[..i] + [bits[p + i]];
    assert [bits[p + i]][..0] == [];
    assert Msb([bits[p + i]]) == Bit(bits[p + i]) && Pow2(1) == 2;
  }

  /** The bytes of pixel `i`, as indices. */
  lemma PixelBytes(data: seq<byte>, k: nat, i: nat)
    requires Area(k, i + 1) <= |data|
    ensures i * k + k <= |data| && Pixel(data, k, i) == data[i * k..i * k + k]
  {
    AreaNext(k, i);
  }

  method GetPixelColorRGBA8(data: array<byte>, i: nat, mode: ColorMode) returns (c: Rgba)
    requires Legal(mode) && Fits(data[..], i + 1, mode)
    ensures c == PixelAt(data[..], i, mode)
    ensures match mode.colortype
            case Rgb =>
              && 3 * i + 3 <= data.Length && [c.r, c.g, c.b] == data[3 * i..3 * i + 3]
              && c.a == if mode.key == Some(Key(c.r, c.g, c.b)) then 0 else 255
            case GreyAlpha => 2 * i + 2 <= data.Length && c.r == c.g == c.b && [c.r, c.a] == data[2 * i..2 * i + 2]
            case RgbAlpha => 4 * i + 4 <= data.Length && [c.r, c.g, c.b, c.a] == data[4 * i..4 * i + 4]
            case _ =>
              && i * mode.bitdepth / 8 < data.Length && SampleIn(data[..], mode.bitdepth, i) <= Highest(mode.bitdepth)
              && c == FromSample(SampleIn(data[..], mode.bitdepth, i), mode)
  {
    hide FromBytes, FromBits, Pixel, PixelBits, Area, PixelAt, SampleIn, FromSample;
    ColourIs(data[..], i, mode);
    PixelIs(data[..], i, mode);
    if mode.bitdepth == 8 {
      c := GetBytePixel(data, i, mode);
    } else {
      c := GetBitPixel(data, i, mode);
    }
  }

  lemma PixelIs(data: seq<byte>, i: nat, mode: ColorMode)
    requires Legal(mode) && Fits(data, i + 1, mode)
    ensures mode.bitdepth == 8 ==>
              && Area(Channels(mode.colortype), i + 1) <= |data|
              && PixelAt(data, i, mode) == FromBytes(Pixel(data, Channels(mode.colortype), i), mode)
    ensures mode.bitdepth < 8 ==>
              && Area(mode.bitdepth, i + 1) <= 8 * |data|
              && PixelAt(data, i, mode) == FromBits(Pixel(PixelBits(data), mode.bitdepth, i), mode)
  {
    hide FromBytes, FromBits;
  }

  method GetBytePixel(data: array<byte>, i: nat, mode: ColorMode) returns (c: Rgba)
    requires Legal(mode) && mode.bitdepth == 8 && Area(Channels(mode.colortype), i + 1) <= data.Length
    ensures c == FromBytes(Pixel(data[..], Channels(mode.colortype), i), mode)
  {
    hide Area, Widen, Pixel;
    ghost var k := Channels(mode.colortype);
    ghost var cell := Pixel(data[..], k, i);
    PixelBytes(data[..], k, i);
    match mode.colortype {
      case Grey =>
        assert cell == [data[i]];
        WidenByte(data[i]);
        c := Rgba(data[i], data[i], data[i], if mode.key.Some? && data[i] as nat == mode.key.value.r then 0 else 255);
      case Rgb =>
        assert cell == [data[i * 3], data[i * 3 + 1], data[i * 3 + 2]];
        c := Rgba(data[i * 3], data[i * 3 + 1], data[i * 3 + 2], 255);
        if mode.key.Some? && c.r as nat == mode.key.value.r && c.g as nat == mode.key.value.g
            && c.b as nat == mode.key.value.b {
          c := c.(a := 0);
        }
      case Palette =>
        assert cell == [data[i]];
        c := PaletteAt(mode.palette, data[i]);
      case GreyAlpha =>
        assert cell == [data[i * 2], data[i * 2 + 1]];
        c := Rgba(data[i * 2], data[i * 2], data[i * 2], data[i * 2 + 1]);
      case RgbAlpha =>
        assert cell == [data[i * 4], data[i * 4 + 1], data[i * 4 + 2], data[i * 4 + 3]];
        c := Rgba(data[i * 4], data[i * 4 + 1], data[i * 4 + 2], data[i * 4 + 3]);
    }
  }

  method GetBitPixel(data: array<byte>, i: nat, mode: ColorMode) returns (c: Rgba)
    requires Legal(mode) && mode.bitdepth < 8 && Area(mode.bitdepth, i + 1) <= 8 * data.Length
    ensures c == FromBits(Pixel(PixelBits(data[..]), mode.bitdepth, i), mode)
  {
    hide PixelBits, Msb, Area, FromSample;
    ghost var bits := PixelBits(data[..]);
    AreaNext(mode.bitdepth, i);
    AreaIs(mode.bitdepth, i);
    var j := i * mode.bitdepth;
    assert Pixel(bits, mode.bitdepth, i) == bits[j..j + mode.bitdepth];
    var value;
    value, j := ReadBits(data, j, mode.bitdepth);
    MsbBound(Pixel(bits, mode.bitdepth, i));
    c := FromSample(value, mode);
  }

  lemma AreaIs(k: nat, i: nat)
    ensures Area(k, i) == i * k
  {}

  lemma WidenByte(g: byte)
    ensures g as nat <= Highest(8) && Widen(g, 8) == g
  {
    Pow2Values();
  }

  // ---------------------------------------------------------------- what the bytes of the data mean

  /** Sample `i` of `bits` bits: the first sample of a byte is in its highest bits. */
  function SampleIn(data: seq<byte>, bits: nat, i: nat): nat
    requires bits in {1, 2, 4, 8} && i * bits / 8 < |data|
  {
    SampleInside(bits, i);
    data[i * bits / 8] / Pow2(8 - bits - i * bits % 8) % Pow2(bits)
  }

  lemma SampleInside(bits: nat, i: nat)
    requires bits in {1, 2, 4, 8}
    ensures i * bits % 8 + bits <= 8 && i * bits / 8 >= 0
  {}

  lemma {:induction false} BitsInByte(data: seq<byte>, at: nat, o: nat, k: nat)
    requires at < |data| && o + k <= 8
    ensures Msb(PixelBits(data)[8 * at + o..8 * at + o + k]) == data[at] / Pow2(8 - o - k) % Pow2(k)
  {
    hide *;
    var bits := PixelBits(data);
    PixelBitsLength(data);
    if k == 0 {
      assert bits[8 * at + o..8 * at + o + 0] == [];
      NoBits(data[at], 8 - o);
    } else {
      BitsInByte(data, at, o, k - 1);
      MsbNext(bits, 8 * at + o, k - 1);
      PixelBitAt(data, 8 * at + o + k - 1);
      PlaceInByte(at, o + k - 1);
      OneMoreBit(data[at], 8 - o - k, k - 1);
      BitIs(data[at], 8 - o - k);
    }
  }

  lemma PlaceInByte(at: nat, o: nat)
    requires o < 8
    ensures (8 * at + o) / 8 == at && (8 * at + o) % 8 == o
  {}

  lemma PixelBitsLength(data: seq<byte>)
    ensures |PixelBits(data)| == 8 * |data|
  {}

  lemma NoBits(x: nat, m: nat)
    ensures Msb([]) == x / Pow2(m) % Pow2(0)
  {
    assert Pow2(0) == 1;
  }

  lemma BitIs(x: nat, m: nat)
    ensures Bit(BitAt(x, m)) == x / Pow2(m) % 2
  {}

  lemma OneMoreBit(x: nat, m: nat, k: nat)
    ensures x / Pow2(m) % Pow2(k + 1) == 2 * (x / Pow2(m + 1) % Pow2(k)) + x / Pow2(m) % 2
  {
    var y := x / Pow2(m);
    assert Pow2(m + 1) == Pow2(m) * 2 && Pow2(k + 1) == 2 * Pow2(k);
    hide Pow2;
    DivDiv(x, Pow2(m), 2);
    var q, r := y / 2 / Pow2(k), y / 2 % Pow2(k);
    assert y == 2 * (q * Pow2(k) + r) + y % 2;
    assert 2 * (q * Pow2(k)) == q * (2 * Pow2(k));
    DivModUnique(y, 2 * Pow2(k), q, 2 * r + y % 2);
  }

  /** The bits of a pixel, read as a number, are that sample. */
  lemma SampleIs(data: seq<byte>, bits: nat, i: nat)
    requires bits in {1, 2, 4} && Area(bits, i + 1) <= 8 * |data|
    ensures i * bits / 8 < |data| && Msb(Pixel(PixelBits(data), bits, i)) == SampleIn(data, bits, i)
  {
    hide PixelBits, Msb, Pow2;
    SamplePlace(bits, i, |data|);
    SampleInside(bits, i);
    var at, o := i * bits / 8, i * bits % 8;
    BitsInByte(data, at, o, bits);
    assert Area(bits, i) == 8 * at + o;
  }

  /** The colour of pixel `i`, from the bytes of the data. */
  lemma ColourIs(data: seq<byte>, i: nat, mode: ColorMode)
    requires Legal(mode) && Fits(data, i + 1, mode)
    ensures mode.colortype == Rgb ==>
              && 3 * i + 3 <= |data|
              && PixelAt(data, i, mode) == Rgba(data[3 * i], data[3 * i + 1], data[3 * i + 2],
                   if mode.key == Some(Key(data[3 * i], data[3 * i + 1], data[3 * i + 2])) then 0 else 255)
    ensures mode.colortype == GreyAlpha ==>
              && 2 * i + 2 <= |data|
              && PixelAt(data, i, mode) == Rgba(data[2 * i], data[2 * i], data[2 * i], data[2 * i + 1])
    ensures mode.colortype == RgbAlpha ==>
              && 4 * i + 4 <= |data|
              && PixelAt(data, i, mode) == Rgba(data[4 * i], data[4 * i + 1], data[4 * i + 2], data[4 * i + 3])
    ensures mode.colortype == Grey || mode.colortype == Palette ==>
              && i * mode.bitdepth / 8 < |data| && SampleIn(data, mode.bitdepth, i) <= Highest(mode.bitdepth)
              && PixelAt(data, i, mode) == FromSample(SampleIn(data, mode.bitdepth, i), mode)
  {
    hide FromSample, PixelBits, Msb;
    var k := Channels(mode.colortype);
    if mode.bitdepth == 8 {
      PixelBytes(data, k, i);
      if k == 1 { ByteSample(data, i); }
    } else {
      SampleIs(data, mode.bitdepth, i);
      MsbBound(Pixel(PixelBits(data), mode.bitdepth, i));
    }
  }

  lemma ByteSample(data: seq<byte>, i: nat)
    requires i < |data|
    ensures i * 8 / 8 == i && SampleIn(data, 8, i) == data[i] && data[i] as nat <= Highest(8)
  {
    Pow2Values();
  }

  /** A grey sample widened: all ones stay all ones, in equal steps. */
  lemma WidenIs(v: nat, bits: nat)
    requires bits in {1, 2, 4, 8} && v <= Highest(bits)
    ensures Widen(v, bits) as int
         == v * (if bits == 1 then 255 else if bits == 2 then 85 else if bits == 4 then 17 else 1)
  {
    assert Highest(1) == 1 && Highest(2) == 3 && Highest(4) == 15 && Highest(8) == 255 by { Pow2Values(); }
  }

  /** Byte `q` of the four for pixel `t`: the bytes of the pixel as they are, greys three times, samples widened or
      looked up; alpha from the pixel, the key or the palette. */
  ghost predicate ByteShown(out: seq<byte>, data: seq<byte>, t: nat, q: nat, mode: ColorMode)
    requires Legal(mode) && Fits(data, t + 1, mode) && 4 * t + 4 <= |out| && q < 4
  {
    ColourIs(data, t, mode);
    var b, bits := out[4 * t + q], mode.bitdepth;
    match mode.colortype
    case Rgb =>
      b as int == if q < 3 then data[3 * t + q] as int
                  else if mode.key == Some(Key(data[3 * t], data[3 * t + 1], data[3 * t + 2])) then 0 else 255
    case GreyAlpha => b == data[2 * t + if q < 3 then 0 else 1]
    case RgbAlpha => b == data[4 * t + q]
    case Grey =>
      var v := SampleIn(data, bits, t);
      var factor := if bits == 1 then 255 else if bits == 2 then 85 else if bits == 4 then 17 else 1;
      b as int == if q < 3 then v * factor else if mode.key.Some? && mode.key.value.r == v then 0 else 255
    case Palette =>
      var v := SampleIn(data, bits, t);
      var c := if v < |mode.palette| then mode.palette[v] else Rgba(0, 0, 0, 255);
      b == [c.r, c.g, c.b, c.a][q]
  }

  ghost predicate BytesShown(out: seq<byte>, data: seq<byte>, n: nat, mode: ColorMode)
    requires Legal(mode) && Fits(data, n, mode)
  {
    AllFit(data, n, mode);
    4 * n <= |out| && forall t, q | 0 <= t < n && 0 <= q < 4 :: ByteShown(out, data, t, q, mode)
  }

  lemma PixelShown(out: seq<byte>, data: seq<byte>, t: nat, mode: ColorMode)
    requires Legal(mode) && Fits(data, t + 1, mode) && 4 * t + 4 <= |out|
    ensures IsRgba(out, t, PixelAt(data, t, mode)) <==>
            && ByteShown(out, data, t, 0, mode) && ByteShown(out, data, t, 1, mode)
            && ByteShown(out, data, t, 2, mode) && ByteShown(out, data, t, 3, mode)
  {
    hide Fits, PixelAt, SampleIn, Widen, Highest, Pow2;
    ColourIs(data, t, mode);
    if mode.colortype == Grey { WidenIs(SampleIn(data, mode.bitdepth, t), mode.bitdepth); }
  }

  /** Holding the colours of the data and showing its bytes are the same. */
  lemma ColoursShown(out: seq<byte>, data: seq<byte>, n: nat, mode: ColorMode)
    requires Legal(mode) && Fits(data, n, mode)
    ensures HoldsRgba(out, ColoursOf(data, n, mode), n) <==> BytesShown(out, data, n, mode)
  {
    hide Fits, PixelAt, ByteShown, IsRgba, Legal;
    AllFit(data, n, mode);
    AreaIs(4, n);
    if BytesShown(out, data, n, mode) {
      forall t | 0 <= t < n ensures IsRgba(out, t, ColoursOf(data, n, mode)[t]) {
        PixelShown(out, data, t, mode);
      }
    }
    if HoldsRgba(out, ColoursOf(data, n, mode), n) {
      forall t, q | 0 <= t < n && 0 <= q < 4 ensures ByteShown(out, data, t, q, mode) {
        PixelShown(out, data, t, mode);
      }
    }
  }

  // ---------------------------------------------------------------- writing pixels

  /** The rest of the byte that bit `p` lies in is clear. */
  ghost predicate Clear(bits: seq<bool>, p: nat) {
    forall q | p <= q < |bits| && q < 8 * ((p + 7) / 8) :: !bits[q]
  }

  lemma ShiftBits(v: nat, sh: nat, k: nat)
    ensures BitAt(v * Pow2(sh), k) == (k >= sh && BitAt(v, k - sh))
  {
    if k >= sh {
      Pow2Add(sh, k - sh);
      hide Pow2;
      ShiftDown(v, Pow2(sh), Pow2(k - sh));
    } else {
      Pow2Add(sh - k, k);
      Pow2Add(1, sh - k - 1);
      assert Pow2(1) == 2 by { Pow2Values(); }
      hide Pow2;
      ShiftedEven(v, Pow2(sh - k - 1), Pow2(k));
    }
  }

  lemma ShiftDown(v: nat, a: nat, b: nat)
    requires a > 0 && b > 0
    ensures a * b > 0 && v * a / (a * b) == v / b
  {
    DivDiv(v * a, a, b);
    DivModUnique(v * a, a, v, 0);
  }

  lemma ShiftedEven(v: nat, a: nat, d: nat)
    requires d > 0
    ensures v * (2 * a * d) / d % 2 == 0
  {
    var x := 2 * (v * a);
    assert v * (2 * a * d) == x * d;
    DivModUnique(x * d, d, x, 0);
  }

  lemma HighBitsZero(v: nat, n: nat, k: nat)
    requires v < Pow2(n) && k >= n
    ensures !BitAt(v, k)
  {
    Pow2Mono(n, k);
    DivModUnique(v, Pow2(k), 0, v);
  }

  /** Bit `q` of a byte, counted from the top. */
  ghost predicate FromTop(v: nat, q: nat)
    requires q < 8
  {
    BitAt(v, 7 - q)
  }

  /** The byte after a sample was put into it `p` samples from the top. */
  lemma SampleByte(b: byte, v: nat, bits: nat, p: nat) returns (r: byte)
    requires bits in {1, 2, 4} && bits * p + bits <= 8 && v < Pow2(bits)
    requires forall k | 0 <= k < 8 - bits * p :: !BitAt(b, k)
    ensures r == Or(b, v * Pow2(8 - bits * p - bits))
    ensures forall q | 0 <= q < 8 :: FromTop(r, q)
              == if q < bits * p then FromTop(b, q) else q < bits * p + bits && BitAt(v, bits * p + bits - 1 - q)
  {
    hide BitAt, Or, Pow2;
    var sh := 8 - bits * p - bits;
    JoinBound(0, v, sh, 8 - bits * p);
    Pow2Mono(8 - bits * p, 8);
    assert Pow2(8) == 256 by { Pow2Values(); }
    OrBound(b, v * Pow2(sh), 8);
    r := Or(b, v * Pow2(sh));
    forall q | 0 <= q < 8
      ensures FromTop(r, q) == if q < bits * p then FromTop(b, q)
            else q < bits * p + bits && BitAt(v, bits * p + bits - 1 - q)
    {
      OrBits(b, v * Pow2(sh), 7 - q);
      ShiftBits(v, sh, 7 - q);
      if q < bits * p { HighBitsZero(v, bits, 7 - q - sh); }
    }
  }

  /** `addColorBits`: a sample behind the samples already in its byte. */
  method AddColorBits(out: array<byte>, index: nat, bits: nat, v: nat)
    requires bits in {1, 2, 4} && v < Pow2(bits) && Area(bits, index + 1) <= 8 * out.Length
    requires Clear(PixelBits(out[..]), Area(bits, index))
    modifies out
    ensures PixelBits(out[..])[..Area(bits, index)] == old(PixelBits(out[..]))[..Area(bits, index)]
    ensures Pixel(PixelBits(out[..]), bits, index) == ToMsb(v, bits)
    ensures Clear(PixelBits(out[..]), Area(bits, index + 1))
  {
    hide PixelBits, Or, Pow2, BitAt, ToMsb;
    ghost var before := out[..];
    SamplePlace(bits, index, |before|);
    var m := if bits == 1 then 7 else if bits == 2 then 3 else 1;
    var p := index % (m + 1);
    var at := index * bits / 8;
    var sh := bits * (m - p);
    var value := v % Pow2(bits);
    assert value == v by { SmallModulus(v, Pow2(bits)); }
    ghost var old0: byte := if p == 0 then 0 else before[at];
    ClearBelow(before, bits, index, at, p);
    ghost var r := SampleByte(old0, v, bits, p);
    if p == 0 {
      OrZero(v * Pow2(sh));
      out[at] := value * Pow2(sh);
    } else {
      out[at] := Or(out[at], value * Pow2(sh));
    }
    assert out[..] == before[at := r];
    SampleWritten(before, out[..], at, r, old0, v, bits, index, p);
  }

  lemma SmallModulus(v: nat, m: nat)
    requires v < m
    ensures v % m == v
  {}

  lemma OrZero(v: nat)
    ensures Or(0, v) == v
  {}

  /** Byte and place in it of sample `index`. */
  lemma SamplePlace(bits: nat, index: nat, size: nat)
    requires bits in {1, 2, 4} && Area(bits, index + 1) <= 8 * size
    ensures var m := 8 / bits - 1;
            && bits * (m + 1) == 8
            && Area(bits, index) == index * bits == 8 * (index * bits / 8) + bits * (index % (m + 1))
            && Area(bits, index + 1) == Area(bits, index) + bits && index * bits / 8 < size
            && bits * (index % (m + 1)) + bits <= 8
            && bits * (m - index % (m + 1)) == 8 - bits * (index % (m + 1)) - bits
  {
    AreaNext(bits, index);
    AreaIs(bits, index);
    hide Area;
    if bits == 1 {
      OneBitPlace(index);
    } else if bits == 2 {
      TwoBitPlace(index);
    } else {
      FourBitPlace(index);
    }
  }

  lemma OneBitPlace(index: nat)
    ensures index * 1 == 8 * (index * 1 / 8) + 1 * (index % 8)
  {}

  lemma TwoBitPlace(index: nat)
    ensures index * 2 == 8 * (index * 2 / 8) + 2 * (index % 4)
  {}

  lemma FourBitPlace(index: nat)
    ensures index * 4 == 8 * (index * 4 / 8) + 4 * (index % 2)
  {}

  lemma ClearBelow(before: seq<byte>, bits: nat, index: nat, at: nat, p: nat)
    requires bits in {1, 2, 4} && at < |before| && Area(bits, index) == 8 * at + bits * p && bits * p + bits <= 8
    requires Clear(PixelBits(before), Area(bits, index))
    ensures p > 0 ==> forall k | 0 <= k < 8 - bits * p :: !BitAt(before[at], k)
    ensures forall k | 0 <= k < 8 - bits * p :: !BitAt(0, k)
  {
    hide PixelBits, BitAt, Area;
    forall k | 0 <= k < 8 - bits * p ensures !BitAt(0, k) && (p > 0 ==> !BitAt(before[at], k)) {
      BitsOfZero(k);
      if p > 0 {
        var q := 8 * at + (7 - k);
        assert q / 8 == at && 7 - q % 8 == k;
        PixelBitAt(before, q);
      }
    }
  }

  lemma SampleWritten(before: seq<byte>, now: seq<byte>, at: nat, r: byte, b: byte, v: nat, bits: nat, index: nat,
                      p: nat)
    requires bits in {1, 2, 4} && at < |before| && now == before[at := r] && v < Pow2(bits)
    requires Area(bits, index) == 8 * at + bits * p && bits * p + bits <= 8
    requires Area(bits, index + 1) == Area(bits, index) + bits
    requires p > 0 ==> b == before[at]
    requires forall q | 0 <= q < 8 :: FromTop(r, q)
              == if q < bits * p then FromTop(b, q) else q < bits * p + bits && BitAt(v, bits * p + bits - 1 - q)
    ensures PixelBits(now)[..Area(bits, index)] == PixelBits(before)[..Area(bits, index)]
    ensures Pixel(PixelBits(now), bits, index) == ToMsb(v, bits)
    ensures Clear(PixelBits(now), Area(bits, index + 1))
  {
    hide PixelBits, Area, ToMsb, Pow2, BitAt;
    var n, was := PixelBits(now), PixelBits(before);
    var e := Area(bits, index);
    ByteReplaced(before, now, at, r);
    hide Clear, FromTop;
    SampleInByte(n, r, v, bits, 8 * at, bits * p);
    BitsBefore(before, now, at, r, b, bits * p);
  }

  lemma BitsBefore(before: seq<byte>, now: seq<byte>, at: nat, r: byte, b: byte, k: nat)
    requires at < |before| && now == before[at := r] && k < 8 && (k > 0 ==> b == before[at])
    requires forall q | 0 <= q < k :: FromTop(r, q) == FromTop(b, q)
    ensures |PixelBits(now)| == |PixelBits(before)| == 8 * |before|
    ensures PixelBits(now)[..8 * at + k] == PixelBits(before)[..8 * at + k]
  {
    hide PixelBits, BitAt;
    ByteReplaced(before, now, at, r);
    forall i | 8 * at <= i < 8 * at + k ensures PixelBits(now)[i] == PixelBits(before)[i] {
      PixelBitAt(before, i);
    }
  }

  /** `k` bits into the byte that starts at bit `from`, the sample and zeros behind it. */
  lemma SampleInByte(n: seq<bool>, r: byte, v: nat, bits: nat, from: nat, k: nat)
    requires 0 < bits && k + bits <= 8 && v < Pow2(bits) && from + 8 <= |n| && from % 8 == 0
    requires forall i | 0 <= i < |n| && from <= i < from + 8 :: n[i] == FromTop(r, i - from)
    requires forall q | 0 <= q < 8 && k <= q ::
               FromTop(r, q) == (q < k + bits && BitAt(v, k + bits - 1 - q))
    ensures n[from + k..from + k + bits] == ToMsb(v, bits)
    ensures Clear(n, from + k + bits)
  {
    hide FromTop, ToMsb, Pow2, BitAt;
    forall t | 0 <= t < bits ensures n[from + k..from + k + bits][t] == ToMsb(v, bits)[t] {
      ToMsbAt(v, bits, t);
      SampleBit(v, bits, t);
      assert FromTop(r, k + t) == BitAt(v, bits - 1 - t);
    }
  }

  lemma ByteReplaced(before: seq<byte>, now: seq<byte>, at: nat, r: byte)
    requires at < |before| && now == before[at := r]
    ensures |PixelBits(now)| == |PixelBits(before)| == 8 * |before|
    ensures forall i | 0 <= i < |PixelBits(now)| ::
              PixelBits(now)[i] == if 8 * at <= i < 8 * at + 8 then FromTop(r, i - 8 * at) else PixelBits(before)[i]
  {
    hide PixelBits, BitAt;
    forall i | 0 <= i < 8 * |before|
      ensures PixelBits(now)[i] == if 8 * at <= i < 8 * at + 8 then FromTop(r, i - 8 * at) else PixelBits(before)[i]
    {
      PixelBitAt(now, i);
      PixelBitAt(before, i);
    }
  }

  lemma SampleBit(v: nat, bits: nat, t: nat)
    requires t < bits
    ensures BitAt(v, bits - 1 - t) == (Shr(v, bits - 1 - t) % 2 == 1)
  {}

  /** The tree knows the first `n` colours of the palette, each by some index it has there. */
  ghost predicate TreeFor(tree: ColorTree, palette: seq<Rgba>, n: nat)
    requires n <= |palette|
  {
    Shaped(tree, 0) && forall c :: IndexOk(tree, palette, n, c)
  }

  ghost predicate IndexOk(tree: ColorTree, palette: seq<Rgba>, n: nat, c: Rgba)
    requires n <= |palette| && Shaped(tree, 0)
  {
    if c in palette[..n] then 0 <= Index(tree, c) < n && palette[Index(tree, c)] == c else Index(tree, c) == -1
  }

  /** The pixels before `i` read as they did. */
  ghost predicate Earlier(now: seq<byte>, was: seq<byte>, i: nat, mode: ColorMode) {
    |now| == |was| && Fits(now, i, mode)
    && if mode.bitdepth == 8 then now[..Area(Channels(mode.colortype), i)] == was[..Area(Channels(mode.colortype), i)]
       else PixelBits(now)[..Area(mode.bitdepth, i)] == PixelBits(was)[..Area(mode.bitdepth, i)]
  }

  lemma EarlierPixel(now: seq<byte>, was: seq<byte>, i: nat, mode: ColorMode, j: nat)
    requires Legal(mode) && Earlier(now, was, i, mode) && j < i
    ensures Fits(now, j + 1, mode) && Fits(was, j + 1, mode) && PixelAt(now, j, mode) == PixelAt(was, j, mode)
  {
    hide PixelBits, Area, FromBits, FromBytes;
    FitsFewer(now, j + 1, i, mode);
    if mode.bitdepth == 8 {
      SamePiece(now, was, Channels(mode.colortype), i, j);
    } else {
      SamePiece(PixelBits(now), PixelBits(was), mode.bitdepth, i, j);
    }
  }

  lemma SamePiece<T>(s: seq<T>, t: seq<T>, k: nat, i: nat, j: nat)
    requires j < i && Area(k, i) <= |s| && Area(k, i) <= |t| && s[..Area(k, i)] == t[..Area(k, i)]
    ensures Area(k, j + 1) <= Area(k, i) && Pixel(s, k, j) == Pixel(t, k, j)
  {
    hide Area;
    AreaNext(k, j);
    AreaOrder(k, j + 1, i);
    var a := Area(k, j);
    forall q | a <= q < a + k ensures s[q] == t[q] {
      assert s[q] == s[..Area(k, i)][q] == t[..Area(k, i)][q];
    }
    assert s[a..a + k] == t[a..a + k];
  }

  /** Between two pixels: the byte written last has nothing behind the samples written. */
  ghost predicate ReadyFor(data: seq<byte>, i: nat, mode: ColorMode) {
    mode.bitdepth < 8 ==> Clear(PixelBits(data), Area(mode.bitdepth, i))
  }

  lemma SampleReadBack(v: nat, mode: ColorMode)
    requires mode.bitdepth > 0 && v <= Highest(mode.bitdepth)
    ensures FromBits(ToMsb(v, mode.bitdepth), mode) == FromSample(v, mode)
  {
    hide FromSample, Msb, ToMsb;
    MsbOfToMsb(v, mode.bitdepth);
    LowNoop(v, mode.bitdepth);
  }

  /** Puts a one-channel sample in its place. */
  method PutSample(out: array<byte>, i: nat, mode: ColorMode, v: nat)
    requires Legal(mode) && Channels(mode.colortype) == 1 && v <= Highest(mode.bitdepth)
    requires Fits(out[..], i + 1, mode) && ReadyFor(out[..], i, mode)
    modifies out
    ensures Earlier(out[..], old(out[..]), i, mode) && ReadyFor(out[..], i + 1, mode)
    ensures PixelAt(out[..], i, mode) == FromSample(v, mode)
    ensures i * mode.bitdepth / 8 < out.Length && SampleIn(out[..], mode.bitdepth, i) == v
  {
    hide PixelBits, Area, FromSample, ToMsb, Msb, Clear, SampleIn;
    ghost var before := out[..];
    FitsFewer(before, i, i + 1, mode);
    if mode.bitdepth == 8 {
      Pow2Values();
      AreaNext(1, i);
      AreaIs(1, i);
      out[i] := v;
      assert out[..][..i] == before[..i];
      assert Pixel(out[..], 1, i) == [v as byte];
      assert FromBytes([v as byte], mode) == FromSample(v, mode);
      ByteSample(out[..], i);
    } else {
      AddColorBits(out, i, mode.bitdepth, v);
      SampleReadBack(v, mode);
      SampleBack(v, mode.bitdepth);
      SampleIs(out[..], mode.bitdepth, i);
    }
  }

  lemma SampleBack(v: nat, bits: nat)
    requires v <= Highest(bits)
    ensures Msb(ToMsb(v, bits)) == v
  {
    hide Msb, ToMsb;
    MsbOfToMsb(v, bits);
    LowNoop(v, bits);
  }

  /** `rgba8ToPixel`: what the mode keeps of the colour, or error 82 for a colour that is not in the palette. */
  method Rgba8ToPixel(out: array<byte>, i: nat, mode: ColorMode, tree: ColorTree, c: Rgba) returns (error: nat)
    requires Legal(mode) && Fits(out[..], i + 1, mode) && ReadyFor(out[..], i, mode)
    requires mode.colortype == Palette ==> TreeFor(tree, mode.palette, InPalette(mode))
    modifies out
    ensures match Projected(c, mode)
            case None => error == 82
            case Some(d) =>
              && error == 0 && PixelAt(out[..], i, mode) == d
              && Earlier(out[..], old(out[..]), i, mode) && ReadyFor(out[..], i + 1, mode)
    ensures error == 0 ==>
              match mode.colortype
              case Rgb => 3 * i + 3 <= out.Length && out[3 * i..3 * i + 3] == [c.r, c.g, c.b]
              case GreyAlpha => 2 * i + 2 <= out.Length && out[2 * i..2 * i + 2] == [c.r, c.a]
              case RgbAlpha => 4 * i + 4 <= out.Length && out[4 * i..4 * i + 4] == [c.r, c.g, c.b, c.a]
              case Grey =>
                && i * mode.bitdepth / 8 < out.Length
                && SampleIn(out[..], mode.bitdepth, i) == c.r / Pow2(8 - mode.bitdepth)
              case Palette =>
                && i * mode.bitdepth / 8 < out.Length && SampleIn(out[..], mode.bitdepth, i) < |mode.palette|
                && mode.palette[SampleIn(out[..], mode.bitdepth, i)] == c
  {
    hide PixelBits, Area, FromSample, Shaped, Index, SampleIn, Fits, Earlier, ReadyFor, PixelAt, FromBytes, Projected;
    ProjectedIs(c, mode);
    match mode.colortype {
    case Grey =>
      NarrowBound(c.r, mode.bitdepth);
      PutSample(out, i, mode, Shr(c.r, 8 - mode.bitdepth));
    case Rgb =>
      PutPixel(out, i, mode, [c.r, c.g, c.b]);
    case Palette =>
      assert IndexOk(tree, mode.palette, InPalette(mode), c);
      var index := ColorTreeGet(tree, c);
      if index < 0 { return 82; }
      PutSample(out, i, mode, index);
      PaletteSample(mode, index);
    case GreyAlpha =>
      PutPixel(out, i, mode, [c.r, c.a]);
    case RgbAlpha =>
      PutPixel(out, i, mode, [c.r, c.g, c.b, c.a]);
    }
    error := 0;
  }

  lemma ProjectedIs(c: Rgba, mode: ColorMode)
    requires Legal(mode)
    ensures match mode.colortype
            case Grey => Projected(c, mode) == Some(FromGrey(c, mode))
            case Rgb => Projected(c, mode) == Some(FromBytes([c.r, c.g, c.b], mode))
            case Palette => Projected(c, mode) == if c in mode.palette[..InPalette(mode)] then Some(c) else None
            case GreyAlpha => Projected(c, mode) == Some(FromBytes([c.r, c.a], mode))
            case RgbAlpha => Projected(c, mode) == Some(FromBytes([c.r, c.g, c.b, c.a], mode))
  {}

  /** One pixel of whole bytes. */
  method PutPixel(out: array<byte>, i: nat, mode: ColorMode, s: seq<byte>)
    requires Legal(mode) && mode.bitdepth == 8 && |s| == Channels(mode.colortype) && Fits(out[..], i + 1, mode)
    modifies out
    ensures Fits(out[..], i + 1, mode) && Earlier(out[..], old(out[..]), i, mode) && ReadyFor(out[..], i + 1, mode)
    ensures PixelAt(out[..], i, mode) == FromBytes(s, mode)
    ensures |s| * i + |s| <= out.Length && out[|s| * i..|s| * i + |s|] == s
  {
    hide Area, FromBytes;
    FitsFewer(out[..], i, i + 1, mode);
    PixelBytes(out[..], |s|, i);
    PutBytes(out, i, s, |s|);
    PixelBytes(out[..], |s|, i);
  }

  lemma PaletteSample(mode: ColorMode, v: nat)
    requires mode.colortype == Palette && mode.bitdepth > 0 && v <= Highest(mode.bitdepth) && v < |mode.palette|
    ensures FromSample(v, mode) == mode.palette[v]
  {}

  /** The bytes of one pixel. */
  method PutBytes(out: array<byte>, i: nat, s: seq<byte>, k: nat)
    requires |s| == k && Area(k, i + 1) <= out.Length
    modifies out
    ensures out.Length == |old(out[..])| && Area(k, i) + k == Area(k, i + 1)
    ensures out[..][..Area(k, i)] == old(out[..])[..Area(k, i)] && Pixel(out[..], k, i) == s
    ensures forall q | 0 <= q < out.Length && !(Area(k, i) <= q < Area(k, i) + k) :: out[q] == old(out[q])
  {
    AreaNext(k, i);
    AreaIs(k, i);
    hide Area;
    ghost var before := out[..];
    for b := 0 to k
      invariant forall q | 0 <= q < out.Length :: out[q] == if i * k <= q < i * k + b then s[q - i * k] else before[q]
    {
      out[i * k + b] := s[b];
    }
    assert out[..][..i * k] == before[..i * k];
    assert out[..][i * k..i * k + k] == s;
  }

  // ---------------------------------------------------------------- many pixels at once

  /** The colours of the first `n` pixels. */
  ghost function ColoursOf(data: seq<byte>, n: nat, mode: ColorMode): (s: seq<Rgba>)
    requires Legal(mode) && Fits(data, n, mode)
    ensures |s| == n
    ensures forall t | 0 <= t < n :: Fits(data, t + 1, mode) && s[t] == PixelAt(data, t, mode)
  {
    AllFit(data, n, mode);
    seq(n, t requires 0 <= t < n => PixelAt(data, t, mode))
  }

  lemma AllFit(data: seq<byte>, n: nat, mode: ColorMode)
    requires Fits(data, n, mode)
    ensures forall u | 0 <= u <= n :: Fits(data, u, mode)
  {
    hide Fits;
    forall u | 0 <= u <= n ensures Fits(data, u, mode) { FitsFewer(data, u, n, mode); }
  }

  /** `out` holds four bytes for each of the first `i` colours. */
  ghost predicate HoldsRgba(out: seq<byte>, target: seq<Rgba>, i: nat) {
    i <= |target| && Area(4, |target|) <= |out| && forall t | 0 <= t < i :: IsRgba(out, t, target[t])
  }

  ghost predicate IsRgba(out: seq<byte>, t: nat, c: Rgba) {
    4 * t + 4 <= |out| && out[4 * t] == c.r && out[4 * t + 1] == c.g && out[4 * t + 2] == c.b && out[4 * t + 3] == c.a
  }

  ghost predicate HoldsRgb(out: seq<byte>, target: seq<Rgba>, i: nat) {
    i <= |target| && Area(3, |target|) <= |out| && forall t | 0 <= t < i :: IsRgb(out, t, target[t])
  }

  ghost predicate IsRgb(out: seq<byte>, t: nat, c: Rgba) {
    3 * t + 3 <= |out| && out[3 * t] == c.r && out[3 * t + 1] == c.g && out[3 * t + 2] == c.b
  }

  /** Four bytes for colour `i`. */
  method PutRgba(out: array<byte>, i: nat, r: byte, g: byte, b: byte, a: byte, ghost target: seq<Rgba>)
    requires i < |target| && HoldsRgba(out[..], target, i) && target[i] == Rgba(r, g, b, a)
    modifies out
    ensures HoldsRgba(out[..], target, i + 1)
  {
    AreaOrder(4, i + 1, |target|);
    out[4 * i], out[4 * i + 1], out[4 * i + 2], out[4 * i + 3] := r, g, b, a;
  }

  method PutRgb(out: array<byte>, i: nat, r: byte, g: byte, b: byte, ghost target: seq<Rgba>)
    requires i < |target| && HoldsRgb(out[..], target, i) && target[i].r == r && target[i].g == g && target[i].b == b
    modifies out
    ensures HoldsRgb(out[..], target, i + 1)
  {
    AreaOrder(3, i + 1, |target|);
    out[3 * i], out[3 * i + 1], out[3 * i + 2] := r, g, b;
  }

  /** Reads sample `i`, with the bit pointer carried along from the sample before. */
  method NextSample(data: array<byte>, i: nat, mode: ColorMode, j: nat, ghost n: nat) returns (v: nat, j': nat)
    requires Legal(mode) && Channels(mode.colortype) == 1 && i < n && Fits(data[..], n, mode)
    requires j == Area(mode.bitdepth, i)
    ensures Fits(data[..], i + 1, mode) && v <= Highest(mode.bitdepth)
    ensures FromSample(v, mode) == PixelAt(data[..], i, mode)
    ensures j' == Area(mode.bitdepth, i + 1)
  {
    hide PixelBits, Msb, Area, FromSample;
    FitsFewer(data[..], i + 1, n, mode);
    AreaNext(mode.bitdepth, i);
    if mode.bitdepth == 8 {
      PixelBytes(data[..], 1, i);
      assert Pixel(data[..], 1, i) == [data[i]];
      WidenByte(data[i]);
      v, j' := data[i], j + 8;
      assert FromBytes([data[i]], mode) == FromSample(v, mode);
    } else {
      v, j' := ReadBits(data, j, mode.bitdepth);
      MsbBound(Pixel(PixelBits(data[..]), mode.bitdepth, i));
    }
  }

  /** `getPixelColorsRGBA8`: the loops inside the cases give what the one-pixel function gives. */
  method GetPixelColorsRGBA8(out: array<byte>, n: nat, data: array<byte>, mode: ColorMode)
    requires out != data && Legal(mode) && Fits(data[..], n, mode) && Area(4, n) <= out.Length
    modifies out
    ensures HoldsRgba(out[..], ColoursOf(data[..], n, mode), n) && BytesShown(out[..], data[..], n, mode)
    ensures mode.colortype == Rgb ==> ShowsRgb(out[..], data[..], n, mode.key)
    ensures mode.colortype == GreyAlpha ==> ShowsGreyAlpha(out[..], data[..], n)
  {
    hide Area, ColoursOf, PixelAt, FromSample, HoldsRgba, BytesShown;
    ghost var target := ColoursOf(data[..], n, mode);
    HoldsNothing(out[..], target);
    if mode.colortype == Rgb {
      RgbToRgba(out, n, data, mode, target);
    } else if mode.colortype == Grey && mode.bitdepth == 8 {
      GreyToRgba(out, n, data, mode, target);
    } else if mode.colortype == Grey || mode.colortype == Palette {
      AreaNext(mode.bitdepth, 0);
      var j := 0;
      for i := 0 to n
        invariant j == Area(mode.bitdepth, i) && ColoursOf(data[..], n, mode) == target && HoldsRgba(out[..], target, i)
      {
        var value;
        value, j := NextSample(data, i, mode, j, n);
        var c := FromSample(value, mode);
        PutRgba(out, i, c.r, c.g, c.b, c.a, target);
      }
    } else {
      AlphaToRgba(out, n, data, mode, target);
    }
    assert ColoursOf(data[..], n, mode) == target;
    ColoursShown(out[..], data[..], n, mode);
    RgbBytes(out[..], data[..], n, mode);
  }

  /** Red, green, blue, and the alpha that the key decides. */
  ghost predicate ShowsRgb(out: seq<byte>, data: seq<byte>, n: nat, key: Option<Key>) {
    && 3 * n <= |data| && 4 * n <= |out|
    && forall p | 0 <= p < 4 * n ::
         var r, g, b := data[3 * (p / 4)], data[3 * (p / 4) + 1], data[3 * (p / 4) + 2];
         out[p] == [r, g, b, if key == Some(Key(r, g, b)) then 0 else 255][p % 4]
  }

  ghost predicate ShowsGreyAlpha(out: seq<byte>, data: seq<byte>, n: nat) {
    && 2 * n <= |data| && 4 * n <= |out|
    && forall p | 0 <= p < 4 * n ::
         var v, a := data[2 * (p / 4)], data[2 * (p / 4) + 1];
         out[p] == [v, v, v, a][p % 4]
  }

  /** The same pixel by pixel. */
  lemma RgbPixel(out: seq<byte>, data: seq<byte>, n: nat, key: Option<Key>, t: nat)
    requires ShowsRgb(out, data, n, key) && t < n
    ensures out[4 * t] == data[3 * t] && out[4 * t + 1] == data[3 * t + 1] && out[4 * t + 2] == data[3 * t + 2]
    ensures out[4 * t + 3] == if key == Some(Key(data[3 * t], data[3 * t + 1], data[3 * t + 2])) then 0 else 255
  {
    assert out[4 * t + 3] in out;
  }

  lemma GreyAlphaPixel(out: seq<byte>, data: seq<byte>, n: nat, t: nat)
    requires ShowsGreyAlpha(out, data, n) && t < n
    ensures out[4 * t..4 * t + 4] == [data[2 * t], data[2 * t], data[2 * t], data[2 * t + 1]]
  {}

  /** RGB and grey with alpha, from the rule for all modes. */
  lemma RgbBytes(out: seq<byte>, data: seq<byte>, n: nat, mode: ColorMode)
    requires Legal(mode) && Fits(data, n, mode) && BytesShown(out, data, n, mode)
    ensures mode.colortype == Rgb ==> ShowsRgb(out, data, n, mode.key)
    ensures mode.colortype == GreyAlpha ==> ShowsGreyAlpha(out, data, n)
  {
    ChannelRoom(data, n, mode);
    hide Fits, PixelAt, SampleIn, Area;
    if mode.colortype == Rgb {
      forall p | 0 <= p < 4 * n
        ensures var r, g, b := data[3 * (p / 4)], data[3 * (p / 4) + 1], data[3 * (p / 4) + 2];
                out[p] == [r, g, b, if mode.key == Some(Key(r, g, b)) then 0 else 255][p % 4]
      {
        assert ByteShown(out, data, p / 4, p % 4, mode);
      }
    }
    if mode.colortype == GreyAlpha {
      forall p | 0 <= p < 4 * n
        ensures var v, a := data[2 * (p / 4)], data[2 * (p / 4) + 1];
                out[p] == [v, v, v, a][p % 4]
      {
        assert ByteShown(out, data, p / 4, p % 4, mode);
      }
    }
  }

  lemma ChannelRoom(data: seq<byte>, n: nat, mode: ColorMode)
    requires Legal(mode) && Fits(data, n, mode)
    ensures mode.colortype == Rgb ==> 3 * n <= |data|
    ensures mode.colortype == GreyAlpha ==> 2 * n <= |data|
    ensures forall u | 0 <= u <= n :: Fits(data, u, mode)
  {
    AreaIs(Channels(mode.colortype), n);
    AllFit(data, n, mode);
  }

  lemma HoldsNothing(out: seq<byte>, target: seq<Rgba>)
    requires Area(4, |target|) <= |out|
    ensures HoldsRgba(out, target, 0)
  {}

  lemma ByteColour(data: seq<byte>, n: nat, mode: ColorMode, i: nat)
    requires Legal(mode) && mode.bitdepth == 8 && Fits(data, n, mode) && i < n
    ensures Channels(mode.colortype) * i + Channels(mode.colortype) <= |data|
    ensures ColoursOf(data, n, mode)[i]
         == FromBytes(data[Channels(mode.colortype) * i..Channels(mode.colortype) * i + Channels(mode.colortype)], mode)
  {
    hide FromBytes;
    var k := Channels(mode.colortype);
    FitsFewer(data, i + 1, n, mode);
    PixelBytes(data, k, i);
  }

  method AlphaToRgba(out: array<byte>, n: nat, data: array<byte>, mode: ColorMode, ghost target: seq<Rgba>)
    requires out != data && Legal(mode) && (mode.colortype == GreyAlpha || mode.colortype == RgbAlpha)
    requires Fits(data[..], n, mode) && target == ColoursOf(data[..], n, mode) && HoldsRgba(out[..], target, 0)
    modifies out
    ensures HoldsRgba(out[..], target, n)
  {
    hide Area, ColoursOf, PixelAt, HoldsRgba;
    ghost var all := data[..];
    for i := 0 to n
      invariant HoldsRgba(out[..], target, i)
    {
      assert data[..] == all;
      ByteColour(all, n, mode, i);
      if mode.colortype == GreyAlpha {
        PutRgba(out, i, data[i * 2], data[i * 2], data[i * 2], data[i * 2 + 1], target);
      } else {
        PutRgba(out, i, data[i * 4], data[i * 4 + 1], data[i * 4 + 2], data[i * 4 + 3], target);
      }
    }
  }

  /** Opaque first; a second pass makes the key colour transparent. */
  ghost function Opaque(target: seq<Rgba>): (s: seq<Rgba>)
    ensures |s| == |target|
  {
    seq(|target|, t requires 0 <= t < |target| => target[t].(a := 255))
  }

  /** The first `i` colours with their alpha, the others still opaque. */
  ghost predicate HalfKeyed(out: seq<byte>, target: seq<Rgba>, i: nat) {
    && i <= |target| && Area(4, |target|) <= |out|
    && forall t | 0 <= t < |target| :: IsRgba(out, t, if t < i then target[t] else target[t].(a := 255))
  }

  method GreyToRgba(out: array<byte>, n: nat, data: array<byte>, mode: ColorMode, ghost target: seq<Rgba>)
    requires out != data && Legal(mode) && mode.colortype == Grey && mode.bitdepth == 8
    requires Fits(data[..], n, mode) && target == ColoursOf(data[..], n, mode) && HoldsRgba(out[..], target, 0)
    modifies out
    ensures HoldsRgba(out[..], target, n)
  {
    hide Area, ColoursOf, PixelAt, HoldsRgba, HalfKeyed, Widen;
    ghost var all, solid := data[..], Opaque(target);
    HoldsNothing(out[..], solid) by { assert Area(4, |target|) <= out.Length by { HoldsSize(out[..], target, 0); } }
    for i := 0 to n
      invariant HoldsRgba(out[..], solid, i)
    {
      assert data[..] == all;
      ByteColour(all, n, mode, i);
      WidenByte(data[i]);
      PutRgba(out, i, data[i], data[i], data[i], 255, solid);
    }
    OpaqueIsHalf(out[..], target);
    if mode.key.Some? {
      for i := 0 to n
        invariant HalfKeyed(out[..], target, i)
      {
        ByteColour(all, n, mode, i);
        WidenByte(all[i]);
        HalfAt(out[..], target, i);
        var clear := out[4 * i] as nat == mode.key.value.r;
        SetAlpha(out, i, clear, target);
      }
    } else {
      forall t | 0 <= t < n ensures target[t].a == 255 { ByteColour(all, n, mode, t); }
    }
    KeyedIsWhole(out[..], target, if mode.key.Some? then n else 0);
  }

  lemma HoldsSize(out: seq<byte>, target: seq<Rgba>, i: nat)
    requires HoldsRgba(out, target, i)
    ensures Area(4, |target|) <= |out|
  {}

  lemma OpaqueIsHalf(out: seq<byte>, target: seq<Rgba>)
    requires HoldsRgba(out, Opaque(target), |target|)
    ensures HalfKeyed(out, target, 0)
  {
    hide Area;
    forall t | 0 <= t < |target| ensures IsRgba(out, t, target[t].(a := 255)) {
      assert IsRgba(out, t, Opaque(target)[t]);
    }
  }

  lemma HalfAt(out: seq<byte>, target: seq<Rgba>, i: nat)
    requires HalfKeyed(out, target, i) && i < |target|
    ensures IsRgba(out, i, target[i].(a := 255))
  {}

  lemma KeyedIsWhole(out: seq<byte>, target: seq<Rgba>, i: nat)
    requires HalfKeyed(out, target, i) && forall t | i <= t < |target| :: target[t].a == 255
    ensures HoldsRgba(out, target, |target|)
  {}

  method SetAlpha(out: array<byte>, i: nat, clear: bool, ghost target: seq<Rgba>)
    requires HalfKeyed(out[..], target, i) && i < |target| && target[i].a == (if clear then 0 else 255)
    modifies out
    ensures HalfKeyed(out[..], target, i + 1)
  {
    AreaOrder(4, i + 1, |target|);
    if clear { out[4 * i + 3] := 0; }
  }

  method RgbToRgba(out: array<byte>, n: nat, data: array<byte>, mode: ColorMode, ghost target: seq<Rgba>)
    requires out != data && Legal(mode) && mode.colortype == Rgb
    requires Fits(data[..], n, mode) && target == ColoursOf(data[..], n, mode) && HoldsRgba(out[..], target, 0)
    modifies out
    ensures HoldsRgba(out[..], target, n)
  {
    hide Area, ColoursOf, PixelAt, HoldsRgba, HalfKeyed;
    ghost var all, solid := data[..], Opaque(target);
    HoldsNothing(out[..], solid) by { assert Area(4, |target|) <= out.Length by { HoldsSize(out[..], target, 0); } }
    for i := 0 to n
      invariant HoldsRgba(out[..], solid, i)
    {
      assert data[..] == all;
      ByteColour(all, n, mode, i);
      PutRgba(out, i, data[i * 3], data[i * 3 + 1], data[i * 3 + 2], 255, solid);
    }
    OpaqueIsHalf(out[..], target);
    if mode.key.Some? {
      for i := 0 to n
        invariant HalfKeyed(out[..], target, i)
      {
        ByteColour(all, n, mode, i);
        HalfAt(out[..], target, i);
        var k := mode.key.value;
        var clear := out[4 * i] as nat == k.r && out[4 * i + 1] as nat == k.g && out[4 * i + 2] as nat == k.b;
        SetAlpha(out, i, clear, target);
      }
    } else {
      forall t | 0 <= t < n ensures target[t].a == 255 { ByteColour(all, n, mode, t); }
    }
    KeyedIsWhole(out[..], target, if mode.key.Some? then n else 0);
  }
}
