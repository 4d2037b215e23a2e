/** The zlib container (RFC 1950) around Deflate data. */
module Zlib {
  import opened Wrappers
  import opened Bits
  import BitIO
  import Huffman
  import opened Format
  import Inflate
  import Deflate
  import opened Adler

  function BigEndian(v: nat): (s: seq<byte>)
    requires v < WORD
    ensures |s| == 4
  {
    [v / 0x100_0000, v / 0x1_0000 % 0x100, v / 0x100 % 0x100, v % 0x100]
  }

  function ReadBigEndian(s: seq<byte>): (v: nat)
    requires |s| == 4
    ensures v < WORD
  {
    (s[0] as int) * 0x100_0000 + (s[1] as int) * 0x1_0000 + (s[2] as int) * 0x100 + s[3] as int
  }

  lemma BigEndianRoundTrip(v: nat)
    requires v < WORD
    ensures ReadBigEndian(BigEndian(v)) == v
  {
    var q: nat := v / 0x100;
    var p: nat := q / 0x100;
    DivModUnique(v, 0x1_0000, p, q % 0x100 * 0x100 + v % 0x100);
    DivModUnique(v, 0x100_0000, p / 0x100, p % 0x100 * 0x1_0000 + q % 0x100 * 0x100 + v % 0x100);
  }

  /** The four bytes at the end, read as two numbers, are the two sums of Adler-32 over `body`. */
  lemma TrailerIs(s: seq<byte>, body: seq<byte>)
    requires |s| == 4
    ensures ReadBigEndian(s) == Checksum(1, body) <==>
            && (s[0] as int) * 0x100 + s[1] as int == (|body| + Weighted(body)) % 65521
            && (s[2] as int) * 0x100 + s[3] as int == (1 + Total(body)) % 65521
  {
    hide *;
    OneSplits();
    ChecksumIs(1, body);
    ReadHalves(s, Checksum(1, body));
  }

  /** The last four bytes are the two sums, high bytes first. */
  ghost predicate EndsInSums(stream: seq<byte>, body: seq<byte>) {
    var n := |stream|;
    && n >= 4
    && (stream[n - 4] as int) * 0x100 + stream[n - 3] as int == (|body| + Weighted(body)) % 65521
    && (stream[n - 2] as int) * 0x100 + stream[n - 1] as int == (1 + Total(body)) % 65521
  }

  lemma SumsAtEnd(stream: seq<byte>, body: seq<byte>)
    requires |stream| >= 4
    ensures EndsInSums(stream, body) <==> ReadBigEndian(stream[|stream| - 4..]) == Checksum(1, body)
  {
    hide Checksum, Total, Weighted, ReadBigEndian;
    TrailerIs(stream[|stream| - 4..], body);
  }

  lemma ReadHalves(s: seq<byte>, v: nat)
    requires |s| == 4 && v < WORD
    ensures ReadBigEndian(s) == v <==>
            && (s[0] as int) * 0x100 + s[1] as int == v / 0x1_0000
            && (s[2] as int) * 0x100 + s[3] as int == v % 0x1_0000
  {
    var high, low := (s[0] as int) * 0x100 + s[1] as int, (s[2] as int) * 0x100 + s[3] as int;
    assert ReadBigEndian(s) == high * 0x1_0000 + low;
    DivModUnique(ReadBigEndian(s), 0x1_0000, high, low);
  }

  /** The error the two header bytes cause, if any. */
  function HeaderError(data: seq<byte>): nat {
    if |data| < 2 then 53
    else
      var cmf: nat, flg: nat := data[0], data[1];
      if (cmf * 256 + flg) % 31 != 0 then 24
      else if cmf % 16 != 8 || cmf / 16 > 7 then 25
      else if flg / 32 % 2 != 0 then 26
      else 0
  }

  /** The headers of section 2.2 of RFC 1950 that are taken: Deflate with a window of at most 32K, any level, no preset
      dictionary, and check bits that make the two bytes a multiple of 31. */
  lemma HeaderIs(data: seq<byte>)
    ensures HeaderError(data) == 0 <==>
              |data| >= 2 && exists cinfo, flevel, fcheck ::
                && 0 <= cinfo <= 7 && 0 <= flevel <= 3 && 0 <= fcheck <= 31 && WithHeader(data, cinfo, flevel, fcheck)
  {
    if |data| >= 2 {
      var cmf: nat, flg: nat := data[0], data[1];
      hide WithHeader;
      if HeaderError(data) == 0 {
        Parts(cmf, flg);
        HeaderOf(data, cmf / 16, flg / 64, flg % 32);
      }
      if cinfo, flevel, fcheck :| 0 <= cinfo <= 7 && 0 <= flevel <= 3 && 0 <= fcheck <= 31
                                  && WithHeader(data, cinfo, flevel, fcheck) {
        HeaderOf(data, cinfo, flevel, fcheck);
        Whole(cmf, flg, cinfo, flevel, fcheck);
      }
    }
  }

  lemma Parts(cmf: nat, flg: nat)
    requires cmf % 16 == 8 && flg < 256 && flg / 32 % 2 == 0
    ensures cmf == 16 * (cmf / 16) + 8 && flg == 64 * (flg / 64) + flg % 32 && flg / 64 <= 3 && flg % 32 <= 31
  {}

  lemma Whole(cmf: nat, flg: nat, cinfo: int, flevel: int, fcheck: int)
    requires cmf == 16 * cinfo + 8 && flg == 64 * flevel + fcheck && 0 <= fcheck <= 31 && flevel >= 0 && cinfo >= 0
    ensures cmf % 16 == 8 && cmf / 16 == cinfo && flg / 32 % 2 == 0
  {}

  lemma HeaderOf(data: seq<byte>, cinfo: int, flevel: int, fcheck: int)
    requires |data| >= 2
    ensures WithHeader(data, cinfo, flevel, fcheck) <==>
              && data[0] as int == 16 * cinfo + 8 && data[1] as int == 64 * flevel + fcheck
              && (data[0] as int * 256 + data[1] as int) % 31 == 0
  {}

  predicate WithHeader(data: seq<byte>, cinfo: int, flevel: int, fcheck: int)
    requires |data| >= 2
  {
    && data[0] as int == 16 * cinfo + 8 && data[1] as int == 64 * flevel + fcheck
    && (256 * (16 * cinfo + 8) + 64 * flevel + fcheck) % 31 == 0
  }

  /** What a zlib stream appended to `before` gives: the checksum is of the whole. */
  ghost function DecompressedAfter(before: seq<byte>, data: seq<byte>,
                                   settings: DecompressSettings): Option<seq<byte>> {
    if HeaderError(data) != 0 then None
    else
      match ReadBlocks(data[2..], 0, before, settings)
      case None => None
      case Some(out) =>
        if |data| >= 4 && (settings.ignoreAdler32
            || ReadBigEndian(data[|data| - 4..]) == Checksum(1, out[..|out| % WORD]))
        then Some(out) else None
  }

  /** What a zlib stream stands for. */
  ghost function Decompressed(data: seq<byte>, settings: DecompressSettings): Option<seq<byte>> {
    DecompressedAfter([], data, settings)
  }

  lemma {:induction false} SymbolLonger(bits: seq<bool>, p: nat, ll: seq<nat>, d: seq<nat>, out: seq<byte>, max: nat,
                                        n: nat)
    requires Huffman.ValidLengths(ll) && Huffman.ValidLengths(d) && p <= |bits|
    requires ReadSymbols(bits, p, ll, d, out, max).Some?
    requires forall s | 0 <= s < |ll| && ll[s] > 0 :: ll[s] >= n
    ensures p + n <= |bits|
  {
    hide Sym, ReadCopy;
    var s := Sym(ll, bits, p).value;
    assert ll[s] >= n;
  }

  /** A stream the decoder accepts has at least two bytes, so the four checksum bytes are really there. */
  lemma AcceptedLongEnough(data: seq<byte>, before: seq<byte>, settings: DecompressSettings)
    requires ReadBlocks(data, 0, before, settings).Some?
    ensures |data| >= 2
  {
    hide BitIO.BitsOf, Field, ReadSymbols, ReadTrees, FixedLL, FixedD;
    var bits := BitIO.BitsOf(data);
    if Field(bits, 1, 2) == 1 {
      FixedValid();
      Inflate.FixedLLAt();
      SymbolLonger(bits, 3, FixedLL(), FixedD(), before, settings.maxOutputSize, 7);
    } else if Field(bits, 1, 2) == 2 {
      assert |bits| - 3 >= 14 by { TreesNeedBits(bits, 3); }
    }
  }

  lemma TreesNeedBits(bits: seq<bool>, p: nat)
    requires p <= |bits| && ReadTrees(bits, p).Some?
    ensures |bits| - p >= 14
  {}

  lemma Unwrapped(before: seq<byte>, data: seq<byte>, settings: DecompressSettings)
    ensures HeaderError(data) != 0 ==> DecompressedAfter(before, data, settings) == None
    ensures HeaderError(data) == 0 ==>
              match ReadBlocks(data[2..], 0, before, settings)
              case None => DecompressedAfter(before, data, settings) == None
              case Some(out) =>
                DecompressedAfter(before, data, settings)
                == if |data| >= 4 && (settings.ignoreAdler32
                       || ReadBigEndian(data[|data| - 4..]) == Checksum(1, out[..|out| % WORD]))
                   then Some(out) else None
  {
    hide ReadBlocks, Checksum, ReadBigEndian;
  }

  method ZlibDecompressV(out: Inflate.ByteVector, data: seq<byte>, settings: DecompressSettings) returns (error: nat)
    modifies out
    ensures match DecompressedAfter(old(out.data), data, settings)
            case None => error != 0
            case Some(r) => error == 0 && out.data == r
    ensures HeaderError(data) != 0 ==> error == HeaderError(data)
    ensures error == 0 ==> |data| >= 4
    ensures error == 0 && !settings.ignoreAdler32 ==>
              EndsInSums(data, out.data[..|out.data| % WORD])
  {
    hide ReadBlocks, Checksum, ReadBigEndian, DecompressedAfter, EndsInSums;
    Unwrapped(old(out.data), data, settings);
    if |data| < 2 { return 53; }
    var cmf: nat, flg: nat := data[0], data[1];
    if (cmf * 256 + flg) % 31 != 0 { return 24; }
    if cmf % 16 != 8 || cmf / 16 > 7 { return 25; }
    if flg / 32 % 2 != 0 { return 26; }
    error := Inflate.InflateV(out, data[2..], settings);
    if error != 0 { return; }
    AcceptedLongEnough(data[2..], old(out.data), settings);
    if !settings.ignoreAdler32 {
      var adler := ReadBigEndian(data[|data| - 4..]);
      var checksum := Adler32(out.data);
      SumsAtEnd(data, out.data[..|out.data| % WORD]);
      if checksum != adler { return 58; }
    }
  }

  /** The stream decompresses to `data` under every setting that does not limit the size below it. */
  ghost predicate DecompressesTo(stream: seq<byte>, data: seq<byte>) {
    forall s: DecompressSettings | !TooLarge(|data|, s.maxOutputSize) :: Decompressed(stream, s) == Some(data)
  }

  method ZlibCompress(data: seq<byte>, settings: Deflate.CompressSettings) returns (error: nat, out: seq<byte>)
    requires !(settings.btype == 1 && data == [])
    ensures error == Deflate.DeflateError(settings)
    ensures error == 0 && !(settings.btype == 0 && data == []) ==> DecompressesTo(out, data)
    ensures error == 0 ==>
              |out| >= 6 && out[..2] == [120, 1] && EndsInSums(out, data[..|data| % WORD])
    ensures error == 0 && settings.btype == 0 && data == [] ==>
              out == [120, 1] + BigEndian(Checksum(1, [])) && forall s :: Decompressed(out, s) == None
  {
    hide Deflate.InflatesTo, Checksum, BigEndian, Decompressed, EndsInSums, ReadBigEndian;
    var deflated := new Inflate.ByteVector();
    error := Deflate.DeflateV(deflated, data, settings);
    out := [];
    if error == 0 {
      var adler := Adler32(data);
      var cmf: int, flevel: int, fdict: int := 120, 0, 0;
      var cmfflg: int := 256 * cmf + fdict * 32 + flevel * 64;
      cmfflg := cmfflg + (31 - cmfflg % 31);
      assert cmfflg / 256 == 120 && cmfflg % 256 == 1;
      out := [cmfflg / 256, cmfflg % 256] + deflated.data + BigEndian(adler);
      BigEndianRoundTrip(adler);
      assert out[|out| - 4..] == BigEndian(adler);
      SumsAtEnd(out, data[..|data| % WORD]);
      if settings.btype == 0 && data == [] {
        forall s { StoredNothingRejected(out, s); }
      } else {
        assert deflated.data[0..] == deflated.data;
        ContainerInflates(out, deflated.data, data, adler);
      }
    }
  }

  lemma ContainerInflates(out: seq<byte>, deflated: seq<byte>, data: seq<byte>, adler: nat)
    requires Deflate.InflatesTo(deflated, data) && adler == Checksum(1, data[..|data| % WORD]) < WORD
    requires out == [120, 1] + deflated + BigEndian(adler)
    ensures DecompressesTo(out, data)
  {
    hide Checksum, BigEndian, ReadBlocks, ReadBigEndian;
    assert out[2..] == deflated + BigEndian(adler);
    assert out[|out| - 4..] == BigEndian(adler);
    BigEndianRoundTrip(adler);
  }

  /** Storing nothing leaves only the header and the checksum, which no setting decompresses. */
  lemma StoredNothingRejected(stream: seq<byte>, s: DecompressSettings)
    requires stream == [120, 1] + BigEndian(Checksum(1, []))
    ensures Decompressed(stream, s) == None
  {
    hide BigEndian, Checksum, ReadBlocks;
    EmptyChecksum();
    assert stream[2..] == BigEndian(Checksum(1, []));
    EmptyRejected(stream[2..], s);
  }

  lemma EmptyChecksum()
    ensures Checksum(1, []) == 1 && BigEndian(Checksum(1, []))[0] == 0
  {}

  lemma EmptyRejected(tail: seq<byte>, s: DecompressSettings)
    requires |tail| == 4 && tail[0] == 0
    ensures Format.Inflate(tail, s) == None
  {
    hide BitIO.BitsOf, Field;
    Deflate.StoredBits(tail, 0);
    assert ReadStored(tail, 3, [], s.ignoreNlen) == None;
  }
}
