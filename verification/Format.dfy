/** The Deflate format (RFC 1951) read by its definition: one symbol at a time, straight from the bits.

    `Inflate` answers `None` exactly when a stream is not accepted. Bits past the end read as
    zero; a step that used any of them is rejected when it is done. */
module Format {
  import opened Wrappers
  import opened Bits
  import opened BitIO
  import opened Huffman
  import Tokens

  datatype DecompressSettings = DecompressSettings(ignoreAdler32: bool, ignoreNlen: bool, maxOutputSize: nat)

  /** The program's table of the order in which the code length code lengths are stored. */
  const CLCLORDER: seq<nat> := [16, 17, 18, 0, 8, 7, 9, 6, 10, 5, 11, 4, 12, 3, 13, 2, 14, 1, 15]

  function Repeat(v: nat, n: nat): (s: seq<nat>)
    ensures |s| == n && forall i | 0 <= i < n :: s[i] == v
  {
    seq(n, _ => v)
  }

  /** Code lengths of the fixed literal/length and distance trees. */
  function FixedLL(): (s: seq<nat>)
    ensures |s| == 288
  {
    Repeat(8, 144) + Repeat(9, 112) + Repeat(7, 24) + Repeat(8, 8)
  }

  function FixedD(): (s: seq<nat>)
    ensures |s| == 32
  {
    Repeat(5, 32)
  }

  ghost function Field(bits: seq<bool>, p: nat, n: nat): (v: nat)
    ensures v < Pow2(n)
  {
    LsbBound(Window(bits, p, n));
    Lsb(Window(bits, p, n))
  }

  /** The symbol that starts at `p`. */
  ghost function Sym(lens: seq<nat>, bits: seq<bool>, p: nat): (r: Option<nat>)
    requires ValidLengths(lens)
    ensures r.Some? ==> r.value < |lens| && 0 < lens[r.value] <= 15
  {
    Decode(lens, Lsb(Window(bits, p, 15)))
  }

  predicate TooLarge(size: nat, max: nat) {
    max != 0 && size > max
  }

  datatype Reading<T> = Reading(end: nat, value: T)

  // ---------------------------------------------------------------- compressed data

  /** One length/distance pair whose length symbol has just been read: end position and output. */
  ghost function ReadCopy(s: nat, bits: seq<bool>, p: nat, d: seq<nat>, out: seq<byte>): (r: Option<Reading<seq<byte>>>)
    requires ValidLengths(d) && 257 <= s <= 285
    ensures r.Some? ==> r.value.end >= p && |r.value.value| >= |out|
  {
    var l := s - 257;
    var p1 := p + Tokens.LengthExtra(l);
    match Sym(d, bits, p1)
    case None => None
    case Some(c) =>
      if c > 29 then None
      else
        var p2 := p1 + d[c];
        var length, distance := Tokens.LengthBase(l) + Field(bits, p, Tokens.LengthExtra(l)),
            Tokens.DistanceBase(c) + Field(bits, p2, Tokens.DistanceExtra(c));
        if distance > |out| then None
        else Some(Reading(p2 + Tokens.DistanceExtra(c), Tokens.CopyBytes(out, length, distance)))
  }

  ghost predicate Accepted(r: Reading<seq<byte>>, bits: seq<bool>, max: nat) {
    r.end <= |bits| && !TooLarge(|r.value|, max)
  }

  /** Symbols up to the end code. */
  ghost function ReadSymbols(bits: seq<bool>, p: nat, ll: seq<nat>, d: seq<nat>, out: seq<byte>, max: nat)
    : (r: Option<Reading<seq<byte>>>)
    requires ValidLengths(ll) && ValidLengths(d) && p <= |bits|
    ensures r.Some? ==> p < r.value.end <= |bits| && !TooLarge(|r.value.value|, max)
    decreases |bits| - p
  {
    match Sym(ll, bits, p)
    case None => None
    case Some(s) =>
      var p1 := p + ll[s];
      if s <= 255 then
        var step := Reading(p1, out + [s as byte]);
        if Accepted(step, bits, max) then ReadSymbols(bits, p1, ll, d, step.value, max) else None
      else if s == 256 then
        if Accepted(Reading(p1, out), bits, max) then Some(Reading(p1, out)) else None
      else if s <= 285 then
        match ReadCopy(s, bits, p1, d, out)
        case None => None
        case Some(step) =>
          if Accepted(step, bits, max) then ReadSymbols(bits, step.end, ll, d, step.value, max) else None
      else None
  }

  // ---------------------------------------------------------------- the trees of a dynamic block

  /** The lengths one code length symbol stands for, given those before it, and how many bits follow it. */
  ghost function LengthRun(s: nat, extra: nat, acc: seq<nat>): (run: seq<nat>)
    requires s <= 18 && (s == 16 ==> acc != [])
    ensures run != []
  {
    if s <= 15 then [s]
    else if s == 16 then Repeat(acc[|acc| - 1], 3 + extra)
    else if s == 17 then Repeat(0, 3 + extra)
    else Repeat(0, 11 + extra)
  }

  function ExtraBits(s: nat): nat {
    if s == 16 then 2 else if s == 17 then 3 else if s == 18 then 7 else 0
  }

  ghost function ReadLengths(bits: seq<bool>, p: nat, cl: seq<nat>, total: nat,
                             acc: seq<nat>): (r: Option<Reading<seq<nat>>>)
    requires ValidLengths(cl) && |cl| == 19 && |acc| <= total && p <= |bits|
    ensures r.Some? ==> p <= r.value.end <= |bits| && |r.value.value| == total
    decreases total - |acc|
  {
    if |acc| == total then Some(Reading(p, acc))
    else
      match Sym(cl, bits, p)
      case None => None
      case Some(s) =>
        if s == 16 && acc == [] then None
        else
          var p1 := p + cl[s];
          var acc' := acc + LengthRun(s, Field(bits, p1, ExtraBits(s)), acc);
          if |acc'| > total || p1 + ExtraBits(s) > |bits| then None
          else ReadLengths(bits, p1 + ExtraBits(s), cl, total, acc')
  }

  /** Where section 3.2.7 of RFC 1951 puts a code length: the repeats first, then zero, then outward from eight. */
  function Place(s: nat): (k: nat)
    requires s < 19
    ensures k < 19
  {
    if s >= 16 then s - 16 else if s == 0 then 3 else if s >= 8 then 4 + 2 * (s - 8) else 5 + 2 * (7 - s)
  }

  function SymbolAt(k: nat): (s: nat)
    requires k < 19
    ensures s < 19 && Place(s) == k
  {
    if k < 3 then k + 16 else if k == 3 then 0 else if k % 2 == 0 then 8 + (k - 4) / 2 else 7 - (k - 5) / 2
  }

  /** The table follows the rule, and no two symbols share a place. */
  lemma OrderByRule()
    ensures |CLCLORDER| == 19 && forall k | 0 <= k < 19 :: CLCLORDER[k] == SymbolAt(k)
    ensures forall s | 0 <= s < 19 :: SymbolAt(Place(s)) == s
  {}

  /** The code length code lengths: three bits each, in their peculiar order, the rest zero. */
  ghost function ReadCl(bits: seq<bool>, p: nat, hclen: nat): (cl: seq<nat>)
    requires hclen <= 19
    ensures |cl| == 19 && ValidLengths(cl)
  {
    Pow2Values();
    seq(19, s requires 0 <= s < 19 => if Place(s) < hclen then Field(bits, p + 3 * Place(s), 3) else 0)
  }

  /** The same with the places spelled out. */
  lemma ClRead(bits: seq<bool>, p: nat, hclen: nat)
    requires hclen <= 19
    ensures forall s | 0 <= s < 19 ::
              var place := if s >= 16 then s - 16 else if s == 0 then 3
                  else if s >= 8 then 4 + 2 * (s - 8) else 5 + 2 * (7 - s);
              ReadCl(bits, p, hclen)[s] == if place < hclen then Field(bits, p + 3 * place, 3) else 0
  {
    hide Field;
  }

  /** One more length read. */
  lemma ReadClNext(bits: seq<bool>, p: nat, k: nat)
    requires k < 19
    ensures ReadCl(bits, p, k + 1) == ReadCl(bits, p, k)[SymbolAt(k) := Field(bits, p + 3 * k, 3)]
  {
    hide Field;
    OrderByRule();
  }

  datatype Trees = Trees(ll: seq<nat>, d: seq<nat>)

  /** The lengths split into two alphabets; there must be an end code and both code sets must be acceptable. */
  ghost function FinishTrees(lengths: Reading<seq<nat>>, hlit: nat, hdist: nat): (r: Option<Reading<Trees>>)
    requires 257 <= hlit <= 288 && 1 <= hdist <= 32 && |lengths.value| == hlit + hdist
    ensures r.Some? ==> r.value.end == lengths.end
                        && ValidLengths(r.value.value.ll) && ValidLengths(r.value.value.d)
                        && |r.value.value.ll| == 288 && |r.value.value.d| == 32
  {
    var ll := lengths.value[..hlit] + Repeat(0, 288 - hlit);
    var d := lengths.value[hlit..] + Repeat(0, 32 - hdist);
    if ValidLengths(ll) && ValidLengths(d) && ll[256] != 0 && Acceptable(ll) && Acceptable(d)
    then Some(Reading(lengths.end, Trees(ll, d))) else None
  }

  /** The part after the code length code lengths. */
  ghost function ReadTreesWith(bits: seq<bool>, p: nat, cl: seq<nat>, hlit: nat,
                               hdist: nat): (r: Option<Reading<Trees>>)
    requires ValidLengths(cl) && |cl| == 19 && 257 <= hlit <= 288 && 1 <= hdist <= 32 && p <= |bits|
    ensures r.Some? ==> p <= r.value.end <= |bits|
                        && ValidLengths(r.value.value.ll) && ValidLengths(r.value.value.d)
                        && |r.value.value.ll| == 288 && |r.value.value.d| == 32
  {
    if !Acceptable(cl) then None
    else
      match ReadLengths(bits, p, cl, hlit + hdist, [])
      case None => None
      case Some(r) => FinishTrees(r, hlit, hdist)
  }

  ghost function ReadTrees(bits: seq<bool>, p: nat): (r: Option<Reading<Trees>>)
    requires p <= |bits|
    ensures r.Some? ==> p < r.value.end <= |bits|
                        && ValidLengths(r.value.value.ll) && ValidLengths(r.value.value.d)
                        && |r.value.value.ll| == 288 && |r.value.value.d| == 32
  {
    if |bits| - p < 14 then None
    else
      Pow2Values();
      var hlit, hdist, hclen := Field(bits, p, 5) + 257, Field(bits, p + 5, 5) + 1, Field(bits, p + 10, 4) + 4;
      if p + 14 + hclen * 3 > |bits| then None
      else
        ReadTreesWith(bits, p + 14 + hclen * 3, ReadCl(bits, p + 14, hclen), hlit, hdist)
  }

  // ---------------------------------------------------------------- blocks

  ghost function ReadStored(data: seq<byte>, p: nat, out: seq<byte>, ignoreNlen: bool): (r: Option<Reading<seq<byte>>>)
    ensures r.Some? ==> p < r.value.end <= 8 * |data|
  {
    var b := (p + 7) / 8;
    if b + 4 >= |data| then None
    else
      var len: nat := data[b] as int + 256 * data[b + 1] as int;
      var nlen: nat := data[b + 2] as int + 256 * data[b + 3] as int;
      if !ignoreNlen && len + nlen != 65535 then None
      else if b + 4 + len > |data| then None
      else Some(Reading(8 * (b + 4 + len), out + data[b + 4..b + 4 + len]))
  }

  ghost function ReadBlock(btype: nat, data: seq<byte>, p: nat, out: seq<byte>, settings: DecompressSettings)
    : (r: Option<Reading<seq<byte>>>)
    requires p <= 8 * |data|
    ensures r.Some? ==> p < r.value.end <= 8 * |data|
  {
    var bits := BitsOf(data);
    if btype == 0 then ReadStored(data, p, out, settings.ignoreNlen)
    else if btype == 1 then
      FixedValid();
      ReadSymbols(bits, p, FixedLL(), FixedD(), out, settings.maxOutputSize)
    else if btype == 2 then
      match ReadTrees(bits, p)
      case None => None
      case Some(t) => ReadSymbols(bits, t.end, t.value.ll, t.value.d, out, settings.maxOutputSize)
    else None
  }

  lemma FixedValid()
    ensures ValidLengths(FixedLL()) && ValidLengths(FixedD())
  {}

  ghost function ReadBlocks(data: seq<byte>, p: nat, out: seq<byte>, settings: DecompressSettings): Option<seq<byte>>
    requires p <= 8 * |data|
    decreases 8 * |data| - p
  {
    var bits := BitsOf(data);
    if |bits| - p < 3 then None
    else
      match ReadBlock(Field(bits, p + 1, 2), data, p + 3, out, settings)
      case None => None
      case Some(r) =>
        if TooLarge(|r.value|, settings.maxOutputSize) then None
        else if bits[p] then Some(r.value)
        else ReadBlocks(data, r.end, r.value, settings)
  }

  /** What a whole stream inflates to. */
  ghost function Inflate(data: seq<byte>, settings: DecompressSettings): Option<seq<byte>> {
    ReadBlocks(data, 0, [], settings)
  }

  // ---------------------------------------------------------------- the one place where the decoder is stricter

  /** A stored block as section 3.2.4 of RFC 1951 has it: its four length bytes may be the last of the stream. */
  ghost function StoredByRule(data: seq<byte>, p: nat, out: seq<byte>,
                              ignoreNlen: bool): (r: Option<Reading<seq<byte>>>)
    ensures r.Some? ==> p < r.value.end <= 8 * |data|
  {
    var b := (p + 7) / 8;
    if b + 4 > |data| then None
    else
      var len: nat := data[b] as int + 256 * data[b + 1] as int;
      var nlen: nat := data[b + 2] as int + 256 * data[b + 3] as int;
      if !ignoreNlen && len + nlen != 65535 then None
      else if b + 4 + len > |data| then None
      else Some(Reading(8 * (b + 4 + len), out + data[b + 4..b + 4 + len]))
  }

  ghost function BlockByRule(btype: nat, data: seq<byte>, p: nat, out: seq<byte>, settings: DecompressSettings)
    : (r: Option<Reading<seq<byte>>>)
    requires p <= 8 * |data|
    ensures r.Some? ==> p < r.value.end <= 8 * |data|
  {
    if btype == 0 then StoredByRule(data, p, out, settings.ignoreNlen) else ReadBlock(btype, data, p, out, settings)
  }

  ghost function BlocksByRule(data: seq<byte>, p: nat, out: seq<byte>, settings: DecompressSettings): Option<seq<byte>>
    requires p <= 8 * |data|
    decreases 8 * |data| - p
  {
    var bits := BitsOf(data);
    if |bits| - p < 3 then None
    else
      match BlockByRule(Field(bits, p + 1, 2), data, p + 3, out, settings)
      case None => None
      case Some(r) =>
        if TooLarge(|r.value|, settings.maxOutputSize) then None
        else if bits[p] then Some(r.value)
        else BlocksByRule(data, r.end, r.value, settings)
  }

  /** An empty stored block whose length bytes end the data. */
  predicate EmptyStoredAtEnd(data: seq<byte>, p: nat, ignoreNlen: bool) {
    var b := (p + 7) / 8;
    && b + 4 == |data| && data[b] == 0 && data[b + 1] == 0
    && (ignoreNlen || (data[b + 2] == 255 && data[b + 3] == 255))
  }

  /** The two readings of a stored block differ exactly there. */
  lemma StoredDiffers(data: seq<byte>, p: nat, out: seq<byte>, ignoreNlen: bool)
    ensures ReadStored(data, p, out, ignoreNlen) != StoredByRule(data, p, out, ignoreNlen) <==>
          EmptyStoredAtEnd(data, p, ignoreNlen)
    ensures EmptyStoredAtEnd(data, p, ignoreNlen) ==>
              && ReadStored(data, p, out, ignoreNlen) == None
              && StoredByRule(data, p, out, ignoreNlen) == Some(Reading(8 * |data|, out))
  {
    if EmptyStoredAtEnd(data, p, ignoreNlen) {
      assert data[|data|..|data|] == [];
      assert out + [] == out;
    }
  }

  /** The last block of the stream is an empty stored block with nothing behind it. */
  ghost predicate EndsInEmptyStored(data: seq<byte>, p: nat, out: seq<byte>, settings: DecompressSettings)
    requires p <= 8 * |data|
    decreases 8 * |data| - p
  {
    var bits := BitsOf(data);
    && |bits| - p >= 3
    && if Field(bits, p + 1, 2) == 0 && EmptyStoredAtEnd(data, p + 3, settings.ignoreNlen) then
         bits[p] && !TooLarge(|out|, settings.maxOutputSize)
       else
         match ReadBlock(Field(bits, p + 1, 2), data, p + 3, out, settings)
         case None => false
         case Some(r) =>
           !TooLarge(|r.value|, settings.maxOutputSize) && !bits[p] && EndsInEmptyStored(data, r.end, r.value, settings)
  }

  /** The decoder accepts what the format allows, but for streams that end in an empty stored block. */
  lemma {:induction false} RuleDiffers(data: seq<byte>, p: nat, out: seq<byte>, settings: DecompressSettings)
    requires p <= 8 * |data|
    ensures EndsInEmptyStored(data, p, out, settings) ==> BlocksByRule(data, p, out, settings).Some?
    ensures ReadBlocks(data, p, out, settings)
         == if EndsInEmptyStored(data, p, out, settings) then None else BlocksByRule(data, p, out, settings)
    decreases 8 * |data| - p
  {
    hide BitsOf, ReadSymbols, ReadTrees, ReadStored, StoredByRule, EmptyStoredAtEnd, Field;
    var bits := BitsOf(data);
    if |bits| - p >= 3 {
      StoredDiffers(data, p + 3, out, settings.ignoreNlen);
      match ReadBlock(Field(bits, p + 1, 2), data, p + 3, out, settings) {
        case None =>
        case Some(r) => RuleDiffers(data, r.end, r.value, settings);
      }
    }
  }

  /** A caller sees from the last bytes of a stream that nothing is lost. */
  lemma {:induction false} EmptyEndSeen(data: seq<byte>, p: nat, out: seq<byte>, settings: DecompressSettings)
    requires p <= 8 * |data| && EndsInEmptyStored(data, p, out, settings)
    ensures |data| >= 5 && data[|data| - 4] == 0 && data[|data| - 3] == 0
    ensures settings.ignoreNlen || (data[|data| - 2] == 255 && data[|data| - 1] == 255)
    decreases 8 * |data| - p
  {
    hide BitsOf, ReadBlock, Field;
    var bits := BitsOf(data);
    if !(Field(bits, p + 1, 2) == 0 && EmptyStoredAtEnd(data, p + 3, settings.ignoreNlen)) {
      var r := ReadBlock(Field(bits, p + 1, 2), data, p + 3, out, settings).value;
      EmptyEndSeen(data, r.end, r.value, settings);
    }
  }
}
