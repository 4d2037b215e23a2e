/** Two streams written byte by byte by the standard, and what they stand for. */
module SampleStreams {
  import opened Wrappers
  import opened Bits
  import opened BitIO
  import opened Huffman
  import opened Format
  import opened FormatRules
  import Tokens
  import Stream

  // ---------------------------------------------------------------- fixed codes

  /** Six bytes with fixed codes: the letter a, a copy of twelve bytes one back, a copy of three bytes six back. They
      are sixteen times the letter. */
  lemma SixteenLetters(s: DecompressSettings)
    requires !TooLarge(16, s.maxOutputSize)
    ensures Format.Inflate([75, 68, 6, 64, 18, 0], s) == Some(seq(16, _ => 97))
  {
    hide *;
    var data: seq<byte> := [75, 68, 6, 64, 18, 0];
    var b := Stream.Fixed(Letters());
    LettersExpand();
    LettersEncodable();
    LettersBits();
    LettersData();
    LettersBlock(BitsOf(data));
    Stream.ReadOneBlock(data, 0, b, [], true, s);
    WholeStream(data, s);
  }

  function Letters(): seq<Tokens.Token> {
    [Tokens.Literal(97), Tokens.Copy(12, 1), Tokens.Copy(3, 6)]
  }

  lemma WholeStream(data: seq<byte>, s: DecompressSettings)
    ensures Format.Inflate(data, s) == ReadBlocks(data, 0, [], s)
  {}

  lemma LettersExpand()
    ensures Tokens.Expandable(Letters(), []) && Tokens.Expand(Letters(), []) == seq(16, _ => 97)
  {
    var a, b, c := Tokens.Literal(97), Tokens.Copy(12, 1), Tokens.Copy(3, 6);
    LettersListed();
    SameLetters([97], 12, 1, 97);
    SameLetters(Tokens.CopyBytes([97], 12, 1), 3, 6, 97);
    assert [] + [97 as byte] == [97];
    var one, two := Tokens.CopyBytes([97], 12, 1), Tokens.CopyBytes(Tokens.CopyBytes([97], 12, 1), 3, 6);
    hide Tokens.Expand, Tokens.Expandable, Tokens.CopyBytes, Letters;
    HeadExpands(c, [], one);
    HeadExpands(b, [c], [97]);
    HeadExpands(a, [b, c], []);
  }

  lemma HeadExpands(t: Tokens.Token, rest: seq<Tokens.Token>, out: seq<byte>)
    requires Tokens.TokenOk(t, |out|) && (rest == [] || Tokens.Expandable(rest, Tokens.ExpandOne(t, out)))
    ensures Tokens.Expandable([t] + rest, out)
    ensures rest == [] ==> Tokens.Expand([t] + rest, out) == Tokens.ExpandOne(t, out)
    ensures rest != [] ==> Tokens.Expand([t] + rest, out) == Tokens.Expand(rest, Tokens.ExpandOne(t, out))
  {
    hide Tokens.CopyBytes;
    assert ([t] + rest)[1..] == rest;
  }

  lemma {:induction false} SameLetters(out: seq<byte>, n: nat, d: nat, v: byte)
    requires 0 < d <= |out| && forall i | 0 <= i < |out| :: out[i] == v
    ensures Tokens.CopyBytes(out, n, d) == seq(|out| + n, _ => v)
    decreases n
  {
    if n > 0 { SameLetters(out + [out[|out| - d]], n - 1, d, v); }
  }

  lemma LettersCodes()
    ensures Tokens.LengthCode(12) == 8 && Tokens.LengthCode(3) == 0
    ensures Tokens.DistanceCode(1) == 0 && Tokens.DistanceCode(6) == 4
  {
    Tokens.TablesIncrease();
    Tokens.CodeOfUnique(Tokens.LENGTHBASE, 12, 8);
    Tokens.CodeOfUnique(Tokens.LENGTHBASE, 3, 0);
    Tokens.CodeOfUnique(Tokens.DISTANCEBASE, 1, 0);
    Tokens.CodeOfUnique(Tokens.DISTANCEBASE, 6, 4);
  }

  lemma LettersEncodable()
    ensures Stream.AllEncodable(Letters(), FixedLL(), FixedD()) && ValidLengths(FixedLL()) && ValidLengths(FixedD())
    ensures Tokens.Expandable(Letters(), []) ==> Stream.BlockOk(Stream.Fixed(Letters()), [])
  {
    FixedShape();
    LettersCodes();
    hide FixedLL, FixedD, Tokens.Expandable, Tokens.LengthCode, Tokens.DistanceCode;
  }

  /** The bits of the three tokens and the end code. */
  lemma LettersBits()
    ensures ValidLengths(FixedLL()) && ValidLengths(FixedD()) && Stream.AllEncodable(Letters(), FixedLL(), FixedD())
    ensures Stream.TokensBits(Letters(), FixedLL(), FixedD()) + CodeBits(FixedLL(), 256) == LetterBits()
  {
    hide *;
    LettersEncodable();
    TokenByToken(FixedLL(), FixedD());
    FirstLetter();
    FirstCopy();
    SecondCopy();
    FixedCodes(256);
    CodeIs(FixedLL(), 256);
    LetterBitsAre();
  }

  function LetterBits(): seq<bool> {
    ToMsb(0x91, 8) + (((ToMsb(9, 7) + ToLsb(1, 1)) + (ToMsb(0, 5) + ToLsb(0, 0)))
                      + ((ToMsb(1, 7) + ToLsb(0, 0)) + (ToMsb(4, 5) + ToLsb(1, 1)))) + ToMsb(0, 7)
  }

  lemma LetterBitsAre()
    ensures LetterBits() == ToMsb(0x91, 8) + (((ToMsb(9, 7) + ToLsb(1, 1)) + (ToMsb(0, 5) + ToLsb(0, 0)))
                            + ((ToMsb(1, 7) + ToLsb(0, 0)) + (ToMsb(4, 5) + ToLsb(1, 1)))) + ToMsb(0, 7)
  {}

  lemma TokenByToken(ll: seq<nat>, d: seq<nat>)
    requires ValidLengths(ll) && ValidLengths(d) && Stream.AllEncodable(Letters(), ll, d)
    ensures Stream.Encodable(Tokens.Literal(97), ll, d)
    ensures Stream.Encodable(Tokens.Copy(12, 1), ll, d) && Stream.Encodable(Tokens.Copy(3, 6), ll, d)
    ensures Stream.TokensBits(Letters(), ll, d)
         == Stream.TokenBits(Tokens.Literal(97), ll, d)
            + (Stream.TokenBits(Tokens.Copy(12, 1), ll, d) + Stream.TokenBits(Tokens.Copy(3, 6), ll, d))
  {
    var a, b, c := Tokens.Literal(97), Tokens.Copy(12, 1), Tokens.Copy(3, 6);
    assert Letters()[0] == a && Letters()[1] == b && Letters()[2] == c;
    hide *;
    ThreeBits(a, b, c, ll, d);
    LettersListed();
  }

  lemma ThreeBits(a: Tokens.Token, b: Tokens.Token, c: Tokens.Token, ll: seq<nat>, d: seq<nat>)
    requires ValidLengths(ll) && ValidLengths(d)
    requires Stream.Encodable(a, ll, d) && Stream.Encodable(b, ll, d) && Stream.Encodable(c, ll, d)
    ensures Stream.AllEncodable([a] + ([b] + [c]), ll, d)
    ensures Stream.TokensBits([a] + ([b] + [c]), ll, d)
         == Stream.TokenBits(a, ll, d) + (Stream.TokenBits(b, ll, d) + Stream.TokenBits(c, ll, d))
  {
    hide *;
    NoneEncodable(ll, d);
    HeadBits(c, [], ll, d);
    assert [c] + [] == [c];
    HeadBits(b, [c], ll, d);
    HeadBits(a, [b] + [c], ll, d);
  }

  lemma NoneEncodable(ll: seq<nat>, d: seq<nat>)
    ensures Stream.AllEncodable([], ll, d)
  {}

  lemma LettersListed()
    ensures Letters() == [Tokens.Literal(97)] + ([Tokens.Copy(12, 1)] + [Tokens.Copy(3, 6)])
    ensures [Tokens.Copy(3, 6)] + [] == [Tokens.Copy(3, 6)]
    ensures [Tokens.Copy(12, 1)] + [Tokens.Copy(3, 6)] == [Tokens.Copy(12, 1), Tokens.Copy(3, 6)]
  {}

  lemma HeadBits(t: Tokens.Token, rest: seq<Tokens.Token>, ll: seq<nat>, d: seq<nat>)
    requires ValidLengths(ll) && ValidLengths(d) && Stream.Encodable(t, ll, d) && Stream.AllEncodable(rest, ll, d)
    ensures Stream.AllEncodable([t] + rest, ll, d)
    ensures Stream.TokensBits([t] + rest, ll, d) == Stream.TokenBits(t, ll, d) + Stream.TokensBits(rest, ll, d)
    ensures Stream.TokensBits([], ll, d) == []
  {
    hide Stream.TokenBits, Stream.Encodable;
    assert ([t] + rest)[1..] == rest;
  }

  lemma CodeIs(lens: seq<nat>, n: nat)
    requires ValidLengths(lens) && n < |lens|
    ensures CodeBits(lens, n) == ToMsb(Code(lens, n), lens[n])
  {
    hide Code, ToMsb;
  }

  lemma FirstLetter()
    ensures ValidLengths(FixedLL()) && ValidLengths(FixedD())
    ensures Stream.Encodable(Tokens.Literal(97), FixedLL(), FixedD()) ==>
              Stream.TokenBits(Tokens.Literal(97), FixedLL(), FixedD()) == ToMsb(0x91, 8)
  {
    FixedCodes(97);
    CodeIs(FixedLL(), 97);
    hide FixedLL, FixedD, Code, ToMsb, CodeBits;
  }

  lemma FirstCopy()
    ensures ValidLengths(FixedLL()) && ValidLengths(FixedD())
    ensures Stream.Encodable(Tokens.Copy(12, 1), FixedLL(), FixedD()) ==>
              Stream.TokenBits(Tokens.Copy(12, 1), FixedLL(), FixedD())
              == (ToMsb(9, 7) + ToLsb(1, 1)) + (ToMsb(0, 5) + ToLsb(0, 0))
  {
    hide *;
    FixedCodes(265);
    FixedCodes(0);
    CodeIs(FixedLL(), 265);
    CodeIs(FixedD(), 0);
    LettersCodes();
    LengthTable(8);
    DistanceTable(0);
    assert Pow2(1) == 2 by { Pow2Values(); }
    PairBits(12, 1, FixedLL(), FixedD());
  }

  lemma SecondCopy()
    ensures ValidLengths(FixedLL()) && ValidLengths(FixedD())
    ensures Stream.Encodable(Tokens.Copy(3, 6), FixedLL(), FixedD()) ==>
              Stream.TokenBits(Tokens.Copy(3, 6), FixedLL(), FixedD())
              == (ToMsb(1, 7) + ToLsb(0, 0)) + (ToMsb(4, 5) + ToLsb(1, 1))
  {
    hide *;
    FixedCodes(257);
    FixedCodes(4);
    CodeIs(FixedLL(), 257);
    CodeIs(FixedD(), 4);
    LettersCodes();
    LengthTable(0);
    DistanceTable(4);
    assert Pow2(1) == 2 by { Pow2Values(); }
    PairBits(3, 6, FixedLL(), FixedD());
  }

  /** A pair is the length code, its extra bits, the distance code, its extra bits. */
  lemma PairBits(length: nat, distance: nat, ll: seq<nat>, d: seq<nat>)
    requires ValidLengths(ll) && ValidLengths(d) && 3 <= length <= 258 && 1 <= distance <= 32768
    ensures Stream.Encodable(Tokens.Copy(length, distance), ll, d) ==>
              var l, c := Tokens.LengthCode(length), Tokens.DistanceCode(distance);
              && l + 257 < |ll| && c < |d| && l < 29 && c < 30
              && Tokens.LengthBase(l) <= length && Tokens.DistanceBase(c) <= distance
              && Stream.TokenBits(Tokens.Copy(length, distance), ll, d)
                 == (CodeBits(ll, l + 257) + ToLsb(length - Tokens.LengthBase(l), Tokens.LengthExtra(l)))
                    + (CodeBits(d, c) + ToLsb(distance - Tokens.DistanceBase(c), Tokens.DistanceExtra(c)))
  {
    hide CodeBits, ToLsb, Tokens.LengthCode, Tokens.DistanceCode, Tokens.LengthBase, Tokens.LengthExtra,
        Tokens.DistanceBase, Tokens.DistanceExtra;
  }

  /** The bits of the six bytes, lowest first. */
  lemma LettersData()
    ensures |BitsOf([75, 68, 6, 64, 18, 0])| == 48
    ensures BitsOf([75, 68, 6, 64, 18, 0])[..44] == [true] + ([true, false] + LetterBits())
  {
    hide *;
    var data: seq<byte> := [75, 68, 6, 64, 18, 0];
    var bits := BitsOf(data);
    LengthOfBits(data);
    ByteBits(data, 0); ByteBits(data, 1); ByteBits(data, 2); ByteBits(data, 3); ByteBits(data, 4); ByteBits(data, 5);
    assert bits[..44] == bits[0..8] + bits[8..16] + bits[16..24] + bits[24..32] + bits[32..40] + bits[40..48][..4];
    FirstByteSpelled(); SecondByteSpelled(); ThirdByteSpelled();
    FourthByteSpelled(); FifthByteSpelled(); SixthByteSpelled();
    CodesSpelled();
    LetterBitsAre();
  }

  lemma LengthOfBits(data: seq<byte>)
    ensures |BitsOf(data)| == 8 * |data|
  {}

  lemma ByteBits(data: seq<byte>, q: nat)
    requires q < |data|
    ensures |BitsOf(data)| == 8 * |data| && BitsOf(data)[8 * q..8 * q + 8] == ToLsb(data[q], 8)
  {
    hide BitsOf, ToLsb, BitAt;
    LengthOfBits(data);
    forall i | 0 <= i < 8 ensures BitsOf(data)[8 * q..8 * q + 8][i] == ToLsb(data[q], 8)[i] {
      BitsOfAt(data, 8 * q + i);
      ToLsbAt(data[q], 8, i);
      BitIsBit(data[q], i);
    }
  }

  lemma BitIsBit(v: nat, i: nat)
    ensures BitAt(v, i) == (Shr(v, i) % 2 == 1)
  {}

  lemma FirstByteSpelled()
    ensures ToLsb(75, 8) == [true, true, false, true, false, false, true, false]
  {}

  lemma SecondByteSpelled()
    ensures ToLsb(68, 8) == [false, false, true, false, false, false, true, false]
  {}

  lemma ThirdByteSpelled()
    ensures ToLsb(6, 8) == [false, true, true, false, false, false, false, false]
  {}

  lemma FourthByteSpelled()
    ensures ToLsb(64, 8) == [false, false, false, false, false, false, true, false]
  {}

  lemma FifthByteSpelled()
    ensures ToLsb(18, 8) == [false, true, false, false, true, false, false, false]
  {}

  lemma SixthByteSpelled()
    ensures ToLsb(0, 8) == [false, false, false, false, false, false, false, false]
  {}

  lemma CodesSpelled()
    ensures ToMsb(145, 8) == [true, false, false, true, false, false, false, true]
    ensures ToMsb(9, 7) == [false, false, false, true, false, false, true]
    ensures ToMsb(1, 7) == [false, false, false, false, false, false, true]
    ensures ToMsb(0, 7) == [false, false, false, false, false, false, false]
    ensures ToMsb(0, 5) == [false, false, false, false, false]
    ensures ToMsb(4, 5) == [false, false, true, false, false]
    ensures ToLsb(0, 0) == [] && ToLsb(1, 1) == [true]
  {
    LongSpelled();
    ShortSpelled();
  }

  lemma LongSpelled()
    ensures ToMsb(145, 8) == [true, false, false, true, false, false, false, true]
    ensures ToMsb(9, 7) == [false, false, false, true, false, false, true]
  {}

  lemma ShortSpelled()
    ensures ToMsb(1, 7) == [false, false, false, false, false, false, true]
    ensures ToMsb(0, 7) == [false, false, false, false, false, false, false]
    ensures ToMsb(0, 5) == [false, false, false, false, false]
    ensures ToMsb(4, 5) == [false, false, true, false, false]
  {}

  lemma LettersBlock(bits: seq<bool>)
    requires ValidLengths(FixedLL()) && ValidLengths(FixedD()) && Stream.BlockOk(Stream.Fixed(Letters()), [])
    requires Stream.AllEncodable(Letters(), FixedLL(), FixedD()) && |bits| >= 44
    requires bits[..44] == [true] + ([true, false]
                           + (Stream.TokensBits(Letters(), FixedLL(), FixedD()) + CodeBits(FixedLL(), 256)))
    ensures Stream.At(bits, 0, Stream.BlockBits(Stream.Fixed(Letters()), [], true))
  {
    hide FixedLL, FixedD, Stream.TokensBits, CodeBits;
  }

  // ---------------------------------------------------------------- codes of its own

  /** Thirteen bytes of a dynamic block for the letter a. Two literal codes of one bit, for the letter and the end, two
      distance codes of one bit; the lengths are written with two code length symbols of one bit, 1 and 18. */
  lemma OneLetter(s: DecompressSettings)
    requires !TooLarge(1, s.maxOutputSize)
    ensures Format.Inflate([5, 193, 129, 0, 0, 0, 0, 0, 144, 86, 255, 19, 16], s) == Some([97])
  {
    hide *;
    var data: seq<byte> := [5, 193, 129, 0, 0, 0, 0, 0, 144, 86, 255, 19, 16];
    var bits := BitsOf(data);
    TheseBytes();
    LetterBlockIs();
    LengthsComplete();
    ItemsStandForLengths();
    OneLetterExpands();
    OneLetterOk();
    HeaderSpelled(bits, data);
    PlacesSpelled(bits, data);
    ItemsSpelled(bits, data);
    OneLetterBlock(bits);
    Stream.ReadOneBlock(data, 0, LetterBlock(), [], true, s);
    WholeStream(data, s);
  }

  function LL(): seq<nat> {
    ((Repeat(0, 97) + [1]) + Repeat(0, 158)) + [1]
  }

  function CL(): seq<nat> {
    ([0, 1] + Repeat(0, 16)) + [1]
  }

  function Runs(): seq<Stream.Item> {
    [Stream.Item(18, 86), Stream.Item(1, 0), Stream.Item(18, 127), Stream.Item(18, 9), Stream.Item(1, 0),
     Stream.Item(1, 0), Stream.Item(1, 0)]
  }

  function LetterBlock(): Stream.Block {
    Stream.Dynamic([Tokens.Literal(97)], LL(), [1, 1], CL(), 18, Runs())
  }

  lemma LengthsComplete()
    ensures Stream.Complete(LL()) && Stream.Complete([1, 1]) && Stream.Complete(CL())
    ensures |LL()| == 257 && |CL()| == 19
    ensures forall k | 0 <= k < 257 :: LL()[k] == if k == 97 || k == 256 then 1 else 0
    ensures forall k | 0 <= k < 19 :: CL()[k] == if k == 1 || k == 18 then 1 else 0
    ensures Stream.ClOk(CL(), 18)
  {
    OneMoreLength([], 0, 97);
    OneMoreLength(Repeat(0, 97) + [1], 0, 158);
    assert [] + Repeat(0, 97) == Repeat(0, 97);
    OneMoreLength([0, 1], 0, 16);
    KraftPair(0, 1);
    KraftPair(1, 1);
    hide Kraft;
  }

  lemma KraftPair(a: nat, b: nat)
    requires a <= 1 && b <= 1
    ensures ValidLengths([a, b]) && Kraft([a, b]) == 0x4000 * (a + b) && Kraft([]) == 0
  {
    assert [a, b][..1] == [a] && [a][..0] == [];
    assert Pow2(14) == 0x4000 by { HalfOfAll(); }
    hide Pow2;
    assert Kraft([a]) == Kraft([]) + Weight(a);
  }

  lemma HalfOfAll()
    ensures Pow2(14) == 0x4000
  {
    Pow2Add(14, 1);
    Pow2Values();
  }

  /** Zeros and one more code of one bit. */
  lemma OneMoreLength(lens: seq<nat>, z: nat, n: nat)
    requires ValidLengths(lens) && z == 0
    ensures ValidLengths(lens + Repeat(0, n) + [1])
    ensures Kraft(lens + Repeat(0, n) + [1]) == Kraft(lens) + 0x4000
  {
    Stream.KraftOfRepeat(lens, 0, n);
    var all := lens + Repeat(0, n) + [1];
    assert all[..|all| - 1] == lens + Repeat(0, n);
    HalfOfAll();
    hide Pow2;
  }

  lemma RunStep(it: Stream.Item, rest: seq<Stream.Item>, acc: seq<nat>, acc': seq<nat>)
    requires Stream.ItemOk(it) && it.code != 16 && acc' == acc + LengthRun(it.code, it.extra, acc)
    requires Stream.ItemsOk(rest, acc')
    ensures Stream.ItemsOk([it] + rest, acc)
    ensures Stream.ItemsExpand([it] + rest, acc) == Stream.ItemsExpand(rest, acc')
  {
    hide Stream.ItemOk;
    assert ([it] + rest)[1..] == rest;
  }

  lemma NoMoreRuns(acc: seq<nat>)
    ensures Stream.ItemsOk([], acc) && Stream.ItemsExpand([], acc) == acc
  {}

  lemma RunsFit()
    ensures forall k | 0 <= k < |Runs()| :: Stream.ItemOk(Runs()[k]) && (Runs()[k].code == 1 || Runs()[k].code == 18)
  {
    assert Pow2(0) == 1 && Pow2(7) == 128 by { Pow2Values(); }
    hide Pow2;
  }

  lemma RunsListed()
    ensures var r := Runs();
            && |r| == 7 && r == [r[0]] + ([r[1]] + ([r[2]] + ([r[3]] + ([r[4]] + ([r[5]] + ([r[6]] + []))))))
            && r[0] == Stream.Item(18, 86) && r[1] == Stream.Item(1, 0) && r[2] == Stream.Item(18, 127)
            && r[3] == Stream.Item(18, 9) && r[4] == r[5] == r[6] == Stream.Item(1, 0)
  {}

  lemma ItemsStandForLengths()
    ensures Stream.ItemsOk(Runs(), []) && Stream.ItemsExpand(Runs(), []) == LL() + [1, 1]
  {
    hide *;
    var r := Runs();
    var a, b := Repeat(0, 97), Repeat(0, 97) + [1];
    var c, d := b + Repeat(0, 138), b + Repeat(0, 138) + Repeat(0, 20);
    RunsListed();
    RunsFit();
    RunIs([]); RunIs(a); RunIs(b); RunIs(c); RunIs(d); RunIs(d + [1]); RunIs(d + [1] + [1]);
    assert [] + Repeat(0, 97) == a;
    NoMoreRuns(d + [1] + [1] + [1]);
    RunStep(r[6], [], d + [1] + [1], d + [1] + [1] + [1]);
    RunStep(r[5], [r[6]] + [], d + [1], d + [1] + [1]);
    RunStep(r[4], [r[5]] + ([r[6]] + []), d, d + [1]);
    RunStep(r[3], [r[4]] + ([r[5]] + ([r[6]] + [])), c, d);
    RunStep(r[2], [r[3]] + ([r[4]] + ([r[5]] + ([r[6]] + []))), b, c);
    RunStep(r[1], [r[2]] + ([r[3]] + ([r[4]] + ([r[5]] + ([r[6]] + [])))), a, b);
    RunStep(r[0], [r[1]] + ([r[2]] + ([r[3]] + ([r[4]] + ([r[5]] + ([r[6]] + []))))), [], a);
    LengthsListed();
  }

  lemma LengthsListed()
    ensures Repeat(0, 97) + [1] + Repeat(0, 138) + Repeat(0, 20) + [1] + [1] + [1] == LL() + [1, 1]
  {
    assert Repeat(0, 138) + Repeat(0, 20) == Repeat(0, 158);
    hide Repeat;
    assert Repeat(0, 97) + [1] + Repeat(0, 138) + Repeat(0, 20)
        == Repeat(0, 97) + [1] + (Repeat(0, 138) + Repeat(0, 20));
  }

  lemma RunIs(acc: seq<nat>)
    ensures LengthRun(1, 0, acc) == [1] && LengthRun(18, 86, acc) == Repeat(0, 97)
    ensures LengthRun(18, 127, acc) == Repeat(0, 138) && LengthRun(18, 9, acc) == Repeat(0, 20)
  {}

  lemma OneLetterExpands()
    ensures Tokens.Expandable([Tokens.Literal(97)], []) && Tokens.Expand([Tokens.Literal(97)], []) == [97]
  {
    assert [Tokens.Literal(97)][1..] == [] && [] + [97 as byte] == [97];
  }

  lemma OneLetterOk()
    requires Stream.Complete(LL()) && Stream.Complete([1, 1]) && Stream.Complete(CL()) && Stream.ClOk(CL(), 18)
    requires |LL()| == 257 && |CL()| == 19 && LL()[97] == LL()[256] == 1 && CL()[1] == CL()[18] == 1
    requires Stream.ItemsOk(Runs(), []) && Stream.ItemsExpand(Runs(), []) == LL() + [1, 1]
    requires Tokens.Expandable([Tokens.Literal(97)], [])
    ensures Stream.BlockOk(LetterBlock(), [])
  {
    RunsFit();
    hide LL, CL, Runs, Stream.Complete, Stream.ItemsOk, Stream.ItemsExpand, Tokens.Expandable, Stream.ClOk;
  }

  /** With two codes of one bit the first symbol has 0 and the second 1. */
  lemma OneBitCodes(lens: seq<nat>, a: nat, b: nat)
    requires Stream.Complete(lens) && a < b < |lens|
    requires forall k | 0 <= k < |lens| :: lens[k] == if k == a || k == b then 1 else 0
    ensures ValidLengths(lens) && CodeBits(lens, a) == [false] && CodeBits(lens, b) == [true]
  {
    FirstCode(lens, a);
    CodeOrder(lens, a, b);
    CodeIs(lens, a);
    CodeIs(lens, b);
    hide Code, Kraft, CodeBits;
    assert ToMsb(0, 1) == [false] && ToMsb(1, 1) == [true];
  }

  lemma AtJoin(bits: seq<bool>, p: nat, s: seq<bool>, t: seq<bool>)
    requires Stream.At(bits, p, s) && Stream.At(bits, p + |s|, t)
    ensures Stream.At(bits, p, s + t)
  {
    assert bits[p..p + |s + t|] == bits[p..p + |s|] + bits[p + |s|..p + |s| + |t|];
  }

  predicate IsLetterData(data: seq<byte>) {
    data == [5, 193, 129, 0, 0, 0, 0, 0, 144, 86, 255, 19, 16]
  }

  lemma TheseBytes()
    ensures IsLetterData([5, 193, 129, 0, 0, 0, 0, 0, 144, 86, 255, 19, 16])
  {}

  lemma LetterBlockIs()
    ensures LetterBlock() == Stream.Dynamic([Tokens.Literal(97)], LL(), [1, 1], CL(), 18, Runs())
  {}

  lemma HeaderSpelled(bits: seq<bool>, data: seq<byte>)
    requires IsLetterData(data) && bits == BitsOf(data)
    ensures Stream.At(bits, 0, [true]) && Stream.At(bits, 1, [false, true])
    ensures Stream.At(bits, 3, ToLsb(0, 5)) && Stream.At(bits, 8, ToLsb(1, 5)) && Stream.At(bits, 13, ToLsb(14, 4))
  {
    hide BitsOf, ToLsb;
    LengthOfBits(data);
    ByteBits(data, 0); ByteBits(data, 1); ByteBits(data, 2);
    var head := bits[0..8] + bits[8..16] + bits[16..24];
    assert bits[..24] == head;
    ByteIs5(); ByteIs193(); ByteIs129();
    CountsSpelled();
    assert bits[0..1] == head[0..1] && bits[1..3] == head[1..3];
    assert bits[3..8] == head[3..8] && bits[8..13] == head[8..13] && bits[13..17] == head[13..17];
  }

  lemma CountsSpelled()
    ensures ToLsb(0, 5) == [false, false, false, false, false]
    ensures ToLsb(1, 5) == [true, false, false, false, false] && ToLsb(14, 4) == [false, true, true, true]
  {}

  lemma ByteIs5()
    ensures ToLsb(5, 8) == [true, false, true, false, false, false, false, false]
  {}

  lemma ByteIs193()
    ensures ToLsb(193, 8) == [true, false, false, false, false, false, true, true]
  {}

  lemma ByteIs129()
    ensures ToLsb(129, 8) == [true, false, false, false, false, false, false, true]
  {}

  lemma ByteIs144()
    ensures ToLsb(144, 8) == [false, false, false, false, true, false, false, true]
  {}

  lemma ByteIs86()
    ensures ToLsb(86, 8) == [false, true, true, false, true, false, true, false]
  {}

  lemma ByteIs255()
    ensures ToLsb(255, 8) == [true, true, true, true, true, true, true, true]
  {}

  lemma ByteIs19()
    ensures ToLsb(19, 8) == [true, true, false, false, true, false, false, false]
  {}

  lemma ByteIs16()
    ensures ToLsb(16, 8) == [false, false, false, false, true, false, false, false]
  {}

  /** Two of the eighteen places hold a one, the third and the last. */
  lemma PlacesSpelled(bits: seq<bool>, data: seq<byte>)
    requires IsLetterData(data) && bits == BitsOf(data) && |CL()| == 19
    requires forall k | 0 <= k < 19 :: CL()[k] == if k == 1 || k == 18 then 1 else 0
    ensures Stream.At(bits, 17, Stream.ClBits(CL(), 18))
  {
    LengthOfBits(data);
    hide BitsOf, ToLsb, CL, Stream.ClBits;
    var c := Stream.ClBits(CL(), 18);
    forall i | 0 <= i < 54 ensures bits[17 + i] == c[i] {
      ClBitAt(CL(), 18, i);
      MiddleBit(data, 17 + i);
    }
    assert bits[17..17 + 54] == c;
  }

  lemma MiddleBit(data: seq<byte>, j: nat)
    requires IsLetterData(data) && 17 <= j < 71
    ensures |BitsOf(data)| == 104 && BitsOf(data)[j] == (j == 23 || j == 68)
  {
    hide BitsOf, ToLsb;
    LengthOfBits(data);
    var q, r := j / 8, j % 8;
    ByteBits(data, q);
    assert BitsOf(data)[j] == BitsOf(data)[8 * q..8 * q + 8][r] == ToLsb(data[q], 8)[r];
    assert data[q] == if q == 2 then 129 else if q == 8 then 144 else 0;
    ByteIs129(); ByteIs144();
    SixthByteSpelled();
    assert ToLsb(129, 8)[r] == (r == 0 || r == 7) && ToLsb(144, 8)[r] == (r == 4 || r == 7) && !ToLsb(0, 8)[r];
  }

  lemma {:induction false} ClBitAt(cl: seq<nat>, k: nat, i: nat)
    requires |cl| == 19 && k <= 18 && i < 3 * k
    requires forall j | 0 <= j < 19 :: cl[j] == if j == 1 || j == 18 then 1 else 0
    ensures Stream.ClBits(cl, k)[i] == (i == 6 || i == 51)
    decreases k
  {
    hide ToLsb;
    assert ToLsb(0, 3) == [false, false, false] && ToLsb(1, 3) == [true, false, false] by { ThreeBitsSpelled(); }
    if i < 3 * (k - 1) { ClBitAt(cl, k - 1, i); }
  }

  lemma ThreeBitsSpelled()
    ensures ToLsb(0, 3) == [false, false, false] && ToLsb(1, 3) == [true, false, false]
  {}

  lemma ItemBitsHead(it: Stream.Item, rest: seq<Stream.Item>, cl: seq<nat>)
    requires ValidLengths(cl) && it.code < |cl| && cl[it.code] > 0 && Stream.ItemsEncodable(rest, cl)
    ensures Stream.ItemsEncodable([it] + rest, cl)
    ensures Stream.ItemsBits([it] + rest, cl) == Stream.ItemBits(it, cl) + Stream.ItemsBits(rest, cl)
    ensures Stream.ItemsBits([], cl) == []
  {
    hide Stream.ItemBits;
    assert ([it] + rest)[1..] == rest;
  }

  lemma ItemIs(it: Stream.Item, cl: seq<nat>)
    requires ValidLengths(cl) && it.code < |cl|
    ensures Stream.ItemBits(it, cl) == CodeBits(cl, it.code) + ToLsb(it.extra, ExtraBits(it.code))
  {
    hide CodeBits, ToLsb;
  }

  function RunBits(): seq<bool> {
    ([true] + ToLsb(86, 7)) + (([false] + ToLsb(0, 0)) + (([true] + ToLsb(127, 7)) + (([true] + ToLsb(9, 7))
      + (([false] + ToLsb(0, 0)) + (([false] + ToLsb(0, 0)) + (([false] + ToLsb(0, 0)) + []))))))
  }

  lemma RunBitsAre()
    requires ValidLengths(CL()) && |CL()| == 19 && CL()[1] == CL()[18] == 1
    requires CodeBits(CL(), 1) == [false] && CodeBits(CL(), 18) == [true]
    ensures Stream.ItemsEncodable(Runs(), CL()) && Stream.ItemsBits(Runs(), CL()) == RunBits()
  {
    hide *;
    var r, cl := Runs(), CL();
    RunsListed();
    NoItems(cl);
    ItemBitsHead(r[6], [], cl);
    ItemBitsHead(r[5], [r[6]] + [], cl);
    ItemBitsHead(r[4], [r[5]] + ([r[6]] + []), cl);
    ItemBitsHead(r[3], [r[4]] + ([r[5]] + ([r[6]] + [])), cl);
    ItemBitsHead(r[2], [r[3]] + ([r[4]] + ([r[5]] + ([r[6]] + []))), cl);
    ItemBitsHead(r[1], [r[2]] + ([r[3]] + ([r[4]] + ([r[5]] + ([r[6]] + [])))), cl);
    ItemBitsHead(r[0], [r[1]] + ([r[2]] + ([r[3]] + ([r[4]] + ([r[5]] + ([r[6]] + []))))), cl);
    ItemIs(r[0], cl); ItemIs(r[1], cl); ItemIs(r[2], cl); ItemIs(r[3], cl);
    ExtraWidths();
    RunBitsListed();
  }

  lemma NoItems(cl: seq<nat>)
    ensures Stream.ItemsEncodable([], cl)
  {}

  lemma ExtraWidths()
    ensures ExtraBits(1) == 0 && ExtraBits(18) == 7
  {}

  lemma RunBitsListed()
    ensures RunBits() == ([true] + ToLsb(86, 7)) + (([false] + ToLsb(0, 0)) + (([true] + ToLsb(127, 7))
                         + (([true] + ToLsb(9, 7)) + (([false] + ToLsb(0, 0)) + (([false] + ToLsb(0, 0))
                         + (([false] + ToLsb(0, 0)) + []))))))
  {}

  /** The run-length symbols, the letter and the end code. */
  lemma ItemsSpelled(bits: seq<bool>, data: seq<byte>)
    requires IsLetterData(data) && bits == BitsOf(data)
    ensures Stream.At(bits, 71, RunBits()) && |RunBits()| == 28
    ensures Stream.At(bits, 99, [false]) && Stream.At(bits, 100, [true])
  {
    hide BitsOf, ToLsb, RunBits;
    LengthOfBits(data);
    ByteBits(data, 8); ByteBits(data, 9); ByteBits(data, 10); ByteBits(data, 11); ByteBits(data, 12);
    var tail := bits[64..72] + bits[72..80] + bits[80..88] + bits[88..96] + bits[96..104];
    assert bits[64..104] == tail;
    ByteIs144(); ByteIs86(); ByteIs255(); ByteIs19(); ByteIs16();
    RunBitsSpelled();
    Slice(bits, 64, 104, 7, 35);
    Slice(bits, 64, 104, 35, 36);
    Slice(bits, 64, 104, 36, 37);
    assert tail[7..35] == RunBits();
    assert tail[35..36] == [false] && tail[36..37] == [true];
  }

  lemma Slice(bits: seq<bool>, a: nat, b: nat, i: nat, j: nat)
    requires i <= j && a + j <= b <= |bits|
    ensures bits[a..b][i..j] == bits[a + i..a + j]
  {
    var s, t := bits[a..b][i..j], bits[a + i..a + j];
    assert |s| == |t| && forall k | 0 <= k < |s| :: s[k] == t[k];
  }

  lemma RunBitsSpelled()
    ensures RunBits()
         == [true, false, true, true, false, true, false, true,
             false, true, true, true, true, true, true, true, true,
             true, true, false, false, true, false, false, false,
             false, false, false]
  {
    RunBitsListed();
    hide *;
    SevenBits86(); SevenBits127(); SevenBits9();
    NoExtraBits();
  }

  lemma NoExtraBits()
    ensures ToLsb(0, 0) == []
  {}

  lemma SevenBits86()
    ensures ToLsb(86, 7) == [false, true, true, false, true, false, true]
  {}

  lemma SevenBits127()
    ensures ToLsb(127, 7) == [true, true, true, true, true, true, true]
  {}

  lemma SevenBits9()
    ensures ToLsb(9, 7) == [true, false, false, true, false, false, false]
  {}

  lemma OneLetterBlock(bits: seq<bool>)
    requires Stream.BlockOk(LetterBlock(), []) && Stream.Complete(LL()) && Stream.Complete(CL())
    requires |LL()| == 257 && forall k | 0 <= k < 257 :: LL()[k] == if k == 97 || k == 256 then 1 else 0
    requires |CL()| == 19 && forall k | 0 <= k < 19 :: CL()[k] == if k == 1 || k == 18 then 1 else 0
    requires Stream.At(bits, 0, [true]) && Stream.At(bits, 1, [false, true])
    requires Stream.At(bits, 3, ToLsb(0, 5)) && Stream.At(bits, 8, ToLsb(1, 5)) && Stream.At(bits, 13, ToLsb(14, 4))
    requires Stream.At(bits, 17, Stream.ClBits(CL(), 18)) && Stream.At(bits, 71, RunBits()) && |RunBits()| == 28
    requires Stream.At(bits, 99, [false]) && Stream.At(bits, 100, [true])
    ensures Stream.At(bits, 0, Stream.BlockBits(LetterBlock(), [], true))
  {
    hide *;
    OneBitCodes(LL(), 97, 256);
    OneBitCodes(CL(), 1, 18);
    RunBitsAre();
    var cl, items := Stream.ClBits(CL(), 18), RunBits();
    AtJoin(bits, 99, [false], [true]);
    AtJoin(bits, 17, cl, items);
    AtJoin(bits, 13, ToLsb(14, 4), cl + items);
    AtJoin(bits, 8, ToLsb(1, 5), ToLsb(14, 4) + (cl + items));
    var trees := ToLsb(0, 5) + (ToLsb(1, 5) + (ToLsb(14, 4) + (cl + items)));
    AtJoin(bits, 3, ToLsb(0, 5), ToLsb(1, 5) + (ToLsb(14, 4) + (cl + items)));
    AtJoin(bits, 3, trees, [false] + [true]);
    AtJoin(bits, 1, [false, true], trees + ([false] + [true]));
    AtJoin(bits, 0, [true], [false, true] + (trees + ([false] + [true])));
    LetterBlockBits();
  }

  lemma LetterBlockBits()
    requires Stream.BlockOk(LetterBlock(), []) && |LL()| == 257 && |CL()| == 19
    requires ValidLengths(LL()) && ValidLengths(CL()) && Stream.ItemsEncodable(Runs(), CL())
    requires CodeBits(LL(), 97) == [false] && CodeBits(LL(), 256) == [true]
    ensures Stream.BlockBits(LetterBlock(), [], true)
         == [true] + ([false, true] + ((ToLsb(0, 5) + (ToLsb(1, 5) + (ToLsb(14, 4)
              + (Stream.ClBits(CL(), 18) + Stream.ItemsBits(Runs(), CL())))))
              + ([false] + [true])))
  {
    hide *;
    LetterBlockIs();
    var b := LetterBlock();
    BlockShape(b);
    Stream.DynamicShape(b, []);
    TreesShape(b);
    DynamicTail(b);
    HeadBits(Tokens.Literal(97), [], b.ll, b.d) by {
      LetterEncodable(b);
      NoneEncodable(b.ll, b.d);
    }
    LiteralBits(97, b.ll, b.d) by { LetterEncodable(b); }
    assert [Tokens.Literal(97)] + [] == [Tokens.Literal(97)] && [false] + [] == [false];
  }

  lemma BlockShape(b: Stream.Block)
    requires b.Dynamic? && Stream.BlockOk(b, [])
    ensures Stream.BlockBits(b, [], true) == [true] + ([false, true] + Stream.BodyBits(b, []))
  {
    hide Stream.BodyBits, Stream.BlockOk;
  }

  lemma TreesShape(b: Stream.Block)
    requires b.Dynamic? && Stream.TreesOk(b)
    ensures |b.cl| == 19 && b.hclen <= 19 && ValidLengths(b.cl) && Stream.ItemsEncodable(b.items, b.cl)
    ensures 257 <= |b.ll| && 1 <= |b.d| && 4 <= b.hclen
    ensures Stream.TreesBits(b)
         == ToLsb(|b.ll| - 257, 5) + (ToLsb(|b.d| - 1, 5) + (ToLsb(b.hclen - 4, 4)
            + (Stream.ClBits(b.cl, b.hclen) + Stream.ItemsBits(b.items, b.cl))))
  {
    hide ToLsb, Stream.ClBits, Stream.ItemsBits, Kraft;
  }

  lemma DynamicTail(b: Stream.Block)
    requires b.Dynamic? && Stream.TreesOk(b) && Stream.AllEncodable(b.tokens, b.ll, b.d)
    ensures ValidLengths(b.ll) && ValidLengths(b.d) && 256 < |b.ll|
    ensures Stream.DynamicTokensBits(b) == Stream.TokensBits(b.tokens, b.ll, b.d) + CodeBits(b.ll, 256)
  {
    hide CodeBits, Stream.TokensBits, Kraft;
  }

  lemma LetterEncodable(b: Stream.Block)
    requires b.Dynamic? && b.tokens == [Tokens.Literal(97)] && Stream.AllEncodable(b.tokens, b.ll, b.d)
    ensures Stream.Encodable(Tokens.Literal(97), b.ll, b.d)
  {
    assert b.tokens[0] == Tokens.Literal(97);
  }

  lemma LiteralBits(v: byte, ll: seq<nat>, d: seq<nat>)
    requires ValidLengths(ll) && ValidLengths(d) && Stream.Encodable(Tokens.Literal(v), ll, d)
    ensures v < |ll| && Stream.TokenBits(Tokens.Literal(v), ll, d) == CodeBits(ll, v)
  {
    hide CodeBits;
  }
}
