/** The decompressor: methods over the bit reader, each proved against the format read by definition. */
module Inflate {
  import opened Wrappers
  import opened Bits
  import opened BitIO
  import opened Huffman
  import opened HuffmanTrees
  import opened Tokens
  import opened Format
  import Stream
  import HuffmanTable

  /** `ucvector`. */
  class ByteVector {
    var data: seq<byte>

    constructor ()
      ensures data == []
    {
      data := [];
    }

    /** Grows by `n` bytes; their contents are overwritten by the caller. */
    method Grow(n: nat)
      modifies this
      ensures |data| == |old(data)| + n && data[..|old(data)|] == old(data)
    {
      data := data + seq(n, _ => 0);
    }
  }

  // ---------------------------------------------------------------- fixed trees

  method GenerateFixedLitLenTree(tree: HuffmanTree) returns (error: nat)
    modifies tree
    ensures error == 0 && tree.Ready() && tree.lengths[..] == FixedLL()
    ensures fresh(tree.lengths) && fresh(tree.codes) && fresh(tree.tableLen) && fresh(tree.tableValue)
  {
    hide FixedLL, Kraft;
    var bitlen := new nat[288];
    for i := 0 to 144
      modifies bitlen
      invariant forall k | 0 <= k < i :: bitlen[k] == 8
    {
      bitlen[i] := 8;
    }
    for i := 144 to 256
      modifies bitlen
      invariant forall k | 0 <= k < 144 :: bitlen[k] == 8
      invariant forall k | 144 <= k < i :: bitlen[k] == 9
    {
      bitlen[i] := 9;
    }
    for i := 256 to 280
      modifies bitlen
      invariant forall k | 0 <= k < 144 :: bitlen[k] == 8
      invariant forall k | 144 <= k < 256 :: bitlen[k] == 9
      invariant forall k | 256 <= k < i :: bitlen[k] == 7
    {
      bitlen[i] := 7;
    }
    for i := 280 to 288
      modifies bitlen
      invariant forall k | 0 <= k < 144 :: bitlen[k] == 8
      invariant forall k | 144 <= k < 256 :: bitlen[k] == 9
      invariant forall k | 256 <= k < 280 :: bitlen[k] == 7
      invariant forall k | 280 <= k < i :: bitlen[k] == 8
    {
      bitlen[i] := 8;
    }
    FixedLLAt();
    assert bitlen[..288] == FixedLL();
    FixedAcceptable();
    error := tree.MakeFromLengths(bitlen, 288, 15);
  }

  lemma FixedLLAt()
    ensures forall i | 0 <= i < 288 ::
              FixedLL()[i] == if i < 144 then 8 else if i < 256 then 9 else if i < 280 then 7 else 8
  {}

  method GenerateFixedDistanceTree(tree: HuffmanTree) returns (error: nat)
    modifies tree
    ensures error == 0 && tree.Ready() && tree.lengths[..] == FixedD()
    ensures fresh(tree.lengths) && fresh(tree.codes) && fresh(tree.tableLen) && fresh(tree.tableValue)
  {
    hide Kraft;
    var bitlen := new nat[32];
    for i := 0 to 32
      modifies bitlen
      invariant forall k | 0 <= k < i :: bitlen[k] == 5
    {
      bitlen[i] := 5;
    }
    assert bitlen[..32] == FixedD();
    FixedAcceptable();
    error := tree.MakeFromLengths(bitlen, 32, 15);
  }

  lemma FixedAcceptable()
    ensures ValidLengths(FixedLL()) && ValidLengths(FixedD()) && Acceptable(FixedLL()) && Acceptable(FixedD())
  {
    Stream.FixedComplete();
    Stream.CompleteAcceptable(FixedLL());
    Stream.CompleteAcceptable(FixedD());
  }

  method GetTreeInflateFixed(treeLL: HuffmanTree, treeD: HuffmanTree) returns (error: nat)
    requires treeLL != treeD
    modifies treeLL, treeD
    ensures error == 0 && treeLL.Ready() && treeD.Ready()
    ensures treeLL.lengths[..] == FixedLL() && treeD.lengths[..] == FixedD()
  {
    error := GenerateFixedLitLenTree(treeLL);
    if error != 0 { return; }
    error := GenerateFixedDistanceTree(treeD);
  }

  // ---------------------------------------------------------------- copies

  lemma {:induction false} CopyBytesAt(out: seq<byte>, n: nat, d: nat, k: nat)
    requires 0 < d <= |out| <= k < |out| + n
    ensures CopyBytes(out, n, d)[k] == CopyBytes(out, n, d)[k - d]
    decreases n
  {
    var next := out + [out[|out| - d]];
    var r := CopyBytes(next, n - 1, d);
    if k > |out| {
      CopyBytesAt(next, n - 1, d, k);
    } else {
      assert r[k] == r[..|next|][k] && r[k - d] == r[..|next|][k - d];
    }
  }

  /** A copy is determined by repeating what stands `d` before. */
  lemma CopyBytesUnique(out: seq<byte>, n: nat, d: nat, r: seq<byte>)
    requires 0 < d <= |out| && |r| == |out| + n && r[..|out|] == out
    requires forall k | |out| <= k < |r| :: r[k] == r[k - d]
    ensures r == CopyBytes(out, n, d)
  {
    var s := CopyBytes(out, n, d);
    CopyPrefix(out, n, d, r, |r|);
    assert r[..|r|] == r && s[..|r|] == s;
  }

  lemma {:induction false} CopyPrefix(out: seq<byte>, n: nat, d: nat, r: seq<byte>, k: nat)
    requires 0 < d <= |out| <= k <= |r| && |r| == |out| + n && r[..|out|] == out
    requires forall k | |out| <= k < |r| :: r[k] == r[k - d]
    ensures r[..k] == CopyBytes(out, n, d)[..k]
    decreases k
  {
    var s := CopyBytes(out, n, d);
    if k > |out| {
      CopyPrefix(out, n, d, r, k - 1);
      CopyBytesAt(out, n, d, k - 1);
      assert r[k - 1 - d] == r[..k - 1][k - 1 - d] == s[..k - 1][k - 1 - d];
      assert r[..k] == r[..k - 1] + [r[k - 1]] && s[..k] == s[..k - 1] + [s[k - 1]];
    }
  }

  lemma FirstPart(out: seq<byte>, d: nat, r: seq<byte>)
    requires d <= |out| && |r| >= |out| + d && r[..|out| + d] == out + out[|out| - d..]
    ensures forall k | |out| <= k < |out| + d :: r[k] == r[k - d]
  {
    forall k | |out| <= k < |out| + d ensures r[k] == r[k - d] {
      assert r[k] == r[..|out| + d][k] == out[k - d];
      assert r[k - d] == r[..|out| + d][k - d] == out[k - d];
    }
  }

  /** Repeats `length` bytes from `distance` back; the two may overlap. */
  method CopyBack(out: ByteVector, length: nat, distance: nat)
    requires 0 < distance <= |out.data|
    modifies out
    ensures out.data == CopyBytes(old(out.data), length, distance)
  {
    ghost var was := out.data;
    var start := |out.data|;
    var backward := start - distance;
    out.Grow(length);
    if distance < length {
      out.data := out.data[..start] + out.data[backward..start] + out.data[start + distance..];
      FirstPart(was, distance, out.data);
      start := start + distance;
      for forward := distance to length
        invariant |out.data| == |was| + length && out.data[..|was|] == was
        invariant start == |was| + forward && backward == start - 2 * distance
        invariant forall k | |was| <= k < start :: out.data[k] == out.data[k - distance]
      {
        out.data := out.data[start := out.data[backward]];
        start := start + 1;
        backward := backward + 1;
      }
    } else {
      out.data := out.data[..start] + out.data[backward..backward + length];
    }
    CopyBytesUnique(was, length, distance, out.data);
  }

  /** A table value and the extra bits that are added to it. */
  method AddExtra(reader: BitReader, start: nat, numExtra: nat) returns (value: nat)
    requires reader.Valid() && numExtra <= reader.avail
    modifies reader
    ensures reader.Valid() && reader.bp == old(reader.bp) + numExtra && reader.avail == old(reader.avail) - numExtra
    ensures value == start + Field(reader.Stream(), old(reader.bp), numExtra)
  {
    hide BitReader.Valid, Low, BitsOf, Window, Lsb;
    value := start;
    if numExtra != 0 {
      var extra := reader.ReadBits(numExtra);
      value := value + extra;
    } else {
      FieldZero(reader.Stream(), reader.bp);
    }
  }

  method ReadLength(reader: BitReader, l: nat) returns (length: nat)
    requires reader.Valid() && l < 29
    modifies reader
    ensures reader.Valid() && reader.bp == old(reader.bp) + LengthExtra(l)
    ensures length == LengthBase(l) + Field(reader.Stream(), old(reader.bp), LengthExtra(l))
  {
    hide BitReader.Valid, Low, BitsOf, Window, Lsb, LengthBase, LengthExtra;
    length := LengthBase(l);
    if LengthExtra(l) != 0 {
      reader.EnsureBits25();
      var extra := reader.ReadBits(LengthExtra(l));
      length := length + extra;
    } else {
      FieldZero(reader.Stream(), reader.bp);
    }
  }

  /** Which error a length/distance pair causes, if any, once its length symbol has been read. */
  ghost function CopyError(s: nat, bits: seq<bool>, p: nat, d: seq<nat>, out: seq<byte>): nat
    requires ValidLengths(d) && 257 <= s <= 285
  {
    match Sym(d, bits, p + LengthExtra(s - 257))
    case None => 16
    case Some(c) =>
      if c > 31 then 16 else if c > 29 then 18 else if ReadCopy(s, bits, p, d, out).None? then 52 else 0
  }

  /** The rest of a length/distance pair, after its length symbol. */
  method InflateCopy(out: ByteVector, reader: BitReader, treeD: HuffmanTree, codeLL: nat) returns (error: nat)
    requires reader.Valid() && treeD.Ready() && 257 <= codeLL <= 285
    modifies out, reader
    ensures reader.Valid()
    ensures error == CopyError(codeLL, reader.Stream(), old(reader.bp), treeD.lengths[..], old(out.data))
    ensures error == 0 ==>
              ReadCopy(codeLL, reader.Stream(), old(reader.bp), treeD.lengths[..], old(out.data))
                  == Some(Reading(reader.bp, out.data))
  {
    hide *;
    TreeIsValid(treeD);
    InvalidIsLarge();
    ghost var bits, d, p, before := reader.Stream(), treeD.lengths[..], reader.bp, out.data;
    var length := ReadLength(reader, codeLL - 257);
    reader.EnsureBits32();
    var codeD := treeD.DecodeSymbol(reader);
    SymIs(d, bits, p + LengthExtra(codeLL - 257));
    if codeD > 29 {
      NoCopy(codeLL, bits, p, d, before);
      return if codeD <= 31 then 18 else 16;
    }
    ghost var p2 := reader.bp;
    var distance := AddExtra(reader, DistanceBase(codeD), DistanceExtra(codeD));
    CopyIs(codeLL, bits, p, d, before, p2, codeD, length, distance);
    if distance > |out.data| { return 52; }
    CopyBack(out, length, distance);
    error := 0;
  }

  lemma CopyErrorExact(s: nat, bits: seq<bool>, p: nat, d: seq<nat>, out: seq<byte>)
    requires ValidLengths(d) && 257 <= s <= 285
    ensures CopyError(s, bits, p, d, out) == 0 <==> ReadCopy(s, bits, p, d, out).Some?
  {
    hide Sym, LengthExtra;
  }

  lemma TreeIsValid(tree: HuffmanTree)
    requires tree.Ready()
    ensures ValidLengths(tree.lengths[..])
  {}

  lemma InvalidIsLarge()
    ensures HuffmanTable.INVALIDSYMBOL > 285
  {}

  lemma SymIs(lens: seq<nat>, bits: seq<bool>, p: nat)
    requires ValidLengths(lens)
    ensures Sym(lens, bits, p) == Decode(lens, Lsb(Window(bits, p, 15)))
  {}

  lemma NoCopy(s: nat, bits: seq<bool>, p: nat, d: seq<nat>, out: seq<byte>)
    requires ValidLengths(d) && 257 <= s <= 285
    requires Sym(d, bits, p + LengthExtra(s - 257)).Some? ==> Sym(d, bits, p + LengthExtra(s - 257)).value > 29
    ensures CopyError(s, bits, p, d, out)
         == match Sym(d, bits, p + LengthExtra(s - 257)) case None => 16 case Some(c) => if c > 31 then 16 else 18
  {
    hide Sym, LengthExtra;
  }

  lemma CopyIs(s: nat, bits: seq<bool>, p: nat, d: seq<nat>, out: seq<byte>, p2: nat, c: nat, length: nat,
               distance: nat)
    requires ValidLengths(d) && 257 <= s <= 285 && Sym(d, bits, p + LengthExtra(s - 257)) == Some(c) && c <= 29
    requires p2 == p + LengthExtra(s - 257) + d[c]
    requires length == LengthBase(s - 257) + Field(bits, p, LengthExtra(s - 257))
    requires distance == DistanceBase(c) + Field(bits, p2, DistanceExtra(c))
    ensures distance > 0
    ensures ReadCopy(s, bits, p, d, out)
         == if distance > |out| then None else Some(Reading(p2 + DistanceExtra(c), CopyBytes(out, length, distance)))
    ensures CopyError(s, bits, p, d, out) == if distance > |out| then 52 else 0
  {
    hide Sym, Field, CopyBytes, LengthBase, LengthExtra, DistanceBase, DistanceExtra;
  }

  lemma FieldZero(bits: seq<bool>, p: nat)
    ensures Field(bits, p, 0) == 0
  {}

  // ---------------------------------------------------------------- the trees of a dynamic block

  /** The lengths read so far, laid out over the two alphabets. */
  ghost predicate Laid(ll: seq<nat>, d: seq<nat>, acc: seq<nat>, hlit: nat) {
    && |ll| == 288 && |d| == 32
    && (forall k | 0 <= k < 288 :: ll[k] == if k < hlit && k < |acc| then acc[k] else 0)
    && (forall k | 0 <= k < 32 :: d[k] == if hlit + k < |acc| then acc[hlit + k] else 0)
  }

  /** Appends `count` lengths `value`; fails when they would exceed `total`. */
  method RepeatLength(bitlenLL: array<nat>, bitlenD: array<nat>, i: nat, hlit: nat, total: nat, value: nat, count: nat,
                      failure: nat, ghost acc: seq<nat>)
      returns (error: nat, i': nat)
    requires bitlenLL != bitlenD && Laid(bitlenLL[..], bitlenD[..], acc, hlit)
    requires i == |acc| <= total <= hlit + 32 && hlit <= 288 && failure != 0
    modifies bitlenLL, bitlenD
    ensures error == 0 <==> i + count <= total
    ensures error == 0 ==> i' == i + count && Laid(bitlenLL[..], bitlenD[..], acc + Repeat(value, count), hlit)
  {
    i' := i;
    for n := 0 to count
      invariant i' == i + n <= total && Laid(bitlenLL[..], bitlenD[..], acc + Repeat(value, n), hlit)
    {
      if i' >= total { return failure, i'; }
      if i' < hlit {
        bitlenLL[i'] := value;
      } else {
        bitlenD[i' - hlit] := value;
      }
      i' := i' + 1;
    }
    error := 0;
  }

  method ReadCodeLengths(reader: BitReader, treeCl: HuffmanTree, bitlenLL: array<nat>, bitlenD: array<nat>, hlit: nat,
                         hdist: nat)
      returns (error: nat)
    requires reader.Valid() && treeCl.Ready() && treeCl.numcodes == 19 && reader.bp <= |reader.Stream()|
    requires bitlenLL != bitlenD && Laid(bitlenLL[..], bitlenD[..], [], hlit) && hlit <= 288 && hdist <= 32
    requires bitlenLL != treeCl.lengths && bitlenLL != treeCl.codes && bitlenLL != treeCl.tableLen
    requires bitlenLL != treeCl.tableValue
    requires bitlenD != treeCl.lengths && bitlenD != treeCl.codes && bitlenD != treeCl.tableLen
    requires bitlenD != treeCl.tableValue
    modifies reader, bitlenLL, bitlenD
    ensures reader.Valid()
    ensures match ReadLengths(reader.Stream(), old(reader.bp), treeCl.lengths[..], hlit + hdist, [])
            case None => error != 0
            case Some(r) => error == 0 && reader.bp == r.end && Laid(bitlenLL[..], bitlenD[..], r.value, hlit)
  {
    hide Low, Decode, BitsOf, Window, Lsb, HuffmanTable.TableOk, Code, Laid, LengthRun, ReadLengths, Pow2;
    ghost var bits, cl, acc := reader.Stream(), treeCl.lengths[..], [];
    ghost var all := ReadLengths(bits, reader.bp, cl, hlit + hdist, []);
    var i := 0;
    while i < hlit + hdist
      invariant reader.Valid() && treeCl.Ready() && treeCl.lengths[..] == cl && reader.bp <= |bits|
      invariant i == |acc| <= hlit + hdist && Laid(bitlenLL[..], bitlenD[..], acc, hlit)
      invariant ReadLengths(bits, reader.bp, cl, hlit + hdist, acc) == all
      decreases hlit + hdist - i
    {
      reader.EnsureBits25();
      ghost var p := reader.bp;
      var code := treeCl.DecodeSymbol(reader);
      var value, length, extra := 0, 1, 0;
      if code > 18 || (code == 16 && i == 0) { LengthsBad(bits, p, cl, hlit + hdist, acc); }
      if code <= 15 {
        value := code;
      } else if code == 16 {
        if i == 0 { return 54; }
        extra := reader.ReadBits(2);
        length := 3 + extra;
        value := PreviousLength(bitlenLL, bitlenD, i, hlit, acc);
      } else if code == 17 {
        extra := reader.ReadBits(3);
        length := 3 + extra;
      } else if code == 18 {
        extra := reader.ReadBits(7);
        length := 11 + extra;
      } else {
        return 16;
      }
      ghost var run := Repeat(value, length);
      FieldZero(bits, reader.bp);
      RunIs(code, extra, acc, value, length);
      error, i := RepeatLength(bitlenLL, bitlenD, i, hlit, hlit + hdist, value, length, if code == 16 then 13
          else if code == 17 then 14 else 15, acc);
      LengthsStep(bits, p, cl, hlit + hdist, acc, code, run, reader.bp);
      if error != 0 { return; }
      if reader.bp > reader.bitsize { return 50; }
      acc := acc + run;
    }
    Stream.ReadNothing(bits, reader.bp, cl, acc);
    error := 0;
  }

  /** The length before position `i`, wherever it was stored. */
  method PreviousLength(bitlenLL: array<nat>, bitlenD: array<nat>, i: nat, hlit: nat, ghost acc: seq<nat>)
    returns (value: nat)
    requires Laid(bitlenLL[..], bitlenD[..], acc, hlit) && 0 < i == |acc| <= hlit + 32 && hlit <= 288
    ensures value == acc[i - 1]
  {
    value := if i < hlit + 1 then bitlenLL[i - 1] else bitlenD[i - hlit - 1];
  }

  lemma RunIs(s: nat, extra: nat, acc: seq<nat>, value: nat, length: nat)
    requires s <= 18 && (s == 16 ==> acc != [])
    requires value == if s <= 15 then s else if s == 16 then acc[|acc| - 1] else 0
    requires length == if s <= 15 then 1 else if s == 18 then 11 + extra else 3 + extra
    ensures Repeat(value, length) == LengthRun(s, extra, acc)
  {}

  lemma LengthsBad(bits: seq<bool>, p: nat, cl: seq<nat>, total: nat, acc: seq<nat>)
    requires ValidLengths(cl) && |cl| == 19 && |acc| < total && p <= |bits|
    requires Sym(cl, bits, p) == None || (Sym(cl, bits, p) == Some(16) && acc == [])
    ensures ReadLengths(bits, p, cl, total, acc) == None
  {}

  lemma LengthsStep(bits: seq<bool>, p: nat, cl: seq<nat>, total: nat, acc: seq<nat>, s: nat, run: seq<nat>, end: nat)
    requires ValidLengths(cl) && |cl| == 19 && |acc| < total && p <= |bits|
    requires Sym(cl, bits, p) == Some(s) && (s == 16 ==> acc != [])
    requires run == LengthRun(s, Field(bits, p + cl[s], ExtraBits(s)), acc) && end == p + cl[s] + ExtraBits(s)
    ensures ReadLengths(bits, p, cl, total, acc)
         == if |acc + run| > total || end > |bits| then None else ReadLengths(bits, end, cl, total, acc + run)
  {
    hide LengthRun, Sym, Field;
  }

  method ReadClLengths(reader: BitReader, hclen: nat) returns (bitlenCl: array<nat>)
    requires reader.Valid() && hclen <= 19
    modifies reader
    ensures reader.Valid() && reader.bp == old(reader.bp) + 3 * hclen
    ensures fresh(bitlenCl) && bitlenCl[..] == ReadCl(reader.Stream(), old(reader.bp), hclen)
    ensures forall s | 0 <= s < 19 ::
              var place := if s >= 16 then s - 16 else if s == 0 then 3
                  else if s >= 8 then 4 + 2 * (s - 8) else 5 + 2 * (7 - s);
              bitlenCl[..][s] == if place < hclen then Field(reader.Stream(), old(reader.bp) + 3 * place, 3) else 0
    ensures forall k | 0 <= k < bitlenCl.Length :: bitlenCl[k] <= 7
  {
    hide Low, BitsOf, Window, Lsb, ReadCl, Field, Place, SymbolAt;
    ghost var bits, p := reader.Stream(), reader.bp;
    assert Pow2(3) == 8 by { Pow2Values(); }
    OrderByRule();
    ReadNoCl(bits, p);
    bitlenCl := new nat[19](_ => 0);
    for i := 0 to hclen
      modifies reader, bitlenCl
      invariant reader.Valid() && reader.bp == p + 3 * i && bitlenCl[..] == ReadCl(bits, p, i)
      invariant forall k | 0 <= k < 19 :: bitlenCl[k] <= 7
    {
      reader.EnsureBits9();
      var l := reader.ReadBits(3);
      ReadClNext(bits, p, i);
      assert l == Field(bits, p + 3 * i, 3) by { FieldIs(bits, p + 3 * i, 3); }
      bitlenCl[CLCLORDER[i]] := l;
    }
    ghost var cl := bitlenCl[..];
    ZeroBehind(bits, p, hclen);
    ClRead(bits, p, hclen);
    for i := hclen to 19
      modifies bitlenCl
      invariant bitlenCl[..] == cl
    {
      bitlenCl[CLCLORDER[i]] := 0;
      assert bitlenCl[..] == cl[CLCLORDER[i] := 0];
    }
  }

  lemma ReadNoCl(bits: seq<bool>, p: nat)
    ensures ReadCl(bits, p, 0) == seq(19, _ => 0)
  {
    hide Field;
  }

  lemma FieldIs(bits: seq<bool>, p: nat, n: nat)
    ensures Field(bits, p, n) == Lsb(Window(bits, p, n))
  {}

  /** Lengths not stored are zero. */
  lemma ZeroBehind(bits: seq<bool>, p: nat, hclen: nat)
    requires hclen <= 19
    ensures forall i | hclen <= i < 19 :: CLCLORDER[i] < 19 && ReadCl(bits, p, hclen)[CLCLORDER[i]] == 0
  {
    hide Field;
    OrderByRule();
  }

  method GetTreeInflateDynamic(treeLL: HuffmanTree, treeD: HuffmanTree, reader: BitReader) returns (error: nat)
    requires treeLL != treeD && reader.Valid() && reader.bp <= |reader.Stream()|
    modifies treeLL, treeD, reader
    ensures reader.Valid()
    ensures match ReadTrees(reader.Stream(), old(reader.bp))
            case None => error != 0
            case Some(r) => error == 0 && reader.bp == r.end && treeLL.Ready() && treeD.Ready()
                            && treeLL.lengths[..] == r.value.ll && treeD.lengths[..] == r.value.d
  {
    hide Low, BitsOf, Window, Lsb, HuffmanTable.TableOk, Code, ReadTreesWith, ReadCl;
    ghost var bits, p := reader.Stream(), reader.bp;
    assert Pow2(5) == 32 && Pow2(4) == 16 by { Pow2Values(); }
    if reader.bitsize - reader.bp < 14 { return 49; }
    reader.EnsureBits17();
    var hlit := reader.ReadBits(5);
    var hdist := reader.ReadBits(5);
    var hclen := reader.ReadBits(4);
    hlit, hdist, hclen := hlit + 257, hdist + 1, hclen + 4;
    if reader.bp + hclen * 3 > reader.bitsize { return 50; }
    var bitlenCl := ReadClLengths(reader, hclen);
    error := GetTreesWith(treeLL, treeD, reader, bitlenCl, hlit, hdist);
  }

  method GetTreesWith(treeLL: HuffmanTree, treeD: HuffmanTree, reader: BitReader, bitlenCl: array<nat>, hlit: nat,
                      hdist: nat)
      returns (error: nat)
    requires treeLL != treeD && reader.Valid() && reader.bp <= |reader.Stream()|
    requires bitlenCl.Length == 19 && (forall k | 0 <= k < 19 :: bitlenCl[k] <= 7)
    requires 257 <= hlit <= 288 && 1 <= hdist <= 32
    modifies treeLL, treeD, reader
    ensures reader.Valid()
    ensures match ReadTreesWith(reader.Stream(), old(reader.bp), old(bitlenCl[..]), hlit, hdist)
            case None => error != 0
            case Some(r) => error == 0 && reader.bp == r.end && treeLL.Ready() && treeD.Ready()
                            && treeLL.lengths[..] == r.value.ll && treeD.lengths[..] == r.value.d
  {
    hide Low, Decode, BitsOf, Window, Lsb, HuffmanTable.TableOk, Code, Kraft, ReadLengths, FinishTrees, Acceptable,
        Laid;
    ghost var lengths := ReadLengths(reader.Stream(), reader.bp, bitlenCl[..], hlit + hdist, []);
    var treeCl := new HuffmanTree();
    assert bitlenCl[..19] == bitlenCl[..];
    error := treeCl.MakeFromLengths(bitlenCl, 19, 7);
    if error != 0 { return; }
    var bitlenLL, bitlenD := new nat[288](_ => 0), new nat[32](_ => 0);
    LaidStart(bitlenLL[..], bitlenD[..], hlit);
    error := ReadCodeLengths(reader, treeCl, bitlenLL, bitlenD, hlit, hdist);
    if error != 0 { return; }
    LengthsValid(reader.Stream(), old(reader.bp), bitlenCl[..], hlit + hdist, []);
    LaidValid(bitlenLL[..], bitlenD[..], lengths.value.value, hlit);
    error := BuildTrees(treeLL, treeD, bitlenLL, bitlenD, lengths.value, hlit, hdist);
  }

  lemma LaidStart(ll: seq<nat>, d: seq<nat>, hlit: nat)
    requires |ll| == 288 && |d| == 32 && (forall k | 0 <= k < 288 :: ll[k] == 0)
    requires (forall k | 0 <= k < 32 :: d[k] == 0)
    ensures Laid(ll, d, [], hlit)
  {}

  lemma LaidValid(ll: seq<nat>, d: seq<nat>, acc: seq<nat>, hlit: nat)
    requires Laid(ll, d, acc, hlit) && ValidLengths(acc)
    ensures forall k | 0 <= k < |ll| :: ll[k] <= 15
    ensures forall k | 0 <= k < |d| :: d[k] <= 15
  {}

  /** No length above 15 is ever read. */
  lemma {:induction false} LengthsValid(bits: seq<bool>, p: nat, cl: seq<nat>, total: nat, acc: seq<nat>)
    requires ValidLengths(cl) && |cl| == 19 && |acc| <= total && p <= |bits| && ValidLengths(acc)
    ensures var r := ReadLengths(bits, p, cl, total, acc); r.Some? ==> ValidLengths(r.value.value)
    decreases total - |acc|
  {
    hide Sym, Field;
    var s := Sym(cl, bits, p);
    if |acc| < total && s.Some? && !(s.value == 16 && acc == []) {
      var p1 := p + cl[s.value];
      var acc' := acc + LengthRun(s.value, Field(bits, p1, ExtraBits(s.value)), acc);
      if |acc'| <= total && p1 + ExtraBits(s.value) <= |bits| {
        LengthsValid(bits, p1 + ExtraBits(s.value), cl, total, acc');
      }
    }
  }

  method BuildTrees(treeLL: HuffmanTree, treeD: HuffmanTree, bitlenLL: array<nat>, bitlenD: array<nat>,
                    ghost lengths: Reading<seq<nat>>, ghost hlit: nat, ghost hdist: nat)
    returns (error: nat)
    requires treeLL != treeD && 257 <= hlit <= 288 && 1 <= hdist <= 32 && |lengths.value| == hlit + hdist
    requires Laid(bitlenLL[..], bitlenD[..], lengths.value, hlit)
    requires forall k | 0 <= k < bitlenLL.Length :: bitlenLL[k] <= 15
    requires forall k | 0 <= k < bitlenD.Length :: bitlenD[k] <= 15
    modifies treeLL, treeD
    ensures match FinishTrees(lengths, hlit, hdist)
            case None => error != 0
            case Some(r) => error == 0 && treeLL.Ready() && treeD.Ready()
                            && treeLL.lengths[..] == r.value.ll && treeD.lengths[..] == r.value.d
  {
    hide HuffmanTable.TableOk, Code, Acceptable;
    ghost var ll, d := bitlenLL[..], bitlenD[..];
    assert ll == lengths.value[..hlit] + Repeat(0, 288 - hlit);
    assert d == lengths.value[hlit..] + Repeat(0, 32 - hdist);
    assert bitlenLL[..288] == ll && bitlenD[..32] == d;
    if bitlenLL[256] == 0 { return 64; }
    error := treeLL.MakeFromLengths(bitlenLL, 288, 15);
    if error != 0 { return; }
    error := treeD.MakeFromLengths(bitlenD, 32, 15);
  }

  // ---------------------------------------------------------------- blocks

  /** What one symbol does, before any check for the end of the input or the size of the output. */
  datatype Outcome = Bad | End(end: nat) | More(step: Reading<seq<byte>>)

  ghost function NextSymbol(bits: seq<bool>, p: nat, ll: seq<nat>, d: seq<nat>, out: seq<byte>): (o: Outcome)
    requires ValidLengths(ll) && ValidLengths(d)
    ensures o.More? ==> o.step.end >= p && |o.step.value| >= |out|
    ensures o.End? ==> o.end >= p
  {
    match Sym(ll, bits, p)
    case None => Bad
    case Some(s) =>
      var p1 := p + ll[s];
      if s <= 255 then More(Reading(p1, out + [s as byte]))
      else if s == 256 then End(p1)
      else if s <= 285 then
        match ReadCopy(s, bits, p1, d, out)
        case None => Bad
        case Some(step) => More(step)
      else Bad
  }

  /** All symbols from `p`, where `p` may already lie past the end. */
  ghost function Rest(bits: seq<bool>, p: nat, ll: seq<nat>, d: seq<nat>, out: seq<byte>,
                      max: nat): Option<Reading<seq<byte>>>
    requires ValidLengths(ll) && ValidLengths(d)
  {
    if Accepted(Reading(p, out), bits, max) then ReadSymbols(bits, p, ll, d, out, max) else None
  }

  /** The check may be put off: once it fails it fails for good. */
  lemma RestStep(bits: seq<bool>, p: nat, ll: seq<nat>, d: seq<nat>, out: seq<byte>, max: nat)
    requires ValidLengths(ll) && ValidLengths(d)
    ensures Rest(bits, p, ll, d, out, max)
         == match NextSymbol(bits, p, ll, d, out)
            case Bad => None
            case End(e) => if Accepted(Reading(e, out), bits, max) then Some(Reading(e, out)) else None
            case More(step) => Rest(bits, step.end, ll, d, step.value, max)
  {
    hide Sym, ReadCopy;
  }

  lemma RestStart(bits: seq<bool>, p: nat, ll: seq<nat>, d: seq<nat>, out: seq<byte>, max: nat)
    requires ValidLengths(ll) && ValidLengths(d) && p <= |bits|
    ensures Rest(bits, p, ll, d, out, max) == ReadSymbols(bits, p, ll, d, out, max)
  {
    hide Sym, ReadCopy;
  }

  /** A block whose trees have been read. The first literal of a pair takes a shortcut to the second symbol. */
  method InflateSymbols(out: ByteVector, reader: BitReader, treeLL: HuffmanTree, treeD: HuffmanTree, max: nat)
    returns (error: nat)
    requires reader.Valid() && treeLL.Ready() && treeD.Ready() && reader.bp <= |reader.Stream()|
    modifies out, reader
    ensures reader.Valid()
    ensures match ReadSymbols(reader.Stream(), old(reader.bp), treeLL.lengths[..], treeD.lengths[..], old(out.data),
                              max)
            case None => error != 0
            case Some(r) => error == 0 && reader.bp == r.end && out.data == r.value
  {
    hide Low, Decode, BitsOf, Window, Lsb, HuffmanTable.TableOk, Code, ReadSymbols, ReadCopy, Rest, NextSymbol;
    ghost var bits, ll, d := reader.Stream(), treeLL.lengths[..], treeD.lengths[..];
    ghost var all := Rest(bits, reader.bp, ll, d, out.data, max);
    assert all == ReadSymbols(bits, reader.bp, ll, d, out.data, max) by {
      RestStart(bits, reader.bp, ll, d, out.data, max);
    }
    var done := false;
    error := 0;
    while !done
      invariant reader.Valid() && error == 0 && reader.bp <= |bits|
      invariant all == if done then Some(Reading(reader.bp, out.data)) else Rest(bits, reader.bp, ll, d, out.data, max)
      decreases !done, |bits| - reader.bp
    {
      error, done := InflateStep(out, reader, treeLL, treeD, max);
      if error != 0 { return; }
      RestRejected(bits, reader.bp, ll, d, out.data, max);
      if reader.bp > reader.bitsize { return 51; }
      if max != 0 && |out.data| > max { return 109; }
    }
  }

  lemma RestRejected(bits: seq<bool>, p: nat, ll: seq<nat>, d: seq<nat>, out: seq<byte>, max: nat)
    requires ValidLengths(ll) && ValidLengths(d)
    ensures !Accepted(Reading(p, out), bits, max) ==> Rest(bits, p, ll, d, out, max) == None
  {}

  /** One symbol, or a literal and the symbol after it. */
  method InflateStep(out: ByteVector, reader: BitReader, treeLL: HuffmanTree, treeD: HuffmanTree, ghost max: nat)
      returns (error: nat, done: bool)
    requires reader.Valid() && treeLL.Ready() && treeD.Ready()
    modifies out, reader
    ensures reader.Valid()
    ensures error == 0 ==> reader.bp > old(reader.bp)
    ensures Rest(reader.Stream(), old(reader.bp), treeLL.lengths[..], treeD.lengths[..], old(out.data), max)
         == if error != 0 then None
            else if !done then Rest(reader.Stream(), reader.bp, treeLL.lengths[..], treeD.lengths[..], out.data, max)
            else if Accepted(Reading(reader.bp, out.data), reader.Stream(), max) then Some(Reading(reader.bp, out.data))
            else None
  {
    hide *;
    TreeIsValid(treeLL);
    TreeIsValid(treeD);
    InvalidIsLarge();
    ghost var bits, ll, d := reader.Stream(), treeLL.lengths[..], treeD.lengths[..];
    ghost var p, before := reader.bp, out.data;
    done := false;
    reader.EnsureBits32();
    var codeLL := treeLL.DecodeSymbol(reader);
    SymIs(ll, bits, p);
    RestStep(bits, p, ll, d, before, max);
    if codeLL <= 255 {
      LiteralNext(bits, p, ll, d, before, codeLL);
      out.data := out.data + [codeLL as byte];
      p, before := reader.bp, out.data;
      codeLL := treeLL.DecodeSymbol(reader);
      SymIs(ll, bits, p);
      RestStep(bits, p, ll, d, before, max);
    }
    if codeLL <= 255 {
      LiteralNext(bits, p, ll, d, before, codeLL);
      out.data := out.data + [codeLL as byte];
    } else if 257 <= codeLL <= 285 {
      CopyNext(bits, p, ll, d, before, codeLL);
      CopyErrorExact(codeLL, bits, reader.bp, d, before);
      error := InflateCopy(out, reader, treeD, codeLL);
      return;
    } else if codeLL == 256 {
      OtherNext(bits, p, ll, d, before);
      done := true;
    } else {
      OtherNext(bits, p, ll, d, before);
      return 16, done;
    }
    error := 0;
  }

  lemma LiteralNext(bits: seq<bool>, p: nat, ll: seq<nat>, d: seq<nat>, out: seq<byte>, s: nat)
    requires ValidLengths(ll) && ValidLengths(d) && Sym(ll, bits, p) == Some(s) && s <= 255
    ensures NextSymbol(bits, p, ll, d, out) == More(Reading(p + ll[s], out + [s as byte]))
  {
    hide Sym;
  }

  lemma CopyNext(bits: seq<bool>, p: nat, ll: seq<nat>, d: seq<nat>, out: seq<byte>, s: nat)
    requires ValidLengths(ll) && ValidLengths(d) && Sym(ll, bits, p) == Some(s) && 257 <= s <= 285
    ensures NextSymbol(bits, p, ll, d, out)
         == match ReadCopy(s, bits, p + ll[s], d, out)
            case None => Bad
            case Some(step) => More(step)
  {
    hide Sym, ReadCopy;
  }

  lemma OtherNext(bits: seq<bool>, p: nat, ll: seq<nat>, d: seq<nat>, out: seq<byte>)
    requires ValidLengths(ll) && ValidLengths(d)
    ensures Sym(ll, bits, p) == Some(256) ==> NextSymbol(bits, p, ll, d, out) == End(p + ll[256])
    ensures Sym(ll, bits, p).None? || Sym(ll, bits, p).value > 285 ==> NextSymbol(bits, p, ll, d, out) == Bad
  {
    hide Sym, ReadCopy;
  }

  method InflateHuffmanBlock(out: ByteVector, reader: BitReader, btype: nat, max: nat) returns (error: nat)
    requires reader.Valid() && (btype == 1 || btype == 2) && reader.bp <= 8 * |reader.data|
    modifies out, reader
    ensures reader.Valid()
    ensures forall settings: DecompressSettings | settings.maxOutputSize == max ::
              match ReadBlock(btype, reader.data, old(reader.bp), old(out.data), settings)
              case None => error != 0
              case Some(r) => error == 0 && reader.bp == r.end && out.data == r.value
  {
    hide BitsOf, HuffmanTable.TableOk, Code, ReadSymbols, ReadTrees, FixedLL, FixedD;
    var treeLL := new HuffmanTree();
    var treeD := new HuffmanTree();
    FixedValid();
    if btype == 1 {
      error := GetTreeInflateFixed(treeLL, treeD);
    } else {
      error := GetTreeInflateDynamic(treeLL, treeD, reader);
    }
    if error == 0 {
      error := InflateSymbols(out, reader, treeLL, treeD, max);
    }
  }

  /** Which error a stored block causes, if any, when its length stands at byte `b`. */
  function StoredError(data: seq<byte>, b: nat, ignoreNlen: bool): nat {
    if b + 4 >= |data| then 52
    else
      var len: nat := data[b] as int + 256 * data[b + 1] as int;
      if !ignoreNlen && data[b + 2] as int + 256 * data[b + 3] as int != 65535 - len then 21
      else if b + 4 + len > |data| then 23
      else 0
  }

  method InflateNoCompression(out: ByteVector, reader: BitReader, settings: DecompressSettings) returns (error: nat)
    requires reader.Valid()
    modifies out, reader
    ensures reader.Valid()
    ensures match ReadStored(reader.data, old(reader.bp), old(out.data), settings.ignoreNlen)
            case None => error != 0
            case Some(r) => error == 0 && reader.bp == r.end && out.data == r.value
    ensures error == StoredError(reader.data, (old(reader.bp) + 7) / 8, settings.ignoreNlen)
  {
    hide BitsOf;
    var size, bytepos := |reader.data|, (reader.bp + 7) / 8;
    if bytepos + 4 >= size { return 52; }
    var len: nat := reader.data[bytepos] as int + 256 * reader.data[bytepos + 1] as int;
    bytepos := bytepos + 2;
    var nlen: nat := reader.data[bytepos] as int + 256 * reader.data[bytepos + 1] as int;
    bytepos := bytepos + 2;
    if !settings.ignoreNlen && len + nlen != 65535 { return 21; }
    out.Grow(len);
    if bytepos + len > size { return 23; }
    if len != 0 {
      out.data := out.data[..|out.data| - len] + reader.data[bytepos..bytepos + len];
      bytepos := bytepos + len;
    }
    reader.SkipTo(8 * bytepos);
    error := 0;
  }

  /** Succeeds exactly on the streams the format accepts, with the bytes they stand for behind those already there. */
  method InflateV(out: ByteVector, data: seq<byte>, settings: DecompressSettings) returns (error: nat)
    modifies out
    ensures match ReadBlocks(data, 0, old(out.data), settings)
            case None => error != 0
            case Some(r) => error == 0 && out.data == r
  {
    hide BitsOf, ReadBlock, ReadStored;
    ghost var all := ReadBlocks(data, 0, out.data, settings);
    var reader := new BitReader(data);
    ghost var bits := BitsOf(data);
    var final := false;
    error := 0;
    while !final
      invariant reader.Valid() && reader.data == data && reader.bp <= |bits| && error == 0
      invariant all == if final then Some(out.data) else ReadBlocks(data, reader.bp, out.data, settings)
      decreases !final, |bits| - reader.bp
    {
      if reader.bitsize - reader.bp < 3 { return 52; }
      ghost var p, before := reader.bp, out.data;
      reader.EnsureBits9();
      var bfinal := reader.ReadBits(1);
      var btype := reader.ReadBits(2);
      final := bfinal == 1;
      HeaderBit(bits, p);
      BlockKinds(data, p + 3, before, settings);
      if btype == 3 {
        return 20;
      } else if btype == 0 {
        error := InflateNoCompression(out, reader, settings);
      } else {
        error := InflateHuffmanBlock(out, reader, btype, settings.maxOutputSize);
      }
      if error == 0 && settings.maxOutputSize != 0 && |out.data| > settings.maxOutputSize { error := 109; }
      if error != 0 { break; }
    }
  }

  lemma HeaderBit(bits: seq<bool>, p: nat)
    requires p + 3 <= |bits|
    ensures Lsb(Window(bits, p, 1)) == Bit(bits[p])
  {
    var w := Window(bits, p, 1);
    assert w[1..] == [];
  }

  lemma BlockKinds(data: seq<byte>, p: nat, out: seq<byte>, settings: DecompressSettings)
    requires p <= 8 * |data|
    ensures ReadBlock(0, data, p, out, settings) == ReadStored(data, p, out, settings.ignoreNlen)
    ensures ReadBlock(3, data, p, out, settings) == None
  {}
}
