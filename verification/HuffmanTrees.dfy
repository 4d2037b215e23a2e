/** The `HuffmanTree` struct: codes from lengths, the lookup table, and decoding through it. */
module HuffmanTrees {
  import opened Wrappers
  import opened Bits
  import BitIO
  import opened Huffman
  import opened HuffmanTable
  import CodeLengths

  method ReverseBits(bits: nat, num: nat) returns (result: nat)
    ensures result == Lsb(ToMsb(bits, num)) < Pow2(num)
  {
    hide Lsb, ToMsb, Shr, Pow2;
    ghost var s := ToMsb(bits, num);
    result := 0;
    assert s[..0] == Zeros(0);
    LsbZeros(0);
    for i := 0 to num
      invariant result == Lsb(s[..i]) < Pow2(i)
    {
      ToMsbAt(bits, num, i);
      ghost var b := s[i];
      assert s[..i + 1] == s[..i] + [b];
      LsbConcat(s[..i], [b]);
      LsbOne(b);
      OrDisjoint(result, Shr(bits, num - i - 1) % 2, i);
      LsbBound(s[..i + 1]);
      result := Or(result, Shr(bits, num - i - 1) % 2 * Pow2(i));
    }
    assert s[..num] == s;
  }

  lemma LsbOne(b: bool)
    ensures Lsb([b]) == Bit(b)
  {
    assert [b][1..] == [];
  }

  /** The `nextcode` value of a length before any code of that length is handed out. Zero lengths
      are counted too; what they add is a multiple of 2^b and falls off with the superfluous bits. */
  ghost function NextCode(lens: seq<nat>, b: nat): nat {
    if b == 0 then 0 else 2 * (NextCode(lens, b - 1) + Count(lens, b - 1))
  }

  lemma {:induction false} NextCodeValue(lens: seq<nat>, b: nat)
    requires ValidLengths(lens) && 0 < b <= 15
    ensures NextCode(lens, b) * Weight(b) == Count(lens, 0) * 0x8000 + Below(lens, b)
  {
    hide Count, Below, Weight;
    WeightFacts(b);
    if b == 1 {
      BelowEnds(lens);
      assert NextCode(lens, 1) == 2 * Count(lens, 0) by { assert NextCode(lens, 0) == 0; }
      assert Weight(1) == 0x4000 by { Pow2Values(); }
    } else {
      NextCodeValue(lens, b - 1);
      BelowStep(lens, b - 1);
      WeightFacts(b - 1);
      DoubleOut(NextCode(lens, b - 1), Count(lens, b - 1), Weight(b));
    }
  }

  lemma DoubleOut(a: nat, b: nat, w: nat)
    ensures (2 * (a + b)) * w == a * (2 * w) + b * (2 * w)
  {
    MulDistribute(a, b, 2 * w);
  }

  /** Masking the running counter gives the canonical code. */
  lemma CanonicalCode(lens: seq<nat>, n: nat)
    requires ValidLengths(lens) && n < |lens| && lens[n] > 0
    ensures Low(NextCode(lens, lens[n]) + Count(lens[..n], lens[n]), lens[n]) == Code(lens, n)
  {
    hide Count, Below, Weight, Low, Shr, Pow2, NextCode;
    var l, w := lens[n], Weight(lens[n]);
    var x, c0, q := NextCode(lens, l) + Count(lens[..n], l), Count(lens, 0), Shr(Start(lens, n), 15 - l);
    NextCodeValue(lens, l);
    StartMultiple(lens, n);
    WeightFacts(l);
    MulDistribute(NextCode(lens, l), Count(lens[..n], l), w);
    MulAssoc(c0, Pow2(l), w);
    MulDistribute(c0 * Pow2(l), q, w);
    assert x * w == (c0 * Pow2(l) + q) * w;
    MulCancel(x, c0 * Pow2(l) + q, w);
    LowAddMultiple(q, c0, l);
  }

  lemma MulCancel(a: nat, b: nat, w: nat)
    requires w > 0 && a * w == b * w
    ensures a == b
  {
    if a < b { MulLe(a + 1, b, w); }
    if b < a { MulLe(b + 1, a, w); }
  }

  /** Reversing the nine first code bits gives the first table index. */
  lemma Prefix9Value(lens: seq<nat>, n: nat)
    requires ValidLengths(lens) && n < |lens| && lens[n] >= 9
    ensures Lsb(ToMsb(Shr(Code(lens, n), lens[n] - 9), 9)) == Prefix9(lens, n)
  {
    hide Lsb, ToMsb, Shr, Low, Code;
    var s := CodeBits(lens, n);
    ToMsbTake(Code(lens, n), lens[n], FIRSTBITS);
    LsbSplit(s, FIRSTBITS);
  }

  class HuffmanTree {
    var codes: array<nat>
    var lengths: array<nat>
    var maxbitlen: nat
    var numcodes: nat
    var tableLen: array<nat>
    var tableValue: array<nat>

    ghost predicate HasLengths()
      reads this, lengths
    {
      && lengths.Length == numcodes <= 288 && maxbitlen <= 15
      && forall i | 0 <= i < numcodes :: lengths[i] <= maxbitlen
    }

    ghost predicate HasCodes()
      reads this, lengths, codes
    {
      && HasLengths() && codes.Length == numcodes && ValidLengths(lengths[..])
      && forall n | 0 <= n < numcodes && lengths[n] > 0 :: codes[n] == Code(lengths[..], n)
    }

    /** Ready for writing (codes) and for reading (table). */
    ghost predicate Ready()
      reads this, lengths, codes, tableLen, tableValue
    {
      HasCodes() && TableOk(tableLen[..], tableValue[..], lengths[..])
    }

    constructor ()
      ensures fresh(codes) && fresh(lengths) && fresh(tableLen) && fresh(tableValue)
    {
      codes := new nat[0];
      lengths := new nat[0];
      tableLen := new nat[0];
      tableValue := new nat[0];
      maxbitlen := 0;
      numcodes := 0;
    }

    /** Succeeds exactly on the acceptable length lists; afterwards codes and table agree with the lengths. */
    method MakeFromLengths(bitlen: array<nat>, num: nat, maxbits: nat) returns (error: nat)
      requires num <= bitlen.Length && num <= 288 && maxbits <= 15
      requires forall i | 0 <= i < num :: bitlen[i] <= maxbits
      modifies this
      ensures fresh(lengths) && fresh(codes) && fresh(tableLen) && fresh(tableValue)
      ensures lengths[..] == bitlen[..num] && ValidLengths(bitlen[..num])
      ensures error == 0 <==> Acceptable(bitlen[..num])
      ensures error == 0 ==> Ready()
    {
      lengths := new nat[num];
      for i := 0 to num
        modifies lengths
        invariant lengths[..i] == bitlen[..i]
      {
        lengths[i] := bitlen[i];
      }
      numcodes := num;
      maxbitlen := maxbits;
      assert lengths[..] == bitlen[..num];
      error := MakeFromLengths2();
    }

    /** Lengths by package merge: never rejected when built into a table, since Kraft's sum is exactly 1. */
    method MakeFromFrequencies(frequencies: array<nat>, mincodes: nat, numcodes0: nat, maxbits: nat)
      returns (error: nat)
      requires 2 <= mincodes <= numcodes0 <= frequencies.Length && numcodes0 <= 288 && maxbits <= 15
      modifies this
      ensures fresh(lengths) && (error == 0 ==> fresh(codes) && fresh(tableLen) && fresh(tableValue))
      ensures mincodes <= numcodes <= numcodes0 && maxbitlen == maxbits
      ensures forall i | numcodes <= i < numcodes0 :: frequencies[i] == 0
      ensures numcodes == mincodes || frequencies[numcodes - 1] > 0
      ensures error == if Pow2(maxbits) < numcodes then 80 else 0
      ensures error == 0 ==> Ready() && CodeLengths.GoodLengths(lengths[..], frequencies[..numcodes], maxbits)
    {
      hide HuffmanTable.TableOk, HuffmanTable.MaxLens, Code, Pow2, CodeLengths.GoodLengths, Acceptable;
      var num := numcodes0;
      while frequencies[num - 1] == 0 && num > mincodes
        modifies {}
        invariant mincodes <= num <= numcodes0
        invariant forall i | num <= i < numcodes0 :: frequencies[i] == 0
      {
        num := num - 1;
      }
      lengths := new nat[num];
      maxbitlen := maxbits;
      numcodes := num;
      error := CodeLengths.HuffmanCodeLengths(lengths, frequencies, num, maxbits);
      if error == 0 {
        assert lengths[..num] == lengths[..];
        GoodIsAcceptable(lengths[..], frequencies[..num], maxbits);
        error := MakeFromLengths2();
      }
    }

    method MakeFromLengths2() returns (error: nat)
      requires HasLengths()
      modifies this
      ensures lengths == old(lengths) && numcodes == old(numcodes) && maxbitlen == old(maxbitlen)
      ensures fresh(codes) && fresh(tableLen) && fresh(tableValue)
      ensures ValidLengths(lengths[..])
      ensures error == 0 <==> Acceptable(lengths[..])
      ensures error == 0 ==> Ready()
    {
      GenerateCodes();
      error := MakeTable();
    }

    /** Counts the lengths, derives the first code of each, and hands the codes out in symbol order. */
    method GenerateCodes()
      requires HasLengths()
      modifies this
      ensures lengths == old(lengths) && numcodes == old(numcodes) && maxbitlen == old(maxbitlen)
      ensures tableLen == old(tableLen) && tableValue == old(tableValue)
      ensures fresh(codes) && HasCodes()
    {
      hide Count, Code, Low, NextCode;
      var blcount := CountLengths();
      var nextcode := FirstCodes(blcount);
      codes := new nat[numcodes];
      ghost var lens := lengths[..];
      assert lens[..0] == [];
      CountEmpty();
      for n := 0 to numcodes
        modifies nextcode, codes
        invariant forall l: nat | 0 < l <= maxbitlen :: nextcode[l] == NextCode(lens, l) + Count(lens[..n], l)
        invariant forall m | 0 <= m < n && lens[m] > 0 :: codes[m] == Code(lens, m)
      {
        var l := lengths[n];
        if l != 0 {
          CanonicalCode(lens, n);
          codes[n] := nextcode[l];
          nextcode[l] := nextcode[l] + 1;
          codes[n] := Low(codes[n], l);
        }
        CountSteps(lens, n);
      }
    }

    method CountLengths() returns (blcount: array<nat>)
      requires HasLengths()
      ensures fresh(blcount) && blcount.Length == maxbitlen + 1
      ensures forall l: nat | l <= maxbitlen :: blcount[l] == Count(lengths[..], l)
    {
      hide Count;
      blcount := new nat[maxbitlen + 1](_ => 0);
      ghost var lens := lengths[..];
      assert lens[..0] == [];
      CountEmpty();
      for i := 0 to numcodes
        modifies blcount
        invariant forall l: nat | l <= maxbitlen :: blcount[l] == Count(lens[..i], l)
      {
        CountSteps(lens, i);
        blcount[lengths[i]] := blcount[lengths[i]] + 1;
      }
      assert lens[..numcodes] == lens;
    }

    method FirstCodes(blcount: array<nat>) returns (nextcode: array<nat>)
      requires HasLengths() && blcount.Length == maxbitlen + 1
      requires forall l: nat | l <= maxbitlen :: blcount[l] == Count(lengths[..], l)
      ensures fresh(nextcode) && nextcode.Length == maxbitlen + 1
      ensures forall l: nat | l <= maxbitlen :: nextcode[l] == NextCode(lengths[..], l)
    {
      hide Count, NextCode;
      nextcode := new nat[maxbitlen + 1](_ => 0);
      ghost var lens := lengths[..];
      NextCodeZero(lens);
      for bits := 1 to maxbitlen + 1
        modifies nextcode
        invariant forall l: nat | l < bits :: nextcode[l] == NextCode(lens, l)
      {
        NextCodeStep(lens, bits);
        nextcode[bits] := 2 * (nextcode[bits - 1] + blcount[bits - 1]);
      }
    }

    method MakeTable() returns (error: nat)
      requires HasCodes()
      modifies this
      ensures lengths == old(lengths) && codes == old(codes) && numcodes == old(numcodes) && maxbitlen == old(maxbitlen)
      ensures fresh(tableLen) && fresh(tableValue)
      ensures error == 0 <==> Acceptable(lengths[..])
      ensures error == 0 ==> Ready()
    {
      hide Filled, MaxLens, Code, Kraft, TableOk, Pointer, Acceptable;
      ghost var lens := lengths[..];
      var maxlens := ComputeMaxLens();
      ghost var ml := maxlens[..];
      AllocateTable(maxlens);
      error := FillSymbols(ml);
      if error == 0 {
        error := FinishTable(ml);
      }
    }

    /** Sizes both columns, marks every entry unused and writes the pointers into the second tables. */
    method AllocateTable(maxlens: array<nat>)
      requires HasCodes() && MaxLens(maxlens[..], lengths[..], numcodes)
      modifies this
      ensures lengths == old(lengths) && codes == old(codes) && numcodes == old(numcodes) && maxbitlen == old(maxbitlen)
      ensures fresh(tableLen) && fresh(tableValue) && tableLen != tableValue
      ensures Filled(tableLen[..], tableValue[..], maxlens[..], lengths[..], 0)
    {
      hide Filled, MaxLens, Code, Pointer;
      ghost var ml, lens := maxlens[..], lengths[..];
      MaxLensSize(ml, lens);
      var size := 512;
      PointerZero(ml);
      for i := 0 to 512
        modifies {}
        invariant size == Pointer(ml, i)
      {
        PointerStep(ml, i);
        if maxlens[i] > 9 { size := size + Pow2(maxlens[i] - 9); }
      }
      tableLen := new nat[size];
      tableValue := new nat[size];
      var tl := tableLen;
      for i := 0 to size
        modifies tl
        invariant forall m | 0 <= m < i :: tl[m] == UNUSED
      {
        tl[i] := UNUSED;
      }
      WritePointers(maxlens);
      FilledStart(tableLen[..], tableValue[..], ml, lens);
    }

    /** Fills the gaps of a tree with fewer than two symbols, or rejects a table with gaps. */
    method FinishTable(ghost ml: seq<nat>) returns (error: nat)
      requires HasCodes() && tableLen != tableValue && tableLen != lengths && tableValue != lengths
      requires codes != tableLen && codes != tableValue
      requires MaxLens(ml, lengths[..], numcodes) && Filled(tableLen[..], tableValue[..], ml, lengths[..], numcodes)
      modifies tableLen, tableValue
      ensures error == 0 <==> Acceptable(lengths[..])
      ensures error == 0 ==> Ready()
    {
      hide Filled, MaxLens, Code, Kraft, TableOk, Pointer;
      ghost var lens, tl0, tv0 := lengths[..], tableLen[..], tableValue[..];
      FilledSizes(tl0, tv0, ml, lens, numcodes);
      var numpresent := CountPresent();
      var size := tableLen.Length;
      if numpresent < 2 {
        for i := 0 to size
          invariant lengths[..] == lens && HasCodes()
          invariant forall m | 0 <= m < i ::
                      if tl0[m] == UNUSED then tableLen[m] == (if m < 512 then 1 else 10)
                          && tableValue[m] == INVALIDSYMBOL
                      else tableLen[m] == tl0[m] && tableValue[m] == tv0[m]
          invariant forall m | i <= m < size :: tableLen[m] == tl0[m] && tableValue[m] == tv0[m]
        {
          if tableLen[i] == UNUSED {
            tableLen[i] := if i < 512 then 1 else 10;
            tableValue[i] := INVALIDSYMBOL;
          }
        }
        PatchedTableOk(tableLen[..], tableValue[..], tl0, tv0, ml, lens);
      } else {
        for i := 0 to size
          invariant lengths[..] == lens && HasCodes() && tableLen[..] == tl0 && tableValue[..] == tv0
          invariant forall m | 0 <= m < i :: tl0[m] != UNUSED
        {
          if tableLen[i] == UNUSED {
            UnusedMeansIncomplete(tl0, tv0, ml, lens, i);
            return 55;
          }
        }
        FullMeansComplete(tl0, tv0, ml, lens);
        FullTableOk(tl0, tv0, ml, lens);
      }
      error := 0;
    }

    method ComputeMaxLens() returns (maxlens: array<nat>)
      requires HasCodes()
      ensures fresh(maxlens) && MaxLens(maxlens[..], lengths[..], numcodes)
    {
      hide Code, Shr, Low, Rev, Lsb, ToMsb;
      ghost var lens := lengths[..];
      maxlens := new nat[512](_ => 0);
      for i := 0 to numcodes
        modifies maxlens
        invariant MaxLens(maxlens[..], lens, i)
      {
        var l := lengths[i];
        if l > 9 {
          var index := ReverseBits(Shr(codes[i], l - 9), 9);
          Prefix9Value(lens, i);
          ghost var before := maxlens[..];
          maxlens[index] := if maxlens[index] > l then maxlens[index] else l;
          MaxLensStep(maxlens[..], before, lens, i);
        } else {
          MaxLensSkip(maxlens[..], lens, i);
        }
      }
    }

    method WritePointers(maxlens: array<nat>)
      requires maxlens != tableLen && maxlens != tableValue && tableLen != tableValue
      requires maxlens.Length == 512
      requires tableLen.Length == tableValue.Length == Pointer(maxlens[..], 512)
      requires forall m | 0 <= m < tableLen.Length :: tableLen[m] == UNUSED
      modifies tableLen, tableValue
      ensures forall i | 0 <= i < 512 :: if maxlens[i] > 9
            then tableLen[i] == maxlens[i] && tableValue[i] == Pointer(maxlens[..], i)
                                         else tableLen[i] == UNUSED
      ensures forall i | 512 <= i < tableLen.Length :: tableLen[i] == UNUSED
    {
      hide Pointer;
      ghost var ml := maxlens[..];
      var pointer := 512;
      PointerZero(ml);
      for i := 0 to 512
        invariant maxlens[..] == ml && pointer == Pointer(ml, i)
        invariant forall m | 0 <= m < i :: if ml[m] > 9 then tableLen[m] == ml[m] && tableValue[m] == Pointer(ml, m)
                                           else tableLen[m] == UNUSED
        invariant forall m | i <= m < tableLen.Length :: tableLen[m] == UNUSED
      {
        PointerStep(ml, i);
        var l := maxlens[i];
        if l > 9 {
          tableLen[i] := l;
          tableValue[i] := pointer;
          pointer := pointer + Pow2(l - 9);
        }
      }
    }

    /** Writes every present symbol into the table; error 55 when a short code finds its entry taken. */
    method FillSymbols(ghost ml: seq<nat>) returns (error: nat)
      requires HasCodes() && tableLen != tableValue && tableLen != lengths && tableValue != lengths
      requires codes != tableLen && codes != tableValue
      requires MaxLens(ml, lengths[..], numcodes) && Filled(tableLen[..], tableValue[..], ml, lengths[..], 0)
      modifies tableLen, tableValue
      ensures error == 0 || error == 55
      ensures error == 0 ==> Filled(tableLen[..], tableValue[..], ml, lengths[..], numcodes)
      ensures error != 0 ==> !Acceptable(lengths[..])
    {
      hide Filled, MaxLens, Code, Kraft, Shr, Low, Rev, Lsb, ToMsb, Pow2, Acceptable;
      ghost var lens := lengths[..];
      for i := 0 to numcodes
        invariant lengths[..] == lens && HasCodes()
        invariant Filled(tableLen[..], tableValue[..], ml, lens, i)
      {
        var l := lengths[i];
        if l == 0 {
          FilledSkip(tableLen[..], tableValue[..], ml, lens, i);
          continue;
        }
        ghost var tl0, tv0 := tableLen[..], tableValue[..];
        FilledSizes(tl0, tv0, ml, lens, i);
        var reverse := ReverseBits(codes[i], l);
        assert reverse == Rev(lens, i) by { RevValue(lens, i); }
        if l <= 9 {
          ghost var taken;
          error, taken := FillShort(l, reverse, i);
          if error != 0 {
            assert Covers(lens, i, taken);
            ShortCollision(tl0, tv0, ml, lens, i, taken);
            return;
          }
          FilledShort(tableLen[..], tableValue[..], tl0, tv0, ml, lens, i);
        } else {
          var index := Low(reverse, 9);
          LongEntry(tl0, tv0, ml, lens, i);
          var maxlen := tableLen[index];
          if maxlen < l {
            // unreachable: the pointer of a long code's prefix covers the longest code behind it
            assert false;
          }
          FillLong(maxlen, l, Shr(reverse, 9), tableValue[index], i);
          FilledLong(tableLen[..], tableValue[..], tl0, tv0, ml, lens, i);
        }
      }
      error := 0;
    }

    method FillShort(l: nat, reverse: nat, sym: nat) returns (error: nat, ghost taken: nat)
      requires 0 < l <= 9 && reverse < Pow2(l) && tableLen != tableValue
      requires tableLen.Length == tableValue.Length >= 512
      modifies tableLen, tableValue
      ensures error == 0 || error == 55
      ensures error == 0 ==> ShortWritten(tableLen[..], tableValue[..], old(tableLen[..]), old(tableValue[..]), l,
                                          reverse, sym)
      ensures error == 0 ==> forall i | 0 <= i < 512 && Low(i, l) == reverse :: old(tableLen[i]) == UNUSED
      ensures error != 0 ==> taken < 512 && Low(taken, l) == reverse && old(tableLen[taken]) != UNUSED
    {
      hide Low, Shr, Pow2;
      var num := Pow2(9 - l);
      assert Pow2(9) == 512 by { Pow2Values(); }
      taken := 0;
      for j := 0 to num
        invariant forall i | 0 <= i < tableLen.Length ::
                    if i < 512 && Low(i, l) == reverse && Shr(i, l) < j
                    then tableLen[i] == l && tableValue[i] == sym && old(tableLen[i]) == UNUSED
                    else tableLen[i] == old(tableLen[i]) && tableValue[i] == old(tableValue[i])
      {
        OrDisjoint(reverse, j, l);
        JoinBound(reverse, j, l, 9);
        JoinShrLow(reverse, j, l);
        var index := Or(reverse, j * Pow2(l));
        forall i: nat | Low(i, l) == reverse && Shr(i, l) == j ensures i == index { ShrLowJoin(i, l); }
        if tableLen[index] != UNUSED { return 55, index; }
        tableLen[index] := l;
        tableValue[index] := sym;
      }
      forall i: nat | i < 512 ensures Shr(i, l) < num { ShrBound(i, l, 9 - l); }
      error := 0;
    }

    method FillLong(maxlen: nat, l: nat, reverse2: nat, start: nat, sym: nat)
      requires 9 < l <= maxlen && reverse2 < Pow2(l - 9) && tableLen != tableValue
      requires tableLen.Length == tableValue.Length >= start + Pow2(maxlen - 9)
      modifies tableLen, tableValue
      ensures LongWritten(tableLen[..], tableValue[..], old(tableLen[..]), old(tableValue[..]),
                          start, Pow2(maxlen - 9), l, reverse2, sym)
    {
      hide Low, Shr, Pow2;
      var num, k := Pow2(maxlen - l), l - 9;
      ghost var size := Pow2(maxlen - 9);
      for j := 0 to num
        invariant forall i | 0 <= i < tableLen.Length ::
                    if start <= i < start + size && Low(i - start, k) == reverse2 && Shr(i - start, k) < j
                    then tableLen[i] == l && tableValue[i] == sym
                    else tableLen[i] == old(tableLen[i]) && tableValue[i] == old(tableValue[i])
      {
        OrDisjoint(reverse2, j, k);
        JoinBound(reverse2, j, k, maxlen - 9);
        JoinShrLow(reverse2, j, k);
        ghost var row := Or(reverse2, j * Pow2(k));
        forall r: nat | Low(r, k) == reverse2 && Shr(r, k) == j ensures r == row { ShrLowJoin(r, k); }
        var index2 := start + Or(reverse2, j * Pow2(k));
        tableLen[index2] := l;
        tableValue[index2] := sym;
      }
      forall r: nat | r < size ensures Shr(r, k) < num { ShrBound(r, k, maxlen - l); }
    }

    method CountPresent() returns (numpresent: nat)
      requires HasLengths()
      ensures numpresent == NumPresent(lengths[..])
    {
      numpresent := 0;
      for i := 0 to numcodes
        invariant numpresent == NumPresent(lengths[..i])
      {
        assert lengths[..i + 1][..i] == lengths[..i];
        if lengths[i] != 0 { numpresent := numpresent + 1; }
      }
      assert lengths[..numcodes] == lengths[..];
    }

    /** Reads one symbol; at least 15 bits must be available. */
    method DecodeSymbol(reader: BitIO.BitReader) returns (value: nat)
      requires Ready() && reader.Valid() && reader.avail >= 15
      modifies reader
      ensures reader.Valid() && old(reader.bp) <= reader.bp
      ensures reader.avail + (reader.bp - old(reader.bp)) == old(reader.avail)
      ensures reader.bp <= old(reader.bp) + 15
      ensures match Decode(lengths[..], Lsb(BitIO.Window(reader.Stream(), old(reader.bp), 15)))
              case Some(n) => value == n && reader.bp == old(reader.bp) + lengths[n]
              case None => value == INVALIDSYMBOL
    {
      hide Lsb, BitIO.Window, Low, Shr, Code, BitIO.BitsOf, Pow2;
      ghost var bits, p := reader.Stream(), reader.bp;
      ghost var u := Lsb(BitIO.Window(bits, p, 15));
      LsbBound(BitIO.Window(bits, p, 15));
      assert u < 0x8000 by { Pow2Values(); }
      BitIO.LsbWindowTake(bits, p, 9, 15);
      assert LookupOk(tableLen[..], tableValue[..], lengths[..], u);
      var code := reader.PeekBits(9);
      var l := tableLen[code];
      value := tableValue[code];
      if l <= 9 {
        reader.AdvanceBits(l);
      } else {
        reader.AdvanceBits(9);
        var more := reader.PeekBits(l - 9);
        BitIO.LsbWindowTake(bits, p + 9, l - 9, 6);
        var index := value + more;
        assert index == SecondIndex(tableLen[..], tableValue[..], u);
        reader.AdvanceBits(tableLen[index] - 9);
        value := tableValue[index];
      }
    }
  }

  // ---------------------------------------------------------------- helpers

  /** The completeness check of the table never rejects a code set made by package merge. */
  lemma GoodIsAcceptable(lens: seq<nat>, f: seq<nat>, maxbitlen: nat)
    requires CodeLengths.GoodLengths(lens, f, maxbitlen)
    ensures ValidLengths(lens) && Acceptable(lens) && forall i | 0 <= i < |lens| :: lens[i] <= maxbitlen
  {}

  lemma CountEmpty()
    ensures forall l: nat :: Count([], l) == 0
  {}

  lemma CountSteps(lens: seq<nat>, n: nat)
    requires n < |lens|
    ensures forall l: nat :: Count(lens[..n + 1], l) == Count(lens[..n], l) + (if lens[n] == l then 1 else 0)
  {
    forall l: nat ensures Count(lens[..n + 1], l) == Count(lens[..n], l) + (if lens[n] == l then 1 else 0) {
      CountStep(lens, n, l);
    }
  }

  lemma NextCodeZero(lens: seq<nat>)
    ensures NextCode(lens, 0) == 0
  {}

  lemma NextCodeStep(lens: seq<nat>, b: nat)
    requires b > 0
    ensures NextCode(lens, b) == 2 * (NextCode(lens, b - 1) + Count(lens, b - 1))
  {}

  lemma PointerZero(ml: seq<nat>)
    ensures Pointer(ml, 0) == 512
  {}

  lemma PointerStep(ml: seq<nat>, i: nat)
    requires i < |ml|
    ensures Pointer(ml, i + 1) == Pointer(ml, i) + (if ml[i] > 9 then Pow2(ml[i] - 9) else 0)
  {}

  lemma RevValue(lens: seq<nat>, n: nat)
    requires ValidLengths(lens) && n < |lens|
    ensures Rev(lens, n) == Lsb(ToMsb(Code(lens, n), lens[n]))
  {}

  lemma MaxLensSize(ml: seq<nat>, lens: seq<nat>)
    requires ValidLengths(lens) && MaxLens(ml, lens, |lens|)
    ensures |ml| == 512
  {}

  lemma MaxLensSkip(ml: seq<nat>, lens: seq<nat>, k: nat)
    requires ValidLengths(lens) && k < |lens| && lens[k] <= 9 && MaxLens(ml, lens, k)
    ensures MaxLens(ml, lens, k + 1)
  {
    hide Prefix9, ValidLengths;
    forall i | 0 <= i < 512 && ml[i] != 0 ensures PointsTo(lens, k + 1, i) {
      assert PointsTo(lens, k, i);
    }
  }

  lemma MaxLensStep(ml: seq<nat>, before: seq<nat>, lens: seq<nat>, k: nat)
    requires ValidLengths(lens) && k < |lens| && lens[k] > 9 && MaxLens(before, lens, k)
    requires var p := Prefix9(lens, k); ml == before[p := if before[p] > lens[k] then before[p] else lens[k]]
    ensures MaxLens(ml, lens, k + 1)
  {
    hide Prefix9;
    forall i | 0 <= i < 512 && ml[i] != 0 ensures PointsTo(lens, k + 1, i) {
      if i == Prefix9(lens, k) {
        assert lens[k] > 9 && Prefix9(lens, k) == i;
      } else {
        assert PointsTo(lens, k, i);
        var n :| 0 <= n < k && lens[n] > 9 && Prefix9(lens, n) == i;
      }
    }
  }

  /** What a long code's first-table entry holds while the table is being filled. */
  lemma LongEntry(tl: seq<nat>, tv: seq<nat>, ml: seq<nat>, lens: seq<nat>, k: nat)
    requires ValidLengths(lens) && k < |lens| && lens[k] > 9
    requires MaxLens(ml, lens, |lens|) && Filled(tl, tv, ml, lens, k)
    ensures Low(Rev(lens, k), 9) < 512 <= |tl|
    ensures var i := Low(Rev(lens, k), 9);
            && i == Prefix9(lens, k) && |ml| == 512 && tl[i] == ml[i] >= lens[k] && tv[i] == Pointer(ml, i)
            && tv[i] + Pow2(tl[i] - 9) <= |tl| == |tv|
    ensures Shr(Rev(lens, k), 9) < Pow2(lens[k] - 9)
  {
    hide Rev, Low, Shr, Pow2, Pointer;
    var i := Prefix9(lens, k);
    PointerMono(ml, i, 512);
    ShrBound(Rev(lens, k), 9, lens[k] - 9);
  }
}
