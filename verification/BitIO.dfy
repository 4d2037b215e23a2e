/** The bit writer and the bit reader of the Deflate codec, each against a plain bit sequence. */
module BitIO {
  import opened Bits

  /** The bits of a byte string, least significant bit of each byte first. */
  function BitsOf(data: seq<byte>): (s: seq<bool>)
    ensures |s| == 8 * |data|
  {
    seq(8 * |data|, i requires 0 <= i < 8 * |data| => BitAt(data[i / 8], i % 8))
  }

  /** `n` bits from position `p`, continued with zeros past the end. */
  function Window(bits: seq<bool>, p: nat, n: nat): (s: seq<bool>)
    ensures |s| == n
  {
    seq(n, i requires 0 <= i < n => p + i < |bits| && bits[p + i])
  }

  function ByteAt(data: seq<byte>, i: nat): (b: nat)
    ensures b < 256
  {
    if i < |data| then data[i] else 0
  }

  // ---------------------------------------------------------------- windows

  lemma WindowSplit(bits: seq<bool>, p: nat, m: nat, n: nat)
    ensures Window(bits, p, m + n) == Window(bits, p, m) + Window(bits, p + m, n)
  {}

  lemma WindowInside(bits: seq<bool>, p: nat, n: nat)
    requires p + n <= |bits|
    ensures Window(bits, p, n) == bits[p..p + n]
  {}

  lemma LsbWindowTake(bits: seq<bool>, p: nat, m: nat, n: nat)
    requires m <= n
    ensures Low(Lsb(Window(bits, p, n)), m) == Lsb(Window(bits, p, m))
    ensures Shr(Lsb(Window(bits, p, n)), m) == Lsb(Window(bits, p + m, n - m))
  {
    hide Lsb;
    WindowSplit(bits, p, m, n - m);
    LsbSplit(Window(bits, p, n), m);
    assert Window(bits, p, n)[..m] == Window(bits, p, m);
    assert Window(bits, p, n)[m..] == Window(bits, p + m, n - m);
  }

  /** Reading a whole byte reads eight bits least significant first. */
  lemma LsbOfByte(data: seq<byte>, i: nat)
    ensures Lsb(Window(BitsOf(data), 8 * i, 8)) == ByteAt(data, i)
  {
    var w, b := Window(BitsOf(data), 8 * i, 8), ByteAt(data, i);
    forall k | 0 <= k < |w| ensures w[k] == BitAt(b, k) {
      assert (8 * i + k) / 8 == i && (8 * i + k) % 8 == k;
      if i >= |data| { DivModUnique(0, Pow2(k), 0, 0); }
    }
    Pow2Values();
    LsbFromBits(w, b);
  }

  lemma LsbOfByteThen(data: seq<byte>, i: nat, n: nat)
    ensures Lsb(Window(BitsOf(data), 8 * i, 8 + n)) == ByteAt(data, i) + 256 * Lsb(Window(BitsOf(data), 8 * (i + 1), n))
  {
    LsbWindowTake(BitsOf(data), 8 * i, 8, 8 + n);
    LsbOfByte(data, i);
    assert Pow2(8) == 256 by { Pow2Values(); }
    assert 8 * i + 8 == 8 * (i + 1);
  }

  lemma LsbOfBytes(data: seq<byte>, i: nat)
    ensures Lsb(Window(BitsOf(data), 8 * i, 16)) == ByteAt(data, i) + 0x100 * ByteAt(data, i + 1)
    ensures Lsb(Window(BitsOf(data), 8 * i, 24))
         == ByteAt(data, i) + 0x100 * ByteAt(data, i + 1) + 0x1_0000 * ByteAt(data, i + 2)
    ensures Lsb(Window(BitsOf(data), 8 * i, 32))
         == ByteAt(data, i) + 0x100 * ByteAt(data, i + 1) + 0x1_0000 * ByteAt(data, i + 2)
          + 0x100_0000 * ByteAt(data, i + 3)
  {
    LsbOfByteThen(data, i, 8); LsbOfByteThen(data, i, 16); LsbOfByteThen(data, i, 24);
    LsbOfByteThen(data, i + 1, 8); LsbOfByteThen(data, i + 1, 16);
    LsbOfByteThen(data, i + 2, 8);
    LsbOfByte(data, i + 1); LsbOfByte(data, i + 2); LsbOfByte(data, i + 3);
  }

  /** Little-endian assembly with shifts and ORs. */
  lemma OrBytes(a: byte, b: byte, c: byte, d: byte)
    ensures Or(0, a) == a
    ensures Or(a, b * 0x100) == a + 0x100 * b
    ensures Or(a + 0x100 * b, c * 0x1_0000) == a + 0x100 * b + 0x1_0000 * c
    ensures Or(a + 0x100 * b + 0x1_0000 * c, d * 0x100_0000) == a + 0x100 * b + 0x1_0000 * c + 0x100_0000 * d
  {
    Pow2Values();
    OrDisjoint(a, b, 8);
    OrDisjoint(a + 0x100 * b, c, 16);
    OrDisjoint(a + 0x100 * b + 0x1_0000 * c, d, 24);
  }

  /** OR-ing one bit above the bits already in a byte. */
  lemma SetBit(b: byte, k: nat, bit: bool) returns (b': byte)
    requires k < 8 && b < Pow2(k)
    ensures b' == Or(b, Bit(bit) * Pow2(k))
    ensures forall j | 0 <= j < 8 :: BitAt(b', j) == (if j == k then bit else BitAt(b, j))
  {
    hide BitAt, Or, Pow2;
    OrDisjoint(b, Bit(bit), k);
    Pow2Mono(k + 1, 8);
    assert Pow2(8) == 256 && Pow2(1) == 2 by { Pow2Values(); }
    Pow2Add(k, 1);
    if bit {
      b' := b + Pow2(k);
      forall j | 0 <= j < 8 ensures BitAt(b', j) == (j == k || BitAt(b, j)) { SetBitAt(b, k, j); }
    } else {
      b' := b;
      SetBitAtHigh(b, k, k);
    }
  }

  lemma SetBitAt(b: nat, k: nat, j: nat)
    requires b < Pow2(k)
    ensures BitAt(b + Pow2(k), j) == (j == k || BitAt(b, j))
  {
    hide Pow2;
    if j < k {
      assert Pow2(1) == 2 by { Pow2Values(); }
      Pow2Add(1, k - j - 1);
      Pow2Add(j, k - j);
      AddEvenMultiple(b, Pow2(k), Pow2(j), Pow2(k - j - 1));
    } else {
      SetBitAtHigh(b, k, j);
    }
  }

  lemma AddEvenMultiple(b: nat, m: nat, p: nat, e: nat)
    requires p > 0 && m == p * (2 * e)
    ensures ((b + m) / p) % 2 == (b / p) % 2
  {
    var q, r := b / p, b % p;
    assert (q + 2 * e) * p == q * p + p * (2 * e);
    DivModUnique(b + m, p, q + 2 * e, r);
  }

  lemma SetBitAtHigh(b: nat, k: nat, j: nat)
    requires b < Pow2(k) && j >= k
    ensures BitAt(b + Pow2(k), j) == (j == k) && !BitAt(b, j)
  {
    hide Pow2;
    Pow2Mono(k, j);
    DivModUnique(b, Pow2(j), 0, b);
    if j == k {
      DivModUnique(b + Pow2(k), Pow2(k), 1, b);
    } else {
      Pow2Mono(k + 1, j);
      assert Pow2(k + 1) == Pow2(k) + Pow2(k) by { Pow2Add(k, 1); Pow2Values(); }
      DivModUnique(b + Pow2(k), Pow2(j), 0, b + Pow2(k));
    }
  }

  /** Bits above the highest set one are clear. */
  lemma HighBitsClear(b: byte, k: nat)
    requires k < 8
    requires forall j | k <= j < 8 :: !BitAt(b, j)
    ensures b < Pow2(k)
  {
    Pow2Values();
    Pow2Mono(k, 8);
    if b >= Pow2(k) {
      var j := TopBit(b);
      if j < k { Pow2Mono(j + 1, k); }
      if j >= 8 { Pow2Mono(8, j); }
      DivModUnique(b, Pow2(j), 1, b - Pow2(j));
      assert BitAt(b, j);
    }
  }

  lemma TopBit(b: nat) returns (j: nat)
    requires b > 0
    ensures Pow2(j) <= b < Pow2(j + 1)
  {
    if b == 1 { j := 0; } else { var i := TopBit(b / 2); j := i + 1; }
  }

  // ---------------------------------------------------------------- the writer

  /** `data` holds `bits` followed by clear padding. */
  ghost predicate Holds(data: seq<byte>, bits: seq<bool>) {
    8 * |data| >= |bits| && BitsOf(data) == Window(bits, 0, 8 * |data|)
  }

  lemma AppendZeroByte(data: seq<byte>, bits: seq<bool>)
    requires Holds(data, bits) && |bits| % 8 == 0 && |data| == |bits| / 8
    ensures Holds(data + [0], bits)
  {
    forall i | 0 <= i < 8 * |data| + 8
      ensures BitsOf(data + [0])[i] == Window(bits, 0, 8 * |data| + 8)[i]
    {
      if i < 8 * |data| {
        assert BitsOf(data + [0])[i] == BitsOf(data)[i];
        assert BitsOf(data)[i] == Window(bits, 0, 8 * |data|)[i];
      } else {
        DivModUnique(0, Pow2(i % 8), 0, 0);
      }
    }
  }

  lemma NextPosition(bp: byte, n: nat)
    requires bp % 8 == n % 8
    ensures (bp + 1) % 256 % 8 == (n + 1) % 8
    ensures (n + 1 + 7) / 8 == n / 8 + 1 && (n + 7) / 8 == (if bp % 8 == 0 then n / 8 else n / 8 + 1)
  {}

  lemma LastByteFits(data: seq<byte>, bits: seq<bool>)
    requires Holds(data, bits) && |data| == |bits| / 8 + 1
    ensures data[|data| - 1] < Pow2(|bits| % 8)
  {
    hide Pow2;
    var last := |data| - 1;
    forall j | |bits| % 8 <= j < 8 ensures !BitAt(data[last], j) {
      var i := 8 * last + j;
      assert i / 8 == last && i % 8 == j;
      assert BitsOf(data)[i] == BitAt(data[i / 8], i % 8);
      assert !Window(bits, 0, 8 * |data|)[i];
    }
    HighBitsClear(data[last], |bits| % 8);
  }

  lemma SetBitInLast(data: seq<byte>, bits: seq<bool>, bit: bool)
    requires Holds(data, bits) && |data| == |bits| / 8 + 1
    requires data[|data| - 1] < Pow2(|bits| % 8)
    ensures Or(data[|data| - 1], Bit(bit) * Pow2(|bits| % 8)) < 256
    ensures Holds(data[|data| - 1 := Or(data[|data| - 1], Bit(bit) * Pow2(|bits| % 8))], bits + [bit])
  {
    hide Pow2, Or, BitAt, BitsOf, Window;
    var last, k := |data| - 1, |bits| % 8;
    var b' := SetBit(data[last], k, bit);
    forall i | 0 <= i < 8 * |data|
      ensures BitsOf(data[last := b'])[i] == Window(bits + [bit], 0, 8 * |data|)[i]
    {
      SetBitPlace(data, bits, bit, b', i);
    }
  }

  lemma SetBitPlace(data: seq<byte>, bits: seq<bool>, bit: bool, b': byte, i: nat)
    requires Holds(data, bits) && |data| == |bits| / 8 + 1 && i < 8 * |data|
    requires forall j | 0 <= j < 8 :: BitAt(b', j) == if j == |bits| % 8 then bit else BitAt(data[|data| - 1], j)
    ensures BitsOf(data[|data| - 1 := b'])[i] == Window(bits + [bit], 0, 8 * |data|)[i]
  {
    hide BitAt, BitsOf;
    var q, r := i / 8, i % 8;
    assert i == 8 * q + r && q <= |data| - 1;
    assert BitsOf(data)[i] == Window(bits, 0, 8 * |data|)[i];
    BitsOfAt(data, i);
    BitsOfAt(data[|data| - 1 := b'], i);
  }

  lemma BitsOfAt(data: seq<byte>, i: nat)
    requires i < 8 * |data|
    ensures BitsOf(data)[i] == BitAt(data[i / 8], i % 8)
  {}

  /** `LodePNGBitWriter` together with the byte vector it appends to. */
  class BitWriter {
    var data: seq<byte>
    var bp: byte  // an unsigned char: allowed to wrap, only its low three bits are used
    ghost var bits: seq<bool>

    ghost predicate Valid()
      reads this
    {
      && bp % 8 == |bits| % 8
      && |data| == (|bits| + 7) / 8
      && Holds(data, bits)
    }

    constructor (out: seq<byte>)
      ensures Valid() && data == out && bits == BitsOf(out)
    {
      data := out;
      bp := 0;
      bits := BitsOf(out);
    }

    method WriteBit(bit: bool)
      requires Valid()
      modifies this
      ensures Valid() && bits == old(bits) + [bit]
    {
      hide Pow2, Or, Holds;
      NextPosition(bp, |bits|);
      if bp % 8 == 0 {
        AppendZeroByte(data, bits);
        data := data + [0];
      }
      var k: nat := bp % 8;
      LastByteFits(data, bits);
      SetBitInLast(data, bits, bit);
      data := data[|data| - 1 := Or(data[|data| - 1], Bit(bit) * Pow2(k))];
      bp := (bp + 1) % 256;
      bits := bits + [bit];
    }

    /** Least significant bit of `value` first. */
    method WriteBits(value: nat, nbits: nat)
      requires Valid()
      requires nbits == 1 ==> value < 2
      modifies this
      ensures Valid() && bits == old(bits) + ToLsb(value, nbits)
    {
      if nbits == 1 {
        assert ToLsb(value, 1) == [value == 1];
        WriteBit(value == 1);
      } else {
        hide Holds, Shr, Pow2;
        for i := 0 to nbits
          invariant Valid() && bits == old(bits) + ToLsb(value, nbits)[..i]
        {
          ToLsbAt(value, nbits, i);
          WriteBit(Shr(value, i) % 2 == 1);
          assert ToLsb(value, nbits)[..i + 1] == ToLsb(value, nbits)[..i] + [ToLsb(value, nbits)[i]];
        }
      }
    }

    /** Most significant bit of `value` first: the order of Huffman codes. */
    method WriteBitsReversed(value: nat, nbits: nat)
      requires Valid()
      modifies this
      ensures Valid() && bits == old(bits) + ToMsb(value, nbits)
    {
      hide Holds, Shr, Pow2;
      for i := 0 to nbits
        invariant Valid() && bits == old(bits) + ToMsb(value, nbits)[..i]
      {
        ToMsbAt(value, nbits, i);
        WriteBit(Shr(value, nbits - 1 - i) % 2 == 1);
        assert ToMsb(value, nbits)[..i + 1] == ToMsb(value, nbits)[..i] + [ToMsb(value, nbits)[i]];
      }
    }
  }

  // ---------------------------------------------------------------- the reader

  /** `LodePNGBitReader`. The 32-bit `buffer` holds the next bits; `avail` of them are exact. */
  class BitReader {
    const data: seq<byte>
    const bitsize: nat
    var bp: nat
    var buffer: nat
    ghost var avail: nat

    ghost function Stream(): seq<bool> {
      BitsOf(data)
    }

    ghost predicate Valid()
      reads this
    {
      && bitsize == 8 * |data|
      && Low(buffer, avail) == Lsb(Window(Stream(), bp, avail))
    }

    constructor (data: seq<byte>)
      ensures Valid() && this.data == data && bp == 0
    {
      this.data := data;
      this.bitsize := 8 * |data|;
      bp := 0;
      buffer := 0;
      avail := 0;
    }

    /** Makes 9 bits available. */
    method EnsureBits9()
      requires Valid()
      modifies this
      ensures Valid() && bp == old(bp) && avail >= 9
    {
      hide Pow2, Lsb, Or, BitsOf, Window, Shl32, Shr, Low;
      var start := bp / 8;
      if start + 1 < |data| {
        buffer := Or(data[start], (data[start + 1] as int) * 0x100);
        OrBytes(data[start], data[start + 1], 0, 0);
      } else {
        buffer := 0;
        if start < |data| { buffer := data[start]; }
      }
      Refill(data, bp, buffer, 16);
      buffer := Shr(buffer, bp % 8);
      avail := 16 - bp % 8;
    }

    /** Makes 17 bits available. */
    method EnsureBits17()
      requires Valid()
      modifies this
      ensures Valid() && bp == old(bp) && avail >= 17
    {
      hide Pow2, Lsb, Or, BitsOf, Window, Shl32, Shr, Low;
      var start := bp / 8;
      if start + 2 < |data| {
        OrBytes(data[start], data[start + 1], data[start + 2], 0);
        buffer := Or(Or(data[start], (data[start + 1] as int) * 0x100), (data[start + 2] as int) * 0x1_0000);
      } else {
        buffer := 0;
        if start < |data| { OrBytes(data[start], 0, 0, 0); buffer := Or(buffer, data[start]); }
        assert buffer == ByteAt(data, start);
        if start + 1 < |data| {
          OrBytes(data[start], data[start + 1], 0, 0);
          buffer := Or(buffer, (data[start + 1] as int) * 0x100);
        }
        assert buffer == ByteAt(data, start) + 0x100 * ByteAt(data, start + 1);
      }
      Refill(data, bp, buffer, 24);
      buffer := Shr(buffer, bp % 8);
      avail := 24 - bp % 8;
    }

    /** Makes 25 bits available. */
    method EnsureBits25()
      requires Valid()
      modifies this
      ensures Valid() && bp == old(bp) && avail >= 25
    {
      hide Pow2, Lsb, Or, BitsOf, Window, Shl32, Shr, Low;
      var start := bp / 8;
      if start + 3 < |data| {
        OrBytes(data[start], data[start + 1], data[start + 2], data[start + 3]);
        buffer := Or(Or(Or(data[start], (data[start + 1] as int) * 0x100), (data[start + 2] as int) * 0x1_0000),
                     (data[start + 3] as int) * 0x100_0000);
      } else {
        buffer := 0;
        if start < |data| { OrBytes(data[start], 0, 0, 0); buffer := Or(buffer, data[start]); }
        assert buffer == ByteAt(data, start);
        if start + 1 < |data| {
          OrBytes(data[start], data[start + 1], 0, 0);
          buffer := Or(buffer, (data[start + 1] as int) * 0x100);
        }
        assert buffer == ByteAt(data, start) + 0x100 * ByteAt(data, start + 1);
        if start + 2 < |data| {
          OrBytes(data[start], data[start + 1], data[start + 2], 0);
          buffer := Or(buffer, (data[start + 2] as int) * 0x1_0000);
        }
        assert buffer == ByteAt(data, start) + 0x100 * ByteAt(data, start + 1) + 0x1_0000 * ByteAt(data, start + 2);
      }
      Refill(data, bp, buffer, 32);
      buffer := Shr(buffer, bp % 8);
      avail := 32 - bp % 8;
    }

    /** Makes 32 bits available. */
    method EnsureBits32()
      requires Valid()
      modifies this
      ensures Valid() && bp == old(bp) && avail == 32
    {
      if bp / 8 + 4 < |data| {
        FillFromFive();
      } else {
        FillAtEnd();
      }
    }

    /** The fifth byte is shifted left past bit 31, where its upper bits fall off. */
    method FillFromFive()
      requires Valid() && bp / 8 + 4 < |data|
      modifies this
      ensures Valid() && bp == old(bp) && avail == 32
    {
      hide Pow2, Lsb, Or, BitsOf, Window, Shl32, Shr, Low;
      var start := bp / 8;
      OrBytes(data[start], data[start + 1], data[start + 2], data[start + 3]);
      buffer := Or(Or(Or(data[start], (data[start + 1] as int) * 0x100), (data[start + 2] as int) * 0x1_0000),
                   (data[start + 3] as int) * 0x100_0000);
      ghost var four := buffer;
      buffer := Shr(buffer, bp % 8);
      ghost var low := buffer;
      buffer := Or(buffer, Shl32((data[start + 4] as int) * 0x100_0000, 8 - bp % 8));
      RefillFive(data, bp, four, low, buffer);
      avail := 32;
    }

    method FillAtEnd()
      requires Valid() && bp / 8 + 4 >= |data|
      modifies this
      ensures Valid() && bp == old(bp) && avail == 32
    {
      hide Pow2, Lsb, Or, BitsOf, Window, Shl32, Shr, Low;
      var start := bp / 8;
      buffer := 0;
      if start < |data| { OrBytes(data[start], 0, 0, 0); buffer := Or(buffer, data[start]); }
      assert buffer == ByteAt(data, start);
      if start + 1 < |data| {
        OrBytes(data[start], data[start + 1], 0, 0);
        buffer := Or(buffer, (data[start + 1] as int) * 0x100);
      }
      assert buffer == ByteAt(data, start) + 0x100 * ByteAt(data, start + 1);
      if start + 2 < |data| {
        OrBytes(data[start], data[start + 1], data[start + 2], 0);
        buffer := Or(buffer, (data[start + 2] as int) * 0x1_0000);
      }
      assert buffer == ByteAt(data, start) + 0x100 * ByteAt(data, start + 1) + 0x1_0000 * ByteAt(data, start + 2);
      if start + 3 < |data| {
        OrBytes(data[start], data[start + 1], data[start + 2], data[start + 3]);
        buffer := Or(buffer, (data[start + 3] as int) * 0x100_0000);
      }
      RefillAtEnd(data, bp, buffer);
      buffer := Shr(buffer, bp % 8);
      avail := 32;
    }

    /** The next bits, without consuming them. */
    method PeekBits(nbits: nat) returns (r: nat)
      requires Valid() && nbits <= avail
      ensures r == Lsb(Window(Stream(), bp, nbits)) < Pow2(nbits)
    {
      hide Pow2, Lsb, BitsOf, Window, Shr, Low;
      BufferSplit(Stream(), bp, buffer, nbits, avail);
      r := Low(buffer, nbits);
    }

    method AdvanceBits(nbits: nat)
      requires Valid() && nbits <= avail
      modifies this
      ensures Valid() && bp == old(bp) + nbits && avail == old(avail) - nbits
    {
      hide Pow2, Lsb, BitsOf, Window, Shr, Low;
      BufferSplit(Stream(), bp, buffer, nbits, avail);
      buffer := Shr(buffer, nbits);
      bp := bp + nbits;
      avail := avail - nbits;
    }

    /** Moves on without using the buffer. */
    method SkipTo(position: nat)
      requires Valid()
      modifies this
      ensures Valid() && bp == position && avail == 0
    {
      bp := position;
      avail := 0;
    }

    method ReadBits(nbits: nat) returns (r: nat)
      requires Valid() && nbits <= avail
      modifies this
      ensures Valid() && bp == old(bp) + nbits && avail == old(avail) - nbits
      ensures r == Lsb(Window(Stream(), old(bp), nbits)) < Pow2(nbits)
    {
      r := PeekBits(nbits);
      AdvanceBits(nbits);
    }
  }

  lemma BufferSplit(bits: seq<bool>, bp: nat, buffer: nat, n: nat, avail: nat)
    requires n <= avail && Low(buffer, avail) == Lsb(Window(bits, bp, avail))
    ensures Low(buffer, n) == Lsb(Window(bits, bp, n)) < Pow2(n)
    ensures Low(Shr(buffer, n), avail - n) == Lsb(Window(bits, bp + n, avail - n))
  {
    ShrLow(buffer, n, avail);
    LsbWindowTake(bits, bp, n, avail);
  }

  /** A buffer holding `n` exact bits from the byte boundary is exact for `n - bp % 8` bits from `bp`. */
  lemma RefillFrom(data: seq<byte>, bp: nat, buffer: nat, n: nat)
    requires n >= 8
    requires buffer == Lsb(Window(BitsOf(data), bp - bp % 8, n))
    ensures Shr(buffer, bp % 8) == Lsb(Window(BitsOf(data), bp, n - bp % 8)) < Pow2(n - bp % 8)
    ensures Low(Shr(buffer, bp % 8), n - bp % 8) == Lsb(Window(BitsOf(data), bp, n - bp % 8))
  {
    hide Lsb, BitsOf, Window, Pow2, Shr, Low;
    var k := bp % 8;
    LsbWindowTake(BitsOf(data), bp - k, k, n);
    LsbBound(Window(BitsOf(data), bp, n - k));
    LowNoop(Shr(buffer, k), n - k);
  }

  lemma Refill(data: seq<byte>, bp: nat, buffer: nat, n: nat)
    requires n == 16 || n == 24 || n == 32
    requires var i := bp / 8;
             buffer == ByteAt(data, i) + 0x100 * ByteAt(data, i + 1)
                     + (if n >= 24 then 0x1_0000 * ByteAt(data, i + 2) else 0)
                     + (if n >= 32 then 0x100_0000 * ByteAt(data, i + 3) else 0)
    ensures Shr(buffer, bp % 8) == Lsb(Window(BitsOf(data), bp, n - bp % 8)) < Pow2(n - bp % 8)
    ensures Low(Shr(buffer, bp % 8), n - bp % 8) == Lsb(Window(BitsOf(data), bp, n - bp % 8))
  {
    LsbOfBytes(data, bp / 8);
    assert bp - bp % 8 == 8 * (bp / 8);
    RefillFrom(data, bp, buffer, n);
  }

  /** Past the last byte every bit reads as zero, so the four bytes give all 32 bits. */
  lemma RefillAtEnd(data: seq<byte>, bp: nat, buffer: nat)
    requires bp / 8 + 4 >= |data|
    requires var i := bp / 8;
             buffer == ByteAt(data, i) + 0x100 * ByteAt(data, i + 1)
                     + 0x1_0000 * ByteAt(data, i + 2) + 0x100_0000 * ByteAt(data, i + 3)
    ensures Low(Shr(buffer, bp % 8), 32) == Lsb(Window(BitsOf(data), bp, 32))
  {
    hide Pow2, Lsb, BitsOf, Shr;
    var bits, k := BitsOf(data), bp % 8;
    Refill(data, bp, buffer, 32);
    WindowSplit(bits, bp, 32 - k, k);
    assert Window(bits, bp + (32 - k), k) == Zeros(k);
    LsbZeros(k);
    LsbConcat(Window(bits, bp, 32 - k), Zeros(k));
    Pow2Mono(32 - k, 32);
    LowNoop(Shr(buffer, k), 32);
  }

  lemma RefillFive(data: seq<byte>, bp: nat, four: nat, low: nat, buffer: nat)
    requires bp / 8 + 4 < |data|
    requires var i := bp / 8;
             four == ByteAt(data, i) + 0x100 * ByteAt(data, i + 1)
                   + 0x1_0000 * ByteAt(data, i + 2) + 0x100_0000 * ByteAt(data, i + 3)
    requires low == Shr(four, bp % 8)
    requires buffer == Or(low, Shl32((data[bp / 8 + 4] as int) * 0x100_0000, 8 - bp % 8))
    ensures Low(buffer, 32) == Lsb(Window(BitsOf(data), bp, 32))
  {
    hide Pow2, Lsb, BitsOf, Window, Or, Shl32, Shr;
    Refill(data, bp, four, 32);
    FifthByte(data, bp, low, buffer);
  }

  lemma FifthByte(data: seq<byte>, bp: nat, low: nat, buffer: nat)
    requires bp / 8 + 4 < |data|
    requires low == Lsb(Window(BitsOf(data), bp, 32 - bp % 8)) < Pow2(32 - bp % 8)
    requires buffer == Or(low, Shl32((data[bp / 8 + 4] as int) * 0x100_0000, 8 - bp % 8))
    ensures Low(buffer, 32) == Lsb(Window(BitsOf(data), bp, 32))
  {
    hide Pow2, Lsb, BitsOf, Or, Shl32, Shr, Window;
    var bits, k, d := BitsOf(data), bp % 8, data[bp / 8 + 4];
    // the bits of the fifth byte that stay below bit 32 are its k low bits
    Shl32Byte(d, k);
    OrDisjoint(low, Low(d, k), 32 - k);
    WindowSplit(bits, bp, 32 - k, k);
    LsbConcat(Window(bits, bp, 32 - k), Window(bits, bp + (32 - k), k));
    assert bp + (32 - k) == 8 * (bp / 8 + 4);
    LsbOfByte(data, bp / 8 + 4);
    LsbWindowTake(bits, 8 * (bp / 8 + 4), k, 8);
    LsbBound(Window(bits, bp, 32));
    LowNoop(buffer, 32);
  }
}
