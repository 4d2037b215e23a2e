/** `encodeLZ77`: hash chains in a circular window, a second chain for runs of zeros, lazy matching.

    Slot `w` of the window stands for the last updated position that is `w` modulo the window
    size. The matcher compares bytes, so a stale chain can only cost compression; the one thing
    it takes on trust is the stored length of a run of zeros, which it skips without looking. */
module Lz77 {
  import opened Bits
  import opened Tokens

  const HASHVALUES: nat := 65536

  /** `z` zero bytes stand at position `p`. */
  ghost predicate ZerosAt(data: seq<byte>, p: int, z: nat) {
    z > 0 ==> 0 <= p && p + z <= |data| && forall j | p <= j < p + z :: data[j] == 0
  }

  /** The slot of a position. */
  ghost function Slot(pos: nat, size: nat): (w: nat)
    requires size > 0
    ensures w < size && w <= pos
  {
    SlotOfPosition(pos, size);
    pos % size
  }

  /** `windowsize & (windowsize - 1)` is zero: then `pos & (windowsize - 1)` is the slot. */
  lemma MaskIsSlot(pos: nat, size: nat)
    requires size > 0 && And(size, size - 1) == 0
    ensures And(pos, size - 1) == Slot(pos, size)
  {
    var k := PowerOfTwoTest(size);
    AndMask(pos, k);
  }

  /** The position slot `w` stands for once positions below `v` have been updated. */
  function SlotPosition(w: nat, v: nat, size: nat): int
    requires w < size && w < v
  {
    v - 1 - (v - 1 - w) % size
  }

  lemma SlotPositionFacts(w: nat, v: nat, size: nat)
    requires w < size && w < v
    ensures 0 <= SlotPosition(w, v, size) < v
    ensures v - size <= SlotPosition(w, v, size)
  {
    var m := v - 1 - w;
    var q, r := m / size, m % size;
    assert m == q * size + r;
    assert r <= m by { assert q >= 0; MulNonNegative(q, size); }
  }

  /** Updating position `v` leaves the other slots where they were. */
  lemma SlotPositionStep(w: nat, v: nat, size: nat)
    requires w < size
    ensures v % size == w ==> w < v + 1 && SlotPosition(w, v + 1, size) == v
    ensures v % size != w && w < v ==> SlotPosition(w, v + 1, size) == SlotPosition(w, v, size)
    ensures v % size != w ==> w != v
  {
    if v < size { DivModUnique(v, size, 0, v); }
    if v % size == w {
      var q := v / size;
      assert v == q * size + w;
      assert w <= v by { assert q >= 0; MulNonNegative(q, size); }
      DivModUnique(v - w, size, q, 0);
    } else if w < v {
      var m := v - 1 - w;
      var q, r := m / size, m % size;
      assert m == q * size + r;
      if r == size - 1 {
        assert v == w + (q + 1) * size by { MulDistribute(q, 1, size); }
        DivModUnique(v, size, q + 1, w);
      } else {
        DivModUnique(v - w, size, q, r + 1);
      }
    }
  }

  /** The circular distance from the slot of `pos` back to slot `w` leads to the position of `w`. */
  lemma CircularDistance(w: nat, pos: nat, size: nat)
    requires w < size && w <= pos
    ensures var wpos := pos % size;
            var offset := if w <= wpos then wpos - w else wpos - w + size;
            0 <= offset < size && pos - offset == SlotPosition(w, pos + 1, size)
  {
    var q, wpos := pos / size, pos % size;
    assert pos == q * size + wpos;
    if w <= wpos {
      DivModUnique(pos - w, size, q, wpos - w);
    } else {
      assert (q - 1) * size == q * size - size by { MulDistribute(q, -1, size); }
      DivModUnique(pos - w, size, q - 1, wpos - w + size);
    }
  }

  // ---------------------------------------------------------------- the tables

  /** Heads are unset or name an updated slot. */
  ghost predicate HeadsOk(head: seq<int>, v: nat, size: nat) {
    forall h | 0 <= h < |head| && head[h] != -1 :: 0 <= head[h] < size && head[h] < v
  }

  /** A chain entry of an updated slot names an updated slot; other slots still name themselves. */
  ghost predicate ChainOk(chain: seq<nat>, v: nat, size: nat) {
    |chain| == size && forall w | 0 <= w < size :: chain[w] < size && (chain[w] < v || chain[w] == w)
  }

  ghost predicate ZerosOk(zeros: seq<nat>, v: nat, size: nat, data: seq<byte>) {
    |zeros| == size && forall w | 0 <= w < size && w < v :: ZerosAt(data, SlotPosition(w, v, size), zeros[w])
  }

  lemma ZerosStep(zeros: seq<nat>, v: nat, size: nat, data: seq<byte>, z: nat)
    requires size > 0 && ZerosOk(zeros, v, size, data) && ZerosAt(data, v, z)
    ensures ZerosOk(zeros[Slot(v, size) := z], v + 1, size, data)
  {
    var zeros' := zeros[v % size := z];
    forall w | 0 <= w < size && w < v + 1 ensures ZerosAt(data, SlotPosition(w, v + 1, size), zeros'[w]) {
      SlotPositionStep(w, v, size);
    }
  }

  /** Updating the newest position a second time. */
  lemma ZerosAgain(zeros: seq<nat>, v: nat, size: nat, data: seq<byte>, z: nat)
    requires size > 0 && ZerosOk(zeros, v + 1, size, data) && ZerosAt(data, v, z)
    ensures ZerosOk(zeros[Slot(v, size) := z], v + 1, size, data)
  {
    SlotPositionStep(v % size, v, size);
  }

  class Hash {
    const size: nat
    const head: array<int>
    const chain: array<nat>
    const val: array<int>
    const headz: array<int>
    const chainz: array<nat>
    const zeros: array<nat>

    /** The tables describe positions below `v` of `data`. */
    ghost predicate Valid(v: nat, data: seq<byte>)
      reads this, head, chain, val, headz, chainz, zeros
    {
      && size > 0 && head != val && head != headz && val != headz && chain != chainz && chain != zeros
          && chainz != zeros
      && head.Length == HASHVALUES && headz.Length == MAXLENGTH + 1
      && val.Length == size
      && HeadsOk(head[..], v, size) && HeadsOk(headz[..], v, size)
      && ChainOk(chain[..], v, size) && ChainOk(chainz[..], v, size)
      && ZerosOk(zeros[..], v, size, data)
    }

    /** hash_init */
    constructor (windowsize: nat)
      ensures size == windowsize && (size > 0 ==> forall data :: Valid(0, data))
      ensures fresh(head) && fresh(chain) && fresh(val) && fresh(headz) && fresh(chainz) && fresh(zeros)
    {
      size := windowsize;
      head := new int[HASHVALUES](_ => -1);
      val := new int[windowsize](_ => -1);
      chain := new nat[windowsize](i => i);
      zeros := new nat[windowsize];
      headz := new int[MAXLENGTH + 1](_ => -1);
      chainz := new nat[windowsize](i => i);
    }

    /** updateHashChain, for the next position `pos`, or once more for the newest one. */
    method UpdateChain(pos: nat, wpos: nat, hashval: nat, numzeros: nat, ghost v: nat, ghost data: seq<byte>)
      requires Valid(v, data) && (v == pos || v == pos + 1) && wpos == Slot(pos, size)
      requires hashval < HASHVALUES && numzeros <= MAXLENGTH && ZerosAt(data, pos, numzeros)
      modifies head, chain, val, headz, chainz, zeros
      ensures Valid(pos + 1, data)
      ensures head[..] == old(head[..])[hashval := wpos]
      ensures chain[..] == Chained(old(head[..]), old(chain[..]), hashval, wpos)
      ensures headz[..] == old(headz[..])[numzeros := wpos]
      ensures chainz[..] == Chained(old(headz[..]), old(chainz[..]), numzeros, wpos)
      ensures val[..] == old(val[..])[wpos := hashval] && zeros[..] == old(zeros[..])[wpos := numzeros]
    {
      hide ZerosAt, SlotPosition, ZerosOk, HeadsOk, ChainOk, Slot;
      ghost var head0, chain0, headz0, chainz0, zeros0 := head[..], chain[..], headz[..], chainz[..], zeros[..];
      ghost var val0 := val[..];
      TablesStep(head0, chain0, headz0, chainz0, zeros0, v, pos, size, data, hashval, numzeros);
      val[wpos] := hashval;
      if head[hashval] != -1 { chain[wpos] := head[hashval]; }
      head[hashval] := wpos;
      assert head[..] == head0[hashval := wpos];
      assert chain[..] == Chained(head0, chain0, hashval, wpos);
      zeros[wpos] := numzeros;
      if headz[numzeros] != -1 { chainz[wpos] := headz[numzeros]; }
      headz[numzeros] := wpos;
      assert headz[..] == headz0[numzeros := wpos];
      assert chainz[..] == Chained(headz0, chainz0, numzeros, wpos);
      assert zeros[..] == zeros0[wpos := numzeros] && val[..] == val0[wpos := hashval];
    }

    method ForgetHeads(hashval: nat, numzeros: nat, ghost v: nat, ghost data: seq<byte>)
      requires Valid(v, data) && hashval < HASHVALUES && numzeros <= MAXLENGTH
      modifies head, headz
      ensures Valid(v, data)
    {
      hide ZerosOk;
      head[hashval] := -1;
      headz[numzeros] := -1;
    }
  }

  /** The slot points to where its head pointed, if it did. */
  function Chained(head: seq<int>, chain: seq<nat>, key: nat, w: nat): (c: seq<nat>)
    requires key < |head| && head[key] >= -1 && w < |chain|
    ensures |c| == |chain|
  {
    if head[key] != -1 then chain[w := head[key]] else chain
  }

  lemma TableStep(head: seq<int>, chain: seq<nat>, v: nat, pos: nat, size: nat, key: nat)
    requires HeadsOk(head, v, size) && ChainOk(chain, v, size) && (v == pos || v == pos + 1) && size > 0 && key < |head|
    ensures Slot(pos, size) < |chain| && head[key] >= -1
    ensures HeadsOk(head[key := Slot(pos, size)], pos + 1, size)
    ensures ChainOk(Chained(head, chain, key, Slot(pos, size)), pos + 1, size)
  {
    hide Slot;
  }

  lemma TablesStep(head: seq<int>, chain: seq<nat>, headz: seq<int>, chainz: seq<nat>, zeros: seq<nat>, v: nat,
                   pos: nat, size: nat, data: seq<byte>, key: nat, z: nat)
    requires size > 0 && (v == pos || v == pos + 1) && key < |head| && z < |headz| && ZerosAt(data, pos, z)
    requires HeadsOk(head, v, size) && HeadsOk(headz, v, size) && ChainOk(chain, v, size) && ChainOk(chainz, v, size)
    requires ZerosOk(zeros, v, size, data)
    ensures var w := Slot(pos, size);
            && |chain| == |chainz| == |zeros| == size && head[key] >= -1 && headz[z] >= -1
            && HeadsOk(head[key := w], pos + 1, size) && ChainOk(Chained(head, chain, key, w), pos + 1, size)
            && HeadsOk(headz[z := w], pos + 1, size) && ChainOk(Chained(headz, chainz, z, w), pos + 1, size)
            && ZerosOk(zeros[w := z], pos + 1, size, data)
  {
    TableSizes(chain, chainz, zeros, v, size, data);
    hide HeadsOk, ChainOk, ZerosOk, ZerosAt, Slot, Chained;
    TableStep(head, chain, v, pos, size, key);
    TableStep(headz, chainz, v, pos, size, z);
    if v == pos { ZerosStep(zeros, pos, size, data, z); } else { ZerosAgain(zeros, pos, size, data, z); }
  }

  lemma TableSizes(chain: seq<nat>, chainz: seq<nat>, zeros: seq<nat>, v: nat, size: nat, data: seq<byte>)
    requires ChainOk(chain, v, size) && ChainOk(chainz, v, size) && ZerosOk(zeros, v, size, data)
    ensures |chain| == |chainz| == |zeros| == size
  {}

  lemma SlotOfPosition(pos: nat, size: nat)
    requires size > 0
    ensures pos % size < size && pos % size <= pos
  {
    var q, r := pos / size, pos % size;
    assert pos == q * size + r;
    assert q >= 0;
    MulNonNegative(q, size);
  }

  // ---------------------------------------------------------------- hashing and zero runs

  method GetHash(data: seq<byte>, size: nat, pos: nat) returns (result: nat)
    requires size <= |data|
    ensures result < HASHVALUES
  {
    hide Xor, Low, Pow2;
    assert Pow2(16) == 65536 by { Pow2Values(); }
    result := 0;
    if pos + 2 < size {
      var a: nat, b: nat, c: nat := data[pos], data[pos + 1], data[pos + 2];
      result := Xor(Xor(Xor(result, a), b * 0x10), c * 0x100);
    } else {
      if pos >= size { return 0; }
      var amount := size - pos;
      for i := 0 to amount {
        var d: nat := data[pos + i];
        result := Xor(result, Mul(d, Pow2(i * 8)));
      }
    }
    result := Low(result, 16);
  }

  function Mul(a: nat, b: nat): nat {
    MulNonNegative(a, b);
    a * b
  }

  method CountZeros(data: seq<byte>, size: nat, pos: nat) returns (count: nat)
    requires pos <= size <= |data|
    ensures count <= MAXLENGTH && pos + count <= size && ZerosAt(data, pos, count)
    ensures count < MAXLENGTH && pos + count < size ==> data[pos + count] != 0
  {
    var end := if pos + MAXLENGTH > size then size else pos + MAXLENGTH;
    var p := pos;
    while p != end && data[p] == 0
      invariant pos <= p <= end && forall j | pos <= j < p :: data[j] == 0
      decreases end - p
    {
      p := p + 1;
    }
    count := p - pos;
  }

  /** Carries the run of zeros from the last updated position over to `pos`. */
  method NextZeros(data: seq<byte>, size: nat, pos: nat, hashval: nat, numzeros: nat, ghost last: int) returns (z: nat)
    requires pos < size <= |data| && (last == pos - 1 || last == pos)
    requires numzeros <= MAXLENGTH && ZerosAt(data, last, numzeros) && last + numzeros <= size
    ensures z <= MAXLENGTH && ZerosAt(data, pos, z) && pos + z <= size
  {
    z := numzeros;
    if hashval == 0 {
      if numzeros == 0 {
        z := CountZeros(data, size, pos);
      } else if pos + numzeros > size || data[pos + numzeros - 1] != 0 {
        z := z - 1;
      }
    } else {
      z := 0;
    }
  }

  // ---------------------------------------------------------------- searching

  /** Follows the chains of `pos` and returns the longest match found, or length 0. */
  method Search(hash: Hash, data: seq<byte>, insize: nat, pos: nat, wpos: nat, hashval: nat, numzeros: nat,
                maxchainlength: nat, nicematch: nat)
    returns (length: nat, offset: nat)
    requires pos < insize <= |data| && hash.Valid(pos + 1, data) && wpos == Slot(pos, hash.size)
    requires numzeros <= MAXLENGTH && ZerosAt(data, pos, numzeros) && pos + numzeros <= insize
    ensures length <= MAXLENGTH && pos + length <= insize
    ensures length > 0 ==> MatchAt(data, pos, length, offset) && offset < hash.size
  {
    hide ZerosOk, HeadsOk, ChainOk, ZerosAt, MatchAt, Slot;
    SlotFacts(hash.chain[..], hash.chainz[..], hash.zeros[..], pos, hash.size, data, wpos);
    length, offset := 0, 0;
    var hashpos: nat := hash.chain[wpos];
    var last := if insize < pos + MAXLENGTH then insize else pos + MAXLENGTH;
    var prevOffset: nat, chainlength: nat := 0, 0;
    while chainlength < maxchainlength
      invariant hashpos < hash.size && hashpos <= pos
      invariant length <= MAXLENGTH && pos + length <= insize
      invariant length > 0 ==> MatchAt(data, pos, length, offset) && offset < hash.size
      decreases maxchainlength - chainlength
    {
      chainlength := chainlength + 1;
      var currentOffset: nat := if hashpos <= wpos then wpos - hashpos else wpos - hashpos + hash.size;
      SlotFacts(hash.chain[..], hash.chainz[..], hash.zeros[..], pos, hash.size, data, hashpos);
      if currentOffset < prevOffset { break; }
      prevOffset := currentOffset;
      if currentOffset > 0 {
        var stored := if numzeros >= 3 then hash.zeros[hashpos] else 0;
        var currentLength := MatchLength(data, pos, currentOffset, last, stored, numzeros);
        if currentLength > length {
          length := currentLength;
          offset := currentOffset;
          if currentLength >= nicematch { break; }
        }
      }
      if hashpos == hash.chain[hashpos] { break; }
      if numzeros >= 3 && length > numzeros {
        hashpos := hash.chainz[hashpos];
        if hash.zeros[hashpos] != numzeros { break; }
      } else {
        hashpos := hash.chain[hashpos];
        if hash.val[hashpos] != hashval { break; }
      }
    }
  }

  /** What the tables say about slot `w` while position `pos` is being matched. */
  lemma SlotFacts(chain: seq<nat>, chainz: seq<nat>, zeros: seq<nat>, pos: nat, size: nat, data: seq<byte>, w: nat)
    requires w < size && w <= pos && ZerosOk(zeros, pos + 1, size, data)
    requires ChainOk(chain, pos + 1, size) && ChainOk(chainz, pos + 1, size)
    ensures |chain| == |chainz| == |zeros| == size
    ensures chain[w] < size && chain[w] <= pos && chainz[w] < size && chainz[w] <= pos
    ensures var wpos := Slot(pos, size);
            var offset := if w <= wpos then wpos - w else wpos - w + size;
            && 0 <= offset < size && offset <= pos
            && ZerosAt(data, pos - offset, zeros[w]) && ZerosAt(data, pos - offset, 0)
  {
    CircularDistance(w, pos, size);
    SlotPositionFacts(w, pos + 1, size);
  }

  /** How many bytes from `pos` repeat those `offset` back; `stored` zeros there need not be compared. */
  method MatchLength(data: seq<byte>, pos: nat, offset: nat, last: nat, stored: nat, numzeros: nat)
    returns (length: nat)
    requires 0 < offset <= pos && pos + numzeros <= last <= |data| && last <= pos + MAXLENGTH
    requires ZerosAt(data, pos, numzeros) && ZerosAt(data, pos - offset, stored)
    ensures pos + length <= last && MatchAt(data, pos, length, offset)
    ensures pos + length < last ==> data[pos + length] != data[pos + length - offset]
  {
    var skip := if stored > numzeros then numzeros else stored;
    var fore, back := pos + skip, pos - offset + skip;
    while fore != last && data[back] == data[fore]
      invariant pos + skip <= fore <= last && back == fore - offset
      invariant forall j | pos <= j < fore :: data[j] == data[j - offset]
      decreases last - fore
    {
      back := back + 1;
      fore := fore + 1;
    }
    length := fore - pos;
  }

  // ---------------------------------------------------------------- the encoder

  /** `tokens`, expanded after `data[..inpos]`, give `data[..done]`, and `out` is their flat form. */
  ghost predicate Encoded(data: seq<byte>, inpos: nat, done: nat, tokens: seq<Token>, out: seq<nat>) {
    && inpos <= done <= |data|
    && TokensOk(tokens) && out == Flatten(tokens)
    && Expandable(tokens, data[..inpos]) && Expand(tokens, data[..inpos]) == data[..done]
  }

  lemma EncodeLiteral(data: seq<byte>, inpos: nat, done: nat, tokens: seq<Token>, out: seq<nat>)
    requires Encoded(data, inpos, done, tokens, out) && done < |data|
    ensures Encoded(data, inpos, done + 1, tokens + [Literal(data[done])], out + [data[done] as nat])
  {
    hide Expand, Expandable, Flatten;
    var t := Literal(data[done]);
    ExpandAppend(tokens, data[..inpos], t);
    FlattenAppend(tokens, t);
    assert data[..done] + [data[done]] == data[..done + 1];
  }

  lemma EncodeCopy(data: seq<byte>, inpos: nat, done: nat, tokens: seq<Token>, out: seq<nat>, length: nat, offset: nat)
    requires Encoded(data, inpos, done, tokens, out) && MatchAt(data, done, length, offset)
    requires 3 <= length <= 258 && offset <= 32768
    ensures Encoded(data, inpos, done + length, tokens + [Copy(length, offset)], out + Flat(Copy(length, offset)))
  {
    hide Expand, Expandable, Flatten;
    var t := Copy(length, offset);
    CopyOfMatch(data, done, length, offset);
    ExpandAppend(tokens, data[..inpos], t);
    FlattenAppend(tokens, t);
  }

  /** What a position update needs and leaves: `numzeros` describes the newest position `v - 1`. */
  ghost predicate RunOk(data: seq<byte>, insize: nat, v: nat, numzeros: nat) {
    numzeros <= MAXLENGTH && ZerosAt(data, v - 1, numzeros) && v - 1 + numzeros <= insize
  }

  /** Hashes `pos` and enters it into the tables. */
  method Enter(hash: Hash, data: seq<byte>, insize: nat, pos: nat, numzeros0: nat, ghost v: nat)
    returns (hashval: nat, numzeros: nat, wpos: nat)
    requires pos < insize <= |data| && (v == pos || v == pos + 1) && hash.Valid(v, data)
    requires RunOk(data, insize, v, numzeros0) && And(hash.size, hash.size - 1) == 0
    modifies hash.head, hash.chain, hash.val, hash.headz, hash.chainz, hash.zeros
    ensures hash.Valid(pos + 1, data) && RunOk(data, insize, pos + 1, numzeros) && hashval < HASHVALUES
    ensures wpos == Slot(pos, hash.size)
  {
    hide ZerosAt, HeadsOk, ChainOk, ZerosOk, Slot, And;
    wpos := And(pos, hash.size - 1);
    MaskIsSlot(pos, hash.size);
    hashval := GetHash(data, insize, pos);
    numzeros := NextZeros(data, insize, pos, hashval, numzeros0, v - 1);
    hash.UpdateChain(pos, wpos, hashval, numzeros, v, data);
  }

  /** Enters the positions a copy skips over, the first of which may have been entered already. */
  method EnterRest(hash: Hash, data: seq<byte>, insize: nat, pos: nat, length: nat, numzeros0: nat, ghost v: nat)
    returns (numzeros: nat)
    requires length >= 2 && pos + length <= insize <= |data| && (v == pos + 1 || v == pos + 2) && hash.Valid(v, data)
    requires RunOk(data, insize, v, numzeros0) && And(hash.size, hash.size - 1) == 0
    modifies hash.head, hash.chain, hash.val, hash.headz, hash.chainz, hash.zeros
    ensures hash.Valid(pos + length, data) && RunOk(data, insize, pos + length, numzeros)
  {
    hide RunOk, And;
    numzeros := numzeros0;
    for i := 1 to length
      invariant hash.Valid(if i == 1 then v else pos + i, data)
      invariant RunOk(data, insize, if i == 1 then v else pos + i, numzeros)
    {
      var hashval, wpos;
      hashval, numzeros, wpos := Enter(hash, data, insize, pos + i, numzeros, if i == 1 then v else pos + i);
    }
  }

  /** Encodes a literal or the match found, and enters what the match skips. */
  method Emit(hash: Hash, data: seq<byte>, ghost inpos: nat, insize: nat, pos: nat, length: nat, offset: nat,
              minmatch: nat, out0: seq<nat>, numzeros0: nat, ghost tokens: seq<Token>, ghost v: nat)
    returns (out: seq<nat>, numzeros: nat, pos': nat, ghost added: Token, ghost v': nat)
    requires inpos <= pos < insize <= |data| && (v == pos + 1 || v == pos + 2) && v <= insize
    requires hash.Valid(v, data) && RunOk(data, insize, v, numzeros0) && hash.size <= 32768
    requires And(hash.size, hash.size - 1) == 0
    requires Encoded(data, inpos, pos, tokens, out0)
    requires length <= MAXLENGTH && pos + length <= insize
    requires length > 0 ==> MatchAt(data, pos, length, offset) && offset < hash.size
    modifies hash.head, hash.chain, hash.val, hash.headz, hash.chainz, hash.zeros
    ensures pos < pos' <= v' <= insize && v' <= pos' + 1 && hash.Valid(v', data) && RunOk(data, insize, v', numzeros)
    ensures Encoded(data, inpos, pos', tokens + [added], out)
  {
    hide Encoded, RunOk, HeadsOk, ChainOk, ZerosOk, Flat, And;
    if length < 3 || length < minmatch || (length == 3 && offset > 4096) {
      EncodeLiteral(data, inpos, pos, tokens, out0);
      out := out0 + [data[pos]];
      added := Literal(data[pos]);
      pos', v', numzeros := pos + 1, v, numzeros0;
    } else {
      EncodeCopy(data, inpos, pos, tokens, out0, length, offset);
      out := AddLengthDistance(out0, length, offset);
      added := Copy(length, offset);
      numzeros := EnterRest(hash, data, insize, pos, length, numzeros0, v);
      pos', v' := pos + length, pos + length;
    }
  }

  /** The tokens produced for `data[inpos..insize)` expand back to it, whatever the settings. */
  method EncodeLZ77(hash: Hash, data: seq<byte>, inpos: nat, insize: nat, windowsize: nat, minmatch: nat,
                    nicematch0: nat, lazymatching: bool)
    returns (error: nat, out: seq<nat>, ghost tokens: seq<Token>)
    requires inpos <= insize <= |data| && hash.size == windowsize
    requires windowsize > 0 ==> hash.Valid(inpos, data)
    modifies hash.head, hash.chain, hash.val, hash.headz, hash.chainz, hash.zeros
    ensures error == (if windowsize == 0 || windowsize > 32768 then 60
                      else if And(windowsize, windowsize - 1) != 0 then 90 else 0)
    ensures error == 0 ==> hash.Valid(insize, data) && Encoded(data, inpos, insize, tokens, out)
  {
    hide MatchAt, Encoded, RunOk, HeadsOk, ChainOk, ZerosOk, Flat, And, Slot;
    out, tokens := [], [];
    if windowsize == 0 || windowsize > 32768 { return 60, out, tokens; }
    if And(windowsize, windowsize - 1) != 0 { return 90, out, tokens; }
    var maxchainlength := if windowsize >= 8192 then windowsize else windowsize / 8;
    var maxlazymatch := if windowsize >= 8192 then MAXLENGTH else 64;
    var nicematch := if nicematch0 > MAXLENGTH then MAXLENGTH else nicematch0;
    var numzeros: nat := 0;
    var lazy := false;
    var lazylength: nat, lazyoffset: nat, pos: nat := 0, 0, inpos;
    ghost var v := inpos;
    Begin(data, inpos, insize);
    while pos < insize
      invariant inpos <= pos <= v <= insize && (v == pos || (v == pos + 1 && !lazy))
      invariant hash.Valid(v, data) && RunOk(data, insize, v, numzeros)
      invariant lazy ==> lazymatching && inpos < pos && 3 <= lazylength < MAXLENGTH && pos - 1 + lazylength <= insize
      invariant lazy ==> MatchAt(data, pos - 1, lazylength, lazyoffset) && lazyoffset < windowsize
      invariant Encoded(data, inpos, if lazy then pos - 1 else pos, tokens, out)
      decreases insize - pos, if lazy then 1 else 0
    {
      var hashval, wpos;
      hashval, numzeros, wpos := Enter(hash, data, insize, pos, numzeros, v);
      v := pos + 1;
      RunParts(data, insize, v, numzeros);
      var length, offset := Search(hash, data, insize, pos, wpos, hashval, numzeros, maxchainlength, nicematch);
      if lazymatching {
        if !lazy && length >= 3 && length <= maxlazymatch && length < MAXLENGTH {
          lazy, lazylength, lazyoffset := true, length, offset;
          pos := pos + 1;
          continue;
        }
        if lazy {
          lazy := false;
          assert pos != 0;  // error 81 is never raised
          if length > lazylength + 1 {
            EncodeLiteral(data, inpos, pos - 1, tokens, out);
            out := out + [data[pos - 1]];
            tokens := tokens + [Literal(data[pos - 1])];
          } else {
            length := lazylength;
            offset := lazyoffset;
            hash.ForgetHeads(hashval, numzeros, v, data);
            pos := pos - 1;
          }
        }
      }
      assert length >= 3 ==> offset <= windowsize;  // nor is error 86
      ghost var added;
      out, numzeros, pos, added, v := Emit(hash, data, inpos, insize, pos, length, offset, minmatch, out, numzeros,
                                           tokens, v);
      tokens := tokens + [added];
    }
    error := 0;
  }

  lemma Begin(data: seq<byte>, inpos: nat, insize: nat)
    requires inpos <= insize <= |data|
    ensures Encoded(data, inpos, inpos, [], []) && RunOk(data, insize, inpos, 0)
  {}

  lemma RunParts(data: seq<byte>, insize: nat, v: nat, numzeros: nat)
    requires RunOk(data, insize, v, numzeros)
    ensures numzeros <= MAXLENGTH && ZerosAt(data, v - 1, numzeros) && v - 1 + numzeros <= insize
  {}
}
