/** LZ77 tokens, their expansion, and the length/distance code tables of Deflate (section 3.2.5 of RFC 1951). */
module Tokens {
  import opened Bits

  datatype Token = Literal(b: byte) | Copy(length: nat, distance: nat)

  const LENGTHBASE: seq<nat> :=
    [3, 4, 5, 6, 7, 8, 9, 10, 11, 13, 15, 17, 19, 23, 27, 31, 35, 43, 51, 59, 67, 83, 99, 115, 131, 163, 195, 227, 258]

  const LENGTHEXTRA: seq<nat> :=
    [0, 0, 0, 0, 0, 0, 0, 0, 1, 1, 1, 1, 2, 2, 2, 2, 3, 3, 3, 3, 4, 4, 4, 4, 5, 5, 5, 5, 0]

  const DISTANCEBASE: seq<nat> :=
    [1, 2, 3, 4, 5, 7, 9, 13, 17, 25, 33, 49, 65, 97, 129, 193, 257, 385, 513, 769, 1025, 1537, 2049, 3073, 4097, 6145,
     8193, 12289, 16385, 24577]

  const DISTANCEEXTRA: seq<nat> :=
    [0, 0, 0, 0, 1, 1, 2, 2, 3, 3, 4, 4, 5, 5, 6, 6, 7, 7, 8, 8, 9, 9, 10, 10, 11, 11, 12, 12, 13, 13]

  const MAXLENGTH: nat := 258

  // ---------------------------------------------------------------- expansion

  /** `n` bytes copied from `d` back, one at a time: the source may overlap the destination. */
  ghost function CopyBytes(out: seq<byte>, n: nat, d: nat): (r: seq<byte>)
    requires 0 < d <= |out|
    ensures |r| == |out| + n && r[..|out|] == out
    decreases n
  {
    if n == 0 then out else CopyBytes(out + [out[|out| - d]], n - 1, d)
  }

  ghost predicate TokenOk(t: Token, size: nat) {
    t.Copy? ==> 3 <= t.length <= 258 && 1 <= t.distance <= 32768 && t.distance <= size
  }

  ghost function ExpandOne(t: Token, out: seq<byte>): (r: seq<byte>)
    requires TokenOk(t, |out|)
    ensures |r| > |out|
  {
    match t
    case Literal(b) => out + [b]
    case Copy(length, distance) => CopyBytes(out, length, distance)
  }

  /** Every copy reaches back into what has been produced before it. */
  ghost predicate Expandable(tokens: seq<Token>, out: seq<byte>)
    decreases |tokens|
  {
    tokens == [] || (TokenOk(tokens[0], |out|) && Expandable(tokens[1..], ExpandOne(tokens[0], out)))
  }

  ghost function Expand(tokens: seq<Token>, out: seq<byte>): seq<byte>
    requires Expandable(tokens, out)
    decreases |tokens|
  {
    if tokens == [] then out else Expand(tokens[1..], ExpandOne(tokens[0], out))
  }

  lemma {:induction false} ExpandAppend(tokens: seq<Token>, out: seq<byte>, t: Token)
    requires Expandable(tokens, out) && TokenOk(t, |Expand(tokens, out)|)
    ensures Expandable(tokens + [t], out)
    ensures Expand(tokens + [t], out) == ExpandOne(t, Expand(tokens, out))
    decreases |tokens|
  {
    var all := tokens + [t];
    if tokens == [] {
      assert all[1..] == [];
    } else {
      assert all[1..] == tokens[1..] + [t];
      ExpandAppend(tokens[1..], ExpandOne(tokens[0], out), t);
    }
  }

  /** `length` bytes at `pos` repeat what stands `offset` before. */
  ghost predicate MatchAt(data: seq<byte>, pos: nat, length: nat, offset: nat) {
    && 0 < offset <= pos && pos + length <= |data|
    && forall j | pos <= j < pos + length :: data[j] == data[j - offset]
  }

  lemma {:induction false} CopyOfMatch(data: seq<byte>, pos: nat, length: nat, offset: nat)
    requires MatchAt(data, pos, length, offset)
    ensures CopyBytes(data[..pos], length, offset) == data[..pos + length]
    decreases length
  {
    if length > 0 {
      assert data[..pos] + [data[pos]] == data[..pos + 1];
      CopyOfMatch(data, pos + 1, length - 1, offset);
    }
  }

  // ---------------------------------------------------------------- codes

  ghost predicate Increasing(base: seq<nat>) {
    forall i, j | 0 <= i < j < |base| :: base[i] < base[j]
  }

  /** The last entry not above `value`. */
  ghost function CodeOf(base: seq<nat>, value: nat): (r: nat)
    requires base != [] && base[0] <= value
    ensures r < |base| && base[r] <= value
    ensures forall i | r < i < |base| :: base[i] > value
    decreases |base|
  {
    var k := |base| - 1;
    if base[k] <= value then k else CodeOf(base[..k], value)
  }

  function LengthBase(l: nat): nat
    requires l < 29
  {
    LENGTHBASE[l]
  }

  function LengthExtra(l: nat): (n: nat)
    requires l < 29
    ensures n <= 5
  {
    LENGTHEXTRA[l]
  }

  function DistanceBase(d: nat): (n: nat)
    requires d < 30
    ensures n > 0
  {
    DISTANCEBASE[d]
  }

  function DistanceExtra(d: nat): (n: nat)
    requires d < 30
    ensures n <= 13
  {
    DISTANCEEXTRA[d]
  }

  ghost function LengthCode(length: nat): (l: nat)
    requires 3 <= length
    ensures l < 29 && LengthBase(l) <= length
  {
    CodeOf(LENGTHBASE, length)
  }

  ghost function DistanceCode(distance: nat): (d: nat)
    requires 1 <= distance
    ensures d < 30 && DistanceBase(d) <= distance
  {
    CodeOf(DISTANCEBASE, distance)
  }

  /** The four numbers of a copy, or the byte itself. */
  ghost function Flat(t: Token): seq<nat>
    requires TokenOk(t, 32768)
  {
    match t
    case Literal(b) => [b]
    case Copy(length, distance) =>
      var l, d := LengthCode(length), DistanceCode(distance);
      [l + 257, length - LengthBase(l), d, distance - DistanceBase(d)]
  }

  ghost predicate TokensOk(tokens: seq<Token>) {
    forall i | 0 <= i < |tokens| :: TokenOk(tokens[i], 32768)
  }

  ghost function Flatten(tokens: seq<Token>): seq<nat>
    requires TokensOk(tokens)
  {
    if tokens == [] then [] else Flatten(tokens[..|tokens| - 1]) + Flat(tokens[|tokens| - 1])
  }

  lemma FlattenAppend(tokens: seq<Token>, t: Token)
    requires TokensOk(tokens) && TokenOk(t, 32768)
    ensures TokensOk(tokens + [t]) && Flatten(tokens + [t]) == Flatten(tokens) + Flat(t)
  {
    assert (tokens + [t])[..|tokens|] == tokens;
  }

  lemma TablesIncrease()
    ensures Increasing(LENGTHBASE) && Increasing(DISTANCEBASE)
    ensures |LENGTHBASE| == |LENGTHEXTRA| == 29 && |DISTANCEBASE| == |DISTANCEEXTRA| == 30
    ensures LENGTHBASE[0] == 3 && DISTANCEBASE[0] == 1
  {
    LengthsIncrease();
    DistancesIncrease();
  }

  lemma LengthsIncrease()
    ensures |LENGTHBASE| == 29 && Increasing(LENGTHBASE)
  {
    assert forall i | 0 <= i < 14 :: LENGTHBASE[i] < LENGTHBASE[i + 1];
    assert forall i | 14 <= i < 28 :: LENGTHBASE[i] < LENGTHBASE[i + 1];
    StepsIncrease(LENGTHBASE);
  }

  lemma DistancesIncrease()
    ensures |DISTANCEBASE| == 30 && Increasing(DISTANCEBASE)
  {
    assert forall i | 0 <= i < 15 :: DISTANCEBASE[i] < DISTANCEBASE[i + 1];
    assert forall i | 15 <= i < 29 :: DISTANCEBASE[i] < DISTANCEBASE[i + 1];
    StepsIncrease(DISTANCEBASE);
  }

  lemma StepsIncrease(base: seq<nat>)
    requires forall i | 0 <= i < |base| - 1 :: base[i] < base[i + 1]
    ensures Increasing(base)
  {
    forall i, j | 0 <= i < j < |base| ensures base[i] < base[j] { StepsClimb(base, i, j); }
  }

  lemma {:induction false} StepsClimb(base: seq<nat>, i: nat, j: nat)
    requires forall i | 0 <= i < |base| - 1 :: base[i] < base[i + 1]
    requires i < j < |base|
    ensures base[i] < base[j]
    decreases j
  {
    if i < j - 1 { StepsClimb(base, i, j - 1); }
    assert base[j - 1] < base[j - 1 + 1];
  }

  /** The extra bits reach from each base to the next. */
  lemma LengthRange(l: nat)
    requires l < 29
    ensures LENGTHEXTRA[l] <= 5
    ensures l < 28 ==> LENGTHBASE[l + 1] <= LENGTHBASE[l] + Pow2(LENGTHEXTRA[l])
    ensures l == 28 ==> LENGTHBASE[l] == 258 && LENGTHEXTRA[l] == 0
  {
    hide Pow2;
    ExtraPowers();
  }

  lemma DistanceRange(d: nat)
    requires d < 30
    ensures DISTANCEEXTRA[d] <= 13
    ensures d < 29 ==> DISTANCEBASE[d + 1] <= DISTANCEBASE[d] + Pow2(DISTANCEEXTRA[d])
    ensures d == 29 ==> DISTANCEBASE[d] + Pow2(DISTANCEEXTRA[d]) == 32769
  {
    hide Pow2;
    ExtraPowers();
    if d < 15 {
      assert DISTANCEEXTRA[d] <= 6 && DISTANCEBASE[d + 1] <= DISTANCEBASE[d] + Pow2(DISTANCEEXTRA[d]);
    }
  }

  lemma ExtraPowers()
    ensures Pow2(0) == 1 && Pow2(1) == 2 && Pow2(2) == 4 && Pow2(3) == 8 && Pow2(4) == 16 && Pow2(5) == 32
    ensures Pow2(6) == 64 && Pow2(7) == 128 && Pow2(8) == 256 && Pow2(9) == 512 && Pow2(10) == 1024
    ensures Pow2(11) == 2048 && Pow2(12) == 4096 && Pow2(13) == 8192
  {}

  /** The extra value of a copy fits its extra bits. */
  lemma LengthFits(length: nat)
    requires 3 <= length <= 258
    ensures length - LengthBase(LengthCode(length)) < Pow2(LengthExtra(LengthCode(length)))
  {
    LengthRange(LengthCode(length));
  }

  lemma DistanceFits(distance: nat)
    requires 1 <= distance <= 32768
    ensures distance - DistanceBase(DistanceCode(distance)) < Pow2(DistanceExtra(DistanceCode(distance)))
  {
    DistanceRange(DistanceCode(distance));
  }

  /** Binary search for the code of `value`. */
  method SearchCodeIndex(base: seq<nat>, value: nat) returns (index: nat)
    requires |base| >= 2 && Increasing(base)
    ensures index == if base[0] <= value then CodeOf(base, value) else 0
  {
    var left, right := 1, |base| - 1;
    while left <= right
      invariant 1 <= left <= right + 1 <= |base|
      invariant forall i | 0 < i < left :: base[i] < value
      invariant forall i | right < i < |base| :: base[i] >= value
      decreases right + 1 - left
    {
      var mid := (left + right) / 2;
      if base[mid] >= value {
        right := mid - 1;
      } else {
        left := mid + 1;
      }
    }
    if left >= |base| || base[left] > value {
      left := left - 1;
    }
    index := left;
    if base[0] <= value { CodeOfUnique(base, value, index); } else { Climb(base, 0, index); }
  }

  lemma CodeOfUnique(base: seq<nat>, value: nat, r: nat)
    requires Increasing(base) && r < |base| && base[r] <= value && base[0] <= value
    requires r + 1 < |base| ==> base[r + 1] > value
    ensures CodeOf(base, value) == r
  {
    if r + 1 < |base| && CodeOf(base, value) > r {
      Climb(base, r + 1, CodeOf(base, value));
    }
  }

  lemma Climb(base: seq<nat>, i: nat, j: nat)
    requires Increasing(base) && i <= j < |base|
    ensures base[i] <= base[j]
  {}

  /** Appends the four numbers of a length/distance pair. */
  method AddLengthDistance(values: seq<nat>, length: nat, distance: nat) returns (values': seq<nat>)
    requires 3 <= length <= 258 && 1 <= distance <= 32768
    ensures values' == values + Flat(Copy(length, distance))
  {
    TablesIncrease();
    var lengthCode := SearchCodeIndex(LENGTHBASE, length);
    var extraLength := length - LENGTHBASE[lengthCode];
    var distCode := SearchCodeIndex(DISTANCEBASE, distance);
    var extraDistance := distance - DISTANCEBASE[distCode];
    values' := values + [lengthCode + 257, extraLength, distCode, extraDistance];
  }
}
