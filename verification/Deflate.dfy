/** The compressor: methods over the bit writer, each proved to write a well-formed block of its input. */
module Deflate {
  import opened Wrappers
  import opened Bits
  import opened BitIO
  import opened Huffman
  import opened HuffmanTrees
  import HuffmanTable
  import opened Tokens
  import opened Lz77
  import opened Format
  import opened Stream
  import opened LengthRuns
  import Inflate

  datatype CompressSettings =
    CompressSettings(btype: nat, useLz77: bool, windowsize: nat, minmatch: nat, nicematch: nat, lazymatching: bool)

  /** What the matcher says about the window. */
  ghost function WindowError(settings: CompressSettings): nat {
    if !settings.useLz77 then 0
    else if settings.windowsize == 0 || settings.windowsize > 32768 then 60
    else if And(settings.windowsize, settings.windowsize - 1) != 0 then 90
    else 0
  }

  // ---------------------------------------------------------------- writing symbols

  method WriteSymbol(writer: BitWriter, tree: HuffmanTree, n: nat)
    requires writer.Valid() && tree.Ready() && n < tree.lengths.Length
    modifies writer
    ensures writer.Valid() && writer.bits == old(writer.bits) + CodeBits(tree.lengths[..], n)
  {
    hide HuffmanTable.TableOk, Code;
    writer.WriteBitsReversed(tree.codes[n], tree.lengths[n]);
    if tree.lengths[n] == 0 { NoBits(tree.codes[n], Code(tree.lengths[..], n)); }
  }

  lemma NoBits(a: nat, b: nat)
    ensures ToMsb(a, 0) == ToMsb(b, 0)
  {}

  /** A symbol and the extra bits behind it. */
  method WriteWithExtra(writer: BitWriter, tree: HuffmanTree, code: nat, extra: nat, numExtra: nat)
    requires writer.Valid() && tree.Ready() && code < tree.lengths.Length && ValidLengths(tree.lengths[..])
    requires (numExtra == 1 ==> extra < 2)
    modifies writer
    ensures writer.Valid()
    ensures writer.bits == old(writer.bits) + (CodeBits(tree.lengths[..], code) + ToLsb(extra, numExtra))
  {
    hide *;
    ghost var bits0, lens := writer.bits, tree.lengths[..];
    WriteSymbol(writer, tree, code);
    writer.WriteBits(extra, numExtra);
    ConcatAssoc(bits0, CodeBits(lens, code), ToLsb(extra, numExtra));
  }

  lemma {:induction false} FlattenPrefix(tokens: seq<Token>, k: nat)
    requires TokensOk(tokens) && k < |tokens|
    ensures TokensOk(tokens[..k]) && Flatten(tokens[..k]) + Flat(tokens[k]) <= Flatten(tokens)
    decreases |tokens| - k
  {
    hide *;
    FlattenNext(tokens, k);
    if k + 1 == |tokens| {
      TakeAll(tokens, k + 1);
    } else {
      FlattenPrefix(tokens, k + 1);
      PrefixOfPrefix(Flatten(tokens[..k + 1]), Flat(tokens[k + 1]), Flatten(tokens));
    }
  }

  lemma FlattenNext(tokens: seq<Token>, k: nat)
    requires TokensOk(tokens) && k < |tokens|
    ensures TokensOk(tokens[..k]) && TokensOk(tokens[..k + 1]) && TokenOk(tokens[k], 32768)
    ensures k + 1 < |tokens| ==> TokenOk(tokens[k + 1], 32768)
    ensures Flatten(tokens[..k + 1]) == Flatten(tokens[..k]) + Flat(tokens[k])
  {
    hide Flat;
    TakeNext(tokens, k);
    FlattenAppend(tokens[..k], tokens[k]);
  }

  lemma PrefixOfPrefix<T>(a: seq<T>, b: seq<T>, c: seq<T>)
    requires a + b <= c
    ensures a <= c
  {}

  /** Writes one literal, or the four numbers of a copy. */
  method WriteToken(writer: BitWriter, values: seq<nat>, i: nat, treeLL: HuffmanTree, treeD: HuffmanTree,
                    ghost t: Token)
    returns (next: nat)
    requires writer.Valid() && treeLL.Ready() && treeD.Ready()
    requires Encodable(t, treeLL.lengths[..], treeD.lengths[..])
    requires i + |Flat(t)| <= |values| && values[i..i + |Flat(t)|] == Flat(t)
    modifies writer
    ensures writer.Valid() && writer.bits == old(writer.bits) + TokenBits(t, treeLL.lengths[..], treeD.lengths[..])
    ensures next == i + |Flat(t)|
  {
    hide HuffmanTree.Ready, HuffmanTree.HasCodes, BitWriter.Valid, CodeBits, LengthBits, DistanceBits,
         LengthBase, LengthExtra, LengthCode, DistanceBase, DistanceExtra, DistanceCode;
    SymbolsOfFlat(t, values, i);
    var val := values[i];
    if val > 256 {
      WriteCopy(writer, values, i, treeLL, treeD, t);
      next := i + 4;
    } else {
      WriteSymbol(writer, treeLL, val);
      next := i + 1;
    }
  }

  method WriteCopy(writer: BitWriter, values: seq<nat>, i: nat, treeLL: HuffmanTree, treeD: HuffmanTree, ghost t: Token)
    requires writer.Valid() && treeLL.Ready() && treeD.Ready() && t.Copy?
    requires Encodable(t, treeLL.lengths[..], treeD.lengths[..])
    requires i + 4 <= |values| && values[i..i + 4] == Flat(t)
    modifies writer
    ensures writer.Valid() && writer.bits == old(writer.bits) + TokenBits(t, treeLL.lengths[..], treeD.lengths[..])
  {
    hide HuffmanTree.Ready, HuffmanTree.HasCodes, BitWriter.Valid, CodeBits, ToLsb, Flat, TokenBits, Pow2,
         LengthBase, LengthExtra, LengthCode, DistanceBase, DistanceExtra, DistanceCode;
    ghost var ll, d, bits0 := treeLL.lengths[..], treeD.lengths[..], writer.bits;
    ReadyHasLengths(treeLL);
    ReadyHasLengths(treeD);
    CopyValues(t, values, i);
    ExtraFits(t);
    CopyBits(t, ll, d, bits0);
    WriteWithExtra(writer, treeLL, values[i], values[i + 1], LengthExtra(values[i] - 257));
    WriteWithExtra(writer, treeD, values[i + 2], values[i + 3], DistanceExtra(values[i + 2]));
  }

  lemma CopyBits(t: Token, ll: seq<nat>, d: seq<nat>, bits0: seq<bool>)
    requires ValidLengths(ll) && ValidLengths(d) && Encodable(t, ll, d) && t.Copy?
    ensures bits0 + TokenBits(t, ll, d)
         == bits0 + (CodeBits(ll, LengthCode(t.length) + 257)
                     + ToLsb(t.length - LengthBase(LengthCode(t.length)), LengthExtra(LengthCode(t.length))))
            + (CodeBits(d, DistanceCode(t.distance))
               + ToLsb(t.distance - DistanceBase(DistanceCode(t.distance)), DistanceExtra(DistanceCode(t.distance))))
  {
    hide CodeBits, ToLsb, LengthBase, LengthExtra, LengthCode, DistanceBase, DistanceExtra, DistanceCode;
    ConcatAssoc(bits0, LengthBits(t.length, ll), DistanceBits(t.distance, d));
  }

  lemma CopyValues(t: Token, values: seq<nat>, i: nat)
    requires TokenOk(t, 32768) && t.Copy? && i + 4 <= |values| && values[i..i + 4] == Flat(t)
    ensures values[i] == LengthCode(t.length) + 257 && values[i + 1] == t.length - LengthBase(LengthCode(t.length))
    ensures values[i + 2] == DistanceCode(t.distance)
    ensures values[i + 3] == t.distance - DistanceBase(DistanceCode(t.distance))
  {
    hide LengthBase, LengthCode, DistanceBase, DistanceCode;
    var four := values[i..i + 4];
    assert four[0] == values[i] && four[1] == values[i + 1] && four[2] == values[i + 2] && four[3] == values[i + 3];
  }

  lemma FlatValues(t: Token, values: seq<nat>, i: nat)
    requires TokenOk(t, 32768) && i + |Flat(t)| <= |values| && values[i..i + |Flat(t)|] == Flat(t)
    ensures |Flat(t)| == if t.Literal? then 1 else 4
    ensures forall j | 0 <= j < |Flat(t)| :: values[i + j] == Flat(t)[j]
  {
    forall j | 0 <= j < |Flat(t)| ensures values[i + j] == Flat(t)[j] {
      assert values[i + j] == values[i..i + |Flat(t)|][j];
    }
  }

  lemma ExtraFits(t: Token)
    requires TokenOk(t, 32768) && t.Copy?
    ensures LengthExtra(LengthCode(t.length)) == 1 ==> t.length - LengthBase(LengthCode(t.length)) < 2
    ensures DistanceExtra(DistanceCode(t.distance)) == 1 ==> t.distance - DistanceBase(DistanceCode(t.distance)) < 2
  {
    hide LengthBase, LengthExtra, LengthCode, DistanceBase, DistanceExtra, DistanceCode;
    LengthFits(t.length);
    DistanceFits(t.distance);
    Pow2Values();
  }

  /** The tokens up to `k` are the values up to `i`, and their bits are known. */
  lemma TokensStep(tokens: seq<Token>, k: nat, ll: seq<nat>, d: seq<nat>)
    requires ValidLengths(ll) && ValidLengths(d) && TokensOk(tokens) && AllEncodable(tokens, ll, d) && k <= |tokens|
    ensures AllEncodable(tokens[..k], ll, d)
    ensures k < |tokens| ==>
              && Encodable(tokens[k], ll, d) && AllEncodable(tokens[..k + 1], ll, d)
              && TokensBits(tokens[..k + 1], ll, d) == TokensBits(tokens[..k], ll, d) + TokenBits(tokens[k], ll, d)
  {
    hide TokenBits, TokensBits, Encodable;
    if k < |tokens| {
      TakeNext(tokens, k);
      TokensBitsAppend(tokens[..k], tokens[k], ll, d);
    }
  }

  lemma FlatPositive(t: Token)
    requires TokenOk(t, 32768)
    ensures |Flat(t)| > 0
  {}

  /** Writes the flat form of `tokens` with two trees that have a code for every symbol in it. */
  method WriteLZ77Data(writer: BitWriter, values: seq<nat>, treeLL: HuffmanTree, treeD: HuffmanTree,
                       ghost tokens: seq<Token>)
    requires writer.Valid() && treeLL.Ready() && treeD.Ready()
    requires TokensOk(tokens) && values == Flatten(tokens)
    requires AllEncodable(tokens, treeLL.lengths[..], treeD.lengths[..])
    modifies writer
    ensures writer.Valid()
    ensures writer.bits == old(writer.bits) + TokensBits(tokens, treeLL.lengths[..], treeD.lengths[..])
  {
    hide HuffmanTable.TableOk, Code, TokenBits, Holds, AllEncodable, Encodable, TokensOk, Flatten, Flat;
    ghost var ll, d, bits0 := treeLL.lengths[..], treeD.lengths[..], writer.bits;
    ghost var k := 0;
    var i := 0;
    NoTokens(tokens, ll, d);
    while i < |values|
      invariant writer.Valid() && k <= |tokens| && AllEncodable(tokens[..k], ll, d) && TokensOk(tokens[..k])
      invariant i == |Flatten(tokens[..k])| <= |values|
      invariant writer.bits == bits0 + TokensBits(tokens[..k], ll, d)
    {
      FlatStep(tokens, values, k);
      TokensStep(tokens, k, ll, d);
      ConcatAssoc(bits0, TokensBits(tokens[..k], ll, d), TokenBits(tokens[k], ll, d));
      i := WriteToken(writer, values, i, treeLL, treeD, tokens[k]);
      k := k + 1;
    }
    FlatStep(tokens, values, k);
    assert tokens[..k] == tokens;
  }

  lemma NoTokens(tokens: seq<Token>, ll: seq<nat>, d: seq<nat>)
    requires ValidLengths(ll) && ValidLengths(d)
    ensures TokensOk(tokens[..0]) && AllEncodable(tokens[..0], ll, d)
    ensures Flatten(tokens[..0]) == [] && TokensBits(tokens[..0], ll, d) == []
  {}

  // ---------------------------------------------------------------- frequencies

  ghost function LLSymbol(t: Token): nat
    requires TokenOk(t, 32768)
  {
    if t.Literal? then t.b else LengthCode(t.length) + 257
  }

  /** How many of the tokens use symbol `s`. */
  ghost function UsesLL(tokens: seq<Token>, s: nat): nat
    requires TokensOk(tokens)
  {
    if tokens == [] then 0
    else UsesLL(tokens[..|tokens| - 1], s) + (if LLSymbol(tokens[|tokens| - 1]) == s then 1 else 0)
  }

  ghost function UsesD(tokens: seq<Token>, s: nat): nat
    requires TokensOk(tokens)
  {
    if tokens == [] then 0
    else
      var t := tokens[|tokens| - 1];
      UsesD(tokens[..|tokens| - 1], s) + (if t.Copy? && DistanceCode(t.distance) == s then 1 else 0)
  }

  lemma {:induction false} UsedSymbols(tokens: seq<Token>, k: nat)
    requires TokensOk(tokens) && k < |tokens|
    ensures UsesLL(tokens, LLSymbol(tokens[k])) > 0
    ensures tokens[k].Copy? ==> UsesD(tokens, DistanceCode(tokens[k].distance)) > 0
    decreases |tokens|
  {
    hide LengthCode, DistanceCode;
    var n := |tokens| - 1;
    if k < n { UsedSymbols(tokens[..n], k); }
  }

  lemma UsesNext(tokens: seq<Token>, k: nat)
    requires TokensOk(tokens) && k < |tokens|
    ensures forall s ::
              UsesLL(tokens[..k + 1], s) == UsesLL(tokens[..k], s) + (if LLSymbol(tokens[k]) == s then 1 else 0)
    ensures forall s :: UsesD(tokens[..k + 1], s)
                     == UsesD(tokens[..k], s) + (if tokens[k].Copy? && DistanceCode(tokens[k].distance) == s then 1
                         else 0)
  {
    assert tokens[..k + 1][..k] == tokens[..k];
  }

  /** Adds one token to the counts, as its first number and the number two places on say. */
  method CountFrequencies(values: seq<nat>, frequenciesLL: array<nat>, frequenciesD: array<nat>,
                          ghost tokens: seq<Token>)
    requires TokensOk(tokens) && values == Flatten(tokens)
    requires frequenciesLL.Length == 286 && frequenciesD.Length == 30 && frequenciesLL != frequenciesD
    requires (forall s | 0 <= s < 286 :: frequenciesLL[s] == 0) && (forall s | 0 <= s < 30 :: frequenciesD[s] == 0)
    modifies frequenciesLL, frequenciesD
    ensures forall s | 0 <= s < 286 :: frequenciesLL[s] == UsesLL(tokens, s)
    ensures forall s | 0 <= s < 30 :: frequenciesD[s] == UsesD(tokens, s)
  {
    hide Flat, LengthCode, DistanceCode, Flatten;
    ghost var k := 0;
    var i := 0;
    NoFlat(tokens);
    while i < |values|
      invariant k <= |tokens| && TokensOk(tokens[..k]) && i == |Flatten(tokens[..k])| <= |values|
      invariant forall s | 0 <= s < 286 :: frequenciesLL[s] == UsesLL(tokens[..k], s)
      invariant forall s | 0 <= s < 30 :: frequenciesD[s] == UsesD(tokens[..k], s)
    {
      FlatStep(tokens, values, k);
      SymbolsOfFlat(tokens[k], values, i);
      UsesNext(tokens, k);
      var symbol := values[i];
      frequenciesLL[symbol] := frequenciesLL[symbol] + 1;
      if symbol > 256 {
        var dist := values[i + 2];
        frequenciesD[dist] := frequenciesD[dist] + 1;
        i := i + 3;
      }
      i := i + 1;
      k := k + 1;
    }
    FlatStep(tokens, values, k);
    assert tokens[..k] == tokens;
  }

  lemma NoFlat(tokens: seq<Token>)
    ensures TokensOk(tokens[..0]) && Flatten(tokens[..0]) == []
    ensures forall s :: UsesLL(tokens[..0], s) == UsesD(tokens[..0], s) == 0
  {}

  lemma FlatStep(tokens: seq<Token>, values: seq<nat>, k: nat)
    requires TokensOk(tokens) && values == Flatten(tokens) && k <= |tokens|
    ensures TokensOk(tokens[..k]) && |Flatten(tokens[..k])| <= |values|
    ensures (|Flatten(tokens[..k])| == |values|) == (k == |tokens|)
    ensures k < |tokens| ==>
              && TokensOk(tokens[..k + 1]) && |Flat(tokens[k])| > 0
              && |Flatten(tokens[..k + 1])| == |Flatten(tokens[..k])| + |Flat(tokens[k])| <= |values|
              && values[|Flatten(tokens[..k])|..|Flatten(tokens[..k])| + |Flat(tokens[k])|] == Flat(tokens[k])
  {
    hide Flat;
    if k == |tokens| {
      assert tokens[..k] == tokens;
    } else {
      TakeNext(tokens, k);
      FlattenPrefix(tokens, k);
      FlattenAppend(tokens[..k], tokens[k]);
      FlatPositive(tokens[k]);
    }
  }

  lemma SymbolsOfFlat(t: Token, values: seq<nat>, i: nat)
    requires TokenOk(t, 32768) && i + |Flat(t)| <= |values| && values[i..i + |Flat(t)|] == Flat(t)
    ensures |Flat(t)| == (if t.Literal? then 1 else 4)
    ensures values[i] == LLSymbol(t) < 286 && (values[i] > 256) == t.Copy?
    ensures t.Copy? ==> values[i + 2] == DistanceCode(t.distance) < 30
  {
    hide LengthCode, DistanceCode;
    FlatValues(t, values, i);
  }

  /** Lengths for every symbol that occurs let every token be written. */
  lemma UsedEncodable(tokens: seq<Token>, ll: seq<nat>, d: seq<nat>)
    requires TokensOk(tokens)
    requires forall s | 0 <= s < 286 && UsesLL(tokens, s) > 0 :: s < |ll| && ll[s] > 0
    requires forall s | 0 <= s < 30 && UsesD(tokens, s) > 0 :: s < |d| && d[s] > 0
    ensures AllEncodable(tokens, ll, d)
  {
    hide LengthCode, DistanceCode, UsesLL, UsesD;
    forall k | 0 <= k < |tokens| ensures Encodable(tokens[k], ll, d) {
      UsedSymbols(tokens, k);
    }
  }

  // ---------------------------------------------------------------- the trees of a dynamic block

  ghost function ItemUses(items: seq<Item>, c: nat): nat {
    if items == [] then 0 else ItemUses(items[..|items| - 1], c) + (if items[|items| - 1].code == c then 1 else 0)
  }

  lemma ItemUsesNext(items: seq<Item>, k: nat)
    requires k < |items|
    ensures forall c :: ItemUses(items[..k + 1], c) == ItemUses(items[..k], c) + (if items[k].code == c then 1 else 0)
  {
    assert items[..k + 1][..k] == items[..k];
  }

  lemma {:induction false} ItemUsed(items: seq<Item>, k: nat)
    requires k < |items|
    ensures ItemUses(items, items[k].code) > 0
    decreases |items|
  {
    if k < |items| - 1 { ItemUsed(items[..|items| - 1], k); }
  }

  lemma {:induction false} ItemsAreOk(items: seq<Item>, acc: seq<nat>)
    requires ItemsOk(items, acc)
    ensures forall k | 0 <= k < |items| :: ItemOk(items[k])
    decreases |items|
  {
    if items != [] {
      ItemsAreOk(items[1..], acc + LengthRun(items[0].code, items[0].extra, acc));
      forall k | 0 <= k < |items| ensures ItemOk(items[k]) {
        if k > 0 { assert items[k] == items[1..][k - 1]; }
      }
    }
  }

  ghost predicate AllItemsOk(items: seq<Item>) {
    forall k | 0 <= k < |items| :: ItemOk(items[k])
  }

  lemma NoItems(items: seq<Item>, cl: seq<nat>)
    requires ValidLengths(cl)
    ensures FlatItems(items[..0]) == [] && (forall c :: ItemUses(items[..0], c) == 0)
    ensures ItemsEncodable(items[..0], cl) && ItemsBits(items[..0], cl) == []
  {}

  lemma ItemStep(items: seq<Item>, e: seq<nat>, k: nat)
    requires e == FlatItems(items) && k <= |items| && AllItemsOk(items)
    ensures |FlatItems(items[..k])| <= |e| && (|FlatItems(items[..k])| == |e|) == (k == |items|)
    ensures k < |items| ==>
              && ItemOk(items[k]) && ItemAt(e, |FlatItems(items[..k])|, items[k])
              && |FlatItems(items[..k + 1])| == |FlatItems(items[..k])| + |FlatItem(items[k])| <= |e|
  {
    hide Pow2, FlatItem, FlatItems;
    if k == |items| {
      assert items[..k] == items;
    } else {
      TakeNext(items, k);
      FlatItemsPrefix(items, k);
      FlatItemsAppend(items[..k], items[k]);
      ItemAtPrefix(e, FlatItems(items[..k]), items[k]);
    }
  }

  /** The entries of one item from place `i` on. */
  ghost predicate ItemAt(e: seq<nat>, i: nat, it: Item) {
    && i < |e| && e[i] == it.code
    && (it.code > 15 ==> i + 1 < |e| && e[i + 1] == it.extra)
  }

  lemma ItemAtPrefix(e: seq<nat>, before: seq<nat>, it: Item)
    requires before + FlatItem(it) <= e
    ensures ItemAt(e, |before|, it) && |FlatItem(it)| == if it.code <= 15 then 1 else 2
  {
    var f := FlatItem(it);
    assert forall j | 0 <= j < |f| :: e[|before| + j] == (before + f)[|before| + j] == f[j];
  }

  /** How often each code length symbol occurs; the numbers behind 16, 17 and 18 are skipped. */
  method CountItems(e: array<nat>, num: nat, frequencies: array<nat>, ghost items: seq<Item>)
    requires num <= e.Length && e[..num] == FlatItems(items) && AllItemsOk(items)
    requires frequencies != e && frequencies.Length == 19 && forall c | 0 <= c < 19 :: frequencies[c] == 0
    modifies frequencies
    ensures forall c | 0 <= c < 19 :: frequencies[c] == ItemUses(items, c)
  {
    hide FlatItems, ItemUses, AllItemsOk, FlatItem, ItemOk;
    ghost var k, flat := 0, e[..num];
    var i := 0;
    NoItems(items, []);
    while i < num
      invariant k <= |items| && i == |FlatItems(items[..k])| <= num && e[..num] == flat
      invariant forall c | 0 <= c < 19 :: frequencies[c] == ItemUses(items[..k], c)
    {
      ItemStep(items, flat, k);
      ItemShape(items[k]);
      ItemUsesNext(items, k);
      frequencies[e[i]] := frequencies[e[i]] + 1;
      if e[i] >= 16 { i := i + 1; }
      i := i + 1;
      k := k + 1;
    }
    ItemStep(items, flat, k);
    assert items[..k] == items;
  }

  lemma ItemShape(it: Item)
    requires ItemOk(it)
    ensures it.code <= 18 && it.extra < Pow2(ExtraBits(it.code)) && |FlatItem(it)| == if it.code <= 15 then 1 else 2
  {}

  lemma NoBitsLsb(v: nat)
    ensures ToLsb(v, 0) == []
  {}

  method WriteItem(writer: BitWriter, e: array<nat>, num: nat, i: nat, treeCl: HuffmanTree, ghost it: Item,
                   ghost flat: seq<nat>)
    returns (next: nat)
    requires writer.Valid() && treeCl.Ready() && i < num <= e.Length && ItemOk(it) && e[..num] == flat
    requires ItemAt(flat, i, it)
    requires it.code < treeCl.lengths.Length
    modifies writer
    ensures writer.Valid() && writer.bits == old(writer.bits) + ItemBits(it, treeCl.lengths[..])
    ensures next == i + |FlatItem(it)|
  {
    ghost var cl, bits0 := treeCl.lengths[..], writer.bits;
    assert ValidLengths(cl);
    ItemShape(it);
    ItemInArray(e, num, i, it);
    NoBitsLsb(it.extra);
    ItemBitsAre(it, cl, bits0);
    hide *;
    next := i;
    var code := e[next];
    WriteSymbol(writer, treeCl, code);
    if code >= 16 {
      next := next + 1;
      WriteExtra(writer, e[next], code, it);
    }
    next := next + 1;
  }

  lemma ItemBitsAre(it: Item, cl: seq<nat>, bits0: seq<bool>)
    requires ValidLengths(cl) && it.code < |cl|
    ensures bits0 + ItemBits(it, cl) == bits0 + CodeBits(cl, it.code) + ToLsb(it.extra, ExtraBits(it.code))
    ensures it.code < 16 ==> bits0 + ItemBits(it, cl) == bits0 + CodeBits(cl, it.code)
  {
    hide CodeBits;
    NoBitsLsb(it.extra);
  }

  lemma ItemInArray(e: array<nat>, num: nat, i: nat, it: Item)
    requires i < num <= e.Length && ItemAt(e[..num], i, it)
    ensures e[i] == it.code && (it.code > 15 ==> i + 1 < e.Length && e[i + 1] == it.extra)
  {}

  method WriteExtra(writer: BitWriter, extra: nat, code: nat, ghost it: Item)
    requires writer.Valid() && 16 <= code <= 18 && it == Item(code, extra) && ItemOk(it)
    modifies writer
    ensures writer.Valid() && writer.bits == old(writer.bits) + ToLsb(extra, ExtraBits(code))
  {
    hide BitWriter.Valid, ToLsb;
    writer.WriteBits(extra, if code == 16 then 2 else if code == 17 then 3 else 7);
  }

  lemma ItemEncodableStep(items: seq<Item>, k: nat, cl: seq<nat>)
    requires ValidLengths(cl) && ItemsEncodable(items, cl) && k <= |items|
    ensures ItemsEncodable(items[..k], cl)
    ensures k < |items| ==> ItemsEncodable(items[..k + 1], cl) && items[k].code < |cl|
                            && ItemsBits(items[..k + 1], cl) == ItemsBits(items[..k], cl) + ItemBits(items[k], cl)
  {
    hide ItemsBits, ItemBits;
    if k < |items| {
      TakeNext(items, k);
      ItemsBitsAppend(items[..k], items[k], cl);
    }
  }

  lemma ItemsStep(items: seq<Item>, e: seq<nat>, k: nat, cl: seq<nat>, bits0: seq<bool>)
    requires e == FlatItems(items) && AllItemsOk(items) && ValidLengths(cl) && ItemsEncodable(items, cl) && k <= |items|
    requires |FlatItems(items[..k])| < |e|
    ensures k < |items| && ItemOk(items[k]) && ItemAt(e, |FlatItems(items[..k])|, items[k]) && items[k].code < |cl|
    ensures |FlatItems(items[..k])| < |FlatItems(items[..k + 1])| == |FlatItems(items[..k])| + |FlatItem(items[k])|
          <= |e|
    ensures ItemsEncodable(items[..k], cl) && ItemsEncodable(items[..k + 1], cl)
    ensures bits0 + ItemsBits(items[..k + 1], cl) == bits0 + ItemsBits(items[..k], cl) + ItemBits(items[k], cl)
  {
    hide *;
    ItemStep(items, e, k);
    ItemShape(items[k]);
    ItemEncodableStep(items, k, cl);
    ConcatAssoc(bits0, ItemsBits(items[..k], cl), ItemBits(items[k], cl));
  }

  method WriteItems(writer: BitWriter, e: array<nat>, num: nat, treeCl: HuffmanTree, ghost items: seq<Item>)
    requires writer.Valid() && treeCl.Ready()
    requires num <= e.Length && e[..num] == FlatItems(items) && AllItemsOk(items)
    requires ItemsEncodable(items, treeCl.lengths[..])
    modifies writer
    ensures writer.Valid() && writer.bits == old(writer.bits) + ItemsBits(items, treeCl.lengths[..])
  {
    hide *;
    ReadyHasLengths(treeCl);
    ghost var cl, bits0, flat := treeCl.lengths[..], writer.bits, e[..num];
    ghost var k := 0;
    var i := 0;
    NoItems(items, cl);
    assert bits0 + [] == bits0;
    while i < num
      invariant writer.Valid()
      invariant k <= |items| && ItemsEncodable(items[..k], cl)
      invariant i == |FlatItems(items[..k])| <= num
      invariant writer.bits == bits0 + ItemsBits(items[..k], cl)
    {
      ItemsStep(items, flat, k, cl, bits0);
      i := WriteItem(writer, e, num, i, treeCl, items[k], flat);
      k := k + 1;
    }
    ItemStep(items, flat, k);
    TakeAll(items, k);
  }

  /** Trailing zero lengths are not stored, but at least four lengths are. */
  method StoredClLengths(treeCl: HuffmanTree) returns (num: nat)
    requires treeCl.Ready() && treeCl.lengths.Length == 19 && forall k | 0 <= k < 19 :: treeCl.lengths[k] <= 7
    ensures ClOk(treeCl.lengths[..], num)
    ensures num > 4 ==> treeCl.lengths[SymbolAt(num - 1)] != 0
  {
    hide Place, SymbolAt, HuffmanTree.Ready;
    OrderByRule();
    num := 19;
    while num > 4 && treeCl.lengths[CLCLORDER[num - 1]] == 0
      invariant 4 <= num <= 19
      invariant forall i | num <= i < 19 :: treeCl.lengths[CLCLORDER[i]] == 0
    {
      num := num - 1;
    }
    forall j | 0 <= j < 19 && Place(j) >= num ensures treeCl.lengths[j] == 0 {
      assert CLCLORDER[Place(j)] == j;
    }
  }

  method WriteClLengths(writer: BitWriter, treeCl: HuffmanTree, num: nat)
    requires writer.Valid() && treeCl.lengths.Length == 19 && num <= 19
    modifies writer
    ensures writer.Valid() && writer.bits == old(writer.bits) + ClBits(treeCl.lengths[..], num)
  {
    hide Holds, ToLsb;
    OrderByRule();
    ghost var cl, bits0 := treeCl.lengths[..], writer.bits;
    for i := 0 to num
      invariant writer.Valid() && writer.bits == bits0 + ClBits(cl, i)
    {
      writer.WriteBits(treeCl.lengths[CLCLORDER[i]], 3);
    }
  }

  method WriteTrees(writer: BitWriter, treeCl: HuffmanTree, e: array<nat>, num: nat, numLL: nat, numD: nat, numCl: nat,
                    ghost b: Block)
    requires writer.Valid() && treeCl.Ready() && treeCl.lengths.Length == 19 && b.Dynamic? && TreesOk(b)
    requires b.cl == treeCl.lengths[..] && b.hclen == numCl && |b.ll| == numLL && |b.d| == numD
    requires num <= e.Length && e[..num] == FlatItems(b.items)
    modifies writer
    ensures writer.Valid() && writer.bits == old(writer.bits) + TreesBits(b)
    ensures var p := |old(writer.bits)|;
            && Field(writer.bits, p, 5) == numLL - 257 && Field(writer.bits, p + 5, 5) == numD - 1
            && Field(writer.bits, p + 10, 4) == numCl - 4
            && forall s | 0 <= s < 19 ::
                 var place := if s >= 16 then s - 16 else if s == 0 then 3
                     else if s >= 8 then 4 + 2 * (s - 8) else 5 + 2 * (7 - s);
                 treeCl.lengths[s] == if place < numCl then Field(writer.bits, p + 14 + 3 * place, 3) else 0
  {
    hide HuffmanTable.TableOk, Code, Holds, FlatItems, ItemsBits, ItemsOk, ItemsExpand, Kraft, ToLsb, ClBits, Field;
    hide HuffmanTree.HasCodes;
    ghost var bits0 := writer.bits;
    ItemsAreOk(b.items, []);
    writer.WriteBits(numLL - 257, 5);
    writer.WriteBits(numD - 1, 5);
    writer.WriteBits(numCl - 4, 4);
    WriteClLengths(writer, treeCl, numCl);
    WriteItems(writer, e, num, treeCl, b.items);
    assert writer.bits == bits0 + TreesBits(b);
    HeaderFields(writer.bits, |bits0|, b);
  }

  /** The counts and the code length code lengths stand where the format has them. */
  lemma HeaderFields(bits: seq<bool>, p: nat, b: Block)
    requires b.Dynamic? && TreesOk(b) && p <= |bits| && bits[p..] == TreesBits(b)
    ensures Field(bits, p, 5) == |b.ll| - 257 && Field(bits, p + 5, 5) == |b.d| - 1
    ensures Field(bits, p + 10, 4) == b.hclen - 4
    ensures forall s | 0 <= s < 19 ::
              var place := if s >= 16 then s - 16 else if s == 0 then 3
                  else if s >= 8 then 4 + 2 * (s - 8) else 5 + 2 * (7 - s);
              b.cl[s] == if place < b.hclen then Field(bits, p + 14 + 3 * place, 3) else 0
  {
    hide At, Field, TreesBits, ClBits, ItemsBits, Kraft, ItemsExpand, ItemsOk, ItemsEncodable;
    assert At(bits, p, TreesBits(b)) by { AllBehind(bits, p, TreesBits(b)); }
    TreesFields(bits, p, b);
    forall s | 0 <= s < 19 && Place(s) < b.hclen ensures b.cl[s] == Field(bits, p + 14 + 3 * Place(s), 3) {
      ClAt(bits, p + 14, b.cl, b.hclen, s);
    }
  }

  lemma AllBehind(bits: seq<bool>, p: nat, s: seq<bool>)
    requires p <= |bits| && bits[p..] == s
    ensures At(bits, p, s)
  {}

  // ---------------------------------------------------------------- blocks

  /** Block `b`, read after `data[..start]`, adds `data[start..end]`. */
  ghost predicate Describes(b: Block, data: seq<byte>, start: nat, end: nat) {
    start <= end <= |data| && BlockOk(b, data[..start]) && Expand(b.tokens, data[..start]) == data[..end]
  }

  ghost predicate HashReady(hash: Hash, settings: CompressSettings, v: nat, data: seq<byte>)
    reads hash, hash.head, hash.chain, hash.val, hash.headz, hash.chainz, hash.zeros
  {
    hash.size == settings.windowsize && (settings.useLz77 && settings.windowsize > 0 ==> hash.Valid(v, data))
  }

  method ChooseTokens(hash: Hash, data: seq<byte>, datapos: nat, dataend: nat, settings: CompressSettings)
    returns (error: nat, values: seq<nat>, ghost tokens: seq<Token>)
    requires datapos <= dataend <= |data| && HashReady(hash, settings, datapos, data)
    modifies hash.head, hash.chain, hash.val, hash.headz, hash.chainz, hash.zeros
    ensures error == WindowError(settings)
    ensures error == 0 ==> HashReady(hash, settings, dataend, data) && Encoded(data, datapos, dataend, tokens, values)
  {
    if settings.useLz77 {
      error, values, tokens := EncodeLZ77(hash, data, datapos, dataend, settings.windowsize,
                                          settings.minmatch, settings.nicematch, settings.lazymatching);
    } else {
      hide Encoded;
      error, values, tokens := 0, [], [];
      Lz77.Begin(data, datapos, dataend);
      for i := datapos to dataend
        invariant Encoded(data, datapos, i, tokens, values)
      {
        EncodeLiteral(data, datapos, i, tokens, values);
        values := values + [data[i]];
        tokens := tokens + [Literal(data[i])];
      }
    }
  }

  /** The two trees of a dynamic block. Package merge never fails here and its trees are never rejected. */
  method MakeTrees(values: seq<nat>, treeLL: HuffmanTree, treeD: HuffmanTree, ghost tokens: seq<Token>)
    returns (error: nat)
    requires TokensOk(tokens) && values == Flatten(tokens) && treeLL != treeD
    modifies treeLL, treeD
    ensures error == 0 && treeLL.Ready() && treeD.Ready()
    ensures Complete(treeLL.lengths[..]) && Complete(treeD.lengths[..])
    ensures 257 <= treeLL.numcodes <= 286 && 2 <= treeD.numcodes <= 30 && treeLL.lengths[256] > 0
    ensures AllEncodable(tokens, treeLL.lengths[..], treeD.lengths[..])
  {
    hide HuffmanTable.TableOk, HuffmanTree.HasCodes, HuffmanTree.HasLengths, Pow2, Kraft, UsesLL, UsesD, AllEncodable,
        Flatten;
    assert Pow2(15) == 0x8000 by { Pow2Values(); }
    var frequenciesLL, frequenciesD := new nat[286](_ => 0), new nat[30](_ => 0);
    CountFrequencies(values, frequenciesLL, frequenciesD, tokens);
    frequenciesLL[256] := 1;
    error := treeLL.MakeFromFrequencies(frequenciesLL, 257, 286, 15);
    if error != 0 { return; }
    ghost var ll, fl := treeLL.lengths[..], frequenciesLL[..treeLL.numcodes];
    error := treeD.MakeFromFrequencies(frequenciesD, 2, 30, 15);
    if error != 0 { return; }
    forall s | 0 <= s < 286 && UsesLL(tokens, s) > 0 ensures s < |ll| && ll[s] > 0 {
      assert frequenciesLL[s] > 0;
      assert s < |fl| ==> fl[s] == frequenciesLL[s];
    }
    assert ll[256] > 0 by { assert fl[256] == 1; }
    ghost var d, fd := treeD.lengths[..], frequenciesD[..treeD.numcodes];
    forall s | 0 <= s < 30 && UsesD(tokens, s) > 0 ensures s < |d| && d[s] > 0 {
      assert s < |fd| ==> fd[s] == frequenciesD[s];
    }
    UsedEncodable(tokens, treeLL.lengths[..], treeD.lengths[..]);
  }

  /** The code length code, and the coded lengths it is for. */
  method MakeClTree(lld: array<nat>, e: array<nat>, treeCl: HuffmanTree)
    returns (error: nat, num: nat, ghost items: seq<Item>)
    requires lld != e && lld.Length == e.Length && (forall i | 0 <= i < lld.Length :: lld[i] <= 15)
    modifies e, treeCl
    ensures error == 0 && treeCl.Ready() && treeCl.lengths.Length == 19 && Complete(treeCl.lengths[..])
    ensures forall k | 0 <= k < 19 :: treeCl.lengths[k] <= 7
    ensures num <= e.Length && Coded(lld[..], lld.Length, items, e[..num]) && ItemsEncodable(items, treeCl.lengths[..])
  {
    hide HuffmanTable.TableOk, HuffmanTable.MaxLens, Code, Pow2, Kraft, FlatItems, ItemUses, ItemsOk, ItemsExpand;
    assert Pow2(7) == 128 by { Pow2Values(); }
    ghost var ls := lld[..];
    num, items := EncodeLengths(lld, e);
    ghost var flat := e[..num];
    var frequenciesCl := new nat[19](_ => 0);
    ItemsAreOk(items, []);
    CountItems(e, num, frequenciesCl, items);
    error := treeCl.MakeFromFrequencies(frequenciesCl, 19, 19, 7);
    forall k | 0 <= k < |items| ensures items[k].code < 19 && treeCl.lengths[items[k].code] > 0 {
      ItemUsed(items, k);
    }
    assert e[..num] == flat;
  }

  method LengthsOfTrees(treeLL: HuffmanTree, treeD: HuffmanTree, numLL: nat, numD: nat) returns (lld: array<nat>)
    requires numLL <= treeLL.lengths.Length && numD <= treeD.lengths.Length
    ensures fresh(lld) && lld[..] == treeLL.lengths[..numLL] + treeD.lengths[..numD]
  {
    ghost var ll, d := treeLL.lengths[..numLL], treeD.lengths[..numD];
    lld := new nat[numLL + numD];
    for i := 0 to numLL
      modifies lld
      invariant lld[..i] == ll[..i]
    {
      lld[i] := treeLL.lengths[i];
    }
    for i := 0 to numD
      modifies lld
      invariant lld[..numLL + i] == ll + d[..i]
    {
      lld[numLL + i] := treeD.lengths[i];
    }
    assert lld[..] == ll + d;
  }

  method WriteHeader(writer: BitWriter, final: bool, first: nat, second: nat)
    requires writer.Valid() && first < 2 && second < 2
    modifies writer
    ensures writer.Valid() && writer.bits == old(writer.bits) + [final, first == 1, second == 1]
  {
    hide Holds;
    assert forall v: nat | v < 2 :: ToLsb(v, 1) == [v == 1];
    writer.WriteBits(if final then 1 else 0, 1);
    writer.WriteBits(first, 1);
    writer.WriteBits(second, 1);
  }

  /** Run-length codes the lengths of both trees and makes the tree for the result. */
  method DescribeTrees(treeLL: HuffmanTree, treeD: HuffmanTree, numLL: nat, numD: nat, ghost tokens: seq<Token>)
    returns (error: nat, treeCl: HuffmanTree, e: array<nat>, num: nat, numCl: nat, ghost b: Block)
    requires numLL == treeLL.lengths.Length && numD == treeD.lengths.Length
    requires Complete(treeLL.lengths[..]) && Complete(treeD.lengths[..])
    requires 257 <= numLL <= 286 && 2 <= numD <= 30 && treeLL.lengths[256] > 0
    ensures error == 0 && treeCl.Ready() && treeCl.lengths.Length == 19 && fresh(e)
    ensures b.Dynamic? && TreesOk(b) && b.tokens == tokens && b.ll == treeLL.lengths[..] && b.d == treeD.lengths[..]
    ensures b.cl == treeCl.lengths[..] && b.hclen == numCl && num <= e.Length && e[..num] == FlatItems(b.items)
  {
    hide HuffmanTable.TableOk, HuffmanTree.HasCodes, FlatItems, ItemsOk, ItemsExpand, Kraft, ClOk, ItemsEncodable;
    ghost var ll, d := treeLL.lengths[..], treeD.lengths[..];
    var lld := LengthsOfTrees(treeLL, treeD, numLL, numD);
    assert treeLL.lengths[..numLL] == ll && treeD.lengths[..numD] == d;
    forall i | 0 <= i < lld.Length ensures lld[i] <= 15 {
      assert lld[i] == (ll + d)[i];
    }
    e := new nat[numLL + numD];
    treeCl := new HuffmanTree();
    ghost var items;
    error, num, items := MakeClTree(lld, e, treeCl);
    assert lld[..] == ll + d;
    numCl := StoredClLengths(treeCl);
    b := Dynamic(tokens, ll, d, treeCl.lengths[..], numCl, items);
    assert (ll + d)[..lld.Length] == ll + d;
  }

  /** Everything of a dynamic block but its data. */
  method WriteDynamicHeader(writer: BitWriter, treeLL: HuffmanTree, treeD: HuffmanTree, final: bool,
                            ghost tokens: seq<Token>)
    returns (error: nat, ghost b: Block)
    requires writer.Valid() && treeLL.HasLengths() && treeD.HasLengths()
    requires Complete(treeLL.lengths[..]) && Complete(treeD.lengths[..])
    requires 257 <= treeLL.numcodes <= 286 && 2 <= treeD.numcodes <= 30 && treeLL.lengths[256] > 0
    modifies writer
    ensures writer.Valid() && error == 0 && b.Dynamic? && TreesOk(b)
    ensures b.tokens == tokens && b.ll == treeLL.lengths[..] && b.d == treeD.lengths[..]
    ensures writer.bits == old(writer.bits) + [final, false, true] + TreesBits(b)
  {
    hide HuffmanTable.TableOk, HuffmanTree.HasCodes, HuffmanTree.Ready, FlatItems, TreesBits, Holds, TreesOk,
        Stream.Complete;
    var numLL := if treeLL.numcodes < 286 then treeLL.numcodes else 286;
    var numD := if treeD.numcodes < 30 then treeD.numcodes else 30;
    var treeCl, e, num, numCl;
    error, treeCl, e, num, numCl, b := DescribeTrees(treeLL, treeD, numLL, numD, tokens);
    WriteHeader(writer, final, 0, 1);
    WriteTrees(writer, treeCl, e, num, numLL, numD, numCl, b);
  }

  method WriteDynamic(writer: BitWriter, values: seq<nat>, treeLL: HuffmanTree, treeD: HuffmanTree, final: bool,
                      ghost data: seq<byte>, ghost datapos: nat, ghost dataend: nat, ghost tokens: seq<Token>)
    returns (error: nat, ghost b: Block)
    requires writer.Valid() && treeLL != treeD && treeLL.Ready() && treeD.Ready()
    requires Complete(treeLL.lengths[..]) && Complete(treeD.lengths[..])
    requires 257 <= treeLL.numcodes <= 286 && 2 <= treeD.numcodes <= 30 && treeLL.lengths[256] > 0
    requires AllEncodable(tokens, treeLL.lengths[..], treeD.lengths[..])
    requires Encoded(data, datapos, dataend, tokens, values)
    modifies writer
    ensures writer.Valid() && error == 0 && Describes(b, data, datapos, dataend)
    ensures writer.bits == old(writer.bits) + BlockBits(b, data[..datapos], final)
  {
    hide HuffmanTree.Ready, HuffmanTree.HasCodes, BitWriter.Valid, AllEncodable, Expand, Expandable, TreesOk,
         TokensOk, Flatten, CodeBits, TokensBits, TreesBits, BlockBits, BodyBits;
    ghost var bits0 := writer.bits;
    ReadyHasLengths(treeLL);
    ReadyHasLengths(treeD);
    error, b := WriteDynamicHeader(writer, treeLL, treeD, final, tokens);
    if error != 0 { return; }
    DynamicBits(b, data[..datapos], final, bits0);
    WriteLZ77Data(writer, values, treeLL, treeD, tokens);
    assert treeLL.lengths[256] != 0;  // error 64 is never raised
    WriteSymbol(writer, treeLL, 256);
  }

  lemma ReadyHasLengths(tree: HuffmanTree)
    requires tree.Ready()
    ensures tree.HasLengths() && ValidLengths(tree.lengths[..])
  {}

  lemma DynamicBits(b: Block, out: seq<byte>, final: bool, bits0: seq<bool>)
    requires b.Dynamic? && BlockOk(b, out)
    ensures TreesOk(b) && AllEncodable(b.tokens, b.ll, b.d)
    ensures bits0 + BlockBits(b, out, final)
         == bits0 + [final, false, true] + TreesBits(b) + TokensBits(b.tokens, b.ll, b.d) + CodeBits(b.ll, 256)
  {
    hide TreesOk, AllEncodable, TreesBits, TokensBits, CodeBits, Expandable;
    DynamicParts(b);
  }

  method DeflateDynamic(writer: BitWriter, hash: Hash, data: seq<byte>, datapos: nat, dataend: nat,
                        settings: CompressSettings, final: bool)
    returns (error: nat, ghost b: Block)
    requires writer.Valid() && datapos <= dataend <= |data| && HashReady(hash, settings, datapos, data)
    modifies writer, hash.head, hash.chain, hash.val, hash.headz, hash.chainz, hash.zeros
    ensures writer.Valid() && error == WindowError(settings)
    ensures error == 0 ==> HashReady(hash, settings, dataend, data) && Describes(b, data, datapos, dataend)
    ensures error == 0 ==> writer.bits == old(writer.bits) + BlockBits(b, data[..datapos], final)
  {
    hide HuffmanTable.TableOk, HuffmanTable.MaxLens, Code, Kraft, AllEncodable, Holds, BlockBits, HeadsOk, ChainOk,
        ZerosOk, Expand, Expandable;
    ghost var tokens;
    var values;
    b := Fixed([]);
    error, values, tokens := ChooseTokens(hash, data, datapos, dataend, settings);
    if error != 0 { return; }
    var treeLL := new HuffmanTree();
    var treeD := new HuffmanTree();
    error := MakeTrees(values, treeLL, treeD, tokens);
    if error != 0 { return; }
    error, b := WriteDynamic(writer, values, treeLL, treeD, final, data, datapos, dataend, tokens);
  }

  lemma FixedEncodable(tokens: seq<Token>)
    requires TokensOk(tokens)
    ensures AllEncodable(tokens, FixedLL(), FixedD())
  {
    Inflate.FixedLLAt();
  }

  method DeflateFixed(writer: BitWriter, hash: Hash, data: seq<byte>, datapos: nat, dataend: nat,
                      settings: CompressSettings, final: bool)
    returns (error: nat, ghost b: Block)
    requires writer.Valid() && datapos <= dataend <= |data| && HashReady(hash, settings, datapos, data)
    modifies writer, hash.head, hash.chain, hash.val, hash.headz, hash.chainz, hash.zeros
    ensures writer.Valid() && error == WindowError(settings)
    ensures error == 0 ==> HashReady(hash, settings, dataend, data) && Describes(b, data, datapos, dataend)
    ensures error == 0 ==> writer.bits == old(writer.bits) + BlockBits(b, data[..datapos], final)
  {
    hide *;
    b := Fixed([]);
    var treeLL := new HuffmanTree();
    var treeD := new HuffmanTree();
    error := Inflate.GenerateFixedLitLenTree(treeLL);
    if error == 0 { error := Inflate.GenerateFixedDistanceTree(treeD); }
    WriteHeader(writer, final, 1, 0);
    ghost var tokens;
    error, tokens := WriteFixedData(writer, hash, data, datapos, dataend, settings, treeLL, treeD);
    if error == 0 {
      b := Fixed(tokens);
      DescribedBlock(b, data, datapos, dataend);
      FixedBits(tokens, data[..datapos], final);
    }
  }

  lemma FixedBits(tokens: seq<Token>, out: seq<byte>, final: bool)
    requires BlockOk(Fixed(tokens), out)
    ensures ValidLengths(FixedLL()) && ValidLengths(FixedD()) && AllEncodable(tokens, FixedLL(), FixedD())
    ensures BlockBits(Fixed(tokens), out, final)
         == [final, true, false] + TokensBits(tokens, FixedLL(), FixedD()) + CodeBits(FixedLL(), 256)
  {
    hide CodeBits, TokensBits, AllEncodable, FixedLL, FixedD;
    FixedValid();
  }

  method WriteFixedData(writer: BitWriter, hash: Hash, data: seq<byte>, datapos: nat, dataend: nat,
                        settings: CompressSettings, treeLL: HuffmanTree, treeD: HuffmanTree)
    returns (error: nat, ghost tokens: seq<Token>)
    requires writer.Valid() && datapos <= dataend <= |data| && HashReady(hash, settings, datapos, data)
    requires treeLL.Ready() && treeD.Ready() && treeLL.lengths[..] == FixedLL() && treeD.lengths[..] == FixedD()
    requires {treeLL.lengths, treeLL.codes, treeLL.tableLen, treeLL.tableValue} !! {hash.chain, hash.chainz, hash.zeros}
    requires {treeD.lengths, treeD.codes, treeD.tableLen, treeD.tableValue} !! {hash.chain, hash.chainz, hash.zeros}
    modifies writer, hash.head, hash.chain, hash.val, hash.headz, hash.chainz, hash.zeros
    ensures writer.Valid() && error == WindowError(settings)
    ensures error == 0 ==> HashReady(hash, settings, dataend, data) && Describes(Fixed(tokens), data, datapos, dataend)
    ensures ValidLengths(FixedLL()) && ValidLengths(FixedD())
    ensures error == 0 ==> AllEncodable(tokens, FixedLL(), FixedD())
    ensures error == 0 ==>
              writer.bits == old(writer.bits) + (TokensBits(tokens, FixedLL(), FixedD()) + CodeBits(FixedLL(), 256))
  {
    hide HuffmanTree.Ready, HuffmanTree.HasCodes, Hash.Valid, Holds, Expand, Expandable,
         FixedLL, FixedD, AllEncodable, TokensBits, CodeBits, Encoded, Describes;
    FixedValid();
    if settings.useLz77 {
      var values;
      error, values, tokens := EncodeLZ77(hash, data, datapos, dataend, settings.windowsize,
                                          settings.minmatch, settings.nicematch, settings.lazymatching);
      if error == 0 {
        FixedDescribes(tokens, data, datapos, dataend, values);
        WriteLZ77Data(writer, values, treeLL, treeD, tokens);
      }
    } else {
      error := 0;
      tokens := WriteLiterals(writer, treeLL, data, datapos, dataend, FixedD());
    }
    if error == 0 { WriteSymbol(writer, treeLL, 256); }
  }

  lemma FixedDescribes(tokens: seq<Token>, data: seq<byte>, start: nat, end: nat, values: seq<nat>)
    requires Encoded(data, start, end, tokens, values)
    ensures TokensOk(tokens) && values == Flatten(tokens) && AllEncodable(tokens, FixedLL(), FixedD())
    ensures Describes(Fixed(tokens), data, start, end)
  {
    FixedEncodable(tokens);
  }

  method WriteLiterals(writer: BitWriter, treeLL: HuffmanTree, data: seq<byte>, datapos: nat, dataend: nat,
                       ghost d: seq<nat>)
    returns (ghost tokens: seq<Token>)
    requires writer.Valid() && treeLL.Ready() && datapos <= dataend <= |data|
    requires treeLL.lengths[..] == FixedLL() && d == FixedD()
    modifies writer
    ensures writer.Valid() && ValidLengths(FixedLL()) && Describes(Fixed(tokens), data, datapos, dataend)
    ensures AllEncodable(tokens, FixedLL(), d)
    ensures writer.bits == old(writer.bits) + TokensBits(tokens, FixedLL(), d)
  {
    hide *;
    FixedValid();
    ghost var bits0, values := writer.bits, [];
    tokens := [];
    Lz77.Begin(data, datapos, dataend);
    NoLiterals(FixedLL(), d, bits0);
    for i := datapos to dataend
      invariant writer.Valid() && Encoded(data, datapos, i, tokens, values) && AllEncodable(tokens, FixedLL(), d)
      invariant writer.bits == bits0 + TokensBits(tokens, FixedLL(), d)
    {
      OneLiteral(data, datapos, i, tokens, values, FixedLL(), d, bits0);
      WriteSymbol(writer, treeLL, data[i]);
      tokens, values := tokens + [Literal(data[i])], values + [data[i] as nat];
    }
    FixedDescribes(tokens, data, datapos, dataend, values);
  }

  lemma NoLiterals(ll: seq<nat>, d: seq<nat>, bits0: seq<bool>)
    requires ValidLengths(ll) && ValidLengths(d)
    ensures AllEncodable([], ll, d) && bits0 + TokensBits([], ll, d) == bits0
  {}

  lemma OneLiteral(data: seq<byte>, start: nat, i: nat, tokens: seq<Token>, values: seq<nat>, ll: seq<nat>, d: seq<nat>,
                   bits0: seq<bool>)
    requires ll == FixedLL() && d == FixedD() && ValidLengths(ll) && ValidLengths(d)
    requires i < |data| && Encoded(data, start, i, tokens, values) && AllEncodable(tokens, ll, d)
    ensures Encoded(data, start, i + 1, tokens + [Literal(data[i])], values + [data[i] as nat])
    ensures AllEncodable(tokens + [Literal(data[i])], ll, d)
    ensures bits0 + TokensBits(tokens + [Literal(data[i])], ll, d) == bits0 + TokensBits(tokens, ll, d)
          + CodeBits(ll, data[i])
  {
    hide Encoded, CodeBits, TokensBits, FixedLL, FixedD, Encodable;
    var t := Literal(data[i]);
    EncodeLiteral(data, start, i, tokens, values);
    FixedDescribes(tokens + [t], data, start, i + 1, values + [data[i] as nat]);
    assert (tokens + [t])[|tokens|] == t;
    TokensBitsAppend(tokens, t, ll, d);
    ConcatAssoc(bits0, TokensBits(tokens, ll, d), CodeBits(ll, data[i]));
  }

  // ---------------------------------------------------------------- stored blocks

  /** The stored blocks for `data[pos..]`. */
  ghost function Stored(data: seq<byte>, pos: nat): (s: seq<byte>)
    requires pos <= |data|
    ensures (s == []) == (pos == |data|)
    decreases |data| - pos
  {
    if pos == |data| then []
    else
      var n := StoredSize(|data| - pos);
      StoredHeader(n, pos + n == |data|) + data[pos..pos + n] + Stored(data, pos + n)
  }

  function StoredSize(left: nat): (n: nat)
    ensures n <= 65535 && n <= left && (left > 0 ==> n > 0)
  {
    if left < 65535 then left else 65535
  }

  function StoredHeader(n: nat, final: bool): (s: seq<byte>)
    requires n <= 65535
    ensures |s| == 5
  {
    [if final then 1 else 0, n % 256, n / 256, (65535 - n) % 256, (65535 - n) / 256]
  }

  method DeflateNoCompression(out: Inflate.ByteVector, data: seq<byte>) returns (error: nat)
    modifies out
    ensures error == 0 && out.data == old(out.data) + Stored(data, 0)
  {
    var size := |data|;
    var numBlocks := (size + 65534) / 65535;
    var datapos := 0;
    hide Stored;
    ghost var all := out.data + Stored(data, 0);
    for i := 0 to numBlocks
      invariant datapos == (if i < numBlocks then 65535 * i else size) <= size
      invariant out.data + Stored(data, datapos) == all
    {
      var final := i == numBlocks - 1;
      var len := if size - datapos < 65535 then size - datapos else 65535;
      StoredGrow(out.data, data, datapos, len);
      AppendStored(out, data, datapos, len, final);
      datapos := datapos + len;
    }
    error := 0;
  }

  lemma StoredNext(data: seq<byte>, pos: nat, n: nat)
    requires pos < |data| && n == StoredSize(|data| - pos)
    ensures Stored(data, pos) == StoredHeader(n, pos + n == |data|) + data[pos..pos + n] + Stored(data, pos + n)
  {}

  lemma StoredGrow(out: seq<byte>, data: seq<byte>, pos: nat, n: nat)
    requires pos < |data| && n == StoredSize(|data| - pos)
    ensures out + Stored(data, pos) == out + StoredHeader(n, pos + n == |data|) + data[pos..pos + n]
          + Stored(data, pos + n)
  {
    hide Stored, StoredHeader, StoredSize;
    StoredNext(data, pos, n);
  }

  method AppendStored(out: Inflate.ByteVector, data: seq<byte>, datapos: nat, len: nat, final: bool)
    requires datapos + len <= |data| && len <= 65535
    modifies out
    ensures out.data == old(out.data) + StoredHeader(len, final) + data[datapos..datapos + len]
  {
    var pos := |out.data|;
    var nlen := 65535 - len;
    out.Grow(len + 5);
    out.data := out.data[pos := if final then 1 else 0];
    out.data := out.data[pos + 1 := len % 256];
    out.data := out.data[pos + 2 := len / 256];
    out.data := out.data[pos + 3 := nlen % 256];
    out.data := out.data[pos + 4 := nlen / 256];
    out.data := out.data[..pos + 5] + data[datapos..datapos + len];
  }

  /** Stored blocks are read back, whatever stands before and behind them in the stream. */
  lemma {:induction false} ReadStoredBlocks(stream: seq<byte>, q: nat, data: seq<byte>, pos: nat, tail: seq<byte>,
                                            settings: DecompressSettings)
    requires pos < |data| && q <= |stream| && stream[q..] == Stored(data, pos) + tail
    requires !TooLarge(|data|, settings.maxOutputSize)
    ensures ReadBlocks(stream, 8 * q, data[..pos], settings) == Some(data)
    decreases |data| - pos
  {
    hide ReadBlocks, Stored, StoredHeader, StoredSize;
    var n := StoredSize(|data| - pos);
    var final := pos + n == |data|;
    var rest := Stored(data, pos + n) + tail;
    StoredNext(data, pos, n);
    assert Stored(data, pos) + tail == StoredHeader(n, final) + data[pos..pos + n] + rest;
    StoredAt(stream, q, data[pos..pos + n], n, final, rest);
    assert data[..pos] + data[pos..pos + n] == data[..pos + n];
    ReadOneStored(stream, q, data[pos..pos + n], final, data[..pos], settings);
    if final {
      assert data[..pos + n] == data;
    } else {
      assert pos + n < |data|;
      ReadStoredBlocks(stream, q + 5 + n, data, pos + n, tail, settings);
    }
  }

  lemma ReadOneStored(stream: seq<byte>, q: nat, body: seq<byte>, final: bool, out: seq<byte>,
                      settings: DecompressSettings)
    requires q + 5 + |body| <= |stream| && stream[q] == (if final then 1 else 0)
    requires stream[q + 1] as int + 256 * stream[q + 2] as int == |body|
    requires stream[q + 3] as int + 256 * stream[q + 4] as int == 65535 - |body|
    requires stream[q + 5..q + 5 + |body|] == body && body != [] && !TooLarge(|out + body|, settings.maxOutputSize)
    ensures ReadBlocks(stream, 8 * q, out, settings)
         == if final then Some(out + body) else ReadBlocks(stream, 8 * (q + 5 + |body|), out + body, settings)
  {
    hide BitsOf, Field, Window;
    StoredBits(stream, q);
    assert (8 * q + 3 + 7) / 8 == q + 1;
    assert ReadStored(stream, 8 * q + 3, out, settings.ignoreNlen) == Some(Reading(8 * (q + 5 + |body|), out + body));
  }

  /** One stored block: its three header bits, its length and its bytes. */
  lemma StoredAt(stream: seq<byte>, q: nat, body: seq<byte>, n: nat, final: bool, rest: seq<byte>)
    requires q <= |stream| && n == |body| <= 65535 && stream[q..] == StoredHeader(n, final) + body + rest
    ensures q + 5 + n <= |stream| && stream[q] == (if final then 1 else 0)
    ensures stream[q + 1] as int + 256 * stream[q + 2] as int == n
    ensures stream[q + 3] as int + 256 * stream[q + 4] as int == 65535 - n
    ensures stream[q + 5..q + 5 + n] == body && stream[q + 5 + n..] == rest
  {
    var s := stream[q..];
    assert forall j | 0 <= j < 5 :: stream[q + j] == s[j] == StoredHeader(n, final)[j];
    assert stream[q + 5..q + 5 + n] == s[5..5 + n] == body;
    assert stream[q + 5 + n..] == s[5 + n..] == rest;
  }

  lemma StoredBits(stream: seq<byte>, q: nat)
    requires q < |stream| && stream[q] <= 1
    ensures BitsOf(stream)[8 * q] == (stream[q] == 1) && Field(BitsOf(stream), 8 * q + 1, 2) == 0
  {
    hide BitsOf;
    var bits := BitsOf(stream);
    assert Pow2(0) == 1 && Pow2(1) == 2 && Pow2(2) == 4;
    BitsOfAt(stream, 8 * q);
    BitsOfAt(stream, 8 * q + 1);
    BitsOfAt(stream, 8 * q + 2);
    assert bits[8 * q] == BitAt(stream[q], 0);
    assert bits[8 * q + 1] == BitAt(stream[q], 1) == false;
    assert bits[8 * q + 2] == BitAt(stream[q], 2) == false;
    var w := Window(bits, 8 * q + 1, 2);
    assert w == [false, false] == Zeros(2);
    LsbZeros(2);
  }

  // ---------------------------------------------------------------- whole streams

  function BlockStart(i: nat, blocksize: nat): nat {
    i * blocksize
  }

  lemma BlockBounds(size: nat, blocksize: nat, num: nat, i: nat)
    requires blocksize > 0 && i < num
    requires num == if (size + blocksize - 1) / blocksize == 0 then 1 else (size + blocksize - 1) / blocksize
    ensures BlockStart(0, blocksize) == 0 && BlockStart(i, blocksize) <= size
    ensures BlockStart(i + 1, blocksize) == BlockStart(i, blocksize) + blocksize
    ensures if i + 1 < num then BlockStart(i + 1, blocksize) <= size else BlockStart(i + 1, blocksize) >= size
  {
    var q := (size + blocksize - 1) / blocksize;
    DivBounds(size + blocksize - 1, blocksize);
    BlockSums(q, blocksize);
    BlockSums(i, blocksize);
    if q > 0 {
      BlockSums(q - 1, blocksize);
      BlockOrder(i, q - 1, blocksize);
      if i + 1 < q { BlockOrder(i + 1, q - 1, blocksize); }
    }
    hide BlockStart;
  }

  lemma BlockSums(i: nat, blocksize: nat)
    ensures BlockStart(0, blocksize) == 0 && BlockStart(i, blocksize) == i * blocksize
    ensures BlockStart(i + 1, blocksize) == (i + 1) * blocksize == BlockStart(i, blocksize) + blocksize
  {
    MulDistribute(i, 1, blocksize);
  }

  lemma BlockOrder(i: nat, j: nat, blocksize: nat)
    requires i <= j
    ensures BlockStart(i, blocksize) <= BlockStart(j, blocksize)
  {
    MulLe(i, j, blocksize);
  }

  /** Nothing but the last block is missing from `bits`, and it is `last`. */
  ghost predicate Finished(all: seq<bool>, bits: seq<bool>, front: seq<Block>, last: Block, data: seq<byte>, pos: nat) {
    Written(bits, front, data, pos) && Describes(last, data, pos, |data|)
        && all == bits + BlockBits(last, data[..pos], true)
  }

  /** What the blocks written so far say. */
  ghost predicate Written(bits: seq<bool>, front: seq<Block>, data: seq<byte>, pos: nat) {
    pos <= |data| && BlocksOk(front, []) && Meaning(front, []) == data[..pos] && bits == OpenBits(front, [])
  }

  lemma WriteOne(bits: seq<bool>, front: seq<Block>, data: seq<byte>, pos: nat, b: Block, end: nat)
    requires Written(bits, front, data, pos) && Describes(b, data, pos, end)
    ensures Written(bits + BlockBits(b, data[..pos], false), front + [b], data, end)
  {
    hide BlockBits, BlockOk, Expand;
    BlocksAppend(front, [], b);
  }

  /** `stream` inflates to `data`, whatever follows it. */
  ghost predicate InflatesTo(stream: seq<byte>, data: seq<byte>) {
    forall tail, s: DecompressSettings | !TooLarge(|data|, s.maxOutputSize) ::
        Format.Inflate(stream + tail, s) == Some(data)
  }

  /** What was appended to `before` inflates to `data`. */
  ghost predicate Appended(before: seq<byte>, after: seq<byte>, data: seq<byte>) {
    before <= after && InflatesTo(after[|before|..], data)
  }

  /** Bits written behind whole bytes leave those bytes alone. */
  lemma BehindBytes(before: seq<byte>, body: seq<bool>, after: seq<byte>)
    requires Holds(after, BitsOf(before) + body)
    ensures before <= after && Holds(after[|before|..], body)
  {
    var n, all := |before|, BitsOf(before) + body;
    assert |BitsOf(before)| == 8 * n;
    forall k | 0 <= k < n ensures after[k] == before[k] {
      SameByte(before, body, after, k);
    }
    var rest := after[n..];
    forall i | 0 <= i < 8 * |rest| ensures BitsOf(rest)[i] == Window(body, 0, 8 * |rest|)[i] {
      hide BitsOf;
      BitsOfAt(rest, i);
      BitsOfAt(after, 8 * n + i);
      assert rest[i / 8] == after[(8 * n + i) / 8];
      assert BitsOf(after)[8 * n + i] == Window(all, 0, 8 * |after|)[8 * n + i];
    }
  }

  lemma SameByte(before: seq<byte>, body: seq<bool>, after: seq<byte>, k: nat)
    requires Holds(after, BitsOf(before) + body) && k < |before| <= |after|
    ensures after[k] == before[k]
  {
    hide BitsOf, Lsb;
    var all := BitsOf(before) + body;
    LsbOfByte(before, k);
    LsbOfByte(after, k);
    var a, b := Window(BitsOf(after), 8 * k, 8), Window(BitsOf(before), 8 * k, 8);
    forall i | 0 <= i < 8 ensures a[i] == b[i] {
      assert BitsOf(after)[8 * k + i] == Window(all, 0, 8 * |after|)[8 * k + i];
    }
    assert a == b;
  }

  lemma InflatesBack(stream: seq<byte>, all: seq<bool>, bits: seq<bool>, front: seq<Block>, last: Block,
                     data: seq<byte>, pos: nat)
    requires Finished(all, bits, front, last, data, pos) && Holds(stream, all)
    ensures InflatesTo(stream, data)
  {
    hide BlockBits, BlockOk, Expand, BitsOf;
    forall tail, s: DecompressSettings | !TooLarge(|data|, s.maxOutputSize)
      ensures Format.Inflate(stream + tail, s) == Some(data)
    {
      assert At(BitsOf(stream + tail), 0, all) by {
        BitsOfPrefix(stream, tail);
        assert BitsOf(stream)[..|all|] == Window(all, 0, 8 * |stream|)[..|all|] == all;
        assert BitsOf(stream + tail)[..|all|] == BitsOf(stream + tail)[..8 * |stream|][..|all|];
      }
      BlockExpandable(last, data[..pos]);
      assert data[..|data|] == data;
      ReadStream(stream + tail, 0, front, last, [], s);
    }
  }

  lemma BitsOfPrefix(a: seq<byte>, b: seq<byte>)
    ensures BitsOf(a + b)[..8 * |a|] == BitsOf(a)
  {
    forall i | 0 <= i < 8 * |a| ensures BitsOf(a + b)[i] == BitsOf(a)[i] {
      BitsOfAt(a, i);
      BitsOfAt(a + b, i);
    }
  }

  ghost function DeflateError(settings: CompressSettings): nat {
    if settings.btype > 2 then 61 else if settings.btype == 0 then 0 else WindowError(settings)
  }

  /** Inflating what was written gives the input back: for every input and all settings the encoder accepts,
      except that storing nothing writes nothing, which is not a stream.
      Type 1 takes the whole input for one block and divides by its size. */
  method DeflateV(out: Inflate.ByteVector, data: seq<byte>, settings: CompressSettings) returns (error: nat)
    requires !(settings.btype == 1 && data == [])
    modifies out
    ensures error == DeflateError(settings)
    ensures error == 0 ==> if settings.btype == 0 && data == [] then out.data == old(out.data)
          else Appended(old(out.data), out.data, data)
  {
    if settings.btype > 2 { return 61; }
    if settings.btype == 0 {
      error := DeflateNoCompression(out, data);
      StoredInflates(data);
      assert out.data[|old(out.data)|..] == Stored(data, 0);
      return;
    }
    error := DeflateBlocks(out, data, settings);
  }

  lemma StoredInflates(data: seq<byte>)
    ensures if data == [] then Stored(data, 0) == [] else InflatesTo(Stored(data, 0), data)
  {
    hide Stored;
    if data != [] {
      forall tail, s: DecompressSettings | !TooLarge(|data|, s.maxOutputSize)
        ensures Format.Inflate(Stored(data, 0) + tail, s) == Some(data)
      {
        assert data[..0] == [];
        ReadStoredBlocks(Stored(data, 0) + tail, 0, data, 0, tail, s);
      }
    }
  }

  /** The empty stream is not accepted. */
  lemma NothingInflates(s: DecompressSettings)
    ensures Format.Inflate([], s) == None
  {}

  /** The shortest stream the format allows for the empty string is not accepted either. */
  lemma EmptyStoredRejected(s: DecompressSettings)
    ensures Format.Inflate([1, 0, 0, 255, 255], s) == None
    ensures BlocksByRule([1, 0, 0, 255, 255], 0, [], s) == Some([])
  {
    hide BitsOf, Field, ReadBlock;
    var stream: seq<byte> := [1, 0, 0, 255, 255];
    StoredBits(stream, 0);
    RuleDiffers(stream, 0, [], s);
    StoredDiffers(stream, 3, [], s.ignoreNlen);
  }

  /** One more block of either type: the last one finishes the stream. */
  method DeflateBlock(writer: BitWriter, hash: Hash, data: seq<byte>, datapos: nat, dataend: nat,
                      settings: CompressSettings, final: bool, ghost before: seq<bool>, ghost bits: seq<bool>,
                      ghost front: seq<Block>)
    returns (error: nat, ghost bits': seq<bool>, ghost front': seq<Block>, ghost last: Block)
    requires writer.Valid() && datapos <= dataend <= |data| && HashReady(hash, settings, datapos, data)
    requires writer.bits == before + bits && Written(bits, front, data, datapos) && (final ==> dataend == |data|)
    modifies writer, hash.head, hash.chain, hash.val, hash.headz, hash.chainz, hash.zeros
    ensures writer.Valid() && error == WindowError(settings)
    ensures error == 0 ==> HashReady(hash, settings, dataend, data)
    ensures error == 0 ==> writer.bits == before + bits'
    ensures error == 0 && !final ==> Written(bits', front', data, dataend)
    ensures error == 0 && final ==> Finished(bits', bits, front', last, data, datapos)
  {
    hide HashReady, Written, Describes, BlockBits, BlockOk, Holds, Hash.Valid;
    bits', front' := bits, front;
    if settings.btype == 1 {
      error, last := DeflateFixed(writer, hash, data, datapos, dataend, settings, final);
    } else {
      error, last := DeflateDynamic(writer, hash, data, datapos, dataend, settings, final);
    }
    if error == 0 {
      DescribedBlock(last, data, datapos, dataend);
      bits' := bits + BlockBits(last, data[..datapos], final);
      ConcatAssoc(before, bits, BlockBits(last, data[..datapos], final));
      if final {
        FinishedNow(bits, front, last, data, datapos);
      } else {
        WriteOne(bits, front, data, datapos, last, dataend);
        front' := front + [last];
      }
    }
  }

  lemma DescribedBlock(b: Block, data: seq<byte>, start: nat, end: nat)
    requires Describes(b, data, start, end)
    ensures start <= end <= |data| && BlockOk(b, data[..start])
  {}

  lemma FinishedNow(bits: seq<bool>, front: seq<Block>, last: Block, data: seq<byte>, pos: nat)
    requires Written(bits, front, data, pos) && Describes(last, data, pos, |data|)
    ensures Finished(bits + BlockBits(last, data[..pos], true), bits, front, last, data, pos)
  {}

  method DeflateBlocks(out: Inflate.ByteVector, data: seq<byte>, settings: CompressSettings) returns (error: nat)
    requires 1 <= settings.btype <= 2 && !(settings.btype == 1 && data == [])
    modifies out
    ensures error == WindowError(settings)
    ensures error == 0 ==> Appended(old(out.data), out.data, data)
  {
    hide *;
    var insize := |data|;
    var blocksize := insize;
    if settings.btype == 2 {
      blocksize := insize / 8 + 8;
      if blocksize < 65536 { blocksize := 65536; }
      if blocksize > 262144 { blocksize := 262144; }
    }
    var num := (insize + blocksize - 1) / blocksize;
    if num == 0 { num := 1; }
    var writer := new BitWriter(out.data);
    var hash := new Hash(settings.windowsize);
    NewHashReady(hash, settings, data);
    ghost var bits, earlier, front, last, pos;
    error, bits, earlier, front, last, pos := WriteBlocks(writer, hash, data, blocksize, num, settings);
    out.data := writer.data;
    if error == 0 {
      WrittenBehind(writer, old(out.data), bits, earlier, front, last, data, pos);
    }
  }

  method WriteBlocks(writer: BitWriter, hash: Hash, data: seq<byte>, blocksize: nat, num: nat,
                     settings: CompressSettings)
    returns (error: nat, ghost bits: seq<bool>, ghost earlier: seq<bool>, ghost front: seq<Block>, ghost last: Block,
             ghost pos: nat)
    requires writer.Valid() && HashReady(hash, settings, 0, data) && blocksize > 0
    requires num == if (|data| + blocksize - 1) / blocksize == 0 then 1 else (|data| + blocksize - 1) / blocksize
    modifies writer, hash.head, hash.chain, hash.val, hash.headz, hash.chainz, hash.zeros
    ensures writer.Valid() && error == WindowError(settings)
    ensures error == 0 ==> writer.bits == old(writer.bits) + bits && Finished(bits, earlier, front, last, data, pos)
  {
    hide *;
    var insize := |data|;
    ghost var before := writer.bits;
    error, bits, earlier, front, last, pos := 0, [], [], [], Fixed([]), 0;
    NothingWritten(data);
    BlockBounds(insize, blocksize, num, 0);
    for i := 0 to num
      invariant writer.Valid() && error == 0
      invariant i < num ==> BlockStart(i, blocksize) <= insize
      invariant i < num ==> HashReady(hash, settings, BlockStart(i, blocksize), data)
      invariant writer.bits == before + bits
      invariant i < num ==> Written(bits, front, data, BlockStart(i, blocksize))
      invariant i == num ==> WindowError(settings) == 0 && Finished(bits, earlier, front, last, data, pos)
    {
      BlockBounds(insize, blocksize, num, i);
      var final := i == num - 1;
      var start := BlockStart(i, blocksize);
      var end := start + blocksize;
      if end > insize { end := insize; }
      earlier, pos := bits, start;
      error, bits, front, last := DeflateBlock(writer, hash, data, start, end, settings, final, before, bits, front);
      if error != 0 { break; }
    }
  }

  lemma WrittenBehind(writer: BitWriter, before: seq<byte>, bits: seq<bool>, earlier: seq<bool>, front: seq<Block>,
                      last: Block, data: seq<byte>, pos: nat)
    requires writer.Valid() && writer.bits == BitsOf(before) + bits && Finished(bits, earlier, front, last, data, pos)
    ensures Appended(before, writer.data, data)
  {
    hide BitsOf, Holds, Finished, InflatesTo;
    BehindBytes(before, bits, writer.data);
    InflatesBack(writer.data[|before|..], bits, earlier, front, last, data, pos);
  }

  lemma NothingWritten(data: seq<byte>)
    ensures Written([], [], data, 0)
  {}

  lemma NewHashReady(hash: Hash, settings: CompressSettings, data: seq<byte>)
    requires hash.size == settings.windowsize && (hash.size > 0 ==> hash.Valid(0, data))
    ensures HashReady(hash, settings, 0, data)
  {}
}
