/** Well-formed Deflate streams as bit strings, and the theorem that reading one gives back what it means. */
module Stream {
  import opened Wrappers
  import opened Bits
  import opened BitIO
  import opened Huffman
  import opened Tokens
  import opened Format

  // ---------------------------------------------------------------- finding a bit string in a stream

  ghost predicate At(bits: seq<bool>, p: nat, s: seq<bool>) {
    p + |s| <= |bits| && bits[p..p + |s|] == s
  }

  lemma AtSplit(bits: seq<bool>, p: nat, s: seq<bool>, t: seq<bool>)
    requires At(bits, p, s + t)
    ensures At(bits, p, s) && At(bits, p + |s|, t)
  {
    assert bits[p..p + |s|] == (s + t)[..|s|];
    assert bits[p + |s|..p + |s + t|] == (s + t)[|s|..];
  }

  lemma FieldAt(bits: seq<bool>, p: nat, v: nat, n: nat)
    requires At(bits, p, ToLsb(v, n)) && v < Pow2(n)
    ensures Field(bits, p, n) == v
  {
    hide Lsb, ToLsb, Pow2;
    WindowInside(bits, p, n);
    LsbOfToLsb(v, n);
    LowNoop(v, n);
  }

  /** A code word at `p` is decoded, whatever follows it. */
  lemma SymAt(lens: seq<nat>, bits: seq<bool>, p: nat, n: nat)
    requires ValidLengths(lens) && Kraft(lens) <= 0x8000 && n < |lens| && lens[n] > 0
    requires At(bits, p, CodeBits(lens, n))
    ensures Sym(lens, bits, p) == Some(n)
  {
    hide Lsb, CodeBits, Kraft, Low;
    var u := Lsb(Window(bits, p, 15));
    LsbWindowTake(bits, p, lens[n], 15);
    WindowInside(bits, p, lens[n]);
    assert Match(lens, n, u);
    PrefixFree(lens, n, Decode(lens, u).value, u);
  }

  // ---------------------------------------------------------------- token bits

  /** A code set a writer may use: complete, with a code for symbol `n` wherever `has(n)`. */
  ghost predicate Complete(lens: seq<nat>) {
    ValidLengths(lens) && Kraft(lens) == 0x8000
  }

  ghost predicate Encodable(t: Token, ll: seq<nat>, d: seq<nat>) {
    && TokenOk(t, 32768)
    && match t
       case Literal(b) => b < |ll| && ll[b] > 0
       case Copy(length, distance) =>
         && LengthCode(length) + 257 < |ll| && ll[LengthCode(length) + 257] > 0
         && DistanceCode(distance) < |d| && d[DistanceCode(distance)] > 0
  }

  ghost function LengthBits(length: nat, ll: seq<nat>): seq<bool>
    requires 3 <= length && ValidLengths(ll) && LengthCode(length) + 257 < |ll|
  {
    CodeBits(ll, LengthCode(length) + 257) + ToLsb(length - LengthBase(LengthCode(length)),
                                                   LengthExtra(LengthCode(length)))
  }

  ghost function DistanceBits(distance: nat, d: seq<nat>): seq<bool>
    requires 1 <= distance && ValidLengths(d) && DistanceCode(distance) < |d|
  {
    CodeBits(d, DistanceCode(distance)) + ToLsb(distance - DistanceBase(DistanceCode(distance)),
                                                DistanceExtra(DistanceCode(distance)))
  }

  ghost function TokenBits(t: Token, ll: seq<nat>, d: seq<nat>): seq<bool>
    requires ValidLengths(ll) && ValidLengths(d) && Encodable(t, ll, d)
  {
    match t
    case Literal(b) => CodeBits(ll, b)
    case Copy(length, distance) =>
      LengthBits(length, ll) + DistanceBits(distance, d)
  }

  ghost predicate AllEncodable(tokens: seq<Token>, ll: seq<nat>, d: seq<nat>) {
    forall i | 0 <= i < |tokens| :: Encodable(tokens[i], ll, d)
  }

  ghost function TokensBits(tokens: seq<Token>, ll: seq<nat>, d: seq<nat>): seq<bool>
    requires ValidLengths(ll) && ValidLengths(d) && AllEncodable(tokens, ll, d)
  {
    if tokens == [] then [] else TokenBits(tokens[0], ll, d) + TokensBits(tokens[1..], ll, d)
  }

  lemma {:induction false} TokensBitsAppend(tokens: seq<Token>, t: Token, ll: seq<nat>, d: seq<nat>)
    requires ValidLengths(ll) && ValidLengths(d) && AllEncodable(tokens, ll, d) && Encodable(t, ll, d)
    ensures AllEncodable(tokens + [t], ll, d)
    ensures TokensBits(tokens + [t], ll, d) == TokensBits(tokens, ll, d) + TokenBits(t, ll, d)
  {
    hide TokenBits;
    var all := tokens + [t];
    if tokens == [] {
      assert all[1..] == [];
    } else {
      assert all[1..] == tokens[1..] + [t];
      TokensBitsAppend(tokens[1..], t, ll, d);
    }
  }

  /** One literal read back. */
  lemma ReadLiteral(bits: seq<bool>, p: nat, b: byte, ll: seq<nat>, d: seq<nat>, out: seq<byte>, max: nat, p1: nat)
    requires Complete(ll) && ValidLengths(d) && Encodable(Literal(b), ll, d) && p <= |bits|
    requires At(bits, p, TokenBits(Literal(b), ll, d)) && !TooLarge(|out| + 1, max)
    requires p1 == p + |TokenBits(Literal(b), ll, d)|
    ensures p1 <= |bits| && ReadSymbols(bits, p, ll, d, out, max) == ReadSymbols(bits, p1, ll, d, out + [b], max)
  {
    hide CodeBits, Kraft, Sym, ReadCopy;
    SymAt(ll, bits, p, b);
  }

  lemma LengthAt(bits: seq<bool>, p: nat, length: nat, ll: seq<nat>, l: nat)
    requires 3 <= length <= 258 && l == LengthCode(length) && Complete(ll) && l + 257 < |ll| && ll[l + 257] > 0
    requires At(bits, p, LengthBits(length, ll))
    ensures |LengthBits(length, ll)| == ll[l + 257] + LengthExtra(l)
    ensures Sym(ll, bits, p) == Some(l + 257)
    ensures Field(bits, p + ll[l + 257], LengthExtra(l)) == length - LengthBase(l)
  {
    hide At, LengthBase, LengthExtra, LengthCode, Pow2, ToLsb, CodeBits, Kraft, Sym, Field;
    LengthFits(length);
    AtSplit(bits, p, CodeBits(ll, l + 257), ToLsb(length - LengthBase(l), LengthExtra(l)));
    SymAt(ll, bits, p, l + 257);
    FieldAt(bits, p + ll[l + 257], length - LengthBase(l), LengthExtra(l));
  }

  lemma DistanceAt(bits: seq<bool>, p: nat, distance: nat, d: seq<nat>, c: nat)
    requires 1 <= distance <= 32768 && c == DistanceCode(distance) && Complete(d) && c < |d| && d[c] > 0
    requires At(bits, p, DistanceBits(distance, d))
    ensures |DistanceBits(distance, d)| == d[c] + DistanceExtra(c)
    ensures Sym(d, bits, p) == Some(c)
    ensures Field(bits, p + d[c], DistanceExtra(c)) == distance - DistanceBase(c)
  {
    hide At, DistanceBase, DistanceExtra, DistanceCode, Pow2, ToLsb, CodeBits, Kraft, Sym, Field;
    DistanceFits(distance);
    AtSplit(bits, p, CodeBits(d, c), ToLsb(distance - DistanceBase(c), DistanceExtra(c)));
    SymAt(d, bits, p, c);
    FieldAt(bits, p + d[c], distance - DistanceBase(c), DistanceExtra(c));
  }

  /** One copy read back. */
  lemma ReadOneCopy(bits: seq<bool>, p: nat, length: nat, distance: nat, ll: seq<nat>, d: seq<nat>, out: seq<byte>,
                    max: nat, p1: nat)
    requires Complete(ll) && Complete(d) && Encodable(Copy(length, distance), ll, d) && p <= |bits|
    requires TokenOk(Copy(length, distance), |out|)
    requires At(bits, p, TokenBits(Copy(length, distance), ll, d)) && !TooLarge(|out| + length, max)
    requires p1 == p + |TokenBits(Copy(length, distance), ll, d)|
    ensures p1 <= |bits|
    ensures ReadSymbols(bits, p, ll, d, out, max) == ReadSymbols(bits, p1, ll, d, CopyBytes(out, length, distance), max)
  {
    hide LengthBase, LengthExtra, LengthCode, DistanceBase, DistanceExtra, DistanceCode, CodeBits, Kraft, Sym, Field,
         LengthBits, DistanceBits, At, ReadSymbols, ReadCopy, CopyBytes;
    var l, c := LengthCode(length), DistanceCode(distance);
    AtInside(bits, p, TokenBits(Copy(length, distance), ll, d));
    AtSplit(bits, p, LengthBits(length, ll), DistanceBits(distance, d));
    LengthAt(bits, p, length, ll, l);
    DistanceAt(bits, p + |LengthBits(length, ll)|, distance, d, c);
    ReadCopyValue(bits, p + ll[l + 257], d, out, l, c, length, distance);
    CopyStep(bits, p, ll, d, out, max, l + 257, Reading(p1, CopyBytes(out, length, distance)));
  }

  lemma ReadCopyValue(bits: seq<bool>, p: nat, d: seq<nat>, out: seq<byte>, l: nat, c: nat, length: nat, distance: nat)
    requires l < 29 && c < 30 && ValidLengths(d) && c < |d| && 0 < distance <= |out|
    requires length == LengthBase(l) + Field(bits, p, LengthExtra(l))
    requires Sym(d, bits, p + LengthExtra(l)) == Some(c)
    requires distance == DistanceBase(c) + Field(bits, p + LengthExtra(l) + d[c], DistanceExtra(c))
    ensures ReadCopy(l + 257, bits, p, d, out)
         == Some(Reading(p + LengthExtra(l) + d[c] + DistanceExtra(c), CopyBytes(out, length, distance)))
  {
    hide Sym, Field, LengthBase, LengthExtra, DistanceBase, DistanceExtra, CopyBytes;
  }

  lemma CopyStep(bits: seq<bool>, p: nat, ll: seq<nat>, d: seq<nat>, out: seq<byte>, max: nat, s: nat,
                 step: Reading<seq<byte>>)
    requires ValidLengths(ll) && ValidLengths(d) && p <= |bits| && 257 <= s <= 285
    requires Sym(ll, bits, p) == Some(s) && ReadCopy(s, bits, p + ll[s], d, out) == Some(step)
    requires Accepted(step, bits, max)
    ensures ReadSymbols(bits, p, ll, d, out, max) == ReadSymbols(bits, step.end, ll, d, step.value, max)
  {
    hide Sym, ReadCopy;
  }

  lemma AtInside(bits: seq<bool>, p: nat, s: seq<bool>)
    requires At(bits, p, s)
    ensures p + |s| <= |bits|
  {}

  lemma {:induction false} ExpandGrows(tokens: seq<Token>, out: seq<byte>)
    requires Expandable(tokens, out)
    ensures |Expand(tokens, out)| >= |out|
    decreases |tokens|
  {
    if tokens != [] { ExpandGrows(tokens[1..], ExpandOne(tokens[0], out)); }
  }

  /** Reading the bits of a token list and the end code gives the expansion and stops right after. */
  lemma {:induction false} ReadTokens(bits: seq<bool>, p: nat, tokens: seq<Token>, ll: seq<nat>, d: seq<nat>,
                                      out: seq<byte>, max: nat)
    requires Complete(ll) && Complete(d) && 256 < |ll| && ll[256] > 0
    requires AllEncodable(tokens, ll, d) && Expandable(tokens, out) && p <= |bits|
    requires At(bits, p, TokensBits(tokens, ll, d) + CodeBits(ll, 256))
    requires !TooLarge(|Expand(tokens, out)|, max)
    ensures ReadSymbols(bits, p, ll, d, out, max)
         == Some(Reading(p + |TokensBits(tokens, ll, d) + CodeBits(ll, 256)|, Expand(tokens, out)))
    decreases |tokens|
  {
    hide CodeBits, TokenBits, At, ReadSymbols, Kraft, Encodable, CopyBytes;
    if tokens == [] {
      assert TokensBits(tokens, ll, d) + CodeBits(ll, 256) == CodeBits(ll, 256);
      EndCode(bits, p, ll, d, out, max);
    } else {
      var t, rest, out' := tokens[0], tokens[1..], ExpandOne(tokens[0], out);
      var tail := TokensBits(rest, ll, d) + CodeBits(ll, 256);
      assert TokensBits(tokens, ll, d) + CodeBits(ll, 256) == TokenBits(t, ll, d) + tail;
      AtSplit(bits, p, TokenBits(t, ll, d), tail);
      var p1 := p + |TokenBits(t, ll, d)|;
      AtInside(bits, p, TokenBits(t, ll, d));
      ExpandGrows(rest, out');
      ReadTokens(bits, p1, rest, ll, d, out', max);
      ReadToken(bits, p, t, ll, d, out, max, p1);
    }
  }

  lemma ReadToken(bits: seq<bool>, p: nat, t: Token, ll: seq<nat>, d: seq<nat>, out: seq<byte>, max: nat, p1: nat)
    requires Complete(ll) && Complete(d) && Encodable(t, ll, d) && p <= |bits| && TokenOk(t, |out|)
    requires At(bits, p, TokenBits(t, ll, d)) && p1 == p + |TokenBits(t, ll, d)|
    requires !TooLarge(|ExpandOne(t, out)|, max)
    ensures p1 <= |bits|
    ensures ReadSymbols(bits, p, ll, d, out, max) == ReadSymbols(bits, p1, ll, d, ExpandOne(t, out), max)
  {
    hide TokenBits, At, ReadSymbols, Kraft, Encodable;
    match t
    case Literal(b) => ReadLiteral(bits, p, b, ll, d, out, max, p1);
    case Copy(length, distance) => ReadOneCopy(bits, p, length, distance, ll, d, out, max, p1);
  }

  lemma EndCode(bits: seq<bool>, p: nat, ll: seq<nat>, d: seq<nat>, out: seq<byte>, max: nat)
    requires Complete(ll) && ValidLengths(d) && 256 < |ll| && ll[256] > 0 && p <= |bits|
    requires At(bits, p, CodeBits(ll, 256)) && !TooLarge(|out|, max)
    ensures ReadSymbols(bits, p, ll, d, out, max) == Some(Reading(p + |CodeBits(ll, 256)|, out))
  {
    hide CodeBits, Kraft, Sym;
    SymAt(ll, bits, p, 256);
  }

  // ---------------------------------------------------------------- run-length coded code lengths

  /** A code length symbol and the value of its extra bits. */
  datatype Item = Item(code: nat, extra: nat)

  ghost predicate ItemOk(it: Item) {
    it.code <= 18 && it.extra < Pow2(ExtraBits(it.code))
  }

  ghost predicate ItemsOk(items: seq<Item>, acc: seq<nat>)
    decreases |items|
  {
    items == []
    || (ItemOk(items[0]) && (items[0].code == 16 ==> acc != [])
        && ItemsOk(items[1..], acc + LengthRun(items[0].code, items[0].extra, acc)))
  }

  /** The code lengths a list of symbols stands for. */
  ghost function ItemsExpand(items: seq<Item>, acc: seq<nat>): seq<nat>
    requires ItemsOk(items, acc)
    decreases |items|
  {
    if items == [] then acc
    else ItemsExpand(items[1..], acc + LengthRun(items[0].code, items[0].extra, acc))
  }

  lemma {:induction false} ItemsAppend(items: seq<Item>, acc: seq<nat>, it: Item)
    requires ItemsOk(items, acc) && ItemOk(it) && (it.code == 16 ==> ItemsExpand(items, acc) != [])
    ensures ItemsOk(items + [it], acc)
    ensures ItemsExpand(items + [it], acc)
         == ItemsExpand(items, acc) + LengthRun(it.code, it.extra, ItemsExpand(items, acc))
    decreases |items|
  {
    hide LengthRun, Pow2;
    var all := items + [it];
    if items == [] {
      assert all[1..] == [];
    } else {
      assert all[1..] == items[1..] + [it];
      ItemsAppend(items[1..], acc + LengthRun(items[0].code, items[0].extra, acc), it);
    }
  }

  lemma {:induction false} ItemsGrow(items: seq<Item>, acc: seq<nat>)
    requires ItemsOk(items, acc)
    ensures |ItemsExpand(items, acc)| >= |acc| + |items|
    decreases |items|
  {
    hide LengthRun, Pow2;
    if items != [] { ItemsGrow(items[1..], acc + LengthRun(items[0].code, items[0].extra, acc)); }
  }

  ghost predicate ItemsEncodable(items: seq<Item>, cl: seq<nat>) {
    forall i | 0 <= i < |items| :: items[i].code < |cl| && cl[items[i].code] > 0
  }

  ghost function ItemBits(it: Item, cl: seq<nat>): seq<bool>
    requires ValidLengths(cl) && it.code < |cl|
  {
    CodeBits(cl, it.code) + ToLsb(it.extra, ExtraBits(it.code))
  }

  ghost function ItemsBits(items: seq<Item>, cl: seq<nat>): seq<bool>
    requires ValidLengths(cl) && ItemsEncodable(items, cl)
  {
    if items == [] then [] else ItemBits(items[0], cl) + ItemsBits(items[1..], cl)
  }

  lemma {:induction false} ItemsBitsAppend(items: seq<Item>, it: Item, cl: seq<nat>)
    requires ValidLengths(cl) && ItemsEncodable(items, cl) && it.code < |cl| && cl[it.code] > 0
    ensures ItemsEncodable(items + [it], cl)
    ensures ItemsBits(items + [it], cl) == ItemsBits(items, cl) + ItemBits(it, cl)
  {
    hide ItemBits;
    var all := items + [it];
    if items == [] {
      assert all[1..] == [];
    } else {
      assert all[1..] == items[1..] + [it];
      ItemsBitsAppend(items[1..], it, cl);
    }
  }

  lemma ReadItem(bits: seq<bool>, p: nat, it: Item, cl: seq<nat>, total: nat, acc: seq<nat>, p1: nat)
    requires Complete(cl) && |cl| == 19 && ItemOk(it) && it.code < |cl| && cl[it.code] > 0 && p <= |bits|
    requires it.code == 16 ==> acc != []
    requires At(bits, p, ItemBits(it, cl)) && p1 == p + |ItemBits(it, cl)|
    requires |acc + LengthRun(it.code, it.extra, acc)| <= total
    ensures p1 <= |bits|
    ensures ReadLengths(bits, p, cl, total, acc)
         == ReadLengths(bits, p1, cl, total, acc + LengthRun(it.code, it.extra, acc))
  {
    hide LengthRun, At, CodeBits, Kraft, Sym, Field, ToLsb, Pow2;
    AtInside(bits, p, ItemBits(it, cl));
    AtSplit(bits, p, CodeBits(cl, it.code), ToLsb(it.extra, ExtraBits(it.code)));
    SymAt(cl, bits, p, it.code);
    FieldAt(bits, p + cl[it.code], it.extra, ExtraBits(it.code));
  }

  /** The dynamic-tree reader undoes the run-length coding. */
  lemma {:induction false} ReadItems(bits: seq<bool>, p: nat, items: seq<Item>, cl: seq<nat>, acc: seq<nat>)
    requires Complete(cl) && |cl| == 19 && ItemsOk(items, acc) && ItemsEncodable(items, cl) && p <= |bits|
    requires At(bits, p, ItemsBits(items, cl))
    ensures |acc| <= |ItemsExpand(items, acc)|
    ensures ReadLengths(bits, p, cl, |ItemsExpand(items, acc)|, acc)
         == Some(Reading(p + |ItemsBits(items, cl)|, ItemsExpand(items, acc)))
    decreases |items|
  {
    hide LengthRun, At, Kraft, ItemBits, ReadLengths, ItemOk;
    if items == [] {
      ReadNothing(bits, p, cl, acc);
    } else {
      var it, rest := items[0], items[1..];
      var acc' := acc + LengthRun(it.code, it.extra, acc);
      AtSplit(bits, p, ItemBits(it, cl), ItemsBits(rest, cl));
      AtInside(bits, p, ItemBits(it, cl));
      var p1 := p + |ItemBits(it, cl)|;
      ItemsGrow(rest, acc');
      ReadItem(bits, p, it, cl, |ItemsExpand(items, acc)|, acc, p1);
      ReadItems(bits, p1, rest, cl, acc');
    }
  }

  lemma ReadNothing(bits: seq<bool>, p: nat, cl: seq<nat>, acc: seq<nat>)
    requires ValidLengths(cl) && |cl| == 19 && p <= |bits|
    ensures ReadLengths(bits, p, cl, |acc|, acc) == Some(Reading(p, acc))
  {}

  // ---------------------------------------------------------------- the code length code lengths

  /** Three-bit lengths of the 19 code length symbols, zero from place `hclen` on. */
  ghost predicate ClOk(cl: seq<nat>, hclen: nat) {
    && |cl| == 19 && 4 <= hclen <= 19
    && (forall j | 0 <= j < 19 :: cl[j] < 8)
    && (forall j | 0 <= j < 19 :: Place(j) >= hclen ==> cl[j] == 0)
  }

  /** The bits of the first `k` places. */
  ghost function ClBits(cl: seq<nat>, k: nat): (s: seq<bool>)
    requires |cl| == 19 && k <= 19
    ensures |s| == 3 * k
  {
    if k == 0 then [] else ClBits(cl, k - 1) + ToLsb(cl[SymbolAt(k - 1)], 3)
  }

  /** Each length stands in three bits at the place of its symbol. */
  lemma {:induction false} ClAt(bits: seq<bool>, p: nat, cl: seq<nat>, k: nat, s: nat)
    requires |cl| == 19 && k <= 19 && s < 19 && cl[s] < 8 && Place(s) < k
    requires At(bits, p, ClBits(cl, k))
    ensures Field(bits, p + 3 * Place(s), 3) == cl[s]
    decreases k
  {
    hide At, Field, ToLsb, Place, SymbolAt, Pow2;
    OrderByRule();
    var j := SymbolAt(k - 1);
    AtSplit(bits, p, ClBits(cl, k - 1), ToLsb(cl[j], 3));
    if Place(s) < k - 1 {
      ClAt(bits, p, cl, k - 1, s);
    } else {
      assert Pow2(3) == 8 by { Pow2Values(); }
      FieldAt(bits, p + 3 * (k - 1), cl[j], 3);
    }
  }

  lemma ReadClIs(bits: seq<bool>, p: nat, cl: seq<nat>, hclen: nat)
    requires ClOk(cl, hclen) && At(bits, p, ClBits(cl, hclen))
    ensures ReadCl(bits, p, hclen) == cl
  {
    hide At, ClBits, Field;
    forall s | 0 <= s < 19 ensures ReadCl(bits, p, hclen)[s] == cl[s] {
      if Place(s) < hclen { ClAt(bits, p, cl, hclen, s); }
    }
  }

  // ---------------------------------------------------------------- blocks

  /** A Huffman block as an encoder describes it. */
  datatype Block =
    | Fixed(tokens: seq<Token>)
    | Dynamic(tokens: seq<Token>, ll: seq<nat>, d: seq<nat>, cl: seq<nat>, hclen: nat, items: seq<Item>)

  ghost predicate TreesOk(b: Block)
    requires b.Dynamic?
  {
    && 257 <= |b.ll| <= 286 && 1 <= |b.d| <= 30 && Complete(b.ll) && Complete(b.d) && b.ll[256] > 0
    && ClOk(b.cl, b.hclen) && Complete(b.cl)
    && ItemsOk(b.items, []) && ItemsEncodable(b.items, b.cl) && ItemsExpand(b.items, []) == b.ll + b.d
  }

  ghost predicate BlockOk(b: Block, out: seq<byte>) {
    && Expandable(b.tokens, out)
    && match b
       case Fixed(tokens) => AllEncodable(tokens, FixedLL(), FixedD())
       case Dynamic(tokens, ll, d, _, _, _) => TreesOk(b) && AllEncodable(tokens, ll, d)
  }

  ghost function TreesBits(b: Block): seq<bool>
    requires b.Dynamic? && TreesOk(b)
  {
    ToLsb(|b.ll| - 257, 5) + (ToLsb(|b.d| - 1, 5)
        + (ToLsb(b.hclen - 4, 4) + (ClBits(b.cl, b.hclen) + ItemsBits(b.items, b.cl))))
  }

  /** The bits after the three header bits. */
  ghost function BodyBits(b: Block, out: seq<byte>): seq<bool>
    requires BlockOk(b, out)
  {
    match b
    case Fixed(tokens) =>
      FixedValid();
      TokensBits(tokens, FixedLL(), FixedD()) + CodeBits(FixedLL(), 256)
    case Dynamic(tokens, ll, d, _, _, _) =>
      TreesBits(b) + (TokensBits(tokens, ll, d) + CodeBits(ll, 256))
  }

  ghost function BlockBits(b: Block, out: seq<byte>, final: bool): seq<bool>
    requires BlockOk(b, out)
  {
    [final] + ([b.Fixed?, b.Dynamic?] + BodyBits(b, out))
  }

  lemma FixedComplete()
    ensures Complete(FixedLL()) && Complete(FixedD())
    ensures FixedLL()[256] > 0
  {
    hide Weight, Kraft, Repeat;
    FixedValid();
    FixedWeights();
    var e: seq<nat> := [];
    KraftEmpty();
    var a := e + Repeat(8, 144);
    var b := a + Repeat(9, 112);
    var c := b + Repeat(7, 24);
    KraftOfRepeat(e, 8, 144);
    KraftOfRepeat(a, 9, 112);
    KraftOfRepeat(b, 7, 24);
    KraftOfRepeat(c, 8, 8);
    assert e + Repeat(8, 144) == Repeat(8, 144);
    assert c + Repeat(8, 8) == FixedLL();
    KraftOfRepeat(e, 5, 32);
    assert e + Repeat(5, 32) == FixedD();
    EndHasCode(c);
  }

  lemma KraftOfRepeat(lens: seq<nat>, v: nat, n: nat)
    requires ValidLengths(lens) && v <= 15
    ensures ValidLengths(lens + Repeat(v, n)) && Kraft(lens + Repeat(v, n)) == Kraft(lens) + n * Weight(v)
  {
    KraftRepeat(lens, v, n);
    assert Repeat(v, n) == seq(n, _ => v);
  }

  lemma EndHasCode(c: seq<nat>)
    requires c + Repeat(8, 8) == FixedLL() && |c| == 280
    ensures FixedLL()[256] == 7
  {
    hide Repeat;
    assert FixedLL()[256] == Repeat(7, 24)[0];
  }

  lemma FixedWeights()
    ensures Weight(7) == 256 && Weight(8) == 128 && Weight(9) == 64 && Weight(5) == 1024
  {
    Pow2Values();
    Pow2Add(5, 5);
  }

  lemma KraftEmpty()
    ensures Kraft([]) == 0
  {
    KraftZeros(0);
    assert seq(0, _ => 0) == [];
  }

  lemma CompleteAcceptable(lens: seq<nat>)
    requires Complete(lens)
    ensures Acceptable(lens)
  {}

  /** Unused symbols up to the alphabet size change neither completeness nor the bits of a token list. */
  lemma CompletePadded(lens: seq<nat>, k: nat)
    requires Complete(lens)
    ensures Complete(lens + Repeat(0, k))
  {
    TrailingZeros(lens, k);
    assert Repeat(0, k) == seq(k, _ => 0);
  }

  lemma {:induction false} TokensBitsPadded(tokens: seq<Token>, ll: seq<nat>, d: seq<nat>, k: nat, m: nat)
    requires Complete(ll) && Complete(d) && AllEncodable(tokens, ll, d)
    ensures Complete(ll + Repeat(0, k)) && Complete(d + Repeat(0, m))
    ensures AllEncodable(tokens, ll + Repeat(0, k), d + Repeat(0, m))
    ensures TokensBits(tokens, ll + Repeat(0, k), d + Repeat(0, m)) == TokensBits(tokens, ll, d)
  {
    hide Kraft, TokenBits;
    CompletePadded(ll, k);
    CompletePadded(d, m);
    forall i | 0 <= i < |tokens| ensures Encodable(tokens[i], ll + Repeat(0, k), d + Repeat(0, m)) {
      assert Encodable(tokens[i], ll, d);
    }
    if tokens != [] {
      TokenBitsPadded(tokens[0], ll, d, k, m);
      TokensBitsPadded(tokens[1..], ll, d, k, m);
    }
  }

  lemma PaddedCode(lens: seq<nat>, n: nat, k: nat)
    requires ValidLengths(lens) && n < |lens| && lens[n] > 0
    ensures ValidLengths(lens + Repeat(0, k)) && CodeBits(lens + Repeat(0, k), n) == CodeBits(lens, n)
  {
    CodeBitsTrailingZeros(lens, k, n);
    assert Repeat(0, k) == seq(k, _ => 0);
  }

  lemma TokenBitsPadded(t: Token, ll: seq<nat>, d: seq<nat>, k: nat, m: nat)
    requires Complete(ll) && Complete(d) && Encodable(t, ll, d)
    requires Complete(ll + Repeat(0, k)) && Complete(d + Repeat(0, m))
    ensures Encodable(t, ll + Repeat(0, k), d + Repeat(0, m))
    ensures TokenBits(t, ll + Repeat(0, k), d + Repeat(0, m)) == TokenBits(t, ll, d)
  {
    hide Kraft, CodeBits, LengthCode, DistanceCode, LengthBase, DistanceBase, LengthExtra, DistanceExtra;
    match t
    case Literal(b) => PaddedCode(ll, b, k);
    case Copy(length, distance) =>
      PaddedCode(ll, LengthCode(length) + 257, k);
      PaddedCode(d, DistanceCode(distance), m);
  }

  lemma TreesFields(bits: seq<bool>, p: nat, b: Block)
    requires b.Dynamic? && TreesOk(b) && At(bits, p, TreesBits(b))
    ensures Field(bits, p, 5) == |b.ll| - 257 && Field(bits, p + 5, 5) == |b.d| - 1
    ensures Field(bits, p + 10, 4) == b.hclen - 4
    ensures At(bits, p + 14, ClBits(b.cl, b.hclen)) && At(bits, p + 14 + 3 * b.hclen, ItemsBits(b.items, b.cl))
    ensures |TreesBits(b)| == 14 + 3 * b.hclen + |ItemsBits(b.items, b.cl)| && p + |TreesBits(b)| <= |bits|
  {
    hide At, Field, ToLsb, ClBits, ItemsBits, Kraft, ItemsExpand, ItemsOk;
    AtInside(bits, p, TreesBits(b));
    var e := ItemsBits(b.items, b.cl);
    var f := ClBits(b.cl, b.hclen) + e;
    var g := ToLsb(b.hclen - 4, 4) + f;
    var h := ToLsb(|b.d| - 1, 5) + g;
    AtSplit(bits, p, ToLsb(|b.ll| - 257, 5), h);
    AtSplit(bits, p + 5, ToLsb(|b.d| - 1, 5), g);
    AtSplit(bits, p + 10, ToLsb(b.hclen - 4, 4), f);
    AtSplit(bits, p + 14, ClBits(b.cl, b.hclen), e);
    assert Pow2(5) == 32 && Pow2(4) == 16 by { Pow2Values(); }
    FieldAt(bits, p, |b.ll| - 257, 5);
    FieldAt(bits, p + 5, |b.d| - 1, 5);
    FieldAt(bits, p + 10, b.hclen - 4, 4);
  }

  /** The trees of a dynamic block are read back, padded to the full alphabets. */
  lemma ReadTreesAt(bits: seq<bool>, p: nat, b: Block)
    requires b.Dynamic? && TreesOk(b) && At(bits, p, TreesBits(b)) && p <= |bits|
    ensures ReadTrees(bits, p)
         == Some(Reading(p + |TreesBits(b)|, Trees(b.ll + Repeat(0, 288 - |b.ll|), b.d + Repeat(0, 32 - |b.d|))))
  {
    hide At, Field, ClBits, ItemsBits, Kraft, ItemsExpand, ItemsOk, ReadCl, ReadLengths, TreesBits, Acceptable;
    TreesFields(bits, p, b);
    ReadClIs(bits, p + 14, b.cl, b.hclen);
    CompleteAcceptable(b.cl);
    ReadItems(bits, p + 14 + 3 * b.hclen, b.items, b.cl, []);
    var acc := b.ll + b.d;
    assert acc[..|b.ll|] == b.ll && acc[|b.ll|..] == b.d;
    CompletePadded(b.ll, 288 - |b.ll|);
    CompletePadded(b.d, 32 - |b.d|);
    CompleteAcceptable(b.ll + Repeat(0, 288 - |b.ll|));
    CompleteAcceptable(b.d + Repeat(0, 32 - |b.d|));
  }

  lemma ReadFixedBody(data: seq<byte>, p: nat, b: Block, out: seq<byte>, settings: DecompressSettings)
    requires b.Fixed? && BlockOk(b, out) && At(BitsOf(data), p, BodyBits(b, out)) && p <= 8 * |data|
    requires !TooLarge(|Expand(b.tokens, out)|, settings.maxOutputSize)
    ensures ReadBlock(1, data, p, out, settings) == Some(Reading(p + |BodyBits(b, out)|, Expand(b.tokens, out)))
  {
    hide At, BitsOf, Kraft, FixedLL, FixedD, ReadSymbols, CodeBits, TokensBits, AllEncodable, Expand, Expandable;
    FixedComplete();
    ReadTokens(BitsOf(data), p, b.tokens, FixedLL(), FixedD(), out, settings.maxOutputSize);
  }

  ghost function DynamicTokensBits(b: Block): seq<bool>
    requires b.Dynamic? && TreesOk(b) && AllEncodable(b.tokens, b.ll, b.d)
  {
    TokensBits(b.tokens, b.ll, b.d) + CodeBits(b.ll, 256)
  }

  /** The compressed data of a dynamic block is read back with the padded trees. */
  lemma ReadDynamicTokens(bits: seq<bool>, p: nat, b: Block, out: seq<byte>, max: nat)
    requires b.Dynamic? && TreesOk(b) && AllEncodable(b.tokens, b.ll, b.d) && Expandable(b.tokens, out)
    requires At(bits, p, DynamicTokensBits(b)) && p <= |bits| && !TooLarge(|Expand(b.tokens, out)|, max)
    ensures ValidLengths(b.ll + Repeat(0, 288 - |b.ll|)) && ValidLengths(b.d + Repeat(0, 32 - |b.d|))
    ensures ReadSymbols(bits, p, b.ll + Repeat(0, 288 - |b.ll|), b.d + Repeat(0, 32 - |b.d|), out, max)
         == Some(Reading(p + |DynamicTokensBits(b)|, Expand(b.tokens, out)))
  {
    hide At, Kraft, ReadSymbols, CodeBits, TokensBits, Expand, Expandable, TreesOk, AllEncodable;
    DynamicParts(b);
    var k, m := 288 - |b.ll|, 32 - |b.d|;
    TokensBitsPadded(b.tokens, b.ll, b.d, k, m);
    PaddedCode(b.ll, 256, k);
    ReadTokens(bits, p, b.tokens, b.ll + Repeat(0, k), b.d + Repeat(0, m), out, max);
  }

  lemma ReadDynamicBody(data: seq<byte>, p: nat, b: Block, out: seq<byte>, settings: DecompressSettings)
    requires b.Dynamic? && BlockOk(b, out) && At(BitsOf(data), p, BodyBits(b, out)) && p <= 8 * |data|
    requires !TooLarge(|Expand(b.tokens, out)|, settings.maxOutputSize)
    ensures ReadBlock(2, data, p, out, settings) == Some(Reading(p + |BodyBits(b, out)|, Expand(b.tokens, out)))
  {
    hide *;
    var bits := BitsOf(data);
    DynamicShape(b, out);
    AtSplit(bits, p, TreesBits(b), DynamicTokensBits(b));
    AtInside(bits, p, TreesBits(b));
    ReadTreesAt(bits, p, b);
    ReadDynamicTokens(bits, p + |TreesBits(b)|, b, out, settings.maxOutputSize);
    DynamicBlock(data, p, out, settings);
  }

  lemma DynamicBlock(data: seq<byte>, p: nat, out: seq<byte>, settings: DecompressSettings)
    requires p <= 8 * |data| && ReadTrees(BitsOf(data), p).Some?
    ensures var t := ReadTrees(BitsOf(data), p).value;
            ReadBlock(2, data, p, out, settings) == ReadSymbols(BitsOf(data), t.end, t.value.ll, t.value.d, out,
                settings.maxOutputSize)
  {
    hide BitsOf, ReadTrees, ReadSymbols;
  }

  lemma DynamicShape(b: Block, out: seq<byte>)
    requires b.Dynamic? && BlockOk(b, out)
    ensures TreesOk(b) && AllEncodable(b.tokens, b.ll, b.d) && Expandable(b.tokens, out)
    ensures 257 <= |b.ll| <= 286 && 1 <= |b.d| <= 30
    ensures BodyBits(b, out) == TreesBits(b) + DynamicTokensBits(b)
  {}

  /** What a block adds to the output. */
  lemma ReadBody(data: seq<byte>, p: nat, b: Block, out: seq<byte>, settings: DecompressSettings)
    requires BlockOk(b, out) && At(BitsOf(data), p, BodyBits(b, out)) && p <= 8 * |data|
    requires !TooLarge(|Expand(b.tokens, out)|, settings.maxOutputSize)
    ensures ReadBlock(if b.Fixed? then 1 else 2, data, p, out, settings)
         == Some(Reading(p + |BodyBits(b, out)|, Expand(b.tokens, out)))
  {
    hide *;
    if b.Fixed? {
      ReadFixedBody(data, p, b, out, settings);
    } else {
      ReadDynamicBody(data, p, b, out, settings);
    }
  }

  lemma DynamicParts(b: Block)
    requires b.Dynamic? && TreesOk(b)
    ensures 257 <= |b.ll| <= 286 && 1 <= |b.d| <= 30 && Complete(b.ll) && Complete(b.d) && b.ll[256] > 0
  {}

  // ---------------------------------------------------------------- streams

  /** Blocks that are not the last one. */
  ghost predicate BlocksOk(blocks: seq<Block>, out: seq<byte>)
    decreases |blocks|
  {
    blocks == [] || (BlockOk(blocks[0], out) && BlocksOk(blocks[1..], Expand(blocks[0].tokens, out)))
  }

  ghost function Meaning(blocks: seq<Block>, out: seq<byte>): seq<byte>
    requires BlocksOk(blocks, out)
    decreases |blocks|
  {
    if blocks == [] then out else Meaning(blocks[1..], Expand(blocks[0].tokens, out))
  }

  ghost function OpenBits(blocks: seq<Block>, out: seq<byte>): seq<bool>
    requires BlocksOk(blocks, out)
    decreases |blocks|
  {
    if blocks == [] then []
    else BlockBits(blocks[0], out, false) + OpenBits(blocks[1..], Expand(blocks[0].tokens, out))
  }

  lemma {:induction false} BlocksAppend(blocks: seq<Block>, out: seq<byte>, b: Block)
    requires BlocksOk(blocks, out) && BlockOk(b, Meaning(blocks, out))
    ensures BlocksOk(blocks + [b], out)
    ensures Meaning(blocks + [b], out) == Expand(b.tokens, Meaning(blocks, out))
    ensures OpenBits(blocks + [b], out) == OpenBits(blocks, out) + BlockBits(b, Meaning(blocks, out), false)
    decreases |blocks|
  {
    hide *;
    if blocks == [] {
      NoBlocks(out);
      MeaningOne(b, out);
      assert [] + [b] == [b];
      assert [] + BlockBits(b, out, false) == BlockBits(b, out, false);
    } else {
      var rest := blocks[1..];
      FirstBlock(blocks, out);
      BlocksAppend(rest, Expand(blocks[0].tokens, out), b);
      assert (blocks + [b])[1..] == rest + [b];
      WithFirstBlock(blocks + [b], out);
      ConcatAssoc(BlockBits(blocks[0], out, false), OpenBits(rest, Expand(blocks[0].tokens, out)),
                  BlockBits(b, Meaning(blocks, out), false));
    }
  }

  lemma NoBlocks(out: seq<byte>)
    ensures BlocksOk([], out) && Meaning([], out) == out && OpenBits([], out) == []
  {}

  lemma FirstBlock(blocks: seq<Block>, out: seq<byte>)
    requires blocks != [] && BlocksOk(blocks, out)
    ensures BlockOk(blocks[0], out) && Expandable(blocks[0].tokens, out)
    ensures BlocksOk(blocks[1..], Expand(blocks[0].tokens, out))
    ensures Meaning(blocks, out) == Meaning(blocks[1..], Expand(blocks[0].tokens, out))
    ensures OpenBits(blocks, out) == BlockBits(blocks[0], out, false)
          + OpenBits(blocks[1..], Expand(blocks[0].tokens, out))
  {
    hide BlockOk, BlockBits, Expand, Expandable;
    BlockExpandable(blocks[0], out);
  }

  lemma WithFirstBlock(blocks: seq<Block>, out: seq<byte>)
    requires blocks != [] && BlockOk(blocks[0], out) && Expandable(blocks[0].tokens, out)
    requires BlocksOk(blocks[1..], Expand(blocks[0].tokens, out))
    ensures BlocksOk(blocks, out) && Meaning(blocks, out) == Meaning(blocks[1..], Expand(blocks[0].tokens, out))
    ensures OpenBits(blocks, out) == BlockBits(blocks[0], out, false)
          + OpenBits(blocks[1..], Expand(blocks[0].tokens, out))
  {
    hide BlockOk, BlockBits, Expand, Expandable;
  }

  lemma BlockExpandable(b: Block, out: seq<byte>)
    requires BlockOk(b, out)
    ensures Expandable(b.tokens, out)
  {}

  lemma MeaningOne(b: Block, out: seq<byte>)
    requires BlockOk(b, out)
    ensures Expandable(b.tokens, out) && BlocksOk([b], out)
    ensures Meaning([b], out) == Expand(b.tokens, out) && OpenBits([b], out) == BlockBits(b, out, false)
  {
    assert [b][1..] == [];
  }

  lemma {:induction false} MeaningGrows(blocks: seq<Block>, out: seq<byte>)
    requires BlocksOk(blocks, out)
    ensures |Meaning(blocks, out)| >= |out|
    decreases |blocks|
  {
    if blocks != [] {
      ExpandGrows(blocks[0].tokens, out);
      MeaningGrows(blocks[1..], Expand(blocks[0].tokens, out));
    }
  }

  lemma ReadHeader(bits: seq<bool>, p: nat, b: Block, out: seq<byte>, final: bool)
    requires BlockOk(b, out) && At(bits, p, BlockBits(b, out, final))
    ensures p + 3 <= p + |BlockBits(b, out, final)| <= |bits| && bits[p] == final
    ensures Field(bits, p + 1, 2) == if b.Fixed? then 1 else 2
    ensures At(bits, p + 3, BodyBits(b, out)) && |BlockBits(b, out, final)| == 3 + |BodyBits(b, out)|
  {
    hide BlockOk, BodyBits;
    var t := [b.Fixed?, b.Dynamic?];
    AtSplit(bits, p, [final], t + BodyBits(b, out));
    AtSplit(bits, p + 1, t, BodyBits(b, out));
    assert bits[p] == bits[p..p + 1][0] == [final][0];
    WindowInside(bits, p + 1, 2);
    assert t[1..][1..] == [];
    assert Lsb(t) == Bit(t[0]) + 2 * Lsb(t[1..]);
    assert Lsb(t[1..]) == Bit(t[1]) + 2 * Lsb(t[1..][1..]);
  }

  lemma ReadOneBlock(data: seq<byte>, p: nat, b: Block, out: seq<byte>, final: bool, settings: DecompressSettings)
    requires BlockOk(b, out) && At(BitsOf(data), p, BlockBits(b, out, final)) && p <= 8 * |data|
    requires Expandable(b.tokens, out) && !TooLarge(|Expand(b.tokens, out)|, settings.maxOutputSize)
    ensures p + |BlockBits(b, out, final)| <= 8 * |data|
    ensures ReadBlocks(data, p, out, settings)
         == if final then Some(Expand(b.tokens, out))
            else ReadBlocks(data, p + |BlockBits(b, out, final)|, Expand(b.tokens, out), settings)
  {
    hide BlockOk, BodyBits, BlockBits, At, Field, BitsOf, ReadBlock, Expand;
    ReadHeader(BitsOf(data), p, b, out, final);
    ReadBody(data, p + 3, b, out, settings);
  }

  lemma StreamHead(front: seq<Block>, last: Block, out: seq<byte>)
    requires front != [] && BlocksOk(front, out) && BlockOk(last, Meaning(front, out))
    ensures BlockOk(front[0], out) && Expandable(front[0].tokens, out)
    ensures BlocksOk(front[1..], Expand(front[0].tokens, out))
    ensures Meaning(front, out) == Meaning(front[1..], Expand(front[0].tokens, out))
    ensures OpenBits(front, out) + BlockBits(last, Meaning(front, out), true)
         == BlockBits(front[0], out, false)
            + (OpenBits(front[1..], Expand(front[0].tokens, out)) + BlockBits(last, Meaning(front, out), true))
    ensures |Expand(front[0].tokens, out)| <= |Meaning(front, out)|
  {
    hide BlockOk, BlockBits, Expand;
    BlockExpandable(front[0], out);
    MeaningGrows(front[1..], Expand(front[0].tokens, out));
  }

  /** The decoder accepts every well-formed stream and produces what it means. */
  lemma {:induction false} ReadStream(data: seq<byte>, p: nat, front: seq<Block>, last: Block, out: seq<byte>,
                                      settings: DecompressSettings)
    requires BlocksOk(front, out) && BlockOk(last, Meaning(front, out)) && p <= 8 * |data|
    requires At(BitsOf(data), p, OpenBits(front, out) + BlockBits(last, Meaning(front, out), true))
    requires Expandable(last.tokens, Meaning(front, out))
    requires !TooLarge(|Expand(last.tokens, Meaning(front, out))|, settings.maxOutputSize)
    ensures ReadBlocks(data, p, out, settings) == Some(Expand(last.tokens, Meaning(front, out)))
    decreases |front|
  {
    hide BlockOk, BlockBits, At, BitsOf, Expand, ReadBlocks, Expandable;
    if front == [] {
      assert OpenBits(front, out) + BlockBits(last, out, true) == BlockBits(last, out, true);
      ReadOneBlock(data, p, last, out, true, settings);
    } else {
      hide *;
      var b, rest, end := front[0], front[1..], Meaning(front, out);
      StreamHead(front, last, out);
      var out' := Expand(b.tokens, out);
      var tail := OpenBits(rest, out') + BlockBits(last, end, true);
      AtSplit(BitsOf(data), p, BlockBits(b, out, false), tail);
      ExpandGrows(last.tokens, end);
      Smaller(|out'|, |Expand(last.tokens, end)|, settings.maxOutputSize);
      ReadOneBlock(data, p, b, out, false, settings);
      ReadStream(data, p + |BlockBits(b, out, false)|, rest, last, out', settings);
    }
  }

  lemma Smaller(size: nat, size': nat, max: nat)
    requires size <= size' && !TooLarge(size', max)
    ensures !TooLarge(size, max)
  {}
}
