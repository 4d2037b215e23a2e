/** Run-length coding of the code lengths of a dynamic block (section 3.2.7 of RFC 1951), encoder side. */
module LengthRuns {
  import Bits
  import Format
  import opened Stream

  /** A symbol, and behind 16, 17 and 18 the value of its extra bits. */
  ghost function FlatItem(it: Item): seq<nat> {
    if it.code <= 15 then [it.code] else [it.code, it.extra]
  }

  ghost function FlatItems(items: seq<Item>): seq<nat> {
    if items == [] then [] else FlatItems(items[..|items| - 1]) + FlatItem(items[|items| - 1])
  }

  lemma FlatItemsAppend(items: seq<Item>, it: Item)
    ensures FlatItems(items + [it]) == FlatItems(items) + FlatItem(it)
  {
    assert (items + [it])[..|items|] == items;
  }

  lemma {:induction false} FlatItemsPrefix(items: seq<Item>, k: nat)
    requires k < |items|
    ensures FlatItems(items[..k]) + FlatItem(items[k]) <= FlatItems(items)
    decreases |items| - k
  {
    assert items[..k + 1][..k] == items[..k];
    if k + 1 == |items| {
      assert items[..k + 1] == items;
    } else {
      FlatItemsPrefix(items, k + 1);
    }
  }

  /** `e`, the flat form of `items`, stands for the first `i` lengths of `lld`, in no more entries. */
  ghost predicate Coded(lld: seq<nat>, i: nat, items: seq<Item>, e: seq<nat>) {
    && i <= |lld| && |e| <= i && e == FlatItems(items)
    && ItemsOk(items, []) && ItemsExpand(items, []) == lld[..i]
  }

  lemma CodedStart(lld: seq<nat>)
    ensures Coded(lld, 0, [], [])
  {}

  lemma CodedItem(lld: seq<nat>, i: nat, items: seq<Item>, e: seq<nat>, it: Item, n: nat)
    requires Coded(lld, i, items, e) && i + n <= |lld| && ItemOk(it) && (it.code == 16 ==> i > 0)
    requires Format.LengthRun(it.code, it.extra, lld[..i]) == lld[i..i + n]
    requires |FlatItem(it)| <= n
    ensures Coded(lld, i + n, items + [it], e + FlatItem(it))
  {
    hide Format.LengthRun, ItemOk, ItemsOk, ItemsExpand, FlatItem, FlatItems;
    ItemsAppend(items, [], it);
    FlatItemsAppend(items, it);
    assert lld[..i] + lld[i..i + n] == lld[..i + n];
  }

  ghost predicate Same(lld: seq<nat>, i: nat, n: nat) {
    0 < n && i + n <= |lld| && forall k | i <= k < i + n :: lld[k] == lld[i]
  }

  /** A single length. */
  lemma CodedLiteral(lld: seq<nat>, i: nat, items: seq<Item>, e: seq<nat>)
    requires Coded(lld, i, items, e) && i < |lld| && lld[i] <= 15
    ensures Coded(lld, i + 1, items + [Item(lld[i], 0)], e + [lld[i]])
  {
    hide Coded;
    assert Bits.Pow2(0) == 1;
    assert FlatItem(Item(lld[i], 0)) == [lld[i]] == lld[i..i + 1];
    CodedItem(lld, i, items, e, Item(lld[i], 0), 1);
  }

  /** `n` zeros, three or more. */
  lemma CodedZeros(lld: seq<nat>, i: nat, items: seq<Item>, e: seq<nat>, n: nat, it: Item)
    requires Coded(lld, i, items, e) && Same(lld, i, n) && lld[i] == 0 && 3 <= n <= 138
    requires it == if n <= 10 then Item(17, n - 3) else Item(18, n - 11)
    ensures Coded(lld, i + n, items + [it], e + [it.code, it.extra])
  {
    hide Coded;
    Bits.Pow2Values();
    assert Format.LengthRun(it.code, it.extra, lld[..i]) == Format.Repeat(0, n) == lld[i..i + n];
    CodedItem(lld, i, items, e, it, n);
  }

  /** `n` more of the length before. */
  lemma CodedRepeat(lld: seq<nat>, i: nat, items: seq<Item>, e: seq<nat>, n: nat, it: Item)
    requires Coded(lld, i, items, e) && 0 < i && Same(lld, i - 1, n + 1) && 3 <= n <= 6 && it == Item(16, n - 3)
    ensures Coded(lld, i + n, items + [it], e + [16, n - 3])
  {
    hide Coded;
    Bits.Pow2Values();
    assert Format.LengthRun(it.code, it.extra, lld[..i]) == Format.Repeat(lld[i - 1], n) == lld[i..i + n];
    CodedItem(lld, i, items, e, it, n);
  }

  /** What is written stands for exactly the list it was made from, and never needs more room than that. */
  method EncodeLengths(lld: array<nat>, e: array<nat>) returns (num: nat, ghost items: seq<Item>)
    requires lld != e && lld.Length == e.Length && (forall i | 0 <= i < lld.Length :: lld[i] <= 15)
    modifies e
    ensures num <= e.Length && Coded(lld[..], lld.Length, items, e[..num])
  {
    hide Coded, Format.LengthRun;
    ghost var ls := lld[..];
    num, items := 0, [];
    CodedStart(ls);
    assert e[..0] == [];
    var i := 0;
    while i < lld.Length
      invariant i <= lld.Length && num <= i && lld[..] == ls && Coded(ls, i, items, e[..num])
    {
      var j := 0;
      while i + j + 1 < lld.Length && lld[i + j + 1] == lld[i]
        modifies {}
        invariant Same(ls, i, j + 1)
      {
        j := j + 1;
      }
      if lld[i] == 0 && j >= 2 {
        j := j + 1;
        if j > 138 { j := 138; }
        ghost var it := if j <= 10 then Item(17, j - 3) else Item(18, j - 11);
        CodedZeros(ls, i, items, e[..num], j, it);
        if j <= 10 {
          num := Put(e, num, 17, j - 3);
        } else {
          num := Put(e, num, 18, j - 11);
        }
        items := items + [it];
        i := i + j;
      } else if j >= 3 {
        num, items, i := EncodeRepeats(lld, e, num, i, j, items);
      } else {
        CodedLiteral(ls, i, items, e[..num]);
        items := items + [Item(lld[i], 0)];
        e[num] := lld[i];
        num := num + 1;
        assert e[..num] == e[..num - 1] + [lld[i]];
        i := i + 1;
      }
    }
  }

  /** Two more entries. */
  method Put(e: array<nat>, num: nat, a: nat, b: nat) returns (num': nat)
    requires num + 2 <= e.Length
    modifies e
    ensures num' == num + 2 && e[..num'] == old(e[..num]) + [a, b]
  {
    e[num] := a;
    e[num + 1] := b;
    num' := num + 2;
  }

  /** A length other than zero and `j` or fewer repetitions of it. */
  method EncodeRepeats(lld: array<nat>, e: array<nat>, num0: nat, i0: nat, j0: nat, ghost items0: seq<Item>)
    returns (num: nat, ghost items: seq<Item>, i: nat)
    requires lld != e && lld.Length == e.Length && i0 < lld.Length && lld[i0] <= 15
    requires j0 >= 3 && Same(lld[..], i0, j0 + 1) && num0 <= i0 && Coded(lld[..], i0, items0, e[..num0])
    modifies e
    ensures i0 < i <= lld.Length && num <= i && Coded(lld[..], i, items, e[..num])
  {
    hide Coded, Format.LengthRun;
    ghost var ls := lld[..];
    var j := j0;
    items := items0;
    var n, rest := j / 6, j % 6;
    CodedLiteral(ls, i0, items, e[..num0]);
    items := items + [Item(lld[i0], 0)];
    e[num0] := lld[i0];
    num := num0 + 1;
    assert e[..num] == e[..num0] + [lld[i0]];
    for k := 0 to n
      invariant lld[..] == ls && num == num0 + 1 + 2 * k && Coded(ls, i0 + 1 + 6 * k, items, e[..num])
    {
      CodedRepeat(ls, i0 + 1 + 6 * k, items, e[..num], 6, Item(16, 3));
      num := Put(e, num, 16, 3);
      items := items + [Item(16, 3)];
    }
    if rest >= 3 {
      CodedRepeat(ls, i0 + 1 + 6 * n, items, e[..num], rest, Item(16, rest - 3));
      num := Put(e, num, 16, rest - 3);
      items := items + [Item(16, rest - 3)];
    } else {
      j := j - rest;
    }
    i := i0 + j + 1;
  }
}
