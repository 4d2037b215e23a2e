/** `lodepng_huffman_code_lengths`: length-limited code lengths by Boundary Package Merge. */
module CodeLengths {
  import Bits
  import opened Huffman
  import opened LeafSort
  import opened PackageMerge
  import opened BpmPool

  ghost function Weights(s: seq<Leaf>): (w: seq<int>)
    ensures |w| == |s|
  {
    seq(|s|, i requires 0 <= i < |s| => s[i].weight)
  }

  /** One boundary step on the pool computes the abstract step. */
  method BoundaryPM(lists: BpmLists, leaves: seq<Leaf>, c: nat, num: nat)
    requires lists.Valid() && Shaped(lists.lists, lists.listsize) && c < lists.listsize && |leaves| >= 2
    modifies lists`numfree, lists`nextfree, lists`lists, lists.memory, lists.freelist, lists.chains0, lists.chains1
    ensures lists.Valid() && Shaped(lists.lists, lists.listsize)
    ensures lists.lists == Step(old(lists.lists), Weights(leaves), c, num + 1 >= 2 * |leaves| - 2)
    decreases c
  {
    hide BpmLists.Valid;
    ghost var s := lists.lists;
    ChainHead(lists, c);
    var lastindex := lists.memory[lists.chains1[c]].index;
    if c == 0 {
      if lastindex >= |leaves| { return; }
      PushBottom(lists, leaves[lastindex].weight, lastindex + 1);
    } else {
      ChainHead(lists, c - 1);
      var sum := lists.memory[lists.chains0[c - 1]].weight + lists.memory[lists.chains1[c - 1]].weight;
      if lastindex < |leaves| && sum > leaves[lastindex].weight {
        PushLeaf(lists, c, leaves[lastindex].weight, lastindex + 1);
        return;
      }
      PushPackage(lists, c, sum, lastindex);
      if num + 1 < 2 * |leaves| - 2 {
        BoundaryPM(lists, leaves, c - 1, num);
        BoundaryPM(lists, leaves, c - 1, num);
      }
    }
  }

  /** The next leaf of the lowest list. */
  method PushBottom(lists: BpmLists, weight: int, index: nat)
    requires lists.Valid() && Shaped(lists.lists, lists.listsize) && lists.listsize > 0
    modifies lists`numfree, lists`nextfree, lists`lists, lists.memory, lists.freelist, lists.chains0, lists.chains1
    ensures lists.Valid()
    ensures var s := old(lists.lists); lists.lists == Lists(s.c0[0 := s.c1[0]], s.c1[0 := Node(weight, index, Nil)])
  {
    hide Holds, Cells, Reach, PoolSize, AllHold, FreeCells;
    lists.Shift(0);
    NoTail(lists.memory[..], lists.Reachable());
    lists.Push(0, weight, index, NULL, Nil);
  }

  /** A leaf on top of the same packages as before. */
  method PushLeaf(lists: BpmLists, c: nat, weight: int, index: nat)
    requires lists.Valid() && Shaped(lists.lists, lists.listsize) && c < lists.listsize
    modifies lists`numfree, lists`nextfree, lists`lists, lists.memory, lists.freelist, lists.chains0, lists.chains1
    ensures lists.Valid()
    ensures lists.lists.c0 == old(lists.lists.c0)[c := old(lists.lists.c1)[c]]
    ensures lists.lists.c1 == old(lists.lists.c1)[c := Node(weight, index, old(lists.lists.c1)[c].tail)]
  {
    hide Holds, Cells, Reach, PoolSize, AllHold, FreeCells, BpmLists.Valid;
    lists.Shift(c);
    ChainCells(lists, c);
    lists.Push(c, weight, index, lists.memory[lists.chains1[c]].tail, lists.lists.c1[c].tail);
  }

  /** The two lookahead chains of the list below as one package. */
  method PushPackage(lists: BpmLists, c: nat, sum: int, index: nat)
    requires lists.Valid() && Shaped(lists.lists, lists.listsize) && 0 < c < lists.listsize
    requires sum == lists.lists.c0[c - 1].weight + lists.lists.c1[c - 1].weight && index == lists.lists.c1[c].index
    modifies lists`numfree, lists`nextfree, lists`lists, lists.memory, lists.freelist, lists.chains0, lists.chains1
    ensures lists.Valid() && lists.lists == Package(old(lists.lists), c)
  {
    hide Holds, Cells, Reach, PoolSize, AllHold, FreeCells, BpmLists.Valid;
    lists.Shift(c);
    ChainCells(lists, c - 1);
    lists.Push(c, sum, index, lists.chains1[c - 1], lists.lists.c1[c - 1]);
  }

  /** Weights and leaf counts of the two chains of list `c`. */
  lemma ChainHead(lists: BpmLists, c: nat)
    requires lists.Valid() && Shaped(lists.lists, lists.listsize) && c < lists.listsize
    ensures lists.listsize == lists.chains0.Length == lists.chains1.Length
    ensures 0 <= lists.chains0[c] < lists.memory.Length && 0 <= lists.chains1[c] < lists.memory.Length
    ensures lists.memory[lists.chains0[c]].weight == lists.lists.c0[c].weight
    ensures lists.memory[lists.chains1[c]].weight == lists.lists.c1[c].weight
    ensures lists.memory[lists.chains1[c]].index == lists.lists.c1[c].index
  {
    hide Holds, Cells, Reach, PoolSize, AllHold, FreeCells;
    ChainCells(lists, c);
  }

  /** The heads of list `c` in memory. */
  lemma ChainCells(lists: BpmLists, c: nat)
    requires lists.Valid() && Shaped(lists.lists, lists.listsize) && c < lists.listsize
    ensures lists.listsize == lists.chains0.Length == lists.chains1.Length
    ensures var m, p0, p1 := lists.memory[..], lists.chains0[c], lists.chains1[c];
            && 0 <= p0 < lists.memory.Length && 0 <= p1 < lists.memory.Length
            && m[p0].weight == lists.lists.c0[c].weight
            && m[p1].weight == lists.lists.c1[c].weight && m[p1].index == lists.lists.c1[c].index
            && Holds(m, p1, lists.lists.c1[c]) && Cells(m, p1, lists.lists.c1[c]) <= lists.Reachable()
            && Holds(m, m[p1].tail, lists.lists.c1[c].tail)
            && Cells(m, m[p1].tail, lists.lists.c1[c].tail) <= lists.Reachable()
            && Depth(lists.lists.c1[c]) <= c + 1 && Depth(lists.lists.c1[c].tail) <= c
  {
    hide Reach, PoolSize;
    var m, h0, h1, ls := lists.memory[..], lists.chains0[..], lists.chains1[..], lists.lists;
    ListHolds(m, h0, h1, ls, c);
    ReachMember(m, h0, h1, ls, lists.listsize, c);
    TailCells(m, h1[c], ls.c1[c]);
  }

  // ---------------------------------------------------------------- the leaves

  /** The present symbols in order. */
  ghost function LeavesOf(f: seq<nat>): (s: seq<Leaf>)
    ensures |s| <= |f|
  {
    if f == [] then []
    else
      var k := |f| - 1;
      LeavesOf(f[..k]) + (if f[k] > 0 then [Leaf(f[k], k)] else [])
  }

  /** `s` lists exactly the symbols with a frequency, each once. */
  ghost predicate LeavesFor(s: seq<Leaf>, f: seq<nat>) {
    && (forall k | 0 <= k < |s| :: s[k].index < |f| && s[k].weight == f[s[k].index] > 0)
    && (forall j, k | 0 <= j < k < |s| :: s[j].index != s[k].index)
    && (forall i | 0 <= i < |f| && f[i] > 0 :: Leaf(f[i], i) in s)
  }

  lemma {:induction false} LeavesOfFor(f: seq<nat>)
    ensures LeavesFor(LeavesOf(f), f)
  {
    if f != [] {
      var k := |f| - 1;
      LeavesOfFor(f[..k]);
      LeavesNext(LeavesOf(f[..k]), f, k);
    }
  }

  lemma LeavesNext(s: seq<Leaf>, f: seq<nat>, k: nat)
    requires k + 1 == |f| && LeavesFor(s, f[..k])
    ensures LeavesFor(s + (if f[k] > 0 then [Leaf(f[k], k)] else []), f)
  {
    var t := s + if f[k] > 0 then [Leaf(f[k], k)] else [];
    forall i | 0 <= i < |t| ensures t[i].index < |f| && t[i].weight == f[t[i].index] > 0 {
      if i < |s| { assert t[i] == s[i]; }
    }
    forall i, j | 0 <= i < j < |t| ensures t[i].index != t[j].index {
      assert t[i] == s[i];
      if j < |s| { assert t[j] == s[j]; }
    }
    forall i | 0 <= i < |f| && f[i] > 0 ensures Leaf(f[i], i) in t {
      if i < k { assert f[..k][i] == f[i]; } else { assert t[|s|] == Leaf(f[k], k); }
    }
  }

  lemma {:induction false} OnlyOnce(s: seq<Leaf>, l: Leaf)
    requires forall j, k | 0 <= j < k < |s| :: s[j].index != s[k].index
    ensures multiset(s)[l] <= 1
  {
    if s != [] {
      var t, last := s[..|s| - 1], s[|s| - 1];
      OnlyOnce(t, l);
      assert s == t + [last];
      if last == l {
        assert l !in t;
        assert multiset(t)[l] == 0;
      }
    }
  }

  lemma Twice(s: seq<Leaf>, j: nat, k: nat)
    requires j < k < |s| && s[j] == s[k]
    ensures multiset(s)[s[j]] >= 2
  {
    assert s == s[..k] + [s[k]] + s[k + 1..];
    assert s[..k][j] == s[j];
    assert s[j] in multiset(s[..k]);
  }

  lemma LeavesPermuted(s: seq<Leaf>, t: seq<Leaf>, f: seq<nat>)
    requires LeavesFor(t, f) && multiset(s) == multiset(t)
    ensures LeavesFor(s, f) && |s| == |t|
  {
    assert |s| == |multiset(s)| == |t|;
    forall k | 0 <= k < |s| ensures s[k].index < |f| && s[k].weight == f[s[k].index] > 0 {
      assert s[k] in multiset(t);
    }
    forall j, k | 0 <= j < k < |s| ensures s[j].index != s[k].index {
      if s[j].index == s[k].index {
        Twice(s, j, k);
        OnlyOnce(t, s[j]);
        assert false;
      }
    }
    forall i | 0 <= i < |f| && f[i] > 0 ensures Leaf(f[i], i) in s {
      assert Leaf(f[i], i) in multiset(t);
    }
  }

  /** Sorted leaves have weights the package merge can work on. */
  lemma SortedWeights(s: seq<Leaf>, f: seq<nat>)
    requires LeavesFor(s, f) && Sorted(s) && |s| >= 2
    ensures LeafWeights(Weights(s))
  {}

  // ---------------------------------------------------------------- from leaves to symbols

  /** Lengths that satisfy Kraft's equality, respect the limit and give every present symbol a code. */
  ghost predicate GoodLengths(lens: seq<nat>, f: seq<nat>, maxbitlen: nat) {
    && |lens| == |f|
    && (forall i | 0 <= i < |lens| :: lens[i] <= maxbitlen && lens[i] <= 15)
    && (forall i | 0 <= i < |lens| && f[i] > 0 :: lens[i] > 0)
    && Kraft(lens) == 0x8000
  }

  /** The first `k` leaves given their lengths, every other symbol none. */
  ghost function Placed(num: nat, s: seq<Leaf>, ch: Chain, k: nat): (lens: seq<nat>)
    requires k <= |s| && forall i | 0 <= i < |s| :: s[i].index < num
    ensures |lens| == num
  {
    if k == 0 then seq(num, _ => 0) else Placed(num, s, ch, k - 1)[s[k - 1].index := Length(ch, k - 1)]
  }

  lemma {:induction false} PlacedKraft(num: nat, s: seq<Leaf>, ch: Chain, k: nat)
    requires k <= |s| && forall i | 0 <= i < |s| :: s[i].index < num
    requires forall i, j | 0 <= i < j < |s| :: s[i].index != s[j].index
    requires forall i | 0 <= i < |s| :: 1 <= Length(ch, i) <= 15
    ensures var lens := Placed(num, s, ch, k);
            && ValidLengths(lens) && Kraft(lens) == LeafKraft(ch, k)
            && (forall i | 0 <= i < k :: lens[s[i].index] == Length(ch, i))
            && (forall j | 0 <= j < num && (forall i | 0 <= i < k :: s[i].index != j) :: lens[j] == 0)
  {
    hide Kraft, Length;
    if k == 0 {
      KraftZeros(num);
    } else {
      PlacedKraft(num, s, ch, k - 1);
      KraftUpdate(Placed(num, s, ch, k - 1), s[k - 1].index, Length(ch, k - 1));
    }
  }

  /** Only the two symbols `a` and `b` present, one bit each. */
  lemma TwoSymbols(num: nat, a: nat, b: nat)
    requires a < num && b < num && a != b
    ensures var lens := seq(num, _ => 0)[a := 1][b := 1]; ValidLengths(lens) && Kraft(lens) == 0x8000
  {
    KraftZeros(num);
    KraftUpdate(seq(num, _ => 0), a, 1);
    KraftUpdate(seq(num, _ => 0)[a := 1], b, 1);
    assert Weight(1) == 0x4000 by { WeightFacts(1); Bits.Pow2Values(); }
  }

  // ---------------------------------------------------------------- the algorithm

  /** Complete lengths within the limit; for a single code, two lengths of one bit all the same. */
  method HuffmanCodeLengths(lengths: array<nat>, frequencies: array<nat>, numcodes: nat, maxbitlen: nat)
    returns (error: nat)
    requires numcodes <= lengths.Length && numcodes <= frequencies.Length && lengths != frequencies
    requires maxbitlen <= 15 && (numcodes == 1 ==> lengths.Length >= 2)
    modifies lengths
    ensures error == if numcodes == 0 || Bits.Pow2(maxbitlen) < numcodes then 80 else 0
    ensures error == 0 && numcodes >= 2 ==> GoodLengths(lengths[..numcodes], frequencies[..numcodes], maxbitlen)
    ensures numcodes == 1 ==> lengths[..2] == [1, 1] && lengths[2..] == old(lengths[2..])
    ensures numcodes != 1 ==> lengths[numcodes..] == old(lengths[numcodes..])
  {
    hide Kraft, LeavesFor, LeavesOf, Bits.Pow2, GoodLengths;
    if numcodes == 0 { return 80; }
    if Bits.Pow2(maxbitlen) < numcodes { return 80; }
    assert numcodes >= 2 ==> maxbitlen > 0 by { Bits.Pow2Values(); }
    ghost var f := frequencies[..numcodes];
    var leaves := new Leaf[numcodes](_ => Leaf(0, 0));
    var numpresent := CollectLeaves(leaves, frequencies, numcodes);
    ghost var s := leaves[..numpresent];
    LeavesOfFor(f);
    for i := 0 to numcodes
      modifies lengths
      invariant forall k | 0 <= k < i :: lengths[k] == 0
      invariant lengths[numcodes..] == old(lengths[numcodes..])
    {
      lengths[i] := 0;
    }
    assert leaves[..numpresent] == s;
    if numpresent == 0 {
      NonePresent(f, s);
      SetTwo(lengths, 0, 1, f, maxbitlen);
    } else if numpresent == 1 {
      var a := leaves[0].index;
      OnlyPresent(f, s);
      SetTwo(lengths, a, if a == 0 then 1 else 0, f, maxbitlen);
    } else {
      MergeLengths(lengths, leaves, f, numpresent, numcodes, maxbitlen);
    }
    error := 0;
  }

  /** One bit each for `a` and `b`: Deflate wants two codes even when fewer symbols occur. */
  method SetTwo(lengths: array<nat>, a: nat, b: nat, ghost f: seq<nat>, ghost maxbitlen: nat)
    requires |f| <= lengths.Length && 2 <= lengths.Length && a != b && (|f| >= 2 ==> maxbitlen > 0)
    requires if |f| >= 2 then a < |f| && b < |f| else a + b == 1
    requires forall k | 0 <= k < |f| :: lengths[k] == 0
    requires forall k | 0 <= k < |f| && f[k] > 0 :: k == a || k == b
    modifies lengths
    ensures |f| >= 2 ==> GoodLengths(lengths[..|f|], f, maxbitlen) && lengths[|f|..] == old(lengths[|f|..])
    ensures |f| < 2 ==> lengths[..2] == [1, 1] && lengths[2..] == old(lengths[2..])
  {
    hide Kraft;
    lengths[a] := 1;
    lengths[b] := 1;
    if |f| >= 2 {
      TwoSymbols(|f|, a, b);
      assert lengths[..|f|] == seq(|f|, _ => 0)[a := 1][b := 1];
    }
  }

  lemma NonePresent(f: seq<nat>, s: seq<Leaf>)
    requires LeavesFor(s, f) && s == []
    ensures forall i | 0 <= i < |f| :: f[i] == 0
  {}

  lemma OnlyPresent(f: seq<nat>, s: seq<Leaf>)
    requires LeavesFor(s, f) && |s| == 1
    ensures s[0].index < |f| && forall i | 0 <= i < |f| && f[i] > 0 :: i == s[0].index
  {
    forall i | 0 <= i < |f| && f[i] > 0 ensures i == s[0].index {
      assert Leaf(f[i], i) in s;
    }
  }

  method CollectLeaves(leaves: array<Leaf>, frequencies: array<nat>, numcodes: nat) returns (numpresent: nat)
    requires numcodes <= frequencies.Length && numcodes <= leaves.Length
    modifies leaves
    ensures numpresent <= numcodes && leaves[..numpresent] == LeavesOf(frequencies[..numcodes])
  {
    numpresent := 0;
    for i := 0 to numcodes
      invariant numpresent <= i && leaves[..numpresent] == LeavesOf(frequencies[..i])
    {
      assert frequencies[..i + 1][..i] == frequencies[..i];
      if frequencies[i] > 0 {
        leaves[numpresent] := Leaf(frequencies[i], i);
        numpresent := numpresent + 1;
      }
    }
  }

  /** At least two symbols: sort, run the boundary steps, read the lengths off the last chain. */
  method MergeLengths(lengths: array<nat>, leaves: array<Leaf>, ghost f: seq<nat>, numpresent: nat, numcodes: nat,
                      maxbitlen: nat)
    requires 2 <= numpresent <= numcodes == |f| && numcodes <= lengths.Length && numpresent <= leaves.Length
    requires 0 < maxbitlen <= 15 && numcodes <= Bits.Pow2(maxbitlen)
    requires LeavesFor(leaves[..numpresent], f)
    requires forall k | 0 <= k < numcodes :: lengths[k] == 0
    modifies lengths, leaves
    ensures GoodLengths(lengths[..numcodes], f, maxbitlen)
    ensures lengths[numcodes..] == old(lengths[numcodes..])
  {
    hide Kraft, LeavesFor, Bits.Pow2, Length, Run, LeafWeights, SortOf, Proper, AllHold, Reach, PoolSize, FreeCells;
    ghost var t := leaves[..numpresent];
    SortLeaves(leaves, numpresent);
    var s := leaves[..numpresent];
    RunsOfOne(t);
    SortOfSorts(t, 1);
    LeavesPermuted(s, t, f);
    SortedWeights(s, f);
    ghost var w := Weights(s);
    var lists := RunPool(s, maxbitlen);
    ghost var ch := lists.lists.c1[maxbitlen - 1];
    RunKraft(w, maxbitlen);
    FinalChain(w, maxbitlen);
    LeafIndices(s, f);
    ReadLengths(lengths, s, lists, ch, numcodes);
    ghost var lens := Placed(numcodes, s, ch, numpresent);
    PlacedKraft(numcodes, s, ch, numpresent);
    PresentHaveCodes(lens, s, f, ch);
    forall j | 0 <= j < numcodes ensures lengths[j] == lens[j] {
      if k: nat :| k < |s| && s[k].index == j {}
    }
    assert lengths[..numcodes] == lens;
  }

  /** The pool after all boundary steps. */
  method RunPool(s: seq<Leaf>, maxbitlen: nat) returns (lists: BpmLists)
    requires |s| >= 2 && LeafWeights(Weights(s)) && maxbitlen > 0
    ensures fresh(lists) && fresh(lists.memory) && fresh(lists.freelist) && fresh(lists.chains0) && fresh(lists.chains1)
    ensures lists.Valid() && lists.listsize == maxbitlen
    ensures lists.lists == Run(Weights(s), maxbitlen, 2 * |s| - 2)
  {
    hide Run, LeafWeights, AllHold, Reach, PoolSize, FreeCells;
    ghost var w := Weights(s);
    lists := new BpmLists(maxbitlen);
    lists.Setup(s[0].weight, s[1].weight);
    RunStart(w, maxbitlen);
    var i := 2;
    while i != 2 * |s| - 2
      modifies lists, lists.memory, lists.freelist, lists.chains0, lists.chains1
      invariant 2 <= i <= 2 * |s| - 2
      invariant lists.Valid() && lists.lists == Run(w, maxbitlen, i)
    {
      RunUnfold(w, maxbitlen, i + 1);
      BoundaryPM(lists, s, maxbitlen - 1, i);
      i := i + 1;
    }
  }

  lemma RunStart(w: seq<int>, levels: nat)
    requires LeafWeights(w) && levels > 0
    ensures |w| >= 2
    ensures Run(w, levels, 2) == Lists(seq(levels, _ => Node(w[0], 1, Nil)), seq(levels, _ => Node(w[1], 2, Nil)))
  {}

  lemma LeafIndices(s: seq<Leaf>, f: seq<nat>)
    requires LeavesFor(s, f)
    ensures forall k | 0 <= k < |s| :: s[k].index < |f|
    ensures forall j, k | 0 <= j < k < |s| :: s[j].index != s[k].index
  {}

  lemma PresentHaveCodes(lens: seq<nat>, s: seq<Leaf>, f: seq<nat>, ch: Chain)
    requires LeavesFor(s, f) && |lens| == |f|
    requires forall k | 0 <= k < |s| :: Length(ch, k) >= 1
    requires forall k | 0 <= k < |s| :: lens[s[k].index] == Length(ch, k)
    ensures forall i | 0 <= i < |f| && f[i] > 0 :: lens[i] > 0
  {
    forall i | 0 <= i < |f| && f[i] > 0 ensures lens[i] > 0 {
      var k :| 0 <= k < |s| && s[k] == Leaf(f[i], i);
    }
  }

  /** Walks the last chain and counts, for every leaf, the lists that took it. */
  method ReadLengths(lengths: array<nat>, s: seq<Leaf>, lists: BpmLists, ghost ch: Chain, numcodes: nat)
    requires lists.Valid() && Shaped(lists.lists, lists.listsize) && ch == lists.lists.c1[lists.listsize - 1]
    requires Proper(ch, lists.listsize - 1, |s|) && numcodes <= lengths.Length
    requires forall k | 0 <= k < |s| :: s[k].index < numcodes
    requires forall j, k | 0 <= j < k < |s| :: s[j].index != s[k].index
    requires forall k | 0 <= k < numcodes :: lengths[k] == 0
    requires lengths != lists.freelist
    modifies lengths
    ensures forall k | 0 <= k < |s| :: lengths[s[k].index] == Length(ch, k)
    ensures forall j | 0 <= j < numcodes && (forall k | 0 <= k < |s| :: s[k].index != j) :: lengths[j] == 0
    ensures lengths[numcodes..] == old(lengths[numcodes..])
  {
    hide AllHold, Reach, PoolSize, FreeCells, Cells;
    ghost var mem := lists.memory[..];
    ChainCells(lists, lists.listsize - 1);
    var node := lists.chains1[lists.listsize - 1];
    ghost var rest, level := ch, lists.listsize - 1;
    while node != NULL
      invariant Holds(mem, node, rest) && (rest.Node? ==> 0 <= level && Proper(rest, level, |s|))
      invariant forall k | 0 <= k < |s| :: lengths[s[k].index] + Length(rest, k) == Length(ch, k)
      invariant forall j | 0 <= j < numcodes && (forall k | 0 <= k < |s| :: s[k].index != j) :: lengths[j] == 0
      invariant lengths[numcodes..] == old(lengths[numcodes..])
      decreases rest
    {
      AddOneEach(lengths, s, lists.memory[node].index, numcodes);
      rest, level := rest.tail, level - 1;
      node := lists.memory[node].tail;
    }
  }

  /** One more bit for each of the first `n` leaves. */
  method AddOneEach(lengths: array<nat>, s: seq<Leaf>, n: nat, ghost numcodes: nat)
    requires n <= |s| && numcodes <= lengths.Length && forall k | 0 <= k < |s| :: s[k].index < numcodes
    requires forall j, k | 0 <= j < k < |s| :: s[j].index != s[k].index
    modifies lengths
    ensures forall k | 0 <= k < |s| :: lengths[s[k].index] == old(lengths[s[k].index]) + (if k < n then 1 else 0)
    ensures forall j | 0 <= j < numcodes && (forall k | 0 <= k < |s| :: s[k].index != j) ::
          lengths[j] == old(lengths[j])
    ensures lengths[numcodes..] == old(lengths[numcodes..])
  {
    for i := 0 to n
      invariant forall k | 0 <= k < |s| :: lengths[s[k].index] == old(lengths[s[k].index]) + (if k < i then 1 else 0)
      invariant forall j | 0 <= j < numcodes && (forall k | 0 <= k < |s| :: s[k].index != j) ::
            lengths[j] == old(lengths[j])
      invariant lengths[numcodes..] == old(lengths[numcodes..])
    {
      lengths[s[i].index] := lengths[s[i].index] + 1;
    }
  }
}
