/** The package-merge node pool: chains share cells, and a mark phase finds the cells to reuse. */
module BpmPool {
  import Bits
  import opened PackageMerge

  /** `tail` is the pool position of the next cell, -1 for the null pointer. */
  datatype BpmNode = BpmNode(weight: int, index: nat, tail: int, inUse: bool)

  const NULL: int := -1

  /** The cells from `p` spell out `ch`. */
  ghost predicate Holds(mem: seq<BpmNode>, p: int, ch: Chain)
    decreases ch
  {
    match ch
    case Nil => p == NULL
    case Node(weight, index, tail) =>
      0 <= p < |mem| && mem[p].weight == weight && mem[p].index == index && Holds(mem, mem[p].tail, tail)
  }

  ghost function Depth(ch: Chain): nat {
    match ch case Nil => 0 case Node(_, _, tail) => 1 + Depth(tail)
  }

  /** The pool positions a chain occupies. */
  ghost function Cells(mem: seq<BpmNode>, p: int, ch: Chain): (s: set<int>)
    requires Holds(mem, p, ch)
    ensures forall q | q in s :: 0 <= q < |mem|
    ensures |s| <= Depth(ch)
    decreases ch
  {
    match ch
    case Nil => {}
    case Node(_, _, tail) => {p} + Cells(mem, mem[p].tail, tail)
  }

  ghost predicate AllHold(mem: seq<BpmNode>, h0: seq<int>, h1: seq<int>, ls: Lists) {
    && |h0| == |h1| == |ls.c0| == |ls.c1|
    && forall i | 0 <= i < |h0| ::
         && Holds(mem, h0[i], ls.c0[i]) && Depth(ls.c0[i]) <= i + 1
         && Holds(mem, h1[i], ls.c1[i]) && Depth(ls.c1[i]) <= i + 1
  }

  /** The positions the first `k` lists occupy: at most 2 + 4 + ... + 2k of them. */
  ghost function Reach(mem: seq<BpmNode>, h0: seq<int>, h1: seq<int>, ls: Lists, k: nat): (s: set<int>)
    requires AllHold(mem, h0, h1, ls) && k <= |h0|
    ensures forall q | q in s :: 0 <= q < |mem|
    ensures |s| <= k * (k + 1)
  {
    if k == 0 then {}
    else
      var s := Reach(mem, h0, h1, ls, k - 1);
      var a, b := Cells(mem, h0[k - 1], ls.c0[k - 1]), Cells(mem, h1[k - 1], ls.c1[k - 1]);
      UnionSize(s, a, b);
      assert k * (k + 1) == (k - 1) * k + 2 * k;
      s + a + b
  }

  lemma UnionSize(s: set<int>, a: set<int>, b: set<int>)
    ensures |s + a + b| <= |s| + |a| + |b|
  {
    assert |s + a| == |s| + |a - s| by { assert s + a == s + (a - s); }
    assert |s + a + b| == |s + a| + |b - (s + a)| by { assert s + a + b == (s + a) + (b - (s + a)); }
    Subset(a - s, a);
    Subset(b - (s + a), b);
  }

  lemma Subset(a: set<int>, b: set<int>)
    requires a <= b
    ensures |a| <= |b|
  {
    assert b == a + (b - a);
  }

  lemma ReachMember(mem: seq<BpmNode>, h0: seq<int>, h1: seq<int>, ls: Lists, k: nat, i: nat)
    requires AllHold(mem, h0, h1, ls) && i < k <= |h0|
    ensures Cells(mem, h0[i], ls.c0[i]) <= Reach(mem, h0, h1, ls, k)
    ensures Cells(mem, h1[i], ls.c1[i]) <= Reach(mem, h0, h1, ls, k)
  {
    if i < k - 1 { ReachMember(mem, h0, h1, ls, k - 1, i); }
  }

  /** Cells of the tail are cells of the chain. */
  lemma TailCells(mem: seq<BpmNode>, p: int, ch: Chain)
    requires Holds(mem, p, ch) && ch.Node?
    ensures Holds(mem, mem[p].tail, ch.tail) && Cells(mem, mem[p].tail, ch.tail) <= Cells(mem, p, ch)
  {}

  // ---------------------------------------------------------------- what memory changes keep

  /** Same contents; only the marks may differ. */
  ghost predicate SameNodes(mem: seq<BpmNode>, mem': seq<BpmNode>) {
    |mem| == |mem'| && forall q | 0 <= q < |mem| :: mem'[q].(inUse := false) == mem[q].(inUse := false)
  }

  ghost predicate SameAt(mem: seq<BpmNode>, mem': seq<BpmNode>, q: int)
  {
    0 <= q < |mem| && q < |mem'| && mem'[q].(inUse := false) == mem[q].(inUse := false)
  }

  /** A chain is untouched by changes outside its cells. */
  lemma {:induction false} FrameChain(mem: seq<BpmNode>, mem': seq<BpmNode>, p: int, ch: Chain)
    requires Holds(mem, p, ch)
    requires forall q | q in Cells(mem, p, ch) :: SameAt(mem, mem', q)
    ensures Holds(mem', p, ch) && Cells(mem', p, ch) == Cells(mem, p, ch)
    decreases ch
  {
    if ch.Node? {
      assert SameAt(mem, mem', p);
      FrameChain(mem, mem', mem[p].tail, ch.tail);
    }
  }

  lemma {:induction false} FrameReach(mem: seq<BpmNode>, mem': seq<BpmNode>, h0: seq<int>, h1: seq<int>, ls: Lists,
                                      k: nat)
    requires AllHold(mem, h0, h1, ls) && k <= |h0| && AllHold(mem', h0, h1, ls)
    requires forall q | q in Reach(mem, h0, h1, ls, k) :: SameAt(mem, mem', q)
    ensures Reach(mem', h0, h1, ls, k) == Reach(mem, h0, h1, ls, k)
  {
    hide Holds, Cells, SameAt, AllHold;
    if k > 0 {
      ListHolds(mem, h0, h1, ls, k - 1);
      ListHolds(mem', h0, h1, ls, k - 1);
      FrameReach(mem, mem', h0, h1, ls, k - 1);
      FrameChain(mem, mem', h0[k - 1], ls.c0[k - 1]);
      FrameChain(mem, mem', h1[k - 1], ls.c1[k - 1]);
    }
  }

  lemma FrameAll(mem: seq<BpmNode>, mem': seq<BpmNode>, h0: seq<int>, h1: seq<int>, ls: Lists)
    requires AllHold(mem, h0, h1, ls)
    requires forall q | q in Reach(mem, h0, h1, ls, |h0|) :: SameAt(mem, mem', q)
    ensures AllHold(mem', h0, h1, ls)
    ensures Reach(mem', h0, h1, ls, |h0|) == Reach(mem, h0, h1, ls, |h0|)
  {
    hide Holds, Cells, SameAt, Reach;
    forall i | 0 <= i < |h0|
      ensures Holds(mem', h0[i], ls.c0[i]) && Holds(mem', h1[i], ls.c1[i])
    {
      ReachMember(mem, h0, h1, ls, |h0|, i);
      FrameChain(mem, mem', h0[i], ls.c0[i]);
      FrameChain(mem, mem', h1[i], ls.c1[i]);
    }
    FrameReach(mem, mem', h0, h1, ls, |h0|);
  }

  /** Replacing the chains of list `c` keeps everything reachable inside `r` plus the new chains. */
  lemma {:induction false} ReachAfter(mem: seq<BpmNode>, h0: seq<int>, h1: seq<int>, ls: Lists, h0': seq<int>,
                                      h1': seq<int>, ls': Lists, c: nat, k: nat, r: set<int>)
    requires AllHold(mem, h0, h1, ls) && AllHold(mem, h0', h1', ls') && |h0| == |h0'| && c < |h0| && k <= |h0|
    requires forall i | 0 <= i < |h0| && i != c ::
               h0'[i] == h0[i] && h1'[i] == h1[i] && ls'.c0[i] == ls.c0[i] && ls'.c1[i] == ls.c1[i]
    requires Reach(mem, h0, h1, ls, k) <= r
    requires Cells(mem, h0'[c], ls'.c0[c]) <= r && Cells(mem, h1'[c], ls'.c1[c]) <= r
    ensures Reach(mem, h0', h1', ls', k) <= r
  {
    hide Holds, Cells;
    if k > 0 {
      ReachAfter(mem, h0, h1, ls, h0', h1', ls', c, k - 1, r);
    }
  }

  // ---------------------------------------------------------------- counting free cells

  /** Half of it can be in use at most: 2 + 4 + ... + 2l cells. */
  function PoolSize(l: nat): (n: nat)
    ensures l > 0 ==> n >= 4 && l * (l + 1) < n
  {
    assert l > 0 ==> l * (l + 1) >= 2 by { if l > 0 { Bits.MulLe(1, l, l + 1); } }
    assert 2 * l * (l + 1) == 2 * (l * (l + 1)) by { Bits.MulAssoc(2, l, l + 1); }
    2 * l * (l + 1)
  }

  /** Positions `lo..hi` of the free list are distinct cells outside `r`. */
  ghost predicate FreeCells(fl: seq<nat>, lo: nat, hi: nat, size: nat, r: set<int>) {
    && lo <= hi <= size == |fl|
    && (forall f | lo <= f < hi :: fl[f] < size && fl[f] !in r)
    && (forall f, g | lo <= f < g < hi :: fl[f] != fl[g])
  }

  ghost function Below(r: set<int>, n: nat): set<int> {
    set q | q in r && 0 <= q < n
  }

  lemma BelowZero(r: set<int>)
    ensures |Below(r, 0)| == 0
  {
    assert Below(r, 0) == {};
  }

  lemma BelowStep(r: set<int>, n: nat)
    ensures |Below(r, n + 1)| == |Below(r, n)| + (if n in r then 1 else 0)
    ensures Below(r, n) <= r && |Below(r, n)| <= |r|
  {
    if n in r {
      assert Below(r, n + 1) == Below(r, n) + {n};
    } else {
      assert Below(r, n + 1) == Below(r, n);
    }
    Subset(Below(r, n), r);
  }

  // ---------------------------------------------------------------- the pool

  class BpmLists {
    const memory: array<BpmNode>
    const freelist: array<nat>
    const chains0: array<int>
    const chains1: array<int>
    const memsize: nat
    const listsize: nat
    var numfree: nat
    var nextfree: nat
    ghost var lists: Lists

    ghost function Reachable(): set<int>
      reads this, memory, chains0, chains1
      requires AllHold(memory[..], chains0[..], chains1[..], lists)
    {
      Reach(memory[..], chains0[..], chains1[..], lists, |chains0[..]|)
    }

    /** The arrays have their sizes and are distinct; every chain is held. */
    ghost predicate Sound()
      reads this, memory, chains0, chains1
    {
      && listsize > 0 && memsize == PoolSize(listsize)
      && memory.Length == memsize == freelist.Length
      && chains0.Length == chains1.Length == listsize && chains0 != chains1
      && AllHold(memory[..], chains0[..], chains1[..], lists)
    }

    /** What is left of the free list is distinct cells that no chain uses. */
    ghost predicate FreeOk()
      reads this, memory, freelist, chains0, chains1
      requires Sound()
    {
      FreeCells(freelist[..], nextfree, numfree, memsize, Reachable())
    }

    ghost predicate Valid()
      reads this, memory, freelist, chains0, chains1
    {
      Sound() && FreeOk()
    }

    /** A pool for `levels` lists; no chain has been set up yet. */
    constructor (levels: nat)
      requires levels > 0
      ensures Valid() && listsize == levels && nextfree == 0 && numfree == memsize
      ensures lists == Lists(seq(levels, _ => Nil), seq(levels, _ => Nil))
      ensures forall i | 0 <= i < memsize :: freelist[i] == i
      ensures fresh(memory) && fresh(freelist) && fresh(chains0) && fresh(chains1)
    {
      hide PoolSize, Reach, AllHold;
      listsize := levels;
      memsize := PoolSize(levels);
      memory := new BpmNode[PoolSize(levels)](_ => BpmNode(0, 0, NULL, false));
      freelist := new nat[PoolSize(levels)](i => i);
      chains0 := new int[levels](_ => NULL);
      chains1 := new int[levels](_ => NULL);
      nextfree := 0;
      numfree := PoolSize(levels);
      lists := Lists(seq(levels, _ => Nil), seq(levels, _ => Nil));
      new;
      EmptyReach(memory[..], chains0[..], chains1[..], lists, listsize);
    }

    /** Takes a free cell, collecting garbage first if none is left. The cell is on no chain in use. */
    method Create(weight: int, index: nat, tail: int, ghost tch: Chain) returns (result: nat)
      requires Valid() && Holds(memory[..], tail, tch) && Cells(memory[..], tail, tch) <= Reachable()
      modifies this`numfree, this`nextfree, memory, freelist
      ensures Valid() && chains0[..] == old(chains0[..]) && chains1[..] == old(chains1[..])
      ensures result < memsize && result !in old(Reachable()) && Reachable() == old(Reachable())
      ensures Holds(memory[..], result, Node(weight, index, tch))
      ensures Cells(memory[..], result, Node(weight, index, tch)) <= Reachable() + {result as int}
      ensures forall f | nextfree <= f < numfree :: freelist[f] != result
      ensures forall q | 0 <= q < memsize && q != result :: SameAt(old(memory[..]), memory[..], q)
      ensures old(nextfree < numfree) ==>
                && result == old(freelist[nextfree]) && nextfree == old(nextfree) + 1 && numfree == old(numfree)
                && freelist[..] == old(freelist[..])
    {
      hide Holds, Cells, Reach, AllHold, PoolSize;
      ghost var mem0 := memory[..];
      if nextfree >= numfree {
        CollectGarbage();
        SameNodesAt(mem0, memory[..]);
        FrameChain(mem0, memory[..], tail, tch);
      }
      ghost var mem1 := memory[..];
      result := Take(weight, index, tail, tch);
      forall q | 0 <= q < memsize && q != result ensures SameAt(mem0, memory[..], q) {
        assert SameAt(mem1, memory[..], q) && SameAt(mem0, mem1, q);
      }
    }

    method Take(weight: int, index: nat, tail: int, ghost tch: Chain) returns (result: nat)
      requires Valid() && nextfree < numfree
      requires Holds(memory[..], tail, tch) && Cells(memory[..], tail, tch) <= Reachable()
      modifies this`nextfree, memory
      ensures Valid() && Reachable() == old(Reachable()) && nextfree == old(nextfree) + 1
      ensures result == freelist[old(nextfree)] && result < memsize && result !in Reachable()
      ensures Holds(memory[..], result, Node(weight, index, tch))
      ensures Cells(memory[..], result, Node(weight, index, tch)) <= Reachable() + {result as int}
      ensures forall f | nextfree <= f < numfree :: freelist[f] != result
      ensures forall q | 0 <= q < memsize && q != result :: SameAt(old(memory[..]), memory[..], q)
    {
      hide Holds, Cells, Reach, AllHold, PoolSize;
      ghost var mem0, h0, h1 := memory[..], chains0[..], chains1[..];
      result := freelist[nextfree];
      nextfree := nextfree + 1;
      memory[result] := BpmNode(weight, index, tail, memory[result].inUse);
      ghost var mem1 := memory[..];
      WrittenElsewhere(mem0, mem1, result);
      FrameAll(mem0, mem1, h0, h1, lists);
      FrameChain(mem0, mem1, tail, tch);
      HoldsNode(mem1, result, weight, index, tch);
    }

    /** The two lightest leaves become the first two items of every list. */
    method Setup(weight0: int, weight1: int)
      requires Valid() && nextfree == 0 && numfree == memsize
      requires lists == Lists(seq(listsize, _ => Nil), seq(listsize, _ => Nil))
      requires forall i | 0 <= i < memsize :: freelist[i] == i
      modifies this`numfree, this`nextfree, this`lists, memory, freelist, chains0, chains1
      ensures Valid()
      ensures lists == Lists(seq(listsize, _ => Node(weight0, 1, Nil)), seq(listsize, _ => Node(weight1, 2, Nil)))
    {
      hide Holds, Cells, Reach, PoolSize, AllHold;
      ghost var a, b := Node(weight0, 1, Nil), Node(weight1, 2, Nil);
      CreateTwo(weight0, weight1);
      ghost var mem := memory[..];
      for i := 0 to listsize
        modifies chains0, chains1
        invariant forall k | 0 <= k < i :: chains0[k] == 0 && chains1[k] == 1
      {
        chains0[i] := 0;
        chains1[i] := 1;
      }
      lists := Lists(seq(listsize, _ => a), seq(listsize, _ => b));
      assert memory[..] == mem;
      OneCell(mem, 0, a);
      OneCell(mem, 1, b);
      SharedReach(mem, chains0[..], chains1[..], lists, listsize, a, b);
    }

    method CreateTwo(weight0: int, weight1: int)
      requires Valid() && nextfree == 0 && numfree == memsize
      requires forall i | 0 <= i < memsize :: freelist[i] == i
      modifies this`numfree, this`nextfree, memory, freelist
      ensures Valid() && nextfree == 2 && numfree == memsize && freelist[..] == old(freelist[..])
      ensures Holds(memory[..], 0, Node(weight0, 1, Nil)) && Holds(memory[..], 1, Node(weight1, 2, Nil))
    {
      hide Holds, Cells, Reach, AllHold, SameAt;
      NoTail(memory[..], Reachable());
      var p0 := Create(weight0, 1, NULL, Nil);
      ghost var mem0 := memory[..];
      NoTail(mem0, Reachable());
      var p1 := Create(weight1, 2, NULL, Nil);
      assert p0 == 0 && p1 == 1;
      OneCell(mem0, 0, Node(weight0, 1, Nil));
      FrameChain(mem0, memory[..], 0, Node(weight0, 1, Nil));
    }

    /** `chains0[c] = chains1[c]` */
    method Shift(c: nat)
      requires Valid() && c < listsize
      modifies this`lists, chains0
      ensures Valid() && lists == Lists(old(lists).c0[c := old(lists).c1[c]], old(lists).c1)
      ensures chains1[..] == old(chains1[..])
    {
      hide Holds, Cells, Reach, PoolSize;
      ghost var mem, h0, h1, ls := memory[..], chains0[..], chains1[..], lists;
      ghost var reached := Reachable();
      chains0[c] := chains1[c];
      lists := Lists(lists.c0[c := lists.c1[c]], lists.c1);
      assert AllHold(mem, chains0[..], h1, lists);
      ReachMember(mem, h0, h1, ls, listsize, c);
      ReachAfter(mem, h0, h1, ls, chains0[..], h1, lists, c, listsize, reached);
    }

    /** Makes a new cell the second chain of list `c`. */
    method Push(c: nat, weight: int, index: nat, tail: int, ghost tch: Chain)
      requires Valid() && c < listsize && Depth(tch) <= c
      requires Holds(memory[..], tail, tch) && Cells(memory[..], tail, tch) <= Reachable()
      modifies this`numfree, this`nextfree, this`lists, memory, freelist, chains1
      ensures Valid() && lists == Lists(old(lists).c0, old(lists).c1[c := Node(weight, index, tch)])
    {
      hide Holds, Cells, Reach, PoolSize;
      ghost var h0, h1, ls := chains0[..], chains1[..], lists;
      ghost var reached := Reachable();
      var result := Create(weight, index, tail, tch);
      ghost var mem := memory[..];
      chains1[c] := result;
      lists := Lists(lists.c0, lists.c1[c := Node(weight, index, tch)]);
      assert AllHold(mem, h0, h1, ls);
      assert AllHold(mem, h0, chains1[..], lists);
      ReachMember(mem, h0, h1, ls, listsize, c);
      ReachAfter(mem, h0, h1, ls, h0, chains1[..], lists, c, listsize, reached + {result as int});
    }

    method CollectGarbage()
      requires Valid()
      modifies this`numfree, this`nextfree, memory, freelist
      ensures Valid() && nextfree == 0 < numfree
      ensures chains0[..] == old(chains0[..]) && chains1[..] == old(chains1[..])
      ensures SameNodes(old(memory[..]), memory[..]) && Reachable() == old(Reachable())
    {
      hide Holds, Cells, Reach, AllHold, PoolSize, Below;
      ghost var mem0, h0, h1 := memory[..], chains0[..], chains1[..];
      ghost var reached := Reachable();
      Mark();
      SameNodesAt(mem0, memory[..]);
      FrameAll(mem0, memory[..], h0, h1, lists);
      Collect(reached);
      nextfree := 0;
      BelowStep(reached, memsize);
    }

    /** Gathers the unmarked cells. */
    method Collect(ghost reached: set<int>)
      requires memory.Length == memsize == freelist.Length
      requires forall q | 0 <= q < memsize :: memory[q].inUse == (q in reached)
      modifies this`numfree, freelist
      ensures FreeCells(freelist[..], 0, numfree, memsize, reached)
      ensures numfree + |Below(reached, memsize)| == memsize
    {
      hide Below;
      numfree := 0;
      BelowZero(reached);
      for i := 0 to memsize
        invariant numfree + |Below(reached, i)| == i
        invariant forall f | 0 <= f < numfree :: freelist[f] < i && freelist[f] !in reached
        invariant forall f, g | 0 <= f < g < numfree :: freelist[f] < freelist[g]
      {
        BelowStep(reached, i);
        if !memory[i].inUse {
          freelist[numfree] := i;
          numfree := numfree + 1;
        }
      }
    }

    /** Marks exactly the cells in use. */
    method Mark()
      requires Valid()
      modifies memory
      ensures SameNodes(old(memory[..]), memory[..])
      ensures forall q | 0 <= q < memsize :: memory[q].inUse == (q in old(Reachable()))
    {
      hide Holds, Cells, Reach, AllHold;
      ghost var mem0, h0, h1 := memory[..], chains0[..], chains1[..];
      for i := 0 to memsize
        invariant SameNodes(mem0, memory[..])
        invariant forall q | 0 <= q < i :: !memory[q].inUse
      {
        memory[i] := memory[i].(inUse := false);
      }
      ghost var marked: set<int> := {};
      ReachZero(mem0, h0, h1, lists);
      for i := 0 to listsize
        invariant chains0[..] == h0 && chains1[..] == h1
        invariant SameNodes(mem0, memory[..])
        invariant marked == Reach(mem0, h0, h1, lists, i)
        invariant forall q | 0 <= q < memsize :: memory[q].inUse == (q in marked)
      {
        ListHolds(mem0, h0, h1, lists, i);
        marked := MarkChain(chains0[i], mem0, lists.c0[i], marked);
        marked := MarkChain(chains1[i], mem0, lists.c1[i], marked);
        ReachStep(mem0, h0, h1, lists, i);
      }
    }

    method MarkChain(p: int, ghost mem0: seq<BpmNode>, ghost ch: Chain, ghost before: set<int>)
      returns (ghost marked: set<int>)
      requires memory.Length == memsize && Holds(mem0, p, ch) && SameNodes(mem0, memory[..])
      requires forall q | 0 <= q < memsize :: memory[q].inUse == (q in before)
      modifies memory
      ensures marked == before + Cells(mem0, p, ch)
      ensures SameNodes(mem0, memory[..])
      ensures forall q | 0 <= q < memsize :: memory[q].inUse == (q in marked)
    {
      hide Holds, Cells;
      var node := p;
      ghost var rest := ch;
      marked := before;
      while node != NULL
        invariant Holds(mem0, node, rest) && SameNodes(mem0, memory[..])
        invariant marked + Cells(mem0, node, rest) == before + Cells(mem0, p, ch)
        invariant forall q | 0 <= q < memsize :: memory[q].inUse == (q in marked)
        decreases rest
      {
        NodeCells(mem0, node, rest);
        memory[node] := memory[node].(inUse := true);
        marked := marked + {node};
        rest := rest.tail;
        node := memory[node].tail;
      }
      NilCells(mem0, node, rest);
    }
  }

  // ---------------------------------------------------------------- unfoldings

  lemma EmptyReach(mem: seq<BpmNode>, h0: seq<int>, h1: seq<int>, ls: Lists, k: nat)
    requires |h0| == |h1| == |ls.c0| == |ls.c1| && k <= |h0|
    requires forall i | 0 <= i < |h0| :: h0[i] == h1[i] == NULL && ls.c0[i] == ls.c1[i] == Nil
    ensures AllHold(mem, h0, h1, ls) && Reach(mem, h0, h1, ls, k) == {}
  {
    if k > 0 { EmptyReach(mem, h0, h1, ls, k - 1); }
  }

  /** Every list starts from the same two one-cell chains. */
  lemma SharedReach(mem: seq<BpmNode>, h0: seq<int>, h1: seq<int>, ls: Lists, k: nat, a: Chain, b: Chain)
    requires |h0| == |h1| == |ls.c0| == |ls.c1| && k <= |h0|
    requires Holds(mem, 0, a) && Holds(mem, 1, b) && Depth(a) == 1 && Depth(b) == 1
    requires forall i | 0 <= i < |h0| :: h0[i] == 0 && h1[i] == 1 && ls.c0[i] == a && ls.c1[i] == b
    ensures AllHold(mem, h0, h1, ls)
    ensures Reach(mem, h0, h1, ls, k) <= Cells(mem, 0, a) + Cells(mem, 1, b)
  {
    if k > 0 { SharedReach(mem, h0, h1, ls, k - 1, a, b); }
  }

  lemma NoTail(mem: seq<BpmNode>, r: set<int>)
    ensures Holds(mem, NULL, Nil) && Cells(mem, NULL, Nil) <= r && Depth(Nil) == 0
  {}

  lemma OneCell(mem: seq<BpmNode>, p: int, ch: Chain)
    requires Holds(mem, p, ch) && ch.Node? && ch.tail == Nil
    ensures Cells(mem, p, ch) == {p} && Depth(ch) == 1
  {}

  lemma HoldsNode(mem: seq<BpmNode>, p: nat, weight: int, index: nat, tch: Chain)
    requires p < |mem| && mem[p].weight == weight && mem[p].index == index && Holds(mem, mem[p].tail, tch)
    ensures Holds(mem, p, Node(weight, index, tch))
    ensures Cells(mem, p, Node(weight, index, tch)) == {p as int} + Cells(mem, mem[p].tail, tch)
  {}

  lemma NodeCells(mem: seq<BpmNode>, p: int, ch: Chain)
    requires Holds(mem, p, ch) && p != NULL
    ensures ch.Node? && 0 <= p < |mem| && Holds(mem, mem[p].tail, ch.tail)
    ensures Cells(mem, p, ch) == {p} + Cells(mem, mem[p].tail, ch.tail)
  {}

  lemma NilCells(mem: seq<BpmNode>, p: int, ch: Chain)
    requires Holds(mem, p, ch) && p == NULL
    ensures ch == Nil && Cells(mem, p, ch) == {}
  {}

  lemma SameNodesAt(mem: seq<BpmNode>, mem': seq<BpmNode>)
    requires SameNodes(mem, mem')
    ensures forall q | 0 <= q < |mem| :: SameAt(mem, mem', q)
  {}

  lemma WrittenElsewhere(mem: seq<BpmNode>, mem': seq<BpmNode>, p: nat)
    requires p < |mem| == |mem'| && mem' == mem[p := mem'[p]]
    ensures forall q | 0 <= q < |mem| && q != p :: SameAt(mem, mem', q)
  {}

  lemma ReachZero(mem: seq<BpmNode>, h0: seq<int>, h1: seq<int>, ls: Lists)
    requires AllHold(mem, h0, h1, ls)
    ensures Reach(mem, h0, h1, ls, 0) == {}
  {}

  lemma ListHolds(mem: seq<BpmNode>, h0: seq<int>, h1: seq<int>, ls: Lists, i: nat)
    requires AllHold(mem, h0, h1, ls) && i < |h0|
    ensures i < |ls.c0| && i < |ls.c1| && i < |h1|
    ensures Holds(mem, h0[i], ls.c0[i]) && Holds(mem, h1[i], ls.c1[i])
    ensures Depth(ls.c0[i]) <= i + 1 && Depth(ls.c1[i]) <= i + 1
  {}

  lemma ReachStep(mem: seq<BpmNode>, h0: seq<int>, h1: seq<int>, ls: Lists, i: nat)
    requires AllHold(mem, h0, h1, ls) && i < |h0|
    ensures Reach(mem, h0, h1, ls, i + 1)
         == Reach(mem, h0, h1, ls, i) + Cells(mem, h0[i], ls.c0[i]) + Cells(mem, h1[i], ls.c1[i])
  {}
}
