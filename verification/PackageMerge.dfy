/** Boundary Package Merge on abstract chains: what one step computes, and why the code lengths
    read off the final chain satisfy Kraft's equality.

    List `c` (0 is the lowest) merges, by weight, the leaves with the packages made of
    consecutive pairs of list `c - 1`. A chain stands for a prefix of its list: `index` leaves,
    and as many packages as half the items of its `tail`. Each list keeps the chains of its two
    most recent items, `c0` and `c1`. A list that has handed out everything it can build goes on
    producing chains that mean nothing; the argument below is that none of them is ever used. */
module PackageMerge {
  import opened Bits

  datatype Chain = Nil | Node(weight: int, index: nat, tail: Chain)

  datatype Lists = Lists(c0: seq<Chain>, c1: seq<Chain>)

  ghost predicate Shaped(s: Lists, levels: nat) {
    |s.c0| == |s.c1| == levels && forall i | 0 <= i < levels :: s.c0[i].Node? && s.c1[i].Node?
  }

  /** Sorted positive leaf weights, at least two of them. */
  ghost predicate LeafWeights(w: seq<int>) {
    && |w| >= 2
    && (forall i | 0 <= i < |w| :: w[i] > 0)
    && (forall i, j | 0 <= i <= j < |w| :: w[i] <= w[j])
  }

  /** One boundary step on list `c`; the last one of all leaves out the lookahead. */
  ghost function Step(s: Lists, w: seq<int>, c: nat, last: bool): (s': Lists)
    requires Shaped(s, |s.c0|) && c < |s.c0|
    ensures Shaped(s', |s.c0|)
    ensures forall i | c < i < |s.c0| :: s'.c0[i] == s.c0[i] && s'.c1[i] == s.c1[i]
    decreases c
  {
    var lastindex := s.c1[c].index;
    if c == 0 then
      if lastindex >= |w| then s
      else Lists(s.c0[c := s.c1[c]], s.c1[c := Node(w[lastindex], lastindex + 1, Nil)])
    else
      var sum := s.c0[c - 1].weight + s.c1[c - 1].weight;
      if lastindex < |w| && sum > w[lastindex] then
        Lists(s.c0[c := s.c1[c]], s.c1[c := Node(w[lastindex], lastindex + 1, s.c1[c].tail)])
      else
        var packaged := Package(s, c);
        if last then packaged else Step(Step(packaged, w, c - 1, last), w, c - 1, last)
  }

  /** List `c` after taking the lookahead pair of list `c - 1` as its next item. */
  ghost function Package(s: Lists, c: nat): (s': Lists)
    requires Shaped(s, |s.c0|) && 0 < c < |s.c0|
    ensures Shaped(s', |s.c0|)
  {
    Lists(s.c0[c := s.c1[c]],
          s.c1[c := Node(s.c0[c - 1].weight + s.c1[c - 1].weight, s.c1[c].index, s.c1[c - 1])])
  }

  // ---------------------------------------------------------------- what a chain stands for

  /** The number of items of its list that a chain covers. */
  ghost function Rank(ch: Chain): nat {
    match ch
    case Nil => 0
    case Node(_, index, tail) => index + Rank(tail) / 2
  }

  ghost function Packages(ch: Chain): nat {
    match ch
    case Nil => 0
    case Node(_, _, tail) => Rank(tail) / 2
  }

  /** A meaningful chain of list `c`: whole packages only, and never more leaves below than above. */
  ghost predicate Proper(ch: Chain, c: nat, n: nat)
    decreases ch
  {
    match ch
    case Nil => false
    case Node(_, index, tail) =>
      && index <= n
      && (tail.Node? ==> c > 0 && Proper(tail, c - 1, n) && tail.index <= index && Rank(tail) % 2 == 0)
  }

  /** How many items list `c` can build from `n` leaves. */
  ghost function Available(n: nat, c: nat): nat {
    if c == 0 then n else n + Available(n, c - 1) / 2
  }

  // ---------------------------------------------------------------- the invariant

  /** Weights only grow along a list, and the next candidates are no lighter than the last item. */
  ghost predicate Ordered(s: Lists, w: seq<int>, c: nat)
    requires LeafWeights(w) && Shaped(s, |s.c0|) && c < |s.c0|
  {
    && 0 < s.c0[c].weight <= s.c1[c].weight
    && 1 <= s.c1[c].index <= |w|
    && w[s.c1[c].index - 1] <= s.c1[c].weight
    && (s.c1[c].index < |w| ==> s.c1[c].weight <= w[s.c1[c].index])
    && (c > 0 ==> s.c1[c].weight <= s.c0[c - 1].weight + s.c1[c - 1].weight)
  }

  /** List `c` still holds the chains of two consecutive items it can really build. */
  ghost predicate Live(s: Lists, w: seq<int>, c: nat)
    requires Shaped(s, |s.c0|) && c < |s.c0|
  {
    && Proper(s.c0[c], c, |w|) && Proper(s.c1[c], c, |w|)
    && Rank(s.c0[c]) + 1 == Rank(s.c1[c]) <= Available(|w|, c)
    && (c > 0 ==> 2 * Packages(s.c1[c]) <= Available(|w|, c - 1))
  }

  /** The lookahead pair of list `c - 1` is the next package of list `c`, or list `c - 1` is used up. */
  ghost predicate Linked(s: Lists, w: seq<int>, c: nat, alive: seq<bool>)
    requires Shaped(s, |s.c0|) && 0 < c < |s.c0| == |alive|
  {
    var next := 2 * Packages(s.c1[c]) + 2;
    || (alive[c - 1] && Rank(s.c1[c - 1]) == next)
    || (s.c1[c - 1].index == |w| && next > Available(|w|, c - 1))
  }

  /** Up to list `c`: `alive` lists are live and linked, the others have used every leaf. */
  ghost predicate Inv(s: Lists, w: seq<int>, c: nat, alive: seq<bool>)
    requires LeafWeights(w) && Shaped(s, |s.c0|) && c < |s.c0| == |alive|
  {
    forall i | 0 <= i <= c :: ListInv(s, w, i, alive)
  }

  ghost predicate ListInv(s: Lists, w: seq<int>, i: nat, alive: seq<bool>)
    requires LeafWeights(w) && Shaped(s, |s.c0|) && i < |s.c0| == |alive|
  {
    && Ordered(s, w, i)
    && (if alive[i] then Live(s, w, i) && (i > 0 ==> Linked(s, w, i, alive)) else s.c1[i].index == |w|)
  }

  /** The effect of a step on list `c` itself. */
  ghost predicate Advanced(s: Lists, s': Lists, w: seq<int>, c: nat, alive: seq<bool>, alive': seq<bool>)
    requires Shaped(s, |s.c0|) && Shaped(s', |s.c0|) && c < |s.c0| == |alive| == |alive'|
  {
    && s.c0[c].weight <= s'.c0[c].weight && s.c1[c].weight <= s'.c1[c].weight
    && s.c1[c].index <= s'.c1[c].index
    && (alive[c] && Rank(s.c1[c]) < Available(|w|, c) ==> alive'[c] && Rank(s'.c1[c]) == Rank(s.c1[c]) + 1)
    && (alive[c] && Rank(s.c1[c]) == Available(|w|, c) ==> s'.c1[c].index == |w|)
  }

  lemma RankParts(ch: Chain)
    requires ch.Node?
    ensures Rank(ch) == ch.index + Packages(ch)
  {}

  /** A live list at its limit has used every leaf. */
  lemma AtLimit(s: Lists, w: seq<int>, c: nat)
    requires LeafWeights(w) && Shaped(s, |s.c0|) && c < |s.c0|
    requires Live(s, w, c) && Rank(s.c1[c]) == Available(|w|, c)
    ensures s.c1[c].index == |w|
  {
    RankParts(s.c1[c]);
    if c == 0 { assert s.c1[c].tail.Nil?; }
  }

  /** A package made of a used-up pair is never chosen for a place the list can fill. */
  lemma PackageIsReal(s: Lists, w: seq<int>, c: nat, alive: seq<bool>)
    requires LeafWeights(w) && Shaped(s, |s.c0|) && 0 < c < |s.c0| == |alive|
    requires Ordered(s, w, c - 1) && Live(s, w, c) && Linked(s, w, c, alive)
    requires Rank(s.c1[c]) < Available(|w|, c)
    requires s.c1[c].index >= |w| || s.c0[c - 1].weight + s.c1[c - 1].weight <= w[s.c1[c].index]
    ensures alive[c - 1] && Rank(s.c1[c - 1]) == 2 * Packages(s.c1[c]) + 2
    ensures s.c1[c - 1].index <= s.c1[c].index
  {
    RankParts(s.c1[c]);
  }

  lemma PackagedLive(s: Lists, w: seq<int>, c: nat)
    requires LeafWeights(w) && Shaped(s, |s.c0|) && 0 < c < |s.c0|
    requires Live(s, w, c) && Live(s, w, c - 1) && Rank(s.c1[c - 1]) == 2 * Packages(s.c1[c]) + 2
    requires s.c1[c - 1].index <= s.c1[c].index && Rank(s.c1[c]) < Available(|w|, c)
    ensures Live(Package(s, c), w, c) && Rank(Package(s, c).c1[c]) == Rank(s.c1[c]) + 1
    ensures Packages(Package(s, c).c1[c]) == Packages(s.c1[c]) + 1
  {
    RankParts(s.c1[c]);
    RankParts(Package(s, c).c1[c]);
  }

  lemma LeafLive(s: Lists, w: seq<int>, c: nat, ch: Chain)
    requires LeafWeights(w) && Shaped(s, |s.c0|) && c < |s.c0|
    requires Live(s, w, c) && Rank(s.c1[c]) < Available(|w|, c) && s.c1[c].index < |w|
    requires ch.Node? && ch.index == s.c1[c].index + 1 && ch.tail == s.c1[c].tail
    ensures var s' := Lists(s.c0[c := s.c1[c]], s.c1[c := ch]);
            Shaped(s', |s.c0|) && Live(s', w, c) && Rank(ch) == Rank(s.c1[c]) + 1 && Packages(ch) == Packages(s.c1[c])
  {}

  /** The invariant of a list looks at that list and the one below only. */
  lemma SameLists(s: Lists, s': Lists, w: seq<int>, i: nat, alive: seq<bool>, alive': seq<bool>)
    requires LeafWeights(w) && Shaped(s, |s.c0|) && Shaped(s', |s.c0|) && i < |s.c0| == |alive| == |alive'|
    requires s'.c0[i] == s.c0[i] && s'.c1[i] == s.c1[i] && alive'[i] == alive[i]
    requires i > 0 ==> s'.c0[i - 1] == s.c0[i - 1] && s'.c1[i - 1] == s.c1[i - 1] && alive'[i - 1] == alive[i - 1]
    ensures ListInv(s', w, i, alive') == ListInv(s, w, i, alive)
  {
    hide Proper, Rank, Packages, Available;
  }

  lemma SameBelow(s: Lists, s': Lists, w: seq<int>, c: nat, alive: seq<bool>, alive': seq<bool>)
    requires LeafWeights(w) && Shaped(s, |s.c0|) && Shaped(s', |s.c0|) && c < |s.c0| == |alive| == |alive'|
    requires forall i | 0 <= i <= c :: s'.c0[i] == s.c0[i] && s'.c1[i] == s.c1[i] && alive'[i] == alive[i]
    ensures Inv(s', w, c, alive') == Inv(s, w, c, alive)
  {
    hide ListInv;
    forall i | 0 <= i <= c ensures ListInv(s', w, i, alive') == ListInv(s, w, i, alive) {
      SameLists(s, s', w, i, alive, alive');
    }
  }

  // ---------------------------------------------------------------- one step keeps it

  lemma {:induction false} StepKeepsInv(s: Lists, w: seq<int>, c: nat, alive: seq<bool>) returns (alive': seq<bool>)
    requires LeafWeights(w) && Shaped(s, |s.c0|) && c < |s.c0| == |alive| && Inv(s, w, c, alive)
    ensures |alive'| == |alive| && forall i | c < i < |alive| :: alive'[i] == alive[i]
    ensures Inv(Step(s, w, c, false), w, c, alive') && Advanced(s, Step(s, w, c, false), w, c, alive, alive')
    decreases c, 1
  {
    hide Inv, Advanced, ListInv;
    var li := s.c1[c].index;
    if c == 0 {
      alive' := StepBottom(s, w, alive);
    } else if li < |w| && s.c0[c - 1].weight + s.c1[c - 1].weight > w[li] {
      alive' := StepLeaf(s, w, c, alive);
    } else {
      alive' := StepPackage(s, w, c, alive);
    }
  }

  lemma StepBottom(s: Lists, w: seq<int>, alive: seq<bool>) returns (alive': seq<bool>)
    requires LeafWeights(w) && Shaped(s, |s.c0|) && 0 < |s.c0| == |alive| && Inv(s, w, 0, alive)
    ensures |alive'| == |alive| && forall i | 0 < i < |alive| :: alive'[i] == alive[i]
    ensures Inv(Step(s, w, 0, false), w, 0, alive') && Advanced(s, Step(s, w, 0, false), w, 0, alive, alive')
  {
    hide Proper, Available;
    var s', li := Step(s, w, 0, false), s.c1[0].index;
    alive' := alive;
    assert ListInv(s, w, 0, alive);
    if alive[0] {
      BottomRank(s, w);
      if li < |w| {
        LeafLive(s, w, 0, Node(w[li], li + 1, Nil));
      }
    }
    assert ListInv(s', w, 0, alive');
  }

  lemma BottomRank(s: Lists, w: seq<int>)
    requires LeafWeights(w) && Shaped(s, |s.c0|) && 0 < |s.c0| && Live(s, w, 0)
    ensures s.c1[0].tail == Nil && Rank(s.c1[0]) == s.c1[0].index && Available(|w|, 0) == |w|
  {}

  lemma StepLeaf(s: Lists, w: seq<int>, c: nat, alive: seq<bool>) returns (alive': seq<bool>)
    requires LeafWeights(w) && Shaped(s, |s.c0|) && 0 < c < |s.c0| == |alive| && Inv(s, w, c, alive)
    requires s.c1[c].index < |w| && s.c0[c - 1].weight + s.c1[c - 1].weight > w[s.c1[c].index]
    ensures |alive'| == |alive| && forall i | c < i < |alive| :: alive'[i] == alive[i]
    ensures Inv(Step(s, w, c, false), w, c, alive') && Advanced(s, Step(s, w, c, false), w, c, alive, alive')
  {
    hide Proper, Available, Rank, Packages;
    var s', li := Step(s, w, c, false), s.c1[c].index;
    alive' := alive;
    assert ListInv(s, w, c, alive) && ListInv(s, w, c - 1, alive);
    if Rank(s.c1[c]) == Available(|w|, c) { AtLimit(s, w, c); }
    LeafLive(s, w, c, s'.c1[c]);
    forall i | 0 <= i <= c ensures ListInv(s', w, i, alive') {
      assert ListInv(s, w, i, alive);
      if i < c { SameLists(s, s', w, i, alive, alive'); }
    }
  }

  lemma {:induction false} StepPackage(s: Lists, w: seq<int>, c: nat, alive: seq<bool>) returns (alive': seq<bool>)
    requires LeafWeights(w) && Shaped(s, |s.c0|) && 0 < c < |s.c0| == |alive| && Inv(s, w, c, alive)
    requires s.c1[c].index >= |w| || s.c0[c - 1].weight + s.c1[c - 1].weight <= w[s.c1[c].index]
    ensures |alive'| == |alive| && forall i | c < i < |alive| :: alive'[i] == alive[i]
    ensures Inv(Step(s, w, c, false), w, c, alive') && Advanced(s, Step(s, w, c, false), w, c, alive, alive')
    decreases c, 0
  {
    hide Proper, Available, Rank, Packages, Live, Inv, Advanced, ListInv, Linked, Step, Package, LeafWeights;
    PackageFirst(s, w, c);
    var p := Package(s, c);
    InvBelow(s, w, c, alive);
    SameBelow(s, p, w, c - 1, alive, alive);
    var q := Step(p, w, c - 1, false);
    var aliveQ := StepKeepsInv(p, w, c - 1, alive);
    var s' := Step(q, w, c - 1, false);
    var aliveS := StepKeepsInv(q, w, c - 1, aliveQ);
    alive' := aliveS[c := alive[c] && Rank(s.c1[c]) < Available(|w|, c)];
    SameBelow(s', s', w, c - 1, aliveS, alive');
    InvTop(q, w, c - 1, aliveQ);
    InvTop(s', w, c - 1, alive');
    AfterPackage(s, p, q, s', w, c, alive, aliveQ, aliveS, alive');
    InvExtend(s', w, c, alive');
  }

  lemma PackageFirst(s: Lists, w: seq<int>, c: nat)
    requires Shaped(s, |s.c0|) && 0 < c < |s.c0|
    requires s.c1[c].index >= |w| || s.c0[c - 1].weight + s.c1[c - 1].weight <= w[s.c1[c].index]
    ensures Step(s, w, c, false) == Step(Step(Package(s, c), w, c - 1, false), w, c - 1, false)
    ensures forall i | 0 <= i < c :: Package(s, c).c0[i] == s.c0[i] && Package(s, c).c1[i] == s.c1[i]
  {}

  lemma InvBelow(s: Lists, w: seq<int>, c: nat, alive: seq<bool>)
    requires LeafWeights(w) && Shaped(s, |s.c0|) && 0 < c < |s.c0| == |alive| && Inv(s, w, c, alive)
    ensures Inv(s, w, c - 1, alive) && ListInv(s, w, c, alive) && ListInv(s, w, c - 1, alive)
  {
    hide ListInv;
  }

  lemma InvTop(s: Lists, w: seq<int>, c: nat, alive: seq<bool>)
    requires LeafWeights(w) && Shaped(s, |s.c0|) && c < |s.c0| == |alive| && Inv(s, w, c, alive)
    ensures ListInv(s, w, c, alive)
  {
    hide ListInv;
  }

  lemma InvExtend(s: Lists, w: seq<int>, c: nat, alive: seq<bool>)
    requires LeafWeights(w) && Shaped(s, |s.c0|) && 0 < c < |s.c0| == |alive|
    requires Inv(s, w, c - 1, alive) && ListInv(s, w, c, alive)
    ensures Inv(s, w, c, alive)
  {
    hide ListInv;
  }

  /** List `c` after it took the package and list `c - 1` was advanced twice. */
  lemma AfterPackage(s: Lists, p: Lists, q: Lists, s': Lists, w: seq<int>, c: nat, alive: seq<bool>, aliveQ: seq<bool>,
                     aliveS: seq<bool>, alive': seq<bool>)
    requires LeafWeights(w) && Shaped(s, |s.c0|) && 0 < c < |s.c0| == |alive| == |aliveQ| == |aliveS| == |alive'|
    requires Shaped(q, |s.c0|) && Shaped(s', |s.c0|) && p == Package(s, c)
    requires ListInv(s, w, c, alive) && ListInv(s, w, c - 1, alive) && ListInv(s', w, c - 1, alive')
    requires s.c1[c].index >= |w| || s.c0[c - 1].weight + s.c1[c - 1].weight <= w[s.c1[c].index]
    requires Advanced(p, q, w, c - 1, alive, aliveQ) && Advanced(q, s', w, c - 1, aliveQ, aliveS)
    requires aliveS[c - 1] == alive'[c - 1]
    requires ListInv(q, w, c - 1, aliveQ)
    requires s'.c0[c] == p.c0[c] && s'.c1[c] == p.c1[c]
    requires alive'[c] == (alive[c] && Rank(s.c1[c]) < Available(|w|, c))
    ensures ListInv(s', w, c, alive') && Advanced(s, s', w, c, alive, alive')
  {
    hide Proper, Available, Rank, Packages, Live, Linked;
    assert Ordered(s', w, c);
    if alive[c] && Rank(s.c1[c]) < Available(|w|, c) {
      PackageIsReal(s, w, c, alive);
      PackagedLive(s, w, c);
      LiveAbove(p, s', w, c);
      NextPair(p, q, s', w, c, alive, aliveQ, alive');
    } else if alive[c] {
      LiveLimit(s, w, c);
      AtLimit(s, w, c);
    }
  }

  lemma LiveLimit(s: Lists, w: seq<int>, c: nat)
    requires Shaped(s, |s.c0|) && c < |s.c0| && Live(s, w, c)
    ensures Rank(s.c1[c]) <= Available(|w|, c)
  {}

  /** `Live` of list `c` only looks at list `c`. */
  lemma LiveAbove(p: Lists, s': Lists, w: seq<int>, c: nat)
    requires Shaped(p, |p.c0|) && Shaped(s', |p.c0|) && c < |p.c0|
    requires s'.c0[c] == p.c0[c] && s'.c1[c] == p.c1[c]
    ensures Live(s', w, c) == Live(p, w, c)
  {}

  /** Advancing list `c - 1` twice re-establishes the lookahead. */
  lemma NextPair(p: Lists, q: Lists, s': Lists, w: seq<int>, c: nat, alive: seq<bool>, aliveQ: seq<bool>,
                 alive': seq<bool>)
    requires LeafWeights(w) && Shaped(p, |p.c0|) && Shaped(q, |p.c0|) && Shaped(s', |p.c0|)
    requires 0 < c < |p.c0| == |alive| == |aliveQ| == |alive'|
    requires alive[c - 1] && Rank(p.c1[c - 1]) == 2 * Packages(p.c1[c]) <= Available(|w|, c - 1)
    requires Advanced(p, q, w, c - 1, alive, aliveQ) && Advanced(q, s', w, c - 1, aliveQ, alive')
    requires q.c1[c - 1].index <= |w| && s'.c1[c - 1].index <= |w|
    requires s'.c1[c] == p.c1[c]
    ensures Linked(s', w, c, alive')
  {
    hide Proper, Available, Rank, Packages;
  }

  // ---------------------------------------------------------------- whole runs

  ghost function Start(w: seq<int>, levels: nat): (s: Lists)
    requires LeafWeights(w)
    ensures Shaped(s, levels)
  {
    Lists(seq(levels, _ => Node(w[0], 1, Nil)), seq(levels, _ => Node(w[1], 2, Nil)))
  }

  /** The lists when the top one holds `i` items. */
  ghost function Run(w: seq<int>, levels: nat, i: nat): (s: Lists)
    requires LeafWeights(w) && levels > 0 && 2 <= i
    ensures Shaped(s, levels)
  {
    if i == 2 then Start(w, levels) else Step(Run(w, levels, i - 1), w, levels - 1, i >= 2 * |w| - 2)
  }

  lemma {:induction false} AvailableMono(n: nat, c: nat)
    requires n >= 2
    ensures Available(n, c) >= n
  {
    if c > 0 { AvailableMono(n, c - 1); }
  }

  lemma StartInv(w: seq<int>, levels: nat)
    requires LeafWeights(w) && levels > 0
    ensures Inv(Start(w, levels), w, levels - 1, seq(levels, _ => true))
  {
    var s, alive := Start(w, levels), seq(levels, _ => true);
    forall i | 0 <= i < levels ensures ListInv(s, w, i, alive) {
      AvailableMono(|w|, i);
      if i > 0 { AvailableMono(|w|, i - 1); }
    }
  }

  /** With enough levels the top list can build the 2n-2 items that are asked for. */
  lemma {:induction false} EnoughItems(n: nat, c: nat, levels: nat)
    requires n >= 2 && c < levels && n <= Pow2(levels)
    ensures 2 * n - Available(n, c) <= Pow2(levels - c)
  {
    if c > 0 {
      EnoughItems(n, c - 1, levels);
      assert Pow2(levels - c + 1) == 2 * Pow2(levels - c);
    }
  }

  lemma LastStepSameTop(s: Lists, w: seq<int>, c: nat)
    requires LeafWeights(w) && Shaped(s, |s.c0|) && c < |s.c0|
    ensures Step(s, w, c, true).c1[c] == Step(s, w, c, false).c1[c]
  {}

  /** Before the last call the invariant holds and the top list has exactly `i` real items. */
  lemma {:induction false} RunInv(w: seq<int>, levels: nat, i: nat) returns (alive: seq<bool>)
    requires LeafWeights(w) && levels > 0 && |w| <= Pow2(levels) && 2 <= i < 2 * |w| - 2
    ensures |alive| == levels && alive[levels - 1]
    ensures Inv(Run(w, levels, i), w, levels - 1, alive)
    ensures Rank(Run(w, levels, i).c1[levels - 1]) == i
  {
    hide Inv;
    var c := levels - 1;
    if i == 2 {
      alive := seq(levels, _ => true);
      StartInv(w, levels);
    } else {
      var s := Run(w, levels, i - 1);
      var before := RunInv(w, levels, i - 1);
      EnoughItems(|w|, c, levels);
      assert Pow2(1) == 2 by { Pow2Values(); }
      alive := StepKeepsInv(s, w, c, before);
    }
  }

  lemma LastStep(s: Lists, w: seq<int>, c: nat, alive: seq<bool>)
    requires LeafWeights(w) && Shaped(s, |s.c0|) && c < |s.c0| == |alive|
    requires Inv(s, w, c, alive) && alive[c] && Rank(s.c1[c]) < Available(|w|, c)
    ensures var ch := Step(s, w, c, true).c1[c]; Proper(ch, c, |w|) && Rank(ch) == Rank(s.c1[c]) + 1
  {
    hide Inv, Rank, Proper, Step, Available;
    var after := StepKeepsInv(s, w, c, alive);
    LastStepSameTop(s, w, c);
    InvTop(Step(s, w, c, false), w, c, after);
  }

  lemma RunUnfold(w: seq<int>, levels: nat, i: nat)
    requires LeafWeights(w) && levels > 0 && 2 < i
    ensures Run(w, levels, i) == Step(Run(w, levels, i - 1), w, levels - 1, i >= 2 * |w| - 2)
  {}

  /** The chain the code lengths are read from covers exactly 2n-2 real items. */
  lemma FinalChain(w: seq<int>, levels: nat)
    requires LeafWeights(w) && levels > 0 && |w| <= Pow2(levels)
    ensures var ch := Run(w, levels, 2 * |w| - 2).c1[levels - 1];
            Proper(ch, levels - 1, |w|) && Rank(ch) == 2 * |w| - 2
  {
    hide Inv, Rank, Proper, Step, Run, Pow2, Available, LeafWeights;
    var i, c := 2 * |w| - 2, levels - 1;
    if |w| > 2 {
      var s := Run(w, levels, i - 1);
      var before := RunInv(w, levels, i - 1);
      EnoughItems(|w|, c, levels);
      assert Pow2(1) == 2 by { Pow2Values(); }
      LastStep(s, w, c, before);
      RunUnfold(w, levels, i);
    } else {
      AtLeastTwo(w);
      StartChain(w, levels);
    }
  }

  lemma AtLeastTwo(w: seq<int>)
    requires LeafWeights(w)
    ensures |w| >= 2
  {}

  lemma StartChain(w: seq<int>, levels: nat)
    requires LeafWeights(w) && levels > 0
    ensures var ch := Run(w, levels, 2).c1[levels - 1]; Proper(ch, levels - 1, |w|) && Rank(ch) == 2
  {}

  // ---------------------------------------------------------------- reading the lengths off

  /** In how many lists of the chain leaf `i` was taken: its code length. */
  ghost function Length(ch: Chain, i: nat): nat {
    match ch
    case Nil => 0
    case Node(_, index, tail) => (if i < index then 1 else 0) + Length(tail, i)
  }

  lemma {:induction false} LengthBound(ch: Chain, c: nat, n: nat, i: nat)
    requires Proper(ch, c, n)
    ensures Length(ch, i) <= c + 1
    ensures i >= ch.index ==> Length(ch, i) == 0
    decreases ch
  {
    if ch.tail.Node? { LengthBound(ch.tail, c - 1, n, i); }
  }

  /** What the first `k` leaves leave of their whole units, in units of 2^-(c+1). */
  ghost function Deficit(ch: Chain, c: nat, n: nat, k: nat): (d: int)
    requires Proper(ch, c, n)
  {
    if k == 0 then 0
    else
      LengthBound(ch, c, n, k - 1);
      Deficit(ch, c, n, k - 1) + Pow2(c + 1) - Pow2(c + 1 - Length(ch, k - 1))
  }

  /** One list of a chain contributes half a unit for each leaf taken. */
  lemma {:induction false} DeficitUnfold(ch: Chain, c: nat, n: nat, k: nat)
    requires Proper(ch, c, n)
    ensures Deficit(ch, c, n, k) == (if k < ch.index then k else ch.index) * Pow2(c)
                                  + (if ch.tail.Node? then Deficit(ch.tail, c - 1, n, k) else 0)
  {
    if k > 0 {
      DeficitUnfold(ch, c, n, k - 1);
      LengthBound(ch, c, n, k - 1);
      if ch.tail.Node? { LengthBound(ch.tail, c - 1, n, k - 1); }
      assert Pow2(c + 1) == 2 * Pow2(c);
      MulDistribute(k - 1, 1, Pow2(c));
    }
  }

  lemma {:induction false} DeficitIsRank(ch: Chain, c: nat, n: nat)
    requires Proper(ch, c, n)
    ensures Deficit(ch, c, n, n) == Rank(ch) * Pow2(c)
    decreases ch
  {
    hide Deficit;
    DeficitUnfold(ch, c, n, n);
    if ch.tail.Node? {
      DeficitIsRank(ch.tail, c - 1, n);
      var r := Rank(ch.tail) / 2;
      assert Rank(ch.tail) * Pow2(c - 1) == r * Pow2(c) by { HalveDouble(r, Pow2(c - 1)); }
      MulDistribute(ch.index, r, Pow2(c));
    }
  }

  lemma HalveDouble(r: nat, p: nat)
    ensures (2 * r) * p == r * (2 * p)
  {}

  /** The Kraft sum of the first `k` leaves, in units of 2^-15. */
  ghost function LeafKraft(ch: Chain, k: nat): nat
    requires forall i | 0 <= i < k :: Length(ch, i) <= 15
  {
    if k == 0 then 0 else LeafKraft(ch, k - 1) + Pow2(15 - Length(ch, k - 1))
  }

  lemma {:induction false} DeficitIsKraft(ch: Chain, c: nat, n: nat, k: nat)
    requires Proper(ch, c, n) && c < 15
    requires forall i | 0 <= i < k :: Length(ch, i) <= c + 1
    ensures Deficit(ch, c, n, k) * Pow2(14 - c) + LeafKraft(ch, k) == k * 0x8000
  {
    if k > 0 {
      hide Pow2, Length, Proper;
      DeficitIsKraft(ch, c, n, k - 1);
      var l := Length(ch, k - 1);
      Pow2Add(c + 1, 14 - c);
      Pow2Values();
      Pow2Add(c + 1 - l, 14 - c);
      Distribute3(Deficit(ch, c, n, k - 1), Pow2(c + 1), Pow2(c + 1 - l), Pow2(14 - c));
    }
  }

  lemma Distribute3(d: int, a: int, b: int, u: int)
    ensures (d + a - b) * u == d * u + a * u - b * u
  {}

  /** Kraft's equality for the lengths of a full run, and no leaf is left without a code. */
  lemma RunKraft(w: seq<int>, levels: nat)
    requires LeafWeights(w) && 0 < levels <= 15 && |w| <= Pow2(levels)
    ensures var ch := Run(w, levels, 2 * |w| - 2).c1[levels - 1];
            && (forall i | 0 <= i < |w| :: 1 <= Length(ch, i) <= levels)
            && LeafKraft(ch, |w|) == 0x8000
  {
    hide Run, Pow2, Proper, Rank, Length, LeafKraft, LeafWeights;
    AtLeastTwo(w);
    FinalChain(w, levels);
    ChainKraft(Run(w, levels, 2 * |w| - 2).c1[levels - 1], levels, |w|);
  }

  lemma ChainKraft(ch: Chain, levels: nat, n: nat)
    requires 0 < levels <= 15 && n >= 2 && Proper(ch, levels - 1, n) && Rank(ch) == 2 * n - 2
    ensures forall i | 0 <= i < n :: 1 <= Length(ch, i) <= levels
    ensures LeafKraft(ch, n) == 0x8000
  {
    hide Deficit, Pow2, Proper, Rank, Length, LeafKraft;
    var c := levels - 1;
    forall i | 0 <= i < n ensures Length(ch, i) <= levels { LengthBound(ch, c, n, i); }
    DeficitIsRank(ch, c, n);
    DeficitIsKraft(ch, c, n, n);
    HalfUnits(n, c);
    forall i | 0 <= i < n ensures Length(ch, i) >= 1 {
      if Length(ch, i) == 0 {
        ZeroLengthTooMuch(ch, n, i);
        assert false;
      }
    }
  }

  lemma HalfUnits(n: nat, c: nat)
    requires n >= 2 && c < 15
    ensures (2 * n - 2) * Pow2(c) * Pow2(14 - c) == (n - 1) * 0x8000
  {
    hide Pow2;
    Pow2Add(c, 14 - c);
    assert Pow2(14) == 0x4000 by { Pow2Values(); Pow2Add(14, 1); }
    MulAssoc(2 * n - 2, Pow2(c), Pow2(14 - c));
  }

  /** A leaf of length zero would use up the whole code space by itself. */
  lemma {:induction false} ZeroLengthTooMuch(ch: Chain, k: nat, i: nat)
    requires i < k && Length(ch, i) == 0
    requires forall j | 0 <= j < k :: Length(ch, j) <= 15
    ensures LeafKraft(ch, k) >= 0x8000 + k - 1
  {
    if i < k - 1 {
      ZeroLengthTooMuch(ch, k - 1, i);
    } else {
      LeafKraftAtLeast(ch, k - 1);
      assert Pow2(15) == 0x8000 by { Pow2Values(); }
    }
  }

  lemma {:induction false} LeafKraftAtLeast(ch: Chain, k: nat)
    requires forall j | 0 <= j < k :: Length(ch, j) <= 15
    ensures LeafKraft(ch, k) >= k
  {
    if k > 0 { LeafKraftAtLeast(ch, k - 1); }
  }
}
