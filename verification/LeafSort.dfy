/** The leaves of the package-merge algorithm and the bottom-up merge sort that orders them. */
module LeafSort {

  datatype Leaf = Leaf(weight: int, index: nat)

  ghost predicate Sorted(s: seq<Leaf>) {
    forall i, j | 0 <= i <= j < |s| :: s[i].weight <= s[j].weight
  }

  /** Consecutive runs of `width` leaves (the last may be shorter) are sorted. */
  ghost predicate Runs(s: seq<Leaf>, width: nat)
    requires width > 0
    decreases |s|
  {
    if |s| <= width then Sorted(s) else Sorted(s[..width]) && Runs(s[width..], width)
  }

  /** Two runs merged; the left one goes first on equal weights. */
  ghost function MergeOf(x: seq<Leaf>, y: seq<Leaf>): (m: seq<Leaf>)
    ensures |m| == |x| + |y|
    decreases |x| + |y|
  {
    if x == [] then y
    else if y == [] || x[0].weight <= y[0].weight then [x[0]] + MergeOf(x[1..], y)
    else [y[0]] + MergeOf(x, y[1..])
  }

  /** All runs of `s` merged pairwise. */
  ghost function PassOf(s: seq<Leaf>, width: nat): (t: seq<Leaf>)
    requires width > 0
    ensures |t| == |s|
    decreases |s|
  {
    if |s| <= width then s
    else
      var r := if |s| < 2 * width then |s| else 2 * width;
      MergeOf(s[..width], s[width..r]) + PassOf(s[r..], width)
  }

  ghost function SortOf(s: seq<Leaf>, width: nat): (t: seq<Leaf>)
    requires width > 0
    ensures |t| == |s|
    decreases |s| - width
  {
    if width >= |s| then s else SortOf(PassOf(s, width), 2 * width)
  }

  // ---------------------------------------------------------------- it is a permutation

  lemma {:induction false} MergePermutes(x: seq<Leaf>, y: seq<Leaf>)
    ensures multiset(MergeOf(x, y)) == multiset(x) + multiset(y)
    decreases |x| + |y|
  {
    if x == [] {
    } else if y == [] || x[0].weight <= y[0].weight {
      MergePermutes(x[1..], y);
      ConsMultiset(x[0], MergeOf(x[1..], y));
      FirstAndRest(x);
      SumOfParts(multiset{x[0]}, multiset(x[1..]), multiset(y));
    } else {
      MergePermutes(x, y[1..]);
      ConsMultiset(y[0], MergeOf(x, y[1..]));
      FirstAndRest(y);
      SumOfParts(multiset{y[0]}, multiset(x), multiset(y[1..]));
    }
  }

  lemma ConsMultiset(l: Leaf, s: seq<Leaf>)
    ensures multiset([l] + s) == multiset{l} + multiset(s)
  {}

  lemma FirstAndRest(s: seq<Leaf>)
    requires s != []
    ensures multiset(s) == multiset{s[0]} + multiset(s[1..])
  {
    assert s == [s[0]] + s[1..];
    ConsMultiset(s[0], s[1..]);
  }

  lemma SumOfParts(a: multiset<Leaf>, b: multiset<Leaf>, c: multiset<Leaf>)
    ensures a + (b + c) == (a + b) + c == b + (a + c)
  {}

  lemma ConcatMultiset(s: seq<Leaf>, t: seq<Leaf>)
    ensures multiset(s + t) == multiset(s) + multiset(t)
  {}

  lemma {:induction false} PassPermutes(s: seq<Leaf>, width: nat)
    requires width > 0
    ensures multiset(PassOf(s, width)) == multiset(s)
    decreases |s|
  {
    hide MergeOf;
    if |s| > width {
      var r := if |s| < 2 * width then |s| else 2 * width;
      MergePermutes(s[..width], s[width..r]);
      PassPermutes(s[r..], width);
      assert s == (s[..width] + s[width..r]) + s[r..];
      ConcatMultiset(s[..width], s[width..r]);
      ConcatMultiset(s[..width] + s[width..r], s[r..]);
      ConcatMultiset(MergeOf(s[..width], s[width..r]), PassOf(s[r..], width));
    }
  }

  // ---------------------------------------------------------------- it sorts

  lemma {:induction false} MergeSorts(x: seq<Leaf>, y: seq<Leaf>)
    requires Sorted(x) && Sorted(y)
    ensures Sorted(MergeOf(x, y))
    decreases |x| + |y|
  {
    if x == [] {
    } else if y == [] || x[0].weight <= y[0].weight {
      MergeSorts(x[1..], y);
      ConsSorted(x[0], x[1..], y);
    } else {
      MergeSorts(x, y[1..]);
      ConsSorted(y[0], x, y[1..]);
    }
  }

  lemma ConsSorted(l: Leaf, x: seq<Leaf>, y: seq<Leaf>)
    requires Sorted(MergeOf(x, y))
    requires (forall k | k in x :: l.weight <= k.weight) && (forall k | k in y :: l.weight <= k.weight)
    ensures Sorted([l] + MergeOf(x, y))
  {
    var m := MergeOf(x, y);
    MergePermutes(x, y);
    forall i | 0 <= i < |m| ensures l.weight <= m[i].weight {
      assert m[i] in multiset(m);
      assert m[i] in multiset(x) || m[i] in multiset(y);
    }
  }

  lemma {:induction false} PassSorts(s: seq<Leaf>, width: nat)
    requires width > 0 && Runs(s, width)
    ensures Runs(PassOf(s, width), 2 * width)
    decreases |s|
  {
    if |s| > width {
      var r := if |s| < 2 * width then |s| else 2 * width;
      var rest := s[width..];
      assert Sorted(s[width..r]) && (r < |s| ==> Runs(s[r..], width)) by {
        if r < |s| {
          assert rest[..width] == s[width..r] && rest[width..] == s[r..];
        } else {
          assert rest == s[width..r];
        }
      }
      MergeSorts(s[..width], s[width..r]);
      var m := MergeOf(s[..width], s[width..r]);
      if r < |s| {
        PassSorts(s[r..], width);
        assert (m + PassOf(s[r..], width))[..r] == m;
        assert (m + PassOf(s[r..], width))[r..] == PassOf(s[r..], width);
      } else {
        assert PassOf(s, width) == m;
      }
    }
  }

  lemma {:induction false} RunsOfOne(s: seq<Leaf>)
    ensures Runs(s, 1)
    decreases |s|
  {
    if |s| > 1 { RunsOfOne(s[1..]); }
  }

  lemma {:induction false} SortOfSorts(s: seq<Leaf>, width: nat)
    requires width > 0 && Runs(s, width)
    ensures Sorted(SortOf(s, width)) && multiset(SortOf(s, width)) == multiset(s)
    decreases |s| - width
  {
    if width < |s| {
      PassSorts(s, width);
      PassPermutes(s, width);
      SortOfSorts(PassOf(s, width), 2 * width);
    }
  }

  // ---------------------------------------------------------------- the loops

  /** `leaves[..num]` sorted by weight, in place, with one buffer of the same size. */
  method SortLeaves(leaves: array<Leaf>, num: nat)
    requires num <= leaves.Length
    modifies leaves
    ensures leaves[..num] == SortOf(old(leaves[..num]), 1)
    ensures leaves[num..] == old(leaves[num..])
  {
    hide SortOf, PassOf;
    var mem := new Leaf[num](_ => Leaf(0, 0));
    var width, counter := 1, 0;
    ghost var input, rest := leaves[..num], leaves[num..];
    while width < num
      modifies leaves, mem
      invariant width >= 1 && leaves[num..] == rest
      invariant SortOf(if counter % 2 == 1 then mem[..num] else leaves[..num], width) == SortOf(input, 1)
      decreases num - width
    {
      SortUnfold(if counter % 2 == 1 then mem[..num] else leaves[..num], width);
      if counter % 2 == 1 {
        MergePass(mem, leaves, num, width);
      } else {
        MergePass(leaves, mem, num, width);
      }
      width := width * 2;
      counter := counter + 1;
    }
    SortUnfold(if counter % 2 == 1 then mem[..num] else leaves[..num], width);
    if counter % 2 == 1 {
      for k := 0 to num
        modifies leaves
        invariant leaves[..k] == mem[..k] && leaves[num..] == rest
      {
        leaves[k] := mem[k];
      }
      assert leaves[..num] == mem[..num];
    }
  }

  lemma SortUnfold(s: seq<Leaf>, width: nat)
    requires width > 0
    ensures SortOf(s, width) == if width >= |s| then s else SortOf(PassOf(s, width), 2 * width)
  {}

  /** Merges the runs of `a` pairwise into `b`. */
  method MergePass(a: array<Leaf>, b: array<Leaf>, num: nat, width: nat)
    requires a != b && num <= a.Length && num <= b.Length && width > 0
    modifies b
    ensures b[..num] == PassOf(a[..num], width)
    ensures b[num..] == old(b[num..])
  {
    hide MergeOf, PassOf;
    var p := 0;
    ghost var s, rest, whole := a[..num], b[num..], PassOf(a[..num], width);
    ghost var n := 0;  // p, but never past the end
    assert s[0..] == s && whole[0..] == whole;
    while p < num
      invariant n == (if p < num then p else num)
      invariant b[num..] == rest && a[..num] == s
      invariant b[..n] == whole[..n]
      invariant PassOf(s[n..], width) == whole[n..]
      decreases num - p
    {
      var q := if p + width > num then num else p + width;
      var r := if p + 2 * width > num then num else p + 2 * width;
      ghost var done := b[..p];
      Merge(a, b, p, q, r);
      SliceOfPrefix(a, num, p, q);
      SliceOfPrefix(a, num, q, r);
      PassUnfold(s, p, q, r, width);
      assert whole[p..][..r - p] == whole[p..r] == b[p..r];
      assert whole[p..][r - p..] == whole[r..];
      assert b[..r] == done + b[p..r];
      assert whole[..r] == whole[..p] + whole[p..r];
      n := r;
      p := p + 2 * width;
    }
  }

  lemma SliceOfPrefix(a: array<Leaf>, num: nat, x: nat, y: nat)
    requires x <= y <= num <= a.Length
    ensures a[x..y] == a[..num][x..y]
  {}

  lemma PassUnfold(s: seq<Leaf>, p: nat, q: nat, r: nat, width: nat)
    requires width > 0 && p < |s|
    requires q == if p + width > |s| then |s| else p + width
    requires r == if p + 2 * width > |s| then |s| else p + 2 * width
    ensures PassOf(s[p..], width) == MergeOf(s[p..q], s[q..r]) + PassOf(s[r..], width)
  {
    hide MergeOf;
    var t := s[p..];
    if |t| <= width {
      assert s[q..r] == [] && s[r..] == [] && s[p..q] == t;
      MergeWithNothing(t);
    } else {
      TailSlices(s, p, q, r);
    }
  }

  lemma TailSlices(s: seq<Leaf>, p: nat, q: nat, r: nat)
    requires p <= q <= r <= |s|
    ensures s[p..][..q - p] == s[p..q] && s[p..][q - p..r - p] == s[q..r] && s[p..][r - p..] == s[r..]
  {}

  lemma {:induction false} MergeWithNothing(x: seq<Leaf>)
    ensures MergeOf(x, []) == x
  {
    if x != [] {
      MergeWithNothing(x[1..]);
      assert x == [x[0]] + x[1..];
    }
  }

  method Merge(a: array<Leaf>, b: array<Leaf>, p: nat, q: nat, r: nat)
    requires a != b && p <= q <= r <= a.Length && r <= b.Length
    modifies b
    ensures b[p..r] == MergeOf(a[p..q], a[q..r])
    ensures b[..p] == old(b[..p]) && b[r..] == old(b[r..])
  {
    hide MergeOf;
    var i, j := p, q;
    ghost var whole := MergeOf(a[p..q], a[q..r]);
    for k := p to r
      invariant p <= i <= q <= j <= r && k - p == (i - p) + (j - q)
      invariant b[..p] == old(b[..p]) && b[r..] == old(b[r..])
      invariant forall x | p <= x < k :: b[x] == whole[x - p]
      invariant MergeOf(a[i..q], a[j..r]) == whole[k - p..]
    {
      MergeHead(a[i..q], a[j..r]);
      assert whole[k - p..][0] == whole[k - p];
      assert whole[k - p..][1..] == whole[k - p + 1..];
      if i < q && (j >= r || a[i].weight <= a[j].weight) {
        assert a[i..q][1..] == a[i + 1..q];
        b[k] := a[i];
        i := i + 1;
      } else {
        assert a[j..r][1..] == a[j + 1..r];
        b[k] := a[j];
        j := j + 1;
      }
    }
  }

  /** One element of a merge, chosen as the loop chooses it. */
  lemma MergeHead(x: seq<Leaf>, y: seq<Leaf>)
    requires x != [] || y != []
    ensures MergeOf(x, y) == if x != [] && (y == [] || x[0].weight <= y[0].weight) then [x[0]] + MergeOf(x[1..], y)
                             else [y[0]] + MergeOf(x, y[1..])
  {
    if x == [] { assert y == [y[0]] + y[1..]; }
  }
}
