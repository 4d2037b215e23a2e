/** The two-level decoding table, as a pure invariant over its two columns.

    A table index is read with the first stream bit least significant. The first table has
    512 entries. Entry `i` with `maxlens[i] > 9` points to a second table of 2^(maxlens[i]-9)
    entries that starts at `Pointer(maxlens, i)`. */
module HuffmanTable {
  import opened Wrappers
  import opened Bits
  import opened Huffman

  const FIRSTBITS: nat := 9
  const INVALIDSYMBOL: nat := 65535
  const UNUSED: nat := 16  // no code is that long

  /** `maxlens[i]`: the longest code above nine bits that begins with the nine bits of `i`. */
  ghost predicate MaxLens(maxlens: seq<nat>, lens: seq<nat>, k: nat)
    requires ValidLengths(lens) && k <= |lens|
  {
    && |maxlens| == 512
    && (forall n | 0 <= n < k && lens[n] > 9 :: Prefix9(lens, n) < 512 && maxlens[Prefix9(lens, n)] >= lens[n])
    && (forall i | 0 <= i < 512 && maxlens[i] != 0 :: 9 < maxlens[i] <= 15 && PointsTo(lens, k, i))
  }

  ghost predicate PointsTo(lens: seq<nat>, k: nat, i: nat)
    requires ValidLengths(lens) && k <= |lens|
  {
    exists n :: 0 <= n < k && lens[n] > 9 && Prefix9(lens, n) == i
  }

  ghost function Prefix9(lens: seq<nat>, n: nat): (i: nat)
    requires ValidLengths(lens) && n < |lens|
    ensures i < 512
  {
    Pow2Values();
    Low(Rev(lens, n), 9)
  }

  /** Where the second table of entry `i` starts. */
  function Pointer(maxlens: seq<nat>, i: nat): (p: nat)
    requires i <= |maxlens|
    ensures p >= 512
  {
    if i == 0 then 512
    else Pointer(maxlens, i - 1) + (if maxlens[i - 1] > 9 then Pow2(maxlens[i - 1] - 9) else 0)
  }

  lemma {:induction false} PointerMono(maxlens: seq<nat>, i: nat, j: nat)
    requires i < j <= |maxlens|
    ensures Pointer(maxlens, i) + (if maxlens[i] > 9 then Pow2(maxlens[i] - 9) else 0) <= Pointer(maxlens, j)
  {
    if i + 1 < j { PointerMono(maxlens, i, j - 1); }
  }

  /** Row `r` of the second table of `i`. */
  ghost predicate Row(maxlens: seq<nat>, i: nat, r: nat)
    requires |maxlens| == 512
  {
    i < 512 && maxlens[i] > 9 && r < Pow2(maxlens[i] - 9)
  }

  lemma RowInRange(maxlens: seq<nat>, i: nat, r: nat)
    requires |maxlens| == 512 && Row(maxlens, i, r)
    ensures 512 <= Pointer(maxlens, i) + r < Pointer(maxlens, 512)
  {
    PointerMono(maxlens, i, 512);
  }

  lemma RowsApart(maxlens: seq<nat>, i: nat, r: nat, i': nat, r': nat)
    requires |maxlens| == 512 && Row(maxlens, i, r) && Row(maxlens, i', r')
    requires Pointer(maxlens, i) + r == Pointer(maxlens, i') + r'
    ensures i == i' && r == r'
  {
    if i < i' { PointerMono(maxlens, i, i'); }
    if i' < i { PointerMono(maxlens, i', i); }
  }

  /** Every index past the first table is some row. */
  lemma {:induction false} FindRow(maxlens: seq<nat>, m: nat, idx: nat) returns (i: nat, r: nat)
    requires |maxlens| == 512 && m <= 512 && 512 <= idx < Pointer(maxlens, m)
    ensures Row(maxlens, i, r) && idx == Pointer(maxlens, i) + r
  {
    if idx < Pointer(maxlens, m - 1) {
      i, r := FindRow(maxlens, m - 1, idx);
    } else {
      i, r := m - 1, idx - Pointer(maxlens, m - 1);
    }
  }

  /** Symbol `n` belongs in entry `i` of the first table. */
  ghost predicate Covers(lens: seq<nat>, n: nat, i: nat)
    requires ValidLengths(lens)
  {
    n < |lens| && 0 < lens[n] <= 9 && Low(i, lens[n]) == Rev(lens, n)
  }

  /** Symbol `n` belongs in row `r` of the second table of `i`. */
  ghost predicate CoversRow(lens: seq<nat>, n: nat, i: nat, r: nat)
    requires ValidLengths(lens)
  {
    n < |lens| && lens[n] > 9 && Prefix9(lens, n) == i && Low(r, lens[n] - 9) == Shr(Rev(lens, n), 9)
  }

  /** The columns hold exactly the first `k` symbols. A long symbol may overwrite another one. */
  ghost predicate Filled(tl: seq<nat>, tv: seq<nat>, maxlens: seq<nat>, lens: seq<nat>, k: nat)
    requires ValidLengths(lens) && k <= |lens|
  {
    && |maxlens| == 512 && |tl| == |tv| == Pointer(maxlens, 512)
    && (forall i | 0 <= i < 512 && maxlens[i] > 9 :: tl[i] == maxlens[i] && tv[i] == Pointer(maxlens, i))
    && (forall i | 0 <= i < 512 && maxlens[i] <= 9 ::
          tl[i] == UNUSED || (tv[i] < k && Covers(lens, tv[i], i) && tl[i] == lens[tv[i]]))
    && (forall n, i | 0 <= n < k && 0 <= i < 512 && Covers(lens, n, i) :: tl[i] == lens[n] && tv[i] == n)
    && (forall i, r | Row(maxlens, i, r) :: RowSound(tl, tv, maxlens, lens, k, i, r))
    && (forall n, i, r | 0 <= n < k && Row(maxlens, i, r) && CoversRow(lens, n, i, r) ::
          RowUsed(tl, maxlens, i, r))
  }

  ghost predicate RowSound(tl: seq<nat>, tv: seq<nat>, maxlens: seq<nat>, lens: seq<nat>, k: nat, i: nat, r: nat)
    requires ValidLengths(lens) && k <= |lens| && |maxlens| == 512 && Row(maxlens, i, r)
    requires |tl| == |tv| == Pointer(maxlens, 512)
  {
    RowInRange(maxlens, i, r);
    var idx := Pointer(maxlens, i) + r;
    tl[idx] == UNUSED || (tv[idx] < k && CoversRow(lens, tv[idx], i, r) && tl[idx] == lens[tv[idx]])
  }

  ghost predicate RowUsed(tl: seq<nat>, maxlens: seq<nat>, i: nat, r: nat)
    requires |maxlens| == 512 && Row(maxlens, i, r) && |tl| == Pointer(maxlens, 512)
  {
    RowInRange(maxlens, i, r);
    tl[Pointer(maxlens, i) + r] != UNUSED
  }

  // ---------------------------------------------------------------- what the columns decode to

  /** The second index for the 15-bit window `u`, when the first entry is a pointer. */
  function SecondIndex(tl: seq<nat>, tv: seq<nat>, u: nat): nat
    requires |tl| == |tv| && Low(u, 9) < |tl| && tl[Low(u, 9)] > 9
  {
    tv[Low(u, 9)] + Low(Shr(u, 9), tl[Low(u, 9)] - 9)
  }

  /** A table read answers like `Decode`; an invalid entry still has a length that can be skipped. */
  ghost predicate Answers(value: nat, len: nat, lens: seq<nat>, u: nat)
    requires ValidLengths(lens)
  {
    match Decode(lens, u)
    case Some(n) => value == n && len == lens[n]
    case None => value == INVALIDSYMBOL && len <= 10
  }

  ghost predicate LookupOk(tl: seq<nat>, tv: seq<nat>, lens: seq<nat>, u: nat)
    requires ValidLengths(lens)
  {
    && |tl| == |tv| && Low(u, 9) < |tl|
    && (if tl[Low(u, 9)] <= 9 then
          Answers(tv[Low(u, 9)], tl[Low(u, 9)], lens, u)
        else
          && tl[Low(u, 9)] <= 15
          && SecondIndex(tl, tv, u) < |tl|
          && 9 < tl[SecondIndex(tl, tv, u)] <= 15
          && Answers(tv[SecondIndex(tl, tv, u)], tl[SecondIndex(tl, tv, u)], lens, u))
  }

  ghost predicate TableOk(tl: seq<nat>, tv: seq<nat>, lens: seq<nat>)
    requires ValidLengths(lens)
  {
    forall u | 0 <= u < 0x8000 :: LookupOk(tl, tv, lens, u)
  }

  // ---------------------------------------------------------------- codes against entries

  lemma CoversIsMatch(lens: seq<nat>, n: nat, u: nat)
    requires ValidLengths(lens) && n < |lens| && 0 < lens[n] <= 9
    ensures Match(lens, n, u) <==> Covers(lens, n, Low(u, 9))
  {
    hide Low, Rev;
    ShrLow(u, lens[n], 9);
  }

  lemma CoversRowIsMatch(lens: seq<nat>, n: nat, u: nat, m: nat)
    requires ValidLengths(lens) && n < |lens| && 9 < lens[n] <= m
    ensures Match(lens, n, u) <==> CoversRow(lens, n, Low(u, 9), Low(Shr(u, 9), m - 9))
  {
    hide Low, Rev, Shr, Pow2;
    var l, c := lens[n], Rev(lens, n);
    LowNoop(c, l);
    ShrLow(u, 9, l);
    ShrLow(Shr(u, 9), l - 9, m - 9);
    ShrLowJoin(c, 9);
    ShrLowJoin(Low(u, l), 9);
  }

  /** A window for row `r` of entry `i`. */
  function RowWindow(i: nat, r: nat): nat {
    i + r * Pow2(9)
  }

  lemma RowWindowParts(maxlens: seq<nat>, i: nat, r: nat)
    requires |maxlens| == 512 && Row(maxlens, i, r) && maxlens[i] <= 15
    ensures Low(RowWindow(i, r), 9) == i && Low(Shr(RowWindow(i, r), 9), maxlens[i] - 9) == r
  {
    hide Low, Shr, Pow2;
    assert Pow2(9) == 512 by { Pow2Values(); }
    JoinShrLow(i, r, 9);
    LowNoop(r, maxlens[i] - 9);
  }

  lemma {:induction false} TwoPresent(lens: seq<nat>, n: nat, m: nat)
    requires n < m < |lens| && lens[n] > 0 && lens[m] > 0
    ensures NumPresent(lens) >= 2
  {
    if m < |lens| - 1 {
      TwoPresent(lens[..|lens| - 1], n, m);
    } else {
      OnePresent(lens[..m], n);
    }
  }

  lemma {:induction false} OnePresent(lens: seq<nat>, n: nat)
    requires n < |lens| && lens[n] > 0
    ensures NumPresent(lens) >= 1
  {
    if n < |lens| - 1 { OnePresent(lens[..|lens| - 1], n); }
  }

  /** Two symbols that match one window rule the code set out. */
  lemma Collision(lens: seq<nat>, n: nat, m: nat, u: nat)
    requires ValidLengths(lens) && n != m && Match(lens, n, u) && Match(lens, m, u)
    ensures !Acceptable(lens)
  {
    hide Rev, Low, Kraft;
    if n < m { TwoPresent(lens, n, m); } else { TwoPresent(lens, m, n); }
    if Kraft(lens) <= 0x8000 { PrefixFree(lens, n, m, u); }
  }

  /** The short symbol `k` finds entry `i` already taken. */
  lemma ShortCollision(tl: seq<nat>, tv: seq<nat>, maxlens: seq<nat>, lens: seq<nat>, k: nat, i: nat)
    requires ValidLengths(lens) && k < |lens| && MaxLens(maxlens, lens, |lens|)
    requires Filled(tl, tv, maxlens, lens, k) && i < 512 && Covers(lens, k, i) && tl[i] != UNUSED
    ensures !Acceptable(lens)
  {
    hide Rev, Low, Kraft, Pointer;
    if maxlens[i] > 9 {
      var n :| 0 <= n < |lens| && lens[n] > 9 && Prefix9(lens, n) == i;
      LowNoop(Rev(lens, n), lens[n]);
      CoversIsMatch(lens, k, Rev(lens, n));
      Collision(lens, k, n, Rev(lens, n));
    } else {
      var n := tv[i];
      LowNoopSmall(i);
      CoversIsMatch(lens, k, i);
      CoversIsMatch(lens, n, i);
      Collision(lens, k, n, i);
    }
  }

  lemma LowNoopSmall(i: nat)
    requires i < 512
    ensures Low(i, 9) == i
  {
    Pow2Values();
    LowNoop(i, 9);
  }

  // ---------------------------------------------------------------- the finished table

  ghost predicate Full(tl: seq<nat>) {
    forall i | 0 <= i < |tl| :: tl[i] != UNUSED
  }

  /** Entry or row of window `u`: which symbol it holds, if any. */
  lemma EntryMatches(tl: seq<nat>, tv: seq<nat>, maxlens: seq<nat>, lens: seq<nat>, u: nat)
    requires ValidLengths(lens) && MaxLens(maxlens, lens, |lens|) && Filled(tl, tv, maxlens, lens, |lens|)
    ensures Low(u, 9) < 512
    ensures tl[Low(u, 9)] <= 9 ==> Match(lens, tv[Low(u, 9)], u) && tl[Low(u, 9)] == lens[tv[Low(u, 9)]]
    ensures tl[Low(u, 9)] == UNUSED ==> forall n: nat :: !Match(lens, n, u)
    ensures 9 < tl[Low(u, 9)] < UNUSED ==>
      var idx := SecondIndex(tl, tv, u);
      && 512 <= idx < |tl| && tl[Low(u, 9)] <= 15
      && (tl[idx] != UNUSED ==> tl[idx] > 9 && Match(lens, tv[idx], u) && tl[idx] == lens[tv[idx]])
      && (tl[idx] == UNUSED ==> forall n: nat :: !Match(lens, n, u))
  {
    hide Rev, Low, Shr, Pointer, Pow2;
    var i := Low(u, 9);
    assert i < 512 by { Pow2Values(); }
    if maxlens[i] <= 9 {
      if tl[i] != UNUSED { CoversIsMatch(lens, tv[i], u); }
      forall n: nat | Match(lens, n, u) ensures tl[i] != UNUSED {
        if lens[n] <= 9 { CoversIsMatch(lens, n, u); } else { CoversRowIsMatch(lens, n, u, lens[n]); }
      }
    } else {
      var r := Low(Shr(u, 9), maxlens[i] - 9);
      assert Row(maxlens, i, r);
      RowInRange(maxlens, i, r);
      var idx := SecondIndex(tl, tv, u);
      assert idx == Pointer(maxlens, i) + r;
      assert RowSound(tl, tv, maxlens, lens, |lens|, i, r);
      if tl[idx] != UNUSED { CoversRowIsMatch(lens, tv[idx], u, maxlens[i]); }
      forall n: nat | Match(lens, n, u) ensures tl[idx] != UNUSED {
        if lens[n] <= 9 {
          CoversIsMatch(lens, n, u);
        } else {
          CoversRowIsMatch(lens, n, u, lens[n]);
          assert maxlens[Prefix9(lens, n)] >= lens[n];
          CoversRowIsMatch(lens, n, u, maxlens[i]);
          assert RowUsed(tl, maxlens, i, r);
        }
      }
    }
  }

  /** A complete code set fills the table: an unused entry betrays an unacceptable one. */
  lemma UnusedMeansIncomplete(tl: seq<nat>, tv: seq<nat>, maxlens: seq<nat>, lens: seq<nat>, idx: nat)
    requires ValidLengths(lens) && MaxLens(maxlens, lens, |lens|) && Filled(tl, tv, maxlens, lens, |lens|)
    requires idx < |tl| && tl[idx] == UNUSED
    ensures Kraft(lens) != 0x8000
  {
    hide Rev, Low, Shr, Kraft, Pointer, Pow2;
    var u: nat;
    if idx < 512 {
      u := idx;
      LowNoopSmall(idx);
    } else {
      var i, r := FindRow(maxlens, 512, idx);
      u := RowWindow(i, r);
      RowWindowParts(maxlens, i, r);
      assert SecondIndex(tl, tv, u) == idx;
    }
    EntryMatches(tl, tv, maxlens, lens, u);
    if Kraft(lens) == 0x8000 {
      var n := CompleteCover(lens, u);
    }
  }

  lemma ZeroCovers(lens: seq<nat>, n: nat)
    requires ValidLengths(lens) && n < |lens| && lens[n] > 0 && Rev(lens, n) == 0
    ensures lens[n] <= 9 ==> Covers(lens, n, 0)
    ensures lens[n] > 9 ==> Prefix9(lens, n) == 0
  {
    LowNoop(0, lens[n]);
    LowNoop(0, 9);
  }

  /** A full table over at most 288 symbols can only come from a complete code set. */
  lemma FullMeansComplete(tl: seq<nat>, tv: seq<nat>, maxlens: seq<nat>, lens: seq<nat>)
    requires ValidLengths(lens) && |lens| <= 288
    requires MaxLens(maxlens, lens, |lens|) && Filled(tl, tv, maxlens, lens, |lens|) && Full(tl)
    ensures Kraft(lens) == 0x8000
  {
    hide Rev, Low, Shr, Kraft, Pointer;
    if Kraft(lens) < 0x8000 {
      var u := Incomplete(lens);
      EntryMatches(tl, tv, maxlens, lens, u);
      assert false;
    }
    if Kraft(lens) > 0x8000 {
      var n, m := Oversubscribed(lens);
      LowNoop(0, 9);
      ZeroCovers(lens, n);
      ZeroCovers(lens, m);
      assert false;
    }
  }

  lemma FullTableOk(tl: seq<nat>, tv: seq<nat>, maxlens: seq<nat>, lens: seq<nat>)
    requires ValidLengths(lens) && |lens| <= 288
    requires MaxLens(maxlens, lens, |lens|) && Filled(tl, tv, maxlens, lens, |lens|) && Full(tl)
    ensures TableOk(tl, tv, lens)
  {
    hide Rev, Low, Shr, Kraft, Pointer, Filled, MaxLens, Match;
    FullMeansComplete(tl, tv, maxlens, lens);
    forall u | 0 <= u < 0x8000 ensures LookupOk(tl, tv, lens, u) {
      FullLookup(tl, tv, maxlens, lens, u);
    }
  }

  lemma FullLookup(tl: seq<nat>, tv: seq<nat>, maxlens: seq<nat>, lens: seq<nat>, u: nat)
    requires ValidLengths(lens) && Kraft(lens) == 0x8000
    requires MaxLens(maxlens, lens, |lens|) && Filled(tl, tv, maxlens, lens, |lens|) && Full(tl)
    ensures LookupOk(tl, tv, lens, u)
  {
    hide Rev, Low, Shr, Kraft, Pointer, Filled, MaxLens;
    EntryMatches(tl, tv, maxlens, lens, u);
    assert |tl| == |tv| >= 512 by {
      assert Filled(tl, tv, maxlens, lens, |lens|);
      FilledSizes(tl, tv, maxlens, lens, |lens|);
    }
    var i := Low(u, 9);
    FirstEntry(tl, tv, maxlens, lens, i);
    var e := if tl[i] <= 9 then i else SecondIndex(tl, tv, u);
    var n := Decode(lens, u).value;
    PrefixFree(lens, n, tv[e], u);
  }

  lemma FilledSizes(tl: seq<nat>, tv: seq<nat>, maxlens: seq<nat>, lens: seq<nat>, k: nat)
    requires ValidLengths(lens) && k <= |lens| && Filled(tl, tv, maxlens, lens, k)
    ensures |tl| == |tv| >= 512
  {}

  lemma FirstEntry(tl: seq<nat>, tv: seq<nat>, maxlens: seq<nat>, lens: seq<nat>, i: nat)
    requires ValidLengths(lens) && MaxLens(maxlens, lens, |lens|)
    requires Filled(tl, tv, maxlens, lens, |lens|) && i < 512
    ensures |tl| == |tv| >= 512 && (tl[i] <= 15 || tl[i] == UNUSED)
  {}

  /** What the patched table of a 0- or 1-symbol tree holds. */
  ghost predicate Patched(tl: seq<nat>, tv: seq<nat>, tl0: seq<nat>, tv0: seq<nat>) {
    && |tl| == |tv| == |tl0| == |tv0|
    && forall i | 0 <= i < |tl| ::
         if tl0[i] == UNUSED then tl[i] == (if i < 512 then 1 else 10) && tv[i] == INVALIDSYMBOL
         else tl[i] == tl0[i] && tv[i] == tv0[i]
  }

  lemma PatchedTableOk(tl: seq<nat>, tv: seq<nat>, tl0: seq<nat>, tv0: seq<nat>, maxlens: seq<nat>, lens: seq<nat>)
    requires ValidLengths(lens) && NumPresent(lens) < 2
    requires MaxLens(maxlens, lens, |lens|) && Filled(tl0, tv0, maxlens, lens, |lens|)
    requires Patched(tl, tv, tl0, tv0)
    ensures TableOk(tl, tv, lens)
  {
    hide Rev, Low, Shr, Kraft, Pointer, Filled, MaxLens, Match;
    forall u | 0 <= u < 0x8000 ensures LookupOk(tl, tv, lens, u) {
      PatchedLookup(tl, tv, tl0, tv0, maxlens, lens, u);
    }
  }

  lemma PatchedLookup(tl: seq<nat>, tv: seq<nat>, tl0: seq<nat>, tv0: seq<nat>, maxlens: seq<nat>, lens: seq<nat>,
                      u: nat)
    requires ValidLengths(lens) && NumPresent(lens) < 2
    requires MaxLens(maxlens, lens, |lens|) && Filled(tl0, tv0, maxlens, lens, |lens|)
    requires Patched(tl, tv, tl0, tv0)
    ensures LookupOk(tl, tv, lens, u)
  {
    hide Rev, Low, Shr, Kraft, Pointer, Filled, MaxLens;
    EntryMatches(tl0, tv0, maxlens, lens, u);
    var i := Low(u, 9);
    FirstEntry(tl0, tv0, maxlens, lens, i);
    var e := if tl0[i] <= 9 || tl0[i] == UNUSED then i else SecondIndex(tl0, tv0, u);
    assert 9 < tl0[i] < UNUSED ==> SecondIndex(tl, tv, u) == SecondIndex(tl0, tv0, u);
    if tl0[e] != UNUSED {
      var n := Decode(lens, u).value;
      if n < tv0[e] { TwoPresent(lens, n, tv0[e]); }
      if tv0[e] < n { TwoPresent(lens, tv0[e], n); }
    }
  }

  // ---------------------------------------------------------------- filling, symbol by symbol

  /** Columns with `len`, `sym` written to every first-table entry that ends in `rev`. */
  ghost predicate ShortWritten(tl: seq<nat>, tv: seq<nat>, tl0: seq<nat>, tv0: seq<nat>, len: nat, rev: nat, sym: nat) {
    && |tl| == |tv| == |tl0| == |tv0|
    && forall i | 0 <= i < |tl| ::
         if i < 512 && Low(i, len) == rev then tl[i] == len && tv[i] == sym else tl[i] == tl0[i] && tv[i] == tv0[i]
  }

  /** Columns with `len`, `sym` written to the rows `r` below `size` after `start` with `Low(r, len - 9) == rev2`. */
  ghost predicate LongWritten(tl: seq<nat>, tv: seq<nat>, tl0: seq<nat>, tv0: seq<nat>, start: nat, size: nat, len: nat,
                              rev2: nat, sym: nat)
    requires len >= 9
  {
    && |tl| == |tv| == |tl0| == |tv0|
    && forall i | 0 <= i < |tl| ::
         if start <= i < start + size && Low(i - start, len - 9) == rev2
         then tl[i] == len && tv[i] == sym else tl[i] == tl0[i] && tv[i] == tv0[i]
  }

  lemma FilledStart(tl: seq<nat>, tv: seq<nat>, maxlens: seq<nat>, lens: seq<nat>)
    requires ValidLengths(lens) && |maxlens| == 512 && |tl| == |tv| == Pointer(maxlens, 512)
    requires forall i | 0 <= i < 512 :: if maxlens[i] > 9 then tl[i] == maxlens[i] && tv[i] == Pointer(maxlens, i)
                                        else tl[i] == UNUSED
    requires forall i | 512 <= i < |tl| :: tl[i] == UNUSED
    ensures Filled(tl, tv, maxlens, lens, 0)
  {
    hide Pointer, Low, Rev;
    forall i, r | Row(maxlens, i, r) ensures RowSound(tl, tv, maxlens, lens, 0, i, r) {
      RowInRange(maxlens, i, r);
    }
  }

  lemma FilledSkip(tl: seq<nat>, tv: seq<nat>, maxlens: seq<nat>, lens: seq<nat>, k: nat)
    requires ValidLengths(lens) && k < |lens| && lens[k] == 0 && Filled(tl, tv, maxlens, lens, k)
    ensures Filled(tl, tv, maxlens, lens, k + 1)
  {
    hide Pointer, Low, Rev, Shr;
    forall i, r | Row(maxlens, i, r) ensures RowSound(tl, tv, maxlens, lens, k + 1, i, r) {
      assert RowSound(tl, tv, maxlens, lens, k, i, r);
    }
  }

  lemma FilledShort(tl: seq<nat>, tv: seq<nat>, tl0: seq<nat>, tv0: seq<nat>, maxlens: seq<nat>, lens: seq<nat>, k: nat)
    requires ValidLengths(lens) && k < |lens| && 0 < lens[k] <= 9 && Filled(tl0, tv0, maxlens, lens, k)
    requires MaxLens(maxlens, lens, |lens|)
    requires forall i | 0 <= i < 512 && Covers(lens, k, i) :: tl0[i] == UNUSED
    requires ShortWritten(tl, tv, tl0, tv0, lens[k], Rev(lens, k), k)
    ensures Filled(tl, tv, maxlens, lens, k + 1)
  {
    hide Pointer, Low, Rev, Shr;
    forall i | 0 <= i < 512 && maxlens[i] > 9 ensures tl[i] == maxlens[i] && tv[i] == Pointer(maxlens, i) {
      assert tl0[i] == maxlens[i] <= 15;
      assert !Covers(lens, k, i);
    }
    forall n, i | 0 <= n < k + 1 && 0 <= i < 512 && Covers(lens, n, i) ensures tl[i] == lens[n] && tv[i] == n {}
    forall i, r | Row(maxlens, i, r) ensures RowSound(tl, tv, maxlens, lens, k + 1, i, r) {
      RowInRange(maxlens, i, r);
      assert RowSound(tl0, tv0, maxlens, lens, k, i, r);
    }
    forall n, i, r | 0 <= n < k + 1 && Row(maxlens, i, r) && CoversRow(lens, n, i, r)
      ensures RowUsed(tl, maxlens, i, r)
    {
      RowInRange(maxlens, i, r);
      assert RowUsed(tl0, maxlens, i, r);
    }
  }

  /** Writing the long symbol `k` keeps row `r` of `i` sound, and leaves it used if `k` or an earlier symbol covers it.
      */
  lemma RowAfterLong(tl: seq<nat>, tv: seq<nat>, tl0: seq<nat>, tv0: seq<nat>, maxlens: seq<nat>, lens: seq<nat>,
                     k: nat, i: nat, r: nat)
    requires ValidLengths(lens) && k < |lens| && lens[k] > 9 && |maxlens| == 512
    requires |tl| == |tv| == |tl0| == |tv0| == Pointer(maxlens, 512)
    requires maxlens[Prefix9(lens, k)] >= lens[k]
    requires LongWritten(tl, tv, tl0, tv0, Pointer(maxlens, Prefix9(lens, k)), Pow2(maxlens[Prefix9(lens, k)] - 9),
                         lens[k], Shr(Rev(lens, k), 9), k)
    requires Row(maxlens, i, r) && RowSound(tl0, tv0, maxlens, lens, k, i, r)
    ensures RowSound(tl, tv, maxlens, lens, k + 1, i, r)
    ensures RowUsed(tl0, maxlens, i, r) && lens[k] != UNUSED ==> RowUsed(tl, maxlens, i, r)
    ensures CoversRow(lens, k, i, r) && lens[k] != UNUSED ==> RowUsed(tl, maxlens, i, r)
  {
    hide Pointer, Low, Rev, Shr, Pow2, Prefix9;
    var p := Prefix9(lens, k);
    var start, size := Pointer(maxlens, p), Pow2(maxlens[p] - 9);
    RowInRange(maxlens, i, r);
    var idx := Pointer(maxlens, i) + r;
    if start <= idx < start + size { RowsApart(maxlens, i, r, p, idx - start); }
  }

  lemma FilledLong(tl: seq<nat>, tv: seq<nat>, tl0: seq<nat>, tv0: seq<nat>, maxlens: seq<nat>, lens: seq<nat>, k: nat)
    requires ValidLengths(lens) && k < |lens| && lens[k] > 9 && Filled(tl0, tv0, maxlens, lens, k)
    requires MaxLens(maxlens, lens, |lens|)
    requires LongWritten(tl, tv, tl0, tv0, Pointer(maxlens, Prefix9(lens, k)), Pow2(maxlens[Prefix9(lens, k)] - 9),
                         lens[k], Shr(Rev(lens, k), 9), k)
    ensures Filled(tl, tv, maxlens, lens, k + 1)
  {
    hide Pointer, Low, Rev, Shr, Pow2, Prefix9;
    assert maxlens[Prefix9(lens, k)] >= lens[k];
    forall n, i | 0 <= n < k + 1 && 0 <= i < 512 && Covers(lens, n, i) ensures tl[i] == lens[n] && tv[i] == n {}
    forall i, r | Row(maxlens, i, r) ensures RowSound(tl, tv, maxlens, lens, k + 1, i, r) {
      RowAfterLong(tl, tv, tl0, tv0, maxlens, lens, k, i, r);
    }
    forall n, i, r | 0 <= n < k + 1 && Row(maxlens, i, r) && CoversRow(lens, n, i, r)
      ensures RowUsed(tl, maxlens, i, r)
    {
      RowAfterLong(tl, tv, tl0, tv0, maxlens, lens, k, i, r);
    }
  }
}
