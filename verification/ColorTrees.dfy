/** Colours, and the tree that finds the index of a colour by one bit of each channel per level. */
module ColorTrees {
  import opened Bits
  import Buffers

  datatype Rgba = Rgba(r: byte, g: byte, b: byte, a: byte)

  /** The child at level `bit`: bit number `bit` of all four channels. */
  function Child(c: Rgba, bit: nat): (i: nat)
    ensures i < 16
  {
    8 * (Shr(c.r, bit) % 2) + 4 * (Shr(c.g, bit) % 2) + 2 * (Shr(c.b, bit) % 2) + Shr(c.a, bit) % 2
  }

  datatype ColorTree = Absent | Node(children: seq<ColorTree>, index: int)

  /** A new node: no children, no colour. */
  function NewNode(): ColorTree {
    Node(seq(16, _ => Absent), -1)
  }

  ghost predicate Shaped(t: ColorTree, bit: nat)
    requires bit <= 8
    decreases 8 - bit
  {
    t.Node? && |t.children| == 16
    && (bit < 8 ==> forall i | 0 <= i < 16 :: t.children[i].Node? ==> Shaped(t.children[i], bit + 1))
  }

  /** The index stored for a colour below level `bit`, negative if there is none. */
  ghost function Get(t: ColorTree, c: Rgba, bit: nat): int
    requires bit <= 8 && (t.Node? ==> Shaped(t, bit))
    decreases 8 - bit
  {
    if t.Absent? then -1 else if bit == 8 then t.index else Get(t.children[Child(c, bit)], c, bit + 1)
  }

  /** The tree with `index` stored for a colour. */
  function Add(t: ColorTree, c: Rgba, index: int, bit: nat): (t': ColorTree)
    requires bit <= 8 && Shaped(t, bit)
    ensures Shaped(t', bit)
    decreases 8 - bit
  {
    if bit == 8 then Node(t.children, index)
    else
      var i := Child(c, bit);
      NewShaped(bit + 1);
      var child := if t.children[i].Absent? then NewNode() else t.children[i];
      Node(t.children[i := Add(child, c, index, bit + 1)], t.index)
  }

  lemma NewShaped(bit: nat)
    requires bit <= 8
    ensures Shaped(NewNode(), bit)
  {}

  lemma NewIsEmpty(c: Rgba)
    ensures Shaped(NewNode(), 0) && Get(NewNode(), c, 0) == -1
  {
    NewShaped(0);
  }

  /** Both colours take the same way from level `bit` on. */
  ghost predicate SameWay(c: Rgba, d: Rgba, bit: nat) {
    forall k | bit <= k < 8 :: Child(c, k) == Child(d, k)
  }

  /** Adding a colour changes its own index only. */
  lemma {:induction false} GetAdd(t: ColorTree, c: Rgba, index: int, d: Rgba, bit: nat)
    requires bit <= 8 && Shaped(t, bit)
    ensures Get(Add(t, c, index, bit), d, bit) == if SameWay(c, d, bit) then index else Get(t, d, bit)
    decreases 8 - bit
  {
    hide Child;
    if bit < 8 {
      var i := Child(c, bit);
      NewShaped(bit + 1);
      var child := if t.children[i].Absent? then NewNode() else t.children[i];
      if Child(d, bit) == i {
        GetAdd(child, c, index, d, bit + 1);
        assert SameWay(c, d, bit) <==> SameWay(c, d, bit + 1);
        if t.children[i].Absent? { NewGet(d, bit + 1); }
      }
    }
  }

  lemma NewGet(d: Rgba, bit: nat)
    requires bit <= 8
    ensures Shaped(NewNode(), bit) && Get(NewNode(), d, bit) == -1
  {
    NewShaped(bit);
  }

  /** The way through the tree is the colour. */
  lemma WayIsColour(c: Rgba, d: Rgba)
    ensures SameWay(c, d, 0) <==> c == d
  {
    if SameWay(c, d, 0) {
      forall k | 0 <= k < 8 ensures BitAt(c.r, k) == BitAt(d.r, k) && BitAt(c.g, k) == BitAt(d.g, k)
                                    && BitAt(c.b, k) == BitAt(d.b, k) && BitAt(c.a, k) == BitAt(d.a, k) {
        assert Child(c, k) == Child(d, k);
        ChildBits(c, k);
        ChildBits(d, k);
      }
      Buffers.SameBits(c.r, d.r);
      Buffers.SameBits(c.g, d.g);
      Buffers.SameBits(c.b, d.b);
      Buffers.SameBits(c.a, d.a);
    }
  }

  lemma ChildBits(c: Rgba, k: nat)
    ensures BitAt(c.r, k) <==> Child(c, k) / 8 == 1
    ensures BitAt(c.g, k) <==> Child(c, k) / 4 % 2 == 1
    ensures BitAt(c.b, k) <==> Child(c, k) / 2 % 2 == 1
    ensures BitAt(c.a, k) <==> Child(c, k) % 2 == 1
  {
    Nibble(Shr(c.r, k) % 2, Shr(c.g, k) % 2, Shr(c.b, k) % 2, Shr(c.a, k) % 2);
  }

  lemma Nibble(r: nat, g: nat, b: nat, a: nat)
    requires r < 2 && g < 2 && b < 2 && a < 2
    ensures (8 * r + 4 * g + 2 * b + a) / 8 == r && (8 * r + 4 * g + 2 * b + a) / 4 % 2 == g
    ensures (8 * r + 4 * g + 2 * b + a) / 2 % 2 == b && (8 * r + 4 * g + 2 * b + a) % 2 == a
  {}

  /** Lookup in a whole tree. */
  ghost function Index(t: ColorTree, c: Rgba): int
    requires Shaped(t, 0)
  {
    Get(t, c, 0)
  }

  /** Adding is updating a map. */
  lemma IndexAdd(t: ColorTree, c: Rgba, index: int, d: Rgba)
    requires Shaped(t, 0)
    ensures Index(Add(t, c, index, 0), d) == if c == d then index else Index(t, d)
  {
    hide Add, Get, SameWay, Shaped;
    GetAdd(t, c, index, d, 0);
    WayIsColour(c, d);
  }

  method ColorTreeGet(tree: ColorTree, c: Rgba) returns (index: int)
    requires Shaped(tree, 0)
    ensures index == Index(tree, c)
  {
    var t := tree;
    for bit := 0 to 8
      invariant t.Node? && Shaped(t, bit) && Get(t, c, bit) == Index(tree, c)
    {
      var i := Child(c, bit);
      if t.children[i].Absent? { return -1; }
      t := t.children[i];
    }
    index := t.index;
  }
}
