/** An inner node of stree's B+ tree that is left with one child gives way to it. */
module StreeCollapse {
  import opened Keys
  import opened StreeLeaf
  import opened StreeInner
  import opened StreeListing
  import opened StreeTree
  import opened StreeSplit
  import opened StreePath
  import opened StreeErase

  /** A parent that still has a separator is no exception. */
  lemma NotWeak(m: Mem, v: View, cap: nat, n: Ptr)
    requires ShapeOk(m, v, cap, n) && (n in v.live ==> n in m.inners && m.inners[n].size >= 1)
    ensures ShapeOk(m, v, cap, 0)
  {
    forall x | x in v.live
      ensures InnerOk(m, v, cap, 0, x)
    {
      assert InnerOk(m, v, cap, n, x);
    }
  }

  /** Node `n` has one child left. */
  ghost predicate Lone(m: Mem, v: View, cap: nat, n: Ptr) {
    ShapeOk(m, v, cap, n) && n in v.live && InnerOk(m, v, cap, n, n) && m.inners[n].size == 0
  }

  ghost function WithoutNode(v: View, n: Ptr): View {
    v.(live := v.live - {n})
  }

  /** The lone child becomes the root. */
  lemma CollapseRootOk(m: Mem, v: View, cap: nat, n: Ptr)
    requires Lone(m, v, cap, n) && m.root == n
    ensures var m', v' := m.(root := m.inners[n].children[0]), WithoutNode(v, n);
            ShapeOk(m', v', cap, 0) && v'.chain == v.chain && Listing(m', v'.chain) == Listing(m, v.chain)
  {
    var m', v' := m.(root := m.inners[n].children[0]), WithoutNode(v, n);
    ListingFrame(m, m', v.chain);
    assert KidOk(m, v, n, 0);
    SplitChain(m, m', v, cap);
    ChainSame(m', v, v', cap);
    hide Listing, ChainOk;
    forall x | x in v'.live
      ensures InnerOk(m', v', cap, 0, x)
    {
      CollapsedBeside(m, v, cap, n, x);
    }
  }

  lemma ChainSame(m: Mem, v: View, v': View, cap: nat)
    requires ChainOk(m, v, cap) && v'.chain == v.chain && v'.owner == v.owner && v'.lo == v.lo && v'.hi == v.hi
    ensures ChainOk(m, v', cap)
  {
    forall j | 0 <= j < |v.chain|
      ensures LeafAt(m, v', cap, j)
    {
      assert LeafAt(m, v, cap, j);
    }
  }

  lemma CollapsedBeside(m: Mem, v: View, cap: nat, n: Ptr, x: Ptr)
    requires Lone(m, v, cap, n) && m.root == n && x in v.live && x != n
    ensures InnerOk(m.(root := m.inners[n].children[0]), WithoutNode(v, n), cap, 0, x)
  {
    var m', v' := m.(root := m.inners[n].children[0]), WithoutNode(v, n);
    assert InnerOk(m, v, cap, n, x);
    hide ShapeOk;
    forall y | 0 <= y <= m.inners[x].size
      ensures KidOk(m', v', x, y)
    {
      RootNoKid(m, v, cap, n, x, y);
      assert KidOk(m, v, x, y);
    }
    forall y | 0 <= y < m.inners[x].size
      ensures SepOk(m', v', x, y)
    {
      assert SepOk(m, v, x, y);
      FrontSepLeaves(m, m', v.chain[v.Lo(m.inners[x].children[y + 1])]);
    }
  }

  // ------------------------------------------------------------ below another node

  /** delete_inner_ext: child `y` of `g`, the lone node `n`, is replaced by its child. */
  function CollapseInner(m: Mem, n: Ptr, g: Ptr, y: nat): Mem
    requires n in m.inners && g in m.inners && y < |m.inners[g].children| && |m.inners[n].children| > 0
  {
    m.(inners := m.inners[g := m.inners[g].(children := m.inners[g].children[y := m.inners[n].children[0]])] - {n})
  }

  ghost function CollapseView(m: Mem, v: View, n: Ptr, g: Ptr): View
    requires n in m.inners && |m.inners[n].children| > 0
  {
    Adopted(v, n, m.inners[n].children[0], g)
  }

  /** Node `n` is gone and `g` is the parent of `c`. */
  ghost function Adopted(v: View, n: Ptr, c: Ptr, g: Ptr): View {
    v.(live := v.live - {n}, parent := v.parent[c := g])
  }

  ghost predicate LoneBelow(m: Mem, v: View, cap: nat, n: Ptr, g: Ptr, y: nat) {
    Lone(m, v, cap, n) && g != n && IsKid(m, v, cap, g, y, n)
  }

  lemma CollapseInnerOk(m: Mem, v: View, cap: nat, n: Ptr, g: Ptr, y: nat)
    requires LoneBelow(m, v, cap, n, g, y)
    ensures var m', v' := CollapseInner(m, n, g, y), CollapseView(m, v, n, g);
            ShapeOk(m', v', cap, 0) && v'.chain == v.chain && Listing(m', v'.chain) == Listing(m, v.chain)
  {
    var m', v' := CollapseInner(m, n, g, y), CollapseView(m, v, n, g);
    ListingFrame(m, m', v.chain);
    assert InnerOk(m, v, cap, n, g);
    RootNoKid(m, v, cap, n, g, y);
    SplitChain(m, m', v, cap);
    ChainSame(m', v, v', cap);
    hide Listing, ChainOk;
    forall x | x in v'.live
      ensures InnerOk(m', v', cap, 0, x)
    {
      CollapsedInner(m, v, cap, n, g, y, x);
    }
  }

  lemma CollapsedInner(m: Mem, v: View, cap: nat, n: Ptr, g: Ptr, y: nat, x: Ptr)
    requires LoneBelow(m, v, cap, n, g, y) && x in v.live && x != n
    ensures InnerOk(CollapseInner(m, n, g, y), CollapseView(m, v, n, g), cap, 0, x)
  {
    hide CollapseInner, CollapseView, KidOk, SepOk, ShapeOk;
    BothInner(m, v, cap, n, g, y, x);
    var m', v' := CollapseInner(m, n, g, y), CollapseView(m, v, n, g);
    CollapsedKid(m, v, cap, n, g, y, x, 0);
    forall z: nat | z <= m.inners[x].size
      ensures KidOk(m', v', x, z)
    {
      CollapsedKidOk(m, v, cap, n, g, y, x, z);
    }
    forall z: nat | z < m.inners[x].size
      ensures SepOk(m', v', x, z)
    {
      CollapsedSepOk(m, v, cap, n, g, y, x, z);
    }
    CollapsedThere(m, v, cap, n, g, y, x);
  }

  lemma CollapsedThere(m: Mem, v: View, cap: nat, n: Ptr, g: Ptr, y: nat, x: Ptr)
    requires LoneBelow(m, v, cap, n, g, y) && x in v.live && x != n && InnerOk(m, v, cap, n, x)
    ensures var m' := CollapseInner(m, n, g, y);
            x != 0 && x in m'.inners && x !in m'.leaves && Sized(m'.inners[x], cap) && m'.inners[x].size >= 1
  {
  }

  lemma BothInner(m: Mem, v: View, cap: nat, n: Ptr, g: Ptr, y: nat, x: Ptr)
    requires LoneBelow(m, v, cap, n, g, y) && x in v.live && x != n
    ensures InnerOk(m, v, cap, n, x) && InnerOk(m, v, cap, n, g) && n in m.inners && |m.inners[n].children| > 0
  {
    assert InnerOk(m, v, cap, n, x) && InnerOk(m, v, cap, n, g);
  }

  lemma CollapsedKidOk(m: Mem, v: View, cap: nat, n: Ptr, g: Ptr, y: nat, x: Ptr, z: nat)
    requires LoneBelow(m, v, cap, n, g, y) && x in v.live && x != n && InnerOk(m, v, cap, n, x) && z <= m.inners[x].size
    ensures var m', v' := CollapseInner(m, n, g, y), CollapseView(m, v, n, g);
            x in m'.inners && z < |m'.inners[x].children| && KidOk(m', v', x, z)
  {
    CollapsedKid(m, v, cap, n, g, y, x, z);
    if z > 0 { CollapsedKid(m, v, cap, n, g, y, x, z - 1); }
    assert KidOk(m, v, x, z);
  }

  lemma CollapsedSepOk(m: Mem, v: View, cap: nat, n: Ptr, g: Ptr, y: nat, x: Ptr, z: nat)
    requires LoneBelow(m, v, cap, n, g, y) && x in v.live && x != n && InnerOk(m, v, cap, n, x) && z < m.inners[x].size
    ensures var m', v' := CollapseInner(m, n, g, y), CollapseView(m, v, n, g);
            x in m'.inners && z < |m'.inners[x].entries| && z + 1 < |m'.inners[x].children| && SepOk(m', v', x, z)
  {
    CollapsedKid(m, v, cap, n, g, y, x, z + 1);
    assert SepOk(m, v, x, z);
    FrontSepLeaves(m, CollapseInner(m, n, g, y), v.chain[v.Lo(m.inners[x].children[z + 1])]);
  }

  /** The child in each place afterwards: the same interval, one parent. */
  lemma CollapsedKid(m: Mem, v: View, cap: nat, n: Ptr, g: Ptr, y: nat, x: Ptr, z: nat)
    requires LoneBelow(m, v, cap, n, g, y) && x in v.live && x != n && InnerOk(m, v, cap, n, x) && z <= m.inners[x].size
    ensures var m', v', s := CollapseInner(m, n, g, y), CollapseView(m, v, n, g), m.inners[n].children[0];
            var c := if x == g && z == y then s else m.inners[x].children[z];
            && x in m'.inners && m'.inners[x].size == m.inners[x].size && m'.inners[x].entries == m.inners[x].entries
            && |m'.inners[x].children| == |m.inners[x].children| && m'.inners[x].children[z] == c
            && (c in v'.live || c in m'.leaves) && m'.Level(c) < m'.Level(x) && v'.Parent(c) == x
            && v'.Lo(c) == v.Lo(m.inners[x].children[z]) && v'.Hi(c) == v.Hi(m.inners[x].children[z])
            && v'.Lo(x) == v.Lo(x) && v'.Hi(x) == v.Hi(x)
  {
    assert KidOk(m, v, x, z) && KidOk(m, v, n, 0) && KidOk(m, v, g, y);
    if x == g && z < y { KidDiffers(m, v, cap, n, g, z, y); }
    if x == g && y < z { KidDiffers(m, v, cap, n, g, y, z); }
    var c := m.inners[x].children[z];
    assert c in v.live ==> InnerOk(m, v, cap, n, c);
    assert m.inners[n].children[0] in v.live ==> InnerOk(m, v, cap, n, m.inners[n].children[0]);
  }
}
