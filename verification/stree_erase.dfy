/** What an erase does to stree's B+ tree: an entry leaves its leaf, an empty leaf leaves
    the tree, and an inner node with one child left gives way to that child. */
module StreeErase {
  import opened Keys
  import opened StreeLeaf
  import opened StreeInner
  import opened StreeListing
  import opened StreeTree
  import opened StreeInsert
  import opened StreeSplit
  import opened StreeSplitInner
  import opened StreePath

  // ------------------------------------------------------------ an entry out of a leaf

  /** leaf_node_t::erase at a known place, with the tree's counter. */
  function RemoveEntry(m: Mem, p: Ptr, pos: nat): Mem
    requires p in m.leaves && pos < m.leaves[p].size <= |m.leaves[p].idxs| && m.size > 0
  {
    m.(leaves := m.leaves[p := Remove(m.leaves[p], pos)], size := m.size - 1)
  }

  /** Entry `pos` of leaf `j`. */
  ghost predicate HasEntry(m: Mem, v: View, cap: nat, j: nat, pos: nat) {
    j < |v.chain| && v.chain[j] in m.leaves && Shaped(m.leaves[v.chain[j]], cap) && pos < m.leaves[v.chain[j]].size
  }

  lemma RemoveRows(l: Leaf, cap: nat, pos: nat)
    requires Shaped(l, cap) && pos < l.size
    ensures var l' := Remove(l, pos);
            && Shaped(l', cap) && Rows(l') == ErasedAt(Rows(l), pos)
            && (pos > 0 ==> l'.idxs[0] == l.idxs[0])
  {
    var l' := Remove(l, pos);
    RemoveIdxs(l, cap, pos);
    hide Permutation, Remove;
    forall i | 0 <= i < l'.size
      ensures Rows(l')[i] == ErasedAt(Rows(l), pos)[i]
    {
      assert l'.idxs[i] == l.idxs[RemoveFrom(pos, l.size, i)];
    }
  }

  /** The listing loses exactly that entry. */
  lemma RemoveListing(m: Mem, v: View, cap: nat, j: nat, pos: nat)
    requires Inv(m, v, cap) && HasEntry(m, v, cap, j, pos)
    ensures m.size > 0 && Offset(m, v, j) + pos < |Listing(m, v.chain)|
    ensures Listing(RemoveEntry(m, v.chain[j], pos), v.chain) == ErasedAt(Listing(m, v.chain), Offset(m, v, j) + pos)
    ensures Listing(m, v.chain)[Offset(m, v, j) + pos] == RowsAt(m, v.chain[j])[pos]
  {
    hide Inv, Listing, Remove, Permutation, Rows;
    var p := v.chain[j];
    InvChain(m, v, cap);
    RowPlace(m, v.chain, j, pos);
    var m' := RemoveEntry(m, p, pos);
    RemoveRows(m.leaves[p], cap, pos);
    OthersSame(m, v, cap, j, m');
    ListingAround(m, v.chain, j);
    ListingAround(m', v.chain, j);
    ErasedMiddle(Listing(m, v.chain[..j]), RowsAt(m, p), Listing(m, v.chain[j + 1..]), pos);
  }

  /** An entry that is not the front of a later leaf goes without a change above. */
  lemma RemoveInside(m: Mem, v: View, cap: nat, j: nat, pos: nat)
    requires Inv(m, v, cap) && HasEntry(m, v, cap, j, pos) && m.size > 0
    requires j == 0 || pos > 0
    requires m.leaves[v.chain[j]].size > 1 || |v.chain| == 1
    ensures ShapeOk(RemoveEntry(m, v.chain[j], pos), v, cap, 0)
  {
    var m' := RemoveEntry(m, v.chain[j], pos);
    forall i | 0 <= i < |v.chain|
      ensures LeafAt(m', v, cap, i) && (i > 0 ==> FrontSep(m', v.chain[i]) == FrontSep(m, v.chain[i]))
    {
      LeafRemoved(m, v, cap, j, pos, i);
    }
    hide Remove, FrontSep, LeafAt;
    ShapeFrame(m, m', v, cap, 0);
  }

  lemma LeafRemoved(m: Mem, v: View, cap: nat, j: nat, pos: nat, i: nat)
    requires ShapeOk(m, v, cap, 0) && HasEntry(m, v, cap, j, pos) && m.size > 0 && i < |v.chain|
    requires m.leaves[v.chain[j]].size > 1 || |v.chain| == 1
    ensures var m' := RemoveEntry(m, v.chain[j], pos);
            LeafAt(m', v, cap, i) && (i != j || pos > 0 ==> FrontSep(m', v.chain[i]) == FrontSep(m, v.chain[i]))
  {
    hide Remove, ShapeOk, Permutation, Rows;
    RemoveRows(m.leaves[v.chain[j]], cap, pos);
    RemoveLinks(m.leaves[v.chain[j]], pos);
    ShapeLeaf(m, v, cap, i);
    ShapeLeaf(m, v, cap, j);
  }

  lemma ShapeLeaf(m: Mem, v: View, cap: nat, i: nat)
    requires ShapeOk(m, v, cap, 0) && i < |v.chain|
    ensures LeafAt(m, v, cap, i)
  {
  }

  lemma RemoveLinks(l: Leaf, pos: nat)
    requires pos < l.size <= |l.idxs|
    ensures var l' := Remove(l, pos);
            l'.size == l.size - 1 && l'.prev == l.prev && l'.next == l.next && l'.entries == l.entries
  {
  }

  // ------------------------------------------------------------ a new front

  /** Separator `s` of node `t` is the one for leaf `j`. */
  ghost predicate Owns(m: Mem, v: View, cap: nat, t: Ptr, s: nat, j: nat) {
    && t in v.live && t in m.inners && Sized(m.inners[t], cap) && s < m.inners[t].size
    && v.Lo(m.inners[t].children[s + 1]) == j
  }

  /** Points separator `s` of `t` to the front of leaf `p`. */
  function Refront(m: Mem, t: Ptr, s: nat, p: Ptr): Mem
    requires t in m.inners && s < |m.inners[t].entries|
  {
    m.(inners := m.inners[t := Replace(m.inners[t], s, FrontSep(m, p))])
  }

  /** Where only the front of leaf `j` has changed, its separator is all that needs to
      follow. */
  lemma RefrontOk(m: Mem, m1: Mem, v: View, cap: nat, t: Ptr, s: nat, j: nat)
    requires ShapeOk(m, v, cap, 0) && 1 <= j < |v.chain| && Owns(m, v, cap, t, s, j)
    requires m1.inners == m.inners && m1.root == m.root && m1.leaves.Keys == m.leaves.Keys
    requires forall x :: 0 <= x < |v.chain| ==> LeafAt(m1, v, cap, x)
    requires forall x :: 1 <= x < |v.chain| && x != j ==> FrontSep(m1, v.chain[x]) == FrontSep(m, v.chain[x])
    ensures ShapeOk(Refront(m1, t, s, v.chain[j]), v, cap, 0)
  {
    var m' := Refront(m1, t, s, v.chain[j]);
    forall x | 0 <= x < |v.chain|
      ensures LeafAt(m', v, cap, x)
    {
      assert LeafAt(m1, v, cap, x);
    }
    assert ChainOk(m', v, cap) by {
      assert forall p :: p in m'.leaves ==> p in m.leaves.Keys;
    }
    forall n | n in v.live
      ensures InnerOk(m', v, cap, 0, n)
    {
      RefrontInner(m, m1, v, cap, t, s, j, n);
    }
  }

  lemma RefrontInner(m: Mem, m1: Mem, v: View, cap: nat, t: Ptr, s: nat, j: nat, n: Ptr)
    requires ShapeOk(m, v, cap, 0) && 1 <= j < |v.chain| && Owns(m, v, cap, t, s, j) && n in v.live
    requires m1.inners == m.inners && m1.root == m.root && m1.leaves.Keys == m.leaves.Keys
    requires forall x :: 1 <= x < |v.chain| && x != j ==> FrontSep(m1, v.chain[x]) == FrontSep(m, v.chain[x])
    ensures InnerOk(Refront(m1, t, s, v.chain[j]), v, cap, 0, n)
  {
    var m' := Refront(m1, t, s, v.chain[j]);
    assert InnerOk(m, v, cap, 0, n) && InnerOk(m, v, cap, 0, t);
    var node := m.inners[n];
    hide FrontSep;
    forall y | 0 <= y <= node.size
      ensures KidOk(m', v, n, y)
    {
      assert KidOk(m, v, n, y);
      var c := node.children[y];
      assert c in m.leaves.Keys <==> c in m'.leaves;
      assert n in m.leaves.Keys <==> n in m'.leaves;
    }
    forall y | 0 <= y < node.size
      ensures SepOk(m', v, n, y)
    {
      assert SepOk(m, v, n, y) && SepOk(m, v, t, s);
      if n == t && y < s { KidsAscend(m, v, cap, 0, t, y + 1, s + 1); }
      if n == t && s < y { KidsAscend(m, v, cap, 0, t, s + 1, y + 1); }
      FrontSepLeaves(m1, m', v.chain[j]);
      FrontSepLeaves(m1, m', v.chain[v.Lo(node.children[y + 1])]);
    }
  }

  lemma FrontSepLeaves(m: Mem, m': Mem, p: Ptr)
    requires m'.leaves == m.leaves
    ensures FrontSep(m', p) == FrontSep(m, p)
  {
  }

  /** The front entry of a later leaf goes, and its separator follows the new front. */
  lemma RemoveFront(m: Mem, v: View, cap: nat, j: nat, t: Ptr, s: nat)
    requires Inv(m, v, cap) && HasEntry(m, v, cap, j, 0) && m.size > 0
    requires j > 0 && m.leaves[v.chain[j]].size > 1 && Owns(m, v, cap, t, s, j)
    ensures ShapeOk(Refront(RemoveEntry(m, v.chain[j], 0), t, s, v.chain[j]), v, cap, 0)
  {
    var m1 := RemoveEntry(m, v.chain[j], 0);
    forall i | 0 <= i < |v.chain|
      ensures LeafAt(m1, v, cap, i) && (i != j ==> FrontSep(m1, v.chain[i]) == FrontSep(m, v.chain[i]))
    {
      LeafRemoved(m, v, cap, j, 0, i);
    }
    hide Remove, FrontSep, LeafAt;
    RefrontOk(m, m1, v, cap, t, s, j);
  }

  // ------------------------------------------------------------ who owns a separator

  /** No two separators point to the same leaf. */
  lemma OneOwner(m: Mem, v: View, cap: nat, t: Ptr, s: nat, t': Ptr, s': nat, j: nat)
    requires ShapeOk(m, v, cap, 0) && Owns(m, v, cap, t, s, j) && Owns(m, v, cap, t', s', j)
    ensures t == t' && s == s'
  {
    assert InnerOk(m, v, cap, 0, t) && InnerOk(m, v, cap, 0, t');
    assert SepOk(m, v, t, s) && SepOk(m, v, t', s');
    if s < s' { KidsAscend(m, v, cap, 0, t, s + 1, s' + 1); }
    if s' < s { KidsAscend(m, v, cap, 0, t, s' + 1, s + 1); }
  }
}
