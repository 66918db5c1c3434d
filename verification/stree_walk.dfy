/** The in-order walk of stree's B+ tree: first leaf, separator for the second leaf,
    second leaf, and so on along the chain, each separator pointing to the front entry
    of the leaf it precedes. */
module StreeWalk {
  import opened StreeLeaf
  import opened StreeInner
  import opened StreeTree
  import opened StreeSplit
  import opened StreePath

  datatype Visit = AtLeaf(leaf: Ptr) | AtSep(sep: Sep)

  /** In-order through a node: children with the separators between them. */
  function Walk(m: Mem, n: Ptr): seq<Visit>
    decreases m.Level(n), 1, 0
  {
    if n in m.leaves then [AtLeaf(n)]
    else if n in m.inners && m.inners[n].size <= |m.inners[n].entries| && m.inners[n].size < |m.inners[n].children| then
      WalkKids(m, n, m.inners[n].size)
    else []
  }

  /** In-order through the children up to `i`. */
  function WalkKids(m: Mem, n: Ptr, i: nat): seq<Visit>
    requires n in m.inners && i <= |m.inners[n].entries| && i < |m.inners[n].children|
    decreases m.Level(n), 0, i
  {
    var c := m.inners[n].children[i];
    (if i == 0 then [] else WalkKids(m, n, i - 1) + [AtSep(m.inners[n].entries[i - 1])])
    + (if m.Level(c) < m.Level(n) then Walk(m, c) else [])
  }

  /** The leaves from `lo` to `hi` along the chain, each but the first after the
      separator that points to its front entry. */
  ghost function Along(m: Mem, v: View, lo: nat, hi: nat): seq<Visit>
    requires lo < hi <= |v.chain|
    decreases hi
  {
    (if hi == lo + 1 then [] else Along(m, v, lo, hi - 1) + [AtSep(FrontSep(m, v.chain[hi - 1]))])
    + [AtLeaf(v.chain[hi - 1])]
  }

  lemma {:induction false} AlongConcat(m: Mem, v: View, lo: nat, mid: nat, hi: nat)
    requires lo < mid < hi <= |v.chain|
    ensures Along(m, v, lo, hi) == Along(m, v, lo, mid) + [AtSep(FrontSep(m, v.chain[mid]))] + Along(m, v, mid, hi)
    decreases hi
  {
    if mid + 1 < hi { AlongConcat(m, v, lo, mid, hi - 1); }
  }

  /** The walk through a node is the stretch of the chain that the node covers. */
  lemma {:induction false} WalkIs(m: Mem, v: View, cap: nat, n: Ptr)
    requires ShapeOk(m, v, cap, 0) && (n in v.live || n in m.leaves)
    ensures v.Lo(n) < v.Hi(n) <= |v.chain| && Walk(m, n) == Along(m, v, v.Lo(n), v.Hi(n))
    decreases m.Level(n), 1, 0
  {
    if n in m.leaves {
      var j :| 0 <= j < |v.chain| && v.chain[j] == n;
      assert LeafAt(m, v, cap, j);
    } else {
      assert InnerOk(m, v, cap, 0, n) && KidOk(m, v, n, m.inners[n].size);
      WalkKidsAre(m, v, cap, n, m.inners[n].size);
      KidWithin(m, v, cap, 0, n, m.inners[n].size);
    }
  }

  lemma {:induction false} WalkKidsAre(m: Mem, v: View, cap: nat, n: Ptr, i: nat)
    requires ShapeOk(m, v, cap, 0) && n in v.live && InnerOk(m, v, cap, 0, n) && i <= m.inners[n].size
    ensures v.Lo(n) < v.Hi(m.inners[n].children[i]) <= |v.chain|
    ensures WalkKids(m, n, i) == Along(m, v, v.Lo(n), v.Hi(m.inners[n].children[i]))
    decreases m.Level(n), 0, i
  {
    var c := m.inners[n].children[i];
    assert KidOk(m, v, n, i);
    KidWithin(m, v, cap, 0, n, i);
    WalkIs(m, v, cap, c);
    if i > 0 {
      WalkKidsAre(m, v, cap, n, i - 1);
      assert SepOk(m, v, n, i - 1);
      AlongConcat(m, v, v.Lo(n), v.Lo(c), v.Hi(c));
    }
  }

  /** From the root, the walk meets every leaf once, in chain order, and between two
      leaves exactly one separator, which points to the front entry of the second. So
      the live separators and the leaves but the first are in bijection. */
  lemma WalkIsChain(m: Mem, v: View, cap: nat)
    requires Inv(m, v, cap)
    ensures Walk(m, m.root) == Along(m, v, 0, |v.chain|)
    ensures |Walk(m, m.root)| == 2 * |v.chain| - 1
    ensures forall j :: 0 <= j < |v.chain| ==> Walk(m, m.root)[2 * j] == AtLeaf(v.chain[j])
    ensures forall j :: 0 < j < |v.chain| ==> Walk(m, m.root)[2 * j - 1] == AtSep(FrontSep(m, v.chain[j]))
  {
    WalkIs(m, v, cap, m.root);
    AlongAt(m, v, |v.chain|);
  }

  lemma {:induction false} AlongAt(m: Mem, v: View, hi: nat)
    requires 0 < hi <= |v.chain|
    ensures |Along(m, v, 0, hi)| == 2 * hi - 1
    ensures forall j :: 0 <= j < hi ==> Along(m, v, 0, hi)[2 * j] == AtLeaf(v.chain[j])
    ensures forall j :: 0 < j < hi ==> Along(m, v, 0, hi)[2 * j - 1] == AtSep(FrontSep(m, v.chain[j]))
  {
    if hi > 1 { AlongAt(m, v, hi - 1); }
  }

  /** No two separators of inner nodes in use point to the same leaf, so an erased key
      matches at most one inner node. */
  lemma SeparatorsDiffer(m: Mem, v: View, cap: nat, n: Ptr, i: nat, n': Ptr, i': nat)
    requires Inv(m, v, cap) && n in v.live && n' in v.live
    requires n in m.inners && i < m.inners[n].size <= |m.inners[n].entries|
    requires n' in m.inners && i' < m.inners[n'].size <= |m.inners[n'].entries|
    requires m.inners[n].entries[i].leaf == m.inners[n'].entries[i'].leaf
    ensures n == n' && i == i'
  {
    assert InnerOk(m, v, cap, 0, n) && InnerOk(m, v, cap, 0, n') && SepOk(m, v, n, i) && SepOk(m, v, n', i');
    var x, x' := v.Lo(m.inners[n].children[i + 1]), v.Lo(m.inners[n'].children[i' + 1]);
    assert LeafAt(m, v, cap, x) && LeafAt(m, v, cap, x');
    if n == n' && i < i' { KidsAscend(m, v, cap, 0, n, i + 1, i' + 1); }
    if n == n' && i' < i { KidsAscend(m, v, cap, 0, n, i' + 1, i + 1); }
  }
}
