/** What erase does with a root that is no longer needed: it is replaced by its only child
    and never freed. */
module StreeLost {
  import opened Keys
  import opened StreeLeaf
  import opened StreeInner
  import opened StreeListing
  import opened StreeTree
  import opened StreeInsert
  import opened StreeFind
  import opened StreePath
  import opened StreeQueries
  import opened Stree

  /** A root above two leaves or more is an inner node. */
  lemma RootAbove(m: Mem, v: View, cap: nat)
    requires Inv(m, v, cap) && |v.chain| > 1
    ensures m.root !in m.leaves
  {
    forall j | 0 <= j < |v.chain| ensures v.chain[j] != m.root { assert LeafAt(m, v, cap, j); }
  }

  /** The root of an empty tree is a leaf. */
  lemma RootOfNothing(m: Mem, v: View, cap: nat)
    requires Inv(m, v, cap) && Contents(m, v) == map[]
    ensures m.root in m.leaves
  {
    InvAscends(m, v, cap);
    MapOfIs(Listing(m, v.chain));
    OneLeaf(m, v, cap);
    NoInner(m, v, cap);
  }

  /** An inner node has a separator, and so two leaves below it. */
  lemma InnerAbove(m: Mem, v: View, cap: nat, n: Ptr)
    requires Inv(m, v, cap) && n in v.live
    ensures |v.chain| > 1
  {
    assert InnerOk(m, v, cap, 0, n) && SepOk(m, v, n, 0);
  }

  lemma NoInner(m: Mem, v: View, cap: nat)
    requires Inv(m, v, cap) && |v.chain| == 1
    ensures v.live == {}
  {
    hide Inv;
    if n :| n in v.live { InnerAbove(m, v, cap, n); }
  }

  lemma OneLeaf(m: Mem, v: View, cap: nat)
    requires Inv(m, v, cap) && |Listing(m, v.chain)| == 0
    ensures |v.chain| == 1
  {
    assert LeafAt(m, v, cap, 0);
    if m.leaves[v.chain[0]].size > 0 { RowPlace(m, v.chain, 0, 0); }
  }

  lemma NoKeys(m: map<Key, Value>)
    requires forall k :: k !in m
    ensures m == map[]
  {
    var none: map<Key, Value> := map[];
    forall k ensures Lookup(m, k) == Lookup(none, k) { assert k !in m; }
    SameMap(m, none);
  }

  /** Four puts into an empty tree of capacity 3 and four erases leave an empty tree, and an
      inner node that nothing refers to. */
  method RootIsLost(blank: Entry, noSep: Sep) returns (t: BTree)
    ensures t.Valid() && t.Map() == map[] && t.Lost() != {}
  {
    hide Inv, Contents, LostNodes;
    t := FourKeys(blank, noSep);
    RootAbove(t.mem, t.view, t.cap);
    ghost var r := t.mem.root;
    var k := 1.0;
    while k <= 4.0
      invariant t.Valid() && fresh(t) && r !in t.mem.leaves && (t.mem.root == r || r in t.Lost())
      invariant k in {1.0, 2.0, 3.0, 4.0, 5.0} && forall q :: q in t.Map() ==> q in {1.0, 2.0, 3.0, 4.0} && k <= q
      decreases 5.0 - k
    {
      var _ := t.Erase(k);
      k := k + 1.0;
    }
    NoKeys(t.Map());
    RootOfNothing(t.mem, t.view, t.cap);
  }
}
