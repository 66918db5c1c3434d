/** What the persistent leaves alone say, in any list order: enough to rebuild the tree. */
module Tree3Recover {
  import opened Keys
  import opened Tree3Shape
  import opened Tree3Pool
  import opened Tree3State

  /** Every key of the one leaf is below every key of the other. */
  ghost predicate Below(a: Slots, b: Slots) {
    forall i, j :: 0 <= i < |a| && 0 <= j < |b| && a[i].Some? && b[j].Some? ==> a[i].value.key < b[j].value.key
  }

  ghost predicate SlotsGood(hf: Key -> nat, slots: Slots) {
    && |slots| == LEAF_KEYS && NoDoubles(slots)
    && forall i :: 0 <= i < LEAF_KEYS && slots[i].Some? ==> slots[i].value.hash == hf(slots[i].value.key)
  }

  ghost predicate Apart(pool: Pool, p: Ptr, q: Ptr)
    requires p in pool.leaves && q in pool.leaves
  {
    Below(pool.leaves[p].slots, pool.leaves[q].slots) || Below(pool.leaves[q].slots, pool.leaves[p].slots)
  }

  /** The invariant of the persistent leaves: their key ranges are pairwise separated. */
  ghost predicate PersistOk(hf: Key -> nat, pool: Pool, order: seq<Ptr>) {
    && HashOk(hf) && ListOk(pool, order)
    && (forall p :: p in pool.leaves ==> SlotsGood(hf, pool.leaves[p].slots))
    && forall p, q :: p in pool.leaves && q in pool.leaves && p != q ==> Apart(pool, p, q)
  }

  // ------------------------------------------------------------ every state leaves it

  lemma UsedLeaf(hf: Key -> nat, s: St, v: View, g: Gap, order: seq<Ptr>, p: Ptr) returns (j: nat)
    requires Inv(hf, s, v, g, order) && p in s.pool.leaves && p !in s.prealloc
    ensures s.tree.top != 0 && j < |v.chain| && v.chain[j] in s.nodes && s.nodes[v.chain[j]].leaf == p
    ensures LeafOk(hf, s, v, j) && SlotsOf(s, v.chain[j]) == s.pool.leaves[p].slots
  {
    hide ShapeOk, ListOk, Mirrors, NoDoubles, KeysBelong;
    LeafNotNull(s.pool, order, p);
    var x :| x in s.nodes && s.nodes[x].leaf == p;
    j :| 0 <= j < |v.chain| && v.chain[j] == x;
    assert LeafOk(hf, s, v, j);
  }

  lemma SpareSlots(hf: Key -> nat, s: St, v: View, g: Gap, order: seq<Ptr>, p: Ptr)
    requires Inv(hf, s, v, g, order) && p in s.prealloc
    ensures p in s.pool.leaves && |s.pool.leaves[p].slots| == LEAF_KEYS
    ensures forall i :: 0 <= i < LEAF_KEYS ==> s.pool.leaves[p].slots[i] == None
  {
    hide ShapeOk, ListOk, LeavesOk;
  }

  lemma SlotsKept(hf: Key -> nat, s: St, v: View, g: Gap, order: seq<Ptr>, p: Ptr)
    requires Inv(hf, s, v, g, order) && p in s.pool.leaves
    ensures SlotsGood(hf, s.pool.leaves[p].slots)
  {
    hide Inv;
    if p in s.prealloc {
      SpareSlots(hf, s, v, g, order, p);
    } else {
      var j := UsedLeaf(hf, s, v, g, order, p);
    }
  }

  /** Leaves stand apart because a separator stands between them. */
  lemma LeavesApart(hf: Key -> nat, s: St, v: View, g: Gap, order: seq<Ptr>, p: Ptr, q: Ptr)
    requires Inv(hf, s, v, g, order) && p in s.pool.leaves && q in s.pool.leaves && p != q
    ensures Apart(s.pool, p, q)
  {
    hide Inv, Mirrors, NoDoubles, ChainOk;
    if p in s.prealloc {
      SpareSlots(hf, s, v, g, order, p);
    } else if q in s.prealloc {
      SpareSlots(hf, s, v, g, order, q);
    } else {
      var i := UsedLeaf(hf, s, v, g, order, p);
      var j := UsedLeaf(hf, s, v, g, order, q);
      InvNodes(hf, s, v, g, order, 0) by { InvIs(hf, s, v, g, order); }
      SepSize(v);
      if i < j {
        SepLe(v, i + 1, j);
      } else {
        SepLe(v, j + 1, i);
      }
    }
  }

  lemma InvIs(hf: Key -> nat, s: St, v: View, g: Gap, order: seq<Ptr>)
    requires Inv(hf, s, v, g, order)
    ensures InvT(hf, s, v, g, order, 0) && HashOk(hf) && ListOk(s.pool, order)
  {
    hide ShapeOk, LeavesOk, ListOk;
  }

  /** Whatever the tree above, the persistent leaves are in order. */
  lemma InvPersists(hf: Key -> nat, s: St, v: View, g: Gap, order: seq<Ptr>)
    requires Inv(hf, s, v, g, order)
    ensures PersistOk(hf, s.pool, order)
  {
    hide Inv, ListOk, SlotsGood, Apart;
    InvIs(hf, s, v, g, order);
    forall p | p in s.pool.leaves ensures SlotsGood(hf, s.pool.leaves[p].slots) { SlotsKept(hf, s, v, g, order, p); }
    forall p, q | p in s.pool.leaves && q in s.pool.leaves && p != q ensures Apart(s.pool, p, q) {
      LeavesApart(hf, s, v, g, order, p, q);
    }
  }

  // ------------------------------------------------------------ what Recover finds

  /** KVRecoveredLeaf: the address of the new leaf node and the highest key in it. */
  datatype Rec = Rec(node: Ptr, max: Key)

  ghost predicate IsMax(slots: Slots, max: Key) {
    && (exists i :: 0 <= i < |slots| && slots[i].Some? && slots[i].value.key == max)
    && forall i :: 0 <= i < |slots| && slots[i].Some? ==> slots[i].value.key <= max
  }

  ghost predicate RecOk(hf: Key -> nat, pool: Pool, nodes: map<Ptr, LeafNode>, r: Rec) {
    && r.node != 0 && r.node in nodes && nodes[r.node].leaf in pool.leaves
    && Mirrors(hf, nodes[r.node], pool.leaves[nodes[r.node].leaf].slots)
    && IsMax(pool.leaves[nodes[r.node].leaf].slots, r.max)
  }

  ghost predicate DistinctNodes(recs: seq<Rec>) {
    forall i, j :: 0 <= i < j < |recs| ==> recs[i].node != recs[j].node
  }

  ghost predicate Listed(recs: seq<Rec>, x: Ptr) {
    exists i :: 0 <= i < |recs| && recs[i].node == x
  }

  /** The leaves read so far: a node for each that is not empty. */
  ghost predicate Found(hf: Key -> nat, pool: Pool, seen: seq<Ptr>, nodes: map<Ptr, LeafNode>, recs: seq<Rec>,
                        spare: seq<Ptr>) {
    && (forall i :: 0 <= i < |recs| ==> RecOk(hf, pool, nodes, recs[i])) && DistinctNodes(recs)
    && (forall x :: x in nodes <==> Listed(recs, x))
    && (forall x, y :: x in nodes && y in nodes && nodes[x].leaf == nodes[y].leaf ==> x == y)
    && (forall x :: x in nodes ==> nodes[x].leaf in seen && nodes[x].leaf !in spare)
    && (forall p :: p in spare ==> p in seen && p in pool.leaves && pool.leaves[p].slots == EmptySlots())
    && (forall i, j :: 0 <= i < j < |spare| ==> spare[i] != spare[j])
    && forall p :: p in seen ==> p in spare || exists x :: x in nodes && nodes[x].leaf == p
  }

  lemma FoundNone(hf: Key -> nat, pool: Pool)
    ensures Found(hf, pool, [], map[], [], [])
  {
    assert forall x :: !Listed([], x);
  }

  lemma FoundEmpty(hf: Key -> nat, pool: Pool, seen: seq<Ptr>, nodes: map<Ptr, LeafNode>, recs: seq<Rec>,
                   spare: seq<Ptr>, p: Ptr)
    requires Found(hf, pool, seen, nodes, recs, spare) && p !in seen && p in pool.leaves
    requires pool.leaves[p].slots == EmptySlots()
    ensures Found(hf, pool, seen + [p], nodes, recs, spare + [p])
  {
    hide RecOk, Listed;
  }

  lemma FoundLeaf(hf: Key -> nat, pool: Pool, seen: seq<Ptr>, nodes: map<Ptr, LeafNode>, recs: seq<Rec>,
                  spare: seq<Ptr>,
                  p: Ptr, x: Ptr, node: LeafNode, max: Key)
    requires Found(hf, pool, seen, nodes, recs, spare) && p !in seen && p in pool.leaves && x != 0 && x !in nodes
    requires node.leaf == p && Mirrors(hf, node, pool.leaves[p].slots) && IsMax(pool.leaves[p].slots, max)
    ensures Found(hf, pool, seen + [p], nodes[x := node], recs + [Rec(x, max)], spare)
  {
    hide Mirrors, IsMax;
    var nodes', recs' := nodes[x := node], recs + [Rec(x, max)];
    forall i | 0 <= i < |recs'| ensures RecOk(hf, pool, nodes', recs'[i]) {
      if i < |recs| { assert RecOk(hf, pool, nodes, recs[i]); }
    }
    forall i | 0 <= i < |recs| ensures recs[i].node in nodes { assert RecOk(hf, pool, nodes, recs[i]); }
    forall y ensures y in nodes' <==> Listed(recs', y) {
      if i :| 0 <= i < |recs| && recs[i].node == y { assert recs'[i].node == y; }
      assert recs'[|recs|].node == x;
    }
    forall q | q in seen + [p] ensures q in spare || exists y :: y in nodes' && nodes'[y].leaf == q {
      if q == p {
        assert x in nodes' && nodes'[x].leaf == p;
      } else if q !in spare {
        var y :| y in nodes && nodes[y].leaf == q;
        assert y in nodes' && nodes'[y].leaf == q;
      }
    }
  }

  ghost predicate SortedRecs(recs: seq<Rec>) {
    forall i, j :: 0 <= i < j < |recs| ==> recs[i].max <= recs[j].max
  }

  ghost predicate SameRecs(a: seq<Rec>, b: seq<Rec>) {
    |a| == |b| && forall r :: r in a <==> r in b
  }

  /** Sorting only puts the recovered leaves in another order. */
  lemma FoundSorted(hf: Key -> nat, pool: Pool, seen: seq<Ptr>, nodes: map<Ptr, LeafNode>, recs: seq<Rec>,
                    spare: seq<Ptr>, a: seq<Rec>)
    requires Found(hf, pool, seen, nodes, recs, spare) && SameRecs(a, recs) && DistinctNodes(a)
    ensures Found(hf, pool, seen, nodes, a, spare)
  {
    hide RecOk;
    forall i | 0 <= i < |a| ensures RecOk(hf, pool, nodes, a[i]) {
      assert a[i] in recs;
      var y :| 0 <= y < |recs| && recs[y] == a[i];
    }
    forall x ensures Listed(a, x) <==> Listed(recs, x) {
      if i :| 0 <= i < |a| && a[i].node == x {
        assert a[i] in recs;
        var y :| 0 <= y < |recs| && recs[y] == a[i];
      }
      if i :| 0 <= i < |recs| && recs[i].node == x {
        assert recs[i] in a;
        var y :| 0 <= y < |a| && a[y] == recs[i];
      }
    }
  }

  /** Different leaves have different highest keys, and so all their keys are ordered. */
  lemma MaxOrder(hf: Key -> nat, pool: Pool, order: seq<Ptr>, nodes: map<Ptr, LeafNode>, a: Rec, b: Rec)
    requires PersistOk(hf, pool, order) && RecOk(hf, pool, nodes, a) && RecOk(hf, pool, nodes, b)
    requires nodes[a.node].leaf != nodes[b.node].leaf && a.max <= b.max
    ensures a.max < b.max && Below(pool.leaves[nodes[a.node].leaf].slots, pool.leaves[nodes[b.node].leaf].slots)
    ensures var t := pool.leaves[nodes[b.node].leaf].slots;
            forall i :: 0 <= i < |t| && t[i].Some? ==> a.max < t[i].value.key <= b.max
  {
    hide ListOk, SlotsGood, Mirrors;
    assert Apart(pool, nodes[a.node].leaf, nodes[b.node].leaf);
  }

  // ------------------------------------------------------------ the tree over what was found

  /** The chain is the first `n` recovered leaves, and each separator the highest key of the
      leaf left of it. */
  ghost predicate Chained(v: View, recs: seq<Rec>, n: nat) {
    && n <= |recs| && |v.chain| == |v.seps| == n
    && (forall i :: 0 <= i < n ==> v.chain[i] == recs[i].node)
    && (forall i :: 1 <= i < n ==> v.seps[i] == recs[i - 1].max)
  }

  /** Appending the next leaf splits the last one off at its highest key. */
  lemma ChainNext(v: View, recs: seq<Rec>, n: nat)
    requires 1 <= n < |recs| && Chained(v, recs, n)
    ensures Chained(OpenView(v, n - 1, recs[n].node, recs[n - 1].max), recs, n + 1)
  {
  }

  lemma LeafRecovered(hf: Key -> nat, s: St, v: View, order: seq<Ptr>, seen: seq<Ptr>, recs: seq<Rec>, j: nat)
    requires PersistOk(hf, s.pool, order) && Found(hf, s.pool, seen, s.nodes, recs, s.prealloc) && SortedRecs(recs)
    requires Chained(v, recs, |recs|) && j < |recs|
    ensures LeafOk(hf, s, v, j)
  {
    hide ListOk, Below, Mirrors, NoDoubles;
    assert RecOk(hf, s.pool, s.nodes, recs[j]);
    assert SlotsGood(hf, SlotsOf(s, recs[j].node));
    if j > 0 {
      assert RecOk(hf, s.pool, s.nodes, recs[j - 1]);
      assert s.nodes[recs[j].node].leaf != s.nodes[recs[j - 1].node].leaf;
      MaxOrder(hf, s.pool, order, s.nodes, recs[j - 1], recs[j]);
    }
  }

  /** The recovered state is in order. */
  lemma RecoveredOk(hf: Key -> nat, s: St, v: View, order: seq<Ptr>, recs: seq<Rec>)
    requires PersistOk(hf, s.pool, order) && Found(hf, s.pool, order, s.nodes, recs, s.prealloc) && SortedRecs(recs)
    requires recs != [] ==> s.tree.top != 0 && ShapeOk(s.tree, v, Closed) && Chained(v, recs, |recs|)
    requires recs == [] ==> s.tree.top == 0 && s.tree.inners == map[]
    requires s.tree.inners.Keys !! s.nodes.Keys
    ensures Inv(hf, s, v, Closed, order)
  {
    hide ListOk, ShapeOk, RecOk, SlotsGood, Apart;
    if recs != [] {
      forall j | 0 <= j < |v.chain| ensures LeafOk(hf, s, v, j) {
        LeafRecovered(hf, s, v, order, order, recs, j);
      }
      forall x ensures x in s.nodes <==> x in v.chain {
        assert x in s.nodes <==> Listed(recs, x);
        if i :| 0 <= i < |recs| && recs[i].node == x { assert v.chain[i] == x; }
      }
    } else {
      assert forall x :: x !in s.nodes by {
        forall x ensures x !in s.nodes { assert x in s.nodes <==> Listed(recs, x); }
      }
    }
    forall p | p in s.pool.leaves ensures p in s.prealloc || Used(s, p) {
      InOrder(s.pool, order, p);
    }
  }

  lemma InOrder(pool: Pool, order: seq<Ptr>, p: Ptr)
    requires ListOk(pool, order) && p in pool.leaves
    ensures p in order
  {
  }
}
