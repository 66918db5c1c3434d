/** The way an erase takes down stree's B+ tree: nodes with the siblings of the child
    taken, and the one separator on the way that points to the erased key. */
module StreeErasePath {
  import opened Keys
  import opened StreeLeaf
  import opened StreeInner
  import opened StreeListing
  import opened StreeTree
  import opened StreeInsert
  import opened StreeSplit
  import opened StreePath
  import opened StreeErase
  import opened StreeDelete
  import opened StreeCollapse
  import opened StreeFind
  import opened StreeRemove

  /** The node below hop `x`. */
  function BelowHop(hops: seq<Hop>, x: nat, leaf: Ptr): Ptr {
    if x + 1 < |hops| then hops[x + 1].node else leaf
  }

  /** Hop `x` goes through some child, with its siblings recorded. */
  ghost predicate HopOk(m: Mem, v: View, cap: nat, hop: Hop, i: nat, below: Ptr, j: nat) {
    && IsKid(m, v, cap, hop.node, i, below) && hop == HopAt(m, hop.node, i) && Covers(v, hop.node, j)
  }

  ghost predicate HopsOk(m: Mem, v: View, cap: nat, hops: seq<Hop>, leaf: Ptr, j: nat) {
    forall x :: 0 <= x < |hops| ==> Leads(m, v, cap, hops[x], BelowHop(hops, x, leaf), j)
  }

  ghost predicate Leads(m: Mem, v: View, cap: nat, hop: Hop, below: Ptr, j: nat) {
    exists i :: HopOk(m, v, cap, hop, i, below, j)
  }

  lemma HopsExtend(m: Mem, v: View, cap: nat, hops: seq<Hop>, p: Ptr, hop: Hop, i: nat, c: Ptr, j: nat)
    requires HopsOk(m, v, cap, hops, p, j) && hop.node == p && HopOk(m, v, cap, hop, i, c, j)
    ensures HopsOk(m, v, cap, hops + [hop], c, j)
  {
    assert Leads(m, v, cap, hop, c, j);
    var longer := hops + [hop];
    forall x | 0 <= x < |longer|
      ensures Leads(m, v, cap, longer[x], BelowHop(longer, x, c), j)
    {
      if x < |hops| {
        assert Leads(m, v, cap, hops[x], BelowHop(hops, x, p), j);
      }
    }
  }

  /** What to_replace holds when the search for `k` has come to node `c`: the owner of
      the separator that points to `k`, once the search has passed it. */
  ghost predicate TargetOk(m: Mem, v: View, cap: nat, tr: Target, k: Key, j: nat, c: Ptr)
    requires j < |v.chain|
  {
    match tr
    case NoTarget => j == 0 || FrontKey(m, v.chain[j]) != k || v.Lo(c) < j
    case Target(t, s) => j > 0 && Owns(m, v, cap, t, s, j) && FrontKey(m, v.chain[j]) == k && v.Lo(c) == j
  }

  /** A separator on the way that equals the key points to the front of the key's leaf. */
  lemma SepMatches(m: Mem, v: View, cap: nat, n: Ptr, i: nat, k: Key, j: nat)
    requires Inv(m, v, cap) && n in v.live && n in m.inners && i < m.inners[n].size && |m.inners[n].entries| == cap
    requires IsTarget(m, v, k, j) && |m.inners[n].children| == cap + 1 && m.inners[n].size <= cap
    ensures SepKey(m, m.inners[n].entries[i]) == k <==>
            j > 0 && v.Lo(m.inners[n].children[i + 1]) == j && FrontKey(m, v.chain[j]) == k
  {
    assert InnerOk(m, v, cap, 0, n);
    SepIs(m, v, cap, 0, n, i);
    var x := v.Lo(m.inners[n].children[i + 1]);
    TargetIs(m, v, cap, k, j, x);
    if x < j { FrontsAscend(m, v, cap, x, j); }
  }

  /** One step down keeps it, and a second match, which the code rules out by an
      assertion, cannot occur. */
  lemma TargetStep(m: Mem, v: View, cap: nat, tr: Target, k: Key, j: nat, n: Ptr, i: nat, c: Ptr)
    requires Inv(m, v, cap) && IsTarget(m, v, k, j) && IsKid(m, v, cap, n, i, c) && Covers(v, c, j)
    requires TargetOk(m, v, cap, tr, k, j, n)
    ensures var it := if i == 0 then 0 else i - 1;
            && |m.inners[n].entries| == cap && it < m.inners[n].size
            && var hit := SepKey(m, m.inners[n].entries[it]) == k;
            && (hit ==> tr == NoTarget)
            && TargetOk(m, v, cap, if hit then Target(n, it) else tr, k, j, c)
  {
    var it := if i == 0 then 0 else i - 1;
    assert InnerOk(m, v, cap, 0, n) && KidOk(m, v, n, i);
    SepMatches(m, v, cap, n, it, k, j);
    KidStarts(m, v, cap, 0, n, i);
    if i == 0 { KidsAscend(m, v, cap, 0, n, 0, 1); }
  }

  // ------------------------------------------------------------ leftmost leaves

  /** First children start where their parents do; leaves are those of `s`. */
  ghost predicate FirstKids(m: Mem, v: View, s: set<Ptr>) {
    && s <= m.leaves.Keys
    && forall n :: n in v.live ==>
         && n in m.inners && n !in m.leaves && |m.inners[n].children| > 0
         && var c := m.inners[n].children[0];
         (c in v.live || c in s) && m.Level(c) < m.Level(n) && v.Lo(c) == v.Lo(n)
  }

  lemma FirstKidsHold(m: Mem, v: View, cap: nat)
    requires ShapeOk(m, v, cap, 0)
    ensures FirstKids(m, v, m.leaves.Keys)
  {
    forall n | n in v.live
      ensures n in m.inners && n !in m.leaves && |m.inners[n].children| > 0
      ensures var c := m.inners[n].children[0];
              (c in v.live || c in m.leaves.Keys) && m.Level(c) < m.Level(n) && v.Lo(c) == v.Lo(n)
    {
      assert InnerOk(m, v, cap, 0, n) && KidOk(m, v, n, 0);
    }
  }

  /** Memory in the middle of the transaction and at its end: the same children, the same
      slots; leaf `p` and perhaps a collapsed node not yet freed. */
  ghost predicate Midway(a: Mem, b: Mem, p: Ptr) {
    && a.leaves.Keys == b.leaves.Keys + {p} && p !in b.leaves
    && (forall q :: q in b.leaves ==> a.leaves[q].idxs == b.leaves[q].idxs)
    && (forall x :: x in b.inners ==> x in a.inners && a.inners[x].children == b.inners[x].children
                                      && a.inners[x].level == b.inners[x].level)
  }

  lemma MidwayKids(a: Mem, b: Mem, v: View, cap: nat, p: Ptr)
    requires ShapeOk(b, v, cap, 0) && Midway(a, b, p) && p !in v.live
    ensures FirstKids(a, v, b.leaves.Keys)
  {
    FirstKidsHold(b, v, cap);
    forall n | n in v.live
      ensures n in a.inners && n !in a.leaves && |a.inners[n].children| > 0
      ensures var c := a.inners[n].children[0];
              (c in v.live || c in b.leaves.Keys) && a.Level(c) < a.Level(n) && v.Lo(c) == v.Lo(n)
    {
      assert InnerOk(b, v, cap, 0, n) && KidOk(b, v, n, 0);
      var c := b.inners[n].children[0];
      assert c in v.live ==> InnerOk(b, v, cap, 0, c);
      MidwayLevel(a, b, p, n);
      MidwayLevel(a, b, p, c);
      assert n in a.leaves.Keys <==> n in b.leaves.Keys + {p};
    }
  }

  lemma MidwayLevel(a: Mem, b: Mem, p: Ptr, c: Ptr)
    requires Midway(a, b, p) && (c in b.inners || c in b.leaves) && c != p
    ensures a.Level(c) == b.Level(c)
  {
    assert c in a.leaves.Keys <==> c in b.leaves.Keys + {p};
  }

  /** The front of the leftmost leaf of the right child is what the separator has to
      point to. */
  lemma SuitableIs(a: Mem, b: Mem, v: View, cap: nat, p: Ptr, t: Ptr, s: nat, q: Ptr)
    requires ShapeOk(b, v, cap, 0) && Midway(a, b, p) && t in v.live && t in b.inners && s < b.inners[t].size
    requires s < |b.inners[t].entries| && s + 1 < |b.inners[t].children|
    requires q in b.leaves && v.Lo(q) == v.Lo(b.inners[t].children[s + 1])
    ensures FrontSep(a, q) == b.inners[t].entries[s]
  {
    assert InnerOk(b, v, cap, 0, t) && SepOk(b, v, t, s);
    var x := v.Lo(q);
    var y :| 0 <= y < |v.chain| && v.chain[y] == q;
    assert LeafAt(b, v, cap, y) && LeafAt(b, v, cap, x);
    assert q in a.leaves.Keys;
  }

  /** The walk from the right child of a live separator finds what it points to. */
  lemma WalkEnds(a: Mem, b: Mem, v: View, cap: nat, p: Ptr, t: Ptr, s: nat, q: Ptr)
    requires ShapeOk(b, v, cap, 0) && Midway(a, b, p) && FirstKids(a, v, b.leaves.Keys)
    requires t in v.live && t in b.inners && Sized(b.inners[t], cap) && s < b.inners[t].size
    requires var c := b.inners[t].children[s + 1];
             if c in a.leaves then q == c else q in b.leaves.Keys && v.Lo(q) == v.Lo(c)
    ensures FrontSep(a, q) == b.inners[t].entries[s]
  {
    assert InnerOk(b, v, cap, 0, t) && KidOk(b, v, t, s + 1);
    SuitableIs(a, b, v, cap, p, t, s, q);
  }
}
