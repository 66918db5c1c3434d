/** The erase transaction of stree's B+ tree, put together: what it knows at each step
    and what it leaves. */
module StreeEraseSteps {
  import opened Keys
  import opened StreeLeaf
  import opened StreeInner
  import opened StreeListing
  import opened StreeTree
  import opened StreeInsert
  import opened StreeSplit
  import opened StreePath
  import opened StreeErase
  import opened StreeDelete
  import opened StreeCollapse
  import opened StreeFind
  import opened StreeRemove
  import opened StreeErasePath

  /** A well-shaped tree that lists one entry less holds one key less. */
  lemma OneLess(m: Mem, v: View, cap: nat, m': Mem, v': View, x: nat, k: Key)
    requires Inv(m, v, cap) && ShapeOk(m', v', cap, 0) && x < |Listing(m, v.chain)| && Listing(m, v.chain)[x].key == k
    requires Listing(m', v'.chain) == ErasedAt(Listing(m, v.chain), x) && m'.size == m.size - 1
    ensures Inv(m', v', cap) && Contents(m', v') == Contents(m, v) - {k}
  {
    InvAscends(m, v, cap);
    assert |Listing(m', v'.chain)| == |Listing(m, v.chain)| - 1 && m.size == |Listing(m, v.chain)|;
    hide ShapeOk, Listing;
    StreeListing.ErasedIs(Listing(m, v.chain), x);
  }

  // ------------------------------------------------------------ the leaf stays

  /** The memory after the entry is gone and the separator, if there is one, follows. */
  function EntryResult(m: Mem, p: Ptr, pos: nat, tr: Target): Mem
    requires p in m.leaves && pos < m.leaves[p].size <= |m.leaves[p].idxs| && m.size > 0
    requires tr.Target? ==> tr.node in m.inners && tr.it < |m.inners[tr.node].entries|
  {
    var m1 := RemoveEntry(m, p, pos);
    if tr.Target? then Refront(m1, tr.node, tr.it, p) else m1
  }

  /** The key is at `pos` of leaf `j`, the search brought its separator, and the leaf
      stays. */
  ghost predicate Shrinks(m: Mem, v: View, cap: nat, k: Key, j: nat, p: Ptr, pos: nat, tr: Target) {
    && Searched(m, v, cap, k, j, p, pos) && HasKey(m, p, pos, k) && TargetOk(m, v, cap, tr, k, j, p)
    && (m.leaves[p].size > 1 || |v.chain| == 1)
  }

  lemma EntryResultIs(m: Mem, p: Ptr, pos: nat, tr: Target)
    requires p in m.leaves && pos < m.leaves[p].size <= |m.leaves[p].idxs| && m.size > 0
    requires tr.Target? ==> tr.node in m.inners && tr.it < |m.inners[tr.node].entries|
    ensures var leaves := m.leaves[p := Remove(m.leaves[p], pos)];
            EntryResult(m, p, pos, tr) ==
              Mem(leaves,
                  if tr.Target? then m.inners[tr.node := Replace(m.inners[tr.node], tr.it, Sep(p, leaves[p].idxs[0]))]
                  else m.inners, m.root, m.size - 1)
  {
  }

  lemma EntryLost(m: Mem, v: View, p: Ptr, pos: nat, tr: Target)
    requires p in m.leaves && pos < m.leaves[p].size <= |m.leaves[p].idxs| && m.size > 0
    requires tr.Target? ==> tr.node in m.inners && tr.it < |m.inners[tr.node].entries|
    ensures LostNodes(EntryResult(m, p, pos, tr), v) == LostNodes(m, v) && EntryResult(m, p, pos, tr).root == m.root
  {
  }

  lemma ShrinksFacts(m: Mem, v: View, cap: nat, k: Key, j: nat, p: Ptr, pos: nat, tr: Target)
    requires Inv(m, v, cap) && Searched(m, v, cap, k, j, p, pos) && HasKey(m, p, pos, k)
    requires TargetOk(m, v, cap, tr, k, j, p)
    ensures p in m.leaves
    ensures pos < m.leaves[p].size <= |m.leaves[p].idxs| && m.size > 0 && HasEntry(m, v, cap, j, pos)
    ensures v.Lo(p) == j && (tr.Target? ==> j > 0 && pos == 0 && Owns(m, v, cap, tr.node, tr.it, j))
    ensures tr.Target? ==> tr.node in m.inners && tr.it < |m.inners[tr.node].entries|
    ensures tr.NoTarget? ==> j == 0 || pos > 0
    ensures j > 0 && pos == 0 ==> FrontKey(m, p) == k
  {
    assert LeafAt(m, v, cap, j);
    RowKeys(m, p, cap);
    LeafRows(m, v, cap, j);
    RowPlace(m, v.chain, j, pos);
    if tr.Target? { assert InnerOk(m, v, cap, 0, tr.node); }
    hide Listing, ShapeOk, RowsAt;
  }

  lemma EntryGone(m: Mem, v: View, cap: nat, k: Key, j: nat, p: Ptr, pos: nat, tr: Target)
    requires Inv(m, v, cap) && Shrinks(m, v, cap, k, j, p, pos, tr)
    requires pos < m.leaves[p].size <= |m.leaves[p].idxs| && m.size > 0
    requires tr.Target? ==> tr.node in m.inners && tr.it < |m.inners[tr.node].entries|
    ensures var m' := EntryResult(m, p, pos, tr);
            Inv(m', v, cap) && Contents(m', v) == Contents(m, v) - {k}
  {
    hide EntryResult, ShapeOk, Listing, TargetOk, Searched, HasKey, HasEntry, RowsAt, IsTarget, Offset, Contents;
    ShrinksFacts(m, v, cap, k, j, p, pos, tr);
    EntryShape(m, v, cap, k, j, p, pos, tr);
    EntryListing(m, v, cap, k, j, p, pos, tr);
    OneLess(m, v, cap, EntryResult(m, p, pos, tr), v, Offset(m, v, j) + pos, k);
  }

  lemma EntryShape(m: Mem, v: View, cap: nat, k: Key, j: nat, p: Ptr, pos: nat, tr: Target)
    requires Inv(m, v, cap) && Shrinks(m, v, cap, k, j, p, pos, tr)
    requires pos < m.leaves[p].size <= |m.leaves[p].idxs| && m.size > 0
    requires tr.Target? ==> tr.node in m.inners && tr.it < |m.inners[tr.node].entries|
    ensures ShapeOk(EntryResult(m, p, pos, tr), v, cap, 0)
  {
    ShrinksFacts(m, v, cap, k, j, p, pos, tr);
    hide Listing, RowsAt;
    if tr.Target? {
      TargetLeaf(m, v, cap, tr.node, tr.it, j);
      RemoveFront(m, v, cap, j, tr.node, tr.it);
    } else {
      RemoveInside(m, v, cap, j, pos);
    }
  }

  /** A tree with a separator has more than one leaf. */
  lemma TargetLeaf(m: Mem, v: View, cap: nat, t: Ptr, s: nat, j: nat)
    requires ShapeOk(m, v, cap, 0) && Owns(m, v, cap, t, s, j)
    ensures |v.chain| > 1
  {
    assert InnerOk(m, v, cap, 0, t) && SepOk(m, v, t, s);
  }

  lemma EntryListing(m: Mem, v: View, cap: nat, k: Key, j: nat, p: Ptr, pos: nat, tr: Target)
    requires Inv(m, v, cap) && Shrinks(m, v, cap, k, j, p, pos, tr)
    requires pos < m.leaves[p].size <= |m.leaves[p].idxs| && m.size > 0
    requires tr.Target? ==> tr.node in m.inners && tr.it < |m.inners[tr.node].entries|
    ensures var m', x := EntryResult(m, p, pos, tr), Offset(m, v, j) + pos;
            && x < |Listing(m, v.chain)| && Listing(m, v.chain)[x].key == k && m'.size == m.size - 1
            && Listing(m', v.chain) == ErasedAt(Listing(m, v.chain), x)
  {
    ShrinksFacts(m, v, cap, k, j, p, pos, tr);
    RemoveListing(m, v, cap, j, pos);
    assert Listing(RemoveEntry(m, p, pos), v.chain) == ErasedAt(Listing(m, v.chain), Offset(m, v, j) + pos);
    hide Inv, Listing, Shaped;
    ListingFrame(RemoveEntry(m, p, pos), EntryResult(m, p, pos, tr), v.chain);
  }

  /** First children are the same where leaves and inner nodes stay at their addresses. */
  lemma SameFirstKids(m: Mem, v: View, cap: nat, m1: Mem)
    requires Inv(m, v, cap) && m1.inners == m.inners && m1.leaves.Keys == m.leaves.Keys
    ensures FirstKids(m1, v, m.leaves.Keys)
  {
    FirstKidsHold(m, v, cap);
    hide Inv;
    assert forall n :: n in m1.leaves <==> n in m.leaves.Keys;
    assert forall n :: n in m.leaves <==> n in m.leaves.Keys;
    assert forall n :: m1.Level(n) == m.Level(n);
  }

  lemma LeafAtLow(m: Mem, v: View, cap: nat, j: nat, p: Ptr, q: Ptr)
    requires Inv(m, v, cap) && j < |v.chain| && v.chain[j] == p && q in m.leaves && v.Lo(q) == j
    ensures q == p
  {
    var y :| 0 <= y < |v.chain| && v.chain[y] == q;
    assert LeafAt(m, v, cap, y);
  }

  lemma OwnedKid(m: Mem, v: View, cap: nat, n: Ptr, i: nat, j: nat)
    requires Inv(m, v, cap) && Owns(m, v, cap, n, i, j) && n in m.inners && i + 1 < |m.inners[n].children|
    ensures var c := m.inners[n].children[i + 1]; v.Lo(c) == j && (c in v.live || c in m.leaves)
  {
    assert InnerOk(m, v, cap, 0, n) && KidOk(m, v, n, i + 1);
  }

  /** get_suitable_entry finds the leaf itself. */
  lemma EntryFront(m: Mem, v: View, cap: nat, k: Key, j: nat, p: Ptr, pos: nat, tr: Target, m1: Mem, q: Ptr)
    requires Inv(m, v, cap) && Shrinks(m, v, cap, k, j, p, pos, tr) && tr.Target?
    requires m1.inners == m.inners && m1.leaves.Keys == m.leaves.Keys
    requires tr.node in m.inners && tr.it + 1 < |m.inners[tr.node].children|
    ensures var c := m.inners[tr.node].children[tr.it + 1];
            && v.Lo(c) == j && (c in v.live || c in m1.leaves) && FirstKids(m1, v, m.leaves.Keys)
            && (q in m.leaves && v.Lo(q) == j ==> q == p)
  {
    hide Inv, RowsAt, HasKey, HasEntry, FirstKids, Owns;
    ShrinksFacts(m, v, cap, k, j, p, pos, tr);
    OwnedKid(m, v, cap, tr.node, tr.it, j);
    SameFirstKids(m, v, cap, m1);
    var c := m.inners[tr.node].children[tr.it + 1];
    assert c in m1.leaves.Keys <==> c in m.leaves.Keys;
    if q in m.leaves && v.Lo(q) == j { LeafAtLow(m, v, cap, j, p, q); }
  }

  // ------------------------------------------------------------ the leaf goes

  /** Memory after delete_leaf_ext and delete_inner_ext: nothing is freed yet. */
  function MidMem(m: Mem, p: Ptr, n: Ptr, i: nat, left: bool, popped: bool, hop: Hop, sib: Ptr): Mem
    requires p in m.leaves && m.leaves[p].size == 1 <= |m.leaves[p].idxs| && Doable(m, n, i, popped, hop, NoTarget)
  {
    var a := m.(leaves := m.leaves[p := Remove(m.leaves[p], 0)],
                inners := m.inners[n := DeleteChild(m.inners[n], i, left)]);
    var b := Unlink(a, p);
    if popped then b.(inners := b.inners[hop.node := Inherit(b.inners[hop.node], hop.it, sib, hop.left == 0)]) else b
  }

  /** Emptying the leaf first makes no difference to the leaves that stay. */
  lemma EmptiedLinks(m: Mem, p: Ptr, a: Mem)
    requires p in m.leaves && m.leaves[p].size == 1 <= |m.leaves[p].idxs|
    requires a.leaves == m.leaves[p := Remove(m.leaves[p], 0)]
    ensures Unlink(a, p).leaves - {p} == Unlink(m, p).leaves - {p}
    ensures Unlink(a, p).leaves.Keys == m.leaves.Keys && Unlink(a, p).inners == a.inners
    ensures forall q :: q in m.leaves && q != p ==> Unlink(a, p).leaves[q].idxs == m.leaves[q].idxs
    ensures Unlink(m, p).leaves.Keys == m.leaves.Keys
    ensures forall q :: q in m.leaves && q != p ==> Unlink(m, p).leaves[q].idxs == m.leaves[q].idxs
  {
    UnlinkIs(m, p);
    UnlinkIs(a, p);
    hide Unlink;
  }

  /** The rest of the transaction after those steps. */
  lemma StepsEnd(m: Mem, p: Ptr, n: Ptr, i: nat, left: bool, popped: bool, hop: Hop, sib: Ptr, tr: Target, sep: Sep,
                 root: Ptr)
    requires p in m.leaves && m.leaves[p].size == 1 <= |m.leaves[p].idxs| && Doable(m, n, i, popped, hop, tr)
    requires m.size > 0
    requires tr.Target? && tr.node == n ==> tr.it < |DeleteChild(m.inners[n], i, left).entries|
    ensures var a := MidMem(m, p, n, i, left, popped, hop, sib);
            && p in a.leaves && n in a.inners && a.size == m.size && a.root == m.root
            && a.inners[n] == DeleteChild(m.inners[n], i, left)
            && (tr.Target? ==> tr.node in a.inners && tr.it < |a.inners[tr.node].entries|)
            && var b := if tr.Target? then a.(inners := a.inners[tr.node := Replace(a.inners[tr.node], tr.it, sep)])
                 else a;
            Mem(b.leaves - {p}, if popped then b.inners - {n} else b.inners, root, m.size - 1)
              == EraseResult(m, p, n, i, left, popped, hop, sib, tr, sep, root)
  {
    var a := m.(leaves := m.leaves[p := Remove(m.leaves[p], 0)],
                inners := m.inners[n := DeleteChild(m.inners[n], i, left)]);
    EmptiedLinks(m, p, a);
    UnlinkIs(a, p);
    hide Unlink, DeleteChild, Remove;
  }

  /** Those steps and the end of the transaction agree on children, levels and slots. */
  lemma MidwayIs(m: Mem, p: Ptr, n: Ptr, i: nat, left: bool, popped: bool, hop: Hop, sib: Ptr, tr: Target, sep: Sep,
                 root: Ptr)
    requires p in m.leaves && m.leaves[p].size == 1 <= |m.leaves[p].idxs| && Doable(m, n, i, popped, hop, tr)
    requires tr.Target? && tr.node == n ==> tr.it < |DeleteChild(m.inners[n], i, left).entries|
    ensures Midway(MidMem(m, p, n, i, left, popped, hop, sib),
                   EraseResult(m, p, n, i, left, popped, hop, sib, tr, sep, root), p)
  {
    var a := m.(leaves := m.leaves[p := Remove(m.leaves[p], 0)],
                inners := m.inners[n := DeleteChild(m.inners[n], i, left)]);
    EmptiedLinks(m, p, a);
    MidInners(a.inners, m, n, i, left, popped, hop, sib, tr, sep);
    var mid, end := MidMem(m, p, n, i, left, popped, hop, sib),
        EraseResult(m, p, n, i, left, popped, hop, sib, tr, sep, root);
    hide Unlink, DeleteChild, Remove, StepInners, Doable, Inherit;
    assert mid.leaves == Unlink(a, p).leaves && end.leaves == Unlink(m, p).leaves - {p};
    assert mid.leaves.Keys == end.leaves.Keys + {p};
  }

  lemma MidInners(a: map<Ptr, Inner>, m: Mem, n: Ptr, i: nat, left: bool, popped: bool, hop: Hop, sib: Ptr, tr: Target,
                  sep: Sep)
    requires Doable(m, n, i, popped, hop, tr) && a == m.inners[n := DeleteChild(m.inners[n], i, left)]
    requires tr.Target? && tr.node == n ==> tr.it < |DeleteChild(m.inners[n], i, left).entries|
    ensures var b := if popped then a[hop.node := Inherit(a[hop.node], hop.it, sib, hop.left == 0)] else a;
            var e := StepInners(m, n, i, left, popped, hop, sib, tr, sep);
            && e.Keys <= m.inners.Keys
            && forall x :: x in e ==> x in b && b[x].children == e[x].children && b[x].level == e[x].level
  {
    hide DeleteChild;
  }

  /** The separator get_suitable_entry has to find; behind the live ones any will do. */
  ghost function DueSep(m: Mem, v: View, j: nat, n: Ptr, i: nat, left: bool, f: Ptr): Sep
    requires j < |v.chain| && v.chain[j] in m.leaves && n in m.inners && Sized(m.inners[n], |m.inners[n].entries|)
    requires i < m.inners[n].size
  {
    if left then FrontSep(DeleteLeaf(m, v.chain[j], n, i, left), f) else DeleteChild(m.inners[n], i, left).entries[i]
  }

  /** The key is the only entry of leaf `j` and the search came over inner nodes. */
  ghost predicate Vanishes(m: Mem, v: View, cap: nat, k: Key, j: nat, p: Ptr, hops: seq<Hop>, tr: Target) {
    && Inv(m, v, cap) && j < |v.chain| && p == v.chain[j] && p in m.leaves && Shaped(m.leaves[p], cap)
    && m.leaves[p].size == 1
    && FrontKey(m, p) == k && TargetOk(m, v, cap, tr, k, j, p) && v.Lo(p) == j
    && hops != [] && HopsOk(m, v, cap, hops, p, j) && hops[0].node == m.root
  }

  /** The parent of the leaf, and the child of it that the leaf is. */
  lemma LastHop(m: Mem, v: View, cap: nat, k: Key, j: nat, p: Ptr, hops: seq<Hop>, tr: Target) returns (y: nat)
    requires Vanishes(m, v, cap, k, j, p, hops, tr)
    ensures var last := hops[|hops| - 1];
            && HopOk(m, v, cap, last, y, p, j) && last.node in m.inners && last.node in v.live
            && Sized(m.inners[last.node], cap) && last.it < m.inners[last.node].size && InnerOk(m, v, cap, 0, last.node)
            && (last.left == 0 <==> y == 0) && (last.right == 0 <==> y == m.inners[last.node].size)
            && y == ChildAt(last.it, last.left == 0) && (last.left == 0 ==> last.it == 0)
  {
    var last := hops[|hops| - 1];
    assert Leads(m, v, cap, last, BelowHop(hops, |hops| - 1, p), j);
    y :| HopOk(m, v, cap, last, y, p, j);
    assert InnerOk(m, v, cap, 0, last.node);
    HopLeft(m, v, cap, last.node, y);
  }

  /** With that parent, the leaf is one that Empties describes. */
  lemma EmptiesFrom(m: Mem, v: View, cap: nat, k: Key, j: nat, p: Ptr, hops: seq<Hop>, tr: Target, y: nat)
    requires Vanishes(m, v, cap, k, j, p, hops, tr)
    requires HopOk(m, v, cap, hops[|hops| - 1], y, p, j)
    requires y == ChildAt(hops[|hops| - 1].it, hops[|hops| - 1].left == 0)
    requires hops[|hops| - 1].it < m.inners[hops[|hops| - 1].node].size
    requires hops[|hops| - 1].left == 0 ==> hops[|hops| - 1].it == 0
    ensures var last := hops[|hops| - 1]; Empties(m, v, cap, j, last.node, last.it, last.left == 0)
  {
    var last := hops[|hops| - 1];
    assert InnerOk(m, v, cap, 0, last.node) && SepOk(m, v, last.node, last.it);
    assert KidOk(m, v, last.node, last.it) && KidOk(m, v, last.node, last.it + 1);
    assert LeafAt(m, v, cap, j);
  }

  /** The separator the search brought is the one above the leaf, if it is a first child,
      and else the one next to it. */
  lemma TargetIs(m: Mem, v: View, cap: nat, k: Key, j: nat, p: Ptr, hops: seq<Hop>, tr: Target, n: Ptr, i: nat,
                 left: bool)
    requires Vanishes(m, v, cap, k, j, p, hops, tr) && Empties(m, v, cap, j, n, i, left)
    ensures !left ==> tr == Target(n, i)
    ensures left && j > 0 ==> tr.Target? && Owns(m, v, cap, tr.node, tr.it, j) && tr.node != n && j + 1 < |v.chain|
    ensures left && j == 0 ==> tr == NoTarget
  {
    EmptiesFacts(m, v, cap, j, n, i, left);
    if left {
      if j > 0 && tr.node == n { KidStarts(m, v, cap, 0, n, tr.it + 1); }
    } else {
      OneOwner(m, v, cap, tr.node, tr.it, n, i, j);
    }
  }

  /** The hop above the parent; a parent that is the root has none. */
  function HopAbove(hops: seq<Hop>): Hop
    requires hops != []
  {
    if |hops| > 1 then hops[|hops| - 2] else hops[0]
  }

  /** The sibling that replaces a collapsed parent. */
  function Sibling(last: Hop): Ptr {
    if last.left != 0 then last.left else last.right
  }

  /** What stands above the parent. */
  lemma AboveParent(m: Mem, v: View, cap: nat, k: Key, j: nat, p: Ptr, hops: seq<Hop>, tr: Target, n: Ptr)
    returns (g: Ptr, y: nat)
    requires Vanishes(m, v, cap, k, j, p, hops, tr) && n == hops[|hops| - 1].node && n in v.live && n in m.inners
    ensures n == m.root <==> |hops| == 1
    ensures Above(m, v, cap, n, g, y) && HopFor(m, n, g, y, HopAbove(hops))
    ensures n != m.root ==> HopAbove(hops).node == g && HopAbove(hops).it + 1 < |m.inners[g].children|
  {
    g, y := 0, 0;
    if |hops| > 1 {
      var hop := hops[|hops| - 2];
      g := hop.node;
      assert Leads(m, v, cap, hop, BelowHop(hops, |hops| - 2, p), j);
      y :| HopOk(m, v, cap, hop, y, n, j);
      assert InnerOk(m, v, cap, 0, g) && KidOk(m, v, g, y);
      RootNoKid(m, v, cap, 0, g, y);
    }
  }

  /** Everything about the transaction is known once the search is done, but for a
      separator that does not matter. */
  lemma EndsFrom(m: Mem, v: View, cap: nat, k: Key, j: nat, p: Ptr, hops: seq<Hop>, tr: Target, n: Ptr, i: nat,
                 left: bool,
                 f: Ptr, g: Ptr, y: nat, sep: Sep)
    requires Vanishes(m, v, cap, k, j, p, hops, tr) && Empties(m, v, cap, j, n, i, left)
    requires n == hops[|hops| - 1].node && i == hops[|hops| - 1].it && left == (hops[|hops| - 1].left == 0)
    requires Above(m, v, cap, n, g, y) && HopFor(m, n, g, y, HopAbove(hops)) && (n == m.root <==> |hops| == 1)
    requires n != m.root ==> HopAbove(hops).node == g && HopAbove(hops).it + 1 < |m.inners[g].children|
    requires f == if left && j > 0 && j + 1 < |v.chain| then v.chain[j + 1] else 0
    requires (left && f != 0) || (!left && i + 1 < m.inners[n].size) ==> sep == DueSep(m, v, j, n, i, left, f)
    requires m.inners[n].size == 1 ==> |m.inners[n].children| > 1 && Sibling(hops[|hops| - 1]) == OtherChild(m, n, left)
    ensures var t, s := if tr.Target? then tr.node else 0, if tr.Target? then tr.it else 0;
            Ends(m, v, cap, j, n, i, left, t, s, f, g, y, HopAbove(hops), Sibling(hops[|hops| - 1]), tr, sep)
  {
    TargetIs(m, v, cap, k, j, p, hops, tr, n, i, left);
    EmptiesFacts(m, v, cap, j, n, i, left);
    if left && j > 0 { assert LeafAt(m, v, cap, j + 1); }
    if tr.Target? { assert InnerOk(m, v, cap, 0, tr.node); }
  }

  lemma SiblingIs(m: Mem, v: View, cap: nat, last: Hop, y: nat, p: Ptr, j: nat)
    requires HopOk(m, v, cap, last, y, p, j) && m.inners[last.node].size == 1
    requires last.left == 0 <==> y == 0
    ensures |m.inners[last.node].children| > 1 && Sibling(last) == OtherChild(m, last.node, last.left == 0)
  {
  }

  /** get_suitable_entry, run in the middle of the transaction, finds the due separator;
      only for the separator that has just gone with the leaf it reads the leaf itself. */
  lemma DueIs(m: Mem, v: View, cap: nat, j: nat, n: Ptr, i: nat, left: bool, t: Ptr, s: nat, f: Ptr,
              g: Ptr, y: nat, hop: Hop, sib: Ptr, tr: Target, due: Sep)
    requires Ends(m, v, cap, j, n, i, left, t, s, f, g, y, hop, sib, tr, due) && tr.Target?
    requires due == DueSep(m, v, j, n, i, left, f)
    requires left || i + 1 < m.inners[n].size
    ensures var r := EraseResult(m, v.chain[j], n, i, left, Pops(m, n), hop, sib, tr, due, OutcomeRoot(m, n, sib));
            && tr.node in OutcomeView(m, v, j, n, left, g, sib).live && tr.node in r.inners
            && Sized(r.inners[tr.node], cap)
            && tr.it < r.inners[tr.node].size && r.inners[tr.node].entries[tr.it] == due
  {
    hide DueSep, DeleteChild, Unlink, Inv, HasEntry, KidOk, SepOk, LeafAt, InnerOk, Shaped, FrontSep;
    DeleteChildAt(m.inners[n], cap, i, left);
    assert m.inners[n].size == 1 ==> left;
  }

  /** All that is known before the first write: the leaf is a child of the last hop, what
      is above, the leaf that inherits the separator above, and that every step finds the
      places it writes. */
  ghost predicate Known(m: Mem, v: View, cap: nat, k: Key, j: nat, p: Ptr, hops: seq<Hop>, tr: Target, f: Ptr, g: Ptr,
                        y: nat) {
    && Vanishes(m, v, cap, k, j, p, hops, tr) && hops != []
    && j < |v.chain| == |v.owner| && p == v.chain[j] && p in m.leaves && m.leaves[p].size == 1 <= |m.leaves[p].idxs|
    && m.size > 0
    && var last := hops[|hops| - 1];
       var n, i, left := last.node, last.it, last.left == 0;
    && Empties(m, v, cap, j, n, i, left) && Dropped(j, left) < |v.owner|
    && n in m.inners && Sized(m.inners[n], cap) && i < m.inners[n].size
    && Above(m, v, cap, n, g, y) && HopFor(m, n, g, y, HopAbove(hops)) && (n == m.root <==> |hops| == 1)
    && (n != m.root ==> HopAbove(hops).node == g && HopAbove(hops).it + 1 < |m.inners[g].children|)
    && f == (if left && j > 0 && j + 1 < |v.chain| then v.chain[j + 1] else 0)
    && (m.inners[n].size == 1 ==> |m.inners[n].children| > 1 && Sibling(last) == OtherChild(m, n, left))
    && (tr.Target? ==>
          tr.node in m.inners && tr.it < |m.inners[tr.node].entries| && tr.it + 1 < |m.inners[tr.node].children|)
    && Doable(m, n, i, Pops(m, n), HopAbove(hops), tr)
    && (if tr.Target? then left ==> f != 0 else left && f == 0)
    && (!left ==> tr == Target(n, i))
  }

  lemma KnownFrom(m: Mem, v: View, cap: nat, k: Key, j: nat, p: Ptr, hops: seq<Hop>, tr: Target)
    returns (f: Ptr, g: Ptr, y: nat)
    requires Vanishes(m, v, cap, k, j, p, hops, tr)
    ensures Known(m, v, cap, k, j, p, hops, tr, f, g, y)
  {
    hide Inv, HopsOk, TargetOk, Above, HopFor, HasEntry, Shaped;
    var last := hops[|hops| - 1];
    var n, i, left := last.node, last.it, last.left == 0;
    var z := LastHop(m, v, cap, k, j, p, hops, tr);
    EmptiesFrom(m, v, cap, k, j, p, hops, tr, z);
    g, y := AboveParent(m, v, cap, k, j, p, hops, tr, n);
    f := if left && j > 0 && j + 1 < |v.chain| then v.chain[j + 1] else 0;
    if m.inners[n].size == 1 { SiblingIs(m, v, cap, last, z, p, j); }
    TargetIs(m, v, cap, k, j, p, hops, tr, n, i, left);
    if left && j > 0 { LeafNotNull(m, v, cap, j + 1); }
    if tr.Target? { TargetNode(m, v, cap, tr.node, tr.it, j) by { TargetOwns(m, v, cap, k, j, p, hops, tr); } }
    OnlyRow(m, v, cap, k, j, p, hops, tr);
    VanishesLeaf(m, v, cap, k, j, p, hops, tr);
  }

  lemma VanishesLeaf(m: Mem, v: View, cap: nat, k: Key, j: nat, p: Ptr, hops: seq<Hop>, tr: Target)
    requires Vanishes(m, v, cap, k, j, p, hops, tr)
    ensures |m.leaves[p].idxs| == cap >= 1 && m.size > 0
  {
    hide ShapeOk, HopsOk, TargetOk, Listing;
    OnlyRow(m, v, cap, k, j, p, hops, tr);
  }

  lemma LeafNotNull(m: Mem, v: View, cap: nat, j: nat)
    requires Inv(m, v, cap) && j < |v.chain|
    ensures v.chain[j] != 0
  {
    assert LeafAt(m, v, cap, j);
  }

  lemma TargetOwns(m: Mem, v: View, cap: nat, k: Key, j: nat, p: Ptr, hops: seq<Hop>, tr: Target)
    requires Vanishes(m, v, cap, k, j, p, hops, tr) && tr.Target?
    ensures Inv(m, v, cap) && Owns(m, v, cap, tr.node, tr.it, j)
  {
    hide Inv, Owns, HopsOk;
  }

  lemma TargetNode(m: Mem, v: View, cap: nat, t: Ptr, s: nat, j: nat)
    requires Inv(m, v, cap) && Owns(m, v, cap, t, s, j)
    ensures t in m.inners && s < |m.inners[t].entries| && s + 1 < |m.inners[t].children|
  {
    hide Inv;
  }

  /** The separator has to follow, rather than being the one that goes. */
  ghost predicate Due(m: Mem, n: Ptr, i: nat, left: bool)
    requires n in m.inners
  {
    left || i + 1 < m.inners[n].size
  }

  /** Any separator will do, or the due one: the transaction ends as OutcomeOk says. */
  lemma KnownEnds(m: Mem, v: View, cap: nat, k: Key, j: nat, p: Ptr, hops: seq<Hop>, tr: Target, f: Ptr, g: Ptr, y: nat,
                  sep: Sep)
    requires Known(m, v, cap, k, j, p, hops, tr, f, g, y)
    requires var last := hops[|hops| - 1];
             var n, i, left := last.node, last.it, last.left == 0;
             tr.Target? && Due(m, n, i, left) ==> sep == DueSep(m, v, j, n, i, left, f)
    ensures var last := hops[|hops| - 1];
            var n, i, left, sib := last.node, last.it, last.left == 0, Sibling(last);
            var r, v' := EraseResult(m, p, n, i, left, Pops(m, n), HopAbove(hops), sib, tr, sep,
                                     OutcomeRoot(m, n, sib)),
                         OutcomeView(m, v, j, n, left, g, sib);
            Inv(r, v', cap) && Contents(r, v') == Contents(m, v) - {k}
  {
    var last := hops[|hops| - 1];
    var n, i, left, sib := last.node, last.it, last.left == 0, Sibling(last);
    var t, s := if tr.Target? then tr.node else 0, if tr.Target? then tr.it else 0;
    assert tr.NoTarget? ==> left && f == 0;
    EndsFrom(m, v, cap, k, j, p, hops, tr, n, i, left, f, g, y, sep);
    OutcomeOk(m, v, cap, j, n, i, left, t, s, f, g, y, HopAbove(hops), sib, tr, sep);
    OnlyRow(m, v, cap, k, j, p, hops, tr);
    hide Known, Ends, EraseResult, OutcomeView, ShapeOk, Listing, DueSep, Vanishes;
    OneLess(m, v, cap,
            EraseResult(m, p, n, i, left, Pops(m, n), HopAbove(hops), sib, tr, sep, OutcomeRoot(m, n, sib)),
            OutcomeView(m, v, j, n, left, g, sib), Offset(m, v, j), k);
  }

  lemma OnlyRow(m: Mem, v: View, cap: nat, k: Key, j: nat, p: Ptr, hops: seq<Hop>, tr: Target)
    requires Vanishes(m, v, cap, k, j, p, hops, tr)
    ensures Inv(m, v, cap) && Offset(m, v, j) < |Listing(m, v.chain)| && Listing(m, v.chain)[Offset(m, v, j)].key == k
  {
    LeafRows(m, v, cap, j);
    RowPlace(m, v.chain, j, 0);
  }

  /** The walk of get_suitable_entry can start where the source starts it. */
  lemma WalkReady(m: Mem, v: View, cap: nat, k: Key, j: nat, p: Ptr, hops: seq<Hop>, tr: Target, f: Ptr, g: Ptr, y: nat)
    requires Known(m, v, cap, k, j, p, hops, tr, f, g, y) && tr.Target?
    requires Due(m, hops[|hops| - 1].node, hops[|hops| - 1].it, hops[|hops| - 1].left == 0)
    ensures var last := hops[|hops| - 1];
            var n, i, left, sib := last.node, last.it, last.left == 0, Sibling(last);
            var a, due := MidMem(m, p, n, i, left, Pops(m, n), HopAbove(hops), sib), DueSep(m, v, j, n, i, left, f);
            var b, v' := EraseResult(m, p, n, i, left, Pops(m, n), HopAbove(hops), sib, tr, due,
                                     OutcomeRoot(m, n, sib)),
                         OutcomeView(m, v, j, n, left, g, sib);
            && Midway(a, b, p) && FirstKids(a, v', b.leaves.Keys)
            && ShapeOk(b, v', cap, 0)
            && tr.node in v'.live && tr.node in b.inners && Sized(b.inners[tr.node], cap)
            && tr.it < b.inners[tr.node].size
            && b.inners[tr.node].entries[tr.it] == due
  {
    hide Vanishes, Empties, Above, HopFor, DeleteChild, Inv, HopsOk, TargetOk, Unlink, Remove, ShapeOk, DueSep,
         EraseResult, MidMem, OutcomeView, Midway, FirstKids;
    var last := hops[|hops| - 1];
    var n, i, left, sib := last.node, last.it, last.left == 0, Sibling(last);
    KnownSteps(m, v, cap, k, j, p, hops, tr, f, g, y);
    WalkShape(m, v, cap, k, j, p, hops, tr, f, g, y);
    WalkMidway(m, v, cap, k, j, p, hops, tr, f, g, y);
    KnownDead(m, v, cap, k, j, p, hops, tr, f, g, y);
    MidwayKids(MidMem(m, p, n, i, left, Pops(m, n), HopAbove(hops), sib),
               EraseResult(m, p, n, i, left, Pops(m, n), HopAbove(hops), sib, tr, DueSep(m, v, j, n, i, left, f),
                           OutcomeRoot(m, n, sib)),
               OutcomeView(m, v, j, n, left, g, sib), cap, p);
  }

  lemma WalkShape(m: Mem, v: View, cap: nat, k: Key, j: nat, p: Ptr, hops: seq<Hop>, tr: Target, f: Ptr, g: Ptr, y: nat)
    requires Known(m, v, cap, k, j, p, hops, tr, f, g, y) && tr.Target?
    requires Due(m, hops[|hops| - 1].node, hops[|hops| - 1].it, hops[|hops| - 1].left == 0)
    ensures var last := hops[|hops| - 1];
            var n, i, left, sib := last.node, last.it, last.left == 0, Sibling(last);
            var a, due := MidMem(m, p, n, i, left, Pops(m, n), HopAbove(hops), sib), DueSep(m, v, j, n, i, left, f);
            var b, v' := EraseResult(m, p, n, i, left, Pops(m, n), HopAbove(hops), sib, tr, due,
                                     OutcomeRoot(m, n, sib)),
                         OutcomeView(m, v, j, n, left, g, sib);
            && ShapeOk(b, v', cap, 0)
            && tr.node in v'.live && tr.node in b.inners && Sized(b.inners[tr.node], cap)
            && tr.it < b.inners[tr.node].size
            && b.inners[tr.node].entries[tr.it] == due
  {
    var last := hops[|hops| - 1];
    var n, i, left, sib := last.node, last.it, last.left == 0, Sibling(last);
    var due := DueSep(m, v, j, n, i, left, f);
    EndsFrom(m, v, cap, k, j, p, hops, tr, n, i, left, f, g, y, due);
    hide Known, Ends, EraseResult, OutcomeView, ShapeOk, Listing;
    OutcomeOk(m, v, cap, j, n, i, left, tr.node, tr.it, f, g, y, HopAbove(hops), sib, tr, due);
    DueIs(m, v, cap, j, n, i, left, tr.node, tr.it, f, g, y, HopAbove(hops), sib, tr, due);
  }

  lemma WalkMidway(m: Mem, v: View, cap: nat, k: Key, j: nat, p: Ptr, hops: seq<Hop>, tr: Target, f: Ptr, g: Ptr,
                   y: nat)
    requires Known(m, v, cap, k, j, p, hops, tr, f, g, y) && tr.Target?
    requires Due(m, hops[|hops| - 1].node, hops[|hops| - 1].it, hops[|hops| - 1].left == 0)
    ensures var last := hops[|hops| - 1];
            var n, i, left, sib := last.node, last.it, last.left == 0, Sibling(last);
            var a, due := MidMem(m, p, n, i, left, Pops(m, n), HopAbove(hops), sib), DueSep(m, v, j, n, i, left, f);
            var b := EraseResult(m, p, n, i, left, Pops(m, n), HopAbove(hops), sib, tr, due, OutcomeRoot(m, n, sib));
            Midway(a, b, p)
  {
    var last := hops[|hops| - 1];
    var n, i, left, sib := last.node, last.it, last.left == 0, Sibling(last);
    DeleteChildAt(m.inners[n], cap, i, left);
    hide Inv, HopsOk, TargetOk, Above, DeleteChild, Midway, EraseResult, MidMem, DueSep;
    MidwayIs(m, p, n, i, left, Pops(m, n), HopAbove(hops), sib, tr, DueSep(m, v, j, n, i, left, f),
             OutcomeRoot(m, n, sib));
  }

  lemma LiveNotLeaf(m: Mem, v: View, cap: nat, x: Ptr)
    requires ShapeOk(m, v, cap, 0) && x in v.live
    ensures x !in m.leaves
  {
    assert InnerOk(m, v, cap, 0, x);
  }

  lemma NotLive(m: Mem, v: View, cap: nat, j: nat, n: Ptr, left: bool, g: Ptr, sib: Ptr, p: Ptr)
    requires ShapeOk(m, v, cap, 0) && p in m.leaves && n in m.inners
    requires j < |v.chain| == |v.owner| && Dropped(j, left) < |v.owner|
    ensures p !in OutcomeView(m, v, j, n, left, g, sib).live
  {
    hide ShapeOk, InnerOk;
    if p in v.live { LiveNotLeaf(m, v, cap, p); }
  }

  lemma KnownDead(m: Mem, v: View, cap: nat, k: Key, j: nat, p: Ptr, hops: seq<Hop>, tr: Target, f: Ptr, g: Ptr, y: nat)
    requires Known(m, v, cap, k, j, p, hops, tr, f, g, y)
    ensures var last := hops[|hops| - 1];
            p !in OutcomeView(m, v, j, last.node, last.left == 0, g, Sibling(last)).live
  {
    hide HasEntry, OutcomeView, ShapeOk;
    var last := hops[|hops| - 1];
    NotLive(m, v, cap, j, last.node, last.left == 0, g, Sibling(last), p);
  }

  /** Where the walk starts: below a separator that has to follow, an inner node or a leaf
      that stays; next to the separator that has just gone, the leaf itself. */
  lemma WalkStart(m: Mem, v: View, cap: nat, k: Key, j: nat, p: Ptr, hops: seq<Hop>, tr: Target, f: Ptr, g: Ptr, y: nat)
    requires Known(m, v, cap, k, j, p, hops, tr, f, g, y) && tr.Target?
    ensures var last := hops[|hops| - 1];
            var n, i, left, sib := last.node, last.it, last.left == 0, Sibling(last);
            var a, v' := MidMem(m, p, n, i, left, Pops(m, n), HopAbove(hops), sib),
                OutcomeView(m, v, j, n, left, g, sib);
            && tr.node in a.inners && tr.it + 1 < |a.inners[tr.node].children|
            && var c := a.inners[tr.node].children[tr.it + 1];
            c in a.leaves || (c in v'.live && FirstKids(a, v', m.leaves.Keys - {p}))
  {
    hide Vanishes, Empties, Above, HopFor, DeleteChild, Inv, HopsOk, TargetOk, Unlink, Remove, ShapeOk, DueSep,
         EraseResult, MidMem, OutcomeView, FirstKids;
    var last := hops[|hops| - 1];
    var n, i, left, sib := last.node, last.it, last.left == 0, Sibling(last);
    KnownSteps(m, v, cap, k, j, p, hops, tr, f, g, y);
    if Due(m, n, i, left) {
      WalkReady(m, v, cap, k, j, p, hops, tr, f, g, y);
      TargetKid(m, v, cap, k, j, p, hops, tr, f, g, y);
    } else {
      DeadStart(m, v, cap, k, j, p, hops, tr, f, g, y);
    }
  }

  /** The child right of the separator that follows. */
  lemma TargetKid(m: Mem, v: View, cap: nat, k: Key, j: nat, p: Ptr, hops: seq<Hop>, tr: Target, f: Ptr, g: Ptr, y: nat)
    requires Known(m, v, cap, k, j, p, hops, tr, f, g, y) && tr.Target?
    requires Due(m, hops[|hops| - 1].node, hops[|hops| - 1].it, hops[|hops| - 1].left == 0)
    ensures var last := hops[|hops| - 1];
            var n, i, left, sib := last.node, last.it, last.left == 0, Sibling(last);
            var a, due := MidMem(m, p, n, i, left, Pops(m, n), HopAbove(hops), sib), DueSep(m, v, j, n, i, left, f);
            var b, v' := EraseResult(m, p, n, i, left, Pops(m, n), HopAbove(hops), sib, tr, due,
                                     OutcomeRoot(m, n, sib)),
                         OutcomeView(m, v, j, n, left, g, sib);
            && tr.node in a.inners && tr.it + 1 < |a.inners[tr.node].children|
            && var c := a.inners[tr.node].children[tr.it + 1];
            (c in a.leaves || c in v'.live) && b.leaves.Keys == m.leaves.Keys - {p}
  {
    hide Vanishes, Empties, Above, HopFor, DeleteChild, Inv, HopsOk, TargetOk, Unlink, Remove, ShapeOk, DueSep,
         EraseResult, MidMem, OutcomeView, FirstKids;
    var last := hops[|hops| - 1];
    var n, i, left, sib := last.node, last.it, last.left == 0, Sibling(last);
    var due := DueSep(m, v, j, n, i, left, f);
    KnownSteps(m, v, cap, k, j, p, hops, tr, f, g, y);
    WalkReady(m, v, cap, k, j, p, hops, tr, f, g, y);
    ResultLeaves(m, p, n, i, left, Pops(m, n), HopAbove(hops), sib, tr, due, OutcomeRoot(m, n, sib));
    KidIn(EraseResult(m, p, n, i, left, Pops(m, n), HopAbove(hops), sib, tr, due, OutcomeRoot(m, n, sib)),
          OutcomeView(m, v, j, n, left, g, sib), cap, tr.node, tr.it + 1);
  }

  lemma KidIn(m: Mem, v: View, cap: nat, n: Ptr, i: nat)
    requires ShapeOk(m, v, cap, 0) && n in v.live && n in m.inners && i <= m.inners[n].size < |m.inners[n].children|
    ensures m.inners[n].children[i] in v.live || m.inners[n].children[i] in m.leaves
  {
    assert InnerOk(m, v, cap, 0, n) && KidOk(m, v, n, i);
  }

  lemma ResultLeaves(m: Mem, p: Ptr, n: Ptr, i: nat, left: bool, popped: bool, hop: Hop, sib: Ptr, tr: Target, sep: Sep,
                     root: Ptr)
    requires p in m.leaves && Doable(m, n, i, popped, hop, tr)
    requires tr.Target? && tr.node == n ==> tr.it < |DeleteChild(m.inners[n], i, left).entries|
    ensures EraseResult(m, p, n, i, left, popped, hop, sib, tr, sep, root).leaves.Keys == m.leaves.Keys - {p}
  {
    UnlinkIs(m, p);
    hide Unlink, StepInners;
  }

  /** The separator that is due is the only thing by which the two differ in the inner nodes. */
  lemma SameChildren(m: Mem, p: Ptr, n: Ptr, i: nat, left: bool, popped: bool, hop: Hop, sib: Ptr, tr: Target, sep: Sep,
                     root: Ptr)
    requires p in m.leaves && m.leaves[p].size == 1 <= |m.leaves[p].idxs|
    requires Doable(m, n, i, popped, hop, tr) && Doable(m, n, i, popped, hop, NoTarget) && tr.Target?
    requires tr.node in MidMem(m, p, n, i, left, popped, hop, sib).inners
    requires tr.node in EraseResult(m, p, n, i, left, popped, hop, sib, tr, sep, root).inners
    ensures var a, b := MidMem(m, p, n, i, left, popped, hop, sib),
                        EraseResult(m, p, n, i, left, popped, hop, sib, tr, sep, root);
            b.inners[tr.node].children == a.inners[tr.node].children
  {
    hide Unlink, Remove, DeleteChild, Inherit;
    EmptiedLinks(m, p, m.(leaves := m.leaves[p := Remove(m.leaves[p], 0)],
                          inners := m.inners[n := DeleteChild(m.inners[n], i, left)]));
  }

  lemma KnownPlace(m: Mem, v: View, cap: nat, k: Key, j: nat, p: Ptr, hops: seq<Hop>, tr: Target, f: Ptr, g: Ptr,
                   y: nat)
    requires Known(m, v, cap, k, j, p, hops, tr, f, g, y)
    ensures var last := hops[|hops| - 1]; m.inners[last.node].children[ChildAt(last.it, last.left == 0)] == p
    ensures hops[|hops| - 1].node != m.root ==> g in m.inners && m.inners[g].size >= 1
  {
    hide Vanishes, Inv, HasEntry;
  }

  lemma DeadStart(m: Mem, v: View, cap: nat, k: Key, j: nat, p: Ptr, hops: seq<Hop>, tr: Target, f: Ptr, g: Ptr, y: nat)
    requires Known(m, v, cap, k, j, p, hops, tr, f, g, y) && tr.Target?
    requires !Due(m, hops[|hops| - 1].node, hops[|hops| - 1].it, hops[|hops| - 1].left == 0)
    ensures var last := hops[|hops| - 1];
            var n, i, left, sib := last.node, last.it, last.left == 0, Sibling(last);
            var a := MidMem(m, p, n, i, left, Pops(m, n), HopAbove(hops), sib);
            && tr.node in a.inners && tr.it + 1 < |a.inners[tr.node].children|
            && a.inners[tr.node].children[tr.it + 1] == p && p in a.leaves
  {
    hide Vanishes, Empties, Above, HopFor, DeleteChild, Inv, HopsOk, TargetOk, Unlink, Remove;
    var last := hops[|hops| - 1];
    var n, i := last.node, last.it;
    DeleteChildAt(m.inners[n], cap, i, false);
    KnownPlace(m, v, cap, k, j, p, hops, tr, f, g, y);
    EmptiedLinks(m, p, m.(leaves := m.leaves[p := Remove(m.leaves[p], 0)],
                          inners := m.inners[n := DeleteChild(m.inners[n], i, false)]));
  }

  /** What the walk finds is what is due. */
  lemma WalkFinds(m: Mem, v: View, cap: nat, k: Key, j: nat, p: Ptr, hops: seq<Hop>, tr: Target, f: Ptr, g: Ptr, y: nat,
                  q: Ptr)
    requires Known(m, v, cap, k, j, p, hops, tr, f, g, y) && tr.Target?
    requires Due(m, hops[|hops| - 1].node, hops[|hops| - 1].it, hops[|hops| - 1].left == 0)
    requires var last := hops[|hops| - 1];
             var n, i, left, sib := last.node, last.it, last.left == 0, Sibling(last);
             var a, v' := MidMem(m, p, n, i, left, Pops(m, n), HopAbove(hops), sib),
                 OutcomeView(m, v, j, n, left, g, sib);
             && tr.node in a.inners && tr.it + 1 < |a.inners[tr.node].children|
             && var c := a.inners[tr.node].children[tr.it + 1];
             if c in a.leaves then q == c else q in m.leaves.Keys - {p} && v'.Lo(q) == v'.Lo(c)
    ensures var last := hops[|hops| - 1];
            var n, i, left, sib := last.node, last.it, last.left == 0, Sibling(last);
            FrontSep(MidMem(m, p, n, i, left, Pops(m, n), HopAbove(hops), sib), q) == DueSep(m, v, j, n, i, left, f)
  {
    hide EraseResult, MidMem, OutcomeView, DeleteChild, ShapeOk, FrontSep, Midway, FirstKids, DueSep, Inv, HopsOk,
         Above,
         Vanishes, Empties, TargetOk, HopFor;
    var last := hops[|hops| - 1];
    var n, i, left, sib := last.node, last.it, last.left == 0, Sibling(last);
    var a := MidMem(m, p, n, i, left, Pops(m, n), HopAbove(hops), sib);
    var due := DueSep(m, v, j, n, i, left, f);
    var b, v' := EraseResult(m, p, n, i, left, Pops(m, n), HopAbove(hops), sib, tr, due, OutcomeRoot(m, n, sib)),
                 OutcomeView(m, v, j, n, left, g, sib);
    WalkReady(m, v, cap, k, j, p, hops, tr, f, g, y);
    KnownSteps(m, v, cap, k, j, p, hops, tr, f, g, y);
    ResultLeaves(m, p, n, i, left, Pops(m, n), HopAbove(hops), sib, tr, due, OutcomeRoot(m, n, sib));
    SameChildren(m, p, n, i, left, Pops(m, n), HopAbove(hops), sib, tr, due, OutcomeRoot(m, n, sib));
    WalkEnds(a, b, v', cap, p, tr.node, tr.it, q);
  }

  /** The steps can be taken, and the parent loses one separator. */
  lemma KnownSteps(m: Mem, v: View, cap: nat, k: Key, j: nat, p: Ptr, hops: seq<Hop>, tr: Target, f: Ptr, g: Ptr,
                   y: nat)
    requires Known(m, v, cap, k, j, p, hops, tr, f, g, y)
    ensures var last := hops[|hops| - 1];
            var n, i, left, hop := last.node, last.it, last.left == 0, HopAbove(hops);
            && p in m.leaves && m.leaves[p].size == 1 <= |m.leaves[p].idxs| && m.size > 0
            && n in m.inners && Sized(m.inners[n], |m.inners[n].entries|) && i < m.inners[n].size
            && Doable(m, n, i, Pops(m, n), hop, tr) && Doable(m, n, i, Pops(m, n), hop, NoTarget)
            && (Pops(m, n) <==> |hops| > 1 && m.inners[n].size == 1)
            && DeleteChild(m.inners[n], i, left).size == m.inners[n].size - 1
            && (Pops(m, n) ==> m.inners[hop.node].size > 0)
            && (tr.Target? && tr.node == n ==> tr.it < |DeleteChild(m.inners[n], i, left).entries|)
            && j < |v.chain| == |v.owner| && Dropped(j, left) < |v.owner|
  {
    hide Vanishes, Empties, Above, HopFor, DeleteChild, Inv, HopsOk, TargetOk, Unlink, Remove;
    DeleteChildAt(m.inners[hops[|hops| - 1].node], cap, hops[|hops| - 1].it, hops[|hops| - 1].left == 0);
    KnownPlace(m, v, cap, k, j, p, hops, tr, f, g, y);
  }

  lemma ResultInners(m: Mem, p: Ptr, n: Ptr, i: nat, left: bool, popped: bool, hop: Hop, sib: Ptr, tr: Target, sep: Sep,
                     root: Ptr)
    requires p in m.leaves && Doable(m, n, i, popped, hop, tr)
    ensures EraseResult(m, p, n, i, left, popped, hop, sib, tr, sep, root).inners.Keys
         == if popped then m.inners.Keys - {n} else m.inners.Keys
  {
    hide Unlink, DeleteChild, Inherit, Replace;
  }

  lemma OutcomeLive(m: Mem, v: View, j: nat, n: Ptr, left: bool, g: Ptr, sib: Ptr)
    requires j < |v.chain| == |v.owner| && Dropped(j, left) < |v.owner| && n in m.inners
    ensures OutcomeView(m, v, j, n, left, g, sib).live == if m.inners[n].size > 1 then v.live else v.live - {n}
  {
  }

  /** A collapsed parent is freed; a root that gives way to its only child is not. */
  lemma KnownLost(m: Mem, v: View, cap: nat, k: Key, j: nat, p: Ptr, hops: seq<Hop>, tr: Target, f: Ptr, g: Ptr,
                  y: nat, sep: Sep)
    requires Known(m, v, cap, k, j, p, hops, tr, f, g, y)
    ensures var last := hops[|hops| - 1];
            var n, i, left, sib := last.node, last.it, last.left == 0, Sibling(last);
            var r, v' := EraseResult(m, p, n, i, left, Pops(m, n), HopAbove(hops), sib, tr, sep,
                                     OutcomeRoot(m, n, sib)),
                         OutcomeView(m, v, j, n, left, g, sib);
            LostNodes(r, v') == LostNodes(m, v) + if r.root == m.root then {} else {m.root}
  {
    hide Vanishes, Above, HopFor, DeleteChild, HopsOk, TargetOk, EraseResult, OutcomeView, HasEntry, Listing, ChainOk;
    var last := hops[|hops| - 1];
    var n, i, left, sib := last.node, last.it, last.left == 0, Sibling(last);
    KnownSteps(m, v, cap, k, j, p, hops, tr, f, g, y);
    KnownRoot(m, v, cap, k, j, p, hops, tr, f, g, y, sep);
    ResultInners(m, p, n, i, left, Pops(m, n), HopAbove(hops), sib, tr, sep, OutcomeRoot(m, n, sib));
    OutcomeLive(m, v, j, n, left, g, sib);
  }

  lemma KnownLeaves(m: Mem, v: View, cap: nat, k: Key, j: nat, p: Ptr, hops: seq<Hop>, tr: Target, f: Ptr, g: Ptr,
                    y: nat, sep: Sep)
    requires Known(m, v, cap, k, j, p, hops, tr, f, g, y)
    ensures var last := hops[|hops| - 1];
            var n, i, left, sib := last.node, last.it, last.left == 0, Sibling(last);
            EraseResult(m, p, n, i, left, Pops(m, n), HopAbove(hops), sib, tr, sep,
                        OutcomeRoot(m, n, sib)).leaves.Keys == m.leaves.Keys - {p}
  {
    hide Vanishes, Above, HopFor, DeleteChild, HopsOk, TargetOk, EraseResult, HasEntry, Listing, ChainOk, Inv;
    var last := hops[|hops| - 1];
    var n, i, left, sib := last.node, last.it, last.left == 0, Sibling(last);
    KnownSteps(m, v, cap, k, j, p, hops, tr, f, g, y);
    ResultLeaves(m, p, n, i, left, Pops(m, n), HopAbove(hops), sib, tr, sep, OutcomeRoot(m, n, sib));
  }

  lemma KnownRoot(m: Mem, v: View, cap: nat, k: Key, j: nat, p: Ptr, hops: seq<Hop>, tr: Target, f: Ptr, g: Ptr,
                  y: nat, sep: Sep)
    requires Known(m, v, cap, k, j, p, hops, tr, f, g, y)
    requires var last := hops[|hops| - 1];
             Doable(m, last.node, last.it, Pops(m, last.node), HopAbove(hops), tr)
    ensures var last := hops[|hops| - 1];
            var n, sib := last.node, Sibling(last);
            && n in v.live && (m.inners[n].size == 1 ==> sib != m.root)
            && EraseResult(m, p, n, last.it, last.left == 0, Pops(m, n), HopAbove(hops), sib, tr, sep,
                           OutcomeRoot(m, n, sib)).root == OutcomeRoot(m, n, sib)
  {
    hide Vanishes, Above, HopFor, DeleteChild, HopsOk, TargetOk, Listing, Unlink, StepInners;
    var last := hops[|hops| - 1];
    var n := last.node;
    if m.inners[n].size == 1 { RootNoKid(m, v, cap, 0, n, if last.left == 0 then 1 else 0); }
  }

  lemma UnlinkKeeps(m: Mem, p: Ptr)
    requires p in m.leaves
    ensures var u := Unlink(m, p);
            u.inners == m.inners && u.root == m.root && u.size == m.size && u.leaves.Keys == m.leaves.Keys
  {
    UnlinkIs(m, p);
  }

  /** A root that is a leaf is the only leaf. */
  lemma LoneLeaf(m: Mem, v: View, cap: nat, p: Ptr, j: nat)
    requires Inv(m, v, cap) && p == m.root && p in m.leaves && j < |v.chain| && p == v.chain[j]
    ensures |v.chain| == 1
  {
    assert LeafAt(m, v, cap, j);
  }

  /** A single entry below inner nodes. */
  lemma VanishesFrom(m: Mem, v: View, cap: nat, k: Key, j: nat, p: Ptr, pos: nat, hops: seq<Hop>, tr: Target)
    requires Inv(m, v, cap) && Searched(m, v, cap, k, j, p, pos) && HasKey(m, p, pos, k) && m.leaves[p].size <= 1
    requires TargetOk(m, v, cap, tr, k, j, p) && HopsOk(m, v, cap, hops, p, j) && hops != [] && hops[0].node == m.root
    ensures Vanishes(m, v, cap, k, j, p, hops, tr)
  {
    ShrinksFacts(m, v, cap, k, j, p, pos, tr);
    LeafRows(m, v, cap, j);
  }

  /** The root after the steps, and the end of the transaction. */
  lemma KnownResult(m: Mem, v: View, cap: nat, k: Key, j: nat, p: Ptr, hops: seq<Hop>, tr: Target, f: Ptr, g: Ptr,
                    y: nat, sep: Sep)
    requires Known(m, v, cap, k, j, p, hops, tr, f, g, y)
    ensures var last := hops[|hops| - 1];
            var n, i, left, sib, hop := last.node, last.it, last.left == 0, Sibling(last), HopAbove(hops);
            var a := MidMem(m, p, n, i, left, Pops(m, n), hop, sib);
            && p in a.leaves && n in a.inners && a.size == m.size > 0 && a.root == m.root
            && (tr.Target? ==> tr.node in a.inners && tr.it < |a.inners[tr.node].entries|)
            && var b := if tr.Target? then a.(inners := a.inners[tr.node := Replace(a.inners[tr.node], tr.it, sep)])
                 else a;
            var back := if Pops(m, n) then hop.node else n;
            && back in b.inners
            && (if b.inners[back].size == 0 then sib else m.root) == OutcomeRoot(m, n, sib)
            && Mem(b.leaves - {p}, if Pops(m, n) then b.inners - {n} else b.inners, OutcomeRoot(m, n, sib), m.size - 1)
                 == EraseResult(m, p, n, i, left, Pops(m, n), hop, sib, tr, sep, OutcomeRoot(m, n, sib))
  {
    var last := hops[|hops| - 1];
    var n, i, left, sib, hop := last.node, last.it, last.left == 0, Sibling(last), HopAbove(hops);
    KnownSteps(m, v, cap, k, j, p, hops, tr, f, g, y);
    StepsEnd(m, p, n, i, left, Pops(m, n), hop, sib, tr, sep, OutcomeRoot(m, n, sib));
    BackSize(m, p, n, i, left, Pops(m, n), hop, sib);
    hide Known, DeleteChild, EraseResult, Doable, MidMem;
  }

  lemma BackSize(m: Mem, p: Ptr, n: Ptr, i: nat, left: bool, popped: bool, hop: Hop, sib: Ptr)
    requires p in m.leaves && m.leaves[p].size == 1 <= |m.leaves[p].idxs| && Doable(m, n, i, popped, hop, NoTarget)
    ensures var a := MidMem(m, p, n, i, left, popped, hop, sib);
            popped ==> hop.node in a.inners && a.inners[hop.node].size == m.inners[hop.node].size
  {
    var a := m.(leaves := m.leaves[p := Remove(m.leaves[p], 0)],
                inners := m.inners[n := DeleteChild(m.inners[n], i, left)]);
    UnlinkIs(a, p);
    hide Unlink, DeleteChild, Remove;
  }
}
