/** The steps inside one erase transaction of stree's B+ tree that empties a leaf, in the
    order of the source, and what they add up to. The leaf and a collapsed node are
    freed only when the transaction commits, so the steps may still read them; a write
    to a place behind a node's live separators does no harm. */
module StreeRemove {
  import opened Keys
  import opened StreeLeaf
  import opened StreeInner
  import opened StreeListing
  import opened StreeTree
  import opened StreeInsert
  import opened StreeSplit
  import opened StreePath
  import opened StreeErase
  import opened StreeDelete
  import opened StreeCollapse

  /** One node on the way to a leaf: the iterator get_child_and_siblings returns, and
      the siblings of the child taken; 0 stands for none. */
  datatype Hop = Hop(node: Ptr, it: nat, left: Ptr, right: Ptr)

  /** The hop through child `i` of a node. */
  function HopAt(m: Mem, n: Ptr, i: nat): Hop
    requires n in m.inners && i <= m.inners[n].size < |m.inners[n].children|
  {
    var node := m.inners[n];
    Hop(n, if i == 0 then 0 else i - 1, if i == 0 then 0 else node.children[i - 1],
        if i == node.size then 0 else node.children[i + 1])
  }

  /** No child is null, so a hop has a left sibling unless it takes the first child. */
  lemma HopLeft(m: Mem, v: View, cap: nat, n: Ptr, i: nat)
    requires ShapeOk(m, v, cap, 0) && n in v.live && n in m.inners && i <= m.inners[n].size < |m.inners[n].children|
    ensures HopAt(m, n, i).left == 0 <==> i == 0
    ensures HopAt(m, n, i).right == 0 <==> i == m.inners[n].size
  {
    assert InnerOk(m, v, cap, 0, n);
    if i > 0 { KidNotNull(m, v, cap, n, i - 1); }
    if i < m.inners[n].size { KidNotNull(m, v, cap, n, i + 1); }
  }

  lemma KidNotNull(m: Mem, v: View, cap: nat, n: Ptr, i: nat)
    requires ShapeOk(m, v, cap, 0) && n in v.live && InnerOk(m, v, cap, 0, n) && i <= m.inners[n].size
    ensures m.inners[n].children[i] != 0
  {
    assert KidOk(m, v, n, i);
    var c := m.inners[n].children[i];
    if c in v.live {
      assert InnerOk(m, v, cap, 0, c);
    } else {
      LeafIs(m, v, cap, c, v.Lo(c));
      assert LeafAt(m, v, cap, v.Lo(c));
    }
  }

  /** The sibling of a leaf that is the left or the right of two children. */
  function OtherChild(m: Mem, n: Ptr, left: bool): Ptr
    requires n in m.inners && |m.inners[n].children| > 1
  {
    m.inners[n].children[if left then 1 else 0]
  }

  /** The separator to update, if there is one. */
  datatype Target = NoTarget | Target(node: Ptr, it: nat)

  /** The steps find the places they write. */
  predicate Doable(m: Mem, n: Ptr, i: nat, popped: bool, g: Hop, tr: Target) {
    && n in m.inners && Sized(m.inners[n], |m.inners[n].entries|) && i < m.inners[n].size
    && (popped ==> g.node in m.inners && g.node != n && g.it + 1 < |m.inners[g.node].children|)
    && (tr.Target? ==> tr.node in m.inners && tr.it < |m.inners[tr.node].entries|)
  }

  /** The inner nodes after the steps. */
  function StepInners(m: Mem, n: Ptr, i: nat, left: bool, popped: bool, g: Hop, sib: Ptr, tr: Target,
                      sep: Sep): map<Ptr, Inner>
    requires Doable(m, n, i, popped, g, tr)
  {
    var a := m.inners[n := DeleteChild(m.inners[n], i, left)];
    var b := if popped then a[g.node := Inherit(a[g.node], g.it, sib, g.left == 0)] else a;
    var c := if tr.Target? then b[tr.node := Replace(b[tr.node], tr.it, sep)] else b;
    if popped then c - {n} else c
  }

  /** The whole transaction: leaf `p`, a child of `n`, goes. */
  function EraseResult(m: Mem, p: Ptr, n: Ptr, i: nat, left: bool, popped: bool, g: Hop, sib: Ptr, tr: Target, sep: Sep,
                       root: Ptr): Mem
    requires p in m.leaves && Doable(m, n, i, popped, g, tr)
  {
    Mem(Unlink(m, p).leaves - {p}, StepInners(m, n, i, left, popped, g, sib, tr, sep), root,
        if m.size > 0 then m.size - 1 else 0)
  }

  // ------------------------------------------------------------ harmless writes

  /** A separator that is not live may take any value. */
  lemma DeadSlot(m: Mem, v: View, cap: nat, weak: Ptr, n: Ptr, i: nat, sep: Sep)
    requires ShapeOk(m, v, cap, weak) && n in m.inners && i < |m.inners[n].entries|
    requires n in v.live ==> i >= m.inners[n].size || sep == m.inners[n].entries[i]
    ensures ShapeOk(m.(inners := m.inners[n := Replace(m.inners[n], i, sep)]), v, cap, weak)
    ensures Listing(m.(inners := m.inners[n := Replace(m.inners[n], i, sep)]), v.chain) == Listing(m, v.chain)
  {
    var m' := m.(inners := m.inners[n := Replace(m.inners[n], i, sep)]);
    ListingFrame(m, m', v.chain);
    SplitChain(m, m', v, cap);
    forall x | x in v.live
      ensures InnerOk(m', v, cap, weak, x)
    {
      assert InnerOk(m, v, cap, weak, x);
      SlotInner(m, m', v, cap, weak, n, i, sep, x);
    }
  }

  lemma SlotInner(m: Mem, m': Mem, v: View, cap: nat, weak: Ptr, n: Ptr, i: nat, sep: Sep, x: Ptr)
    requires InnerOk(m, v, cap, weak, x) && x in v.live && n in m.inners && i < |m.inners[n].entries|
    requires n in v.live ==> i >= m.inners[n].size || sep == m.inners[n].entries[i]
    requires m' == m.(inners := m.inners[n := Replace(m.inners[n], i, sep)])
    ensures InnerOk(m', v, cap, weak, x)
  {
    forall y | 0 <= y <= m.inners[x].size
      ensures KidOk(m', v, x, y)
    {
      assert KidOk(m, v, x, y);
    }
    forall y | 0 <= y < m.inners[x].size
      ensures SepOk(m', v, x, y)
    {
      assert SepOk(m, v, x, y);
      FrontSepLeaves(m, m', v.chain[v.Lo(m.inners[x].children[y + 1])]);
    }
  }

  // ------------------------------------------------------------ what the steps add up to

  /** Leaf `j` goes, and the separator to update is the one above it, or the one that has
      just gone with it. */
  ghost predicate Erases(m: Mem, v: View, cap: nat, j: nat, n: Ptr, i: nat, left: bool, t: Ptr, s: nat, f: Ptr,
                         tr: Target, sep: Sep) {
    && Goes(m, v, cap, j, n, i, left, t, s, f)
    && (if left then tr == (if f != 0 then Target(t, s) else NoTarget) else tr == Target(n, i))
    && (left && f != 0 ==> sep == FrontSep(DeleteLeaf(m, v.chain[j], n, i, left), f))
  }

  /** Without a collapse: the leaf is deleted, the separator above follows, and at most
      a dead or unchanged separator is written. */
  lemma StepsPlain(m: Mem, v: View, cap: nat, j: nat, n: Ptr, i: nat, left: bool, t: Ptr, s: nat, f: Ptr,
                   g: Hop, sib: Ptr, tr: Target, sep: Sep, root: Ptr)
    requires Erases(m, v, cap, j, n, i, left, t, s, f, tr, sep)
    ensures var d, r := DeleteAndFollow(m, v.chain[j], n, i, left, t, s, f),
                        EraseResult(m, v.chain[j], n, i, left, false, g, sib, tr, sep, root);
            r == (if left then d else d.(inners := d.inners[n := Replace(d.inners[n], i, sep)])).(root := root)
  {
    UnlinkIs(m, v.chain[j]);
    hide Inv, DeleteChild, Unlink, Unlinked;
  }

  /** With a collapse. */
  lemma StepsCollapse(m: Mem, v: View, cap: nat, j: nat, n: Ptr, i: nat, left: bool, t: Ptr, s: nat, f: Ptr,
                      g: Ptr, y: nat, sib: Ptr, tr: Target, sep: Sep)
    requires Erases(m, v, cap, j, n, i, left, t, s, f, tr, sep)
    requires IsKid(m, v, cap, g, y, n) && g != n && m.inners[n].size == 1 && m.inners[g].size >= 1
    requires Doable(m, n, i, true, HopAt(m, g, y), tr)
    requires n in m.inners && |m.inners[n].children| > 1 && sib == OtherChild(m, n, left)
    ensures var d, r := DeleteAndFollow(m, v.chain[j], n, i, left, t, s, f),
                        EraseResult(m, v.chain[j], n, i, left, true, HopAt(m, g, y), sib, tr, sep, m.root);
            n in d.inners && g in d.inners && y < |d.inners[g].children| && |d.inners[n].children| > 0
            && r == CollapseInner(d, n, g, y)
  {
    var p, hop := v.chain[j], HopAt(m, g, y);
    HopPlace(m, v, cap, g, y);
    LastChild(m, v, cap, j, n, i, left);
    DeleteParts(m, p, n, i, left);
    assert Sized(m.inners[g], cap) && y < cap + 1;
    hide Inv, DeleteChild, Unlink, HopAt, Doable, Empties, IsKid, Follows, FrontSep, Sized, OtherChild, DeleteLeaf;
    var nn := DeleteChild(m.inners[n], i, left);
    InnersCommute(m.inners, n, nn, g, y, hop, sib, tr, sep);
  }

  lemma DeleteParts(m: Mem, p: Ptr, n: Ptr, i: nat, left: bool)
    requires p in m.leaves && n in m.inners && Sized(m.inners[n], |m.inners[n].entries|) && i < m.inners[n].size
    ensures var d := DeleteLeaf(m, p, n, i, left);
            && d.leaves == Unlink(m, p).leaves - {p} && d.inners == m.inners[n := DeleteChild(m.inners[n], i, left)]
            && d.root == m.root && d.size == if m.size > 0 then m.size - 1 else 0
  {
    UnlinkIs(m, p);
    hide Unlink, DeleteChild, Unlinked;
  }

  /** Writing the child first or the separator first is the same. */
  lemma InnersCommute(a: map<Ptr, Inner>, n: Ptr, nn: Inner, g: Ptr, y: nat, hop: Hop, sib: Ptr, tr: Target, sep: Sep)
    requires n in a && g in a && g != n && y < |a[g].children| && hop.it + 1 < |a[g].children|
    requires hop.node == g && y == if hop.left == 0 then hop.it else hop.it + 1
    requires tr.Target? && tr.node != n ==> tr.node in a && tr.it < |a[tr.node].entries|
    requires tr.Target? && tr.node == n ==> tr.it < |nn.entries|
    ensures var b := a[n := nn];
            var c := b[g := Inherit(b[g], hop.it, sib, hop.left == 0)];
            var d := if tr.Target? then c[tr.node := Replace(c[tr.node], tr.it, sep)] else c;
            var e := if tr.Target? && tr.node != n then b[tr.node := Replace(b[tr.node], tr.it, sep)] else b;
            d - {n} == e[g := e[g].(children := e[g].children[y := sib])] - {n}
  {
  }

  /** inherit_child writes the place of the collapsed child. */
  lemma HopPlace(m: Mem, v: View, cap: nat, g: Ptr, y: nat)
    requires ShapeOk(m, v, cap, 0) && g in v.live && g in m.inners && y <= m.inners[g].size < |m.inners[g].children|
    ensures var hop := HopAt(m, g, y);
            hop.node == g && y == if hop.left == 0 then hop.it else hop.it + 1
  {
    HopLeft(m, v, cap, g, y);
  }

  /** What is left of a parent with two children. */
  lemma LastChild(m: Mem, v: View, cap: nat, j: nat, n: Ptr, i: nat, left: bool)
    requires Empties(m, v, cap, j, n, i, left) && m.inners[n].size == 1
    ensures var r := DeleteChild(m.inners[n], i, left);
            Sized(r, cap) && r.size == 0 && r.children[0] == OtherChild(m, n, left)
  {
    hide Inv, HasEntry, DeleteChild;
    DeleteChildAt(m.inners[n], cap, i, left);
  }

  // ------------------------------------------------------------ the outcome is well-formed

  /** The parent keeps a separator. */
  lemma PlainOk(m: Mem, v: View, cap: nat, j: nat, n: Ptr, i: nat, left: bool, t: Ptr, s: nat, f: Ptr,
                g: Hop, sib: Ptr, tr: Target, sep: Sep)
    requires Erases(m, v, cap, j, n, i, left, t, s, f, tr, sep) && m.inners[n].size > 1
    requires !left && i + 1 < m.inners[n].size ==> sep == DeleteChild(m.inners[n], i, left).entries[i]
    ensures var r, v' := EraseResult(m, v.chain[j], n, i, left, false, g, sib, tr, sep, m.root),
                         DeleteView(v, j, Dropped(j, left));
            && ShapeOk(r, v', cap, 0) && Offset(m, v, j) < |Listing(m, v.chain)| && r.size == m.size - 1
            && Listing(r, v'.chain) == ErasedAt(Listing(m, v.chain), Offset(m, v, j))
  {
    var d, v' := DeleteAndFollow(m, v.chain[j], n, i, left, t, s, f), DeleteView(v, j, Dropped(j, left));
    DeleteOk(m, v, cap, j, n, i, left, t, s, f);
    StepsPlain(m, v, cap, j, n, i, left, t, s, f, g, sib, tr, sep, m.root);
    FollowedNodes(m, v, cap, j, n, i, left, t, s, f);
    DeleteChildAt(m.inners[n], cap, i, left);
    DeleteIs(m, v, cap, j, n, i, left);
    hide DeleteAndFollow, DeleteView, DeleteLeaf, EraseResult, DeleteChild, ShapeOk, Listing, Inv;
    NotWeak(d, v', cap, n);
    if !left { DeadSlot(d, v', cap, 0, n, i, sep); }
  }

  /** The root was the parent, and its other child becomes the root. */
  lemma NewRootOk(m: Mem, v: View, cap: nat, j: nat, n: Ptr, i: nat, left: bool, t: Ptr, s: nat, f: Ptr,
                  g: Hop, sib: Ptr, tr: Target, sep: Sep)
    requires Erases(m, v, cap, j, n, i, left, t, s, f, tr, sep) && m.inners[n].size == 1 && n == m.root
    requires n in m.inners && |m.inners[n].children| > 1 && sib == OtherChild(m, n, left)
    ensures var r, v' := EraseResult(m, v.chain[j], n, i, left, false, g, sib, tr, sep, sib),
                         WithoutNode(DeleteView(v, j, Dropped(j, left)), n);
            && ShapeOk(r, v', cap, 0) && Offset(m, v, j) < |Listing(m, v.chain)| && r.size == m.size - 1
            && Listing(r, v'.chain) == ErasedAt(Listing(m, v.chain), Offset(m, v, j))
  {
    var d, v' := DeleteAndFollow(m, v.chain[j], n, i, left, t, s, f), DeleteView(v, j, Dropped(j, left));
    DeleteOk(m, v, cap, j, n, i, left, t, s, f);
    StepsPlain(m, v, cap, j, n, i, left, t, s, f, g, sib, tr, sep, sib);
    FollowedNodes(m, v, cap, j, n, i, left, t, s, f);
    LastChild(m, v, cap, j, n, i, left);
    DeleteSize(m, v, cap, j, n, i, left, t, s, f);
    hide DeleteAndFollow, DeleteView, DeleteLeaf, EraseResult, DeleteChild, ShapeOk, Listing, Inv, Doable, Follows,
         Empties;
    var e := if left then d else d.(inners := d.inners[n := Replace(d.inners[n], i, sep)]);
    if !left { DeadSlot(d, v', cap, n, n, i, sep); }
    LoneNow(e, v', cap, n);
    CollapseRootOk(e, v', cap, n);
  }

  lemma LoneNow(m: Mem, v: View, cap: nat, n: Ptr)
    requires ShapeOk(m, v, cap, n) && n in v.live && n in m.inners && m.inners[n].size == 0
    ensures Lone(m, v, cap, n)
  {
  }

  lemma CollapseFrom(m: Mem, v: View, cap: nat, n: Ptr, g: Ptr, y: nat, c: Ptr, size: nat, listing: seq<Entry>)
    requires ShapeOk(m, v, cap, n) && n in v.live && n in m.inners && m.inners[n].size == 0
    requires |m.inners[n].children| > 0 && m.inners[n].children[0] == c
    requires g != n && IsKid(m, v, cap, g, y, n) && m.size == size && Listing(m, v.chain) == listing
    ensures var r, w := CollapseInner(m, n, g, y), Adopted(v, n, c, g);
            ShapeOk(r, w, cap, 0) && r.size == size && Listing(r, w.chain) == listing
  {
    CollapseInnerOk(m, v, cap, n, g, y);
  }

  /** The parent collapses into its other child. */
  lemma CollapseOk(m: Mem, v: View, cap: nat, j: nat, n: Ptr, i: nat, left: bool, t: Ptr, s: nat, f: Ptr,
                   g: Ptr, y: nat, sib: Ptr, tr: Target, sep: Sep)
    requires Erases(m, v, cap, j, n, i, left, t, s, f, tr, sep) && m.inners[n].size == 1 && n != m.root
    requires IsKid(m, v, cap, g, y, n) && g != n && m.inners[g].size >= 1
    requires Doable(m, n, i, true, HopAt(m, g, y), tr)
    requires n in m.inners && |m.inners[n].children| > 1 && sib == OtherChild(m, n, left)
    ensures var r, v' := EraseResult(m, v.chain[j], n, i, left, true, HopAt(m, g, y), sib, tr, sep, m.root),
                         Adopted(DeleteView(v, j, Dropped(j, left)), n, sib, g);
            && ShapeOk(r, v', cap, 0) && Offset(m, v, j) < |Listing(m, v.chain)| && r.size == m.size - 1
            && Listing(r, v'.chain) == ErasedAt(Listing(m, v.chain), Offset(m, v, j))
  {
    hide DeleteAndFollow, DeleteView, DeleteLeaf, EraseResult, DeleteChild, ShapeOk, Inv, Doable, Follows, Empties,
         HopAt, CollapseInner, Adopted, Listing, Offset, InnerOk, IsKid;
    MayDelete(m, v, cap, j, n, i, left, t, s, f);
    var d, v' := DeleteAndFollow(m, v.chain[j], n, i, left, t, s, f), DeleteView(v, j, Dropped(j, left));
    DeleteOk(m, v, cap, j, n, i, left, t, s, f);
    assert Listing(d, v'.chain) == ErasedAt(Listing(m, v.chain), Offset(m, v, j));
    StepsCollapse(m, v, cap, j, n, i, left, t, s, f, g, y, sib, tr, sep);
    LastChild(m, v, cap, j, n, i, left);
    StillKid(m, v, cap, j, n, i, left, t, s, f, g, y);
    CollapseFrom(d, v', cap, n, g, y, sib, m.size - 1, ErasedAt(Listing(m, v.chain), Offset(m, v, j)));
  }

  lemma MayDelete(m: Mem, v: View, cap: nat, j: nat, n: Ptr, i: nat, left: bool, t: Ptr, s: nat, f: Ptr)
    requires Goes(m, v, cap, j, n, i, left, t, s, f)
    ensures j < |v.chain| == |v.owner| && Dropped(j, left) < |v.owner| && v.chain[j] in m.leaves && n in m.inners
    ensures Sized(m.inners[n], |m.inners[n].entries|) && i < m.inners[n].size && n in v.live
    ensures f != 0 ==> t in m.inners && s < |m.inners[t].entries| && t != n
  {
  }

  /** The grandparent's child is still the parent. */
  lemma StillKid(m: Mem, v: View, cap: nat, j: nat, n: Ptr, i: nat, left: bool, t: Ptr, s: nat, f: Ptr, g: Ptr, y: nat)
    requires Goes(m, v, cap, j, n, i, left, t, s, f) && m.inners[n].size == 1
    requires IsKid(m, v, cap, g, y, n) && g != n
    ensures var d, v' := DeleteAndFollow(m, v.chain[j], n, i, left, t, s, f), DeleteView(v, j, Dropped(j, left));
            && v'.live == v.live && n in d.inners && d.inners[n] == DeleteChild(m.inners[n], i, left)
            && IsKid(d, v', cap, g, y, n) && d.size == m.size - 1
  {
    FollowedNodes(m, v, cap, j, n, i, left, t, s, f);
    DeleteSize(m, v, cap, j, n, i, left, t, s, f);
    hide DeleteAndFollow, DeleteLeaf, Inv, Empties, Follows, DeleteChild, DeleteView;
  }

  lemma DeleteSize(m: Mem, v: View, cap: nat, j: nat, n: Ptr, i: nat, left: bool, t: Ptr, s: nat, f: Ptr)
    requires Goes(m, v, cap, j, n, i, left, t, s, f)
    ensures var d := DeleteAndFollow(m, v.chain[j], n, i, left, t, s, f);
            && d.size == m.size - 1 && d.root == m.root
            && DeleteView(v, j, Dropped(j, left)).live == v.live
  {
    DeleteIs(m, v, cap, j, n, i, left);
    hide DeleteLeaf, Inv, Empties, Follows;
  }

  // ------------------------------------------------------------ all three at once

  /** The view after the transaction: the parent stays, the root moves down, or the
      grandparent adopts. */
  ghost function OutcomeView(m: Mem, v: View, j: nat, n: Ptr, left: bool, g: Ptr, sib: Ptr): View
    requires j < |v.chain| == |v.owner| && Dropped(j, left) < |v.owner| && n in m.inners
  {
    var v' := DeleteView(v, j, Dropped(j, left));
    if m.inners[n].size > 1 then v' else if n == m.root then WithoutNode(v', n) else Adopted(v', n, sib, g)
  }

  /** The node above the parent, if the parent is not the root. */
  ghost predicate Above(m: Mem, v: View, cap: nat, n: Ptr, g: Ptr, y: nat) {
    n != m.root ==>
      IsKid(m, v, cap, g, y, n) && g != n && m.inners[g].size >= 1 && |m.inners[g].children| > m.inners[g].size
  }

  /** The iterator of the node above, as erase has it. */
  ghost predicate HopFor(m: Mem, n: Ptr, g: Ptr, y: nat, hop: Hop) {
    n != m.root ==> g in m.inners && y <= m.inners[g].size < |m.inners[g].children| && hop == HopAt(m, g, y)
  }

  /** Everything erase knows once the leaf is empty. */
  ghost predicate Ends(m: Mem, v: View, cap: nat, j: nat, n: Ptr, i: nat, left: bool, t: Ptr, s: nat, f: Ptr,
                       g: Ptr, y: nat, hop: Hop, sib: Ptr, tr: Target, sep: Sep) {
    && Erases(m, v, cap, j, n, i, left, t, s, f, tr, sep)
    && (!left && i + 1 < m.inners[n].size ==> sep == DeleteChild(m.inners[n], i, left).entries[i])
    && Above(m, v, cap, n, g, y) && HopFor(m, n, g, y, hop)
    && (m.inners[n].size == 1 ==> |m.inners[n].children| > 1 && sib == OtherChild(m, n, left))
    && Doable(m, n, i, Pops(m, n), hop, tr)
  }

  /** The parent collapses below another node. */
  predicate Pops(m: Mem, n: Ptr)
    requires n in m.inners
  {
    m.inners[n].size == 1 && n != m.root
  }

  /** The root after the transaction. */
  function OutcomeRoot(m: Mem, n: Ptr, sib: Ptr): Ptr
    requires n in m.inners
  {
    if m.inners[n].size == 1 && n == m.root then sib else m.root
  }

  /** A leaf that becomes empty goes, and the tree is well-formed without it and its
      last entry. */
  lemma OutcomeOk(m: Mem, v: View, cap: nat, j: nat, n: Ptr, i: nat, left: bool, t: Ptr, s: nat, f: Ptr,
                  g: Ptr, y: nat, hop: Hop, sib: Ptr, tr: Target, sep: Sep)
    requires Ends(m, v, cap, j, n, i, left, t, s, f, g, y, hop, sib, tr, sep)
    ensures var r, v' := EraseResult(m, v.chain[j], n, i, left, Pops(m, n), hop, sib, tr, sep, OutcomeRoot(m, n, sib)),
                         OutcomeView(m, v, j, n, left, g, sib);
            && ShapeOk(r, v', cap, 0) && Offset(m, v, j) < |Listing(m, v.chain)| && r.size == m.size - 1
            && Listing(r, v'.chain) == ErasedAt(Listing(m, v.chain), Offset(m, v, j))
  {
    assert Erases(m, v, cap, j, n, i, left, t, s, f, tr, sep);
    hide Erases, ShapeOk, Listing, EraseResult, DeleteView, Adopted, WithoutNode, Inv;
    if m.inners[n].size > 1 {
      PlainOk(m, v, cap, j, n, i, left, t, s, f, hop, sib, tr, sep);
    } else if n == m.root {
      NewRootOk(m, v, cap, j, n, i, left, t, s, f, hop, sib, tr, sep);
    } else {
      CollapseOk(m, v, cap, j, n, i, left, t, s, f, g, y, sib, tr, sep);
    }
  }
}
