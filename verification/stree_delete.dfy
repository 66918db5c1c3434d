/** Removing an emptied leaf from stree's B+ tree. Its parent loses a separator and a
    child, the chain closes over it, and if it was a first child the separator further
    up that pointed to it follows the next leaf. */
module StreeDelete {
  import opened Keys
  import opened StreeLeaf
  import opened StreeInner
  import opened StreeListing
  import opened StreeTree
  import opened StreeInsert
  import opened StreeSplit
  import opened StreeSplitInner
  import opened StreePath
  import opened StreeErase

  /** The chain closes over leaf `p`. */
  function Unlink(m: Mem, p: Ptr): Mem
    requires p in m.leaves
  {
    var l := m.leaves[p];
    var a := if l.prev in m.leaves then m.leaves[l.prev := m.leaves[l.prev].(next := l.next)] else m.leaves;
    var b := if l.next in a then a[l.next := a[l.next].(prev := l.prev)] else a;
    m.(leaves := b)
  }

  /** delete_leaf_ext on leaf `p` and parent `n`, once the leaf is deallocated. */
  function DeleteLeaf(m: Mem, p: Ptr, n: Ptr, i: nat, left: bool): Mem
    requires p in m.leaves && n in m.inners && Sized(m.inners[n], |m.inners[n].entries|) && i < m.inners[n].size
  {
    var m1 := Unlink(m, p);
    m1.(leaves := m1.leaves - {p}, inners := m1.inners[n := DeleteChild(m1.inners[n], i, left)],
        size := if m.size > 0 then m.size - 1 else 0)
  }

  /** How leaf numbers move when leaf `j` goes. */
  function Down(j: nat, x: nat): nat {
    if x > j then x - 1 else x
  }

  /** The view without leaf `j`; the separator for leaf `d` is the one that goes. */
  ghost function DeleteView(v: View, j: nat, d: nat): View
    requires j < |v.chain| == |v.owner| && d < |v.owner|
  {
    View(v.chain[..j] + v.chain[j + 1..],
         map x | x in v.lo :: Down(j, v.lo[x]),
         map x | x in v.hi :: Down(j, v.hi[x]),
         v.live,
         v.parent,
         v.owner[..d] + v.owner[d + 1..])
  }

  lemma DeleteViewIs(v: View, j: nat, d: nat)
    requires j < |v.chain| == |v.owner| && d < |v.owner|
    ensures var v' := DeleteView(v, j, d);
            && |v'.chain| == |v'.owner| == |v.chain| - 1 && v'.live == v.live
            && (forall x :: 0 <= x < |v.chain| && x != j ==> v'.chain[Down(j, x)] == v.chain[x])
            && (forall x :: 0 <= x < |v.owner| && x != d ==> v'.owner[if x < d then x else x - 1] == v.owner[x])
            && (forall c :: v'.Lo(c) == Down(j, v.Lo(c)) && v'.Hi(c) == Down(j, v.Hi(c)) && v'.Parent(c) == v.Parent(c))
  {
  }

  lemma DeleteBounds(v: View, j: nat, d: nat, c: Ptr)
    requires j < |v.chain| == |v.owner| && d < |v.owner|
    ensures var v' := DeleteView(v, j, d);
            v'.Lo(c) == Down(j, v.Lo(c)) && v'.Hi(c) == Down(j, v.Hi(c)) && v'.Parent(c) == v.Parent(c)
  {
  }

  /** The place of the leaf among its parent's children. */
  function ChildAt(i: nat, left: bool): nat {
    if left then i else i + 1
  }

  /** The leaf whose separator goes with leaf `j`. */
  function Dropped(j: nat, left: bool): nat {
    if left then j + 1 else j
  }

  /** Leaf `j` holds its last entry; it is a child of `n`, next to separator `i`; it is
      the left of the two children there only if it is the first. */
  ghost predicate Empties(m: Mem, v: View, cap: nat, j: nat, n: Ptr, i: nat, left: bool) {
    && Inv(m, v, cap) && HasEntry(m, v, cap, j, 0) && m.leaves[v.chain[j]].size == 1
    && n in v.live && n in m.inners && Sized(m.inners[n], cap) && i < m.inners[n].size
    && m.inners[n].children[ChildAt(i, left)] == v.chain[j] && (left ==> i == 0)
    && Dropped(j, left) < |v.chain| == |v.owner|
  }

  lemma EmptiesFacts(m: Mem, v: View, cap: nat, j: nat, n: Ptr, i: nat, left: bool)
    requires Empties(m, v, cap, j, n, i, left)
    ensures InnerOk(m, v, cap, 0, n) && KidOk(m, v, n, ChildAt(i, left)) && KidOk(m, v, n, i) && KidOk(m, v, n, i + 1)
    ensures LeafAt(m, v, cap, j) && v.Lo(v.chain[j]) == j && v.Hi(v.chain[j]) == j + 1 && v.Parent(v.chain[j]) == n
    ensures SepOk(m, v, n, i) && v.Lo(m.inners[n].children[i + 1]) == Dropped(j, left) < |v.chain| == |v.owner|
    ensures v.owner[Dropped(j, left)] == n && (left ==> v.Lo(n) == j) && 1 <= Dropped(j, left)
  {
    assert InnerOk(m, v, cap, 0, n) && LeafAt(m, v, cap, j);
    assert KidOk(m, v, n, i) && KidOk(m, v, n, i + 1) && SepOk(m, v, n, i);
  }

  /** The links of leaf `x` after its neighbour between `prev` and `next` is gone. */
  function Unlinked(l: Leaf, x: Ptr, prev: Ptr, next: Ptr): Leaf {
    var a := if x == prev then l.(next := next) else l;
    if x == next then a.(prev := prev) else a
  }

  lemma UnlinkIs(m: Mem, p: Ptr)
    requires p in m.leaves
    ensures var u := Unlink(m, p);
            && u.leaves.Keys == m.leaves.Keys && u.inners == m.inners && u.root == m.root && u.size == m.size
            && forall x :: x in m.leaves ==> u.leaves[x] == Unlinked(m.leaves[x], x, m.leaves[p].prev, m.leaves[p].next)
  {
  }

  lemma DeleteIs(m: Mem, v: View, cap: nat, j: nat, n: Ptr, i: nat, left: bool)
    requires Empties(m, v, cap, j, n, i, left)
    ensures var m', p := DeleteLeaf(m, v.chain[j], n, i, left), v.chain[j];
            && m'.root == m.root && m'.size == m.size - 1 && m.size > 0
            && m'.inners == m.inners[n := DeleteChild(m.inners[n], i, left)]
            && m'.leaves.Keys == m.leaves.Keys - {p}
            && forall x :: x in m'.leaves ==>
                 x in m.leaves && m'.leaves[x] == Unlinked(m.leaves[x], x, m.leaves[p].prev, m.leaves[p].next)
  {
    RowPlace(m, v.chain, j, 0);
    UnlinkIs(m, v.chain[j]);
    hide Unlink, Listing, Rows, Unlinked, DeleteChild, Inv;
  }

  /** Neighbours in the chain are neighbours by their links. */
  lemma Neighbours(m: Mem, v: View, cap: nat, j: nat, x: nat)
    requires ChainOk(m, v, cap) && x < |v.chain| && j < |v.chain| && x != j
    ensures LeafAt(m, v, cap, x) && LeafAt(m, v, cap, j) && v.chain[x] != v.chain[j]
    ensures v.chain[x] == m.leaves[v.chain[j]].prev <==> x + 1 == j
    ensures v.chain[x] == m.leaves[v.chain[j]].next <==> x == j + 1
  {
    assert LeafAt(m, v, cap, j) && LeafAt(m, v, cap, x);
    if j > 0 { assert LeafAt(m, v, cap, j - 1); }
    if j + 1 < |v.chain| { assert LeafAt(m, v, cap, j + 1); }
  }

  /** A leaf that stays. */
  lemma LeafLeft(m: Mem, v: View, cap: nat, j: nat, n: Ptr, i: nat, left: bool, x: nat)
    requires Empties(m, v, cap, j, n, i, left) && x < |v.chain| && x != j
    ensures var m', p := DeleteLeaf(m, v.chain[j], n, i, left), v.chain[x];
            && p in m'.leaves && p in m.leaves && p != v.chain[j] && LeafAt(m, v, cap, x)
            && m'.leaves[p] == m.leaves[p].(prev := if x == j + 1 then m.leaves[v.chain[j]].prev else m.leaves[p].prev,
                                            next := if x + 1 == j then m.leaves[v.chain[j]].next else m.leaves[p].next)
  {
    DeleteIs(m, v, cap, j, n, i, left);
    Neighbours(m, v, cap, j, x);
    hide DeleteLeaf, Shaped, Listing, Inv;
    var p := v.chain[x];
    assert p in DeleteLeaf(m, v.chain[j], n, i, left).leaves.Keys;
  }

  lemma DeleteChainAt(v: View, j: nat, d: nat, x: nat)
    requires j < |v.chain| == |v.owner| && d < |v.owner| && x < |v.chain| && x != j
    ensures var c, y := DeleteView(v, j, d).chain, Down(j, x);
            && |c| == |v.chain| - 1 && y < |c| && c[y] == v.chain[x]
            && (y > 0 ==> c[y - 1] == if x == j + 1 then v.chain[j - 1] else v.chain[x - 1])
            && (y + 1 < |c| ==> c[y + 1] == if x + 1 == j then v.chain[j + 1] else v.chain[x + 1])
  {
  }

  /** The leaves that stay form the shorter chain. */
  lemma GoneLeafAt(m: Mem, v: View, cap: nat, j: nat, n: Ptr, i: nat, left: bool, x: nat)
    requires Empties(m, v, cap, j, n, i, left) && x < |v.chain| && x != j
    ensures Down(j, x) < |v.chain| - 1
    ensures LeafAt(DeleteLeaf(m, v.chain[j], n, i, left), DeleteView(v, j, Dropped(j, left)), cap, Down(j, x))
  {
    hide DeleteLeaf, Permutation, Listing, DeleteView, Inv, KidOk, SepOk, InnerOk;
    EmptiesFacts(m, v, cap, j, n, i, left);
    LeafLeft(m, v, cap, j, n, i, left, x);
    DeleteBounds(v, j, Dropped(j, left), v.chain[x]);
    DeleteChainAt(v, j, Dropped(j, left), x);
  }

  lemma GoneFront(m: Mem, v: View, cap: nat, j: nat, n: Ptr, i: nat, left: bool, x: nat)
    requires Empties(m, v, cap, j, n, i, left) && x < |v.chain| && x != j
    ensures FrontSep(DeleteLeaf(m, v.chain[j], n, i, left), v.chain[x]) == FrontSep(m, v.chain[x])
  {
    LeafLeft(m, v, cap, j, n, i, left, x);
    hide DeleteLeaf, Shaped, Listing, Inv;
  }

  lemma GoneChain(m: Mem, v: View, cap: nat, j: nat, n: Ptr, i: nat, left: bool)
    requires Empties(m, v, cap, j, n, i, left)
    ensures ChainOk(DeleteLeaf(m, v.chain[j], n, i, left), DeleteView(v, j, Dropped(j, left)), cap)
  {
    var m', v' := DeleteLeaf(m, v.chain[j], n, i, left), DeleteView(v, j, Dropped(j, left));
    EmptiesFacts(m, v, cap, j, n, i, left);
    assert |v'.chain| == |v'.owner| == |v.chain| - 1;
    hide DeleteLeaf, DeleteView, LeafAt, Inv, Shaped, KidOk, SepOk, InnerOk;
    forall x | 0 <= x < |v'.chain|
      ensures LeafAt(m', v', cap, x)
    {
      GoneLeafAt(m, v, cap, j, n, i, left, if x < j then x else x + 1);
    }
    forall p | p in m'.leaves
      ensures p in v'.chain
    {
      GoneMember(m, v, cap, j, n, i, left, p);
    }
  }

  lemma GoneMember(m: Mem, v: View, cap: nat, j: nat, n: Ptr, i: nat, left: bool, p: Ptr)
    requires Empties(m, v, cap, j, n, i, left) && p in DeleteLeaf(m, v.chain[j], n, i, left).leaves
    ensures p in DeleteView(v, j, Dropped(j, left)).chain
  {
    DeleteIs(m, v, cap, j, n, i, left);
    assert p in m.leaves.Keys && p in v.chain;
    var x :| 0 <= x < |v.chain| && v.chain[x] == p;
    DeleteChainAt(v, j, Dropped(j, left), x);
  }

  lemma SameRows(l: Leaf, l': Leaf)
    requires l'.entries == l.entries && l'.idxs == l.idxs && l'.size == l.size
    ensures Rows(l') == Rows(l)
  {
  }

  lemma GoneRows(m: Mem, v: View, cap: nat, j: nat, n: Ptr, i: nat, left: bool, x: nat)
    requires Empties(m, v, cap, j, n, i, left) && x < |v.chain| && x != j
    ensures RowsAt(DeleteLeaf(m, v.chain[j], n, i, left), v.chain[x]) == RowsAt(m, v.chain[x])
  {
    hide DeleteLeaf, Inv, Listing, Rows, LeafAt;
    LeafLeft(m, v, cap, j, n, i, left, x);
    SameRows(m.leaves[v.chain[x]], DeleteLeaf(m, v.chain[j], n, i, left).leaves[v.chain[x]]);
  }

  lemma EmptiesRows(m: Mem, v: View, cap: nat, j: nat, n: Ptr, i: nat, left: bool)
    requires Empties(m, v, cap, j, n, i, left)
    ensures j < |v.chain| && |RowsAt(m, v.chain[j])| == 1
    ensures DeleteView(v, j, Dropped(j, left)).chain == v.chain[..j] + v.chain[j + 1..]
  {
    hide Listing, Rows, ShapeOk;
  }

  /** The listing loses the one entry of the leaf. */
  lemma GoneListing(m: Mem, v: View, cap: nat, j: nat, n: Ptr, i: nat, left: bool)
    requires Empties(m, v, cap, j, n, i, left)
    ensures Offset(m, v, j) < |Listing(m, v.chain)|
    ensures Listing(DeleteLeaf(m, v.chain[j], n, i, left), DeleteView(v, j, Dropped(j, left)).chain)
         == ErasedAt(Listing(m, v.chain), Offset(m, v, j))
    ensures |RowsAt(m, v.chain[j])| == 1 && Listing(m, v.chain)[Offset(m, v, j)] == RowsAt(m, v.chain[j])[0]
  {
    hide DeleteLeaf, DeleteView, Inv, Listing, RowsAt;
    var m', a, b, p := DeleteLeaf(m, v.chain[j], n, i, left), v.chain[..j], v.chain[j + 1..], v.chain[j];
    EmptiesRows(m, v, cap, j, n, i, left);
    RowPlace(m, v.chain, j, 0);
    ListingAround(m, v.chain, j);
    ListingConcat(m', a, b);
    forall x | 0 <= x < |v.chain| && x != j
      ensures RowsAt(m', v.chain[x]) == RowsAt(m, v.chain[x])
    {
      GoneRows(m, v, cap, j, n, i, left, x);
    }
    ListingFrame(m, m', a);
    ListingFrame(m, m', b);
    ErasedMiddle(Listing(m, a), RowsAt(m, p), Listing(m, b), 0);
  }

  // ------------------------------------------------------------ the inner nodes

  /** An inner node covers more than one leaf. */
  lemma InnerWide(m: Mem, v: View, cap: nat, n: Ptr)
    requires ShapeOk(m, v, cap, 0) && n in v.live
    ensures v.Lo(n) + 2 <= v.Hi(n)
  {
    assert InnerOk(m, v, cap, 0, n);
    KidsAscend(m, v, cap, 0, n, 0, 1);
    KidWithin(m, v, cap, 0, n, 0);
    KidWithin(m, v, cap, 0, n, 1);
  }

  /** A child is a leaf of the chain or covers more than one. */
  lemma KidWide(m: Mem, v: View, cap: nat, x: Ptr, y: nat)
    requires ShapeOk(m, v, cap, 0) && x in v.live && InnerOk(m, v, cap, 0, x) && y <= m.inners[x].size
    ensures var c := m.inners[x].children[y];
            v.Lo(c) + 2 <= v.Hi(c) || (v.Lo(c) + 1 == v.Hi(c) <= |v.chain| && c == v.chain[v.Lo(c)])
  {
    hide ChainOk, RootOk, SepOk;
    var c := m.inners[x].children[y];
    assert KidOk(m, v, x, y);
    if c in v.live {
      InnerWide(m, v, cap, c);
    } else {
      LeafIs(m, v, cap, c, v.Lo(c));
      ShapeLeaf(m, v, cap, v.Lo(c));
    }
  }

  lemma KidPart(m: Mem, v: View, cap: nat, weak: Ptr, x: Ptr, y: nat)
    requires InnerOk(m, v, cap, weak, x) && y <= m.inners[x].size
    ensures KidOk(m, v, x, y)
  {
  }

  lemma KidStays(m: Mem, v: View, cap: nat, j: nat, n: Ptr, i: nat, left: bool, x: Ptr, y: nat)
    requires Empties(m, v, cap, j, n, i, left) && x in v.live && InnerOk(m, v, cap, 0, x) && y <= m.inners[x].size
    requires x != n || y != ChildAt(i, left)
    ensures x != v.chain[j] && m.inners[x].children[y] != v.chain[j]
  {
    hide Inv, HasEntry, SepOk, LeafAt;
    EmptiesFacts(m, v, cap, j, n, i, left);
    assert KidOk(m, v, x, y);
    if x == n && y < ChildAt(i, left) { KidDiffers(m, v, cap, 0, n, y, ChildAt(i, left)); }
    if x == n && y > ChildAt(i, left) { KidDiffers(m, v, cap, 0, n, ChildAt(i, left), y); }
    InnerParts(m, v, cap, 0, x);
  }

  /** What becomes of child `y` of node `x`. */
  lemma KidLeft(m: Mem, v: View, cap: nat, j: nat, n: Ptr, i: nat, left: bool, x: Ptr, y: nat)
    requires Empties(m, v, cap, j, n, i, left) && x in v.live && InnerOk(m, v, cap, 0, x) && y <= m.inners[x].size
    requires x != n || y != ChildAt(i, left)
    ensures var m', v', c := DeleteLeaf(m, v.chain[j], n, i, left), DeleteView(v, j, Dropped(j, left)),
              m.inners[x].children[y];
            && KidOk(m, v, x, y)
            && (c in v'.live || c in m'.leaves) && m'.Level(c) == m.Level(c) && v'.Parent(c) == x
            && v'.Lo(c) == Down(j, v.Lo(c)) && v'.Hi(c) == Down(j, v.Hi(c)) && v'.Lo(c) < v'.Hi(c)
            && v'.Lo(x) == Down(j, v.Lo(x)) && v'.Hi(x) == Down(j, v.Hi(x)) && m'.Level(x) == m.Level(x)
  {
    hide DeleteLeaf, DeleteView, Inv, Listing, SepOk, HasEntry;
    var c, p := m.inners[x].children[y], v.chain[j];
    EmptiesFacts(m, v, cap, j, n, i, left);
    KidPart(m, v, cap, 0, x, y);
    KidStays(m, v, cap, j, n, i, left, x, y);
    KidWide(m, v, cap, x, y) by { InvCap(m, v, cap); }
    DeleteViewIs(v, j, Dropped(j, left));
    SameLevel(m, v, cap, j, n, i, left, c);
    SameLevel(m, v, cap, j, n, i, left, x);
  }

  lemma SameLevel(m: Mem, v: View, cap: nat, j: nat, n: Ptr, i: nat, left: bool, c: Ptr)
    requires Empties(m, v, cap, j, n, i, left) && c != v.chain[j]
    ensures DeleteLeaf(m, v.chain[j], n, i, left).Level(c) == m.Level(c)
    ensures c in DeleteLeaf(m, v.chain[j], n, i, left).leaves <==> c in m.leaves
  {
    DeleteIs(m, v, cap, j, n, i, left);
    hide DeleteLeaf, Inv;
    assert c in DeleteLeaf(m, v.chain[j], n, i, left).leaves.Keys <==> c in m.leaves.Keys;
  }

  /** What becomes of the leaf a separator points to. */
  lemma SepLeft(m: Mem, v: View, cap: nat, j: nat, n: Ptr, i: nat, left: bool, x: nat)
    requires Empties(m, v, cap, j, n, i, left) && x < |v.chain|
    ensures var m', v', y := DeleteLeaf(m, v.chain[j], n, i, left), DeleteView(v, j, Dropped(j, left)), Down(j, x);
            && |v'.chain| == |v'.owner| == |v.chain| - 1
            && (x != j ==>
                  y < |v'.chain| && v'.chain[y] == v.chain[x] && FrontSep(m', v'.chain[y]) == FrontSep(m, v.chain[x]))
            && (x != Dropped(j, left) ==> y < |v'.owner| && v'.owner[y] == v.owner[x])
  {
    hide DeleteLeaf, Inv, Empties, Listing, KidOk, SepOk, InnerOk, FrontSep;
    EmptiesFacts(m, v, cap, j, n, i, left);
    if x != j {
      DeleteChainAt(v, j, Dropped(j, left), x);
      GoneFront(m, v, cap, j, n, i, left, x);
    }
  }

  /** A first child's separator stands in node `t` further up, and from now on points to
      the next leaf `f`. No other leaf needs that, which `f == 0` says. */
  ghost predicate Follows(m: Mem, v: View, cap: nat, j: nat, left: bool, t: Ptr, s: nat, f: Ptr) {
    if left && j > 0 then j + 1 < |v.chain| && f == v.chain[j + 1] && Owns(m, v, cap, t, s, j) else f == 0
  }

  /** The leaf is deleted and the separator above follows. */
  function DeleteAndFollow(m: Mem, p: Ptr, n: Ptr, i: nat, left: bool, t: Ptr, s: nat, f: Ptr): Mem
    requires p in m.leaves && n in m.inners && Sized(m.inners[n], |m.inners[n].entries|) && i < m.inners[n].size
    requires f != 0 ==> t in m.inners && s < |m.inners[t].entries| && t != n
  {
    var m1 := DeleteLeaf(m, p, n, i, left);
    if f == 0 then m1 else Refront(m1, t, s, f)
  }

  /** Both together: leaf `j` can go. */
  ghost predicate Goes(m: Mem, v: View, cap: nat, j: nat, n: Ptr, i: nat, left: bool, t: Ptr, s: nat, f: Ptr) {
    Empties(m, v, cap, j, n, i, left) && Follows(m, v, cap, j, left, t, s, f) && (f != 0 ==> t != n)
  }

  /** The inner nodes afterwards, the parent apart. */
  lemma FollowedNodes(m: Mem, v: View, cap: nat, j: nat, n: Ptr, i: nat, left: bool, t: Ptr, s: nat, f: Ptr)
    requires Goes(m, v, cap, j, n, i, left, t, s, f)
    ensures var m1, m' := DeleteLeaf(m, v.chain[j], n, i, left), DeleteAndFollow(m, v.chain[j], n, i, left, t, s, f);
            && m'.leaves == m1.leaves && m'.root == m1.root && m'.size == m1.size && m'.inners.Keys == m.inners.Keys
            && m'.inners[n] == DeleteChild(m.inners[n], i, left)
            && (forall c :: m'.Level(c) == m1.Level(c))
            && forall x :: x in m.inners && x != n ==>
                 m'.inners[x] == if f != 0 && x == t then Replace(m.inners[x], s, FrontSep(m1, f)) else m.inners[x]
  {
    DeleteIs(m, v, cap, j, n, i, left);
    hide DeleteLeaf, Inv, Listing;
  }

  /** Any other node. */
  lemma GoneKid(m: Mem, v: View, cap: nat, j: nat, n: Ptr, i: nat, left: bool, t: Ptr, s: nat, f: Ptr, x: Ptr, y: nat)
    requires Goes(m, v, cap, j, n, i, left, t, s, f) && x in v.live && x != n && InnerOk(m, v, cap, 0, x)
    requires y <= m.inners[x].size
    ensures var m' := DeleteAndFollow(m, v.chain[j], n, i, left, t, s, f);
            && x in m'.inners && Sized(m'.inners[x], cap) && m'.inners[x].size == m.inners[x].size
            && KidOk(m', DeleteView(v, j, Dropped(j, left)), x, y)
  {
    FollowedNodes(m, v, cap, j, n, i, left, t, s, f);
    KidLeft(m, v, cap, j, n, i, left, x, y);
    if y > 0 { KidLeft(m, v, cap, j, n, i, left, x, y - 1); }
    assert |DeleteView(v, j, Dropped(j, left)).chain| == |v.chain| - 1;
    hide DeleteLeaf, DeleteAndFollow, DeleteView, Inv, Listing, InnerOk;
  }

  lemma GoneSep(m: Mem, v: View, cap: nat, j: nat, n: Ptr, i: nat, left: bool, t: Ptr, s: nat, f: Ptr, x: Ptr, y: nat)
    requires Goes(m, v, cap, j, n, i, left, t, s, f) && x in v.live && x != n && InnerOk(m, v, cap, 0, x)
    requires y < m.inners[x].size
    ensures var m' := DeleteAndFollow(m, v.chain[j], n, i, left, t, s, f);
            && x in m'.inners && Sized(m'.inners[x], cap) && m'.inners[x].size == m.inners[x].size
            && SepOk(m', DeleteView(v, j, Dropped(j, left)), x, y)
  {
    var z := v.Lo(m.inners[x].children[y + 1]);
    FollowedNodes(m, v, cap, j, n, i, left, t, s, f);
    KidLeft(m, v, cap, j, n, i, left, x, y + 1);
    SepLeft(m, v, cap, j, n, i, left, z);
    SepAway(m, v, cap, j, n, i, left, t, s, f, x, y);
    assert Sized(m.inners[x], cap);
    hide DeleteLeaf, DeleteAndFollow, DeleteView, Inv, Listing, InnerOk, KidOk, FrontSep, Goes;
  }

  /** The separators of the other nodes: the one for leaf `j` follows, the rest stay. */
  lemma SepAway(m: Mem, v: View, cap: nat, j: nat, n: Ptr, i: nat, left: bool, t: Ptr, s: nat, f: Ptr, x: Ptr, y: nat)
    requires Goes(m, v, cap, j, n, i, left, t, s, f) && x in v.live && x != n && InnerOk(m, v, cap, 0, x)
    requires y < m.inners[x].size
    ensures var m', v', z := DeleteAndFollow(m, v.chain[j], n, i, left, t, s, f), DeleteView(v, j, Dropped(j, left)),
                             v.Lo(m.inners[x].children[y + 1]);
            && x in m'.inners && y < |m'.inners[x].entries| && |v'.owner| == |v'.chain|
            && z != Dropped(j, left) && 1 <= Down(j, z) < |v'.chain|
            && m'.inners[x].entries[y] == FrontSep(m', v'.chain[Down(j, z)]) && v'.owner[Down(j, z)] == x
  {
    var z := v.Lo(m.inners[x].children[y + 1]);
    EmptiesFacts(m, v, cap, j, n, i, left);
    assert SepOk(m, v, x, y);
    FollowedNodes(m, v, cap, j, n, i, left, t, s, f);
    SepLeft(m, v, cap, j, n, i, left, z);
    if z == j {
      SepFollows(m, v, cap, j, n, i, left, t, s, f, x, y);
    } else {
      var m1, m' := DeleteLeaf(m, v.chain[j], n, i, left), DeleteAndFollow(m, v.chain[j], n, i, left, t, s, f);
      FrontSepLeaves(m1, m', v.chain[z]);
      assert f != 0 && x == t ==> y != s;
      hide DeleteLeaf, DeleteAndFollow, DeleteView, Inv, Listing, KidOk, FrontSep;
    }
  }

  lemma SepFollows(m: Mem, v: View, cap: nat, j: nat, n: Ptr, i: nat, left: bool, t: Ptr, s: nat, f: Ptr, x: Ptr,
                   y: nat)
    requires Goes(m, v, cap, j, n, i, left, t, s, f) && x in v.live && x != n && InnerOk(m, v, cap, 0, x)
    requires y < m.inners[x].size && v.Lo(m.inners[x].children[y + 1]) == j
    ensures var m', v' := DeleteAndFollow(m, v.chain[j], n, i, left, t, s, f), DeleteView(v, j, Dropped(j, left));
            && x in m'.inners && y < |m'.inners[x].entries| && |v'.owner| == |v'.chain| && 1 <= j < |v'.chain|
            && m'.inners[x].entries[y] == FrontSep(m', v'.chain[j]) && v'.owner[j] == x
  {
    EmptiesFacts(m, v, cap, j, n, i, left);
    assert SepOk(m, v, x, y);
    assert left && j > 0 && LeafAt(m, v, cap, j + 1);
    OneOwner(m, v, cap, t, s, x, y, j);
    FollowedNodes(m, v, cap, j, n, i, left, t, s, f);
    SepLeft(m, v, cap, j, n, i, left, j);
    SepLeft(m, v, cap, j, n, i, left, j + 1);
    FrontSepLeaves(DeleteLeaf(m, v.chain[j], n, i, left), DeleteAndFollow(m, v.chain[j], n, i, left, t, s, f), f);
    hide DeleteLeaf, DeleteAndFollow, DeleteView, Inv, Listing, KidOk, FrontSep;
  }

  /** The parent: its other children close up. */
  lemma ParentKidLeft(m: Mem, v: View, cap: nat, j: nat, n: Ptr, i: nat, left: bool, t: Ptr, s: nat, f: Ptr, y: nat)
    requires Goes(m, v, cap, j, n, i, left, t, s, f) && y < m.inners[n].size
    ensures var m' := DeleteAndFollow(m, v.chain[j], n, i, left, t, s, f);
            && n in m'.inners && Sized(m'.inners[n], cap) && m'.inners[n].size == m.inners[n].size - 1
            && KidOk(m', DeleteView(v, j, Dropped(j, left)), n, y)
  {
    var c := ChildAt(i, left);
    if y < c {
      ParentKidBefore(m, v, cap, j, n, i, left, t, s, f, y);
    } else if y == c {
      ParentKidAfter(m, v, cap, j, n, i, left, t, s, f, y);
    } else {
      ParentKidBehind(m, v, cap, j, n, i, left, t, s, f, y);
    }
  }

  lemma ParentKidBefore(m: Mem, v: View, cap: nat, j: nat, n: Ptr, i: nat, left: bool, t: Ptr, s: nat, f: Ptr, y: nat)
    requires Goes(m, v, cap, j, n, i, left, t, s, f) && y < ChildAt(i, left)
    ensures var m' := DeleteAndFollow(m, v.chain[j], n, i, left, t, s, f);
            && n in m'.inners && Sized(m'.inners[n], cap) && m'.inners[n].size == m.inners[n].size - 1
            && KidOk(m', DeleteView(v, j, Dropped(j, left)), n, y)
  {
    hide DeleteLeaf, DeleteAndFollow, DeleteView, Inv, Listing, InnerOk, DeleteChild, SepOk, LeafAt, HasEntry;
    var c := ChildAt(i, left);
    EmptiesFacts(m, v, cap, j, n, i, left);
    InnerParts(m, v, cap, 0, n);
    FollowedNodes(m, v, cap, j, n, i, left, t, s, f);
    DeleteChildAt(m.inners[n], cap, i, left);
    DeleteViewIs(v, j, Dropped(j, left));
    KidLeft(m, v, cap, j, n, i, left, n, y);
    if y > 0 { KidLeft(m, v, cap, j, n, i, left, n, y - 1); }
    assert y + 1 == c == m.inners[n].size ==> v.Hi(m.inners[n].children[y]) == j && v.Hi(n) == j + 1;
  }

  lemma ParentKidAfter(m: Mem, v: View, cap: nat, j: nat, n: Ptr, i: nat, left: bool, t: Ptr, s: nat, f: Ptr, y: nat)
    requires Goes(m, v, cap, j, n, i, left, t, s, f) && y == ChildAt(i, left) < m.inners[n].size
    ensures var m' := DeleteAndFollow(m, v.chain[j], n, i, left, t, s, f);
            && n in m'.inners && Sized(m'.inners[n], cap) && m'.inners[n].size == m.inners[n].size - 1
            && KidOk(m', DeleteView(v, j, Dropped(j, left)), n, y)
  {
    hide DeleteLeaf, DeleteAndFollow, DeleteView, Inv, Listing, InnerOk, DeleteChild, SepOk, LeafAt, HasEntry;
    EmptiesFacts(m, v, cap, j, n, i, left);
    InnerParts(m, v, cap, 0, n);
    FollowedNodes(m, v, cap, j, n, i, left, t, s, f);
    DeleteChildAt(m.inners[n], cap, i, left);
    DeleteViewIs(v, j, Dropped(j, left));
    KidLeft(m, v, cap, j, n, i, left, n, y + 1);
    if y > 0 { KidLeft(m, v, cap, j, n, i, left, n, y - 1); }
  }

  lemma ParentKidBehind(m: Mem, v: View, cap: nat, j: nat, n: Ptr, i: nat, left: bool, t: Ptr, s: nat, f: Ptr, y: nat)
    requires Goes(m, v, cap, j, n, i, left, t, s, f) && ChildAt(i, left) < y < m.inners[n].size
    ensures var m' := DeleteAndFollow(m, v.chain[j], n, i, left, t, s, f);
            && n in m'.inners && Sized(m'.inners[n], cap) && m'.inners[n].size == m.inners[n].size - 1
            && KidOk(m', DeleteView(v, j, Dropped(j, left)), n, y)
  {
    FollowedNodes(m, v, cap, j, n, i, left, t, s, f);
    DeleteChildAt(m.inners[n], cap, i, left);
    MovedBehind(m, v, cap, j, n, i, left, y);
    hide DeleteLeaf, DeleteAndFollow, DeleteView, Inv, Listing, InnerOk, DeleteChild, SepOk, LeafAt, Empties, Follows;
  }

  lemma MovedBehind(m: Mem, v: View, cap: nat, j: nat, n: Ptr, i: nat, left: bool, y: nat)
    requires Empties(m, v, cap, j, n, i, left) && ChildAt(i, left) < y < m.inners[n].size
    ensures var m', v' := DeleteLeaf(m, v.chain[j], n, i, left), DeleteView(v, j, Dropped(j, left));
            var c, b := m.inners[n].children[y + 1], m.inners[n].children[y];
            && (c in v'.live || c in m'.leaves) && m'.Level(c) < m'.Level(n) && v'.Parent(c) == n
            && v'.Hi(b) == v'.Lo(c) < v'.Hi(c) <= |v'.chain| && (y + 1 == m.inners[n].size ==> v'.Hi(c) == v'.Hi(n))
  {
    EmptiesFacts(m, v, cap, j, n, i, left);
    KidLeft(m, v, cap, j, n, i, left, n, y + 1);
    KidLeft(m, v, cap, j, n, i, left, n, y);
    assert |DeleteView(v, j, Dropped(j, left)).chain| == |v.chain| - 1;
    hide DeleteLeaf, DeleteView, Inv, Listing, InnerOk, SepOk, LeafAt, Empties;
  }

  lemma ParentSepLeft(m: Mem, v: View, cap: nat, j: nat, n: Ptr, i: nat, left: bool, t: Ptr, s: nat, f: Ptr, y: nat)
    requires Goes(m, v, cap, j, n, i, left, t, s, f) && y + 1 < m.inners[n].size
    ensures var m' := DeleteAndFollow(m, v.chain[j], n, i, left, t, s, f);
            && n in m'.inners && Sized(m'.inners[n], cap) && m'.inners[n].size == m.inners[n].size - 1
            && SepOk(m', DeleteView(v, j, Dropped(j, left)), n, y)
  {
    hide DeleteLeaf, DeleteAndFollow, DeleteView, Inv, Listing, InnerOk, DeleteChild, LeafAt, FrontSep, Follows,
         HasEntry;
    FollowedNodes(m, v, cap, j, n, i, left, t, s, f);
    ParentReady(m, v, cap, j, n, i, left, t, s, f);
    DeleteChildAt(m.inners[n], cap, i, left);
    ParentSepStays(m, v, cap, j, n, i, left, t, s, f, if y < i then y else y + 1);
  }

  lemma ParentReady(m: Mem, v: View, cap: nat, j: nat, n: Ptr, i: nat, left: bool, t: Ptr, s: nat, f: Ptr)
    requires Goes(m, v, cap, j, n, i, left, t, s, f)
    ensures j < |v.chain| == |v.owner| && Dropped(j, left) < |v.owner| && v.chain[j] in m.leaves && n in m.inners
    ensures Sized(m.inners[n], cap) && Sized(m.inners[n], |m.inners[n].entries|) && i < m.inners[n].size
    ensures f != 0 ==> t in m.inners && s < |m.inners[t].entries| && t != n
  {
    EmptiesFacts(m, v, cap, j, n, i, left);
    hide DeleteLeaf, Listing;
  }

  lemma ParentSepStays(m: Mem, v: View, cap: nat, j: nat, n: Ptr, i: nat, left: bool, t: Ptr, s: nat, f: Ptr, o: nat)
    requires Goes(m, v, cap, j, n, i, left, t, s, f) && o < m.inners[n].size && o != i
    ensures var m', v' := DeleteAndFollow(m, v.chain[j], n, i, left, t, s, f), DeleteView(v, j, Dropped(j, left));
            var z := v'.Lo(m.inners[n].children[o + 1]);
            && 1 <= z < |v'.chain| == |v'.owner| && v'.owner[z] == n
            && m.inners[n].entries[o] == FrontSep(m', v'.chain[z])
  {
    hide DeleteLeaf, DeleteAndFollow, DeleteView, Inv, Listing, InnerOk, FrontSep, HasEntry, KidOk, LeafAt;
    var x := v.Lo(m.inners[n].children[o + 1]);
    EmptiesFacts(m, v, cap, j, n, i, left);
    InnerParts(m, v, cap, 0, n);
    SepPart(m, v, cap, 0, n, o);
    if o < i { KidsAscend(m, v, cap, 0, n, o + 1, i + 1); } else { KidsAscend(m, v, cap, 0, n, i + 1, o + 1); }
    SepLeft(m, v, cap, j, n, i, left, x);
    DeleteBounds(v, j, Dropped(j, left), m.inners[n].children[o + 1]);
    FollowedNodes(m, v, cap, j, n, i, left, t, s, f);
    FrontSepLeaves(DeleteLeaf(m, v.chain[j], n, i, left), DeleteAndFollow(m, v.chain[j], n, i, left, t, s, f),
                   v.chain[x]);
  }

  /** With its parent's separator and the separator above, a leaf goes without a trace:
      what stays is well-formed, but that the parent may have only one child left. */
  lemma DeleteOk(m: Mem, v: View, cap: nat, j: nat, n: Ptr, i: nat, left: bool, t: Ptr, s: nat, f: Ptr)
    requires Goes(m, v, cap, j, n, i, left, t, s, f)
    ensures var m', v' := DeleteAndFollow(m, v.chain[j], n, i, left, t, s, f), DeleteView(v, j, Dropped(j, left));
            && ShapeOk(m', v', cap, n) && m'.size == m.size - 1 && Offset(m, v, j) < |Listing(m, v.chain)|
            && Listing(m', v'.chain) == ErasedAt(Listing(m, v.chain), Offset(m, v, j))
  {
    var m', v' := DeleteAndFollow(m, v.chain[j], n, i, left, t, s, f), DeleteView(v, j, Dropped(j, left));
    var m1 := DeleteLeaf(m, v.chain[j], n, i, left);
    GoneChain(m, v, cap, j, n, i, left);
    GoneListing(m, v, cap, j, n, i, left);
    FollowedNodes(m, v, cap, j, n, i, left, t, s, f);
    DeleteIs(m, v, cap, j, n, i, left);
    ListingFrame(m1, m', v'.chain);
    GoneRoot(m, v, cap, j, n, i, left, t, s, f);
    assert v'.live == v.live;
    hide DeleteLeaf, DeleteAndFollow, DeleteView, Listing;
    SplitChain(m1, m', v', cap);
    forall x | x in v'.live
      ensures InnerOk(m', v', cap, n, x)
    {
      if x == n {
        GoneParent(m, v, cap, j, n, i, left, t, s, f);
      } else {
        GoneInner(m, v, cap, j, n, i, left, t, s, f, x);
      }
    }
  }

  lemma GoneRoot(m: Mem, v: View, cap: nat, j: nat, n: Ptr, i: nat, left: bool, t: Ptr, s: nat, f: Ptr)
    requires Goes(m, v, cap, j, n, i, left, t, s, f)
    ensures RootOk(DeleteAndFollow(m, v.chain[j], n, i, left, t, s, f), DeleteView(v, j, Dropped(j, left)))
  {
    EmptiesFacts(m, v, cap, j, n, i, left);
    RootNoKid(m, v, cap, 0, n, ChildAt(i, left));
    FollowedNodes(m, v, cap, j, n, i, left, t, s, f);
    DeleteIs(m, v, cap, j, n, i, left);
    DeleteBounds(v, j, Dropped(j, left), m.root);
    var v' := DeleteView(v, j, Dropped(j, left));
    assert |v'.chain| == |v.chain| - 1 && v'.live == v.live;
    assert m.root in m.leaves.Keys ==> m.root in DeleteLeaf(m, v.chain[j], n, i, left).leaves.Keys;
    hide DeleteLeaf, DeleteAndFollow, DeleteView, Listing, InnerOk, KidOk, SepOk, LeafAt;
  }

  lemma GoneInner(m: Mem, v: View, cap: nat, j: nat, n: Ptr, i: nat, left: bool, t: Ptr, s: nat, f: Ptr, x: Ptr)
    requires Goes(m, v, cap, j, n, i, left, t, s, f) && x in v.live && x != n
    ensures InnerOk(DeleteAndFollow(m, v.chain[j], n, i, left, t, s, f), DeleteView(v, j, Dropped(j, left)), cap, n, x)
  {
    var m', v' := DeleteAndFollow(m, v.chain[j], n, i, left, t, s, f), DeleteView(v, j, Dropped(j, left));
    assert InnerOk(m, v, cap, 0, x);
    FollowedNodes(m, v, cap, j, n, i, left, t, s, f);
    DeleteIs(m, v, cap, j, n, i, left);
    assert x !in m.leaves.Keys;
    hide DeleteLeaf, DeleteAndFollow, DeleteView, Listing, KidOk, SepOk, LeafAt, Inv, Goes;
    GoneKid(m, v, cap, j, n, i, left, t, s, f, x, 0);
    forall y | 0 <= y <= m.inners[x].size
      ensures KidOk(m', v', x, y)
    {
      GoneKid(m, v, cap, j, n, i, left, t, s, f, x, y);
    }
    forall y | 0 <= y < m.inners[x].size
      ensures SepOk(m', v', x, y)
    {
      GoneSep(m, v, cap, j, n, i, left, t, s, f, x, y);
    }
  }

  lemma GoneParent(m: Mem, v: View, cap: nat, j: nat, n: Ptr, i: nat, left: bool, t: Ptr, s: nat, f: Ptr)
    requires Goes(m, v, cap, j, n, i, left, t, s, f)
    ensures InnerOk(DeleteAndFollow(m, v.chain[j], n, i, left, t, s, f), DeleteView(v, j, Dropped(j, left)), cap, n, n)
  {
    var m', v' := DeleteAndFollow(m, v.chain[j], n, i, left, t, s, f), DeleteView(v, j, Dropped(j, left));
    EmptiesFacts(m, v, cap, j, n, i, left);
    FollowedNodes(m, v, cap, j, n, i, left, t, s, f);
    DeleteIs(m, v, cap, j, n, i, left);
    assert n !in m.leaves.Keys;
    hide DeleteLeaf, DeleteAndFollow, DeleteView, Listing, KidOk, SepOk, LeafAt, Inv, DeleteChild;
    ParentKidLeft(m, v, cap, j, n, i, left, t, s, f, 0);
    forall y | 0 <= y < m.inners[n].size
      ensures KidOk(m', v', n, y)
    {
      ParentKidLeft(m, v, cap, j, n, i, left, t, s, f, y);
    }
    forall y | 0 <= y && y + 1 < m.inners[n].size
      ensures SepOk(m', v', n, y)
    {
      ParentSepLeft(m, v, cap, j, n, i, left, t, s, f, y);
    }
  }
}
