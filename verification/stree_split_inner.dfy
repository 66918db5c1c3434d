/** Splits of inner nodes, and the new root above a split root. */
module StreeSplitInner {
  import opened Keys
  import opened StreeLeaf
  import opened StreeInner
  import opened StreeListing
  import opened StreeTree
  import opened StreeInsert
  import opened StreeSplit

  // ------------------------------------------------------------ a node above the root

  /** A node without separators whose only child is the old root: half of what
      create_new_root builds. */
  function Lift(m: Mem, r: Ptr, cap: nat, noSep: Sep): Mem
  {
    m.(inners := m.inners[r := LoneRoot(cap, m.Level(m.root) + 1, noSep, m.root)], root := r)
  }

  function LoneRoot(cap: nat, level: nat, noSep: Sep, child: Ptr): Inner {
    var n := NewInner(cap, level, noSep);
    n.(children := n.children[0 := child])
  }

  /** Splitting the lone child of such a node makes the new root of create_new_root. */
  lemma LoneRootSplit(cap: nat, level: nat, noSep: Sep, sep: Sep, left: Ptr, right: Ptr)
    requires cap > 0
    ensures SplitChild(LoneRoot(cap, level, noSep, left), 0, sep, left, right)
         == NewRoot(cap, level, noSep, sep, left, right)
  {
  }

  ghost function LiftView(m: Mem, v: View, r: Ptr): View {
    v.(lo := v.lo[r := 0], hi := v.hi[r := |v.chain|], live := v.live + {r}, parent := v.parent[m.root := r])
  }

  lemma LiftOk(m: Mem, v: View, cap: nat, r: Ptr, noSep: Sep)
    requires ShapeOk(m, v, cap, 0) && Unused(m, r)
    ensures ShapeOk(Lift(m, r, cap, noSep), LiftView(m, v, r), cap, r)
  {
    var m', v' := Lift(m, r, cap, noSep), LiftView(m, v, r);
    forall j | 0 <= j < |v.chain|
      ensures LeafAt(m', v', cap, j)
    {
      assert LeafAt(m, v, cap, j);
    }
    forall n | n in v'.live
      ensures InnerOk(m', v', cap, r, n)
    {
      if n == r {
        LiftedRoot(m, v, cap, r, noSep);
      } else {
        LiftedInner(m, v, cap, r, noSep, n);
      }
    }
  }

  lemma LiftedRoot(m: Mem, v: View, cap: nat, r: Ptr, noSep: Sep)
    requires ShapeOk(m, v, cap, 0) && Unused(m, r)
    ensures InnerOk(Lift(m, r, cap, noSep), LiftView(m, v, r), cap, r, r)
  {
    var m', v' := Lift(m, r, cap, noSep), LiftView(m, v, r);
    assert m.root in v.live ==> InnerOk(m, v, cap, 0, m.root);
    assert m.root != r;
    assert KidOk(m', v', r, 0);
  }

  lemma LiftedInner(m: Mem, v: View, cap: nat, r: Ptr, noSep: Sep, n: Ptr)
    requires ShapeOk(m, v, cap, 0) && Unused(m, r) && n in v.live
    ensures InnerOk(Lift(m, r, cap, noSep), LiftView(m, v, r), cap, r, n)
  {
    var m', v' := Lift(m, r, cap, noSep), LiftView(m, v, r);
    assert InnerOk(m, v, cap, 0, n);
    var node := m.inners[n];
    forall i | 0 <= i <= node.size
      ensures KidOk(m', v', n, i)
    {
      RootNoKid(m, v, cap, 0, n, i);
      OldNode(m, v, cap, r, n, i);
      assert KidOk(m, v, n, i);
      if i > 0 { OldNode(m, v, cap, r, n, i - 1); }
    }
    forall i | 0 <= i < node.size
      ensures SepOk(m', v', n, i)
    {
      assert SepOk(m, v, n, i);
      OldNode(m, v, cap, r, n, i + 1);
    }
  }

  /** A child is an allocated node. */
  lemma OldNode(m: Mem, v: View, cap: nat, r: Ptr, n: Ptr, i: nat)
    requires ShapeOk(m, v, cap, 0) && Unused(m, r) && n in v.live && n in m.inners && i <= m.inners[n].size
    requires i < |m.inners[n].children|
    ensures m.inners[n].children[i] != r && n != r
  {
    assert InnerOk(m, v, cap, 0, n) && KidOk(m, v, n, i);
    var c := m.inners[n].children[i];
    assert c in v.live ==> InnerOk(m, v, cap, 0, c);
  }

  // ------------------------------------------------------------ an inner node in two

  /** split_half and update_splitted_child: the upper part of `n`, child `i` of `g`,
      moves to the new node `o`, and the partition key goes up into `g`. */
  function SplitInnerUnder(m: Mem, n: Ptr, o: Ptr, g: Ptr, i: nat, cap: nat, noSep: Sep): Mem
    requires n in m.inners && g in m.inners && Sized(m.inners[n], cap) && m.inners[n].size >= 1
    requires Sized(m.inners[g], cap) && i <= m.inners[g].size < cap
  {
    var node := m.inners[n];
    var other := Upper(node, NewInner(cap, node.level, noSep));
    m.(inners := m.inners[n := Lower(node)][o := other]
         [g := SplitChild(m.inners[g], i, node.entries[node.size / 2], n, o)])
  }

  /** The number of the leaf at which the right half of `n` starts. */
  ghost function Middle(m: Mem, v: View, n: Ptr): nat
    requires n in m.inners && m.inners[n].size / 2 + 1 < |m.inners[n].children|
  {
    v.Lo(m.inners[n].children[m.inners[n].size / 2 + 1])
  }

  ghost function SplitInnerView(m: Mem, v: View, n: Ptr, o: Ptr, g: Ptr, mid: nat): View
    requires |v.chain| == |v.owner|
  {
    View(v.chain,
         v.lo[o := mid],
         v.hi[n := mid][o := v.Hi(n)],
         v.live + {o},
         (map c | c in v.parent :: if v.parent[c] == n && v.Lo(c) >= mid then o else v.parent[c])[o := g],
         seq(|v.owner|, x requires 0 <= x < |v.owner| =>
           if x == mid then g else if x > mid && v.owner[x] == n then o else v.owner[x]))
  }

  /** Node `n` is full, it is child `i` of `g`, which has room, and `o` is free. */
  ghost predicate SplitsInner(m: Mem, v: View, cap: nat, weak: Ptr, n: Ptr, o: Ptr, g: Ptr, i: nat) {
    && ShapeOk(m, v, cap, weak) && (weak == 0 || weak == g) && Unused(m, o) && cap >= 3 && |v.owner| == |v.chain|
    && n in m.inners && Sized(m.inners[n], cap) && g in m.inners && Sized(m.inners[g], cap) && n != g && n != 0
    && n in v.live && InnerOk(m, v, cap, weak, n) && m.inners[n].size == cap
    && g in v.live && InnerOk(m, v, cap, weak, g) && i <= m.inners[g].size < cap
    && m.inners[g].children[i] == n && m.root != n
  }

  lemma SplitInnerViewIs(m: Mem, v: View, n: Ptr, o: Ptr, g: Ptr, mid: nat)
    requires |v.chain| == |v.owner| && n != 0 && n != o
    ensures var v' := SplitInnerView(m, v, n, o, g, mid);
            && v'.chain == v.chain && |v'.owner| == |v.owner| && v'.live == v.live + {o}
            && v'.Lo(o) == mid && v'.Hi(o) == v.Hi(n) && v'.Parent(o) == g && v'.Hi(n) == mid
            && (forall c :: c != o ==> v'.Lo(c) == v.Lo(c))
            && (forall c :: c != o && c != n ==> v'.Hi(c) == v.Hi(c))
            && (forall c :: c != o ==> v'.Parent(c) == if v.Parent(c) == n && v.Lo(c) >= mid then o else v.Parent(c))
            && (forall x :: 0 <= x < |v.owner| ==>
                  v'.owner[x] == if x == mid then g else if x > mid && v.owner[x] == n then o else v.owner[x])
  {
  }

  /** The nodes after the split. */
  lemma SplitInnerNodes(m: Mem, v: View, cap: nat, weak: Ptr, n: Ptr, o: Ptr, g: Ptr, i: nat, noSep: Sep)
    requires SplitsInner(m, v, cap, weak, n, o, g, i)
    ensures var m', node, gn, h := SplitInnerUnder(m, n, o, g, i, cap, noSep), m.inners[n], m.inners[g], cap / 2;
            && n != g && o != g && n != o
            && m'.leaves == m.leaves && m'.root == m.root && m'.size == m.size
            && m'.inners.Keys == m.inners.Keys + {o}
            && (forall x :: x in m.inners && x != n && x != g ==> m'.inners[x] == m.inners[x])
            && m'.inners[n] == Lower(node)
            && Sized(m'.inners[o], cap) && m'.inners[o].size == cap - h - 1 && m'.inners[o].level == node.level
            && (forall x :: 0 <= x < cap - h - 1 ==> m'.inners[o].entries[x] == node.entries[h + 1 + x])
            && (forall x :: 0 <= x <= cap - h - 1 ==> m'.inners[o].children[x] == node.children[h + 1 + x])
            && m'.inners[g] == SplitChild(gn, i, node.entries[h], n, o)
  {
    assert KidOk(m, v, g, i);
    HalvesAt(m.inners[n], cap, NewInner(cap, m.inners[n].level, noSep));
  }

  /** Where the cut lies. */
  lemma MiddleIs(m: Mem, v: View, cap: nat, weak: Ptr, n: Ptr, y: nat)
    requires cap >= 3 && InnerOk(m, v, cap, weak, n) && m.inners[n].size == cap && y <= cap
    ensures var mid, c := Middle(m, v, n), m.inners[n].children[y];
            && v.Lo(n) < mid < v.Hi(n) && (v.Lo(c) >= mid <==> y > cap / 2) && (v.Hi(c) > mid <==> y > cap / 2)
            && (y == cap / 2 ==> v.Hi(c) == mid)
    ensures SepOk(m, v, n, cap / 2) && KidOk(m, v, n, y)
  {
    var h := cap / 2;
    assert KidOk(m, v, n, y) && KidOk(m, v, n, h) && KidOk(m, v, n, h + 1);
    KidStarts(m, v, cap, weak, n, h + 1);
    KidWithin(m, v, cap, weak, n, h + 1);
    if y < h { KidsAscend(m, v, cap, weak, n, y, h); }
    if y > h + 1 { KidsAscend(m, v, cap, weak, n, h + 1, y); }
  }

  lemma OwnerAfter(m: Mem, v: View, n: Ptr, o: Ptr, g: Ptr, mid: nat, x: nat)
    requires x < |v.chain| == |v.owner|
    ensures SplitInnerView(m, v, n, o, g, mid).owner[x]
         == if x == mid then g else if x > mid && v.owner[x] == n then o else v.owner[x]
  {
  }

  lemma SepLeaf(m: Mem, v: View, n: Ptr, y: nat)
    requires n in m.inners && y < |m.inners[n].entries| && y + 1 < |m.inners[n].children| && SepOk(m, v, n, y)
    ensures var x := v.Lo(m.inners[n].children[y + 1]);
            1 <= x < |v.chain| == |v.owner| && m.inners[n].entries[y] == FrontSep(m, v.chain[x]) && v.owner[x] == n
  {
  }

  lemma SameFront(m: Mem, m': Mem, p: Ptr)
    requires m'.leaves == m.leaves
    ensures FrontSep(m', p) == FrontSep(m, p)
  {
  }

  /** A child is neither the new node nor, except in one place, the split one, and its
      level does not change. */
  lemma SameKid(m: Mem, v: View, cap: nat, weak: Ptr, n: Ptr, o: Ptr, g: Ptr, i: nat, x: Ptr, y: nat)
    requires SplitsInner(m, v, cap, weak, n, o, g, i) && x in v.live && InnerOk(m, v, cap, weak, x)
    requires y <= m.inners[x].size
    ensures var c := m.inners[x].children[y];
            && c != o && (c == n <==> x == g && y == i)
            && (c in m.inners || c in m.leaves) && (c in v.live ==> c in m.inners && c !in m.leaves)
  {
    hide ShapeOk, InnerOk;
    KidExists(m, v, cap, weak, x, y, o) by { InnerParts(m, v, cap, weak, x); }
    KidExists(m, v, cap, weak, g, i, o);
    if x == g && y < i { KidDiffers(m, v, cap, weak, g, y, i); }
    if x == g && y > i { KidDiffers(m, v, cap, weak, g, i, y); }
  }

  /** What becomes of child `y` of node `x`. */
  lemma MovedKid(m: Mem, v: View, cap: nat, weak: Ptr, n: Ptr, o: Ptr, g: Ptr, i: nat, noSep: Sep, x: Ptr, y: nat)
    requires SplitsInner(m, v, cap, weak, n, o, g, i) && x in v.live && InnerOk(m, v, cap, weak, x)
    requires y <= m.inners[x].size
    ensures var m', v', c, mid := SplitInnerUnder(m, n, o, g, i, cap, noSep),
              SplitInnerView(m, v, n, o, g, Middle(m, v, n)), m.inners[x].children[y], Middle(m, v, n);
            && KidOk(m, v, x, y) && (c == n <==> x == g && y == i)
            && (c in v'.live || c in m'.leaves) && m'.Level(c) == m.Level(c)
            && v'.Lo(c) == v.Lo(c) && v'.Hi(c) == (if x == g && y == i then mid else v.Hi(c))
            && v'.Parent(c) == (if x == n && y > cap / 2 then o else x)
  {
    hide SplitInnerUnder, SplitInnerView, ShapeOk, InnerOk, FrontSep, Middle, SplitChild, Lower, Upper, SepOk;
    InnerParts(m, v, cap, weak, x);
    var c, mid := m.inners[x].children[y], Middle(m, v, n);
    SameKid(m, v, cap, weak, n, o, g, i, x, y);
    KidExists(m, v, cap, weak, x, y, o);
    SplitInnerKeeps(m, v, cap, weak, n, o, g, i, noSep);
    MovedBounds(m, v, n, o, g, mid, c);
    if x == n { MiddleIs(m, v, cap, weak, n, y); }
  }

  /** The intervals of the nodes themselves. */
  lemma MovedNodes(m: Mem, v: View, cap: nat, weak: Ptr, n: Ptr, o: Ptr, g: Ptr, i: nat, noSep: Sep)
    requires SplitsInner(m, v, cap, weak, n, o, g, i)
    ensures var m', v', mid := SplitInnerUnder(m, n, o, g, i, cap, noSep),
              SplitInnerView(m, v, n, o, g, Middle(m, v, n)), Middle(m, v, n);
            && v'.chain == v.chain && |v'.owner| == |v.owner| == |v.chain|
            && n != g && o != g && n != o
            && v'.Lo(n) == v.Lo(n) && v'.Hi(n) == mid && v'.Lo(o) == mid && v'.Hi(o) == v.Hi(n) && v'.Parent(o) == g
            && v'.Lo(g) == v.Lo(g) && v'.Hi(g) == v.Hi(g)
            && m'.Level(n) == m'.Level(o) == m.Level(n) && m'.Level(g) == m.Level(g) && v.Lo(n) < mid < v.Hi(n)
            && o in v'.live && n in v'.live
  {
    hide SplitInnerUnder, SplitInnerView, ShapeOk, InnerOk, FrontSep, Middle, SplitChild, Lower, Upper, SepOk, KidOk;
    var mid := Middle(m, v, n);
    SplitInnerKeeps(m, v, cap, weak, n, o, g, i, noSep);
    MovedBounds(m, v, n, o, g, mid, n);
    MovedBounds(m, v, n, o, g, mid, g);
    MiddleIs(m, v, cap, weak, n, 0);
  }

  /** The two halves and the parent, place by place. */
  lemma UpperPlace(m: Mem, v: View, cap: nat, weak: Ptr, n: Ptr, o: Ptr, g: Ptr, i: nat, noSep: Sep, y: nat)
    requires SplitsInner(m, v, cap, weak, n, o, g, i) && y <= cap - cap / 2 - 1
    ensures var m', node, z := SplitInnerUnder(m, n, o, g, i, cap, noSep), m.inners[n], cap / 2 + 1 + y;
            && o in m'.inners && Sized(m'.inners[o], cap) && m'.inners[o].size == cap - cap / 2 - 1
            && m'.inners[o].children[y] == node.children[z]
            && (y < m'.inners[o].size ==> m'.inners[o].entries[y] == node.entries[z])
  {
    hide ShapeOk, InnerOk;
    HalvesAt(m.inners[n], cap, NewInner(cap, m.inners[n].level, noSep));
  }

  lemma LowerPlace(m: Mem, v: View, cap: nat, weak: Ptr, n: Ptr, o: Ptr, g: Ptr, i: nat, noSep: Sep, y: nat)
    requires SplitsInner(m, v, cap, weak, n, o, g, i) && y <= cap / 2
    ensures var m', node := SplitInnerUnder(m, n, o, g, i, cap, noSep), m.inners[n];
            && n in m'.inners && Sized(m'.inners[n], cap) && m'.inners[n].size == cap / 2
            && m'.inners[n].children[y] == node.children[y]
            && (y < cap / 2 ==> m'.inners[n].entries[y] == node.entries[y])
  {
    hide ShapeOk, InnerOk, Upper, SplitChild;
  }

  lemma AbovePlace(m: Mem, v: View, cap: nat, weak: Ptr, n: Ptr, o: Ptr, g: Ptr, i: nat, noSep: Sep, y: nat)
    requires SplitsInner(m, v, cap, weak, n, o, g, i) && y <= m.inners[g].size + 1
    ensures var m', node := SplitInnerUnder(m, n, o, g, i, cap, noSep), m.inners[g];
            && g in m'.inners && Sized(m'.inners[g], cap) && m'.inners[g].size == node.size + 1
            && m'.inners[g].children[y] == (if y <= i then node.children[y] else if y == i + 1 then o
                                            else node.children[y - 1])
            && (y <= node.size ==>
                  m'.inners[g].entries[y]
                    == if y < i then node.entries[y] else if y == i then m.inners[n].entries[cap / 2]
                       else node.entries[y - 1])
  {
    hide ShapeOk, InnerOk, Upper, Lower;
    SplitChildAt(m.inners[g], cap, i, m.inners[n].entries[cap / 2], n, o);
  }

  lemma BesidePlace(m: Mem, v: View, cap: nat, weak: Ptr, n: Ptr, o: Ptr, g: Ptr, i: nat, noSep: Sep, x: Ptr)
    requires SplitsInner(m, v, cap, weak, n, o, g, i) && x in m.inners && x != n && x != g
    ensures var m' := SplitInnerUnder(m, n, o, g, i, cap, noSep); x in m'.inners && m'.inners[x] == m.inners[x]
  {
    hide ShapeOk, InnerOk, Upper, Lower, SplitChild;
  }

  /** Leaves, levels and the rest do not change. */
  lemma SplitInnerKeeps(m: Mem, v: View, cap: nat, weak: Ptr, n: Ptr, o: Ptr, g: Ptr, i: nat, noSep: Sep)
    requires SplitsInner(m, v, cap, weak, n, o, g, i)
    ensures var m' := SplitInnerUnder(m, n, o, g, i, cap, noSep);
            && m'.leaves == m.leaves && m'.root == m.root && m'.size == m.size && m'.inners.Keys == m.inners.Keys + {o}
            && (forall c :: c != o ==> m'.Level(c) == m.Level(c)) && m'.Level(o) == m.Level(n)
  {
    hide ShapeOk, InnerOk;
    SplitChildAt(m.inners[g], cap, i, m.inners[n].entries[cap / 2], n, o);
    assert n !in m.leaves by { InnerParts(m, v, cap, weak, n); }
  }

  /** The bounds of one node. */
  lemma MovedBounds(m: Mem, v: View, n: Ptr, o: Ptr, g: Ptr, mid: nat, c: Ptr)
    requires |v.chain| == |v.owner| && n != 0 && n != o && c != o
    ensures var v' := SplitInnerView(m, v, n, o, g, mid);
            && v'.Lo(c) == v.Lo(c) && v'.Hi(c) == (if c == n then mid else v.Hi(c))
            && v'.Parent(c) == (if v.Parent(c) == n && v.Lo(c) >= mid then o else v.Parent(c))
            && v'.chain == v.chain && |v'.owner| == |v.owner| && v'.live == v.live + {o}
            && v'.Lo(o) == mid && v'.Hi(o) == v.Hi(n) && v'.Parent(o) == g
  {
  }

  /** The half that stays. */
  lemma LowerOk(m: Mem, v: View, cap: nat, weak: Ptr, n: Ptr, o: Ptr, g: Ptr, i: nat, noSep: Sep)
    requires SplitsInner(m, v, cap, weak, n, o, g, i)
    ensures InnerOk(SplitInnerUnder(m, n, o, g, i, cap, noSep), SplitInnerView(m, v, n, o, g, Middle(m, v, n)), cap, 0,
                    n)
  {
    hide SplitInnerUnder, SplitInnerView, ShapeOk, FrontSep, Middle, KidOk, SepOk;
    LowerPlace(m, v, cap, weak, n, o, g, i, noSep, 0);
    SplitInnerKeeps(m, v, cap, weak, n, o, g, i, noSep);
    InnerParts(m, v, cap, weak, n);
    forall y | 0 <= y <= cap / 2
      ensures KidOk(SplitInnerUnder(m, n, o, g, i, cap, noSep), SplitInnerView(m, v, n, o, g, Middle(m, v, n)), n, y)
    {
      LowerKid(m, v, cap, weak, n, o, g, i, noSep, y);
    }
    forall y | 0 <= y < cap / 2
      ensures SepOk(SplitInnerUnder(m, n, o, g, i, cap, noSep), SplitInnerView(m, v, n, o, g, Middle(m, v, n)), n, y)
    {
      LowerSep(m, v, cap, weak, n, o, g, i, noSep, y);
    }
  }

  lemma LowerKid(m: Mem, v: View, cap: nat, weak: Ptr, n: Ptr, o: Ptr, g: Ptr, i: nat, noSep: Sep, y: nat)
    requires SplitsInner(m, v, cap, weak, n, o, g, i) && y <= cap / 2
    ensures var m' := SplitInnerUnder(m, n, o, g, i, cap, noSep);
            && n in m'.inners && Sized(m'.inners[n], cap)
            && KidOk(m', SplitInnerView(m, v, n, o, g, Middle(m, v, n)), n, y)
  {
    hide SplitInnerUnder, SplitInnerView, ShapeOk, InnerOk, FrontSep, Middle, SplitChild, Lower, Upper, SepOk;
    LowerPlace(m, v, cap, weak, n, o, g, i, noSep, y);
    MovedNodes(m, v, cap, weak, n, o, g, i, noSep);
    MovedKid(m, v, cap, weak, n, o, g, i, noSep, n, y);
    MiddleIs(m, v, cap, weak, n, y);
    if y > 0 {
      LowerPlace(m, v, cap, weak, n, o, g, i, noSep, y - 1);
      MovedKid(m, v, cap, weak, n, o, g, i, noSep, n, y - 1);
    }
  }

  lemma LowerSep(m: Mem, v: View, cap: nat, weak: Ptr, n: Ptr, o: Ptr, g: Ptr, i: nat, noSep: Sep, y: nat)
    requires SplitsInner(m, v, cap, weak, n, o, g, i) && y < cap / 2
    ensures var m' := SplitInnerUnder(m, n, o, g, i, cap, noSep);
            && n in m'.inners && Sized(m'.inners[n], cap)
            && SepOk(m', SplitInnerView(m, v, n, o, g, Middle(m, v, n)), n, y)
  {
    hide SplitInnerUnder, SplitInnerView, ShapeOk, InnerOk, FrontSep, Middle, SplitChild, Lower, Upper, KidOk;
    var z := y;
    LowerPlace(m, v, cap, weak, n, o, g, i, noSep, y);
    LowerPlace(m, v, cap, weak, n, o, g, i, noSep, y + 1);
    MovedNodes(m, v, cap, weak, n, o, g, i, noSep);
    MovedKid(m, v, cap, weak, n, o, g, i, noSep, n, z + 1);
    MiddleIs(m, v, cap, weak, n, z + 1);
    SepPart(m, v, cap, weak, n, z);
    var x := v.Lo(m.inners[n].children[z + 1]);
    SepLeaf(m, v, n, z);
    OwnerAfter(m, v, n, o, g, Middle(m, v, n), x);
    SplitInnerKeeps(m, v, cap, weak, n, o, g, i, noSep);
    SameFront(m, SplitInnerUnder(m, n, o, g, i, cap, noSep), v.chain[x]);
  }

  /** The half that moves. */
  lemma UpperOk(m: Mem, v: View, cap: nat, weak: Ptr, n: Ptr, o: Ptr, g: Ptr, i: nat, noSep: Sep)
    requires SplitsInner(m, v, cap, weak, n, o, g, i)
    ensures InnerOk(SplitInnerUnder(m, n, o, g, i, cap, noSep), SplitInnerView(m, v, n, o, g, Middle(m, v, n)), cap, 0,
                    o)
  {
    hide SplitInnerUnder, SplitInnerView, ShapeOk, FrontSep, Middle, KidOk, SepOk;
    UpperPlace(m, v, cap, weak, n, o, g, i, noSep, 0);
    SplitInnerKeeps(m, v, cap, weak, n, o, g, i, noSep);
    InnerParts(m, v, cap, weak, n);
    forall y | 0 <= y <= (cap - cap / 2 - 1)
      ensures KidOk(SplitInnerUnder(m, n, o, g, i, cap, noSep), SplitInnerView(m, v, n, o, g, Middle(m, v, n)), o, y)
    {
      UpperKid(m, v, cap, weak, n, o, g, i, noSep, y);
    }
    forall y | 0 <= y < (cap - cap / 2 - 1)
      ensures SepOk(SplitInnerUnder(m, n, o, g, i, cap, noSep), SplitInnerView(m, v, n, o, g, Middle(m, v, n)), o, y)
    {
      UpperSep(m, v, cap, weak, n, o, g, i, noSep, y);
    }
  }

  lemma UpperKid(m: Mem, v: View, cap: nat, weak: Ptr, n: Ptr, o: Ptr, g: Ptr, i: nat, noSep: Sep, y: nat)
    requires SplitsInner(m, v, cap, weak, n, o, g, i) && y <= (cap - cap / 2 - 1)
    ensures var m' := SplitInnerUnder(m, n, o, g, i, cap, noSep);
            && o in m'.inners && Sized(m'.inners[o], cap)
            && KidOk(m', SplitInnerView(m, v, n, o, g, Middle(m, v, n)), o, y)
  {
    hide SplitInnerUnder, SplitInnerView, ShapeOk, InnerOk, FrontSep, SplitChild, Lower, Upper, SepOk;
    var z := cap / 2 + 1 + y;
    UpperPlace(m, v, cap, weak, n, o, g, i, noSep, y);
    MovedNodes(m, v, cap, weak, n, o, g, i, noSep);
    MovedKid(m, v, cap, weak, n, o, g, i, noSep, n, z);
    if y > 0 {
      UpperPlace(m, v, cap, weak, n, o, g, i, noSep, y - 1);
      MovedKid(m, v, cap, weak, n, o, g, i, noSep, n, z - 1);
    }
  }

  lemma UpperSep(m: Mem, v: View, cap: nat, weak: Ptr, n: Ptr, o: Ptr, g: Ptr, i: nat, noSep: Sep, y: nat)
    requires SplitsInner(m, v, cap, weak, n, o, g, i) && y < (cap - cap / 2 - 1)
    ensures var m' := SplitInnerUnder(m, n, o, g, i, cap, noSep);
            && o in m'.inners && Sized(m'.inners[o], cap)
            && SepOk(m', SplitInnerView(m, v, n, o, g, Middle(m, v, n)), o, y)
  {
    hide SplitInnerUnder, SplitInnerView, ShapeOk, InnerOk, FrontSep, Middle, SplitChild, Lower, Upper, KidOk;
    var z := cap / 2 + 1 + y;
    UpperPlace(m, v, cap, weak, n, o, g, i, noSep, y);
    UpperPlace(m, v, cap, weak, n, o, g, i, noSep, y + 1);
    MovedNodes(m, v, cap, weak, n, o, g, i, noSep);
    MovedKid(m, v, cap, weak, n, o, g, i, noSep, n, z + 1);
    MiddleLess(m, v, cap, weak, n, z + 1);
    SepPart(m, v, cap, weak, n, z);
    var x := v.Lo(m.inners[n].children[z + 1]);
    SepLeaf(m, v, n, z);
    OwnerAfter(m, v, n, o, g, Middle(m, v, n), x);
    SplitInnerKeeps(m, v, cap, weak, n, o, g, i, noSep);
    SameFront(m, SplitInnerUnder(m, n, o, g, i, cap, noSep), v.chain[x]);
  }

  lemma MiddleLess(m: Mem, v: View, cap: nat, weak: Ptr, n: Ptr, y: nat)
    requires cap >= 3 && InnerOk(m, v, cap, weak, n) && m.inners[n].size == cap && cap / 2 + 1 < y <= cap
    ensures v.Lo(m.inners[n].children[y]) > Middle(m, v, n)
  {
    KidsAscend(m, v, cap, weak, n, cap / 2 + 1, y);
  }

  /** The parent: the new node takes its place behind the split one, and the
      partition key comes between them. */
  lemma AboveKid(m: Mem, v: View, cap: nat, weak: Ptr, n: Ptr, o: Ptr, g: Ptr, i: nat, noSep: Sep, y: nat)
    requires SplitsInner(m, v, cap, weak, n, o, g, i) && y <= m.inners[g].size + 1
    ensures var m' := SplitInnerUnder(m, n, o, g, i, cap, noSep);
            && g in m'.inners && Sized(m'.inners[g], cap) && m'.inners[g].size == m.inners[g].size + 1
            && KidOk(m', SplitInnerView(m, v, n, o, g, Middle(m, v, n)), g, y)
  {
    hide SplitInnerUnder, SplitInnerView, ShapeOk, InnerOk, FrontSep, Middle, SplitChild, Lower, Upper, SepOk;
    AbovePlace(m, v, cap, weak, n, o, g, i, noSep, y);
    if y > 0 { AbovePlace(m, v, cap, weak, n, o, g, i, noSep, y - 1); }
    MovedNodes(m, v, cap, weak, n, o, g, i, noSep);
    MovedKid(m, v, cap, weak, n, o, g, i, noSep, g, i);
    if y <= i {
      MovedKid(m, v, cap, weak, n, o, g, i, noSep, g, y);
      if y > 0 { MovedKid(m, v, cap, weak, n, o, g, i, noSep, g, y - 1); }
    } else if y > i + 1 {
      MovedKid(m, v, cap, weak, n, o, g, i, noSep, g, y - 1);
      MovedKid(m, v, cap, weak, n, o, g, i, noSep, g, y - 2);
    }
  }

  lemma AboveSep(m: Mem, v: View, cap: nat, weak: Ptr, n: Ptr, o: Ptr, g: Ptr, i: nat, noSep: Sep, y: nat)
    requires SplitsInner(m, v, cap, weak, n, o, g, i) && y <= m.inners[g].size
    ensures var m' := SplitInnerUnder(m, n, o, g, i, cap, noSep);
            && g in m'.inners && Sized(m'.inners[g], cap) && m'.inners[g].size == m.inners[g].size + 1
            && SepOk(m', SplitInnerView(m, v, n, o, g, Middle(m, v, n)), g, y)
  {
    hide *;
    if y == i {
      PartitionSep(m, v, cap, weak, n, o, g, i, noSep, y);
    } else {
      KeptSep(m, v, cap, weak, n, o, g, i, noSep, y);
    }
  }

  lemma MiddleSep(m: Mem, v: View, cap: nat, n: Ptr)
    requires n in m.inners && Sized(m.inners[n], cap) && m.inners[n].size == cap >= 3 && SepOk(m, v, n, cap / 2)
    ensures var mid := Middle(m, v, n);
            1 <= mid < |v.chain| == |v.owner| && m.inners[n].entries[cap / 2] == FrontSep(m, v.chain[mid])
                && v.owner[mid] == n
  {
  }

  lemma PartitionSep(m: Mem, v: View, cap: nat, weak: Ptr, n: Ptr, o: Ptr, g: Ptr, i: nat, noSep: Sep, y: nat)
    requires SplitsInner(m, v, cap, weak, n, o, g, i) && y == i
    ensures var m' := SplitInnerUnder(m, n, o, g, i, cap, noSep);
            && g in m'.inners && Sized(m'.inners[g], cap) && m'.inners[g].size == m.inners[g].size + 1
            && SepOk(m', SplitInnerView(m, v, n, o, g, Middle(m, v, n)), g, y)
  {
    hide SplitInnerUnder, SplitInnerView, ShapeOk, InnerOk, FrontSep, Middle, SplitChild, Lower, Upper, KidOk;
    var mid := Middle(m, v, n);
    AbovePlace(m, v, cap, weak, n, o, g, i, noSep, y);
    AbovePlace(m, v, cap, weak, n, o, g, i, noSep, y + 1);
    MovedNodes(m, v, cap, weak, n, o, g, i, noSep);
    MiddleIs(m, v, cap, weak, n, 0);
    MiddleSep(m, v, cap, n);
    OwnerAfter(m, v, n, o, g, mid, mid);
    SplitInnerKeeps(m, v, cap, weak, n, o, g, i, noSep);
    SameFront(m, SplitInnerUnder(m, n, o, g, i, cap, noSep), v.chain[mid]);
  }

  lemma KeptSep(m: Mem, v: View, cap: nat, weak: Ptr, n: Ptr, o: Ptr, g: Ptr, i: nat, noSep: Sep, y: nat)
    requires SplitsInner(m, v, cap, weak, n, o, g, i) && y <= m.inners[g].size && y != i
    ensures var m' := SplitInnerUnder(m, n, o, g, i, cap, noSep);
            && g in m'.inners && Sized(m'.inners[g], cap) && m'.inners[g].size == m.inners[g].size + 1
            && SepOk(m', SplitInnerView(m, v, n, o, g, Middle(m, v, n)), g, y)
  {
    hide SplitInnerUnder, SplitInnerView, ShapeOk, InnerOk, FrontSep, Middle, SplitChild, Lower, Upper, KidOk;
    var z := if y < i then y else y - 1;
    AbovePlace(m, v, cap, weak, n, o, g, i, noSep, y);
    AbovePlace(m, v, cap, weak, n, o, g, i, noSep, y + 1);
    OldSepAbove(m, v, cap, weak, n, o, g, i, noSep, z);
  }

  lemma OldSepAbove(m: Mem, v: View, cap: nat, weak: Ptr, n: Ptr, o: Ptr, g: Ptr, i: nat, noSep: Sep, z: nat)
    requires SplitsInner(m, v, cap, weak, n, o, g, i) && z < m.inners[g].size
    ensures var m', v' := SplitInnerUnder(m, n, o, g, i, cap, noSep), SplitInnerView(m, v, n, o, g, Middle(m, v, n));
            var x := v'.Lo(m.inners[g].children[z + 1]);
            1 <= x < |v'.chain| == |v'.owner| && m.inners[g].entries[z] == FrontSep(m', v'.chain[x]) && v'.owner[x] == g
  {
    hide SplitInnerUnder, SplitInnerView, ShapeOk, InnerOk, FrontSep, Middle, SplitChild, Lower, Upper, KidOk;
    MovedNodes(m, v, cap, weak, n, o, g, i, noSep);
    MiddleIs(m, v, cap, weak, n, 0);
    MiddleSep(m, v, cap, n);
    MovedKid(m, v, cap, weak, n, o, g, i, noSep, g, z + 1);
    SepPart(m, v, cap, weak, g, z);
    SepLeaf(m, v, g, z);
    var x := v.Lo(m.inners[g].children[z + 1]);
    OwnerAfter(m, v, n, o, g, Middle(m, v, n), x);
    SplitInnerKeeps(m, v, cap, weak, n, o, g, i, noSep);
    SameFront(m, SplitInnerUnder(m, n, o, g, i, cap, noSep), v.chain[x]);
  }

  /** Any other node. */
  lemma BesideKid(m: Mem, v: View, cap: nat, weak: Ptr, n: Ptr, o: Ptr, g: Ptr, i: nat, noSep: Sep, x: Ptr, y: nat)
    requires SplitsInner(m, v, cap, weak, n, o, g, i) && x in v.live && x != n && x != g
    requires InnerOk(m, v, cap, weak, x) && y <= m.inners[x].size
    ensures var m' := SplitInnerUnder(m, n, o, g, i, cap, noSep);
            && x in m'.inners && m'.inners[x] == m.inners[x]
            && KidOk(m', SplitInnerView(m, v, n, o, g, Middle(m, v, n)), x, y)
  {
    hide SplitInnerUnder, SplitInnerView, ShapeOk, InnerOk, FrontSep, Middle, SplitChild, Lower, Upper, SepOk;
    BesidePlace(m, v, cap, weak, n, o, g, i, noSep, x) by { InnerParts(m, v, cap, weak, x); }
    InnerParts(m, v, cap, weak, x);
    SplitInnerKeeps(m, v, cap, weak, n, o, g, i, noSep);
    MovedNodes(m, v, cap, weak, n, o, g, i, noSep);
    MovedKid(m, v, cap, weak, n, o, g, i, noSep, x, y);
    if y > 0 { MovedKid(m, v, cap, weak, n, o, g, i, noSep, x, y - 1); }
    MovedBounds(m, v, n, o, g, Middle(m, v, n), x) by { KidExists(m, v, cap, weak, x, y, o); }
  }

  lemma BesideSep(m: Mem, v: View, cap: nat, weak: Ptr, n: Ptr, o: Ptr, g: Ptr, i: nat, noSep: Sep, x: Ptr, y: nat)
    requires SplitsInner(m, v, cap, weak, n, o, g, i) && x in v.live && x != n && x != g
    requires InnerOk(m, v, cap, weak, x) && y < m.inners[x].size
    ensures var m' := SplitInnerUnder(m, n, o, g, i, cap, noSep);
            && x in m'.inners && m'.inners[x] == m.inners[x]
            && SepOk(m', SplitInnerView(m, v, n, o, g, Middle(m, v, n)), x, y)
  {
    hide SplitInnerUnder, SplitInnerView, ShapeOk, InnerOk, FrontSep, Middle, SplitChild, Lower, Upper, KidOk;
    BesidePlace(m, v, cap, weak, n, o, g, i, noSep, x) by { InnerParts(m, v, cap, weak, x); }
    InnerParts(m, v, cap, weak, x);
    MovedNodes(m, v, cap, weak, n, o, g, i, noSep);
    MiddleIs(m, v, cap, weak, n, 0);
    MiddleSep(m, v, cap, n);
    SepPart(m, v, cap, weak, x, y);
    SepLeaf(m, v, x, y);
    MovedKid(m, v, cap, weak, n, o, g, i, noSep, x, y + 1);
    var z := v.Lo(m.inners[x].children[y + 1]);
    OwnerAfter(m, v, n, o, g, Middle(m, v, n), z);
    SplitInnerKeeps(m, v, cap, weak, n, o, g, i, noSep);
    SameFront(m, SplitInnerUnder(m, n, o, g, i, cap, noSep), v.chain[z]);
  }

  lemma InnerFrom(m: Mem, v: View, cap: nat, x: Ptr)
    requires x != 0 && x in m.inners && x !in m.leaves && Sized(m.inners[x], cap) && m.inners[x].size >= 1
    requires forall y :: 0 <= y <= m.inners[x].size ==> KidOk(m, v, x, y)
    requires forall y :: 0 <= y < m.inners[x].size ==> SepOk(m, v, x, y)
    ensures InnerOk(m, v, cap, 0, x)
  {
  }

  lemma WeakOnly(m: Mem, v: View, cap: nat, weak: Ptr, x: Ptr)
    requires InnerOk(m, v, cap, weak, x) && x != weak
    ensures x in m.inners && m.inners[x].size >= 1
  {
  }

  lemma AboveOk(m: Mem, v: View, cap: nat, weak: Ptr, n: Ptr, o: Ptr, g: Ptr, i: nat, noSep: Sep)
    requires SplitsInner(m, v, cap, weak, n, o, g, i)
    ensures InnerOk(SplitInnerUnder(m, n, o, g, i, cap, noSep), SplitInnerView(m, v, n, o, g, Middle(m, v, n)), cap, 0,
                    g)
  {
    hide SplitInnerUnder, SplitInnerView, ShapeOk, FrontSep, Middle, KidOk, SepOk, InnerOk;
    AbovePlace(m, v, cap, weak, n, o, g, i, noSep, 0);
    SplitInnerKeeps(m, v, cap, weak, n, o, g, i, noSep);
    InnerParts(m, v, cap, weak, g);
    forall y | 0 <= y <= m.inners[g].size + 1
      ensures KidOk(SplitInnerUnder(m, n, o, g, i, cap, noSep), SplitInnerView(m, v, n, o, g, Middle(m, v, n)), g, y)
    {
      AboveKid(m, v, cap, weak, n, o, g, i, noSep, y);
    }
    forall y | 0 <= y <= m.inners[g].size
      ensures SepOk(SplitInnerUnder(m, n, o, g, i, cap, noSep), SplitInnerView(m, v, n, o, g, Middle(m, v, n)), g, y)
    {
      AboveSep(m, v, cap, weak, n, o, g, i, noSep, y);
    }
    InnerFrom(SplitInnerUnder(m, n, o, g, i, cap, noSep), SplitInnerView(m, v, n, o, g, Middle(m, v, n)), cap, g);
  }

  lemma BesideOk(m: Mem, v: View, cap: nat, weak: Ptr, n: Ptr, o: Ptr, g: Ptr, i: nat, noSep: Sep, x: Ptr)
    requires SplitsInner(m, v, cap, weak, n, o, g, i) && x in v.live && x != n && x != g
    ensures InnerOk(SplitInnerUnder(m, n, o, g, i, cap, noSep), SplitInnerView(m, v, n, o, g, Middle(m, v, n)), cap, 0,
                    x)
  {
    hide SplitInnerUnder, SplitInnerView, ShapeOk, FrontSep, Middle, KidOk, SepOk, InnerOk;
    LiveInner(m, v, cap, weak, x);
    InnerParts(m, v, cap, weak, x);
    BesidePlace(m, v, cap, weak, n, o, g, i, noSep, x);
    SplitInnerKeeps(m, v, cap, weak, n, o, g, i, noSep);
    WeakOnly(m, v, cap, weak, x);
    forall y | 0 <= y <= m.inners[x].size
      ensures KidOk(SplitInnerUnder(m, n, o, g, i, cap, noSep), SplitInnerView(m, v, n, o, g, Middle(m, v, n)), x, y)
    {
      BesideKid(m, v, cap, weak, n, o, g, i, noSep, x, y);
    }
    forall y | 0 <= y < m.inners[x].size
      ensures SepOk(SplitInnerUnder(m, n, o, g, i, cap, noSep), SplitInnerView(m, v, n, o, g, Middle(m, v, n)), x, y)
    {
      BesideSep(m, v, cap, weak, n, o, g, i, noSep, x, y);
    }
    InnerFrom(SplitInnerUnder(m, n, o, g, i, cap, noSep), SplitInnerView(m, v, n, o, g, Middle(m, v, n)), cap, x);
  }

  /** A split inner node leaves a well-formed tree over the same leaves. */
  lemma SplitInnerOk(m: Mem, v: View, cap: nat, weak: Ptr, n: Ptr, o: Ptr, g: Ptr, i: nat, noSep: Sep)
    requires SplitsInner(m, v, cap, weak, n, o, g, i)
    ensures var m', v' := SplitInnerUnder(m, n, o, g, i, cap, noSep), SplitInnerView(m, v, n, o, g, Middle(m, v, n));
            && ShapeOk(m', v', cap, 0) && v'.chain == v.chain && m'.size == m.size
            && Listing(m', v'.chain) == Listing(m, v.chain)
  {
    hide SplitInnerUnder, SplitInnerView, ChainOk, FrontSep, Middle, KidOk, SepOk, InnerOk, RootOk, SplitChild, Listing;
    SplitInnerKeeps(m, v, cap, weak, n, o, g, i, noSep);
    ListingFrame(m, SplitInnerUnder(m, n, o, g, i, cap, noSep), v.chain) by {
      SameRowsAt(m, SplitInnerUnder(m, n, o, g, i, cap, noSep), v.chain);
    }
    SplitInnerChain(m, v, cap, weak, n, o, g, i, noSep);
    MovedBounds(m, v, n, o, g, Middle(m, v, n), n);
    forall x | x in SplitInnerView(m, v, n, o, g, Middle(m, v, n)).live
      ensures InnerOk(SplitInnerUnder(m, n, o, g, i, cap, noSep), SplitInnerView(m, v, n, o, g, Middle(m, v, n)), cap,
                      0, x)
    {
      if x == n {
        LowerOk(m, v, cap, weak, n, o, g, i, noSep);
      } else if x == o {
        UpperOk(m, v, cap, weak, n, o, g, i, noSep);
      } else if x == g {
        AboveOk(m, v, cap, weak, n, o, g, i, noSep);
      } else {
        BesideOk(m, v, cap, weak, n, o, g, i, noSep, x);
      }
    }
  }

  lemma SameRowsAt(m: Mem, m': Mem, c: seq<Ptr>)
    requires m'.leaves == m.leaves
    ensures forall i :: 0 <= i < |c| ==> RowsAt(m', c[i]) == RowsAt(m, c[i])
  {
  }

  lemma SplitInnerChain(m: Mem, v: View, cap: nat, weak: Ptr, n: Ptr, o: Ptr, g: Ptr, i: nat, noSep: Sep)
    requires SplitsInner(m, v, cap, weak, n, o, g, i)
    ensures var m', v' := SplitInnerUnder(m, n, o, g, i, cap, noSep), SplitInnerView(m, v, n, o, g, Middle(m, v, n));
            && ChainOk(m', v', cap) && RootOk(m', v') && v'.chain == v.chain
  {
    var m', v', mid := SplitInnerUnder(m, n, o, g, i, cap, noSep), SplitInnerView(m, v, n, o, g, Middle(m, v, n)),
        Middle(m, v, n);
    SplitInnerNodes(m, v, cap, weak, n, o, g, i, noSep);
    SplitInnerViewIs(m, v, n, o, g, mid);
    assert m.root in v.live ==> InnerOk(m, v, cap, weak, m.root);
    hide SplitInnerUnder, SplitInnerView, FrontSep, Middle, KidOk, SepOk, SplitChild;
    forall j | 0 <= j < |v'.chain|
      ensures LeafAt(m', v', cap, j)
    {
      assert LeafAt(m, v, cap, j);
    }
  }
}
