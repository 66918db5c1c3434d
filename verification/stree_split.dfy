/** Splits of full leaves and inner nodes in stree's B+ tree. Each split leaves a
    well-formed tree with the same entries. */
module StreeSplit {
  import opened Keys
  import opened StreeLeaf
  import opened StreeInner
  import opened StreeListing
  import opened StreeTree
  import opened StreeInsert

  /** A place in memory that holds no node. */
  predicate Unused(m: Mem, q: Ptr) {
    q != 0 && q !in m.leaves && q !in m.inners
  }

  // ------------------------------------------------------------ a leaf in two

  /** move: the upper half of leaf `p` goes to the new leaf `q`. */
  function MoveHalf(m: Mem, p: Ptr, q: Ptr, blank: Entry): Mem
    requires p in m.leaves && Shaped(m.leaves[p], |m.leaves[p].idxs|)
  {
    var l := m.leaves[p];
    m.(leaves := m.leaves[p := LowerHalf(l)][q := UpperHalf(l, blank)])
  }

  /** Puts leaf `q` behind `p` in the chain. */
  function LinkAfter(m: Mem, p: Ptr, q: Ptr): Mem
    requires p in m.leaves && q in m.leaves
  {
    var next := m.leaves[p].next;
    var a := m.leaves[q := m.leaves[q].(next := next, prev := p)];
    var b := if next in a then a[next := a[next].(prev := q)] else a;
    m.(leaves := b[p := b[p].(next := q)])
  }

  function SplitLeaf(m: Mem, p: Ptr, q: Ptr, blank: Entry): Mem
    requires p in m.leaves && Shaped(m.leaves[p], |m.leaves[p].idxs|)
  {
    LinkAfter(MoveHalf(m, p, q, blank), p, q)
  }

  /** How leaf numbers move when leaf `j` gets a new neighbour behind it. */
  function Up(j: nat, x: nat): nat {
    if x > j then x + 1 else x
  }

  ghost function SplitLeafView(v: View, j: nat, q: Ptr, n: Ptr): View
    requires j < |v.chain| == |v.owner|
  {
    View(v.chain[..j + 1] + [q] + v.chain[j + 1..],
         (map x | x in v.lo :: Up(j, v.lo[x]))[q := j + 1],
         (map x | x in v.hi :: Up(j, v.hi[x]))[v.chain[j] := j + 1][q := j + 2],
         v.live,
         v.parent[q := n],
         v.owner[..j + 1] + [n] + v.owner[j + 1..])
  }

  lemma SplitLeafViewIs(v: View, j: nat, q: Ptr, n: Ptr)
    requires j < |v.chain| == |v.owner|
    ensures var v' := SplitLeafView(v, j, q, n);
            && |v'.chain| == |v'.owner| == |v.chain| + 1
            && (forall x :: 0 <= x < |v.chain| ==> v'.chain[Up(j, x)] == v.chain[x] && v'.owner[Up(j, x)] == v.owner[x])
            && v'.chain[j + 1] == q && v'.owner[j + 1] == n
            && (forall c :: c != q ==> v'.Lo(c) == Up(j, v.Lo(c)) && v'.Parent(c) == v.Parent(c))
            && (forall c :: c != q && c != v.chain[j] ==> v'.Hi(c) == Up(j, v.Hi(c)))
            && v'.Hi(v.chain[j]) == (if q == v.chain[j] then j + 2 else j + 1)
            && v'.Lo(q) == j + 1 && v'.Hi(q) == j + 2 && v'.Parent(q) == n
  {
  }

  lemma SplitLeafBounds(v: View, j: nat, q: Ptr, n: Ptr, c: Ptr)
    requires j < |v.chain| == |v.owner| && c != q && c != v.chain[j]
    ensures var v' := SplitLeafView(v, j, q, n);
            v'.Lo(c) == Up(j, v.Lo(c)) && v'.Hi(c) == Up(j, v.Hi(c)) && v'.Parent(c) == v.Parent(c)
  {
  }

  lemma SplitLeafSelf(v: View, j: nat, q: Ptr, n: Ptr)
    requires j < |v.chain| == |v.owner| && v.chain[j] != q && v.Lo(v.chain[j]) == j
    ensures var v', p := SplitLeafView(v, j, q, n), v.chain[j];
            v'.Lo(p) == j && v'.Hi(p) == j + 1 && v'.Parent(p) == v.Parent(p)
  {
  }

  /** The leaves after a split of leaf `j`. */
  lemma SplitLeaves(m: Mem, v: View, cap: nat, j: nat, q: Ptr, blank: Entry)
    requires cap >= 3 && ChainOk(m, v, cap) && j < |v.chain| && Unused(m, q)
    requires v.chain[j] in m.leaves && Shaped(m.leaves[v.chain[j]], cap)
    ensures var m', p, l := SplitLeaf(m, v.chain[j], q, blank), v.chain[j], m.leaves[v.chain[j]];
            && m'.inners == m.inners && m'.root == m.root && m'.size == m.size
            && m'.leaves.Keys == m.leaves.Keys + {q}
            && m'.leaves[p] == LowerHalf(l).(next := q)
            && m'.leaves[q] == UpperHalf(l, blank).(prev := p, next := l.next)
            && forall x :: 0 <= x < |v.chain| && x != j ==>
                 && v.chain[x] in m.leaves
                 && m'.leaves[v.chain[x]] == if x == j + 1 then m.leaves[v.chain[x]].(prev := q)
                      else m.leaves[v.chain[x]]
  {
    var m', p, l := SplitLeaf(m, v.chain[j], q, blank), v.chain[j], m.leaves[v.chain[j]];
    assert LeafAt(m, v, cap, j);
    forall x | 0 <= x < |v.chain| && x != j
      ensures v.chain[x] in m.leaves
      ensures m'.leaves[v.chain[x]] == if x == j + 1 then m.leaves[v.chain[x]].(prev := q) else m.leaves[v.chain[x]]
    {
      assert LeafAt(m, v, cap, x);
      if j + 1 < |v.chain| { assert LeafAt(m, v, cap, j + 1); }
    }
  }

  lemma SplitLeafChain(m: Mem, v: View, cap: nat, j: nat, q: Ptr, n: Ptr, blank: Entry)
    requires Splits(m, v, cap, j, q)
    ensures ChainOk(SplitLeaf(m, v.chain[j], q, blank), SplitLeafView(v, j, q, n), cap)
  {
    var m', v', p := SplitLeaf(m, v.chain[j], q, blank), SplitLeafView(v, j, q, n), v.chain[j];
    SplitLeaves(m, v, cap, j, q, blank);
    SplitLeafViewIs(v, j, q, n);
    forall x | 0 <= x < |v'.chain|
      ensures LeafAt(m', v', cap, x)
    {
      SplitLeafAt(m, v, cap, j, q, n, blank, x);
    }
    hide SplitLeaf, SplitLeafView, LeafAt, Shaped;
    forall c | c in m'.leaves
      ensures c in v'.chain
    {
      if c != q {
        var x :| 0 <= x < |v.chain| && v.chain[x] == c;
        assert v'.chain[Up(j, x)] == c;
      }
    }
  }

  /** Leaf `j` is full and `q` is free. */
  ghost predicate Splits(m: Mem, v: View, cap: nat, j: nat, q: Ptr) {
    && cap >= 3 && ChainOk(m, v, cap) && j < |v.chain| && Unused(m, q)
    && v.chain[j] in m.leaves && Shaped(m.leaves[v.chain[j]], cap) && m.leaves[v.chain[j]].size == cap
    && Shaped(m.leaves[v.chain[j]], |m.leaves[v.chain[j]].idxs|) && |v.owner| == |v.chain|
  }

  lemma SplitLeafAt(m: Mem, v: View, cap: nat, j: nat, q: Ptr, n: Ptr, blank: Entry, x: nat)
    requires Splits(m, v, cap, j, q) && x <= |v.chain|
    ensures LeafAt(SplitLeaf(m, v.chain[j], q, blank), SplitLeafView(v, j, q, n), cap, x)
  {
    hide Splits, SplitLeaf, SplitLeafView, LeafAt;
    if x < j {
      LeafBefore(m, v, cap, j, q, n, blank, x);
    } else if x > j + 1 {
      LeafBehind(m, v, cap, j, q, n, blank, x - 1);
    } else {
      LeafHalves(m, v, cap, j, q, n, blank);
    }
  }

  lemma LeafHalves(m: Mem, v: View, cap: nat, j: nat, q: Ptr, n: Ptr, blank: Entry)
    requires Splits(m, v, cap, j, q)
    ensures LeafAt(SplitLeaf(m, v.chain[j], q, blank), SplitLeafView(v, j, q, n), cap, j)
    ensures LeafAt(SplitLeaf(m, v.chain[j], q, blank), SplitLeafView(v, j, q, n), cap, j + 1)
  {
    LowerLeaf(m, v, cap, j, q, n, blank);
    UpperLeaf(m, v, cap, j, q, n, blank);
  }

  lemma LowerLeaf(m: Mem, v: View, cap: nat, j: nat, q: Ptr, n: Ptr, blank: Entry)
    requires Splits(m, v, cap, j, q)
    ensures LeafAt(SplitLeaf(m, v.chain[j], q, blank), SplitLeafView(v, j, q, n), cap, j)
  {
    hide Permutation, Items, ChainOk, SplitLeaf, SplitLeafView;
    OldLeaf(m, v, cap, j, q, j);
    SplitHalf(m, v, cap, j, q, blank);
    SplitLeafSelf(v, j, q, n);
    HalfLinks(v, j, q, n);
  }

  lemma UpperLeaf(m: Mem, v: View, cap: nat, j: nat, q: Ptr, n: Ptr, blank: Entry)
    requires Splits(m, v, cap, j, q)
    ensures LeafAt(SplitLeaf(m, v.chain[j], q, blank), SplitLeafView(v, j, q, n), cap, j + 1)
  {
    hide Permutation, Items, ChainOk, SplitLeaf, SplitLeafView;
    OldLeaf(m, v, cap, j, q, j);
    SplitHalf(m, v, cap, j, q, blank);
    NewBounds(v, j, q, n);
    HalfLinks(v, j, q, n);
  }

  lemma OldLeaf(m: Mem, v: View, cap: nat, j: nat, q: Ptr, x: nat)
    requires Splits(m, v, cap, j, q) && x < |v.chain|
    ensures LeafAt(m, v, cap, x) && v.chain[x] != q && (x != j ==> v.chain[x] != v.chain[j])
  {
    assert LeafAt(m, v, cap, j);
  }

  lemma HalfLinks(v: View, j: nat, q: Ptr, n: Ptr)
    requires j < |v.chain| == |v.owner|
    ensures var c := SplitLeafView(v, j, q, n).chain;
            && |c| == |v.chain| + 1 && c[j] == v.chain[j] && c[j + 1] == q
            && (j > 0 ==> c[j - 1] == v.chain[j - 1]) && (j + 1 < |v.chain| ==> c[j + 2] == v.chain[j + 1])
  {
  }

  lemma SplitHalf(m: Mem, v: View, cap: nat, j: nat, q: Ptr, blank: Entry)
    requires Splits(m, v, cap, j, q)
    ensures var m', p, l := SplitLeaf(m, v.chain[j], q, blank), v.chain[j], m.leaves[v.chain[j]];
            && p in m'.leaves && q in m'.leaves && Shaped(m'.leaves[p], cap) && Shaped(m'.leaves[q], cap)
            && m'.leaves[p].size > 0 && m'.leaves[q].size > 0
            && m'.leaves[p].prev == l.prev && m'.leaves[p].next == q && m'.leaves[q].prev == p && m'.leaves[q].next
                 == l.next
  {
    hide Permutation, Items, SplitLeaf;
    SplitLeaves(m, v, cap, j, q, blank);
    HalvesOk(m.leaves[v.chain[j]], cap, blank);
  }

  lemma LeafBefore(m: Mem, v: View, cap: nat, j: nat, q: Ptr, n: Ptr, blank: Entry, x: nat)
    requires Splits(m, v, cap, j, q) && x < j
    ensures LeafAt(SplitLeaf(m, v.chain[j], q, blank), SplitLeafView(v, j, q, n), cap, x)
  {
    hide Permutation, Items, ChainOk, SplitLeaf, SplitLeafView;
    OldLeaf(m, v, cap, j, q, x);
    OtherLeaf(m, v, cap, j, q, blank, x);
    SplitLeafBounds(v, j, q, n, v.chain[x]);
    LinksBefore(v, j, q, n, x);
  }

  lemma LeafBehind(m: Mem, v: View, cap: nat, j: nat, q: Ptr, n: Ptr, blank: Entry, x: nat)
    requires Splits(m, v, cap, j, q) && j < x < |v.chain|
    ensures LeafAt(SplitLeaf(m, v.chain[j], q, blank), SplitLeafView(v, j, q, n), cap, x + 1)
  {
    hide Permutation, Items, ChainOk, SplitLeaf, SplitLeafView;
    OldLeaf(m, v, cap, j, q, x);
    OtherLeaf(m, v, cap, j, q, blank, x);
    SplitLeafBounds(v, j, q, n, v.chain[x]);
    LinksBehind(v, j, q, n, x);
  }

  lemma OtherLeaf(m: Mem, v: View, cap: nat, j: nat, q: Ptr, blank: Entry, x: nat)
    requires Splits(m, v, cap, j, q) && x < |v.chain| && x != j
    ensures var m', p := SplitLeaf(m, v.chain[j], q, blank), v.chain[x];
            && p in m'.leaves && p in m.leaves
            && m'.leaves[p] == if x == j + 1 then m.leaves[p].(prev := q) else m.leaves[p]
  {
    hide Permutation, Items, SplitLeaf;
    SplitLeaves(m, v, cap, j, q, blank);
  }

  lemma LinksBefore(v: View, j: nat, q: Ptr, n: Ptr, x: nat)
    requires x < j < |v.chain| == |v.owner|
    ensures var c := SplitLeafView(v, j, q, n).chain;
            && |c| == |v.chain| + 1 && c[x] == v.chain[x] && c[x + 1] == v.chain[x + 1]
            && (x > 0 ==> c[x - 1] == v.chain[x - 1])
  {
  }

  lemma LinksBehind(v: View, j: nat, q: Ptr, n: Ptr, x: nat)
    requires j < x < |v.chain| == |v.owner|
    ensures var v' := SplitLeafView(v, j, q, n);
            && v'.chain[x + 1] == v.chain[x] && |v'.chain| == |v.chain| + 1
            && v'.chain[x] == (if x == j + 1 then q else v.chain[x - 1])
            && (x + 1 < |v.chain| ==> v'.chain[x + 2] == v.chain[x + 1])
  {
  }

  /** A split moves no front entry. */
  lemma SplitLeafFronts(m: Mem, v: View, cap: nat, j: nat, q: Ptr, n: Ptr, blank: Entry, x: nat)
    requires Splits(m, v, cap, j, q)
    requires x < |v.chain|
    ensures FrontSep(SplitLeaf(m, v.chain[j], q, blank), v.chain[x]) == FrontSep(m, v.chain[x])
  {
    SplitLeaves(m, v, cap, j, q, blank);
  }

  /** A split keeps the listing. */
  lemma SplitLeafListing(m: Mem, v: View, cap: nat, j: nat, q: Ptr, n: Ptr, blank: Entry)
    requires Splits(m, v, cap, j, q)
    ensures Listing(SplitLeaf(m, v.chain[j], q, blank), SplitLeafView(v, j, q, n).chain) == Listing(m, v.chain)
  {
    var m', p := SplitLeaf(m, v.chain[j], q, blank), v.chain[j];
    var a, b := v.chain[..j], v.chain[j + 1..];
    assert v.chain == a + [p] + b && SplitLeafView(v, j, q, n).chain == a + [p, q] + b;
    SplitLeafRows(m, v, cap, j, q, blank);
    hide SplitLeaf, RowsAt, Listing, Splits, Shaped, SplitLeafView;
    ListingOne(m, p);
    ListingPair(m', p, q);
    ListingSplice(m, m', a, [p], [p, q], b);
  }

  lemma ListingPair(m: Mem, p: Ptr, q: Ptr)
    ensures Listing(m, [p, q]) == RowsAt(m, p) + RowsAt(m, q)
  {
    assert [p, q][..1] == [p];
    ListingOne(m, p);
  }

  lemma SplitLeafRows(m: Mem, v: View, cap: nat, j: nat, q: Ptr, blank: Entry)
    requires Splits(m, v, cap, j, q)
    ensures var m', p := SplitLeaf(m, v.chain[j], q, blank), v.chain[j];
            && RowsAt(m', p) + RowsAt(m', q) == RowsAt(m, p)
            && |RowsAt(m', p)| == |RowsAt(m, p)| / 2
            && forall c :: c in v.chain[..j] + v.chain[j + 1..] ==> RowsAt(m', c) == RowsAt(m, c)
  {
    var m', p := SplitLeaf(m, v.chain[j], q, blank), v.chain[j];
    var l := m.leaves[p];
    SplitLeaves(m, v, cap, j, q, blank);
    HalvesOk(l, cap, blank);
    hide SplitLeaf, ChainOk, Permutation;
    assert RowsAt(m', p) + RowsAt(m', q) == RowsAt(m, p);
    forall c | c in v.chain[..j] + v.chain[j + 1..]
      ensures RowsAt(m', c) == RowsAt(m, c)
    {
      var x :| 0 <= x < |v.chain| && x != j && v.chain[x] == c;
    }
  }

  /** The transaction body of split_leaf_node, without the entry to insert: leaf `p`,
      child `i` of node `n`, is split. */
  function SplitLeafUnder(m: Mem, p: Ptr, q: Ptr, n: Ptr, i: nat, blank: Entry): Mem
    requires p in m.leaves && Shaped(m.leaves[p], |m.leaves[p].idxs|)
    requires n in m.inners && Sized(m.inners[n], |m.inners[n].entries|) && i <= m.inners[n].size < |m.inners[n].entries|
  {
    var m1 := SplitLeaf(m, p, q, blank);
    m1.(inners := m1.inners[n := SplitChild(m1.inners[n], i, FrontSep(m1, q), p, q)])
  }

  /** Node `n` has room and its child `i` is leaf `j`. */
  ghost predicate SplitsUnder(m: Mem, v: View, cap: nat, weak: Ptr, j: nat, q: Ptr, n: Ptr, i: nat) {
    && Splits(m, v, cap, j, q) && ShapeOk(m, v, cap, weak) && (weak == 0 || weak == n)
    && n in v.live && n in m.inners && n !in m.leaves && Sized(m.inners[n], cap)
    && i <= m.inners[n].size < cap && m.inners[n].children[i] == v.chain[j] && m.root != v.chain[j]
  }

  /** What the pieces of that predicate say about leaf and parent. */
  lemma UnderFacts(m: Mem, v: View, cap: nat, weak: Ptr, j: nat, q: Ptr, n: Ptr, i: nat)
    requires SplitsUnder(m, v, cap, weak, j, q, n, i)
    ensures InnerOk(m, v, cap, weak, n) && KidOk(m, v, n, i) && LeafAt(m, v, cap, j)
    ensures var p := v.chain[j];
            && n != q && n != p && p != q && v.Lo(p) == j && v.Hi(p) == j + 1 && v.Parent(p) == n && |v.owner|
                 == |v.chain|
            && |SplitLeafView(v, j, q, n).chain| == |SplitLeafView(v, j, q, n).owner| == |v.chain| + 1
            && SplitLeafView(v, j, q, n).live == v.live
  {
    hide Shaped;
  }

  /** A node in use, other than the new one. */
  lemma LiveInner(m: Mem, v: View, cap: nat, weak: Ptr, x: Ptr)
    requires ShapeOk(m, v, cap, weak) && x in v.live
    ensures InnerOk(m, v, cap, weak, x)
  {
  }

  /** A child is a node that exists. */
  lemma KidExists(m: Mem, v: View, cap: nat, weak: Ptr, x: Ptr, y: nat, q: Ptr)
    requires ShapeOk(m, v, cap, weak) && x in v.live && x in m.inners && y <= m.inners[x].size < |m.inners[x].children|
    requires Unused(m, q)
    ensures KidOk(m, v, x, y) && m.inners[x].children[y] != q && x != q
    ensures var c := m.inners[x].children[y];
            (c in m.inners || c in m.leaves) && (c in v.live ==> c in m.inners && c !in m.leaves)
  {
    LiveInner(m, v, cap, weak, x);
    hide ShapeOk;
    var c := m.inners[x].children[y];
    assert KidOk(m, v, x, y);
    if c in v.live { LiveInner(m, v, cap, weak, c); }
  }

  lemma SplitLeafInner(m: Mem, v: View, cap: nat, weak: Ptr, j: nat, q: Ptr, n: Ptr, i: nat, blank: Entry, x: Ptr)
    requires SplitsUnder(m, v, cap, weak, j, q, n, i) && x in v.live && x != n
    ensures InnerOk(SplitLeafUnder(m, v.chain[j], q, n, i, blank), SplitLeafView(v, j, q, n), cap, 0, x)
  {
    hide SplitLeafUnder, SplitLeafView, ShapeOk, Shaped, ChainOk, KidOk, SepOk;
    LiveInner(m, v, cap, weak, x);
    UnderNodes(m, v, cap, weak, j, q, n, i, blank);
    var node := m.inners[x];
    forall y | 0 <= y <= node.size
      ensures KidOk(SplitLeafUnder(m, v.chain[j], q, n, i, blank), SplitLeafView(v, j, q, n), x, y)
    {
      OtherKid(m, v, cap, weak, j, q, n, i, blank, x, y);
    }
    forall y | 0 <= y < node.size
      ensures SepOk(SplitLeafUnder(m, v.chain[j], q, n, i, blank), SplitLeafView(v, j, q, n), x, y)
    {
      OtherSep(m, v, cap, weak, j, q, n, i, blank, x, y);
    }
  }

  /** The inner nodes beside the parent, and the levels, after the split. */
  lemma UnderNodes(m: Mem, v: View, cap: nat, weak: Ptr, j: nat, q: Ptr, n: Ptr, i: nat, blank: Entry)
    requires SplitsUnder(m, v, cap, weak, j, q, n, i)
    ensures var m' := SplitLeafUnder(m, v.chain[j], q, n, i, blank);
            && m'.inners.Keys == m.inners.Keys && (forall x :: x in m.inners && x != n ==> m'.inners[x] == m.inners[x])
            && m'.inners[n].level == m.inners[n].level && m'.leaves.Keys == m.leaves.Keys + {q}
            && (forall c :: c != q ==> m'.Level(c) == m.Level(c)) && m'.Level(q) == 0
            && m'.leaves == SplitLeaf(m, v.chain[j], q, blank).leaves
            && m'.root == m.root && m'.size == m.size
  {
    hide ShapeOk, Permutation;
    SplitLeaves(m, v, cap, j, q, blank);
    var m' := SplitLeafUnder(m, v.chain[j], q, n, i, blank);
    assert forall c :: c in m'.leaves <==> c in m.leaves.Keys + {q};
  }

  lemma OtherKid(m: Mem, v: View, cap: nat, weak: Ptr, j: nat, q: Ptr, n: Ptr, i: nat, blank: Entry, x: Ptr, y: nat)
    requires SplitsUnder(m, v, cap, weak, j, q, n, i) && x in v.live && x != n
    requires InnerOk(m, v, cap, weak, x) && y <= m.inners[x].size
    ensures var m' := SplitLeafUnder(m, v.chain[j], q, n, i, blank);
            x in m'.inners && m'.inners[x] == m.inners[x] && KidOk(m', SplitLeafView(v, j, q, n), x, y)
  {
    hide SplitLeafUnder, SplitLeafView, SplitLeaf, ShapeOk, Shaped, ChainOk, FrontSep, InnerOk;
    UnderFacts(m, v, cap, weak, j, q, n, i);
    UnderNodes(m, v, cap, weak, j, q, n, i, blank);
    InnerParts(m, v, cap, weak, x);
    var node := m.inners[x];
    KidExists(m, v, cap, weak, x, y, q);
    SplitLeafBounds(v, j, q, n, node.children[y]);
    SplitLeafBounds(v, j, q, n, x);
    if y > 0 {
      KidExists(m, v, cap, weak, x, y - 1, q);
      SplitLeafBounds(v, j, q, n, node.children[y - 1]);
    }
  }

  lemma OtherSep(m: Mem, v: View, cap: nat, weak: Ptr, j: nat, q: Ptr, n: Ptr, i: nat, blank: Entry, x: Ptr, y: nat)
    requires SplitsUnder(m, v, cap, weak, j, q, n, i) && x in v.live && x != n
    requires InnerOk(m, v, cap, weak, x) && y < m.inners[x].size
    ensures var m' := SplitLeafUnder(m, v.chain[j], q, n, i, blank);
            x in m'.inners && m'.inners[x] == m.inners[x] && SepOk(m', SplitLeafView(v, j, q, n), x, y)
  {
    hide SplitLeafUnder, SplitLeafView, SplitLeaf, ShapeOk, Shaped, ChainOk, FrontSep, InnerOk;
    UnderFacts(m, v, cap, weak, j, q, n, i);
    UnderNodes(m, v, cap, weak, j, q, n, i, blank);
    InnerParts(m, v, cap, weak, x);
    var c := m.inners[x].children[y + 1];
    KidExists(m, v, cap, weak, x, y + 1, q);
    SepPart(m, v, cap, weak, x, y);
    SplitLeafBounds(v, j, q, n, c);
    MovedSep(m, v, cap, weak, j, q, n, i, blank, v.Lo(c));
  }

  lemma InnerParts(m: Mem, v: View, cap: nat, weak: Ptr, x: Ptr)
    requires InnerOk(m, v, cap, weak, x)
    ensures x in m.inners && x !in m.leaves && x != 0 && Sized(m.inners[x], cap) && m.inners[x].size <= cap
  {
  }

  lemma SepPart(m: Mem, v: View, cap: nat, weak: Ptr, x: Ptr, y: nat)
    requires InnerOk(m, v, cap, weak, x) && y < m.inners[x].size
    ensures SepOk(m, v, x, y)
  {
  }

  /** The leaf a separator points to after the split. */
  lemma MovedSep(m: Mem, v: View, cap: nat, weak: Ptr, j: nat, q: Ptr, n: Ptr, i: nat, blank: Entry, x: nat)
    requires SplitsUnder(m, v, cap, weak, j, q, n, i) && x < |v.chain| == |v.owner|
    ensures var m', v' := SplitLeafUnder(m, v.chain[j], q, n, i, blank), SplitLeafView(v, j, q, n);
            && |v'.chain| == |v'.owner| == |v.chain| + 1 && Up(j, x) <= x + 1 < |v'.chain|
            && v'.chain[Up(j, x)] == v.chain[x] && v'.owner[Up(j, x)] == v.owner[x]
            && FrontSep(m', v.chain[x]) == FrontSep(m, v.chain[x])
  {
    hide ShapeOk, Permutation;
    SplitLeafFronts(m, v, cap, j, q, n, blank, x);
  }

  lemma UnderParent(m: Mem, v: View, cap: nat, weak: Ptr, j: nat, q: Ptr, n: Ptr, i: nat, blank: Entry)
    requires SplitsUnder(m, v, cap, weak, j, q, n, i)
    ensures var m', m1 := SplitLeafUnder(m, v.chain[j], q, n, i, blank), SplitLeaf(m, v.chain[j], q, blank);
            && m'.inners == m.inners[n := SplitChild(m.inners[n], i, FrontSep(m1, q), v.chain[j], q)]
            && FrontSep(m', q) == FrontSep(m1, q) && n !in m'.leaves
  {
    hide ShapeOk, Permutation, SplitChild;
    SplitLeaves(m, v, cap, j, q, blank);
    UnderFacts(m, v, cap, weak, j, q, n, i);
    assert n !in SplitLeaf(m, v.chain[j], q, blank).leaves.Keys;
  }

  /** The parent after the split, place by place. */
  lemma ParentPlace(m: Mem, v: View, cap: nat, weak: Ptr, j: nat, q: Ptr, n: Ptr, i: nat, blank: Entry, x: nat)
    requires SplitsUnder(m, v, cap, weak, j, q, n, i) && x <= m.inners[n].size + 1
    ensures var m', node := SplitLeafUnder(m, v.chain[j], q, n, i, blank), m.inners[n];
            && n in m'.inners
            && var r := m'.inners[n];
            && Sized(r, cap) && r.size == node.size + 1
            && r.children[x] == (if x <= i then node.children[x] else if x == i + 1 then q else node.children[x - 1])
            && (x < r.size ==>
                  r.entries[x] == if x < i then node.entries[x] else if x == i then FrontSep(m', q)
                      else node.entries[x - 1])
  {
    hide ShapeOk, ChainOk, Shaped, SplitLeaf, SplitLeafUnder, FrontSep;
    UnderParent(m, v, cap, weak, j, q, n, i, blank);
    SplitChildAt(m.inners[n], cap, i, FrontSep(SplitLeaf(m, v.chain[j], q, blank), q), v.chain[j], q);
  }

  /** What becomes of the old children of the parent. */
  lemma ShiftedKid(m: Mem, v: View, cap: nat, weak: Ptr, j: nat, q: Ptr, n: Ptr, i: nat, blank: Entry, o: nat)
    requires SplitsUnder(m, v, cap, weak, j, q, n, i) && o <= m.inners[n].size
    ensures var m', v' := SplitLeafUnder(m, v.chain[j], q, n, i, blank), SplitLeafView(v, j, q, n);
            var c := m.inners[n].children[o];
            && KidOk(m, v, n, o)
            && (c in v'.live || c in m'.leaves) && m'.Level(c) < m'.Level(n) && v'.Parent(c) == n
            && v'.Lo(c) == Up(j, v.Lo(c)) && v'.Hi(c) == (if o == i then j + 1 else Up(j, v.Hi(c)))
            && (o == i ==> v.Lo(c) == j && v.Hi(c) == j + 1)
            && v'.Lo(n) == Up(j, v.Lo(n)) && v'.Hi(n) == Up(j, v.Hi(n))
  {
    hide SplitLeafUnder, SplitLeafView, SplitLeaf, ShapeOk, Shaped, ChainOk, FrontSep, InnerOk;
    var p := v.chain[j];
    UnderFacts(m, v, cap, weak, j, q, n, i);
    UnderNodes(m, v, cap, weak, j, q, n, i, blank);
    KidExists(m, v, cap, weak, n, o, q);
    SplitLeafBounds(v, j, q, n, n);
    if o < i { KidDiffers(m, v, cap, weak, n, o, i); }
    if i < o { KidDiffers(m, v, cap, weak, n, i, o); }
    if o == i {
      SplitLeafSelf(v, j, q, n);
    } else {
      SplitLeafBounds(v, j, q, n, m.inners[n].children[o]);
    }
  }

  /** The children of the parent: the new leaf takes its place behind the old one. */
  lemma ParentKid(m: Mem, v: View, cap: nat, weak: Ptr, j: nat, q: Ptr, n: Ptr, i: nat, blank: Entry, y: nat)
    requires SplitsUnder(m, v, cap, weak, j, q, n, i) && y <= m.inners[n].size + 1
    ensures var m' := SplitLeafUnder(m, v.chain[j], q, n, i, blank);
            n in m'.inners && Sized(m'.inners[n], cap) && m'.inners[n].size == m.inners[n].size + 1
            && KidOk(m', SplitLeafView(v, j, q, n), n, y)
  {
    if y <= i {
      KidBefore(m, v, cap, weak, j, q, n, i, blank, y);
    } else if y == i + 1 {
      KidBetween(m, v, cap, weak, j, q, n, i, blank, y);
    } else {
      KidBehind(m, v, cap, weak, j, q, n, i, blank, y);
    }
  }

  lemma KidBefore(m: Mem, v: View, cap: nat, weak: Ptr, j: nat, q: Ptr, n: Ptr, i: nat, blank: Entry, y: nat)
    requires SplitsUnder(m, v, cap, weak, j, q, n, i) && y <= i
    ensures var m' := SplitLeafUnder(m, v.chain[j], q, n, i, blank);
            n in m'.inners && Sized(m'.inners[n], cap) && m'.inners[n].size == m.inners[n].size + 1
            && KidOk(m', SplitLeafView(v, j, q, n), n, y)
  {
    hide SplitLeafUnder, SplitLeafView, SplitLeaf, ShapeOk, Shaped, ChainOk, FrontSep, InnerOk;
    UnderFacts(m, v, cap, weak, j, q, n, i);
    ParentPlace(m, v, cap, weak, j, q, n, i, blank, y);
    if y > 0 { ParentPlace(m, v, cap, weak, j, q, n, i, blank, y - 1); }
    ShiftedKid(m, v, cap, weak, j, q, n, i, blank, y);
    if y > 0 { ShiftedKid(m, v, cap, weak, j, q, n, i, blank, y - 1); }
  }

  lemma KidBetween(m: Mem, v: View, cap: nat, weak: Ptr, j: nat, q: Ptr, n: Ptr, i: nat, blank: Entry, y: nat)
    requires SplitsUnder(m, v, cap, weak, j, q, n, i) && y == i + 1
    ensures var m' := SplitLeafUnder(m, v.chain[j], q, n, i, blank);
            n in m'.inners && Sized(m'.inners[n], cap) && m'.inners[n].size == m.inners[n].size + 1
            && KidOk(m', SplitLeafView(v, j, q, n), n, y)
  {
    hide SplitLeafUnder, SplitLeafView, SplitLeaf, ShapeOk, Shaped, ChainOk, FrontSep, InnerOk;
    UnderFacts(m, v, cap, weak, j, q, n, i);
    ParentPlace(m, v, cap, weak, j, q, n, i, blank, y);
    if y > 0 { ParentPlace(m, v, cap, weak, j, q, n, i, blank, y - 1); }
    ShiftedKid(m, v, cap, weak, j, q, n, i, blank, i);
    NewKid(m, v, cap, weak, j, q, n, i, blank);
  }

  lemma KidBehind(m: Mem, v: View, cap: nat, weak: Ptr, j: nat, q: Ptr, n: Ptr, i: nat, blank: Entry, y: nat)
    requires SplitsUnder(m, v, cap, weak, j, q, n, i) && i + 1 < y <= m.inners[n].size + 1
    ensures var m' := SplitLeafUnder(m, v.chain[j], q, n, i, blank);
            n in m'.inners && Sized(m'.inners[n], cap) && m'.inners[n].size == m.inners[n].size + 1
            && KidOk(m', SplitLeafView(v, j, q, n), n, y)
  {
    hide SplitLeafUnder, SplitLeafView, SplitLeaf, ShapeOk, Shaped, ChainOk, FrontSep, InnerOk;
    UnderFacts(m, v, cap, weak, j, q, n, i);
    ParentPlace(m, v, cap, weak, j, q, n, i, blank, y);
    if y > 0 { ParentPlace(m, v, cap, weak, j, q, n, i, blank, y - 1); }
    ShiftedKid(m, v, cap, weak, j, q, n, i, blank, y - 1);
    ShiftedKid(m, v, cap, weak, j, q, n, i, blank, y - 2);
    if y == i + 2 { NewKid(m, v, cap, weak, j, q, n, i, blank); }
  }

  lemma NewBounds(v: View, j: nat, q: Ptr, n: Ptr)
    requires j < |v.chain| == |v.owner|
    ensures var v' := SplitLeafView(v, j, q, n); v'.Lo(q) == j + 1 && v'.Hi(q) == j + 2 && v'.Parent(q) == n
  {
  }

  lemma NewKid(m: Mem, v: View, cap: nat, weak: Ptr, j: nat, q: Ptr, n: Ptr, i: nat, blank: Entry)
    requires SplitsUnder(m, v, cap, weak, j, q, n, i)
    ensures var m', v' := SplitLeafUnder(m, v.chain[j], q, n, i, blank), SplitLeafView(v, j, q, n);
            q in m'.leaves && m'.Level(q) < m'.Level(n) && v'.Parent(q) == n && v'.Lo(q) == j + 1 && v'.Hi(q) == j + 2
  {
    hide SplitLeafUnder, SplitLeafView, SplitLeaf, ShapeOk, Shaped, ChainOk, FrontSep;
    UnderFacts(m, v, cap, weak, j, q, n, i);
    UnderNodes(m, v, cap, weak, j, q, n, i, blank);
    NewBounds(v, j, q, n);
  }

  lemma KidDiffers(m: Mem, v: View, cap: nat, weak: Ptr, n: Ptr, x: nat, y: nat)
    requires InnerOk(m, v, cap, weak, n) && x < y <= m.inners[n].size
    ensures m.inners[n].children[x] != m.inners[n].children[y]
  {
    KidsAscend(m, v, cap, weak, n, x, y);
    assert KidOk(m, v, n, y);
  }

  lemma ParentSep(m: Mem, v: View, cap: nat, weak: Ptr, j: nat, q: Ptr, n: Ptr, i: nat, blank: Entry, y: nat)
    requires SplitsUnder(m, v, cap, weak, j, q, n, i) && y <= m.inners[n].size
    ensures var m' := SplitLeafUnder(m, v.chain[j], q, n, i, blank);
            n in m'.inners && Sized(m'.inners[n], cap) && m'.inners[n].size == m.inners[n].size + 1
            && SepOk(m', SplitLeafView(v, j, q, n), n, y)
  {
    if y == i {
      NewSep(m, v, cap, weak, j, q, n, i, blank, y);
    } else {
      KeptSep(m, v, cap, weak, j, q, n, i, blank, y);
    }
  }

  lemma NewPlace(v: View, j: nat, q: Ptr, n: Ptr)
    requires j < |v.chain| == |v.owner|
    ensures var v' := SplitLeafView(v, j, q, n);
            |v'.chain| == |v'.owner| == |v.chain| + 1 && v'.chain[j + 1] == q && v'.owner[j + 1] == n
  {
  }

  lemma NewSep(m: Mem, v: View, cap: nat, weak: Ptr, j: nat, q: Ptr, n: Ptr, i: nat, blank: Entry, y: nat)
    requires SplitsUnder(m, v, cap, weak, j, q, n, i) && y == i
    ensures var m' := SplitLeafUnder(m, v.chain[j], q, n, i, blank);
            n in m'.inners && Sized(m'.inners[n], cap) && m'.inners[n].size == m.inners[n].size + 1
            && SepOk(m', SplitLeafView(v, j, q, n), n, y)
  {
    hide SplitLeafUnder, SplitLeafView, SplitLeaf, ShapeOk, Shaped, ChainOk, FrontSep, InnerOk;
    UnderFacts(m, v, cap, weak, j, q, n, i);
    ParentPlace(m, v, cap, weak, j, q, n, i, blank, y);
    ParentPlace(m, v, cap, weak, j, q, n, i, blank, y + 1);
    NewKid(m, v, cap, weak, j, q, n, i, blank);
    NewPlace(v, j, q, n);
  }

  lemma KeptSep(m: Mem, v: View, cap: nat, weak: Ptr, j: nat, q: Ptr, n: Ptr, i: nat, blank: Entry, y: nat)
    requires SplitsUnder(m, v, cap, weak, j, q, n, i) && y <= m.inners[n].size && y != i
    ensures var m' := SplitLeafUnder(m, v.chain[j], q, n, i, blank);
            n in m'.inners && Sized(m'.inners[n], cap) && m'.inners[n].size == m.inners[n].size + 1
            && SepOk(m', SplitLeafView(v, j, q, n), n, y)
  {
    hide SplitLeafUnder, SplitLeafView, SplitLeaf, ShapeOk, Shaped, ChainOk, FrontSep, InnerOk;
    UnderFacts(m, v, cap, weak, j, q, n, i);
    ParentPlace(m, v, cap, weak, j, q, n, i, blank, y);
    ParentPlace(m, v, cap, weak, j, q, n, i, blank, y + 1);
    OldSep(m, v, cap, weak, j, q, n, i, blank, if y < i then y else y - 1);
  }

  lemma OldSep(m: Mem, v: View, cap: nat, weak: Ptr, j: nat, q: Ptr, n: Ptr, i: nat, blank: Entry, o: nat)
    requires SplitsUnder(m, v, cap, weak, j, q, n, i) && o < m.inners[n].size
    ensures var m', v' := SplitLeafUnder(m, v.chain[j], q, n, i, blank), SplitLeafView(v, j, q, n);
            var x := v'.Lo(m.inners[n].children[o + 1]);
            1 <= x < |v'.chain| && m.inners[n].entries[o] == FrontSep(m', v'.chain[x]) && v'.owner[x] == n
  {
    hide SplitLeafUnder, SplitLeafView, SplitLeaf, ShapeOk, Shaped, ChainOk, FrontSep, InnerOk;
    var c := m.inners[n].children[o + 1];
    UnderFacts(m, v, cap, weak, j, q, n, i);
    ShiftedKid(m, v, cap, weak, j, q, n, i, blank, o + 1);
    SepPart(m, v, cap, weak, n, o);
    MovedSep(m, v, cap, weak, j, q, n, i, blank, v.Lo(c));
  }

  /** A split leaf leaves a well-formed tree with the same entries. */
  lemma SplitLeafOk(m: Mem, v: View, cap: nat, weak: Ptr, j: nat, q: Ptr, n: Ptr, i: nat, blank: Entry)
    requires SplitsUnder(m, v, cap, weak, j, q, n, i)
    ensures var m', v' := SplitLeafUnder(m, v.chain[j], q, n, i, blank), SplitLeafView(v, j, q, n);
            && ShapeOk(m', v', cap, 0)
            && Listing(m', v'.chain) == Listing(m, v.chain) && m'.size == m.size
  {
    var m', v' := SplitLeafUnder(m, v.chain[j], q, n, i, blank), SplitLeafView(v, j, q, n);
    var m1 := SplitLeaf(m, v.chain[j], q, blank);
    SplitLeafChain(m, v, cap, j, q, n, blank);
    SplitLeafListing(m, v, cap, j, q, n, blank);
    SplitLeaves(m, v, cap, j, q, blank);
    ListingFrame(m1, m', v'.chain);
    assert InnerOk(m, v, cap, weak, n);
    hide SplitLeaf, Shaped, Listing, SplitLeafView;
    SplitChain(m1, m', v', cap);
    SplitRoot(m, v, cap, weak, j, q, n, i, blank);
    forall x | x in v'.live
      ensures InnerOk(m', v', cap, 0, x)
    {
      assert v'.live == v.live by { SplitLive(v, j, q, n); }
      if x != n {
        SplitLeafInner(m, v, cap, weak, j, q, n, i, blank, x);
      } else {
        SplitLeafParent(m, v, cap, weak, j, q, n, i, blank);
      }
    }
  }

  lemma SplitLive(v: View, j: nat, q: Ptr, n: Ptr)
    requires j < |v.chain| == |v.owner|
    ensures SplitLeafView(v, j, q, n).live == v.live
  {
  }

  lemma SplitChain(m: Mem, m': Mem, v: View, cap: nat)
    requires ChainOk(m, v, cap) && m'.leaves == m.leaves
    ensures ChainOk(m', v, cap)
  {
    forall j | 0 <= j < |v.chain|
      ensures LeafAt(m', v, cap, j)
    {
      assert LeafAt(m, v, cap, j);
    }
  }

  lemma SplitLeafParent(m: Mem, v: View, cap: nat, weak: Ptr, j: nat, q: Ptr, n: Ptr, i: nat, blank: Entry)
    requires SplitsUnder(m, v, cap, weak, j, q, n, i)
    ensures InnerOk(SplitLeafUnder(m, v.chain[j], q, n, i, blank), SplitLeafView(v, j, q, n), cap, 0, n)
  {
    var m', v' := SplitLeafUnder(m, v.chain[j], q, n, i, blank), SplitLeafView(v, j, q, n);
    SplitLeaves(m, v, cap, j, q, blank);
    assert InnerOk(m, v, cap, weak, n);
    hide SplitLeaf, SplitChild, ShapeOk, Shaped, ChainOk, SplitLeafView;
    ParentKid(m, v, cap, weak, j, q, n, i, blank, 0);
    forall y | 0 <= y <= m'.inners[n].size
      ensures KidOk(m', v', n, y)
    {
      ParentKid(m, v, cap, weak, j, q, n, i, blank, y);
    }
    forall y | 0 <= y < m'.inners[n].size
      ensures SepOk(m', v', n, y)
    {
      ParentSep(m, v, cap, weak, j, q, n, i, blank, y);
    }
  }

  lemma SplitRoot(m: Mem, v: View, cap: nat, weak: Ptr, j: nat, q: Ptr, n: Ptr, i: nat, blank: Entry)
    requires SplitsUnder(m, v, cap, weak, j, q, n, i)
    ensures RootOk(SplitLeafUnder(m, v.chain[j], q, n, i, blank), SplitLeafView(v, j, q, n))
  {
    SplitLeaves(m, v, cap, j, q, blank);
    SplitLeafViewIs(v, j, q, n);
    assert LeafAt(m, v, cap, j) && InnerOk(m, v, cap, weak, n) && KidOk(m, v, n, i);
    SplitLive(v, j, q, n);
  }

  /** The root is no node's child, unless above it stands a lone node without
      separators. */
  lemma RootNoKid(m: Mem, v: View, cap: nat, weak: Ptr, n: Ptr, i: nat)
    requires ShapeOk(m, v, cap, weak) && n in v.live && i <= m.inners[n].size
    requires n in m.inners && i < |m.inners[n].children| && m.inners[n].size >= 1
    ensures m.inners[n].children[i] != m.root
  {
    assert InnerOk(m, v, cap, weak, n);
    KidWithin(m, v, cap, weak, n, i);
    KidWithin(m, v, cap, weak, n, m.inners[n].size);
    KidStarts(m, v, cap, weak, n, i);
    KidEnds(m, v, cap, weak, n, i);
  }
}
