/** Walking down stree's B+ tree: which child covers a leaf number, where a split child
    enters its parent, and how a path survives the splits along it. */
module StreePath {
  import opened Keys
  import opened StreeLeaf
  import opened StreeInner
  import opened StreeListing
  import opened StreeTree
  import opened StreeInsert
  import opened StreeSplit
  import opened StreeSplitInner

  ghost predicate Covers(v: View, p: Ptr, j: nat) {
    v.Lo(p) <= j < v.Hi(p)
  }

  /** `c` is child `i` of the inner node `n`. */
  ghost predicate IsKid(m: Mem, v: View, cap: nat, n: Ptr, i: nat, c: Ptr) {
    n in v.live && n in m.inners && Sized(m.inners[n], cap) && i <= m.inners[n].size && m.inners[n].children[i] == c
  }

  /** Only one child covers a leaf number. */
  lemma OneKidCovers(m: Mem, v: View, cap: nat, weak: Ptr, n: Ptr, x: nat, y: nat, j: nat)
    requires InnerOk(m, v, cap, weak, n) && x <= m.inners[n].size && y <= m.inners[n].size
    requires Covers(v, m.inners[n].children[x], j) && Covers(v, m.inners[n].children[y], j)
    ensures x == y
  {
    hide InnerOk;
    if x < y { KidsAscend(m, v, cap, weak, n, x, y); }
    if y < x { KidsAscend(m, v, cap, weak, n, y, x); }
  }

  /** What std::lower_bound over the separators returns. */
  ghost predicate IsLower(m: Mem, node: Inner, k: Key, i: nat) {
    && i <= node.size <= |node.entries|
    && (forall x :: 0 <= x < i ==> SepKey(m, node.entries[x]) < k)
    && (forall x :: i <= x < node.size ==> k <= SepKey(m, node.entries[x]))
  }

  lemma OneLower(m: Mem, node: Inner, k: Key, x: nat, y: nat)
    requires IsLower(m, node, k, x) && IsLower(m, node, k, y)
    ensures x == y
  {
    var a := if x < node.size then SepKey(m, node.entries[x]) else k;
    var b := if y < node.size then SepKey(m, node.entries[y]) else k;
  }

  /** The partition key enters the parent at the place of the split child: the search
      for its place finds just that. */
  lemma PartitionPlace(m: Mem, v: View, cap: nat, g: Ptr, n: Ptr, i: nat)
    requires Inv(m, v, cap) && IsKid(m, v, cap, g, i, n) && n in v.live && n in m.inners && m.inners[n].size == cap
    requires |m.inners[n].entries| == cap
    ensures IsLower(m, m.inners[g], SepKey(m, m.inners[n].entries[cap / 2]), i)
  {
    hide Inv, InnerOk, SepKey, FrontKey, Middle, KidOk, SepOk;
    InvInner(m, v, cap, g);
    InvInner(m, v, cap, n);
    MiddleIs(m, v, cap, 0, n, 0) by { InnerParts(m, v, cap, 0, n); InvCap(m, v, cap); }
    forall x | 0 <= x < m.inners[g].size
      ensures x < i ==> SepKey(m, m.inners[g].entries[x]) < SepKey(m, m.inners[n].entries[cap / 2])
      ensures i <= x ==> SepKey(m, m.inners[n].entries[cap / 2]) <= SepKey(m, m.inners[g].entries[x])
    {
      PartitionBetween(m, v, cap, g, n, i, x);
    }
  }

  lemma InvInner(m: Mem, v: View, cap: nat, n: Ptr)
    requires Inv(m, v, cap) && n in v.live
    ensures InnerOk(m, v, cap, 0, n)
  {
  }

  lemma InvCap(m: Mem, v: View, cap: nat)
    requires Inv(m, v, cap)
    ensures cap >= 3 && |v.chain| == |v.owner| > 0 && ShapeOk(m, v, cap, 0)
  {
  }

  lemma PartitionBetween(m: Mem, v: View, cap: nat, g: Ptr, n: Ptr, i: nat, x: nat)
    requires Inv(m, v, cap) && IsKid(m, v, cap, g, i, n) && n in v.live && n in m.inners && m.inners[n].size == cap
    requires |m.inners[n].entries| == cap && x < m.inners[g].size
    ensures x < i ==> SepKey(m, m.inners[g].entries[x]) < SepKey(m, m.inners[n].entries[cap / 2])
    ensures i <= x ==> SepKey(m, m.inners[n].entries[cap / 2]) <= SepKey(m, m.inners[g].entries[x])
  {
    hide Inv, InnerOk, SepKey, FrontKey, SepOk;
    InvInner(m, v, cap, g);
    InvInner(m, v, cap, n);
    InvCap(m, v, cap);
    InnerParts(m, v, cap, 0, n);
    SepIs(m, v, cap, 0, n, cap / 2);
    SepIs(m, v, cap, 0, g, x);
    MiddleIs(m, v, cap, 0, n, 0);
    KidWithin(m, v, cap, 0, g, i);
    var mid, z := Middle(m, v, n), v.Lo(m.inners[g].children[x + 1]);
    if x < i {
      if x + 1 < i { KidsAscend(m, v, cap, 0, g, x + 1, i); }
      FrontsAscend(m, v, cap, z, mid);
    } else {
      KidsAscend(m, v, cap, 0, g, i, x + 1);
      FrontsAscend(m, v, cap, mid, z);
    }
  }

  /** So does the front of the new leaf when leaf `j` is split. */
  lemma FrontPlace(m: Mem, v: View, cap: nat, g: Ptr, i: nat, j: nat, x: nat)
    requires Inv(m, v, cap) && j < |v.chain| && IsKid(m, v, cap, g, i, v.chain[j])
    requires 0 < x < |RowsAt(m, v.chain[j])|
    ensures IsLower(m, m.inners[g], RowsAt(m, v.chain[j])[x].key, i)
  {
    hide Inv, FrontKey, RowsAt, SepKey, InnerOk;
    InvInner(m, v, cap, g);
    var k := RowsAt(m, v.chain[j])[x].key;
    forall y | 0 <= y < m.inners[g].size
      ensures y < i ==> SepKey(m, m.inners[g].entries[y]) < k
      ensures i <= y ==> k < SepKey(m, m.inners[g].entries[y])
    {
      FrontBetween(m, v, cap, g, i, j, x, y);
    }
  }

  lemma FrontBetween(m: Mem, v: View, cap: nat, g: Ptr, i: nat, j: nat, x: nat, y: nat)
    requires Inv(m, v, cap) && j < |v.chain| && IsKid(m, v, cap, g, i, v.chain[j])
    requires 0 < x < |RowsAt(m, v.chain[j])| && y < m.inners[g].size
    ensures y < i ==> SepKey(m, m.inners[g].entries[y]) < RowsAt(m, v.chain[j])[x].key
    ensures i <= y ==> RowsAt(m, v.chain[j])[x].key < SepKey(m, m.inners[g].entries[y])
  {
    hide Inv, InnerOk, SepKey, FrontKey, RowsAt, KidOk, SepOk, Ascending;
    InvInner(m, v, cap, g);
    InvLeaf(m, v, cap, j);
    SepIs(m, v, cap, 0, g, y);
    var z := v.Lo(m.inners[g].children[y + 1]);
    if y < i {
      if y + 1 < i { KidsAscend(m, v, cap, 0, g, y + 1, i); }
      RowsAscend(m, v, cap, j);
      FirstBelow(RowsAt(m, v.chain[j]), x);
      LeafFacts(m, v, cap, j);
      KidStartsAt(m, v, cap, g, i, j);
      if z < j { FrontsAscend(m, v, cap, z, j); }
    } else {
      KidsAscend(m, v, cap, 0, g, i, y + 1);
      LeavesAscend(m, v, cap, j, z, x);
    }
  }

  lemma InvLeaf(m: Mem, v: View, cap: nat, j: nat)
    requires Inv(m, v, cap) && j < |v.chain|
    ensures LeafAt(m, v, cap, j) && v.Lo(v.chain[j]) == j && v.Hi(v.chain[j]) == j + 1
  {
    assert LeafAt(m, v, cap, j);
  }

  lemma FirstBelow(s: seq<Entry>, x: nat)
    requires Ascending(s) && 0 < x < |s|
    ensures s[0].key < s[x].key
  {
  }

  /** Separators before a leaf's place in its parent are at or before its number. */
  lemma KidStartsAt(m: Mem, v: View, cap: nat, g: Ptr, i: nat, j: nat)
    requires Inv(m, v, cap) && j < |v.chain| && IsKid(m, v, cap, g, i, v.chain[j])
    ensures v.Lo(m.inners[g].children[i]) == j
  {
    InvLeaf(m, v, cap, j);
  }

  // ------------------------------------------------------------ after a split

  /** A split of a leaf moves no front key. */
  lemma SplitFrontKeys(m: Mem, v: View, cap: nat, j: nat, q: Ptr, n: Ptr, blank: Entry, x: nat)
    requires Splits(m, v, cap, j, q) && x < |v.chain|
    ensures FrontKey(SplitLeaf(m, v.chain[j], q, blank), v.chain[x]) == FrontKey(m, v.chain[x])
  {
    hide Permutation, SplitLeaf;
    SplitLeaves(m, v, cap, j, q, blank);
  }

  /** After the split, a key belongs to the lower or the upper half according to the
      middle entry. */
  lemma SplitTarget(m: Mem, v: View, cap: nat, j: nat, q: Ptr, n: Ptr, blank: Entry, k: Key)
    requires Splits(m, v, cap, j, q) && IsTarget(m, v, k, j)
    ensures var m', v', mid := SplitLeaf(m, v.chain[j], q, blank), SplitLeafView(v, j, q, n), cap / 2;
            && mid < |RowsAt(m, v.chain[j])|
            && FrontKey(m', q) == RowsAt(m, v.chain[j])[mid].key
            && IsTarget(m', v', k, if k < RowsAt(m, v.chain[j])[mid].key then j else j + 1)
  {
    hide Splits, SplitLeaf, SplitLeafView, FrontKey, RowsAt;
    SplitParts(m, v, cap, j, q);
    var rows := RowsAt(m, v.chain[j]);
    SplitFrontKeys(m, v, cap, j, q, n, blank, j);
    if j + 1 < |v.chain| { SplitFrontKeys(m, v, cap, j, q, n, blank, j + 1); }
    NewFrontKey(m, v, cap, j, q, blank);
    HalfLinks(v, j, q, n);
  }

  lemma SplitParts(m: Mem, v: View, cap: nat, j: nat, q: Ptr)
    requires Splits(m, v, cap, j, q)
    ensures cap >= 3 && j < |v.chain| == |v.owner| && v.chain[j] in m.leaves && v.chain[j] != q
    ensures Shaped(m.leaves[v.chain[j]], |m.leaves[v.chain[j]].idxs|) && |RowsAt(m, v.chain[j])| == cap
  {
    hide ChainOk, Permutation;
  }

  lemma NewFrontKey(m: Mem, v: View, cap: nat, j: nat, q: Ptr, blank: Entry)
    requires Splits(m, v, cap, j, q)
    ensures v.chain[j] in m.leaves && Shaped(m.leaves[v.chain[j]], |m.leaves[v.chain[j]].idxs|)
    ensures cap / 2 < |RowsAt(m, v.chain[j])|
    ensures FrontKey(SplitLeaf(m, v.chain[j], q, blank), q) == RowsAt(m, v.chain[j])[cap / 2].key
  {
    hide ChainOk, Permutation;
    SplitLeaves(m, v, cap, j, q, blank);
  }

  /** A key that is not in a leaf has a place between its rows. */
  lemma PlaceExists(m: Mem, v: View, cap: nat, k: Key, j: nat, pos: nat)
    requires Inv(m, v, cap) && IsTarget(m, v, k, j)
    requires v.chain[j] in m.leaves && Shaped(m.leaves[v.chain[j]], cap)
    requires IsLowerBound(Items(m.leaves[v.chain[j]]), k, pos)
    requires pos < m.leaves[v.chain[j]].size ==> Items(m.leaves[v.chain[j]])[pos].key != k
    ensures IsPlace(m, v, k, j, pos)
  {
    hide Inv, Permutation, FrontKey;
    var l := m.leaves[v.chain[j]];
    RowsAscend(m, v, cap, j);
    assert forall i :: 0 <= i < l.size ==> Items(l)[i].key == RowsAt(m, v.chain[j])[i].key;
  }

  lemma TargetBound(m: Mem, v: View, k: Key, j: nat)
    requires IsTarget(m, v, k, j)
    ensures j < |v.chain|
  {
  }

  /** A leaf split and the insert into one half: a well-formed tree with the new entry. */
  lemma SplitInsertOk(m: Mem, v: View, cap: nat, weak: Ptr, j: nat, q: Ptr, n: Ptr, i: nat, blank: Entry,
                      k: Key, val: Value, t: nat, pos: nat)
    requires SplitsUnder(m, v, cap, weak, j, q, n, i) && Ascending(Listing(m, v.chain))
    requires m.size == |Listing(m, v.chain)|
    requires HasRoom(SplitLeafUnder(m, v.chain[j], q, n, i, blank), SplitLeafView(v, j, q, n), cap, k, t, pos)
    ensures var m1, v' := SplitLeafUnder(m, v.chain[j], q, n, i, blank), SplitLeafView(v, j, q, n);
            var m' := InsertEntry(m1, v'.chain[t], pos, k, val);
            Inv(m', v', cap) && k !in Contents(m, v) && Contents(m', v') == Contents(m, v)[k := val]
  {
    hide HasRoom, Listing, ShapeOk, ChainOk, InnerOk, Permutation, SplitLeafUnder, SplitLeafView, InsertEntry, Contents,
         Ascending;
    SplitLeafOk(m, v, cap, weak, j, q, n, i, blank);
    InsertEntryOk(SplitLeafUnder(m, v.chain[j], q, n, i, blank), SplitLeafView(v, j, q, n), cap, k, val, t, pos);
    SameContents(m, v, SplitLeafUnder(m, v.chain[j], q, n, i, blank), SplitLeafView(v, j, q, n));
  }

  lemma SameContents(m: Mem, v: View, m': Mem, v': View)
    requires Listing(m', v'.chain) == Listing(m, v.chain)
    ensures Contents(m', v') == Contents(m, v)
  {
  }

  // ------------------------------------------------------------ the path of an insert

  /** The node below path[y]. */
  function Below(path: seq<Ptr>, y: nat, leaf: Ptr): Ptr {
    if y + 1 < |path| then path[y + 1] else leaf
  }

  /** From `x` on, the path leads from parent to child down to leaf `j`. */
  ghost predicate PathOk(m: Mem, v: View, cap: nat, path: seq<Ptr>, x: nat, leaf: Ptr, j: nat) {
    && j < |v.chain| && leaf == v.chain[j]
    && forall y :: x <= y < |path| ==> PathStep(m, v, cap, path[y], Below(path, y, leaf), j)
  }

  /** Node `n` is in use and has the child `below` on the way to leaf `j`. */
  ghost predicate PathStep(m: Mem, v: View, cap: nat, n: Ptr, below: Ptr, j: nat) {
    n in v.live && Covers(v, n, j) && exists i :: IsKid(m, v, cap, n, i, below)
  }

  lemma {:induction false} PathLevels(m: Mem, v: View, cap: nat, path: seq<Ptr>, x: nat, leaf: Ptr, j: nat, y: nat)
    requires ShapeOk(m, v, cap, 0) && PathOk(m, v, cap, path, x, leaf, j) && x < y < |path|
    ensures m.Level(path[y]) < m.Level(path[x])
    decreases y
  {
    hide ShapeOk, InnerOk, PathOk;
    PathStepLevel(m, v, cap, path, x, leaf, j, y - 1);
    if x < y - 1 { PathLevels(m, v, cap, path, x, leaf, j, y - 1); }
  }

  lemma PathStepLevel(m: Mem, v: View, cap: nat, path: seq<Ptr>, x: nat, leaf: Ptr, j: nat, y: nat)
    requires ShapeOk(m, v, cap, 0) && PathOk(m, v, cap, path, x, leaf, j) && x <= y && y + 1 < |path|
    ensures m.Level(path[y + 1]) < m.Level(path[y])
  {
    hide ShapeOk;
    assert PathStep(m, v, cap, path[y], Below(path, y, leaf), j);
    var i :| IsKid(m, v, cap, path[y], i, Below(path, y, leaf));
    LiveInner(m, v, cap, 0, path[y]);
    assert KidOk(m, v, path[y], i);
  }

  /** The half of a split node that still leads to leaf `j`. */
  ghost function Half(m: Mem, v: View, n: Ptr, o: Ptr, j: nat): Ptr
    requires n in m.inners && m.inners[n].size / 2 + 1 < |m.inners[n].children|
  {
    if j < Middle(m, v, n) then n else o
  }

  /** After a split, one half has room, leads to leaf `j`, and is the child of the
      parent that does. */
  lemma HalfLeads(m: Mem, v: View, cap: nat, weak: Ptr, n: Ptr, o: Ptr, g: Ptr, i: nat, noSep: Sep, c: Ptr, y: nat,
                  j: nat)
    requires SplitsInner(m, v, cap, weak, n, o, g, i) && IsKid(m, v, cap, n, y, c) && Covers(v, c, j) && Covers(v, n, j)
    ensures var m', v', t := SplitInnerUnder(m, n, o, g, i, cap, noSep), SplitInnerView(m, v, n, o, g, Middle(m, v, n)),
                             Half(m, v, n, o, j);
            && t in v'.live && t in m'.inners && m'.inners[t].size < cap
            && Covers(v', t, j) && Covers(v', c, j) && Covers(v', g, j)
            && (exists z :: IsKid(m', v', cap, t, z, c))
            && IsKid(m', v', cap, g, if t == n then i else i + 1, t)
  {
    hide SplitInnerUnder, SplitInnerView, ShapeOk, InnerOk, KidOk, SepOk, Lower, Upper, SplitChild;
    MovedNodes(m, v, cap, weak, n, o, g, i, noSep);
    MovedKid(m, v, cap, weak, n, o, g, i, noSep, n, y);
    MiddleIs(m, v, cap, weak, n, y);
    KidWithin(m, v, cap, weak, g, i);
    KidWithin(m, v, cap, weak, n, y);
    AbovePlace(m, v, cap, weak, n, o, g, i, noSep, i);
    AbovePlace(m, v, cap, weak, n, o, g, i, noSep, i + 1);
    MovedBounds(m, v, n, o, g, Middle(m, v, n), n);
    if y <= cap / 2 {
      LowerPlace(m, v, cap, weak, n, o, g, i, noSep, y);
      assert IsKid(SplitInnerUnder(m, n, o, g, i, cap, noSep), SplitInnerView(m, v, n, o, g, Middle(m, v, n)), cap, n,
                   y, c);
    } else {
      UpperPlace(m, v, cap, weak, n, o, g, i, noSep, y - cap / 2 - 1);
      assert IsKid(SplitInnerUnder(m, n, o, g, i, cap, noSep), SplitInnerView(m, v, n, o, g, Middle(m, v, n)), cap, o,
                   y - cap / 2 - 1, c);
    }
  }

  /** The rest of the path is not touched by the split of its node `x`. */
  lemma PathAfter(m: Mem, v: View, cap: nat, weak: Ptr, n: Ptr, o: Ptr, g: Ptr, i: nat, noSep: Sep,
                  path: seq<Ptr>, x: nat, leaf: Ptr, j: nat)
    requires SplitsInner(m, v, cap, weak, n, o, g, i) && x < |path| && path[x] == n
    requires PathOk(m, v, cap, path, x, leaf, j)
    requires forall y :: x < y < |path| ==> m.Level(path[y]) < m.Level(n)
    ensures var m', v' := SplitInnerUnder(m, n, o, g, i, cap, noSep), SplitInnerView(m, v, n, o, g, Middle(m, v, n));
            && PathOk(m', v', cap, path, x + 1, leaf, j)
            && forall y :: x < y < |path| ==>
                 path[y] in m.inners && path[y] in m'.inners && m'.inners[path[y]] == m.inners[path[y]]
  {
    hide SplitInnerUnder, SplitInnerView, SplitsInner, PathOk;
    SplitInnerSized(m, v, cap, weak, n, o, g, i, noSep);
    forall y | x < y < |path|
      ensures path[y] in m.inners && path[y] in SplitInnerUnder(m, n, o, g, i, cap, noSep).inners
                && SplitInnerUnder(m, n, o, g, i, cap, noSep).inners[path[y]] == m.inners[path[y]]
      ensures PathStep(SplitInnerUnder(m, n, o, g, i, cap, noSep), SplitInnerView(m, v, n, o, g, Middle(m, v, n)), cap,
                       path[y], Below(path, y, leaf), j)
    {
      PathStepAfter(m, v, cap, weak, n, o, g, i, noSep, path, x, leaf, j, y);
    }
    PathFrom(SplitInnerUnder(m, n, o, g, i, cap, noSep), SplitInnerView(m, v, n, o, g, Middle(m, v, n)), m, v, cap,
             path, x, leaf, j);
  }

  lemma SplitInnerSized(m: Mem, v: View, cap: nat, weak: Ptr, n: Ptr, o: Ptr, g: Ptr, i: nat, noSep: Sep)
    requires SplitsInner(m, v, cap, weak, n, o, g, i)
    ensures n in m.inners && g in m.inners && Sized(m.inners[n], cap) && m.inners[n].size == cap >= 3
    ensures Sized(m.inners[g], cap) && i <= m.inners[g].size < cap && |v.owner| == |v.chain|
    ensures SplitInnerView(m, v, n, o, g, Middle(m, v, n)).chain == v.chain
  {
    hide InnerOk, ShapeOk;
  }

  lemma PathFrom(m': Mem, v': View, m: Mem, v: View, cap: nat, path: seq<Ptr>, x: nat, leaf: Ptr, j: nat)
    requires PathOk(m, v, cap, path, x, leaf, j) && v'.chain == v.chain
    requires forall y :: x < y < |path| ==> PathStep(m', v', cap, path[y], Below(path, y, leaf), j)
    ensures PathOk(m', v', cap, path, x + 1, leaf, j)
  {
    hide PathStep;
  }

  lemma PathStepAfter(m: Mem, v: View, cap: nat, weak: Ptr, n: Ptr, o: Ptr, g: Ptr, i: nat, noSep: Sep,
                      path: seq<Ptr>, x: nat, leaf: Ptr, j: nat, y: nat)
    requires SplitsInner(m, v, cap, weak, n, o, g, i) && x < y < |path| && path[x] == n
    requires PathOk(m, v, cap, path, x, leaf, j) && m.Level(path[y]) < m.Level(n)
    ensures var m', v', p := SplitInnerUnder(m, n, o, g, i, cap, noSep), SplitInnerView(m, v, n, o, g, Middle(m, v, n)),
              path[y];
            && p in m.inners && p in m'.inners && m'.inners[p] == m.inners[p]
            && PathStep(m', v', cap, p, Below(path, y, leaf), j)
  {
    hide SplitInnerUnder, SplitInnerView, ShapeOk, InnerOk, SepOk;
    assert PathStep(m, v, cap, path[y], Below(path, y, leaf), j);
    var z :| IsKid(m, v, cap, path[y], z, Below(path, y, leaf));
    ParentHigher(m, v, cap, weak, g, i);
    BesidePlace(m, v, cap, weak, n, o, g, i, noSep, path[y]);
    MovedBounds(m, v, n, o, g, Middle(m, v, n), path[y]) by { LiveNotNew(m, v, cap, weak, path[y], o); }
    assert IsKid(SplitInnerUnder(m, n, o, g, i, cap, noSep), SplitInnerView(m, v, n, o, g, Middle(m, v, n)), cap,
                 path[y], z, Below(path, y, leaf));
  }

  lemma ParentHigher(m: Mem, v: View, cap: nat, weak: Ptr, g: Ptr, i: nat)
    requires InnerOk(m, v, cap, weak, g) && i <= m.inners[g].size
    ensures m.Level(m.inners[g].children[i]) < m.Level(g)
  {
    assert KidOk(m, v, g, i);
  }

  lemma LiveNotNew(m: Mem, v: View, cap: nat, weak: Ptr, x: Ptr, o: Ptr)
    requires ShapeOk(m, v, cap, weak) && x in v.live && Unused(m, o)
    ensures x != o && x in m.inners
  {
    LiveInner(m, v, cap, weak, x);
  }

  /** Node `n` has room and `below` is its child on the way to leaf `j`. */
  ghost predicate Ready(m: Mem, v: View, cap: nat, n: Ptr, below: Ptr, j: nat) {
    n in v.live && n in m.inners && m.inners[n].size < cap && Covers(v, n, j)
        && exists z :: IsKid(m, v, cap, n, z, below)
  }

  /** The inner nodes of the path from `x` on are full. */
  predicate FullFrom(m: Mem, cap: nat, path: seq<Ptr>, x: nat) {
    forall y :: x <= y < |path| ==> path[y] in m.inners && m.inners[path[y]].size == cap
  }

  /** After node `x` of the path is split under `g`, the child of `g` that leads to leaf
      `j` is ready for the split of the next node. */
  ghost predicate Prepared(m: Mem, v: View, cap: nat, g: Ptr, path: seq<Ptr>, x: nat, leaf: Ptr, j: nat) {
    && PathOk(m, v, cap, path, x + 1, leaf, j) && FullFrom(m, cap, path, x + 1)
    && g in v.live && g in m.inners && Covers(v, g, j)
    && forall c, i :: IsKid(m, v, cap, g, i, c) && Covers(v, c, j) ==> Ready(m, v, cap, c, Below(path, x, leaf), j)
  }

  lemma SplitPrepares(m: Mem, v: View, cap: nat, weak: Ptr, n: Ptr, o: Ptr, g: Ptr, i: nat, noSep: Sep,
                      path: seq<Ptr>, x: nat, leaf: Ptr, j: nat)
    requires SplitsInner(m, v, cap, weak, n, o, g, i) && x < |path| && path[x] == n
    requires PathOk(m, v, cap, path, x, leaf, j) && FullFrom(m, cap, path, x)
    requires forall y :: x < y < |path| ==> m.Level(path[y]) < m.Level(n)
    ensures Prepared(SplitInnerUnder(m, n, o, g, i, cap, noSep), SplitInnerView(m, v, n, o, g, Middle(m, v, n)),
                     cap, g, path, x, leaf, j)
  {
    hide SplitInnerUnder, SplitInnerView, SplitsInner, PathOk, Half, Middle, IsKid;
    var below := Below(path, x, leaf);
    PathStepAt(m, v, cap, path, x, leaf, j);
    var z :| IsKid(m, v, cap, n, z, below);
    SplitInnerSized(m, v, cap, weak, n, o, g, i, noSep);
    BelowCovers(m, v, cap, weak, path, x, leaf, j) by { SplitShape(m, v, cap, weak, n, o, g, i); }
    PathAfter(m, v, cap, weak, n, o, g, i, noSep, path, x, leaf, j);
    HalfLeads(m, v, cap, weak, n, o, g, i, noSep, below, z, j);
    AboveOk(m, v, cap, weak, n, o, g, i, noSep);
    var t := Half(m, v, n, o, j);
    AboveLive(m, v, cap, weak, n, o, g, i, noSep, j);
    forall c, y | IsKid(SplitInnerUnder(m, n, o, g, i, cap, noSep), SplitInnerView(m, v, n, o, g, Middle(m, v, n)), cap,
                        g, y, c) && Covers(SplitInnerView(m, v, n, o, g, Middle(m, v, n)), c, j)
      ensures Ready(SplitInnerUnder(m, n, o, g, i, cap, noSep), SplitInnerView(m, v, n, o, g, Middle(m, v, n)), cap, c,
                    below, j)
    {
      SameChild(SplitInnerUnder(m, n, o, g, i, cap, noSep), SplitInnerView(m, v, n, o, g, Middle(m, v, n)), cap, g, y,
                c, if t == n then i else i + 1, t, j);
    }
  }

  lemma PathStepAt(m: Mem, v: View, cap: nat, path: seq<Ptr>, x: nat, leaf: Ptr, j: nat)
    requires PathOk(m, v, cap, path, x, leaf, j) && x < |path|
    ensures path[x] in v.live && Covers(v, path[x], j) && exists i :: IsKid(m, v, cap, path[x], i, Below(path, x, leaf))
  {
    hide IsKid;
    assert PathStep(m, v, cap, path[x], Below(path, x, leaf), j);
  }

  lemma SplitShape(m: Mem, v: View, cap: nat, weak: Ptr, n: Ptr, o: Ptr, g: Ptr, i: nat)
    requires SplitsInner(m, v, cap, weak, n, o, g, i)
    ensures ChainOk(m, v, cap)
  {
  }

  lemma AboveLive(m: Mem, v: View, cap: nat, weak: Ptr, n: Ptr, o: Ptr, g: Ptr, i: nat, noSep: Sep, j: nat)
    requires SplitsInner(m, v, cap, weak, n, o, g, i) && Covers(v, n, j)
    ensures var m', v' := SplitInnerUnder(m, n, o, g, i, cap, noSep), SplitInnerView(m, v, n, o, g, Middle(m, v, n));
            g in v'.live && g in m'.inners && Covers(v', g, j)
  {
    hide SplitInnerUnder, SplitInnerView, ShapeOk, InnerOk;
    AbovePlace(m, v, cap, weak, n, o, g, i, noSep, 0);
    MovedNodes(m, v, cap, weak, n, o, g, i, noSep);
    MovedBounds(m, v, n, o, g, Middle(m, v, n), n);
    KidWithin(m, v, cap, weak, g, i);
  }

  lemma SameChild(m: Mem, v: View, cap: nat, g: Ptr, x: nat, c: Ptr, y: nat, d: Ptr, j: nat)
    requires InnerOk(m, v, cap, 0, g) && IsKid(m, v, cap, g, x, c) && IsKid(m, v, cap, g, y, d)
    requires Covers(v, c, j) && Covers(v, d, j)
    ensures c == d
  {
    hide InnerOk;
    OneKidCovers(m, v, cap, 0, g, x, y, j);
  }

  lemma BelowCovers(m: Mem, v: View, cap: nat, weak: Ptr, path: seq<Ptr>, x: nat, leaf: Ptr, j: nat)
    requires ChainOk(m, v, cap) && PathOk(m, v, cap, path, x, leaf, j) && x < |path|
    ensures Covers(v, Below(path, x, leaf), j)
  {
    hide PathStep, Below, ChainOk;
    if x + 1 < |path| {
      PathStepAt(m, v, cap, path, x + 1, leaf, j) by { PathLater(m, v, cap, path, x, leaf, j); }
    } else {
      ChainLeafBounds(m, v, cap, j);
    }
    BelowIs(path, x, leaf);
  }

  lemma BelowIs(path: seq<Ptr>, y: nat, leaf: Ptr)
    ensures Below(path, y, leaf) == if y + 1 < |path| then path[y + 1] else leaf
  {
  }

  lemma PathLater(m: Mem, v: View, cap: nat, path: seq<Ptr>, x: nat, leaf: Ptr, j: nat)
    requires PathOk(m, v, cap, path, x, leaf, j)
    ensures PathOk(m, v, cap, path, x + 1, leaf, j)
  {
    hide PathStep;
  }

  lemma ChainLeafBounds(m: Mem, v: View, cap: nat, j: nat)
    requires ChainOk(m, v, cap) && j < |v.chain|
    ensures Covers(v, v.chain[j], j)
  {
    assert LeafAt(m, v, cap, j);
  }

  /** The path of a lifted tree. */
  lemma PathLift(m: Mem, v: View, cap: nat, r: Ptr, noSep: Sep, path: seq<Ptr>, leaf: Ptr, j: nat)
    requires ShapeOk(m, v, cap, 0) && Unused(m, r) && PathOk(m, v, cap, path, 0, leaf, j)
    ensures PathOk(Lift(m, r, cap, noSep), LiftView(m, v, r), cap, path, 0, leaf, j)
    ensures forall y :: 0 <= y < |path| ==> path[y] in m.inners && path[y] != r
  {
    hide ShapeOk;
    var m', v' := Lift(m, r, cap, noSep), LiftView(m, v, r);
    forall y | 0 <= y < |path|
      ensures path[y] in m.inners && path[y] != r
      ensures PathStep(m', v', cap, path[y], Below(path, y, leaf), j)
    {
      assert PathStep(m, v, cap, path[y], Below(path, y, leaf), j);
      LiveNotNew(m, v, cap, 0, path[y], r);
      var i :| IsKid(m, v, cap, path[y], i, Below(path, y, leaf));
      assert IsKid(m', v', cap, path[y], i, Below(path, y, leaf));
    }
  }
}
