/** The steps inside one split_leaf_node transaction of stree's B+ tree: halves, entry,
    parent, links, in that order. The states between them are not well-formed; their
    sum is a split followed by an insert. */
module StreeLeafSplit {
  import opened Keys
  import opened StreeLeaf
  import opened StreeInner
  import opened StreeListing
  import opened StreeTree
  import opened StreeInsert
  import opened StreeSplit
  import opened StreeSplitInner
  import opened StreePath

  /** Both halves can take an entry. */
  lemma HalvesReady(m: Mem, v: View, cap: nat, j: nat, q: Ptr, blank: Entry)
    requires Inv(m, v, cap) && Splits(m, v, cap, j, q)
    ensures var m1, p, rows := MoveHalf(m, v.chain[j], q, blank), v.chain[j], RowsAt(m, v.chain[j]);
            && p != q && p in m1.leaves && q in m1.leaves
            && Shaped(m1.leaves[p], cap) && Ordered(Items(m1.leaves[p])) && 1 <= m1.leaves[p].size < cap
            && Shaped(m1.leaves[q], cap) && Ordered(Items(m1.leaves[q])) && 1 <= m1.leaves[q].size < cap
            && |rows| == cap && Items(m1.leaves[q])[0].key == rows[cap / 2].key
            && m1.leaves[q].idxs[0] == 0 && m1.leaves[q].entries[0].key == rows[cap / 2].key
            && m1.leaves[p] == LowerHalf(m.leaves[p])
  {
    var p, l, rows := v.chain[j], m.leaves[v.chain[j]], RowsAt(m, v.chain[j]);
    HalvesOk(l, cap, blank);
    RowsAscend(m, v, cap, j);
    assert forall i :: 0 <= i < cap ==> Items(l)[i].key == rows[i].key;
    hide Inv, Permutation;
  }

  /** Inserting the key disturbs neither half's front entry nor any other key a
      separator points to. */
  lemma SepsStay(m: Mem, v: View, cap: nat, j: nat, q: Ptr, blank: Entry, g: Ptr, k: Key, val: Value, t: Ptr, pos: nat)
    requires Inv(m, v, cap) && Splits(m, v, cap, j, q) && g in v.live && InnerOk(m, v, cap, 0, g)
    requires t == if k < RowsAt(m, v.chain[j])[cap / 2].key then v.chain[j] else q
    requires var m1 := MoveHalf(m, v.chain[j], q, blank);
             && cap / 2 < |RowsAt(m, v.chain[j])| && k != RowsAt(m, v.chain[j])[cap / 2].key
             && t in m1.leaves && Shaped(m1.leaves[t], cap) && m1.leaves[t].size < cap
             && IsLowerBound(Items(m1.leaves[t]), k, pos)
    ensures var m1 := MoveHalf(m, v.chain[j], q, blank);
            var m2 := InsertEntry(m1, t, pos, k, val);
            && FrontSep(m2, q) == Sep(q, 0) && SepKey(m2, Sep(q, 0)) == RowsAt(m, v.chain[j])[cap / 2].key
            && forall x :: 0 <= x < m.inners[g].size ==>
                 SepKey(m2, m.inners[g].entries[x]) == SepKey(m, m.inners[g].entries[x])
  {
    var p := v.chain[j];
    var m1 := MoveHalf(m, p, q, blank);
    HalvesReady(m, v, cap, j, q, blank);
    if t == q { assert Items(m1.leaves[q])[0].key < k; }
    FrontStays(m1, cap, q, t, pos, k, val);
    FrontStays(m1, cap, p, t, pos, k, val);
    hide Items, Shaped, Inv, InsertEntry;
    forall x | 0 <= x < m.inners[g].size
      ensures SepKey(InsertEntry(m1, t, pos, k, val), m.inners[g].entries[x]) == SepKey(m, m.inners[g].entries[x])
    {
      SepStays(m, v, cap, j, q, blank, g, k, val, t, pos, x);
    }
  }

  lemma FrontStays(m: Mem, cap: nat, p: Ptr, t: Ptr, pos: nat, k: Key, val: Value)
    requires p in m.leaves && t in m.leaves && Shaped(m.leaves[t], cap) && pos <= m.leaves[t].size < cap
    requires Shaped(m.leaves[p], cap)
    ensures var m2 := InsertEntry(m, t, pos, k, val);
            && (p != t || pos > 0 ==> FrontSep(m2, p) == FrontSep(m, p))
            && (p != t || m.leaves[p].size > 0 ==> SepKey(m2, FrontSep(m, p)) == FrontKey(m, p))
  {
    InsertRows(m.leaves[t], cap, pos, k, val);
    if m.leaves[t].size > 0 { SlotOther(m.leaves[t], cap, 0, m.leaves[t].size); }
    hide Permutation;
  }

  lemma SepStays(m: Mem, v: View, cap: nat, j: nat, q: Ptr, blank: Entry, g: Ptr, k: Key, val: Value, t: Ptr, pos: nat,
                 x: nat)
    requires Inv(m, v, cap) && Splits(m, v, cap, j, q) && g in v.live && InnerOk(m, v, cap, 0, g)
    requires x < m.inners[g].size
    requires var m1 := MoveHalf(m, v.chain[j], q, blank);
             && (t == v.chain[j] || t == q) && t in m1.leaves && Shaped(m1.leaves[t], cap)
             && pos <= m1.leaves[t].size < cap
    ensures SepKey(InsertEntry(MoveHalf(m, v.chain[j], q, blank), t, pos, k, val), m.inners[g].entries[x])
         == SepKey(m, m.inners[g].entries[x])
  {
    var m1 := MoveHalf(m, v.chain[j], q, blank);
    assert SepOk(m, v, g, x);
    var z := v.Lo(m.inners[g].children[x + 1]);
    assert LeafAt(m, v, cap, z);
    HalvesReady(m, v, cap, j, q, blank);
    hide Inv, Permutation, Items, InnerOk;
    if v.chain[z] == t { FrontStays(m1, cap, t, t, pos, k, val); }
  }

  /** The steps in the order of the source, and the result: a split, then an insert. */
  lemma StepsAre(m: Mem, v: View, cap: nat, j: nat, q: Ptr, blank: Entry, g: Ptr, i: nat, k: Key, val: Value, t: Ptr,
                 pos: nat)
    requires cap >= 3 && ChainOk(m, v, cap) && Splits(m, v, cap, j, q) && (t == v.chain[j] || t == q)
    requires g in m.inners && Sized(m.inners[g], cap) && i <= m.inners[g].size < cap
    requires var m1 := MoveHalf(m, v.chain[j], q, blank);
             && t in m1.leaves && Shaped(m1.leaves[t], cap) && pos <= m1.leaves[t].size < cap
    requires FrontSep(InsertEntry(MoveHalf(m, v.chain[j], q, blank), t, pos, k, val), q) == Sep(q, 0)
    ensures var p, m2 := v.chain[j], InsertEntry(MoveHalf(m, v.chain[j], q, blank), t, pos, k, val);
            var m3 := m2.(inners := m2.inners[g := SplitChild(m2.inners[g], i, Sep(q, 0), p, q)]);
            var m' := SplitLeafUnder(m, p, q, g, i, blank);
            && t in m'.leaves && Shaped(m'.leaves[t], cap) && pos <= m'.leaves[t].size < cap
            && Items(m'.leaves[t]) == Items(MoveHalf(m, p, q, blank).leaves[t])
            && LinkAfter(m3, p, q) == InsertEntry(m', t, pos, k, val)
  {
    var p := v.chain[j];
    var m1 := MoveHalf(m, p, q, blank);
    var m2 := InsertEntry(m1, t, pos, k, val);
    var m' := SplitLeafUnder(m, p, q, g, i, blank);
    SplitLeaves(m, v, cap, j, q, blank);
    assert LeafAt(m, v, cap, j);
    hide Permutation, ChainOk;
    assert FrontSep(SplitLeaf(m, p, q, blank), q) == Sep(q, 0);
    LinkCommutes(m1, p, q, t, pos, k, val);
    SameItems(m1.leaves[t], m'.leaves[t], cap);
  }

  lemma SameItems(l: Leaf, l': Leaf, cap: nat)
    requires Shaped(l, cap) && l'.entries == l.entries && l'.idxs == l.idxs && l'.size == l.size
    ensures Shaped(l', cap) && Items(l') == Items(l)
  {
  }

  /** The links of a leaf after another has been put behind `p`. */
  function Linked(l: Leaf, x: Ptr, next: Ptr, p: Ptr, q: Ptr): Leaf {
    var a := if x == q then l.(next := next, prev := p) else l;
    var b := if x == next then a.(prev := q) else a;
    if x == p then b.(next := q) else b
  }

  lemma LinkIs(m: Mem, p: Ptr, q: Ptr)
    requires p in m.leaves && q in m.leaves
    ensures var n := LinkAfter(m, p, q);
            && n.leaves.Keys == m.leaves.Keys && n.inners == m.inners && n.root == m.root && n.size == m.size
            && forall x :: x in m.leaves ==> n.leaves[x] == Linked(m.leaves[x], x, m.leaves[p].next, p, q)
  {
  }

  /** Linking a leaf and inserting an entry do not disturb each other. */
  lemma LinkCommutes(m: Mem, p: Ptr, q: Ptr, t: Ptr, pos: nat, k: Key, val: Value)
    requires p in m.leaves && q in m.leaves && t in m.leaves
    requires Shaped(m.leaves[t], |m.leaves[t].idxs|) && pos <= m.leaves[t].size < |m.leaves[t].idxs|
    ensures var n := LinkAfter(m, p, q);
            && t in n.leaves && n.leaves[t].size == m.leaves[t].size && n.leaves[t].idxs == m.leaves[t].idxs
            && n.leaves[t].entries == m.leaves[t].entries
            && LinkAfter(InsertEntry(m, t, pos, k, val), p, q) == InsertEntry(n, t, pos, k, val)
  {
    var next, m2, n := m.leaves[p].next, InsertEntry(m, t, pos, k, val), LinkAfter(m, p, q);
    LinkIs(m, p, q);
    LinkIs(m2, p, q);
    LinkedInsert(m.leaves[t], t, next, p, q, pos, k, val);
    assert m2.leaves[p].next == next;
    hide LinkAfter, Shaped, Linked, Insert;
    var a, b := LinkAfter(m2, p, q), InsertEntry(n, t, pos, k, val);
    assert a.leaves.Keys == b.leaves.Keys;
    assert forall x :: x in a.leaves ==> a.leaves[x] == b.leaves[x];
    assert a.leaves == b.leaves;
    assert a == b;
  }

  lemma LinkedInsert(l: Leaf, x: Ptr, next: Ptr, p: Ptr, q: Ptr, pos: nat, k: Key, val: Value)
    requires Shaped(l, |l.idxs|) && pos <= l.size < |l.idxs|
    ensures var n := Linked(l, x, next, p, q);
            && n.size == l.size && n.idxs == l.idxs && n.entries == l.entries
            && Linked(Insert(l, pos, k, val), x, next, p, q) == Insert(n, pos, k, val)
  {
  }

  /** A full leaf without the key, and the half that receives it. */
  ghost predicate Receives(m: Mem, v: View, cap: nat, j: nat, q: Ptr, blank: Entry, k: Key, t: Ptr, pos: nat) {
    && Splits(m, v, cap, j, q) && IsTarget(m, v, k, j)
    && var rows, m1 := RowsAt(m, v.chain[j]), MoveHalf(m, v.chain[j], q, blank);
    && |rows| == cap && (forall x :: 0 <= x < cap ==> rows[x].key != k)
    && t == (if k < rows[cap / 2].key then v.chain[j] else q)
    && t in m1.leaves && Shaped(m1.leaves[t], cap) && m1.leaves[t].size < cap
    && IsLowerBound(Items(m1.leaves[t]), k, pos)
  }

  /** The new leaf starts with the middle entry, whatever half the key went to. */
  lemma NewFront(m: Mem, v: View, cap: nat, j: nat, q: Ptr, blank: Entry, k: Key, val: Value, t: Ptr, pos: nat)
    requires Inv(m, v, cap) && Receives(m, v, cap, j, q, blank, k, t, pos)
    ensures FrontSep(InsertEntry(MoveHalf(m, v.chain[j], q, blank), t, pos, k, val), q) == Sep(q, 0)
  {
    var m1 := MoveHalf(m, v.chain[j], q, blank);
    HalvesReady(m, v, cap, j, q, blank);
    if t == q { assert Items(m1.leaves[q])[0].key < k; }
    FrontStays(m1, cap, q, t, pos, k, val);
  }

  /** The search in the parent finds the place of the split leaf. */
  lemma ParentSearch(m: Mem, v: View, cap: nat, j: nat, q: Ptr, blank: Entry, g: Ptr, i: nat, k: Key, val: Value,
                     t: Ptr, pos: nat)
    requires Inv(m, v, cap) && Receives(m, v, cap, j, q, blank, k, t, pos) && IsKid(m, v, cap, g, i, v.chain[j])
    ensures var m2 := InsertEntry(MoveHalf(m, v.chain[j], q, blank), t, pos, k, val);
            && FrontSep(m2, q) == Sep(q, 0)
            && IsLower(m2, m.inners[g], SepKey(m2, Sep(q, 0)), i)
            && forall x, y :: 0 <= x < y < m.inners[g].size ==>
                 SepKey(m2, m.inners[g].entries[x]) <= SepKey(m2, m.inners[g].entries[y])
  {
    var m2 := InsertEntry(MoveHalf(m, v.chain[j], q, blank), t, pos, k, val);
    assert InnerOk(m, v, cap, 0, g);
    SepsStay(m, v, cap, j, q, blank, g, k, val, t, pos);
    FrontPlace(m, v, cap, g, i, j, cap / 2);
    hide Inv, InnerOk, Splits, RowsAt, MoveHalf, InsertEntry, SepKey, Items, Shaped;
    forall x, y | 0 <= x < y < m.inners[g].size
      ensures SepKey(m2, m.inners[g].entries[x]) <= SepKey(m2, m.inners[g].entries[y])
    {
      assert SepKey(m, m.inners[g].entries[x]) < SepKey(m, m.inners[g].entries[y]) by {
        SepsAscend(m, v, cap, g, x, y);
      }
    }
  }

  /** The entry has room in its half. */
  lemma ReceivesPlace(m: Mem, v: View, cap: nat, weak: Ptr, j: nat, q: Ptr, g: Ptr, i: nat, blank: Entry,
                      k: Key, t: Ptr, pos: nat)
    requires SplitsUnder(m, v, cap, weak, j, q, g, i) && Ascending(Listing(m, v.chain))
    requires m.size == |Listing(m, v.chain)|
    requires Receives(m, v, cap, j, q, blank, k, t, pos)
    requires var m' := SplitLeafUnder(m, v.chain[j], q, g, i, blank);
             && t in m'.leaves && Shaped(m'.leaves[t], cap) && pos <= m'.leaves[t].size < cap
             && Items(m'.leaves[t]) == Items(MoveHalf(m, v.chain[j], q, blank).leaves[t])
    ensures var m', v', x := SplitLeafUnder(m, v.chain[j], q, g, i, blank), SplitLeafView(v, j, q, g),
                             if t == v.chain[j] then j else j + 1;
            x < |v'.chain| && v'.chain[x] == t && HasRoom(m', v', cap, k, x, pos)
  {
    hide SplitLeafUnder, SplitLeafView, ShapeOk, ChainOk, MoveHalf, IsTarget, Listing, Ascending, Permutation,
         SplitLeaf, FrontKey, RowsAt;
    var p := v.chain[j];
    SplitParts(m, v, cap, j, q);
    HalfLinks(v, j, q, g);
    SplitLeafOk(m, v, cap, weak, j, q, g, i, blank);
    UnderTarget(m, v, cap, weak, j, q, g, i, blank, k);
    HalfLacks(m, v, cap, j, q, blank, k, t, pos);
    PlaceExists(SplitLeafUnder(m, p, q, g, i, blank), SplitLeafView(v, j, q, g), cap, k, if t == p then j else j + 1,
                pos);
  }

  lemma UnderTarget(m: Mem, v: View, cap: nat, weak: Ptr, j: nat, q: Ptr, g: Ptr, i: nat, blank: Entry, k: Key)
    requires SplitsUnder(m, v, cap, weak, j, q, g, i) && IsTarget(m, v, k, j)
    ensures cap / 2 < |RowsAt(m, v.chain[j])|
    ensures IsTarget(SplitLeafUnder(m, v.chain[j], q, g, i, blank), SplitLeafView(v, j, q, g), k,
                     if k < RowsAt(m, v.chain[j])[cap / 2].key then j else j + 1)
  {
    hide SplitLeafView, ShapeOk, ChainOk, IsTarget, Permutation, SplitLeaf, FrontKey, RowsAt;
    SplitParts(m, v, cap, j, q);
    SplitTarget(m, v, cap, j, q, g, blank, k);
    SameLeaves(SplitLeaf(m, v.chain[j], q, blank), SplitLeafUnder(m, v.chain[j], q, g, i, blank),
               SplitLeafView(v, j, q, g), k,
               if k < RowsAt(m, v.chain[j])[cap / 2].key then j else j + 1);
  }

  lemma SameLeaves(m: Mem, m': Mem, v: View, k: Key, x: nat)
    requires m'.leaves == m.leaves
    ensures IsTarget(m', v, k, x) == IsTarget(m, v, k, x)
  {
  }

  lemma HalfLacks(m: Mem, v: View, cap: nat, j: nat, q: Ptr, blank: Entry, k: Key, t: Ptr, pos: nat)
    requires Receives(m, v, cap, j, q, blank, k, t, pos)
    ensures var s := Items(MoveHalf(m, v.chain[j], q, blank).leaves[t]);
            pos < |s| ==> s[pos].key != k
  {
    var l := m.leaves[v.chain[j]];
    HalvesOk(l, cap, blank);
    assert forall x :: 0 <= x < cap ==> Items(l)[x].key == RowsAt(m, v.chain[j])[x].key;
  }
}
