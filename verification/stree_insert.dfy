/** What an insert does to stree's B+ tree: entries into leaves, and splits of leaves
    and inner nodes, each of which leaves a well-formed tree. */
module StreeInsert {
  import opened Keys
  import opened StreeLeaf
  import opened StreeInner
  import opened StreeListing
  import opened StreeTree

  // ------------------------------------------------------------ an entry into a leaf

  /** internal_insert */
  function InsertEntry(m: Mem, p: Ptr, pos: nat, k: Key, val: Value): Mem
    requires p in m.leaves && m.leaves[p].size < |m.leaves[p].idxs| && pos <= m.leaves[p].size
    requires m.leaves[p].idxs[m.leaves[p].size] < |m.leaves[p].entries|
  {
    m.(leaves := m.leaves[p := Insert(m.leaves[p], pos, k, val)], size := m.size + 1)
  }

  /** Where the tree above the leaves does not change and separators still point to
      fronts, the shape stays. */
  lemma ShapeFrame(m: Mem, m': Mem, v: View, cap: nat, weak: Ptr)
    requires ShapeOk(m, v, cap, weak)
    requires m'.inners == m.inners && m'.root == m.root && m'.leaves.Keys == m.leaves.Keys
    requires forall j :: 0 <= j < |v.chain| ==> LeafAt(m', v, cap, j)
    requires forall j :: 1 <= j < |v.chain| ==> FrontSep(m', v.chain[j]) == FrontSep(m, v.chain[j])
    ensures ShapeOk(m', v, cap, weak)
  {
    forall n | n in v.live
      ensures InnerOk(m', v, cap, weak, n)
    {
      InnerFrame(m, m', v, cap, weak, n);
    }
  }

  lemma InnerFrame(m: Mem, m': Mem, v: View, cap: nat, weak: Ptr, n: Ptr)
    requires InnerOk(m, v, cap, weak, n)
    requires m'.inners == m.inners && m'.leaves.Keys == m.leaves.Keys
    requires forall j :: 1 <= j < |v.chain| ==> FrontSep(m', v.chain[j]) == FrontSep(m, v.chain[j])
    ensures InnerOk(m', v, cap, weak, n)
  {
    var node := m.inners[n];
    hide FrontSep;
    forall i | 0 <= i <= node.size
      ensures KidOk(m', v, n, i)
    {
      assert KidOk(m, v, n, i);
      assert node.children[i] in m.leaves.Keys <==> node.children[i] in m'.leaves;
      assert n in m.leaves.Keys <==> n in m'.leaves;
    }
    forall i | 0 <= i < node.size
      ensures SepOk(m', v, n, i)
    {
      assert SepOk(m, v, n, i);
    }
  }

  /** The rows of a leaf after an insert. */
  lemma InsertRows(l: Leaf, cap: nat, pos: nat, k: Key, val: Value)
    requires Shaped(l, cap) && pos <= l.size < cap
    ensures var l' := Insert(l, pos, k, val);
            && Shaped(l', cap) && Rows(l') == InsertedAt(Rows(l), pos, Entry(k, val))
            && (pos > 0 ==> l'.idxs[0] == l.idxs[0])
  {
    var l' := Insert(l, pos, k, val);
    InsertIdxs(l, cap, pos, k, val);
    hide Permutation;
    forall i | 0 <= i < l'.size
      ensures Rows(l')[i] == InsertedAt(Rows(l), pos, Entry(k, val))[i]
    {
      if i != pos { SlotOther(l, cap, InsertFrom(pos, l.size, i), l.size); }
    }
  }

  /** The place of a new key in its target leaf. */
  ghost predicate IsPlace(m: Mem, v: View, k: Key, j: nat, pos: nat) {
    && IsTarget(m, v, k, j)
    && var rows := RowsAt(m, v.chain[j]);
    && pos <= |rows|
    && (forall i :: 0 <= i < pos ==> rows[i].key < k)
    && (forall i :: pos <= i < |rows| ==> k < rows[i].key)
  }

  /** Where that place is in the listing of the whole tree. */
  ghost function Offset(m: Mem, v: View, j: nat): nat {
    if j <= |v.chain| then |Listing(m, v.chain[..j])| else 0
  }

  /** The place of a key in the whole listing. */
  lemma PlaceInListing(m: Mem, v: View, cap: nat, k: Key, j: nat, pos: nat)
    requires Inv(m, v, cap) && IsPlace(m, v, k, j, pos)
    ensures SplitsAt(Listing(m, v.chain), Offset(m, v, j) + pos, k)
    ensures k !in Contents(m, v)
    ensures j > 0 ==> pos > 0
  {
    hide Inv, Listing, RowsAt, Ascending, SplitsAt, FrontKey, IsPlace;
    assert Ascending(Listing(m, v.chain)) by { InvAscends(m, v, cap); }
    var s, x := Listing(m, v.chain), Offset(m, v, j) + pos;
    RowBefore(m, v, cap, k, j, pos);
    RowAfter(m, v, cap, k, j, pos);
    NeighboursDecide(s, x, k);
    Absent(s, x, k);
  }

  lemma InvAscends(m: Mem, v: View, cap: nat)
    requires Inv(m, v, cap)
    ensures Ascending(Listing(m, v.chain)) && m.size == |Listing(m, v.chain)|
  {
  }

  lemma InvChain(m: Mem, v: View, cap: nat)
    requires Inv(m, v, cap)
    ensures cap >= 3 && ChainOk(m, v, cap) && m.size == |Listing(m, v.chain)|
  {
  }

  lemma RowBefore(m: Mem, v: View, cap: nat, k: Key, j: nat, pos: nat)
    requires Inv(m, v, cap) && IsPlace(m, v, k, j, pos)
    ensures j > 0 ==> pos > 0
    ensures var s, x := Listing(m, v.chain), Offset(m, v, j) + pos;
            x > 0 ==> x <= |s| && s[x - 1].key < k
  {
    hide Inv, Listing, RowsAt, FrontKey;
    LeafFacts(m, v, cap, j);
    if pos > 0 {
      RowPlace(m, v.chain, j, pos - 1);
    } else if j == 0 {
      NoOffset(m, v);
    }
  }

  lemma RowAfter(m: Mem, v: View, cap: nat, k: Key, j: nat, pos: nat)
    requires Inv(m, v, cap) && IsPlace(m, v, k, j, pos)
    ensures var s, x := Listing(m, v.chain), Offset(m, v, j) + pos;
            x <= |s| && (x < |s| ==> k < s[x].key)
  {
    hide Inv, Listing, RowsAt, FrontKey;
    if pos < |RowsAt(m, v.chain[j])| {
      RowPlace(m, v.chain, j, pos);
    } else if j + 1 < |v.chain| {
      NextFront(m, v, cap, j);
    } else {
      LastOffset(m, v, j);
    }
  }

  lemma NoOffset(m: Mem, v: View)
    ensures Offset(m, v, 0) == 0
  {
  }

  lemma LastOffset(m: Mem, v: View, j: nat)
    requires j + 1 == |v.chain|
    ensures Offset(m, v, j) + |RowsAt(m, v.chain[j])| == |Listing(m, v.chain)|
  {
    hide RowsAt, Listing;
    assert v.chain[..j + 1] == v.chain;
    NextOffset(m, v.chain, j);
  }

  lemma NextFront(m: Mem, v: View, cap: nat, j: nat)
    requires Inv(m, v, cap) && j + 1 < |v.chain|
    ensures var x := Offset(m, v, j) + |RowsAt(m, v.chain[j])|;
            x < |Listing(m, v.chain)| && Listing(m, v.chain)[x].key == FrontKey(m, v.chain[j + 1])
  {
    hide Inv, Listing, RowsAt, FrontKey;
    LeafFacts(m, v, cap, j + 1);
    NextOffset(m, v.chain, j);
    var x := Offset(m, v, j) + |RowsAt(m, v.chain[j])|;
    assert x == |Listing(m, v.chain[..j + 1])|;
    RowPlace(m, v.chain, j + 1, 0);
    assert x < |Listing(m, v.chain)|;
    assert Listing(m, v.chain)[x] == RowsAt(m, v.chain[j + 1])[0];
  }

  lemma NextOffset(m: Mem, c: seq<Ptr>, j: nat)
    requires j < |c|
    ensures |Listing(m, c[..j + 1])| == |Listing(m, c[..j])| + |RowsAt(m, c[j])|
  {
    hide RowsAt, Listing;
    ListingSnoc(m, c[..j], c[j]);
    assert c[..j + 1] == c[..j] + [c[j]];
  }

  lemma Absent(s: seq<Entry>, x: nat, k: Key)
    requires Ascending(s) && SplitsAt(s, x, k) && (x > 0 ==> s[x - 1].key < k)
    ensures k !in MapOf(s)
  {
    MapOfIs(s);
    forall i | 0 <= i < |s|
      ensures s[i].key != k
    {
      if i < x - 1 { assert s[i].key < s[x - 1].key; }
    }
  }

  /** The leaf at `j` has room for `k` at `pos`. */
  ghost predicate HasRoom(m: Mem, v: View, cap: nat, k: Key, j: nat, pos: nat) {
    && IsPlace(m, v, k, j, pos) && v.chain[j] in m.leaves
    && Shaped(m.leaves[v.chain[j]], cap) && pos <= m.leaves[v.chain[j]].size < cap
  }

  /** Inserting an absent key into its leaf keeps the tree well-formed, with the same
      separators, and adds exactly that entry. */
  lemma InsertEntryOk(m: Mem, v: View, cap: nat, k: Key, val: Value, j: nat, pos: nat)
    requires Inv(m, v, cap) && HasRoom(m, v, cap, k, j, pos)
    ensures var m' := InsertEntry(m, v.chain[j], pos, k, val);
            Inv(m', v, cap) && k !in Contents(m, v) && Contents(m', v) == Contents(m, v)[k := val]
  {
    hide Inv, Listing, InsertEntry, Ascending, SplitsAt, MapOf, IsTarget, Permutation;
    PlaceInListing(m, v, cap, k, j, pos);
    RoomInserts(m, v, cap, k, val, j, pos);
    InvAscends(m, v, cap);
    InsertedIs(Listing(m, v.chain), Offset(m, v, j) + pos, Entry(k, val));
    InsertedInv(m, v, cap, k, val, j, pos);
  }

  lemma RoomInserts(m: Mem, v: View, cap: nat, k: Key, val: Value, j: nat, pos: nat)
    requires Inv(m, v, cap) && HasRoom(m, v, cap, k, j, pos)
    ensures var m', x := InsertEntry(m, v.chain[j], pos, k, val), Offset(m, v, j) + pos;
            && x <= |Listing(m, v.chain)| && Listing(m', v.chain) == InsertedAt(Listing(m, v.chain), x, Entry(k, val))
            && m'.size == m.size + 1 && ShapeOk(m', v, cap, 0)
  {
    hide Listing, RowsAt, Ascending;
    PlaceInListing(m, v, cap, k, j, pos);
    InsertShape(m, v, cap, k, val, j, pos);
    InsertRowsAt(m, v, cap, k, val, j, pos);
    InsertListing(m, v, cap, j, InsertEntry(m, v.chain[j], pos, k, val), Entry(k, val), pos);
  }

  lemma InsertedInv(m: Mem, v: View, cap: nat, k: Key, val: Value, j: nat, pos: nat)
    requires Inv(m, v, cap) && HasRoom(m, v, cap, k, j, pos)
    requires var x := Offset(m, v, j) + pos;
             x <= |Listing(m, v.chain)| && Ascending(InsertedAt(Listing(m, v.chain), x, Entry(k, val)))
    ensures Inv(InsertEntry(m, v.chain[j], pos, k, val), v, cap)
  {
    hide Listing, ShapeOk, InsertEntry, Ascending, Permutation;
    RoomInserts(m, v, cap, k, val, j, pos);
  }

  lemma InsertRowsAt(m: Mem, v: View, cap: nat, k: Key, val: Value, j: nat, pos: nat)
    requires HasRoom(m, v, cap, k, j, pos)
    ensures var m', p := InsertEntry(m, v.chain[j], pos, k, val), v.chain[j];
            && RowsAt(m', p) == InsertedAt(RowsAt(m, p), pos, Entry(k, val))
            && (forall q :: q != p ==> RowsAt(m', q) == RowsAt(m, q))
  {
    InsertRows(m.leaves[v.chain[j]], cap, pos, k, val);
  }

  lemma InsertShape(m: Mem, v: View, cap: nat, k: Key, val: Value, j: nat, pos: nat)
    requires ShapeOk(m, v, cap, 0) && HasRoom(m, v, cap, k, j, pos) && (j > 0 ==> pos > 0)
    ensures ShapeOk(InsertEntry(m, v.chain[j], pos, k, val), v, cap, 0)
  {
    var m' := InsertEntry(m, v.chain[j], pos, k, val);
    forall i | 0 <= i < |v.chain|
      ensures LeafAt(m', v, cap, i) && (i > 0 ==> FrontSep(m', v.chain[i]) == FrontSep(m, v.chain[i]))
    {
      InsertedLeaf(m, v, cap, k, val, j, pos, i);
    }
    assert m'.leaves.Keys == m.leaves.Keys;
    hide FrontSep, LeafAt, Insert, InsertEntry, HasRoom;
    ShapeFrame(m, m', v, cap, 0);
  }

  lemma InsertedLeaf(m: Mem, v: View, cap: nat, k: Key, val: Value, j: nat, pos: nat, i: nat)
    requires ShapeOk(m, v, cap, 0) && HasRoom(m, v, cap, k, j, pos) && (j > 0 ==> pos > 0) && i < |v.chain|
    ensures var m' := InsertEntry(m, v.chain[j], pos, k, val);
            LeafAt(m', v, cap, i) && (i > 0 ==> FrontSep(m', v.chain[i]) == FrontSep(m, v.chain[i]))
  {
    hide Rows, Permutation, ShapeOk, Insert, RowsAt;
    InsertRows(m.leaves[v.chain[j]], cap, pos, k, val);
    InsertKeeps(m.leaves[v.chain[j]], cap, pos, k, val);
    ChainLeaf(m, v, cap, i);
    ChainLeaf(m, v, cap, j);
  }

  lemma InsertKeeps(l: Leaf, cap: nat, pos: nat, k: Key, val: Value)
    requires Shaped(l, cap) && pos <= l.size < cap
    ensures var l' := Insert(l, pos, k, val); l'.prev == l.prev && l'.next == l.next && l'.size == l.size + 1
  {
  }

  lemma ChainLeaf(m: Mem, v: View, cap: nat, j: nat)
    requires ShapeOk(m, v, cap, 0) && j < |v.chain|
    ensures LeafAt(m, v, cap, j)
  {
  }

  /** Only one leaf's rows change. */
  lemma InsertListing(m: Mem, v: View, cap: nat, j: nat, m': Mem, e: Entry, pos: nat)
    requires cap >= 3 && ChainOk(m, v, cap) && j < |v.chain| && pos <= |RowsAt(m, v.chain[j])|
    requires forall p :: p != v.chain[j] ==> RowsAt(m', p) == RowsAt(m, p)
    requires RowsAt(m', v.chain[j]) == InsertedAt(RowsAt(m, v.chain[j]), pos, e)
    ensures Offset(m, v, j) + pos <= |Listing(m, v.chain)|
    ensures Listing(m', v.chain) == InsertedAt(Listing(m, v.chain), Offset(m, v, j) + pos, e)
  {
    hide RowsAt, Listing, ChainOk;
    OthersSame(m, v, cap, j, m');
    ListingAround(m, v.chain, j);
    ListingAround(m', v.chain, j);
    var a, r, b := Listing(m, v.chain[..j]), RowsAt(m, v.chain[j]), Listing(m, v.chain[j + 1..]);
    assert Listing(m, v.chain) == a + r + b && |a| == Offset(m, v, j);
    assert Listing(m', v.chain) == a + InsertedAt(r, pos, e) + b;
    InsertedMiddle(a, r, b, pos, e);
  }

  lemma OthersSame(m: Mem, v: View, cap: nat, j: nat, m': Mem)
    requires cap >= 3 && ChainOk(m, v, cap) && j < |v.chain|
    requires forall p :: p != v.chain[j] ==> RowsAt(m', p) == RowsAt(m, p)
    ensures Listing(m', v.chain[..j]) == Listing(m, v.chain[..j])
    ensures Listing(m', v.chain[j + 1..]) == Listing(m, v.chain[j + 1..])
  {
    hide RowsAt;
    forall i | 0 <= i < |v.chain| && i != j
      ensures v.chain[i] != v.chain[j]
    {
      assert LeafAt(m, v, cap, i) && LeafAt(m, v, cap, j);
    }
    ListingFrame(m, m', v.chain[..j]);
    ListingFrame(m, m', v.chain[j + 1..]);
  }
}
