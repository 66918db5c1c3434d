/** What the searches in stree's B+ tree find, and the update of a found entry. */
module StreeFind {
  import opened Keys
  import opened StreeLeaf
  import opened StreeListing
  import opened StreeTree
  import opened StreeInsert
  import opened StreePath

  /** `p` is the leaf at `j`, where `k` belongs, and `pos` is what the search in it
      returned. */
  ghost predicate Searched(m: Mem, v: View, cap: nat, k: Key, j: nat, p: Ptr, pos: nat) {
    && IsTarget(m, v, k, j) && p == v.chain[j] && p in m.leaves && Shaped(m.leaves[p], cap)
    && IsLowerBound(Items(m.leaves[p]), k, pos)
  }

  /** The leaf has `k` at `pos`. */
  predicate HasKey(m: Mem, p: Ptr, pos: nat, k: Key) {
    p in m.leaves && pos < |RowsAt(m, p)| && RowsAt(m, p)[pos].key == k
  }

  lemma LeafReady(m: Mem, v: View, cap: nat, j: nat)
    requires Inv(m, v, cap) && j < |v.chain|
    ensures v.chain[j] in m.leaves && Shaped(m.leaves[v.chain[j]], cap) && Ordered(Items(m.leaves[v.chain[j]]))
    ensures |RowsAt(m, v.chain[j])| == m.leaves[v.chain[j]].size
  {
    assert LeafAt(m, v, cap, j);
    RowsAscend(m, v, cap, j);
    var l, rows := m.leaves[v.chain[j]], RowsAt(m, v.chain[j]);
    assert forall i :: 0 <= i < l.size ==> Items(l)[i].key == rows[i].key;
  }

  lemma RowKeys(m: Mem, p: Ptr, cap: nat)
    requires p in m.leaves && Shaped(m.leaves[p], cap)
    ensures |RowsAt(m, p)| == m.leaves[p].size
    ensures forall i :: 0 <= i < m.leaves[p].size ==>
              RowsAt(m, p)[i].key == Items(m.leaves[p])[i].key && RowsAt(m, p)[i]
                  == m.leaves[p].entries[m.leaves[p].idxs[i]]
  {
  }

  /** The tree holds a key if and only if its leaf does, where the search says. */
  lemma FoundIs(m: Mem, v: View, cap: nat, k: Key, j: nat, p: Ptr, pos: nat)
    requires Inv(m, v, cap) && Searched(m, v, cap, k, j, p, pos)
    ensures k in Contents(m, v) <==> HasKey(m, p, pos, k)
    ensures HasKey(m, p, pos, k) ==> Contents(m, v)[k] == RowsAt(m, p)[pos].value
    ensures !HasKey(m, p, pos, k) ==> IsPlace(m, v, k, j, pos)
  {
    hide Inv, RowsAt, Permutation, Items, Listing, FrontKey;
    RowKeys(m, p, cap);
    if HasKey(m, p, pos, k) {
      RowPlace(m, v.chain, j, pos);
      InvAscends(m, v, cap);
      MapHas(Listing(m, v.chain), Offset(m, v, j) + pos);
    } else {
      PlaceExists(m, v, cap, k, j, pos);
      PlaceInListing(m, v, cap, k, j, pos);
    }
  }

  // ------------------------------------------------------------ a new value for a key

  /** The assignment in stree::put to an entry that exists. */
  function Assign(m: Mem, p: Ptr, pos: nat, val: Value): Mem
    requires p in m.leaves && pos < m.leaves[p].size <= |m.leaves[p].idxs|
    requires m.leaves[p].idxs[pos] < |m.leaves[p].entries|
  {
    var l := m.leaves[p];
    var slot := l.idxs[pos];
    m.(leaves := m.leaves[p := l.(entries := l.entries[slot := l.entries[slot].(value := val)])])
  }

  lemma AssignOk(m: Mem, v: View, cap: nat, k: Key, j: nat, p: Ptr, pos: nat, val: Value)
    requires Inv(m, v, cap) && Searched(m, v, cap, k, j, p, pos) && HasKey(m, p, pos, k) && pos < m.leaves[p].size
    ensures var m' := Assign(m, p, pos, val);
            Inv(m', v, cap) && Contents(m', v) == Contents(m, v)[k := val]
  {
    hide Inv, ShapeOk, Listing, IsTarget, IsLowerBound, RowsAt, Assign, Ascending, MapOf;
    var m' := Assign(m, p, pos, val);
    var x := Offset(m, v, j) + pos;
    TargetBound(m, v, k, j);
    RowPlace(m, v.chain, j, pos);
    AssignShape(m, v, cap, j, pos, val);
    AssignRows(m, p, cap, pos, val);
    AssignKeys(m, p, pos, val);
    AssignListing(m, v, cap, j, pos, m', Entry(k, val)) by { InvChain(m, v, cap); }
    InvAscends(m, v, cap);
    UpdatedIs(Listing(m, v.chain), x, val);
    InvFrom(m', v, cap) by { InvChain(m, v, cap); }
  }

  lemma InvFrom(m: Mem, v: View, cap: nat)
    requires ShapeOk(m, v, cap, 0) && Ascending(Listing(m, v.chain)) && m.size == |Listing(m, v.chain)|
    ensures Inv(m, v, cap)
  {
  }

  lemma AssignRows(m: Mem, p: Ptr, cap: nat, pos: nat, val: Value)
    requires p in m.leaves && Shaped(m.leaves[p], cap) && pos < m.leaves[p].size
    ensures var m', rows := Assign(m, p, pos, val), RowsAt(m, p);
            && Shaped(m'.leaves[p], cap) && pos < |rows|
            && RowsAt(m', p) == rows[pos := Entry(rows[pos].key, val)]
            && forall q :: q != p ==> RowsAt(m', q) == RowsAt(m, q)
  {
    var m', rows, l := Assign(m, p, pos, val), RowsAt(m, p), m.leaves[p];
    forall i | 0 <= i < l.size
      ensures RowsAt(m', p)[i] == rows[pos := Entry(rows[pos].key, val)][i]
    {
      if i != pos { SlotOther(l, cap, i, pos); }
    }
  }

  lemma AssignShape(m: Mem, v: View, cap: nat, j: nat, pos: nat, val: Value)
    requires Inv(m, v, cap) && j < |v.chain| && v.chain[j] in m.leaves && Shaped(m.leaves[v.chain[j]], cap)
    requires pos < m.leaves[v.chain[j]].size
    ensures ShapeOk(Assign(m, v.chain[j], pos, val), v, cap, 0)
  {
    var p := v.chain[j];
    var m' := Assign(m, p, pos, val);
    AssignRows(m, p, cap, pos, val);
    forall i | 0 <= i < |v.chain|
      ensures LeafAt(m', v, cap, i) && FrontSep(m', v.chain[i]) == FrontSep(m, v.chain[i])
    {
      assert LeafAt(m, v, cap, i);
    }
    hide Assign, FrontSep, LeafAt;
    assert m'.leaves.Keys == m.leaves.Keys by { AssignKeys(m, p, pos, val); }
    ShapeFrame(m, m', v, cap, 0);
  }

  lemma AssignKeys(m: Mem, p: Ptr, pos: nat, val: Value)
    requires p in m.leaves && pos < m.leaves[p].size <= |m.leaves[p].idxs|
    requires m.leaves[p].idxs[pos] < |m.leaves[p].entries|
    ensures var m' := Assign(m, p, pos, val);
            m'.leaves.Keys == m.leaves.Keys && m'.inners == m.inners && m'.root == m.root && m'.size == m.size
  {
  }

  lemma AssignListing(m: Mem, v: View, cap: nat, j: nat, pos: nat, m': Mem, e: Entry)
    requires cap >= 3 && ChainOk(m, v, cap) && j < |v.chain| && pos < |RowsAt(m, v.chain[j])|
    requires forall q :: q != v.chain[j] ==> RowsAt(m', q) == RowsAt(m, q)
    requires RowsAt(m', v.chain[j]) == RowsAt(m, v.chain[j])[pos := e]
    ensures Offset(m, v, j) + pos < |Listing(m, v.chain)|
    ensures Listing(m', v.chain) == Listing(m, v.chain)[Offset(m, v, j) + pos := e]
  {
    OthersSame(m, v, cap, j, m');
    ListingAround(m, v.chain, j);
    ListingAround(m', v.chain, j);
    hide Listing, RowsAt, ChainOk;
    UpdatedMiddle(Listing(m, v.chain[..j]), RowsAt(m, v.chain[j]), Listing(m, v.chain[j + 1..]), pos, e);
  }
}
