/** Iterators and ranges of stree: begin, end, the bounds, operator++, and the get and
    count functions on top of them. */
module StreeQueries {
  import opened Keys
  import opened StreeLeaf
  import opened StreeInner
  import opened StreeListing
  import opened StreeTree
  import opened StreeInsert
  import opened StreePath
  import opened StreeFind
  import opened StreeErasePath
  import opened Stree

  // ------------------------------------------------------------ parts of a map

  function AboveKey(m: map<Key, Value>, k: Key): map<Key, Value> {
    map q | q in m && k < q :: m[q]
  }

  function UpToKey(m: map<Key, Value>, k: Key): map<Key, Value> {
    map q | q in m && q <= k :: m[q]
  }

  function BelowKey(m: map<Key, Value>, k: Key): map<Key, Value> {
    map q | q in m && q < k :: m[q]
  }

  function FromKey(m: map<Key, Value>, k: Key): map<Key, Value> {
    map q | q in m && k <= q :: m[q]
  }

  function BetweenKeys(m: map<Key, Value>, a: Key, b: Key): map<Key, Value> {
    map q | q in m && a < q < b :: m[q]
  }

  /** `x` entries are below `k`, the others not. */
  predicate LowerAt(s: seq<Entry>, x: nat, k: Key) {
    x <= |s| && (forall i :: 0 <= i < x ==> s[i].key < k) && (forall i :: x <= i < |s| ==> k <= s[i].key)
  }

  lemma SliceAscends(s: seq<Entry>, a: nat, b: nat)
    requires Ascending(s) && a <= b <= |s|
    ensures Ascending(s[a..b])
  {
  }

  /** What a slice of the listing stands for. */
  lemma SliceLookup(s: seq<Entry>, a: nat, b: nat, k: Key)
    requires Ascending(s) && a <= b <= |s|
    ensures k in MapOf(s[a..b]) <==> HasRow(s, a, b, k)
    ensures k in MapOf(s[a..b]) ==> Lookup(MapOf(s[a..b]), k) == Lookup(MapOf(s), k)
  {
    SliceAscends(s, a, b);
    hide MapOf, Ascending;
    if k in MapOf(s[a..b]) { RowOfSlice(s, a, b, k); }
    if HasRow(s, a, b, k) {
      var i: nat :| a <= i < b && s[i].key == k;
      SliceHasRow(s, a, b, i);
    }
  }

  lemma RowOfSlice(s: seq<Entry>, a: nat, b: nat, k: Key)
    requires Ascending(s) && a <= b <= |s| && Ascending(s[a..b]) && k in MapOf(s[a..b])
    ensures HasRow(s, a, b, k) && Lookup(MapOf(s[a..b]), k) == Lookup(MapOf(s), k)
  {
    hide MapOf, Ascending;
    var i := RowOf(s[a..b], k);
    MapHas(s[a..b], i);
    MapHas(s, a + i);
    assert s[a + i].key == k;
  }

  lemma SliceHasRow(s: seq<Entry>, a: nat, b: nat, i: nat)
    requires a <= i < b <= |s| && Ascending(s[a..b])
    ensures s[i].key in MapOf(s[a..b])
  {
    hide MapOf, Ascending;
    MapHas(s[a..b], i - a);
  }

  predicate HasRow(s: seq<Entry>, a: nat, b: nat, k: Key)
    requires a <= b <= |s|
  {
    exists i :: a <= i < b && s[i].key == k
  }

  /** Cutting the listing at an upper bound cuts the map there. */
  lemma UpperCut(s: seq<Entry>, x: nat, k: Key)
    requires Ascending(s) && SplitsAt(s, x, k)
    ensures MapOf(s[x..]) == AboveKey(MapOf(s), k) && MapOf(s[..x]) == UpToKey(MapOf(s), k)
    ensures |AboveKey(MapOf(s), k)| == |s| - x && |UpToKey(MapOf(s), k)| == x
  {
    hide MapOf, Ascending, AboveKey, UpToKey;
    assert s[x..|s|] == s[x..] && s[0..x] == s[..x];
    SliceAscends(s, x, |s|);
    SliceAscends(s, 0, x);
    MapOfIs(s[x..]);
    MapOfIs(s[..x]);
    forall q
      ensures Lookup(MapOf(s[x..]), q) == Lookup(AboveKey(MapOf(s), k), q)
      ensures Lookup(MapOf(s[..x]), q) == Lookup(UpToKey(MapOf(s), k), q)
    {
      UpperLookup(s, x, k, q);
    }
    SameMap(MapOf(s[x..]), AboveKey(MapOf(s), k));
    SameMap(MapOf(s[..x]), UpToKey(MapOf(s), k));
  }

  lemma UpperLookup(s: seq<Entry>, x: nat, k: Key, q: Key)
    requires Ascending(s) && x <= |s| && SplitsAt(s, x, k)
    ensures Lookup(MapOf(s[x..]), q) == Lookup(AboveKey(MapOf(s), k), q)
    ensures Lookup(MapOf(s[..x]), q) == Lookup(UpToKey(MapOf(s), k), q)
  {
    hide MapOf, Ascending;
    CutLookup(s, x, q);
  }

  /** A key is on one side of a cut or the other. */
  lemma CutLookup(s: seq<Entry>, x: nat, q: Key)
    requires Ascending(s) && x <= |s|
    ensures q in MapOf(s[x..]) <==> HasRow(s, x, |s|, q)
    ensures q in MapOf(s[..x]) <==> HasRow(s, 0, x, q)
    ensures q in MapOf(s) <==> HasRow(s, 0, |s|, q)
    ensures q in MapOf(s[x..]) ==> Lookup(MapOf(s[x..]), q) == Lookup(MapOf(s), q)
    ensures q in MapOf(s[..x]) ==> Lookup(MapOf(s[..x]), q) == Lookup(MapOf(s), q)
  {
    assert s[x..|s|] == s[x..] && s[0..x] == s[..x] && s[0..|s|] == s;
    SliceLookup(s, x, |s|, q);
    SliceLookup(s, 0, x, q);
    SliceLookup(s, 0, |s|, q);
  }

  /** Cutting the listing at a lower bound cuts the map there. */
  lemma LowerCut(s: seq<Entry>, x: nat, k: Key)
    requires Ascending(s) && LowerAt(s, x, k)
    ensures MapOf(s[..x]) == BelowKey(MapOf(s), k) && |BelowKey(MapOf(s), k)| == x
    ensures MapOf(s[x..]) == FromKey(MapOf(s), k) && |FromKey(MapOf(s), k)| == |s| - x
  {
    hide MapOf, Ascending, BelowKey, FromKey;
    assert s[0..x] == s[..x] && s[x..|s|] == s[x..];
    SliceAscends(s, 0, x);
    SliceAscends(s, x, |s|);
    MapOfIs(s[..x]);
    MapOfIs(s[x..]);
    forall q
      ensures Lookup(MapOf(s[..x]), q) == Lookup(BelowKey(MapOf(s), k), q)
      ensures Lookup(MapOf(s[x..]), q) == Lookup(FromKey(MapOf(s), k), q)
    {
      LowerLookup(s, x, k, q);
    }
    SameMap(MapOf(s[..x]), BelowKey(MapOf(s), k));
    SameMap(MapOf(s[x..]), FromKey(MapOf(s), k));
  }

  lemma LowerLookup(s: seq<Entry>, x: nat, k: Key, q: Key)
    requires Ascending(s) && LowerAt(s, x, k)
    ensures Lookup(MapOf(s[..x]), q) == Lookup(BelowKey(MapOf(s), k), q)
    ensures Lookup(MapOf(s[x..]), q) == Lookup(FromKey(MapOf(s), k), q)
  {
    hide MapOf, Ascending;
    CutLookup(s, x, q);
  }

  /** Between an upper bound and a later lower bound lie the keys between. */
  lemma BothCuts(s: seq<Entry>, x: nat, a: Key, y: nat, b: Key)
    requires Ascending(s) && SplitsAt(s, x, a) && LowerAt(s, y, b) && a < b
    ensures x <= y && MapOf(s[x..y]) == BetweenKeys(MapOf(s), a, b) && |BetweenKeys(MapOf(s), a, b)| == y - x
  {
    hide MapOf, Ascending, BetweenKeys;
    assert x > 0 ==> s[x - 1].key <= a;
    SliceAscends(s, x, y);
    MapOfIs(s[x..y]);
    forall q
      ensures Lookup(MapOf(s[x..y]), q) == Lookup(BetweenKeys(MapOf(s), a, b), q)
    {
      BothLookup(s, x, a, y, b, q);
    }
    SameMap(MapOf(s[x..y]), BetweenKeys(MapOf(s), a, b));
  }

  lemma BothLookup(s: seq<Entry>, x: nat, a: Key, y: nat, b: Key, q: Key)
    requires Ascending(s) && SplitsAt(s, x, a) && LowerAt(s, y, b) && x <= y
    ensures Lookup(MapOf(s[x..y]), q) == Lookup(BetweenKeys(MapOf(s), a, b), q)
  {
    hide MapOf, Ascending;
    SliceLookup(s, x, y, q);
    SliceLookup(s, 0, |s|, q);
    assert s[0..|s|] == s;
  }

  // ------------------------------------------------------------ places

  /** The iterator at `pos` of leaf `p` stands before entry `x` of the listing; only in
      the last leaf may it stand behind the last entry. */
  ghost predicate Stands(m: Mem, v: View, p: Ptr, pos: nat, x: nat) {
    exists j :: StandsIn(m, v, p, pos, x, j)
  }

  ghost predicate StandsIn(m: Mem, v: View, p: Ptr, pos: nat, x: nat, j: nat) {
    && j < |v.chain| && v.chain[j] == p && p in m.leaves && pos <= |RowsAt(m, p)|
    && (pos < |RowsAt(m, p)| || j + 1 == |v.chain|) && x == Offset(m, v, j) + pos
  }

  /** A place in the listing is one iterator: comparing iterators compares places. */
  lemma OnePlace(m: Mem, v: View, cap: nat, p: Ptr, pos: nat, x: nat, p': Ptr, pos': nat, x': nat)
    requires Inv(m, v, cap) && Stands(m, v, p, pos, x) && Stands(m, v, p', pos', x')
    ensures x == x' <==> p == p' && pos == pos'
    ensures x <= |Listing(m, v.chain)|
  {
    var j: nat :| StandsIn(m, v, p, pos, x, j);
    var j': nat :| StandsIn(m, v, p', pos', x', j');
    PlaceBound(m, v, p, pos, x, j);
    assert LeafAt(m, v, cap, j) && LeafAt(m, v, cap, j');
    hide Inv, RowsAt, LeafAt;
    if j < j' { OffsetsGrow(m, v.chain, j, j'); }
    if j' < j { OffsetsGrow(m, v.chain, j', j); }
  }

  lemma PlaceBound(m: Mem, v: View, p: Ptr, pos: nat, x: nat, j: nat)
    requires StandsIn(m, v, p, pos, x, j)
    ensures x <= |Listing(m, v.chain)|
    ensures pos < |RowsAt(m, p)| ==> x < |Listing(m, v.chain)| && Listing(m, v.chain)[x] == RowsAt(m, p)[pos]
    ensures pos == |RowsAt(m, p)| ==> x == |Listing(m, v.chain)|
  {
    hide RowsAt, Listing;
    if pos < |RowsAt(m, p)| {
      RowPlace(m, v.chain, j, pos);
    } else {
      LastOffset(m, v, j);
    }
  }

  /** The front of the next leaf stands where the leaf before ends. */
  lemma NextStands(m: Mem, v: View, cap: nat, j: nat)
    requires Inv(m, v, cap) && j + 1 < |v.chain|
    ensures StandsIn(m, v, v.chain[j + 1], 0, Offset(m, v, j) + |RowsAt(m, v.chain[j])|, j + 1)
    ensures v.chain[j] in m.leaves && m.leaves[v.chain[j]].next == v.chain[j + 1] != 0
  {
    LeafRows(m, v, cap, j + 1);
    NextOffset(m, v.chain, j);
    assert LeafAt(m, v, cap, j) && LeafAt(m, v, cap, j + 1);
  }

  lemma LastNext(m: Mem, v: View, cap: nat, j: nat)
    requires Inv(m, v, cap) && j < |v.chain|
    ensures v.chain[j] in m.leaves && Shaped(m.leaves[v.chain[j]], cap)
    ensures m.leaves[v.chain[j]].next == 0 <==> j + 1 == |v.chain|
    ensures |RowsAt(m, v.chain[j])| == m.leaves[v.chain[j]].size
  {
    assert LeafAt(m, v, cap, j);
    if j + 1 < |v.chain| { assert LeafAt(m, v, cap, j + 1); }
  }

  /** b_tree_iterator: a value, copied freely. */
  datatype Iterator = Iterator(leaf: Ptr, pos: nat)

  /** The iterator stands before entry `x` of the tree. */
  ghost predicate Before(t: BTree, it: Iterator, x: nat)
    reads t
  {
    Stands(t.mem, t.view, it.leaf, it.pos, x)
  }

  /** operator++ */
  method Next(t: BTree, it: Iterator, ghost x: nat) returns (r: Iterator)
    requires t.Valid() && Before(t, it, x) && x < |Listing(t.mem, t.view.chain)|
    ensures Before(t, r, x + 1)
  {
    ghost var m, v := t.mem, t.view;
    ghost var j: nat :| StandsIn(m, v, it.leaf, it.pos, x, j);
    PlaceBound(m, v, it.leaf, it.pos, x, j);
    LastNext(m, v, t.cap, j);
    hide Inv, RowsAt, Shaped;
    r := Iterator(it.leaf, it.pos + 1);
    if r.pos == t.mem.leaves[r.leaf].size {
      var next := t.mem.leaves[r.leaf].next;
      if next != 0 {
        NextStands(m, v, t.cap, j);
        r := Iterator(next, 0);
        assert StandsIn(m, v, r.leaf, r.pos, x + 1, j + 1);
        return;
      }
    }
    assert StandsIn(m, v, r.leaf, r.pos, x + 1, j);
  }

  /** operator* */
  method Current(t: BTree, it: Iterator, ghost x: nat) returns (e: Entry)
    requires t.Valid() && Before(t, it, x) && x < |Listing(t.mem, t.view.chain)|
    ensures e == Listing(t.mem, t.view.chain)[x]
  {
    ghost var j: nat :| StandsIn(t.mem, t.view, it.leaf, it.pos, x, j);
    PlaceBound(t.mem, t.view, it.leaf, it.pos, x, j);
    LastNext(t.mem, t.view, t.cap, j);
    var l := t.mem.leaves[it.leaf];
    RowKeys(t.mem, it.leaf, t.cap);
    e := l.entries[l.idxs[it.pos]];
  }

  // ------------------------------------------------------------ where the searches stand

  /** begin */
  method Begin(t: BTree) returns (it: Iterator)
    requires t.Valid()
    ensures Before(t, it, 0)
  {
    ghost var m, v := t.mem, t.view;
    FirstKidsHold(m, v, t.cap);
    var p := t.Leftmost(t.mem.root, v, m.leaves.Keys);
    LeafIs(m, v, t.cap, p, 0) by { LeafSpan(m, v, t.cap, p); }
    LastNext(m, v, t.cap, 0);
    LeafRows(m, v, t.cap, 0);
    it := Iterator(p, 0);
    assert StandsIn(m, v, p, 0, 0, 0) by { NoOffset(m, v); }
  }

  lemma LeafSpan(m: Mem, v: View, cap: nat, p: Ptr)
    requires Inv(m, v, cap) && p in m.leaves
    ensures v.Lo(p) < |v.chain| && v.Hi(p) == v.Lo(p) + 1
  {
    var j :| 0 <= j < |v.chain| && v.chain[j] == p;
    assert LeafAt(m, v, cap, j);
  }

  /** end: behind the last entry of the rightmost leaf. */
  method End(t: BTree) returns (it: Iterator)
    requires t.Valid()
    ensures Before(t, it, |Listing(t.mem, t.view.chain)|)
  {
    ghost var m, v := t.mem, t.view;
    var p := t.mem.root;
    while p !in t.mem.leaves
      invariant p in v.live || p in m.leaves
      invariant v.Hi(p) == |v.chain|
      decreases m.Level(p)
    {
      LastKid(m, v, t.cap, p);
      p := t.mem.inners[p].children[t.mem.inners[p].size];
    }
    LeafSpan(m, v, t.cap, p);
    LeafIs(m, v, t.cap, p, |v.chain| - 1);
    LastNext(m, v, t.cap, |v.chain| - 1);
    LastOffset(m, v, |v.chain| - 1);
    it := Iterator(p, t.mem.leaves[p].size);
    assert StandsIn(m, v, p, m.leaves[p].size, |Listing(m, v.chain)|, |v.chain| - 1);
  }

  lemma LastKid(m: Mem, v: View, cap: nat, n: Ptr)
    requires Inv(m, v, cap) && n in v.live
    ensures n in m.inners && m.inners[n].size < |m.inners[n].children|
    ensures var c := m.inners[n].children[m.inners[n].size];
            (c in v.live || c in m.leaves) && m.Level(c) < m.Level(n) && v.Hi(c) == v.Hi(n)
  {
    assert InnerOk(m, v, cap, 0, n) && KidOk(m, v, n, m.inners[n].size);
  }

  /** The first place above `k` in a leaf. */
  method LeafUpperBound(t: BTree, p: Ptr, k: Key) returns (pos: nat)
    requires p in t.mem.leaves && Shaped(t.mem.leaves[p], t.cap) && Ascending(RowsAt(t.mem, p))
    ensures SplitsAt(RowsAt(t.mem, p), pos, k)
  {
    var l := t.mem.leaves[p];
    ghost var rows := RowsAt(t.mem, p);
    RowKeys(t.mem, p, t.cap);
    var lo, hi := 0, l.size;
    while lo < hi
      invariant lo <= hi <= l.size == |rows|
      invariant forall i :: 0 <= i < lo ==> rows[i].key <= k
      invariant forall i :: hi <= i < l.size ==> k < rows[i].key
    {
      var mid := (lo + hi) / 2;
      assert rows[mid] == l.entries[l.idxs[mid]];
      if k < l.entries[l.idxs[mid]].key {
        hi := mid;
      } else {
        lo := mid + 1;
      }
    }
    pos := lo;
  }

  /** upper_bound is the place of the least entry above `k` in the whole tree. */
  method UpperBound(t: BTree, k: Key) returns (it: Iterator, ghost x: nat)
    requires t.Valid()
    ensures Before(t, it, x) && SplitsAt(Listing(t.mem, t.view.chain), x, k)
    ensures exists y :: Before(t, it, y) && SplitsAt(Listing(t.mem, t.view.chain), y, k)
  {
    ghost var m, v := t.mem, t.view;
    var p, j := t.FindLeaf(k);
    LastNext(m, v, t.cap, j);
    RowsAscend(m, v, t.cap, j);
    hide Inv;
    var pos := LeafUpperBound(t, p, k);
    x := Offset(m, v, j) + pos;
    UpperPlace(m, v, t.cap, k, j, pos);
    if pos == t.mem.leaves[p].size && t.mem.leaves[p].next != 0 {
      NextStands(m, v, t.cap, j);
      it := Iterator(t.mem.leaves[p].next, 0);
      assert StandsIn(m, v, it.leaf, 0, x, j + 1);
    } else {
      it := Iterator(p, pos);
      assert StandsIn(m, v, p, pos, x, j);
    }
  }

  /** What stands around place `pos` of leaf `j`. */
  lemma Around(m: Mem, v: View, cap: nat, j: nat, pos: nat)
    requires Inv(m, v, cap) && j < |v.chain| && pos <= |RowsAt(m, v.chain[j])|
    ensures var s, x, rows := Listing(m, v.chain), Offset(m, v, j) + pos, RowsAt(m, v.chain[j]);
            && x <= |s| && Ascending(s)
            && (pos > 0 ==> s[x - 1] == rows[pos - 1]) && (pos == 0 && j == 0 ==> x == 0)
            && (pos < |rows| ==> x < |s| && s[x] == rows[pos])
            && (pos == |rows| && j + 1 < |v.chain| ==> x < |s| && s[x].key == FrontKey(m, v.chain[j + 1]))
            && (pos == |rows| && j + 1 == |v.chain| ==> x == |s|)
            && (j > 0 ==> |rows| > 0 && rows[0].key == FrontKey(m, v.chain[j]))
  {
    InvAscends(m, v, cap);
    LeafRows(m, v, cap, j);
    hide Inv, Listing, RowsAt, Offset, FrontKey, Ascending;
    PlaceBefore(m, v, cap, j, pos);
    PlaceAfter(m, v, cap, j, pos);
  }

  lemma PlaceBefore(m: Mem, v: View, cap: nat, j: nat, pos: nat)
    requires Inv(m, v, cap) && j < |v.chain| && pos <= |RowsAt(m, v.chain[j])|
    ensures var s, x, rows := Listing(m, v.chain), Offset(m, v, j) + pos, RowsAt(m, v.chain[j]);
            (pos > 0 ==> 0 < x <= |s| && s[x - 1] == rows[pos - 1]) && (pos == 0 && j == 0 ==> x == 0)
  {
    hide Inv, Listing, RowsAt;
    if pos > 0 {
      RowPlace(m, v.chain, j, pos - 1);
    } else if j == 0 {
      NoOffset(m, v);
    }
  }

  lemma PlaceAfter(m: Mem, v: View, cap: nat, j: nat, pos: nat)
    requires Inv(m, v, cap) && j < |v.chain| && pos <= |RowsAt(m, v.chain[j])|
    ensures var s, x, rows := Listing(m, v.chain), Offset(m, v, j) + pos, RowsAt(m, v.chain[j]);
            && x <= |s| && (pos < |rows| ==> x < |s| && s[x] == rows[pos])
            && (pos == |rows| && j + 1 < |v.chain| ==> x < |s| && s[x].key == FrontKey(m, v.chain[j + 1]))
            && (pos == |rows| && j + 1 == |v.chain| ==> x == |s|)
  {
    hide Inv, Listing, RowsAt;
    if pos < |RowsAt(m, v.chain[j])| {
      RowPlace(m, v.chain, j, pos);
    } else if j + 1 < |v.chain| {
      NextFront(m, v, cap, j);
    } else {
      LastOffset(m, v, j);
    }
  }

  /** The rows of the routed leaf decide for the whole listing. */
  lemma UpperPlace(m: Mem, v: View, cap: nat, k: Key, j: nat, pos: nat)
    requires Inv(m, v, cap) && IsTarget(m, v, k, j) && SplitsAt(RowsAt(m, v.chain[j]), pos, k)
    ensures SplitsAt(Listing(m, v.chain), Offset(m, v, j) + pos, k)
  {
    hide Inv, Listing, RowsAt, Offset, FrontKey;
    Around(m, v, cap, j, pos);
    NeighboursDecide(Listing(m, v.chain), Offset(m, v, j) + pos, k);
  }

  /** The leaf to which `k` is routed has an entry not below it, or is the last leaf. */
  ghost predicate Reaches(m: Mem, v: View, k: Key) {
    exists j: nat ::
      && IsTarget(m, v, k, j)
      && (j + 1 == |v.chain| ||
          exists i :: 0 <= i < |RowsAt(m, v.chain[j])| && k <= RowsAt(m, v.chain[j])[i].key)
  }

  /** lower_bound: it looks no further than the leaf to which `k` is routed, so it is the
      place of the least entry not below `k` only where that leaf reaches `k`, and the end
      otherwise. */
  method LowerBound(t: BTree, k: Key) returns (it: Iterator, ghost x: nat)
    requires t.Valid()
    ensures Before(t, it, x)
    ensures if Reaches(t.mem, t.view, k) then LowerAt(Listing(t.mem, t.view.chain), x, k)
            else x == |Listing(t.mem, t.view.chain)|
  {
    hide Inv, RowsAt, Listing, Reaches, FrontKey;
    ghost var m, v := t.mem, t.view;
    var p, j := t.FindLeaf(k);
    LastNext(m, v, t.cap, j);
    LeafReady(m, v, t.cap, j);
    RowKeys(m, p, t.cap);
    var pos := t.LeafLowerBound(p, k);
    LowerPlace(m, v, t.cap, k, j, pos);
    if pos == t.mem.leaves[p].size {
      it := End(t);
      x := |Listing(m, v.chain)|;
    } else {
      it := Iterator(p, pos);
      x := Offset(m, v, j) + pos;
      assert StandsIn(m, v, p, pos, x, j);
    }
  }

  lemma OneTarget(m: Mem, v: View, cap: nat, k: Key, i: nat, j: nat)
    requires Inv(m, v, cap) && IsTarget(m, v, k, i) && IsTarget(m, v, k, j)
    ensures i == j
  {
    StreeTree.TargetIs(m, v, cap, k, j, i);
    StreeTree.TargetIs(m, v, cap, k, i, j);
    if i < j { FrontsAscend(m, v, cap, i, j); }
    if j < i { FrontsAscend(m, v, cap, j, i); }
  }

  lemma LowerNeighbours(s: seq<Entry>, x: nat, k: Key)
    requires Ascending(s) && x <= |s| && (x > 0 ==> s[x - 1].key < k) && (x < |s| ==> k <= s[x].key)
    ensures LowerAt(s, x, k)
  {
  }

  lemma ReachesIs(m: Mem, v: View, cap: nat, k: Key, j: nat, pos: nat)
    requires Inv(m, v, cap) && IsTarget(m, v, k, j) && LowerAt(RowsAt(m, v.chain[j]), pos, k)
    ensures Reaches(m, v, k) <==> pos < |RowsAt(m, v.chain[j])| || j + 1 == |v.chain|
  {
    hide Inv, RowsAt, FrontKey;
    if Reaches(m, v, k) {
      var i: nat :| IsTarget(m, v, k, i)
        && (i + 1 == |v.chain| || exists y :: 0 <= y < |RowsAt(m, v.chain[i])| && k <= RowsAt(m, v.chain[i])[y].key);
      OneTarget(m, v, cap, k, i, j);
    }
    if pos < |RowsAt(m, v.chain[j])| { assert k <= RowsAt(m, v.chain[j])[pos].key; }
  }

  lemma FrontAbove(m: Mem, v: View, k: Key, j: nat)
    requires IsTarget(m, v, k, j)
    ensures j + 1 < |v.chain| ==> k < FrontKey(m, v.chain[j + 1])
    ensures j > 0 ==> FrontKey(m, v.chain[j]) <= k
  {
    hide FrontKey;
  }

  lemma LowerPlace(m: Mem, v: View, cap: nat, k: Key, j: nat, pos: nat)
    requires Inv(m, v, cap) && IsTarget(m, v, k, j) && LowerAt(RowsAt(m, v.chain[j]), pos, k)
    ensures Reaches(m, v, k) <==> pos < |RowsAt(m, v.chain[j])| || j + 1 == |v.chain|
    ensures LowerAt(Listing(m, v.chain), Offset(m, v, j) + pos, k)
    ensures pos == |RowsAt(m, v.chain[j])| && j + 1 == |v.chain| ==> Offset(m, v, j) + pos == |Listing(m, v.chain)|
    ensures !Reaches(m, v, k) ==> Offset(m, v, j) + pos < |Listing(m, v.chain)|
  {
    hide Inv, Listing, RowsAt, Offset, FrontKey, Reaches, Ascending, IsTarget;
    TargetBound(m, v, k, j);
    FrontAbove(m, v, k, j);
    Around(m, v, cap, j, pos);
    ReachesIs(m, v, cap, k, j, pos);
    if Offset(m, v, j) + pos > 0 && pos == 0 {
      Neighbours(Listing(m, v.chain), Offset(m, v, j) + pos);
    }
    LowerNeighbours(Listing(m, v.chain), Offset(m, v, j) + pos, k);
  }

  lemma Neighbours(s: seq<Entry>, x: nat)
    requires Ascending(s) && 0 < x < |s|
    ensures s[x - 1].key < s[x].key
  {
  }

  // ------------------------------------------------------------ ranges

  /** On the way from one iterator to a later one. */
  ghost predicate Between(t: BTree, it: Iterator, x: nat, last: Iterator, b: nat)
    reads t
  {
    && t.Valid() && Before(t, it, x) && Before(t, last, b)
    && x <= b <= |Listing(t.mem, t.view.chain)| && (x == b <==> it == last)
  }

  lemma BetweenFrom(t: BTree, it: Iterator, x: nat, last: Iterator, b: nat)
    requires t.Valid() && Before(t, it, x) && Before(t, last, b) && x <= b
    ensures Between(t, it, x, last, b)
  {
    OnePlace(t.mem, t.view, t.cap, it.leaf, it.pos, x, last.leaf, last.pos, b);
    OnePlace(t.mem, t.view, t.cap, last.leaf, last.pos, b, it.leaf, it.pos, x);
  }

  /** Comparing iterators compares places. */
  lemma Arrived(t: BTree, it: Iterator, x: nat, last: Iterator, b: nat)
    requires Between(t, it, x, last, b)
    ensures x == b <==> it == last
    ensures x <= b <= |Listing(t.mem, t.view.chain)|
  {
  }

  method Step(t: BTree, it: Iterator, ghost x: nat, last: Iterator, ghost b: nat) returns (e: Entry, r: Iterator)
    requires Between(t, it, x, last, b) && it != last
    ensures x < b <= |Listing(t.mem, t.view.chain)| && e == Listing(t.mem, t.view.chain)[x]
    ensures Between(t, r, x + 1, last, b)
  {
    hide Listing, Inv, Stands;
    Arrived(t, it, x, last, b);
    e := Current(t, it, x);
    r := Next(t, it, x);
    BetweenFrom(t, r, x + 1, last, b);
  }

  /** std::distance */
  method Distance(t: BTree, first: Iterator, last: Iterator, ghost a: nat, ghost b: nat) returns (n: nat)
    requires Between(t, first, a, last, b)
    ensures n == b - a
  {
    hide Between;
    var it := first;
    n := 0;
    while it != last
      invariant Between(t, it, a + n, last, b)
      decreases b - a - n
    {
      var e;
      e, it := Step(t, it, a + n, last, b);
      n := n + 1;
    }
    Arrived(t, it, a + n, last, b);
  }

  /** iterate_through_pairs */
  method Visit(t: BTree, first: Iterator, last: Iterator, cb: Entry -> bool, ghost a: nat, ghost b: nat)
    returns (rows: seq<Entry>, stopped: bool)
    requires Between(t, first, a, last, b)
    ensures a <= b <= |Listing(t.mem, t.view.chain)|
    ensures Visited(rows, stopped, Listing(t.mem, t.view.chain)[a..b], cb)
  {
    hide Between, Listing;
    Arrived(t, first, a, last, b);
    ghost var s := Listing(t.mem, t.view.chain);
    var it := first;
    rows := [];
    while it != last
      invariant Between(t, it, a + |rows|, last, b)
      invariant s == Listing(t.mem, t.view.chain) && a + |rows| <= b && rows == s[a..a + |rows|]
      invariant forall i :: 0 <= i < |rows| ==> !cb(rows[i])
      decreases b - a - |rows|
    {
      var e, next := Step(t, it, a + |rows|, last, b);
      rows := rows + [e];
      if cb(e) {
        return rows, true;
      }
      it := next;
    }
    Arrived(t, it, a + |rows|, last, b);
    return rows, false;
  }

  method CountAll(t: BTree) returns (n: nat)
    requires t.Valid()
    ensures n == |t.Map()|
  {
    InvAscends(t.mem, t.view, t.cap);
    MapOfIs(Listing(t.mem, t.view.chain));
    n := t.mem.size;
  }

  method CountAbove(t: BTree, k: Key) returns (n: nat)
    requires t.Valid()
    ensures n == |AboveKey(t.Map(), k)|
  {
    hide Inv;
    var first, x := UpperBound(t, k);
    var last := End(t);
    BetweenFrom(t, first, x, last, |Listing(t.mem, t.view.chain)|);
    n := Distance(t, first, last, x, |Listing(t.mem, t.view.chain)|);
    InvAscends(t.mem, t.view, t.cap);
    UpperCut(Listing(t.mem, t.view.chain), x, k);
  }

  method CountEqualBelow(t: BTree, k: Key) returns (n: nat)
    requires t.Valid()
    ensures n == |UpToKey(t.Map(), k)|
  {
    hide Inv;
    var first := Begin(t);
    var last, x := UpperBound(t, k);
    BetweenFrom(t, first, 0, last, x);
    n := Distance(t, first, last, 0, x);
    InvAscends(t.mem, t.view, t.cap);
    UpperCut(Listing(t.mem, t.view.chain), x, k);
  }

  /** The two counts add up to the size. */
  lemma CountsAddUp(m: map<Key, Value>, k: Key)
    ensures |AboveKey(m, k)| + |UpToKey(m, k)| == |m|
  {
    assert m.Keys == AboveKey(m, k).Keys + UpToKey(m, k).Keys;
  }

  /** The callback was given the pairs of `m`, in order, each once, up to the one at which it
      stopped. */
  ghost predicate VisitsMap(rows: seq<Entry>, stopped: bool, m: map<Key, Value>, cb: Entry -> bool) {
    exists all :: Ascending(all) && MapOf(all) == m && Visited(rows, stopped, all, cb)
  }

  lemma VisitsFrom(rows: seq<Entry>, stopped: bool, all: seq<Entry>, cb: Entry -> bool)
    requires Ascending(all) && Visited(rows, stopped, all, cb)
    ensures VisitsMap(rows, stopped, MapOf(all), cb)
  {
  }

  /** get_above: the entries above `k`, in order. */
  method GetAbove(t: BTree, k: Key, cb: Entry -> bool) returns (rows: seq<Entry>, stopped: bool)
    requires t.Valid()
    ensures VisitsMap(rows, stopped, AboveKey(t.Map(), k), cb)
  {
    hide Inv, Before, Between, Visited, VisitsMap, Listing, MapOf, Ascending;
    var first, x := UpperBound(t, k);
    var last := End(t);
    ghost var s := Listing(t.mem, t.view.chain);
    BetweenFrom(t, first, x, last, |s|);
    rows, stopped := Visit(t, first, last, cb, x, |s|);
    ghost var all := s[x..|s|];
    InvAscends(t.mem, t.view, t.cap);
    assert s[x..|s|] == s[x..];
    UpperCut(s, x, k);
    SliceAscends(s, x, |s|);
    VisitsFrom(rows, stopped, all, cb);
  }

  /** get_equal_below: the entries up to `k`, in order. */
  method GetEqualBelow(t: BTree, k: Key, cb: Entry -> bool) returns (rows: seq<Entry>, stopped: bool)
    requires t.Valid()
    ensures VisitsMap(rows, stopped, UpToKey(t.Map(), k), cb)
  {
    hide Inv, Before, Between, Visited, VisitsMap, Listing, MapOf, Ascending;
    var first := Begin(t);
    var last, x := UpperBound(t, k);
    ghost var s := Listing(t.mem, t.view.chain);
    BetweenFrom(t, first, 0, last, x);
    rows, stopped := Visit(t, first, last, cb, 0, x);
    ghost var all := s[0..x];
    InvAscends(t.mem, t.view, t.cap);
    assert s[0..x] == s[..x];
    UpperCut(s, x, k);
    SliceAscends(s, 0, x);
    VisitsFrom(rows, stopped, all, cb);
  }

  /** get_all: all entries, in order. */
  method GetAll(t: BTree, cb: Entry -> bool) returns (rows: seq<Entry>, stopped: bool)
    requires t.Valid()
    ensures VisitsMap(rows, stopped, t.Map(), cb)
  {
    hide Inv, Before, Between, Visited, VisitsMap, Listing, MapOf, Ascending;
    var first := Begin(t);
    var last := End(t);
    ghost var s := Listing(t.mem, t.view.chain);
    BetweenFrom(t, first, 0, last, |s|);
    rows, stopped := Visit(t, first, last, cb, 0, |s|);
    ghost var all := s[0..|s|];
    InvAscends(t.mem, t.view, t.cap);
    assert all == s;
    VisitsFrom(rows, stopped, all, cb);
  }

  // ------------------------------------------------------------ ranges that use lower_bound

  /** count_below ends at lower_bound, and so counts the keys below `k` only where the
      leaf to which `k` is routed reaches `k`; elsewhere it counts all keys. */
  method CountBelow(t: BTree, k: Key) returns (n: nat)
    requires t.Valid()
    ensures n == if Reaches(t.mem, t.view, k) then |BelowKey(t.Map(), k)| else |t.Map()|
  {
    hide Inv, Reaches, Before, Between, Listing, MapOf, Ascending, LowerAt;
    var first := Begin(t);
    var last, x := LowerBound(t, k);
    BetweenFrom(t, first, 0, last, x);
    n := Distance(t, first, last, 0, x);
    InvAscends(t.mem, t.view, t.cap);
    MapOfIs(Listing(t.mem, t.view.chain));
    if Reaches(t.mem, t.view, k) { LowerCut(Listing(t.mem, t.view.chain), x, k); }
  }

  /** count_equal_above starts at lower_bound: elsewhere it counts nothing. */
  method CountEqualAbove(t: BTree, k: Key) returns (n: nat)
    requires t.Valid()
    ensures n == if Reaches(t.mem, t.view, k) then |FromKey(t.Map(), k)| else 0
  {
    hide Inv, Reaches, Before, Between, Listing, MapOf, Ascending, LowerAt;
    var first, x := LowerBound(t, k);
    var last := End(t);
    ghost var s := Listing(t.mem, t.view.chain);
    PlaceInside(t, first, x);
    BetweenFrom(t, first, x, last, |s|);
    n := Distance(t, first, last, x, |s|);
    InvAscends(t.mem, t.view, t.cap);
    if Reaches(t.mem, t.view, k) { LowerCut(s, x, k); }
  }

  /** count_between: elsewhere it counts all keys above `a`. */
  method CountBetween(t: BTree, a: Key, b: Key) returns (n: nat)
    requires t.Valid()
    ensures n == if a >= b then 0
                 else if Reaches(t.mem, t.view, b) then |BetweenKeys(t.Map(), a, b)| else |AboveKey(t.Map(), a)|
  {
    hide Inv, Reaches, Before, Between, Listing, MapOf, Ascending, LowerAt;
    if a >= b {
      return 0;
    }
    var first, x := UpperBound(t, a);
    var last, y := LowerBound(t, b);
    ghost var s := Listing(t.mem, t.view.chain);
    PlaceInside(t, first, x);
    InvAscends(t.mem, t.view, t.cap);
    if Reaches(t.mem, t.view, b) { BothCuts(s, x, a, y, b); } else { UpperCut(s, x, a); }
    BetweenFrom(t, first, x, last, y);
    n := Distance(t, first, last, x, y);
  }

  /** get_below: elsewhere it visits all entries. */
  method GetBelow(t: BTree, k: Key, cb: Entry -> bool) returns (rows: seq<Entry>, stopped: bool)
    requires t.Valid()
    ensures VisitsMap(rows, stopped, if Reaches(t.mem, t.view, k) then BelowKey(t.Map(), k) else t.Map(), cb)
  {
    hide Inv, Reaches, Before, Between, Visited, VisitsMap, Listing, MapOf, Ascending, LowerAt;
    var first := Begin(t);
    var last, x := LowerBound(t, k);
    ghost var s := Listing(t.mem, t.view.chain);
    BetweenFrom(t, first, 0, last, x);
    rows, stopped := Visit(t, first, last, cb, 0, x);
    ghost var all := s[0..x];
    InvAscends(t.mem, t.view, t.cap);
    SliceAscends(s, 0, x);
    assert s[0..x] == s[..x] && s[0..|s|] == s;
    if Reaches(t.mem, t.view, k) { LowerCut(s, x, k); }
    VisitsFrom(rows, stopped, all, cb);
  }

  /** get_equal_above: elsewhere it visits nothing. */
  method GetEqualAbove(t: BTree, k: Key, cb: Entry -> bool) returns (rows: seq<Entry>, stopped: bool)
    requires t.Valid()
    ensures VisitsMap(rows, stopped, if Reaches(t.mem, t.view, k) then FromKey(t.Map(), k) else map[], cb)
  {
    hide Inv, Reaches, Before, Between, Visited, VisitsMap, Listing, MapOf, Ascending, LowerAt;
    var first, x := LowerBound(t, k);
    var last := End(t);
    ghost var s := Listing(t.mem, t.view.chain);
    PlaceInside(t, first, x);
    BetweenFrom(t, first, x, last, |s|);
    rows, stopped := Visit(t, first, last, cb, x, |s|);
    ghost var all := s[x..|s|];
    InvAscends(t.mem, t.view, t.cap);
    SliceAscends(s, x, |s|);
    assert s[x..|s|] == s[x..];
    EmptySlice(s);
    if Reaches(t.mem, t.view, k) { LowerCut(s, x, k); }
    VisitsFrom(rows, stopped, all, cb);
  }

  /** get_between: elsewhere it visits all entries above `a`. */
  method GetBetween(t: BTree, a: Key, b: Key, cb: Entry -> bool)
    returns (rows: seq<Entry>, stopped: bool)
    requires t.Valid()
    ensures VisitsMap(rows, stopped,
                      if a >= b then map[]
                      else if Reaches(t.mem, t.view, b) then BetweenKeys(t.Map(), a, b) else AboveKey(t.Map(), a),
                      cb)
  {
    hide Inv, Reaches, Before, Between, VisitsMap, Listing, MapOf, Ascending;
    ghost var s := Listing(t.mem, t.view.chain);
    if a >= b {
      EmptySlice(s);
      ghost var none := s[|s|..];
      VisitsFrom([], false, none, cb);
      return [], false;
    }
    var first, x := UpperBound(t, a);
    var last, y := LowerBound(t, b);
    PlaceInside(t, first, x);
    InvAscends(t.mem, t.view, t.cap);
    if Reaches(t.mem, t.view, b) { BothCuts(s, x, a, y, b); } else { UpperCut(s, x, a); }
    BetweenFrom(t, first, x, last, y);
    rows, stopped := Visit(t, first, last, cb, x, y);
    ghost var all := s[x..y];
    SliceAscends(s, x, y);
    assert s[x..|s|] == s[x..];
    VisitsFrom(rows, stopped, all, cb);
  }

  lemma PlaceInside(t: BTree, it: Iterator, x: nat)
    requires t.Valid() && Before(t, it, x)
    ensures x <= |Listing(t.mem, t.view.chain)|
  {
    hide Inv, Stands;
    OnePlace(t.mem, t.view, t.cap, it.leaf, it.pos, x, it.leaf, it.pos, x);
  }

  lemma EmptySlice(s: seq<Entry>)
    ensures s[|s|..] == s[|s|..|s|] == [] && MapOf(s[|s|..]) == map[] && Ascending(s[|s|..])
  {
  }

  /** That is the right count if and only if the leaf reaches `k`. */
  lemma CountBelowRight(m: Mem, v: View, cap: nat, k: Key)
    requires Inv(m, v, cap)
    ensures (if Reaches(m, v, k) then |BelowKey(Contents(m, v), k)| else |Contents(m, v)|)
              == |BelowKey(Contents(m, v), k)|
            <==> Reaches(m, v, k)
  {
    hide Inv, RowsAt, Listing, Offset, Ascending, MapOf, BelowKey, FromKey, IsTarget;
    var j := TargetExists(m, v, cap, k);
    LeafReady(m, v, cap, j);
    RowsAscend(m, v, cap, j);
    var pos := LowestPlace(RowsAt(m, v.chain[j]), k);
    LowerPlace(m, v, cap, k, j, pos);
    InvAscends(m, v, cap);
    LowerCut(Listing(m, v.chain), Offset(m, v, j) + pos, k);
    MapOfIs(Listing(m, v.chain));
  }

  /** Where the leaf does not reach `k`, some key from `k` on is overlooked. */
  lemma Overlooked(m: Mem, v: View, cap: nat, k: Key)
    requires Inv(m, v, cap) && !Reaches(m, v, k)
    ensures FromKey(Contents(m, v), k) != map[]
  {
    hide Reaches;
    CountBelowRight(m, v, cap, k);
    hide Inv, Contents;
    NoneFrom(Contents(m, v), k);
  }

  lemma NoneFrom(m: map<Key, Value>, k: Key)
    ensures FromKey(m, k) == map[] ==> BelowKey(m, k) == m
  {
    if FromKey(m, k) == map[] {
      forall q | q in m ensures q < k { assert q !in FromKey(m, k); }
    }
  }

  /** count_equal_above and the get functions with one bound are right if and only if the
      leaf reaches the bound. */
  lemma OneBoundRight(m: Mem, v: View, cap: nat, k: Key)
    requires Inv(m, v, cap)
    ensures var all, reached := Contents(m, v), Reaches(m, v, k);
            && ((if reached then |FromKey(all, k)| else 0) == |FromKey(all, k)| <==> reached)
            && ((if reached then FromKey(all, k) else map[]) == FromKey(all, k) <==> reached)
            && ((if reached then BelowKey(all, k) else all) == BelowKey(all, k) <==> reached)
  {
    hide Inv, Contents, Reaches;
    if !Reaches(m, v, k) {
      Overlooked(m, v, cap, k);
      CountBelowRight(m, v, cap, k);
    }
  }

  /** count_between and get_between are right if and only if the range is empty by its bounds
      or the leaf reaches the upper one. */
  lemma TwoBoundsRight(m: Mem, v: View, cap: nat, a: Key, b: Key)
    requires Inv(m, v, cap) && a < b
    ensures var all, reached := Contents(m, v), Reaches(m, v, b);
            var right, other := BetweenKeys(all, a, b), AboveKey(all, a);
            && ((if reached then |right| else |other|) == |right| <==> reached)
            && ((if reached then right else other) == right <==> reached)
  {
    hide Inv, Contents, Reaches;
    if !Reaches(m, v, b) {
      Overlooked(m, v, cap, b);
      FewerBetween(Contents(m, v), a, b);
    }
  }

  lemma FewerBetween(m: map<Key, Value>, a: Key, b: Key)
    requires a < b && FromKey(m, b) != map[]
    ensures |BetweenKeys(m, a, b)| < |AboveKey(m, a)|
  {
    var q :| q in FromKey(m, b);
    var less, more := BetweenKeys(m, a, b), AboveKey(m, a);
    assert q in more && q !in less && less.Keys <= more.Keys - {q};
    Smaller(less.Keys, more.Keys - {q});
    assert |less.Keys| == |less| && |more.Keys| == |more|;
  }

  lemma LowestPlace(s: seq<Entry>, k: Key) returns (x: nat)
    requires Ascending(s)
    ensures LowerAt(s, x, k)
  {
    x := 0;
    while x < |s| && s[x].key < k
      invariant x <= |s| && forall i :: 0 <= i < x ==> s[i].key < k
    {
      x := x + 1;
    }
  }

  /** As soon as a tree has two leaves, there is a key that is not reached: any key
      between the last of one leaf and the front of the next. */
  lemma MissedKey(m: Mem, v: View, cap: nat) returns (k: Key)
    requires Inv(m, v, cap) && |v.chain| > 1
    ensures !Reaches(m, v, k)
  {
    hide Inv, RowsAt, FrontKey, Reaches;
    LeafFacts(m, v, cap, 0);
    var rows := RowsAt(m, v.chain[0]);
    LeavesAscend(m, v, cap, 0, 1, |rows| - 1);
    RowsAscend(m, v, cap, 0);
    k := (rows[|rows| - 1].key + FrontKey(m, v.chain[1])) / 2.0;
    ReachesIs(m, v, cap, k, 0, |rows|);
  }

  /** A tree with more entries than a leaf can hold has two leaves. */
  lemma TwoLeaves(m: Mem, v: View, cap: nat)
    requires Inv(m, v, cap) && |Contents(m, v)| > cap
    ensures |v.chain| > 1
  {
    hide Inv, Listing, RowsAt, MapOf;
    InvAscends(m, v, cap);
    MapOfIs(Listing(m, v.chain));
    InvCap(m, v, cap);
    LeafFacts(m, v, cap, 0);
    if |v.chain| == 1 {
      assert v.chain == [v.chain[0]];
      ListingOne(m, v.chain[0]);
    }
  }

  /** Four puts into an empty tree of capacity 3 make a tree of two leaves. */
  method FourKeys(blank: Entry, noSep: Sep) returns (t: BTree)
    ensures fresh(t) && t.Valid() && t.Map() == map[1.0 := [], 2.0 := [], 3.0 := [], 4.0 := []]
    ensures |t.Map()| == 4 && |t.view.chain| > 1
  {
    hide Inv, Contents, LostNodes;
    t := new BTree(3, blank, noSep, 1);
    t.Put(1.0, []);
    t.Put(2.0, []);
    t.Put(3.0, []);
    t.Put(4.0, []);
    assert t.Map() == map[1.0 := [], 2.0 := [], 3.0 := [], 4.0 := []];
    assert |t.Map()| == 4;
    TwoLeaves(t.mem, t.view, t.cap);
  }

  /** In such a tree count_below is wrong for some key. */
  method CountBelowGoesWrong(blank: Entry, noSep: Sep) returns (t: BTree, ghost k: Key)
    ensures t.Valid() && t.Map() == map[1.0 := [], 2.0 := [], 3.0 := [], 4.0 := []]
    ensures !Reaches(t.mem, t.view, k) && |BelowKey(t.Map(), k)| < |t.Map()|
  {
    hide Inv, Contents, Reaches, BelowKey;
    t := FourKeys(blank, noSep);
    k := MissedKey(t.mem, t.view, t.cap);
    CountBelowRight(t.mem, t.view, t.cap, k);
    FewerBelow(t.Map(), k);
  }

  lemma FewerBelow(m: map<Key, Value>, k: Key)
    ensures |BelowKey(m, k)| <= |m|
  {
    assert BelowKey(m, k).Keys <= m.Keys;
    assert |BelowKey(m, k).Keys| == |BelowKey(m, k)| && |m.Keys| == |m|;
    Smaller(BelowKey(m, k).Keys, m.Keys);
  }

  lemma Smaller(a: set<Key>, b: set<Key>)
    requires a <= b
    ensures |a| <= |b|
  {
    assert b == a + (b - a);
  }
}
