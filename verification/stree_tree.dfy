/** The state of stree's B+ tree in persistent memory, and what a well-formed state
    is.

    A persistent pointer is an offset, so a memory image is a value; every
    transaction boundary is such a value. The invariant is flat: a ghost view numbers
    the leaves along their chain and gives every node the interval of leaf numbers
    below it. A node's children cut its interval into consecutive pieces, and the
    separator between two pieces points to the front entry of the leaf at which the
    right piece starts. */
module StreeTree {
  import opened Keys
  import opened StreeLeaf
  import opened StreeInner
  import opened StreeListing

  datatype Mem = Mem(leaves: map<Ptr, Leaf>, inners: map<Ptr, Inner>, root: Ptr, size: nat) {
    /** node_t::level; leaves are at level 0. */
    function Level(p: Ptr): nat {
      if p in inners && p !in leaves then inners[p].level else 0
    }
  }

  /** leaves in chain order; the interval of every node; the inner nodes in use; the
      parent of every node; for every leaf but the first, the inner node whose
      separator points to it. */
  datatype View = View(chain: seq<Ptr>, lo: map<Ptr, nat>, hi: map<Ptr, nat>, live: set<Ptr>,
                       parent: map<Ptr, Ptr>, owner: seq<Ptr>) {
    ghost function Lo(p: Ptr): nat { if p in lo then lo[p] else 0 }
    ghost function Hi(p: Ptr): nat { if p in hi then hi[p] else 0 }
    ghost function Parent(p: Ptr): Ptr { if p in parent then parent[p] else 0 }
  }

  // ------------------------------------------------------------ entries in order

  function Rows(l: Leaf): (s: seq<Entry>)
    ensures |s| == if Shaped(l, |l.idxs|) then l.size else 0
  {
    if Shaped(l, |l.idxs|) then
      seq(l.size, i requires 0 <= i < l.size => l.entries[l.idxs[i]])
    else []
  }

  function RowsAt(m: Mem, p: Ptr): seq<Entry> {
    if p in m.leaves then Rows(m.leaves[p]) else []
  }

  /** All entries along a chain of leaves. */
  function Listing(m: Mem, chain: seq<Ptr>): seq<Entry> {
    if chain == [] then [] else Listing(m, chain[..|chain| - 1]) + RowsAt(m, chain[|chain| - 1])
  }

  lemma ListingSnoc(m: Mem, c: seq<Ptr>, p: Ptr)
    ensures Listing(m, c + [p]) == Listing(m, c) + RowsAt(m, p)
  {
    hide RowsAt;
    var d := c + [p];
    assert d[..|d| - 1] == c && d[|d| - 1] == p;
  }

  lemma {:induction false} ListingConcat(m: Mem, a: seq<Ptr>, b: seq<Ptr>)
    ensures Listing(m, a + b) == Listing(m, a) + Listing(m, b)
  {
    hide RowsAt;
    if b == [] {
      assert a + b == a;
    } else {
      var c, p := b[..|b| - 1], b[|b| - 1];
      ListingConcat(m, a, c);
      ListingSnoc(m, a + c, p);
      ListingSnoc(m, c, p);
      assert c + [p] == b && (a + c) + [p] == a + b;
    }
  }

  lemma {:induction false} ListingFrame(m: Mem, m': Mem, c: seq<Ptr>)
    requires forall i :: 0 <= i < |c| ==> RowsAt(m', c[i]) == RowsAt(m, c[i])
    ensures Listing(m', c) == Listing(m, c)
  {
    if c != [] { ListingFrame(m, m', c[..|c| - 1]); }
  }

  /** The listing around the leaf at `j`. */
  lemma ListingAround(m: Mem, c: seq<Ptr>, j: nat)
    requires j < |c|
    ensures Listing(m, c) == Listing(m, c[..j]) + RowsAt(m, c[j]) + Listing(m, c[j + 1..])
  {
    hide RowsAt, Listing;
    assert c == (c[..j] + [c[j]]) + c[j + 1..];
    ListingConcat(m, c[..j] + [c[j]], c[j + 1..]);
    ListingSnoc(m, c[..j], c[j]);
  }

  /** Replacing a stretch of leaves by one with the same entries. */
  lemma ListingSplice(m: Mem, m': Mem, a: seq<Ptr>, c: seq<Ptr>, c': seq<Ptr>, b: seq<Ptr>)
    requires forall p :: p in a + b ==> RowsAt(m', p) == RowsAt(m, p)
    requires Listing(m', c') == Listing(m, c)
    ensures Listing(m', a + c' + b) == Listing(m, a + c + b)
  {
    hide RowsAt, Listing;
    ListingFrame(m, m', a);
    ListingFrame(m, m', b);
    ListingConcat(m, a + c, b);
    ListingConcat(m, a, c);
    ListingConcat(m', a + c', b);
    ListingConcat(m', a, c');
  }

  lemma ListingOne(m: Mem, p: Ptr)
    ensures Listing(m, [p]) == RowsAt(m, p)
  {
    assert [p][..0] == [];
  }

  // ------------------------------------------------------------ separators

  /** The pointer to the front entry of a leaf. */
  function FrontSep(m: Mem, p: Ptr): Sep {
    Sep(p, if p in m.leaves && |m.leaves[p].idxs| > 0 then m.leaves[p].idxs[0] else 0)
  }

  /** The key a separator points to. */
  function SepKey(m: Mem, s: Sep): Key {
    if s.leaf in m.leaves && s.slot < |m.leaves[s.leaf].entries| then m.leaves[s.leaf].entries[s.slot].key else 0.0
  }

  function FrontKey(m: Mem, p: Ptr): Key {
    SepKey(m, FrontSep(m, p))
  }

  // ------------------------------------------------------------ the invariant

  ghost predicate LeafAt(m: Mem, v: View, cap: nat, j: nat)
    requires j < |v.chain|
  {
    var p := v.chain[j];
    && p != 0 && p in m.leaves
    && var l := m.leaves[p];
    && Shaped(l, cap)
    && (l.size > 0 || |v.chain| == 1)
    && v.Lo(p) == j && v.Hi(p) == j + 1
    && l.prev == (if j == 0 then 0 else v.chain[j - 1])
    && l.next == (if j + 1 < |v.chain| then v.chain[j + 1] else 0)
  }

  /** Child `i` of node `n` starts where the child before it ends. */
  ghost predicate KidOk(m: Mem, v: View, n: Ptr, i: nat)
    requires n in m.inners && i < |m.inners[n].children|
  {
    var node := m.inners[n];
    var c := node.children[i];
    && (c in v.live || c in m.leaves) && m.Level(c) < m.Level(n) && v.Parent(c) == n
    && v.Lo(c) < v.Hi(c) <= |v.chain|
    && v.Lo(c) == (if i == 0 then v.Lo(n) else v.Hi(node.children[i - 1]))
    && (i == node.size ==> v.Hi(c) == v.Hi(n))
  }

  /** Separator `i` points to the front entry of the leftmost leaf of the child right
      of it. */
  ghost predicate SepOk(m: Mem, v: View, n: Ptr, i: nat)
    requires n in m.inners && i < |m.inners[n].entries| && i + 1 < |m.inners[n].children|
  {
    var x := v.Lo(m.inners[n].children[i + 1]);
    1 <= x < |v.chain| == |v.owner| && m.inners[n].entries[i] == FrontSep(m, v.chain[x]) && v.owner[x] == n
  }

  /** Only `weak` may be without a separator. */
  ghost predicate InnerOk(m: Mem, v: View, cap: nat, weak: Ptr, n: Ptr) {
    && n != 0 && n in m.inners && n !in m.leaves
    && var node := m.inners[n];
    && Sized(node, cap) && (node.size >= 1 || n == weak)
    && (forall i :: 0 <= i <= node.size ==> KidOk(m, v, n, i))
    && (forall i :: 0 <= i < node.size ==> SepOk(m, v, n, i))
  }

  ghost predicate ChainOk(m: Mem, v: View, cap: nat) {
    && |v.chain| > 0 && |v.owner| == |v.chain|
    && (forall p :: p in m.leaves ==> p in v.chain)
    && (forall j :: 0 <= j < |v.chain| ==> LeafAt(m, v, cap, j))
  }

  ghost predicate RootOk(m: Mem, v: View) {
    (m.root in v.live || m.root in m.leaves) && v.Lo(m.root) == 0 && v.Hi(m.root) == |v.chain|
  }

  /** The shape: chain, tree and separators. */
  ghost predicate ShapeOk(m: Mem, v: View, cap: nat, weak: Ptr) {
    && cap >= 3 && ChainOk(m, v, cap) && RootOk(m, v)
    && forall n :: n in v.live ==> InnerOk(m, v, cap, weak, n)
  }

  /** A well-formed tree: the shape, the order of all entries, and the exact size. */
  ghost predicate Inv(m: Mem, v: View, cap: nat) {
    ShapeOk(m, v, cap, 0) && Ascending(Listing(m, v.chain)) && m.size == |Listing(m, v.chain)|
  }

  /** Inner nodes that are allocated but in use nowhere. */
  ghost function LostNodes(m: Mem, v: View): set<Ptr> {
    m.inners.Keys - v.live
  }

  lemma LiveThere(m: Mem, v: View, cap: nat)
    requires Inv(m, v, cap)
    ensures v.live <= m.inners.Keys
  {
    forall n | n in v.live ensures n in m.inners.Keys { assert InnerOk(m, v, cap, 0, n); }
  }

  /** The map the tree stands for. */
  ghost function Contents(m: Mem, v: View): map<Key, Value> {
    MapOf(Listing(m, v.chain))
  }

  // ------------------------------------------------------------ where entries stand

  /** Row `x` of leaf `j` in the listing. */
  lemma RowPlace(m: Mem, c: seq<Ptr>, j: nat, x: nat)
    requires j < |c| && x < |RowsAt(m, c[j])|
    ensures |Listing(m, c[..j])| + x < |Listing(m, c)|
    ensures Listing(m, c)[|Listing(m, c[..j])| + x] == RowsAt(m, c[j])[x]
  {
    hide RowsAt, Listing;
    ListingAround(m, c, j);
  }

  lemma OffsetsGrow(m: Mem, c: seq<Ptr>, i: nat, j: nat)
    requires i < j <= |c|
    ensures |Listing(m, c[..i])| + |RowsAt(m, c[i])| <= |Listing(m, c[..j])|
  {
    hide RowsAt, Listing;
    ListingAround(m, c[..j], i);
    assert c[..j][..i] == c[..i];
  }

  lemma LeafRows(m: Mem, v: View, cap: nat, j: nat)
    requires cap >= 3 && ChainOk(m, v, cap) && j < |v.chain|
    ensures var p := v.chain[j];
            && p in m.leaves && |RowsAt(m, p)| == m.leaves[p].size <= cap
            && (m.leaves[p].size > 0 || |v.chain| == 1)
            && (m.leaves[p].size > 0 ==> FrontKey(m, p) == RowsAt(m, p)[0].key)
  {
    assert LeafAt(m, v, cap, j);
  }

  /** The same from the invariant as a whole. */
  lemma LeafFacts(m: Mem, v: View, cap: nat, j: nat)
    requires Inv(m, v, cap) && j < |v.chain|
    ensures var p, rows := v.chain[j], RowsAt(m, v.chain[j]);
            && p in m.leaves && |rows| == m.leaves[p].size <= cap && (|rows| > 0 || |v.chain| == 1)
            && (|rows| > 0 ==> FrontKey(m, p) == rows[0].key)
  {
    LeafRows(m, v, cap, j);
  }

  /** Entries of an earlier leaf are below the front of a later one. */
  lemma LeavesAscend(m: Mem, v: View, cap: nat, i: nat, j: nat, x: nat)
    requires Inv(m, v, cap) && i < j < |v.chain| && x < |RowsAt(m, v.chain[i])|
    ensures RowsAt(m, v.chain[i])[x].key < FrontKey(m, v.chain[j])
  {
    hide Inv, Listing, RowsAt, FrontKey;
    LeafFacts(m, v, cap, i);
    LeafFacts(m, v, cap, j);
    RowPlace(m, v.chain, i, x);
    RowPlace(m, v.chain, j, 0);
    OffsetsGrow(m, v.chain, i, j);
    ListingAscends(m, v, cap, |Listing(m, v.chain[..i])| + x, |Listing(m, v.chain[..j])|);
  }

  lemma ListingAscends(m: Mem, v: View, cap: nat, x: nat, y: nat)
    requires Inv(m, v, cap) && x < y < |Listing(m, v.chain)|
    ensures Listing(m, v.chain)[x].key < Listing(m, v.chain)[y].key
  {
    hide ShapeOk, Listing;
  }

  lemma FrontsAscend(m: Mem, v: View, cap: nat, i: nat, j: nat)
    requires Inv(m, v, cap) && i < j < |v.chain|
    ensures FrontKey(m, v.chain[i]) < FrontKey(m, v.chain[j])
  {
    hide Inv, RowsAt, FrontKey;
    LeafFacts(m, v, cap, i);
    LeavesAscend(m, v, cap, i, j, 0);
  }

  lemma RowsAscend(m: Mem, v: View, cap: nat, j: nat)
    requires Inv(m, v, cap) && j < |v.chain|
    ensures Ascending(RowsAt(m, v.chain[j]))
  {
    hide Inv, Listing, RowsAt;
    var rows := RowsAt(m, v.chain[j]);
    forall x, y | 0 <= x < y < |rows|
      ensures rows[x].key < rows[y].key
    {
      RowPlace(m, v.chain, j, x);
      RowPlace(m, v.chain, j, y);
      ListingAscends(m, v, cap, |Listing(m, v.chain[..j])| + x, |Listing(m, v.chain[..j])| + y);
    }
  }

  // ------------------------------------------------------------ routing

  /** The leaf at `j` is where `k` belongs. */
  ghost predicate IsTarget(m: Mem, v: View, k: Key, j: nat) {
    && j < |v.chain|
    && (j == 0 || FrontKey(m, v.chain[j]) <= k)
    && (j + 1 == |v.chain| || k < FrontKey(m, v.chain[j + 1]))
  }

  lemma TargetExists(m: Mem, v: View, cap: nat, k: Key) returns (j: nat)
    requires Inv(m, v, cap)
    ensures IsTarget(m, v, k, j)
  {
    j := 0;
    while j + 1 < |v.chain| && FrontKey(m, v.chain[j + 1]) <= k
      invariant j < |v.chain| && (j == 0 || FrontKey(m, v.chain[j]) <= k)
    {
      j := j + 1;
    }
  }

  /** All rows before the target are at most `k` and all behind it above. */
  lemma TargetIs(m: Mem, v: View, cap: nat, k: Key, j: nat, i: nat)
    requires Inv(m, v, cap) && IsTarget(m, v, k, j) && i < |v.chain|
    ensures i > j ==> k < FrontKey(m, v.chain[i])
    ensures i <= j ==> i == 0 || FrontKey(m, v.chain[i]) <= k
  {
    if i > j + 1 { FrontsAscend(m, v, cap, j + 1, i); }
    if i < j { FrontsAscend(m, v, cap, i, j); }
  }

  /** What std::upper_bound over the separators returns. */
  ghost predicate IsUpper(m: Mem, node: Inner, k: Key, i: nat) {
    && i <= node.size <= |node.entries|
    && (forall x :: 0 <= x < i ==> SepKey(m, node.entries[x]) <= k)
    && (forall x :: i <= x < node.size ==> k < SepKey(m, node.entries[x]))
  }

  /** The children's intervals ascend. */
  lemma {:induction false} KidsAscend(m: Mem, v: View, cap: nat, weak: Ptr, n: Ptr, i: nat, j: nat)
    requires InnerOk(m, v, cap, weak, n) && i < j <= m.inners[n].size
    ensures v.Lo(n) <= v.Lo(m.inners[n].children[i]) < v.Hi(m.inners[n].children[i]) <= v.Lo(m.inners[n].children[j])
    ensures v.Hi(m.inners[n].children[j]) <= v.Hi(n)
    decreases j - i, m.inners[n].size - j, i
  {
    var ch := m.inners[n].children;
    assert KidOk(m, v, n, i) && KidOk(m, v, n, j) && KidOk(m, v, n, j - 1);
    if i + 1 < j { KidsAscend(m, v, cap, weak, n, i, j - 1); }
    KidWithin(m, v, cap, weak, n, i);
    KidWithin(m, v, cap, weak, n, j);
  }

  lemma {:induction false} KidStarts(m: Mem, v: View, cap: nat, weak: Ptr, n: Ptr, i: nat)
    requires InnerOk(m, v, cap, weak, n) && i <= m.inners[n].size
    ensures v.Lo(n) <= v.Lo(m.inners[n].children[i]) && (i > 0 ==> v.Lo(n) < v.Lo(m.inners[n].children[i]))
  {
    assert KidOk(m, v, n, i);
    if i > 0 {
      KidStarts(m, v, cap, weak, n, i - 1);
      assert KidOk(m, v, n, i - 1);
    }
  }

  lemma {:induction false} KidEnds(m: Mem, v: View, cap: nat, weak: Ptr, n: Ptr, i: nat)
    requires InnerOk(m, v, cap, weak, n) && i <= m.inners[n].size
    ensures v.Hi(m.inners[n].children[i]) <= v.Hi(n)
    ensures i < m.inners[n].size ==> v.Hi(m.inners[n].children[i]) < v.Hi(n)
    decreases m.inners[n].size - i
  {
    assert KidOk(m, v, n, i);
    if i < m.inners[n].size {
      KidEnds(m, v, cap, weak, n, i + 1);
      assert KidOk(m, v, n, i + 1);
    }
  }

  lemma KidWithin(m: Mem, v: View, cap: nat, weak: Ptr, n: Ptr, i: nat)
    requires InnerOk(m, v, cap, weak, n) && i <= m.inners[n].size
    ensures v.Lo(n) <= v.Lo(m.inners[n].children[i]) < v.Hi(m.inners[n].children[i]) <= v.Hi(n) <= |v.chain|
  {
    assert KidOk(m, v, n, i);
    assert KidOk(m, v, n, m.inners[n].size);
    KidStarts(m, v, cap, weak, n, i);
    KidEnds(m, v, cap, weak, n, i);
  }

  /** A separator's key is the front key of the leaf where its right child starts. */
  lemma SepIs(m: Mem, v: View, cap: nat, weak: Ptr, n: Ptr, i: nat)
    requires InnerOk(m, v, cap, weak, n) && i < m.inners[n].size
    ensures var x := v.Lo(m.inners[n].children[i + 1]);
            1 <= x < |v.chain| && SepKey(m, m.inners[n].entries[i]) == FrontKey(m, v.chain[x])
  {
    assert SepOk(m, v, n, i);
  }

  /** The separators of a node ascend, so that it can be searched. */
  lemma SepsAscend(m: Mem, v: View, cap: nat, n: Ptr, i: nat, j: nat)
    requires Inv(m, v, cap) && n in v.live && i < j < m.inners[n].size
    ensures SepKey(m, m.inners[n].entries[i]) < SepKey(m, m.inners[n].entries[j])
  {
    SepIs(m, v, cap, 0, n, i);
    SepIs(m, v, cap, 0, n, j);
    KidsAscend(m, v, cap, 0, n, i + 1, j + 1);
    FrontsAscend(m, v, cap, v.Lo(m.inners[n].children[i + 1]), v.Lo(m.inners[n].children[j + 1]));
  }

  /** The child chosen for `k` covers its target. */
  lemma Descend(m: Mem, v: View, cap: nat, n: Ptr, k: Key, j: nat, i: nat)
    requires Inv(m, v, cap) && n in v.live && IsTarget(m, v, k, j) && v.Lo(n) <= j < v.Hi(n)
    requires IsUpper(m, m.inners[n], k, i)
    ensures v.Lo(m.inners[n].children[i]) <= j < v.Hi(m.inners[n].children[i])
  {
    var node := m.inners[n];
    assert KidOk(m, v, n, i);
    if i > 0 {
      SepIs(m, v, cap, 0, n, i - 1);
      TargetIs(m, v, cap, k, j, v.Lo(node.children[i]));
    }
    if i < node.size {
      SepIs(m, v, cap, 0, n, i);
      TargetIs(m, v, cap, k, j, v.Lo(node.children[i + 1]));
      assert KidOk(m, v, n, i + 1);
    }
  }

  /** A leaf that covers a number is the leaf at that number. */
  lemma LeafIs(m: Mem, v: View, cap: nat, p: Ptr, j: nat)
    requires ChainOk(m, v, cap) && p in m.leaves && v.Lo(p) <= j < v.Hi(p)
    ensures j < |v.chain| && p == v.chain[j]
  {
    var i :| 0 <= i < |v.chain| && v.chain[i] == p;
    assert LeafAt(m, v, cap, i);
  }
}
