/** The whole state of tree3: persistent leaves, the volatile tree with a leaf node for each
    leaf in use, and the leaves recovered empty. What every operation keeps, and what the
    writes to leaves do to the map. */
module Tree3State {
  import opened Keys
  import opened Tree3Shape
  import opened Tree3Pool

  /** KVLeafNode: hashes and keys mirror the slots of a persistent leaf. */
  datatype LeafNode = LeafNode(hashes: seq<nat>, keys: seq<Key>, leaf: Ptr)

  datatype St = St(pool: Pool, tree: Tree, nodes: map<Ptr, LeafNode>, prealloc: seq<Ptr>)

  /** std::string::clear leaves the empty string, whose rank is 0. */
  const NO_KEY: Key := 0.0

  predicate MirrorAt(hf: Key -> nat, hash: nat, key: Key, slot: Option<KV>) {
    match slot
    case None => hash == 0
    case Some(kv) => kv.hash == hf(kv.key) && hash == kv.hash && key == kv.key
  }

  predicate Mirrors(hf: Key -> nat, node: LeafNode, slots: Slots) {
    && |node.hashes| == |node.keys| == |slots| == LEAF_KEYS
    && forall i :: 0 <= i < LEAF_KEYS ==> MirrorAt(hf, node.hashes[i], node.keys[i], slots[i])
  }

  ghost predicate NoDoubles(slots: Slots) {
    forall i, j :: 0 <= i < j < |slots| && slots[i].Some? && slots[j].Some? ==> slots[i].value.key != slots[j].value.key
  }

  /** Every key in the slots belongs to leaf `j`. */
  ghost predicate KeysBelong(slots: Slots, v: View, j: nat) {
    forall i :: 0 <= i < |slots| && slots[i].Some? ==> IsTarget(v, slots[i].value.key, j)
  }

  function SlotsOf(s: St, x: Ptr): Slots {
    if x in s.nodes && s.nodes[x].leaf in s.pool.leaves then s.pool.leaves[s.nodes[x].leaf].slots else []
  }

  ghost predicate LeafOk(hf: Key -> nat, s: St, v: View, j: nat)
    requires j < |v.chain|
  {
    var x := v.chain[j];
    && x in s.nodes && s.nodes[x].leaf in s.pool.leaves && s.nodes[x].leaf !in s.prealloc
    && Mirrors(hf, s.nodes[x], SlotsOf(s, x)) && NoDoubles(SlotsOf(s, x)) && KeysBelong(SlotsOf(s, x), v, j)
  }

  ghost predicate LeavesOk(hf: Key -> nat, s: St, v: View) {
    && (forall x :: x in s.nodes <==> x in v.chain)
    && (forall j :: 0 <= j < |v.chain| ==> LeafOk(hf, s, v, j))
    && forall x, y :: x in s.nodes && y in s.nodes && s.nodes[x].leaf == s.nodes[y].leaf ==> x == y
  }

  ghost predicate SpareOk(s: St) {
    && (forall i, j :: 0 <= i < j < |s.prealloc| ==> s.prealloc[i] != s.prealloc[j])
    && forall p :: p in s.prealloc ==> p in s.pool.leaves && s.pool.leaves[p].slots == EmptySlots()
  }

  ghost predicate Used(s: St, p: Ptr) {
    exists x :: x in s.nodes && s.nodes[x].leaf == p
  }

  /** Every leaf is in use, spare, or the one just taken. */
  ghost predicate OwnedOk(s: St, taken: Ptr) {
    && (forall p :: p in s.pool.leaves ==> p == taken || p in s.prealloc || Used(s, p))
    && (taken != 0 ==> taken in s.pool.leaves && s.pool.leaves[taken].slots == EmptySlots()
                       && taken !in s.prealloc && !Used(s, taken))
  }

  ghost predicate NodesOk(hf: Key -> nat, s: St, v: View, g: Gap) {
    if s.tree.top == 0 then s.nodes == map[] && s.tree.inners == map[] && g == Closed
    else ShapeOk(s.tree, v, g) && LeavesOk(hf, s, v)
  }

  /** The invariant; `taken` is a leaf taken from the list but not yet in use. */
  ghost predicate InvT(hf: Key -> nat, s: St, v: View, g: Gap, order: seq<Ptr>, taken: Ptr) {
    && HashOk(hf) && ListOk(s.pool, order) && SpareOk(s) && OwnedOk(s, taken) && NodesOk(hf, s, v, g)
    && s.tree.inners.Keys !! s.nodes.Keys
  }

  ghost predicate Inv(hf: Key -> nat, s: St, v: View, g: Gap, order: seq<Ptr>) {
    InvT(hf, s, v, g, order, 0)
  }

  // ------------------------------------------------------------ where keys are

  lemma InvLeaf(hf: Key -> nat, s: St, v: View, g: Gap, order: seq<Ptr>, taken: Ptr, j: nat)
    requires InvT(hf, s, v, g, order, taken) && s.tree.top != 0 && j < |v.chain|
    ensures LeafOk(hf, s, v, j) && v.chain[j] in s.nodes && |SlotsOf(s, v.chain[j])| == LEAF_KEYS
  {
    hide ShapeOk, ListOk, SpareOk, OwnedOk, NoDoubles, KeysBelong;
  }

  lemma InvNodes(hf: Key -> nat, s: St, v: View, g: Gap, order: seq<Ptr>, taken: Ptr)
    requires InvT(hf, s, v, g, order, taken) && s.tree.top != 0
    ensures ShapeOk(s.tree, v, g) && LeavesOk(hf, s, v) && ChainOk(v)
    ensures forall x :: x in s.nodes <==> x in v.chain
  {
    hide LeafOk, ListOk, SpareOk, OwnedOk, InnerOk, ParentOk, ChainOk, RootOk;
  }

  /** A stored key belongs to the leaf that stores it. */
  lemma KeyPlace(hf: Key -> nat, s: St, v: View, g: Gap, order: seq<Ptr>, taken: Ptr, p: Ptr, i: int, k: Key)
    returns (j: nat)
    requires InvT(hf, s, v, g, order, taken) && At(s.pool, p, i, k)
    ensures s.tree.top != 0 && j < |v.chain| && v.chain[j] in s.nodes && s.nodes[v.chain[j]].leaf == p
              && IsTarget(v, k, j)
  {
    hide ShapeOk, ListOk, NoDoubles;
    LeafNotNull(s.pool, order, p);
    assert p != taken && p !in s.prealloc by { NotEmpty(s, p, i, k); }
    var x :| x in s.nodes && s.nodes[x].leaf == p;
    assert x in v.chain;
    j :| 0 <= j < |v.chain| && v.chain[j] == x;
    assert LeafOk(hf, s, v, j);
  }

  lemma LeafNotNull(pool: Pool, order: seq<Ptr>, p: Ptr)
    requires ListOk(pool, order) && p in pool.leaves
    ensures p != 0
  {
    var i :| 0 <= i < |order| && order[i] == p;
    assert LinkOk(pool, order, i);
  }

  lemma NotEmpty(s: St, p: Ptr, i: int, k: Key)
    requires At(s.pool, p, i, k)
    ensures s.pool.leaves[p].slots != EmptySlots()
  {
  }

  lemma InvDistinct(hf: Key -> nat, s: St, v: View, g: Gap, order: seq<Ptr>, taken: Ptr)
    requires InvT(hf, s, v, g, order, taken)
    ensures AllDistinct(s.pool)
  {
    hide InvT;
    forall p, i, q, j, k | At(s.pool, p, i, k) && At(s.pool, q, j, k)
      ensures p == q && i == j
    {
      OnePlace(hf, s, v, g, order, taken, p, i, q, j, k);
    }
  }

  lemma OnePlace(hf: Key -> nat, s: St, v: View, g: Gap, order: seq<Ptr>, taken: Ptr, p: Ptr, i: int, q: Ptr, j: int,
                 k: Key)
    requires InvT(hf, s, v, g, order, taken) && At(s.pool, p, i, k) && At(s.pool, q, j, k)
    ensures p == q && i == j
  {
    hide InvT, ChainOk, IsTarget;
    var a := KeyPlace(hf, s, v, g, order, taken, p, i, k);
    var b := KeyPlace(hf, s, v, g, order, taken, q, j, k);
    InvNodes(hf, s, v, g, order, taken);
    OneTarget(v, k, a, b);
    InvLeaf(hf, s, v, g, order, taken, a);
  }

  /** A key is in the map if and only if the leaf to which it belongs has a slot for it. */
  lemma KeyHere(hf: Key -> nat, s: St, v: View, g: Gap, order: seq<Ptr>, taken: Ptr, j: nat, k: Key)
    requires InvT(hf, s, v, g, order, taken) && s.tree.top != 0 && j < |v.chain| && IsTarget(v, k, j)
    requires v.chain[j] in s.nodes
    ensures k in Contents(s.pool) <==> exists i :: At(s.pool, s.nodes[v.chain[j]].leaf, i, k)
    ensures forall i :: At(s.pool, s.nodes[v.chain[j]].leaf, i, k) ==>
              Lookup(Contents(s.pool), k) == Some(s.pool.leaves[s.nodes[v.chain[j]].leaf].slots[i].value.value)
  {
    hide InvT, ChainOk, IsTarget, Contents;
    var l := s.nodes[v.chain[j]].leaf;
    InvDistinct(hf, s, v, g, order, taken);
    InvNodes(hf, s, v, g, order, taken);
    forall i | At(s.pool, l, i, k)
      ensures Lookup(Contents(s.pool), k) == Some(s.pool.leaves[l].slots[i].value.value)
    {
      assert AtValue(s.pool, l, i, k, s.pool.leaves[l].slots[i].value.value);
      ContentsHas(s.pool, k, s.pool.leaves[l].slots[i].value.value);
    }
    if k in Contents(s.pool) {
      ContentsHas(s.pool, k, Contents(s.pool)[k]);
      var p, i :| AtValue(s.pool, p, i, k, Contents(s.pool)[k]);
      var b := KeyPlace(hf, s, v, g, order, taken, p, i, k);
      OneTarget(v, k, j, b);
      assert At(s.pool, l, i, k);
    }
  }

  // ------------------------------------------------------------ one slot

  /** LeafFillSpecificSlot */
  function FillSlot(s: St, x: Ptr, i: nat, kv: KV): St
    requires x in s.nodes && i < |SlotsOf(s, x)| && i < |s.nodes[x].hashes| && i < |s.nodes[x].keys|
  {
    var node := s.nodes[x];
    s.(pool := SetSlots(s.pool, node.leaf, SlotsOf(s, x)[i := Some(kv)]),
       nodes := s.nodes[x := node.(hashes := node.hashes[i := kv.hash], keys := node.keys[i := kv.key])])
  }

  /** The writes of remove. */
  function ClearSlot(s: St, x: Ptr, i: nat): St
    requires x in s.nodes && i < |SlotsOf(s, x)| && i < |s.nodes[x].hashes| && i < |s.nodes[x].keys|
  {
    var node := s.nodes[x];
    s.(pool := SetSlots(s.pool, node.leaf, SlotsOf(s, x)[i := None]),
       nodes := s.nodes[x := node.(hashes := node.hashes[i := 0], keys := node.keys[i := NO_KEY])])
  }

  /** A change to one leaf and its node. */
  ghost predicate OneLeaf(s: St, s': St, x: Ptr) {
    && x in s.nodes && s'.tree == s.tree && s'.prealloc == s.prealloc && x in s'.nodes
    && s'.nodes == s.nodes[x := s'.nodes[x]] && s'.nodes[x].leaf == s.nodes[x].leaf && s.nodes[x].leaf in s.pool.leaves
    && s'.pool == SetSlots(s.pool, s.nodes[x].leaf, SlotsOf(s', x))
  }

  /** Such a change keeps the invariant if the leaf stays in order. */
  lemma OneLeafKeeps(hf: Key -> nat, s: St, s': St, v: View, g: Gap, order: seq<Ptr>, taken: Ptr, j: nat)
    requires InvT(hf, s, v, g, order, taken) && s.tree.top != 0 && j < |v.chain| && OneLeaf(s, s', v.chain[j])
    requires Mirrors(hf, s'.nodes[v.chain[j]], SlotsOf(s', v.chain[j]))
    requires NoDoubles(SlotsOf(s', v.chain[j])) && KeysBelong(SlotsOf(s', v.chain[j]), v, j)
    ensures InvT(hf, s', v, g, order, taken)
  {
    hide ShapeOk, ListOk, Mirrors, NoDoubles, KeysBelong, ChainOk, Used;
    var x := v.chain[j];
    SetSlotsList(s.pool, order, s.nodes[x].leaf, SlotsOf(s', x));
    InvNodes(hf, s, v, g, order, taken);
    UniqueNode(v);
    assert LeafOk(hf, s, v, j);
    forall y | 0 <= y < |v.chain| ensures LeafOk(hf, s', v, y) {
      assert LeafOk(hf, s, v, y);
    }
    UsedSame(s, s', x);
    UsedIs(s, x);
  }

  lemma UsedIs(s: St, x: Ptr)
    requires x in s.nodes
    ensures Used(s, s.nodes[x].leaf)
  {
  }

  lemma UsedSame(s: St, s': St, x: Ptr)
    requires OneLeaf(s, s', x)
    ensures forall p :: Used(s', p) <==> Used(s, p)
  {
    forall p ensures Used(s', p) <==> Used(s, p) {
      if y :| y in s.nodes && s.nodes[y].leaf == p { assert y in s'.nodes && s'.nodes[y].leaf == p; }
      if y :| y in s'.nodes && s'.nodes[y].leaf == p { assert y in s.nodes && s.nodes[y].leaf == p; }
    }
  }

  lemma UniqueNode(v: View)
    requires ChainOk(v)
    ensures forall i, j :: 0 <= i < |v.chain| && 0 <= j < |v.chain| && v.chain[i] == v.chain[j] ==> i == j
  {
    forall i, j | 0 <= i < |v.chain| && 0 <= j < |v.chain| && v.chain[i] == v.chain[j] ensures i == j {
      assert LeafAt(v, i) && LeafAt(v, j);
    }
  }

  /** The slot may take the pair: it holds the key, or it is empty and no leaf has the key. */
  ghost predicate Takes(s: St, x: Ptr, i: nat, k: Key) {
    && x in s.nodes && i < |SlotsOf(s, x)|
    && (At(s.pool, s.nodes[x].leaf, i, k) || (SlotsOf(s, x)[i] == None && k !in Contents(s.pool)))
  }

  /** Filling such a slot is a map update. */
  lemma FillOk(hf: Key -> nat, s: St, v: View, g: Gap, order: seq<Ptr>, taken: Ptr, j: nat, i: nat, k: Key, val: Value)
    requires InvT(hf, s, v, g, order, taken) && s.tree.top != 0 && j < |v.chain| && IsTarget(v, k, j)
    requires Takes(s, v.chain[j], i, k) && i < |s.nodes[v.chain[j]].hashes| && i < |s.nodes[v.chain[j]].keys|
    ensures var s' := FillSlot(s, v.chain[j], i, KV(hf(k), k, val));
            InvT(hf, s', v, g, order, taken) && Contents(s'.pool) == Contents(s.pool)[k := val]
  {
    hide InvT, Contents, AllDistinct, IsTarget;
    var x, kv := v.chain[j], KV(hf(k), k, val);
    var s' := FillSlot(s, x, i, kv);
    InvDistinct(hf, s, v, g, order, taken);
    InvLeaf(hf, s, v, g, order, taken, j);
    SetPair(s.pool, s.nodes[x].leaf, i, kv);
    FilledDistinct(s, x, i, kv);
    OneLeafKeeps(hf, s, s', v, g, order, taken, j);
  }

  /** Within the leaf the key stays single. */
  lemma FilledDistinct(s: St, x: Ptr, i: nat, kv: KV)
    requires x in s.nodes && s.nodes[x].leaf in s.pool.leaves && i < |SlotsOf(s, x)|
    requires AllDistinct(SetSlots(s.pool, s.nodes[x].leaf, SlotsOf(s, x)[i := Some(kv)]))
    ensures NoDoubles(SlotsOf(s, x)[i := Some(kv)])
  {
    var l, t := s.nodes[x].leaf, SlotsOf(s, x)[i := Some(kv)];
    var pool' := SetSlots(s.pool, l, t);
    forall a, b | 0 <= a < b < |t| && t[a].Some? && t[b].Some?
      ensures t[a].value.key != t[b].value.key
    {
      assert At(pool', l, a, t[a].value.key) && At(pool', l, b, t[b].value.key);
    }
  }

  /** Clearing the slot of a key removes it from the map. */
  lemma ClearOk(hf: Key -> nat, s: St, v: View, g: Gap, order: seq<Ptr>, taken: Ptr, j: nat, i: nat, k: Key)
    requires InvT(hf, s, v, g, order, taken) && s.tree.top != 0 && j < |v.chain| && v.chain[j] in s.nodes
    requires At(s.pool, s.nodes[v.chain[j]].leaf, i, k)
    requires i < |s.nodes[v.chain[j]].hashes| && i < |s.nodes[v.chain[j]].keys|
    ensures var s' := ClearSlot(s, v.chain[j], i);
            InvT(hf, s', v, g, order, taken) && Contents(s'.pool) == Contents(s.pool) - {k}
  {
    hide InvT, Contents, AllDistinct, IsTarget;
    var x := v.chain[j];
    var s' := ClearSlot(s, x, i);
    InvDistinct(hf, s, v, g, order, taken);
    InvLeaf(hf, s, v, g, order, taken, j);
    ClearPair(s.pool, s.nodes[x].leaf, i, k);
    OneLeafKeeps(hf, s, s', v, g, order, taken, j);
  }

  // ------------------------------------------------------------ taking a leaf

  /** A new leaf at the head of the list, when no spare one is left. */
  function NewHead(s: St, p: Ptr): St {
    s.(pool := AddLeaf(s.pool, p))
  }

  function PopSpare(s: St): St
    requires s.prealloc != []
  {
    s.(prealloc := s.prealloc[..|s.prealloc| - 1])
  }

  lemma PopSpareOk(hf: Key -> nat, s: St, v: View, g: Gap, order: seq<Ptr>)
    requires Inv(hf, s, v, g, order) && s.prealloc != []
    ensures InvT(hf, PopSpare(s), v, g, order, s.prealloc[|s.prealloc| - 1])
  {
    hide ShapeOk, ListOk, Mirrors, NoDoubles, KeysBelong;
    var p, s' := s.prealloc[|s.prealloc| - 1], PopSpare(s);
    LeafNotNull(s.pool, order, p);
    assert p !in s'.prealloc;
    assert forall q :: q in s.prealloc ==> q == p || q in s'.prealloc by { LastOrNot(s.prealloc); }
    if s.tree.top != 0 {
      forall j | 0 <= j < |v.chain| ensures LeafOk(hf, s', v, j) { assert LeafOk(hf, s, v, j); }
      SpareUnused(hf, s, v, p);
    }
    assert forall q :: Used(s', q) <==> Used(s, q);
    forall q | q in s.pool.leaves ensures q in s.prealloc || Used(s, q) { LeafNotNull(s.pool, order, q); }
  }

  lemma LastOrNot(a: seq<Ptr>)
    requires a != []
    ensures forall q :: q in a ==> q == a[|a| - 1] || q in a[..|a| - 1]
  {
    assert a == a[..|a| - 1] + [a[|a| - 1]];
  }

  lemma SpareUnused(hf: Key -> nat, s: St, v: View, p: Ptr)
    requires LeavesOk(hf, s, v) && p in s.prealloc
    ensures !Used(s, p)
  {
    if x :| x in s.nodes && s.nodes[x].leaf == p {
      var j :| 0 <= j < |v.chain| && v.chain[j] == x;
      assert LeafOk(hf, s, v, j);
    }
  }

  lemma NewHeadOk(hf: Key -> nat, s: St, v: View, g: Gap, order: seq<Ptr>, p: Ptr)
    requires Inv(hf, s, v, g, order) && p != 0 && p !in s.pool.leaves
    ensures InvT(hf, NewHead(s, p), v, g, [p] + order, p) && Contents(NewHead(s, p).pool) == Contents(s.pool)
  {
    hide ShapeOk, ListOk, Mirrors, NoDoubles, KeysBelong, Contents;
    var s' := NewHead(s, p);
    AddLeafList(s.pool, order, p);
    InvDistinct(hf, s, v, g, order, 0);
    AddLeafContents(s.pool, p);
    if s.tree.top != 0 {
      forall j | 0 <= j < |v.chain| ensures LeafOk(hf, s', v, j) { assert LeafOk(hf, s, v, j); }
      NewUnused(hf, s, v, p);
    }
    assert forall q :: Used(s', q) <==> Used(s, q);
    forall q | q in s.pool.leaves ensures q in s.prealloc || Used(s, q) { LeafNotNull(s.pool, order, q); }
  }

  lemma NewUnused(hf: Key -> nat, s: St, v: View, p: Ptr)
    requires LeavesOk(hf, s, v) && p !in s.pool.leaves
    ensures !Used(s, p)
  {
    if x :| x in s.nodes && s.nodes[x].leaf == p {
      var j :| 0 <= j < |v.chain| && v.chain[j] == x;
      assert LeafOk(hf, s, v, j);
    }
  }

  function NewNode(l: Ptr): LeafNode {
    LeafNode(seq(LEAF_KEYS, _ => 0), seq(LEAF_KEYS, _ => NO_KEY), l)
  }

  /** The first leaf node becomes the top. */
  function FirstNode(s: St, x: Ptr, l: Ptr): St {
    s.(tree := Tree(map[], map[x := 0], x), nodes := map[x := NewNode(l)])
  }

  ghost function FirstView(x: Ptr): View {
    View([x], [0.0], map[x := 0], map[x := 1], map[x := 0])
  }

  lemma FirstOk(hf: Key -> nat, s: St, v: View, order: seq<Ptr>, taken: Ptr, x: Ptr)
    requires InvT(hf, s, v, Closed, order, taken) && s.tree.top == 0 && taken != 0 && x != 0
    ensures Inv(hf, FirstNode(s, x, taken), FirstView(x), Closed, order)
  {
    hide ListOk, ShapeOk;
    var s', v' := FirstNode(s, x, taken), FirstView(x);
    SingleLeaf(x);
    assert LeafOk(hf, s', v', 0);
    assert Used(s', taken);
  }

  // ------------------------------------------------------------ a leaf in two

  /** The slots and the node entries up to the split key stay. */
  function KeptSlots(node: LeafNode, slots: Slots, sk: Key): Slots
    requires |node.keys| == |slots|
  {
    seq(|slots|, i requires 0 <= i < |slots| => if node.keys[i] > sk then None else slots[i])
  }

  function MovedSlots(node: LeafNode, slots: Slots, sk: Key): Slots
    requires |node.keys| == |slots|
  {
    seq(|slots|, i requires 0 <= i < |slots| => if node.keys[i] > sk then slots[i] else None)
  }

  function KeptNode(node: LeafNode, sk: Key): LeafNode
    requires |node.keys| == |node.hashes|
  {
    LeafNode(seq(|node.keys|, i requires 0 <= i < |node.keys| => if node.keys[i] > sk then 0 else node.hashes[i]),
             seq(|node.keys|, i requires 0 <= i < |node.keys| => if node.keys[i] > sk then NO_KEY else node.keys[i]),
             node.leaf)
  }

  function MovedNode(node: LeafNode, sk: Key, l: Ptr): LeafNode
    requires |node.keys| == |node.hashes|
  {
    LeafNode(seq(|node.keys|, i requires 0 <= i < |node.keys| => if node.keys[i] > sk then node.hashes[i] else 0),
             seq(|node.keys|, i requires 0 <= i < |node.keys| => if node.keys[i] > sk then node.keys[i] else NO_KEY),
             l)
  }

  ghost predicate Full(s: St, x: Ptr) {
    && x in s.nodes && |SlotsOf(s, x)| == |s.nodes[x].keys| == |s.nodes[x].hashes| == LEAF_KEYS
    && forall i :: 0 <= i < LEAF_KEYS ==> SlotsOf(s, x)[i].Some?
  }

  /** Everything above `sk` moves from node `x` to the new node `q` with leaf `l`; the new
      node gets the parent of the old one. */
  function SplitNode(s: St, x: Ptr, q: Ptr, l: Ptr, sk: Key): St
    requires x in s.nodes && |SlotsOf(s, x)| == |s.nodes[x].keys| == |s.nodes[x].hashes|
  {
    var node, slots := s.nodes[x], SlotsOf(s, x);
    s.(pool := SetSlots(SetSlots(s.pool, node.leaf, KeptSlots(node, slots, sk)), l, MovedSlots(node, slots, sk)),
       nodes := s.nodes[x := KeptNode(node, sk)][q := MovedNode(node, sk, l)],
       tree := s.tree.(parents := s.tree.parents[q := s.tree.Parent(x)]))
  }

  ghost predicate Splits(hf: Key -> nat, s: St, v: View, order: seq<Ptr>, j: nat, q: Ptr, l: Ptr, sk: Key) {
    && InvT(hf, s, v, Closed, order, l) && l != 0 && s.tree.top != 0 && j < |v.chain| == |v.seps|
    && Full(s, v.chain[j]) && Fresh(s.tree, v, q) && q !in s.nodes && Between(v, j, sk)
  }

  /** Where a key belongs after leaf `j` was split at `sk`. */
  lemma TargetAfter(v: View, j: nat, q: Ptr, sk: Key, k: Key, y: nat)
    requires j < |v.chain| == |v.seps| && IsTarget(v, k, y)
    ensures y != j ==> IsTarget(OpenView(v, j, q, sk), k, Up(j, y))
    ensures y == j ==> IsTarget(OpenView(v, j, q, sk), k, if k > sk then j + 1 else j)
  {
    hide OpenView;
    OpenSep(v, j, q, sk, Up(j, y));
    if Up(j, y) < |v.seps| { OpenSep(v, j, q, sk, Up(j, y) + 1); }
    OpenSep(v, j, q, sk, j + 1);
    if j + 2 <= |v.seps| { OpenSep(v, j, q, sk, j + 2); }
  }

  lemma SplitLeafFacts(hf: Key -> nat, s: St, v: View, order: seq<Ptr>, j: nat, q: Ptr, l: Ptr, sk: Key)
    requires Splits(hf, s, v, order, j, q, l, sk)
    ensures LeafOk(hf, s, v, j) && v.chain[j] in s.nodes && v.chain[j] != q && s.nodes[v.chain[j]].leaf != l
    ensures s.nodes[v.chain[j]].leaf in s.pool.leaves && l in s.pool.leaves && |s.pool.leaves[l].slots| == LEAF_KEYS
    ensures forall i :: 0 <= i < LEAF_KEYS ==> s.pool.leaves[l].slots[i] == None
    ensures l !in s.prealloc && ShapeOk(s.tree, v, Closed)
  {
    hide ShapeOk, ListOk;
    assert LeafOk(hf, s, v, j);
    assert Used(s, s.nodes[v.chain[j]].leaf);
  }

  lemma SplitPool(hf: Key -> nat, s: St, v: View, order: seq<Ptr>, j: nat, q: Ptr, l: Ptr, sk: Key)
    requires Splits(hf, s, v, order, j, q, l, sk)
    ensures var s' := SplitNode(s, v.chain[j], q, l, sk);
            && ListOk(s'.pool, order) && AllDistinct(s'.pool) && Contents(s'.pool) == Contents(s.pool)
            && s'.pool.leaves.Keys == s.pool.leaves.Keys
            && (forall p :: p in s.pool.leaves && p != s.nodes[v.chain[j]].leaf && p != l ==>
                  s'.pool.leaves[p] == s.pool.leaves[p])
  {
    hide InvT, Contents, AllDistinct, KeptSlots, MovedSlots, Between, Mirrors, NoDoubles, KeysBelong;
    var x := v.chain[j];
    SplitLeafFacts(hf, s, v, order, j, q, l, sk);
    InvDistinct(hf, s, v, Closed, order, l);
    var s' := SplitNode(s, x, q, l, sk);
    var node, slots := s.nodes[x], SlotsOf(s, x);
    SetSlotsList(s.pool, order, node.leaf, KeptSlots(node, slots, sk)) by { InvList(hf, s, v, Closed, order, l); }
    SetSlotsList(SetSlots(s.pool, node.leaf, KeptSlots(node, slots, sk)), order, l, MovedSlots(node, slots, sk));
    MovedEach(node, slots, sk);
    MovePairs(s.pool, s'.pool, node.leaf, l);
  }

  lemma InvList(hf: Key -> nat, s: St, v: View, g: Gap, order: seq<Ptr>, taken: Ptr)
    requires InvT(hf, s, v, g, order, taken)
    ensures ListOk(s.pool, order)
  {
  }

  lemma MovedEach(node: LeafNode, slots: Slots, sk: Key)
    requires |node.keys| == |slots|
    ensures |KeptSlots(node, slots, sk)| == |MovedSlots(node, slots, sk)| == |slots|
    ensures forall i :: 0 <= i < |slots| ==>
              MovedAt(slots[i], None, KeptSlots(node, slots, sk)[i], MovedSlots(node, slots, sk)[i])
  {
  }

  /** Leaves that are not split. */
  lemma SplitOther(hf: Key -> nat, s: St, v: View, order: seq<Ptr>, j: nat, q: Ptr, l: Ptr, sk: Key, y: nat)
    requires Splits(hf, s, v, order, j, q, l, sk) && y < |v.chain| && y != j
    ensures Up(j, y) < |OpenView(v, j, q, sk).chain|
    ensures LeafOk(hf, SplitNode(s, v.chain[j], q, l, sk), OpenView(v, j, q, sk), Up(j, y))
  {
    hide OpenView, ShapeOk, ListOk, KeptSlots, MovedSlots, KeptNode, MovedNode, IsTarget, Mirrors, Between;
    SplitLeafFacts(hf, s, v, order, j, q, l, sk);
    SplitPool(hf, s, v, order, j, q, l, sk);
    OpenSeqs(v, j, q, sk);
    InvNodes(hf, s, v, Closed, order, l);
    UniqueNode(v);
    assert LeafOk(hf, s, v, y);
    assert s.nodes[v.chain[y]].leaf != l by { assert Used(s, s.nodes[v.chain[y]].leaf); }
    var slots := SlotsOf(s, v.chain[y]);
    forall i | 0 <= i < |slots| && slots[i].Some?
      ensures IsTarget(OpenView(v, j, q, sk), slots[i].value.key, Up(j, y))
    {
      TargetAfter(v, j, q, sk, slots[i].value.key, y);
    }
  }

  /** The two halves. */
  lemma SplitHalf(hf: Key -> nat, s: St, v: View, order: seq<Ptr>, j: nat, q: Ptr, l: Ptr, sk: Key, right: bool)
    requires Splits(hf, s, v, order, j, q, l, sk)
    ensures var y := if right then j + 1 else j;
            y < |OpenView(v, j, q, sk).chain| && LeafOk(hf, SplitNode(s, v.chain[j], q, l, sk), OpenView(v, j, q, sk),
                                                        y)
  {
    hide OpenView, ShapeOk, ListOk, IsTarget, Between, InvT;
    SplitLeafFacts(hf, s, v, order, j, q, l, sk);
    OpenSeqs(v, j, q, sk);
    assert Up(j, j) == j;
    var slots := SlotsOf(s, v.chain[j]);
    forall i | 0 <= i < |slots| && slots[i].Some?
      ensures IsTarget(OpenView(v, j, q, sk), slots[i].value.key, if slots[i].value.key > sk then j + 1 else j)
    {
      TargetAfter(v, j, q, sk, slots[i].value.key, j);
    }
  }

  /** After the split the tree has a gap at the leaf, and the map is the same. */
  lemma SplitOk(hf: Key -> nat, s: St, v: View, order: seq<Ptr>, j: nat, q: Ptr, l: Ptr, sk: Key)
    requires Splits(hf, s, v, order, j, q, l, sk)
    ensures var s' := SplitNode(s, v.chain[j], q, l, sk);
            Inv(hf, s', OpenView(v, j, q, sk), Open(v.chain[j], q), order) && Contents(s'.pool) == Contents(s.pool)
  {
    hide OpenView, ShapeOk, ListOk, KeptSlots, MovedSlots, KeptNode, MovedNode, IsTarget, Mirrors, Between, Contents,
         LeafOk;
    var x, s', v' := v.chain[j], SplitNode(s, v.chain[j], q, l, sk), OpenView(v, j, q, sk);
    SplitLeafFacts(hf, s, v, order, j, q, l, sk);
    SplitPool(hf, s, v, order, j, q, l, sk);
    OpenOk(s.tree, v, j, q, sk);
    OpenSeqs(v, j, q, sk);
    forall y | 0 <= y < |v'.chain| ensures LeafOk(hf, s', v', y) {
      if y == j || y == j + 1 {
        SplitHalf(hf, s, v, order, j, q, l, sk, y == j + 1);
      } else {
        SplitOther(hf, s, v, order, j, q, l, sk, if y < j then y else y - 1);
      }
    }
    SplitOwned(hf, s, v, order, j, q, l, sk);
  }

  lemma SplitOwned(hf: Key -> nat, s: St, v: View, order: seq<Ptr>, j: nat, q: Ptr, l: Ptr, sk: Key)
    requires Splits(hf, s, v, order, j, q, l, sk)
    ensures var s' := SplitNode(s, v.chain[j], q, l, sk);
            && SpareOk(s') && OwnedOk(s', 0) && s'.tree.inners.Keys !! s'.nodes.Keys
            && (forall a, b :: a in s'.nodes && b in s'.nodes && s'.nodes[a].leaf == s'.nodes[b].leaf ==> a == b)
            && (forall a :: a in s'.nodes <==> a in OpenView(v, j, q, sk).chain)
  {
    hide OpenView, ShapeOk, ListOk, KeptSlots, MovedSlots, Mirrors, Between, KeysBelong, NoDoubles;
    var s' := SplitNode(s, v.chain[j], q, l, sk);
    SplitLeafFacts(hf, s, v, order, j, q, l, sk);
    SplitPool(hf, s, v, order, j, q, l, sk);
    OpenSeqs(v, j, q, sk);
    assert forall a :: a in s.nodes ==> s.nodes[a].leaf != l by {
      forall a | a in s.nodes ensures s.nodes[a].leaf != l { assert Used(s, s.nodes[a].leaf); }
    }
    UsedAfter(hf, s, v, order, j, q, l, sk);
  }

  lemma UsedAfter(hf: Key -> nat, s: St, v: View, order: seq<Ptr>, j: nat, q: Ptr, l: Ptr, sk: Key)
    requires Splits(hf, s, v, order, j, q, l, sk)
    ensures var s' := SplitNode(s, v.chain[j], q, l, sk);
            forall p :: p in s.pool.leaves ==> p in s.prealloc || Used(s', p)
  {
    hide ShapeOk, ListOk, KeptSlots, MovedSlots, Mirrors, Between, LeavesOk;
    var s' := SplitNode(s, v.chain[j], q, l, sk);
    forall p | p in s.pool.leaves ensures p in s.prealloc || Used(s', p) {
      if p == l {
        assert q in s'.nodes && s'.nodes[q].leaf == p;
      } else if p !in s.prealloc {
        var a :| a in s.nodes && s.nodes[a].leaf == p;
        assert a in s'.nodes && s'.nodes[a].leaf == p;
      }
    }
  }
}
