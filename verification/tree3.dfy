/** The tree3 engine: a volatile B+ tree over an unordered list of persistent leaves. */
module Tree3 {
  import opened Keys
  import opened Tree3Shape
  import opened Tree3Pool
  import opened Tree3State
  import opened Tree3Sort
  import opened Tree3Recover

  class Engine {
    /** PearsonHash; it never returns 0. */
    const hf: Key -> nat
    var pool: Pool
    var tree: Tree
    var nodes: map<Ptr, LeafNode>
    var prealloc: seq<Ptr>
    ghost var view: View
    ghost var order: seq<Ptr>
    /** The persistent leaves at the end of every transaction so far. */
    ghost var log: seq<Pool>

    ghost function State(): St
      reads this
    {
      St(pool, tree, nodes, prealloc)
    }

    ghost predicate Valid()
      reads this
    {
      Inv(hf, State(), view, Closed, order)
    }

    ghost function Map(): map<Key, Value>
      reads this
    {
      Contents(pool)
    }

    /** An engine on an existing pool, whatever run left it. */
    constructor (hf: Key -> nat, pool: Pool, ghost order: seq<Ptr>)
      requires PersistOk(hf, pool, order)
      ensures Valid() && this.hf == hf && this.pool == pool && this.order == order && log == []
    {
      this.hf, this.pool, this.order := hf, pool, order;
      tree, nodes, prealloc := Tree(map[], map[], 0), map[], [];
      view, log := FirstView(0), [];
      new;
      Recover();
    }

    /** Addresses for new objects. */
    method AllocateNode() returns (x: Ptr)
      ensures x != 0 && x !in tree.inners && x !in nodes
    {
      ghost var b := Bound(tree.inners.Keys + nodes.Keys);
      assert b + 1 != 0 && b + 1 !in tree.inners && b + 1 !in nodes;
      x :| x != 0 && x !in tree.inners && x !in nodes;
    }

    method AllocateLeaf() returns (p: Ptr)
      ensures p != 0 && p !in pool.leaves
    {
      ghost var b := Bound(pool.leaves.Keys);
      assert b + 1 != 0 && b + 1 !in pool.leaves;
      p :| p != 0 && p !in pool.leaves;
    }

    // ---------------------------------------------------------- search

    /** LeafSearch: the leaf node to which the key belongs; null in an empty tree. */
    method LeafSearch(k: Key) returns (x: Ptr, ghost j: nat)
      requires Valid()
      ensures x == 0 <==> tree.top == 0
      ensures x != 0 ==> j < |view.chain| && x == view.chain[j] && x in nodes && IsTarget(view, k, j)
    {
      hide Inv;
      x, j := tree.top, 0;
      if x == 0 {
        return;
      }
      ghost var s := State();
      InvIs(hf, s, view, Closed, order);
      InvNodes(hf, s, view, Closed, order, 0);
      j := TargetExists(view, k);
      Pieces(tree, view, Closed);
      TopCovers(tree, view, j);
      hide ShapeOk, IsTarget, LeavesOk, ChainOk;
      while x !in nodes
        invariant IsNode(tree, view, x) && view.Lo(x) <= j < view.Hi(x)
        decreases view.Level(x)
      {
        var i := PickChild(x, k);
        Descend(tree, view, x, k, j, i);
        x := tree.inners[x].children[i];
      }
      LeafIs(view, x, j);
      NotNull(view, j);
    }

    lemma NotNull(v: View, j: nat)
      requires ChainOk(v) && j < |v.chain|
      ensures v.chain[j] != 0
    {
      assert LeafAt(v, j);
    }

    /** The loop over the keys of an inner node. */
    method PickChild(n: Ptr, k: Key) returns (i: nat)
      requires n in tree.inners && ShapeOk(tree, view, Closed)
      ensures IsPick(tree.inners[n], k, i)
    {
      hide ShapeOk, InnerOk;
      var inner := tree.inners[n];
      AnInner(tree, view, Closed, n);
      InnerFacts(tree, view, Closed, n);
      i := 0;
      while i < inner.keycount
        invariant i <= inner.keycount <= |inner.keys| && forall x :: 0 <= x < i ==> inner.keys[x] < k
      {
        if k <= inner.keys[i] {
          return;
        }
        i := i + 1;
      }
    }

    /** The scan of a leaf node for a key: by hash first. */
    method FindKey(x: Ptr, k: Key) returns (slot: int)
      requires x in nodes && |nodes[x].hashes| == |nodes[x].keys| == LEAF_KEYS
      ensures -1 <= slot < LEAF_KEYS
      ensures slot >= 0 ==> Matches(nodes[x], hf(k), k, slot)
      ensures slot < 0 ==> forall i :: 0 <= i < LEAF_KEYS ==> !Matches(nodes[x], hf(k), k, i)
    {
      var node := nodes[x];
      slot := LEAF_KEYS;
      while slot > 0
        invariant 0 <= slot <= LEAF_KEYS
        invariant forall i :: slot <= i < LEAF_KEYS ==> !Matches(node, hf(k), k, i)
      {
        slot := slot - 1;
        if node.hashes[slot] == hf(k) {
          if node.keys[slot] == k {
            return;
          }
        }
      }
      slot := -1;
    }

    /** The scan finds the key if and only if the map has it. */
    lemma FoundIs(x: Ptr, j: nat, k: Key, slot: int)
      requires Valid() && tree.top != 0 && j < |view.chain| && x == view.chain[j] && IsTarget(view, k, j) && x in nodes
      requires |nodes[x].hashes| == |nodes[x].keys| == LEAF_KEYS
      requires slot >= 0 ==> slot < LEAF_KEYS && Matches(nodes[x], hf(k), k, slot)
      requires slot < 0 ==> forall i :: 0 <= i < LEAF_KEYS ==> !Matches(nodes[x], hf(k), k, i)
      ensures slot >= 0 <==> k in Map()
      ensures nodes[x].leaf in pool.leaves && |SlotsOf(State(), x)| == LEAF_KEYS
      ensures slot >= 0 ==> At(pool, nodes[x].leaf, slot, k)
      ensures slot >= 0 ==> Lookup(Map(), k) == Some(pool.leaves[nodes[x].leaf].slots[slot].value.value)
    {
      hide Inv, Contents, IsTarget, ChainOk, ShapeOk;
      ghost var s := State();
      InvIs(hf, s, view, Closed, order);
      InvLeaf(hf, s, view, Closed, order, 0, j);
      KeyHere(hf, s, view, Closed, order, 0, j, k);
      forall i: nat | i < LEAF_KEYS
        ensures Matches(nodes[x], hf(k), k, i) <==> At(pool, nodes[x].leaf, i, k)
      {
        MatchIs(hf, nodes[x], SlotsOf(s, x), i, k);
      }
    }

    lemma NodeSized(x: Ptr, j: nat)
      requires Valid() && tree.top != 0 && j < |view.chain| && x == view.chain[j]
      ensures x in nodes && |nodes[x].hashes| == |nodes[x].keys| == LEAF_KEYS
      ensures nodes[x].leaf in pool.leaves && |pool.leaves[nodes[x].leaf].slots| == LEAF_KEYS
    {
      hide Inv, ShapeOk, ChainOk;
      InvIs(hf, State(), view, Closed, order);
      InvLeaf(hf, State(), view, Closed, order, 0, j);
    }

    // ---------------------------------------------------------- reading

    method Exists(k: Key) returns (found: bool)
      requires Valid()
      ensures found == (k in Map())
    {
      hide Inv, Contents;
      var x, j := LeafSearch(k);
      if x == 0 {
        NothingStored();
        return false;
      }
      NodeSized(x, j);
      var slot := FindKey(x, k);
      FoundIs(x, j, k, slot);
      return slot >= 0;
    }

    method Get(k: Key) returns (r: Option<Value>)
      requires Valid()
      ensures r == Lookup(Map(), k)
    {
      hide Inv, Contents;
      var x, j := LeafSearch(k);
      if x == 0 {
        NothingStored();
        return None;
      }
      NodeSized(x, j);
      var slot := FindKey(x, k);
      FoundIs(x, j, k, slot);
      if slot < 0 {
        return None;
      }
      return Some(pool.leaves[nodes[x].leaf].slots[slot].value.value);
    }

    lemma NothingStored()
      requires Valid() && tree.top == 0
      ensures Map() == map[]
    {
      hide Inv, Contents;
      ghost var s := State();
      InvIs(hf, s, view, Closed, order);
      InvDistinct(hf, s, view, Closed, order, 0);
      forall k, val ensures !Has(pool, k, val) {
        if Has(pool, k, val) {
          var p, i :| AtValue(pool, p, i, k, val);
          var j := KeyPlace(hf, s, view, Closed, order, 0, p, i, k);
        }
      }
      ContentsAre(pool, map[]);
    }

    // ---------------------------------------------------------- put

    /** put */
    method Put(k: Key, val: Value)
      requires Valid()
      modifies this
      ensures Valid() && Map() == old(Map())[k := val] && log == old(log) + [pool]
      ensures if k in old(Map()) then SameLeaves(old(State()), State())
              else SameLeaves(old(State()), State()) || OneMoreLeaf(old(State()), State())
    {
      hide Inv, Contents;
      var x, j := LeafSearch(k);
      if x == 0 {
        NothingStored();
        PutFirst(k, val);
      } else {
        NodeSized(x, j);
        var filled := LeafFillSlotForKey(x, k, val, j);
        if !filled {
          LeafSplitFull(x, k, val, j);
        }
      }
    }

    /** put into an empty tree: a leaf node for a spare or a new leaf. */
    method PutFirst(k: Key, val: Value)
      requires Valid() && tree.top == 0
      modifies this
      ensures Valid() && Map() == old(Map())[k := val] && log == old(log) + [pool]
      ensures OneMoreLeaf(old(State()), State())
    {
      hide Inv, InvT, Contents, SlotsOf;
      NothingStored();
      var l := TakeLeaf();
      var x := AllocateNode();
      FirstOk(hf, State(), view, order, l, x);
      tree := Tree(map[], map[x := 0], x);
      nodes := map[x := NewNode(l)];
      view := FirstView(x);
      FirstSlot(hf, State(), view, order, x, k);
      InvIs(hf, State(), view, Closed, order);
      FillOk(hf, State(), view, Closed, order, 0, 0, 0, k, val);
      FillSpecificSlot(x, 0, k, val);
      InvFrom(hf, State(), view, Closed, order);
      log := log + [pool];
    }

    /** The leaf for a new node: the last spare one, or a new head of the list. */
    method TakeLeaf() returns (l: Ptr)
      requires Valid()
      modifies this`pool, this`prealloc, this`order
      ensures l != 0 && InvT(hf, State(), view, Closed, order, l) && Map() == old(Map())
      ensures forall p :: p in old(pool).leaves ==>
                p in pool.leaves && pool.leaves[p].slots == old(pool).leaves[p].slots
      ensures OneMoreLeaf(old(State()), State())
    {
      hide Inv, InvT, Contents;
      ghost var s := State();
      if prealloc != [] {
        PopSpareOk(hf, s, view, Closed, order);
        l := prealloc[|prealloc| - 1];
        SpareNotNull(hf, s, view, order, l);
        prealloc := prealloc[..|prealloc| - 1];
        assert State() == PopSpare(s);
      } else {
        l := AllocateLeaf();
        NewHeadOk(hf, s, view, Closed, order, l);
        pool := AddLeaf(pool, l);
        order := [l] + order;
        assert State() == NewHead(s, l);
      }
    }

    /** LeafFillSlotForKey: the slot of the key, or else an empty one. */
    method LeafFillSlotForKey(x: Ptr, k: Key, val: Value, ghost j: nat) returns (filled: bool)
      requires Valid() && tree.top != 0 && j < |view.chain| && x == view.chain[j] && IsTarget(view, k, j)
      requires x in nodes && |nodes[x].hashes| == |nodes[x].keys| == LEAF_KEYS
      modifies this`pool, this`nodes, this`log
      ensures filled ==> Valid() && Map() == old(Map())[k := val] && log == old(log) + [pool]
      ensures SameLeaves(old(State()), State())
      ensures !filled ==> pool == old(pool) && nodes == old(nodes) && log == old(log) && k !in Map() && Full(State(), x)
    {
      hide Inv, Contents;
      var slot := SlotForKey(x, k);
      SlotTakes(x, j, k, slot);
      filled := slot >= 0;
      if filled {
        InvIs(hf, State(), view, Closed, order);
        FillOk(hf, State(), view, Closed, order, 0, j, slot, k, val);
        FillSpecificSlot(x, slot, k, val);
        InvFrom(hf, State(), view, Closed, order);
        log := log + [pool];
      }
    }

    /** LeafFillSpecificSlot */
    method FillSpecificSlot(x: Ptr, slot: nat, k: Key, val: Value)
      requires x in nodes && slot < |SlotsOf(State(), x)| && slot < |nodes[x].hashes| && slot < |nodes[x].keys|
      modifies this`pool, this`nodes
      ensures State() == FillSlot(old(State()), x, slot, KV(hf(k), k, val)) && SameLeaves(old(State()), State())
    {
      var l := nodes[x].leaf;
      pool := SetSlots(pool, l, pool.leaves[l].slots[slot := Some(KV(hf(k), k, val))]);
      nodes := nodes[x := nodes[x].(hashes := nodes[x].hashes[slot := hf(k)], keys := nodes[x].keys[slot := k])];
    }

    /** The scan of LeafFillSlotForKey, from the last slot down. */
    method SlotForKey(x: Ptr, k: Key) returns (slot: int)
      requires x in nodes && |nodes[x].hashes| == |nodes[x].keys| == LEAF_KEYS
      ensures -1 <= slot < LEAF_KEYS
      ensures slot < 0 ==> forall i :: 0 <= i < LEAF_KEYS ==> !Matches(nodes[x], hf(k), k, i) && nodes[x].hashes[i] != 0
      ensures slot >= 0 && !Matches(nodes[x], hf(k), k, slot) ==>
                nodes[x].hashes[slot] == 0 && forall i :: 0 <= i < LEAF_KEYS ==> nodes[x].hashes[i] != 0 ==>
                    !Matches(nodes[x], hf(k), k, i)
      ensures slot >= 0 && !Matches(nodes[x], hf(k), k, slot) ==> forall i :: 0 <= i < slot ==> nodes[x].hashes[i] != 0
    {
      var node := nodes[x];
      var lastEmpty, match_ := -1, -1;
      var i := LEAF_KEYS;
      while i > 0
        invariant 0 <= i <= LEAF_KEYS && match_ == -1
        invariant lastEmpty == -1 || i <= lastEmpty < LEAF_KEYS
        invariant lastEmpty >= 0 ==> node.hashes[lastEmpty] == 0 && forall y :: i <= y < lastEmpty ==>
                    node.hashes[y] != 0
        invariant lastEmpty == -1 ==> forall y :: i <= y < LEAF_KEYS ==> node.hashes[y] != 0
        invariant forall y :: i <= y < LEAF_KEYS && node.hashes[y] != 0 ==> !Matches(node, hf(k), k, y)
      {
        i := i - 1;
        if node.hashes[i] == 0 {
          lastEmpty := i;
        } else if node.hashes[i] == hf(k) && node.keys[i] == k {
          match_ := i;
          break;
        }
      }
      slot := if match_ >= 0 then match_ else lastEmpty;
    }

    /** The slot chosen may take the pair; no slot is chosen only in a full leaf without the
        key. */
    lemma SlotTakes(x: Ptr, j: nat, k: Key, slot: int)
      requires Valid() && tree.top != 0 && j < |view.chain| && x == view.chain[j] && IsTarget(view, k, j)
      requires x in nodes && |nodes[x].hashes| == |nodes[x].keys| == LEAF_KEYS && -1 <= slot < LEAF_KEYS
      requires slot < 0 ==> forall i :: 0 <= i < LEAF_KEYS ==>
                 !Matches(nodes[x], hf(k), k, i) && nodes[x].hashes[i] != 0
      requires slot >= 0 && !Matches(nodes[x], hf(k), k, slot) ==>
                nodes[x].hashes[slot] == 0 && forall i :: 0 <= i < LEAF_KEYS ==> nodes[x].hashes[i] != 0 ==>
                    !Matches(nodes[x], hf(k), k, i)
      ensures slot >= 0 ==> Takes(State(), x, slot, k)
      ensures slot < 0 ==> k !in Map() && Full(State(), x)
    {
      hide Inv, Contents, IsTarget, ChainOk, ShapeOk;
      ghost var s := State();
      InvIs(hf, s, view, Closed, order);
      InvLeaf(hf, s, view, Closed, order, 0, j);
      KeyHere(hf, s, view, Closed, order, 0, j, k);
      forall i: nat | i < LEAF_KEYS
        ensures Matches(nodes[x], hf(k), k, i) <==> At(pool, nodes[x].leaf, i, k)
        ensures nodes[x].hashes[i] == 0 <==> SlotsOf(s, x)[i] == None
      {
        MatchIs(hf, nodes[x], SlotsOf(s, x), i, k);
      }
    }

    /** LeafSplitFull: the keys above the midpoint move to a new leaf, and the pair goes to
        the half where it belongs. */
    method LeafSplitFull(x: Ptr, k: Key, val: Value, ghost j: nat)
      requires Valid() && tree.top != 0 && j < |view.chain| && x == view.chain[j] && IsTarget(view, k, j)
      requires x in nodes && |nodes[x].keys| == LEAF_KEYS && k !in Map() && Full(State(), x)
      modifies this
      ensures Valid() && Map() == old(Map())[k := val] && log == old(log) + [pool]
      ensures OneMoreLeaf(old(State()), State())
    {
      hide Inv, InvT, Contents, ShapeOk, IsTarget, OpenView, Full, SplitNode, SameKeys, Distinct, HasRoom;
      KeysDiffer(hf, State(), view, order, j, k);
      var sorted := Sort(nodes[x].keys + [k]);
      SplitKeyOk(hf, State(), view, order, j, k, sorted);
      var splitKey := sorted[LEAF_MIDPOINT];
      var q := AllocateNode();
      ghost var s, v := State(), view;
      var l := TakeLeaf();
      ReadyToSplit(hf, s, State(), view, order, j, q, l, splitKey);
      RoomAfter(hf, State(), view, order, j, q, l, k, splitKey);
      SplitOk(hf, State(), view, order, j, q, l, splitKey);
      MoveUpper(x, q, l, splitKey);
      view := OpenView(v, j, q, splitKey);
      LeafFillEmptySlot(if k > splitKey then q else x, k, val, if k > splitKey then j + 1 else j, Open(x, q));
      log := log + [pool];
      s := State();
      OpenParts(hf, s, view, order, x, q);
      OpenedKey(v, j, q, splitKey);
      InnerUpdateAfterSplit(x, q, splitKey);
      ClosedAgain(hf, s, OpenView(v, j, q, splitKey), Open(x, q), order, State(), view);
    }

    /** The loop of LeafSplitFull over the slots, and the parent of the new node. */
    method MoveUpper(x: Ptr, q: Ptr, l: Ptr, splitKey: Key)
      requires x in nodes && nodes[x].leaf in pool.leaves && l in pool.leaves && nodes[x].leaf != l && q != x
      requires |pool.leaves[nodes[x].leaf].slots| == |nodes[x].keys| == |nodes[x].hashes| == LEAF_KEYS
      requires |pool.leaves[l].slots| == LEAF_KEYS && forall i :: 0 <= i < LEAF_KEYS ==> pool.leaves[l].slots[i] == None
      modifies this`pool, this`nodes, this`tree
      ensures State() == SplitNode(old(State()), x, q, l, splitKey) && SameLeaves(old(State()), State())
    {
      var node, fresh_ := nodes[x], NewNode(l);
      ghost var was, slots := node, pool.leaves[node.leaf].slots;
      var from_, to := pool.leaves[node.leaf].slots, pool.leaves[l].slots;
      var slot := LEAF_KEYS;
      while slot > 0
        invariant 0 <= slot <= LEAF_KEYS && node.leaf == was.leaf && fresh_.leaf == l
        invariant |from_| == |to| == |node.keys| == |node.hashes| == |fresh_.keys| == |fresh_.hashes| == LEAF_KEYS
        invariant forall i: nat :: i < LEAF_KEYS ==> MoveAt(was, slots, node, from_, fresh_, to, splitKey, i, slot)
      {
        ghost var node0, from0, fresh0, to0 := node, from_, fresh_, to;
        slot := slot - 1;
        assert MoveAt(was, slots, node, from_, fresh_, to, splitKey, slot, slot + 1);
        if node.keys[slot] > splitKey {
          from_, to := from_[slot := to[slot]], to[slot := from_[slot]];
          fresh_ := fresh_.(hashes := fresh_.hashes[slot := node.hashes[slot]],
                            keys := fresh_.keys[slot := node.keys[slot]]);
          node := node.(hashes := node.hashes[slot := 0], keys := node.keys[slot := NO_KEY]);
        }
        forall i: nat | i < LEAF_KEYS ensures MoveAt(was, slots, node, from_, fresh_, to, splitKey, i, slot) {
          assert MoveAt(was, slots, node0, from0, fresh0, to0, splitKey, i, slot + 1);
        }
      }
      MovedAll(was, slots, node, from_, fresh_, to, splitKey, l);
      pool := SetSlots(SetSlots(pool, node.leaf, from_), l, to);
      nodes := nodes[x := node][q := fresh_];
      tree := tree.(parents := tree.parents[q := tree.Parent(x)]);
    }

    /** LeafFillEmptySlot */
    method LeafFillEmptySlot(x: Ptr, k: Key, val: Value, ghost j: nat, ghost g: Gap)
      requires Inv(hf, State(), view, g, order) && tree.top != 0 && j < |view.chain| && x == view.chain[j]
      requires IsTarget(view, k, j) && k !in Map() && x in nodes && HasRoom(nodes[x])
      modifies this`pool, this`nodes
      ensures Inv(hf, State(), view, g, order) && Map() == old(Map())[k := val]
      ensures SameLeaves(old(State()), State())
    {
      hide Inv, InvT, Contents, ShapeOk, IsTarget;
      var slot := LEAF_KEYS - 1;
      while nodes[x].hashes[slot] != 0
        invariant 0 <= slot < LEAF_KEYS && exists i :: 0 <= i <= slot && nodes[x].hashes[i] == 0
        decreases slot
      {
        slot := slot - 1;
      }
      EmptyTakes(hf, State(), view, g, order, j, slot, k);
      InvIs(hf, State(), view, g, order);
      FillOk(hf, State(), view, g, order, 0, j, slot, k, val);
      FillSpecificSlot(x, slot, k, val);
      InvFrom(hf, State(), view, g, order);
    }

    // ---------------------------------------------------------- remove

    /** remove: the volatile copies are cleared first, then the slot in a transaction. */
    method Remove(k: Key) returns (found: bool)
      requires Valid()
      modifies this
      ensures Valid() && Map() == old(Map()) - {k} && found == (k in old(Map()))
      ensures if found then log == old(log) + [pool] else pool == old(pool) && log == old(log)
      ensures SameLeaves(old(State()), State())
    {
      hide Inv, InvT, Contents, ShapeOk, IsTarget;
      var x, j := LeafSearch(k);
      if x == 0 {
        NothingStored();
        return false;
      }
      NodeSized(x, j);
      var slot := FindKey(x, k);
      FoundIs(x, j, k, slot);
      if slot < 0 {
        assert Map() - {k} == Map();
        return false;
      }
      ghost var s := State();
      InvIs(hf, s, view, Closed, order);
      ClearOk(hf, s, view, Closed, order, 0, j, slot, k);
      var node := nodes[x];
      nodes := nodes[x := node.(hashes := node.hashes[slot := 0], keys := node.keys[slot := NO_KEY])];
      pool := SetSlots(pool, node.leaf, pool.leaves[node.leaf].slots[slot := None]);
      assert State() == ClearSlot(s, x, slot);
      InvFrom(hf, State(), view, Closed, order);
      log := log + [pool];
      return true;
    }

    // ---------------------------------------------------------- recovery

    /** Recover: rebuilds the tree from the persistent leaves alone. */
    method Recover()
      requires PersistOk(hf, pool, order)
      modifies this`tree, this`nodes, this`prealloc, this`view
      ensures Valid()
    {
      hide PersistOk, Found, ShapeOk, Inv, SameRecs, SortedRecs, DistinctNodes, Chained;
      var leaves := ReadLeaves();
      leaves := SortLeaves(leaves);
      if leaves == [] {
        tree := Tree(map[], map[], 0);
      } else {
        BuildTree(leaves);
      }
      RecoveredOk(hf, State(), view, order, leaves);
    }

    /** The traversal of the list: a node for every leaf that is not empty. */
    method ReadLeaves() returns (leaves: seq<Rec>)
      requires PersistOk(hf, pool, order)
      modifies this`nodes, this`prealloc, this`tree
      ensures Found(hf, pool, order, nodes, leaves, prealloc) && DistinctNodes(leaves) && tree.inners == map[]
    {
      hide PersistOk, Found, Mirrors;
      tree := Tree(map[], map[], 0);
      nodes, prealloc, leaves := map[], [], [];
      var p := pool.head;
      ghost var n := 0;
      FoundNone(hf, pool);
      ListStart(hf, pool, order);
      assert order[..0] == [];
      while p != 0
        invariant n <= |order| && p == (if n < |order| then order[n] else 0) && (n < |order| ==> p != 0)
        invariant Found(hf, pool, order[..n], nodes, leaves, prealloc) && tree.inners == map[]
        decreases |order| - n
      {
        ListNext(hf, pool, order, n);
        var node, empty, max := ReadLeaf(p);
        assert order[..n + 1] == order[..n] + [p];
        if empty {
          FoundEmpty(hf, pool, order[..n], nodes, leaves, prealloc, p);
          prealloc := prealloc + [p];
        } else {
          var x := AllocateNode();
          FoundLeaf(hf, pool, order[..n], nodes, leaves, prealloc, p, x, node, max);
          nodes := nodes[x := node];
          leaves := leaves + [Rec(x, max)];
        }
        p := pool.leaves[p].next;
        n := n + 1;
      }
      assert order[..n] == order;
      FoundDistinct(hf, pool, order, nodes, leaves, prealloc);
    }

    /** One leaf: hashes and keys, whether it is empty, and its highest key. */
    method ReadLeaf(p: Ptr) returns (node: LeafNode, empty: bool, max: Key)
      requires PersistOk(hf, pool, order) && p in pool.leaves
      ensures empty ==> pool.leaves[p].slots == EmptySlots()
      ensures !empty ==> node.leaf == p && Mirrors(hf, node, pool.leaves[p].slots) && IsMax(pool.leaves[p].slots, max)
    {
      ghost var slots := pool.leaves[p].slots;
      GoodLeaf(hf, pool, order, p);
      hide PersistOk;
      node, empty, max := NewNode(p), true, NO_KEY;
      var slot := LEAF_KEYS;
      while slot > 0
        invariant 0 <= slot <= LEAF_KEYS && node.leaf == p && |node.hashes| == |node.keys| == LEAF_KEYS
        invariant forall i :: 0 <= i < slot ==> node.hashes[i] == 0
        invariant forall i :: slot <= i < LEAF_KEYS ==> MirrorAt(hf, node.hashes[i], node.keys[i], slots[i])
        invariant empty ==> forall i :: slot <= i < LEAF_KEYS ==> slots[i] == None
        invariant !empty ==> exists i :: slot <= i < LEAF_KEYS && slots[i].Some? && slots[i].value.key == max
        invariant !empty ==> forall i :: slot <= i < LEAF_KEYS && slots[i].Some? ==> slots[i].value.key <= max
      {
        slot := slot - 1;
        var kvslot := pool.leaves[p].slots[slot];
        if kvslot.Some? && kvslot.value.hash != 0 {
          var key := kvslot.value.key;
          if empty {
            max, empty := key, false;
          } else if max < key {
            max := key;
          }
          node := node.(hashes := node.hashes[slot := kvslot.value.hash], keys := node.keys[slot := key]);
        }
      }
      assert empty ==> slots == EmptySlots();
    }

    /** std::list::sort by the highest key. */
    method SortLeaves(leaves: seq<Rec>) returns (s: seq<Rec>)
      requires Found(hf, pool, order, nodes, leaves, prealloc) && DistinctNodes(leaves)
      ensures Found(hf, pool, order, nodes, s, prealloc) && SortedRecs(s) && |s| == |leaves|
    {
      hide Found;
      s := [];
      for i := 0 to |leaves|
        invariant SortedRecs(s) && SameRecs(s, leaves[..i]) && DistinctNodes(s)
      {
        var p := |s|;
        while p > 0 && s[p - 1].max > leaves[i].max
          invariant 0 <= p <= |s| && forall y :: p <= y < |s| ==> leaves[i].max < s[y].max
        {
          p := p - 1;
        }
        InsertRec(s, leaves, i, p);
        s := s[..p] + [leaves[i]] + s[p..];
      }
      assert leaves[..|leaves|] == leaves;
      FoundSorted(hf, pool, order, nodes, leaves, prealloc, s);
    }

    /** Inner nodes over adjacent recovered leaves: each next leaf is split off the last one
        at the highest key of that. */
    method BuildTree(leaves: seq<Rec>)
      requires PersistOk(hf, pool, order) && Found(hf, pool, order, nodes, leaves, prealloc) && SortedRecs(leaves)
      requires leaves != [] && tree.inners == map[]
      modifies this`tree, this`view
      ensures ShapeOk(tree, view, Closed) && tree.top != 0 && tree.inners.Keys !! nodes.Keys
      ensures Chained(view, leaves, |leaves|)
    {
      hide PersistOk, Found, ShapeOk, SortedRecs, Chained, OpenView;
      var first := leaves[0].node;
      RecNode(hf, pool, order, nodes, leaves, prealloc, 0);
      tree := Tree(map[], map[first := 0], first);
      view := FirstView(first);
      SingleLeaf(first);
      ChainFirst(leaves);
      var n := 1;
      while n < |leaves|
        invariant 1 <= n <= |leaves| && Chained(view, leaves, n)
        invariant ShapeOk(tree, view, Closed) && tree.top != 0 && tree.inners.Keys !! nodes.Keys
      {
        AppendLeaf(leaves, n);
        n := n + 1;
      }
    }

    method AppendLeaf(leaves: seq<Rec>, n: nat)
      requires PersistOk(hf, pool, order) && Found(hf, pool, order, nodes, leaves, prealloc) && SortedRecs(leaves)
      requires 1 <= n < |leaves| && Chained(view, leaves, n)
      requires ShapeOk(tree, view, Closed) && tree.top != 0 && tree.inners.Keys !! nodes.Keys
      modifies this`tree, this`view
      ensures ShapeOk(tree, view, Closed) && tree.top != 0 && tree.inners.Keys !! nodes.Keys
      ensures Chained(view, leaves, n + 1)
    {
      hide PersistOk, Found, ShapeOk, SortedRecs, Chained, OpenView, Between;
      var splitKey, prev, next := leaves[n - 1].max, leaves[n - 1].node, leaves[n].node;
      ghost var v := view;
      NextReady(hf, pool, order, nodes, leaves, prealloc, tree, v, n);
      OpenOk(tree, v, n - 1, next, splitKey);
      ChainNext(v, leaves, n);
      OpenedKey(v, n - 1, next, splitKey);
      ChainInNodes(hf, pool, order, nodes, leaves, prealloc, OpenView(v, n - 1, next, splitKey), n + 1);
      tree := tree.(parents := tree.parents[next := tree.Parent(prev)]);
      view := OpenView(v, n - 1, next, splitKey);
      InnerUpdateAfterSplit(prev, next, splitKey);
      SameChained(OpenView(v, n - 1, next, splitKey), view, leaves, n + 1);
    }

    // ---------------------------------------------------------- inner nodes

    /** InnerUpdateAfterSplit: the parent takes the new node, and is split in turn when it has
        five keys; a split top gets a new top. */
    method InnerUpdateAfterSplit(node: Ptr, q: Ptr, key: Key)
      requires ShapeOk(tree, view, Open(node, q)) && view.Lo(q) < |view.seps| && key == view.seps[view.Lo(q)]
      requires tree.inners.Keys !! nodes.Keys && (forall c :: c in view.chain ==> c in nodes)
      modifies this`tree, this`view
      ensures ShapeOk(tree, view, Closed) && tree.top != 0 && tree.inners.Keys !! nodes.Keys
      ensures view.chain == old(view.chain) && view.seps == old(view.seps)
      decreases |view.chain| - (view.Hi(q) - view.Lo(node))
    {
      hide ShapeOk, Attach, Halve, Raise, HalveView, RaiseView, InnerOk;
      if tree.Parent(node) == 0 {
        var r := AllocateNode();
        assert Raises(tree, view, node, q, r, key);
        RaiseOk(tree, view, node, q, r, key);
        RaiseIs(tree, view, node, q, r, key);
        tree, view := Raise(tree, node, q, r, key), RaiseView(view, node, r);
        return;
      }
      var inner := tree.Parent(node);
      ghost var i := ClosesFrom(tree, view, node, q, key);
      ClosesFacts(tree, view, node, q, inner, i, key);
      var idx := PlaceFor(inner, key);
      OnePlaceFor(tree, view, node, q, inner, i, key, idx);
      CloseOk(tree, view, node, q, inner, i, key);
      Wider(tree, view, node, q, inner, i, key);
      AttachIs(tree, inner, idx, key, q);
      tree := Attach(tree, inner, idx, key, q);
      if tree.inners[inner].keycount <= INNER_KEYS {
        TopThere(tree, view, Closed);
        return;
      }
      var o := AllocateNode();
      assert Halves(tree, view, inner, o);
      HalveOk(tree, view, inner, o);
      HalveIs(tree, view, inner, o);
      var newKey := tree.inners[inner].keys[MIDPOINT];
      tree, view := Halve(tree, inner, o), HalveView(tree, view, inner, o);
      InnerUpdateAfterSplit(inner, o, newKey);
    }

    /** The search for the place of a key among an inner node's keys. */
    method PlaceFor(n: Ptr, key: Key) returns (idx: nat)
      requires n in tree.inners && tree.inners[n].keycount <= |tree.inners[n].keys|
      ensures idx <= tree.inners[n].keycount && (forall x :: 0 <= x < idx ==> tree.inners[n].keys[x] <= key)
      ensures idx < tree.inners[n].keycount ==> key < tree.inners[n].keys[idx]
    {
      var inner := tree.inners[n];
      idx := 0;
      while idx < inner.keycount && inner.keys[idx] <= key
        invariant idx <= inner.keycount && forall x :: 0 <= x < idx ==> inner.keys[x] <= key
      {
        idx := idx + 1;
      }
    }
  }

  /** No leaf has come into use, and none has been allocated. */
  predicate SameLeaves(s: St, s': St) {
    s'.pool.leaves.Keys == s.pool.leaves.Keys && s'.prealloc == s.prealloc
  }

  /** One more leaf is in use: the last spare one, and a new one only if there was none. */
  ghost predicate OneMoreLeaf(s: St, s': St) {
    if s.prealloc != [] then
      s'.pool.leaves.Keys == s.pool.leaves.Keys && s'.prealloc == s.prealloc[..|s.prealloc| - 1]
    else
      s'.prealloc == [] && exists l :: l !in s.pool.leaves && s'.pool.leaves.Keys == s.pool.leaves.Keys + {l}
  }

  /** A slot whose hash and key match. */
  predicate Matches(node: LeafNode, hash: nat, k: Key, i: int)
    requires |node.hashes| == |node.keys|
  {
    0 <= i < |node.hashes| && node.hashes[i] == hash && node.keys[i] == k
  }

  /** The volatile copies tell what the persistent slot holds. */
  lemma MatchIs(hf: Key -> nat, node: LeafNode, slots: Slots, i: nat, k: Key)
    requires HashOk(hf) && Mirrors(hf, node, slots) && i < LEAF_KEYS
    ensures Matches(node, hf(k), k, i) <==> slots[i].Some? && slots[i].value.key == k
    ensures node.hashes[i] == 0 <==> slots[i] == None
  {
    assert MirrorAt(hf, node.hashes[i], node.keys[i], slots[i]);
  }

  lemma SpareNotNull(hf: Key -> nat, s: St, v: View, order: seq<Ptr>, l: Ptr)
    requires Inv(hf, s, v, Closed, order) && l in s.prealloc
    ensures l != 0
  {
    hide ShapeOk, ListOk, LeavesOk;
    LeafNotNull(s.pool, order, l);
  }

  lemma InvFrom(hf: Key -> nat, s: St, v: View, g: Gap, order: seq<Ptr>)
    requires InvT(hf, s, v, g, order, 0)
    ensures Inv(hf, s, v, g, order)
  {
  }

  /** The first slot of the first leaf is free, and every key belongs there. */
  lemma FirstSlot(hf: Key -> nat, s: St, v: View, order: seq<Ptr>, x: Ptr, k: Key)
    requires Inv(hf, s, v, Closed, order) && s.tree.top != 0 && v == FirstView(x) && x in s.nodes
    requires Contents(s.pool) == map[]
    ensures IsTarget(v, k, 0) && |s.nodes[x].hashes| == |s.nodes[x].keys| == LEAF_KEYS && Takes(s, x, 0, k)
  {
    hide Contents, ShapeOk, ListOk;
    assert LeafOk(hf, s, v, 0);
    InvDistinct(hf, s, v, Closed, order, 0);
    if SlotsOf(s, x)[0].Some? {
      assert At(s.pool, s.nodes[x].leaf, 0, SlotsOf(s, x)[0].value.key);
      AbsentKey(s.pool, SlotsOf(s, x)[0].value.key);
    }
  }

  // ------------------------------------------------------------ the split of a full leaf

  lemma FullKeys(hf: Key -> nat, s: St, v: View, order: seq<Ptr>, j: nat)
    requires Inv(hf, s, v, Closed, order) && s.tree.top != 0 && j < |v.chain| && Full(s, v.chain[j])
    ensures var x, slots := v.chain[j], SlotsOf(s, v.chain[j]);
            && |s.nodes[x].keys| == |slots| == LEAF_KEYS && NoDoubles(slots)
            && forall i :: 0 <= i < LEAF_KEYS ==>
                 slots[i].Some? && s.nodes[x].keys[i] == slots[i].value.key && IsTarget(v, s.nodes[x].keys[i], j)
  {
    hide ShapeOk, ListOk, IsTarget, NoDoubles;
    assert LeafOk(hf, s, v, j);
    var x := v.chain[j];
    forall i | 0 <= i < LEAF_KEYS ensures s.nodes[x].keys[i] == SlotsOf(s, x)[i].value.key {
      assert MirrorAt(hf, s.nodes[x].hashes[i], s.nodes[x].keys[i], SlotsOf(s, x)[i]);
    }
  }

  lemma KeysDiffer(hf: Key -> nat, s: St, v: View, order: seq<Ptr>, j: nat, k: Key)
    requires Inv(hf, s, v, Closed, order) && s.tree.top != 0 && j < |v.chain| && Full(s, v.chain[j])
    requires IsTarget(v, k, j) && k !in Contents(s.pool) && v.chain[j] in s.nodes
    ensures |s.nodes[v.chain[j]].keys + [k]| == LEAF_KEYS + 1 && Distinct(s.nodes[v.chain[j]].keys + [k])
    ensures forall y :: y in s.nodes[v.chain[j]].keys + [k] ==> IsTarget(v, y, j)
  {
    hide Inv, Contents, IsTarget, AllDistinct;
    var x := v.chain[j];
    var keys := s.nodes[x].keys;
    FullKeys(hf, s, v, order, j);
    InvIs(hf, s, v, Closed, order);
    InvDistinct(hf, s, v, Closed, order, 0);
    AbsentKey(s.pool, k);
    forall i | 0 <= i < LEAF_KEYS ensures keys[i] != k {
      assert At(s.pool, s.nodes[x].leaf, i, keys[i]);
    }
  }

  /** Some key of the leaf goes to the half that does not get the new key. */
  ghost predicate Movable(keys: seq<Key>, sk: Key, k: Key) {
    exists i :: 0 <= i < |keys| && (if k > sk then keys[i] <= sk else keys[i] > sk)
  }

  /** The key at the midpoint: it lies between the separators around the leaf, 24 of the 49
      keys are above it, and either half keeps or gets an empty slot. */
  lemma SplitKeyOk(hf: Key -> nat, s: St, v: View, order: seq<Ptr>, j: nat, k: Key, sorted: seq<Key>)
    requires Inv(hf, s, v, Closed, order) && s.tree.top != 0 && j < |v.chain| && Full(s, v.chain[j])
    requires IsTarget(v, k, j) && k !in Contents(s.pool) && v.chain[j] in s.nodes
    requires Sorted(sorted) && Distinct(sorted) && SameKeys(sorted, s.nodes[v.chain[j]].keys + [k])
    ensures |sorted| == LEAF_KEYS + 1 && j < |v.seps| && Between(v, j, sorted[LEAF_MIDPOINT])
    ensures Movable(s.nodes[v.chain[j]].keys, sorted[LEAF_MIDPOINT], k)
    ensures CountAbove(s.nodes[v.chain[j]].keys + [k], sorted[LEAF_MIDPOINT]) == LEAF_KEYS - LEAF_MIDPOINT
  {
    hide Inv, Contents, Full, Sorted, Distinct, SameKeys;
    var keys := s.nodes[v.chain[j]].keys;
    KeysDiffer(hf, s, v, order, j, k);
    SameSize(sorted, keys + [k]);
    Midpoint(sorted, keys + [k]);
    var sk := sorted[LEAF_MIDPOINT];
    assert IsTarget(v, sk, j) && IsTarget(v, sorted[LEAF_KEYS], j);
    var other := if k > sk then sorted[0] else sorted[LEAF_KEYS];
    assert other in keys + [k] && other != k;
    var i :| 0 <= i < |keys + [k]| && (keys + [k])[i] == other;
    assert keys[i] == other;
  }

  lemma SameSize(s: seq<Key>, keys: seq<Key>)
    requires SameKeys(s, keys)
    ensures |s| == |keys|
  {
  }

  lemma ReadyToSplit(hf: Key -> nat, s: St, s': St, v: View, order: seq<Ptr>, j: nat, q: Ptr, l: Ptr, sk: Key)
    requires InvT(hf, s', v, Closed, order, l) && l != 0 && s'.tree == s.tree && s'.nodes == s.nodes && s.tree.top != 0
    requires forall p :: p in s.pool.leaves ==> p in s'.pool.leaves && s'.pool.leaves[p].slots == s.pool.leaves[p].slots
    requires j < |v.chain| && Full(s, v.chain[j]) && j < |v.seps| && Between(v, j, sk)
    requires q != 0 && q !in s.tree.inners && q !in s.nodes
    ensures Splits(hf, s', v, order, j, q, l, sk)
    ensures var x := v.chain[j];
            && x in s'.nodes && s'.nodes[x].leaf in s'.pool.leaves && l in s'.pool.leaves && s'.nodes[x].leaf != l
            && q != x
            && |s'.pool.leaves[s'.nodes[x].leaf].slots| == |s'.nodes[x].keys| == |s'.nodes[x].hashes| == LEAF_KEYS
            && |s'.pool.leaves[l].slots| == LEAF_KEYS
            && forall i :: 0 <= i < LEAF_KEYS ==> s'.pool.leaves[l].slots[i] == None
  {
    hide InvT, ChainOk, ShapeOk;
    InvNodes(hf, s', v, Closed, order, l);
    InvLeaf(hf, s', v, Closed, order, l, j);
    SepSize(v);
    SplitLeafFacts(hf, s', v, order, j, q, l, sk);
  }

  /** A leaf node with an empty slot. */
  ghost predicate HasRoom(node: LeafNode) {
    |node.hashes| == |node.keys| == LEAF_KEYS && exists i :: 0 <= i < LEAF_KEYS && node.hashes[i] == 0
  }

  /** After the split the half to which the key belongs has an empty slot. */
  lemma RoomAfter(hf: Key -> nat, s: St, v: View, order: seq<Ptr>, j: nat, q: Ptr, l: Ptr, k: Key, sk: Key)
    requires Splits(hf, s, v, order, j, q, l, sk) && IsTarget(v, k, j) && v.chain[j] in s.nodes
    requires Movable(s.nodes[v.chain[j]].keys, sk, k) && |s.nodes[v.chain[j]].keys| == LEAF_KEYS
    ensures |SlotsOf(s, v.chain[j])| == |s.nodes[v.chain[j]].keys| == |s.nodes[v.chain[j]].hashes|
    ensures var s', v' := SplitNode(s, v.chain[j], q, l, sk), OpenView(v, j, q, sk);
            var x, y := if k > sk then q else v.chain[j], if k > sk then j + 1 else j;
            && y < |v'.chain| && v'.chain[y] == x && x in s'.nodes && IsTarget(v', k, y) && HasRoom(s'.nodes[x])
            && s'.tree.top == s.tree.top
  {
    hide InvT, OpenView, IsTarget, ChainOk, ShapeOk, KeptSlots, MovedSlots;
    SplitLeafFacts(hf, s, v, order, j, q, l, sk);
    OpenSeqs(v, j, q, sk);
    assert Up(j, j) == j;
    TargetAfter(v, j, q, sk, k, j);
    var keys := s.nodes[v.chain[j]].keys;
    var i :| 0 <= i < |keys| && (if k > sk then keys[i] <= sk else keys[i] > sk);
    var s' := SplitNode(s, v.chain[j], q, l, sk);
    assert s'.nodes[if k > sk then q else v.chain[j]].hashes[i] == 0;
  }

  /** One slot before or after the loop has passed it. */
  ghost predicate MoveAt(was: LeafNode, slots: Slots, node: LeafNode, from_: Slots, fresh_: LeafNode, to: Slots,
                         sk: Key, i: nat, slot: nat)
    requires i < |was.keys| && i < |was.hashes| && i < |slots| && i < |node.keys| && i < |node.hashes| && i < |from_|
    requires i < |fresh_.keys| && i < |fresh_.hashes| && i < |to|
  {
    if i >= slot && was.keys[i] > sk then
      && node.keys[i] == NO_KEY && node.hashes[i] == 0 && from_[i] == None
      && fresh_.keys[i] == was.keys[i] && fresh_.hashes[i] == was.hashes[i] && to[i] == slots[i]
    else
      && node.keys[i] == was.keys[i] && node.hashes[i] == was.hashes[i] && from_[i] == slots[i]
      && fresh_.keys[i] == NO_KEY && fresh_.hashes[i] == 0 && to[i] == None
  }

  lemma MovedAll(was: LeafNode, slots: Slots, node: LeafNode, from_: Slots, fresh_: LeafNode, to: Slots, sk: Key,
                 l: Ptr)
    requires |was.keys| == |was.hashes| == |slots| == LEAF_KEYS && node.leaf == was.leaf && fresh_.leaf == l
    requires |from_| == |to| == |node.keys| == |node.hashes| == |fresh_.keys| == |fresh_.hashes| == LEAF_KEYS
    requires forall i: nat :: i < LEAF_KEYS ==> MoveAt(was, slots, node, from_, fresh_, to, sk, i, 0)
    ensures from_ == KeptSlots(was, slots, sk) && to == MovedSlots(was, slots, sk)
    ensures node == KeptNode(was, sk) && fresh_ == MovedNode(was, sk, l)
  {
    forall i: nat | i < LEAF_KEYS
      ensures from_[i] == KeptSlots(was, slots, sk)[i] && to[i] == MovedSlots(was, slots, sk)[i]
      ensures node.keys[i] == KeptNode(was, sk).keys[i] && node.hashes[i] == KeptNode(was, sk).hashes[i]
      ensures fresh_.keys[i] == MovedNode(was, sk, l).keys[i] && fresh_.hashes[i] == MovedNode(was, sk, l).hashes[i]
    {
      assert MoveAt(was, slots, node, from_, fresh_, to, sk, i, 0);
    }
    assert node.keys == KeptNode(was, sk).keys && node.hashes == KeptNode(was, sk).hashes;
    assert fresh_.keys == MovedNode(was, sk, l).keys && fresh_.hashes == MovedNode(was, sk, l).hashes;
  }

  lemma EmptyTakes(hf: Key -> nat, s: St, v: View, g: Gap, order: seq<Ptr>, j: nat, slot: nat, k: Key)
    requires Inv(hf, s, v, g, order) && s.tree.top != 0 && j < |v.chain| && v.chain[j] in s.nodes
    requires slot < LEAF_KEYS == |s.nodes[v.chain[j]].hashes| == |s.nodes[v.chain[j]].keys|
    requires s.nodes[v.chain[j]].hashes[slot] == 0 && k !in Contents(s.pool)
    ensures Takes(s, v.chain[j], slot, k)
  {
    hide Inv, Contents, ShapeOk;
    InvIs(hf, s, v, g, order);
    InvLeaf(hf, s, v, g, order, 0, j);
    MatchIs(hf, s.nodes[v.chain[j]], SlotsOf(s, v.chain[j]), slot, k);
  }

  lemma OpenParts(hf: Key -> nat, s: St, v: View, order: seq<Ptr>, x: Ptr, q: Ptr)
    requires Inv(hf, s, v, Open(x, q), order) && s.tree.top != 0
    ensures ShapeOk(s.tree, v, Open(x, q)) && s.tree.inners.Keys !! s.nodes.Keys && forall c :: c in v.chain ==>
              c in s.nodes
  {
    hide ShapeOk, ListOk, LeafOk;
  }

  lemma OpenedKey(v: View, j: nat, q: Ptr, sk: Key)
    requires j < |v.chain| == |v.seps|
    ensures var v' := OpenView(v, j, q, sk); v'.Lo(q) == j + 1 < |v'.seps| && v'.seps[j + 1] == sk
  {
  }

  /** With the gap closed and the leaves untouched, the whole state is in order. */
  lemma ClosedAgain(hf: Key -> nat, s: St, v: View, g: Gap, order: seq<Ptr>, s': St, v': View)
    requires Inv(hf, s, v, g, order) && s.tree.top != 0 && s' == s.(tree := s'.tree)
    requires ShapeOk(s'.tree, v', Closed) && s'.tree.top != 0 && s'.tree.inners.Keys !! s'.nodes.Keys
    requires v'.chain == v.chain && v'.seps == v.seps
    ensures Inv(hf, s', v', Closed, order)
  {
    hide ShapeOk, ListOk, Mirrors, NoDoubles;
    forall j | 0 <= j < |v'.chain| ensures LeafOk(hf, s', v', j) {
      assert LeafOk(hf, s, v, j);
      SameBelong(SlotsOf(s, v.chain[j]), v, v', j);
    }
    assert forall p :: Used(s', p) <==> Used(s, p);
  }

  lemma SameBelong(slots: Slots, v: View, v': View, j: nat)
    requires v'.seps == v.seps && KeysBelong(slots, v, j)
    ensures KeysBelong(slots, v', j)
  {
  }

  // ------------------------------------------------------------ the steps of InnerUpdateAfterSplit

  lemma RaiseIs(t: Tree, v: View, p: Ptr, q: Ptr, r: Ptr, key: Key)
    ensures var t', v' := Raise(t, p, q, r, key), RaiseView(v, p, r);
            && t'.top == r && t'.inners.Keys == t.inners.Keys + {r} && v'.chain == v.chain && v'.seps == v.seps
  {
  }

  lemma HalveIs(t: Tree, v: View, n: Ptr, o: Ptr)
    requires Halves(t, v, n, o)
    ensures var t', v' := Halve(t, n, o), HalveView(t, v, n, o);
            && t'.top == t.top && t'.inners.Keys == t.inners.Keys + {o} && v'.chain == v.chain && v'.seps == v.seps
            && v'.Hi(o) == v.Hi(n) && v'.Lo(n) == v.Lo(n)
  {
    hide ShapeOk;
    HalveInners(t, v, n, o, n);
    HalvedNode(t, v, n, o, n);
    AnyFresh(t, v, n, o);
  }

  lemma AnyFresh(t: Tree, v: View, n: Ptr, o: Ptr)
    requires Halves(t, v, n, o)
    ensures n != o
  {
  }

  lemma AttachIs(t: Tree, n: Ptr, i: nat, key: Key, q: Ptr)
    requires n in t.inners && i <= t.inners[n].keycount <= INNER_KEYS && Sized(t.inners[n])
    ensures var t' := Attach(t, n, i, key, q);
            && t'.inners.Keys == t.inners.Keys && t'.top == t.top
            && Sized(t'.inners[n]) && t'.inners[n].keycount == t.inners[n].keycount + 1
            && Rest(t, n) == if t'.inners[n].keycount <= INNER_KEYS then Closed else Over(n)
  {
    InsertChildAt(t.inners[n], i, key, q);
  }

  /** A split node with a parent is one of its parent's children. */
  lemma ClosesFrom(t: Tree, v: View, p: Ptr, q: Ptr, key: Key) returns (i: nat)
    requires ShapeOk(t, v, Open(p, q)) && t.Parent(p) != 0 && v.Lo(q) < |v.seps| && key == v.seps[v.Lo(q)]
    ensures Closes(t, v, p, q, t.Parent(p), i, key)
  {
    hide ShapeOk, InnerOk, ChainOk;
    Pieces(t, v, Open(p, q));
    assert ParentOk(t, Open(p, q), p);
    i :| IsKid(t, t.Parent(p), i, p);
    AnInner(t, v, Open(p, q), t.Parent(p));
    InnerFacts(t, v, Open(p, q), t.Parent(p));
  }

  /** The place found by the search is that of the split child. */
  lemma OnePlaceFor(t: Tree, v: View, p: Ptr, q: Ptr, n: Ptr, i: nat, key: Key, idx: nat)
    requires Closes(t, v, p, q, n, i, key) && idx <= t.inners[n].keycount
    requires forall x :: 0 <= x < idx ==> t.inners[n].keys[x] <= key
    requires idx < t.inners[n].keycount ==> key < t.inners[n].keys[idx]
    ensures idx == i
  {
    hide ShapeOk;
    if idx < i { PlaceIs(t, v, p, q, n, i, key, idx); }
    if i < idx { PlaceIs(t, v, p, q, n, i, key, i); }
  }

  /** The parent covers more leaves than the split node. */
  lemma Wider(t: Tree, v: View, p: Ptr, q: Ptr, n: Ptr, i: nat, key: Key)
    requires Closes(t, v, p, q, n, i, key)
    ensures v.Hi(n) - v.Lo(n) > v.Hi(q) - v.Lo(p) && v.Hi(n) <= |v.chain|
  {
    hide ShapeOk, InnerOk, ChainOk;
    ClosesFacts(t, v, p, q, n, i, key);
    InnerFacts(t, v, Open(p, q), n);
    KidFrom(t, v, Open(p, q), n, i);
    KidTo(t, v, Open(p, q), n, i);
  }

  lemma TopThere(t: Tree, v: View, g: Gap)
    requires ShapeOk(t, v, g)
    ensures t.top != 0
  {
    hide InnerOk, ParentOk, ChainOk;
    Pieces(t, v, g);
    if t.top in t.inners { NotChained(t, v, g, t.top); } else { ChainNotNull(v, t.top); }
  }

  lemma ChainNotNull(v: View, x: Ptr)
    requires ChainOk(v) && x in v.chain
    ensures x != 0
  {
    var j :| 0 <= j < |v.chain| && v.chain[j] == x;
    assert LeafAt(v, j);
  }

  // ------------------------------------------------------------ recovery

  lemma ListStart(hf: Key -> nat, pool: Pool, order: seq<Ptr>)
    requires PersistOk(hf, pool, order)
    ensures pool.head == (if 0 < |order| then order[0] else 0) && (0 < |order| ==> pool.head != 0)
  {
    hide SlotsGood, Apart;
    if |order| > 0 { assert LinkOk(pool, order, 0); }
  }

  lemma ListNext(hf: Key -> nat, pool: Pool, order: seq<Ptr>, n: nat)
    requires PersistOk(hf, pool, order) && n < |order|
    ensures var p := order[n];
            && p in pool.leaves && p !in order[..n]
            && pool.leaves[p].next == (if n + 1 < |order| then order[n + 1] else 0)
            && (n + 1 < |order| ==> pool.leaves[p].next != 0)
  {
    hide SlotsGood, Apart;
    assert LinkOk(pool, order, n);
    if n + 1 < |order| { assert LinkOk(pool, order, n + 1); }
  }

  lemma GoodLeaf(hf: Key -> nat, pool: Pool, order: seq<Ptr>, p: Ptr)
    requires PersistOk(hf, pool, order) && p in pool.leaves
    ensures SlotsGood(hf, pool.leaves[p].slots) && HashOk(hf)
  {
    hide ListOk, SlotsGood, Apart;
  }

  lemma FoundDistinct(hf: Key -> nat, pool: Pool, seen: seq<Ptr>, nodes: map<Ptr, LeafNode>, recs: seq<Rec>,
                      spare: seq<Ptr>)
    requires Found(hf, pool, seen, nodes, recs, spare)
    ensures DistinctNodes(recs)
  {
    hide RecOk, Listed;
  }

  lemma InsertRec(s: seq<Rec>, leaves: seq<Rec>, i: nat, p: nat)
    requires i < |leaves| && SortedRecs(s) && SameRecs(s, leaves[..i]) && DistinctNodes(s) && DistinctNodes(leaves)
    requires p <= |s|
    requires p > 0 ==> s[p - 1].max <= leaves[i].max
    requires forall y :: p <= y < |s| ==> leaves[i].max < s[y].max
    ensures var r := s[..p] + [leaves[i]] + s[p..];
            SortedRecs(r) && SameRecs(r, leaves[..i + 1]) && DistinctNodes(r)
  {
    hide SortedRecs, SameRecs, DistinctNodes;
    InsertSorted(s, leaves[i], p);
    InsertSame(s, leaves, i, p);
  }

  lemma InsertSorted(s: seq<Rec>, x: Rec, p: nat)
    requires SortedRecs(s) && p <= |s| && (p > 0 ==> s[p - 1].max <= x.max) && forall y :: p <= y < |s| ==>
               x.max < s[y].max
    ensures SortedRecs(s[..p] + [x] + s[p..])
  {
    var r := s[..p] + [x] + s[p..];
    assert forall y :: 0 <= y < p ==> s[y].max <= x.max;
    forall i, j | 0 <= i < j < |r| ensures r[i].max <= r[j].max {
      assert r[i] == (if i < p then s[i] else if i == p then x else s[i - 1]);
      assert r[j] == (if j < p then s[j] else if j == p then x else s[j - 1]);
    }
  }

  lemma InsertSame(s: seq<Rec>, leaves: seq<Rec>, i: nat, p: nat)
    requires i < |leaves| && SameRecs(s, leaves[..i]) && DistinctNodes(s) && DistinctNodes(leaves) && p <= |s|
    ensures SameRecs(s[..p] + [leaves[i]] + s[p..], leaves[..i + 1]) && DistinctNodes(s[..p] + [leaves[i]] + s[p..])
  {
    var x := leaves[i];
    var r := s[..p] + [x] + s[p..];
    assert s == s[..p] + s[p..] && leaves[..i + 1] == leaves[..i] + [x];
    assert forall y :: y in r <==> y in s || y == x;
    NewRec(s, leaves, i);
    forall a, b | 0 <= a < b < |r| ensures r[a].node != r[b].node {
      assert r[a] == (if a < p then s[a] else if a == p then x else s[a - 1]);
      assert r[b] == (if b < p then s[b] else if b == p then x else s[b - 1]);
    }
  }

  lemma NewRec(s: seq<Rec>, leaves: seq<Rec>, i: nat)
    requires i < |leaves| && SameRecs(s, leaves[..i]) && DistinctNodes(leaves)
    ensures forall y :: 0 <= y < |s| ==> s[y].node != leaves[i].node
  {
    forall y | 0 <= y < |s| ensures s[y].node != leaves[i].node {
      assert s[y] in s;
      var z :| 0 <= z < i && leaves[..i][z] == s[y];
      assert leaves[z] == s[y];
    }
  }

  lemma RecNode(hf: Key -> nat, pool: Pool, seen: seq<Ptr>, nodes: map<Ptr, LeafNode>, recs: seq<Rec>, spare: seq<Ptr>,
                i: nat)
    requires Found(hf, pool, seen, nodes, recs, spare) && i < |recs|
    ensures RecOk(hf, pool, nodes, recs[i]) && recs[i].node != 0 && recs[i].node in nodes
  {
    hide Listed, Mirrors, IsMax;
  }

  lemma ChainFirst(recs: seq<Rec>)
    requires recs != []
    ensures Chained(FirstView(recs[0].node), recs, 1)
  {
  }

  lemma SameChained(v: View, v': View, recs: seq<Rec>, n: nat)
    requires Chained(v, recs, n) && v'.chain == v.chain && v'.seps == v.seps
    ensures Chained(v', recs, n)
  {
  }

  lemma ChainInNodes(hf: Key -> nat, pool: Pool, seen: seq<Ptr>, nodes: map<Ptr, LeafNode>, recs: seq<Rec>,
                     spare: seq<Ptr>,
                     v: View, n: nat)
    requires Found(hf, pool, seen, nodes, recs, spare) && Chained(v, recs, n)
    ensures forall c :: c in v.chain ==> c in nodes
  {
    hide Found;
    forall c | c in v.chain ensures c in nodes {
      var i :| 0 <= i < |v.chain| && v.chain[i] == c;
      RecNode(hf, pool, seen, nodes, recs, spare, i);
    }
  }

  /** The next recovered leaf can be split off the last one. */
  lemma NextReady(hf: Key -> nat, pool: Pool, order: seq<Ptr>, nodes: map<Ptr, LeafNode>, recs: seq<Rec>,
                  spare: seq<Ptr>,
                  t: Tree, v: View, n: nat)
    requires PersistOk(hf, pool, order) && Found(hf, pool, order, nodes, recs, spare) && SortedRecs(recs)
    requires 1 <= n < |recs| && Chained(v, recs, n) && ShapeOk(t, v, Closed) && t.inners.Keys !! nodes.Keys
    ensures |v.chain| == |v.seps| == n && v.chain[n - 1] == recs[n - 1].node
    ensures Fresh(t, v, recs[n].node) && Between(v, n - 1, recs[n - 1].max)
  {
    hide PersistOk, Found, ShapeOk;
    RecNode(hf, pool, order, nodes, recs, spare, n);
    RecNode(hf, pool, order, nodes, recs, spare, n - 1);
    FoundDistinct(hf, pool, order, nodes, recs, spare);
    if n >= 2 {
      RecNode(hf, pool, order, nodes, recs, spare, n - 2);
      RecsApart(hf, pool, order, nodes, recs, spare, n - 2, n - 1);
      MaxOrder(hf, pool, order, nodes, recs[n - 2], recs[n - 1]);
    }
    forall i | 0 <= i < n ensures v.chain[i] != recs[n].node {}
  }

  lemma RecsApart(hf: Key -> nat, pool: Pool, seen: seq<Ptr>, nodes: map<Ptr, LeafNode>, recs: seq<Rec>,
                  spare: seq<Ptr>, i: nat, j: nat)
    requires Found(hf, pool, seen, nodes, recs, spare) && i < j < |recs|
    ensures recs[i].node in nodes && recs[j].node in nodes && nodes[recs[i].node].leaf != nodes[recs[j].node].leaf
  {
    hide Listed, Mirrors, IsMax;
    assert RecOk(hf, pool, nodes, recs[i]) && RecOk(hf, pool, nodes, recs[j]);
  }
}
