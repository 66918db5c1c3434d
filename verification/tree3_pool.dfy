/** The persistent part of tree3: an unordered linked list of leaves, each with 48 slots for
    a key-value pair, and the map it holds. */
module Tree3Pool {
  import opened Keys
  import opened Tree3Shape

  const LEAF_KEYS: nat := 48
  const LEAF_MIDPOINT: nat := 24

  /** The buffer of a KVSlot. A hash is never 0, which marks an empty slot. */
  datatype KV = KV(hash: nat, key: Key, value: Value)

  type Slots = seq<Option<KV>>

  datatype PLeaf = PLeaf(slots: Slots, next: Ptr)

  datatype Pool = Pool(leaves: map<Ptr, PLeaf>, head: Ptr)

  /** PearsonHash, of which only the range matters. */
  ghost predicate HashOk(hf: Key -> nat) {
    forall k :: 1 <= hf(k) < 256
  }

  // ------------------------------------------------------------ the list

  /** `order` lists the leaves along their next pointers. */
  ghost predicate ListOk(pool: Pool, order: seq<Ptr>) {
    && (forall p :: p in pool.leaves <==> p in order)
    && (forall i, j :: 0 <= i < j < |order| ==> order[i] != order[j])
    && pool.head == (if order == [] then 0 else order[0])
    && forall i :: 0 <= i < |order| ==> LinkOk(pool, order, i)
  }

  ghost predicate LinkOk(pool: Pool, order: seq<Ptr>, i: nat)
    requires i < |order|
  {
    && order[i] != 0 && order[i] in pool.leaves
    && pool.leaves[order[i]].next == (if i + 1 < |order| then order[i + 1] else 0)
  }

  function EmptySlots(): Slots {
    seq(LEAF_KEYS, _ => None)
  }

  /** A new leaf becomes the head of the list. */
  function AddLeaf(pool: Pool, p: Ptr): Pool {
    Pool(pool.leaves[p := PLeaf(EmptySlots(), pool.head)], p)
  }

  function SetSlots(pool: Pool, p: Ptr, slots: Slots): Pool {
    if p in pool.leaves then pool.(leaves := pool.leaves[p := pool.leaves[p].(slots := slots)]) else pool
  }

  lemma AddLeafList(pool: Pool, order: seq<Ptr>, p: Ptr)
    requires ListOk(pool, order) && p != 0 && p !in pool.leaves
    ensures ListOk(AddLeaf(pool, p), [p] + order)
  {
    var o, pool' := [p] + order, AddLeaf(pool, p);
    forall i | 0 <= i < |o| ensures LinkOk(pool', o, i) {
      if i > 0 { assert LinkOk(pool, order, i - 1); }
    }
  }

  lemma SetSlotsList(pool: Pool, order: seq<Ptr>, p: Ptr, slots: Slots)
    requires ListOk(pool, order)
    ensures ListOk(SetSlots(pool, p, slots), order)
  {
    forall i | 0 <= i < |order| ensures LinkOk(SetSlots(pool, p, slots), order, i) {
      assert LinkOk(pool, order, i);
    }
  }

  // ------------------------------------------------------------ the map

  /** Slot `i` of leaf `p` holds key `k`. */
  ghost predicate At(pool: Pool, p: Ptr, i: int, k: Key) {
    p in pool.leaves && 0 <= i < |pool.leaves[p].slots| && pool.leaves[p].slots[i].Some?
        && pool.leaves[p].slots[i].value.key == k
  }

  ghost predicate AtValue(pool: Pool, p: Ptr, i: int, k: Key, val: Value) {
    At(pool, p, i, k) && pool.leaves[p].slots[i].value.value == val
  }

  ghost predicate Has(pool: Pool, k: Key, val: Value) {
    exists p, i :: AtValue(pool, p, i, k, val)
  }

  /** No key is stored twice. */
  ghost predicate AllDistinct(pool: Pool) {
    forall p, i, q, j, k :: At(pool, p, i, k) && At(pool, q, j, k) ==> p == q && i == j
  }

  ghost function KeysIn(pool: Pool): set<Key> {
    set p, i | p in pool.leaves && 0 <= i < |pool.leaves[p].slots| && pool.leaves[p].slots[i].Some? ::
      pool.leaves[p].slots[i].value.key
  }

  ghost function ValueOf(pool: Pool, k: Key): Value {
    if exists val :: Has(pool, k, val) then var val :| Has(pool, k, val); val else []
  }

  /** The map that the leaves hold. */
  ghost function Contents(pool: Pool): map<Key, Value> {
    map k | k in KeysIn(pool) :: ValueOf(pool, k)
  }

  lemma HasOne(pool: Pool, k: Key, a: Value, b: Value)
    requires AllDistinct(pool) && Has(pool, k, a) && Has(pool, k, b)
    ensures a == b
  {
    var p, i :| AtValue(pool, p, i, k, a);
    var q, j :| AtValue(pool, q, j, k, b);
    assert At(pool, p, i, k) && At(pool, q, j, k);
  }

  lemma KeyHas(pool: Pool, k: Key)
    ensures k in KeysIn(pool) <==> exists val :: Has(pool, k, val)
  {
    if k in KeysIn(pool) {
      var p, i :| p in pool.leaves && 0 <= i < |pool.leaves[p].slots| && pool.leaves[p].slots[i].Some?
        && pool.leaves[p].slots[i].value.key == k;
      assert AtValue(pool, p, i, k, pool.leaves[p].slots[i].value.value);
      assert Has(pool, k, pool.leaves[p].slots[i].value.value);
    }
    if val :| Has(pool, k, val) {
      var p, i :| AtValue(pool, p, i, k, val);
      assert pool.leaves[p].slots[i].value.key in KeysIn(pool);
    }
  }

  lemma ContentsHas(pool: Pool, k: Key, val: Value)
    requires AllDistinct(pool)
    ensures Has(pool, k, val) <==> Lookup(Contents(pool), k) == Some(val)
  {
    hide AllDistinct, Has, KeysIn;
    KeyHas(pool, k);
    if k in KeysIn(pool) {
      var w :| Has(pool, k, w);
      HasOne(pool, k, w, ValueOf(pool, k));
      if Has(pool, k, val) { HasOne(pool, k, val, w); }
    }
  }

  /** What decides a pool's map. */
  lemma ContentsAre(pool: Pool, m: map<Key, Value>)
    requires AllDistinct(pool) && forall k, val :: Has(pool, k, val) <==> Lookup(m, k) == Some(val)
    ensures Contents(pool) == m
  {
    hide AllDistinct, Has, Contents;
    forall k ensures Lookup(Contents(pool), k) == Lookup(m, k) {
      if k in m { ContentsHas(pool, k, m[k]); }
      if k in Contents(pool) { ContentsHas(pool, k, Contents(pool)[k]); }
    }
    SameMap(Contents(pool), m);
  }

  /** The same pairs, perhaps in other places, are the same map. */
  lemma SamePairs(pool: Pool, pool': Pool)
    requires AllDistinct(pool) && AllDistinct(pool')
    requires forall k, val :: Has(pool, k, val) <==> Has(pool', k, val)
    ensures Contents(pool') == Contents(pool)
  {
    hide AllDistinct, Has, Contents;
    forall k, val ensures Has(pool', k, val) <==> Lookup(Contents(pool), k) == Some(val) {
      ContentsHas(pool, k, val);
    }
    ContentsAre(pool', Contents(pool));
  }

  /** Writing a pair over its key, or into an empty slot when no leaf has the key. */
  lemma SetPair(pool: Pool, p: Ptr, i: nat, kv: KV)
    requires AllDistinct(pool) && p in pool.leaves && i < |pool.leaves[p].slots|
    requires At(pool, p, i, kv.key) || (pool.leaves[p].slots[i] == None && kv.key !in Contents(pool))
    ensures var pool' := SetSlots(pool, p, pool.leaves[p].slots[i := Some(kv)]);
            AllDistinct(pool') && Contents(pool') == Contents(pool)[kv.key := kv.value]
  {
    hide AllDistinct, Contents, Has;
    var pool' := SetSlots(pool, p, pool.leaves[p].slots[i := Some(kv)]);
    forall q, j, k ensures At(pool', q, j, k) <==> (if q == p && j == i then k == kv.key else At(pool, q, j, k)) {}
    SetPairDistinct(pool, p, i, kv);
    forall k, val
      ensures Has(pool', k, val) <==> Lookup(Contents(pool)[kv.key := kv.value], k) == Some(val)
    {
      ContentsHas(pool, k, val);
      SetPairHas(pool, p, i, kv, k, val);
    }
    ContentsAre(pool', Contents(pool)[kv.key := kv.value]);
  }

  lemma AbsentKey(pool: Pool, k: Key)
    requires AllDistinct(pool) && k !in Contents(pool)
    ensures forall q, j :: !At(pool, q, j, k)
  {
    hide AllDistinct, Contents;
    forall q, j ensures !At(pool, q, j, k) {
      if At(pool, q, j, k) {
        assert AtValue(pool, q, j, k, pool.leaves[q].slots[j].value.value);
        ContentsHas(pool, k, pool.leaves[q].slots[j].value.value);
      }
    }
  }

  lemma SetPairDistinct(pool: Pool, p: Ptr, i: nat, kv: KV)
    requires AllDistinct(pool) && p in pool.leaves && i < |pool.leaves[p].slots|
    requires At(pool, p, i, kv.key) || (pool.leaves[p].slots[i] == None && kv.key !in Contents(pool))
    ensures AllDistinct(SetSlots(pool, p, pool.leaves[p].slots[i := Some(kv)]))
  {
    hide Contents;
    if !At(pool, p, i, kv.key) { AbsentKey(pool, kv.key); }
    var pool' := SetSlots(pool, p, pool.leaves[p].slots[i := Some(kv)]);
    assert forall q, j, k :: At(pool', q, j, k) ==> At(pool, q, j, k) || (q == p && j == i && k == kv.key);
  }

  lemma SetPairHas(pool: Pool, p: Ptr, i: nat, kv: KV, k: Key, val: Value)
    requires AllDistinct(pool) && p in pool.leaves && i < |pool.leaves[p].slots|
    requires At(pool, p, i, kv.key) || (pool.leaves[p].slots[i] == None && kv.key !in Contents(pool))
    ensures var pool' := SetSlots(pool, p, pool.leaves[p].slots[i := Some(kv)]);
            Has(pool', k, val) <==> (if k == kv.key then val == kv.value else Has(pool, k, val))
  {
    hide Contents;
    var pool' := SetSlots(pool, p, pool.leaves[p].slots[i := Some(kv)]);
    SetPairDistinct(pool, p, i, kv);
    assert AtValue(pool', p, i, kv.key, kv.value);
    if k == kv.key {
      if Has(pool', k, val) { HasOne(pool', k, val, kv.value); }
    } else {
      if Has(pool', k, val) {
        var q, j :| AtValue(pool', q, j, k, val);
        assert AtValue(pool, q, j, k, val);
      }
      if Has(pool, k, val) {
        var q, j :| AtValue(pool, q, j, k, val);
        assert AtValue(pool', q, j, k, val);
      }
    }
  }

  /** Clearing a slot takes its key out of the map. */
  lemma ClearPair(pool: Pool, p: Ptr, i: nat, k: Key)
    requires AllDistinct(pool) && At(pool, p, i, k)
    ensures var pool' := SetSlots(pool, p, pool.leaves[p].slots[i := None]);
            AllDistinct(pool') && Contents(pool') == Contents(pool) - {k}
  {
    hide Contents;
    var pool' := SetSlots(pool, p, pool.leaves[p].slots[i := None]);
    assert forall q, j, x :: At(pool', q, j, x) ==> At(pool, q, j, x);
    assert AllDistinct(pool');
    forall x, val
      ensures Has(pool', x, val) <==> Lookup(Contents(pool) - {k}, x) == Some(val)
    {
      ContentsHas(pool, x, val);
      ClearPairHas(pool, p, i, k, x, val);
    }
    ContentsAre(pool', Contents(pool) - {k});
  }

  lemma ClearPairHas(pool: Pool, p: Ptr, i: nat, k: Key, x: Key, val: Value)
    requires AllDistinct(pool) && At(pool, p, i, k)
    ensures Has(SetSlots(pool, p, pool.leaves[p].slots[i := None]), x, val) <==> x != k && Has(pool, x, val)
  {
    var pool' := SetSlots(pool, p, pool.leaves[p].slots[i := None]);
    if Has(pool', x, val) {
      var q, j :| AtValue(pool', q, j, x, val);
      assert AtValue(pool, q, j, x, val) && At(pool, q, j, x);
    }
    if x != k && Has(pool, x, val) {
      var q, j :| AtValue(pool, q, j, x, val);
      assert AtValue(pool', q, j, x, val);
    }
  }

  /** Moving slots between two leaves, each to the same place in the other, where that was
      empty, keeps the map. */
  lemma MovePairs(pool: Pool, pool': Pool, p: Ptr, q: Ptr)
    requires AllDistinct(pool) && p in pool.leaves && q in pool.leaves && p != q
    requires pool'.leaves.Keys == pool.leaves.Keys
    requires forall x :: x in pool.leaves && x != p && x != q ==> pool'.leaves[x] == pool.leaves[x]
    requires |pool.leaves[p].slots| == |pool.leaves[q].slots| == |pool'.leaves[p].slots| == |pool'.leaves[q].slots|
    requires forall i :: 0 <= i < |pool.leaves[p].slots| ==>
               MovedAt(pool.leaves[p].slots[i], pool.leaves[q].slots[i], pool'.leaves[p].slots[i],
                       pool'.leaves[q].slots[i])
    ensures AllDistinct(pool') && Contents(pool') == Contents(pool)
  {
    hide Contents, AllDistinct, Has;
    MoveDistinct(pool, pool', p, q);
    forall k, val ensures Has(pool, k, val) <==> Has(pool', k, val) {
      MoveHas(pool, pool', p, q, k, val);
    }
    SamePairs(pool, pool');
  }

  predicate MovedAt(a: Option<KV>, b: Option<KV>, a': Option<KV>, b': Option<KV>) {
    b == None && ((a' == a && b' == None) || (a' == None && b' == a))
  }

  lemma MoveDistinct(pool: Pool, pool': Pool, p: Ptr, q: Ptr)
    requires AllDistinct(pool) && p in pool.leaves && q in pool.leaves && p != q
    requires pool'.leaves.Keys == pool.leaves.Keys
    requires forall x :: x in pool.leaves && x != p && x != q ==> pool'.leaves[x] == pool.leaves[x]
    requires |pool.leaves[p].slots| == |pool.leaves[q].slots| == |pool'.leaves[p].slots| == |pool'.leaves[q].slots|
    requires forall i :: 0 <= i < |pool.leaves[p].slots| ==>
               MovedAt(pool.leaves[p].slots[i], pool.leaves[q].slots[i], pool'.leaves[p].slots[i],
                       pool'.leaves[q].slots[i])
    ensures AllDistinct(pool')
  {
    assert forall x, i, k :: At(pool', x, i, k) ==> At(pool, if x == q then p else x, i, k);
    forall x, i, y, j, k | At(pool', x, i, k) && At(pool', y, j, k) ensures x == y && i == j {
      assert At(pool, if x == q then p else x, i, k) && At(pool, if y == q then p else y, j, k);
    }
  }

  lemma MoveHas(pool: Pool, pool': Pool, p: Ptr, q: Ptr, k: Key, val: Value)
    requires p in pool.leaves && q in pool.leaves && p != q && pool'.leaves.Keys == pool.leaves.Keys
    requires forall x :: x in pool.leaves && x != p && x != q ==> pool'.leaves[x] == pool.leaves[x]
    requires |pool.leaves[p].slots| == |pool.leaves[q].slots| == |pool'.leaves[p].slots| == |pool'.leaves[q].slots|
    requires forall i :: 0 <= i < |pool.leaves[p].slots| ==>
               MovedAt(pool.leaves[p].slots[i], pool.leaves[q].slots[i], pool'.leaves[p].slots[i],
                       pool'.leaves[q].slots[i])
    ensures Has(pool, k, val) <==> Has(pool', k, val)
  {
    if Has(pool, k, val) {
      var x, i :| AtValue(pool, x, i, k, val);
      assert x != q;
      assert AtValue(pool', x, i, k, val) || AtValue(pool', q, i, k, val);
    }
    if Has(pool', k, val) {
      var x, i :| AtValue(pool', x, i, k, val);
      assert AtValue(pool, if x == q then p else x, i, k, val);
    }
  }

  /** A new, empty leaf changes no pair. */
  lemma AddLeafContents(pool: Pool, p: Ptr)
    requires AllDistinct(pool) && p !in pool.leaves
    ensures AllDistinct(AddLeaf(pool, p)) && Contents(AddLeaf(pool, p)) == Contents(pool)
  {
    var pool' := AddLeaf(pool, p);
    assert forall x, i, k :: At(pool', x, i, k) <==> At(pool, x, i, k);
    assert forall x, i, k, val :: AtValue(pool', x, i, k, val) <==> AtValue(pool, x, i, k, val);
    hide Contents;
    forall k, val ensures Has(pool, k, val) <==> Has(pool', k, val) {
      if x, i :| AtValue(pool, x, i, k, val) { assert AtValue(pool', x, i, k, val); }
      if x, i :| AtValue(pool', x, i, k, val) { assert AtValue(pool, x, i, k, val); }
    }
    SamePairs(pool, pool');
  }
}
