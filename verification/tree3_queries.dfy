/** count_all and get_all of tree3, which walk the persistent list, and an engine opened
    again on the leaves another run left. */
module Tree3Queries {
  import opened Keys
  import opened Tree3Shape
  import opened Tree3Pool
  import opened Tree3State
  import opened Tree3Recover
  import opened Tree3

  /** The pairs in the slots below `n`, from the last slot down. */
  function LeafRows(slots: Slots, n: nat): seq<KV>
    requires n <= |slots|
  {
    if n == 0 then []
    else (if slots[n - 1].Some? then [slots[n - 1].value] else []) + LeafRows(slots, n - 1)
  }

  function RowsAt(pool: Pool, p: Ptr): seq<KV> {
    if p in pool.leaves then LeafRows(pool.leaves[p].slots, |pool.leaves[p].slots|) else []
  }

  /** All pairs along a list of leaves. */
  function AllRows(pool: Pool, order: seq<Ptr>): seq<KV> {
    if order == [] then [] else AllRows(pool, order[..|order| - 1]) + RowsAt(pool, order[|order| - 1])
  }

  ghost predicate DistinctKeys(rows: seq<KV>) {
    forall i, j :: 0 <= i < j < |rows| ==> rows[i].key != rows[j].key
  }

  ghost predicate InSlots(slots: Slots, n: nat, kv: KV)
    requires n <= |slots|
  {
    exists i :: 0 <= i < n && slots[i] == Some(kv)
  }

  lemma {:induction false} LeafRowsIn(slots: Slots, n: nat, kv: KV)
    requires n <= |slots|
    ensures kv in LeafRows(slots, n) <==> InSlots(slots, n, kv)
  {
    if n > 0 {
      LeafRowsIn(slots, n - 1, kv);
      if slots[n - 1] == Some(kv) { assert InSlots(slots, n, kv); }
      if InSlots(slots, n - 1, kv) {
        var i :| 0 <= i < n - 1 && slots[i] == Some(kv);
        assert InSlots(slots, n, kv);
      }
    }
  }

  lemma {:induction false} LeafRowsDistinct(slots: Slots, n: nat)
    requires n <= |slots| && NoDoubles(slots)
    ensures DistinctKeys(LeafRows(slots, n))
  {
    if n > 0 {
      LeafRowsDistinct(slots, n - 1);
      var rest := LeafRows(slots, n - 1);
      forall x | 0 <= x < |rest| && slots[n - 1].Some? ensures rest[x].key != slots[n - 1].value.key {
        LeafRowsIn(slots, n - 1, rest[x]);
      }
    }
  }

  /** A pair of leaf `p`. */
  lemma RowsAtIn(pool: Pool, p: Ptr, kv: KV)
    ensures kv in RowsAt(pool, p) <==> exists i :: AtPair(pool, p, i, kv)
  {
    if p in pool.leaves {
      var slots := pool.leaves[p].slots;
      LeafRowsIn(slots, |slots|, kv);
      if i :| 0 <= i < |slots| && slots[i] == Some(kv) { assert AtPair(pool, p, i, kv); }
    }
  }

  ghost predicate AtPair(pool: Pool, p: Ptr, i: int, kv: KV) {
    p in pool.leaves && 0 <= i < |pool.leaves[p].slots| && pool.leaves[p].slots[i] == Some(kv)
  }

  lemma {:induction false} AllRowsIn(pool: Pool, order: seq<Ptr>, kv: KV)
    ensures kv in AllRows(pool, order) <==> exists p, i :: p in order && AtPair(pool, p, i, kv)
  {
    if order != [] {
      var o, p := order[..|order| - 1], order[|order| - 1];
      assert order == o + [p];
      AllRowsIn(pool, o, kv);
      RowsAtIn(pool, p, kv);
    }
  }

  lemma RowsAtDistinct(pool: Pool, p: Ptr)
    requires AllDistinct(pool)
    ensures DistinctKeys(RowsAt(pool, p))
  {
    if p in pool.leaves {
      var slots := pool.leaves[p].slots;
      forall i, j | 0 <= i < j < |slots| && slots[i].Some? && slots[j].Some?
        ensures slots[i].value.key != slots[j].value.key
      {
        assert At(pool, p, i, slots[i].value.key) && At(pool, p, j, slots[j].value.key);
      }
      LeafRowsDistinct(slots, |slots|);
    }
  }

  lemma {:induction false} AllRowsDistinct(pool: Pool, order: seq<Ptr>)
    requires AllDistinct(pool) && forall i, j :: 0 <= i < j < |order| ==> order[i] != order[j]
    ensures DistinctKeys(AllRows(pool, order))
  {
    hide AllDistinct;
    if order != [] {
      var o, p := order[..|order| - 1], order[|order| - 1];
      AllRowsDistinct(pool, o);
      RowsAtDistinct(pool, p);
      var a, b := AllRows(pool, o), RowsAt(pool, p);
      forall x, y | 0 <= x < |a| && 0 <= y < |b| ensures a[x].key != b[y].key {
        LeavesDiffer(pool, o, p, a[x], b[y]);
      }
      assert order == o + [p];
    }
  }

  lemma LeavesDiffer(pool: Pool, o: seq<Ptr>, p: Ptr, a: KV, b: KV)
    requires AllDistinct(pool) && p !in o && a in AllRows(pool, o) && b in RowsAt(pool, p)
    ensures a.key != b.key
  {
    AllRowsIn(pool, o, a);
    RowsAtIn(pool, p, b);
    var q, i :| q in o && AtPair(pool, q, i, a);
    var j :| AtPair(pool, p, j, b);
    assert At(pool, q, i, a.key) && At(pool, p, j, b.key);
  }

  /** The walk along the list meets every pair of the map exactly once. */
  lemma RowsAreMap(pool: Pool, order: seq<Ptr>)
    requires ListOk(pool, order) && AllDistinct(pool)
    ensures DistinctKeys(AllRows(pool, order)) && |AllRows(pool, order)| == |Contents(pool)|
    ensures forall kv :: kv in AllRows(pool, order) ==> Lookup(Contents(pool), kv.key) == Some(kv.value)
    ensures forall k :: k in Contents(pool) ==> exists kv :: kv in AllRows(pool, order) && kv.key == k
  {
    hide AllDistinct, Contents, ListOk;
    var rows := AllRows(pool, order);
    OrderDistinct(pool, order);
    AllRowsDistinct(pool, order);
    forall kv | kv in rows ensures Lookup(Contents(pool), kv.key) == Some(kv.value) {
      AllRowsIn(pool, order, kv);
      var p, i :| p in order && AtPair(pool, p, i, kv);
      assert AtValue(pool, p, i, kv.key, kv.value);
      ContentsHas(pool, kv.key, kv.value);
    }
    forall k | k in Contents(pool) ensures exists kv :: kv in rows && kv.key == k {
      RowFor(pool, order, k);
    }
    KeySetSize(rows);
    assert KeySet(rows) == Contents(pool).Keys;
    assert |Contents(pool).Keys| == |Contents(pool)|;
  }

  lemma OrderDistinct(pool: Pool, order: seq<Ptr>)
    requires ListOk(pool, order)
    ensures forall i, j :: 0 <= i < j < |order| ==> order[i] != order[j]
    ensures forall p :: p in pool.leaves ==> p in order
  {
  }

  lemma RowFor(pool: Pool, order: seq<Ptr>, k: Key)
    requires ListOk(pool, order) && AllDistinct(pool) && k in Contents(pool)
    ensures exists kv :: kv in AllRows(pool, order) && kv.key == k
  {
    hide AllDistinct, Contents, ListOk;
    OrderDistinct(pool, order);
    ContentsHas(pool, k, Contents(pool)[k]);
    var p, i :| AtValue(pool, p, i, k, Contents(pool)[k]);
    var kv := pool.leaves[p].slots[i].value;
    assert AtPair(pool, p, i, kv);
    AllRowsIn(pool, order, kv);
  }

  ghost function KeySet(rows: seq<KV>): set<Key> {
    set kv | kv in rows :: kv.key
  }

  lemma {:induction false} KeySetSize(rows: seq<KV>)
    requires DistinctKeys(rows)
    ensures |KeySet(rows)| == |rows|
  {
    if rows == [] {
      assert KeySet(rows) == {};
    } else {
      var r, x := rows[..|rows| - 1], rows[|rows| - 1];
      KeySetSize(r);
      assert rows == r + [x];
      assert KeySet(rows) == KeySet(r) + {x.key};
      assert x.key !in KeySet(r);
    }
  }

  /** count_all */
  method CountAll(t: Engine) returns (cnt: nat)
    requires t.Valid()
    ensures cnt == |t.Map()|
  {
    hide Inv, Contents, AllDistinct;
    ghost var pool, order := t.pool, t.order;
    InvIs(t.hf, t.State(), t.view, Closed, order);
    InvDistinct(t.hf, t.State(), t.view, Closed, order, 0);
    RowsAreMap(pool, order);
    cnt := 0;
    var leaf := t.pool.head;
    ghost var n := 0;
    StartOf(pool, order);
    while leaf != 0
      invariant n <= |order| && leaf == (if n < |order| then order[n] else 0) && (n < |order| ==> leaf != 0)
      invariant cnt == |AllRows(pool, order[..n])|
      decreases |order| - n
    {
      StepOn(pool, order, n);
      var rows := CountLeaf(t.pool.leaves[leaf].slots);
      cnt := cnt + rows;
      leaf := t.pool.leaves[leaf].next;
      n := n + 1;
    }
    assert order[..n] == order;
  }

  method CountLeaf(slots: Slots) returns (cnt: nat)
    ensures cnt == |LeafRows(slots, |slots|)|
  {
    cnt := 0;
    var slot := |slots|;
    while slot > 0
      invariant 0 <= slot <= |slots| && cnt + |LeafRows(slots, slot)| == |LeafRows(slots, |slots|)|
    {
      slot := slot - 1;
      if slots[slot].Some? {
        cnt := cnt + 1;
      }
    }
  }

  lemma StartOf(pool: Pool, order: seq<Ptr>)
    requires ListOk(pool, order)
    ensures pool.head == (if 0 < |order| then order[0] else 0) && (0 < |order| ==> pool.head != 0)
    ensures order[..0] == []
  {
    if |order| > 0 { assert LinkOk(pool, order, 0); }
  }

  lemma NextInList(pool: Pool, order: seq<Ptr>, n: nat)
    requires ListOk(pool, order) && n < |order|
    ensures order[n] in pool.leaves && pool.leaves[order[n]].next == (if n + 1 < |order| then order[n + 1] else 0)
    ensures n + 1 < |order| ==> pool.leaves[order[n]].next != 0
  {
    assert LinkOk(pool, order, n);
    if n + 1 < |order| { assert LinkOk(pool, order, n + 1); }
  }

  lemma StepOn(pool: Pool, order: seq<Ptr>, n: nat)
    requires ListOk(pool, order) && n < |order|
    ensures order[n] in pool.leaves && pool.leaves[order[n]].next == (if n + 1 < |order| then order[n + 1] else 0)
    ensures n + 1 < |order| ==> pool.leaves[order[n]].next != 0
    ensures AllRows(pool, order[..n + 1]) == AllRows(pool, order[..n]) + RowsAt(pool, order[n])
  {
    hide ListOk, RowsAt;
    NextInList(pool, order, n);
    assert order[..n + 1][..n] == order[..n];
  }

  /** get_all: with RowsAreMap, every pair of the map once, unless the callback stops. */
  method GetAll(t: Engine, cb: KV -> bool) returns (rows: seq<KV>, stopped: bool)
    requires t.Valid()
    ensures Visited(rows, stopped, AllRows(t.pool, t.order), cb)
    ensures DistinctKeys(AllRows(t.pool, t.order)) && |AllRows(t.pool, t.order)| == |t.Map()|
    ensures forall kv :: kv in AllRows(t.pool, t.order) ==> Lookup(t.Map(), kv.key) == Some(kv.value)
  {
    hide Inv, Contents, AllDistinct, Visited, DistinctKeys, ListOk;
    ghost var pool, order := t.pool, t.order;
    InvIs(t.hf, t.State(), t.view, Closed, order);
    InvDistinct(t.hf, t.State(), t.view, Closed, order, 0);
    RowsAreMap(pool, order);
    VisitedNone(cb);
    rows, stopped := [], false;
    var leaf := t.pool.head;
    ghost var n := 0;
    StartOf(pool, order);
    while leaf != 0
      invariant n <= |order| && leaf == (if n < |order| then order[n] else 0) && (n < |order| ==> leaf != 0)
      invariant !stopped && Visited(rows, false, AllRows(pool, order[..n]), cb)
      decreases |order| - n
    {
      StepOn(pool, order, n);
      Longer(pool, order, n);
      var more;
      more, stopped := VisitLeaf(t.pool.leaves[leaf].slots, cb);
      VisitedOn(rows, more, stopped, AllRows(pool, order[..n]), RowsAt(pool, leaf), AllRows(pool, order), cb);
      rows := rows + more;
      if stopped {
        return;
      }
      leaf := t.pool.leaves[leaf].next;
      n := n + 1;
    }
    assert order[..n] == order;
  }

  lemma VisitedNone(cb: KV -> bool)
    ensures Visited([], false, [], cb)
  {
  }

  lemma VisitedOn(rows: seq<KV>, more: seq<KV>, stopped: bool, a: seq<KV>, b: seq<KV>, all: seq<KV>, cb: KV -> bool)
    requires Visited(rows, false, a, cb) && Visited(more, stopped, b, cb) && a + b <= all
    ensures Visited(rows + more, stopped, if stopped then all else a + b, cb)
  {
  }

  lemma {:induction false} Longer(pool: Pool, order: seq<Ptr>, n: nat)
    requires n < |order|
    ensures AllRows(pool, order[..n + 1]) <= AllRows(pool, order)
    decreases |order|
  {
    if n + 1 < |order| {
      var o := order[..|order| - 1];
      Longer(pool, o, n);
      assert o[..n + 1] == order[..n + 1];
    } else {
      assert order[..n + 1] == order;
    }
  }

  method VisitLeaf(slots: Slots, cb: KV -> bool) returns (rows: seq<KV>, stopped: bool)
    ensures Visited(rows, stopped, LeafRows(slots, |slots|), cb)
  {
    rows, stopped := [], false;
    var slot := |slots|;
    while slot > 0
      invariant 0 <= slot <= |slots| && rows + LeafRows(slots, slot) == LeafRows(slots, |slots|)
      invariant forall i :: 0 <= i < |rows| ==> !cb(rows[i])
    {
      slot := slot - 1;
      if slots[slot].Some? {
        assert rows + ([slots[slot].value] + LeafRows(slots, slot))
            == (rows + [slots[slot].value]) + LeafRows(slots, slot);
        rows := rows + [slots[slot].value];
        if cb(slots[slot].value) {
          return rows, true;
        }
      } else {
        assert rows + ([] + LeafRows(slots, slot)) == rows + LeafRows(slots, slot);
      }
    }
  }

  /** Closing the engine, or losing it in a crash, and opening it again on the leaves keeps
      the map: the volatile tree is rebuilt from the list alone. */
  method Reopen(t: Engine) returns (r: Engine)
    requires t.Valid()
    ensures fresh(r) && r.Valid() && r.pool == t.pool && r.Map() == t.Map()
  {
    InvPersists(t.hf, t.State(), t.view, Closed, t.order);
    r := new Engine(t.hf, t.pool, t.order);
  }

  /** In every state the tree is balanced over its leaf nodes. */
  lemma EngineBalanced(t: Engine)
    requires t.Valid() && t.tree.top != 0
    ensures ShapeOk(t.tree, t.view, Closed) && forall x :: x in t.nodes <==> x in t.view.chain
    ensures t.view.Level(t.tree.top) >= 1 ==> |t.view.chain| >= 2 * Power3(t.view.Level(t.tree.top) - 1)
  {
    hide Inv, ShapeOk, LeavesOk;
    InvIs(t.hf, t.State(), t.view, Closed, t.order);
    InvNodes(t.hf, t.State(), t.view, Closed, t.order, 0);
    if t.view.Level(t.tree.top) >= 1 { ManyLeaves(t.tree, t.view); }
  }
}
