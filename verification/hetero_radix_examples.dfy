/** Two runs that show where heterogeneous_radix goes wrong: a completed put that a
    crash loses, and a removed key that comes back. */
module HeteroRadixExamples {
  import opened Keys
  import opened OrderedCache
  import opened HeteroRadix
  import opened HeteroRadixSafety
  import opened HeteroRadixCrash

  ghost predicate Reaches(s: State, t: State, harmless: bool) {
    exists es :: Run(s, es, harmless) && Run(s, es, false) && After(s, es) == t
  }

  lemma {:induction false} RunSnoc(s: State, es: seq<Event>, e: Event, harmless: bool)
    requires Run(s, es, harmless) && Run(s, es, false) && BgInRange(After(s, es)) && Enabled(After(s, es), e)
    requires harmless ==> Harmless(After(s, es), e)
    ensures Run(s, es + [e], harmless) && Run(s, es + [e], false) && After(s, es + [e]) == Apply(After(s, es), e)
    decreases |es|
  {
    if es == [] {
      assert [e][1..] == [];
      assert es + [e] == [e];
    } else {
      assert (es + [e])[0] == es[0] && (es + [e])[1..] == es[1..] + [e];
      RunSnoc(Apply(s, es[0]), es[1..], e, harmless);
    }
  }

  /** One event leads from `t` to `u`. */
  ghost predicate Next(t: State, e: Event, u: State) {
    BgInRange(t) && Enabled(t, e) && u == Apply(t, e)
  }

  lemma Reach(s: State, t: State, e: Event, u: State)
    requires Reaches(s, t, false) && Next(t, e, u)
    ensures Reaches(s, u, false)
  {
    var es :| Run(s, es, false) && After(s, es) == t;
    RunSnoc(s, es, e, false);
  }

  lemma ReachHarmlessly(s: State, t: State, e: Event, u: State)
    requires Reaches(s, t, true) && Next(t, e, u) && Harmless(t, e)
    ensures Reaches(s, u, true)
  {
    var es :| Run(s, es, true) && Run(s, es, false) && After(s, es) == t;
    RunSnoc(s, es, e, true);
  }

  // ------------------------------------------------------------ the stale read

  /** A cache of one node. */
  function One(k: Key, v: CellVal): Cache<CellVal> {
    Cache([0], map[0 := Cell(k, v)], map[k := 0])
  }

  /** The only node, if it has to change its key. */
  function Pick(k: Key, j: Key): Option<NodeId> {
    if j == k then None else Some(0)
  }

  lemma OnePut(k: Key, v: CellVal, j: Key, w: CellVal, spare: NodeId)
    requires j == k || Evictable(v)
    ensures CachePut(One(k, v), 1, j, w, Pick(k, j), spare) == Some((One(j, w), 0))
  {
    assert Without([0], 0) == [];
    assert [0] + [] == [0];
    assert One(k, v).cells[0 := Cell(j, w)] == One(j, w).cells;
    if j == k {
      assert One(k, v).index == One(j, w).index;
    } else {
      assert (One(k, v).index - {k})[j := 0] == One(j, w).index;
    }
  }

  /** The three steps of a put or remove on the one-node cache. */
  lemma PutSteps(s: State, k: Key, v: CellVal, j: Key, op: Op, a: nat) returns (s1: State, s2: State, t: State)
    requires BgInRange(s) && s.maxSize == 1 && s.cache == One(k, v) && AddrFree(s.log, a)
    requires j == k || Evictable(v)
    requires s.user == (if op.Assign? then Idle else Removing(j))
    ensures Next(s, PutStart(j, op, 1, Pick(k, j)), s1) && Next(s1, StoreCell(a), s2) && Next(s2, Publish, t)
    ensures var e := Entry(a, 0, j, op);
            t == State(One(j, Expected(e)), 1, s.log + [e], s.tree, s.bg, Idle, ApplySpec(s.spec, j, op))
  {
    hide CachePut, Without, AddrFree;
    OnePut(k, v, j, Null, 1);
    s1 := Apply(s, PutStart(j, op, 1, Pick(k, j)));
    assert s1 == s.(cache := One(j, Null), user := Nulled(j, op, 0));
    s2 := Apply(s1, StoreCell(a));
    assert s2.cache.cells == One(j, Expected(Entry(a, 0, j, op))).cells;
    t := Apply(s2, Publish);
  }

  /** The background thread carries out an entry whose cell is still current. */
  lemma EraseSteps(s: State, k: Key) returns (s1: State, s2: State, t: State)
    requires BgInRange(s) && s.bg.Load? && s.bg.pos < s.bg.batch
    requires s.cache == One(k, TombVolatile) && s.log[s.bg.pos].node == 0 && s.log[s.bg.pos].op == Erase
    ensures Next(s, BgLoad, s1) && Next(s1, BgUpdate(0), s2) && Next(s2, BgCas, t)
    ensures t == s.(cache := One(k, TombPersistent), tree := s.tree - {s.log[s.bg.pos].key},
                    bg := Load(s.bg.batch, s.bg.pos + 1))
  {
    s1 := Apply(s, BgLoad);
    s2 := Apply(s1, BgUpdate(0));
    t := Apply(s2, BgCas);
    assert t.cache.cells == One(k, TombPersistent).cells;
  }

  const OLD_TREE: Tree := map[1.0 := TreeNode([7], 0), 2.0 := TreeNode([8], 0)]

  lemma ReachPut(o: State, s: State, k: Key, v: CellVal, j: Key, op: Op, a: nat) returns (t: State)
    requires Reaches(o, s, false) && BgInRange(s) && s.maxSize == 1 && s.cache == One(k, v) && AddrFree(s.log, a)
    requires j == k || Evictable(v)
    requires s.user == (if op.Assign? then Idle else Removing(j))
    ensures Reaches(o, t, false)
    ensures var e := Entry(a, 0, j, op);
            t == State(One(j, Expected(e)), 1, s.log + [e], s.tree, s.bg, Idle, ApplySpec(s.spec, j, op))
  {
    hide Reaches, Next;
    var s1, s2;
    s1, s2, t := PutSteps(s, k, v, j, op, a);
    Reach(o, s, PutStart(j, op, 1, Pick(k, j)), s1);
    Reach(o, s1, StoreCell(a), s2);
    Reach(o, s2, Publish, t);
  }

  lemma ReachErase(o: State, s: State, k: Key) returns (t: State)
    requires Reaches(o, s, false) && BgInRange(s) && s.bg.Load? && s.bg.pos < s.bg.batch
    requires s.cache == One(k, TombVolatile) && s.log[s.bg.pos].node == 0 && s.log[s.bg.pos].op == Erase
    ensures Reaches(o, t, false)
    ensures t == s.(cache := One(k, TombPersistent), tree := s.tree - {s.log[s.bg.pos].key},
                    bg := Load(s.bg.batch, s.bg.pos + 1))
  {
    hide Reaches, Next;
    var s1, s2;
    s1, s2, t := EraseSteps(s, k);
    Reach(o, s, BgLoad, s1);
    Reach(o, s1, BgUpdate(0), s2);
    Reach(o, s2, BgCas, t);
  }

  /** A get that misses the cache and brings the key in, evicting if need be. */
  lemma FillSteps(s: State, k: Key, full: bool, j: Key, v: CellVal) returns (s1: State, t: State)
    requires BgInRange(s) && s.maxSize == 1 && s.user == Idle && k in s.tree
    requires s.cache == (if full then One(j, v) else EMPTY_CACHE) && j != k && Evictable(v)
    ensures Next(s, Get(k), s1) && Next(s1, CacheFill(if full then 1 else 0, if full then Some(0) else None), t)
    ensures t == s.(cache := One(k, InTree(s.tree[k].loc)))
  {
    s1 := Apply(s, Get(k));
    if full { OnePut(j, v, k, InTree(s.tree[k].loc), 1); }
    t := Apply(s1, CacheFill(if full then 1 else 0, if full then Some(0) else None));
    assert t.cache.lru == [0];
  }

  lemma ReachFill(o: State, s: State, k: Key, full: bool, j: Key, v: CellVal) returns (t: State)
    requires Reaches(o, s, false) && BgInRange(s) && s.maxSize == 1 && s.user == Idle && k in s.tree
    requires s.cache == (if full then One(j, v) else EMPTY_CACHE) && j != k && Evictable(v)
    ensures Reaches(o, t, false) && t == s.(cache := One(k, InTree(s.tree[k].loc)))
  {
    hide Reaches, Next;
    var s1;
    s1, t := FillSteps(s, k, full, j, v);
    Reach(o, s, Get(k), s1);
    Reach(o, s1, CacheFill(if full then 1 else 0, if full then Some(0) else None), t);
  }

  lemma ReachRemove(o: State, s: State, k: Key, v: CellVal, a: nat) returns (t: State)
    requires Reaches(o, s, false) && BgInRange(s) && s.maxSize == 1 && s.cache == One(k, v) && AddrFree(s.log, a)
    requires s.user == Idle && v != TombVolatile && v != TombPersistent
    ensures Reaches(o, t, false)
    ensures var e := Entry(a, 0, k, Erase);
            t == State(One(k, TombVolatile), 1, s.log + [e], s.tree, s.bg, Idle, s.spec - {k})
  {
    hide Reaches;
    var s1 := s.(user := Removing(k));
    Reach(o, s, RemoveCheck(k), s1);
    t := ReachPut(o, s1, k, v, k, Erase, a);
  }

  const E0 := Entry(0, 0, 1.0, Erase)
  const E1 := Entry(1, 0, 1.0, Assign([9]))
  const E2 := Entry(2, 0, 1.0, Erase)
  const E3 := Entry(3, 0, 2.0, Erase)

  lemma OneRemove(o: State) returns (s: State)
    requires o == Opened(OLD_TREE, 1)
    ensures Reaches(o, s, false)
    ensures s == State(One(1.0, TombVolatile), 1, [E0], OLD_TREE, Waiting, Idle, map[2.0 := [8]])
  {
    hide Reaches;
    ReachesSelf(o, false);
    s := ReachFill(o, o, 1.0, false, 2.0, Null);
    s := ReachRemove(o, s, 1.0, InTree(0), 0);
    assert s.log == [E0];
    assert s.spec == map[2.0 := [8]];
  }

  /** Key 1 is removed, put and removed again. */
  lemma ThreeWrites(o: State) returns (s: State)
    requires o == Opened(OLD_TREE, 1)
    ensures Reaches(o, s, false)
    ensures s == State(One(1.0, TombVolatile), 1, [E0, E1, E2], OLD_TREE, Waiting, Idle, map[2.0 := [8]])
  {
    hide Reaches;
    s := OneRemove(o);
    s := ReachPut(o, s, 1.0, TombVolatile, 1.0, Assign([9]), 1);
    s := ReachRemove(o, s, 1.0, InLog(1), 2);
    assert s.log == [E0, E1, E2];
    assert s.spec == map[2.0 := [8]];
  }

  /** The background thread carries out the first removal, whose compare-exchange
      takes the tombstone of the second for its own. */
  lemma FirstErase(o: State) returns (s: State)
    requires o == Opened(OLD_TREE, 1)
    ensures Reaches(o, s, false)
    ensures s == State(One(1.0, TombPersistent), 1, [E0, E1, E2], map[2.0 := TreeNode([8], 0)], Load(3, 1), Idle,
                       map[2.0 := [8]])
  {
    hide Reaches;
    s := ThreeWrites(o);
    var s1 := s.(bg := Load(3, 0));
    Reach(o, s, BatchStart(3), s1);
    s := ReachErase(o, s1, 1.0);
    assert s.tree == map[2.0 := TreeNode([8], 0)];
  }

  /** The cache gives the node, which two queued entries still name, to key 2. */
  lemma NodeReused(o: State) returns (s: State)
    requires o == Opened(OLD_TREE, 1)
    ensures Reaches(o, s, false)
    ensures s == State(One(2.0, TombVolatile), 1, [E0, E1, E2, E3], map[2.0 := TreeNode([8], 0)], Load(3, 1), Idle,
                       map[])
  {
    hide Reaches;
    s := FirstErase(o);
    s := ReachFill(o, s, 2.0, true, 1.0, TombPersistent);
    s := ReachRemove(o, s, 2.0, InTree(0), 3);
    assert s.log == [E0, E1, E2, E3];
    assert s.spec == map[];
  }

  /** The second removal of key 1 takes the tombstone of key 2. */
  lemma StolenTombstone(o: State) returns (s: State)
    requires o == Opened(OLD_TREE, 1)
    ensures Reaches(o, s, false)
    ensures s == State(One(2.0, TombPersistent), 1, [E0, E1, E2, E3], map[2.0 := TreeNode([8], 0)], Load(3, 3), Idle,
                       map[])
  {
    hide Reaches;
    s := NodeReused(o);
    var s1 := s.(bg := Load(3, 2));
    Reach(o, s, BgLoad, s1);
    s := ReachErase(o, s1, 2.0);
    assert s.tree == map[2.0 := TreeNode([8], 0)];
  }

  /** The node is evicted once more, and a get of the removed key 2 finds its value. */
  lemma EvictionCanReviveKey()
    ensures exists s, e :: Reaches(Opened(OLD_TREE, 1), s, false) && Enabled(s, e) && !Right(AnswerOf(s, e), s.spec)
  {
    hide Reaches;
    var o := Opened(OLD_TREE, 1);
    var s := StolenTombstone(o);
    s := ReachPut(o, s, 2.0, TombPersistent, 1.0, Assign([9]), 4);
    assert 2.0 in s.tree && 2.0 !in s.spec && 2.0 !in s.cache.index;
    assert AnswerOf(s, Get(2.0)) == GetAnswer(2.0, Some(s.tree[2.0].value));
    assert Enabled(s, Get(2.0)) && !Right(AnswerOf(s, Get(2.0)), s.spec);
  }

  // ------------------------------------------------------------ the lost put

  /** A background run never evicts, so it extends a harmless run. */
  lemma {:induction false} ExtendRun(o: State, s: State, es: seq<Event>)
    requires Reaches(o, s, true) && BgRun(es) && Run(s, es, false)
    ensures Reaches(o, After(s, es), true)
    decreases |es|
  {
    if es != [] {
      assert BgEvent(es[0]);
      ReachHarmlessly(o, s, es[0], Apply(s, es[0]));
      assert forall i :: 0 <= i < |es[1..]| ==> es[1..][i] == es[i + 1];
      ExtendRun(o, Apply(s, es[0]), es[1..]);
    }
  }

  lemma ReachesSelf(o: State, harmless: bool)
    ensures Reaches(o, o, harmless)
  {
    assert Run(o, [], harmless) && After(o, []) == o;
  }

  lemma FirstPutStored(o: State) returns (s: State)
    requires o == Opened(map[], 1)
    ensures Reaches(o, s, true)
    ensures s == State(One(1.0, InLog(0)), 1, [], map[], Waiting, Stored(E1.(addr := 0)), map[])
  {
    hide Reaches, Ok;
    ReachesSelf(o, true);
    var s1 := o.(cache := One(1.0, Null), user := Nulled(1.0, Assign([9]), 0));
    assert [0] + [] == [0];
    assert Next(o, PutStart(1.0, Assign([9]), 0, None), s1);
    ReachHarmlessly(o, o, PutStart(1.0, Assign([9]), 0, None), s1);
    s := s1.(cache := One(1.0, InLog(0)), user := Stored(E1.(addr := 0)));
    assert SetCell(s1.cache, 0, InLog(0)).cells == One(1.0, InLog(0)).cells;
    ReachHarmlessly(o, s1, StoreCell(0), s);
  }

  /** A put of key 1 on an empty engine, up to the point where a second put has
      nulled the cell. */
  lemma SecondPutBegun(o: State) returns (s: State)
    requires o == Opened(map[], 1)
    ensures Reaches(o, s, true)
    ensures s == State(One(1.0, Null), 1, [E1.(addr := 0)], map[], Waiting, Nulled(1.0, Assign([8]), 0),
                       map[1.0 := [9]])
  {
    hide Reaches;
    var s2 := FirstPutStored(o);
    var e := E1.(addr := 0);
    var s3 := s2.(log := [e], spec := map[1.0 := [9]], user := Idle);
    assert [] + [e] == [e] && ApplySpec(map[], 1.0, e.op) == map[1.0 := [9]];
    ReachHarmlessly(o, s2, Publish, s3);
    s := s3.(cache := One(1.0, Null), user := Nulled(1.0, Assign([8]), 0));
    OnePut(1.0, InLog(0), 1.0, Null, 1);
    ReachHarmlessly(o, s3, PutStart(1.0, Assign([8]), 1, None), s);
  }

  /** The background thread then skips and releases the first entry, and a crash
      finds neither value, although the first put had returned. */
  lemma CrashCanLosePut()
    ensures exists s :: Reachable(s) && s.user.Nulled? && Recovered(s, false) != s.spec
  {
    var o := Opened(map[], 1);
    var s := SecondPutBegun(o);
    var es0 :| Run(o, es0, true) && Run(o, es0, false) && After(o, es0) == s;
    KeepRun(o, es0);
    assert !Settled(s, 1.0);
    UnsettledIsLost(s, 1.0);
    var es :| BgRun(es) && Run(s, es, false) && Recovered(After(s, es), false) != s.spec;
    BgRunLeavesKey(s, 1.0, es);
    ExtendRun(o, s, es);
    assert Reachable(After(s, es));
  }
}
