/** What every interleaving of the user and the background thread keeps. */
module HeteroRadixSafety {
  import opened Keys
  import opened OrderedCache
  import opened HeteroRadix

  // ------------------------------------------------------------ the invariant

  /** Entry `i` is the newest one for its key. */
  ghost predicate LastFor(log: seq<Entry>, i: int) {
    0 <= i < |log| && forall j :: i < j < |log| ==> log[j].key != log[i].key
  }

  /** The background thread still has an entry for `k` to deal with. */
  ghost predicate Pending(s: State, k: Key) {
    exists i :: Pos(s.bg) <= i < |s.log| && s.log[i].key == k
  }

  /** A put or remove of `k` has begun and is not complete. */
  predicate InFlight(s: State, k: Key) {
    (s.user.Nulled? && s.user.key == k) || (s.user.Stored? && s.user.entry.key == k)
  }

  /** Entry `i` is an erase whose node the cache has since given to another key. Neither its
      own key nor that of the node is in the tree, and no entry that could bring either
      there comes before it. */
  ghost predicate Stale(s: State, i: nat)
    requires i < |s.log| && s.log[i].node in s.cache.cells
  {
    var k, q := s.log[i].key, s.cache.cells[s.log[i].node].key;
    && k !in s.tree && q !in s.tree
    && forall j :: LastFor(s.log, j) && s.log[j].op.Assign? && (s.log[j].key == k || s.log[j].key == q) ==> j > i
  }

  /** Entry `i` is still to be dealt with and names the node of another key. */
  ghost predicate Strays(s: State, i: nat) {
    && Pos(s.bg) <= i < |s.log| && s.log[i].op == Erase && s.log[i].node in s.cache.cells
    && s.cache.cells[s.log[i].node].key != s.log[i].key
  }

  /** The node of every erase still to be dealt with belongs to its key, or the erase has
      gone stale. */
  ghost predicate OwnerOk(s: State) {
    forall i: nat :: Pos(s.bg) <= i < |s.log| && s.log[i].op == Erase ==>
      s.log[i].node in s.cache.cells && (Strays(s, i) ==> Stale(s, i))
  }

  ghost predicate AddrOk(s: State) {
    && (forall i, j :: 0 <= i < j < |s.log| ==> s.log[i].addr != s.log[j].addr)
    && (s.user.Stored? ==> AddrFree(s.log, s.user.entry.addr))
  }

  /** Entry `i` is unprocessed, is the newest for its key and belongs to node `id`, which is
      the node of that key. */
  ghost predicate Live(s: State, i: int, id: NodeId) {
    && Pos(s.bg) <= i < |s.log| && s.log[i].node == id && Holds(s, id, s.log[i].key) && LastFor(s.log, i)
  }

  /** A cell that names a log entry, or holds the volatile tombstone, has an
      unprocessed newest entry behind it, or one that is just being produced. */
  ghost predicate Backed(s: State, id: NodeId, v: CellVal) {
    || (exists i :: Live(s, i, id) && Expected(s.log[i]) == v)
    || (s.user.Stored? && s.user.entry.node == id && Expected(s.user.entry) == v)
  }

  /** What a cell's value says about the log, the tree and the specification. */
  ghost predicate CellOk(s: State, id: NodeId)
    requires id in s.cache.cells
  {
    var c := s.cache.cells[id];
    match c.val
    case InLog(_) => Backed(s, id, c.val)
    case TombVolatile => Backed(s, id, c.val)
    case TombPersistent => c.key !in s.tree && (InFlight(s, c.key) || c.key !in s.spec)
    case InTree(loc) =>
      && c.key in s.tree && s.tree[c.key].loc == loc
      && !Pending(s, c.key) && !InFlight(s, c.key)
    case Null => s.user.Nulled? && s.user.node == id
  }

  ghost predicate CellsOk(s: State) {
    forall id :: id in s.cache.cells ==> CellOk(s, id)
  }

  ghost predicate Holds(s: State, id: NodeId, k: Key) {
    id in s.cache.cells && s.cache.cells[id].key == k
  }

  ghost predicate UserOk(s: State) {
    match s.user
    case Idle => true
    case Removing(_) => true
    case Nulled(k, _, id) => Holds(s, id, k) && s.cache.cells[id].val == Null
    case Stored(e) =>
      && Holds(s, e.node, e.key)
      && (s.cache.cells[e.node].val == Expected(e) || (e.op == Erase && s.cache.cells[e.node].val == TombPersistent))
    case Missed(k, loc) => k !in s.cache.index && k in s.tree && s.tree[k].loc == loc
    case Reading(k, id) => Holds(s, id, k)
    case Loaded(k, id, v) =>
      && Holds(s, id, k) && (v.InLog? || v.InTree?)
      && (v.InTree? ==> s.cache.cells[id].val == v)
    case Copied(k, id, a, data) =>
      && Holds(s, id, k)
      && (s.cache.cells[id].val == InLog(a) ==> Lookup(s.spec, k) == Some(data))
  }

  /** The tree has to be right about a key: no entry for it is left to process, or the
      cache does not hold it. */
  ghost predicate Due(s: State, k: Key) {
    !InFlight(s, k) && (!Pending(s, k) || k !in s.cache.index)
  }

  ghost predicate TreeOk(s: State) {
    && (forall k :: Due(s, k) ==> TreeGet(s.tree, k) == Lookup(s.spec, k))
    && forall k :: Pending(s, k) && k !in s.cache.index ==> k !in s.tree
  }

  /** The newest entry of every key carries the last completed operation on it. */
  ghost predicate LogOk(s: State) {
    forall i :: LastFor(s.log, i) ==> Result(s.log[i].op) == Lookup(s.spec, s.log[i].key)
  }

  ghost predicate BgOk(s: State) {
    && BgInRange(s)
    && (s.bg.Update? || s.bg.Cas? ==>
          && s.log[s.bg.pos].node in s.cache.cells
          && var v := CellOf(s, s.log[s.bg.pos].node); v != TombPersistent && !v.InTree?)
    && ((s.bg.Update? || s.bg.Cas?) && s.log[s.bg.pos].op.Assign? ==>
          && Holds(s, s.log[s.bg.pos].node, s.log[s.bg.pos].key)
          && forall i: nat :: Strays(s, i) ==>
               s.log[i].key != s.log[s.bg.pos].key
               && s.cache.cells[s.log[i].node].key != s.log[s.bg.pos].key)
    && (s.bg.Cas? ==>
          var e := s.log[s.bg.pos];
          && TreeGet(s.tree, e.key) == Result(e.op)
          && (if e.op.Erase? then s.bg.desired == TombPersistent
              else e.key in s.tree && s.bg.desired == InTree(s.tree[e.key].loc)))
  }

  ghost predicate Inv(s: State) {
    && Ok(s.cache, s.maxSize) && OwnerOk(s) && AddrOk(s) && BgOk(s) && UserOk(s)
    && CellsOk(s) && TreeOk(s) && LogOk(s)
  }

  // ------------------------------------------------------------ the background steps

  /** A step that leaves the log, a cell and the tree at the cell's key alone keeps
      what the cell says, as long as what is in flight for that key stays so. */
  lemma CellKept(s: State, t: State, id: NodeId)
    requires t.log == s.log && Pos(t.bg) == Pos(s.bg) && t.spec == s.spec
    requires id in s.cache.cells && id in t.cache.cells && t.cache.cells[id] == s.cache.cells[id]
    requires CellOk(s, id)
    requires t.user == s.user || (!s.user.Stored? && s.cache.cells[id].val != Null)
    requires InFlight(t, s.cache.cells[id].key) <==> InFlight(s, s.cache.cells[id].key)
    requires Lookup(t.tree, s.cache.cells[id].key) == Lookup(s.tree, s.cache.cells[id].key)
    ensures CellOk(t, id)
  {
    var v := s.cache.cells[id].val;
    if v.InLog? || v == TombVolatile {
      if i :| Live(s, i, id) && Expected(s.log[i]) == v { assert Live(t, i, id); }
    }
    assert Pending(t, t.cache.cells[id].key) ==> Pending(s, t.cache.cells[id].key);
  }

  lemma TreeKept(s: State, t: State)
    requires t.log == s.log && Pos(t.bg) == Pos(s.bg) && t.tree == s.tree && t.spec == s.spec
    requires t.user == s.user || (!s.user.Stored? && !s.user.Nulled?)
    requires t.cache.index.Keys == s.cache.index.Keys
    requires TreeOk(s)
    ensures TreeOk(t)
  {
    assert forall k :: Pending(t, k) <==> Pending(s, k);
    assert forall k :: Due(t, k) ==> Due(s, k);
  }

  /** Nodes keep their keys. */
  predicate SameKeys(s: State, t: State) {
    forall id :: id in s.cache.cells ==> id in t.cache.cells && t.cache.cells[id].key == s.cache.cells[id].key
  }

  /** No erase that has gone astray is for the key, or names its node. */
  ghost predicate NoStrayOf(s: State, k: Key) {
    forall i: nat :: Strays(s, i) ==> s.log[i].key != k && s.cache.cells[s.log[i].node].key != k
  }

  /** An erase stays stale while nodes keep their keys and the tree gains no key that
      matters to a stray erase. */
  lemma OwnerKept(s: State, t: State)
    requires OwnerOk(s) && t.log == s.log && Pos(s.bg) <= Pos(t.bg) && SameKeys(s, t)
    requires forall k :: k in t.tree ==> k in s.tree || NoStrayOf(s, k)
    ensures OwnerOk(t)
  {
    hide LastFor;
    forall i: nat | Strays(t, i)
      ensures Stale(t, i)
    {
      assert s.log[i].node in s.cache.cells;
      assert Strays(s, i);
    }
  }

  lemma KeepBatchStart(s: State, n: nat)
    requires Inv(s) && Enabled(s, BatchStart(n))
    ensures Inv(Apply(s, BatchStart(n)))
  {
    hide LastFor, Backed;
    var t := Apply(s, BatchStart(n));
    forall id | id in t.cache.cells ensures CellOk(t, id) { CellKept(s, t, id); }
    TreeKept(s, t);
    OwnerKept(s, t);
  }

  /** An assignment that the cell still names is the newest entry of the node's key, and
      no stray erase of that key is left. */
  lemma MatchOwned(s: State)
    requires Inv(s) && s.bg != Waiting && s.bg.pos < s.bg.batch && s.log[s.bg.pos].op.Assign?
    requires CellOf(s, s.log[s.bg.pos].node) == Expected(s.log[s.bg.pos])
    ensures Live(s, s.bg.pos, s.log[s.bg.pos].node) && NoStrayOf(s, s.log[s.bg.pos].key)
    ensures !InFlight(s, s.log[s.bg.pos].key)
  {
    hide TreeOk, LogOk;
    var p := s.bg.pos;
    var e := s.log[p];
    assert CellOk(s, e.node) && Backed(s, e.node, InLog(e.addr));
    var i :| Live(s, i, e.node) && Expected(s.log[i]) == InLog(e.addr);
    assert i == p;
    forall j: nat | Strays(s, j)
      ensures s.log[j].key != e.key && s.cache.cells[s.log[j].node].key != e.key
    {
      assert Stale(s, j);
    }
    if InFlight(s, e.key) { OneNode(s, e.node, e.key); }
  }

  /** What is in flight for a key has nulled its cell, or left the new value in it. */
  lemma OneNode(s: State, id: NodeId, k: Key)
    requires Ok(s.cache, s.maxSize) && UserOk(s) && AddrOk(s) && Holds(s, id, k) && InFlight(s, k)
    ensures forall i :: 0 <= i < |s.log| ==> s.cache.cells[id].val != InLog(s.log[i].addr)
  {
  }

  /** The load of an entry that is still current changes nothing yet. */
  lemma KeepLoadMatch(s: State)
    requires Inv(s) && Enabled(s, BgLoad) && CellOf(s, s.log[s.bg.pos].node) == Expected(s.log[s.bg.pos])
    ensures Inv(Apply(s, BgLoad))
  {
    hide Ok, LastFor, Backed;
    var t := Apply(s, BgLoad);
    if s.log[s.bg.pos].op.Assign? { MatchOwned(s); }
    forall id | id in t.cache.cells ensures CellOk(t, id) { CellKept(s, t, id); }
    TreeKept(s, t);
    OwnerKept(s, t);
    assert forall i: nat :: Strays(t, i) ==> Strays(s, i);
  }

  /** Passing entry `pos` makes a key settled only if it was the entry's key. */
  lemma PassOne(s: State, t: State)
    requires Pos(t.bg) == Pos(s.bg) + 1 && Pos(s.bg) < |s.log| && t.log == s.log
    ensures forall k :: Pending(t, k) ==> Pending(s, k)
    ensures forall k :: Pending(s, k) && k != s.log[Pos(s.bg)].key ==> Pending(t, k)
    ensures !Pending(t, s.log[Pos(s.bg)].key) <==> LastFor(s.log, Pos(s.bg))
  {
    var p := Pos(s.bg);
    forall k | Pending(s, k) && k != s.log[p].key
      ensures Pending(t, k)
    {
      var i :| p <= i < |s.log| && s.log[i].key == k;
      assert t.log[i].key == k;
    }
    if !Pending(t, s.log[p].key) {
      forall j | p < j < |s.log| ensures s.log[j].key != s.log[p].key {
        assert t.log[j].key == s.log[j].key;
      }
    }
  }

  /** An entry is skipped although it is the newest for a cached key only when an erase
      has left the persistent tombstone in the key's cell, or a put is in flight. */
  lemma SkippedNewest(s: State)
    requires Inv(s) && s.bg.Load? && s.bg.pos < s.bg.batch && LastFor(s.log, s.bg.pos)
    requires CellOf(s, s.log[s.bg.pos].node) != Expected(s.log[s.bg.pos])
    requires !InFlight(s, s.log[s.bg.pos].key) && s.log[s.bg.pos].key in s.cache.index
    ensures TreeGet(s.tree, s.log[s.bg.pos].key) == Lookup(s.spec, s.log[s.bg.pos].key)
  {
    hide OwnerOk, TreeOk, LogOk, AddrOk;
    var p := s.bg.pos;
    var k := s.log[p].key;
    var id := s.cache.index[k];
    assert CellOk(s, id) && s.cache.cells[id].key == k;
    assert Pending(s, k);
    forall i | Live(s, i, id)
      ensures i == p
    {
      assert s.log[i].key == k;
    }
  }

  lemma BackedAfter(s: State, t: State, id: NodeId, v: CellVal)
    requires id in s.cache.cells && Backed(s, id, v)
    requires id in t.cache.cells && t.cache.cells[id].key == s.cache.cells[id].key
    requires Pos(t.bg) == Pos(s.bg) + 1 && Pos(s.bg) < |s.log| && t.log == s.log && t.user == s.user
    requires s.log[Pos(s.bg)].node == id ==> Expected(s.log[Pos(s.bg)]) != v
    ensures Backed(t, id, v)
  {
    if i :| Live(s, i, id) && Expected(s.log[i]) == v {
      assert i != Pos(s.bg);
      assert Live(t, i, id);
    }
  }

  lemma SkipTree(s: State)
    requires Inv(s) && Enabled(s, BgLoad) && CellOf(s, s.log[s.bg.pos].node) != Expected(s.log[s.bg.pos])
    ensures TreeOk(Apply(s, BgLoad))
  {
    hide Ok, CellsOk, Backed, OwnerOk, LogOk, AddrOk, UserOk, LastFor, Pending;
    var t := Apply(s, BgLoad);
    PassOne(s, t);
    forall k | Due(t, k)
      ensures TreeGet(t.tree, k) == Lookup(t.spec, k)
    {
      if !Due(s, k) { SkippedNewest(s); }
    }
  }

  lemma KeepSkip(s: State)
    requires Inv(s) && Enabled(s, BgLoad) && CellOf(s, s.log[s.bg.pos].node) != Expected(s.log[s.bg.pos])
    ensures Inv(Apply(s, BgLoad))
  {
    hide Ok, LastFor, Backed, TreeOk;
    var t := Apply(s, BgLoad);
    var p := s.bg.pos;
    PassOne(s, t);
    forall id | id in s.cache.cells
      ensures CellOk(t, id)
    {
      assert CellOk(s, id);
      var v := s.cache.cells[id].val;
      if v.InLog? || v == TombVolatile { BackedAfter(s, t, id, v); }
    }
    SkipTree(s);
    OwnerKept(s, t);
  }

  /** A stray erase finds its key gone. */
  lemma StrayKey(s: State)
    requires OwnerOk(s) && BgInRange(s) && (s.bg.Update? || s.bg.Cas?) && s.log[s.bg.pos].op == Erase
    ensures s.log[s.bg.pos].node in s.cache.cells
    ensures Holds(s, s.log[s.bg.pos].node, s.log[s.bg.pos].key)
            || (s.log[s.bg.pos].key !in s.tree && s.cache.cells[s.log[s.bg.pos].node].key !in s.tree)
  {
    if !Holds(s, s.log[s.bg.pos].node, s.log[s.bg.pos].key) { assert Strays(s, s.bg.pos) && Stale(s, s.bg.pos); }
  }

  /** The node of the entry that is applied belongs to its key, or the tree stays as it is. */
  lemma UpdateOwned(s: State, loc: nat)
    requires Inv(s) && Enabled(s, BgUpdate(loc))
    ensures var e := s.log[s.bg.pos];
            Holds(s, e.node, e.key) || (e.op == Erase && e.key !in s.tree && Apply(s, BgUpdate(loc)).tree == s.tree)
  {
    hide Ok, AddrOk, UserOk, CellsOk, TreeOk, LogOk, LastFor;
    if s.log[s.bg.pos].op == Erase { StrayKey(s); }
  }

  /** The tree does not matter to a cell that waits for an entry. */
  lemma TreelessCell(s: State, t: State, id: NodeId)
    requires id in s.cache.cells && CellOk(s, id) && t == s.(tree := t.tree)
    requires s.cache.cells[id].val != TombPersistent && !s.cache.cells[id].val.InTree?
    ensures CellOk(t, id)
  {
    var v := s.cache.cells[id].val;
    if i :| Live(s, i, id) && Expected(s.log[i]) == v { assert Live(t, i, id); }
  }

  lemma UpdateCells(s: State, loc: nat)
    requires Inv(s) && Enabled(s, BgUpdate(loc))
    ensures CellsOk(Apply(s, BgUpdate(loc)))
  {
    hide OwnerOk, AddrOk, UserOk, TreeOk, LogOk, LastFor, Backed, Pending;
    var t := Apply(s, BgUpdate(loc));
    var e := s.log[s.bg.pos];
    UpdateOwned(s, loc);
    forall id | id in t.cache.cells
      ensures CellOk(t, id)
    {
      if s.cache.cells[id].key == e.key && Holds(s, e.node, e.key) {
        assert id == e.node;
        CellKept(s, s.(bg := t.bg), id);
        TreelessCell(s.(bg := t.bg), t, id);
      } else {
        CellKept(s, t, id);
      }
    }
  }

  lemma UpdateTree(s: State, loc: nat)
    requires Inv(s) && Enabled(s, BgUpdate(loc))
    ensures TreeOk(Apply(s, BgUpdate(loc)))
  {
    hide OwnerOk, AddrOk, UserOk, CellsOk, LogOk, LastFor;
    var t := Apply(s, BgUpdate(loc));
    var e := s.log[s.bg.pos];
    UpdateOwned(s, loc);
    assert forall k :: Pending(t, k) <==> Pending(s, k);
    assert Pending(s, e.key);
    assert Holds(s, e.node, e.key) ==> e.key in s.cache.index;
  }

  lemma UpdateOwner(s: State, loc: nat)
    requires Inv(s) && Enabled(s, BgUpdate(loc))
    ensures OwnerOk(Apply(s, BgUpdate(loc))) && BgOk(Apply(s, BgUpdate(loc)))
  {
    hide Ok, AddrOk, UserOk, CellsOk, TreeOk, LogOk;
    var t := Apply(s, BgUpdate(loc));
    assert s.log[s.bg.pos].op.Assign? ==> NoStrayOf(s, s.log[s.bg.pos].key);
    OwnerKept(s, t);
    assert forall i: nat :: Strays(t, i) ==> Strays(s, i);
  }

  lemma KeepUpdate(s: State, loc: nat)
    requires Inv(s) && Enabled(s, BgUpdate(loc))
    ensures Inv(Apply(s, BgUpdate(loc)))
  {
    hide CellOk, CellsOk, LastFor, OwnerOk, TreeOk;
    UpdateCells(s, loc);
    UpdateTree(s, loc);
    UpdateOwner(s, loc);
    UpdateOwned(s, loc);
  }

  lemma CasHitCell(s: State)
    requires Inv(s) && Enabled(s, BgCas) && CellOf(s, s.log[s.bg.pos].node) == Expected(s.log[s.bg.pos])
    ensures CellOk(Apply(s, BgCas), s.log[s.bg.pos].node)
  {
    hide Ok, TreeOk;
    var t := Apply(s, BgCas);
    var e := s.log[s.bg.pos];
    PassOne(s, t);
    assert CellOk(s, e.node);
    if e.op.Assign? {
      MatchOwned(s);
    } else {
      StrayKey(s);
      var q := s.cache.cells[e.node].key;
      if !InFlight(s, q) {
        var i :| Live(s, i, e.node) && Expected(s.log[i]) == TombVolatile;
        assert s.log[i].key == q;
      }
    }
  }

  lemma CasHitCells(s: State)
    requires Inv(s) && Enabled(s, BgCas) && CellOf(s, s.log[s.bg.pos].node) == Expected(s.log[s.bg.pos])
    ensures CellsOk(Apply(s, BgCas))
  {
    hide Ok, OwnerOk, TreeOk, LogOk, Backed, LastFor;
    var t := Apply(s, BgCas);
    var e := s.log[s.bg.pos];
    CasHitCell(s);
    PassOne(s, t);
    forall id | id in t.cache.cells && id != e.node
      ensures CellOk(t, id)
    {
      assert CellOk(s, id);
      var v := s.cache.cells[id].val;
      if v.InLog? || v == TombVolatile { BackedAfter(s, t, id, v); }
    }
  }

  /** Passing the newest entry of a key leaves the tree right about the key. */
  lemma CasTree(s: State)
    requires Inv(s) && Enabled(s, BgCas)
    ensures TreeOk(Apply(s, BgCas))
  {
    hide Ok, CellsOk, OwnerOk, AddrOk, UserOk, Pending;
    PassOne(s, Apply(s, BgCas));
  }

  lemma KeepCasHit(s: State)
    requires Inv(s) && Enabled(s, BgCas) && CellOf(s, s.log[s.bg.pos].node) == Expected(s.log[s.bg.pos])
    ensures Inv(Apply(s, BgCas))
  {
    hide CellOk, CellsOk, TreeOk, LastFor, Pending;
    CasHitCells(s);
    CasTree(s);
    OwnerKept(s, Apply(s, BgCas));
  }

  lemma KeepCasMiss(s: State)
    requires Inv(s) && Enabled(s, BgCas) && CellOf(s, s.log[s.bg.pos].node) != Expected(s.log[s.bg.pos])
    ensures Inv(Apply(s, BgCas))
  {
    hide Ok, LastFor, Backed, TreeOk;
    var t := Apply(s, BgCas);
    PassOne(s, t);
    forall id | id in t.cache.cells
      ensures CellOk(t, id)
    {
      assert CellOk(s, id);
      var v := s.cache.cells[id].val;
      if v.InLog? || v == TombVolatile { BackedAfter(s, t, id, v); }
    }
    CasTree(s);
    OwnerKept(s, t);
  }

  /** Releasing a batch drops processed entries only. */
  lemma ReleasePending(s: State, t: State, k: Key)
    requires Pos(s.bg) <= |s.log| && t.log == s.log[Pos(s.bg)..] && Pos(t.bg) == 0
    ensures Pending(t, k) <==> Pending(s, k)
  {
    var b := Pos(s.bg);
    if Pending(s, k) {
      var i :| b <= i < |s.log| && s.log[i].key == k;
      assert t.log[i - b].key == k;
    }
    if Pending(t, k) {
      var i :| 0 <= i < |t.log| && t.log[i].key == k;
      assert s.log[i + b].key == k;
    }
  }

  lemma ReleaseLast(s: State, t: State, i: nat)
    requires Pos(s.bg) <= |s.log| && t.log == s.log[Pos(s.bg)..]
    ensures LastFor(t.log, i) <==> LastFor(s.log, i + Pos(s.bg))
  {
    var b := Pos(s.bg);
    if LastFor(t.log, i) {
      forall j | i + b < j < |s.log| ensures s.log[j].key != s.log[i + b].key {
        assert s.log[j] == t.log[j - b];
      }
    }
  }

  lemma ReleaseBacked(s: State, t: State, id: NodeId, v: CellVal)
    requires Pos(s.bg) <= |s.log| && t.log == s.log[Pos(s.bg)..] && Pos(t.bg) == 0 && t.user == s.user
    requires t.cache == s.cache && Backed(s, id, v)
    ensures Backed(t, id, v)
  {
    var b := Pos(s.bg);
    if i :| Live(s, i, id) && Expected(s.log[i]) == v {
      ReleaseLast(s, t, i - b);
      assert Live(t, i - b, id) && Expected(t.log[i - b]) == v;
    }
  }

  lemma ReleaseOwner(s: State, t: State)
    requires OwnerOk(s) && Pos(s.bg) <= |s.log| && t.log == s.log[Pos(s.bg)..] && Pos(t.bg) == 0
    requires t.cache == s.cache && t.tree == s.tree
    ensures OwnerOk(t)
  {
    hide LastFor;
    var b := Pos(s.bg);
    forall i: nat | i < |t.log| && t.log[i].op == Erase
      ensures t.log[i].node in t.cache.cells && (Strays(t, i) ==> Stale(t, i))
    {
      assert s.log[i + b] == t.log[i];
      if Strays(t, i) {
        assert Strays(s, i + b) && Stale(s, i + b);
        LastInside(t.log);
        forall j | 0 <= j < |t.log| && LastFor(t.log, j) && t.log[j].op.Assign?
                   && (t.log[j].key == t.log[i].key || t.log[j].key == t.cache.cells[t.log[i].node].key)
          ensures j > i
        {
          ReleaseLast(s, t, j);
          assert s.log[j + b] == t.log[j];
        }
      }
    }
  }

  lemma LastInside(log: seq<Entry>)
    ensures forall j :: LastFor(log, j) ==> 0 <= j < |log|
  {
  }

  lemma ReleaseCells(s: State)
    requires Inv(s) && Enabled(s, Release)
    ensures CellsOk(Apply(s, Release))
  {
    hide Ok, LastFor, Backed, OwnerOk, TreeOk, LogOk, AddrOk, UserOk;
    var t := Apply(s, Release);
    forall k ensures Pending(t, k) <==> Pending(s, k) { ReleasePending(s, t, k); }
    forall id | id in t.cache.cells
      ensures CellOk(t, id)
    {
      assert CellOk(s, id);
      var v := s.cache.cells[id].val;
      if v.InLog? || v == TombVolatile { ReleaseBacked(s, t, id, v); }
    }
  }

  lemma ReleaseLogTree(s: State)
    requires Inv(s) && Enabled(s, Release)
    ensures LogOk(Apply(s, Release)) && TreeOk(Apply(s, Release))
  {
    hide Ok, CellsOk, LastFor, OwnerOk, AddrOk, UserOk;
    var t := Apply(s, Release);
    forall k ensures Pending(t, k) <==> Pending(s, k) { ReleasePending(s, t, k); }
    forall i: nat | i < |t.log| && LastFor(t.log, i)
      ensures Result(t.log[i].op) == Lookup(t.spec, t.log[i].key)
    {
      ReleaseLast(s, t, i);
    }
    LastInside(t.log);
  }

  lemma KeepRelease(s: State)
    requires Inv(s) && Enabled(s, Release)
    ensures Inv(Apply(s, Release))
  {
    hide Ok, CellsOk, LastFor, OwnerOk, TreeOk, LogOk;
    ReleaseCells(s);
    ReleaseLogTree(s);
    ReleaseOwner(s, Apply(s, Release));
  }

  // ------------------------------------------------------------ the user steps

  /** The key for which the event puts a node into the cache. */
  function KeyOf(s: State, e: Event): Key {
    if e.PutStart? then e.key else if s.user.Missed? then s.user.key else 0.0
  }

  /** The node an event takes away from another key, if any. */
  function Evicted(s: State, e: Event): Option<NodeId> {
    if (e.PutStart? || e.CacheFill?) && KeyOf(s, e) !in s.cache.index && |s.cache.lru| >= s.maxSize
    then e.pick else None
  }

  /** The event takes no node that an erase still to be dealt with names, or takes it for a
      key that the tree does not hold. */
  predicate Harmless(s: State, e: Event) {
    var v := Evicted(s, e);
    v.Some? && KeyOf(s, e) in s.tree ==>
      forall i :: Pos(s.bg) <= i < |s.log| && s.log[i].op == Erase ==> s.log[i].node != v.value
  }

  lemma CachePutWithEvictOk(s: State, k: Key, v: CellVal, spare: NodeId, pick: Option<NodeId>)
    requires Ok(s.cache, s.maxSize) && spare !in s.cache.cells && MayGo(s, pick)
    ensures var r := CachePutWithEvict(s, k, v, spare, pick);
            r.Some? ==>
              && PutDone(s.cache, r.value.0, r.value.1, s.maxSize, k, v)
              && (r.value.1 in s.cache.cells ==>
                    (s.cache.cells[r.value.1].key == k && k in s.cache.index) ||
                    (k !in s.cache.index && |s.cache.lru| >= s.maxSize && pick == Some(r.value.1)))
              && (r.value.1 !in s.cache.cells ==> k !in s.cache.index)
              && forall q :: q in s.cache.index && q !in r.value.0.index ==>
                   r.value.1 in s.cache.cells && s.cache.cells[r.value.1].key == q
  {
    CachePutOk(s.cache, s.maxSize, k, v, pick, spare);
  }

  /** The cache has taken node `id` for key `k`, and nothing else has changed but the user. */
  ghost predicate Took(s: State, t: State, id: NodeId, k: Key, v: CellVal) {
    && t == s.(cache := t.cache, user := t.user)
    && Ok(s.cache, s.maxSize) && PutDone(s.cache, t.cache, id, s.maxSize, k, v)
    && (id in s.cache.cells ==> s.cache.cells[id].key == k || (k !in s.cache.index && Evictable(s.cache.cells[id].val)))
    && (forall q :: q in s.cache.index && q !in t.cache.index ==> id in s.cache.cells && s.cache.cells[id].key == q)
    && !s.user.Nulled? && !s.user.Stored?
  }

  /** No erase that is left names the node, or the tree does not hold the key. */
  ghost predicate Spared(s: State, id: NodeId, k: Key) {
    k !in s.cache.index && k in s.tree ==>
      forall i :: Pos(s.bg) <= i < |s.log| && s.log[i].op == Erase ==> s.log[i].node != id
  }

  /** A node that is given away has an empty past: its key is nowhere and its newest entry
      is an erase, or nothing is left to do for the key. */
  lemma GivenAway(s: State, t: State, id: NodeId, k: Key, v: CellVal)
    requires Inv(s) && Took(s, t, id, k, v) && id in s.cache.cells && s.cache.cells[id].key != k
    ensures var p := s.cache.cells[id].key;
            && TreeGet(s.tree, p) == Lookup(s.spec, p)
            && (Pending(s, p) ==> p !in s.tree && p !in s.spec)
  {
    hide OwnerOk, AddrOk, UserOk, BgOk, LogOk, Backed;
    assert CellOk(s, id);
  }

  /** A key outside the cache and outside the tree has no assignment as its newest entry. */
  lemma GoneKey(s: State, k: Key)
    requires LogOk(s) && k !in s.spec
    ensures forall j :: LastFor(s.log, j) && s.log[j].key == k ==> s.log[j].op == Erase
  {
    forall j | LastFor(s.log, j) && s.log[j].key == k
      ensures s.log[j].op == Erase
    {
      assert Result(s.log[j].op) == None;
    }
  }

  lemma UncachedKey(s: State, k: Key)
    requires TreeOk(s) && k !in s.cache.index && !InFlight(s, k)
    ensures TreeGet(s.tree, k) == Lookup(s.spec, k) && (Pending(s, k) ==> k !in s.tree)
  {
  }

  /** An erase goes stale when its node goes to another key. */
  lemma GoesStale(s: State, t: State, id: NodeId, k: Key, v: CellVal, i: nat)
    requires Inv(s) && Took(s, t, id, k, v) && Spared(s, id, k)
    requires Strays(t, i) && s.log[i].node == id
    requires id in s.cache.cells && s.cache.cells[id].key != k
    ensures Stale(t, i)
  {
    hide LastFor, CellsOk, AddrOk, BgOk, UserOk;
    var p := s.cache.cells[id].key;
    assert k !in s.cache.index && k !in s.tree;
    UncachedKey(s, k);
    GoneKey(s, k);
    if s.log[i].key == p {
      GivenAway(s, t, id, k, v);
      assert Pending(s, p);
      GoneKey(s, p);
    } else {
      assert Strays(s, i) && Stale(s, i);
    }
  }

  lemma TookOwner(s: State, t: State, id: NodeId, k: Key, v: CellVal)
    requires Inv(s) && Took(s, t, id, k, v) && Spared(s, id, k)
    ensures OwnerOk(t)
  {
    hide LastFor, CellsOk, AddrOk, BgOk, UserOk, TreeOk, LogOk;
    forall i: nat | Pos(t.bg) <= i < |t.log| && t.log[i].op == Erase
      ensures t.log[i].node in t.cache.cells && (Strays(t, i) ==> Stale(t, i))
    {
      assert s.log[i].node in s.cache.cells;
      if Strays(t, i) {
        if s.log[i].node == id && s.cache.cells[id].key != k {
          GoesStale(s, t, id, k, v, i);
        } else {
          assert Strays(s, i) && Stale(s, i);
        }
      }
    }
  }

  lemma TookTree(s: State, t: State, id: NodeId, k: Key, v: CellVal)
    requires Inv(s) && Took(s, t, id, k, v) && (InFlight(t, k) || k in s.cache.index || !Pending(s, k))
    requires forall q :: InFlight(t, q) ==> q == k
    ensures TreeOk(t)
  {
    hide LastFor, Ok, OwnerOk, CellsOk, AddrOk, BgOk, UserOk, LogOk;
    assert forall q :: Pending(t, q) <==> Pending(s, q);
    if id in s.cache.cells && s.cache.cells[id].key != k { GivenAway(s, t, id, k, v); }
    assert forall q :: Due(t, q) ==> Due(s, q) || q in s.cache.index;
  }

  /** The background thread is not working on a node that is taken. */
  lemma TookBg(s: State, t: State, id: NodeId, k: Key, v: CellVal)
    requires Inv(s) && Took(s, t, id, k, v)
    requires k in s.cache.index ==> v == Null
    ensures BgOk(t)
  {
    hide LastFor, AddrOk, TreeOk, LogOk, Stale;
    if s.bg.Update? || s.bg.Cas? {
      var e := s.log[s.bg.pos];
      assert id in s.cache.cells && s.cache.cells[id].key != k ==> CellOk(s, id) && e.node != id;
      if e.op.Assign? {
        assert e.key in s.cache.index;
        forall i: nat | Strays(t, i)
          ensures s.log[i].key != e.key && t.cache.cells[s.log[i].node].key != e.key
        {
          assert s.log[i].node in s.cache.cells;
          assert !Strays(s, i) ==> s.log[i].node == id && s.log[i].key == s.cache.cells[id].key;
        }
      }
    }
  }

  lemma TookCells(s: State, t: State, id: NodeId, k: Key, v: CellVal)
    requires Inv(s) && Took(s, t, id, k, v) && CellOk(t, id)
    requires forall q :: InFlight(t, q) ==> q == k
    ensures CellsOk(t)
  {
    hide LastFor, OwnerOk, AddrOk, BgOk, TreeOk, LogOk;
    forall j | j in t.cache.cells && j != id
      ensures CellOk(t, j)
    {
      assert CellOk(s, j) && t.cache.cells[j].key != k;
      CellKept(s, t, j);
    }
  }

  lemma PutStartTook(s: State, k: Key, op: Op, spare: NodeId, pick: Option<NodeId>)
    requires Inv(s) && Enabled(s, PutStart(k, op, spare, pick))
    ensures var t := Apply(s, PutStart(k, op, spare, pick));
            && t.user.Nulled? && t.user.key == k && Took(s, t, t.user.node, k, Null)
            && (Harmless(s, PutStart(k, op, spare, pick)) ==> Spared(s, t.user.node, k))
  {
    hide CellsOk, CellOk, AddrOk, UserOk, TreeOk, LogOk, OwnerOk, Ok, PutDone, CachePut, CachePutWithEvict;
    CachePutWithEvictOk(s, k, Null, spare, pick);
    var id := Apply(s, PutStart(k, op, spare, pick)).user.node;
    if id !in s.cache.cells { SpareFree(s, id); }
  }

  /** No erase names a node that does not exist. */
  lemma SpareFree(s: State, spare: NodeId)
    requires OwnerOk(s) && spare !in s.cache.cells
    ensures forall i: nat :: Pos(s.bg) <= i < |s.log| && s.log[i].op == Erase ==> s.log[i].node != spare
  {
  }

  lemma KeepPutStart(s: State, k: Key, op: Op, spare: NodeId, pick: Option<NodeId>)
    requires Inv(s) && Enabled(s, PutStart(k, op, spare, pick)) && Harmless(s, PutStart(k, op, spare, pick))
    ensures Inv(Apply(s, PutStart(k, op, spare, pick)))
  {
    hide CellsOk, OwnerOk, TreeOk, LastFor, Backed, CachePut;
    var t := Apply(s, PutStart(k, op, spare, pick));
    var id := t.user.node;
    PutStartTook(s, k, op, spare, pick);
    TookOwner(s, t, id, k, Null);
    TookTree(s, t, id, k, Null);
    TookBg(s, t, id, k, Null);
    TookCells(s, t, id, k, Null);
  }

  lemma StoreCells(s: State, a: nat)
    requires Inv(s) && Enabled(s, StoreCell(a))
    ensures CellsOk(Apply(s, StoreCell(a)))
  {
    hide LastFor, OwnerOk, TreeOk, LogOk, Ok;
    var t := Apply(s, StoreCell(a));
    forall id | id in t.cache.cells
      ensures CellOk(t, id)
    {
      assert CellOk(s, id);
      if id == s.user.node {
        assert Backed(t, id, Expected(t.user.entry));
      } else {
        CellKept(s, t, id);
      }
    }
  }

  lemma KeepStoreCell(s: State, a: nat)
    requires Inv(s) && Enabled(s, StoreCell(a))
    ensures Inv(Apply(s, StoreCell(a)))
  {
    hide LastFor, CellsOk;
    var t := Apply(s, StoreCell(a));
    StoreCells(s, a);
    OwnerKept(s, t);
    assert forall k :: Pending(t, k) <==> Pending(s, k);
    assert forall i: nat :: Strays(t, i) ==> Strays(s, i);
  }

  lemma PublishLog(s: State, t: State)
    requires s.user.Stored? && t.log == s.log + [s.user.entry] && t.bg == s.bg && Pos(s.bg) <= |s.log|
    ensures forall q :: Pending(t, q) <==> Pending(s, q) || q == s.user.entry.key
    ensures LastFor(t.log, |s.log|)
    ensures forall i :: 0 <= i < |s.log| ==>
              (LastFor(t.log, i) <==> LastFor(s.log, i) && s.log[i].key != s.user.entry.key)
  {
    var n := |s.log|;
    assert t.log[n] == s.user.entry && forall i :: 0 <= i < n ==> t.log[i] == s.log[i];
    forall q
      ensures Pending(t, q) <==> Pending(s, q) || q == s.user.entry.key
    {
      if i :| Pos(s.bg) <= i < n && s.log[i].key == q { assert t.log[i].key == q; }
    }
    forall i | 0 <= i < n
      ensures LastFor(t.log, i) <==> LastFor(s.log, i) && s.log[i].key != s.user.entry.key
    {
      if LastFor(t.log, i) {
        assert t.log[n].key != t.log[i].key;
        forall j | i < j < n ensures s.log[j].key != s.log[i].key { assert t.log[j].key != t.log[i].key; }
      }
    }
  }

  lemma PublishCell(s: State, id: NodeId)
    requires Inv(s) && Enabled(s, Publish) && id in s.cache.cells
    ensures CellOk(Apply(s, Publish), id)
  {
    hide OwnerOk, TreeOk, LogOk, AddrOk;
    var t := Apply(s, Publish);
    PublishLog(s, t);
    var n := |s.log|;
    assert t.log[n] == s.user.entry;
    assert CellOk(s, id);
    var v := s.cache.cells[id].val;
    if id == s.user.entry.node {
      assert Live(t, n, id);
    } else {
      assert s.cache.cells[id].key != s.user.entry.key;
      if v.InLog? || v == TombVolatile {
        var i :| Live(s, i, id) && Expected(s.log[i]) == v;
        assert s.log[i].key == s.cache.cells[id].key;
        assert t.log[i] == s.log[i] && Live(t, i, id);
      }
    }
  }

  lemma PublishOwner(s: State)
    requires Inv(s) && Enabled(s, Publish)
    ensures OwnerOk(Apply(s, Publish)) && BgOk(Apply(s, Publish))
  {
    hide CellsOk, Ok, TreeOk, LogOk, LastFor, AddrOk;
    var t := Apply(s, Publish);
    PublishLog(s, t);
    LastInside(t.log);
    var n := |s.log|;
    assert t.log[n] == s.user.entry && !Strays(t, n);
    forall i: nat | Strays(t, i)
      ensures Strays(s, i) && Stale(t, i)
    {
      assert i < n && t.log[i] == s.log[i];
      assert Strays(s, i) && Stale(s, i);
      assert forall j :: 0 <= j < n ==> t.log[j] == s.log[j];
    }
  }

  lemma KeepPublish(s: State)
    requires Inv(s) && Enabled(s, Publish)
    ensures Inv(Apply(s, Publish))
  {
    hide CellOk, CellsOk, Ok, LastFor, Pending, OwnerOk, LogOk, TreeOk;
    var t := Apply(s, Publish);
    PublishCells(s);
    PublishSpec(s);
    PublishOwner(s);
  }

  lemma PublishCells(s: State)
    requires Inv(s) && Enabled(s, Publish)
    ensures CellsOk(Apply(s, Publish))
  {
    hide CellOk, Ok, OwnerOk, TreeOk, LogOk, LastFor;
    forall id | id in Apply(s, Publish).cache.cells ensures CellOk(Apply(s, Publish), id) { PublishCell(s, id); }
  }

  lemma PublishSpec(s: State)
    requires Inv(s) && Enabled(s, Publish)
    ensures LogOk(Apply(s, Publish)) && TreeOk(Apply(s, Publish))
  {
    hide CellsOk, OwnerOk, LastFor;
    PublishLog(s, Apply(s, Publish));
    LastInside(Apply(s, Publish).log);
  }

  lemma FillTook(s: State, spare: NodeId, pick: Option<NodeId>)
    requires Inv(s) && Enabled(s, CacheFill(spare, pick))
    ensures !Pending(s, s.user.key)
    ensures var r := CachePutWithEvict(s, s.user.key, InTree(s.user.loc), spare, pick);
            r.Some? ==>
              && Took(s, Apply(s, CacheFill(spare, pick)), r.value.1, s.user.key, InTree(s.user.loc))
              && (Harmless(s, CacheFill(spare, pick)) ==> Spared(s, r.value.1, s.user.key))
  {
    hide CellsOk, CellOk, AddrOk, LogOk, TreeOk, OwnerOk, Ok, PutDone, CachePut, CachePutWithEvict, Pending;
    CachePutWithEvictOk(s, s.user.key, InTree(s.user.loc), spare, pick);
    var r := CachePutWithEvict(s, s.user.key, InTree(s.user.loc), spare, pick);
    if r.Some? && r.value.1 !in s.cache.cells { SpareFree(s, r.value.1); }
    UncachedKey(s, s.user.key);
  }

  lemma KeepCacheFill(s: State, spare: NodeId, pick: Option<NodeId>)
    requires Inv(s) && Enabled(s, CacheFill(spare, pick)) && Harmless(s, CacheFill(spare, pick))
    ensures Inv(Apply(s, CacheFill(spare, pick)))
  {
    hide CellsOk, OwnerOk, TreeOk, LastFor, Backed, CachePut;
    var t := Apply(s, CacheFill(spare, pick));
    var k, v := s.user.key, InTree(s.user.loc);
    var r := CachePutWithEvict(s, k, v, spare, pick);
    FillTook(s, spare, pick);
    if r.None? {
      ReadKeeps(s, t);
    } else {
      var id := r.value.1;
      TookOwner(s, t, id, k, v);
      TookTree(s, t, id, k, v);
      TookBg(s, t, id, k, v);
      TookCells(s, t, id, k, v);
    }
  }

  lemma {:induction false} LogDataOk(log: seq<Entry>, i: nat, garbage: Value)
    requires i < |log| && log[i].op.Assign?
    requires forall p, q :: 0 <= p < q < |log| ==> log[p].addr != log[q].addr
    ensures LogData(log, log[i].addr, garbage) == log[i].op.value
  {
    if i > 0 {
      LogDataOk(log[1..], i - 1, garbage);
    }
  }

  /** A user that only reads changes no cell, no entry and no key. */
  lemma ReadKeeps(s: State, t: State)
    requires Inv(s) && Ok(t.cache, t.maxSize) && UserOk(t)
    requires t.log == s.log && t.bg == s.bg && t.tree == s.tree && t.spec == s.spec && t.maxSize == s.maxSize
    requires !s.user.Stored? && !s.user.Nulled? && !t.user.Stored? && !t.user.Nulled?
    requires t.cache.cells == s.cache.cells && t.cache.index == s.cache.index
    ensures Inv(t)
  {
    hide Ok, LastFor, Backed;
    TreeKept(s, t);
    OwnerKept(s, t);
    forall id | id in t.cache.cells ensures CellOk(t, id) { CellKept(s, t, id); }
    assert forall i: nat :: Strays(t, i) ==> Strays(s, i);
  }

  lemma CopyRight(s: State, garbage: Value)
    requires Inv(s) && Enabled(s, CopyLog(garbage)) && CellOf(s, s.user.node) == s.user.val
    ensures Lookup(s.spec, s.user.key) == Some(LogData(s.log, s.user.val.addr, garbage))
  {
    hide Ok, OwnerOk, BgOk, TreeOk;
    assert CellOk(s, s.user.node);
    var i :| Live(s, i, s.user.node) && Expected(s.log[i]) == s.user.val;
    LogDataOk(s.log, i, garbage);
  }

  lemma KeepGet(s: State, k: Key)
    requires Inv(s) && Enabled(s, Get(k))
    ensures Inv(Apply(s, Get(k)))
  {
    hide CellOk, CellsOk, Pending, LastFor, OwnerOk, TreeOk, LogOk, Distinct, Without;
    CachePromoteOk(s.cache, s.maxSize, k);
    ReadKeeps(s, Apply(s, Get(k)));
  }

  lemma KeepCopyLog(s: State, garbage: Value)
    requires Inv(s) && Enabled(s, CopyLog(garbage))
    ensures Inv(Apply(s, CopyLog(garbage)))
  {
    hide CellOk, Pending, LastFor, OwnerOk, TreeOk, LogOk;
    if CellOf(s, s.user.node) == s.user.val { CopyRight(s, garbage); }
    ReadKeeps(s, Apply(s, CopyLog(garbage)));
  }

  lemma KeepRead(s: State, e: Event)
    requires Inv(s) && Enabled(s, e) && (e.RemoveCheck? || e.LoadCell? || e.ReadTree? || e.CheckCopy?)
    ensures Inv(Apply(s, e))
  {
    hide Ok, LastFor, OwnerOk, TreeOk, LogOk, Backed, Pending;
    var t := Apply(s, e);
    assert UserOk(t) by {
      if e.LoadCell? { assert CellOk(s, s.user.node); }
    }
    ReadKeeps(s, t);
  }

  // ------------------------------------------------------------ all steps, all runs

  lemma KeepCrash(s: State, written: bool)
    requires Inv(s) && Enabled(s, Crash(written))
    ensures Inv(Apply(s, Crash(written)))
  {
  }

  /** Every step whose eviction is harmless keeps the invariant. */
  lemma KeepStep(s: State, e: Event)
    requires Inv(s) && Enabled(s, e) && Harmless(s, e)
    ensures Inv(Apply(s, e))
  {
    hide Ok, OwnerOk, CellsOk, TreeOk, LogOk, AddrOk, UserOk, Harmless, Apply;
    match e
    case PutStart(k, op, spare, pick) => KeepPutStart(s, k, op, spare, pick);
    case StoreCell(a) => KeepStoreCell(s, a);
    case Publish => KeepPublish(s);
    case Get(k) => KeepGet(s, k);
    case CacheFill(spare, pick) => KeepCacheFill(s, spare, pick);
    case CopyLog(garbage) => KeepCopyLog(s, garbage);
    case BatchStart(n) => KeepBatchStart(s, n);
    case BgLoad =>
      if CellOf(s, s.log[s.bg.pos].node) == Expected(s.log[s.bg.pos]) { KeepLoadMatch(s); } else { KeepSkip(s); }
    case BgUpdate(loc) => KeepUpdate(s, loc);
    case BgCas =>
      if CellOf(s, s.log[s.bg.pos].node) == Expected(s.log[s.bg.pos]) { KeepCasHit(s); } else { KeepCasMiss(s); }
    case Release => KeepRelease(s);
    case Crash(written) => KeepCrash(s, written);
    case _ => KeepRead(s, e);
  }

  /** The engine just opened over a tree. */
  function Opened(t: Tree, maxSize: nat): State {
    State(EMPTY_CACHE, maxSize, [], t, Waiting, Idle, Values(t))
  }

  /** An eviction that is not harmless gives the node of a pending erase to a key that the
      tree holds. */
  lemma HarmfulBreaks(s: State, e: Event)
    requires Inv(s) && Enabled(s, e) && !Harmless(s, e)
    ensures !OwnerOk(Apply(s, e))
  {
    hide CellsOk, UserOk, LogOk, AddrOk, LastFor;
    var t, k := Apply(s, e), KeyOf(s, e);
    var i :| Pos(s.bg) <= i < |s.log| && s.log[i].op == Erase && s.log[i].node == Evicted(s, e).value;
    UncachedKey(s, k);
    assert Pending(s, s.log[i].key);
    assert t.log[i] == s.log[i] && Strays(t, i) && !Stale(t, i);
  }

  /** The invariant survives a step exactly when its eviction, if any, is harmless. */
  lemma KeepStepIff(s: State, e: Event)
    requires Inv(s) && Enabled(s, e)
    ensures Inv(Apply(s, e)) <==> Harmless(s, e)
  {
    hide OwnerOk, CellsOk, UserOk, TreeOk, LogOk, AddrOk;
    if Harmless(s, e) { KeepStep(s, e); } else { HarmfulBreaks(s, e); }
  }

  /** An eviction does harm only when it takes a persistent tombstone, and the key that
      loses its node is gone from the tree and from the map. */
  lemma HarmfulVictim(s: State, e: Event)
    requires Inv(s) && Enabled(s, e) && !Harmless(s, e)
    ensures CellOf(s, Evicted(s, e).value) == TombPersistent
    ensures var p := s.cache.cells[Evicted(s, e).value].key; p !in s.tree && p !in s.spec
  {
    hide UserOk, AddrOk, BgOk, LogOk, TreeOk, Backed;
    var v := Evicted(s, e).value;
    var i :| Pos(s.bg) <= i < |s.log| && s.log[i].op == Erase && s.log[i].node == v;
    assert CellOk(s, v);
    assert Strays(s, i) || Pending(s, s.cache.cells[v].key);
    assert Strays(s, i) ==> Stale(s, i);
  }

  /** A run of enabled events. In a harmless run every eviction is harmless. */
  ghost predicate Run(s: State, es: seq<Event>, harmless: bool)
    decreases |es|
  {
    es == [] ||
    (Enabled(s, es[0]) && BgInRange(s) && (harmless ==> Harmless(s, es[0])) && Run(Apply(s, es[0]), es[1..], harmless))
  }

  /** The state after a run; crashes and restarts may occur in it. */
  function After(s: State, es: seq<Event>): State
    requires Run(s, es, false)
    decreases |es|
  {
    if es == [] then s else After(Apply(s, es[0]), es[1..])
  }

  lemma {:induction false} KeepRun(s: State, es: seq<Event>)
    requires Inv(s) && Run(s, es, true)
    ensures Run(s, es, false) && Inv(After(s, es))
    decreases |es|
  {
    if es != [] {
      KeepStep(s, es[0]);
      KeepRun(Apply(s, es[0]), es[1..]);
    }
  }

  /** The states of all harmless runs, with any number of restarts, from any tree. */
  ghost predicate Reachable(s: State) {
    exists t: Tree, maxSize: nat, es ::
      Run(Opened(t, maxSize), es, true) && Run(Opened(t, maxSize), es, false) && After(Opened(t, maxSize), es) == s
  }

  lemma ReachableInv(s: State)
    requires Reachable(s)
    ensures Inv(s)
  {
    var t: Tree, maxSize: nat, es :|
      Run(Opened(t, maxSize), es, true) && Run(Opened(t, maxSize), es, false) && After(Opened(t, maxSize), es) == s;
    KeepRun(Opened(t, maxSize), es);
  }

  // ------------------------------------------------------------ what users see

  /** The cache laid over the tree: what the engine holds for a key. */
  function View(s: State, k: Key): Option<Value> {
    if k in s.cache.index then
      match CellOf(s, s.cache.index[k])
      case InLog(a) => Some(LogData(s.log, a, []))
      case InTree(_) => TreeGet(s.tree, k)
      case _ => None
    else TreeGet(s.tree, k)
  }

  lemma ViewRight(s: State, k: Key)
    requires Inv(s) && !InFlight(s, k)
    ensures View(s, k) == Lookup(s.spec, k)
  {
    hide OwnerOk, BgOk;
    if k in s.cache.index {
      var id := s.cache.index[k];
      assert CellOk(s, id);
      var v := CellOf(s, id);
      if v.InLog? || v == TombVolatile {
        var i :| Live(s, i, id) && Expected(s.log[i]) == v;
        assert s.log[i].key == k;
        if v.InLog? { LogDataOk(s.log, i, []); }
      }
    } else {
      UncachedKey(s, k);
    }
  }

  /** In every state of every harmless run, cache over tree is the map of completed
      operations, except for the key of a put that is under way. */
  lemma OverlayIsSpec(s: State, k: Key)
    requires Reachable(s) && !InFlight(s, k)
    ensures View(s, k) == Lookup(s.spec, k)
  {
    ReachableInv(s);
    ViewRight(s, k);
  }

  /** Once the log has drained, the tree is right about every key that no put is changing. */
  lemma DrainedKey(s: State, k: Key)
    requires Reachable(s) && s.log == [] && !InFlight(s, k)
    ensures TreeGet(s.tree, k) == Lookup(s.spec, k)
  {
    ReachableInv(s);
    assert !Pending(s, k);
  }

  /** Once the log has drained between operations, the tree alone is the map. */
  lemma DrainedTreeIsSpec(s: State)
    requires Reachable(s) && s.log == [] && !s.user.Nulled? && !s.user.Stored?
    ensures Values(s.tree) == s.spec
  {
    forall k ensures Lookup(Values(s.tree), k) == Lookup(s.spec, k) { DrainedKey(s, k); }
    SameMap(Values(s.tree), s.spec);
  }

  /** An answer agrees with the map of completed operations. */
  ghost predicate Right(a: Answer, spec: map<Key, Value>) {
    match a
    case NoAnswer => true
    case GetAnswer(k, got) => got == Lookup(spec, k)
    case RemoveAnswer(k, found) => found <==> k in spec
    case Dangling => false
  }

  lemma AnswerRight(s: State, e: Event)
    requires Inv(s) && Enabled(s, e)
    ensures Right(AnswerOf(s, e), s.spec)
  {
    hide OwnerOk, BgOk, TreeOk, LogOk, AddrOk;
    if e.RemoveCheck? || e.Get? { ViewRight(s, e.key); }
    if e.LoadCell? || e.ReadTree? {
      ViewRight(s, s.user.key);
      assert CellOk(s, s.user.node);
    }
  }

  /** Every get and every remove answers from the map of completed operations, and
      no read goes through a stale tree pointer: also when a value is copied out of
      the log while the background thread works on it. */
  lemma AnswersAreRight(s: State, e: Event)
    requires Reachable(s) && Enabled(s, e)
    ensures Right(AnswerOf(s, e), s.spec)
  {
    ReachableInv(s);
    AnswerRight(s, e);
  }
}
