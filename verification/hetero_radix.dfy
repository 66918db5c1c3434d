/** heterogeneous_radix: a DRAM cache over a persistent radix tree, fed through a
    persistent FIFO log that one background thread consumes.

    The engine is a step system with one user thread (the queue is built for one
    worker) and one background thread. Each event is one atomic access of the code
    to shared state: a store, load or compare-exchange of a cache cell, an update of
    the tree, the publication of a log entry, the release of a batch. The radix tree
    is a map from keys to nodes; a node has an address that changes when the node is
    replaced, so that a dangling pointer would be seen. */
module HeteroRadix {
  import opened Keys
  import opened OrderedCache

  /** The value of a cache cell: null while a put is in flight, one of the two
      tombstones, a pointer into the log, or a pointer into the tree. */
  datatype CellVal = Null | TombVolatile | TombPersistent | InLog(addr: nat) | InTree(loc: nat)

  datatype Op = Assign(value: Value) | Erase

  /** queue_entry: the cell it was made for, its key, and the operation. `addr` is
      where it lies in the log. */
  datatype Entry = Entry(addr: nat, node: NodeId, key: Key, op: Op)

  datatype TreeNode = TreeNode(value: Value, loc: nat)

  type Tree = map<Key, TreeNode>

  /** Where the background thread is: outside a batch, before the load of entry
      `pos`, before the update of the tree, or before the compare-exchange. */
  datatype Background =
    | Waiting
    | Load(batch: nat, pos: nat)
    | Update(batch: nat, pos: nat)
    | Cas(batch: nat, pos: nat, desired: CellVal)

  /** Where the user thread is. */
  datatype User =
    | Idle
    | Removing(key: Key)
    | Nulled(key: Key, op: Op, node: NodeId)
    | Stored(entry: Entry)
    | Missed(key: Key, loc: nat)
    | Reading(key: Key, node: NodeId)
    | Loaded(key: Key, node: NodeId, val: CellVal)
    | Copied(key: Key, node: NodeId, addr: nat, data: Value)

  /** `log` holds the entries not yet released, oldest first. `spec` is the map of
      all completed user operations; the engine never reads it. */
  datatype State = State(
    cache: Cache<CellVal>, maxSize: nat, log: seq<Entry>, tree: Tree,
    bg: Background, user: User, spec: map<Key, Value>)

  datatype Event =
    | PutStart(key: Key, op: Op, spare: NodeId, pick: Option<NodeId>)
    | RemoveCheck(key: Key)
    | StoreCell(addr: nat)
    | Publish
    | Get(key: Key)
    | CacheFill(spare: NodeId, pick: Option<NodeId>)
    | LoadCell
    | ReadTree
    | CopyLog(garbage: Value)
    | CheckCopy
    | BatchStart(len: nat)
    | BgLoad
    | BgUpdate(loc: nat)
    | BgCas
    | Release
    | Crash(written: bool)

  // ---------------------------------------------------------------- the tree

  function TreeGet(t: Tree, k: Key): Option<Value> {
    if k in t then Some(t[k].value) else None
  }

  /** The key-value map held by a tree. */
  function Values(t: Tree): map<Key, Value> {
    map k | k in t :: t[k].value
  }

  function Result(op: Op): Option<Value> {
    match op case Assign(v) => Some(v) case Erase => None
  }

  function ApplySpec(m: map<Key, Value>, k: Key, op: Op): map<Key, Value> {
    match op case Assign(v) => m[k := v] case Erase => m - {k}
  }

  /** insert_or_assign or erase; `loc` is the address of the node written. */
  function ApplyTree(t: Tree, k: Key, op: Op, loc: nat): Tree {
    match op case Assign(v) => t[k := TreeNode(v, loc)] case Erase => t - {k}
  }

  // ---------------------------------------------------------------- eviction

  /** evict_cb accepts a cell that neither points into the log nor holds the
      volatile tombstone. */
  predicate Evictable(v: CellVal) {
    !v.InLog? && v != TombVolatile
  }

  // ---------------------------------------------------------------- the steps

  /** The value in the cell of a cached key. */
  function CellOf(s: State, id: NodeId): CellVal {
    if id in s.cache.cells then s.cache.cells[id].val else Null
  }

  function SetCell(c: Cache<CellVal>, id: NodeId, v: CellVal): Cache<CellVal> {
    if id in c.cells then c.(cells := c.cells[id := c.cells[id].(val := v)]) else c
  }

  /** What evict_cb may have picked by the time its scan is over: the cell of that node was
      seen to be evictable, and such a cell is changed by no one else. */
  predicate MayGo(s: State, pick: Option<NodeId>) {
    pick.Some? ==> pick.value in s.cache.cells && Evictable(s.cache.cells[pick.value].val)
  }

  function CachePutWithEvict(s: State, k: Key, v: CellVal, spare: NodeId, pick: Option<NodeId>)
    : Option<(Cache<CellVal>, NodeId)>
    requires MayGo(s, pick)
  {
    CachePut(s.cache, s.maxSize, k, v, pick, spare)
  }

  /** The first entry not yet dealt with by the background thread. */
  function Pos(bg: Background): nat {
    match bg
    case Waiting => 0
    case Load(_, p) => p
    case Update(_, p) => p
    case Cas(_, p, _) => p
  }

  predicate AddrFree(log: seq<Entry>, a: nat) {
    forall i :: 0 <= i < |log| ==> log[i].addr != a
  }

  /** What a read of the log at `a` returns: the entry's value while the entry is
      unreleased, anything afterwards. */
  function LogData(log: seq<Entry>, a: nat, garbage: Value): Value {
    if log == [] then garbage
    else if log[0].addr == a && log[0].op.Assign? then log[0].op.value
    else LogData(log[1..], a, garbage)
  }

  predicate Enabled(s: State, e: Event) {
    match e
    case PutStart(k, op, spare, pick) =>
      && (if op.Assign? then s.user == Idle else s.user == Removing(k))
      && spare !in s.cache.cells && MayGo(s, pick)
      && CachePutWithEvict(s, k, Null, spare, pick).Some?
    case RemoveCheck(_) => s.user == Idle
    case StoreCell(a) => s.user.Nulled? && AddrFree(s.log, a)
    case Publish => s.user.Stored?
    case Get(_) => s.user == Idle
    case CacheFill(spare, pick) => s.user.Missed? && spare !in s.cache.cells && MayGo(s, pick)
    case LoadCell => s.user.Reading?
    case ReadTree => s.user.Loaded? && s.user.val.InTree?
    case CopyLog(_) => s.user.Loaded? && s.user.val.InLog?
    case CheckCopy => s.user.Copied?
    case BatchStart(n) => s.bg == Waiting && 0 < n <= |s.log|
    case BgLoad => s.bg.Load? && s.bg.pos < s.bg.batch
    case BgUpdate(_) => s.bg.Update?
    case BgCas => s.bg.Cas?
    case Release => s.bg.Load? && s.bg.pos == s.bg.batch
    case Crash(written) => written ==> s.user.Stored?
  }

  /** What consume_queue_entry expects to find in the cell of its entry. */
  function Expected(e: Entry): CellVal {
    if e.op.Erase? then TombVolatile else InLog(e.addr)
  }

  /** The tree after a restart has replayed every unreleased entry in order. */
  function Replay(log: seq<Entry>, t: Tree): Tree
  {
    if log == [] then t else Replay(log[1..], ApplyTree(t, log[0].key, log[0].op, log[0].addr))
  }

  /** The log found after a crash; an entry being produced may or may not be in it. */
  function CrashLog(s: State, written: bool): seq<Entry> {
    if written && s.user.Stored? then s.log + [s.user.entry] else s.log
  }

  /** The map found after a crash and a restart. */
  function Recovered(s: State, written: bool): map<Key, Value> {
    Values(Replay(CrashLog(s, written), s.tree))
  }

  const EMPTY_CACHE: Cache<CellVal> := Cache([], map[], map[])

  function UserStep(s: State, e: Event): State
    requires Enabled(s, e)
  {
    match e
    case PutStart(k, op, spare, pick) =>
      var (c, id) := CachePutWithEvict(s, k, Null, spare, pick).value;
      s.(cache := c, user := Nulled(k, op, id))
    case RemoveCheck(k) =>
      if Present(s, k) then s.(user := Removing(k)) else s
    case StoreCell(a) =>
      var entry := Entry(a, s.user.node, s.user.key, s.user.op);
      s.(cache := SetCell(s.cache, entry.node, Expected(entry)), user := Stored(entry))
    case Publish =>
      var entry := s.user.entry;
      s.(log := s.log + [entry], spec := ApplySpec(s.spec, entry.key, entry.op), user := Idle)
    case Get(k) =>
      if k in s.cache.index then
        s.(cache := CachePromote(s.cache, k), user := Reading(k, s.cache.index[k]))
      else if k in s.tree then
        s.(user := Missed(k, s.tree[k].loc))
      else s
    case CacheFill(spare, pick) =>
      var r := CachePutWithEvict(s, s.user.key, InTree(s.user.loc), spare, pick);
      s.(cache := if r.Some? then r.value.0 else s.cache, user := Idle)
    case LoadCell =>
      var v := CellOf(s, s.user.node);
      if v == TombVolatile || v == TombPersistent then s.(user := Idle)
      else s.(user := Loaded(s.user.key, s.user.node, v))
    case ReadTree => s.(user := Idle)
    case CopyLog(garbage) =>
      s.(user := Copied(s.user.key, s.user.node, s.user.val.addr, LogData(s.log, s.user.val.addr, garbage)))
    case CheckCopy =>
      if CellOf(s, s.user.node) == InLog(s.user.addr) then s.(user := Idle)
      else s.(user := Reading(s.user.key, s.user.node))
    case _ => s
  }

  /** remove's test for the key: a cached cell that is not a tombstone, or else a
      node of the tree. */
  predicate Present(s: State, k: Key) {
    if k in s.cache.index then
      var v := CellOf(s, s.cache.index[k]);
      v != TombPersistent && v != TombVolatile
    else k in s.tree
  }

  function BgStep(s: State, e: Event): State
    requires Enabled(s, e)
    requires s.bg != Waiting ==> Pos(s.bg) <= s.bg.batch <= |s.log|
    requires s.bg.Update? || s.bg.Cas? ==> s.bg.pos < |s.log|
  {
    match e
    case BatchStart(n) => s.(bg := Load(n, 0))
    case BgLoad =>
      var entry := s.log[s.bg.pos];
      if CellOf(s, entry.node) != Expected(entry) then s.(bg := Load(s.bg.batch, s.bg.pos + 1))
      else s.(bg := Update(s.bg.batch, s.bg.pos))
    case BgUpdate(loc) =>
      var entry := s.log[s.bg.pos];
      s.(tree := ApplyTree(s.tree, entry.key, entry.op, loc),
         bg := Cas(s.bg.batch, s.bg.pos, if entry.op.Erase? then TombPersistent else InTree(loc)))
    case BgCas =>
      var entry := s.log[s.bg.pos];
      var c := if CellOf(s, entry.node) == Expected(entry) then SetCell(s.cache, entry.node, s.bg.desired) else s.cache;
      s.(cache := c, bg := Load(s.bg.batch, s.bg.pos + 1))
    case Release => s.(log := s.log[s.bg.batch..], bg := Waiting)
    case Crash(written) =>
      State(EMPTY_CACHE, s.maxSize, [], Replay(CrashLog(s, written), s.tree), Waiting, Idle, Recovered(s, written))
    case _ => s
  }

  /** The background thread's position lies inside its batch and the batch inside
      the log. */
  predicate BgInRange(s: State) {
    && (s.bg != Waiting ==> s.bg.pos <= s.bg.batch && 0 < s.bg.batch <= |s.log|)
    && (s.bg.Update? || s.bg.Cas? ==> s.bg.pos < s.bg.batch)
  }

  function Apply(s: State, e: Event): State
    requires Enabled(s, e) && BgInRange(s)
  {
    if e.BatchStart? || e.BgLoad? || e.BgUpdate? || e.BgCas? || e.Release? || e.Crash? then BgStep(s, e)
    else UserStep(s, e)
  }

  /** What an event returns to the caller: the value read by a get, or whether
      remove found its key. `Dangling` is a read through a pointer to a tree node
      that is no longer there. */
  datatype Answer =
    | NoAnswer
    | GetAnswer(key: Key, got: Option<Value>)
    | RemoveAnswer(key: Key, found: bool)
    | Dangling

  /** A read through a cell that points to the tree node of `k` at `loc`. */
  function ReadNode(t: Tree, k: Key, loc: nat): Answer {
    if k in t && t[k].loc == loc then GetAnswer(k, Some(t[k].value)) else Dangling
  }

  function AnswerOf(s: State, e: Event): Answer {
    match e
    case RemoveCheck(k) => RemoveAnswer(k, Present(s, k))
    case Get(k) => if k in s.cache.index then NoAnswer else GetAnswer(k, TreeGet(s.tree, k))
    case LoadCell =>
      if s.user.Reading? && (CellOf(s, s.user.node) == TombVolatile || CellOf(s, s.user.node) == TombPersistent)
      then GetAnswer(s.user.key, None) else NoAnswer
    case ReadTree =>
      if s.user.Loaded? && s.user.val.InTree? then ReadNode(s.tree, s.user.key, s.user.val.loc) else NoAnswer
    case CheckCopy =>
      if s.user.Copied? && CellOf(s, s.user.node) == InLog(s.user.addr)
      then GetAnswer(s.user.key, Some(s.user.data)) else NoAnswer
    case _ => NoAnswer
  }
}
