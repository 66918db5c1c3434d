/** How long a table stays safe: over any run of puts and removes that adds fewer keys
    than there are slots never used. */
module RobinHoodRuns {
  import opened Keys
  import opened RobinHoodRing
  import opened RobinHoodTable

  datatype Op = Put(key: Word, value: Word) | Remove(key: Word)

  /** The table after insert_helper or hm_rp_remove, and the number of keys added. */
  ghost function Step(hf: Word -> Word, t: Table, op: Op): (r: (Table, nat))
    requires forall k :: Slot(|t|, hf(k))
    ensures |r.0| == |t|
  {
    match op
    case Put(k, v) =>
      var o := Insert(hf, t, false, k, v);
      if o.Placed? then Sized(o.table, t, if o.added then 1 else 0) else (t, 0)
    case Remove(k) => (Removed(t, k), 0)
  }

  /** A walk neither grows nor shrinks a table. */
  function Sized(u: Table, t: Table, n: nat): (r: (Table, nat))
    ensures |r.0| == |t|
  {
    if |u| == |t| then (u, n) else (t, 0)
  }

  /** What the operation does to the map: a put that reports failure does nothing. */
  ghost function Effect(hf: Word -> Word, t: Table, m: map<Word, Word>, op: Op): map<Word, Word>
    requires forall k :: Slot(|t|, hf(k))
  {
    match op
    case Put(k, v) => if Insert(hf, t, false, k, v).Placed? then m[k := v] else m
    case Remove(k) => m - {k}
  }

  ghost function After(hf: Word -> Word, t: Table, ops: seq<Op>): (u: Table)
    requires forall k :: Slot(|t|, hf(k))
    ensures |u| == |t|
    decreases |ops|
  {
    if ops == [] then t else After(hf, Step(hf, t, ops[0]).0, ops[1..])
  }

  ghost function Adds(hf: Word -> Word, t: Table, ops: seq<Op>): nat
    requires forall k :: Slot(|t|, hf(k))
    decreases |ops|
  {
    if ops == [] then 0 else Step(hf, t, ops[0]).1 + Adds(hf, Step(hf, t, ops[0]).0, ops[1..])
  }

  ghost function Meant(hf: Word -> Word, t: Table, m: map<Word, Word>, ops: seq<Op>): map<Word, Word>
    requires forall k :: Slot(|t|, hf(k))
    decreases |ops|
  {
    if ops == [] then m else Meant(hf, Step(hf, t, ops[0]).0, Effect(hf, t, m, ops[0]), ops[1..])
  }

  lemma StepKeeps(hf: Word -> Word, t: Table, op: Op)
    requires TableOk(hf, t) && HasUnused(t) && forall k :: Slot(|t|, hf(k))
    ensures var (u, n) := Step(hf, t, op);
            && TableOk(hf, u) && |UnusedSlots(u)| >= |UnusedSlots(t)| - n
            && Contents(u) == Effect(hf, t, Contents(t), op)
  {
    hide Walk, TableOk, Contents, UnusedSlots, OneLap, Removed;
    match op
    case Put(k, v) =>
      OneLapWhen(hf, t, k, v);
      InsertOk(hf, t, k, v);
      if Insert(hf, t, false, k, v).Placed? { InsertUses(hf, t, false, k, v); }
    case Remove(k) =>
      RemovedOk(hf, t, k);
  }

  lemma UnusedLeft(t: Table)
    requires |UnusedSlots(t)| > 0
    ensures HasUnused(t) && LookupStops(t)
  {
    var u :| u in UnusedSlots(t);
    assert Slot(|t|, u) && t[u].hash == 0;
    assert StopsAt(t, u);
  }

  /** A run that adds fewer keys than there are unused slots keeps the table well formed,
      does to the map what its operations mean, and still ends every lookup. */
  lemma {:induction false} RunKeeps(hf: Word -> Word, t: Table, ops: seq<Op>)
    requires TableOk(hf, t) && (forall k :: Slot(|t|, hf(k))) && Adds(hf, t, ops) < |UnusedSlots(t)|
    ensures var u := After(hf, t, ops);
            && TableOk(hf, u) && HasUnused(u) && LookupStops(u)
            && Contents(u) == Meant(hf, t, Contents(t), ops)
    decreases |ops|
  {
    hide TableOk, Contents, UnusedSlots, Step, Effect;
    UnusedLeft(t);
    if ops != [] {
      StepKeeps(hf, t, ops[0]);
      RunKeeps(hf, Step(hf, t, ops[0]).0, ops[1..]);
    }
  }

  // ------------------------------------------------------------ a table just rebuilt

  ghost function UnusedBelow(t: Table, n: nat): set<int> {
    set q | q in UnusedSlots(t) && q < n
  }

  lemma KeysNext(t: Table, n: nat)
    requires Unique(t) && n < |t|
    ensures Live(t, n) ==> KeysBelow(t, n + 1) == KeysBelow(t, n) + {t[n].key} && t[n].key !in KeysBelow(t, n)
    ensures !Live(t, n) ==> KeysBelow(t, n + 1) == KeysBelow(t, n)
  {
  }

  lemma UnusedNext(t: Table, n: nat)
    requires n < |t|
    ensures UnusedBelow(t, n + 1) == if n >= 1 && t[n].hash == 0 then UnusedBelow(t, n) + {n} else UnusedBelow(t, n)
  {
  }

  lemma {:induction false} RoomBelow(t: Table, n: nat)
    requires Unique(t) && NoTombstones(t) && 1 <= n <= |t|
    ensures |UnusedBelow(t, n)| + |KeysBelow(t, n)| == n - 1
  {
    hide Unique, UnusedBelow, UnusedSlots, KeysBelow;
    if n == 1 {
      NoneBelow(t);
    } else {
      RoomBelow(t, n - 1);
      KeysNext(t, n - 1);
      UnusedNext(t, n - 1);
      BelowOnly(t, n - 1);
    }
  }

  lemma BelowOnly(t: Table, n: nat)
    ensures n !in UnusedBelow(t, n)
  {
  }

  lemma NoneBelow(t: Table)
    requires |t| >= 1
    ensures UnusedBelow(t, 1) == {} && KeysBelow(t, 1) == {}
  {
  }

  /** Without tombstones every slot but slot 0 is live or unused: a rebuilt table of
      capacity `c` with `n` entries has `c - 1 - n` unused slots. */
  lemma RebuiltRoom(hf: Word -> Word, t: Table)
    requires TableOk(hf, t) && NoTombstones(t)
    ensures |UnusedSlots(t)| == |t| - 1 - |Contents(t)|
  {
    hide SlotsOk, ProbeOk, Unique, NoTombstones;
    TableSlots(hf, t);
    TableSize(hf, t);
    RoomBelow(t, |t|);
    AllBelow(t);
  }

  lemma TableSize(hf: Word -> Word, t: Table)
    requires SlotsOk(hf, t)
    ensures |t| >= 4
  {
  }

  lemma AllBelow(t: Table)
    ensures UnusedBelow(t, |t|) == UnusedSlots(t) && |KeysBelow(t, |t|)| == |Contents(t)|
  {
    hide ValueOf;
    assert KeysBelow(t, |t|) == LiveKeys(t) == Contents(t).Keys;
    assert |Contents(t).Keys| == |Contents(t)|;
  }
}
