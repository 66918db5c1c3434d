/** When an eviction does harm. The cache may give the node of a removed key, which a
    queued erase still names, to another key. If the tree does not hold that other key, the
    erase can do no harm; if it does, a removal of the key can be lost: the queued erase
    takes its tombstone. */
module HeteroRadixEvict {
  import opened Keys
  import opened OrderedCache
  import opened HeteroRadix
  import opened HeteroRadixSafety
  import opened HeteroRadixCrash

  // ------------------------------------------------------------ runs

  lemma {:induction false} RunAppend(s: State, a: seq<Event>, b: seq<Event>, harmless: bool)
    requires Run(s, a, harmless) && Run(s, a, false) && Run(After(s, a), b, harmless) && Run(After(s, a), b, false)
    ensures Run(s, a + b, harmless) && Run(s, a + b, false) && After(s, a + b) == After(After(s, a), b)
    decreases |a|
  {
    hide Apply, Enabled, Harmless, BgInRange;
    if a == [] {
      assert a + b == b;
    } else {
      assert (a + b)[0] == a[0] && (a + b)[1..] == a[1..] + b;
      RunAppend(Apply(s, a[0]), a[1..], b, harmless);
    }
  }

  lemma RunOne(s: State, e: Event)
    requires Enabled(s, e) && BgInRange(s) && Harmless(s, e)
    ensures Run(s, [e], true) && Run(s, [e], false) && After(s, [e]) == Apply(s, e)
  {
    hide Enabled, Harmless, Apply;
    assert [e][1..] == [];
  }

  /** Some harmless run leads from one state to the other. */
  ghost predicate Leads(s: State, t: State) {
    exists es :: Run(s, es, true) && Run(s, es, false) && After(s, es) == t
  }

  lemma LeadsSelf(s: State)
    ensures Leads(s, s)
  {
    assert Run(s, [], true) && Run(s, [], false) && After(s, []) == s;
  }

  lemma LeadsOn(s: State, t: State, e: Event)
    requires Leads(s, t) && Enabled(t, e) && BgInRange(t) && Evicted(t, e) == None
    ensures Leads(s, Apply(t, e))
  {
    hide Enabled, Apply, Evicted;
    var es :| Run(s, es, true) && Run(s, es, false) && After(s, es) == t;
    RunOne(t, e);
    RunAppend(s, es, [e], true);
  }

  // ------------------------------------------------------------ the tombstone is taken

  /** Entry `i` is the first erase still to be dealt with that names node `v`, and it is
      not for key `k`. */
  ghost predicate Thief(s: State, k: Key, v: NodeId, i: int) {
    && Pos(s.bg) <= i < |s.log| && s.log[i].node == v && s.log[i].op == Erase && s.log[i].key != k
    && forall j :: Pos(s.bg) <= j < i && s.log[j].node == v ==> s.log[j].op.Assign?
  }

  /** Key `k` is in the tree, was removed, and no entry will erase it: a thief is ahead of
      the entry for it, or has been there. */
  ghost predicate Doomed(s: State, k: Key, v: NodeId) {
    && BgInRange(s) && k in s.tree
    && (forall i :: Pos(s.bg) <= i < |s.log| && s.log[i].key == k ==> s.log[i].node == v)
    && (s.bg.Update? || s.bg.Cas? ==> s.log[s.bg.pos].key != k)
    && (s.bg.Cas? && s.log[s.bg.pos].op == Erase ==> s.bg.desired == TombPersistent)
    && v in s.cache.cells
    && (CellOf(s, v) == TombPersistent || (CellOf(s, v) == TombVolatile && exists i :: Thief(s, k, v, i)))
  }

  lemma DoomedLoad(s: State, k: Key, v: NodeId)
    requires Doomed(s, k, v) && Enabled(s, BgLoad)
    ensures Doomed(Apply(s, BgLoad), k, v)
  {
    var t := Apply(s, BgLoad);
    if CellOf(s, v) == TombVolatile {
      var i :| Thief(s, k, v, i);
      assert Thief(t, k, v, i);
    }
  }

  lemma DoomedUpdate(s: State, k: Key, v: NodeId, loc: nat)
    requires Doomed(s, k, v) && Enabled(s, BgUpdate(loc))
    ensures Doomed(Apply(s, BgUpdate(loc)), k, v)
  {
    if CellOf(s, v) == TombVolatile {
      var i :| Thief(s, k, v, i);
      assert Thief(Apply(s, BgUpdate(loc)), k, v, i);
    }
  }

  lemma DoomedCas(s: State, k: Key, v: NodeId)
    requires Doomed(s, k, v) && Enabled(s, BgCas)
    ensures Doomed(Apply(s, BgCas), k, v)
  {
    var t := Apply(s, BgCas);
    if CellOf(s, v) == TombVolatile {
      var i :| Thief(s, k, v, i);
      if i != s.bg.pos { assert Thief(t, k, v, i); }
    }
  }

  lemma DoomedRelease(s: State, k: Key, v: NodeId)
    requires Doomed(s, k, v) && Enabled(s, Release)
    ensures Doomed(Apply(s, Release), k, v)
  {
    var t, b := Apply(s, Release), s.bg.batch;
    assert forall i :: 0 <= i < |t.log| ==> t.log[i] == s.log[i + b];
    if CellOf(s, v) == TombVolatile {
      var i :| Thief(s, k, v, i);
      assert Thief(t, k, v, i - b);
    }
  }

  lemma DoomedStart(s: State, k: Key, v: NodeId, n: nat)
    requires Doomed(s, k, v) && Enabled(s, BatchStart(n))
    ensures Doomed(Apply(s, BatchStart(n)), k, v)
  {
    if CellOf(s, v) == TombVolatile {
      var i :| Thief(s, k, v, i);
      assert Thief(Apply(s, BatchStart(n)), k, v, i);
    }
  }

  /** The next step of the background thread. */
  function NextBg(s: State): Event {
    match s.bg
    case Waiting => BatchStart(|s.log|)
    case Load(b, p) => if p < b then BgLoad else Release
    case Update(_, _) => BgUpdate(0)
    case Cas(_, _, _) => BgCas
  }

  lemma DoomedNext(s: State, k: Key, v: NodeId)
    requires Doomed(s, k, v) && (s.log != [] || s.bg != Waiting)
    ensures Enabled(s, NextBg(s)) && Doomed(Apply(s, NextBg(s)), k, v)
    ensures var t := Apply(s, NextBg(s)); t.user == s.user && t.spec == s.spec && 0 <= Work(t) < Work(s)
  {
    hide Doomed;
    DoomedRange(s, k, v);
    match s.bg
    case Waiting => DoomedStart(s, k, v, |s.log|);
    case Load(b, p) => if p < b { DoomedLoad(s, k, v); } else { DoomedRelease(s, k, v); }
    case Update(_, _) => DoomedUpdate(s, k, v, 0);
    case Cas(_, _, _) => DoomedCas(s, k, v);
  }

  lemma DoomedRange(s: State, k: Key, v: NodeId)
    requires Doomed(s, k, v)
    ensures BgInRange(s) && k in s.tree
  {
  }

  /** The background thread deals with everything, and the key is still in the tree. */
  lemma {:induction false} DoomedDrain(o: State, s: State, k: Key, v: NodeId) returns (t: State)
    requires Leads(o, s) && Doomed(s, k, v)
    ensures Leads(o, t) && t.log == [] && t.user == s.user && t.spec == s.spec && k in t.tree
    decreases Work(s) + 1
  {
    hide Doomed, Leads;
    DoomedRange(s, k, v);
    if s.bg == Waiting && s.log == [] { return s; }
    DoomedNext(s, k, v);
    LeadsOn(o, s, NextBg(s));
    t := DoomedDrain(o, Apply(s, NextBg(s)), k, v);
  }

  // ------------------------------------------------------------ the removal

  lemma FreeAddr(log: seq<Entry>) returns (a: nat)
    ensures AddrFree(log, a) && forall i :: 0 <= i < |log| ==> log[i].addr < a
  {
    if log == [] { return 0; }
    var b := FreeAddr(log[..|log| - 1]);
    a := if log[|log| - 1].addr >= b then log[|log| - 1].addr + 1 else b;
    assert forall i :: 0 <= i < |log| - 1 ==> log[i] == log[..|log| - 1][i];
  }

  /** Key `k` has node `v` in the cache. */
  ghost predicate Cached(s: State, k: Key, v: NodeId) {
    k in s.cache.index && s.cache.index[k] == v && v in s.cache.cells
  }

  /** The last two steps of a put or remove. */
  lemma Finish(o: State, s: State, k: Key, op: Op, v: NodeId) returns (t: State)
    requires Leads(o, s) && BgInRange(s) && s.user == Nulled(k, op, v) && Cached(s, k, v)
    ensures Leads(o, t) && BgInRange(t) && Cached(t, k, v) && t.user == Idle && t.cache.cells.Keys == s.cache.cells.Keys
    ensures t.tree == s.tree && t.bg == s.bg && t.spec == ApplySpec(s.spec, k, op)
    ensures |t.log| == |s.log| + 1 && t.log[..|s.log|] == s.log
    ensures t.log[|s.log|].node == v && t.log[|s.log|].key == k && t.log[|s.log|].op == op
    ensures CellOf(t, v) == Expected(t.log[|s.log|])
  {
    hide Leads;
    var a := FreeAddr(s.log);
    LeadsOn(o, s, StoreCell(a));
    var s1 := Apply(s, StoreCell(a));
    LeadsOn(o, s1, Publish);
    t := Apply(s1, Publish);
  }

  /** A removal of a key that is cached and not a tombstone. */
  lemma Removal(o: State, s: State, k: Key, v: NodeId, spare: NodeId) returns (t: State)
    requires Leads(o, s) && BgInRange(s) && s.user == Idle && Cached(s, k, v) && spare !in s.cache.cells
    requires CellOf(s, v) != TombPersistent && CellOf(s, v) != TombVolatile
    ensures Leads(o, t) && BgInRange(t) && Cached(t, k, v) && t.user == Idle && CellOf(t, v) == TombVolatile
    ensures t.tree == s.tree && t.bg == s.bg && t.spec == s.spec - {k}
    ensures |t.log| == |s.log| + 1 && t.log[..|s.log|] == s.log
    ensures t.log[|s.log|].node == v && t.log[|s.log|].key == k && t.log[|s.log|].op == Erase
  {
    hide Leads;
    LeadsOn(o, s, RemoveCheck(k));
    var s1 := Apply(s, RemoveCheck(k));
    LeadsOn(o, s1, PutStart(k, Erase, spare, None));
    t := Finish(o, Apply(s1, PutStart(k, Erase, spare, None)), k, Erase, v);
  }

  // ------------------------------------------------------------ the eviction

  /** The first erase that names the victim. It is not for the new key, which the tree holds
      and the cache does not. */
  lemma ThiefExists(s: State, e: Event) returns (i: nat)
    requires Inv(s) && Enabled(s, e) && !Harmless(s, e)
    ensures Thief(s, KeyOf(s, e), Evicted(s, e).value, i)
  {
    hide Inv, Evicted, Enabled, KeyOf;
    var v := Evicted(s, e).value;
    var x: nat :| Pos(s.bg) <= x < |s.log| && s.log[x].op == Erase && s.log[x].node == v;
    i := FirstErase(s, v, x);
    OtherKeyFree(s, e);
  }

  lemma FirstErase(s: State, v: NodeId, n: nat) returns (i: nat)
    requires Pos(s.bg) <= n < |s.log| && s.log[n].node == v && s.log[n].op == Erase
    ensures Pos(s.bg) <= i <= n && s.log[i].node == v && s.log[i].op == Erase
    ensures forall j :: Pos(s.bg) <= j < i && s.log[j].node == v ==> s.log[j].op.Assign?
  {
    i := Pos(s.bg);
    while !(s.log[i].node == v && s.log[i].op == Erase)
      invariant Pos(s.bg) <= i <= n
      invariant forall j :: Pos(s.bg) <= j < i && s.log[j].node == v ==> s.log[j].op.Assign?
      decreases n - i
    {
      i := i + 1;
    }
  }

  /** The event after which the node belongs to the other key. */
  lemma Taken(s: State, e: Event)
    requires Inv(s) && Enabled(s, e) && !Harmless(s, e)
    ensures var t, k, v := Apply(s, e), KeyOf(s, e), Evicted(s, e).value;
            && Cached(t, k, v) && t.log == s.log && t.bg == s.bg && t.tree == s.tree && t.spec == s.spec && BgInRange(t)
            && t.cache.cells.Keys == s.cache.cells.Keys
            && (if e.PutStart? then t.user == Nulled(k, e.op, v) else t.user == Idle && CellOf(t, v).InTree?)
  {
    hide CellsOk, TreeOk, LogOk, AddrOk, OwnerOk, UserOk, Ok;
  }

  /** No entry still to be dealt with is for the other key. */
  lemma OtherKeyFree(s: State, e: Event)
    requires Inv(s) && Enabled(s, e) && !Harmless(s, e)
    ensures forall i :: Pos(s.bg) <= i < |s.log| ==> s.log[i].key != KeyOf(s, e)
    ensures s.bg.Cas? && s.log[s.bg.pos].op == Erase ==> s.bg.desired == TombPersistent
  {
    hide CellsOk, LogOk, AddrOk, OwnerOk, Ok;
    UncachedKey(s, KeyOf(s, e));
  }

  lemma NowDoomed(s: State, e: Event, u: State, i: nat, added: nat)
    requires Inv(s) && Enabled(s, e) && !Harmless(s, e) && KeyOf(s, e) in s.tree
    requires Thief(s, KeyOf(s, e), Evicted(s, e).value, i)
    requires u.tree == s.tree && u.bg == s.bg && |u.log| == |s.log| + added && u.log[..|s.log|] == s.log && BgInRange(u)
    requires forall j :: |s.log| <= j < |u.log| ==> u.log[j].node == Evicted(s, e).value
    requires Cached(u, KeyOf(s, e), Evicted(s, e).value) && CellOf(u, Evicted(s, e).value) == TombVolatile
    ensures Doomed(u, KeyOf(s, e), Evicted(s, e).value)
  {
    hide Inv, Evicted;
    OtherKeyFree(s, e);
    InvRange(s);
    assert forall j :: 0 <= j < |s.log| ==> u.log[j] == s.log[j];
    assert Thief(u, KeyOf(s, e), Evicted(s, e).value, i);
  }

  lemma InvRange(s: State)
    requires Inv(s)
    ensures BgInRange(s)
  {
    hide Ok, OwnerOk, AddrOk, UserOk, CellsOk, TreeOk, LogOk;
  }

  /** After an eviction that is not harmless, some run, all of whose evictions are harmless,
      removes the new key, lets the background thread finish, and is followed by a crash that
      finds the key again. */
  lemma HarmfulEvictionLosesErase(s: State, e: Event)
    requires Inv(s) && Enabled(s, e) && !Harmless(s, e)
    ensures exists u :: Leads(Apply(s, e), u) && u.user == Idle && u.log == [] && Recovered(u, false) != u.spec
  {
    hide Inv, Evicted, Doomed, Thief, Cached, Enabled, Apply, Leads;
    InvRange(s);
    var k, v, t := KeyOf(s, e), Evicted(s, e).value, Apply(s, e);
    assert k in s.tree;
    var i := ThiefExists(s, e);
    Taken(s, e);
    LeadsSelf(t);
    var spare := SpareOf(s, e);
    var u, added := t, 1;
    if e.PutStart? {
      u := Finish(t, t, k, e.op, v);
      if e.op.Assign? {
        var w := Removal(t, u, k, v, spare);
        assert w.log[..|t.log|] == w.log[..|u.log|][..|t.log|];
        assert forall j :: |t.log| <= j < |u.log| ==> w.log[j] == w.log[..|u.log|][j];
        u, added := w, 2;
      }
    } else {
      u := Removal(t, t, k, v, spare);
    }
    NowDoomed(s, e, u, i, added);
    var r := DoomedDrain(t, u, k, v);
    FoundAgain(r, k);
  }

  lemma SpareOf(s: State, e: Event) returns (spare: NodeId)
    requires Enabled(s, e) && Evicted(s, e).Some?
    ensures spare !in s.cache.cells
  {
    spare := e.spare;
  }

  lemma FoundAgain(r: State, k: Key)
    requires r.log == [] && k in r.tree && k !in r.spec
    ensures Recovered(r, false) != r.spec
  {
    assert k in Recovered(r, false);
  }

  // ------------------------------------------------------------ the exact condition

  /** Whatever happens from here, as long as further evictions are harmless: every answer is
      right, and a crash between operations recovers the completed ones. */
  ghost predicate StaysRight(t: State) {
    forall u :: Leads(t, u) ==>
      && (forall e :: Enabled(u, e) ==> Right(AnswerOf(u, e), u.spec))
      && (u.user == Idle ==> Recovered(u, false) == u.spec)
  }

  lemma InvStaysRight(t: State)
    requires Inv(t)
    ensures StaysRight(t)
  {
    hide Inv, Enabled, AnswerOf, Right, Recovered;
    forall u | Leads(t, u)
      ensures forall e :: Enabled(u, e) ==> Right(AnswerOf(u, e), u.spec)
      ensures u.user == Idle ==> Recovered(u, false) == u.spec
    {
      var es :| Run(t, es, true) && Run(t, es, false) && After(t, es) == u;
      KeepRun(t, es);
      forall e | Enabled(u, e) ensures Right(AnswerOf(u, e), u.spec) { AnswerRight(u, e); }
      if u.user == Idle { RecoveredMap(u); }
    }
  }

  /** An eviction is harmless, which can be told before it is made, if and only if answers
      and recovery stay right after it. */
  lemma HarmlessExactly(s: State, e: Event)
    requires Inv(s) && Enabled(s, e)
    ensures BgInRange(s) && (Harmless(s, e) <==> StaysRight(Apply(s, e)))
  {
    hide Inv, Harmless, Apply, Recovered, Leads;
    InvRange(s);
    if Harmless(s, e) {
      KeepStep(s, e);
      InvStaysRight(Apply(s, e));
    } else {
      HarmfulEvictionLosesErase(s, e);
    }
  }
}
