/** What a crash at any step leaves behind, and when it loses an operation. */
module HeteroRadixCrash {
  import opened Keys
  import opened OrderedCache
  import opened HeteroRadix
  import opened HeteroRadixSafety

  ghost predicate Logged(log: seq<Entry>, k: Key) {
    exists i :: 0 <= i < |log| && log[i].key == k
  }

  lemma {:induction false} ReplayUntouched(log: seq<Entry>, t: Tree, k: Key)
    requires !Logged(log, k)
    ensures TreeGet(Replay(log, t), k) == TreeGet(t, k)
  {
    if log != [] {
      assert log[0].key != k;
      assert forall i :: 0 <= i < |log[1..]| ==> log[1..][i] == log[i + 1];
      ReplayUntouched(log[1..], ApplyTree(t, log[0].key, log[0].op, log[0].addr), k);
    }
  }

  /** Replaying in order leaves what the newest entry of a key says. */
  lemma {:induction false} ReplayNewest(log: seq<Entry>, t: Tree, i: nat)
    requires LastFor(log, i)
    ensures TreeGet(Replay(log, t), log[i].key) == Result(log[i].op)
  {
    var t1 := ApplyTree(t, log[0].key, log[0].op, log[0].addr);
    if i == 0 {
      assert !Logged(log[1..], log[0].key);
      ReplayUntouched(log[1..], t1, log[0].key);
    } else {
      assert forall j :: 0 <= j < |log[1..]| ==> log[1..][j] == log[j + 1];
      assert LastFor(log[1..], i - 1);
      ReplayNewest(log[1..], t1, i - 1);
    }
  }

  lemma {:induction false} NewestExists(log: seq<Entry>, k: Key) returns (i: nat)
    requires Logged(log, k)
    ensures LastFor(log, i) && log[i].key == k
  {
    i := |log| - 1;
    while log[i].key != k
      invariant 0 <= i < |log| && forall j :: i < j < |log| ==> log[j].key != k
      decreases i
    {
      i := i - 1;
    }
  }

  /** A crash finds, for each key, the newest logged operation, or else the tree. */
  lemma RecoveredKey(log: seq<Entry>, t: Tree, k: Key)
    ensures Logged(log, k) ==>
              exists i :: LastFor(log, i) && log[i].key == k && TreeGet(Replay(log, t), k) == Result(log[i].op)
    ensures !Logged(log, k) ==> TreeGet(Replay(log, t), k) == TreeGet(t, k)
  {
    if Logged(log, k) {
      var i := NewestExists(log, k);
      ReplayNewest(log, t, i);
    } else {
      ReplayUntouched(log, t, k);
    }
  }

  lemma RecoveredLookup(s: State, k: Key)
    requires Inv(s)
    ensures Lookup(Recovered(s, false), k) ==
              if Logged(s.log, k) then Lookup(s.spec, k) else TreeGet(s.tree, k)
  {
    RecoveredKey(s.log, s.tree, k);
  }

  lemma RecoveredSpec(s: State, k: Key)
    requires Inv(s) && !InFlight(s, k)
    ensures Lookup(Recovered(s, false), k) == Lookup(s.spec, k)
  {
    hide Recovered;
    RecoveredLookup(s, k);
    if !Logged(s.log, k) { assert !Pending(s, k); }
  }

  lemma RecoveredMap(s: State)
    requires Inv(s) && !s.user.Nulled? && !s.user.Stored?
    ensures Recovered(s, false) == s.spec
  {
    hide Recovered;
    forall k ensures Lookup(Recovered(s, false), k) == Lookup(s.spec, k) { RecoveredSpec(s, k); }
    SameMap(Recovered(s, false), s.spec);
  }

  /** A key with no put or remove under way is recovered, whatever step the two
      threads have reached and however much of the log was already carried out. */
  lemma RestartKeepsKey(s: State, k: Key)
    requires Reachable(s) && !InFlight(s, k)
    ensures Lookup(Recovered(s, false), k) == Lookup(s.spec, k)
  {
    ReachableInv(s);
    RecoveredSpec(s, k);
  }

  /** A crash between user operations recovers exactly the completed ones. */
  lemma RestartKeepsMap(s: State)
    requires Reachable(s) && !s.user.Nulled? && !s.user.Stored?
    ensures Recovered(s, false) == s.spec
  {
    ReachableInv(s);
    RecoveredMap(s);
  }

  lemma ReplaySnoc(log: seq<Entry>, e: Entry, t: Tree)
    ensures Replay(log + [e], t) == ApplyTree(Replay(log, t), e.key, e.op, e.addr)
  {
    if log != [] {
      assert (log + [e])[1..] == log[1..] + [e];
      ReplaySnoc(log[1..], e, ApplyTree(t, log[0].key, log[0].op, log[0].addr));
    } else {
      assert log + [e] == [e];
    }
  }

  lemma TakesWrittenEntry(s: State)
    requires Inv(s) && s.user.Stored?
    ensures Recovered(s, true) == ApplySpec(s.spec, s.user.entry.key, s.user.entry.op)
  {
    var e := s.user.entry;
    ReplaySnoc(s.log, e, s.tree);
    var m, n := Recovered(s, true), ApplySpec(s.spec, e.key, e.op);
    forall k ensures Lookup(m, k) == Lookup(n, k) {
      if k != e.key { RecoveredSpec(s, k); }
    }
    SameMap(m, n);
  }

  /** If the entry under production made it into the log, its operation is
      recovered together with all completed ones. */
  lemma RestartTakesWrittenEntry(s: State)
    requires Reachable(s) && s.user.Stored?
    ensures Recovered(s, true) == ApplySpec(s.spec, s.user.entry.key, s.user.entry.op)
  {
    ReachableInv(s);
    TakesWrittenEntry(s);
  }

  /** A crash in the middle of the replay and a second restart change nothing. */
  lemma ReplayAgain(log: seq<Entry>, t: Tree, done: nat)
    requires done <= |log|
    ensures Values(Replay(log, Replay(log[..done], t))) == Values(Replay(log, t))
  {
    forall k ensures Lookup(Values(Replay(log, Replay(log[..done], t))), k) == Lookup(Values(Replay(log, t)), k) {
      if Logged(log, k) {
        var i := NewestExists(log, k);
        ReplayNewest(log, t, i);
        ReplayNewest(log, Replay(log[..done], t), i);
      } else {
        assert !Logged(log[..done], k);
        ReplayUntouched(log, t, k);
        ReplayUntouched(log[..done], t, k);
        ReplayUntouched(log, Replay(log[..done], t), k);
      }
    }
    SameMap(Values(Replay(log, Replay(log[..done], t))), Values(Replay(log, t)));
  }

  /** The constructor's loop over the batch of unreleased entries, which updates
      the tree without looking at any cell. */
  method Restart(log: seq<Entry>, t: Tree) returns (r: Tree)
    ensures r == Replay(log, t)
  {
    r := t;
    for i := 0 to |log|
      invariant Replay(log, t) == Replay(log[i..], r)
    {
      assert log[i..][0] == log[i] && log[i..][1..] == log[i + 1..];
      var e := log[i];
      if e.op.Erase? {
        r := r - {e.key};
      } else {
        r := r[e.key := TreeNode(e.op.value, e.addr)];
      }
    }
  }

  // ------------------------------------------------------------ the lost put

  /** The tree once the update the background thread has committed to is made. */
  function Committed(s: State): Tree
    requires BgInRange(s)
  {
    if s.bg.Update? then ApplyTree(s.tree, s.log[s.bg.pos].key, s.log[s.bg.pos].op, 0) else s.tree
  }

  /** The last completed operation on `k` is in the tree, or about to be. */
  predicate Settled(s: State, k: Key)
    requires BgInRange(s)
  {
    TreeGet(Committed(s), k) == Lookup(s.spec, k)
  }

  predicate BgEvent(e: Event) {
    e.BatchStart? || e.BgLoad? || e.BgUpdate? || e.BgCas? || e.Release?
  }

  ghost predicate BgRun(es: seq<Event>) {
    forall i :: 0 <= i < |es| ==> BgEvent(es[i])
  }

  /** While the cell of `k` is null no erase of `k` that still has its node, and no
      assignment of `k`, passes the test of the background thread. */
  lemma NulledLoad(s: State, k: Key)
    requires Inv(s) && s.user.Nulled? && s.user.key == k && Enabled(s, BgLoad) && s.log[s.bg.pos].key == k
    ensures TreeGet(Committed(Apply(s, BgLoad)), k) == TreeGet(s.tree, k)
  {
    hide CellsOk, LastFor, TreeOk, LogOk, AddrOk;
    var e := s.log[s.bg.pos];
    if CellOf(s, e.node) == Expected(e) {
      if e.op.Assign? { AssignMatches(s); }
      assert !Holds(s, e.node, k);
      assert Strays(s, s.bg.pos) && Stale(s, s.bg.pos);
    }
  }

  lemma AssignMatches(s: State)
    requires Inv(s) && Enabled(s, BgLoad) && s.log[s.bg.pos].op.Assign?
    requires CellOf(s, s.log[s.bg.pos].node) == Expected(s.log[s.bg.pos])
    ensures Holds(s, s.log[s.bg.pos].node, s.log[s.bg.pos].key)
  {
    hide CellsOk, LastFor, TreeOk, LogOk, AddrOk, Ok;
    MatchOwned(s);
  }

  /** While the cell of `k` is null the background thread neither adds nor loses
      anything about `k` in the tree. */
  lemma BgLeavesKey(s: State, k: Key, e: Event)
    requires Inv(s) && s.user.Nulled? && s.user.key == k && BgEvent(e) && Enabled(s, e)
    ensures var t := Apply(s, e);
            && Inv(t) && t.user == s.user && t.spec == s.spec && t.maxSize == s.maxSize
            && TreeGet(Committed(t), k) == TreeGet(Committed(s), k)
  {
    hide CellsOk, LastFor, TreeOk, LogOk, Pending, AddrOk, OwnerOk;
    KeepStep(s, e);
    if e.BgLoad? && s.log[s.bg.pos].key == k { NulledLoad(s, k); }
  }

  lemma {:induction false} BgRunLeavesKey(s: State, k: Key, es: seq<Event>)
    requires Inv(s) && s.user.Nulled? && s.user.key == k && BgRun(es) && Run(s, es, false)
    ensures var t := After(s, es);
            Inv(t) && t.user == s.user && t.spec == s.spec && TreeGet(Committed(t), k) == TreeGet(Committed(s), k)
    decreases |es|
  {
    if es != [] {
      assert BgEvent(es[0]);
      BgLeavesKey(s, k, es[0]);
      BgRunLeavesKey(Apply(s, es[0]), k, es[1..]);
    }
  }

  /** Work left for the background thread. */
  function Work(s: State): int {
    match s.bg
    case Waiting => 5 * |s.log| + 1
    case Load(_, p) => 5 * |s.log| - 3 * p
    case Update(_, p) => 5 * |s.log| - 3 * p - 1
    case Cas(_, p, _) => 5 * |s.log| - 3 * p - 2
  }

  lemma BgKeeps(s: State, e: Event)
    requires Inv(s) && BgEvent(e) && Enabled(s, e)
    ensures Inv(Apply(s, e))
  {
    hide CellsOk, LastFor, TreeOk, LogOk, Pending, AddrOk, OwnerOk;
    KeepStep(s, e);
  }

  /** The background thread can always run until the log is empty. */
  lemma {:induction false} Drain(s: State) returns (es: seq<Event>)
    requires Inv(s)
    ensures BgRun(es) && Run(s, es, false) && After(s, es).log == [] && After(s, es).bg == Waiting
    decreases Work(s)
  {
    hide CellsOk, TreeOk, LogOk, AddrOk, OwnerOk, Ok, UserOk;
    if s.bg == Waiting && s.log == [] { return []; }
    var e := match s.bg
      case Waiting => BatchStart(|s.log|)
      case Load(b, p) => if p < b then BgLoad else Release
      case Update(_, _) => BgUpdate(0)
      case Cas(_, _, _) => BgCas;
    BgKeeps(s, e);
    var rest := Drain(Apply(s, e));
    es := [e] + rest;
    assert es[1..] == rest;
  }

  /** While a put of `k` has only nulled the cell, a crash now recovers the completed
      operations exactly when `k` is still in the log or the tree is right about it. */
  lemma NulledRecovery(s: State, k: Key)
    requires Inv(s) && s.user.Nulled? && s.user.key == k
    ensures Recovered(s, false) == s.spec <==> Logged(s.log, k) || TreeGet(s.tree, k) == Lookup(s.spec, k)
  {
    RecoveredLookup(s, k);
    if Logged(s.log, k) || TreeGet(s.tree, k) == Lookup(s.spec, k) {
      forall q ensures Lookup(Recovered(s, false), q) == Lookup(s.spec, q) {
        RecoveredLookup(s, q);
        if !Logged(s.log, q) && q != k { assert !Pending(s, q); }
      }
      SameMap(Recovered(s, false), s.spec);
    }
  }

  lemma SettledSurvives(t: State, k: Key, es: seq<Event>)
    requires Inv(t) && t.user.Nulled? && t.user.key == k && Settled(t, k) && BgRun(es) && Run(t, es, false)
    ensures Recovered(After(t, es), false) == t.spec
  {
    hide CellsOk, TreeOk, LogOk, AddrOk, OwnerOk, Ok;
    BgRunLeavesKey(t, k, es);
    var u := After(t, es);
    NulledRecovery(u, k);
    assert u.bg.Update? ==> Logged(u.log, u.log[u.bg.pos].key);
  }

  lemma UnsettledIsLost(t: State, k: Key)
    requires Inv(t) && t.user.Nulled? && t.user.key == k && !Settled(t, k)
    ensures exists es :: BgRun(es) && Run(t, es, false) && Recovered(After(t, es), false) != t.spec
  {
    var es := Drain(t);
    BgRunLeavesKey(t, k, es);
    NulledRecovery(After(t, es), k);
  }

  /** Put and remove first null the cell and publish their entry later. In between
      the background thread skips the older entries of the key, and their batch may
      be released. A crash at any moment before the new entry is written recovers
      all completed operations if and only if the key was settled when the call
      began. */
  lemma PutIsDurableIffSettled(s: State, k: Key, op: Op, spare: NodeId, pick: Option<NodeId>)
    requires Inv(s) && Enabled(s, PutStart(k, op, spare, pick)) && Harmless(s, PutStart(k, op, spare, pick))
    ensures var t := Apply(s, PutStart(k, op, spare, pick));
            (forall es :: BgRun(es) && Run(t, es, false) ==> Recovered(After(t, es), false) == s.spec)
            <==> Settled(s, k)
  {
    var t := Apply(s, PutStart(k, op, spare, pick));
    KeepStep(s, PutStart(k, op, spare, pick));
    assert (Settled(t, k) <==> Settled(s, k)) && t.spec == s.spec && t.user.Nulled? && t.user.key == k;
    if Settled(s, k) {
      forall es | BgRun(es) && Run(t, es, false)
        ensures Recovered(After(t, es), false) == s.spec
      {
        SettledSurvives(t, k, es);
      }
    } else {
      UnsettledIsLost(t, k);
    }
  }

  /** A key is settled when the cache does not hold it, or its cell already points
      into the tree or holds the persistent tombstone. */
  lemma ConsumedIsSettled(s: State, k: Key)
    requires Inv(s) && (s.user == Idle || s.user == Removing(k))
    requires k in s.cache.index ==>
               CellOf(s, s.cache.index[k]).InTree? || CellOf(s, s.cache.index[k]) == TombPersistent
    ensures Settled(s, k)
  {
    hide OwnerOk, LogOk, AddrOk, LastFor, Backed;
    if k in s.cache.index {
      assert CellOk(s, s.cache.index[k]);
    } else {
      UncachedKey(s, k);
    }
    if s.bg.Update? && s.log[s.bg.pos].key == k { assert Pending(s, k); }
  }
}
