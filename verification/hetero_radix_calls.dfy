/** Whole calls of put, get and remove, with the background thread at work before, during
    and after them: what each one answers, what it leaves, that it takes few steps, and that
    it can always be completed. */
module HeteroRadixCalls {
  import opened Keys
  import opened OrderedCache
  import opened HeteroRadix
  import opened HeteroRadixSafety
  import opened HeteroRadixCrash
  import opened HeteroRadixScan
  import opened HeteroRadixEvict

  /** A call of the user, or a crash between calls and the restart that follows it. */
  datatype Call = PutCall(key: Key, value: Value) | GetCall(key: Key) | RemoveCall(key: Key) | Reopen

  predicate Begins(c: Call, e: Event) {
    match c
    case PutCall(k, v) => e.PutStart? && e.key == k && e.op == Assign(v)
    case GetCall(k) => e == Get(k)
    case RemoveCall(k) => e == RemoveCheck(k)
    case Reopen => e == Crash(false)
  }

  /** No call begins, and nothing crashes: the user carries on with the call that is under
      way, if there is one, and otherwise only the background thread works. */
  ghost predicate Undisturbed(s: State, es: seq<Event>)
    requires Run(s, es, false)
    decreases |es|
  {
    es == [] ||
    (!es[0].Crash? && (s.user == Idle ==> BgEvent(es[0])) && Undisturbed(Apply(s, es[0]), es[1..]))
  }

  /** The user's steps in the run are those of one call. */
  ghost predicate OneCall(s: State, c: Call, es: seq<Event>)
    requires Run(s, es, false)
    decreases |es|
  {
    es != [] &&
    if BgEvent(es[0]) then OneCall(Apply(s, es[0]), c, es[1..])
    else s.user == Idle && Begins(c, es[0]) && Undisturbed(Apply(s, es[0]), es[1..])
  }

  function Said(a: Answer): seq<Answer> {
    if a == NoAnswer then [] else [a]
  }

  /** Everything that is answered in a run. */
  function Answers(s: State, es: seq<Event>): seq<Answer>
    requires Run(s, es, false)
    decreases |es|
  {
    if es == [] then [] else Said(AnswerOf(s, es[0])) + Answers(Apply(s, es[0]), es[1..])
  }

  /** What the call answers on a map, and what it makes of the map. */
  function Reply(c: Call, m: map<Key, Value>): seq<Answer> {
    match c
    case PutCall(_, _) => []
    case GetCall(k) => [GetAnswer(k, Lookup(m, k))]
    case RemoveCall(k) => [RemoveAnswer(k, k in m)]
    case Reopen => []
  }

  function Outcome(c: Call, m: map<Key, Value>): map<Key, Value> {
    match c
    case PutCall(k, v) => m[k := v]
    case RemoveCall(k) => m - {k}
    case _ => m
  }

  // ------------------------------------------------------------ in the middle of a call

  predicate Reads(u: User) {
    u.Reading? || u.Loaded? || u.Copied?
  }

  predicate Carries(c: Call, k: Key, op: Op) {
    match op
    case Assign(v) => c == PutCall(k, v)
    case Erase => c == RemoveCall(k)
  }

  /** Call `c` has begun when the completed operations made up `m`. */
  ghost predicate Midway(s: State, c: Call, m: map<Key, Value>) {
    && (if s.user == Idle then s.spec == Outcome(c, m) else s.spec == m)
    && match s.user
       case Idle => true
       case Removing(k) => c == RemoveCall(k)
       case Nulled(k, op, _) => Carries(c, k, op)
       case Stored(e) => Carries(c, e.key, e.op)
       case Missed(k, _) => c == GetCall(k)
       case Reading(k, _) => c == GetCall(k) && Inv(s)
       case Loaded(k, _, _) => c == GetCall(k) && Inv(s)
       case Copied(k, _, _, _) => c == GetCall(k) && Inv(s)
  }

  /** What the call has yet to answer. */
  function Owed(u: User, c: Call, m: map<Key, Value>): seq<Answer> {
    if Reads(u) then Reply(c, m) else []
  }

  lemma BgMidway(s: State, c: Call, m: map<Key, Value>, e: Event)
    requires Midway(s, c, m) && Enabled(s, e) && BgInRange(s) && BgEvent(e)
    ensures Midway(Apply(s, e), c, m) && Apply(s, e).user == s.user && AnswerOf(s, e) == NoAnswer
  {
    hide Inv;
    if Reads(s.user) { BgKeeps(s, e); }
  }

  /** A step of a read either goes on, or gives the one answer. */
  lemma ReadMidway(s: State, c: Call, m: map<Key, Value>, e: Event)
    requires Midway(s, c, m) && Enabled(s, e) && BgInRange(s) && !BgEvent(e) && !e.Crash? && Reads(s.user)
    ensures Midway(Apply(s, e), c, m)
    ensures Said(AnswerOf(s, e)) + Owed(Apply(s, e).user, c, m) == Owed(s.user, c, m)
  {
    hide Inv;
    KeepStep(s, e);
    AnswerRight(s, e);
  }

  lemma WriteMidway(s: State, c: Call, m: map<Key, Value>, e: Event)
    requires Midway(s, c, m) && Enabled(s, e) && BgInRange(s) && !BgEvent(e) && !e.Crash?
    requires s.user != Idle && !Reads(s.user)
    ensures Midway(Apply(s, e), c, m)
    ensures AnswerOf(s, e) == NoAnswer && !Reads(Apply(s, e).user)
  {
    hide Inv;
  }

  lemma {:induction false} RunMidway(s: State, c: Call, m: map<Key, Value>, es: seq<Event>)
    requires Midway(s, c, m) && Run(s, es, false) && Undisturbed(s, es)
    ensures Midway(After(s, es), c, m)
    ensures Answers(s, es) + Owed(After(s, es).user, c, m) == Owed(s.user, c, m)
    decreases |es|
  {
    hide Midway, Enabled, Apply, AnswerOf, Owed;
    if es != [] {
      var e, t := es[0], Apply(s, es[0]);
      if BgEvent(e) {
        BgMidway(s, c, m, e);
      } else if Reads(s.user) {
        ReadMidway(s, c, m, e);
      } else {
        WriteMidway(s, c, m, e);
        NothingOwed(s.user, c, m);
        NothingOwed(t.user, c, m);
      }
      assert Said(AnswerOf(s, e)) + Owed(t.user, c, m) == Owed(s.user, c, m);
      RunMidway(t, c, m, es[1..]);
    }
  }

  lemma NothingOwed(u: User, c: Call, m: map<Key, Value>)
    requires !Reads(u)
    ensures Owed(u, c, m) == []
  {
  }

  /** The first step of a call. */
  lemma BeginMidway(s: State, c: Call, e: Event)
    requires Inv(s) && s.user == Idle && Enabled(s, e) && Begins(c, e)
    ensures BgInRange(s) && Midway(Apply(s, e), c, s.spec)
    ensures Said(AnswerOf(s, e)) + Owed(Apply(s, e).user, c, s.spec) == Reply(c, s.spec)
  {
    hide Inv, Midway, Owed, AnswerOf, Reply, Apply, Enabled;
    match c
    case PutCall(k, v) => BeginPut(s, k, v, e);
    case GetCall(k) => BeginGet(s, k);
    case RemoveCall(k) => BeginRemove(s, k);
    case Reopen => BeginReopen(s);
  }

  lemma BeginReopen(s: State)
    requires Inv(s) && s.user == Idle
    ensures BgInRange(s) && Enabled(s, Crash(false)) && Midway(Apply(s, Crash(false)), Reopen, s.spec)
    ensures Said(AnswerOf(s, Crash(false))) + Owed(Apply(s, Crash(false)).user, Reopen, s.spec) == Reply(Reopen, s.spec)
  {
    hide Ok, CellsOk, OwnerOk, TreeOk, LogOk, AddrOk, UserOk, Recovered;
    RecoveredMap(s);
  }

  lemma BeginPut(s: State, k: Key, v: Value, e: Event)
    requires Inv(s) && s.user == Idle && Enabled(s, e) && Begins(PutCall(k, v), e)
    ensures BgInRange(s) && Midway(Apply(s, e), PutCall(k, v), s.spec)
    ensures Said(AnswerOf(s, e)) + Owed(Apply(s, e).user, PutCall(k, v), s.spec) == Reply(PutCall(k, v), s.spec)
  {
    hide Ok, CellsOk, OwnerOk, TreeOk, LogOk, AddrOk;
  }

  lemma BeginGet(s: State, k: Key)
    requires Inv(s) && s.user == Idle
    ensures BgInRange(s) && Midway(Apply(s, Get(k)), GetCall(k), s.spec)
    ensures Said(AnswerOf(s, Get(k))) + Owed(Apply(s, Get(k)).user, GetCall(k), s.spec) == Reply(GetCall(k), s.spec)
  {
    hide Ok, CellsOk, OwnerOk, TreeOk, LogOk, AddrOk;
    KeepGet(s, k);
    AnswerRight(s, Get(k));
  }

  lemma BeginRemove(s: State, k: Key)
    requires Inv(s) && s.user == Idle
    ensures BgInRange(s) && Midway(Apply(s, RemoveCheck(k)), RemoveCall(k), s.spec)
    ensures Said(AnswerOf(s, RemoveCheck(k))) + Owed(Apply(s, RemoveCheck(k)).user, RemoveCall(k), s.spec)
            == Reply(RemoveCall(k), s.spec)
  {
    hide Ok, CellsOk, OwnerOk, TreeOk, LogOk, AddrOk;
    AnswerRight(s, RemoveCheck(k));
  }

  /** At every moment of a call: the specification is still what it was, unless the call is
      over, and what has been answered and what is yet to be add up to the reply. */
  lemma {:induction false} CallMidway(s: State, c: Call, es: seq<Event>)
    requires Inv(s) && s.user == Idle && Run(s, es, false) && OneCall(s, c, es)
    ensures Midway(After(s, es), c, s.spec)
    ensures Answers(s, es) + Owed(After(s, es).user, c, s.spec) == Reply(c, s.spec)
    decreases |es|
  {
    hide Midway, Inv, Enabled, Apply, AnswerOf, Owed, Reply;
    var e, t := es[0], Apply(s, es[0]);
    if BgEvent(e) {
      BgSparesPick(s, e);
      BgSilent(s, e);
      CallMidway(t, c, es[1..]);
    } else {
      BeginMidway(s, c, e);
      RunMidway(t, c, s.spec, es[1..]);
    }
  }

  lemma BgSilent(s: State, e: Event)
    requires BgEvent(e)
    ensures AnswerOf(s, e) == NoAnswer
  {
  }

  // ------------------------------------------------------------ the law of a whole call

  lemma CallLaw(s: State, c: Call, es: seq<Event>)
    requires Inv(s) && s.user == Idle && Run(s, es, false) && OneCall(s, c, es) && After(s, es).user == Idle
    ensures Answers(s, es) == Reply(c, s.spec) && After(s, es).spec == Outcome(c, s.spec)
  {
    hide Inv;
    CallMidway(s, c, es);
  }

  /** put(k, v) maps the key to the value. */
  lemma PutLaw(s: State, k: Key, v: Value, es: seq<Event>)
    requires Inv(s) && s.user == Idle && Run(s, es, false) && OneCall(s, PutCall(k, v), es)
    requires After(s, es).user == Idle
    ensures After(s, es).spec == s.spec[k := v] && Answers(s, es) == []
  {
    hide Inv;
    CallLaw(s, PutCall(k, v), es);
  }

  /** get(k) answers exactly once, with what the map has for the key, and changes nothing. */
  lemma GetLaw(s: State, k: Key, es: seq<Event>)
    requires Inv(s) && s.user == Idle && Run(s, es, false) && OneCall(s, GetCall(k), es)
    requires After(s, es).user == Idle
    ensures Answers(s, es) == [GetAnswer(k, if k in s.spec then Some(s.spec[k]) else None)]
    ensures After(s, es).spec == s.spec
  {
    hide Inv;
    CallLaw(s, GetCall(k), es);
  }

  /** remove(k) answers whether the key was there, and it is gone. */
  lemma RemoveLaw(s: State, k: Key, es: seq<Event>)
    requires Inv(s) && s.user == Idle && Run(s, es, false) && OneCall(s, RemoveCall(k), es)
    requires After(s, es).user == Idle
    ensures Answers(s, es) == [RemoveAnswer(k, k in s.spec)]
    ensures After(s, es).spec == s.spec - {k}
  {
    hide Inv;
    CallLaw(s, RemoveCall(k), es);
  }

  // ------------------------------------------------------------ what a call does to the cache's order

  ghost predicate SameOrder(a: Cache<CellVal>, b: Cache<CellVal>) {
    b.lru == a.lru && b.index == a.index
  }

  /** The key's node is in front, and no two other nodes have changed their order. */
  ghost predicate InFront(a: Cache<CellVal>, b: Cache<CellVal>, k: Key) {
    && k in b.index && b.lru != [] && b.lru[0] == b.index[k]
    && forall x, y :: x != b.lru[0] && y != b.lru[0] ==> (Before(b.lru, x, y) <==> Before(a.lru, x, y))
  }

  /** What call `c`, begun in state `s`, has done to the order by state `t`. */
  ghost predicate Recency(s: State, t: State, c: Call) {
    match t.user
    case Idle =>
      (match c
       case PutCall(k, _) => InFront(s.cache, t.cache, k)
       case RemoveCall(k) => if k in s.spec then InFront(s.cache, t.cache, k) else SameOrder(s.cache, t.cache)
       case GetCall(k) =>
         if k in t.cache.index then InFront(s.cache, t.cache, k)
         else SameOrder(s.cache, t.cache) && k !in s.cache.index
       case Reopen => true)
    case Removing(k) => c == RemoveCall(k) && k in s.spec && SameOrder(s.cache, t.cache) && Inv(t)
    case Missed(k, _) => c == GetCall(k) && k !in s.cache.index && SameOrder(s.cache, t.cache) && Inv(t)
    case Nulled(k, _, _) => Writer(s, c, k) && InFront(s.cache, t.cache, k)
    case Stored(e) => Writer(s, c, e.key) && InFront(s.cache, t.cache, e.key)
    case Reading(k, _) => c == GetCall(k) && InFront(s.cache, t.cache, k)
    case Loaded(k, _, _) => c == GetCall(k) && InFront(s.cache, t.cache, k)
    case Copied(k, _, _, _) => c == GetCall(k) && InFront(s.cache, t.cache, k)
  }

  ghost predicate Writer(s: State, c: Call, k: Key) {
    (c.PutCall? && c.key == k) || (c == RemoveCall(k) && k in s.spec)
  }

  lemma PutInFront(a: Cache<CellVal>, maxSize: nat, k: Key, v: CellVal, pick: Option<NodeId>, spare: NodeId)
    requires Ok(a, maxSize) && spare !in a.cells && (pick.Some? ==> pick.value in a.cells)
    ensures var r := CachePut(a, maxSize, k, v, pick, spare); r.Some? ==> InFront(a, r.value.0, k)
  {
    hide CachePut, Before, Ok;
    var r := CachePut(a, maxSize, k, v, pick, spare);
    CachePutOk(a, maxSize, k, v, pick, spare);
    if r.Some? {
      forall x, y | x != r.value.0.lru[0] && y != r.value.0.lru[0]
        ensures Before(r.value.0.lru, x, y) <==> Before(a.lru, x, y)
      {
        CachePutOrder(a, maxSize, k, v, pick, spare, x, y);
      }
    }
  }

  lemma GetInFront(a: Cache<CellVal>, maxSize: nat, k: Key)
    requires Ok(a, maxSize) && k in a.index
    ensures InFront(a, CachePromote(a, k), k)
  {
    hide CachePromote, Before, Ok;
    var d := CachePromote(a, k);
    CachePromoteOrder(a, maxSize, k, 0, 0);
    forall x, y | x != d.lru[0] && y != d.lru[0]
      ensures Before(d.lru, x, y) <==> Before(a.lru, x, y)
    {
      CachePromoteOrder(a, maxSize, k, x, y);
    }
  }

  lemma SameInFront(a: Cache<CellVal>, a': Cache<CellVal>, b: Cache<CellVal>, b': Cache<CellVal>, k: Key)
    requires SameOrder(a, a') && SameOrder(b, b') && InFront(a', b, k)
    ensures InFront(a, b', k)
  {
    hide Before;
  }

  lemma SameRecency(s: State, s': State, t: State, c: Call)
    requires SameOrder(s.cache, s'.cache) && s'.spec == s.spec && Recency(s', t, c)
    ensures Recency(s, t, c)
  {
    hide InFront, Inv;
    forall k | InFront(s'.cache, t.cache, k) ensures InFront(s.cache, t.cache, k) {
      SameInFront(s.cache, s'.cache, t.cache, t.cache, k);
    }
  }

  lemma BgRecency(s: State, t: State, c: Call, e: Event)
    requires Recency(s, t, c) && Enabled(t, e) && BgInRange(t) && BgEvent(e)
    ensures Recency(s, Apply(t, e), c)
  {
    hide InFront, Inv;
    var u := Apply(t, e);
    assert SameOrder(t.cache, u.cache) && u.user == t.user;
    forall k | InFront(s.cache, t.cache, k) ensures InFront(s.cache, u.cache, k) {
      SameInFront(s.cache, s.cache, t.cache, u.cache, k);
    }
    if t.user.Removing? || t.user.Missed? { BgKeeps(t, e); }
  }

  /** The step that takes a cell. */
  lemma TakingRecency(s: State, t: State, c: Call, e: Event)
    requires Recency(s, t, c) && Enabled(t, e) && BgInRange(t) && !BgEvent(e) && !e.Crash?
    requires t.user.Removing? || t.user.Missed?
    ensures Recency(s, Apply(t, e), c)
  {
    hide InFront, CachePut;
    var k, v := t.user.key, if t.user.Removing? then Null else InTree(t.user.loc);
    PutInFront(t.cache, t.maxSize, k, v, e.pick, e.spare);
    var r := CachePut(t.cache, t.maxSize, k, v, e.pick, e.spare);
    if r.Some? {
      SameInFront(s.cache, t.cache, r.value.0, r.value.0, k);
      FrontCached(s.cache, r.value.0);
    }
  }

  lemma OwnRecency(s: State, t: State, c: Call, e: Event)
    requires Recency(s, t, c) && Enabled(t, e) && BgInRange(t) && !BgEvent(e) && !e.Crash? && !c.Reopen?
    requires t.user != Idle && !t.user.Removing? && !t.user.Missed?
    ensures Recency(s, Apply(t, e), c)
  {
    hide InFront, Inv;
    var u := Apply(t, e);
    assert SameOrder(t.cache, u.cache);
    forall k | InFront(s.cache, t.cache, k) ensures InFront(s.cache, u.cache, k) {
      SameInFront(s.cache, s.cache, t.cache, u.cache, k);
    }
    assert forall k :: InFront(s.cache, u.cache, k) ==> k in u.cache.index by { FrontCached(s.cache, u.cache); }
  }

  lemma FrontCached(a: Cache<CellVal>, b: Cache<CellVal>)
    ensures forall k :: InFront(a, b, k) ==> k in b.index
  {
  }

  lemma {:induction false} RunRecency(s: State, t: State, c: Call, es: seq<Event>)
    requires Recency(s, t, c) && Run(t, es, false) && Undisturbed(t, es) && !c.Reopen?
    ensures Recency(s, After(t, es), c)
    decreases |es|
  {
    hide Recency, Enabled, Apply;
    if es != [] {
      if BgEvent(es[0]) {
        BgRecency(s, t, c, es[0]);
      } else if t.user.Removing? || t.user.Missed? {
        TakingRecency(s, t, c, es[0]);
      } else {
        OwnRecency(s, t, c, es[0]);
      }
      RunRecency(s, Apply(t, es[0]), c, es[1..]);
    }
  }

  lemma BeginRecency(s: State, c: Call, e: Event)
    requires Inv(s) && s.user == Idle && Enabled(s, e) && Begins(c, e) && !c.Reopen?
    ensures BgInRange(s) && Recency(s, Apply(s, e), c)
  {
    hide InFront, CachePut, CachePromote, CellsOk, OwnerOk, TreeOk, LogOk, AddrOk;
    match c
    case PutCall(k, v) => PutInFront(s.cache, s.maxSize, k, Null, e.pick, e.spare);
    case GetCall(k) =>
      KeepStep(s, e);
      if k in s.cache.index {
        GetInFront(s.cache, s.maxSize, k);
        FrontCached(s.cache, CachePromote(s.cache, k));
      }
    case RemoveCall(k) =>
      KeepStep(s, e);
      AnswerRight(s, e);
    case Reopen =>
  }

  lemma {:induction false} CallRecency(s: State, c: Call, es: seq<Event>)
    requires Inv(s) && s.user == Idle && Run(s, es, false) && OneCall(s, c, es) && !c.Reopen?
    ensures Recency(s, After(s, es), c)
    decreases |es|
  {
    hide Inv, Recency, Enabled, Apply;
    var e, t := es[0], Apply(s, es[0]);
    if BgEvent(e) {
      BgSparesPick(s, e);
      CallRecency(t, c, es[1..]);
      SameRecency(s, t, After(s, es), c);
    } else {
      BeginRecency(s, c, e);
      RunRecency(s, t, c, es[1..]);
    }
  }

  /** Least recently used: a put, a get of a key that ends up cached, and a remove that finds
      its key put the key's node in front and leave the others in their order; a get of an
      unknown key and a remove that finds nothing leave the list as it was. */
  lemma OrderLaw(s: State, c: Call, es: seq<Event>)
    requires Inv(s) && s.user == Idle && Run(s, es, false) && OneCall(s, c, es) && After(s, es).user == Idle
    ensures var t := After(s, es);
            match c
            case PutCall(k, _) => InFront(s.cache, t.cache, k)
            case RemoveCall(k) => if k in s.spec then InFront(s.cache, t.cache, k) else SameOrder(s.cache, t.cache)
            case GetCall(k) =>
              if k in t.cache.index then InFront(s.cache, t.cache, k)
              else SameOrder(s.cache, t.cache) && k !in s.cache.index
            case Reopen => true
  {
    hide Inv, InFront;
    if !c.Reopen? { CallRecency(s, c, es); }
  }

  // ------------------------------------------------------------ sessions

  /** One run for each call, one after the other. */
  ghost predicate Session(s: State, cs: seq<Call>, runs: seq<seq<Event>>)
    decreases |cs|
  {
    && |runs| == |cs|
    && (cs == [] ||
        (&& Run(s, runs[0], true) && Run(s, runs[0], false) && OneCall(s, cs[0], runs[0])
         && After(s, runs[0]).user == Idle && Session(After(s, runs[0]), cs[1..], runs[1..])))
  }

  function SessionAnswers(s: State, cs: seq<Call>, runs: seq<seq<Event>>): seq<Answer>
    requires Session(s, cs, runs)
    decreases |cs|
  {
    if cs == [] then [] else Answers(s, runs[0]) + SessionAnswers(After(s, runs[0]), cs[1..], runs[1..])
  }

  function SessionEnd(s: State, cs: seq<Call>, runs: seq<seq<Event>>): State
    requires Session(s, cs, runs)
    decreases |cs|
  {
    if cs == [] then s else SessionEnd(After(s, runs[0]), cs[1..], runs[1..])
  }

  /** The same calls on a map. */
  function MapAnswers(m: map<Key, Value>, cs: seq<Call>): seq<Answer>
    decreases |cs|
  {
    if cs == [] then [] else Reply(cs[0], m) + MapAnswers(Outcome(cs[0], m), cs[1..])
  }

  function MapEnd(m: map<Key, Value>, cs: seq<Call>): map<Key, Value>
    decreases |cs|
  {
    if cs == [] then m else MapEnd(Outcome(cs[0], m), cs[1..])
  }

  /** Over any number of calls, with crashes and restarts between them and the background
      thread at work everywhere, the engine answers what a map answers, and holds what the map
      holds. */
  lemma {:induction false} SessionIsMap(s: State, cs: seq<Call>, runs: seq<seq<Event>>)
    requires Inv(s) && s.user == Idle && Session(s, cs, runs)
    ensures SessionAnswers(s, cs, runs) == MapAnswers(s.spec, cs)
    ensures var t := SessionEnd(s, cs, runs);
            Inv(t) && t.user == Idle && t.spec == MapEnd(s.spec, cs) && Recovered(t, false) == t.spec
    decreases |cs|
  {
    hide Inv, Reply, Outcome, Recovered, OneCall, Run;
    if cs == [] {
      RecoveredMap(s);
    } else {
      CallLaw(s, cs[0], runs[0]);
      KeepRun(s, runs[0]);
      SessionIsMap(After(s, runs[0]), cs[1..], runs[1..]);
    }
  }

  /** So does an engine just opened over any tree. */
  lemma OpenedIsMap(t: Tree, maxSize: nat, cs: seq<Call>, runs: seq<seq<Event>>)
    requires Session(Opened(t, maxSize), cs, runs)
    ensures var s := Opened(t, maxSize);
            && SessionAnswers(s, cs, runs) == MapAnswers(Values(t), cs)
            && SessionEnd(s, cs, runs).spec == MapEnd(Values(t), cs)
  {
    OpenedInv(t, maxSize);
    hide Inv, Session, SessionAnswers, SessionEnd, MapAnswers, MapEnd;
    SessionIsMap(Opened(t, maxSize), cs, runs);
  }

  lemma OpenedInv(t: Tree, maxSize: nat)
    ensures Inv(Opened(t, maxSize))
  {
  }

  /** What a crash in the middle of a call leaves: the call's effect if its entry was written,
      and in any case every other key as before. */
  lemma CrashInCall(s: State, c: Call, es: seq<Event>, q: Key)
    requires Inv(s) && s.user == Idle && Run(s, es, true) && Run(s, es, false) && OneCall(s, c, es)
    ensures var t := After(s, es);
            && (t.user.Stored? ==> Recovered(t, true) == Outcome(c, s.spec))
            && (t.user == Idle ==> Recovered(t, false) == Outcome(c, s.spec))
            && (t.user != Idle && !(c.PutCall? && q == c.key) && !(c.RemoveCall? && q == c.key) ==>
                  Lookup(Recovered(t, false), q) == Lookup(s.spec, q))
  {
    hide Inv, Recovered, OneCall;
    var t := After(s, es);
    CallMidway(s, c, es);
    KeepRun(s, es);
    if t.user.Stored? { TakesWrittenEntry(t); }
    if t.user == Idle { RecoveredMap(t); }
    if !InFlight(t, q) { RecoveredSpec(t, q); }
  }

  // ------------------------------------------------------------ a call takes few steps

  /** The user's own steps still to come, at most. */
  function Rank(s: State): nat {
    match s.user
    case Idle => 0
    case Removing(_) => 3
    case Nulled(_, _, _) => 2
    case Stored(_) => 1
    case Missed(_, _) => 1
    case Reading(_, id) => if CellOf(s, id).InLog? then 5 else 2
    case Loaded(_, _, v) => if v.InLog? then 4 else 1
    case Copied(_, _, _, _) => 3
  }

  /** A value loaded from the log is still in the cell, or has gone to the tree. */
  ghost predicate Tracks(s: State) {
    && (s.user.Loaded? && s.user.val.InLog? ==> Later(s.user.val, CellOf(s, s.user.node)))
    && (s.user.Copied? ==> Later(InLog(s.user.addr), CellOf(s, s.user.node)))
    && (Reads(s.user) ==> Inv(s))
  }

  lemma BgRank(s: State, e: Event)
    requires Tracks(s) && Enabled(s, e) && BgInRange(s) && BgEvent(e)
    ensures Tracks(Apply(s, e)) && Rank(Apply(s, e)) <= Rank(s)
  {
    hide Ok, CellsOk, OwnerOk, TreeOk, LogOk, AddrOk;
    if Reads(s.user) { BgSparesPick(s, e); }
  }

  lemma UserRank(s: State, e: Event)
    requires Tracks(s) && Enabled(s, e) && BgInRange(s) && !BgEvent(e) && !e.Crash? && s.user != Idle
    ensures Tracks(Apply(s, e)) && Rank(Apply(s, e)) < Rank(s)
  {
    hide Ok, OwnerOk, TreeOk, LogOk, AddrOk, BgOk, Backed;
    if Reads(s.user) {
      KeepStep(s, e);
      assert CellOk(s, s.user.node);
    }
  }

  /** The user's own steps in a run. */
  function UserSteps(es: seq<Event>): nat
    decreases |es|
  {
    if es == [] then 0 else (if BgEvent(es[0]) then 0 else 1) + UserSteps(es[1..])
  }

  lemma {:induction false} StepsLeft(s: State, es: seq<Event>)
    requires Tracks(s) && Run(s, es, false) && Undisturbed(s, es)
    ensures UserSteps(es) <= Rank(s)
    decreases |es|
  {
    hide Tracks, Rank, Enabled, Apply;
    if es != [] {
      if BgEvent(es[0]) { BgRank(s, es[0]); } else { UserRank(s, es[0]); }
      StepsLeft(Apply(s, es[0]), es[1..]);
    }
  }

  /** However the background thread interferes, a put takes at most three steps of its own
      once it has its cell, a remove four, and a get six: it has to read a value twice at
      most. */
  lemma {:induction false} FewSteps(s: State, c: Call, es: seq<Event>)
    requires Inv(s) && s.user == Idle && Run(s, es, false) && OneCall(s, c, es)
    ensures UserSteps(es) <=
              match c
              case PutCall(_, _) => 3
              case GetCall(_) => 6
              case RemoveCall(_) => 4
              case Reopen => 1
    decreases |es|
  {
    hide Inv, Enabled, Apply, Rank, Tracks;
    if BgEvent(es[0]) {
      BgSparesPick(s, es[0]);
      FewSteps(Apply(s, es[0]), c, es[1..]);
    } else {
      BeginRank(s, c, es[0]);
      StepsLeft(Apply(s, es[0]), es[1..]);
    }
  }

  lemma BeginRank(s: State, c: Call, e: Event)
    requires Inv(s) && s.user == Idle && Enabled(s, e) && Begins(c, e)
    ensures BgInRange(s) && Tracks(Apply(s, e))
    ensures Rank(Apply(s, e)) <=
              match c
              case PutCall(_, _) => 2
              case GetCall(_) => 5
              case RemoveCall(_) => 3
              case Reopen => 0
  {
    hide Ok, CellsOk, OwnerOk, TreeOk, LogOk, AddrOk;
    if c.GetCall? { KeepGet(s, c.key); }
  }

  // ------------------------------------------------------------ a call can be completed

  lemma FreshNode(s: State) returns (spare: NodeId)
    ensures spare !in s.cache.cells
  {
    spare := Bound(s.cache.cells.Keys);
    assert spare !in s.cache.cells.Keys;
  }

  /** The cache has a node for the key: its own, a new one, or one that may go. */
  ghost predicate HasPlace(s: State, k: Key) {
    k in s.cache.index || |s.cache.lru| < s.maxSize || exists id :: MayGo(s, Some(id))
  }

  /** put waits for the background thread exactly as long as the cache has no node for the
      key. */
  lemma PutWaits(s: State, k: Key, op: Op)
    requires Inv(s) && s.user == (if op.Assign? then Idle else Removing(k))
    ensures (exists spare, pick :: Enabled(s, PutStart(k, op, spare, pick))) <==> HasPlace(s, k)
  {
    hide OwnerOk, CellsOk, TreeOk, LogOk, AddrOk, BgOk;
    var free := FreshNode(s);
    if HasPlace(s, k) {
      if k in s.cache.index || |s.cache.lru| < s.maxSize {
        assert Enabled(s, PutStart(k, op, free, None));
      } else {
        var id :| MayGo(s, Some(id));
        assert Enabled(s, PutStart(k, op, free, Some(id)));
      }
    }
    if spare, pick :| Enabled(s, PutStart(k, op, spare, pick)) {
      if pick.Some? { assert MayGo(s, Some(pick.value)); }
    }
  }

  /** With the log empty every cell may go, so that a put finds a node. */
  lemma CanStart(s: State, k: Key, op: Op) returns (e: Event)
    requires Inv(s) && s.user == (if op.Assign? then Idle else Removing(k))
    requires k in s.cache.index || |s.cache.lru| < s.maxSize || (s.log == [] && s.maxSize > 0)
    ensures e.PutStart? && e.key == k && e.op == op && Enabled(s, e) && Harmless(s, e)
  {
    hide OwnerOk, TreeOk, LogOk, AddrOk, BgOk;
    var spare := FreshNode(s);
    if k in s.cache.index || |s.cache.lru| < s.maxSize {
      e := PutStart(k, op, spare, None);
    } else {
      var id := s.cache.lru[0];
      assert id in s.cache.lru && CellOk(s, id);
      e := PutStart(k, op, spare, Some(id));
    }
  }

  /** The user's next step, once it has a cell. */
  lemma CanStep(s: State) returns (e: Event)
    requires Inv(s) && s.user != Idle && !s.user.Removing?
    ensures Enabled(s, e) && !BgEvent(e) && !e.Crash? && Harmless(s, e)
  {
    hide Ok, CellsOk, OwnerOk, TreeOk, LogOk, BgOk;
    match s.user
    case Nulled(_, _, _) =>
      var a := FreeAddr(s.log);
      e := StoreCell(a);
    case Stored(_) => e := Publish;
    case Missed(_, _) =>
      var spare := FreshNode(s);
      e := CacheFill(spare, None);
    case Reading(_, _) => e := LoadCell;
    case Loaded(_, _, v) => e := if v.InLog? then CopyLog([]) else ReadTree;
    case Copied(_, _, _, _) => e := CheckCopy;
  }

  lemma {:induction false} Finishes(s: State) returns (es: seq<Event>)
    requires Inv(s) && Tracks(s) && !s.user.Removing?
    ensures Run(s, es, true) && Run(s, es, false) && Undisturbed(s, es) && After(s, es).user == Idle
    ensures UserSteps(es) == |es|
    decreases Rank(s)
  {
    hide Inv, Tracks, Rank, Enabled, Apply, Harmless;
    if s.user == Idle { return []; }
    var e := CanStep(s);
    InvRange(s);
    UserRank(s, e);
    KeepStep(s, e);
    NotRemoving(s, e);
    var rest := Finishes(Apply(s, e));
    es := [e] + rest;
    assert es[1..] == rest;
  }

  lemma NotRemoving(s: State, e: Event)
    requires Enabled(s, e) && BgInRange(s) && s.user != Idle && !e.Crash? && !s.user.Removing?
    ensures !Apply(s, e).user.Removing?
  {
  }

  /** No call has to wait for the background thread: those that take no node never do, and
      the others do not if there is one for their key, or no log. */
  ghost predicate NoWait(s: State, c: Call) {
    c.PutCall? || (c.RemoveCall? && c.key in s.spec) ==>
      c.key in s.cache.index || |s.cache.lru| < s.maxSize || (s.log == [] && s.maxSize > 0)
  }

  /** The user alone completes the call. */
  lemma FinishesCall(s: State, c: Call) returns (es: seq<Event>)
    requires Inv(s) && s.user == Idle && NoWait(s, c)
    ensures Run(s, es, true) && Run(s, es, false) && OneCall(s, c, es) && After(s, es).user == Idle
    ensures UserSteps(es) == |es|
  {
    hide Inv, Tracks, Rank, Apply, Harmless;
    InvRange(s);
    var e := FirstStep(s, c);
    BeginRank(s, c, e);
    BeginMidway(s, c, e);
    KeepStep(s, e);
    var t, rest := Apply(s, e), [];
    AfterFirst(s, c, e);
    if t.user.Removing? {
      RemovingIs(s, c, e);
      var f := CanStart(t, t.user.key, Erase);
      InvRange(t);
      RemovingGoesOn(t, f);
      KeepStep(t, f);
      UserRank(t, f);
      var last := Finishes(Apply(t, f));
      rest := [f] + last;
      assert rest[1..] == last;
    } else {
      rest := Finishes(t);
    }
    es := [e] + rest;
    assert es[1..] == rest;
  }

  lemma FirstStep(s: State, c: Call) returns (e: Event)
    requires Inv(s) && s.user == Idle && NoWait(s, c)
    ensures Enabled(s, e) && Begins(c, e) && !BgEvent(e) && Harmless(s, e)
  {
    hide Inv;
    match c
    case PutCall(k, v) => e := CanStart(s, k, Assign(v));
    case GetCall(k) => e := Get(k);
    case RemoveCall(k) => e := RemoveCheck(k);
    case Reopen => e := Crash(false);
  }

  lemma AfterFirst(s: State, c: Call, e: Event)
    requires BgInRange(s) && s.user == Idle && Enabled(s, e) && Begins(c, e)
    ensures Apply(s, e).user.Removing? ==>
              Apply(s, e).cache == s.cache && Apply(s, e).log == s.log && Apply(s, e).maxSize == s.maxSize
  {
  }

  lemma RemovingIs(s: State, c: Call, e: Event)
    requires Inv(s) && s.user == Idle && Enabled(s, e) && Begins(c, e) && BgInRange(s) && Apply(s, e).user.Removing?
    ensures c == RemoveCall(Apply(s, e).user.key) && c.key in s.spec
  {
    AnswerRight(s, e);
  }

  lemma RemovingGoesOn(t: State, f: Event)
    requires t.user.Removing? && Enabled(t, f) && f.PutStart? && BgInRange(t)
    ensures !Apply(t, f).user.Removing?
  {
  }

  /** A get, a remove that finds nothing, and every call for whose key the cache has a node
      without evicting one, completes without a single step of the background thread. */
  lemma NeverWaits(s: State, c: Call)
    requires Inv(s) && s.user == Idle
    requires c.PutCall? || (c.RemoveCall? && c.key in s.spec) ==>
               c.key in s.cache.index || |s.cache.lru| < s.maxSize
    ensures exists es :: Run(s, es, true) && Run(s, es, false) && OneCall(s, c, es) && After(s, es).user == Idle
                      && UserSteps(es) == |es|
  {
    hide Inv, OneCall;
    var es := FinishesCall(s, c);
  }

  lemma {:induction false} AfterBg(s: State, bg: seq<Event>, c: Call, es: seq<Event>)
    requires BgRun(bg) && Run(s, bg, false) && Run(After(s, bg), es, true) && Run(After(s, bg), es, false)
    requires OneCall(After(s, bg), c, es)
    ensures Run(s, bg + es, true) && Run(s, bg + es, false) && OneCall(s, c, bg + es)
    ensures After(s, bg + es) == After(After(s, bg), es)
    decreases |bg|
  {
    hide Enabled, Apply;
    if bg == [] {
      assert bg + es == es;
    } else {
      assert BgEvent(bg[0]);
      assert (bg + es)[0] == bg[0] && (bg + es)[1..] == bg[1..] + es;
      AfterBg(Apply(s, bg[0]), bg[1..], c, es);
    }
  }

  /** Whatever the state between calls, every call can be completed. */
  lemma CallCompletes(s: State, c: Call)
    requires Inv(s) && s.user == Idle && s.maxSize > 0
    ensures exists es :: Run(s, es, true) && Run(s, es, false) && OneCall(s, c, es) && After(s, es).user == Idle
  {
    hide Inv, OneCall;
    var bg := Drain(s);
    BgRunSparesPick(s, bg);
    var es := FinishesCall(After(s, bg), c);
    AfterBg(s, bg, c, es);
  }
}
