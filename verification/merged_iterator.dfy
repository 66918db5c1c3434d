/** heterogeneous_radix::merged_iterator and the range operations built on it: the cache
    and the tree are walked side by side, the cache wins on equal keys, and tombstones are
    hidden. The background thread runs on all the while: it moves values from the log into
    the tree, erases removed keys and changes cells. */
module MergedIterator {
  import opened Keys
  import opened OrderedCache
  import opened HeteroRadix
  import opened HeteroRadixSafety
  import opened HeteroRadixCrash
  import opened HeteroRadixScan

  predicate Sorted(s: seq<Key>) {
    forall i, j :: 0 <= i < j < |s| ==> s[i] < s[j]
  }

  /** The order in which an ordered map lists its keys. */
  ghost predicate Lists(s: seq<Key>, keys: set<Key>) {
    Sorted(s) && forall k :: k in s <==> k in keys
  }

  /** Where a range begins and ends. */
  datatype Lower = Begin | LowerBound(key: Key) | UpperBound(key: Key)
  datatype Upper = End | Below(key: Key) | AtMost(key: Key)

  predicate Above(lo: Lower, k: Key) {
    match lo case Begin => true case LowerBound(b) => b <= k case UpperBound(b) => b < k
  }

  predicate Under(hi: Upper, k: Key) {
    match hi case End => true case Below(b) => k < b case AtMost(b) => k <= b
  }

  predicate Tombstone(v: CellVal) {
    v == TombVolatile || v == TombPersistent
  }

  /** The position of the first key in range. */
  method Seek(s: seq<Key>, lo: Lower) returns (p: nat)
    requires Sorted(s)
    ensures p <= |s|
    ensures forall i :: 0 <= i < |s| ==> (Above(lo, s[i]) <==> p <= i)
  {
    p := 0;
    while p < |s| && !Above(lo, s[p])
      invariant p <= |s| && forall i :: 0 <= i < p ==> !Above(lo, s[i])
    {
      p := p + 1;
    }
  }

  lemma Inhabited(keys: set<Key>)
    ensures keys == {} || exists k :: k in keys
  {
    if forall k :: k !in keys { assert keys == {}; }
  }

  lemma {:induction false} LeastExists(keys: set<Key>)
    requires keys != {}
    ensures exists k :: k in keys && forall q :: q in keys ==> k <= q
    decreases |keys|
  {
    Inhabited(keys);
    var k :| k in keys;
    var rest := keys - {k};
    if rest == {} {
      assert keys == {k};
    } else {
      LeastExists(rest);
      var m :| m in rest && forall q :: q in rest ==> m <= q;
      var n := if k < m then k else m;
      forall q | q in keys ensures n <= q { if q != k { assert q in rest; } }
    }
  }

  /** begin, lower_bound, upper_bound and operator++ of the tree's iterator: the least key
      in range at this moment. */
  method TreeSeek(t: Tree, lo: Lower) returns (p: Option<Key>)
    ensures p.None? ==> forall k :: k in t ==> !Above(lo, k)
    ensures p.Some? ==> p.value in t && Above(lo, p.value) && forall k :: k in t && Above(lo, k) ==> p.value <= k
  {
    var keys := set k | k in t && Above(lo, k);
    assert forall k :: k in t && Above(lo, k) ==> k in keys;
    if keys == {} {
      return None;
    }
    LeastExists(keys);
    var k :| k in keys && forall q :: q in keys ==> k <= q;
    return Some(k);
  }

  function CellAt(s: State, k: Key): CellVal {
    if k in s.cache.index then CellOf(s, s.cache.index[k]) else Null
  }

  // ------------------------------------------------------------ while the iterator stands still

  /** `t` comes after `s` by steps of the background thread. */
  ghost predicate Follows(s: State, t: State) {
    && Inv(t) && t.user == s.user && t.spec == s.spec && t.cache.index == s.cache.index
    && forall k :: k in s.cache.index ==> Later(CellAt(s, k), CellAt(t, k))
  }

  lemma BgRunFollows(s: State, es: seq<Event>)
    requires Inv(s) && BgRun(es) && Run(s, es, false)
    ensures Follows(s, After(s, es))
  {
    BgRunSparesPick(s, es);
  }

  /** What the cell of a cached key says when no put is under way. */
  lemma CachedKey(s: State, k: Key, garbage: Value)
    requires Inv(s) && s.user == Idle && k in s.cache.index
    ensures CellAt(s, k) != Null && (Tombstone(CellAt(s, k)) <==> k !in s.spec)
    ensures CellAt(s, k).InLog? ==> Lookup(s.spec, k) == Some(LogData(s.log, CellAt(s, k).addr, garbage))
    ensures CellAt(s, k).InTree? ==> Lookup(s.spec, k) == TreeGet(s.tree, k)
  {
    hide OwnerOk, TreeOk, LogOk, BgOk;
    var id := s.cache.index[k];
    ViewRight(s, k);
    assert CellOk(s, id);
    if CellAt(s, k).InLog? {
      var i :| Live(s, i, id) && Expected(s.log[i]) == CellAt(s, k);
      LogDataOk(s.log, i, garbage);
      LogDataOk(s.log, i, []);
    }
  }

  lemma OutsideKey(s: State, k: Key)
    requires Inv(s) && s.user == Idle && k !in s.cache.index
    ensures TreeGet(s.tree, k) == Lookup(s.spec, k)
  {
    hide OwnerOk, CellsOk, LogOk, BgOk, Ok;
    UncachedKey(s, k);
  }

  // ------------------------------------------------------------ the keys still to be visited

  /** From position `i` of the cache and from key `p` of the tree on. */
  ghost function Left(s: State, dram: seq<Key>, i: nat, p: Option<Key>): set<Key>
    requires i <= |dram|
  {
    set k | k in s.spec && if k in s.cache.index then k in dram[i..] else p.Some? && p.value <= k
  }

  /** Where the two walks stand: all passed keys of the cache lie before the key of the
      tree, which is cached or a key of the map. */
  ghost predicate InStep(s: State, dram: seq<Key>, i: int, p: Option<Key>) {
    && Lists(dram, s.cache.index.Keys) && 0 <= i <= |dram|
    && (i > 0 && p.Some? ==> dram[i - 1] < p.value)
    && (p.Some? ==> p.value in s.cache.index || p.value in s.spec)
  }

  lemma HeadLeast(d: seq<Key>, i: nat)
    requires Sorted(d) && i < |d|
    ensures var r := d[i + 1..]; (forall k :: k in d[i..] <==> k == d[i] || k in r) && forall k :: k in r ==> d[i] < k
  {
    assert d[i..] == [d[i]] + d[i + 1..];
  }

  lemma InCache(s: State, dram: seq<Key>, i: nat)
    requires Lists(dram, s.cache.index.Keys) && i < |dram|
    ensures dram[i] in s.cache.index
  {
    assert dram[i] in dram;
  }

  /** A tree key that leads is not cached. */
  lemma LeaderUncached(s: State, dram: seq<Key>, i: nat, p: Key)
    requires InStep(s, dram, i, Some(p)) && (i == |dram| || p < dram[i])
    ensures p !in s.cache.index && p in s.spec
  {
    forall q | 0 <= q < |dram|
      ensures dram[q] != p
    {
      if q < i - 1 { assert dram[q] < dram[i - 1]; } else if i < q { assert dram[i] < dram[q]; }
    }
    assert p !in dram;
    assert p !in s.cache.index.Keys;
  }

  /** A cache key that leads is the least one left, or a hidden tombstone. */
  lemma AdvanceDram(s: State, dram: seq<Key>, i: nat, p: Option<Key>)
    requires Inv(s) && s.user == Idle && InStep(s, dram, i, p) && i < |dram| && (p.None? || dram[i] < p.value)
    ensures InStep(s, dram, i + 1, p)
    ensures Left(s, dram, i + 1, p) == Left(s, dram, i, p) - {dram[i]}
    ensures dram[i] in Left(s, dram, i, p) <==> !Tombstone(CellAt(s, dram[i]))
    ensures forall k :: k in Left(s, dram, i, p) ==> dram[i] <= k
  {
    hide Inv, CellAt;
    HeadLeast(dram, i);
    InCache(s, dram, i);
    CachedKey(s, dram[i], []);
    assert dram[i] !in dram[i + 1..];
  }

  /** The tree's iterator moves on from `p`, in the tree as it is by then. */
  ghost predicate MovedOn(s: State, p: Key, q: Option<Key>) {
    && (q.None? ==> forall k :: k in s.tree ==> k <= p)
    && (q.Some? ==> p < q.value && q.value in s.tree && forall k :: k in s.tree && p < k ==> q.value <= k)
  }

  /** Moving on leaves out no key but the one passed. */
  lemma AdvancePmem(s: State, dram: seq<Key>, i: nat, p: Key, q: Option<Key>)
    requires Inv(s) && s.user == Idle && InStep(s, dram, i, Some(p)) && MovedOn(s, p, q)
    ensures InStep(s, dram, i, q)
    ensures Left(s, dram, i, q) == Left(s, dram, i, Some(p)) - (if p in s.cache.index then {} else {p})
  {
    hide Inv, Lists;
    forall k | k !in s.cache.index
      ensures k in s.tree <==> k in s.spec
    {
      OutsideKey(s, k);
    }
  }

  lemma LeaderLeast(s: State, dram: seq<Key>, i: nat, p: Key)
    requires InStep(s, dram, i, Some(p)) && (i == |dram| || p < dram[i])
    ensures p in Left(s, dram, i, Some(p)) && forall k :: k in Left(s, dram, i, Some(p)) ==> p <= k
  {
    LeaderUncached(s, dram, i, p);
    if i < |dram| { HeadLeast(dram, i); }
  }

  /** A key of the map whose cell points into the tree, or which has no cell, is there. */
  lemma InTheTree(s: State, k: Key)
    requires Inv(s) && s.user == Idle && k in s.spec && (k in s.cache.index ==> CellAt(s, k).InTree?)
    ensures k in s.tree && s.tree[k].value == s.spec[k]
  {
    hide Inv, CellAt;
    if k in s.cache.index { CachedKey(s, k, []); } else { OutsideKey(s, k); }
  }

  lemma StandStill(s: State)
    requires Inv(s)
    ensures Follows(s, s)
  {
  }

  /** Steps of the background thread change neither what is left nor which position leads. */
  lemma StillLeft(s: State, t: State, dram: seq<Key>, i: nat, p: Option<Key>)
    requires Follows(s, t) && InStep(s, dram, i, p)
    ensures InStep(t, dram, i, p) && Left(t, dram, i, p) == Left(s, dram, i, p)
  {
  }

  class Iterator {
    /** The engine, what its background thread will do after each access, and the ordered
        keys of the cache, which stay the same. */
    var s: State
    var bg: seq<seq<Event>>
    const dram: seq<Key>
    ghost const spec: map<Key, Value>
    var dramPos: nat
    var pmemAt: Option<Key>
    var onDram: bool

    ghost predicate Aligned()
      reads this
    {
      && Inv(s) && s.user == Idle && s.spec == spec && Schedule(s, bg)
      && InStep(s, dram, dramPos, pmemAt)
    }

    /** The keys still to be visited. */
    ghost function Remaining(): set<Key>
      reads this
      requires Aligned()
    {
      Left(s, dram, dramPos, pmemAt)
    }

    predicate Dereferenceable()
      reads this
    {
      dramPos < |dram| || pmemAt.Some?
    }

    /** The current position leads, as operator++ asserts. */
    predicate Settled()
      reads this
    {
      Dereferenceable() ==>
        if onDram then
          dramPos < |dram| && (pmemAt.None? || dram[dramPos] < pmemAt.value)
              && !Tombstone(CellAt(s, dram[dramPos]))
        else
          pmemAt.Some? && (dramPos >= |dram| || pmemAt.value < dram[dramPos])
    }

    function Key(): Key
      reads this
      requires Dereferenceable() && Settled()
    {
      if onDram then dram[dramPos] else pmemAt.value
    }

    ghost predicate Valid()
      reads this
    {
      Aligned() && Settled()
    }

    constructor (s: State, bg: seq<seq<Event>>, dram: seq<Key>, dramPos: nat, pmemAt: Option<Key>)
      requires Inv(s) && s.user == Idle && Schedule(s, bg) && InStep(s, dram, dramPos, pmemAt)
      ensures Valid() && spec == s.spec
      ensures Remaining() == Left(s, dram, dramPos, pmemAt)
    {
      this.s, this.bg, this.dram, this.spec := s, bg, dram, s.spec;
      this.dramPos, this.pmemAt, this.onDram := dramPos, pmemAt, false;
      new;
      SetCurrent();
    }

    /** The background thread runs for a while. */
    method Turn()
      requires Aligned()
      modifies this`s, this`bg
      ensures Aligned() && Remaining() == old(Remaining()) && Follows(old(s), s)
      ensures old(Settled()) ==> Settled()
    {
      hide Inv, Left, Lists, CellAt;
      if bg == [] {
        StandStill(s);
      } else {
        BgRunFollows(s, bg[0]);
        if dramPos < |dram| { InCache(s, dram, dramPos); }
        StillLeft(s, After(s, bg[0]), dram, dramPos, pmemAt);
        s, bg := After(s, bg[0]), bg[1..];
      }
    }

    method SetCurrent()
      requires Aligned()
      modifies this
      ensures Valid() && Remaining() == old(Remaining())
    {
      hide Inv, Lists, Left, CellAt, Schedule;
      while Dereferenceable()
        invariant Aligned() && Remaining() == old(Remaining())
        decreases |dram| - dramPos,
                  if pmemAt.Some? && dramPos < |dram| && pmemAt.value == dram[dramPos] then 1 else 0
      {
        if pmemAt.Some? && dramPos < |dram| && dram[dramPos] == pmemAt.value {
          InCache(s, dram, dramPos);
          StepPmem();
        } else if dramPos == |dram| || (pmemAt.Some? && dram[dramPos] > pmemAt.value) {
          onDram := false;
          return;
        } else {
          Turn();
          if Tombstone(CellAt(s, dram[dramPos])) {
            AdvanceDram(s, dram, dramPos, pmemAt);
            dramPos := dramPos + 1;
          } else {
            onDram := true;
            return;
          }
        }
      }
    }

    /** The tree's iterator moves on to the next key of the tree as it is by then. */
    method StepPmem()
      requires Aligned() && pmemAt.Some?
      modifies this`s, this`bg, this`pmemAt
      ensures Aligned() && Follows(old(s), s) && (pmemAt.Some? ==> old(pmemAt.value) < pmemAt.value)
      ensures Remaining() == old(Remaining()) - (if old(pmemAt.value) in s.cache.index then {} else {old(pmemAt.value)})
    {
      hide Inv, Lists, Left, Schedule;
      var p := pmemAt.value;
      Turn();
      var q := TreeSeek(s.tree, UpperBound(p));
      AdvancePmem(s, dram, dramPos, p, q);
      pmemAt := q;
    }

    /** operator++: takes the least remaining key, which it returns, off the rest. */
    method Next() returns (ghost k: Key)
      requires Valid() && Dereferenceable()
      modifies this
      ensures Valid() && k == old(Key()) && k in old(Remaining())
      ensures forall q :: q in old(Remaining()) ==> k <= q
      ensures Remaining() == old(Remaining()) - {k}
    {
      hide Inv, Lists, Left, CellAt, Schedule;
      k := Key();
      if onDram {
        AdvanceDram(s, dram, dramPos, pmemAt);
        dramPos := dramPos + 1;
      } else {
        LeaderLeast(s, dram, dramPos, pmemAt.value);
        LeaderUncached(s, dram, dramPos, pmemAt.value);
        StepPmem();
      }
      SetCurrent();
    }

    /** value: a value in the log is copied, and the copy is good if the cell has not
        changed by then. */
    method Value() returns (v: Value)
      requires Valid() && Dereferenceable()
      modifies this`s, this`bg
      ensures Valid() && Dereferenceable() && Key() == old(Key()) && Remaining() == old(Remaining())
      ensures Lookup(spec, Key()) == Some(v)
    {
      hide Inv, Lists, Left, CellAt, Schedule;
      var k := Key();
      if onDram {
        InCache(s, dram, dramPos);
        CachedKey(s, k, []);
        var cell := CellAt(s, k);
        while cell.InLog?
          invariant Valid() && Dereferenceable() && onDram && Key() == k && Remaining() == old(Remaining())
          invariant k in s.cache.index && k in spec
          invariant Later(cell, CellAt(s, k)) && (cell.InLog? || cell.InTree?)
          decreases if cell.InLog? then 1 else 0
        {
          Turn();
          var garbage: Value := *;
          v := LogData(s.log, cell.addr, garbage);
          CachedKey(s, k, garbage);
          Turn();
          if CellAt(s, k) == cell {
            return;
          }
          cell := CellAt(s, k);
        }
      } else {
        LeaderUncached(s, dram, dramPos, pmemAt.value);
      }
      Turn();
      InTheTree(s, k);
      v := s.tree[k].value;
    }

    /** The current key is the least one remaining. */
    lemma KeyIsLeast()
      requires Valid() && Dereferenceable()
      ensures Key() in Remaining() && forall k :: k in Remaining() ==> Key() <= k
    {
      hide Inv, Lists, Left, CellAt, Schedule;
      if onDram {
        AdvanceDram(s, dram, dramPos, pmemAt);
      } else {
        LeaderLeast(s, dram, dramPos, pmemAt.value);
      }
    }

    lemma NothingRemains()
      requires Valid() && !Dereferenceable()
      ensures Remaining() == {}
    {
      hide Inv, CellAt, Schedule;
      assert forall k :: k in s.cache.index ==> k in s.cache.index.Keys;
    }
  }

  // ------------------------------------------------------------ range operations

  ghost function KeysOf(v: seq<(Key, Value)>): set<Key> {
    set e | e in v :: e.0
  }

  /** The pairs in `v` are listed by key and are pairs of the map. */
  ghost predicate Listing(spec: map<Key, Value>, v: seq<(Key, Value)>) {
    && (forall i, j :: 0 <= i < j < |v| ==> v[i].0 < v[j].0)
    && (forall e :: e in v ==> e.0 in spec && e.1 == spec[e.0])
  }

  lemma ListingSnoc(spec: map<Key, Value>, v: seq<(Key, Value)>, k: Key)
    requires k in spec && Listing(spec, v) && forall a :: a in KeysOf(v) ==> a < k
    ensures Listing(spec, v + [(k, spec[k])]) && KeysOf(v + [(k, spec[k])]) == KeysOf(v) + {k}
  {
    var w := v + [(k, spec[k])];
    forall i | 0 <= i < |v| ensures v[i].0 < k { assert v[i].0 in KeysOf(v); }
    assert forall e :: e in w <==> e in v || e == (k, spec[k]);
    assert (k, spec[k]) in w;
  }

  /** `v` lists those keys of `all` that are not in `rest`; they come first and are
      in range, and the callback stopped on none of them. */
  ghost predicate Progress(spec: map<Key, Value>, v: seq<(Key, Value)>, all: set<Key>, rest: set<Key>, hi: Upper,
                           cb: (Key, Value) -> bool) {
    && Listing(spec, v) && rest <= all && KeysOf(v) == all - rest
    && (forall e :: e in v ==> !cb(e.0, e.1))
    && (forall a :: a in KeysOf(v) ==> Under(hi, a) && forall k :: k in rest ==> a < k)
  }

  lemma ProgressStart(spec: map<Key, Value>, all: set<Key>, hi: Upper, cb: (Key, Value) -> bool)
    ensures Progress(spec, [], all, all, hi, cb)
  {
  }

  lemma ProgressStep(spec: map<Key, Value>, v: seq<(Key, Value)>, all: set<Key>, rest: set<Key>, hi: Upper,
                     cb: (Key, Value) -> bool, k: Key)
    requires k in spec && Progress(spec, v, all, rest, hi, cb) && k in rest && Under(hi, k) && forall q :: q in rest ==>
               k <= q
    ensures var w := v + [(k, spec[k])];
            && Listing(spec, w) && KeysOf(w) == (set q | q in all && Under(hi, q) && q <= k)
            && forall e :: e in v ==> !cb(e.0, e.1)
    ensures !cb(k, spec[k]) ==> Progress(spec, v + [(k, spec[k])], all, rest - {k}, hi, cb)
  {
    ListingSnoc(spec, v, k);
    var w := v + [(k, spec[k])];
    forall q | q in all && Under(hi, q) && q <= k ensures q in KeysOf(w) { if q !in KeysOf(v) { assert q in rest; } }
    forall q | q in KeysOf(w) ensures q in all && Under(hi, q) && q <= k { if q != k { assert q in KeysOf(v); } }
  }

  lemma ProgressEnd(spec: map<Key, Value>, v: seq<(Key, Value)>, all: set<Key>, rest: set<Key>, hi: Upper,
                    cb: (Key, Value) -> bool)
    requires Progress(spec, v, all, rest, hi, cb) && forall k :: k in rest ==> !Under(hi, k)
    ensures Listing(spec, v) && KeysOf(v) == set k | k in all && Under(hi, k)
    ensures forall e :: e in v ==> !cb(e.0, e.1)
  {
    forall k | k in all && Under(hi, k) ensures k in KeysOf(v) { assert k !in rest; }
  }

  lemma UnderDown(hi: Upper, a: Key, b: Key)
    requires a <= b && !Under(hi, a)
    ensures !Under(hi, b)
  {
  }

  /** iterate_generic with the callback and the predicate of a get_* operation. The
      remaining keys in range are visited in increasing order, each once with its
      value, up to and including the first one on which the callback stops. */
  method Iterate(it: Iterator, hi: Upper, cb: (Key, Value) -> bool)
    returns (visited: seq<(Key, Value)>, stopped: bool)
    requires it.Valid()
    modifies it
    ensures it.Valid() && Listing(it.spec, visited)
    ensures stopped ==> visited != [] && cb(visited[|visited| - 1].0, visited[|visited| - 1].1)
    ensures forall e :: e in (if stopped then visited[..|visited| - 1] else visited) ==> !cb(e.0, e.1)
    ensures KeysOf(visited) ==
              set k | k in old(it.Remaining()) && Under(hi, k) && (stopped ==> k <= visited[|visited| - 1].0)
  {
    hide Progress, Listing, KeysOf, InStep, Left, Inv, Schedule, Follows, Lists, CellAt;
    visited, stopped := [], false;
    ghost var all, rest := it.Remaining(), it.Remaining();
    ProgressStart(it.spec, all, hi, cb);
    while it.Dereferenceable() && Under(hi, it.Key())
      invariant it.Valid() && rest == it.Remaining() && Progress(it.spec, visited, all, rest, hi, cb)
      decreases rest
    {
      it.KeyIsLeast();
      var k := it.Key();
      var v := it.Value();
      ProgressStep(it.spec, visited, all, rest, hi, cb, k);
      ghost var before := visited;
      visited := visited + [(k, v)];
      if cb(k, v) {
        stopped := true;
        assert visited[..|visited| - 1] == before;
        return;
      }
      it.Turn();
      ghost var _ := it.Next();
      rest := rest - {k};
    }
    OutOfRange(it, rest, hi);
    ProgressEnd(it.spec, visited, all, rest, hi, cb);
  }

  lemma OutOfRange(it: Iterator, rest: set<Key>, hi: Upper)
    requires it.Valid() && rest == it.Remaining() && !(it.Dereferenceable() && Under(hi, it.Key()))
    ensures forall k :: k in rest ==> !Under(hi, k)
  {
    if it.Dereferenceable() {
      it.KeyIsLeast();
      forall k | k in rest ensures !Under(hi, k) { UnderDown(hi, it.Key(), k); }
    } else {
      it.NothingRemains();
    }
  }

  lemma BoundSuffix(d: seq<Key>, lo: Lower, i: nat)
    requires i <= |d| && forall q :: 0 <= q < |d| ==> (Above(lo, d[q]) <==> i <= q)
    ensures forall k :: k in d[i..] <==> k in d && Above(lo, k)
  {
    forall k | k in d && Above(lo, k)
      ensures k in d[i..]
    {
      var q :| 0 <= q < |d| && d[q] == k;
      assert d[i..][q - i] == k;
    }
  }

  /** Two positions found by the same bound are in step, and what is left there are the
      keys of the map above the bound. */
  lemma BoundInStep(s: State, dram: seq<Key>, lo: Lower, i: nat, p: Option<Key>)
    requires Inv(s) && s.user == Idle && Lists(dram, s.cache.index.Keys) && i <= |dram|
    requires forall q :: 0 <= q < |dram| ==> (Above(lo, dram[q]) <==> i <= q)
    requires p.None? ==> forall k :: k in s.tree ==> !Above(lo, k)
    requires p.Some? ==> p.value in s.tree && Above(lo, p.value) && forall k :: k in s.tree && Above(lo, k) ==>
               p.value <= k
    ensures InStep(s, dram, i, p)
    ensures forall k :: k in Left(s, dram, i, p) <==> k in s.spec && Above(lo, k)
  {
    hide Inv;
    assert i > 0 ==> !Above(lo, dram[i - 1]);
    BoundSuffix(dram, lo, i);
    assert forall k :: k in s.cache.index <==> k in s.cache.index.Keys;
    forall k | k !in s.cache.index
      ensures k in s.tree <==> k in s.spec
    {
      OutsideKey(s, k);
    }
  }

  /** merged_begin, merged_lower_bound and merged_upper_bound look up one container after
      the other. */
  method Bound(s: State, bg: seq<seq<Event>>, dram: seq<Key>, lo: Lower) returns (it: Iterator)
    requires Inv(s) && s.user == Idle && Schedule(s, bg) && Lists(dram, s.cache.index.Keys)
    ensures fresh(it) && it.Valid() && it.spec == s.spec
    ensures forall k :: k in it.Remaining() <==> k in s.spec && Above(lo, k)
  {
    hide Inv, Left;
    var i := Seek(dram, lo);
    var t, rest := s, bg;
    if bg != [] {
      BgRunFollows(s, bg[0]);
      t, rest := After(s, bg[0]), bg[1..];
    }
    var p := TreeSeek(t.tree, lo);
    BoundInStep(t, dram, lo, i, p);
    it := new Iterator(t, rest, dram, i, p);
  }

  /** The keys of the specification in range. */
  ghost function InRange(spec: map<Key, Value>, lo: Lower, hi: Upper): set<Key> {
    set k | k in spec && Above(lo, k) && Under(hi, k)
  }

  /** What the callback was given: pairs of the map with keys among `keys`, in increasing
      order, each once; all of them, or those up to the first one on which it stopped. */
  ghost predicate Gives(visited: seq<(Key, Value)>, stopped: bool, m: map<Key, Value>, keys: set<Key>,
                        cb: (Key, Value) -> bool)
  {
    && (forall i, j :: 0 <= i < j < |visited| ==> visited[i].0 < visited[j].0)
    && (forall e :: e in visited ==> e.0 in m && e.1 == m[e.0])
    && (!stopped ==> KeysOf(visited) == keys && forall e :: e in visited ==> !cb(e.0, e.1))
    && (stopped ==>
          && visited != []
          && cb(visited[|visited| - 1].0, visited[|visited| - 1].1)
          && (forall e :: e in visited[..|visited| - 1] ==> !cb(e.0, e.1))
          && KeysOf(visited) == set k | k in keys && k <= visited[|visited| - 1].0)
  }

  /** The loop that all get_* operations share: begin, lower_bound or upper_bound, then
      iterate. Whatever the background thread does meanwhile, exactly the completed pairs of
      the range are visited. */
  method GetRange(s: State, bg: seq<seq<Event>>, dram: seq<Key>, lo: Lower, hi: Upper, cb: (Key, Value) -> bool)
    returns (visited: seq<(Key, Value)>, stopped: bool)
    requires Inv(s) && s.user == Idle && Schedule(s, bg) && Lists(dram, s.cache.index.Keys)
    ensures Gives(visited, stopped, s.spec, InRange(s.spec, lo, hi), cb)
  {
    hide Inv, Schedule, InStep, Left;
    var it := Bound(s, bg, dram, lo);
    visited, stopped := Iterate(it, hi, cb);
  }

  /** get_all visits every pair. */
  method GetAll(s: State, bg: seq<seq<Event>>, dram: seq<Key>, cb: (Key, Value) -> bool)
    returns (visited: seq<(Key, Value)>, stopped: bool)
    requires Inv(s) && s.user == Idle && Schedule(s, bg) && Lists(dram, s.cache.index.Keys)
    ensures Gives(visited, stopped, s.spec, s.spec.Keys, cb)
  {
    hide Inv, Schedule, Gives, Lists;
    visited, stopped := GetRange(s, bg, dram, Begin, End, cb);
    assert InRange(s.spec, Begin, End) == s.spec.Keys;
  }

  /** get_above */
  method GetAbove(s: State, bg: seq<seq<Event>>, dram: seq<Key>, key: Key, cb: (Key, Value) -> bool)
    returns (visited: seq<(Key, Value)>, stopped: bool)
    requires Inv(s) && s.user == Idle && Schedule(s, bg) && Lists(dram, s.cache.index.Keys)
    ensures Gives(visited, stopped, s.spec, (set k | k in s.spec && key < k), cb)
  {
    hide Inv, Schedule, Gives, Lists;
    visited, stopped := GetRange(s, bg, dram, UpperBound(key), End, cb);
    assert InRange(s.spec, UpperBound(key), End) == (set k | k in s.spec && key < k);
  }

  /** get_equal_above */
  method GetEqualAbove(s: State, bg: seq<seq<Event>>, dram: seq<Key>, key: Key, cb: (Key, Value) -> bool)
    returns (visited: seq<(Key, Value)>, stopped: bool)
    requires Inv(s) && s.user == Idle && Schedule(s, bg) && Lists(dram, s.cache.index.Keys)
    ensures Gives(visited, stopped, s.spec, (set k | k in s.spec && key <= k), cb)
  {
    hide Inv, Schedule, Gives, Lists;
    visited, stopped := GetRange(s, bg, dram, LowerBound(key), End, cb);
    assert InRange(s.spec, LowerBound(key), End) == (set k | k in s.spec && key <= k);
  }

  /** get_below */
  method GetBelow(s: State, bg: seq<seq<Event>>, dram: seq<Key>, key: Key, cb: (Key, Value) -> bool)
    returns (visited: seq<(Key, Value)>, stopped: bool)
    requires Inv(s) && s.user == Idle && Schedule(s, bg) && Lists(dram, s.cache.index.Keys)
    ensures Gives(visited, stopped, s.spec, (set k | k in s.spec && k < key), cb)
  {
    hide Inv, Schedule, Gives, Lists;
    visited, stopped := GetRange(s, bg, dram, Begin, Below(key), cb);
    assert InRange(s.spec, Begin, Below(key)) == (set k | k in s.spec && k < key);
  }

  /** get_equal_below */
  method GetEqualBelow(s: State, bg: seq<seq<Event>>, dram: seq<Key>, key: Key, cb: (Key, Value) -> bool)
    returns (visited: seq<(Key, Value)>, stopped: bool)
    requires Inv(s) && s.user == Idle && Schedule(s, bg) && Lists(dram, s.cache.index.Keys)
    ensures Gives(visited, stopped, s.spec, (set k | k in s.spec && k <= key), cb)
  {
    hide Inv, Schedule, Gives, Lists;
    visited, stopped := GetRange(s, bg, dram, Begin, AtMost(key), cb);
    assert InRange(s.spec, Begin, AtMost(key)) == (set k | k in s.spec && k <= key);
  }

  /** get_between visits nothing unless the first key is below the second. */
  method GetBetween(s: State, bg: seq<seq<Event>>, dram: seq<Key>, key1: Key, key2: Key, cb: (Key, Value) -> bool)
    returns (visited: seq<(Key, Value)>, stopped: bool)
    requires Inv(s) && s.user == Idle && Schedule(s, bg) && Lists(dram, s.cache.index.Keys)
    ensures Gives(visited, stopped, s.spec, (set k | k in s.spec && key1 < k < key2), cb)
  {
    if key1 < key2 {
      visited, stopped := GetRange(s, bg, dram, UpperBound(key1), Below(key2), cb);
      assert InRange(s.spec, UpperBound(key1), Below(key2)) == set k | k in s.spec && key1 < k < key2;
    } else {
      assert (set k | k in s.spec && key1 < k < key2) == {};
      visited, stopped := [], false;
    }
  }

  lemma {:induction false} KeysOfSize(v: seq<(Key, Value)>)
    requires forall i, j :: 0 <= i < j < |v| ==> v[i].0 < v[j].0
    ensures |KeysOf(v)| == |v|
  {
    if v != [] {
      var w, e := v[..|v| - 1], v[|v| - 1];
      KeysOfSize(w);
      assert v == w + [e];
      assert forall x :: x in v <==> x in w || x == e;
      assert KeysOf(v) == KeysOf(w) + {e.0};
      assert e.0 !in KeysOf(w);
    }
  }

  // ------------------------------------------------------------ the counts

  /** A callback that counts and never stops is called once for every key. */
  lemma GivesCount(visited: seq<(Key, Value)>, stopped: bool, m: map<Key, Value>, keys: set<Key>,
                   cb: (Key, Value) -> bool)
    requires Gives(visited, stopped, m, keys, cb) && forall k, v :: !cb(k, v)
    ensures |visited| == |keys|
  {
    KeysOfSize(visited);
  }

  method CountAll(s: State, bg: seq<seq<Event>>, dram: seq<Key>) returns (cnt: nat)
    requires Inv(s) && s.user == Idle && Schedule(s, bg) && Lists(dram, s.cache.index.Keys)
    ensures cnt == |s.spec.Keys|
  {
    hide Inv, Schedule, Gives, Lists;
    var cb: (Key, Value) -> bool := (_, _) => false;
    var visited, stopped := GetAll(s, bg, dram, cb);
    GivesCount(visited, stopped, s.spec, s.spec.Keys, cb);
    cnt := |visited|;
  }

  method CountAbove(s: State, bg: seq<seq<Event>>, dram: seq<Key>, key: Key) returns (cnt: nat)
    requires Inv(s) && s.user == Idle && Schedule(s, bg) && Lists(dram, s.cache.index.Keys)
    ensures cnt == |set k | k in s.spec && key < k|
  {
    hide Inv, Schedule, Gives, Lists;
    var cb: (Key, Value) -> bool := (_, _) => false;
    var visited, stopped := GetAbove(s, bg, dram, key, cb);
    GivesCount(visited, stopped, s.spec, (set k | k in s.spec && key < k), cb);
    cnt := |visited|;
  }

  method CountEqualAbove(s: State, bg: seq<seq<Event>>, dram: seq<Key>, key: Key) returns (cnt: nat)
    requires Inv(s) && s.user == Idle && Schedule(s, bg) && Lists(dram, s.cache.index.Keys)
    ensures cnt == |set k | k in s.spec && key <= k|
  {
    hide Inv, Schedule, Gives, Lists;
    var cb: (Key, Value) -> bool := (_, _) => false;
    var visited, stopped := GetEqualAbove(s, bg, dram, key, cb);
    GivesCount(visited, stopped, s.spec, (set k | k in s.spec && key <= k), cb);
    cnt := |visited|;
  }

  method CountBelow(s: State, bg: seq<seq<Event>>, dram: seq<Key>, key: Key) returns (cnt: nat)
    requires Inv(s) && s.user == Idle && Schedule(s, bg) && Lists(dram, s.cache.index.Keys)
    ensures cnt == |set k | k in s.spec && k < key|
  {
    hide Inv, Schedule, Gives, Lists;
    var cb: (Key, Value) -> bool := (_, _) => false;
    var visited, stopped := GetBelow(s, bg, dram, key, cb);
    GivesCount(visited, stopped, s.spec, (set k | k in s.spec && k < key), cb);
    cnt := |visited|;
  }

  method CountEqualBelow(s: State, bg: seq<seq<Event>>, dram: seq<Key>, key: Key) returns (cnt: nat)
    requires Inv(s) && s.user == Idle && Schedule(s, bg) && Lists(dram, s.cache.index.Keys)
    ensures cnt == |set k | k in s.spec && k <= key|
  {
    hide Inv, Schedule, Gives, Lists;
    var cb: (Key, Value) -> bool := (_, _) => false;
    var visited, stopped := GetEqualBelow(s, bg, dram, key, cb);
    GivesCount(visited, stopped, s.spec, (set k | k in s.spec && k <= key), cb);
    cnt := |visited|;
  }

  method CountBetween(s: State, bg: seq<seq<Event>>, dram: seq<Key>, key1: Key, key2: Key) returns (cnt: nat)
    requires Inv(s) && s.user == Idle && Schedule(s, bg) && Lists(dram, s.cache.index.Keys)
    ensures cnt == |set k | k in s.spec && key1 < k < key2|
  {
    hide Inv, Schedule, Gives, Lists;
    var cb: (Key, Value) -> bool := (_, _) => false;
    var visited, stopped := GetBetween(s, bg, dram, key1, key2, cb);
    GivesCount(visited, stopped, s.spec, (set k | k in s.spec && key1 < k < key2), cb);
    cnt := |visited|;
  }
}
