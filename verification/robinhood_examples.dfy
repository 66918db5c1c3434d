/** Where the robinhood engine goes wrong. Tombstones never become unused again, so that
    inserting and removing keys fills a table with them. On such tables a successful insert
    can drop its key or hide another one, and a lookup can run for ever. And a remove can
    report that a key was not there although it was, and has just been removed. */
module RobinHoodExamples {
  import opened Keys
  import opened RobinHoodRing
  import opened RobinHoodTable
  import opened RobinHoodCopy
  import opened RobinHoodExact
  import opened RobinHoodRuns
  import opened RobinHood

  /** A hash function for a table of 16 slots. */
  ghost predicate Hashes(hf: Word -> Word) {
    forall k :: Slot(16, hf(k))
  }

  /** The tombstone of an entry with home `h`. */
  function Tomb(h: nat): (e: Entry)
    requires h < TWO_63
    ensures Deleted(e.hash) && Home(e.hash) == h
  {
    Entry(0, 0, h + TWO_63)
  }

  /** A table of 16 slots whose first `i` usable slots are tombstones with home 1. */
  function Tombs(i: nat): (t: Table)
    ensures |t| == 16 && forall p :: 0 <= p < 16 ==> t[p] == if 1 <= p <= i then Tomb(1) else UNUSED
  {
    seq(16, p => if 1 <= p <= i then Tomb(1) else UNUSED)
  }

  ghost predicate NoneLive(t: Table) {
    |t| == 16 && forall p :: !Live(t, p)
  }

  /** Tombstones at least as far from their homes as the counter says are passed. */
  lemma {:induction false} Pass(t: Table, cur: Table, d: Entry, pos: nat, dist: int, n: nat, last: nat)
    requires |t| == 16 && |cur| == 16 && 1 <= pos <= last <= 15 && n + 16 - pos < MAX_SWAPS
    requires forall q :: pos <= q <= last ==>
               Deleted(t[q].hash) && RingDist(16, Home(t[q].hash), q) >= dist + q - pos
    ensures Walk(t, cur, false, d, pos, dist, n) ==
              Walk(t, cur, false, d, NextSlot(16, last), dist + last + 1 - pos, n + last + 1 - pos)
    decreases last - pos
  {
    if pos < last {
      Pass(t, cur, d, pos + 1, dist + 1, n + 1, last);
    }
  }

  // ------------------------------------------------------------ runs

  /** Some run of puts and removes leads from one table to the other. */
  ghost predicate Gets(hf: Word -> Word, t: Table, u: Table) {
    |t| == 16 && Hashes(hf) && exists ops :: After(hf, t, ops) == u
  }

  lemma {:induction false} AfterAppend(hf: Word -> Word, t: Table, a: seq<Op>, b: seq<Op>)
    requires |t| == 16 && Hashes(hf)
    ensures After(hf, t, a + b) == After(hf, After(hf, t, a), b)
    decreases |a|
  {
    hide Step;
    if a == [] {
      assert a + b == b;
    } else {
      assert (a + b)[0] == a[0] && (a + b)[1..] == a[1..] + b;
      AfterAppend(hf, Step(hf, t, a[0]).0, a[1..], b);
    }
  }

  lemma GetsOn(hf: Word -> Word, o: Table, t: Table, op: Op)
    requires Gets(hf, o, t) && |t| == 16
    ensures Gets(hf, o, Step(hf, t, op).0)
  {
    hide Step;
    var ops :| After(hf, o, ops) == t;
    assert [op][1..] == [];
    assert After(hf, t, [op]) == Step(hf, t, op).0;
    AfterAppend(hf, o, ops, [op]);
  }

  lemma GetsSelf(hf: Word -> Word, t: Table)
    requires |t| == 16 && Hashes(hf)
    ensures Gets(hf, t, t)
  {
    assert After(hf, t, []) == t;
  }

  lemma GetsPut(hf: Word -> Word, o: Table, t: Table, key: Word, value: Word, p: nat)
    requires Gets(hf, o, t) && |t| == 16 && p < 16
    requires Insert(hf, t, false, key, value) == Placed(t[p := Entry(key, value, hf(key))], true)
    ensures Gets(hf, o, t[p := Entry(key, value, hf(key))])
  {
    hide Insert;
    GetsOn(hf, o, t, Put(key, value));
  }

  lemma GetsRemove(hf: Word -> Word, o: Table, t: Table, key: Word, p: nat)
    requires Gets(hf, o, t) && |t| == 16 && Unique(t) && Live(t, p) && t[p].key == key
    ensures Gets(hf, o, Delete(t, p))
  {
    GetsOn(hf, o, t, Remove(key));
    RemovedIs(t, key, p);
  }

  /** A key put into slot `p` of a table without entries and removed again leaves its
      tombstone there. */
  lemma Round(hf: Word -> Word, o: Table, t: Table, key: Word, value: Word, p: nat)
    requires Gets(hf, o, t) && NoneLive(t) && Slot(16, p)
    requires Insert(hf, t, false, key, value) == Placed(t[p := Entry(key, value, hf(key))], true)
    ensures Gets(hf, o, t[p := Tomb(hf(key))]) && NoneLive(t[p := Tomb(hf(key))])
  {
    hide Gets, Insert;
    InRing(hf, key);
    GetsSize(hf, o, t);
    GetsPut(hf, o, t, key, value, p);
    var u := t[p := Entry(key, value, hf(key))];
    forall q ensures Live(u, q) <==> q == p { assert !Live(t, q); }
    GetsRemove(hf, o, u, key, p);
    var w := t[p := Tomb(hf(key))];
    assert Delete(u, p) == w;
    forall q ensures !Live(w, q) { assert !Live(t, q); }
  }

  lemma GetsSize(hf: Word -> Word, o: Table, t: Table)
    requires Gets(hf, o, t)
    ensures |t| == 16 && Hashes(hf)
  {
  }

  lemma InRing(hf: Word -> Word, key: Word)
    ensures Hashes(hf) ==> Slot(16, hf(key)) && !Empty(hf(key))
  {
  }

  // ------------------------------------------------------------ only tombstones

  /** Inserting a key with home 1 into a table of tombstones and removing it again leaves
      one more tombstone. */
  lemma OneRound(hf: Word -> Word, i: nat, key: Word, value: Word)
    requires i < 15 && hf(key) == 1
    ensures var e := Entry(key, value, 1);
            var o := Insert(hf, Tombs(i), false, key, value);
            && o == Placed(Tombs(i)[i + 1 := e], true)
            && Live(o.table, i + 1) && Delete(o.table, i + 1) == Tombs(i + 1)
  {
    var t, e := Tombs(i), Entry(key, value, 1);
    if i > 0 { Pass(t, t, e, 1, 0, 0, i); }
    assert Delete(t[i + 1 := e], i + 1) == Tombs(i + 1);
  }

  lemma {:induction false} TombsReached(hf: Word -> Word, key: Word, i: nat)
    requires Hashes(hf) && hf(key) == 1 && i <= 15
    ensures Gets(hf, Tombs(0), Tombs(i)) && NoneLive(Tombs(i))
  {
    hide Gets, Insert;
    if i == 0 {
      GetsSelf(hf, Tombs(0));
    } else {
      TombsReached(hf, key, i - 1);
      OneRound(hf, i - 1, key, 0);
      Round(hf, Tombs(0), Tombs(i - 1), key, 0, i);
      assert Tombs(i - 1)[i := Tomb(1)] == Tombs(i);
    }
  }

  // ------------------------------------------------------------ the dropped key

  /** After fifteen such rounds no slot is unused. Another key with home 1 still finds a
      place; the next one displaces it in a queued write, comes round to the same slot, reads
      the first key there as if nothing had happened, and puts it back. The insert reports
      success and its key is nowhere. */
  lemma InsertCanDropKey(hf: Word -> Word, a: Word, b: Word, value: Word)
    requires Hashes(hf) && hf(a) == 1 == hf(b) && a != b
    ensures var t := Tombs(15)[1 := Entry(a, value, 1)];
            && Gets(hf, Tombs(0), t) && TableOk(hf, t)
            && Insert(hf, t, false, b, value) == Placed(t, false)
            && b !in Contents(t)
  {
    hide Gets;
    var ea, eb := Entry(a, value, 1), Entry(b, value, 1);
    var t := Tombs(15)[1 := ea];
    TombsReached(hf, a, 15);
    FirstPlaced(hf, a, value);
    GetsPut(hf, Tombs(0), Tombs(15), a, value, 1);
    Pass(t, t, eb, 2, 1, 1, 15);
    var cur := t[1 := eb];
    Pass(t, cur, ea, 2, 1, 16, 15);
    assert Walk(t, t, false, eb, 1, 15, 15) == Walk(t, cur, false, ea, 2, 1, 16);
    assert cur[1 := ea] == t;
    FirstOk(hf, a, value);
    HasKeyContents(t, b);
  }

  lemma FirstPlaced(hf: Word -> Word, a: Word, value: Word)
    requires hf(a) == 1
    ensures Insert(hf, Tombs(15), false, a, value) == Placed(Tombs(15)[1 := Entry(a, value, 1)], true)
  {
    Pass(Tombs(15), Tombs(15), Entry(a, value, 1), 1, 0, 0, 15);
  }

  lemma FirstOk(hf: Word -> Word, a: Word, value: Word)
    requires hf(a) == 1
    ensures TableOk(hf, Tombs(15)[1 := Entry(a, value, 1)])
  {
    var t := Tombs(15)[1 := Entry(a, value, 1)];
    assert PowerOfTwo(16);
    assert forall p :: Live(t, p) ==> p == 1;
    assert Way(t, 1, 1);
  }

  // ------------------------------------------------------------ the hidden key

  /** Slot 1 is a tombstone and slot 2 holds `a`, both with home 15. */
  function Wrapped(a: Word, value: Word): Table {
    Tombs(15)[1 := Tomb(15)][2 := Entry(a, value, 15)]
  }

  lemma WrappedReached(hf: Word -> Word, x: Word, a: Word, b: Word, value: Word)
    requires Hashes(hf) && hf(x) == 15 == hf(a) && hf(b) == 1 && x != a
    ensures Gets(hf, Tombs(0), Wrapped(a, value))
  {
    hide Gets;
    var t, ex, ea := Tombs(15), Entry(x, value, 15), Entry(a, value, 15);
    TombsReached(hf, b, 15);
    Pass(t, t, ex, 15, 0, 0, 15);
    GetsPut(hf, Tombs(0), t, x, value, 1);
    var t1 := t[1 := ex];
    Pass(t1, t1, ea, 15, 0, 0, 15);
    GetsPut(hf, Tombs(0), t1, a, value, 2);
    var t2 := t1[2 := ea];
    assert forall q :: Live(t2, q) <==> q == 1 || q == 2;
    GetsRemove(hf, Tombs(0), t2, x, 1);
    assert Delete(t2, 1) == Wrapped(a, value);
  }

  lemma WrappedOk(hf: Word -> Word, a: Word, value: Word)
    requires hf(a) == 15
    ensures TableOk(hf, Wrapped(a, value)) && HasKey(Wrapped(a, value), a)
  {
    var t := Wrapped(a, value);
    assert PowerOfTwo(16);
    assert forall p :: Live(t, p) <==> p == 2;
    assert Live(t, 2) && t[2].key == a;
    assert Passes(t, 15, 15) && Passes(t, 15, 1);
    assert Way(t, 15, 2);
  }

  /** A key with home 1 comes round and takes slot 1. No slot is written twice and the table
      holds the right map, but a lookup of `a`, which starts at slot 15, stops at slot 1. */
  lemma InsertCanHideKey(hf: Word -> Word, x: Word, a: Word, b: Word, value: Word)
    requires Hashes(hf) && hf(x) == 15 == hf(a) && hf(b) == 1 && x != a
    ensures var t := Wrapped(a, value);
            var u := t[1 := Entry(b, value, 1)];
            && Gets(hf, Tombs(0), t) && TableOk(hf, t) && a in Contents(t)
            && Insert(hf, t, false, b, value) == Placed(u, true)
            && NoSlotTwice(InsertWrites(hf, t, b, value)) && Contents(u) == Contents(t)[b := value]
            && a in Contents(u) && !ProbeOk(u)
            && PowerOfTwo(16) && !EndsAt(hf, u, a, 0) && EndsAt(hf, u, a, 1) && u[SlotAfter(16, 15, 1)].key == b
  {
    hide Gets, Contents, TableOk, Walk, Writes, PowerOfTwo;
    var t := Wrapped(a, value);
    WrappedReached(hf, x, a, b, value);
    WrappedOk(hf, a, value);
    HasKeyContents(t, a);
    ComesRound(hf, a, b, value);
    InsertExactly(hf, t, b, value);
    NowHidden(hf, a, b, value);
  }

  lemma ComesRound(hf: Word -> Word, a: Word, b: Word, value: Word)
    requires hf(b) == 1 && a != b
    ensures var t, eb := Wrapped(a, value), Entry(b, value, 1);
            && Insert(hf, t, false, b, value) == Placed(t[1 := eb], true)
            && InsertWrites(hf, t, b, value) == [(1, eb)]
  {
    var t, eb := Wrapped(a, value), Entry(b, value, 1);
    assert Walk(t, t, false, eb, 1, 0, 0) == Walk(t, t, false, eb, 3, 2, 2);
    Pass(t, t, eb, 3, 2, 2, 15);
    assert Writes(t, eb, 1, 0, 0) == Writes(t, eb, 3, 2, 2);
    PassWrites(t, eb, 3, 2, 2, 15);
  }

  lemma {:induction false} PassWrites(t: Table, d: Entry, pos: nat, dist: int, n: nat, last: nat)
    requires |t| == 16 && 1 <= pos <= last <= 15 && n + 16 - pos < MAX_SWAPS
    requires forall q :: pos <= q <= last ==>
               Deleted(t[q].hash) && RingDist(16, Home(t[q].hash), q) >= dist + q - pos
    ensures Writes(t, d, pos, dist, n) ==
              Writes(t, d, NextSlot(16, last), dist + last + 1 - pos, n + last + 1 - pos)
    decreases last - pos
  {
    if pos < last {
      PassWrites(t, d, pos + 1, dist + 1, n + 1, last);
    }
  }

  lemma NowHidden(hf: Word -> Word, a: Word, b: Word, value: Word)
    requires hf(a) == 15 && hf(b) == 1 && a != b
    ensures var u := Wrapped(a, value)[1 := Entry(b, value, 1)];
            && !ProbeOk(u) && PowerOfTwo(16)
            && !EndsAt(hf, u, a, 0) && EndsAt(hf, u, a, 1) && u[SlotAfter(16, 15, 1)].key == b
  {
    var u := Wrapped(a, value)[1 := Entry(b, value, 1)];
    assert PowerOfTwo(16) && CapOk(16);
    assert Live(u, 2) && !Passes(u, 15, 1);
    assert !Way(u, Home(u[2].hash), 2);
    assert SlotAfter(16, 15, 0) == 15 && SlotAfter(16, 15, 1) == 1;
    ProbeDistanceIs(16, u[15].hash, 1);
    ProbeDistanceIs(16, u[1].hash, 2);
  }

  // ------------------------------------------------------------ the endless lookup

  /** Slots 1 to `p` are tombstones whose home is the next slot, the others tombstones with
      home 1. */
  function Spun(p: nat): (t: Table)
    ensures |t| == 16 && t[0] == UNUSED
    ensures forall q :: 1 <= q < 16 ==> t[q] == if q <= p && q < 15 then Tomb(q + 1) else Tomb(1)
  {
    seq(16, (q: nat) => if q == 0 then UNUSED else if q <= p && q < 15 then Tomb(q + 1) else Tomb(1))
  }

  /** From slot `p + 1` to the end of the table, and from slot 1 to slot `p`. */
  lemma SpinFar(p: nat, e: Entry)
    requires 1 <= p <= 14
    ensures var t := Spun(p - 1); Walk(t, t, false, e, p + 1, 0, 0) == Walk(t, t, false, e, 1, 15 - p, 15 - p)
  {
    hide Walk;
    var t := Spun(p - 1);
    Pass(t, t, e, p + 1, 0, 0, 15);
  }

  lemma SpinNear(p: nat, e: Entry)
    requires 1 <= p <= 14
    ensures var t := Spun(p - 1); Walk(t, t, false, e, 1, 15 - p, 15 - p) == Walk(t, t, false, e, p, 14, 14)
  {
    hide Walk;
    var t := Spun(p - 1);
    if p > 1 { Pass(t, t, e, 1, 15 - p, 15 - p, p - 1); }
  }

  /** A key whose home is slot `p + 1` goes all the way round to slot `p`. */
  lemma SpinRound(hf: Word -> Word, p: nat, key: Word, value: Word)
    requires 1 <= p <= 14 && hf(key) == p + 1
    ensures Insert(hf, Spun(p - 1), false, key, value) == Placed(Spun(p - 1)[p := Entry(key, value, p + 1)], true)
  {
    var t, e := Spun(p - 1), Entry(key, value, p + 1);
    SpinFar(p, e);
    SpinNear(p, e);
    assert t[p] == Tomb(1);
  }

  lemma {:induction false} SpunReached(hf: Word -> Word, keys: seq<Word>, p: nat)
    requires Hashes(hf) && |keys| == 16 && (forall h :: 1 <= h <= 15 ==> hf(keys[h]) == h) && p <= 14
    ensures Gets(hf, Tombs(0), Spun(p)) && NoneLive(Spun(p))
  {
    hide Gets, Insert;
    if p == 0 {
      TombsReached(hf, keys[1], 15);
      assert Spun(0) == Tombs(15);
    } else {
      SpunReached(hf, keys, p - 1);
      SpinRound(hf, p, keys[p + 1], 0);
      Round(hf, Tombs(0), Spun(p - 1), keys[p + 1], 0, p);
      assert Spun(p - 1)[p := Tomb(p + 1)] == Spun(p);
    }
  }

  /** If every slot is the home of some key, puts and removes lead from a new table to an
      empty one on which no lookup ends. */
  lemma LookupCanRunForever(hf: Word -> Word, keys: seq<Word>)
    requires Hashes(hf) && |keys| == 16 && forall h :: 1 <= h <= 15 ==> hf(keys[h]) == h
    ensures Gets(hf, Fresh(16), Spun(14)) && TableOk(hf, Spun(14)) && Contents(Spun(14)) == map[]
    ensures !LookupStops(Spun(14)) && PowerOfTwo(16) && forall key, n: nat :: !EndsAt(hf, Spun(14), key, n)
  {
    hide Gets, EndsAt, ProbeDistance;
    var t := Spun(14);
    SpunReached(hf, keys, 14);
    assert Tombs(0) == Fresh(16);
    assert PowerOfTwo(16) && CapOk(16);
    assert forall q :: !StopsAt(t, q);
    assert LiveKeys(t) == {};
    forall key, n: nat
      ensures !EndsAt(hf, t, key, n)
    {
      InRing(hf, key);
      LookupStopsExactly(hf, t, key);
    }
  }

  // ------------------------------------------------------------ the remove that reports failure

  ghost predicate FirstKeys(m: map<Word, Word>, k: nat) {
    forall i: Word :: i in m <==> i < k
  }

  lemma OneMoreKey(m: map<Word, Word>, k: Word)
    requires FirstKeys(m, k)
    ensures FirstKeys(m[k := k], k + 1) && |m[k := k]| == |m| + 1
  {
    MapSize(m, k, k);
  }

  /** A map after `k` puts. */
  ghost predicate Grown(m: Hashmap, k: nat)
    reads m, m.entries
  {
    && m.Valid() && NoTombstones(m.entries[..]) && m.count == k
    && m.capacity == (if k <= 7 then 16 else if k <= 15 then 32 else 64)
    && FirstKeys(m.Map(), k)
  }

  method PutNext(m: Hashmap, k: nat)
    requires Grown(m, k) && k < 16
    modifies m, m.entries
    ensures Grown(m, k + 1) && (m.entries == old(m.entries) || fresh(m.entries))
  {
    hide Contents, Counts, CapOk, NoTombstones, ProbeOk, Unique, FirstKeys, Hashmap.WritesOnce, Hashmap.InOneLap,
         Hashmap.KeepsOrder, Hashmap.Map;
    ghost var before := m.Map();
    GrownCount(m);
    OneMoreKey(before, k);
    var ok := m.PutEntry(k, k, true);
    assert ok && m.Map() == before[k := k];
    GrownCount(m);
  }

  lemma GrownCount(m: Hashmap)
    requires m.Valid()
    ensures m.count == |m.Map()|
  {
  }

  lemma SixteenOk()
    ensures CapOk(16)
  {
    assert PowerOfTwo(16);
  }

  /** Sixteen puts into a new map and one remove for which the memory is missing: the key
      was there and is gone, and the result says that it was not there. */
  method RemoveCanReportFailure(mix: Word -> Word) returns (m: Hashmap, ghost before: map<Word, Word>, r: int)
    ensures fresh(m) && m.Valid() && 0 in before && m.Map() == before - {0} && r == 1
  {
    hide Contents, TableOk, NoTombstones, PowerOfTwo, LookupStops, Fits, Removed;
    SixteenOk();
    m := new Hashmap(mix, INIT_ENTRIES_NUM);
    for k := 0 to 16
      invariant fresh(m) && fresh(m.entries) && Grown(m, k)
    {
      PutNext(m, k);
    }
    before := m.Map();
    var ended;
    ended, r := m.RemoveEntry(0, false, 2 * m.capacity);
  }
}
