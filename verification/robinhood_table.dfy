/** The robinhood table as a value: its invariant, insertion and lookup, and what
    they mean for the key-value map it holds. */
module RobinHoodTable {
  import opened Keys
  import opened RobinHoodRing

  datatype Entry = Entry(key: Word, value: Word, hash: Word)

  type Table = seq<Entry>

  const UNUSED := Entry(0, 0, 0)

  /** HASHMAP_RP_MAX_SWAPS */
  const MAX_SWAPS: nat := 150

  predicate Live(t: Table, p: int) {
    Slot(|t|, p) && !Empty(t[p].hash)
  }

  // ------------------------------------------------------------ the invariant

  /** Slot 0 is never used; every other slot that was ever used has a home, and a
      live entry carries the hash of its key. */
  ghost predicate SlotsOk(hf: Word -> Word, t: Table) {
    && CapOk(|t|) && t[0].hash == 0
    && forall p :: Slot(|t|, p) && t[p].hash != 0 ==>
         1 <= Home(t[p].hash) < |t| && (Live(t, p) ==> t[p].hash == hf(t[p].key))
  }

  /** An entry with home `h` probing past slot `q` finds it used, by something at
      least as far from its own home. */
  ghost predicate Passes(t: Table, h: int, q: int) {
    Slot(|t|, q) && t[q].hash != 0 && RingDist(|t|, Home(t[q].hash), q) >= Steps(|t|, h, q)
  }

  /** The way from home `h` to slot `p` is passable. */
  ghost predicate Way(t: Table, h: int, p: int) {
    forall q :: Slot(|t|, q) && Steps(|t|, h, q) < Steps(|t|, h, p) ==> Passes(t, h, q)
  }

  /** The order invariant of Robin Hood hashing, tombstones included. */
  ghost predicate ProbeOk(t: Table) {
    forall p :: Live(t, p) ==> Way(t, Home(t[p].hash), p)
  }

  ghost predicate Unique(t: Table) {
    forall p, q :: Live(t, p) && Live(t, q) && t[p].key == t[q].key ==> p == q
  }

  ghost predicate TableOk(hf: Word -> Word, t: Table) {
    SlotsOk(hf, t) && ProbeOk(t) && Unique(t)
  }

  /** Some slot has never been used since the table was built. */
  ghost predicate HasUnused(t: Table) {
    exists u :: Slot(|t|, u) && t[u].hash == 0
  }

  // ------------------------------------------------------------ the map

  ghost function LiveKeys(t: Table): set<Word> {
    set p | 0 <= p < |t| && Live(t, p) :: t[p].key
  }

  ghost function ValueOf(t: Table, k: Word): Word
    requires k in LiveKeys(t)
  {
    var p :| Live(t, p) && t[p].key == k;
    t[p].value
  }

  ghost function Contents(t: Table): map<Word, Word> {
    map k | k in LiveKeys(t) :: ValueOf(t, k)
  }

  lemma ContentsAt(t: Table, p: int)
    requires Unique(t) && Live(t, p)
    ensures t[p].key in Contents(t) && Contents(t)[t[p].key] == t[p].value
  {
    assert t[p].key in LiveKeys(t);
  }

  lemma SlotOf(t: Table, k: Word) returns (p: int)
    requires k in Contents(t)
    ensures Live(t, p) && t[p].key == k
  {
    assert k in LiveKeys(t);
    p :| Live(t, p) && t[p].key == k;
  }

  // ------------------------------------------------------------ insertion

  datatype Outcome = Placed(table: Table, added: bool) | TooManySwaps(table: Table)

  /** insert_helper's loop. `orig` is the table before the call and `cur` the table
      with all writes so far made. In rebuild mode the writes are made at once and
      the loop reads `cur`; otherwise they are queued until the end and it reads
      `orig`. `d` is the data in hand. */
  function Walk(orig: Table, cur: Table, rebuild: bool, d: Entry, pos: nat, dist: int, n: nat): Outcome
    requires |cur| == |orig| && Slot(|orig|, pos) && n <= MAX_SWAPS
    decreases MAX_SWAPS - n
  {
    if n == MAX_SWAPS then
      TooManySwaps(if rebuild then cur else orig)
    else
      var e := if rebuild then cur[pos] else orig[pos];
      if !Empty(e.hash) && e.key == d.key then Placed(cur[pos := d], false)
      else if e.hash == 0 then Placed(cur[pos := d], true)
      else
        var existing := RingDist(|orig|, Home(e.hash), pos);
        var next := NextSlot(|orig|, pos);
        if existing >= dist then Walk(orig, cur, rebuild, d, next, dist + 1, n + 1)
        else if Deleted(e.hash) then Placed(cur[pos := d], true)
        else Walk(orig, cur[pos := d], rebuild, e, next, existing + 1, n + 1)
  }

  /** What a used slot holds has a home; a live entry's is the hash of its key. */
  lemma SlotFacts(hf: Word -> Word, t: Table, p: nat)
    requires SlotsOk(hf, t) && Slot(|t|, p)
    ensures CapOk(|t|) && Slot(|t|, NextSlot(|t|, p))
    ensures t[p].hash != 0 ==> Slot(|t|, Home(t[p].hash)) && (!Empty(t[p].hash) ==> t[p].hash == hf(t[p].key))
  {
  }

  lemma WalkGivesUp(orig: Table, cur: Table, rebuild: bool, d: Entry, pos: nat, dist: int)
    requires |cur| == |orig| && Slot(|orig|, pos)
    ensures Walk(orig, cur, rebuild, d, pos, dist, MAX_SWAPS) == TooManySwaps(if rebuild then cur else orig)
  {
  }

  /** insert_helper; `hf` is the hash function for the table's capacity. */
  function Insert(hf: Word -> Word, t: Table, rebuild: bool, key: Word, value: Word): Outcome
    requires Slot(|t|, hf(key))
  {
    var h := hf(key);
    Walk(t, t, rebuild, Entry(key, value, h), h, 0, 0)
  }

  /** The loop ends at slot `pos`: the key is there, the slot was never used, or it holds
      a tombstone nearer its home. */
  predicate Stops(t: Table, d: Entry, pos: nat, dist: int)
    requires Slot(|t|, pos)
  {
    var e := t[pos];
    || (!Empty(e.hash) && e.key == d.key) || e.hash == 0
    || (Deleted(e.hash) && RingDist(|t|, Home(e.hash), pos) < dist)
  }

  /** The loop over `t` ends before it has come round to the slot it started from. */
  predicate InLap(t: Table, d: Entry, pos: nat, dist: int, n: nat)
    requires Slot(|t|, pos) && n <= MAX_SWAPS
    decreases MAX_SWAPS - n
  {
    n == MAX_SWAPS ||
    (n < |t| - 1 &&
      (Stops(t, d, pos, dist) ||
        var existing, next := RingDist(|t|, Home(t[pos].hash), pos), NextSlot(|t|, pos);
        if existing >= dist then InLap(t, d, next, dist + 1, n + 1) else InLap(t, t[pos], next, existing + 1, n + 1)))
  }

  /** insert_helper is done with the pair within one lap. */
  predicate OneLap(hf: Word -> Word, t: Table, key: Word, value: Word)
    requires Slot(|t|, hf(key))
  {
    InLap(t, Entry(key, value, hf(key)), hf(key), 0, 0)
  }

  /** A slot never used ends every walk that reaches it. */
  lemma {:induction false} UnusedInLap(t: Table, d: Entry, pos: nat, dist: int, n: nat, start: nat, u: nat)
    requires Slot(|t|, pos) && n <= MAX_SWAPS && Slot(|t|, start) && Slot(|t|, u) && t[u].hash == 0
    requires Steps(|t|, start, pos) == n <= Steps(|t|, start, u)
    ensures InLap(t, d, pos, dist, n)
    decreases MAX_SWAPS - n
  {
    if n < MAX_SWAPS && !Stops(t, d, pos, dist) {
      var existing, next := RingDist(|t|, Home(t[pos].hash), pos), NextSlot(|t|, pos);
      if existing >= dist {
        UnusedInLap(t, d, next, dist + 1, n + 1, start, u);
      } else {
        UnusedInLap(t, t[pos], next, existing + 1, n + 1, start, u);
      }
    }
  }

  /** A table of more slots than the loop has rounds needs no unused one. */
  lemma {:induction false} LargeInLap(t: Table, d: Entry, pos: nat, dist: int, n: nat)
    requires Slot(|t|, pos) && n <= MAX_SWAPS < |t|
    ensures InLap(t, d, pos, dist, n)
    decreases MAX_SWAPS - n
  {
    if n < MAX_SWAPS && !Stops(t, d, pos, dist) {
      var existing, next := RingDist(|t|, Home(t[pos].hash), pos), NextSlot(|t|, pos);
      if existing >= dist {
        LargeInLap(t, d, next, dist + 1, n + 1);
      } else {
        LargeInLap(t, t[pos], next, existing + 1, n + 1);
      }
    }
  }

  /** So one lap is enough on every table with an unused slot and on every table of at
      least 256 slots. */
  lemma OneLapWhen(hf: Word -> Word, t: Table, key: Word, value: Word)
    requires Slot(|t|, hf(key)) && (HasUnused(t) || |t| > MAX_SWAPS)
    ensures OneLap(hf, t, key, value)
  {
    var h := hf(key);
    if HasUnused(t) {
      var u :| Slot(|t|, u) && t[u].hash == 0;
      UnusedInLap(t, Entry(key, value, h), h, 0, 0, h, u);
    } else {
      LargeInLap(t, Entry(key, value, h), h, 0, 0);
    }
  }

  // ------------------------------------------------------------ one write

  /** Writing a live entry at the end of its way keeps the order invariant: the
      slot was unused, or its occupant is nearer its home than the newcomer. */
  lemma WriteProbeOk(hf: Word -> Word, t: Table, d: Entry, pos: int)
    requires SlotsOk(hf, t) && ProbeOk(t) && Slot(|t|, pos)
    requires !Empty(d.hash) && d.hash == hf(d.key) && Slot(|t|, d.hash) && Way(t, d.hash, pos)
    requires t[pos].hash == 0 || RingDist(|t|, Home(t[pos].hash), pos) <= RingDist(|t|, d.hash, pos)
    ensures SlotsOk(hf, t[pos := d]) && ProbeOk(t[pos := d])
  {
    var u := t[pos := d];
    forall p | Live(u, p)
      ensures Way(u, Home(u[p].hash), p)
    {
      var h := Home(u[p].hash);
      forall q | Slot(|u|, q) && Steps(|u|, h, q) < Steps(|u|, h, p)
        ensures Passes(u, h, q)
      {
        assert Passes(t, h, q);
      }
    }
  }

  ghost predicate HasKey(t: Table, k: Word) {
    exists p :: Live(t, p) && t[p].key == k
  }

  lemma HasKeyContents(t: Table, k: Word)
    ensures HasKey(t, k) <==> k in Contents(t)
  {
    if k in Contents(t) { var p := SlotOf(t, k); }
    if p :| Live(t, p) && t[p].key == k { assert t[p].key in LiveKeys(t); }
  }

  /** Tables that agree on every live entry but one slot's, put into words of their
      maps. */
  lemma ContentsWrite(t: Table, u: Table, d: Entry, pos: int)
    requires Slot(|t|, pos) && u == t[pos := d] && !Empty(d.hash) && Unique(t) && Unique(u)
    ensures d.key in Contents(u) && Contents(u)[d.key] == d.value
    ensures forall k :: k != d.key && k in Contents(u) ==> k in Contents(t) && Contents(u)[k] == Contents(t)[k]
    ensures forall k :: k in Contents(t) && !(Live(t, pos) && k == t[pos].key) ==> k in Contents(u)
  {
    assert Live(u, pos);
    ContentsAt(u, pos);
    forall k | k != d.key && k in Contents(u)
      ensures k in Contents(t) && Contents(u)[k] == Contents(t)[k]
    {
      var p := SlotOf(u, k);
      ContentsAt(u, p);
      assert Live(t, p);
      ContentsAt(t, p);
    }
    forall k | k in Contents(t) && !(Live(t, pos) && k == t[pos].key)
      ensures k in Contents(u)
    {
      var p := SlotOf(t, k);
      assert Live(u, p);
      ContentsAt(u, p);
    }
  }

  lemma WriteOver(t: Table, d: Entry, pos: int)
    requires Unique(t) && Live(t, pos) && t[pos].key == d.key && !Empty(d.hash)
    ensures Unique(t[pos := d]) && Contents(t[pos := d]) == Contents(t)[d.key := d.value]
  {
    var u := t[pos := d];
    assert forall p :: Live(u, p) ==> Live(t, p) && u[p].key == t[p].key;
    ContentsWrite(t, u, d, pos);
  }

  lemma WriteNew(t: Table, d: Entry, pos: int)
    requires Unique(t) && Slot(|t|, pos) && !Live(t, pos) && d.key !in Contents(t) && !Empty(d.hash)
    ensures Unique(t[pos := d]) && Contents(t[pos := d]) == Contents(t)[d.key := d.value]
  {
    var u := t[pos := d];
    HasKeyContents(t, d.key);
    assert forall p :: Live(u, p) && p != pos ==> Live(t, p) && u[p] == t[p];
    ContentsWrite(t, u, d, pos);
  }

  /** Swapping the data in hand with a live entry loses neither. */
  lemma WriteSwap(t: Table, d: Entry, pos: int)
    requires Unique(t) && Live(t, pos) && d.key !in Contents(t) && !Empty(d.hash)
    ensures var u, e := t[pos := d], t[pos];
            Unique(u) && e.key !in Contents(u) && Contents(u)[e.key := e.value] == Contents(t)[d.key := d.value]
  {
    var u, e := t[pos := d], t[pos];
    HasKeyContents(t, d.key);
    assert forall p :: Live(u, p) && p != pos ==> Live(t, p) && u[p] == t[p];
    HasKeyContents(u, e.key);
    ContentsAt(t, pos);
    ContentsWrite(t, u, d, pos);
  }

  // ------------------------------------------------------------ the walk

  /** What holds before each round of the first lap, `start` being the home of the key
      inserted: the way of the data in hand is passable so far, its counter lies
      between the probes made and the ring distance, its key has not been passed, and
      nothing ahead of it has been written. */
  ghost predicate Walking(hf: Word -> Word, orig: Table, cur: Table, d: Entry, pos: nat, dist: int, n: nat, start: nat)
  {
    && TableOk(hf, cur) && |orig| == |cur| && n <= MAX_SWAPS
    && dist <= n <= |cur| - 2
    && !Empty(d.hash) && d.hash == hf(d.key) && Slot(|cur|, d.hash)
    && Slot(|cur|, pos) && Way(cur, d.hash, pos)
    && Steps(|cur|, d.hash, pos) <= dist <= RingDist(|cur|, d.hash, pos)
    && Ahead(cur, d, pos, dist)
    && Slot(|cur|, start) && Steps(|cur|, start, pos) == n
    && forall q :: Slot(|cur|, q) && Steps(|cur|, start, q) >= n ==> cur[q] == orig[q]
  }

  /** If the key in hand is in the table, its slot is still ahead and nothing has
      been swapped yet. */
  ghost predicate Ahead(t: Table, d: Entry, pos: nat, dist: int) {
    forall p :: Live(t, p) && t[p].key == d.key ==>
      dist == Steps(|t|, d.hash, pos) && Steps(|t|, d.hash, p) >= Steps(|t|, d.hash, pos)
  }

  lemma WayCovers(hf: Word -> Word, t: Table, h: nat, pos: nat, p: int)
    requires TableOk(hf, t) && Live(t, p) && t[p].hash == h && Slot(|t|, pos)
    requires Steps(|t|, h, pos) < Steps(|t|, h, p)
    ensures Passes(t, h, pos)
  {
    assert Way(t, h, p);
  }

  lemma NotInTable(hf: Word -> Word, t: Table, d: Entry, pos: nat, dist: int)
    requires TableOk(hf, t) && Slot(|t|, pos) && Slot(|t|, d.hash) && Ahead(t, d, pos, dist)
    requires !Empty(d.hash) && d.hash == hf(d.key)
    requires t[pos].hash == 0 || RingDist(|t|, Home(t[pos].hash), pos) < dist
    requires !(Live(t, pos) && t[pos].key == d.key)
    ensures d.key !in Contents(t)
  {
    HasKeyContents(t, d.key);
    if p :| Live(t, p) && t[p].key == d.key {
      WayCovers(hf, t, d.hash, pos, p);
    }
  }

  /** One more probe, short of a whole lap from home. */
  lemma PosAdvance(cap: nat, h: int, pos: nat)
    requires Slot(cap, h) && Slot(cap, pos) && Steps(cap, h, pos) < cap - 2
    ensures var next := NextSlot(cap, pos);
            && Slot(cap, next)
            && Steps(cap, h, next) == Steps(cap, h, pos) + 1
            && RingDist(cap, h, next) >= RingDist(cap, h, pos) + 1
  {
  }

  lemma WayFurther(t: Table, h: int, pos: nat, next: nat)
    requires Slot(|t|, h) && Slot(|t|, pos) && Slot(|t|, next) && Way(t, h, pos) && Passes(t, h, pos)
    requires Steps(|t|, h, next) == Steps(|t|, h, pos) + 1
    ensures Way(t, h, next)
  {
    forall q | Slot(|t|, q) && Steps(|t|, h, q) < Steps(|t|, h, next)
      ensures Passes(t, h, q)
    {
      assert q == pos || Steps(|t|, h, q) < Steps(|t|, h, pos);
    }
  }

  /** Passing over an occupant keeps the loop's invariant. */
  lemma PassOver(hf: Word -> Word, orig: Table, cur: Table, d: Entry, pos: nat, dist: int, n: nat, start: nat)
    requires Walking(hf, orig, cur, d, pos, dist, n, start) && n < MAX_SWAPS && n + 1 <= |cur| - 2
    requires cur[pos].hash != 0 && !(Live(cur, pos) && cur[pos].key == d.key)
    requires RingDist(|cur|, Home(cur[pos].hash), pos) >= dist
    ensures Walking(hf, orig, cur, d, NextSlot(|cur|, pos), dist + 1, n + 1, start)
  {
    var next := NextSlot(|cur|, pos);
    PosAdvance(|cur|, d.hash, pos);
    PosAdvance(|cur|, start, pos);
    WayFurther(cur, d.hash, pos, next);
    assert Ahead(cur, d, next, dist + 1) by {
      forall p | Live(cur, p) && cur[p].key == d.key
        ensures dist + 1 == Steps(|cur|, d.hash, next) && Steps(|cur|, d.hash, p) >= Steps(|cur|, d.hash, next)
      {
        assert p != pos;
      }
    }
  }

  /** Putting the data in hand into an occupant's slot and taking the occupant along
      keeps the map that will result. */
  lemma SwapMap(hf: Word -> Word, orig: Table, cur: Table, d: Entry, pos: nat, dist: int, n: nat, start: nat)
    requires Walking(hf, orig, cur, d, pos, dist, n, start)
    requires Live(cur, pos) && cur[pos].key != d.key && RingDist(|cur|, cur[pos].hash, pos) < dist
    ensures d.key !in Contents(cur) && TableOk(hf, cur[pos := d])
    ensures Contents(cur[pos := d])[cur[pos].key := cur[pos].value] == Contents(cur)[d.key := d.value]
    ensures cur[pos].key !in Contents(cur[pos := d])
  {
    NotInTable(hf, cur, d, pos, dist);
    WriteSwap(cur, d, pos);
    WriteProbeOk(hf, cur, d, pos);
  }

  lemma LiveHash(hf: Word -> Word, t: Table, p: int)
    requires TableOk(hf, t) && Live(t, p)
    ensures t[p].hash == hf(t[p].key) && Slot(|t|, t[p].hash)
  {
  }

  /** The same step keeps the loop's invariant. */
  lemma SwapOver(hf: Word -> Word, orig: Table, cur: Table, d: Entry, pos: nat, dist: int, n: nat, start: nat)
    requires Walking(hf, orig, cur, d, pos, dist, n, start) && n < MAX_SWAPS && n + 1 <= |cur| - 2
    requires Live(cur, pos) && cur[pos].key != d.key && RingDist(|cur|, cur[pos].hash, pos) < dist
    ensures Walking(hf, orig, cur[pos := d], cur[pos], NextSlot(|cur|, pos),
                    RingDist(|cur|, cur[pos].hash, pos) + 1, n + 1, start)
  {
    hide TableOk, Way, Contents;
    var next := NextSlot(|cur|, pos);
    var e, t := cur[pos], cur[pos := d];
    SwapMap(hf, orig, cur, d, pos, dist, n, start);
    HasKeyContents(t, e.key);
    LiveHash(hf, cur, pos);
    SwapWay(hf, cur, d, pos);
    PosAdvance(|cur|, start, pos);
    assert forall q :: Slot(|t|, q) && Steps(|t|, start, q) >= n + 1 ==> t[q] == cur[q];
  }

  lemma SwapWay(hf: Word -> Word, cur: Table, d: Entry, pos: nat)
    requires TableOk(hf, cur) && Live(cur, pos) && RingDist(|cur|, cur[pos].hash, pos) < |cur| - 2
    requires !Empty(d.hash) && Slot(|cur|, d.hash)
    requires RingDist(|cur|, cur[pos].hash, pos) < RingDist(|cur|, d.hash, pos)
    ensures var next := NextSlot(|cur|, pos);
            && Slot(|cur|, next) && Way(cur[pos := d], cur[pos].hash, next)
            && Steps(|cur|, cur[pos].hash, next) <= RingDist(|cur|, cur[pos].hash, pos) + 1
                 <= RingDist(|cur|, cur[pos].hash, next)
  {
    var e, t := cur[pos], cur[pos := d];
    var next := NextSlot(|cur|, pos);
    assert Way(cur, e.hash, pos);
    PosAdvance(|cur|, e.hash, pos);
    assert Way(t, e.hash, pos) by {
      forall q | Slot(|t|, q) && Steps(|t|, e.hash, q) < Steps(|t|, e.hash, pos) ensures Passes(t, e.hash, q) {
        assert Passes(cur, e.hash, q);
      }
    }
    WayFurther(t, e.hash, pos, next);
  }

  /** What a finished walk has done. */
  ghost predicate Inserted(hf: Word -> Word, cur: Table, d: Entry, o: Outcome) {
    o.Placed? ==>
      && |o.table| == |cur| && TableOk(hf, o.table)
      && Contents(o.table) == Contents(cur)[d.key := d.value]
      && (o.added <==> d.key !in Contents(cur))
  }

  /** The last write of a walk. */
  lemma PlaceOk(hf: Word -> Word, orig: Table, cur: Table, d: Entry, pos: nat, dist: int, n: nat, start: nat)
    requires Walking(hf, orig, cur, d, pos, dist, n, start)
    requires !Live(cur, pos) && (cur[pos].hash == 0 || RingDist(|cur|, Home(cur[pos].hash), pos) < dist)
    ensures Inserted(hf, cur, d, Placed(cur[pos := d], true))
  {
    NotInTable(hf, cur, d, pos, dist);
    WriteNew(cur, d, pos);
    WriteProbeOk(hf, cur, d, pos);
  }

  lemma OverwriteOk(hf: Word -> Word, orig: Table, cur: Table, d: Entry, pos: nat, dist: int, n: nat, start: nat)
    requires Walking(hf, orig, cur, d, pos, dist, n, start)
    requires Live(cur, pos) && cur[pos].key == d.key
    ensures Inserted(hf, cur, d, Placed(cur[pos := d], false))
  {
    WriteOver(cur, d, pos);
    WriteProbeOk(hf, cur, d, pos);
    ContentsAt(cur, pos);
  }

  /** Both modes agree: the same table, or no place found in either. */
  ghost predicate Agree(a: Outcome, b: Outcome) {
    a == b || (a.TooManySwaps? && b.TooManySwaps?)
  }

  /** What the theorem below says of one walk. */
  ghost predicate WalkGood(hf: Word -> Word, orig: Table, cur: Table, d: Entry, pos: nat, dist: int, n: nat)
    requires |cur| == |orig| && Slot(|orig|, pos) && n <= MAX_SWAPS
  {
    && Inserted(hf, cur, d, Walk(orig, cur, true, d, pos, dist, n))
    && Agree(Walk(orig, cur, true, d, pos, dist, n), Walk(orig, cur, false, d, pos, dist, n))
  }

  /** The round that ends the walk. */
  lemma LastRound(hf: Word -> Word, orig: Table, cur: Table, d: Entry, pos: nat, dist: int, n: nat, start: nat)
    requires Walking(hf, orig, cur, d, pos, dist, n, start)
    requires n < MAX_SWAPS ==>
               || (Live(cur, pos) && cur[pos].key == d.key) || cur[pos].hash == 0
               || (Deleted(cur[pos].hash) && RingDist(|cur|, Home(cur[pos].hash), pos) < dist)
    ensures WalkGood(hf, orig, cur, d, pos, dist, n)
  {
    assert cur[pos] == orig[pos];
    if n < MAX_SWAPS {
      if Live(cur, pos) && cur[pos].key == d.key {
        OverwriteOk(hf, orig, cur, d, pos, dist, n, start);
      } else {
        PlaceOk(hf, orig, cur, d, pos, dist, n, start);
      }
    }
  }

  lemma PassRound(hf: Word -> Word, orig: Table, cur: Table, d: Entry, pos: nat, dist: int, n: nat)
    requires |cur| == |orig| && Slot(|orig|, pos) && n < MAX_SWAPS && cur[pos] == orig[pos]
    requires cur[pos].hash != 0 && !(Live(cur, pos) && cur[pos].key == d.key)
    requires RingDist(|cur|, Home(cur[pos].hash), pos) >= dist
    requires Slot(|cur|, NextSlot(|cur|, pos)) && WalkGood(hf, orig, cur, d, NextSlot(|cur|, pos), dist + 1, n + 1)
    ensures WalkGood(hf, orig, cur, d, pos, dist, n)
  {
  }

  lemma SwapEquation(orig: Table, cur: Table, rebuild: bool, d: Entry, pos: nat, dist: int, n: nat)
    requires |cur| == |orig| && Slot(|orig|, pos) && n < MAX_SWAPS && cur[pos] == orig[pos]
    requires Live(cur, pos) && cur[pos].key != d.key && RingDist(|cur|, cur[pos].hash, pos) < dist
    requires Slot(|cur|, NextSlot(|cur|, pos))
    ensures Walk(orig, cur, rebuild, d, pos, dist, n) ==
              Walk(orig, cur[pos := d], rebuild, cur[pos], NextSlot(|cur|, pos),
                   RingDist(|cur|, cur[pos].hash, pos) + 1, n + 1)
  {
  }

  lemma SwapInserted(hf: Word -> Word, cur: Table, d: Entry, pos: nat, o: Outcome)
    requires Slot(|cur|, pos) && d.key !in Contents(cur) && cur[pos].key !in Contents(cur[pos := d])
    requires Contents(cur[pos := d])[cur[pos].key := cur[pos].value] == Contents(cur)[d.key := d.value]
    requires Inserted(hf, cur[pos := d], cur[pos], o)
    ensures Inserted(hf, cur, d, o)
  {
  }

  lemma SwapRound(hf: Word -> Word, orig: Table, cur: Table, d: Entry, pos: nat, dist: int, n: nat, start: nat)
    requires Walking(hf, orig, cur, d, pos, dist, n, start) && n < MAX_SWAPS
    requires Live(cur, pos) && cur[pos].key != d.key && RingDist(|cur|, cur[pos].hash, pos) < dist
    requires Slot(|cur|, NextSlot(|cur|, pos))
    requires WalkGood(hf, orig, cur[pos := d], cur[pos], NextSlot(|cur|, pos), RingDist(|cur|, cur[pos].hash, pos) + 1,
                      n + 1)
    ensures WalkGood(hf, orig, cur, d, pos, dist, n)
  {
    SwapMap(hf, orig, cur, d, pos, dist, n, start);
    SwapEquation(orig, cur, true, d, pos, dist, n);
    SwapEquation(orig, cur, false, d, pos, dist, n);
    SwapInserted(hf, cur, d, pos, Walk(orig, cur, true, d, pos, dist, n));
  }

  /** The last round ends without a place, in both modes. */
  lemma LastSwap(hf: Word -> Word, orig: Table, cur: Table, d: Entry, pos: nat, dist: int, n: nat)
    requires |cur| == |orig| && Slot(|orig|, pos) && n + 1 == MAX_SWAPS && cur[pos] == orig[pos]
    requires !Stops(cur, d, pos, dist)
    requires Slot(|cur|, NextSlot(|cur|, pos))
    ensures WalkGood(hf, orig, cur, d, pos, dist, n)
  {
  }

  /** Within one lap, reading the table as it was or as it has become makes no
      difference, and a finished walk is a map update. */
  lemma {:induction false} WalkOk(hf: Word -> Word, orig: Table, cur: Table, d: Entry, pos: nat, dist: int, n: nat,
                                  start: nat)
    requires Walking(hf, orig, cur, d, pos, dist, n, start) && InLap(orig, d, pos, dist, n)
    ensures WalkGood(hf, orig, cur, d, pos, dist, n)
    decreases MAX_SWAPS - n
  {
    hide Walk, WalkGood, TableOk, Way, Contents, Ahead;
    var e, next := cur[pos], NextSlot(|cur|, pos);
    var existing := RingDist(|cur|, Home(e.hash), pos);
    assert e == orig[pos] && Slot(|cur|, next);
    if n == MAX_SWAPS || (Live(cur, pos) && e.key == d.key) || e.hash == 0 {
      LastRound(hf, orig, cur, d, pos, dist, n, start);
    } else if n + 1 == MAX_SWAPS && !Stops(cur, d, pos, dist) {
      LastSwap(hf, orig, cur, d, pos, dist, n);
    } else if existing >= dist {
      PassOver(hf, orig, cur, d, pos, dist, n, start);
      WalkOk(hf, orig, cur, d, next, dist + 1, n + 1, start);
      PassRound(hf, orig, cur, d, pos, dist, n);
    } else if Deleted(e.hash) {
      LastRound(hf, orig, cur, d, pos, dist, n, start);
    } else {
      SwapOver(hf, orig, cur, d, pos, dist, n, start);
      WalkOk(hf, orig, cur[pos := d], e, next, existing + 1, n + 1, start);
      SwapRound(hf, orig, cur, d, pos, dist, n, start);
    }
  }

  lemma InsertStart(hf: Word -> Word, t: Table, key: Word, value: Word)
    requires TableOk(hf, t) && Slot(|t|, hf(key))
    ensures var h := hf(key); Walking(hf, t, t, Entry(key, value, h), h, 0, 0, h)
  {
  }

  /** Within one lap, a successful insert is exactly a map update and keeps the table's
      invariant, and both modes of insert_helper do the same. */
  lemma InsertOk(hf: Word -> Word, t: Table, key: Word, value: Word)
    requires TableOk(hf, t) && Slot(|t|, hf(key)) && OneLap(hf, t, key, value)
    ensures Agree(Insert(hf, t, true, key, value), Insert(hf, t, false, key, value))
    ensures forall rebuild :: var o := Insert(hf, t, rebuild, key, value);
              o.Placed? ==>
                && |o.table| == |t| && TableOk(hf, o.table)
                && Contents(o.table) == Contents(t)[key := value]
                && (o.added <==> key !in Contents(t))
  {
    var h := hf(key);
    InsertStart(hf, t, key, value);
    WalkOk(hf, t, t, Entry(key, value, h), h, 0, 0, h);
  }

  // ------------------------------------------------------------ unused slots

  ghost function UnusedSlots(t: Table): set<int> {
    set q | 0 <= q < |t| && Slot(|t|, q) && t[q].hash == 0
  }

  ghost predicate NoTombstones(t: Table) {
    forall q :: 0 <= q < |t| ==> !Deleted(t[q].hash)
  }

  /** A walk takes at most one unused slot away, none if the key was there, and puts no
      tombstone anywhere. */
  lemma {:induction false} WalkUses(orig: Table, cur: Table, d: Entry, pos: nat, dist: int, n: nat) returns (w: int)
    requires |cur| == |orig| && Slot(|orig|, pos) && n <= MAX_SWAPS && !Empty(d.hash)
    ensures var o := Walk(orig, cur, true, d, pos, dist, n); o.Placed? && !o.added ==> w == -1
    ensures var t := Walk(orig, cur, true, d, pos, dist, n).table;
            && |t| == |cur|
            && (forall q :: 0 <= q < |t| && q != w && cur[q].hash == 0 ==> t[q].hash == 0)
            && (forall q :: 0 <= q < |t| && Deleted(t[q].hash) ==> Deleted(cur[q].hash))
    decreases MAX_SWAPS - n
  {
    w := pos;
    if n < MAX_SWAPS {
      var e := cur[pos];
      if e.hash != 0 && (Empty(e.hash) || e.key != d.key) {
        var existing := RingDist(|orig|, Home(e.hash), pos);
        if existing >= dist {
          w := WalkUses(orig, cur, d, NextSlot(|orig|, pos), dist + 1, n + 1);
        } else if !Deleted(e.hash) {
          w := WalkUses(orig, cur[pos := d], e, NextSlot(|orig|, pos), existing + 1, n + 1);
        }
      } else if e.hash != 0 {
        w := -1;
      }
    }
  }

  /** An insert uses up an unused slot at most, and only for a new key. */
  lemma InsertUses(hf: Word -> Word, t: Table, rebuild: bool, key: Word, value: Word)
    requires TableOk(hf, t) && Slot(|t|, hf(key)) && OneLap(hf, t, key, value)
    requires Insert(hf, t, rebuild, key, value).Placed?
    ensures var o := Insert(hf, t, rebuild, key, value);
            && |UnusedSlots(o.table)| >= |UnusedSlots(t)| - (if o.added then 1 else 0)
            && (NoTombstones(t) ==> NoTombstones(o.table))
  {
    InsertOk(hf, t, key, value);
    var h := hf(key);
    var w := WalkUses(t, t, Entry(key, value, h), h, 0, 0);
    var u := Insert(hf, t, rebuild, key, value).table;
    SubsetSize(UnusedSlots(t) - {w}, UnusedSlots(u));
  }

  lemma SubsetSize<T>(a: set<T>, b: set<T>)
    requires a <= b
    ensures |a| <= |b|
  {
    if a != {} {
      var x :| x in a;
      SubsetSize(a - {x}, b - {x});
    }
  }

  lemma FullTable(t: Table)
    requires Unique(t) && |t| >= 2 && forall p :: Slot(|t|, p) ==> Live(t, p)
    ensures |Contents(t)| >= |t| - 1
  {
    FullKeys(t, |t|);
    assert LiveKeys(t) == Contents(t).Keys;
    SubsetSize(KeysBelow(t, |t|), LiveKeys(t));
    assert |Contents(t).Keys| == |Contents(t)|;
  }

  /** Without tombstones, a table with fewer entries than slots has an unused one. */
  lemma RoomLeft(t: Table)
    requires Unique(t) && NoTombstones(t) && |t| >= 2 && |Contents(t)| < |t| - 1
    ensures HasUnused(t)
  {
    if !HasUnused(t) { FullTable(t); }
  }

  ghost function KeysBelow(t: Table, n: int): set<Word> {
    set p | 0 <= p < |t| && p < n && Live(t, p) :: t[p].key
  }

  lemma {:induction false} FullKeys(t: Table, n: int)
    requires Unique(t) && 1 <= n <= |t| && forall p :: 1 <= p < n ==> Live(t, p)
    ensures |KeysBelow(t, n)| == n - 1
  {
    if n == 1 {
      assert KeysBelow(t, 1) == {};
    } else {
      FullKeys(t, n - 1);
      assert KeysBelow(t, n) == KeysBelow(t, n - 1) + {t[n - 1].key};
      assert t[n - 1].key !in KeysBelow(t, n - 1);
    }
  }

  // ------------------------------------------------------------ removal

  /** hm_rp_remove's write: the tombstone bit is set, key and value are cleared. */
  function Delete(t: Table, p: nat): Table
    requires Live(t, p)
  {
    t[p := Entry(0, 0, t[p].hash + TWO_63)]
  }

  /** A tombstone keeps its probe distance, so no other entry's way is disturbed. */
  lemma DeleteOk(hf: Word -> Word, t: Table, p: nat)
    requires TableOk(hf, t) && Live(t, p)
    ensures TableOk(hf, Delete(t, p)) && Contents(Delete(t, p)) == Contents(t) - {t[p].key}
    ensures UnusedSlots(Delete(t, p)) == UnusedSlots(t)
  {
    hide Contents, LiveKeys, Unique, PowerOfTwo;
    var u := Delete(t, p);
    DeleteContents(t, p);
    assert forall q :: Live(u, q) <==> Live(t, q) && q != p;
    forall q | Live(u, q)
      ensures Way(u, Home(u[q].hash), q)
    {
      assert Way(t, Home(t[q].hash), q);
      forall r | Slot(|u|, r) && Steps(|u|, Home(u[q].hash), r) < Steps(|u|, Home(u[q].hash), q)
        ensures Passes(u, Home(u[q].hash), r)
      {
        assert Passes(t, Home(t[q].hash), r);
      }
    }
  }

  lemma DeleteContents(t: Table, p: nat)
    requires Unique(t) && Live(t, p)
    ensures Unique(Delete(t, p)) && Contents(Delete(t, p)) == Contents(t) - {t[p].key}
  {
    var u := Delete(t, p);
    assert forall q :: Live(u, q) <==> Live(t, q) && q != p;
    assert Unique(u);
    hide Contents, LiveKeys;
    forall k
      ensures Lookup(Contents(u), k) == Lookup(Contents(t) - {t[p].key}, k)
    {
      HasKeyContents(t, k);
      HasKeyContents(u, k);
      if k in Contents(u) {
        var q := SlotOf(u, k);
        ContentsAt(u, q);
        ContentsAt(t, q);
      }
    }
    SameMap(Contents(u), Contents(t) - {t[p].key});
  }

  /** The table without the key. */
  ghost function Removed(t: Table, key: Word): (u: Table)
    ensures |u| == |t|
  {
    if HasKey(t, key) then
      var p: nat :| Live(t, p) && t[p].key == key;
      Delete(t, p)
    else t
  }

  lemma RemovedOk(hf: Word -> Word, t: Table, key: Word)
    requires TableOk(hf, t)
    ensures TableOk(hf, Removed(t, key)) && Contents(Removed(t, key)) == Contents(t) - {key}
    ensures UnusedSlots(Removed(t, key)) == UnusedSlots(t)
  {
    hide Contents, TableOk, UnusedSlots;
    HasKeyContents(t, key);
    if HasKey(t, key) {
      var p: nat :| Live(t, p) && t[p].key == key && Removed(t, key) == Delete(t, p);
      DeleteOk(hf, t, p);
    } else {
      assert Contents(t) - {key} == Contents(t);
    }
  }

  /** With one slot for the key there is one way to remove it. */
  lemma RemovedIs(t: Table, key: Word, p: nat)
    requires Unique(t) && Live(t, p) && t[p].key == key
    ensures Removed(t, key) == Delete(t, p)
  {
  }

  // ------------------------------------------------------------ lookup

  /** index_lookup's loop condition after it has looked at slot `q`: the probe
      distance is taken at the next slot, and `- 1` wraps at 64 bits. */
  predicate Continues(t: Table, q: nat, dist: Word)
    requires Slot(|t|, q) && PowerOfTwo(|t|)
  {
    && t[q].hash != 0
    && dist <= (ProbeDistance(|t|, t[q].hash, NextSlot(|t|, q)) + TWO_64 - 1) % TWO_64
  }

  /** A slot never used, or one whose next slot is not the home of what it holds. */
  predicate StopsAt(t: Table, q: int) {
    Slot(|t|, q) && (t[q].hash == 0 || RingDist(|t|, Home(t[q].hash), NextSlot(|t|, q)) != 0)
  }

  /** The loop stops somewhere for a key that is absent. */
  ghost predicate LookupStops(t: Table) {
    exists q :: StopsAt(t, q)
  }

  /** The same condition without machine arithmetic. */
  predicate GoesOn(t: Table, q: nat, dist: Word)
    requires Slot(|t|, q)
  {
    var d := RingDist(|t|, Home(t[q].hash), NextSlot(|t|, q));
    t[q].hash != 0 && (d == 0 || dist <= d - 1)
  }

  lemma ContinuesIs(hf: Word -> Word, t: Table, q: nat, dist: Word)
    requires SlotsOk(hf, t) && Slot(|t|, q)
    ensures Continues(t, q, dist) <==> GoesOn(t, q, dist)
  {
    hide PowerOfTwo, LowBits;
    if t[q].hash != 0 {
      ProbeDistanceIs(|t|, t[q].hash, NextSlot(|t|, q));
    }
  }

  /** The slot that round `n` of a loop from slot `h` looks at. */
  function SlotAfter(cap: nat, h: nat, n: nat): nat {
    if n == 0 then h else NextSlot(cap, SlotAfter(cap, h, n - 1))
  }

  lemma {:induction false} SlotAfterSteps(cap: nat, h: nat, n: nat)
    requires Slot(cap, h)
    ensures Slot(cap, SlotAfter(cap, h, n))
    ensures n < cap - 1 ==> Steps(cap, h, SlotAfter(cap, h, n)) == n
    ensures n == cap - 1 ==> SlotAfter(cap, h, n) == h
  {
    if n > 0 { SlotAfterSteps(cap, h, n - 1); }
  }

  /** After a whole lap the walk repeats itself. */
  lemma {:induction false} NextLap(cap: nat, h: nat, n: nat)
    requires Slot(cap, h)
    ensures SlotAfter(cap, h, cap - 1 + n) == SlotAfter(cap, h, n)
  {
    if n == 0 { SlotAfterSteps(cap, h, cap - 1); } else { NextLap(cap, h, n - 1); }
  }

  /** Round `n` of the loop of index_lookup for `key` is the last one: the key is there, or
      the condition fails. The counter has 64 bits. */
  predicate EndsAt(hf: Word -> Word, t: Table, key: Word, n: nat)
    requires PowerOfTwo(|t|) && Slot(|t|, hf(key))
  {
    var q := SlotAfter(|t|, hf(key), n);
    Slot(|t|, q) && ((t[q].hash == hf(key) && t[q].key == key) || !Continues(t, q, n % TWO_64))
  }

  lemma PresentEnds(hf: Word -> Word, t: Table, key: Word)
    requires TableOk(hf, t) && Slot(|t|, hf(key)) && key in Contents(t)
    ensures exists n: nat :: EndsAt(hf, t, key, n)
  {
    var p := SlotOf(t, key);
    hide Contents, LiveKeys, ProbeOk, Unique;
    ReachSlot(|t|, hf(key), p);
    assert EndsAt(hf, t, key, Steps(|t|, hf(key), p));
  }

  lemma StopEnds(hf: Word -> Word, t: Table, key: Word, q: nat)
    requires SlotsOk(hf, t) && Slot(|t|, hf(key)) && StopsAt(t, q)
    ensures exists n: nat :: EndsAt(hf, t, key, n)
  {
    hide PowerOfTwo, Continues;
    var h := hf(key);
    var n := |t| - 1 + Steps(|t|, h, q);
    ReachSlot(|t|, h, q);
    NextLap(|t|, h, Steps(|t|, h, q));
    ContinuesIs(hf, t, q, n);
    assert EndsAt(hf, t, key, n);
  }

  lemma EndStops(hf: Word -> Word, t: Table, key: Word, n: nat)
    requires SlotsOk(hf, t) && Slot(|t|, hf(key)) && !Empty(hf(key)) && EndsAt(hf, t, key, n)
    ensures HasKey(t, key) || LookupStops(t)
  {
    hide PowerOfTwo, Continues;
    var q := SlotAfter(|t|, hf(key), n);
    ContinuesIs(hf, t, q, n % TWO_64);
    if t[q].hash == hf(key) && t[q].key == key {
      assert Live(t, q);
    } else {
      assert StopsAt(t, q);
    }
  }

  /** The loop that index_lookup starts at the key's home with the counter at 0 ends if and
      only if the key is in the table or some slot stops it. */
  lemma LookupStopsExactly(hf: Word -> Word, t: Table, key: Word)
    requires TableOk(hf, t) && Slot(|t|, hf(key)) && !Empty(hf(key))
    ensures (exists n: nat :: EndsAt(hf, t, key, n)) <==> key in Contents(t) || LookupStops(t)
  {
    hide Contents, ProbeOk, Unique, EndsAt, StopsAt, PowerOfTwo;
    HasKeyContents(t, key);
    TableSlots(hf, t);
    if n: nat :| EndsAt(hf, t, key, n) { EndStops(hf, t, key, n); }
    if key in Contents(t) {
      PresentEnds(hf, t, key);
    } else if LookupStops(t) {
      var q: nat := StopSlot(t);
      StopEnds(hf, t, key, q);
    }
  }

  lemma StopSlot(t: Table) returns (q: nat)
    requires LookupStops(t)
    ensures StopsAt(t, q)
  {
    q :| StopsAt(t, q);
  }

  lemma ReachSlot(cap: nat, h: nat, q: nat)
    requires Slot(cap, h) && Slot(cap, q)
    ensures 0 <= Steps(cap, h, q) < cap - 1 && SlotAfter(cap, h, Steps(cap, h, q)) == q
  {
    SlotAfterSteps(cap, h, Steps(cap, h, q));
  }

  /** On the way to an entry the loop does not stop. */
  lemma WayContinues(t: Table, h: nat, q: nat, dist: Word)
    requires Slot(|t|, h) && Passes(t, h, q) && dist == Steps(|t|, h, q) && Slot(|t|, Home(t[q].hash))
    ensures GoesOn(t, q, dist)
  {
  }

  /** What the lookup loop keeps after `n` rounds: an entry with the key, if there is one, is
      still ahead at slot `p`; otherwise slot `q`, if any slot does, will stop the loop. */
  ghost predicate Seeking(t: Table, key: Word, h: nat, pos: nat, n: nat, p: int, q: int) {
    && Slot(|t|, pos)
    && (if key in Contents(t) then
          Live(t, p) && t[p].key == key && Steps(|t|, h, pos) == n <= Steps(|t|, h, p)
        else
          LookupStops(t) ==>
            StopsAt(t, q) && n <= 2 * |t| - 2 && (n >= |t| ==> n + Steps(|t|, pos, q) <= 2 * |t| - 2))
  }

  lemma SeekStart(hf: Word -> Word, t: Table, key: Word, h: nat) returns (p: int, q: int)
    requires TableOk(hf, t) && hf(key) == h && Slot(|t|, h)
    ensures Seeking(t, key, h, h, 0, p, q)
  {
    p, q := 0, 0;
    if key in Contents(t) {
      p := SlotOf(t, key);
    } else if LookupStops(t) {
      q :| StopsAt(t, q);
    }
  }

  lemma SeekSlot(hf: Word -> Word, t: Table, key: Word, h: nat, pos: nat, n: nat, p: int, q: int)
    requires TableOk(hf, t) && Seeking(t, key, h, pos, n, p, q)
    ensures SlotsOk(hf, t) && CapOk(|t|) && Slot(|t|, pos)
  {
  }

  lemma SeekFound(hf: Word -> Word, t: Table, key: Word, h: nat, pos: nat)
    requires TableOk(hf, t) && Slot(|t|, pos) && t[pos].hash == h && t[pos].key == key && !Empty(h)
    ensures Live(t, pos) && key in Contents(t) && t[pos].value == Contents(t)[key]
  {
    ContentsAt(t, pos);
  }

  lemma SeekStopped(t: Table, pos: nat, dist: Word)
    requires Slot(|t|, pos) && !GoesOn(t, pos, dist)
    ensures LookupStops(t)
  {
    assert StopsAt(t, pos);
  }

  /** Two laps are enough. */
  lemma SeekLost(hf: Word -> Word, t: Table, key: Word, h: nat, pos: nat, n: nat, p: int, q: int)
    requires TableOk(hf, t) && Slot(|t|, h) && Seeking(t, key, h, pos, n, p, q) && n >= 2 * |t|
    ensures key !in Contents(t) && !LookupStops(t)
  {
  }

  lemma SeekPresent(hf: Word -> Word, t: Table, key: Word, h: nat, pos: nat, n: nat, p: int, q: int)
    requires TableOk(hf, t) && hf(key) == h && Slot(|t|, h) && key in Contents(t) && Seeking(t, key, h, pos, n, p, q)
    requires !(t[pos].hash == h && t[pos].key == key)
    ensures n < TWO_64 && GoesOn(t, pos, n) && Seeking(t, key, h, NextSlot(|t|, pos), n + 1, p, q)
  {
    assert p != pos && Way(t, h, p);
    assert Passes(t, h, pos);
    WayContinues(t, h, pos, n);
    PosAdvance(|t|, h, pos);
  }

  lemma SeekAbsent(hf: Word -> Word, t: Table, key: Word, h: nat, pos: nat, n: nat, p: int, q: int)
    requires SlotsOk(hf, t) && key !in Contents(t) && Seeking(t, key, h, pos, n, p, q) && GoesOn(t, pos, n % TWO_64)
    ensures Seeking(t, key, h, NextSlot(|t|, pos), n + 1, p, q)
  {
    hide Contents;
    if LookupStops(t) {
      assert n < TWO_64;
      if pos == q { assert t[q].hash != 0 && n < |t|; }
      StepOn(|t|, pos, q);
    }
  }

  lemma StepOn(cap: nat, pos: nat, q: int)
    requires Slot(cap, pos) && Slot(cap, q) && cap >= 4
    ensures Slot(cap, NextSlot(cap, pos)) && Steps(cap, NextSlot(cap, pos), q) <= cap - 2
    ensures pos != q ==> Steps(cap, NextSlot(cap, pos), q) == Steps(cap, pos, q) - 1
  {
  }

  /** A well-formed table with its number of live slots. */
  ghost predicate Counts(hf: Word -> Word, t: Table, count: nat) {
    TableOk(hf, t) && count == |Contents(t)|
  }

  lemma MapSize(m: map<Word, Word>, k: Word, v: Word)
    ensures |m[k := v]| == |m| + if k in m then 0 else 1
    ensures |m - {k}| == |m| - if k in m then 1 else 0
  {
    assert m[k := v].Keys == m.Keys + {k};
    assert (m - {k}).Keys == m.Keys - {k};
    assert |m.Keys| == |m| && |m[k := v].Keys| == |m[k := v]| && |(m - {k}).Keys| == |m - {k}|;
  }

  /** A deferred walk that gives up has written nothing. */
  lemma {:induction false} GivesUp(orig: Table, cur: Table, d: Entry, pos: nat, dist: int, n: nat)
    requires |cur| == |orig| && Slot(|orig|, pos) && n <= MAX_SWAPS
    requires Walk(orig, cur, false, d, pos, dist, n).TooManySwaps?
    ensures Walk(orig, cur, false, d, pos, dist, n).table == orig
    decreases MAX_SWAPS - n
  {
    if n < MAX_SWAPS {
      var e := orig[pos];
      var existing := RingDist(|orig|, Home(e.hash), pos);
      if existing >= dist {
        GivesUp(orig, cur, d, NextSlot(|orig|, pos), dist + 1, n + 1);
      } else {
        GivesUp(orig, cur[pos := d], e, NextSlot(|orig|, pos), existing + 1, n + 1);
      }
    }
  }

  lemma DeferredGivesUp(hf: Word -> Word, t: Table, key: Word, value: Word)
    requires Slot(|t|, hf(key))
    ensures var o := Insert(hf, t, false, key, value); o.TooManySwaps? ==> o.table == t
  {
    if Insert(hf, t, false, key, value).TooManySwaps? { GivesUp(t, t, Entry(key, value, hf(key)), hf(key), 0, 0); }
  }

  lemma TableSlots(hf: Word -> Word, t: Table)
    requires TableOk(hf, t)
    ensures SlotsOk(hf, t)
  {
  }

  /** insert_helper within one lap: what success and failure leave. */
  lemma InsertCounts(hf: Word -> Word, t: Table, rebuild: bool, key: Word, value: Word, count: nat)
    requires Counts(hf, t, count) && Slot(|t|, hf(key)) && OneLap(hf, t, key, value)
    ensures var o := Insert(hf, t, rebuild, key, value);
            && (o.Placed? ==>
                  && Counts(hf, o.table, count + if o.added then 1 else 0) && |o.table| == |t|
                  && Contents(o.table) == Contents(t)[key := value]
                  && (NoTombstones(t) ==> NoTombstones(o.table)))
            && (o.TooManySwaps? && !rebuild ==> o.table == t)
  {
    InsertOk(hf, t, key, value);
    MapSize(Contents(t), key, value);
    if Insert(hf, t, rebuild, key, value).Placed? {
      InsertUses(hf, t, rebuild, key, value);
    } else if !rebuild {
      GivesUp(t, t, Entry(key, value, hf(key)), hf(key), 0, 0);
    }
  }

  // ------------------------------------------------------------ iteration

  /** The slots from `i` on that hold an entry, in order. */
  function LiveSlots(t: Table, i: nat): (r: seq<nat>)
    requires i <= |t|
    ensures forall p :: p in r ==> i <= p < |t| && !Empty(t[p].hash)
    decreases |t| - i
  {
    if i == |t| then []
    else if Empty(t[i].hash) then LiveSlots(t, i + 1)
    else [i] + LiveSlots(t, i + 1)
  }

  predicate Ascending(v: seq<nat>) {
    forall a, b :: 0 <= a < b < |v| ==> v[a] < v[b]
  }

  lemma {:induction false} LiveSlotsAscend(t: Table, i: nat)
    requires i <= |t|
    ensures Ascending(LiveSlots(t, i))
    decreases |t| - i
  {
    if i < |t| {
      LiveSlotsAscend(t, i + 1);
      var v := LiveSlots(t, i + 1);
      forall a | 0 <= a < |v| ensures i < v[a] { assert v[a] in v; }
    }
  }

  /** No entry is left out. */
  lemma {:induction false} LiveSlotsAll(t: Table, i: nat, p: nat)
    requires i <= p < |t| && !Empty(t[p].hash)
    ensures p in LiveSlots(t, i)
    decreases |t| - i
  {
    if i < p { LiveSlotsAll(t, i + 1, p); }
  }

  /** The slots in order hold each pair of the map exactly once. */
  lemma ForeachMap(hf: Word -> Word, t: Table)
    requires TableOk(hf, t)
    ensures var v := LiveSlots(t, 0);
            && Ascending(v)
            && (forall p, q :: p in v && q in v && t[p].key == t[q].key ==> p == q)
            && (forall p :: p in v ==> t[p].key in Contents(t) && Contents(t)[t[p].key] == t[p].value)
            && (forall k :: k in Contents(t) ==> exists p :: 0 <= p < |t| && p in v && t[p].key == k)
  {
    var v := LiveSlots(t, 0);
    LiveSlotsAscend(t, 0);
    forall p | p in v ensures t[p].key in Contents(t) && Contents(t)[t[p].key] == t[p].value { ContentsAt(t, p); }
    forall k | k in Contents(t)
      ensures exists p :: 0 <= p < |t| && p in v && t[p].key == k
    {
      var p := SlotOf(t, k);
      LiveSlotsAll(t, 0, p);
    }
  }
}
