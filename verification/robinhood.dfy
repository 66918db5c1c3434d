/** The robinhood engine's hash map: struct hashmap_rp and the hm_rp_* functions.
    The load factor is 1/2. */
module RobinHood {
  import opened Keys
  import opened RobinHoodRing
  import opened RobinHoodTable
  import opened RobinHoodCopy
  import opened RobinHoodExact

  const INIT_ENTRIES_NUM: nat := 16

  /** pmemobj_publish: the queued writes are made in order. */
  function Published(t: Table, actv: seq<(nat, Entry)>): (u: Table)
    requires forall i :: 0 <= i < |actv| ==> actv[i].0 < |t|
    ensures |u| == |t|
  {
    if actv == [] then t else Published(t, actv[..|actv| - 1])[actv[|actv| - 1].0 := actv[|actv| - 1].1]
  }

  method Publish(entries: array<Entry>, actv: seq<(nat, Entry)>)
    requires forall i :: 0 <= i < |actv| ==> actv[i].0 < entries.Length
    modifies entries
    ensures entries[..] == Published(old(entries[..]), actv)
  {
    for i := 0 to |actv|
      invariant entries[..] == Published(old(entries[..]), actv[..i])
    {
      assert actv[..i + 1][..i] == actv[..i];
      entries[actv[i].0] := actv[i].1;
    }
    assert actv[..|actv|] == actv;
  }

  class Hashmap {
    const mix: Word -> Word
    var count: nat
    var capacity: nat
    var resizeThreshold: nat
    var entries: array<Entry>

    ghost predicate Shaped()
      reads this, entries
    {
      entries.Length == capacity && SlotsOk(HashFor(mix, capacity), entries[..])
    }

    /** The table is well formed and `count` is the number of live slots. */
    ghost predicate Counted()
      reads this, entries
    {
      && CapOk(capacity) && entries.Length == capacity
      && Counts(HashFor(mix, capacity), entries[..], count)
    }

    /** The state between operations: less than half full. */
    ghost predicate Valid()
      reads this, entries
    {
      Counted() && resizeThreshold == capacity / 2 && count < resizeThreshold
    }

    ghost function Map(): map<Word, Word>
      reads this, entries
    {
      Contents(entries[..])
    }

    constructor (mix: Word -> Word, capacity: nat)
      requires CapOk(capacity)
      ensures this.mix == mix && this.capacity == capacity && resizeThreshold == capacity / 2
      ensures fresh(entries) && Valid() && Map() == map[] && NoTombstones(entries[..]) && count == 0
      ensures entries[..] == Fresh(capacity)
    {
      this.mix, this.capacity, this.count := mix, capacity, 0;
      resizeThreshold := capacity / 2;
      entries := new Entry[capacity](_ => UNUSED);
      new;
      assert forall p :: !Live(entries[..], p);
      assert LiveKeys(entries[..]) == {};
      assert Map() == map[];
    }

    /** insert_helper. In rebuild mode every write goes to the table at once; otherwise
        the writes are queued and published at the end, or dropped when the loop gives
        up. */
    method InsertHelper(key: Word, value: Word, rebuild: bool) returns (ok: bool)
      requires Shaped()
      modifies this`count, entries
      ensures Shaped()
      ensures Slot(capacity, Hash(mix, capacity, key))
      ensures var o := Insert(HashFor(mix, capacity), old(entries[..]), rebuild, key, value);
              && ok == o.Placed? && entries[..] == o.table
              && count == old(count) + if o.Placed? && o.added then 1 else 0
    {
      HashInRange(mix, capacity, key);
      var hash := Hash(mix, capacity, key);
      var added;
      ok, added := InsertLoop(HashFor(mix, capacity), Entry(key, value, hash), rebuild);
      if added {
        count := count + 1;
      }
    }

    /** The data in hand is a live entry of this table. */
    ghost predicate InHand(hf: Word -> Word, d: Entry)
      reads this
    {
      !Empty(d.hash) && d.hash == hf(d.key) && Slot(capacity, d.hash)
    }

    /** The probe loop of insert_helper. */
    method InsertLoop(ghost hf: Word -> Word, args: Entry, rebuild: bool) returns (ok: bool, added: bool)
      requires entries.Length == capacity && SlotsOk(hf, entries[..]) && InHand(hf, args)
      modifies entries
      ensures SlotsOk(hf, entries[..])
      ensures var o := Walk(old(entries[..]), old(entries[..]), rebuild, args, args.hash, 0, 0);
              && ok == o.Placed? && entries[..] == o.table && added == (o.Placed? && o.added)
    {
      hide SlotsOk, PowerOfTwo, Walk;
      ghost var orig := entries[..];
      ghost var cur := orig;
      var data, pos: nat, dist: int, n: nat := args, args.hash, 0, 0;
      var actv: seq<(nat, Entry)> := [];
      ghost var goal := Walk(orig, orig, rebuild, args, args.hash, 0, 0);
      ok, added := false, false;
      while n < MAX_SWAPS && !ok
        invariant n <= MAX_SWAPS && Slot(capacity, pos) && InHand(hf, data)
        invariant SlotsOk(hf, orig) && SlotsOk(hf, cur) && Queued(rebuild, actv, orig, cur)
        invariant if ok then goal == Placed(cur[pos := data], added)
                  else !added && goal == Walk(orig, cur, rebuild, data, pos, dist, n)
        decreases MAX_SWAPS - n, !ok
      {
        ok, added, actv, data, dist, cur := Probe(hf, rebuild, actv, data, pos, dist, n, orig, cur);
        if !ok {
          SlotFacts(hf, cur, pos);
          pos := Increment(pos);
          dist := dist + 1;
          n := n + 1;
        }
      }
      WalkGivesUp(orig, cur, rebuild, data, pos, dist);
      if ok {
        EntryUpdate(hf, rebuild, actv, pos, data, orig, cur);
      }
    }

    /** Looks at one slot: the place is found, or the occupant stays, or the occupant
        is displaced and becomes the data in hand. */
    method Probe(ghost hf: Word -> Word, rebuild: bool, actv: seq<(nat, Entry)>, data: Entry, pos: nat, dist: int,
                 ghost n: nat,
                 ghost orig: Table, ghost cur: Table)
      returns (ok: bool, added: bool, actv': seq<(nat, Entry)>, data': Entry, dist': int, ghost cur': Table)
      requires Slot(capacity, pos) && InHand(hf, data) && n < MAX_SWAPS && entries.Length == capacity
      requires SlotsOk(hf, orig) && SlotsOk(hf, cur) && Queued(rebuild, actv, orig, cur)
      modifies entries
      ensures SlotsOk(hf, cur') && Queued(rebuild, actv', orig, cur') && InHand(hf, data')
      ensures var o := Walk(orig, cur, rebuild, data, pos, dist, n);
              && Slot(capacity, NextSlot(capacity, pos))
              && (if ok then o == Placed(cur'[pos := data'], added)
                  else !added && o == Walk(orig, cur', rebuild, data', NextSlot(capacity, pos), dist' + 1, n + 1))
    {
      hide SlotsOk, PowerOfTwo, Published;
      ok, added, actv', data', dist', cur' := false, false, actv, data, dist, cur;
      var e := entries[pos];
      SlotFacts(hf, entries[..], pos);
      if !Empty(e.hash) && e.key == data.key {
        ok := true;
        return;
      }
      if e.hash == 0 {
        ok, added := true, true;
        return;
      }
      var existing := Distance(e.hash, pos);
      if existing < dist {
        if Deleted(e.hash) {
          ok, added := true, true;
          return;
        }
        actv' := Displace(hf, rebuild, actv, pos, data, orig, cur);
        cur' := cur[pos := data];
        data' := e;
        dist' := existing;
      }
    }

    method Distance(hash: Word, pos: nat) returns (d: nat)
      requires CapOk(capacity) && Slot(capacity, Home(hash)) && Slot(capacity, pos)
      ensures d == RingDist(capacity, Home(hash), pos)
    {
      ProbeDistanceIs(capacity, hash, pos);
      d := ProbeDistance(capacity, hash, pos);
    }

    method Increment(pos: nat) returns (next: nat)
      requires CapOk(capacity) && Slot(capacity, pos)
      ensures next == NextSlot(capacity, pos)
    {
      IncrementPosIs(capacity, pos);
      next := IncrementPos(capacity, pos);
    }

    /** The table shows the writes in rebuild mode; otherwise they are in the queue. */
    ghost predicate Queued(rebuild: bool, actv: seq<(nat, Entry)>, orig: Table, cur: Table)
      reads this, entries
    {
      && |cur| == |orig| == entries.Length
      && (forall i :: 0 <= i < |actv| ==> actv[i].0 < |orig|)
      && entries[..] == (if rebuild then cur else orig)
      && (!rebuild ==> Published(orig, actv) == cur)
    }

    /** entry_update in the middle of the loop. */
    method Displace(ghost hf: Word -> Word, rebuild: bool, actv: seq<(nat, Entry)>, pos: nat, data: Entry,
                    ghost orig: Table, ghost cur: Table) returns (actv': seq<(nat, Entry)>)
      requires Queued(rebuild, actv, orig, cur) && SlotsOk(hf, cur) && Slot(entries.Length, pos)
      requires entries.Length == capacity && InHand(hf, data)
      modifies entries
      ensures Queued(rebuild, actv', orig, cur[pos := data]) && SlotsOk(hf, cur[pos := data])
    {
      actv' := actv;
      if rebuild {
        entries[pos] := data;
      } else {
        actv' := actv + [(pos, data)];
        assert actv'[..|actv'| - 1] == actv;
      }
    }

    /** entry_update for the last write, and the publication that follows it. */
    method EntryUpdate(ghost hf: Word -> Word, rebuild: bool, actv: seq<(nat, Entry)>, pos: nat, data: Entry,
                       ghost orig: Table, ghost cur: Table)
      requires Queued(rebuild, actv, orig, cur) && SlotsOk(hf, cur) && Slot(entries.Length, pos)
      requires entries.Length == capacity && InHand(hf, data)
      modifies entries
      ensures entries[..] == cur[pos := data] && SlotsOk(hf, entries[..])
    {
      if rebuild {
        entries[pos] := data;
      } else {
        assert (actv + [(pos, data)])[..|actv|] == actv;
        Publish(entries, actv + [(pos, data)]);
      }
    }

    // ---------------------------------------------------------- lookup

    /** index_lookup, given up after `patience` rounds: the slot of the key, or 0. Two laps
        decide whether the loop ends. */
    method IndexLookup(key: Word, patience: nat) returns (ended: bool, pos: nat)
      requires Shaped() && TableOk(HashFor(mix, capacity), entries[..])
      ensures ended ==> (pos == 0 <==> key !in Map())
      ensures ended && pos != 0 ==>
                Live(entries[..], pos) && entries[pos].key == key && entries[pos].value == Map()[key]
      ensures ended ==> key in Map() || LookupStops(entries[..])
      ensures patience >= 2 * capacity && (key in Map() || LookupStops(entries[..])) ==> ended
    {
      HashInRange(mix, capacity, key);
      ended, pos := LookupLoop(HashFor(mix, capacity), key, Hash(mix, capacity, key), patience);
    }

    /** The condition of the do-while loop, in 64-bit arithmetic. */
    method KeepLooking(ghost hf: Word -> Word, pos: nat, next: nat, dist: Word) returns (again: bool)
      requires entries.Length == capacity && SlotsOk(hf, entries[..])
      requires Slot(capacity, pos) && next == NextSlot(capacity, pos)
      ensures again <==> GoesOn(entries[..], pos, dist)
    {
      ContinuesIs(hf, entries[..], pos, dist);
      var hash := entries[pos].hash;
      again := hash != 0 && dist <= (ProbeDistance(capacity, hash, next) + TWO_64 - 1) % TWO_64;
    }

    method LookupLoop(ghost hf: Word -> Word, key: Word, hash: Word, patience: nat)
      returns (ended: bool, pos: nat)
      requires entries.Length == capacity && TableOk(hf, entries[..])
      requires hf(key) == hash && Slot(capacity, hash) && !Empty(hash)
      ensures ended ==> (pos == 0 <==> key !in Map())
      ensures ended && pos != 0 ==>
                Live(entries[..], pos) && entries[pos].key == key && entries[pos].value == Map()[key]
      ensures ended ==> key in Map() || LookupStops(entries[..])
      ensures patience >= 2 * capacity && (key in Map() || LookupStops(entries[..])) ==> ended
    {
      hide Contents, LiveKeys, TableOk, SlotsOk, PowerOfTwo, Seeking, LookupStops, GoesOn;
      ghost var t := entries[..];
      ghost var p, q := SeekStart(hf, t, key, hash);
      pos := hash;
      var dist: Word := 0;
      for n := 0 to patience
        invariant entries[..] == t && dist == n % TWO_64 && Seeking(t, key, hash, pos, n, p, q)
      {
        SeekSlot(hf, t, key, hash, pos, n, p, q);
        var entry := entries[pos];
        if entry.hash == hash && entry.key == key {
          SeekFound(hf, t, key, hash, pos);
          return true, pos;
        }
        if key in Contents(t) { SeekPresent(hf, t, key, hash, pos, n, p, q); }
        var next := Increment(pos);
        var again := KeepLooking(hf, pos, next, dist);
        if !again {
          SeekStopped(t, pos, dist);
          return true, 0;
        }
        if key !in Contents(t) { SeekAbsent(hf, t, key, hash, pos, n, p, q); }
        pos := next;
        dist := (dist + 1) % TWO_64;
      }
      if patience >= 2 * capacity { SeekLost(hf, t, key, hash, pos, patience, p, q); }
      return false, 0;
    }

    // ---------------------------------------------------------- rebuilding

    /** insert_helper would be done with the pair within one lap. */
    ghost predicate InOneLap(key: Word, value: Word)
      reads this, entries
    {
      && entries.Length == capacity && Slot(capacity, Hash(mix, capacity, key))
      && OneLap(HashFor(mix, capacity), entries[..], key, value)
    }

    /** insert_helper would queue no second write for a slot. */
    ghost predicate WritesOnce(key: Word, value: Word)
      reads this, entries
    {
      && entries.Length == capacity && Slot(capacity, Hash(mix, capacity, key))
      && NoSlotTwice(InsertWrites(HashFor(mix, capacity), entries[..], key, value))
    }

    /** insert_helper would queue no write that comes to stand in the way of an entry. */
    ghost predicate KeepsOrder(key: Word, value: Word)
      reads this, entries
    {
      && entries.Length == capacity && Slot(capacity, Hash(mix, capacity, key))
      && var w := InsertWrites(HashFor(mix, capacity), entries[..], key, value);
      InTable(entries[..], w) && NoneInTheWay(entries[..], w)
    }

    /** With an unused slot, or 256 slots and more, one lap is enough for every key. */
    lemma RoomForAll(key: Word, value: Word)
      requires CapOk(capacity) && entries.Length == capacity && (HasUnused(entries[..]) || capacity > MAX_SWAPS)
      ensures InOneLap(key, value)
    {
      HashInRange(mix, capacity, key);
      OneLapWhen(HashFor(mix, capacity), entries[..], key, value);
    }

    /** insert_helper finds a place for the pair in the table. */
    static ghost predicate Places(mix: Word -> Word, t: Table, key: Word, value: Word) {
      Slot(|t|, Hash(mix, |t|, key)) && Insert(HashFor(mix, |t|), t, false, key, value).Placed?
    }

    /** insert_helper within one lap. */
    method InsertWithRoom(key: Word, value: Word, rebuild: bool) returns (ok: bool)
      requires Counted() && InOneLap(key, value)
      modifies this`count, entries
      ensures ok ==> Counted() && Map() == old(Map())[key := value] && count <= old(count) + 1
      ensures ok && old(NoTombstones(entries[..])) ==> NoTombstones(entries[..])
      ensures !ok && !rebuild ==> entries[..] == old(entries[..]) && count == old(count)
      ensures var o := Insert(HashFor(mix, capacity), old(entries[..]), rebuild, key, value);
              ok == o.Placed? && entries[..] == o.table
    {
      InsertCounts(HashFor(mix, capacity), entries[..], rebuild, key, value, count);
      ok := InsertHelper(key, value, rebuild);
    }

    /** insert_helper in deferred mode on any table. If it writes no slot twice, the table
        stays well-formed if and only if no write comes to stand in the way of an entry. */
    method InsertAnywhere(key: Word, value: Word) returns (ok: bool)
      requires Counted()
      modifies this`count, entries
      ensures ok ==> ((Unique(entries[..]) && Map() == old(Map())[key := value]) <==> old(WritesOnce(key, value)))
      ensures ok && old(InOneLap(key, value)) ==>
                Counted() && Map() == old(Map())[key := value] && count <= old(count) + 1
      ensures ok && old(WritesOnce(key, value)) ==>
                (Counted() <==> old(KeepsOrder(key, value))) && count == |Map()| <= old(count) + 1
      ensures !ok ==> entries[..] == old(entries[..]) && count == old(count)
      ensures ok <==> Places(mix, old(entries[..]), key, value)
      ensures old(Near(entries[..], Hash(mix, capacity, key), key)) ==> ok
      ensures old(HasUnused(entries[..])) && capacity <= MAX_SWAPS ==> ok
      ensures ok && old(InOneLap(key, value) && NoTombstones(entries[..])) ==> NoTombstones(entries[..])
    {
      hide TableOk, Unique, ProbeOk, Contents, LiveKeys, PowerOfTwo, Insert, InsertWrites, OneLap, NoSlotTwice,
           NoTombstones, HasUnused, NoneInTheWay, Near;
      ghost var t, hf := entries[..], HashFor(mix, capacity);
      HashInRange(mix, capacity, key);
      if Insert(hf, t, false, key, value).Placed? {
        InsertExactly(hf, t, key, value);
        AnywhereCounts(hf, t, key, value, count);
      }
      if HasUnused(t) && capacity <= MAX_SWAPS { InsertSucceeds(hf, t, false, key, value); }
      if Near(t, hf(key), key) { NearSucceeds(hf, t, key, value); }
      DeferredGivesUp(hf, t, key, value);
      TableSlots(hf, t);
      ok := InsertHelper(key, value, false);
    }

    /** The rest of the copy, from slot `i` on. */
    ghost function Copied(src: Table, i: nat): (r: Option<Table>)
      reads this, entries
      requires i <= |src| && CapOk(capacity) && entries.Length == capacity
      ensures i == |src| ==> r == Some(entries[..])
    {
      InRange(mix, capacity);
      CopyFrom(HashFor(mix, capacity), src, entries[..], i)
    }

    /** One round of entries_cache. */
    method CopySlot(dest: Hashmap, i: nat) returns (ok: bool)
      requires Counted() && i < capacity && count < dest.capacity - 1
      requires dest.Counted() && NoTombstones(dest.entries[..]) && dest.Map() == Contents(entries[..i])
      requires dest != this && dest.entries != entries
      modifies dest`count, dest.entries
      ensures ok ==> dest.Counted() && NoTombstones(dest.entries[..]) && dest.Map() == Contents(entries[..i + 1])
      ensures old(dest.Copied(entries[..], i)) == if ok then dest.Copied(entries[..], i + 1) else None
    {
      hide SlotsOk, ProbeOk, Unique, Contents, LiveKeys, PowerOfTwo, NoTombstones, Insert;
      ghost var t := entries[..];
      LiveIsUsed(HashFor(mix, capacity), t, i);
      assert t[..i] == entries[..i] && t[..i + 1] == entries[..i + 1];
      PrefixContents(t, i);
      var e := entries[i];
      if Empty(e.hash) {
        return true;
      }
      PrefixSize(t, i);
      RoomLeft(dest.entries[..]);
      dest.RoomForAll(e.key, e.value);
      ok := dest.InsertWithRoom(e.key, e.value, true);
    }

    static lemma EmptyPrefix(t: Table)
      ensures Unique(t[..0]) && Contents(t[..0]) == map[]
    {
      assert LiveKeys(t[..0]) == {};
    }

    /** entries_cache: copies every live entry into an empty table. */
    method EntriesCache(dest: Hashmap) returns (ok: bool)
      requires Counted() && dest.Counted() && dest != this && dest.entries != entries
      requires dest.Map() == map[] && NoTombstones(dest.entries[..]) && count < dest.capacity - 1
      modifies dest`count, dest.entries
      ensures ok ==> dest.Counted() && dest.Map() == Map() && dest.count == count
      ensures ok ==> HasUnused(dest.entries[..]) && NoTombstones(dest.entries[..])
      ensures old(dest.Copied(entries[..], 0)) == if ok then Some(dest.entries[..]) else None
    {
      hide SlotsOk, ProbeOk, Unique, Contents, LiveKeys, UnusedSlots, NoTombstones, Copied, PowerOfTwo;
      ghost var t, all := entries[..], dest.Copied(entries[..], 0);
      EmptyPrefix(t);
      assert t[..0] == entries[..0];
      for i := 0 to capacity
        invariant entries[..] == t && dest.Counted() && NoTombstones(dest.entries[..])
        invariant dest.Map() == Contents(entries[..i]) && all == dest.Copied(t, i)
      {
        ok := CopySlot(dest, i);
        if !ok {
          return;
        }
      }
      assert entries[..capacity] == t;
      RoomLeft(dest.entries[..]);
      return true;
    }

    /** hm_rp_rebuild: copies the table into one of another capacity. `haveMemory` says
        whether the memory was there. Failure changes nothing. */
    method Rebuild(capacityNew: nat, haveMemory: bool) returns (ok: bool)
      requires Counted() && CapOk(capacityNew) && count < capacityNew - 1
      modifies this
      ensures ok <==> haveMemory && old(Fits(mix, entries[..], capacityNew))
      ensures ok ==> old(Rebuilt(mix, entries[..], capacityNew)) == Some(entries[..])
      ensures ok ==>
                && Counted() && Map() == old(Map()) && count == old(count)
                && HasUnused(entries[..]) && NoTombstones(entries[..])
                && capacity == capacityNew && resizeThreshold == capacityNew / 2 && fresh(entries)
      ensures !ok ==> unchanged(this) && entries[..] == old(entries[..])
    {
      hide SlotsOk, ProbeOk, Unique, Contents, LiveKeys, UnusedSlots, NoTombstones;
      if !haveMemory {
        return false;
      }
      var hashmapRebuild := new Hashmap(mix, capacityNew);
      assert hashmapRebuild.entries[..] == Fresh(capacityNew);
      ok := EntriesCache(hashmapRebuild);
      if ok {
        capacity := capacityNew;
        resizeThreshold := capacityNew / 2;
        entries := hashmapRebuild.entries;
      }
    }

    // ---------------------------------------------------------- the engine's operations

    /** The rebuild that is due, if any, succeeds, and insert_helper finds a place in the
        table of that moment. */
    ghost predicate Succeeds(key: Word, value: Word, haveMemory: bool)
      reads this, entries
    {
      if count + 1 < resizeThreshold then Places(mix, entries[..], key, value)
      else
        && haveMemory && Fits(mix, entries[..], 2 * capacity)
        && Places(mix, Rebuilt(mix, entries[..], 2 * capacity).value, key, value)
    }

    /** hm_rp_insert. A call that rebuilds the table first, or whose probing stays within
        one lap, updates the map on success and keeps it on failure. On a table without
        an unused slot, success is a map update if and only if no slot is written twice, and
        then the next call finds a valid table if and only if no write comes to stand in the
        way of an entry. */
    method PutEntry(key: Word, value: Word, haveMemory: bool) returns (ok: bool)
      requires Valid()
      requires haveMemory ==> 2 * capacity <= TWO_63
      modifies this, entries
      ensures ok <==> old(Succeeds(key, value, haveMemory))
      ensures old(count + 1 < resizeThreshold && Near(entries[..], Hash(mix, capacity, key), key)) ==> ok
      ensures old(count + 1 >= resizeThreshold || InOneLap(key, value)) ==>
                Valid() && Map() == if ok then old(Map())[key := value] else old(Map())
      ensures ok && old(count + 1 < resizeThreshold) ==>
                ((Unique(entries[..]) && Map() == old(Map())[key := value]) <==> old(WritesOnce(key, value)))
      ensures ok && old(count + 1 < resizeThreshold && WritesOnce(key, value)) ==>
                (Valid() <==> old(KeepsOrder(key, value)))
      ensures !ok ==> Valid() && Map() == old(Map())
      ensures !ok && old(count + 1 < resizeThreshold) ==> entries == old(entries) && entries[..] == old(entries[..])
      ensures entries == old(entries) || fresh(entries)
      ensures ok ==> capacity == old(if count + 1 >= resizeThreshold then 2 * capacity else capacity)
      ensures haveMemory && old(count < MAX_SWAPS && NoTombstones(entries[..])) ==>
                ok && NoTombstones(entries[..]) && Valid() && Map() == old(Map())[key := value]
    {
      hide SlotsOk, ProbeOk, Unique, Contents, LiveKeys, UnusedSlots, NoTombstones, WritesOnce, KeepsOrder,
           OneLap, Rebuilt, Near, Places, PowerOfTwo, Counts;
      if count + 1 >= resizeThreshold {
        var done := Grow(key, value, haveMemory);
        if !done {
          return false;
        }
      } else {
        RoomIfClean(mix, entries[..], count, key, value);
      }
      ok := InsertAnywhere(key, value);
    }

    /** The rebuild to twice the capacity. */
    method Grow(key: Word, value: Word, haveMemory: bool) returns (done: bool)
      requires Valid() && (haveMemory ==> 2 * capacity <= TWO_63)
      modifies this
      ensures done <==> haveMemory && old(Fits(mix, entries[..], 2 * capacity))
      ensures done ==>
                && old(Rebuilt(mix, entries[..], 2 * capacity)) == Some(entries[..]) && fresh(entries)
                && Valid() && Map() == old(Map()) && count == old(count) && count + 1 < resizeThreshold
                && capacity == 2 * old(capacity) && NoTombstones(entries[..]) && InOneLap(key, value)
      ensures done && count < MAX_SWAPS ==> Near(entries[..], Hash(mix, capacity, key), key)
      ensures haveMemory && old(count) < MAX_SWAPS ==> done
      ensures !done ==> unchanged(this) && entries[..] == old(entries[..])
    {
      hide SlotsOk, ProbeOk, Unique, Contents, LiveKeys, UnusedSlots, NoTombstones, InOneLap, Rebuilt, Near, PowerOfTwo;
      if !haveMemory {
        return false;
      }
      Doubled(capacity);
      if count < MAX_SWAPS { FewFit(mix, HashFor(mix, capacity), entries[..], capacity * 2); }
      done := Rebuild(capacity * 2, haveMemory);
      if done {
        RoomForAll(key, value);
        if count < MAX_SWAPS { RoomNear(mix, entries[..], count, key); }
      }
    }

    /** Without tombstones there is room. */
    static lemma RoomIfClean(mix: Word -> Word, t: Table, count: nat, key: Word, value: Word)
      requires CapOk(|t|) && Counts(HashFor(mix, |t|), t, count) && count < |t| - 1
      ensures Slot(|t|, Hash(mix, |t|, key))
      ensures NoTombstones(t) ==>
                OneLap(HashFor(mix, |t|), t, key, value) && (count < MAX_SWAPS ==> Near(t, Hash(mix, |t|, key), key))
    {
      HashInRange(mix, |t|, key);
      if NoTombstones(t) {
        RoomLeft(t);
        OneLapWhen(HashFor(mix, |t|), t, key, value);
        if count < MAX_SWAPS { RoomNear(mix, t, count, key); }
      }
    }

    static lemma RoomNear(mix: Word -> Word, t: Table, count: nat, key: Word)
      requires Counts(HashFor(mix, |t|), t, count) && CapOk(|t|) && NoTombstones(t) && count < MAX_SWAPS
      requires count < |t| - 1
      ensures Near(t, Hash(mix, |t|, key), key)
    {
      HashInRange(mix, |t|, key);
      FewNear(t, Hash(mix, |t|, key), key);
    }

    static lemma Doubled(cap: nat)
      requires CapOk(cap)
      ensures PowerOfTwo(cap * 2)
    {
    }

    /** Removing a key calls for a smaller table. */
    predicate Shrinks()
      reads this
    {
      capacity / 4 >= INIT_ENTRIES_NUM && count - 1 < capacity / 4
    }

    /** Removing the key calls for a smaller table, and that cannot be had. */
    ghost predicate ShrinkFails(key: Word, haveMemory: bool)
      reads this, entries
    {
      Shrinks() && !(haveMemory && Fits(mix, Removed(entries[..], key), capacity / 2))
    }

    /** hm_rp_remove, given up when its lookup does not end within `patience` rounds. The key
        is gone in any case. It returns 1 when the key was absent, but also when the key is
        gone and the table could not be shrunk. */
    method RemoveEntry(key: Word, haveMemory: bool, patience: nat) returns (ended: bool, r: int)
      requires Valid()
      modifies this, entries
      ensures Valid() && (r == 0 || r == 1)
      ensures ended ==> Map() == old(Map()) - {key}
      ensures ended ==> (r == 1 <==> key !in old(Map()) || old(ShrinkFails(key, haveMemory)))
      ensures ended ==> capacity == old(if key in Map() && Shrinks() && !ShrinkFails(key, haveMemory) then capacity / 2
                                        else capacity)
      ensures !ended ==> unchanged(this) && entries[..] == old(entries[..])
      ensures ended ==> old(key in Map() || LookupStops(entries[..]))
      ensures old(patience >= 2 * capacity && (key in Map() || LookupStops(entries[..]))) ==> ended
    {
      hide SlotsOk, ProbeOk, Unique, Contents, LiveKeys, UnusedSlots, Removed, NoTombstones, Fits, PowerOfTwo,
           LookupStops;
      var pos;
      ended, pos := IndexLookup(key, patience);
      if !ended {
        return false, 1;
      }
      if pos == 0 {
        return true, 1;
      }
      Bury(pos);
      var reducedThreshold := capacity / 2 / 2;
      if reducedThreshold >= INIT_ENTRIES_NUM && count < reducedThreshold {
        Halved(capacity);
        var done := Rebuild(capacity / 2, haveMemory);
        return true, if done then 0 else 1;
      }
      return true, 0;
    }

    static lemma Halved(cap: nat)
      requires CapOk(cap) && cap >= 8
      ensures CapOk(cap / 2)
    {
    }

    /** The published writes of hm_rp_remove. */
    method Bury(pos: nat)
      requires Valid() && Live(entries[..], pos)
      modifies this`count, entries
      ensures Valid() && Map() == old(Map()) - {old(entries[pos].key)} && count == old(count) - 1
      ensures entries[..] == old(Removed(entries[..], entries[pos].key))
    {
      hide SlotsOk, ProbeOk, Unique, Contents, LiveKeys, UnusedSlots, Removed;
      ghost var t := entries[..];
      BuryOk(HashFor(mix, capacity), t, pos);
      entries[pos] := Entry(0, 0, entries[pos].hash + TWO_63);
      count := count - 1;
      assert entries[..] == Delete(t, pos);
    }

    static lemma BuryOk(hf: Word -> Word, t: Table, pos: nat)
      requires TableOk(hf, t) && Live(t, pos)
      ensures TableOk(hf, Delete(t, pos)) && Removed(t, t[pos].key) == Delete(t, pos)
      ensures Contents(Delete(t, pos)) == Contents(t) - {t[pos].key}
      ensures |Contents(Delete(t, pos))| == |Contents(t)| - 1
    {
      RemovedIs(t, t[pos].key, pos);
      hide Contents, LiveKeys, UnusedSlots, Removed;
      DeleteOk(hf, t, pos);
      ContentsAt(t, pos);
      MapSize(Contents(t), t[pos].key, 0);
    }

    /** hm_rp_get, given up when its lookup does not end within `patience` rounds. */
    method GetEntry(key: Word, patience: nat) returns (ended: bool, r: Option<Word>)
      requires Valid()
      ensures ended ==> r == Lookup(Map(), key) && (key in Map() || LookupStops(entries[..]))
      ensures patience >= 2 * capacity && (key in Map() || LookupStops(entries[..])) ==> ended
    {
      var pos;
      ended, pos := IndexLookup(key, patience);
      r := if ended && pos != 0 then Some(entries[pos].value) else None;
    }

    /** hm_rp_foreach: the callback gets the entries slot by slot, up to the first one on
        which it stops. */
    method Foreach(cb: Entry -> bool) returns (visited: seq<nat>, stopped: bool)
      requires Shaped()
      ensures var t := entries[..]; Visited(visited, stopped, LiveSlots(t, 0), (p: nat) => p < |t| && cb(t[p]))
    {
      visited := [];
      ghost var t := entries[..];
      ghost var all := LiveSlots(t, 0);
      assert [] + all == all;
      for i := 0 to capacity
        invariant all == visited + LiveSlots(t, i)
        invariant forall x :: 0 <= x < |visited| ==> visited[x] < |t| && !cb(t[visited[x]])
      {
        var e := entries[i];
        if !Empty(e.hash) {
          ghost var rest := LiveSlots(t, i + 1);
          assert visited + ([i] + rest) == (visited + [i]) + rest;
          visited := visited + [i];
          if cb(e) {
            return visited, true;
          }
        }
      }
      assert visited + [] == visited;
      return visited, false;
    }
  }
}
