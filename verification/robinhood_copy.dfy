/** Copying a table into a new one of another capacity, and when that succeeds. */
module RobinHoodCopy {
  import opened Keys
  import opened RobinHoodRing
  import opened RobinHoodTable

  /** The first `i` slots hold a part of the map that grows by one live slot. */
  lemma PrefixContents(t: Table, i: nat)
    requires Unique(t) && i < |t|
    ensures Unique(t[..i]) && Unique(t[..i + 1])
    ensures Contents(t[..i + 1]) == if Live(t, i) then Contents(t[..i])[t[i].key := t[i].value] else Contents(t[..i])
    ensures Live(t, i) ==> t[i].key !in Contents(t[..i])
  {
    hide Contents, LiveKeys;
    var a, b := t[..i], t[..i + 1];
    assert forall p :: Live(a, p) <==> p < i && Live(t, p);
    assert forall p :: Live(b, p) <==> p <= i && Live(t, p);
    if Live(t, i) {
      HasKeyContents(a, t[i].key);
      ContentsAt(b, i);
    }
    forall k | k in Contents(a)
      ensures k in Contents(b) && Contents(b)[k] == Contents(a)[k]
    {
      var p := SlotOf(a, k);
      ContentsAt(a, p);
      ContentsAt(b, p);
    }
    forall k | k in Contents(b)
      ensures k in Contents(a) || (Live(t, i) && k == t[i].key)
    {
      var p := SlotOf(b, k);
      if p < i { ContentsAt(a, p); }
    }
  }

  lemma LiveIsUsed(hf: Word -> Word, t: Table, i: nat)
    requires TableOk(hf, t) && i < |t|
    ensures Live(t, i) <==> !Empty(t[i].hash)
  {
  }

  lemma PrefixSize(t: Table, i: nat)
    requires Unique(t) && i <= |t|
    ensures Unique(t[..i]) && |Contents(t[..i])| <= |Contents(t)|
  {
    assert forall p :: Live(t[..i], p) <==> p < i && Live(t, p);
    forall k | k in Contents(t[..i])
      ensures k in Contents(t)
    {
      var p := SlotOf(t[..i], k);
      ContentsAt(t, p);
    }
    SubsetSize(Contents(t[..i]).Keys, Contents(t).Keys);
    assert |Contents(t[..i]).Keys| == |Contents(t[..i])| && |Contents(t).Keys| == |Contents(t)|;
  }

  /** entries_cache: the table that holds the entries from slot `i` on too, unless an insert
      gives up. `hf` is the hash function of the new table. */
  function CopyFrom(hf: Word -> Word, t: Table, dest: Table, i: nat): Option<Table>
    requires i <= |t| && forall k :: Slot(|dest|, hf(k))
    decreases |t| - i
  {
    if i == |t| then Some(dest)
    else if Empty(t[i].hash) then CopyFrom(hf, t, dest, i + 1)
    else
      var o := Insert(hf, dest, true, t[i].key, t[i].value);
      if o.Placed? && |o.table| == |dest| then CopyFrom(hf, t, o.table, i + 1) else None
  }

  /** A table of capacity `cap` never used. */
  function Fresh(cap: nat): Table {
    seq(cap, _ => UNUSED)
  }

  /** The table copied into a new one of capacity `cap`, if all its entries find room. */
  function Rebuilt(mix: Word -> Word, t: Table, cap: nat): Option<Table> {
    if CapOk(cap) then InRange(mix, cap); CopyFrom(HashFor(mix, cap), t, Fresh(cap), 0) else None
  }

  predicate Fits(mix: Word -> Word, t: Table, cap: nat) {
    Rebuilt(mix, t, cap).Some?
  }

  lemma InRange(mix: Word -> Word, cap: nat)
    requires CapOk(cap)
    ensures forall k :: Slot(cap, HashFor(mix, cap)(k))
  {
    forall k ensures Slot(cap, HashFor(mix, cap)(k)) { HashInRange(mix, cap, k); }
  }

  /** With a slot never used and no more slots than rounds, an insert succeeds. */
  lemma {:induction false} FindsPlace(orig: Table, cur: Table, rebuild: bool, d: Entry, pos: nat, dist: int, n: nat,
                                      start: nat, u: nat)
    requires |cur| == |orig| <= MAX_SWAPS && Slot(|orig|, pos) && Slot(|orig|, start) && Slot(|orig|, u)
    requires orig[u].hash == 0 && cur[u].hash == 0 && Steps(|orig|, start, pos) == n <= Steps(|orig|, start, u)
    ensures Walk(orig, cur, rebuild, d, pos, dist, n).Placed?
    decreases MAX_SWAPS - n
  {
    var e, next := if rebuild then cur[pos] else orig[pos], NextSlot(|orig|, pos);
    if e.hash != 0 && !(!Empty(e.hash) && e.key == d.key) {
      var existing := RingDist(|orig|, Home(e.hash), pos);
      if existing >= dist {
        FindsPlace(orig, cur, rebuild, d, next, dist + 1, n + 1, start, u);
      } else if !Deleted(e.hash) {
        FindsPlace(orig, cur[pos := d], rebuild, e, next, existing + 1, n + 1, start, u);
      }
    }
  }

  lemma InsertSucceeds(hf: Word -> Word, t: Table, rebuild: bool, key: Word, value: Word)
    requires Slot(|t|, hf(key)) && HasUnused(t) && |t| <= MAX_SWAPS
    ensures Insert(hf, t, rebuild, key, value).Placed?
  {
    var u :| Slot(|t|, u) && t[u].hash == 0;
    FindsPlace(t, t, rebuild, Entry(key, value, hf(key)), hf(key), 0, 0, hf(key), u);
  }

  /** One of the first `MAX_SWAPS` slots from the key's home was never used, or holds the
      key. */
  ghost predicate Near(t: Table, h: nat, key: Word) {
    exists n: nat :: n < MAX_SWAPS && NearAt(t, h, key, n)
  }

  predicate NearAt(t: Table, h: nat, key: Word, n: nat) {
    var q := SlotAfter(|t|, h, n);
    Slot(|t|, q) && (t[q].hash == 0 || (Live(t, q) && t[q].key == key))
  }

  lemma {:induction false} UnusedEnds(orig: Table, cur: Table, d: Entry, h: nat, dist: int, m: nat, n: nat)
    requires |cur| == |orig| && Slot(|orig|, h) && m <= n < MAX_SWAPS
    requires Slot(|orig|, SlotAfter(|orig|, h, n)) && orig[SlotAfter(|orig|, h, n)].hash == 0
    requires Slot(|orig|, SlotAfter(|orig|, h, m))
    ensures Walk(orig, cur, false, d, SlotAfter(|orig|, h, m), dist, m).Placed?
    decreases n - m
  {
    var pos := SlotAfter(|orig|, h, m);
    var e := orig[pos];
    if !Stops(orig, d, pos, dist) {
      assert SlotAfter(|orig|, h, m + 1) == NextSlot(|orig|, pos);
      var existing := RingDist(|orig|, Home(e.hash), pos);
      if existing >= dist {
        UnusedEnds(orig, cur, d, h, dist + 1, m + 1, n);
      } else {
        UnusedEnds(orig, cur[pos := d], e, h, existing + 1, m + 1, n);
      }
    }
  }

  lemma {:induction false} KeyEnds(hf: Word -> Word, t: Table, d: Entry, pos: nat, n: nat, p: nat)
    requires TableOk(hf, t) && Live(t, p) && t[p].key == d.key && t[p].hash == d.hash
    requires Slot(|t|, pos) && Slot(|t|, d.hash) && Steps(|t|, d.hash, pos) == n <= Steps(|t|, d.hash, p) < MAX_SWAPS
    ensures Walk(t, t, false, d, pos, n, n).Placed?
    decreases MAX_SWAPS - n
  {
    if pos != p {
      assert Way(t, d.hash, p);
      assert Passes(t, d.hash, pos);
      PosAdvance(|t|, d.hash, pos);
      KeyEnds(hf, t, d, NextSlot(|t|, pos), n + 1, p);
    }
  }

  /** However large and however full of tombstones the table is, an insert near enough to a
      slot never used, or to the key itself, succeeds. */
  lemma NearSucceeds(hf: Word -> Word, t: Table, key: Word, value: Word)
    requires TableOk(hf, t) && Slot(|t|, hf(key)) && !Empty(hf(key)) && Near(t, hf(key), key)
    ensures Insert(hf, t, false, key, value).Placed?
  {
    hide Walk, ProbeOk, Unique, PowerOfTwo;
    var h := hf(key);
    var d := Entry(key, value, h);
    var n: nat :| n < MAX_SWAPS && NearAt(t, h, key, n);
    var q := SlotAfter(|t|, h, n);
    if t[q].hash == 0 {
      UnusedEnds(t, t, d, h, 0, 0, n);
    } else {
      SlotAfterSteps(|t|, h, n);
      KeyEnds(hf, t, d, h, 0, q);
    }
  }

  /** The keys in the first `n` slots from slot `h`. */
  ghost function Along(t: Table, h: nat, n: nat): set<Word> {
    if n == 0 then {}
    else
      var q := SlotAfter(|t|, h, n - 1);
      Along(t, h, n - 1) + if Live(t, q) then {t[q].key} else {}
  }

  lemma {:induction false} AlongAt(t: Table, h: nat, n: nat, k: Word)
    requires k in Along(t, h, n)
    ensures exists i: nat :: i < n && Live(t, SlotAfter(|t|, h, i)) && t[SlotAfter(|t|, h, i)].key == k
  {
    var q := SlotAfter(|t|, h, n - 1);
    if !(Live(t, q) && t[q].key == k) { AlongAt(t, h, n - 1, k); }
  }

  /** Slots met within one lap are different, and so are the keys in them. */
  lemma {:induction false} AlongSize(t: Table, h: nat, n: nat)
    requires Unique(t) && Slot(|t|, h) && n <= |t| - 1
    requires forall i: nat :: i < n ==> Live(t, SlotAfter(|t|, h, i))
    ensures |Along(t, h, n)| == n && Along(t, h, n) <= LiveKeys(t)
  {
    if n > 0 {
      AlongSize(t, h, n - 1);
      var q := SlotAfter(|t|, h, n - 1);
      SlotAfterSteps(|t|, h, n - 1);
      if t[q].key in Along(t, h, n - 1) {
        AlongAt(t, h, n - 1, t[q].key);
        var i: nat :| i < n - 1 && Live(t, SlotAfter(|t|, h, i)) && t[SlotAfter(|t|, h, i)].key == t[q].key;
        SlotAfterSteps(|t|, h, i);
      }
    }
  }

  lemma AlongCount(t: Table, h: nat, n: nat)
    requires Unique(t) && Slot(|t|, h) && n <= |t| - 1
    requires forall i: nat :: i < n ==> Live(t, SlotAfter(|t|, h, i))
    ensures |Contents(t)| >= n
  {
    AlongSize(t, h, n);
    SubsetSize(Along(t, h, n), LiveKeys(t));
    assert LiveKeys(t) == Contents(t).Keys && |Contents(t).Keys| == |Contents(t)|;
  }

  /** On a table without tombstones that holds fewer entries than the loop has rounds, there is
      always a slot near enough. */
  lemma FewNear(t: Table, h: nat, key: Word)
    requires Unique(t) && NoTombstones(t) && Slot(|t|, h)
    requires |Contents(t)| < MAX_SWAPS && |Contents(t)| < |t| - 1
    ensures Near(t, h, key)
  {
    hide Unique, NoTombstones;
    var m := |Contents(t)| + 1;
    if forall i: nat :: i < m ==> Live(t, SlotAfter(|t|, h, i)) {
      AlongCount(t, h, m);
      assert false;
    }
    var i: nat :| i < m && !Live(t, SlotAfter(|t|, h, i));
    SlotAfterSteps(|t|, h, i);
    NotLive(t, SlotAfter(|t|, h, i));
    assert NearAt(t, h, key, i);
  }

  lemma NotLive(t: Table, q: nat)
    requires NoTombstones(t) && Slot(|t|, q) && !Live(t, q)
    ensures t[q].hash == 0
  {
  }

  lemma {:induction false} CopyFits(hf: Word -> Word, src: Word -> Word, t: Table, dest: Table, i: nat)
    requires TableOk(src, t) && i <= |t| && (forall k :: Slot(|dest|, hf(k)) && !Empty(hf(k)))
    requires TableOk(hf, dest) && NoTombstones(dest) && |Contents(t)| < |dest| - 1 && |Contents(t)| < MAX_SWAPS
    requires Contents(dest) == Contents(t[..i])
    ensures CopyFrom(hf, t, dest, i).Some?
    decreases |t| - i
  {
    hide Contents, LiveKeys, TableOk, Insert, NoTombstones;
    if i < |t| {
      CopyParts(src, t, i);
      LiveIsUsed(src, t, i);
      if Live(t, i) {
        CopyRoom(hf, dest, t[i].key, t[i].value);
        InsertOk(hf, dest, t[i].key, t[i].value);
        InsertUses(hf, dest, true, t[i].key, t[i].value);
        CopyFits(hf, src, t, Insert(hf, dest, true, t[i].key, t[i].value).table, i + 1);
      } else {
        CopyFits(hf, src, t, dest, i + 1);
      }
    }
  }

  lemma CopyParts(src: Word -> Word, t: Table, i: nat)
    requires TableOk(src, t) && i < |t|
    ensures Contents(t[..i + 1]) == if Live(t, i) then Contents(t[..i])[t[i].key := t[i].value] else Contents(t[..i])
    ensures |Contents(t[..i])| <= |Contents(t)|
  {
    PrefixContents(t, i);
    PrefixSize(t, i);
  }

  lemma CopyRoom(hf: Word -> Word, dest: Table, key: Word, value: Word)
    requires TableOk(hf, dest) && NoTombstones(dest) && Slot(|dest|, hf(key)) && !Empty(hf(key))
    requires |Contents(dest)| < |dest| - 1 && |Contents(dest)| < MAX_SWAPS
    ensures OneLap(hf, dest, key, value) && Insert(hf, dest, true, key, value).Placed?
  {
    hide Walk, ProbeOk, Unique, SlotsOk, Contents, NoTombstones, Near, OneLap;
    RoomLeft(dest);
    OneLapWhen(hf, dest, key, value);
    FewNear(dest, hf(key), key);
    NearSucceeds(hf, dest, key, value);
    InsertOk(hf, dest, key, value);
  }

  lemma FreshOk(hf: Word -> Word, t: Table, cap: nat)
    requires CapOk(cap)
    ensures TableOk(hf, Fresh(cap)) && NoTombstones(Fresh(cap)) && Contents(Fresh(cap)) == map[] == Contents(t[..0])
  {
    hide PowerOfTwo;
    assert forall p :: !Live(Fresh(cap), p) && !Live(t[..0], p);
    assert LiveKeys(Fresh(cap)) == {} == LiveKeys(t[..0]);
  }

  /** A table with fewer entries than the loop has rounds can be copied into a new one of any
      capacity that has slots enough. */
  lemma FewFit(mix: Word -> Word, src: Word -> Word, t: Table, cap: nat)
    requires TableOk(src, t) && CapOk(cap) && |Contents(t)| < cap - 1 && |Contents(t)| < MAX_SWAPS
    ensures Fits(mix, t, cap)
  {
    hide TableOk, NoTombstones, Contents, CopyFrom, PowerOfTwo, Hash;
    InRange(mix, cap);
    FreshOk(HashFor(mix, cap), t, cap);
    forall k ensures !Empty(HashFor(mix, cap)(k)) { HashInRange(mix, cap, k); }
    CopyFits(HashFor(mix, cap), src, t, Fresh(cap), 0);
  }
}
