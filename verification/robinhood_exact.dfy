/** Inserting into a table whose every slot has been used. The loop may then come round
    to a slot for which it has queued a write, and reads it as if nothing had happened.
    The insert is a map update if and only if it queues no second write for a slot. */
module RobinHoodExact {
  import opened Keys
  import opened RobinHoodRing
  import opened RobinHoodTable

  type Write = (nat, Entry)

  /** The writes queued by a walk, in order. A walk that gives up drops them. */
  function Writes(t: Table, d: Entry, pos: nat, dist: int, n: nat): seq<Write>
    requires Slot(|t|, pos) && n <= MAX_SWAPS
    decreases MAX_SWAPS - n
  {
    if n == MAX_SWAPS then []
    else if Stops(t, d, pos, dist) then [(pos, d)]
    else
      var existing, next := RingDist(|t|, Home(t[pos].hash), pos), NextSlot(|t|, pos);
      if existing >= dist then Writes(t, d, next, dist + 1, n + 1)
      else [(pos, d)] + Writes(t, t[pos], next, existing + 1, n + 1)
  }

  /** The writes of insert_helper in deferred mode. */
  function InsertWrites(hf: Word -> Word, t: Table, key: Word, value: Word): seq<Write>
    requires Slot(|t|, hf(key))
  {
    Writes(t, Entry(key, value, hf(key)), hf(key), 0, 0)
  }

  predicate NoSlotTwice(w: seq<Write>) {
    forall i, j :: 0 <= i < j < |w| ==> w[i].0 != w[j].0
  }

  /** The table once the writes are made. */
  function Made(t: Table, w: seq<Write>): (u: Table)
    requires forall i :: 0 <= i < |w| ==> w[i].0 < |t|
    ensures |u| == |t|
    decreases |w|
  {
    if w == [] then t else
      assert forall i :: 0 <= i < |w[1..]| ==> w[1..][i] == w[i + 1];
      Made(t[w[0].0 := w[0].1], w[1..])
  }

  ghost predicate InTable(t: Table, w: seq<Write>) {
    forall i :: 0 <= i < |w| ==> Slot(|t|, w[i].0)
  }

  lemma {:induction false} WritesInTable(t: Table, d: Entry, pos: nat, dist: int, n: nat)
    requires Slot(|t|, pos) && n <= MAX_SWAPS
    ensures InTable(t, Writes(t, d, pos, dist, n))
    decreases MAX_SWAPS - n
  {
    if n < MAX_SWAPS && !Stops(t, d, pos, dist) {
      var existing, next := RingDist(|t|, Home(t[pos].hash), pos), NextSlot(|t|, pos);
      if existing >= dist {
        WritesInTable(t, d, next, dist + 1, n + 1);
      } else {
        WritesInTable(t, t[pos], next, existing + 1, n + 1);
      }
    }
  }

  /** The queue is all a deferred walk leaves. */
  lemma {:induction false} WalkIsMade(t: Table, cur: Table, d: Entry, pos: nat, dist: int, n: nat)
    requires |cur| == |t| && Slot(|t|, pos) && n <= MAX_SWAPS
    ensures InTable(cur, Writes(t, d, pos, dist, n))
    ensures var o := Walk(t, cur, false, d, pos, dist, n);
            o.Placed? ==> o.table == Made(cur, Writes(t, d, pos, dist, n))
    decreases MAX_SWAPS - n
  {
    WritesInTable(t, d, pos, dist, n);
    if n < MAX_SWAPS && !Stops(t, d, pos, dist) {
      var existing, next := RingDist(|t|, Home(t[pos].hash), pos), NextSlot(|t|, pos);
      if existing >= dist {
        WalkIsMade(t, cur, d, next, dist + 1, n + 1);
      } else {
        var rest := Writes(t, t[pos], next, existing + 1, n + 1);
        assert ([(pos, d)] + rest)[1..] == rest;
        WalkIsMade(t, cur[pos := d], t[pos], next, existing + 1, n + 1);
      }
    } else if n < MAX_SWAPS {
      assert [(pos, d)][1..] == [];
    }
  }

  // ------------------------------------------------------------ no slot twice: all is kept

  /** What a deferred walk knows: the slots outside `s` are as they were, the data in
      hand is in no slot, and its key was at most in `s`. */
  ghost predicate Carrying(t: Table, cur: Table, d: Entry, s: set<nat>) {
    && |cur| == |t| && Unique(t) && Unique(cur) && !Empty(d.hash) && d.key !in Contents(cur)
    && (forall p: nat :: p < |t| && p !in s ==> cur[p] == t[p])
    && (forall p: nat :: Live(t, p) && t[p].key == d.key ==> p in s)
  }

  ghost predicate Outside(w: seq<Write>, s: set<nat>) {
    forall i :: 0 <= i < |w| ==> w[i].0 !in s
  }

  lemma TailOutside(w: seq<Write>, s: set<nat>)
    requires w != [] && NoSlotTwice(w) && Outside(w, s)
    ensures NoSlotTwice(w[1..]) && Outside(w[1..], s + {w[0].0})
  {
    forall i, j | 0 <= i < j < |w[1..]| ensures w[1..][i].0 != w[1..][j].0 {
      assert w[1..][i] == w[i + 1] && w[1..][j] == w[j + 1];
    }
    forall i | 0 <= i < |w[1..]| ensures w[1..][i].0 !in s + {w[0].0} {
      assert w[1..][i] == w[i + 1];
    }
  }

  lemma CarrySwap(t: Table, cur: Table, d: Entry, s: set<nat>, pos: nat)
    requires Carrying(t, cur, d, s) && pos !in s && Live(t, pos) && t[pos].key != d.key
    ensures Carrying(t, cur[pos := d], t[pos], s + {pos})
    ensures Contents(cur[pos := d])[t[pos].key := t[pos].value] == Contents(cur)[d.key := d.value]
  {
    assert cur[pos] == t[pos];
    WriteSwap(cur, d, pos);
    assert forall p: nat :: Live(t, p) && t[p].key == t[pos].key ==> p == pos;
  }

  lemma {:induction false} CarryOn(t: Table, cur: Table, d: Entry, pos: nat, dist: int, n: nat, s: set<nat>)
    requires Carrying(t, cur, d, s) && Slot(|t|, pos) && n <= MAX_SWAPS
    requires NoSlotTwice(Writes(t, d, pos, dist, n)) && Outside(Writes(t, d, pos, dist, n), s)
    ensures var o := Walk(t, cur, false, d, pos, dist, n);
            o.Placed? ==> Unique(o.table) && Contents(o.table) == Contents(cur)[d.key := d.value] && o.added
    decreases MAX_SWAPS - n
  {
    hide Carrying, Contents, Unique;
    if n < MAX_SWAPS {
      var w, next := Writes(t, d, pos, dist, n), NextSlot(|t|, pos);
      if Stops(t, d, pos, dist) {
        assert w[0] == (pos, d) && pos !in s;
        CarryEnd(t, cur, d, pos, s);
      } else {
        var existing := RingDist(|t|, Home(t[pos].hash), pos);
        if existing >= dist {
          CarrySize(t, cur, d, s);
          CarryOn(t, cur, d, next, dist + 1, n + 1, s);
        } else {
          assert w[0] == (pos, d) && w[1..] == Writes(t, t[pos], next, existing + 1, n + 1);
          TailOutside(w, s);
          CarrySize(t, cur, d, s);
          CarrySwap(t, cur, d, s, pos);
          CarryOn(t, cur[pos := d], t[pos], next, existing + 1, n + 1, s + {pos});
        }
      }
    } else {
      CarrySize(t, cur, d, s);
    }
  }

  lemma CarrySize(t: Table, cur: Table, d: Entry, s: set<nat>)
    requires Carrying(t, cur, d, s)
    ensures |cur| == |t|
  {
  }

  lemma CarryEnd(t: Table, cur: Table, d: Entry, pos: nat, s: set<nat>)
    requires Carrying(t, cur, d, s) && Slot(|t|, pos) && pos !in s
    ensures !Live(t, pos) || t[pos].key != d.key
    ensures |cur| == |t| && (!Live(t, pos) ==>
              Unique(cur[pos := d]) && Contents(cur[pos := d]) == Contents(cur)[d.key := d.value])
  {
    assert cur[pos] == t[pos];
    if !Live(t, pos) { WriteNew(cur, d, pos); }
  }

  // ------------------------------------------------------------ a slot twice: a key is lost

  /** Every write after the first puts down what the one before took up. */
  ghost predicate Chained(t: Table, w: seq<Write>, d: Entry) {
    && InTable(t, w) && (w != [] ==> w[0].1 == d)
    && forall i :: 0 < i < |w| ==> TakesUp(t, w, i)
  }

  predicate TakesUp(t: Table, w: seq<Write>, i: nat)
    requires 0 < i < |w|
  {
    Live(t, w[i - 1].0) && w[i].1 == t[w[i - 1].0]
  }

  lemma ChainCons(t: Table, d: Entry, pos: nat, rest: seq<Write>)
    requires Live(t, pos) && Chained(t, rest, t[pos])
    ensures Chained(t, [(pos, d)] + rest, d)
  {
    var w := [(pos, d)] + rest;
    assert forall i :: 0 < i < |w| ==> w[i] == rest[i - 1];
    forall i | 0 < i < |w| ensures TakesUp(t, w, i) {
      if i > 1 { assert TakesUp(t, rest, i - 1); }
    }
  }

  lemma {:induction false} WritesChained(t: Table, d: Entry, pos: nat, dist: int, n: nat)
    requires Slot(|t|, pos) && n <= MAX_SWAPS
    ensures Chained(t, Writes(t, d, pos, dist, n), d)
    decreases MAX_SWAPS - n
  {
    hide Chained;
    ChainEmpty(t, d, pos);
    if n < MAX_SWAPS && !Stops(t, d, pos, dist) {
      var existing, next := RingDist(|t|, Home(t[pos].hash), pos), NextSlot(|t|, pos);
      if existing >= dist {
        WritesChained(t, d, next, dist + 1, n + 1);
      } else {
        WritesChained(t, t[pos], next, existing + 1, n + 1);
        ChainCons(t, d, pos, Writes(t, t[pos], next, existing + 1, n + 1));
      }
    }
  }

  lemma ChainEmpty(t: Table, d: Entry, pos: nat)
    requires Slot(|t|, pos)
    ensures Chained(t, [], d) && Chained(t, [(pos, d)], d)
  {
  }

  predicate LastWrite(w: seq<Write>, c: nat) {
    c < |w| && forall i :: c < i < |w| ==> w[i].0 != w[c].0
  }

  /** A slot holds what was last written to it. */
  lemma {:induction false} MadeAt(t: Table, w: seq<Write>, p: nat)
    requires InTable(t, w) && p < |t|
    ensures (forall i :: 0 <= i < |w| ==> w[i].0 != p) ==> Made(t, w)[p] == t[p]
    ensures forall c: nat :: LastWrite(w, c) && w[c].0 == p ==> Made(t, w)[p] == w[c].1
    decreases |w|
  {
    if w != [] {
      var u, rest := t[w[0].0 := w[0].1], w[1..];
      assert forall i :: 0 <= i < |rest| ==> rest[i] == w[i + 1];
      MadeAt(u, rest, p);
      forall c: nat | LastWrite(w, c) && w[c].0 == p
        ensures Made(t, w)[p] == w[c].1
      {
        if c > 0 { assert LastWrite(rest, c - 1); }
      }
    }
  }

  lemma LastWriteExists(w: seq<Write>, i: nat) returns (c: nat)
    requires i < |w|
    ensures LastWrite(w, c) && w[c].0 == w[i].0 && c >= i
  {
    c := i;
    var x := i + 1;
    while x < |w|
      invariant i <= c < x <= |w| && w[c].0 == w[i].0
      invariant forall y :: c < y < x ==> w[y].0 != w[c].0
    {
      if w[x].0 == w[c].0 { c := x; }
      x := x + 1;
    }
  }

  /** The first write that another one replaces. */
  lemma FirstReplaced(w: seq<Write>) returns (a: nat, b: nat)
    requires !NoSlotTwice(w)
    ensures a < b < |w| && w[a].0 == w[b].0 && forall i :: 0 <= i < a ==> LastWrite(w, i)
  {
    var i, j :| 0 <= i < j < |w| && w[i].0 == w[j].0;
    a, b := 0, 0;
    while LastWrite(w, a)
      invariant a <= i && forall x :: 0 <= x < a ==> LastWrite(w, x)
      decreases i - a
    {
      assert a != i;
      a := a + 1;
    }
    b :| a < b < |w| && w[b].0 == w[a].0;
  }

  /** What the first replaced write put down is nowhere afterwards. */
  lemma ReplacedIsLost(t: Table, w: seq<Write>, d: Entry)
    requires Unique(t) && Chained(t, w, d) && !HasKey(t, d.key) && !NoSlotTwice(w)
    ensures exists k :: (k == d.key || HasKey(t, k)) && !HasKey(Made(t, w), k)
  {
    var a, b := FirstReplaced(w);
    var k := w[a].1.key;
    if a > 0 { assert TakesUp(t, w, a); }
    assert k == d.key || HasKey(t, k);
    var u := Made(t, w);
    forall p | Live(u, p)
      ensures u[p].key != k
    {
      NotReplaced(t, w, d, a, b, p);
    }
  }

  lemma NotReplaced(t: Table, w: seq<Write>, d: Entry, a: nat, b: nat, p: nat)
    requires Unique(t) && Chained(t, w, d) && !HasKey(t, d.key)
    requires a < b < |w| && w[a].0 == w[b].0 && forall i :: 0 <= i < a ==> LastWrite(w, i)
    requires Live(Made(t, w), p)
    ensures Made(t, w)[p].key != w[a].1.key
  {
    MadeAt(t, w, p);
    if a > 0 { assert TakesUp(t, w, a) && LastWrite(w, a - 1); }
    if i :| 0 <= i < |w| && w[i].0 == p {
      var c := LastWriteExists(w, i);
      assert c != a;
      if c > 0 {
        assert TakesUp(t, w, c);
        if c < a { assert LastWrite(w, c - 1); }
        assert a > 0 ==> w[c - 1].0 != w[a - 1].0;
      }
    } else {
      assert Live(t, p);
    }
  }

  // ------------------------------------------------------------ the exact condition

  /** A key that is in the table is found in the first lap and overwritten. */
  lemma {:induction false} PresentFound(hf: Word -> Word, t: Table, d: Entry, pos: nat, n: nat, p: nat)
    requires TableOk(hf, t) && Live(t, p) && t[p].key == d.key && t[p].hash == d.hash && n <= MAX_SWAPS
    requires Slot(|t|, pos) && Slot(|t|, d.hash) && Steps(|t|, d.hash, pos) == n <= Steps(|t|, d.hash, p)
    ensures InLap(t, d, pos, n, n) && |Writes(t, d, pos, n, n)| <= 1
    decreases MAX_SWAPS - n
  {
    if n < MAX_SWAPS && pos != p {
      assert Way(t, d.hash, p);
      assert Passes(t, d.hash, pos);
      PosAdvance(|t|, d.hash, pos);
      assert !Stops(t, d, pos, n);
      PresentFound(hf, t, d, NextSlot(|t|, pos), n + 1, p);
    }
  }

  /** On any table, with or without an unused slot, an insert that reports success is a
      map update if and only if it queued no second write for a slot. */
  lemma InsertExactly(hf: Word -> Word, t: Table, key: Word, value: Word)
    requires TableOk(hf, t) && Slot(|t|, hf(key)) && !Empty(hf(key)) && Insert(hf, t, false, key, value).Placed?
    ensures var o := Insert(hf, t, false, key, value);
            && ((Unique(o.table) && Contents(o.table) == Contents(t)[key := value])
                  <==> NoSlotTwice(InsertWrites(hf, t, key, value)))
            && (NoSlotTwice(InsertWrites(hf, t, key, value)) ==> (o.added <==> key !in Contents(t)))
  {
    hide Walk, Writes, TableOk, Contents, InLap, Made;
    var h := hf(key);
    var d := Entry(key, value, h);
    HasKeyContents(t, key);
    if key in Contents(t) {
      var p := SlotOf(t, key);
      LiveHash(hf, t, p);
      PresentFound(hf, t, d, h, 0, p);
      InsertOk(hf, t, key, value);
      UniqueTable(hf, Insert(hf, t, false, key, value).table);
    } else {
      UniqueTable(hf, t);
      if NoSlotTwice(InsertWrites(hf, t, key, value)) {
        CarryOn(t, t, d, h, 0, 0, {});
      } else {
        DroppedKey(t, d, h);
      }
    }
  }

  lemma UniqueTable(hf: Word -> Word, t: Table)
    requires TableOk(hf, t)
    ensures Unique(t)
  {
  }

  lemma DroppedKey(t: Table, d: Entry, h: nat)
    requires Unique(t) && Slot(|t|, h) && d.key !in Contents(t) && !NoSlotTwice(Writes(t, d, h, 0, 0))
    requires Walk(t, t, false, d, h, 0, 0).Placed?
    ensures Contents(Walk(t, t, false, d, h, 0, 0).table) != Contents(t)[d.key := d.value]
  {
    hide Walk, Writes, Contents, Unique;
    var w := Writes(t, d, h, 0, 0);
    HasKeyContents(t, d.key);
    WalkIsMade(t, t, d, h, 0, 0);
    WritesChained(t, d, h, 0, 0);
    ReplacedIsLost(t, w, d);
    var k :| (k == d.key || HasKey(t, k)) && !HasKey(Made(t, w), k);
    HasKeyContents(t, k);
    HasKeyContents(Made(t, w), k);
  }

  // ------------------------------------------------------------ the order of probe distances

  /** The way of every pair in the queue to its slot is passable in the table as it was. */
  ghost predicate WaysOk(hf: Word -> Word, t: Table, w: seq<Write>) {
    forall i :: 0 <= i < |w| ==> WayOk(hf, t, w[i])
  }

  ghost predicate WayOk(hf: Word -> Word, t: Table, x: Write) {
    && Slot(|t|, x.0) && !Empty(x.1.hash) && x.1.hash == hf(x.1.key) && Slot(|t|, x.1.hash)
    && Way(t, x.1.hash, x.0)
  }

  lemma FurtherOn(t: Table, h: nat, pos: nat, dist: int)
    requires CapOk(|t|) && Slot(|t|, h) && Slot(|t|, pos) && Way(t, h, pos) && Passes(t, h, pos)
    requires Steps(|t|, h, pos) <= dist
    ensures var next := NextSlot(|t|, pos);
            Slot(|t|, next) && Way(t, h, next) && Steps(|t|, h, next) <= dist + 1
  {
    hide PowerOfTwo;
    var next := NextSlot(|t|, pos);
    if next != h { WayFurther(t, h, pos, next); }
  }

  lemma {:induction false} WritesWays(hf: Word -> Word, t: Table, d: Entry, pos: nat, dist: int, n: nat)
    requires TableOk(hf, t) && WayOk(hf, t, (pos, d)) && Steps(|t|, d.hash, pos) <= dist && n <= MAX_SWAPS
    ensures WaysOk(hf, t, Writes(t, d, pos, dist, n))
    decreases MAX_SWAPS - n
  {
    hide Way, Passes, ProbeOk, Unique, PowerOfTwo, Stops;
    if n < MAX_SWAPS {
      WaysEnds(t, d, pos, dist);
      if !Stops(t, d, pos, dist) {
        SlotFacts(hf, t, pos);
        var e, next := t[pos], NextSlot(|t|, pos);
        var existing := RingDist(|t|, Home(e.hash), pos);
        if existing >= dist {
          PassesHere(t, d.hash, pos, dist);
          FurtherOn(t, d.hash, pos, dist);
          WritesWays(hf, t, d, next, dist + 1, n + 1);
        } else {
          LiveWay(hf, t, pos);
          FurtherOn(t, e.hash, pos, existing);
          WritesWays(hf, t, e, next, existing + 1, n + 1);
        }
      }
    }
  }

  lemma WaysEnds(t: Table, d: Entry, pos: nat, dist: int)
    requires Slot(|t|, pos)
    ensures !Stops(t, d, pos, dist) ==> t[pos].hash != 0
    ensures !Stops(t, d, pos, dist) && RingDist(|t|, Home(t[pos].hash), pos) < dist ==> Live(t, pos)
  {
  }

  lemma PassesHere(t: Table, h: int, pos: nat, dist: int)
    requires Slot(|t|, pos) && t[pos].hash != 0 && RingDist(|t|, Home(t[pos].hash), pos) >= dist >= Steps(|t|, h, pos)
    ensures Passes(t, h, pos)
  {
  }

  lemma LiveWay(hf: Word -> Word, t: Table, pos: nat)
    requires TableOk(hf, t) && Live(t, pos)
    ensures Slot(|t|, t[pos].hash) && t[pos].hash == hf(t[pos].key) && Way(t, t[pos].hash, pos)
    ensures Passes(t, t[pos].hash, pos) && Steps(|t|, t[pos].hash, pos) <= RingDist(|t|, t[pos].hash, pos)
  {
    assert Way(t, Home(t[pos].hash), pos);
  }

  /** Write `i` of the queue comes to stand in the way of the entry that will be in slot
      `p`: that entry will have to pass the slot, further from its home than the new occupant
      is from its own. */
  ghost predicate InTheWay(t: Table, w: seq<Write>, i: nat, p: nat)
    requires i < |w| && forall x :: 0 <= x < |w| ==> w[x].0 < |t|
  {
    var u := Made(t, w);
    && Live(u, p)
    && Steps(|t|, Home(u[p].hash), w[i].0) < Steps(|t|, Home(u[p].hash), p)
    && RingDist(|t|, Home(w[i].1.hash), w[i].0) < Steps(|t|, Home(u[p].hash), w[i].0)
  }

  ghost predicate NoneInTheWay(t: Table, w: seq<Write>)
    requires forall x :: 0 <= x < |w| ==> w[x].0 < |t|
  {
    forall i: nat, p: nat :: i < |w| && p < |t| ==> !InTheWay(t, w, i, p)
  }

  /** With no slot twice, a slot holds what was written to it, or what it held. */
  lemma MadeOnce(t: Table, w: seq<Write>, p: nat)
    requires InTable(t, w) && NoSlotTwice(w) && p < |t|
    ensures forall i :: 0 <= i < |w| && w[i].0 == p ==> Made(t, w)[p] == w[i].1
    ensures (forall i :: 0 <= i < |w| ==> w[i].0 != p) ==> Made(t, w)[p] == t[p]
  {
    MadeAt(t, w, p);
    assert forall i: nat :: i < |w| ==> LastWrite(w, i);
  }

  /** What lies in slot `p` afterwards had a passable way there before. */
  lemma MadeWay(hf: Word -> Word, t: Table, w: seq<Write>, p: nat)
    requires TableOk(hf, t) && InTable(t, w) && NoSlotTwice(w) && WaysOk(hf, t, w) && Live(Made(t, w), p)
    ensures WayOk(hf, t, (p, Made(t, w)[p]))
  {
    hide Way, Made;
    MadeOnce(t, w, p);
    if i :| 0 <= i < |w| && w[i].0 == p {
      assert WayOk(hf, t, w[i]);
    } else {
      LiveWay(hf, t, p);
    }
  }

  lemma MadeOrder(hf: Word -> Word, t: Table, w: seq<Write>)
    requires TableOk(hf, t) && InTable(t, w) && NoSlotTwice(w) && WaysOk(hf, t, w)
    ensures ProbeOk(Made(t, w)) <==> NoneInTheWay(t, w)
  {
    hide TableOk, Made, WaysOk;
    var u := Made(t, w);
    if ProbeOk(u) {
      forall i: nat, p: nat | i < |w| && p < |t|
        ensures !InTheWay(t, w, i, p)
      {
        MadeOnce(t, w, w[i].0);
        if Live(u, p) && Steps(|t|, Home(u[p].hash), w[i].0) < Steps(|t|, Home(u[p].hash), p) {
          assert Way(u, Home(u[p].hash), p);
          assert Passes(u, Home(u[p].hash), w[i].0);
        }
      }
    } else {
      var p: nat :| Live(u, p) && !Way(u, Home(u[p].hash), p);
      MadeWay(hf, t, w, p);
      var h := Home(u[p].hash);
      var q: nat :| Slot(|t|, q) && Steps(|t|, h, q) < Steps(|t|, h, p) && !Passes(u, h, q);
      assert Passes(t, h, q);
      MadeOnce(t, w, q);
      var i: nat :| i < |w| && w[i].0 == q;
      WrittenUsed(hf, t, w, i);
      assert InTheWay(t, w, i, p);
    }
  }

  lemma WrittenUsed(hf: Word -> Word, t: Table, w: seq<Write>, i: nat)
    requires WaysOk(hf, t, w) && i < |w|
    ensures w[i].1.hash != 0
  {
    assert WayOk(hf, t, w[i]);
  }

  lemma MadeSlots(hf: Word -> Word, t: Table, w: seq<Write>)
    requires TableOk(hf, t) && InTable(t, w) && NoSlotTwice(w) && WaysOk(hf, t, w)
    ensures SlotsOk(hf, Made(t, w))
  {
    hide Made, Way, ProbeOk, Unique, PowerOfTwo;
    var u := Made(t, w);
    MadeOnce(t, w, 0);
    forall p: nat | Slot(|u|, p) && u[p].hash != 0
      ensures 1 <= Home(u[p].hash) < |u| && (Live(u, p) ==> u[p].hash == hf(u[p].key))
    {
      if Live(u, p) {
        MadeWay(hf, t, w, p);
      } else {
        MadeOnce(t, w, p);
        if i :| 0 <= i < |w| && w[i].0 == p { assert WayOk(hf, t, w[i]); }
      }
    }
  }

  /** After an insert that wrote no slot twice, the table is well-formed if and only if none
      of its writes came to stand in the way of an entry. The queue tells before it is made. */
  lemma OrderExactly(hf: Word -> Word, t: Table, key: Word, value: Word)
    requires TableOk(hf, t) && Slot(|t|, hf(key)) && !Empty(hf(key)) && Insert(hf, t, false, key, value).Placed?
    requires NoSlotTwice(InsertWrites(hf, t, key, value))
    ensures var w := InsertWrites(hf, t, key, value);
            InTable(t, w) && (TableOk(hf, Insert(hf, t, false, key, value).table) <==> NoneInTheWay(t, w))
  {
    hide Walk, Writes, Made, Way, Contents, NoneInTheWay, WaysOk;
    var h := hf(key);
    var d := Entry(key, value, h);
    InsertExactly(hf, t, key, value);
    WritesInTable(t, d, h, 0, 0);
    WalkIsMade(t, t, d, h, 0, 0);
    StartWay(hf, t, d);
    WritesWays(hf, t, d, h, 0, 0);
    MadeOrder(hf, t, Writes(t, d, h, 0, 0));
    MadeSlots(hf, t, Writes(t, d, h, 0, 0));
  }

  lemma StartWay(hf: Word -> Word, t: Table, d: Entry)
    requires Slot(|t|, d.hash) && !Empty(d.hash) && d.hash == hf(d.key)
    ensures WayOk(hf, t, (d.hash, d)) && Steps(|t|, d.hash, d.hash) == 0
  {
  }

  /** With the number of entries: what a successful insert on any table leaves. If it wrote
      no slot twice, the table is well-formed unless a write came to stand in the way. */
  lemma AnywhereCounts(hf: Word -> Word, t: Table, key: Word, value: Word, count: nat)
    requires Counts(hf, t, count) && Slot(|t|, hf(key)) && !Empty(hf(key)) && Insert(hf, t, false, key, value).Placed?
    ensures var o := Insert(hf, t, false, key, value);
            var n := count + if o.added then 1 else 0;
            && (OneLap(hf, t, key, value) ==>
                  Counts(hf, o.table, n) && Contents(o.table) == Contents(t)[key := value]
                  && (NoTombstones(t) ==> NoTombstones(o.table)))
            && (NoSlotTwice(InsertWrites(hf, t, key, value)) ==>
                  && n == |Contents(o.table)|
                  && InTable(t, InsertWrites(hf, t, key, value))
                  && (Counts(hf, o.table, n) <==> NoneInTheWay(t, InsertWrites(hf, t, key, value))))
  {
    hide Walk, Writes, Contents, InLap, OneLap, TableOk, NoTombstones, NoSlotTwice, NoneInTheWay;
    InsertExactly(hf, t, key, value);
    MapSize(Contents(t), key, value);
    if NoSlotTwice(InsertWrites(hf, t, key, value)) { OrderExactly(hf, t, key, value); }
    if OneLap(hf, t, key, value) { InsertCounts(hf, t, false, key, value, count); }
  }

  /** Within one lap no slot is written twice. */
  lemma OneLapWritesOnce(hf: Word -> Word, t: Table, key: Word, value: Word)
    requires TableOk(hf, t) && Slot(|t|, hf(key)) && !Empty(hf(key)) && OneLap(hf, t, key, value)
    requires Insert(hf, t, false, key, value).Placed?
    ensures NoSlotTwice(InsertWrites(hf, t, key, value))
  {
    hide Walk, Writes, TableOk, Contents, InLap;
    InsertOk(hf, t, key, value);
    InsertExactly(hf, t, key, value);
    UniqueTable(hf, Insert(hf, t, false, key, value).table);
  }
}
