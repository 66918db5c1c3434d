/** The eviction callback's scan of the list, during which the background thread goes on. */
module HeteroRadixScan {
  import opened Keys
  import opened OrderedCache
  import opened HeteroRadix
  import opened HeteroRadixSafety
  import opened HeteroRadixCrash

  /** What the background thread does after each load of the scan. */
  ghost predicate Schedule(s: State, bg: seq<seq<Event>>)
    decreases |bg|
  {
    bg != [] ==> BgRun(bg[0]) && Run(s, bg[0], false) && Schedule(After(s, bg[0]), bg[1..])
  }

  /** The state in which load number `n` is made. */
  function Seen(s: State, bg: seq<seq<Event>>, n: nat): State
    requires Schedule(s, bg) && n <= |bg|
    decreases n
  {
    if n == 0 then s else Seen(After(s, bg[0]), bg[1..], n - 1)
  }

  lemma {:induction false} SeenNext(s: State, bg: seq<seq<Event>>, n: nat)
    requires Schedule(s, bg) && n < |bg|
    ensures var t := Seen(s, bg, n);
            BgRun(bg[n]) && Run(t, bg[n], false) && Seen(s, bg, n + 1) == After(t, bg[n])
    decreases n
  {
    if n > 0 { SeenNext(After(s, bg[0]), bg[1..], n - 1); }
  }

  /** What the background thread may make of a cell. */
  predicate Later(v: CellVal, w: CellVal) {
    w == v || (v.InLog? && w.InTree?) || (v == TombVolatile && w == TombPersistent)
  }

  /** The background thread changes no cell that may go, and no list. */
  lemma BgSparesPick(s: State, e: Event)
    requires Inv(s) && BgEvent(e) && Enabled(s, e)
    ensures var t := Apply(s, e);
            && Inv(t) && t.user == s.user && t.spec == s.spec && t.maxSize == s.maxSize
            && t.cache.lru == s.cache.lru && t.cache.index == s.cache.index
            && t.cache.cells.Keys == s.cache.cells.Keys
            && forall id :: id in s.cache.cells ==>
                 t.cache.cells[id].key == s.cache.cells[id].key
                 && Later(s.cache.cells[id].val, t.cache.cells[id].val)
                 && (Evictable(s.cache.cells[id].val) ==> t.cache.cells[id] == s.cache.cells[id])
  {
    hide Ok, OwnerOk, CellsOk, TreeOk, LogOk, AddrOk;
    KeepStep(s, e);
  }

  lemma {:induction false} BgRunSparesPick(s: State, es: seq<Event>)
    requires Inv(s) && BgRun(es) && Run(s, es, false)
    ensures var t := After(s, es);
            && Inv(t) && t.user == s.user && t.spec == s.spec && t.maxSize == s.maxSize
            && t.cache.lru == s.cache.lru && t.cache.index == s.cache.index
            && t.cache.cells.Keys == s.cache.cells.Keys
            && forall id :: id in s.cache.cells ==>
                 t.cache.cells[id].key == s.cache.cells[id].key
                 && Later(s.cache.cells[id].val, t.cache.cells[id].val)
                 && (Evictable(s.cache.cells[id].val) ==> t.cache.cells[id] == s.cache.cells[id])
    decreases |es|
  {
    hide Inv, Enabled, Apply;
    if es != [] {
      assert BgEvent(es[0]);
      BgSparesPick(s, es[0]);
      BgRunSparesPick(Apply(s, es[0]), es[1..]);
    }
  }

  /** What a scan of a list at rest finds: the least recently used node that may go. */
  function Victim(lru: seq<NodeId>, cells: map<NodeId, Cell<CellVal>>): Option<NodeId> {
    if lru == [] then None
    else
      var last := lru[|lru| - 1];
      if last in cells && Evictable(cells[last].val) then Some(last) else Victim(lru[..|lru| - 1], cells)
  }

  /** The cells looked at in the first `n` loads could not go. */
  ghost predicate Passed(s: State, bg: seq<seq<Event>>, n: nat)
    requires Schedule(s, bg) && n <= |bg| == |s.cache.lru|
  {
    forall i :: 0 <= i < n ==> !Evictable(CellOf(Seen(s, bg, i), s.cache.lru[|bg| - 1 - i]))
  }

  lemma PassedOn(s: State, bg: seq<seq<Event>>, n: nat)
    requires Schedule(s, bg) && n < |bg| == |s.cache.lru| && Passed(s, bg, n)
    requires !Evictable(CellOf(Seen(s, bg, n), s.cache.lru[|bg| - 1 - n]))
    ensures Passed(s, bg, n + 1)
  {
  }

  /** If the background thread does nothing, the rest of the list decides. */
  ghost predicate AtRest(s: State, bg: seq<seq<Event>>, t: State, n: nat)
    requires n <= |bg| == |s.cache.lru|
  {
    (forall i :: 0 <= i < |bg| ==> bg[i] == []) ==>
      t == s && Victim(s.cache.lru, s.cache.cells) == Victim(s.cache.lru[..|bg| - n], s.cache.cells)
  }

  lemma AtRestOn(s: State, bg: seq<seq<Event>>, t: State, n: nat, id: NodeId)
    requires n < |bg| == |s.cache.lru| && AtRest(s, bg, t, n) && Run(t, bg[n], false)
    requires id == s.cache.lru[|bg| - 1 - n] && !Evictable(CellOf(t, id)) && id in t.cache.cells
    ensures AtRest(s, bg, After(t, bg[n]), n + 1)
  {
    assert s.cache.lru[..|bg| - n][..|bg| - n - 1] == s.cache.lru[..|bg| - n - 1];
  }

  lemma AtRestEnds(s: State, bg: seq<seq<Event>>, t: State, n: nat)
    requires n <= |bg| == |s.cache.lru| && AtRest(s, bg, t, n) && forall i :: 0 <= i < |bg| ==> bg[i] == []
    ensures t == s
    ensures n == |bg| ==> Victim(s.cache.lru, s.cache.cells) == None
    ensures n < |bg| ==> var id := s.cache.lru[|bg| - 1 - n];
              id in s.cache.cells && Evictable(s.cache.cells[id].val) ==>
                Victim(s.cache.lru, s.cache.cells) == Some(id)
  {
  }

  /** evict_cb: scans the list from its tail. Load number `i` is of the last node but `i`,
      and `bg[i]` is what the background thread does after it. The answer is the first node
      whose cell was found to be evictable, and it still is when the scan is over. */
  method EvictCallback(s: State, bg: seq<seq<Event>>) returns (t: State, r: Option<NodeId>, n: nat)
    requires Inv(s) && Schedule(s, bg) && |bg| == |s.cache.lru|
    ensures n <= |bg| && t == Seen(s, bg, n) && Inv(t) && MayGo(t, r)
    ensures t.cache.lru == s.cache.lru && t.cache.index == s.cache.index
    ensures r.Some? ==> n < |bg| && r.value == s.cache.lru[|bg| - 1 - n]
    ensures r.None? ==> n == |bg|
    ensures forall i :: 0 <= i < n ==> !Evictable(CellOf(Seen(s, bg, i), s.cache.lru[|bg| - 1 - i]))
    ensures (forall i :: 0 <= i < |bg| ==> bg[i] == []) ==> t == s && r == Victim(s.cache.lru, s.cache.cells)
  {
    hide Inv, Schedule, Seen, Passed, AtRest, Run, BgRun, Victim;
    t, n := s, 0;
    ScanStart(s, bg);
    while n < |bg|
      invariant n <= |bg| && t == Seen(s, bg, n) && Inv(t) && Passed(s, bg, n) && AtRest(s, bg, t, n)
      invariant t.cache.lru == s.cache.lru && t.cache.index == s.cache.index
    {
      var id := s.cache.lru[|bg| - 1 - n];
      InList(t, id);
      if !t.cache.cells[id].val.InLog? && t.cache.cells[id].val != TombVolatile {
        r := Some(id);
        PassedAll(s, bg, n);
        if forall i :: 0 <= i < |bg| ==> bg[i] == [] { AtRestEnds(s, bg, t, n); }
        return;
      }
      PassedOn(s, bg, n);
      SeenNext(s, bg, n);
      AtRestOn(s, bg, t, n, id);
      BgRunSparesPick(t, bg[n]);
      t := After(t, bg[n]);
      n := n + 1;
    }
    r := None;
    PassedAll(s, bg, n);
    if forall i :: 0 <= i < |bg| ==> bg[i] == [] { AtRestEnds(s, bg, t, n); }
  }

  lemma ScanStart(s: State, bg: seq<seq<Event>>)
    requires Schedule(s, bg) && |bg| == |s.cache.lru|
    ensures Seen(s, bg, 0) == s && Passed(s, bg, 0) && AtRest(s, bg, s, 0)
  {
    assert s.cache.lru[..|bg|] == s.cache.lru;
  }

  lemma PassedAll(s: State, bg: seq<seq<Event>>, n: nat)
    requires Schedule(s, bg) && n <= |bg| == |s.cache.lru| && Passed(s, bg, n)
    ensures forall i :: 0 <= i < n ==> !Evictable(CellOf(Seen(s, bg, i), s.cache.lru[|bg| - 1 - i]))
  {
  }

  lemma InList(s: State, id: NodeId)
    requires Inv(s) && id in s.cache.lru
    ensures id in s.cache.cells
  {
    hide OwnerOk, CellsOk, TreeOk, LogOk, AddrOk, UserOk, BgOk;
  }

  /** The node found may be given away later too: the background thread does not touch it
      any more. */
  lemma PickStays(s: State, pick: Option<NodeId>, es: seq<Event>)
    requires Inv(s) && MayGo(s, pick) && BgRun(es) && Run(s, es, false)
    ensures MayGo(After(s, es), pick)
  {
    hide Inv;
    BgRunSparesPick(s, es);
  }
}
