/** Sorted lists of entries and the maps they stand for: what a reader of stree's B+
    tree sees. */
module StreeListing {
  import opened Keys
  import opened StreeLeaf

  predicate Ascending(s: seq<Entry>) {
    forall i, j :: 0 <= i < j < |s| ==> s[i].key < s[j].key
  }

  /** The map the list stands for. */
  function MapOf(s: seq<Entry>): map<Key, Value> {
    if s == [] then map[] else MapOf(s[..|s| - 1])[s[|s| - 1].key := s[|s| - 1].value]
  }

  /** A list is a sorted, complete account of its map. */
  lemma {:induction false} MapOfIs(s: seq<Entry>)
    requires Ascending(s)
    ensures forall i :: 0 <= i < |s| ==> s[i].key in MapOf(s) && MapOf(s)[s[i].key] == s[i].value
    ensures forall k :: k in MapOf(s) ==> exists i :: 0 <= i < |s| && s[i].key == k
    ensures |MapOf(s)| == |s|
  {
    if s != [] {
      var t := s[..|s| - 1];
      MapOfIs(t);
      assert forall i :: 0 <= i < |t| ==> t[i] == s[i];
      assert MapOf(s).Keys == MapOf(t).Keys + {s[|s| - 1].key};
    }
  }

  lemma MapHas(s: seq<Entry>, i: nat)
    requires Ascending(s) && i < |s|
    ensures Lookup(MapOf(s), s[i].key) == Some(s[i].value)
  {
    MapOfIs(s);
  }

  lemma RowOf(s: seq<Entry>, k: Key) returns (i: nat)
    requires Ascending(s) && k in MapOf(s)
    ensures i < |s| && s[i].key == k
  {
    MapOfIs(s);
    i :| i < |s| && s[i].key == k;
  }

  /** `x` entries are at most `k`, the others above. */
  predicate SplitsAt(s: seq<Entry>, x: nat, k: Key) {
    x <= |s| && (forall i :: 0 <= i < x ==> s[i].key <= k) && (forall i :: x <= i < |s| ==> k < s[i].key)
  }

  /** In an ascending list the neighbours of a place decide. */
  lemma NeighboursDecide(s: seq<Entry>, x: nat, k: Key)
    requires Ascending(s) && x <= |s|
    requires x > 0 ==> s[x - 1].key <= k
    requires x < |s| ==> k < s[x].key
    ensures SplitsAt(s, x, k)
  {
  }

  function InsertedAt(s: seq<Entry>, x: nat, e: Entry): seq<Entry>
    requires x <= |s|
  {
    s[..x] + [e] + s[x..]
  }

  lemma InsertedMiddle(a: seq<Entry>, r: seq<Entry>, b: seq<Entry>, x: nat, e: Entry)
    requires x <= |r|
    ensures InsertedAt(a + r + b, |a| + x, e) == a + InsertedAt(r, x, e) + b
  {
    assert (a + r + b)[..|a| + x] == a + r[..x];
    assert (a + r + b)[|a| + x..] == r[x..] + b;
  }

  /** An absent key inserted at its place extends the map and keeps the order. */
  lemma InsertedIs(s: seq<Entry>, x: nat, e: Entry)
    requires Ascending(s) && SplitsAt(s, x, e.key) && e.key !in MapOf(s)
    ensures Ascending(InsertedAt(s, x, e))
    ensures MapOf(InsertedAt(s, x, e)) == MapOf(s)[e.key := e.value]
  {
    var t := InsertedAt(s, x, e);
    forall i | 0 <= i < |s|
      ensures s[i].key != e.key
    {
      MapHas(s, i);
    }
    InsertedAscends(s, x, e);
    hide Ascending, SplitsAt, MapOf;
    MapHas(t, x);
    forall i | 0 <= i < |s|
      ensures Lookup(MapOf(t), s[i].key) == Some(s[i].value)
    {
      MapHas(t, if i < x then i else i + 1);
    }
    forall k
      ensures Lookup(MapOf(t), k) == Lookup(MapOf(s)[e.key := e.value], k)
    {
      if k in MapOf(s) {
        var i := RowOf(s, k);
        MapHas(s, i);
      } else if k in MapOf(t) {
        var i := RowOf(t, k);
        if i != x { MapHas(s, if i < x then i else i - 1); }
      }
    }
    SameMap(MapOf(t), MapOf(s)[e.key := e.value]);
  }

  lemma InsertedAscends(s: seq<Entry>, x: nat, e: Entry)
    requires Ascending(s) && SplitsAt(s, x, e.key) && forall i :: 0 <= i < |s| ==> s[i].key != e.key
    ensures Ascending(InsertedAt(s, x, e))
  {
  }

  function ErasedAt(s: seq<Entry>, x: nat): seq<Entry>
    requires x < |s|
  {
    s[..x] + s[x + 1..]
  }

  lemma ErasedMiddle(a: seq<Entry>, r: seq<Entry>, b: seq<Entry>, x: nat)
    requires x < |r|
    ensures ErasedAt(a + r + b, |a| + x) == a + ErasedAt(r, x) + b
  {
    assert (a + r + b)[..|a| + x] == a + r[..x];
    assert (a + r + b)[|a| + x + 1..] == r[x + 1..] + b;
  }

  /** An entry taken out takes its key out of the map and nothing else. */
  lemma ErasedIs(s: seq<Entry>, x: nat)
    requires Ascending(s) && x < |s|
    ensures Ascending(ErasedAt(s, x))
    ensures MapOf(ErasedAt(s, x)) == MapOf(s) - {s[x].key}
  {
    ErasedAscends(s, x);
    forall k
      ensures Lookup(MapOf(ErasedAt(s, x)), k) == if k == s[x].key then None else Lookup(MapOf(s), k)
    {
      ErasedLookup(s, x, k);
    }
    hide Ascending, MapOf, ErasedAt;
    OneKeyLess(MapOf(ErasedAt(s, x)), MapOf(s), s[x].key);
  }

  lemma OneKeyLess<K, V>(a: map<K, V>, m: map<K, V>, k: K)
    requires forall q :: Lookup(a, q) == if q == k then None else Lookup(m, q)
    ensures a == m - {k}
  {
    assert forall q :: q in a ==> Lookup(a, q) == Some(a[q]);
    assert forall q :: q in m - {k} ==> Lookup(m, q) == Some(m[q]);
    assert forall q :: q in m - {k} ==> Lookup(a, q) == Lookup(m, q);
  }

  lemma ErasedAscends(s: seq<Entry>, x: nat)
    requires Ascending(s) && x < |s|
    ensures Ascending(ErasedAt(s, x))
  {
  }

  lemma ErasedLookup(s: seq<Entry>, x: nat, k: Key)
    requires Ascending(s) && x < |s|
    ensures Lookup(MapOf(ErasedAt(s, x)), k) == if k == s[x].key then None else Lookup(MapOf(s), k)
  {
    var t := ErasedAt(s, x);
    ErasedAscends(s, x);
    hide Ascending, MapOf;
    if k in MapOf(t) {
      var i := RowOf(t, k);
      MapHas(t, i);
      RowsDiffer(s, x, if i < x then i else i + 1);
      MapHas(s, if i < x then i else i + 1);
    } else if k in MapOf(s) {
      var i := RowOf(s, k);
      MapHas(s, i);
      if i != x { MapHas(t, if i < x then i else i - 1); }
    }
  }

  lemma RowsDiffer(s: seq<Entry>, x: nat, y: nat)
    requires Ascending(s) && x < |s| && y < |s| && x != y
    ensures s[x].key != s[y].key
  {
  }

  lemma UpdatedMiddle(a: seq<Entry>, r: seq<Entry>, b: seq<Entry>, x: nat, e: Entry)
    requires x < |r|
    ensures (a + r + b)[|a| + x := e] == a + r[x := e] + b
  {
  }

  /** A new value for one entry is a new value for its key and nothing else. */
  lemma UpdatedIs(s: seq<Entry>, x: nat, val: Value)
    requires Ascending(s) && x < |s|
    ensures var t := s[x := Entry(s[x].key, val)];
            Ascending(t) && MapOf(t) == MapOf(s)[s[x].key := val]
  {
    var t := s[x := Entry(s[x].key, val)];
    assert Ascending(t);
    hide Ascending, MapOf;
    forall k
      ensures Lookup(MapOf(t), k) == Lookup(MapOf(s)[s[x].key := val], k)
    {
      if k in MapOf(t) {
        var i := RowOf(t, k);
        MapHas(t, i);
        MapHas(s, i);
        if i != x { RowsDiffer(s, x, i); }
      } else if k in MapOf(s) {
        var i := RowOf(s, k);
        MapHas(t, i);
      } else {
        MapHas(t, x);
      }
    }
    SameMap(MapOf(t), MapOf(s)[s[x].key := val]);
  }
}
