/** The LRU cache of the radix engine: a list of nodes ordered by use and an
    ordered map from keys to list nodes. A node never leaves the list; eviction
    gives it to another key. A `NodeId` stands for the node's address, because a
    queue entry remembers the node it was made for. */
module OrderedCache {
  import opened Keys

  type NodeId = nat

  datatype Cell<+V> = Cell(key: Key, val: V)

  datatype Cache<+V> = Cache(lru: seq<NodeId>, cells: map<NodeId, Cell<V>>, index: map<Key, NodeId>)

  predicate Distinct<T(==)>(s: seq<T>) {
    forall i, j :: 0 <= i < j < |s| ==> s[i] != s[j]
  }

  /** Map keys and list keys are in bijection through the stored positions. */
  ghost predicate Ok<V>(c: Cache<V>, maxSize: nat) {
    && Distinct(c.lru)
    && |c.lru| <= maxSize
    && (forall id :: id in c.lru <==> id in c.cells)
    && (forall id :: id in c.cells ==> c.cells[id].key in c.index && c.index[c.cells[id].key] == id)
    && (forall k :: k in c.index ==> c.index[k] in c.cells && c.cells[c.index[k]].key == k)
  }

  /** The list without one node, the others in order. */
  function Without(s: seq<NodeId>, id: NodeId): (r: seq<NodeId>)
    ensures id !in s ==> r == s
    ensures id in s ==> |r| == |s| - 1
    ensures forall x :: x != id ==> (x in r <==> x in s)
  {
    if s == [] then [] else if s[0] == id then s[1..] else [s[0]] + Without(s[1..], id)
  }

  lemma {:induction false} WithoutDistinct(s: seq<NodeId>, id: NodeId)
    requires Distinct(s)
    ensures Distinct(Without(s, id)) && id !in Without(s, id)
  {
    if s != [] {
      WithoutDistinct(s[1..], id);
      if s[0] == id {
        assert id !in s[1..];
      } else {
        assert s[0] !in s[1..];
        assert s[0] !in Without(s[1..], id);
      }
    }
  }

  ghost predicate Before(s: seq<NodeId>, x: NodeId, y: NodeId) {
    exists i, j :: 0 <= i < j < |s| && s[i] == x && s[j] == y
  }

  lemma BeforeCons(s: seq<NodeId>, x: NodeId, y: NodeId)
    requires s != []
    ensures Before(s, x, y) <==> (s[0] == x && y in s[1..]) || Before(s[1..], x, y)
  {
    var t := s[1..];
    if Before(s, x, y) {
      var i, j :| 0 <= i < j < |s| && s[i] == x && s[j] == y;
      assert t[j - 1] == y;
      if i > 0 { assert t[i - 1] == x; }
    }
    if s[0] == x && y in t {
      var j :| 0 <= j < |t| && t[j] == y;
      assert s[j + 1] == y;
    }
    if Before(t, x, y) {
      var i, j :| 0 <= i < j < |t| && t[i] == x && t[j] == y;
      assert s[i + 1] == x && s[j + 1] == y;
    }
  }

  /** Taking one node out keeps the relative order of all others. */
  lemma {:induction false} WithoutKeepsOrder(s: seq<NodeId>, id: NodeId, x: NodeId, y: NodeId)
    requires x != id && y != id
    ensures Before(Without(s, id), x, y) <==> Before(s, x, y)
  {
    if s != [] {
      BeforeCons(s, x, y);
      WithoutKeepsOrder(s[1..], id, x, y);
      if s[0] != id {
        var r := Without(s, id);
        assert r[1..] == Without(s[1..], id);
        BeforeCons(r, x, y);
      }
    }
  }

  /** ordered_cache::put with the answer of the eviction callback and the address
      of a newly allocated node. `None` is the null pointer of a failed eviction. */
  function CachePut<V>(c: Cache<V>, maxSize: nat, k: Key, v: V, victim: Option<NodeId>, spare: NodeId)
    : Option<(Cache<V>, NodeId)>
    requires victim.Some? ==> victim.value in c.cells
  {
    if k in c.index then
      var id := c.index[k];
      Some((Cache([id] + Without(c.lru, id), c.cells[id := Cell(k, v)], c.index), id))
    else if |c.lru| < maxSize then
      Some((Cache([spare] + c.lru, c.cells[spare := Cell(k, v)], c.index[k := spare]), spare))
    else if victim.Some? then
      var id := victim.value;
      Some((Cache([id] + Without(c.lru, id), c.cells[id := Cell(k, v)], (c.index - {c.cells[id].key})[k := id]), id))
    else
      None
  }

  /** ordered_cache::get: promotion moves the node to the front. */
  function CachePromote<V>(c: Cache<V>, k: Key): Cache<V> {
    if k in c.index then c.(lru := [c.index[k]] + Without(c.lru, c.index[k])) else c
  }

  lemma FrontOk<V>(c: Cache<V>, maxSize: nat, id: NodeId)
    requires Ok(c, maxSize) && id in c.cells
    ensures var l := [id] + Without(c.lru, id);
            Distinct(l) && |l| == |c.lru| && forall x :: x in l <==> x in c.cells
  {
    WithoutDistinct(c.lru, id);
  }

  lemma CachePromoteOk<V>(c: Cache<V>, maxSize: nat, k: Key)
    requires Ok(c, maxSize)
    ensures Ok(CachePromote(c, k), maxSize)
  {
    if k in c.index { FrontOk(c, maxSize, c.index[k]); }
  }

  /** Reading a cached key with promotion puts its node in front; every node keeps its key
      and value, and no two other nodes change their relative order. */
  lemma CachePromoteOrder<V>(c: Cache<V>, maxSize: nat, k: Key, x: NodeId, y: NodeId)
    requires Ok(c, maxSize)
    ensures var d := CachePromote(c, k);
            && d.cells == c.cells && d.index == c.index
            && (k !in c.index ==> d == c)
            && (k in c.index ==>
                  && |d.lru| == |c.lru| > 0 && d.lru[0] == c.index[k]
                  && (x != c.index[k] && y != c.index[k] ==> (Before(d.lru, x, y) <==> Before(c.lru, x, y))))
  {
    if k in c.index {
      var id := c.index[k];
      var d := CachePromote(c, k);
      FrontOk(c, maxSize, id);
      if x != id && y != id {
        BeforeCons(d.lru, x, y);
        assert d.lru[1..] == Without(c.lru, id);
        WithoutKeepsOrder(c.lru, id, x, y);
      }
    }
  }

  /** What a successful put leaves behind: the bijection and the size bound hold,
      the touched node is at the front with the new value, and every other node is
      as before. */
  ghost predicate PutDone<V>(c: Cache<V>, d: Cache<V>, id: NodeId, maxSize: nat, k: Key, v: V) {
    && Ok(d, maxSize)
    && |d.lru| > 0 && d.lru[0] == id && id in d.cells && d.cells[id] == Cell(k, v)
    && k in d.index && d.index[k] == id
    && (forall j :: j != id ==> (j in d.cells <==> j in c.cells))
    && (forall j :: j != id && j in c.cells ==> d.cells[j] == c.cells[j])
  }

  lemma ConsDistinct(s: seq<NodeId>, id: NodeId)
    requires Distinct(s) && id !in s
    ensures Distinct([id] + s) && forall x :: x in [id] + s <==> x == id || x in s
  {
    assert forall i :: 0 < i < |[id] + s| ==> ([id] + s)[i] == s[i - 1];
  }

  lemma PutHit<V>(c: Cache<V>, maxSize: nat, k: Key, v: V, victim: Option<NodeId>, spare: NodeId)
    requires Ok(c, maxSize) && spare !in c.cells && k in c.index
    requires victim.Some? ==> victim.value in c.cells
    ensures var r := CachePut(c, maxSize, k, v, victim, spare);
            r.Some? && PutDone(c, r.value.0, r.value.1, maxSize, k, v) && r.value.0.index == c.index
  {
    FrontOk(c, maxSize, c.index[k]);
  }

  lemma PutNew<V>(c: Cache<V>, maxSize: nat, k: Key, v: V, victim: Option<NodeId>, spare: NodeId)
    requires Ok(c, maxSize) && spare !in c.cells && k !in c.index && |c.lru| < maxSize
    requires victim.Some? ==> victim.value in c.cells
    ensures var r := CachePut(c, maxSize, k, v, victim, spare);
            && r.Some? && r.value.1 == spare && PutDone(c, r.value.0, spare, maxSize, k, v)
            && r.value.0.index.Keys == c.index.Keys + {k}
  {
    ConsDistinct(c.lru, spare);
  }

  lemma PutEvict<V>(c: Cache<V>, maxSize: nat, k: Key, v: V, victim: Option<NodeId>, spare: NodeId)
    requires Ok(c, maxSize) && spare !in c.cells && k !in c.index && |c.lru| >= maxSize
    requires victim.Some? && victim.value in c.cells
    ensures var r := CachePut(c, maxSize, k, v, victim, spare);
            && r.Some? && r.value.1 == victim.value && PutDone(c, r.value.0, victim.value, maxSize, k, v)
            && r.value.0.index.Keys == c.index.Keys - {c.cells[victim.value].key} + {k}
  {
    hide Without, Distinct;
    FrontOk(c, maxSize, victim.value);
  }

  /** A put fails exactly on a full cache whose callback found no victim, and otherwise does
      what `PutDone` says, with the key's own node, a new one while there is room, or the
      victim. */
  lemma CachePutOk<V>(c: Cache<V>, maxSize: nat, k: Key, v: V, victim: Option<NodeId>, spare: NodeId)
    requires Ok(c, maxSize) && spare !in c.cells
    requires victim.Some? ==> victim.value in c.cells
    ensures var r := CachePut(c, maxSize, k, v, victim, spare);
            && (r.None? <==> k !in c.index && |c.lru| == maxSize && victim.None?)
            && (r.Some? ==>
                  && PutDone(c, r.value.0, r.value.1, maxSize, k, v)
                  && r.value.1 == (if k in c.index then c.index[k]
                                   else if |c.lru| < maxSize then spare else victim.value))
  {
    if k in c.index {
      PutHit(c, maxSize, k, v, victim, spare);
    } else if |c.lru| < maxSize {
      PutNew(c, maxSize, k, v, victim, spare);
    } else if victim.Some? {
      PutEvict(c, maxSize, k, v, victim, spare);
    }
  }

  /** A put changes the relative order of no two untouched nodes. */
  lemma CachePutOrder<V>(c: Cache<V>, maxSize: nat, k: Key, v: V, victim: Option<NodeId>, spare: NodeId,
                         x: NodeId, y: NodeId)
    requires Ok(c, maxSize) && spare !in c.cells
    requires victim.Some? ==> victim.value in c.cells
    ensures var r := CachePut(c, maxSize, k, v, victim, spare);
            r.Some? && x != r.value.1 && y != r.value.1 ==>
              (Before(r.value.0.lru, x, y) <==> Before(c.lru, x, y))
  {
    var r := CachePut(c, maxSize, k, v, victim, spare);
    if r.Some? && x != r.value.1 && y != r.value.1 {
      var (d, id) := r.value;
      BeforeCons(d.lru, x, y);
      assert d.lru[1..] == Without(c.lru, id);
      WithoutKeepsOrder(c.lru, id, x, y);
    }
  }

  /** The class itself: the list and the map are overwritten in place. */
  class LruCache<V(0)> {
    var lru: seq<NodeId>
    var cells: map<NodeId, Cell<V>>
    var index: map<Key, NodeId>
    var nextNode: NodeId
    const maxSize: nat

    ghost predicate Valid()
      reads this
    {
      Ok(Contents(), maxSize) && forall id :: id in cells ==> id < nextNode
    }

    ghost function Contents(): Cache<V>
      reads this
    {
      Cache(lru, cells, index)
    }

    constructor (maxSize: nat)
      ensures Valid() && this.maxSize == maxSize && Contents() == Cache([], map[], map[])
    {
      this.maxSize := maxSize;
      lru, cells, index, nextNode := [], map[], map[], 0;
    }

    /** Returns the node that now holds the key, or `None` when nothing could be
        evicted; then nothing has changed. */
    method Put(key: Key, v: V, evict: (seq<NodeId>, map<NodeId, Cell<V>>) -> Option<NodeId>)
      returns (r: Option<NodeId>)
      requires Valid()
      requires evict(lru, cells).Some? ==> evict(lru, cells).value in cells
      modifies this
      ensures Valid()
      ensures var spec := CachePut(old(Contents()), maxSize, key, v, old(evict(lru, cells)), old(nextNode));
              if spec.Some? then r == Some(spec.value.1) && Contents() == spec.value.0
              else r == None && Contents() == old(Contents())
    {
      ghost var victim := evict(lru, cells);
      CachePutOk(Contents(), maxSize, key, v, victim, nextNode);
      if key !in index {
        if |lru| < maxSize {
          var node := nextNode;
          nextNode := nextNode + 1;
          lru := [node] + lru;
          cells := cells[node := Cell(key, v)];
          index := index[key := node];
          return Some(node);
        }
        var lit := evict(lru, cells);
        if lit.None? {
          return None;
        }
        index := index - {cells[lit.value].key};
        lru := [lit.value] + Without(lru, lit.value);
        cells := cells[lit.value := Cell(key, v)];
        index := index[key := lit.value];
        return lit;
      }
      var node := index[key];
      lru := [node] + Without(lru, node);
      cells := cells[node := Cell(key, v)];
      return Some(node);
    }

    method Get(key: Key, promote: bool) returns (r: Option<NodeId>)
      requires Valid()
      modifies this
      ensures Valid()
      ensures r == Lookup(index, key)
      ensures Contents() == if promote then CachePromote(old(Contents()), key) else old(Contents())
    {
      CachePromoteOk(Contents(), maxSize, key);
      if key !in index {
        return None;
      }
      if promote {
        lru := [index[key]] + Without(lru, index[key]);
      }
      return Some(index[key]);
    }
  }
}
