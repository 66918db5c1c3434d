/** Keys and values.

    Every ordered container in this project uses its keys only through a strict
    total order: std::string::compare in tree3 and radix, a user comparator in
    stree. Keys are byte strings, so there are countably many of them, and every
    strict total order on a countable set embeds into the order of the reals. A
    key is therefore modelled by its place in that order. For the byte-wise order
    the embedding is `Rank` below. */
module Keys {

  type Byte = b: nat | b < 256

  type Key = real

  /** A value is an opaque byte string. */
  type Value = seq<Byte>

  datatype Option<+T> = None | Some(value: T)

  /** What a map holds for a key. */
  function Lookup<K, V>(m: map<K, V>, k: K): Option<V> {
    if k in m then Some(m[k]) else None
  }

  /** The byte-wise order of std::string::compare: the first difference decides,
      and a proper prefix comes first. */
  predicate Less(a: seq<Byte>, b: seq<Byte>) {
    b != [] && (a == [] || a[0] < b[0] || (a[0] == b[0] && Less(a[1..], b[1..])))
  }

  /** Reads the string as the digits 1..256 of a fraction in base 257. */
  function Rank(s: seq<Byte>): (r: Key)
    ensures 0.0 <= r < 1.0
    ensures r == 0.0 <==> s == []
  {
    if s == [] then 0.0 else (s[0] as real + 1.0 + Rank(s[1..])) / 257.0
  }

  /** Comparing strings is comparing ranks. */
  lemma {:induction false} RankOrder(a: seq<Byte>, b: seq<Byte>)
    ensures Less(a, b) <==> Rank(a) < Rank(b)
  {
    if a != [] && b != [] {
      if a[0] == b[0] {
        RankOrder(a[1..], b[1..]);
      } else if a[0] < b[0] {
        assert a[0] as real + 1.0 <= b[0] as real;
      } else {
        assert b[0] as real + 1.0 <= a[0] as real;
      }
    }
  }

  /** Different strings have different ranks. */
  lemma {:induction false} RankInjective(a: seq<Byte>, b: seq<Byte>)
    ensures Rank(a) == Rank(b) ==> a == b
  {
    if a != [] && b != [] {
      if a[0] == b[0] {
        RankInjective(a[1..], b[1..]);
        assert a == [a[0]] + a[1..] && b == [b[0]] + b[1..];
      } else if a[0] < b[0] {
        assert a[0] as real + 1.0 <= b[0] as real;
      } else {
        assert b[0] as real + 1.0 <= a[0] as real;
      }
    }
  }

  // ------------------------------------------------------------ shared by the containers

  /** Maps that hold the same for every key are equal. */
  lemma SameMap<K, V>(m: map<K, V>, n: map<K, V>)
    requires forall k :: Lookup(m, k) == Lookup(n, k)
    ensures m == n
  {
    assert forall k :: k in m ==> Lookup(n, k) == Some(m[k]);
    assert forall k :: k in n ==> Lookup(m, k) == Some(n[k]);
  }

  /** Of the pairs in `all`, those in `rows` were given to the callback: in order, each
      once, and all of them unless it stopped at the last. */
  ghost predicate Visited<T>(rows: seq<T>, stopped: bool, all: seq<T>, cb: T -> bool) {
    && rows <= all && (if stopped then rows != [] && cb(rows[|rows| - 1]) else rows == all)
    && forall i :: 0 <= i < |rows| && !(stopped && i + 1 == |rows|) ==> !cb(rows[i])
  }

  /** There is always an address above all those in use. */
  lemma {:induction false} Bound(s: set<nat>) returns (b: nat)
    ensures forall x :: x in s ==> x < b
  {
    if s == {} {
      b := 0;
    } else {
      var x :| x in s;
      b := Bound(s - {x});
      if x >= b { b := x + 1; }
      assert forall y :: y in s ==> y == x || y in s - {x};
    }
  }
}
