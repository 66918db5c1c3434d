/** The sorting in tree3: the 49 keys of a leaf that is split, and what stands at their
    midpoint. */
module Tree3Sort {
  import opened Keys
  import opened Tree3Pool

  predicate Sorted(s: seq<Key>) {
    forall i, j :: 0 <= i < j < |s| ==> s[i] <= s[j]
  }

  ghost predicate Distinct(s: seq<Key>) {
    forall i, j :: 0 <= i < j < |s| ==> s[i] != s[j]
  }

  function CountAbove(s: seq<Key>, k: Key): nat {
    if s == [] then 0 else (if s[|s| - 1] > k then 1 else 0) + CountAbove(s[..|s| - 1], k)
  }

  lemma {:induction false} CountConcat(a: seq<Key>, b: seq<Key>, k: Key)
    ensures CountAbove(a + b, k) == CountAbove(a, k) + CountAbove(b, k)
  {
    if b == [] {
      assert a + b == a;
    } else {
      var c := b[..|b| - 1];
      assert (a + b)[..|a + b| - 1] == a + c;
      CountConcat(a, c, k);
    }
  }

  lemma CountInsert(s: seq<Key>, p: nat, x: Key, k: Key)
    requires p <= |s|
    ensures CountAbove(s[..p] + [x] + s[p..], k) == CountAbove(s, k) + if x > k then 1 else 0
  {
    CountConcat(s[..p] + [x], s[p..], k);
    CountConcat(s[..p], [x], k);
    CountConcat(s[..p], s[p..], k);
    assert s == s[..p] + s[p..];
    assert [x][..0] == [];
  }

  lemma {:induction false} CountAll(s: seq<Key>, k: Key)
    requires forall i :: 0 <= i < |s| ==> s[i] > k
    ensures CountAbove(s, k) == |s|
  {
    if s != [] { CountAll(s[..|s| - 1], k); }
  }

  lemma {:induction false} CountNone(s: seq<Key>, k: Key)
    requires forall i :: 0 <= i < |s| ==> s[i] <= k
    ensures CountAbove(s, k) == 0
  {
    if s != [] { CountNone(s[..|s| - 1], k); }
  }

  /** `s` lists what `keys` lists. */
  ghost predicate SameKeys(s: seq<Key>, keys: seq<Key>) {
    && |s| == |keys| && (forall x :: x in s <==> x in keys)
    && forall k :: CountAbove(s, k) == CountAbove(keys, k)
  }

  lemma SameInsert(s: seq<Key>, keys: seq<Key>, p: nat, x: Key)
    requires SameKeys(s, keys) && p <= |s|
    ensures SameKeys(s[..p] + [x] + s[p..], keys + [x])
  {
    var r := s[..p] + [x] + s[p..];
    assert s == s[..p] + s[p..];
    assert forall y :: y in r <==> y in s || y == x;
    forall k ensures CountAbove(r, k) == CountAbove(keys + [x], k) {
      CountInsert(s, p, x, k);
      assert (keys + [x])[..|keys|] == keys;
    }
  }

  /** std::sort */
  method Sort(keys: seq<Key>) returns (s: seq<Key>)
    ensures Sorted(s) && SameKeys(s, keys)
    ensures Distinct(keys) ==> Distinct(s)
  {
    hide SameKeys;
    s := [];
    SameNone();
    assert keys[..0] == [];
    for i := 0 to |keys|
      invariant Sorted(s) && SameKeys(s, keys[..i]) && (Distinct(keys) ==> Distinct(s))
    {
      var p := Place(s, keys[i]);
      SameInsert(s, keys[..i], p, keys[i]);
      assert keys[..i] + [keys[i]] == keys[..i + 1];
      if Distinct(keys) { NewHere(s, keys, i); }
      s := s[..p] + [keys[i]] + s[p..];
    }
    assert keys[..|keys|] == keys;
  }

  lemma SameNone()
    ensures SameKeys([], [])
  {
  }

  lemma NewHere(s: seq<Key>, keys: seq<Key>, i: nat)
    requires i < |keys| && SameKeys(s, keys[..i]) && Distinct(keys)
    ensures forall y :: 0 <= y < |s| ==> s[y] != keys[i]
  {
    forall y | 0 <= y < |s| ensures s[y] != keys[i] {
      assert s[y] in s;
      var z :| 0 <= z < i && keys[..i][z] == s[y];
      assert keys[z] == s[y];
    }
  }

  method Place(s: seq<Key>, k: Key) returns (p: nat)
    requires Sorted(s)
    ensures p <= |s| && (forall i :: 0 <= i < p ==> s[i] <= k) && (forall i :: p <= i < |s| ==> k < s[i])
  {
    p := |s|;
    while p > 0 && s[p - 1] > k
      invariant p <= |s| && forall i :: p <= i < |s| ==> k < s[i]
    {
      p := p - 1;
    }
  }

  /** Around the midpoint of 49 distinct keys: 24 are above it, and 25 are not. */
  lemma Midpoint(s: seq<Key>, keys: seq<Key>)
    requires Sorted(s) && Distinct(s) && SameKeys(s, keys) && |keys| == LEAF_KEYS + 1
    ensures CountAbove(keys, s[LEAF_MIDPOINT]) == LEAF_KEYS - LEAF_MIDPOINT
    ensures s[LEAF_MIDPOINT] in keys && s[0] in keys && s[LEAF_KEYS] in keys
    ensures s[0] <= s[LEAF_MIDPOINT] < s[LEAF_KEYS]
  {
    var k := s[LEAF_MIDPOINT];
    var a, b := s[..LEAF_MIDPOINT + 1], s[LEAF_MIDPOINT + 1..];
    assert s == a + b;
    CountConcat(a, b, k);
    CountNone(a, k);
    CountAll(b, k);
  }
}
