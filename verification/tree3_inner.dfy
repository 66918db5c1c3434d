/** An inner node of tree3 in memory: the loops of InnerUpdateAfterSplit that shift its
    arrays and move their upper half away do what the functions on values say. */
module Tree3Inner {
  import opened Keys
  import opened Tree3Shape

  class KVInnerNode {
    var keycount: nat
    const keys: array<Key>
    const children: array<Ptr>

    ghost predicate Valid()
      reads this
    {
      keys.Length == INNER_KEYS + 1 && children.Length == INNER_KEYS + 2 && keycount <= INNER_KEYS + 1
    }

    ghost function Contents(): Inner
      reads this, keys, children
    {
      Inner(keycount, keys[..], children[..])
    }

    constructor ()
      ensures Valid() && fresh(keys) && fresh(children) && keycount == 0
      ensures Contents() == Inner(0, [0.0, 0.0, 0.0, 0.0, 0.0], [0, 0, 0, 0, 0, 0])
    {
      keycount := 0;
      keys := new Key[INNER_KEYS + 1](_ => 0.0);
      children := new Ptr[INNER_KEYS + 2](_ => 0);
      new;
      assert keys[..] == [0.0, 0.0, 0.0, 0.0, 0.0];
      assert children[..] == [0, 0, 0, 0, 0, 0];
    }

    /** The key enters at `idx`, the node right of child `idx`. */
    method Insert(idx: nat, key: Key, node: Ptr)
      requires Valid() && idx <= keycount <= INNER_KEYS
      modifies this`keycount, keys, children
      ensures Valid() && Contents() == InsertChild(old(Contents()), idx, key, node)
    {
      ShiftIn(keys, idx, keycount, key);
      ShiftIn(children, idx + 1, keycount + 1, node);
      keycount := keycount + 1;
    }

    /** The upper two keys and three children move to a new node; the middle key is for the
        parent. */
    method MoveUpper() returns (ni: KVInnerNode, newSplitKey: Key)
      requires Valid() && keycount == INNER_KEYS + 1
      modifies this`keycount, children
      ensures fresh(ni) && ni.Valid() && Valid() && newSplitKey == old(keys[MIDPOINT])
      ensures ni.Contents() == UpperHalf(old(Contents())) && Contents() == LowerHalf(old(Contents()))
    {
      ghost var was := Contents();
      ni := new KVInnerNode();
      CopyUpper(keys, UPPER, ni.keys);
      CopyUpper(children, UPPER, ni.children);
      Clear(children, UPPER, 0);
      ni.keycount := MIDPOINT;
      newSplitKey := keys[MIDPOINT];
      keycount := MIDPOINT;
      assert ni.keys[..] == UpperHalf(was).keys && ni.children[..] == UpperHalf(was).children;
      assert children[..] == LowerHalf(was).children;
    }
  }

  /** Shifts a[idx..last] one place up and puts `x` before it. */
  method ShiftIn<T>(a: array<T>, idx: nat, last: nat, x: T)
    requires idx <= last < a.Length
    modifies a
    ensures a[..] == old(a[..idx] + [x] + a[idx..last] + a[last + 1..])
  {
    var i := last;
    while i > idx
      invariant idx <= i <= last
      invariant forall j :: 0 <= j < a.Length ==> a[j] == if i < j <= last then old(a[j - 1]) else old(a[j])
    {
      a[i] := a[i - 1];
      i := i - 1;
    }
    a[idx] := x;
  }

  /** Copies what stands from place `at` on to the front of another array. */
  method CopyUpper<T>(a: array<T>, at: nat, b: array<T>)
    requires a != b && at <= a.Length == b.Length
    modifies b
    ensures forall j :: 0 <= j < b.Length ==> b[j] == if j < a.Length - at then a[at + j] else old(b[j])
  {
    var i := at;
    while i < a.Length
      invariant at <= i <= a.Length
      invariant forall j :: 0 <= j < b.Length ==> b[j] == if j < i - at then a[at + j] else old(b[j])
    {
      b[i - at] := a[i];
      i := i + 1;
    }
  }

  /** What is left where pointers were moved from. */
  method Clear<T>(a: array<T>, at: nat, x: T)
    requires at <= a.Length
    modifies a
    ensures forall j :: 0 <= j < a.Length ==> a[j] == if j < at then old(a[j]) else x
  {
    var i := at;
    while i < a.Length
      invariant at <= i <= a.Length
      invariant forall j :: 0 <= j < a.Length ==> a[j] == if at <= j < i then x else old(a[j])
    {
      a[i] := x;
      i := i + 1;
    }
  }
}
