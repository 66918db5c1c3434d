/** inner_node_t of stree's B+ tree: arrays of separators and children whose first
    places are live. A separator is not a copy of a key but a pointer to a key inside
    a leaf. */
module StreeInner {
  import opened StreeLeaf

  /** A pointer to the key in one slot of one leaf. */
  datatype Sep = Sep(leaf: Ptr, slot: nat)

  /** The image of an inner node: `size` separators and `size + 1` children are live,
      what lies behind them is left over. */
  datatype Inner = Inner(level: nat, entries: seq<Sep>, children: seq<Ptr>, size: nat)

  predicate Sized(n: Inner, cap: nat) {
    |n.entries| == cap && |n.children| == cap + 1 && n.size <= cap
  }

  function NewInner(cap: nat, level: nat, noSep: Sep): Inner {
    Inner(level, seq(cap, _ => noSep), seq(cap + 1, _ => 0), 0)
  }

  // ------------------------------------------------------------ the operations on images

  /** A new root above two children. */
  function NewRoot(cap: nat, level: nat, noSep: Sep, sep: Sep, left: Ptr, right: Ptr): Inner
    requires cap > 0
  {
    var n := NewInner(cap, level, noSep);
    n.(entries := n.entries[0 := sep], children := n.children[0 := left][1 := right], size := 1)
  }

  /** update_splitted_child, after its search: the separator takes place `i` and the
      children around it become `left` and `right`. */
  function SplitChild(n: Inner, i: nat, sep: Sep, left: Ptr, right: Ptr): Inner
    requires i <= n.size < |n.entries| && |n.children| == |n.entries| + 1
  {
    n.(entries := n.entries[..i] + [sep] + n.entries[i..n.size] + n.entries[n.size + 1..],
       children := n.children[..i] + [left, right] + n.children[i + 1..n.size + 1] + n.children[n.size + 2..],
       size := n.size + 1)
  }

  /** What move leaves behind: the lower half, without the partition key. */
  function Lower(n: Inner): Inner {
    n.(size := n.size / 2)
  }

  /** What move brings to an empty node: all behind the partition key. */
  function Upper(n: Inner, into: Inner): Inner
    requires n.size >= 1 && Sized(n, |n.entries|) && Sized(into, |n.entries|)
  {
    var h := n.size / 2;
    into.(entries := n.entries[h + 1..n.size] + into.entries[n.size - h - 1..],
          children := n.children[h + 1..n.size + 1] + into.children[n.size - h..],
          size := n.size - h - 1)
  }

  /** delete_with_child: drops the separator at `i` and its left or right child. The
      last places keep what they held. */
  function DeleteChild(n: Inner, i: nat, left: bool): Inner
    requires i < n.size && Sized(n, |n.entries|)
  {
    var c := if left then i else i + 1;
    n.(entries := n.entries[..i] + n.entries[i + 1..n.size] + n.entries[n.size - 1..],
       children := n.children[..c] + n.children[c + 1..n.size + 1] + n.children[n.size..],
       size := n.size - 1)
  }

  /** inherit_child */
  function Inherit(n: Inner, i: nat, child: Ptr, left: bool): Inner
    requires i + 1 < |n.children|
  {
    n.(children := n.children[(if left then i else i + 1) := child])
  }

  /** replace */
  function Replace(n: Inner, i: nat, sep: Sep): Inner
    requires i < |n.entries|
  {
    n.(entries := n.entries[i := sep])
  }

  // ------------------------------------------------------------ what they do, place by place

  /** A split child keeps every other separator and child in order. */
  lemma SplitChildAt(n: Inner, cap: nat, i: nat, sep: Sep, left: Ptr, right: Ptr)
    requires Sized(n, cap) && i <= n.size < cap
    ensures var r := SplitChild(n, i, sep, left, right);
            && Sized(r, cap) && r.size == n.size + 1 && r.level == n.level
            && (forall x :: 0 <= x < i ==> r.entries[x] == n.entries[x])
            && r.entries[i] == sep
            && (forall x :: i < x < r.size ==> r.entries[x] == n.entries[x - 1])
            && (forall x :: 0 <= x < i ==> r.children[x] == n.children[x])
            && r.children[i] == left && r.children[i + 1] == right
            && (forall x :: i + 1 < x <= r.size ==> r.children[x] == n.children[x - 1])
  {
  }

  /** The two halves and the partition key between them are the old node. */
  lemma HalvesAt(n: Inner, cap: nat, into: Inner)
    requires Sized(n, cap) && Sized(into, cap) && n.size >= 3
    ensures var l, u, h := Lower(n), Upper(n, into), n.size / 2;
            && Sized(l, cap) && Sized(u, cap) && 1 <= l.size && 1 <= u.size && l.size + 1 + u.size == n.size
            && n.entries[..n.size] == l.entries[..l.size] + [n.entries[h]] + u.entries[..u.size]
            && n.children[..n.size + 1] == l.children[..l.size + 1] + u.children[..u.size + 1]
            && (forall x :: 0 <= x < u.size ==> u.entries[x] == n.entries[h + 1 + x])
            && (forall x :: 0 <= x <= u.size ==> u.children[x] == n.children[h + 1 + x])
  {
  }

  lemma DeleteChildAt(n: Inner, cap: nat, i: nat, left: bool)
    requires Sized(n, cap) && i < n.size
    ensures var r, c := DeleteChild(n, i, left), if left then i else i + 1;
            && Sized(r, cap) && r.size == n.size - 1 && r.level == n.level
            && (forall x :: 0 <= x < i ==> r.entries[x] == n.entries[x])
            && (forall x :: i <= x < r.size ==> r.entries[x] == n.entries[x + 1])
            && (forall x :: 0 <= x < c ==> r.children[x] == n.children[x])
            && (forall x :: c <= x <= r.size ==> r.children[x] == n.children[x + 1])
            && r.entries[n.size - 1] == n.entries[n.size - 1] && r.children[n.size] == n.children[n.size]
  {
  }

  // ------------------------------------------------------------ the node in memory

  lemma LeftPut(c: seq<Ptr>, i: nat, size: nat, left: Ptr, right: Ptr)
    requires i < size < |c|
    ensures (c[..i + 1] + [right] + c[i + 1..size] + c[size + 1..])[i := left]
         == c[..i] + [left, right] + c[i + 1..size] + c[size + 1..]
  {
  }

  class InnerNode {
    const level: nat
    const entries: array<Sep>
    const children: array<Ptr>
    var size: nat

    ghost function Image(): Inner
      reads this, entries, children
    {
      Inner(level, entries[..], children[..], size)
    }

    ghost predicate Valid()
      reads this, entries, children
    {
      Sized(Image(), entries.Length)
    }

    constructor (capacity: nat, nodeLevel: nat, noSep: Sep)
      ensures Image() == NewInner(capacity, nodeLevel, noSep) && Valid() && fresh(entries) && fresh(children)
    {
      level := nodeLevel;
      entries := new Sep[capacity](_ => noSep);
      children := new Ptr[capacity + 1](_ => 0);
      size := 0;
    }

    /** update_splitted_child, after its search. */
    method UpdateSplittedChild(i: nat, sep: Sep, left: Ptr, right: Ptr)
      requires Valid() && i <= size < entries.Length
      modifies this`size, entries, children
      ensures Image() == SplitChild(old(Image()), i, sep, left, right)
    {
      ghost var c := children[..];
      InsertAt(entries, i, size, sep);
      size := size + 1;
      InsertChild(i, left, right, c);
    }

    /** The new child goes right of place `i`, the old one there gives way to `left`. */
    method InsertChild(i: nat, left: Ptr, right: Ptr, ghost c: seq<Ptr>)
      requires i < size < children.Length && c == children[..]
      modifies children
      ensures children[..] == c[..i] + [left, right] + c[i + 1..size] + c[size + 1..]
    {
      InsertAt(children, i + 1, size, right);
      assert children[..] == c[..i + 1] + [right] + c[i + 1..size] + c[size + 1..];
      children[i] := left;
      LeftPut(c, i, size, left, right);
    }

    /** move: takes everything behind the partition key of `other`, which is returned. */
    method MoveFrom(other: InnerNode) returns (partition: Sep)
      requires Valid() && other.Valid() && entries.Length == other.entries.Length
      requires size == 0 && other.size > 1
      requires other != this && other.entries != entries && other.children != children
      modifies this`size, entries, children, other`size
      ensures Image() == Upper(old(other.Image()), old(Image())).(level := level)
      ensures other.Image() == Lower(old(other.Image()))
      ensures partition == old(other.entries[other.size / 2])
    {
      var half := other.size / 2;
      var newSize := other.size - half - 1;
      partition := other.entries[half];
      Copy(other.entries, half + 1, other.size, entries, 0);
      Copy(other.children, half + 1, other.size + 1, children, 0);
      size := newSize;
      other.size := other.size - (newSize + 1);
      ghost var o := old(other.Image());
      assert entries[..] == o.entries[half + 1..o.size] + old(entries[..])[newSize..];
      assert children[..] == o.children[half + 1..o.size + 1] + old(children[..])[newSize + 1..];
    }

    /** delete_with_child */
    method DeleteWithChild(i: nat, left: bool)
      requires Valid() && i < size
      modifies this`size, entries, children
      ensures Image() == DeleteChild(old(Image()), i, left)
    {
      var c := if left then i else i + 1;
      CloseGap(entries, i, size);
      CloseGap(children, c, size + 1);
      size := size - 1;
    }

    method InheritChild(i: nat, child: Ptr, left: bool)
      requires Valid() && i < size
      modifies children
      ensures Image() == Inherit(old(Image()), i, child, left)
    {
      if left {
        children[i] := child;
      } else {
        children[i + 1] := child;
      }
    }

    method ReplaceEntry(i: nat, sep: Sep)
      requires Valid() && i < entries.Length
      modifies entries
      ensures Image() == Replace(old(Image()), i, sep)
    {
      entries[i] := sep;
    }
  }

  /** std::copy_backward of a[first..last] one place up. */
  method CopyBackward<T>(a: array<T>, first: nat, last: nat)
    requires first <= last < a.Length
    modifies a
    ensures forall j :: 0 <= j < a.Length ==> a[j] == if first < j <= last then old(a[j - 1]) else old(a[j])
  {
    var i := last;
    while i > first
      invariant first <= i <= last
      invariant forall j :: 0 <= j < a.Length ==> a[j] == if i < j <= last then old(a[j - 1]) else old(a[j])
    {
      a[i] := a[i - 1];
      i := i - 1;
    }
  }

  /** Shifts a[first..last] up and puts `x` before it. */
  method InsertAt<T>(a: array<T>, first: nat, last: nat, x: T)
    requires first <= last < a.Length
    modifies a
    ensures a[..] == old(a[..first] + [x] + a[first..last] + a[last + 1..])
  {
    CopyBackward(a, first, last);
    a[first] := x;
  }

  /** std::move of a[at + 1..last] one place down. */
  method CloseGap<T>(a: array<T>, at: nat, last: nat)
    requires at < last <= a.Length
    modifies a
    ensures a[..] == old(a[..at] + a[at + 1..last] + a[last - 1..])
  {
    var i := at;
    while i + 1 < last
      invariant at <= i < last
      invariant forall j :: 0 <= j < a.Length ==> a[j] == if at <= j < i then old(a[j + 1]) else old(a[j])
    {
      a[i] := a[i + 1];
      i := i + 1;
    }
  }

  /** std::move of a[first..last] to b, from place `to` on. */
  method Copy<T>(a: array<T>, first: nat, last: nat, b: array<T>, to: nat)
    requires a != b && first <= last <= a.Length && to + (last - first) <= b.Length
    modifies b
    ensures forall j :: 0 <= j < b.Length ==>
              b[j] == if to <= j < to + (last - first) then a[first + (j - to)] else old(b[j])
  {
    var i := 0;
    while first + i < last
      invariant first + i <= last
      invariant forall j :: 0 <= j < b.Length ==> b[j] == if to <= j < to + i then a[first + (j - to)] else old(b[j])
    {
      b[to + i] := a[first + i];
      i := i + 1;
    }
  }
}
