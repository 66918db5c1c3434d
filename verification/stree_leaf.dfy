/** leaf_node_t of stree's B+ tree: entries lie in slots that never move, and an
    index array lists the slots in key order. */
module StreeLeaf {
  import opened Keys

  /** A persistent pointer; 0 is null. */
  type Ptr = nat

  datatype Entry = Entry(key: Key, value: Value)

  /** The image of a leaf in persistent memory. Only the first `size` indices are
      live; the others list the free slots. */
  datatype Leaf = Leaf(entries: seq<Entry>, idxs: seq<nat>, size: nat, prev: Ptr, next: Ptr)

  /** A live entry with its slot. */
  datatype Item = Item(key: Key, value: Value, slot: nat)

  predicate Permutation(idxs: seq<nat>) {
    && (forall i :: 0 <= i < |idxs| ==> idxs[i] < |idxs|)
    && (forall i, j :: 0 <= i < j < |idxs| ==> idxs[i] != idxs[j])
  }

  /** The index array is a permutation of the slots. */
  predicate Shaped(l: Leaf, cap: nat) {
    |l.entries| == cap && |l.idxs| == cap && l.size <= cap && Permutation(l.idxs)
  }

  /** The live entries in index order. */
  function Items(l: Leaf): (s: seq<Item>)
    requires Shaped(l, |l.idxs|)
    ensures |s| == l.size
  {
    seq(l.size, i requires 0 <= i < l.size => Item(l.entries[l.idxs[i]].key, l.entries[l.idxs[i]].value, l.idxs[i]))
  }

  predicate Ordered(s: seq<Item>) {
    forall i, j :: 0 <= i < j < |s| ==> s[i].key < s[j].key
  }

  function NewLeaf(cap: nat, blank: Entry): Leaf {
    Leaf(seq(cap, _ => blank), seq(cap, i => i), 0, 0, 0)
  }

  /** The position of the first item not below `k`. */
  predicate IsLowerBound(s: seq<Item>, k: Key, p: nat) {
    && p <= |s|
    && (forall i :: 0 <= i < p ==> s[i].key < k)
    && (forall i :: p <= i < |s| ==> k <= s[i].key)
  }

  // ------------------------------------------------------------ the operations on images

  /** insert and insert_idx: the entry goes to the first free slot, whose index moves
      to position `pos`. */
  function Insert(l: Leaf, pos: nat, k: Key, v: Value): Leaf
    requires l.size < |l.idxs| && pos <= l.size && l.idxs[l.size] < |l.entries|
  {
    var slot := l.idxs[l.size];
    l.(entries := l.entries[slot := Entry(k, v)],
       idxs := l.idxs[..pos] + [slot] + l.idxs[pos..l.size] + l.idxs[l.size + 1..],
       size := l.size + 1)
  }

  /** remove_idx: the index at `pos` moves behind the remaining live ones. */
  function Remove(l: Leaf, pos: nat): Leaf
    requires pos < l.size <= |l.idxs|
  {
    l.(idxs := l.idxs[..pos] + l.idxs[pos + 1..l.size] + [l.idxs[pos]] + l.idxs[l.size..],
       size := l.size - 1)
  }

  /** The position of `k`, or the size. */
  function Find(s: seq<Item>, k: Key): (p: nat)
    ensures p <= |s| && (p < |s| ==> s[p].key == k) && forall i :: 0 <= i < p ==> s[i].key != k
  {
    if s == [] || s[0].key == k then 0 else 1 + Find(s[1..], k)
  }

  /** erase */
  function Erased(l: Leaf, k: Key): Leaf
    requires Shaped(l, |l.idxs|)
  {
    var p := Find(Items(l), k);
    if p == l.size then l else Remove(l, p)
  }

  lemma ErasedIs(l: Leaf, k: Key, p: nat)
    requires Shaped(l, |l.idxs|) && Ordered(Items(l)) && IsLowerBound(Items(l), k, p)
    ensures Erased(l, k) == if p < l.size && Items(l)[p].key == k then Remove(l, p) else l
  {
    var s := Items(l);
    var q := Find(s, k);
    if p < l.size && s[p].key == k {
      assert q <= p && s[q].key == k;
    }
  }

  /** What is left of a full leaf after its upper half has moved out. */
  function LowerHalf(l: Leaf): Leaf {
    l.(size := l.size / 2)
  }

  /** The new leaf that receives the upper half, in order, in its first slots. */
  function UpperHalf(l: Leaf, blank: Entry): (u: Leaf)
    requires Shaped(l, |l.idxs|)
  {
    var n := l.size - l.size / 2;
    Leaf(seq(|l.idxs|, i requires 0 <= i < |l.idxs| => if i < n then l.entries[l.idxs[l.size / 2 + i]] else blank),
         seq(|l.idxs|, i => i), n, 0, 0)
  }

  // ------------------------------------------------------------ what they do

  lemma ItemsAt(l: Leaf, cap: nat, i: nat)
    requires Shaped(l, cap) && i < l.size
    ensures Items(l)[i] == Item(l.entries[l.idxs[i]].key, l.entries[l.idxs[i]].value, l.idxs[i])
  {
  }

  /** Which old index position moves to position `i` on an insert. */
  function InsertFrom(pos: nat, size: nat, i: nat): nat {
    if i < pos then i else if i == pos then size else if i <= size then i - 1 else i
  }

  /** Which old index position moves to position `i` on a removal. */
  function RemoveFrom(pos: nat, size: nat, i: nat): nat {
    if i < pos then i else if i + 1 < size then i + 1 else if i + 1 == size then pos else i
  }

  lemma InsertIdxs(l: Leaf, cap: nat, pos: nat, k: Key, v: Value)
    requires Shaped(l, cap) && pos <= l.size < cap
    ensures var m := Insert(l, pos, k, v);
            && |m.idxs| == cap && (forall i :: 0 <= i < cap ==> m.idxs[i] == l.idxs[InsertFrom(pos, l.size, i)])
            && Permutation(m.idxs)
  {
  }

  lemma RemoveIdxs(l: Leaf, cap: nat, pos: nat)
    requires Shaped(l, cap) && pos < l.size
    ensures var m := Remove(l, pos);
            && |m.idxs| == cap && (forall i :: 0 <= i < cap ==> m.idxs[i] == l.idxs[RemoveFrom(pos, l.size, i)])
            && Permutation(m.idxs)
  {
  }

  /** After an insert the index array is a permutation again, the items are the old
      ones with the new one at its place, and no surviving entry has changed slot. */
  lemma InsertOk(l: Leaf, cap: nat, pos: nat, k: Key, v: Value)
    requires Shaped(l, cap) && pos <= l.size < cap
    ensures var m := Insert(l, pos, k, v);
            && Shaped(m, cap)
            && Items(m) == Items(l)[..pos] + [Item(k, v, l.idxs[l.size])] + Items(l)[pos..]
  {
    var m := Insert(l, pos, k, v);
    InsertIdxs(l, cap, pos, k, v);
    var s := Items(l)[..pos] + [Item(k, v, l.idxs[l.size])] + Items(l)[pos..];
    hide Permutation, Insert;
    forall i | 0 <= i < m.size
      ensures Items(m)[i] == s[i]
    {
      if i != pos { SlotOther(l, cap, InsertFrom(pos, l.size, i), l.size); }
    }
  }

  lemma SlotOther(l: Leaf, cap: nat, i: nat, j: nat)
    requires Shaped(l, cap) && i < cap && j < cap && i != j
    ensures l.idxs[i] != l.idxs[j]
  {
  }

  lemma RemoveOk(l: Leaf, cap: nat, pos: nat)
    requires Shaped(l, cap) && pos < l.size
    ensures var m := Remove(l, pos);
            Shaped(m, cap) && Items(m) == Items(l)[..pos] + Items(l)[pos + 1..]
  {
    var m := Remove(l, pos);
    RemoveIdxs(l, cap, pos);
    hide Permutation, Remove;
    var s := Items(l)[..pos] + Items(l)[pos + 1..];
    forall i | 0 <= i < m.size
      ensures Items(m)[i] == s[i]
    {
      assert m.idxs[i] == l.idxs[RemoveFrom(pos, l.size, i)];
    }
  }

  /** A split keeps the lower items in their slots; the upper ones get new slots but
      keep their order, keys and values. */
  lemma HalvesOk(l: Leaf, cap: nat, blank: Entry)
    requires Shaped(l, cap)
    ensures Shaped(LowerHalf(l), cap) && Items(LowerHalf(l)) == Items(l)[..l.size / 2]
    ensures var u := UpperHalf(l, blank);
            && Shaped(u, cap) && u.size == l.size - l.size / 2
            && forall i :: 0 <= i < u.size ==>
                 Items(u)[i] == Item(Items(l)[l.size / 2 + i].key, Items(l)[l.size / 2 + i].value, i)
  {
    var lo, u := LowerHalf(l), UpperHalf(l, blank);
    forall i | 0 <= i < lo.size
      ensures Items(lo)[i] == Items(l)[i]
    {
      ItemsAt(lo, cap, i);
      ItemsAt(l, cap, i);
    }
    forall i | 0 <= i < u.size
      ensures Items(u)[i] == Item(Items(l)[l.size / 2 + i].key, Items(l)[l.size / 2 + i].value, i)
    {
      ItemsAt(u, cap, i);
      ItemsAt(l, cap, l.size / 2 + i);
    }
  }

  // ------------------------------------------------------------ the leaf in memory

  lemma MovedBehind(s: seq<nat>, pos: nat, size: nat)
    requires pos < size <= |s|
    ensures (s[..pos] + s[pos + 1..size] + s[size - 1..])[size - 1 := s[pos]]
         == s[..pos] + s[pos + 1..size] + [s[pos]] + s[size..]
  {
  }

  class LeafNode {
    const entries: array<Entry>
    const idxs: array<nat>
    var size: nat
    var prev: Ptr
    var next: Ptr

    /** The image the leaf shows. */
    ghost function Image(): Leaf
      reads this, entries, idxs
    {
      Leaf(entries[..], idxs[..], size, prev, next)
    }

    ghost predicate Valid()
      reads this, entries, idxs
    {
      Shaped(Image(), idxs.Length)
    }

    constructor (capacity: nat, blank: Entry)
      ensures Image() == NewLeaf(capacity, blank) && Valid() && fresh(entries) && fresh(idxs)
    {
      entries := new Entry[capacity](_ => blank);
      idxs := new nat[capacity](i => i);
      size, prev, next := 0, 0, 0;
    }

    /** The first position whose key is not below `k`. */
    method LowerBound(k: Key) returns (p: nat)
      requires Valid() && Ordered(Items(Image()))
      ensures IsLowerBound(Items(Image()), k, p)
    {
      ghost var s := Items(Image());
      var lo, hi := 0, size;
      while lo < hi
        invariant lo <= hi <= size
        invariant forall i :: 0 <= i < lo ==> s[i].key < k
        invariant forall i :: hi <= i < size ==> k <= s[i].key
      {
        var mid := (lo + hi) / 2;
        assert s[mid].key == entries[idxs[mid]].key;
        if entries[idxs[mid]].key < k {
          lo := mid + 1;
        } else {
          hi := mid;
        }
      }
      return lo;
    }

    /** insert followed by insert_idx. */
    method InsertAt(pos: nat, k: Key, v: Value)
      requires Valid() && pos <= size < idxs.Length
      modifies this`size, entries, idxs
      ensures Image() == Insert(old(Image()), pos, k, v)
    {
      ghost var before := idxs[..];
      var slot := idxs[size];
      entries[slot] := Entry(k, v);
      MakeRoom(pos);
      idxs[pos] := slot;
      size := size + 1;
      assert idxs[..] == before[..pos] + [slot] + before[pos..size - 1] + before[size..];
    }

    /** copy_backward: moves the live indices from `pos` on one place up. */
    method MakeRoom(pos: nat)
      requires pos <= size < idxs.Length
      modifies idxs
      ensures forall j :: 0 <= j < idxs.Length ==>
                idxs[j] == if pos < j <= size then old(idxs[j - 1]) else old(idxs[j])
    {
      var i := size;
      while i > pos
        invariant pos <= i <= size
        invariant forall j :: 0 <= j < idxs.Length ==>
          idxs[j] == if i < j <= size then old(idxs[j - 1]) else old(idxs[j])
      {
        idxs[i] := idxs[i - 1];
        i := i - 1;
      }
    }

    method RemoveIdx(pos: nat)
      requires Valid() && pos < size
      modifies this`size, idxs
      ensures Image() == Remove(old(Image()), pos)
    {
      ghost var before := idxs[..];
      var toReplace := idxs[pos];
      CloseGap(pos);
      assert idxs[..] == before[..pos] + before[pos + 1..size] + before[size - 1..];
      idxs[size - 1] := toReplace;
      size := size - 1;
      MovedBehind(before, pos, size + 1);
    }

    /** copy: moves the live indices behind `pos` one place down. */
    method CloseGap(pos: nat)
      requires pos < size <= idxs.Length
      modifies idxs
      ensures idxs[..] == old(idxs[..pos] + idxs[pos + 1..size] + idxs[size - 1..])
    {
      var i := pos;
      while i + 1 < size
        invariant pos <= i < size
        invariant forall j :: 0 <= j < idxs.Length ==>
          idxs[j] == if pos <= j < i then old(idxs[j + 1]) else old(idxs[j])
      {
        idxs[i] := idxs[i + 1];
        i := i + 1;
      }
    }

    /** erase: removes the key if it is there. */
    method Erase(k: Key) returns (deleted: nat)
      requires Valid() && Ordered(Items(Image()))
      modifies this`size, idxs
      ensures Valid() && Image() == Erased(old(Image()), k)
      ensures deleted == old(size) - size
    {
      ghost var s := Items(Image());
      var p := LowerBound(k);
      ErasedIs(Image(), k, p);
      assert p < size ==> s[p].key == entries[idxs[p]].key;
      if p == size || entries[idxs[p]].key != k {
        return 0;
      }
      RemoveOk(Image(), idxs.Length, p);
      RemoveIdx(p);
      return 1;
    }

    /** move: takes the upper half of a full leaf. */
    method MoveFrom(other: LeafNode, ghost blank: Entry)
      requires other.Valid() && Valid() && other.idxs.Length == idxs.Length
      requires Image() == NewLeaf(idxs.Length, blank)
      requires other != this && other.entries != entries && other.idxs != idxs
      modifies this`size, entries, other`size
      ensures Image() == UpperHalf(old(other.Image()), blank)
      ensures other.Image() == LowerHalf(old(other.Image()))
    {
      var middle := other.size / 2;
      var count := MoveItems(other, middle, blank);
      size := count;
      other.size := other.size - count;
      assert idxs[..] == seq(idxs.Length, i => i);
      assert entries[..] == UpperHalf(old(other.Image()), blank).entries;
    }

    method MoveItems(other: LeafNode, middle: nat, ghost blank: Entry) returns (count: nat)
      requires other.Valid() && entries.Length == other.idxs.Length == other.entries.Length && middle <= other.size
      requires forall i :: 0 <= i < entries.Length ==> entries[i] == blank
      requires other.entries != entries
      modifies entries
      ensures count == other.size - middle
      ensures forall i :: 0 <= i < entries.Length ==>
                entries[i] == if i < count then other.entries[other.idxs[middle + i]] else blank
    {
      count := 0;
      while middle + count < other.size
        invariant middle + count <= other.size
        invariant forall i :: 0 <= i < entries.Length ==>
          entries[i] == if i < count then other.entries[other.idxs[middle + i]] else blank
      {
        entries[count] := other.entries[other.idxs[middle + count]];
        count := count + 1;
      }
    }
  }
}
