/** b_tree_base of stree: the operations on the tree in persistent memory. */
module Stree {
  import opened Keys
  import opened StreeLeaf
  import opened StreeInner
  import opened StreeListing
  import opened StreeTree
  import opened StreeInsert
  import opened StreeSplit
  import opened StreeSplitInner
  import opened StreeCollapse
  import opened StreeDelete
  import opened StreeErase
  import opened StreeErasePath
  import opened StreeEraseSteps
  import opened StreeFind
  import opened StreeLeafSplit
  import opened StreePath
  import opened StreeRemove

  /** What a crash right after a transaction would leave, with its ghost view. */
  datatype Boundary = Boundary(mem: Mem, view: View)

  /** A well-formed tree holding `s`. */
  ghost predicate Holds(b: Boundary, cap: nat, s: map<Key, Value>) {
    Inv(b.mem, b.view, cap) && Contents(b.mem, b.view) == s
  }

  class BTree {
    const cap: nat
    const blank: Entry
    const noSep: Sep
    var mem: Mem
    ghost var view: View
    /** Every transaction boundary so far. */
    ghost var log: seq<Boundary>

    ghost predicate Valid()
      reads this
    {
      Inv(mem, view, cap)
    }

    ghost function Map(): map<Key, Value>
      reads this
    {
      Contents(mem, view)
    }

    /** Inner nodes that are allocated but in use nowhere. */
    ghost function Lost(): set<Ptr>
      reads this
    {
      LostNodes(mem, view)
    }

    /** A tree is one empty leaf. */
    constructor (capacity: nat, blankEntry: Entry, nullSep: Sep, q: Ptr)
      requires capacity >= 3 && q != 0
      ensures Valid() && Map() == map[] && log == [] && cap == capacity && Lost() == {}
    {
      cap, blank, noSep := capacity, blankEntry, nullSep;
      mem := Mem(map[q := NewLeaf(capacity, blankEntry)], map[], q, 0);
      view := View([q], map[q := 0], map[q := 1], {}, map[], [0]);
      log := [];
      new;
      EmptyTree(cap, blank, q);
    }

    /** An address no node has. */
    method Allocate() returns (q: Ptr)
      ensures Unused(mem, q)
    {
      ghost var b := Bound(mem.leaves.Keys + mem.inners.Keys);
      assert Unused(mem, b + 1);
      q :| Unused(mem, q);
    }

    // ---------------------------------------------------------- searches

    /** std::upper_bound over the separators of a node. */
    method UpperBound(n: Ptr, k: Key) returns (i: nat)
      requires Valid() && n in view.live && n in mem.inners
      ensures IsUpper(mem, mem.inners[n], k, i)
    {
      ghost var m, v := mem, view;
      var node := mem.inners[n];
      assert InnerOk(m, v, cap, 0, n);
      hide InnerOk, ShapeOk, Listing, Ascending, SepKey;
      var lo, hi := 0, node.size;
      while lo < hi
        invariant lo <= hi <= node.size
        invariant forall x :: 0 <= x < lo ==> SepKey(m, node.entries[x]) <= k
        invariant forall x :: hi <= x < node.size ==> k < SepKey(m, node.entries[x])
      {
        var mid := (lo + hi) / 2;
        forall x | 0 <= x < node.size
          ensures x < mid ==> SepKey(m, node.entries[x]) < SepKey(m, node.entries[mid])
          ensures mid < x ==> SepKey(m, node.entries[mid]) < SepKey(m, node.entries[x])
        {
          if x < mid { SepsAscend(m, v, cap, n, x, mid); }
          if mid < x { SepsAscend(m, v, cap, n, mid, x); }
        }
        if k < SepKey(mem, node.entries[mid]) {
          hi := mid;
        } else {
          lo := mid + 1;
        }
      }
      i := lo;
    }

    /** get_child: the child that covers `k`'s leaf. */
    method GetChild(n: Ptr, k: Key, ghost j: nat) returns (c: Ptr, ghost i: nat)
      requires Valid() && n in view.live && n in mem.inners && IsTarget(mem, view, k, j) && Covers(view, n, j)
      ensures IsKid(mem, view, cap, n, i, c) && Covers(view, c, j)
      ensures (c in view.live || c in mem.leaves) && mem.Level(c) < mem.Level(n)
    {
      var at := UpperBound(n, k);
      ghost var m, v := mem, view;
      assert InnerOk(m, v, cap, 0, n) && KidOk(m, v, n, at);
      Descend(m, v, cap, n, k, j, at);
      hide InnerOk, ShapeOk, Listing, Ascending, SepKey;
      c := mem.inners[n].children[at];
      i := at;
    }

    /** find_leaf_to_insert: the path of inner nodes and the leaf. */
    method FindLeafToInsert(k: Key) returns (path: seq<Ptr>, p: Ptr, ghost j: nat)
      requires Valid()
      ensures IsTarget(mem, view, k, j) && PathOk(mem, view, cap, path, 0, p, j)
      ensures p in mem.leaves && (if path == [] then p == mem.root else path[0] == mem.root)
    {
      hide Inv, Listing, SepKey, PathStep, Covers;
      j := TargetExists(mem, view, cap, k);
      RootCovers(mem, view, cap, k, j);
      path, p := [], mem.root;
      while p !in mem.leaves
        invariant p in view.live || p in mem.leaves
        invariant Covers(view, p, j) && OnWay(mem, view, cap, path, p, j)
        invariant if path == [] then p == mem.root else path[0] == mem.root
        decreases mem.Level(p)
      {
        LiveIs(mem, view, cap, p);
        var c, i := GetChild(p, k, j);
        OnWayNext(mem, view, cap, path, p, j, i, c);
        path, p := path + [p], c;
      }
      LeafCovers(mem, view, cap, p, j);
    }

    /** find_leaf_node */
    method FindLeaf(k: Key) returns (p: Ptr, ghost j: nat)
      requires Valid()
      ensures IsTarget(mem, view, k, j) && p in mem.leaves && p == view.chain[j]
    {
      hide Inv, Listing, SepKey, Covers;
      j := TargetExists(mem, view, cap, k);
      RootCovers(mem, view, cap, k, j);
      p := mem.root;
      while p !in mem.leaves
        invariant p in view.live || p in mem.leaves
        invariant Covers(view, p, j)
        decreases mem.Level(p)
      {
        LiveIs(mem, view, cap, p);
        var c, _ := GetChild(p, k, j);
        p := c;
      }
      LeafCovers(mem, view, cap, p, j);
    }

    /** lower_bound inside a leaf. */
    method LeafLowerBound(p: Ptr, k: Key) returns (pos: nat)
      requires p in mem.leaves && Shaped(mem.leaves[p], cap) && Ordered(Items(mem.leaves[p]))
      ensures IsLowerBound(Items(mem.leaves[p]), k, pos)
    {
      var l := mem.leaves[p];
      ghost var s := Items(l);
      var lo, hi := 0, l.size;
      while lo < hi
        invariant lo <= hi <= l.size
        invariant forall i :: 0 <= i < lo ==> s[i].key < k
        invariant forall i :: hi <= i < l.size ==> k <= s[i].key
      {
        var mid := (lo + hi) / 2;
        assert s[mid].key == l.entries[l.idxs[mid]].key;
        if l.entries[l.idxs[mid]].key < k {
          lo := mid + 1;
        } else {
          hi := mid;
        }
      }
      pos := lo;
    }

    /** internal_insert of a key that the leaf does not hold. */
    method InternalInsert(p: Ptr, k: Key, val: Value) returns (pos: nat)
      requires p in mem.leaves && Shaped(mem.leaves[p], cap) && Ordered(Items(mem.leaves[p]))
      requires mem.leaves[p].size < cap
      modifies this`mem
      ensures p in old(mem).leaves && Shaped(old(mem).leaves[p], cap)
      ensures IsLowerBound(Items(old(mem).leaves[p]), k, pos) && mem == InsertEntry(old(mem), p, pos, k, val)
    {
      pos := LeafLowerBound(p, k);
      mem := InsertEntry(mem, p, pos, k, val);
    }

    /** A transaction ends. */
    ghost method Commit(v: View)
      modifies this`view, this`log
      ensures view == v && log == old(log) + [Boundary(mem, v)]
    {
      view := v;
      log := log + [Boundary(mem, v)];
    }

    /** split_inner_node for the root: a new node and a new root. */
    method SplitRootInner(ghost path: seq<Ptr>, ghost leaf: Ptr, ghost j: nat)
      requires Valid() && PathOk(mem, view, cap, path, 0, leaf, j) && FullFrom(mem, cap, path, 0)
      requires path != [] && path[0] == mem.root
      modifies this
      ensures Valid() && Map() == old(Map()) && view.chain == old(view.chain) && log == old(log) + [Boundary(mem, view)]
      ensures Lost() == old(Lost())
      ensures mem.leaves == old(mem.leaves) && Prepared(mem, view, cap, mem.root, path, 0, leaf, j)
    {
      hide Inv, Contents, PathOk, FullFrom, Prepared, Upper, Lower, NewInner, NewRoot, Listing;
      ghost var m, v := mem, view;
      FullRoot(m, v, cap, path, leaf, j);
      var n, node := mem.root, mem.inners[mem.root];
      var o := Allocate();
      var other := Upper(node, EmptyInner(cap, node.level, noSep));
      mem := WithInner(WithInner(mem, n, Lower(node)), o, other);
      var r := Allocate();
      ghost var v' := RootSplitEnds(m, v, cap, r, o, noSep, path, leaf, j);
      mem := WithInner(mem, r, NewRoot(cap, node.level + 1, noSep, node.entries[cap / 2], n, o)).(root := r);
      Commit(v');
    }

    /** split_inner_node below a parent that has room. */
    method SplitInnerNode(n: Ptr, g: Ptr, ghost path: seq<Ptr>, ghost x: nat, ghost leaf: Ptr, ghost j: nat)
      requires Valid() && PathOk(mem, view, cap, path, x, leaf, j) && FullFrom(mem, cap, path, x)
      requires x < |path| && path[x] == n && Ready(mem, view, cap, g, n, j)
      modifies this
      ensures Valid() && Map() == old(Map()) && view.chain == old(view.chain) && log == old(log) + [Boundary(mem, view)]
      ensures Lost() == old(Lost())
      ensures mem.leaves == old(mem.leaves) && Prepared(mem, view, cap, g, path, x, leaf, j)
    {
      hide Inv, Contents, PathOk, FullFrom, Prepared, Upper, Lower, NewInner, SplitChild, SplitInnerUnder,
           SplitInnerView,
           Middle, Listing, LostNodes, SepKey;
      ghost var m, v := mem, view;
      ghost var i :| IsKid(m, v, cap, g, i, n);
      FullNode(m, v, cap, n, path, x, leaf, j);
      var node := mem.inners[n];
      var o := Allocate();
      SplitReady(m, v, cap, n, o, g, i, path, x, leaf, j);
      mem := WithInner(WithInner(mem, n, Lower(node)), o, Upper(node, EmptyInner(cap, node.level, noSep)));
      SameSeps(m, mem, m.inners[g]);
      var at := LowerBound(g, SepKey(mem, node.entries[cap / 2]));
      SameLower(m, mem, m.inners[g], SepKey(m, node.entries[cap / 2]), at);
      OneLower(m, m.inners[g], SepKey(m, node.entries[cap / 2]), at, i);
      ghost var v' := InnerSplitEnds(m, v, cap, n, o, g, i, noSep, path, x, leaf, j);
      mem := WithInner(mem, g, SplitChild(mem.inners[g], at, node.entries[cap / 2], n, o));
      Commit(v');
    }

    /** The first steps of both kinds of split_leaf_node: the upper half moves to leaf
        `q`, and the key goes into the half where it belongs. */
    method MoveAndInsert(p: Ptr, q: Ptr, k: Key, val: Value, ghost j: nat) returns (ghost t: Ptr, ghost pos: nat)
      requires Valid() && IsTarget(mem, view, k, j) && p == view.chain[j]
      requires IsFullLeaf(mem, cap, p) && Lacks(mem, p, k) && Unused(mem, q)
      modifies this`mem
      ensures Receives(old(mem), view, cap, j, q, blank, k, t, pos)
      ensures mem == InsertEntry(MoveHalf(old(mem), p, q, blank), t, pos, k, val)
    {
      hide Inv, RowsAt, Permutation, MoveHalf, InsertEntry;
      ghost var m, v := mem, view;
      MaySplit(m, v, cap, j, q);
      HalvesReady(m, v, cap, j, q, blank);
      MiddleRow(m, p, cap);
      var middle := mem.leaves[p].entries[mem.leaves[p].idxs[cap / 2]].key;
      mem := MoveHalf(mem, p, q, blank);
      var half := if k < middle then p else q;
      pos := InternalInsert(half, k, val);
      t := half;
    }

    /** split_leaf_node below a parent that has room. */
    method SplitLeafNode(g: Ptr, p: Ptr, k: Key, val: Value, ghost j: nat)
      requires Valid() && IsTarget(mem, view, k, j) && p == view.chain[j]
      requires IsFullLeaf(mem, cap, p) && Lacks(mem, p, k) && Ready(mem, view, cap, g, p, j)
      modifies this
      ensures Valid() && Map() == old(Map())[k := val] && k !in old(Map())
      ensures log == old(log) + [Boundary(mem, view)]
      ensures Lost() == old(Lost())
    {
      hide Contents, Listing, LostNodes;
      ghost var m, v := mem, view;
      ghost var i :| IsKid(m, v, cap, g, i, p);
      assert InnerOk(m, v, cap, 0, g);
      var q := Allocate();
      LeafSplitReady(m, v, cap, j, q, g, i, blank);
      ghost var v' := SplitLeafView(v, j, q, g);
      hide Inv, Receives, MoveHalf, InsertEntry, LinkAfter, SplitLeafView, SplitsUnder, Ready, InnerOk, Shaped, RowsAt;
      ghost var t, pos := MoveAndInsert(p, q, k, val, j);
      LeafSplitSteps(m, v, cap, j, q, g, i, blank, k, val, t, pos);
      LeafSplitLost(m, v, cap, j, q, g, i, blank, k, val, t, pos);
      hide IsTarget, SepKey, FrontSep, SepsSorted;
      var sep := FrontSep(mem, q);
      assert sep == Sep(q, 0);
      var at := LowerBound(g, SepKey(mem, sep));
      OneLower(mem, mem.inners[g], SepKey(mem, sep), at, i);
      var above := mem.(inners := mem.inners[g := SplitChild(mem.inners[g], at, sep, p, q)]);
      assert Inv(LinkAfter(above, p, q), v', cap);
      assert Contents(LinkAfter(above, p, q), v') == Contents(m, v)[k := val];
      mem := above;
      mem := LinkAfter(mem, p, q);
      Commit(v');
    }

    /** split_leaf_node for a root that is a leaf. */
    method SplitRootLeaf(p: Ptr, k: Key, val: Value, ghost j: nat)
      requires Valid() && IsTarget(mem, view, k, j) && p == view.chain[j] == mem.root
      requires IsFullLeaf(mem, cap, p) && Lacks(mem, p, k)
      modifies this
      ensures Valid() && Map() == old(Map())[k := val] && k !in old(Map())
      ensures log == old(log) + [Boundary(mem, view)]
      ensures Lost() == old(Lost())
    {
      hide Contents, Listing, LostNodes;
      ghost var m, v := mem, view;
      assert |v.chain| == |v.owner|;
      hide Inv, Receives, MoveHalf, InsertEntry, LinkAfter, Shaped, RowsAt, SplitLeafView;
      var q := Allocate();
      ghost var t, pos := MoveAndInsert(p, q, k, val, j);
      var r := Allocate();
      RootUnused(m, v, cap, j, q, blank, k, val, t, pos, r);
      RootLeafSteps(m, v, cap, j, q, r, noSep, blank, k, val, t, pos);
      RootLeafLost(m, v, cap, j, q, r, noSep, blank, k, val, t, pos);
      ghost var v' := SplitLeafView(LiftView(m, v, r), j, q, r);
      hide LiftView, NewRoot, FrontSep, Unused, IsTarget;
      var level := mem.Level(mem.root) + 1;
      assert level == 1;
      var above := mem.(inners := mem.inners[r := NewRoot(cap, level, noSep, FrontSep(mem, q), p, q)], root := r);
      assert Inv(LinkAfter(above, p, q), v', cap);
      assert Contents(LinkAfter(above, p, q), v') == Contents(m, v)[k := val];
      mem := above;
      mem := LinkAfter(mem, p, q);
      Commit(v');
    }

    /** One step down: node `i` of the path is split under `g`, and the search goes on in
        the half that leads to the leaf. */
    method SplitNext(path: seq<Ptr>, i: nat, g: Ptr, ghost p: Ptr, k: Key, ghost j: nat) returns (c: Ptr)
      requires Valid() && 1 <= i < |path| && Going(mem, view, cap, path, i, g, p, k, j)
      modifies this
      ensures Valid() && Map() == old(Map()) && log == old(log) + [Boundary(mem, view)]
      ensures mem.leaves == old(mem.leaves) && view.chain == old(view.chain)
      ensures Going(mem, view, cap, path, i + 1, c, p, k, j)
      ensures Lost() == old(Lost())
    {
      ghost var m, v := mem, view;
      hide Inv, Contents;
      SplitInnerNode(path[i], g, path, i, p, j);
      LeavesDecide(m, v, mem, view, k, j, p);
      hide PathOk, FullFrom, IsTarget;
      ghost var at;
      c, at := GetChild(g, k, j);
    }

    /** The step above all others: the full root is split under a new one. */
    method SplitTop(path: seq<Ptr>, ghost p: Ptr, k: Key, ghost j: nat) returns (c: Ptr)
      requires Valid() && path != [] && path[0] == mem.root && IsTarget(mem, view, k, j)
      requires PathOk(mem, view, cap, path, 0, p, j) && FullFrom(mem, cap, path, 0)
      modifies this
      ensures Valid() && Map() == old(Map()) && log == old(log) + [Boundary(mem, view)]
      ensures mem.leaves == old(mem.leaves) && view.chain == old(view.chain)
      ensures Going(mem, view, cap, path, 1, c, p, k, j)
      ensures Lost() == old(Lost())
    {
      ghost var m, v := mem, view;
      hide Inv, Contents;
      SplitRootInner(path, p, j);
      LeavesDecide(m, v, mem, view, k, j, p);
      hide PathOk, FullFrom, IsTarget;
      ghost var at;
      c, at := GetChild(mem.root, k, j);
    }

    /** The rest of try_emplace for a full leaf below inner nodes: from the lowest node
        with room (or a new root) down, every full node is split under a parent that
        has room. */
    method SplitDown(path: seq<Ptr>, p: Ptr, k: Key, val: Value, ghost j: nat)
      requires Valid() && IsTarget(mem, view, k, j) && PathOk(mem, view, cap, path, 0, p, j)
      requires path != [] && path[0] == mem.root && IsFullLeaf(mem, cap, p) && Lacks(mem, p, k)
      modifies this
      ensures Valid() && Map() == old(Map())[k := val] && k !in old(Map())
      ensures Extends(old(log), log, cap, old(Map())) && log[|log| - 1] == Boundary(mem, view)
      ensures Lost() == old(Lost())
    {
      hide Inv, Contents, Lacks, IsFullLeaf, PathOk, IsTarget;
      ghost var before, s := log, Map();
      var i := |path| - 1;
      PathLive(mem, view, cap, path, 0, p, j);
      while i > 0 && mem.inners[path[i]].size == cap
        invariant 0 <= i < |path| && FullFrom(mem, cap, path, i + 1)
      {
        i := i - 1;
      }
      var g := path[i];
      if mem.inners[path[i]].size == cap {
        g := SplitTop(path, p, k, j);
      } else {
        RoomReady(mem, view, cap, path, i, p, j);
      }
      i := i + 1;
      hide FullFrom;
      while i < |path|
        invariant 1 <= i <= |path|
        invariant Valid() && Going(mem, view, cap, path, i, g, p, k, j)
        invariant mem.leaves == old(mem.leaves) && view.chain == old(view.chain)
        invariant Map() == s && Quiet(before, log, cap, s) && Lost() == old(Lost())
      {
        g := SplitNext(path, i, g, p, k, j);
        i := i + 1;
      }
      GoneDown(old(mem), old(view), mem, view, cap, path, g, p, k, j);
      hide Going, Holds;
      SplitLeafNode(g, p, k, val, j);
    }

    /** The search of find and try_emplace in a leaf. */
    method SearchLeaf(p: Ptr, k: Key, ghost j: nat) returns (found: bool, pos: nat)
      requires Valid() && IsTarget(mem, view, k, j) && p in mem.leaves && p == view.chain[j]
      ensures Searched(mem, view, cap, k, j, p, pos) && found == HasKey(mem, p, pos, k) && found == (k in Map())
      ensures |RowsAt(mem, p)| == mem.leaves[p].size && pos <= mem.leaves[p].size
      ensures found ==> Map()[k] == RowsAt(mem, p)[pos].value
    {
      LeafReady(mem, view, cap, j);
      hide Inv;
      pos := LeafLowerBound(p, k);
      RowKeys(mem, p, cap);
      var l := mem.leaves[p];
      found := pos < l.size && l.entries[l.idxs[pos]].key == k;
      FoundIs(mem, view, cap, k, j, p, pos);
    }

    /** find, as get and exists use it. */
    method Find(k: Key) returns (r: Option<Value>)
      requires Valid()
      ensures r == Lookup(Map(), k)
    {
      var p, j := FindLeaf(k);
      var found, pos := SearchLeaf(p, k, j);
      r := if found then Some(mem.leaves[p].entries[mem.leaves[p].idxs[pos]].value) else None;
    }

    /** try_emplace: adds the key if it is absent. Every transaction on the way leaves a
        well-formed tree with the old map, and the last one alone adds the key. */
    method TryEmplace(k: Key, val: Value) returns (inserted: bool, p: Ptr, pos: nat, ghost j: nat)
      requires Valid()
      modifies this
      ensures Valid() && inserted == (k !in old(Map()))
      ensures Map() == if inserted then old(Map())[k := val] else old(Map())
      ensures inserted ==> Extends(old(log), log, cap, old(Map())) && log[|log| - 1] == Boundary(mem, view)
      ensures !inserted ==> mem == old(mem) && view == old(view) && log == old(log)
      ensures !inserted ==> Searched(mem, view, cap, k, j, p, pos) && HasKey(mem, p, pos, k)
      ensures Lost() == old(Lost())
    {
      hide Contents, Inv, LostNodes, Lacks, Searched, PathStep, HasKey, FullFrom;
      ghost var m, v := mem, view;
      var path;
      path, p, j := FindLeafToInsert(k);
      var found;
      found, pos := SearchLeaf(p, k, j);
      if found {
        return false, p, pos, j;
      }
      LeafReady(m, v, cap, j);
      AbsentRows(m, v, cap, k, j, p, pos);
      inserted := true;
      if mem.leaves[p].size < cap {
        pos := InternalInsert(p, k, val);
        RoomForKey(m, v, cap, k, j, p, pos);
        InsertEntryOk(m, v, cap, k, val, j, pos);
        SameInnersLost(m, mem, v);
        Commit(v);
      } else if path == [] {
        SplitRootLeaf(p, k, val, j);
      } else {
        SplitDown(path, p, k, val, j);
      }
    }

    /** stree::put: try_emplace, or a new value for the entry it finds. */
    method Put(k: Key, val: Value)
      requires Valid()
      modifies this
      ensures Valid() && Map() == old(Map())[k := val]
      ensures Extends(old(log), log, cap, old(Map())) && log[|log| - 1] == Boundary(mem, view)
      ensures Lost() == old(Lost())
    {
      hide Inv, Contents;
      var inserted, p, pos, j := TryEmplace(k, val);
      if !inserted {
        ghost var m := mem;
        SearchedBounds(mem, view, cap, k, j, p, pos);
        AssignOk(mem, view, cap, k, j, p, pos, val);
        mem := Assign(mem, p, pos, val);
        Commit(view);
      }
    }

    // ---------------------------------------------------------- erase

    /** get_path_ext: the way to the leaf with the siblings of every child taken, and the
        separator that points to the key, if one does. */
    method GetPathExt(k: Key) returns (hops: seq<Hop>, tr: Target, p: Ptr, ghost j: nat)
      requires Valid()
      ensures IsTarget(mem, view, k, j) && p in mem.leaves && p == view.chain[j]
      ensures HopsOk(mem, view, cap, hops, p, j) && TargetOk(mem, view, cap, tr, k, j, p)
      ensures if hops == [] then p == mem.root else hops[0].node == mem.root
    {
      j := TargetExists(mem, view, cap, k);
      ghost var m, v := mem, view;
      assert Covers(v, m.root, j) && TargetOk(m, v, cap, NoTarget, k, j, m.root);
      hops, tr, p := [], NoTarget, mem.root;
      hide Inv, Listing, SepKey, TargetOk, HopsOk;
      assert HopsOk(m, v, cap, [], p, j) by { NoHops(m, v, cap, p, j); }
      while p !in mem.leaves
        invariant p in v.live || p in m.leaves
        invariant Covers(v, p, j) && HopsOk(m, v, cap, hops, p, j) && TargetOk(m, v, cap, tr, k, j, p)
        invariant if hops == [] then p == m.root else hops[0].node == m.root
        decreases mem.Level(p)
      {
        LiveIs(m, v, cap, p);
        var c, hop := GetChildAndSiblings(p, k, j);
        ghost var i :| HopOk(m, v, cap, hop, i, c, j);
        TargetStep(m, v, cap, tr, k, j, p, i, c);
        HopsExtend(m, v, cap, hops, p, hop, i, c, j);
        if SepKey(mem, mem.inners[p].entries[hop.it]) == k {
          assert tr == NoTarget;
          tr := Target(p, hop.it);
        }
        hops, p := hops + [hop], c;
      }
      LeafCovers(m, v, cap, p, j);
    }

    /** get_child_and_siblings */
    method GetChildAndSiblings(n: Ptr, k: Key, ghost j: nat) returns (c: Ptr, hop: Hop)
      requires Valid() && n in view.live && n in mem.inners && IsTarget(mem, view, k, j) && Covers(view, n, j)
      ensures hop.node == n && Covers(view, c, j) && exists i :: HopOk(mem, view, cap, hop, i, c, j)
      ensures (c in view.live || c in mem.leaves) && mem.Level(c) < mem.Level(n)
    {
      ghost var m, v := mem, view;
      assert InnerOk(m, v, cap, 0, n);
      var node := mem.inners[n];
      var i := UpperBound(n, k);
      Descend(m, v, cap, n, k, j, i);
      assert KidOk(m, v, n, i);
      hide InnerOk, ShapeOk, Listing, Ascending, SepKey;
      c := node.children[i];
      if i == 0 {
        hop := Hop(n, i, 0, node.children[i + 1]);
      } else if i == node.size {
        hop := Hop(n, i - 1, node.children[i - 1], 0);
      } else {
        hop := Hop(n, i - 1, node.children[i - 1], node.children[i + 1]);
      }
      assert HopOk(m, v, cap, hop, i, c, j);
    }

    /** The walk of get_suitable_entry: down first children to a leaf. */
    method Leftmost(c: Ptr, ghost v: View, ghost s: set<Ptr>) returns (q: Ptr)
      requires c in mem.leaves || (c in v.live && FirstKids(mem, v, s))
      ensures q in mem.leaves && (c in mem.leaves ==> q == c)
      ensures c !in mem.leaves ==> q in s && v.Lo(q) == v.Lo(c)
    {
      q := c;
      while q !in mem.leaves
        invariant q in mem.leaves || (q in v.live && FirstKids(mem, v, s))
        invariant q == c || q in v.live || q in s
        invariant c in mem.leaves ==> q == c
        invariant v.Lo(q) == v.Lo(c)
        decreases mem.Level(q)
      {
        q := mem.inners[q].children[0];
      }
    }

    /** get_suitable_entry: the separator that node `t` needs at `it`. */
    method SuitableEntry(t: Ptr, it: nat, ghost v: View, ghost s: set<Ptr>) returns (sep: Sep, ghost q: Ptr)
      requires t in mem.inners && it + 1 < |mem.inners[t].children|
      requires var c := mem.inners[t].children[it + 1]; c in mem.leaves || (c in v.live && FirstKids(mem, v, s))
      ensures sep == FrontSep(mem, q) && q in mem.leaves
      ensures var c := mem.inners[t].children[it + 1];
              if c in mem.leaves then q == c else q in s && v.Lo(q) == v.Lo(c)
    {
      var leaf := Leftmost(mem.inners[t].children[it + 1], v, s);
      sep, q := FrontSep(mem, leaf), leaf;
    }

    /** The part of erase for a leaf that keeps an entry, or is the whole tree. */
    method EraseEntry(p: Ptr, pos: nat, tr: Target, ghost k: Key, ghost j: nat)
      requires Valid() && Shrinks(mem, view, cap, k, j, p, pos, tr)
      modifies this
      ensures Valid() && Map() == old(Map()) - {k} && log == old(log) + [Boundary(mem, view)]
      ensures mem.leaves.Keys == old(mem.leaves).Keys
      ensures Lost() == old(Lost()) && mem.root == old(mem.root)
    {
      hide Contents, Listing, Inv, LostNodes, RowsAt, Searched, HasKey, HasEntry, TargetOk, Owns, FirstKids,
           EntryResult;
      ghost var m, v := mem, view;
      ShrinksFacts(m, v, cap, k, j, p, pos, tr);
      EntryGone(m, v, cap, k, j, p, pos, tr);
      EntryLost(m, v, p, pos, tr);
      mem := mem.(leaves := mem.leaves[p := Remove(mem.leaves[p], pos)]);
      var sep := noSep;
      if tr.Target? {
        ghost var m1, q := mem, 0;
        TargetChildren(m, v, cap, tr.node, tr.it, j);
        EntryFront(m, v, cap, k, j, p, pos, tr, m1, 0);
        sep, q := SuitableEntry(tr.node, tr.it, v, m.leaves.Keys);
        EntryFront(m, v, cap, k, j, p, pos, tr, m1, q);
        mem := mem.(inners := mem.inners[tr.node := Replace(mem.inners[tr.node], tr.it, sep)]);
      }
      EntryResultIs(m, p, pos, tr);
      mem := mem.(size := mem.size - 1);
      Commit(v);
    }

    /** The part of erase for a leaf that becomes empty below inner nodes. */
    method EraseLeaf(hops: seq<Hop>, p: Ptr, tr: Target, ghost k: Key, ghost j: nat)
      requires Valid() && Vanishes(mem, view, cap, k, j, p, hops, tr)
      modifies this
      ensures Valid() && Map() == old(Map()) - {k} && log == old(log) + [Boundary(mem, view)]
      ensures mem.leaves.Keys <= old(mem.leaves).Keys
      ensures Lost() == old(Lost()) + if mem.root == old(mem.root) then {} else {old(mem.root)}
    {
      hide Contents, Listing, Inv, Vanishes, Known, DueSep, EraseResult, OutcomeView, DeleteChild, Unlink, Remove,
           MidMem, Inherit;
      ghost var m, v := mem, view;
      HopsThere(m, v, cap, k, j, p, hops, tr);
      var last, hop := hops[|hops| - 1], HopAbove(hops);
      var n, i, left, sib := last.node, last.it, last.left == 0, Sibling(last);
      ghost var f, g, y := KnownFrom(m, v, cap, k, j, p, hops, tr);
      KnownSteps(m, v, cap, k, j, p, hops, tr, f, g, y);
      MidSteps(m, p, n, i, left, Pops(m, n), hop, sib);
      mem := WithLeaf(mem, p, Remove(mem.leaves[p], 0));
      mem := WithInner(mem, n, DeleteChild(mem.inners[n], i, left));
      mem := Unlink(mem, p);
      var popped := |hops| > 1 && mem.inners[n].size == 0;
      if popped {
        mem := WithInner(mem, hop.node, Inherit(mem.inners[hop.node], hop.it, sib, hop.left == 0));
      }
      FinishErase(hops, p, tr, popped, m, k, j, f, g, y);
    }

    /** get_suitable_entry in the middle of the transaction. */
    method FindDue(hops: seq<Hop>, p: Ptr, tr: Target, ghost m: Mem, ghost k: Key, ghost j: nat, ghost f: Ptr,
                   ghost g: Ptr, ghost y: nat)
      returns (sep: Sep)
      requires Known(m, view, cap, k, j, p, hops, tr, f, g, y)
      requires var last := hops[|hops| - 1];
               && p in m.leaves && m.leaves[p].size == 1 <= |m.leaves[p].idxs| && last.node in m.inners
               && Doable(m, last.node, last.it, Pops(m, last.node), HopAbove(hops), NoTarget)
               && mem == MidMem(m, p, last.node, last.it, last.left == 0, Pops(m, last.node), HopAbove(hops),
                                Sibling(last))
      ensures var last := hops[|hops| - 1];
              && j < |view.chain| && view.chain[j] in m.leaves
              && Sized(m.inners[last.node], |m.inners[last.node].entries|)
              && last.it < m.inners[last.node].size
              && (tr.Target? && Due(m, last.node, last.it, last.left == 0) ==>
                    sep == DueSep(m, view, j, last.node, last.it, last.left == 0, f))
    {
      hide Contents, Listing, Inv, MidMem, DueSep, OutcomeView, Vanishes, Empties, Above, HopFor, FirstKids, Remove,
           DeleteChild;
      ghost var v := view;
      ghost var last := hops[|hops| - 1];
      ghost var n, i, left, sib := last.node, last.it, last.left == 0, Sibling(last);
      KnownSteps(m, v, cap, k, j, p, hops, tr, f, g, y);
      ghost var v' := OutcomeView(m, v, j, n, left, g, sib);
      sep := noSep;
      if tr.Target? {
        WalkStart(m, v, cap, k, j, p, hops, tr, f, g, y);
        ghost var q;
        sep, q := SuitableEntry(tr.node, tr.it, v', m.leaves.Keys - {p});
        if Due(m, n, i, left) { WalkFinds(m, v, cap, k, j, p, hops, tr, f, g, y, q); }
      }
    }

    /** The rest of the transaction: the separator above follows, the root may change, and
        at the commit the leaf and a collapsed parent are freed. */
    method FinishErase(hops: seq<Hop>, p: Ptr, tr: Target, popped: bool,
                       ghost m: Mem, ghost k: Key, ghost j: nat, ghost f: Ptr, ghost g: Ptr, ghost y: nat)
      requires Known(m, view, cap, k, j, p, hops, tr, f, g, y)
      requires var last := hops[|hops| - 1];
               && p in m.leaves && m.leaves[p].size == 1 <= |m.leaves[p].idxs| && last.node in m.inners
               && Doable(m, last.node, last.it, Pops(m, last.node), HopAbove(hops), NoTarget)
               && mem == MidMem(m, p, last.node, last.it, last.left == 0, Pops(m, last.node), HopAbove(hops),
                                Sibling(last))
      requires popped == Pops(m, hops[|hops| - 1].node)
      modifies this
      ensures Valid() && Map() == Contents(m, old(view)) - {k} && log == old(log) + [Boundary(mem, view)]
      ensures mem.leaves.Keys <= m.leaves.Keys
      ensures Lost() == LostNodes(m, old(view)) + if mem.root == m.root then {} else {m.root}
    {
      hide Contents, Inv, MidMem, DueSep, EraseResult, OutcomeView, Doable, Vanishes, Empties, Above, HopFor, Due,
           Replace, LostNodes;
      ghost var v := view;
      var last, hop := hops[|hops| - 1], HopAbove(hops);
      var n, sib := last.node, Sibling(last);
      var sep := FindDue(hops, p, tr, m, k, j, f, g, y);
      KnownEnds(m, v, cap, k, j, p, hops, tr, f, g, y, sep);
      KnownLost(m, v, cap, k, j, p, hops, tr, f, g, y, sep);
      KnownLeaves(m, v, cap, k, j, p, hops, tr, f, g, y, sep);
      KnownResult(m, v, cap, k, j, p, hops, tr, f, g, y, sep);
      KnownSteps(m, v, cap, k, j, p, hops, tr, f, g, y);
      ghost var v' := OutcomeView(m, v, j, n, last.left == 0, g, sib);
      if tr.Target? {
        mem := mem.(inners := mem.inners[tr.node := Replace(mem.inners[tr.node], tr.it, sep)]);
      }
      var back := if popped then hop.node else n;
      var root := if mem.inners[back].size == 0 then sib else mem.root;
      assert root == OutcomeRoot(m, n, sib);
      var done := Mem(mem.leaves - {p}, if popped then mem.inners - {n} else mem.inners, root, mem.size - 1);
      assert done == EraseResult(m, p, n, last.it, last.left == 0, popped, hop, sib, tr, sep, root);
      mem := done;
      Commit(v');
    }

    method Erase(k: Key) returns (deleted: nat)
      requires Valid()
      modifies this
      ensures Valid() && Map() == old(Map()) - {k} && deleted == (if k in old(Map()) then 1 else 0)
      ensures deleted == 0 ==> mem == old(mem) && log == old(log)
      ensures deleted == 1 ==> log == old(log) + [Boundary(mem, view)]
      ensures mem.leaves.Keys <= old(mem.leaves).Keys
      ensures Lost() == old(Lost()) + if mem.root == old(mem.root) then {} else {old(mem.root)}
    {
      hide Contents, Inv, LostNodes, Searched, HasKey, HasEntry, HopsOk, TargetOk, Vanishes, RowsAt, Owns;
      ghost var m, v := mem, view;
      var hops, tr, p, j := GetPathExt(k);
      var found, pos := SearchLeaf(p, k, j);
      if !found {
        assert Map() - {k} == Map();
        return 0;
      }
      deleted := 1;
      ShrinksFacts(m, v, cap, k, j, p, pos, tr);
      if mem.leaves[p].size > 1 || hops == [] {
        if hops == [] { LoneLeaf(m, v, cap, p, j); }
        EraseEntry(p, pos, tr, k, j);
      } else {
        VanishesFrom(m, v, cap, k, j, p, pos, hops, tr);
        EraseLeaf(hops, p, tr, k, j);
      }
    }

    /** std::lower_bound over the separators of a node. */
    method LowerBound(n: Ptr, k: Key) returns (i: nat)
      requires n in mem.inners && mem.inners[n].size <= |mem.inners[n].entries|
      requires SepsSorted(mem, mem.inners[n])
      ensures IsLower(mem, mem.inners[n], k, i)
    {
      var node := mem.inners[n];
      hide SepKey;
      var lo, hi := 0, node.size;
      while lo < hi
        invariant lo <= hi <= node.size
        invariant forall x :: 0 <= x < lo ==> SepKey(mem, node.entries[x]) < k
        invariant forall x :: hi <= x < node.size ==> k <= SepKey(mem, node.entries[x])
      {
        var mid := (lo + hi) / 2;
        if SepKey(mem, node.entries[mid]) < k {
          lo := mid + 1;
        } else {
          hi := mid;
        }
      }
      i := lo;
    }
  }

  lemma HopsThere(m: Mem, v: View, cap: nat, k: Key, j: nat, p: Ptr, hops: seq<Hop>, tr: Target)
    requires Vanishes(m, v, cap, k, j, p, hops, tr)
    ensures hops != []
  {
  }

  function WithLeaf(m: Mem, p: Ptr, l: Leaf): Mem {
    m.(leaves := m.leaves[p := l])
  }

  function WithInner(m: Mem, n: Ptr, node: Inner): Mem {
    m.(inners := m.inners[n := node])
  }

  /** The steps of erase up to the collapse, one by one. */
  lemma MidSteps(m: Mem, p: Ptr, n: Ptr, i: nat, left: bool, popped: bool, hop: Hop, sib: Ptr)
    requires p in m.leaves && m.leaves[p].size == 1 <= |m.leaves[p].idxs| && Doable(m, n, i, popped, hop, NoTarget)
    ensures var a := WithLeaf(m, p, Remove(m.leaves[p], 0));
            && a.inners == m.inners
            && var b := WithInner(a, n, DeleteChild(a.inners[n], i, left));
            && p in b.leaves
            && var c := Unlink(b, p);
            && n in c.inners && c.inners[n] == DeleteChild(m.inners[n], i, left)
            && (popped ==> hop.node in c.inners && hop.it + 1 < |c.inners[hop.node].children|)
            && MidMem(m, p, n, i, left, popped, hop, sib)
                 == if popped then WithInner(c, hop.node, Inherit(c.inners[hop.node], hop.it, sib, hop.left == 0))
                     else c
  {
    hide Unlink, Remove, DeleteChild, Inherit;
    UnlinkKeeps(m.(leaves := m.leaves[p := Remove(m.leaves[p], 0)],
                   inners := m.inners[n := DeleteChild(m.inners[n], i, left)]), p);
  }

  /** The keys a node's separators point to ascend. */
  predicate SepsSorted(m: Mem, node: Inner)
    requires node.size <= |node.entries|
  {
    forall x, y :: 0 <= x < y < node.size ==> SepKey(m, node.entries[x]) <= SepKey(m, node.entries[y])
  }

  /** A full root can be split under a new root. */
  lemma RootSplitReady(m: Mem, v: View, cap: nat, r: Ptr, o: Ptr, noSep: Sep, path: seq<Ptr>, leaf: Ptr, j: nat)
    requires Inv(m, v, cap) && PathOk(m, v, cap, path, 0, leaf, j) && FullFrom(m, cap, path, 0)
    requires path != [] && path[0] == m.root && Unused(m, r) && Unused(m, o) && r != o
    ensures var m0, v0 := Lift(m, r, cap, noSep), LiftView(m, v, r);
            && SplitsInner(m0, v0, cap, r, m.root, o, r, 0)
            && PathOk(m0, v0, cap, path, 0, leaf, j) && FullFrom(m0, cap, path, 0)
            && (forall y :: 0 < y < |path| ==> m0.Level(path[y]) < m0.Level(m.root))
            && Listing(m0, v0.chain) == Listing(m, v.chain) && m0.size == m.size
  {
    var m0, v0 := Lift(m, r, cap, noSep), LiftView(m, v, r);
    LiftOk(m, v, cap, r, noSep);
    LiftListing(m, v, cap, r, noSep);
    PathLift(m, v, cap, r, noSep, path, leaf, j);
    assert InnerOk(m, v, cap, 0, m.root) && InnerOk(m0, v0, cap, r, m.root) && InnerOk(m0, v0, cap, r, r);
    hide ShapeOk, Listing, InnerOk, PathOk;
    forall y | 0 < y < |path|
      ensures m0.Level(path[y]) < m0.Level(m.root)
    {
      PathLevels(m, v, cap, path, 0, leaf, j, y);
    }
  }

  lemma RootSplitOk(m: Mem, v: View, cap: nat, r: Ptr, o: Ptr, noSep: Sep, path: seq<Ptr>, leaf: Ptr, j: nat)
    requires Inv(m, v, cap) && PathOk(m, v, cap, path, 0, leaf, j) && FullFrom(m, cap, path, 0)
    requires path != [] && path[0] == m.root && Unused(m, r) && Unused(m, o) && r != o
    requires SplitsInner(Lift(m, r, cap, noSep), LiftView(m, v, r), cap, r, m.root, o, r, 0)
    ensures var m0, v0 := Lift(m, r, cap, noSep), LiftView(m, v, r);
            var m', v' := SplitInnerUnder(m0, m.root, o, r, 0, cap, noSep),
                          SplitInnerView(m0, v0, m.root, o, r, Middle(m0, v0, m.root));
            && Inv(m', v', cap) && v'.chain == v.chain && Contents(m', v') == Contents(m, v) && m'.leaves == m.leaves
            && m'.root == r && Prepared(m', v', cap, r, path, 0, leaf, j)
  {
    hide Prepared, PathOk, ShapeOk, Listing, InnerOk, FullFrom, Lift, LiftView, SplitInnerView, Ascending;
    var m0, v0, n := Lift(m, r, cap, noSep), LiftView(m, v, r), m.root;
    RootSplitReady(m, v, cap, r, o, noSep, path, leaf, j);
    InvAscends(m, v, cap);
    LiftedView(m, v, cap, r, noSep);
    SplitInnerOk(m0, v0, cap, r, n, o, r, 0, noSep);
    SplitPrepares(m0, v0, cap, r, n, o, r, 0, noSep, path, 0, leaf, j);
  }

  lemma LiftedView(m: Mem, v: View, cap: nat, r: Ptr, noSep: Sep)
    ensures LiftView(m, v, r).chain == v.chain && LiftView(m, v, r).owner == v.owner
    ensures Lift(m, r, cap, noSep).root == r && Lift(m, r, cap, noSep).leaves == m.leaves
  {
  }

  /** A new inner node has room for any node's upper half. */
  function EmptyInner(cap: nat, level: nat, noSep: Sep): (n: Inner)
    ensures Sized(n, cap) && n == NewInner(cap, level, noSep)
  {
    NewInner(cap, level, noSep)
  }

  lemma FullRoot(m: Mem, v: View, cap: nat, path: seq<Ptr>, leaf: Ptr, j: nat)
    requires Inv(m, v, cap) && PathOk(m, v, cap, path, 0, leaf, j) && FullFrom(m, cap, path, 0)
    requires path != [] && path[0] == m.root
    ensures m.root in m.inners && m.root !in m.leaves && Sized(m.inners[m.root], cap) && m.inners[m.root].size
              == cap >= 3
  {
    hide Inv, PathOk, InnerOk;
    PathStepAt(m, v, cap, path, 0, leaf, j);
    InvInner(m, v, cap, m.root);
    InnerParts(m, v, cap, 0, m.root);
    InvCap(m, v, cap);
  }

  /** What the split of a full root leaves. */
  lemma RootSplitEnds(m: Mem, v: View, cap: nat, r: Ptr, o: Ptr, noSep: Sep, path: seq<Ptr>, leaf: Ptr, j: nat)
    returns (v': View)
    requires Inv(m, v, cap) && PathOk(m, v, cap, path, 0, leaf, j) && FullFrom(m, cap, path, 0)
    requires path != [] && path[0] == m.root && Unused(m, o) && m.root in m.inners && Sized(m.inners[m.root], cap)
    requires m.inners[m.root].size == cap >= 3
    requires var node := m.inners[m.root];
             Unused(WithInner(WithInner(m, m.root, Lower(node)), o, Upper(node, NewInner(cap, node.level, noSep))), r)
    ensures var node := m.inners[m.root];
            var split := WithInner(WithInner(m, m.root, Lower(node)), o, Upper(node, NewInner(cap, node.level, noSep)));
            var m' := WithInner(split, r, NewRoot(cap, node.level + 1, noSep, node.entries[cap / 2], m.root,
                                                  o)).(root := r);
            && Inv(m', v', cap) && v'.chain == v.chain && Contents(m', v') == Contents(m, v) && m'.leaves == m.leaves
            && Prepared(m', v', cap, r, path, 0, leaf, j) && LostNodes(m', v') == LostNodes(m, v)
  {
    hide Inv, Contents, PathOk, FullFrom, Prepared, Upper, Lower, NewRoot, SplitChild, SplitInnerView, LiftView,
         SplitsInner, LoneRoot;
    LiveThere(m, v, cap);
    FullRoot(m, v, cap, path, leaf, j);
    var node := m.inners[m.root];
    LoneRootSplit(cap, node.level + 1, noSep, node.entries[cap / 2], m.root, o);
    RootSplitReady(m, v, cap, r, o, noSep, path, leaf, j);
    RootSplitOk(m, v, cap, r, o, noSep, path, leaf, j);
    var m0, v0 := Lift(m, r, cap, noSep), LiftView(m, v, r);
    LiftedRoom(m, cap, r, o, noSep);
    InvCap(m, v, cap);
    LiftedView(m, v, cap, r, noSep);
    v' := SplitInnerView(m0, v0, m.root, o, r, Middle(m0, v0, m.root));
    LiveAfterRootSplit(m, v, m0, v0, r, o);
  }

  lemma LiveAfterRootSplit(m: Mem, v: View, m0: Mem, v0: View, r: Ptr, o: Ptr)
    requires v0 == LiftView(m, v, r) && m.root in m0.inners && |v0.chain| == |v0.owner|
    requires m0.inners[m.root].size / 2 + 1 < |m0.inners[m.root].children|
    ensures SplitInnerView(m0, v0, m.root, o, r, Middle(m0, v0, m.root)).live == v.live + {r, o}
  {
  }

  /** The split under the lifted root is the split that makes a new root. */
  lemma LiftedRoom(m: Mem, cap: nat, r: Ptr, o: Ptr, noSep: Sep)
    requires m.root in m.inners && m.root !in m.leaves && Sized(m.inners[m.root], cap)
    requires m.inners[m.root].size == cap >= 3
    requires Unused(m, r) && Unused(m, o) && r != o
    ensures var node, m0 := m.inners[m.root], Lift(m, r, cap, noSep);
            && m0.inners[m.root] == node && r in m0.inners && Sized(m0.inners[r], cap) && m0.inners[r].size == 0
            && var split := WithInner(WithInner(m, m.root, Lower(node)), o,
                                      Upper(node, NewInner(cap, node.level, noSep)));
            SplitInnerUnder(m0, m.root, o, r, 0, cap, noSep)
              == WithInner(split, r, NewRoot(cap, node.level + 1, noSep, node.entries[cap / 2], m.root, o)).(root := r)
  {
    hide Upper, Lower, NewRoot, SplitChild;
    var node := m.inners[m.root];
    LoneRootSplit(cap, node.level + 1, noSep, node.entries[cap / 2], m.root, o);
  }

  /** A full node below a parent with room can be split. */
  lemma FullNode(m: Mem, v: View, cap: nat, n: Ptr, path: seq<Ptr>, x: nat, leaf: Ptr, j: nat)
    requires Inv(m, v, cap) && PathOk(m, v, cap, path, x, leaf, j) && FullFrom(m, cap, path, x)
    requires x < |path| && path[x] == n
    ensures n in m.inners && n !in m.leaves && n != 0 && Sized(m.inners[n], cap) && m.inners[n].size == cap >= 3
    ensures n in v.live && |v.chain| == |v.owner|
  {
    assert PathStep(m, v, cap, path[x], Below(path, x, leaf), j);
    assert InnerOk(m, v, cap, 0, n);
  }

  /** Separators lead to the same keys while leaves stay. */
  lemma SameSeps(m: Mem, m': Mem, node: Inner)
    requires m'.leaves == m.leaves && node.size <= |node.entries|
    ensures forall s :: SepKey(m', s) == SepKey(m, s)
    ensures SepsSorted(m', node) <==> SepsSorted(m, node)
  {
  }

  lemma SameLower(m: Mem, m': Mem, node: Inner, k: Key, at: nat)
    requires m'.leaves == m.leaves && IsLower(m', node, k, at)
    ensures IsLower(m, node, k, at)
  {
    assert forall s :: SepKey(m', s) == SepKey(m, s);
  }

  lemma InnerSplitEnds(m: Mem, v: View, cap: nat, n: Ptr, o: Ptr, g: Ptr, i: nat, noSep: Sep, path: seq<Ptr>, x: nat,
                       leaf: Ptr, j: nat) returns (v': View)
    requires Inv(m, v, cap) && PathOk(m, v, cap, path, x, leaf, j) && FullFrom(m, cap, path, x)
    requires x < |path| && path[x] == n && Ready(m, v, cap, g, n, j) && IsKid(m, v, cap, g, i, n) && Unused(m, o)
    requires n in m.inners && Sized(m.inners[n], cap) && m.inners[n].size == cap >= 3 && g in m.inners && g != n
    requires Sized(m.inners[g], cap) && i <= m.inners[g].size < cap
    ensures var node := m.inners[n];
            var split := WithInner(WithInner(m, n, Lower(node)), o, Upper(node, NewInner(cap, node.level, noSep)));
            var m' := WithInner(split, g, SplitChild(m.inners[g], i, node.entries[cap / 2], n, o));
            && Inv(m', v', cap) && v'.chain == v.chain && Contents(m', v') == Contents(m, v) && m'.leaves == m.leaves
            && Prepared(m', v', cap, g, path, x, leaf, j) && LostNodes(m', v') == LostNodes(m, v)
  {
    hide PathOk, FullFrom, Prepared, Upper, Lower, NewInner, SplitChild, SplitInnerView, ShapeOk, Listing, Middle;
    SplitReady(m, v, cap, n, o, g, i, path, x, leaf, j);
    SplitInnerOk(m, v, cap, 0, n, o, g, i, noSep);
    SplitPrepares(m, v, cap, 0, n, o, g, i, noSep, path, x, leaf, j);
    LiveThere(m, v, cap);
    SplitsMiddle(m, v, cap, n, o, g, i);
    v' := SplitInnerView(m, v, n, o, g, Middle(m, v, n));
    SplitInnerViewIs(m, v, n, o, g, Middle(m, v, n));
  }

  lemma SplitsMiddle(m: Mem, v: View, cap: nat, n: Ptr, o: Ptr, g: Ptr, i: nat)
    requires SplitsInner(m, v, cap, 0, n, o, g, i)
    ensures m.inners[n].size / 2 + 1 < |m.inners[n].children| && |v.chain| == |v.owner| && n != 0 && n != o
  {
  }

  lemma SplitReady(m: Mem, v: View, cap: nat, n: Ptr, o: Ptr, g: Ptr, i: nat, path: seq<Ptr>, x: nat, leaf: Ptr, j: nat)
    requires Inv(m, v, cap) && PathOk(m, v, cap, path, x, leaf, j) && FullFrom(m, cap, path, x)
    requires x < |path| && path[x] == n && Ready(m, v, cap, g, n, j) && IsKid(m, v, cap, g, i, n) && Unused(m, o)
    ensures SplitsInner(m, v, cap, 0, n, o, g, i) && n != g
    ensures IsLower(m, m.inners[g], SepKey(m, m.inners[n].entries[cap / 2]), i) && SepsSorted(m, m.inners[g])
    ensures forall y :: x < y < |path| ==> m.Level(path[y]) < m.Level(n)
  {
    assert InnerOk(m, v, cap, 0, n) && InnerOk(m, v, cap, 0, g) && KidOk(m, v, g, i);
    RootNoKid(m, v, cap, 0, g, i);
    PartitionPlace(m, v, cap, g, n, i);
    NodeSorted(m, v, cap, g);
    forall y | x < y < |path|
      ensures m.Level(path[y]) < m.Level(n)
    {
      PathLevels(m, v, cap, path, x, leaf, j, y);
    }
  }

  lemma NodeSorted(m: Mem, v: View, cap: nat, g: Ptr)
    requires Inv(m, v, cap) && g in v.live && g in m.inners && m.inners[g].size <= |m.inners[g].entries|
    ensures SepsSorted(m, m.inners[g])
  {
    forall x, y | 0 <= x < y < m.inners[g].size
      ensures SepKey(m, m.inners[g].entries[x]) <= SepKey(m, m.inners[g].entries[y])
    {
      SepsAscend(m, v, cap, g, x, y);
    }
  }

  lemma LeafSplitReady(m: Mem, v: View, cap: nat, j: nat, q: Ptr, g: Ptr, i: nat, blank: Entry)
    requires Inv(m, v, cap) && j < |v.chain| && v.chain[j] in m.leaves && Unused(m, q)
    requires Shaped(m.leaves[v.chain[j]], cap) && m.leaves[v.chain[j]].size == cap
    requires IsKid(m, v, cap, g, i, v.chain[j]) && m.inners[g].size < cap
    ensures SplitsUnder(m, v, cap, 0, j, q, g, i)
    ensures var m1, p, rows := MoveHalf(m, v.chain[j], q, blank), v.chain[j], RowsAt(m, v.chain[j]);
            && p != q && p in m1.leaves && q in m1.leaves
            && Shaped(m1.leaves[p], cap) && Ordered(Items(m1.leaves[p])) && m1.leaves[p].size < cap
            && Shaped(m1.leaves[q], cap) && Ordered(Items(m1.leaves[q])) && m1.leaves[q].size < cap
            && |rows| == cap && m.leaves[p].entries[m.leaves[p].idxs[cap / 2]].key == rows[cap / 2].key
  {
    assert InnerOk(m, v, cap, 0, g);
    RootNoKid(m, v, cap, 0, g, i);
    HalvesReady(m, v, cap, j, q, blank);
  }

  /** The rest of the transaction. */
  lemma LeafSplitSteps(m: Mem, v: View, cap: nat, j: nat, q: Ptr, g: Ptr, i: nat, blank: Entry,
                       k: Key, val: Value, t: Ptr, pos: nat)
    requires Inv(m, v, cap) && SplitsUnder(m, v, cap, 0, j, q, g, i) && IsKid(m, v, cap, g, i, v.chain[j])
    requires Receives(m, v, cap, j, q, blank, k, t, pos)
    ensures var p, m2, v' := v.chain[j], InsertEntry(MoveHalf(m, v.chain[j], q, blank), t, pos, k, val),
              SplitLeafView(v, j, q, g);
            && FrontSep(m2, q) == Sep(q, 0) && m2.inners == m.inners
            && IsLower(m2, m2.inners[g], SepKey(m2, Sep(q, 0)), i) && SepsSorted(m2, m2.inners[g])
            && p in m2.leaves && q in m2.leaves
            && var m3 := m2.(inners := m2.inners[g := SplitChild(m2.inners[g], i, Sep(q, 0), p, q)]);
            && Inv(LinkAfter(m3, p, q), v', cap)
            && k !in Contents(m, v) && Contents(LinkAfter(m3, p, q), v') == Contents(m, v)[k := val]
  {
    ParentSearch(m, v, cap, j, q, blank, g, i, k, val, t, pos);
    StepsAre(m, v, cap, j, q, blank, g, i, k, val, t, pos);
    ReceivesPlace(m, v, cap, 0, j, q, g, i, blank, k, t, pos);
    var x := if t == v.chain[j] then j else j + 1;
    hide Receives, LinkAfter, SplitLeafUnder, SplitLeafView, HasRoom, Listing, ShapeOk, Items, Shaped, IsLower;
    SplitInsertOk(m, v, cap, 0, j, q, g, i, blank, k, val, x, pos);
  }

  lemma MiddleRow(m: Mem, p: Ptr, cap: nat)
    requires p in m.leaves && Shaped(m.leaves[p], cap) && m.leaves[p].size == cap >= 3
    ensures |m.leaves[p].idxs| > cap / 2 && m.leaves[p].idxs[cap / 2] < |m.leaves[p].entries|
    ensures |RowsAt(m, p)| == cap
    ensures m.leaves[p].entries[m.leaves[p].idxs[cap / 2]].key == RowsAt(m, p)[cap / 2].key
  {
  }

  /** The address of the new root was free before the transaction too. */
  lemma RootUnused(m: Mem, v: View, cap: nat, j: nat, q: Ptr, blank: Entry, k: Key, val: Value, t: Ptr, pos: nat,
                   r: Ptr)
    requires Receives(m, v, cap, j, q, blank, k, t, pos)
    requires Unused(InsertEntry(MoveHalf(m, v.chain[j], q, blank), t, pos, k, val), r)
    ensures Unused(m, r) && r != q
    ensures var m2, p := InsertEntry(MoveHalf(m, v.chain[j], q, blank), t, pos, k, val), v.chain[j];
            p in m2.leaves && q in m2.leaves && m2.Level(p) == m.Level(p) == 0 && m2.root == m.root
  {
  }

  /** The rest of the transaction for a root leaf. */
  lemma RootLeafSteps(m: Mem, v: View, cap: nat, j: nat, q: Ptr, r: Ptr, noSep: Sep, blank: Entry,
                      k: Key, val: Value, t: Ptr, pos: nat)
    requires Inv(m, v, cap) && Receives(m, v, cap, j, q, blank, k, t, pos) && m.root == v.chain[j]
    requires Unused(m, r) && r != q
    requires var m2 := InsertEntry(MoveHalf(m, v.chain[j], q, blank), t, pos, k, val);
             v.chain[j] in m2.leaves && q in m2.leaves
    ensures var p, m2 := v.chain[j], InsertEntry(MoveHalf(m, v.chain[j], q, blank), t, pos, k, val);
            var m3 := m2.(inners := m2.inners[r := NewRoot(cap, 1, noSep, FrontSep(m2, q), p, q)], root := r);
            var v' := SplitLeafView(LiftView(m, v, r), j, q, r);
            && Inv(LinkAfter(m3, p, q), v', cap)
            && k !in Contents(m, v) && Contents(LinkAfter(m3, p, q), v') == Contents(m, v)[k := val]
  {
    var p, m0, v0 := v.chain[j], Lift(m, r, cap, noSep), LiftView(m, v, r);
    LiftedLeaf(m, v, cap, j, q, r, noSep, blank, k, t, pos);
    LiftedSteps(m, v, cap, j, q, r, noSep, blank, k, val, t, pos);
    hide Receives, LinkAfter, SplitLeafUnder, HasRoom, Listing, ShapeOk, Items, Shaped, MoveHalf, InsertEntry, Lift,
         LiftView;
    ReceivesPlace(m0, v0, cap, r, j, q, r, 0, blank, k, t, pos);
    hide SplitLeafView;
    var x := if t == p then j else j + 1;
    SplitInsertOk(m0, v0, cap, r, j, q, r, 0, blank, k, val, x, pos);
  }

  lemma RootLeafLost(m: Mem, v: View, cap: nat, j: nat, q: Ptr, r: Ptr, noSep: Sep, blank: Entry,
                     k: Key, val: Value, t: Ptr, pos: nat)
    requires Inv(m, v, cap) && Receives(m, v, cap, j, q, blank, k, t, pos) && Unused(m, r)
    requires var m2 := InsertEntry(MoveHalf(m, v.chain[j], q, blank), t, pos, k, val);
             v.chain[j] in m2.leaves && q in m2.leaves
    ensures var p, m2 := v.chain[j], InsertEntry(MoveHalf(m, v.chain[j], q, blank), t, pos, k, val);
            var m3 := m2.(inners := m2.inners[r := NewRoot(cap, 1, noSep, FrontSep(m2, q), p, q)], root := r);
            LostNodes(LinkAfter(m3, p, q), SplitLeafView(LiftView(m, v, r), j, q, r)) == LostNodes(m, v)
  {
    LiveThere(m, v, cap);
    hide ShapeOk, Listing, RowsAt, Shaped, Items, NewRoot, FrontSep;
  }

  lemma LeafSplitLost(m: Mem, v: View, cap: nat, j: nat, q: Ptr, g: Ptr, i: nat, blank: Entry,
                      k: Key, val: Value, t: Ptr, pos: nat)
    requires Inv(m, v, cap) && SplitsUnder(m, v, cap, 0, j, q, g, i) && Receives(m, v, cap, j, q, blank, k, t, pos)
    requires var m2 := InsertEntry(MoveHalf(m, v.chain[j], q, blank), t, pos, k, val);
             m2.inners == m.inners && v.chain[j] in m2.leaves && q in m2.leaves
    ensures var p, m2 := v.chain[j], InsertEntry(MoveHalf(m, v.chain[j], q, blank), t, pos, k, val);
            var m3 := m2.(inners := m2.inners[g := SplitChild(m2.inners[g], i, Sep(q, 0), p, q)]);
            LostNodes(LinkAfter(m3, p, q), SplitLeafView(v, j, q, g)) == LostNodes(m, v)
  {
    hide ShapeOk, Listing, RowsAt, Shaped, Items, SplitChild;
  }

  lemma SameInnersLost(m: Mem, m': Mem, v: View)
    requires m'.inners == m.inners
    ensures LostNodes(m', v) == LostNodes(m, v)
  {
  }

  lemma LiftedSteps(m: Mem, v: View, cap: nat, j: nat, q: Ptr, r: Ptr, noSep: Sep, blank: Entry,
                    k: Key, val: Value, t: Ptr, pos: nat)
    requires Inv(m, v, cap) && Receives(m, v, cap, j, q, blank, k, t, pos) && m.root == v.chain[j]
    requires Unused(m, r) && r != q
    requires SplitsUnder(Lift(m, r, cap, noSep), LiftView(m, v, r), cap, r, j, q, r, 0)
    requires LiftView(m, v, r).chain == v.chain
    requires Receives(Lift(m, r, cap, noSep), LiftView(m, v, r), cap, j, q, blank, k, t, pos)
    ensures var p, m2, m0 := v.chain[j], InsertEntry(MoveHalf(m, v.chain[j], q, blank), t, pos, k, val),
              Lift(m, r, cap, noSep);
            var m3 := m2.(inners := m2.inners[r := NewRoot(cap, 1, noSep, FrontSep(m2, q), p, q)], root := r);
            var m' := SplitLeafUnder(m0, p, q, r, 0, blank);
            && p in m3.leaves && q in m3.leaves
            && t in m'.leaves && Shaped(m'.leaves[t], cap) && pos <= m'.leaves[t].size < cap
            && Items(m'.leaves[t]) == Items(MoveHalf(m0, p, q, blank).leaves[t])
            && LinkAfter(m3, p, q) == InsertEntry(m', t, pos, k, val)
  {
    var p, m0, v0 := v.chain[j], Lift(m, r, cap, noSep), LiftView(m, v, r);
    var m2, m20 := InsertEntry(MoveHalf(m, p, q, blank), t, pos, k, val),
        InsertEntry(MoveHalf(m0, p, q, blank), t, pos, k, val);
    NewFront(m, v, cap, j, q, blank, k, val, t, pos);
    assert m20 == m2.(inners := m0.inners, root := r);
    LoneRootSplit(cap, 1, noSep, Sep(q, 0), p, q);
    assert m2.(inners := m2.inners[r := NewRoot(cap, 1, noSep, Sep(q, 0), p, q)], root := r)
        == m20.(inners := m20.inners[r := SplitChild(m20.inners[r], 0, Sep(q, 0), p, q)]);
    assert FrontSep(m20, q) == FrontSep(m2, q) && p in m2.leaves && q in m2.leaves;
    hide LinkAfter, Listing, ShapeOk, MoveHalf, InsertEntry, SplitChild, NewRoot;
    StepsAre(m0, v0, cap, j, q, blank, r, 0, k, val, t, pos);
  }

  lemma LiftedLeaf(m: Mem, v: View, cap: nat, j: nat, q: Ptr, r: Ptr, noSep: Sep, blank: Entry, k: Key, t: Ptr,
                   pos: nat)
    requires Inv(m, v, cap) && Receives(m, v, cap, j, q, blank, k, t, pos) && m.root == v.chain[j]
    requires Unused(m, r) && r != q
    ensures var m0, v0 := Lift(m, r, cap, noSep), LiftView(m, v, r);
            && m0 == m.(inners := m.inners[r := LoneRoot(cap, 1, noSep, m.root)], root := r)
            && v0.chain == v.chain && SplitsUnder(m0, v0, cap, r, j, q, r, 0)
            && Receives(m0, v0, cap, j, q, blank, k, t, pos)
            && Listing(m0, v0.chain) == Listing(m, v.chain) && MoveHalf(m0, v.chain[j], q, blank).leaves
                 == MoveHalf(m, v.chain[j], q, blank).leaves
  {
    hide Inv, Listing, Receives, Lift, LiftView, MoveHalf, RowsAt, FrontKey;
    var m0, v0 := Lift(m, r, cap, noSep), LiftView(m, v, r);
    ReceivesParts(m, v, cap, j, q, blank, k, t, pos);
    LiftListing(m, v, cap, r, noSep);
    LiftedUnder(m, v, cap, j, q, r, noSep);
    LiftedView(m, v, cap, r, noSep);
    LiftedReceives(m, v, cap, j, q, r, noSep, blank, k, t, pos);
    LiftedMem(m, cap, r, noSep) by { RootLeafLevel(m, v, cap, j); }
    LiftedHalf(m, v, cap, j, q, r, noSep, blank);
  }

  lemma RootLeafLevel(m: Mem, v: View, cap: nat, j: nat)
    requires Inv(m, v, cap) && j < |v.chain| && m.root == v.chain[j]
    ensures m.Level(m.root) == 0
  {
    assert LeafAt(m, v, cap, j);
  }

  lemma LiftedMem(m: Mem, cap: nat, r: Ptr, noSep: Sep)
    requires m.Level(m.root) == 0
    ensures Lift(m, r, cap, noSep) == m.(inners := m.inners[r := LoneRoot(cap, 1, noSep, m.root)], root := r)
  {
  }

  lemma ReceivesParts(m: Mem, v: View, cap: nat, j: nat, q: Ptr, blank: Entry, k: Key, t: Ptr, pos: nat)
    requires Receives(m, v, cap, j, q, blank, k, t, pos)
    ensures Splits(m, v, cap, j, q) && j < |v.chain| == |v.owner| && v.chain[j] in m.leaves
    ensures Shaped(m.leaves[v.chain[j]], |m.leaves[v.chain[j]].idxs|)
  {
  }

  lemma LiftedHalf(m: Mem, v: View, cap: nat, j: nat, q: Ptr, r: Ptr, noSep: Sep, blank: Entry)
    requires j < |v.chain| && v.chain[j] in m.leaves && Shaped(m.leaves[v.chain[j]], |m.leaves[v.chain[j]].idxs|)
    ensures v.chain[j] in Lift(m, r, cap, noSep).leaves
    ensures Shaped(Lift(m, r, cap, noSep).leaves[v.chain[j]], |Lift(m, r, cap, noSep).leaves[v.chain[j]].idxs|)
    ensures MoveHalf(Lift(m, r, cap, noSep), v.chain[j], q, blank).leaves == MoveHalf(m, v.chain[j], q, blank).leaves
  {
    hide Shaped;
  }

  lemma LiftedUnder(m: Mem, v: View, cap: nat, j: nat, q: Ptr, r: Ptr, noSep: Sep)
    requires Inv(m, v, cap) && Splits(m, v, cap, j, q) && m.root == v.chain[j] && Unused(m, r) && r != q
    ensures SplitsUnder(Lift(m, r, cap, noSep), LiftView(m, v, r), cap, r, j, q, r, 0)
  {
    hide Listing, InnerOk, LeafAt, Permutation, Ascending;
    LiftOk(m, v, cap, r, noSep);
  }

  lemma LiftedReceives(m: Mem, v: View, cap: nat, j: nat, q: Ptr, r: Ptr, noSep: Sep, blank: Entry, k: Key, t: Ptr,
                       pos: nat)
    requires Receives(m, v, cap, j, q, blank, k, t, pos) && Splits(Lift(m, r, cap, noSep), LiftView(m, v, r), cap, j, q)
    ensures Receives(Lift(m, r, cap, noSep), LiftView(m, v, r), cap, j, q, blank, k, t, pos)
  {
    hide Splits, LowerHalf, UpperHalf, IsTarget;
    ReceivesParts(m, v, cap, j, q, blank, k, t, pos);
    var m0, v0 := Lift(m, r, cap, noSep), LiftView(m, v, r);
    SameLeaves(m, m0, v, k, j);
    SameChain(m0, v, v0, k, j);
    LiftedHalf(m, v, cap, j, q, r, noSep, blank);
  }

  lemma SameChain(m: Mem, v: View, v': View, k: Key, j: nat)
    requires v'.chain == v.chain
    ensures IsTarget(m, v', k, j) == IsTarget(m, v, k, j)
  {
  }

  predicate IsFullLeaf(m: Mem, cap: nat, p: Ptr) {
    p in m.leaves && Shaped(m.leaves[p], cap) && m.leaves[p].size == cap
  }

  ghost predicate Lacks(m: Mem, p: Ptr, k: Key) {
    forall x :: 0 <= x < |RowsAt(m, p)| ==> RowsAt(m, p)[x].key != k
  }

  lemma MaySplit(m: Mem, v: View, cap: nat, j: nat, q: Ptr)
    requires Inv(m, v, cap) && j < |v.chain| && IsFullLeaf(m, cap, v.chain[j]) && Unused(m, q)
    ensures Splits(m, v, cap, j, q)
  {
    hide RowsAt;
  }

  /** The way down to leaf `p`: node `g` has room for the split of node `i` of the path,
      and all from there on are full. */
  ghost predicate Going(m: Mem, v: View, cap: nat, path: seq<Ptr>, i: nat, g: Ptr, p: Ptr, k: Key, j: nat)
    requires i >= 1
  {
    && IsTarget(m, v, k, j) && PathOk(m, v, cap, path, i, p, j) && FullFrom(m, cap, path, i)
    && Ready(m, v, cap, g, Below(path, i - 1, p), j)
  }

  lemma GoneDown(m: Mem, v: View, m': Mem, v': View, cap: nat, path: seq<Ptr>, g: Ptr, p: Ptr, k: Key, j: nat)
    requires path != [] && Going(m', v', cap, path, |path|, g, p, k, j) && m'.leaves == m.leaves && v'.chain == v.chain
    requires IsFullLeaf(m, cap, p) && Lacks(m, p, k)
    ensures IsFullLeaf(m', cap, p) && Lacks(m', p, k) && Ready(m', v', cap, g, p, j)
    ensures IsTarget(m', v', k, j) && p == v'.chain[j]
  {
    LeavesDecide(m, v, m', v', k, j, p);
  }

  lemma AbsentRows(m: Mem, v: View, cap: nat, k: Key, j: nat, p: Ptr, pos: nat)
    requires Inv(m, v, cap) && Searched(m, v, cap, k, j, p, pos) && !HasKey(m, p, pos, k)
    ensures Lacks(m, p, k) && m.leaves[p].size <= cap
    ensures m.leaves[p].size == cap ==> IsFullLeaf(m, cap, p)
  {
    FoundIs(m, v, cap, k, j, p, pos);
  }

  lemma RoomForKey(m: Mem, v: View, cap: nat, k: Key, j: nat, p: Ptr, pos: nat)
    requires Inv(m, v, cap) && IsTarget(m, v, k, j) && p == v.chain[j] && p in m.leaves && Shaped(m.leaves[p], cap)
    requires IsLowerBound(Items(m.leaves[p]), k, pos) && m.leaves[p].size < cap && Lacks(m, p, k)
    ensures HasRoom(m, v, cap, k, j, pos)
  {
    RowKeys(m, p, cap);
    FoundIs(m, v, cap, k, j, p, pos);
  }

  lemma SearchedBounds(m: Mem, v: View, cap: nat, k: Key, j: nat, p: Ptr, pos: nat)
    requires Searched(m, v, cap, k, j, p, pos) && HasKey(m, p, pos, k)
    ensures p in m.leaves && Shaped(m.leaves[p], cap) && pos < m.leaves[p].size <= |m.leaves[p].idxs|
    ensures m.leaves[p].idxs[pos] < |m.leaves[p].entries|
  {
  }

  lemma NoHops(m: Mem, v: View, cap: nat, p: Ptr, j: nat)
    ensures HopsOk(m, v, cap, [], p, j)
  {
  }

  lemma TargetChildren(m: Mem, v: View, cap: nat, t: Ptr, s: nat, j: nat)
    requires Inv(m, v, cap) && Owns(m, v, cap, t, s, j)
    ensures t in m.inners && s + 1 < |m.inners[t].children|
  {
    assert InnerOk(m, v, cap, 0, t);
  }

  lemma EmptyTree(cap: nat, blank: Entry, q: Ptr)
    requires cap >= 3 && q != 0
    ensures var m, v := Mem(map[q := NewLeaf(cap, blank)], map[], q, 0),
              View([q], map[q := 0], map[q := 1], {}, map[], [0]);
            Inv(m, v, cap) && Contents(m, v) == map[]
  {
    var m, v := Mem(map[q := NewLeaf(cap, blank)], map[], q, 0), View([q], map[q := 0], map[q := 1], {}, map[], [0]);
    assert Shaped(NewLeaf(cap, blank), cap);
    assert v.chain[..0] == [] && v.chain[0] == q;
    assert Listing(m, v.chain) == [];
  }

  /** Every boundary added since `before` is a well-formed tree holding `s`. */
  ghost predicate Quiet(before: seq<Boundary>, log: seq<Boundary>, cap: nat, s: map<Key, Value>) {
    before <= log && forall x :: |before| <= x < |log| ==> Holds(log[x], cap, s)
  }

  /** The same but for the last boundary. */
  ghost predicate Extends(before: seq<Boundary>, log: seq<Boundary>, cap: nat, s: map<Key, Value>) {
    |log| > |before| && Quiet(before, log[..|log| - 1], cap, s)
  }

  lemma PathLive(m: Mem, v: View, cap: nat, path: seq<Ptr>, x: nat, leaf: Ptr, j: nat)
    requires Inv(m, v, cap) && PathOk(m, v, cap, path, x, leaf, j)
    ensures forall y :: x <= y < |path| ==> path[y] in m.inners && m.inners[path[y]].size <= cap
  {
    forall y | x <= y < |path|
      ensures path[y] in m.inners && m.inners[path[y]].size <= cap
    {
      assert InnerOk(m, v, cap, 0, path[y]);
    }
  }

  /** Where a key belongs depends on the leaves alone. */
  lemma LeavesDecide(m: Mem, v: View, m': Mem, v': View, k: Key, j: nat, p: Ptr)
    requires m'.leaves == m.leaves && v'.chain == v.chain
    ensures IsTarget(m', v', k, j) == IsTarget(m, v, k, j)
    ensures RowsAt(m', p) == RowsAt(m, p)
  {
    SameChain(m, v, v', k, j);
    SameLeaves(m, m', v', k, j);
  }

  lemma RoomReady(m: Mem, v: View, cap: nat, path: seq<Ptr>, i: nat, leaf: Ptr, j: nat)
    requires Inv(m, v, cap) && PathOk(m, v, cap, path, 0, leaf, j) && i < |path|
    requires path[i] in m.inners && m.inners[path[i]].size != cap
    ensures Ready(m, v, cap, path[i], Below(path, i, leaf), j) && PathOk(m, v, cap, path, i + 1, leaf, j)
  {
    assert InnerOk(m, v, cap, 0, path[i]);
  }

  lemma LiftListing(m: Mem, v: View, cap: nat, r: Ptr, noSep: Sep)
    ensures Listing(Lift(m, r, cap, noSep), v.chain) == Listing(m, v.chain)
  {
    ListingFrame(m, Lift(m, r, cap, noSep), v.chain);
  }

  lemma RootCovers(m: Mem, v: View, cap: nat, k: Key, j: nat)
    requires Inv(m, v, cap) && IsTarget(m, v, k, j)
    ensures Covers(v, m.root, j) && (m.root in v.live || m.root in m.leaves)
  {
  }

  /** A path from parent to child that has come to `p`. */
  ghost predicate OnWay(m: Mem, v: View, cap: nat, path: seq<Ptr>, p: Ptr, j: nat) {
    forall y :: 0 <= y < |path| ==> PathStep(m, v, cap, path[y], Below(path, y, p), j)
  }

  lemma OnWayNext(m: Mem, v: View, cap: nat, path: seq<Ptr>, p: Ptr, j: nat, i: nat, c: Ptr)
    requires OnWay(m, v, cap, path, p, j) && p in v.live && Covers(v, p, j) && IsKid(m, v, cap, p, i, c)
    ensures OnWay(m, v, cap, path + [p], c, j)
  {
    hide IsKid, Covers;
    var longer := path + [p];
    forall y | 0 <= y < |longer|
      ensures PathStep(m, v, cap, longer[y], Below(longer, y, c), j)
    {
      if y < |path| { assert PathStep(m, v, cap, path[y], Below(path, y, p), j); }
    }
  }

  lemma LiveIs(m: Mem, v: View, cap: nat, p: Ptr)
    requires Inv(m, v, cap) && p in v.live
    ensures p in m.inners && p !in m.leaves
  {
    assert InnerOk(m, v, cap, 0, p);
  }

  lemma LeafCovers(m: Mem, v: View, cap: nat, p: Ptr, j: nat)
    requires Inv(m, v, cap) && p in m.leaves && Covers(v, p, j)
    ensures j < |v.chain| && p == v.chain[j]
  {
    LeafIs(m, v, cap, p, j);
  }
}
