/** The volatile part of tree3 above its leaves: inner nodes with up to four keys, parent
    pointers, and the top. Nodes are values in a map from addresses.

    A ghost view numbers the leaves from left to right and gives every node the interval
    of leaf numbers below it. The keys of inner nodes are copies: between leaf x - 1 and
    leaf x stands the separator seps[x], and nowhere else. */
module Tree3Shape {
  import opened Keys

  type Ptr = nat

  const INNER_KEYS: nat := 4
  const MIDPOINT: nat := 2
  const UPPER: nat := 3

  /** KVInnerNode: one key and one child more than a node may keep. */
  datatype Inner = Inner(keycount: nat, keys: seq<Key>, children: seq<Ptr>)

  /** KVNode::parent is null at the top. */
  datatype Tree = Tree(inners: map<Ptr, Inner>, parents: map<Ptr, Ptr>, top: Ptr) {
    function Parent(p: Ptr): Ptr { if p in parents then parents[p] else 0 }
  }

  datatype View = View(chain: seq<Ptr>, seps: seq<Key>, lo: map<Ptr, nat>, hi: map<Ptr, nat>, level: map<Ptr, nat>) {
    ghost function Lo(p: Ptr): nat { if p in lo then lo[p] else 0 }
    ghost function Hi(p: Ptr): nat { if p in hi then hi[p] else 0 }
    ghost function Level(p: Ptr): nat { if p in level then level[p] else 0 }
  }

  /** What InnerUpdateAfterSplit has still to repair: a node was split and its right half is
      not yet known to the parent, or a node has one key too many. */
  datatype Gap = Closed | Open(node: Ptr, new_: Ptr) | Over(n: Ptr)

  // ------------------------------------------------------------ the invariant

  /** Where the part that the parent knows as `c` ends. */
  ghost function End(v: View, g: Gap, c: Ptr): nat {
    if g.Open? && c == g.node then v.Hi(g.new_) else v.Hi(c)
  }

  ghost predicate IsNode(t: Tree, v: View, c: Ptr) {
    c in t.inners || c in v.chain
  }

  predicate Sized(node: Inner) {
    |node.keys| == INNER_KEYS + 1 && |node.children| == INNER_KEYS + 2
  }

  /** Two to four keys; the top may have one, and a node to be split has five. */
  predicate SizeOk(t: Tree, g: Gap, n: Ptr)
    requires n in t.inners
  {
    var node := t.inners[n];
    && Sized(node) && 1 <= node.keycount <= (if g == Over(n) then INNER_KEYS + 1 else INNER_KEYS)
    && (n != t.top ==> node.keycount >= MIDPOINT)
  }

  /** Child `i` starts where the one before it ends, one level below. */
  ghost predicate KidOk(t: Tree, v: View, g: Gap, n: Ptr, i: nat)
    requires n in t.inners && i < |t.inners[n].children|
  {
    var c := t.inners[n].children[i];
    && IsNode(t, v, c) && v.Level(c) + 1 == v.Level(n) && t.Parent(c) == n && (g.Open? ==> c != g.new_)
    && v.Lo(c) < End(v, g, c) <= |v.chain|
    && v.Lo(c) == (if i == 0 then v.Lo(n) else End(v, g, t.inners[n].children[i - 1]))
    && (i == t.inners[n].keycount ==> End(v, g, c) == v.Hi(n))
  }

  /** Key `i` is the separator where child `i + 1` starts. */
  ghost predicate KeyOk(t: Tree, v: View, n: Ptr, i: nat)
    requires n in t.inners && i < |t.inners[n].keys| && i + 1 < |t.inners[n].children|
  {
    var x := v.Lo(t.inners[n].children[i + 1]);
    1 <= x < |v.seps| && t.inners[n].keys[i] == v.seps[x]
  }

  ghost predicate InnerOk(t: Tree, v: View, g: Gap, n: Ptr)
    requires n in t.inners
  {
    && n != 0 && n !in v.chain && SizeOk(t, g, n)
    && (forall i :: 0 <= i <= t.inners[n].keycount ==> KidOk(t, v, g, n, i))
    && (forall i :: 0 <= i < t.inners[n].keycount ==> KeyOk(t, v, n, i))
  }

  ghost predicate LeafAt(v: View, j: nat)
    requires j < |v.chain|
  {
    v.chain[j] != 0 && v.Lo(v.chain[j]) == j && v.Hi(v.chain[j]) == j + 1 && v.Level(v.chain[j]) == 0
  }

  ghost predicate ChainOk(v: View) {
    && |v.chain| > 0 && |v.seps| == |v.chain|
    && (forall j :: 0 <= j < |v.chain| ==> LeafAt(v, j))
    && (forall i, j :: 1 <= i < j < |v.seps| ==> v.seps[i] < v.seps[j])
  }

  predicate IsKid(t: Tree, n: Ptr, i: nat, c: Ptr) {
    n in t.inners && i <= t.inners[n].keycount < |t.inners[n].children| && t.inners[n].children[i] == c
  }

  /** Every node but the top, and a new one, is a child of its parent. */
  ghost predicate ParentOk(t: Tree, g: Gap, x: Ptr) {
    x == t.top || (g.Open? && x == g.new_) || exists i :: IsKid(t, t.Parent(x), i, x)
  }

  /** The two halves of a split node. */
  ghost predicate GapOk(t: Tree, v: View, g: Gap) {
    match g
    case Closed => true
    case Over(n) => n in t.inners
    case Open(p, q) =>
      && IsNode(t, v, p) && IsNode(t, v, q) && p != q && q != t.top
      && t.Parent(q) == t.Parent(p) && v.Level(q) == v.Level(p)
      && v.Lo(p) < v.Hi(p) == v.Lo(q) < v.Hi(q) <= |v.chain|
      && (p in t.inners ==> t.inners[p].keycount >= MIDPOINT)
  }

  ghost predicate RootOk(t: Tree, v: View, g: Gap) {
    IsNode(t, v, t.top) && t.Parent(t.top) == 0 && v.Lo(t.top) == 0 && End(v, g, t.top) == |v.chain|
  }

  ghost predicate ShapeOk(t: Tree, v: View, g: Gap) {
    && ChainOk(v) && RootOk(t, v, g) && GapOk(t, v, g)
    && (forall n :: n in t.inners ==> InnerOk(t, v, g, n))
    && (forall x :: IsNode(t, v, x) ==> ParentOk(t, g, x))
  }

  predicate Fresh(t: Tree, v: View, q: Ptr) {
    q != 0 && q !in t.inners && q !in v.chain
  }

  // ------------------------------------------------------------ pieces of the invariant

  lemma Pieces(t: Tree, v: View, g: Gap)
    requires ShapeOk(t, v, g)
    ensures ChainOk(v) && RootOk(t, v, g) && GapOk(t, v, g) && |v.chain| == |v.seps| > 0
    ensures forall x :: IsNode(t, v, x) ==> ParentOk(t, g, x)
  {
    hide InnerOk, RootOk, ParentOk;
  }

  lemma AnInner(t: Tree, v: View, g: Gap, n: Ptr)
    requires ShapeOk(t, v, g) && n in t.inners
    ensures InnerOk(t, v, g, n)
  {
  }

  lemma AKid(t: Tree, v: View, g: Gap, n: Ptr, i: nat)
    requires n in t.inners && InnerOk(t, v, g, n) && i <= t.inners[n].keycount
    ensures SizeOk(t, g, n) && i < |t.inners[n].children| && KidOk(t, v, g, n, i)
  {
  }

  lemma AKey(t: Tree, v: View, g: Gap, n: Ptr, i: nat)
    requires n in t.inners && InnerOk(t, v, g, n) && i < t.inners[n].keycount
    ensures SizeOk(t, g, n) && i < |t.inners[n].keys| && i + 1 < |t.inners[n].children| && KeyOk(t, v, n, i)
  {
  }

  lemma InnerFacts(t: Tree, v: View, g: Gap, n: Ptr)
    requires n in t.inners && InnerOk(t, v, g, n)
    ensures n != 0 && n !in v.chain && SizeOk(t, g, n)
  {
  }

  lemma AnyInner(t: Tree, v: View, g: Gap, n: Ptr)
    requires n in t.inners && n != 0 && n !in v.chain && SizeOk(t, g, n)
    requires forall i :: 0 <= i <= t.inners[n].keycount ==> KidOk(t, v, g, n, i)
    requires forall i :: 0 <= i < t.inners[n].keycount ==> KeyOk(t, v, n, i)
    ensures InnerOk(t, v, g, n)
  {
    hide KidOk, KeyOk, SizeOk;
  }

  lemma Whole(t: Tree, v: View, g: Gap)
    requires ChainOk(v) && RootOk(t, v, g) && GapOk(t, v, g)
    requires forall n :: n in t.inners ==> InnerOk(t, v, g, n)
    requires forall x :: IsNode(t, v, x) ==> ParentOk(t, g, x)
    ensures ShapeOk(t, v, g)
  {
    hide InnerOk, ParentOk, ChainOk, RootOk, GapOk;
  }

  /** The children's intervals ascend. */
  lemma {:induction false} KidsAscend(t: Tree, v: View, g: Gap, n: Ptr, i: nat, j: nat)
    requires n in t.inners && InnerOk(t, v, g, n) && i < j <= t.inners[n].keycount
    ensures var ch := t.inners[n].children;
            && v.Lo(n) <= v.Lo(ch[i]) < End(v, g, ch[i]) <= v.Lo(ch[j]) < End(v, g, ch[j])
    decreases j
  {
    hide InnerOk, End, SizeOk;
    AKid(t, v, g, n, i);
    AKid(t, v, g, n, j);
    AKid(t, v, g, n, j - 1);
    if i + 1 < j { KidsAscend(t, v, g, n, i, j - 1); }
    KidFrom(t, v, g, n, i);
  }

  lemma {:induction false} KidFrom(t: Tree, v: View, g: Gap, n: Ptr, i: nat)
    requires n in t.inners && InnerOk(t, v, g, n) && i <= t.inners[n].keycount
    ensures i < |t.inners[n].children| && v.Lo(n) <= v.Lo(t.inners[n].children[i])
    ensures i > 0 ==> v.Lo(n) < v.Lo(t.inners[n].children[i])
  {
    hide InnerOk, End, SizeOk;
    AKid(t, v, g, n, i);
    if i > 0 {
      AKid(t, v, g, n, i - 1);
      KidFrom(t, v, g, n, i - 1);
    }
  }

  lemma {:induction false} KidTo(t: Tree, v: View, g: Gap, n: Ptr, i: nat)
    requires n in t.inners && InnerOk(t, v, g, n) && i <= t.inners[n].keycount
    ensures i < |t.inners[n].children| && End(v, g, t.inners[n].children[i]) <= v.Hi(n) <= |v.chain|
    ensures i < t.inners[n].keycount ==> End(v, g, t.inners[n].children[i]) < v.Hi(n)
    decreases t.inners[n].keycount - i
  {
    hide InnerOk, End, SizeOk;
    AKid(t, v, g, n, i);
    if i < t.inners[n].keycount {
      AKid(t, v, g, n, i + 1);
      KidTo(t, v, g, n, i + 1);
    }
  }

  /** No two places of a node hold the same child. */
  lemma KidsDiffer(t: Tree, v: View, g: Gap, n: Ptr, i: nat, j: nat)
    requires n in t.inners && InnerOk(t, v, g, n) && i < j <= t.inners[n].keycount
    ensures j < |t.inners[n].children| && t.inners[n].children[i] != t.inners[n].children[j]
  {
    hide InnerOk, End;
    AKid(t, v, g, n, j);
    KidsAscend(t, v, g, n, i, j);
  }

  // ------------------------------------------------------------ a leaf is split

  /** How leaf numbers move when a leaf enters after leaf `j`. */
  function Up(j: nat, x: nat): nat {
    if x > j then x + 1 else x
  }

  /** The view once leaf `j` is split at `key` into itself and `q`. */
  ghost function OpenView(v: View, j: nat, q: Ptr, key: Key): View
    requires j < |v.chain| == |v.seps|
  {
    View(v.chain[..j + 1] + [q] + v.chain[j + 1..],
         v.seps[..j + 1] + [key] + v.seps[j + 1..],
         (map c | c in v.lo :: Up(j, v.lo[c]))[q := j + 1],
         (map c | c in v.hi :: Up(j, v.hi[c]))[v.chain[j] := j + 1][q := j + 2],
         v.level[q := 0])
  }

  lemma OpenBounds(v: View, j: nat, q: Ptr, key: Key, c: Ptr)
    requires j < |v.chain| == |v.seps| && c != q
    ensures var v' := OpenView(v, j, q, key);
            && v'.Lo(c) == Up(j, v.Lo(c)) && v'.Level(c) == v.Level(c)
            && (c != v.chain[j] ==> v'.Hi(c) == Up(j, v.Hi(c)))
            && (v.chain[j] != q ==> v'.Hi(v.chain[j]) == j + 1) && v'.Lo(q) == j + 1 && v'.Hi(q) == j + 2 && v'.Level(q)
                 == 0
  {
  }

  lemma OpenEnd(v: View, j: nat, q: Ptr, key: Key, c: Ptr)
    requires ChainOk(v) && j < |v.chain| == |v.seps| && c != q && q != v.chain[j]
    ensures End(OpenView(v, j, q, key), Open(v.chain[j], q), c) == Up(j, v.Hi(c))
  {
    hide OpenView;
    OpenBounds(v, j, q, key, c);
    assert LeafAt(v, j);
  }

  lemma OpenSeqs(v: View, j: nat, q: Ptr, key: Key)
    requires j < |v.chain| == |v.seps|
    ensures var v' := OpenView(v, j, q, key);
            && |v'.chain| == |v'.seps| == |v.chain| + 1
            && v'.chain[j + 1] == q && v'.seps[j + 1] == key
            && (forall x :: 0 <= x < |v.chain| ==> v'.chain[Up(j, x)] == v.chain[x] && v'.seps[Up(j, x)] == v.seps[x])
            && (forall c :: c in v'.chain <==> c in v.chain || c == q)
  {
    var v' := OpenView(v, j, q, key);
    forall c | c in v.chain ensures c in v'.chain {
      var x :| 0 <= x < |v.chain| && v.chain[x] == c;
      assert v'.chain[Up(j, x)] == c;
    }
  }

  /** `key` lies between the separators around leaf `j`. */
  predicate Between(v: View, j: nat, key: Key)
    requires j < |v.seps|
  {
    (j > 0 ==> v.seps[j] < key) && (j + 1 < |v.seps| ==> key < v.seps[j + 1])
  }

  lemma OpenChain(v: View, j: nat, q: Ptr, key: Key)
    requires ChainOk(v) && j < |v.chain| == |v.seps| && q != 0 && q !in v.chain && Between(v, j, key)
    ensures ChainOk(OpenView(v, j, q, key))
  {
    hide OpenView, ChainOk;
    var v' := OpenView(v, j, q, key);
    OpenSeqs(v, j, q, key);
    OpenBounds(v, j, q, key, 0);
    forall y | 0 <= y < |v'.chain| ensures LeafAt(v', y) {
      if y != j + 1 { OpenLeaf(v, j, q, key, if y <= j then y else y - 1); }
    }
    forall x, y | 1 <= x < y < |v'.seps| ensures v'.seps[x] < v'.seps[y] {
      OpenSeps(v, j, q, key, x, y);
    }
    ChainFrom(v');
  }

  lemma ChainFrom(v: View)
    requires |v.chain| > 0 && |v.seps| == |v.chain| && (forall j :: 0 <= j < |v.chain| ==> LeafAt(v, j))
    requires forall i, j :: 1 <= i < j < |v.seps| ==> v.seps[i] < v.seps[j]
    ensures ChainOk(v)
  {
    hide LeafAt;
  }

  lemma OpenLeaf(v: View, j: nat, q: Ptr, key: Key, x: nat)
    requires ChainOk(v) && j < |v.chain| == |v.seps| && q !in v.chain && x < |v.chain|
    ensures Up(j, x) < |OpenView(v, j, q, key).chain| && LeafAt(OpenView(v, j, q, key), Up(j, x))
  {
    hide OpenView;
    OpenSeqs(v, j, q, key);
    OpenBounds(v, j, q, key, v.chain[x]);
    assert LeafAt(v, x) && LeafAt(v, j);
  }

  lemma OpenSeps(v: View, j: nat, q: Ptr, key: Key, x: nat, y: nat)
    requires ChainOk(v) && j < |v.chain| == |v.seps| && Between(v, j, key)
    requires 1 <= x < y <= |v.chain|
    ensures |OpenView(v, j, q, key).seps| == |v.chain| + 1
    ensures OpenView(v, j, q, key).seps[x] < OpenView(v, j, q, key).seps[y]
  {
    hide OpenView, LeafAt;
    OpenSep(v, j, q, key, x);
    OpenSep(v, j, q, key, y);
  }

  lemma OpenSep(v: View, j: nat, q: Ptr, key: Key, z: nat)
    requires j < |v.chain| == |v.seps| && z <= |v.seps|
    ensures var s' := OpenView(v, j, q, key).seps;
            |s'| == |v.seps| + 1 && s'[z] == if z <= j then v.seps[z] else if z == j + 1 then key else v.seps[z - 1]
  {
  }

  /** A node of the tree, seen after the split. */
  lemma OpenInner(t: Tree, v: View, j: nat, q: Ptr, key: Key, n: Ptr)
    requires ShapeOk(t, v, Closed) && j < |v.chain| && Fresh(t, v, q) && n in t.inners
    requires |v.chain| == |v.seps|
    ensures InnerOk(t.(parents := t.parents[q := t.Parent(v.chain[j])]), OpenView(v, j, q, key), Open(v.chain[j], q), n)
  {
    hide OpenView, ShapeOk, ChainOk, InnerOk;
    var t', v', g' := t.(parents := t.parents[q := t.Parent(v.chain[j])]), OpenView(v, j, q, key), Open(v.chain[j], q);
    Pieces(t, v, Closed);
    AnInner(t, v, Closed, n);
    InnerFacts(t, v, Closed, n);
    OpenSeqs(v, j, q, key);
    forall i | 0 <= i <= t.inners[n].keycount ensures KidOk(t', v', g', n, i) {
      OpenKid(t, v, j, q, key, n, i);
    }
    forall i | 0 <= i < t.inners[n].keycount ensures KeyOk(t', v', n, i) {
      OpenKey(t, v, j, q, key, n, i);
    }
    AnyInner(t', v', g', n);
  }

  lemma OpenKid(t: Tree, v: View, j: nat, q: Ptr, key: Key, n: Ptr, i: nat)
    requires ChainOk(v) && j < |v.chain| == |v.seps| && Fresh(t, v, q)
    requires n in t.inners && InnerOk(t, v, Closed, n) && i <= t.inners[n].keycount
    ensures i < |t.inners[n].children|
    ensures KidOk(t.(parents := t.parents[q := t.Parent(v.chain[j])]), OpenView(v, j, q, key), Open(v.chain[j], q), n,
                  i)
  {
    hide OpenView, ChainOk, InnerOk, SizeOk;
    AKid(t, v, Closed, n, i);
    var c := t.inners[n].children[i];
    OpenSeqs(v, j, q, key);
    OpenBounds(v, j, q, key, c);
    OpenBounds(v, j, q, key, n);
    OpenEnd(v, j, q, key, c);
    assert n != v.chain[j] by { InnerFacts(t, v, Closed, n); }
    if i > 0 {
      AKid(t, v, Closed, n, i - 1);
      OpenEnd(v, j, q, key, t.inners[n].children[i - 1]);
    }
  }

  lemma OpenKey(t: Tree, v: View, j: nat, q: Ptr, key: Key, n: Ptr, i: nat)
    requires ChainOk(v) && j < |v.chain| == |v.seps| && Fresh(t, v, q)
    requires n in t.inners && InnerOk(t, v, Closed, n) && i < t.inners[n].keycount
    ensures i < |t.inners[n].keys| && i + 1 < |t.inners[n].children|
    ensures KeyOk(t.(parents := t.parents[q := t.Parent(v.chain[j])]), OpenView(v, j, q, key), n, i)
  {
    hide OpenView, ChainOk, InnerOk, SizeOk;
    AKey(t, v, Closed, n, i);
    AKid(t, v, Closed, n, i + 1);
    OpenSeqs(v, j, q, key);
    OpenBounds(v, j, q, key, t.inners[n].children[i + 1]);
  }

  /** Splitting leaf `j` opens a gap there; no inner node has changed yet. */
  lemma OpenOk(t: Tree, v: View, j: nat, q: Ptr, key: Key)
    requires ShapeOk(t, v, Closed) && j < |v.chain| == |v.seps| && Fresh(t, v, q) && Between(v, j, key)
    ensures ShapeOk(t.(parents := t.parents[q := t.Parent(v.chain[j])]), OpenView(v, j, q, key), Open(v.chain[j], q))
  {
    hide OpenView, ShapeOk, ChainOk, InnerOk, ParentOk, RootOk, GapOk, IsNode;
    var p := v.chain[j];
    var t', v', g' := t.(parents := t.parents[q := t.Parent(p)]), OpenView(v, j, q, key), Open(p, q);
    Pieces(t, v, Closed);
    OpenChain(v, j, q, key);
    OpenRoot(t, v, j, q, key) by { if p in t.inners { NotChained(t, v, Closed, p); } }
    forall n | n in t'.inners ensures InnerOk(t', v', g', n) {
      OpenInner(t, v, j, q, key, n);
    }
    forall x | IsNode(t', v', x) ensures ParentOk(t', g', x) {
      OpenParent(t, v, j, q, key, x);
    }
    Whole(t', v', g');
  }

  lemma OpenParent(t: Tree, v: View, j: nat, q: Ptr, key: Key, x: Ptr)
    requires ShapeOk(t, v, Closed) && j < |v.chain| == |v.seps| && Fresh(t, v, q)
    requires IsNode(t.(parents := t.parents[q := t.Parent(v.chain[j])]), OpenView(v, j, q, key), x)
    ensures ParentOk(t.(parents := t.parents[q := t.Parent(v.chain[j])]), Open(v.chain[j], q), x)
  {
    hide OpenView, InnerOk, ChainOk;
    OpenSeqs(v, j, q, key);
    if x != q && x != t.top {
      assert ParentOk(t, Closed, x);
      var i :| IsKid(t, t.Parent(x), i, x);
      var t' := t.(parents := t.parents[q := t.Parent(v.chain[j])]);
      assert t'.Parent(x) == t.Parent(x) && IsKid(t', t.Parent(x), i, x);
    }
  }

  lemma OpenRoot(t: Tree, v: View, j: nat, q: Ptr, key: Key)
    requires ChainOk(v) && RootOk(t, v, Closed) && j < |v.chain| == |v.seps| && Fresh(t, v, q)
    requires v.chain[j] !in t.inners
    ensures var t' := t.(parents := t.parents[q := t.Parent(v.chain[j])]);
            RootOk(t', OpenView(v, j, q, key), Open(v.chain[j], q))
                && GapOk(t', OpenView(v, j, q, key), Open(v.chain[j], q))
  {
    hide OpenView, InnerOk, ParentOk;
    OpenSeqs(v, j, q, key);
    OpenBounds(v, j, q, key, t.top);
    OpenBounds(v, j, q, key, v.chain[j]);
    OpenEnd(v, j, q, key, t.top);
    assert LeafAt(v, j);
  }

  lemma NotChained(t: Tree, v: View, g: Gap, n: Ptr)
    requires ShapeOk(t, v, g) && n in t.inners
    ensures n !in v.chain && n != 0
  {
    AnInner(t, v, g, n);
  }

  // ------------------------------------------------------------ the parent takes the new node

  /** The shifts of InnerUpdateAfterSplit: `key` enters at `i` and `q` right of child `i`. */
  function InsertChild(n: Inner, i: nat, key: Key, q: Ptr): Inner
    requires i <= n.keycount <= INNER_KEYS && Sized(n)
  {
    Inner(n.keycount + 1,
          n.keys[..i] + [key] + n.keys[i..n.keycount] + n.keys[n.keycount + 1..],
          n.children[..i + 1] + [q] + n.children[i + 1..n.keycount + 1] + n.children[n.keycount + 2..])
  }

  lemma InsertChildAt(n: Inner, i: nat, key: Key, q: Ptr)
    requires i <= n.keycount <= INNER_KEYS && Sized(n)
    ensures var m := InsertChild(n, i, key, q);
            && Sized(m) && m.keycount == n.keycount + 1
            && (forall x :: 0 <= x < i ==> m.keys[x] == n.keys[x]) && m.keys[i] == key
            && (forall x :: i < x < m.keycount ==> m.keys[x] == n.keys[x - 1])
            && (forall x :: 0 <= x <= i ==> m.children[x] == n.children[x]) && m.children[i + 1] == q
            && (forall x :: i + 1 < x <= m.keycount ==> m.children[x] == n.children[x - 1])
  {
  }

  function Attach(t: Tree, n: Ptr, i: nat, key: Key, q: Ptr): Tree
    requires n in t.inners && i <= t.inners[n].keycount <= INNER_KEYS && Sized(t.inners[n])
  {
    t.(inners := t.inners[n := InsertChild(t.inners[n], i, key, q)])
  }

  /** The gap left for the parent: it may have a key too many. */
  function Rest(t: Tree, n: Ptr): Gap
    requires n in t.inners
  {
    if t.inners[n].keycount == INNER_KEYS then Over(n) else Closed
  }

  /** Child `i` of `n` is the split node. */
  ghost predicate Closes(t: Tree, v: View, p: Ptr, q: Ptr, n: Ptr, i: nat, key: Key) {
    && ShapeOk(t, v, Open(p, q)) && n == t.Parent(p) && IsKid(t, n, i, p)
    && n in t.inners && Sized(t.inners[n]) && i <= t.inners[n].keycount <= INNER_KEYS
    && v.Lo(q) < |v.seps| && key == v.seps[v.Lo(q)]
  }

  lemma ClosesFacts(t: Tree, v: View, p: Ptr, q: Ptr, n: Ptr, i: nat, key: Key)
    requires Closes(t, v, p, q, n, i, key)
    ensures InnerOk(t, v, Open(p, q), n) && GapOk(t, v, Open(p, q)) && RootOk(t, v, Open(p, q)) && ChainOk(v)
    ensures t.inners[n].children[i] == p && p != t.top && n != 0
  {
    hide InnerOk, ChainOk;
    Pieces(t, v, Open(p, q));
    AnInner(t, v, Open(p, q), n);
    InnerFacts(t, v, Open(p, q), n);
  }

  /** The search for the place of the key finds the split child. */
  lemma PlaceIs(t: Tree, v: View, p: Ptr, q: Ptr, n: Ptr, i: nat, key: Key, x: nat)
    requires Closes(t, v, p, q, n, i, key) && x < t.inners[n].keycount
    ensures t.inners[n].keys[x] <= key <==> x < i
  {
    hide ShapeOk, InnerOk, ChainOk;
    var g := Open(p, q);
    ClosesFacts(t, v, p, q, n, i, key);
    AKey(t, v, g, n, x);
    AKid(t, v, g, n, i);
    if x < i {
      if x + 1 < i { KidsAscend(t, v, g, n, x + 1, i); }
    } else {
      KidsAscend(t, v, g, n, i, x + 1);
    }
    SepsAscend(v);
  }

  lemma SepsAscend(v: View)
    requires ChainOk(v)
    ensures forall i, j :: 1 <= i < j < |v.seps| ==> v.seps[i] < v.seps[j]
  {
  }

  /** Another node is not touched. */
  lemma CloseOther(t: Tree, v: View, p: Ptr, q: Ptr, n: Ptr, i: nat, key: Key, x: Ptr)
    requires Closes(t, v, p, q, n, i, key) && x in t.inners && x != n
    ensures InnerOk(Attach(t, n, i, key, q), v, Rest(t, n), x)
  {
    hide ShapeOk, InnerOk, InsertChild;
    var g, t', g' := Open(p, q), Attach(t, n, i, key, q), Rest(t, n);
    AnInner(t, v, g, x);
    InnerFacts(t, v, g, x);
    forall y | 0 <= y <= t.inners[x].keycount ensures KidOk(t', v, g', x, y) {
      AKid(t, v, g, x, y);
      if y > 0 { AKid(t, v, g, x, y - 1); }
    }
    forall y | 0 <= y < t.inners[x].keycount ensures KeyOk(t', v, x, y) {
      AKey(t, v, g, x, y);
    }
    AnyInner(t', v, g', x);
  }

  lemma CloseKid(t: Tree, v: View, p: Ptr, q: Ptr, n: Ptr, i: nat, key: Key, y: nat)
    requires Closes(t, v, p, q, n, i, key) && y <= t.inners[n].keycount + 1
    ensures var t' := Attach(t, n, i, key, q); y < |t'.inners[n].children| && KidOk(t', v, Rest(t, n), n, y)
  {
    hide ShapeOk, InnerOk, InsertChild, ChainOk, KidOk;
    InsertChildAt(t.inners[n], i, key, q);
    if y < i {
      KidBefore(t, v, p, q, n, i, key, y);
    } else if y == i {
      KidAtGap(t, v, p, q, n, i, key);
    } else if y == i + 1 {
      KidNew(t, v, p, q, n, i, key);
    } else {
      KidAfter(t, v, p, q, n, i, key, y);
    }
  }

  lemma KidBefore(t: Tree, v: View, p: Ptr, q: Ptr, n: Ptr, i: nat, key: Key, y: nat)
    requires Closes(t, v, p, q, n, i, key) && y < i
    ensures var t' := Attach(t, n, i, key, q); y < |t'.inners[n].children| && KidOk(t', v, Rest(t, n), n, y)
  {
    hide ShapeOk, InnerOk, InsertChild, ChainOk, GapOk, RootOk;
    var g := Open(p, q);
    ClosesFacts(t, v, p, q, n, i, key);
    InsertChildAt(t.inners[n], i, key, q);
    KidsDiffer(t, v, g, n, y, i);
    AKid(t, v, g, n, y);
    if y > 0 { KidsDiffer(t, v, g, n, y - 1, i); }
  }

  lemma KidAtGap(t: Tree, v: View, p: Ptr, q: Ptr, n: Ptr, i: nat, key: Key)
    requires Closes(t, v, p, q, n, i, key)
    ensures var t' := Attach(t, n, i, key, q); i < |t'.inners[n].children| && KidOk(t', v, Rest(t, n), n, i)
  {
    hide ShapeOk, InnerOk, InsertChild, ChainOk, RootOk;
    var g := Open(p, q);
    ClosesFacts(t, v, p, q, n, i, key);
    InsertChildAt(t.inners[n], i, key, q);
    AKid(t, v, g, n, i);
    if i > 0 { KidsDiffer(t, v, g, n, i - 1, i); }
  }

  lemma KidNew(t: Tree, v: View, p: Ptr, q: Ptr, n: Ptr, i: nat, key: Key)
    requires Closes(t, v, p, q, n, i, key)
    ensures var t' := Attach(t, n, i, key, q); i + 1 < |t'.inners[n].children| && KidOk(t', v, Rest(t, n), n, i + 1)
  {
    hide ShapeOk, InnerOk, InsertChild, ChainOk, RootOk;
    ClosesFacts(t, v, p, q, n, i, key);
    InsertChildAt(t.inners[n], i, key, q);
    AKid(t, v, Open(p, q), n, i);
  }

  lemma KidAfter(t: Tree, v: View, p: Ptr, q: Ptr, n: Ptr, i: nat, key: Key, y: nat)
    requires Closes(t, v, p, q, n, i, key) && i + 1 < y <= t.inners[n].keycount + 1
    ensures var t' := Attach(t, n, i, key, q); y < |t'.inners[n].children| && KidOk(t', v, Rest(t, n), n, y)
  {
    hide ShapeOk, InnerOk, InsertChild, ChainOk, RootOk;
    var g := Open(p, q);
    ClosesFacts(t, v, p, q, n, i, key);
    InsertChildAt(t.inners[n], i, key, q);
    KidsDiffer(t, v, g, n, i, y - 1);
    AKid(t, v, g, n, y - 1);
    if y > i + 2 { KidsDiffer(t, v, g, n, i, y - 2); }
  }

  lemma CloseKey(t: Tree, v: View, p: Ptr, q: Ptr, n: Ptr, i: nat, key: Key, y: nat)
    requires Closes(t, v, p, q, n, i, key) && y <= t.inners[n].keycount
    ensures var t' := Attach(t, n, i, key, q);
            y < |t'.inners[n].keys| && y + 1 < |t'.inners[n].children| && KeyOk(t', v, n, y)
  {
    hide ShapeOk, InnerOk, InsertChild, ChainOk;
    var g := Open(p, q);
    ClosesFacts(t, v, p, q, n, i, key);
    InsertChildAt(t.inners[n], i, key, q);
    if y < i { AKey(t, v, g, n, y); }
    if y > i { AKey(t, v, g, n, y - 1); }
  }

  lemma CloseParent(t: Tree, v: View, p: Ptr, q: Ptr, n: Ptr, i: nat, key: Key, x: Ptr)
    requires Closes(t, v, p, q, n, i, key) && IsNode(t, v, x)
    ensures ParentOk(Attach(t, n, i, key, q), Rest(t, n), x)
  {
    hide ShapeOk, InnerOk, InsertChild, ChainOk;
    var g, t' := Open(p, q), Attach(t, n, i, key, q);
    ClosesFacts(t, v, p, q, n, i, key);
    InsertChildAt(t.inners[n], i, key, q);
    Pieces(t, v, g);
    assert ParentOk(t, g, x);
    if x == q {
      assert IsKid(t', t'.Parent(x), i + 1, x);
    } else if x != t.top {
      var z: nat :| IsKid(t, t.Parent(x), z, x);
      var z': nat := if t.Parent(x) == n && z > i then z + 1 else z;
      assert IsKid(t', t'.Parent(x), z', x);
    }
  }

  /** The parent knows the new node; it may now have a key too many. */
  lemma CloseOk(t: Tree, v: View, p: Ptr, q: Ptr, n: Ptr, i: nat, key: Key)
    requires Closes(t, v, p, q, n, i, key)
    ensures ShapeOk(Attach(t, n, i, key, q), v, Rest(t, n))
  {
    hide ShapeOk, InnerOk, InsertChild, ChainOk, ParentOk, KidOk, KeyOk;
    var g, t', g' := Open(p, q), Attach(t, n, i, key, q), Rest(t, n);
    ClosesFacts(t, v, p, q, n, i, key);
    InsertChildAt(t.inners[n], i, key, q);
    forall x | x in t'.inners ensures InnerOk(t', v, g', x) {
      if x == n {
        InnerFacts(t, v, g, n);
        forall y | 0 <= y <= t'.inners[n].keycount ensures KidOk(t', v, g', n, y) {
          CloseKid(t, v, p, q, n, i, key, y);
        }
        forall y | 0 <= y < t'.inners[n].keycount ensures KeyOk(t', v, n, y) {
          CloseKey(t, v, p, q, n, i, key, y);
        }
        AnyInner(t', v, g', n);
      } else {
        CloseOther(t, v, p, q, n, i, key, x);
      }
    }
    forall x | IsNode(t', v, x) ensures ParentOk(t', g', x) {
      CloseParent(t, v, p, q, n, i, key, x);
    }
    Whole(t', v, g');
  }

  // ------------------------------------------------------------ an inner node is split

  /** The half of the five keys that stays. */
  function LowerHalf(n: Inner): Inner
    requires Sized(n)
  {
    Inner(MIDPOINT, n.keys, n.children[..UPPER] + [0, 0, 0])
  }

  /** The half that moves to a new node; the key between the halves goes to the parent. */
  function UpperHalf(n: Inner): Inner
    requires Sized(n)
  {
    Inner(MIDPOINT, n.keys[UPPER..] + [0.0, 0.0, 0.0], n.children[UPPER..] + [0, 0, 0])
  }

  lemma HalvesAt(n: Inner)
    requires Sized(n)
    ensures var a, b := LowerHalf(n), UpperHalf(n);
            && Sized(a) && Sized(b) && a.keycount == b.keycount == 2
            && a.keys[0] == n.keys[0] && a.keys[1] == n.keys[1] && b.keys[0] == n.keys[3] && b.keys[1] == n.keys[4]
            && a.children[0] == n.children[0] && a.children[1] == n.children[1] && a.children[2] == n.children[2]
            && b.children[0] == n.children[3] && b.children[1] == n.children[4] && b.children[2] == n.children[5]
  {
  }

  function Halve(t: Tree, n: Ptr, o: Ptr): Tree
    requires n in t.inners && Sized(t.inners[n])
  {
    var ch := t.inners[n].children;
    t.(inners := t.inners[n := LowerHalf(t.inners[n])][o := UpperHalf(t.inners[n])],
       parents := t.parents[o := t.Parent(n)][ch[3] := o][ch[4] := o][ch[5] := o])
  }

  ghost function HalveView(t: Tree, v: View, n: Ptr, o: Ptr): View
    requires n in t.inners && Sized(t.inners[n])
  {
    var mid := v.Lo(t.inners[n].children[3]);
    v.(lo := v.lo[o := mid], hi := v.hi[n := mid][o := v.Hi(n)], level := v.level[o := v.Level(n)])
  }

  ghost predicate Halves(t: Tree, v: View, n: Ptr, o: Ptr) {
    ShapeOk(t, v, Over(n)) && n in t.inners && Sized(t.inners[n]) && t.inners[n].keycount == 5 && Fresh(t, v, o)
  }

  /** Bounds, ends and parents of the nodes that exist. */
  lemma HalvedNode(t: Tree, v: View, n: Ptr, o: Ptr, c: Ptr)
    requires Halves(t, v, n, o) && c != o
    ensures var t', v', ch := Halve(t, n, o), HalveView(t, v, n, o), t.inners[n].children;
            && v'.chain == v.chain && v'.seps == v.seps
            && v'.Lo(c) == v.Lo(c) && v'.Level(c) == v.Level(c) && End(v', Open(n, o), c) == v.Hi(c)
            && (c != n ==> v'.Hi(c) == v.Hi(c)) && v'.Hi(n) == v'.Lo(o) == v.Lo(ch[3])
            && v'.Hi(o) == v.Hi(n) && v'.Level(o) == v.Level(n)
            && (IsNode(t', v', c) <==> IsNode(t, v, c)) && IsNode(t', v', o)
            && (c != ch[3] && c != ch[4] && c != ch[5] ==> t'.Parent(c) == t.Parent(c))
            && (c == ch[3] || c == ch[4] || c == ch[5] ==> t'.Parent(c) == o)
  {
    hide ShapeOk, LowerHalf, UpperHalf;
  }

  /** Only children of `n` get a new parent. */
  lemma HalvedKids(t: Tree, v: View, n: Ptr, o: Ptr)
    requires Halves(t, v, n, o)
    ensures InnerOk(t, v, Over(n), n)
    ensures var ch := t.inners[n].children;
            && (forall i :: 0 <= i <= 5 ==>
                  KidOk(t, v, Over(n), n, i) && IsNode(t, v, ch[i]) && t.Parent(ch[i]) == n && ch[i] != o)
            && (forall i, j :: 0 <= i < j <= 5 ==> ch[i] != ch[j])
  {
    hide ShapeOk, InnerOk;
    AnInner(t, v, Over(n), n);
    forall i | 0 <= i <= 5 ensures KidOk(t, v, Over(n), n, i) { AKid(t, v, Over(n), n, i); }
    forall i, j | 0 <= i < j <= 5 ensures t.inners[n].children[i] != t.inners[n].children[j] {
      KidsDiffer(t, v, Over(n), n, i, j);
    }
  }

  lemma HalveParents(t: Tree, v: View, n: Ptr, o: Ptr)
    requires Halves(t, v, n, o)
    ensures var t' := Halve(t, n, o);
            && t'.Parent(o) == t.Parent(n) && t'.Parent(n) == t.Parent(n)
            && (forall c :: c != o && t.Parent(c) != n ==> t'.Parent(c) == t.Parent(c))
            && (forall i :: 0 <= i <= 2 ==> t'.Parent(t.inners[n].children[i]) == n)
            && (forall i :: 3 <= i <= 5 ==> t'.Parent(t.inners[n].children[i]) == o)
  {
    hide ShapeOk, InnerOk, KidOk, LowerHalf, UpperHalf;
    HalvedKids(t, v, n, o);
    SelfLevel(t, v, n, o);
  }

  /** A node is not its own child. */
  lemma SelfLevel(t: Tree, v: View, n: Ptr, o: Ptr)
    requires Halves(t, v, n, o)
    ensures forall i :: 0 <= i <= 5 ==> t.inners[n].children[i] != n
  {
    hide ShapeOk, InnerOk;
    HalvedKids(t, v, n, o);
  }

  lemma HalveOther(t: Tree, v: View, n: Ptr, o: Ptr, x: Ptr)
    requires Halves(t, v, n, o) && x in t.inners && x != n
    ensures x in Halve(t, n, o).inners && InnerOk(Halve(t, n, o), HalveView(t, v, n, o), Open(n, o), x)
  {
    hide ShapeOk, InnerOk, LowerHalf, UpperHalf;
    var t', v', g' := Halve(t, n, o), HalveView(t, v, n, o), Open(n, o);
    AnInner(t, v, Over(n), x);
    InnerFacts(t, v, Over(n), x);
    assert t'.inners[x] == t.inners[x];
    forall i | 0 <= i <= t.inners[x].keycount ensures KidOk(t', v', g', x, i) {
      HalveOtherKid(t, v, n, o, x, i);
    }
    forall i | 0 <= i < t.inners[x].keycount ensures KeyOk(t', v', x, i) {
      AKey(t, v, Over(n), x, i);
      AKid(t, v, Over(n), x, i + 1);
      HalvedNode(t, v, n, o, t.inners[x].children[i + 1]);
    }
    AnyInner(t', v', g', x);
  }

  lemma HalveOtherKid(t: Tree, v: View, n: Ptr, o: Ptr, x: Ptr, i: nat)
    requires Halves(t, v, n, o) && x in t.inners && x != n && InnerOk(t, v, Over(n), x) && i <= t.inners[x].keycount
    ensures x in Halve(t, n, o).inners && Halve(t, n, o).inners[x] == t.inners[x] && i < |t.inners[x].children|
    ensures KidOk(Halve(t, n, o), HalveView(t, v, n, o), Open(n, o), x, i)
  {
    hide ShapeOk, InnerOk, Halve, HalveView, SizeOk;
    AKid(t, v, Over(n), x, i);
    var c := t.inners[x].children[i];
    HalveParents(t, v, n, o);
    HalveInners(t, v, n, o, x);
    HalvedNode(t, v, n, o, c);
    HalvedNode(t, v, n, o, x);
    if i > 0 {
      AKid(t, v, Over(n), x, i - 1);
      HalvedNode(t, v, n, o, t.inners[x].children[i - 1]);
    }
  }

  lemma HalveInners(t: Tree, v: View, n: Ptr, o: Ptr, x: Ptr)
    requires Halves(t, v, n, o)
    ensures var t' := Halve(t, n, o);
            && t'.top == t.top && t'.inners.Keys == t.inners.Keys + {o}
            && (x in t.inners && x != n ==> t'.inners[x] == t.inners[x])
            && t'.inners[n] == LowerHalf(t.inners[n]) && t'.inners[o] == UpperHalf(t.inners[n])
  {
    hide ShapeOk;
  }

  /** The node that was split. */
  lemma HalveSelf(t: Tree, v: View, n: Ptr, o: Ptr)
    requires Halves(t, v, n, o)
    ensures n in Halve(t, n, o).inners && InnerOk(Halve(t, n, o), HalveView(t, v, n, o), Open(n, o), n)
  {
    hide ShapeOk, InnerOk, Halve, HalveView, LowerHalf, UpperHalf, KidOk, KeyOk;
    var t', v', g' := Halve(t, n, o), HalveView(t, v, n, o), Open(n, o);
    HalvedKids(t, v, n, o);
    InnerFacts(t, v, Over(n), n);
    HalveInners(t, v, n, o, n);
    HalvesAt(t.inners[n]);
    HalvedNode(t, v, n, o, n);
    forall i | 0 <= i <= 2 ensures KidOk(t', v', g', n, i) { LowerKid(t, v, n, o, i); }
    forall i | 0 <= i < 2 ensures KeyOk(t', v', n, i) { LowerKey(t, v, n, o, i); }
    AnyInner(t', v', g', n);
  }

  lemma LowerKid(t: Tree, v: View, n: Ptr, o: Ptr, i: nat)
    requires Halves(t, v, n, o) && i <= 2
    ensures n in Halve(t, n, o).inners && i < |Halve(t, n, o).inners[n].children|
    ensures KidOk(Halve(t, n, o), HalveView(t, v, n, o), Open(n, o), n, i)
  {
    hide ShapeOk, InnerOk, Halve, HalveView, LowerHalf, UpperHalf;
    HalvedKids(t, v, n, o);
    HalveInners(t, v, n, o, n);
    HalvesAt(t.inners[n]);
    HalveParents(t, v, n, o);
    HalvedNode(t, v, n, o, t.inners[n].children[i]);
    HalvedNode(t, v, n, o, n);
    SelfLevel(t, v, n, o);
    if i > 0 { HalvedNode(t, v, n, o, t.inners[n].children[i - 1]); }
    AKid(t, v, Over(n), n, i);
    AKid(t, v, Over(n), n, 3);
  }

  lemma LowerKey(t: Tree, v: View, n: Ptr, o: Ptr, i: nat)
    requires Halves(t, v, n, o) && i < 2
    ensures n in Halve(t, n, o).inners && i < |Halve(t, n, o).inners[n].keys|
              && i + 1 < |Halve(t, n, o).inners[n].children|
    ensures KeyOk(Halve(t, n, o), HalveView(t, v, n, o), n, i)
  {
    hide ShapeOk, InnerOk, Halve, HalveView, LowerHalf, UpperHalf, KidOk;
    HalvedKids(t, v, n, o);
    HalveInners(t, v, n, o, n);
    HalvesAt(t.inners[n]);
    HalvedNode(t, v, n, o, t.inners[n].children[i + 1]);
    AKey(t, v, Over(n), n, i);
  }

  /** The new node. */
  lemma HalveNew(t: Tree, v: View, n: Ptr, o: Ptr)
    requires Halves(t, v, n, o)
    ensures o in Halve(t, n, o).inners && InnerOk(Halve(t, n, o), HalveView(t, v, n, o), Open(n, o), o)
  {
    hide ShapeOk, InnerOk, Halve, HalveView, LowerHalf, UpperHalf, KidOk, KeyOk;
    var t', v', g' := Halve(t, n, o), HalveView(t, v, n, o), Open(n, o);
    HalveInners(t, v, n, o, o);
    HalvesAt(t.inners[n]);
    HalvedNode(t, v, n, o, n);
    forall i | 0 <= i <= 2 ensures KidOk(t', v', g', o, i) { UpperKid(t, v, n, o, i); }
    forall i | 0 <= i < 2 ensures KeyOk(t', v', o, i) { UpperKey(t, v, n, o, i); }
    AnyInner(t', v', g', o);
  }

  lemma UpperKid(t: Tree, v: View, n: Ptr, o: Ptr, i: nat)
    requires Halves(t, v, n, o) && i <= 2
    ensures o in Halve(t, n, o).inners && i < |Halve(t, n, o).inners[o].children|
    ensures KidOk(Halve(t, n, o), HalveView(t, v, n, o), Open(n, o), o, i)
  {
    hide ShapeOk, InnerOk, Halve, HalveView, LowerHalf, UpperHalf;
    HalvedKids(t, v, n, o);
    HalveInners(t, v, n, o, o);
    HalvesAt(t.inners[n]);
    HalveParents(t, v, n, o);
    HalvedNode(t, v, n, o, t.inners[n].children[i + 3]);
    if i > 0 { HalvedNode(t, v, n, o, t.inners[n].children[i + 2]); }
    AKid(t, v, Over(n), n, i + 3);
  }

  lemma UpperKey(t: Tree, v: View, n: Ptr, o: Ptr, i: nat)
    requires Halves(t, v, n, o) && i < 2
    ensures o in Halve(t, n, o).inners && i < |Halve(t, n, o).inners[o].keys|
              && i + 1 < |Halve(t, n, o).inners[o].children|
    ensures KeyOk(Halve(t, n, o), HalveView(t, v, n, o), o, i)
  {
    hide ShapeOk, InnerOk, Halve, HalveView, LowerHalf, UpperHalf, KidOk;
    HalvedKids(t, v, n, o);
    HalveInners(t, v, n, o, o);
    HalvesAt(t.inners[n]);
    HalvedNode(t, v, n, o, t.inners[n].children[i + 4]);
    AKey(t, v, Over(n), n, i + 3);
  }

  lemma HalveParentOk(t: Tree, v: View, n: Ptr, o: Ptr, x: Ptr)
    requires Halves(t, v, n, o) && IsNode(Halve(t, n, o), HalveView(t, v, n, o), x)
    ensures ParentOk(Halve(t, n, o), Open(n, o), x)
  {
    hide ShapeOk, InnerOk, Halve, HalveView, LowerHalf, UpperHalf, KidOk;
    var t' := Halve(t, n, o);
    HalveInners(t, v, n, o, t.Parent(x));
    HalvesAt(t.inners[n]);
    HalveParents(t, v, n, o);
    Pieces(t, v, Over(n));
    if x != o && x != t.top {
      HalvedNode(t, v, n, o, x);
      assert ParentOk(t, Over(n), x);
      var i: nat :| IsKid(t, t.Parent(x), i, x);
      if t.Parent(x) == n {
        if i <= 2 {
          assert IsKid(t', n, i, x);
        } else {
          assert IsKid(t', o, i - 3, x);
        }
      } else {
        assert IsKid(t', t.Parent(x), i, x);
      }
    }
  }

  lemma HalveRoot(t: Tree, v: View, n: Ptr, o: Ptr)
    requires Halves(t, v, n, o)
    ensures var t', v' := Halve(t, n, o), HalveView(t, v, n, o);
            RootOk(t', v', Open(n, o)) && GapOk(t', v', Open(n, o)) && ChainOk(v')
    ensures t.inners[n].keys[MIDPOINT] == HalveView(t, v, n, o).seps[HalveView(t, v, n, o).Lo(o)]
  {
    hide ShapeOk, InnerOk, Halve, HalveView, LowerHalf, UpperHalf;
    HalveInners(t, v, n, o, t.top);
    HalvesAt(t.inners[n]);
    HalveParents(t, v, n, o);
    HalvedKids(t, v, n, o);
    Pieces(t, v, Over(n));
    HalvedNode(t, v, n, o, t.top);
    HalvedNode(t, v, n, o, n);
    AKey(t, v, Over(n), n, 2);
    KidFrom(t, v, Over(n), n, 3);
    KidTo(t, v, Over(n), n, 3);
    AKid(t, v, Over(n), n, 3);
    TopKept(t, v, n, o);
  }

  /** The top keeps its null parent, and the leaves their numbers. */
  lemma TopKept(t: Tree, v: View, n: Ptr, o: Ptr)
    requires Halves(t, v, n, o)
    ensures Halve(t, n, o).Parent(t.top) == 0 && ChainOk(HalveView(t, v, n, o))
  {
    hide ShapeOk, InnerOk, LowerHalf, UpperHalf, KidOk;
    HalvedKids(t, v, n, o);
    InnerFacts(t, v, Over(n), n);
    Pieces(t, v, Over(n));
    var v' := HalveView(t, v, n, o);
    forall j | 0 <= j < |v'.chain| ensures LeafAt(v', j) {
      assert LeafAt(v, j);
    }
  }

  /** A node with five keys becomes two with two keys each; the parent learns of the new
      one next. */
  lemma HalveOk(t: Tree, v: View, n: Ptr, o: Ptr)
    requires Halves(t, v, n, o)
    ensures ShapeOk(Halve(t, n, o), HalveView(t, v, n, o), Open(n, o))
    ensures HalveView(t, v, n, o).Lo(o) < |v.seps|
    ensures t.inners[n].keys[MIDPOINT] == HalveView(t, v, n, o).seps[HalveView(t, v, n, o).Lo(o)]
  {
    hide ShapeOk, InnerOk, Halve, HalveView, LowerHalf, UpperHalf, ParentOk, RootOk, ChainOk;
    var t', v', g' := Halve(t, n, o), HalveView(t, v, n, o), Open(n, o);
    HalveInners(t, v, n, o, n);
    HalveRoot(t, v, n, o);
    HalvedNode(t, v, n, o, n);
    SepSize(v');
    forall x | x in t'.inners ensures InnerOk(t', v', g', x) {
      if x == n { HalveSelf(t, v, n, o); } else if x == o { HalveNew(t, v, n, o); } else { HalveOther(t, v, n, o, x); }
    }
    forall x | IsNode(t', v', x) ensures ParentOk(t', g', x) {
      HalveParentOk(t, v, n, o, x);
    }
    Whole(t', v', g');
  }

  // ------------------------------------------------------------ a new top

  function TopNode(key: Key, left: Ptr, right: Ptr): Inner {
    Inner(1, [key, 0.0, 0.0, 0.0, 0.0], [left, right, 0, 0, 0, 0])
  }

  function Raise(t: Tree, p: Ptr, q: Ptr, r: Ptr, key: Key): Tree {
    Tree(t.inners[r := TopNode(key, p, q)], t.parents[r := 0][p := r][q := r], r)
  }

  ghost function RaiseView(v: View, p: Ptr, r: Ptr): View {
    v.(lo := v.lo[r := 0], hi := v.hi[r := |v.chain|], level := v.level[r := v.Level(p) + 1])
  }

  ghost predicate Raises(t: Tree, v: View, p: Ptr, q: Ptr, r: Ptr, key: Key) {
    && ShapeOk(t, v, Open(p, q)) && t.Parent(p) == 0 && Fresh(t, v, r)
    && v.Lo(q) < |v.seps| && key == v.seps[v.Lo(q)]
  }

  lemma RaisesFacts(t: Tree, v: View, p: Ptr, q: Ptr, r: Ptr, key: Key)
    requires Raises(t, v, p, q, r, key)
    ensures p == t.top && p != q && p != r && q != r && q != t.top && GapOk(t, v, Open(p, q))
              && RootOk(t, v, Open(p, q))
  {
    hide InnerOk, ChainOk;
    Pieces(t, v, Open(p, q));
    assert ParentOk(t, Open(p, q), p);
    if p != t.top {
      var i: nat :| IsKid(t, t.Parent(p), i, p);
      NotChained(t, v, Open(p, q), t.Parent(p));
    }
  }

  lemma RaiseBounds(t: Tree, v: View, p: Ptr, q: Ptr, r: Ptr, key: Key, c: Ptr)
    requires Raises(t, v, p, q, r, key) && c != r
    ensures var t', v' := Raise(t, p, q, r, key), RaiseView(v, p, r);
            && v'.chain == v.chain && v'.seps == v.seps
            && v'.Lo(c) == v.Lo(c) && v'.Hi(c) == v.Hi(c) && v'.Level(c) == v.Level(c)
            && v'.Lo(r) == 0 && v'.Hi(r) == |v.chain| && v'.Level(r) == v.Level(p) + 1
            && (IsNode(t', v', c) <==> IsNode(t, v, c)) && IsNode(t', v', r)
            && t'.Parent(c) == (if c == p || c == q then r else t.Parent(c)) && (p != r && q != r ==> t'.Parent(r) == 0)
  {
    hide ShapeOk;
  }

  lemma RaiseOther(t: Tree, v: View, p: Ptr, q: Ptr, r: Ptr, key: Key, x: Ptr)
    requires Raises(t, v, p, q, r, key) && x in t.inners
    ensures x in Raise(t, p, q, r, key).inners && InnerOk(Raise(t, p, q, r, key), RaiseView(v, p, r), Closed, x)
  {
    hide ShapeOk, InnerOk, RaiseView, TopNode;
    var g, t', v' := Open(p, q), Raise(t, p, q, r, key), RaiseView(v, p, r);
    RaisesFacts(t, v, p, q, r, key);
    AnInner(t, v, g, x);
    InnerFacts(t, v, g, x);
    RaiseBounds(t, v, p, q, r, key, x);
    forall i | 0 <= i <= t.inners[x].keycount ensures KidOk(t', v', Closed, x, i) {
      RaiseKid(t, v, p, q, r, key, x, i);
    }
    forall i | 0 <= i < t.inners[x].keycount ensures KeyOk(t', v', x, i) {
      AKey(t, v, g, x, i);
      AKid(t, v, g, x, i + 1);
      RaiseBounds(t, v, p, q, r, key, t.inners[x].children[i + 1]);
    }
    AnyInner(t', v', Closed, x);
  }

  lemma RaiseKid(t: Tree, v: View, p: Ptr, q: Ptr, r: Ptr, key: Key, x: Ptr, i: nat)
    requires Raises(t, v, p, q, r, key) && x in t.inners && InnerOk(t, v, Open(p, q), x) && i <= t.inners[x].keycount
    ensures x in Raise(t, p, q, r, key).inners && Raise(t, p, q, r, key).inners[x] == t.inners[x]
              && i < |t.inners[x].children|
    ensures KidOk(Raise(t, p, q, r, key), RaiseView(v, p, r), Closed, x, i)
  {
    hide ShapeOk, InnerOk, RaiseView, TopNode, RootOk;
    var g := Open(p, q);
    RaisesFacts(t, v, p, q, r, key);
    InnerFacts(t, v, g, x);
    RaiseBounds(t, v, p, q, r, key, x);
    AKid(t, v, g, x, i);
    RaiseBounds(t, v, p, q, r, key, t.inners[x].children[i]);
    if i > 0 {
      AKid(t, v, g, x, i - 1);
      RaiseBounds(t, v, p, q, r, key, t.inners[x].children[i - 1]);
    }
  }

  lemma RaiseTop(t: Tree, v: View, p: Ptr, q: Ptr, r: Ptr, key: Key)
    requires Raises(t, v, p, q, r, key)
    ensures var t', v' := Raise(t, p, q, r, key), RaiseView(v, p, r);
            r in t'.inners && InnerOk(t', v', Closed, r) && RootOk(t', v', Closed) && GapOk(t', v', Closed)
  {
    hide ShapeOk, RaiseView;
    RaisesFacts(t, v, p, q, r, key);
    RaiseBounds(t, v, p, q, r, key, p);
    RaiseBounds(t, v, p, q, r, key, q);
    var t', v' := Raise(t, p, q, r, key), RaiseView(v, p, r);
    assert KidOk(t', v', Closed, r, 0) && KidOk(t', v', Closed, r, 1) && KeyOk(t', v', r, 0);
  }

  lemma RaiseParentOk(t: Tree, v: View, p: Ptr, q: Ptr, r: Ptr, key: Key, x: Ptr)
    requires Raises(t, v, p, q, r, key) && IsNode(Raise(t, p, q, r, key), RaiseView(v, p, r), x)
    ensures ParentOk(Raise(t, p, q, r, key), Closed, x)
  {
    hide ShapeOk, RaiseView;
    var t' := Raise(t, p, q, r, key);
    RaisesFacts(t, v, p, q, r, key);
    Pieces(t, v, Open(p, q));
    if x != r {
      RaiseBounds(t, v, p, q, r, key, x);
      if x == p {
        assert IsKid(t', r, 0, x);
      } else if x == q {
        assert IsKid(t', r, 1, x);
      } else {
        assert ParentOk(t, Open(p, q), x);
        var i: nat :| IsKid(t, t.Parent(x), i, x);
        assert IsKid(t', t.Parent(x), i, x);
      }
    }
  }

  lemma RaiseChain(t: Tree, v: View, p: Ptr, q: Ptr, r: Ptr, key: Key)
    requires Raises(t, v, p, q, r, key)
    ensures ChainOk(RaiseView(v, p, r))
  {
    hide InnerOk, ParentOk, GapOk, RootOk;
    var v' := RaiseView(v, p, r);
    forall j | 0 <= j < |v'.chain| ensures LeafAt(v', j) {
      assert LeafAt(v, j);
    }
  }

  /** A split top gets a new top above it. */
  lemma RaiseOk(t: Tree, v: View, p: Ptr, q: Ptr, r: Ptr, key: Key)
    requires Raises(t, v, p, q, r, key)
    ensures ShapeOk(Raise(t, p, q, r, key), RaiseView(v, p, r), Closed)
  {
    hide ShapeOk, InnerOk, ParentOk, ChainOk, RootOk, GapOk, RaiseView, TopNode;
    var t', v' := Raise(t, p, q, r, key), RaiseView(v, p, r);
    RaiseTop(t, v, p, q, r, key);
    RaiseChain(t, v, p, q, r, key);
    forall x | x in t'.inners ensures InnerOk(t', v', Closed, x) {
      if x != r { RaiseOther(t, v, p, q, r, key, x); }
    }
    forall x | IsNode(t', v', x) ensures ParentOk(t', Closed, x) {
      RaiseParentOk(t, v, p, q, r, key, x);
    }
    Whole(t', v', Closed);
  }

  // ------------------------------------------------------------ routing

  /** Leaf `j` is where `k` belongs. */
  predicate IsTarget(v: View, k: Key, j: nat) {
    j < |v.seps| && (j > 0 ==> v.seps[j] < k) && (j + 1 < |v.seps| ==> k <= v.seps[j + 1])
  }

  lemma TargetExists(v: View, k: Key) returns (j: nat)
    requires ChainOk(v)
    ensures IsTarget(v, k, j)
  {
    j := 0;
    while j + 1 < |v.seps| && v.seps[j + 1] < k
      invariant j < |v.seps| && (j > 0 ==> v.seps[j] < k)
    {
      j := j + 1;
    }
  }

  lemma OneTarget(v: View, k: Key, i: nat, j: nat)
    requires ChainOk(v) && IsTarget(v, k, i) && IsTarget(v, k, j)
    ensures i == j
  {
    hide ChainOk;
    SepSize(v);
    if i < j { SepLe(v, i + 1, j); }
    if j < i { SepLe(v, j + 1, i); }
  }

  lemma SepSize(v: View)
    requires ChainOk(v)
    ensures |v.seps| == |v.chain| > 0
  {
  }

  lemma SepLe(v: View, a: nat, b: nat)
    requires ChainOk(v) && 1 <= a <= b < |v.seps|
    ensures v.seps[a] <= v.seps[b]
  {
    hide LeafAt;
  }

  /** What LeafSearch's loop over the keys of a node picks: `<=` goes left. */
  predicate IsPick(n: Inner, k: Key, i: nat) {
    && i <= n.keycount <= |n.keys| && (forall x :: 0 <= x < i ==> n.keys[x] < k) && (i < n.keycount ==> k <= n.keys[i])
  }

  /** The child picked covers the leaf where the key belongs. */
  lemma Descend(t: Tree, v: View, n: Ptr, k: Key, j: nat, i: nat)
    requires ShapeOk(t, v, Closed) && n in t.inners && IsTarget(v, k, j) && v.Lo(n) <= j < v.Hi(n)
    requires IsPick(t.inners[n], k, i)
    ensures i < |t.inners[n].children|
    ensures var c := t.inners[n].children[i];
            v.Lo(c) <= j < v.Hi(c) && IsNode(t, v, c) && v.Level(c) < v.Level(n)
  {
    hide ShapeOk, InnerOk, ChainOk;
    Pieces(t, v, Closed);
    SepsAscend(v);
    AnInner(t, v, Closed, n);
    AKid(t, v, Closed, n, i);
    if i > 0 { AKey(t, v, Closed, n, i - 1); }
    if i < t.inners[n].keycount {
      AKey(t, v, Closed, n, i);
      AKid(t, v, Closed, n, i + 1);
    }
  }

  lemma LeafIs(v: View, p: Ptr, j: nat)
    requires ChainOk(v) && p in v.chain && v.Lo(p) <= j < v.Hi(p)
    ensures j < |v.chain| && p == v.chain[j]
  {
    var i :| 0 <= i < |v.chain| && v.chain[i] == p;
    assert LeafAt(v, i);
  }

  lemma TopCovers(t: Tree, v: View, j: nat)
    requires ShapeOk(t, v, Closed) && j < |v.chain|
    ensures IsNode(t, v, t.top) && v.Lo(t.top) <= j < v.Hi(t.top)
  {
    hide InnerOk, ParentOk, ChainOk;
  }

  // ------------------------------------------------------------ balance

  function Power3(h: nat): (r: nat)
    ensures r >= 1
  {
    if h == 0 then 1 else 3 * Power3(h - 1)
  }

  /** The leaves below the first `i` children. */
  lemma {:induction false} KidsWidth(t: Tree, v: View, n: Ptr, i: nat, w: nat)
    requires n in t.inners && InnerOk(t, v, Closed, n) && i <= t.inners[n].keycount
    requires forall y :: 0 <= y <= i ==>
               y < |t.inners[n].children| && v.Lo(t.inners[n].children[y]) + w <= v.Hi(t.inners[n].children[y])
    ensures i < |t.inners[n].children| && v.Lo(n) + (i + 1) * w <= v.Hi(t.inners[n].children[i])
  {
    hide InnerOk, SizeOk;
    AKid(t, v, Closed, n, i);
    if i > 0 {
      KidsWidth(t, v, n, i - 1, w);
      assert (i + 1) * w == i * w + w;
    }
  }

  /** Below a node at level h that is not the top lie at least 3^h leaves. */
  lemma {:induction false} NodeWidth(t: Tree, v: View, x: Ptr)
    requires ShapeOk(t, v, Closed) && IsNode(t, v, x) && x != t.top
    ensures v.Lo(x) + Power3(v.Level(x)) <= v.Hi(x)
    decreases v.Level(x)
  {
    hide ShapeOk, ChainOk, InnerOk;
    if x in t.inners {
      AnInner(t, v, Closed, x);
      AllKidsWidth(t, v, x);
      var k := t.inners[x].keycount;
      AKid(t, v, Closed, x, k);
      KidsWidth(t, v, x, k, Power3(v.Level(x) - 1));
      assert (k + 1) * Power3(v.Level(x) - 1) >= 3 * Power3(v.Level(x) - 1);
    } else {
      LeafWidth(t, v, x);
    }
  }

  lemma AllKidsWidth(t: Tree, v: View, n: Ptr)
    requires ShapeOk(t, v, Closed) && n in t.inners
    ensures v.Level(n) > 0 && t.inners[n].keycount < |t.inners[n].children|
    ensures forall y :: 0 <= y <= t.inners[n].keycount ==>
              v.Lo(t.inners[n].children[y]) + Power3(v.Level(n) - 1) <= v.Hi(t.inners[n].children[y])
    decreases v.Level(n), 0
  {
    hide ShapeOk, ChainOk, InnerOk;
    AnInner(t, v, Closed, n);
    AKid(t, v, Closed, n, t.inners[n].keycount);
    forall y | 0 <= y <= t.inners[n].keycount
      ensures v.Lo(t.inners[n].children[y]) + Power3(v.Level(n) - 1) <= v.Hi(t.inners[n].children[y])
    {
      AKid(t, v, Closed, n, y);
      TopNoKid(t, v, n, y);
      NodeWidth(t, v, t.inners[n].children[y]);
    }
  }

  lemma TopNoKid(t: Tree, v: View, n: Ptr, i: nat)
    requires ShapeOk(t, v, Closed) && n in t.inners && i <= t.inners[n].keycount < |t.inners[n].children|
    ensures t.inners[n].children[i] != t.top
  {
    hide ShapeOk, ChainOk, InnerOk;
    Pieces(t, v, Closed);
    AnInner(t, v, Closed, n);
    InnerFacts(t, v, Closed, n);
    AKid(t, v, Closed, n, i);
  }

  lemma LeafWidth(t: Tree, v: View, x: Ptr)
    requires ShapeOk(t, v, Closed) && x in v.chain
    ensures v.Level(x) == 0 && v.Hi(x) == v.Lo(x) + 1
  {
    hide InnerOk, ParentOk, RootOk;
    var j :| 0 <= j < |v.chain| && v.chain[j] == x;
    assert LeafAt(v, j);
  }

  /** The tree is balanced, all leaves being at level 0: with h >= 1 levels of inner nodes
      it has at least 2 * 3^(h - 1) leaves. */
  lemma ManyLeaves(t: Tree, v: View)
    requires ShapeOk(t, v, Closed) && v.Level(t.top) >= 1
    ensures |v.chain| >= 2 * Power3(v.Level(t.top) - 1)
  {
    hide ShapeOk, ChainOk, InnerOk;
    Pieces(t, v, Closed);
    if t.top in v.chain {
      LeafWidth(t, v, t.top);
    } else {
      AnInner(t, v, Closed, t.top);
      AllKidsWidth(t, v, t.top);
      var k := t.inners[t.top].keycount;
      AKid(t, v, Closed, t.top, k);
      KidsWidth(t, v, t.top, k, Power3(v.Level(t.top) - 1));
      assert (k + 1) * Power3(v.Level(t.top) - 1) >= 2 * Power3(v.Level(t.top) - 1);
    }
  }

  /** Every child stands one level below its parent, so that all leaves have one depth,
      and every node but the top has two to four keys. */
  lemma Balanced(t: Tree, v: View, n: Ptr, i: nat)
    requires ShapeOk(t, v, Closed) && n in t.inners && i <= t.inners[n].keycount
    ensures 1 <= t.inners[n].keycount <= INNER_KEYS && (n != t.top ==> MIDPOINT <= t.inners[n].keycount)
    ensures i < |t.inners[n].children| && v.Level(t.inners[n].children[i]) + 1 == v.Level(n)
    ensures t.inners[n].children[i] in t.inners || v.Level(t.inners[n].children[i]) == 0
    ensures t.Parent(t.inners[n].children[i]) == n
  {
    hide ShapeOk, ChainOk, InnerOk;
    AnInner(t, v, Closed, n);
    AKid(t, v, Closed, n, i);
    if t.inners[n].children[i] !in t.inners { LeafWidth(t, v, t.inners[n].children[i]); }
  }

  /** A tree of one leaf. */
  lemma SingleLeaf(p: Ptr)
    requires p != 0
    ensures ShapeOk(Tree(map[], map[p := 0], p), View([p], [0.0], map[p := 0], map[p := 1], map[p := 0]), Closed)
  {
    assert LeafAt(View([p], [0.0], map[p := 0], map[p := 1], map[p := 0]), 0);
  }
}
