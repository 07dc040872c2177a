/** Splay trees as values, and what the macros of a top-down splay do to linked nodes.

  During a splay the nodes form three parts: a left tree of smaller keys, grown along its right
  spine, the tree still to be searched, and a right tree of larger keys, grown along its left
  spine.  A `Spine` lists such a tree from its open end, newest node first, each with its closed
  subtree; the open link of the newest node is stale.  A `Mem` is a snapshot of the links.
 */
module SplayShape {
  import opened Basics

  class Node {
    const key: int
    var left: Node?
    var right: Node?

    constructor (k: int)
      ensures key == k && left == null && right == null
    {
      key, left, right := k, null, null;
    }
  }

  datatype Tree = Leaf | Bin(l: Tree, n: Node, r: Tree)

  datatype Spine = End | Link(up: Spine, n: Node, sub: Tree)

  ghost function Root(t: Tree): Node? {
    if t.Leaf? then null else t.n
  }

  ghost function Size(t: Tree): nat {
    if t.Leaf? then 0 else Size(t.l) + 1 + Size(t.r)
  }

  ghost function Nodes(t: Tree): set<Node> {
    if t.Leaf? then {} else Nodes(t.l) + {t.n} + Nodes(t.r)
  }

  ghost function Inorder(t: Tree): seq<Node> {
    if t.Leaf? then [] else Inorder(t.l) + [t.n] + Inorder(t.r)
  }

  ghost function SpineNodes(c: Spine): set<Node> {
    if c.End? then {} else SpineNodes(c.up) + {c.n} + Nodes(c.sub)
  }

  /** The left tree with `t` hung into its open right link; the right tree, likewise on the left. */
  ghost function PlugL(c: Spine, t: Tree): Tree {
    if c.End? then t else PlugL(c.up, Bin(c.sub, c.n, t))
  }

  ghost function PlugR(c: Spine, t: Tree): Tree {
    if c.End? then t else PlugR(c.up, Bin(t, c.n, c.sub))
  }

  ghost function Prefix(c: Spine): seq<Node> {
    if c.End? then [] else Prefix(c.up) + Inorder(c.sub) + [c.n]
  }

  ghost function Suffix(c: Spine): seq<Node> {
    if c.End? then [] else [c.n] + Inorder(c.sub) + Suffix(c.up)
  }

  lemma {:induction false} PlugLOrder(c: Spine, t: Tree)
    ensures Inorder(PlugL(c, t)) == Prefix(c) + Inorder(t)
    ensures Nodes(PlugL(c, t)) == SpineNodes(c) + Nodes(t)
    decreases c
  {
    if c.Link? {
      PlugLOrder(c.up, Bin(c.sub, c.n, t));
    }
  }

  lemma {:induction false} PlugROrder(c: Spine, t: Tree)
    ensures Inorder(PlugR(c, t)) == Inorder(t) + Suffix(c)
    ensures Nodes(PlugR(c, t)) == SpineNodes(c) + Nodes(t)
    decreases c
  {
    if c.Link? {
      PlugROrder(c.up, Bin(t, c.n, c.sub));
    }
  }

  lemma {:induction false} InorderHas(t: Tree, n: Node)
    ensures n in Inorder(t) <==> n in Nodes(t)
  {
    if t.Bin? {
      InorderHas(t.l, n);
      InorderHas(t.r, n);
    }
  }

  // ----- Search order

  ghost predicate Sorted(s: seq<Node>) {
    forall i, j :: 0 <= i < j < |s| ==> s[i].key < s[j].key
  }

  ghost predicate Below(s: seq<Node>, key: int) {
    forall i :: 0 <= i < |s| ==> s[i].key < key
  }

  ghost predicate Above(s: seq<Node>, key: int) {
    forall i :: 0 <= i < |s| ==> key < s[i].key
  }

  lemma {:induction false} SortedJoin(a: seq<Node>, n: Node, b: seq<Node>)
    ensures Sorted(a + [n] + b) <==> Sorted(a) && Sorted(b) && Below(a, n.key) && Above(b, n.key)
  {
    var s := a + [n] + b;
    if Sorted(s) {
      forall i, j | 0 <= i < j < |b| ensures b[i].key < b[j].key {
        assert s[|a| + 1 + i] == b[i] && s[|a| + 1 + j] == b[j];
      }
      forall i, j | 0 <= i < j < |a| ensures a[i].key < a[j].key {
        assert s[i] == a[i] && s[j] == a[j];
      }
      forall i | 0 <= i < |a| ensures a[i].key < n.key {
        assert s[i] == a[i] && s[|a|] == n;
      }
      forall i | 0 <= i < |b| ensures n.key < b[i].key {
        assert s[|a| + 1 + i] == b[i] && s[|a|] == n;
      }
    }
  }

  /** The parts left and right of a node, for a key on one side of it. */
  lemma {:induction false} Beside(s: seq<Node>, t: Tree, key: int)
    requires t.Bin? && Sorted(Inorder(t))
    ensures Sorted(Inorder(t.l)) && Sorted(Inorder(t.r))
    ensures Below(Inorder(t.l), t.n.key) && Above(Inorder(t.r), t.n.key)
    ensures t.n.key < key && Below(s, key) ==> Below(s + Inorder(t.l) + [t.n], key)
    ensures key < t.n.key && Above(s, key) ==> Above([t.n] + Inorder(t.r) + s, key)
  {
    SortedJoin(Inorder(t.l), t.n, Inorder(t.r));
  }

  // ----- Links

  datatype Cell = Cell(left: Node?, right: Node?)

  type Mem = map<Node, Cell>

  ghost function Snap(s: set<Node>): Mem
    reads s
  {
    map n | n in s :: Cell(n.left, n.right)
  }

  ghost predicate Linked(m: Mem, t: Tree) {
    t.Bin? ==> t.n in m && m[t.n] == Cell(Root(t.l), Root(t.r)) && Linked(m, t.l) && Linked(m, t.r)
  }

  /** The node with the open link: the newest of the spine, or the dummy node that holds both trees. */
  ghost function Last(c: Spine, node: Node): Node {
    if c.End? then node else c.n
  }

  /** The links of the left tree, but for the open one. */
  ghost predicate OpenL(m: Mem, c: Spine, node: Node) {
    && Last(c, node) in m
    && (c.Link? ==> m[c.n].left == Root(c.sub) && Linked(m, c.sub))
    && (c.Link? ==> OpenL(m, c.up, node) && m[Last(c.up, node)].right == c.n)
  }

  ghost predicate OpenR(m: Mem, c: Spine, node: Node) {
    && Last(c, node) in m
    && (c.Link? ==> m[c.n].right == Root(c.sub) && Linked(m, c.sub))
    && (c.Link? ==> OpenR(m, c.up, node) && m[Last(c.up, node)].left == c.n)
  }

  ghost predicate Distinct(t: Tree) {
    t.Bin? ==>
      Distinct(t.l) && Distinct(t.r) && t.n !in Nodes(t.l) && t.n !in Nodes(t.r) && Nodes(t.l) !! Nodes(t.r)
  }

  ghost predicate DistinctSpine(c: Spine) {
    c.Link? ==>
      && DistinctSpine(c.up) && Distinct(c.sub) && c.n !in SpineNodes(c.up) && c.n !in Nodes(c.sub)
      && SpineNodes(c.up) !! Nodes(c.sub)
  }

  ghost predicate Apart(node: Node, l: Spine, t: Tree, r: Spine) {
    && Distinct(t) && DistinctSpine(l) && DistinctSpine(r)
    && SpineNodes(l) !! Nodes(t) && SpineNodes(l) !! SpineNodes(r) && SpineNodes(r) !! Nodes(t)
    && node !in Nodes(t) && node !in SpineNodes(l) && node !in SpineNodes(r)
  }

  /** A splay under way: left tree `l`, tree to search `t`, right tree `r`. */
  ghost predicate SplayingFacts(m: Mem, node: Node, l: Spine, t: Tree, r: Spine) {
    && Linked(m, t) && OpenL(m, l, node) && OpenR(m, r, node) && Apart(node, l, t, r)
    && m.Keys == {node} + SpineNodes(l) + Nodes(t) + SpineNodes(r)
  }

  /** The same, kept folded: the facts are drawn only where `SplayingFacts` is named. */
  ghost predicate Splaying(m: Mem, node: Node, l: Spine, t: Tree, r: Spine) {
    forall n {:trigger SplayingFacts(m, n, l, t, r)} :: n == node ==> SplayingFacts(m, n, l, t, r)
  }

  /** The whole of it in order. */
  ghost function Whole(l: Spine, t: Tree, r: Spine): seq<Node> {
    Prefix(l) + Inorder(t) + Suffix(r)
  }

  ghost predicate SameOn(s: set<Node>, m: Mem, w: Mem) {
    forall n :: n in s && n in m ==> n in w && w[n] == m[n]
  }

  lemma {:induction false} LinkedFrame(m: Mem, w: Mem, t: Tree)
    requires Linked(m, t) && SameOn(Nodes(t), m, w)
    ensures Linked(w, t)
  {
    if t.Bin? {
      LinkedFrame(m, w, t.l);
      LinkedFrame(m, w, t.r);
    }
  }

  /** Links of a left tree survive changes elsewhere, to its open link and to the dummy's left link. */
  lemma {:induction false} OpenLFrame(m: Mem, w: Mem, c: Spine, node: Node)
    requires OpenL(m, c, node) && DistinctSpine(c) && node !in SpineNodes(c)
    requires SameOn(SpineNodes(c) - {Last(c, node)}, m, w)
    requires node in m ==> node in w && (c.Link? ==> w[node].right == m[node].right)
    requires c.Link? ==> c.n in w && w[c.n].left == m[c.n].left
    ensures OpenL(w, c, node)
    decreases c
  {
    if c.Link? {
      LinkedFrame(m, w, c.sub);
      assert node in m by {
        OpenHasNodeL(m, c, node);
      }
      OpenLFrame(m, w, c.up, node);
    }
  }

  lemma {:induction false} OpenHasNodeL(m: Mem, c: Spine, node: Node)
    requires OpenL(m, c, node)
    ensures node in m
    decreases c
  {
    if c.Link? {
      OpenHasNodeL(m, c.up, node);
    }
  }

  lemma {:induction false} OpenRFrame(m: Mem, w: Mem, c: Spine, node: Node)
    requires OpenR(m, c, node) && DistinctSpine(c) && node !in SpineNodes(c)
    requires SameOn(SpineNodes(c) - {Last(c, node)}, m, w)
    requires node in m ==> node in w && (c.Link? ==> w[node].left == m[node].left)
    requires c.Link? ==> c.n in w && w[c.n].right == m[c.n].right
    ensures OpenR(w, c, node)
    decreases c
  {
    if c.Link? {
      LinkedFrame(m, w, c.sub);
      assert node in m by {
        OpenHasNodeR(m, c, node);
      }
      OpenRFrame(m, w, c.up, node);
    }
  }

  lemma {:induction false} OpenHasNodeR(m: Mem, c: Spine, node: Node)
    requires OpenR(m, c, node)
    ensures node in m
    decreases c
  {
    if c.Link? {
      OpenHasNodeR(m, c.up, node);
    }
  }

  // ----- SPLAY_ROTATE_RIGHT and SPLAY_ROTATE_LEFT

  ghost function RotatedRight(t: Tree): Tree
    requires t.Bin? && t.l.Bin?
  {
    Bin(t.l.l, t.l.n, Bin(t.l.r, t.n, t.r))
  }

  ghost function RotatedLeft(t: Tree): Tree
    requires t.Bin? && t.r.Bin?
  {
    Bin(Bin(t.l, t.n, t.r.l), t.r.n, t.r.r)
  }

  lemma {:induction false} RotateKeeps(t: Tree)
    requires t.Bin?
    ensures t.l.Bin? ==> Inorder(RotatedRight(t)) == Inorder(t) && Nodes(RotatedRight(t)) == Nodes(t)
    ensures t.l.Bin? ==> Size(RotatedRight(t)) == Size(t)
    ensures t.r.Bin? ==> Inorder(RotatedLeft(t)) == Inorder(t) && Nodes(RotatedLeft(t)) == Nodes(t)
    ensures t.r.Bin? ==> Size(RotatedLeft(t)) == Size(t)
  {
  }

  /** Changing links within the tree to be searched leaves the rest. */
  lemma {:induction false} TreeChanged(m: Mem, w: Mem, node: Node, l: Spine, t: Tree, u: Tree, r: Spine)
    requires Splaying(m, node, l, t, r) && Linked(w, u) && Distinct(u) && Nodes(u) == Nodes(t)
    requires w.Keys == m.Keys && forall n :: n in m && n !in Nodes(t) ==> w[n] == m[n]
    ensures Splaying(w, node, l, u, r)
  {
    assert SplayingFacts(m, node, l, t, r);
    OpenLFrame(m, w, l, node);
    OpenRFrame(m, w, r, node);
  }

  lemma {:induction false} RotateRightLinks(m: Mem, w: Mem, t: Tree)
    requires Linked(m, t) && Distinct(t) && t.Bin? && t.l.Bin? && Linked(m, t.l) && Distinct(t.l)
    requires w == m[t.n := m[t.n].(left := m[t.l.n].right)][t.l.n := m[t.l.n].(right := t.n)]
    ensures Linked(w, RotatedRight(t)) && Distinct(RotatedRight(t))
  {
    var x, n := t.l.n, t.n;
    assert x in Nodes(t.l) && x != n;
    assert n !in Nodes(t.l.l) && n !in Nodes(t.l.r) && x !in Nodes(t.r);
    LinkedFrame(m, w, t.l.l);
    LinkedFrame(m, w, t.l.r);
    LinkedFrame(m, w, t.r);
    var inner := Bin(t.l.r, n, t.r);
    assert Linked(w, inner) && Distinct(inner);
  }

  lemma {:induction false} RotateLeftLinks(m: Mem, w: Mem, t: Tree)
    requires Linked(m, t) && Distinct(t) && t.Bin? && t.r.Bin? && Linked(m, t.r) && Distinct(t.r)
    requires w == m[t.n := m[t.n].(right := m[t.r.n].left)][t.r.n := m[t.r.n].(left := t.n)]
    ensures Linked(w, RotatedLeft(t)) && Distinct(RotatedLeft(t))
  {
    var x, n := t.r.n, t.n;
    assert x in Nodes(t.r) && x != n;
    assert n !in Nodes(t.r.l) && n !in Nodes(t.r.r) && x !in Nodes(t.l);
    LinkedFrame(m, w, t.r.l);
    LinkedFrame(m, w, t.r.r);
    LinkedFrame(m, w, t.l);
    var inner := Bin(t.l, n, t.r.l);
    assert Linked(w, inner) && Distinct(inner);
  }

  lemma {:induction false} RotateRightStep(m: Mem, node: Node, l: Spine, t: Tree, r: Spine)
    requires Splaying(m, node, l, t, r) && t.Bin? && t.l.Bin?
    ensures t.n in m && t.l.n in m && t.n != t.l.n
    ensures Splaying(m[t.n := m[t.n].(left := m[t.l.n].right)][t.l.n := m[t.l.n].(right := t.n)], node, l,
                     RotatedRight(t), r)
  {
    assert SplayingFacts(m, node, l, t, r);
    assert Linked(m, t.l) && Distinct(t.l) && t.l.n in Nodes(t.l);
    var w := m[t.n := m[t.n].(left := m[t.l.n].right)][t.l.n := m[t.l.n].(right := t.n)];
    RotateRightLinks(m, w, t);
    RotateKeeps(t);
    TreeChanged(m, w, node, l, t, RotatedRight(t), r);
  }

  lemma {:induction false} RotateLeftStep(m: Mem, node: Node, l: Spine, t: Tree, r: Spine)
    requires Splaying(m, node, l, t, r) && t.Bin? && t.r.Bin?
    ensures t.n in m && t.r.n in m && t.n != t.r.n
    ensures Splaying(m[t.n := m[t.n].(right := m[t.r.n].left)][t.r.n := m[t.r.n].(left := t.n)], node, l,
                     RotatedLeft(t), r)
  {
    assert SplayingFacts(m, node, l, t, r);
    assert Linked(m, t.r) && Distinct(t.r) && t.r.n in Nodes(t.r);
    var w := m[t.n := m[t.n].(right := m[t.r.n].left)][t.r.n := m[t.r.n].(left := t.n)];
    RotateLeftLinks(m, w, t);
    RotateKeeps(t);
    TreeChanged(m, w, node, l, t, RotatedLeft(t), r);
  }

  // ----- SPLAY_LINKLEFT and SPLAY_LINKRIGHT

  /** Handing the root over to one of the accumulators keeps the parts apart. */
  lemma {:induction false} LinkApart(node: Node, l: Spine, t: Tree, r: Spine)
    requires Apart(node, l, t, r) && t.Bin?
    ensures Apart(node, l, t.l, Link(r, t.n, t.r)) && Apart(node, Link(l, t.n, t.l), t.r, r)
    ensures Last(r, node) !in Nodes(t) && Last(l, node) !in Nodes(t) && t.n in Nodes(t)
    ensures SpineNodes(l) + Nodes(t.l) + SpineNodes(Link(r, t.n, t.r)) == SpineNodes(l) + Nodes(t) + SpineNodes(r)
    ensures SpineNodes(Link(l, t.n, t.l)) + Nodes(t.r) + SpineNodes(r) == SpineNodes(l) + Nodes(t) + SpineNodes(r)
  {
  }

  lemma {:induction false} LinkLeftStep(m: Mem, node: Node, l: Spine, t: Tree, r: Spine)
    requires Splaying(m, node, l, t, r) && t.Bin?
    ensures Last(r, node) in m && t.n in m && m[t.n].left == Root(t.l) && t.n != Last(r, node)
    ensures Splaying(m[Last(r, node) := m[Last(r, node)].(left := t.n)], node, l, t.l, Link(r, t.n, t.r))
  {
    assert SplayingFacts(m, node, l, t, r);
    LinkApart(node, l, t, r);
    LinkLeftLinks(m, node, l, t, r);
  }

  lemma {:induction false} LinkLeftLinks(m: Mem, node: Node, l: Spine, t: Tree, r: Spine)
    requires Linked(m, t) && OpenL(m, l, node) && OpenR(m, r, node) && Apart(node, l, t, r) && t.Bin?
    requires Last(r, node) !in Nodes(t)
    ensures var w := m[Last(r, node) := m[Last(r, node)].(left := t.n)];
            Linked(w, t.l) && OpenL(w, l, node) && OpenR(w, Link(r, t.n, t.r), node)
  {
    var w := m[Last(r, node) := m[Last(r, node)].(left := t.n)];
    LinkedFrame(m, w, t);
    OpenLFrame(m, w, l, node);
    OpenRFrame(m, w, r, node);
  }

  lemma {:induction false} LinkRightStep(m: Mem, node: Node, l: Spine, t: Tree, r: Spine)
    requires Splaying(m, node, l, t, r) && t.Bin?
    ensures Last(l, node) in m && t.n in m && m[t.n].right == Root(t.r) && t.n != Last(l, node)
    ensures Splaying(m[Last(l, node) := m[Last(l, node)].(right := t.n)], node, Link(l, t.n, t.l), t.r, r)
  {
    assert SplayingFacts(m, node, l, t, r);
    LinkApart(node, l, t, r);
    LinkRightLinks(m, node, l, t, r);
  }

  lemma {:induction false} LinkRightLinks(m: Mem, node: Node, l: Spine, t: Tree, r: Spine)
    requires Linked(m, t) && OpenL(m, l, node) && OpenR(m, r, node) && Apart(node, l, t, r) && t.Bin?
    requires Last(l, node) !in Nodes(t)
    ensures var w := m[Last(l, node) := m[Last(l, node)].(right := t.n)];
            Linked(w, t.r) && OpenL(w, Link(l, t.n, t.l), node) && OpenR(w, r, node)
  {
    var w := m[Last(l, node) := m[Last(l, node)].(right := t.n)];
    LinkedFrame(m, w, t);
    OpenLFrame(m, w, l, node);
    OpenRFrame(m, w, r, node);
  }

  // ----- SPLAY_ASSEMBLE

  /** Closing the open link of the left tree makes it the tree that the dummy's right link leads to. */
  lemma {:induction false} CloseL(m: Mem, c: Spine, node: Node, t: Tree)
    requires OpenL(m, c, node) && Linked(m, t) && m[Last(c, node)].right == Root(t)
    ensures node in m && m[node].right == Root(PlugL(c, t)) && Linked(m, PlugL(c, t))
    decreases c
  {
    if c.Link? {
      CloseL(m, c.up, node, Bin(c.sub, c.n, t));
    }
  }

  lemma {:induction false} CloseR(m: Mem, c: Spine, node: Node, t: Tree)
    requires OpenR(m, c, node) && Linked(m, t) && m[Last(c, node)].left == Root(t)
    ensures node in m && m[node].left == Root(PlugR(c, t)) && Linked(m, PlugR(c, t))
    decreases c
  {
    if c.Link? {
      CloseR(m, c.up, node, Bin(t, c.n, c.sub));
    }
  }

  lemma {:induction false} DistinctPlugL(c: Spine, t: Tree)
    requires DistinctSpine(c) && Distinct(t) && SpineNodes(c) !! Nodes(t)
    ensures Distinct(PlugL(c, t))
    decreases c
  {
    if c.Link? {
      DistinctPlugL(c.up, Bin(c.sub, c.n, t));
    }
  }

  lemma {:induction false} DistinctPlugR(c: Spine, t: Tree)
    requires DistinctSpine(c) && Distinct(t) && SpineNodes(c) !! Nodes(t)
    ensures Distinct(PlugR(c, t))
    decreases c
  {
    if c.Link? {
      DistinctPlugR(c.up, Bin(t, c.n, c.sub));
    }
  }

  ghost function Assembled(l: Spine, t: Tree, r: Spine): Tree
    requires t.Bin?
  {
    Bin(PlugL(l, t.l), t.n, PlugR(r, t.r))
  }

  ghost function AssembledMem(m: Mem, node: Node, a: Node, root: Node, b: Node): Mem
    requires node in m && a in m && root in m && b in m
  {
    var m1 := m[a := m[a].(right := m[root].left)];
    var m2 := m1[b := m1[b].(left := m1[root].right)];
    var m3 := m2[root := m2[root].(left := m2[node].right)];
    m3[root := m3[root].(right := m3[node].left)]
  }

  lemma {:induction false} ClosedOff(m: Mem, node: Node, l: Spine, t: Tree, r: Spine, w: Mem)
    requires Splaying(m, node, l, t, r) && t.Bin? && Last(l, node) in m && Last(r, node) in m
    requires var a, b := Last(l, node), Last(r, node);
             var m1 := m[a := m[a].(right := Root(t.l))];
             w == m1[b := m1[b].(left := Root(t.r))]
    ensures node in w && w[node].right == Root(PlugL(l, t.l)) && w[node].left == Root(PlugR(r, t.r))
    ensures Linked(w, PlugL(l, t.l)) && Linked(w, PlugR(r, t.r))
    ensures t.n in m && t.n in w && w[t.n] == m[t.n]
  {
    assert SplayingFacts(m, node, l, t, r);
    LinkedFrame(m, w, t);
    OpenLFrame(m, w, l, node);
    OpenRFrame(m, w, r, node);
    CloseL(w, l, node, t.l);
    CloseR(w, r, node, t.r);
  }

  lemma {:induction false} AssembleNodes(node: Node, l: Spine, t: Tree, r: Spine)
    requires Apart(node, l, t, r) && t.Bin?
    ensures var u := Assembled(l, t, r);
            Distinct(u) && Nodes(u) == SpineNodes(l) + Nodes(t) + SpineNodes(r)
  {
    PlugLOrder(l, t.l);
    PlugROrder(r, t.r);
    DistinctPlugL(l, t.l);
    DistinctPlugR(r, t.r);
  }

  lemma {:induction false} AssembleOrder(l: Spine, t: Tree, r: Spine)
    requires t.Bin?
    ensures Inorder(Assembled(l, t, r)) == Whole(l, t, r)
  {
    PlugLOrder(l, t.l);
    PlugROrder(r, t.r);
    Regroup(Prefix(l), Inorder(t.l), [t.n], Inorder(t.r), Suffix(r));
  }

  lemma {:induction false} AssembleStep(m: Mem, node: Node, l: Spine, t: Tree, r: Spine)
    requires Splaying(m, node, l, t, r) && t.Bin?
    ensures Last(l, node) in m && Last(r, node) in m && t.n in m && node in m && Apart(node, l, t, r)
    ensures m.Keys == {node} + SpineNodes(l) + Nodes(t) + SpineNodes(r)
    ensures Linked(AssembledMem(m, node, Last(l, node), t.n, Last(r, node)), Assembled(l, t, r))
  {
    assert SplayingFacts(m, node, l, t, r);
    var a, b := Last(l, node), Last(r, node);
    var m1 := m[a := m[a].(right := Root(t.l))];
    var m2 := m1[b := m1[b].(left := Root(t.r))];
    var w := AssembledMem(m, node, a, t.n, b);
    ClosedOff(m, node, l, t, r, m2);
    AssembleNodes(node, l, t, r);
    PlugLOrder(l, t.l);
    PlugROrder(r, t.r);
    LinkedFrame(m2, w, PlugL(l, t.l));
    LinkedFrame(m2, w, PlugR(r, t.r));
  }
}
