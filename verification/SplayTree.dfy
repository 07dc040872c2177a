/** utils/tree.h, SPLAY_GENERATE: top-down splaying, and insertion, removal and lookup by it. */
module SplayTree {
  import opened Basics
  import opened SplayShape

  /** Of the keys in `s`, none lies strictly between the key of `n` and `key`; `n` has the key if any node has. */
  ghost predicate Nearest(s: set<Node>, n: Node, key: int) {
    forall x :: x in s ==> NotBetween(n, x, key)
  }

  ghost predicate NotBetween(n: Node, x: Node, key: int) {
    !(n.key < x.key < key) && !(key < x.key < n.key) && (x.key == key ==> n.key == key)
  }

  /** The nodes `s` are linked as the tree `t`. */
  ghost predicate Forms(m: Mem, s: set<Node>, t: Tree) {
    Linked(m, t) && Distinct(t) && Nodes(t) == s
  }

  method SetLeft(elm: Node, v: Node?, ghost s: set<Node>)
    requires elm in s
    modifies elm`left
    ensures Snap(s) == old(Snap(s))[elm := old(Snap(s))[elm].(left := v)]
  {
    elm.left := v;
  }

  method SetRight(elm: Node, v: Node?, ghost s: set<Node>)
    requires elm in s
    modifies elm`right
    ensures Snap(s) == old(Snap(s))[elm := old(Snap(s))[elm].(right := v)]
  {
    elm.right := v;
  }

  /** Where a splay for `key` may stop. */
  ghost predicate AtTop(t: Tree, key: int) {
    t.Bin? && (key == t.n.key || (key < t.n.key && t.l.Leaf?) || (key > t.n.key && t.r.Leaf?))
  }

  /** What every round of the splay keeps. */
  ghost predicate Underway(m: Mem, node: Node, l: Spine, t: Tree, r: Spine, key: int, whole: seq<Node>) {
    && Splaying(m, node, l, t, r) && t.Bin? && Whole(l, t, r) == whole
    && Sorted(Inorder(t)) && Below(Prefix(l), key) && Above(Suffix(r), key)
  }

  lemma {:induction false} TakenRight(l: Spine, t: Tree, r: Spine, key: int)
    requires t.Bin? && Sorted(Inorder(t)) && Above(Suffix(r), key) && key < t.n.key
    ensures Sorted(Inorder(t.l)) && Above(Suffix(Link(r, t.n, t.r)), key)
    ensures Whole(l, t.l, Link(r, t.n, t.r)) == Whole(l, t, r)
  {
    Beside(Suffix(r), t, key);
    Regroup(Prefix(l), Inorder(t.l), [t.n], Inorder(t.r), Suffix(r));
  }

  lemma {:induction false} TakenLeft(l: Spine, t: Tree, r: Spine, key: int)
    requires t.Bin? && Sorted(Inorder(t)) && Below(Prefix(l), key) && key > t.n.key
    ensures Sorted(Inorder(t.r)) && Below(Prefix(Link(l, t.n, t.l)), key)
    ensures Whole(Link(l, t.n, t.l), t.r, r) == Whole(l, t, r)
  {
    Beside(Prefix(l), t, key);
    Regroup(Prefix(l), Inorder(t.l), [t.n], Inorder(t.r), Suffix(r));
  }

  /** Where a splay stops, the root is next to the key. */
  lemma {:induction false} TopIsNearest(l: Spine, t: Tree, r: Spine, key: int, s: set<Node>)
    requires AtTop(t, key) && Sorted(Whole(l, t, r)) && Below(Prefix(l), key) && Above(Suffix(r), key)
    requires forall x :: x in s ==> x in Whole(l, t, r)
    ensures Nearest(s, t.n, key)
  {
    var a, b := Prefix(l) + Inorder(t.l), Inorder(t.r) + Suffix(r);
    assert Whole(l, t, r) == a + [t.n] + b;
    SortedJoin(a, t.n, b);
    forall x | x in s ensures NotBetween(t.n, x, key) {
      assert x in Whole(l, t, r);
      Outside(a, b, x, t.n.key);
      Outside(Prefix(l), Suffix(r), x, key);
    }
  }

  lemma {:induction false} Outside(a: seq<Node>, b: seq<Node>, x: Node, key: int)
    requires Below(a, key) && Above(b, key)
    ensures x in a ==> x.key < key
    ensures x in b ==> x.key > key
  {
  }

  class Head {
    var root: Node?
    ghost var nodes: set<Node>
    ghost var model: Tree

    ghost predicate Valid()
      reads this, nodes
    {
      root == Root(model) && Forms(Snap(nodes), nodes, model) && Sorted(Inorder(model))
    }

    constructor ()
      ensures Valid() && nodes == {}
    {
      root, nodes, model := null, {}, Leaf;
    }

    /** SPLAY_ROTATE_RIGHT */
    method RotateRight(tmp: Node, ghost s: set<Node>, ghost node: Node, ghost l: Spine, ghost t: Tree, ghost r: Spine)
      requires Splaying(Snap(s), node, l, t, r) && t.Bin? && t.l.Bin? && root == t.n && tmp == t.l.n
      modifies `root, s`left, s`right
      ensures Splaying(Snap(s), node, l, RotatedRight(t), r) && root == tmp
    {
      RotateRightStep(Snap(s), node, l, t, r);
      SetLeft(root, tmp.right, s);
      SetRight(tmp, root, s);
      root := tmp;
    }

    /** SPLAY_ROTATE_LEFT */
    method RotateLeft(tmp: Node, ghost s: set<Node>, ghost node: Node, ghost l: Spine, ghost t: Tree, ghost r: Spine)
      requires Splaying(Snap(s), node, l, t, r) && t.Bin? && t.r.Bin? && root == t.n && tmp == t.r.n
      modifies `root, s`left, s`right
      ensures Splaying(Snap(s), node, l, RotatedLeft(t), r) && root == tmp
    {
      RotateLeftStep(Snap(s), node, l, t, r);
      SetRight(root, tmp.left, s);
      SetLeft(tmp, root, s);
      root := tmp;
    }

    /** SPLAY_LINKLEFT */
    method LinkLeft(right: Node, ghost s: set<Node>, ghost node: Node, ghost l: Spine, ghost t: Tree, ghost r: Spine)
        returns (tail: Node)
      requires Splaying(Snap(s), node, l, t, r) && t.Bin? && root == t.n && right == Last(r, node)
      modifies `root, s`left
      ensures Splaying(Snap(s), node, l, t.l, Link(r, t.n, t.r)) && root == Root(t.l) && tail == t.n
    {
      LinkLeftStep(Snap(s), node, l, t, r);
      SetLeft(right, root, s);
      tail := root;
      root := root.left;
    }

    /** SPLAY_LINKRIGHT */
    method LinkRight(left: Node, ghost s: set<Node>, ghost node: Node, ghost l: Spine, ghost t: Tree, ghost r: Spine)
        returns (tail: Node)
      requires Splaying(Snap(s), node, l, t, r) && t.Bin? && root == t.n && left == Last(l, node)
      modifies `root, s`right
      ensures Splaying(Snap(s), node, Link(l, t.n, t.l), t.r, r) && root == Root(t.r) && tail == t.n
    {
      LinkRightStep(Snap(s), node, l, t, r);
      SetRight(left, root, s);
      tail := root;
      root := root.right;
    }

    /** SPLAY_ASSEMBLE */
    method Assemble(node: Node, left: Node, right: Node, ghost s: set<Node>, ghost l: Spine, ghost t: Tree,
                    ghost r: Spine)
      requires Splaying(Snap(s), node, l, t, r) && t.Bin? && root == t.n && left == Last(l, node)
      requires right == Last(r, node)
      modifies s`left, s`right
      ensures Forms(Snap(s), s - {node}, Assembled(l, t, r))
    {
      AssembleStep(Snap(s), node, l, t, r);
      AssembleNodes(node, l, t, r);
      SetRight(left, root.left, s);
      SetLeft(right, root.right, s);
      SetLeft(root, node.right, s);
      SetRight(root, node.left, s);
      assert Snap(s).Keys == s;
    }

    /** A round of the splay when the key is below the root's. */
    method RoundLeft(key: int, right: Node, ghost s: set<Node>, ghost node: Node,
                     ghost l: Spine, ghost t: Tree, ghost r: Spine, ghost whole: seq<Node>)
        returns (stop: bool, tail: Node, ghost u: Tree, ghost c: Spine)
      requires Underway(Snap(s), node, l, t, r, key, whole) && root == t.n && right == Last(r, node) && key < t.n.key
      modifies `root, s`left, s`right
      ensures Underway(Snap(s), node, l, u, c, key, whole) && root == u.n && tail == Last(c, node)
      ensures if stop then AtTop(u, key) else Size(u) < Size(t)
    {
      assert SplayingFacts(Snap(s), node, l, t, r);
      stop, tail, u, c := true, right, t, r;
      var tmp := root.left;
      if tmp == null {
        return;
      }
      if key < tmp.key {
        RotateRight(tmp, s, node, l, t, r);
        RotateKeeps(t);
        u := RotatedRight(t);
        assert SplayingFacts(Snap(s), node, l, u, r);
        if root.left == null {
          return;
        }
      }
      TakenRight(l, u, r, key);
      tail := LinkLeft(right, s, node, l, u, r);
      stop, c, u := false, Link(r, u.n, u.r), u.l;
    }

    /** A round of the splay when the key is above the root's. */
    method RoundRight(key: int, left: Node, ghost s: set<Node>, ghost node: Node,
                      ghost l: Spine, ghost t: Tree, ghost r: Spine, ghost whole: seq<Node>)
        returns (stop: bool, tail: Node, ghost u: Tree, ghost c: Spine)
      requires Underway(Snap(s), node, l, t, r, key, whole) && root == t.n && left == Last(l, node) && key > t.n.key
      modifies `root, s`left, s`right
      ensures Underway(Snap(s), node, c, u, r, key, whole) && root == u.n && tail == Last(c, node)
      ensures if stop then AtTop(u, key) else Size(u) < Size(t)
    {
      assert SplayingFacts(Snap(s), node, l, t, r);
      stop, tail, u, c := true, left, t, l;
      var tmp := root.right;
      if tmp == null {
        return;
      }
      if key > tmp.key {
        RotateLeft(tmp, s, node, l, t, r);
        RotateKeeps(t);
        u := RotatedLeft(t);
        assert SplayingFacts(Snap(s), node, l, u, r);
        if root.right == null {
          return;
        }
      }
      TakenLeft(l, u, r, key);
      tail := LinkRight(left, s, node, l, u, r);
      stop, c, u := false, Link(l, u.n, u.l), u.r;
    }

    /** The loop of the splay. */
    method Search(key: int, node: Node, ghost s: set<Node>, ghost t0: Tree)
        returns (left: Node, right: Node, ghost l: Spine, ghost t: Tree, ghost r: Spine)
      requires Underway(Snap(s), node, End, t0, End, key, Inorder(t0)) && root == t0.n
      modifies `root, s`left, s`right
      ensures Underway(Snap(s), node, l, t, r, key, Inorder(t0)) && root == t.n && AtTop(t, key)
      ensures left == Last(l, node) && right == Last(r, node)
    {
      left, right := node, node;
      l, t, r := End, t0, End;
      while key != root.key
        invariant root != null && Underway(Snap(s), node, l, t, r, key, Inorder(t0)) && root == t.n
        invariant left == Last(l, node) && right == Last(r, node)
        decreases Size(t)
      {
        var stop;
        if key < root.key {
          stop, right, t, r := RoundLeft(key, right, s, node, l, t, r, Inorder(t0));
        } else {
          stop, left, t, l := RoundRight(key, left, s, node, l, t, r, Inorder(t0));
        }
        if stop {
          break;
        }
      }
    }

    /** _SPLAY: rearranges the linked nodes `s`, keeping their order, so that the root is the node with the key,
        or else a neighbour of it. */
    method Splay(key: int, ghost s: set<Node>, ghost t: Tree) returns (ghost u: Tree)
      requires root != null && root == Root(t) && Forms(Snap(s), s, t) && Sorted(Inorder(t))
      modifies `root, s`left, s`right
      ensures u.Bin? && root == u.n && Forms(Snap(s), s, u) && Inorder(u) == Inorder(t)
      ensures Nearest(s, u.n, key)
    {
      var node := new Node(0);
      ghost var all := s + {node};
      LinkedFrame(old(Snap(s)), Snap(all), t);
      assert Snap(all).Keys == all;
      assert Whole(End, t, End) == Inorder(t);
      var left, right;
      ghost var l, v, r;
      left, right, l, v, r := Search(key, node, all, t);
      u := Assembled(l, v, r);
      AssembleOrder(l, v, r);
      Assemble(node, left, right, all, l, v, r);
      assert all - {node} == s;
      LinkedFrame(Snap(all), Snap(s), u);
      forall x | x in s ensures x in Whole(l, v, r) {
        InorderHas(t, x);
      }
      TopIsNearest(l, v, r, key, s);
    }

    /** SPLAY_FIND: the node with the key, if there is one; it becomes the root. */
    method Find(key: int) returns (r: Node?)
      requires Valid()
      modifies this, nodes
      ensures Valid() && nodes == old(nodes) && Inorder(model) == old(Inorder(model))
      ensures r != null ==> r in nodes && r.key == key && r == root
      ensures r == null ==> forall n :: n in nodes ==> n.key != key
    {
      if root == null {
        return null;
      }
      model := Splay(key, nodes, model);
      if key == root.key {
        return root;
      }
      return null;
    }

    /** SPLAY_INSERT: links `elm` in as the root unless its key is taken; then the holder is returned. */
    method Insert(elm: Node) returns (r: Node?)
      requires Valid()
      modifies this, nodes, elm
      ensures Valid()
      ensures r != null ==> r in nodes && r.key == elm.key
      ensures r != null ==> nodes == old(nodes) && Inorder(model) == old(Inorder(model))
      ensures r == null ==> nodes == old(nodes) + {elm} && root == elm
      ensures r == null ==> forall n :: n in old(nodes) ==> n.key != elm.key
    {
      if root == null {
        elm.left, elm.right := null, null;
        NewRoot(elm, Bin(Leaf, elm, Leaf));
        return null;
      }
      model := Splay(elm.key, nodes, model);
      if elm.key == root.key {
        return root;
      }
      assert elm !in nodes;
      if elm.key < root.key {
        SplitBelow(nodes, model, elm);
        PutAbove(elm);
        NewRoot(elm, OnTopLeft(model, elm));
      } else {
        SplitAbove(nodes, model, elm);
        PutBelow(elm);
        NewRoot(elm, OnTopRight(model, elm));
      }
      return null;
    }

    method NewRoot(elm: Node, ghost u: Tree)
      requires Root(u) == elm && Forms(Snap(nodes + {elm}), nodes + {elm}, u) && Sorted(Inorder(u))
      modifies this
      ensures Valid() && nodes == old(nodes) + {elm} && root == elm
    {
      root, nodes, model := elm, nodes + {elm}, u;
    }

    /** The new node takes the root's left subtree, and the root as its right child. */
    method PutAbove(elm: Node)
      requires Valid() && root != null && elm !in nodes
      modifies elm, root
      ensures Forms(Snap(nodes + {elm}), nodes + {elm}, OnTopLeft(model, elm))
    {
      ghost var m := Snap(nodes);
      assert Linked(m, model);
      elm.left, elm.right := root.left, root;
      root.left := null;
      PutAboveForms(m, Snap(nodes + {elm}), nodes, model, elm);
    }

    /** The new node takes the root's right subtree, and the root as its left child. */
    method PutBelow(elm: Node)
      requires Valid() && root != null && elm !in nodes
      modifies elm, root
      ensures Forms(Snap(nodes + {elm}), nodes + {elm}, OnTopRight(model, elm))
    {
      ghost var m := Snap(nodes);
      assert Linked(m, model);
      elm.right, elm.left := root.right, root;
      root.right := null;
      PutBelowForms(m, Snap(nodes + {elm}), nodes, model, elm);
    }

    /** SPLAY_REMOVE: takes out the node with the key of `elm`; null if there is none. */
    method Remove(elm: Node) returns (r: Node?)
      requires Valid()
      modifies this, nodes
      ensures Valid()
      ensures r == null ==> nodes == old(nodes) && forall n :: n in nodes ==> n.key != elm.key
      ensures r != null ==> r == elm && exists x :: x in old(nodes) && x.key == elm.key && nodes == old(nodes) - {x}
    {
      if root == null {
        return null;
      }
      model := Splay(elm.key, nodes, model);
      if elm.key == root.key {
        assert root in old(nodes);
        if root.left == null {
          DropRoot();
        } else {
          JoinParts(elm.key);
        }
        return elm;
      }
      return null;
    }

    method DropRoot()
      requires Valid() && root != null && root.left == null
      modifies this
      ensures Valid() && nodes == old(nodes) - {old(root)}
    {
      assert Linked(Snap(nodes), model);
      SortedJoin(Inorder(model.l), model.n, Inorder(model.r));
      ghost var rest := nodes - {root};
      LinkedFrame(Snap(nodes), Snap(rest), model.r);
      root, nodes, model := root.right, rest, model.r;
    }

    /** The two parts below the root. */
    lemma {:induction false} Parts()
      requires Valid() && root != null
      ensures model.Bin? && root.left == Root(model.l) && root.right == Root(model.r)
      ensures Forms(Snap(Nodes(model.l)), Nodes(model.l), model.l) && Sorted(Inorder(model.l))
      ensures Forms(Snap(Nodes(model.r)), Nodes(model.r), model.r) && Below(Inorder(model.l), model.n.key)
      ensures Nodes(model.l) !! Nodes(model.r) && nodes - {root} == Nodes(model.l) + Nodes(model.r)
    {
      var m := Snap(nodes);
      assert Linked(m, model);
      LinkedFrame(m, Snap(Nodes(model.l)), model.l);
      LinkedFrame(m, Snap(Nodes(model.r)), model.r);
      SortedJoin(Inorder(model.l), model.n, Inorder(model.r));
    }

    /** The left part is splayed once more, for a key above all of it; its root then has no right child and takes
        the right part. */
    method JoinParts(key: int)
      requires Valid() && root != null && root.left != null && key == root.key
      modifies this, nodes
      ensures Valid() && nodes == old(nodes) - {old(root)}
    {
      ghost var t := model;
      Parts();
      var tmp := root.right;
      root := root.left;
      ghost var u := Splay(key, Nodes(t.l), t.l);
      LargestOnTop(u, Nodes(t.l), key);
      assert Snap(Nodes(t.r)) == old(Snap(Nodes(t.r)));
      Hang(tmp, u, t.r);
      SortedParts(u, t);
      Settle(Nodes(u) + Nodes(t.r), Bin(u.l, u.n, t.r));
    }

    ghost method Settle(s: set<Node>, u: Tree)
      requires root == Root(u) && Forms(Snap(s), s, u) && Sorted(Inorder(u))
      modifies `nodes, `model
      ensures Valid() && nodes == s && model == u
    {
      nodes, model := s, u;
    }

    method Hang(tmp: Node?, ghost u: Tree, ghost v: Tree)
      requires u.Bin? && u.r.Leaf? && root == u.n && tmp == Root(v) && Nodes(u) !! Nodes(v)
      requires Forms(Snap(Nodes(u)), Nodes(u), u) && Linked(Snap(Nodes(v)), v) && Distinct(v)
      modifies root
      ensures Forms(Snap(Nodes(u) + Nodes(v)), Nodes(u) + Nodes(v), Bin(u.l, u.n, v))
    {
      ghost var m := Snap(Nodes(u));
      assert Linked(m, u);
      ghost var w := Snap(Nodes(v));
      root.right := tmp;
      LinkedFrame(m, Snap(Nodes(u) + Nodes(v)), u.l);
      LinkedFrame(w, Snap(Nodes(u) + Nodes(v)), v);
    }
  }

  ghost function OnTopLeft(u: Tree, elm: Node): Tree
    requires u.Bin?
  {
    Bin(u.l, elm, Bin(Leaf, u.n, u.r))
  }

  ghost function OnTopRight(u: Tree, elm: Node): Tree
    requires u.Bin?
  {
    Bin(Bin(u.l, u.n, Leaf), elm, u.r)
  }

  lemma {:induction false} PutAboveForms(m: Mem, w: Mem, s: set<Node>, u: Tree, elm: Node)
    requires Forms(m, s, u) && u.Bin? && elm !in s
    requires w.Keys == m.Keys + {elm} && w == m[elm := Cell(Root(u.l), u.n)][u.n := Cell(null, Root(u.r))]
    ensures Forms(w, s + {elm}, OnTopLeft(u, elm))
  {
    LinkedFrame(m, w, u.l);
    LinkedFrame(m, w, u.r);
    var e, low := Leaf, Bin(Leaf, u.n, u.r);
    assert Linked(w, e) && Distinct(e) && Nodes(e) == {};
    assert Linked(w, low) && Distinct(low) && Nodes(low) == {u.n} + Nodes(u.r);
  }

  lemma {:induction false} PutBelowForms(m: Mem, w: Mem, s: set<Node>, u: Tree, elm: Node)
    requires Forms(m, s, u) && u.Bin? && elm !in s
    requires w.Keys == m.Keys + {elm} && w == m[elm := Cell(u.n, Root(u.r))][u.n := Cell(Root(u.l), null)]
    ensures Forms(w, s + {elm}, OnTopRight(u, elm))
  {
    LinkedFrame(m, w, u.l);
    LinkedFrame(m, w, u.r);
    var e, low := Leaf, Bin(u.l, u.n, Leaf);
    assert Linked(w, e) && Distinct(e) && Nodes(e) == {};
    assert Linked(w, low) && Distinct(low) && Nodes(low) == Nodes(u.l) + {u.n};
  }

  /** A key next to the root on the left has everything smaller in the left subtree. */
  lemma {:induction false} SplitBelow(s: set<Node>, u: Tree, elm: Node)
    requires u.Bin? && Nodes(u) == s && Sorted(Inorder(u)) && Nearest(s, u.n, elm.key) && elm.key < u.n.key
    ensures Sorted(Inorder(OnTopLeft(u, elm)))
  {
    SortedJoin(Inorder(u.l), u.n, Inorder(u.r));
    forall i | 0 <= i < |Inorder(u.l)| ensures Inorder(u.l)[i].key < elm.key {
      InorderHas(u.l, Inorder(u.l)[i]);
    }
    assert Inorder(Bin(Leaf, u.n, u.r)) == [] + [u.n] + Inorder(u.r);
    SortedJoin([], u.n, Inorder(u.r));
    SortedJoin(Inorder(u.l), elm, Inorder(Bin(Leaf, u.n, u.r)));
  }

  lemma {:induction false} SplitAbove(s: set<Node>, u: Tree, elm: Node)
    requires u.Bin? && Nodes(u) == s && Sorted(Inorder(u)) && Nearest(s, u.n, elm.key) && elm.key > u.n.key
    ensures Sorted(Inorder(OnTopRight(u, elm)))
  {
    SortedJoin(Inorder(u.l), u.n, Inorder(u.r));
    forall i | 0 <= i < |Inorder(u.r)| ensures Inorder(u.r)[i].key > elm.key {
      InorderHas(u.r, Inorder(u.r)[i]);
    }
    assert Inorder(Bin(u.l, u.n, Leaf)) == Inorder(u.l) + [u.n] + [];
    SortedJoin(Inorder(u.l), u.n, []);
    SortedJoin(Inorder(Bin(u.l, u.n, Leaf)), elm, Inorder(u.r));
  }

  /** Splaying for a key above every key leaves the root without a right child. */
  lemma {:induction false} LargestOnTop(u: Tree, s: set<Node>, key: int)
    requires u.Bin? && Nodes(u) == s && Sorted(Inorder(u)) && Nearest(s, u.n, key) && Below(Inorder(u), key)
    ensures u.r.Leaf?
  {
    if u.r.Bin? {
      var x := u.r.n;
      SortedJoin(Inorder(u.l), u.n, Inorder(u.r));
      InorderHas(u.r, x);
      InorderHas(u, x);
    }
  }

  /** The left part under its new root, with the right part hung to it. */
  lemma {:induction false} SortedParts(u: Tree, t: Tree)
    requires u.Bin? && u.r.Leaf? && t.Bin? && Sorted(Inorder(t)) && Inorder(u) == Inorder(t.l)
    ensures Sorted(Inorder(Bin(u.l, u.n, t.r)))
  {
    SortedJoin(Inorder(t.l), t.n, Inorder(t.r));
    SortedJoin(Inorder(u.l), u.n, []);
    assert Inorder(u) == Inorder(u.l) + [u.n] + [];
    assert Inorder(t.l)[|Inorder(u.l)|] == u.n;
    SortedJoin(Inorder(u.l), u.n, Inorder(t.r));
  }
}
