/** Red-black trees as values: shapes, colours, and the position of a subtree inside a tree.

  A `Tree` records which node sits where and in which colour; it is what a heap of linked
  nodes stands for.  A `Ctx` is a tree with one subtree cut out: the path from that hole up
  to the root, innermost node first.  Search order is a property of the in-order sequence of
  nodes only, so rotations and recolourings are correct for it when they keep that sequence.
 */
module RbShape {
  import opened Basics

  datatype Color = Red | Black

  /** One element of a tree: its key, three links and a colour. */
  class Node {
    const key: int
    var left: Node?
    var right: Node?
    var parent: Node?
    var color: Color

    constructor (k: int)
      ensures key == k
    {
      key, left, right, parent, color := k, null, null, null, Red;
    }
  }

  datatype Tree = Leaf | Bin(l: Tree, n: Node, c: Color, r: Tree)

  /** `InLeft(up, n, c, r)`: the hole is the left child of `n`, whose right subtree is `r`. */
  datatype Ctx = Top | InLeft(up: Ctx, n: Node, c: Color, r: Tree) | InRight(l: Tree, n: Node, c: Color, up: Ctx)

  ghost function Root(t: Tree): Node? {
    if t.Leaf? then null else t.n
  }

  ghost function RootColor(t: Tree): Color {
    if t.Leaf? then Black else t.c
  }

  ghost function Holder(c: Ctx): Node? {
    if c.Top? then null else c.n
  }

  ghost function HolderColor(c: Ctx): Color {
    if c.Top? then Black else c.c
  }

  ghost function Depth(c: Ctx): nat {
    if c.Top? then 0 else 1 + Depth(c.up)
  }

  /** The tree rooted at the innermost node of `c`, with `t` in the hole. */
  ghost function Wrap(c: Ctx, t: Tree): (u: Tree)
    requires !c.Top?
    ensures u.Bin? && u.n == c.n && u.c == c.c && Plug(c, t) == Plug(c.up, u)
  {
    if c.InLeft? then Bin(t, c.n, c.c, c.r) else Bin(c.l, c.n, c.c, t)
  }

  ghost function Sibling(c: Ctx): Tree
    requires !c.Top?
  {
    if c.InLeft? then c.r else c.l
  }

  ghost function WithSibling(c: Ctx, s: Tree): (d: Ctx)
    requires !c.Top?
    ensures !d.Top? && d.n == c.n && d.up == c.up && Sibling(d) == s
  {
    if c.InLeft? then InLeft(c.up, c.n, c.c, s) else InRight(s, c.n, c.c, c.up)
  }

  /** The surrounding of the sibling of `t`. */
  ghost function Across(c: Ctx, t: Tree): (d: Ctx)
    requires !c.Top?
    ensures Plug(d, Sibling(c)) == Plug(c, t)
  {
    if c.InLeft? then InRight(t, c.n, c.c, c.up) else InLeft(c.up, c.n, c.c, t)
  }

  ghost function Dyed(t: Tree, k: Color): Tree
    requires t.Bin?
  {
    Bin(t.l, t.n, k, t.r)
  }

  ghost function HolderDyed(c: Ctx, k: Color): (d: Ctx)
    requires !c.Top?
    ensures !d.Top? && d.up == c.up && d.n == c.n && d.c == k && Sibling(d) == Sibling(c)
  {
    if c.InLeft? then InLeft(c.up, c.n, k, c.r) else InRight(c.l, c.n, k, c.up)
  }

  ghost function Plug(c: Ctx, t: Tree): Tree {
    match c
    case Top => t
    case InLeft(up, n, k, r) => Plug(up, Bin(t, n, k, r))
    case InRight(l, n, k, up) => Plug(up, Bin(l, n, k, t))
  }

  lemma {:induction false} AcrossPlug(c: Ctx, t: Tree, s: Tree)
    requires !c.Top?
    ensures Plug(Across(c, t), s) == Plug(WithSibling(c, s), t)
  {
  }

  // ----- In-order sequence and search order

  ghost function Inorder(t: Tree): seq<Node> {
    match t
    case Leaf => []
    case Bin(l, n, _, r) => Inorder(l) + [n] + Inorder(r)
  }

  ghost function Before(c: Ctx): seq<Node> {
    match c
    case Top => []
    case InLeft(up, _, _, _) => Before(up)
    case InRight(l, n, _, up) => Before(up) + Inorder(l) + [n]
  }

  ghost function After(c: Ctx): seq<Node> {
    match c
    case Top => []
    case InLeft(up, n, _, r) => [n] + Inorder(r) + After(up)
    case InRight(_, _, _, up) => After(up)
  }

  lemma {:induction false} InorderPlug(c: Ctx, t: Tree)
    ensures Inorder(Plug(c, t)) == Before(c) + Inorder(t) + After(c)
    decreases c
  {
    match c
    case Top =>
    case InLeft(up, n, k, r) =>
      InorderPlug(up, Bin(t, n, k, r));
      Regroup(Before(up), Inorder(t), [n], Inorder(r), After(up));
    case InRight(l, n, k, up) =>
      InorderPlug(up, Bin(l, n, k, t));
      Regroup(Before(up), Inorder(l), [n], Inorder(t), After(up));
  }

  lemma {:induction false} SameOrderInPlace(c: Ctx, t: Tree, u: Tree)
    requires Inorder(t) == Inorder(u)
    ensures Inorder(Plug(c, t)) == Inorder(Plug(c, u))
  {
    InorderPlug(c, t);
    InorderPlug(c, u);
  }

  // ----- Rotations

  ghost function RotatedLeft(t: Tree): Tree
    requires t.Bin? && t.r.Bin?
  {
    Bin(Bin(t.l, t.n, t.c, t.r.l), t.r.n, t.r.c, t.r.r)
  }

  ghost function RotatedRight(t: Tree): Tree
    requires t.Bin? && t.l.Bin?
  {
    Bin(t.l.l, t.l.n, t.l.c, Bin(t.l.r, t.n, t.c, t.r))
  }

  lemma {:induction false} RotateLeftKeepsOrder(t: Tree)
    requires t.Bin? && t.r.Bin?
    ensures Inorder(RotatedLeft(t)) == Inorder(t)
  {
    var a, b, d := Inorder(t.l), Inorder(t.r.l), Inorder(t.r.r);
    calc {
      Inorder(RotatedLeft(t));
      { assert Inorder(RotatedLeft(t).l) == a + [t.n] + b; }
      (a + [t.n] + b) + [t.r.n] + d;
      a + [t.n] + (b + [t.r.n] + d);
      Inorder(t);
    }
  }

  lemma {:induction false} RotateRightKeepsOrder(t: Tree)
    requires t.Bin? && t.l.Bin?
    ensures Inorder(RotatedRight(t)) == Inorder(t)
  {
    var a, b, d := Inorder(t.l.l), Inorder(t.l.r), Inorder(t.r);
    calc {
      Inorder(RotatedRight(t));
      { assert Inorder(RotatedRight(t).r) == b + [t.n] + d; }
      a + [t.l.n] + (b + [t.n] + d);
      (a + [t.l.n] + b) + [t.n] + d;
      Inorder(t);
    }
  }

  /** Strictly increasing keys; in particular no node occurs twice. */
  ghost predicate Sorted(s: seq<Node>) {
    forall i, j :: 0 <= i < j < |s| ==> s[i].key < s[j].key
  }

  ghost function Nodes(t: Tree): set<Node> {
    match t
    case Leaf => {}
    case Bin(l, n, _, r) => Nodes(l) + {n} + Nodes(r)
  }

  lemma {:induction false} NodesAreInorder(t: Tree, n: Node)
    ensures n in Nodes(t) <==> n in Inorder(t)
  {
    match t
    case Leaf =>
    case Bin(l, _, _, r) =>
      NodesAreInorder(l, n);
      NodesAreInorder(r, n);
  }

  /** The comparisons made on the way down to the hole all sent `k` this way. */
  ghost predicate Routed(c: Ctx, k: int) {
    match c
    case Top => true
    case InLeft(up, n, _, _) => k < n.key && Routed(up, k)
    case InRight(_, n, _, up) => n.key < k && Routed(up, k)
  }

  lemma {:induction false} SortedAround(a: seq<Node>, n: Node, b: seq<Node>)
    requires Sorted(a + [n] + b)
    ensures forall m :: m in a ==> m.key < n.key
    ensures forall m :: m in b ==> n.key < m.key
  {
    var s := a + [n] + b;
    assert s[|a|] == n;
    forall m | m in a ensures m.key < n.key {
      var i :| 0 <= i < |a| && a[i] == m;
      assert s[i] == m;
    }
    forall m | m in b ensures n.key < m.key {
      var i :| 0 <= i < |b| && b[i] == m;
      assert s[|a| + 1 + i] == m;
    }
  }

  /** Search order turns the few comparisons of a descent into comparisons with every node outside. */
  lemma {:induction false} RoutedSplits(c: Ctx, t: Tree, k: int)
    requires Sorted(Inorder(Plug(c, t))) && Routed(c, k)
    ensures forall n :: n in Before(c) ==> n.key < k
    ensures forall n :: n in After(c) ==> k < n.key
    decreases c
  {
    InorderPlug(c, t);
    match c
    case Top =>
    case InLeft(up, n, col, r) =>
      RoutedSplits(up, Bin(t, n, col, r), k);
      var a, b := Before(up) + Inorder(t), Inorder(r) + After(up);
      assert Inorder(Plug(c, t)) == a + [n] + b;
      SortedAround(a, n, b);
      assert forall m :: m in After(c) ==> m == n || m in b;
    case InRight(l, n, col, up) =>
      RoutedSplits(up, Bin(l, n, col, t), k);
      var a, b := Before(up) + Inorder(l), Inorder(t) + After(up);
      assert Inorder(Plug(c, t)) == a + [n] + b;
      SortedAround(a, n, b);
      assert forall m :: m in Before(c) ==> m == n || m in a;
  }

  /** A new node at the end of a descent keeps the order. */
  lemma {:induction false} InsertedOrder(c: Ctx, n: Node)
    requires Sorted(Inorder(Plug(c, Leaf))) && Routed(c, n.key)
    ensures Sorted(Inorder(Plug(c, Bin(Leaf, n, Red, Leaf))))
  {
    RoutedSplits(c, Leaf, n.key);
    InorderPlug(c, Leaf);
    InorderPlug(c, Bin(Leaf, n, Red, Leaf));
    var a, b := Before(c), After(c);
    assert Inorder(Plug(c, Leaf)) == a + b;
    assert Inorder(Plug(c, Bin(Leaf, n, Red, Leaf))) == a + [n] + b;
    SortedInsert(a, n, b);
  }

  lemma {:induction false} SortedInsert(a: seq<Node>, n: Node, b: seq<Node>)
    requires Sorted(a + b) && (forall m :: m in a ==> m.key < n.key) && (forall m :: m in b ==> n.key < m.key)
    ensures Sorted(a + [n] + b)
  {
    var s, u := a + [n] + b, a + b;
    forall i, j | 0 <= i < j < |s| ensures s[i].key < s[j].key {
      if i != |a| && j != |a| {
        var i', j' := if i < |a| then i else i - 1, if j < |a| then j else j - 1;
        assert u[i'] == s[i] && u[j'] == s[j];
      }
    }
  }

  // ----- Black height and the red rule

  ghost function BlackHeight(t: Tree): nat {
    match t
    case Leaf => 0
    case Bin(l, _, c, _) => BlackHeight(l) + if c == Black then 1 else 0
  }

  /** Equal black heights everywhere and no red node with a red child. */
  ghost predicate RedBlack(t: Tree) {
    match t
    case Leaf => true
    case Bin(l, _, c, r) =>
      && RedBlack(l) && RedBlack(r) && BlackHeight(l) == BlackHeight(r)
      && (c == Red ==> RootColor(l) == Black && RootColor(r) == Black)
  }

  /** A surrounding that a subtree of black height `h` completes to a red-black tree. */
  ghost predicate Fits(c: Ctx, h: nat) {
    match c
    case Top => true
    case InLeft(up, _, k, r) =>
      && RedBlack(r) && BlackHeight(r) == h
      && (k == Red ==> RootColor(r) == Black && HolderColor(up) == Black && !up.Top?)
      && Fits(up, h + if k == Black then 1 else 0)
    case InRight(l, _, k, up) =>
      && RedBlack(l) && BlackHeight(l) == h
      && (k == Red ==> RootColor(l) == Black && HolderColor(up) == Black && !up.Top?)
      && Fits(up, h + if k == Black then 1 else 0)
  }

  lemma {:induction false} PlugRedBlack(c: Ctx, t: Tree)
    requires RedBlack(t) && Fits(c, BlackHeight(t))
    requires RootColor(t) == Red ==> !c.Top? && HolderColor(c) == Black
    ensures RedBlack(Plug(c, t)) && RootColor(Plug(c, t)) == Black
    decreases c
  {
    match c
    case Top =>
    case InLeft(up, n, k, r) => PlugRedBlack(up, Bin(t, n, k, r));
    case InRight(l, n, k, up) => PlugRedBlack(up, Bin(l, n, k, t));
  }

  lemma {:induction false} UnplugRedBlack(c: Ctx, t: Tree)
    requires RedBlack(Plug(c, t)) && RootColor(Plug(c, t)) == Black
    ensures RedBlack(t) && Fits(c, BlackHeight(t))
    ensures RootColor(t) == Red ==> !c.Top? && HolderColor(c) == Black
    decreases c
  {
    match c
    case Top =>
    case InLeft(up, n, k, r) => UnplugRedBlack(up, Bin(t, n, k, r));
    case InRight(l, n, k, up) => UnplugRedBlack(up, Bin(l, n, k, t));
  }

  // ----- Repairs after an insertion

  /** A red node about to be checked against its parent: everything else is in order. */
  ghost predicate RedFocus(c: Ctx, t: Tree) {
    t.Bin? && t.c == Red && RedBlack(t) && Fits(c, BlackHeight(t))
  }

  /** The grandparent's subtree once its blackness has moved to its children. */
  ghost function BlackPushedDown(c: Ctx, t: Tree): Tree
    requires !c.Top? && !c.up.Top? && Sibling(c.up).Bin?
  {
    Wrap(HolderDyed(WithSibling(c.up, Dyed(Sibling(c.up), Black)), Red), Dyed(Wrap(c, t), Black))
  }

  lemma {:induction false} PushDownRepairs(c: Ctx, t: Tree)
    requires RedFocus(c, t) && !c.Top? && c.c == Red && Sibling(c.up).Bin? && Sibling(c.up).c == Red
    ensures RedFocus(c.up.up, BlackPushedDown(c, t))
    ensures Inorder(Plug(c.up.up, BlackPushedDown(c, t))) == Inorder(Plug(c, t))
  {
    var p, s := Wrap(c, t), Sibling(c.up);
    assert Fits(c.up, BlackHeight(t)) && Fits(c.up.up, BlackHeight(t) + 1);
    assert RedBlack(Dyed(p, Black)) && BlackHeight(Dyed(p, Black)) == BlackHeight(t) + 1;
    assert RedBlack(Dyed(s, Black)) && BlackHeight(Dyed(s, Black)) == BlackHeight(t) + 1;
    assert Inorder(Dyed(p, Black)) == Inorder(p) && Inorder(Dyed(s, Black)) == Inorder(s);
    SameOrderInPlace(c.up.up, BlackPushedDown(c, t), Wrap(c.up, p));
  }

  /** An inner grandchild `t` changes places with its parent: the surrounding of the former parent. */
  ghost function Outward(c: Ctx, t: Tree): (d: Ctx)
    requires !c.Top? && t.Bin?
    ensures !d.Top? && d.up == c.up && d.n == t.n
  {
    if c.InRight? then InLeft(c.up, t.n, t.c, t.r) else InRight(t.l, t.n, t.c, c.up)
  }

  ghost function FormerParent(c: Ctx, t: Tree): (u: Tree)
    requires !c.Top? && t.Bin?
    ensures u.Bin? && u.n == c.n
  {
    if c.InRight? then Bin(c.l, c.n, c.c, t.l) else Bin(t.r, c.n, c.c, c.r)
  }

  lemma {:induction false} OutwardKeeps(c: Ctx, t: Tree)
    requires RedFocus(c, t) && !c.Top? && c.c == Red
    ensures RedFocus(Outward(c, t), FormerParent(c, t))
    ensures Inorder(Plug(Outward(c, t), FormerParent(c, t))) == Inorder(Plug(c, t))
  {
    var p := Wrap(c, t);
    if c.InRight? {
      RotateLeftKeepsOrder(p);
      SameOrderInPlace(c.up, RotatedLeft(p), p);
    } else {
      RotateRightKeepsOrder(p);
      SameOrderInPlace(c.up, RotatedRight(p), p);
    }
  }

  /** The surrounding of an outer grandchild once its parent has taken the grandparent's place. */
  ghost function LiftedParent(c: Ctx): Ctx
    requires !c.Top? && !c.up.Top?
  {
    if c.InLeft? then InLeft(c.up.up, c.n, Black, Bin(c.r, c.up.n, Red, Sibling(c.up)))
    else InRight(Bin(Sibling(c.up), c.up.n, Red, c.l), c.n, Black, c.up.up)
  }

  lemma {:induction false} LiftRepairs(c: Ctx, t: Tree)
    requires RedFocus(c, t) && !c.Top? && c.c == Red && RootColor(Sibling(c.up)) == Black
    requires c.InLeft? == c.up.InLeft?
    ensures RedFocus(LiftedParent(c), t)
    ensures Inorder(Plug(LiftedParent(c), t)) == Inorder(Plug(c, t))
  {
    var g := Wrap(c.up, Wrap(c, t));
    assert Fits(c.up, BlackHeight(t)) && Fits(c.up.up, BlackHeight(t) + 1);
    assert RedBlack(Sibling(LiftedParent(c))) && BlackHeight(Sibling(LiftedParent(c))) == BlackHeight(t);
    if c.InLeft? {
      assert Inorder(RotatedRight(g).r) == Inorder(Sibling(LiftedParent(c)));
      RotateRightKeepsOrder(g);
      SameOrderInPlace(c.up.up, RotatedRight(g), g);
      SameOrderInPlace(c.up.up, RotatedRight(g), Wrap(LiftedParent(c), t));
    } else {
      assert Inorder(RotatedLeft(g).l) == Inorder(Sibling(LiftedParent(c)));
      RotateLeftKeepsOrder(g);
      SameOrderInPlace(c.up.up, RotatedLeft(g), g);
      SameOrderInPlace(c.up.up, RotatedLeft(g), Wrap(LiftedParent(c), t));
    }
  }

  lemma {:induction false} InsertionRepaired(c: Ctx, t: Tree)
    requires RedFocus(c, t) && HolderColor(c) == Black
    ensures Plug(c, t).Bin?
    ensures var u := Dyed(Plug(c, t), Black);
            RedBlack(u) && RootColor(u) == Black && Inorder(u) == Inorder(Plug(c, t))
  {
    InorderPlug(c, t);
    if !c.Top? {
      PlugRedBlack(c, t);
    }
  }

  // ----- Height

  ghost function Height(t: Tree): nat {
    match t
    case Leaf => 0
    case Bin(l, _, _, r) => 1 + if Height(l) > Height(r) then Height(l) else Height(r)
  }

  ghost function Pow2(n: nat): nat {
    if n == 0 then 1 else 2 * Pow2(n - 1)
  }

  lemma {:induction false} Pow2Monotone(m: nat, n: nat)
    requires m <= n
    ensures Pow2(m) <= Pow2(n)
    decreases n
  {
    if m < n { Pow2Monotone(m, n - 1); }
  }

  lemma {:induction false} HeightWithinBlackHeight(t: Tree)
    requires RedBlack(t)
    ensures Height(t) <= 2 * BlackHeight(t) + if RootColor(t) == Red then 1 else 0
    ensures Pow2(BlackHeight(t)) <= |Inorder(t)| + 1
  {
    match t
    case Leaf =>
    case Bin(l, _, _, r) =>
      HeightWithinBlackHeight(l);
      HeightWithinBlackHeight(r);
  }

  /** The height bound 2 lg (n + 1), with the logarithm cleared: 2^ceil(h/2) <= n + 1. */
  lemma {:induction false} HeightBound(t: Tree)
    requires RedBlack(t) && RootColor(t) == Black
    ensures Pow2((Height(t) + 1) / 2) <= |Inorder(t)| + 1
  {
    HeightWithinBlackHeight(t);
    Pow2Monotone((Height(t) + 1) / 2, BlackHeight(t));
  }
}
