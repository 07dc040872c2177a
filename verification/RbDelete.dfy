/** The repairs after a removal, as changes of shape: what each case of RB_REMOVE_COLOR turns the
  tree into, that the in-order sequence survives, and that the missing black moves up or vanishes.

  The cases come in mirror images.  `left` tells on which side the short subtree hangs; its
  sibling then has a near child, on the side of the short subtree, and a far child.
 */
module RbDelete {
  import opened Basics
  import opened RbShape

  ghost function Side(left: bool, near: Tree, n: Node, k: Color, far: Tree): Tree {
    if left then Bin(near, n, k, far) else Bin(far, n, k, near)
  }

  ghost function Frame(left: bool, up: Ctx, n: Node, k: Color, sibling: Tree): (c: Ctx)
    ensures !c.Top? && c.up == up && c.n == n && c.c == k && Sibling(c) == sibling && c.InLeft? == left
  {
    if left then InLeft(up, n, k, sibling) else InRight(sibling, n, k, up)
  }

  ghost function Near(left: bool, w: Tree): Tree
    requires w.Bin?
  {
    if left then w.l else w.r
  }

  ghost function Far(left: bool, w: Tree): Tree
    requires w.Bin?
  {
    if left then w.r else w.l
  }

  lemma {:induction false} TurnKeepsOrder(left: bool, a: Tree, p: Node, kp: Color, b: Tree, w: Node, kw: Color, d: Tree)
    ensures Inorder(Side(left, a, p, kp, Side(left, b, w, kw, d)))
         == Inorder(Side(left, Side(left, a, p, kp, b), w, kw, d))
  {
    if left {
      RotateLeftKeepsOrder(Bin(a, p, kp, Bin(b, w, kw, d)));
    } else {
      RotateRightKeepsOrder(Bin(Bin(d, w, kw, b), p, kp, a));
    }
  }

  /** Red-black but for the colour of its root. */
  ghost predicate UpToRoot(t: Tree) {
    t.Bin? ==> RedBlack(Dyed(t, Black))
  }

  /** `t` has one black node too few for its surroundings; its root may be painted black. */
  ghost predicate Short(c: Ctx, t: Tree) {
    UpToRoot(t) && Fits(c, BlackHeight(t) + 1)
  }

  /** `t` is short, black, and not the whole tree: its sibling exists and the repair goes on. */
  ghost predicate Deficient(c: Ctx, t: Tree) {
    Short(c, t) && !c.Top? && RootColor(t) == Black
  }

  lemma {:induction false} DeficientHasSibling(c: Ctx, t: Tree)
    requires Deficient(c, t)
    ensures RedBlack(t) && RedBlack(Sibling(c)) && Sibling(c).Bin? && BlackHeight(Sibling(c)) == BlackHeight(t) + 1
  {
  }

  // ----- Red sibling: it becomes the parent's parent, and the new sibling is black

  ghost function RedSiblingTurned(c: Ctx): Ctx
    requires !c.Top? && Sibling(c).Bin?
  {
    var left, w := c.InLeft?, Sibling(c);
    Frame(left, Frame(left, c.up, w.n, Black, Far(left, w)), c.n, Red, Near(left, w))
  }

  lemma {:induction false} RedSiblingRepairs(c: Ctx, t: Tree)
    requires Deficient(c, t) && RootColor(Sibling(c)) == Red
    ensures Deficient(RedSiblingTurned(c), t)
    ensures RootColor(Sibling(RedSiblingTurned(c))) == Black
    ensures Inorder(Plug(RedSiblingTurned(c), t)) == Inorder(Plug(c, t))
  {
    DeficientHasSibling(c, t);
    var left, w := c.InLeft?, Sibling(c);
    TurnKeepsOrder(left, t, c.n, c.c, Near(left, w), w.n, w.c, Far(left, w));
    var u := Side(left, Side(left, t, c.n, Red, Near(left, w)), w.n, Black, Far(left, w));
    SideColour(left, t, c.n, c.c, Red, Near(left, w));
    SameOrderInPlace(c.up, u, Wrap(c, t));
  }

  lemma {:induction false} SideColour(left: bool, a: Tree, n: Node, k: Color, k': Color, b: Tree)
    ensures Inorder(Side(left, a, n, k, b)) == Inorder(Side(left, a, n, k', b))
  {
  }

  // ----- Black sibling with black children: it turns red, and the parent is short instead

  ghost function SiblingReddened(c: Ctx, t: Tree): Tree
    requires !c.Top? && Sibling(c).Bin?
  {
    Wrap(WithSibling(c, Dyed(Sibling(c), Red)), t)
  }

  lemma {:induction false} ReddenRepairs(c: Ctx, t: Tree)
    requires Deficient(c, t) && Sibling(c).Bin? && Sibling(c).c == Black
    requires RootColor(Sibling(c).l) == Black && RootColor(Sibling(c).r) == Black
    ensures Short(c.up, SiblingReddened(c, t)) && RootColor(SiblingReddened(c, t)) == c.c
    ensures Inorder(Plug(c.up, SiblingReddened(c, t))) == Inorder(Plug(c, t))
  {
    var w := Dyed(Sibling(c), Red);
    assert RedBlack(w) && BlackHeight(w) == BlackHeight(t) && Inorder(w) == Inorder(Sibling(c));
    SameOrderInPlace(c.up, SiblingReddened(c, t), Wrap(c, t));
  }

  // ----- Black sibling with a black far child: the near child takes its place

  ghost function NearChildTurned(c: Ctx): Ctx
    requires !c.Top? && Sibling(c).Bin? && Near(c.InLeft?, Sibling(c)).Bin?
  {
    var left, w := c.InLeft?, Sibling(c);
    var v := Near(left, w);
    Frame(left, c.up, c.n, c.c, Side(left, Near(left, v), v.n, Black, Side(left, Far(left, v), w.n, Red, Far(left, w))))
  }

  lemma {:induction false} NearChildRepairs(c: Ctx, t: Tree)
    requires Deficient(c, t) && Sibling(c).Bin? && Sibling(c).c == Black
    requires RootColor(Near(c.InLeft?, Sibling(c))) == Red && RootColor(Far(c.InLeft?, Sibling(c))) == Black
    ensures var d := NearChildTurned(c);
            && Deficient(d, t) && Sibling(d).Bin? && Sibling(d).c == Black && d.InLeft? == c.InLeft?
            && RootColor(Far(d.InLeft?, Sibling(d))) == Red
            && Inorder(Plug(d, t)) == Inorder(Plug(c, t))
  {
    var left, w, d := c.InLeft?, Sibling(c), NearChildTurned(c);
    var v := Near(left, w);
    assert RedBlack(v) && BlackHeight(v) == BlackHeight(t);
    var s := Side(left, Far(left, v), w.n, Red, Far(left, w));
    assert RedBlack(s) && BlackHeight(s) == BlackHeight(t);
    NearChildOrder(left, w);
    SameOrderInPlace(c.up, Wrap(d, t), Wrap(c, t));
  }

  lemma {:induction false} NearChildOrder(left: bool, w: Tree)
    requires w.Bin? && Near(left, w).Bin?
    ensures var v := Near(left, w);
            Inorder(Side(left, Near(left, v), v.n, Black, Side(left, Far(left, v), w.n, Red, Far(left, w))))
            == Inorder(w)
  {
    var v := Near(left, w);
    TurnKeepsOrder(left, Near(left, v), v.n, Black, Far(left, v), w.n, Red, Far(left, w));
    assert Inorder(Side(left, Near(left, v), v.n, Black, Far(left, v))) == Inorder(v);
  }

  // ----- Black sibling with a red far child: one rotation supplies the missing black

  ghost function FarChildTurned(c: Ctx, t: Tree): Tree
    requires !c.Top? && Sibling(c).Bin? && Far(c.InLeft?, Sibling(c)).Bin?
  {
    var left, w := c.InLeft?, Sibling(c);
    Side(left, Side(left, t, c.n, Black, Near(left, w)), w.n, c.c, Dyed(Far(left, w), Black))
  }

  lemma {:induction false} FarChildRepairs(c: Ctx, t: Tree)
    requires Deficient(c, t) && Sibling(c).Bin? && Sibling(c).c == Black
    requires RootColor(Far(c.InLeft?, Sibling(c))) == Red
    ensures var u := Plug(c.up, FarChildTurned(c, t));
            u.Bin? && RedBlack(u) && RootColor(u) == Black && Inorder(u) == Inorder(Plug(c, t))
  {
    var left, w, u := c.InLeft?, Sibling(c), FarChildTurned(c, t);
    var near, far := Side(left, t, c.n, Black, Near(left, w)), Dyed(Far(left, w), Black);
    DeficientHasSibling(c, t);
    var f := Far(left, w);
    assert RedBlack(Near(left, w)) && RedBlack(f) && BlackHeight(Near(left, w)) == BlackHeight(f) == BlackHeight(t);
    assert RedBlack(near) && BlackHeight(near) == BlackHeight(t) + 1;
    assert RedBlack(far) && BlackHeight(far) == BlackHeight(t) + 1;
    assert RedBlack(u);
    PlugRedBlack(c.up, u);
    FarChildOrder(c, t);
    SameOrderInPlace(c.up, u, Wrap(c, t));
    InorderPlug(c.up, u);
  }

  lemma {:induction false} FarChildOrder(c: Ctx, t: Tree)
    requires !c.Top? && Sibling(c).Bin? && Far(c.InLeft?, Sibling(c)).Bin?
    ensures Inorder(FarChildTurned(c, t)) == Inorder(Wrap(c, t))
  {
    var left, w := c.InLeft?, Sibling(c);
    var near, far := Side(left, t, c.n, Black, Near(left, w)), Dyed(Far(left, w), Black);
    assert Inorder(far) == Inorder(Far(left, w));
    TurnKeepsOrder(left, t, c.n, Black, Near(left, w), w.n, c.c, far);
    assert Inorder(Side(left, Near(left, w), w.n, c.c, far)) == Inorder(w);
  }

  // ----- The end of the climb: painting the short subtree black makes up for the missing node

  lemma {:induction false} PaintRepairs(c: Ctx, t: Tree)
    requires Short(c, t) && (c.Top? || RootColor(t) == Red)
    ensures var u := Plug(c, if t.Bin? then Dyed(t, Black) else t);
            RedBlack(u) && RootColor(u) == Black && Inorder(u) == Inorder(Plug(c, t))
  {
    if t.Bin? {
      if !c.Top? {
        PlugRedBlack(c, Dyed(t, Black));
      }
      SameOrderInPlace(c, Dyed(t, Black), t);
    }
  }

  // ----- Taking a node out

  /** What takes the place of a node that lacks a child. */
  ghost function OnlyChild(t: Tree): Tree
    requires t.Bin?
  {
    if t.l.Leaf? then t.r else t.l
  }

  ghost predicate LacksChild(t: Tree) {
    t.Bin? && (t.l.Leaf? || t.r.Leaf?)
  }

  lemma {:induction false} SpliceOrder(c: Ctx, t: Tree) returns (a: seq<Node>, b: seq<Node>)
    requires LacksChild(t)
    ensures Inorder(Plug(c, t)) == a + [t.n] + b && Inorder(Plug(c, OnlyChild(t))) == a + b
  {
    AroundNode(c, t.l, t.n, t.c, t.r);
    InorderPlug(c, OnlyChild(t));
    a, b := Before(c) + Inorder(t.l), Inorder(t.r) + After(c);
    assert t.l.Leaf? ==> Inorder(t.l) == [] && a == Before(c);
    assert t.r.Leaf? ==> Inorder(t.r) == [] && b == After(c);
    SlideIn(Before(c), [], Inorder(t.r), After(c));
  }

  /** Without a red node the tree stays red-black; without a black one its place becomes short. */
  lemma {:induction false} SpliceColours(c: Ctx, t: Tree)
    requires LacksChild(t) && RedBlack(t) && Fits(c, BlackHeight(t))
    ensures t.c == Black ==> Short(c, OnlyChild(t))
    ensures t.c == Red ==> RedBlack(Plug(c, OnlyChild(t))) && RootColor(Plug(c, OnlyChild(t))) == Black
  {
    if t.c == Red {
      PlugRedBlack(c, OnlyChild(t));
    }
  }

  lemma {:induction false} SortedRemove(a: seq<Node>, n: Node, b: seq<Node>)
    requires Sorted(a + [n] + b)
    ensures Sorted(a + b) && n !in a + b
  {
    SortedAround(a, n, b);
    var s, u := a + [n] + b, a + b;
    forall i, j | 0 <= i < j < |u| ensures u[i].key < u[j].key {
      var i', j' := if i < |a| then i else i + 1, if j < |a| then j else j + 1;
      assert s[i'] == u[i] && s[j'] == u[j];
    }
  }

  // ----- The successor of a node with two children

  /** The path `d` continued outwards by `b`. */
  ghost function Extend(d: Ctx, b: Ctx): Ctx {
    match d
    case Top => b
    case InLeft(up, n, k, r) => InLeft(Extend(up, b), n, k, r)
    case InRight(l, n, k, up) => InRight(l, n, k, Extend(up, b))
  }

  lemma {:induction false} PlugExtend(d: Ctx, b: Ctx, t: Tree)
    ensures Plug(Extend(d, b), t) == Plug(b, Plug(d, t))
    decreases d
  {
    match d
    case Top =>
    case InLeft(up, n, k, r) => PlugExtend(up, b, Bin(t, n, k, r));
    case InRight(l, n, k, up) => PlugExtend(up, b, Bin(l, n, k, t));
  }

  ghost predicate AllLeft(d: Ctx) {
    d.Top? || (d.InLeft? && AllLeft(d.up))
  }

  lemma {:induction false} NothingBefore(d: Ctx)
    requires AllLeft(d)
    ensures Before(d) == []
  {
    if !d.Top? {
      NothingBefore(d.up);
    }
  }

  /** Colours do not depend on which node sits where. */
  lemma {:induction false} FitsWithAnother(d: Ctx, l: Tree, x: Node, y: Node, k: Color, c: Ctx, h: nat)
    requires Fits(Extend(d, InRight(l, x, k, c)), h)
    ensures Fits(Extend(d, InRight(l, y, k, c)), h)
    ensures HolderColor(Extend(d, InRight(l, x, k, c))) == HolderColor(Extend(d, InRight(l, y, k, c)))
    decreases d
  {
    if !d.Top? {
      FitsWithAnother(d.up, l, x, y, k, c, h + if d.c == Black then 1 else 0);
    }
  }

  /** The in-order sequence around a subtree `Bin(l, n, k, u)` in its place. */
  lemma {:induction false} AroundNode(c: Ctx, l: Tree, n: Node, k: Color, u: Tree)
    ensures Inorder(Plug(c, Bin(l, n, k, u))) == (Before(c) + Inorder(l)) + [n] + (Inorder(u) + After(c))
  {
    InorderPlug(c, Bin(l, n, k, u));
    Regroup(Before(c), Inorder(l), [n], Inorder(u), After(c));
  }

  /** Down the left spine, a tree without a left subtree begins with its root. */
  lemma {:induction false} Leftmost(d: Ctx, s: Tree)
    requires AllLeft(d) && s.Bin? && s.l.Leaf?
    ensures Inorder(Plug(d, s)) == [s.n] + Inorder(Plug(d, s.r))
  {
    InorderPlug(d, s);
    InorderPlug(d, s.r);
    NothingBefore(d);
    assert Inorder(s) == [s.n] + Inorder(s.r);
    NothingAhead(s.n, Inorder(s.r), After(d));
  }

  lemma {:induction false} NothingAhead(n: Node, b: seq<Node>, e: seq<Node>)
    ensures [] + ([n] + b) + e == [n] + ([] + b + e)
  {
  }

  /** Moving the successor `s.n` into the place of `n` removes exactly `n` from the sequence. */
  lemma {:induction false} SuccessorOrder(d: Ctx, l: Tree, n: Node, k: Color, c: Ctx, s: Tree)
      returns (a: seq<Node>, b: seq<Node>)
    requires AllLeft(d) && s.Bin? && s.l.Leaf?
    ensures Inorder(Plug(Extend(d, InRight(l, n, k, c)), s)) == a + [n] + b
    ensures Inorder(Plug(Extend(d, InRight(l, s.n, k, c)), s.r)) == a + b
  {
    PlugExtend(d, InRight(l, n, k, c), s);
    PlugExtend(d, InRight(l, s.n, k, c), s.r);
    AroundNode(c, l, n, k, Plug(d, s));
    AroundNode(c, l, s.n, k, Plug(d, s.r));
    Leftmost(d, s);
    a, b := Before(c) + Inorder(l), Inorder(Plug(d, s)) + After(c);
    SlideIn(a, [s.n], Inorder(Plug(d, s.r)), After(c));
  }

  lemma {:induction false} SlideIn(a: seq<Node>, m: seq<Node>, b: seq<Node>, e: seq<Node>)
    ensures a + m + (b + e) == a + ((m + b) + e)
  {
  }

  /** Where a node of a tree sits. */
  lemma {:induction false} Locate(d: Ctx, t: Tree, n: Node) returns (c: Ctx, s: Tree)
    requires n in Nodes(t)
    ensures Plug(c, s) == Plug(d, t) && s.Bin? && s.n == n
    decreases t
  {
    if t.n == n {
      c, s := d, t;
    } else if n in Nodes(t.l) {
      c, s := Locate(InLeft(d, t.n, t.c, t.r), t.l, n);
    } else {
      c, s := Locate(InRight(t.l, t.n, t.c, d), t.r, n);
    }
  }
}
