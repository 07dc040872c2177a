/** utils/tree.h, RB_GENERATE: insertion, removal and lookup on linked red-black trees. */
module RbTree {
  import opened RbShape
  import opened RbHeap
  import opened RbDelete

  class Tree {
    var root: Node?
    ghost var nodes: set<Node>
    ghost var model: RbShape.Tree

    /** The linked nodes form the tree `u`. */
    ghost predicate Is(u: RbShape.Tree)
      reads this, nodes
    {
      Forms(Snap(nodes), root, u)
    }

    method SetLeft(elm: Node, v: Node?)
      requires elm in nodes
      modifies elm`left
      ensures Snap(nodes) == old(Snap(nodes))[elm := old(Snap(nodes))[elm].(left := v)]
    {
      elm.left := v;
    }

    method SetRight(elm: Node, v: Node?)
      requires elm in nodes
      modifies elm`right
      ensures Snap(nodes) == old(Snap(nodes))[elm := old(Snap(nodes))[elm].(right := v)]
    {
      elm.right := v;
    }

    method SetParent(elm: Node, v: Node?)
      requires elm in nodes
      modifies elm`parent
      ensures Snap(nodes) == old(Snap(nodes))[elm := old(Snap(nodes))[elm].(parent := v)]
    {
      elm.parent := v;
    }

    /** The link to `child`, from its parent or from the head, is made to lead to `elm`. */
    method SwapChild(parent: Node?, child: Node, elm: Node?)
      requires parent != null ==> parent in nodes
      modifies `root, nodes`left, nodes`right
      ensures Snap(nodes) == Replace(old(Snap(nodes)), parent, child, elm)
      ensures root == if parent == null then elm else old(root)
    {
      if parent != null {
        if parent.left == child {
          SetLeft(parent, elm);
        } else {
          SetRight(parent, elm);
        }
      } else {
        root := elm;
      }
    }

    /** What the links around a subtree hold. */
    lemma {:induction false} Look(c: Ctx, t: RbShape.Tree)
      requires Is(Plug(c, t))
      ensures c.Top? ==> root == Root(t)
      ensures !c.Top? ==> root != null && root != Root(t)
      ensures t.Bin? ==> t.n in nodes && t.n.left == Root(t.l) && t.n.right == Root(t.r)
      ensures t.Bin? ==> t.n.parent == Holder(c) && t.n.color == t.c
      ensures !c.Top? ==> c.n in nodes && c.n.parent == Holder(c.up) && c.n.color == c.c
      ensures c.InLeft? ==> c.n.left == Root(t) && c.n.right == Root(c.r)
      ensures c.InRight? ==> c.n.right == Root(t) && c.n.left == Root(c.l)
      ensures c.InRight? && (t.Bin? || c.l.Bin?) ==> c.n.left != Root(t)
      ensures c.InLeft? && (t.Bin? || c.r.Bin?) ==> c.n.right != Root(t)
    {
      ZoomIn(Snap(nodes), root, c, t);
      if !c.Top? {
        TopRootInCtx(c, Root(t));
      }
    }

    lemma {:induction false} LookAcross(c: Ctx, t: RbShape.Tree)
      requires Is(Plug(c, t)) && !c.Top? && Sibling(c).Bin?
      ensures Sibling(c).n in nodes && Sibling(c).n.color == Sibling(c).c
      ensures Sibling(c).n.left == Root(Sibling(c).l) && Sibling(c).n.right == Root(Sibling(c).r)
    {
      ZoomIn(Snap(nodes), root, c, t);
    }

    lemma {:induction false} LookBelow(c: Ctx, t: RbShape.Tree)
      requires Is(Plug(c, t)) && !c.Top? && Sibling(c).Bin?
      ensures Sibling(c).l.Bin? ==> Sibling(c).l.n in nodes && Sibling(c).l.n.color == Sibling(c).l.c
      ensures Sibling(c).r.Bin? ==> Sibling(c).r.n in nodes && Sibling(c).r.n.color == Sibling(c).r.c
    {
      var s, d := Sibling(c), Across(c, t);
      Look(InLeft(d, s.n, s.c, s.r), s.l);
      Look(InRight(s.l, s.n, s.c, d), s.r);
    }

    method RotateLeft(elm: Node, ghost c: Ctx, ghost t: RbShape.Tree) returns (tmp: Node)
      requires Is(Plug(c, t)) && t.Bin? && t.n == elm && t.r.Bin?
      modifies `root, nodes`left, nodes`right, nodes`parent
      ensures Is(Plug(c, RotatedLeft(t))) && tmp == t.r.n
    {
      ZoomIn(Snap(nodes), root, c, t);
      TurnLeftRotates(Snap(nodes), root, c, t);
      RotateLeftClosed(Snap(nodes), root, c, t);
      tmp := RelinkLeft(elm);
      ZoomOut(Snap(nodes), root, c, RotatedLeft(t));
    }

    /** The assignments of RB_ROTATE_LEFT. */
    method RelinkLeft(elm: Node) returns (tmp: Node)
      requires elm in nodes && elm.right != null && elm.right in nodes && elm.right != elm
      requires elm.right.left != null ==> elm.right.left in nodes - {elm, elm.right}
      requires elm.parent != null ==> elm.parent in nodes - {elm, elm.right}
      modifies `root, nodes`left, nodes`right, nodes`parent
      ensures tmp == old(elm.right)
      ensures Snap(nodes) == TurnLeft(old(Snap(nodes)), elm)
      ensures root == if old(elm.parent) == null then tmp else old(root)
    {
      tmp := elm.right;
      SetRight(elm, tmp.left);
      if elm.right != null {
        SetParent(tmp.left, elm);
      }
      SetParent(tmp, elm.parent);
      assert Snap(nodes) == TurnLeftBelow(old(Snap(nodes)), elm);
      SwapChild(elm.parent, elm, tmp);
      SetLeft(tmp, elm);
      SetParent(elm, tmp);
    }

    method RotateRight(elm: Node, ghost c: Ctx, ghost t: RbShape.Tree) returns (tmp: Node)
      requires Is(Plug(c, t)) && t.Bin? && t.n == elm && t.l.Bin?
      modifies `root, nodes`left, nodes`right, nodes`parent
      ensures Is(Plug(c, RotatedRight(t))) && tmp == t.l.n
    {
      ZoomIn(Snap(nodes), root, c, t);
      TurnRightRotates(Snap(nodes), root, c, t);
      RotateRightClosed(Snap(nodes), root, c, t);
      tmp := RelinkRight(elm);
      ZoomOut(Snap(nodes), root, c, RotatedRight(t));
    }

    /** The assignments of RB_ROTATE_RIGHT. */
    method RelinkRight(elm: Node) returns (tmp: Node)
      requires elm in nodes && elm.left != null && elm.left in nodes && elm.left != elm
      requires elm.left.right != null ==> elm.left.right in nodes - {elm, elm.left}
      requires elm.parent != null ==> elm.parent in nodes - {elm, elm.left}
      modifies `root, nodes`left, nodes`right, nodes`parent
      ensures tmp == old(elm.left)
      ensures Snap(nodes) == TurnRight(old(Snap(nodes)), elm)
      ensures root == if old(elm.parent) == null then tmp else old(root)
    {
      tmp := elm.left;
      SetLeft(elm, tmp.right);
      if elm.left != null {
        SetParent(tmp.right, elm);
      }
      SetParent(tmp, elm.parent);
      assert Snap(nodes) == TurnRightBelow(old(Snap(nodes)), elm);
      SwapChild(elm.parent, elm, tmp);
      SetRight(tmp, elm);
      SetParent(elm, tmp);
    }

    method SetColor(elm: Node, k: Color)
      requires elm in nodes
      modifies elm`color
      ensures Snap(nodes) == old(Snap(nodes))[elm := old(Snap(nodes))[elm].(color := k)]
    {
      elm.color := k;
    }

    method Paint(elm: Node, k: Color, ghost c: Ctx, ghost t: RbShape.Tree)
      requires Is(Plug(c, t)) && t.Bin? && t.n == elm
      modifies nodes`color
      ensures Is(Plug(c, Dyed(t, k)))
    {
      ZoomIn(Snap(nodes), root, c, t);
      PaintedHere(Snap(nodes), root, c, t, k);
      SetColor(elm, k);
      ZoomOut(Snap(nodes), root, c, Dyed(t, k));
    }

    // ----- RB_INSERT_COLOR

    /** Red uncle: the blackness of the grandparent moves down to both its children. */
    method PushBlackDown(parent: Node, gparent: Node, uncle: Node, ghost c: Ctx, ghost t: RbShape.Tree)
      requires Is(Plug(c, t)) && !c.Top? && !c.up.Top? && parent == c.n && gparent == c.up.n
      requires Sibling(c.up).Bin? && Sibling(c.up).n == uncle
      modifies nodes`color
      ensures Is(Plug(c.up.up, BlackPushedDown(c, t)))
    {
      ghost var p := Wrap(c, t);
      Paint(uncle, Black, Across(c.up, p), Sibling(c.up));
      AcrossPlug(c.up, p, Dyed(Sibling(c.up), Black));
      ghost var g := WithSibling(c.up, Dyed(Sibling(c.up), Black));
      Paint(parent, Black, g, p);
      Paint(gparent, Red, g.up, Wrap(g, Dyed(p, Black)));
    }

    /** Black uncle: recolour and rotate the grandparent away; `t` is the outer red grandchild. */
    method LiftParent(parent: Node, gparent: Node, ghost c: Ctx, ghost t: RbShape.Tree)
      requires Is(Plug(c, t)) && !c.Top? && !c.up.Top? && parent == c.n && gparent == c.up.n
      requires c.InLeft? == c.up.InLeft?
      modifies `root, nodes
      ensures Is(Plug(LiftedParent(c), t))
    {
      ghost var p, g := Dyed(Wrap(c, t), Black), c.up;
      Paint(parent, Black, g, Wrap(c, t));
      Paint(gparent, Red, g.up, Wrap(g, p));
      ghost var u := Dyed(Wrap(g, p), Red);
      Look(HolderDyed(g, Red), p);
      if parent == gparent.left {
        var _ := RotateRight(gparent, g.up, u);
      } else {
        var _ := RotateLeft(gparent, g.up, u);
      }
    }

    /** One round when the parent is a left child. */
    method InsertStepLeft(elm: Node, parent: Node, gparent: Node, ghost c: Ctx, ghost t: RbShape.Tree)
        returns (elm': Node, ghost c': Ctx, ghost t': RbShape.Tree)
      requires Is(Plug(c, t)) && RedFocus(c, t) && t.n == elm
      requires !c.Top? && c.c == Red && c.up.InLeft? && c.n == parent && c.up.n == gparent
      modifies `root, nodes
      ensures Is(Plug(c', t')) && RedFocus(c', t') && t'.n == elm'
      ensures Depth(c') < Depth(c) && Inorder(Plug(c', t')) == Inorder(Plug(c, t))
    {
      elm', c', t' := elm, c, t;
      Look(c, t);
      Look(c.up, Wrap(c, t));
      if Sibling(c.up).Bin? {
        LookAcross(c.up, Wrap(c, t));
      }
      var tmp := gparent.right;
      if tmp != null && tmp.color == Red {
        PushBlackDown(parent, gparent, tmp, c, t);
        PushDownRepairs(c, t);
        return gparent, c.up.up, BlackPushedDown(c, t);
      }
      var upper := parent;
      if parent.right == elm {
        tmp := RotateLeft(parent, c.up, Wrap(c, t));
        OutwardKeeps(c, t);
        upper, elm', c', t' := elm, parent, Outward(c, t), FormerParent(c, t);
      }
      LiftParent(upper, gparent, c', t');
      LiftRepairs(c', t');
      c' := LiftedParent(c');
    }

    /** One round when the parent is a right child. */
    method InsertStepRight(elm: Node, parent: Node, gparent: Node, ghost c: Ctx, ghost t: RbShape.Tree)
        returns (elm': Node, ghost c': Ctx, ghost t': RbShape.Tree)
      requires Is(Plug(c, t)) && RedFocus(c, t) && t.n == elm
      requires !c.Top? && c.c == Red && c.up.InRight? && c.n == parent && c.up.n == gparent
      modifies `root, nodes
      ensures Is(Plug(c', t')) && RedFocus(c', t') && t'.n == elm'
      ensures Depth(c') < Depth(c) && Inorder(Plug(c', t')) == Inorder(Plug(c, t))
    {
      elm', c', t' := elm, c, t;
      Look(c, t);
      Look(c.up, Wrap(c, t));
      if Sibling(c.up).Bin? {
        LookAcross(c.up, Wrap(c, t));
      }
      var tmp := gparent.left;
      if tmp != null && tmp.color == Red {
        PushBlackDown(parent, gparent, tmp, c, t);
        PushDownRepairs(c, t);
        return gparent, c.up.up, BlackPushedDown(c, t);
      }
      var upper := parent;
      if parent.left == elm {
        tmp := RotateRight(parent, c.up, Wrap(c, t));
        OutwardKeeps(c, t);
        upper, elm', c', t' := elm, parent, Outward(c, t), FormerParent(c, t);
      }
      LiftParent(upper, gparent, c', t');
      LiftRepairs(c', t');
      c' := LiftedParent(c');
    }

    method InsertColor(inserted: Node, ghost c0: Ctx, ghost t0: RbShape.Tree) returns (ghost u: RbShape.Tree)
      requires Is(Plug(c0, t0)) && RedFocus(c0, t0) && t0.n == inserted
      modifies `root, nodes
      ensures Is(u) && RedBlack(u) && RootColor(u) == Black
      ensures Inorder(u) == Inorder(Plug(c0, t0))
    {
      var elm := inserted;
      ghost var c, t := c0, t0;
      Look(c, t);
      var parent := elm.parent;
      while parent != null && parent.color == Red
        invariant Is(Plug(c, t)) && RedFocus(c, t) && t.n == elm
        invariant parent == Holder(c) && (parent != null ==> parent in nodes && parent.color == c.c)
        invariant Inorder(Plug(c, t)) == Inorder(Plug(c0, t0))
        decreases Depth(c)
      {
        Look(c, t);
        Look(c.up, Wrap(c, t));
        var gparent := parent.parent;
        if parent == gparent.left {
          elm, c, t := InsertStepLeft(elm, parent, gparent, c, t);
        } else {
          elm, c, t := InsertStepRight(elm, parent, gparent, c, t);
        }
        Look(c, t);
        parent := elm.parent;
      }
      u := Plug(c, t);
      InsertionRepaired(c, t);
      Look(Top, u);
      Paint(root, Black, Top, u);
      u := Dyed(u, Black);
    }

    // ----- RB_REMOVE_COLOR

    /** Painting the sibling of a subtree. */
    method PaintSibling(elm: Node, k: Color, ghost c: Ctx, ghost t: RbShape.Tree)
      requires Is(Plug(c, t)) && !c.Top? && Sibling(c).Bin? && Sibling(c).n == elm
      modifies nodes`color
      ensures Is(Plug(WithSibling(c, Dyed(Sibling(c), k)), t))
    {
      AcrossPlug(c, t, Dyed(Sibling(c), k));
      Paint(elm, k, Across(c, t), Sibling(c));
    }

    method TurnRedSiblingLeft(tmp: Node, parent: Node, ghost c: Ctx, ghost t: RbShape.Tree)
      requires Is(Plug(c, t)) && c.InLeft? && parent == c.n && c.r.Bin? && tmp == c.r.n
      modifies `root, nodes
      ensures Is(Plug(RedSiblingTurned(c), t))
    {
      PaintSibling(tmp, Black, c, t);
      ghost var d := WithSibling(c, Dyed(c.r, Black));
      Paint(parent, Red, d.up, Wrap(d, t));
      var _ := RotateLeft(parent, d.up, Dyed(Wrap(d, t), Red));
    }

    method TurnNearChildLeft(tmp: Node, ghost c: Ctx, ghost t: RbShape.Tree)
      requires Is(Plug(c, t)) && c.InLeft? && c.r.Bin? && tmp == c.r.n && c.r.l.Bin?
      modifies `root, nodes
      ensures Is(Plug(NearChildTurned(c), t))
    {
      ghost var d, w := Across(c, t), c.r;
      Look(d, w);
      var oleft := tmp.left;
      if oleft != null {
        Paint(oleft, Black, InLeft(d, w.n, w.c, w.r), w.l);
        w := w.(l := Dyed(w.l, Black));
      }
      Paint(tmp, Red, d, w);
      var _ := RotateRight(tmp, d, Dyed(w, Red));
      AcrossPlug(c, t, RotatedRight(Dyed(w, Red)));
    }

    method TurnFarChildLeft(tmp: Node, parent: Node, ghost c: Ctx, ghost t: RbShape.Tree)
      requires Is(Plug(c, t)) && c.InLeft? && parent == c.n && c.r.Bin? && tmp == c.r.n && c.r.r.Bin?
      modifies `root, nodes
      ensures Is(Plug(c.up, FarChildTurned(c, t)))
    {
      ghost var w := Dyed(c.r, c.c);
      Look(c, t);
      PaintSibling(tmp, parent.color, c, t);
      ghost var d := WithSibling(c, w);
      Paint(parent, Black, d.up, Wrap(d, t));
      d := HolderDyed(d, Black);
      ghost var e := Across(d, t);
      Look(e, w);
      if tmp.right != null {
        Paint(tmp.right, Black, InRight(w.l, w.n, w.c, e), w.r);
        w := w.(r := Dyed(w.r, Black));
        AcrossPlug(d, t, w);
      }
      var _ := RotateLeft(parent, d.up, Wrap(WithSibling(d, w), t));
    }

    method TurnRedSiblingRight(tmp: Node, parent: Node, ghost c: Ctx, ghost t: RbShape.Tree)
      requires Is(Plug(c, t)) && c.InRight? && parent == c.n && c.l.Bin? && tmp == c.l.n
      modifies `root, nodes
      ensures Is(Plug(RedSiblingTurned(c), t))
    {
      PaintSibling(tmp, Black, c, t);
      ghost var d := WithSibling(c, Dyed(c.l, Black));
      Paint(parent, Red, d.up, Wrap(d, t));
      var _ := RotateRight(parent, d.up, Dyed(Wrap(d, t), Red));
    }

    method TurnNearChildRight(tmp: Node, ghost c: Ctx, ghost t: RbShape.Tree)
      requires Is(Plug(c, t)) && c.InRight? && c.l.Bin? && tmp == c.l.n && c.l.r.Bin?
      modifies `root, nodes
      ensures Is(Plug(NearChildTurned(c), t))
    {
      ghost var d, w := Across(c, t), c.l;
      Look(d, w);
      var oright := tmp.right;
      if oright != null {
        Paint(oright, Black, InRight(w.l, w.n, w.c, d), w.r);
        w := w.(r := Dyed(w.r, Black));
      }
      Paint(tmp, Red, d, w);
      var _ := RotateLeft(tmp, d, Dyed(w, Red));
      AcrossPlug(c, t, RotatedLeft(Dyed(w, Red)));
    }

    method TurnFarChildRight(tmp: Node, parent: Node, ghost c: Ctx, ghost t: RbShape.Tree)
      requires Is(Plug(c, t)) && c.InRight? && parent == c.n && c.l.Bin? && tmp == c.l.n && c.l.l.Bin?
      modifies `root, nodes
      ensures Is(Plug(c.up, FarChildTurned(c, t)))
    {
      ghost var w := Dyed(c.l, c.c);
      Look(c, t);
      PaintSibling(tmp, parent.color, c, t);
      ghost var d := WithSibling(c, w);
      Paint(parent, Black, d.up, Wrap(d, t));
      d := HolderDyed(d, Black);
      ghost var e := Across(d, t);
      Look(e, w);
      if tmp.left != null {
        Paint(tmp.left, Black, InLeft(e, w.n, w.c, w.r), w.l);
        w := w.(l := Dyed(w.l, Black));
        AcrossPlug(d, t, w);
      }
      var _ := RotateRight(parent, d.up, Wrap(WithSibling(d, w), t));
    }

    /** One round when the short subtree is a left child.  Unless it is `done`, `t'` is now the short one. */
    method RemoveStepLeft(parent: Node, ghost c0: Ctx, ghost t: RbShape.Tree)
        returns (done: bool, ghost c': Ctx, ghost t': RbShape.Tree)
      requires Is(Plug(c0, t)) && Deficient(c0, t) && c0.InLeft? && parent == c0.n
      modifies `root, nodes
      ensures Is(Plug(c', t')) && Inorder(Plug(c', t')) == Inorder(Plug(c0, t))
      ensures !done ==> Short(c', t') && t'.Bin? && t'.n == parent
      ensures !done ==> Depth(c') < Depth(c0) || (Depth(c') == Depth(c0) && RootColor(t') == Red)
      ensures done ==> c'.Top? && t'.Bin? && RedBlack(t') && RootColor(t') == Black
    {
      ghost var c := c0;
      DeficientHasSibling(c, t);
      Look(c, t);
      LookAcross(c, t);
      var tmp := parent.right;
      if tmp.color == Red {
        TurnRedSiblingLeft(tmp, parent, c, t);
        RedSiblingRepairs(c, t);
        c := RedSiblingTurned(c);
        DeficientHasSibling(c, t);
        Look(c, t);
        LookAcross(c, t);
        tmp := parent.right;
      }
      LookBelow(c, t);
      if (tmp.left == null || tmp.left.color == Black) && (tmp.right == null || tmp.right.color == Black) {
        PaintSibling(tmp, Red, c, t);
        ReddenRepairs(c, t);
        return false, c.up, SiblingReddened(c, t);
      }
      if tmp.right == null || tmp.right.color == Black {
        TurnNearChildLeft(tmp, c, t);
        NearChildRepairs(c, t);
        c := NearChildTurned(c);
        Look(c, t);
        tmp := parent.right;
      }
      TurnFarChildLeft(tmp, parent, c, t);
      FarChildRepairs(c, t);
      return true, Top, Plug(c.up, FarChildTurned(c, t));
    }

    /** One round when the short subtree is a right child.  Unless it is `done`, `t'` is now the short one. */
    method RemoveStepRight(parent: Node, ghost c0: Ctx, ghost t: RbShape.Tree)
        returns (done: bool, ghost c': Ctx, ghost t': RbShape.Tree)
      requires Is(Plug(c0, t)) && Deficient(c0, t) && c0.InRight? && parent == c0.n
      modifies `root, nodes
      ensures Is(Plug(c', t')) && Inorder(Plug(c', t')) == Inorder(Plug(c0, t))
      ensures !done ==> Short(c', t') && t'.Bin? && t'.n == parent
      ensures !done ==> Depth(c') < Depth(c0) || (Depth(c') == Depth(c0) && RootColor(t') == Red)
      ensures done ==> c'.Top? && t'.Bin? && RedBlack(t') && RootColor(t') == Black
    {
      ghost var c := c0;
      DeficientHasSibling(c, t);
      Look(c, t);
      LookAcross(c, t);
      var tmp := parent.left;
      if tmp.color == Red {
        TurnRedSiblingRight(tmp, parent, c, t);
        RedSiblingRepairs(c, t);
        c := RedSiblingTurned(c);
        DeficientHasSibling(c, t);
        Look(c, t);
        LookAcross(c, t);
        tmp := parent.left;
      }
      LookBelow(c, t);
      if (tmp.left == null || tmp.left.color == Black) && (tmp.right == null || tmp.right.color == Black) {
        PaintSibling(tmp, Red, c, t);
        ReddenRepairs(c, t);
        return false, c.up, SiblingReddened(c, t);
      }
      if tmp.left == null || tmp.left.color == Black {
        TurnNearChildRight(tmp, c, t);
        NearChildRepairs(c, t);
        c := NearChildTurned(c);
        Look(c, t);
        tmp := parent.left;
      }
      TurnFarChildRight(tmp, parent, c, t);
      FarChildRepairs(c, t);
      return true, Top, Plug(c.up, FarChildTurned(c, t));
    }

    method RemoveColor(above: Node?, child: Node?, ghost c0: Ctx, ghost t0: RbShape.Tree)
        returns (ghost u: RbShape.Tree)
      requires Is(Plug(c0, t0)) && Short(c0, t0) && above == Holder(c0) && child == Root(t0)
      modifies `root, nodes
      ensures Is(u) && RedBlack(u) && RootColor(u) == Black
      ensures Inorder(u) == Inorder(Plug(c0, t0))
    {
      var elm, parent, done := child, above, false;
      ghost var c, t := c0, t0;
      Look(c, t);
      while !done && (elm == null || elm.color == Black) && elm != root
        invariant Is(Plug(c, t)) && Root(t) == elm && Holder(c) == parent
        invariant elm != null ==> elm in nodes && elm.color == t.c
        invariant (c.Top? <==> root == elm) && (!c.Top? ==> parent in nodes)
        invariant !done ==> Short(c, t)
        invariant done ==> c.Top? && t.Bin? && RedBlack(t) && RootColor(t) == Black
        invariant Inorder(Plug(c, t)) == Inorder(Plug(c0, t0))
        decreases !done, Depth(c), if RootColor(t) == Black then 1 else 0
      {
        Look(c, t);
        DeficientHasSibling(c, t);
        if parent.left == elm {
          done, c, t := RemoveStepLeft(parent, c, t);
        } else {
          done, c, t := RemoveStepRight(parent, c, t);
        }
        Look(c, t);
        if done {
          elm, parent := root, null;
        } else {
          elm := parent;
          parent := elm.parent;
        }
      }
      if done {
        assert Dyed(t, Black) == t;
      } else {
        PaintRepairs(c, t);
      }
      if elm != null {
        Paint(elm, Black, c, t);
      }
      u := Plug(c, if t.Bin? then Dyed(t, Black) else t);
    }

    // ----- RB_INSERT, RB_FIND and RB_REMOVE

    ghost predicate Valid()
      reads this, nodes
    {
      Is(model) && RedBlack(model) && RootColor(model) == Black && Sorted(Inorder(model))
    }

    constructor ()
      ensures Valid() && nodes == {}
    {
      root, nodes, model := null, {}, Leaf;
    }

    /** The height of every reachable tree of n nodes is at most 2 lg (n + 1). */
    lemma {:induction false} HeightBounded()
      requires Valid()
      ensures Pow2((Height(model) + 1) / 2) <= |nodes| + 1
    {
      assert FormsFacts(Snap(nodes), root, model);
      HeightBound(model);
      NodesCounted(model);
      assert Snap(nodes).Keys == nodes;
    }

    ghost method Commit(u: RbShape.Tree)
      requires Is(u) && RedBlack(u) && RootColor(u) == Black && Sorted(Inorder(u))
      modifies `model
      ensures Valid() && model == u
    {
      model := u;
    }

    /** RB_FIND: the node with the given key, if the tree has one. */
    method Find(key: int) returns (r: Node?)
      requires Valid()
      ensures r != null ==> r in nodes && r.key == key
      ensures r == null ==> forall n :: n in nodes ==> n.key != key
    {
      var tmp := root;
      ghost var c, t := Top, model;
      Look(c, t);
      while tmp != null
        invariant Plug(c, t) == model && Root(t) == tmp && Routed(c, key)
        decreases t
      {
        Look(c, t);
        var comp := Compare(key, tmp);
        if comp < 0 {
          tmp := tmp.left;
          c, t := InLeft(c, t.n, t.c, t.r), t.l;
        } else if comp > 0 {
          tmp := tmp.right;
          c, t := InRight(t.l, t.n, t.c, c), t.r;
        } else {
          return tmp;
        }
      }
      KeyAbsent(c, key);
      return null;
    }

    /** RB_INSERT: links `elm` in unless its key is taken; then the present holder is returned. */
    method Insert(elm: Node) returns (r: Node?)
      requires Valid()
      modifies this, nodes, elm
      ensures Valid()
      ensures r != null ==> r in old(nodes) && r.key == elm.key && nodes == old(nodes) && model == old(model)
      ensures r == null ==> nodes == old(nodes) + {elm} && forall n :: n in old(nodes) ==> n.key != elm.key
    {
      var tmp, parent, comp := root, null, 0;
      ghost var c, t := Top, model;
      Look(c, t);
      while tmp != null
        invariant Plug(c, t) == model && Root(t) == tmp && Holder(c) == parent && Routed(c, elm.key)
        invariant comp < 0 <==> c.InLeft?
        modifies {}
        decreases t
      {
        Look(c, t);
        parent := tmp;
        comp := Compare(elm.key, parent);
        if comp < 0 {
          tmp := tmp.left;
          c, t := InLeft(c, t.n, t.c, t.r), t.l;
        } else if comp > 0 {
          tmp := tmp.right;
          c, t := InRight(t.l, t.n, t.c, c), t.r;
        } else {
          return tmp;
        }
      }
      KeyAbsent(c, elm.key);
      Look(c, t);
      ghost var s := Bin(Leaf, elm, Red, Leaf);
      UnplugRedBlack(c, Leaf);
      InsertedOrder(c, elm);
      LinkNew(elm, parent, comp, c);
      ghost var u := InsertColor(elm, c, s);
      Commit(u);
      return null;
    }

    /** RB_SET and the link from the parent. */
    method LinkNew(elm: Node, parent: Node?, comp: int, ghost c: Ctx)
      requires Is(Plug(c, Leaf)) && Holder(c) == parent && (comp < 0 <==> c.InLeft?) && elm !in nodes
      modifies `root, `nodes, nodes`left, nodes`right, elm
      ensures nodes == old(nodes) + {elm} && Is(Plug(c, Bin(Leaf, elm, Red, Leaf)))
    {
      ghost var m := Snap(nodes);
      Look(c, Leaf);
      Grown(m, root, c, elm);
      elm.parent, elm.left, elm.right, elm.color := parent, null, null, Red;
      assert Snap(nodes) == m;
      Attach(elm, parent, comp, c);
      Join(elm);
    }

    ghost method Join(elm: Node)
      modifies `nodes
      ensures nodes == old(nodes) + {elm}
      ensures Snap(nodes) == old(Snap(nodes))[elm := Cell(elm.left, elm.right, elm.parent, elm.color)]
    {
      nodes := nodes + {elm};
    }

    method Attach(elm: Node, parent: Node?, comp: int, ghost c: Ctx)
      requires Holder(c) == parent && (parent != null ==> parent in nodes) && (comp < 0 <==> c.InLeft?)
      modifies `root, nodes`left, nodes`right
      ensures Snap(nodes) == Hang(old(Snap(nodes)), c, elm)
      ensures root == if c.Top? then elm else old(root)
    {
      if parent != null {
        if comp < 0 {
          SetLeft(parent, elm);
        } else {
          SetRight(parent, elm);
        }
      } else {
        root := elm;
      }
    }

    /** A descent that ends at an empty place has shown the key to be absent. */
    lemma {:induction false} KeyAbsent(c: Ctx, key: int)
      requires Valid() && Plug(c, Leaf) == model && Routed(c, key)
      ensures forall n :: n in nodes ==> n.key != key
    {
      RoutedSplits(c, Leaf, key);
      InorderPlug(c, Leaf);
      assert FormsFacts(Snap(nodes), root, model);
      assert Snap(nodes).Keys == nodes;
      forall n | n in nodes ensures n.key != key {
        NodesAreInorder(model, n);
      }
    }

    /** Takes `elm`, which lacks a child, out of its place. */
    method Splice(elm: Node, child: Node?, parent: Node?, ghost c: Ctx, ghost t: RbShape.Tree)
      requires Is(Plug(c, t)) && LacksChild(t) && t.n == elm && child == Root(OnlyChild(t)) && parent == Holder(c)
      modifies `root, `nodes, nodes`parent, nodes`left, nodes`right
      ensures Is(Plug(c, OnlyChild(t))) && nodes == old(nodes) - {elm} && elm in old(nodes)
      ensures elm.parent == old(elm.parent)
    {
      Look(c, t);
      if child != null {
        LookDown(c, t);
      }
      Spliced(Snap(nodes), root, c, t, OnlyChild(t));
      if child != null {
        SetParent(child, parent);
      }
      SwapChild(parent, elm, child);
      Leave(elm);
    }

    ghost method Leave(elm: Node)
      modifies `nodes
      ensures nodes == old(nodes) - {elm}
      ensures Snap(nodes) == old(Snap(nodes)) - {elm}
    {
      nodes := nodes - {elm};
    }

    lemma {:induction false} LookDown(c: Ctx, t: RbShape.Tree)
      requires Is(Plug(c, t)) && t.Bin?
      ensures t.l.Bin? ==> t.l.n in nodes && t.l.n != t.n
      ensures t.r.Bin? ==> t.r.n in nodes && t.r.n != t.n
    {
      Look(InLeft(c, t.n, t.c, t.r), t.l);
      Look(InRight(t.l, t.n, t.c, c), t.r);
      ZoomIn(Snap(nodes), root, c, t);
    }

    /** `elm` takes over the links and the colour of `from`, and its place. */
    method Substitute(from: Node, elm: Node, ghost c: Ctx, ghost t: RbShape.Tree)
      requires Is(Plug(c, t)) && t.Bin? && t.n == from && elm !in nodes && t.l.Bin?
      modifies `root, `nodes, nodes, elm
      ensures Is(Plug(c, Bin(t.l, elm, t.c, t.r))) && nodes == old(nodes) - {from} + {elm}
    {
      Look(c, t);
      LookDown(c, t);
      TakenOver(Snap(nodes), root, c, t, elm);
      LookApart(c, t);
      Inherit(from, elm);
    }

    method Inherit(from: Node, elm: Node)
      requires from in nodes && elm !in nodes
      requires from.parent != null ==> from.parent in nodes - {from}
      requires from.left != null && from.left in nodes - {from}
      requires from.right != null ==> from.right in nodes - {from}
      modifies `root, `nodes, nodes, elm
      ensures nodes == old(nodes) - {from} + {elm}
      ensures Snap(nodes) == TakeOver(old(Snap(nodes)), from, elm)
      ensures root == if old(from.parent) == null then elm else old(root)
    {
      ghost var m := Snap(nodes);
      elm.left, elm.right, elm.parent, elm.color := from.left, from.right, from.parent, from.color;
      assert Snap(nodes) == m;
      SwapChild(from.parent, from, elm);
      assert Snap(nodes)[from] == m[from];
      GiveChildren(from, elm);
      Leave(from);
      Join(elm);
    }

    method GiveChildren(from: Node, elm: Node)
      requires from in nodes && from.left != null && from.left in nodes - {from}
      requires from.right != null ==> from.right in nodes - {from}
      modifies nodes`parent
      ensures Snap(nodes) == WithParent(WithParent(old(Snap(nodes)), old(from.left), elm), old(from.right), elm)
    {
      SetParent(from.left, elm);
      if from.right != null {
        SetParent(from.right, elm);
      }
    }

    lemma {:induction false} LookApart(c: Ctx, t: RbShape.Tree)
      requires Is(Plug(c, t)) && t.Bin?
      ensures Holder(c) != t.n
    {
      ZoomIn(Snap(nodes), root, c, t);
    }

    /** The place a removal leaves behind: one black node may be missing under `c`. */
    ghost predicate Vacated(color: Color, c: Ctx, t: RbShape.Tree) {
      && (color == Black ==> Short(c, t))
      && (color == Red ==> RedBlack(Plug(c, t)) && RootColor(Plug(c, t)) == Black)
    }

    /** The leftmost node to the right of the victim, and the path down to it. */
    method Successor(victim: Node, ghost c: Ctx, ghost t: RbShape.Tree)
        returns (elm: Node, ghost d: Ctx, ghost u: RbShape.Tree)
      requires Is(Plug(c, t)) && t.Bin? && t.n == victim && t.r.Bin?
      ensures AllLeft(d) && u.Bin? && u.n == elm && u.l.Leaf?
      ensures Plug(Extend(d, InRight(t.l, t.n, t.c, c)), u) == Plug(c, t)
    {
      Look(c, t);
      elm := victim.right;
      ghost var base := InRight(t.l, t.n, t.c, c);
      d, u := Top, t.r;
      Look(base, u);
      var left := elm.left;
      while left != null
        invariant AllLeft(d) && u.Bin? && u.n == elm && left == Root(u.l)
        invariant Plug(Extend(d, base), u) == Plug(c, t)
        decreases u
      {
        elm := left;
        d, u := InLeft(d, u.n, u.c, u.r), u.l;
        Look(Extend(d, base), u);
        left := elm.left;
      }
    }

    /** The victim has two children: its successor is taken out and put in its place. */
    method RemoveInner(victim: Node, ghost c: Ctx, ghost t: RbShape.Tree)
        returns (child: Node?, parent: Node?, color: Color, ghost e: Ctx, ghost s: RbShape.Tree)
      requires Is(Plug(c, t)) && Sorted(Inorder(Plug(c, t))) && RedBlack(Plug(c, t)) && RootColor(Plug(c, t)) == Black
      requires t.Bin? && t.n == victim && t.l.Bin? && t.r.Bin?
      modifies `root, `nodes, nodes
      ensures Is(Plug(e, s)) && child == Root(s) && parent == Holder(e) && Vacated(color, e, s)
      ensures nodes == old(nodes) - {victim}
      ensures Sorted(Inorder(Plug(e, s)))
    {
      var elm;
      ghost var d, u, base := Top, t, InRight(t.l, t.n, t.c, c);
      elm, d, u := Successor(victim, c, t);
      InnerColours(d, t, c, u);
      ghost var a, b := SuccessorOrder(d, t.l, victim, t.c, c, u);
      SortedRemove(a, victim, b);
      e, s := Extend(d, InRight(t.l, elm, t.c, c)), u.r;
      child, parent, color := ExchangeInner(victim, elm, c, t, d, u);
    }

    method ExchangeInner(victim: Node, elm: Node, ghost c: Ctx, ghost t: RbShape.Tree, ghost d: Ctx,
                         ghost u: RbShape.Tree)
        returns (child: Node?, parent: Node?, color: Color)
      requires t.Bin? && t.n == victim && t.l.Bin? && u.Bin? && u.n == elm && u.l.Leaf?
      requires Is(Plug(Extend(d, InRight(t.l, victim, t.c, c)), u))
      modifies `root, `nodes, nodes
      ensures Is(Plug(Extend(d, InRight(t.l, elm, t.c, c)), u.r)) && nodes == old(nodes) - {victim}
      ensures child == Root(u.r) && parent == Holder(Extend(d, InRight(t.l, elm, t.c, c))) && color == u.c
    {
      ghost var base := InRight(t.l, victim, t.c, c);
      Look(Extend(d, base), u);
      child, parent, color := elm.right, elm.parent, elm.color;
      assert FormsFacts(Snap(nodes), root, Plug(Extend(d, base), u));
      InnerApart(d, base, u);
      assert Snap(nodes).Keys == nodes;
      Splice(elm, child, parent, Extend(d, base), u);
      if elm.parent == victim {
        parent := elm;
      }
      PlugExtend(d, base, u.r);
      PlugExtend(d, InRight(t.l, elm, t.c, c), u.r);
      Substitute(victim, elm, c, Bin(t.l, victim, t.c, Plug(d, u.r)));
    }

    lemma {:induction false} InnerColours(d: Ctx, t: RbShape.Tree, c: Ctx, u: RbShape.Tree)
      requires t.Bin? && u.Bin? && u.l.Leaf?
      requires var p := Plug(Extend(d, InRight(t.l, t.n, t.c, c)), u); RedBlack(p) && RootColor(p) == Black
      ensures Vacated(u.c, Extend(d, InRight(t.l, u.n, t.c, c)), u.r)
    {
      UnplugRedBlack(Extend(d, InRight(t.l, t.n, t.c, c)), u);
      FitsWithAnother(d, t.l, t.n, u.n, t.c, c, BlackHeight(u));
      SpliceColours(Extend(d, InRight(t.l, u.n, t.c, c)), u);
    }

    /** The victim lacks a child. */
    method RemoveOuter(victim: Node, ghost c: Ctx, ghost t: RbShape.Tree)
        returns (child: Node?, parent: Node?, color: Color)
      requires Is(Plug(c, t)) && Sorted(Inorder(Plug(c, t))) && RedBlack(Plug(c, t)) && RootColor(Plug(c, t)) == Black
      requires t.Bin? && t.n == victim && LacksChild(t)
      modifies `root, `nodes, nodes
      ensures Is(Plug(c, OnlyChild(t))) && child == Root(OnlyChild(t)) && parent == Holder(c)
      ensures Vacated(color, c, OnlyChild(t)) && nodes == old(nodes) - {victim}
      ensures Sorted(Inorder(Plug(c, OnlyChild(t))))
    {
      ghost var a, b := SpliceOrder(c, t);
      SortedRemove(a, victim, b);
      Look(c, t);
      UnplugRedBlack(c, t);
      SpliceColours(c, t);
      if victim.left == null {
        child := victim.right;
      } else {
        child := victim.left;
      }
      parent, color := victim.parent, victim.color;
      Splice(victim, child, parent, c, t);
    }

    /** RB_REMOVE: takes a node of the tree out of it. */
    method Remove(victim: Node) returns (r: Node)
      requires Valid() && victim in nodes
      modifies this, nodes
      ensures Valid() && nodes == old(nodes) - {victim} && r == victim
    {
      assert FormsFacts(Snap(nodes), root, model);
      assert Snap(nodes).Keys == nodes;
      ghost var c, t := Locate(Top, model, victim);
      Look(c, t);
      var child, parent, color;
      ghost var e, s := c, t;
      if victim.left == null || victim.right == null {
        child, parent, color := RemoveOuter(victim, c, t);
        s := OnlyChild(t);
      } else {
        child, parent, color, e, s := RemoveInner(victim, c, t);
      }
      ghost var u := Plug(e, s);
      if color == Black {
        u := RemoveColor(parent, child, e, s);
      }
      Commit(u);
      return victim;
    }
  }

  /** The comparison function of the tree, as a sign. */
  function Compare(key: int, n: Node): int {
    if key < n.key then -1 else if key > n.key then 1 else 0
  }
}
