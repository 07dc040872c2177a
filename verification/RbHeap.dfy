/** The heap representation of red-black trees, and the primitive changes made to it:
  rotating about a node, replacing a child, and painting a node.

  A `Mem` is a snapshot of the links and colours of a set of nodes.  `At(m, root, c, t)` says
  that in the snapshot `m` the nodes form the tree `Plug(c, t)`, with attention on the subtree
  `t`; attention moves up and down without changing anything.
 */
module RbHeap {
  import opened Basics
  import opened RbShape
  import opened RbDelete

  datatype Cell = Cell(left: Node?, right: Node?, parent: Node?, color: Color)

  type Mem = map<Node, Cell>

  ghost function Snap(s: set<Node>): Mem
    reads s
  {
    map n | n in s :: Cell(n.left, n.right, n.parent, n.color)
  }

  ghost function CtxNodes(c: Ctx): set<Node> {
    match c
    case Top => {}
    case InLeft(up, n, _, r) => CtxNodes(up) + {n} + Nodes(r)
    case InRight(l, n, _, up) => Nodes(l) + {n} + CtxNodes(up)
  }

  ghost predicate Distinct(t: Tree) {
    match t
    case Leaf => true
    case Bin(l, n, _, r) =>
      Distinct(l) && Distinct(r) && n !in Nodes(l) && n !in Nodes(r) && Nodes(l) !! Nodes(r)
  }

  ghost predicate DistinctCtx(c: Ctx) {
    match c
    case Top => true
    case InLeft(up, n, _, r) =>
      DistinctCtx(up) && Distinct(r) && n !in CtxNodes(up) && n !in Nodes(r) && CtxNodes(up) !! Nodes(r)
    case InRight(l, n, _, up) =>
      DistinctCtx(up) && Distinct(l) && n !in CtxNodes(up) && n !in Nodes(l) && CtxNodes(up) !! Nodes(l)
  }

  /** The nodes of `t` are linked and coloured as `t` says, and its root points up to `p`. */
  ghost predicate Linked(m: Mem, t: Tree, p: Node?) {
    match t
    case Leaf => true
    case Bin(l, n, c, r) =>
      n in m && m[n] == Cell(Root(l), Root(r), p, c) && Linked(m, l, n) && Linked(m, r, n)
  }

  ghost predicate LinkedCtx(m: Mem, c: Ctx, hole: Node?) {
    match c
    case Top => true
    case InLeft(up, n, k, r) =>
      && n in m && m[n] == Cell(hole, Root(r), Holder(up), k)
      && Linked(m, r, n) && LinkedCtx(m, up, n)
    case InRight(l, n, k, up) =>
      && n in m && m[n] == Cell(Root(l), hole, Holder(up), k)
      && Linked(m, l, n) && LinkedCtx(m, up, n)
  }

  ghost function TopRoot(c: Ctx, hole: Node?): Node? {
    if c.Top? then hole else TopRoot(c.up, c.n)
  }

  ghost predicate At(m: Mem, root: Node?, c: Ctx, t: Tree) {
    && Distinct(t) && DistinctCtx(c) && Nodes(t) !! CtxNodes(c)
    && Linked(m, t, Holder(c)) && LinkedCtx(m, c, Root(t))
    && root == TopRoot(c, Root(t))
    && m.Keys == Nodes(t) + CtxNodes(c)
  }

  lemma {:induction false} PlugNodes(c: Ctx, t: Tree)
    ensures Nodes(Plug(c, t)) == Nodes(t) + CtxNodes(c)
    decreases c
  {
    if !c.Top? {
      PlugNodes(c.up, Wrap(c, t));
    }
  }

  /** Below a node on a path, that node does not occur again. */
  lemma {:induction false} InnerApart(d: Ctx, base: Ctx, u: Tree)
    requires Distinct(Plug(Extend(d, base), u)) && base.InRight? && u.Bin?
    ensures u.n != base.n && {u.n, base.n} <= Nodes(Plug(Extend(d, base), u))
    ensures Holder(Extend(d, base)) == base.n <==> d.Top?
  {
    PlugExtend(d, base, u);
    var t := Bin(base.l, base.n, base.c, Plug(d, u));
    PlugNodes(base.up, t);
    PlugNodes(d, u);
    DistinctPart(base.up, t);
    assert Distinct(t) && base.n !in Nodes(Plug(d, u));
    assert u.n in Nodes(u) && base.n in Nodes(t);
    HolderOfPath(d, base);
  }

  lemma {:induction false} HolderOfPath(d: Ctx, base: Ctx)
    requires !base.Top?
    ensures Holder(Extend(d, base)) == if d.Top? then base.n else d.n
    ensures !d.Top? ==> d.n in CtxNodes(d)
  {
  }

  lemma {:induction false} DistinctPart(c: Ctx, t: Tree)
    requires Distinct(Plug(c, t))
    ensures Distinct(t)
    decreases c
  {
    if !c.Top? {
      DistinctPart(c.up, Wrap(c, t));
    }
  }

  // ----- Untouched parts stay linked

  ghost predicate SameOn(s: set<Node>, m: Mem, w: Mem) {
    forall n :: n in s && n in m ==> n in w && w[n] == m[n]
  }

  lemma {:induction false} LinkedFrame(m: Mem, w: Mem, t: Tree, p: Node?)
    requires Linked(m, t, p) && SameOn(Nodes(t), m, w)
    ensures Linked(w, t, p)
  {
    match t
    case Leaf =>
    case Bin(l, n, _, r) =>
      LinkedFrame(m, w, l, n);
      LinkedFrame(m, w, r, n);
  }

  lemma {:induction false} LinkedCtxFrame(m: Mem, w: Mem, c: Ctx, hole: Node?)
    requires LinkedCtx(m, c, hole) && SameOn(CtxNodes(c), m, w)
    ensures LinkedCtx(w, c, hole)
  {
    match c
    case Top =>
    case InLeft(up, n, _, r) =>
      LinkedFrame(m, w, r, n);
      LinkedCtxFrame(m, w, up, n);
    case InRight(l, n, _, up) =>
      LinkedFrame(m, w, l, n);
      LinkedCtxFrame(m, w, up, n);
  }

  /** Pointing a subtree's root up to a new parent. */
  lemma {:induction false} Adopted(m: Mem, w: Mem, t: Tree, p: Node?, q: Node?)
    requires Linked(m, t, p) && Distinct(t)
    requires t.Bin? ==> t.n in w && w[t.n] == m[t.n].(parent := q) && SameOn(Nodes(t) - {t.n}, m, w)
    ensures Linked(w, t, q)
  {
    if t.Bin? {
      LinkedFrame(m, w, t.l, t.n);
      LinkedFrame(m, w, t.r, t.n);
    }
  }

  /** Hanging another node into the hole of a surrounding. */
  lemma {:induction false} Rehung(m: Mem, w: Mem, c: Ctx, x: Node?, y: Node?)
    requires LinkedCtx(m, c, x) && DistinctCtx(c)
    requires !c.Top? ==> c.n in w && SameOn(CtxNodes(c) - {c.n}, m, w)
    requires c.InLeft? ==> w[c.n] == m[c.n].(left := y)
    requires c.InRight? ==> w[c.n] == m[c.n].(right := y)
    ensures LinkedCtx(w, c, y)
  {
    match c
    case Top =>
    case InLeft(up, n, _, r) =>
      LinkedFrame(m, w, r, n);
      LinkedCtxFrame(m, w, up, n);
    case InRight(l, n, _, up) =>
      LinkedFrame(m, w, l, n);
      LinkedCtxFrame(m, w, up, n);
  }

  lemma {:induction false} TopRootInCtx(c: Ctx, hole: Node?)
    requires !c.Top?
    ensures TopRoot(c, hole) != null && TopRoot(c, hole) in CtxNodes(c)
    decreases c
  {
    if !c.up.Top? {
      TopRootInCtx(c.up, c.n);
    }
  }

  // ----- Moving attention

  lemma {:induction false} DownLeft(m: Mem, root: Node?, c: Ctx, t: Tree)
    requires At(m, root, c, t) && t.Bin?
    ensures At(m, root, InLeft(c, t.n, t.c, t.r), t.l)
  {
  }

  lemma {:induction false} DownRight(m: Mem, root: Node?, c: Ctx, t: Tree)
    requires At(m, root, c, t) && t.Bin?
    ensures At(m, root, InRight(t.l, t.n, t.c, c), t.r)
  {
  }

  lemma {:induction false} Up(m: Mem, root: Node?, c: Ctx, t: Tree)
    requires At(m, root, c, t) && !c.Top?
    ensures At(m, root, c.up, Wrap(c, t))
  {
  }

  /** In the snapshot `m` the nodes form the whole tree `u`. */
  ghost predicate FormsFacts(m: Mem, root: Node?, u: Tree) {
    Distinct(u) && Linked(m, u, null) && root == Root(u) && m.Keys == Nodes(u)
  }

  /** The nodes of the snapshot form the tree `u`; the facts are drawn only where `FormsFacts` is named. */
  ghost predicate Forms(m: Mem, root: Node?, u: Tree) {
    forall t {:trigger FormsFacts(m, root, t)} :: t == u ==> FormsFacts(m, root, t)
  }

  /** Distinct nodes are counted by the in-order sequence. */
  lemma {:induction false} NodesCounted(t: Tree)
    requires Distinct(t)
    ensures |Nodes(t)| == |Inorder(t)|
  {
    if t.Bin? {
      NodesCounted(t.l);
      NodesCounted(t.r);
      UnionSize(Nodes(t.l), {t.n});
      UnionSize(Nodes(t.l) + {t.n}, Nodes(t.r));
    }
  }

  lemma {:induction false} ZoomOut(m: Mem, root: Node?, c: Ctx, t: Tree)
    requires At(m, root, c, t)
    ensures Forms(m, root, Plug(c, t))
    decreases c
  {
    if !c.Top? {
      Up(m, root, c, t);
      ZoomOut(m, root, c.up, Wrap(c, t));
    }
  }

  lemma {:induction false} ZoomIn(m: Mem, root: Node?, c: Ctx, t: Tree)
    requires Forms(m, root, Plug(c, t))
    ensures At(m, root, c, t)
    decreases c
  {
    assert FormsFacts(m, root, Plug(c, t));
    if !c.Top? {
      ZoomIn(m, root, c.up, Wrap(c, t));
      if c.InLeft? {
        DownLeft(m, root, c.up, Wrap(c, t));
      } else {
        DownRight(m, root, c.up, Wrap(c, t));
      }
    }
  }

  // ----- Painting

  lemma {:induction false} PaintedHere(m: Mem, root: Node?, c: Ctx, t: Tree, k: Color)
    requires At(m, root, c, t) && t.Bin?
    ensures At(m[t.n := m[t.n].(color := k)], root, c, Dyed(t, k))
  {
    var w := m[t.n := m[t.n].(color := k)];
    LinkedFrame(m, w, t.l, t.n);
    LinkedFrame(m, w, t.r, t.n);
    LinkedCtxFrame(m, w, c, t.n);
  }

  // ----- A new node in an empty place

  ghost function Hang(m: Mem, c: Ctx, elm: Node?): Mem {
    if c.Top? || c.n !in m then m
    else if c.InLeft? then m[c.n := m[c.n].(left := elm)]
    else m[c.n := m[c.n].(right := elm)]
  }

  lemma {:induction false} Grown(m: Mem, root: Node?, c: Ctx, elm: Node)
    requires Forms(m, root, Plug(c, Leaf)) && elm !in m
    ensures Forms(Hang(m, c, elm)[elm := Cell(null, null, Holder(c), Red)],
                  if c.Top? then elm else root, Plug(c, Bin(Leaf, elm, Red, Leaf)))
  {
    assert FormsFacts(m, root, Plug(c, Leaf));
    var w, s := Hang(m, c, elm)[elm := Cell(null, null, Holder(c), Red)], Bin(Leaf, elm, Red, Leaf);
    ZoomIn(m, root, c, Leaf);
    Rehung(m, w, c, null, elm);
    ZoomOut(w, if c.Top? then elm else root, c, s);
  }

  // ----- Rotations

  /** The link to `child`, from its parent or from the head, now leads to `elm`. */
  ghost function Replace(m: Mem, parent: Node?, child: Node, elm: Node?): Mem {
    if parent == null || parent !in m then m
    else if m[parent].left == child then m[parent := m[parent].(left := elm)]
    else m[parent := m[parent].(right := elm)]
  }

  lemma {:induction false} Replaced(m: Mem, root: Node?, c: Ctx, child: Node, elm: Node?)
    requires LinkedCtx(m, c, child) && DistinctCtx(c) && child !in CtxNodes(c) && CtxNodes(c) <= m.Keys
    ensures LinkedCtx(Replace(m, Holder(c), child, elm), c, elm)
    ensures SameOn(m.Keys - CtxNodes(c), m, Replace(m, Holder(c), child, elm))
  {
    Rehung(m, Replace(m, Holder(c), child, elm), c, child, elm);
  }

  // ----- Taking a node out

  ghost function WithParent(m: Mem, child: Node?, parent: Node?): Mem {
    if child != null && child in m then m[child := m[child].(parent := parent)] else m
  }

  /** The snapshot once `child` has taken the place of `elm` under `parent`. */
  ghost function Bypass(m: Mem, elm: Node, child: Node?, parent: Node?): Mem {
    Replace(WithParent(m, child, parent), parent, elm, child) - {elm}
  }

  lemma {:induction false} SplicedAbove(m: Mem, root: Node?, c: Ctx, t: Tree, s: Tree)
    requires At(m, root, c, t) && t.Bin? && (s == t.r || s == t.l)
    ensures LinkedCtx(Bypass(m, t.n, Root(s), Holder(c)), c, Root(s))
  {
    var m1 := WithParent(m, Root(s), Holder(c));
    assert s.Bin? ==> s.n in Nodes(s);
    LinkedCtxFrame(m, m1, c, t.n);
    Replaced(m1, root, c, t.n, Root(s));
    LinkedCtxFrame(Replace(m1, Holder(c), t.n, Root(s)), Bypass(m, t.n, Root(s), Holder(c)), c, Root(s));
  }

  lemma {:induction false} SplicedBelow(m: Mem, root: Node?, c: Ctx, t: Tree, s: Tree)
    requires At(m, root, c, t) && t.Bin? && (s == t.r || s == t.l)
    ensures Linked(Bypass(m, t.n, Root(s), Holder(c)), s, Holder(c))
    ensures Bypass(m, t.n, Root(s), Holder(c)).Keys == m.Keys - {t.n}
  {
    assert s.Bin? ==> s.n in Nodes(s);
    assert !c.Top? ==> c.n in CtxNodes(c);
    Adopted(m, Bypass(m, t.n, Root(s), Holder(c)), s, t.n, Holder(c));
  }

  lemma {:induction false} SplicedNodes(c: Ctx, t: Tree, s: Tree)
    requires t.Bin? && Distinct(t) && Nodes(t) !! CtxNodes(c)
    requires (t.l.Leaf? && s == t.r) || (t.r.Leaf? && s == t.l)
    ensures Nodes(t) + CtxNodes(c) - {t.n} == Nodes(s) + CtxNodes(c)
  {
    assert Nodes(t) == Nodes(s) + {t.n};
  }

  lemma {:induction false} Spliced(m: Mem, root: Node?, c: Ctx, t: Tree, s: Tree)
    requires Forms(m, root, Plug(c, t)) && t.Bin?
    requires (t.l.Leaf? && s == t.r) || (t.r.Leaf? && s == t.l)
    ensures Forms(Bypass(m, t.n, Root(s), Holder(c)), if c.Top? then Root(s) else root, Plug(c, s))
  {
    assert FormsFacts(m, root, Plug(c, t));
    ZoomIn(m, root, c, t);
    SplicedAbove(m, root, c, t, s);
    SplicedBelow(m, root, c, t, s);
    SplicedNodes(c, t, s);
    Rejoined(Bypass(m, t.n, Root(s), Holder(c)), m, root, c, t, s);
  }

  lemma {:induction false} Rejoined(w: Mem, m: Mem, root: Node?, c: Ctx, t: Tree, s: Tree)
    requires At(m, root, c, t) && t.Bin? && (s == t.l || s == t.r)
    requires Linked(w, s, Holder(c)) && LinkedCtx(w, c, Root(s)) && w.Keys == Nodes(s) + CtxNodes(c)
    ensures Forms(w, if c.Top? then Root(s) else root, Plug(c, s))
  {
    ZoomOut(w, if c.Top? then Root(s) else root, c, s);
  }

  /** The snapshot once `elm` has taken over all links and the colour of `old`. */
  ghost function TakeOver(m: Mem, from: Node, elm: Node): Mem
    requires from in m
  {
    var m1 := Replace(m, m[from].parent, from, elm);
    var m2 := WithParent(WithParent(m1, m[from].left, elm), m[from].right, elm);
    (m2 - {from})[elm := m[from]]
  }

  lemma {:induction false} TakenOverAbove(m: Mem, root: Node?, c: Ctx, t: Tree, elm: Node)
    requires At(m, root, c, t) && t.Bin? && elm !in m
    ensures LinkedCtx(TakeOver(m, t.n, elm), c, elm)
  {
    assert t.l.Bin? ==> t.l.n in Nodes(t.l);
    assert t.r.Bin? ==> t.r.n in Nodes(t.r);
    Replaced(m, root, c, t.n, elm);
    LinkedCtxFrame(Replace(m, Holder(c), t.n, elm), TakeOver(m, t.n, elm), c, elm);
  }

  lemma {:induction false} TakenOverBelow(m: Mem, root: Node?, c: Ctx, t: Tree, elm: Node)
    requires At(m, root, c, t) && t.Bin? && elm !in m
    ensures Linked(TakeOver(m, t.n, elm), Bin(t.l, elm, t.c, t.r), Holder(c))
    ensures TakeOver(m, t.n, elm).Keys == m.Keys - {t.n} + {elm}
  {
    var w := TakeOver(m, t.n, elm);
    assert t.l.Bin? ==> t.l.n in Nodes(t.l);
    assert t.r.Bin? ==> t.r.n in Nodes(t.r);
    assert !c.Top? ==> c.n in CtxNodes(c);
    Adopted(m, w, t.l, t.n, elm);
    Adopted(m, w, t.r, t.n, elm);
  }

  lemma {:induction false} TakenOver(m: Mem, root: Node?, c: Ctx, t: Tree, elm: Node)
    requires Forms(m, root, Plug(c, t)) && t.Bin? && elm !in m
    ensures t.n in m && m[t.n] == Cell(Root(t.l), Root(t.r), Holder(c), t.c)
    ensures Forms(TakeOver(m, t.n, elm), if c.Top? then elm else root, Plug(c, Bin(t.l, elm, t.c, t.r)))
  {
    assert FormsFacts(m, root, Plug(c, t));
    ZoomIn(m, root, c, t);
    TakenOverAbove(m, root, c, t, elm);
    TakenOverBelow(m, root, c, t, elm);
    ZoomOut(TakeOver(m, t.n, elm), if c.Top? then elm else root, c, Bin(t.l, elm, t.c, t.r));
  }

  /** The parts that a left rotation moves share no node. */
  lemma {:induction false} RotateLeftApart(t: Tree)
    requires t.Bin? && t.r.Bin? && Distinct(t)
    ensures Distinct(RotatedLeft(t)) && Nodes(RotatedLeft(t)) == Nodes(t) && Distinct(t.r.l)
    ensures var a, b, d := Nodes(t.l), Nodes(t.r.l), Nodes(t.r.r);
            a !! b && b !! d && a !! d && (a + b + d) !! {t.n, t.r.n} && t.n != t.r.n
  {
    assert Distinct(t.r) && Nodes(t.r) == Nodes(t.r.l) + {t.r.n} + Nodes(t.r.r);
    var u := RotatedLeft(t);
    assert Nodes(u.l) == Nodes(u.l.l) + {t.n} + Nodes(u.l.r) && Distinct(u.l);
  }

  /** The snapshot after the link changes of a left rotation about `elm`, one assignment at a time. */
  ghost function TurnLeftBelow(m: Mem, elm: Node): Mem
    requires elm in m && m[elm].right != null && m[elm].right in m
  {
    var tmp := m[elm].right;
    var b := m[tmp].left;
    var m1 := m[elm := m[elm].(right := b)];
    var m2 := if b != null && b in m1 then m1[b := m1[b].(parent := elm)] else m1;
    m2[tmp := m2[tmp].(parent := m2[elm].parent)]
  }

  ghost function TurnLeft(m: Mem, elm: Node): Mem
    requires elm in m && m[elm].right != null && m[elm].right in m
  {
    var tmp := m[elm].right;
    var m3 := TurnLeftBelow(m, elm);
    var m4 := Replace(m3, m3[elm].parent, elm, tmp);
    var m5 := m4[tmp := m4[tmp].(left := elm)];
    m5[elm := m5[elm].(parent := tmp)]
  }

  lemma {:induction false} TurnLeftAbove(m: Mem, root: Node?, c: Ctx, t: Tree)
    requires At(m, root, c, t) && t.Bin? && t.r.Bin?
    ensures LinkedCtx(TurnLeft(m, t.n), c, t.r.n)
  {
    var elm, tmp, b := t.n, t.r.n, t.r.l;
    RotateLeftApart(t);
    assert Linked(m, t.r, elm) && tmp in Nodes(t);
    assert b.Bin? ==> b.n in Nodes(b) && Nodes(b) <= Nodes(t.r) && Nodes(t.r) <= Nodes(t);
    var m3 := TurnLeftBelow(m, elm);
    LinkedCtxFrame(m, m3, c, elm);
    Replaced(m3, root, c, elm, tmp);
    LinkedCtxFrame(Replace(m3, Holder(c), elm, tmp), TurnLeft(m, elm), c, tmp);
  }

  /** The nodes a rotation touches are nodes of the tree, and they are different. */
  lemma {:induction false} RotateLeftClosed(m: Mem, root: Node?, c: Ctx, t: Tree)
    requires At(m, root, c, t) && t.Bin? && t.r.Bin?
    ensures t.n in m && m[t.n].right == t.r.n && t.r.n in m && t.r.n != t.n
    ensures var b := m[t.r.n].left; b != null ==> b in m && b != t.n && b != t.r.n
    ensures var p := m[t.n].parent;
            (p == null <==> c.Top?) && (p != null ==> p in m && p != t.n && p != t.r.n && p != m[t.r.n].left)
  {
    RotateLeftApart(t);
    var b := t.r.l;
    assert Linked(m, t.r, t.n) && t.r.n in Nodes(t);
    assert b.Bin? ==> b.n in Nodes(b) && Nodes(b) <= Nodes(t.r) && Nodes(t.r) <= Nodes(t);
  }

  /** What the changes amount to. */
  lemma {:induction false} TurnLeftCells(m: Mem, elm: Node, tmp: Node, b: Node?, p: Node?)
    requires elm in m && tmp in m && tmp != elm && m[elm].right == tmp && m[tmp].left == b && m[elm].parent == p
    requires b != null ==> b in m && b != elm && b != tmp
    requires p != null ==> p in m && p != elm && p != tmp && p != b
    ensures var w := TurnLeft(m, elm);
            && w.Keys == m.Keys
            && w[elm] == m[elm].(right := b, parent := tmp)
            && w[tmp] == m[tmp].(left := elm, parent := p)
            && (b != null ==> w[b] == m[b].(parent := elm))
            && (forall n :: n in m && n != elm && n != tmp && n != b && n != p ==> w[n] == m[n])
  {
  }

  /** What was not among the four nodes rewritten is as before. */
  lemma {:induction false} SameElsewhere(m: Mem, w: Mem, s: set<Node>, x: Node, y: Node, b: Node?, p: Node?)
    requires w.Keys == m.Keys && forall n :: n in m && n != x && n != y && n != b && n != p ==> w[n] == m[n]
    requires x !in s && y !in s && (b == null || b !in s) && (p == null || p !in s)
    ensures SameOn(s, m, w)
  {
  }

  lemma {:induction false} TurnLeftWithin(m: Mem, root: Node?, c: Ctx, t: Tree)
    requires At(m, root, c, t) && t.Bin? && t.r.Bin?
    ensures Linked(TurnLeft(m, t.n), RotatedLeft(t), Holder(c))
  {
    var elm, tmp, a, b, d := t.n, t.r.n, t.l, t.r.l, t.r.r;
    assert Linked(m, t.r, elm) && Linked(m, b, tmp) && Linked(m, d, tmp);
    RotateLeftApart(t);
    RotateLeftClosed(m, root, c, t);
    TurnLeftCells(m, elm, tmp, Root(b), Holder(c));
    var w := TurnLeft(m, elm);
    assert Nodes(t.r) == Nodes(t.r.l) + {tmp} + Nodes(t.r.r);
    assert b.Bin? ==> b.n in Nodes(b);
    assert !c.Top? ==> c.n in CtxNodes(c);
    SameElsewhere(m, w, Nodes(a), elm, tmp, Root(b), Holder(c));
    LinkedFrame(m, w, a, elm);
    SameElsewhere(m, w, Nodes(d), elm, tmp, Root(b), Holder(c));
    LinkedFrame(m, w, d, tmp);
    SameElsewhere(m, w, if b.Bin? then Nodes(b) - {b.n} else {}, elm, tmp, Root(b), Holder(c));
    Adopted(m, w, b, tmp, elm);
    assert Linked(w, RotatedLeft(t).l, tmp);
  }

  lemma {:induction false} TurnLeftRotates(m: Mem, root: Node?, c: Ctx, t: Tree)
    requires At(m, root, c, t) && t.Bin? && t.r.Bin?
    ensures At(TurnLeft(m, t.n), if c.Top? then t.r.n else root, c, RotatedLeft(t))
  {
    TurnLeftAbove(m, root, c, t);
    TurnLeftWithin(m, root, c, t);
    RotateLeftClosed(m, root, c, t);
    TurnLeftCells(m, t.n, t.r.n, m[t.r.n].left, m[t.n].parent);
    RotateLeftApart(t);
  }

  /** The parts that a right rotation moves share no node. */
  lemma {:induction false} RotateRightApart(t: Tree)
    requires t.Bin? && t.l.Bin? && Distinct(t)
    ensures Distinct(RotatedRight(t)) && Nodes(RotatedRight(t)) == Nodes(t) && Distinct(t.l.r)
    ensures var a, b, d := Nodes(t.r), Nodes(t.l.r), Nodes(t.l.l);
            a !! b && b !! d && a !! d && (a + b + d) !! {t.n, t.l.n} && t.n != t.l.n
  {
    assert Distinct(t.l) && Nodes(t.l) == Nodes(t.l.l) + {t.l.n} + Nodes(t.l.r);
    var u := RotatedRight(t);
    assert Nodes(u.r) == Nodes(u.r.l) + {t.n} + Nodes(u.r.r) && Distinct(u.r);
  }

  /** The snapshot after the link changes of a right rotation about `elm`, one assignment at a time. */
  ghost function TurnRightBelow(m: Mem, elm: Node): Mem
    requires elm in m && m[elm].left != null && m[elm].left in m
  {
    var tmp := m[elm].left;
    var b := m[tmp].right;
    var m1 := m[elm := m[elm].(left := b)];
    var m2 := if b != null && b in m1 then m1[b := m1[b].(parent := elm)] else m1;
    m2[tmp := m2[tmp].(parent := m2[elm].parent)]
  }

  ghost function TurnRight(m: Mem, elm: Node): Mem
    requires elm in m && m[elm].left != null && m[elm].left in m
  {
    var tmp := m[elm].left;
    var m3 := TurnRightBelow(m, elm);
    var m4 := Replace(m3, m3[elm].parent, elm, tmp);
    var m5 := m4[tmp := m4[tmp].(right := elm)];
    m5[elm := m5[elm].(parent := tmp)]
  }

  lemma {:induction false} TurnRightAbove(m: Mem, root: Node?, c: Ctx, t: Tree)
    requires At(m, root, c, t) && t.Bin? && t.l.Bin?
    ensures LinkedCtx(TurnRight(m, t.n), c, t.l.n)
  {
    var elm, tmp, b := t.n, t.l.n, t.l.r;
    RotateRightApart(t);
    assert Linked(m, t.l, elm) && tmp in Nodes(t);
    assert b.Bin? ==> b.n in Nodes(b) && Nodes(b) <= Nodes(t.l) && Nodes(t.l) <= Nodes(t);
    var m3 := TurnRightBelow(m, elm);
    LinkedCtxFrame(m, m3, c, elm);
    Replaced(m3, root, c, elm, tmp);
    LinkedCtxFrame(Replace(m3, Holder(c), elm, tmp), TurnRight(m, elm), c, tmp);
  }

  /** The nodes a rotation touches are nodes of the tree, and they are different. */
  lemma {:induction false} RotateRightClosed(m: Mem, root: Node?, c: Ctx, t: Tree)
    requires At(m, root, c, t) && t.Bin? && t.l.Bin?
    ensures t.n in m && m[t.n].left == t.l.n && t.l.n in m && t.l.n != t.n
    ensures var b := m[t.l.n].right; b != null ==> b in m && b != t.n && b != t.l.n
    ensures var p := m[t.n].parent;
            (p == null <==> c.Top?) && (p != null ==> p in m && p != t.n && p != t.l.n && p != m[t.l.n].right)
  {
    RotateRightApart(t);
    var b := t.l.r;
    assert Linked(m, t.l, t.n) && t.l.n in Nodes(t);
    assert b.Bin? ==> b.n in Nodes(b) && Nodes(b) <= Nodes(t.l) && Nodes(t.l) <= Nodes(t);
  }

  /** What the changes amount to. */
  lemma {:induction false} TurnRightCells(m: Mem, elm: Node, tmp: Node, b: Node?, p: Node?)
    requires elm in m && tmp in m && tmp != elm && m[elm].left == tmp && m[tmp].right == b && m[elm].parent == p
    requires b != null ==> b in m && b != elm && b != tmp
    requires p != null ==> p in m && p != elm && p != tmp && p != b
    ensures var w := TurnRight(m, elm);
            && w.Keys == m.Keys
            && w[elm] == m[elm].(left := b, parent := tmp)
            && w[tmp] == m[tmp].(right := elm, parent := p)
            && (b != null ==> w[b] == m[b].(parent := elm))
            && (forall n :: n in m && n != elm && n != tmp && n != b && n != p ==> w[n] == m[n])
  {
  }

  lemma {:induction false} TurnRightWithin(m: Mem, root: Node?, c: Ctx, t: Tree)
    requires At(m, root, c, t) && t.Bin? && t.l.Bin?
    ensures Linked(TurnRight(m, t.n), RotatedRight(t), Holder(c))
  {
    var elm, tmp, a, b, d := t.n, t.l.n, t.r, t.l.r, t.l.l;
    assert Linked(m, t.l, elm) && Linked(m, b, tmp) && Linked(m, d, tmp);
    RotateRightApart(t);
    RotateRightClosed(m, root, c, t);
    TurnRightCells(m, elm, tmp, Root(b), Holder(c));
    var w := TurnRight(m, elm);
    assert Nodes(t.l) == Nodes(t.l.l) + {tmp} + Nodes(t.l.r);
    assert b.Bin? ==> b.n in Nodes(b);
    assert !c.Top? ==> c.n in CtxNodes(c);
    SameElsewhere(m, w, Nodes(a), elm, tmp, Root(b), Holder(c));
    LinkedFrame(m, w, a, elm);
    SameElsewhere(m, w, Nodes(d), elm, tmp, Root(b), Holder(c));
    LinkedFrame(m, w, d, tmp);
    SameElsewhere(m, w, if b.Bin? then Nodes(b) - {b.n} else {}, elm, tmp, Root(b), Holder(c));
    Adopted(m, w, b, tmp, elm);
    assert Linked(w, RotatedRight(t).r, tmp);
  }

  lemma {:induction false} TurnRightRotates(m: Mem, root: Node?, c: Ctx, t: Tree)
    requires At(m, root, c, t) && t.Bin? && t.l.Bin?
    ensures At(TurnRight(m, t.n), if c.Top? then t.l.n else root, c, RotatedRight(t))
  {
    TurnRightAbove(m, root, c, t);
    TurnRightWithin(m, root, c, t);
    RotateRightClosed(m, root, c, t);
    TurnRightCells(m, t.n, t.l.n, m[t.l.n].right, m[t.n].parent);
    RotateRightApart(t);
  }
}
