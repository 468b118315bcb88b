/** __rb_erase_color and rb_erase of src/rbtree.c. */
module RbErase {
  import opened RbShape
  import opened Sequences
  import opened RbRotate

  // ------------------------------------------------------------ the fix-up

  /** The focus is one black node short; a red focus will be painted black. */
  ghost predicate Short<T>(t: Tree<T>, h: nat) {
    if IsRed(t) then Balanced(SetRed(t, false), h + 1) else Balanced(t, h)
  }

  /** The state of the erase fix-up: everything is in order except that paths
      through the focus are one black node short. */
  ghost predicate Erasing<T>(m: Store<T>, top: Node?<T>, c: Ctx<T>, t: Tree<T>, h: nat, order: seq<Node<T>>) {
    Shape(m, top, c, t) && m.Keys == CtxNodes(c) + Nodes(t) &&
    Before(c) + InOrder(t) + After(c) == order &&
    Short(t, h) && CtxBalanced(c, h + 1)
  }

  /** The fix-up is complete. */
  ghost predicate Mended<T>(m: Store<T>, top: Node?<T>, t: Tree<T>, order: seq<Node<T>>) {
    Shape(m, top, Top, t) && m.Keys == Nodes(t) && InOrder(t) == order && RedBlack(t)
  }

  ghost function Sibling<T>(c: Ctx<T>): Tree<T>
    requires !c.Top?
  {
    if c.InLeft? then c.right else c.left
  }

  /** `c` with another sibling at its hole. */
  ghost function WithSibling<T>(c: Ctx<T>, w: Tree<T>): Ctx<T>
    requires !c.Top?
  {
    if c.InLeft? then c.(right := w) else c.(left := w)
  }

  /** Move the focus across to the sibling. */
  ghost function Across<T>(c: Ctx<T>, t: Tree<T>): Ctx<T>
    requires !c.Top?
  {
    if c.InLeft? then InRight(c.up, t, c.node, c.red) else InLeft(c.up, c.node, c.red, t)
  }

  lemma {:induction false} AcrossShape<T>(m: Store<T>, top: Node?<T>, c: Ctx<T>, t: Tree<T>)
    requires !c.Top?
    ensures Shape(m, top, c, t) == Shape(m, top, Across(c, t), Sibling(c))
    ensures CtxNodes(c) + Nodes(t) == CtxNodes(Across(c, t)) + Nodes(Sibling(c))
    ensures Before(c) + InOrder(t) + After(c) == Before(Across(c, t)) + InOrder(Sibling(c)) + After(Across(c, t))
  {
    Climb(m, top, c, t);
    Climb(m, top, Across(c, t), Sibling(c));
  }

  lemma {:induction false} MirrorErasing<T>(m: Store<T>, top: Node?<T>, c: Ctx<T>, t: Tree<T>, h: nat,
                              order: seq<Node<T>>)
    requires Erasing(m, top, c, t, h, order)
    ensures Erasing(MirrorLinks(m), top, MirrorCtx(c), Mirror(t), h, Reverse(order))
  {
    hide Shape, Nodes, CtxNodes, InOrder, Before, After, Balanced, CtxBalanced, Linked, CtxLinked;
    MirrorShape(m, top, c, t);
    MirrorTree(m, t, null);
    MirrorContext(c);
    MirrorBalanced(t, h);
    MirrorBalanced(SetRed(t, false), h + 1);
    MirrorCtxBalanced(c, h + 1);
    MirrorOrder(c, t);
  }

  lemma {:induction false} UnmirrorErasing<T>(m: Store<T>, top: Node?<T>, c: Ctx<T>, t: Tree<T>, h: nat,
                              order: seq<Node<T>>)
    requires Erasing(MirrorLinks(m), top, MirrorCtx(c), Mirror(t), h, Reverse(order))
    ensures Erasing(m, top, c, t, h, order)
  {
    MirrorErasing(MirrorLinks(m), top, MirrorCtx(c), Mirror(t), h, Reverse(order));
    MirrorTree(m, t, null);
    MirrorContext(c);
    ReverseConcat(order, []);
  }

  /** A red sibling: after recolouring and one rotation it is black. */
  lemma {:induction false} RedSiblingBalanced<T>(c: Ctx<T>, t: Tree<T>, h: nat)
    requires c.InLeft? && CtxBalanced(c, h + 1) && IsRed(c.right)
    ensures !c.red && !IsRed(c.right.left)
    ensures CtxBalanced(InLeft(InLeft(c.up, c.right.node, false, c.right.right), c.node, true, c.right.left), h + 1)
  {
    assert Balanced(c.right, h + 1);
    assert CtxBalanced(InLeft(c.up, c.right.node, false, c.right.right), h + 1);
  }

  lemma {:induction false} RedSiblingLeftPaint<T>(m: Store<T>, m1: Store<T>, top: Node?<T>, c: Ctx<T>, t: Tree<T>,
                              h: nat, order: seq<Node<T>>)
    requires Erasing(m, top, c, t, h, order) && !IsRed(t) && c.InLeft? && IsRed(c.right)
    requires Painted(m, m1, Fill(c, t), false, true, false)
    ensures Shape(m1, top, c.up, Paint(Fill(c, t), false, true, false))
    ensures c.node in m1 && c.right.node in m1 && CanRotate(m1, c.node, c.right.node, m1[c.right.node].left)
    ensures m1[c.node].right == c.right.node
  {
    Climb(m, top, c, t);
    PaintShape(m, m1, top, c.up, Fill(c, t), false, true, false);
    CanRotateLeft(m1, top, c.up, Paint(Fill(c, t), false, true, false));
  }

  lemma {:induction false} RedSiblingLeftStep<T>(m: Store<T>, m1: Store<T>, m2: Store<T>, top: Node?<T>, c: Ctx<T>,
                              t: Tree<T>, h: nat, order: seq<Node<T>>)
    requires Erasing(m, top, c, t, h, order) && !IsRed(t) && c.InLeft? && IsRed(c.right)
    requires Painted(m, m1, Fill(c, t), false, true, false)
    requires c.node in m1 && c.right.node in m1 && CanRotate(m1, c.node, c.right.node, m1[c.right.node].left)
    requires LeftRotated(m1, m2, c.node, c.right.node)
    ensures Erasing(m2, if m1[c.node].parent == null then c.right.node else top,
                    InLeft(InLeft(c.up, c.right.node, false, c.right.right), c.node, true, c.right.left), t, h, order)
    ensures !IsRed(c.right.left)
  {
    var f1 := Paint(Fill(c, t), false, true, false);
    var top2 := if m1[c.node].parent == null then c.right.node else top;
    Climb(m, top, c, t);
    RedSiblingLeftPaint(m, m1, top, c, t, h, order);
    PaintSame(Fill(c, t), false, true, false);
    LeftRotationShape(m1, m2, top, c.up, f1);
    assert SetRed(t, false) == t;
    var c1 := InLeft(c.up, c.right.node, false, c.right.right);
    Climb(m2, top2, c1, Bin(t, c.node, true, c.right.left));
    Climb(m2, top2, InLeft(c1, c.node, true, c.right.left), t);
    RedSiblingBalanced(c, t, h);
  }

  /** A black sibling with black children: paint it red and move up. */
  lemma {:induction false} MoveUpStep<T>(m: Store<T>, m': Store<T>, top: Node?<T>, c: Ctx<T>, t: Tree<T>, h: nat,
                              order: seq<Node<T>>)
    requires Erasing(m, top, c, t, h, order) && !IsRed(t) && !c.Top?
    requires !IsRed(Sibling(c)) && Sibling(c).Bin? && !IsRed(Sibling(c).left) && !IsRed(Sibling(c).right)
    requires Painted(m, m', Fill(c, t), c.InRight?, c.red, c.InLeft?)
    ensures Erasing(m', top, c.up, Paint(Fill(c, t), c.InRight?, c.red, c.InLeft?), if c.red then h else h + 1, order)
  {
    Climb(m, top, c, t);
    PaintShape(m, m', top, c.up, Fill(c, t), c.InRight?, c.red, c.InLeft?);
    PaintSame(Fill(c, t), c.InRight?, c.red, c.InLeft?);
    MoveUpBalanced(c, t, h);
  }

  lemma {:induction false} MoveUpBalanced<T>(c: Ctx<T>, t: Tree<T>, h: nat)
    requires Short(t, h) && !IsRed(t) && !c.Top? && CtxBalanced(c, h + 1)
    requires !IsRed(Sibling(c)) && Sibling(c).Bin? && !IsRed(Sibling(c).left) && !IsRed(Sibling(c).right)
    ensures Short(Paint(Fill(c, t), c.InRight?, c.red, c.InLeft?), if c.red then h else h + 1)
    ensures CtxBalanced(c.up, (if c.red then h else h + 1) + 1)
  {
    assert SetRed(t, false) == t;
    assert Balanced(SetRed(Sibling(c), true), h);
  }

  /** A black sibling whose far child is not red: one rotation at the sibling
      makes its far child red. */
  lemma {:induction false} NearNephewLeftPaint<T>(m: Store<T>, m1: Store<T>, top: Node?<T>, c: Ctx<T>, t: Tree<T>,
                              h: nat, order: seq<Node<T>>)
    requires Erasing(m, top, c, t, h, order) && c.InLeft?
    requires c.right.Bin? && !c.right.red && IsRed(c.right.left) && !IsRed(c.right.right)
    requires Painted(m, m1, c.right, false, true, false)
    ensures Shape(m1, top, Across(c, t), Paint(c.right, false, true, false))
    ensures c.right.node in m1 && c.right.left.node in m1 && m1[c.right.node].left == c.right.left.node
    ensures CanRotate(m1, c.right.node, c.right.left.node, m1[c.right.left.node].right)
    ensures m1[c.right.node].parent == c.node
  {
    AcrossShape(m, top, c, t);
    PaintShape(m, m1, top, Across(c, t), c.right, false, true, false);
    CanRotateRight(m1, top, Across(c, t), Paint(c.right, false, true, false));
  }

  lemma {:induction false} NearBalanced<T>(c: Ctx<T>, h: nat)
    requires c.InLeft? && CtxBalanced(c, h + 1)
    requires c.right.Bin? && !c.right.red && IsRed(c.right.left) && !IsRed(c.right.right)
    ensures CtxBalanced(WithSibling(c, RotatedRight(Paint(c.right, false, true, false))), h + 1)
  {
    var w := c.right;
    assert Balanced(w.left, h) && Balanced(w.right, h);
    assert SetRed(w.right, false) == w.right;
    assert Balanced(Bin(w.left.right, w.node, true, w.right), h);
  }

  lemma {:induction false} NearNephewLeftStep<T>(m: Store<T>, m1: Store<T>, m2: Store<T>, top: Node?<T>, c: Ctx<T>,
                              t: Tree<T>, h: nat, order: seq<Node<T>>)
    requires Erasing(m, top, c, t, h, order) && c.InLeft?
    requires c.right.Bin? && !c.right.red && IsRed(c.right.left) && !IsRed(c.right.right)
    requires Painted(m, m1, c.right, false, true, false)
    requires c.right.node in m1 && c.right.left.node in m1
    requires CanRotate(m1, c.right.node, c.right.left.node, m1[c.right.left.node].right)
    requires RightRotated(m1, m2, c.right.node, c.right.left.node)
    ensures Erasing(m2, top, WithSibling(c, RotatedRight(Paint(c.right, false, true, false))), t, h, order)
  {
    var w1 := Paint(c.right, false, true, false);
    AcrossShape(m, top, c, t);
    NearNephewLeftPaint(m, m1, top, c, t, h, order);
    PaintSame(c.right, false, true, false);
    RightRotationShape(m1, m2, top, Across(c, t), w1);
    NearBalanced(c, h);
    AcrossShape(m2, top, WithSibling(c, RotatedRight(w1)), t);
  }

  /** A black sibling with a red far child: the last rotation. */
  ghost function FarPainted<T>(c: Ctx<T>, t: Tree<T>): Tree<T>
    requires c.InLeft? && c.right.Bin?
  {
    Bin(SetRed(t, false), c.node, false, Bin(c.right.left, c.right.node, c.red, SetRed(c.right.right, false)))
  }

  lemma {:induction false} FarNephewLeftPaint<T>(m: Store<T>, m1: Store<T>, m2: Store<T>, top: Node?<T>, c: Ctx<T>,
                              t: Tree<T>, h: nat, order: seq<Node<T>>)
    requires Erasing(m, top, c, t, h, order) && c.InLeft? && !IsRed(t)
    requires c.right.Bin? && !c.right.red && IsRed(c.right.right)
    requires Painted(m, m1, c.right, IsRed(c.right.left), c.red, false)
    requires Painted(m1, m2, Fill(c, t), false, false, c.red)
    ensures Shape(m2, top, c.up, FarPainted(c, t))
    ensures c.node in m2 && c.right.node in m2 && m2[c.node].right == c.right.node
    ensures CanRotate(m2, c.node, c.right.node, m2[c.right.node].left)
  {
    var w1 := Paint(c.right, IsRed(c.right.left), c.red, false);
    AcrossShape(m, top, c, t);
    PaintShape(m, m1, top, Across(c, t), c.right, IsRed(c.right.left), c.red, false);
    AcrossShape(m1, top, WithSibling(c, w1), t);
    Climb(m1, top, WithSibling(c, w1), t);
    PaintShape(m1, m2, top, c.up, Fill(WithSibling(c, w1), t), false, false, c.red);
    assert SetRed(c.right.left, IsRed(c.right.left)) == c.right.left;
    CanRotateLeft(m2, top, c.up, FarPainted(c, t));
  }

  lemma {:induction false} FarBalanced<T>(c: Ctx<T>, t: Tree<T>, h: nat)
    requires Short(t, h) && !IsRed(t) && c.InLeft? && CtxBalanced(c, h + 1)
    requires c.right.Bin? && !c.right.red && IsRed(c.right.right)
    ensures Balanced(RotatedLeft(FarPainted(c, t)), if c.red then h + 1 else h + 2)
    ensures CtxBalanced(c.up, if c.red then h + 1 else h + 2)
    ensures c.red ==> !c.up.Top? && !c.up.red
  {
    assert SetRed(t, false) == t;
    assert Balanced(c.right.left, h) && Balanced(c.right.right, h);
    assert Balanced(SetRed(c.right.right, false), h + 1);
    assert Balanced(Bin(t, c.node, false, c.right.left), h + 1);
  }

  lemma {:induction false} FarOrder<T>(m: Store<T>, top: Node?<T>, c: Ctx<T>, t: Tree<T>)
    requires c.InLeft? && c.right.Bin?
    ensures Before(c.up) + InOrder(RotatedLeft(FarPainted(c, t))) + After(c.up) == Before(c) + InOrder(t) + After(c)
    ensures CtxNodes(c.up) + Nodes(RotatedLeft(FarPainted(c, t))) == CtxNodes(c) + Nodes(t)
  {
    SetRedSame(t, false);
    SetRedSame(c.right.right, false);
    assert Nodes(Bin(c.right.left, c.right.node, c.red, SetRed(c.right.right, false))) == Nodes(c.right);
    RotatedLeftNodes(FarPainted(c, t));
    RotatedInOrder(FarPainted(c, t));
    Climb(m, top, c, t);
  }

  lemma {:induction false} FarNephewLeftStep<T>(m: Store<T>, m1: Store<T>, m2: Store<T>, m3: Store<T>,
                              top: Node?<T>, c: Ctx<T>, t: Tree<T>, h: nat, order: seq<Node<T>>)
    requires Erasing(m, top, c, t, h, order) && c.InLeft? && !IsRed(t)
    requires c.right.Bin? && !c.right.red && IsRed(c.right.right)
    requires Painted(m, m1, c.right, IsRed(c.right.left), c.red, false)
    requires Painted(m1, m2, Fill(c, t), false, false, c.red)
    requires c.node in m2 && c.right.node in m2
    requires CanRotate(m2, c.node, c.right.node, m2[c.right.node].left)
    requires LeftRotated(m2, m3, c.node, c.right.node)
    ensures Mended(m3, if m2[c.node].parent == null then c.right.node else top,
                   Plug(c.up, RotatedLeft(FarPainted(c, t))), order)
  {
    var d := RotatedLeft(FarPainted(c, t));
    var top3 := if m2[c.node].parent == null then c.right.node else top;
    FarNephewLeftPaint(m, m1, m2, top, c, t, h, order);
    LeftRotationShape(m2, m3, top, c.up, FarPainted(c, t));
    FarBalanced(c, t, h);
    FarOrder(m, top, c, t);
    Join(m3, top3, c.up, d);
    InOrderPlug(c.up, d);
    BalancedPlug(c.up, d, if c.red then h + 1 else h + 2);
  }

  // ------------------------------------------- the same steps seen in a mirror

  lemma {:induction false} MirrorPlug<T>(c: Ctx<T>, t: Tree<T>)
    ensures Mirror(Plug(c, t)) == Plug(MirrorCtx(c), Mirror(t))
  {
    match c
    case Top =>
    case InLeft(up, n, red, r) => MirrorPlug(up, Bin(t, n, red, r));
    case InRight(up, l, n, red) => MirrorPlug(up, Bin(l, n, red, t));
  }

  lemma {:induction false} MirrorMended<T>(m: Store<T>, top: Node?<T>, t: Tree<T>, order: seq<Node<T>>)
    requires Mended(MirrorLinks(m), top, Mirror(t), Reverse(order))
    ensures Mended(m, top, t, order)
  {
    MirrorShape(m, top, Top, t);
    MirrorTree(m, t, null);
    MirrorInOrder(t);
    ReverseConcat(order, []);
    ReverseConcat(InOrder(t), []);
    MirrorBalanced(t, BlackHeight(Mirror(t)));
    BalancedHeight(t, BlackHeight(Mirror(t)));
  }

  lemma {:induction false} MirrorFill<T>(c: Ctx<T>, t: Tree<T>)
    requires !c.Top?
    ensures !MirrorCtx(c).Top? && Fill(MirrorCtx(c), Mirror(t)) == Mirror(Fill(c, t))
    ensures Sibling(MirrorCtx(c)) == Mirror(Sibling(c)) && Across(MirrorCtx(c), Mirror(t)) == MirrorCtx(Across(c, t))
  {
  }

  lemma {:induction false} MirrorNear<T>(c: Ctx<T>)
    requires c.InRight? && c.left.Bin? && c.left.right.Bin?
    ensures MirrorCtx(c).InLeft? && MirrorCtx(c).right.Bin? && MirrorCtx(c).right.left == Mirror(c.left.right)
    ensures MirrorCtx(c).right.left.Bin?
    ensures MirrorCtx(WithSibling(c, RotatedLeft(Paint(c.left, false, true, false))))
         == WithSibling(MirrorCtx(c), RotatedRight(Paint(MirrorCtx(c).right, false, true, false)))
  {
    var Bin(a, x, _, Bin(b, y, _, d)) := c.left;
    assert Mirror(c.left) == Bin(Bin(Mirror(d), y, c.left.right.red, Mirror(b)), x, c.left.red, Mirror(a));
    assert SetRed(Mirror(a), false) == Mirror(SetRed(a, false));
    var w := Bin(Bin(SetRed(a, false), x, true, b), y, false, d);
    assert RotatedLeft(Paint(c.left, false, true, false)) == w;
    assert Mirror(w) == Bin(Mirror(d), y, false, Bin(Mirror(b), x, true, Mirror(SetRed(a, false))));
  }

  lemma {:induction false} ErasingRoots<T>(m: Store<T>, top: Node?<T>, c: Ctx<T>, t: Tree<T>, h: nat,
                              order: seq<Node<T>>)
    requires Erasing(m, top, c, t, h, order) && !c.Top?
    ensures t.Bin? && Sibling(c).Bin? ==> t.node != Sibling(c).node
    ensures Sibling(c).Bin? && Sibling(c).left.Bin? && Sibling(c).right.Bin? ==>
      Sibling(c).left.node != Sibling(c).right.node
    ensures Sibling(c).Bin? && Sibling(c).left.Bin? ==> Sibling(c).left.node !in {c.node, Sibling(c).node, RootOf(t)}
    ensures Sibling(c).Bin? && Sibling(c).right.Bin? ==> Sibling(c).right.node !in {c.node, Sibling(c).node, RootOf(t)}
  {
    assert t.Bin? ==> t.node in Nodes(t);
    assert Sibling(c).Bin? ==> Sibling(c).node in Nodes(Sibling(c));
    assert Sibling(c).Bin? && Sibling(c).right.Bin? ==> Sibling(c).right.node in Nodes(Sibling(c).right);
    assert Sibling(c).Bin? ==> Distinct(Sibling(c)) && Sibling(c).node in CtxNodes(c);
    assert Sibling(c).Bin? && Sibling(c).left.Bin? ==> Sibling(c).left.node in Nodes(Sibling(c).left);
  }

  lemma {:induction false} RedSiblingRightPaint<T>(m: Store<T>, m1: Store<T>, top: Node?<T>, c: Ctx<T>, t: Tree<T>,
                              h: nat, order: seq<Node<T>>)
    requires Erasing(m, top, c, t, h, order) && !IsRed(t) && c.InRight? && IsRed(c.left)
    requires Painted(m, m1, Fill(c, t), false, true, false)
    ensures Shape(m1, top, c.up, Paint(Fill(c, t), false, true, false))
    ensures c.node in m1 && c.left.node in m1 && CanRotate(m1, c.node, c.left.node, m1[c.left.node].right)
    ensures m1[c.node].left == c.left.node
  {
    Climb(m, top, c, t);
    PaintShape(m, m1, top, c.up, Fill(c, t), false, true, false);
    CanRotateRight(m1, top, c.up, Paint(Fill(c, t), false, true, false));
  }

  lemma {:induction false} RedSiblingRightStep<T>(m: Store<T>, m1: Store<T>, m2: Store<T>, top: Node?<T>,
                              c: Ctx<T>, t: Tree<T>, h: nat, order: seq<Node<T>>)
    requires Erasing(m, top, c, t, h, order) && !IsRed(t) && c.InRight? && IsRed(c.left)
    requires Painted(m, m1, Fill(c, t), false, true, false)
    requires c.node in m1 && c.left.node in m1 && CanRotate(m1, c.node, c.left.node, m1[c.left.node].right)
    requires RightRotated(m1, m2, c.node, c.left.node)
    ensures Erasing(m2, if m1[c.node].parent == null then c.left.node else top,
                    InRight(InRight(c.up, c.left.left, c.left.node, false), c.left.right, c.node, true), t, h, order)
    ensures !IsRed(c.left.right)
  {
    hide Erasing, Shape;
    MirrorErasing(m, top, c, t, h, order);
    MirrorFill(c, t);
    MirrorBalanced(t, 0);
    MirrorBalanced(c.left, 0);
    MirrorBalanced(c.left.right, 0);
    MirrorPainted(m, m1, Fill(c, t), false, true, false);
    RedSiblingLeftStep(MirrorLinks(m), MirrorLinks(m1), MirrorLinks(m2), top, MirrorCtx(c), Mirror(t), h,
                       Reverse(order));
    UnmirrorErasing(m2, if m1[c.node].parent == null then c.left.node else top,
                    InRight(InRight(c.up, c.left.left, c.left.node, false), c.left.right, c.node, true), t, h, order);
  }

  lemma {:induction false} NearNephewRightPaint<T>(m: Store<T>, m1: Store<T>, top: Node?<T>, c: Ctx<T>, t: Tree<T>,
                              h: nat, order: seq<Node<T>>)
    requires Erasing(m, top, c, t, h, order) && c.InRight?
    requires c.left.Bin? && !c.left.red && IsRed(c.left.right) && !IsRed(c.left.left)
    requires Painted(m, m1, c.left, false, true, false)
    ensures Shape(m1, top, Across(c, t), Paint(c.left, false, true, false))
    ensures c.left.node in m1 && c.left.right.node in m1 && m1[c.left.node].right == c.left.right.node
    ensures CanRotate(m1, c.left.node, c.left.right.node, m1[c.left.right.node].left)
    ensures m1[c.left.node].parent == c.node
  {
    AcrossShape(m, top, c, t);
    PaintShape(m, m1, top, Across(c, t), c.left, false, true, false);
    CanRotateLeft(m1, top, Across(c, t), Paint(c.left, false, true, false));
  }

  lemma {:induction false} NearNephewRightStep<T>(m: Store<T>, m1: Store<T>, m2: Store<T>, top: Node?<T>,
                              c: Ctx<T>, t: Tree<T>, h: nat, order: seq<Node<T>>)
    requires Erasing(m, top, c, t, h, order) && c.InRight?
    requires c.left.Bin? && !c.left.red && IsRed(c.left.right) && !IsRed(c.left.left)
    requires Painted(m, m1, c.left, false, true, false)
    requires c.left.node in m1 && c.left.right.node in m1
    requires CanRotate(m1, c.left.node, c.left.right.node, m1[c.left.right.node].left)
    requires LeftRotated(m1, m2, c.left.node, c.left.right.node)
    ensures Erasing(m2, top, WithSibling(c, RotatedLeft(Paint(c.left, false, true, false))), t, h, order)
  {
    hide Erasing, Shape;
    MirrorErasing(m, top, c, t, h, order);
    MirrorFill(c, t);
    MirrorBalanced(c.left.left, 0);
    MirrorBalanced(c.left.right, 0);
    MirrorPainted(m, m1, c.left, false, true, false);
    NearNephewLeftStep(MirrorLinks(m), MirrorLinks(m1), MirrorLinks(m2), top, MirrorCtx(c), Mirror(t), h,
                       Reverse(order));
    MirrorNear(c);
    UnmirrorErasing(m2, top, WithSibling(c, RotatedLeft(Paint(c.left, false, true, false))), t, h, order);
  }

  ghost function FarPaintedRight<T>(c: Ctx<T>, t: Tree<T>): Tree<T>
    requires c.InRight? && c.left.Bin?
  {
    Bin(Bin(SetRed(c.left.left, false), c.left.node, c.red, c.left.right), c.node, false, SetRed(t, false))
  }

  lemma {:induction false} FarNephewRightPaint<T>(m: Store<T>, m1: Store<T>, m2: Store<T>, top: Node?<T>,
                              c: Ctx<T>, t: Tree<T>, h: nat, order: seq<Node<T>>)
    requires Erasing(m, top, c, t, h, order) && c.InRight? && !IsRed(t)
    requires c.left.Bin? && !c.left.red && IsRed(c.left.left)
    requires Painted(m, m1, c.left, false, c.red, IsRed(c.left.right))
    requires Painted(m1, m2, Fill(c, t), c.red, false, false)
    ensures Shape(m2, top, c.up, FarPaintedRight(c, t))
    ensures c.node in m2 && c.left.node in m2 && m2[c.node].left == c.left.node
    ensures CanRotate(m2, c.node, c.left.node, m2[c.left.node].right)
  {
    var w1 := Paint(c.left, false, c.red, IsRed(c.left.right));
    AcrossShape(m, top, c, t);
    PaintShape(m, m1, top, Across(c, t), c.left, false, c.red, IsRed(c.left.right));
    AcrossShape(m1, top, WithSibling(c, w1), t);
    Climb(m1, top, WithSibling(c, w1), t);
    PaintShape(m1, m2, top, c.up, Fill(WithSibling(c, w1), t), c.red, false, false);
    assert SetRed(c.left.right, IsRed(c.left.right)) == c.left.right;
    CanRotateRight(m2, top, c.up, FarPaintedRight(c, t));
  }

  lemma {:induction false} FarNephewRightStep<T>(m: Store<T>, m1: Store<T>, m2: Store<T>, m3: Store<T>,
                              top: Node?<T>, c: Ctx<T>, t: Tree<T>, h: nat, order: seq<Node<T>>)
    requires Erasing(m, top, c, t, h, order) && c.InRight? && !IsRed(t)
    requires c.left.Bin? && !c.left.red && IsRed(c.left.left)
    requires Painted(m, m1, c.left, false, c.red, IsRed(c.left.right))
    requires Painted(m1, m2, Fill(c, t), c.red, false, false)
    requires c.node in m2 && c.left.node in m2
    requires CanRotate(m2, c.node, c.left.node, m2[c.left.node].right)
    requires RightRotated(m2, m3, c.node, c.left.node)
    ensures Mended(m3, if m2[c.node].parent == null then c.left.node else top,
                   Plug(c.up, RotatedRight(FarPaintedRight(c, t))), order)
  {
    hide Erasing, Shape, Mended;
    MirrorErasing(m, top, c, t, h, order);
    MirrorFill(c, t);
    MirrorBalanced(t, 0);
    MirrorBalanced(c.left, 0);
    MirrorBalanced(c.left.left, 0);
    MirrorBalanced(c.left.right, 0);
    ErasingRoots(m, top, c, t, h, order);
    MirrorPainted(m, m1, c.left, false, c.red, IsRed(c.left.right));
    MirrorPainted(m1, m2, Fill(c, t), c.red, false, false);
    FarNephewLeftStep(MirrorLinks(m), MirrorLinks(m1), MirrorLinks(m2), MirrorLinks(m3), top, MirrorCtx(c), Mirror(t),
                      h, Reverse(order));
    MirrorPlug(c.up, RotatedRight(FarPaintedRight(c, t)));
    MirrorMended(m3, if m2[c.node].parent == null then c.left.node else top,
                 Plug(c.up, RotatedRight(FarPaintedRight(c, t))), order);
  }

  // ------------------------------------------------------------- the pointers

  /** What the pointers read by the loop say about the shape; in particular the
      sibling `other` is never null. */
  lemma {:induction false} ErasePointers<T>(m: Store<T>, top: Node?<T>, c: Ctx<T>, t: Tree<T>, h: nat,
                              order: seq<Node<T>>)
    requires Erasing(m, top, c, t, h, order)
    ensures m.Keys == CtxNodes(c) + Nodes(t)
    ensures RootOf(t) == top <==> c.Top?
    ensures t.Bin? ==> t.node in m && m[t.node].red == t.red
    ensures !c.Top? ==> c.node in m && m[c.node].red == c.red && m[c.node].parent == ParentAt(c.up, null)
    ensures !c.Top? ==> m[c.node].left == (if c.InLeft? then RootOf(t) else RootOf(Sibling(c)))
    ensures !c.Top? ==> m[c.node].right == (if c.InLeft? then RootOf(Sibling(c)) else RootOf(t))
    ensures !c.Top? ==> Sibling(c).Bin? && Sibling(c).node in m && Sibling(c).node !in {c.node, RootOf(t)}
    ensures !c.Top? ==>
      m[Sibling(c).node] == Links(c.node, Sibling(c).red, RootOf(Sibling(c).left), RootOf(Sibling(c).right))
    ensures !c.Top? && Sibling(c).left.Bin? ==>
      Sibling(c).left.node in m && m[Sibling(c).left.node].red == Sibling(c).left.red
    ensures !c.Top? && Sibling(c).right.Bin? ==>
      Sibling(c).right.node in m && m[Sibling(c).right.node].red == Sibling(c).right.red
  {
    if !c.Top? {
      var w := Sibling(c);
      assert Linked(m, w, c.node);
      assert Linked(m, w.left, w.node) && Linked(m, w.right, w.node);
      assert t.Bin? ==> t.node in Nodes(t);
      assert Sibling(c).node in Nodes(Sibling(c));
      TopInCtx(m, top, c, RootOf(t));
    }
  }

  lemma {:induction false} TopInCtx<T>(m: Store<T>, top: Node?<T>, c: Ctx<T>, hole: Node?<T>)
    requires !c.Top? && CtxLinked(m, c, hole, top, null)
    ensures top in CtxNodes(c)
  {
    if !c.up.Top? { TopInCtx(m, top, c.up, c.node); }
  }

  // -------------------------------------------------------------- the method

  method EraseRedSiblingLeft<T>(parent: Node<T>, other: Node<T>, root: Root<T>, ghost s: set<Node<T>>,
                                ghost c: Ctx<T>, ghost t: Tree<T>, ghost h: nat, ghost order: seq<Node<T>>)
    returns (ghost c': Ctx<T>)
    requires Erasing(Snap(s), root.node, c, t, h, order) && !IsRed(t) && c.InLeft? && IsRed(c.right)
    requires parent == c.node && other == c.right.node
    modifies root`node, s`left, s`right, s`parent, s`red
    ensures Erasing(Snap(s), root.node, c', t, h, order)
    ensures c'.InLeft? && c'.node == parent && !IsRed(c'.right) && Depth(c') == Depth(c) + 1 && c'.red
  {
    hide Erasing, Shape, Linked, CtxLinked, Nodes, CtxNodes, Balanced, CtxBalanced;
    ghost var m, top := Snap(s), root.node;
    ErasePointers(m, top, c, t, h, order);
    ErasingRoots(m, top, c, t, h, order);
    SetBlackRed(other, parent, s, Fill(c, t));
    ghost var m1 := Snap(s);
    RedSiblingLeftPaint(m, m1, top, c, t, h, order);
    RotateLeft(parent, root, s);
    RedSiblingLeftStep(m, m1, Snap(s), top, c, t, h, order);
    c' := InLeft(InLeft(c.up, c.right.node, false, c.right.right), c.node, true, c.right.left);
  }

  method EraseNearLeft<T>(other: Node<T>, root: Root<T>, ghost s: set<Node<T>>,
                          ghost c: Ctx<T>, ghost t: Tree<T>, ghost h: nat, ghost order: seq<Node<T>>)
    returns (ghost c': Ctx<T>)
    requires Erasing(Snap(s), root.node, c, t, h, order) && c.InLeft?
    requires c.right.Bin? && !c.right.red && IsRed(c.right.left) && !IsRed(c.right.right) && other == c.right.node
    modifies root`node, s`left, s`right, s`parent, s`red
    ensures Erasing(Snap(s), root.node, c', t, h, order)
    ensures c'.InLeft? && c'.node == c.node && c'.red == c.red && c'.up == c.up
    ensures c'.right.Bin? && !c'.right.red && IsRed(c'.right.right)
  {
    hide Erasing, Shape, Linked, CtxLinked, Nodes, CtxNodes, Balanced, CtxBalanced;
    ghost var m, top := Snap(s), root.node;
    ErasePointers(m, top, c, t, h, order);
    ErasingRoots(m, top, c, t, h, order);
    SetBlackRed(other.left, other, s, c.right);
    ghost var m1 := Snap(s);
    NearNephewLeftPaint(m, m1, top, c, t, h, order);
    RotateRight(other, root, s);
    NearNephewLeftStep(m, m1, Snap(s), top, c, t, h, order);
    c' := WithSibling(c, RotatedRight(Paint(c.right, false, true, false)));
  }

  /** rb_set_color(other, rb_color(parent)), rb_set_black(parent), rb_set_black(far) */
  method SetFarColors<T>(parent: Node<T>, other: Node<T>, far: Node<T>, ghost s: set<Node<T>>)
    requires parent in s && other in s && far in s && parent != other && other != far && parent != far
    modifies parent`red, other`red, far`red
    ensures FarColors(old(Snap(s)), Snap(s), parent, other, old(parent.red), far)
  {
    other.red := parent.red;
    parent.red := false;
    far.red := false;
  }

  /** The links half way through SetFarColors, the parent not yet painted. */
  ghost function HalfPainted<T>(m: Store<T>, other: Node<T>, red: bool, far: Node<T>): Store<T> {
    map n | n in m :: m[n].(red := if n == other then red else if n == far then false else m[n].red)
  }

  ghost predicate FarColors<T>(m: Store<T>, m': Store<T>, parent: Node<T>, other: Node<T>, red: bool, far: Node<T>) {
    m'.Keys == m.Keys && forall n :: n in m ==> m'[n] == m[n].(red :=
      if n == other then red else if n == parent || n == far then false else m[n].red)
  }

  lemma {:induction false} FarColorsSplitLeft<T>(m: Store<T>, m': Store<T>, top: Node?<T>, c: Ctx<T>, t: Tree<T>,
                              h: nat, order: seq<Node<T>>)
    requires Erasing(m, top, c, t, h, order) && c.InLeft? && !IsRed(t) && c.right.Bin? && c.right.right.Bin?
    requires FarColors(m, m', c.node, c.right.node, c.red, c.right.right.node)
    ensures var m1 := HalfPainted(m, c.right.node, c.red, c.right.right.node);
      Painted(m, m1, c.right, IsRed(c.right.left), c.red, false) && Painted(m1, m', Fill(c, t), false, false, c.red)
  {
    hide Erasing;
    ErasePointers(m, top, c, t, h, order);
    ErasingRoots(m, top, c, t, h, order);
  }

  lemma {:induction false} FarColorsSplitRight<T>(m: Store<T>, m': Store<T>, top: Node?<T>, c: Ctx<T>, t: Tree<T>,
                              h: nat, order: seq<Node<T>>)
    requires Erasing(m, top, c, t, h, order) && c.InRight? && !IsRed(t) && c.left.Bin? && c.left.left.Bin?
    requires FarColors(m, m', c.node, c.left.node, c.red, c.left.left.node)
    ensures var m1 := HalfPainted(m, c.left.node, c.red, c.left.left.node);
      Painted(m, m1, c.left, false, c.red, IsRed(c.left.right)) && Painted(m1, m', Fill(c, t), c.red, false, false)
  {
    hide Erasing;
    ErasePointers(m, top, c, t, h, order);
    ErasingRoots(m, top, c, t, h, order);
  }

  method EraseFarLeft<T>(parent: Node<T>, other: Node<T>, root: Root<T>, ghost s: set<Node<T>>,
                         ghost c: Ctx<T>, ghost t: Tree<T>, ghost h: nat, ghost order: seq<Node<T>>)
    returns (ghost tree: Tree<T>)
    requires Erasing(Snap(s), root.node, c, t, h, order) && c.InLeft? && !IsRed(t)
    requires c.right.Bin? && !c.right.red && IsRed(c.right.right) && parent == c.node && other == c.right.node
    modifies root`node, s`left, s`right, s`parent, s`red
    ensures Mended(Snap(s), root.node, tree, order)
  {
    hide Erasing, Mended, Shape, Linked, CtxLinked, Nodes, CtxNodes, Balanced, CtxBalanced, InOrder, Painted;
    hide FarColors, HalfPainted;
    ghost var m, top := Snap(s), root.node;
    ErasePointers(m, top, c, t, h, order);
    ErasingRoots(m, top, c, t, h, order);
    ghost var m1 := HalfPainted(m, other, c.red, c.right.right.node);
    SetFarColors(parent, other, other.right, s);
    ghost var m2 := Snap(s);
    FarColorsSplitLeft(m, m2, top, c, t, h, order);
    FarNephewLeftPaint(m, m1, m2, top, c, t, h, order);
    RotateLeft(parent, root, s);
    FarNephewLeftStep(m, m1, m2, Snap(s), top, c, t, h, order);
    tree := Plug(c.up, RotatedLeft(FarPainted(c, t)));
  }

  /** Painting a black sibling red and moving up to the parent. */
  method EraseMoveUp<T>(other: Node<T>, root: Root<T>, ghost s: set<Node<T>>,
                        ghost c: Ctx<T>, ghost t: Tree<T>, ghost h: nat, ghost order: seq<Node<T>>)
    returns (ghost t': Tree<T>)
    requires Erasing(Snap(s), root.node, c, t, h, order) && !IsRed(t) && !c.Top?
    requires Sibling(c).Bin? && other == Sibling(c).node && !Sibling(c).red
    requires !IsRed(Sibling(c).left) && !IsRed(Sibling(c).right)
    modifies other`red
    ensures Erasing(Snap(s), root.node, c.up, t', if c.red then h else h + 1, order)
    ensures t'.Bin? && t'.node == c.node && t'.red == c.red
  {
    ghost var m := Snap(s);
    ErasePointers(m, root.node, c, t, h, order);
    other.red := true;
    MoveUpStep(m, Snap(s), root.node, c, t, h, order);
    t' := Paint(Fill(c, t), c.InRight?, c.red, c.InLeft?);
  }

  ghost function Measure<T>(c: Ctx<T>, t: Tree<T>): nat {
    2 * Depth(c) + if IsRed(t) then 0 else 1
  }

  /** The loop body when the focus is a left child. */
  method EraseLeftSide<T>(node: Node?<T>, parent: Node<T>, root: Root<T>, ghost s: set<Node<T>>,
                          ghost c0: Ctx<T>, ghost t: Tree<T>, ghost h: nat, ghost order: seq<Node<T>>)
    returns (done: bool, node': Node?<T>, parent': Node?<T>,
             ghost c': Ctx<T>, ghost t': Tree<T>, ghost h': nat, ghost tree: Tree<T>)
    requires Erasing(Snap(s), root.node, c0, t, h, order) && !IsRed(t) && c0.InLeft?
    requires node == RootOf(t) && parent == c0.node
    modifies root`node, s`left, s`right, s`parent, s`red
    ensures done ==> Mended(Snap(s), root.node, tree, order) && node' == root.node
    ensures !done ==> Erasing(Snap(s), root.node, c', t', h', order)
    ensures !done ==> node' == RootOf(t') && parent' == ParentAt(c', null) && Measure(c', t') < Measure(c0, t)
  {
    hide Erasing, Mended, Shape, Linked, CtxLinked, Nodes, CtxNodes;
    ghost var c := c0;
    tree, c', t', h' := Nil, c, t, h;
    ErasePointers(Snap(s), root.node, c, t, h, order);
    var other := parent.right;
    if other.red {
      c := EraseRedSiblingLeft(parent, other, root, s, c, t, h, order);
      ErasePointers(Snap(s), root.node, c, t, h, order);
      other := parent.right;
    }
    if (other.left == null || !other.left.red) && (other.right == null || !other.right.red) {
      t' := EraseMoveUp(other, root, s, c, t, h, order);
      c', h' := c.up, if c.red then h else h + 1;
      node' := parent;
      parent' := node'.parent;
      done := false;
    } else {
      if other.right == null || !other.right.red {
        c := EraseNearLeft(other, root, s, c, t, h, order);
        ErasePointers(Snap(s), root.node, c, t, h, order);
        other := parent.right;
      }
      tree := EraseFarLeft(parent, other, root, s, c, t, h, order);
      node' := root.node;
      parent' := parent;
      done := true;
    }
  }

  method EraseRedSiblingRight<T>(parent: Node<T>, other: Node<T>, root: Root<T>, ghost s: set<Node<T>>,
                                 ghost c: Ctx<T>, ghost t: Tree<T>, ghost h: nat, ghost order: seq<Node<T>>)
    returns (ghost c': Ctx<T>)
    requires Erasing(Snap(s), root.node, c, t, h, order) && !IsRed(t) && c.InRight? && IsRed(c.left)
    requires parent == c.node && other == c.left.node
    modifies root`node, s`left, s`right, s`parent, s`red
    ensures Erasing(Snap(s), root.node, c', t, h, order)
    ensures c'.InRight? && c'.node == parent && !IsRed(c'.left) && Depth(c') == Depth(c) + 1 && c'.red
  {
    hide Erasing, Shape, Linked, CtxLinked, Nodes, CtxNodes, Balanced, CtxBalanced;
    ghost var m, top := Snap(s), root.node;
    ErasePointers(m, top, c, t, h, order);
    ErasingRoots(m, top, c, t, h, order);
    SetBlackRed(other, parent, s, Fill(c, t));
    ghost var m1 := Snap(s);
    RedSiblingRightPaint(m, m1, top, c, t, h, order);
    RotateRight(parent, root, s);
    RedSiblingRightStep(m, m1, Snap(s), top, c, t, h, order);
    c' := InRight(InRight(c.up, c.left.left, c.left.node, false), c.left.right, c.node, true);
  }

  method EraseNearRight<T>(other: Node<T>, root: Root<T>, ghost s: set<Node<T>>,
                           ghost c: Ctx<T>, ghost t: Tree<T>, ghost h: nat, ghost order: seq<Node<T>>)
    returns (ghost c': Ctx<T>)
    requires Erasing(Snap(s), root.node, c, t, h, order) && c.InRight?
    requires c.left.Bin? && !c.left.red && IsRed(c.left.right) && !IsRed(c.left.left) && other == c.left.node
    modifies root`node, s`left, s`right, s`parent, s`red
    ensures Erasing(Snap(s), root.node, c', t, h, order)
    ensures c'.InRight? && c'.node == c.node && c'.red == c.red && c'.up == c.up
    ensures c'.left.Bin? && !c'.left.red && IsRed(c'.left.left)
  {
    hide Erasing, Shape, Linked, CtxLinked, Nodes, CtxNodes, Balanced, CtxBalanced;
    ghost var m, top := Snap(s), root.node;
    ErasePointers(m, top, c, t, h, order);
    ErasingRoots(m, top, c, t, h, order);
    SetBlackRed(other.right, other, s, c.left);
    ghost var m1 := Snap(s);
    NearNephewRightPaint(m, m1, top, c, t, h, order);
    RotateLeft(other, root, s);
    NearNephewRightStep(m, m1, Snap(s), top, c, t, h, order);
    c' := WithSibling(c, RotatedLeft(Paint(c.left, false, true, false)));
  }

  method EraseFarRight<T>(parent: Node<T>, other: Node<T>, root: Root<T>, ghost s: set<Node<T>>,
                          ghost c: Ctx<T>, ghost t: Tree<T>, ghost h: nat, ghost order: seq<Node<T>>)
    returns (ghost tree: Tree<T>)
    requires Erasing(Snap(s), root.node, c, t, h, order) && c.InRight? && !IsRed(t)
    requires c.left.Bin? && !c.left.red && IsRed(c.left.left) && parent == c.node && other == c.left.node
    modifies root`node, s`left, s`right, s`parent, s`red
    ensures Mended(Snap(s), root.node, tree, order)
  {
    hide Erasing, Mended, Shape, Linked, CtxLinked, Nodes, CtxNodes, Balanced, CtxBalanced, InOrder, Painted;
    hide FarColors, HalfPainted;
    ghost var m, top := Snap(s), root.node;
    ErasePointers(m, top, c, t, h, order);
    ErasingRoots(m, top, c, t, h, order);
    ghost var m1 := HalfPainted(m, other, c.red, c.left.left.node);
    SetFarColors(parent, other, other.left, s);
    ghost var m2 := Snap(s);
    FarColorsSplitRight(m, m2, top, c, t, h, order);
    FarNephewRightPaint(m, m1, m2, top, c, t, h, order);
    RotateRight(parent, root, s);
    FarNephewRightStep(m, m1, m2, Snap(s), top, c, t, h, order);
    tree := Plug(c.up, RotatedRight(FarPaintedRight(c, t)));
  }

  /** The loop body when the focus is a right child. */
  method EraseRightSide<T>(node: Node?<T>, parent: Node<T>, root: Root<T>, ghost s: set<Node<T>>,
                           ghost c0: Ctx<T>, ghost t: Tree<T>, ghost h: nat, ghost order: seq<Node<T>>)
    returns (done: bool, node': Node?<T>, parent': Node?<T>,
             ghost c': Ctx<T>, ghost t': Tree<T>, ghost h': nat, ghost tree: Tree<T>)
    requires Erasing(Snap(s), root.node, c0, t, h, order) && !IsRed(t) && c0.InRight?
    requires node == RootOf(t) && parent == c0.node
    modifies root`node, s`left, s`right, s`parent, s`red
    ensures done ==> Mended(Snap(s), root.node, tree, order) && node' == root.node
    ensures !done ==> Erasing(Snap(s), root.node, c', t', h', order)
    ensures !done ==> node' == RootOf(t') && parent' == ParentAt(c', null) && Measure(c', t') < Measure(c0, t)
  {
    hide Erasing, Mended, Shape, Linked, CtxLinked, Nodes, CtxNodes;
    ghost var c := c0;
    tree, c', t', h' := Nil, c, t, h;
    ErasePointers(Snap(s), root.node, c, t, h, order);
    var other := parent.left;
    if other.red {
      c := EraseRedSiblingRight(parent, other, root, s, c, t, h, order);
      ErasePointers(Snap(s), root.node, c, t, h, order);
      other := parent.left;
    }
    if (other.left == null || !other.left.red) && (other.right == null || !other.right.red) {
      t' := EraseMoveUp(other, root, s, c, t, h, order);
      c', h' := c.up, if c.red then h else h + 1;
      node' := parent;
      parent' := node'.parent;
      done := false;
    } else {
      if other.left == null || !other.left.red {
        c := EraseNearRight(other, root, s, c, t, h, order);
        ErasePointers(Snap(s), root.node, c, t, h, order);
        other := parent.left;
      }
      tree := EraseFarRight(parent, other, root, s, c, t, h, order);
      node' := root.node;
      parent' := parent;
      done := true;
    }
  }

  /** The loop ended at a red focus or at the root: paint the focus black. */
  lemma {:induction false} EraseDone<T>(m: Store<T>, m': Store<T>, top: Node?<T>, c: Ctx<T>, t: Tree<T>, h: nat,
                              order: seq<Node<T>>)
    requires Erasing(m, top, c, t, h, order) && (c.Top? || IsRed(t))
    requires m'.Keys == m.Keys && forall n :: n in m ==> m'[n] == if n == RootOf(t) then m[n].(red := false) else m[n]
    ensures Mended(m', top, Plug(c, SetRed(t, false)), order)
  {
    var b := SetRed(t, false);
    SetRedSame(t, false);
    SetRedLinks(m, m', t, ParentAt(c, null), false);
    assert t.Bin? ==> t.node in Nodes(t);
    SameCtx(m, m', c, RootOf(t), top, null);
    Join(m', top, c, b);
    InOrderPlug(c, b);
    if IsRed(t) {
      BalancedPlug(c, b, h + 1);
    } else {
      assert b == t;
      BalancedPlug(c, b, h);
    }
  }

  lemma {:induction false} MendedRoot<T>(m: Store<T>, top: Node?<T>, t: Tree<T>, order: seq<Node<T>>)
    requires Mended(m, top, t, order)
    ensures top == RootOf(t) && (top != null ==> top in m && !m[top].red) && m.Keys == Nodes(t)
  {
  }

  /** if (node) rb_set_black(node) */
  method SetFocusBlack<T>(node: Node?<T>, ghost s: set<Node<T>>)
    requires node != null ==> node in s
    modifies s`red
    ensures Snap(s).Keys == s
    ensures forall n :: n in s ==> Snap(s)[n] == if n == node then old(Snap(s))[n].(red := false) else old(Snap(s))[n]
  {
    if node != null {
      node.red := false;
    }
  }

  /** The end of the fix-up, after a break (`mended`) or a finished loop. */
  method EraseFinish<T>(node: Node?<T>, root: Root<T>, ghost s: set<Node<T>>, ghost mended: bool, ghost tree0: Tree<T>,
                        ghost c: Ctx<T>, ghost t: Tree<T>, ghost h: nat, ghost order: seq<Node<T>>)
    returns (ghost tree: Tree<T>)
    requires mended ==> Mended(Snap(s), root.node, tree0, order) && node == root.node
    requires !mended ==> Erasing(Snap(s), root.node, c, t, h, order) && node == RootOf(t) && (c.Top? || IsRed(t))
    modifies s`red
    ensures Mended(Snap(s), root.node, tree, order)
  {
    hide Erasing, Mended, Shape, Linked, CtxLinked, Nodes, CtxNodes, Plug, RedBlack;
    ghost var m, top := Snap(s), root.node;
    tree := tree0;
    if mended {
      MendedRoot(m, top, tree, order);
    } else {
      ErasePointers(m, top, c, t, h, order);
    }
    SetFocusBlack(node, s);
    ghost var m' := Snap(s);
    if mended {
      assert m' == m;
    } else {
      EraseDone(m, m', top, c, t, h, order);
      tree := Plug(c, SetRed(t, false));
    }
  }

  method EraseColor<T>(node0: Node?<T>, parent0: Node?<T>, root: Root<T>, ghost s: set<Node<T>>,
                       ghost c0: Ctx<T>, ghost t0: Tree<T>, ghost h0: nat, ghost order: seq<Node<T>>)
    returns (ghost tree: Tree<T>)
    requires Erasing(Snap(s), root.node, c0, t0, h0, order)
    requires node0 == RootOf(t0) && parent0 == ParentAt(c0, null)
    modifies root`node, s`left, s`right, s`parent, s`red
    ensures Mended(Snap(s), root.node, tree, order)
  {
    hide Erasing, Mended, Shape, Linked, CtxLinked, Nodes, CtxNodes, Measure, Plug, Sibling, InOrder, Before, After;
    hide RedBlack, Balanced;
    var node, parent := node0, parent0;
    ghost var c, t, h := c0, t0, h0;
    ghost var mended := false;
    tree := Nil;
    ErasePointers(Snap(s), root.node, c, t, h, order);
    while (node == null || !node.red) && node != root.node
      invariant !mended && Erasing(Snap(s), root.node, c, t, h, order)
      invariant node == RootOf(t) && parent == ParentAt(c, null)
      decreases Measure(c, t)
    {
      ErasePointers(Snap(s), root.node, c, t, h, order);
      var done: bool;
      if parent.left == node {
        done, node, parent, c, t, h, tree := EraseLeftSide(node, parent, root, s, c, t, h, order);
      } else {
        done, node, parent, c, t, h, tree := EraseRightSide(node, parent, root, s, c, t, h, order);
      }
      if done {
        mended := true;
        break;
      }
    }
    if !mended { ErasePointers(Snap(s), root.node, c, t, h, order); }
    tree := EraseFinish(node, root, s, mended, tree, c, t, h, order);
  }

  // ---------------------------------------------------------------- rb_erase

  /** `m'` is `m` without node `x`, whose place its only child has taken. */
  ghost predicate Spliced<T>(m: Store<T>, m': Store<T>, x: Node<T>, child: Node?<T>)
    requires x in m
  {
    var p := m[x].parent;
    m'.Keys == m.Keys - {x} &&
    forall n :: n in m && n != x ==> m'[n] == Links(
      if n == child then p else m[n].parent, m[n].red,
      if n == p && m[n].left == x then child else m[n].left,
      if n == p && m[n].left != x then child else m[n].right)
  }

  lemma {:induction false} SpliceShape<T>(m: Store<T>, m': Store<T>, top: Node?<T>, c: Ctx<T>, t: Tree<T>,
                              child: Tree<T>)
    requires Shape(m, top, c, t) && t.Bin? && t.node in m
    requires (t.left == Nil && child == t.right) || (t.right == Nil && child == t.left)
    requires Spliced(m, m', t.node, RootOf(child))
    ensures Shape(m', if m[t.node].parent == null then RootOf(child) else top, c, child)
    ensures CtxNodes(c) + Nodes(child) == CtxNodes(c) + Nodes(t) - {t.node}
  {
    hide Spliced;
    assert Nodes(t) == Nodes(child) + {t.node} && t.node !in Nodes(child);
    assert child.Bin? ==> child.node in Nodes(child);
    assert Linked(m, child, t.node) && Distinct(child);
    SplicedChild(m, m', c, t, child);
    CtxKeys(m, c, t.node, top, null);
    assert c.InRight? ==> m[c.node].left != t.node by {
      assert c.InRight? && c.left.Bin? ==> c.left.node in Nodes(c.left);
    }
    SplicedCtx(m, m', c, t, child);
    HoleSet(m, m', c, t.node, RootOf(child), top, null);
  }

  lemma {:induction false} SplicedChild<T>(m: Store<T>, m': Store<T>, c: Ctx<T>, t: Tree<T>, child: Tree<T>)
    requires t.Bin? && t.node in m && Linked(m, child, t.node) && Distinct(child) && t.node !in Nodes(child)
    requires m[t.node].parent !in Nodes(child)
    requires Spliced(m, m', t.node, RootOf(child))
    ensures Linked(m', child, m[t.node].parent)
  {
    LinkedKeys(m, child, t.node);
    Reparented(m, m', child, t.node, m[t.node].parent);
  }

  lemma {:induction false} SplicedCtx<T>(m: Store<T>, m': Store<T>, c: Ctx<T>, t: Tree<T>, child: Tree<T>)
    requires t.Bin? && t.node in m && t.node !in CtxNodes(c) && RootOf(child) !in CtxNodes(c)
    requires CtxDistinct(c) && m[t.node].parent == ParentAt(c, null)
    requires CtxNodes(c) <= m.Keys
    requires Spliced(m, m', t.node, RootOf(child))
    requires c.InLeft? ==> m[c.node].left == t.node
    requires c.InRight? ==> m[c.node].left != t.node
    ensures forall n :: n in CtxNodes(c) && n != c.node ==> n in m' && m'[n] == m[n]
    ensures !c.Top? ==> c.node in m'
    ensures c.InLeft? ==> m'[c.node] == m[c.node].(left := RootOf(child))
    ensures c.InRight? ==> m'[c.node] == m[c.node].(right := RootOf(child))
  {
  }

  /** Replacing the node `x` by `y`, which takes over all of its links. */
  ghost function Renamed<T>(p: Node?<T>, x: Node<T>, y: Node<T>): Node?<T> {
    if p == x then y else p
  }

  ghost predicate Replaced<T>(m: Store<T>, m': Store<T>, x: Node<T>, y: Node<T>) {
    m'.Keys == m.Keys - {x} + {y} &&
    (x in m ==>
      m'[y] == Links(Renamed(m[x].parent, x, y), m[x].red, Renamed(m[x].left, x, y), Renamed(m[x].right, x, y))) &&
    forall n :: n in m && n != x && n != y ==>
      m'[n] == Links(Renamed(m[n].parent, x, y), m[n].red, Renamed(m[n].left, x, y), Renamed(m[n].right, x, y))
  }

  ghost function RenameCtx<T>(c: Ctx<T>, x: Node<T>, y: Node<T>): Ctx<T> {
    match c
    case Top => Top
    case InLeft(up, n, red, r) => InLeft(RenameCtx(up, x, y), if n == x then y else n, red, r)
    case InRight(up, l, n, red) => InRight(RenameCtx(up, x, y), l, if n == x then y else n, red)
  }

  lemma {:induction false} RenamedTree<T>(m: Store<T>, m': Store<T>, t: Tree<T>, p: Node?<T>, x: Node<T>, y: Node<T>)
    requires Linked(m, t, p) && Replaced(m, m', x, y) && x !in Nodes(t) && y !in Nodes(t)
    ensures Linked(m', t, Renamed(p, x, y))
  {
    if t.Bin? {
      assert t.left.Bin? ==> t.left.node in Nodes(t.left);
      assert t.right.Bin? ==> t.right.node in Nodes(t.right);
      RenamedTree(m, m', t.left, t.node, x, y);
      RenamedTree(m, m', t.right, t.node, x, y);
    }
  }

  /** The nodes on the path to the hole. */
  ghost function Spine<T>(c: Ctx<T>): set<Node<T>> {
    if c.Top? then {} else {c.node} + Spine(c.up)
  }

  lemma {:induction false} SpineNodes<T>(c: Ctx<T>)
    ensures Spine(c) <= CtxNodes(c)
  {
    if !c.Top? { SpineNodes(c.up); }
  }

  lemma {:induction false} RenamedCtx<T>(m: Store<T>, m': Store<T>, c: Ctx<T>, hole: Node?<T>, top: Node?<T>,
                              x: Node<T>, y: Node<T>)
    requires CtxLinked(m, c, hole, top, null) && CtxDistinct(c) && Replaced(m, m', x, y) && y !in CtxNodes(c)
    requires x in CtxNodes(c) ==> x in Spine(c)
    ensures CtxLinked(m', RenameCtx(c, x, y), Renamed(hole, x, y), Renamed(top, x, y), null)
    ensures ParentAt(RenameCtx(c, x, y), null) == Renamed(ParentAt(c, null), x, y)
  {
    if !c.Top? {
      var w := Sibling(c);
      SpineNodes(c.up);
      assert x !in Nodes(w) && y !in Nodes(w);
      assert w.Bin? ==> w.node in Nodes(w);
      RenamedTree(m, m', w, c.node, x, y);
      RenamedCtx(m, m', c.up, c.node, top, x, y);
    }
  }

  lemma {:induction false} RenamedCtxNodes<T>(c: Ctx<T>, x: Node<T>, y: Node<T>)
    requires CtxDistinct(c) && y !in CtxNodes(c) && (x in CtxNodes(c) ==> x in Spine(c))
    ensures CtxDistinct(RenameCtx(c, x, y))
    ensures CtxNodes(RenameCtx(c, x, y)) == if x in Spine(c) then CtxNodes(c) - {x} + {y} else CtxNodes(c)
  {
    if !c.Top? {
      SpineNodes(c.up);
      RenamedCtxNodes(c.up, x, y);
    }
  }

  lemma {:induction false} RenamedCtxBalanced<T>(c: Ctx<T>, x: Node<T>, y: Node<T>, h: nat)
    requires CtxBalanced(c, h)
    ensures CtxBalanced(RenameCtx(c, x, y), h)
  {
    if !c.Top? { RenamedCtxBalanced(c.up, x, y, if c.red then h else h + 1); }
  }

  lemma {:induction false} RenamedShape<T>(m: Store<T>, m': Store<T>, top: Node?<T>, c: Ctx<T>, t: Tree<T>,
                              x: Node<T>, y: Node<T>)
    requires Shape(m, top, c, t) && Replaced(m, m', x, y) && x in Spine(c) && y !in CtxNodes(c) + Nodes(t)
    ensures Shape(m', Renamed(top, x, y), RenameCtx(c, x, y), t)
    ensures CtxNodes(RenameCtx(c, x, y)) + Nodes(t) == CtxNodes(c) + Nodes(t) - {x} + {y}
  {
    SpineNodes(c);
    assert t.Bin? ==> t.node in Nodes(t);
    hide CtxNodes, CtxDistinct, Distinct, Replaced, CtxLinked, Linked, RenameCtx;
    RenamedTree(m, m', t, ParentAt(c, null), x, y);
    RenamedCtx(m, m', c, RootOf(t), top, x, y);
    RenamedCtxNodes(c, x, y);
  }

  ghost function SplicedStore<T>(m: Store<T>, x: Node<T>, child: Node?<T>): (m': Store<T>)
    requires x in m
    ensures Spliced(m, m', x, child)
  {
    var p := m[x].parent;
    map n | n in m && n != x :: Links(
      if n == child then p else m[n].parent, m[n].red,
      if n == p && m[n].left == x then child else m[n].left,
      if n == p && m[n].left != x then child else m[n].right)
  }

  lemma {:induction false} NoReference<T>(m: Store<T>, t: Tree<T>, p: Node?<T>, x: Node<T>)
    requires Linked(m, t, p) && x !in Nodes(t)
    ensures forall n :: n in Nodes(t) && n in m ==>
      m[n].left != x && m[n].right != x && (n != t.node ==> m[n].parent != x)
  {
    if t.Bin? {
      assert t.left.Bin? ==> t.left.node in Nodes(t.left);
      assert t.right.Bin? ==> t.right.node in Nodes(t.right);
      NoReference(m, t.left, t.node, x);
      NoReference(m, t.right, t.node, x);
    }
  }

  lemma {:induction false} NoCtxReference<T>(m: Store<T>, c: Ctx<T>, hole: Node?<T>, top: Node?<T>, x: Node<T>)
    requires CtxLinked(m, c, hole, top, null) && x !in CtxNodes(c)
    ensures forall n :: n in CtxNodes(c) && n in m ==>
      m[n].parent != x && (n != c.node ==> m[n].left != x && m[n].right != x)
    decreases c
  {
    if !c.Top? {
      var w := Sibling(c);
      assert w.Bin? ==> w.node in Nodes(w) && m[w.node].parent == c.node;
      NoReference(m, w, c.node, x);
      NoCtxReference(m, c.up, c.node, top, x);
    }
  }

  /** The only pointers to `x` are those of its parent and its children. */
  ghost predicate OwnReferences<T>(m: Store<T>, x: Node<T>) {
    x in m &&
    forall n :: n in m ==>
      (m[n].parent == x ==> n == m[x].left || n == m[x].right) &&
      (m[n].left == x || m[n].right == x ==> n == m[x].parent) &&
      !(m[n].left == x && m[n].right == x)
  }

  lemma {:induction false} References<T>(m: Store<T>, top: Node?<T>, c: Ctx<T>, t: Tree<T>)
    requires Shape(m, top, c, t) && t.Bin? && m.Keys == CtxNodes(c) + Nodes(t)
    ensures OwnReferences(m, t.node)
    ensures m[t.node] == Links(ParentAt(c, null), t.red, RootOf(t.left), RootOf(t.right))
  {
    NoReference(m, t.left, t.node, t.node);
    NoReference(m, t.right, t.node, t.node);
    NoCtxReference(m, c, t.node, top, t.node);
    if !c.Top? {
      var w := Sibling(c);
      assert w.Bin? ==> w.node in Nodes(w);
    }
    assert t.left.Bin? ==> t.left.node in Nodes(t.left);
    assert t.right.Bin? ==> t.right.node in Nodes(t.right);
    assert Nodes(t) == Nodes(t.left) + {t.node} + Nodes(t.right);
  }

  // The pointer steps of rb_erase

  /** A node with at most one child: unlink it from its parent and child. */
  method SpliceOut<T>(node: Node<T>, child: Node?<T>, root: Root<T>, ghost s: set<Node<T>>)
    returns (parent: Node?<T>, red: bool)
    requires node in s && OwnReferences(Snap(s), node)
    requires child != null ==> child in s && child != node && child != node.parent
    requires node.parent != null ==>
      node.parent in s && node.parent != node && (node.parent.left == node || node.parent.right == node)
    modifies root`node, s`left, s`right, s`parent
    ensures Spliced(old(Snap(s)), Snap(s - {node}), node, child)
    ensures root.node == if old(node.parent) == null then child else old(root.node)
    ensures parent == old(node.parent) && red == old(node.red)
  {
    parent := node.parent;
    red := node.red;
    if child != null {
      child.parent := parent;
    }
    if parent != null {
      if parent.left == node {
        parent.left := child;
      } else {
        parent.right := child;
      }
    } else {
      root.node := child;
    }
  }

  /** `victim` has two children and `node` is the leftmost node of its right
      subtree. */
  ghost predicate Successor<T>(m: Store<T>, victim: Node<T>, node: Node<T>) {
    victim in m && node in m && OwnReferences(m, victim) && OwnReferences(m, node) && victim != node &&
    m[victim].left != null && m[victim].right != null && m[victim].left != m[victim].right && m[victim].left != node &&
    m[victim].left in m && m[m[victim].left].parent == victim &&
    m[victim].right in m && m[m[victim].right].parent == victim &&
    (m[victim].parent != null ==>
      m[victim].parent in m &&
      m[victim].parent !in {victim, node, m[victim].left, m[victim].right, m[node].parent, m[node].right} &&
      (m[m[victim].parent].left == victim || m[m[victim].parent].right == victim)) &&
    m[node].left == null && m[node].parent != null && m[node].parent in m &&
    m[node].parent !in {node, m[victim].left, m[node].right} &&
    (m[node].right != null ==> m[node].right in m && m[m[node].right].parent == node) &&
    (m[node].parent == victim ==> m[victim].right == node) &&
    (m[node].parent != victim ==> m[m[node].parent].left == node)
  }

  /** Make the parent of `victim` (or the root) point to `node` instead. */
  method RelinkParent<T>(victim: Node<T>, node: Node<T>, root: Root<T>, ghost s: set<Node<T>>)
    requires victim in s && (victim.parent != null ==> victim.parent in s && victim.parent != victim)
    modifies root`node, s`left, s`right
    ensures Snap(s) == SlotSet(old(Snap(s)), victim, node)
    ensures root.node == if old(victim.parent) == null then node else old(root.node)
  {
    if victim.parent != null {
      if victim.parent.left == victim {
        victim.parent.left := node;
      } else {
        victim.parent.right := node;
      }
    } else {
      root.node := node;
    }
  }

  ghost function SlotSet<T>(m: Store<T>, x: Node<T>, y: Node<T>): Store<T>
    requires x in m && (m[x].parent != null ==> m[x].parent in m)
  {
    var up := m[x].parent;
    if up == null then m
    else m[up := if m[up].left == x then m[up].(left := y) else m[up].(right := y)]
  }

  /** Unlink the successor from its parent and its child. */
  method CutSuccessor<T>(parent: Node<T>, child: Node?<T>, ghost s: set<Node<T>>)
    requires parent in s && (child != null ==> child in s && child != parent)
    modifies s`left, s`parent
    ensures Snap(s) == Cut(old(Snap(s)), parent, child)
  {
    if child != null {
      child.parent := parent;
    }
    parent.left := child;
  }

  ghost function Cut<T>(m: Store<T>, parent: Node<T>, child: Node?<T>): Store<T>
    requires parent in m && (child != null ==> child in m)
  {
    var m1 := m[parent := m[parent].(left := child)];
    if child == null then m1 else m1[child := m[child].(parent := parent)]
  }

  /** `node` takes over the right subtree of `victim`. */
  method TakeRight<T>(victim: Node<T>, node: Node<T>, ghost s: set<Node<T>>)
    requires victim in s && node in s && victim.right != null && victim.right in s && victim != node
    requires victim.right != node
    modifies s`right, s`parent
    ensures Snap(s) == RightTaken(old(Snap(s)), victim, node)
  {
    node.right := victim.right;
    victim.right.parent := node;
  }

  ghost function RightTaken<T>(m: Store<T>, victim: Node<T>, node: Node<T>): Store<T>
    requires victim in m && node in m && m[victim].right != null && m[victim].right in m
  {
    var r := m[victim].right;
    m[node := m[node].(right := r)][r := m[r].(parent := node)]
  }

  ghost function Detached<T>(m: Store<T>, victim: Node<T>, node: Node<T>, parent: Node<T>,
                             child: Node?<T>): (m': Store<T>)
    requires victim in m && node in m && parent in m && m[victim].right != null && m[victim].right in m
    requires child != null ==> child in m
    requires victim != parent && victim != child
    ensures m'.Keys == m.Keys
    ensures victim !in {node, m[victim].right} ==> m'[victim] == m[victim]
  {
    RightTaken(Cut(m, parent, child), victim, node)
  }

  /** The successor is not a child of `victim`: unlink it, and let it take over
      the right subtree of `victim`. */
  method DetachSuccessor<T>(victim: Node<T>, node: Node<T>, parent: Node<T>, child: Node?<T>, ghost s: set<Node<T>>)
    requires victim in s && node in s && parent in s && victim.right != null && victim.right in s
    requires child != null ==> child in s && child !in {node, parent, victim.right}
    requires node !in {parent, victim.right, victim} && victim !in {victim.right, parent, child}
    modifies s`left, s`right, s`parent
    ensures Snap(s) == Detached(old(Snap(s)), victim, node, parent, child)
  {
    ghost var m := Snap(s);
    CutSuccessor(parent, child, s);
    assert Snap(s)[victim] == m[victim];
    hide Cut;
    TakeRight(victim, node, s);
  }

  /** `node` takes over the parent, colour and left subtree of `victim`. */
  method TakePlace<T>(victim: Node<T>, node: Node<T>, ghost s: set<Node<T>>)
    requires victim in s && node in s && victim != node && victim.left != null && victim.left in s
    requires victim.left !in {victim, node}
    modifies s`left, s`parent, s`red
    ensures Snap(s) == PlaceTaken(old(Snap(s)), victim, node)
  {
    node.parent := victim.parent;
    node.red := victim.red;
    node.left := victim.left;
    victim.left.parent := node;
  }

  ghost function PlaceTaken<T>(m: Store<T>, victim: Node<T>, node: Node<T>): Store<T>
    requires victim in m && node in m && m[victim].left != null && m[victim].left in m
  {
    var o := m[victim];
    m[node := Links(o.parent, o.red, o.left, m[node].right)][o.left := m[o.left].(parent := node)]
  }

  lemma {:induction false} NearMoved<T>(m: Store<T>, victim: Node<T>, node: Node<T>)
    requires Successor(m, victim, node) && m[node].parent == victim
    ensures Replaced(SplicedStore(m, node, m[node].right),
                     PlaceTaken(SlotSet(m, victim, node), victim, node) - {victim}, victim, node)
  {
    var m1 := SplicedStore(m, node, m[node].right);
    var m' := PlaceTaken(SlotSet(m, victim, node), victim, node);
    forall n | n in m1 && n != victim
      ensures m'[n] == Links(Renamed(m1[n].parent, victim, node), m1[n].red,
                             Renamed(m1[n].left, victim, node), Renamed(m1[n].right, victim, node))
    {
    }
  }

  lemma {:induction false} DetachedAt<T>(m: Store<T>, victim: Node<T>, node: Node<T>, n: Node<T>)
    requires Successor(m, victim, node) && m[node].parent != victim && n in m && n != victim && n != node
    ensures var m1 := SplicedStore(m, node, m[node].right)[n];
      Detached(SlotSet(m, victim, node), victim, node, m[node].parent, m[node].right)[n]
        == Links(if n == m[victim].right then node else m1.parent, m1.red,
                 Renamed(m1.left, victim, node), Renamed(m1.right, victim, node))
  {
    var up, parent, child, r := m[victim].parent, m[node].parent, m[node].right, m[victim].right;
    assert r != up && r != child;
    if n == up {
    } else if n == parent {
    } else if n == child {
    } else if n == r {
    }
  }

  ghost function FarStore<T>(m: Store<T>, victim: Node<T>, node: Node<T>): Store<T>
    requires Successor(m, victim, node) && m[node].parent != victim
  {
    PlaceTaken(Detached(SlotSet(m, victim, node), victim, node, m[node].parent, m[node].right), victim, node)
  }

  lemma {:induction false} FarMovedAt<T>(m: Store<T>, victim: Node<T>, node: Node<T>, n: Node<T>)
    requires Successor(m, victim, node) && m[node].parent != victim && n in m && n != victim && n != node
    ensures var m1 := SplicedStore(m, node, m[node].right)[n];
      FarStore(m, victim, node)[n]
        == Links(Renamed(m1.parent, victim, node), m1.red,
                 Renamed(m1.left, victim, node), Renamed(m1.right, victim, node))
  {
    DetachedAt(m, victim, node, n);
  }

  lemma {:induction false} FarMovedNode<T>(m: Store<T>, victim: Node<T>, node: Node<T>)
    requires Successor(m, victim, node) && m[node].parent != victim
    ensures FarStore(m, victim, node).Keys == m.Keys
    ensures FarStore(m, victim, node)[node] == Links(m[victim].parent, m[victim].red, m[victim].left, m[victim].right)
    ensures SplicedStore(m, node, m[node].right)[victim] == m[victim]
  {
  }

  lemma {:induction false} FarMoved<T>(m: Store<T>, victim: Node<T>, node: Node<T>)
    requires Successor(m, victim, node) && m[node].parent != victim
    ensures Replaced(SplicedStore(m, node, m[node].right), FarStore(m, victim, node) - {victim}, victim, node)
  {
    hide FarStore, SplicedStore, OwnReferences;
    var m1 := SplicedStore(m, node, m[node].right);
    FarMovedNode(m, victim, node);
    forall n | n in m1 && n != victim
      ensures FarStore(m, victim, node)[n]
        == Links(Renamed(m1[n].parent, victim, node), m1[n].red,
                 Renamed(m1[n].left, victim, node), Renamed(m1[n].right, victim, node))
    {
      FarMovedAt(m, victim, node, n);
    }
  }

  lemma {:induction false} SnapMinus<T>(s: set<Node<T>>, x: Node<T>)
    ensures Snap(s - {x}) == Snap(s) - {x}
  {
  }

  /** Two children: move the successor `node` into the place of `victim`. */
  method MoveSuccessor<T>(victim: Node<T>, node: Node<T>, root: Root<T>, ghost s: set<Node<T>>)
    returns (child: Node?<T>, parent: Node<T>, red: bool)
    requires victim in s && node in s && Successor(Snap(s), victim, node)
    modifies root`node, s`left, s`right, s`parent, s`red
    ensures Replaced(SplicedStore(old(Snap(s)), node, old(node.right)), Snap(s - {victim}), victim, node)
    ensures root.node == if old(victim.parent) == null then node else old(root.node)
    ensures child == old(node.right) && red == old(node.red)
    ensures parent == if old(node.parent) == victim then node else old(node.parent)
  {
    hide SplicedStore, Replaced, Spliced, OwnReferences, Detached, Cut, RightTaken;
    ghost var m := Snap(s);
    RelinkParent(victim, node, root, s);
    assert Snap(s)[victim] == m[victim] && Snap(s)[node] == m[node];

    child := node.right;
    parent := node.parent;
    red := node.red;

    if parent == victim {
      NearMoved(m, victim, node);
      parent := node;
    } else {
      FarMoved(m, victim, node);
      DetachSuccessor(victim, node, parent, child, s);
    }

    TakePlace(victim, node, s);
    SnapMinus(s, victim);
  }

  // ---------------------------------------------------- finding the successor

  /** The path goes down to the right child of `c1`'s node and then only left. */
  ghost predicate LeftSpine<T>(c: Ctx<T>, c1: Ctx<T>) {
    c == c1 || (c.InLeft? && LeftSpine(c.up, c1))
  }

  /** The subtree at the hole of `c1` when the path continues to `c`. */
  ghost function SpineTree<T>(c: Ctx<T>, c1: Ctx<T>, t: Tree<T>): Tree<T>
    requires LeftSpine(c, c1)
  {
    if c == c1 then t else SpineTree(c.up, c1, Fill(c, t))
  }

  lemma {:induction false} SpineFacts<T>(c: Ctx<T>, c1: Ctx<T>, t: Tree<T>)
    requires LeftSpine(c, c1) && c1.InRight? && c1.node !in CtxNodes(c1.up) && CtxDistinct(c)
    ensures Nodes(t) <= Nodes(SpineTree(c, c1, t))
    ensures c != c1 ==> c.InLeft? && c.node in Nodes(SpineTree(c, c1, t))
    ensures c1.node in Spine(c) && CtxNodes(c1) <= CtxNodes(c)
    ensures Before(c) == Before(c1) && c1.node !in After(c)
    ensures forall y :: y !in CtxNodes(c) ==>
      Before(RenameCtx(c, c1.node, y)) == Before(RenameCtx(c1, c1.node, y)) &&
      After(RenameCtx(c, c1.node, y)) == After(c)
    ensures Plug(c, t) == Plug(c1, SpineTree(c, c1, t))
  {
    SideNodes(c1.up);
    forall y { RenameAbsent(c1.up, c1.node, y); }
    if c != c1 {
      SpineFacts(c.up, c1, Fill(c, t));
      InOrderNodes(c.right);
      assert c1.node !in InOrder(c.right);
    }
  }

  lemma {:induction false} RenameAbsent<T>(c: Ctx<T>, x: Node<T>, y: Node<T>)
    requires x !in CtxNodes(c)
    ensures RenameCtx(c, x, y) == c
  {
    if !c.Top? { RenameAbsent(c.up, x, y); }
  }

  /** The leftmost node of the right subtree of `t.node`, as the pointers show it. */
  lemma {:induction false} SuccessorFacts<T>(m: Store<T>, top: Node?<T>, c: Ctx<T>, t: Tree<T>, cc: Ctx<T>, f: Tree<T>)
    requires Shape(m, top, c, t) && t.Bin? && t.left.Bin? && t.right.Bin? && m.Keys == CtxNodes(c) + Nodes(t)
    requires Shape(m, top, cc, f) && f.Bin? && f.left.Nil? && m.Keys == CtxNodes(cc) + Nodes(f)
    requires LeftSpine(cc, InRight(c, t.left, t.node, t.red))
    requires SpineTree(cc, InRight(c, t.left, t.node, t.red), f) == t.right
    ensures Successor(m, t.node, f.node)
    ensures m[f.node].parent == ParentAt(cc, null) && m[f.node].red == f.red && m[f.node].right == RootOf(f.right)
    ensures m[t.node].parent == null <==> top == t.node
    ensures m[t.node].parent == ParentAt(c, null)
  {
    var c1 := InRight(c, t.left, t.node, t.red);
    References(m, top, c, t);
    References(m, top, cc, f);
    SuccessorTop(m, top, c, t);
    SuccessorParent(m, top, cc, c1, f);
    SuccessorApart(c, t, cc, f);
    assert Linked(m, t.left, t.node) && Linked(m, t.right, t.node) && Linked(m, f.right, f.node);
    hide Linked, CtxLinked, LeftSpine, SpineTree, OwnReferences, Nodes, CtxNodes, Distinct, CtxDistinct;
  }

  /** The nodes that the pointer steps touch are different. */
  lemma {:induction false} SuccessorApart<T>(c: Ctx<T>, t: Tree<T>, cc: Ctx<T>, f: Tree<T>)
    requires t.Bin? && t.left.Bin? && t.right.Bin? && CtxDistinct(c) && Distinct(t) && CtxNodes(c) !! Nodes(t)
    requires f.Bin? && CtxDistinct(cc) && Distinct(f) && CtxNodes(cc) !! Nodes(f)
    requires LeftSpine(cc, InRight(c, t.left, t.node, t.red))
    requires SpineTree(cc, InRight(c, t.left, t.node, t.red), f) == t.right
    ensures t.node !in {f.node, t.left.node, t.right.node, RootOf(f.right), ParentAt(c, null)}
    ensures t.left.node !in {f.node, t.right.node, RootOf(f.right), ParentAt(c, null), ParentAt(cc, null)}
    ensures ParentAt(c, null) != null ==>
      ParentAt(c, null) !in {f.node, t.right.node, RootOf(f.right), ParentAt(cc, null)}
    ensures f.node !in {ParentAt(cc, null), RootOf(f.right)} && ParentAt(cc, null) != null
    ensures ParentAt(cc, null) != RootOf(f.right)
  {
    var c1 := InRight(c, t.left, t.node, t.red);
    SpineFacts(cc, c1, f);
    assert t.left.node in Nodes(t.left) && t.right.node in Nodes(t.right) && f.node in Nodes(f);
    assert f.right.Bin? ==> f.right.node in Nodes(f.right);
  }

  lemma {:induction false} SuccessorTop<T>(m: Store<T>, top: Node?<T>, c: Ctx<T>, t: Tree<T>)
    requires Shape(m, top, c, t) && t.Bin?
    ensures c.Top? <==> top == t.node
    ensures !c.Top? ==> c.node in m && (m[c.node].left == t.node || m[c.node].right == t.node)
  {
    assert t.node in Nodes(t);
    if !c.Top? { TopInCtx(m, top, c, t.node); }
  }

  lemma {:induction false} SuccessorParent<T>(m: Store<T>, top: Node?<T>, cc: Ctx<T>, c1: Ctx<T>, f: Tree<T>)
    requires Shape(m, top, cc, f) && f.Bin? && LeftSpine(cc, c1) && c1.InRight?
    ensures cc == c1 ==> c1.node in m && m[c1.node].right == f.node
    ensures cc != c1 ==> cc.node in m && m[cc.node].left == f.node
  {
  }

  // ------------------------------------------------------------- the method

  /** After unlinking a node with black height `h`: done if it was red, and
      otherwise one black node short. */
  ghost predicate Unlinked<T>(m: Store<T>, top: Node?<T>, c: Ctx<T>, t: Tree<T>, red: bool, h: nat,
                              order: seq<Node<T>>) {
    if red then Mended(m, top, Plug(c, t), order)
    else h > 0 && Erasing(m, top, c, t, h - 1, order)
  }

  lemma {:induction false} UnlinkedBalance<T>(m: Store<T>, top: Node?<T>, c: Ctx<T>, t: Tree<T>, gone: Tree<T>, h: nat)
    requires Shape(m, top, c, t) && m.Keys == CtxNodes(c) + Nodes(t)
    requires gone.Bin? && Balanced(gone, h) && CtxBalanced(c, h) && (gone.red ==> !c.Top? && !c.red)
    requires (gone.left == Nil && t == gone.right) || (gone.right == Nil && t == gone.left)
    ensures Unlinked(m, top, c, t, gone.red, h, Before(c) + InOrder(t) + After(c))
  {
    if gone.red {
      Join(m, top, c, t);
      InOrderPlug(c, t);
      BalancedPlug(c, t, h);
    } else if IsRed(t) {
      assert Balanced(SetRed(t, false), h);
    }
  }

  lemma {:induction false} MiddleGone<X>(b: seq<X>, l: seq<X>, x: X, r: seq<X>, a: seq<X>)
    requires x !in b && x !in l && x !in r && x !in a
    ensures Without(b + (l + [x] + r) + a, x) == b + (l + r) + a
  {
    WithoutConcat(b + (l + [x] + r), a, x);
    WithoutConcat(b, l + [x] + r, x);
    WithoutMiddle(l, x, r);
    WithoutNone(b, x);
    WithoutNone(a, x);
  }

  lemma {:induction false} Shift<X>(b: seq<X>, y: X, r: seq<X>)
    ensures b + ([y] + r) == (b + [y]) + r
  {
  }

  lemma {:induction false} WithoutLast<X>(b: seq<X>, x: X)
    requires x !in b
    ensures Without(b + [x], x) == b
  {
    WithoutMiddle(b, x, []);
    assert b + [x] + [] == b + [x];
  }

  lemma {:induction false} TwoGone<X>(b: seq<X>, x: X, y: X, r: seq<X>, a: seq<X>)
    requires x !in b && x !in r && x !in a && x != y
    ensures Without((b + [x]) + ([y] + r) + a, x) == (b + [y]) + r + a
  {
    hide Without;
    WithoutConcat((b + [x]) + ([y] + r), a, x);
    WithoutConcat(b + [x], [y] + r, x);
    WithoutLast(b, x);
    WithoutNone([y] + r, x);
    WithoutNone(a, x);
    Shift(b, y, r);
  }

  lemma {:induction false} OneChildOrder<T>(c: Ctx<T>, t: Tree<T>, child: Tree<T>)
    requires t.Bin? && Distinct(t) && t.node !in CtxNodes(c)
    requires (t.left == Nil && child == t.right) || (t.right == Nil && child == t.left)
    ensures Before(c) + InOrder(child) + After(c) == Without(InOrder(Plug(c, t)), t.node)
  {
    InOrderPlug(c, t);
    SideNodes(c);
    InOrderNodes(child);
    assert InOrder(t) == InOrder(t.left) + [t.node] + InOrder(t.right);
    assert t.left == Nil ==> InOrder(t.left) == [];
    assert t.right == Nil ==> InOrder(t.right) == [];
    InOrderNodes(t.left);
    InOrderNodes(t.right);
    assert InOrder(t.left) + InOrder(t.right) == InOrder(child);
    hide Plug, InOrder, Before, After, Without;
    MiddleGone(Before(c), InOrder(t.left), t.node, InOrder(t.right), After(c));
  }

  /** The node has at most one child. */
  method EraseOneChild<T>(node: Node<T>, child: Node?<T>, root: Root<T>, ghost s: set<Node<T>>,
                          ghost c: Ctx<T>, ghost t: Tree<T>, ghost x: Tree<T>)
    returns (parent: Node?<T>, red: bool, ghost h: nat)
    requires Shape(Snap(s), root.node, c, t) && s == CtxNodes(c) + Nodes(t) && RedBlack(Plug(c, t))
    requires t.Bin? && t.node == node && child == RootOf(x)
    requires (t.left == Nil && x == t.right) || (t.right == Nil && x == t.left)
    modifies root`node, s`left, s`right, s`parent
    ensures parent == ParentAt(c, null)
    ensures Unlinked(Snap(s - {node}), root.node, c, x, red, h, Without(InOrder(Plug(c, t)), node))
  {
    hide RedBlack, Balanced, CtxBalanced, Plug, InOrder, Without;
    ghost var m, top := Snap(s), root.node;
    References(m, top, c, t);
    SuccessorTop(m, top, c, t);
    assert x.Bin? ==> x.node in Nodes(x);
    parent, red := SpliceOut(node, child, root, s);
    SpliceShape(m, Snap(s - {node}), top, c, t, x);
    h := Unplug(c, t);
    UnlinkedBalance(Snap(s - {node}), root.node, c, x, t, h);
    OneChildOrder(c, t, x);
  }

  /** The path as the sequences before and after it show it. */
  lemma {:induction false} SpineOrder<T>(c: Ctx<T>, t: Tree<T>, cc: Ctx<T>, f: Tree<T>)
    requires t.Bin? && f.Bin? && CtxDistinct(cc) && f.node !in CtxNodes(cc)
    requires t.node !in CtxNodes(c)
    requires LeftSpine(cc, InRight(c, t.left, t.node, t.red))
    requires SpineTree(cc, InRight(c, t.left, t.node, t.red), f) == t.right
    ensures Before(cc) == (Before(c) + InOrder(t.left)) + [t.node] && t.node !in After(cc)
    ensures Before(RenameCtx(cc, t.node, f.node)) == (Before(c) + InOrder(t.left)) + [f.node]
    ensures After(RenameCtx(cc, t.node, f.node)) == After(cc)
    ensures Plug(c, t) == Plug(cc, f) && t.node in CtxNodes(cc)
  {
    var c1 := InRight(c, t.left, t.node, t.red);
    SpineFacts(cc, c1, f);
    RenameAbsent(c, t.node, f.node);
    assert Fill(c1, t.right) == t;
    assert Plug(c1, t.right) == Plug(c, t);
  }

  lemma {:induction false} TwoChildrenOrder<T>(c: Ctx<T>, t: Tree<T>, cc: Ctx<T>, f: Tree<T>)
    requires t.Bin? && f.Bin? && f.left.Nil? && CtxDistinct(cc) && Distinct(f) && CtxNodes(cc) !! Nodes(f)
    requires t.node !in CtxNodes(c) + Nodes(t.left)
    requires LeftSpine(cc, InRight(c, t.left, t.node, t.red))
    requires SpineTree(cc, InRight(c, t.left, t.node, t.red), f) == t.right
    ensures var d := RenameCtx(cc, t.node, f.node);
      Before(d) + InOrder(f.right) + After(d) == Without(InOrder(Plug(c, t)), t.node)
  {
    FocusFacts(c, t, f);
    SpineOrder(c, t, cc, f);
    InOrderPlug(cc, f);
    hide Plug, InOrder, Before, After, Without, RenameCtx, LeftSpine, SpineTree, CtxDistinct, Distinct, Nodes, CtxNodes;
    TwoGone(Before(c) + InOrder(t.left), t.node, f.node, InOrder(f.right), After(cc));
  }

  lemma {:induction false} FocusFacts<T>(c: Ctx<T>, t: Tree<T>, f: Tree<T>)
    requires t.Bin? && f.Bin? && f.left.Nil?
    ensures InOrder(f) == [f.node] + InOrder(f.right) && f.node in Nodes(f)
    ensures t.node !in CtxNodes(c) + Nodes(t.left) ==> t.node !in Before(c) + InOrder(t.left)
    ensures t.node !in Nodes(f) ==> t.node !in InOrder(f.right) && t.node != f.node
  {
    SideNodes(c);
    InOrderNodes(t.left);
    InOrderNodes(f.right);
    assert InOrder(f.left) == [];
  }

  lemma {:induction false} NodeFacts<T>(m: Store<T>, top: Node?<T>, c: Ctx<T>, t: Tree<T>)
    requires Shape(m, top, c, t)
    ensures t.Bin? ==> t.node in m && m[t.node].left == RootOf(t.left) && m[t.node].right == RootOf(t.right)
  {
  }

  /** One step to the left. */
  lemma {:induction false} StepLeft<T>(m: Store<T>, top: Node?<T>, c: Ctx<T>, t: Tree<T>, c1: Ctx<T>)
    requires Shape(m, top, c, t) && t.Bin? && m.Keys == CtxNodes(c) + Nodes(t) && LeftSpine(c, c1)
    ensures Shape(m, top, InLeft(c, t.node, t.red, t.right), t.left)
    ensures m.Keys == CtxNodes(InLeft(c, t.node, t.red, t.right)) + Nodes(t.left)
    ensures LeftSpine(InLeft(c, t.node, t.red, t.right), c1)
    ensures InLeft(c, t.node, t.red, t.right) != c1 ==>
      SpineTree(InLeft(c, t.node, t.red, t.right), c1, t.left) == SpineTree(c, c1, t)
  {
    Climb(m, top, InLeft(c, t.node, t.red, t.right), t.left);
  }

  /** The leftmost node of the right subtree. */
  method FindSuccessor<T>(victim: Node<T>, ghost top: Node?<T>, ghost s: set<Node<T>>, ghost c: Ctx<T>,
                          ghost t: Tree<T>)
    returns (node: Node<T>, ghost cc: Ctx<T>, ghost f: Tree<T>)
    requires Shape(Snap(s), top, c, t) && s == CtxNodes(c) + Nodes(t)
    requires t.Bin? && t.node == victim && t.right.Bin?
    ensures node in s && f.Bin? && node == f.node && f.left.Nil?
    ensures Shape(Snap(s), top, cc, f) && CtxNodes(cc) + Nodes(f) == s
    ensures LeftSpine(cc, InRight(c, t.left, victim, t.red))
    ensures SpineTree(cc, InRight(c, t.left, victim, t.red), f) == t.right
  {
    hide Shape, CtxNodes, Nodes;
    ghost var m := Snap(s);
    ghost var c1 := InRight(c, t.left, victim, t.red);
    cc, f := c1, t.right;
    NodeFacts(m, top, c, t);
    Climb(m, top, c1, t.right);

    node := victim.right;
    NodeFacts(m, top, cc, f);
    var left := node.left;
    while left != null
      invariant f.Bin? && node == f.node && node in s && left == RootOf(f.left)
      invariant Shape(m, top, cc, f) && CtxNodes(cc) + Nodes(f) == s
      invariant LeftSpine(cc, c1) && SpineTree(cc, c1, f) == t.right
      decreases f
    {
      node := left;
      StepLeft(m, top, cc, f, c1);
      LeftSpineNew(cc, c1, f);
      cc, f := InLeft(cc, f.node, f.red, f.right), f.left;
      NodeFacts(m, top, cc, f);
      left := node.left;
    }
  }

  lemma {:induction false} LeftSpineNew<T>(c: Ctx<T>, c1: Ctx<T>, t: Tree<T>)
    requires t.Bin? && c1.InRight?
    ensures InLeft(c, t.node, t.red, t.right) != c1
  {
  }

  /** The shape after MoveSuccessor. */
  lemma {:induction false} MoveShape<T>(m: Store<T>, m': Store<T>, top: Node?<T>, c: Ctx<T>, t: Tree<T>,
                              cc: Ctx<T>, f: Tree<T>) returns (h: nat)
    requires Shape(m, top, c, t) && t.Bin? && t.left.Bin? && t.right.Bin? && m.Keys == CtxNodes(c) + Nodes(t)
    requires Shape(m, top, cc, f) && f.Bin? && f.left.Nil? && m.Keys == CtxNodes(cc) + Nodes(f)
    requires LeftSpine(cc, InRight(c, t.left, t.node, t.red))
    requires SpineTree(cc, InRight(c, t.left, t.node, t.red), f) == t.right
    requires RedBlack(Plug(c, t)) && f.node in m
    requires Replaced(SplicedStore(m, f.node, RootOf(f.right)), m', t.node, f.node)
    ensures ParentAt(RenameCtx(cc, t.node, f.node), null) == Renamed(ParentAt(cc, null), t.node, f.node)
    ensures Unlinked(m', Renamed(top, t.node, f.node), RenameCtx(cc, t.node, f.node), f.right, f.red, h,
                     Without(InOrder(Plug(c, t)), t.node))
  {
    hide Balanced, CtxBalanced, Linked, CtxLinked, Without, InOrder, RedBlack;
    var c1 := InRight(c, t.left, t.node, t.red);
    var x, y := t.node, f.node;
    var m1 := SplicedStore(m, y, RootOf(f.right));
    SpineFacts(cc, c1, f);
    SpineOrder(c, t, cc, f);
    SuccessorFacts(m, top, c, t, cc, f);
    SpliceShape(m, m1, top, cc, f, f.right);
    RenamedShape(m1, m', top, cc, f.right, x, y);
    h := Unplug(cc, f);
    RenamedCtxBalanced(cc, x, y, h);
    UnlinkedBalance(m', Renamed(top, x, y), RenameCtx(cc, x, y), f.right, f, h);
    TwoChildrenOrder(c, t, cc, f);
  }

  /** The node has two children. */
  method EraseTwoChildren<T>(victim: Node<T>, root: Root<T>, ghost s: set<Node<T>>, ghost c: Ctx<T>, ghost t: Tree<T>)
    returns (child: Node?<T>, parent: Node?<T>, red: bool, ghost c': Ctx<T>, ghost x: Tree<T>, ghost h: nat)
    requires Shape(Snap(s), root.node, c, t) && s == CtxNodes(c) + Nodes(t) && RedBlack(Plug(c, t))
    requires t.Bin? && t.node == victim && t.left.Bin? && t.right.Bin?
    modifies root`node, s`left, s`right, s`parent, s`red
    ensures parent == ParentAt(c', null) && child == RootOf(x)
    ensures Unlinked(Snap(s - {victim}), root.node, c', x, red, h, Without(InOrder(Plug(c, t)), victim))
  {
    hide RedBlack, Plug, InOrder, Without, Shape, CtxNodes, Nodes, RenameCtx, SpineTree, LeftSpine, Successor;
    hide Replaced, SplicedStore, Unlinked;
    ghost var m, top := Snap(s), root.node;
    ghost var cc, f;
    var node;
    node, cc, f := FindSuccessor(victim, top, s, c, t);
    SuccessorFacts(m, top, c, t, cc, f);
    NodeFacts(m, top, c, t);
    child, parent, red := MoveSuccessor(victim, node, root, s);
    h := MoveShape(m, Snap(s - {victim}), top, c, t, cc, f);
    c', x := RenameCtx(cc, victim, node), f.right;
  }

  method Erase<T>(node: Node<T>, root: Root<T>)
    requires root.Valid() && node in Nodes(root.tree)
    modifies root, Nodes(root.tree)`left, Nodes(root.tree)`right, Nodes(root.tree)`parent, Nodes(root.tree)`red
    ensures root.Valid()
    ensures InOrder(root.tree) == Without(old(InOrder(root.tree)), node)
    ensures Nodes(root.tree) == old(Nodes(root.tree)) - {node}
  {
    hide RedBlack, Plug, InOrder, Without, Shape, CtxNodes, Nodes, Mended, Erasing;
    ghost var s := Nodes(root.tree);
    ghost var c, t := Locate(Top, root.tree, node);
    assert Plug(Top, root.tree) == root.tree by { PlugTop(root.tree); }
    Unjoin(Snap(s), root.node, c, t);
    NodeFacts(Snap(s), root.node, c, t);

    var child: Node?<T>, parent: Node?<T>, red: bool;
    ghost var c', x, h;
    if node.left == null {
      child := node.right;
      c', x := c, t.right;
      parent, red, h := EraseOneChild(node, child, root, s, c, t, x);
    } else if node.right == null {
      child := node.left;
      c', x := c, t.left;
      parent, red, h := EraseOneChild(node, child, root, s, c, t, x);
    } else {
      child, parent, red, c', x, h := EraseTwoChildren(node, root, s, c, t);
    }

    ghost var tree := Plug(c', x);
    if !red {
      tree := EraseColor(child, parent, root, s - {node}, c', x, h - 1, Without(old(InOrder(root.tree)), node));
    }
    MendedFacts(Snap(s - {node}), root.node, tree, Without(old(InOrder(root.tree)), node));
    assert Snap(s - {node}).Keys == s - {node};
    root.tree := tree;
  }

  lemma {:induction false} PlugTop<T>(t: Tree<T>)
    ensures Plug(Top, t) == t
  {
  }

  lemma {:induction false} MendedFacts<T>(m: Store<T>, top: Node?<T>, t: Tree<T>, order: seq<Node<T>>)
    requires Mended(m, top, t, order)
    ensures Shape(m, top, Top, t) && m.Keys == Nodes(t) && InOrder(t) == order && RedBlack(t)
  {
  }
}
