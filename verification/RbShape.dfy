/**
 The intrusive red-black tree of src/rbtree.c: nodes with parent pointers, a
 root cell, and iterative insert and erase fix-ups that rewrite the links in
 place.

 `Tree` and `Ctx` are the ghost view of the links.  A `Ctx` is a path from the
 root down to a hole, so a loop that moves `node` and `parent` up the tree is a
 loop that moves a (context, subtree) pair.
 */
module RbShape {
  import opened Sequences

  /** struct rb_node embedded in a container; `item` stands for the container's
      own fields.  The packed `rb_parent_color` word is split in two. */
  class Node<T> {
    var parent: Node?<T>
    var red: bool
    var right: Node?<T>
    var left: Node?<T>
    var item: T

    /** RB_NODE followed by RB_CLEAR_NODE: black, no children, own parent. */
    constructor (item: T)
      ensures parent == this && !red && left == null && right == null
      ensures this.item == item
    {
      this.item := item;
      parent := this;
      red := false;
      left := null;
      right := null;
    }
  }

  datatype Tree<!T> = Nil | Bin(left: Tree<T>, node: Node<T>, red: bool, right: Tree<T>)

  datatype Ctx<!T> =
    | Top
    | InLeft(up: Ctx<T>, node: Node<T>, red: bool, right: Tree<T>)
    | InRight(up: Ctx<T>, left: Tree<T>, node: Node<T>, red: bool)

  // ---------------------------------------------------------------- shape

  ghost function Nodes<T>(t: Tree<T>): set<Node<T>> {
    match t
    case Nil => {}
    case Bin(l, n, _, r) => Nodes(l) + {n} + Nodes(r)
  }

  ghost function CtxNodes<T>(c: Ctx<T>): set<Node<T>> {
    match c
    case Top => {}
    case InLeft(up, n, _, r) => CtxNodes(up) + {n} + Nodes(r)
    case InRight(up, l, n, _) => CtxNodes(up) + {n} + Nodes(l)
  }

  /** No node occurs twice. */
  ghost predicate Distinct<T>(t: Tree<T>) {
    match t
    case Nil => true
    case Bin(l, n, _, r) =>
      n !in Nodes(l) && n !in Nodes(r) && Nodes(l) !! Nodes(r) && Distinct(l) && Distinct(r)
  }

  ghost predicate CtxDistinct<T>(c: Ctx<T>) {
    match c
    case Top => true
    case InLeft(up, n, _, r) =>
      n !in CtxNodes(up) && n !in Nodes(r) && CtxNodes(up) !! Nodes(r) && CtxDistinct(up) && Distinct(r)
    case InRight(up, l, n, _) =>
      n !in CtxNodes(up) && n !in Nodes(l) && CtxNodes(up) !! Nodes(l) && CtxDistinct(up) && Distinct(l)
  }

  ghost function Plug<T>(c: Ctx<T>, t: Tree<T>): Tree<T> {
    match c
    case Top => t
    case InLeft(up, n, red, r) => Plug(up, Bin(t, n, red, r))
    case InRight(up, l, n, red) => Plug(up, Bin(l, n, red, t))
  }

  ghost function Depth<T>(c: Ctx<T>): nat {
    if c.Top? then 0 else 1 + Depth(c.up)
  }

  ghost function RootOf<T>(t: Tree<T>): Node?<T> {
    if t.Nil? then null else t.node
  }

  /** The node whose child the hole of `c` is; `p` when `c` is empty. */
  ghost function ParentAt<T>(c: Ctx<T>, p: Node?<T>): Node?<T> {
    if c.Top? then p else c.node
  }

  // -------------------------------------------------- links realise a shape

  /** The link words of one node. */
  datatype Links<!T> = Links(parent: Node?<T>, red: bool, left: Node?<T>, right: Node?<T>)

  /** A snapshot of the links of some nodes. */
  type Store<!T> = map<Node<T>, Links<T>>

  ghost function Snap<T>(s: set<Node<T>>): Store<T>
    reads s
  {
    map n | n in s :: Links(n.parent, n.red, n.left, n.right)
  }

  ghost predicate Linked<T>(m: Store<T>, t: Tree<T>, p: Node?<T>) {
    match t
    case Nil => true
    case Bin(l, n, red, r) =>
      n in m && m[n] == Links(p, red, RootOf(l), RootOf(r)) && Linked(m, l, n) && Linked(m, r, n)
  }

  /** The frames of `c` hang below `p`; `top` is the pointer to the first of
      them and `hole` the pointer stored at the hole. */
  ghost predicate CtxLinked<T>(m: Store<T>, c: Ctx<T>, hole: Node?<T>, top: Node?<T>, p: Node?<T>) {
    match c
    case Top => hole == top
    case InLeft(up, n, red, r) =>
      n in m && m[n] == Links(ParentAt(up, p), red, hole, RootOf(r)) &&
      Linked(m, r, n) && CtxLinked(m, up, n, top, p)
    case InRight(up, l, n, red) =>
      n in m && m[n] == Links(ParentAt(up, p), red, RootOf(l), hole) &&
      Linked(m, l, n) && CtxLinked(m, up, n, top, p)
  }

  /** The links in `m` below the root pointer `top` form `Plug(c, t)`. */
  ghost predicate Shape<T>(m: Store<T>, top: Node?<T>, c: Ctx<T>, t: Tree<T>) {
    CtxDistinct(c) && Distinct(t) && CtxNodes(c) !! Nodes(t) &&
    CtxLinked(m, c, RootOf(t), top, null) && Linked(m, t, ParentAt(c, null))
  }

  /** struct rb_root, with the shape its links realise. */
  class Root<T> {
    var node: Node?<T>
    ghost var tree: Tree<T>

    /** RB_ROOT */
    constructor ()
      ensures Valid() && tree == Nil
    {
      node := null;
      tree := Nil;
    }

    /** The links below the root form `tree`, and it is a red-black tree. */
    ghost predicate Valid()
      reads this, Nodes(tree)
    {
      Shape(Snap(Nodes(tree)), node, Top, tree) && RedBlack(tree)
    }
  }

  // ---------------------------------------------------- red-black invariants

  ghost predicate IsRed<T>(t: Tree<T>) {
    t.Bin? && t.red
  }

  /** Every path down has `h` black nodes and no red node has a red child. */
  ghost predicate Balanced<T>(t: Tree<T>, h: nat) {
    match t
    case Nil => h == 0
    case Bin(l, _, red, r) =>
      if red then Balanced(l, h) && Balanced(r, h) && !IsRed(l) && !IsRed(r)
      else h > 0 && Balanced(l, h - 1) && Balanced(r, h - 1)
  }

  ghost predicate RedBlack<T>(t: Tree<T>) {
    !IsRed(t) && Balanced(t, BlackHeight(t))
  }

  ghost function BlackHeight<T>(t: Tree<T>): nat {
    if t.Nil? then 0 else BlackHeight(t.left) + if t.red then 0 else 1
  }

  lemma {:induction false} BalancedHeight<T>(t: Tree<T>, h: nat)
    requires Balanced(t, h)
    ensures h == BlackHeight(t)
  {
    if t.Bin? { BalancedHeight(t.left, if t.red then h else h - 1); }
  }

  /** `c` becomes a red-black tree once its hole holds a subtree of black
      height `h` (with a black root if the frame above it is red). */
  ghost predicate CtxBalanced<T>(c: Ctx<T>, h: nat) {
    match c
    case Top => true
    case InLeft(up, _, red, r) =>
      Balanced(r, h) && (red ==> !IsRed(r) && !up.Top? && !up.red) &&
      CtxBalanced(up, if red then h else h + 1)
    case InRight(up, l, _, red) =>
      Balanced(l, h) && (red ==> !IsRed(l) && !up.Top? && !up.red) &&
      CtxBalanced(up, if red then h else h + 1)
  }

  ghost function InOrder<T>(t: Tree<T>): seq<Node<T>> {
    match t
    case Nil => []
    case Bin(l, n, _, r) => InOrder(l) + [n] + InOrder(r)
  }

  ghost function Before<T>(c: Ctx<T>): seq<Node<T>> {
    match c
    case Top => []
    case InLeft(up, n, _, r) => Before(up)
    case InRight(up, l, n, _) => Before(up) + InOrder(l) + [n]
  }

  ghost function After<T>(c: Ctx<T>): seq<Node<T>> {
    match c
    case Top => []
    case InLeft(up, n, _, r) => [n] + InOrder(r) + After(up)
    case InRight(up, l, n, _) => After(up)
  }

  lemma {:induction false} InOrderNodes<T>(t: Tree<T>)
    ensures forall n :: n in InOrder(t) <==> n in Nodes(t)
    ensures forall i :: 0 <= i < |InOrder(t)| ==> InOrder(t)[i] in Nodes(t)
  {
    if t.Bin? {
      InOrderNodes(t.left);
      InOrderNodes(t.right);
    }
  }

  lemma {:induction false} SideNodes<T>(c: Ctx<T>)
    ensures forall n :: n in Before(c) || n in After(c) <==> n in CtxNodes(c)
  {
    match c
    case Top =>
    case InLeft(up, _, _, r) => SideNodes(up); InOrderNodes(r);
    case InRight(up, l, _, _) => SideNodes(up); InOrderNodes(l);
  }

  /** `s` with every occurrence of `x` taken out. */
  ghost function Without<X>(s: seq<X>, x: X): (r: seq<X>)
    ensures x !in r && |r| <= |s|
  {
    if s == [] then [] else (if s[0] == x then [] else [s[0]]) + Without(s[1..], x)
  }

  lemma {:induction false} WithoutConcat<X>(a: seq<X>, b: seq<X>, x: X)
    ensures Without(a + b, x) == Without(a, x) + Without(b, x)
  {
    if a == [] {
      assert a + b == b;
    } else {
      assert (a + b)[1..] == a[1..] + b;
      WithoutConcat(a[1..], b, x);
    }
  }

  lemma {:induction false} WithoutMiddle<X>(a: seq<X>, x: X, b: seq<X>)
    requires x !in a && x !in b
    ensures Without(a + [x] + b, x) == a + b && Without(b, x) == b
  {
    WithoutSelf(x);
    hide Without;
    WithoutConcat(a + [x], b, x);
    WithoutConcat(a, [x], x);
    WithoutNone(a, x);
    WithoutNone(b, x);
    assert a + [] == a;
  }

  lemma {:induction false} WithoutSelf<X>(x: X)
    ensures Without([x], x) == []
  {
  }

  lemma {:induction false} WithoutNone<X>(b: seq<X>, x: X)
    requires x !in b
    ensures Without(b, x) == b
  {
    if b != [] { WithoutNone(b[1..], x); }
  }

  lemma {:induction false} Regroup<X>(a: seq<X>, b: seq<X>, x: X, d: seq<X>, e: seq<X>)
    ensures a + (b + [x] + d) + e == a + b + ([x] + d + e)
    ensures a + (b + [x] + d) + e == (a + b + [x]) + d + e
  {
  }

  lemma {:induction false} Around3<X>(b: seq<X>, l: seq<X>, n: X, r: seq<X>, a: seq<X>)
    ensures b + (l + [n] + r) + a == (b + l) + [n] + (r + a)
  {
  }

  lemma {:induction false} InOrderPlug<T>(c: Ctx<T>, t: Tree<T>)
    ensures InOrder(Plug(c, t)) == Before(c) + InOrder(t) + After(c)
  {
    match c
    case Top =>
    case InLeft(up, n, red, r) =>
      InOrderPlug(up, Bin(t, n, red, r));
      Regroup(Before(up), InOrder(t), n, InOrder(r), After(up));
    case InRight(up, l, n, red) =>
      InOrderPlug(up, Bin(l, n, red, t));
      Regroup(Before(up), InOrder(l), n, InOrder(t), After(up));
  }

  lemma {:induction false} BalancedPlug<T>(c: Ctx<T>, t: Tree<T>, h: nat)
    requires CtxBalanced(c, h) && Balanced(t, h)
    requires IsRed(t) ==> c.Top? || !c.red
    ensures Balanced(Plug(c, t), BlackHeight(Plug(c, t)))
    ensures !c.Top? ==> !IsRed(Plug(c, t))
    ensures !IsRed(t) ==> !IsRed(Plug(c, t))
  {
    match c
    case Top => BalancedHeight(t, h);
    case InLeft(up, n, red, r) =>
      BalancedPlug(up, Bin(t, n, red, r), if red then h else h + 1);
    case InRight(up, l, n, red) =>
      BalancedPlug(up, Bin(l, n, red, t), if red then h else h + 1);
  }

  // ------------------------------------------------------- moving in a shape

  /** A (context, subtree) view folds back into a whole tree. */
  lemma {:induction false} Join<T>(m: Store<T>, top: Node?<T>, c: Ctx<T>, t: Tree<T>)
    requires Shape(m, top, c, t)
    ensures Shape(m, top, Top, Plug(c, t))
    ensures Nodes(Plug(c, t)) == CtxNodes(c) + Nodes(t)
    decreases c
  {
    match c
    case Top =>
    case InLeft(up, n, red, r) => Join(m, top, up, Bin(t, n, red, r));
    case InRight(up, l, n, red) => Join(m, top, up, Bin(l, n, red, t));
  }

  lemma {:induction false} LinkedKeys<T>(m: Store<T>, t: Tree<T>, p: Node?<T>)
    requires Linked(m, t, p)
    ensures Nodes(t) <= m.Keys
  {
    if t.Bin? {
      LinkedKeys(m, t.left, t.node);
      LinkedKeys(m, t.right, t.node);
    }
  }

  lemma {:induction false} CtxKeys<T>(m: Store<T>, c: Ctx<T>, hole: Node?<T>, top: Node?<T>, p: Node?<T>)
    requires CtxLinked(m, c, hole, top, p)
    ensures CtxNodes(c) <= m.Keys
  {
    match c
    case Top =>
    case InLeft(up, n, _, r) => LinkedKeys(m, r, n); CtxKeys(m, up, n, top, p);
    case InRight(up, l, n, _) => LinkedKeys(m, l, n); CtxKeys(m, up, n, top, p);
  }

  lemma {:induction false} SameLinks<T>(m: Store<T>, m': Store<T>, t: Tree<T>, p: Node?<T>)
    requires Linked(m, t, p)
    requires forall n :: n in Nodes(t) && n in m ==> n in m' && m'[n] == m[n]
    ensures Linked(m', t, p)
  {
    if t.Bin? {
      SameLinks(m, m', t.left, t.node);
      SameLinks(m, m', t.right, t.node);
    }
  }

  /** Only the parent pointer of the topmost node of `t` changes. */
  lemma {:induction false} Reparented<T>(m: Store<T>, m': Store<T>, t: Tree<T>, p: Node?<T>, q: Node?<T>)
    requires Linked(m, t, p) && Distinct(t)
    requires forall n :: n in Nodes(t) && n != t.node && n in m ==> n in m' && m'[n] == m[n]
    requires t.Bin? ==> t.node in m' && m'[t.node] == m[t.node].(parent := q)
    ensures Linked(m', t, q)
  {
    if t.Bin? {
      SameLinks(m, m', t.left, t.node);
      SameLinks(m, m', t.right, t.node);
    }
  }

  lemma {:induction false} SameCtx<T>(m: Store<T>, m': Store<T>, c: Ctx<T>, hole: Node?<T>, top: Node?<T>, p: Node?<T>)
    requires CtxLinked(m, c, hole, top, p)
    requires forall n :: n in CtxNodes(c) && n in m ==> n in m' && m'[n] == m[n]
    ensures CtxLinked(m', c, hole, top, p)
  {
    match c
    case Top =>
    case InLeft(up, n, _, r) => SameLinks(m, m', r, n); SameCtx(m, m', up, n, top, p);
    case InRight(up, l, n, _) => SameLinks(m, m', l, n); SameCtx(m, m', up, n, top, p);
  }

  /** Only the pointer stored at the hole of `c` changes. */
  lemma {:induction false} HoleSet<T>(m: Store<T>, m': Store<T>, c: Ctx<T>, hole: Node?<T>, hole': Node?<T>,
                              top: Node?<T>, p: Node?<T>)
    requires CtxLinked(m, c, hole, top, p) && CtxDistinct(c)
    requires forall n :: n in CtxNodes(c) && n != c.node && n in m ==> n in m' && m'[n] == m[n]
    requires c.InLeft? ==> c.node in m' && m'[c.node] == m[c.node].(left := hole')
    requires c.InRight? ==> c.node in m' && m'[c.node] == m[c.node].(right := hole')
    ensures CtxLinked(m', c, hole', if c.Top? then hole' else top, p)
  {
    match c
    case Top =>
    case InLeft(up, n, _, r) => SameLinks(m, m', r, n); SameCtx(m, m', up, n, top, p);
    case InRight(up, l, n, _) => SameLinks(m, m', l, n); SameCtx(m, m', up, n, top, p);
  }

  // ---------------------------------------------------------------- symmetry

  /** The same tree seen in a mirror, with mirrored links. */
  ghost function Mirror<T>(t: Tree<T>): Tree<T> {
    match t
    case Nil => Nil
    case Bin(l, n, red, r) => Bin(Mirror(r), n, red, Mirror(l))
  }

  ghost function MirrorCtx<T>(c: Ctx<T>): Ctx<T> {
    match c
    case Top => Top
    case InLeft(up, n, red, r) => InRight(MirrorCtx(up), Mirror(r), n, red)
    case InRight(up, l, n, red) => InLeft(MirrorCtx(up), n, red, Mirror(l))
  }

  ghost function MirrorLinks<T>(m: Store<T>): Store<T> {
    map n | n in m :: Links(m[n].parent, m[n].red, m[n].right, m[n].left)
  }

  lemma {:induction false} MirrorTree<T>(m: Store<T>, t: Tree<T>, p: Node?<T>)
    ensures Mirror(Mirror(t)) == t && MirrorLinks(MirrorLinks(m)) == m
    ensures Nodes(Mirror(t)) == Nodes(t) && RootOf(Mirror(t)) == RootOf(t)
    ensures Distinct(Mirror(t)) == Distinct(t)
    ensures Linked(MirrorLinks(m), Mirror(t), p) == Linked(m, t, p)
  {
    if t.Bin? {
      MirrorTree(m, t.left, t.node);
      MirrorTree(m, t.right, t.node);
    }
  }

  lemma {:induction false} MirrorContext<T>(c: Ctx<T>)
    ensures MirrorCtx(MirrorCtx(c)) == c && CtxNodes(MirrorCtx(c)) == CtxNodes(c)
    ensures forall p :: ParentAt(MirrorCtx(c), p) == ParentAt(c, p)
    ensures CtxDistinct(MirrorCtx(c)) == CtxDistinct(c)
    ensures Depth(MirrorCtx(c)) == Depth(c)
  {
    if !c.Top? {
      MirrorTree(map[], if c.InLeft? then c.right else c.left, null);
      MirrorContext(c.up);
    }
  }

  lemma {:induction false} MirrorCtxLinked<T>(m: Store<T>, c: Ctx<T>, hole: Node?<T>, top: Node?<T>, p: Node?<T>)
    ensures CtxLinked(MirrorLinks(m), MirrorCtx(c), hole, top, p) == CtxLinked(m, c, hole, top, p)
  {
    if !c.Top? {
      MirrorTree(m, if c.InLeft? then c.right else c.left, c.node);
      MirrorContext(c.up);
      MirrorCtxLinked(m, c.up, c.node, top, p);
    }
  }

  lemma {:induction false} MirrorShape<T>(m: Store<T>, top: Node?<T>, c: Ctx<T>, t: Tree<T>)
    ensures Shape(MirrorLinks(m), top, MirrorCtx(c), Mirror(t)) == Shape(m, top, c, t)
  {
    MirrorTree(m, t, ParentAt(c, null));
    MirrorContext(c);
    MirrorCtxLinked(m, c, RootOf(t), top, null);
  }

  lemma {:induction false} MirrorBalanced<T>(t: Tree<T>, h: nat)
    ensures Balanced(Mirror(t), h) == Balanced(t, h)
    ensures IsRed(Mirror(t)) == IsRed(t)
  {
    if t.Bin? {
      var k := if t.red || h == 0 then h else h - 1;
      MirrorBalanced(t.left, k);
      MirrorBalanced(t.right, k);
    }
  }

  lemma {:induction false} MirrorCtxBalanced<T>(c: Ctx<T>, h: nat)
    ensures CtxBalanced(MirrorCtx(c), h) == CtxBalanced(c, h)
  {
    if !c.Top? {
      MirrorBalanced(if c.InLeft? then c.right else c.left, h);
      MirrorCtxBalanced(c.up, if c.red then h else h + 1);
    }
  }

  lemma {:induction false} MirrorInOrder<T>(t: Tree<T>)
    ensures InOrder(Mirror(t)) == Reverse(InOrder(t))
  {
    if t.Bin? {
      hide Reverse;
      ReverseOne(t.node);
      MirrorInOrder(t.left);
      MirrorInOrder(t.right);
      ReverseConcat(InOrder(t.left) + [t.node], InOrder(t.right));
      ReverseConcat(InOrder(t.left), [t.node]);
    }
  }

  lemma {:induction false} MirrorSides<T>(c: Ctx<T>)
    ensures Before(MirrorCtx(c)) == Reverse(After(c)) && After(MirrorCtx(c)) == Reverse(Before(c))
  {
    if !c.Top? { ReverseOne(c.node); }
    hide Reverse, InOrder;
    match c
    case Top =>
    case InLeft(up, n, _, r) =>
      MirrorSides(up);
      MirrorInOrder(r);
      ReverseConcat([n] + InOrder(r), After(up));
      ReverseConcat([n], InOrder(r));
      Associate(Reverse(After(up)), Reverse(InOrder(r)), [n]);
    case InRight(up, l, n, _) =>
      MirrorSides(up);
      MirrorInOrder(l);
      ReverseConcat(Before(up) + InOrder(l), [n]);
      ReverseConcat(Before(up), InOrder(l));
      Associate([n], Reverse(InOrder(l)), Reverse(Before(up)));
  }

  lemma {:induction false} MirrorOrder<T>(c: Ctx<T>, t: Tree<T>)
    ensures Before(MirrorCtx(c)) + InOrder(Mirror(t)) + After(MirrorCtx(c))
         == Reverse(Before(c) + InOrder(t) + After(c))
  {
    MirrorSides(c);
    MirrorInOrder(t);
    hide InOrder, Before, After, Mirror, MirrorCtx, Reverse;
    ReverseConcat(Before(c) + InOrder(t), After(c));
    ReverseConcat(Before(c), InOrder(t));
    Associate(Reverse(After(c)), Reverse(InOrder(t)), Reverse(Before(c)));
  }

  lemma {:induction false} Associate<X>(a: seq<X>, b: seq<X>, c: seq<X>)
    ensures a + b + c == a + (b + c)
  {
  }

  // -------------------------------------------------------------- rotations

  ghost function RotatedLeft<T>(t: Tree<T>): Tree<T>
    requires t.Bin? && t.right.Bin?
  {
    Bin(Bin(t.left, t.node, t.red, t.right.left), t.right.node, t.right.red, t.right.right)
  }

  /** The four nodes a rotation rewrites are there and are different. */
  ghost predicate CanRotate<T>(m: Store<T>, x: Node<T>, y: Node?<T>, inner: Node?<T>) {
    y != null && x in m && y in m && x != y &&
    (inner != null ==> inner in m && inner !in {x, y}) &&
    (m[x].parent != null ==> m[x].parent in m && m[x].parent !in {x, y} && m[x].parent != inner)
  }

  /** `m'` is `m` after the left rotation at `x`. */
  ghost predicate LeftRotated<T>(m: Store<T>, m': Store<T>, x: Node<T>, y: Node<T>) 
    requires x in m && y in m && CanRotate(m, x, y, m[y].left)
  {
    var p, inner := m[x].parent, m[y].left;
    m'.Keys == m.Keys &&
    m'[x] == Links(y, m[x].red, m[x].left, inner) &&
    m'[y] == Links(p, m[y].red, x, m[y].right) &&
    (inner != null ==> m'[inner] == m[inner].(parent := x)) &&
    (p != null ==> m'[p] == if m[p].left == x then m[p].(left := y) else m[p].(right := y)) &&
    forall n :: n in m && n != x && n != y && n != p && n != inner ==> m'[n] == m[n]
  }

  lemma {:induction false} CanRotateLeft<T>(m: Store<T>, top: Node?<T>, c: Ctx<T>, t: Tree<T>)
    requires Shape(m, top, c, t) && t.Bin? && t.right.Bin?
    ensures t.node in m && t.right.node in m && m[t.node].right == t.right.node
    ensures CanRotate(m, t.node, t.right.node, m[t.right.node].left)
  {
    assert Linked(m, t.right, t.node) && Distinct(t.right) && Linked(m, t.right.left, t.right.node);
    assert t.right.left.Bin? ==> t.right.left.node in Nodes(t.right.left);
  }

  lemma {:induction false} LeftRotatedSubtree<T>(m: Store<T>, m': Store<T>, t: Tree<T>, p: Node?<T>)
    requires Linked(m, t, p) && Distinct(t) && t.Bin? && t.right.Bin? && p !in Nodes(t)
    requires t.node in m && t.right.node in m && CanRotate(m, t.node, t.right.node, m[t.right.node].left)
    requires LeftRotated(m, m', t.node, t.right.node)
    ensures Linked(m', RotatedLeft(t), p)
    ensures Distinct(RotatedLeft(t)) && Nodes(RotatedLeft(t)) == Nodes(t)
  {
    var Bin(a, x, _, r) := t;
    var Bin(b, y, _, d) := r;
    assert Linked(m, r, x) && Distinct(r);
    SameLinks(m, m', a, x);
    Reparented(m, m', b, y, x);
    SameLinks(m, m', d, y);
  }

  lemma {:induction false} LeftRotationShape<T>(m: Store<T>, m': Store<T>, top: Node?<T>, c: Ctx<T>, t: Tree<T>)
    requires Shape(m, top, c, t) && t.Bin? && t.right.Bin?
    requires t.node in m && t.right.node in m && CanRotate(m, t.node, t.right.node, m[t.right.node].left)
    requires LeftRotated(m, m', t.node, t.right.node)
    ensures Shape(m', if m[t.node].parent == null then t.right.node else top, c, RotatedLeft(t))
    ensures Nodes(RotatedLeft(t)) == Nodes(t) && InOrder(RotatedLeft(t)) == InOrder(t)
  {
    RotatedInOrder(t);
    hide InOrder;
    LeftRotatedSubtree(m, m', t, ParentAt(c, null));
    assert Linked(m, t.right, t.node);
    assert t.right.left.Bin? ==> t.right.left.node in Nodes(t);
    HoleSet(m, m', c, t.node, t.right.node, top, null);
  }

  /** `m'` is `m` after the right rotation at `x`. */
  ghost predicate RightRotated<T>(m: Store<T>, m': Store<T>, x: Node<T>, y: Node<T>)
    requires x in m && y in m && CanRotate(m, x, y, m[y].right)
  {
    var p, inner := m[x].parent, m[y].right;
    m'.Keys == m.Keys &&
    m'[x] == Links(y, m[x].red, inner, m[x].right) &&
    m'[y] == Links(p, m[y].red, m[y].left, x) &&
    (inner != null ==> m'[inner] == m[inner].(parent := x)) &&
    (p != null ==> m'[p] == if m[p].right == x then m[p].(right := y) else m[p].(left := y)) &&
    forall n :: n in m && n != x && n != y && n != p && n != inner ==> m'[n] == m[n]
  }

  lemma {:induction false} RotatedLeftNodes<T>(t: Tree<T>)
    requires t.Bin? && t.right.Bin?
    ensures Nodes(RotatedLeft(t)) == Nodes(t)
  {
    assert Nodes(t.right) == Nodes(t.right.left) + {t.right.node} + Nodes(t.right.right);
  }

  lemma {:induction false} Reassociate<X>(a: seq<X>, x: X, b: seq<X>, y: X, d: seq<X>)
    ensures (a + [x] + b) + [y] + d == a + [x] + (b + [y] + d)
  {
  }

  lemma {:induction false} RotatedInOrder<T>(t: Tree<T>)
    requires t.Bin?
    ensures t.right.Bin? ==> InOrder(RotatedLeft(t)) == InOrder(t)
    ensures t.left.Bin? ==> InOrder(RotatedRight(t)) == InOrder(t)
  {
    if t.right.Bin? {
      var Bin(a, x, _, Bin(b, y, _, d)) := t;
      Reassociate(InOrder(a), x, InOrder(b), y, InOrder(d));
      assert InOrder(Bin(a, x, t.red, b)) == InOrder(a) + [x] + InOrder(b);
    }
    if t.left.Bin? {
      var Bin(Bin(a, x, _, b), y, _, d) := t;
      Reassociate(InOrder(a), x, InOrder(b), y, InOrder(d));
      assert InOrder(Bin(b, y, t.red, d)) == InOrder(b) + [y] + InOrder(d);
    }
  }

  ghost function RotatedRight<T>(t: Tree<T>): Tree<T>
    requires t.Bin? && t.left.Bin?
  {
    Bin(t.left.left, t.left.node, t.left.red, Bin(t.left.right, t.node, t.red, t.right))
  }

  lemma {:induction false} CanRotateRight<T>(m: Store<T>, top: Node?<T>, c: Ctx<T>, t: Tree<T>)
    requires Shape(m, top, c, t) && t.Bin? && t.left.Bin?
    ensures t.node in m && t.left.node in m && m[t.node].left == t.left.node
    ensures CanRotate(m, t.node, t.left.node, m[t.left.node].right)
  {
    MirrorShape(m, top, c, t);
    CanRotateLeft(MirrorLinks(m), top, MirrorCtx(c), Mirror(t));
  }

  lemma {:induction false} RightRotationShape<T>(m: Store<T>, m': Store<T>, top: Node?<T>, c: Ctx<T>, t: Tree<T>)
    requires Shape(m, top, c, t) && t.Bin? && t.left.Bin?
    requires t.node in m && t.left.node in m && CanRotate(m, t.node, t.left.node, m[t.left.node].right)
    requires RightRotated(m, m', t.node, t.left.node)
    ensures Shape(m', if m[t.node].parent == null then t.left.node else top, c, RotatedRight(t))
    ensures Nodes(RotatedRight(t)) == Nodes(t) && InOrder(RotatedRight(t)) == InOrder(t)
  {
    RotatedInOrder(t);
    hide InOrder;
    var top' := if m[t.node].parent == null then t.left.node else top;
    MirrorShape(m, top, c, t);
    LeftRotationShape(MirrorLinks(m), MirrorLinks(m'), top, MirrorCtx(c), Mirror(t));
    assert Mirror(RotatedRight(t)) == RotatedLeft(Mirror(t));
    MirrorShape(m', top', c, RotatedRight(t));
    MirrorTree(m, t, null);
    MirrorTree(m, RotatedRight(t), null);
  }

  // -------------------------------------------------------------- repainting

  ghost function SetRed<T>(t: Tree<T>, red: bool): Tree<T> {
    if t.Nil? then Nil else t.(red := red)
  }

  /** `t` with new colours for its root and the roots of its two subtrees. */
  ghost function Paint<T>(t: Tree<T>, l: bool, n: bool, r: bool): Tree<T>
    requires t.Bin?
  {
    Bin(SetRed(t.left, l), t.node, n, SetRed(t.right, r))
  }

  ghost predicate Painted<T>(m: Store<T>, m': Store<T>, t: Tree<T>, l: bool, n: bool, r: bool)
    requires t.Bin?
  {
    m'.Keys == m.Keys &&
    forall x :: x in m ==> m'[x] == m[x].(red :=
      if x == t.node then n else if x == RootOf(t.left) then l else if x == RootOf(t.right) then r else m[x].red)
  }

  lemma {:induction false} PaintSame<T>(t: Tree<T>, l: bool, n: bool, r: bool)
    requires t.Bin?
    ensures Nodes(Paint(t, l, n, r)) == Nodes(t) && InOrder(Paint(t, l, n, r)) == InOrder(t)
    ensures Distinct(Paint(t, l, n, r)) == Distinct(t)
  {
    SetRedSame(t.left, l);
    SetRedSame(t.right, r);
  }

  lemma {:induction false} SetRedSame<T>(t: Tree<T>, red: bool)
    ensures Nodes(SetRed(t, red)) == Nodes(t) && InOrder(SetRed(t, red)) == InOrder(t)
    ensures Distinct(SetRed(t, red)) == Distinct(t)
  {
  }

  lemma {:induction false} SetRedLinks<T>(m: Store<T>, m': Store<T>, t: Tree<T>, p: Node?<T>, red: bool)
    requires Linked(m, t, p) && Distinct(t)
    requires forall x :: x in Nodes(t) && x in m ==>
      x in m' && m'[x] == if x == RootOf(t) then m[x].(red := red) else m[x]
    ensures Linked(m', SetRed(t, red), p)
  {
    if t.Bin? {
      SameLinks(m, m', t.left, t.node);
      SameLinks(m, m', t.right, t.node);
    }
  }

  lemma {:induction false} PaintLinks<T>(m: Store<T>, m': Store<T>, t: Tree<T>, p: Node?<T>, l: bool, n: bool, r: bool)
    requires Linked(m, t, p) && Distinct(t) && t.Bin? && Painted(m, m', t, l, n, r)
    ensures Linked(m', Paint(t, l, n, r), p)
  {
    assert RootOf(t.left) in Nodes(t.left) || t.left.Nil?;
    assert RootOf(t.right) in Nodes(t.right) || t.right.Nil?;
    SetRedLinks(m, m', t.left, t.node, l);
    SetRedLinks(m, m', t.right, t.node, r);
  }

  lemma {:induction false} PaintShape<T>(m: Store<T>, m': Store<T>, top: Node?<T>, c: Ctx<T>, t: Tree<T>, l: bool,
                              n: bool, r: bool)
    requires Shape(m, top, c, t) && t.Bin? && Painted(m, m', t, l, n, r)
    ensures Shape(m', top, c, Paint(t, l, n, r))
  {
    PaintSame(t, l, n, r);
    PaintLinks(m, m', t, ParentAt(c, null), l, n, r);
    assert RootOf(t.left) in Nodes(t) || t.left.Nil?;
    assert RootOf(t.right) in Nodes(t) || t.right.Nil?;
    SameCtx(m, m', c, RootOf(t), top, null);
  }

  lemma {:induction false} MirrorPainted<T>(m: Store<T>, m': Store<T>, t: Tree<T>, l: bool, n: bool, r: bool)
    requires t.Bin? && Painted(m, m', t, l, n, r)
    requires t.left.Bin? && t.right.Bin? && t.left.node == t.right.node ==> l == r
    ensures Painted(MirrorLinks(m), MirrorLinks(m'), Mirror(t), r, n, l)
  {
    MirrorTree(m, t.left, null);
    MirrorTree(m, t.right, null);
  }

  // -------------------------------------------------------- up and down a path

  /** The subtree one level higher. */
  ghost function Fill<T>(c: Ctx<T>, t: Tree<T>): Tree<T>
    requires !c.Top?
  {
    if c.InLeft? then Bin(t, c.node, c.red, c.right) else Bin(c.left, c.node, c.red, t)
  }

  /** The same shape seen one level higher. */
  lemma {:induction false} Climb<T>(m: Store<T>, top: Node?<T>, c: Ctx<T>, t: Tree<T>)
    requires !c.Top?
    ensures Shape(m, top, c, t) == Shape(m, top, c.up, Fill(c, t))
    ensures CtxNodes(c) + Nodes(t) == CtxNodes(c.up) + Nodes(Fill(c, t))
    ensures Before(c) + InOrder(t) + After(c) == Before(c.up) + InOrder(Fill(c, t)) + After(c.up)
  {
    if c.InLeft? {
      Regroup(Before(c.up), InOrder(t), c.node, InOrder(c.right), After(c.up));
    } else {
      Regroup(Before(c.up), InOrder(c.left), c.node, InOrder(t), After(c.up));
    }
  }

  /** The inverse of Join. */
  lemma {:induction false} Unjoin<T>(m: Store<T>, top: Node?<T>, c: Ctx<T>, t: Tree<T>)
    requires Shape(m, top, Top, Plug(c, t))
    ensures Shape(m, top, c, t) && CtxNodes(c) + Nodes(t) == Nodes(Plug(c, t))
    decreases c
  {
    if !c.Top? {
      Unjoin(m, top, c.up, Fill(c, t));
      Climb(m, top, c, t);
    }
  }

  lemma {:induction false} Unplug<T>(c: Ctx<T>, t: Tree<T>) returns (h: nat)
    requires RedBlack(Plug(c, t))
    ensures Balanced(t, h) && CtxBalanced(c, h) && (IsRed(t) ==> !c.Top? && !c.red)
    decreases c
  {
    if c.Top? {
      h := BlackHeight(t);
    } else {
      var k := Unplug(c.up, Fill(c, t));
      h := if c.red then k else k - 1;
    }
  }

  /** The path from the root to a node. */
  lemma {:induction false} Locate<T>(c: Ctx<T>, t: Tree<T>, n: Node<T>) returns (c': Ctx<T>, t': Tree<T>)
    requires n in Nodes(t)
    ensures Plug(c', t') == Plug(c, t) && t'.Bin? && t'.node == n
    decreases t
  {
    if n == t.node {
      c', t' := c, t;
    } else if n in Nodes(t.left) {
      c', t' := Locate(InLeft(c, t.node, t.red, t.right), t.left, n);
    } else {
      c', t' := Locate(InRight(c, t.left, t.node, t.red), t.right, n);
    }
  }

  /** Both ways of going down one level. */
  lemma {:induction false} Descend<T>(m: Store<T>, top: Node?<T>, c: Ctx<T>, t: Tree<T>)
    requires Shape(m, top, c, t) && t.Bin?
    ensures Shape(m, top, InLeft(c, t.node, t.red, t.right), t.left)
    ensures Shape(m, top, InRight(c, t.left, t.node, t.red), t.right)
    ensures CtxNodes(InLeft(c, t.node, t.red, t.right)) + Nodes(t.left) == CtxNodes(c) + Nodes(t)
    ensures CtxNodes(InRight(c, t.left, t.node, t.red)) + Nodes(t.right) == CtxNodes(c) + Nodes(t)
    ensures t.node in m && m[t.node].left == RootOf(t.left) && m[t.node].right == RootOf(t.right)
  {
    Climb(m, top, InLeft(c, t.node, t.red, t.right), t.left);
    Climb(m, top, InRight(c, t.left, t.node, t.red), t.right);
  }
}
