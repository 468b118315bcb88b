/** __rb_rotate_left and __rb_rotate_right of src/rbtree.c. */
module RbRotate {
  import opened RbShape

  method RotateLeft<T>(node: Node<T>, root: Root<T>, ghost s: set<Node<T>>)
    requires node in s && node.right != null && node.right in s
    requires CanRotate(Snap(s), node, node.right, node.right.left)
    modifies root`node, s`left, s`right, s`parent
    ensures LeftRotated(old(Snap(s)), Snap(s), node, old(node.right))
    ensures root.node == if old(node.parent) == null then old(node.right) else old(root.node)
  {
    var right := node.right;
    var parent := node.parent;

    node.right := right.left;
    if node.right != null {
      right.left.parent := node;
    }
    right.left := node;
    right.parent := parent;
    if parent != null {
      SetChildLeft(parent, node, right);
    } else {
      root.node := right;
    }
    node.parent := right;
  }

  /** The child `node` of `parent`, tried on the left first, becomes `child`. */
  method SetChildLeft<T>(parent: Node<T>, node: Node<T>, child: Node<T>)
    modifies parent`left, parent`right
    ensures parent.left == if old(parent.left) == node then child else old(parent.left)
    ensures parent.right == if old(parent.left) == node then old(parent.right) else child
  {
    if node == parent.left {
      parent.left := child;
    } else {
      parent.right := child;
    }
  }

  method RotateRight<T>(node: Node<T>, root: Root<T>, ghost s: set<Node<T>>)
    requires node in s && node.left != null && node.left in s
    requires CanRotate(Snap(s), node, node.left, node.left.right)
    modifies root`node, s`left, s`right, s`parent
    ensures RightRotated(old(Snap(s)), Snap(s), node, old(node.left))
    ensures root.node == if old(node.parent) == null then old(node.left) else old(root.node)
  {
    var left := node.left;
    var parent := node.parent;

    node.left := left.right;
    if node.left != null {
      left.right.parent := node;
    }
    left.right := node;
    left.parent := parent;
    if parent != null {
      SetChildRight(parent, node, left);
    } else {
      root.node := left;
    }
    node.parent := left;
  }

  /** The child `node` of `parent`, tried on the right first, becomes `child`. */
  method SetChildRight<T>(parent: Node<T>, node: Node<T>, child: Node<T>)
    modifies parent`left, parent`right
    ensures parent.right == if old(parent.right) == node then child else old(parent.right)
    ensures parent.left == if old(parent.right) == node then old(parent.left) else child
  {
    if node == parent.right {
      parent.right := child;
    } else {
      parent.left := child;
    }
  }

  /** rb_set_black on one node, rb_set_red on its node. */
  method SetBlackRed<T>(node: Node<T>, up: Node<T>, ghost s: set<Node<T>>, ghost g: Tree<T>)
    requires node in s && up in s && g.Bin? && up == g.node
    requires node != up && RootOf(g.left) != RootOf(g.right)
    requires (node == RootOf(g.left) && !IsRed(g.right) && (g.right.Bin? ==> g.right.node in s && !g.right.node.red)) ||
             (node == RootOf(g.right) && !IsRed(g.left) && (g.left.Bin? ==> g.left.node in s && !g.left.node.red))
    modifies node`red, up`red
    ensures Painted(old(Snap(s)), Snap(s), g, false, true, false)
  {
    node.red := false;
    up.red := true;
  }

  /** rb_set_black on two siblings, rb_set_red on their parent. */
  method SetFlipped<T>(uncle: Node<T>, node: Node<T>, up: Node<T>, ghost s: set<Node<T>>, ghost g: Tree<T>)
    requires node in s && uncle in s && up in s && g.Bin? && up == g.node
    requires node != up && uncle != up && node != uncle
    requires {node, uncle} == {RootOf(g.left), RootOf(g.right)}
    modifies node`red, uncle`red, up`red
    ensures Painted(old(Snap(s)), Snap(s), g, false, true, false)
  {
    uncle.red := false;
    node.red := false;
    up.red := true;
  }
}
