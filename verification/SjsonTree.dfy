/**
 The objects of src/simple_json.c: a red-black tree of nodes whose payload is a
 string, a list of strings or another object, ordered by `lts_str_compare`.
 */
module SjsonTree {
  import opened ByteString
  import opened RbShape
  import RbErase
  import RbInsert
  import RbWalk

  /** What a `lts_sjson_obj_node_t` is embedded in. */
  datatype Entry =
    | Kv(key: Bytes, val: Bytes)
    | Li(key: Bytes, items: seq<Bytes>)
    | Sub(key: Bytes, obj: JsonObj)

  type ObjNode = Node<Entry>

  /** lts_sjson_t */
  class JsonObj {
    const root: Root<Entry>
    /** The nodes in the order of the tree walk, and as a set. */
    ghost var contents: seq<ObjNode>
    ghost var nodes: set<ObjNode>

    constructor ()
      ensures Valid() && contents == [] && nodes == {} && fresh(root)
    {
      root := new Root();
      contents, nodes := [], {};
    }

    ghost predicate Valid()
      reads this, root, nodes
    {
      nodes == Nodes(root.tree) && root.Valid() && contents == InOrder(root.tree) &&
      forall i :: 0 <= i < |contents| ==> contents[i] in nodes
    }

    ghost function Items(): seq<Entry>
      requires Valid()
      reads this, root, nodes
    {
      ItemsOf(contents)
    }
  }

  // ------------------------------------------------------------------ descent

  /** Comparisons of a key with the nodes of a walk: greater, then equal, then less. */
  ghost predicate Monotone(g: seq<int>) {
    forall i, j :: 0 <= i < j < |g| && g[i] <= 0 ==> g[j] < 0
  }

  /** The key is greater than what is before `lo` and less than what is from `hi` on. */
  ghost predicate Bracket(g: seq<int>, lo: int, hi: int) {
    0 <= lo <= hi <= |g| && (forall i :: 0 <= i < lo ==> g[i] > 0) && (forall i :: hi <= i < |g| ==> g[i] < 0)
  }

  lemma {:induction false} BracketStep(g: seq<int>, lo: int, mid: int, hi: int)
    requires Monotone(g) && Bracket(g, lo, hi) && lo <= mid < hi
    ensures g[mid] < 0 ==> Bracket(g, lo, mid)
    ensures g[mid] > 0 ==> Bracket(g, mid + 1, hi)
  {
  }

  ghost function ItemsOf(s: seq<ObjNode>): (items: seq<Entry>)
    reads s`item
    ensures |items| == |s| && forall i :: 0 <= i < |s| ==> items[i] == s[i].item
  {
    if s == [] then [] else [s[0].item] + ItemsOf(s[1..])
  }

  ghost function Signs(key: Bytes, items: seq<Entry>): (g: seq<int>)
    ensures |g| == |items| && forall i :: 0 <= i < |items| ==> g[i] == Compare(key, items[i].key)
  {
    seq(|items|, i requires 0 <= i < |items| => Compare(key, items[i].key))
  }

  /** The descent is at the subtree `t` in the hole of `c`. */
  ghost predicate At(o: JsonObj, c: Ctx<Entry>, t: Tree<Entry>)
    reads o, o.root, o.nodes
  {
    Shape(Snap(o.nodes), o.root.node, c, t) && CtxNodes(c) + Nodes(t) == o.nodes && Plug(c, t) == o.root.tree
  }

  ghost function Lo(c: Ctx<Entry>): nat {
    |Before(c)|
  }

  ghost function Hi(c: Ctx<Entry>, t: Tree<Entry>): nat {
    |Before(c)| + |InOrder(t)|
  }

  lemma {:induction false} AtRoot(o: JsonObj)
    requires o.Valid()
    ensures At(o, Top, o.root.tree) && o.root.node == RootOf(o.root.tree)
    ensures Lo(Top) == 0 && Hi(Top, o.root.tree) == |o.contents|
  {
  }

  lemma {:induction false} AtNode(o: JsonObj, c: Ctx<Entry>, t: Tree<Entry>) returns (mid: nat)
    requires o.Valid() && At(o, c, t) && t.Bin?
    ensures t.node in o.nodes && t.node.left == RootOf(t.left) && t.node.right == RootOf(t.right)
    ensures Lo(c) <= mid < Hi(c, t) <= |o.contents| && o.contents[mid] == t.node
    ensures var l := InLeft(c, t.node, t.red, t.right); At(o, l, t.left) && Lo(l) == Lo(c) && Hi(l, t.left) == mid
    ensures var r := InRight(c, t.left, t.node, t.red);
      At(o, r, t.right) && Lo(r) == mid + 1 && Hi(r, t.right) == Hi(c, t)
  {
    Descend(Snap(o.nodes), o.root.node, c, t);
    RbWalk.Position(c, t);
    mid := |Before(c)| + |InOrder(t.left)|;
  }

  lemma {:induction false} AtHole(o: JsonObj, c: Ctx<Entry>)
    requires o.Valid() && At(o, c, Nil)
    ensures o.contents == Before(c) + After(c) && Lo(c) == Hi(c, Nil) <= |o.contents|
  {
    InOrderPlug(c, Nil);
    assert Before(c) + [] + After(c) == Before(c) + After(c);
  }

  /** In a well-ordered walk `k` is where the key belongs. */
  ghost predicate SlotFor(g: seq<int>, k: nat) {
    k <= |g| && (Monotone(g) ==> Bracket(g, k, k))
  }

  /** `node` has been linked as number `k` of the walk. */
  ghost predicate Placed(was: seq<ObjNode>, node: ObjNode, k: nat, now: seq<ObjNode>) {
    k <= |was| && now == was[..k] + [node] + was[k..]
  }

  /**
   __lts_sjson_search: the member whose key compares equal, or `node` itself,
   which is then linked if asked for.  `parent` and `left` stand for the slot
   `iter` points to.
   */
  method Search(o: JsonObj, node: ObjNode, link: bool) returns (s: ObjNode, ghost k: nat)
    requires o.Valid() && node !in o.nodes
    modifies o, o.root, node`parent, node`red, node`left, node`right
    modifies o.nodes`left, o.nodes`right, o.nodes`parent, o.nodes`red
    ensures o.Valid() && node.item == old(node.item)
    ensures s != node ==> k < |o.contents| && s == o.contents[k] && Compare(node.item.key, s.item.key) == 0
    ensures s == node ==> SlotFor(Signs(node.item.key, old(o.Items())), k)
    ensures link && s == node ==> Placed(old(o.contents), node, k, o.contents) && o.nodes == old(o.nodes) + {node}
    ensures !link || s != node ==>
      o.contents == old(o.contents) && o.nodes == old(o.nodes) && o.root.tree == old(o.root.tree)
  {
    hide At, Lo, Hi, Shape, RedBlack, Bracket, Monotone;
    var parent: Node?<Entry>, left := null, false;
    var iter := o.root.node;
    ghost var c: Ctx<Entry>, t := Top, o.root.tree;
    ghost var g := Signs(node.item.key, o.Items());
    AtRoot(o);
    BracketAll(g);
    while iter != null
      invariant o.Valid() && unchanged(o) && unchanged(o.root) && unchanged(o.nodes`item) && unchanged(node)
      invariant iter == RootOf(t) && At(o, c, t)
      invariant parent == ParentAt(c, null) && (parent != null ==> left == c.InLeft?)
      invariant Monotone(g) ==> Bracket(g, Lo(c), Hi(c, t))
      decreases t
    {
      ghost var mid := AtNode(o, c, t);
      parent := iter;
      var balance := StrCompare(node.item.key, parent.item.key);
      assert g[mid] == balance;
      if Monotone(g) { BracketStep(g, Lo(c), mid, Hi(c, t)); }
      if balance < 0 {
        iter, left := parent.left, true;
        c, t := InLeft(c, t.node, t.red, t.right), t.left;
      } else if balance > 0 {
        iter, left := parent.right, false;
        c, t := InRight(c, t.left, t.node, t.red), t.right;
      } else {
        return parent, mid;
      }
    }
    AtHole(o, c);
    k := Lo(c);
    if link {
      LinkAt(o, node, parent, left, c, k);
    }
    return node, k;
  }

  lemma {:induction false} BracketAll(g: seq<int>)
    ensures Bracket(g, 0, |g|)
  {
  }

  /** rb_link_node and rb_insert_color */
  method LinkAt(o: JsonObj, node: ObjNode, parent: Node?<Entry>, left: bool, ghost c: Ctx<Entry>, ghost k: nat)
    requires o.Valid() && node !in o.nodes && At(o, c, Nil) && k == Lo(c)
    requires parent == ParentAt(c, null) && (parent != null ==> left == c.InLeft?)
    modifies o, o.root, node`parent, node`red, node`left, node`right
    modifies o.nodes`left, o.nodes`right, o.nodes`parent, o.nodes`red
    ensures o.Valid() && Placed(old(o.contents), node, k, o.contents) && o.nodes == old(o.nodes) + {node}
  {
    hide Shape, RedBlack;
    AtHole(o, c);
    RbInsert.InsertAt(node, parent, left, o.root, c);
    o.contents := Before(c) + [node] + After(c);
    o.nodes := Nodes(o.root.tree);
    InOrderNodes(o.root.tree);
  }

  /** lts_sjson_pop_min */
  method PopMin(o: JsonObj) returns (p: Node?<Entry>)
    requires o.Valid()
    modifies o, o.root, o.nodes`left, o.nodes`right, o.nodes`parent, o.nodes`red
    ensures o.Valid()
    ensures p == null <==> old(o.contents) == []
    ensures p == null ==> o.contents == []
    ensures p != null ==> old(o.contents) == [p] + o.contents && o.nodes == old(o.nodes) - {p}
  {
    hide Shape, RedBlack;
    p := RbWalk.First(o.root);
    if p == null {
      return;
    }
    FirstGone(o);
    RbErase.Erase(p, o.root);
    o.contents := o.contents[1..];
    o.nodes := o.nodes - {p};
  }

  lemma {:induction false} FirstGone(o: JsonObj)
    requires o.Valid() && o.contents != []
    ensures o.contents[0] in o.nodes && Without(o.contents, o.contents[0]) == o.contents[1..]
    ensures o.contents == [o.contents[0]] + o.contents[1..]
  {
    RbWalk.InOrderDistinct(o.root.tree);
    InOrderNodes(o.root.tree);
    hide InOrder, Shape, RedBlack, Without;
    FirstWithout(o.contents);
  }

  lemma {:induction false} FirstWithout<X>(s: seq<X>)
    requires s != [] && forall i, j :: 0 <= i < j < |s| ==> s[i] != s[j]
    ensures Without(s, s[0]) == s[1..] && s == [s[0]] + s[1..]
  {
    WithoutNone(s[1..], s[0]);
  }
}
