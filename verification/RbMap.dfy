/**
 The ordered map of src/rbmap.c: an intrusive red-black tree whose nodes carry
 a `uintptr_t` key.
 */
module RbMap {
  import opened RbShape
  import RbInsert
  import RbErase
  import RbWalk

  const KEY_LIMIT: nat := 0x1_0000_0000_0000_0000

  /** uintptr_t on a 64-bit machine. */
  type Key = k: nat | k < KEY_LIMIT witness 0

  type MapNode = Node<Key>

  ghost function KeysOf(s: seq<MapNode>): (keys: seq<Key>)
    reads s`item
    ensures |keys| == |s| && forall i :: 0 <= i < |s| ==> keys[i] == s[i].item
  {
    if s == [] then [] else [s[0].item] + KeysOf(s[1..])
  }

  ghost predicate Increasing(keys: seq<Key>) {
    forall i, j :: 0 <= i < j < |keys| ==> keys[i] < keys[j]
  }

  class Map {
    var nsize: int
    /** The member nodes in tree order. */
    ghost var contents: seq<MapNode>
    const root: Root<Key>

    /** lts_rbmap_entity */
    constructor ()
      ensures Valid() && contents == [] && fresh(root)
    {
      nsize := 0;
      root := new Root();
      contents := [];
    }

    ghost function Members(): set<MapNode>
      reads root
    {
      Nodes(root.tree)
    }

    ghost predicate Valid()
      reads this, root, Members(), contents`item
    {
      Ordered() && nsize == |contents|
    }

    /** The invariant apart from the counter. */
    ghost predicate Ordered()
      reads this, root, Members(), contents`item
    {
      root.Valid() && contents == InOrder(root.tree) && Increasing(KeysOf(contents))
    }

    /** The descent has reached the subtree `t` at the hole of `c`. */
    ghost predicate Seeking(c: Ctx<Key>, t: Tree<Key>, key: Key)
      reads this, root, Members(), Before(c)`item, After(c)`item
    {
      Shape(Snap(Members()), root.node, c, t) && CtxNodes(c) + Nodes(t) == Members() &&
      Plug(c, t) == root.tree && Around(c, key)
    }

    lemma {:induction false} SeekStart(key: Key)
      requires Valid()
      ensures Seeking(Top, root.tree, key) && root.node == RootOf(root.tree)
    {
    }

    lemma {:induction false} SeekStep(c: Ctx<Key>, t: Tree<Key>, key: Key)
      requires Valid() && Seeking(c, t, key) && t.Bin?
      ensures t.node in Members() && t.node in contents && t.node.left == RootOf(t.left)
      ensures t.node.right == RootOf(t.right)
      ensures key < t.node.item ==> Seeking(InLeft(c, t.node, t.red, t.right), t.left, key)
      ensures key > t.node.item ==> Seeking(InRight(c, t.left, t.node, t.red), t.right, key)
    {
      Descend(Snap(Members()), root.node, c, t);
      InOrderPlug(c, t);
      Compare(c, t, key);
      Holds(c, t);
    }

    lemma {:induction false} SeekEnd(c: Ctx<Key>, key: Key)
      requires Valid() && Seeking(c, Nil, key)
      ensures forall i :: 0 <= i < |contents| ==> contents[i].item != key
      ensures contents == Before(c) + [] + After(c)
      ensures Around(c, key) && Increasing(KeysOf(contents))
    {
      InOrderPlug(c, Nil);
      Absent(c, key);
    }

    /** __rbmap_search */
    method Search(key: Key) returns (s: Node?<Key>)
      requires Valid()
      ensures Valid()
      ensures s != null ==> s in contents && s in Members() && s.item == key
      ensures s == null ==> forall i :: 0 <= i < |contents| ==> contents[i].item != key
    {
      hide Seeking, Members;
      var iter := root.node;
      ghost var c: Ctx<Key>, t := Top, root.tree;
      SeekStart(key);
      while iter != null
        invariant Valid() && iter == RootOf(t) && Seeking(c, t, key)
        decreases t
      {
        s := iter;
        SeekStep(c, t, key);
        if key < s.item {
          iter := iter.left;
          c, t := InLeft(c, t.node, t.red, t.right), t.left;
        } else if key > s.item {
          iter := iter.right;
          c, t := InRight(c, t.left, t.node, t.red), t.right;
        } else {
          return s;
        }
      }
      SeekEnd(c, key);
      return null;
    }

    /** __rbmap_link: `parent` and `left` stand for the slot `iter` points to. */
    method Link(node: MapNode) returns (rslt: int)
      requires Valid() && node !in Members()
      modifies this`contents, root, node`parent, node`red, node`left, node`right
      modifies Members()`left, Members()`right, Members()`parent, Members()`red
      ensures Ordered() && rslt in {0, -1}
      ensures rslt == -1 <==> node.item in old(KeysOf(contents))
      ensures rslt == -1 ==> root.tree == old(root.tree) && contents == old(contents) && node.parent == old(node.parent)
      ensures rslt == 0 ==> Members() == old(Members()) + {node} && Inserted(old(contents), node, contents)
    {
      hide Seeking, Members, Around, Increasing, KeysOf, Inserted, RedBlack, Shape;
      var parent: Node?<Key>, left := null, false;
      var iter := root.node;
      ghost var c: Ctx<Key>, t := Top, root.tree;
      SeekStart(node.item);
      while iter != null
        invariant Valid() && unchanged(root) && unchanged(this) && node.parent == old(node.parent)
        invariant Members() == old(Members())
        invariant iter == RootOf(t) && Seeking(c, t, node.item)
        invariant parent == ParentAt(c, null) && (parent != null ==> left == c.InLeft?)
        decreases t
      {
        parent := iter;
        SeekStep(c, t, node.item);
        if node.item < parent.item {
          iter, left := parent.left, true;
          c, t := InLeft(c, t.node, t.red, t.right), t.left;
        } else if node.item > parent.item {
          iter, left := parent.right, false;
          c, t := InRight(c, t.left, t.node, t.red), t.right;
        } else {
          KeyPresent(contents, parent);
          return -1;
        }
      }
      SeekEnd(c, node.item);
      InsertedHere(c, node);
      LinkAt(node, parent, left, c, Before(c) + [node] + After(c));
      return 0;
    }

    method LinkAt(node: MapNode, parent: Node?<Key>, left: bool, ghost c: Ctx<Key>, ghost order: seq<MapNode>)
      requires Valid() && node !in Members() && Seeking(c, Nil, node.item)
      requires parent == ParentAt(c, null) && (parent != null ==> left == c.InLeft?)
      requires order == Before(c) + [node] + After(c) && Increasing(KeysOf(order))
      modifies this`contents, root, node`parent, node`red, node`left, node`right
      modifies Members()`left, Members()`right, Members()`parent, Members()`red
      ensures Ordered() && Members() == old(Members()) + {node} && contents == order
    {
      hide Shape, RedBlack, Increasing, InOrder;
      RbInsert.InsertAt(node, parent, left, root, c);
      contents := order;
      assert KeysOf(order) == old(KeysOf(order));
    }

    method Add(node: MapNode) returns (rslt: int)
      requires Valid()
      modifies this, root, node`parent, node`red, node`left, node`right
      modifies Members()`left, Members()`right, Members()`parent, Members()`red
      ensures Valid() && rslt in {0, -1}
      ensures rslt == 0 <==> old(node.parent == node && node.item !in KeysOf(contents))
      ensures rslt == -1 ==> root.tree == old(root.tree) && contents == old(contents) && node.parent == old(node.parent)
      ensures rslt == 0 ==> Members() == old(Members()) + {node} && Inserted(old(contents), node, contents)
    {
      hide Shape, RedBlack, KeysOf, Increasing;
      if node.parent != node {
        return -1;
      }
      SelfParented(node);
      var r := Link(node);
      if r == -1 {
        return -1;
      }
      nsize := nsize + 1;
      return 0;
    }

    /** A node that is its own parent is in no tree. */
    lemma {:induction false} SelfParented(node: MapNode)
      requires Valid() && node.parent == node
      ensures node !in Members()
    {
      if node in Members() {
        RbWalk.MemberParent(root, node);
      }
    }

    /** rb_erase, RB_CLEAR_NODE and the counter. */
    method Unlink(node: MapNode, ghost order: seq<MapNode>)
      requires Valid() && node in Members()
      requires order == Without(contents, node) && Increasing(KeysOf(order)) && |order| == |contents| - 1
      modifies this, root
      modifies Members()`left, Members()`right, Members()`parent, Members()`red
      ensures Valid() && node.parent == node && node.item == old(node.item)
      ensures Members() == old(Members()) - {node} && contents == order
    {
      hide Shape, RedBlack, Without, Increasing, InOrder;
      RbErase.Erase(node, root);
      contents := order;
      assert KeysOf(order) == old(KeysOf(order));
      Clear(node);
      nsize := nsize - 1;
    }

    method Clear(node: MapNode)
      requires Ordered() && node !in Members()
      modifies node`parent
      ensures Ordered() && node.parent == node
    {
      node.parent := node;
    }

    method Del(key: Key) returns (gone: Node?<Key>)
      requires Valid()
      modifies this, root, Members()`left, Members()`right, Members()`parent, Members()`red
      ensures Valid()
      ensures gone == null ==> key !in old(KeysOf(contents)) && contents == old(contents) && root.tree == old(root.tree)
      ensures gone != null ==> gone in old(contents) && gone.item == key && gone.parent == gone
      ensures gone != null ==> var n: MapNode := gone;
        contents == Without(old(contents), n) && Members() == old(Members()) - {n}
    {
      hide Shape, RedBlack, KeysOf, Increasing, Without;
      var keyNode := Search(key);
      if keyNode != null {
        var n: MapNode := keyNode;
        WithoutOrder(contents, n);
        Unlink(n, Without(contents, n));
        return keyNode;
      }
      NoSuchKey(contents, key);
      return null;
    }

    method SafeDel(node: MapNode) returns (gone: Node?<Key>)
      requires Valid()
      modifies this, root, Members()`left, Members()`right, Members()`parent, Members()`red
      ensures Valid() && node.item == old(node.item)
      ensures gone == node || gone == null
      ensures gone == null <==> old(exists n :: n in contents && n.item == node.item && n != node)
      ensures node !in old(contents) ==>
        contents == old(contents) && root.tree == old(root.tree) && node.parent == old(node.parent)
      ensures node in old(contents) ==> contents == Without(old(contents), node) && node.parent == node
      ensures node in old(contents) ==> Members() == old(Members()) - {node}
    {
      hide Shape, RedBlack, KeysOf, Increasing, Without;
      var keyNode := Search(node.item);
      if keyNode == null {
        NoSuchKey(contents, node.item);
        return node;
      }
      OnlyHolder(contents, keyNode);
      if keyNode == node {
        var n: MapNode := keyNode;
        WithoutOrder(contents, n);
        Unlink(n, Without(contents, n));
        return node;
      }
      return null;
    }

    method Get(key: Key) returns (s: Node?<Key>)
      requires Valid()
      ensures Valid()
      ensures s != null ==> s in contents && s.item == key
      ensures s == null ==> key !in KeysOf(contents)
    {
      s := Search(key);
      if s == null { NoSuchKey(contents, key); }
    }

    method Min() returns (s: Node?<Key>)
      requires Valid()
      ensures Valid()
      ensures s == if contents == [] then null else contents[0]
      ensures s != null ==> s in contents && forall n :: n in contents ==> s.item <= n.item
    {
      s := RbWalk.First(root);
      if s != null {
        assert s == contents[0];
        FirstIsLeast(contents);
      }
    }

    /** The finite map that this container stands for. */
    ghost function Model(): map<Key, MapNode>
      reads this, contents`item
    {
      ModelOf(contents)
    }

    /** Among the nodes `u`, those that are their own parent are exactly those
        outside the map. */
    ghost predicate Tracks(u: set<MapNode>)
      reads this, root, u
    {
      Members() <= u && forall n :: n in u ==> (n.parent == n <==> n !in Members())
    }

    lemma {:induction false} MembersHaveParents()
      requires Valid()
      ensures forall n :: n in Members() ==> n.parent != n
    {
      forall n | n in Members()
        ensures n.parent != n
      {
        if n.parent == n { SelfParented(n); }
      }
    }

    /** No path in the tree is longer than 2 * log2(nsize + 1). */
    lemma {:induction false} Shallow()
      requires Valid()
      ensures RbWalk.Pow2((RbWalk.Height(root.tree) + 1) / 2) <= nsize + 1
    {
      RbWalk.HeightBound(root.tree);
    }

    lemma {:induction false} KeysIncrease()
      requires Valid()
      ensures Increasing(KeysOf(contents))
    {
    }

    lemma {:induction false} MembersAreContents()
      requires Valid()
      ensures forall n :: n in contents <==> n in Members()
      ensures |Model()| == nsize && Models(Model(), contents)
    {
      InOrderNodes(root.tree);
      ModelSize(contents);
      ModelAt(contents);
    }

    method TrackedAdd(node: MapNode, ghost u: set<MapNode>) returns (rslt: int)
      requires Valid() && Tracks(u) && node in u
      modifies this, root, u`left, u`right, u`parent, u`red
      ensures Valid() && Tracks(u) && rslt in {0, -1}
      ensures rslt == 0 <==> node.item !in old(KeysOf(contents))
      ensures if rslt == 0 then Inserted(old(contents), node, contents) else contents == old(contents)
    {
      hide Increasing, Shape, RedBlack, KeysOf, Inserted, InOrder, Nodes, Snap;
      MembersAreContents();
      if node in Members() { KeyPresent(contents, node); }
      rslt := Add(node);
      MembersHaveParents();
    }

    method DoAdd(node: MapNode, key: Key, ghost u: set<MapNode>) returns (r: Reply)
      requires Valid() && Tracks(u) && node in u && node.item == key
      modifies this, root, u`left, u`right, u`parent, u`red
      ensures Valid() && Tracks(u)
      ensures Answers(old(Model()), AddCall(node, key), r) && Model() == old(Next(Model(), AddCall(node, key)))
    {
      hide Increasing, Shape, RedBlack, KeysOf, ModelOf, Inserted, Answers, Next;
      ghost var s := contents;
      var rslt := TrackedAdd(node, u);
      r := Code(rslt);
      AddAnswers(s, node, key, rslt, contents);
    }

    method DoDel(key: Key, ghost u: set<MapNode>) returns (r: Reply)
      requires Valid() && Tracks(u)
      modifies this, root, u`left, u`right, u`parent, u`red
      ensures Valid() && Tracks(u)
      ensures Answers(old(Model()), DelCall(key), r) && Model() == old(Next(Model(), DelCall(key)))
    {
      hide Increasing, Shape, RedBlack, KeysOf, ModelOf, Without, Answers, Next, InOrder, Nodes, Snap, Map.Ordered;
      MembersAreContents();
      KeysIncrease();
      ghost var s := contents;
      var gone := Del(key);
      r := if gone == null then Null else Hit(gone);
      DelAnswers(s, key, gone, contents);
      MembersHaveParents();
    }

    method DoSafeDel(node: MapNode, key: Key, ghost u: set<MapNode>) returns (r: Reply)
      requires Valid() && Tracks(u) && node in u && node.item == key
      modifies this, root, u`left, u`right, u`parent, u`red
      ensures Valid() && Tracks(u)
      ensures Answers(old(Model()), SafeDelCall(node, key), r) && Model() == old(Next(Model(), SafeDelCall(node, key)))
    {
      hide Increasing, Shape, RedBlack, KeysOf, ModelOf, Without, Answers, Next, InOrder, Nodes, Snap, Map.Ordered;
      MembersAreContents();
      KeysIncrease();
      ghost var s := contents;
      var gone := SafeDel(node);
      r := if gone == null then Null else Hit(gone);
      SafeDelAnswers(s, node, key, gone, contents);
      MembersHaveParents();
    }

    method DoGet(key: Key) returns (r: Reply)
      requires Valid()
      ensures Valid() && Answers(Model(), GetCall(key), r)
    {
      hide Increasing, Shape, RedBlack, KeysOf, ModelOf;
      var s := Get(key);
      if s == null {
        r := Null;
        AbsentKey(contents, key);
      } else {
        r := Hit(s);
        ModelHas(contents, s);
      }
    }

    method DoMin() returns (r: Reply)
      requires Valid()
      ensures Valid() && Answers(Model(), MinCall, r)
    {
      hide Increasing, Shape, RedBlack, KeysOf, ModelOf;
      var s := Min();
      if s == null {
        r := Null;
        EmptyModel();
      } else {
        r := Hit(s);
        LeastKey(contents, s);
      }
    }

    method Do(call: Call, ghost u: set<MapNode>) returns (r: Reply)
      requires Valid() && Tracks(u) && Names(call, u)
      modifies this, root, u`left, u`right, u`parent, u`red
      ensures Valid() && Tracks(u)
      ensures Answers(old(Model()), call, r) && Model() == old(Next(Model(), call))
    {
      hide Increasing, Shape, RedBlack, KeysOf, ModelOf;
      match call
      case AddCall(node, key) => r := DoAdd(node, key, u);
      case DelCall(key) => r := DoDel(key, u);
      case SafeDelCall(node, key) => r := DoSafeDel(node, key, u);
      case GetCall(key) => r := DoGet(key);
      case MinCall => r := DoMin();
    }

    /** Any run of calls: every reply is the finite map's, and the invariants hold. */
    method Run(calls: seq<Call>, ghost u: set<MapNode>) returns (replies: seq<Reply>)
      requires Valid() && Tracks(u) && forall i :: 0 <= i < |calls| ==> Names(calls[i], u)
      modifies this, root, u`left, u`right, u`parent, u`red
      ensures Valid() && Tracks(u) && nsize == |Model()|
      ensures RbWalk.Pow2((RbWalk.Height(root.tree) + 1) / 2) <= nsize + 1
      ensures Model() == NextAll(old(Model()), calls) && AnswersAll(old(Model()), calls, replies)
      decreases |calls|
    {
      hide Increasing, Shape, RedBlack, KeysOf, ModelOf, Answers, Next;
      replies := [];
      if calls != [] {
        var r := Do(calls[0], u);
        var rest := Run(calls[1..], u);
        replies := [r] + rest;
        assert replies[1..] == rest;
      }
      MembersAreContents();
      Shallow();
    }
  }

  lemma {:induction false} AddAnswers(s: seq<MapNode>, n: MapNode, key: Key, rslt: int, s': seq<MapNode>)
    requires Increasing(KeysOf(s)) && Increasing(KeysOf(s')) && n.item == key && rslt in {0, -1}
    requires rslt == 0 <==> key !in KeysOf(s)
    requires if rslt == 0 then Inserted(s, n, s') else s' == s
    ensures Answers(ModelOf(s), AddCall(n, key), Code(rslt)) && ModelOf(s') == Next(ModelOf(s), AddCall(n, key))
  {
    hide Increasing, Inserted, KeysOf;
    if rslt == 0 {
      InsertedModel(s, n, s');
    }
  }

  lemma {:induction false} DelAnswers(s: seq<MapNode>, key: Key, gone: Node?<Key>, s': seq<MapNode>)
    requires Increasing(KeysOf(s))
    requires gone == null ==> key !in KeysOf(s) && s' == s
    requires gone != null ==> var n: MapNode := gone; n in s && n.item == key && s' == Without(s, n)
    ensures Answers(ModelOf(s), DelCall(key), if gone == null then Null else Hit(gone))
    ensures ModelOf(s') == Next(ModelOf(s), DelCall(key))
  {
    hide Increasing, Without, KeysOf;
    if gone == null {
      AbsentKey(s, key);
    } else {
      WithoutModel(s, gone);
      ModelHas(s, gone);
    }
  }

  lemma {:induction false} SafeDelAnswers(s: seq<MapNode>, n: MapNode, key: Key, gone: Node?<Key>, s': seq<MapNode>)
    requires Increasing(KeysOf(s)) && n.item == key && gone in {n, null}
    requires gone == null <==> exists x :: x in s && x.item == key && x != n
    requires s' == if n in s then Without(s, n) else s
    ensures Answers(ModelOf(s), SafeDelCall(n, key), if gone == null then Null else Hit(gone))
    ensures ModelOf(s') == Next(ModelOf(s), SafeDelCall(n, key))
  {
    hide Increasing, Without, KeysOf, ModelOf;
    HolderOf(s, n, key);
    if n in s {
      WithoutModel(s, n);
    }
  }

  lemma {:induction false} LeastKey(s: seq<MapNode>, n: MapNode)
    requires Increasing(KeysOf(s)) && n in s && forall x :: x in s ==> n.item <= x.item
    ensures n.item in ModelOf(s) && ModelOf(s)[n.item] == n && forall k :: k in ModelOf(s) ==> n.item <= k
  {
    ModelAt(s);
    forall k | k in ModelOf(s)
      ensures n.item <= k
    {
      ModelKey(s, k);
    }
  }

  lemma {:induction false} AbsentKey(s: seq<MapNode>, key: Key)
    requires key !in KeysOf(s)
    ensures key !in ModelOf(s)
  {
  }

  lemma {:induction false} HolderOf(s: seq<MapNode>, n: MapNode, key: Key)
    requires Increasing(KeysOf(s)) && n.item == key
    ensures n in s ==> key in ModelOf(s) && ModelOf(s)[key] == n
    ensures n !in s ==> key !in ModelOf(s) || ModelOf(s)[key] != n
    ensures (exists x :: x in s && x.item == key && x != n) <==> key in ModelOf(s) && ModelOf(s)[key] != n
  {
    ModelAt(s);
  }

  lemma {:induction false} NoSuchKey(s: seq<MapNode>, key: Key)
    requires forall i :: 0 <= i < |s| ==> s[i].item != key
    ensures key !in KeysOf(s) && forall n :: n in s ==> n.item != key
  {
  }

  lemma {:induction false} OnlyHolder(s: seq<MapNode>, n: MapNode)
    requires Increasing(KeysOf(s)) && n in s
    ensures forall x :: x in s && x.item == n.item ==> x == n
  {
    var i :| 0 <= i < |s| && s[i] == n;
    forall x | x in s && x.item == n.item
      ensures x == n
    {
      var j :| 0 <= j < |s| && s[j] == x;
      assert KeysOf(s)[i] == KeysOf(s)[j];
    }
  }

  lemma {:induction false} FirstIsLeast(s: seq<MapNode>)
    requires Increasing(KeysOf(s)) && s != []
    ensures forall n :: n in s ==> s[0].item <= n.item
  {
    forall n | n in s
      ensures s[0].item <= n.item
    {
      var j :| 0 <= j < |s| && s[j] == n;
      assert KeysOf(s)[0] <= KeysOf(s)[j];
    }
  }

  lemma {:induction false} SplitAt(s: seq<MapNode>, n: MapNode) returns (b: seq<MapNode>, a: seq<MapNode>)
    requires Increasing(KeysOf(s)) && n in s
    ensures s == b + [n] + a && n !in b && n !in a
  {
    var i :| 0 <= i < |s| && s[i] == n;
    b, a := s[..i], s[i + 1..];
    forall j | 0 <= j < |s| && j != i
      ensures s[j] != n
    {
      assert KeysOf(s)[j] != KeysOf(s)[i];
    }
  }

  lemma {:induction false} WithoutOrder(s: seq<MapNode>, n: MapNode)
    requires Increasing(KeysOf(s)) && n in s
    ensures Increasing(KeysOf(Without(s, n))) && |Without(s, n)| == |s| - 1
  {
    hide Increasing, KeysOf, Without;
    var b, a := SplitAt(s, n);
    WithoutMiddle(b, n, a);
    KeysOfMiddle(b, n, a);
    KeysOfConcat(b, a);
    IncreasingMiddle(KeysOf(b), n.item, KeysOf(a));
  }

  /** `s'` is `s` with `n` put where its key belongs. */
  ghost predicate Inserted(s: seq<MapNode>, n: MapNode, s': seq<MapNode>) {
    exists i :: 0 <= i <= |s| && s' == s[..i] + [n] + s[i..]
  }

  lemma {:induction false} KeyPresent(s: seq<MapNode>, n: MapNode)
    requires n in s
    ensures n.item in KeysOf(s)
  {
    var i :| 0 <= i < |s| && s[i] == n;
    assert KeysOf(s)[i] == n.item;
  }

  lemma {:induction false} InsertedBetween(b: seq<MapNode>, n: MapNode, a: seq<MapNode>)
    ensures Inserted(b + [] + a, n, b + [n] + a) && b + [] + a == b + a
  {
    var s := b + [] + a;
    assert s[..|b|] == b && s[|b|..] == a;
  }

  lemma {:induction false} InsertedHere(c: Ctx<Key>, n: MapNode)
    requires Around(c, n.item) && Increasing(KeysOf(Before(c) + [] + After(c)))
    ensures Inserted(Before(c) + [] + After(c), n, Before(c) + [n] + After(c))
    ensures Increasing(KeysOf(Before(c) + [n] + After(c)))
    ensures n.item !in KeysOf(Before(c) + [] + After(c))
  {
    var b, a := Before(c), After(c);
    hide Increasing, KeysOf, Below, Above, Inserted;
    InsertedBetween(b, n, a);
    KeysOfConcat(b, a);
    KeysOfMiddle(b, n, a);
    IncreasingMiddle(KeysOf(b), n.item, KeysOf(a));
    Absent(c, n.item);
  }

  lemma {:induction false} Holds(c: Ctx<Key>, t: Tree<Key>)
    requires t.Bin?
    ensures t.node in Before(c) + InOrder(t) + After(c)
  {
    assert t.node in InOrder(t);
  }

  ghost predicate Below(keys: seq<Key>, key: Key) {
    forall i :: 0 <= i < |keys| ==> keys[i] < key
  }

  ghost predicate Above(keys: seq<Key>, key: Key) {
    forall i :: 0 <= i < |keys| ==> key < keys[i]
  }

  /** The hole of `c` is where `key` belongs. */
  ghost predicate Around(c: Ctx<Key>, key: Key)
    reads Before(c)`item, After(c)`item
  {
    Below(KeysOf(Before(c)), key) && Above(KeysOf(After(c)), key)
  }

  lemma {:induction false} KeysOfConcat(a: seq<MapNode>, b: seq<MapNode>)
    ensures KeysOf(a + b) == KeysOf(a) + KeysOf(b)
  {
    var s := a + b;
    assert forall i :: 0 <= i < |s| ==> KeysOf(s)[i] == (KeysOf(a) + KeysOf(b))[i];
  }

  lemma {:induction false} KeysOfMiddle(b: seq<MapNode>, n: MapNode, a: seq<MapNode>)
    ensures KeysOf(b + [n] + a) == KeysOf(b) + [n.item] + KeysOf(a)
  {
    KeysOfConcat(b + [n], a);
    KeysOfConcat(b, [n]);
    assert KeysOf([n]) == [n.item];
  }

  /** Everything left of `x` is less and everything right of it is greater. */
  lemma {:induction false} IncreasingMiddle(l: seq<Key>, x: Key, r: seq<Key>)
    ensures Increasing(l + [x] + r) <==> Increasing(l + r) && Below(l, x) && Above(r, x)
  {
    if Increasing(l + [x] + r) { SplitIncreasing(l, x, r); }
    if Increasing(l + r) && Below(l, x) && Above(r, x) { JoinIncreasing(l, x, r); }
  }

  lemma {:induction false} SplitIncreasing(l: seq<Key>, x: Key, r: seq<Key>)
    requires Increasing(l + [x] + r)
    ensures Increasing(l + r) && Below(l, x) && Above(r, x)
  {
    var s, k := l + [x] + r, |l|;
    forall i | 0 <= i < k ensures l[i] < x { assert s[i] < s[k]; }
    forall i | 0 <= i < |r| ensures x < r[i] { assert s[k] < s[k + 1 + i]; }
    forall i, j | 0 <= i < j < |l + r|
      ensures (l + r)[i] < (l + r)[j]
    {
      var i', j' := if i < k then i else i + 1, if j < k then j else j + 1;
      assert s[i'] < s[j'];
    }
  }

  lemma {:induction false} JoinIncreasing(l: seq<Key>, x: Key, r: seq<Key>)
    requires Increasing(l + r) && Below(l, x) && Above(r, x)
    ensures Increasing(l + [x] + r)
  {
    var s, k := l + [x] + r, |l|;
    forall i, j | 0 <= i < j < |s|
      ensures s[i] < s[j]
    {
      if i == k {
        assert s[j] == r[j - k - 1];
      } else if j == k {
        assert s[i] == l[i];
      } else {
        var i', j' := if i < k then i else i - 1, if j < k then j else j - 1;
        assert (l + r)[i'] < (l + r)[j'];
      }
    }
  }

  lemma {:induction false} BelowConcat(a: seq<Key>, b: seq<Key>, key: Key)
    ensures Below(a + b, key) <==> Below(a, key) && Below(b, key)
    ensures Above(a + b, key) <==> Above(a, key) && Above(b, key)
  {
    assert forall i :: 0 <= i < |a| ==> (a + b)[i] == a[i];
    assert forall i :: 0 <= i < |b| ==> (a + b)[|a| + i] == b[i];
  }

  lemma {:induction false} Compare(c: Ctx<Key>, t: Tree<Key>, key: Key)
    requires t.Bin? && Increasing(KeysOf(Before(c) + InOrder(t) + After(c))) && Around(c, key)
    ensures key < t.node.item ==> Around(InLeft(c, t.node, t.red, t.right), key)
    ensures key > t.node.item ==> Around(InRight(c, t.left, t.node, t.red), key)
    ensures Before(c) + InOrder(t) + After(c) ==
      Before(InLeft(c, t.node, t.red, t.right)) + InOrder(t.left) + After(InLeft(c, t.node, t.red, t.right))
    ensures Before(c) + InOrder(t) + After(c) ==
      Before(InRight(c, t.left, t.node, t.red)) + InOrder(t.right) + After(InRight(c, t.left, t.node, t.red))
  {
    var b, l, n, r, a := Before(c), InOrder(t.left), t.node, InOrder(t.right), After(c);
    Regroup(b, l, n, r, a);
    Around3(b, l, n, r, a);
    KeysOfMiddle(b + l, n, r + a);
    IncreasingMiddle(KeysOf(b + l), n.item, KeysOf(r + a));
    KeysOfConcat(b, l);
    KeysOfConcat(r, a);
    BelowConcat(KeysOf(b), KeysOf(l), n.item);
    BelowConcat(KeysOf(r), KeysOf(a), n.item);
    hide Increasing;
    CompareSides(b, l, n, r, a, key);
  }

  lemma {:induction false} CompareSides(b: seq<MapNode>, l: seq<MapNode>, n: MapNode, r: seq<MapNode>,
                              a: seq<MapNode>, key: Key)
    requires Below(KeysOf(b), key) && Above(KeysOf(a), key)
    requires Below(KeysOf(l), n.item) && Above(KeysOf(r), n.item)
    ensures key < n.item ==> Above(KeysOf([n] + r + a), key)
    ensures key > n.item ==> Below(KeysOf(b + l + [n]), key)
  {
    KeysOfConcat([n] + r, a);
    KeysOfConcat([n], r);
    KeysOfConcat(b + l, [n]);
    KeysOfConcat(b, l);
    assert KeysOf([n]) == [n.item];
    BelowConcat([n.item] + KeysOf(r), KeysOf(a), key);
    BelowConcat([n.item], KeysOf(r), key);
    BelowConcat(KeysOf(b) + KeysOf(l), [n.item], key);
    BelowConcat(KeysOf(b), KeysOf(l), key);
  }

  lemma {:induction false} Absent(c: Ctx<Key>, key: Key)
    requires Around(c, key)
    ensures forall i :: 0 <= i < |Before(c) + [] + After(c)| ==> (Before(c) + [] + After(c))[i].item != key
  {
    var s := Before(c) + [] + After(c);
    forall i | 0 <= i < |s|
      ensures s[i].item != key
    {
      if i < |Before(c)| {
        assert KeysOf(Before(c))[i] == s[i].item;
      } else {
        assert KeysOf(After(c))[i - |Before(c)|] == s[i].item;
      }
    }
  }

  // ------------------------------------------------- refinement to a finite map

  ghost function IndexOf(keys: seq<Key>, k: Key): (i: nat)
    requires k in keys
    ensures i < |keys| && keys[i] == k
  {
    if keys[0] == k then 0 else 1 + IndexOf(keys[1..], k)
  }

  /** The finite map that a list of member nodes stands for. */
  ghost function ModelOf(s: seq<MapNode>): map<Key, MapNode>
    reads s`item
  {
    map k | k in KeysOf(s) :: s[IndexOf(KeysOf(s), k)]
  }

  ghost predicate Models(m: map<Key, MapNode>, s: seq<MapNode>)
    reads s`item
  {
    (forall n :: n in s ==> n.item in m && m[n.item] == n) &&
    (forall k :: k in m ==> m[k] in s && k in KeysOf(s))
  }

  lemma {:induction false} ModelAt(s: seq<MapNode>)
    requires Increasing(KeysOf(s))
    ensures Models(ModelOf(s), s)
  {
    forall n | n in s
      ensures n.item in ModelOf(s) && ModelOf(s)[n.item] == n
    {
      KeyPresent(s, n);
      OnlyHolder(s, n);
    }
  }

  lemma {:induction false} ModelUnique(m: map<Key, MapNode>, s: seq<MapNode>)
    requires Increasing(KeysOf(s)) && Models(m, s)
    ensures m == ModelOf(s)
  {
    hide Increasing, KeysOf, IndexOf, Models;
    forall k | k in m
      ensures k in ModelOf(s) && ModelOf(s)[k] == m[k]
    {
      ModelledKey(m, s, k);
    }
    forall k | k in ModelOf(s)
      ensures k in m
    {
      ModelKey(s, k);
      ModelledNode(m, s, ModelOf(s)[k]);
    }
    hide ModelOf;
  }

  lemma {:induction false} ModelledKey(m: map<Key, MapNode>, s: seq<MapNode>, k: Key)
    requires Models(m, s) && k in m && Increasing(KeysOf(s))
    ensures k in ModelOf(s) && ModelOf(s)[k] == m[k]
  {
    ModelKey(s, k);
    OnlyHolder(s, ModelOf(s)[k]);
  }

  lemma {:induction false} ModelledNode(m: map<Key, MapNode>, s: seq<MapNode>, n: MapNode)
    requires Models(m, s) && n in s
    ensures n.item in m && m[n.item] == n
  {
  }

  lemma {:induction false} InsertedMembers(s: seq<MapNode>, n: MapNode, s': seq<MapNode>)
    requires Inserted(s, n, s')
    ensures n in s' && forall x :: x in s' <==> x == n || x in s
    ensures n.item in KeysOf(s') && forall k :: k in KeysOf(s) ==> k in KeysOf(s')
  {
    var i :| 0 <= i <= |s| && s' == s[..i] + [n] + s[i..];
    assert s == s[..i] + s[i..];
    KeysOfMiddle(s[..i], n, s[i..]);
    KeysOfConcat(s[..i], s[i..]);
    assert s'[i] == n;
  }

  lemma {:induction false} InsertedModel(s: seq<MapNode>, n: MapNode, s': seq<MapNode>)
    requires Inserted(s, n, s') && Increasing(KeysOf(s')) && Increasing(KeysOf(s)) && n.item !in KeysOf(s)
    ensures ModelOf(s') == ModelOf(s)[n.item := n]
  {
    hide Increasing, KeysOf, ModelOf, Inserted;
    ModelAt(s);
    InsertedMembers(s, n, s');
    assert Models(ModelOf(s)[n.item := n], s') by {
      forall x | x in s
        ensures x.item != n.item
      {
        KeyPresent(s, x);
      }
    }
    ModelUnique(ModelOf(s)[n.item := n], s');
  }

  lemma {:induction false} WithoutModel(s: seq<MapNode>, n: MapNode)
    requires Increasing(KeysOf(s)) && n in s
    ensures ModelOf(Without(s, n)) == ModelOf(s) - {n.item}
  {
    hide ModelOf, Increasing, Without, KeysOf;
    WithoutOrder(s, n);
    ModelAt(s);
    WithoutMembers(s, n);
    OnlyHolder(s, n);
    assert Models(ModelOf(s) - {n.item}, Without(s, n)) by {
      forall k | k in ModelOf(s) - {n.item}
        ensures k in KeysOf(Without(s, n)) && ModelOf(s)[k] in Without(s, n)
      {
        ModelKey(s, k);
        KeyPresent(Without(s, n), ModelOf(s)[k]);
      }
    }
    ModelUnique(ModelOf(s) - {n.item}, Without(s, n));
  }

  lemma {:induction false} ModelKey(s: seq<MapNode>, k: Key)
    requires k in ModelOf(s)
    ensures ModelOf(s)[k].item == k && ModelOf(s)[k] in s
  {
  }

  lemma {:induction false} WithoutMembers(s: seq<MapNode>, n: MapNode)
    ensures forall x :: x in Without(s, n) <==> x in s && x != n
  {
    if s != [] { WithoutMembers(s[1..], n); }
  }

  lemma {:induction false} RemovedSize<V>(m: map<Key, V>, k: Key)
    requires k in m
    ensures |m - {k}| == |m| - 1
  {
    assert (m - {k}).Keys == m.Keys - {k};
  }

  lemma {:induction false} ModelSize(s: seq<MapNode>)
    requires Increasing(KeysOf(s))
    ensures |ModelOf(s)| == |s|
    decreases |s|
  {
    hide Increasing, ModelOf, Without, KeysOf, Models;
    if s == [] {
      EmptyModel();
    } else {
      var n := s[0];
      WithoutOrder(s, n);
      WithoutModel(s, n);
      ModelHas(s, n);
      ModelSize(Without(s, n));
      RemovedSize(ModelOf(s), n.item);
    }
  }

  lemma {:induction false} EmptyModel()
    ensures ModelOf([]) == map[]
  {
  }

  lemma {:induction false} ModelHas(s: seq<MapNode>, n: MapNode)
    requires Increasing(KeysOf(s)) && n in s
    ensures n.item in ModelOf(s) && ModelOf(s)[n.item] == n
  {
    ModelAt(s);
  }

  // Calls, and what they do to the map

  /** A call; a node is named together with the key it carries. */
  datatype Call =
    | AddCall(node: MapNode, key: Key)
    | DelCall(key: Key)
    | SafeDelCall(node: MapNode, key: Key)
    | GetCall(key: Key)
    | MinCall

  datatype Reply = Code(rslt: int) | Hit(found: MapNode) | Null

  ghost function Next(m: map<Key, MapNode>, c: Call): map<Key, MapNode> {
    match c
    case AddCall(n, k) => if k in m then m else m[k := n]
    case DelCall(k) => m - {k}
    case SafeDelCall(n, k) => if k in m && m[k] == n then m - {k} else m
    case GetCall(_) => m
    case MinCall => m
  }

  ghost predicate Answers(m: map<Key, MapNode>, c: Call, r: Reply) {
    match c
    case AddCall(n, k) => r == Code(if k in m then -1 else 0)
    case DelCall(k) => r == if k in m then Hit(m[k]) else Null
    case SafeDelCall(n, k) => r == if k in m && m[k] != n then Null else Hit(n)
    case GetCall(k) => r == if k in m then Hit(m[k]) else Null
    case MinCall =>
      if m == map[] then r == Null
      else r.Hit? && exists k :: k in m && m[k] == r.found && forall j :: j in m ==> k <= j
  }

  ghost predicate Names(c: Call, u: set<MapNode>)
    reads u
  {
    (c.AddCall? || c.SafeDelCall?) ==> c.node in u && c.node.item == c.key
  }

  ghost function NextAll(m: map<Key, MapNode>, calls: seq<Call>): map<Key, MapNode>
    decreases |calls|
  {
    if calls == [] then m else NextAll(Next(m, calls[0]), calls[1..])
  }

  ghost predicate AnswersAll(m: map<Key, MapNode>, calls: seq<Call>, replies: seq<Reply>)
    decreases |calls|
  {
    |replies| == |calls| &&
    (calls != [] ==> Answers(m, calls[0], replies[0]) && AnswersAll(Next(m, calls[0]), calls[1..], replies[1..]))
  }
}
