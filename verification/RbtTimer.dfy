/**
 The timer heap of src/rbt_timer.c on top of the map: keys are deadlines, and a
 timer that finds its deadline taken is moved on until it finds a free one.
 */
module RbtTimer {
  import opened RbShape
  import opened RbMap

  /** The other nodes of the heap and their keys. */
  ghost function Others(m: map<Key, MapNode>, node: MapNode): map<Key, MapNode> {
    map k | k in m && m[k] != node :: m[k]
  }

  method Add(heap: Map, node: MapNode) returns (rslt: int)
    requires heap.Valid()
    modifies heap, heap.root, node`parent, node`red, node`left, node`right
    modifies heap.Members()`left, heap.Members()`right, heap.Members()`parent, heap.Members()`red
    ensures heap.Valid() && rslt in {0, -1}
    ensures rslt == 0 <==> old(node.parent == node && node.item !in heap.Model())
    ensures heap.Model() == if rslt == 0 then old(heap.Model())[node.item := node] else old(heap.Model())
    ensures rslt == -1 ==> node.parent == old(node.parent) && heap.Members() == old(heap.Members())
    ensures rslt == 0 ==> heap.Members() == old(heap.Members()) + {node}
  {
    hide Increasing, Shape, RedBlack, KeysOf, ModelOf, Inserted;
    ghost var s := heap.contents;
    ModelKeys(s);
    rslt := heap.Add(node);
    if rslt == 0 {
      InsertedModel(s, node, heap.contents);
    }
  }

  lemma {:induction false} ModelKeys(s: seq<MapNode>)
    ensures forall k :: k in ModelOf(s) <==> k in KeysOf(s)
  {
  }

  /** Whether the node is out of the heap afterwards, except that a different
      node with the same key makes the answer false. */
  method Del(heap: Map, node: MapNode) returns (ok: bool)
    requires heap.Valid()
    modifies heap, heap.root
    modifies heap.Members()`left, heap.Members()`right, heap.Members()`parent, heap.Members()`red
    ensures heap.Valid() && node.item == old(node.item)
    ensures ok <==> old(node.item in heap.Model() ==> heap.Model()[node.item] == node)
    ensures node in old(heap.Members()) ==> ok
    ensures heap.Model() == Others(old(heap.Model()), node)
    ensures heap.Members() == old(heap.Members()) - {node}
    ensures node in old(heap.Members()) ==> node.parent == node
    ensures node !in old(heap.Members()) ==> node.parent == old(node.parent)
    ensures heap.contents == Without(old(heap.contents), node)
  {
    hide Increasing, Shape, RedBlack, KeysOf, ModelOf, Without;
    heap.MembersAreContents();
    ghost var s := heap.contents;
    HolderOf(s, node, node.item);
    var gone := heap.SafeDel(node);
    ok := gone != null;
    if node in s {
      WithoutModel(s, node);
      OthersWithout(s, node);
    } else {
      OthersSame(s, node);
      WithoutNone(s, node);
    }
  }

  lemma {:induction false} OthersWithout(s: seq<MapNode>, node: MapNode)
    requires Increasing(KeysOf(s)) && node in s
    ensures Others(ModelOf(s), node) == ModelOf(s) - {node.item}
  {
    hide Increasing, KeysOf, ModelOf;
    ModelHas(s, node);
    forall k | k in ModelOf(s)
      ensures ModelOf(s)[k].item == k
    {
      ModelKey(s, k);
    }
    OthersOne(ModelOf(s), node, node.item);
  }

  lemma {:induction false} OthersOne(m: map<Key, MapNode>, node: MapNode, key: Key)
    requires key in m && m[key] == node && forall k :: k in m && m[k] == node ==> k == key
    ensures Others(m, node) == m - {key}
  {
  }

  lemma {:induction false} OthersSame(s: seq<MapNode>, node: MapNode)
    requires Increasing(KeysOf(s)) && node !in s
    ensures Others(ModelOf(s), node) == ModelOf(s)
  {
    ModelAt(s);
  }

  method Min(heap: Map) returns (s: Node?<Key>)
    requires heap.Valid()
    ensures heap.Valid()
    ensures s == if heap.contents == [] then null else heap.contents[0]
  {
    s := heap.Min();
  }

  // ------------------------------------------------------------------- reset

  /** A node outside every tree gets a new deadline. */
  method SetKey(heap: Map, node: MapNode, timeout: Key)
    requires heap.Valid() && node !in heap.Members()
    modifies node`item
    ensures heap.Valid() && node.item == timeout && heap.Model() == old(heap.Model())
  {
    hide Increasing, Shape, RedBlack, ModelOf;
    heap.MembersAreContents();
    node.item := timeout;
    assert KeysOf(heap.contents) == old(KeysOf(heap.contents));
  }

  method Reset(heap: Map, node: MapNode, timeout: Key) returns (rslt: int)
    requires heap.Valid() && (node in heap.Members() || node.parent == node)
    modifies heap, heap.root, node`item, node`parent, node`red, node`left, node`right
    modifies heap.Members()`left, heap.Members()`right, heap.Members()`parent, heap.Members()`red
    ensures heap.Valid() && node.item == timeout && rslt in {0, -1}
    ensures rslt == -1 <==> timeout in Others(old(heap.Model()), node)
    ensures rslt == 0 ==> heap.Model() == Others(old(heap.Model()), node)[timeout := node] && node in heap.Members()
    ensures rslt == -1 ==> heap.Model() == Others(old(heap.Model()), node) && node.parent == node
    ensures heap.Members() <= old(heap.Members()) + {node}
  {
    hide Increasing, Shape, RedBlack, KeysOf, ModelOf, Without;
    var _ := Del(heap, node);
    SetKey(heap, node, timeout);
    rslt := Add(heap, node);
  }

  /** The i-th deadline tried when starting at `start`. */
  ghost function Tried(start: Key, i: nat): Key {
    (start + i) % KEY_LIMIT
  }

  /** Deadlines are counted up, and after 2^64 - 1 comes 0. */
  lemma {:induction false} TriedExactly(start: Key, i: nat)
    ensures Tried(start, 0) == start
    ensures Tried(start, i + 1) == if Tried(start, i) == 0xFFFF_FFFF_FFFF_FFFF then 0 else Tried(start, i) + 1
  {
  }

  ghost function TriedSet(start: Key, n: nat): set<Key> {
    if n == 0 then {} else TriedSet(start, n - 1) + {Tried(start, n - 1)}
  }

  lemma {:induction false} TriedDiffer(start: Key, i: nat, j: nat)
    requires i < j < KEY_LIMIT
    ensures Tried(start, i) != Tried(start, j)
  {
    var q, r := (start + i) / KEY_LIMIT, (start + j) / KEY_LIMIT;
    assert Tried(start, j) - Tried(start, i) == (j - i) - (r - q) * KEY_LIMIT;
    assert r == q || r == q + 1;
  }

  lemma {:induction false} TriedSize(start: Key, n: nat)
    requires n <= KEY_LIMIT
    ensures |TriedSet(start, n)| == n
    ensures forall k :: k in TriedSet(start, n) ==> exists i: nat :: i < n && k == Tried(start, i)
  {
    hide Tried;
    if n > 0 {
      TriedSize(start, n - 1);
      forall i: nat | i < n - 1
        ensures Tried(start, i) != Tried(start, n - 1)
      {
        TriedDiffer(start, i, n - 1);
      }
      assert Tried(start, n - 1) !in TriedSet(start, n - 1);
    }
  }

  /** When `n` tries failed, `n` other nodes hold the keys tried. */
  lemma {:induction false} FailedTries(start: Key, n: nat, taken: set<Key>)
    requires forall i: nat :: i < n ==> Tried(start, i) in taken
    requires |taken| < KEY_LIMIT
    ensures n <= |taken|
  {
    var k := if n < KEY_LIMIT then n else KEY_LIMIT;
    TriedSize(start, k);
    SubsetSize(TriedSet(start, k), taken);
  }

  lemma {:induction false} SubsetSize<X>(a: set<X>, b: set<X>)
    requires a <= b
    ensures |a| <= |b|
  {
    if a != {} {
      var x :| x in a;
      SubsetSize(a - {x}, b - {x});
    }
  }

  /** `key` is the first deadline from `start` on that is not taken. */
  ghost predicate FirstFree(start: Key, taken: set<Key>, key: Key) {
    key !in taken && exists i: nat :: key == Tried(start, i) && forall j: nat :: j < i ==> Tried(start, j) in taken
  }

  /** Without wrapping: the least free key that is at least `start`. */
  lemma {:induction false} FirstFreeIsLeast(start: Key, taken: set<Key>, key: Key)
    requires FirstFree(start, taken, key) && start + |taken| < KEY_LIMIT
    ensures start <= key && forall k: Key :: start <= k < key ==> k in taken
  {
    var i: nat :| key == Tried(start, i) && forall j: nat :: j < i ==> Tried(start, j) in taken;
    FailedTries(start, i, taken);
    forall k: Key | start <= k < key
      ensures k in taken
    {
      assert k == Tried(start, k - start);
    }
  }

  /** The loop that resets with start, start + 1, ... until the key is free: the
      node ends at the first deadline from `start` on (wrapping with the width of
      uintptr_t) that no other node holds; the other nodes keep theirs. */
  method ResetFrom(heap: Map, node: MapNode, start: Key)
    requires heap.Valid() && (node in heap.Members() || node.parent == node)
    requires |Others(heap.Model(), node)| < KEY_LIMIT
    modifies heap, heap.root, node`item, node`parent, node`red, node`left, node`right
    modifies heap.Members()`left, heap.Members()`right, heap.Members()`parent, heap.Members()`red
    ensures heap.Valid() && node in heap.Members()
    ensures heap.Model() == Others(old(heap.Model()), node)[node.item := node]
    ensures FirstFree(start, Others(old(heap.Model()), node).Keys, node.item)
  {
    hide Increasing, Shape, RedBlack, KeysOf, ModelOf, Without, Tried;
    ghost var others := Others(heap.Model(), node);
    ghost var members := heap.Members();
    var expire := start;
    assert start == Tried(start, 0) by { TriedZero(start); }
    var rslt := Reset(heap, node, expire);
    ghost var i: nat := 0;
    while rslt == -1
      invariant heap.Valid() && node.item == Tried(start, i) && expire == Tried(start, i)
      invariant forall j: nat :: j < i ==> Tried(start, j) in others
      invariant rslt == 0 ==>
        heap.Model() == others[node.item := node] && node in heap.Members() && node.item !in others
      invariant rslt != 0 ==> rslt == -1 && heap.Model() == others && node.parent == node && node.item in others
      invariant heap.Members() <= members + {node}
      decreases |others| - i
    {
      FailedTries(start, i + 1, others.Keys);
      OthersTwice(others, node, old(heap.Model()));
      TriedNext(start, i);
      expire := (expire + 1) % KEY_LIMIT;
      i := i + 1;
      rslt := Reset(heap, node, expire);
    }
  }

  lemma {:induction false} TriedZero(start: Key)
    ensures Tried(start, 0) == start
  {
  }

  lemma {:induction false} TriedNext(start: Key, i: nat)
    ensures Tried(start, i + 1) == (Tried(start, i) + 1) % KEY_LIMIT
  {
  }

  lemma {:induction false} OthersTwice(others: map<Key, MapNode>, node: MapNode, m: map<Key, MapNode>)
    requires others == Others(m, node)
    ensures Others(others, node) == others
  {
  }

  // ------------------------------------------------------------------- drain

  /** The timeout loop of the event loops, with callbacks that arm no timer:
      the timers that are due fire once each, in key order, and only those. */
  method Drain(heap: Map, now: Key) returns (fired: seq<MapNode>)
    requires heap.Valid()
    modifies heap, heap.root
    modifies heap.Members()`left, heap.Members()`right, heap.Members()`parent, heap.Members()`red
    ensures heap.Valid()
    ensures fired + heap.contents == old(heap.contents)
    ensures forall n :: n in fired ==> n.item <= now && n.parent == n
    ensures forall n :: n in heap.contents ==> n.item > now
  {
    hide Increasing, Shape, RedBlack, KeysOf, ModelOf, Without;
    fired := [];
    ghost var members := heap.Members();
    var min := Min(heap);
    while min != null
      invariant heap.Valid() && heap.Members() <= members
      invariant min == if heap.contents == [] then null else heap.contents[0]
      invariant fired + heap.contents == old(heap.contents)
      invariant forall n :: n in fired ==> n.item <= now && n.parent == n && n !in heap.Members()
      decreases |heap.contents|
    {
      if now < min.item {
        AllLater(heap.contents, now);
        break;
      }
      ghost var rest := heap.contents[1..];
      Fire(fired, min, rest, heap.contents);
      PopMin(heap, min);
      fired := fired + [min];
      min := Min(heap);
    }
  }

  /** lts_timer_del of the earliest timer, which always succeeds. */
  method PopMin(heap: Map, min: MapNode)
    requires heap.Valid() && heap.contents != [] && min == heap.contents[0]
    modifies heap, heap.root
    modifies heap.Members()`left, heap.Members()`right, heap.Members()`parent, heap.Members()`red
    ensures heap.Valid() && heap.contents == old(heap.contents[1..]) && min.parent == min
    ensures heap.Members() == old(heap.Members()) - {min}
  {
    hide Increasing, Shape, RedBlack, KeysOf, ModelOf, Without;
    heap.MembersAreContents();
    FirstGone(heap.contents);
    var ok := Del(heap, min);
    assert ok;
  }

  lemma {:induction false} Fire<X>(a: seq<X>, x: X, b: seq<X>, s: seq<X>)
    requires s != [] && x == s[0] && b == s[1..]
    ensures a + s == (a + [x]) + b
  {
  }

  lemma {:induction false} FirstGone(s: seq<MapNode>)
    requires Increasing(KeysOf(s)) && s != []
    ensures Without(s, s[0]) == s[1..]
  {
    FirstUnique(s);
    WithoutNone(s[1..], s[0]);
  }

  lemma {:induction false} FirstUnique(s: seq<MapNode>)
    requires Increasing(KeysOf(s)) && s != []
    ensures s[0] !in s[1..]
  {
    forall i | 0 < i < |s|
      ensures s[i] != s[0]
    {
      assert KeysOf(s)[0] < KeysOf(s)[i];
    }
  }

  lemma {:induction false} AllLater(s: seq<MapNode>, now: Key)
    requires Increasing(KeysOf(s)) && s != [] && now < s[0].item
    ensures forall n :: n in s ==> n.item > now
  {
    FirstIsLeast(s);
  }
}
