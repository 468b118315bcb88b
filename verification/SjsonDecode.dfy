/**
 The decoder of src/simple_json.c, building the red-black trees of the objects
 in place.
 */
module SjsonDecode {
  import opened ByteString
  import opened Optional
  import opened Sjson
  import opened SjsonMachine
  import opened SjsonTree
  import opened SjsonForest
  import opened RbShape
  import AdvString

  // ---------------------------------------------------------- objects in the heap

  /** The objects are well formed, have no node in common, and carry these items. */
  ghost predicate Holding(its: Items)
    reads its.Keys, (set o | o in its :: o.root), (set o, n | o in its && n in o.nodes :: n)
  {
    (forall o :: o in its ==> o.Valid() && its[o] == o.Items()) &&
    (forall o, p :: o in its && p in its && o != p ==> o.root != p.root && o.nodes !! p.nodes)
  }

  ghost predicate Loose(node: ObjNode, its: Items)
    reads its.Keys
  {
    forall o :: o in its ==> node !in o.nodes
  }

  lemma {:induction false} PlacedItems(was: seq<ObjNode>, node: ObjNode, k: nat, now: seq<ObjNode>)
    requires Placed(was, node, k, now)
    ensures ItemsOf(now) == ItemsOf(was)[..k] + [node.item] + ItemsOf(was)[k..]
  {
  }

  /** __lts_sjson_search with linking, in terms of items. */
  method LinkItems(cur: JsonObj, node: ObjNode) returns (s: ObjNode)
    requires cur.Valid() && node !in cur.nodes
    modifies cur, cur.root, node`parent, node`red, node`left, node`right
    modifies cur.nodes`left, cur.nodes`right, cur.nodes`parent, cur.nodes`red
    ensures cur.Valid() && LinkedAs(s == node, old(cur.Items()), node.item, cur.Items())
    ensures node.item == old(node.item) && cur.nodes <= old(cur.nodes) + {node}
  {
    hide Shape, RedBlack, SlotFor, Placed;
    ghost var k;
    ghost var was := cur.contents;
    s, k := Search(cur, node, true);
    if s == node {
      PlacedItems(was, node, k, cur.contents);
      assert PlacedAt(old(cur.Items()), node.item, k, cur.Items());
    } else {
      assert cur.Items()[k] == s.item;
    }
  }

  /** Other objects are left alone. */
  method Link(cur: JsonObj, node: ObjNode, ghost its: Items) returns (s: ObjNode, ghost now: seq<Entry>)
    requires Holding(its) && cur in its && Loose(node, its)
    modifies cur, cur.root, node`parent, node`red, node`left, node`right
    modifies cur.nodes`left, cur.nodes`right, cur.nodes`parent, cur.nodes`red
    ensures Holding(its[cur := now]) && Searched(its[cur], node.item, now)
    ensures LinkedAs(s == node, its[cur], node.item, now)
    ensures node.item == old(node.item) && cur.nodes <= old(cur.nodes) + {node}
    ensures forall o :: o in its && o != cur ==> o.nodes == old(o.nodes)
  {
    hide Shape, RedBlack, Searched, LinkedAs, JsonObj.Items, Nodes, InOrder;
    s := LinkItems(cur, node);
    now := cur.Items();
    LinkedSearched(s == node, its[cur], node.item, now);
  }

  // ------------------------------------------------------------- one byte at a time

  /** The states in which the decoder does not abort. */
  ghost predicate Sane(st: State) {
    st.stat != ExpEnd && st.stat != ExpKeyStart &&
    (st.stat in {ExpItemOrEnd, ExpCommaOrBracket} ==> st.inBracket) &&
    (st.inBracket ==> st.stat in {ExpItemOrEnd, ExpCommaOrBracket, ExpStrEnd}) &&
    (st.stat == ExpNothing ==> st.stack == [])
  }

  lemma {:induction false} SaneStep(st: State, b: Byte)
    requires Sane(st) && Step(st, b).Some?
    ensures Sane(Step(st, b).value)
  {
  }

  /** The local variables of the decoder, in terms of the machine. */
  ghost predicate Matches(st: State, stat: Stat, inBracket: bool, key: Bytes,
                          kv: Node?<Entry>, list: Node?<Entry>, li: Option<Bytes>)
    reads kv, list
  {
    stat == st.stat && inBracket == st.inBracket && key == st.key &&
    li == (if stat == ExpStrEnd && inBracket then Some(st.str) else None) &&
    (if stat == ExpStrEnd && !inBracket then kv != null && kv.item == Kv(st.key, st.str) else kv == null) &&
    (if inBracket then list != null && list.item == Li(st.key, st.items) else list == null)
  }

  /** Between a key and the end of its value. */
  ghost predicate KeyInUse(st: State) {
    st.stat in {ExpColon, ExpValue, ExpStrEnd, ExpItemOrEnd, ExpCommaOrBracket}
  }

  /** As long as keys are NUL-free the heap agrees with the machine. */
  ghost predicate Tracks(pure: bool, its: Items, den: Den, st: State, path: seq<JsonObj>) {
    pure && st.clean ==> Rep(its, den, st, path) && (KeyInUse(st) ==> NulFree(st.key))
  }

  /**
   The objects `its` in the heap: `stack` holds the open ones below `output`; `mine` is
   what the decoder has allocated, `base` the nodes that `output` had before;
   the string or the list being read is in no tree yet.
   */
  ghost predicate World(its: Items, its0: Items, output: JsonObj, stack: seq<JsonObj>,
                        base: set<ObjNode>, mine: set<object>, kv: Node?<Entry>, list: Node?<Entry>)
    reads its.Keys, (set o | o in its :: o.root), (set o, n | o in its && n in o.nodes :: n)
  {
    Holding(its) && its0.Keys <= its.Keys && output in its0 &&
    (forall k :: 0 <= k < |stack| ==> stack[k] in its && stack[k] !in its0) &&
    (forall o :: o in its && o !in its0 ==> o in mine && o.root in mine && forall n :: n in o.nodes ==> n in mine) &&
    (forall n :: n in output.nodes ==> n in base || n in mine) &&
    (kv != null ==> kv in mine && Loose(kv, its)) &&
    (list != null ==> list in mine && Loose(list, its))
  }

  function Innermost(output: JsonObj, stack: seq<JsonObj>): JsonObj {
    if stack == [] then output else stack[|stack| - 1]
  }

  method NewNode(e: Entry, ghost its: Items, ghost its0: Items, output: JsonObj, stack: seq<JsonObj>,
                 ghost base: set<ObjNode>, ghost mine: set<object>) returns (node: ObjNode, ghost mine': set<object>)
    requires World(its, its0, output, stack, base, mine, null, null)
    ensures World(its, its0, output, stack, base, mine', node, null)
    ensures World(its, its0, output, stack, base, mine', null, node)
    ensures fresh(node) && node.item == e && mine' == mine + {node}
  {
    hide JsonObj.Valid;
    node := new Node(e);
    mine' := mine + {node};
  }

  /** A byte more in a string, or an element more in a list. */
  method Update(node: ObjNode, e: Entry, ghost its: Items, ghost its0: Items, output: JsonObj, stack: seq<JsonObj>,
                ghost base: set<ObjNode>, ghost mine: set<object>, kv: Node?<Entry>, list: Node?<Entry>)
    requires World(its, its0, output, stack, base, mine, kv, list) && (node == kv || node == list)
    modifies node`item
    ensures World(its, its0, output, stack, base, mine, kv, list) && node.item == e
  {
    hide JsonObj.Valid;
    node.item := e;
  }

  /** The innermost object gets `node`, unless it has its key already. */
  method LinkTop(node: ObjNode, ghost its: Items, ghost its0: Items, output: JsonObj, stack: seq<JsonObj>,
                 ghost base: set<ObjNode>, ghost mine: set<object>, kv: Node?<Entry>, list: Node?<Entry>)
    returns (ghost now: seq<Entry>)
    requires World(its, its0, output, stack, base, mine, kv, list) && (node == kv || node == list)
    modifies output, output.root, mine, base`left, base`right, base`parent, base`red
    ensures World(its[Innermost(output, stack) := now], its0, output, stack, base, mine, null, null)
    ensures Innermost(output, stack) in its && Searched(its[Innermost(output, stack)], old(node.item), now)
  {
    hide Holding, Searched;
    var obj := Innermost(output, stack);
    var s;
    s, now := Link(obj, node, its);
  }

  /** A finished string or list goes into the innermost object. */
  method Attach(node: ObjNode, ghost its: Items, ghost its0: Items, output: JsonObj, stack: seq<JsonObj>,
                ghost base: set<ObjNode>, ghost mine: set<object>, kv: Node?<Entry>, list: Node?<Entry>,
                ghost den: Den, ghost pure: bool, ghost st: State, ghost st': State) returns (ghost its': Items)
    requires World(its, its0, output, stack, base, mine, kv, list) && (node == kv || node == list)
    requires |stack| == |st.stack| && !node.item.Sub? && KeyInUse(st) && st'.clean == st.clean
    requires Tracks(pure, its, den, st, [output] + stack) && node.item.key == st.key == st'.key
    requires st'.stack == st.stack && st'.obj == Insert(st.obj, st.key, ValueOf(node.item, den))
    modifies output, output.root, mine, base`left, base`right, base`parent, base`red
    ensures World(its', its0, output, stack, base, mine, null, null)
    ensures Tracks(pure, its', den, st', [output] + stack)
  {
    hide World, Rep, Searched, Insert;
    ghost var e, obj := node.item, Innermost(output, stack);
    assert ([output] + stack)[|stack|] == obj;
    ghost var now := LinkTop(node, its, its0, output, stack, base, mine, kv, list);
    its' := its[obj := now];
    if pure && st.clean { AddStep(its, den, st, [output] + stack, e, now, st'); }
  }

  /** A nested object is linked before its members are read. */
  method Open(key: Bytes, ghost its: Items, ghost its0: Items, output: JsonObj, stack: seq<JsonObj>,
              ghost base: set<ObjNode>, ghost mine: set<object>, ghost den: Den, ghost pure: bool,
              ghost st: State, ghost st': State)
    returns (child: JsonObj, ghost its': Items, ghost mine': set<object>)
    requires World(its, its0, output, stack, base, mine, null, null)
    requires |stack| == |st.stack| && KeyInUse(st) && st'.clean == st.clean
    requires Tracks(pure, its, den, st, [output] + stack) && key == st.key == st'.key
    requires st'.stack == st.stack + [Frame(st.obj, st.key)] && st'.obj == End
    modifies output, output.root, mine, base`left, base`right, base`parent, base`red
    ensures World(its', its0, output, stack + [child], base, mine', null, null)
    ensures Tracks(pure, its', den, st', [output] + (stack + [child])) && fresh(mine' - mine)
  {
    hide World, Rep, Searched, Insert;
    child, mine' := NewObject(its, its0, output, stack, base, mine);
    ghost var its1, obj := its[child := []], Innermost(output, stack);
    var node;
    node, mine' := NewNode(Sub(key, child), its1, its0, output, stack, base, mine');
    ghost var now := LinkTop(node, its1, its0, output, stack, base, mine', node, null);
    its' := its1[obj := now];
    WorldPush(its', its0, output, stack, base, mine', child);
    if pure && st.clean {
      assert its' == its[obj := now][child := []] && ([output] + stack)[|stack|] == obj;
      assert [output] + (stack + [child]) == [output] + stack + [child];
      OpenStep(its, den, st, [output] + stack, child, now, st');
    }
  }

  method NewObject(ghost its: Items, ghost its0: Items, output: JsonObj, stack: seq<JsonObj>,
                   ghost base: set<ObjNode>, ghost mine: set<object>) returns (child: JsonObj, ghost mine': set<object>)
    requires World(its, its0, output, stack, base, mine, null, null)
    ensures World(its[child := []], its0, output, stack, base, mine', null, null)
    ensures fresh(mine' - mine) && mine <= mine'
    ensures child !in its && child !in its0 && Innermost(output, stack) in its
  {
    hide JsonObj.Valid;
    child := new JsonObj();
    mine' := mine + {child, child.root};
  }

  lemma {:induction false} WorldPush(its: Items, its0: Items, output: JsonObj, stack: seq<JsonObj>,
                              base: set<ObjNode>, mine: set<object>, child: JsonObj)
    requires World(its, its0, output, stack, base, mine, null, null) && child in its && child !in its0
    ensures World(its, its0, output, stack + [child], base, mine, null, null)
  {
  }

  /** A step that changes no object. */
  lemma {:induction false} Quiet(pure: bool, its: Items, den: Den, st: State, path: seq<JsonObj>, st': State, b: Byte)
    requires Tracks(pure, its, den, st, path) && Step(st, b) == Some(st')
    requires |path| == |st.stack| + 1
    ensures st'.obj == st.obj && st'.stack == st.stack ==> Tracks(pure, its, den, st', path)
  {
    CleanStep(st, b, st');
    hide Step, Sorted, OnPath, Finished, Within, Hanging, MembersOf;
  }

  lemma {:induction false} CleanStep(st: State, b: Byte, st': State)
    requires Step(st, b) == Some(st')
    ensures st'.clean ==> st.clean
    ensures st'.clean && KeyInUse(st') ==> (KeyInUse(st) && st'.key == st.key) || NulFree(st'.key)
  {
  }

  method Filter(src: AdvString.Str, ghost its: Items) returns (removed: nat)
    requires src.Valid() && Holding(its)
    modifies src`len, src.buffer
    ensures src.Valid() && src.Contents() == Stripped(old(src.Contents())) && Holding(its)
    ensures AdvString.Outside(src, old(src.buffer[..]), old(src.len))
    ensures AdvString.Ended(src, old(src.len), AdvString.Elements(INVISIBLE))
  {
    removed := AdvString.FilterMulti(src, INVISIBLE);
  }

  // --------------------------------------------- the states outside a value

  /** The closing brace of the innermost object. */
  method Pop(ghost its: Items, ghost its0: Items, output: JsonObj, stack: seq<JsonObj>, ghost base: set<ObjNode>,
             ghost mine: set<object>, ghost den: Den, ghost pure: bool, ghost st: State)
    returns (stat: Stat, stack': seq<JsonObj>, ghost den': Den)
    requires World(its, its0, output, stack, base, mine, null, null) && |stack| == |st.stack|
    requires Tracks(pure, its, den, st, [output] + stack)
    ensures World(its, its0, output, stack', base, mine, null, null) && |stack'| == |Close(st).stack|
    ensures Tracks(pure, its, den', Close(st), [output] + stack') && stat == Close(st).stat
  {
    hide World, Rep, Insert;
    den', stack' := den, stack;
    if stack == [] {
      stat := ExpNothing;
      Ended(pure, its, den, st, [output] + stack);
    } else {
      stat := ExpCommaOrEnd;
      den' := Closing(pure, its, den, st, [output] + stack, Close(st));
      WorldPop(its, its0, output, stack, base, mine);
      stack' := stack[..|stack| - 1];
    }
  }

  lemma {:induction false} Ended(pure: bool, its: Items, den: Den, st: State, path: seq<JsonObj>)
    requires Tracks(pure, its, den, st, path) && st.stack == [] && |path| == 1
    ensures Tracks(pure, its, den, Close(st), path)
  {
  }

  method ReadKey(b: Byte, stat: Stat, key: Bytes, ghost its: Items, ghost its0: Items, output: JsonObj,
                 stack: seq<JsonObj>,
                 ghost base: set<ObjNode>, ghost mine: set<object>, ghost den: Den, ghost pure: bool, ghost st: State)
    returns (ok: bool, stat': Stat, key': Bytes, stack': seq<JsonObj>, ghost den': Den)
    requires World(its, its0, output, stack, base, mine, null, null) && |stack| == |st.stack| && Sane(st)
    requires Tracks(pure, its, den, st, [output] + stack)
    requires stat !in {ExpValue, ExpItemOrEnd, ExpStrEnd, ExpCommaOrBracket}
    requires Matches(st, stat, false, key, null, null, None)
    ensures World(its, its0, output, stack', base, mine, null, null)
    ensures ok <==> Step(st, b).Some?
    ensures ok ==> Matches(Step(st, b).value, stat', false, key', null, null, None)
    ensures ok ==>
      |stack'| == |Step(st, b).value.stack| && Tracks(pure, its, den', Step(st, b).value, [output] + stack')
  {
    hide World, Rep, Insert;
    ok, stat', key', stack', den' := true, stat, key, stack, den;
    if Step(st, b).Some? { Quiet(pure, its, den, st, [output] + stack, Step(st, b).value, b); }
    match stat {
      case ExpStart =>
        if b != LBRACE { return false, stat, key, stack, den; }
        stat' := ExpKeyOrEnd;
      case ExpKeyOrEnd =>
        if b == QUOTE {
          stat' := ExpKeyEnd;
          key' := [];
        } else if b == RBRACE {
          stat', stack', den' := Pop(its, its0, output, stack, base, mine, den, pure, st);
        } else {
          ok := false;
        }
      case ExpKeyStart =>
        if b == QUOTE {
          stat' := ExpKeyEnd;
          key' := [];
        }
      case ExpKeyEnd =>
        if b == QUOTE {
          stat' := ExpColon;
        } else {
          key' := key + [b];
        }
      case ExpNothing =>
        ok := false;
      case ExpColon =>
        if b != COLON { return false, stat, key, stack, den; }
        stat' := ExpValue;
      case ExpCommaOrEnd =>
        assert !st.inBracket;  // else the source aborts
        if b == COMMA {
          stat' := ExpKeyOrEnd;
        } else if b == RBRACE {
          stat', stack', den' := Pop(its, its0, output, stack, base, mine, den, pure, st);
        } else {
          ok := false;
        }
      case ExpEnd =>
        assert false;  // the source aborts
    }
  }

  // ---------------------------------------------- the states inside a value

  /** SJSON_EXP_V_MAP_OR_QUOT_OR_BRACKET_START */
  method ReadValue(b: Byte, key: Bytes, ghost its: Items, ghost its0: Items, output: JsonObj, stack: seq<JsonObj>,
                   ghost base: set<ObjNode>, ghost mine: set<object>, ghost den: Den, ghost pure: bool, ghost st: State)
    returns (ok: bool, stat: Stat, inBracket: bool, kv: Node?<Entry>, list: Node?<Entry>, stack': seq<JsonObj>,
             ghost its': Items, ghost mine': set<object>)
    requires World(its, its0, output, stack, base, mine, null, null) && |stack| == |st.stack|
    requires Tracks(pure, its, den, st, [output] + stack)
    requires Matches(st, ExpValue, false, key, null, null, None)
    modifies output, output.root, mine, base`left, base`right, base`parent, base`red
    ensures World(its', its0, output, stack', base, mine', kv, list) && fresh(mine' - mine)
    ensures ok <==> Step(st, b).Some?
    ensures ok ==> Matches(Step(st, b).value, stat, inBracket, key, kv, list, None)
    ensures ok ==>
      |stack'| == |Step(st, b).value.stack| && Tracks(pure, its', den, Step(st, b).value, [output] + stack')
  {
    hide World, Rep, Insert;
    ok, stat, inBracket, kv, list, stack', its', mine' := true, ExpValue, false, null, null, stack, its, mine;
    ghost var next := Step(st, b);
    if next.Some? { Quiet(pure, its, den, st, [output] + stack, next.value, b); }
    if b == QUOTE {
      stat := ExpStrEnd;
      kv, mine' := NewNode(Kv(key, []), its, its0, output, stack, base, mine);
    } else if b == LBRACKET {
      inBracket := true;
      stat := ExpItemOrEnd;
      list, mine' := NewNode(Li(key, []), its, its0, output, stack, base, mine);
    } else if b == LBRACE {
      stat := ExpKeyOrEnd;
      var child;
      child, its', mine' := Open(key, its, its0, output, stack, base, mine, den, pure, st, next.value);
      stack' := stack + [child];
    } else {
      ok := false;
    }
  }

  /** SJSON_EXP_V_QUOT_START_OR_BRACKET_END and SJSON_EXP_COMMA_OR_BRACKET_END */
  method ReadList(b: Byte, stat: Stat, inBracket: bool, list: ObjNode, ghost its: Items, ghost its0: Items,
                  output: JsonObj,
                  stack: seq<JsonObj>, ghost base: set<ObjNode>, ghost mine: set<object>, ghost den: Den,
                  ghost pure: bool, ghost st: State)
    returns (ok: bool, stat': Stat, inBracket': bool, list': Node?<Entry>, li: Option<Bytes>, ghost its': Items)
    requires World(its, its0, output, stack, base, mine, null, list) && |stack| == |st.stack| && Sane(st)
    requires Tracks(pure, its, den, st, [output] + stack)
    requires stat in {ExpItemOrEnd, ExpCommaOrBracket} && Matches(st, stat, inBracket, st.key, null, list, None)
    modifies output, output.root, mine, base`left, base`right, base`parent, base`red
    ensures World(its', its0, output, stack, base, mine, null, list')
    ensures ok <==> Step(st, b).Some?
    ensures ok ==> Matches(Step(st, b).value, stat', inBracket', st.key, null, list', li)
    ensures ok ==> |stack| == |Step(st, b).value.stack| && Tracks(pure, its', den, Step(st, b).value, [output] + stack)
  {
    hide World, Rep, Insert;
    assert inBracket;  // else the source aborts
    ok, stat', inBracket', list', li, its' := true, stat, true, list, None, its;
    ghost var next := Step(st, b);
    if next.Some? { Quiet(pure, its, den, st, [output] + stack, next.value, b); }
    if stat == ExpItemOrEnd && b == QUOTE {
      stat' := ExpStrEnd;
      li := Some([]);
    } else if stat == ExpCommaOrBracket && b == COMMA {
      stat' := ExpItemOrEnd;
    } else if b == RBRACKET {
      inBracket' := false;
      stat' := ExpCommaOrEnd;
      its' := Attach(list, its, its0, output, stack, base, mine, null, list, den, pure, st, next.value);
      list' := null;
    } else {
      ok := false;
    }
  }

  /** SJSON_EXP_V_QUOT_END */
  method ReadString(b: Byte, inBracket: bool, kv: Node?<Entry>, list: Node?<Entry>, li: Option<Bytes>, ghost its: Items,
                    ghost its0: Items, output: JsonObj, stack: seq<JsonObj>, ghost base: set<ObjNode>,
                    ghost mine: set<object>,
                    ghost den: Den, ghost pure: bool, ghost st: State)
    returns (stat: Stat, kv': Node?<Entry>, li': Option<Bytes>, ghost its': Items)
    requires World(its, its0, output, stack, base, mine, kv, list) && |stack| == |st.stack|
    requires Tracks(pure, its, den, st, [output] + stack)
    requires Matches(st, ExpStrEnd, inBracket, st.key, kv, list, li)
    modifies output, output.root, mine, base`left, base`right, base`parent, base`red
    ensures World(its', its0, output, stack, base, mine, kv', list) && Step(st, b).Some?
    ensures Matches(Step(st, b).value, stat, inBracket, st.key, kv', list, li')
    ensures |stack| == |Step(st, b).value.stack| && Tracks(pure, its', den, Step(st, b).value, [output] + stack)
  {
    hide Rep, Insert, Holding;
    stat, kv', li', its' := ExpStrEnd, kv, li, its;
    ghost var next := Step(st, b);
    Quiet(pure, its, den, st, [output] + stack, next.value, b);
    if inBracket {
      if b == QUOTE {
        stat := ExpCommaOrBracket;
        Update(list, list.item.(items := [li.value] + list.item.items), its, its0, output, stack, base, mine, kv, list);
        li' := None;
      } else {
        li' := Some(li.value + [b]);
      }
    } else if b == QUOTE {
      stat := ExpCommaOrEnd;
      its' := Attach(kv, its, its0, output, stack, base, mine, kv, list, den, pure, st, next.value);
      kv' := null;
    } else {
      Update(kv, kv.item.(val := kv.item.val + [b]), its, its0, output, stack, base, mine, kv, list);
    }
  }

  /** One round of the loop. */
  method ReadByte(b: Byte, stat0: Stat, inBracket0: bool, key0: Bytes, kv0: Node?<Entry>, list0: Node?<Entry>,
                  li0: Option<Bytes>,
                  stack0: seq<JsonObj>, output: JsonObj, ghost its: Items, ghost its0: Items, ghost den: Den,
                  ghost base: set<ObjNode>, ghost mine: set<object>, ghost pure: bool, ghost st: State)
    returns (ok: bool, stat: Stat, inBracket: bool, key: Bytes, kv: Node?<Entry>, list: Node?<Entry>, li: Option<Bytes>,
             stack: seq<JsonObj>, ghost its': Items, ghost den': Den, ghost mine': set<object>)
    requires World(its, its0, output, stack0, base, mine, kv0, list0) && |stack0| == |st.stack| && Sane(st)
    requires Tracks(pure, its, den, st, [output] + stack0)
    requires Matches(st, stat0, inBracket0, key0, kv0, list0, li0)
    modifies output, output.root, mine, base`left, base`right, base`parent, base`red
    ensures World(its', its0, output, stack, base, mine', kv, list) && fresh(mine' - mine)
    ensures ok <==> Step(st, b).Some?
    ensures ok ==> Matches(Step(st, b).value, stat, inBracket, key, kv, list, li)
    ensures ok ==> |stack| == |Step(st, b).value.stack| && Tracks(pure, its', den', Step(st, b).value, [output] + stack)
  {
    hide World, Tracks, Step;
    ok, stat, inBracket, key, kv, list, li := true, stat0, inBracket0, key0, kv0, list0, li0;
    stack, its', den', mine' := stack0, its, den, mine;
    if stat == ExpValue {
      ok, stat, inBracket, kv, list, stack, its', mine' :=
        ReadValue(b, key, its, its0, output, stack, base, mine, den, pure, st);
    } else if stat == ExpItemOrEnd || stat == ExpCommaOrBracket {
      ok, stat, inBracket, list, li, its' :=
        ReadList(b, stat, inBracket, list, its, its0, output, stack, base, mine, den, pure, st);
    } else if stat == ExpStrEnd {
      stat, kv, li, its' := ReadString(b, inBracket, kv, list, li, its, its0, output, stack, base, mine, den, pure, st);
    } else {
      ok, stat, key, stack, den' := ReadKey(b, stat, key, its, its0, output, stack, base, mine, den, pure, st);
    }
  }

  // ------------------------------------------------------------------ the loop

  const INVISIBLE: Bytes := [TAB, LF, CR, SPACE]

  /** The input with all white space taken out, also inside quotes. */
  ghost function Stripped(s: Bytes): Bytes {
    AdvString.Filtered(s, AdvString.Elements(INVISIBLE))
  }

  /** White space is tabs, line feeds, carriage returns and spaces. */
  lemma {:induction false} WhiteSpace(b: Byte)
    ensures b in AdvString.Elements(INVISIBLE) <==> b == 9 || b == 10 || b == 13 || b == 32
  {
  }

  /** Each byte of the input, wherever it stands, is dropped or stays. */
  lemma {:induction false} StrippedByte(a: Bytes, b: Byte, c: Bytes)
    ensures Stripped(a + [b] + c) ==
      if b == 9 || b == 10 || b == 13 || b == 32 then Stripped(a + c) else Stripped(a) + [b] + Stripped(c)
  {
    var drop := AdvString.Elements(INVISIBLE);
    WhiteSpace(b);
    AdvString.FilteredConcat(a + [b], c, drop);
    AdvString.FilteredConcat(a, [b], drop);
    AdvString.FilteredConcat(a, c, drop);
    AdvString.FilteredAll([b], drop);
    hide AdvString.Filtered, AdvString.Elements;
    assert AdvString.Filtered(a, drop) + [] == AdvString.Filtered(a, drop);
  }

  /** The machine has read `text[..i]`. */
  ghost predicate ReadUpTo(text: Bytes, i: nat, ms0: Members, st: State) {
    i <= |text| && Run(Init(ms0), text[..i]) == Some(st) && Sane(st)
  }

  lemma {:induction false} ReadNothing(text: Bytes, ms0: Members)
    ensures ReadUpTo(text, 0, ms0, Init(ms0))
  {
  }

  lemma {:induction false} ReadOne(text: Bytes, i: nat, ms0: Members, st: State)
    requires ReadUpTo(text, i, ms0, st) && i < |text|
    ensures Step(st, text[i]).Some? ==> ReadUpTo(text, i + 1, ms0, Step(st, text[i]).value)
    ensures Step(st, text[i]).None? ==> !Accepting(Init(ms0), text)
    ensures Sane(st)
  {
    var b := text[i];
    assert text[..i + 1] == text[..i] + [b];
    RunTwo(Init(ms0), text[..i], st, [b]);
    RunOne(st, b);
    if Step(st, b).Some? {
      SaneStep(st, b);
    } else {
      assert text == text[..i + 1] + text[i + 1..];
      RunConcat(Init(ms0), text[..i + 1], text[i + 1..]);
    }
  }

  /** The object has these members, and every object below it stands for a value. */
  ghost predicate Denotes(its: Items, den: Den, output: JsonObj, ms: Members) {
    Finished(its, den) && (forall o :: o in its ==> Sorted(its[o])) &&
    output in its && Within(its[output], den.Keys) && MembersOf(its[output], den) == ms
  }

  /** If the text is in the grammar and has NUL-free keys, the object has the members that the grammar gives it. */
  ghost predicate Decoded(its: Items, den: Den, output: JsonObj, text: Bytes, ms0: Members) {
    forall ms, comma :: WfValue(CObj(ms, comma)) && text == Text(CObj(ms, comma)) && CleanMembers(ms) ==>
      Denotes(its, den, output, DenoteMembers(ms, ms0))
  }

  lemma {:induction false} HasDecoded(pure: bool, its: Items, den: Den, st: State, output: JsonObj, text: Bytes,
                              ms0: Members)
    requires pure && Tracks(pure, its, den, st, [output]) && Run(Init(ms0), text) == Some(st) && st.stack == []
    ensures Decoded(its, den, output, text, ms0)
  {
    forall ms, comma | WfValue(CObj(ms, comma)) && text == Text(CObj(ms, comma)) && CleanMembers(ms)
      ensures Denotes(its, den, output, DenoteMembers(ms, ms0))
    {
      var end := Accepted(ms, comma, ms0);
    }
  }

  /** A byte that fits nowhere, or an end too early. */
  lemma {:induction false} Rejected(its: Items, den: Den, st: State, output: JsonObj, text: Bytes, i: nat, ms0: Members)
    requires ReadUpTo(text, i, ms0, st)
    requires if i < |text| then Step(st, text[i]).None? else st.stat != ExpNothing
    ensures !InGrammar(text) && Decoded(its, den, output, text, ms0)
  {
    AcceptsExactlyTheGrammar(text, ms0);
    if i < |text| {
      ReadOne(text, i, ms0, st);
    } else {
      assert text[..i] == text;
    }
    hide Decoded;
    NothingDecoded(its, den, output, text, ms0);
  }

  lemma {:induction false} NothingDecoded(its: Items, den: Den, output: JsonObj, text: Bytes, ms0: Members)
    requires !InGrammar(text)
    ensures Decoded(its, den, output, text, ms0)
  {
  }

  /** The end after the last brace. */
  lemma {:induction false} Completed(pure: bool, its: Items, den: Den, st: State, output: JsonObj, stack: seq<JsonObj>,
                              text: Bytes, ms0: Members)
    requires ReadUpTo(text, |text|, ms0, st) && st.stat == ExpNothing
    requires Tracks(pure, its, den, st, [output] + stack) && |stack| == |st.stack|
    ensures InGrammar(text) && (pure ==> Decoded(its, den, output, text, ms0))
  {
    AcceptsExactlyTheGrammar(text, ms0);
    assert text[..|text|] == text;
    hide Decoded, Tracks;
    assert [output] + stack == [output];
    if pure { HasDecoded(pure, its, den, st, output, text, ms0); }
  }

  /** lts_sjson_decode */
  method Decode(src: AdvString.Str, output: JsonObj, ghost its0: Items, ghost den0: Den, ghost ms0: Members)
    returns (r: int, ghost its: Items, ghost den: Den)
    requires src.Valid() && Holding(its0) && output in its0
    modifies src`len, src.buffer
    modifies output, output.root, output.nodes`left, output.nodes`right, output.nodes`parent, output.nodes`red
    ensures src.Valid() && src.Contents() == Stripped(old(src.Contents()))
    ensures AdvString.Outside(src, old(src.buffer[..]), old(src.len))
    ensures AdvString.Ended(src, old(src.len), AdvString.Elements(INVISIBLE))
    ensures r in {0, -1} && (r == 0 <==> InGrammar(src.Contents()))
    ensures Holding(its) && its0.Keys <= its.Keys
    ensures Rep(its0, den0, Init(ms0), [output]) ==> Decoded(its, den, output, src.Contents(), ms0)
  {
    hide Holding, Rep, Stripped, InGrammar, Decoded, AdvString.Outside, AdvString.Ended, AdvString.Str.Contents;
    var removed := Filter(src, its0);
    r, its, den := ReadAll(src, output, its0, den0, ms0);
  }

  /** The loop, after the white space has gone. */
  method ReadAll(src: AdvString.Str, output: JsonObj, ghost its0: Items, ghost den0: Den, ghost ms0: Members)
    returns (r: int, ghost its: Items, ghost den: Den)
    requires src.Valid() && Holding(its0) && output in its0
    modifies output, output.root, output.nodes`left, output.nodes`right, output.nodes`parent, output.nodes`red
    ensures r in {0, -1} && (r == 0 <==> InGrammar(src.Contents()))
    ensures Holding(its) && its0.Keys <= its.Keys
    ensures Rep(its0, den0, Init(ms0), [output]) ==> Decoded(its, den, output, src.Contents(), ms0)
  {
    hide Holding, Rep, Run, World, Step, InGrammar, Decoded, Tracks, Matches, ReadUpTo, AdvString.Str.Contents;
    hide JsonObj.Valid, Sane;
    its, den := its0, den0;
    ghost var st := Init(ms0);
    ghost var text := src.Contents();
    ghost var pure := Rep(its0, den0, Init(ms0), [output]);
    ghost var base, mine: set<object> := output.nodes, {};

    var stack: seq<JsonObj> := [];
    var inBracket := false;
    var stat := ExpStart;
    var key: Bytes := [];
    var kv: Node?<Entry>, list: Node?<Entry> := null, null;
    var li: Option<Bytes> := None;
    var i := 0;
    ReadNothing(text, ms0);
    assert [output] + stack == [output];
    WorldStart(its0, output);
    MatchesStart(st);
    TracksStart(its0, den0, ms0, output);
    while i < src.len
      invariant 0 <= i <= src.len
      invariant ReadUpTo(text, i, ms0, st) && |st.stack| == |stack|
      invariant World(its, its0, output, stack, base, mine, kv, list) && fresh(mine)
      invariant Tracks(pure, its, den, st, [output] + stack)
      invariant Matches(st, stat, inBracket, key, kv, list, li)
    {
      var b := src.buffer[src.start + i];
      src.ByteAt(i);
      ReadOne(text, i, ms0, st);
      var ok;
      ok, stat, inBracket, key, kv, list, li, stack, its, den, mine :=
        ReadByte(b, stat, inBracket, key, kv, list, li, stack, output, its, its0, den, base, mine, pure, st);
      if !ok {
        WorldHolds(its, its0, output, stack, base, mine, kv, list);
        Rejected(its, den, st, output, text, i, ms0);
        return -1, its, den;
      }
      st := Step(st, b).value;
      i := i + 1;
    }
    WorldHolds(its, its0, output, stack, base, mine, kv, list);
    MatchesStat(st, stat, inBracket, key, kv, list, li);
    r := if stat == ExpNothing then 0 else -1;
    if r == 0 {
      Completed(pure, its, den, st, output, stack, text, ms0);
    } else {
      Rejected(its, den, st, output, text, i, ms0);
    }
  }

  lemma {:induction false} MatchesStart(st: State)
    requires st.stat == ExpStart && !st.inBracket && st.key == []
    ensures Matches(st, ExpStart, false, [], null, null, None)
  {
  }

  lemma {:induction false} MatchesStat(st: State, stat: Stat, inBracket: bool, key: Bytes,
                              kv: Node?<Entry>, list: Node?<Entry>, li: Option<Bytes>)
    requires Matches(st, stat, inBracket, key, kv, list, li)
    ensures stat == st.stat
  {
  }

  lemma {:induction false} TracksStart(its: Items, den: Den, ms0: Members, output: JsonObj)
    ensures Tracks(Rep(its, den, Init(ms0), [output]), its, den, Init(ms0), [output])
  {
  }

  lemma {:induction false} WorldStart(its: Items, output: JsonObj)
    requires Holding(its) && output in its
    ensures World(its, its, output, [], output.nodes, {}, null, null)
  {
  }

  lemma {:induction false} WorldHolds(its: Items, its0: Items, output: JsonObj, stack: seq<JsonObj>,
                   base: set<ObjNode>, mine: set<object>, kv: Node?<Entry>, list: Node?<Entry>)
    requires World(its, its0, output, stack, base, mine, kv, list)
    ensures Holding(its) && its0.Keys <= its.Keys
  {
  }

  lemma {:induction false} WorldPop(its: Items, its0: Items, output: JsonObj, stack: seq<JsonObj>,
                              base: set<ObjNode>, mine: set<object>)
    requires World(its, its0, output, stack, base, mine, null, null) && stack != []
    ensures World(its, its0, output, stack[..|stack| - 1], base, mine, null, null)
    ensures [output] + stack[..|stack| - 1] == ([output] + stack)[..|stack|]
  {
  }

  lemma {:induction false} Closing(pure: bool, its: Items, den: Den, st: State, path: seq<JsonObj>,
                              st': State) returns (den': Den)
    requires Tracks(pure, its, den, st, path) && st.stack != [] && |path| == |st.stack| + 1
    requires st'.stack == st.stack[..|st.stack| - 1] && st'.clean == st.clean && !KeyInUse(st')
    requires var f := st.stack[|st.stack| - 1]; st'.obj == Insert(f.members, f.key, Obj(st.obj))
    ensures Tracks(pure, its, den', st', path[..|st.stack|])
  {
    den' := den;
    if pure && st.clean { den' := CloseStep(its, den, st, path, st'); }
  }
}
