/** The functions of src/simple_json.c that build an object member by member. */
module SjsonBuild {
  import opened ByteString
  import opened Sjson
  import opened SjsonTree
  import opened SjsonForest
  import opened SjsonOrder
  import opened RbShape
  import SjsonDecode
  import SjsonEncode

  lemma {:induction false} KeyAmong(items: seq<Entry>, den: Den, key: Bytes)
    ensures HasKey(MembersOf(items, den), key) <==> exists i :: 0 <= i < |items| && items[i].key == key
  {
    if items != [] {
      KeyAmong(items[1..], den, key);
      if i :| 0 <= i < |items| && items[i].key == key {
        assert i > 0 ==> items[1..][i - 1].key == key;
      }
    }
  }

  /** A member is linked exactly when its key is new. */
  lemma {:induction false} LinkedNew(linked: bool, was: seq<Entry>, e: Entry, now: seq<Entry>, den: Den)
    requires SjsonForest.Sorted(was) && NulFree(e.key) && LinkedAs(linked, was, e, now)
    ensures linked <==> !HasKey(MembersOf(was, den), e.key)
  {
    KeyAmong(was, den, e.key);
    SignsMonotone(e.key, was);
    var g := Signs(e.key, was);
    forall i | 0 <= i < |was|
      ensures g[i] == 0 <==> was[i].key == e.key
    {
      CompareEqual(e.key, was[i].key);
    }
  }

  /** lts_sjson_add_kv2, which returns null if the key is there already. */
  method AddKv(o: JsonObj, key: Bytes, val: Bytes, ghost its: Items, ghost den: Den)
    returns (added: bool, ghost now: seq<Entry>)
    requires SjsonDecode.Holding(its) && o in its
    modifies o, o.root, o.nodes`left, o.nodes`right, o.nodes`parent, o.nodes`red
    ensures SjsonDecode.Holding(its[o := now]) && fresh(o.nodes - old(o.nodes))
    ensures Searched(its[o], Kv(key, val), now)
    ensures SjsonForest.Sorted(its[o]) && NulFree(key) ==>
      SjsonForest.Sorted(now) && MembersOf(now, den) == Insert(MembersOf(its[o], den), key, Str(val)) &&
      (added <==> !HasKey(MembersOf(its[o], den), key))
  {
    hide SjsonDecode.Holding, Searched, LinkedAs, SjsonForest.Sorted, MembersOf, Insert;
    var node := new Node(Kv(key, val));
    var s;
    s, now := SjsonDecode.Link(o, node, its);
    added := s == node;
    if SjsonForest.Sorted(its[o]) && NulFree(key) {
      SearchedMembers(its[o], Kv(key, val), now, den);
      LinkedNew(added, its[o], Kv(key, val), now, den);
    }
  }

  /** An empty object, and the node it will be linked with. */
  method NewSub(key: Bytes, ghost its: Items) returns (sub: JsonObj, node: ObjNode)
    requires SjsonDecode.Holding(its)
    ensures fresh(sub) && fresh(sub.root) && fresh(node) && sub !in its && node.item == Sub(key, sub)
    ensures SjsonDecode.Holding(its[sub := []]) && SjsonDecode.Loose(node, its[sub := []])
  {
    hide SjsonDecode.Holding;
    sub := NewEmpty(its);
    node := new Node(Sub(key, sub));
  }

  method NewEmpty(ghost its: Items) returns (o: JsonObj)
    requires SjsonDecode.Holding(its)
    ensures fresh(o) && fresh(o.root) && o !in its && SjsonDecode.Holding(its[o := []])
  {
    hide JsonObj.Valid;
    o := new JsonObj();
  }

  /** lts_sjson_add_sjson2: the new object is linked while it is still empty. */
  method AddSjson(o: JsonObj, key: Bytes, ghost its: Items, ghost den: Den, ghost ms: Members)
    returns (sub: JsonObj, added: bool, ghost now: seq<Entry>)
    requires SjsonDecode.Holding(its) && o in its && Within(its[o], its.Keys) && den.Keys <= its.Keys
    modifies o, o.root, o.nodes`left, o.nodes`right, o.nodes`parent, o.nodes`red
    ensures fresh(sub) && sub !in its && SjsonDecode.Holding(its[sub := []][o := now]) && fresh(o.nodes - old(o.nodes))
    ensures Searched(its[o], Sub(key, sub), now)
    // whatever members the new object gets later, they stand under the key, if that is new
    ensures SjsonForest.Sorted(its[o]) && NulFree(key) ==>
      SjsonForest.Sorted(now) && MembersOf(now, den[sub := ms]) == Insert(MembersOf(its[o], den), key, Obj(ms)) &&
      (added <==> !HasKey(MembersOf(its[o], den), key))
  {
    hide Searched, LinkedAs, SjsonForest.Sorted, MembersOf, Insert, SjsonDecode.Holding, SjsonDecode.Loose;
    hide JsonObj.Valid;
    var node, s;
    sub, node := NewSub(key, its);
    ghost var its1, den1 := its[sub := []], den[sub := ms];
    s, now := SjsonDecode.Link(o, node, its1);
    added := s == node;
    if SjsonForest.Sorted(its[o]) && NulFree(key) {
      SearchedMembers(its[o], Sub(key, sub), now, den1);
      MembersFrame(its[o], den, den1, its.Keys);
      LinkedNew(added, its[o], Sub(key, sub), now, den);
    }
  }

  /** String members, added one after the other. */
  ghost function Additions(keys: seq<Bytes>, vals: seq<Bytes>): (adds: seq<Addition>)
    requires |keys| == |vals|
    ensures |adds| == |keys| && forall i :: 0 <= i < |keys| ==> adds[i] == Addition(keys[i], Str(vals[i]))
  {
    seq(|keys|, i requires 0 <= i < |keys| => Addition(keys[i], Str(vals[i])))
  }

  lemma {:induction false} BuildNext(adds: seq<Addition>, i: nat)
    requires i < |adds|
    ensures Build(adds[..i + 1]) == Insert(Build(adds[..i]), adds[i].key, adds[i].value)
  {
    assert adds[..i + 1][..i] == adds[..i];
  }

  /** A run of calls of lts_sjson_add_kv2 on a new object. */
  method BuildKvs(keys: seq<Bytes>, vals: seq<Bytes>) returns (o: JsonObj, ghost its: Items, ghost den: Den)
    requires |keys| == |vals| && forall i :: 0 <= i < |keys| ==> NulFree(keys[i])
    ensures fresh(o) && SjsonDecode.Holding(its) && Finished(its, den) && o in den
    ensures den[o] == Build(Additions(keys, vals))
  {
    hide Insert, Build, Searched, LinkedAs, SjsonForest.Sorted, MembersOf, HasKey, NulFree;
    o := new JsonObj();
    its, den := map[o := []], map[];
    ghost var adds := Additions(keys, vals);
    NothingBuilt(adds);
    assert SjsonDecode.Holding(its);
    hide SjsonDecode.Holding, Builds;
    for i := 0 to |keys|
      invariant SjsonDecode.Holding(its) && its.Keys == {o} && fresh(o.root) && fresh(o.nodes)
      invariant Builds(its[o], adds, i)
    {
      ghost var now;
      var added;
      added, now := AddKv(o, keys[i], vals[i], its, den);
      BuildsNext(its[o], adds, i, keys[i], vals[i], now);
      its := its[o := now];
    }
    den := map[o := Build(adds)];
    BuildsAll(o, its, adds);
  }

  /** The first `i` additions have been made. */
  ghost predicate Builds(items: seq<Entry>, adds: seq<Addition>, i: int) {
    0 <= i <= |adds| && SjsonForest.Sorted(items) && Within(items, {}) && MembersOf(items, map[]) == Build(adds[..i])
  }

  lemma {:induction false} NothingBuilt(adds: seq<Addition>)
    ensures Builds([], adds, 0)
  {
  }

  lemma {:induction false} BuildsNext(items: seq<Entry>, adds: seq<Addition>, i: nat, key: Bytes, val: Bytes,
                              now: seq<Entry>)
    requires Builds(items, adds, i) && i < |adds| && adds[i] == Addition(key, Str(val)) && NulFree(key)
    requires Searched(items, Kv(key, val), now)
    ensures Builds(now, adds, i + 1)
  {
    hide Build, Insert;
    SearchedMembers(items, Kv(key, val), now, map[]);
    SearchedWithin(items, Kv(key, val), now, {});
    BuildNext(adds, i);
  }

  lemma {:induction false} BuildsAll(o: JsonObj, its: Items, adds: seq<Addition>)
    requires o in its && Builds(its[o], adds, |adds|)
    ensures Finished(its, map[o := Build(adds)])
  {
    assert adds[..|adds|] == adds;
    MembersFrame(its[o], map[], map[o := Build(adds)], {});
  }

  /** The same string members in two orders, each key once: the texts are the same. */
  method BuildTwice(keys: seq<Bytes>, vals: seq<Bytes>, keys': seq<Bytes>, vals': seq<Bytes>, limit: nat)
    returns (r: int, data: array<Byte>, len: nat, r': int, data': array<Byte>, len': nat)
    requires |keys| == |vals| && |keys'| == |vals'|
    requires Addable(Additions(keys, vals)) && Addable(Additions(keys', vals'))
    requires forall x :: x in Additions(keys, vals) <==> x in Additions(keys', vals')
    ensures var text := SjsonEncode.EncodeText(Build(Additions(keys, vals)));
      r == r' == (if |text| < limit then 0 else -1) &&
      (r == 0 ==> len == data.Length - 1 && len' == data'.Length - 1 && data[..len] == data'[..len'] == text)
  {
    hide Build, Addable, SjsonDecode.Holding, Finished;
    AddableKeys(keys, vals);
    AddableKeys(keys', vals');
    OrderOfInsertion(Additions(keys, vals), Additions(keys', vals'));
    var o;
    ghost var its, den;
    o, its, den := BuildKvs(keys, vals);
    r, data, len := SjsonEncode.Encode(o, limit, its, den);
    o, its, den := BuildKvs(keys', vals');
    r', data', len' := SjsonEncode.Encode(o, limit, its, den);
  }

  lemma {:induction false} AddableKeys(keys: seq<Bytes>, vals: seq<Bytes>)
    requires |keys| == |vals| && Addable(Additions(keys, vals))
    ensures forall i :: 0 <= i < |keys| ==> NulFree(keys[i])
  {
    forall i | 0 <= i < |keys|
      ensures NulFree(keys[i])
    {
      assert Additions(keys, vals)[i].key == keys[i];
    }
  }
}
