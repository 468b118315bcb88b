/**
 What the objects that a decoder has built so far stand for.  Everything here is
 about values: the items of each object in walk order, and the members that
 each finished object denotes.
 */
module SjsonForest {
  import opened ByteString
  import opened Sjson
  import opened SjsonMachine
  import opened SjsonTree

  type Items = map<JsonObj, seq<Entry>>
  type Den = map<JsonObj, Members>

  ghost function ValueOf(e: Entry, den: Den): Value {
    match e
    case Kv(_, val) => Str(val)
    case Li(_, items) => List(items)
    case Sub(_, obj) => Obj(if obj in den then den[obj] else End)
  }

  ghost function MembersOf(items: seq<Entry>, den: Den): Members {
    if items == [] then End else Mem(items[0].key, ValueOf(items[0], den), MembersOf(items[1..], den))
  }

  /** Keys without NUL, in strictly increasing order. */
  ghost predicate Sorted(items: seq<Entry>) {
    (forall i :: 0 <= i < |items| ==> NulFree(items[i].key)) &&
    (forall i, j :: 0 <= i < j < |items| ==> Compare(items[i].key, items[j].key) < 0)
  }

  /** All objects directly below are among `s`. */
  ghost predicate Within(items: seq<Entry>, s: set<JsonObj>) {
    forall i :: 0 <= i < |items| && items[i].Sub? ==> items[i].obj in s
  }

  // ------------------------------------------------- one insertion into a walk

  lemma {:induction false} SignsMonotone(key: Bytes, items: seq<Entry>)
    requires Sorted(items) && NulFree(key)
    ensures Monotone(Signs(key, items))
  {
    var g := Signs(key, items);
    forall i, j | 0 <= i < j < |g| && g[i] <= 0
      ensures g[j] < 0
    {
      var a, b := items[i].key, items[j].key;
      if g[i] == 0 { CompareEqual(key, a); } else { CompareTransitive(key, a, b); }
    }
  }

  lemma {:induction false} PlacedMembers(items: seq<Entry>, e: Entry, k: nat, den: Den)
    requires Bracket(Signs(e.key, items), k, k)
    ensures MembersOf(items[..k] + [e] + items[k..], den) == Insert(MembersOf(items, den), e.key, ValueOf(e, den))
    decreases |items|
  {
    PlacedFirst(items, e, k);
    BracketFirst(items, e.key, k);
    hide Signs, Bracket;
    if k > 0 {
      PlacedMembers(items[1..], e, k - 1, den);
    }
  }

  lemma {:induction false} PlacedFirst(items: seq<Entry>, e: Entry, k: nat)
    requires k <= |items|
    ensures var now := items[..k] + [e] + items[k..];
      if k == 0 then now[0] == e && now[1..] == items
      else now[0] == items[0] && now[1..] == items[1..][..k - 1] + [e] + items[1..][k - 1..]
  {
  }

  lemma {:induction false} BracketFirst(items: seq<Entry>, key: Bytes, k: nat)
    requires Bracket(Signs(key, items), k, k)
    ensures k <= |items|
    ensures k == 0 && items != [] ==> Compare(key, items[0].key) < 0
    ensures k > 0 ==> Compare(key, items[0].key) > 0 && Bracket(Signs(key, items[1..]), k - 1, k - 1)
  {
    var g := Signs(key, items);
    if k > 0 {
      assert g[0] > 0;
      forall i | 0 <= i < |items| - 1
        ensures Signs(key, items[1..])[i] == g[i + 1]
      {
      }
    } else if items != [] {
      assert g[0] < 0;
    }
  }

  lemma {:induction false} PresentMembers(items: seq<Entry>, key: Bytes, i: nat, v: Value, den: Den)
    requires i < |items| && Monotone(Signs(key, items)) && Compare(key, items[i].key) == 0
    ensures Insert(MembersOf(items, den), key, v) == MembersOf(items, den)
    decreases |items|
  {
    var g := Signs(key, items);
    if i > 0 {
      assert g[i] == 0;
      assert g[0] > 0;
      var rest := items[1..];
      forall j | 0 <= j < |rest|
        ensures Signs(key, rest)[j] == g[j + 1]
      {
      }
      PresentMembers(rest, key, i - 1, v, den);
    }
  }

  lemma {:induction false} PlacedSorted(items: seq<Entry>, e: Entry, k: nat)
    requires Sorted(items) && NulFree(e.key) && Bracket(Signs(e.key, items), k, k)
    ensures Sorted(items[..k] + [e] + items[k..])
  {
    var now, g := items[..k] + [e] + items[k..], Signs(e.key, items);
    forall i, j | 0 <= i < j < |now|
      ensures Compare(now[i].key, now[j].key) < 0
    {
      if i == k {
        assert g[j - 1] < 0;
      } else if j == k {
        assert g[i] > 0;
        CompareAntisymmetric(e.key, items[i].key);
      }
    }
  }

  lemma {:induction false} MembersFrame(items: seq<Entry>, d: Den, d': Den, s: set<JsonObj>)
    requires Within(items, s)
    requires forall o :: o in s ==> (o in d <==> o in d') && (o in d ==> d[o] == d'[o])
    ensures MembersOf(items, d) == MembersOf(items, d')
    decreases |items|
  {
    if items != [] {
      assert Within(items[1..], s);
      MembersFrame(items[1..], d, d', s);
    }
  }

  // --------------------------------------------- the objects on the open path

  /**
   `child` hangs in (or beside) an open object: once it stands for `x` the object stands
   for the frame's members with `x` added.
   */
  ghost predicate Hanging(items: seq<Entry>, den: Den, child: JsonObj, f: Frame) {
    Within(items, den.Keys + {child}) &&
    forall x: Members :: MembersOf(items, den[child := x]) == Insert(f.members, f.key, Obj(x))
  }

  ghost predicate Finished(its: Items, den: Den) {
    den.Keys <= its.Keys &&
    forall o :: o in den ==> Within(its[o], den.Keys) && MembersOf(its[o], den) == den[o]
  }

  ghost predicate OnPath(its: Items, den: Den, path: seq<JsonObj>) {
    (forall i :: 0 <= i < |path| ==> path[i] in its && path[i] !in den) &&
    (forall i, j :: 0 <= i < j < |path| ==> path[i] != path[j])
  }

  /** The heap agrees with the state of the machine: `path` are the open objects, outermost first. */
  ghost predicate Rep(its: Items, den: Den, st: State, path: seq<JsonObj>) {
    |path| == |st.stack| + 1 && OnPath(its, den, path) && Finished(its, den) &&
    (forall o :: o in its ==> Sorted(its[o])) &&
    Within(its[path[|st.stack|]], den.Keys) && MembersOf(its[path[|st.stack|]], den) == st.obj &&
    (forall i :: 0 <= i < |st.stack| ==> Hanging(its[path[i]], den, path[i + 1], st.stack[i]))
  }

  ghost predicate PlacedAt(was: seq<Entry>, e: Entry, k: nat, now: seq<Entry>) {
    SlotFor(Signs(e.key, was), k) && now == was[..k] + [e] + was[k..]
  }

  /** What __lts_sjson_search does with the items of one object. */
  ghost predicate Searched(was: seq<Entry>, e: Entry, now: seq<Entry>) {
    (exists k: nat :: PlacedAt(was, e, k, now)) ||
    (now == was && exists i :: 0 <= i < |was| && Compare(e.key, was[i].key) == 0)
  }

  lemma {:induction false} SearchedMembers(was: seq<Entry>, e: Entry, now: seq<Entry>, den: Den)
    requires Sorted(was) && NulFree(e.key) && Searched(was, e, now)
    ensures Sorted(now) && MembersOf(now, den) == Insert(MembersOf(was, den), e.key, ValueOf(e, den))
  {
    SignsMonotone(e.key, was);
    if k: nat :| PlacedAt(was, e, k, now) {
      PlacedMembers(was, e, k, den);
      PlacedSorted(was, e, k);
    } else {
      var i :| 0 <= i < |was| && Compare(e.key, was[i].key) == 0;
      PresentMembers(was, e.key, i, ValueOf(e, den), den);
    }
  }

  /** The same with the outcome: `linked`, or the key was there. */
  ghost predicate LinkedAs(linked: bool, was: seq<Entry>, e: Entry, now: seq<Entry>) {
    if linked then exists k: nat :: PlacedAt(was, e, k, now)
    else now == was && exists i :: 0 <= i < |was| && Compare(e.key, was[i].key) == 0
  }

  lemma {:induction false} LinkedSearched(linked: bool, was: seq<Entry>, e: Entry, now: seq<Entry>)
    requires LinkedAs(linked, was, e, now)
    ensures Searched(was, e, now)
  {
  }

  lemma {:induction false} SearchedWithin(was: seq<Entry>, e: Entry, now: seq<Entry>, s: set<JsonObj>)
    requires Within(was, s) && Searched(was, e, now) && (e.Sub? ==> e.obj in s)
    ensures Within(now, s)
  {
  }

  /** A string or a list has been added to the innermost object. */
  lemma {:induction false} AddStep(its: Items, den: Den, st: State, path: seq<JsonObj>, e: Entry, now: seq<Entry>,
                              st': State)
    requires Rep(its, den, st, path) && !e.Sub? && NulFree(e.key) && Searched(its[path[|st.stack|]], e, now)
    requires st'.stack == st.stack && st'.obj == Insert(st.obj, e.key, ValueOf(e, den))
    ensures Rep(its[path[|st.stack|] := now], den, st', path)
  {
    var cur := path[|st.stack|];
    SearchedMembers(its[cur], e, now, den);
    SearchedWithin(its[cur], e, now, den.Keys);
    hide Searched, MembersOf, Insert, Sorted;
  }

  /** An object `child` has been linked below the innermost one and is now the innermost. */
  lemma {:induction false} OpenStep(its: Items, den: Den, st: State, path: seq<JsonObj>, child: JsonObj,
                              now: seq<Entry>, st': State)
    requires Rep(its, den, st, path) && child !in its && NulFree(st.key)
    requires Searched(its[path[|st.stack|]], Sub(st.key, child), now)
    requires st'.obj == End && st'.stack == st.stack + [Frame(st.obj, st.key)]
    ensures Rep(its[path[|st.stack|] := now][child := []], den, st', path + [child])
  {
    hide Searched, MembersOf, Insert, Sorted;
    var cur, e := path[|st.stack|], Sub(st.key, child);
    SearchedWithin(its[cur], e, now, den.Keys + {child});
    assert Hanging(now, den, child, Frame(st.obj, st.key)) by {
      forall x: Members
        ensures MembersOf(now, den[child := x]) == Insert(st.obj, st.key, Obj(x))
      {
        var d := den[child := x];
        SearchedMembers(its[cur], e, now, d);
        MembersFrame(its[cur], den, d, den.Keys);
      }
    }
    SearchedMembers(its[cur], e, now, den);
    NoItems(den);
  }

  lemma {:induction false} NoItems(den: Den)
    ensures MembersOf([], den) == End && Sorted([])
  {
  }

  /** The innermost object is finished. */
  lemma {:induction false} CloseStep(its: Items, den: Den, st: State, path: seq<JsonObj>,
                              st': State) returns (den': Den)
    requires Rep(its, den, st, path) && st.stack != []
    requires st'.stack == st.stack[..|st.stack| - 1]
    requires var f := st.stack[|st.stack| - 1]; st'.obj == Insert(f.members, f.key, Obj(st.obj))
    ensures Rep(its, den', st', path[..|st.stack|])
  {
    hide MembersOf, Insert, Sorted;
    var n := |st.stack|;
    var cur := path[n];
    den' := den[cur := st.obj];
    forall o | o in den'
      ensures Within(its[o], den'.Keys) && MembersOf(its[o], den') == den'[o]
    {
      MembersFrame(its[o], den, den', den.Keys);
    }
    assert Hanging(its[path[n - 1]], den, path[n], st.stack[n - 1]);
    forall i | 0 <= i < n - 1
      ensures Hanging(its[path[i]], den', path[i + 1], st.stack[i])
    {
      forall x: Members
        ensures MembersOf(its[path[i]], den'[path[i + 1] := x]) == Insert(st.stack[i].members, st.stack[i].key, Obj(x))
      {
        assert path[i + 1] != cur;
        MembersFrame(its[path[i]], den[path[i + 1] := x], den'[path[i + 1] := x], den.Keys + {path[i + 1]});
      }
    }
  }
}
