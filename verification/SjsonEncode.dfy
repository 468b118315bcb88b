/** The printer of src/simple_json.c and the size it predicts. */
module SjsonEncode {
  import opened ByteString
  import opened Sjson
  import opened SjsonTree
  import opened SjsonForest
  import opened SjsonDecode
  import opened RbShape
  import RbWalk

  // ------------------------------------------------------------ what is printed

  /** The derivation without trailing commas. */
  function Canon(v: Value): CValue {
    match v
    case Str(s) => CStr(s)
    case List(items) => CList(items, false)
    case Obj(ms) => CObj(CanonMembers(ms), false)
  }

  function CanonMembers(ms: Members): CMembers {
    match ms
    case End => CEnd
    case Mem(k, v, rest) => CMem(k, Canon(v), CanonMembers(rest))
  }

  function EncodeMembers(ms: Members): Bytes {
    MembersText(CanonMembers(ms), false)
  }

  function EncodeText(ms: Members): Bytes {
    [LBRACE] + EncodeMembers(ms) + [RBRACE]
  }

  function Pair(k: Bytes, v: Value): Bytes {
    Quoted(k) + [COLON] + Text(Canon(v))
  }

  lemma {:induction false} EncodeFirst(ms: Members)
    requires ms.Mem?
    ensures EncodeMembers(ms) == Pair(ms.key, ms.value) + if ms.rest.End? then [] else [COMMA] + EncodeMembers(ms.rest)
  {
    assert CanonMembers(ms) == CMem(ms.key, Canon(ms.value), CanonMembers(ms.rest));
  }

  lemma {:induction false} EncodeFirstItem(items: seq<Bytes>)
    requires items != []
    ensures ItemsText(items, false) ==
      Quoted(items[0]) + if |items| == 1 then [] else [COMMA] + ItemsText(items[1..], false)
  {
  }

  // The bytes themselves: 34 is a quote, 44 a comma, 58 a colon, 91 and 93 are
  // brackets, 123 and 125 are braces.

  lemma {:induction false} ItemsLayout(items: seq<Bytes>)
    ensures ItemsText(items, false) ==
      if items == [] then []
      else [34] + items[0] + [34] + if |items| == 1 then [] else [44] + ItemsText(items[1..], false)
  {
    if items != [] { EncodeFirstItem(items); }
  }

  lemma {:induction false} ValueLayout(v: Value)
    ensures Text(Canon(v)) ==
      match v
      case Str(s) => [34] + s + [34]
      case List(items) => [91] + ItemsText(items, false) + [93]
      case Obj(ms) => [123] + EncodeMembers(ms) + [125]
  {
  }

  /** What follows a member. */
  function After(rest: Members): Bytes {
    if rest.End? then [] else [44] + EncodeMembers(rest)
  }

  /** The text of an object: members in the order of the walk, with a comma between two and nowhere else. */
  lemma {:induction false} MembersLayout(ms: Members)
    ensures EncodeText(ms) == [123] + EncodeMembers(ms) + [125]
    ensures EncodeMembers(ms) ==
      if ms.End? then []
      else [34] + ms.key + [34, 58] + Text(Canon(ms.value)) + After(ms.rest)
  {
    if ms.Mem? {
      EncodeFirst(ms);
      assert [34] + ms.key + [34] + [58] == [34] + ms.key + [34, 58];
    }
  }

  /**
   No comma stands before a closing bracket or brace: an element ends with a quote, and a
   member with a quote or with one of these.
   */
  lemma {:induction false} NoLastComma(items: seq<Bytes>, ms: Members)
    ensures var text := ItemsText(items, false); items != [] ==> text != [] && text[|text| - 1] == 34
    ensures var text := EncodeMembers(ms); ms.Mem? ==> text != [] && text[|text| - 1] in {34, 93, 125}
    decreases |items|, ms
  {
    if items != [] {
      ItemsLayout(items);
      NoLastComma(items[1..], ms);
    } else if ms.Mem? {
      MembersLayout(ms);
      ValueLayout(ms.value);
      NoLastComma([], ms.rest);
    }
  }

  /** {"a":["b","c"],"o":{}} */
  lemma {:induction false} Example()
    ensures EncodeText(Mem([97], List([[98], [99]]), Mem([111], Obj(End), End))) ==
      [123] + ([34, 97, 34, 58] + [91, 34, 98, 34, 44, 34, 99, 34, 93] + ([44] + [34, 111, 34, 58, 123, 125])) + [125]
  {
    hide EncodeText, EncodeMembers, Text, ItemsText, After;
    var items: seq<Bytes>, rest := [[98], [99]], Mem([111], Obj(End), End);
    ExampleList();
    ExampleObject();
    MembersLayout(Mem([97], List(items), rest));
    AfterMember(rest);
    assert [34] + [97] + [34, 58] == [34, 97, 34, 58];
  }

  lemma {:induction false} AfterMember(rest: Members)
    ensures After(rest) == if rest.End? then [] else [44] + EncodeMembers(rest)
  {
  }

  lemma {:induction false} ExampleList()
    ensures Text(Canon(List([[98], [99]]))) == [91, 34, 98, 34, 44, 34, 99, 34, 93]
  {
    hide Text, ItemsText;
    var items: seq<Bytes> := [[98], [99]];
    assert items[1..] == [[99]];
    ItemsLayout(items);
    ItemsLayout([[99]]);
    ValueLayout(List(items));
  }

  lemma {:induction false} ExampleObject()
    ensures EncodeMembers(Mem([111], Obj(End), End)) == [34, 111, 34, 58, 123, 125]
  {
    hide EncodeText, EncodeMembers, Text;
    MembersLayout(End);
    ValueLayout(Obj(End));
    MembersLayout(Mem([111], Obj(End), End));
    AfterMember(End);
  }

  /** A measure for the recursion into nested objects. */
  function Weight(ms: Members): nat {
    match ms
    case End => 0
    case Mem(_, v, rest) => 1 + (if v.Obj? then Weight(v.members) else 0) + Weight(rest)
  }

  lemma {:induction false} Lighter(items: seq<Entry>, i: nat, den: Den)
    requires i < |items| && items[i].Sub? && items[i].obj in den
    ensures Weight(den[items[i].obj]) < Weight(MembersOf(items, den))
    decreases i
  {
    if i > 0 { Lighter(items[1..], i - 1, den); }
  }

  /** The walk from number `i` on. */
  ghost function From(o: JsonObj, its: Items, den: Den, i: nat): Members
    requires o in its && i <= |its[o]|
  {
    MembersOf(its[o][i..], den)
  }

  lemma {:induction false} FromStep(o: JsonObj, its: Items, den: Den, i: nat)
    requires o in its && i < |its[o]|
    ensures From(o, its, den, i) == Mem(its[o][i].key, ValueOf(its[o][i], den), From(o, its, den, i + 1))
    ensures From(o, its, den, i + 1).End? <==> i + 1 == |its[o]|
  {
    assert its[o][i..][1..] == its[o][i + 1..];
  }

  lemma {:induction false} FromEnds(o: JsonObj, its: Items, den: Den)
    requires o in its
    ensures From(o, its, den, |its[o]|) == End
    ensures From(o, its, den, 0) == MembersOf(its[o], den)
  {
    assert its[o][0..] == its[o];
  }

  /** The pointer `p` is number `i` of the walk. */
  ghost predicate Walking(o: JsonObj, its: Items, p: Node?<Entry>, i: nat)
    reads o, p
  {
    o in its && i <= |its[o]| == |o.contents| &&
    if i < |o.contents| then p == o.contents[i] && p.item == its[o][i] else p == null
  }

  method First(o: JsonObj, ghost its: Items) returns (p: Node?<Entry>)
    requires Holding(its) && o in its
    ensures Walking(o, its, p, 0)
  {
    p := RbWalk.First(o.root);
  }

  method Next(o: JsonObj, p: ObjNode, ghost its: Items, ghost i: nat) returns (n: Node?<Entry>)
    requires Holding(its) && Walking(o, its, p, i) && i < |its[o]|
    ensures Walking(o, its, n, i + 1)
  {
    assert p in o.nodes;
    RbWalk.MemberParent(o.root, p);
    n := RbWalk.Next(p, o.root);
    Successor(o.contents, i, n);
  }

  lemma {:induction false} Successor(s: seq<ObjNode>, i: nat, n: Node?<Entry>)
    requires i < |s| && RbWalk.Follows(s, s[i], n)
    ensures n == if i + 1 < |s| then s[i + 1] else null
  {
  }

  // ---------------------------------------------------------- the predicted size

  /** The list part of lts_sjson_encode_size. */
  method ListSize(items: seq<Bytes>, sz0: int) returns (sz: int)
    ensures sz == sz0 + |ItemsText(items, false)|
  {
    sz := sz0;
    if items != [] {
      var j := 0;
      while j < |items|
        invariant 0 <= j <= |items|
        invariant sz + (if j == |items| then 0 else 1 + |ItemsText(items[j..], false)|) ==
          sz0 + 1 + |ItemsText(items, false)|
      {
        EncodeFirstItem(items[j..]);
        assert items[j..][1..] == items[j + 1..];
        sz := sz + |items[j]| + 2;
        sz := sz + 1;
        j := j + 1;
      }
      sz := sz - 1;
    }
  }

  /** lts_sjson_encode_size */
  method EncodeSize(o: JsonObj, ghost its: Items, ghost den: Den) returns (sz: int)
    requires Holding(its) && Finished(its, den) && o in den
    ensures sz == |EncodeText(den[o])|
    decreases Weight(den[o])
  {
    hide Holding, EncodeMembers, Text, From;
    sz := 2;
    NoMembers();
    var p := First(o, its);
    FromEnds(o, its, den);
    if p == null {
      return;
    }
    ghost var i := 0;
    while p != null
      invariant Walking(o, its, p, i)
      invariant sz + (if i == |its[o]| then 0 else 1 + |EncodeMembers(From(o, its, den, i))|) ==
        3 + |EncodeMembers(den[o])|
      decreases |its[o]| - i
    {
      FromStep(o, its, den, i);
      EncodeFirst(From(o, its, den, i));
      sz := sz + 1;
      sz := PairSize(p.item, sz, its, den, o, i);
      p := Next(o, p, its, i);
      i := i + 1;
    }
    sz := sz - 1;
  }

  /** One key and its value. */
  method PairSize(e: Entry, sz0: int, ghost its: Items, ghost den: Den, ghost o: JsonObj,
                  ghost i: nat) returns (sz: int)
    requires Holding(its) && Finished(its, den) && o in den && i < |its[o]| && e == its[o][i]
    ensures sz == sz0 + |Pair(e.key, ValueOf(e, den))|
    decreases Weight(den[o]), 0
  {
    hide Holding;
    sz := sz0;
    match e {
      case Kv(key, val) =>
        sz := sz + |key| + 2;
        sz := sz + 1;
        sz := sz + |val| + 2;
      case Li(key, items) =>
        sz := sz + 2;
        sz := sz + |key| + 2;
        sz := sz + 1;
        sz := ListSize(items, sz);
      case Sub(key, obj) =>
        sz := sz + |key| + 2;
        sz := sz + 1;
        Lighter(its[o], i, den);
        var n := EncodeSize(obj, its, den);
        sz := sz + n;
    }
  }

  lemma {:induction false} NoMembers()
    ensures EncodeMembers(End) == []
  {
  }

  // ------------------------------------------------------------------ printing

  /** The bytes of `s` have been put at `at`, and nothing else has changed. */
  ghost predicate Written(was: Bytes, at: nat, s: Bytes, now: Bytes) {
    |now| == |was| && at + |s| <= |was| && now[..at + |s|] == was[..at] + s && now[at + |s|..] == was[at + |s|..]
  }

  /** `data[offset++] = b` */
  method PutByte(data: array<Byte>, offset: nat, b: Byte) returns (next: nat)
    requires offset < data.Length
    modifies data
    ensures next == offset + 1 && Written(old(data[..]), offset, [b], data[..])
  {
    data[offset] := b;
    next := offset + 1;
  }

  /** memcpy, and the advance of the offset */
  method PutBytes(data: array<Byte>, offset: nat, s: Bytes) returns (next: nat)
    requires offset + |s| <= data.Length
    modifies data
    ensures next == offset + |s| && Written(old(data[..]), offset, s, data[..])
  {
    for i := 0 to |s|
      invariant forall k :: 0 <= k < data.Length ==>
        data[k] == if offset <= k < offset + i then s[k - offset] else old(data[k])
    {
      data[offset + i] := s[i];
    }
    next := offset + |s|;
  }

  lemma {:induction false} WrittenTwice(a: Bytes, at: nat, s: Bytes, b: Bytes, t: Bytes, c: Bytes)
    requires Written(a, at, s, b) && Written(b, at + |s|, t, c)
    ensures Written(a, at, s + t, c)
  {
    assert c[at + |s| + |t|..] == b[at + |s|..][|t|..];
    assert a[at + |s| + |t|..] == a[at + |s|..][|t|..];
    assert a[..at] + s + t == a[..at] + (s + t);
  }

  method PutQuoted(data: array<Byte>, offset: nat, s: Bytes) returns (next: nat)
    requires offset + |s| + 2 <= data.Length
    modifies data
    ensures next == offset + |s| + 2 && Written(old(data[..]), offset, Quoted(s), data[..])
  {
    hide Written;
    ghost var d0 := data[..];
    next := PutByte(data, offset, QUOTE);
    ghost var d1 := data[..];
    next := PutBytes(data, next, s);
    ghost var d2 := data[..];
    WrittenTwice(d0, offset, [QUOTE], d1, s, d2);
    next := PutByte(data, next, QUOTE);
    WrittenTwice(d0, offset, [QUOTE] + s, d2, [QUOTE], data[..]);
  }

  /** The key and the colon. */
  method PutKey(data: array<Byte>, offset: nat, key: Bytes) returns (next: nat)
    requires offset + |key| + 3 <= data.Length
    modifies data
    ensures next == offset + |key| + 3 && Written(old(data[..]), offset, Quoted(key) + [COLON], data[..])
  {
    hide Written;
    ghost var d0 := data[..];
    next := PutQuoted(data, offset, key);
    ghost var d1 := data[..];
    next := PutByte(data, next, COLON);
    WrittenTwice(d0, offset, Quoted(key), d1, [COLON], data[..]);
  }

  /** `w` has been written, and with `rest` it will be the whole of `all`. */
  ghost predicate Printing(was: Bytes, at: nat, w: Bytes, now: Bytes, rest: Bytes, all: Bytes) {
    Written(was, at, w, now) && w + rest == all
  }

  lemma {:induction false} Printed(was: Bytes, at: nat, w: Bytes, mid: Bytes, s: Bytes, now: Bytes, rest: Bytes,
                              all: Bytes)
    requires Printing(was, at, w, mid, s + rest, all) && Written(mid, at + |w|, s, now)
    ensures Printing(was, at, w + s, now, rest, all)
  {
    WrittenTwice(was, at, w, mid, s, now);
    assert w + (s + rest) == w + s + rest;
  }

  /** The list part of __lts_sjson_encode. */
  method PutList(data: array<Byte>, offset: nat, items: seq<Bytes>) returns (next: nat)
    requires offset + |ItemsText(items, false)| + 2 <= data.Length
    modifies data
    ensures next == offset + |ItemsText(items, false)| + 2
    ensures Written(old(data[..]), offset, [LBRACKET] + ItemsText(items, false) + [RBRACKET], data[..])
  {
    hide Written, Quoted, Printing, ItemsText;
    ghost var d0, all := data[..], [LBRACKET] + ItemsText(items, false) + [RBRACKET];
    next := PutByte(data, offset, LBRACKET);
    var j := 0;
    ghost var w: Bytes := [LBRACKET];
    assert items[0..] == items;
    Grouped([LBRACKET], ItemsText(items, false), [RBRACKET]);
    PrintStart(d0, offset, w, data[..], ItemsText(items[0..], false) + [RBRACKET], all);
    while j < |items|
      invariant 0 <= j <= |items| && next == offset + |w|
      invariant Printing(d0, offset, w, data[..], ItemsText(items[j..], false) + [RBRACKET], all)
    {
      ghost var s;
      next, s := PutItem(data, next, items, j, d0, offset, w, all);
      w := w + s;
      j := j + 1;
    }
    ghost var d := data[..];
    NoItems(items[j..]);
    PrintRoom(d0, offset, w, d, [RBRACKET] + [], all);
    next := PutByte(data, next, RBRACKET);
    Printed(d0, offset, w, d, [RBRACKET], data[..], [], all);
    PrintEnd(d0, offset, w + [RBRACKET], data[..], all);
  }

  /** One round of the loop: an element and the comma after it. */
  method PutItem(data: array<Byte>, offset: nat, items: seq<Bytes>, j: nat,
                 ghost d0: Bytes, ghost at: nat, ghost w: Bytes, ghost all: Bytes)
    returns (next: nat, ghost s: Bytes)
    requires j < |items| && offset == at + |w| && at + |all| <= data.Length
    requires Printing(d0, at, w, data[..], ItemsText(items[j..], false) + [RBRACKET], all)
    modifies data
    ensures next == offset + |s|
    ensures Printing(d0, at, w + s, data[..], ItemsText(items[j + 1..], false) + [RBRACKET], all)
  {
    hide Written, Quoted, Printing, ItemsText;
    ghost var d, rest := data[..], items[j + 1..];
    ghost var tail := if rest == [] then [] else [COMMA] + ItemsText(rest, false);
    PrintRoom(d0, at, w, d, ItemsText(items[j..], false) + [RBRACKET], all);
    ItemTail(items, j);
    next := PutQuoted(data, offset, items[j]);
    Printed(d0, at, w, d, Quoted(items[j]), data[..], tail + [RBRACKET], all);
    s := Quoted(items[j]);
    if j + 1 < |items| {
      d := data[..];
      PrintRoom(d0, at, w + s, d, tail + [RBRACKET], all);
      Grouped([COMMA], ItemsText(rest, false), [RBRACKET]);
      next := PutByte(data, next, COMMA);
      Printed(d0, at, w + s, d, [COMMA], data[..], ItemsText(rest, false) + [RBRACKET], all);
      Grouped(w, s, [COMMA]);
      s := s + [COMMA];
    } else {
      NoItems(rest);
    }
  }

  lemma {:induction false} Grouped(a: Bytes, b: Bytes, c: Bytes)
    ensures a + b + c == a + (b + c)
  {
  }

  lemma {:induction false} NoItems(items: seq<Bytes>)
    requires items == []
    ensures ItemsText(items, false) == [] && [] + [RBRACKET] == [RBRACKET] + []
  {
  }

  lemma {:induction false} ItemTail(items: seq<Bytes>, j: nat)
    requires j < |items|
    ensures var rest := items[j + 1..];
      ItemsText(items[j..], false) + [RBRACKET] ==
      Quoted(items[j]) + ((if rest == [] then [] else [COMMA] + ItemsText(rest, false)) + [RBRACKET])
  {
    EncodeFirstItem(items[j..]);
    assert items[j..][1..] == items[j + 1..];
  }

  /** __lts_sjson_encode */
  method EncodeInto(o: JsonObj, data: array<Byte>, offset: nat, ghost its: Items, ghost den: Den) returns (next: nat)
    requires Holding(its) && Finished(its, den) && o in den
    requires offset + |EncodeText(den[o])| <= data.Length
    modifies data
    ensures Holding(its)
    ensures next == offset + |EncodeText(den[o])| && Written(old(data[..]), offset, EncodeText(den[o]), data[..])
    decreases Weight(den[o])
  {
    hide Holding, Written, EncodeMembers, From, Walking, Pair, Printing;
    ghost var d0, all := data[..], EncodeText(den[o]);
    next := PutByte(data, offset, LBRACE);
    ghost var w: Bytes := [LBRACE];
    var p := First(o, its);
    ghost var i := 0;
    FromEnds(o, its, den);
    NoMembers();
    assert [LBRACE] + (EncodeMembers(From(o, its, den, 0)) + [RBRACE]) == all;
    PrintStart(d0, offset, w, data[..], EncodeMembers(From(o, its, den, 0)) + [RBRACE], all);
    while p != null
      invariant Holding(its) && Walking(o, its, p, i) && i <= |its[o]| && (p == null <==> i == |its[o]|)
      invariant next == offset + |w|
      invariant Printing(d0, offset, w, data[..], EncodeMembers(From(o, its, den, i)) + [RBRACE], all)
      decreases |its[o]| - i
    {
      PrintRoom(d0, offset, w, data[..], EncodeMembers(From(o, its, den, i)) + [RBRACE], all);
      ghost var s;
      p, next, s := PutMember(o, p, data, next, its, den, i, d0, offset, w, all);
      w := w + s;
      i := i + 1;
    }
    ghost var d := data[..];
    assert [] + [RBRACE] == [RBRACE] + [];
    PrintRoom(d0, offset, w, d, [RBRACE] + [], all);
    next := PutByte(data, next, RBRACE);
    Printed(d0, offset, w, d, [RBRACE], data[..], [], all);
    PrintEnd(d0, offset, w + [RBRACE], data[..], all);
  }

  lemma {:induction false} PrintRoom(was: Bytes, at: nat, w: Bytes, now: Bytes, rest: Bytes, all: Bytes)
    requires Printing(was, at, w, now, rest, all)
    ensures |w| + |rest| == |all| && |now| == |was|
  {
  }

  lemma {:induction false} PrintStart(was: Bytes, at: nat, w: Bytes, now: Bytes, rest: Bytes, all: Bytes)
    requires Written(was, at, w, now) && w + rest == all
    ensures Printing(was, at, w, now, rest, all)
  {
  }

  lemma {:induction false} PrintEnd(was: Bytes, at: nat, w: Bytes, now: Bytes, all: Bytes)
    requires Printing(was, at, w, now, [], all)
    ensures Written(was, at, all, now) && w == all
  {
    assert w + [] == w;
  }

  lemma {:induction false} PairFirst(o: JsonObj, its: Items, den: Den, i: nat)
    requires o in its && i < |its[o]|
    ensures var rest := From(o, its, den, i + 1);
      (rest.End? <==> i + 1 == |its[o]|) &&
      EncodeMembers(From(o, its, den, i)) + [RBRACE] ==
      Pair(its[o][i].key, ValueOf(its[o][i], den)) +
      ((if rest.End? then [] else [COMMA] + EncodeMembers(rest)) + [RBRACE])
  {
    FromStep(o, its, den, i);
    EncodeFirst(From(o, its, den, i));
    hide EncodeMembers, From, Pair;
  }

  lemma {:induction false} WalkItem(o: JsonObj, its: Items, p: ObjNode, i: nat)
    requires Walking(o, its, p, i)
    ensures i < |its[o]| && p.item == its[o][i]
  {
  }

  /** One round of the walk: a member and the comma after it. */
  method PutMember(o: JsonObj, p: ObjNode, data: array<Byte>, offset: nat, ghost its: Items, ghost den: Den,
                   ghost i: nat,
                   ghost d0: Bytes, ghost at: nat, ghost w: Bytes, ghost all: Bytes)
    returns (p': Node?<Entry>, next: nat, ghost s: Bytes)
    requires Holding(its) && Finished(its, den) && o in den && Walking(o, its, p, i) && i < |its[o]|
    requires Printing(d0, at, w, data[..], EncodeMembers(From(o, its, den, i)) + [RBRACE], all) && offset == at + |w|
    requires at + |all| <= data.Length
    modifies data
    ensures Holding(its) && Walking(o, its, p', i + 1) && (p' == null <==> i + 1 == |its[o]|) && next == offset + |s|
    ensures Printing(d0, at, w + s, data[..], EncodeMembers(From(o, its, den, i + 1)) + [RBRACE], all)
    decreases Weight(den[o]), 2
  {
    hide Holding, Written, EncodeMembers, From, Pair, Printing, Walking;
    ghost var d, rest, pair := data[..], From(o, its, den, i + 1), Pair(its[o][i].key, ValueOf(its[o][i], den));
    ghost var tail := if rest.End? then [] else [COMMA] + EncodeMembers(rest);
    PrintRoom(d0, at, w, d, EncodeMembers(From(o, its, den, i)) + [RBRACE], all);
    PairFirst(o, its, den, i);
    WalkItem(o, its, p, i);
    next := PutPair(p.item, data, offset, its, den, o, i);
    Printed(d0, at, w, d, pair, data[..], tail + [RBRACE], all);
    s := pair;
    p' := Next(o, p, its, i);
    NoMembers();
    WalkEnds(o, its, p', i + 1);
    if p' != null {
      d := data[..];
      PrintRoom(d0, at, w + s, d, tail + [RBRACE], all);
      Grouped([COMMA], EncodeMembers(rest), [RBRACE]);
      next := PutByte(data, next, COMMA);
      Printed(d0, at, w + s, d, [COMMA], data[..], EncodeMembers(rest) + [RBRACE], all);
      Grouped(w, s, [COMMA]);
      s := s + [COMMA];
    }
  }

  lemma {:induction false} WalkEnds(o: JsonObj, its: Items, p: Node?<Entry>, i: nat)
    requires Walking(o, its, p, i)
    ensures i <= |its[o]| && (p == null <==> i == |its[o]|)
  {
  }

  /** One key and its value. */
  method PutPair(e: Entry, data: array<Byte>, offset: nat, ghost its: Items, ghost den: Den, ghost o: JsonObj,
                 ghost i: nat)
    returns (next: nat)
    requires Holding(its) && Finished(its, den) && o in den && i < |its[o]| && e == its[o][i]
    requires offset + |Pair(e.key, ValueOf(e, den))| <= data.Length
    modifies data
    ensures Holding(its)
    ensures next == offset + |Pair(e.key, ValueOf(e, den))|
    ensures Written(old(data[..]), offset, Pair(e.key, ValueOf(e, den)), data[..])
    decreases Weight(den[o]), 1
  {
    hide Holding, Written, Text, Canon, ValueOf;
    ghost var d0 := data[..];
    next := PutKey(data, offset, e.key);
    ghost var d1 := data[..];
    next := PutValue(e, data, next, its, den, o, i);
    WrittenTwice(d0, offset, Quoted(e.key) + [COLON], d1, Text(Canon(ValueOf(e, den))), data[..]);
  }

  method PutValue(e: Entry, data: array<Byte>, offset: nat, ghost its: Items, ghost den: Den, ghost o: JsonObj,
                  ghost i: nat)
    returns (next: nat)
    requires Holding(its) && Finished(its, den) && o in den && i < |its[o]| && e == its[o][i]
    requires offset + |Text(Canon(ValueOf(e, den)))| <= data.Length
    modifies data
    ensures Holding(its)
    ensures next == offset + |Text(Canon(ValueOf(e, den)))|
    ensures Written(old(data[..]), offset, Text(Canon(ValueOf(e, den))), data[..])
    decreases Weight(den[o]), 0
  {
    hide Holding, Written;
    match e {
      case Kv(_, val) =>
        next := PutQuoted(data, offset, val);
      case Li(_, items) =>
        next := PutList(data, offset, items);
      case Sub(_, obj) =>
        Lighter(its[o], i, den);
        next := EncodeInto(obj, data, offset, its, den);
    }
  }

  /**
   lts_sjson_encode: the buffer has one byte more than the text.  `limit` is the size of
   the largest piece that lts_palloc gives; without a buffer the answer is -1.
   */
  method Encode(o: JsonObj, limit: nat, ghost its: Items, ghost den: Den)
    returns (r: int, data: array<Byte>, len: nat)
    requires Holding(its) && Finished(its, den) && o in den
    ensures fresh(data) && Holding(its)
    ensures r == if |EncodeText(den[o])| < limit then 0 else -1
    ensures r == 0 ==> len == data.Length - 1 && data[..len] == EncodeText(den[o])
  {
    hide Holding, Finished, EncodeText;
    var size := EncodeSize(o, its, den);
    if size + 1 > limit {
      data := new Byte[0];
      return -1, data, 0;
    }
    data := new Byte[size + 1];
    for i := 0 to size
    {
      data[i] := 0;
    }
    ghost var d := data[..];
    len := EncodeInto(o, data, 0, its, den);
    assert d[..0] + EncodeText(den[o]) == EncodeText(den[o]);
    assert len == size;  // the assertion in the source
    r := 0;
  }
}
