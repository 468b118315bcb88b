/**
 The decoder of src/simple_json.c as a pushdown machine, and its agreement with
 the grammar.
 */
module SjsonMachine {
  import opened ByteString
  import opened Optional
  import opened Sequences
  import opened Sjson

  /** What the decoder expects next. */
  datatype Stat =
    | ExpStart
    | ExpKeyOrEnd
    | ExpKeyStart
    | ExpKeyEnd
    | ExpColon
    | ExpValue
    | ExpStrEnd
    | ExpItemOrEnd
    | ExpCommaOrBracket
    | ExpCommaOrEnd
    | ExpEnd
    | ExpNothing

  /** A suspended object, and the key under which the open one hangs. */
  datatype Frame = Frame(members: Members, key: Bytes)

  /** `clean`: no key read so far holds a NUL. */
  datatype State = State(
    stat: Stat,
    inBracket: bool,
    key: Bytes,
    str: Bytes,
    items: seq<Bytes>,
    obj: Members,
    stack: seq<Frame>,
    clean: bool)

  function Init(output: Members): State {
    State(ExpStart, false, [], [], [], output, [], true)
  }

  /** The closing brace of the open object. */
  function Close(st: State): State {
    if st.stack == [] then st.(stat := ExpNothing)
    else
      var f := st.stack[|st.stack| - 1];
      st.(stat := ExpCommaOrEnd, obj := Insert(f.members, f.key, Obj(st.obj)), stack := st.stack[..|st.stack| - 1])
  }

  function CloseList(st: State): State {
    st.(stat := ExpCommaOrEnd, inBracket := false, obj := Insert(st.obj, st.key, List(st.items)))
  }

  function Step(st: State, b: Byte): Option<State> {
    match st.stat
    case ExpStart => if b == LBRACE then Some(st.(stat := ExpKeyOrEnd)) else None
    case ExpKeyOrEnd =>
      if b == QUOTE then Some(st.(stat := ExpKeyEnd, key := []))
      else if b == RBRACE then Some(Close(st))
      else None
    case ExpKeyStart => Some(if b == QUOTE then st.(stat := ExpKeyEnd, key := []) else st)
    case ExpKeyEnd =>
      Some(if b == QUOTE then st.(stat := ExpColon, clean := st.clean && NulFree(st.key)) else st.(key := st.key + [b]))
    case ExpNothing => None
    case ExpColon => if b == COLON then Some(st.(stat := ExpValue)) else None
    case ExpValue =>
      if b == QUOTE then Some(st.(stat := ExpStrEnd, str := []))
      else if b == LBRACKET then Some(st.(stat := ExpItemOrEnd, inBracket := true, items := []))
      else if b == LBRACE then
        Some(st.(stat := ExpKeyOrEnd, obj := End, stack := st.stack + [Frame(st.obj, st.key)]))
      else None
    case ExpItemOrEnd =>
      if b == QUOTE then Some(st.(stat := ExpStrEnd, str := []))
      else if b == RBRACKET then Some(CloseList(st))
      else None
    case ExpStrEnd =>
      if b != QUOTE then Some(st.(str := st.str + [b]))
      else if st.inBracket then Some(st.(stat := ExpCommaOrBracket, items := [st.str] + st.items))
      else Some(st.(stat := ExpCommaOrEnd, obj := Insert(st.obj, st.key, Str(st.str))))
    case ExpCommaOrBracket =>
      if b == COMMA then Some(st.(stat := ExpItemOrEnd))
      else if b == RBRACKET then Some(CloseList(st))
      else None
    case ExpCommaOrEnd =>
      if b == COMMA then Some(st.(stat := ExpKeyOrEnd))
      else if b == RBRACE then Some(Close(st))
      else None
    case ExpEnd => None
  }

  function Run(st: State, s: Bytes): Option<State>
    decreases |s|
  {
    if s == [] then Some(st)
    else
      match Step(st, s[0])
      case None => None
      case Some(st') => Run(st', s[1..])
  }

  lemma {:induction false} RunConcat(st: State, a: Bytes, b: Bytes)
    ensures Run(st, a + b) == match Run(st, a) case None => None case Some(st') => Run(st', b)
    decreases |a|
  {
    if a == [] {
      assert a + b == b;
    } else {
      assert (a + b)[1..] == a[1..] + b;
      match Step(st, a[0])
      case None =>
      case Some(st') => RunConcat(st', a[1..], b);
    }
  }

  lemma {:induction false} RunOne(st: State, b: Byte)
    ensures Run(st, [b]) == Step(st, b)
  {
    var s: Bytes := [b];
    assert s[1..] == [];
  }

  /** Run over two pieces. */
  lemma {:induction false} RunTwo(st: State, a: Bytes, st1: State, b: Bytes)
    requires Run(st, a) == Some(st1)
    ensures Run(st, a + b) == Run(st1, b)
  {
    RunConcat(st, a, b);
  }

  // -------------------------------------------------------------- completeness

  lemma {:induction false} RunKeyBytes(st: State, k: Bytes)
    requires st.stat == ExpKeyEnd && IsString(k)
    ensures Run(st, k) == Some(st.(key := st.key + k))
    decreases |k|
  {
    if k == [] {
      assert st.key + k == st.key;
    } else {
      RunKeyBytes(st.(key := st.key + [k[0]]), k[1..]);
      assert st.key + [k[0]] + k[1..] == st.key + k;
    }
  }

  lemma {:induction false} RunStrBytes(st: State, s: Bytes)
    requires st.stat == ExpStrEnd && IsString(s)
    ensures Run(st, s) == Some(st.(str := st.str + s))
    decreases |s|
  {
    if s == [] {
      assert st.str + s == st.str;
    } else {
      RunStrBytes(st.(str := st.str + [s[0]]), s[1..]);
      assert st.str + [s[0]] + s[1..] == st.str + s;
    }
  }

  lemma {:induction false} RunKey(st: State, k: Bytes)
    requires st.stat == ExpKeyOrEnd && IsString(k)
    ensures Run(st, Quoted(k)) == Some(st.(stat := ExpColon, key := k, clean := st.clean && NulFree(k)))
  {
    var st1 := st.(stat := ExpKeyEnd, key := []);
    RunOne(st, QUOTE);
    RunKeyBytes(st1, k);
    assert [] + k == k;
    RunTwo(st, [QUOTE], st1, k);
    RunTwo(st, [QUOTE] + k, st1.(key := k), [QUOTE]);
    RunOne(st1.(key := k), QUOTE);
  }

  /** A quoted string, up to its closing quote. */
  lemma {:induction false} RunStr(st: State, s: Bytes)
    requires (st.stat == ExpValue || st.stat == ExpItemOrEnd) && IsString(s)
    ensures Run(st, Quoted(s)) == Step(st.(stat := ExpStrEnd, str := s), QUOTE)
  {
    var st1 := st.(stat := ExpStrEnd, str := []);
    RunOne(st, QUOTE);
    RunStrBytes(st1, s);
    assert [] + s == s;
    RunTwo(st, [QUOTE], st1, s);
    RunTwo(st, [QUOTE] + s, st1.(str := s), [QUOTE]);
    RunOne(st1.(str := s), QUOTE);
  }

  lemma {:induction false} ReversePrepend(s: seq<Bytes>, x: Bytes, t: seq<Bytes>)
    ensures Reverse([x] + s) + t == Reverse(s) + ([x] + t)
  {
    assert ([x] + s)[1..] == s;
    assert Reverse(s) + [x] + t == Reverse(s) + ([x] + t);
  }

  /** The elements of a list, up to its closing bracket. */
  lemma {:induction false} RunItems(st: State, items: seq<Bytes>, comma: bool) returns (st': State)
    requires st.stat == ExpItemOrEnd && st.inBracket
    requires (forall i :: 0 <= i < |items| ==> IsString(items[i])) && (comma ==> items != [])
    ensures Run(st, ItemsText(items, comma)) == Some(st')
    ensures st'.stat in {ExpItemOrEnd, ExpCommaOrBracket} && st'.inBracket
    ensures st'.items == Reverse(items) + st.items
    ensures st'.key == st.key && st'.obj == st.obj && st'.stack == st.stack && st'.clean == st.clean
    decreases |items|
  {
    if items == [] {
      st' := st;
    } else {
      var x, rest := items[0], items[1..];
      var st1 := st.(stat := ExpCommaOrBracket, str := x, items := [x] + st.items);
      RunStr(st, x);
      assert items == [x] + rest;
      ReversePrepend(rest, x, st.items);
      if rest == [] {
        st' := st1;
        if comma {
          st' := st1.(stat := ExpItemOrEnd);
          RunOne(st1, COMMA);
        }
        assert Reverse(rest) == [];
      } else {
        var st2 := st1.(stat := ExpItemOrEnd);
        RunOne(st1, COMMA);
        st' := RunItems(st2, rest, comma);
        RunTwo(st1, [COMMA], st2, ItemsText(rest, comma));
      }
      RunTwo(st, Quoted(x), st1, Tail(|items| == 1, comma, ItemsText(rest, comma)));
    }
  }

  /** No key, at any depth, holds a NUL. */
  predicate CleanValue(v: CValue) {
    v.CObj? ==> CleanMembers(v.members)
  }

  predicate CleanMembers(ms: CMembers) {
    ms.CMem? ==> NulFree(ms.key) && CleanValue(ms.value) && CleanMembers(ms.rest)
  }

  /** The state after a value: it has been added to the open object. */
  ghost predicate Added(st: State, v: CValue, st': State) {
    st'.clean == (st.clean && CleanValue(v)) &&
    st'.stat == ExpCommaOrEnd && !st'.inBracket && st'.stack == st.stack && st'.obj == Insert(st.obj, st.key, Denote(v))
  }

  /** The state after the closing brace of an object with members `ms`. */
  ghost predicate Closed(st: State, ms: Members, st': State) {
    !st'.inBracket &&
    if st.stack == [] then st'.stat == ExpNothing && st'.stack == [] && st'.obj == ms
    else
      var f := st.stack[|st.stack| - 1];
      st'.stat == ExpCommaOrEnd && st'.stack == st.stack[..|st.stack| - 1] &&
      st'.obj == Insert(f.members, f.key, Obj(ms))
  }

  lemma {:induction false} RunList(st: State, items: seq<Bytes>, comma: bool) returns (st': State)
    requires st.stat == ExpValue && !st.inBracket && WfValue(CList(items, comma))
    ensures Run(st, Text(CList(items, comma))) == Some(st') && Added(st, CList(items, comma), st')
  {
    var st1 := st.(stat := ExpItemOrEnd, inBracket := true, items := []);
    RunOne(st, LBRACKET);
    var st2 := RunItems(st1, items, comma);
    assert Reverse(items) + [] == Reverse(items);
    RunTwo(st, [LBRACKET], st1, ItemsText(items, comma));
    RunTwo(st, [LBRACKET] + ItemsText(items, comma), st2, [RBRACKET]);
    RunOne(st2, RBRACKET);
    st' := CloseList(st2);
  }

  lemma {:induction false} RunValue(st: State, v: CValue) returns (st': State)
    requires st.stat == ExpValue && !st.inBracket && WfValue(v)
    ensures Run(st, Text(v)) == Some(st') && Added(st, v, st')
    decreases v, 0
  {
    match v
    case CStr(s) =>
      RunStr(st, s);
      st' := st.(stat := ExpCommaOrEnd, str := s, obj := Insert(st.obj, st.key, Str(s)));
    case CList(items, comma) =>
      st' := RunList(st, items, comma);
    case CObj(ms, comma) =>
      var st1 := st.(stat := ExpKeyOrEnd, obj := End, stack := st.stack + [Frame(st.obj, st.key)]);
      RunOne(st, LBRACE);
      st' := RunMembers(st1, ms, comma);
      RunTwo(st, [LBRACE], st1, MembersText(ms, comma) + [RBRACE]);
      assert [LBRACE] + (MembersText(ms, comma) + [RBRACE]) == Text(v);
  }

  lemma {:induction false} RunMembers(st: State, ms: CMembers, comma: bool) returns (st': State)
    requires st.stat == ExpKeyOrEnd && !st.inBracket && WfMembers(ms) && (comma ==> ms.CMem?)
    ensures Run(st, MembersText(ms, comma) + [RBRACE]) == Some(st') && Closed(st, DenoteMembers(ms, st.obj), st')
    ensures st'.clean == (st.clean && CleanMembers(ms))
    decreases ms, 1
  {
    match ms
    case CEnd =>
      assert [] + [RBRACE] == [RBRACE];
      RunOne(st, RBRACE);
      st' := Close(st);
    case CMem(k, v, rest) =>
      hide Step, Insert, Denote, Text;
      var st1 := st.(stat := ExpColon, key := k, clean := st.clean && NulFree(k));
      RunKey(st, k);
      var st2 := st1.(stat := ExpValue);
      RunColon(st1);
      var st3 := RunValue(st2, v);
      st' := RunRest(st3, rest, comma);
      var tail, end := Tail(rest.CEnd?, comma, MembersText(rest, comma)), [RBRACE];
      RunTwo(st2, Text(v), st3, tail + end);
      RunTwo(st1, [COLON], st2, Text(v) + (tail + end));
      RunTwo(st, Quoted(k), st1, [COLON] + (Text(v) + (tail + end)));
      Pieces(Quoted(k), [COLON], Text(v), tail, end);
  }

  lemma {:induction false} RunColon(st: State)
    requires st.stat == ExpColon
    ensures Run(st, [COLON]) == Some(st.(stat := ExpValue))
  {
    RunOne(st, COLON);
  }

  /** What follows a member, up to the closing brace. */
  lemma {:induction false} RunRest(st: State, rest: CMembers, comma: bool) returns (st': State)
    requires st.stat == ExpCommaOrEnd && !st.inBracket && WfMembers(rest)
    ensures Run(st, Tail(rest.CEnd?, comma, MembersText(rest, comma)) + [RBRACE]) == Some(st')
    ensures Closed(st, DenoteMembers(rest, st.obj), st') && st'.clean == (st.clean && CleanMembers(rest))
    decreases rest, 2
  {
    var end: Bytes := [RBRACE];
    var st1 := st.(stat := ExpKeyOrEnd);
    RunOne(st, COMMA);
    if !rest.CEnd? {
      st' := RunMembers(st1, rest, comma);
      RunTwo(st, [COMMA], st1, MembersText(rest, comma) + end);
      assert [COMMA] + (MembersText(rest, comma) + end) == Tail(false, comma, MembersText(rest, comma)) + end;
    } else if comma {
      RunOne(st1, RBRACE);
      RunTwo(st, [COMMA], st1, end);
      st' := Close(st1);
    } else {
      assert [] + end == end;
      RunOne(st, RBRACE);
      st' := Close(st);
    }
  }

  lemma {:induction false} Pieces(a: Bytes, b: Bytes, c: Bytes, d: Bytes, e: Bytes)
    ensures a + (b + (c + (d + e))) == a + b + c + d + e
  {
  }

  // ----------------------------------------------------------------- soundness

  ghost predicate Accepting(st: State, s: Bytes) {
    var r := Run(st, s);
    r.Some? && r.value.stat == ExpNothing
  }

  lemma {:induction false} Head(st: State, s: Bytes)
    requires Accepting(st, s) && st.stat != ExpNothing
    ensures s != [] && Step(st, s[0]).Some? && Accepting(Step(st, s[0]).value, s[1..]) && s == [s[0]] + s[1..]
  {
  }

  lemma {:induction false} After(st: State, a: Bytes, st1: State, b: Bytes)
    requires Run(st, a) == Some(st1) && Accepting(st, a + b)
    ensures Accepting(st1, b)
  {
    RunTwo(st, a, st1, b);
  }

  lemma {:induction false} SplitQuote(s: Bytes) returns (k: Bytes, rest: Bytes)
    requires QUOTE in s
    ensures s == k + [QUOTE] + rest && IsString(k) && |rest| < |s|
    decreases |s|
  {
    if s[0] == QUOTE {
      k, rest := [], s[1..];
    } else {
      k, rest := SplitQuote(s[1..]);
      assert s == [s[0]] + (k + [QUOTE] + rest);
      k := [s[0]] + k;
    }
  }

  /** The quoted string that an accepted input must start with. */
  lemma {:induction false} ParseString(st: State, s: Bytes) returns (k: Bytes, rest: Bytes)
    requires (st.stat == ExpKeyOrEnd || st.stat == ExpValue || st.stat == ExpItemOrEnd)
    requires Accepting(st, s) && s != [] && s[0] == QUOTE
    ensures s == Quoted(k) + rest && IsString(k) && |rest| < |s|
  {
    var t := s[1..];
    Head(st, s);
    var st1 := Step(st, s[0]).value;
    if QUOTE !in t {
      if st.stat == ExpKeyOrEnd { RunKeyBytes(st1, t); } else { RunStrBytes(st1, t); }
      assert false;
    }
    k, rest := SplitQuote(t);
    assert s == [QUOTE] + (k + [QUOTE] + rest);
  }

  lemma {:induction false} ParseItems(st: State, s: Bytes) returns (items: seq<Bytes>, comma: bool, rest: Bytes)
    requires st.stat == ExpItemOrEnd && st.inBracket && Accepting(st, s)
    ensures s == ItemsText(items, comma) + [RBRACKET] + rest && |rest| < |s|
    ensures (forall i :: 0 <= i < |items| ==> IsString(items[i])) && (comma ==> items != [])
    decreases |s|
  {
    Head(st, s);
    if s[0] == RBRACKET {
      items, comma, rest := [], false, s[1..];
      assert [] + [RBRACKET] + rest == [RBRACKET] + rest;
    } else {
      var x, t := ParseString(st, s);
      RunStr(st, x);
      var st1 := st.(stat := ExpCommaOrBracket, str := x, items := [x] + st.items);
      After(st, Quoted(x), st1, t);
      var more, c, r := ParseItemsRest(st1, t);
      items, comma, rest := [x] + more, c, r;
      assert items[1..] == more;
      Pieces4(Quoted(x), Tail(more == [], c, ItemsText(more, c)), RBRACKET, r);
    }
  }

  lemma {:induction false} ParseItemsRest(st: State, s: Bytes) returns (items: seq<Bytes>, comma: bool, rest: Bytes)
    requires st.stat == ExpCommaOrBracket && st.inBracket && Accepting(st, s)
    ensures s == Tail(items == [], comma, ItemsText(items, comma)) + [RBRACKET] + rest && |rest| < |s|
    ensures forall i :: 0 <= i < |items| ==> IsString(items[i])
    decreases |s|
  {
    hide Run, Accepting;
    Head(st, s);
    if s[0] == RBRACKET {
      items, comma, rest := [], false, s[1..];
      Pieces3(COMMA, [], RBRACKET, rest);
    } else {
      items, comma, rest := ParseItems(Step(st, COMMA).value, s[1..]);
      Pieces3(COMMA, ItemsText(items, comma), RBRACKET, rest);
      if items == [] {
        comma := true;
      }
    }
  }

  lemma {:induction false} ParseValue(st: State, s: Bytes) returns (v: CValue, rest: Bytes)
    requires st.stat == ExpValue && !st.inBracket && Accepting(st, s)
    ensures s == Text(v) + rest && WfValue(v) && |rest| < |s|
    decreases |s|
  {
    hide Run, Accepting;
    Head(st, s);
    if s[0] == QUOTE {
      var x;
      x, rest := ParseString(st, s);
      v := CStr(x);
    } else if s[0] == LBRACKET {
      var items, comma;
      items, comma, rest := ParseItems(Step(st, s[0]).value, s[1..]);
      v := CList(items, comma);
      Pieces3(LBRACKET, ItemsText(items, comma), RBRACKET, rest);
    } else {
      var ms, comma;
      ms, comma, rest := ParseMembers(Step(st, s[0]).value, s[1..]);
      v := CObj(ms, comma);
      Pieces3(LBRACE, MembersText(ms, comma), RBRACE, rest);
    }
  }

  lemma {:induction false} ParseMembers(st: State, s: Bytes) returns (ms: CMembers, comma: bool, rest: Bytes)
    requires st.stat == ExpKeyOrEnd && !st.inBracket && Accepting(st, s)
    ensures s == MembersText(ms, comma) + [RBRACE] + rest && |rest| < |s|
    ensures WfMembers(ms) && (comma ==> ms.CMem?)
    decreases |s|
  {
    Head(st, s);
    if s[0] == RBRACE {
      ms, comma, rest := CEnd, false, s[1..];
      assert [] + [RBRACE] + rest == [RBRACE] + rest;
    } else {
      var k, t := ParseString(st, s);
      RunKey(st, k);
      var st1 := st.(stat := ExpColon, key := k, clean := st.clean && NulFree(k));
      After(st, Quoted(k), st1, t);
      Head(st1, t);
      var st2 := st1.(stat := ExpValue);
      var v, u := ParseValue(st2, t[1..]);
      var st3 := RunValue(st2, v);
      After(st2, Text(v), st3, u);
      var more, c, r := ParseRest(st3, u);
      ms, comma, rest := CMem(k, v, more), c, r;
      Pieces5(Quoted(k), Text(v), Tail(more.CEnd?, c, MembersText(more, c)), rest);
    }
  }

  lemma {:induction false} ParseRest(st: State, s: Bytes) returns (ms: CMembers, comma: bool, rest: Bytes)
    requires st.stat == ExpCommaOrEnd && !st.inBracket && Accepting(st, s)
    ensures s == Tail(ms.CEnd?, comma, MembersText(ms, comma)) + [RBRACE] + rest && |rest| < |s|
    ensures WfMembers(ms)
    decreases |s|
  {
    hide Run, Accepting;
    Head(st, s);
    if s[0] == RBRACE {
      ms, comma, rest := CEnd, false, s[1..];
      Pieces3(COMMA, [], RBRACE, rest);
    } else {
      ms, comma, rest := ParseMembers(Step(st, COMMA).value, s[1..]);
      Pieces3(COMMA, MembersText(ms, comma), RBRACE, rest);
      if ms.CEnd? {
        comma := true;
      }
    }
  }

  lemma {:induction false} Pieces3(a: Byte, text: Bytes, b: Byte, rest: Bytes)
    ensures [a] + (text + [b] + rest) == ([a] + text) + [b] + rest
    ensures text == [] ==> text + [b] + rest == [b] + rest && [a] + text == [a]
  {
  }

  lemma {:induction false} Pieces4(x: Bytes, tail: Bytes, b: Byte, rest: Bytes)
    ensures x + (tail + [b] + rest) == (x + tail) + [b] + rest
  {
  }

  lemma {:induction false} Pieces5(k: Bytes, v: Bytes, tail: Bytes, rest: Bytes)
    ensures k + ([COLON] + (v + (tail + [RBRACE] + rest))) == (k + [COLON] + v + tail) + [RBRACE] + rest
  {
  }

  // ------------------------------------------------------------- the agreement

  /** The decoder accepts exactly the objects of the grammar, with nothing after
      the closing brace, and adds the members that the grammar denotes. */
  lemma {:induction false} Accepted(ms: CMembers, comma: bool, output: Members) returns (st: State)
    requires WfValue(CObj(ms, comma))
    ensures Run(Init(output), Text(CObj(ms, comma))) == Some(st)
    ensures st.stat == ExpNothing && st.obj == DenoteMembers(ms, output) && st.clean == CleanMembers(ms)
  {
    var st0 := Init(output);
    var st1 := st0.(stat := ExpKeyOrEnd);
    RunOne(st0, LBRACE);
    st := RunMembers(st1, ms, comma);
    RunTwo(st0, [LBRACE], st1, MembersText(ms, comma) + [RBRACE]);
    assert [LBRACE] + (MembersText(ms, comma) + [RBRACE]) == Text(CObj(ms, comma));
  }

  lemma {:induction false} Derivation(s: Bytes, output: Members) returns (ms: CMembers, comma: bool)
    requires Accepting(Init(output), s)
    ensures WfValue(CObj(ms, comma)) && s == Text(CObj(ms, comma))
  {
    var st0 := Init(output);
    Head(st0, s);
    var st1 := st0.(stat := ExpKeyOrEnd);
    var rest;
    ms, comma, rest := ParseMembers(st1, s[1..]);
    var st := RunMembers(st1, ms, comma);
    After(st1, MembersText(ms, comma) + [RBRACE], st, rest);
    assert rest == [];
    var text := MembersText(ms, comma);
    assert [LBRACE] + (text + [RBRACE] + []) == [LBRACE] + text + [RBRACE];
  }

  /** A trailing comma is one byte more before the closing brace. */
  lemma {:induction false} TrailingComma(ms: CMembers)
    requires ms.CMem?
    ensures MembersText(ms, true) == MembersText(ms, false) + [44]
  {
    var head := Quoted(ms.key) + [COLON] + Text(ms.value);
    if ms.rest.CMem? {
      TrailingComma(ms.rest);
      var more := MembersText(ms.rest, false);
      assert head + ([COMMA] + (more + [44])) == head + ([COMMA] + more) + [44];
    } else {
      assert head + [] == head;
    }
  }

  lemma {:induction false} TrailingItemComma(items: seq<Bytes>)
    requires items != []
    ensures ItemsText(items, true) == ItemsText(items, false) + [44]
    decreases |items|
  {
    var head := Quoted(items[0]);
    if |items| > 1 {
      TrailingItemComma(items[1..]);
      var more := ItemsText(items[1..], false);
      assert head + ([COMMA] + (more + [44])) == head + ([COMMA] + more) + [44];
    } else {
      assert head + [] == head;
    }
  }

  ghost predicate InGrammar(s: Bytes) {
    exists ms, comma :: WfValue(CObj(ms, comma)) && s == Text(CObj(ms, comma))
  }

  lemma {:induction false} AcceptsExactlyTheGrammar(s: Bytes, output: Members)
    ensures Accepting(Init(output), s) <==> InGrammar(s)
  {
    if Accepting(Init(output), s) {
      var ms, comma := Derivation(s, output);
    }
    if InGrammar(s) {
      var ms, comma :| WfValue(CObj(ms, comma)) && s == Text(CObj(ms, comma));
      var st := Accepted(ms, comma, output);
    }
  }
}
