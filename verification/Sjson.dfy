/**
 The values and the grammar of the string-only JSON dialect that
 src/simple_json.c reads and writes.
 */
module Sjson {
  import opened ByteString
  import opened Sequences

  const TAB: Byte := 9
  const LF: Byte := 10
  const CR: Byte := 13
  const SPACE: Byte := 32
  const QUOTE: Byte := 34
  const COMMA: Byte := 44
  const COLON: Byte := 58
  const LBRACKET: Byte := 91
  const RBRACKET: Byte := 93
  const LBRACE: Byte := 123
  const RBRACE: Byte := 125

  // ------------------------------------------------------------------ values

  datatype Value = Str(s: Bytes) | List(items: seq<Bytes>) | Obj(members: Members)

  /** The members of an object in the order of the tree walk. */
  datatype Members = End | Mem(key: Bytes, value: Value, rest: Members)

  /** __lts_sjson_search with linking: a key that is present stays as it is. */
  function Insert(ms: Members, key: Bytes, value: Value): Members {
    match ms
    case End => Mem(key, value, End)
    case Mem(k, v, rest) =>
      var balance := Compare(key, k);
      if balance < 0 then Mem(key, value, ms)
      else if balance > 0 then Mem(k, v, Insert(rest, key, value))
      else ms
  }

  // ----------------------------------------------------------------- grammar

  /** A derivation: an optional trailing comma is allowed in lists and objects. */
  datatype CValue = CStr(s: Bytes) | CList(items: seq<Bytes>, comma: bool) | CObj(members: CMembers, comma: bool)
  datatype CMembers = CEnd | CMem(key: Bytes, value: CValue, rest: CMembers)

  predicate IsString(s: Bytes) {
    QUOTE !in s
  }

  predicate WfValue(v: CValue) {
    match v
    case CStr(s) => IsString(s)
    case CList(items, comma) => (forall i :: 0 <= i < |items| ==> IsString(items[i])) && (comma ==> items != [])
    case CObj(ms, comma) => WfMembers(ms) && (comma ==> ms.CMem?)
  }

  predicate WfMembers(ms: CMembers) {
    ms.CMem? ==> IsString(ms.key) && WfValue(ms.value) && WfMembers(ms.rest)
  }

  function Quoted(s: Bytes): (r: Bytes)
    ensures |r| == |s| + 2
  {
    [QUOTE] + s + [QUOTE]
  }

  /** What follows an element: the optional trailing comma, or a comma and more. */
  function Tail(last: bool, comma: bool, more: Bytes): Bytes {
    if last then (if comma then [COMMA] else []) else [COMMA] + more
  }

  function ItemsText(items: seq<Bytes>, comma: bool): Bytes {
    if items == [] then []
    else Quoted(items[0]) + Tail(|items| == 1, comma, ItemsText(items[1..], comma))
  }

  function Text(v: CValue): Bytes {
    match v
    case CStr(s) => Quoted(s)
    case CList(items, comma) => [LBRACKET] + ItemsText(items, comma) + [RBRACKET]
    case CObj(ms, comma) => [LBRACE] + MembersText(ms, comma) + [RBRACE]
  }

  function MembersText(ms: CMembers, comma: bool): Bytes {
    match ms
    case CEnd => []
    case CMem(k, v, rest) =>
      Quoted(k) + [COLON] + Text(v) + Tail(rest.CEnd?, comma, MembersText(rest, comma))
  }

  // --------------------------------------------------------------- denotation

  /** Lists are built by prepending. */
  function Denote(v: CValue): Value {
    match v
    case CStr(s) => Str(s)
    case CList(items, _) => List(Reverse(items))
    case CObj(ms, _) => Obj(DenoteMembers(ms, End))
  }

  /** Members are added from left to right; the first of two equal keys wins. */
  function DenoteMembers(ms: CMembers, into: Members): Members {
    match ms
    case CEnd => into
    case CMem(k, v, rest) => DenoteMembers(rest, Insert(into, k, Denote(v)))
  }
}
