/** Reading back what has been printed. */
module SjsonRoundTrip {
  import opened ByteString
  import opened Optional
  import opened Sequences
  import opened Sjson
  import opened SjsonMachine
  import opened SjsonEncode
  import opened SjsonOrder
  import AdvString
  import SjsonDecode
  import SjsonForest
  import SjsonTree

  /** What decoding a text yields. */
  ghost function Parse(text: Bytes): Option<Members> {
    match Run(Init(End), SjsonDecode.Stripped(text))
    case None => None
    case Some(st) => if st.stat == ExpNothing then Some(st.obj) else None
  }

  /** The keys read are NUL-free. */
  ghost predicate KeysClean(text: Bytes) {
    var r := Run(Init(End), SjsonDecode.Stripped(text));
    r.Some? ==> r.value.clean
  }

  /** White space makes no difference anywhere. */
  lemma {:induction false} ParseWhiteSpace(a: Bytes, b: Byte, c: Bytes)
    requires b == 9 || b == 10 || b == 13 || b == 32
    ensures Parse(a + [b] + c) == Parse(a + c)
  {
    SjsonDecode.StrippedByte(a, b, c);
  }

  /** Parse is what the grammar says. */
  lemma {:induction false} ParseMeaning(text: Bytes)
    ensures Parse(text).Some? <==> InGrammar(SjsonDecode.Stripped(text))
    ensures Parse(text).Some? && KeysClean(text) ==>
      forall its, den, out :: SjsonDecode.Decoded(its, den, out, SjsonDecode.Stripped(text), End) ==>
        SjsonDecode.Denotes(its, den, out, Parse(text).value)
  {
    var s := SjsonDecode.Stripped(text);
    AcceptsExactlyTheGrammar(s, End);
    if InGrammar(s) {
      var ms, comma :| WfValue(CObj(ms, comma)) && s == Text(CObj(ms, comma));
      var st := Accepted(ms, comma, End);
    }
  }

  /** {"s":"", "a":["b","c",],}: the list is turned, and the keys are in order. */
  lemma {:induction false} Example()
    ensures Parse([123, 34, 115, 34, 58, 34, 34, 44] + [32] +
                  [34, 97, 34, 58, 91, 34, 98, 34, 44, 34, 99, 34, 44, 93, 44, 125]) ==
      Some(Mem([97], List([[99], [98]]), Mem([115], Str([]), End)))
  {
    var a: Bytes := [123, 34, 115, 34, 58, 34, 34, 44];
    var c: Bytes := [34, 97, 34, 58, 91, 34, 98, 34, 44, 34, 99, 34, 44, 93, 44, 125];
    var items: seq<Bytes> := [[98], [99]];
    var second := CMem([97], CList(items, true), CEnd);
    var ms := CMem([115], CStr([]), second);
    ParseWhiteSpace(a, 32, c);
    ExampleText();
    ExampleDenotes();
    ExampleVisible();
    ExampleWf();
    hide MembersText, Text, DenoteMembers, Visible, Parse, WfValue;
    ParseText(a + c, ms, true);
  }

  /** The value of a text without white space is what a derivation of it denotes. */
  lemma {:induction false} ParseText(text: Bytes, ms: CMembers, comma: bool)
    requires Visible(text) && WfValue(CObj(ms, comma)) && text == Text(CObj(ms, comma))
    ensures Parse(text) == Some(DenoteMembers(ms, End))
  {
    NothingStripped(text);
    hide Text, Run;
    var st := Accepted(ms, comma, End);
  }

  lemma {:induction false} NothingStripped(s: Bytes)
    requires Visible(s)
    ensures SjsonDecode.Stripped(s) == s
  {
    AdvString.FilteredAll(s, AdvString.Elements(SjsonDecode.INVISIBLE));
  }

  lemma {:induction false} ExampleVisible()
    ensures Visible([123, 34, 115, 34, 58, 34, 34, 44] +
                    [34, 97, 34, 58, 91, 34, 98, 34, 44, 34, 99, 34, 44, 93, 44, 125])
  {
    AllVisible([123, 34, 115, 34, 58, 34, 34, 44]);
    AllVisible([34, 97, 34, 58, 91, 34, 98, 34, 44, 34, 99, 34, 44, 93, 44, 125]);
    hide Visible;
    VisibleParts([123, 34, 115, 34, 58, 34, 34, 44], [34, 97, 34, 58, 91, 34, 98, 34, 44, 34, 99, 34, 44, 93, 44, 125]);
  }

  lemma {:induction false} AllVisible(s: Bytes)
    requires forall i :: 0 <= i < |s| ==> s[i] > 32
    ensures Visible(s)
  {
    forall i | 0 <= i < |s|
      ensures s[i] !in AdvString.Elements(SjsonDecode.INVISIBLE)
    {
      SjsonDecode.WhiteSpace(s[i]);
    }
  }

  lemma {:induction false} ExampleWf()
    ensures WfValue(CObj(CMem([115], CStr([]), CMem([97], CList([[98], [99]], true), CEnd)), true))
  {
  }

  lemma {:induction false} ExampleText()
    ensures Text(CObj(CMem([115], CStr([]), CMem([97], CList([[98], [99]], true), CEnd)), true)) ==
      [123, 34, 115, 34, 58, 34, 34, 44] + [34, 97, 34, 58, 91, 34, 98, 34, 44, 34, 99, 34, 44, 93, 44, 125]
  {
    ExampleMember();
    var second := CMem([97], CList([[98], [99]], true), CEnd);
    var ms := CMem([115], CStr([]), second);
    assert Quoted([115]) + [58] + Quoted([]) == [34, 115, 34, 58, 34, 34];
    assert Text(CObj(ms, true)) == [123] + MembersText(ms, true) + [125];
    hide Text, MembersText;
    assert [123] + ([34, 115, 34, 58, 34, 34] + ([44] + MembersText(second, true))) + [125] ==
      [123, 34, 115, 34, 58, 34, 34, 44] + (MembersText(second, true) + [125]);
  }

  lemma {:induction false} ExampleMember()
    ensures MembersText(CMem([97], CList([[98], [99]], true), CEnd), true) ==
      [34, 97, 34, 58, 91, 34, 98, 34, 44, 34, 99, 34, 44, 93, 44]
  {
    ExampleItems();
    hide ItemsText;
    assert Text(CList([[98], [99]], true)) == [91, 34, 98, 34, 44, 34, 99, 34, 44, 93];
    assert Quoted([97]) + [58] == [34, 97, 34, 58];
  }

  lemma {:induction false} ExampleItems()
    ensures ItemsText([[98], [99]], true) == [34, 98, 34, 44, 34, 99, 34, 44]
  {
    var items: seq<Bytes> := [[98], [99]];
    assert items[1..] == [[99]];
    assert ItemsText([[99]], true) == [34, 99, 34, 44];
  }

  lemma {:induction false} ExampleDenotes()
    ensures DenoteMembers(CMem([115], CStr([]), CMem([97], CList([[98], [99]], true), CEnd)), End) ==
      Mem([97], List([[99], [98]]), Mem([115], Str([]), End))
  {
    assert Compare([97], [115]) < 0;
    var items: seq<Bytes> := [[98], [99]];
    assert Reverse(items) == [[99], [98]];
  }

  /** No quote and no white space. */
  ghost predicate PlainString(s: Bytes) {
    IsString(s) && forall i :: 0 <= i < |s| ==> s[i] !in AdvString.Elements(SjsonDecode.INVISIBLE)
  }

  ghost predicate Plain(v: Value) {
    match v
    case Str(s) => PlainString(s)
    case List(items) => forall i :: 0 <= i < |items| ==> PlainString(items[i])
    case Obj(ms) => PlainMembers(ms)
  }

  ghost predicate PlainMembers(ms: Members) {
    ms.Mem? ==> PlainString(ms.key) && Plain(ms.value) && PlainMembers(ms.rest)
  }

  /** Every list, at every depth, the other way round. */
  function Turn(v: Value): Value {
    match v
    case Str(_) => v
    case List(items) => List(Reverse(items))
    case Obj(ms) => Obj(TurnMembers(ms))
  }

  function TurnMembers(ms: Members): Members {
    match ms
    case End => End
    case Mem(k, v, rest) => Mem(k, Turn(v), TurnMembers(rest))
  }

  // ------------------------------------------------------- the text is in the grammar

  lemma {:induction false} CanonIsWellFormed(v: Value)
    requires Plain(v)
    ensures WfValue(Canon(v))
  {
    if v.Obj? { CanonMembersWellFormed(v.members); }
  }

  lemma {:induction false} CanonMembersWellFormed(ms: Members)
    requires PlainMembers(ms)
    ensures WfMembers(CanonMembers(ms))
  {
    if ms.Mem? {
      CanonIsWellFormed(ms.value);
      CanonMembersWellFormed(ms.rest);
    }
  }

  /** Nothing to strip. */
  ghost predicate Visible(s: Bytes) {
    forall i :: 0 <= i < |s| ==> s[i] !in AdvString.Elements(SjsonDecode.INVISIBLE)
  }

  lemma {:induction false} VisibleParts(a: Bytes, b: Bytes)
    requires Visible(a) && Visible(b)
    ensures Visible(a + b)
  {
  }

  lemma {:induction false} VisibleOne(b: Byte)
    requires b in {QUOTE, COMMA, COLON, LBRACKET, RBRACKET, LBRACE, RBRACE}
    ensures Visible([b])
  {
  }

  lemma {:induction false} VisibleQuoted(s: Bytes)
    requires PlainString(s)
    ensures Visible(Quoted(s))
  {
    VisibleOne(QUOTE);
    VisibleParts([QUOTE], s);
    VisibleParts([QUOTE] + s, [QUOTE]);
  }

  lemma {:induction false} VisibleItems(items: seq<Bytes>)
    requires forall i :: 0 <= i < |items| ==> PlainString(items[i])
    ensures Visible(ItemsText(items, false))
    decreases |items|
  {
    if items != [] {
      EncodeFirstItem(items);
      VisibleQuoted(items[0]);
      VisibleItems(items[1..]);
      VisibleOne(COMMA);
      hide Visible;
      if |items| > 1 { VisibleParts([COMMA], ItemsText(items[1..], false)); } else { NothingVisible(); }
      VisibleParts(Quoted(items[0]), if |items| == 1 then [] else [COMMA] + ItemsText(items[1..], false));
    } else {
      NothingVisible();
    }
  }

  lemma {:induction false} NothingVisible()
    ensures Visible([])
  {
  }

  lemma {:induction false} VisibleValue(v: Value)
    requires Plain(v)
    ensures Visible(Text(Canon(v)))
  {
    hide Visible;
    match v
    case Str(s) => VisibleQuoted(s);
    case List(items) =>
      VisibleItems(items);
      VisibleOne(LBRACKET);
      VisibleOne(RBRACKET);
      VisibleParts([LBRACKET], ItemsText(items, false));
      VisibleParts([LBRACKET] + ItemsText(items, false), [RBRACKET]);
    case Obj(ms) =>
      VisibleMembers(ms);
      VisibleOne(LBRACE);
      VisibleOne(RBRACE);
      VisibleParts([LBRACE], EncodeMembers(ms));
      VisibleParts([LBRACE] + EncodeMembers(ms), [RBRACE]);
  }

  lemma {:induction false} VisibleMembers(ms: Members)
    requires PlainMembers(ms)
    ensures Visible(EncodeMembers(ms))
  {
    hide Visible, EncodeMembers;
    NothingVisible();
    NoMembers();
    if ms.Mem? {
      EncodeFirst(ms);
      VisibleQuoted(ms.key);
      VisibleOne(COLON);
      VisibleOne(COMMA);
      VisibleValue(ms.value);
      VisibleMembers(ms.rest);
      VisibleParts(Quoted(ms.key), [COLON]);
      VisibleParts(Quoted(ms.key) + [COLON], Text(Canon(ms.value)));
      VisibleParts([COMMA], EncodeMembers(ms.rest));
      VisibleParts(Pair(ms.key, ms.value), if ms.rest.End? then [] else [COMMA] + EncodeMembers(ms.rest));
    }
  }

  // -------------------------------------------------------- what the text denotes

  /** Members in increasing order are appended one after the other. */
  function Append(a: Members, b: Members): Members {
    match a
    case End => b
    case Mem(k, v, rest) => Mem(k, v, Append(rest, b))
  }

  lemma {:induction false} AppendAssociative(a: Members, b: Members, c: Members)
    ensures Append(Append(a, b), c) == Append(a, Append(b, c))
  {
    if a.Mem? { AppendAssociative(a.rest, b, c); }
  }

  lemma {:induction false} AppendEnd(a: Members)
    ensures Append(a, End) == a
  {
    if a.Mem? { AppendEnd(a.rest); }
  }

  ghost predicate AllBelow(a: Members, k: Bytes) {
    a.Mem? ==> Compare(a.key, k) < 0 && AllBelow(a.rest, k)
  }

  lemma {:induction false} InsertLast(a: Members, k: Bytes, v: Value)
    requires AllBelow(a, k)
    ensures Insert(a, k, v) == Append(a, Mem(k, v, End))
  {
    if a.Mem? {
      CompareAntisymmetric(a.key, k);
      InsertLast(a.rest, k, v);
    }
  }

  lemma {:induction false} BelowNext(a: Members, k: Bytes, v: Value, l: Bytes)
    requires AllBelow(a, k) && Keys(a) && NulFree(k) && NulFree(l) && Compare(k, l) < 0
    ensures AllBelow(Append(a, Mem(k, v, End)), l)
  {
    if a.Mem? {
      CompareTransitive(a.key, k, l);
      BelowNext(a.rest, k, v, l);
    }
  }

  /** No key holds a NUL. */
  ghost predicate Keys(a: Members) {
    a.Mem? ==> NulFree(a.key) && Keys(a.rest)
  }

  lemma {:induction false} KeysAppend(a: Members, k: Bytes, v: Value)
    requires Keys(a) && NulFree(k)
    ensures Keys(Append(a, Mem(k, v, End)))
  {
    if a.Mem? { KeysAppend(a.rest, k, v); }
  }

  lemma {:induction false} DenoteCanon(v: Value)
    requires SortedValue(v)
    ensures Denote(Canon(v)) == Turn(v)
    decreases v, 1
  {
    if v.Obj? {
      DenoteCanonMembers(v.members, End);
    }
  }

  lemma {:induction false} DenoteCanonMembers(ms: Members, into: Members)
    requires Sorted(ms) && Keys(into) && (ms.Mem? ==> AllBelow(into, ms.key))
    ensures DenoteMembers(CanonMembers(ms), into) == Append(into, TurnMembers(ms))
    decreases ms, 0
  {
    match ms
    case End => AppendEnd(into);
    case Mem(k, v, rest) =>
      DenoteCanon(v);
      InsertLast(into, k, Turn(v));
      var next := Append(into, Mem(k, Turn(v), End));
      KeysAppend(into, k, Turn(v));
      if rest.Mem? { BelowNext(into, k, Turn(v), rest.key); }
      DenoteCanonMembers(rest, next);
      AppendAssociative(into, Mem(k, Turn(v), End), TurnMembers(rest));
  }

  // --------------------------------------------------------------- the theorems

  /** Decoding what has been encoded gives the object with its lists reversed. */
  lemma {:induction false} RoundTrip(ms: Members)
    requires Sorted(ms) && PlainMembers(ms)
    ensures Parse(EncodeText(ms)) == Some(TurnMembers(ms))
  {
    var text := EncodeText(ms);
    VisibleValue(Obj(ms));
    AdvString.FilteredAll(text, AdvString.Elements(SjsonDecode.INVISIBLE));
    CanonIsWellFormed(Obj(ms));
    var st := Accepted(CanonMembers(ms), false, End);
    DenoteCanonMembers(ms, End);
  }

  /** A comma (44) before the closing brace (125) makes no difference. */
  lemma {:induction false} TrailingCommaAccepted(ms: Members)
    requires Sorted(ms) && PlainMembers(ms) && ms.Mem?
    ensures Parse([123] + EncodeMembers(ms) + [44, 125]) == Some(TurnMembers(ms))
  {
    var text, cs := [123] + EncodeMembers(ms) + [44, 125], CanonMembers(ms);
    CanonMembersWellFormed(ms);
    TrailingComma(cs);
    assert [123] + (EncodeMembers(ms) + [44]) + [125] == text;
    VisibleMembers(ms);
    AllVisible([123]);
    AllVisible([44, 125]);
    VisibleParts([123], EncodeMembers(ms));
    VisibleParts([123] + EncodeMembers(ms), [44, 125]);
    DenoteCanonMembers(ms, End);
    hide Visible, Parse;
    ParseText(text, cs, true);
  }

  lemma {:induction false} ReverseTwice(s: seq<Bytes>)
    ensures Reverse(Reverse(s)) == s
    ensures forall x :: x in Reverse(s) <==> x in s
  {
    ReverseConcat(s, []);
    forall x | x in s
      ensures x in Reverse(s)
    {
      var i :| 0 <= i < |s| && s[i] == x;
      assert Reverse(s)[|s| - 1 - i] == x;
    }
  }

  lemma {:induction false} TurnTwice(v: Value)
    ensures Turn(Turn(v)) == v && (Plain(v) ==> Plain(Turn(v))) && (SortedValue(v) ==> SortedValue(Turn(v)))
  {
    hide Reverse, PlainString;
    match v
    case Str(_) =>
    case List(items) =>
      ReverseTwice(items);
      forall i | 0 <= i < |items|
        ensures Reverse(items)[i] in items
      {
      }
    case Obj(ms) => TurnMembersTwice(ms);
  }

  lemma {:induction false} TurnMembersTwice(ms: Members)
    ensures TurnMembers(TurnMembers(ms)) == ms
    ensures (PlainMembers(ms) ==> PlainMembers(TurnMembers(ms))) && (Sorted(ms) ==> Sorted(TurnMembers(ms)))
  {
    if ms.Mem? {
      TurnTwice(ms.value);
      TurnMembersTwice(ms.rest);
    }
  }

  /** Two round trips are the identity. */
  lemma {:induction false} TwoRoundTrips(ms: Members)
    requires Sorted(ms) && PlainMembers(ms)
    ensures Parse(EncodeText(ms)).Some?
    ensures Parse(EncodeText(Parse(EncodeText(ms)).value)) == Some(ms)
  {
    RoundTrip(ms);
    TurnMembersTwice(ms);
    RoundTrip(TurnMembers(ms));
  }

  predicate Symmetric(v: Value) {
    match v
    case Str(_) => true
    case List(items) => Reverse(items) == items
    case Obj(ms) => SymmetricMembers(ms)
  }

  /** Every list, at every depth, reads the same in both directions; there may be none. */
  predicate SymmetricMembers(ms: Members) {
    ms.Mem? ==> Symmetric(ms.value) && SymmetricMembers(ms.rest)
  }

  lemma {:induction false} TurnFixed(v: Value)
    ensures Turn(v) == v <==> Symmetric(v)
  {
    if v.Obj? { TurnMembersFixed(v.members); }
  }

  lemma {:induction false} TurnMembersFixed(ms: Members)
    ensures TurnMembers(ms) == ms <==> SymmetricMembers(ms)
  {
    if ms.Mem? {
      TurnFixed(ms.value);
      TurnMembersFixed(ms.rest);
    }
  }

  /** Exactly when one round trip is the identity. */
  lemma {:induction false} IdentityRoundTrip(ms: Members)
    requires Sorted(ms) && PlainMembers(ms)
    ensures Parse(EncodeText(ms)) == Some(ms) <==> SymmetricMembers(ms)
  {
    RoundTrip(ms);
    TurnMembersFixed(ms);
  }

  /** The bytes are the same exactly when the content is. */
  lemma {:induction false} EncodingIsCanonical(a: Members, b: Members)
    requires Sorted(a) && Sorted(b)
    ensures SameObject(a, b) ==> EncodeText(a) == EncodeText(b)
    ensures PlainMembers(a) && PlainMembers(b) && EncodeText(a) == EncodeText(b) ==> SameObject(a, b)
  {
    if SameObject(a, b) { SameObjectEqual(a, b); }
    if PlainMembers(a) && PlainMembers(b) && EncodeText(a) == EncodeText(b) {
      RoundTrip(a);
      RoundTrip(b);
      TurnMembersTwice(a);
      TurnMembersTwice(b);
      SameAsItself(a);
    }
  }

  lemma {:induction false} SameAsItself(a: Members)
    ensures SameObject(a, a)
  {
    forall k | HasKey(a, k)
      ensures SameContent(Get(a, k), Get(a, k))
    {
      var v := Get(a, k);
      if v.Obj? { SameAsItself(v.members); }
    }
  }

  // ------------------------------------------- every decoded object can be sent back

  lemma {:induction false} VisibleSplit(a: Bytes, b: Bytes)
    requires Visible(a + b)
    ensures Visible(a) && Visible(b)
  {
    assert forall i :: 0 <= i < |a| ==> (a + b)[i] == a[i];
    assert forall i :: 0 <= i < |b| ==> (a + b)[|a| + i] == b[i];
  }

  lemma {:induction false} QuotedVisible(s: Bytes)
    requires Visible(Quoted(s)) && IsString(s)
    ensures PlainString(s)
  {
    VisibleSplit([QUOTE] + s, [QUOTE]);
    VisibleSplit([QUOTE], s);
  }

  lemma {:induction false} ItemsVisible(items: seq<Bytes>, comma: bool)
    requires Visible(ItemsText(items, comma)) && forall i :: 0 <= i < |items| ==> IsString(items[i])
    ensures forall i :: 0 <= i < |items| ==> PlainString(items[i])
    decreases |items|
  {
    if items != [] {
      var rest := items[1..];
      VisibleSplit(Quoted(items[0]), Tail(|items| == 1, comma, ItemsText(rest, comma)));
      QuotedVisible(items[0]);
      if rest != [] {
        VisibleSplit([COMMA], ItemsText(rest, comma));
        ItemsVisible(rest, comma);
      }
    }
  }

  lemma {:induction false} ReverseItems(items: seq<Bytes>)
    ensures forall i :: 0 <= i < |Reverse(items)| ==> Reverse(items)[i] in items
  {
    ReverseTwice(items);
  }

  lemma {:induction false} InsertPlain(ms: Members, k: Bytes, v: Value)
    requires PlainMembers(ms) && PlainString(k) && Plain(v)
    ensures PlainMembers(Insert(ms, k, v))
  {
    if ms.Mem? { InsertPlain(ms.rest, k, v); }
  }

  lemma {:induction false} DenotedPlain(v: CValue)
    requires WfValue(v) && Visible(Text(v))
    ensures Plain(Denote(v))
    decreases v, 0
  {
    match v
    case CStr(s) => QuotedVisible(s);
    case CList(items, comma) =>
      VisibleSplit([LBRACKET] + ItemsText(items, comma), [RBRACKET]);
      VisibleSplit([LBRACKET], ItemsText(items, comma));
      ItemsVisible(items, comma);
      ReverseItems(items);
    case CObj(ms, comma) =>
      VisibleSplit([LBRACE] + MembersText(ms, comma), [RBRACE]);
      VisibleSplit([LBRACE], MembersText(ms, comma));
      DenotedMembersPlain(ms, comma, End);
  }

  lemma {:induction false} DenotedMembersPlain(ms: CMembers, comma: bool, into: Members)
    requires WfMembers(ms) && Visible(MembersText(ms, comma)) && PlainMembers(into)
    ensures PlainMembers(DenoteMembers(ms, into))
    decreases ms, 1
  {
    match ms
    case CEnd =>
    case CMem(k, v, rest) =>
      hide Visible, PlainMembers, Insert;
      var more := MembersText(rest, comma);
      VisibleSplit(Quoted(k) + [COLON] + Text(v), Tail(rest.CEnd?, comma, more));
      VisibleSplit(Quoted(k) + [COLON], Text(v));
      VisibleSplit(Quoted(k), [COLON]);
      QuotedVisible(k);
      DenotedPlain(v);
      InsertPlain(into, k, Denote(v));
      if rest.CMem? {
        VisibleSplit([COMMA], more);
        DenotedMembersPlain(rest, comma, Insert(into, k, Denote(v)));
      }
  }

  lemma {:induction false} DenotedSorted(v: CValue)
    requires CleanValue(v)
    ensures SortedValue(Denote(v))
    decreases v, 0
  {
    if v.CObj? { DenotedMembersSorted(v.members, End); }
  }

  lemma {:induction false} DenotedMembersSorted(ms: CMembers, into: Members)
    requires CleanMembers(ms) && Sorted(into)
    ensures Sorted(DenoteMembers(ms, into))
    decreases ms, 1
  {
    match ms
    case CEnd =>
    case CMem(k, v, rest) =>
      hide Sorted, Insert;
      DenotedSorted(v);
      InsertSorted(into, k, Denote(v));
      DenotedMembersSorted(rest, Insert(into, k, Denote(v)));
  }

  /** Whatever is decoded holds no quote and no white space, at any depth. */
  lemma {:induction false} ParsedPlain(text: Bytes)
    requires Parse(text).Some?
    ensures PlainMembers(Parse(text).value)
    ensures KeysClean(text) ==> Sorted(Parse(text).value)
  {
    var s := SjsonDecode.Stripped(text);
    ParseMeaning(text);
    var ms, comma :| WfValue(CObj(ms, comma)) && s == Text(CObj(ms, comma));
    var st := Accepted(ms, comma, End);
    assert Visible(s);
    VisibleSplit([LBRACE] + MembersText(ms, comma), [RBRACE]);
    VisibleSplit([LBRACE], MembersText(ms, comma));
    DenotedMembersPlain(ms, comma, End);
    if KeysClean(text) { DenotedMembersSorted(ms, End); }
  }

  /** Exactly which objects come back as they should. */
  lemma {:induction false} RoundTripExactly(ms: Members)
    requires Sorted(ms)
    ensures Parse(EncodeText(ms)) == Some(TurnMembers(ms)) <==> PlainMembers(ms)
  {
    if PlainMembers(ms) {
      RoundTrip(ms);
    } else if Parse(EncodeText(ms)) == Some(TurnMembers(ms)) {
      ParsedPlain(EncodeText(ms));
      TurnMembersTwice(ms);
      TurnMembersTwice(TurnMembers(ms));
      assert false;
    }
  }

  /** What has been decoded, with NUL-free keys, survives being encoded and decoded again. */
  lemma {:induction false} DecodedRoundTrip(text: Bytes)
    requires Parse(text).Some? && KeysClean(text)
    ensures var ms := Parse(text).value;
      Sorted(ms) && PlainMembers(ms) && Parse(EncodeText(ms)) == Some(TurnMembers(ms))
  {
    ParsedPlain(text);
    RoundTrip(Parse(text).value);
  }

  // ------------------------------------------------------------- through the heap

  lemma {:induction false} CanonIsClean(ms: Members)
    requires Sorted(ms)
    ensures CleanMembers(CanonMembers(ms))
  {
    if ms.Mem? {
      if ms.value.Obj? { CanonIsClean(ms.value.members); }
      CanonIsClean(ms.rest);
    }
  }

  lemma {:induction false} CleanText(ms: Members)
    requires Sorted(ms) && PlainMembers(ms)
    ensures KeysClean(EncodeText(ms))
  {
    VisibleValue(Obj(ms));
    AdvString.FilteredAll(EncodeText(ms), AdvString.Elements(SjsonDecode.INVISIBLE));
    CanonIsWellFormed(Obj(ms));
    CanonIsClean(ms);
    var st := Accepted(CanonMembers(ms), false, End);
  }

  lemma {:induction false} EmptyObject(out: SjsonTree.JsonObj)
    ensures SjsonForest.Rep(map[out := []], map[], Init(End), [out])
  {
  }

  /** What decoding the text of `ms` into an empty object leaves. */
  lemma {:induction false} ReadBack(its: SjsonForest.Items, den: SjsonForest.Den, out: SjsonTree.JsonObj, ms: Members)
    requires Sorted(ms) && PlainMembers(ms)
    ensures SjsonDecode.Stripped(EncodeText(ms)) == EncodeText(ms) && InGrammar(EncodeText(ms))
    ensures SjsonDecode.Decoded(its, den, out, EncodeText(ms), End) ==>
      SjsonDecode.Denotes(its, den, out, TurnMembers(ms))
  {
    VisibleValue(Obj(ms));
    AdvString.FilteredAll(EncodeText(ms), AdvString.Elements(SjsonDecode.INVISIBLE));
    CanonIsWellFormed(Obj(ms));
    CanonIsClean(ms);
    DenoteCanonMembers(ms, End);
    assert WfValue(CObj(CanonMembers(ms), false)) && EncodeText(ms) == Text(CObj(CanonMembers(ms), false));
  }

  /** lts_sjson_encode, and lts_sjson_decode of the result into an empty object. */
  method EncodeThenDecode(o: SjsonTree.JsonObj, limit: nat, ghost its: SjsonForest.Items, ghost den: SjsonForest.Den)
    returns (r: int, out: SjsonTree.JsonObj, ghost its': SjsonForest.Items, ghost den': SjsonForest.Den)
    requires SjsonDecode.Holding(its) && SjsonForest.Finished(its, den) && o in den
    requires Sorted(den[o]) && PlainMembers(den[o])
    ensures r == if |EncodeText(den[o])| < limit then 0 else -1
    ensures r == 0 ==> SjsonDecode.Holding(its') && SjsonDecode.Denotes(its', den', out, TurnMembers(den[o]))
  {
    hide SjsonDecode.Holding, SjsonForest.Rep, SjsonDecode.Decoded, SjsonDecode.Denotes, SjsonDecode.Stripped;
    hide EncodeText;
    hide PlainMembers, Sorted, TurnMembers, SjsonForest.Finished, InGrammar;
    var data, len;
    r, data, len := Encode(o, limit, its, den);
    out := NewOutput();
    its', den' := map[], map[];
    if r == -1 {
      return;
    }
    var src := new AdvString.Str(data, 0, len);
    EmptyObject(out);
    r, its', den' := SjsonDecode.Decode(src, out, map[out := []], map[], End);
    ReadBack(its', den', out, den[o]);
  }

  /** Objects that are well ordered in the heap stand for well-ordered members. */
  lemma {:induction false} MembersSorted(items: seq<SjsonTree.Entry>, its: SjsonForest.Items, den: SjsonForest.Den)
    requires SjsonForest.Finished(its, den) && forall o :: o in den ==> SjsonForest.Sorted(its[o])
    requires SjsonForest.Sorted(items) && SjsonForest.Within(items, den.Keys)
    ensures Sorted(SjsonForest.MembersOf(items, den))
    decreases SjsonForest.MembersOf(items, den)
  {
    if items != [] {
      var e, rest := items[0], items[1..];
      if e.Sub? {
        MembersSorted(its[e.obj], its, den);
      }
      MembersSorted(rest, its, den);
    }
  }

  lemma {:induction false} HeapSorted(its: SjsonForest.Items, den: SjsonForest.Den, o: SjsonTree.JsonObj)
    requires SjsonForest.Finished(its, den) && forall x :: x in den ==> SjsonForest.Sorted(its[x])
    requires o in den
    ensures Sorted(den[o])
  {
    MembersSorted(its[o], its, den);
  }

  /** A decoded object is finished like those below it. */
  lemma {:induction false} DenotedFinished(its: SjsonForest.Items, den: SjsonForest.Den, o: SjsonTree.JsonObj,
                              ms: Members)
    requires SjsonDecode.Denotes(its, den, o, ms)
    ensures SjsonForest.Finished(its, den[o := ms])
  {
    var d := den[o := ms];
    assert o in den ==> d == den;
    forall x | x in d
      ensures SjsonForest.Within(its[x], d.Keys) && SjsonForest.MembersOf(its[x], d) == d[x]
    {
      if o !in den { SjsonForest.MembersFrame(its[x], den, d, den.Keys); }
    }
  }

  /** lts_sjson_decode into an empty object, and lts_sjson_encode of what it has become. */
  method DecodeThenEncode(src: AdvString.Str, limit: nat) returns (r: int, data: array<Byte>, len: nat)
    requires src.Valid() && KeysClean(src.Contents())
    modifies src`len, src.buffer
    ensures var ms := Parse(old(src.Contents()));
      r == (if ms.Some? && |EncodeText(ms.value)| < limit then 0 else -1) &&
      (r == 0 ==> len == data.Length - 1 && data[..len] == EncodeText(ms.value))
  {
    hide SjsonDecode.Holding, SjsonForest.Rep, SjsonDecode.Decoded, SjsonDecode.Denotes, SjsonDecode.Stripped;
    hide EncodeText, Parse, KeysClean, SjsonForest.Finished, InGrammar;
    ghost var text := src.Contents();
    var out := NewOutput();
    EmptyObject(out);
    ghost var its, den;
    r, its, den := SjsonDecode.Decode(src, out, map[out := []], map[], End);
    ParseMeaning(text);
    if r != 0 {
      data, len := new Byte[0], 0;
      return;
    }
    ghost var ms := Parse(text).value;
    DenotedFinished(its, den, out, ms);
    r, data, len := Encode(out, limit, its, den[out := ms]);
  }

  method NewOutput() returns (out: SjsonTree.JsonObj)
    ensures fresh(out) && fresh(out.root) && out.nodes == {} && SjsonDecode.Holding(map[out := []])
  {
    out := new SjsonTree.JsonObj();
  }
}
