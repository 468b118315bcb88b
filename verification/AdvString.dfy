/**
 The string algorithms of src/adv_string.c.  An `lts_str_t` is a stretch of a
 byte buffer: an array, the index of its first byte, and a length.
 */
module AdvString {
  import opened ByteString
  import Charmap

  /** An `lts_str_t`: `data` points at index `start` of `buffer`. */
  class Str {
    const buffer: array<Byte>
    const start: nat
    var len: nat

    ghost predicate Valid()
      reads this
    {
      start + len <= buffer.Length
    }

    ghost function Contents(): (s: Bytes)
      requires Valid()
      reads this, buffer
      ensures |s| == len
    {
      buffer[start..start + len]
    }

    lemma {:induction false} ByteAt(i: nat)
      requires Valid() && i < len
      ensures Contents()[i] == buffer[start + i]
    {
    }

    lemma {:induction false} Slice()
      requires Valid()
      ensures Contents() == buffer[..][start..start + len]
    {
    }

    constructor (buffer: array<Byte>, start: nat, len: nat)
      requires start + len <= buffer.Length
      ensures Valid() && this.buffer == buffer && this.start == start && this.len == len
    {
      this.buffer, this.start, this.len := buffer, start, len;
    }
  }

  /** The buffer is as it was around a string that had `n` bytes. */
  ghost predicate Outside(str: Str, was: Bytes, n: nat)
    reads str, str.buffer
  {
    str.start + n <= str.buffer.Length == |was|
    && forall t :: 0 <= t < |was| && !(str.start <= t < str.start + n) ==> str.buffer[t] == was[t]
  }

  lemma {:induction false} NothingOutside(str: Str)
    requires str.Valid()
    ensures Outside(str, str.buffer[..], str.len)
  {
  }

  // ------------------------------------------------------- in-place reversal

  /** The stretch i..j, both inclusive, of `past` the other way round. */
  ghost predicate Turned(now: Bytes, past: Bytes, i: nat, j: int) {
    i <= j + 1 <= |now| == |past|
    && (forall k :: i <= k <= j ==> now[k] == past[i + j - k])
    && (forall k :: 0 <= k < |now| && !(i <= k <= j) ==> now[k] == past[k])
  }

  /** The loop of __reverse_region. */
  method ReverseBytes(data: array<Byte>, i0: nat, j0: int)
    requires i0 <= j0 + 1 <= data.Length
    modifies data
    ensures Turned(data[..], old(data[..]), i0, j0)
  {
    var i, j := i0, j0;
    while i < j
      invariant i0 <= i <= j + 1 <= j0 + 1 && i - i0 == j0 - j
      invariant forall k :: 0 <= k < data.Length ==>
        data[k] == if i0 <= k < i || j < k <= j0 then old(data[i0 + j0 - k]) else old(data[k])
      decreases j - i
    {
      var c := data[i];
      data[i] := data[j];
      data[j] := c;
      i := i + 1;
      j := j - 1;
    }
  }

  /** __reverse_region, on the bytes of a string. */
  method ReverseRegion(str: Str, i: nat, j: int)
    requires str.Valid() && i <= j + 1 <= str.len
    modifies str.buffer
    ensures str.Valid() && Turned(str.Contents(), old(str.Contents()), i, j)
    ensures Outside(str, old(str.buffer[..]), str.len)
  {
    hide Turned, Outside, Str.Contents;
    ghost var was, past := str.buffer[..], str.Contents();
    str.Slice();
    ReverseBytes(str.buffer, str.start + i, str.start + j);
    TurnedRegion(str, was, past, i, j);
  }

  lemma {:induction false} TurnedRegion(str: Str, was: Bytes, past: Bytes, i: nat, j: int)
    requires str.Valid() && i <= j + 1 <= str.len && Turned(str.buffer[..], was, str.start + i, str.start + j)
    requires past == was[str.start..str.start + str.len]
    ensures Turned(str.Contents(), past, i, j) && Outside(str, was, str.len)
  {
  }

  // ------------------------------------------------------------ filtering

  /** The bytes of `s` that are not in `drop`, in order. */
  function Filtered(s: Bytes, drop: set<Byte>): (r: Bytes)
    ensures |r| <= |s| && forall b :: b in r ==> b in s && b !in drop
  {
    if s == [] then []
    else (if s[0] in drop then [] else [s[0]]) + Filtered(s[1..], drop)
  }

  lemma {:induction false} FilteredConcat(a: Bytes, b: Bytes, drop: set<Byte>)
    ensures Filtered(a + b, drop) == Filtered(a, drop) + Filtered(b, drop)
  {
    if a == [] {
      assert a + b == b;
    } else {
      assert (a + b)[1..] == a[1..] + b;
      FilteredConcat(a[1..], b, drop);
    }
  }

  lemma {:induction false} FilteredAll(s: Bytes, drop: set<Byte>)
    ensures (forall k :: 0 <= k < |s| ==> s[k] in drop) ==> Filtered(s, drop) == []
    ensures (forall k :: 0 <= k < |s| ==> s[k] !in drop) ==> Filtered(s, drop) == s
  {
    if s != [] { FilteredAll(s[1..], drop); }
  }

  lemma {:induction false} FilteredNext(s: Bytes, k: nat, drop: set<Byte>)
    requires k < |s|
    ensures Filtered(s[..k + 1], drop) == Filtered(s[..k], drop) + if s[k] in drop then [] else [s[k]]
  {
    assert s[..k + 1] == s[..k] + [s[k]];
    FilteredConcat(s[..k], [s[k]], drop);
    assert [s[k]][1..] == [];
  }

  lemma {:induction false} Cut(s: Bytes, m: nat, j: nat)
    requires m <= j <= |s|
    ensures s[..m] + s[m..j] == s[..j]
  {
  }

  /** Dropped bytes, in a row. */
  lemma {:induction false} FilteredDropRun(s: Bytes, k: nat, m: nat, drop: set<Byte>)
    requires k <= m <= |s| && forall t :: k <= t < m ==> s[t] in drop
    ensures Filtered(s[..m], drop) == Filtered(s[..k], drop)
  {
    Cut(s, k, m);
    FilteredConcat(s[..k], s[k..m], drop);
    FilteredAll(s[k..m], drop);
  }

  /** Kept bytes, in a row. */
  lemma {:induction false} FilteredKeepRun(s: Bytes, m: nat, j: nat, drop: set<Byte>)
    requires m <= j <= |s| && forall t :: m <= t < j ==> s[t] !in drop
    ensures Filtered(s[..j], drop) == Filtered(s[..m], drop) + s[m..j]
  {
    Cut(s, m, j);
    FilteredConcat(s[..m], s[m..j], drop);
    FilteredAll(s[m..j], drop);
  }

  /**
   In the middle of filtering, when a string that was `s` is now `now`: the first k
   bytes have been read, the i kept ones moved to the front, the rest of the
   k are dropped ones, and the others are as they were.
   */
  ghost predicate Filtering(now: Bytes, s: Bytes, i: nat, k: nat, drop: set<Byte>) {
    i <= k <= |s| == |now|
    && now[..i] == Filtered(s[..k], drop)
    && (forall t :: i <= t < k ==> now[t] in drop)
    && (forall t :: k <= t < |s| ==> now[t] == s[t])
  }

  /** What two reversals do in the stretch i..j: the bytes m..j change places with those of i..m. */
  ghost predicate Exchanged(now: Bytes, past: Bytes, i: nat, m: nat, j: nat) {
    i <= m <= j <= |now| == |past|
    && (forall t :: 0 <= t < |now| && !(i <= t < j) ==> now[t] == past[t])
    && (forall t :: i <= t < i + (j - m) ==> now[t] == past[t + (m - i)])
    && (forall t :: i + (j - m) <= t < j ==> now[t] == past[i + j - 1 - t])
  }

  lemma {:induction false} FilterStep(now: Bytes, past: Bytes, s: Bytes, i: nat, k: nat, m: nat, j: nat,
                              drop: set<Byte>)
    requires Filtering(past, s, i, k, drop) && k <= m <= j <= |s|
    requires forall t :: i <= t < m ==> past[t] in drop
    requires forall t :: m <= t < j ==> past[t] !in drop
    requires Exchanged(now, past, i, m, j)
    ensures Filtering(now, s, i + (j - m), j, drop)
  {
    assert forall t :: k <= t < m ==> s[t] == past[t];
    assert forall t :: m <= t < j ==> s[t] == past[t];
    FilteredDropRun(s, k, m, drop);
    FilteredKeepRun(s, m, j, drop);
    ExchangedFront(now, past, s, i, m, j);
    hide Filtered;
  }

  lemma {:induction false} ExchangedFront(now: Bytes, past: Bytes, s: Bytes, i: nat, m: nat, j: nat)
    requires Exchanged(now, past, i, m, j) && |s| == |past| && forall t :: m <= t < j ==> s[t] == past[t]
    ensures now[..i + (j - m)] == past[..i] + s[m..j]
  {
  }

  lemma {:induction false} TwoTurns(now: Bytes, mid: Bytes, past: Bytes, i: nat, m: nat, j: nat)
    requires i <= m < j
    requires Turned(mid, past, m, j - 1) && Turned(now, mid, i, j - 1)
    ensures Exchanged(now, past, i, m, j)
  {
    forall t | 0 <= t < |now|
      ensures !(i <= t < j) ==> now[t] == past[t]
      ensures i <= t < i + (j - m) ==> now[t] == past[t + (m - i)]
      ensures i + (j - m) <= t < j ==> now[t] == past[i + j - 1 - t]
    {
      var u := if i <= t <= j - 1 then i + (j - 1) - t else t;
      assert now[t] == mid[u];
    }
  }

  lemma {:induction false} NothingDropped(s: Bytes, drop: set<Byte>)
    requires |Filtered(s, drop)| == |s|
    ensures Filtered(s, drop) == s
  {
    if s != [] { NothingDropped(s[1..], drop); }
  }

  /** The scan has met only dropped bytes up to the end. */
  lemma {:induction false} FilterEnd(now: Bytes, s: Bytes, i: nat, k: nat, drop: set<Byte>)
    requires Filtering(now, s, i, k, drop)
    requires forall t :: i <= t < |s| ==> now[t] in drop
    ensures now[..i] == Filtered(s, drop)
  {
    assert forall t :: k <= t < |s| ==> s[t] == now[t];
    FilteredDropRun(s, k, |s|, drop);
    assert s[..|s|] == s;
  }

  /** The loop starts at the first dropped byte. */
  lemma {:induction false} FilterStart(str: Str, s: Bytes, i: nat, drop: set<Byte>)
    requires str.Valid() && s == str.Contents()
    requires i <= |s| && forall t :: 0 <= t < i ==> str.Contents()[t] !in drop
    ensures Filtering(str.Contents(), s, i, i, drop)
  {
    assert forall t :: 0 <= t < i ==> s[t] !in drop;
    FilteredKeepRun(s, 0, i, drop);
    assert s[..0] == [] && s[0..i] == s[..i];
  }

  function Elements(c: Bytes): set<Byte> {
    set b | b in c
  }

  /** What follows a string that had `n` bytes before a filter: a terminator, and then only dropped bytes. */
  ghost predicate Ended(str: Str, n: nat, drop: set<Byte>)
    reads str, str.buffer
  {
    str.len <= n && str.start + n <= str.buffer.Length
    && (str.len < n ==> str.buffer[str.start + str.len] == 0)
    && forall t :: str.start + str.len < t < str.start + n ==> str.buffer[t] in drop
  }

  /** What a filter leaves: the kept bytes in order, a terminator if anything was removed, nothing else touched. */
  twostate predicate Kept(str: Str, drop: set<Byte>, removed: nat)
    requires old(str.Valid())
    reads str, str.buffer
  {
    str.Valid()
    && str.Contents() == Filtered(old(str.Contents()), drop)
    && removed == old(str.len) - str.len
    && Outside(str, old(str.buffer[..]), old(str.len))
    && Ended(str, old(str.len), drop)
  }

  /** The map that lts_str_filter_multi builds from its argument. */
  method MapOf(c: Bytes) returns (cm: array<bv8>)
    ensures fresh(cm) && cm.Length == 32 && Charmap.SetOf(cm[..]) == Elements(c)
  {
    cm := new bv8[32];
    Charmap.Clean(cm);
    for i := 0 to |c|
      invariant Charmap.SetOf(cm[..]) == Elements(c[..i])
    {
      Charmap.Set(cm, c[i]);
      assert c[..i + 1] == c[..i] + [c[i]];
    }
    assert c[..|c|] == c;
  }

  /** The first loop: how many bytes are in the map. */
  method CountIn(str: Str, cm: array<bv8>) returns (count: nat)
    requires str.Valid() && cm.Length == 32
    ensures count == str.len - |Filtered(str.Contents(), Charmap.SetOf(cm[..]))|
  {
    ghost var s, drop := str.Contents(), Charmap.SetOf(cm[..]);
    assert Filtered(s[..0], drop) == [];
    hide Charmap.SetOf, Filtered, Str.Contents;
    count := 0;
    for i := 0 to str.len
      invariant count == i - |Filtered(s[..i], drop)|
    {
      var hit := Charmap.IsSet(cm, str.buffer[str.start + i]);
      if hit { count := count + 1; }
      str.ByteAt(i);
      FilteredNext(s, i, drop);
    }
    assert s[..str.len] == s;
  }

  /** The scans: the first index from `i` on whose byte is in the map, or not in it. */
  method Scan(str: Str, cm: array<bv8>, i: nat, inside: bool) returns (m: nat)
    requires str.Valid() && cm.Length == 32 && i <= str.len
    ensures i <= m <= str.len
    ensures forall t :: i <= t < m ==> (str.Contents()[t] in Charmap.SetOf(cm[..])) == !inside
    ensures m < str.len ==> (str.Contents()[m] in Charmap.SetOf(cm[..])) == inside
  {
    hide Charmap.SetOf;
    m := i;
    while m < str.len
      invariant i <= m <= str.len
      invariant forall t :: i <= t < m ==> (str.Contents()[t] in Charmap.SetOf(cm[..])) == !inside
    {
      var hit := Charmap.IsSet(cm, str.buffer[str.start + m]);
      assert str.Contents()[m] == str.buffer[str.start + m];
      if hit == inside { return; }
      m := m + 1;
    }
  }

  /** One round: the kept run m..j, both inclusive, moves before the dropped run that starts at i. */
  method MoveRun(str: Str, i: nat, m: nat, j: nat, ghost s: Bytes, ghost k: nat, ghost drop: set<Byte>,
                 ghost was: Bytes)
    requires str.Valid() && i <= m <= j < str.len == |s| && k <= m && Outside(str, was, str.len)
    requires Filtering(str.Contents(), s, i, k, drop)
    requires forall t :: i <= t < m ==> str.Contents()[t] in drop
    requires forall t :: m <= t <= j ==> str.Contents()[t] !in drop
    modifies str.buffer
    ensures str.Valid() && Filtering(str.Contents(), s, i + (j - m + 1), j + 1, drop)
    ensures Outside(str, was, str.len)
  {
    hide Filtering, Filtered, Turned, Exchanged;
    ghost var now := str.Contents();
    ReverseRegion(str, m, j);
    ghost var mid := str.Contents();
    ReverseRegion(str, i, j);
    TwoTurns(str.Contents(), mid, now, i, m, j + 1);
    FilterStep(str.Contents(), now, s, i, k, m, j + 1, drop);
  }

  lemma {:induction false} Lost(str: Str, i: nat, drop: set<Byte>)
    requires str.Valid() && forall t :: i <= t < str.len ==> str.Contents()[t] in drop
    ensures forall t :: str.start + i <= t < str.start + str.len ==> str.buffer[t] in drop
  {
    forall t | str.start + i <= t < str.start + str.len
      ensures str.buffer[t] in drop
    {
      assert str.Contents()[t - str.start] in drop;
    }
  }

  /** The last round: only dropped bytes are left. */
  method CutOff(str: Str, count: nat, ghost s: Bytes, ghost i: nat, ghost k: nat, ghost drop: set<Byte>,
                ghost was: Bytes)
    requires str.Valid() && Filtering(str.Contents(), s, i, k, drop) && Outside(str, was, str.len)
    requires forall t :: i <= t < str.len ==> str.Contents()[t] in drop
    requires 0 < count == str.len - |Filtered(s, drop)|
    modifies str`len, str.buffer
    ensures str.Valid() && str.len == old(str.len) - count && str.Contents() == Filtered(s, drop)
    ensures Outside(str, was, old(str.len)) && Ended(str, old(str.len), drop)
  {
    FilterEnd(str.Contents(), s, i, k, drop);
    Lost(str, i, drop);
    hide Filtering, Filtered;
    str.buffer[str.start + (str.len - count)] := 0;
    str.len := str.len - count;
  }

  /** lts_str_filter_multi */
  method FilterMulti(str: Str, c: Bytes) returns (removed: nat)
    requires str.Valid()
    modifies str`len, str.buffer
    ensures Kept(str, Elements(c), removed)
  {
    hide Filtering, Filtered, Elements, Turned, Exchanged, Outside, Str.Contents, Charmap.SetOf;
    ghost var drop, s, was := Elements(c), str.Contents(), str.buffer[..];
    NothingOutside(str);
    var cm := MapOf(c);
    var count := CountIn(str, cm);
    if count == 0 {
      NothingDropped(s, drop);
      return 0;
    }
    var i: nat := Scan(str, cm, 0, true);
    FilterStart(str, s, i, drop);
    ghost var k: nat := i;
    while true
      invariant str.Valid() && str.len == |s| && Charmap.SetOf(cm[..]) == drop
      invariant Filtering(str.Contents(), s, i, k, drop) && Outside(str, was, |s|)
      invariant 0 <= i <= k <= |s|
      decreases |s| - k
    {
      var m := Scan(str, cm, i, false);
      if m == str.len {
        CutOff(str, count, s, i, k, drop, was);
        return count;
      }
      Reached(str.Contents(), s, i, k, m, drop);
      var j := Scan(str, cm, m, true);
      j := j - 1;
      MoveRun(str, i, m, j, s, k, drop, was);
      i := i + (j - m + 1);
      k := j + 1;
    }
  }

  /** A kept byte from i on lies in the part that has not been read. */
  lemma {:induction false} Reached(now: Bytes, s: Bytes, i: nat, k: nat, m: nat, drop: set<Byte>)
    requires Filtering(now, s, i, k, drop) && i <= m < |now| && now[m] !in drop
    ensures k <= m
  {
  }

  // ------------------------------------------------- the filter for one byte

  method CountByte(str: Str, c: Byte) returns (count: nat)
    requires str.Valid()
    ensures count == str.len - |Filtered(str.Contents(), {c})|
  {
    ghost var s := str.Contents();
    assert Filtered(s[..0], {c}) == [];
    hide Filtered, Str.Contents;
    count := 0;
    for i := 0 to str.len
      invariant count == i - |Filtered(s[..i], {c})|
    {
      if str.buffer[str.start + i] == c { count := count + 1; }
      str.ByteAt(i);
      FilteredNext(s, i, {c});
    }
    assert s[..str.len] == s;
  }

  method ScanByte(str: Str, c: Byte, i: nat, inside: bool) returns (m: nat)
    requires str.Valid() && i <= str.len
    ensures i <= m <= str.len
    ensures forall t :: i <= t < m ==> (str.Contents()[t] in {c}) == !inside
    ensures m < str.len ==> (str.Contents()[m] in {c}) == inside
  {
    m := i;
    while m < str.len
      invariant i <= m <= str.len
      invariant forall t :: i <= t < m ==> (str.Contents()[t] in {c}) == !inside
    {
      assert str.Contents()[m] == str.buffer[str.start + m];
      if (str.buffer[str.start + m] == c) == inside { return; }
      m := m + 1;
    }
  }

  /** lts_str_filter */
  method Filter(str: Str, c: Byte) returns (removed: nat)
    requires str.Valid()
    modifies str`len, str.buffer
    ensures Kept(str, {c}, removed)
  {
    hide Filtering, Filtered, Turned, Exchanged, Outside, Str.Contents;
    ghost var drop, s, was := {c}, str.Contents(), str.buffer[..];
    NothingOutside(str);
    var count := CountByte(str, c);
    if count == 0 {
      NothingDropped(s, drop);
      return 0;
    }
    var i: nat := ScanByte(str, c, 0, true);
    FilterStart(str, s, i, drop);
    ghost var k: nat := i;
    while true
      invariant str.Valid() && str.len == |s|
      invariant Filtering(str.Contents(), s, i, k, drop) && Outside(str, was, |s|)
      invariant 0 <= i <= k <= |s|
      decreases |s| - k
    {
      var m := ScanByte(str, c, i, false);
      if m == str.len {
        CutOff(str, count, s, i, k, drop, was);
        return count;
      }
      Reached(str.Contents(), s, i, k, m, drop);
      var j := ScanByte(str, c, m, true);
      j := j - 1;
      MoveRun(str, i, m, j, s, k, drop, was);
      i := i + (j - m + 1);
      k := j + 1;
    }
  }
}
