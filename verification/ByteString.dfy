/** Bytes, and the order of src/adv_string.c on byte strings. */
module ByteString {
  type Byte = b: nat | b < 256
  type Bytes = seq<Byte>

  /**
   The sign of the comparison of two strings: the first two bytes that differ
   decide; of a string and a proper prefix of it, the next byte of the longer one does.
   */
  function Compare(a: Bytes, b: Bytes): int {
    if a != [] && b != [] then
      if a[0] != b[0] then a[0] - b[0] else Compare(a[1..], b[1..])
    else if a != [] then a[0]
    else if b != [] then 0 - b[0] as int
    else 0
  }

  /** lts_str_compare */
  method StrCompare(a: Bytes, b: Bytes) returns (r: int)
    ensures r == Compare(a, b)
    // the first difference decides, or the next byte of the longer string
    ensures forall i :: 0 <= i < |a| && i < |b| && a[i] != b[i] && a[..i] == b[..i] ==> r == a[i] as int - b[i]
    ensures |a| < |b| && a == b[..|a|] ==> r == 0 - b[|a|] as int
    ensures |b| < |a| && b == a[..|b|] ==> r == a[|b|]
    ensures a == b ==> r == 0
  {
    CompareAt(a, b);
    r := 0;
    var i := 0;
    var n := if |a| <= |b| then |a| else |b|;
    while i < n
      invariant 0 <= i <= n && r == 0
      invariant Compare(a, b) == Compare(a[i..], b[i..])
    {
      r := a[i] as int - b[i];
      if r != 0 { break; }
      i := i + 1;
    }
    if r != 0 || |a| == |b| { return; }
    r := if |a| > |b| then a[i] as int else 0 - b[i] as int;
  }

  /** Bytes are ordered as numbers: the first two that differ decide, by their difference. */
  lemma {:induction false} FirstDifference(p: Bytes, x: Byte, s: Bytes, y: Byte, t: Bytes)
    requires x != y
    ensures Compare(p + [x] + s, p + [y] + t) == x as int - y
  {
    if p == [] {
      assert [] + [x] + s == [x] + s && [] + [y] + t == [y] + t;
    } else {
      assert (p + [x] + s)[1..] == p[1..] + [x] + s && (p + [y] + t)[1..] == p[1..] + [y] + t;
      FirstDifference(p[1..], x, s, y, t);
    }
  }

  /** Of a string and a longer one that starts with it, the next byte of the longer one decides. */
  lemma {:induction false} ProperPrefix(p: Bytes, x: Byte, s: Bytes)
    ensures Compare(p + [x] + s, p) == x && Compare(p, p + [x] + s) == 0 - x as int && Compare(p, p) == 0
  {
    if p == [] {
      assert [] + [x] + s == [x] + s;
    } else {
      assert (p + [x] + s)[1..] == p[1..] + [x] + s;
      ProperPrefix(p[1..], x, s);
    }
  }

  lemma {:induction false} CompareAt(a: Bytes, b: Bytes)
    ensures forall i :: 0 <= i < |a| && i < |b| && a[i] != b[i] && a[..i] == b[..i] ==>
      Compare(a, b) == a[i] as int - b[i]
    ensures |a| < |b| && a == b[..|a|] ==> Compare(a, b) == 0 - b[|a|] as int
    ensures |b| < |a| && b == a[..|b|] ==> Compare(a, b) == a[|b|]
    ensures a == b ==> Compare(a, b) == 0
  {
    hide Compare;
    forall i | 0 <= i < |a| && i < |b| && a[i] != b[i] && a[..i] == b[..i]
      ensures Compare(a, b) == a[i] as int - b[i]
    {
      SplitAt(a, i);
      SplitAt(b, i);
      FirstDifference(a[..i], a[i], a[i + 1..], b[i], b[i + 1..]);
    }
    if |a| < |b| && a == b[..|a|] {
      SplitAt(b, |a|);
      ProperPrefix(a, b[|a|], b[|a| + 1..]);
    }
    if |b| < |a| && b == a[..|b|] {
      SplitAt(a, |b|);
      ProperPrefix(b, a[|b|], a[|b| + 1..]);
    }
    if a == b { ProperPrefix(a, 0, []); }
  }

  lemma {:induction false} SplitAt(s: Bytes, i: nat)
    requires i < |s|
    ensures s == s[..i] + [s[i]] + s[i + 1..]
  {
  }

  lemma {:induction false} CompareAntisymmetric(a: Bytes, b: Bytes)
    ensures Compare(a, b) == -Compare(b, a)
  {
    if a != [] && b != [] { CompareAntisymmetric(a[1..], b[1..]); }
  }

  /** `b` is `a` followed by a NUL and anything. */
  predicate ExtendsWithNul(a: Bytes, b: Bytes) {
    |a| < |b| && b[..|a|] == a && b[|a|] == 0
  }

  /** Exactly which pairs of strings the order does not tell apart. */
  lemma {:induction false} CompareZero(a: Bytes, b: Bytes)
    ensures Compare(a, b) == 0 <==> a == b || ExtendsWithNul(a, b) || ExtendsWithNul(b, a)
  {
    if a != [] && b != [] && a[0] == b[0] {
      var c := a[0];
      assert a == [c] + a[1..] && b == [c] + b[1..];
      CompareZero(a[1..], b[1..]);
      NulUnderCons(c, a[1..], b[1..]);
      NulUnderCons(c, b[1..], a[1..]);
    }
  }

  lemma {:induction false} NulUnderCons(c: Byte, a: Bytes, b: Bytes)
    ensures ExtendsWithNul([c] + a, [c] + b) <==> ExtendsWithNul(a, b)
  {
    if |a| < |b| {
      assert ([c] + b)[..|a| + 1] == [c] + b[..|a|];
      assert ([c] + a)[1..] == a;
      assert ([c] + b[..|a|])[1..] == b[..|a|];
    }
  }

  predicate NulFree(s: Bytes) {
    0 !in s
  }

  /** With NUL bytes, comparing equal is not transitive. */
  lemma {:induction false} NulBreaksTheOrder()
    ensures Compare([0], []) == 0 && Compare([], [0, 1]) == 0 && Compare([0], [0, 1]) < 0
  {
    assert [0][1..] == [] && [0, 1][1..] == [1];
  }

  /** On NUL-free strings only equal strings compare equal. */
  lemma {:induction false} CompareEqual(a: Bytes, b: Bytes)
    requires NulFree(a) && NulFree(b)
    ensures Compare(a, b) == 0 <==> a == b
  {
    CompareZero(a, b);
  }

  lemma {:induction false} CompareTransitive(a: Bytes, b: Bytes, c: Bytes)
    requires NulFree(a) && NulFree(b) && NulFree(c)
    requires Compare(a, b) < 0 && Compare(b, c) < 0
    ensures Compare(a, c) < 0
  {
    if a != [] && b != [] && c != [] && a[0] == b[0] == c[0] {
      CompareTransitive(a[1..], b[1..], c[1..]);
    }
  }
}
