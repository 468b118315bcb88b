/** The substring search of src/adv_string.c. */
module Kmp {
  import opened ByteString

  /** The first b bytes of p[..j] are also its last b bytes, and b < j. */
  predicate Border(p: Bytes, b: int, j: int) {
    0 <= b < j <= |p| && p[..b] == p[j - b..j]
  }

  /** The entry for j of the failure table: -1 for 0, else the length of the longest proper border of p[..j]. */
  ghost predicate IsFailure(p: Bytes, f: int, j: int) {
    if j == 0 then f == -1 else Border(p, f, j) && forall b :: Border(p, b, j) ==> b <= f
  }

  lemma {:induction false} BorderAt(p: Bytes, b: int, j: int)
    requires 0 <= b < j <= |p|
    ensures Border(p, b, j) <==> forall k :: 0 <= k < b ==> p[k] == p[j - b + k]
  {
    var x, y := p[..b], p[j - b..j];
    assert |x| == |y| == b;
    assert forall k :: 0 <= k < b ==> x[k] == p[k] && y[k] == p[j - b + k];
    if forall k :: 0 <= k < b ==> p[k] == p[j - b + k] {
      assert x == y;
    }
  }

  /** A border shorter than another one is a border of it. */
  lemma {:induction false} BorderOfBorder(p: Bytes, c: int, b: int, j: int)
    requires Border(p, b, j) && Border(p, c, j) && c < b
    ensures Border(p, c, b)
  {
    BorderAt(p, b, j);
    BorderAt(p, c, j);
    forall k | 0 <= k < c
      ensures p[k] == p[b - c + k]
    {
      assert p[b - c + k] == p[j - b + (b - c + k)];
    }
    BorderAt(p, c, b);
  }

  lemma {:induction false} BorderThrough(p: Bytes, c: int, b: int, j: int)
    requires Border(p, b, j) && Border(p, c, b)
    ensures Border(p, c, j)
  {
    BorderAt(p, b, j);
    BorderAt(p, c, b);
    forall k | 0 <= k < c
      ensures p[k] == p[j - c + k]
    {
      assert p[k] == p[b - c + k];
      assert p[b - c + k] == p[j - b + (b - c + k)];
    }
    BorderAt(p, c, j);
  }

  /** The borders of p[..j + 1] are the extendable borders of p[..j], and the empty one. */
  lemma {:induction false} BorderNext(p: Bytes, b: int, j: int)
    requires 0 <= b < j < |p|
    ensures Border(p, b + 1, j + 1) <==> Border(p, b, j) && p[b] == p[j]
  {
    BorderAt(p, b, j);
    BorderAt(p, b + 1, j + 1);
    if Border(p, b + 1, j + 1) {
      forall k | 0 <= k < b
        ensures p[k] == p[j - b + k]
      {
        assert p[k] == p[(j + 1) - (b + 1) + k];
      }
      assert p[b] == p[(j + 1) - (b + 1) + b];
    }
  }

  /** While building entry j + 1: i is a border of p[..j], and no longer one can be extended. */
  ghost predicate Candidate(p: Bytes, i: int, j: int) {
    j < |p| && Border(p, i, j) && forall b :: Border(p, b, j) && b > i ==> p[b] != p[j]
  }

  lemma {:induction false} CandidateFits(p: Bytes, i: int, j: int)
    requires Candidate(p, i, j) && p[i] == p[j]
    ensures IsFailure(p, i + 1, j + 1)
  {
    BorderNext(p, i, j);
    var n := j + 1;
    forall b | Border(p, b, n)
      ensures b <= i + 1
    {
      if b > 0 { BorderNext(p, b - 1, j); }
    }
  }

  lemma {:induction false} NextCandidate(p: Bytes, i: int, f: int, j: int)
    requires Candidate(p, i, j) && p[i] != p[j] && i > 0 && IsFailure(p, f, i)
    ensures Candidate(p, f, j)
  {
    BorderThrough(p, f, i, j);
    forall b | Border(p, b, j) && b > f
      ensures p[b] != p[j]
    {
      if b < i { BorderOfBorder(p, b, i, j); }
    }
  }

  lemma {:induction false} NoCandidate(p: Bytes, j: int)
    requires Candidate(p, 0, j) && p[0] != p[j]
    ensures IsFailure(p, 0, j + 1)
  {
    var n := j + 1;
    forall b | Border(p, b, n)
      ensures b <= 0
    {
      if b > 0 { BorderNext(p, b - 1, j); }
    }
  }

  lemma {:induction false} FreshCandidate(p: Bytes, i: int, j: int)
    requires 0 < j < |p| && IsFailure(p, i, j)
    ensures Candidate(p, i, j)
  {
  }

  /**
   __kmp_next.  It writes entry 1 for every pattern, so for one of fewer than two
   bytes it writes past a table with an entry for each byte; `top` is the last
   entry that it writes.
   */
  method KmpNext(p: Bytes, next: array<int>) returns (ghost top: nat)
    requires 2 <= next.Length && |p| <= next.Length
    modifies next
    ensures forall j :: 0 <= j < |p| ==> IsFailure(p, next[j], j)
    ensures next[0] == -1 && next[1] == 0
    ensures forall k :: top < k < next.Length ==> next[k] == old(next[k])
    ensures top == (if |p| < 2 then 1 else |p| - 1) && (top < |p| <==> |p| >= 2)
  {
    hide Candidate, Border;
    var i, j := 0, 1;
    next[i] := -1;
    next[j] := 0;
    top := 1;
    if |p| >= 2 {
      EmptyBorder(p);
      FreshCandidate(p, 0, 1);
    }
    while j < |p| - 1
      invariant 0 <= i < j && (j < |p| || (j == 1 && |p| < 2)) && (j < |p| ==> Candidate(p, i, j))
      invariant forall k :: 0 <= k <= j && k < |p| ==> IsFailure(p, next[k], k)
      invariant next[0] == -1 && next[1] == 0 && top == j < next.Length
      invariant forall k :: top < k < next.Length ==> next[k] == old(next[k])
      decreases |p| - j, i
    {
      if p[i] == p[j] {
        CandidateFits(p, i, j);
        next[j + 1] := i + 1;
        i := i + 1;
        j := j + 1;
        top := j;
        FreshCandidate(p, i, j);
      } else {
        ghost var i0 := i;
        i := next[i];
        if i == -1 {
          FailureRange(p, i, i0);
          NoCandidate(p, j);
          i := 0;
          j := j + 1;
          next[j] := 0;
          top := j;
          FreshCandidate(p, 0, j);
        } else {
          FailureRange(p, i, i0);
          NextCandidate(p, i0, i, j);
        }
      }
    }
  }

  lemma {:induction false} EmptyBorder(p: Bytes)
    requires |p| > 0
    ensures IsFailure(p, 0, 1)
  {
    assert p[..0] == p[1..1];
  }

  lemma {:induction false} FailureRange(p: Bytes, f: int, j: int)
    requires 0 <= j && IsFailure(p, f, j)
    ensures -1 <= f < j && (f == -1 <==> j == 0)
  {
  }

  // -------------------------------------------------------------------- search

  /** `p` occurs in `t` at `s`. */
  predicate MatchAt(t: Bytes, p: Bytes, s: int) {
    0 <= s && s + |p| <= |t| && t[s..s + |p|] == p
  }

  /** Before reading t[i] with j bytes matched: they match, and there is no earlier match. */
  ghost predicate Searching(t: Bytes, p: Bytes, i: int, j: int) {
    0 <= i <= |t| && -1 <= j <= |p| && j <= i && (j == -1 ==> i < |t|)
    && (j >= 0 ==> t[i - j..i] == p[..j])
    && forall s :: 0 <= s < i - j ==> !MatchAt(t, p, s)
  }

  lemma {:induction false} MatchBytes(t: Bytes, p: Bytes, s: int, k: int)
    requires MatchAt(t, p, s) && 0 <= k < |p|
    ensures t[s + k] == p[k]
  {
    assert t[s..s + |p|][k] == p[k];
  }

  lemma {:induction false} SearchHit(t: Bytes, p: Bytes, i: int, j: int)
    requires Searching(t, p, i, j) && i < |t| && j < |p| && (j == -1 || t[i] == p[j])
    ensures Searching(t, p, i + 1, j + 1)
  {
    if j >= 0 {
      assert t[i - j..i + 1] == t[i - j..i] + [t[i]];
      assert p[..j + 1] == p[..j] + [p[j]];
    } else {
      assert t[i + 1..i + 1] == p[..0];
    }
  }

  /** After a mismatch a match can only start where a border of the matched bytes does. */
  lemma {:induction false} MatchGivesBorder(t: Bytes, p: Bytes, i: int, j: int, s: int)
    requires 0 <= j < |p| && j <= i < |t| && t[i - j..i] == p[..j] && t[i] != p[j]
    requires i - j <= s < i && MatchAt(t, p, s)
    ensures Border(p, i - s, j)
  {
    var b := i - s;
    if b == j {
      MatchBytes(t, p, s, j);
    } else {
      forall k | 0 <= k < b
        ensures p[k] == p[j - b + k]
      {
        MatchBytes(t, p, s, k);
        assert t[i - j..i][j - b + k] == p[..j][j - b + k];
      }
      BorderAt(p, b, j);
    }
  }

  lemma {:induction false} SearchMiss(t: Bytes, p: Bytes, i: int, j: int, f: int)
    requires Searching(t, p, i, j) && i < |t| && 0 <= j < |p| && t[i] != p[j] && IsFailure(p, f, j)
    ensures Searching(t, p, i, f)
  {
    forall s | 0 <= s < i - f
      ensures !MatchAt(t, p, s)
    {
      if MatchAt(t, p, s) {
        if s == i {
          MatchBytes(t, p, s, 0);
        } else {
          MatchGivesBorder(t, p, i, j, s);
        }
      }
    }
    if f >= 0 {
      BorderAt(p, f, j);
      forall k | 0 <= k < f
        ensures t[i - f..i][k] == p[..f][k]
      {
        assert t[i - j..i][j - f + k] == p[..j][j - f + k];
      }
      assert t[i - f..i] == p[..f];
    }
  }

  lemma {:induction false} SearchStart(t: Bytes, p: Bytes)
    ensures Searching(t, p, 0, 0)
  {
    assert t[0..0] == p[..0];
  }

  lemma {:induction false} SearchFound(t: Bytes, p: Bytes, i: int)
    requires Searching(t, p, i, |p|)
    ensures MatchAt(t, p, i - |p|)
  {
    assert p[..|p|] == p;
  }

  /**
   lts_str_find: the least position, counted from `offset`, at which the pattern
   occurs there or later, or -1; `steps` counts the rounds of the search loop.
   The code asks for a table with an entry for each byte of the pattern, and `astray`
   says that it writes an entry beyond; the model's table has that entry.
   */
  method Find(text: Bytes, pattern: Bytes, offset: nat) returns (r: int, ghost steps: nat, ghost astray: bool)
    ensures astray <==> |pattern| < 2
    ensures r == -1 || (if pattern == [] then r == 0 else offset <= |text| && MatchAt(text[offset..], pattern, r))
    ensures forall s :: 0 <= s && offset <= |text| && (r == -1 || s < r) ==> !MatchAt(text[offset..], pattern, s)
    ensures steps <= if offset <= |text| then 2 * (|text| - offset) else 0
  {
    hide Searching, MatchAt, IsFailure;
    var next := new int[if |pattern| < 2 then 2 else |pattern|];
    var len := |text| - offset;
    ghost var t := if offset <= |text| then text[offset..] else [];
    ghost var top := KmpNext(pattern, next);
    astray := top >= |pattern|;
    var i, j := 0, 0;
    steps := 0;
    SearchStart(t, pattern);
    while i < len && j < |pattern|
      invariant Searching(t, pattern, i, j)
      invariant 0 <= i <= |t| && -1 <= j <= |pattern| && (j == -1 ==> i < |t|) && (pattern == [] ==> i == j == 0)
      invariant steps <= 2 * i - j
      invariant forall j :: 0 <= j < |pattern| ==> IsFailure(pattern, next[j], j)
      decreases 2 * (|t| - i) + j
    {
      steps := steps + 1;
      if j == -1 || text[offset + i] == pattern[j] {
        SearchHit(t, pattern, i, j);
        i := i + 1;
        j := j + 1;
      } else {
        SearchMiss(t, pattern, i, j, next[j]);
        FailureRange(pattern, next[j], j);
        j := next[j];
      }
    }
    if j >= |pattern| {
      r := i - |pattern|;
      SearchFound(t, pattern, i);
      SearchEnd(t, pattern, i, j);
    } else {
      r := -1;
      SearchEnd(t, pattern, i, j);
    }
  }

  lemma {:induction false} SearchEnd(t: Bytes, p: Bytes, i: int, j: int)
    requires Searching(t, p, i, j) && (i == |t| || j == |p|)
    ensures forall s :: 0 <= s && (s < i - |p| || j < |p|) ==> !MatchAt(t, p, s)
  {
  }
}
