/** Sequences the other way round. */
module Sequences {
  function Reverse<X>(s: seq<X>): (r: seq<X>)
    ensures |r| == |s| && forall i :: 0 <= i < |s| ==> r[i] == s[|s| - 1 - i]
  {
    if s == [] then [] else Reverse(s[1..]) + [s[0]]
  }

  lemma {:induction false} ReverseOne<X>(x: X)
    ensures Reverse([x]) == [x]
  {
  }

  lemma {:induction false} ReverseConcat<X>(a: seq<X>, b: seq<X>)
    ensures Reverse(a + b) == Reverse(b) + Reverse(a) && Reverse(Reverse(a)) == a
  {
  }
}
