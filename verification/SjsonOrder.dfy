/**
 Objects as finite maps: the members of an object are determined by which value
 each key has, so what is printed does not depend on the order of insertion.
 */
module SjsonOrder {
  import opened ByteString
  import opened Sjson

  predicate HasKey(ms: Members, k: Bytes) {
    ms.Mem? && (ms.key == k || HasKey(ms.rest, k))
  }

  function Get(ms: Members, k: Bytes): (v: Value)
    requires HasKey(ms, k)
    ensures v < ms
  {
    if ms.key == k then ms.value else Get(ms.rest, k)
  }

  /** NUL-free keys, each greater than the one before; also in nested objects. */
  ghost predicate Sorted(ms: Members) {
    ms.Mem? ==>
      NulFree(ms.key) && Sorted(ms.rest) && (ms.value.Obj? ==> Sorted(ms.value.members)) &&
      (ms.rest.Mem? ==> Compare(ms.key, ms.rest.key) < 0)
  }

  ghost predicate SortedValue(v: Value) {
    v.Obj? ==> Sorted(v.members)
  }

  lemma {:induction false} Later(ms: Members, k: Bytes)
    requires Sorted(ms) && ms.Mem? && HasKey(ms.rest, k)
    ensures NulFree(k) && Compare(ms.key, k) < 0
  {
    var r := ms.rest;
    if r.key != k {
      Later(r, k);
      CompareTransitive(ms.key, r.key, k);
    }
  }

  lemma {:induction false} SortedLookup(ms: Members, k: Bytes)
    requires Sorted(ms) && HasKey(ms, k)
    ensures NulFree(k) && (ms.key != k ==> Compare(ms.key, k) < 0)
    ensures !HasKey(ms.rest, ms.key)
  {
    if HasKey(ms.rest, ms.key) {
      Later(ms, ms.key);
      CompareEqual(ms.key, ms.key);
    }
    if ms.key != k { Later(ms, k); }
  }

  ghost predicate SameLookups(a: Members, b: Members) {
    forall k :: (HasKey(a, k) <==> HasKey(b, k)) && (HasKey(a, k) && HasKey(b, k) ==> Get(a, k) == Get(b, k))
  }

  lemma {:induction false} LeastKeys(a: Members, b: Members)
    requires Sorted(a) && Sorted(b) && a.Mem? && b.Mem?
    requires HasKey(b, a.key) && HasKey(a, b.key)
    ensures a.key == b.key
  {
    SortedLookup(a, b.key);
    SortedLookup(b, a.key);
    CompareAntisymmetric(a.key, b.key);
  }

  /** The walk is determined by the map. */
  lemma {:induction false} SameMap(a: Members, b: Members)
    requires Sorted(a) && Sorted(b) && SameLookups(a, b)
    ensures a == b
  {
    if a.Mem? || b.Mem? {
      if a.Mem? { assert HasKey(a, a.key); }
      if b.Mem? { assert HasKey(b, b.key); }
      LeastKeys(a, b);
      SortedLookup(a, a.key);
      SortedLookup(b, b.key);
      assert Get(a, a.key) == Get(b, a.key);
      forall k
        ensures HasKey(a.rest, k) <==> HasKey(b.rest, k)
        ensures HasKey(a.rest, k) && HasKey(b.rest, k) ==> Get(a.rest, k) == Get(b.rest, k)
      {
        assert HasKey(a, k) <==> HasKey(b, k);
      }
      SameMap(a.rest, b.rest);
    }
  }

  /** Equal as nested maps from keys to strings, lists and maps. */
  ghost predicate SameContent(v: Value, w: Value) {
    match v
    case Str(s) => w == v
    case List(items) => w == v
    case Obj(a) => w.Obj? && SameObject(a, w.members)
  }

  ghost predicate SameObject(a: Members, b: Members) {
    (forall k :: HasKey(a, k) <==> HasKey(b, k)) &&
    (forall k :: HasKey(a, k) && HasKey(b, k) ==> SameContent(Get(a, k), Get(b, k)))
  }

  lemma {:induction false} GetSorted(ms: Members, k: Bytes)
    requires Sorted(ms) && HasKey(ms, k)
    ensures SortedValue(Get(ms, k))
  {
    if ms.key != k { GetSorted(ms.rest, k); }
  }

  lemma {:induction false} SameContentEqual(v: Value, w: Value)
    requires SortedValue(v) && SortedValue(w) && SameContent(v, w)
    ensures v == w
  {
    if v.Obj? { SameObjectEqual(v.members, w.members); }
  }

  lemma {:induction false} SameObjectEqual(a: Members, b: Members)
    requires Sorted(a) && Sorted(b) && SameObject(a, b)
    ensures a == b
  {
    forall k | HasKey(a, k) && HasKey(b, k)
      ensures Get(a, k) == Get(b, k)
    {
      GetSorted(a, k);
      GetSorted(b, k);
      SameContentEqual(Get(a, k), Get(b, k));
    }
    SameMap(a, b);
  }

  // ----------------------------------------------------------------- insertion

  lemma {:induction false} InsertLookup(ms: Members, k: Bytes, v: Value, x: Bytes)
    requires Sorted(ms) && NulFree(k)
    ensures HasKey(Insert(ms, k, v), x) <==> HasKey(ms, x) || x == k
    ensures HasKey(ms, x) ==> HasKey(Insert(ms, k, v), x) && Get(Insert(ms, k, v), x) == Get(ms, x)
    ensures !HasKey(ms, k) ==> HasKey(Insert(ms, k, v), k) && Get(Insert(ms, k, v), k) == v
  {
    if ms.Mem? {
      CompareEqual(k, ms.key);
      if HasKey(ms, k) { SortedLookup(ms, k); }
      if HasKey(ms, x) { SortedLookup(ms, x); }
      CompareAntisymmetric(k, ms.key);
      if Compare(k, ms.key) > 0 { InsertLookup(ms.rest, k, v, x); }
    }
  }

  lemma {:induction false} InsertSorted(ms: Members, k: Bytes, v: Value)
    requires Sorted(ms) && NulFree(k) && SortedValue(v)
    ensures Sorted(Insert(ms, k, v))
    ensures Insert(ms, k, v).Mem? && (Insert(ms, k, v).key == k || (ms.Mem? && Insert(ms, k, v).key == ms.key))
  {
    if ms.Mem? {
      CompareAntisymmetric(k, ms.key);
      if Compare(k, ms.key) > 0 { InsertSorted(ms.rest, k, v); }
    }
  }

  datatype Addition = Addition(key: Bytes, value: Value)

  /** Members added one after the other. */
  function Build(adds: seq<Addition>): Members {
    if adds == [] then End else Insert(Build(adds[..|adds| - 1]), adds[|adds| - 1].key, adds[|adds| - 1].value)
  }

  ghost predicate Addable(adds: seq<Addition>) {
    (forall i :: 0 <= i < |adds| ==> NulFree(adds[i].key) && SortedValue(adds[i].value)) &&
    (forall i, j :: 0 <= i < j < |adds| ==> adds[i].key != adds[j].key)
  }

  lemma {:induction false} BuildLookup(adds: seq<Addition>, x: Bytes)
    requires Addable(adds)
    ensures Sorted(Build(adds))
    ensures HasKey(Build(adds), x) <==> exists i :: 0 <= i < |adds| && adds[i].key == x
    ensures forall i :: 0 <= i < |adds| && adds[i].key == x ==>
      HasKey(Build(adds), x) && Get(Build(adds), x) == adds[i].value
  {
    if adds != [] {
      var n := |adds| - 1;
      var before, p := adds[..n], adds[n];
      BuildLookup(before, x);
      BuildLookup(before, p.key);
      InsertLookup(Build(before), p.key, p.value, x);
      InsertLookup(Build(before), p.key, p.value, p.key);
      InsertSorted(Build(before), p.key, p.value);
      forall i | 0 <= i < |adds| && adds[i].key == x
        ensures HasKey(Build(adds), x) && Get(Build(adds), x) == adds[i].value
      {
        if i < n { assert before[i] == adds[i]; }
      }
    }
  }

  /** Adding the same members in another order gives the same walk. */
  lemma {:induction false} OrderOfInsertion(p: seq<Addition>, q: seq<Addition>)
    requires Addable(p) && Addable(q) && forall x :: x in p <==> x in q
    ensures Build(p) == Build(q)
  {
    forall k
      ensures HasKey(Build(p), k) <==> HasKey(Build(q), k)
      ensures HasKey(Build(p), k) && HasKey(Build(q), k) ==> Get(Build(p), k) == Get(Build(q), k)
    {
      BuildLookup(p, k);
      BuildLookup(q, k);
      forall i | 0 <= i < |p| && p[i].key == k
        ensures exists j :: 0 <= j < |q| && q[j].key == k && q[j].value == p[i].value
      {
        assert p[i] in q;
      }
      forall j | 0 <= j < |q| && q[j].key == k
        ensures exists i :: 0 <= i < |p| && p[i].key == k
      {
        assert q[j] in p;
      }
    }
    BuildLookup(p, []);
    BuildLookup(q, []);
    SameMap(Build(p), Build(q));
  }
}
