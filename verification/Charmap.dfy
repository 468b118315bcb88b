/**
 The 256-bit character map of include/adv_string.h: a set of bytes, one bit each.
 */
module Charmap {
  import opened ByteString

  /** 1U << k for k < 8 */
  function Mask(k: nat): bv8
    requires k < 8
  {
    if k == 0 then 1 else if k == 1 then 2 else if k == 2 then 4 else if k == 3 then 8
    else if k == 4 then 16 else if k == 5 then 32 else if k == 6 then 64 else 128
  }

  lemma {:induction false} MaskShifts(k: nat)
    requires k < 8
    ensures Mask(k) == (1 as bv8) << k
  {
  }

  /** The bit of `c`. */
  predicate Has(bytes: seq<bv8>, c: Byte)
    requires |bytes| == 32
  {
    bytes[c / 8] & Mask(c % 8) != 0
  }

  /** The set of bytes that a map stands for. */
  ghost function SetOf(bytes: seq<bv8>): set<Byte>
    requires |bytes| == 32
  {
    set c: Byte | c < 256 && Has(bytes, c)
  }

  lemma {:induction false} OrMask(w: bv8, m: bv8, k: bv8)
    requires m in {1, 2, 4, 8, 16, 32, 64, 128} && k in {1, 2, 4, 8, 16, 32, 64, 128}
    ensures (w | m) & k != 0 <==> m == k || w & k != 0
  {
  }

  /** Byte c is in the set exactly if bit c % 8 of byte c / 8 of the map is 1. */
  lemma {:induction false} SetBits(bytes: seq<bv8>, c: Byte)
    requires |bytes| == 32
    ensures c in SetOf(bytes) <==> (bytes[c / 8] >> (c % 8)) & 1 == 1
  {
    hide Mask, SetOf;
    InSet(bytes, c);
    MaskBit(bytes[c / 8], c % 8);
  }

  lemma {:induction false} InSet(bytes: seq<bv8>, c: Byte)
    requires |bytes| == 32
    ensures c in SetOf(bytes) <==> bytes[c / 8] & Mask(c % 8) != 0
  {
    hide Mask;
  }

  lemma {:induction false} MaskBit(w: bv8, k: nat)
    requires k < 8
    ensures w & Mask(k) != 0 <==> (w >> k) & 1 == 1
  {
  }

  method Clean(bytes: array<bv8>)
    requires bytes.Length == 32
    modifies bytes
    ensures SetOf(bytes[..]) == {}
  {
    for i := 0 to 32
      invariant forall k :: 0 <= k < i ==> bytes[k] == 0
    {
      bytes[i] := 0;
    }
    forall c: Byte | c < 256
      ensures !Has(bytes[..], c)
    {
      assert bytes[..][c / 8] == 0;
    }
  }

  method Set(bytes: array<bv8>, c: Byte)
    requires bytes.Length == 32
    modifies bytes
    ensures SetOf(bytes[..]) == old(SetOf(bytes[..])) + {c}
  {
    ghost var before := bytes[..];
    bytes[c / 8] := bytes[c / 8] | Mask(c % 8);
    forall d: Byte | d < 256
      ensures Has(bytes[..], d) <==> d == c || Has(before, d)
    {
      OrMask(before[c / 8], Mask(c % 8), Mask(d % 8));
      SameBit(c, d);
    }
  }

  lemma {:induction false} SameBit(c: Byte, d: Byte)
    ensures c == d <==> c / 8 == d / 8 && Mask(c % 8) == Mask(d % 8)
  {
  }

  method IsSet(bytes: array<bv8>, c: Byte) returns (r: bool)
    requires bytes.Length == 32
    ensures r <==> c in SetOf(bytes[..])
  {
    r := bytes[c / 8] & Mask(c % 8) != 0;
  }

  // ------------------------------------------------------------------ counting

  // The lines of count_bit_1: sums of neighbouring pairs, fours, bytes, words.

  function SumPairs(x: bv32): bv32 { (x & 0x55555555) + ((x >> 1) & 0x55555555) }
  function SumFours(x: bv32): bv32 { (x & 0x33333333) + ((x >> 2) & 0x33333333) }
  function SumEights(x: bv32): bv32 { (x & 0x0F0F0F0F) + ((x >> 4) & 0x0F0F0F0F) }
  function SumBytes(x: bv32): bv32 { (x & 0x00FF00FF) + ((x >> 8) & 0x00FF00FF) }
  function SumHalves(x: bv32): bv32 { (x & 0x0000FFFF) + ((x >> 16) & 0x0000FFFF) }

  /** count_bit_1 */
  function CountBits(x: bv32): bv32 {
    SumHalves(SumBytes(SumEights(SumFours(SumPairs(x)))))
  }

  /** The number of bits of `w` set. */
  function Ones(w: bv8): nat {
    (if w & 1 != 0 then 1 else 0) + (if w & 2 != 0 then 1 else 0) +
    (if w & 4 != 0 then 1 else 0) + (if w & 8 != 0 then 1 else 0) +
    (if w & 16 != 0 then 1 else 0) + (if w & 32 != 0 then 1 else 0) +
    (if w & 64 != 0 then 1 else 0) + (if w & 128 != 0 then 1 else 0)
  }

  /** One of the words of the union, from its four bytes. */
  function Word(a: bv8, b: bv8, c: bv8, d: bv8): bv32 {
    (a as bv32) | ((b as bv32) << 8) | ((c as bv32) << 16) | ((d as bv32) << 24)
  }

  // The first three stages of CountBits work on the four bytes separately.

  function Pairs(w: bv8): bv8 { (w & 0x55) + ((w >> 1) & 0x55) }
  function Fours(w: bv8): bv8 { (w & 0x33) + ((w >> 2) & 0x33) }
  function Eights(w: bv8): bv8 { (w & 0x0F) + ((w >> 4) & 0x0F) }

  lemma {:induction false} PairsLanes(a: bv8, b: bv8, c: bv8, d: bv8)
    ensures SumPairs(Word(a, b, c, d)) == Word(Pairs(a), Pairs(b), Pairs(c), Pairs(d))
  {
  }

  lemma {:induction false} FoursLanes(a: bv8, b: bv8, c: bv8, d: bv8)
    ensures SumFours(Word(a, b, c, d)) == Word(Fours(a), Fours(b), Fours(c), Fours(d))
  {
  }

  lemma {:induction false} EightsLanes(a: bv8, b: bv8, c: bv8, d: bv8)
    ensures SumEights(Word(a, b, c, d)) == Word(Eights(a), Eights(b), Eights(c), Eights(d))
  {
  }

  lemma {:induction false} OnesOfByte(w: bv8)
    ensures Eights(Fours(Pairs(w))) as nat == Ones(w) && Eights(Fours(Pairs(w))) <= 8
  {
  }

  lemma {:induction false} AddLanes(a: bv8, b: bv8, c: bv8, d: bv8)
    requires a <= 8 && b <= 8 && c <= 8 && d <= 8
    ensures SumHalves(SumBytes(Word(a, b, c, d))) == (a as bv32) + (b as bv32) + (c as bv32) + (d as bv32)
  {
  }

  lemma {:induction false} SmallSum(a: bv8, b: bv8, c: bv8, d: bv8)
    requires a <= 8 && b <= 8 && c <= 8 && d <= 8
    ensures ((a as bv32) + (b as bv32) + (c as bv32) + (d as bv32)) as nat == a as nat + b as nat + c as nat + d as nat
  {
  }

  lemma {:induction false} CountOfWord(a: bv8, b: bv8, c: bv8, d: bv8)
    requires a <= 8 && b <= 8 && c <= 8 && d <= 8
    ensures SumHalves(SumBytes(Word(a, b, c, d))) as nat == a as nat + b as nat + c as nat + d as nat
  {
    AddLanes(a, b, c, d);
    SmallSum(a, b, c, d);
    hide SumHalves, SumBytes, Word;
  }

  /** The parallel bit count counts the bits. */
  lemma {:induction false} CountBitsIsOnes(a: bv8, b: bv8, c: bv8, d: bv8)
    ensures CountBits(Word(a, b, c, d)) as nat == Ones(a) + Ones(b) + Ones(c) + Ones(d)
  {
    hide Pairs, Fours, Eights, Ones, Word, SumPairs, SumFours, SumEights, SumBytes, SumHalves;
    PairsLanes(a, b, c, d);
    FoursLanes(Pairs(a), Pairs(b), Pairs(c), Pairs(d));
    EightsLanes(Fours(Pairs(a)), Fours(Pairs(b)), Fours(Pairs(c)), Fours(Pairs(d)));
    OnesOfByte(a);
    OnesOfByte(b);
    OnesOfByte(c);
    OnesOfByte(d);
    CountOfWord(Eights(Fours(Pairs(a))), Eights(Fours(Pairs(b))), Eights(Fours(Pairs(c))), Eights(Fours(Pairs(d))));
  }

  ghost function SetBelow(bytes: seq<bv8>, n: nat): set<Byte>
    requires |bytes| == 32 && n <= 256
  {
    set c: Byte | c < n && Has(bytes, c)
  }

  lemma {:induction false} NextBit(bytes: seq<bv8>, n: nat)
    requires |bytes| == 32 && n < 256
    ensures |SetBelow(bytes, n + 1)| == |SetBelow(bytes, n)| + if Has(bytes, n) then 1 else 0
  {
    var here: set<Byte> := if Has(bytes, n) then {n} else {};
    assert SetBelow(bytes, n + 1) == SetBelow(bytes, n) + here;
  }

  lemma {:induction false} BitOf(bytes: seq<bv8>, k: nat, j: nat)
    requires |bytes| == 32 && k < 32 && j < 8
    ensures Has(bytes, 8 * k + j) <==> bytes[k] & Mask(j) != 0
  {
    assert (8 * k + j) / 8 == k && (8 * k + j) % 8 == j;
  }

  lemma {:induction false} NextByte(bytes: seq<bv8>, k: nat)
    requires |bytes| == 32 && k < 32
    ensures |SetBelow(bytes, 8 * (k + 1))| == |SetBelow(bytes, 8 * k)| + Ones(bytes[k])
  {
    hide Has, SetBelow;
    NextBit(bytes, 8 * k); BitOf(bytes, k, 0);
    NextBit(bytes, 8 * k + 1); BitOf(bytes, k, 1);
    NextBit(bytes, 8 * k + 2); BitOf(bytes, k, 2);
    NextBit(bytes, 8 * k + 3); BitOf(bytes, k, 3);
    NextBit(bytes, 8 * k + 4); BitOf(bytes, k, 4);
    NextBit(bytes, 8 * k + 5); BitOf(bytes, k, 5);
    NextBit(bytes, 8 * k + 6); BitOf(bytes, k, 6);
    NextBit(bytes, 8 * k + 7); BitOf(bytes, k, 7);
  }

  /** charmap_count, over the union's view as eight words. */
  method Count(bytes: array<bv8>) returns (count: int)
    requires bytes.Length == 32
    ensures count == |SetOf(bytes[..])|
  {
    ghost var b := bytes[..];
    count := 0;
    assert SetBelow(b, 0) == {};
    for i := 0 to 8
      invariant count == |SetBelow(b, 32 * i)|
    {
      count := count + CountBits(Word(bytes[4 * i], bytes[4 * i + 1], bytes[4 * i + 2], bytes[4 * i + 3])) as int;
      CountBitsIsOnes(b[4 * i], b[4 * i + 1], b[4 * i + 2], b[4 * i + 3]);
      NextByte(b, 4 * i);
      NextByte(b, 4 * i + 1);
      NextByte(b, 4 * i + 2);
      NextByte(b, 4 * i + 3);
    }
    assert SetBelow(b, 256) == SetOf(b);
  }
}
