/** Base64 as in src/base64.c; section 4 of RFC 4648. */
module Base64 {
  type Octets = seq<bv8>

  const PAD: bv8 := 61
  const NUL: bv8 := 0

  /** basis_64 */
  function Basis64(v: bv8): bv8
    requires v < 64
  {
    if v < 26 then 65 + v else if v < 52 then 71 + v else if v < 62 then v - 4 else if v == 62 then 43 else 47
  }

  /** pr2six: 64 for what is not in the alphabet. */
  function Pr2six(c: bv8): bv8 {
    if 65 <= c <= 90 then c - 65
    else if 97 <= c <= 122 then c - 71
    else if 48 <= c <= 57 then c + 4
    else if c == 43 then 62
    else if c == 47 then 63
    else 64
  }

  lemma {:induction false} TablesInvert(v: bv8)
    requires v < 64
    ensures Pr2six(Basis64(v)) == v
  {
  }

  /** The alphabet of section 4, and the padding. */
  lemma {:induction false} Alphabet(v: bv8)
    requires v < 64
    ensures Basis64(v) as int ==
      if v < 26 then 'A' as int + v as int
      else if v < 52 then 'a' as int + (v as int - 26)
      else if v < 62 then '0' as int + (v as int - 52)
      else if v == 62 then '+' as int
      else '/' as int
    ensures PAD as int == '=' as int && NUL as int == 0
  {
  }

  lemma {:induction false} AlphabetInverts(c: bv8)
    ensures Pr2six(c) <= 63 ==> Basis64(Pr2six(c)) == c
    ensures Pr2six(PAD) == 64 && Pr2six(NUL) == 64
  {
  }

  // The four six-bit values of a group of three bytes, and the bytes of four values.

  function Six0(a: bv8): (v: bv8) ensures v < 64 { (a >> 2) & 0x3F }
  function Six1(a: bv8, b: bv8): (v: bv8) ensures v < 64 { ((a & 0x3) << 4) | ((b & 0xF0) >> 4) }
  function Six2(b: bv8, c: bv8): (v: bv8) ensures v < 64 { ((b & 0xF) << 2) | ((c & 0xC0) >> 6) }
  function Six3(c: bv8): (v: bv8) ensures v < 64 { c & 0x3F }

  function Byte0(x: bv8, y: bv8): bv8 { (x << 2) | (y >> 4) }
  function Byte1(y: bv8, z: bv8): bv8 { (y << 4) | (z >> 2) }
  function Byte2(z: bv8, w: bv8): bv8 { (z << 6) | w }

  lemma {:induction false} GroupInverts(a: bv8, b: bv8, c: bv8)
    ensures Byte0(Six0(a), Six1(a, b)) == a
    ensures Byte1(Six1(a, b), Six2(b, c)) == b
    ensures Byte2(Six2(b, c), Six3(c)) == c
  {
  }

  /** Section 4: the group is one string of 24 bits, read from the left in fours of six. */
  lemma {:induction false} GroupBits(a: bv8, b: bv8, c: bv8)
    ensures var bits := ((a as bv24) << 16) | ((b as bv24) << 8) | (c as bv24);
      (Six0(a) as bv24) == bits >> 18 && (Six1(a, b) as bv24) == (bits >> 12) & 0x3F
      && (Six2(b, c) as bv24) == (bits >> 6) & 0x3F && (Six3(c) as bv24) == bits & 0x3F
  {
  }

  // -------------------------------------------------------------------- encoding

  /** What is printed, without the terminator. */
  function Encoded(s: Octets): (r: Octets)
    ensures |r| == (|s| + 2) / 3 * 4
  {
    if s == [] then []
    else if |s| == 1 then [Basis64(Six0(s[0])), Basis64(Six1(s[0], 0)), PAD, PAD]
    else if |s| == 2 then [Basis64(Six0(s[0])), Basis64(Six1(s[0], s[1])), Basis64(Six2(s[1], 0)), PAD]
    else
      [Basis64(Six0(s[0])), Basis64(Six1(s[0], s[1])), Basis64(Six2(s[1], s[2])), Basis64(Six3(s[2]))] + Encoded(s[3..])
  }

  /** base64_encode_len */
  function EncodeLen(len: int): (n: int)
    ensures len <= 0 ==> n == 0
  {
    if len > 0 then (len + 2) / 3 * 4 + 1 else 0
  }

  /** The announced length is what is written, exactly for non-empty input: for empty input one byte is written. */
  lemma {:induction false} EncodeLenIsRight(s: Octets)
    ensures EncodeLen(|s|) == |Encoded(s)| + 1 <==> s != []
  {
  }

  method Put(data: array<bv8>, p: nat, c: bv8) returns (next: nat)
    requires p < data.Length
    modifies data
    ensures next == p + 1 && data[..p + 1] == old(data[..p]) + [c]
    ensures forall k :: p < k < data.Length ==> data[k] == old(data[k])
  {
    data[p] := c;
    next := p + 1;
  }

  function Four(a: bv8, b: bv8, c: bv8): (r: Octets)
    ensures |r| == 4
  {
    [Basis64(Six0(a)), Basis64(Six1(a, b)), Basis64(Six2(b, c)), Basis64(Six3(c))]
  }

  /** `w` has been written for the first `i` bytes. */
  ghost predicate Printed(w: Octets, s: Octets, i: int) {
    0 <= i <= |s| && w + Encoded(s[i..]) == Encoded(s)
  }

  lemma {:induction false} PrintStart(s: Octets)
    ensures Printed([], s, 0)
  {
    assert s[0..] == s && [] + Encoded(s) == Encoded(s);
  }

  lemma {:induction false} PrintStep(w: Octets, s: Octets, i: int)
    requires Printed(w, s, i) && i < |s| - 2
    ensures |w| + 4 <= |Encoded(s)| && Printed(w + Four(s[i], s[i + 1], s[i + 2]), s, i + 3)
  {
    hide Basis64, Six0, Six1, Six2, Six3;
    var group := Four(s[i], s[i + 1], s[i + 2]);
    assert s[i..][3..] == s[i + 3..];
    assert w + group + Encoded(s[i + 3..]) == w + (group + Encoded(s[i + 3..]));
  }

  lemma {:induction false} PrintEnd(w: Octets, s: Octets, i: int)
    requires Printed(w, s, i) && |s| - 2 <= i
    ensures w + Encoded(s[i..]) == Encoded(s) && (i == |s| ==> w == Encoded(s))
    ensures i == |s| - 1 ==> s[i..] == [s[i]]
    ensures i == |s| - 2 ==> s[i..] == [s[i], s[i + 1]]
  {
    hide Encoded;
    if i == |s| {
      NothingEncoded();
      WithNothing(w);
      assert s[i..] == [];
    }
  }

  lemma {:induction false} NothingEncoded()
    ensures Encoded([]) == []
  {
  }

  lemma {:induction false} WithNothing(w: Octets)
    ensures w + [] == w
  {
  }

  lemma {:induction false} EncodedEnds(a: bv8, b: bv8)
    ensures Encoded([a]) == [Basis64(Six0(a)), Basis64(Six1(a, 0)), PAD, PAD]
    ensures Encoded([a, b]) == [Basis64(Six0(a)), Basis64(Six1(a, b)), Basis64(Six2(b, 0)), PAD]
  {
  }

  /** "f", "fo" and "foo", as in section 10 of RFC 4648: Zg==, Zm8= and Zm9v. */
  lemma {:induction false} TestVectors()
    ensures Encoded([102]) == [90, 103, 61, 61]
    ensures Encoded([102, 111]) == [90, 109, 56, 61]
    ensures Encoded([102, 111, 111]) == [90, 109, 57, 118]
  {
    var s: Octets := [102, 111, 111];
    assert s[3..] == [];
  }

  /** base64_encode: the length includes the terminator. */
  method Encode(encoded: array<bv8>, s: Octets) returns (n: nat)
    requires |Encoded(s)| < encoded.Length
    modifies encoded
    ensures n == |Encoded(s)| + 1 && encoded[..n] == Encoded(s) + [0]
    ensures forall k :: n <= k < encoded.Length ==> encoded[k] == old(encoded[k])
  {
    hide Basis64, Six0, Six1, Six2, Six3, Printed, Encoded;
    var p, i := 0, 0;
    PrintStart(s);
    assert encoded[..0] == [];
    while i < |s| - 2
      invariant 0 <= i <= |s| && 0 <= p <= encoded.Length && Printed(encoded[..p], s, i)
      invariant forall k :: p <= k < encoded.Length ==> encoded[k] == old(encoded[k])
    {
      PrintStep(encoded[..p], s, i);
      p := PutFour(encoded, p, Four(s[i], s[i + 1], s[i + 2]));
      i := i + 3;
    }
    PrintEnd(encoded[..p], s, i);
    if i < |s| {
      EncodedEnds(s[i], s[|s| - 1]);
      if i == |s| - 1 {
        p := PutFour(encoded, p, [Basis64(Six0(s[i])), Basis64(Six1(s[i], 0)), PAD, PAD]);
      } else {
        p := PutFour(encoded, p, [Basis64(Six0(s[i])), Basis64(Six1(s[i], s[i + 1])), Basis64(Six2(s[i + 1], 0)), PAD]);
      }
    }
    p := Put(encoded, p, NUL);
    return p;
  }

  /** Four times `*p++ = ...` */
  method PutFour(data: array<bv8>, p0: nat, group: Octets) returns (p: nat)
    requires p0 + 4 <= data.Length && |group| == 4
    modifies data
    ensures p == p0 + 4 && data[..p] == old(data[..p0]) + group
    ensures forall k :: p <= k < data.Length ==> data[k] == old(data[k])
  {
    p := p0;
    data[p] := group[0];
    p := p + 1;
    data[p] := group[1];
    p := p + 1;
    data[p] := group[2];
    p := p + 1;
    data[p] := group[3];
    p := p + 1;
  }

  // -------------------------------------------------------------------- decoding

  /** The leading characters that are in the alphabet. */
  function Leading(s: Octets): (r: Octets)
    ensures |r| <= |s| && r == s[..|r|]
    ensures forall k :: 0 <= k < |r| ==> Pr2six(r[k]) <= 63
    ensures |r| < |s| ==> Pr2six(s[|r|]) > 63
  {
    if s == [] || Pr2six(s[0]) > 63 then [] else [s[0]] + Leading(s[1..])
  }

  function Decoded(p: Octets): (r: Octets)
    ensures |r| == (|p| + 3) / 4 * 3 - (4 - |p| % 4) % 4
  {
    if |p| > 4 then
      assert |p[4..]| % 4 == |p| % 4 && (|p[4..]| + 3) / 4 == (|p| + 3) / 4 - 1;
      [Byte0(Pr2six(p[0]), Pr2six(p[1])), Byte1(Pr2six(p[1]), Pr2six(p[2])), Byte2(Pr2six(p[2]), Pr2six(p[3]))] +
      Decoded(p[4..])
    else
      (if |p| > 1 then [Byte0(Pr2six(p[0]), Pr2six(p[1]))] else []) +
      (if |p| > 2 then [Byte1(Pr2six(p[1]), Pr2six(p[2]))] else []) +
      (if |p| > 3 then [Byte2(Pr2six(p[2]), Pr2six(p[3]))] else [])
  }

  /**
   The scan that base64_decode and base64_decode_len start with: `s` must hold a
   character that is not in the alphabet.
   */
  method Scan(s: Octets) returns (nprbytes: int)
    requires exists k :: 0 <= k < |s| && Pr2six(s[k]) > 63
    ensures nprbytes == |Leading(s)| < |s|
  {
    hide Pr2six;
    var bufin := 0;
    assert s[0..] == s;
    while Pr2six(s[bufin]) <= 63
      invariant 0 <= bufin < |s| && |Leading(s)| == bufin + |Leading(s[bufin..])|
      invariant exists k :: bufin <= k < |s| && Pr2six(s[k]) > 63
      decreases |s| - bufin
    {
      assert s[bufin..][1..] == s[bufin + 1..];
      bufin := bufin + 1;
    }
    nprbytes := bufin;
  }

  /** base64_decode_len: the bytes, the terminator, and one more for each character missing in the last group. */
  method DecodeLen(s: Octets) returns (n: int)
    requires exists k :: 0 <= k < |s| && Pr2six(s[k]) > 63
    ensures n == |Decoded(Leading(s))| + 1 + (4 - |Leading(s)| % 4) % 4
  {
    var nprbytes := Scan(s);
    n := (nprbytes + 3) / 4 * 3 + 1;
  }

  function Three(x: bv8, y: bv8, z: bv8, w: bv8): (r: Octets)
    ensures |r| == 3
  {
    [Byte0(Pr2six(x), Pr2six(y)), Byte1(Pr2six(y), Pr2six(z)), Byte2(Pr2six(z), Pr2six(w))]
  }

  /** `w` has been written for the first `i` characters. */
  ghost predicate Done(w: Octets, p: Octets, i: int) {
    0 <= i <= |p| && w + Decoded(p[i..]) == Decoded(p)
  }

  lemma {:induction false} DoneStart(p: Octets)
    ensures Done([], p, 0)
  {
    assert p[0..] == p && [] + Decoded(p) == Decoded(p);
  }

  lemma {:induction false} DoneStep(w: Octets, p: Octets, i: int)
    requires Done(w, p, i) && i + 4 < |p|
    ensures |w| + 3 <= |Decoded(p)| && Done(w + Three(p[i], p[i + 1], p[i + 2], p[i + 3]), p, i + 4)
  {
    hide Pr2six, Byte0, Byte1, Byte2;
    var group := Three(p[i], p[i + 1], p[i + 2], p[i + 3]);
    assert p[i..][4..] == p[i + 4..];
    assert Decoded(p[i..]) == group + Decoded(p[i + 4..]);
    assert w + group + Decoded(p[i + 4..]) == w + (group + Decoded(p[i + 4..]));
  }

  /** The last one to four characters. */
  method PutRest(data: array<bv8>, p0: nat, q: Octets) returns (p: nat)
    requires |q| <= 4 && p0 + |Decoded(q)| < data.Length
    modifies data
    ensures p == p0 + |Decoded(q)| + 1 && data[..p] == old(data[..p0]) + Decoded(q) + [0]
  {
    hide Pr2six, Byte0, Byte1, Byte2;
    p := p0;
    ghost var before := data[..p0];
    if |q| > 1 {
      p := Put(data, p, Byte0(Pr2six(q[0]), Pr2six(q[1])));
    }
    if |q| > 2 {
      p := Put(data, p, Byte1(Pr2six(q[1]), Pr2six(q[2])));
    }
    if |q| > 3 {
      p := Put(data, p, Byte2(Pr2six(q[2]), Pr2six(q[3])));
    }
    assert data[..p] == before + Decoded(q);
    p := Put(data, p, NUL);
  }

  /** Three times `*(bufout++) = ...` */
  method PutThree(data: array<bv8>, p0: nat, group: Octets) returns (p: nat)
    requires p0 + 3 <= data.Length && |group| == 3
    modifies data
    ensures p == p0 + 3 && data[..p] == old(data[..p0]) + group
  {
    p := p0;
    data[p] := group[0];
    p := p + 1;
    data[p] := group[1];
    p := p + 1;
    data[p] := group[2];
    p := p + 1;
  }

  /** base64_decode */
  method Decode(bufplain: array<bv8>, s: Octets) returns (n: int)
    requires exists k :: 0 <= k < |s| && Pr2six(s[k]) > 63
    requires |Decoded(Leading(s))| < bufplain.Length
    modifies bufplain
    ensures n == |Decoded(Leading(s))|
    ensures bufplain[..n + 1] == Decoded(Leading(s)) + [0]
  {
    hide Pr2six, Three, Decoded, Leading, Done, Remains;
    ghost var p := Leading(s);
    var nprbytes := Scan(s);
    n := (nprbytes + 3) / 4 * 3;
    var bufin, bufout := 0, 0;
    DoneStart(p);
    assert bufplain[..0] == [];
    AllRemains(|p|);
    while nprbytes > 4
      invariant 0 <= bufin && 0 <= nprbytes == |p| - bufin && Remains(nprbytes, |p|)
      invariant 0 <= bufout <= bufplain.Length && Done(bufplain[..bufout], p, bufin)
    {
      DoneStep(bufplain[..bufout], p, bufin);
      SameFour(s, |p|, bufin);
      bufout := PutThree(bufplain, bufout, Three(s[bufin], s[bufin + 1], s[bufin + 2], s[bufin + 3]));
      FourLess(nprbytes, |p|);
      bufin := bufin + 4;
      nprbytes := nprbytes - 4;
    }
    LastCount(nprbytes, |p|);
    DoneEnd(bufplain[..bufout], p, s, bufin);
    bufout := PutRest(bufplain, bufout, s[bufin..bufin + nprbytes]);
    n := n - (4 - nprbytes) % 4;
  }

  /** `left` of `len` characters are left after whole groups of four, one at least. */
  ghost predicate Remains(left: int, len: int) {
    0 <= left <= len && (len - left) % 4 == 0 && (left > 0 || len == 0)
  }

  lemma {:induction false} AllRemains(len: nat)
    ensures Remains(len, len)
  {
  }

  lemma {:induction false} FourLess(left: int, len: int)
    requires Remains(left, len) && left > 4
    ensures Remains(left - 4, len)
  {
  }

  lemma {:induction false} LastCount(left: int, len: int)
    requires Remains(left, len) && left <= 4
    ensures (4 - left) % 4 == (4 - len % 4) % 4
  {
  }

  lemma {:induction false} SameFour(s: Octets, n: nat, i: nat)
    requires i + 4 < n <= |s|
    ensures var p := s[..n]; p[i] == s[i] && p[i + 1] == s[i + 1] && p[i + 2] == s[i + 2] && p[i + 3] == s[i + 3]
  {
  }

  lemma {:induction false} DoneEnd(w: Octets, p: Octets, s: Octets, i: int)
    requires Done(w, p, i) && |p| <= |s| && p == s[..|p|]
    ensures w + Decoded(s[i..|p|]) == Decoded(p)
  {
    assert s[i..|p|] == p[i..];
  }

  // ------------------------------------------------------------------ round trip

  lemma {:induction false} LeadingConcat(a: Octets, b: Octets)
    requires forall k :: 0 <= k < |a| ==> Pr2six(a[k]) <= 63
    ensures Leading(a + b) == a + Leading(b)
  {
    if a == [] {
      assert a + b == b;
    } else {
      assert (a + b)[1..] == a[1..] + b;
      LeadingConcat(a[1..], b);
    }
  }

  lemma {:induction false} DecodedGroup(x: bv8, y: bv8, z: bv8, w: bv8, p: Octets)
    ensures Decoded([x, y, z, w] + p) ==
      [Byte0(Pr2six(x), Pr2six(y)), Byte1(Pr2six(y), Pr2six(z)), Byte2(Pr2six(z), Pr2six(w))] + Decoded(p)
  {
    hide Pr2six, Byte0, Byte1, Byte2;
    if p == [] {
      assert [x, y, z, w] + p == [x, y, z, w];
    } else {
      assert ([x, y, z, w] + p)[4..] == p;
    }
  }

  /** The four characters of a group are in the alphabet and give its bytes back. */
  lemma {:induction false} GroupTrip(a: bv8, b: bv8, c: bv8)
    ensures var x, y, z, w := Basis64(Six0(a)), Basis64(Six1(a, b)), Basis64(Six2(b, c)), Basis64(Six3(c));
      Pr2six(x) <= 63 && Pr2six(y) <= 63 && Pr2six(z) <= 63 && Pr2six(w) <= 63 &&
      Byte0(Pr2six(x), Pr2six(y)) == a && Byte1(Pr2six(y), Pr2six(z)) == b && Byte2(Pr2six(z), Pr2six(w)) == c
  {
    TablesInvert(Six0(a));
    TablesInvert(Six1(a, b));
    TablesInvert(Six2(b, c));
    TablesInvert(Six3(c));
    GroupInverts(a, b, c);
    hide Pr2six, Basis64, Byte0, Byte1, Byte2;
  }

  /** Decoding an encoding gives the bytes back. */
  lemma {:induction false} RoundTrip(s: Octets)
    ensures Decoded(Leading(Encoded(s) + [0])) == s
    decreases |s|
  {
    hide Pr2six, Basis64, Byte0, Byte1, Byte2, Six0, Six1, Six2, Six3, Decoded, Leading;
    if s == [] {
      TripNothing();
    } else if |s| == 1 {
      TripOne(s[0]);
      assert s == [s[0]];
    } else if |s| == 2 {
      TripTwo(s[0], s[1]);
      assert s == [s[0], s[1]];
    } else {
      RoundTrip(s[3..]);
      TripGroup(s[0], s[1], s[2], s[3..]);
      assert [s[0], s[1], s[2]] + s[3..] == s;
    }
  }

  lemma {:induction false} TripGroup(a: bv8, b: bv8, c: bv8, rest: Octets)
    requires Decoded(Leading(Encoded(rest) + [NUL])) == rest
    ensures Decoded(Leading(Encoded([a, b, c] + rest) + [NUL])) == [a, b, c] + rest
  {
    hide Pr2six, Basis64, Byte0, Byte1, Byte2, Six0, Six1, Six2, Six3, Decoded, Leading;
    var x, y, z, w := Basis64(Six0(a)), Basis64(Six1(a, b)), Basis64(Six2(b, c)), Basis64(Six3(c));
    GroupTrip(a, b, c);
    assert ([a, b, c] + rest)[3..] == rest;
    assert [x, y, z, w] + Encoded(rest) + [NUL] == [x, y, z, w] + (Encoded(rest) + [NUL]);
    LeadingConcat([x, y, z, w], Encoded(rest) + [NUL]);
    DecodedGroup(x, y, z, w, Leading(Encoded(rest) + [NUL]));
  }

  lemma {:induction false} TripNothing()
    ensures Decoded(Leading(Encoded([]) + [NUL])) == []
  {
    assert Encoded([]) + [NUL] == [NUL];
    AlphabetInverts(NUL);
  }

  lemma {:induction false} TripOne(a: bv8)
    ensures Decoded(Leading(Encoded([a]) + [NUL])) == [a]
  {
    hide Pr2six, Basis64, Byte0, Byte1, Byte2, Six0, Six1, Six2, Six3;
    GroupTrip(a, 0, 0);
    AlphabetInverts(PAD);
    var x, y := Basis64(Six0(a)), Basis64(Six1(a, 0));
    assert Encoded([a]) + [NUL] == [x, y] + [PAD, PAD, NUL];
    LeadingConcat([x, y], [PAD, PAD, NUL]);
    assert [x, y] + [] == [x, y];
  }

  lemma {:induction false} TripTwo(a: bv8, b: bv8)
    ensures Decoded(Leading(Encoded([a, b]) + [NUL])) == [a, b]
  {
    hide Pr2six, Basis64, Byte0, Byte1, Byte2, Six0, Six1, Six2, Six3;
    GroupTrip(a, b, 0);
    AlphabetInverts(PAD);
    var x, y, z := Basis64(Six0(a)), Basis64(Six1(a, b)), Basis64(Six2(b, 0));
    assert Encoded([a, b]) + [NUL] == [x, y, z] + [PAD, NUL];
    LeadingConcat([x, y, z], [PAD, NUL]);
    assert [x, y, z] + [] == [x, y, z];
  }
}
