/** The message frames of src/protocol_sjsonb.c. */
module Framing {
  import opened ByteString
  import opened Optional
  import opened Buffer
  import opened Sjson
  import opened SjsonMachine
  import opened SjsonTree
  import opened SjsonForest
  import AdvString
  import Kmp
  import SjsonDecode
  import SjsonEncode
  import SjsonOrder
  import SjsonRoundTrip

  const WORD: nat := 0x1_0000_0000
  const MAGIC_NO: nat := 0xE78F8A9D
  const PROTO_VER: nat := 1000
  const LEN_HEADER: nat := 20
  const LEN_MIN_CONTENT: nat := 2
  const MAX_CONTENT: nat := 4096

  /** The string that is searched for: `lts_string` leaves out the last byte of the magic number. */
  const MAGIC: Bytes := [0xE7, 0x8F, 0x8A]

  // ------------------------------------------------------------------ the header

  /** htonl, as the bytes in memory. */
  function Htonl(n: nat): (r: Bytes)
    ensures |r| == 4
  {
    var a := n / 256;
    var b := a / 256;
    var c := b / 256;
    [c % 256, b % 256, a % 256, n % 256]
  }

  function Ntohl(s: Bytes): (n: nat)
    requires |s| == 4
    ensures n < WORD
  {
    ((s[0] as int * 256 + s[1]) * 256 + s[2]) * 256 + s[3]
  }

  lemma {:induction false} NtohlHtonl(n: nat)
    requires n < WORD
    ensures Ntohl(Htonl(n)) == n
  {
    var a := n / 256;
    var b := a / 256;
    var c := b / 256;
    assert n == 256 * a + n % 256 && a == 256 * b + a % 256 && b == 256 * c + b % 256 && c < 256;
  }

  datatype Header = Header(magicNo: nat, protoVer: nat, contentOfst: nat, contentLen: nat, checksum: nat)

  function HeaderBytes(h: Header): (r: Bytes)
    ensures |r| == LEN_HEADER
  {
    Htonl(h.magicNo) + Htonl(h.protoVer) + Htonl(h.contentOfst) + Htonl(h.contentLen) + Htonl(h.checksum)
  }

  function ReadHeader(q: Bytes): Header
    requires |q| >= LEN_HEADER
  {
    Header(Ntohl(q[0..4]), Ntohl(q[4..8]), Ntohl(q[8..12]), Ntohl(q[12..16]), Ntohl(q[16..20]))
  }

  /** The header the encoder writes. */
  function FrameHeader(len: nat): Header {
    Header(MAGIC_NO, PROTO_VER, LEN_HEADER, len, 0)
  }

  function FrameOf(content: Bytes): Bytes {
    HeaderBytes(FrameHeader(|content|)) + content
  }

  predicate BadHeader(h: Header) {
    h.protoVer != PROTO_VER || h.contentOfst < LEN_HEADER ||
    h.contentLen < LEN_MIN_CONTENT || h.contentLen > MAX_CONTENT
  }

  lemma {:induction false} HeaderParts(h: Header, rest: Bytes)
    ensures var q := HeaderBytes(h) + rest;
      q[0..4] == Htonl(h.magicNo) && q[4..8] == Htonl(h.protoVer) && q[8..12] == Htonl(h.contentOfst)
      && q[12..16] == Htonl(h.contentLen) && q[16..20] == Htonl(h.checksum)
  {
  }

  /** All fields have 32 bits. */
  predicate Fits(h: Header) {
    h.magicNo < WORD && h.protoVer < WORD && h.contentOfst < WORD && h.contentLen < WORD && h.checksum < WORD
  }

  lemma {:induction false} HeaderRoundTrip(h: Header, rest: Bytes)
    requires Fits(h)
    ensures ReadHeader(HeaderBytes(h) + rest) == h
  {
    HeaderParts(h, rest);
    NtohlHtonl(h.magicNo);
    NtohlHtonl(h.protoVer);
    NtohlHtonl(h.contentOfst);
    NtohlHtonl(h.contentLen);
    NtohlHtonl(h.checksum);
  }

  lemma {:induction false} HeaderStartsWithMagic(h: Header)
    requires h.magicNo == MAGIC_NO
    ensures HeaderBytes(h)[..3] == MAGIC
  {
    HeaderParts(h, []);
    var q := HeaderBytes(h);
    assert q + [] == q;
    assert q[..3] == q[0..4][..3];
    assert Htonl(MAGIC_NO)[..3] == MAGIC;
  }

  // ------------------------------------------------------------ finding a frame

  /** The least position from `i` on where the magic bytes are, or -1. */
  function FirstMagic(p: Bytes, i: nat): (r: int)
    ensures r == -1 || (i <= r <= |p| - 3 && Kmp.MatchAt(p, MAGIC, r))
    ensures forall s :: i <= s && (r == -1 || s < r) ==> !Kmp.MatchAt(p, MAGIC, s)
    decreases |p| - i
  {
    if i + 3 > |p| then -1
    else if p[i..i + 3] == MAGIC then i
    else FirstMagic(p, i + 1)
  }

  lemma {:induction false} FirstMagicUnique(p: Bytes, r: int)
    requires r == -1 || Kmp.MatchAt(p, MAGIC, r)
    requires forall s :: 0 <= s && (r == -1 || s < r) ==> !Kmp.MatchAt(p, MAGIC, s)
    ensures r == FirstMagic(p, 0)
  {
  }

  /** Where the pending bytes say that the next frame is. */
  datatype Outcome = Cleared | Waiting(at: nat) | Ready(at: nat, ofst: nat, len: nat) | Astray(at: nat)

  function Shifted(o: Outcome, n: nat): Outcome {
    match o
    case Cleared => Cleared
    case Waiting(at) => Waiting(n + at)
    case Ready(at, ofst, len) => Ready(n + at, ofst, len)
    case Astray(at) => Astray(n + at)
  }

  /** The sum of two fields of 32 bits, as the code has it. */
  function Sum(h: Header): nat {
    (h.contentOfst + h.contentLen) % WORD
  }

  /** `Astray` if the sum of offset and length has wrapped, and what is read is not in the buffer. */
  function Locate(p: Bytes): (o: Outcome)
    ensures o.Waiting? || o.Astray? ==> o.at <= |p|
    ensures o.Ready? ==> LEN_HEADER <= o.ofst && LEN_MIN_CONTENT <= o.len <= MAX_CONTENT && o.at + o.ofst + o.len <= |p|
    decreases |p|
  {
    var i := FirstMagic(p, 0);
    if i == -1 then Cleared
    else
      var q := p[i..];
      if |q| < LEN_HEADER + LEN_MIN_CONTENT then Waiting(i)
      else
        var h := ReadHeader(q);
        if BadHeader(h) then Shifted(Locate(q[4..]), i + 4)
        else if |q| < Sum(h) then Waiting(i)
        else if |q| < h.contentOfst + h.contentLen then Astray(i)
        else Ready(i, h.contentOfst, h.contentLen)
  }

  /** The bytes on the wire: magic number, version 1000, offset 20, length, checksum 0, content. */
  lemma {:induction false} WireFormat(content: Bytes)
    requires |content| < 0x1_0000_0000
    ensures var f, n := FrameOf(content), |content|;
      |f| == 20 + n && f[..12] == [0xE7, 0x8F, 0x8A, 0x9D, 0, 0, 3, 0xE8, 0, 0, 0, 20] &&
      f[12..16] == [n / 0x100_0000, n / 0x1_0000 % 256, n / 256 % 256, n % 256] &&
      f[16..20] == [0, 0, 0, 0] && f[20..] == content
  {
    var n := |content|;
    var h := FrameHeader(n);
    HeaderParts(h, content);
    var f := FrameOf(content);
    assert f == HeaderBytes(h) + content;
    LengthBytes(n);
    Cut3(f);
    assert f[20..] == content;
  }

  lemma {:induction false} LengthBytes(n: nat)
    requires n < 0x1_0000_0000
    ensures Htonl(n) == [n / 0x100_0000, n / 0x1_0000 % 256, n / 256 % 256, n % 256]
    ensures Htonl(0xE78F8A9D) == [0xE7, 0x8F, 0x8A, 0x9D] && Htonl(1000) == [0, 0, 3, 0xE8]
    ensures Htonl(20) == [0, 0, 0, 20] && Htonl(0) == [0, 0, 0, 0]
  {
  }

  lemma {:induction false} Cut3(f: Bytes)
    requires |f| >= 20
    ensures f[..12] == f[0..4] + f[4..8] + f[8..12]
  {
  }

  /** Which headers at the magic bytes are passed over, by the four bytes of the magic number, and which are not. */
  lemma {:induction false} HeaderAccepted(p: Bytes)
    requires |p| >= 3 && p[..3] == [0xE7, 0x8F, 0x8A]
    ensures |p| < 22 ==> Locate(p) == Waiting(0)
    ensures |p| >= 22 ==>
      var h := ReadHeader(p);
      Locate(p) ==
        if h.protoVer != 1000 || h.contentOfst < 20 || h.contentLen < 2 || h.contentLen > 4096 then
          Shifted(Locate(p[4..]), 4)
        else if |p| < (h.contentOfst + h.contentLen) % 0x1_0000_0000 then Waiting(0)
        else if |p| < h.contentOfst + h.contentLen then Astray(0)
        else Ready(0, h.contentOfst, h.contentLen)
  {
    MagicHere(p);
    hide FirstMagic, ReadHeader;
    assert p[0..] == p;
  }

  lemma {:induction false} MagicHere(p: Bytes)
    requires |p| >= 3 && p[..3] == [0xE7, 0x8F, 0x8A]
    ensures FirstMagic(p, 0) == 0
  {
    assert p[0..0 + 3] == p[..3];
  }

  /** The fields of a header, most significant byte first. */
  lemma {:induction false} HeaderFields(p: Bytes)
    requires |p| >= 20
    ensures var h := ReadHeader(p);
      h.magicNo == p[0] as int * 0x100_0000 + p[1] as int * 0x1_0000 + p[2] as int * 256 + p[3] as int &&
      h.protoVer == p[4] as int * 0x100_0000 + p[5] as int * 0x1_0000 + p[6] as int * 256 + p[7] as int &&
      h.contentOfst == p[8] as int * 0x100_0000 + p[9] as int * 0x1_0000 + p[10] as int * 256 + p[11] as int &&
      h.contentLen == p[12] as int * 0x100_0000 + p[13] as int * 0x1_0000 + p[14] as int * 256 + p[15] as int &&
      h.checksum == p[16] as int * 0x100_0000 + p[17] as int * 0x1_0000 + p[18] as int * 256 + p[19] as int
  {
  }

  /** A frame that starts at the first magic bytes is found. */
  lemma {:induction false} LocateFrame(g: Bytes, content: Bytes, rest: Bytes)
    requires LEN_MIN_CONTENT <= |content| <= MAX_CONTENT && FirstMagic(g + FrameOf(content) + rest, 0) == |g|
    ensures Locate(g + FrameOf(content) + rest) == Ready(|g|, LEN_HEADER, |content|)
  {
    var p, h := g + FrameOf(content) + rest, HeaderBytes(FrameHeader(|content|));
    assert p[|g|..] == h + (content + rest);
    HeaderRoundTrip(FrameHeader(|content|), content + rest);
  }

  /** The first k bytes of a frame: kept whole as soon as the magic bytes are there. */
  lemma {:induction false} LocatePart(g: Bytes, content: Bytes, k: nat)
    requires LEN_MIN_CONTENT <= |content| <= MAX_CONTENT && 3 <= k < |FrameOf(content)|
    requires FirstMagic(g + FrameOf(content)[..k], 0) == |g|
    ensures Locate(g + FrameOf(content)[..k]) == Waiting(|g|)
  {
    hide ReadHeader, HeaderBytes, FirstMagic;
    var f := FrameOf(content);
    assert (g + f[..k])[|g|..] == f[..k];
    if k >= LEN_HEADER + LEN_MIN_CONTENT {
      PartHeader(content, k);
    }
  }

  lemma {:induction false} PartHeader(content: Bytes, k: nat)
    requires |content| < WORD && LEN_HEADER <= k <= |FrameOf(content)|
    ensures ReadHeader(FrameOf(content)[..k]) == FrameHeader(|content|)
  {
    hide ReadHeader, HeaderBytes;
    var h := HeaderBytes(FrameHeader(|content|));
    assert FrameOf(content)[..k] == h + content[..k - LEN_HEADER];
    HeaderRoundTrip(FrameHeader(|content|), content[..k - LEN_HEADER]);
  }

  /** The magic bytes occur nowhere in `g`. */
  ghost predicate Garbage(g: Bytes) {
    forall s :: 0 <= s ==> !Kmp.MatchAt(g, MAGIC, s)
  }

  lemma {:induction false} Differs(p: Bytes, s: nat, j: nat)
    requires j < 3 && s + j < |p| && p[s + j] != MAGIC[j]
    ensures !Kmp.MatchAt(p, MAGIC, s)
  {
    if Kmp.MatchAt(p, MAGIC, s) { Kmp.MatchBytes(p, MAGIC, s, j); }
  }

  /** No occurrence straddles the end of the garbage when the first magic byte follows. */
  lemma {:induction false} NoStraddle(g: Bytes, f: Bytes, s: nat)
    requires Garbage(g) && (f == [] || f[0] == MAGIC[0]) && s < |g|
    ensures !Kmp.MatchAt(g + f, MAGIC, s)
  {
    var p := g + f;
    if s + 3 <= |g| {
      assert !Kmp.MatchAt(g, MAGIC, s);
      assert g[s..s + 3] == p[s..s + 3];
    } else if f != [] {
      assert p[|g|] == f[0];
      Differs(p, s, |g| - s);
    }
  }

  lemma {:induction false} GarbageBefore(g: Bytes, f: Bytes)
    requires Garbage(g) && 3 <= |f| && f[..3] == MAGIC
    ensures FirstMagic(g + f, 0) == |g|
  {
    var p := g + f;
    assert p[|g|..|g| + 3] == f[..3];
    assert f[0] == f[..3][0];
    forall s | 0 <= s < |g|
      ensures !Kmp.MatchAt(p, MAGIC, s)
    {
      NoStraddle(g, f, s);
    }
    assert Kmp.MatchAt(p, MAGIC, |g|);
    FirstMagicUnique(p, |g|);
  }

  lemma {:induction false} FrameStart(content: Bytes, k: nat)
    requires 3 <= k <= |FrameOf(content)|
    ensures FrameOf(content)[..k][..3] == MAGIC
  {
    HeaderStartsWithMagic(FrameHeader(|content|));
    assert FrameOf(content)[..k][..3] == HeaderBytes(FrameHeader(|content|))[..3];
  }

  // ------------------------------------------------------------- one call

  /** The members of the object that decoding yields. */
  ghost function Result(p: Bytes): Option<Members> {
    match Locate(p)
    case Ready(at, ofst, len) => SjsonRoundTrip.Parse(p[at + ofst..at + ofst + len])
    case _ => None
  }

  /** What is pending after the call. */
  ghost function Left(p: Bytes): Bytes {
    match Locate(p)
    case Cleared => []
    case Waiting(at) => p[at..]
    case Astray(at) => p[at..]  // nothing is said about this case
    case Ready(at, ofst, len) =>
      // the source moves on by the header and the content, whatever the offset
      if Result(p).Some? then p[at + LEN_HEADER + len..] else p[at + 4..]
  }

  /** The cursor after a call: by 4 bytes past a rejected frame, by 20 and the length past an accepted one. */
  lemma {:induction false} CursorMoves(p: Bytes)
    requires Locate(p).Ready?
    ensures var o := Locate(p);
      Result(p) == SjsonRoundTrip.Parse(p[o.at + o.ofst..o.at + o.ofst + o.len]) &&
      Left(p) == if Result(p).Some? then p[o.at + 20 + o.len..] else p[o.at + 4..]
  {
    hide Locate, SjsonRoundTrip.Parse;
  }

  /** Decoding the content does not change a pending byte. */
  ghost predicate Untouched(p: Bytes) {
    match Locate(p)
    case Astray(_) => false
    case Ready(at, ofst, len) =>
      (ofst == LEN_HEADER && Result(p).Some?) ||
      SjsonDecode.Stripped(p[at + ofst..at + ofst + len]) == p[at + ofst..at + ofst + len]
    case _ => true
  }

  ghost predicate Clean(p: Bytes) {
    match Locate(p)
    case Ready(at, ofst, len) => SjsonRoundTrip.KeysClean(p[at + ofst..at + ofst + len])
    case _ => true
  }

  /** While searching, `i` bytes have been passed over and do not matter. */
  ghost predicate Seeking(p: Bytes, i: int, found: bool, header: Header) {
    0 <= i <= |p| && Locate(p) == Shifted(Locate(p[i..]), i)
    && (found ==> |p| - i >= LEN_HEADER + LEN_MIN_CONTENT && FirstMagic(p[i..], 0) == 0
                  && header == ReadHeader(p[i..]) && !BadHeader(header))
  }

  lemma {:induction false} SeekStart(p: Bytes, header: Header)
    ensures Seeking(p, 0, false, header)
  {
    assert p[0..] == p;
  }

  /** What the search says about the frame it has stopped at. */
  ghost predicate Sought(p: Bytes, found: bool, header: Header) {
    match Locate(p)
    case Cleared => !found
    case Waiting(at) => found ==> |p| - at < Sum(header)
    case Astray(at) => found && Sum(header) <= |p| - at < header.contentOfst + header.contentLen
    case Ready(at, ofst, len) => found && header.contentOfst == ofst && header.contentLen == len
  }

  lemma {:induction false} SeekNothing(p: Bytes, i: int, header: Header)
    requires Seeking(p, i, false, header) && FirstMagic(p[i..], 0) == -1
    ensures Locate(p) == Cleared && Sought(p, false, header)
  {
  }

  /** The magic bytes are `n` bytes further on. */
  lemma {:induction false} SeekMagic(p: Bytes, i: int, n: int, header: Header)
    requires Seeking(p, i, false, header) && n == FirstMagic(p[i..], 0) && n >= 0
    ensures Seeking(p, i + n, false, header) && FirstMagic(p[i + n..], 0) == 0
  {
    MagicMoves(p[i..], n);
    assert p[i..][n..] == p[i + n..];
  }

  lemma {:induction false} SeekShort(p: Bytes, i: int, header: Header)
    requires Seeking(p, i, false, header) && FirstMagic(p[i..], 0) == 0 && |p| - i < LEN_HEADER + LEN_MIN_CONTENT
    ensures Locate(p) == Waiting(i) && Sought(p, false, header)
  {
  }

  lemma {:induction false} SeekHeader(p: Bytes, i: int, header: Header)
    requires Seeking(p, i, false, header) && FirstMagic(p[i..], 0) == 0 && |p| - i >= LEN_HEADER + LEN_MIN_CONTENT
    ensures var h := ReadHeader(p[i..]);
      if BadHeader(h) then Seeking(p, i + 4, false, h) else Seeking(p, i, true, h)
  {
    var q := p[i..];
    assert q[0..] == q;
    if BadHeader(ReadHeader(q)) {
      assert q[4..] == p[i + 4..];
    }
  }

  lemma {:induction false} SeekFound(p: Bytes, i: int, header: Header)
    requires Seeking(p, i, true, header)
    ensures Sought(p, true, header) && !Locate(p).Cleared? && Locate(p).at == i
  {
    var q := p[i..];
    assert q[0..] == q;
  }

  /**
   What the check of the code is worth, in a buffer of less than 4 GiB: once it has
   passed for the header h that the search has stopped at, the slice that is decoded
   lies in the buffer exactly when the sum has not wrapped.
   */
  lemma {:induction false} SliceInside(p: Bytes, i: int, h: Header)
    requires Seeking(p, i, true, h) && Sum(h) <= |p| - i && |p| < WORD
    ensures i + h.contentOfst + h.contentLen <= |p| <==> h.contentOfst + h.contentLen < WORD
    ensures Locate(p) ==
      if h.contentOfst + h.contentLen < WORD then Ready(i, h.contentOfst, h.contentLen) else Astray(i)
  {
    var q := p[i..];
    assert q[0..] == q;
  }

  /** A header that passes all checks of the code, with 22 bytes pending and the content 4 GiB ahead. */
  lemma {:induction false} OffsetWraps(a: Byte, b: Byte)
    ensures var h := Header(MAGIC_NO, PROTO_VER, 0xFFFF_FFFF, 2, 0);
      Sum(h) == 1 && !BadHeader(h) && Locate(HeaderBytes(h) + [a, b]) == Astray(0)
  {
    var h := Header(MAGIC_NO, PROTO_VER, 0xFFFF_FFFF, 2, 0);
    var p := HeaderBytes(h) + [a, b];
    HeaderRoundTrip(h, [a, b]);
    HeaderStartsWithMagic(h);
    assert p[0..0 + 3] == HeaderBytes(h)[..3];
    assert p[0..] == p;
  }

  /** lts_str_find in the pending bytes. */
  method FindMagic(buf: Buffer) returns (idx: int)
    requires buf.Valid()
    ensures idx == FirstMagic(buf.Pending(), 0)
  {
    hide Kmp.MatchAt;
    ghost var p := buf.Pending();
    NothingSkipped(p);
    ghost var steps, astray;
    idx, steps, astray := Kmp.Find(buf.data[buf.seek..buf.last], MAGIC, 0);
    FirstMagicUnique(p, idx);
  }

  lemma {:induction false} NothingSkipped(p: Bytes)
    ensures p[0..] == p
  {
  }

  method PeekHeader(buf: Buffer) returns (header: Header)
    requires buf.Valid() && |buf.Pending()| >= LEN_HEADER
    ensures header == ReadHeader(buf.Pending())
  {
    hide ReadHeader;
    header := ReadHeader(buf.data[buf.seek..buf.seek + LEN_HEADER]);
    HeaderPrefix(buf.Pending());
    SliceOfSlice(buf.data[..], buf.seek, buf.last, 0, LEN_HEADER);
  }

  /** `buf->seek += n` */
  method Skip(buf: Buffer, n: nat)
    requires buf.Valid() && n <= |buf.Pending()|
    modifies buf
    ensures buf.Valid() && buf.seek == old(buf.seek) + n && buf.last == old(buf.last)
    ensures buf.Pending() == old(buf.Pending())[n..]
  {
    buf.seek := buf.seek + n;
  }

  lemma {:induction false} TailOfTail(p: Bytes, i: nat, n: nat)
    requires i + n <= |p|
    ensures p[i..][n..] == p[i + n..]
  {
  }

  /** The search loop: `buf.seek` ends up at the frame, if there is one. */
  method Seek(buf: Buffer) returns (found: bool, header: Header)
    requires buf.Valid()
    modifies buf
    ensures buf.Valid() && Sought(old(buf.Pending()), found, header)
    ensures var o := Locate(old(buf.Pending()));
      if o.Cleared? then buf.Pending() == []
      else o.at <= |old(buf.Pending())| && buf.Pending() == old(buf.Pending())[o.at..]
  {
    hide Seeking, Sought, Locate, BadHeader, ReadHeader, FirstMagic, Kmp.MatchAt, Ntohl;
    found := false;
    header := Header(0, 0, 0, 0, 0);
    ghost var p, i := buf.Pending(), 0;
    SeekStart(p, header);
    TailOfTail(p, 0, 0);
    while !found
      invariant buf.Valid() && 0 <= i <= |p| && buf.Pending() == p[i..]
      invariant Seeking(p, i, found, header)
      decreases !found, |p| - i
    {
      var idx := FindMagic(buf);
      if idx == -1 {
        SeekNothing(p, i, header);
        buf.Clear();
        return;
      }
      SeekMagic(p, i, idx, header);
      MagicRoom(p[i..], idx);
      TailOfTail(p, i, idx);
      Skip(buf, idx);
      i := i + idx;
      if buf.last - buf.seek < LEN_HEADER + LEN_MIN_CONTENT {
        SeekShort(p, i, header);
        return;
      }
      SeekHeader(p, i, header);
      header := PeekHeader(buf);
      if BadHeader(header) {
        TailOfTail(p, i, 4);
        Skip(buf, 4);
        i := i + 4;
        continue;
      }
      found := true;
    }
    SeekFound(p, i, header);
  }

  lemma {:induction false} MagicRoom(p: Bytes, i: int)
    requires i == FirstMagic(p, 0)
    ensures -1 <= i <= |p|
  {
  }

  lemma {:induction false} HeaderPrefix(q: Bytes)
    requires |q| >= LEN_HEADER
    ensures ReadHeader(q[..LEN_HEADER]) == ReadHeader(q)
  {
    var h := q[..LEN_HEADER];
    assert h[0..4] == q[0..4] && h[4..8] == q[4..8] && h[8..12] == q[8..12] && h[12..16] == q[12..16] &&
      h[16..20] == q[16..20];
  }

  /** Dropping what is before the first magic bytes changes nothing. */
  lemma {:induction false} MagicMoves(p: Bytes, i: nat)
    requires i == FirstMagic(p, 0)
    ensures FirstMagic(p[i..], 0) == 0 && Locate(p) == Shifted(Locate(p[i..]), i)
  {
    MagicFirst(p, i);
    hide FirstMagic, ReadHeader, BadHeader;
    assert p[i..][0..] == p[i..];
  }

  lemma {:induction false} MagicFirst(p: Bytes, i: nat)
    requires i == FirstMagic(p, 0)
    ensures FirstMagic(p[i..], 0) == 0
  {
    assert p[i..][0..3] == p[i..i + 3];
    assert Kmp.MatchAt(p[i..], MAGIC, 0);
    hide FirstMagic;
    FirstMagicUnique(p[i..], 0);
  }

  /**
   The `n` bytes from `a` on have been decoded in place: their white space is gone, a
   terminator follows if there was any, and the rest of them is white space.
   */
  ghost predicate Rewritten(was: Bytes, a: nat, n: nat, now: Bytes)
    requires a + n <= |was|
  {
    var content := SjsonDecode.Stripped(was[a..a + n]);
    |now| == |was| && |content| <= n && now[a..a + |content|] == content &&
    (|content| < n ==> now[a + |content|] == 0) &&
    (forall t :: a + |content| < t < a + n ==> now[t] in AdvString.Elements(SjsonDecode.INVISIBLE)) &&
    forall t :: 0 <= t < |was| && !(a <= t < a + n) ==> now[t] == was[t]
  }

  /** The content is decoded in place; the rest of the buffer stays as it is. */
  method DecodeContent(buf: Buffer, ofst: nat, len: nat)
    returns (obj: JsonObj, r: int, ghost its: Items, ghost den: Den)
    requires buf.Valid() && buf.seek + ofst + len <= buf.last
    modifies buf.data
    ensures r in {0, -1} && SjsonDecode.Holding(its)
    ensures var content := old(buf.data[buf.seek + ofst..buf.seek + ofst + len]);
      (r == 0 <==> SjsonRoundTrip.Parse(content).Some?) &&
      (r == 0 && SjsonRoundTrip.KeysClean(content) ==>
         SjsonDecode.Denotes(its, den, obj, SjsonRoundTrip.Parse(content).value))
    ensures Rewritten(old(buf.data[..]), buf.seek + ofst, len, buf.data[..])
  {
    hide SjsonDecode.Holding, Rep, SjsonDecode.Decoded, SjsonDecode.Denotes, SjsonDecode.Stripped, Rewritten;
    hide SjsonRoundTrip.Parse, SjsonRoundTrip.KeysClean, InGrammar, AdvString.Outside, AdvString.Ended;
    obj := SjsonRoundTrip.NewOutput();
    SjsonRoundTrip.EmptyObject(obj);
    var str := new AdvString.Str(buf.data, buf.seek + ofst, len);
    ghost var content, was := str.Contents(), buf.data[..];
    r, its, den := SjsonDecode.Decode(str, obj, map[obj := []], map[], End);
    SjsonRoundTrip.ParseMeaning(content);
    InPlace(str, was, len);
  }

  lemma {:induction false} InPlace(str: AdvString.Str, was: Bytes, n: nat)
    requires str.Valid() && AdvString.Outside(str, was, n)
    requires AdvString.Ended(str, n, AdvString.Elements(SjsonDecode.INVISIBLE))
    requires str.Contents() == SjsonDecode.Stripped(was[str.start..str.start + n])
    ensures Rewritten(was, str.start, n, str.buffer[..])
  {
    hide SjsonDecode.Stripped;
    str.Slice();
  }

  lemma {:induction false} RewrittenSlice(was: Bytes, now: Bytes, seek: nat, last: nat, a: nat, n: nat)
    requires seek + a + n <= last <= |was| && Rewritten(was, seek + a, n, now)
    ensures Rewritten(was[seek..last], a, n, now[seek..last])
  {
    hide SjsonDecode.Stripped, AdvString.Elements;
    var q, full, content := was[seek..last], now[seek..last], SjsonDecode.Stripped(was[seek + a..seek + a + n]);
    SliceOfSlice(was, seek, last, a, a + n);
    SliceOfSlice(now, seek, last, a, a + |content|);
    forall t | a + |content| < t < a + n
      ensures full[t] in AdvString.Elements(SjsonDecode.INVISIBLE)
    {
      assert full[t] == now[seek + t];
    }
    forall t | 0 <= t < |q| && !(a <= t < a + n)
      ensures full[t] == q[t]
    {
      assert full[t] == now[seek + t] && q[t] == was[seek + t];
    }
  }

  /** Nothing has changed if there was nothing to strip. */
  lemma {:induction false} RewrittenSame(was: Bytes, a: nat, n: nat, now: Bytes)
    requires a + n <= |was| && Rewritten(was, a, n, now) && SjsonDecode.Stripped(was[a..a + n]) == was[a..a + n]
    ensures now == was
  {
    hide SjsonDecode.Stripped;
    forall t | a <= t < a + n
      ensures now[t] == was[t]
    {
      assert now[a..a + n][t - a] == was[a..a + n][t - a];
    }
  }

  /**
   The bytes from the frame on after its content has been decoded: the cursor moves on
   by the header and the content, or by 4.
   */
  ghost predicate Advanced(q: Bytes, ofst: nat, len: nat, ok: bool, now: Bytes)
    requires ofst + len <= |q| && LEN_HEADER <= ofst
  {
    exists full :: Rewritten(q, ofst, len, full) && now == full[if ok then LEN_HEADER + len else 4..]
  }

  /** The part after the search: `buf.seek` is at a header. */
  method DecodeFrame(buf: Buffer, header: Header) returns (rslt: JsonObj?, ghost its: Items, ghost den: Den)
    requires buf.Valid() && header.contentOfst >= LEN_HEADER
    requires header.contentOfst + header.contentLen <= |buf.Pending()|
    modifies buf, buf.data
    ensures buf.Valid() && SjsonDecode.Holding(its)
    ensures Advanced(old(buf.Pending()), header.contentOfst, header.contentLen, rslt != null, buf.Pending())
    ensures var content := old(buf.Pending()[header.contentOfst..header.contentOfst + header.contentLen]);
      (rslt != null <==> SjsonRoundTrip.Parse(content).Some?) &&
      (rslt != null && SjsonRoundTrip.KeysClean(content) ==>
         SjsonDecode.Denotes(its, den, rslt, SjsonRoundTrip.Parse(content).value))
  {
    hide SjsonDecode.Holding, SjsonDecode.Denotes, SjsonDecode.Stripped, SjsonRoundTrip.Parse, SjsonRoundTrip.KeysClean;
    hide Rewritten, Advanced;
    var ofst, len := header.contentOfst, header.contentLen;
    ghost var data, q := buf.data[..], buf.Pending();
    SliceOfSlice(data, buf.seek, buf.last, ofst, ofst + len);
    rslt := null;
    var obj, r;
    obj, r, its, den := DecodeContent(buf, ofst, len);
    ghost var full := buf.Pending();
    RewrittenSlice(data, buf.data[..], buf.seek, buf.last, ofst, len);
    if r == -1 {
      Skip(buf, 4);
    } else {
      rslt := obj;
      Skip(buf, LEN_HEADER + len);
    }
    Moved(q, ofst, len, r == 0, full, buf.Pending());
  }

  lemma {:induction false} Moved(q: Bytes, ofst: nat, len: nat, ok: bool, full: Bytes, now: Bytes)
    requires LEN_HEADER <= ofst && ofst + len <= |q| && Rewritten(q, ofst, len, full)
    requires now == full[if ok then LEN_HEADER + len else 4..]
    ensures Advanced(q, ofst, len, ok, now)
  {
    hide Rewritten;
  }

  lemma {:induction false} SliceOfSlice(s: Bytes, a: nat, b: nat, x: nat, y: nat)
    requires a + y <= b <= |s| && x <= y
    ensures s[a..b][x..y] == s[a + x..a + y]
  {
    var l, r := s[a..b][x..y], s[a + x..a + y];
    assert forall k :: 0 <= k < y - x ==> l[k] == s[a + x + k] && r[k] == s[a + x + k];
  }

  lemma {:induction false} SliceOfTail(s: Bytes, a: nat, x: nat, y: nat)
    requires a + y <= |s| && x <= y
    ensures s[a..][x..y] == s[a + x..a + y]
  {
    var l, r := s[a..][x..y], s[a + x..a + y];
    assert forall k :: 0 <= k < y - x ==> l[k] == s[a + x + k] && r[k] == s[a + x + k];
  }

  /**
   lts_proto_sjsonb_decode.  If the sum of offset and length wraps the code goes on
   outside the buffer, where the model does not follow it.
   */
  method Decode(buf: Buffer) returns (rslt: JsonObj?, astray: bool, ghost its: Items, ghost den: Den)
    requires buf.Valid()
    modifies buf, buf.data
    ensures buf.Valid() && (astray <==> Locate(old(buf.Pending())).Astray?)
    ensures !astray ==> (rslt != null <==> Result(old(buf.Pending())).Some?)
    ensures Untouched(old(buf.Pending())) ==> buf.Pending() == Left(old(buf.Pending()))
    ensures !Locate(old(buf.Pending())).Ready? && !astray ==> buf.Pending() == Left(old(buf.Pending()))
    // also if the content held white space, and whether it is accepted or not
    ensures Locate(old(buf.Pending())).Ready? ==>
      var p := old(buf.Pending()); var o := Locate(p);
      Advanced(p[o.at..], o.ofst, o.len, rslt != null, buf.Pending())
    ensures !astray ==> |buf.Pending()| == |Left(old(buf.Pending()))|
    ensures SjsonDecode.Holding(its)
    ensures !astray && rslt != null && Clean(old(buf.Pending())) ==>
      SjsonDecode.Denotes(its, den, rslt, Result(old(buf.Pending())).value)
  {
    hide Locate, SjsonDecode.Holding, SjsonDecode.Denotes, SjsonDecode.Stripped, Advanced;
    hide SjsonRoundTrip.Parse, SjsonRoundTrip.KeysClean;
    ghost var p := buf.Pending();
    rslt, astray, its, den := null, false, map[], map[];
    NoObjects();
    var found, header := Seek(buf);
    if !found {
      return;
    }
    if buf.last - buf.seek < Sum(header) {
      return;
    }
    if buf.last - buf.seek < header.contentOfst + header.contentLen {
      astray := true;
      return;
    }
    assert Locate(p).Ready?;
    FrameSlices(p);
    rslt, its, den := DecodeFrame(buf, header);
    Arrived(p, rslt != null, buf.Pending());
  }

  lemma {:induction false} FrameSlices(p: Bytes)
    requires Locate(p).Ready?
    ensures var o := Locate(p); p[o.at..][o.ofst..o.ofst + o.len] == p[o.at + o.ofst..o.at + o.ofst + o.len]
  {
    hide Locate;
    var o := Locate(p);
    SliceOfTail(p, o.at, o.ofst, o.ofst + o.len);
  }

  lemma {:induction false} Arrived(p: Bytes, ok: bool, now: Bytes)
    requires Locate(p).Ready? && ok == Result(p).Some?
    requires var o := Locate(p); Advanced(p[o.at..], o.ofst, o.len, ok, now)
    ensures |now| == |Left(p)| && (Untouched(p) ==> now == Left(p))
  {
    hide Locate, SjsonRoundTrip.Parse, SjsonDecode.Stripped;
    var o := Locate(p);
    var q, n := p[o.at..], if ok then LEN_HEADER + o.len else 4;
    FrameSlices(p);
    TailOfTail(p, o.at, n);
    ghost var full :| Rewritten(q, o.ofst, o.len, full) && now == full[n..];
    if Untouched(p) {
      if SjsonDecode.Stripped(q[o.ofst..o.ofst + o.len]) == q[o.ofst..o.ofst + o.len] {
        RewrittenSame(q, o.ofst, o.len, full);
      } else {
        assert full[n..] == q[n..];
      }
    }
  }

  lemma {:induction false} NoObjects()
    ensures SjsonDecode.Holding(map[])
  {
  }

  // ------------------------------------------------------------------- encoding

  /** The pending bytes once room has been made, if need be, for `n` more. */
  function Room(data: Bytes, seek: nat, last: nat, n: nat): Bytes
    requires seek <= last <= |data|
  {
    if |data| - last < n then AfterDrop(data, seek, last) else data[seek..last]
  }

  /** The two checks for space, with a drop of what has been read between them. */
  method MakeRoom(buf: Buffer, n: nat) returns (ok: bool)
    requires buf.Valid()
    modifies buf, buf.data
    ensures buf.Valid() && buf.Pending() == Room(old(buf.data[..]), old(buf.seek), old(buf.last), n)
    ensures ok <==> |old(buf.Pending())| + n <= buf.data.Length
    ensures ok ==> n <= buf.data.Length - buf.last
    ensures buf.seek == if old(buf.data.Length - buf.last) < n then 0 else old(buf.seek)
  {
    var space := buf.Space();
    if space < n {
      buf.DropAccessed();
    }
    space := buf.Space();
    ok := space >= n;
  }

  method PutFrame(buf: Buffer, header: Bytes, content: Bytes)
    requires buf.Valid() && |header| + |content| <= buf.data.Length - buf.last
    modifies buf, buf.data
    ensures buf.Valid() && buf.Pending() == old(buf.Pending()) + (header + content) && buf.seek == old(buf.seek)
  {
    ghost var room := buf.Pending();
    buf.Append(header);
    buf.Append(content);
    assert room + header + content == room + (header + content);
  }

  /** lts_proto_sjsonb_encode; `limit` is the size of the largest piece that the pool of the object gives. */
  method Encode(o: JsonObj, buf: Buffer, limit: nat, ghost its: Items, ghost den: Den) returns (r: int)
    requires SjsonDecode.Holding(its) && Finished(its, den) && o in den && buf.Valid()
    modifies buf, buf.data
    ensures buf.Valid() && r in {0, -1}
    ensures |SjsonEncode.EncodeText(den[o])| >= limit ==> r == -1 && unchanged(buf) && unchanged(buf.data)
    ensures |SjsonEncode.EncodeText(den[o])| < limit ==>
      var frame := FrameOf(SjsonEncode.EncodeText(den[o]));
      var room := Room(old(buf.data[..]), old(buf.seek), old(buf.last), |frame|);
      (r == 0 <==> |old(buf.Pending())| + |frame| <= buf.data.Length) &&
      buf.Pending() == (if r == 0 then room + frame else room) &&
      buf.seek == if old(buf.data.Length - buf.last) < |frame| then 0 else old(buf.seek)
  {
    hide SjsonDecode.Holding, Finished, SjsonEncode.EncodeText, HeaderBytes, Room, Htonl;
    var encodeLen := SjsonEncode.EncodeSize(o, its, den);
    var encoded, data, len := SjsonEncode.Encode(o, limit, its, den);
    if encoded == -1 {
      return -1;
    }
    var header := Header(MAGIC_NO, PROTO_VER, LEN_HEADER, encodeLen, 0);
    var packLen := LEN_HEADER + encodeLen;
    var ok := MakeRoom(buf, packLen);
    if !ok {
      return -1;
    }
    PutFrame(buf, HeaderBytes(header), data[..len]);
    return 0;
  }

  // ----------------------------------------------------------------- whole runs

  function Frames(trees: seq<Members>): Bytes {
    if trees == [] then [] else FrameOf(SjsonEncode.EncodeText(trees[0])) + Frames(trees[1..])
  }

  /** An object that survives a round trip and fits into a frame. */
  ghost predicate Sendable(t: Members) {
    SjsonOrder.Sorted(t) && SjsonRoundTrip.PlainMembers(t) && |SjsonEncode.EncodeText(t)| <= MAX_CONTENT
  }

  lemma {:induction false} FirstFrame(g: Bytes, t: Members, rest: Bytes)
    requires Garbage(g) && Sendable(t)
    ensures var p := g + FrameOf(SjsonEncode.EncodeText(t)) + rest;
      Locate(p) == Ready(|g|, LEN_HEADER, |SjsonEncode.EncodeText(t)|) &&
      Result(p) == Some(SjsonRoundTrip.TurnMembers(t)) && Left(p) == rest && Untouched(p) && Clean(p)
  {
    var content := SjsonEncode.EncodeText(t);
    var f := FrameOf(content);
    var p := g + f + rest;
    FrameStart(content, |f|);
    assert f[..|f|] == f;
    assert (f + rest)[..3] == f[..3];
    assert g + (f + rest) == p;
    GarbageBefore(g, f + rest);
    LocateFrame(g, content, rest);
    SjsonRoundTrip.RoundTrip(t);
    SjsonRoundTrip.CleanText(t);
    hide Locate, SjsonRoundTrip.Parse, SjsonRoundTrip.KeysClean, SjsonEncode.EncodeText, HeaderBytes;
    FramePieces(g, HeaderBytes(FrameHeader(|content|)), content, rest);
  }

  /** Exactly which objects the decoder gives back from the frame that the encoder has written. */
  lemma {:induction false} Decodable(g: Bytes, t: Members, rest: Bytes)
    requires Garbage(g) && SjsonOrder.Sorted(t)
    ensures var text := SjsonEncode.EncodeText(t); var p := g + FrameOf(text) + rest;
      Locate(p) == Ready(|g|, LEN_HEADER, |text|) && Result(p) == Some(SjsonRoundTrip.TurnMembers(t)) <==> Sendable(t)
  {
    var text := SjsonEncode.EncodeText(t);
    var p := g + FrameOf(text) + rest;
    hide Locate, SjsonRoundTrip.Parse, SjsonEncode.EncodeText, HeaderBytes, SjsonRoundTrip.PlainMembers;
    hide SjsonOrder.Sorted;
    FramePieces(g, HeaderBytes(FrameHeader(|text|)), text, rest);
    SjsonRoundTrip.RoundTripExactly(t);
    if Sendable(t) {
      FirstFrame(g, t, rest);
    } else if Locate(p) == Ready(|g|, LEN_HEADER, |text|) {
      assert Result(p) == SjsonRoundTrip.Parse(text);
    }
  }

  lemma {:induction false} FramePieces(g: Bytes, h: Bytes, content: Bytes, rest: Bytes)
    requires |h| == LEN_HEADER
    ensures var p := g + (h + content) + rest;
      p[|g| + LEN_HEADER..|g| + LEN_HEADER + |content|] == content && p[|g| + LEN_HEADER + |content|..] == rest
  {
  }

  /** The results of `n` calls. */
  ghost function Results(p: Bytes, n: nat): seq<Option<Members>>
    decreases n
  {
    if n == 0 then [] else [Result(p)] + Results(Left(p), n - 1)
  }

  ghost function LeftAfter(p: Bytes, n: nat): Bytes
    decreases n
  {
    if n == 0 then p else LeftAfter(Left(p), n - 1)
  }

  /** In each of `n` calls decoding leaves the pending bytes alone and meets NUL-free keys. */
  ghost predicate Smooth(p: Bytes, n: nat)
    decreases n
  {
    n == 0 || (Untouched(p) && Clean(p) && Smooth(Left(p), n - 1))
  }

  function Received(trees: seq<Members>): seq<Option<Members>> {
    if trees == [] then [] else [Some(SjsonRoundTrip.TurnMembers(trees[0]))] + Received(trees[1..])
  }

  /** Frames one after the other, after garbage: each call yields the next object, and nothing stays pending. */
  lemma {:induction false} Stream(g: Bytes, trees: seq<Members>)
    requires Garbage(g) && trees != [] && forall i :: 0 <= i < |trees| ==> Sendable(trees[i])
    ensures Results(g + Frames(trees), |trees|) == Received(trees)
    ensures LeftAfter(g + Frames(trees), |trees|) == [] && Smooth(g + Frames(trees), |trees|)
    decreases |trees|
  {
    hide Locate, SjsonRoundTrip.Parse, SjsonEncode.EncodeText, Result, Left, Untouched, Clean, FrameOf;
    var rest := trees[1..];
    var f := FrameOf(SjsonEncode.EncodeText(trees[0]));
    assert g + (f + Frames(rest)) == g + f + Frames(rest);
    FirstFrame(g, trees[0], Frames(rest));
    if rest != [] {
      NoGarbage();
      Stream([], rest);
      assert [] + Frames(rest) == Frames(rest);
    }
  }

  /** What a number of calls have returned, and what the returned objects stand for. */
  ghost predicate Denoting(objs: seq<JsonObj?>, itss: seq<Items>, dens: seq<Den>, results: seq<Option<Members>>) {
    |objs| == |itss| == |dens| == |results| &&
    forall k :: 0 <= k < |objs| ==>
      (objs[k] != null <==> results[k].Some?) &&
      (objs[k] != null ==> SjsonDecode.Denotes(itss[k], dens[k], objs[k], results[k].value))
  }

  lemma {:induction false} DenotingNext(o: JsonObj?, its: Items, den: Den, r: Option<Members>,
                              objs: seq<JsonObj?>, itss: seq<Items>, dens: seq<Den>, results: seq<Option<Members>>)
    requires Denoting(objs, itss, dens, results) && (o != null <==> r.Some?)
    requires o != null ==> SjsonDecode.Denotes(its, den, o, r.value)
    ensures Denoting([o] + objs, [its] + itss, [den] + dens, [r] + results)
  {
  }

  /** A run of calls on one buffer. */
  method DecodeAll(buf: Buffer, n: nat) returns (objs: seq<JsonObj?>, ghost itss: seq<Items>, ghost dens: seq<Den>)
    requires buf.Valid() && Smooth(buf.Pending(), n)
    modifies buf, buf.data
    ensures buf.Valid() && buf.Pending() == LeftAfter(old(buf.Pending()), n)
    ensures Denoting(objs, itss, dens, Results(old(buf.Pending()), n))
    // each of the maps is what the heap holds now
    ensures forall k :: 0 <= k < |itss| ==> SjsonDecode.Holding(itss[k])
  {
    hide Locate, Result, Left, Untouched, Clean, Denoting, SjsonDecode.Holding, SjsonDecode.Denotes;
    if n == 0 {
      NoneDenoting();
      return [], [], [];
    }
    ghost var p := buf.Pending();
    NotAstray(p);
    var o, astray;
    ghost var its, den;
    o, astray, its, den := Decode(buf);
    objs, itss, dens := DecodeAll(buf, n - 1);
    DenotingNext(o, its, den, Result(p), objs, itss, dens, Results(Left(p), n - 1));
    objs, itss, dens := [o] + objs, [its] + itss, [den] + dens;
  }

  lemma {:induction false} NoneDenoting()
    ensures Denoting([], [], [], [])
  {
  }

  lemma {:induction false} NotAstray(p: Bytes)
    requires Untouched(p)
    ensures !Locate(p).Astray?
  {
  }

  function Trees(objs: seq<JsonObj>, den: Den): (r: seq<Members>)
    requires forall i :: 0 <= i < |objs| ==> objs[i] in den
    ensures |r| == |objs| && forall i :: 0 <= i < |objs| ==> r[i] == den[objs[i]]
  {
    if objs == [] then [] else [den[objs[0]]] + Trees(objs[1..], den)
  }

  /** A call of the encoder with room behind what is pending. */
  method EncodeNext(o: JsonObj, buf: Buffer, limit: nat, ghost its: Items, ghost den: Den)
    requires SjsonDecode.Holding(its) && Finished(its, den) && o in den && buf.Valid()
    requires |SjsonEncode.EncodeText(den[o])| < limit
    requires buf.last + |FrameOf(SjsonEncode.EncodeText(den[o]))| <= buf.data.Length
    modifies buf, buf.data
    ensures buf.Valid() && buf.Pending() == old(buf.Pending()) + FrameOf(SjsonEncode.EncodeText(den[o]))
    ensures buf.last == old(buf.last) + |FrameOf(SjsonEncode.EncodeText(den[o]))|
  {
    hide SjsonDecode.Holding, Finished, SjsonEncode.EncodeText, FrameOf, AfterDrop;
    var r := Encode(o, buf, limit, its, den);
  }

  /** A run of calls of the encoder, with room for all frames. */
  method EncodeAll(objs: seq<JsonObj>, buf: Buffer, limit: nat, ghost its: Items, ghost den: Den)
    requires SjsonDecode.Holding(its) && Finished(its, den) && buf.Valid()
    requires forall i :: 0 <= i < |objs| ==> objs[i] in den && |SjsonEncode.EncodeText(den[objs[i]])| < limit
    requires buf.last + |Frames(Trees(objs, den))| <= buf.data.Length
    modifies buf, buf.data
    ensures buf.Valid() && buf.Pending() == old(buf.Pending()) + Frames(Trees(objs, den))
    decreases |objs|
  {
    FramesNext(objs, den);
    hide SjsonDecode.Holding, Finished, SjsonEncode.EncodeText, FrameOf, Frames, Trees, AfterDrop;
    if objs == [] {
      assert buf.Pending() + [] == buf.Pending();
    } else {
      ghost var p, frame := buf.Pending(), FrameOf(SjsonEncode.EncodeText(den[objs[0]]));
      EncodeNext(objs[0], buf, limit, its, den);
      EncodeAll(objs[1..], buf, limit, its, den);
      SjsonEncode.Grouped(p, frame, Frames(Trees(objs[1..], den)));
    }
  }

  lemma {:induction false} FramesNext(objs: seq<JsonObj>, den: Den)
    requires forall i :: 0 <= i < |objs| ==> objs[i] in den
    ensures Frames(Trees(objs, den)) ==
      if objs == [] then [] else FrameOf(SjsonEncode.EncodeText(den[objs[0]])) + Frames(Trees(objs[1..], den))
  {
    hide FrameOf, SjsonEncode.EncodeText;
    if objs != [] { assert Trees(objs, den)[1..] == Trees(objs[1..], den); }
  }

  /** What is encoded into an empty buffer is decoded from it, in order, and nothing stays pending. */
  method Transmit(objs: seq<JsonObj>, buf: Buffer, limit: nat, ghost its: Items, ghost den: Den)
    returns (back: seq<JsonObj?>, ghost itss: seq<Items>, ghost dens: seq<Den>)
    requires SjsonDecode.Holding(its) && Finished(its, den) && buf.Valid() && buf.Pending() == [] && objs != []
    requires forall i :: 0 <= i < |objs| ==>
      objs[i] in den && Sendable(den[objs[i]]) && |SjsonEncode.EncodeText(den[objs[i]])| < limit
    requires buf.last + |Frames(Trees(objs, den))| <= buf.data.Length
    modifies buf, buf.data
    ensures buf.Valid() && buf.Pending() == []
    ensures Denoting(back, itss, dens, Received(Trees(objs, den)))
    ensures SjsonDecode.Holding(its) && forall k :: 0 <= k < |itss| ==> SjsonDecode.Holding(itss[k])
  {
    hide SjsonDecode.Holding, Finished, Denoting, Smooth, Results, LeftAfter, Received, Frames, Sendable;
    ghost var trees := Trees(objs, den);
    EncodeAll(objs, buf, limit, its, den);
    NoGarbage();
    Stream([], trees);
    assert [] + Frames(trees) == Frames(trees);
    back, itss, dens := DecodeAll(buf, |objs|);
  }

  lemma {:induction false} NoGarbage()
    ensures Garbage([])
  {
  }

  /** Bytes without a frame are thrown away. */
  lemma {:induction false} OnlyGarbage(g: Bytes)
    requires Garbage(g)
    ensures Result(g) == None && Left(g) == []
  {
  }

  /** An incomplete frame is kept whole exactly when its first three bytes are there (or none). */
  lemma {:induction false} IncompleteFrame(g: Bytes, content: Bytes, k: nat)
    requires Garbage(g) && LEN_MIN_CONTENT <= |content| <= MAX_CONTENT && k < |FrameOf(content)|
    ensures var p := g + FrameOf(content)[..k];
      Result(p) == None && (Left(p) == FrameOf(content)[..k] <==> k >= 3 || k == 0)
  {
    var f := FrameOf(content);
    var p := g + f[..k];
    if k >= 3 {
      FrameStart(content, k);
      GarbageBefore(g, f[..k]);
      LocatePart(g, content, k);
      assert p[|g|..] == f[..k];
    } else {
      FrameStart(content, |f|);
      assert f[..|f|] == f;
      TooShort(g, f, k);
      OnlyGarbage(p);
    }
  }

  lemma {:induction false} TooShort(g: Bytes, f: Bytes, k: nat)
    requires Garbage(g) && k < 3 <= |f| && f[..3] == MAGIC
    ensures Garbage(g + f[..k])
  {
    assert f[0] == f[..3][0];
    forall s | 0 <= s
      ensures !Kmp.MatchAt(g + f[..k], MAGIC, s)
    {
      if s < |g| { NoStraddle(g, f[..k], s); }
    }
  }
}
