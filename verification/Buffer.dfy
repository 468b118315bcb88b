/** The byte buffer of src/buffer.c, at a fixed capacity. */
module Buffer {
  import opened ByteString

  /** lts_buffer_t: `start` is index 0 of `data` and `end` is its length. */
  class Buffer {
    const data: array<Byte>
    var seek: nat
    var last: nat

    /** lts_create_buffer */
    constructor (size: nat)
      ensures Valid() && fresh(data) && data.Length == size && Pending() == [] && seek == 0
    {
      data := new Byte[size];
      seek, last := 0, 0;
    }

    ghost predicate Valid()
      reads this
    {
      seek <= last <= data.Length
    }

    /** The bytes from `seek` to `last`. */
    ghost function Pending(): Bytes
      requires Valid()
      reads this, data
    {
      data[seek..last]
    }

    /** lts_buffer_space: the bytes read, pending and free make up the buffer. */
    method Space() returns (n: int)
      requires Valid()
      ensures seek + |Pending()| + n == data.Length
    {
      n := data.Length - last;
    }

    /** lts_buffer_clear */
    method Clear()
      modifies this
      ensures Valid() && seek == 0 && Pending() == []
    {
      seek, last := 0, 0;
    }

    /** lts_buffer_append when the bytes fit: growing is not modelled. */
    method Append(s: Bytes)
      requires Valid() && |s| <= data.Length - last
      modifies this, data
      ensures Valid() && seek == old(seek) && Pending() == old(Pending()) + s
    {
      ghost var was := data[..];
      for i := 0 to |s|
        invariant Valid() && seek == old(seek) && last == old(last)
        invariant forall k :: 0 <= k < data.Length ==> data[k] == if last <= k < last + i then s[k - last] else was[k]
      {
        data[last + i] := s[i];
      }
      last := last + |s|;
      assert data[seek..last] == was[seek..old(last)] + s;
    }

    /**
     lts_buffer_drop_accessed: the source moves as many bytes as have been read, not
     as many as are pending; what it moves from beyond the buffer is arbitrary.
     */
    method DropAccessed()
      requires Valid()
      modifies this, data
      ensures Valid() && seek == 0 && last == old(last - seek)
      ensures Pending() == AfterDrop(old(data[..]), old(seek), old(last))
    {
      var dropLen := seek;
      ghost var was := data[..];
      var moved := if 2 * dropLen <= data.Length then data[dropLen..2 * dropLen] else data[dropLen..];
      for k := 0 to dropLen
        invariant Valid() && seek == dropLen && last == old(last) && |moved| <= dropLen
        invariant forall j :: 0 <= j < |moved| ==> moved[j] == was[dropLen + j]
        invariant forall j :: 0 <= j < k && j < |moved| ==> data[j] == was[dropLen + j]
        invariant forall j :: dropLen <= j < data.Length ==> data[j] == was[j]
      {
        if k < |moved| {
          data[k] := moved[k];
        } else {
          data[k] := *;
        }
      }
      Dropped(was, data[..], dropLen, last);
      seek := 0;
      last := last - dropLen;
    }
  }

  /** The pending bytes after a drop of the first `d` of `last` bytes. */
  function AfterDrop(data: Bytes, d: nat, last: nat): (r: Bytes)
    requires d <= last <= |data|
    ensures |r| == last - d
  {
    if last - d <= d then data[d..last] else data[d..2 * d] + data[d..last - d]
  }

  lemma {:induction false} Dropped(was: Bytes, now: Bytes, d: nat, last: nat)
    requires d <= last <= |was| == |now|
    requires forall j :: 0 <= j < d && d + j < |was| ==> now[j] == was[d + j]
    requires forall j :: d <= j < |was| ==> now[j] == was[j]
    ensures now[0..last - d] == AfterDrop(was, d, last)
  {
  }

  /** Exactly when a drop keeps what is pending: in particular if there is no more of it than has been read. */
  lemma {:induction false} DropKeeps(data: Bytes, d: nat, last: nat)
    requires d <= last <= |data|
    ensures AfterDrop(data, d, last) == data[d..last] <==> last - d <= d || data[d..last - d] == data[2 * d..last]
    ensures last - d <= d || d == 0 ==> AfterDrop(data, d, last) == data[d..last]
  {
    if last - d > d {
      Split(data, d, 2 * d, last);
      assert data[d..2 * d] + data[d..last - d] == data[d..2 * d] + data[2 * d..last] ==>
        data[d..last - d] == data[2 * d..last] by {
        CancelLeft(data[d..2 * d], data[d..last - d], data[2 * d..last]);
      }
    }
  }

  lemma {:induction false} Split(s: Bytes, a: nat, b: nat, c: nat)
    requires a <= b <= c <= |s|
    ensures s[a..c] == s[a..b] + s[b..c]
  {
  }

  lemma {:induction false} CancelLeft(a: Bytes, b: Bytes, c: Bytes)
    ensures a + b == a + c ==> b == c
  {
    if a + b == a + c {
      assert b == (a + b)[|a|..];
      assert c == (a + c)[|a|..];
    }
  }

  /** One byte read and two pending: the second pending byte is lost. */
  lemma {:induction false} DropLoses()
    ensures AfterDrop([1, 2, 3], 1, 3) == [2, 2]
  {
  }
}
