/**
 The pool allocator of src/mem_pool.c: a chain of blocks from which memory is
 handed out front to back.  Addresses are numbers; the sizes are those of a
 64-bit machine.
 */
module MemPool {
  import opened Optional

  const WORD: nat := 8
  const SIZE_POOL_DATA: nat := 32
  const SIZE_POOL: nat := 48
  const MIN_POOL_SIZE: nat := 4096
  /** The number of values of a size_t. */
  const SIZES: nat := 0x1_0000_0000_0000_0000

  /** LTS_ALIGN to a word */
  function Align(n: nat): (r: nat)
    ensures r % WORD == 0 && n <= r < n + WORD
    ensures n % WORD == 0 ==> r == n
  {
    (n + WORD - 1) / WORD * WORD
  }

  lemma {:induction false} AlignBelow(n: nat, m: nat)
    requires n <= m && m % WORD == 0
    ensures Align(n) <= m
  {
  }

  /** lts_pool_data_t; `base` is the address of the block itself. */
  class Block {
    const base: nat
    const end: nat
    var last: nat
    var failed: nat
    var next: Block?

    constructor (base: nat, end: nat, last: nat)
      ensures this.base == base && this.end == end && this.last == last && failed == 0 && next == null
    {
      this.base, this.end, this.last := base, end, last;
      failed, next := 0, null;
    }
  }

  /** A piece of memory that has been handed out, and the number of its block. */
  datatype Region = Region(addr: nat, size: nat, block: nat)

  /** The room that the search sees: a block that has been run past its end has almost all there is. */
  function Room(end: nat, last: nat): (n: int)
    ensures n >= 0 <==> last <= end + SIZES
  {
    if last <= end then end - last else SIZES + end - last
  }

  predicate Apart(a: nat, n: nat, b: nat, m: nat) {
    a + n <= b || b + m <= a
  }

  /** The failure count of block i of n. */
  function Failures(n: nat, i: nat): nat {
    if n < i + 2 then 0 else if n - 2 - i > 5 then 5 else n - 2 - i
  }

  /** The number of the block that the search starts at. */
  function Start(n: nat): nat {
    if n > 6 then n - 6 else 0
  }

  /** Where a block is, and how far it has been handed out. */
  datatype Extent = Extent(base: nat, end: nat, last: nat)

  /** Blocks do not overlap, and nothing is handed out beyond their ends. */
  ghost predicate Placed(es: seq<Extent>, maxSize: nat) {
    maxSize % WORD == 0 && maxSize >= MIN_POOL_SIZE - SIZE_POOL &&
    (forall i :: 0 <= i < |es| ==>
      es[i].base % WORD == 0 && es[i].end % WORD == 0 && es[i].base + SIZE_POOL <= es[i].last <= es[i].end) &&
    (forall i, j :: 0 <= i < j < |es| ==>
      Apart(es[i].base, es[i].end - es[i].base, es[j].base, es[j].end - es[j].base))
  }

  ghost predicate Inside(r: Region, es: seq<Extent>) {
    r.block < |es| && es[r.block].base + SIZE_POOL <= r.addr && r.addr + r.size <= es[r.block].last
  }

  /** The regions lie in their blocks past the header, and do not overlap. */
  ghost predicate Given(es: seq<Extent>, regions: seq<Region>) {
    (forall r :: 0 <= r < |regions| ==> Inside(regions[r], es)) &&
    (forall r, s :: 0 <= r < s < |regions| ==>
      Apart(regions[r].addr, regions[r].size, regions[s].addr, regions[s].size))
  }

  /** Block k has given `size` bytes from its old end on, and ends may have moved up. */
  ghost predicate Grown(es: seq<Extent>, es': seq<Extent>, k: nat, size: nat) {
    |es'| == |es| && k < |es| && es'[k].last >= es[k].last + size &&
    forall i :: 0 <= i < |es| ==>
      es'[i].base == es[i].base && es'[i].end == es[i].end && es[i].last <= es'[i].last <= es'[i].end
  }

  lemma {:induction false} TakeStep(es: seq<Extent>, es': seq<Extent>, regions: seq<Region>, maxSize: nat, k: nat,
                              size: nat)
    requires Placed(es, maxSize) && Given(es, regions) && Grown(es, es', k, size)
    ensures Placed(es', maxSize) && Given(es', regions + [Region(es[k].last, size, k)])
  {
    var all := regions + [Region(es[k].last, size, k)];
    forall r | 0 <= r < |regions|
      ensures Inside(all[r], es') && Apart(all[r].addr, all[r].size, es[k].last, size)
    {
      assert Inside(regions[r], es);
      var b := regions[r].block;
      assert b < k ==> Apart(es[b].base, es[b].end - es[b].base, es[k].base, es[k].end - es[k].base);
      assert k < b ==> Apart(es[k].base, es[k].end - es[k].base, es[b].base, es[b].end - es[b].base);
    }
  }

  ghost function ExtentsOf(bs: seq<Block>): (es: seq<Extent>)
    reads bs`last
    ensures |es| == |bs|
  {
    if bs == [] then [] else [Extent(bs[0].base, bs[0].end, bs[0].last)] + ExtentsOf(bs[1..])
  }

  lemma {:induction false} ExtentsAre(bs: seq<Block>)
    ensures forall i :: 0 <= i < |bs| ==> ExtentsOf(bs)[i] == Extent(bs[i].base, bs[i].end, bs[i].last)
  {
    if bs != [] { ExtentsAre(bs[1..]); }
  }

  ghost predicate Linked(bs: seq<Block>)
    reads bs`next
  {
    forall i :: 0 <= i < |bs| ==> bs[i].next == NextOf(bs, i)
  }

  ghost function NextOf(bs: seq<Block>, i: nat): Block?
    requires i < |bs|
  {
    if i + 1 < |bs| then bs[i + 1] else null
  }

  ghost predicate Distinct(bs: seq<Block>) {
    forall i, j :: 0 <= i < j < |bs| ==> bs[i] != bs[j]
  }

  /** The counts are those of a chain of n blocks, with those from c up to i raised by one. */
  ghost predicate Counted(bs: seq<Block>, n: nat, c: nat, i: nat)
    reads bs`failed
  {
    forall j :: 0 <= j < |bs| ==> bs[j].failed == Failures(n, j) + if c <= j < i then 1 else 0
  }

  class Pool {
    const maxSize: nat
    var current: Block
    const data: Block
    ghost var blocks: seq<Block>
    ghost var regions: seq<Region>

    /** The chain, and the failure counts along it. */
    ghost predicate Chained()
      reads this, blocks`next, blocks`failed
    {
      blocks != [] && Linked(blocks) && Distinct(blocks) && blocks[0] == data && current == blocks[Start(|blocks|)] &&
      Counted(blocks, |blocks|, 0, 0)
    }

    ghost predicate Valid()
      reads this, blocks
    {
      Chained() && Placed(ExtentsOf(blocks), maxSize) && Given(ExtentsOf(blocks), regions)
    }

    /** lts_create_pool at the page-aligned address `p`. */
    constructor (size0: nat, p: nat)
      requires p % WORD == 0
      ensures Chained() && regions == [] && |blocks| == 1 && fresh(blocks[0])
      ensures blocks[0].base == p && blocks[0].end - blocks[0].last == maxSize && blocks[0].last == p + 48
      // a smaller request than the least size is rounded up to it
      ensures Valid() <==> size0 < 4096 || size0 % 8 == 0
      ensures maxSize == (if size0 < 4096 then 4096 else size0) - 48
    {
      var size := if size0 < MIN_POOL_SIZE then MIN_POOL_SIZE else size0;
      var block := new Block(p, p + size, Align(p + SIZE_POOL));
      data := block;
      current := block;
      maxSize := size - SIZE_POOL;
      blocks := [block];
      regions := [];
    }
  }

  /** The size of a chained block. */
  function ChainedSize(maxSize: nat): (n: nat)
    ensures maxSize % WORD == 0 ==> n == SIZE_POOL_DATA + maxSize
  {
    Align(SIZE_POOL_DATA + maxSize)
  }

  // ------------------------------------------------- what a request does, as values

  /** A request, and what posix_memalign returns if a new block is needed for it. */
  datatype Request = Request(size: nat, where: Option<nat>)

  /** The first block from number `i` on that has room, or the number of blocks. */
  function FirstFit(es: seq<Extent>, i: nat, size: nat): (k: nat)
    requires i <= |es|
    ensures i <= k <= |es|
    ensures forall j :: i <= j < k ==> Room(es[j].end, es[j].last) < size
    ensures k < |es| ==> Room(es[k].end, es[k].last) >= size
    decreases |es| - i
  {
    if i == |es| || Room(es[i].end, es[i].last) >= size then i else FirstFit(es, i + 1, size)
  }

  /** The block that serves a request, or the number of blocks. */
  function Serving(es: seq<Extent>, size: nat): (k: nat)
    ensures k <= |es|
  {
    FirstFit(es, Start(|es|), size)
  }

  /** Block k gives `size` bytes, and the end of what the first block has given is aligned. */
  function Served(es: seq<Extent>, k: nat, size: nat): (r: seq<Extent>)
    requires k < |es|
    ensures |r| == |es|
  {
    var given := es[k := es[k].(last := es[k].last + size)];
    given[0 := given[0].(last := Align(given[0].last))]
  }

  /** A new block that has given `size` bytes. */
  function Added(maxSize: nat, p: nat, size: nat): Extent {
    Extent(p, p + ChainedSize(maxSize), Align(p + SIZE_POOL + size))
  }

  function After(es: seq<Extent>, maxSize: nat, c: Request): seq<Extent> {
    var k := Serving(es, c.size);
    if c.size > maxSize then es
    else if k < |es| then Served(es, k, c.size)
    else if c.where.None? then es
    else es + [Added(maxSize, c.where.value, c.size)]
  }

  function Answer(es: seq<Extent>, maxSize: nat, c: Request): Option<nat> {
    var k := Serving(es, c.size);
    if c.size > maxSize then None
    else if k < |es| then Some(es[k].last)
    else if c.where.None? then None
    else Some(c.where.value + SIZE_POOL)
  }

  /** The region of an answer. */
  function Handed(es: seq<Extent>, maxSize: nat, c: Request): seq<Region> {
    var m := Answer(es, maxSize, c);
    if m.None? then [] else [Region(m.value, c.size, Serving(es, c.size))]
  }

  /** The request gets a new block. */
  predicate Chains(es: seq<Extent>, maxSize: nat, c: Request) {
    c.size <= maxSize && Serving(es, c.size) == |es| && c.where.Some?
  }

  /** And runs past its end. */
  predicate Overruns(es: seq<Extent>, maxSize: nat, c: Request) {
    Chains(es, maxSize, c) && c.size > maxSize - 16
  }

  function AfterAll(es: seq<Extent>, maxSize: nat, cs: seq<Request>): seq<Extent>
    decreases |cs|
  {
    if cs == [] then es else AfterAll(After(es, maxSize, cs[0]), maxSize, cs[1..])
  }

  function Answers(es: seq<Extent>, maxSize: nat, cs: seq<Request>): (r: seq<Option<nat>>)
    ensures |r| == |cs|
    decreases |cs|
  {
    if cs == [] then [] else [Answer(es, maxSize, cs[0])] + Answers(After(es, maxSize, cs[0]), maxSize, cs[1..])
  }

  function HandedAll(es: seq<Extent>, maxSize: nat, cs: seq<Request>): seq<Region>
    decreases |cs|
  {
    if cs == [] then [] else Handed(es, maxSize, cs[0]) + HandedAll(After(es, maxSize, cs[0]), maxSize, cs[1..])
  }

  // What these functions say, without naming them.

  /**
   Serving from block k: its end moves by exactly the size; the end of what the first
   block has given is then the next multiple of 8; every other block stays as it is.
   */
  lemma {:induction false} ServedExactly(es: seq<Extent>, k: nat, size: nat)
    requires k < |es|
    ensures var now := Served(es, k, size); var last := es[0].last + if k == 0 then size else 0;
      now[0].last % 8 == 0 && last <= now[0].last < last + 8 &&
      (k > 0 ==> now[k].last == es[k].last + size) &&
      (forall i :: 0 < i < |es| && i != k ==> now[i] == es[i]) &&
      forall i :: 0 <= i < |es| ==> now[i].base == es[i].base && now[i].end == es[i].end
  {
  }

  /**
   A new block at p: 32 bytes more than max_size, up to a multiple of 8, of which the 48
   bytes of a header and the request are taken, up to a multiple of 8.
   */
  lemma {:induction false} AddedExactly(maxSize: nat, p: nat, size: nat)
    ensures var e := Added(maxSize, p, size);
      e.base == p && (e.end - p) % 8 == 0 && 32 + maxSize <= e.end - p < 40 + maxSize &&
      e.last % 8 == 0 && p + 48 + size <= e.last < p + 56 + size
  {
  }

  /** The room of a block is the difference of two addresses as a number of 64 bits without sign. */
  lemma {:induction false} RoomExactly(end: nat, last: nat)
    requires end < 0x1_0000_0000_0000_0000 && last < 0x1_0000_0000_0000_0000
    ensures 0 <= Room(end, last) == (end - last) % 0x1_0000_0000_0000_0000
  {
  }

  /** An answer: the end of the first block, of the last six, whose room is enough; else 48 bytes into a new block. */
  lemma {:induction false} AnswerExactly(es: seq<Extent>, maxSize: nat, c: Request, k: nat)
    requires (if |es| > 6 then |es| - 6 else 0) <= k <= |es|
    requires forall j :: (if |es| > 6 then |es| - 6 else 0) <= j < k ==> Room(es[j].end, es[j].last) < c.size
    requires k < |es| ==> Room(es[k].end, es[k].last) >= c.size
    ensures Answer(es, maxSize, c) ==
      if c.size > maxSize then None
      else if k < |es| then Some(es[k].last)
      else if c.where.Some? then Some(c.where.value + 48)
      else None
    ensures |After(es, maxSize, c)| == |es| + if c.size <= maxSize && k == |es| && c.where.Some? then 1 else 0
  {
    assert Serving(es, c.size) == k;
  }

  /** Every region of the first block starts at a multiple of 8, over every run. */
  lemma {:induction false} FirstBlockAligned(es: seq<Extent>, maxSize: nat, cs: seq<Request>)
    requires es != [] && es[0].last % 8 == 0
    ensures AfterAll(es, maxSize, cs) != [] && AfterAll(es, maxSize, cs)[0].last % 8 == 0
    ensures forall r :: r in HandedAll(es, maxSize, cs) && r.block == 0 ==> r.addr % 8 == 0
    decreases |cs|
  {
    if cs != [] {
      var c, now := cs[0], After(es, maxSize, cs[0]);
      var k := Serving(es, c.size);
      if k < |es| { ServedExactly(es, k, c.size); }
      assert now != [] && now[0].last % 8 == 0;
      assert forall r :: r in Handed(es, maxSize, c) && r.block == 0 ==> r.addr == es[0].last;
      FirstBlockAligned(now, maxSize, cs[1..]);
    }
  }

  /** No request of a run runs past the end of its block. */
  predicate Tame(es: seq<Extent>, maxSize: nat, cs: seq<Request>)
    decreases |cs|
  {
    cs != [] ==> !Overruns(es, maxSize, cs[0]) && Tame(After(es, maxSize, cs[0]), maxSize, cs[1..])
  }

  /** Whenever a block is needed, posix_memalign gives one apart from the others. */
  ghost predicate Granted(es: seq<Extent>, maxSize: nat, cs: seq<Request>)
    decreases |cs|
  {
    cs != [] ==>
      (Chains(es, maxSize, cs[0]) ==> Usable(es, maxSize, cs[0].where.value)) &&
      Granted(After(es, maxSize, cs[0]), maxSize, cs[1..])
  }

  /** Some block has been run past its end. */
  ghost predicate Overrun(es: seq<Extent>) {
    exists i :: 0 <= i < |es| && es[i].end < es[i].last
  }

  lemma {:induction false} OverrunStays(es: seq<Extent>, maxSize: nat, c: Request)
    requires Overrun(es)
    ensures Overrun(After(es, maxSize, c)) && !Placed(es, maxSize)
  {
    hide Room, Align, ChainedSize;
    var i :| 0 <= i < |es| && es[i].end < es[i].last;
    var now := After(es, maxSize, c);
    LastGrows(es, maxSize, c, i);
    assert now[i].end < now[i].last;
  }

  lemma {:induction false} LastGrows(es: seq<Extent>, maxSize: nat, c: Request, i: nat)
    requires i < |es|
    ensures var now := After(es, maxSize, c);
      |now| >= |es| && now[i].end == es[i].end && es[i].last <= now[i].last
    ensures 0 < i && c.size <= maxSize && Serving(es, c.size) < |es| ==>
      After(es, maxSize, c)[i].last <= es[i].last + c.size
  {
  }

  /** One request on a valid pool: regions stay inside and apart exactly if it does not overrun a new block. */
  lemma {:induction false} Steady(es: seq<Extent>, regions: seq<Region>, maxSize: nat, c: Request)
    requires Placed(es, maxSize) && Given(es, regions)
    requires Chains(es, maxSize, c) ==> Usable(es, maxSize, c.where.value)
    ensures var now := After(es, maxSize, c);
      if Overruns(es, maxSize, c) then Overrun(now)
      else Placed(now, maxSize) && Given(now, regions + Handed(es, maxSize, c))
  {
    hide Placed, Given, Usable, Align, ChainedSize, Room;
    var k := Serving(es, c.size);
    assert regions + [] == regions;
    if Chains(es, maxSize, c) {
      NewExtent(es, regions, maxSize, c.where.value, c.size);
      var now := es + [Added(maxSize, c.where.value, c.size)];
      assert now[|es|] == Added(maxSize, c.where.value, c.size);
    } else if c.size <= maxSize && k < |es| {
      ServedGrown(es, maxSize, k, c.size);
      TakeStep(es, Served(es, k, c.size), regions, maxSize, k, c.size);
    }
  }

  lemma {:induction false} ServedGrown(es: seq<Extent>, maxSize: nat, k: nat, size: nat)
    requires Placed(es, maxSize) && k < |es| && Room(es[k].end, es[k].last) >= size
    ensures Grown(es, Served(es, k, size), k, size)
  {
    var given := es[k := es[k].(last := es[k].last + size)];
    AlignBelow(given[0].last, given[0].end);
  }

  /** The sizes of a run of requests together. */
  function Total(cs: seq<Request>): nat {
    if cs == [] then 0 else cs[0].size + Total(cs[1..])
  }

  /**
   Once the last block has been overrun no request fails any more and no block is
   added, as long as the requests do not use up the addresses.
   */
  lemma {:induction false} NeverFull(es: seq<Extent>, maxSize: nat, cs: seq<Request>)
    requires |es| > 1 && es[|es| - 1].end < es[|es| - 1].last
    requires es[|es| - 1].last - es[|es| - 1].end + Total(cs) + maxSize <= SIZES
    requires forall i :: 0 <= i < |cs| ==> cs[i].size <= maxSize
    ensures |AfterAll(es, maxSize, cs)| == |es|
    ensures forall i :: 0 <= i < |cs| ==> Answers(es, maxSize, cs)[i].Some?
    decreases |cs|
  {
    if cs != [] {
      hide Align;
      var j, c, now := |es| - 1, cs[0], After(es, maxSize, cs[0]);
      assert Room(es[j].end, es[j].last) >= c.size;
      assert Serving(es, c.size) <= j;
      LastGrows(es, maxSize, c, j);
      NeverFull(now, maxSize, cs[1..]);
    }
  }

  /** What posix_memalign may return for a chained block. */
  ghost predicate Usable(es: seq<Extent>, maxSize: nat, p: nat) {
    p % WORD == 0 &&
    forall i :: 0 <= i < |es| && es[i].base <= es[i].end ==>
      Apart(es[i].base, es[i].end - es[i].base, p, ChainedSize(maxSize))
  }

  /** The end of block k moves, and the one of the first block is aligned. */
  method Advance(p: Block, data: Block, size: nat, ghost bs: seq<Block>, ghost k: nat)
    requires k < |bs| && p == bs[k] && data == bs[0] && Distinct(bs)
    modifies p`last, data`last
    ensures ExtentsOf(bs) == Served(old(ExtentsOf(bs)), k, size)
  {
    ExtentsAre(bs);
    p.last := p.last + size;
    data.last := Align(data.last);
    ExtentsAre(bs);
  }

  /** Serving a request from a block. */
  method Take(pool: Pool, p: Block, size: nat, ghost k: nat) returns (m: nat)
    requires pool.Chained() && k < |pool.blocks| && p == pool.blocks[k]
    modifies pool`regions, pool.blocks`last
    ensures pool.Chained() && m == old(p.last) == old(ExtentsOf(pool.blocks))[k].last
    ensures ExtentsOf(pool.blocks) == Served(old(ExtentsOf(pool.blocks)), k, size)
    ensures pool.regions == old(pool.regions) + [Region(m, size, k)]
  {
    hide Distinct, Counted, Linked, ExtentsOf, Served;
    ExtentAt(pool.blocks, k);
    m := p.last;
    Advance(p, pool.data, size, pool.blocks, k);
    pool.regions := pool.regions + [Region(m, size, k)];
  }

  lemma {:induction false} ExtentAt(bs: seq<Block>, i: nat)
    requires i < |bs|
    ensures ExtentsOf(bs)[i] == Extent(bs[i].base, bs[i].end, bs[i].last)
  {
    ExtentsAre(bs);
  }

  /** One count more in front of the walk. */
  method Raise(iter: Block, ghost bs: seq<Block>, ghost n: nat, ghost c: nat, ghost i: nat)
    requires Distinct(bs) && i < |bs| && iter == bs[i] && c <= i && Counted(bs, n, c, i)
    modifies iter`failed
    ensures Counted(bs, n, c, i + 1)
  {
    iter.failed := iter.failed + 1;
  }

  /** Raising all counts from the start to the last but one block gives those of a longer chain. */
  lemma {:induction false} Raised(bs: seq<Block>, block: Block)
    requires bs != [] && block.failed == 0 && Counted(bs, |bs|, Start(|bs|), |bs| - 1)
    ensures Counted(bs + [block], |bs| + 1, 0, 0)
  {
  }

  /** The loop that hangs a new block into the chain. */
  method Hang(pool: Pool, block: Block)
    requires pool.Chained() && block !in pool.blocks && block.failed == 0 && block.next == null
    modifies pool`current, pool`blocks, pool.blocks`failed, pool.blocks`next
    ensures pool.Chained() && pool.blocks == old(pool.blocks) + [block]
    ensures ExtentsOf(pool.blocks) == old(ExtentsOf(pool.blocks)) + [Extent(block.base, block.end, block.last)]
  {
    hide Counted, Distinct, Linked, ExtentsOf;
    ghost var bs, n := pool.blocks, |pool.blocks|;
    ghost var c := Start(n);
    var iter := pool.current;
    ghost var i := c;
    NothingRaised(bs, n, c);
    while iter.next != null
      invariant Linked(bs) && Distinct(bs) && Counted(bs, n, c, i)
      invariant c <= i < n && iter == bs[i] && pool.current == bs[if i > c then Start(n + 1) else c]
      invariant block.failed == 0 && block.next == null
      decreases n - i
    {
      NextAt(bs, i);
      CountAt(bs, n, c, i);
      Raise(iter, bs, n, c, i);
      if iter.failed > 4 {
        pool.current := iter.next;
      }
      iter := iter.next;
      i := i + 1;
    }
    NextAt(bs, i);
    Raised(bs, block);
    Append(iter, block, bs);
    pool.blocks := bs + [block];
    Longer(bs, block);
    ExtentsAppend(bs, block);
  }

  method Append(iter: Block, block: Block, ghost bs: seq<Block>)
    requires bs != [] && Linked(bs) && Distinct(bs) && iter == bs[|bs| - 1] && block !in bs && block.next == null
    modifies iter`next
    ensures Linked(bs + [block])
  {
    iter.next := block;
  }

  lemma {:induction false} NextAt(bs: seq<Block>, i: nat)
    requires Linked(bs) && i < |bs|
    ensures bs[i].next == NextOf(bs, i)
  {
  }

  lemma {:induction false} NothingRaised(bs: seq<Block>, n: nat, c: nat)
    requires Counted(bs, n, 0, 0)
    ensures Counted(bs, n, c, c)
  {
  }

  lemma {:induction false} CountAt(bs: seq<Block>, n: nat, c: nat, i: nat)
    requires Counted(bs, n, c, i) && i < |bs| && c <= i
    ensures bs[i].failed == Failures(n, i)
  {
  }

  lemma {:induction false} Longer(bs: seq<Block>, block: Block)
    requires Distinct(bs) && block !in bs
    ensures Distinct(bs + [block])
  {
  }

  /** A chained block has 16 bytes less room than the largest request. */
  lemma {:induction false} NewExtent(es: seq<Extent>, regions: seq<Region>, maxSize: nat, p: nat, size: nat)
    requires Placed(es, maxSize) && Given(es, regions) && Usable(es, maxSize, p)
    ensures var e := Added(maxSize, p, size);
      (e.last <= e.end <==> size <= maxSize - 16) &&
      (e.last <= e.end ==>
        Placed(es + [e], maxSize) && Given(es + [e], regions + [Region(p + SIZE_POOL, size, |es|)]))
  {
    var e := Added(maxSize, p, size);
    NewEnd(maxSize, p, size);
    if size <= maxSize - 16 {
      NewPlaced(es, maxSize, e);
      NewGiven(es, regions, maxSize, e, size);
    }
  }

  lemma {:induction false} NewEnd(maxSize: nat, p: nat, size: nat)
    requires maxSize % WORD == 0 && p % WORD == 0
    ensures var e := Added(maxSize, p, size);
      (e.last <= e.end <==> size <= maxSize - 16) && e.base + SIZE_POOL + size <= e.last && e.end % WORD == 0
  {
    hide Align;
    var end := p + ChainedSize(maxSize);
    assert end == p + 32 + maxSize && end % WORD == 0;
    hide ChainedSize;
    if size <= maxSize - 16 {
      AlignBelow(p + SIZE_POOL + size, end);
    }
  }

  lemma {:induction false} NewPlaced(es: seq<Extent>, maxSize: nat, e: Extent)
    requires Placed(es, maxSize) && Usable(es, maxSize, e.base) && e.end == e.base + ChainedSize(maxSize)
    requires e.end % WORD == 0 && e.base + SIZE_POOL <= e.last <= e.end
    ensures Placed(es + [e], maxSize)
  {
    hide ChainedSize;
  }

  lemma {:induction false} NewGiven(es: seq<Extent>, regions: seq<Region>, maxSize: nat, e: Extent, size: nat)
    requires Placed(es, maxSize) && Given(es, regions) && Usable(es, maxSize, e.base)
    requires e.end == e.base + ChainedSize(maxSize) && e.base + SIZE_POOL + size <= e.last <= e.end
    ensures Given(es + [e], regions + [Region(e.base + SIZE_POOL, size, |es|)])
  {
    var all := regions + [Region(e.base + SIZE_POOL, size, |es|)];
    forall r | 0 <= r < |regions|
      ensures Inside(all[r], es + [e]) && Apart(all[r].addr, all[r].size, e.base + SIZE_POOL, size)
    {
      assert Inside(regions[r], es);
    }
  }

  /** lts_palloc_block; `p` is what posix_memalign returns. */
  method PallocBlock(pool: Pool, size: nat, p: nat) returns (m: nat, ghost block: Block)
    requires pool.Chained() && Usable(ExtentsOf(pool.blocks), pool.maxSize, p)
    modifies pool, pool.blocks`failed, pool.blocks`next
    ensures pool.Chained() && m == p + SIZE_POOL && fresh(block)
    ensures pool.blocks == old(pool.blocks) + [block] && block.base == p
    ensures ExtentsOf(pool.blocks) == old(ExtentsOf(pool.blocks)) + [Added(pool.maxSize, p, size)]
    ensures pool.regions == old(pool.regions) + [Region(m, size, |old(pool.blocks)|)]
    ensures old(pool.Valid()) ==> (pool.Valid() <==> size <= pool.maxSize - 16)
  {
    hide Placed, Given, Counted, Linked, Distinct, Usable, Align, ChainedSize, Failures, ExtentsOf;
    ghost var n, es, regions := |pool.blocks|, ExtentsOf(pool.blocks), pool.regions;
    if old(pool.Valid()) {
      NewExtent(es, regions, pool.maxSize, p, size);
    }
    m, block := ServeNew(pool, size, p);
    pool.regions := regions + [Region(m, size, n)];
    LastEnd(es + [Added(pool.maxSize, p, size)], pool.maxSize);
  }

  method ServeNew(pool: Pool, size: nat, p: nat) returns (m: nat, ghost block: Block)
    requires pool.Chained() && Usable(ExtentsOf(pool.blocks), pool.maxSize, p)
    modifies pool`current, pool`blocks, pool.blocks`failed, pool.blocks`next
    ensures pool.Chained() && m == p + SIZE_POOL && fresh(block)
    ensures pool.blocks == old(pool.blocks) + [block] && block.base == p
    ensures ExtentsOf(pool.blocks) == old(ExtentsOf(pool.blocks)) + [Added(pool.maxSize, p, size)]
  {
    var psize := Align(SIZE_POOL_DATA + pool.maxSize);
    assert psize == ChainedSize(pool.maxSize);
    hide Counted, Linked, Distinct, Usable, Align, ChainedSize, Failures, ExtentsOf, Start, NextOf, Pool.Chained;
    WordAligned(ExtentsOf(pool.blocks), pool.maxSize, p);
    var added;
    added, m := NewBlock(p, psize, size);
    block := added;
    Hang(pool, added);
  }

  /** A new block, from which the request is served at once. */
  method NewBlock(p: nat, psize: nat, size: nat) returns (block: Block, m: nat)
    requires Align(p + SIZE_POOL) == p + SIZE_POOL
    ensures fresh(block) && block.failed == 0 && block.next == null && m == p + SIZE_POOL
    ensures block.base == p && block.end == p + psize && block.last == Align(p + SIZE_POOL + size)
  {
    block := new Block(p, p + psize, Align(p + SIZE_POOL));
    m := block.last;
    block.last := block.last + size;
    block.last := Align(block.last);
  }

  lemma {:induction false} WordAligned(es: seq<Extent>, maxSize: nat, p: nat)
    requires Usable(es, maxSize, p)
    ensures Align(p + SIZE_POOL) == p + SIZE_POOL
  {
  }

  lemma {:induction false} ExtentsAppend(bs: seq<Block>, block: Block)
    ensures ExtentsOf(bs + [block]) == ExtentsOf(bs) + [Extent(block.base, block.end, block.last)]
  {
    ExtentsAre(bs + [block]);
    ExtentsAre(bs);
  }

  lemma {:induction false} LastEnd(es: seq<Extent>, maxSize: nat)
    requires es != []
    ensures Placed(es, maxSize) ==> es[|es| - 1].last <= es[|es| - 1].end
  {
  }

  /**
   lts_palloc, on any pool; on a valid one the regions stay inside their blocks and
   apart exactly if the request does not overrun a new block.
   */
  method Palloc(pool: Pool, c: Request) returns (m: Option<nat>, ghost inspected: nat)
    requires pool.Chained()
    requires var es := ExtentsOf(pool.blocks);
      Chains(es, pool.maxSize, c) ==> Usable(es, pool.maxSize, c.where.value)
    modifies pool, pool.blocks
    ensures pool.Chained() && inspected <= 6
    ensures m == Answer(old(ExtentsOf(pool.blocks)), pool.maxSize, c)
    ensures ExtentsOf(pool.blocks) == After(old(ExtentsOf(pool.blocks)), pool.maxSize, c)
    ensures pool.regions == old(pool.regions) + Handed(old(ExtentsOf(pool.blocks)), pool.maxSize, c)
    ensures old(pool.Valid()) ==> (pool.Valid() <==> !Overruns(old(ExtentsOf(pool.blocks)), pool.maxSize, c))
    ensures old(Overrun(ExtentsOf(pool.blocks))) || (old(pool.Valid()) && !pool.Valid()) ==>
      Overrun(ExtentsOf(pool.blocks))
    ensures forall i :: 0 <= i < |pool.blocks| ==> pool.blocks[i] in old(pool.blocks) || fresh(pool.blocks[i])
  {
    ghost var es, regions := ExtentsOf(pool.blocks), pool.regions;
    hide Placed, Given, Counted, Linked, Distinct, Usable, ExtentsOf, FirstFit, Served, Overrun;
    if old(pool.Valid()) {
      Steady(es, regions, pool.maxSize, c);
      OverrunNotPlaced(After(es, pool.maxSize, c), pool.maxSize);
    }
    if Overrun(es) {
      OverrunStays(es, pool.maxSize, c);
    }
    m, inspected := Allot(pool, c);
  }

  lemma {:induction false} OverrunNotPlaced(es: seq<Extent>, maxSize: nat)
    ensures Overrun(es) ==> !Placed(es, maxSize)
  {
  }

  method Allot(pool: Pool, c: Request) returns (m: Option<nat>, ghost inspected: nat)
    requires pool.Chained()
    requires var es := ExtentsOf(pool.blocks);
      Chains(es, pool.maxSize, c) ==> Usable(es, pool.maxSize, c.where.value)
    modifies pool, pool.blocks
    ensures pool.Chained() && inspected <= 6
    ensures m == Answer(old(ExtentsOf(pool.blocks)), pool.maxSize, c)
    ensures ExtentsOf(pool.blocks) == After(old(ExtentsOf(pool.blocks)), pool.maxSize, c)
    ensures pool.regions == old(pool.regions) + Handed(old(ExtentsOf(pool.blocks)), pool.maxSize, c)
    ensures forall i :: 0 <= i < |pool.blocks| ==> pool.blocks[i] in old(pool.blocks) || fresh(pool.blocks[i])
  {
    hide Placed, Given, Counted, Linked, Distinct, Usable, ExtentsOf, FirstFit, Served;
    inspected := 0;
    assert pool.regions + [] == pool.regions;
    if c.size > pool.maxSize {
      return None, 0;
    }
    var p;
    ghost var k;
    p, k, inspected := Search(pool, c.size);
    if p != null {
      var addr := Take(pool, p, c.size, k);
      return Some(addr), inspected;
    }
    if c.where.None? {
      return None, inspected;
    }
    ghost var block;
    var addr;
    addr, block := PallocBlock(pool, c.size, c.where.value);
    return Some(addr), inspected;
  }

  /** The loop of lts_palloc: the first block that has room, from `current` on. */
  method Search(pool: Pool, size: nat) returns (p: Block?, ghost k: nat, ghost inspected: nat)
    requires pool.Chained()
    ensures k == Serving(ExtentsOf(pool.blocks), size) && inspected <= 6
    ensures p == if k < |pool.blocks| then pool.blocks[k] else null
  {
    hide Counted, Linked, Distinct, ExtentsOf, Room;
    ghost var n, es := |pool.blocks|, ExtentsOf(pool.blocks);
    k := Start(n);
    p := pool.current;
    inspected := 0;
    while p != null
      invariant Start(n) <= k <= n && inspected == k - Start(n)
      invariant FirstFit(es, k, size) == FirstFit(es, Start(n), size)
      invariant p == if k < n then pool.blocks[k] else null
      decreases n - k
    {
      inspected := inspected + 1;
      ExtentAt(pool.blocks, k);
      if Room(p.end, p.last) < size {
        NextAt(pool.blocks, k);
        p := p.next;
        k := k + 1;
        continue;
      }
      return;
    }
  }

  /**
   Any run of requests on any pool; from a valid one on, the regions stay inside their
   blocks and apart exactly if no request overruns a new block.
   */
  method Run(pool: Pool, cs: seq<Request>) returns (replies: seq<Option<nat>>)
    requires pool.Chained() && Granted(ExtentsOf(pool.blocks), pool.maxSize, cs)
    modifies pool, pool.blocks
    ensures pool.Chained() && replies == Answers(old(ExtentsOf(pool.blocks)), pool.maxSize, cs)
    ensures ExtentsOf(pool.blocks) == AfterAll(old(ExtentsOf(pool.blocks)), pool.maxSize, cs)
    ensures pool.regions == old(pool.regions) + HandedAll(old(ExtentsOf(pool.blocks)), pool.maxSize, cs)
    ensures old(pool.Valid()) ==> (pool.Valid() <==> Tame(old(ExtentsOf(pool.blocks)), pool.maxSize, cs))
    ensures old(Overrun(ExtentsOf(pool.blocks))) ==> Overrun(ExtentsOf(pool.blocks))
    decreases |cs|
  {
    hide Placed, Given, Counted, Linked, Distinct, Usable, ExtentsOf, Answer, After, Handed, Overruns, Overrun, Chains;
    replies := [];
    if cs == [] {
      assert pool.regions + [] == pool.regions;
    } else {
      ghost var es, regions := ExtentsOf(pool.blocks), pool.regions;
      ghost var inspected;
      var m;
      m, inspected := Palloc(pool, cs[0]);
      OverrunNotPlaced(ExtentsOf(pool.blocks), pool.maxSize);
      var rest := Run(pool, cs[1..]);
      OverrunNotPlaced(ExtentsOf(pool.blocks), pool.maxSize);
      replies := [m] + rest;
      ghost var now := After(es, pool.maxSize, cs[0]);
      Joined(regions, Handed(es, pool.maxSize, cs[0]), HandedAll(now, pool.maxSize, cs[1..]));
    }
  }

  /** A new pool of 4096 bytes, and requests of 5 and then 8 bytes: the second region is aligned. */
  method TwoRequests(p: nat) returns (first: Option<nat>, second: Option<nat>)
    requires p % 8 == 0
    ensures first == Some(p + 48) && second == Some(p + 56)
  {
    hide Pool.Chained, Pool.Valid, ExtentsOf, Answer, After, Chains, Overruns, Overrun;
    var pool := new Pool(4096, p);
    ExtentAt(pool.blocks, 0);
    assert ExtentsOf(pool.blocks) == [Extent(p, p + 4096, p + 48)];
    TwoAnswers(p);
    ghost var inspected;
    first, inspected := Palloc(pool, Request(5, None));
    second, inspected := Palloc(pool, Request(8, None));
  }

  lemma {:induction false} TwoAnswers(p: nat)
    requires p % 8 == 0
    ensures var es, c, d := [Extent(p, p + 4096, p + 48)], Request(5, None), Request(8, None);
      !Chains(es, 4048, c) && Answer(es, 4048, c) == Some(p + 48) &&
      !Chains(After(es, 4048, c), 4048, d) && Answer(After(es, 4048, c), 4048, d) == Some(p + 56)
  {
    var es, c := [Extent(p, p + 4096, p + 48)], Request(5, None);
    ServedExactly(es, 0, 5);
    assert Served(es, 0, 5)[0].last == p + 56;
    hide Served;
    var now := Served(es, 0, 5);
    assert After(es, 4048, c) == now;
    hide After;
    AnswerExactly(now, 4048, Request(8, None), 0);
  }

  lemma {:induction false} Joined(a: seq<Region>, b: seq<Region>, c: seq<Region>)
    ensures a + b + c == a + (b + c)
  {
  }

  /**
   What follows a request that runs past the end of its new block: no later request of
   a run fails, and no block is added.
   */
  method RunOver(pool: Pool, c: Request, later: seq<Request>) returns (replies: seq<Option<nat>>)
    requires pool.Valid() && Granted(ExtentsOf(pool.blocks), pool.maxSize, [c] + later)
    requires Overruns(ExtentsOf(pool.blocks), pool.maxSize, c)
    requires forall i :: 0 <= i < |later| ==> later[i].size <= pool.maxSize
    requires 16 + Total(later) + pool.maxSize <= SIZES
    modifies pool, pool.blocks
    ensures pool.Chained() && Overrun(ExtentsOf(pool.blocks)) && |pool.blocks| == |old(pool.blocks)| + 1
    ensures |replies| == |later| && forall i :: 0 <= i < |later| ==> replies[i].Some?
  {
    hide Placed, Given, Counted, Linked, Distinct, Usable, ExtentsOf, Align, ChainedSize, FirstFit, Answer, Room;
    ghost var es := ExtentsOf(pool.blocks);
    Beyond(es, pool.maxSize, c.where.value, c.size);
    ghost var inspected;
    var m;
    assert ([c] + later)[1..] == later;
    m, inspected := Palloc(pool, c);
    ghost var now := ExtentsOf(pool.blocks);
    assert now[|es|] == Added(pool.maxSize, c.where.value, c.size);
    NeverFull(now, pool.maxSize, later);
    replies := Run(pool, later);
  }

  lemma {:induction false} Beyond(es: seq<Extent>, maxSize: nat, p: nat, size: nat)
    requires Placed(es, maxSize) && Usable(es, maxSize, p) && maxSize - 16 < size <= maxSize
    ensures p + ChainedSize(maxSize) < Align(p + SIZE_POOL + size) <= p + ChainedSize(maxSize) + 16
  {
    AlignBelow(p + SIZE_POOL + size, p + SIZE_POOL + maxSize);
  }

  /** The end of a pool is within reach of the alignment exactly when its size is a multiple of the word size. */
  lemma {:induction false} OddEnd(p: nat, size: nat)
    requires p % WORD == 0
    ensures Align(p + size) <= p + size <==> size % WORD == 0
  {
  }

  /** However long the chain is, at most six blocks can be reached, and counts never increase along it. */
  lemma {:induction false} Reachable(pool: Pool)
    requires pool.Chained()
    ensures exists c :: StartsAt(pool, c)
    ensures forall i, j :: 0 <= i < j < |pool.blocks| ==> pool.blocks[i].failed >= pool.blocks[j].failed
  {
    assert StartsAt(pool, Start(|pool.blocks|));
  }

  /** The search starts at block c: at most six blocks are left, and the ones before have failed five times. */
  ghost predicate StartsAt(pool: Pool, c: int)
    reads pool, pool.blocks`failed
  {
    0 <= c < |pool.blocks| <= c + 6 && pool.current == pool.blocks[c] &&
    forall i :: 0 <= i < |pool.blocks| ==> (i < c <==> pool.blocks[i].failed == 5)
  }
}
