/**
 The session table of src/modules/mod_app_p2p_fsm.c: slots that move between a
 list of free ones and a list of used ones, a map from session keys to used
 slots, and the links between sessions and connections.
 */
module Sessions {
  import opened Dlist

  /** The hash of a session name; two names with one hash are one session. */
  type Key = k: nat | k < 0x1_0000_0000_0000_0000

  /** lts_socket_t; `appCtx` is the slot the connection last logged in to, or -1. */
  class Socket {
    var appCtx: int
    ghost var open: bool

    constructor ()
      ensures appCtx == -1 && open
    {
      appCtx := -1;
      open := true;
    }
  }

  /** tcp_session_t without the fields that are about NAT. */
  class TcpSession {
    var conn: Socket?
    var key: Key

    constructor ()
      ensures conn == null
    {
      conn := null;
      key := 0;
    }
  }

  /** The sessions with their connections, and how many more can be opened. */
  datatype View = View(bound: map<Key, Socket?>, free: int)

  ghost function Seen(sessions: map<Key, int>, conns: seq<Socket?>, free: int): View {
    View(map k | k in sessions && 0 <= sessions[k] < |conns| :: conns[sessions[k]], free)
  }

  datatype Reply = Success | ServerFailed | NotExist | InvalidArg

  type Links = seq<DNode<int>>

  ghost predicate Disjoint(a: Links, b: Links) {
    forall i, j :: 0 <= i < |a| && 0 <= j < |b| ==> a[i] != b[j]
  }

  /** Each slot's list node is on exactly one of the two lists. */
  ghost predicate Split(nodes: Links, cache: Links, used: Links) {
    (forall i :: 0 <= i < |nodes| ==> (nodes[i] in cache) != (nodes[i] in used)) &&
    (forall k :: 1 <= k < |cache| ==> IsSlot(nodes, cache[k])) &&
    (forall k :: 1 <= k < |used| ==> IsSlot(nodes, used[k])) &&
    |cache| - 1 + |used| - 1 == |nodes|
  }

  ghost predicate IsSlot(nodes: Links, d: DNode<int>) {
    0 <= d.owner < |nodes| && nodes[d.owner] == d
  }

  class Table {
    const slots: seq<TcpSession>
    /** The `dlnode` of each slot. */
    const nodes: Links
    const cacheHead: DNode<int>
    const useHead: DNode<int>
    var sessions: map<Key, int>
    /** The two lists, from the head on. */
    ghost var cache: Links
    ghost var used: Links

    ghost predicate Lists()
      reads `cache, `used, cache, used
    {
      Ring(cache) && cache[0] == cacheHead && Ring(used) && used[0] == useHead &&
      Disjoint(cache, used) && cacheHead !in nodes && useHead !in nodes
    }

    ghost predicate Slots()
      reads this
    {
      |slots| == |nodes| && Distinct(slots) && Distinct(nodes) &&
      (forall i :: 0 <= i < |nodes| ==> nodes[i].owner == i) && Split(nodes, cache, used)
    }

    /** The used slots are exactly the members of the map. */
    ghost predicate Mapped()
      requires |slots| == |nodes|
      reads this, slots
    {
      (forall k :: k in sessions ==>
        0 <= sessions[k] < |slots| && nodes[sessions[k]] in used && slots[sessions[k]].key == k) &&
      (forall i :: 0 <= i < |slots| && nodes[i] in used ==> slots[i].key in sessions && sessions[slots[i].key] == i)
    }

    ghost predicate Valid()
      reads this, slots, cache, used
    {
      Lists() && Slots() && Mapped()
    }

    /** The table of init_p2p_fsm_module, from the free slots. */
    constructor (ss: seq<TcpSession>, ns: Links, ch: DNode<int>, uh: DNode<int>)
      requires |ss| == |ns| && Distinct(ss) && Ring([ch] + ns) && Ring([uh]) && uh !in [ch] + ns
      requires forall i :: 0 <= i < |ns| ==> ns[i].owner == i
      ensures Valid() && slots == ss && nodes == ns && sessions == map[] && used == [uh] && cache == [ch] + ns
    {
      slots, nodes, cacheHead, useHead := ss, ns, ch, uh;
      cache, used, sessions := [ch] + ns, [uh], map[];
      new;
      AllFree(ch, ns, uh);
    }

    /** A used session that has a connection is the one the open connection knows. */
    ghost predicate Bound(socks: set<Socket>)
      requires |slots| == |nodes|
      reads this, slots, socks
    {
      forall i :: 0 <= i < |slots| && nodes[i] in used && slots[i].conn != null ==>
        slots[i].conn in socks && slots[i].conn.open && slots[i].conn.appCtx == i
    }

    /** No used session but the one with this key has the connection. */
    ghost predicate OneLogin(s: Socket, key: Key)
      requires |slots| == |nodes|
      reads this, slots
    {
      forall i :: 0 <= i < |slots| && nodes[i] in used && slots[i].conn == s ==> slots[i].key == key
    }

    /** The table as a finite map from keys to connections, and the number of free slots. */
    ghost function Abstract(): View
      requires Valid()
      reads this, slots, cache, used
    {
      Seen(sessions, Conns(), |cache| - 1)
    }

    ghost function Conns(): (conns: seq<Socket?>)
      reads slots
      ensures |conns| == |slots| && forall i :: 0 <= i < |slots| ==> conns[i] == slots[i].conn
    {
      seq(|slots|, i requires 0 <= i < |slots| reads slots => slots[i].conn)
    }

    /** No slot but i has changed. */
    twostate predicate OthersSame(i: int)
      reads slots
    {
      forall j :: 0 <= j < |slots| && j != i ==>
        slots[j].conn == old(slots[j].conn) && slots[j].key == old(slots[j].key)
    }

    /** The list part of alloc_ts_instance: the slot, or -1. */
    method TakeSlot() returns (ts: int)
      requires Lists() && Slots()
      modifies this`cache, this`used, cache, used
      ensures Lists() && Slots()
      ensures ts == -1 <==> |old(cache)| == 1
      ensures ts == -1 ==> cache == old(cache) && used == old(used)
      ensures ts != -1 ==> 0 <= ts < |slots| && nodes[ts] !in old(used) && used == old(used) + [nodes[ts]]
      // the first free slot
      ensures ts != -1 ==> nodes[ts] == old(cache)[1] && cache == old(cache)[..1] + old(cache)[2..]
      ensures ts != -1 ==> forall i :: 0 <= i < |nodes| ==> (nodes[i] in used <==> nodes[i] in old(used) || i == ts)
    {
      hide Ring, Distinct, Split;
      HeadIn(cache);
      HeadIn(used);
      var empty := Empty(cacheHead, cache);
      if empty {
        return -1;
      }
      SecondIsNext(cache);
      var d := cacheHead.next;
      ts := d.owner;
      SlotAt(nodes, cache, used, 1);
      MoveSlot(nodes, cache, used, 1);
      Move(d, cache, useHead, used, 1);
      WithOne(nodes, used, ts);
      cache, used := cache[..1] + cache[2..], used + [d];
    }

    /** The list part of free_ts_instance. */
    method PutSlot(ts: int)
      requires Lists() && Slots() && 0 <= ts < |slots| && nodes[ts] in used
      modifies this`cache, this`used, cache, used
      ensures Lists() && Slots() && cache == old(cache) + [nodes[ts]]
      ensures forall i :: 0 <= i < |nodes| ==> (nodes[i] in used <==> nodes[i] in old(used) && i != ts)
    {
      hide Ring, Distinct, Split;
      HeadIn(cache);
      HeadIn(used);
      ghost var k :| 0 <= k < |used| && used[k] == nodes[ts];
      SplitSwap(nodes, cache, used);
      MoveSlot(nodes, used, cache, k);
      WithoutOne(nodes, used, k, ts);
      Move(nodes[ts], used, cacheHead, cache, k);
      used, cache := used[..k] + used[k + 1..], cache + [nodes[ts]];
      SplitSwap(nodes, used, cache);
    }

    /** ts_change_skt */
    method ChangeSkt(ts: int, s: Socket)
      requires 0 <= ts < |slots| && Distinct(slots)
      modifies slots[ts], s`appCtx
      ensures slots[ts].conn == s && slots[ts].key == old(slots[ts].key) && s.appCtx == ts && OthersSame(ts)
    {
      slots[ts].conn := s;
      s.appCtx := ts;
    }

    /** __tcp_session_init */
    method InitSlot(ts: int, s: Socket, key: Key)
      requires 0 <= ts < |slots| && Distinct(slots)
      modifies slots[ts], s`appCtx
      ensures slots[ts].conn == s && slots[ts].key == key && s.appCtx == ts && OthersSame(ts)
    {
      slots[ts].key := key;
      slots[ts].conn := s;
      s.appCtx := ts;
    }

    /** Mapped, but for one used slot that is not in the map yet. */
    ghost predicate MappedBut(ts: int)
      requires |slots| == |nodes|
      reads this, slots
    {
      (forall k :: k in sessions ==>
        0 <= sessions[k] < |slots| && sessions[k] != ts && nodes[sessions[k]] in used && slots[sessions[k]].key == k) &&
      (forall i :: 0 <= i < |slots| && i != ts && nodes[i] in used ==>
        slots[i].key in sessions && sessions[slots[i].key] == i)
    }

    /** __tcp_session_init and lts_rbmap_add */
    method Enter(ts: int, s: Socket, key: Key)
      requires Lists() && Slots() && 0 <= ts < |slots| && nodes[ts] in used && MappedBut(ts) && key !in sessions
      modifies this`sessions, slots[ts], s`appCtx
      ensures Valid() && sessions == old(sessions)[key := ts]
      ensures slots[ts].conn == s && s.appCtx == ts && OthersSame(ts)
    {
      hide Ring, Distinct, Split, Disjoint, Table.Lists;
      InitSlot(ts, s, key);
      sessions := sessions[key := ts];
    }

    /** A key that has no session yet gets a slot: alloc_ts_instance and lts_rbmap_add. */
    method Register(s: Socket, key: Key) returns (ts: int)
      requires Valid() && key !in sessions
      modifies this`cache, this`used, this`sessions, cache, used, slots, s`appCtx
      ensures Valid() && OthersSame(ts)
      ensures ts == -1 <==> |old(cache)| == 1
      ensures |cache| == if ts == -1 then |old(cache)| else |old(cache)| - 1
      ensures ts == -1 ==> sessions == old(sessions) && used == old(used) && s.appCtx == old(s.appCtx)
      ensures ts != -1 ==> 0 <= ts < |slots| && sessions == old(sessions)[key := ts] && nodes[ts] !in old(used)
      ensures ts != -1 ==> slots[ts].conn == s && s.appCtx == ts && used == old(used) + [nodes[ts]]
    {
      hide Ring, Distinct, Split, Disjoint, Table.Lists;
      CacheHead();
      ts := TakeSlot();
      if ts != -1 {
        Enter(ts, s, key);
      }
    }

    lemma {:induction false} CacheHead()
      requires Lists()
      ensures cache != []
    {
    }

    /** The interface `login`; `kicked` is the connection whose closing is scheduled. */
    method Login(s: Socket, key: Key, ghost socks: set<Socket>) returns (r: Reply, kicked: Socket?)
      requires Valid()
      modifies this`cache, this`used, this`sessions, cache, used, slots, s`appCtx
      ensures Valid() && forall k :: k in old(sessions) ==> k in sessions && sessions[k] == old(sessions)[k]
      ensures r == if key in old(sessions) || |old(cache)| > 1 then Success else ServerFailed
      ensures r == ServerFailed ==>
        sessions == old(sessions) && used == old(used) && s.appCtx == old(s.appCtx) && OthersSame(-1)
      ensures r == Success ==>
        sessions.Keys == old(sessions).Keys + {key} && slots[sessions[key]].conn == s && OthersSame(sessions[key])
      // the connection points to the session, unless the session had it already
      ensures r == Success ==>
        s.appCtx == if key in old(sessions) && old(slots[sessions[key]].conn) == s then old(s.appCtx) else sessions[key]
      ensures key in old(sessions) ==> used == old(used)
      ensures r == Success && key !in old(sessions) ==>
        nodes[sessions[key]] !in old(used) && used == old(used) + [nodes[sessions[key]]]
      ensures |cache| == if r == Success && key !in old(sessions) then |old(cache)| - 1 else |old(cache)|
      ensures kicked ==
        if key in old(sessions) && old(slots[sessions[key]].conn) != s then old(slots[sessions[key]].conn) else null
      // sessions and connections stay paired exactly when the connection has no other live login
      ensures old(Bound(socks)) && s in socks && s.open && r == Success ==> (Bound(socks) <==> old(OneLogin(s, key)))
      ensures old(Bound(socks)) && r == ServerFailed ==> Bound(socks)
    {
      hide Ring, Distinct, Split, Disjoint, Table.Lists;
      CacheHead();
      r, kicked := Success, null;
      if key in sessions {
        var ts := sessions[key];
        if slots[ts].conn == null {
          ChangeSkt(ts, s);
        } else if s != slots[ts].conn {
          kicked := slots[ts].conn;
          ChangeSkt(ts, s);
        }
      } else {
        var ts := Register(s, key);
        if ts == -1 {
          r := ServerFailed;
        }
      }
    }

    /** The interface `logout`; `closing` is the connection whose closing is scheduled. */
    method Logout(s: Socket, key: Key, ghost socks: set<Socket>) returns (r: Reply, closing: Socket?)
      requires Valid()
      modifies this`cache, this`used, this`sessions, cache, used
      ensures Valid() && OthersSame(-1)
      ensures r ==
        if key !in old(sessions) then NotExist
        else if old(slots[sessions[key]].conn) != s then InvalidArg
        else Success
      ensures r != Success ==> sessions == old(sessions) && used == old(used) && closing == null
      ensures r == Success ==> sessions == old(sessions) - {key} && closing == s
      ensures |cache| == if r == Success then |old(cache)| + 1 else |old(cache)|
      ensures r == Success ==>
        forall i :: 0 <= i < |nodes| ==> (nodes[i] in used <==> nodes[i] in old(used) && i != old(sessions)[key])
      ensures old(Bound(socks)) ==> Bound(socks)
    {
      hide Ring, Distinct, Split;
      closing := null;
      if key !in sessions {
        return NotExist, null;
      }
      var ts := sessions[key];
      if slots[ts].conn != s {
        return InvalidArg, null;
      }
      closing := s;
      sessions := sessions - {key};
      PutSlot(ts);
      return Success, closing;
    }

    /** No used session points to the connection. */
    ghost predicate Forgotten(s: Socket)
      requires |slots| == |nodes|
      reads this, slots
    {
      forall i :: 0 <= i < |slots| && nodes[i] in used ==> slots[i].conn != s
    }

    /** p2p_fsm_on_closing, after which the connection is gone. */
    method Closing(s: Socket, ghost socks: set<Socket>)
      requires Valid() && -1 <= s.appCtx < |slots|
      modifies slots, s
      ensures Valid() && !s.open && used == old(used) && sessions == old(sessions)
      ensures s.appCtx in {-1, old(s.appCtx)}
      // only a session that points to this very connection is unbound
      ensures forall i :: 0 <= i < |slots| ==>
        slots[i].conn == if i == old(s.appCtx) && old(slots[i].conn) == s then null else old(slots[i].conn)
      ensures old(Bound(socks)) ==> Bound(socks - {s}) && Forgotten(s)
      // exactly when nothing points to a closed connection
      ensures Forgotten(s) <==>
        forall i :: 0 <= i < |slots| && nodes[i] in used && old(slots[i].conn) == s ==> i == old(s.appCtx)
    {
      hide Ring, Split;
      var ts := s.appCtx;
      if ts != -1 && slots[ts].conn == s {
        slots[ts].conn := null;
        s.appCtx := -1;
      }
      s.open := false;
    }
  }

  /** dlist_del and dlist_add_tail */
  method Move(d: DNode<int>, ghost a: Links, head: DNode<int>, ghost b: Links, ghost k: nat)
    requires Ring(a) && Ring(b) && 1 <= k < |a| && a[k] == d && b[0] == head && Disjoint(a, b)
    modifies a, b
    ensures Ring(a[..k] + a[k + 1..]) && Ring(b + [d])
  {
    hide Distinct;
    NotHead(a, k, b);
    Del(d, a, k);
    AddTail(head, d, b);
  }

  lemma {:induction false} NotHead(a: Links, k: nat, b: Links)
    requires Ring(a) && 1 <= k < |a| && b != [] && Disjoint(a, b)
    ensures a[k] !in b && a[k] !in a[..k] + a[k + 1..]
    ensures Disjoint(a[..k] + a[k + 1..], b + [a[k]])
  {
  }

  lemma {:induction false} HeadIn(c: Links)
    requires Ring(c)
    ensures c != []
  {
  }

  lemma {:induction false} SlotAt(nodes: Links, a: Links, b: Links, k: nat)
    requires Split(nodes, a, b) && 1 <= k < |a|
    ensures IsSlot(nodes, a[k])
  {
  }

  lemma {:induction false} TailDistinct<X>(x: X, s: seq<X>)
    requires Distinct([x] + s)
    ensures Distinct(s) && x !in s
  {
    var c := [x] + s;
    forall i | 0 <= i < |s|
      ensures s[i] != x && forall j :: i < j < |s| ==> s[i] != s[j]
    {
      assert c[0] != c[i + 1];
      forall j | i < j < |s|
        ensures s[i] != s[j]
      {
        assert c[i + 1] != c[j + 1];
      }
    }
  }

  lemma {:induction false} AllFree(ch: DNode<int>, ns: Links, uh: DNode<int>)
    requires Distinct([ch] + ns) && uh !in [ch] + ns && forall i :: 0 <= i < |ns| ==> ns[i].owner == i
    ensures Split(ns, [ch] + ns, [uh]) && Distinct(ns) && ch !in ns && uh !in ns
    ensures Disjoint([ch] + ns, [uh])
  {
    TailDistinct(ch, ns);
    hide Distinct, IsSlot;
    var c, u := [ch] + ns, [uh];
    forall i | 0 <= i < |ns|
      ensures ns[i] in c && ns[i] !in u
    {
      assert c[i + 1] == ns[i];
    }
    forall k | 1 <= k < |c|
      ensures IsSlot(ns, c[k])
    {
      SlotOf(ns, k - 1);
      assert c[k] == ns[k - 1];
    }
  }

  lemma {:induction false} WithOne(nodes: Links, c: Links, ts: int)
    requires 0 <= ts < |nodes| && Distinct(nodes)
    ensures forall i :: 0 <= i < |nodes| ==> (nodes[i] in c + [nodes[ts]] <==> nodes[i] in c || i == ts)
  {
  }

  lemma {:induction false} SplitSwap(nodes: Links, a: Links, b: Links)
    requires Split(nodes, a, b) && Disjoint(a, b)
    ensures Split(nodes, b, a) && Disjoint(b, a)
  {
  }

  lemma {:induction false} WithoutOne(nodes: Links, c: Links, k: nat, ts: int)
    requires Ring(c) && 0 <= ts < |nodes| && k < |c| && c[k] == nodes[ts] && Distinct(nodes)
    ensures forall i :: 0 <= i < |nodes| ==> (nodes[i] in c[..k] + c[k + 1..] <==> nodes[i] in c && i != ts)
  {
    forall i | 0 <= i < |nodes|
      ensures nodes[i] in c[..k] + c[k + 1..] <==> nodes[i] in c && i != ts
    {
      if nodes[i] in c && i != ts {
        var j :| 0 <= j < |c| && c[j] == nodes[i];
        assert (c[..k] + c[k + 1..])[if j < k then j else j - 1] == nodes[i];
      }
    }
  }

  lemma {:induction false} SlotOf(ns: Links, i: nat)
    requires i < |ns| && ns[i].owner == i
    ensures IsSlot(ns, ns[i])
  {
  }

  lemma {:induction false} SecondIsNext(c: Links)
    requires Ring(c) && |c| > 1
    ensures c[0].next == c[1]
  {
    assert Succ(c, 0) == c[1];
  }

  /** Moving node k of one list to the end of the other. */
  lemma {:induction false} MoveSlot(nodes: Links, a: Links, b: Links, k: nat)
    requires Split(nodes, a, b) && 1 <= k < |a| && Ring(a) && b != [] && Disjoint(a, b)
    ensures var a', b' := a[..k] + a[k + 1..], b + [a[k]];
      Split(nodes, a', b') && Disjoint(a', b') && a[k] !in b && a[k] !in a'
      && a'[0] == a[0] && b'[0] == b[0]
  {
  }

  /** The loop of init_p2p_fsm_module over the allocated slots. */
  method NewTable(size: nat) returns (t: Table)
    ensures fresh(t) && t.Valid() && t.Bound({}) && t.sessions == map[] && |t.used| == 1
    ensures |t.slots| == size && |t.cache| == size + 1
    ensures forall i :: 0 <= i < size ==> t.cache[i + 1] == t.nodes[i] && t.slots[i].conn == null
  {
    hide Ring, Distinct;
    var cacheHead := new DNode<int>(-1);
    var useHead := new DNode<int>(-1);
    var slots: seq<TcpSession>, nodes: Links := [], [];
    assert [cacheHead] + nodes == [cacheHead];
    NoneDistinct<TcpSession>();
    for i := 0 to size
      invariant |slots| == |nodes| == i && Distinct(slots)
      invariant fresh(cacheHead) && fresh(useHead)
      invariant forall k :: 0 <= k < i ==>
        fresh(slots[k]) && fresh(nodes[k]) && slots[k].conn == null && nodes[k].owner == k
      invariant Ring([cacheHead] + nodes) && Ring([useHead]) && useHead !in [cacheHead] + nodes
    {
      var session, node := NewSlot(i, cacheHead, nodes);
      DistinctNext(slots, session);
      slots, nodes := slots + [session], nodes + [node];
    }
    t := new Table(slots, nodes, cacheHead, useHead);
  }

  method NewSlot(i: int, head: DNode<int>, ghost nodes: Links) returns (session: TcpSession, node: DNode<int>)
    requires Ring([head] + nodes)
    modifies [head] + nodes
    ensures fresh(session) && fresh(node) && session.conn == null && node.owner == i
    ensures Ring([head] + (nodes + [node]))
  {
    session := new TcpSession();
    node := new DNode<int>(i);
    AddTail(head, node, [head] + nodes);
    assert [head] + nodes + [node] == [head] + (nodes + [node]);
  }

  lemma {:induction false} DistinctNext<X>(s: seq<X>, x: X)
    requires x !in s && Distinct(s)
    ensures Distinct(s + [x])
  {
  }

  lemma {:induction false} NoneDistinct<X>()
    ensures Distinct<X>([])
  {
  }

  datatype Event = LoginOf(s: Socket, key: Key) | LogoutOf(s: Socket, key: Key) | ClosingOf(s: Socket)

  /** A login that succeeds comes over a connection that has no other live login. */
  ghost predicate Polite(v: View, e: Event) {
    e.LoginOf? && (e.key in v.bound || v.free > 0) ==> OnlyLogin(v, e.s, e.key)
  }

  /** No session but the one with this key has the connection. */
  ghost predicate OnlyLogin(v: View, s: Socket, key: Key) {
    forall k :: k in v.bound && v.bound[k] == s ==> k == key
  }

  /** What an event does to the sessions. */
  ghost function After(v: View, e: Event): View {
    match e
    case LoginOf(s, key) =>
      if key in v.bound then v.(bound := v.bound[key := s])
      else if v.free > 0 then View(v.bound[key := s], v.free - 1)
      else v
    case LogoutOf(s, key) =>
      if key in v.bound && v.bound[key] == s then View(v.bound - {key}, v.free + 1) else v
    case ClosingOf(s) =>
      v.(bound := map k | k in v.bound :: if v.bound[k] == s then null else v.bound[k])
  }

  /** What is answered, and the connection whose closing is scheduled. */
  datatype Outcome = Outcome(reply: Reply, other: Socket?)

  ghost function Answer(v: View, e: Event): Outcome {
    match e
    case LoginOf(s, key) =>
      if key in v.bound then Outcome(Success, if v.bound[key] != s then v.bound[key] else null)
      else Outcome(if v.free > 0 then Success else ServerFailed, null)
    case LogoutOf(s, key) =>
      if key !in v.bound then Outcome(NotExist, null)
      else if v.bound[key] != s then Outcome(InvalidArg, null)
      else Outcome(Success, s)
    case ClosingOf(s) => Outcome(Success, null)
  }

  lemma {:induction false} SameView(a: View, b: View)
    requires a.free == b.free && a.bound.Keys == b.bound.Keys
    requires forall k :: k in a.bound && k in b.bound ==> a.bound[k] == b.bound[k]
    ensures a == b
  {
  }

  lemma {:induction false} OneLoginSeen(t: Table, s: Socket, key: Key)
    requires t.Valid()
    ensures t.OneLogin(s, key) <==> OnlyLogin(t.Abstract(), s, key)
  {
    hide Ring, Distinct, Split, Disjoint, Table.Lists;
    if !t.OneLogin(s, key) {
      var i :| 0 <= i < |t.slots| && t.nodes[i] in t.used && t.slots[i].conn == s && t.slots[i].key != key;
      assert t.Abstract().bound[t.slots[i].key] == s;
    }
  }

  /** The connections that are left after an event. */
  ghost function Left(e: Event, socks: set<Socket>): set<Socket> {
    if e.ClosingOf? then socks - {e.s} else socks
  }

  method ServeLogin(t: Table, s: Socket, key: Key, ghost socks: set<Socket>) returns (o: Outcome)
    requires t.Valid() && s in socks && s.open && -1 <= s.appCtx < |t.slots|
    modifies t`cache, t`used, t`sessions, t.cache, t.used, t.slots, s`appCtx
    ensures t.Valid() && -1 <= s.appCtx < |t.slots|
    ensures t.Abstract() == After(old(t.Abstract()), LoginOf(s, key))
    ensures o == Answer(old(t.Abstract()), LoginOf(s, key))
    ensures old(t.Bound(socks)) ==> (t.Bound(socks) <==> Polite(old(t.Abstract()), LoginOf(s, key)))
  {
    hide Table.Valid, Table.Bound, Table.OneLogin, After, Answer, Polite, OnlyLogin, Seen, Table.Conns;
    KeysApart(t);
    OneLoginSeen(t, s, key);
    ghost var v, m, conns, free := t.Abstract(), t.sessions, t.Conns(), |t.cache| - 1;
    ghost var paired, one := t.Bound(socks), t.OneLogin(s, key);
    var r, kicked := t.Login(s, key, socks);
    o := Outcome(r, kicked);
    KeysApart(t);
    assert t.Conns() == if r == Success then conns[t.sessions[key] := s] else conns;
    LoginSeen(m, conns, free, s, key, t.sessions, t.Conns(), |t.cache| - 1, o);
    PoliteSeen(v, s, key, r == Success, paired, one, t.Bound(socks));
  }

  ghost predicate Apart(m: map<Key, int>, n: nat) {
    (forall k :: k in m ==> 0 <= m[k] < n) && forall k, l :: k in m && l in m && k != l ==> m[k] != m[l]
  }

  lemma {:induction false} KeysApart(t: Table)
    requires t.Valid()
    ensures |t.slots| == |t.nodes| && t.cache != [] && Apart(t.sessions, |t.slots|)
  {
  }

  lemma {:induction false} LoginSeen(m: map<Key, int>, conns: seq<Socket?>, free: int, s: Socket, key: Key,
                              m': map<Key, int>, conns': seq<Socket?>, free': int, o: Outcome)
    requires Apart(m, |conns|) && Apart(m', |conns|) && forall k :: k in m ==> k in m' && m'[k] == m[k]
    requires o.reply == if key in m || free > 0 then Success else ServerFailed
    requires o.other == if key in m && conns[m[key]] != s then conns[m[key]] else null
    requires m'.Keys == if o.reply == Success then m.Keys + {key} else m.Keys
    requires conns' == if o.reply == Success then conns[m'[key] := s] else conns
    requires free' == if o.reply == Success && key !in m then free - 1 else free
    ensures Seen(m', conns', free') == After(Seen(m, conns, free), LoginOf(s, key))
    ensures o == Answer(Seen(m, conns, free), LoginOf(s, key))
    ensures key in m <==> key in Seen(m, conns, free).bound
    ensures Seen(m, conns, free).free == free
  {
    SeenAt(m, conns, free);
    SeenAt(m', conns', free');
    hide Seen, Apart;
    var v, w := Seen(m, conns, free), Seen(m', conns', free');
    forall k | k in v.bound && k != key
      ensures w.bound[k] == v.bound[k]
    {
      if o.reply == Success { ApartAt(m', |conns|, k, key); }
    }
    LoginView(v, s, key, w, o);
  }

  lemma {:induction false} ApartAt(m: map<Key, int>, n: nat, k: Key, l: Key)
    requires Apart(m, n) && k in m && l in m && k != l
    ensures 0 <= m[k] < n && 0 <= m[l] < n && m[k] != m[l]
  {
  }

  lemma {:induction false} SeenAt(m: map<Key, int>, conns: seq<Socket?>, free: int)
    requires Apart(m, |conns|)
    ensures Seen(m, conns, free).bound.Keys == m.Keys && Seen(m, conns, free).free == free
    ensures forall k :: k in m ==> 0 <= m[k] < |conns| && Seen(m, conns, free).bound[k] == conns[m[k]]
  {
  }

  lemma {:induction false} LoginView(v: View, s: Socket, key: Key, now: View, o: Outcome)
    requires o.reply == if key in v.bound || v.free > 0 then Success else ServerFailed
    requires o.other == if key in v.bound && v.bound[key] != s then v.bound[key] else null
    requires now.bound.Keys == if o.reply == Success then v.bound.Keys + {key} else v.bound.Keys
    requires now.free == if o.reply == Success && key !in v.bound then v.free - 1 else v.free
    requires o.reply == Success ==> now.bound[key] == s
    requires forall k :: k in v.bound && k != key ==> now.bound[k] == v.bound[k]
    ensures now == After(v, LoginOf(s, key)) && o == Answer(v, LoginOf(s, key))
  {
    SameView(now, After(v, LoginOf(s, key)));
  }

  lemma {:induction false} PoliteSeen(v: View, s: Socket, key: Key, ok: bool, paired: bool, one: bool, still: bool)
    requires ok <==> key in v.bound || v.free > 0
    requires one <==> OnlyLogin(v, s, key)
    requires paired ==> if ok then still <==> one else still
    ensures paired ==> (still <==> Polite(v, LoginOf(s, key)))
  {
  }

  method ServeLogout(t: Table, s: Socket, key: Key, ghost socks: set<Socket>) returns (o: Outcome)
    requires t.Valid()
    modifies t`cache, t`used, t`sessions, t.cache, t.used
    ensures t.Valid() && (old(t.Bound(socks)) ==> t.Bound(socks))
    ensures t.Abstract() == After(old(t.Abstract()), LogoutOf(s, key))
    ensures o == Answer(old(t.Abstract()), LogoutOf(s, key))
  {
    hide Ring, Distinct, Split, Disjoint, Table.Lists;
    ghost var v := t.Abstract();
    var r, closing := t.Logout(s, key, socks);
    o := Outcome(r, closing);
    SameView(t.Abstract(), After(v, LogoutOf(s, key)));
  }

  method ServeClosing(t: Table, s: Socket, ghost socks: set<Socket>)
    requires t.Valid() && -1 <= s.appCtx < |t.slots|
    modifies t.slots, s
    ensures t.Valid() && -1 <= s.appCtx < |t.slots|
    ensures old(t.Bound(socks)) ==> t.Bound(socks - {s}) && t.Abstract() == After(old(t.Abstract()), ClosingOf(s))
  {
    hide Ring, Distinct, Split, Disjoint, Table.Lists;
    ghost var v := t.Abstract();
    t.Closing(s, socks);
    if old(t.Bound(socks)) {
      SameView(t.Abstract(), After(v, ClosingOf(s)));
    }
  }

  /**
   An event over an open connection.  While sessions and connections are paired the
   table answers and changes as the finite map, and they stay paired exactly if the
   event is polite.
   */
  method Serve(t: Table, e: Event, ghost socks: set<Socket>) returns (o: Outcome)
    requires t.Valid() && e.s in socks && e.s.open && -1 <= e.s.appCtx < |t.slots|
    modifies t`cache, t`used, t`sessions, t.cache, t.used, t.slots, e.s
    ensures t.Valid() && -1 <= e.s.appCtx < |t.slots|
    ensures !e.ClosingOf? ==> e.s.open == old(e.s.open)
    ensures old(t.Bound(socks)) ==>
      t.Abstract() == After(old(t.Abstract()), e) && o == Answer(old(t.Abstract()), e) &&
      (t.Bound(Left(e, socks)) <==> Polite(old(t.Abstract()), e))
  {
    hide Ring, Distinct, Split, Disjoint, Table.Lists, Table.Bound, After, Answer;
    match e {
      case LoginOf(s, key) =>
        o := ServeLogin(t, s, key, socks);
      case LogoutOf(s, key) =>
        o := ServeLogout(t, s, key, socks);
      case ClosingOf(s) =>
        ServeClosing(t, s, socks);
        o := Outcome(Success, null);
        Closes(old(t.Abstract()), s);
    }
  }

  lemma {:induction false} Closes(v: View, s: Socket)
    ensures Answer(v, ClosingOf(s)) == Outcome(Success, null)
  {
  }

  /** A connection that logs in with two new keys and closes leaves a used session that points to it. */
  method LoginTwice(t: Table, s: Socket, first: Key, second: Key)
    requires t.Valid() && first !in t.sessions && second !in t.sessions && first != second && |t.cache| > 2
    modifies t`cache, t`used, t`sessions, t.cacheHead, t.useHead, t.nodes, t.slots, s
    ensures t.Valid() && !s.open && !t.Forgotten(s)
    ensures first in t.sessions && t.slots[t.sessions[first]].conn == s
  {
    hide Ring, Distinct, Split, Disjoint, Table.Lists, Table.Bound, Table.OneLogin;
    Counted(t.nodes, t.cache, t.used);
    Inside(t);
    var r, kicked := t.Login(s, first, {});
    Counted(t.nodes, t.cache, t.used);
    Inside(t);
    r, kicked := t.Login(s, second, {});
    t.Closing(s, {});
  }

  lemma {:induction false} Counted(nodes: Links, cache: Links, used: Links)
    requires Split(nodes, cache, used)
    ensures |cache| - 1 + |used| - 1 == |nodes|
  {
  }

  /** The lists are made of the heads and the nodes of the slots. */
  lemma {:induction false} Inside(t: Table)
    requires t.Lists() && t.Slots()
    ensures forall i :: 0 <= i < |t.cache| ==> t.cache[i] == t.cacheHead || t.cache[i] in t.nodes
    ensures forall i :: 0 <= i < |t.used| ==> t.used[i] == t.useHead || t.used[i] in t.nodes
  {
  }

  /** Each event is about a connection that is still there. */
  ghost predicate Runs(events: seq<Event>, socks: set<Socket>) {
    events != [] ==> events[0].s in socks && Runs(events[1..], Left(events[0], socks))
  }

  ghost function LeftAll(events: seq<Event>, socks: set<Socket>): set<Socket> {
    if events == [] then socks else LeftAll(events[1..], Left(events[0], socks))
  }

  /** Every step of the run is polite. */
  ghost predicate PoliteRun(v: View, events: seq<Event>)
    decreases |events|
  {
    events != [] ==> Polite(v, events[0]) && PoliteRun(After(v, events[0]), events[1..])
  }

  ghost function AfterAll(v: View, events: seq<Event>): View
    decreases |events|
  {
    if events == [] then v else AfterAll(After(v, events[0]), events[1..])
  }

  ghost function Answers(v: View, events: seq<Event>): seq<Outcome>
    decreases |events|
  {
    if events == [] then [] else [Answer(v, events[0])] + Answers(After(v, events[0]), events[1..])
  }

  /**
   Every run keeps the table in order; in a polite one the table answers and changes
   as the finite map, and at the end sessions and connections are still paired.
   */
  method ServeAll(t: Table, events: seq<Event>, ghost socks: set<Socket>) returns (os: seq<Outcome>)
    requires t.Valid() && Runs(events, socks)
    requires forall s :: s in socks ==> s.open && -1 <= s.appCtx < |t.slots|
    modifies t`cache, t`used, t`sessions, t.cacheHead, t.useHead, t.nodes, t.slots, socks
    ensures t.Valid() && |os| == |events|
    ensures old(t.Bound(socks)) && PoliteRun(old(t.Abstract()), events) ==>
      t.Bound(LeftAll(events, socks)) && t.Abstract() == AfterAll(old(t.Abstract()), events) &&
      os == Answers(old(t.Abstract()), events)
    decreases |events|
  {
    hide Ring, Distinct, Split, Disjoint, Table.Lists, Table.Bound, Polite, After, Answer;
    if events == [] {
      return [];
    }
    Inside(t);
    var o := Serve(t, events[0], socks);
    var rest := ServeAll(t, events[1..], Left(events[0], socks));
    os := [o] + rest;
  }

  /** The key of a login is the one of its connection. */
  predicate Proper(e: Event, keyOf: Socket -> Key) {
    e.LoginOf? ==> e.key == keyOf(e.s)
  }

  /** A run is polite if each connection logs in with one key only, and has no other session at the start. */
  lemma {:induction false} ProperPolite(v: View, events: seq<Event>, keyOf: Socket -> Key)
    requires forall k :: k in v.bound && v.bound[k] != null ==> k == keyOf(v.bound[k])
    requires forall i :: 0 <= i < |events| ==> Proper(events[i], keyOf)
    ensures PoliteRun(v, events)
    decreases |events|
  {
    if events != [] {
      assert Proper(events[0], keyOf);
      ProperPolite(After(v, events[0]), events[1..], keyOf);
    }
  }

  /** A connection may log in with another key once it has logged out of the one it had. */
  lemma {:induction false} ChangeOfKey(v: View, s: Socket, key: Key, other: Key)
    requires key in v.bound && v.bound[key] == s && forall k :: k in v.bound && v.bound[k] == s ==> k == key
    ensures PoliteRun(v, [LogoutOf(s, key), LoginOf(s, other)])
  {
    var events := [LogoutOf(s, key), LoginOf(s, other)];
    assert events[1..] == [LoginOf(s, other)] && events[1..][1..] == [];
  }
}
