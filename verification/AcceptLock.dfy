/**
 The accept lock of src/modules/latasia.c: one shared word, any number of worker
 processes that interleave at every read and every compare-and-swap.
 */
module AcceptLock {
  const TOP_BIT: bv32 := 0x8000_0000
  const LOW_BITS: bv32 := 0x7fff_ffff

  /** Where a worker is in event_loop_multi; `rslt` is what process_events returned. */
  datatype Pc =
    | Deciding
    | Trying(val: bv32)
    | Won
    | Polling
    | Reading(rslt: int)
    | Swapping(seen: bv32, rslt: int)
    | Checking(rslt: int)
    | Left

  /** `hold` is lts_accept_lock_hold. */
  datatype Worker = Worker(pc: Pc, hold: bool)

  datatype State = State(lock: bv32, workers: seq<Worker>)

  /** What the environment decides in one step. */
  datatype Choice = Quit | Overloaded | TryLock | Polled(rslt: int) | Go

  /** The value that lts_shmtx_trylock swaps in. */
  function Locked(val: bv32): bv32 {
    val | TOP_BIT
  }

  /** The value that lts_shmtx_unlock swaps in. */
  function Unlocked(seen: bv32): bv32 {
    var wait := seen & LOW_BITS;
    if wait != 0 then wait - 1 else 0
  }

  /** The top bit is set, and the others stay. */
  lemma {:induction false} LockedBits(word: bv32)
    ensures Locked(word) & 0x8000_0000 != 0 && Locked(word) & 0x7fff_ffff == word & 0x7fff_ffff
  {
  }

  /** The top bit is cleared, and the others count down unless they are 0. */
  lemma {:induction false} UnlockedBits(word: bv32)
    ensures Unlocked(word) < 0x8000_0000 && (word & 0x7fff_ffff == 0 ==> Unlocked(word) == 0)
    ensures word & 0x7fff_ffff != 0 ==> Unlocked(word) + 1 == word & 0x7fff_ffff
  {
    UnlockedTop(word);
    UnlockedRest(word);
    UnlockedNone(word);
    hide Unlocked;
  }

  lemma {:induction false} UnlockedTop(word: bv32)
    ensures Unlocked(word) < 0x8000_0000
  {
  }

  lemma {:induction false} UnlockedRest(word: bv32)
    ensures word & 0x7fff_ffff != 0 ==> Unlocked(word) + 1 == word & 0x7fff_ffff
  {
  }

  lemma {:induction false} UnlockedNone(word: bv32)
    ensures word & 0x7fff_ffff == 0 ==> Unlocked(word) == 0
  {
  }

  /** One step of a worker: the new value of the word, and of the worker. */
  function WorkerStep(lock: bv32, w: Worker, c: Choice): (bv32, Worker) {
    match w.pc
    case Deciding =>
      if c.Quit? then (lock, w.(pc := Left))
      else if c.Overloaded? then (lock, w.(pc := Polling))
      // lts_shmtx_trylock: the read
      else if lock & TOP_BIT == 0 then (lock, w.(pc := Trying(lock)))
      else (lock, w.(pc := Polling))
    case Trying(val) =>
      // lts_shmtx_trylock: the compare-and-swap
      if lock == val then (Locked(val), w.(pc := Won)) else (lock, w.(pc := Polling))
    case Won => (lock, w.(pc := Polling, hold := true))
    case Polling =>
      var rslt := if c.Polled? then c.rslt else 0;
      if w.hold then (lock, w.(pc := Reading(rslt), hold := false)) else (lock, w.(pc := Checking(rslt)))
    case Reading(rslt) =>
      // lts_shmtx_unlock: the read
      (lock, w.(pc := Swapping(lock, rslt)))
    case Swapping(seen, rslt) =>
      // lts_shmtx_unlock: the compare-and-swap, tried again if it fails
      if lock == seen then (Unlocked(seen), w.(pc := Checking(rslt))) else (lock, w.(pc := Reading(rslt)))
    case Checking(rslt) => (lock, w.(pc := if rslt != 0 then Left else Deciding))
    case Left => (lock, w)
  }

  function Step(s: State, i: nat, c: Choice): State
    requires i < |s.workers|
  {
    var (lock, w) := WorkerStep(s.lock, s.workers[i], c);
    State(lock, s.workers[i := w])
  }

  predicate Initial(s: State) {
    s.lock == 0 && forall i :: 0 <= i < |s.workers| ==> s.workers[i] == Worker(Deciding, false)
  }

  /** Between a successful trylock and the end of its unlock. */
  predicate Holds(w: Worker) {
    w.pc.Won? || w.pc.Reading? || w.pc.Swapping? || (w.pc.Polling? && w.hold)
  }

  ghost predicate Held(s: State) {
    exists i :: 0 <= i < |s.workers| && Holds(s.workers[i])
  }

  /** What a worker knows, given the word. */
  predicate Consistent(w: Worker, lock: bv32) {
    (w.hold ==> w.pc.Polling?) &&
    (w.pc.Trying? ==> w.pc.val == 0) &&
    (w.pc.Swapping? ==> w.pc.seen == lock)
  }

  ghost predicate Invariant(s: State) {
    s.lock in {0, TOP_BIT} &&
    (s.lock == TOP_BIT <==> Held(s)) &&
    (forall i, j :: 0 <= i < j < |s.workers| ==> !(Holds(s.workers[i]) && Holds(s.workers[j]))) &&
    (forall i :: 0 <= i < |s.workers| ==> Consistent(s.workers[i], s.lock))
  }

  /** What a step does to the word and to holding it. */
  lemma {:induction false} StepEffect(lock: bv32, w: Worker, c: Choice)
    requires lock in {0, TOP_BIT} && Consistent(w, lock) && (Holds(w) ==> lock == TOP_BIT)
    ensures var (lock', w') := WorkerStep(lock, w, c);
      lock' in {0, TOP_BIT} && Consistent(w', lock') &&
      (if Holds(w) == Holds(w') then lock' == lock
       else if Holds(w') then lock == 0 && lock' == TOP_BIT
       else lock == TOP_BIT && lock' == 0)
  {
    var zero, top: bv32 := 0, TOP_BIT;
    assert zero & TOP_BIT == 0 && top & TOP_BIT != 0 && zero | TOP_BIT == TOP_BIT && top & LOW_BITS == 0;
  }

  /** Every step of every worker keeps the invariant. */
  lemma {:induction false} StepKeeps(s: State, i: nat, c: Choice)
    requires Invariant(s) && i < |s.workers|
    ensures Invariant(Step(s, i, c))
  {
    hide WorkerStep;
    var w, t := s.workers[i], Step(s, i, c);
    if Holds(w) { assert Held(s); }
    StepEffect(s.lock, w, c);
    var w' := t.workers[i];
    if Holds(w') {
      assert Held(t);
      if !Holds(w) { assert !Held(s); }
    }
    if Held(s) && !Holds(w) {
      var k :| 0 <= k < |s.workers| && Holds(s.workers[k]);
      assert Holds(t.workers[k]);
    }
    forall k | 0 <= k < |s.workers|
      ensures Consistent(t.workers[k], t.lock)
    {
      if k != i && s.workers[k].pc.Swapping? { assert Holds(s.workers[k]); }
    }
  }

  /** A run: a state, and what the workers do one after the other. */
  datatype Move = Move(worker: nat, choice: Choice)

  ghost function RunFrom(s: State, moves: seq<Move>): (t: State)
    requires forall k :: 0 <= k < |moves| ==> moves[k].worker < |s.workers|
    ensures |t.workers| == |s.workers|
    decreases |moves|
  {
    if moves == [] then s else RunFrom(Step(s, moves[0].worker, moves[0].choice), moves[1..])
  }

  lemma {:induction false} RunKeeps(s: State, moves: seq<Move>)
    requires Invariant(s) && forall k :: 0 <= k < |moves| ==> moves[k].worker < |s.workers|
    ensures Invariant(RunFrom(s, moves))
    decreases |moves|
  {
    if moves != [] {
      StepKeeps(s, moves[0].worker, moves[0].choice);
      RunKeeps(Step(s, moves[0].worker, moves[0].choice), moves[1..]);
    }
  }

  /** In every run, for any number of workers: at most one holds the lock, the top bit is set exactly
      when one does, the low 31 bits stay 0, and a worker that has left the loop holds nothing. */
  lemma {:induction false} MutualExclusion(s: State, moves: seq<Move>)
    requires Initial(s) && forall k :: 0 <= k < |moves| ==> moves[k].worker < |s.workers|
    ensures var t := RunFrom(s, moves);
      (forall i, j :: 0 <= i < j < |t.workers| ==> !(Holds(t.workers[i]) && Holds(t.workers[j]))) &&
      (t.lock & TOP_BIT != 0 <==> Held(t)) && t.lock & LOW_BITS == 0 &&
      (forall i :: 0 <= i < |t.workers| && t.workers[i].pc.Left? ==> !Holds(t.workers[i]) && !t.workers[i].hold)
  {
    assert !Held(s);
    RunKeeps(s, moves);
    var zero, top: bv32 := 0, TOP_BIT;
    assert zero & TOP_BIT == 0 && top & TOP_BIT != 0 && zero & LOW_BITS == 0 && top & LOW_BITS == 0;
  }

  /** No other worker can change the word under a holder: unlocking succeeds at the first attempt. */
  lemma {:induction false} UnlockSucceeds(s: State, moves: seq<Move>, i: nat, c: Choice)
    requires Initial(s) && forall k :: 0 <= k < |moves| ==> moves[k].worker < |s.workers|
    requires i < |s.workers| && RunFrom(s, moves).workers[i].pc.Swapping?
    ensures Step(RunFrom(s, moves), i, c).workers[i].pc.Checking? && Step(RunFrom(s, moves), i, c).lock == 0
  {
    assert !Held(s);
    RunKeeps(s, moves);
    var t := RunFrom(s, moves);
    assert Holds(t.workers[i]);
    StepEffect(t.lock, t.workers[i], c);
  }

  /** In every run the word is 0x80000000 while somebody holds the lock, and 0 otherwise. */
  lemma {:induction false} WordOf(s: State, moves: seq<Move>)
    requires Initial(s) && forall k :: 0 <= k < |moves| ==> moves[k].worker < |s.workers|
    ensures var t := RunFrom(s, moves); t.lock == if Held(t) then 0x8000_0000 else 0
  {
    assert !Held(s);
    RunKeeps(s, moves);
  }

  /**
   What a worker decides at the start of a round: it leaves exactly if it has to quit;
   it tries to get the lock exactly if it has to do neither that nor spare itself, and
   nobody holds it; otherwise it polls.
   */
  lemma {:induction false} Decision(s: State, i: nat, c: Choice)
    requires Invariant(s) && i < |s.workers| && s.workers[i].pc.Deciding?
    ensures var t := Step(s, i, c);
      t.lock == s.lock && !Holds(t.workers[i]) &&
      (t.workers[i].pc.Left? <==> c.Quit?) &&
      (t.workers[i].pc.Trying? <==> !c.Quit? && !c.Overloaded? && !Held(s)) &&
      (t.workers[i].pc.Polling? <==> !c.Quit? && (c.Overloaded? || Held(s)))
  {
    var zero, top: bv32 := 0, TOP_BIT;
    assert zero & TOP_BIT == 0 && top & TOP_BIT != 0;
  }

  /** A worker leaves in no other step than these: it has to quit, or its poll has failed. */
  lemma {:induction false} Leaves(s: State, i: nat, c: Choice)
    requires i < |s.workers| && !s.workers[i].pc.Left?
    ensures Step(s, i, c).workers[i].pc.Left? <==>
      (s.workers[i].pc.Deciding? && c.Quit?) || (s.workers[i].pc.Checking? && s.workers[i].pc.rslt != 0)
  {
  }

  /**
   The rest of a round from polling on, uninterrupted: the lock is given back if it was
   held, and the worker leaves exactly if the poll returned something else than 0, and
   otherwise decides again.
   */
  lemma {:induction false} RestOfRound(s: State, i: nat, rslt: int)
    requires Invariant(s) && i < |s.workers| && s.workers[i].pc.Polling?
    ensures var polled := Step(s, i, Polled(rslt));
      var t := if s.workers[i].hold then Step(Step(polled, i, Go), i, Go) else polled;
      var u := Step(t, i, Go);
      u.workers[i] == Worker(if rslt != 0 then Left else Deciding, false) &&
      u.lock == (if s.workers[i].hold then 0 else s.lock) &&
      forall k :: 0 <= k < |s.workers| && k != i ==> u.workers[k] == s.workers[k]
  {
    var top: bv32 := TOP_BIT;
    assert top & LOW_BITS == 0;
    if s.workers[i].hold { assert Held(s); }
  }

  /** A worker that tries while nobody holds the lock, and is not interrupted, gets it. */
  lemma {:induction false} FreeLockIsTaken(s: State, moves: seq<Move>, i: nat)
    requires Initial(s) && forall k :: 0 <= k < |moves| ==> moves[k].worker < |s.workers|
    requires i < |s.workers| && RunFrom(s, moves).workers[i].pc.Deciding?
    ensures var t := RunFrom(s, moves);
      var u := Step(Step(t, i, TryLock), i, Go);
      Holds(u.workers[i]) <==> !Held(t)
  {
    assert !Held(s);
    RunKeeps(s, moves);
    var zero, top: bv32 := 0, TOP_BIT;
    assert zero & TOP_BIT == 0 && top & TOP_BIT != 0;
  }
}
