/** Pools shared by threads.  A pool is a queue under a lock and a counting semaphore beside
    it; waiting on the semaphore and taking from the queue are separate steps.  The state
    machine has any number of pools and threads, and every step of every thread may be
    interleaved with the steps of the others.  The message pools of the asynchronous loop are
    the pools whose users always wait. */
module PoolProtocol {
  import opened Counting
  import opened Options

  /** One pool.  `bypassed` counts the entries that left the queue without a wait, `wasted`
      counts the waits that found the queue empty; both only record history. */
  datatype Pool = Pool(sem: nat, queue: seq<nat>, lock: Option<nat>, bypassed: nat, wasted: nat)

  /** Where a thread is. */
  datatype Thread =
    | Idle
    | Claimed(pool: nat)   // its timed wait on the semaphore succeeded
    | Wanting(pool: nat)   // it gets without waiting
    | Holding(entry: nat)
    | Inserted(pool: nat)  // it holds the lock, the entry is in the queue, not yet posted
    | Posted(pool: nat)    // it holds the lock and has posted

  datatype State = State(pools: seq<Pool>, threads: seq<Thread>)

  datatype Step =
    | Wait(t: nat, p: nat)               // timed wait on the semaphore succeeds
    | TimeOut(t: nat, p: nat)            // timed wait fails
    | Start(t: nat, p: nat)              // get without a timeout
    | Pop(t: nat)                        // lock, take the first entry if any, unlock
    | Insert(t: nat, p: nat, head: bool) // lock, insert at the tail or the head
    | Post(t: nat)
    | Unlock(t: nat)
    | Remove(t: nat, p: nat, entry: nat) // lock, take out a given entry, unlock

  predicate Enabled(s: State, step: Step) {
    step.t < |s.threads| &&
    match (step, s.threads[step.t])
    case (Wait(_, p), Idle) => p < |s.pools| && s.pools[p].sem > 0
    case (TimeOut(_, p), Idle) => p < |s.pools|
    case (Start(_, p), Idle) => p < |s.pools|
    case (Pop(_), Claimed(p)) => p < |s.pools| && s.pools[p].lock == None
    case (Pop(_), Wanting(p)) => p < |s.pools| && s.pools[p].lock == None
    case (Insert(_, p, _), Holding(_)) => p < |s.pools| && s.pools[p].lock == None
    case (Post(_), Inserted(p)) => p < |s.pools|
    case (Unlock(_), Posted(p)) => p < |s.pools|
    case (Remove(_, p, _), Idle) => p < |s.pools| && s.pools[p].lock == None
    case _ => false
  }

  /** The position of an entry in a queue, or the length of the queue. */
  function IndexOf(q: seq<nat>, e: nat): (i: nat)
    ensures i <= |q| && (i < |q| ==> q[i] == e) && (i == |q| ==> e !in q)
  {
    if q == [] then 0 else if q[0] == e then 0 else 1 + IndexOf(q[1..], e)
  }

  function Set(s: State, t: nat, thread: Thread, p: nat, pool: Pool): State
    requires t < |s.threads| && p < |s.pools|
  {
    State(s.pools[p := pool], s.threads[t := thread])
  }

  function Next(s: State, step: Step): (r: State)
    requires Enabled(s, step)
    ensures |r.pools| == |s.pools| && |r.threads| == |s.threads|
  {
    var t := step.t;
    match step
    case Wait(_, p) =>
      Set(s, t, Claimed(p), p, s.pools[p].(sem := s.pools[p].sem - 1))
    case TimeOut(_, _) => s
    case Start(_, p) => s.(threads := s.threads[t := Wanting(p)])
    case Pop(_) =>
      var p, claimed := s.threads[t].pool, s.threads[t].Claimed?;
      var pool := s.pools[p];
      if pool.queue == [] then Set(s, t, Idle, p, if claimed then pool.(wasted := pool.wasted + 1) else pool)
      else Set(s, t, Holding(pool.queue[0]), p,
               pool.(queue := pool.queue[1..], bypassed := pool.bypassed + if claimed then 0 else 1))
    case Insert(_, p, head) =>
      var e, pool := s.threads[t].entry, s.pools[p];
      Set(s, t, Inserted(p), p, pool.(lock := Some(t), queue := if head then [e] + pool.queue else pool.queue + [e]))
    case Post(_) =>
      var p := s.threads[t].pool;
      Set(s, t, Posted(p), p, s.pools[p].(sem := s.pools[p].sem + 1))
    case Unlock(_) =>
      var p := s.threads[t].pool;
      Set(s, t, Idle, p, s.pools[p].(lock := None))
    case Remove(_, p, e) =>
      var pool := s.pools[p];
      var i := IndexOf(pool.queue, e);
      if i == |pool.queue| then s
      else
        Set(s, t, Holding(e), p, pool.(queue := pool.queue[..i] + pool.queue[i + 1..], bypassed := pool.bypassed + 1))
  }

  /** Pools as they are opened: the semaphore counts the entries. */
  ghost predicate Opened(s: State) {
    && (forall p :: 0 <= p < |s.pools| ==> s.pools[p] == Pool(|s.pools[p].queue|, s.pools[p].queue, None, 0, 0))
    && (forall t :: 0 <= t < |s.threads| ==> s.threads[t] == Idle)
  }

  /** `states` is what a run of these steps goes through. */
  ghost predicate IsRun(states: seq<State>, steps: seq<Step>) {
    && |states| == |steps| + 1 && Opened(states[0])
    && forall i :: 0 <= i < |steps| ==> Enabled(states[i], steps[i]) && states[i + 1] == Next(states[i], steps[i])
  }

  // ---------------------------------------------------------------------------------------
  // The semaphore against the queue
  // ---------------------------------------------------------------------------------------

  /** How many threads have a successful wait on a pool behind them and not yet taken. */
  function Claims(s: State, p: nat): nat {
    CountIn(s.threads, Claimed(p))
  }

  /** One while an entry is in the queue that is not yet posted. */
  function Unposted(s: State, p: nat): nat
    requires p < |s.pools|
  {
    var lock := s.pools[p].lock;
    if lock.Some? && lock.value < |s.threads| && s.threads[lock.value] == Inserted(p) then 1 else 0
  }

  /** The lock of a pool is held by exactly the thread that is inserting. */
  ghost predicate LockIsExact(s: State, p: nat)
    requires p < |s.pools|
  {
    forall t :: 0 <= t < |s.threads| ==>
      ((s.threads[t] == Inserted(p) || s.threads[t] == Posted(p)) <==> s.pools[p].lock == Some(t))
  }

  /** What holds of a pool in every reachable state. */
  ghost predicate Balanced(s: State, p: nat)
    requires p < |s.pools|
  {
    var pool := s.pools[p];
    && LockIsExact(s, p)
    && (pool.lock.Some? ==> pool.lock.value < |s.threads|)
    && pool.sem + Claims(s, p) + Unposted(s, p) + pool.wasted == |pool.queue| + pool.bypassed
    && pool.wasted <= pool.bypassed
  }

  lemma OpenedIsBalanced(s: State, p: nat)
    requires Opened(s) && p < |s.pools|
    ensures Balanced(s, p)
  {
    CountInNone(s.threads, Claimed(p));
  }

  lemma StepKeepsLock(s: State, step: Step, p: nat)
    requires Enabled(s, step) && p < |s.pools| && Balanced(s, p)
    ensures LockIsExact(Next(s, step), p)
    ensures var lock := Next(s, step).pools[p].lock; lock.Some? ==> lock.value < |s.threads|
  {
  }

  /** While a thread holds the lock of a pool, nothing is put into the queue or taken out; nobody else
      gives the lock away; and the thread can go on. */
  lemma LockProtects(s: State, step: Step, p: nat, t: nat)
    requires Enabled(s, step) && p < |s.pools| && Balanced(s, p) && s.pools[p].lock == Some(t)
    ensures Next(s, step).pools[p].queue == s.pools[p].queue
    ensures step.t != t ==> Next(s, step).pools[p].lock == Some(t) && Next(s, step).threads[t] == s.threads[t]
    ensures Enabled(s, Post(t)) || Enabled(s, Unlock(t))
  {
  }

  /** What an idle thread can do: it can call anything; only a wait needs the semaphore, and only a
      removal the lock at once. */
  lemma IdleThreadsCanCall(s: State, t: nat, p: nat)
    requires t < |s.threads| && s.threads[t] == Idle && p < |s.pools|
    ensures Enabled(s, TimeOut(t, p)) && Enabled(s, Start(t, p))
    ensures Enabled(s, Wait(t, p)) <==> s.pools[p].sem > 0
    ensures forall entry: nat :: Enabled(s, Remove(t, p, entry)) <==> s.pools[p].lock == None
  {
  }

  /** A timed get that nobody interrupts takes the first entry and counts down; it cannot be stopped
      once it has waited. */
  lemma UninterruptedGet(s: State, t: nat, p: nat)
    requires t < |s.threads| && s.threads[t] == Idle && p < |s.pools|
    requires s.pools[p].lock == None && s.pools[p].sem > 0 && s.pools[p].queue != []
    ensures Enabled(s, Wait(t, p)) && Enabled(Next(s, Wait(t, p)), Pop(t))
    ensures
      var r, pool := Next(Next(s, Wait(t, p)), Pop(t)), s.pools[p];
      && r.threads == s.threads[t := Holding(pool.queue[0])]
      && r.pools == s.pools[p := pool.(sem := pool.sem - 1, queue := pool.queue[1..])]
  {
  }

  /** And one without a timeout leaves the semaphore alone. */
  lemma UninterruptedTry(s: State, t: nat, p: nat)
    requires t < |s.threads| && s.threads[t] == Idle && p < |s.pools|
    requires s.pools[p].lock == None && s.pools[p].queue != []
    ensures Enabled(s, Start(t, p)) && Enabled(Next(s, Start(t, p)), Pop(t))
    ensures
      var r, pool := Next(Next(s, Start(t, p)), Pop(t)), s.pools[p];
      && r.threads == s.threads[t := Holding(pool.queue[0])]
      && r.pools[p].queue == pool.queue[1..] && r.pools[p].sem == pool.sem && r.pools[p].lock == None
  {
  }

  /** A put that nobody interrupts appends the entry, or puts it in front, counts up, and gives the
      lock back. */
  lemma UninterruptedPut(s: State, t: nat, p: nat, head: bool)
    requires t < |s.threads| && s.threads[t].Holding? && p < |s.pools| && s.pools[p].lock == None
    ensures Enabled(s, Insert(t, p, head)) && Enabled(Next(s, Insert(t, p, head)), Post(t))
    ensures Enabled(Next(Next(s, Insert(t, p, head)), Post(t)), Unlock(t))
    ensures
      var r, pool := Next(Next(Next(s, Insert(t, p, head)), Post(t)), Unlock(t)), s.pools[p];
      var e := s.threads[t].entry;
      && r.threads == s.threads[t := Idle]
      && r.pools == s.pools[p :=
           pool.(sem := pool.sem + 1, queue := if head then [e] + pool.queue else pool.queue + [e])]
  {
  }

  /** An entry of a pool is unposted from its insert on, and posted from its post on. */
  lemma UnpostedStep(s: State, step: Step, p: nat)
    requires Enabled(s, step) && p < |s.pools| && Balanced(s, p)
    ensures
      var r := Next(s, step);
      if step.Insert? && step.p == p then Unposted(s, p) == 0 && Unposted(r, p) == 1
      else if step.Post? && s.threads[step.t] == Inserted(p) then Unposted(s, p) == 1 && Unposted(r, p) == 0
      else Unposted(r, p) == Unposted(s, p)
  {
    StepKeepsLock(s, step, p);
  }

  lemma StepKeepsSum(s: State, step: Step, p: nat)
    requires Enabled(s, step) && p < |s.pools| && Balanced(s, p)
    ensures
      var r := Next(s, step);
      r.pools[p].sem + Claims(r, p) + Unposted(r, p) + r.pools[p].wasted == |r.pools[p].queue| + r.pools[p].bypassed
  {
    var r := Next(s, step);
    CountInUpdate(s.threads, step.t, r.threads[step.t], Claimed(p));
    UnpostedStep(s, step, p);
  }

  /** A wait is wasted only on a pool that was bypassed before. */
  lemma StepKeepsHistory(s: State, step: Step, p: nat)
    requires Enabled(s, step) && p < |s.pools| && Balanced(s, p)
    ensures Next(s, step).pools[p].wasted <= Next(s, step).pools[p].bypassed
  {
    if step.Pop? && s.threads[step.t] == Claimed(p) {
      CountInSome(s.threads, step.t);
    }
  }

  lemma StepKeepsBalance(s: State, step: Step, p: nat)
    requires Enabled(s, step) && p < |s.pools| && Balanced(s, p)
    ensures Balanced(Next(s, step), p)
  {
    StepKeepsLock(s, step, p);
    StepKeepsSum(s, step, p);
    StepKeepsHistory(s, step, p);
  }

  lemma {:induction false} RunsAreBalanced(states: seq<State>, steps: seq<Step>, p: nat)
    requires IsRun(states, steps) && p < |states[|steps|].pools|
    ensures Balanced(states[|steps|], p)
    decreases |steps|
  {
    if steps == [] {
      OpenedIsBalanced(states[0], p);
    } else {
      var n := |steps| - 1;
      RunsAreBalanced(states[..n + 1], steps[..n], p);
      StepKeepsBalance(states[n], steps[n], p);
    }
  }

  /** Main theorem on wakeups: whatever gets, puts and removes are interleaved, a thread that
      waits on the semaphore is blocked only while every queued entry already belongs to a
      thread whose wait succeeded, but for one entry that is just being posted. */
  lemma NoWakeupIsLost(states: seq<State>, steps: seq<Step>, p: nat)
    requires IsRun(states, steps) && p < |states[|steps|].pools|
    ensures var s := states[|steps|];
      && |s.pools[p].queue| <= s.pools[p].sem + Claims(s, p) + Unposted(s, p)
      && (s.pools[p].sem == 0 ==> |s.pools[p].queue| <= Claims(s, p) + 1)
  {
    RunsAreBalanced(states, steps, p);
  }

  /** The semaphore is exact if and only if every entry that somebody took without waiting has
      been made up for by a wait that found the queue empty; and a wait finds the queue empty
      only when there is such an entry to make up for. */
  lemma InexactnessIsBypass(states: seq<State>, steps: seq<Step>, p: nat, t: nat)
    requires IsRun(states, steps) && p < |states[|steps|].pools|
    ensures var s := states[|steps|];
      && (s.pools[p].sem + Claims(s, p) + Unposted(s, p) == |s.pools[p].queue|
          <==> s.pools[p].bypassed == s.pools[p].wasted)
      && (t < |s.threads| && s.threads[t] == Claimed(p) && s.pools[p].queue == [] ==>
          s.pools[p].bypassed > s.pools[p].wasted)
  {
    RunsAreBalanced(states, steps, p);
    var s := states[|steps|];
    if t < |s.threads| && s.threads[t] == Claimed(p) {
      CountInSome(s.threads, t);
    }
  }

  /** The semaphore of a pool is exact: with the claims and an entry just being posted, it counts
      the entries of the queue. */
  ghost predicate Exact(s: State, p: nat) {
    p < |s.pools| && s.pools[p].sem + Claims(s, p) + Unposted(s, p) == |s.pools[p].queue|
  }

  /** A step takes an entry of pool `p` without a claim. */
  predicate Bypasses(s: State, step: Step, p: nat) {
    p < |s.pools| && step.t < |s.threads| &&
    match step
    case Pop(t) => s.threads[t] == Wanting(p) && s.pools[p].queue != []
    case Remove(_, q, entry) => q == p && entry in s.pools[p].queue
    case _ => false
  }

  lemma BypassIsCounted(s: State, step: Step, p: nat)
    requires Enabled(s, step) && p < |s.pools|
    ensures Next(s, step).pools[p].bypassed == s.pools[p].bypassed + if Bypasses(s, step, p) then 1 else 0
    ensures Bypasses(s, step, p) ==> Next(s, step).pools[p].wasted == s.pools[p].wasted
  {
  }

  /** In every state of a run the semaphore is exact just when the history of the pool is. */
  lemma ExactByHistory(states: seq<State>, steps: seq<Step>, p: nat, k: nat)
    requires IsRun(states, steps) && k <= |steps| && p < |states[k].pools|
    ensures Exact(states[k], p) <==> states[k].pools[p].bypassed == states[k].pools[p].wasted
    ensures states[k].pools[p].wasted <= states[k].pools[p].bypassed
  {
    assert states[..k + 1][k] == states[k];
    RunsAreBalanced(states[..k + 1], steps[..k], p);
  }

  lemma {:induction false} PoolsStay(states: seq<State>, steps: seq<Step>, k: nat)
    requires IsRun(states, steps) && k <= |steps|
    ensures |states[k].pools| == |states[0].pools|
  {
    if k > 0 {
      PoolsStay(states, steps, k - 1);
    }
  }

  lemma {:induction false} NothingBypassed(states: seq<State>, steps: seq<Step>, p: nat, k: nat)
    requires IsRun(states, steps) && p < |states[0].pools| && k <= |steps|
    requires forall i :: 0 <= i < k ==> !Bypasses(states[i], steps[i], p)
    ensures p < |states[k].pools| && states[k].pools[p].bypassed == 0
  {
    if k > 0 {
      NothingBypassed(states, steps, p, k - 1);
      BypassIsCounted(states[k - 1], steps[k - 1], p);
    }
  }

  /** Main theorem on the semaphore: it is exact all along a run if and only if no step of the run
      takes an entry without a claim. */
  lemma WhenTheCountIsExact(states: seq<State>, steps: seq<Step>, p: nat)
    requires IsRun(states, steps) && p < |states[0].pools|
    ensures (forall k :: 0 <= k <= |steps| ==> Exact(states[k], p))
      <==> forall k :: 0 <= k < |steps| ==> !Bypasses(states[k], steps[k], p)
  {
    if k :| 0 <= k < |steps| && Bypasses(states[k], steps[k], p) {
      var m := k + 1;
      ExactByHistory(states, steps, p, k);
      PoolsStay(states, steps, m);
      ExactByHistory(states, steps, p, m);
      BypassIsCounted(states[k], steps[k], p);
      assert !Exact(states[k], p) || !Exact(states[m], p);
    } else {
      forall k | 0 <= k <= |steps| ensures Exact(states[k], p) {
        NothingBypassed(states, steps, p, k);
        ExactByHistory(states, steps, p, k);
      }
    }
  }

  /** Nobody takes from pool `p` without waiting first. */
  predicate AlwaysWaits(steps: seq<Step>, p: nat) {
    forall i :: 0 <= i < |steps| ==> !(steps[i].Start? && steps[i].p == p) && !(steps[i].Remove? && steps[i].p == p)
  }

  /** No thread is about to take from pool `p` without a claim, and none has. */
  ghost predicate Unbypassed(s: State, p: nat)
    requires p < |s.pools|
  {
    s.pools[p].bypassed == 0 && forall t :: 0 <= t < |s.threads| ==> s.threads[t] != Wanting(p)
  }

  lemma {:induction false} WaitingNeverBypasses(states: seq<State>, steps: seq<Step>, p: nat)
    requires IsRun(states, steps) && p < |states[|steps|].pools| && AlwaysWaits(steps, p)
    ensures Unbypassed(states[|steps|], p)
    decreases |steps|
  {
    if steps != [] {
      var n := |steps| - 1;
      WaitingNeverBypasses(states[..n + 1], steps[..n], p);
    }
  }

  /** Main theorem on the asynchronous loop, whose users always wait: the semaphore plus the
      successful waits that have not taken yet, plus one between insert and post, is always the
      length of the queue; so a thread whose wait succeeded always finds a message. */
  lemma WaitedGetsAreExact(states: seq<State>, steps: seq<Step>, p: nat, t: nat)
    requires IsRun(states, steps) && p < |states[|steps|].pools| && AlwaysWaits(steps, p)
    ensures var s := states[|steps|];
      && s.pools[p].sem + Claims(s, p) + Unposted(s, p) == |s.pools[p].queue|
      && (t < |s.threads| && s.threads[t] == Claimed(p) ==> s.pools[p].queue != [])
  {
    RunsAreBalanced(states, steps, p);
    WaitingNeverBypasses(states, steps, p);
    InexactnessIsBypass(states, steps, p, t);
  }

  /** One get without waiting is enough to let a later wait succeed on an empty queue. */
  lemma BypassWastesAWait(entry: nat)
    ensures
      var s0 := State([Pool(1, [entry], None, 0, 0)], [Idle, Idle]);
      var s1 := Next(s0, Start(0, 0));
      var s2 := Next(s1, Pop(0));
      && Opened(s0) && Enabled(s2, Wait(1, 0))
      && var s3 := Next(s2, Wait(1, 0));
        s3.threads[1] == Claimed(0) && s3.pools[0].queue == []
  {
  }

  // ---------------------------------------------------------------------------------------
  // Where the entries are
  // ---------------------------------------------------------------------------------------

  function Queued(pools: seq<Pool>, e: nat): nat {
    if pools == [] then 0
    else Queued(pools[..|pools| - 1], e) + CountIn(pools[|pools| - 1].queue, e)
  }

  lemma {:induction false} QueuedUpdate(pools: seq<Pool>, p: nat, pool: Pool, e: nat)
    requires p < |pools|
    ensures Queued(pools[p := pool], e) + CountIn(pools[p].queue, e) == Queued(pools, e) + CountIn(pool.queue, e)
  {
    var n := |pools| - 1;
    if p < n {
      QueuedUpdate(pools[..n], p, pool, e);
      assert pools[p := pool][..n] == pools[..n][p := pool];
    } else {
      assert pools[p := pool][..n] == pools[..n];
    }
  }

  /** In how many places an entry is: queues, and threads that hold it. */
  function Places(s: State, e: nat): nat {
    Queued(s.pools, e) + CountIn(s.threads, Holding(e))
  }

  /** What one pool and one thread hold of an entry before and after a step. */
  lemma PlacesUpdate(s: State, t: nat, thread: Thread, p: nat, pool: Pool, e: nat)
    requires t < |s.threads| && p < |s.pools|
    ensures
      var held, holds := if s.threads[t] == Holding(e) then 1 else 0, if thread == Holding(e) then 1 else 0;
      Places(Set(s, t, thread, p, pool), e) + CountIn(s.pools[p].queue, e) + held
      == Places(s, e) + CountIn(pool.queue, e) + holds
  {
    CountInUpdate(s.threads, t, thread, Holding(e));
    QueuedUpdate(s.pools, p, pool, e);
  }

  lemma QueueStays(s: State, t: nat, thread: Thread, p: nat, pool: Pool, e: nat)
    requires t < |s.threads| && p < |s.pools| && pool.queue == s.pools[p].queue
    requires !s.threads[t].Holding? && !thread.Holding?
    ensures Places(Set(s, t, thread, p, pool), e) == Places(s, e)
  {
    PlacesUpdate(s, t, thread, p, pool, e);
  }

  lemma PopKeepsPlaces(s: State, step: Step, e: nat)
    requires Enabled(s, step) && step.Pop?
    ensures Places(Next(s, step), e) == Places(s, e)
  {
    var r, p := Next(s, step), s.threads[step.t].pool;
    PlacesUpdate(s, step.t, r.threads[step.t], p, r.pools[p], e);
  }

  lemma InsertKeepsPlaces(s: State, step: Step, e: nat)
    requires Enabled(s, step) && step.Insert?
    ensures Places(Next(s, step), e) == Places(s, e)
  {
    var r, p := Next(s, step), step.p;
    PlacesUpdate(s, step.t, r.threads[step.t], p, r.pools[p], e);
    if !step.head {
      CountInAppend(s.pools[p].queue, s.threads[step.t].entry, e);
    }
  }

  lemma RemoveKeepsPlaces(s: State, step: Step, e: nat)
    requires Enabled(s, step) && step.Remove?
    ensures Places(Next(s, step), e) == Places(s, e)
  {
    var r, p := Next(s, step), step.p;
    var i := IndexOf(s.pools[p].queue, step.entry);
    if i < |s.pools[p].queue| {
      CountInWithout(s.pools[p].queue, i, e);
      PlacesUpdate(s, step.t, r.threads[step.t], p, r.pools[p], e);
    }
  }

  lemma StepKeepsPlaces(s: State, step: Step, e: nat)
    requires Enabled(s, step)
    ensures Places(Next(s, step), e) == Places(s, e)
  {
    var r := Next(s, step);
    match step
    case Wait(t, p) => QueueStays(s, t, r.threads[t], p, r.pools[p], e);
    case TimeOut(_, _) =>
    case Start(t, _) => CountInUpdate(s.threads, t, r.threads[t], Holding(e));
    case Pop(_) => PopKeepsPlaces(s, step, e);
    case Insert(_, _, _) => InsertKeepsPlaces(s, step, e);
    case Post(t) => QueueStays(s, t, r.threads[t], s.threads[t].pool, r.pools[s.threads[t].pool], e);
    case Unlock(t) => QueueStays(s, t, r.threads[t], s.threads[t].pool, r.pools[s.threads[t].pool], e);
    case Remove(_, _, _) => RemoveKeepsPlaces(s, step, e);
  }

  /** Main theorem on entries: no interleaving loses or duplicates an entry, so entries that
      are distinct at the start stay partitioned between the queues and the threads. */
  lemma {:induction false} EntriesArePartitioned(states: seq<State>, steps: seq<Step>, e: nat)
    requires IsRun(states, steps)
    ensures Places(states[|steps|], e) == Places(states[0], e)
    decreases |steps|
  {
    if steps != [] {
      var n := |steps| - 1;
      EntriesArePartitioned(states[..n + 1], steps[..n], e);
      StepKeepsPlaces(states[n], steps[n], e);
    }
  }

  // ---------------------------------------------------------------------------------------
  // In which order the entries come out
  // ---------------------------------------------------------------------------------------

  /** What a step takes from the front of pool `p`: by a get, claimed or not. */
  function Taken(s: State, step: Step, p: nat): seq<nat>
    requires Enabled(s, step) && p < |s.pools|
  {
    if step.Pop? && s.threads[step.t].pool == p && s.pools[p].queue != [] then [s.pools[p].queue[0]] else []
  }

  /** What a step puts at the end of pool `p`. */
  function Added(s: State, step: Step, p: nat): seq<nat>
    requires Enabled(s, step) && p < |s.pools|
  {
    if step.Insert? && step.p == p && !step.head then [s.threads[step.t].entry] else []
  }

  /** The queue of a pool after a step, and who has what was taken out of it. */
  lemma QueueAfter(s: State, step: Step, p: nat)
    requires Enabled(s, step) && p < |s.pools|
    ensures
      var q, r := s.pools[p].queue, Next(s, step);
      if step.Remove? && step.p == p then
        if step.entry in q then
          && r.threads[step.t] == Holding(step.entry)
          && exists i :: 0 <= i < |q| && q[i] == step.entry && r.pools[p].queue == q[..i] + q[i + 1..]
        else r == s
      else if step.Insert? && step.p == p && step.head then r.pools[p].queue == [s.threads[step.t].entry] + q
      else Taken(s, step, p) + r.pools[p].queue == q + Added(s, step, p)
    ensures Taken(s, step, p) != [] ==> Next(s, step).threads[step.t] == Holding(Taken(s, step, p)[0])
  {
    var q := s.pools[p].queue;
    match step
    case Pop(t) =>
      if s.threads[t].pool == p && q != [] {
        assert [q[0]] + q[1..] == q + [];
      }
    case Remove(_, m, e) =>
      var i := IndexOf(s.pools[m].queue, e);
      assert i < |s.pools[m].queue| ==> s.pools[m].queue[i] == e;
      assert [] + q == q + [];
    case _ =>
      assert [] + q == q + [];
  }

  /** What the first `n` steps of a run took from the front of pool `p`, and put at its end. */
  function AllTaken(states: seq<State>, steps: seq<Step>, p: nat, n: nat): seq<nat>
    requires n <= |steps| < |states|
    requires forall i :: 0 <= i < n ==> Enabled(states[i], steps[i]) && p < |states[i].pools|
  {
    if n == 0 then [] else AllTaken(states, steps, p, n - 1) + Taken(states[n - 1], steps[n - 1], p)
  }

  function AllAdded(states: seq<State>, steps: seq<Step>, p: nat, n: nat): seq<nat>
    requires n <= |steps| < |states|
    requires forall i :: 0 <= i < n ==> Enabled(states[i], steps[i]) && p < |states[i].pools|
  {
    if n == 0 then [] else AllAdded(states, steps, p, n - 1) + Added(states[n - 1], steps[n - 1], p)
  }

  lemma Shift(
      taken: seq<nat>, one: seq<nat>, now: seq<nat>, was: seq<nat>, start: seq<nat>, added: seq<nat>, last: seq<nat>)
    requires taken + was == start + added && one + now == was + last
    ensures taken + one + now == start + (added + last)
  {
    assert taken + one + now == taken + (one + now) == taken + was + last == start + added + last;
  }

  /** Main theorem on the order: as long as nobody puts an entry at the front of a pool or takes a given
      one out, whatever the threads, the entries come out in the order in which they went in. */
  lemma {:induction false} FirstInFirstOut(states: seq<State>, steps: seq<Step>, p: nat, n: nat)
    requires IsRun(states, steps) && p < |states[0].pools| && n <= |steps|
    requires forall i :: 0 <= i < n ==> !(steps[i].Remove? && steps[i].p == p)
    requires forall i :: 0 <= i < n ==> !(steps[i].Insert? && steps[i].p == p && steps[i].head)
    ensures forall i :: 0 <= i <= n ==> p < |states[i].pools|
    ensures AllTaken(states, steps, p, n) + states[n].pools[p].queue
      == states[0].pools[p].queue + AllAdded(states, steps, p, n)
  {
    forall i | 0 <= i <= n ensures p < |states[i].pools| {
      PoolsStay(states, steps, i);
    }
    if n == 0 {
      assert [] + states[0].pools[p].queue == states[0].pools[p].queue + [];
    } else {
      var m := n - 1;
      FirstInFirstOut(states, steps, p, m);
      QueueAfter(states[m], steps[m], p);
      Shift(
        AllTaken(states, steps, p, m), Taken(states[m], steps[m], p), states[n].pools[p].queue,
        states[m].pools[p].queue,
        states[0].pools[p].queue, AllAdded(states, steps, p, m), Added(states[m], steps[m], p));
    }
  }
}
