/** The asynchronous message loop: requests take a message out of one pool and put it into the
    other, the loop executes it and puts it back. */
module AsyncLoop {
  import opened Counting
  import opened Options
  import opened Pools
  import P = PoolProtocol

  const MESSAGE_COUNT := 100
  const CHECK_INTERVAL := 1_000_000_000   // one second

  datatype Work = NoWork | CheckGroup(group: nat) | CheckSlave(slave: nat) | CheckDcsOffset(correction: int)

  datatype Message = Message(entry: nat, work: Work)

  /** The messages that a loop starts with. */
  function Fresh(n: nat): (ms: seq<Message>)
    ensures |ms| == n
  {
    seq(n, i requires 0 <= i < n => Message(i, NoWork))
  }

  function WorkOf(ms: seq<Message>): (ws: seq<Work>)
    ensures |ws| == |ms|
  {
    seq(|ms|, i requires 0 <= i < |ms| => ms[i].work)
  }

  class Loop {
    const avail: Pool<Message>
    const exec: Pool<Message>
    var nextCheckGroup: nat          // no group is checked before this time
    ghost var scheduled: seq<Work>   // every request that got a message
    ghost var executed: seq<Work>    // what the loop has done

    /** The messages are divided between the two pools, whose semaphores are exact; and what is
        queued for execution is what was scheduled and not yet done, oldest first. */
    ghost predicate Valid()
      reads this, avail, exec
    {
      && avail != exec
      && avail.availCnt == |avail.avail| && exec.availCnt == |exec.avail|
      && |avail.avail| + |exec.avail| == MESSAGE_COUNT
      && scheduled == executed + WorkOf(exec.avail)
    }

    constructor (now: nat)
      ensures Valid() && nextCheckGroup == now && fresh(avail) && fresh(exec) && scheduled == [] && executed == []
    {
      avail := new Pool<Message>(Fresh(MESSAGE_COUNT));
      exec := new Pool<Message>([]);
      nextCheckGroup := now;
      scheduled, executed := [], [];
    }

    /** Schedule work, unless all messages are in use. */
    method Schedule(work: Work)
      requires Valid()
      modifies this, avail, exec
      ensures Valid() && executed == old(executed) && nextCheckGroup == old(nextCheckGroup)
      ensures scheduled == if |old(exec.avail)| < 100 then old(scheduled) + [work] else old(scheduled)
    {
      var status, me := avail.Get(true);
      if status == Ok {
        exec.Put(me.value.(work := work));
        scheduled := scheduled + [work];
        assert WorkOf(exec.avail) == WorkOf(old(exec.avail)) + [work];
      }
    }

    /** A group check is scheduled only when the last one, of whatever group, is long enough ago.
        The timer starts again even when there is no message for the check. */
    method CheckGroups(group: nat, now: nat)
      requires Valid()
      modifies this, avail, exec
      ensures Valid() && executed == old(executed)
      ensures nextCheckGroup == if now >= old(nextCheckGroup) then now + 1_000_000_000 else old(nextCheckGroup)
      ensures scheduled ==
        if now >= old(nextCheckGroup) && |old(exec.avail)| < MESSAGE_COUNT then old(scheduled) + [CheckGroup(group)]
        else old(scheduled)
    {
      if now >= nextCheckGroup {
        nextCheckGroup := now + CHECK_INTERVAL;
        Schedule(CheckGroup(group));
      }
    }

    /** A check of all groups, within the interval, is a check of the first one alone: it starts the
        timer that all of them share. */
    method CheckAll(groups: nat, now: nat)
      requires Valid()
      modifies this, avail, exec
      ensures Valid() && executed == old(executed)
      ensures scheduled ==
        if groups > 0 && now >= old(nextCheckGroup) && |old(exec.avail)| < MESSAGE_COUNT then
          old(scheduled) + [CheckGroup(0)]
        else old(scheduled)
    {
      for group := 0 to groups
        invariant Valid() && executed == old(executed)
        invariant group == 0 ==>
          nextCheckGroup == old(nextCheckGroup) && scheduled == old(scheduled) && |exec.avail| == |old(exec.avail)|
        invariant group > 0 ==> now < nextCheckGroup
        invariant group > 0 ==>
          scheduled == (
            if now >= old(nextCheckGroup) && |old(exec.avail)| < MESSAGE_COUNT then old(scheduled) + [CheckGroup(0)]
            else old(scheduled))
      {
        CheckGroups(group, now);
      }
    }

    /** One step of the loop executes the oldest request that is scheduled and not yet done. */
    method Step() returns (done: Option<Work>)
      requires Valid()
      modifies this, avail, exec
      ensures Valid() && scheduled == old(scheduled) && nextCheckGroup == old(nextCheckGroup)
      ensures old(executed) == old(scheduled) ==> done == None && executed == old(executed)
      ensures old(executed) != old(scheduled) ==>
        && |old(executed)| < |old(scheduled)|
        && done == Some(old(scheduled)[|old(executed)|])
        && executed == old(scheduled)[..|old(executed)| + 1]
    {
      done := None;
      ghost var was := exec.avail;
      var status, me := exec.Get(true);
      if status == Ok {
        done := Some(me.value.work);
        executed := executed + [me.value.work];
        assert WorkOf(was) == [me.value.work] + WorkOf(was[1..]);
        avail.Put(me.value);
      }
    }
  }

  // ---------------------------------------------------------------------------------------
  // Under every interleaving
  // ---------------------------------------------------------------------------------------

  /** The two pools at the start: all messages in the first one, none in the second. */
  ghost predicate Created(s: P.State) {
    && P.Opened(s) && |s.pools| == 2
    && s.pools[0].queue == Upto(MESSAGE_COUNT) && s.pools[1].queue == []
  }

  /** Under every interleaving of any number of threads that schedule and execute, every one of
      the messages is in exactly one place: in one of the two queues, or held by one thread. */
  lemma MessagesStayPartitioned(states: seq<P.State>, steps: seq<P.Step>, message: nat)
    requires P.IsRun(states, steps) && Created(states[0]) && message < 100
    ensures P.Places(states[|steps|], message) == 1
  {
    P.EntriesArePartitioned(states, steps, message);
    var s := states[0];
    CountInUpto(MESSAGE_COUNT, message);
    CountInNone(s.threads, P.Holding(message));
    assert s.pools[..1][..0] == [];
    assert P.Queued(s.pools[..1], message) == CountIn(s.pools[0].queue, message);
  }
}
