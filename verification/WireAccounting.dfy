/** The table of datagrams on the wire, one slot per datagram index, and what every run of
    the protocol does to it: each send is answered by a callback, counted as lost, withdrawn,
    or overwritten, and never by two of them. */
module WireAccounting {
  import opened Options

  /** What can happen to a datagram.  `Overwritten` leaves no trace in the source: a datagram
      goes out while its slot is still taken. */
  datatype Kind = Sent | Called | Lost | Withdrawn | Overwritten

  datatype Event = Event(kind: Kind, idx: nat, id: nat)

  /** The slots, the counter of lost datagrams, and the history so far. */
  datatype Table = Table(txSend: seq<Option<nat>>, lost: nat, log: seq<Event>)

  const SLOTS := 0x100

  predicate WellFormed(t: Table) {
    |t.txSend| == SLOTS
  }

  function Initial(): (t: Table)
    ensures WellFormed(t) && forall i :: 0 <= i < SLOTS ==> t.txSend[i] == None
  {
    Table(seq(SLOTS, _ => None), 0, [])
  }

  // ---------------------------------------------------------------------------------------
  // The operations on one slot
  // ---------------------------------------------------------------------------------------

  /** Close the entry in a slot, if there is one. */
  function Closed(t: Table, kind: Kind, idx: nat): (r: Table)
    requires WellFormed(t) && idx < SLOTS
    ensures WellFormed(r)
  {
    match t.txSend[idx]
    case None => t
    case Some(id) => t.(txSend := t.txSend[idx := None], log := t.log + [Event(kind, idx, id)])
  }

  /** An entry is queued: whatever is still in its slot counts as lost. */
  function Enqueued(t: Table, idx: nat): (r: Table)
    requires WellFormed(t) && idx < SLOTS
    ensures WellFormed(r)
  {
    Closed(t, Lost, idx).(lost := t.lost + if t.txSend[idx].Some? then 1 else 0)
  }

  /** A datagram goes out: its entry is put into its slot. */
  function Noted(t: Table, idx: nat, id: nat): (r: Table)
    requires WellFormed(t) && idx < SLOTS
    ensures WellFormed(r)
  {
    var s := Closed(t, Overwritten, idx);
    s.(txSend := s.txSend[idx := Some(id)], log := s.log + [Event(Sent, idx, id)])
  }

  /** A datagram comes in: the entry in its slot, if any, is called back. */
  function Dispatched(t: Table, idx: nat): (r: Table)
    requires WellFormed(t) && idx < SLOTS
    ensures WellFormed(r)
  {
    Closed(t, Called, idx)
  }

  /** A synchronous transfer that has run out of time clears the sent mark of its datagram. */
  function Released(t: Table, idx: nat): (r: Table)
    requires WellFormed(t) && idx < SLOTS
    ensures WellFormed(r)
  {
    Closed(t, Withdrawn, idx)
  }

  function DispatchedAll(t: Table, frame: seq<nat>): (r: Table)
    requires WellFormed(t) && forall i :: 0 <= i < |frame| ==> frame[i] < SLOTS
    ensures WellFormed(r)
    decreases |frame|
  {
    if frame == [] then t else DispatchedAll(Dispatched(t, frame[0]), frame[1..])
  }

  // ---------------------------------------------------------------------------------------
  // Histories
  // ---------------------------------------------------------------------------------------

  /** Where the open send of an index is in the history. */
  function OpenSend(log: seq<Event>, idx: nat): (p: Option<nat>)
    ensures p.Some? ==> p.value < |log| && log[p.value].kind == Sent && log[p.value].idx == idx
  {
    if log == [] then None
    else
      var last := log[|log| - 1];
      if last.idx != idx then OpenSend(log[..|log| - 1], idx)
      else if last.kind == Sent then Some(|log| - 1)
      else None
  }

  /** Every send finds its index closed; every other event closes the open send of its index
      and names the same entry. */
  ghost predicate Paired(log: seq<Event>) {
    forall k :: 0 <= k < |log| ==> PairedAt(log, k)
  }

  ghost predicate PairedAt(log: seq<Event>, k: nat)
    requires k < |log|
  {
    var open := OpenSend(log[..k], log[k].idx);
    if log[k].kind == Sent then open == None
    else open.Some? && log[open.value].id == log[k].id
  }

  /** How many events of a kind there are for an index. */
  function CountOf(log: seq<Event>, kind: Kind, idx: nat): nat {
    if log == [] then 0
    else
      var last := log[|log| - 1];
      CountOf(log[..|log| - 1], kind, idx) + if last.kind == kind && last.idx == idx then 1 else 0
  }

  function CountAll(log: seq<Event>, kind: Kind): nat {
    if log == [] then 0
    else CountAll(log[..|log| - 1], kind) + if log[|log| - 1].kind == kind then 1 else 0
  }

  /** The invariant of every run. */
  ghost predicate Consistent(t: Table) {
    && WellFormed(t)
    && Paired(t.log)
    && t.lost == CountAll(t.log, Lost)
    && forall idx :: 0 <= idx < SLOTS ==> SlotMatches(t, idx)
  }

  ghost predicate SlotMatches(t: Table, idx: nat)
    requires WellFormed(t) && idx < SLOTS
  {
    var open := OpenSend(t.log, idx);
    t.txSend[idx] == if open.Some? then Some(t.log[open.value].id) else None
  }

  lemma PairedExtends(log: seq<Event>, e: Event)
    requires Paired(log) && PairedAt(log + [e], |log|)
    ensures Paired(log + [e])
  {
    forall k | 0 <= k < |log| + 1
      ensures PairedAt(log + [e], k)
    {
      if k < |log| {
        assert PairedAt(log, k);
        assert (log + [e])[..k] == log[..k];
      }
    }
  }

  lemma ClosedKeeps(t: Table, kind: Kind, idx: nat)
    requires Consistent(t) && idx < SLOTS && kind != Sent
    ensures var r := Closed(t, kind, idx);
      && Paired(r.log)
      && (forall i :: 0 <= i < SLOTS ==> SlotMatches(r, i))
      && CountAll(r.log, Lost) == t.lost + (if kind == Lost && t.txSend[idx].Some? then 1 else 0)
      && r.txSend[idx] == None
  {
    assert SlotMatches(t, idx);
    if t.txSend[idx].Some? {
      var e := Event(kind, idx, t.txSend[idx].value);
      var log := t.log + [e];
      assert log[..|t.log|] == t.log;
      PairedExtends(t.log, e);
      forall i | 0 <= i < SLOTS
        ensures SlotMatches(Closed(t, kind, idx), i)
      {
        assert SlotMatches(t, i);
      }
    }
  }

  /** A slot that is empty takes a send. */
  lemma SendingKeeps(s: Table, r: Table, idx: nat, e: Event)
    requires WellFormed(s) && idx < SLOTS && s.txSend[idx] == None && Paired(s.log)
    requires forall i :: 0 <= i < SLOTS ==> SlotMatches(s, i)
    requires e.kind == Sent && e.idx == idx
    requires r == Table(s.txSend[idx := Some(e.id)], s.lost, s.log + [e])
    ensures WellFormed(r) && Paired(r.log)
    ensures forall i :: 0 <= i < SLOTS ==> SlotMatches(r, i)
    ensures CountAll(r.log, Lost) == CountAll(s.log, Lost)
  {
    assert r.log[..|s.log|] == s.log;
    assert SlotMatches(s, idx);
    PairedExtends(s.log, e);
    forall i | 0 <= i < SLOTS ensures SlotMatches(r, i) {
      assert SlotMatches(s, i);
    }
  }

  lemma NotedKeeps(t: Table, idx: nat, id: nat)
    requires Consistent(t) && idx < SLOTS
    ensures Consistent(Noted(t, idx, id))
  {
    ClosedKeeps(t, Overwritten, idx);
    var s, e := Closed(t, Overwritten, idx), Event(Sent, idx, id);
    SendingKeeps(s, Noted(t, idx, id), idx, e);
  }

  // ---------------------------------------------------------------------------------------
  // Runs
  // ---------------------------------------------------------------------------------------

  /** One step.  What is received is arbitrary: frames may get lost, be repeated or overtake
      each other on the wire. */
  datatype Step =
    | Enqueue(idx: nat)
    | Transmit(idx: nat, id: nat)
    | Receive(frame: seq<nat>)
    | Withdraw(idx: nat)

  predicate InRange(step: Step) {
    match step
    case Receive(frame) => forall i :: 0 <= i < |frame| ==> frame[i] < SLOTS
    case _ => step.idx < SLOTS
  }

  function After(t: Table, step: Step): (r: Table)
    requires WellFormed(t) && InRange(step)
    ensures WellFormed(r)
  {
    match step
    case Enqueue(idx) => Enqueued(t, idx)
    case Transmit(idx, id) => Noted(t, idx, id)
    case Receive(frame) => DispatchedAll(t, frame)
    case Withdraw(idx) => Released(t, idx)
  }

  predicate AllInRange(run: seq<Step>) {
    forall i :: 0 <= i < |run| ==> InRange(run[i])
  }

  function Run(run: seq<Step>): (t: Table)
    requires AllInRange(run)
    ensures WellFormed(t)
  {
    if run == [] then Initial() else After(Run(run[..|run| - 1]), run[|run| - 1])
  }

  /** What the steps do to the slots: a transmission puts its entry into the slot of its index, and
      everything else empties a slot.  Only what enqueueing finds in a slot counts as lost. */
  lemma StepsOnSlots(t: Table, idx: nat, id: nat)
    requires WellFormed(t) && idx < 256
    ensures After(t, Transmit(idx, id)).txSend == t.txSend[idx := Some(id)]
    ensures After(t, Transmit(idx, id)).lost == t.lost
    ensures After(t, Enqueue(idx)).txSend == t.txSend[idx := None]
    ensures After(t, Enqueue(idx)).lost == t.lost + if t.txSend[idx].Some? then 1 else 0
    ensures After(t, Withdraw(idx)).txSend == t.txSend[idx := None] && After(t, Withdraw(idx)).lost == t.lost
  {
    assert t.txSend[idx := t.txSend[idx]] == t.txSend;
  }

  /** A received frame empties the slots of its datagrams and no others, and loses nothing. */
  lemma {:induction false} ReceivingOnSlots(t: Table, frame: seq<nat>, i: nat)
    requires WellFormed(t) && i < 256 && forall k :: 0 <= k < |frame| ==> frame[k] < 256
    ensures DispatchedAll(t, frame).txSend[i] == (if i in frame then None else t.txSend[i])
    ensures DispatchedAll(t, frame).lost == t.lost
    decreases |frame|
  {
    if frame != [] {
      ReceivingOnSlots(Dispatched(t, frame[0]), frame[1..], i);
      assert frame == [frame[0]] + frame[1..];
    }
  }

  lemma {:induction false} DispatchedAllKeeps(t: Table, frame: seq<nat>)
    requires Consistent(t) && forall i :: 0 <= i < |frame| ==> frame[i] < SLOTS
    ensures Consistent(DispatchedAll(t, frame))
    decreases |frame|
  {
    if frame != [] {
      ClosedKeeps(t, Called, frame[0]);
      DispatchedAllKeeps(Dispatched(t, frame[0]), frame[1..]);
    }
  }

  lemma StepKeeps(t: Table, step: Step)
    requires Consistent(t) && InRange(step)
    ensures Consistent(After(t, step))
  {
    match step
    case Enqueue(idx) =>
      ClosedKeeps(t, Lost, idx);
      var c, r := Closed(t, Lost, idx), After(t, step);
      assert r.log == c.log && r.txSend == c.txSend;
      assert forall i :: 0 <= i < SLOTS ==> SlotMatches(c, i) ==> SlotMatches(r, i);
    case Transmit(idx, id) => NotedKeeps(t, idx, id);
    case Receive(frame) => DispatchedAllKeeps(t, frame);
    case Withdraw(idx) => ClosedKeeps(t, Withdrawn, idx);
  }

  lemma {:induction false} RunKeeps(run: seq<Step>)
    requires AllInRange(run)
    ensures Consistent(Run(run))
  {
    if run != [] {
      RunKeeps(run[..|run| - 1]);
      StepKeeps(Run(run[..|run| - 1]), run[|run| - 1]);
    }
  }

  // ---------------------------------------------------------------------------------------
  // Accounting
  // ---------------------------------------------------------------------------------------

  lemma {:induction false} PairedBalances(log: seq<Event>, idx: nat)
    requires Paired(log)
    ensures CountOf(log, Sent, idx) ==
      CountOf(log, Called, idx) + CountOf(log, Lost, idx) + CountOf(log, Withdrawn, idx)
      + CountOf(log, Overwritten, idx) + if OpenSend(log, idx).Some? then 1 else 0
  {
    if log != [] {
      var init, last := log[..|log| - 1], log[|log| - 1];
      forall k | 0 <= k < |init|
        ensures PairedAt(init, k)
      {
        assert PairedAt(log, k);
        assert init[..k] == log[..k];
      }
      PairedBalances(init, idx);
      assert PairedAt(log, |init|);
    }
  }

  /** Main theorem on counts: after every run, for every index, the sends are the callbacks
      plus the counted losses plus what was withdrawn or overwritten, plus one while the slot
      is taken; and the loss counter is the number of losses. */
  lemma EverySendIsAccountedFor(run: seq<Step>, idx: nat)
    requires AllInRange(run) && idx < SLOTS
    ensures
      var t := Run(run);
      && CountOf(t.log, Sent, idx) ==
          CountOf(t.log, Called, idx) + CountOf(t.log, Lost, idx) + CountOf(t.log, Withdrawn, idx)
          + CountOf(t.log, Overwritten, idx) + (if t.txSend[idx].Some? then 1 else 0)
      && t.lost == CountAll(t.log, Lost)
  {
    RunKeeps(run);
    PairedBalances(Run(run).log, idx);
    assert SlotMatches(Run(run), idx);
  }

  /** Nothing happened to an index since its open send. */
  lemma {:induction false} OpenSendIsLast(log: seq<Event>, idx: nat, k: nat)
    requires OpenSend(log, idx).Some? && OpenSend(log, idx).value < k < |log|
    ensures log[k].idx != idx
  {
    if k < |log| - 1 {
      OpenSendIsLast(log[..|log| - 1], idx, k);
    }
  }

  /** Main theorem on callbacks: in every run, every callback answers an earlier send of its
      index with the same entry, and two callbacks never answer the same send. */
  lemma NoSendIsCalledTwice(run: seq<Step>, i: nat, k: nat)
    requires AllInRange(run)
    requires var log := Run(run).log; i < k < |log| && log[i].kind == Called && log[k].kind == Called
    ensures
      var log := Run(run).log;
      var p, q := OpenSend(log[..i], log[i].idx), OpenSend(log[..k], log[k].idx);
      && p.Some? && q.Some? && p.value != q.value
      && log[p.value] == Event(Sent, log[i].idx, log[i].id)
      && log[q.value] == Event(Sent, log[k].idx, log[k].id)
  {
    RunKeeps(run);
    var log := Run(run).log;
    assert PairedAt(log, i) && PairedAt(log, k);
    var q := OpenSend(log[..k], log[k].idx);
    if log[i].idx == log[k].idx && q.value < i {
      OpenSendIsLast(log[..k], log[k].idx, i);
    }
  }

  // ---------------------------------------------------------------------------------------
  // When is a send overwritten?
  // ---------------------------------------------------------------------------------------

  /** Of all steps that concern an index, the last one was its transmission. */
  predicate OnWire(run: seq<Step>, idx: nat) {
    if run == [] then false
    else
      var before := OnWire(run[..|run| - 1], idx);
      match run[|run| - 1]
      case Enqueue(i) => i != idx && before
      case Transmit(i, _) => i == idx || before
      case Receive(frame) => idx !in frame && before
      case Withdraw(i) => i != idx && before
  }

  /** Step `k` transmits an index that is still on the wire. */
  predicate OverwritesAt(run: seq<Step>, k: nat)
    requires k < |run|
  {
    run[k].Transmit? && OnWire(run[..k], run[k].idx)
  }

  /** Receiving a frame empties the slots of its datagrams, and overwrites nothing. */
  lemma {:induction false} DispatchedAllOnlyCalls(t: Table, frame: seq<nat>, idx: nat)
    requires WellFormed(t) && idx < SLOTS && forall i :: 0 <= i < |frame| ==> frame[i] < SLOTS
    ensures
      var r := DispatchedAll(t, frame);
      && CountAll(r.log, Overwritten) == CountAll(t.log, Overwritten)
      && r.txSend[idx] == if idx in frame then None else t.txSend[idx]
    decreases |frame|
  {
    if frame != [] {
      var s := Dispatched(t, frame[0]);
      if t.txSend[frame[0]].Some? {
        assert s.log[..|s.log| - 1] == t.log;
      }
      DispatchedAllOnlyCalls(s, frame[1..], idx);
      assert idx in frame <==> idx == frame[0] || idx in frame[1..];
    }
  }

  /** A slot is taken exactly while its index is on the wire. */
  lemma {:induction false} SlotIsOnWire(run: seq<Step>, idx: nat)
    requires AllInRange(run) && idx < SLOTS
    ensures Run(run).txSend[idx].Some? <==> OnWire(run, idx)
  {
    if run != [] {
      var t, last := Run(run[..|run| - 1]), run[|run| - 1];
      SlotIsOnWire(run[..|run| - 1], idx);
      if last.Receive? {
        DispatchedAllOnlyCalls(t, last.frame, idx);
      }
    }
  }

  lemma RunStep(run: seq<Step>, n: nat)
    requires AllInRange(run) && 0 < n <= |run|
    ensures InRange(run[n - 1]) && Run(run[..n]) == After(Run(run[..n - 1]), run[n - 1])
  {
    assert run[..n][..n - 1] == run[..n - 1];
  }

  lemma CountAllAppend(log: seq<Event>, e: Event, kind: Kind)
    ensures CountAll(log + [e], kind) == CountAll(log, kind) + if e.kind == kind then 1 else 0
  {
    assert (log + [e])[..|log|] == log;
  }

  lemma ClosedCounts(t: Table, kind: Kind, idx: nat)
    requires WellFormed(t) && idx < SLOTS
    ensures CountAll(Closed(t, kind, idx).log, Overwritten)
      == CountAll(t.log, Overwritten) + if kind == Overwritten && t.txSend[idx].Some? then 1 else 0
  {
    if t.txSend[idx].Some? {
      CountAllAppend(t.log, Event(kind, idx, t.txSend[idx].value), Overwritten);
    }
  }

  /** A step overwrites a send exactly when it transmits into a taken slot. */
  lemma StepOverwrites(t: Table, step: Step)
    requires WellFormed(t) && InRange(step)
    ensures CountAll(After(t, step).log, Overwritten)
      == CountAll(t.log, Overwritten) + if step.Transmit? && t.txSend[step.idx].Some? then 1 else 0
  {
    match step
    case Enqueue(idx) => ClosedCounts(t, Lost, idx);
    case Transmit(idx, id) =>
      ClosedCounts(t, Overwritten, idx);
      CountAllAppend(Closed(t, Overwritten, idx).log, Event(Sent, idx, id), Overwritten);
    case Receive(frame) => DispatchedAllOnlyCalls(t, frame, 0);
    case Withdraw(idx) => ClosedCounts(t, Withdrawn, idx);
  }

  /** How many of the first `n` steps do so. */
  function Overwrites(run: seq<Step>, n: nat): nat
    requires n <= |run|
  {
    if n == 0 then 0 else Overwrites(run, n - 1) + if OverwritesAt(run, n - 1) then 1 else 0
  }

  /** After every run, the sends that were overwritten are the transmissions of an index that was
      on the wire. */
  lemma {:induction false} OverwritesAreCounted(run: seq<Step>, n: nat)
    requires AllInRange(run) && n <= |run|
    ensures CountAll(Run(run[..n]).log, Overwritten) == Overwrites(run, n)
  {
    if n > 0 {
      var t := Run(run[..n - 1]);
      OverwritesAreCounted(run, n - 1);
      RunStep(run, n);
      StepOverwrites(t, run[n - 1]);
      if run[n - 1].Transmit? {
        SlotIsOnWire(run[..n - 1], run[n - 1].idx);
      }
    }
  }

  lemma {:induction false} WhenCountIsZero(run: seq<Step>, n: nat)
    requires n <= |run|
    ensures Overwrites(run, n) == 0 <==> forall k :: 0 <= k < n ==> !OverwritesAt(run, k)
  {
    if n > 0 {
      WhenCountIsZero(run, n - 1);
    }
  }

  /** Main theorem on uncounted losses: nothing is overwritten in a run if and only if no index is
      transmitted while it is on the wire. */
  lemma WhenNothingIsOverwritten(run: seq<Step>)
    requires AllInRange(run)
    ensures CountAll(Run(run).log, Overwritten) == 0 <==> forall k :: 0 <= k < |run| ==> !OverwritesAt(run, k)
  {
    assert run[..|run|] == run;
    OverwritesAreCounted(run, |run|);
    WhenCountIsZero(run, |run|);
  }

  lemma RunAppend(run: seq<Step>, step: Step)
    requires AllInRange(run) && AllInRange([step])
    ensures AllInRange(run + [step]) && Run(run + [step]) == After(Run(run), step)
  {
    assert (run + [step])[..|run|] == run;
    assert forall k :: 0 <= k < |run| ==> (run + [step])[k] == run[k];
    assert [step][0] == step;
  }

  /** It does happen when a datagram goes out without having been enqueued by the call that looks
      at its slot, as the measurement of the packet duration does with index 0: the send that was on
      the wire under that index is neither called back nor counted as lost. */
  lemma OverwritingLosesTheCount(a: nat, b: nat)
    ensures
      var run := [Enqueue(0), Transmit(0, a), Transmit(0, b), Receive([0])];
      && AllInRange(run) && OverwritesAt(run, 2)
      && Run(run).log == [Event(Sent, 0, a), Event(Overwritten, 0, a), Event(Sent, 0, b), Event(Called, 0, b)]
      && Run(run).lost == 0 && Run(run).txSend[0] == None
  {
    var first, second := [Enqueue(0)], [Enqueue(0), Transmit(0, a)];
    var third := [Enqueue(0), Transmit(0, a), Transmit(0, b)];
    var run := third + [Receive([0])];
    assert run[..2] == second && second[..1] == first && third[..2] == second && run[2] == Transmit(0, b);
    assert run == [Enqueue(0), Transmit(0, a), Transmit(0, b), Receive([0])];
    assert OnWire(second, 0) && OverwritesAt(run, 2);
    RunAppend([], Enqueue(0));
    RunAppend(first, Transmit(0, a));
    RunAppend(second, Transmit(0, b));
    RunAppend(third, Receive([0]));
    assert Run(first) == Initial();
    assert Run(second).log == [Event(Sent, 0, a)];
    assert Run(third).log == [Event(Sent, 0, a), Event(Overwritten, 0, a), Event(Sent, 0, b)];
    assert [0][1..] == [];
    assert DispatchedAll(Run(third), [0]) == Dispatched(Run(third), 0);
  }

  /** The indices that are queued after a run: enqueued and not yet transmitted. */
  function Queued(run: seq<Step>): multiset<nat> {
    if run == [] then multiset{}
    else
      var q := Queued(run[..|run| - 1]);
      match run[|run| - 1]
      case Enqueue(idx) => q + multiset{idx}
      case Transmit(idx, _) => q - multiset{idx}
      case _ => q
  }

  /** One way to see to it: datagrams are only transmitted when queued, and no index is queued twice: its owner
      waits for the transmission of its datagram before it enqueues it again. */
  ghost predicate Disciplined(run: seq<Step>) {
    AllInRange(run) && forall k :: 0 <= k < |run| ==>
      match run[k]
      case Enqueue(idx) => idx !in Queued(run[..k])
      case Transmit(idx, _) => idx in Queued(run[..k])
      case _ => true
  }

  predicate IsAbout(step: Step, idx: nat) {
    step == Enqueue(idx) || (step.Transmit? && step.idx == idx)
  }

  /** In a disciplined run an index is queued when the last thing done to it is that it was enqueued,
      and not queued when it was transmitted, or nothing was. */
  lemma {:induction false} QueuedSinceLast(run: seq<Step>, idx: nat, k: nat)
    requires Disciplined(run) && k <= |run| && forall j :: k < j < |run| ==> !IsAbout(run[j], idx)
    requires k < |run| ==> IsAbout(run[k], idx)
    requires k == |run| ==> forall j :: 0 <= j < |run| ==> !IsAbout(run[j], idx)
    ensures idx in Queued(run) <==> k < |run| && run[k].Enqueue?
    decreases |run|
  {
    if run != [] {
      var init, last := run[..|run| - 1], run[|run| - 1];
      DisciplinedPrefix(run);
      if k == |run| - 1 {
        if idx in Queued(init) {
          QueuedIsNotOnWire(init, idx);
        }
      } else {
        QueuedSinceLast(init, idx, if k == |run| then |init| else k);
      }
    }
  }

  /** In a disciplined run a queued index is not on the wire, so nothing is overwritten. */
  lemma {:induction false} QueuedIsNotOnWire(run: seq<Step>, idx: nat)
    requires Disciplined(run) && idx in Queued(run)
    ensures Queued(run)[idx] == 1 && !OnWire(run, idx)
  {
    var init, last := run[..|run| - 1], run[|run| - 1];
    DisciplinedPrefix(run);
    if idx in Queued(init) {
      QueuedIsNotOnWire(init, idx);
    }
  }

  lemma DisciplineHelps(run: seq<Step>)
    requires Disciplined(run)
    ensures CountAll(Run(run).log, Overwritten) == 0
    ensures forall idx :: 0 <= idx < SLOTS && idx in Queued(run) ==>
      Queued(run)[idx] == 1 && Run(run).txSend[idx] == None
  {
    forall k | 0 <= k < |run|
      ensures !OverwritesAt(run, k)
    {
      if run[k].Transmit? {
        DisciplinedUpTo(run, k);
        QueuedIsNotOnWire(run[..k], run[k].idx);
      }
    }
    WhenNothingIsOverwritten(run);
    forall idx | 0 <= idx < SLOTS && idx in Queued(run)
      ensures Queued(run)[idx] == 1 && Run(run).txSend[idx] == None
    {
      QueuedIsNotOnWire(run, idx);
      SlotIsOnWire(run, idx);
    }
  }

  lemma DisciplinedUpTo(run: seq<Step>, n: nat)
    requires Disciplined(run) && n <= |run|
    ensures Disciplined(run[..n])
  {
    forall k | 0 <= k < n
      ensures run[..n][k] == run[k] && run[..n][..k] == run[..k]
    {
    }
  }

  lemma DisciplinedPrefix(run: seq<Step>)
    requires Disciplined(run) && run != []
    ensures Disciplined(run[..|run| - 1])
  {
    DisciplinedUpTo(run, |run| - 1);
  }
}
