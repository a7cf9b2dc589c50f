/** The two resources that every datagram needs: one of the 256 datagram indices and one entry
    of the datagram pool.  Who holds them, over every run of process-data sends, synchronous
    transfers and the teardown to PREOP. */
module Resources {
  import opened Counting
  import opened Options

  const MAX_INDEX := 0x100
  const MAX_DATAGRAMS := 100

  /** The resources that a cyclic datagram holds on to. */
  datatype Cyclic = Cyclic(idx: Option<nat>, entry: Option<nat>)

  const NoCyclic := Cyclic(None, None)

  /** A process data group with its four cyclic datagrams. */
  datatype Group = Group(useLrw: bool, lrw: Cyclic, lwr: Cyclic, lrd: Cyclic, mbxState: Cyclic)

  /** A synchronous transfer that is under way. */
  datatype Transfer = Transfer(idx: nat, entry: nat)

  /** The free indices and entries, in queue order, and everybody who holds some. */
  datatype State = State(indices: seq<nat>, entries: seq<nat>, groups: seq<Group>, transfers: seq<Transfer>)

  datatype Status = Ok | OutOfIndices | OutOfDatagrams

  // ---------------------------------------------------------------------------------------
  // The operations
  // ---------------------------------------------------------------------------------------

  /** The outcome of asking for the resources of one cyclic datagram. */
  datatype Acquired = Acquired(indices: seq<nat>, entries: seq<nat>, cyclic: Cyclic, status: Status)

  /** Get an index unless one is held, then an entry unless one is held or something failed
      before; when there is no entry the index goes back. */
  function Acquire(indices: seq<nat>, entries: seq<nat>, c: Cyclic, status: Status): Acquired {
    var noIndex := c.idx == None && indices == [];
    var idx := if c.idx == None && indices != [] then Some(indices[0]) else c.idx;
    var left := if c.idx == None && indices != [] then indices[1..] else indices;
    var st := if noIndex then OutOfIndices else status;
    if st != Ok || c.entry != None then Acquired(left, entries, Cyclic(idx, c.entry), st)
    else if entries == [] then Acquired(left + [idx.value], entries, NoCyclic, OutOfDatagrams)
    else Acquired(left, entries[1..], Cyclic(idx, Some(entries[0])), Ok)
  }

  /** The cyclic datagrams of a group. */
  datatype Which = Lrw | Lwr | Lrd | MbxState

  function DatagramOf(group: Group, which: Which): Cyclic {
    match which
    case Lrw => group.lrw
    case Lwr => group.lwr
    case Lrd => group.lrd
    case MbxState => group.mbxState
  }

  function WithDatagram(group: Group, which: Which, c: Cyclic): (r: Group)
    ensures DatagramOf(r, which) == c
  {
    match which
    case Lrw => group.(lrw := c)
    case Lwr => group.(lwr := c)
    case Lrd => group.(lrd := c)
    case MbxState => group.(mbxState := c)
  }

  /** Asking for the resources of one datagram of a group, under the lock of the datagram. */
  function Asked(s: State, g: nat, which: Which, status: Status): (State, Status)
    requires g < |s.groups|
  {
    var a := Acquire(s.indices, s.entries, DatagramOf(s.groups[g], which), status);
    (s.(indices := a.indices, entries := a.entries,
        groups := s.groups[g := WithDatagram(s.groups[g], which, a.cyclic)]),
     a.status)
  }

  /** One send of a group that nobody interrupts: the LRW datagram, or the LWR and the LRD datagram,
      then the mailbox state datagram, with the failure of one carried over to the next. */
  function Sent(s: State, g: nat): State
    requires g < |s.groups|
  {
    var group := s.groups[g];
    if group.useLrw then
      var a := Acquire(s.indices, s.entries, group.lrw, Ok);
      var m := Acquire(a.indices, a.entries, group.mbxState, a.status);
      s.(indices := m.indices, entries := m.entries,
         groups := s.groups[g := group.(lrw := a.cyclic, mbxState := m.cyclic)])
    else
      var a := Acquire(s.indices, s.entries, group.lwr, Ok);
      var b := Acquire(a.indices, a.entries, group.lrd, a.status);
      var m := Acquire(b.indices, b.entries, group.mbxState, b.status);
      s.(indices := m.indices, entries := m.entries,
         groups := s.groups[g := group.(lwr := a.cyclic, lrd := b.cyclic, mbxState := m.cyclic)])
  }

  /** Begin a synchronous transfer; without an entry the index goes back. */
  function Begun(s: State): State {
    if s.indices == [] then s
    else if s.entries == [] then s.(indices := s.indices[1..] + [s.indices[0]])
    else s.(indices := s.indices[1..], entries := s.entries[1..],
            transfers := s.transfers + [Transfer(s.indices[0], s.entries[0])])
  }

  /** End a synchronous transfer, answered or not. */
  function Ended(s: State, k: nat): State
    requires k < |s.transfers|
  {
    var t := s.transfers[k];
    s.(indices := s.indices + [t.idx], entries := s.entries + [t.entry],
       transfers := s.transfers[..k] + s.transfers[k + 1..])
  }

  function ToSeq(o: Option<nat>): seq<nat> {
    if o.Some? then [o.value] else []
  }

  /** The teardown of one group returns what its LRW datagram holds. */
  function GroupTornDown(s: State, g: nat): State
    requires g < |s.groups|
  {
    var c := s.groups[g].lrw;
    s.(indices := s.indices + ToSeq(c.idx), entries := s.entries + ToSeq(c.entry),
       groups := s.groups[g := s.groups[g].(lrw := NoCyclic)])
  }

  /** What the LRW datagrams of the first `n` groups hold, in order. */
  function Returned(groups: seq<Group>, n: nat, kind: Resource): seq<nat>
    requires n <= |groups|
  {
    if n == 0 then []
    else Returned(groups, n - 1, kind) + ToSeq(if kind.Index? then groups[n - 1].lrw.idx else groups[n - 1].lrw.entry)
  }

  /** The datagrams that a send of a group uses hold an index and an entry each. */
  predicate Equipped(group: Group) {
    && (if group.useLrw then Holds(group.lrw) else Holds(group.lwr) && Holds(group.lrd))
    && Holds(group.mbxState)
  }

  predicate Holds(c: Cyclic) {
    c.idx.Some? && c.entry.Some?
  }

  /** The teardown of the first `n` groups. */
  function TornDown(s: State, n: nat): (r: State)
    requires n <= |s.groups|
    ensures |r.groups| == |s.groups|
  {
    if n == 0 then s else GroupTornDown(TornDown(s, n - 1), n - 1)
  }

  // ---------------------------------------------------------------------------------------
  // The master, as the source keeps it
  // ---------------------------------------------------------------------------------------

  class Master {
    var indices: seq<nat>
    var entries: seq<nat>
    const groups: array<Group>
    var transfers: seq<Transfer>

    function Abstract(): State
      reads this, groups
    {
      State(indices, entries, groups[..], transfers)
    }

    /** Fill the index queue and the datagram pool; no group holds anything. */
    constructor (kinds: seq<bool>)
      ensures Abstract() == Initial(kinds) && fresh(groups)
    {
      groups := new Group[|kinds|](
        i requires 0 <= i < |kinds| => Group(kinds[i], NoCyclic, NoCyclic, NoCyclic, NoCyclic));
      indices, entries, transfers := [], [], [];
      new;
      IndexInit();
      assert groups[..] == Initial(kinds).groups;
      for i := 0 to MAX_DATAGRAMS
        invariant groups[..] == Initial(kinds).groups
        invariant entries == Upto(i) && indices == Upto(MAX_INDEX) && transfers == []
      {
        entries := entries + [i];
      }
    }

    method IndexInit()
      requires indices == []
      modifies this`indices
      ensures indices == Upto(256)
    {
      for i := 0 to MAX_INDEX
        invariant indices == Upto(i)
      {
        IndexPut(i);
      }
    }

    method IndexGet() returns (idx: Option<nat>)
      modifies this`indices
      ensures old(indices) == [] ==> idx == None && indices == []
      ensures old(indices) != [] ==> idx == Some(old(indices)[0]) && indices == old(indices)[1..]
    {
      idx := None;
      if indices != [] {
        idx, indices := Some(indices[0]), indices[1..];
      }
    }

    method IndexPut(idx: nat)
      modifies this`indices
      ensures indices == old(indices) + [idx]
    {
      indices := indices + [idx];
    }

    method PoolGet() returns (entry: Option<nat>)
      modifies this`entries
      ensures old(entries) == [] ==> entry == None && entries == []
      ensures old(entries) != [] ==> entry == Some(old(entries)[0]) && entries == old(entries)[1..]
    {
      entry := None;
      if entries != [] {
        entry, entries := Some(entries[0]), entries[1..];
      }
    }

    /** The resource handling of one cyclic datagram: what it holds is kept, what it lacks is taken
        from the front, and an index without an entry to go with it goes back to the end. */
    method Prepare(c: Cyclic, status: Status) returns (r: Cyclic, ret: Status)
      modifies this`indices, this`entries
      ensures Acquired(indices, entries, r, ret) == Acquire(old(indices), old(entries), c, status)
      ensures c.idx == None && old(indices) == [] ==>
        r == c && ret == OutOfIndices && indices == [] && entries == old(entries)
      ensures c.idx.Some? || old(indices) != [] ==>
        var idx := if c.idx.Some? then c.idx.value else old(indices)[0];
        var left := if c.idx.Some? then old(indices) else old(indices)[1..];
        if status != Ok || c.entry.Some? then
          r == Cyclic(Some(idx), c.entry) && ret == status && indices == left && entries == old(entries)
        else if old(entries) == [] then
          r == Cyclic(None, None) && ret == OutOfDatagrams && indices == left + [idx] && entries == []
        else
          r == Cyclic(Some(idx), Some(old(entries)[0])) && ret == Ok && indices == left && entries == old(entries)[1..]
    {
      r, ret := c, status;
      if r.idx == None {
        var idx := IndexGet();
        r := r.(idx := idx);
        if idx == None {
          ret := OutOfIndices;
        }
      }
      if ret == Ok && r.entry == None {
        var entry := PoolGet();
        if entry == None {
          IndexPut(r.idx.value);
          r, ret := r.(idx := None), OutOfDatagrams;
        } else {
          r := r.(entry := entry);
        }
      }
    }

    method SendProcessDataGroup(g: nat) returns (ret: Status)
      requires g < groups.Length
      modifies this`indices, this`entries, groups
      ensures Abstract() == Sent(old(Abstract()), g)
      ensures ret == Ok <==> Equipped(groups[g])
      ensures forall h :: 0 <= h < groups.Length && h != g ==> groups[h] == old(groups[h])
      ensures transfers == old(transfers)
    {
      var group := groups[g];
      ret := Ok;
      if group.useLrw {
        var lrw: Cyclic;
        lrw, ret := Prepare(group.lrw, ret);
        group := group.(lrw := lrw);
      } else {
        var lwr, lrd: Cyclic;
        lwr, ret := Prepare(group.lwr, ret);
        lrd, ret := Prepare(group.lrd, ret);
        group := group.(lwr := lwr, lrd := lrd);
      }
      var mbxState: Cyclic;
      mbxState, ret := Prepare(group.mbxState, ret);
      groups[g] := group.(mbxState := mbxState);
    }

    /** The first half of a synchronous transfer. */
    method BeginTransceive() returns (ret: Status)
      modifies this`indices, this`entries, this`transfers
      ensures Abstract() == Begun(old(Abstract()))
      ensures groups[..] == old(groups[..])
      ensures old(indices) == [] ==>
        ret == OutOfIndices && indices == [] && entries == old(entries) && transfers == old(transfers)
      ensures old(indices) != [] && old(entries) == [] ==>
        && ret == OutOfDatagrams && indices == old(indices)[1..] + [old(indices)[0]] && entries == []
        && transfers == old(transfers)
      ensures old(indices) != [] && old(entries) != [] ==>
        && ret == Ok && indices == old(indices)[1..] && entries == old(entries)[1..]
        && transfers == old(transfers) + [Transfer(old(indices)[0], old(entries)[0])]
    {
      var idx := IndexGet();
      if idx == None {
        return OutOfIndices;
      }
      var entry := PoolGet();
      if entry == None {
        IndexPut(idx.value);
        return OutOfDatagrams;
      }
      transfers := transfers + [Transfer(idx.value, entry.value)];
      ret := Ok;
    }

    /** The second half: whatever came of it, entry and index go back. */
    method EndTransceive(k: nat)
      requires k < |transfers|
      modifies this`indices, this`entries, this`transfers
      ensures Abstract() == Ended(old(Abstract()), k)
      ensures transfers == old(transfers)[..k] + old(transfers)[k + 1..]
      ensures indices == old(indices) + [old(transfers)[k].idx]
      ensures entries == old(entries) + [old(transfers)[k].entry]
      ensures groups[..] == old(groups[..])
    {
      entries := entries + [transfers[k].entry];
      IndexPut(transfers[k].idx);
      transfers := transfers[..k] + transfers[k + 1..];
    }

    /** The resource part of the way down to PREOP. */
    method Teardown()
      modifies this`indices, this`entries, groups
      ensures Abstract() == TornDown(old(Abstract()), groups.Length)
      ensures forall g :: 0 <= g < groups.Length ==> groups[g] == old(groups[g]).(lrw := Cyclic(None, None))
      ensures indices == old(indices) + Returned(old(groups[..]), groups.Length, Index)
      ensures entries == old(entries) + Returned(old(groups[..]), groups.Length, Entry)
      ensures transfers == old(transfers)
    {
      ghost var was := Abstract();
      for i := 0 to groups.Length
        invariant Abstract() == TornDown(was, i)
      {
        var c := groups[i].lrw;
        if c.idx != None {
          IndexPut(c.idx.value);
        }
        if c.entry != None {
          entries := entries + [c.entry.value];
        }
        groups[i] := groups[i].(lrw := NoCyclic);
      }
      TornDownState(was, groups.Length);
    }
  }

  function Initial(kinds: seq<bool>): State {
    State(Upto(MAX_INDEX), Upto(MAX_DATAGRAMS),
          seq(|kinds|, i requires 0 <= i < |kinds| => Group(kinds[i], NoCyclic, NoCyclic, NoCyclic, NoCyclic)), [])
  }

  // ---------------------------------------------------------------------------------------
  // Conservation
  // ---------------------------------------------------------------------------------------

  /** The indices, or the entries, that a cyclic datagram, a group, a transfer holds. */
  datatype Resource = Index | Entry

  function Free(s: State, kind: Resource): seq<nat> {
    if kind.Index? then s.indices else s.entries
  }

  function HeldByCyclic(c: Cyclic, kind: Resource, x: nat): nat {
    if (if kind.Index? then c.idx else c.entry) == Some(x) then 1 else 0
  }

  function HeldByGroup(g: Group, kind: Resource, x: nat): nat {
    HeldByCyclic(g.lrw, kind, x) + HeldByCyclic(g.lwr, kind, x) + HeldByCyclic(g.lrd, kind, x)
    + HeldByCyclic(g.mbxState, kind, x)
  }

  function HeldByGroups(gs: seq<Group>, kind: Resource, x: nat): nat {
    if gs == [] then 0
    else HeldByGroups(gs[..|gs| - 1], kind, x) + HeldByGroup(gs[|gs| - 1], kind, x)
  }

  function HeldByTransfers(ts: seq<Transfer>, kind: Resource): (r: seq<nat>)
    ensures |r| == |ts|
  {
    seq(|ts|, i requires 0 <= i < |ts| => if kind.Index? then ts[i].idx else ts[i].entry)
  }

  /** In how many places an index or an entry is. */
  function Places(s: State, kind: Resource, x: nat): nat {
    CountIn(Free(s, kind), x) + HeldByGroups(s.groups, kind, x) + CountIn(HeldByTransfers(s.transfers, kind), x)
  }

  lemma {:induction false} GroupsUpdate(gs: seq<Group>, g: nat, group: Group, kind: Resource, x: nat)
    requires g < |gs|
    ensures HeldByGroups(gs[g := group], kind, x) + HeldByGroup(gs[g], kind, x)
         == HeldByGroups(gs, kind, x) + HeldByGroup(group, kind, x)
  {
    var n := |gs| - 1;
    if g < n {
      GroupsUpdate(gs[..n], g, group, kind, x);
      assert gs[g := group][..n] == gs[..n][g := group];
    } else {
      assert gs[g := group][..n] == gs[..n];
    }
  }

  /** Asking for resources moves them between the free queues and the datagram. */
  lemma AcquireKeeps(indices: seq<nat>, entries: seq<nat>, c: Cyclic, status: Status, x: nat)
    ensures
      var a := Acquire(indices, entries, c, status);
      && CountIn(a.indices, x) + HeldByCyclic(a.cyclic, Index, x) == CountIn(indices, x) + HeldByCyclic(c, Index, x)
      && CountIn(a.entries, x) + HeldByCyclic(a.cyclic, Entry, x) == CountIn(entries, x) + HeldByCyclic(c, Entry, x)
  {
    var idx := if c.idx == None && indices != [] then Some(indices[0]) else c.idx;
    var left := if c.idx == None && indices != [] then indices[1..] else indices;
    if idx.Some? {
      CountInAppend(left, idx.value, x);
    }
  }

  lemma AskedKeeps(s: State, g: nat, which: Which, status: Status, kind: Resource, x: nat)
    requires g < |s.groups|
    ensures Places(Asked(s, g, which, status).0, kind, x) == Places(s, kind, x)
  {
    var c := DatagramOf(s.groups[g], which);
    var a := Acquire(s.indices, s.entries, c, status);
    AcquireKeeps(s.indices, s.entries, c, status, x);
    GroupsUpdate(s.groups, g, WithDatagram(s.groups[g], which, a.cyclic), kind, x);
  }

  /** A transfer that ends right after it began gives back what it took, to the other end of the
      queues, and leaves the other transfers alone. */
  lemma BeginThenEnd(s: State)
    requires s.indices != [] && s.entries != []
    ensures |Begun(s).transfers| == |s.transfers| + 1
    ensures
      var r := Ended(Begun(s), |s.transfers|);
      && r.transfers == s.transfers && r.groups == s.groups
      && r.indices == s.indices[1..] + [s.indices[0]] && r.entries == s.entries[1..] + [s.entries[0]]
      && multiset(r.indices) == multiset(s.indices) && multiset(r.entries) == multiset(s.entries)
  {
    var r := Ended(Begun(s), |s.transfers|);
    assert Begun(s).transfers[..|s.transfers|] == s.transfers && Begun(s).transfers[|s.transfers| + 1..] == [];
    assert s.indices == [s.indices[0]] + s.indices[1..] && s.entries == [s.entries[0]] + s.entries[1..];
  }

  lemma {:induction false} TornDownGroups(s: State, n: nat)
    requires n <= |s.groups|
    ensures
      var r := TornDown(s, n);
      && r.transfers == s.transfers
      && (forall g :: 0 <= g < n ==> r.groups[g] == s.groups[g].(lrw := Cyclic(None, None)))
      && (forall g :: n <= g < |s.groups| ==> r.groups[g] == s.groups[g])
  {
    if n > 0 {
      TornDownGroups(s, n - 1);
    }
  }

  /** What one group returns is appended. */
  lemma GroupTornDownQueue(s: State, g: nat, kind: Resource, c: Cyclic)
    requires g < |s.groups| && c == s.groups[g].lrw
    ensures Free(GroupTornDown(s, g), kind) == Free(s, kind) + ToSeq(if kind.Index? then c.idx else c.entry)
  {
  }

  lemma Appended(now: seq<nat>, before: seq<nat>, start: seq<nat>, returned: seq<nat>, one: seq<nat>)
    requires now == before + one && before == start + returned
    ensures now == start + (returned + one)
  {
  }

  lemma {:induction false} TornDownQueue(s: State, n: nat, kind: Resource)
    requires n <= |s.groups|
    ensures Free(TornDown(s, n), kind) == Free(s, kind) + Returned(s.groups, n, kind)
  {
    if n > 0 {
      var before, c := TornDown(s, n - 1), s.groups[n - 1].lrw;
      TornDownQueue(s, n - 1, kind);
      TornDownGroups(s, n - 1);
      GroupTornDownQueue(before, n - 1, kind, c);
      Appended(
        Free(TornDown(s, n), kind), Free(before, kind), Free(s, kind), Returned(s.groups, n - 1, kind),
        ToSeq(if kind.Index? then c.idx else c.entry));
    }
  }

  /** The teardown returns what the LRW datagrams hold, group by group, and touches nothing else. */
  lemma TornDownState(s: State, n: nat)
    requires n <= |s.groups|
    ensures
      var r := TornDown(s, n);
      && r.indices == s.indices + Returned(s.groups, n, Index) && r.entries == s.entries + Returned(s.groups, n, Entry)
      && r.transfers == s.transfers
      && (forall g :: 0 <= g < n ==> r.groups[g] == s.groups[g].(lrw := Cyclic(None, None)))
      && (forall g :: n <= g < |s.groups| ==> r.groups[g] == s.groups[g])
  {
    TornDownGroups(s, n);
    TornDownQueue(s, n, Index);
    TornDownQueue(s, n, Entry);
  }

  /** Whatever an LRW datagram held is free after a teardown. */
  lemma {:induction false} TeardownFrees(groups: seq<Group>, n: nat, g: nat, kind: Resource, x: nat)
    requires g < n <= |groups|
    requires (if kind.Index? then groups[g].lrw.idx else groups[g].lrw.entry) == Some(x)
    ensures x in Returned(groups, n, kind)
  {
    if g < n - 1 {
      TeardownFrees(groups, n - 1, g, kind, x);
    }
  }

  lemma BegunKeeps(s: State, kind: Resource, x: nat)
    ensures Places(Begun(s), kind, x) == Places(s, kind, x)
  {
    var r := Begun(s);
    if s.indices != [] && s.entries == [] {
      CountInAppend(s.indices[1..], s.indices[0], x);
    } else if s.indices != [] {
      var held: nat := if kind.Index? then s.indices[0] else s.entries[0];
      assert HeldByTransfers(r.transfers, kind) == HeldByTransfers(s.transfers, kind) + [held];
      CountInAppend(HeldByTransfers(s.transfers, kind), held, x);
    }
  }

  lemma EndedKeeps(s: State, k: nat, kind: Resource, x: nat)
    requires k < |s.transfers|
    ensures Places(Ended(s, k), kind, x) == Places(s, kind, x)
  {
    var held := HeldByTransfers(s.transfers, kind);
    assert HeldByTransfers(Ended(s, k).transfers, kind) == held[..k] + held[k + 1..];
    CountInWithout(held, k, x);
    CountInAppend(Free(s, kind), held[k], x);
  }

  lemma CountInReturned(q: seq<nat>, o: Option<nat>, x: nat)
    ensures CountIn(q + ToSeq(o), x) == CountIn(q, x) + if o == Some(x) then 1 else 0
  {
    if o.Some? {
      CountInAppend(q, o.value, x);
    } else {
      assert q + [] == q;
    }
  }

  lemma GroupTornDownKeeps(s: State, g: nat, kind: Resource, x: nat)
    requires g < |s.groups|
    ensures Places(GroupTornDown(s, g), kind, x) == Places(s, kind, x)
  {
    var group := s.groups[g];
    GroupsUpdate(s.groups, g, group.(lrw := NoCyclic), kind, x);
    CountInReturned(s.indices, group.lrw.idx, x);
    CountInReturned(s.entries, group.lrw.entry, x);
  }

  // ---------------------------------------------------------------------------------------
  // Runs
  // ---------------------------------------------------------------------------------------

  /** Where the sender of a group is: which datagram comes next, and what the ones before came to. */
  datatype Sender = Sender(next: Which, status: Status)

  /** The resources, and the sends that are under way: one a group at most. */
  datatype Machine = Machine(s: State, senders: seq<Option<Sender>>)

  /** The steps.  A send asks for the resources of one datagram after the other, and other threads
      may take and return resources in between; a teardown returns those of one group after the
      other. */
  datatype Step = Start(g: nat) | Ask(g: nat) | Begin | End(k: nat) | Return(g: nat)

  predicate Enabled(m: Machine, step: Step) {
    && |m.senders| == |m.s.groups|
    && match step
       case Start(g) => g < |m.senders| && m.senders[g] == None
       case Ask(g) => g < |m.senders| && m.senders[g].Some?
       case Begin => true
       case End(k) => k < |m.s.transfers|
       case Return(g) => g < |m.s.groups|
  }

  function Behind(which: Which, status: Status): Option<Sender> {
    match which
    case Lrw => Some(Sender(MbxState, status))
    case Lwr => Some(Sender(Lrd, status))
    case Lrd => Some(Sender(MbxState, status))
    case MbxState => None
  }

  function Next(m: Machine, step: Step): Machine
    requires Enabled(m, step)
  {
    match step
    case Start(g) => m.(senders := m.senders[g := Some(Sender(if m.s.groups[g].useLrw then Lrw else Lwr, Ok))])
    case Ask(g) =>
      var sender := m.senders[g].value;
      var (s, status) := Asked(m.s, g, sender.next, sender.status);
      Machine(s, m.senders[g := Behind(sender.next, status)])
    case Begin => m.(s := Begun(m.s))
    case End(k) => m.(s := Ended(m.s, k))
    case Return(g) => m.(s := GroupTornDown(m.s, g))
  }

  function Quiet(kinds: seq<bool>): Machine {
    Machine(Initial(kinds), seq(|kinds|, _ => None))
  }

  ghost predicate IsRun(states: seq<Machine>, steps: seq<Step>, kinds: seq<bool>) {
    && |states| == |steps| + 1 && states[0] == Quiet(kinds)
    && forall i :: 0 <= i < |steps| ==> Enabled(states[i], steps[i]) && states[i + 1] == Next(states[i], steps[i])
  }

  lemma AskOnce(m: Machine, senders: seq<Option<Sender>>, g: nat, which: Which, status: Status)
    requires g < |senders| == |m.s.groups| && m.senders == senders[g := Some(Sender(which, status))]
    ensures
      var (s, ret) := Asked(m.s, g, which, status);
      Next(m, Ask(g)) == Machine(s, senders[g := Behind(which, ret)]) && |s.groups| == |m.s.groups|
  {
  }

  /** A send that nobody interrupts is the send of the source. */
  lemma SentIsAsking(m: Machine, g: nat)
    requires |m.senders| == |m.s.groups| && g < |m.senders| && m.senders[g] == None
    ensures
      var a := Next(Next(m, Start(g)), Ask(g));
      Next(if m.s.groups[g].useLrw then a else Next(a, Ask(g)), Ask(g)) == m.(s := Sent(m.s, g))
  {
    var m1 := Next(m, Start(g));
    assert m.senders[g := None] == m.senders;
    if m.s.groups[g].useLrw {
      AskOnce(m1, m.senders, g, Lrw, Ok);
      var (s, ret) := Asked(m.s, g, Lrw, Ok);
      AskOnce(Next(m1, Ask(g)), m.senders, g, MbxState, ret);
      assert Asked(s, g, MbxState, ret).0 == Sent(m.s, g);
    } else {
      AskOnce(m1, m.senders, g, Lwr, Ok);
      var m2 := Next(m1, Ask(g));
      var (s, ret) := Asked(m.s, g, Lwr, Ok);
      AskOnce(m2, m.senders, g, Lrd, ret);
      var (s2, ret2) := Asked(s, g, Lrd, ret);
      AskOnce(Next(m2, Ask(g)), m.senders, g, MbxState, ret2);
      assert Asked(s2, g, MbxState, ret2).0 == Sent(m.s, g);
    }
  }

  /** A transfer that nobody interrupts can begin and end, and gives back what it took. */
  lemma TransferRunsThrough(m: Machine)
    requires |m.senders| == |m.s.groups| && m.s.indices != [] && m.s.entries != []
    ensures Enabled(m, Begin) && Enabled(Next(m, Begin), End(|m.s.transfers|))
    ensures
      var r := Next(Next(m, Begin), End(|m.s.transfers|));
      && r.senders == m.senders && r.s.groups == m.s.groups && r.s.transfers == m.s.transfers
      && multiset(r.s.indices) == multiset(m.s.indices) && multiset(r.s.entries) == multiset(m.s.entries)
  {
    BeginThenEnd(m.s);
  }

  /** The first `n` groups return what they hold, one after the other. */
  function Returning(m: Machine, n: nat): (r: Machine)
    requires |m.senders| == |m.s.groups| && n <= |m.s.groups|
    ensures |r.senders| == |r.s.groups| == |m.s.groups|
  {
    if n == 0 then m else Next(Returning(m, n - 1), Return(n - 1))
  }

  /** When nobody interrupts, that is the teardown of the source. */
  lemma {:induction false} ReturningIsTeardown(m: Machine, n: nat)
    requires |m.senders| == |m.s.groups| && n <= |m.s.groups|
    ensures Returning(m, n) == m.(s := TornDown(m.s, n))
  {
    if n > 0 {
      ReturningIsTeardown(m, n - 1);
    }
  }

  lemma {:induction false} NothingHeld(gs: seq<Group>, kind: Resource, x: nat)
    requires forall i :: 0 <= i < |gs| ==> gs[i] == Group(gs[i].useLrw, NoCyclic, NoCyclic, NoCyclic, NoCyclic)
    ensures HeldByGroups(gs, kind, x) == 0
  {
    if gs != [] {
      NothingHeld(gs[..|gs| - 1], kind, x);
    }
  }

  lemma StepKeeps(m: Machine, step: Step, kind: Resource, x: nat)
    requires Enabled(m, step)
    ensures Places(Next(m, step).s, kind, x) == Places(m.s, kind, x)
  {
    match step
    case Start(g) =>
    case Ask(g) => AskedKeeps(m.s, g, m.senders[g].value.next, m.senders[g].value.status, kind, x);
    case Begin => BegunKeeps(m.s, kind, x);
    case End(k) => EndedKeeps(m.s, k, kind, x);
    case Return(g) => GroupTornDownKeeps(m.s, g, kind, x);
  }

  /** Main theorem on conservation: over every run, including exhaustion of either resource and
      other threads between the datagrams of a send, each of the 256 indices and each of the pool
      entries is in exactly one place: free, held by one cyclic datagram, or held by one transfer. */
  lemma {:induction false} ResourcesAreConserved(
      states: seq<Machine>, steps: seq<Step>, kinds: seq<bool>, kind: Resource, x: nat)
    requires IsRun(states, steps, kinds)
    ensures Places(states[|steps|].s, kind, x) ==
      if x < (if kind.Index? then 256 else 100) then 1 else 0
    decreases |steps|
  {
    if steps == [] {
      var s := states[0].s;
      CountInUpto(MAX_INDEX, x);
      CountInUpto(MAX_DATAGRAMS, x);
      NothingHeld(s.groups, kind, x);
      assert HeldByTransfers(s.transfers, kind) == [];
    } else {
      var n := |steps| - 1;
      ResourcesAreConserved(states[..n + 1], steps[..n], kinds, kind, x);
      StepKeeps(states[n], steps[n], kind, x);
    }
  }

  lemma {:induction false} HeldByTwo(gs: seq<Group>, g: nat, h: nat, kind: Resource, x: nat)
    requires g <= h < |gs|
    ensures HeldByGroups(gs, kind, x) >= HeldByGroup(gs[h], kind, x) + if g < h then HeldByGroup(gs[g], kind, x) else 0
  {
    var n := |gs| - 1;
    if h < n {
      HeldByTwo(gs[..n], g, h, kind, x);
    } else if g < h {
      HeldByTwo(gs[..n], g, g, kind, x);
    }
  }

  /** So whatever a group holds, it holds once, no other group and no transfer holds it, and it
      is not free: held indices are pairwise distinct. */
  lemma NobodySharesAResource(
      states: seq<Machine>, steps: seq<Step>, kinds: seq<bool>, kind: Resource, x: nat, g: nat, h: nat)
    requires IsRun(states, steps, kinds)
    requires g != h && g < |states[|steps|].s.groups| && h < |states[|steps|].s.groups|
    requires HeldByGroup(states[|steps|].s.groups[g], kind, x) > 0
    ensures
      var s := states[|steps|].s;
      && HeldByGroup(s.groups[g], kind, x) == 1 && HeldByGroup(s.groups[h], kind, x) == 0
      && CountIn(Free(s, kind), x) == 0 && CountIn(HeldByTransfers(s.transfers, kind), x) == 0
  {
    ResourcesAreConserved(states, steps, kinds, kind, x);
    var gs := states[|steps|].s.groups;
    HeldByTwo(gs, if g < h then g else h, if g < h then h else g, kind, x);
  }

  // ---------------------------------------------------------------------------------------
  // Both or neither
  // ---------------------------------------------------------------------------------------

  predicate BothOrNeither(c: Cyclic) {
    c.idx.Some? <==> c.entry.Some?
  }

  /** Nobody holds an entry without an index. */
  predicate EntryHasIndex(c: Cyclic) {
    c.entry.Some? ==> c.idx.Some?
  }

  /** The datagrams that are asked for first hold an index and an entry, or neither; the later ones
      hold no entry without an index; and a send begins without a failure. */
  ghost predicate FirstOnesPaired(m: Machine) {
    && (forall g :: 0 <= g < |m.s.groups| ==>
         var group := m.s.groups[g];
         && BothOrNeither(group.lrw) && BothOrNeither(group.lwr)
         && EntryHasIndex(group.lrd) && EntryHasIndex(group.mbxState))
    && (forall g :: 0 <= g < |m.senders| && m.senders[g].Some? ==>
         m.senders[g].value.next.Lrw? || m.senders[g].value.next.Lwr? ==> m.senders[g].value.status == Ok)
  }

  lemma AskedKeepsFirstOnes(m: Machine, g: nat)
    requires Enabled(m, Ask(g)) && FirstOnesPaired(m)
    ensures FirstOnesPaired(Next(m, Ask(g)))
  {
    var sender := m.senders[g].value;
    WhenAcquirePairs(m.s.indices, m.s.entries, DatagramOf(m.s.groups[g], sender.next), sender.status);
  }

  lemma StepKeepsFirstOnes(m: Machine, step: Step)
    requires Enabled(m, step) && FirstOnesPaired(m)
    ensures FirstOnesPaired(Next(m, step))
  {
    if step.Ask? {
      AskedKeepsFirstOnes(m, step.g);
    }
  }

  lemma {:induction false} FirstOnesArePaired(states: seq<Machine>, steps: seq<Step>, kinds: seq<bool>)
    requires IsRun(states, steps, kinds)
    ensures FirstOnesPaired(states[|steps|])
    decreases |steps|
  {
    if steps != [] {
      var n := |steps| - 1;
      FirstOnesArePaired(states[..n + 1], steps[..n], kinds);
      StepKeepsFirstOnes(states[n], steps[n]);
    }
  }

  /** Asking leaves a datagram with both or neither exactly when nothing has failed before, it has
      its entry, or it has nothing and no index is free: after a failure it takes an index, or keeps
      the one it has, without asking for an entry. */
  lemma WhenAcquirePairs(indices: seq<nat>, entries: seq<nat>, c: Cyclic, status: Status)
    requires EntryHasIndex(c)
    ensures var a := Acquire(indices, entries, c, status);
      && EntryHasIndex(a.cyclic)
      && (BothOrNeither(a.cyclic) <==> status == Ok || c.entry.Some? || (c.idx == None && indices == []))
  {
  }

  /** How many of some datagrams lack an index, or an entry. */
  function Lacking(c: Cyclic, kind: Resource): nat {
    if (if kind.Index? then c.idx else c.entry) == None then 1 else 0
  }

  /** After a send of an LRW group that nobody interrupts, the mailbox state datagram holds an index
      but no entry exactly when it had no entry, the LRW datagram could not get what it lacked, and
      there is an index for the mailbox state datagram: its own, or a free one. */
  lemma WhenLrwGroupIsPaired(s: State, g: nat)
    requires g < |s.groups| && s.groups[g].useLrw
    requires BothOrNeither(s.groups[g].lrw) && EntryHasIndex(s.groups[g].mbxState)
    ensures
      var group := s.groups[g];
      var indices, entries := Lacking(group.lrw, Index), Lacking(group.lrw, Entry);
      BothOrNeither(Sent(s, g).groups[g].mbxState) <==>
        !(&& group.mbxState.entry == None && (|s.indices| < indices || |s.entries| < entries)
          && (group.mbxState.idx.Some? || |s.indices| >= indices))
  {
    var group := s.groups[g];
    var a := Acquire(s.indices, s.entries, group.lrw, Ok);
    WhenAcquirePairs(a.indices, a.entries, group.mbxState, a.status);
  }

  /** The same for a group without LRW: the LRD datagram after a failure for the LWR datagram, and
      the mailbox state datagram after a failure for either. */
  lemma WhenLwrGroupIsPaired(s: State, g: nat)
    requires g < |s.groups| && !s.groups[g].useLrw
    requires BothOrNeither(s.groups[g].lwr) && EntryHasIndex(s.groups[g].lrd) && EntryHasIndex(s.groups[g].mbxState)
    ensures
      var group, r := s.groups[g], Sent(s, g).groups[g];
      var i1, e1 := Lacking(group.lwr, Index), Lacking(group.lwr, Entry);
      var i2, e2 := i1 + Lacking(group.lrd, Index), e1 + Lacking(group.lrd, Entry);
      && (BothOrNeither(r.lrd) <==>
          !(&& group.lrd.entry == None && (|s.indices| < i1 || |s.entries| < e1)
            && (group.lrd.idx.Some? || |s.indices| >= i1)))
      && (BothOrNeither(r.mbxState) <==>
          !(&& group.mbxState.entry == None && (|s.indices| < i2 || |s.entries| < e2)
            && (group.mbxState.idx.Some? || |s.indices| >= i2)))
  {
    var group := s.groups[g];
    var a := Acquire(s.indices, s.entries, group.lwr, Ok);
    var b := Acquire(a.indices, a.entries, group.lrd, a.status);
    WhenAcquirePairs(a.indices, a.entries, group.lrd, a.status);
    WhenAcquirePairs(b.indices, b.entries, group.mbxState, b.status);
  }

  // ---------------------------------------------------------------------------------------
  // Pairs over runs
  // ---------------------------------------------------------------------------------------

  /** A step takes an index for a datagram that holds nothing, after an earlier datagram of the same
      send has failed: then it does not ask for an entry. */
  predicate TakesAlone(m: Machine, step: Step, g: nat, which: Which) {
    && step == Ask(g) && g < |m.senders| && g < |m.s.groups| && m.senders[g].Some?
    && m.senders[g].value.next == which && m.senders[g].value.status != Ok
    && DatagramOf(m.s.groups[g], which) == NoCyclic && m.s.indices != []
  }

  /** A datagram of a group holds both or neither. */
  predicate Paired(m: Machine, g: nat, which: Which) {
    g < |m.s.groups| && BothOrNeither(DatagramOf(m.s.groups[g], which))
  }

  lemma StepPairs(m: Machine, step: Step, g: nat, which: Which)
    requires Enabled(m, step) && Paired(m, g, which)
    ensures Paired(Next(m, step), g, which) <==> !TakesAlone(m, step, g, which)
  {
    if step.Ask? {
      var sender := m.senders[step.g].value;
      if step.g == g && sender.next == which {
        WhenAcquirePairs(m.s.indices, m.s.entries, DatagramOf(m.s.groups[g], which), sender.status);
      }
    }
  }

  lemma {:induction false} PairedSoFar(
      states: seq<Machine>, steps: seq<Step>, kinds: seq<bool>, g: nat, which: Which, k: nat)
    requires IsRun(states, steps, kinds) && g < |kinds| && k <= |steps|
    requires forall j :: 0 <= j < k ==> !TakesAlone(states[j], steps[j], g, which)
    ensures Paired(states[k], g, which)
  {
    if k > 0 {
      PairedSoFar(states, steps, kinds, g, which, k - 1);
      StepPairs(states[k - 1], steps[k - 1], g, which);
    }
  }

  /** Main theorem on pairs: all along a run, with other threads between any two datagrams, a datagram
      of a group holds both or neither if and only if no step of the run takes an index for it alone. */
  lemma WhenAlwaysPaired(states: seq<Machine>, steps: seq<Step>, kinds: seq<bool>, g: nat, which: Which)
    requires IsRun(states, steps, kinds) && g < |kinds|
    ensures (forall k :: 0 <= k <= |steps| ==> Paired(states[k], g, which))
      <==> forall k :: 0 <= k < |steps| ==> !TakesAlone(states[k], steps[k], g, which)
  {
    if k :| 0 <= k < |steps| && TakesAlone(states[k], steps[k], g, which) {
      var m := k + 1;
      if Paired(states[k], g, which) {
        StepPairs(states[k], steps[k], g, which);
      }
      assert !Paired(states[k], g, which) || !Paired(states[m], g, which);
    } else {
      forall k | 0 <= k <= |steps| ensures Paired(states[k], g, which) {
        PairedSoFar(states, steps, kinds, g, which, k);
      }
    }
  }

  lemma OneMoreStep(states: seq<Machine>, steps: seq<Step>, kinds: seq<bool>, step: Step)
    requires IsRun(states, steps, kinds) && Enabled(states[|steps|], step)
    ensures IsRun(states + [Next(states[|steps|], step)], steps + [step], kinds)
  {
    var n := |steps|;
    var more, did := states + [Next(states[n], step)], steps + [step];
    forall i | 0 <= i < n + 1
      ensures Enabled(more[i], did[i]) && more[i + 1] == Next(more[i], did[i])
    {
      if i < n {
        assert more[i] == states[i] && more[i + 1] == states[i + 1] && did[i] == steps[i];
      }
    }
  }

  /** A run that begins `n` transfers and ends none. */
  lemma {:induction false} ManyTransfers(n: nat) returns (states: seq<Machine>, steps: seq<Step>)
    requires n <= MAX_DATAGRAMS
    ensures |steps| == n && IsRun(states, steps, [true])
    ensures
      var s := states[n].s;
      && s.indices == Upto(MAX_INDEX)[n..] && s.entries == Upto(MAX_DATAGRAMS)[n..]
      && s.groups == Initial([true]).groups && states[n].senders == [None]
  {
    if n == 0 {
      states, steps := [Quiet([true])], [];
    } else {
      states, steps := ManyTransfers(n - 1);
      OneMoreStep(states, steps, [true], Begin);
      states, steps := states + [Next(states[n - 1], Begin)], steps + [Begin];
    }
  }

  /** A send of an idle LRW group while no entry is free. */
  lemma SendWithoutEntry(m: Machine) returns (r: Machine)
    requires m.senders == [None] && m.s.groups == Initial([true]).groups && m.s.entries == [] && m.s.indices != []
    ensures
      var started := Next(m, Start(0));
      var asked := Next(started, Ask(0));
      && Enabled(started, Ask(0)) && Enabled(asked, Ask(0)) && r == Next(asked, Ask(0))
      && r.s.groups[0].lrw == NoCyclic && r.s.groups[0].mbxState.idx.Some? && r.s.groups[0].mbxState.entry == None
  {
    var asked := Next(Next(m, Start(0)), Ask(0));
    assert asked.senders == [Some(Sender(MbxState, OutOfDatagrams))];
    r := Next(asked, Ask(0));
  }

  /** It does happen: when as many transfers are under way as there are entries, one send of an idle
      LRW group leaves its mailbox state datagram with an index and no entry. */
  lemma AnIndexAlone() returns (states: seq<Machine>, steps: seq<Step>)
    ensures IsRun(states, steps, [true]) && |states[|steps|].s.groups| == 1
    ensures
      var group := states[|steps|].s.groups[0];
      group.lrw == NoCyclic && group.mbxState.idx.Some? && group.mbxState.entry == None
  {
    states, steps := ManyTransfers(MAX_DATAGRAMS);
    var m := states[|steps|];
    var r := SendWithoutEntry(m);
    OneMoreStep(states, steps, [true], Start(0));
    states, steps := states + [Next(m, Start(0))], steps + [Start(0)];
    OneMoreStep(states, steps, [true], Ask(0));
    states, steps := states + [Next(Next(m, Start(0)), Ask(0))], steps + [Ask(0)];
    OneMoreStep(states, steps, [true], Ask(0));
    states, steps := states + [r], steps + [Ask(0)];
  }

  /** A later send of the group that finds an entry for every datagram mends it. */
  lemma LaterSendMends(s: State, g: nat)
    requires g < |s.groups| && |s.entries| >= 3 && |s.indices| >= 3
    requires var group := s.groups[g];
      BothOrNeither(group.lrw) && BothOrNeither(group.lwr) && EntryHasIndex(group.lrd) && EntryHasIndex(group.mbxState)
    ensures var r := Sent(s, g).groups[g];
      && BothOrNeither(r.mbxState) && r.mbxState != NoCyclic
      && (!s.groups[g].useLrw ==> BothOrNeither(r.lrd) && r.lrd != NoCyclic)
      && Equipped(r)
  {
    if s.groups[g].useLrw {
      WhenLrwGroupIsPaired(s, g);
    } else {
      WhenLwrGroupIsPaired(s, g);
    }
  }
}
