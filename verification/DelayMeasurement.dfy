/** What the clock configuration achieves on a whole bus: the wiring port of every slave and
    the meaning of the delays. */
module DelayMeasurement {
  import opened Counting
  import opened Options
  import opened Ports
  import opened PortOrder
  import opened DistributedClocks
  import Topology

  /** The active ports of a slave in frame order. */
  function PathOf(s: Slave): (path: seq<Port>)
    ensures 1 <= |path| <= 4
  {
    Path(s.activePorts, Entry(s))
  }

  /** The slave whose clock slave `i` is measured against, negative if there is none. */
  function ParentOf(slaves: seq<Slave>, i: nat): int
    requires i < |slaves|
  {
    ClockParent(slaves, slaves[i].parent)
  }

  predicate IsChild(slaves: seq<Slave>, p: nat, i: nat)
    requires i < |slaves|
  {
    TakesPart(slaves[i]) && ParentOf(slaves, i) == p
  }

  /** How many children of `p` there are among the first `n` slaves. */
  function ChildrenBefore(slaves: seq<Slave>, p: nat, n: nat): nat
    requires n <= |slaves|
  {
    if n == 0 then 0
    else ChildrenBefore(slaves, p, n - 1) + if IsChild(slaves, p, n - 1) then 1 else 0
  }

  lemma {:induction false} ChildrenComeLater(slaves: seq<Slave>, p: nat, n: nat)
    requires Rooted(slaves) && n <= |slaves| && n <= p + 1
    ensures ChildrenBefore(slaves, p, n) == 0
  {
    if n > 0 {
      ChildrenComeLater(slaves, p, n - 1);
    }
  }

  /** The port of its parent that slave `i` is wired to. */
  function WiredPort(slaves: seq<Slave>, i: nat): Port
    requires i < |slaves| && ParentOf(slaves, i) >= 0
  {
    var p := ParentOf(slaves, i);
    ChildPort(PathOf(slaves[p]), ChildrenBefore(slaves, p, i))
  }

  /** A configured slave that has no parent to measure against. */
  function First(s: Slave, left: set<Port>, masterDelay: Option<int>): Slave {
    var entered := Entered(s).(availablePorts := left);
    if masterDelay.Some? then entered.(pdelay := masterDelay.value) else entered
  }

  /** A configured slave that is wired to port `q` of `par`. */
  function Behind(s: Slave, left: set<Port>, par: Slave, q: Port): Slave {
    Delayed(Entered(s).(availablePorts := left), par, q)
  }

  /** What slave `j` looks like in `cur`, `n` rounds after `was`. */
  ghost predicate Settled(was: seq<Slave>, cur: seq<Slave>, j: nat, n: nat, masterDelay: Option<int>)
    requires j < n <= |was| == |cur|
  {
    TakesPart(was[j]) ==>
      var p := ParentOf(was, j);
      var left := Left(PathOf(was[j]), ChildrenBefore(was, j, n));
      cur[j] == if p < 0 then First(was[j], left, masterDelay) else Behind(was[j], left, cur[p], WiredPort(was, j))
  }

  lemma {:induction false} SameClockParent(was: seq<Slave>, cur: seq<Slave>, p: int)
    requires SameBus(was, cur)
    ensures ClockParent(was, p) == ClockParent(cur, p)
    decreases p
  {
    if 0 <= p < |was| && !TakesPart(was[p]) && was[p].parent < p {
      SameClockParent(was, cur, was[p].parent);
    }
  }

  lemma {:induction false} StaysOnBus(was: seq<Slave>, n: nat, masterDelay: Option<int>)
    requires n <= |was|
    ensures SameBus(was, AfterRounds(was, n, masterDelay))
  {
    if n > 0 {
      StaysOnBus(was, n - 1, masterDelay);
      RoundKeepsBus(was, n - 1, masterDelay);
    }
  }

  lemma ConfiguredKeepsLater(slaves: seq<Slave>, i: nat, j: nat, masterDelay: Option<int>)
    requires i < j < |slaves| && slaves[i].parent < i
    ensures Configured(slaves, i, masterDelay)[j] == slaves[j]
  {
  }

  lemma {:induction false} LaterUntouched(was: seq<Slave>, n: nat, j: nat, masterDelay: Option<int>)
    requires Rooted(was) && n <= j < |was|
    ensures AfterRounds(was, n, masterDelay)[j] == was[j]
  {
    if n > 0 {
      LaterUntouched(was, n - 1, j, masterDelay);
      StaysOnBus(was, n - 1, masterDelay);
      var cur := AfterRounds(was, n - 1, masterDelay);
      assert SameWiring(was[n - 1], cur[n - 1]);
      ConfiguredKeepsLater(cur, n - 1, j, masterDelay);
    }
  }

  lemma EnteredLeft(s: Slave)
    requires s.activePorts != {}
    ensures Entered(s).availablePorts == Left(PathOf(s), 0)
  {
    EntryIsEarliest(s);
    PathIsPermutation(s.activePorts, Entry(s));
    var path := PathOf(s);
    forall p ensures p in Left(path, 0) <==> p in s.activePorts - {Entry(s)} {
      if p in s.activePorts - {Entry(s)} {
        assert p in path;
        var i :| 0 <= i < |path| && path[i] == p;
        assert i != 0;
      }
    }
  }

  /** A round finds its slave as it was, and the true clock parent. */
  lemma RoundStart(was: seq<Slave>, n: nat, masterDelay: Option<int>)
    requires Rooted(was) && n < |was|
    ensures AfterRounds(was, n, masterDelay)[n] == was[n]
    ensures ClockParent(AfterRounds(was, n, masterDelay), was[n].parent) == ParentOf(was, n)
  {
    StaysOnBus(was, n, masterDelay);
    LaterUntouched(was, n, n, masterDelay);
    SameClockParent(was, AfterRounds(was, n, masterDelay), was[n].parent);
  }

  /** A round takes the port of the parent that the slave is wired to. */
  lemma RoundTakesPort(was: seq<Slave>, n: nat, masterDelay: Option<int>)
    requires Rooted(was) && Linked(was) && n < |was| && TakesPart(was[n])
    requires 0 <= ParentOf(was, n) < n
    requires Settled(was, AfterRounds(was, n, masterDelay), ParentOf(was, n), n, masterDelay)
    ensures
      var p := ParentOf(was, n);
      var par := AfterRounds(was, n, masterDelay)[p];
      && NextAvailablePort(par.availablePorts, par.entryPort) == WiredPort(was, n)
      && par.availablePorts - {WiredPort(was, n)} == Left(PathOf(was[p]), ChildrenBefore(was, p, n + 1))
  {
    var p := ParentOf(was, n);
    EntryIsEarliest(was[p]);
    TakeOnPath(was[p].activePorts, Entry(was[p]), ChildrenBefore(was, p, n));
  }

  /** What one round changes, in terms of the true wiring. */
  lemma RoundEffect(was: seq<Slave>, n: nat, masterDelay: Option<int>)
    requires Rooted(was) && Linked(was) && n < |was| && TakesPart(was[n])
    requires var p := ParentOf(was, n);
      0 <= p < n ==> Settled(was, AfterRounds(was, n, masterDelay), p, n, masterDelay)
    ensures
      var cur := AfterRounds(was, n, masterDelay);
      var p := ParentOf(was, n);
      var left := Left(PathOf(was[n]), 0);
      AfterRounds(was, n + 1, masterDelay) ==
        if p < 0 then cur[n := First(was[n], left, masterDelay)]
        else cur[n := Behind(was[n], left, cur[p], WiredPort(was, n))]
                [p := cur[p].(availablePorts := Left(PathOf(was[p]), ChildrenBefore(was, p, n + 1)))]
  {
    RoundStart(was, n, masterDelay);
    EnteredLeft(was[n]);
    if ParentOf(was, n) >= 0 {
      RoundTakesPort(was, n, masterDelay);
    }
  }

  /** The delays of a slave depend neither on its own nor on its parent's available ports. */
  lemma AvailableIsFramed(s: Slave, par: Slave, q: Port, a: set<Port>, b: set<Port>, c: set<Port>)
    ensures Behind(s, a, par.(availablePorts := c), q) == Behind(s, a, par, q)
    ensures Behind(s, a, par, q).(availablePorts := b) == Behind(s, b, par, q)
  {
  }

  /** A round settles its own slave. */
  lemma RoundSettlesOwn(was: seq<Slave>, n: nat, masterDelay: Option<int>)
    requires Rooted(was) && Linked(was) && n < |was| && TakesPart(was[n])
    requires var p := ParentOf(was, n);
      0 <= p < n ==> Settled(was, AfterRounds(was, n, masterDelay), p, n, masterDelay)
    ensures Settled(was, AfterRounds(was, n + 1, masterDelay), n, n + 1, masterDelay)
  {
    ChildrenComeLater(was, n, n + 1);
    RoundEffect(was, n, masterDelay);
    var cur, next, p := AfterRounds(was, n, masterDelay), AfterRounds(was, n + 1, masterDelay), ParentOf(was, n);
    if p >= 0 {
      var left := Left(PathOf(was[n]), 0);
      AvailableIsFramed(was[n], cur[p], WiredPort(was, n), left, left, next[p].availablePorts);
    }
  }

  /** A settled slave stays what it is when ports are taken from it and from its parent. */
  lemma SettledIsFramed(s: Slave, par: Slave, q: Port, a: set<Port>, b: set<Port>, c: set<Port>, t: Slave)
    requires t == Behind(s, a, par, q)
    ensures t.(availablePorts := b) == Behind(s, b, par.(availablePorts := c), q)
  {
  }

  /** A round changes nothing of the earlier slaves but the available ports of one of them. */
  lemma RoundTouchesPorts(was: seq<Slave>, n: nat, j: nat, masterDelay: Option<int>)
    requires Rooted(was) && Linked(was) && j < n < |was| && TakesPart(was[n])
    requires var p := ParentOf(was, n);
      0 <= p < n ==> Settled(was, AfterRounds(was, n, masterDelay), p, n, masterDelay)
    ensures
      var cur, next := AfterRounds(was, n, masterDelay)[j], AfterRounds(was, n + 1, masterDelay)[j];
      next == cur.(availablePorts :=
        if ParentOf(was, n) == j then Left(PathOf(was[j]), ChildrenBefore(was, j, n + 1)) else cur.availablePorts)
  {
    RoundEffect(was, n, masterDelay);
  }

  lemma SettledPorts(was: seq<Slave>, cur: seq<Slave>, j: nat, n: nat, masterDelay: Option<int>)
    requires j < n <= |was| == |cur| && TakesPart(was[j]) && Settled(was, cur, j, n, masterDelay)
    ensures cur[j].availablePorts == Left(PathOf(was[j]), ChildrenBefore(was, j, n))
  {
  }

  /** A round keeps the earlier slaves settled, and takes one port of its slave's parent. */
  lemma RoundSettlesEarlier(was: seq<Slave>, n: nat, j: nat, masterDelay: Option<int>)
    requires Rooted(was) && Linked(was) && j < n < |was| && TakesPart(was[n]) && TakesPart(was[j])
    requires Settled(was, AfterRounds(was, n, masterDelay), j, n, masterDelay)
    requires var p := ParentOf(was, n);
      0 <= p < n ==> Settled(was, AfterRounds(was, n, masterDelay), p, n, masterDelay)
    ensures Settled(was, AfterRounds(was, n + 1, masterDelay), j, n + 1, masterDelay)
  {
    var cur, next := AfterRounds(was, n, masterDelay), AfterRounds(was, n + 1, masterDelay);
    RoundTouchesPorts(was, n, j, masterDelay);
    SettledPorts(was, cur, j, n, masterDelay);
    var pj := ParentOf(was, j);
    if pj >= 0 {
      RoundTouchesPorts(was, n, pj, masterDelay);
      SettledIsFramed(
        was[j], cur[pj], WiredPort(was, j), cur[j].availablePorts, next[j].availablePorts,
        next[pj].availablePorts, cur[j]);
    }
  }

  /** A round for another slave leaves everything settled. */
  lemma RoundSettlesOther(was: seq<Slave>, n: nat, j: nat, masterDelay: Option<int>)
    requires Rooted(was) && j < n < |was| && !TakesPart(was[n])
    requires Settled(was, AfterRounds(was, n, masterDelay), j, n, masterDelay)
    ensures Settled(was, AfterRounds(was, n + 1, masterDelay), j, n + 1, masterDelay)
  {
    var cur := AfterRounds(was, n, masterDelay);
    LaterUntouched(was, n, n, masterDelay);
    assert AfterRounds(was, n + 1, masterDelay) == cur[n := Skipped(cur[n])];
  }

  /** A round leaves everything settled that was, and its own slave. */
  lemma RoundSettles(was: seq<Slave>, n: nat, j: nat, masterDelay: Option<int>)
    requires Rooted(was) && Linked(was) && j <= n < |was|
    requires j < n ==> Settled(was, AfterRounds(was, n, masterDelay), j, n, masterDelay)
    requires var p := ParentOf(was, n);
      0 <= p < n ==> Settled(was, AfterRounds(was, n, masterDelay), p, n, masterDelay)
    ensures Settled(was, AfterRounds(was, n + 1, masterDelay), j, n + 1, masterDelay)
  {
    if TakesPart(was[j]) {
      if j == n {
        RoundSettlesOwn(was, j, masterDelay);
      } else if TakesPart(was[n]) {
        RoundSettlesEarlier(was, n, j, masterDelay);
      } else {
        RoundSettlesOther(was, n, j, masterDelay);
      }
    }
  }

  /** The first `n` slaves are settled after `n` rounds. */
  ghost predicate AllSettled(was: seq<Slave>, cur: seq<Slave>, n: nat, masterDelay: Option<int>) {
    n <= |was| == |cur| && forall j :: 0 <= j < n ==> Settled(was, cur, j, n, masterDelay)
  }

  lemma RoundSettlesAll(was: seq<Slave>, n: nat, masterDelay: Option<int>)
    requires Rooted(was) && Linked(was) && n < |was|
    requires AllSettled(was, AfterRounds(was, n, masterDelay), n, masterDelay)
    ensures AllSettled(was, AfterRounds(was, n + 1, masterDelay), n + 1, masterDelay)
  {
    var p, m := ParentOf(was, n), n + 1;
    var next := AfterRounds(was, m, masterDelay);
    assert 0 <= p < n ==> Settled(was, AfterRounds(was, n, masterDelay), p, n, masterDelay);
    forall j | 0 <= j < m
      ensures Settled(was, next, j, m, masterDelay)
    {
      RoundSettles(was, n, j, masterDelay);
    }
  }

  lemma {:induction false} RoundsSettle(was: seq<Slave>, n: nat, masterDelay: Option<int>)
    requires Rooted(was) && Linked(was) && n <= |was|
    ensures AllSettled(was, AfterRounds(was, n, masterDelay), n, masterDelay)
  {
    if n == 0 {
      assert AfterRounds(was, 0, masterDelay) == was;
    } else {
      var m := n - 1;
      RoundsSettle(was, m, masterDelay);
      RoundSettlesAll(was, m, masterDelay);
    }
  }

  /** What the slaves look like when all rounds are over. */
  ghost predicate Final(was: seq<Slave>, done: seq<Slave>, masterDelay: Option<int>) {
    SameBus(was, done) && AllSettled(was, done, |was|, masterDelay)
  }

  lemma RoundsAreFinal(was: seq<Slave>, masterDelay: Option<int>)
    requires Rooted(was) && Linked(was)
    ensures Final(was, AfterRounds(was, |was|, masterDelay), masterDelay)
  {
    StaysOnBus(was, |was|, masterDelay);
    RoundsSettle(was, |was|, masterDelay);
  }

  // ---------------------------------------------------------------------------------------
  // Ports
  // ---------------------------------------------------------------------------------------

  const LIMIT := 0x8000_0000

  /** The slave latched a frame that came in at port `up` and ran through the active ports in
      frame order, without a wrap of the local clock. */
  predicate LatchedFrom(s: Slave, up: Port) {
    var path := Path(s.activePorts, up);
    && up in s.activePorts
    && (forall a, b :: 0 <= a < b < |path| ==> Time(s, path[a]) < Time(s, path[b]))
    && Time(s, path[|path| - 1]) - Time(s, path[0]) < LIMIT
  }

  /** A bus as the configuration expects it: every link of a slave that takes part, other than
      the one towards the master, leads to one child that takes part; `up` gives the port
      towards the master. */
  ghost predicate Bus(slaves: seq<Slave>, up: seq<Port>) {
    && Rooted(slaves)
    && |up| == |slaves|
    && forall i :: 0 <= i < |slaves| && TakesPart(slaves[i]) ==>
        LatchedFrom(slaves[i], up[i]) && |slaves[i].activePorts| == 1 + ChildrenBefore(slaves, i, |slaves|)
  }

  lemma UpstreamIsEntry(s: Slave, up: Port)
    requires LatchedFrom(s, up)
    ensures Entry(s) == up
  {
    PathIsPermutation(s.activePorts, up);
    EntryIsEarliest(s);
    var path := Path(s.activePorts, up);
    assert Entry(s) in path;
    var k :| 0 <= k < |path| && path[k] == Entry(s);
    assert k == 0;
  }

  lemma {:induction false} ChildrenGrow(slaves: seq<Slave>, p: nat, m: nat, n: nat)
    requires m <= n <= |slaves|
    ensures ChildrenBefore(slaves, p, m) <= ChildrenBefore(slaves, p, n)
    decreases n
  {
    if m < n {
      ChildrenGrow(slaves, p, m, n - 1);
    }
  }

  /** Child `i` of `p` is one of the slaves that the links of `p` lead to. */
  lemma RankFits(slaves: seq<Slave>, up: seq<Port>, p: nat, i: nat)
    requires Bus(slaves, up) && i < |slaves| && p < |slaves|
    requires TakesPart(slaves[p]) && IsChild(slaves, p, i)
    ensures PathOf(slaves[p]) == Path(slaves[p].activePorts, up[p])
    ensures 1 + ChildrenBefore(slaves, p, i) < |PathOf(slaves[p])| == 1 + ChildrenBefore(slaves, p, |slaves|)
  {
    UpstreamIsEntry(slaves[p], up[p]);
    PathIsPermutation(slaves[p].activePorts, up[p]);
    ChildrenGrow(slaves, p, i + 1, |slaves|);
  }

  /** Every slave finds its entry port, and no port is left over. */
  lemma EntryIsFound(slaves: seq<Slave>, up: seq<Port>, done: seq<Slave>, i: nat, masterDelay: Option<int>)
    requires Bus(slaves, up) && Final(slaves, done, masterDelay) && i < |slaves| && TakesPart(slaves[i])
    ensures done[i].entryPort == up[i] && done[i].availablePorts == {}
  {
    assert Settled(slaves, done, i, |slaves|, masterDelay);
    UpstreamIsEntry(slaves[i], up[i]);
    PathIsPermutation(slaves[i].activePorts, up[i]);
  }

  /** The k-th child of a slave gets the k-th active port after the entry port. */
  lemma PortIsFound(slaves: seq<Slave>, up: seq<Port>, done: seq<Slave>, i: nat, masterDelay: Option<int>)
    requires Bus(slaves, up) && Final(slaves, done, masterDelay) && i < |slaves| && TakesPart(slaves[i])
    requires ParentOf(slaves, i) >= 0
    ensures
      var p := ParentOf(slaves, i);
      var path, k := Path(slaves[p].activePorts, up[p]), ChildrenBefore(slaves, p, i);
      1 + k < |path| && WiredPort(slaves, i) == path[1 + k] && done[i].portOnParent == path[1 + k]
  {
    assert Settled(slaves, done, i, |slaves|, masterDelay);
    RankFits(slaves, up, ParentOf(slaves, i), i);
  }

  /** Main theorem on ports: every slave finds its entry port, the k-th child of a slave gets
      the k-th active port after the entry port in frame order, and no port is left over. */
  lemma PortsAreAssigned(slaves: seq<Slave>, up: seq<Port>, i: nat, masterDelay: Option<int>)
    requires Bus(slaves, up) && i < |slaves| && TakesPart(slaves[i])
    ensures
      var done := AfterRounds(slaves, |slaves|, masterDelay);
      var p := ParentOf(slaves, i);
      && done[i].entryPort == up[i]
      && done[i].availablePorts == {}
      && (p >= 0 ==>
          && 1 + ChildrenBefore(slaves, p, i) < |Path(slaves[p].activePorts, up[p])|
          && done[i].portOnParent == Path(slaves[p].activePorts, up[p])[1 + ChildrenBefore(slaves, p, i)])
  {
    var done := AfterRounds(slaves, |slaves|, masterDelay);
    BusIsLinked(slaves, up);
    RoundsAreFinal(slaves, masterDelay);
    EntryIsFound(slaves, up, done, i, masterDelay);
    if ParentOf(slaves, i) >= 0 {
      PortIsFound(slaves, up, done, i, masterDelay);
    }
  }

  lemma BusIsLinked(slaves: seq<Slave>, up: seq<Port>)
    requires Bus(slaves, up)
    ensures Linked(slaves)
  {
  }

  /** Two children of one slave are wired to different ports. */
  lemma SiblingsApart(slaves: seq<Slave>, up: seq<Port>, i: nat, k: nat, masterDelay: Option<int>)
    requires Bus(slaves, up) && i < k < |slaves| && TakesPart(slaves[i]) && TakesPart(slaves[k])
    requires ParentOf(slaves, i) == ParentOf(slaves, k) >= 0
    ensures var done := AfterRounds(slaves, |slaves|, masterDelay);
      done[i].portOnParent != done[k].portOnParent
  {
    var done, p := AfterRounds(slaves, |slaves|, masterDelay), ParentOf(slaves, i);
    BusIsLinked(slaves, up);
    RoundsAreFinal(slaves, masterDelay);
    PortIsFound(slaves, up, done, i, masterDelay);
    PortIsFound(slaves, up, done, k, masterDelay);
    ChildrenGrow(slaves, p, i + 1, k);
    PortsOnPathDiffer(
      slaves[p].activePorts, up[p], 1 + ChildrenBefore(slaves, p, i), 1 + ChildrenBefore(slaves, p, k));
  }

  lemma PortsOnPathDiffer(active: set<Port>, entry: Port, i: nat, j: nat)
    requires entry in active && i < j < |Path(active, entry)|
    ensures Path(active, entry)[i] != Path(active, entry)[j]
  {
    PathIsPermutation(active, entry);
  }

  // ---------------------------------------------------------------------------------------
  // Delays
  // ---------------------------------------------------------------------------------------

  /** Along a path, differences of latched times fit 32 bits and are positive. */
  lemma SpanFits(s: Slave, up: Port, a: nat, b: nat)
    requires LatchedFrom(s, up) && a <= b < |Path(s.activePorts, up)|
    ensures var path := Path(s.activePorts, up);
      var d := Time(s, path[b]) - Time(s, path[a]);
      0 <= d < LIMIT && Int32(d) == d && (a < b ==> d > 0)
  {
    var path := Path(s.activePorts, up);
    var last := |path| - 1;
    assert b < last ==> Time(s, path[b]) < Time(s, path[last]);
    assert 0 < a ==> Time(s, path[0]) < Time(s, path[a]);
    assert a < b ==> Time(s, path[a]) < Time(s, path[b]);
    Int32Fits(Time(s, path[b]) - Time(s, path[a]));
  }

  /** The delay that slave `i` adds to its parent's propagation delay. */
  function Added(s: Slave): int {
    if s.entryPort == 0 then s.delayParentPrevious + s.delaySlave
    else Abs(Int32(Time(s, s.entryPort) - Time(s, 0) + T_DIFF)) / 2
  }

  /** The stored delays in terms of the latched times. */
  lemma StoredDelays(slaves: seq<Slave>, done: seq<Slave>, i: nat, masterDelay: Option<int>)
    requires Final(slaves, done, masterDelay) && i < |slaves| && TakesPart(slaves[i])
    ensures
      var s, e := slaves[i], Entry(slaves[i]);
      && done[i].entryPort == e && done[i].times == s.times
      && done[i].delayChilds == Int32(Time(s, PreviousActivePort(s.activePorts, e)) - Time(s, e))
  {
    assert Settled(slaves, done, i, |slaves|, masterDelay);
  }

  lemma StoredParentDelays(slaves: seq<Slave>, done: seq<Slave>, i: nat, masterDelay: Option<int>)
    requires Final(slaves, done, masterDelay) && i < |slaves| && TakesPart(slaves[i])
    requires ParentOf(slaves, i) >= 0
    ensures
      var par := slaves[ParentOf(slaves, i)];
      var q := WiredPort(slaves, i);
      var prev := PreviousActivePort(par.activePorts, q);
      && done[i].delayWithChilds == Abs(Int32(Time(par, q) - Time(par, prev)))
      && done[i].delayParentPrevious == Int32(Time(par, prev) - Time(par, Entry(par)))
      && done[i].delaySlave == Abs(Half(Int32(done[i].delayWithChilds - done[i].delayChilds + T_DIFF)))
      && done[i].pdelay == Int32(done[ParentOf(slaves, i)].pdelay + Added(done[i]))
  {
    var p := ParentOf(slaves, i);
    assert Settled(slaves, done, i, |slaves|, masterDelay);
    StoredDelays(slaves, done, p, masterDelay);
    assert SameWiring(slaves[p], done[p]);
  }

  lemma StoredOwnDelay(slaves: seq<Slave>, up: seq<Port>, done: seq<Slave>, i: nat, masterDelay: Option<int>)
    requires Bus(slaves, up) && Final(slaves, done, masterDelay) && i < |slaves| && TakesPart(slaves[i])
    ensures
      var own := Path(slaves[i].activePorts, up[i]);
      done[i].delayChilds == Time(slaves[i], own[|own| - 1]) - Time(slaves[i], own[0])
  {
    StoredDelays(slaves, done, i, masterDelay);
    UpstreamIsEntry(slaves[i], up[i]);
    PreviousOnPath(slaves[i].activePorts, up[i], 0);
    SpanFits(slaves[i], up[i], 0, |Path(slaves[i].activePorts, up[i])| - 1);
  }

  /** The delay that a slave stores for what is behind it is the time between the frame
      coming in and leaving through the last port. */
  lemma OwnDelay(slaves: seq<Slave>, up: seq<Port>, i: nat, masterDelay: Option<int>)
    requires Bus(slaves, up) && i < |slaves| && TakesPart(slaves[i])
    ensures
      var own := Path(slaves[i].activePorts, up[i]);
      AfterRounds(slaves, |slaves|, masterDelay)[i].delayChilds
        == Time(slaves[i], own[|own| - 1]) - Time(slaves[i], own[0])
  {
    BusIsLinked(slaves, up);
    RoundsAreFinal(slaves, masterDelay);
    StoredOwnDelay(slaves, up, AfterRounds(slaves, |slaves|, masterDelay), i, masterDelay);
  }

  /** Differences of latched times along the path of a parent. */
  lemma SpansOfParent(s: Slave, up: Port, k: nat, q: Port, there: int, before: int)
    requires LatchedFrom(s, up) && k + 1 < |Path(s.activePorts, up)| && q == Path(s.activePorts, up)[k + 1]
    requires there == Abs(Int32(Time(s, q) - Time(s, PreviousActivePort(s.activePorts, q))))
    requires before == Int32(Time(s, PreviousActivePort(s.activePorts, q)) - Time(s, Entry(s)))
    ensures
      var path := Path(s.activePorts, up);
      there == Time(s, path[k + 1]) - Time(s, path[k]) && before == Time(s, path[k]) - Time(s, path[0])
  {
    UpstreamIsEntry(s, up);
    PreviousOnPath(s.activePorts, up, k + 1);
    SpanFits(s, up, k, k + 1);
    SpanFits(s, up, 0, k);
  }

  lemma WiredSpans(slaves: seq<Slave>, up: seq<Port>, i: nat, there: int, before: int)
    requires Bus(slaves, up) && i < |slaves| && TakesPart(slaves[i]) && ParentOf(slaves, i) >= 0
    requires
      var par, q := slaves[ParentOf(slaves, i)], WiredPort(slaves, i);
      var prev := PreviousActivePort(par.activePorts, q);
      there == Abs(Int32(Time(par, q) - Time(par, prev))) && before == Int32(Time(par, prev) - Time(par, Entry(par)))
    ensures
      var p := ParentOf(slaves, i);
      var path, k := Path(slaves[p].activePorts, up[p]), ChildrenBefore(slaves, p, i);
      && k + 1 < |path|
      && there == Time(slaves[p], path[k + 1]) - Time(slaves[p], path[k])
      && before == Time(slaves[p], path[k]) - Time(slaves[p], path[0])
  {
    var p := ParentOf(slaves, i);
    RankFits(slaves, up, p, i);
    SpansOfParent(slaves[p], up[p], ChildrenBefore(slaves, p, i), WiredPort(slaves, i), there, before);
  }

  lemma StoredSpans(slaves: seq<Slave>, up: seq<Port>, done: seq<Slave>, i: nat, masterDelay: Option<int>)
    requires Bus(slaves, up) && Final(slaves, done, masterDelay) && i < |slaves| && TakesPart(slaves[i])
    requires ParentOf(slaves, i) >= 0
    ensures
      var p := ParentOf(slaves, i);
      var path, k := Path(slaves[p].activePorts, up[p]), ChildrenBefore(slaves, p, i);
      && k + 1 < |path|
      && done[i].delayWithChilds == Time(slaves[p], path[k + 1]) - Time(slaves[p], path[k])
      && done[i].delayParentPrevious == Time(slaves[p], path[k]) - Time(slaves[p], path[0])
  {
    StoredParentDelays(slaves, done, i, masterDelay);
    WiredSpans(slaves, up, i, done[i].delayWithChilds, done[i].delayParentPrevious);
  }

  /** The delays that the k-th child of a slave stores: the time between the frame leaving the
      parent towards the child and coming back, and the time from the parent's entry port to
      the moment the frame leaves towards the child. */
  lemma DelaysAreSpans(slaves: seq<Slave>, up: seq<Port>, i: nat, masterDelay: Option<int>)
    requires Bus(slaves, up) && i < |slaves| && TakesPart(slaves[i]) && ParentOf(slaves, i) >= 0
    ensures
      var done := AfterRounds(slaves, |slaves|, masterDelay);
      var p := ParentOf(slaves, i);
      var path, k := Path(slaves[p].activePorts, up[p]), ChildrenBefore(slaves, p, i);
      && k + 1 < |path|
      && done[i].delayWithChilds == Time(slaves[p], path[k + 1]) - Time(slaves[p], path[k])
      && done[i].delayParentPrevious == Time(slaves[p], path[k]) - Time(slaves[p], path[0])
  {
    BusIsLinked(slaves, up);
    RoundsAreFinal(slaves, masterDelay);
    StoredSpans(slaves, up, AfterRounds(slaves, |slaves|, masterDelay), i, masterDelay);
  }

  /** The sum of the stored delays with children over the children of `p` among the first `n`
      slaves. */
  function DelaysBefore(slaves: seq<Slave>, done: seq<Slave>, p: nat, n: nat): int
    requires n <= |slaves| == |done|
  {
    if n == 0 then 0
    else DelaysBefore(slaves, done, p, n - 1) + if IsChild(slaves, p, n - 1) then done[n - 1].delayWithChilds else 0
  }

  lemma {:induction false} DelaysTelescope(
      slaves: seq<Slave>, up: seq<Port>, done: seq<Slave>, p: nat, n: nat, masterDelay: Option<int>)
    requires Bus(slaves, up) && Final(slaves, done, masterDelay)
    requires p < |slaves| && n <= |slaves| && TakesPart(slaves[p])
    ensures
      var path, k := Path(slaves[p].activePorts, up[p]), ChildrenBefore(slaves, p, n);
      k < |path| && DelaysBefore(slaves, done, p, n) == Time(slaves[p], path[k]) - Time(slaves[p], path[0])
  {
    if n > 0 {
      DelaysTelescope(slaves, up, done, p, n - 1, masterDelay);
      if IsChild(slaves, p, n - 1) {
        StoredSpans(slaves, up, done, n - 1, masterDelay);
      }
    }
  }

  /** Main theorem on delays: what a slave stores as the delay of its parent's previous slaves
      is the sum of what its earlier siblings stored, and all children together account for
      the whole delay behind the parent. */
  lemma DelaysAddUp(slaves: seq<Slave>, up: seq<Port>, i: nat, masterDelay: Option<int>)
    requires Bus(slaves, up) && i < |slaves| && TakesPart(slaves[i]) && ParentOf(slaves, i) >= 0
    ensures
      var done := AfterRounds(slaves, |slaves|, masterDelay);
      var p := ParentOf(slaves, i);
      && done[i].delayParentPrevious == DelaysBefore(slaves, done, p, i)
      && done[p].delayChilds == DelaysBefore(slaves, done, p, |slaves|)
  {
    var done, p := AfterRounds(slaves, |slaves|, masterDelay), ParentOf(slaves, i);
    BusIsLinked(slaves, up);
    RoundsAreFinal(slaves, masterDelay);
    StoredSpans(slaves, up, done, i, masterDelay);
    StoredOwnDelay(slaves, up, done, p, masterDelay);
    DelaysTelescope(slaves, up, done, p, i, masterDelay);
    DelaysTelescope(slaves, up, done, p, |slaves|, masterDelay);
    RankFits(slaves, up, p, i);
  }

  /** What a slave adds is not negative and less than one wrap. */
  lemma AddedIsBounded(slaves: seq<Slave>, up: seq<Port>, done: seq<Slave>, i: nat, masterDelay: Option<int>)
    requires Bus(slaves, up) && Final(slaves, done, masterDelay) && i < |slaves| && TakesPart(slaves[i])
    requires ParentOf(slaves, i) >= 0
    ensures 0 <= Added(done[i]) < 0x1_0000_0000
  {
    var p := ParentOf(slaves, i);
    StoredParentDelays(slaves, done, i, masterDelay);
    StoredSpans(slaves, up, done, i, masterDelay);
    SpanFits(slaves[p], up[p], 0, ChildrenBefore(slaves, p, i));
  }

  lemma WrapsOnce(a: int, d: int)
    requires -LIMIT <= a < LIMIT && 0 <= d < 0x1_0000_0000
    ensures Int32(a + d) == if a + d < LIMIT then a + d else a + d - 0x1_0000_0000
  {
  }

  // ---------------------------------------------------------------------------------------
  // Together with the scan
  // ---------------------------------------------------------------------------------------

  lemma {:induction false} ParentsAreCounted(slaves: seq<Slave>, ps: seq<int>, p: nat, n: nat)
    requires |ps| == |slaves| && n <= |slaves| && Rooted(slaves)
    requires forall i :: 0 <= i < |slaves| ==> TakesPart(slaves[i]) && slaves[i].parent == ps[i]
    ensures ChildrenBefore(slaves, p, n) == CountIn(ps[..n], p)
  {
    if n > 0 {
      ParentsAreCounted(slaves, ps, p, n - 1);
      assert ps[..n] == ps[..n - 1] + [ps[n - 1]];
      CountInAppend(ps[..n - 1], ps[n - 1], p);
    }
  }

  /** On a tree of slaves that all take part, the parents and open ports that the scan stores
      (theorem `ScanRebuildsTree`) make up a bus as the clock configuration expects it. */
  lemma ScannedTreeIsBus(t: Topology.Tree, slaves: seq<Slave>, up: seq<Port>)
    requires |slaves| == |up| == |Topology.Links(t)|
    requires forall i :: 0 <= i < |slaves| ==>
      && TakesPart(slaves[i]) && LatchedFrom(slaves[i], up[i])
      && slaves[i].parent == Topology.Parents(t, 0, -1)[i]
      && |slaves[i].activePorts| == Topology.Links(t)[i]
    ensures Bus(slaves, up)
    ensures forall i :: 0 < i < |slaves| ==> ParentOf(slaves, i) == slaves[i].parent >= 0
  {
    var ps := Topology.Parents(t, 0, -1);
    forall i | 0 <= i < |slaves|
      ensures slaves[i].parent < i && (i > 0 ==> slaves[i].parent >= 0)
    {
      if i > 0 {
        Topology.ForestParentsFirst(t.children, 1, 0, i - 1);
      }
    }
    forall i | 0 <= i < |slaves|
      ensures |slaves[i].activePorts| == 1 + ChildrenBefore(slaves, i, |slaves|)
    {
      ParentsAreCounted(slaves, ps, i, |slaves|);
      assert ps[..|slaves|] == ps;
      Topology.ChildCount(t, i);
    }
  }
}
