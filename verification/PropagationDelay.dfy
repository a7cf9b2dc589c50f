/** The propagation delay from the master's side of the bus to every slave, and when the 32-bit
    numbers that the clock configuration stores are that delay. */
module PropagationDelay {
  import opened DelayMeasurement
  import opened DistributedClocks
  import opened Options
  import opened PortOrder
  import opened Ports

  /** The time a frame spends behind a slave. */
  function Behind(slaves: seq<Slave>, up: seq<Port>, i: nat): int
    requires i < |slaves| == |up|
  {
    var path := Path(slaves[i].activePorts, up[i]);
    Time(slaves[i], path[|path| - 1]) - Time(slaves[i], path[0])
  }

  /** What lies between a slave and its parent, from the latched times and the wiring alone: the
      time the frame spent behind the slaves that the parent reaches first, and half of what is left
      of the time towards the slave and back when the time behind the slave is taken off.  For a
      slave that is wired the wrong way round, half the time between its entry port and port 0. */
  function Link(slaves: seq<Slave>, up: seq<Port>, i: nat): int
    requires i < |slaves| == |up|
  {
    var p := ParentOf(slaves, i);
    if p < 0 then 0
    else if up[i] != 0 then Abs(Int32(Time(slaves[i], up[i]) - Time(slaves[i], 0) + T_DIFF)) / 2
    else
      var path, k := Path(slaves[p].activePorts, up[p]), ChildrenBefore(slaves, p, i);
      if k + 1 >= |path| then 0
      else
        var before, there := Time(slaves[p], path[k]) - Time(slaves[p], path[0]),
          Time(slaves[p], path[k + 1]) - Time(slaves[p], path[k]);
        before + Abs(Half(Int32(there - Behind(slaves, up, i) + T_DIFF)))
  }

  /** The delay of a slave without a parent to measure against. */
  function Base(s: Slave, masterDelay: Option<int>): int {
    if masterDelay.Some? then masterDelay.value else s.pdelay
  }

  /** The links from the first slave of the bus to slave `i`, added up. */
  function PathDelay(slaves: seq<Slave>, up: seq<Port>, i: nat, masterDelay: Option<int>): int
    requires i < |slaves| == |up| && Rooted(slaves)
    decreases i
  {
    var p := ParentOf(slaves, i);
    if p < 0 then Base(slaves[i], masterDelay) else PathDelay(slaves, up, p, masterDelay) + Link(slaves, up, i)
  }

  /** What the configuration stores is the delay, for slave `i` and all slaves in front of it. */
  predicate Right(slaves: seq<Slave>, up: seq<Port>, done: seq<Slave>, i: nat, masterDelay: Option<int>)
    requires i < |slaves| == |up| == |done| && Rooted(slaves)
    decreases i
  {
    var p := ParentOf(slaves, i);
    && done[i].pdelay == PathDelay(slaves, up, i, masterDelay)
    && (p >= 0 ==> Right(slaves, up, done, p, masterDelay))
  }

  /** It never gets smaller on the way to slave `i`. */
  predicate Grows(slaves: seq<Slave>, done: seq<Slave>, i: nat)
    requires i < |slaves| == |done| && Rooted(slaves)
    decreases i
  {
    var p := ParentOf(slaves, i);
    p >= 0 ==> done[p].pdelay <= done[i].pdelay && Grows(slaves, done, p)
  }

  /** The numbers that are there before fit their 32-bit fields. */
  predicate FieldsFit(slaves: seq<Slave>, masterDelay: Option<int>) {
    && (forall i :: 0 <= i < |slaves| ==> -LIMIT <= slaves[i].pdelay < LIMIT)
    && (masterDelay.Some? ==> -LIMIT <= masterDelay.value < LIMIT)
  }

  /** The number of a slave without a parent. */
  lemma StoredBase(slaves: seq<Slave>, done: seq<Slave>, i: nat, masterDelay: Option<int>)
    requires Final(slaves, done, masterDelay) && i < |slaves| && TakesPart(slaves[i]) && ParentOf(slaves, i) < 0
    ensures done[i].pdelay == Base(slaves[i], masterDelay)
  {
    assert Settled(slaves, done, i, |slaves|, masterDelay);
  }

  /** What a slave adds is its link. */
  lemma LinkIsAdded(slaves: seq<Slave>, up: seq<Port>, done: seq<Slave>, i: nat, masterDelay: Option<int>)
    requires Bus(slaves, up) && Final(slaves, done, masterDelay) && i < |slaves| && TakesPart(slaves[i])
    requires ParentOf(slaves, i) >= 0
    ensures Added(done[i]) == Link(slaves, up, i)
  {
    StoredDelays(slaves, done, i, masterDelay);
    UpstreamIsEntry(slaves[i], up[i]);
    StoredOwnDelay(slaves, up, done, i, masterDelay);
    StoredSpans(slaves, up, done, i, masterDelay);
    StoredParentDelays(slaves, done, i, masterDelay);
  }

  /** A slave adds its link to the number of its parent, in 32-bit arithmetic. */
  lemma StoredDelay(slaves: seq<Slave>, up: seq<Port>, done: seq<Slave>, i: nat, masterDelay: Option<int>)
    requires Bus(slaves, up) && Final(slaves, done, masterDelay) && i < |slaves| && TakesPart(slaves[i])
    requires ParentOf(slaves, i) >= 0
    ensures 0 <= Link(slaves, up, i) < 0x1_0000_0000
    ensures done[i].pdelay == Int32(done[ParentOf(slaves, i)].pdelay + Link(slaves, up, i))
  {
    LinkIsAdded(slaves, up, done, i, masterDelay);
    AddedIsBounded(slaves, up, done, i, masterDelay);
    StoredParentDelays(slaves, done, i, masterDelay);
  }

  /** Along one link the number does not get smaller, and is its parent's plus the link, exactly
      when the sum fits a signed 32-bit number. */
  lemma DelayAlongLink(slaves: seq<Slave>, up: seq<Port>, done: seq<Slave>, i: nat, masterDelay: Option<int>)
    requires Bus(slaves, up) && Final(slaves, done, masterDelay) && i < |slaves| && TakesPart(slaves[i])
    requires ParentOf(slaves, i) >= 0 && -LIMIT <= done[ParentOf(slaves, i)].pdelay < LIMIT
    ensures
      var before, link := done[ParentOf(slaves, i)].pdelay, Link(slaves, up, i);
      && 0 <= link == Added(done[i])
      && (done[i].pdelay == before + link <==> before + link < LIMIT)
      && (done[i].pdelay >= before <==> before + link < LIMIT)
  {
    LinkIsAdded(slaves, up, done, i, masterDelay);
    StoredDelay(slaves, up, done, i, masterDelay);
    WrapsOnce(done[ParentOf(slaves, i)].pdelay, Link(slaves, up, i));
  }

  lemma {:induction false} FinalDelays(
      slaves: seq<Slave>, up: seq<Port>, done: seq<Slave>, i: nat, masterDelay: Option<int>)
    requires Bus(slaves, up) && Final(slaves, done, masterDelay)
    requires FieldsFit(slaves, masterDelay) && i < |slaves| && TakesPart(slaves[i])
    ensures
      var delay := PathDelay(slaves, up, i, masterDelay);
      && delay >= -LIMIT
      && (Right(slaves, up, done, i, masterDelay) <==> delay < LIMIT)
      && (Grows(slaves, done, i) <==> delay < LIMIT)
    decreases i
  {
    var p := ParentOf(slaves, i);
    if p < 0 {
      StoredBase(slaves, done, i, masterDelay);
    } else {
      StoredDelay(slaves, up, done, i, masterDelay);
      FinalDelays(slaves, up, done, p, masterDelay);
      if PathDelay(slaves, up, p, masterDelay) < LIMIT {
        DelayAlongLink(slaves, up, done, i, masterDelay);
      }
    }
  }

  /** Main theorem: the stored number is the sum of the links for a slave and all slaves in front of
      it, and never gets smaller on the way, if and only if that sum fits a signed 32-bit number. */
  lemma DelayGrowsDownTheTree(slaves: seq<Slave>, up: seq<Port>, i: nat, masterDelay: Option<int>)
    requires Bus(slaves, up) && FieldsFit(slaves, masterDelay) && i < |slaves| && TakesPart(slaves[i])
    ensures
      var done, delay := AfterRounds(slaves, |slaves|, masterDelay), PathDelay(slaves, up, i, masterDelay);
      && delay >= -LIMIT
      && (Right(slaves, up, done, i, masterDelay) <==> delay < LIMIT)
      && (Grows(slaves, done, i) <==> delay < LIMIT)
  {
    BusIsLinked(slaves, up);
    RoundsAreFinal(slaves, masterDelay);
    FinalDelays(slaves, up, AfterRounds(slaves, |slaves|, masterDelay), i, masterDelay);
  }

  /** A slave with two children, the first of which takes up almost all of the 32-bit range. */
  predicate LongBus(s: seq<Slave>) {
    && |s| == 3 && TakesPart(s[0]) && TakesPart(s[1]) && TakesPart(s[2])
    && s[0].parent == -1 && s[1].parent == 0 && s[2].parent == 0
    && s[0].activePorts == {0, 3, 1} && s[1].activePorts == {0} && s[2].activePorts == {0}
    && s[0].times == [0, LIMIT - 2, 0, LIMIT - 3] && s[1].times == [0, 0, 0, 0] && s[2].times == [0, 0, 0, 0]
    && s[0].pdelay == 0 && s[1].pdelay == 0 && s[2].pdelay == 0
  }

  /** Two slaves that are wired to the first one. */
  lemma Family(s: seq<Slave>)
    requires |s| == 3 && TakesPart(s[0]) && TakesPart(s[1]) && TakesPart(s[2])
    requires s[0].parent == -1 && s[1].parent == 0 && s[2].parent == 0
    ensures ParentOf(s, 0) < 0 && ParentOf(s, 1) == 0 && ParentOf(s, 2) == 0 && Rooted(s)
    ensures ChildrenBefore(s, 0, 2) == 1 && ChildrenBefore(s, 0, 3) == 2
    ensures ChildrenBefore(s, 1, 3) == 0 && ChildrenBefore(s, 2, 3) == 0
  {
    assert ParentOf(s, 0) < 0 && ParentOf(s, 1) == 0 && ParentOf(s, 2) == 0;
    assert ChildrenBefore(s, 0, 1) == 0;
    assert ChildrenBefore(s, 0, 2) == 1;
    assert ChildrenBefore(s, 1, 1) == 0;
    assert ChildrenBefore(s, 1, 2) == 0;
    assert ChildrenBefore(s, 2, 1) == 0;
    assert ChildrenBefore(s, 2, 2) == 0;
  }

  lemma LongPaths()
    ensures Path({0, 3, 1}, 0) == [0, 3, 1] && Path({0}, 0) == [0]
  {
    SelectedThree(3, 1, 2, {0, 3, 1});
    SelectedThree(3, 1, 2, {0});
  }

  lemma LatchedAlone(s: Slave)
    requires s.activePorts == {0}
    ensures LatchedFrom(s, 0) && |s.activePorts| == 1
  {
    LongPaths();
  }

  /** Times that rise along a path of three ports. */
  lemma LatchedOnThree(s: Slave, up: Port, path: seq<Port>)
    requires up in s.activePorts && path == Path(s.activePorts, up) && |path| == 3
    requires Time(s, path[0]) < Time(s, path[1]) < Time(s, path[2]) < Time(s, path[0]) + LIMIT
    ensures LatchedFrom(s, up) && |s.activePorts| == 3
  {
    PathIsPermutation(s.activePorts, up);
  }

  lemma LatchedLong(s: Slave)
    requires s.activePorts == {0, 3, 1} && s.times == [0, LIMIT - 2, 0, LIMIT - 3]
    ensures LatchedFrom(s, 0) && |s.activePorts| == 3
  {
    LongPaths();
    LatchedOnThree(s, 0, [0, 3, 1]);
  }

  lemma LongBusIsBus(s: seq<Slave>, up: seq<Port>)
    requires LongBus(s) && up == [0, 0, 0]
    ensures Bus(s, up)
  {
    Family(s);
    LatchedLong(s[0]);
    LatchedAlone(s[1]);
    LatchedAlone(s[2]);
  }

  lemma LongLink(s: seq<Slave>, up: seq<Port>)
    requires LongBus(s) && up == [0, 0, 0]
    ensures Link(s, up, 2) == LIMIT + 7
  {
    Family(s);
    LongPaths();
  }

  lemma FirstLinkWraps(slaves: seq<Slave>, up: seq<Port>, done: seq<Slave>, i: nat)
    requires Bus(slaves, up) && Final(slaves, done, None) && i < |slaves| && TakesPart(slaves[i])
    requires ParentOf(slaves, i) >= 0 && ParentOf(slaves, ParentOf(slaves, i)) < 0
    requires slaves[ParentOf(slaves, i)].pdelay == 0 && Link(slaves, up, i) >= LIMIT
    ensures PathDelay(slaves, up, i, None) == Link(slaves, up, i)
    ensures done[i].pdelay < done[ParentOf(slaves, i)].pdelay
  {
    StoredBase(slaves, done, ParentOf(slaves, i), None);
    DelayAlongLink(slaves, up, done, i, None);
  }

  /** On that bus the delay of the second child wraps around: it is stored as less than the delay of
      the slave in front of it. */
  lemma ADelayThatWraps(slaves: seq<Slave>, up: seq<Port>)
    requires LongBus(slaves) && up == [0, 0, 0]
    ensures Bus(slaves, up) && FieldsFit(slaves, None) && PathDelay(slaves, up, 2, None) == LIMIT + 7
    ensures AfterRounds(slaves, |slaves|, None)[2].pdelay < AfterRounds(slaves, |slaves|, None)[0].pdelay
  {
    LongBusIsBus(slaves, up);
    Family(slaves);
    LongLink(slaves, up);
    BusIsLinked(slaves, up);
    RoundsAreFinal(slaves, None);
    FirstLinkWraps(slaves, up, AfterRounds(slaves, |slaves|, None), 2);
  }
}
