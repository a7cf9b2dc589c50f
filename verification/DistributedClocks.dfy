/** Distributed clocks: which port of its parent every slave is wired to, and the
    propagation delays that follow from the latched receive times. */
module DistributedClocks {
  import opened Options
  import opened Ports
  import opened PortOrder

  /** The latched receive time of each port. */
  type Times = t: seq<int> | |t| == 4 witness [0, 0, 0, 0]

  /** The clock-related fields of one slave.  `useDc` and `dcSupported` say whether the slave
      takes part. */
  datatype Slave = Slave(
    useDc: bool, dcSupported: bool, activePorts: set<Port>, times: Times, parent: int,
    entryPort: Port, availablePorts: set<Port>, portOnParent: Port,
    delayChilds: int, delayWithChilds: int, delaySlave: int, delayParentPrevious: int, pdelay: int)

  /** Propagation through the slave itself, in nanoseconds. */
  const T_DIFF := 20

  // ---------------------------------------------------------------------------------------
  // 32-bit arithmetic
  // ---------------------------------------------------------------------------------------

  /** The 32-bit two's complement value of a number. */
  function Int32(x: int): int {
    (x + 0x8000_0000) % 0x1_0000_0000 - 0x8000_0000
  }

  function Abs(x: int): int {
    if x < 0 then -x else x
  }

  /** Halving rounds towards zero. */
  function Half(x: int): int {
    if x < 0 then -(-x / 2) else x / 2
  }

  lemma Int32Fits(x: int)
    requires -0x8000_0000 <= x < 0x8000_0000
    ensures Int32(x) == x
  {
  }

  /** The number of 32 bits that is the same modulo 2 to the 32. */
  lemma Int32Wraps(x: int)
    ensures -0x8000_0000 <= Int32(x) < 0x8000_0000
    ensures (x - Int32(x)) % 0x1_0000_0000 == 0
  {
  }

  lemma AbsIsDistance(x: int)
    ensures Abs(x) >= 0 && (Abs(x) == x || Abs(x) == -x)
  {
  }

  lemma HalfIsTowardsZero(x: int)
    ensures x == 2 * Half(x) || x == 2 * Half(x) + if x > 0 then 1 else -1
  {
  }

  // ---------------------------------------------------------------------------------------
  // Specification of the configuration loop
  // ---------------------------------------------------------------------------------------

  predicate TakesPart(s: Slave) {
    s.useDc && s.dcSupported
  }

  /** The entry port found by looking at the first `n` ports, -1 while there is none. */
  function EntryAmong(active: set<Port>, times: Times, n: nat): (e: int)
    requires n <= 4
    ensures -1 <= e < n
  {
    if n == 0 then -1
    else
      var e := EntryAmong(active, times, n - 1);
      if (n - 1) as Port in active && (e == -1 || times[n - 1] < times[e]) then n - 1 else e
  }

  /** The entry port of a slave that has an active port. */
  function Entry(s: Slave): Port {
    var e := EntryAmong(s.activePorts, s.times, 4);
    if e < 0 then 0 else e as Port
  }

  function Time(s: Slave, port: Port): int {
    s.times[port as int]
  }

  /** The nearest ancestor that takes part, starting the search with `p` itself; negative if
      there is none. */
  function ClockParent(slaves: seq<Slave>, p: int): (q: int)
    ensures q <= p || q < 0
    ensures q >= 0 ==> q < |slaves| && TakesPart(slaves[q])
    decreases p
  {
    if p < 0 || p >= |slaves| then -1
    else if TakesPart(slaves[p]) then p
    else if slaves[p].parent < p then ClockParent(slaves, slaves[p].parent)
    else -1
  }

  /** The `n`-fold parent of `p`. */
  function Up(slaves: seq<Slave>, p: int, n: nat): int
    decreases n
  {
    if n == 0 || p < 0 || p >= |slaves| then p else Up(slaves, slaves[p].parent, n - 1)
  }

  /** `p` is a slave that takes part. */
  predicate Counts(slaves: seq<Slave>, p: int) {
    0 <= p < |slaves| && TakesPart(slaves[p])
  }

  /** The clock parent is the first ancestor that takes part, if any does. */
  lemma {:induction false} ClockParentIsNearest(slaves: seq<Slave>, p: int) returns (n: nat)
    requires Rooted(slaves) && p < |slaves|
    ensures
      var q := ClockParent(slaves, p);
      if q < 0 then forall m: nat :: !Counts(slaves, Up(slaves, p, m))
      else Up(slaves, p, n) == q && Counts(slaves, q) && forall m :: 0 <= m < n ==> !Counts(slaves, Up(slaves, p, m))
    decreases p
  {
    if p < 0 || TakesPart(slaves[p]) {
      n := 0;
    } else {
      var above := ClockParentIsNearest(slaves, slaves[p].parent);
      n := above + 1;
      forall m: nat | m == 0 || !Counts(slaves, Up(slaves, slaves[p].parent, m - 1))
        ensures !Counts(slaves, Up(slaves, p, m))
      {
      }
    }
  }

  /** For instance: behind a slave without clocks, the clock parent is the one in front of it. */
  lemma ClockParentBehindOther(slaves: seq<Slave>)
    requires |slaves| == 3 && slaves[0].parent == -1 && slaves[1].parent == 0 && slaves[2].parent == 1
    requires TakesPart(slaves[0]) && !TakesPart(slaves[1]) && TakesPart(slaves[2])
    ensures ClockParent(slaves, slaves[2].parent) == 0
  {
    assert ClockParent(slaves, 0) == 0;
  }

  /** Every slave is listed behind its parent. */
  predicate Rooted(slaves: seq<Slave>) {
    forall i :: 0 <= i < |slaves| ==> slaves[i].parent < i
  }

  /** Every slave that takes part has a link, or it could not have answered. */
  predicate Linked(slaves: seq<Slave>) {
    forall i :: 0 <= i < |slaves| && TakesPart(slaves[i]) ==> slaves[i].activePorts != {}
  }

  /** The slave with its entry port and the delay through everything behind it. */
  function Entered(s: Slave): Slave {
    var e := Entry(s);
    s.(entryPort := e,
       availablePorts := s.activePorts - {e},
       delayChilds := Int32(Time(s, PreviousActivePort(s.activePorts, e)) - Time(s, e)))
  }

  /** The slave with the delays relative to its parent, `q` being the port it is wired to. */
  function Delayed(s: Slave, par: Slave, q: Port): Slave {
    var prev := PreviousActivePort(par.activePorts, q);
    var withChilds := Abs(Int32(Time(par, q) - Time(par, prev)));
    var delay := Abs(Half(Int32(withChilds - s.delayChilds + T_DIFF)));
    var before := Int32(Time(par, prev) - Time(par, par.entryPort));
    s.(portOnParent := q,
       delayWithChilds := withChilds,
       delaySlave := delay,
       delayParentPrevious := before,
       pdelay :=
         if s.entryPort == 0 then Int32(par.pdelay + before + delay)
         else Int32(par.pdelay + Abs(Int32(Time(s, s.entryPort) - Time(s, 0) + T_DIFF)) / 2))
  }

  /** Without wraps, and with times in the order of the frame: half of the time towards the slave and
      back, less the time behind it, and 20 nanoseconds more, is added behind the time in front. */
  lemma DelayedWithoutWrap(s: Slave, par: Slave, q: Port, prev: Port, entry: Port)
    requires prev == PreviousActivePort(par.activePorts, q) && entry == par.entryPort && s.entryPort == 0
    requires 0 <= Time(par, entry) <= Time(par, prev) <= Time(par, q) < 0x1000_0000
    requires 0 <= s.delayChilds <= Time(par, q) - Time(par, prev) && 0 <= par.pdelay < 0x1000_0000
    ensures
      var d := Delayed(s, par, q);
      && d.delayWithChilds == Time(par, q) - Time(par, prev)
      && d.delaySlave == (Time(par, q) - Time(par, prev) - s.delayChilds + 20) / 2
      && d.delayParentPrevious == Time(par, prev) - Time(par, entry)
      && d.pdelay == par.pdelay + d.delayParentPrevious + d.delaySlave && d.portOnParent == q
  {
  }

  /** For a slave that is wired the other way round it is half of the time from port 0 to its entry. */
  lemma DelayedBackwards(s: Slave, par: Slave, q: Port)
    requires s.entryPort != 0 && 0 <= par.pdelay < 0x1000_0000
    requires 0 <= Time(s, 0) <= Time(s, s.entryPort) < 0x1000_0000
    ensures Delayed(s, par, q).pdelay == par.pdelay + (Time(s, s.entryPort) - Time(s, 0) + 20) / 2
  {
  }

  /** A slave that does not take part. */
  function Skipped(s: Slave): Slave {
    s.(availablePorts := s.activePorts, useDc := false, times := [0, 0, 0, 0])
  }

  /** One round of the loop: configure slave `i`.  `masterDelay` is the runtime from the
      master to the first slave, if the master is the reference clock. */
  function Configured(slaves: seq<Slave>, i: nat, masterDelay: Option<int>): (r: seq<Slave>)
    requires i < |slaves|
    ensures |r| == |slaves|
  {
    var s := Entered(slaves[i]);
    var p := ClockParent(slaves, slaves[i].parent);
    if !TakesPart(slaves[i]) then slaves[i := Skipped(slaves[i])]
    else if p < 0 then slaves[i := if masterDelay.Some? then s.(pdelay := masterDelay.value) else s]
    else
      var par := slaves[p];
      var q := NextAvailablePort(par.availablePorts, par.entryPort);
      slaves[i := Delayed(s, par, q)][p := par.(availablePorts := par.availablePorts - {q})]
  }

  /** The slaves after the first `n` rounds. */
  function AfterRounds(slaves: seq<Slave>, n: nat, masterDelay: Option<int>): (r: seq<Slave>)
    requires n <= |slaves|
    ensures |r| == |slaves|
  {
    if n == 0 then slaves else Configured(AfterRounds(slaves, n - 1, masterDelay), n - 1, masterDelay)
  }

  /** The entry port is the active port that latched the smallest time, the lowest one of
      several. */
  lemma EntryIsEarliest(s: Slave)
    requires s.activePorts != {}
    ensures EntryAmong(s.activePorts, s.times, 4) >= 0
    ensures Entry(s) in s.activePorts
    ensures forall q :: q in s.activePorts ==>
      Time(s, Entry(s)) <= Time(s, q) && (q < Entry(s) ==> Time(s, Entry(s)) < Time(s, q))
  {
    EarliestAmong(s.activePorts, s.times, 4);
    var p :| p in s.activePorts;
    assert (p as int) < 4;
  }

  /** There is no entry port exactly when no port is active. */
  lemma NoEntryWithoutPorts(s: Slave)
    ensures EntryAmong(s.activePorts, s.times, 4) == -1 <==> s.activePorts == {}
  {
    EarliestAmong(s.activePorts, s.times, 4);
    if p :| p in s.activePorts {
      assert (p as int) < 4;
    }
  }

  lemma {:induction false} EarliestAmong(active: set<Port>, times: Times, n: nat)
    requires n <= 4
    ensures EntryAmong(active, times, n) >= 0 ==> EntryAmong(active, times, n) as Port in active
    ensures var e := EntryAmong(active, times, n);
      forall q :: q in active && (q as int) < n ==>
        e >= 0 && times[e] <= times[q as int] && ((q as int) < e ==> times[e] < times[q as int])
  {
    if n > 0 {
      EarliestAmong(active, times, n - 1);
    }
  }

  // ---------------------------------------------------------------------------------------
  // The loop of the source
  // ---------------------------------------------------------------------------------------

  method FindEntryPort(active: set<Port>, times: Times) returns (entryPort: int)
    ensures entryPort == EntryAmong(active, times, 4)
  {
    entryPort := -1;
    for i := 0 to 4
      invariant entryPort == EntryAmong(active, times, i)
    {
      if i as Port in active {
        if entryPort == -1 || times[i] < times[entryPort] {
          entryPort := i;
        }
      }
    }
  }

  method FindClockParent(slaves: array<Slave>, slave: nat) returns (parent: int)
    requires slave < slaves.Length && Rooted(slaves[..])
    ensures parent < slave
    ensures var p := ClockParent(slaves[..], slaves[slave].parent); if p < 0 then parent < 0 else parent == p
  {
    parent := slaves[slave].parent;
    while parent >= 0
      invariant parent < slave
      invariant ClockParent(slaves[..], parent) == ClockParent(slaves[..], slaves[slave].parent)
      decreases parent
    {
      if TakesPart(slaves[parent]) {
        break;
      }
      parent := slaves[parent].parent;
    }
  }

  /** Find the entry port and the delay through everything behind the slave. */
  method EnterSlave(was: Slave) returns (s: Slave)
    requires was.activePorts != {}
    ensures s == Entered(was)
  {
    EntryIsEarliest(was);
    var entryPort := FindEntryPort(was.activePorts, was.times);
    var port := entryPort as Port;
    var last := GetPreviousActivePort(was.activePorts, port);
    s := was.(entryPort := port, availablePorts := was.activePorts - {port});
    s := s.(delayChilds := Int32(s.times[last as int] - s.times[entryPort]));
  }

  /** Compute the delays of a slave that is wired to port `q` of its parent. */
  method MeasureDelays(was: Slave, par: Slave, q: Port) returns (s: Slave)
    ensures s == Delayed(was, par, q)
  {
    var prev := GetPreviousActivePort(par.activePorts, q);
    var withChilds := Abs(Int32(par.times[q as int] - par.times[prev as int]));
    var delay := Abs(Half(Int32(withChilds - was.delayChilds + T_DIFF)));
    var before := Int32(par.times[prev as int] - par.times[par.entryPort as int]);
    s := was.(portOnParent := q, delayWithChilds := withChilds, delaySlave := delay, delayParentPrevious := before);
    if s.entryPort == 0 {
      s := s.(pdelay := Int32(par.pdelay + before + delay));
    } else {
      s := s.(pdelay := Int32(par.pdelay + Abs(Int32(s.times[s.entryPort as int] - s.times[0] + T_DIFF)) / 2));
    }
  }

  method ConfigureSlave(slaves: array<Slave>, slave: nat, masterDelay: Option<int>)
    requires slave < slaves.Length && Rooted(slaves[..])
    requires TakesPart(slaves[slave]) ==> slaves[slave].activePorts != {}
    modifies slaves
    ensures slaves[..] == Configured(old(slaves[..]), slave, masterDelay)
    ensures forall i :: 0 <= i < slaves.Length && i != slave ==>
      slaves[i].(availablePorts := old(slaves[i].availablePorts)) == old(slaves[i])
    ensures !TakesPart(old(slaves[slave])) ==>
      var was := old(slaves[slave]);
      slaves[slave] == was.(availablePorts := was.activePorts, useDc := false, times := [0, 0, 0, 0])
  {
    var s := slaves[slave];
    if !s.useDc || !s.dcSupported {
      slaves[slave] := s.(availablePorts := s.activePorts, useDc := false, times := [0, 0, 0, 0]);
      return;
    }
    var parent := FindClockParent(slaves, slave);
    s := EnterSlave(s);
    if parent >= 0 {
      var par := slaves[parent];
      var q, left := GetAndConsumeNextAvailablePort(par.availablePorts, par.entryPort);
      s := MeasureDelays(s, par, q);
      slaves[slave] := s;
      slaves[parent] := par.(availablePorts := left);
    } else {
      if masterDelay.Some? {
        s := s.(pdelay := masterDelay.value);
      }
      slaves[slave] := s;
    }
  }

  method DcConfig(slaves: array<Slave>, masterDelay: Option<int>)
    requires Rooted(slaves[..]) && Linked(slaves[..])
    modifies slaves
    ensures slaves[..] == AfterRounds(old(slaves[..]), slaves.Length, masterDelay)
  {
    for slave := 0 to slaves.Length
      invariant slaves[..] == AfterRounds(old(slaves[..]), slave, masterDelay)
      invariant SameBus(old(slaves[..]), slaves[..])
    {
      ConfigureSlave(slaves, slave, masterDelay);
      RoundKeepsBus(old(slaves[..]), slave, masterDelay);
    }
  }

  /** Configuring changes neither the wiring nor, for slaves that take part, the ports and the
      latched times. */
  predicate SameBus(was: seq<Slave>, cur: seq<Slave>) {
    |was| == |cur| && forall j :: 0 <= j < |was| ==> SameWiring(was[j], cur[j])
  }

  predicate SameWiring(was: Slave, cur: Slave) {
    && cur.parent == was.parent
    && TakesPart(cur) == TakesPart(was)
    && (TakesPart(was) ==> cur.times == was.times && cur.activePorts == was.activePorts)
  }

  lemma RoundKeepsBus(slaves: seq<Slave>, n: nat, masterDelay: Option<int>)
    requires n < |slaves| && SameBus(slaves, AfterRounds(slaves, n, masterDelay))
    ensures SameBus(slaves, AfterRounds(slaves, n + 1, masterDelay))
  {
  }
}
