/** Giving every process data sync manager of every slave a window in logical memory and a slice
    of the process image. */
module ProcessDataMapping {
  import opened Bytes

  const SM1_STATUS := 0x80D
  const FULL_BIT := 3
  const GROUP_WINDOW := 0x10000
  const STATE_AREAS := 0x9000000
  const STATE_AREA := 1000

  /** A sync manager: its buffer in the memory of the slave, and its direction. */
  datatype SyncManager = SyncManager(adr: nat, len: nat, output: bool)

  datatype Kind = Unused | Inputs | Outputs

  datatype Fmmu = Fmmu(
    log: nat, logLen: nat, logBitStart: nat, logBitStop: nat, phys: nat, physBitStart: nat, kind: Kind, active: bool)

  /** A slice of the process image. */
  datatype Area = Area(pos: nat, len: nat)

  datatype Slave = Slave(
    group: int, mailbox: bool, sms: seq<SyncManager>, fmmus: seq<Fmmu>,
    pdout: Area, pdin: Area, stateBit: nat, hasState: bool)

  function Max(a: nat, b: nat): (m: nat)
    ensures m >= a && m >= b && (m == a || m == b)
  {
    if a > b then a else b
  }

  // ---------------------------------------------------------------------------------------
  // The sync managers of a slave
  // ---------------------------------------------------------------------------------------

  /** The bytes of the first `n` sync managers that have one direction. */
  function Total(sms: seq<SyncManager>, n: nat, output: bool): nat
    requires n <= |sms|
  {
    if n == 0 then 0 else Total(sms, n - 1, output) + if sms[n - 1].output == output then sms[n - 1].len else 0
  }

  /** How many of the first `n` sync managers have one direction. */
  function Count(sms: seq<SyncManager>, n: nat, output: bool): nat
    requires n <= |sms|
  {
    if n == 0 then 0 else Count(sms, n - 1, output) + if sms[n - 1].output == output then 1 else 0
  }

  /** Where the sync managers that are not mailboxes start. */
  function First(s: Slave): (k: nat)
    ensures k <= |s.sms|
  {
    Min(if s.mailbox then 2 else 0, |s.sms|)
  }

  /** The sync managers with process data among those in front of `k`. */
  function ProcessUpTo(s: Slave, k: nat): (ps: seq<SyncManager>)
    requires k <= |s.sms|
    ensures |ps| <= k && forall j :: 0 <= j < |ps| ==> ps[j].len > 0
  {
    if k <= First(s) then []
    else if s.sms[k - 1].len > 0 then ProcessUpTo(s, k - 1) + [s.sms[k - 1]]
    else ProcessUpTo(s, k - 1)
  }

  /** The sync managers that get a window. */
  function Process(s: Slave): (ps: seq<SyncManager>)
    ensures forall j :: 0 <= j < |ps| ==> ps[j].len > 0
  {
    ProcessUpTo(s, |s.sms|)
  }

  /** Sync managers without the empty ones. */
  function Nonempty(sms: seq<SyncManager>): seq<SyncManager> {
    if sms == [] then [] else (if sms[0].len > 0 then [sms[0]] else []) + Nonempty(sms[1..])
  }

  lemma {:induction false} NonemptyMembers(sms: seq<SyncManager>, x: SyncManager)
    ensures x in Nonempty(sms) <==> x in sms && x.len > 0
  {
    if sms != [] {
      NonemptyMembers(sms[1..], x);
      assert sms == [sms[0]] + sms[1..];
    }
  }

  lemma {:induction false} NonemptyConcat(a: seq<SyncManager>, b: seq<SyncManager>)
    ensures Nonempty(a + b) == Nonempty(a) + Nonempty(b)
  {
    if a == [] {
      assert a + b == b;
    } else {
      NonemptyConcat(a[1..], b);
      assert (a + b)[0] == a[0] && (a + b)[1..] == a[1..] + b;
      Associates(if a[0].len > 0 then [a[0]] else [], Nonempty(a[1..]), Nonempty(b));
    }
  }

  lemma OneNonempty(sm: SyncManager)
    ensures Nonempty([sm]) == if sm.len > 0 then [sm] else []
  {
    assert [sm][1..] == [] && Nonempty([]) == [];
  }

  /** Every sync manager that is not empty comes right behind those in front of it. */
  lemma NonemptyAt(sms: seq<SyncManager>, k: nat)
    requires k < |sms| && sms[k].len > 0
    ensures |Nonempty(sms[..k])| < |Nonempty(sms)| && Nonempty(sms)[|Nonempty(sms[..k])|] == sms[k]
  {
    NonemptyConcat(sms[..k], sms[k..]);
    assert sms == sms[..k] + sms[k..];
  }

  lemma {:induction false} UpToIsNonempty(s: Slave, from: nat, k: nat, sms: seq<SyncManager>)
    requires from <= k <= |s.sms| && from == First(s) && sms == s.sms[from..k]
    ensures ProcessUpTo(s, k) == Nonempty(sms)
    decreases k
  {
    if k > from {
      var front, sm := s.sms[from..k - 1], s.sms[k - 1];
      UpToIsNonempty(s, from, k - 1, front);
      NonemptyConcat(front, [sm]);
      OneNonempty(sm);
      assert sms == front + [sm];
    } else {
      assert sms == [];
    }
  }

  /** What gets a window: without a mailbox every sync manager that is not empty, with a mailbox
      every one but the first two. */
  lemma ProcessData(s: Slave)
    ensures !s.mailbox ==> Process(s) == Nonempty(s.sms)
    ensures s.mailbox && |s.sms| >= 2 ==> Process(s) == Nonempty(s.sms[2..])
    ensures s.mailbox && |s.sms| < 2 ==> Process(s) == []
  {
    UpToIsNonempty(s, First(s), |s.sms|, s.sms[First(s)..]);
    assert s.sms[0..|s.sms|] == s.sms && s.sms[|s.sms|..] == [];
    assert |s.sms| >= 2 ==> s.sms[2..|s.sms|] == s.sms[2..];
  }

  lemma {:induction false} ProcessPrefix(s: Slave, k: nat, n: nat)
    requires k <= n <= |s.sms|
    ensures |ProcessUpTo(s, k)| <= |ProcessUpTo(s, n)|
    ensures ProcessUpTo(s, n)[..|ProcessUpTo(s, k)|] == ProcessUpTo(s, k)
    decreases n
  {
    if k < n {
      ProcessPrefix(s, k, n - 1);
    }
  }

  /** A sync manager that is not empty comes next, an empty one is passed over. */
  lemma ProcessNext(s: Slave, k: nat)
    requires First(s) <= k < |s.sms|
    ensures
      var j := |ProcessUpTo(s, k)|;
      && |ProcessUpTo(s, k + 1)| == (if s.sms[k].len > 0 then j + 1 else j) <= |Process(s)|
      && (s.sms[k].len > 0 ==> Process(s)[j] == s.sms[k])
  {
    ProcessPrefix(s, k + 1, |s.sms|);
    var j := |ProcessUpTo(s, k)|;
    if s.sms[k].len > 0 {
      assert Process(s)[j] == Process(s)[..j + 1][j] == ProcessUpTo(s, k + 1)[j];
    }
  }

  lemma {:induction false} TotalGrows(ps: seq<SyncManager>, j: nat, n: nat, output: bool)
    requires j <= n <= |ps|
    ensures Total(ps, j, output) <= Total(ps, n, output) && Count(ps, j, output) <= Count(ps, n, output)
    decreases n
  {
    if j < n {
      TotalGrows(ps, j, n - 1, output);
    }
  }

  // ---------------------------------------------------------------------------------------
  // One slave
  // ---------------------------------------------------------------------------------------

  /** Where the window of sync manager `j` starts, when the outputs start at `logOut` and the
      inputs at `logIn`. */
  function Start(ps: seq<SyncManager>, j: nat, logOut: nat, logIn: nat): nat
    requires j < |ps|
  {
    (if ps[j].output then logOut else logIn) + Total(ps, j, ps[j].output)
  }

  function Window(f: Fmmu, sm: SyncManager, log: nat): Fmmu {
    f.(log := log, logLen := sm.len, logBitStop := 7, phys := sm.adr,
       kind := if sm.output then Outputs else Inputs, active := true)
  }

  /** The first `n` sync managers get the FMMUs in order, as long as there are any. */
  function MapWindows(fmmus: seq<Fmmu>, ps: seq<SyncManager>, n: nat, logOut: nat, logIn: nat): (r: seq<Fmmu>)
    requires n <= |ps|
    ensures |r| == |fmmus|
    ensures forall k :: n <= k < |fmmus| ==> r[k] == fmmus[k]
  {
    if n == 0 then fmmus
    else
      var before := MapWindows(fmmus, ps, n - 1, logOut, logIn);
      if n - 1 < |fmmus| then before[n - 1 := Window(fmmus[n - 1], ps[n - 1], Start(ps, n - 1, logOut, logIn))]
      else before
  }

  lemma {:induction false} WindowAt(fmmus: seq<Fmmu>, ps: seq<SyncManager>, n: nat, logOut: nat, logIn: nat, j: nat)
    requires j < n <= |ps| && j < |fmmus|
    ensures MapWindows(fmmus, ps, n, logOut, logIn)[j] == Window(fmmus[j], ps[j], Start(ps, j, logOut, logIn))
  {
    if j < n - 1 {
      WindowAt(fmmus, ps, n - 1, logOut, logIn, j);
    }
  }

  /** The FMMU that carries the full bit of the read mailbox. */
  function StateWindow(f: Fmmu, log: nat, bit: nat): Fmmu {
    f.(log := log + bit / 8, logLen := 1, logBitStart := bit % 8, logBitStop := bit % 8,
       phys := SM1_STATUS, physBitStart := FULL_BIT, kind := Inputs, active := true)
  }

  /** A slice grows by the sync managers that are mapped; the first of them says where it is. */
  function Grown(a: Area, pos: nat, mapped: nat): Area {
    if mapped == 0 then a
    else if a.len == 0 then Area(pos, mapped)
    else a.(len := a.len + mapped)
  }

  /** How many of the first `n` sync managers find an FMMU. */
  function Mapped(s: Slave, n: nat): nat {
    Min(n, |s.fmmus|)
  }

  predicate HasStateWindow(s: Slave) {
    s.mailbox && |Process(s)| < |s.fmmus|
  }

  /** Where the next slave starts, in the image and in logical memory; the next free bit of the
      mailbox states; and the working counters expected so far. */
  datatype Cursor = Cursor(
    imageOut: nat, imageIn: nat, logOut: nat, logIn: nat, bits: nat, lrw: nat, lrd: nat, lwr: nat)

  /** A slave with its first `n` sync managers mapped. */
  function MapPrefix(s: Slave, ps: seq<SyncManager>, n: nat, c: Cursor): Slave
    requires n <= |ps|
  {
    s.(
      fmmus := MapWindows(s.fmmus, ps, n, c.logOut, c.logIn),
      pdout := Grown(s.pdout, c.imageOut, Total(ps, Mapped(s, n), true)),
      pdin := Grown(s.pdin, c.imageIn, Total(ps, Mapped(s, n), false)))
  }

  /** A slave of the group as it is mapped at a cursor. */
  function MapSlave(s: Slave, c: Cursor, stateLog: nat): Slave {
    var ps := Process(s);
    var t := MapPrefix(s, ps, |ps|, c);
    if HasStateWindow(s) then
      t.(fmmus := t.fmmus[|ps| := StateWindow(t.fmmus[|ps|], stateLog, c.bits)], stateBit := c.bits)
    else if s.mailbox then t.(hasState := false)
    else t
  }

  /** The bytes of one direction of a slave, and the bytes of them that are mapped. */
  function SlaveTotal(s: Slave, output: bool): nat {
    Total(Process(s), |Process(s)|, output)
  }

  function SlaveMapped(s: Slave, output: bool): nat {
    Total(Process(s), Mapped(s, |Process(s)|), output)
  }

  /** How many sync managers of one direction are mapped. */
  function SlaveCount(s: Slave, output: bool): nat {
    Count(Process(s), Mapped(s, |Process(s)|), output)
  }

  /** A slave with a mailbox needs, and is mapped to, what it would be without its mailbox and the two
      sync managers of it. */
  lemma MailboxIsLeftOut(s: Slave, plain: Slave, c: Cursor, stateLog: nat)
    requires s.mailbox && |s.sms| >= 2 && plain == s.(mailbox := false, sms := s.sms[2..])
    ensures Process(s) == Process(plain)
    ensures SlaveTotal(s, true) == SlaveTotal(plain, true) && SlaveTotal(s, false) == SlaveTotal(plain, false)
    ensures
      var t, u := MapSlave(s, c, stateLog), MapSlave(plain, c, stateLog);
      && t.pdout == u.pdout && t.pdin == u.pdin
      && forall k :: 0 <= k < |s.fmmus| && k < |Process(plain)| ==> t.fmmus[k] == u.fmmus[k]
  {
    ProcessData(s);
    ProcessData(plain);
  }

  /** Two buffers have no byte in common. */
  predicate Disjoint(a: SyncManager, b: SyncManager) {
    a.adr + a.len <= b.adr || b.adr + b.len <= a.adr
  }

  /** No window of process data lies on the buffers of a mailbox. */
  lemma MailboxIsNotMapped(s: Slave, c: Cursor, stateLog: nat, k: nat)
    requires s.mailbox && |s.sms| >= 2 && k < |s.fmmus| && k < |Process(s)|
    requires forall i :: 2 <= i < |s.sms| ==> Disjoint(s.sms[i], s.sms[0]) && Disjoint(s.sms[i], s.sms[1])
    ensures
      var f := MapSlave(s, c, stateLog).fmmus[k];
      var buffer := SyncManager(f.phys, f.logLen, true);
      Disjoint(buffer, s.sms[0]) && Disjoint(buffer, s.sms[1])
  {
    ProcessData(s);
    WindowAt(s.fmmus, Process(s), |Process(s)|, c.logOut, c.logIn, k);
    var sm := Process(s)[k];
    NonemptyMembers(s.sms[2..], sm);
    var i :| 0 <= i < |s.sms[2..]| && s.sms[2..][i] == sm;
    assert s.sms[i + 2] == sm;
  }

  /** What a slave adds to the working counter of a command that reads and writes: 2 for any
      outputs and 1 for any inputs. */
  function LrwCount(s: Slave): nat {
    (if SlaveCount(s, true) > 0 then 2 else 0) + (if SlaveCount(s, false) > 0 then 1 else 0)
  }

  /** Behind a slave whose inputs and outputs share their logical addresses.  Logical memory
      goes on behind the longer of the two, the image behind the longer of what was mapped. */
  function BehindShared(s: Slave, c: Cursor): Cursor {
    var out, inn := Grown(s.pdout, c.imageOut, SlaveMapped(s, true)), Grown(s.pdin, c.imageIn, SlaveMapped(s, false));
    var log := Max(c.logIn + SlaveTotal(s, false), c.logOut + SlaveTotal(s, true));
    Cursor(
      c.imageOut + Max(inn.len, out.len), c.imageIn + Max(inn.len, out.len), log, log,
      c.bits + if HasStateWindow(s) then 1 else 0, c.lrw + LrwCount(s), c.lrd, c.lwr)
  }

  /** Behind a slave whose inputs and outputs have addresses of their own. */
  function BehindApart(s: Slave, c: Cursor): Cursor {
    var outs, ins := SlaveCount(s, true), SlaveCount(s, false);
    Cursor(
      c.imageOut + SlaveTotal(s, true), c.imageIn + SlaveTotal(s, false),
      c.logOut + SlaveTotal(s, true), c.logIn + SlaveTotal(s, false),
      c.bits + if HasStateWindow(s) then 1 else 0, c.lrw + ins + 2 * outs, c.lrd + ins, c.lwr + outs)
  }

  function Behind(s: Slave, c: Cursor, shared: bool): Cursor {
    if shared then BehindShared(s, c) else BehindApart(s, c)
  }

  // ---------------------------------------------------------------------------------------
  // All slaves
  // ---------------------------------------------------------------------------------------

  /** The cursor in front of slave `i`. */
  function CursorAt(slaves: seq<Slave>, group: nat, c: Cursor, shared: bool, i: nat): Cursor
    requires i <= |slaves|
  {
    if i == 0 then c
    else
      var before := CursorAt(slaves, group, c, shared, i - 1);
      if slaves[i - 1].group == group then Behind(slaves[i - 1], before, shared) else before
  }

  /** A slave after the mapping: those of the group are mapped, the others stay as they are. */
  function MapIfMember(s: Slave, group: nat, c: Cursor, stateLog: nat): Slave {
    if s.group == group then MapSlave(s, c, stateLog) else s
  }

  /** What the first `n` slaves of a group need in one direction. */
  function GroupTotal(slaves: seq<Slave>, group: nat, output: bool, n: nat): nat
    requires n <= |slaves|
  {
    if n == 0 then 0
    else
      GroupTotal(slaves, group, output, n - 1)
      + if slaves[n - 1].group == group then SlaveTotal(slaves[n - 1], output) else 0
  }

  /** What they need when each shares its addresses between both directions. */
  function GroupShared(slaves: seq<Slave>, group: nat, n: nat): nat
    requires n <= |slaves|
  {
    if n == 0 then 0
    else
      var s := slaves[n - 1];
      GroupShared(slaves, group, n - 1) + if s.group == group then Max(SlaveTotal(s, true), SlaveTotal(s, false)) else 0
  }

  /** Where a group starts, with `pdout` bytes of outputs in front of its inputs. */
  function Origin(log: nat, pdout: nat, shared: bool): Cursor {
    Cursor(0, pdout, log, if shared then log else log + pdout, 0, 0, 0, 0)
  }

  /** The part of a process data group that the mapping sets. */
  class Group {
    const group: nat
    const log: nat
    const stateLog: nat
    var logLen: nat
    var pdoutLen: nat
    var pdinLen: nat
    var lrwLen: nat
    var expectedLrw: nat
    var expectedLrd: nat
    var expectedLwr: nat
    var stateLen: nat
    var expectedState: nat
    var useLrw: bool
    var overlapping: bool
    var skip: bool

    /** Every group has logical memory of its own, and an area for mailbox states. */
    constructor (i: nat)
      ensures group == i && log == 0x10000 * (i + 1) && stateLog == 0x9000000 + i * 1000
      ensures logLen == 0 && pdoutLen == 0 && pdinLen == 0 && stateLen == 0 && expectedState == 0
      ensures useLrw && overlapping && !skip
    {
      group, log, stateLog := i, GROUP_WINDOW * (i + 1), STATE_AREAS + i * STATE_AREA;
      logLen, pdoutLen, pdinLen, lrwLen := 0, 0, 0, 0;
      expectedLrw, expectedLrd, expectedLwr, stateLen, expectedState := 0, 0, 0, 0, 0;
      useLrw, overlapping, skip := true, true, false;
    }
  }

  lemma TotalNext(s: Slave, k: nat, output: bool)
    requires First(s) <= k < |s.sms|
    ensures |ProcessUpTo(s, k)| <= |Process(s)| && |ProcessUpTo(s, k + 1)| <= |Process(s)|
    ensures Total(Process(s), |ProcessUpTo(s, k + 1)|, output)
      == Total(Process(s), |ProcessUpTo(s, k)|, output) + if s.sms[k].output == output then s.sms[k].len else 0
  {
    ProcessNext(s, k);
  }

  /** Adding up the sync managers of a slave, empty ones included. */
  method AddUp(s: Slave) returns (pdout: nat, pdin: nat)
    ensures pdout == SlaveTotal(s, true) && pdin == SlaveTotal(s, false)
  {
    pdout, pdin := 0, 0;
    var k := First(s);
    ghost var ps := Process(s);
    ProcessPrefix(s, k, |s.sms|);
    while k < |s.sms|
      invariant First(s) <= k <= |s.sms| && |ProcessUpTo(s, k)| <= |ps|
      invariant pdout == Total(ps, |ProcessUpTo(s, k)|, true) && pdin == Total(ps, |ProcessUpTo(s, k)|, false)
    {
      TotalNext(s, k, true);
      TotalNext(s, k, false);
      if s.sms[k].output {
        pdout := pdout + s.sms[k].len;
      } else {
        pdin := pdin + s.sms[k].len;
      }
      k := k + 1;
    }
  }

  /** A slice with one more sync manager. */
  function Next(a: Area, pos: nat, len: nat): Area {
    if a.len == 0 then Area(pos, len) else a.(len := a.len + len)
  }

  lemma GrownNext(a: Area, pos: nat, mapped: nat, len: nat)
    requires len > 0
    ensures Grown(a, pos, mapped + len) == Next(Grown(a, pos, mapped), pos + mapped, len)
  {
  }

  /** The variables of the loop over the sync managers of a slave: how many FMMUs it asked for,
      how many sync managers of each direction it mapped, and where it has come to. */
  datatype Progress = Progress(
    slave: Slave, next: nat, outs: nat, ins: nat, imageOut: nat, imageIn: nat, logOut: nat, logIn: nat)

  /** What they are after `n` sync managers. */
  function ProgressAt(s: Slave, ps: seq<SyncManager>, n: nat, c: Cursor): Progress
    requires n <= |ps|
  {
    Progress(
      MapPrefix(s, ps, n, c), n, Count(ps, Mapped(s, n), true), Count(ps, Mapped(s, n), false),
      c.imageOut + Total(ps, n, true), c.imageIn + Total(ps, n, false),
      c.logOut + Total(ps, n, true), c.logIn + Total(ps, n, false))
  }

  /** One round of the loop, for a sync manager that is not empty. */
  function MapOne(p: Progress, sm: SyncManager): Progress {
    var t := p.slave;
    var free := p.next < |t.fmmus|;
    if sm.output then
      var q := p.(next := p.next + 1, imageOut := p.imageOut + sm.len, logOut := p.logOut + sm.len);
      if free then
        q.(outs := p.outs + 1,
           slave := t.(fmmus := t.fmmus[p.next := Window(t.fmmus[p.next], sm, p.logOut)],
                       pdout := Next(t.pdout, p.imageOut, sm.len)))
      else q
    else
      var q := p.(next := p.next + 1, imageIn := p.imageIn + sm.len, logIn := p.logIn + sm.len);
      if free then
        q.(ins := p.ins + 1,
           slave := t.(fmmus := t.fmmus[p.next := Window(t.fmmus[p.next], sm, p.logIn)],
                       pdin := Next(t.pdin, p.imageIn, sm.len)))
      else q
  }

  lemma WindowsStep(s: Slave, ps: seq<SyncManager>, n: nat, c: Cursor)
    requires n < |ps| && n < |s.fmmus|
    ensures
      var before := MapWindows(s.fmmus, ps, n, c.logOut, c.logIn);
      MapWindows(s.fmmus, ps, n + 1, c.logOut, c.logIn)
      == before[n := Window(before[n], ps[n], Start(ps, n, c.logOut, c.logIn))]
  {
  }

  lemma ProgressStep(s: Slave, ps: seq<SyncManager>, n: nat, c: Cursor)
    requires n < |ps| && ps[n].len > 0
    ensures ProgressAt(s, ps, n + 1, c) == MapOne(ProgressAt(s, ps, n, c), ps[n])
  {
    if n < |s.fmmus| {
      WindowsStep(s, ps, n, c);
      GrownNext(s.pdout, c.imageOut, Total(ps, n, true), ps[n].len);
      GrownNext(s.pdin, c.imageIn, Total(ps, n, false), ps[n].len);
    }
  }

  /** What the loop has come to at sync manager `k`. */
  predicate Reached(s: Slave, k: nat, c: Cursor, p: Progress) {
    && First(s) <= k <= |s.sms| && p.next == |ProcessUpTo(s, k)| <= |Process(s)|
    && p == ProgressAt(s, Process(s), p.next, c)
  }

  lemma ProgressStarts(s: Slave, c: Cursor)
    ensures Reached(s, First(s), c, Progress(s, 0, 0, 0, c.imageOut, c.imageIn, c.logOut, c.logIn))
  {
  }

  /** One round of the loop, whatever the sync manager. */
  lemma ProgressNext(s: Slave, k: nat, c: Cursor, p: Progress)
    requires k < |s.sms| && Reached(s, k, c, p)
    ensures Reached(s, k + 1, c, if s.sms[k].len != 0 then MapOne(p, s.sms[k]) else p)
  {
    ProcessNext(s, k);
    if s.sms[k].len != 0 {
      ProgressStep(s, Process(s), p.next, c);
    }
  }

  /** The loop over the sync managers of a slave: the windows and slices, and how many of each
      direction were mapped. */
  method MapSyncManagers(s: Slave, c: Cursor) returns (p: Progress)
    ensures p == ProgressAt(s, Process(s), |Process(s)|, c)
  {
    var k := First(s);
    p := Progress(s, 0, 0, 0, c.imageOut, c.imageIn, c.logOut, c.logIn);
    ProgressStarts(s, c);
    while k < |s.sms|
      invariant Reached(s, k, c, p)
    {
      ProgressNext(s, k, c, p);
      if s.sms[k].len != 0 {
        p := MapOne(p, s.sms[k]);
      }
      k := k + 1;
    }
  }

  /** Mapping one slave of the group. */
  method MapOneSlave(s: Slave, c: Cursor, stateLog: nat) returns (p: Progress, state: bool)
    ensures p == ProgressAt(s, Process(s), |Process(s)|, c).(slave := MapSlave(s, c, stateLog))
    ensures state == HasStateWindow(s)
    ensures p.slave.hasState == (s.hasState && (!s.mailbox || state))
    ensures p.slave.stateBit == (if state then c.bits else s.stateBit) && p.slave.sms == s.sms
    ensures p.slave.group == s.group && p.slave.mailbox == s.mailbox
  {
    p := MapSyncManagers(s, c);
    state := false;
    if s.mailbox {
      var t := p.slave;
      if p.next < |t.fmmus| {
        t := t.(fmmus := t.fmmus[p.next := StateWindow(t.fmmus[p.next], stateLog, c.bits)], stateBit := c.bits);
        state := true;
      } else {
        t := t.(hasState := false);
      }
      p := p.(slave := t);
    }
  }

  /** The variables of the loop over the slaves, behind a slave of the group. */
  function Onward(c: Cursor, p: Progress, state: bool, shared: bool): Cursor {
    var bits := if state then c.bits + 1 else c.bits;
    if shared then
      var image, log := Max(p.slave.pdin.len, p.slave.pdout.len), Max(p.logIn, p.logOut);
      var lrw := c.lrw + (if p.outs > 0 then 2 else 0) + (if p.ins > 0 then 1 else 0);
      Cursor(c.imageOut + image, c.imageIn + image, log, log, bits, lrw, c.lrd, c.lwr)
    else
      Cursor(
        p.imageOut, p.imageIn, p.logOut, p.logIn, bits, c.lrw + p.ins + 2 * p.outs, c.lrd + p.ins, c.lwr + p.outs)
  }

  lemma OnwardIsBehind(s: Slave, c: Cursor, stateLog: nat, shared: bool, p: Progress)
    requires p == ProgressAt(s, Process(s), |Process(s)|, c).(slave := MapSlave(s, c, stateLog))
    ensures Onward(c, p, HasStateWindow(s), shared) == Behind(s, c, shared)
  {
  }

  /** Where the cursor goes behind a slave, of the group or not. */
  function Past(s: Slave, group: nat, c: Cursor, shared: bool): Cursor {
    if s.group == group then Behind(s, c, shared) else c
  }

  lemma PastBits(s: Slave, group: nat, c: Cursor, shared: bool)
    ensures Past(s, group, c, shared).bits == c.bits + if s.group == group && HasStateWindow(s) then 1 else 0
  {
  }

  /** The slaves in front of `i` are mapped, and the others are as they were. */
  predicate MappedUpTo(
      now: seq<Slave>, was: seq<Slave>, group: nat, origin: Cursor, stateLog: nat, shared: bool, i: nat)
    requires |now| == |was| && i <= |was|
  {
    && (forall k :: 0 <= k < i ==>
        now[k] == MapIfMember(was[k], group, CursorAt(was, group, origin, shared, k), stateLog))
    && (forall k :: i <= k < |was| ==> now[k] == was[k])
  }

  /** What the loop over the slaves has made of them when it has come to slave `i`. */
  function MappedSoFar(was: seq<Slave>, group: nat, origin: Cursor, stateLog: nat, shared: bool, i: nat)
    : (r: seq<Slave>)
    requires i <= |was|
    ensures |r| == |was| && forall k :: i <= k < |was| ==> r[k] == was[k]
  {
    if i == 0 then was
    else
      var c := CursorAt(was, group, origin, shared, i - 1);
      MappedSoFar(was, group, origin, stateLog, shared, i - 1)[i - 1 := MapIfMember(was[i - 1], group, c, stateLog)]
  }

  lemma {:induction false} SoFarAt(
      was: seq<Slave>, group: nat, origin: Cursor, stateLog: nat, shared: bool, i: nat, k: nat)
    requires k < i <= |was|
    ensures MappedSoFar(was, group, origin, stateLog, shared, i)[k]
      == MapIfMember(was[k], group, CursorAt(was, group, origin, shared, k), stateLog)
  {
    if k < i - 1 {
      SoFarAt(was, group, origin, stateLog, shared, i - 1, k);
    }
  }

  lemma SoFarIsUpTo(was: seq<Slave>, group: nat, origin: Cursor, stateLog: nat, shared: bool, i: nat)
    requires i <= |was|
    ensures MappedUpTo(MappedSoFar(was, group, origin, stateLog, shared, i), was, group, origin, stateLog, shared, i)
  {
    forall k | 0 <= k < i
      ensures MappedSoFar(was, group, origin, stateLog, shared, i)[k]
        == MapIfMember(was[k], group, CursorAt(was, group, origin, shared, k), stateLog)
    {
      SoFarAt(was, group, origin, stateLog, shared, i, k);
    }
  }

  /** One round of that loop: slave `s` becomes `t`, and the cursor goes on from `c` to `d`. */
  lemma OneMoreMapped(
      was: seq<Slave>, group: nat, origin: Cursor, stateLog: nat, shared: bool, i: nat, s: Slave, t: Slave, c: Cursor,
      d: Cursor)
    requires i < |was| && s == was[i] && c == CursorAt(was, group, origin, shared, i)
    requires t == MapIfMember(s, group, c, stateLog) && d == Past(s, group, c, shared)
    ensures d == CursorAt(was, group, origin, shared, i + 1)
    ensures MappedSoFar(was, group, origin, stateLog, shared, i + 1)
      == MappedSoFar(was, group, origin, stateLog, shared, i)[i := t]
  {
  }

  /** The lengths of a group whose slaves share their addresses. */
  method AddUpShared(slaves: array<Slave>, group: nat) returns (len: nat)
    ensures len == GroupShared(slaves[..], group, slaves.Length)
  {
    len := 0;
    var i := 0;
    while i < slaves.Length
      invariant 0 <= i <= slaves.Length && len == GroupShared(slaves[..], group, i)
    {
      var s := slaves[i];
      if s.group == group {
        var pdout, pdin := AddUp(s);
        len := len + Max(pdout, pdin);
      }
      i := i + 1;
    }
  }

  method AddUpApart(slaves: array<Slave>, group: nat) returns (pdout: nat, pdin: nat)
    ensures pdout == GroupTotal(slaves[..], group, true, slaves.Length)
    ensures pdin == GroupTotal(slaves[..], group, false, slaves.Length)
  {
    pdout, pdin := 0, 0;
    var i := 0;
    while i < slaves.Length
      invariant 0 <= i <= slaves.Length
      invariant pdout == GroupTotal(slaves[..], group, true, i) && pdin == GroupTotal(slaves[..], group, false, i)
    {
      var s := slaves[i];
      if s.group == group {
        var o, n := AddUp(s);
        pdout, pdin := pdout + o, pdin + n;
      }
      i := i + 1;
    }
  }

  /** One round of the loop over the slaves; `more` says whether there is one more mailbox state. */
  method MapNext(s: Slave, group: nat, c: Cursor, stateLog: nat, shared: bool) returns (t: Slave, d: Cursor, more: nat)
    ensures t == MapIfMember(s, group, c, stateLog) && d == Past(s, group, c, shared) && d.bits == c.bits + more
  {
    t, d, more := s, c, 0;
    if s.group == group {
      var p, state := MapOneSlave(s, c, stateLog);
      OnwardIsBehind(s, c, stateLog, shared, p);
      PastBits(s, group, c, shared);
      t, d := p.slave, Onward(c, p, state, shared);
      if state {
        more := 1;
      }
    }
  }

  /** The loop over the slaves, with the inputs in the same logical memory as the outputs, or
      behind them. */
  method MapSlaves(slaves: array<Slave>, group: nat, origin: Cursor, stateLog: nat, shared: bool)
    returns (c: Cursor, expectedState: nat)
    requires origin.bits == 0
    modifies slaves
    ensures c == CursorAt(old(slaves[..]), group, origin, shared, slaves.Length) && expectedState == c.bits
    ensures MappedUpTo(slaves[..], old(slaves[..]), group, origin, stateLog, shared, slaves.Length)
  {
    ghost var was := slaves[..];
    c, expectedState := origin, 0;
    var i := 0;
    while i < slaves.Length
      invariant 0 <= i <= slaves.Length && expectedState == c.bits
      invariant c == CursorAt(was, group, origin, shared, i)
      invariant slaves[..] == MappedSoFar(was, group, origin, stateLog, shared, i)
    {
      var s := slaves[i];
      var t, d, more := MapNext(s, group, c, stateLog, shared);
      OneMoreMapped(was, group, origin, stateLog, shared, i, s, t, c, d);
      slaves[i] := t;
      c, expectedState := d, expectedState + more;
      i := i + 1;
    }
    SoFarIsUpTo(was, group, origin, stateLog, shared, i);
  }

  /** The mapping with inputs and outputs in the same logical memory. */
  method CreateLogicalMappingOverlapping(slaves: array<Slave>, pd: Group)
    modifies slaves, pd
    ensures pd.lrwLen == pd.logLen == pd.pdoutLen == pd.pdinLen == GroupShared(old(slaves[..]), pd.group, slaves.Length)
    ensures
      var c := CursorAt(old(slaves[..]), pd.group, Origin(pd.log, pd.pdoutLen, true), true, slaves.Length);
      pd.expectedLrw == c.lrw && pd.expectedState == c.bits
    ensures 8 * pd.stateLen - 8 < pd.expectedState <= 8 * pd.stateLen
    ensures MappedUpTo(
      slaves[..], old(slaves[..]), pd.group, Origin(pd.log, pd.pdoutLen, true), pd.stateLog, true, slaves.Length)
    ensures pd.expectedLrd == old(pd.expectedLrd) && pd.expectedLwr == old(pd.expectedLwr)
    ensures pd.useLrw == old(pd.useLrw) && pd.overlapping == old(pd.overlapping) && pd.skip == old(pd.skip)
  {
    var len := AddUpShared(slaves, pd.group);
    pd.pdoutLen, pd.pdinLen, pd.lrwLen := len, len, len;
    pd.logLen := Max(pd.pdoutLen, pd.pdinLen);
    var c, expectedState := MapSlaves(slaves, pd.group, Origin(pd.log, pd.pdoutLen, true), pd.stateLog, true);
    pd.expectedLrw, pd.expectedState := c.lrw, expectedState;
    pd.stateLen := (c.bits + 7) / 8;
  }

  /** The mapping with the inputs behind the outputs.  The working counter expected of a write is
      not reset: it grows with every mapping. */
  method CreateLogicalMapping(slaves: array<Slave>, pd: Group)
    modifies slaves, pd
    ensures pd.pdoutLen == GroupTotal(old(slaves[..]), pd.group, true, slaves.Length)
    ensures pd.pdinLen == GroupTotal(old(slaves[..]), pd.group, false, slaves.Length)
    ensures pd.logLen == pd.pdoutLen + pd.pdinLen && pd.lrwLen == old(pd.lrwLen)
    ensures
      var c := CursorAt(old(slaves[..]), pd.group, Origin(pd.log, pd.pdoutLen, false), false, slaves.Length);
      && pd.expectedLrw == c.lrw && pd.expectedLrd == c.lrd && pd.expectedLwr == old(pd.expectedLwr) + c.lwr
      && pd.expectedState == c.bits
    ensures 8 * pd.stateLen - 8 < pd.expectedState <= 8 * pd.stateLen
    ensures MappedUpTo(
      slaves[..], old(slaves[..]), pd.group, Origin(pd.log, pd.pdoutLen, false), pd.stateLog, false, slaves.Length)
    ensures pd.useLrw == old(pd.useLrw) && pd.overlapping == old(pd.overlapping) && pd.skip == old(pd.skip)
  {
    pd.pdoutLen, pd.pdinLen := AddUpApart(slaves, pd.group);
    pd.logLen := pd.pdoutLen + pd.pdinLen;
    var c, expectedState := MapSlaves(slaves, pd.group, Origin(pd.log, pd.pdoutLen, false), pd.stateLog, false);
    pd.expectedLrw, pd.expectedLrd, pd.expectedLwr := c.lrw, c.lrd, pd.expectedLwr + c.lwr;
    pd.expectedState := expectedState;
    pd.stateLen := (c.bits + 7) / 8;
  }
}
