/** Where the windows and slices of a mapping lie: the windows of a group tile its logical memory,
    the image follows logical memory, and groups stay away from each other. */
module ProcessDataLayout {
  import opened ProcessDataMapping

  /** The cursor in front of slave `i` of a group that starts at `log`. */
  function At(slaves: seq<Slave>, group: nat, log: nat, pdout: nat, shared: bool, i: nat): Cursor
    requires i <= |slaves|
  {
    CursorAt(slaves, group, Origin(log, pdout, shared), shared, i)
  }

  /** The slaves of a group have no slice of the image yet. */
  predicate Fresh(slaves: seq<Slave>, group: nat) {
    forall k :: 0 <= k < |slaves| && slaves[k].group == group ==> slaves[k].pdout.len == 0 && slaves[k].pdin.len == 0
  }

  lemma {:induction false} GroupGrows(slaves: seq<Slave>, group: nat, i: nat, n: nat, output: bool)
    requires i <= n <= |slaves|
    ensures GroupTotal(slaves, group, output, i) <= GroupTotal(slaves, group, output, n)
    ensures GroupShared(slaves, group, i) <= GroupShared(slaves, group, n)
    ensures i < n && slaves[i].group == group ==>
      && GroupTotal(slaves, group, output, i) + SlaveTotal(slaves[i], output) <= GroupTotal(slaves, group, output, n)
      && GroupShared(slaves, group, i) + SlaveTotal(slaves[i], output) <= GroupShared(slaves, group, n)
    decreases n
  {
    if i < n {
      GroupGrows(slaves, group, i, n - 1, output);
    }
  }

  /** With shared addresses: logical memory goes on behind the longer direction of every slave. */
  lemma {:induction false} SharedCursor(slaves: seq<Slave>, group: nat, log: nat, pdout: nat, i: nat)
    requires i <= |slaves|
    ensures
      var c := At(slaves, group, log, pdout, true, i);
      c.logOut == c.logIn == log + GroupShared(slaves, group, i) && c.imageIn == pdout + c.imageOut
  {
    if i > 0 {
      SharedCursor(slaves, group, log, pdout, i - 1);
    }
  }

  /** With addresses apart, each direction goes on by itself, and the image goes with it. */
  lemma {:induction false} ApartCursor(slaves: seq<Slave>, group: nat, log: nat, pdout: nat, i: nat)
    requires i <= |slaves|
    ensures
      var c := At(slaves, group, log, pdout, false, i);
      && c.imageOut == GroupTotal(slaves, group, true, i) && c.logOut == log + c.imageOut
      && c.imageIn == pdout + GroupTotal(slaves, group, false, i) && c.logIn == log + c.imageIn
  {
    if i > 0 {
      ApartCursor(slaves, group, log, pdout, i - 1);
    }
  }

  // ---------------------------------------------------------------------------------------
  // Working counters
  // ---------------------------------------------------------------------------------------

  /** How many of the first `n` slaves of a group have a window of one direction: each of them
      counts a command of that direction once. */
  function Answering(slaves: seq<Slave>, group: nat, output: bool, n: nat): nat
    requires n <= |slaves|
  {
    if n == 0 then 0
    else
      var s := slaves[n - 1];
      Answering(slaves, group, output, n - 1) + if s.group == group && SlaveCount(s, output) > 0 then 1 else 0
  }

  /** No slave has more than one window of a direction. */
  predicate OneWindowEach(slaves: seq<Slave>, group: nat, output: bool, n: nat)
    requires n <= |slaves|
  {
    forall k :: 0 <= k < n && slaves[k].group == group ==> SlaveCount(slaves[k], output) <= 1
  }

  /** How many windows of one direction the first `n` slaves of a group have. */
  function Windows(slaves: seq<Slave>, group: nat, output: bool, n: nat): nat
    requires n <= |slaves|
  {
    if n == 0 then 0
    else
      var s := slaves[n - 1];
      Windows(slaves, group, output, n - 1) + if s.group == group then SlaveCount(s, output) else 0
  }

  /** They are what the mapping with addresses apart counts. */
  lemma {:induction false} ApartCountsWindows(slaves: seq<Slave>, group: nat, log: nat, pdout: nat, n: nat)
    requires n <= |slaves|
    ensures
      var c := At(slaves, group, log, pdout, false, n);
      && c.lrd == Windows(slaves, group, false, n) && c.lwr == Windows(slaves, group, true, n)
      && c.lrw == c.lrd + 2 * c.lwr
  {
    if n > 0 {
      ApartCountsWindows(slaves, group, log, pdout, n - 1);
    }
  }

  lemma {:induction false} WhenWindowsAreSlaves(slaves: seq<Slave>, group: nat, output: bool, n: nat)
    requires n <= |slaves|
    ensures Windows(slaves, group, output, n) >= Answering(slaves, group, output, n)
    ensures
      Windows(slaves, group, output, n) == Answering(slaves, group, output, n)
      <==> OneWindowEach(slaves, group, output, n)
  {
    if n > 0 {
      WhenWindowsAreSlaves(slaves, group, output, n - 1);
      OneMoreSlave(slaves, group, output, n - 1);
    }
  }

  lemma OneMoreSlave(slaves: seq<Slave>, group: nat, output: bool, n: nat)
    requires n < |slaves|
    ensures OneWindowEach(slaves, group, output, n + 1) <==>
      OneWindowEach(slaves, group, output, n) && (slaves[n].group == group ==> SlaveCount(slaves[n], output) <= 1)
  {
  }

  /** With addresses apart, the working counter expected of a read, or of a write, counts windows,
      not slaves: it is right exactly when no slave has several windows of that direction, and too
      big otherwise; and the counter of a command that does both is made up of the two. */
  lemma WhenApartCountersAreRight(slaves: seq<Slave>, group: nat, log: nat, pdout: nat, output: bool, n: nat)
    requires n <= |slaves|
    ensures
      var c := At(slaves, group, log, pdout, false, n);
      var expected := if output then c.lwr else c.lrd;
      && expected >= Answering(slaves, group, output, n)
      && (expected == Answering(slaves, group, output, n) <==> OneWindowEach(slaves, group, output, n))
      && c.lrw == c.lrd + 2 * c.lwr
  {
    ApartCountsWindows(slaves, group, log, pdout, n);
    WhenWindowsAreSlaves(slaves, group, output, n);
  }

  // ---------------------------------------------------------------------------------------
  // The image
  // ---------------------------------------------------------------------------------------

  /** Mapping a slave leaves no hole: the longer direction is as long with the sync managers that
      found an FMMU as with all of them. */
  predicate LeavesNoHole(s: Slave) {
    Max(SlaveMapped(s, true), SlaveMapped(s, false)) == Max(SlaveTotal(s, true), SlaveTotal(s, false))
  }

  /** There is an FMMU for every sync manager with process data. */
  predicate Roomy(s: Slave) {
    |Process(s)| <= |s.fmmus|
  }

  lemma MappedIsLess(s: Slave, output: bool)
    ensures SlaveMapped(s, output) <= SlaveTotal(s, output)
    ensures SlaveCount(s, output) <= Count(Process(s), |Process(s)|, output)
    ensures Roomy(s) ==> SlaveMapped(s, output) == SlaveTotal(s, output)
  {
    TotalGrows(Process(s), Mapped(s, |Process(s)|), |Process(s)|, output);
  }

  /** With shared addresses, a slave's place in the image is its place in logical memory exactly
      when no slave in front of it has left a hole; otherwise the image lags behind. */
  lemma {:induction false} WhenImageFollowsLog(slaves: seq<Slave>, group: nat, log: nat, pdout: nat, i: nat)
    requires i <= |slaves| && Fresh(slaves, group)
    ensures
      var c := At(slaves, group, log, pdout, true, i);
      && log + c.imageOut <= c.logOut
      && (log + c.imageOut == c.logOut <==>
          forall k :: 0 <= k < i && slaves[k].group == group ==> LeavesNoHole(slaves[k]))
  {
    if i > 0 {
      WhenImageFollowsLog(slaves, group, log, pdout, i - 1);
      SharedCursor(slaves, group, log, pdout, i - 1);
      MappedIsLess(slaves[i - 1], true);
      MappedIsLess(slaves[i - 1], false);
    }
  }

  /** The slices of a mapped slave. */
  lemma SlicesAt(s: Slave, c: Cursor, stateLog: nat)
    requires s.pdout.len == 0 && s.pdin.len == 0
    ensures
      var t := MapSlave(s, c, stateLog);
      && t.pdout.len == SlaveMapped(s, true) && (t.pdout.len > 0 ==> t.pdout.pos == c.imageOut)
      && t.pdin.len == SlaveMapped(s, false) && (t.pdin.len > 0 ==> t.pdin.pos == c.imageIn)
  {
  }

  /** With addresses apart, the slices lie in the image as the windows lie in logical memory,
      even behind slaves that lack FMMUs. */
  lemma SlicesFollowWindows(slaves: seq<Slave>, group: nat, log: nat, stateLog: nat, pdout: nat, i: nat)
    requires i < |slaves| && slaves[i].group == group && Fresh(slaves, group)
    ensures
      var c := At(slaves, group, log, pdout, false, i);
      var t := MapSlave(slaves[i], c, stateLog);
      && (t.pdout.len > 0 ==> log + t.pdout.pos == c.logOut)
      && (t.pdin.len > 0 ==> log + t.pdin.pos == c.logIn)
  {
    ApartCursor(slaves, group, log, pdout, i);
    SlicesAt(slaves[i], At(slaves, group, log, pdout, false, i), stateLog);
  }

  // ---------------------------------------------------------------------------------------
  // Tiling
  // ---------------------------------------------------------------------------------------

  /** Byte `a` of all outputs, or of all inputs, of a group is in sync manager `j` of slave `i`. */
  predicate Covers(slaves: seq<Slave>, group: nat, output: bool, i: nat, j: nat, a: nat) {
    && i < |slaves| && slaves[i].group == group
    && j < |Process(slaves[i])| && Process(slaves[i])[j].output == output
    && var start := GroupTotal(slaves, group, output, i) + Total(Process(slaves[i]), j, output);
       start <= a < start + Process(slaves[i])[j].len
  }

  lemma {:induction false} CoverInSlave(ps: seq<SyncManager>, n: nat, output: bool, a: nat) returns (j: nat)
    requires n <= |ps| && a < Total(ps, n, output)
    ensures j < n && ps[j].output == output && Total(ps, j, output) <= a < Total(ps, j, output) + ps[j].len
  {
    if a < Total(ps, n - 1, output) {
      j := CoverInSlave(ps, n - 1, output, a);
    } else {
      j := n - 1;
    }
  }

  lemma {:induction false} CoverInGroup(slaves: seq<Slave>, group: nat, output: bool, n: nat, a: nat)
    returns (i: nat, j: nat)
    requires n <= |slaves| && a < GroupTotal(slaves, group, output, n)
    ensures i < n && Covers(slaves, group, output, i, j, a)
  {
    if a < GroupTotal(slaves, group, output, n - 1) {
      i, j := CoverInGroup(slaves, group, output, n - 1, a);
    } else {
      i := n - 1;
      var ps := Process(slaves[i]);
      j := CoverInSlave(ps, |ps|, output, a - GroupTotal(slaves, group, output, i));
    }
  }

  lemma CoverEnds(slaves: seq<Slave>, group: nat, output: bool, i: nat, j: nat, a: nat)
    requires Covers(slaves, group, output, i, j, a)
    ensures GroupTotal(slaves, group, output, i)
      <= a < GroupTotal(slaves, group, output, i) + SlaveTotal(slaves[i], output)
    ensures GroupTotal(slaves, group, output, i) + SlaveTotal(slaves[i], output)
      <= GroupTotal(slaves, group, output, |slaves|)
  {
    TotalGrows(Process(slaves[i]), j + 1, |Process(slaves[i])|, output);
    GroupGrows(slaves, group, i, |slaves|, output);
  }

  lemma CoverIsUnique(slaves: seq<Slave>, group: nat, output: bool, a: nat, i: nat, j: nat, p: nat, q: nat)
    requires Covers(slaves, group, output, i, j, a) && Covers(slaves, group, output, p, q, a)
    ensures i == p && j == q
  {
    CoverEnds(slaves, group, output, i, j, a);
    CoverEnds(slaves, group, output, p, q, a);
    if i < p {
      GroupGrows(slaves, group, i, p, output);
    } else if p < i {
      GroupGrows(slaves, group, p, i, output);
    } else if j < q {
      TotalGrows(Process(slaves[i]), j + 1, q, output);
    } else if q < j {
      TotalGrows(Process(slaves[i]), q + 1, j, output);
    }
  }

  /** Address `a` is in the window of sync manager `j` of slave `i`. */
  predicate InWindow(slaves: seq<Slave>, group: nat, log: nat, pdout: nat, shared: bool, i: nat, j: nat, a: nat) {
    && i < |slaves| && slaves[i].group == group && j < |Process(slaves[i])|
    && var c := At(slaves, group, log, pdout, shared, i);
       var start := Start(Process(slaves[i]), j, c.logOut, c.logIn);
       start <= a < start + Process(slaves[i])[j].len
  }

  lemma InWindowIsCovered(slaves: seq<Slave>, group: nat, log: nat, pdout: nat, i: nat, j: nat, a: nat)
    requires i < |slaves| && slaves[i].group == group && j < |Process(slaves[i])|
    ensures
      var output := Process(slaves[i])[j].output;
      var base := if output then log else log + pdout;
      InWindow(slaves, group, log, pdout, false, i, j, a)
      <==> base <= a && Covers(slaves, group, output, i, j, a - base)
  {
    ApartCursor(slaves, group, log, pdout, i);
  }

  /** Main theorem, with addresses apart: every address of the group is in exactly one window; the
      windows of the outputs tile the front of its logical memory, those of the inputs the rest,
      and none reaches outside. */
  lemma WindowsTile(slaves: seq<Slave>, group: nat, log: nat, a: nat) returns (i: nat, j: nat)
    ensures
      var pdout, pdin := GroupTotal(slaves, group, true, |slaves|), GroupTotal(slaves, group, false, |slaves|);
      if log <= a < log + pdout + pdin then
        && InWindow(slaves, group, log, pdout, false, i, j, a)
        && (Process(slaves[i])[j].output <==> a < log + pdout)
        && forall p, q :: InWindow(slaves, group, log, pdout, false, p, q, a) ==> p == i && q == j
      else forall p, q :: !InWindow(slaves, group, log, pdout, false, p, q, a)
  {
    var pdout, pdin := GroupTotal(slaves, group, true, |slaves|), GroupTotal(slaves, group, false, |slaves|);
    i, j := 0, 0;
    var output := a < log + pdout;
    var base := if output then log else log + pdout;
    if log <= a < log + pdout + pdin {
      i, j := CoverInGroup(slaves, group, output, |slaves|, a - base);
      InWindowIsCovered(slaves, group, log, pdout, i, j, a);
    }
    forall p: nat, q: nat | InWindow(slaves, group, log, pdout, false, p, q, a)
      ensures log <= a < log + pdout + pdin && p == i && q == j
    {
      InWindowIsCovered(slaves, group, log, pdout, p, q, a);
      var o := Process(slaves[p])[q].output;
      CoverEnds(slaves, group, o, p, q, a - if o then log else log + pdout);
      CoverIsUnique(slaves, group, output, a - base, i, j, p, q);
    }
  }

  // ---------------------------------------------------------------------------------------
  // Groups
  // ---------------------------------------------------------------------------------------

  /** An FMMU that answers to some of the addresses of a datagram. */
  predicate Meets(f: Fmmu, adr: nat, len: nat) {
    f.active && f.log < adr + len && adr < f.log + f.logLen
  }

  predicate Avoids(s: Slave, adr: nat, len: nat) {
    forall k :: 0 <= k < |s.fmmus| ==> !Meets(s.fmmus[k], adr, len)
  }

  predicate Within(f: Fmmu, adr: nat, len: nat) {
    adr <= f.log && f.log + f.logLen <= adr + len
  }

  /** No FMMU is in use yet. */
  predicate Idle(s: Slave) {
    forall k :: 0 <= k < |s.fmmus| ==> !s.fmmus[k].active
  }

  /** The FMMUs of a mapped slave: the windows of its process data, then the one of its mailbox
      state, and then those that are as they were. */
  lemma FmmuAt(s: Slave, c: Cursor, stateLog: nat, k: nat)
    requires k < |s.fmmus|
    ensures
      var f, ps := MapSlave(s, c, stateLog).fmmus[k], Process(s);
      f == if k < |ps| then Window(s.fmmus[k], ps[k], Start(ps, k, c.logOut, c.logIn))
           else if k == |ps| && s.mailbox then StateWindow(s.fmmus[k], stateLog, c.bits)
           else s.fmmus[k]
  {
    if k < |Process(s)| {
      WindowAt(s.fmmus, Process(s), |Process(s)|, c.logOut, c.logIn, k);
    }
  }

  /** A slave of group 0 with one byte of outputs, and so many FMMUs. */
  predicate HasOneOutput(s: Slave, channels: nat) {
    && s.group == 0 && !s.mailbox && s.pdout.len == 0 && s.pdin.len == 0 && Idle(s)
    && |s.sms| == 1 && s.sms[0].len == 1 && s.sms[0].output
    && |s.fmmus| == channels && forall k :: 0 <= k < channels ==> s.fmmus[k].logBitStart == 0
  }

  lemma OneOutput(s: Slave, channels: nat)
    requires HasOneOutput(s, channels)
    ensures Process(s) == s.sms && Total(s.sms, 0, true) == 0
    ensures SlaveTotal(s, true) == 1 && SlaveTotal(s, false) == 0
    ensures SlaveMapped(s, true) == (if channels > 0 then 1 else 0) && SlaveMapped(s, false) == 0
  {
    assert ProcessUpTo(s, 0) == [] && ProcessUpTo(s, 1) == s.sms;
    assert Total(s.sms, 0, false) == 0 && Total(s.sms, 1, false) == 0 && Total(s.sms, 1, true) == 1;
  }

  lemma MapOneOutput(s: Slave, c: Cursor, stateLog: nat)
    requires HasOneOutput(s, 1)
    ensures
      var t := MapSlave(s, c, stateLog);
      t.fmmus == [Window(s.fmmus[0], s.sms[0], c.logOut)] && t.pdout == Area(c.imageOut, 1)
  {
    OneOutput(s, 1);
    SlicesAt(s, c, stateLog);
    FmmuAt(s, c, stateLog, 0);
  }

  /** For instance, with no FMMU in the first slave and one in the second: the second one listens
      one byte behind the start of the group, but its slice is at the start of the image. */
  lemma AHoleShiftsTheImage(slaves: seq<Slave>, log: nat, stateLog: nat, pdout: nat)
    requires |slaves| == 2 && HasOneOutput(slaves[0], 0) && HasOneOutput(slaves[1], 1)
    ensures
      var t := MapSlave(slaves[1], At(slaves, 0, log, pdout, true, 1), stateLog);
      && !LeavesNoHole(slaves[0])
      && t.fmmus == [Window(slaves[1].fmmus[0], slaves[1].sms[0], log + 1)]
      && t.pdout == Area(0, 1)
  {
    var origin := Origin(log, pdout, true);
    assert CursorAt(slaves, 0, origin, true, 0) == origin;
    assert At(slaves, 0, log, pdout, true, 1) == BehindShared(slaves[0], origin);
    OneOutput(slaves[0], 0);
    MapOneOutput(slaves[1], At(slaves, 0, log, pdout, true, 1), stateLog);
  }

  /** What a group needs in all. */
  function GroupLength(slaves: seq<Slave>, group: nat, shared: bool): nat {
    if shared then GroupShared(slaves, group, |slaves|)
    else GroupTotal(slaves, group, true, |slaves|) + GroupTotal(slaves, group, false, |slaves|)
  }

  function OutputLength(slaves: seq<Slave>, group: nat, shared: bool): nat {
    if shared then GroupShared(slaves, group, |slaves|) else GroupTotal(slaves, group, true, |slaves|)
  }

  lemma WindowInGroup(slaves: seq<Slave>, group: nat, log: nat, shared: bool, i: nat, j: nat)
    requires i < |slaves| && slaves[i].group == group && j < |Process(slaves[i])|
    ensures
      var ps := Process(slaves[i]);
      var c := At(slaves, group, log, OutputLength(slaves, group, shared), shared, i);
      var start := Start(ps, j, c.logOut, c.logIn);
      log <= start && start + ps[j].len <= log + GroupLength(slaves, group, shared)
  {
    var output := Process(slaves[i])[j].output;
    TotalGrows(Process(slaves[i]), j + 1, |Process(slaves[i])|, output);
    GroupGrows(slaves, group, i, |slaves|, output);
    if shared {
      SharedCursor(slaves, group, log, OutputLength(slaves, group, true), i);
    } else {
      ApartCursor(slaves, group, log, OutputLength(slaves, group, false), i);
    }
  }

  lemma {:induction false} BitsGrow(slaves: seq<Slave>, group: nat, origin: Cursor, shared: bool, i: nat, n: nat)
    requires i <= n <= |slaves|
    ensures CursorAt(slaves, group, origin, shared, i).bits <= CursorAt(slaves, group, origin, shared, n).bits
    ensures i < n && slaves[i].group == group && HasStateWindow(slaves[i]) ==>
      CursorAt(slaves, group, origin, shared, i).bits < CursorAt(slaves, group, origin, shared, n).bits
    decreases n
  {
    if i < n {
      BitsGrow(slaves, group, origin, shared, i, n - 1);
    }
  }

  /** The bytes a group needs for the states of its mailboxes. */
  function StateLength(slaves: seq<Slave>, group: nat, log: nat, shared: bool): (len: nat)
    ensures 8 * len - 8 < CursorAt(slaves, group, Origin(log, OutputLength(slaves, group, shared), shared), shared,
      |slaves|).bits <= 8 * len
  {
    (At(slaves, group, log, OutputLength(slaves, group, shared), shared, |slaves|).bits + 7) / 8
  }

  /** The FMMUs in use of a mapped slave stay in the logical memory of its group, or in the area
      of its mailbox states. */
  lemma StaysInGroup(slaves: seq<Slave>, group: nat, log: nat, stateLog: nat, shared: bool, i: nat, k: nat)
    requires i < |slaves| && slaves[i].group == group && Idle(slaves[i]) && k < |slaves[i].fmmus|
    ensures
      var c := At(slaves, group, log, OutputLength(slaves, group, shared), shared, i);
      var f := MapSlave(slaves[i], c, stateLog).fmmus[k];
      f.active ==>
        || Within(f, log, GroupLength(slaves, group, shared))
        || Within(f, stateLog, StateLength(slaves, group, log, shared))
  {
    var s, pdout := slaves[i], OutputLength(slaves, group, shared);
    FmmuAt(s, At(slaves, group, log, pdout, shared, i), stateLog, k);
    if k < |Process(s)| {
      WindowInGroup(slaves, group, log, shared, i, k);
    } else if k == |Process(s)| && s.mailbox {
      BitsGrow(slaves, group, Origin(log, pdout, shared), shared, i, |slaves|);
    }
  }

  /** The addresses of a group, and of its mailbox states. */
  function LogOf(group: nat): nat { GROUP_WINDOW * (group + 1) }

  function StateLogOf(group: nat): nat { STATE_AREAS + group * STATE_AREA }

  /** As long as a group needs no more than 64K of logical memory and 1000 bytes of mailbox states,
      its slaves answer neither to the process data nor to the mailbox states of another group;
      and its process data and its mailbox states do not meet either. */
  lemma GroupsApart(slaves: seq<Slave>, group: nat, shared: bool, other: nat, i: nat)
    requires i < |slaves| && slaves[i].group == group && Idle(slaves[i]) && other != group
    requires group + 2 <= STATE_AREAS / GROUP_WINDOW && other + 2 <= STATE_AREAS / GROUP_WINDOW
    requires GroupLength(slaves, group, shared) <= GROUP_WINDOW
    requires StateLength(slaves, group, LogOf(group), shared) <= STATE_AREA
    ensures
      var c := At(slaves, group, LogOf(group), OutputLength(slaves, group, shared), shared, i);
      var t := MapSlave(slaves[i], c, StateLogOf(group));
      && Avoids(t, LogOf(other), GROUP_WINDOW) && Avoids(t, StateLogOf(other), STATE_AREA)
      && forall k :: 0 <= k < |t.fmmus| ==>
        !Meets(t.fmmus[k], LogOf(group), GROUP_WINDOW) || !Meets(t.fmmus[k], StateLogOf(group), STATE_AREA)
  {
    var c := At(slaves, group, LogOf(group), OutputLength(slaves, group, shared), shared, i);
    var t := MapSlave(slaves[i], c, StateLogOf(group));
    forall k | 0 <= k < |t.fmmus|
      ensures
        && !Meets(t.fmmus[k], LogOf(other), GROUP_WINDOW) && !Meets(t.fmmus[k], StateLogOf(other), STATE_AREA)
        && (!Meets(t.fmmus[k], LogOf(group), GROUP_WINDOW) || !Meets(t.fmmus[k], StateLogOf(group), STATE_AREA))
    {
      StaysInGroup(slaves, group, LogOf(group), StateLogOf(group), shared, i, k);
    }
  }
}
