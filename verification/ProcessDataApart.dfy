/** Inputs and outputs with addresses apart, as the slaves see them: which FMMU carries an address,
    and how many slaves answer to a command that reads or writes. */
module ProcessDataApart {
  import opened Bytes
  import opened ProcessDataExchange
  import opened ProcessDataLayout
  import opened ProcessDataMapping

  /** The cursor of the mapping with addresses apart in front of slave `i`. */
  function Here(slaves: seq<Slave>, group: nat, log: nat, i: nat): Cursor
    requires i <= |slaves|
  {
    At(slaves, group, log, GroupTotal(slaves, group, true, |slaves|), false, i)
  }

  /** All slaves after that mapping. */
  function MapAll(slaves: seq<Slave>, group: nat, log: nat, stateLog: nat): (r: seq<Slave>)
    ensures |r| == |slaves|
    ensures forall i :: 0 <= i < |slaves| ==>
      r[i] == MapIfMember(slaves[i], group, Here(slaves, group, log, i), stateLog)
  {
    seq(|slaves|, i requires 0 <= i < |slaves| => MapIfMember(slaves[i], group, Here(slaves, group, log, i), stateLog))
  }

  /** The slaves of the group are not mapped yet, and neither the other slaves nor the mailbox
      states meet its logical memory. */
  predicate Ready(slaves: seq<Slave>, group: nat, log: nat, stateLog: nat) {
    && log + GroupLength(slaves, group, false) <= stateLog
    && forall i :: 0 <= i < |slaves| ==>
      if slaves[i].group == group then Idle(slaves[i]) else Avoids(slaves[i], log, GroupLength(slaves, group, false))
  }

  // ---------------------------------------------------------------------------------------
  // Tiling
  // ---------------------------------------------------------------------------------------

  /** FMMU `k` of slave `i`, of the group, carries address `a`. */
  predicate Carries(ts: seq<Slave>, group: nat, i: nat, k: nat, a: nat) {
    && i < |ts| && ts[i].group == group && k < |ts[i].fmmus|
    && ts[i].fmmus[k].active && ts[i].fmmus[k].log <= a < ts[i].fmmus[k].log + ts[i].fmmus[k].logLen
  }

  /** In front of the mailbox states an FMMU carries the window of the sync manager with its number. */
  lemma CarriesItsWindow(slaves: seq<Slave>, group: nat, log: nat, stateLog: nat, i: nat, k: nat, a: nat)
    requires Ready(slaves, group, log, stateLog) && a < stateLog
    ensures Carries(MapAll(slaves, group, log, stateLog), group, i, k, a) <==>
      && InWindow(slaves, group, log, GroupTotal(slaves, group, true, |slaves|), false, i, k, a)
      && k < |slaves[i].fmmus|
  {
    if i < |slaves| && slaves[i].group == group && k < |slaves[i].fmmus| {
      FmmuAt(slaves[i], Here(slaves, group, log, i), stateLog, k);
    }
  }

  /** Main theorem: no address below the mailbox states is carried twice, and none outside the
      group is carried at all. */
  lemma NoAddressIsCarriedTwice(
      slaves: seq<Slave>, group: nat, log: nat, stateLog: nat, a: nat, i: nat, k: nat, p: nat, q: nat)
    requires Ready(slaves, group, log, stateLog) && a < stateLog
    requires Carries(MapAll(slaves, group, log, stateLog), group, i, k, a)
    requires Carries(MapAll(slaves, group, log, stateLog), group, p, q, a)
    ensures i == p && k == q && log <= a < log + GroupLength(slaves, group, false)
  {
    CarriesItsWindow(slaves, group, log, stateLog, i, k, a);
    CarriesItsWindow(slaves, group, log, stateLog, p, q, a);
    var u, v := WindowsTile(slaves, group, log, a);
  }

  /** Some FMMU carries address `a`. */
  ghost predicate IsCarried(ts: seq<Slave>, group: nat, a: nat) {
    exists i: nat, k: nat :: Carries(ts, group, i, k, a)
  }

  /** The first byte of a sync manager without an FMMU is carried by nobody. */
  lemma ByteWithoutFmmu(slaves: seq<Slave>, group: nat, log: nat, stateLog: nat, i: nat) returns (a: nat)
    requires Ready(slaves, group, log, stateLog)
    requires i < |slaves| && slaves[i].group == group && !Roomy(slaves[i])
    ensures log <= a < log + GroupLength(slaves, group, false)
    ensures !IsCarried(MapAll(slaves, group, log, stateLog), group, a)
  {
    var c, ps, j := Here(slaves, group, log, i), Process(slaves[i]), |slaves[i].fmmus|;
    a := Start(ps, j, c.logOut, c.logIn);
    WindowInGroup(slaves, group, log, false, i, j);
    assert InWindow(slaves, group, log, GroupTotal(slaves, group, true, |slaves|), false, i, j, a);
    var u, v := WindowsTile(slaves, group, log, a);
    forall p: nat, q: nat ensures !Carries(MapAll(slaves, group, log, stateLog), group, p, q, a) {
      CarriesItsWindow(slaves, group, log, stateLog, p, q, a);
    }
  }

  lemma ByteWithFmmu(slaves: seq<Slave>, group: nat, log: nat, stateLog: nat, a: nat)
    requires Ready(slaves, group, log, stateLog) && log <= a < log + GroupLength(slaves, group, false)
    requires forall i :: 0 <= i < |slaves| && slaves[i].group == group ==> Roomy(slaves[i])
    ensures IsCarried(MapAll(slaves, group, log, stateLog), group, a)
  {
    var i, j := WindowsTile(slaves, group, log, a);
    CarriesItsWindow(slaves, group, log, stateLog, i, j, a);
    assert Carries(MapAll(slaves, group, log, stateLog), group, i, j, a);
  }

  /** Main theorem: the FMMUs cover all of the logical memory of a group exactly when there is one
      for every sync manager of every slave. */
  lemma WhenAllIsCarried(slaves: seq<Slave>, group: nat, log: nat, stateLog: nat)
    requires Ready(slaves, group, log, stateLog)
    ensures
      (forall a | log <= a < log + GroupLength(slaves, group, false) ::
        IsCarried(MapAll(slaves, group, log, stateLog), group, a))
      <==> forall i :: 0 <= i < |slaves| && slaves[i].group == group ==> Roomy(slaves[i])
  {
    if i :| 0 <= i < |slaves| && slaves[i].group == group && !Roomy(slaves[i]) {
      var a := ByteWithoutFmmu(slaves, group, log, stateLog, i);
    } else {
      forall a | log <= a < log + GroupLength(slaves, group, false)
        ensures IsCarried(MapAll(slaves, group, log, stateLog), group, a)
      {
        ByteWithFmmu(slaves, group, log, stateLog, a);
      }
    }
  }

  // ---------------------------------------------------------------------------------------
  // Working counters
  // ---------------------------------------------------------------------------------------

  function KindOf(output: bool): Kind { if output then Outputs else Inputs }

  predicate Responds(f: Fmmu, kind: Kind, adr: nat, len: nat) {
    f.kind == kind && Meets(f, adr, len)
  }

  lemma {:induction false} AnswersExactly(fmmus: seq<Fmmu>, n: nat, kind: Kind, adr: nat, len: nat)
    requires n <= |fmmus|
    ensures Answers(fmmus, n, kind, adr, len) <==> exists k :: 0 <= k < n && Responds(fmmus[k], kind, adr, len)
  {
    if n > 0 {
      AnswersExactly(fmmus, n - 1, kind, adr, len);
    }
  }

  lemma {:induction false} CountsExactly(ps: seq<SyncManager>, n: nat, output: bool)
    requires n <= |ps|
    ensures Count(ps, n, output) > 0 <==> exists j :: 0 <= j < n && ps[j].output == output
  {
    if n > 0 {
      CountsExactly(ps, n - 1, output);
    }
  }

  /** A datagram to the logical memory of a group that spans one of its directions. */
  predicate Spans(slaves: seq<Slave>, group: nat, log: nat, output: bool, adr: nat, len: nat) {
    var base := if output then log else log + GroupTotal(slaves, group, true, |slaves|);
    && log <= adr <= base && base + GroupTotal(slaves, group, output, |slaves|) <= adr + len
    && adr + len <= log + GroupLength(slaves, group, false)
  }

  /** The window of a sync manager lies in its direction. */
  lemma WindowInDirection(slaves: seq<Slave>, group: nat, log: nat, i: nat, j: nat)
    requires i < |slaves| && slaves[i].group == group && j < |Process(slaves[i])|
    ensures
      var ps, c := Process(slaves[i]), Here(slaves, group, log, i);
      var base := if ps[j].output then log else log + GroupTotal(slaves, group, true, |slaves|);
      var start := Start(ps, j, c.logOut, c.logIn);
      base <= start && start + ps[j].len <= base + GroupTotal(slaves, group, ps[j].output, |slaves|)
  {
    var output := Process(slaves[i])[j].output;
    TotalGrows(Process(slaves[i]), j + 1, |Process(slaves[i])|, output);
    GroupGrows(slaves, group, i, |slaves|, output);
    ApartCursor(slaves, group, log, GroupTotal(slaves, group, true, |slaves|), i);
  }

  /** The FMMUs of a mapped slave that respond are those of the sync managers of that direction. */
  lemma FmmuResponds(
      slaves: seq<Slave>, group: nat, log: nat, stateLog: nat, output: bool, adr: nat, len: nat, i: nat, k: nat)
    requires Ready(slaves, group, log, stateLog) && Spans(slaves, group, log, output, adr, len)
    requires i < |slaves| && slaves[i].group == group && k < |slaves[i].fmmus|
    ensures
      Responds(MapAll(slaves, group, log, stateLog)[i].fmmus[k], KindOf(output), adr, len) <==>
      k < |Process(slaves[i])| && Process(slaves[i])[k].output == output
  {
    FmmuAt(slaves[i], Here(slaves, group, log, i), stateLog, k);
    if k < |Process(slaves[i])| {
      WindowInDirection(slaves, group, log, i, k);
    }
  }

  /** Slave `t` answers exactly when it is of the group and one of its sync managers of that
      direction is mapped. */
  predicate AnswersIfMapped(t: Slave, s: Slave, group: nat, output: bool, adr: nat, len: nat) {
    Answers(t.fmmus, |t.fmmus|, KindOf(output), adr, len) <==> s.group == group && SlaveCount(s, output) > 0
  }

  lemma SlaveResponds(
      slaves: seq<Slave>, group: nat, log: nat, stateLog: nat, output: bool, adr: nat, len: nat, i: nat, t: Slave)
    requires Ready(slaves, group, log, stateLog) && Spans(slaves, group, log, output, adr, len)
    requires i < |slaves| && t == MapAll(slaves, group, log, stateLog)[i]
    ensures AnswersIfMapped(t, slaves[i], group, output, adr, len)
  {
    var f, ps := t.fmmus, Process(slaves[i]);
    AnswersExactly(f, |f|, KindOf(output), adr, len);
    if slaves[i].group == group {
      CountsExactly(ps, Mapped(slaves[i], |ps|), output);
      forall k | 0 <= k < |f| ensures Responds(f[k], KindOf(output), adr, len) <==> k < |ps| && ps[k].output == output {
        FmmuResponds(slaves, group, log, stateLog, output, adr, len, i, k);
      }
    }
  }

  lemma {:induction false} CountAnswers(
      ts: seq<Slave>, slaves: seq<Slave>, group: nat, output: bool, adr: nat, len: nat, n: nat)
    requires n <= |ts| == |slaves|
    requires forall i :: 0 <= i < n ==> AnswersIfMapped(ts[i], slaves[i], group, output, adr, len)
    ensures CommandCounter(ts, KindOf(output), adr, len, n) == Answering(slaves, group, output, n)
  {
    if n > 0 {
      CountAnswers(ts, slaves, group, output, adr, len, n - 1);
      assert AnswersIfMapped(ts[n - 1], slaves[n - 1], group, output, adr, len);
    }
  }

  /** Main theorem: the slaves that answer to a command are those with a window of its direction. */
  lemma AnsweringSlaves(
      slaves: seq<Slave>, group: nat, log: nat, stateLog: nat, output: bool, kind: Kind, adr: nat,
      len: nat, n: nat)
    requires Ready(slaves, group, log, stateLog) && Spans(slaves, group, log, output, adr, len)
    requires kind == KindOf(output) && n <= |slaves|
    ensures
      CommandCounter(MapAll(slaves, group, log, stateLog), kind, adr, len, n) == Answering(slaves, group, output, n)
  {
    var ts := MapAll(slaves, group, log, stateLog);
    forall i | 0 <= i < n ensures AnswersIfMapped(ts[i], slaves[i], group, output, adr, len) {
      SlaveResponds(slaves, group, log, stateLog, output, adr, len, i, ts[i]);
    }
    CountAnswers(ts, slaves, group, output, adr, len, n);
  }

  /** A command that does both is counted by what its two halves are. */
  lemma {:induction false} CounterOfBoth(ts: seq<Slave>, adr: nat, len: nat, n: nat)
    requires n <= |ts|
    ensures
      WorkingCounter(ts, adr, len, n)
      == CommandCounter(ts, Inputs, adr, len, n) + 2 * CommandCounter(ts, Outputs, adr, len, n)
  {
    if n > 0 {
      CounterOfBoth(ts, adr, len, n - 1);
    }
  }

  /** Main theorem: the counter expected of a read is the one that comes back exactly when no slave
      has several windows of inputs. */
  lemma WhenReadMatches(
      slaves: seq<Slave>, group: nat, log: nat, stateLog: nat, pdout: nat, adr: nat, len: nat, n: nat)
    requires Ready(slaves, group, log, stateLog) && n == |slaves|
    requires pdout == GroupTotal(slaves, group, true, n) && adr == log + pdout
    requires len == GroupTotal(slaves, group, false, n)
    ensures
      CommandCounter(MapAll(slaves, group, log, stateLog), Inputs, adr, len, n) == Here(slaves, group, log, n).lrd
      <==> OneWindowEach(slaves, group, false, n)
  {
    AnsweringSlaves(slaves, group, log, stateLog, false, Inputs, adr, len, n);
    WhenApartCountersAreRight(slaves, group, log, pdout, false, n);
  }

  /** And that of a write, which a mapping adds to what was there `before`, when that was nothing and
      no slave has several windows of outputs. */
  lemma WhenWriteMatches(
      slaves: seq<Slave>, group: nat, log: nat, stateLog: nat, len: nat, n: nat, before: nat)
    requires Ready(slaves, group, log, stateLog) && n == |slaves| && len == GroupTotal(slaves, group, true, n)
    ensures
      CommandCounter(MapAll(slaves, group, log, stateLog), Outputs, log, len, n)
      == before + Here(slaves, group, log, n).lwr
      <==> before == 0 && OneWindowEach(slaves, group, true, n)
  {
    AnsweringSlaves(slaves, group, log, stateLog, true, Outputs, log, len, n);
    WhenApartCountersAreRight(slaves, group, log, len, true, n);
  }

  /** For instance, with one window of outputs each, when the mapping was made once before: what is
      expected is twice what comes back. */
  lemma ASecondMappingCountsTwice(
      slaves: seq<Slave>, group: nat, log: nat, stateLog: nat, len: nat, n: nat, before: nat)
    requires Ready(slaves, group, log, stateLog) && n == |slaves| && len == GroupTotal(slaves, group, true, n)
    requires OneWindowEach(slaves, group, true, n) && before == Here(slaves, group, log, n).lwr
    ensures before + Here(slaves, group, log, n).lwr
      == 2 * CommandCounter(MapAll(slaves, group, log, stateLog), Outputs, log, len, n)
  {
    WhenWriteMatches(slaves, group, log, stateLog, len, n, 0);
  }

  /** And that of a command that does both, when no slave has several windows of any direction. */
  lemma WhenBothMatch(slaves: seq<Slave>, group: nat, log: nat, stateLog: nat, n: nat)
    requires Ready(slaves, group, log, stateLog) && n == |slaves|
    ensures
      var ts, c := MapAll(slaves, group, log, stateLog), Here(slaves, group, log, n);
      WorkingCounter(ts, log, GroupLength(slaves, group, false), n) == c.lrw
      <==> OneWindowEach(slaves, group, true, n) && OneWindowEach(slaves, group, false, n)
  {
    var pdout, len := GroupTotal(slaves, group, true, n), GroupLength(slaves, group, false);
    AnsweringSlaves(slaves, group, log, stateLog, false, Inputs, log, len, n);
    AnsweringSlaves(slaves, group, log, stateLog, true, Outputs, log, len, n);
    CounterOfBoth(MapAll(slaves, group, log, stateLog), log, len, n);
    WhenApartCountersAreRight(slaves, group, log, pdout, false, n);
    WhenApartCountersAreRight(slaves, group, log, pdout, true, n);
  }

  /** For instance, a slave with two windows of outputs: the master expects 2 of a write, and 1
      comes back. */
  lemma TwoWindowsCountTwice(slaves: seq<Slave>, log: nat, stateLog: nat)
    requires |slaves| == 1 && slaves[0].group == 0 && !slaves[0].mailbox && Idle(slaves[0]) && |slaves[0].fmmus| == 2
    requires |slaves[0].sms| == 2 && forall k :: 0 <= k < 2 ==> slaves[0].sms[k].output && slaves[0].sms[k].len > 0
    requires Ready(slaves, 0, log, stateLog)
    ensures
      var pdout := GroupTotal(slaves, 0, true, 1);
      && Here(slaves, 0, log, 1).lwr == 2
      && CommandCounter(MapAll(slaves, 0, log, stateLog), Outputs, log, pdout, 1) == 1
  {
    var s, pdout := slaves[0], GroupTotal(slaves, 0, true, 1);
    assert Process(s) == s.sms by {
      assert ProcessUpTo(s, 0) == [] && ProcessUpTo(s, 1) == s.sms[..1] && ProcessUpTo(s, 2) == s.sms;
    }
    assert SlaveCount(s, true) == 2 by {
      assert Count(s.sms, 0, true) == 0 && Count(s.sms, 1, true) == 1;
    }
    AnsweringSlaves(slaves, 0, log, stateLog, true, Outputs, log, pdout, 1);
    assert Answering(slaves, 0, true, 0) == 0;
    assert Here(slaves, 0, log, 0).lwr == 0;
  }

  // ---------------------------------------------------------------------------------------
  // One round
  // ---------------------------------------------------------------------------------------

  /** A mapped slave of the group: its windows start `out` bytes behind the start of the group and
      `inn` bytes behind its outputs, its slices are there in the image, and nothing else in it
      answers to the `len` bytes of the group. */
  predicate Placed(t: Slave, s: Slave, log: nat, pdout: nat, len: nat, out: nat, inn: nat) {
    && Wired(t.fmmus, Carried(s), log + out, log + pdout + inn)
    && (forall k :: |Carried(s)| <= k < |t.fmmus| ==> !Meets(t.fmmus[k], log, len))
    && out + SlaveMapped(s, true) <= pdout && pdout + inn + SlaveMapped(s, false) <= len
    && t.pdout.len == SlaveMapped(s, true) && (t.pdout.len > 0 ==> t.pdout.pos == out)
    && t.pdin.len == SlaveMapped(s, false) && (t.pdin.len > 0 ==> t.pdin.pos == pdout + inn)
  }

  /** Slave `i` on the wire: placed behind the slaves of the group in front of it, or deaf. */
  predicate Joined(t: Slave, slaves: seq<Slave>, group: nat, log: nat, i: nat)
    requires i < |slaves|
  {
    var pdout, len := GroupTotal(slaves, group, true, |slaves|), GroupLength(slaves, group, false);
    if slaves[i].group == group then
      Placed(t, slaves[i], log, pdout, len, GroupTotal(slaves, group, true, i), GroupTotal(slaves, group, false, i))
    else Avoids(t, log, len)
  }

  predicate Bus(ts: seq<Slave>, slaves: seq<Slave>, group: nat, log: nat) {
    && |ts| == |slaves|
    && forall i {:trigger Joined(ts[i], slaves, group, log, i)} :: 0 <= i < |slaves| ==>
      Joined(ts[i], slaves, group, log, i)
  }

  /** The slaves of the group are not mapped yet. */
  predicate AllUnmapped(slaves: seq<Slave>, group: nat) {
    forall i :: 0 <= i < |slaves| && slaves[i].group == group ==> Unmapped(slaves[i])
  }

  /** A slave mapped at its place is placed there. */
  lemma MappedIsPlaced(
      s: Slave, c: Cursor, stateLog: nat, log: nat, pdout: nat, len: nat, out: nat, inn: nat)
    requires Unmapped(s) && log + len <= stateLog
    requires c.logOut == log + out && c.logIn == log + pdout + inn && c.imageOut == out && c.imageIn == pdout + inn
    requires out + SlaveTotal(s, true) <= pdout && pdout + inn + SlaveTotal(s, false) <= len
    ensures Placed(MapSlave(s, c, stateLog), s, log, pdout, len, out, inn)
  {
    var t := MapSlave(s, c, stateLog);
    MappedIsWired(s, c, stateLog);
    SlicesAt(s, c, stateLog);
    CarriedTotal(s, true);
    CarriedTotal(s, false);
    forall k | |Carried(s)| <= k < |t.fmmus| ensures !Meets(t.fmmus[k], log, len) {
      FmmuAt(s, c, stateLog, k);
    }
  }

  /** The mapping with addresses apart makes a bus. */
  lemma MappingMakesBus(slaves: seq<Slave>, group: nat, log: nat, stateLog: nat)
    requires Ready(slaves, group, log, stateLog) && AllUnmapped(slaves, group)
    ensures Bus(MapAll(slaves, group, log, stateLog), slaves, group, log)
  {
    var ts, pdout := MapAll(slaves, group, log, stateLog), GroupTotal(slaves, group, true, |slaves|);
    forall i | 0 <= i < |slaves| ensures Joined(ts[i], slaves, group, log, i) {
      if slaves[i].group == group {
        ApartCursor(slaves, group, log, pdout, i);
        GroupGrows(slaves, group, i, |slaves|, true);
        GroupGrows(slaves, group, i, |slaves|, false);
        MappedIsPlaced(
          slaves[i], Here(slaves, group, log, i), stateLog, log, pdout, GroupLength(slaves, group, false),
          GroupTotal(slaves, group, true, i), GroupTotal(slaves, group, false, i));
      }
    }
  }

  /** A slave of the group stores exactly its slice of the outputs, and any other one nothing. */
  predicate StoresItsSlice(
      t: Slave, s: Slave, group: nat, memory: seq<Byte>, payload: seq<Byte>, adr: nat, image: seq<Byte>)
  {
    var ps, slice, after := Carried(s), SliceOf(image, t.pdout), TakeAll(t.fmmus, |t.fmmus|, memory, payload, adr);
    if s.group == group then Total(ps, |ps|, true) == |slice| && after == Scatter(ps, |ps|, memory, slice)
    else after == memory
  }

  lemma SliceIsThere(image: seq<Byte>, arriving: seq<Byte>, n: nat, a: Area, at: nat)
    requires n <= |arriving| && n <= |image| && arriving[..n] == image[..n]
    requires at + a.len <= n && (a.len > 0 ==> a.pos == at)
    ensures |SliceOf(image, a)| == a.len && SliceOf(image, a) == arriving[at..at + a.len]
  {
    forall p | 0 <= p < n ensures arriving[p] == image[p] {
      assert arriving[p] == arriving[..n][p] == image[..n][p];
    }
  }

  lemma SlaveStoresItsSlice(
      t: Slave, s: Slave, log: nat, pdout: nat, len: nat, out: nat, inn: nat, group: nat, image: seq<Byte>,
      arriving: seq<Byte>, memory: seq<Byte>)
    requires Placed(t, s, log, pdout, len, out, inn) && s.group == group
    requires pdout <= |arriving| <= len && pdout <= |image| && arriving[..pdout] == image[..pdout]
    ensures StoresItsSlice(t, s, group, memory, arriving, log, image)
  {
    var ps := Carried(s);
    SliceIsThere(image, arriving, pdout, t.pdout, out);
    CarriedTotal(s, true);
    RestDoesNothing(t.fmmus, |ps|, |t.fmmus|, memory, arriving, log);
    TakingIsScattering(t.fmmus, ps, log, out, log + pdout + inn, |ps|, memory, arriving, SliceOf(image, t.pdout));
  }

  /** A datagram at the start of the group that arrives with the outputs of the image is stored slice
      by slice. */
  lemma BusStores(
      ts: seq<Slave>, slaves: seq<Slave>, group: nat, log: nat, image: seq<Byte>, arriving: seq<Byte>, pdout: nat,
      i: nat, memory: seq<Byte>)
    requires Bus(ts, slaves, group, log) && i < |slaves|
    requires pdout == GroupTotal(slaves, group, true, |slaves|) <= |arriving| <= GroupLength(slaves, group, false)
    requires pdout <= |image| && arriving[..pdout] == image[..pdout]
    ensures StoresItsSlice(ts[i], slaves[i], group, memory, arriving, log, image)
  {
    assert Joined(ts[i], slaves, group, log, i);
    if slaves[i].group == group {
      SlaveStoresItsSlice(
        ts[i], slaves[i], log, pdout, GroupLength(slaves, group, false), GroupTotal(slaves, group, true, i),
        GroupTotal(slaves, group, false, i), group, image, arriving, memory);
    } else {
      OtherDoesNothing(ts[i], memory, arriving, log);
    }
  }

  /** What slave `i` puts into a datagram whose inputs start behind `front` bytes. */
  function PartApart(slaves: seq<Slave>, memories: seq<seq<Byte>>, group: nat, front: nat, i: nat): Part
    requires i < |slaves| == |memories|
  {
    var at := front + GroupTotal(slaves, group, false, i);
    Part(at, if slaves[i].group == group then InputsOf(slaves[i], memories[i]) else [])
  }

  function PartsApart(slaves: seq<Slave>, memories: seq<seq<Byte>>, group: nat, front: nat): (parts: seq<Part>)
    requires |slaves| == |memories|
    ensures |parts| == |slaves|
    ensures forall i :: 0 <= i < |slaves| ==> parts[i] == PartApart(slaves, memories, group, front, i)
  {
    seq(|slaves|, i requires 0 <= i < |slaves| => PartApart(slaves, memories, group, front, i))
  }

  lemma PartsAreInOrder(slaves: seq<Slave>, memories: seq<seq<Byte>>, group: nat, front: nat)
    requires |slaves| == |memories|
    ensures Ordered(PartsApart(slaves, memories, group, front))
  {
    var parts := PartsApart(slaves, memories, group, front);
    forall i, j | 0 <= i < j < |parts| ensures End(parts[i]) <= parts[j].at {
      GroupGrows(slaves, group, i, j, false);
    }
  }

  /** A datagram of `len` bytes at `adr` spans the inputs of the group, behind `front` bytes. */
  predicate SpansInputs(slaves: seq<Slave>, group: nat, log: nat, adr: nat, len: nat, front: nat) {
    && log <= adr && adr + front == log + GroupTotal(slaves, group, true, |slaves|)
    && front + GroupTotal(slaves, group, false, |slaves|) == len
  }

  lemma SlaveGivesItsInputs(
      t: Slave, s: Slave, logOut: nat, logIn: nat, adr: nat, at: nat, arriving: seq<Byte>, memory: seq<Byte>)
    requires Wired(t.fmmus, Carried(s), logOut, logIn) && logIn == adr + at
    requires forall k :: |Carried(s)| <= k < |t.fmmus| ==> !Meets(t.fmmus[k], adr, |arriving|)
    requires at + SlaveMapped(s, false) <= |arriving|
    ensures GiveAll(t.fmmus, |t.fmmus|, memory, arriving, adr) == Overwrite(arriving, at, InputsOf(s, memory))
  {
    var ps := Carried(s);
    CarriedTotal(s, false);
    RestDoesNothing(t.fmmus, |ps|, |t.fmmus|, memory, arriving, adr);
    GivingIsGathering(t.fmmus, ps, adr, at, logOut, |ps|, memory, arriving);
  }

  /** A datagram to the end of the group meets no more than one to all of it. */
  lemma StaysSilent(t: Slave, k: nat, log: nat, len: nat, adr: nat, n: nat)
    requires k <= |t.fmmus| && log <= adr && adr + n <= log + len
    requires forall j :: k <= j < |t.fmmus| ==> !Meets(t.fmmus[j], log, len)
    ensures forall j :: k <= j < |t.fmmus| ==> !Meets(t.fmmus[j], adr, n)
  {
  }

  /** What slave `i` does to the datagram. */
  lemma GivesItsPart(
      ts: seq<Slave>, slaves: seq<Slave>, memories: seq<seq<Byte>>, group: nat, log: nat, adr: nat, front: nat, i: nat,
      arriving: seq<Byte>, part: Part)
    requires Bus(ts, slaves, group, log) && i < |slaves| == |memories|
    requires SpansInputs(slaves, group, log, adr, |arriving|, front)
    requires part == PartApart(slaves, memories, group, front, i)
    ensures GiveAll(ts[i].fmmus, |ts[i].fmmus|, memories[i], arriving, adr) == Overwrite(arriving, part.at, part.data)
  {
    assert Joined(ts[i], slaves, group, log, i);
    if slaves[i].group == group {
      var logOut := log + GroupTotal(slaves, group, true, i);
      StaysSilent(ts[i], |Carried(slaves[i])|, log, GroupLength(slaves, group, false), adr, |arriving|);
      SlaveGivesItsInputs(ts[i], slaves[i], logOut, adr + part.at, adr, part.at, arriving, memories[i]);
    } else {
      StaysSilent(ts[i], 0, log, GroupLength(slaves, group, false), adr, |arriving|);
      OtherDoesNothing(ts[i], memories[i], arriving, adr);
      OverwriteNothing(arriving, part.at);
    }
  }

  /** The datagram arrives at slave `i` with the inputs of the slaves in front of it. */
  lemma ArrivesWithParts(
      ts: seq<Slave>, slaves: seq<Slave>, memories: seq<seq<Byte>>, group: nat, log: nat, adr: nat, front: nat, i: nat,
      payload: seq<Byte>, parts: seq<Part>)
    requires Bus(ts, slaves, group, log) && i <= |slaves| == |memories|
    requires SpansInputs(slaves, group, log, adr, |payload|, front)
    requires parts == PartsApart(slaves, memories, group, front)
    ensures Arriving(ts, memories, adr, payload, i) == Collected(parts, payload, i)
  {
    forall k | 0 <= k < i ensures Stores(ts, memories, adr, payload, k, parts[k]) {
      GivesItsPart(ts, slaves, memories, group, log, adr, front, k, Arriving(ts, memories, adr, payload, k), parts[k]);
    }
    StoringIsCollecting(ts, memories, adr, payload, parts, i);
  }

  /** The bytes in front of the inputs arrive as they were sent. */
  lemma FrontArrives(
      ts: seq<Slave>, slaves: seq<Slave>, memories: seq<seq<Byte>>, group: nat, log: nat, adr: nat, front: nat, i: nat,
      payload: seq<Byte>)
    requires Bus(ts, slaves, group, log) && i <= |slaves| == |memories|
    requires SpansInputs(slaves, group, log, adr, |payload|, front)
    ensures Arriving(ts, memories, adr, payload, i)[..front] == payload[..front]
  {
    var parts := PartsApart(slaves, memories, group, front);
    ArrivesWithParts(ts, slaves, memories, group, log, adr, front, i, payload, parts);
    FrontIsUntouched(parts, payload, i, front);
  }

  lemma SliceBehind(before: seq<Byte>, back: seq<Byte>, a: Area, at: nat, inputs: seq<Byte>)
    requires a.len == |inputs| && (a.len > 0 ==> a.pos == |before| + at)
    requires at + |inputs| <= |back| && back[at..at + |inputs|] == inputs
    ensures SliceOf(before + back, a) == inputs
  {
    forall p | 0 <= p < |inputs| ensures (before + back)[|before| + at + p] == inputs[p] {
      assert inputs[p] == back[at..at + |inputs|][p];
    }
  }

  /** A datagram that spans the inputs comes back with the inputs of every slave of the group where
      its slice is in the image, counted from the start of the group. */
  lemma BusReturns(
      ts: seq<Slave>, slaves: seq<Slave>, memories: seq<seq<Byte>>, group: nat, log: nat, adr: nat, front: nat, i: nat,
      payload: seq<Byte>, before: seq<Byte>)
    requires Bus(ts, slaves, group, log) && i < |slaves| == |memories| && slaves[i].group == group
    requires SpansInputs(slaves, group, log, adr, |payload|, front) && |before| == adr - log
    ensures
      SliceOf(before + Arriving(ts, memories, adr, payload, |slaves|), ts[i].pdin) == InputsOf(slaves[i], memories[i])
  {
    var parts, inputs := PartsApart(slaves, memories, group, front), InputsOf(slaves[i], memories[i]);
    var at := front + GroupTotal(slaves, group, false, i);
    assert Joined(ts[i], slaves, group, log, i);
    ArrivesWithParts(ts, slaves, memories, group, log, adr, front, |slaves|, payload, parts);
    PartsAreInOrder(slaves, memories, group, front);
    assert parts[i] == Part(at, inputs);
    PartIsKept(parts, payload, i, |slaves|, at, inputs);
    SliceBehind(before, Arriving(ts, memories, adr, payload, |slaves|), ts[i].pdin, at, inputs);
  }

  /** Main theorem on LWR: the outputs of the image are stored slice by slice. */
  lemma LwrRoundIsDirectCopy(
      slaves: seq<Slave>, group: nat, log: nat, stateLog: nat, image: seq<Byte>, pdout: nat, i: nat, memory: seq<Byte>)
    requires Ready(slaves, group, log, stateLog) && AllUnmapped(slaves, group) && i < |slaves|
    requires pdout == GroupTotal(slaves, group, true, |slaves|) <= |image|
    ensures StoresItsSlice(
      MapAll(slaves, group, log, stateLog)[i], slaves[i], group, memory, image[..pdout], log, image)
  {
    MappingMakesBus(slaves, group, log, stateLog);
    BusStores(
      MapAll(slaves, group, log, stateLog), slaves, group, log, image, image[..pdout], pdout, i, memory);
  }

  /** Main theorem on LRD: put behind the outputs of the image, the datagram that comes back has the
      inputs of every slave in its slice. */
  lemma LrdRoundIsDirectCopy(
      slaves: seq<Slave>, memories: seq<seq<Byte>>, group: nat, log: nat, stateLog: nat, i: nat, outputs: seq<Byte>,
      payload: seq<Byte>, ts: seq<Slave>, adr: nat)
    requires Ready(slaves, group, log, stateLog) && AllUnmapped(slaves, group) && i < |slaves| == |memories|
    requires slaves[i].group == group && ts == MapAll(slaves, group, log, stateLog)
    requires |outputs| == GroupTotal(slaves, group, true, |slaves|) && adr == log + |outputs|
    requires |payload| == GroupTotal(slaves, group, false, |slaves|)
    ensures
      SliceOf(outputs + Arriving(ts, memories, adr, payload, |slaves|), ts[i].pdin) == InputsOf(slaves[i], memories[i])
  {
    MappingMakesBus(slaves, group, log, stateLog);
    BusReturns(ts, slaves, memories, group, log, adr, 0, i, payload, outputs);
  }

  /** Main theorem on LRW: one datagram is a direct copy between every slave and its slices, the
      datagram having the layout of the image. */
  lemma LrwRoundIsDirectCopy(
      slaves: seq<Slave>, memories: seq<seq<Byte>>, group: nat, log: nat, stateLog: nat, i: nat, image: seq<Byte>,
      payload: seq<Byte>, ts: seq<Slave>, pdout: nat)
    requires Ready(slaves, group, log, stateLog) && AllUnmapped(slaves, group) && i < |slaves| == |memories|
    requires pdout == GroupTotal(slaves, group, true, |slaves|) <= |image| && ts == MapAll(slaves, group, log, stateLog)
    requires payload == Outgoing(image, pdout, GroupLength(slaves, group, false))
    ensures StoresItsSlice(
      ts[i], slaves[i], group, memories[i], Arriving(ts, memories, log, payload, i), log, image)
    ensures slaves[i].group == group ==>
      SliceOf(Arriving(ts, memories, log, payload, |slaves|), ts[i].pdin) == InputsOf(slaves[i], memories[i])
  {
    MappingMakesBus(slaves, group, log, stateLog);
    FrontArrives(ts, slaves, memories, group, log, log, pdout, i, payload);
    BusStores(ts, slaves, group, log, image, Arriving(ts, memories, log, payload, i), pdout, i, memories[i]);
    if slaves[i].group == group {
      BusReturns(ts, slaves, memories, group, log, log, pdout, i, payload, []);
      var back := Arriving(ts, memories, log, payload, |slaves|);
      assert [] + back == back;
    }
  }
}
