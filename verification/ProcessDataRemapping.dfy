/** Mapping the same slaves again: the windows are new, but the slices of the image are not. */
module ProcessDataRemapping {
  import opened Bytes
  import opened ProcessDataExchange
  import opened ProcessDataLayout
  import opened ProcessDataMapping

  /** A slave that is mapped at one cursor after the other. */
  function Remapped(s: Slave, cs: seq<Cursor>, stateLog: nat): Slave {
    if cs == [] then s else MapSlave(Remapped(s, cs[..|cs| - 1], stateLog), cs[|cs| - 1], stateLog)
  }

  /** Mapping changes nothing that a mapping goes by. */
  lemma MappingKeepsShape(s: Slave, c: Cursor, stateLog: nat)
    ensures
      var t := MapSlave(s, c, stateLog);
      && t.group == s.group && Process(t) == Process(s) && Carried(t) == Carried(s)
      && |t.fmmus| == |s.fmmus| && HasStateWindow(t) == HasStateWindow(s) && t.mailbox == s.mailbox
      && SlaveMapped(t, true) == SlaveMapped(s, true) && SlaveMapped(t, false) == SlaveMapped(s, false)
  {
    SameSyncManagers(s, MapSlave(s, c, stateLog), |s.sms|);
  }

  lemma {:induction false} SameSyncManagers(s: Slave, t: Slave, k: nat)
    requires t.sms == s.sms && t.mailbox == s.mailbox && k <= |s.sms|
    ensures ProcessUpTo(t, k) == ProcessUpTo(s, k)
  {
    if k > 0 {
      SameSyncManagers(s, t, k - 1);
    }
  }

  /** The windows are those of a first mapping at the last cursor. */
  lemma WindowsAreNew(s: Slave, c: Cursor, d: Cursor, stateLog: nat)
    ensures MapSlave(MapSlave(s, c, stateLog), d, stateLog).fmmus == MapSlave(s, d, stateLog).fmmus
  {
    var t := MapSlave(s, c, stateLog);
    MappingKeepsShape(s, c, stateLog);
    var again, once := MapSlave(t, d, stateLog).fmmus, MapSlave(s, d, stateLog).fmmus;
    forall k | 0 <= k < |s.fmmus| ensures again[k] == once[k] {
      FmmuAt(t, d, stateLog, k);
      FmmuAt(s, d, stateLog, k);
      FmmuAt(s, c, stateLog, k);
    }
  }

  /** A slice grows with every mapping, and stays where it was. */
  lemma {:induction false} SlicesGrow(s: Slave, cs: seq<Cursor>, stateLog: nat)
    requires s.pdout.len == 0 && s.pdin.len == 0
    ensures
      var t := Remapped(s, cs, stateLog);
      && SlaveMapped(t, true) == SlaveMapped(s, true) && SlaveMapped(t, false) == SlaveMapped(s, false)
      && t.pdout.len == |cs| * SlaveMapped(s, true) && (t.pdout.len > 0 ==> t.pdout.pos == cs[0].imageOut)
      && t.pdin.len == |cs| * SlaveMapped(s, false) && (t.pdin.len > 0 ==> t.pdin.pos == cs[0].imageIn)
  {
    if cs != [] {
      var n := |cs| - 1;
      var before := Remapped(s, cs[..n], stateLog);
      SlicesGrow(s, cs[..n], stateLog);
      MappingKeepsShape(before, cs[n], stateLog);
      OneMore(n, SlaveMapped(s, true));
      OneMore(n, SlaveMapped(s, false));
    }
  }

  lemma OneMore(n: nat, len: nat)
    ensures (n + 1) * len == n * len + len
    ensures n * len > 0 ==> n > 0
    ensures len > 0 && n > 0 ==> n * len > 0
  {
  }

  /** The slices are as long as what is mapped exactly when the slave is mapped once, or nothing of it
      is. */
  lemma WhenSlicesAreRight(s: Slave, cs: seq<Cursor>, stateLog: nat)
    requires s.pdout.len == 0 && s.pdin.len == 0
    ensures
      var t := Remapped(s, cs, stateLog);
      t.pdout.len == SlaveMapped(s, true) && t.pdin.len == SlaveMapped(s, false)
      <==> |cs| == 1 || (SlaveMapped(s, true) == 0 && SlaveMapped(s, false) == 0)
  {
    SlicesGrow(s, cs, stateLog);
    Multiples(|cs|, SlaveMapped(s, true));
    Multiples(|cs|, SlaveMapped(s, false));
  }

  lemma Multiples(n: nat, len: nat)
    ensures n * len == len <==> n == 1 || len == 0
  {
    if n > 1 && len > 0 {
      assert n * len == (n - 1) * len + len;
      OneMore(n - 1, len);
    }
  }

  /** So when the overlapping mapping is made twice, a round is no direct copy for any slave of the group
      that carries something, whatever the memories and the image. */
  lemma ASecondMappingBreaksTheRound(
      slaves: seq<Slave>, memories: seq<seq<Byte>>, group: nat, log: nat, stateLog: nat, image: seq<Byte>, skip: bool,
      expected: nat, i: nat, once: seq<Slave>, twice: seq<Slave>)
    requires i < |slaves| == |memories| && 2 * GroupShared(slaves, group, |slaves|) <= |image|
    requires slaves[i].group == group && slaves[i].pdout.len == 0 && slaves[i].pdin.len == 0
    requires SlaveMapped(slaves[i], true) > 0 || SlaveMapped(slaves[i], false) > 0
    requires once == MapAll(slaves, group, log, stateLog) && twice == MapAll(once, group, log, stateLog)
    ensures !DirectCopy(twice, slaves, memories, group, log, image, skip, expected, i)
  {
    var s, c, d := slaves[i], Here(slaves, group, log, i), Here(once, group, log, i);
    assert once[i] == MapSlave(s, c, stateLog);
    MappingKeepsShape(s, c, stateLog);
    assert twice[i] == MapSlave(once[i], d, stateLog);
    TwoMappings(s, c, d, stateLog);
    CarriedTotal(s, true);
  }

  lemma TwoMappings(s: Slave, c: Cursor, d: Cursor, stateLog: nat)
    requires s.pdout.len == 0 && s.pdin.len == 0
    ensures
      var u := MapSlave(MapSlave(s, c, stateLog), d, stateLog);
      u.pdout.len == 2 * SlaveMapped(s, true) && u.pdin.len == 2 * SlaveMapped(s, false)
  {
    SlicesAt(s, c, stateLog);
    MappingKeepsShape(s, c, stateLog);
  }
}
