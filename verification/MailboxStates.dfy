/** The states of the mailboxes: one bit per slave, collected from all slaves of a group with one
    datagram that reads logical memory. */
module MailboxStates {
  import opened Bytes
  import opened Division
  import opened ProcessDataExchange
  import opened ProcessDataLayout
  import opened ProcessDataMapping

  function Pow2(k: nat): (p: nat)
    ensures p > 0
  {
    if k == 0 then 1 else 2 * Pow2(k - 1)
  }

  function Bit(b: Byte, k: nat): bool {
    b as nat / Pow2(k) % 2 == 1
  }

  /** The number with these bits, the lowest one first. */
  function Number(bits: seq<bool>): nat {
    if bits == [] then 0 else (if bits[0] then 1 else 0) + 2 * Number(bits[1..])
  }

  lemma {:induction false} BitOfNumber(bits: seq<bool>, k: nat)
    requires k < |bits|
    ensures (Number(bits) / Pow2(k) % 2 == 1) == bits[k]
    decreases k
  {
    if k > 0 {
      BitOfNumber(bits[1..], k - 1);
      DivideTwice(Number(bits), Pow2(k - 1));
    }
  }

  lemma DivideTwice(n: nat, d: nat)
    requires d > 0
    ensures n / (2 * d) == n / 2 / d
  {
    var q, r := n / 2 / d, n / 2 % d;
    assert n / 2 == q * d + r;
    assert (2 * d) * q == 2 * (q * d) && q * (2 * d) == 2 * (q * d);
    DivModUnique(q, 2 * r + n % 2, 2 * d);
  }

  /** Every bit of a byte is read from its own place. */
  lemma BitsOfByte(bits: seq<bool>, b: Byte, k: nat)
    requires |bits| == 8 && k < 8 && b as nat == Number(bits)
    ensures Bit(b, k) == bits[k]
  {
    BitOfNumber(bits, k);
  }

  /** There is something in the read mailbox of a slave. */
  predicate Full(memory: seq<Byte>) {
    Bit(ByteAt(memory, 0x80D), 3)
  }

  /** An FMMU for inputs, one byte of logical memory wide, puts bits of a byte into its window. */
  function GiveBits(f: Fmmu, memory: seq<Byte>, bits: seq<bool>, adr: nat): (r: seq<bool>)
    ensures |r| == |bits|
  {
    if f.active && f.kind == Inputs && f.logLen == 1 then
      seq(|bits|, p requires 0 <= p < |bits| =>
        if adr + p / 8 == f.log && f.logBitStart <= p % 8 <= f.logBitStop then
          Bit(ByteAt(memory, f.phys), f.physBitStart + (p % 8 - f.logBitStart))
        else bits[p])
    else bits
  }

  function GiveAllBits(fmmus: seq<Fmmu>, n: nat, memory: seq<Byte>, bits: seq<bool>, adr: nat): (r: seq<bool>)
    requires n <= |fmmus|
    ensures |r| == |bits|
  {
    if n == 0 then bits else GiveBits(fmmus[n - 1], memory, GiveAllBits(fmmus, n - 1, memory, bits, adr), adr)
  }

  /** The bits of the datagram as it arrives at slave `i`. */
  function ArrivingBits(slaves: seq<Slave>, memories: seq<seq<Byte>>, adr: nat, bits: seq<bool>, i: nat): (r: seq<bool>)
    requires i <= |slaves| == |memories|
    ensures |r| == |bits|
  {
    if i == 0 then bits
    else
      var f := slaves[i - 1].fmmus;
      GiveAllBits(f, |f|, memories[i - 1], ArrivingBits(slaves, memories, adr, bits, i - 1), adr)
  }

  // ---------------------------------------------------------------------------------------
  // One slave
  // ---------------------------------------------------------------------------------------

  /** FMMU `k` of a slave carries the full bit of its mailbox as bit `bit`, and no other answers. */
  predicate Reports(f: seq<Fmmu>, k: nat, adr: nat, len: nat, bit: nat) {
    && k < |f| && f[k].active && f[k].kind == Inputs && f[k].log == adr + bit / 8 && f[k].logLen == 1
    && f[k].logBitStart == bit % 8 && f[k].logBitStop == bit % 8
    && f[k].phys == 0x80D && f[k].physBitStart == 3
    && bit < 8 * len
    && forall j :: 0 <= j < |f| && j != k ==> !Meets(f[j], adr, len)
  }

  lemma {:induction false} OthersGiveNothing(
      f: seq<Fmmu>, n: nat, m: nat, memory: seq<Byte>, bits: seq<bool>, adr: nat, len: nat)
    requires n <= m <= |f| && |bits| == 8 * len && forall j :: n <= j < m ==> !Meets(f[j], adr, len)
    ensures GiveAllBits(f, m, memory, bits, adr) == GiveAllBits(f, n, memory, bits, adr)
    decreases m
  {
    if n < m {
      OthersGiveNothing(f, n, m - 1, memory, bits, adr, len);
      var before := GiveAllBits(f, m - 1, memory, bits, adr);
      assert GiveBits(f[m - 1], memory, before, adr) == before;
    }
  }

  lemma GiveOneBit(f: Fmmu, memory: seq<Byte>, bits: seq<bool>, adr: nat, bit: nat)
    requires f.active && f.kind == Inputs && f.log == adr + bit / 8 && f.logLen == 1
    requires f.logBitStart == bit % 8 && f.logBitStop == bit % 8
    requires f.phys == SM1_STATUS && f.physBitStart == FULL_BIT && bit < |bits|
    ensures GiveBits(f, memory, bits, adr) == bits[bit := Full(memory)]
  {
  }

  lemma ReportingSlave(f: seq<Fmmu>, k: nat, memory: seq<Byte>, bits: seq<bool>, adr: nat, len: nat, bit: nat)
    requires Reports(f, k, adr, len, bit) && |bits| == 8 * len
    ensures GiveAllBits(f, |f|, memory, bits, adr) == bits[bit := Full(memory)]
    ensures Answers(f, |f|, Inputs, adr, len)
  {
    OthersGiveNothing(f, 0, k, memory, bits, adr, len);
    GiveOneBit(f[k], memory, bits, adr, bit);
    OthersGiveNothing(f, k + 1, |f|, memory, bits, adr, len);
    RestDoesNotAnswer(f, k + 1, |f|, Inputs, adr, len);
  }

  lemma SilentSlave(f: seq<Fmmu>, memory: seq<Byte>, bits: seq<bool>, adr: nat, len: nat)
    requires |bits| == 8 * len && forall j :: 0 <= j < |f| ==> !Meets(f[j], adr, len)
    ensures GiveAllBits(f, |f|, memory, bits, adr) == bits
    ensures !Answers(f, |f|, Inputs, adr, len)
  {
    OthersGiveNothing(f, 0, |f|, memory, bits, adr, len);
    RestDoesNotAnswer(f, 0, |f|, Inputs, adr, len);
  }

  // ---------------------------------------------------------------------------------------
  // All slaves
  // ---------------------------------------------------------------------------------------

  /** Slave `i` has a bit of its own. */
  predicate HasBit(slaves: seq<Slave>, group: nat, i: nat) {
    i < |slaves| && slaves[i].group == group && HasStateWindow(slaves[i])
  }

  /** The bit of slave `i`: how many slaves in front of it have one. */
  function BitOf(slaves: seq<Slave>, group: nat, i: nat): nat
    requires i <= |slaves|
  {
    if i == 0 then 0 else BitOf(slaves, group, i - 1) + if HasBit(slaves, group, i - 1) then 1 else 0
  }

  lemma {:induction false} BitOfGrows(slaves: seq<Slave>, group: nat, i: nat, n: nat)
    requires i <= n <= |slaves|
    ensures BitOf(slaves, group, i) <= BitOf(slaves, group, n)
    ensures i < n && HasBit(slaves, group, i) ==> BitOf(slaves, group, i) < BitOf(slaves, group, n)
    decreases n
  {
    if i < n {
      BitOfGrows(slaves, group, i, n - 1);
    }
  }

  /** The bits are dense and distinct: every number below the count belongs to exactly one slave. */
  lemma {:induction false} BitsAreDense(slaves: seq<Slave>, group: nat, n: nat, b: nat) returns (i: nat)
    requires n <= |slaves| && b < BitOf(slaves, group, n)
    ensures i < n && HasBit(slaves, group, i) && BitOf(slaves, group, i) == b
    ensures forall k :: 0 <= k < n && HasBit(slaves, group, k) && BitOf(slaves, group, k) == b ==> k == i
  {
    if b < BitOf(slaves, group, n - 1) {
      i := BitsAreDense(slaves, group, n - 1, b);
    } else {
      i := n - 1;
      forall k | 0 <= k < n && HasBit(slaves, group, k) && BitOf(slaves, group, k) == b ensures k == i {
        if k < n - 1 {
          BitOfGrows(slaves, group, k, n - 1);
        }
      }
    }
  }

  /** Slave `i` on the wire: it reports its mailbox, or it is silent. */
  predicate Listed(t: Slave, slaves: seq<Slave>, group: nat, adr: nat, len: nat, i: nat)
    requires i < |slaves|
  {
    if HasBit(slaves, group, i) then
      Reports(t.fmmus, |Process(slaves[i])|, adr, len, BitOf(slaves, group, i)) && t.stateBit == BitOf(slaves, group, i)
    else Avoids(t, adr, len) && t.stateBit == slaves[i].stateBit
  }

  predicate Directory(ts: seq<Slave>, slaves: seq<Slave>, group: nat, adr: nat, len: nat) {
    && |ts| == |slaves| && BitOf(slaves, group, |slaves|) <= 8 * len
    && forall i :: 0 <= i < |slaves| ==> Listed(ts[i], slaves, group, adr, len, i)
  }

  /** Bit `b` of the datagram behind `n` slaves. */
  lemma {:induction false} BitBehind(
      ts: seq<Slave>, slaves: seq<Slave>, memories: seq<seq<Byte>>, group: nat, adr: nat, len: nat, bits: seq<bool>,
      i: nat, n: nat)
    requires Directory(ts, slaves, group, adr, len) && i < n <= |slaves| == |memories| && |bits| == 8 * len
    requires HasBit(slaves, group, i)
    ensures BitOf(slaves, group, i) < |bits|
    ensures ArrivingBits(ts, memories, adr, bits, n)[BitOf(slaves, group, i)] == Full(memories[i])
    decreases n
  {
    var before := ArrivingBits(ts, memories, adr, bits, n - 1);
    BitOfGrows(slaves, group, i, |slaves|);
    assert Listed(ts[n - 1], slaves, group, adr, len, n - 1);
    if i < n - 1 {
      BitBehind(ts, slaves, memories, group, adr, len, bits, i, n - 1);
      BitOfGrows(slaves, group, i, n - 1);
    }
    if HasBit(slaves, group, n - 1) {
      ReportingSlave(
        ts[n - 1].fmmus, |Process(slaves[n - 1])|, memories[n - 1], before, adr, len, BitOf(slaves, group, n - 1));
    } else {
      SilentSlave(ts[n - 1].fmmus, memories[n - 1], before, adr, len);
    }
  }

  /** Nobody touches the bits that belong to nobody. */
  lemma {:induction false} PaddingStays(
      ts: seq<Slave>, slaves: seq<Slave>, memories: seq<seq<Byte>>, group: nat, adr: nat, len: nat, bits: seq<bool>,
      n: nat, b: nat)
    requires Directory(ts, slaves, group, adr, len) && n <= |slaves| == |memories| && |bits| == 8 * len
    requires BitOf(slaves, group, n) <= b < |bits|
    ensures ArrivingBits(ts, memories, adr, bits, n)[b] == bits[b]
    decreases n
  {
    if n > 0 {
      var before := ArrivingBits(ts, memories, adr, bits, n - 1);
      PaddingStays(ts, slaves, memories, group, adr, len, bits, n - 1, b);
      assert Listed(ts[n - 1], slaves, group, adr, len, n - 1);
      if HasBit(slaves, group, n - 1) {
        ReportingSlave(
          ts[n - 1].fmmus, |Process(slaves[n - 1])|, memories[n - 1], before, adr, len, BitOf(slaves, group, n - 1));
      } else {
        SilentSlave(ts[n - 1].fmmus, memories[n - 1], before, adr, len);
      }
    }
  }

  /** The working counter counts the slaves that have a bit. */
  lemma {:induction false} CounterCountsBits(
      ts: seq<Slave>, slaves: seq<Slave>, group: nat, adr: nat, len: nat, n: nat)
    requires Directory(ts, slaves, group, adr, len) && n <= |slaves|
    ensures CommandCounter(ts, Inputs, adr, len, n) == BitOf(slaves, group, n)
  {
    if n > 0 {
      var f, bits := ts[n - 1].fmmus, seq(8 * len, _ => false);
      CounterCountsBits(ts, slaves, group, adr, len, n - 1);
      assert Listed(ts[n - 1], slaves, group, adr, len, n - 1);
      if HasBit(slaves, group, n - 1) {
        ReportingSlave(f, |Process(slaves[n - 1])|, [], bits, adr, len, BitOf(slaves, group, n - 1));
      } else {
        SilentSlave(f, [], bits, adr, len);
      }
    }
  }

  // ---------------------------------------------------------------------------------------
  // The master
  // ---------------------------------------------------------------------------------------

  /** A read of the mailbox is scheduled when the bit of a slave with a mailbox is set. */
  predicate Schedules(s: Slave, group: nat, bits: seq<bool>) {
    s.group == group && s.mailbox && s.stateBit < |bits| && bits[s.stateBit]
  }

  function Scheduled(slaves: seq<Slave>, group: nat, bits: seq<bool>, n: nat): (r: seq<nat>)
    requires n <= |slaves|
    ensures forall i :: 0 <= i < |r| ==> r[i] < n
    ensures forall i, j :: 0 <= i < j < |r| ==> r[i] < r[j]
  {
    if n == 0 then []
    else if Schedules(slaves[n - 1], group, bits) then Scheduled(slaves, group, bits, n - 1) + [n - 1]
    else Scheduled(slaves, group, bits, n - 1)
  }

  lemma {:induction false} ScheduledExactly(slaves: seq<Slave>, group: nat, bits: seq<bool>, n: nat, k: nat)
    requires n <= |slaves|
    ensures k in Scheduled(slaves, group, bits, n) <==> k < n && Schedules(slaves[k], group, bits)
  {
    if n > 0 {
      ScheduledExactly(slaves, group, bits, n - 1, k);
    }
  }

  /** Taking the bits out of the datagram, provided that the working counter is right. */
  method ReceiveStates(slaves: array<Slave>, pd: Group, bits: seq<bool>, wkc: nat) returns (scheduled: seq<nat>)
    requires forall k :: 0 <= k < slaves.Length && slaves[k].group == pd.group && slaves[k].mailbox ==>
      slaves[k].stateBit < |bits|
    ensures scheduled ==
      if wkc == pd.expectedState then Scheduled(slaves[..], pd.group, bits, slaves.Length) else []
  {
    scheduled := [];
    if wkc == pd.expectedState {
      var k := 0;
      while k < slaves.Length
        invariant 0 <= k <= slaves.Length
        invariant scheduled == Scheduled(slaves[..], pd.group, bits, k)
      {
        var s := slaves[k];
        if s.group == pd.group && s.mailbox {
          if bits[s.stateBit] {
            scheduled := scheduled + [k];
          }
        }
        k := k + 1;
      }
    }
  }

  // ---------------------------------------------------------------------------------------
  // The mapping
  // ---------------------------------------------------------------------------------------

  /** No FMMU meets the area of the mailbox states before the mapping, and the process data do not
      either. */
  predicate Prepared(slaves: seq<Slave>, group: nat, log: nat, stateLog: nat, shared: bool) {
    && log + GroupLength(slaves, group, shared) <= stateLog
    && forall i :: 0 <= i < |slaves| ==> Avoids(slaves[i], stateLog, StateLength(slaves, group, log, shared))
  }

  /** The cursor of either mapping in front of slave `i`. */
  function CursorOf(slaves: seq<Slave>, group: nat, log: nat, shared: bool, i: nat): Cursor
    requires i <= |slaves|
  {
    At(slaves, group, log, OutputLength(slaves, group, shared), shared, i)
  }

  lemma {:induction false} CursorCountsBits(slaves: seq<Slave>, group: nat, log: nat, shared: bool, i: nat)
    requires i <= |slaves|
    ensures CursorOf(slaves, group, log, shared, i).bits == BitOf(slaves, group, i)
  {
    if i > 0 {
      CursorCountsBits(slaves, group, log, shared, i - 1);
    }
  }

  /** A slave as it is mapped. */
  lemma MappedIsListed(slaves: seq<Slave>, group: nat, log: nat, stateLog: nat, shared: bool, i: nat)
    requires Prepared(slaves, group, log, stateLog, shared) && i < |slaves|
    ensures Listed(
      MapIfMember(slaves[i], group, CursorOf(slaves, group, log, shared, i), stateLog), slaves, group, stateLog,
      StateLength(slaves, group, log, shared), i)
  {
    var s, c, len := slaves[i], CursorOf(slaves, group, log, shared, i), StateLength(slaves, group, log, shared);
    CursorCountsBits(slaves, group, log, shared, i);
    CursorCountsBits(slaves, group, log, shared, |slaves|);
    BitOfGrows(slaves, group, i, |slaves|);
    if s.group == group {
      var t := MapSlave(s, c, stateLog);
      forall k | 0 <= k < |t.fmmus| && (k == |Process(s)| ==> !s.mailbox) ensures !Meets(t.fmmus[k], stateLog, len) {
        FmmuAt(s, c, stateLog, k);
        if k < |Process(s)| {
          WindowInGroup(slaves, group, log, shared, i, k);
        }
      }
      if HasStateWindow(s) {
        FmmuAt(s, c, stateLog, |Process(s)|);
      }
    }
  }

  /** The bit belongs to a slave whose mailbox is full. */
  predicate OwnerIsFull(slaves: seq<Slave>, memories: seq<seq<Byte>>, group: nat, bit: nat)
    requires |slaves| == |memories|
  {
    exists i :: 0 <= i < |slaves| && HasBit(slaves, group, i) && BitOf(slaves, group, i) == bit && Full(memories[i])
  }

  /** Main theorem, for both mappings: the datagram comes back with the working counter expected,
      and a slave of the group with a bit of its own is scheduled exactly when its own mailbox is
      full.  A slave that found no FMMU for its bit is scheduled by the bit whose number it was
      left with, that is when the mailbox of the owner of that bit is full. */
  lemma FullMailboxesAreScheduled(
      slaves: seq<Slave>, memories: seq<seq<Byte>>, group: nat, log: nat, stateLog: nat, shared: bool,
      ts: seq<Slave>, k: nat)
    requires Prepared(slaves, group, log, stateLog, shared) && k < |slaves| == |memories| == |ts|
    requires forall i :: 0 <= i < |slaves| ==>
      ts[i] == MapIfMember(slaves[i], group, CursorOf(slaves, group, log, shared, i), stateLog)
    requires slaves[k].group == group && slaves[k].mailbox
    ensures
      var len := StateLength(slaves, group, log, shared);
      var bits := ArrivingBits(ts, memories, stateLog, seq(8 * len, _ => false), |slaves|);
      && CommandCounter(ts, Inputs, stateLog, len, |slaves|) == CursorOf(slaves, group, log, shared, |slaves|).bits
      && (k in Scheduled(ts, group, bits, |slaves|) <==>
          if HasStateWindow(slaves[k]) then Full(memories[k])
          else OwnerIsFull(slaves, memories, group, slaves[k].stateBit))
  {
    var len := StateLength(slaves, group, log, shared);
    var zeros := seq(8 * len, _ => false);
    var bits := ArrivingBits(ts, memories, stateLog, zeros, |slaves|);
    CursorCountsBits(slaves, group, log, shared, |slaves|);
    forall i | 0 <= i < |slaves| ensures Listed(ts[i], slaves, group, stateLog, len, i) {
      MappedIsListed(slaves, group, log, stateLog, shared, i);
    }
    CounterCountsBits(ts, slaves, group, stateLog, len, |slaves|);
    ScheduledExactly(ts, group, bits, |slaves|, k);
    var b := ts[k].stateBit;
    if HasStateWindow(slaves[k]) {
      BitBehind(ts, slaves, memories, group, stateLog, len, zeros, k, |slaves|);
    } else if b < BitOf(slaves, group, |slaves|) {
      var i := BitsAreDense(slaves, group, |slaves|, b);
      BitBehind(ts, slaves, memories, group, stateLog, len, zeros, i, |slaves|);
    } else {
      if b < |bits| {
        PaddingStays(ts, slaves, memories, group, stateLog, len, zeros, |slaves|, b);
      }
      forall i | 0 <= i < |slaves| && HasBit(slaves, group, i) ensures BitOf(slaves, group, i) != b {
        BitOfGrows(slaves, group, i, |slaves|);
      }
    }
  }

  /** A slave of group 0 with a mailbox and nothing else, and so many FMMUs. */
  predicate HasOnlyMailbox(s: Slave, channels: nat) {
    s.group == 0 && s.mailbox && s.sms == [] && |s.fmmus| == channels && Idle(s) && s.stateBit == 0
  }

  lemma OnlyMailboxNeedsNothing(s: Slave, channels: nat)
    requires HasOnlyMailbox(s, channels)
    ensures Process(s) == [] && SlaveTotal(s, true) == SlaveTotal(s, false) == 0
    ensures HasStateWindow(s) <==> channels > 0
  {
  }

  lemma NeighboursArePrepared(slaves: seq<Slave>)
    requires |slaves| == 2 && HasOnlyMailbox(slaves[0], 1) && HasOnlyMailbox(slaves[1], 0)
    ensures Prepared(slaves, 0, LogOf(0), StateLogOf(0), true)
    ensures HasBit(slaves, 0, 0) && BitOf(slaves, 0, 0) == 0
  {
    OnlyMailboxNeedsNothing(slaves[0], 1);
    OnlyMailboxNeedsNothing(slaves[1], 0);
    assert GroupShared(slaves, 0, 0) == 0 && GroupShared(slaves, 0, 1) == 0;
  }

  /** For instance: of two slaves with mailboxes, the second one without an FMMU, and the mailbox
      of the first one full, both are scheduled. */
  lemma NeighbourIsScheduledToo(slaves: seq<Slave>, memories: seq<seq<Byte>>, ts: seq<Slave>)
    requires |slaves| == 2 && HasOnlyMailbox(slaves[0], 1) && HasOnlyMailbox(slaves[1], 0)
    requires |memories| == 2 && Full(memories[0]) && !Full(memories[1]) && |ts| == 2
    requires forall i :: 0 <= i < 2 ==>
      ts[i] == MapIfMember(slaves[i], 0, CursorOf(slaves, 0, LogOf(0), true, i), StateLogOf(0))
    ensures
      var len := StateLength(slaves, 0, LogOf(0), true);
      var bits := ArrivingBits(ts, memories, StateLogOf(0), seq(8 * len, _ => false), 2);
      0 in Scheduled(ts, 0, bits, 2) && 1 in Scheduled(ts, 0, bits, 2)
  {
    NeighboursArePrepared(slaves);
    OnlyMailboxNeedsNothing(slaves[0], 1);
    OnlyMailboxNeedsNothing(slaves[1], 0);
    assert OwnerIsFull(slaves, memories, 0, 0);
    FullMailboxesAreScheduled(slaves, memories, 0, LogOf(0), StateLogOf(0), true, ts, 0);
    FullMailboxesAreScheduled(slaves, memories, 0, LogOf(0), StateLogOf(0), true, ts, 1);
  }
}
