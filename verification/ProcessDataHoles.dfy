/** Holes in the shared mapping: one round of process data is a direct copy for a slave exactly when
    no slave in front of it leaves a hole, or nothing of the slave is mapped. */
module ProcessDataHoles {
  import opened Bytes
  import opened ProcessDataExchange
  import opened ProcessDataLayout
  import opened ProcessDataMapping

  predicate AllAre(data: seq<Byte>, b: Byte) {
    forall x :: 0 <= x < |data| ==> data[x] == b
  }

  function Filled(n: nat, b: Byte): (r: seq<Byte>)
    ensures |r| == n && AllAre(r, b)
  {
    seq(n, _ => b)
  }

  /** A memory that holds the buffers of the first `n` sync managers. */
  predicate Holds(ps: seq<SyncManager>, n: nat, memory: seq<Byte>)
    requires n <= |ps|
  {
    forall j :: 0 <= j < n ==> ps[j].adr + ps[j].len <= |memory|
  }

  /** How long such a memory is. */
  function Extent(ps: seq<SyncManager>, n: nat): (m: nat)
    requires n <= |ps|
    ensures forall j :: 0 <= j < n ==> ps[j].adr + ps[j].len <= m
  {
    if n == 0 then 0 else Max(Extent(ps, n - 1), ps[n - 1].adr + ps[n - 1].len)
  }

  // ---------------------------------------------------------------------------------------
  // Outputs
  // ---------------------------------------------------------------------------------------

  /** The last sync manager for outputs. */
  function LastOutput(ps: seq<SyncManager>, n: nat): (j: nat)
    requires n <= |ps| && Total(ps, n, true) > 0
    ensures j < n && ps[j].output
  {
    if ps[n - 1].output then n - 1 else LastOutput(ps, n - 1)
  }

  /** Nothing is stored over the first byte of its buffer. */
  lemma {:induction false} LastOutputIsStored(
      ps: seq<SyncManager>, n: nat, memory: seq<Byte>, slice: seq<Byte>, j: nat)
    requires n <= |ps| && 0 < Total(ps, n, true) <= |slice| && j == LastOutput(ps, n)
    requires Holds(ps, n, memory) && ps[j].len > 0
    ensures Total(ps, j, true) < |slice|
    ensures Scatter(ps, n, memory, slice)[ps[j].adr] == slice[Total(ps, j, true)]
  {
    if !ps[n - 1].output {
      LastOutputIsStored(ps, n - 1, memory, slice, j);
    }
  }

  /** Two slices that differ there are stored as different memories. */
  lemma SlicesDiffer(ps: seq<SyncManager>, memory: seq<Byte>, a: seq<Byte>, b: seq<Byte>, j: nat)
    requires |a| == |b| == Total(ps, |ps|, true) > 0 && Holds(ps, |ps|, memory) && j == LastOutput(ps, |ps|)
    requires ps[j].len > 0
    ensures Total(ps, j, true) < |a|
    ensures a[Total(ps, j, true)] != b[Total(ps, j, true)] ==>
      Scatter(ps, |ps|, memory, a) != Scatter(ps, |ps|, memory, b)
  {
    LastOutputIsStored(ps, |ps|, memory, a, j);
    LastOutputIsStored(ps, |ps|, memory, b, j);
  }

  // ---------------------------------------------------------------------------------------
  // Inputs
  // ---------------------------------------------------------------------------------------

  /** A memory of nothing but `b` gives nothing but `b`; an empty one counts as zeros. */
  lemma {:induction false} GatherAll(ps: seq<SyncManager>, n: nat, memory: seq<Byte>, b: Byte)
    requires n <= |ps| && AllAre(memory, b) && (Holds(ps, n, memory) || (memory == [] && b == 0))
    ensures AllAre(Gather(ps, n, memory), b)
  {
    if n > 0 {
      GatherAll(ps, n - 1, memory, b);
    }
  }

  /** Only slave `i` gives anything but zeros. */
  predicate OnlyOneGives(parts: seq<Part>, i: nat) {
    forall k :: 0 <= k < |parts| && k != i ==> AllAre(parts[k].data, 0)
  }

  /** Then the datagram stays zero in front of the window of slave `i`. */
  lemma {:induction false} ZeroInFront(parts: seq<Part>, payload: seq<Byte>, n: nat, i: nat, p: nat)
    requires n <= |parts| && i < |parts| && p < |payload| && payload[p] == 0
    requires OnlyOneGives(parts, i) && p < parts[i].at
    ensures Collected(parts, payload, n)[p] == 0
  {
    if n > 0 {
      ZeroInFront(parts, payload, n - 1, i, p);
    }
  }

  // ---------------------------------------------------------------------------------------
  // One round
  // ---------------------------------------------------------------------------------------

  /** Memories and an image for one round; that of slave `i` holds its buffers. */
  predicate Suits(slaves: seq<Slave>, group: nat, i: nat, memories: seq<seq<Byte>>, image: seq<Byte>) {
    && i < |slaves| == |memories| && 2 * GroupShared(slaves, group, |slaves|) <= |image|
    && Holds(Carried(slaves[i]), |Carried(slaves[i])|, memories[i])
  }

  /** The round is a direct copy for slave `i`, on the slaves as the overlapping mapping leaves them
      and with the working counter it expects. */
  predicate Copies(
      slaves: seq<Slave>, group: nat, log: nat, stateLog: nat, skip: bool, i: nat, memories: seq<seq<Byte>>,
      image: seq<Byte>)
    requires Suits(slaves, group, i, memories, image)
  {
    DirectCopy(
      MapAll(slaves, group, log, stateLog), slaves, memories, group, log, image, skip,
      Here(slaves, group, log, |slaves|).lrw, i)
  }

  /** Behind a hole the slices are in front of where the windows are. */
  predicate Lags(t: Slave, s: Slave, len: nat, pos: nat) {
    && t.pdout.len == SlaveMapped(s, true) && (t.pdout.len > 0 ==> t.pdout.pos == pos)
    && t.pdin.len == SlaveMapped(s, false) && (t.pdin.len > 0 ==> t.pdin.pos == len + pos)
  }

  lemma HoleIsLag(slaves: seq<Slave>, group: nat, log: nat, stateLog: nat, i: nat, len: nat) returns (pos: nat)
    requires Ready(slaves, group, log, stateLog) && i < |slaves| && slaves[i].group == group
    requires !InStep(slaves, group, i) && len == GroupShared(slaves, group, |slaves|)
    ensures pos < GroupShared(slaves, group, i)
    ensures Lags(MapAll(slaves, group, log, stateLog)[i], slaves[i], len, pos)
  {
    pos := Here(slaves, group, log, i).imageOut;
    SlicesAt(slaves[i], Here(slaves, group, log, i), stateLog);
    SharedCursor(slaves, group, log, len, i);
    WhenImageFollowsLog(slaves, group, log, len, i);
  }

  /** With outputs: a one in the image at the first byte of the window of its last sync manager for
      outputs is stored, although it is not in the slice. */
  lemma OutputsLag(
      ts: seq<Slave>, slaves: seq<Slave>, group: nat, log: nat, skip: bool, expected: nat, i: nat, len: nat, pos: nat)
    returns (memories: seq<seq<Byte>>, image: seq<Byte>)
    requires Network(ts, slaves, group, log) && i < |slaves| && slaves[i].group == group
    requires len == GroupShared(slaves, group, |slaves|) && pos < GroupShared(slaves, group, i)
    requires Lags(ts[i], slaves[i], len, pos) && SlaveMapped(slaves[i], true) > 0
    ensures Suits(slaves, group, i, memories, image)
    ensures !DirectCopy(ts, slaves, memories, group, log, image, skip, expected, i)
  {
    var ps, at, n := Carried(slaves[i]), GroupShared(slaves, group, i), SlaveMapped(slaves[i], true);
    CarriedTotal(slaves[i], true);
    var j := LastOutput(ps, |ps|);
    var one := at + Total(ps, j, true);
    memories := seq(|slaves|, _ => Filled(Extent(ps, |ps|), 0));
    image := seq(2 * len, p => if p == one then 1 else 0);
    OutputsArrive(ts, slaves, memories, group, log, image, i, Outgoing(image, len, len), at, n);
    SlicesDiffer(ps, memories[i], image[at..at + n], SliceOf(image, ts[i].pdout), j);
    assert image[at..at + n][one - at] == 1;
    assert SliceOf(image, ts[i].pdout)[one - at] == image[pos + (one - at)] == 0;
  }

  lemma ZeroIsReturned(image: seq<Byte>, back: seq<Byte>, pos: nat, a: Area)
    requires 2 * |back| <= |image| && pos < |back| && back[pos] == 0 && a.len > 0 && a.pos == |back| + pos
    ensures
      var slice := SliceOf(Returned(image, |back|, |back|, back, true), a);
      |slice| > 0 && slice[0] == 0
  {
  }

  lemma OnesAreGiven(s: Slave, ones: seq<Byte>)
    requires SlaveMapped(s, false) > 0 && AllAre(ones, 1) && Holds(Carried(s), |Carried(s)|, ones)
    ensures InputsOf(s, ones)[0] == 1
  {
    GatherAll(Carried(s), |Carried(s)|, ones, 1);
  }

  /** With no outputs but inputs: where the slice of a slave starts that gives nothing but ones, there
      is a zero. */
  lemma InputsLag(
      ts: seq<Slave>, slaves: seq<Slave>, group: nat, log: nat, skip: bool, expected: nat, i: nat, len: nat, pos: nat)
    returns (memories: seq<seq<Byte>>, image: seq<Byte>)
    requires Network(ts, slaves, group, log) && i < |slaves| && slaves[i].group == group
    requires len == GroupShared(slaves, group, |slaves|) && pos < GroupShared(slaves, group, i)
    requires Lags(ts[i], slaves[i], len, pos) && SlaveMapped(slaves[i], false) > 0
    ensures Suits(slaves, group, i, memories, image)
    ensures !DirectCopy(ts, slaves, memories, group, log, image, skip, expected, i)
  {
    var ps := Carried(slaves[i]);
    var ones := Filled(Extent(ps, |ps|), 1);
    memories := seq(|slaves|, k => if k == i then ones else []);
    image := Filled(2 * len, 0);
    var payload := Outgoing(image, len, len);
    var back := Arriving(ts, memories, log, payload, |slaves|);
    ZeroComesBack(ts, slaves, memories, group, log, i, payload, pos);
    ZeroIsReturned(image, back, pos, ts[i].pdin);
    OnesAreGiven(slaves[i], ones);
    assert memories[i] == ones;
  }

  lemma ZeroComesBack(
      ts: seq<Slave>, slaves: seq<Slave>, memories: seq<seq<Byte>>, group: nat, log: nat, i: nat, payload: seq<Byte>,
      pos: nat)
    requires Network(ts, slaves, group, log) && i < |slaves| == |memories|
    requires |payload| == GroupShared(slaves, group, |slaves|) && AllAre(payload, 0)
    requires forall k :: 0 <= k < |slaves| && k != i ==> memories[k] == []
    requires pos < GroupShared(slaves, group, i)
    ensures pos < |payload| && Arriving(ts, memories, log, payload, |slaves|)[pos] == 0
  {
    var parts := PartsOf(slaves, memories, group);
    GroupGrows(slaves, group, i, |slaves|, true);
    ArrivingIsCollected(ts, slaves, memories, group, log, payload, |slaves|, parts);
    forall k | 0 <= k < |parts| && k != i ensures AllAre(parts[k].data, 0) {
      GatherAll(Carried(slaves[k]), |Carried(slaves[k])|, [], 0);
    }
    ZeroInFront(parts, payload, |slaves|, i, pos);
  }

  /** A sync manager that is mapped has data. */
  lemma SomethingIsMapped(s: Slave)
    requires Carried(s) != []
    ensures SlaveMapped(s, true) > 0 || SlaveMapped(s, false) > 0
  {
    var ps := Carried(s);
    CarriedTotal(s, true);
    CarriedTotal(s, false);
    TotalGrows(ps, 1, |ps|, ps[0].output);
    assert Total(ps, 1, ps[0].output) == ps[0].len;
  }

  lemma HoleBreaksTheRound(slaves: seq<Slave>, group: nat, log: nat, stateLog: nat, skip: bool, i: nat)
    returns (memories: seq<seq<Byte>>, image: seq<Byte>)
    requires Ready(slaves, group, log, stateLog) && i < |slaves| && slaves[i].group == group
    requires !InStep(slaves, group, i)
    ensures Suits(slaves, group, i, memories, image)
    ensures !Copies(slaves, group, log, stateLog, skip, i, memories, image)
  {
    var ts, len := MapAll(slaves, group, log, stateLog), GroupShared(slaves, group, |slaves|);
    var expected := Here(slaves, group, log, |slaves|).lrw;
    MappingMakesNetwork(slaves, group, log, stateLog);
    SomethingIsMapped(slaves[i]);
    var pos := HoleIsLag(slaves, group, log, stateLog, i, len);
    if SlaveMapped(slaves[i], true) > 0 {
      memories, image := OutputsLag(ts, slaves, group, log, skip, expected, i, len, pos);
    } else {
      memories, image := InputsLag(ts, slaves, group, log, skip, expected, i, len, pos);
    }
  }

  /** Main theorem: slave `i` of the group exchanges by direct copy, for every image and all memories
      that hold its buffers, if and only if no slave of the group in front of it leaves a hole, or
      nothing of it is mapped. */
  lemma WhenRoundIsDirectCopy(slaves: seq<Slave>, group: nat, log: nat, stateLog: nat, skip: bool, i: nat)
    requires Ready(slaves, group, log, stateLog) && i < |slaves| && slaves[i].group == group
    ensures
      (forall memories, image | Suits(slaves, group, i, memories, image) ::
        Copies(slaves, group, log, stateLog, skip, i, memories, image))
      <==> InStep(slaves, group, i)
  {
    if InStep(slaves, group, i) {
      forall memories, image | Suits(slaves, group, i, memories, image)
        ensures Copies(slaves, group, log, stateLog, skip, i, memories, image)
      {
        LrwRoundIsDirectCopy(slaves, memories, group, log, stateLog, image, skip, i);
      }
    } else {
      var memories, image := HoleBreaksTheRound(slaves, group, log, stateLog, skip, i);
    }
  }
}
