/** One round of process data: a datagram that reads and writes logical memory passes all slaves,
    and each of them exchanges its buffers with its windows. */
module ProcessDataExchange {
  import opened Bytes
  import opened ProcessDataLayout
  import opened ProcessDataMapping

  function ByteAt(memory: seq<Byte>, a: nat): Byte {
    if a < |memory| then memory[a] else 0
  }

  function ReadAt(memory: seq<Byte>, adr: nat, len: nat): (r: seq<Byte>)
    ensures |r| == len && forall i :: 0 <= i < len ==> r[i] == ByteAt(memory, adr + i)
  {
    seq(len, i requires 0 <= i < len => ByteAt(memory, adr + i))
  }

  /** Bytes with others stored over them from `at` on; what reaches behind the end is lost. */
  function Overwrite(data: seq<Byte>, at: nat, patch: seq<Byte>): (r: seq<Byte>)
    ensures |r| == |data|
    ensures forall p :: 0 <= p < |data| ==> r[p] == if at <= p < at + |patch| then patch[p - at] else data[p]
  {
    seq(|data|, p requires 0 <= p < |data| => if at <= p < at + |patch| then patch[p - at] else data[p])
  }

  lemma OverwriteTwice(data: seq<Byte>, at: nat, a: seq<Byte>, b: seq<Byte>)
    ensures Overwrite(Overwrite(data, at, a), at + |a|, b) == Overwrite(data, at, a + b)
  {
  }

  lemma OverwriteNothing(data: seq<Byte>, at: nat)
    ensures Overwrite(data, at, []) == data
  {
  }

  /** Bytes stored at a place. */
  datatype Part = Part(at: nat, data: seq<Byte>)

  function End(p: Part): nat { p.at + |p.data| }

  /** Some bytes with the first `i` parts stored in them. */
  function Collected(parts: seq<Part>, payload: seq<Byte>, i: nat): (r: seq<Byte>)
    requires i <= |parts|
    ensures |r| == |payload|
  {
    if i == 0 then payload else Overwrite(Collected(parts, payload, i - 1), parts[i - 1].at, parts[i - 1].data)
  }

  /** Every part ends in front of the next one. */
  predicate Ordered(parts: seq<Part>) {
    forall i, j :: 0 <= i < j < |parts| ==> End(parts[i]) <= parts[j].at
  }

  /** Behind the parts stored so far nothing has changed. */
  lemma {:induction false} RestIsUntouched(parts: seq<Part>, payload: seq<Byte>, i: nat, at: nat)
    requires Ordered(parts) && i <= |parts| && at <= |payload| && (i > 0 ==> End(parts[i - 1]) <= at)
    ensures Collected(parts, payload, i)[at..] == payload[at..]
  {
    if i > 0 {
      RestIsUntouched(parts, payload, i - 1, at);
      var before := Collected(parts, payload, i - 1);
      assert Collected(parts, payload, i)[at..] == before[at..];
    }
  }

  /** What has been stored is kept. */
  lemma {:induction false} PartIsKept(parts: seq<Part>, payload: seq<Byte>, i: nat, n: nat, at: nat, data: seq<Byte>)
    requires Ordered(parts) && i < n <= |parts| && parts[i] == Part(at, data) && at + |data| <= |payload|
    ensures Collected(parts, payload, n)[at..at + |data|] == data
    decreases n
  {
    if i < n - 1 {
      PartIsKept(parts, payload, i, n - 1, at, data);
      var before := Collected(parts, payload, n - 1);
      assert End(parts[i]) <= parts[n - 1].at;
      assert Collected(parts, payload, n)[at..at + |data|] == before[at..at + |data|];
    }
  }

  // ---------------------------------------------------------------------------------------
  // What a slave does with a datagram
  // ---------------------------------------------------------------------------------------

  predicate Bytewise(f: Fmmu, kind: Kind) {
    f.active && f.kind == kind && f.logBitStart == 0 && f.logBitStop == 7
  }

  /** An FMMU for outputs stores the bytes of its window in the memory of the slave. */
  function Take(f: Fmmu, memory: seq<Byte>, payload: seq<Byte>, adr: nat): (r: seq<Byte>)
    ensures |r| == |memory|
  {
    if Bytewise(f, Outputs) then
      seq(|memory|, a requires 0 <= a < |memory| =>
        if f.phys <= a < f.phys + f.logLen && adr <= f.log + (a - f.phys) < adr + |payload| then
          payload[f.log + (a - f.phys) - adr]
        else memory[a])
    else memory
  }

  /** An FMMU for inputs puts bytes of the memory into its window. */
  function Give(f: Fmmu, memory: seq<Byte>, payload: seq<Byte>, adr: nat): (r: seq<Byte>)
    ensures |r| == |payload|
  {
    if Bytewise(f, Inputs) then
      seq(|payload|, p requires 0 <= p < |payload| =>
        if f.log <= adr + p < f.log + f.logLen then ByteAt(memory, f.phys + (adr + p - f.log)) else payload[p])
    else payload
  }

  /** The first `n` FMMUs of a slave, one after the other.  Outputs are taken from the datagram as
      it arrives, and inputs from the memory as it was, put into the datagram as it leaves. */
  function TakeAll(fmmus: seq<Fmmu>, n: nat, memory: seq<Byte>, payload: seq<Byte>, adr: nat): (r: seq<Byte>)
    requires n <= |fmmus|
    ensures |r| == |memory|
  {
    if n == 0 then memory else Take(fmmus[n - 1], TakeAll(fmmus, n - 1, memory, payload, adr), payload, adr)
  }

  function GiveAll(fmmus: seq<Fmmu>, n: nat, memory: seq<Byte>, payload: seq<Byte>, adr: nat): (r: seq<Byte>)
    requires n <= |fmmus|
    ensures |r| == |payload|
  {
    if n == 0 then payload else Give(fmmus[n - 1], memory, GiveAll(fmmus, n - 1, memory, payload, adr), adr)
  }

  /** One of the first `n` FMMUs answers to the datagram in one direction. */
  predicate Answers(fmmus: seq<Fmmu>, n: nat, kind: Kind, adr: nat, len: nat)
    requires n <= |fmmus|
  {
    n > 0 && ((fmmus[n - 1].kind == kind && Meets(fmmus[n - 1], adr, len)) || Answers(fmmus, n - 1, kind, adr, len))
  }

  /** The datagram as it arrives at slave `i`. */
  function Arriving(slaves: seq<Slave>, memories: seq<seq<Byte>>, adr: nat, payload: seq<Byte>, i: nat): (r: seq<Byte>)
    requires i <= |slaves| == |memories|
    ensures |r| == |payload|
  {
    if i == 0 then payload
    else
      var f := slaves[i - 1].fmmus;
      GiveAll(f, |f|, memories[i - 1], Arriving(slaves, memories, adr, payload, i - 1), adr)
  }

  /** The memory of slave `i` when the datagram has passed. */
  function MemoryAfter(slaves: seq<Slave>, memories: seq<seq<Byte>>, adr: nat, payload: seq<Byte>, i: nat): seq<Byte>
    requires i < |slaves| == |memories|
  {
    var f := slaves[i].fmmus;
    TakeAll(f, |f|, memories[i], Arriving(slaves, memories, adr, payload, i), adr)
  }

  /** The working counter behind `i` slaves: a slave adds 2 when it takes outputs and 1 when it
      gives inputs. */
  function WorkingCounter(slaves: seq<Slave>, adr: nat, len: nat, i: nat): nat
    requires i <= |slaves|
  {
    if i == 0 then 0
    else
      var f := slaves[i - 1].fmmus;
      WorkingCounter(slaves, adr, len, i - 1)
      + (if Answers(f, |f|, Outputs, adr, len) then 2 else 0) + (if Answers(f, |f|, Inputs, adr, len) then 1 else 0)
  }

  /** The working counter behind `i` slaves of a command that only reads, or only writes. */
  function CommandCounter(slaves: seq<Slave>, kind: Kind, adr: nat, len: nat, i: nat): nat
    requires i <= |slaves|
  {
    if i == 0 then 0
    else
      var f := slaves[i - 1].fmmus;
      CommandCounter(slaves, kind, adr, len, i - 1) + if Answers(f, |f|, kind, adr, len) then 1 else 0
  }

  // ---------------------------------------------------------------------------------------
  // Direct copies
  // ---------------------------------------------------------------------------------------

  /** Storing a slice of outputs in the buffers of the first `n` sync managers. */
  function Scatter(ps: seq<SyncManager>, n: nat, memory: seq<Byte>, slice: seq<Byte>): (r: seq<Byte>)
    requires n <= |ps| && Total(ps, n, true) <= |slice|
    ensures |r| == |memory|
  {
    if n == 0 then memory
    else if ps[n - 1].output then
      Overwrite(Scatter(ps, n - 1, memory, slice), ps[n - 1].adr, slice[Total(ps, n - 1, true)..Total(ps, n, true)])
    else Scatter(ps, n - 1, memory, slice)
  }

  /** Collecting a slice of inputs from the buffers of the first `n` sync managers. */
  function Gather(ps: seq<SyncManager>, n: nat, memory: seq<Byte>): (r: seq<Byte>)
    requires n <= |ps|
    ensures |r| == Total(ps, n, false)
  {
    if n == 0 then []
    else Gather(ps, n - 1, memory) + if ps[n - 1].output then [] else ReadAt(memory, ps[n - 1].adr, ps[n - 1].len)
  }

  /** The sync managers of a slave that found an FMMU. */
  function Carried(s: Slave): (ps: seq<SyncManager>)
    ensures |ps| == Mapped(s, |Process(s)|)
    ensures forall j :: 0 <= j < |ps| ==> ps[j] == Process(s)[j]
  {
    Process(s)[..Mapped(s, |Process(s)|)]
  }

  lemma {:induction false} PrefixTotal(ps: seq<SyncManager>, m: nat, n: nat, output: bool)
    requires n <= m <= |ps|
    ensures Total(ps[..m], n, output) == Total(ps, n, output) && Count(ps[..m], n, output) == Count(ps, n, output)
  {
    if n > 0 {
      PrefixTotal(ps, m, n - 1, output);
    }
  }

  /** They are what counts as mapped. */
  lemma CarriedTotal(s: Slave, output: bool)
    ensures Total(Carried(s), |Carried(s)|, output) == SlaveMapped(s, output) <= SlaveTotal(s, output)
    ensures Count(Carried(s), |Carried(s)|, output) == SlaveCount(s, output)
  {
    PrefixTotal(Process(s), |Carried(s)|, |Carried(s)|, output);
    MappedIsLess(s, output);
  }

  /** The inputs of a slave. */
  function InputsOf(s: Slave, memory: seq<Byte>): (r: seq<Byte>)
    ensures |r| == SlaveMapped(s, false) <= SlaveTotal(s, false)
  {
    CarriedTotal(s, false);
    Gather(Carried(s), |Carried(s)|, memory)
  }

  // ---------------------------------------------------------------------------------------
  // One slave
  // ---------------------------------------------------------------------------------------

  /** FMMUs that the datagram does not meet do nothing. */
  lemma {:induction false} RestDoesNothing(
      fmmus: seq<Fmmu>, n: nat, m: nat, memory: seq<Byte>, payload: seq<Byte>, adr: nat)
    requires n <= m <= |fmmus|
    requires forall k :: n <= k < m ==> !Meets(fmmus[k], adr, |payload|)
    ensures TakeAll(fmmus, m, memory, payload, adr) == TakeAll(fmmus, n, memory, payload, adr)
    ensures GiveAll(fmmus, m, memory, payload, adr) == GiveAll(fmmus, n, memory, payload, adr)
    decreases m
  {
    if n < m {
      RestDoesNothing(fmmus, n, m - 1, memory, payload, adr);
      var before := TakeAll(fmmus, m - 1, memory, payload, adr);
      assert Take(fmmus[m - 1], before, payload, adr) == before;
      var leaving := GiveAll(fmmus, m - 1, memory, payload, adr);
      assert Give(fmmus[m - 1], memory, leaving, adr) == leaving;
    }
  }

  lemma {:induction false} RestDoesNotAnswer(fmmus: seq<Fmmu>, n: nat, m: nat, kind: Kind, adr: nat, len: nat)
    requires n <= m <= |fmmus| && forall k :: n <= k < m ==> !Meets(fmmus[k], adr, len)
    ensures Answers(fmmus, m, kind, adr, len) == Answers(fmmus, n, kind, adr, len)
    decreases m
  {
    if n < m {
      RestDoesNotAnswer(fmmus, n, m - 1, kind, adr, len);
    }
  }

  /** A slave that the datagram does not meet. */
  lemma OtherDoesNothing(s: Slave, memory: seq<Byte>, payload: seq<Byte>, adr: nat)
    requires Avoids(s, adr, |payload|)
    ensures TakeAll(s.fmmus, |s.fmmus|, memory, payload, adr) == memory
    ensures GiveAll(s.fmmus, |s.fmmus|, memory, payload, adr) == payload
  {
    RestDoesNothing(s.fmmus, 0, |s.fmmus|, memory, payload, adr);
  }

  /** One byte under an FMMU whose window lies in the datagram. */
  lemma TakeAt(f: Fmmu, memory: seq<Byte>, payload: seq<Byte>, adr: nat, part: seq<Byte>, a: nat)
    requires Bytewise(f, Outputs) && adr <= f.log && f.log - adr + f.logLen <= |payload| && a < |memory|
    requires part == payload[f.log - adr..f.log - adr + f.logLen]
    ensures Take(f, memory, payload, adr)[a]
      == if f.phys <= a < f.phys + f.logLen then part[a - f.phys] else memory[a]
  {
    if f.phys <= a < f.phys + f.logLen {
      assert part[a - f.phys] == payload[f.log - adr + (a - f.phys)];
    }
  }

  lemma TakeWindow(f: Fmmu, memory: seq<Byte>, payload: seq<Byte>, adr: nat, part: seq<Byte>)
    requires Bytewise(f, Outputs) && adr <= f.log && f.log - adr + f.logLen <= |payload|
    requires part == payload[f.log - adr..f.log - adr + f.logLen]
    ensures Take(f, memory, payload, adr) == Overwrite(memory, f.phys, part)
  {
    var after, expected := Take(f, memory, payload, adr), Overwrite(memory, f.phys, part);
    forall a | 0 <= a < |memory| ensures after[a] == expected[a] {
      TakeAt(f, memory, payload, adr, part, a);
    }
  }

  lemma GiveWindow(f: Fmmu, memory: seq<Byte>, payload: seq<Byte>, adr: nat)
    requires Bytewise(f, Inputs) && adr <= f.log && f.log - adr + f.logLen <= |payload|
    ensures Give(f, memory, payload, adr) == Overwrite(payload, f.log - adr, ReadAt(memory, f.phys, f.logLen))
  {
  }

  /** An FMMU that connects the buffer of a sync manager with whole bytes from `log` on. */
  predicate Connects(f: Fmmu, sm: SyncManager, log: nat) {
    && Bytewise(f, if sm.output then Outputs else Inputs)
    && f.log == log && f.logLen == sm.len && f.phys == sm.adr && sm.len > 0
  }

  /** FMMUs that connect the sync managers one after the other, each direction by itself. */
  predicate Wired(f: seq<Fmmu>, ps: seq<SyncManager>, logOut: nat, logIn: nat) {
    |ps| <= |f| && forall j :: 0 <= j < |ps| ==> Connects(f[j], ps[j], Start(ps, j, logOut, logIn))
  }

  lemma SliceOfSlice(payload: seq<Byte>, at: nat, slice: seq<Byte>, from: nat, to: nat)
    requires at + |slice| <= |payload| && slice == payload[at..at + |slice|] && from <= to <= |slice|
    ensures slice[from..to] == payload[at + from..at + to]
  {
    forall p | 0 <= p < to - from ensures slice[from..to][p] == payload[at + from..at + to][p] {
      assert slice[from + p] == payload[at..at + |slice|][from + p];
    }
  }

  /** The window of one sync manager for outputs takes what a direct copy stores. */
  lemma TakeIsScatter(
      f: Fmmu, ps: seq<SyncManager>, adr: nat, at: nat, n: nat, memory: seq<Byte>, payload: seq<Byte>,
      slice: seq<Byte>, before: seq<Byte>)
    requires 0 < n <= |ps| && ps[n - 1].output && Connects(f, ps[n - 1], adr + at + Total(ps, n - 1, true))
    requires at + |slice| <= |payload| && slice == payload[at..at + |slice|]
    requires Total(ps, n, true) <= |slice| && before == Scatter(ps, n - 1, memory, slice)
    ensures Take(f, before, payload, adr) == Scatter(ps, n, memory, slice)
  {
    var from, to := Total(ps, n - 1, true), Total(ps, n, true);
    SliceOfSlice(payload, at, slice, from, to);
    TakeWindow(f, before, payload, adr, slice[from..to]);
  }

  /** The windows of the first `n` sync managers take what a direct copy stores. */
  lemma {:induction false} TakingIsScattering(
      f: seq<Fmmu>, ps: seq<SyncManager>, adr: nat, at: nat, logIn: nat, n: nat,
      memory: seq<Byte>, payload: seq<Byte>, slice: seq<Byte>)
    requires Wired(f, ps, adr + at, logIn) && n <= |ps|
    requires at + |slice| <= |payload| && slice == payload[at..at + |slice|]
    requires Total(ps, n, true) <= |slice|
    ensures TakeAll(f, n, memory, payload, adr) == Scatter(ps, n, memory, slice)
  {
    if n > 0 {
      TakingIsScattering(f, ps, adr, at, logIn, n - 1, memory, payload, slice);
      assert Connects(f[n - 1], ps[n - 1], Start(ps, n - 1, adr + at, logIn));
      if ps[n - 1].output {
        TakeIsScatter(
          f[n - 1], ps, adr, at, n, memory, payload, slice, TakeAll(f, n - 1, memory, payload, adr));
      }
    }
  }

  /** The windows of the first `n` sync managers give what a direct copy collects. */
  lemma {:induction false} GivingIsGathering(
      f: seq<Fmmu>, ps: seq<SyncManager>, adr: nat, at: nat, logOut: nat, n: nat, memory: seq<Byte>, payload: seq<Byte>)
    requires Wired(f, ps, logOut, adr + at) && n <= |ps|
    requires at + Total(ps, n, false) <= |payload|
    ensures GiveAll(f, n, memory, payload, adr) == Overwrite(payload, at, Gather(ps, n, memory))
  {
    if n == 0 {
      OverwriteNothing(payload, at);
    } else {
      GivingIsGathering(f, ps, adr, at, logOut, n - 1, memory, payload);
      var before := Gather(ps, n - 1, memory);
      if ps[n - 1].output {
        assert Gather(ps, n, memory) == before;
      } else {
        GiveWindow(f[n - 1], memory, Overwrite(payload, at, before), adr);
        OverwriteTwice(payload, at, before, ReadAt(memory, ps[n - 1].adr, ps[n - 1].len));
      }
    }
  }

  /** They answer in a direction exactly when there is a sync manager of that direction. */
  lemma {:induction false} AnsweringIsCounting(
      f: seq<Fmmu>, ps: seq<SyncManager>, adr: nat, at: nat, n: nat, len: nat, output: bool)
    requires Wired(f, ps, adr + at, adr + at) && n <= |ps|
    requires at + Total(ps, n, false) <= len && at + Total(ps, n, true) <= len
    ensures Answers(f, n, if output then Outputs else Inputs, adr, len) <==> Count(ps, n, output) > 0
  {
    if n > 0 {
      AnsweringIsCounting(f, ps, adr, at, n - 1, len, output);
    }
  }

  /** How a slave of the group answers to a datagram of `len` bytes at `adr`: its sync managers
      have their windows `at` bytes behind the start, and nothing else in it answers. */
  predicate Attached(t: Slave, s: Slave, adr: nat, len: nat, at: nat) {
    var ps := Carried(s);
    && Wired(t.fmmus, ps, adr + at, adr + at)
    && (forall k :: |ps| <= k < |t.fmmus| ==> !Meets(t.fmmus[k], adr, len))
    && at + SlaveMapped(s, true) <= len && at + SlaveMapped(s, false) <= len
  }

  /** Its slices lie in the image where its windows lie in logical memory, the inputs behind the
      `len` bytes of the outputs. */
  predicate Aligned(t: Slave, s: Slave, len: nat, at: nat) {
    && t.pdout.len == SlaveMapped(s, true) && (t.pdout.len > 0 ==> t.pdout.pos == at)
    && t.pdin.len == SlaveMapped(s, false) && (t.pdin.len > 0 ==> t.pdin.pos == len + at)
  }

  lemma SlaveGives(t: Slave, s: Slave, adr: nat, at: nat, memory: seq<Byte>, payload: seq<Byte>)
    requires Attached(t, s, adr, |payload|, at)
    ensures GiveAll(t.fmmus, |t.fmmus|, memory, payload, adr) == Overwrite(payload, at, InputsOf(s, memory))
  {
    RestDoesNothing(t.fmmus, |Carried(s)|, |t.fmmus|, memory, payload, adr);
    CarriedTotal(s, false);
    GivingIsGathering(t.fmmus, Carried(s), adr, at, adr + at, |Carried(s)|, memory, payload);
  }

  lemma SlaveTakes(
      t: Slave, s: Slave, adr: nat, at: nat, memory: seq<Byte>, payload: seq<Byte>, slice: seq<Byte>)
    requires Attached(t, s, adr, |payload|, at) && |slice| == SlaveMapped(s, true)
    requires slice == payload[at..at + |slice|]
    ensures Total(Carried(s), |Carried(s)|, true) == |slice|
    ensures TakeAll(t.fmmus, |t.fmmus|, memory, payload, adr) == Scatter(Carried(s), |Carried(s)|, memory, slice)
  {
    RestDoesNothing(t.fmmus, |Carried(s)|, |t.fmmus|, memory, payload, adr);
    CarriedTotal(s, true);
    TakingIsScattering(t.fmmus, Carried(s), adr, at, adr + at, |Carried(s)|, memory, payload, slice);
  }

  lemma SlaveAnswers(t: Slave, s: Slave, adr: nat, len: nat, at: nat, output: bool)
    requires Attached(t, s, adr, len, at)
    ensures Answers(t.fmmus, |t.fmmus|, if output then Outputs else Inputs, adr, len)
      <==> SlaveCount(s, output) > 0
  {
    RestDoesNotAnswer(t.fmmus, |Carried(s)|, |t.fmmus|, if output then Outputs else Inputs, adr, len);
    CarriedTotal(s, true);
    CarriedTotal(s, false);
    AnsweringIsCounting(t.fmmus, Carried(s), adr, at, |Carried(s)|, len, output);
  }

  // ---------------------------------------------------------------------------------------
  // All slaves
  // ---------------------------------------------------------------------------------------

  /** Slave `i` on the wire: attached behind the slaves of the group in front of it, or deaf. */
  predicate Connected(t: Slave, slaves: seq<Slave>, group: nat, adr: nat, i: nat)
    requires i < |slaves|
  {
    var len := GroupShared(slaves, group, |slaves|);
    if slaves[i].group == group then Attached(t, slaves[i], adr, len, GroupShared(slaves, group, i))
    else Avoids(t, adr, len)
  }

  predicate Network(ts: seq<Slave>, slaves: seq<Slave>, group: nat, adr: nat) {
    && |ts| == |slaves|
    && forall i {:trigger Connected(ts[i], slaves, group, adr, i)} :: 0 <= i < |slaves| ==>
      Connected(ts[i], slaves, group, adr, i)
  }

  /** Nothing in front of the parts has changed either. */
  lemma {:induction false} FrontIsUntouched(parts: seq<Part>, payload: seq<Byte>, i: nat, n: nat)
    requires i <= |parts| && n <= |payload| && forall k :: 0 <= k < i ==> parts[k].at >= n
    ensures Collected(parts, payload, i)[..n] == payload[..n]
  {
    if i > 0 {
      FrontIsUntouched(parts, payload, i - 1, n);
      var before := Collected(parts, payload, i - 1);
      assert Collected(parts, payload, i)[..n] == before[..n];
    }
  }

  /** What slave `i` puts into the datagram. */
  function PartOf(slaves: seq<Slave>, memories: seq<seq<Byte>>, group: nat, i: nat): Part
    requires i < |slaves| == |memories|
  {
    Part(GroupShared(slaves, group, i), if slaves[i].group == group then InputsOf(slaves[i], memories[i]) else [])
  }

  function PartsOf(slaves: seq<Slave>, memories: seq<seq<Byte>>, group: nat): (parts: seq<Part>)
    requires |slaves| == |memories|
    ensures |parts| == |slaves| && forall i :: 0 <= i < |slaves| ==> parts[i] == PartOf(slaves, memories, group, i)
  {
    seq(|slaves|, i requires 0 <= i < |slaves| => PartOf(slaves, memories, group, i))
  }

  /** The slaves put their inputs one behind the other. */
  lemma PartsAreOrdered(slaves: seq<Slave>, memories: seq<seq<Byte>>, group: nat)
    requires |slaves| == |memories|
    ensures Ordered(PartsOf(slaves, memories, group))
  {
    var parts := PartsOf(slaves, memories, group);
    forall i, j | 0 <= i < j < |parts| ensures End(parts[i]) <= parts[j].at {
      GroupGrows(slaves, group, i, j, false);
    }
  }

  /** What slave `i` does to the datagram. */
  lemma Leaving(
      t: Slave, slaves: seq<Slave>, memories: seq<seq<Byte>>, group: nat, adr: nat, i: nat, part: Part,
      arriving: seq<Byte>)
    requires i < |slaves| == |memories| && Connected(t, slaves, group, adr, i)
    requires part == PartOf(slaves, memories, group, i) && |arriving| == GroupShared(slaves, group, |slaves|)
    ensures GiveAll(t.fmmus, |t.fmmus|, memories[i], arriving, adr) == Overwrite(arriving, part.at, part.data)
  {
    if slaves[i].group == group {
      SlaveGives(t, slaves[i], adr, GroupShared(slaves, group, i), memories[i], arriving);
    } else {
      OtherDoesNothing(t, memories[i], arriving, adr);
      OverwriteNothing(arriving, part.at);
    }
  }

  /** Slave `i` does nothing but store a part in the datagram. */
  predicate Stores(ts: seq<Slave>, memories: seq<seq<Byte>>, adr: nat, payload: seq<Byte>, i: nat, part: Part)
    requires i < |ts| == |memories|
  {
    Arriving(ts, memories, adr, payload, i + 1)
    == Overwrite(Arriving(ts, memories, adr, payload, i), part.at, part.data)
  }

  lemma {:induction false} StoringIsCollecting(
      ts: seq<Slave>, memories: seq<seq<Byte>>, adr: nat, payload: seq<Byte>, parts: seq<Part>, i: nat)
    requires i <= |ts| == |memories| == |parts|
    requires forall k :: 0 <= k < i ==> Stores(ts, memories, adr, payload, k, parts[k])
    ensures Arriving(ts, memories, adr, payload, i) == Collected(parts, payload, i)
  {
    if i > 0 {
      StoringIsCollecting(ts, memories, adr, payload, parts, i - 1);
      assert Stores(ts, memories, adr, payload, i - 1, parts[i - 1]);
    }
  }

  /** The datagram arrives at slave `i` with the inputs of the slaves in front of it. */
  lemma ArrivingIsCollected(
      ts: seq<Slave>, slaves: seq<Slave>, memories: seq<seq<Byte>>, group: nat, adr: nat, payload: seq<Byte>, i: nat,
      parts: seq<Part>)
    requires Network(ts, slaves, group, adr) && i <= |slaves| == |memories|
    requires parts == PartsOf(slaves, memories, group) && |payload| == GroupShared(slaves, group, |slaves|)
    ensures Arriving(ts, memories, adr, payload, i) == Collected(parts, payload, i)
  {
    forall k | 0 <= k < i ensures Stores(ts, memories, adr, payload, k, parts[k]) {
      Leaving(ts[k], slaves, memories, group, adr, k, parts[k], Arriving(ts, memories, adr, payload, k));
    }
    StoringIsCollecting(ts, memories, adr, payload, parts, i);
  }

  /** At slave `i`, everything from its own window on arrives as it was sent. */
  lemma ArrivesUntouched(
      ts: seq<Slave>, slaves: seq<Slave>, memories: seq<seq<Byte>>, group: nat, adr: nat, payload: seq<Byte>, i: nat,
      at: nat)
    requires Network(ts, slaves, group, adr) && i < |slaves| == |memories|
    requires |payload| == GroupShared(slaves, group, |slaves|) && at == GroupShared(slaves, group, i) <= |payload|
    ensures Arriving(ts, memories, adr, payload, i)[at..] == payload[at..]
  {
    var parts := PartsOf(slaves, memories, group);
    ArrivingIsCollected(ts, slaves, memories, group, adr, payload, i, parts);
    PartsAreOrdered(slaves, memories, group);
    RestIsUntouched(parts, payload, i, at);
  }

  /** When the datagram is back, the inputs of slave `i` are in its window. */
  lemma InputsAreKept(
      ts: seq<Slave>, slaves: seq<Slave>, memories: seq<seq<Byte>>, group: nat, adr: nat, payload: seq<Byte>, i: nat,
      at: nat, inputs: seq<Byte>)
    requires Network(ts, slaves, group, adr) && i < |slaves| == |memories| && slaves[i].group == group
    requires |payload| == GroupShared(slaves, group, |slaves|)
    requires at == GroupShared(slaves, group, i) && inputs == InputsOf(slaves[i], memories[i])
    requires at + |inputs| <= |payload|
    ensures Arriving(ts, memories, adr, payload, |slaves|)[at..at + |inputs|] == inputs
  {
    var parts := PartsOf(slaves, memories, group);
    ArrivingIsCollected(ts, slaves, memories, group, adr, payload, |slaves|, parts);
    PartsAreOrdered(slaves, memories, group);
    assert parts[i] == Part(at, inputs);
    PartIsKept(parts, payload, i, |slaves|, at, inputs);
  }

  /** The working counter expected of the slaves in front of `i`. */
  function Expected(slaves: seq<Slave>, group: nat, i: nat): nat
    requires i <= |slaves|
  {
    if i == 0 then 0
    else Expected(slaves, group, i - 1) + if slaves[i - 1].group == group then LrwCount(slaves[i - 1]) else 0
  }

  lemma Counted(t: Slave, slaves: seq<Slave>, group: nat, adr: nat, i: nat, len: nat, output: bool)
    requires i < |slaves| && Connected(t, slaves, group, adr, i) && len == GroupShared(slaves, group, |slaves|)
    ensures Answers(t.fmmus, |t.fmmus|, if output then Outputs else Inputs, adr, len)
      <==> slaves[i].group == group && SlaveCount(slaves[i], output) > 0
  {
    if slaves[i].group == group {
      SlaveAnswers(t, slaves[i], adr, len, GroupShared(slaves, group, i), output);
    } else {
      RestDoesNotAnswer(t.fmmus, 0, |t.fmmus|, if output then Outputs else Inputs, adr, len);
    }
  }

  /** It is the one the datagram comes back with. */
  lemma {:induction false} CounterIsExpected(
      ts: seq<Slave>, slaves: seq<Slave>, group: nat, adr: nat, len: nat, i: nat)
    requires Network(ts, slaves, group, adr) && i <= |slaves| && len == GroupShared(slaves, group, |slaves|)
    ensures WorkingCounter(ts, adr, len, i) == Expected(slaves, group, i)
  {
    if i > 0 {
      CounterIsExpected(ts, slaves, group, adr, len, i - 1);
      Counted(ts[i - 1], slaves, group, adr, i - 1, len, true);
      Counted(ts[i - 1], slaves, group, adr, i - 1, len, false);
    }
  }

  // ---------------------------------------------------------------------------------------
  // The master
  // ---------------------------------------------------------------------------------------

  /** The payload of the datagram: the outputs of the image, and zeros behind them. */
  function Outgoing(image: seq<Byte>, pdoutLen: nat, logLen: nat): (r: seq<Byte>)
    requires pdoutLen <= logLen && pdoutLen <= |image|
    ensures |r| == logLen && r[..pdoutLen] == image[..pdoutLen]
    ensures forall k :: pdoutLen <= k < logLen ==> r[k] == 0
  {
    image[..pdoutLen] + seq(logLen - pdoutLen, _ => 0)
  }

  /** The image when the datagram is back. */
  function Returned(image: seq<Byte>, pdoutLen: nat, pdinLen: nat, payload: seq<Byte>, copy: bool): (r: seq<Byte>)
    requires pdinLen <= |payload|
    ensures |r| == |image|
  {
    if copy then Overwrite(image, pdoutLen, payload[..pdinLen]) else image
  }

  /** Filling the datagram; nothing is sent for a group without process data. */
  method SendProcessData(pd: Group, image: array<Byte>) returns (sent: bool, adr: nat, payload: seq<Byte>)
    requires pd.pdoutLen <= pd.logLen && pd.pdoutLen <= image.Length
    ensures sent == (pd.logLen > 0)
    ensures sent ==> adr == pd.log && payload == Outgoing(image[..], pd.pdoutLen, pd.logLen)
  {
    sent, adr, payload := pd.logLen > 0, pd.log, [];
    if sent {
      payload := seq(pd.logLen, _ => 0);
      if pd.pdoutLen > 0 {
        payload := image[..pd.pdoutLen] + payload[pd.pdoutLen..];
      }
      assert payload == Outgoing(image[..], pd.pdoutLen, pd.logLen);
    }
  }

  /** Where the master looks for the inputs in a datagram. */
  function InputsFrom(useLrw: bool, overlapping: bool, pdoutLen: nat): nat {
    if useLrw || overlapping then 0 else pdoutLen
  }

  /** Taking the inputs out of the buffer of the datagram, unless the working counter is wrong and
      such data are to be skipped. */
  method ReceiveProcessData(pd: Group, image: array<Byte>, buffer: seq<Byte>, wkc: nat) returns (mismatch: bool)
    requires InputsFrom(pd.useLrw, pd.overlapping, pd.pdoutLen) + pd.pdinLen <= |buffer|
    requires pd.pdoutLen + pd.pdinLen <= image.Length
    modifies image
    ensures mismatch == (wkc != if pd.useLrw then pd.expectedLrw else pd.expectedLrd)
    ensures image[..] == Returned(
      old(image[..]), pd.pdoutLen, pd.pdinLen, buffer[InputsFrom(pd.useLrw, pd.overlapping, pd.pdoutLen)..],
      !pd.skip || !mismatch)
    ensures pd.skip && mismatch ==> image[..] == old(image[..])
    ensures !pd.skip || !mismatch ==> forall k :: pd.pdoutLen <= k < pd.pdoutLen + pd.pdinLen ==>
      image[k] == buffer[if pd.useLrw || pd.overlapping then k - pd.pdoutLen else k]
    ensures forall k :: 0 <= k < image.Length && !(pd.pdoutLen <= k < pd.pdoutLen + pd.pdinLen) ==>
      image[k] == old(image[k])
  {
    mismatch := wkc != if pd.useLrw then pd.expectedLrw else pd.expectedLrd;
    if pd.pdinLen > 0 && (if pd.skip then !mismatch else true) {
      if pd.useLrw || pd.overlapping {
        forall k | 0 <= k < pd.pdinLen {
          image[pd.pdoutLen + k] := buffer[k];
        }
      } else {
        forall k | 0 <= k < pd.pdinLen {
          image[pd.pdoutLen + k] := buffer[pd.pdoutLen + k];
        }
      }
    }
  }

  /** With addresses apart, the inputs are behind the outputs in a datagram that reads and writes,
      and at the front of one that only reads. */
  predicate InputsReturn(image: seq<Byte>, pdout: nat, pdin: nat, useLrw: bool, buffer: seq<Byte>)
    requires pdout + pdin <= |image| && |buffer| == pdout + pdin
  {
    var inputs := if useLrw then buffer[pdout..] else buffer[..pdin];
    Returned(image, pdout, pdin, buffer[InputsFrom(useLrw, false, pdout)..], true)[pdout..pdout + pdin] == inputs
  }

  /** The master looks for them the other way round: with addresses apart, whichever commands are
      used, the inputs reach the image if and only if the group has no outputs, or no inputs. */
  lemma WhenApartInputsReturn(image: seq<Byte>, pdout: nat, pdin: nat, useLrw: bool)
    requires pdout + pdin <= |image|
    ensures
      (forall buffer: seq<Byte> | |buffer| == pdout + pdin :: InputsReturn(image, pdout, pdin, useLrw, buffer))
      <==> pdout == 0 || pdin == 0
  {
    if pdout > 0 && pdin > 0 {
      var buffer: seq<Byte> := seq(pdout + pdin, k => if k < pdout then 0 else 1);
      var now := Returned(image, pdout, pdin, buffer[InputsFrom(useLrw, false, pdout)..], true);
      assert now[pdout..pdout + pdin][0] == now[pdout] == if useLrw then 0 else 1;
      assert (if useLrw then buffer[pdout..] else buffer[..pdin])[0] == if useLrw then 1 else 0;
      assert !InputsReturn(image, pdout, pdin, useLrw, buffer);
    }
  }

  /** The bytes of a slice. */
  function SliceOf(image: seq<Byte>, a: Area): seq<Byte> {
    if a.len == 0 then [] else ReadAt(image, a.pos, a.len)
  }

  /** What is at the window of a slave when the datagram arrives. */
  lemma WindowArrives(image: seq<Byte>, payload: seq<Byte>, arriving: seq<Byte>, at: nat, n: nat)
    requires |arriving| == |payload| <= |image| && payload == image[..|payload|]
    requires at + n <= |payload| && arriving[at..] == payload[at..]
    ensures image[at..at + n] == arriving[at..at + n]
  {
    forall p | at <= p < |payload| ensures arriving[p] == image[p] {
      assert arriving[p] == arriving[at..][p - at] == payload[at..][p - at] == payload[p];
    }
  }

  /** A slice of the inputs is where its window was. */
  lemma SliceReturns(image: seq<Byte>, back: seq<Byte>, a: Area, at: nat, slice: seq<Byte>)
    requires 2 * |back| <= |image| && at + |slice| <= |back|
    requires a.len == |slice| && (a.len > 0 ==> a.pos == |back| + at)
    requires slice == back[at..at + |slice|]
    ensures SliceOf(Returned(image, |back|, |back|, back, true), a) == slice
  {
  }

  /** Every slave of the group gets the outputs of the image at its window, and nobody else gets
      anything. */
  lemma OutputsArrive(
      ts: seq<Slave>, slaves: seq<Slave>, memories: seq<seq<Byte>>, group: nat, adr: nat, image: seq<Byte>, i: nat,
      payload: seq<Byte>, at: nat, n: nat)
    requires Network(ts, slaves, group, adr) && i < |slaves| == |memories|
    requires |payload| == GroupShared(slaves, group, |slaves|) <= |image| && payload == image[..|payload|]
    requires at == GroupShared(slaves, group, i) && n == SlaveMapped(slaves[i], true)
    ensures
      var ps := Carried(slaves[i]);
      if slaves[i].group == group then
        && at + n <= |payload| && Total(ps, |ps|, true) == n
        && MemoryAfter(ts, memories, adr, payload, i) == Scatter(ps, |ps|, memories[i], image[at..at + n])
      else MemoryAfter(ts, memories, adr, payload, i) == memories[i]
  {
    var arriving := Arriving(ts, memories, adr, payload, i);
    assert Connected(ts[i], slaves, group, adr, i);
    if slaves[i].group == group {
      ArrivesUntouched(ts, slaves, memories, group, adr, payload, i, at);
      WindowArrives(image, payload, arriving, at, n);
      SlaveTakes(ts[i], slaves[i], adr, at, memories[i], arriving, image[at..at + n]);
    } else {
      OtherDoesNothing(ts[i], memories[i], arriving, adr);
    }
  }

  /** So it gets what is in its slice, if that is where its window is. */
  lemma OutputsAreCopied(
      ts: seq<Slave>, slaves: seq<Slave>, memories: seq<seq<Byte>>, group: nat, adr: nat, image: seq<Byte>, i: nat,
      payload: seq<Byte>)
    requires Network(ts, slaves, group, adr) && i < |slaves| == |memories| && slaves[i].group == group
    requires |payload| == GroupShared(slaves, group, |slaves|) <= |image| && payload == image[..|payload|]
    requires Aligned(ts[i], slaves[i], |payload|, GroupShared(slaves, group, i))
    ensures
      var ps, slice := Carried(slaves[i]), SliceOf(image, ts[i].pdout);
      && Total(ps, |ps|, true) == |slice|
      && MemoryAfter(ts, memories, adr, payload, i) == Scatter(ps, |ps|, memories[i], slice)
  {
    var at, n := GroupShared(slaves, group, i), SlaveMapped(slaves[i], true);
    OutputsArrive(ts, slaves, memories, group, adr, image, i, payload, at, n);
    assert SliceOf(image, ts[i].pdout) == image[at..at + n];
  }

  /** The inputs of every slave of the group end up in its slice, if that is where its window is. */
  lemma InputsAreCopied(
      ts: seq<Slave>, slaves: seq<Slave>, memories: seq<seq<Byte>>, group: nat, adr: nat, image: seq<Byte>, i: nat,
      payload: seq<Byte>, back: seq<Byte>)
    requires Network(ts, slaves, group, adr) && i < |slaves| == |memories| && slaves[i].group == group
    requires |payload| == GroupShared(slaves, group, |slaves|) && 2 * |payload| <= |image|
    requires back == Arriving(ts, memories, adr, payload, |slaves|)
    requires Aligned(ts[i], slaves[i], |payload|, GroupShared(slaves, group, i))
    ensures SliceOf(Returned(image, |back|, |back|, back, true), ts[i].pdin) == InputsOf(slaves[i], memories[i])
  {
    var at, inputs := GroupShared(slaves, group, i), InputsOf(slaves[i], memories[i]);
    assert Connected(ts[i], slaves, group, adr, i);
    InputsAreKept(ts, slaves, memories, group, adr, payload, i, at, inputs);
    SliceReturns(image, back, ts[i].pdin, at, inputs);
  }

  /** One round with one datagram is a direct copy: slave `i`, of the group, gets exactly its
      outputs, its inputs are exactly what is in its slice afterwards, the working counter is the
      one expected (so that the inputs are not skipped), the rest of the image stays, and a slave
      of another group sees nothing. */
  predicate DirectCopy(
      ts: seq<Slave>, slaves: seq<Slave>, memories: seq<seq<Byte>>, group: nat, adr: nat, image: seq<Byte>, skip: bool,
      expected: nat, i: nat)
    requires i < |slaves| == |memories| == |ts| && 2 * GroupShared(slaves, group, |slaves|) <= |image|
  {
    var len, ps := GroupShared(slaves, group, |slaves|), Carried(slaves[i]);
    var payload := Outgoing(image, len, len);
    var mismatch := WorkingCounter(ts, adr, len, |ts|) != expected;
    var now := Returned(image, len, len, Arriving(ts, memories, adr, payload, |ts|), !skip || !mismatch);
    && !mismatch
    && now[..len] == image[..len] && now[2 * len..] == image[2 * len..]
    && if slaves[i].group == group then
      && Total(ps, |ps|, true) == |SliceOf(image, ts[i].pdout)|
      && MemoryAfter(ts, memories, adr, payload, i) == Scatter(ps, |ps|, memories[i], SliceOf(image, ts[i].pdout))
      && SliceOf(now, ts[i].pdin) == InputsOf(slaves[i], memories[i])
    else MemoryAfter(ts, memories, adr, payload, i) == memories[i]
  }

  lemma NetworkCopies(
      ts: seq<Slave>, slaves: seq<Slave>, memories: seq<seq<Byte>>, group: nat, adr: nat, image: seq<Byte>, skip: bool,
      i: nat)
    requires Network(ts, slaves, group, adr) && i < |slaves| == |memories|
    requires 2 * GroupShared(slaves, group, |slaves|) <= |image|
    requires slaves[i].group == group ==>
      Aligned(ts[i], slaves[i], GroupShared(slaves, group, |slaves|), GroupShared(slaves, group, i))
    ensures DirectCopy(ts, slaves, memories, group, adr, image, skip, Expected(slaves, group, |slaves|), i)
  {
    var len := GroupShared(slaves, group, |slaves|);
    var payload := Outgoing(image, len, len);
    CounterIsExpected(ts, slaves, group, adr, len, |slaves|);
    if slaves[i].group == group {
      OutputsAreCopied(ts, slaves, memories, group, adr, image, i, payload);
      InputsAreCopied(
        ts, slaves, memories, group, adr, image, i, payload, Arriving(ts, memories, adr, payload, |slaves|));
    } else {
      OutputsArrive(
        ts, slaves, memories, group, adr, image, i, payload, GroupShared(slaves, group, i),
        SlaveMapped(slaves[i], true));
    }
  }

  /** A direct copy of outputs changes nothing outside the buffers for outputs. */
  lemma {:induction false} NothingElseIsStored(
      ps: seq<SyncManager>, n: nat, memory: seq<Byte>, slice: seq<Byte>, a: nat)
    requires n <= |ps| && Total(ps, n, true) <= |slice| && a < |memory|
    requires forall j :: 0 <= j < n && ps[j].output ==> !(ps[j].adr <= a < ps[j].adr + ps[j].len)
    ensures Scatter(ps, n, memory, slice)[a] == memory[a]
  {
    if n > 0 {
      NothingElseIsStored(ps, n - 1, memory, slice, a);
    }
  }

  /** As long as the buffers for outputs have nothing in common, each of them holds its part of
      the slice afterwards. */
  lemma {:induction false} EveryBufferHoldsItsPart(
      ps: seq<SyncManager>, n: nat, memory: seq<Byte>, slice: seq<Byte>, j: nat)
    requires j < n <= |ps| && ps[j].output && ps[j].adr + ps[j].len <= |memory|
    requires Total(ps, n, true) <= |slice| && Total(ps, j, true) + ps[j].len <= |slice|
    requires forall i :: 0 <= i < |ps| && i != j && ps[i].output ==> Disjoint(ps[i], ps[j])
    ensures ReadAt(Scatter(ps, n, memory, slice), ps[j].adr, ps[j].len)
      == slice[Total(ps, j, true)..Total(ps, j, true) + ps[j].len]
    decreases n
  {
    if j < n - 1 {
      EveryBufferHoldsItsPart(ps, n - 1, memory, slice, j);
      assert ReadAt(Scatter(ps, n, memory, slice), ps[j].adr, ps[j].len)
        == ReadAt(Scatter(ps, n - 1, memory, slice), ps[j].adr, ps[j].len);
    }
  }

  // ---------------------------------------------------------------------------------------
  // The mapping
  // ---------------------------------------------------------------------------------------

  /** A slave that is not mapped yet. */
  predicate Unmapped(s: Slave) {
    && s.pdout.len == 0 && s.pdin.len == 0 && Idle(s)
    && forall k :: 0 <= k < |s.fmmus| ==> s.fmmus[k].logBitStart == 0
  }

  /** The slaves of the group are not mapped yet, the others do not meet its logical memory, and
      neither do the mailbox states. */
  predicate Ready(slaves: seq<Slave>, group: nat, log: nat, stateLog: nat) {
    && log + GroupShared(slaves, group, |slaves|) <= stateLog
    && forall i :: 0 <= i < |slaves| ==>
      if slaves[i].group == group then Unmapped(slaves[i])
      else Avoids(slaves[i], log, GroupShared(slaves, group, |slaves|))
  }

  /** The cursor of the overlapping mapping in front of slave `i`. */
  function Here(slaves: seq<Slave>, group: nat, log: nat, i: nat): Cursor
    requires i <= |slaves|
  {
    At(slaves, group, log, GroupShared(slaves, group, |slaves|), true, i)
  }

  /** All slaves after the overlapping mapping. */
  function MapAll(slaves: seq<Slave>, group: nat, log: nat, stateLog: nat): (r: seq<Slave>)
    ensures |r| == |slaves|
    ensures forall i :: 0 <= i < |slaves| ==>
      r[i] == MapIfMember(slaves[i], group, Here(slaves, group, log, i), stateLog)
  {
    seq(|slaves|, i requires 0 <= i < |slaves| => MapIfMember(slaves[i], group, Here(slaves, group, log, i), stateLog))
  }

  /** That is what the mapping leaves in the list of slaves. */
  lemma MappedUpToAll(now: seq<Slave>, was: seq<Slave>, group: nat, log: nat, stateLog: nat)
    requires |now| == |was|
    requires
      MappedUpTo(now, was, group, Origin(log, GroupShared(was, group, |was|), true), stateLog, true, |was|)
    ensures now == MapAll(was, group, log, stateLog)
  {
  }

  lemma MappedIsWired(s: Slave, c: Cursor, stateLog: nat)
    requires Unmapped(s)
    ensures Wired(MapSlave(s, c, stateLog).fmmus, Carried(s), c.logOut, c.logIn)
  {
    var f, ps := MapSlave(s, c, stateLog).fmmus, Carried(s);
    forall j | 0 <= j < |ps| ensures Connects(f[j], ps[j], Start(ps, j, c.logOut, c.logIn)) {
      FmmuAt(s, c, stateLog, j);
      PrefixTotal(Process(s), |ps|, j, ps[j].output);
    }
  }

  /** A slave mapped at its place is attached there. */
  lemma MappedIsAttached(s: Slave, c: Cursor, stateLog: nat, adr: nat, len: nat, at: nat)
    requires Unmapped(s) && adr + len <= stateLog && c.logOut == adr + at && c.logIn == adr + at
    requires at + SlaveTotal(s, true) <= len && at + SlaveTotal(s, false) <= len
    ensures Attached(MapSlave(s, c, stateLog), s, adr, len, at)
  {
    var t := MapSlave(s, c, stateLog);
    MappedIsWired(s, c, stateLog);
    MappedIsLess(s, true);
    MappedIsLess(s, false);
    forall k | |Carried(s)| <= k < |t.fmmus| ensures !Meets(t.fmmus[k], adr, len) {
      FmmuAt(s, c, stateLog, k);
    }
  }

  /** The overlapping mapping makes a network, whether or not slaves lack FMMUs. */
  lemma MappingMakesNetwork(slaves: seq<Slave>, group: nat, log: nat, stateLog: nat)
    requires Ready(slaves, group, log, stateLog)
    ensures Network(MapAll(slaves, group, log, stateLog), slaves, group, log)
  {
    var ts, len := MapAll(slaves, group, log, stateLog), GroupShared(slaves, group, |slaves|);
    forall i | 0 <= i < |slaves| ensures Connected(ts[i], slaves, group, log, i) {
      if slaves[i].group == group {
        SharedCursor(slaves, group, log, len, i);
        GroupGrows(slaves, group, i, |slaves|, true);
        GroupGrows(slaves, group, i, |slaves|, false);
        MappedIsAttached(
          slaves[i], Here(slaves, group, log, i), stateLog, log, len, GroupShared(slaves, group, i));
      }
    }
  }

  /** No slave of the group in front of slave `i` leaves a hole, or nothing of slave `i` is mapped. */
  predicate InStep(slaves: seq<Slave>, group: nat, i: nat)
    requires i < |slaves|
  {
    || Carried(slaves[i]) == []
    || forall k :: 0 <= k < i && slaves[k].group == group ==> LeavesNoHole(slaves[k])
  }

  /** Then its slices are where its windows are. */
  lemma InStepIsAligned(slaves: seq<Slave>, group: nat, log: nat, stateLog: nat, i: nat, len: nat)
    requires Ready(slaves, group, log, stateLog) && i < |slaves| && slaves[i].group == group
    requires InStep(slaves, group, i) && len == GroupShared(slaves, group, |slaves|)
    ensures Aligned(MapAll(slaves, group, log, stateLog)[i], slaves[i], len, GroupShared(slaves, group, i))
  {
    CarriedTotal(slaves[i], true);
    CarriedTotal(slaves[i], false);
    SlicesAt(slaves[i], Here(slaves, group, log, i), stateLog);
    SharedCursor(slaves, group, log, len, i);
    WhenImageFollowsLog(slaves, group, log, len, i);
  }

  lemma {:induction false} CursorExpects(slaves: seq<Slave>, group: nat, log: nat, stateLog: nat, i: nat)
    requires Ready(slaves, group, log, stateLog) && i <= |slaves|
    ensures Here(slaves, group, log, i).lrw == Expected(slaves, group, i)
  {
    if i > 0 {
      CursorExpects(slaves, group, log, stateLog, i - 1);
    }
  }

  /** Main theorem: on the slaves as the overlapping mapping leaves them, one round is a direct copy
      between slave `i` and its own slices, with the working counter expected, as long as no slave
      in front of it leaves a hole.  `ProcessDataHoles` says that it is none otherwise. */
  lemma LrwRoundIsDirectCopy(
      slaves: seq<Slave>, memories: seq<seq<Byte>>, group: nat, log: nat, stateLog: nat, image: seq<Byte>, skip: bool,
      i: nat)
    requires Ready(slaves, group, log, stateLog) && i < |slaves| == |memories|
    requires 2 * GroupShared(slaves, group, |slaves|) <= |image|
    requires slaves[i].group == group ==> InStep(slaves, group, i)
    ensures DirectCopy(
      MapAll(slaves, group, log, stateLog), slaves, memories, group, log, image, skip,
      Here(slaves, group, log, |slaves|).lrw, i)
  {
    MappingMakesNetwork(slaves, group, log, stateLog);
    CursorExpects(slaves, group, log, stateLog, |slaves|);
    if slaves[i].group == group {
      InStepIsAligned(slaves, group, log, stateLog, i, GroupShared(slaves, group, |slaves|));
    }
    NetworkCopies(MapAll(slaves, group, log, stateLog), slaves, memories, group, log, image, skip, i);
  }

  lemma OneByteIsTaken(f: Fmmu, sm: SyncManager, log: nat, memory: seq<Byte>, payload: seq<Byte>)
    requires sm.adr == 0 && sm.len == 1 && sm.output && f.logBitStart == 0
    requires |memory| == 1 && |payload| == 2
    ensures TakeAll([Window(f, sm, log + 1)], 1, memory, payload, log) == [payload[1]]
  {
    TakeWindow(Window(f, sm, log + 1), memory, payload, log, [payload[1]]);
    assert TakeAll([Window(f, sm, log + 1)], 0, memory, payload, log) == memory;
  }

  lemma OneByteIsScattered(s: Slave, memory: seq<Byte>, slice: seq<Byte>)
    requires HasOneOutput(s, 1) && s.sms[0].adr == 0 && |memory| == 1 && |slice| == 1
    ensures |Carried(s)| == 1 && Total(Carried(s), 1, true) == 1
    ensures Scatter(Carried(s), 1, memory, slice) == slice
  {
    OneOutput(s, 1);
    CarriedTotal(s, true);
    assert Scatter(Carried(s), 0, memory, slice) == memory;
  }

  lemma BothTakeRoom(slaves: seq<Slave>)
    requires |slaves| == 2 && HasOneOutput(slaves[0], 0) && HasOneOutput(slaves[1], 1)
    ensures GroupShared(slaves, 0, |slaves|) == 2
  {
    OneOutput(slaves[0], 0);
    OneOutput(slaves[1], 1);
    assert GroupShared(slaves, 0, 0) == 0;
    assert GroupShared(slaves, 0, 1) == 1;
  }

  /** With a hole in front of a slave it is none: the second slave stores the second byte of the
      outputs, while its slice is the first one. */
  lemma AHoleBreaksTheRound(
      slaves: seq<Slave>, memories: seq<seq<Byte>>, log: nat, stateLog: nat, image: seq<Byte>, skip: bool,
      expected: nat)
    requires |slaves| == 2 && HasOneOutput(slaves[0], 0) && HasOneOutput(slaves[1], 1) && slaves[1].sms[0].adr == 0
    requires |memories| == 2 && |memories[1]| == 1 && |image| == 4 && image[0] != image[1]
    ensures GroupShared(slaves, 0, |slaves|) == 2
    ensures !DirectCopy(MapAll(slaves, 0, log, stateLog), slaves, memories, 0, log, image, skip, expected, 1)
  {
    BothTakeRoom(slaves);
    var ts := MapAll(slaves, 0, log, stateLog);
    AHoleShiftsTheImage(slaves, log, stateLog, 2);
    var payload := Outgoing(image, 2, 2);
    assert Arriving(ts, memories, log, payload, 1) == payload by {
      assert ts[0].fmmus == [];
      assert Arriving(ts, memories, log, payload, 0) == payload;
    }
    OneByteIsTaken(slaves[1].fmmus[0], slaves[1].sms[0], log, memories[1], payload);
    OneByteIsScattered(slaves[1], memories[1], SliceOf(image, ts[1].pdout));
    assert MemoryAfter(ts, memories, log, payload, 1)[0] == image[1];
    assert SliceOf(image, ts[1].pdout)[0] == image[0];
  }
}
