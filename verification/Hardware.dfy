/** The transmit side of the hardware layer: filling frame buffers from the queues. */
module Hardware {
  import opened Bytes
  import opened Datagrams
  import opened FramePacking
  import opened Options
  import opened Pools
  import opened WireAccounting

  /** The table of sent datagrams after these entries went out. */
  function NotedAll(t: Table, sent: seq<Entry>): (r: Table)
    requires WellFormed(t)
    ensures WellFormed(r)
  {
    if sent == [] then t
    else
      var last := sent[|sent| - 1];
      Noted(NotedAll(t, sent[..|sent| - 1]), Index(last.data), last.id)
  }

  // ---------------------------------------------------------------------------------------
  // One frame buffer
  // ---------------------------------------------------------------------------------------

  /** The bytes of a frame whose datagrams all announce another one. */
  function OpenBytes(ds: seq<Datagram>): (f: seq<Byte>)
    requires FrameSize(ds) <= MAX_FRAME_LENGTH
    ensures |f| == FrameSize(ds)
  {
    Header(FrameSize(ds)) + OpenChain(ds)
  }

  /** Write the header of a frame whose datagrams are in place. */
  method WriteHeader(buf: array<Byte>, ghost ds: seq<Datagram>, len: nat)
    requires len == FrameSize(ds) <= buf.Length && len <= MAX_FRAME_LENGTH
    requires buf[FRAME_HDR_LENGTH..len] == Chain(ds)
    modifies buf
    ensures buf[..len] == FrameBytes(ds)
  {
    var h := Header(len);
    forall i | 0 <= i < FRAME_HDR_LENGTH {
      buf[i] := h[i];
    }
    assert buf[FRAME_HDR_LENGTH..len] == old(buf[FRAME_HDR_LENGTH..len]);
    assert buf[..len] == buf[..FRAME_HDR_LENGTH] + buf[FRAME_HDR_LENGTH..len];
  }

  method CopyTo(buf: array<Byte>, pos: nat, d: seq<Byte>)
    requires pos + |d| <= buf.Length
    modifies buf
    ensures buf[..pos] == old(buf[..pos]) && buf[pos..pos + |d|] == d
  {
    forall i | 0 <= i < |d| {
      buf[pos + i] := d[i];
    }
  }

  lemma OpenChainLast(ds: seq<Datagram>)
    requires ds != []
    ensures var last := ds[|ds| - 1];
      && |last| <= Size(ds)
      && Chain(ds) == OpenChain(ds[..|ds| - 1]) + Marked(last, false)
      && OpenChain(ds) == OpenChain(ds[..|ds| - 1]) + Marked(last, true)
  {
    var init, last := ds[..|ds| - 1], ds[|ds| - 1];
    assert ds == init + [last];
    ChainAppend(init, last);
    OpenChainAppend(init, last);
  }

  /** Set the "more follows" bit of the last datagram of a frame. */
  method MarkNext(buf: array<Byte>, pdgPrev: nat, ghost ds: seq<Datagram>)
    requires ds != [] && FrameSize(ds) <= MAX_FRAME_LENGTH && FrameSize(ds) <= buf.Length
    requires buf[..FrameSize(ds)] == FrameBytes(ds)
    requires pdgPrev == FrameSize(ds) - |ds[|ds| - 1]|
    modifies buf
    ensures buf[..FrameSize(ds)] == OpenBytes(ds)
  {
    OpenChainLast(ds);
    ghost var n, last := FrameSize(ds), ds[|ds| - 1];
    ghost var front := Header(n) + OpenChain(ds[..|ds| - 1]);
    assert buf[..n] == front + Marked(last, false) && |front| == pdgPrev;
    assert buf[pdgPrev + 7] == buf[..n][pdgPrev + 7] == Marked(last, false)[7];
    assert Marked(last, true) == Marked(last, false)[7 := Marked(last, true)[7]];
    buf[pdgPrev + 7] := buf[pdgPrev + 7] % 0x80 + 0x80;
    assert buf[..n] == front + Marked(last, true);
  }

  /** Make the datagrams of a frame announce another one, if there are any. */
  method OpenFrameBytes(buf: array<Byte>, len: nat, pdgPrev: Option<nat>, ghost ds: seq<Datagram>)
    requires len == FrameSize(ds) <= MAX_FRAME_LENGTH && len <= buf.Length && buf[..len] == FrameBytes(ds)
    requires if ds == [] then pdgPrev == None else pdgPrev == Some(len - |ds[|ds| - 1]|)
    modifies buf
    ensures buf[..len] == OpenBytes(ds)
  {
    if pdgPrev.Some? {
      MarkNext(buf, pdgPrev.value, ds);
    }
  }

  lemma ChainInPlace(bytes: seq<Byte>, ds: seq<Datagram>, d: Datagram, len: nat)
    requires len == FrameSize(ds) <= MAX_FRAME_LENGTH && |bytes| == len + |d|
    requires bytes[..len] == OpenBytes(ds) && bytes[len..] == Marked(d, false)
    ensures FrameSize(ds + [d]) == len + |d| && bytes[FRAME_HDR_LENGTH..] == Chain(ds + [d])
  {
    SizeAppend(ds, d);
    ChainAppend(ds, d);
    assert bytes[FRAME_HDR_LENGTH..] == bytes[..len][FRAME_HDR_LENGTH..] + bytes[len..];
  }

  /** Append a datagram to the frame: mark the previous one, copy this one, update the length. */
  method AppendDatagram(buf: array<Byte>, len: nat, pdgPrev: Option<nat>, d: Datagram, ghost ds: seq<Datagram>)
    requires len == FrameSize(ds) && len + |d| <= MAX_FRAME_LENGTH && len + |d| <= buf.Length
    requires buf[..len] == FrameBytes(ds)
    requires if ds == [] then pdgPrev == None else pdgPrev == Some(len - |ds[|ds| - 1]|)
    modifies buf
    ensures FrameSize(ds + [d]) == len + |d|
    ensures buf[..len + |d|] == FrameBytes(ds + [d])
  {
    OpenFrameBytes(buf, len, pdgPrev, ds);
    CopyTo(buf, len, Marked(d, false));
    ghost var bytes := buf[..len + |d|];
    assert bytes[..len] == buf[..len] && bytes[len..] == buf[len..len + |d|];
    ChainInPlace(bytes, ds, d, len);
    assert buf[FRAME_HDR_LENGTH..len + |d|] == bytes[FRAME_HDR_LENGTH..];
    WriteHeader(buf, ds + [d], len + |d|);
  }

  // ---------------------------------------------------------------------------------------
  // Transmission
  // ---------------------------------------------------------------------------------------

  /** What transmission works on: a queue, the buffers left, the frame counter, the wire, and
      the table of sent datagrams. */
  datatype TxState = TxState(
    queue: seq<Entry>, buffers: int, frameIdx: nat, wire: seq<seq<Byte>>, table: Table)

  /** How many of these frames get a buffer. */
  function Served(s: TxState, frames: seq<seq<Entry>>): (n: nat)
    ensures n <= |frames|
  {
    if s.buffers <= 0 then 0 else Min(s.buffers, |frames|)
  }

  /** The datagrams of the frames that get no buffer. */
  function Unserved(s: TxState, mtu: nat): seq<Entry> {
    var frames := Frames(s.queue, mtu);
    Flatten(frames[Served(s, frames)..])
  }

  /** The state after sending these frames and staging these further entries. */
  function Staged(s: TxState, done: seq<seq<Entry>>, cur: seq<Entry>, queue: seq<Entry>): TxState
    requires AllFit(done, MAX_FRAME_LENGTH) && WellFormed(s.table)
  {
    TxState(
      queue,
      s.buffers - |done| - (if cur == [] then 0 else 1),
      s.frameIdx + |done|,
      s.wire + Encoded(done),
      NotedAll(s.table, Flatten(done) + cur))
  }

  /** Sending a queue.  Either every frame goes out; or the buffers run out, then the frames
      that got a buffer go out, the datagram in hand is dropped, and the rest stays queued. */
  function Transmitted(s: TxState, mtu: nat): TxState
    requires EachFits(s.queue, mtu) && mtu <= MAX_FRAME_LENGTH && WellFormed(s.table)
  {
    var frames := Frames(s.queue, mtu);
    var rest := Unserved(s, mtu);
    PackFits([], s.queue, mtu);
    Staged(s, frames[..Served(s, frames)], [], if rest == [] then [] else rest[1..])
  }

  lemma CloseFrame(s: TxState, done: seq<seq<Entry>>, cur: seq<Entry>, q: seq<Entry>)
    requires AllFit(done, MAX_FRAME_LENGTH) && Load(cur) <= MAX_FRAME_LENGTH && WellFormed(s.table)
    requires cur != []
    ensures var was := Staged(s, done, cur, q);
      Staged(s, done + [cur], [], q)
        == was.(wire := was.wire + [FrameBytes(DataOf(cur))], frameIdx := was.frameIdx + 1)
  {
    var f := FrameBytes(DataOf(cur));
    OneMoreFrame(done, cur, f);
    WireGrows(s.wire, Encoded(done), f);
    SentGrows(Flatten(done + [cur]), Flatten(done) + cur);
  }

  lemma WireGrows(wire: seq<seq<Byte>>, frames: seq<seq<Byte>>, f: seq<Byte>)
    ensures wire + (frames + [f]) == wire + frames + [f]
  {
  }

  lemma SentGrows(a: seq<Entry>, b: seq<Entry>)
    requires a == b
    ensures a + [] == b
  {
  }

  lemma OneMoreFrame(done: seq<seq<Entry>>, cur: seq<Entry>, f: seq<Byte>)
    requires AllFit(done, MAX_FRAME_LENGTH) && Load(cur) <= MAX_FRAME_LENGTH && f == FrameBytes(DataOf(cur))
    ensures AllFit(done + [cur], MAX_FRAME_LENGTH)
    ensures Encoded(done + [cur]) == Encoded(done) + [f]
    ensures Flatten(done + [cur]) == Flatten(done) + cur
  {
    FlattenConcat(done, [cur]);
    FlattenOne(cur);
  }

  lemma StageEntry(s: TxState, done: seq<seq<Entry>>, cur: seq<Entry>, q: seq<Entry>, e: Entry)
    requires AllFit(done, MAX_FRAME_LENGTH) && WellFormed(s.table)
    ensures var was := Staged(s, done, cur, q);
      Staged(s, done, cur + [e], q)
        == was.(table := Noted(was.table, Index(e.data), e.id),
                buffers := was.buffers - if cur == [] then 1 else 0)
  {
    var sent := Flatten(done) + cur;
    assert Flatten(done) + (cur + [e]) == sent + [e];
    assert (sent + [e])[..|sent|] == sent;
  }

  /** `done` are frames that went out, `cur` is in the open frame, `q` is still queued. */
  ghost predicate Packing(s: TxState, done: seq<seq<Entry>>, cur: seq<Entry>, q: seq<Entry>, mtu: nat) {
    && EachFits(s.queue, mtu) && EachFits(q, mtu) && mtu <= MAX_FRAME_LENGTH && WellFormed(s.table)
    && AllFit(done, MAX_FRAME_LENGTH)
    && Frames(s.queue, mtu) == done + PackFrom(cur, q, mtu)
  }

  lemma PackingStarts(s: TxState, mtu: nat)
    requires EachFits(s.queue, mtu) && mtu <= MAX_FRAME_LENGTH && WellFormed(s.table)
    ensures Packing(s, [], [], s.queue, mtu)
    ensures Staged(s, [], [], s.queue) == s
  {
    assert s.wire + Encoded([]) == s.wire;
  }

  lemma PackingCloses(s: TxState, done: seq<seq<Entry>>, cur: seq<Entry>, q: seq<Entry>, mtu: nat)
    requires Packing(s, done, cur, q, mtu) && cur != [] && Load(cur) <= mtu
    requires q == [] || Load(cur) + |q[0].data| > mtu
    ensures Packing(s, done + [cur], [], q, mtu)
  {
    PackStep(cur, q, mtu);
    assert done + ([cur] + PackFrom([], q, mtu)) == (done + [cur]) + PackFrom([], q, mtu);
  }

  lemma PackingTakes(s: TxState, done: seq<seq<Entry>>, cur: seq<Entry>, q: seq<Entry>, mtu: nat)
    requires Packing(s, done, cur, q, mtu) && q != []
    requires cur == [] || Load(cur) + |q[0].data| <= mtu
    ensures FRAME_HDR_LENGTH + |q[0].data| <= mtu
    ensures Packing(s, done, cur + [q[0]], q[1..], mtu)
  {
    PackStep(cur, q, mtu);
    assert forall i :: 0 <= i < |q[1..]| ==> q[1..][i] == q[i + 1];
  }

  lemma AllServed(s: TxState, done: seq<seq<Entry>>, mtu: nat)
    requires Packing(s, done, [], [], mtu) && |done| <= s.buffers
    ensures Transmitted(s, mtu) == Staged(s, done, [], [])
  {
    assert done + [] == done;
    assert done[..|done|] == done && done[|done|..] == [];
  }

  /** When no buffer is left for the rest of the queue, its first datagram is dropped. */
  lemma OutOfBuffers(s: TxState, done: seq<seq<Entry>>, q: seq<Entry>, mtu: nat)
    requires Packing(s, done, [], q, mtu) && q != [] && |done| == s.buffers
    ensures Transmitted(s, mtu) == Staged(s, done, [], q[1..])
  {
    var frames := Frames(s.queue, mtu);
    PackFits([], s.queue, mtu);
    PackKeepsAll([], q, mtu);
    assert [] + q == q;
    assert frames[..|done|] == done && frames[|done|..] == PackFrom([], q, mtu);
  }

  /** The frame that is being filled: its length and where its last datagram starts. */
  datatype OpenFrame = Closed | Open(len: nat, pdgPrev: nat)

  /** The transmit side: the interface and the table of sent datagrams. */
  class Hw {
    const mtuSize: nat
    const buffer: array<Byte>
    const txSend: array<Option<nat>>
    var lostDatagrams: nat
    ghost var log: seq<Event>     // what happened to the datagrams so far
    const txHigh: Pool<Entry>
    const txLow: Pool<Entry>
    var txBuffers: nat            // how often get_tx_buffer still succeeds
    var frameIdx: nat
    var wire: seq<seq<Byte>>      // the frames handed to the interface

    ghost predicate Valid()
    {
      && FRAME_HDR_LENGTH <= mtuSize <= MAX_FRAME_LENGTH
      && buffer.Length >= mtuSize && txSend.Length == 0x100 && txHigh != txLow
    }

    constructor (mtu: nat, buffers: nat)
      requires FRAME_HDR_LENGTH <= mtu <= MAX_FRAME_LENGTH
      ensures Valid() && txHigh.avail == [] && txLow.avail == [] && wire == []
      ensures mtuSize == mtu && txBuffers == buffers
      ensures fresh(buffer) && fresh(txSend) && fresh(txHigh) && fresh(txLow)
      ensures Slots() == Initial()
    {
      mtuSize, txBuffers := mtu, buffers;
      buffer := new Byte[mtu](_ => 0);
      txSend := new Option<nat>[0x100](_ => None);
      txHigh := new Pool<Entry>([]);
      txLow := new Pool<Entry>([]);
      wire, frameIdx, lostDatagrams, log := [], 0, 0, [];
    }

    /** The open frame, if there is one, holds the entries `cur`. */
    ghost predicate Holds(frame: OpenFrame, cur: seq<Entry>)
      reads buffer
    {
      match frame
      case Closed => cur == []
      case Open(len, pdgPrev) =>
        && cur != [] && len == Load(cur) <= mtuSize && mtuSize <= MAX_FRAME_LENGTH && len <= buffer.Length
        && buffer[..len] == FrameBytes(DataOf(cur))
        && pdgPrev == len - |cur[|cur| - 1].data|
    }

    /** The table of sent datagrams. */
    ghost function Slots(): Table
      reads this, txSend
    {
      Table(txSend[..], lostDatagrams, log)
    }

    ghost function State(pool: Pool<Entry>): TxState
      reads this, txSend, pool
    {
      TxState(pool.avail, txBuffers, frameIdx, wire, Slots())
    }

    /** Get a frame buffer with an empty frame in it, if there is one. */
    method GetTxBuffer() returns (ok: bool)
      requires Valid()
      modifies this`txBuffers, buffer
      ensures ok == (old(txBuffers) > 0)
      ensures txBuffers == old(txBuffers) - if ok then 1 else 0
      ensures ok ==> buffer[..FRAME_HDR_LENGTH] == FrameBytes([])
    {
      ok := txBuffers > 0;
      if ok {
        txBuffers := txBuffers - 1;
        WriteHeader(buffer, [], FRAME_HDR_LENGTH);
      }
    }

    /** Transmission of `was` has come this far: `done` are frames that went out, `cur` is in the
        open frame, and `q` is still to be staged. */
    ghost predicate Taking(
        pool: Pool<Entry>, frame: OpenFrame, q: seq<Entry>, was: TxState, done: seq<seq<Entry>>, cur: seq<Entry>)
      reads this, buffer, txSend, pool
    {
      && Valid() && pool.Valid() && Holds(frame, cur)
      && Packing(was, done, cur, q, mtuSize)
      && State(pool) == Staged(was, done, cur, pool.avail)
    }

    ghost predicate Sending(
        pool: Pool<Entry>, frame: OpenFrame, was: TxState, done: seq<seq<Entry>>, cur: seq<Entry>)
      reads this, buffer, txSend, pool
    {
      Taking(pool, frame, pool.avail, was, done, cur)
    }

    /** Send the open frame if nothing more is queued or the next datagram does not fit. */
    method SendIfFull(
        pool: Pool<Entry>, frame: OpenFrame, len: nat,
        ghost q: seq<Entry>, ghost was: TxState, ghost done: seq<seq<Entry>>, ghost cur: seq<Entry>)
      returns (sent: bool, next: OpenFrame, ghost done': seq<seq<Entry>>, ghost cur': seq<Entry>)
      requires Taking(pool, frame, q, was, done, cur) && len == if q == [] then 0 else |q[0].data|
      modifies this`wire, this`frameIdx
      ensures sent <==> frame.Open? && (q == [] || frame.len + |q[0].data| > mtuSize)
      ensures sent ==> next == Closed && wire == old(wire) + [buffer[..frame.len]] && frameIdx == old(frameIdx) + 1
      ensures !sent ==> next == frame && wire == old(wire) && frameIdx == old(frameIdx)
      ensures Taking(pool, next, q, was, done', cur')
      ensures |done'| == |done| + if sent then 1 else 0
    {
      sent, next, done', cur' := false, frame, done, cur;
      if frame.Open? && (len == 0 || frame.len + len > mtuSize) {
        PackingCloses(was, done, cur, q, mtuSize);
        CloseFrame(was, done, cur, pool.avail);
        wire := wire + [buffer[..frame.len]];
        frameIdx := frameIdx + 1;
        sent, next, done', cur' := true, Closed, done + [cur], [];
      }
    }

    /** Append a datagram to the bytes in the buffer. */
    method Copy(len: nat, pdgPrev: Option<nat>, e: Entry, ghost cur: seq<Entry>) returns (next: OpenFrame)
      requires Valid() && len == Load(cur) && len + |e.data| <= mtuSize
      requires buffer[..len] == FrameBytes(DataOf(cur))
      requires pdgPrev == if cur == [] then None else Some(len - |cur[|cur| - 1].data|)
      modifies buffer
      ensures Holds(next, cur + [e])
    {
      LoadAppend(cur, e);
      assert DataOf(cur + [e]) == DataOf(cur) + [e.data];
      AppendDatagram(buffer, len, pdgPrev, e.data, DataOf(cur));
      next := Open(len + |e.data|, len);
    }

    /** Copy an entry into the open frame, or into a new one, and note it as sent. */
    method Stage(frame: OpenFrame, e: Entry, ghost cur: seq<Entry>) returns (ok: bool, next: OpenFrame)
      requires Valid() && Holds(frame, cur)
      requires (if frame.Open? then frame.len else FRAME_HDR_LENGTH) + |e.data| <= mtuSize
      modifies this`txBuffers, this`log, buffer, txSend
      ensures ok == (frame.Open? || old(txBuffers) > 0)
      ensures ok ==> Holds(next, cur + [e])
      ensures txBuffers == old(txBuffers) - if ok && frame.Closed? then 1 else 0
      ensures Slots() == if ok then Noted(old(Slots()), Index(e.data), e.id) else old(Slots())
    {
      ok, next := true, frame;
      if frame.Closed? {
        ok := GetTxBuffer();
        if !ok {
          return;
        }
        next := Copy(FRAME_HDR_LENGTH, None, e, cur);
      } else {
        next := Copy(frame.len, Some(frame.pdgPrev), e, cur);
      }
      log := Noted(Slots(), Index(e.data), e.id).log;
      txSend[Index(e.data)] := Some(e.id);
    }

    /** Stage the entry that was just taken from the queue `q`; `ok` says whether there was a
        buffer for it. */
    method StageNext(
        pool: Pool<Entry>, frame: OpenFrame, e: Entry,
        ghost q: seq<Entry>, ghost was: TxState, ghost done: seq<seq<Entry>>, ghost cur: seq<Entry>)
      returns (ok: bool, next: OpenFrame)
      requires Taking(pool, frame, q, was, done, cur)
      requires q != [] && e == q[0] && pool.avail == q[1..]
      requires frame.Open? ==> frame.len + |e.data| <= mtuSize
      modifies this`txBuffers, this`log, buffer, txSend
      ensures ok ==> Sending(pool, next, was, done, cur + [e])
      ensures !ok ==> State(pool) == Transmitted(was, mtuSize)
    {
      PackingTakes(was, done, cur, q, mtuSize);
      if frame.Closed? && txBuffers == 0 {
        OutOfBuffers(was, done, q, mtuSize);
        return false, frame;
      }
      StageEntry(was, done, cur, pool.avail, e);
      ghost var before := State(pool);
      ok, next := Stage(frame, e, cur);
      assert State(pool) == before.(
        table := Noted(before.table, Index(e.data), e.id), buffers := before.buffers - if cur == [] then 1 else 0);
    }

    /** Take the next entry out of the queue, if there is one. */
    method TakeNext(
        pool: Pool<Entry>, frame: OpenFrame, ghost was: TxState, ghost done: seq<seq<Entry>>, ghost cur: seq<Entry>)
      returns (e: Option<Entry>, ghost q: seq<Entry>)
      requires Sending(pool, frame, was, done, cur)
      modifies pool
      ensures q == old(pool.avail) && Taking(pool, frame, q, was, done, cur)
      ensures if q == [] then e == None && pool.avail == [] else e == Some(q[0]) && pool.avail == q[1..]
    {
      q := pool.avail;
      var _, first := pool.Get(false);
      e := first;
    }

    /** Take the next entry out of the queue, and send the open frame if it is due. */
    method TakeAndSend(
        pool: Pool<Entry>, frame: OpenFrame, ghost was: TxState, ghost done: seq<seq<Entry>>, ghost cur: seq<Entry>)
      returns (
        e: Option<Entry>, next: OpenFrame, sent: bool, ghost q: seq<Entry>, ghost done': seq<seq<Entry>>,
        ghost cur': seq<Entry>)
      requires Sending(pool, frame, was, done, cur)
      modifies this`frameIdx, this`wire, pool
      ensures q == old(pool.avail) && Taking(pool, next, q, was, done', cur')
      ensures if q == [] then e == None && pool.avail == [] else e == Some(q[0]) && pool.avail == q[1..]
      ensures next.Open? ==> q != [] && next.len + |q[0].data| <= mtuSize
      ensures |done'| == |done| + if sent then 1 else 0
    {
      e, q := TakeNext(pool, frame, was, done, cur);
      sent, next, done', cur' := SendIfFull(pool, frame, if e.Some? then |e.value.data| else 0, q, was, done, cur);
    }

    /** Take the next entry of the queue; `more` says whether to go on, `ok` whether there was
        a buffer for it. */
    method TxNext(
        pool: Pool<Entry>, frame: OpenFrame, ghost was: TxState, ghost done: seq<seq<Entry>>, ghost cur: seq<Entry>)
      returns (more: bool, ok: bool, next: OpenFrame, sent: bool, ghost done': seq<seq<Entry>>, ghost cur': seq<Entry>)
      requires Sending(pool, frame, was, done, cur)
      modifies this`txBuffers, this`frameIdx, this`wire, this`log, buffer, txSend, pool
      ensures ok ==> Sending(pool, next, was, done', cur')
      ensures ok ==> if more then |pool.avail| < |old(pool.avail)| else cur' == [] && pool.avail == []
      ensures !ok ==> State(pool) == Transmitted(was, mtuSize)
      ensures |done'| == |done| + (if sent then 1 else 0) && frameIdx == was.frameIdx + |done'|
    {
      var e; ghost var q;
      e, next, sent, q, done', cur' := TakeAndSend(pool, frame, was, done, cur);
      more, ok := e.Some?, true;
      if more {
        ok, next := StageNext(pool, next, e.value, q, was, done', cur');
        cur' := cur' + [e.value];
      }
    }

    /** Send what is queued in a pool. */
    method TxPool(pool: Pool<Entry>) returns (sent: bool)
      requires Valid() && pool.Valid() && EachFits(pool.avail, mtuSize)
      modifies this`txBuffers, this`frameIdx, this`wire, this`log, buffer, txSend, pool
      ensures State(pool) == Transmitted(old(State(pool)), mtuSize)
      ensures sent == (frameIdx > old(frameIdx))
    {
      ghost var was := State(pool);
      ghost var done: seq<seq<Entry>>, cur: seq<Entry> := [], [];
      sent := false;
      var frame, more, ok := Closed, true, true;
      PackingStarts(was, mtuSize);
      while more
        invariant ok && Sending(pool, frame, was, done, cur)
        invariant !more ==> cur == [] && pool.avail == []
        invariant sent == (|done| > 0)
        decreases more, |pool.avail|
      {
        var full: bool;
        more, ok, frame, full, done, cur := TxNext(pool, frame, was, done, cur);
        sent := sent || full;
        if !ok {
          return;
        }
      }
      AllServed(was, done, mtuSize);
    }

    /** Send what is queued, the entries of high priority first. */
    method Tx() returns (sent: bool)
      requires Valid() && txHigh.Valid() && txLow.Valid()
      requires EachFits(txHigh.avail, mtuSize) && EachFits(txLow.avail, mtuSize)
      modifies this`txBuffers, this`frameIdx, this`wire, this`log, buffer, txSend, txHigh, txLow
      ensures
        var first := Transmitted(old(State(txHigh)), mtuSize);
        && txHigh.avail == first.queue
        && State(txLow) == Transmitted(first.(queue := old(txLow.avail)), mtuSize)
      ensures sent == (frameIdx > old(frameIdx))
    {
      sent := TxPool(txHigh);
      var low := TxPool(txLow);
      sent := sent || low;
    }

    // -------------------------------------------------------------------------------------
    // Enqueueing and receiving
    // -------------------------------------------------------------------------------------

    /** Queue an entry; a datagram that is still on the wire under its index is given up. */
    method Enqueue(e: Entry, high: bool)
      requires Valid() && txHigh.Valid() && txLow.Valid()
      modifies this`lostDatagrams, this`log, txSend, txHigh, txLow
      ensures Valid() && txHigh.Valid() && txLow.Valid()
      ensures Slots() == Enqueued(old(Slots()), Index(e.data))
      ensures txSend[..] == old(txSend[..])[Index(e.data) := None]
      ensures lostDatagrams == old(lostDatagrams) + if old(txSend[Index(e.data)]).Some? then 1 else 0
      ensures txHigh.avail == old(txHigh.avail) + if high then [e] else []
      ensures txLow.avail == old(txLow.avail) + if high then [] else [e]
    {
      log := Enqueued(Slots(), Index(e.data)).log;
      if txSend[Index(e.data)] != None {
        txSend[Index(e.data)] := None;
        lostDatagrams := lostDatagrams + 1;
      }
      if high {
        txHigh.Put(e);
      } else {
        txLow.Put(e);
      }
    }

    /** Hand a received datagram to the entry in its slot, which is empty from then on. */
    method Dispatch(idx: nat) returns (success: bool)
      requires Valid() && idx < SLOTS
      modifies this`log, txSend
      ensures Slots() == Dispatched(old(Slots()), idx)
      ensures success == old(txSend[idx]).Some? && txSend[..] == old(txSend[..])[idx := None]
      ensures |log| == |old(log)| + if success then 1 else 0
    {
      log := Dispatched(Slots(), idx).log;
      success := txSend[idx] != None;
      txSend[idx] := None;
    }

    /** Process a received frame: every datagram in it is handed to the entry in its slot. */
    method ProcessRxFrame(f: seq<Byte>) returns (success: bool)
      requires Valid() && |f| >= FRAME_HDR_LENGTH
      modifies this`log, txSend
      ensures Slots() == DispatchedAll(old(Slots()), Indices(Received(f)))
      ensures success == (|log| > |old(log)|)
    {
      success := false;
      if IsEtherCat(f) {
        var pos, end := FRAME_HDR_LENGTH, FrameLength(f);
        while pos < end && pos + 8 <= |f| && pos + Length(f[pos..]) <= |f|
          invariant FRAME_HDR_LENGTH <= pos && |log| >= |old(log)|
          invariant
            DispatchedAll(Slots(), Indices(Walk(f, pos, end)))
            == DispatchedAll(old(Slots()), Indices(Received(f)))
          invariant success == (|log| > |old(log)|)
          decreases |f| - pos
        {
          var idx, next := Index(f[pos..]), pos + Length(f[pos..]);
          NextDispatched(Slots(), f, pos, end, idx, next);
          var called := Dispatch(idx);
          success := success || called;
          pos := next;
        }
        assert Walk(f, pos, end) == [];
      }
    }
  }

  /** The indices of received datagrams. */
  function Indices(ds: seq<seq<Byte>>): (r: seq<nat>)
    ensures |r| == |ds| && forall i :: 0 <= i < |r| ==> r[i] < SLOTS
  {
    seq(|ds|, i requires 0 <= i < |ds| => if |ds[i]| >= 2 then Index(ds[i]) else 0)
  }

  lemma NextIndex(f: seq<Byte>, pos: nat, end: nat)
    requires pos < end && pos + 8 <= |f| && pos + Length(f[pos..]) <= |f|
    ensures Indices(Walk(f, pos, end)) == [Index(f[pos..])] + Indices(Walk(f, pos + Length(f[pos..]), end))
  {
    assert Index(f[pos..pos + Length(f[pos..])]) == Index(f[pos..]);
  }

  lemma NextDispatched(t: Table, f: seq<Byte>, pos: nat, end: nat, idx: nat, next: nat)
    requires WellFormed(t) && pos < end && pos + 8 <= |f| && next == pos + Length(f[pos..]) <= |f|
    requires idx == Index(f[pos..]) < SLOTS
    ensures DispatchedAll(t, Indices(Walk(f, pos, end)))
      == DispatchedAll(Dispatched(t, idx), Indices(Walk(f, next, end)))
  {
    NextIndex(f, pos, end);
    var rest := Indices(Walk(f, next, end));
    assert ([idx] + rest)[1..] == rest;
  }

  // ---------------------------------------------------------------------------------------
  // What one transmission achieves
  // ---------------------------------------------------------------------------------------

  /** The entries that went out in a transmission. */
  function SentEntries(s: TxState, mtu: nat): seq<Entry> {
    var frames := Frames(s.queue, mtu);
    Flatten(frames[..Served(s, frames)])
  }

  /** The datagram in hand when the buffers ran out. */
  function Dropped(s: TxState, mtu: nat): seq<Entry> {
    var rest := Unserved(s, mtu);
    if rest == [] then [] else [rest[0]]
  }

  lemma ServedAndUnserved(s: TxState, mtu: nat)
    requires EachFits(s.queue, mtu)
    ensures s.queue == SentEntries(s, mtu) + Unserved(s, mtu)
    ensures Unserved(s, mtu) == [] <==> Served(s, Frames(s.queue, mtu)) == |Frames(s.queue, mtu)|
  {
    var frames := Frames(s.queue, mtu);
    var n := Served(s, frames);
    PackFits([], s.queue, mtu);
    PackKeepsAll([], s.queue, mtu);
    FlattenConcat(frames[..n], frames[n..]);
    assert frames == frames[..n] + frames[n..];
    assert [] + s.queue == s.queue;
    if n < |frames| {
      assert frames[n..][0] == frames[n];
    }
  }

  /** Main theorem on one transmission, with any number of frame buffers: the queue splits into
      what went out, at most one dropped datagram, and what stays queued; and a datagram is
      dropped exactly when packing needs more frames than there are buffers. */
  lemma TransmissionSplitsQueue(s: TxState, mtu: nat)
    requires EachFits(s.queue, mtu) && mtu <= MAX_FRAME_LENGTH && WellFormed(s.table) && s.buffers >= 0
    ensures s.queue == SentEntries(s, mtu) + Dropped(s, mtu) + Transmitted(s, mtu).queue
    ensures Dropped(s, mtu) == [] <==> |Frames(s.queue, mtu)| <= s.buffers
  {
    ServedAndUnserved(s, mtu);
    var rest := Unserved(s, mtu);
    if rest != [] {
      assert rest == [rest[0]] + rest[1..];
    }
  }

  /** Transmitting keeps the history of every index in order (see `WireAccounting`). */
  lemma {:induction false} NotedAllKeeps(t: Table, sent: seq<Entry>)
    requires Consistent(t)
    ensures Consistent(NotedAll(t, sent))
  {
    if sent != [] {
      var last := sent[|sent| - 1];
      NotedAllKeeps(t, sent[..|sent| - 1]);
      NotedKeeps(NotedAll(t, sent[..|sent| - 1]), Index(last.data), last.id);
    }
  }

  /** What went out is what the receiver sees on the wire, datagram by datagram. */
  lemma TransmissionIsReceived(s: TxState, mtu: nat)
    requires EachFits(s.queue, mtu) && mtu <= MAX_FRAME_LENGTH && WellFormed(s.table) && s.buffers >= 0
    ensures
      var wire, sent := Transmitted(s, mtu).wire, SentEntries(s, mtu);
      && s.wire <= wire && |wire| - |s.wire| <= s.buffers
      && var seen := ReceivedAll(wire[|s.wire|..]);
        && |seen| == |sent|
        && forall i :: 0 <= i < |sent| ==>
          |seen[i]| == |sent[i].data| && seen[i] == Marked(sent[i].data, MoreFollows(seen[i]))
  {
    var frames := Frames(s.queue, mtu);
    var out := frames[..Served(s, frames)];
    PackFits([], s.queue, mtu);
    WireRoundTrip(out);
    LinkedAllIsQueue(out);
    assert Transmitted(s, mtu).wire[|s.wire|..] == Encoded(out);
  }
}
