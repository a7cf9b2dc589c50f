/** Packing queued datagrams into frames that fit the network interface, first come first
    served, and why this loses nothing and needs the fewest frames. */
module FramePacking {
  import opened Bytes
  import opened Datagrams

  // ---------------------------------------------------------------------------------------
  // The packing as a function
  // ---------------------------------------------------------------------------------------

  /** The size of a frame that holds these entries. */
  function Load(es: seq<Entry>): nat {
    FrameSize(DataOf(es))
  }

  /** The frames that packing produces when the open frame already holds `cur`. */
  function PackFrom(cur: seq<Entry>, q: seq<Entry>, mtu: nat): (frames: seq<seq<Entry>>)
    decreases |q|
  {
    if q == [] then (if cur == [] then [] else [cur])
    else if cur != [] && Load(cur) + |q[0].data| > mtu then [cur] + PackFrom([q[0]], q[1..], mtu)
    else PackFrom(cur + [q[0]], q[1..], mtu)
  }

  function Frames(q: seq<Entry>, mtu: nat): seq<seq<Entry>> {
    PackFrom([], q, mtu)
  }

  /** Every datagram of the queue fits into a frame of its own. */
  predicate EachFits(q: seq<Entry>, mtu: nat) {
    forall i :: 0 <= i < |q| ==> FRAME_HDR_LENGTH + |q[i].data| <= mtu
  }

  /** Closing a full frame, or taking one more datagram into the open one. */
  lemma PackStep(cur: seq<Entry>, q: seq<Entry>, mtu: nat)
    ensures cur != [] && (q == [] || Load(cur) + |q[0].data| > mtu) ==>
      PackFrom(cur, q, mtu) == [cur] + PackFrom([], q, mtu)
    ensures q != [] && (cur == [] || Load(cur) + |q[0].data| <= mtu) ==>
      PackFrom(cur, q, mtu) == PackFrom(cur + [q[0]], q[1..], mtu)
  {
    if q != [] {
      assert [] + [q[0]] == [q[0]];
    }
  }

  lemma LoadAppend(es: seq<Entry>, e: Entry)
    ensures Load(es + [e]) == Load(es) + |e.data|
  {
    SizeAppend(DataOf(es), e.data);
    assert DataOf(es + [e]) == DataOf(es) + [e.data];
  }

  lemma LoadOne(e: Entry)
    ensures Load([]) == FRAME_HDR_LENGTH && Load([e]) == FRAME_HDR_LENGTH + |e.data|
  {
    LoadAppend([], e);
    assert [] + [e] == [e];
  }

  lemma {:induction false} LoadConcat(a: seq<Entry>, b: seq<Entry>)
    ensures Load(a + b) >= Load(a)
    decreases |b|
  {
    if b == [] {
      assert a + b == a;
    } else {
      LoadConcat(a + [b[0]], b[1..]);
      LoadAppend(a, b[0]);
      assert a + b == (a + [b[0]]) + b[1..];
    }
  }

  lemma {:induction false} PackKeepsAll(cur: seq<Entry>, q: seq<Entry>, mtu: nat)
    ensures Flatten(PackFrom(cur, q, mtu)) == cur + q
    decreases |q|
  {
    if q == [] {
      FlattenOne(cur);
    } else if cur != [] && Load(cur) + |q[0].data| > mtu {
      PackKeepsAll([q[0]], q[1..], mtu);
      var rest := PackFrom([q[0]], q[1..], mtu);
      assert ([cur] + rest)[1..] == rest;
      assert q == [q[0]] + q[1..];
    } else {
      PackKeepsAll(cur + [q[0]], q[1..], mtu);
      assert cur + q == (cur + [q[0]]) + q[1..];
    }
  }

  lemma {:induction false} PackFits(cur: seq<Entry>, q: seq<Entry>, mtu: nat)
    requires EachFits(q, mtu) && (cur == [] || Load(cur) <= mtu)
    ensures forall i :: 0 <= i < |PackFrom(cur, q, mtu)| ==>
      PackFrom(cur, q, mtu)[i] != [] && Load(PackFrom(cur, q, mtu)[i]) <= mtu
    decreases |q|
  {
    if q != [] {
      assert forall i :: 0 <= i < |q[1..]| ==> q[1..][i] == q[i + 1];
      LoadAppend(cur, q[0]);
      LoadOne(q[0]);
      if cur != [] && Load(cur) + |q[0].data| > mtu {
        PackFits([q[0]], q[1..], mtu);
      } else {
        PackFits(cur + [q[0]], q[1..], mtu);
      }
    }
  }

  // ---------------------------------------------------------------------------------------
  // No packing in order needs fewer frames
  // ---------------------------------------------------------------------------------------

  /** A way to send the queue in order, in frames that fit. */
  ghost predicate IsSplit(parts: seq<seq<Entry>>, q: seq<Entry>, mtu: nat) {
    Flatten(parts) == q && forall i :: 0 <= i < |parts| ==> Load(parts[i]) <= mtu
  }

  /** Having less in the open frame never costs more frames. */
  lemma {:induction false} SmallerIsBetter(cur: seq<Entry>, cur': seq<Entry>, q: seq<Entry>, mtu: nat)
    requires Load(cur) <= Load(cur') && cur' != []
    ensures |PackFrom(cur, q, mtu)| <= |PackFrom(cur', q, mtu)|
    decreases |q|
  {
    if q != [] {
      LoadAppend(cur, q[0]);
      LoadAppend(cur', q[0]);
      if cur != [] && Load(cur) + |q[0].data| > mtu {
        // both close their frame
      } else if Load(cur') + |q[0].data| > mtu {
        OneMore(cur + [q[0]], [q[0]], q[1..], mtu);
      } else {
        SmallerIsBetter(cur + [q[0]], cur' + [q[0]], q[1..], mtu);
      }
    }
  }

  /** Whatever the open frame holds, it costs at most one frame more than any other open
      frame. */
  lemma {:induction false} OneMore(cur: seq<Entry>, cur': seq<Entry>, q: seq<Entry>, mtu: nat)
    requires cur' != []
    ensures |PackFrom(cur, q, mtu)| <= 1 + |PackFrom(cur', q, mtu)|
    decreases |q|, 1
  {
    if q != [] {
      if cur != [] && Load(cur) + |q[0].data| > mtu {
        FreshIsBest(cur', q, mtu);
      } else if Load(cur') + |q[0].data| > mtu {
        OneMore(cur + [q[0]], [q[0]], q[1..], mtu);
      } else {
        OneMore(cur + [q[0]], cur' + [q[0]], q[1..], mtu);
      }
    }
  }

  /** Starting a fresh frame with the next datagram is at most as costly as any open frame. */
  lemma {:induction false} FreshIsBest(cur': seq<Entry>, q: seq<Entry>, mtu: nat)
    requires cur' != [] && q != []
    ensures |PackFrom([q[0]], q[1..], mtu)| <= |PackFrom(cur', q, mtu)|
    decreases |q|, 0
  {
    if Load(cur') + |q[0].data| <= mtu {
      LoadAppend(cur', q[0]);
      LoadOne(q[0]);
      SmallerIsBetter([q[0]], cur' + [q[0]], q[1..], mtu);
    }
  }

  /** A queue needs at most one frame more than what is left of it behind a first part that
      fits into the open frame. */
  lemma {:induction false} DropPart(cur: seq<Entry>, part: seq<Entry>, q: seq<Entry>, mtu: nat)
    requires Load(cur + part) <= mtu
    ensures |PackFrom(cur, part + q, mtu)| <= 1 + |Frames(q, mtu)|
    decreases |part|
  {
    if part == [] {
      assert part + q == q;
      if q != [] {
        OneMore(cur, [q[0]], q[1..], mtu);
        OneMore(cur + [q[0]], [q[0]], q[1..], mtu);
        assert [] + [q[0]] == [q[0]];
      }
    } else {
      assert (part + q)[1..] == part[1..] + q;
      assert cur + part == (cur + [part[0]]) + part[1..];
      LoadConcat(cur + [part[0]], part[1..]);
      LoadAppend(cur, part[0]);
      DropPart(cur + [part[0]], part[1..], q, mtu);
    }
  }

  /** Main theorem on the number of frames: no way of sending the queue in order, in frames
      that fit, uses fewer frames than packing does. */
  lemma {:induction false} PackingIsOptimal(q: seq<Entry>, parts: seq<seq<Entry>>, mtu: nat)
    requires IsSplit(parts, q, mtu)
    ensures |Frames(q, mtu)| <= |parts|
    decreases |parts|
  {
    if parts != [] {
      var rest := Flatten(parts[1..]);
      PackingIsOptimal(rest, parts[1..], mtu);
      assert [] + parts[0] == parts[0];
      DropPart([], parts[0], rest, mtu);
    }
  }

  // ---------------------------------------------------------------------------------------
  // The wire
  // ---------------------------------------------------------------------------------------

  predicate AllFit(frames: seq<seq<Entry>>, limit: nat) {
    forall i :: 0 <= i < |frames| ==> Load(frames[i]) <= limit
  }

  /** The bytes of frames. */
  function Encoded(frames: seq<seq<Entry>>): (wire: seq<seq<Byte>>)
    requires AllFit(frames, MAX_FRAME_LENGTH)
    ensures |wire| == |frames|
  {
    seq(|frames|, i requires 0 <= i < |frames| => FrameBytes(DataOf(frames[i])))
  }

  /** What the receiver sees on the wire, frame after frame. */
  function ReceivedAll(wire: seq<seq<Byte>>): seq<seq<Byte>> {
    if wire == [] then [] else Received(wire[0]) + ReceivedAll(wire[1..])
  }

  /** The datagrams as they travel: each one announces the next one in its frame. */
  function LinkedAll(frames: seq<seq<Entry>>): seq<Datagram> {
    if frames == [] then [] else Linked(DataOf(frames[0])) + LinkedAll(frames[1..])
  }

  lemma {:induction false} WireRoundTrip(frames: seq<seq<Entry>>)
    requires AllFit(frames, MAX_FRAME_LENGTH)
    ensures ReceivedAll(Encoded(frames)) == LinkedAll(frames)
  {
    if frames != [] {
      FrameRoundTrip(DataOf(frames[0]));
      WireRoundTrip(frames[1..]);
      assert Encoded(frames)[1..] == Encoded(frames[1..]);
    }
  }

  /** Linking changes nothing but the "more follows" bits. */
  lemma {:induction false} LinkedAllIsQueue(frames: seq<seq<Entry>>)
    ensures |LinkedAll(frames)| == |Flatten(frames)|
    ensures forall i :: 0 <= i < |LinkedAll(frames)| ==>
      LinkedAll(frames)[i] == Marked(Flatten(frames)[i].data, MoreFollows(LinkedAll(frames)[i]))
  {
    if frames != [] {
      LinkedAllIsQueue(frames[1..]);
    }
  }

  /** In a received frame every datagram but the last one announces another. */
  predicate Announces(seen: seq<seq<Byte>>) {
    forall k :: 0 <= k < |seen| ==> |seen[k]| >= 8 && MoreFollows(seen[k]) == (k + 1 < |seen|)
  }

  /** Every frame arrives with as many datagrams as it has, all but the last one announcing another. */
  predicate AllAnnounce(frames: seq<seq<Entry>>)
    requires AllFit(frames, MAX_FRAME_LENGTH)
  {
    forall i :: 0 <= i < |frames| ==>
      |Received(Encoded(frames)[i])| == |frames[i]| && Announces(Received(Encoded(frames)[i]))
  }

  lemma FramesAnnounce(frames: seq<seq<Entry>>)
    requires AllFit(frames, MAX_FRAME_LENGTH)
    ensures AllAnnounce(frames)
  {
    forall i | 0 <= i < |frames|
      ensures |Received(Encoded(frames)[i])| == |frames[i]| && Announces(Received(Encoded(frames)[i]))
    {
      FrameRoundTrip(DataOf(frames[i]));
    }
  }

  /** Datagrams as they were queued, but for their "more follows" bits. */
  predicate Resembles(seen: seq<seq<Byte>>, q: seq<Entry>) {
    && |seen| == |q|
    && forall i :: 0 <= i < |q| ==> |seen[i]| == |q[i].data| && seen[i] == Marked(q[i].data, MoreFollows(seen[i]))
  }

  lemma WireResembles(frames: seq<seq<Entry>>)
    requires AllFit(frames, MAX_FRAME_LENGTH)
    ensures Resembles(ReceivedAll(Encoded(frames)), Flatten(frames))
  {
    WireRoundTrip(frames);
    LinkedAllIsQueue(frames);
  }

  /** Main theorem on the transport: for every queue, the receiver that walks all frames sees
      every queued datagram once, in the order of the queue, unchanged but for the "more
      follows" bit; every frame fits the interface and is not empty, and within a frame the
      bit is set on all datagrams but the last one. */
  lemma PackParseRoundTrip(q: seq<Entry>, mtu: nat, frames: seq<seq<Entry>>)
    requires EachFits(q, mtu) && mtu <= MAX_FRAME_LENGTH && frames == Frames(q, mtu)
    ensures AllFit(frames, mtu) && AllFit(frames, MAX_FRAME_LENGTH)
    ensures forall i :: 0 <= i < |frames| ==> frames[i] != []
    ensures Resembles(ReceivedAll(Encoded(frames)), q) && AllAnnounce(frames)
  {
    PackFits([], q, mtu);
    PackKeepsAll([], q, mtu);
    WireResembles(frames);
    FramesAnnounce(frames);
  }
}
