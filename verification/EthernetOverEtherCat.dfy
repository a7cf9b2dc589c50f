/** Ethernet frames through the mailbox: cutting a frame into fragments and putting received
    fragments together again (Ethernet over EtherCAT, ETG.1000.6 section 5.7). */
module EthernetOverEtherCat {
  import opened Bytes
  import opened Division
  import opened Mailboxes

  const EOE_HDR := 4
  const FIELD := 64      // the fragment number and the size field have six bits
  const BLOCK := 32      // sizes and offsets are given in blocks of 32 bytes

  /** The parts of a fragment that matter; its mailbox length is 4 plus the length of the data. */
  datatype Fragment = Fragment(last: bool, number: nat, completeSize: nat, data: seq<Byte>)

  // ---------------------------------------------------------------------------------------
  // Sending
  // ---------------------------------------------------------------------------------------

  /** The longest fragment: what fits into the mailbox, in whole blocks. */
  function MaxFragLen(mailbox: nat): nat
    requires mailbox >= MBX_HDR + EOE_HDR
  {
    (mailbox - MBX_HDR - EOE_HDR) / BLOCK * BLOCK
  }

  function FragmentAt(frame: seq<Byte>, max: nat, offset: nat, number: nat): Fragment
    requires offset <= |frame|
  {
    var n := Min(|frame| - offset, max);
    Fragment(
      n < max,
      number % FIELD,
      (if number == 0 then (|frame| + 31) / BLOCK else offset / BLOCK) % FIELD,
      frame[offset..offset + n])
  }

  /** The fragments of a frame from `offset` on. */
  function Fragments(frame: seq<Byte>, max: nat, offset: nat, number: nat): (fs: seq<Fragment>)
    requires offset <= |frame| && max > 0
    ensures |fs| >= 1
    decreases |frame| - offset
  {
    var f := FragmentAt(frame, max, offset, number);
    [f] + if offset + |f.data| < |frame| then Fragments(frame, max, offset + |f.data|, number + 1) else []
  }

  /** What the loop of a send has sent in the end, with `sent` on the way when it comes to `offset`. */
  function SentAll(sent: seq<Fragment>, frame: seq<Byte>, max: nat, offset: nat, number: nat): seq<Fragment>
    requires offset <= |frame| && max > 0
    decreases |frame| - offset
  {
    var f := FragmentAt(frame, max, offset, number);
    if offset + |f.data| < |frame| then SentAll(sent + [f], frame, max, offset + |f.data|, number + 1) else sent + [f]
  }

  lemma {:induction false} SentAllIsFragments(sent: seq<Fragment>, frame: seq<Byte>, max: nat, offset: nat, number: nat)
    requires offset <= |frame| && max > 0
    ensures SentAll(sent, frame, max, offset, number) == sent + Fragments(frame, max, offset, number)
    decreases |frame| - offset
  {
    var f := FragmentAt(frame, max, offset, number);
    var offset' := offset + |f.data|;
    if offset' < |frame| {
      SentAllIsFragments(sent + [f], frame, max, offset', number + 1);
      InTheMiddle(sent, f, Fragments(frame, max, offset', number + 1));
    }
  }

  /** A mailbox must hold at least one block, or the loop would never advance. */
  method SendFrame(frame: seq<Byte>, mailbox: nat) returns (sent: seq<Fragment>)
    requires mailbox >= MBX_HDR + EOE_HDR + BLOCK
    ensures MaxFragLen(mailbox) > 0
    ensures sent == Fragments(frame, MaxFragLen(mailbox), 0, 0)
  {
    var maxFragLen := MaxFragLen(mailbox);
    var frameOffset: nat, fragNumber: nat := 0, 0;
    sent := [];
    var more := true;
    SentAllIsFragments([], frame, maxFragLen, 0, 0);
    while more
      invariant frameOffset <= |frame|
      invariant SentAll([], frame, maxFragLen, 0, 0)
        == if more then SentAll(sent, frame, maxFragLen, frameOffset, fragNumber) else sent
      decreases more, |frame| - frameOffset
    {
      var fragLen := |frame| - frameOffset;
      fragLen := Min(fragLen, maxFragLen);
      var last := fragLen < maxFragLen;
      var completeSize := if fragNumber == 0 then (|frame| + 31) / BLOCK else frameOffset / BLOCK;
      var f := Fragment(last, fragNumber % FIELD, completeSize % FIELD, frame[frameOffset..frameOffset + fragLen]);
      sent := sent + [f];
      frameOffset, fragNumber := frameOffset + fragLen, fragNumber + 1;
      more := frameOffset < |frame|;
    }
  }

  // ---------------------------------------------------------------------------------------
  // Receiving
  // ---------------------------------------------------------------------------------------

  /** What becomes of one attempt to receive a frame: there was no fragment, or no buffer; the
      first fragment was not a first one; or a frame was handed on, with the size reported for
      it, whether its last fragment came, and how many offsets did not match. */
  datatype Received =
    | Nothing
    | OutOfMemory
    | NotAFirst
    | Frame(data: seq<Byte>, size: nat, complete: bool, mismatches: nat)

  /** The rest of a frame of which `data` has arrived. */
  function Rest(q: seq<Fragment>, data: seq<Byte>, size: nat, mismatches: nat): (Received, seq<Fragment>)
    decreases |q|
  {
    if q == [] then (Frame(data, size, false, mismatches), [])
    else
      var m := mismatches + if |data| != q[0].completeSize * BLOCK then 1 else 0;
      if q[0].last then (Frame(data + q[0].data, size, true, m), q[1..])
      else Rest(q[1..], data + q[0].data, size, m)
  }

  /** Receiving from a queue of fragments; returns what is left of the queue, too. */
  function Receive(q: seq<Fragment>, buffer: bool, toVeth: bool): (Received, seq<Fragment>) {
    if q == [] then (Nothing, [])
    else if !buffer then (OutOfMemory, q[1..])
    else if q[0].number != 0 then (NotAFirst, q[1..])
    else if q[0].last then
      (Frame(q[0].data, if toVeth then |q[0].data| else q[0].completeSize * BLOCK, true, 0), q[1..])
    else Rest(q[1..], q[0].data, q[0].completeSize * BLOCK, 0)
  }

  /** `toVeth` tells the virtual network device from the pool for frames that nobody asked for. */
  method ProcessRecv(q: seq<Fragment>, buffer: bool, toVeth: bool) returns (r: Received, left: seq<Fragment>)
    ensures (r, left) == Receive(q, buffer, toVeth)
  {
    if q == [] {
      return Nothing, [];
    }
    var readBuf := q[0];
    left := q[1..];
    if !buffer {
      return OutOfMemory, left;
    }
    if readBuf.number != 0 {
      return NotAFirst, left;
    }
    var frameSize := readBuf.completeSize * BLOCK;
    var frameData := readBuf.data;
    if readBuf.last {
      return Frame(frameData, if toVeth then |frameData| else frameSize, true, 0), left;
    }
    var mismatches := 0;
    while left != []
      invariant mismatches >= 0
      invariant Receive(q, buffer, toVeth) == Rest(left, frameData, frameSize, mismatches)
      decreases |left|
    {
      readBuf, left := left[0], left[1..];
      if |frameData| != readBuf.completeSize * BLOCK {
        mismatches := mismatches + 1;
      }
      frameData := frameData + readBuf.data;
      if readBuf.last {
        return Frame(frameData, frameSize, true, mismatches), left;
      }
    }
    r := Frame(frameData, frameSize, false, mismatches);
  }

  /** The fragments up to the first one that is marked as the last one. */
  function Whole(q: seq<Fragment>): (w: seq<Fragment>)
    ensures |w| <= |q| && w == q[..|w|]
  {
    if q == [] then [] else if q[0].last then [q[0]] else [q[0]] + Whole(q[1..])
  }

  predicate AnyLast(q: seq<Fragment>) {
    exists i :: 0 <= i < |q| && q[i].last
  }

  /** Their data. */
  function WholeData(q: seq<Fragment>): seq<Byte> {
    Flatten(Bodies(Whole(q)))
  }

  lemma AnyLastSplits(q: seq<Fragment>)
    requires q != []
    ensures AnyLast(q) <==> q[0].last || AnyLast(q[1..])
  {
    if i :| 0 <= i < |q| && q[i].last {
      assert i > 0 ==> q[1..][i - 1].last;
    }
    if i :| 0 <= i < |q[1..]| && q[1..][i].last {
      assert q[i + 1].last;
    }
  }

  lemma WholeDataSplits(q: seq<Fragment>)
    requires q != []
    ensures WholeData(q) == q[0].data + if q[0].last then [] else WholeData(q[1..])
  {
    var later := if q[0].last then [] else Whole(q[1..]);
    assert Whole(q) == [q[0]] + later;
    BodiesOf(q[0], later);
    assert q[0].last ==> Flatten(Bodies(later)) == [];
  }

  lemma RemainderSplits(q: seq<Fragment>)
    requires q != []
    ensures q[|Whole(q)|..] == if q[0].last then q[1..] else q[1..][|Whole(q[1..])|..]
  {
    assert |Whole(q)| == 1 + if q[0].last then 0 else |Whole(q[1..])|;
  }

  lemma WholeSplits(q: seq<Fragment>)
    requires q != []
    ensures AnyLast(q) <==> q[0].last || AnyLast(q[1..])
    ensures WholeData(q) == q[0].data + if q[0].last then [] else WholeData(q[1..])
    ensures q[|Whole(q)|..] == if q[0].last then q[1..] else q[1..][|Whole(q[1..])|..]
  {
    AnyLastSplits(q);
    WholeDataSplits(q);
    RemainderSplits(q);
  }

  /** Putting fragments together takes all data up to a last fragment, and leaves the rest. */
  lemma {:induction false} RestTakesWhole(q: seq<Fragment>, data: seq<Byte>, size: nat, mismatches: nat)
    ensures
      var (r, left) := Rest(q, data, size, mismatches);
      && r.Frame? && r.data == data + WholeData(q) && r.size == size
      && (r.complete <==> AnyLast(q)) && left == q[|Whole(q)|..]
    decreases |q|
  {
    if q == [] {
      assert Bodies([]) == [] && data + [] == data;
    } else {
      WholeSplits(q);
      if q[0].last {
        assert q[0].data + [] == q[0].data;
      } else {
        var m := mismatches + if |data| != q[0].completeSize * BLOCK then 1 else 0;
        RestTakesWhole(q[1..], data + q[0].data, size, m);
        Associates(data, q[0].data, WholeData(q[1..]));
      }
    }
  }

  /** What a receiver makes of any queue of fragments. */
  lemma WhatIsReceived(q: seq<Fragment>, buffer: bool, toVeth: bool)
    ensures
      var (r, left) := Receive(q, buffer, toVeth);
      && (q == [] ==> r == Nothing && left == [])
      && (q != [] && !buffer ==> r == OutOfMemory && left == q[1..])
      && (q != [] && buffer && q[0].number != 0 ==> r == NotAFirst && left == q[1..])
      && (q != [] && buffer && q[0].number == 0 ==>
          && r.Frame? && r.data == WholeData(q) && (r.complete <==> AnyLast(q)) && left == q[|Whole(q)|..]
          && r.size == (if toVeth && q[0].last then |r.data| else 32 * q[0].completeSize))
  {
    if q != [] && buffer && q[0].number == 0 {
      WholeSplits(q);
      if q[0].last {
        assert q[0].data + [] == q[0].data;
      } else {
        RestTakesWhole(q[1..], q[0].data, q[0].completeSize * BLOCK, 0);
      }
    }
  }

  // ---------------------------------------------------------------------------------------
  // Round trip
  // ---------------------------------------------------------------------------------------

  /** A frame that fills its last fragment: no fragment of it is marked as the last one. */
  predicate FillsUp(frame: seq<Byte>, max: nat)
    requires max > 0
  {
    |frame| > 0 && |frame| % max == 0
  }

  function RoundUp(n: nat): nat {
    (n + 31) / BLOCK * BLOCK
  }

  /** The length of a frame as the size field of its first fragment gives it. */
  function Reported(n: nat): nat {
    (n + 31) / BLOCK % FIELD * BLOCK
  }

  /** Taking one fragment. */
  lemma RestTakes(
      f: Fragment, next: seq<Fragment>, more: seq<Fragment>, data: seq<Byte>, size: nat, mismatches: nat, m: nat)
    requires m == mismatches + if |data| != f.completeSize * BLOCK then 1 else 0
    ensures Rest([f] + next + more, data, size, mismatches) ==
      if f.last then (Frame(data + f.data, size, true, m), next + more) else Rest(next + more, data + f.data, size, m)
  {
    InFront(f, next, more);
  }

  /** One of the later fragments of a frame. */
  lemma LaterFragment(frame: seq<Byte>, max: nat, offset: nat, number: nat, f: Fragment)
    requires max > 0 && max % BLOCK == 0 && offset < |frame| && offset % max == 0 && number > 0
    requires f == FragmentAt(frame, max, offset, number)
    ensures f.last <==> |frame| < offset + max
    ensures offset == f.completeSize * BLOCK <==> offset < FIELD * BLOCK
    ensures |f.data| == Min(|frame| - offset, max)
    ensures frame[..offset] + f.data == if offset + max < |frame| then frame[..offset + max] else frame
  {
    OffsetMatches(offset, max);
  }

  /** Putting one of the later fragments of a frame to those in front of it. */
  lemma RestStep(
      frame: seq<Byte>, max: nat, offset: nat, number: nat, more: seq<Fragment>, size: nat, mismatches: nat, m: nat)
    requires max > 0 && max % BLOCK == 0 && offset < |frame| && offset % max == 0 && number > 0
    requires m == mismatches + if offset < FIELD * BLOCK then 0 else 1
    ensures Rest(Fragments(frame, max, offset, number) + more, frame[..offset], size, mismatches) ==
      if offset + max < |frame| then
        Rest(Fragments(frame, max, offset + max, number + 1) + more, frame[..offset + max], size, m)
      else if offset + max == |frame| then Rest(more, frame, size, m)
      else (Frame(frame, size, true, m), more)
  {
    var f := FragmentAt(frame, max, offset, number);
    var next := if offset + max < |frame| then Fragments(frame, max, offset + max, number + 1) else [];
    LaterFragment(frame, max, offset, number, f);
    RestTakes(f, next, more, frame[..offset], size, mismatches, m);
    assert Fragments(frame, max, offset, number) == [f] + next;
    assert [] + more == more;
  }

  /** Putting the later fragments of a frame together, `more` being whatever follows them. */
  lemma {:induction false} RestRoundTrip(
      frame: seq<Byte>, max: nat, offset: nat, number: nat, more: seq<Fragment>, size: nat, mismatches: nat)
    requires max > 0 && max % BLOCK == 0 && offset < |frame| && offset % max == 0 && number > 0
    ensures
      var r := Rest(Fragments(frame, max, offset, number) + more, frame[..offset], size, mismatches);
      var m := mismatches + Missed(|frame|, max, offset);
      r == if FillsUp(frame, max) then Rest(more, frame, size, m) else (Frame(frame, size, true, m), more)
    decreases |frame| - offset
  {
    var m := mismatches + if offset < FIELD * BLOCK then 0 else 1;
    RestStep(frame, max, offset, number, more, size, mismatches, m);
    FromMultiple(offset, 0, max);
    if offset + max < |frame| {
      RestRoundTrip(frame, max, offset + max, number + 1, more, size, m);
    } else if |frame| < offset + max {
      FromMultiple(offset, |frame| - offset, max);
    }
  }

  /** How many offsets of a frame do not fit the six-bit field. */
  function Missed(len: nat, max: nat, offset: nat): nat
    requires max > 0
    decreases len - offset
  {
    if offset >= len then 0
    else (if offset < FIELD * BLOCK then 0 else 1) + Missed(len, max, offset + max)
  }

  /** An offset survives the size field exactly when it is below 2048. */
  lemma OffsetMatches(offset: nat, max: nat)
    requires max > 0 && max % BLOCK == 0 && offset % max == 0
    ensures offset == offset / BLOCK % FIELD * BLOCK <==> offset < FIELD * BLOCK
  {
    var k, b := offset / max, max / BLOCK;
    assert offset == k * max && max == b * BLOCK;
    assert offset == (k * b) * BLOCK by {
      assert k * (b * BLOCK) == (k * b) * BLOCK;
    }
    DivModUnique(k * b, 0, BLOCK);
  }

  lemma {:induction false} NothingMissed(len: nat, max: nat, offset: nat)
    requires max > 0 && len <= FIELD * BLOCK
    ensures Missed(len, max, offset) == 0
    decreases len - offset
  {
    if offset < len {
      NothingMissed(len, max, offset + max);
    }
  }

  lemma BlocksDivide(mailbox: nat)
    requires mailbox >= MBX_HDR + EOE_HDR
    ensures MaxFragLen(mailbox) % BLOCK == 0
  {
    DivModUnique((mailbox - MBX_HDR - EOE_HDR) / BLOCK, 0, BLOCK);
  }

  /** A frame of one fragment. */
  lemma ReceiveOne(frame: seq<Byte>, max: nat, more: seq<Fragment>, toVeth: bool)
    requires max > 0 && |frame| <= max
    ensures Receive(Fragments(frame, max, 0, 0) + more, true, toVeth) ==
      if |frame| == max then Rest(more, frame, Reported(|frame|), 0)
      else (Frame(frame, if toVeth then |frame| else Reported(|frame|), true, 0), more)
  {
    var f := FragmentAt(frame, max, 0, 0);
    var q := Fragments(frame, max, 0, 0) + more;
    assert f.data == frame;
    assert q[0] == f && q[1..] == more;
  }

  lemma FirstOfMany(frame: seq<Byte>, max: nat)
    requires max > 0 && |frame| > max
    ensures FragmentAt(frame, max, 0, 0) == Fragment(false, 0, (|frame| + 31) / BLOCK % FIELD, frame[..max])
  {
  }

  lemma ReceiveStarts(frame: seq<Byte>, max: nat, more: seq<Fragment>, toVeth: bool)
    requires max > 0 && |frame| > max
    ensures Receive(Fragments(frame, max, 0, 0) + more, true, toVeth)
         == Rest(Fragments(frame, max, max, 1) + more, frame[..max], Reported(|frame|), 0)
  {
    var f, q := FragmentAt(frame, max, 0, 0), Fragments(frame, max, 0, 0) + more;
    FirstOfMany(frame, max);
    InFront(f, Fragments(frame, max, max, 1), more);
    assert Fragments(frame, max, 0, 0) == [f] + Fragments(frame, max, max, 1);
    assert q[0] == f && q[1..] == Fragments(frame, max, max, 1) + more;
  }

  /** A frame of several fragments. */
  lemma ReceiveMany(frame: seq<Byte>, max: nat, more: seq<Fragment>, toVeth: bool)
    requires max > 0 && max % BLOCK == 0 && |frame| > max
    ensures Receive(Fragments(frame, max, 0, 0) + more, true, toVeth) ==
      if FillsUp(frame, max) then Rest(more, frame, Reported(|frame|), Missed(|frame|, max, max))
      else (Frame(frame, Reported(|frame|), true, Missed(|frame|, max, max)), more)
  {
    ReceiveStarts(frame, max, more, toVeth);
    FromMultiple(0, 0, max);
    RestRoundTrip(frame, max, max, 1, more, Reported(|frame|), 0);
  }

  /** Main theorem: receiving the fragments of any frame gives the frame back, with one mismatch for
      every offset that its field cannot hold, and as its size what the size field can hold of its
      length rounded up to 32 (but the length itself when one fragment goes to the virtual network
      device), and leaves what follows in the queue; unless the frame fills its last fragment, then
      it is never complete, and the receiver goes on into whatever follows. */
  lemma FragmentsRoundTrip(frame: seq<Byte>, mailbox: nat, more: seq<Fragment>, toVeth: bool)
    requires mailbox >= MBX_HDR + EOE_HDR && MaxFragLen(mailbox) > 0
    ensures
      var max := MaxFragLen(mailbox);
      var size, m := if toVeth && |frame| < max then |frame| else Reported(|frame|), Missed(|frame|, max, max);
      Receive(Fragments(frame, max, 0, 0) + more, true, toVeth) ==
        if FillsUp(frame, max) then Rest(more, frame, Reported(|frame|), m) else (Frame(frame, size, true, m), more)
  {
    var max := MaxFragLen(mailbox);
    BlocksDivide(mailbox);
    FromMultiple(0, 0, max);
    if |frame| > max {
      ReceiveMany(frame, max, more, toVeth);
    } else {
      ReceiveOne(frame, max, more, toVeth);
      assert Missed(|frame|, max, max) == 0;
      if |frame| < max {
        FromMultiple(0, |frame|, max);
      }
    }
  }

  /** The length of a frame survives the size field exactly when it is at most 2016. */
  lemma WhenSizeIsRight(frame: seq<Byte>, max: nat)
    requires max > 0
    ensures Fragments(frame, max, 0, 0)[0].completeSize * BLOCK == Reported(|frame|)
    ensures Reported(|frame|) == RoundUp(|frame|) <==> |frame| <= 2016
  {
    SizeFits(|frame|);
    assert Fragments(frame, max, 0, 0)[0] == FragmentAt(frame, max, 0, 0);
  }

  lemma SizeFits(n: nat)
    ensures Reported(n) == RoundUp(n) <==> n <= 2016
  {
  }

  /** So any frame arrives with all its bytes, and is complete exactly when it does not fill its last
      fragment. */
  lemma WhenFrameIsComplete(frame: seq<Byte>, mailbox: nat, toVeth: bool)
    requires mailbox >= MBX_HDR + EOE_HDR + BLOCK && MaxFragLen(mailbox) > 0
    ensures
      var max := MaxFragLen(mailbox);
      var r := Receive(Fragments(frame, max, 0, 0), true, toVeth).0;
      r.Frame? && r.data == frame && (r.complete <==> !FillsUp(frame, max))
  {
    var max := MaxFragLen(mailbox);
    assert Fragments(frame, max, 0, 0) + [] == Fragments(frame, max, 0, 0);
    FragmentsRoundTrip(frame, mailbox, [], toVeth);
  }

  /** For instance, a frame that is exactly one fragment long. */
  lemma AFullFragmentNeverEnds(frame: seq<Byte>, mailbox: nat, toVeth: bool)
    requires mailbox >= MBX_HDR + EOE_HDR + BLOCK && 0 < |frame| == MaxFragLen(mailbox) <= 2016
    ensures Receive(Fragments(frame, |frame|, 0, 0), true, toVeth).0 == Frame(frame, |frame|, false, 0)
  {
    var max := |frame|;
    assert Fragments(frame, max, 0, 0) + [] == Fragments(frame, max, 0, 0);
    BlocksDivide(mailbox);
    ReceiveOne(frame, max, [], toVeth);
  }

  // ---------------------------------------------------------------------------------------
  // What gets into the mailbox
  // ---------------------------------------------------------------------------------------

  function Bodies(fs: seq<Fragment>): (bodies: seq<seq<Byte>>)
    ensures |bodies| == |fs| && forall i :: 0 <= i < |fs| ==> bodies[i] == fs[i].data
  {
    seq(|fs|, i requires 0 <= i < |fs| => fs[i].data)
  }

  lemma BodiesOf(f: Fragment, later: seq<Fragment>)
    ensures Flatten(Bodies([f] + later)) == f.data + Flatten(Bodies(later))
  {
    var bodies := Bodies([f] + later);
    assert bodies[0] == f.data && bodies[1..] == Bodies(later);
  }

  lemma FragmentsSplit(frame: seq<Byte>, max: nat, offset: nat, number: nat, next: nat)
    requires offset <= |frame| && max > 0 && next == offset + Min(|frame| - offset, max)
    ensures
      var f := FragmentAt(frame, max, offset, number);
      && f.data == frame[offset..next]
      && Fragments(frame, max, offset, number)
        == [f] + if next < |frame| then Fragments(frame, max, next, number + 1) else []
  {
  }

  lemma {:induction false} FragmentsHoldFrame(frame: seq<Byte>, max: nat, offset: nat, number: nat)
    requires offset <= |frame| && max > 0
    ensures Flatten(Bodies(Fragments(frame, max, offset, number))) == frame[offset..]
    decreases |frame| - offset
  {
    var next := offset + Min(|frame| - offset, max);
    var later := if next < |frame| then Fragments(frame, max, next, number + 1) else [];
    FragmentsSplit(frame, max, offset, number, next);
    BodiesOf(FragmentAt(frame, max, offset, number), later);
    SplitFrom(frame, offset, next);
    if next < |frame| {
      FragmentsHoldFrame(frame, max, next, number + 1);
    } else {
      assert Bodies(later) == [] && frame[next..] == [];
    }
  }

  lemma {:induction false} FragmentsAreBounded(frame: seq<Byte>, max: nat, offset: nat, number: nat, i: nat)
    requires offset <= |frame| && max > 0 && i < |Fragments(frame, max, offset, number)|
    ensures |Fragments(frame, max, offset, number)[i].data| <= Min(|frame| - offset, max)
    decreases i
  {
    var n := |FragmentAt(frame, max, offset, number).data|;
    if i > 0 {
      FragmentsAreBounded(frame, max, offset + n, number + 1, i - 1);
    }
  }

  /** A frame gets into the write mailbox completely if and only if it is empty, or its first fragment
      fits into a pool entry: the fragments are cut to the mailbox, not to the entry. */
  lemma WhenFrameArrives(frame: seq<Byte>, mailbox: nat)
    requires mailbox >= MBX_HDR + EOE_HDR + BLOCK && MaxFragLen(mailbox) > 0
    ensures
      var max := MaxFragLen(mailbox);
      Flatten(AllArrived(Bodies(Fragments(frame, max, 0, 0)), MBX_HDR + EOE_HDR, mailbox)) == frame
      <==> frame == [] || 10 + Min(|frame|, max) <= 1600
  {
    var max := MaxFragLen(mailbox);
    var bodies := Bodies(Fragments(frame, max, 0, 0));
    assert bodies[0] == frame[..Min(|frame|, max)];
    forall i | 0 <= i < |bodies| ensures |bodies[i]| <= |bodies[0]| {
      FragmentsAreBounded(frame, max, 0, 0, i);
    }
    FragmentsHoldFrame(frame, max, 0, 0);
    assert frame[0..] == frame;
    assert MBX_HDR + EOE_HDR + max <= mailbox;
    WhenFirstIsLongest(bodies, MBX_HDR + EOE_HDR, mailbox);
  }

  /** For instance, 1591 bytes through a mailbox of 2000. */
  lemma AFragmentTooLong(frame: seq<Byte>)
    requires |frame| == 1591
    ensures
      var fs := Fragments(frame, MaxFragLen(2000), 0, 0);
      Flatten(AllArrived(Bodies(fs), MBX_HDR + EOE_HDR, 2000)) != frame
  {
    WhenFrameArrives(frame, 2000);
  }

  /** The fragments are numbered from 0, in six bits. */
  lemma {:induction false} FragmentsAreNumbered(frame: seq<Byte>, max: nat, offset: nat, number: nat, i: nat)
    requires offset <= |frame| && max > 0 && i < |Fragments(frame, max, offset, number)|
    ensures Fragments(frame, max, offset, number)[i].number == (number + i) % 64
    decreases i
  {
    if i > 0 {
      FragmentsAreNumbered(frame, max, offset + |FragmentAt(frame, max, offset, number).data|, number + 1, i - 1);
    }
  }

  /** A fragment is as long as whole blocks of 32 bytes fit behind the headers. */
  lemma LongestFragment(mailbox: nat)
    requires mailbox >= 10
    ensures MaxFragLen(mailbox) % 32 == 0 && 10 + MaxFragLen(mailbox) <= mailbox < 42 + MaxFragLen(mailbox)
  {
    BlocksDivide(mailbox);
  }
}
