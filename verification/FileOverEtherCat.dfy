/** File transfer through the mailbox (File over EtherCAT): numbered data packets, each of them
    acknowledged, and a short packet at the end. */
module FileOverEtherCat {
  import opened Bytes
  import opened Division
  import opened Mailboxes

  const FOE_HDR := 6
  const U16 := 0x1_0000          // the length of a mailbox has 16 bits
  const U32 := 0x1_0000_0000     // the size of the packets of a write is computed with 32 bits

  /** A data packet; its mailbox length is 6 plus the length of the data. */
  datatype Packet = Packet(nr: nat, data: seq<Byte>)

  /** What the other side does with a packet of a write. */
  datatype Turn = NoBuffer | Acked | ErrorReply | OtherReply | NoReply

  datatype Status = Ok | OutOfBuffers | ErrorRequest | NoAck | Timeout

  /** How much data fits into a packet. */
  function DataLen(mailbox: nat): nat
    requires mailbox >= MBX_HDR + FOE_HDR
  {
    mailbox - MBX_HDR - FOE_HDR
  }

  // ---------------------------------------------------------------------------------------
  // Writing
  // ---------------------------------------------------------------------------------------

  /** How much data a write puts into a packet: what would fit into the read mailbox, in unsigned
      32-bit arithmetic. */
  function PacketLen(read: nat): (n: nat)
    requires read < U16
    ensures read >= MBX_HDR + FOE_HDR ==> n == DataLen(read)
    ensures n == 0 <==> read == MBX_HDR + FOE_HDR
  {
    (read + U32 - MBX_HDR - FOE_HDR) % U32
  }

  /** The packets of a file from `offset` on, `nr` packets being out already. */
  function Packets(file: seq<Byte>, dataLen: nat, offset: nat, nr: nat): (ps: seq<Packet>)
    requires offset <= |file| && dataLen > 0
    ensures |ps| >= 1
    decreases |file| - offset
  {
    var n := Min(|file| - offset, dataLen);
    [Packet(nr + 1, file[offset..offset + n])]
    + if n < dataLen || offset + n == |file| then [] else Packets(file, dataLen, offset + n, nr + 1)
  }

  /** That is 12 bytes less than the mailbox; a mailbox below 12 bytes makes it huge. */
  lemma LongestPacket(read: nat)
    requires read < 0x1_0000
    ensures PacketLen(read) == if read >= 12 then read - 12 else 0xFFFF_FFF4 + read
  {
  }

  function StatusOf(turn: Turn): Status {
    match turn
    case NoBuffer => OutOfBuffers
    case Acked => Ok
    case ErrorReply => ErrorRequest
    case OtherReply => NoAck
    case NoReply => NoAck
  }

  /** What happens to packet number `i` (from 0); nobody answers when nothing is given. */
  function At(env: seq<Turn>, i: nat): Turn {
    if i < |env| then env[i] else NoReply
  }

  /** How many of `n` packets are tried, the first `i` being acknowledged: the transfer ends
      behind the first one that is not. */
  function Tried(env: seq<Turn>, n: nat, i: nat): (k: nat)
    requires i < n
    ensures i < k <= n
    decreases n - i
  {
    if At(env, i) == Acked && i + 1 < n then Tried(env, n, i + 1) else i + 1
  }

  /** The first packet and the later ones. */
  lemma PacketsSplit(file: seq<Byte>, dataLen: nat, offset: nat, nr: nat, n: nat, p: Packet)
    requires offset <= |file| && dataLen > 0
    requires n == Min(|file| - offset, dataLen) && p == Packet(nr + 1, file[offset..offset + n])
    ensures
      var ps := Packets(file, dataLen, offset, nr);
      && ps[0] == p
      && (n < dataLen || offset + n == |file| ==> |ps| == 1)
      && (!(n < dataLen || offset + n == |file|) ==> ps[1..] == Packets(file, dataLen, offset + n, nr + 1))
  {
  }

  /** A write in the middle: `sent` is out and acknowledged, and the rest of all packets is to come. */
  ghost predicate Underway(
      all: seq<Packet>, sent: seq<Packet>, file: seq<Byte>, dataLen: nat, offset: nat, nr: nat, env: seq<Turn>)
  {
    && offset <= |file| && dataLen > 0 && nr == |sent| < |all|
    && all[..nr] == sent && all[nr..] == Packets(file, dataLen, offset, nr)
    && Tried(env, |all|, 0) == Tried(env, |all|, nr)
  }

  /** A write that has ended. */
  ghost predicate Ended(all: seq<Packet>, sent: seq<Packet>, env: seq<Turn>, ret: Status)
    requires |all| > 0
  {
    var k := Tried(env, |all|, 0);
    ret == StatusOf(At(env, k - 1)) && sent == all[..if ret == OutOfBuffers then k - 1 else k]
  }

  lemma MoveOver(all: seq<Packet>, sent: seq<Packet>, p: Packet)
    requires |sent| < |all| && all[..|sent|] == sent && all[|sent|..][0] == p
    ensures all[..|sent| + 1] == sent + [p]
    ensures all[|sent|..][1..] == all[|sent| + 1..]
  {
  }

  /** Trying one more packet. */
  lemma TryOne(
      all: seq<Packet>, sent: seq<Packet>, file: seq<Byte>, dataLen: nat, offset: nat, nr: nat, env: seq<Turn>,
      n: nat, p: Packet)
    requires Underway(all, sent, file, dataLen, offset, nr, env)
    requires n == Min(|file| - offset, dataLen) && p == Packet(nr + 1, file[offset..offset + n])
    ensures
      var last := n < dataLen || offset + n == |file|;
      if At(env, nr) == Acked && !last then Underway(all, sent + [p], file, dataLen, offset + n, nr + 1, env)
      else Ended(all, if At(env, nr) == NoBuffer then sent else sent + [p], env, StatusOf(At(env, nr)))
  {
    PacketsSplit(file, dataLen, offset, nr, n, p);
    MoveOver(all, sent, p);
  }

  /** One round of the data loop of a write. */
  method TryPacket(
      file: seq<Byte>, dataLen: nat, offset: nat, nr: nat, env: seq<Turn>, ghost all: seq<Packet>, before: seq<Packet>)
    returns (ret: Status, sent: seq<Packet>, nextOffset: nat, nextNr: nat, more: bool)
    requires Underway(all, before, file, dataLen, offset, nr, env)
    ensures
      if more then Underway(all, sent, file, dataLen, nextOffset, nextNr, env) && offset < nextOffset <= |file|
      else Ended(all, sent, env, ret)
  {
    var restLen := |file| - offset;
    var bytesRead := Min(restLen, dataLen);
    var lastPkt := bytesRead < dataLen;
    var p := Packet(nr + 1, file[offset..offset + bytesRead]);
    TryOne(all, before, file, dataLen, offset, nr, env, bytesRead, p);
    ret := StatusOf(At(env, nr));
    if ret == OutOfBuffers {
      sent, nextOffset, nextNr, more := before, offset, nr, false;
    } else {
      sent, nextOffset, nextNr := before + [p], offset + bytesRead, nr + 1;
      more := !lastPkt && ret == Ok && nextOffset < |file|;
    }
  }

  /** The data loop of a write that was accepted.  `sent` are the packets that went out; the
      last one of them was not answered well unless the result is `Ok`.  With a read mailbox of 12
      bytes the packets would be empty. */
  method WriteData(file: seq<Byte>, read: nat, env: seq<Turn>) returns (ret: Status, sent: seq<Packet>)
    requires read < U16 && read != MBX_HDR + FOE_HDR
    ensures
      var ps := Packets(file, PacketLen(read), 0, 0);
      var k := Tried(env, |ps|, 0);
      && ret == StatusOf(At(env, k - 1))
      && sent == ps[..if ret == OutOfBuffers then k - 1 else k]
  {
    var dataLen := PacketLen(read);
    ghost var all := Packets(file, dataLen, 0, 0);
    var fileOffset: nat, packetNr: nat, more := 0, 0, true;
    sent, ret := [], Ok;
    while more
      invariant
        if more then Underway(all, sent, file, dataLen, fileOffset, packetNr, env)
        else Ended(all, sent, env, ret)
      decreases more, |file| - fileOffset
    {
      ret, sent, fileOffset, packetNr, more := TryPacket(file, dataLen, fileOffset, packetNr, env, all, sent);
    }
  }

  // ---------------------------------------------------------------------------------------
  // What arrives of a write
  // ---------------------------------------------------------------------------------------

  function Bodies(ps: seq<Packet>): (bodies: seq<seq<Byte>>)
    ensures |bodies| == |ps| && forall i :: 0 <= i < |ps| ==> bodies[i] == ps[i].data
  {
    seq(|ps|, i requires 0 <= i < |ps| => ps[i].data)
  }

  lemma {:induction false} PacketsHoldFile(file: seq<Byte>, dataLen: nat, offset: nat, nr: nat)
    requires offset <= |file| && dataLen > 0
    ensures Flatten(Bodies(Packets(file, dataLen, offset, nr))) == file[offset..]
    decreases |file| - offset
  {
    var n := Min(|file| - offset, dataLen);
    var first, bodies := file[offset..offset + n], Bodies(Packets(file, dataLen, offset, nr));
    PacketsSplit(file, dataLen, offset, nr, n, Packet(nr + 1, first));
    assert bodies[0] == first;
    if n < dataLen || offset + n == |file| {
      assert bodies == [first];
      FlattenOne(first);
    } else {
      assert bodies[1..] == Bodies(Packets(file, dataLen, offset + n, nr + 1));
      PacketsHoldFile(file, dataLen, offset + n, nr + 1);
      assert file[offset..] == first + file[offset + n..];
    }
  }

  lemma {:induction false} PacketsAreBounded(file: seq<Byte>, dataLen: nat, offset: nat, nr: nat, i: nat)
    requires offset <= |file| && dataLen > 0 && i < |Packets(file, dataLen, offset, nr)|
    ensures |Packets(file, dataLen, offset, nr)[i].data| <= Min(|file| - offset, dataLen)
    decreases i
  {
    if i > 0 {
      PacketsAreBounded(file, dataLen, offset + dataLen, nr + 1, i - 1);
    }
  }

  /** What gets into the write mailbox of the packets of a file. */
  function ArrivedFile(file: seq<Byte>, read: nat, write: nat): seq<Byte>
    requires read < U16 && read != MBX_HDR + FOE_HDR
  {
    Flatten(AllArrived(Bodies(Packets(file, PacketLen(read), 0, 0)), MBX_HDR + FOE_HDR, write))
  }

  /** Main theorem on writes: a file gets into the write mailbox completely if and only if it is
      empty, or its first packet fits, whose size goes by the read mailbox. */
  lemma WhenFileArrives(file: seq<Byte>, read: nat, write: nat)
    requires read < U16 && read != MBX_HDR + FOE_HDR
    ensures ArrivedFile(file, read, write) == file <==>
      file == [] || 12 + Min(|file|, PacketLen(read)) <= Min(write, 1600)
  {
    var n := Min(|file|, PacketLen(read));
    var ps := Packets(file, PacketLen(read), 0, 0);
    var bodies := Bodies(ps);
    assert ps[0].data == file[..n];
    forall i | 0 <= i < |bodies| ensures |bodies[i]| <= |bodies[0]| {
      PacketsAreBounded(file, PacketLen(read), 0, 0, i);
    }
    PacketsHoldFile(file, PacketLen(read), 0, 0);
    assert file[0..] == file;
    WhenFirstIsLongest(bodies, MBX_HDR + FOE_HDR, write);
  }

  /** For instance, 100 bytes with a read mailbox of 128 and a write mailbox of 64. */
  lemma AShorterWriteMailbox(file: seq<Byte>)
    requires |file| == 100
    ensures ArrivedFile(file, 128, 64) != file && ArrivedFile(file, 64, 128) == file
  {
    WhenFileArrives(file, 128, 64);
    WhenFileArrives(file, 64, 128);
  }

  // ---------------------------------------------------------------------------------------
  // Reading
  // ---------------------------------------------------------------------------------------

  /** What comes in while a file is read. */
  datatype Incoming = Data(packet: Packet) | Error | Other

  /** The result of a read: everything that arrived, what was acknowledged, and the status.
      `buffers` says how many acknowledges can still be sent; when nothing comes in any more
      the read times out. */
  datatype Reading = Reading(file: seq<Byte>, acks: seq<nat>, status: Status)

  /** The read goes on until a packet that is shorter than the mailbox. */
  function Read(incoming: seq<Incoming>, mailbox: nat, buffers: nat, file: seq<Byte>, acks: seq<nat>): Reading {
    if incoming == [] then Reading(file, acks, Timeout)
    else match incoming[0]
      case Error => Reading(file, acks, ErrorRequest)
      case Other => Read(incoming[1..], mailbox, buffers, file, acks)
      case Data(p) =>
        if buffers == 0 then Reading(file + p.data, acks, OutOfBuffers)
        else if |p.data| + MBX_HDR + FOE_HDR < mailbox then Reading(file + p.data, acks + [p.nr], Ok)
        else Read(incoming[1..], mailbox, buffers - 1, file + p.data, acks + [p.nr])
  }

  method ReadData(incoming: seq<Incoming>, mailbox: nat, buffers: nat) returns (r: Reading)
    ensures r == Read(incoming, mailbox, buffers, [], [])
  {
    var fileData: seq<Byte>, acks: seq<nat>, left := [], [], buffers;
    var i := 0;
    while i < |incoming|
      invariant 0 <= i <= |incoming| && left >= 0
      invariant Read(incoming, mailbox, buffers, [], []) == Read(incoming[i..], mailbox, left, fileData, acks)
    {
      match incoming[i] {
        case Error => return Reading(fileData, acks, ErrorRequest);
        case Other =>
        case Data(p) =>
          var len := |p.data|;
          fileData := fileData + p.data;
          if left == 0 {
            return Reading(fileData, acks, OutOfBuffers);
          }
          left, acks := left - 1, acks + [p.nr];
          if len + FOE_HDR + MBX_HDR < mailbox {
            return Reading(fileData, acks, Ok);
          }
      }
      i := i + 1;
    }
    r := Reading(fileData, acks, Timeout);
  }

  // ---------------------------------------------------------------------------------------
  // Round trip
  // ---------------------------------------------------------------------------------------

  function Arriving(ps: seq<Packet>): (r: seq<Incoming>)
    ensures |r| == |ps|
  {
    seq(|ps|, i requires 0 <= i < |ps| => Data(ps[i]))
  }

  function Numbers(from: nat, n: nat): (ns: seq<nat>)
    ensures |ns| == n && forall i :: 0 <= i < n ==> ns[i] == from + i
  {
    seq(n, i => from + i)
  }

  predicate EndsShort(file: seq<Byte>, dataLen: nat)
    requires dataLen > 0
  {
    |file| == 0 || |file| % dataLen != 0
  }

  lemma ReadFirst(p: Packet, later: seq<Incoming>, mailbox: nat, buffers: nat, file: seq<Byte>, acks: seq<nat>)
    requires mailbox > MBX_HDR + FOE_HDR && buffers > 0
    ensures Read([Data(p)] + later, mailbox, buffers, file, acks) ==
      if |p.data| < DataLen(mailbox) then Reading(file + p.data, acks + [p.nr], Ok)
      else Read(later, mailbox, buffers - 1, file + p.data, acks + [p.nr])
  {
    assert ([Data(p)] + later)[1..] == later;
  }

  lemma PacketsStep(file: seq<Byte>, dataLen: nat, offset: nat, nr: nat, more: seq<Incoming>)
    requires dataLen > 0 && offset <= |file|
    ensures
      var n := Min(|file| - offset, dataLen);
      var ps := Packets(file, dataLen, offset, nr);
      Arriving(ps) + more == [Data(Packet(nr + 1, file[offset..offset + n]))]
        + if n == dataLen && offset + n < |file| then Arriving(Packets(file, dataLen, offset + n, nr + 1)) + more
          else more
  {
  }

  /** A full packet that is not the end of the file. */
  lemma ReadMiddle(
      file: seq<Byte>, mailbox: nat, offset: nat, nr: nat, buffers: nat, acks: seq<nat>, more: seq<Incoming>)
    requires mailbox > MBX_HDR + FOE_HDR && offset + DataLen(mailbox) < |file| && buffers > 0
    ensures
      var n := DataLen(mailbox);
      && |Packets(file, n, offset, nr)| == 1 + |Packets(file, n, offset + n, nr + 1)|
      && Read(Arriving(Packets(file, n, offset, nr)) + more, mailbox, buffers, file[..offset], acks)
        == Read(Arriving(Packets(file, n, offset + n, nr + 1)) + more, mailbox, buffers - 1,
                file[..offset + n], acks + [nr + 1])
  {
    var n := DataLen(mailbox);
    var p := Packet(nr + 1, file[offset..offset + n]);
    PacketsStep(file, n, offset, nr, more);
    ReadFirst(p, Arriving(Packets(file, n, offset + n, nr + 1)) + more, mailbox, buffers, file[..offset], acks);
    assert file[..offset] + p.data == file[..offset + n];
  }

  /** The packet at the end of the file. */
  lemma ReadLast(
      file: seq<Byte>, mailbox: nat, offset: nat, nr: nat, buffers: nat, acks: seq<nat>, more: seq<Incoming>)
    requires mailbox > MBX_HDR + FOE_HDR && offset <= |file| <= offset + DataLen(mailbox) && buffers > 0
    ensures |Packets(file, DataLen(mailbox), offset, nr)| == 1
    ensures Read(Arriving(Packets(file, DataLen(mailbox), offset, nr)) + more, mailbox, buffers, file[..offset], acks)
      == if |file| < offset + DataLen(mailbox) then Reading(file, acks + [nr + 1], Ok)
         else Read(more, mailbox, buffers - 1, file, acks + [nr + 1])
  {
    var p := Packet(nr + 1, file[offset..|file|]);
    PacketsStep(file, DataLen(mailbox), offset, nr, more);
    ReadFirst(p, more, mailbox, buffers, file[..offset], acks);
    assert file[..offset] + p.data == file;
  }

  lemma LastPacketIsShort(file: seq<Byte>, n: nat, offset: nat)
    requires n > 0 && offset % n == 0 && offset <= |file| <= offset + n && (offset == |file| ==> offset == 0)
    ensures EndsShort(file, n) <==> |file| < offset + n
  {
    FromMultiple(offset, 0, n);
    if |file| < offset + n {
      FromMultiple(offset, |file| - offset, n);
    }
  }

  lemma NumbersStep(acks: seq<nat>, nr: nat, k: nat)
    requires k > 0
    ensures acks + Numbers(nr, k) == (acks + [nr]) + Numbers(nr + 1, k - 1)
    ensures k == 1 ==> acks + Numbers(nr, k) == acks + [nr]
  {
  }

  /** The result `r` of reading the packets of a file from `offset` on, `more` being what comes
      in afterwards. */
  lemma {:induction false} ReadPackets(
      file: seq<Byte>, mailbox: nat, offset: nat, nr: nat, buffers: nat, acks: seq<nat>, more: seq<Incoming>,
      k: nat, r: Reading)
    requires mailbox > MBX_HDR + FOE_HDR && offset <= |file|
    requires offset % DataLen(mailbox) == 0 && (offset == |file| ==> offset == 0)
    requires k == |Packets(file, DataLen(mailbox), offset, nr)| <= buffers
    requires r ==
      Read(Arriving(Packets(file, DataLen(mailbox), offset, nr)) + more, mailbox, buffers, file[..offset], acks)
    ensures r ==
      if EndsShort(file, DataLen(mailbox)) then Reading(file, acks + Numbers(nr + 1, k), Ok)
      else Read(more, mailbox, buffers - k, file, acks + Numbers(nr + 1, k))
    decreases |file| - offset
  {
    var n := DataLen(mailbox);
    NumbersStep(acks, nr + 1, k);
    if offset + n < |file| {
      FromMultiple(offset, 0, n);
      ReadMiddle(file, mailbox, offset, nr, buffers, acks, more);
      ReadPackets(file, mailbox, offset + n, nr + 1, buffers - 1, acks + [nr + 1], more, k - 1, r);
    } else {
      ReadLast(file, mailbox, offset, nr, buffers, acks, more);
      LastPacketIsShort(file, n, offset);
    }
  }

  /** Main theorem: reading the packets of a file gives the file back and acknowledges them by
      number, one after the other from 1; and the read ends with them exactly when the file is
      empty or not a multiple of the packet size.  A file of full packets is read completely,
      but the reader goes on waiting until it times out. */
  lemma FileRoundTrip(file: seq<Byte>, mailbox: nat, buffers: nat)
    requires mailbox > MBX_HDR + FOE_HDR
    requires buffers >= |Packets(file, DataLen(mailbox), 0, 0)|
    ensures
      var ps := Packets(file, DataLen(mailbox), 0, 0);
      var r := Read(Arriving(ps), mailbox, buffers, [], []);
      && r.file == file && r.acks == Numbers(1, |ps|)
      && r.status == (if EndsShort(file, DataLen(mailbox)) then Ok else Timeout)
  {
    var ps := Packets(file, DataLen(mailbox), 0, 0);
    FromMultiple(0, 0, DataLen(mailbox));
    assert Arriving(ps) + [] == Arriving(ps) && file[..0] == [];
    ReadPackets(file, mailbox, 0, 0, buffers, [], [], |ps|, Read(Arriving(ps), mailbox, buffers, [], []));
    assert [] + Numbers(1, |ps|) == Numbers(1, |ps|);
  }

  /** For instance, a file of exactly one full packet: the read times out with the file complete. */
  lemma AFullPacketTimesOut(file: seq<Byte>, mailbox: nat, buffers: nat)
    requires mailbox > MBX_HDR + FOE_HDR && |file| == DataLen(mailbox) && buffers > 0
    ensures Read(Arriving(Packets(file, |file|, 0, 0)), mailbox, buffers, [], []) == Reading(file, [1], Timeout)
  {
    var ps := Packets(file, |file|, 0, 0);
    assert Arriving(ps) + [] == Arriving(ps) && file[..0] == [];
    ReadLast(file, mailbox, 0, 0, buffers, [], []);
  }

  /** The packets of a file are numbered from 1, without gaps. */
  lemma {:induction false} PacketsAreNumbered(file: seq<Byte>, dataLen: nat, offset: nat, nr: nat, i: nat)
    requires offset <= |file| && dataLen > 0 && i < |Packets(file, dataLen, offset, nr)|
    ensures Packets(file, dataLen, offset, nr)[i].nr == nr + 1 + i
    decreases i
  {
    if i > 0 {
      PacketsAreNumbered(file, dataLen, offset + dataLen, nr + 1, i - 1);
    }
  }

  lemma {:induction false} AllTried(env: seq<Turn>, n: nat, i: nat)
    requires i < n
    ensures StatusOf(At(env, Tried(env, n, i) - 1)) == Ok <==> forall j :: i <= j < n ==> At(env, j) == Acked
    ensures StatusOf(At(env, Tried(env, n, i) - 1)) == Ok ==> Tried(env, n, i) == n
    decreases n - i
  {
    if i + 1 < n && At(env, i) == Acked {
      AllTried(env, n, i + 1);
    }
  }

  /** A write reports success exactly when every packet was acknowledged, and then all of them
      are out. */
  lemma WhenWriteSucceeds(file: seq<Byte>, read: nat, env: seq<Turn>)
    requires read < U16 && read != MBX_HDR + FOE_HDR
    ensures
      var n := |Packets(file, PacketLen(read), 0, 0)|;
      && (StatusOf(At(env, Tried(env, n, 0) - 1)) == Ok <==> n <= |env| && forall j :: 0 <= j < n ==> env[j] == Acked)
      && (StatusOf(At(env, Tried(env, n, 0) - 1)) == Ok ==> Tried(env, n, 0) == n)
  {
    var n := |Packets(file, PacketLen(read), 0, 0)|;
    AllTried(env, n, 0);
    assert forall j :: 0 <= j < |env| ==> At(env, j) == env[j];
    assert n > |env| ==> At(env, |env|) != Acked;
  }

  /** Why a write fails: the first packet that is not acknowledged decides. */
  lemma WhenWriteFails(file: seq<Byte>, read: nat, env: seq<Turn>)
    requires read < U16 && read != MBX_HDR + FOE_HDR
    ensures
      var n := |Packets(file, PacketLen(read), 0, 0)|;
      var k := Tried(env, n, 0) - 1;
      && k <= |env| && (forall j :: 0 <= j < k ==> env[j] == Acked)
      && (k == |env| ==> StatusOf(At(env, k)) == NoAck)
      && (k < |env| ==>
          && (env[k] == Acked ==> k == n - 1)
          && (env[k] == NoBuffer ==> StatusOf(At(env, k)) == OutOfBuffers)
          && (env[k] == ErrorReply ==> StatusOf(At(env, k)) == ErrorRequest)
          && (env[k] == OtherReply || env[k] == NoReply ==> StatusOf(At(env, k)) == NoAck))
  {
    var n := |Packets(file, PacketLen(read), 0, 0)|;
    TriedAreAcked(env, n, 0);
    var k := Tried(env, n, 0) - 1;
    assert k > 0 ==> At(env, k - 1) == Acked;
    assert forall j :: 0 <= j < k && j < |env| ==> At(env, j) == env[j];
  }

  lemma {:induction false} TriedAreAcked(env: seq<Turn>, n: nat, i: nat)
    requires i < n
    ensures
      var k := Tried(env, n, i) - 1;
      (forall j :: i <= j < k ==> At(env, j) == Acked) && (At(env, k) == Acked ==> k == n - 1)
    decreases n - i
  {
    if At(env, i) == Acked && i + 1 < n {
      TriedAreAcked(env, n, i + 1);
    }
  }

  /** What comes in without what a read passes over. */
  function Relevant(incoming: seq<Incoming>): seq<Incoming> {
    if incoming == [] then []
    else (if incoming[0] == Other then [] else [incoming[0]]) + Relevant(incoming[1..])
  }

  /** Messages of another kind make no difference to a read. */
  lemma {:induction false} OthersArePassedOver(
      incoming: seq<Incoming>, mailbox: nat, buffers: nat, file: seq<Byte>, acks: seq<nat>)
    ensures Read(incoming, mailbox, buffers, file, acks) == Read(Relevant(incoming), mailbox, buffers, file, acks)
    decreases |incoming|
  {
    if incoming != [] {
      var rest := Relevant(incoming[1..]);
      match incoming[0] {
        case Other =>
          assert Relevant(incoming) == [] + rest == rest;
          OthersArePassedOver(incoming[1..], mailbox, buffers, file, acks);
        case Error =>
          assert Relevant(incoming)[0] == Error;
        case Data(p) =>
          assert Relevant(incoming)[0] == Data(p) && Relevant(incoming)[1..] == rest;
          if buffers > 0 {
            OthersArePassedOver(incoming[1..], mailbox, buffers - 1, file + p.data, acks + [p.nr]);
          }
      }
    }
  }

  /** An error ends a read with what has arrived; so does the lack of a buffer for the acknowledge. */
  lemma WhenReadFails(later: seq<Incoming>, p: Packet, mailbox: nat, buffers: nat, file: seq<Byte>, acks: seq<nat>)
    ensures Read([Error] + later, mailbox, buffers, file, acks) == Reading(file, acks, ErrorRequest)
    ensures Read([Data(p)] + later, mailbox, 0, file, acks) == Reading(file + p.data, acks, OutOfBuffers)
    ensures Read([], mailbox, buffers, file, acks) == Reading(file, acks, Timeout)
  {
  }
}
