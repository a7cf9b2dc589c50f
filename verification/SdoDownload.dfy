/** Writing an object of a slave's dictionary through the mailbox: one normal download message
    and as many segments as the rest needs (CANopen over EtherCAT, ETG.1000.6 section 5.6). */
module SdoDownload {
  import opened Bytes
  import opened Mailboxes
  import opened Options

  const NORMAL_HDR := 10      // CoE header, SDO header, complete size
  const SEGMENT_HDR := 3      // CoE header, segment header
  const U16 := 0x1_0000          // the length of a mailbox and of a message have 16 bits
  const U32 := 0x1_0000_0000     // the room for data is computed with 32 bits

  /** What is put into the mailbox: the length field, the header fields that matter, and the
      bytes that are copied behind the header (the rest of the message is zero). */
  datatype Message =
    | Normal(length: nat, completeSize: nat, body: seq<Byte>)
    | Segment(length: nat, segDataSize: nat, toggle: nat, body: seq<Byte>)

  /** An answer from the slave. */
  datatype Reply = Ack | Abort(code: nat) | Unexpected

  /** What happens when a message is to be sent: there is no buffer for it, or it goes out and
      these replies come in before the mailbox stays silent. */
  datatype Turn = NoBuffer | Answered(replies: seq<Reply>)

  datatype Status = Ok | Aborted | ReadError | Timeout | OutOfBuffers

  // ---------------------------------------------------------------------------------------
  // The messages
  // ---------------------------------------------------------------------------------------

  /** How much data fits into the first message, in unsigned 32-bit arithmetic. */
  function MaxLen(mailbox: nat): (n: nat)
    requires mailbox < U16
    ensures mailbox >= 16 ==> n == mailbox - 16
    ensures mailbox < 16 ==> n >= U32 - 16
  {
    (mailbox + U32 - 16) % U32
  }

  function First(buf: seq<Byte>, mailbox: nat): Message
    requires mailbox < U16
  {
    var n := Min(|buf|, MaxLen(mailbox));
    Normal((NORMAL_HDR + n) % U16, |buf| % U32, buf[..n])
  }

  function NextSegment(rest: seq<Byte>, segLen: nat, toggle: nat): Message {
    if |rest| >= segLen then Segment((SEGMENT_HDR + segLen) % U16, 0, toggle, rest[..segLen])
    else if |rest| < 7 then Segment(NORMAL_HDR, 7 - |rest|, toggle, rest)
    else Segment((SEGMENT_HDR + |rest|) % U16, 0, toggle, rest)
  }

  /** The segments for what the first message left over. */
  function Segments(rest: seq<Byte>, segLen: nat, toggle: nat): seq<Message>
    requires segLen > 0
    decreases |rest|
  {
    if rest == [] then []
    else
      [NextSegment(rest, segLen, toggle)]
      + Segments(rest[Min(|rest|, segLen)..], segLen, if toggle == 1 then 0 else 1)
  }

  /** All messages of a download. */
  function Messages(buf: seq<Byte>, mailbox: nat): (ms: seq<Message>)
    requires mailbox < U16
    ensures |ms| >= 1
  {
    var n := Min(|buf|, MaxLen(mailbox));
    [First(buf, mailbox)] + Segments(buf[n..], n + NORMAL_HDR - SEGMENT_HDR, 1)
  }

  // ---------------------------------------------------------------------------------------
  // The transfer
  // ---------------------------------------------------------------------------------------

  /** Replies are taken until one settles the matter. */
  function Settled(replies: seq<Reply>, ret: Status): Status {
    if replies == [] then ret
    else match replies[0]
      case Ack => Ok
      case Abort(_) => Aborted
      case Unexpected => Settled(replies[1..], ReadError)
  }

  /** What happens to message `i`; nobody answers when nothing is given for it. */
  function At(env: seq<Turn>, i: nat): Turn {
    if i < |env| then env[i] else Answered([])
  }

  function Outcome(turn: Turn): Status {
    match turn
    case NoBuffer => OutOfBuffers
    case Answered(replies) => Settled(replies, Timeout)
  }

  /** How many of `n` messages go out, the first `i` being out already: the transfer ends when
      the first message is not acknowledged, or when a buffer is missing. */
  function SentFrom(env: seq<Turn>, n: nat, i: nat): (k: nat)
    requires i <= n
    ensures i <= k <= n
    decreases n - i
  {
    if i == n || At(env, i) == NoBuffer then i
    else if i == 0 && Outcome(At(env, 0)) != Ok then 1
    else SentFrom(env, n, i + 1)
  }

  /** The result of a transfer of `n` messages whose first one was acknowledged. */
  function LaterResult(env: seq<Turn>, n: nat): Status
    requires n >= 1
  {
    var k := SentFrom(env, n, 1);
    if k < n then OutOfBuffers else Outcome(At(env, n - 1))
  }

  /** The result of a transfer of `n` messages. */
  function Result(env: seq<Turn>, n: nat): Status
    requires n >= 1
  {
    if Outcome(At(env, 0)) == Ok then LaterResult(env, n) else Outcome(At(env, 0))
  }

  /** This is the first reply that is not an unexpected one. */
  predicate Decides(replies: seq<Reply>, reply: Reply) {
    exists i :: 0 <= i < |replies| && replies[i] == reply && !reply.Unexpected?
      && forall j :: 0 <= j < i ==> replies[j].Unexpected?
  }

  lemma DecidesLater(replies: seq<Reply>, reply: Reply)
    requires replies != [] && replies[0].Unexpected?
    ensures Decides(replies, reply) <==> Decides(replies[1..], reply)
  {
    if Decides(replies, reply) {
      var i :| 0 <= i < |replies| && replies[i] == reply && !reply.Unexpected?
        && forall j :: 0 <= j < i ==> replies[j].Unexpected?;
      assert replies[1..][i - 1] == reply;
    }
    if Decides(replies[1..], reply) {
      var i :| 0 <= i < |replies| - 1 && replies[1..][i] == reply && !reply.Unexpected?
        && forall j :: 0 <= j < i ==> replies[1..][j].Unexpected?;
      assert replies[i + 1] == reply;
      forall j | 0 <= j < i + 1 ensures replies[j].Unexpected? {
        assert j > 0 ==> replies[j] == replies[1..][j - 1];
      }
    }
  }

  /** What replies come to: the first one that is not unexpected decides; without one it is a read
      error, or a timeout when there is no reply at all. */
  lemma {:induction false} WhenSettled(replies: seq<Reply>, ret: Status)
    requires ret == Timeout || ret == ReadError
    ensures Settled(replies, ret) == Ok <==> Decides(replies, Ack)
    ensures Settled(replies, ret) == Aborted <==> exists code: nat :: Decides(replies, Abort(code))
    ensures Settled(replies, ret) == (if replies == [] then ret else ReadError)
      <==> forall i :: 0 <= i < |replies| ==> replies[i].Unexpected?
  {
    if replies != [] {
      match replies[0]
      case Ack =>
        assert replies[0] == Ack;
      case Abort(code) =>
        assert Decides(replies, Abort(code)) && replies[0] == Abort(code);
      case Unexpected =>
        WhenSettled(replies[1..], ReadError);
        forall reply ensures Decides(replies, reply) <==> Decides(replies[1..], reply) {
          DecidesLater(replies, reply);
        }
        assert replies == [replies[0]] + replies[1..];
    }
  }

  method Await(replies: seq<Reply>) returns (ret: Status, abortCode: Option<nat>)
    ensures ret == Settled(replies, Timeout)
    ensures abortCode.Some? <==> ret == Aborted
    ensures ret == Aborted ==> Decides(replies, Abort(abortCode.value))
  {
    ret, abortCode := Timeout, None;
    var i := 0;
    while i < |replies|
      invariant 0 <= i <= |replies|
      invariant Settled(replies, Timeout) == Settled(replies[i..], ret)
      invariant ret != Aborted && ret != Ok && abortCode == None
      invariant forall j :: 0 <= j < i ==> replies[j].Unexpected?
    {
      match replies[i] {
        case Ack => ret := Ok;
        case Abort(code) => abortCode := Some(code); ret := Aborted;
        case Unexpected => ret := ReadError;
      }
      if ret == Ok || ret == Aborted {
        break;
      }
      i := i + 1;
    }
  }

  /** Fill the next segment; returns it and how much data it carries. */
  method FillSegment(buf: seq<Byte>, tmpPos: nat, restLen: nat, segLen: nat, toggle: nat)
    returns (m: Message, n: nat)
    requires 0 < restLen && tmpPos + restLen == |buf| && segLen > 0
    ensures m == NextSegment(buf[tmpPos..], segLen, toggle)
    ensures n == Min(restLen, segLen) && m.body == buf[tmpPos..tmpPos + n]
    ensures m.segDataSize == (if restLen < segLen && restLen < 7 then 7 - restLen else 0)
    ensures m.length == (3 + n + m.segDataSize) % 0x1_0000
  {
    var length, segDataSize := (SEGMENT_HDR + segLen) % U16, 0;
    n := segLen;
    if restLen < segLen {
      n := restLen;
      if restLen < 7 {
        length, segDataSize := NORMAL_HDR, 7 - restLen;
      } else {
        length := (SEGMENT_HDR + restLen) % U16;
      }
    }
    assert buf[tmpPos..][..n] == buf[tmpPos..tmpPos + n];
    assert n == restLen ==> buf[tmpPos..][..n] == buf[tmpPos..];
    m := Segment(length, segDataSize, toggle, buf[tmpPos..tmpPos + n]);
  }

  /** Sending one message moves it from what is to be sent to what is sent. */
  lemma MoveOver(ms: seq<Message>, sent: seq<Message>, todo: seq<Message>, m: Message, later: seq<Message>)
    requires ms == sent + todo && todo == [m] + later
    ensures |sent| < |ms| && ms == (sent + [m]) + later
  {
    InTheMiddle(sent, m, later);
  }

  /** A transfer in the middle: `sent` is out, `rest` is to be sent, and `ret` is what the last
      message came to. */
  ghost predicate Underway(
      ms: seq<Message>, sent: seq<Message>, rest: seq<Byte>, segLen: nat, toggle: nat, env: seq<Turn>, ret: Status)
  {
    && segLen > 0 && |sent| >= 1 && ms == sent + Segments(rest, segLen, toggle)
    && SentFrom(env, |ms|, 1) == SentFrom(env, |ms|, |sent|)
    && ret == Outcome(At(env, |sent| - 1))
  }

  lemma OneMoreSegment(
      ms: seq<Message>, sent: seq<Message>, rest: seq<Byte>, segLen: nat, toggle: nat, env: seq<Turn>, ret: Status)
    requires Underway(ms, sent, rest, segLen, toggle, env, ret) && rest != []
    ensures |sent| < |ms| && ms[..|sent|] == sent
    ensures At(env, |sent|) == NoBuffer ==> SentFrom(env, |ms|, 1) == |sent|
    ensures At(env, |sent|) != NoBuffer ==>
      Underway(
        ms, sent + [NextSegment(rest, segLen, toggle)], rest[Min(|rest|, segLen)..], segLen,
        if toggle == 1 then 0 else 1, env, Outcome(At(env, |sent|)))
  {
    var later := Segments(rest[Min(|rest|, segLen)..], segLen, if toggle == 1 then 0 else 1);
    MoveOver(ms, sent, Segments(rest, segLen, toggle), NextSegment(rest, segLen, toggle), later);
  }

  lemma NoMoreSegments(
      ms: seq<Message>, sent: seq<Message>, segLen: nat, toggle: nat, env: seq<Turn>, ret: Status)
    requires Underway(ms, sent, [], segLen, toggle, env, ret)
    ensures sent == ms == ms[..|ms|] && SentFrom(env, |ms|, 1) == |ms| && ret == Outcome(At(env, |ms| - 1))
  {
  }

  /** The loop over the segments, behind a first message that was acknowledged. */
  method SendSegments(buf: seq<Byte>, pos: nat, fullLen: nat, env: seq<Turn>, first: Message)
    returns (ret: Status, sent: seq<Message>)
    requires pos <= |buf| && fullLen > 0 && Outcome(At(env, 0)) == Ok
    ensures var ms := [first] + Segments(buf[pos..], fullLen, 1);
      sent == ms[..SentFrom(env, |ms|, 1)] && ret == LaterResult(env, |ms|)
  {
    ghost var ms := [first] + Segments(buf[pos..], fullLen, 1);
    ghost var rest := buf[pos..];
    ret, sent := Ok, [first];
    var restLen: nat, segLen: nat, tmpPos: nat, toggle: nat := |buf| - pos, fullLen, pos, 1;
    while restLen != 0
      invariant restLen + tmpPos == |buf| && rest == buf[tmpPos..]
      invariant restLen != 0 ==> segLen == fullLen
      invariant Underway(ms, sent, rest, fullLen, toggle, env, ret)
    {
      OneMoreSegment(ms, sent, rest, fullLen, toggle, env, ret);
      if At(env, |sent|) == NoBuffer {
        return OutOfBuffers, sent;
      }
      var m, n := FillSegment(buf, tmpPos, restLen, segLen, toggle);
      toggle := if toggle == 1 then 0 else 1;
      var code;
      ret, code := Await(At(env, |sent|).replies);
      sent := sent + [m];
      segLen, restLen, tmpPos := n, restLen - n, tmpPos + n;
      rest := rest[n..];
    }
    assert rest == [];
    NoMoreSegments(ms, sent, fullLen, toggle, env, ret);
  }

  method SdoWriteNormal(buf: seq<Byte>, mailbox: nat, env: seq<Turn>) returns (ret: Status, sent: seq<Message>)
    requires mailbox < U16
    ensures var ms := Messages(buf, mailbox);
      sent == ms[..SentFrom(env, |ms|, 0)] && ret == Result(env, |ms|)
  {
    if At(env, 0) == NoBuffer {
      return OutOfBuffers, [];
    }
    var maxLen := MaxLen(mailbox);
    var segLen := if |buf| > maxLen then maxLen else |buf|;
    var first := Normal((NORMAL_HDR + segLen) % U16, |buf| % U32, buf[..segLen]);
    sent := [first];
    var code;
    ret, code := Await(At(env, 0).replies);
    if ret == Ok {
      ret, sent := SendSegments(buf, segLen, segLen + (NORMAL_HDR - SEGMENT_HDR), env, first);
    }
  }

  // ---------------------------------------------------------------------------------------
  // Round trip
  // ---------------------------------------------------------------------------------------

  /** The bytes in front of the data. */
  function HeaderLen(m: Message): nat {
    MBX_HDR + if m.Normal? then NORMAL_HDR else SEGMENT_HDR
  }

  /** How much data a message announces. */
  function Announced(m: Message): nat {
    match m
    case Normal(length, _, _) => if length >= NORMAL_HDR then length - NORMAL_HDR else 0
    case Segment(length, segDataSize, _, _) =>
      if length == NORMAL_HDR then if segDataSize <= 7 then 7 - segDataSize else 0
      else if length >= SEGMENT_HDR then length - SEGMENT_HDR else 0
  }

  /** The data that the slave takes out of a message, going by its header: what has been announced
      and has arrived. */
  function Data(m: Message, mailbox: nat): (data: seq<Byte>)
    ensures |data| <= |m.body| && data == m.body[..|data|]
    ensures |data| <= Written(mailbox) && (Written(mailbox) <= HeaderLen(m) ==> data == [])
    ensures HeaderLen(m) + |data| <= Written(mailbox) || data == []
  {
    var arrived := Arrived(m.body, HeaderLen(m), mailbox);
    arrived[..Min(|arrived|, Announced(m))]
  }

  function AllData(ms: seq<Message>, mailbox: nat): (parts: seq<seq<Byte>>)
    ensures |parts| == |ms| && forall i :: 0 <= i < |ms| ==> parts[i] == Data(ms[i], mailbox)
  {
    seq(|ms|, i requires 0 <= i < |ms| => Data(ms[i], mailbox))
  }

  lemma AllDataConcat(a: seq<Message>, b: seq<Message>, mailbox: nat)
    ensures AllData(a + b, mailbox) == AllData(a, mailbox) + AllData(b, mailbox)
  {
    var whole, parts := AllData(a + b, mailbox), AllData(a, mailbox) + AllData(b, mailbox);
    forall i | 0 <= i < |a + b| ensures whole[i] == parts[i] {
      assert (a + b)[i] == if i < |a| then a[i] else b[i - |a|];
    }
  }

  function Decode(ms: seq<Message>, mailbox: nat): seq<Byte> {
    Flatten(AllData(ms, mailbox))
  }

  lemma DecodeConcat(a: seq<Message>, b: seq<Message>, mailbox: nat)
    ensures Decode(a + b, mailbox) == Decode(a, mailbox) + Decode(b, mailbox)
  {
    AllDataConcat(a, b, mailbox);
    FlattenConcat(AllData(a, mailbox), AllData(b, mailbox));
  }

  lemma DecodeOne(m: Message, mailbox: nat)
    ensures Decode([m], mailbox) == Data(m, mailbox)
  {
    assert AllData([m], mailbox) == [Data(m, mailbox)];
    FlattenOne(Data(m, mailbox));
  }

  lemma DecodeFirst(m: Message, later: seq<Message>, mailbox: nat)
    ensures Decode([m] + later, mailbox) == Data(m, mailbox) + Decode(later, mailbox)
  {
    DecodeConcat([m], later, mailbox);
    DecodeOne(m, mailbox);
  }

  /** A segment that fits arrives with its data. */
  lemma SegmentData(rest: seq<Byte>, segLen: nat, toggle: nat, mailbox: nat)
    requires 7 <= segLen && MBX_HDR + SEGMENT_HDR + segLen <= Written(mailbox) && rest != []
    ensures Data(NextSegment(rest, segLen, toggle), mailbox) == rest[..Min(|rest|, segLen)]
  {
    var m := NextSegment(rest, segLen, toggle);
    assert rest[..|rest|] == rest;
    assert Announced(m) == |m.body|;
  }

  lemma {:induction false} SegmentsRoundTrip(rest: seq<Byte>, segLen: nat, toggle: nat, mailbox: nat)
    requires 7 <= segLen && MBX_HDR + SEGMENT_HDR + segLen <= Written(mailbox)
    ensures Decode(Segments(rest, segLen, toggle), mailbox) == rest
    decreases |rest|
  {
    if rest != [] {
      var n := Min(|rest|, segLen);
      SegmentData(rest, segLen, toggle, mailbox);
      var next := if toggle == 1 then 0 else 1;
      SegmentsRoundTrip(rest[n..], segLen, next, mailbox);
      DecodeFirst(NextSegment(rest, segLen, toggle), Segments(rest[n..], segLen, next), mailbox);
      assert rest == rest[..n] + rest[n..];
    }
  }

  /** Whatever arrives of segments, it is not more than what they were made of. */
  lemma {:induction false} SegmentsAreBounded(rest: seq<Byte>, segLen: nat, toggle: nat, mailbox: nat)
    requires segLen > 0
    ensures |Decode(Segments(rest, segLen, toggle), mailbox)| <= |rest|
    decreases |rest|
  {
    if rest != [] {
      var n, next := Min(|rest|, segLen), if toggle == 1 then 0 else 1;
      SegmentsAreBounded(rest[n..], segLen, next, mailbox);
      DecodeFirst(NextSegment(rest, segLen, toggle), Segments(rest[n..], segLen, next), mailbox);
    }
  }

  /** The most data that fits into a pool entry behind the header of the first message. */
  const ENTRY_DATA := ENTRY_SIZE - MBX_HDR - NORMAL_HDR

  /** There is nothing to send; or the mailbox has room for the header of the first message, and either
      the mailbox is not longer than a pool entry, or the buffer fits into one message. */
  predicate GetsThrough(buf: seq<Byte>, mailbox: nat) {
    buf == [] || (mailbox >= 16 && (mailbox <= 1600 || |buf| <= 1584))
  }

  /** The first message brings the beginning of the buffer that it is made of, or less. */
  lemma FirstData(buf: seq<Byte>, mailbox: nat, n: nat)
    requires mailbox < U16 && n == Min(|buf|, MaxLen(mailbox))
    ensures
      var data := Data(First(buf, mailbox), mailbox);
      data <= buf && if GetsThrough(buf, mailbox) then data == buf[..n] else |data| < n
  {
    var first := First(buf, mailbox);
    assert first.body == buf[..n];
    if mailbox >= 16 {
      assert Announced(first) == n;
    }
  }

  /** The whole download: what comes out of the first message, and what comes out of the segments. */
  lemma DecodeMessages(buf: seq<Byte>, mailbox: nat, n: nat)
    requires mailbox < U16 && n == Min(|buf|, MaxLen(mailbox))
    ensures Decode(Messages(buf, mailbox), mailbox) ==
      Data(First(buf, mailbox), mailbox) + Decode(Segments(buf[n..], n + NORMAL_HDR - SEGMENT_HDR, 1), mailbox)
  {
    DecodeFirst(First(buf, mailbox), Segments(buf[n..], n + NORMAL_HDR - SEGMENT_HDR, 1), mailbox);
  }

  lemma RestGetsThrough(buf: seq<Byte>, mailbox: nat, n: nat, rest: seq<Byte>)
    requires mailbox < U16 && n == Min(|buf|, MaxLen(mailbox)) && GetsThrough(buf, mailbox) && rest == buf[n..]
    ensures Decode(Segments(rest, n + NORMAL_HDR - SEGMENT_HDR, 1), mailbox) == rest
  {
    if n < |buf| {
      SegmentsRoundTrip(rest, n + NORMAL_HDR - SEGMENT_HDR, 1, mailbox);
    } else {
      assert rest == [] && AllData(Segments(rest, n + NORMAL_HDR - SEGMENT_HDR, 1), mailbox) == [];
    }
  }

  lemma WholeDownload(buf: seq<Byte>, mailbox: nat, n: nat)
    requires mailbox < U16 && n == Min(|buf|, MaxLen(mailbox)) && GetsThrough(buf, mailbox)
    ensures Decode(Messages(buf, mailbox), mailbox) == buf
  {
    FirstData(buf, mailbox, n);
    DecodeMessages(buf, mailbox, n);
    RestGetsThrough(buf, mailbox, n, buf[n..]);
    assert buf == buf[..n] + buf[n..];
  }

  lemma LostInDownload(buf: seq<Byte>, mailbox: nat, n: nat)
    requires mailbox < U16 && n == Min(|buf|, MaxLen(mailbox)) && !GetsThrough(buf, mailbox)
    ensures |Decode(Messages(buf, mailbox), mailbox)| < |buf|
  {
    FirstData(buf, mailbox, n);
    DecodeMessages(buf, mailbox, n);
    SegmentsAreBounded(buf[n..], n + NORMAL_HDR - SEGMENT_HDR, 1, mailbox);
  }

  /** Main theorem: decoding what arrives of the messages of a download gives the buffer back if and
      only if the buffer is empty, or the mailbox has at least 16 bytes and is not longer than a pool
      entry, or it is longer but the buffer fits into one entry. */
  lemma DownloadRoundTrip(buf: seq<Byte>, mailbox: nat)
    requires mailbox < U16
    ensures Decode(Messages(buf, mailbox), mailbox) == buf <==> GetsThrough(buf, mailbox)
  {
    if GetsThrough(buf, mailbox) {
      WholeDownload(buf, mailbox, Min(|buf|, MaxLen(mailbox)));
    } else {
      LostInDownload(buf, mailbox, Min(|buf|, MaxLen(mailbox)));
    }
  }

  /** For instance, five bytes through a mailbox of 10: the header of the message does not arrive, and
      nothing of the data. */
  lemma AMailboxTooShort(buf: seq<Byte>)
    requires |buf| == 5
    ensures |Messages(buf, 10)| == 1 && Decode(Messages(buf, 10), 10) == []
  {
    DecodeMessages(buf, 10, 5);
    assert buf[5..] == [] && Segments(buf[5..], 12, 1) == [];
  }

  /** And 1585 bytes through a mailbox of 2000: one message, whose last byte is not written. */
  lemma AMailboxTooLong(buf: seq<Byte>)
    requires |buf| == ENTRY_DATA + 1
    ensures |Messages(buf, 2000)| == 1 && Decode(Messages(buf, 2000), 2000) == buf[..ENTRY_DATA]
  {
    var n := |buf|;
    DecodeMessages(buf, 2000, n);
    assert buf[n..] == [] && Segments(buf[n..], n + NORMAL_HDR - SEGMENT_HDR, 1) == [];
    assert First(buf, 2000).body == buf;
  }

  lemma PrefixDecodes(ms: seq<Message>, mailbox: nat, k: nat, buf: seq<Byte>)
    requires k <= |ms| && Decode(ms, mailbox) == buf
    ensures Decode(ms[..k], mailbox) <= buf
  {
    DecodeConcat(ms[..k], ms[k..], mailbox);
    assert ms == ms[..k] + ms[k..];
  }

  lemma FirstDecodes(buf: seq<Byte>, mailbox: nat)
    requires mailbox < U16
    ensures Decode(Messages(buf, mailbox)[..1], mailbox) <= buf
  {
    assert Messages(buf, mailbox)[..1] == [First(buf, mailbox)];
    DecodeOne(First(buf, mailbox), mailbox);
    FirstData(buf, mailbox, Min(|buf|, MaxLen(mailbox)));
  }

  /** As long as the buffer gets through, or only the first message is out, whatever happens on the
      way, the slave never gets anything but a beginning of the buffer. */
  lemma EveryPrefixDecodes(buf: seq<Byte>, mailbox: nat, k: nat)
    requires mailbox < U16 && k <= |Messages(buf, mailbox)|
    ensures GetsThrough(buf, mailbox) || k <= 1 ==> Decode(Messages(buf, mailbox)[..k], mailbox) <= buf
  {
    if GetsThrough(buf, mailbox) {
      DownloadRoundTrip(buf, mailbox);
      PrefixDecodes(Messages(buf, mailbox), mailbox, k, buf);
    } else if k == 1 {
      FirstDecodes(buf, mailbox);
    }
  }

  /** A message fits into the pool entry that it is built in. */
  predicate FitsEntry(m: Message) {
    HeaderLen(m) + |m.body| <= ENTRY_SIZE
  }

  /** All messages of a download do exactly when the buffer fits into one of them, or the mailbox has
      at least 16 bytes and is not longer than an entry. */
  lemma WhenEntriesSuffice(buf: seq<Byte>, mailbox: nat)
    requires mailbox < U16
    ensures (forall i :: 0 <= i < |Messages(buf, mailbox)| ==> FitsEntry(Messages(buf, mailbox)[i]))
      <==> |buf| <= 1584 || 16 <= mailbox <= 1600
  {
    var ms, n := Messages(buf, mailbox), Min(|buf|, MaxLen(mailbox));
    assert ms[0] == First(buf, mailbox) && |ms[0].body| == n;
    if |buf| <= ENTRY_DATA {
      assert buf[n..] == [] ==> |ms| == 1;
      forall i | 0 <= i < |ms| ensures FitsEntry(ms[i]) {
        if i > 0 {
          MessageFits(buf, mailbox, i);
        }
      }
    } else if 16 <= mailbox <= ENTRY_SIZE {
      forall i | 0 <= i < |ms| ensures FitsEntry(ms[i]) {
        MessageFits(buf, mailbox, i);
      }
    } else {
      assert !FitsEntry(ms[0]);
    }
  }

  /** The bytes of a message, and its length as it says itself, fit into the mailbox. */
  predicate FitsMailbox(m: Message, mailbox: nat) {
    MBX_HDR + m.length <= mailbox && MBX_HDR + (if m.Normal? then NORMAL_HDR else SEGMENT_HDR) + |m.body| <= mailbox
  }

  lemma SegmentsSplit(rest: seq<Byte>, segLen: nat, toggle: nat, i: nat)
    requires segLen > 0 && rest != [] && 0 < i < |Segments(rest, segLen, toggle)|
    ensures
      var later := Segments(rest[Min(|rest|, segLen)..], segLen, if toggle == 1 then 0 else 1);
      i - 1 < |later| && Segments(rest, segLen, toggle)[i] == later[i - 1]
  {
  }

  /** Every segment is as long as its room, and the toggle bits alternate. */
  lemma {:induction false} SegmentAt(rest: seq<Byte>, segLen: nat, toggle: nat, i: nat)
    requires segLen >= 7 && toggle <= 1
    requires i < |Segments(rest, segLen, toggle)|
    ensures var m := Segments(rest, segLen, toggle)[i];
      && m.Segment? && m.toggle == (i + toggle) % 2
      && |m.body| <= segLen && m.length <= SEGMENT_HDR + segLen
    decreases i
  {
    if i == 0 {
      assert Segments(rest, segLen, toggle)[0] == NextSegment(rest, segLen, toggle);
    } else {
      SegmentsSplit(rest, segLen, toggle, i);
      SegmentAt(rest[Min(|rest|, segLen)..], segLen, if toggle == 1 then 0 else 1, i - 1);
    }
  }

  /** Every message of every download fits into the mailbox exactly when the mailbox has at
      least 16 bytes: in a smaller one the computation of the room for data wraps around. */
  lemma MessagesFit(mailbox: nat)
    requires mailbox < U16
    ensures mailbox >= 16 <==>
      forall buf: seq<Byte>, i :: 0 <= i < |Messages(buf, mailbox)| ==> FitsMailbox(Messages(buf, mailbox)[i], mailbox)
  {
    forall buf: seq<Byte>, i | mailbox >= 16 && 0 <= i < |Messages(buf, mailbox)|
      ensures FitsMailbox(Messages(buf, mailbox)[i], mailbox)
    {
      MessageFits(buf, mailbox, i);
    }
    if mailbox < 16 {
      assert !FitsMailbox(Messages([], mailbox)[0], mailbox);
    }
  }

  lemma MessageFits(buf: seq<Byte>, mailbox: nat, i: nat)
    requires 16 <= mailbox < U16 && i < |Messages(buf, mailbox)|
    ensures FitsMailbox(Messages(buf, mailbox)[i], mailbox)
  {
    var n := Min(|buf|, MaxLen(mailbox));
    if i > 0 {
      SegmentAt(buf[n..], n + NORMAL_HDR - SEGMENT_HDR, 1, i - 1);
    }
  }

  /** The toggle bit of the segments alternates, starting with 1. */
  lemma ToggleAlternates(buf: seq<Byte>, mailbox: nat, i: nat)
    requires mailbox < U16 && 1 <= i < |Messages(buf, mailbox)|
    ensures Messages(buf, mailbox)[i].Segment? && Messages(buf, mailbox)[i].toggle == i % 2
  {
    var n := Min(|buf|, MaxLen(mailbox));
    SegmentAt(buf[n..], n + NORMAL_HDR - SEGMENT_HDR, 1, i - 1);
  }

  // ---------------------------------------------------------------------------------------
  // The result
  // ---------------------------------------------------------------------------------------

  lemma {:induction false} AllSent(env: seq<Turn>, n: nat, i: nat)
    requires 1 <= i <= n
    ensures SentFrom(env, n, i) == n <==> forall j :: i <= j < n ==> At(env, j) != NoBuffer
    decreases n - i
  {
    if i < n && At(env, i) != NoBuffer {
      AllSent(env, n, i + 1);
    }
  }

  /** A download reports success exactly when the first and the last message were acknowledged
      and a buffer was found for every message; and then all messages are out. */
  lemma WhenDownloadSucceeds(env: seq<Turn>, n: nat)
    requires n >= 1
    ensures Result(env, n) == Ok <==>
      && (forall j :: 0 <= j < n ==> At(env, j) != NoBuffer)
      && Outcome(At(env, 0)) == Ok && Outcome(At(env, n - 1)) == Ok
    ensures Result(env, n) == Ok ==> SentFrom(env, n, 0) == n
  {
    AllSent(env, n, 1);
  }

  /** What a transfer comes to otherwise: what the first message came to if that was not acknowledged;
      the lack of a buffer behind it; or what the last message came to. */
  lemma WhatADownloadComesTo(env: seq<Turn>, n: nat)
    requires n >= 1
    ensures At(env, 0) == NoBuffer ==> Result(env, n) == OutOfBuffers && SentFrom(env, n, 0) == 0
    ensures At(env, 0) != NoBuffer && Outcome(At(env, 0)) != Ok ==>
      Result(env, n) == Settled(At(env, 0).replies, Timeout) && SentFrom(env, n, 0) == 1
    ensures At(env, 0) != NoBuffer && Outcome(At(env, 0)) == Ok ==>
      var k := SentFrom(env, n, 0);
      && k >= 1 && (forall j :: 0 <= j < k ==> At(env, j) != NoBuffer)
      && if k < n then At(env, k) == NoBuffer && Result(env, n) == OutOfBuffers
         else At(env, n - 1) != NoBuffer && Result(env, n) == Settled(At(env, n - 1).replies, Timeout)
  {
    SentUntilNoBuffer(env, n, 1);
    if At(env, 0) != NoBuffer && Outcome(At(env, 0)) == Ok {
      assert SentFrom(env, n, 0) == SentFrom(env, n, 1);
    }
  }

  lemma {:induction false} SentUntilNoBuffer(env: seq<Turn>, n: nat, i: nat)
    requires 1 <= i <= n
    ensures var k := SentFrom(env, n, i);
      && (forall j :: i <= j < k ==> At(env, j) != NoBuffer)
      && (k < n ==> At(env, k) == NoBuffer)
    decreases n - i
  {
    if i < n && At(env, i) != NoBuffer {
      SentUntilNoBuffer(env, n, i + 1);
    }
  }

  /** The first message announces the size of the whole buffer. */
  lemma SizeIsAnnounced(buf: seq<Byte>, mailbox: nat)
    requires mailbox < 0x1_0000
    ensures
      var m := Messages(buf, mailbox)[0];
      var room := if mailbox >= 16 then mailbox - 16 else 0xFFFF_FFF0 + mailbox;
      && m.Normal? && m.completeSize == |buf| % 0x1_0000_0000
      && m.body == buf[..Min(|buf|, room)] && m.length == (10 + |m.body|) % 0x1_0000
    ensures forall i :: 1 <= i < |Messages(buf, mailbox)| ==> Messages(buf, mailbox)[i].Segment?
  {
    forall i | 1 <= i < |Messages(buf, mailbox)| ensures Messages(buf, mailbox)[i].Segment? {
      ToggleAlternates(buf, mailbox, i);
    }
  }

  /** So an abort of a segment in the middle is overlooked when the last segment is
      acknowledged: the loop over the segments looks at the buffers, not at the answers. */
  lemma AbortInTheMiddleIsOverlooked(code: nat)
    ensures
      var env := [Answered([Ack]), Answered([Abort(code)]), Answered([Ack])];
      Outcome(env[1]) == Aborted && Result(env, 3) == Ok
  {
    var env := [Answered([Ack]), Answered([Abort(code)]), Answered([Ack])];
    WhenDownloadSucceeds(env, 3);
  }
}
