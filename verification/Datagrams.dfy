/** The byte layout of EtherCAT datagrams and frames (EtherCAT data link layer). */
module Datagrams {
  import opened Bytes

  /** A datagram on the wire: command, index, address, 11 bits of payload length with the
      "more follows" bit on top, interrupt field, payload, working counter. */
  type Datagram = d: seq<Byte> | |d| >= 12 && Length(d) == |d|
    witness [1, 0, 0, 0, 0, 0, 0, 0, 0, 0, 0, 0]

  const FRAME_HDR_LENGTH := 16
  const DATAGRAM_HDR_LENGTH := 10
  const WKC_SIZE := 2
  const MAX_FRAME_LENGTH := 0x7FF  // the frame length field has 11 bits

  /** The length that a datagram header announces, including header and working counter. */
  function Length(d: seq<Byte>): (n: nat)
    requires |d| >= 8
    ensures 12 <= n < 0x800 + 12
  {
    DATAGRAM_HDR_LENGTH + (d[6] as nat + 0x100 * (d[7] as nat % 8)) + WKC_SIZE
  }

  function Index(d: seq<Byte>): nat
    requires |d| >= 2
  {
    d[1] as nat
  }

  function MoreFollows(d: seq<Byte>): bool
    requires |d| >= 8
  {
    d[7] >= 0x80
  }

  /** The datagram with its "more follows" bit set or cleared. */
  function Marked(d: Datagram, more: bool): (r: Datagram)
    ensures |r| == |d| && Index(r) == Index(d) && MoreFollows(r) == more
    ensures r[..7] == d[..7] && r[8..] == d[8..] && r[7] % 0x80 == d[7] % 0x80
  {
    MarkKeepsLength(d[7], more);
    d[7 := d[7] % 0x80 + if more then 0x80 else 0]
  }

  lemma MarkKeepsLength(b: Byte, more: bool)
    ensures (b % 0x80 + if more then 0x80 else 0) as nat % 8 == b as nat % 8
  {
    var x := b as int;
    assert x % 8 == (x % 0x80) % 8;
  }

  /** The header of a frame of this length: broadcast destination, source, EtherType 0x88A4,
      then the 11-bit length with the protocol type 1. */
  function Header(len: nat): (h: seq<Byte>)
    requires len <= MAX_FRAME_LENGTH
    ensures |h| == FRAME_HDR_LENGTH
  {
    [0xFF, 0xFF, 0xFF, 0xFF, 0xFF, 0xFF, 0x00, 0x30, 0x64, 0x0F, 0x83, 0x35, 0x88, 0xA4,
     (len % 0x100) as Byte, (len / 0x100 + 0x10) as Byte]
  }

  /** The length that a frame header announces. */
  function FrameLength(f: seq<Byte>): nat
    requires |f| >= FRAME_HDR_LENGTH
  {
    f[14] as nat + 0x100 * (f[15] as nat % 8)
  }

  predicate IsEtherCat(f: seq<Byte>)
    requires |f| >= FRAME_HDR_LENGTH
  {
    f[12] == 0x88 && f[13] == 0xA4
  }

  lemma HeaderAnnounces(len: nat, rest: seq<Byte>)
    requires len <= MAX_FRAME_LENGTH
    ensures FrameLength(Header(len) + rest) == len && IsEtherCat(Header(len) + rest)
  {
  }

  /** Walking the datagrams of a frame from `pos` up to `end`, each at the end of the previous
      one; a datagram that runs over the buffer ends the walk. */
  function Walk(f: seq<Byte>, pos: nat, end: nat): seq<seq<Byte>>
    decreases |f| - pos
  {
    if pos >= end || pos + 8 > |f| || pos + Length(f[pos..]) > |f| then []
    else
      var n := Length(f[pos..]);
      [f[pos..pos + n]] + Walk(f, pos + n, end)
  }

  /** The datagrams that the receiver sees in a frame. */
  function Received(f: seq<Byte>): seq<seq<Byte>> {
    if |f| < FRAME_HDR_LENGTH || !IsEtherCat(f) then [] else Walk(f, FRAME_HDR_LENGTH, FrameLength(f))
  }

  /** An entry of a datagram pool: its number and the datagram in its buffer. */
  datatype Entry = Entry(id: nat, data: Datagram)

  function DataOf(q: seq<Entry>): (ds: seq<Datagram>)
    ensures |ds| == |q|
    ensures forall i :: 0 <= i < |q| ==> ds[i] == q[i].data
  {
    seq(|q|, i requires 0 <= i < |q| => q[i].data)
  }

  // ---------------------------------------------------------------------------------------
  // Chains: the payload of a frame
  // ---------------------------------------------------------------------------------------

  function Size(ds: seq<Datagram>): nat {
    if ds == [] then 0 else |ds[0]| + Size(ds[1..])
  }

  function FrameSize(ds: seq<Datagram>): nat {
    FRAME_HDR_LENGTH + Size(ds)
  }

  /** The datagrams of one frame: all but the last one announce another one. */
  function Linked(ds: seq<Datagram>): (r: seq<Datagram>)
    ensures |r| == |ds|
  {
    seq(|ds|, i requires 0 <= i < |ds| => Marked(ds[i], i + 1 < |ds|))
  }

  /** The bytes of datagrams that all announce another one. */
  function OpenChain(ds: seq<Datagram>): (r: seq<Byte>)
    ensures |r| == Size(ds)
  {
    if ds == [] then [] else Marked(ds[0], true) + OpenChain(ds[1..])
  }

  /** The bytes of the datagrams of one frame. */
  function Chain(ds: seq<Datagram>): (r: seq<Byte>)
    ensures |r| == Size(ds)
  {
    if ds == [] then [] else Marked(ds[0], |ds| > 1) + Chain(ds[1..])
  }

  function FrameBytes(ds: seq<Datagram>): (f: seq<Byte>)
    requires FrameSize(ds) <= MAX_FRAME_LENGTH
    ensures |f| == FrameSize(ds)
  {
    Header(FrameSize(ds)) + Chain(ds)
  }

  lemma {:induction false} SizeAppend(ds: seq<Datagram>, d: Datagram)
    ensures Size(ds + [d]) == Size(ds) + |d|
  {
    if ds == [] {
      assert [d][1..] == [];
    } else {
      SizeAppend(ds[1..], d);
      assert (ds + [d])[1..] == ds[1..] + [d];
    }
  }

  lemma {:induction false} OpenChainAppend(ds: seq<Datagram>, d: Datagram)
    ensures OpenChain(ds + [d]) == OpenChain(ds) + Marked(d, true)
  {
    if ds == [] {
      assert [d][1..] == [];
    } else {
      OpenChainAppend(ds[1..], d);
      assert (ds + [d])[1..] == ds[1..] + [d];
    }
  }

  lemma OneChain(d: Datagram)
    ensures Chain([d]) == Marked(d, false)
  {
    assert [d][1..] == [];
    assert Chain([]) == [];
  }

  /** Appending a datagram to a frame sets the bit of the one before and clears its own. */
  lemma {:induction false} ChainAppend(ds: seq<Datagram>, d: Datagram)
    ensures Chain(ds + [d]) == OpenChain(ds) + Marked(d, false)
  {
    if ds == [] {
      assert ds + [d] == [d];
      OneChain(d);
    } else {
      ChainAppend(ds[1..], d);
      var all, first := ds + [d], Marked(ds[0], true);
      assert all[1..] == ds[1..] + [d];
      assert Chain(all) == first + Chain(all[1..]);
      Associates(first, OpenChain(ds[1..]), Marked(d, false));
    }
  }

  lemma LinkedSplit(ds: seq<Datagram>)
    requires ds != []
    ensures Linked(ds) == [Marked(ds[0], |ds| > 1)] + Linked(ds[1..])
  {
  }

  lemma LengthOfFirst(first: Datagram, rest: seq<Byte>)
    ensures Length(first + rest) == |first|
  {
    assert Length(first + rest) == Length(first);
  }

  lemma SplitOff(f: seq<Byte>, pos: nat, first: seq<Byte>, rest: seq<Byte>)
    requires pos <= |f| && f[pos..] == first + rest
    ensures |f| - pos >= |first| && f[pos..pos + |first|] == first && f[pos + |first|..] == rest
  {
    assert |f[pos..]| == |first| + |rest|;
    assert f[pos..pos + |first|] == f[pos..][..|first|];
    assert f[pos + |first|..] == f[pos..][|first|..];
  }

  /** A chain starts with its first datagram, which announces its own length. */
  lemma ChainStarts(f: seq<Byte>, pos: nat, ds: seq<Datagram>, pad: seq<Byte>, first: Datagram)
    requires pos <= |f| && f[pos..] == Chain(ds) + pad && ds != [] && first == Marked(ds[0], |ds| > 1)
    ensures |f| - pos >= |first| == Length(f[pos..])
    ensures f[pos..pos + |first|] == first && f[pos + |first|..] == Chain(ds[1..]) + pad
  {
    Associates(first, Chain(ds[1..]), pad);
    LengthOfFirst(first, Chain(ds[1..]) + pad);
    SplitOff(f, pos, first, Chain(ds[1..]) + pad);
  }

  lemma WalkStep(f: seq<Byte>, pos: nat, end: nat, first: Datagram)
    requires |f| - pos >= |first| == Length(f[pos..]) && f[pos..pos + |first|] == first && pos < end
    ensures Walk(f, pos, end) == [first] + Walk(f, pos + |first|, end)
  {
  }

  /** Walking the bytes of a frame gives back its datagrams, whatever comes behind them. */
  lemma {:induction false} WalkChain(f: seq<Byte>, pos: nat, end: nat, ds: seq<Datagram>, pad: seq<Byte>)
    requires pos <= |f| && end == pos + Size(ds)
    requires f[pos..] == Chain(ds) + pad
    ensures Walk(f, pos, end) == Linked(ds)
    decreases |ds|
  {
    if ds == [] {
      assert Linked(ds) == [];
    } else {
      var first := Marked(ds[0], |ds| > 1);
      ChainStarts(f, pos, ds, pad, first);
      WalkStep(f, pos, end, first);
      WalkChain(f, pos + |first|, end, ds[1..], pad);
      LinkedSplit(ds);
    }
  }

  /** The receiver sees exactly the datagrams that the sender put into a frame, even when the frame
      comes with padding. */
  lemma PaddingIsIgnored(ds: seq<Datagram>, pad: seq<Byte>)
    requires FrameSize(ds) <= MAX_FRAME_LENGTH
    ensures Received(FrameBytes(ds) + pad) == Linked(ds)
  {
    var f := FrameBytes(ds) + pad;
    HeaderAnnounces(FrameSize(ds), Chain(ds) + pad);
    assert f == Header(FrameSize(ds)) + (Chain(ds) + pad);
    assert f[FRAME_HDR_LENGTH..] == Chain(ds) + pad;
    WalkChain(f, FRAME_HDR_LENGTH, FrameSize(ds), ds, pad);
  }

  /** And when it comes without. */
  lemma FrameRoundTrip(ds: seq<Datagram>)
    requires FrameSize(ds) <= MAX_FRAME_LENGTH
    ensures Received(FrameBytes(ds)) == Linked(ds)
  {
    PaddingIsIgnored(ds, []);
    assert FrameBytes(ds) + [] == FrameBytes(ds);
  }

  // ---------------------------------------------------------------------------------------
  // Layout
  // ---------------------------------------------------------------------------------------

  /** A datagram as it is put together: command, index, address with its lowest byte first, payload
      length with the "more follows" bit, interrupt field, payload, working counter. */
  function Build(cmd: Byte, idx: Byte, adr: nat, more: bool, payload: seq<Byte>): (d: seq<Byte>)
    requires adr < 0x1_0000_0000 && |payload| < 0x800
    ensures |d| == 12 + |payload|
  {
    [cmd, idx, (adr % 0x100) as Byte, (adr / 0x100 % 0x100) as Byte, (adr / 0x1_0000 % 0x100) as Byte,
     (adr / 0x100_0000) as Byte, (|payload| % 0x100) as Byte, (|payload| / 0x100 + if more then 0x80 else 0) as Byte,
     0, 0] + payload + [0, 0]
  }

  /** Index, length and "more follows" bit are read where they were put, whatever the other fields are. */
  lemma BuiltIsRead(cmd: Byte, idx: Byte, adr: nat, more: bool, payload: seq<Byte>)
    requires adr < 0x1_0000_0000 && |payload| < 0x800
    ensures
      var d := Build(cmd, idx, adr, more, payload);
      && Length(d) == |d| && Index(d) == idx as nat && MoreFollows(d) == more && d[10..10 + |payload|] == payload
  {
    var d, len := Build(cmd, idx, adr, more, payload), |payload|;
    assert d[1] == idx && d[6] == (len % 0x100) as Byte && d[7] == (len / 0x100 + if more then 0x80 else 0) as Byte;
    assert len / 0x100 < 8 && (len / 0x100 + 0x80) % 8 == len / 0x100;
  }

  /** Marking a datagram is building it with that bit. */
  lemma MarkedIsBuilt(cmd: Byte, idx: Byte, adr: nat, was: bool, more: bool, payload: seq<Byte>, d: Datagram)
    requires adr < 0x1_0000_0000 && |payload| < 0x800 && d == Build(cmd, idx, adr, was, payload)
    ensures Marked(d, more) == Build(cmd, idx, adr, more, payload)
  {
    var len := |payload|;
    assert d[7] == (len / 0x100 + if was then 0x80 else 0) as Byte;
    assert len / 0x100 < 8;
    assert d[7] % 0x80 == (len / 0x100) as Byte;
    assert d[7 := Build(cmd, idx, adr, more, payload)[7]] == Build(cmd, idx, adr, more, payload);
  }

  lemma HeaderLayout(len: nat)
    requires len <= MAX_FRAME_LENGTH
    ensures
      var h := Header(len);
      && |h| == 16 && (forall i :: 0 <= i < 6 ==> h[i] == 0xFF) && h[12] == 0x88 && h[13] == 0xA4
      && h[14] as nat + 0x100 * (h[15] as nat % 8) == len && h[15] / 0x10 == 1
  {
    assert len / 0x100 < 8 && (len / 0x100 + 0x10) % 8 == len / 0x100;
  }

  /** A frame: broadcast, EtherType 0x88A4, its own length in 11 bits, lowest byte first, and the
      protocol type 1 in the highest four; then the datagrams. */
  lemma FrameLayout(ds: seq<Datagram>, f: seq<Byte>)
    requires FrameSize(ds) <= MAX_FRAME_LENGTH && f == FrameBytes(ds)
    ensures |f| == 16 + Size(ds) && f[16..] == Chain(ds)
    ensures (forall i :: 0 <= i < 6 ==> f[i] == 0xFF) && f[12] == 0x88 && f[13] == 0xA4
    ensures f[14] as nat + 0x100 * (f[15] as nat % 8) == |f| && f[15] / 0x10 == 1
  {
    HeaderLayout(FrameSize(ds));
    assert forall i :: 0 <= i < 16 ==> f[i] == Header(FrameSize(ds))[i];
  }

  /** In a frame of another type there is nothing to see. */
  lemma OtherTypeIsIgnored(f: seq<Byte>)
    requires |f| >= 14 && (f[12] != 0x88 || f[13] != 0xA4)
    ensures Received(f) == []
  {
  }
}
