/** The Internet checksums of the virtual Ethernet interface (RFC 1071; the header checksum of
    RFC 791, and RFC 768 for UDP).  `big` is the byte order of the host. */
module Checksums {
  import opened Bytes

  const MAX_U32 := 0xFFFF_FFFF
  const IP_HDR := 20
  const IP_CHECK := 10
  const IP_SRC := 12
  const IP_DST := 16
  const ICMP_HDR := 8
  const ICMP_CHECK := 2
  const UDP_HDR := 8
  const UDP_LEN := 4
  const UDP_CHECK := 6
  const PROTO_UDP := 17

  /** The 16-bit word in two consecutive bytes of memory. */
  function Word(a: Byte, b: Byte, big: bool): (w: nat)
    ensures w < 0x10000
  {
    if big then 0x100 * a as nat + b as nat else a as nat + 0x100 * b as nat
  }

  function FirstByte(w: nat, big: bool): Byte
    requires w < 0x10000
  {
    (if big then w / 0x100 else w % 0x100) as Byte
  }

  function SecondByte(w: nat, big: bool): Byte
    requires w < 0x10000
  {
    (if big then w % 0x100 else w / 0x100) as Byte
  }

  /** From the byte order of the host to that of the network, or back. */
  function Htons(w: nat, big: bool): nat
    requires w < 0x10000
  {
    if big then w else w % 0x100 * 0x100 + w / 0x100
  }

  function Low(x: nat): nat { x % 0x10000 }

  function High(x: nat): nat { x / 0x10000 % 0x10000 }

  /** The sum of the words of some bytes; an odd byte at the end is padded with a zero byte. */
  function Sum(data: seq<Byte>, big: bool): nat {
    if |data| == 0 then 0
    else if |data| == 1 then Word(data[0], 0, big)
    else Word(data[0], data[1], big) + Sum(data[2..], big)
  }

  /** Adding the carries until none is left. */
  function Folded(sum: nat): nat {
    if sum < 0x10000 then sum else Folded(sum % 0x10000 + sum / 0x10000)
  }

  /** What a receiver checks. */
  predicate Verifies(data: seq<Byte>, big: bool) {
    Folded(Sum(data, big)) == 0xFFFF
  }

  // ---------------------------------------------------------------------------------------
  // Folding is addition in ones' complement
  // ---------------------------------------------------------------------------------------

  /** Folding keeps the sum modulo 65535, and tells 0 from 65535; `q` is how often 65535 was
      dropped. */
  lemma {:induction false} FoldedIsRemainder(sum: nat) returns (q: nat)
    ensures sum == Folded(sum) + 0xFFFF * q
    ensures Folded(sum) <= 0xFFFF && (Folded(sum) == 0 <==> sum == 0)
  {
    q := 0;
    if sum >= 0x10000 {
      q := FoldedIsRemainder(sum % 0x10000 + sum / 0x10000);
      q := q + sum / 0x10000;
    }
  }

  /** That determines the folded sum. */
  lemma FoldedIsUnique(sum: nat, f: nat, q: int)
    requires sum == f + 0xFFFF * q && f <= 0xFFFF && (f == 0 <==> sum == 0)
    ensures Folded(sum) == f
  {
    var p := FoldedIsRemainder(sum);
    assert Folded(sum) - f == 0xFFFF * (q - p);
  }

  /** Addition of 16-bit numbers with the carry added at the other end. */
  function OnesAdd(a: nat, b: nat): nat {
    if a + b > 0xFFFF then a + b - 0xFFFF else a + b
  }

  /** The ones' complement sum of RFC 1071, carrying at every word. */
  function OnesSum(data: seq<Byte>, big: bool): nat {
    if |data| == 0 then 0
    else if |data| == 1 then Word(data[0], 0, big)
    else OnesAdd(Word(data[0], data[1], big), OnesSum(data[2..], big))
  }

  /** Main theorem: adding everything first and folding at the end is the ones' complement sum. */
  lemma {:induction false} FoldingIsOnesSum(data: seq<Byte>, big: bool)
    ensures Folded(Sum(data, big)) == OnesSum(data, big)
  {
    if |data| > 1 {
      FoldingIsOnesSum(data[2..], big);
      var q := FoldedIsRemainder(Sum(data[2..], big));
      var w, f := Word(data[0], data[1], big), OnesSum(data[2..], big);
      FoldedIsUnique(Sum(data, big), OnesAdd(w, f), if w + f > 0xFFFF then q + 1 else q);
    }
  }

  /** Swapping the bytes of a word is multiplying it by 256, modulo 65535. */
  lemma {:induction false} SumInOtherOrder(data: seq<Byte>) returns (k: int)
    ensures Sum(data, true) == 0x100 * Sum(data, false) - 0xFFFF * k
    ensures Sum(data, true) == 0 <==> Sum(data, false) == 0
  {
    k := 0;
    if |data| == 1 {
    } else if |data| > 1 {
      k := SumInOtherOrder(data[2..]);
      k := k + data[1] as int;
    }
  }

  /** Main theorem: the byte order of the host does not matter: both orders give the same two
      bytes, so a receiver of the other order comes to the same verdict. */
  lemma ByteOrderIndependence(data: seq<Byte>)
    ensures Folded(Sum(data, false)) <= 0xFFFF
    ensures Folded(Sum(data, true)) == Htons(Folded(Sum(data, false)), false)
    ensures Verifies(data, true) <==> Verifies(data, false)
  {
    var s, t := Sum(data, true), Sum(data, false);
    var k := SumInOtherOrder(data);
    var q := FoldedIsRemainder(t);
    var g := Folded(t);
    assert Htons(g, false) == 0x100 * g - 0xFFFF * (g / 0x100);
    FoldedIsUnique(s, Htons(g, false), 0x100 * q - k + g / 0x100);
  }

  // ---------------------------------------------------------------------------------------
  // The field that makes a packet verify
  // ---------------------------------------------------------------------------------------

  /** Two packets differ in the word at `i` only. */
  predicate OnlyWordChanged(was: seq<Byte>, now: seq<Byte>, i: nat) {
    |now| == |was| && i + 1 < |was| && now[..i] == was[..i] && now[i + 2..] == was[i + 2..]
  }

  /** Bytes with a word stored in them. */
  function Stored(data: seq<Byte>, i: nat, w: nat, big: bool): (s: seq<Byte>)
    requires i + 1 < |data| && w < 0x10000
    ensures OnlyWordChanged(data, s, i) && Word(s[i], s[i + 1], big) == w
  {
    data[i := FirstByte(w, big)][i + 1 := SecondByte(w, big)]
  }

  lemma {:induction false} SumConcat(a: seq<Byte>, b: seq<Byte>, big: bool)
    requires |a| % 2 == 0
    ensures Sum(a + b, big) == Sum(a, big) + Sum(b, big)
  {
    if a == [] {
      assert a + b == b;
    } else {
      SumConcat(a[2..], b, big);
      assert (a + b)[2..] == a[2..] + b;
    }
  }

  /** The word at an even place is one of the summands. */
  lemma SumAround(data: seq<Byte>, i: nat, big: bool)
    requires i % 2 == 0 && i + 1 < |data|
    ensures Sum(data, big) == Sum(data[..i], big) + Word(data[i], data[i + 1], big) + Sum(data[i + 2..], big)
  {
    assert data == data[..i] + data[i..];
    SumConcat(data[..i], data[i..], big);
    assert data[i..][2..] == data[i + 2..];
  }

  /** A pseudo sum `p` and the words of a packet whose check field was 0 make up `sum`; storing
      the complement of the folded sum, or 65535 instead of 0, makes everything verify. */
  lemma ComplementVerifies(data: seq<Byte>, i: nat, p: nat, check: nat, big: bool)
    requires i % 2 == 0 && i + 1 < |data| && check < 0x10000
    requires
      var sum := p + Sum(Stored(data, i, 0, big), big);
      check == 0xFFFF - Folded(sum) || (check == 0xFFFF && Folded(sum) == 0xFFFF)
    ensures Folded(p + Sum(Stored(data, i, check, big), big)) == 0xFFFF
  {
    SumAround(Stored(data, i, 0, big), i, big);
    SumAround(Stored(data, i, check, big), i, big);
    var sum := p + Sum(Stored(data, i, 0, big), big);
    var q := FoldedIsRemainder(sum);
    FoldedIsUnique(sum + check, 0xFFFF, if check == 0xFFFF && Folded(sum) == 0xFFFF then q + 1 else q);
  }

  lemma Halves(sum: nat)
    requires sum <= MAX_U32
    ensures sum == Low(sum) + 0x10000 * High(sum) && High(sum) < 0x10000
    ensures Low(sum) == sum % 0x10000 && High(sum) == sum / 0x10000
  {
  }

  /** One round of folding. */
  lemma FoldOnce(sum: nat)
    requires sum <= MAX_U32
    ensures Folded(sum) == if High(sum) == 0 then sum else Folded(Low(sum) + High(sum))
  {
    Halves(sum);
  }

  lemma LowOfComplement(sum: nat)
    requires sum <= MAX_U32
    ensures Low(MAX_U32 - sum) == 0xFFFF - Low(sum)
  {
    Halves(sum);
    Halves(MAX_U32 - sum);
  }

  /** Two steps fold every 32-bit sum, up to a carry that is cut off when the sum is stored. */
  lemma TwoStepsFold(sum: nat)
    requires sum <= MAX_U32
    ensures
      var once := High(sum) + Low(sum);
      Low(once + High(once)) == Folded(sum)
  {
    Halves(sum);
    Halves(High(sum) + Low(sum));
    FoldOnce(sum);
    FoldOnce(High(sum) + Low(sum));
  }

  // ---------------------------------------------------------------------------------------
  // The loops
  // ---------------------------------------------------------------------------------------

  lemma SumStep(p: seq<Byte>, i: nat, end: nat, big: bool)
    requires i + 1 < end <= |p|
    ensures Sum(p[i..end], big) == Word(p[i], p[i + 1], big) + Sum(p[i + 2..end], big)
  {
    assert p[i..end][2..] == p[i + 2..end];
  }

  /** 32-bit addition. */
  function AddU32(a: nat, b: nat): (s: nat)
    ensures a + b <= MAX_U32 ==> s == a + b
  {
    (a + b) % (MAX_U32 + 1)
  }

  /** Adding the words of `n` bytes to a 32-bit sum. */
  method AddWords(data: array<Byte>, from: nat, n: nat, start: nat, big: bool) returns (sum: nat)
    requires from + n <= data.Length && n <= 0xFFFF && start <= 0x60000
    ensures sum == start + Sum(data[from..from + n], big) <= MAX_U32
  {
    ghost var d := data[..];
    ghost var whole := Sum(d[from..from + n], big);
    assert data[from..from + n] == d[from..from + n];
    sum := start;
    var len: nat, i: nat := n, from;
    while len > 1
      invariant i + len == from + n && i >= from
      invariant sum + Sum(d[i..from + n], big) == start + whole
      invariant 2 * sum <= 2 * start + (i - from) * 0xFFFF
    {
      SumStep(d, i, from + n, big);
      sum := AddU32(sum, Word(data[i], data[i + 1], big));
      len, i := len - 2, i + 2;
    }
    if len > 0 {
      assert d[i..from + n] == [data[i]];
      sum := AddU32(sum, Word(data[i], 0, big));
    }
  }

  /** The folding loop ends, with the folded sum. */
  method Fold(start: nat) returns (sum: nat)
    requires start <= MAX_U32
    ensures sum == Folded(start) < 0x10000
  {
    sum := start;
    while High(sum) != 0
      invariant sum <= MAX_U32 && Folded(sum) == Folded(start)
      decreases sum
    {
      Halves(sum);
      FoldOnce(sum);
      sum := Low(sum) + High(sum);
    }
    FoldOnce(sum);
    Halves(sum);
  }

  method FoldAndComplement(start: nat) returns (check: nat)
    requires start <= MAX_U32
    ensures check == 0xFFFF - Folded(start) && 0 <= check < 0x10000
  {
    var sum := Fold(start);
    LowOfComplement(sum);
    check := Low(MAX_U32 - sum);
  }

  method StoreWord(data: array<Byte>, i: nat, w: nat, big: bool)
    requires i + 1 < data.Length && w < 0x10000
    modifies data
    ensures data[..] == Stored(old(data[..]), i, w, big)
  {
    data[i], data[i + 1] := FirstByte(w, big), SecondByte(w, big);
  }

  /** A check word that makes everything verify that adds up to `sum` without it. */
  predicate Settles(check: nat, sum: nat) {
    check < 0x10000 && (check == 0xFFFF - Folded(sum) || (check == 0xFFFF && Folded(sum) == 0xFFFF))
  }

  /** Bytes `from` to `from + n` of a packet, with a check word at `i` among them: storing the
      check word makes them verify, together with a pseudo sum `p`. */
  lemma CheckStored(
      was: seq<Byte>, now: seq<Byte>, from: nat, n: nat, i: nat, p: nat, sum: nat, check: nat, big: bool)
    requires from + n <= |was| && i % 2 == 0 && i + 1 < n && check < 0x10000
    requires now == Stored(Stored(was, from + i, 0, big), from + i, check, big)
    requires sum == p + Sum(Stored(was[from..from + n], i, 0, big), big) && Settles(check, sum)
    ensures OnlyWordChanged(was, now, from + i)
    ensures Folded(p + Sum(now[from..from + n], big)) == 0xFFFF
  {
    assert now[from..from + n] == Stored(was[from..from + n], i, check, big);
    ComplementVerifies(was[from..from + n], i, p, check, big);
  }

  /** Setting the check word at `i` of a stretch of the packet to 0 and adding up its words. */
  method AddWithoutCheck(p: array<Byte>, from: nat, n: nat, i: nat, start: nat, big: bool) returns (sum: nat)
    requires from + n <= p.Length && n <= 0xFFFF && i + 1 < n && start <= 0x60000
    modifies p
    ensures p[..] == Stored(old(p[..]), from + i, 0, big)
    ensures sum == start + Sum(Stored(old(p[..])[from..from + n], i, 0, big), big) <= MAX_U32
  {
    ghost var was := p[..];
    StoreWord(p, from + i, 0, big);
    assert p[from..from + n] == Stored(was[from..from + n], i, 0, big);
    sum := AddWords(p, from, n, start, big);
  }

  /** The message of `n` bytes at `icmp` verifies, and nothing but its check field changes. */
  method CalculateIcmpChecksum(p: array<Byte>, icmp: nat, n: nat, big: bool)
    requires icmp + n <= p.Length && ICMP_HDR <= n <= 0xFFFF
    modifies p
    ensures Verifies(p[icmp..icmp + n], big)
    ensures OnlyWordChanged(old(p[..]), p[..], icmp + 2)
  {
    ghost var was := p[..];
    var sum := AddWithoutCheck(p, icmp, n, ICMP_CHECK, 0, big);
    ghost var total := sum;
    var check := FoldAndComplement(sum);
    StoreWord(p, icmp + ICMP_CHECK, check, big);
    CheckStored(was, p[..], icmp, n, ICMP_CHECK, 0, total, check, big);
    assert p[icmp..icmp + n] == p[..][icmp..icmp + n];
  }

  /** Folding in two steps, and complementing. */
  method FoldTwice(start: nat) returns (check: nat)
    requires start <= MAX_U32
    ensures check == 0xFFFF - Folded(start) && 0 <= check < 0x10000
  {
    var sum := start;
    TwoStepsFold(sum);
    sum := High(sum) + Low(sum);
    sum := sum + High(sum);
    LowOfComplement(sum);
    check := Low(MAX_U32 - sum);
  }

  /** The 20-byte header at `ip` verifies, and nothing but its check field changes. */
  method CalculateIpChecksum(p: array<Byte>, ip: nat, big: bool)
    requires ip + IP_HDR <= p.Length
    modifies p
    ensures Verifies(p[ip..ip + 20], big)
    ensures OnlyWordChanged(old(p[..]), p[..], ip + 10)
  {
    ghost var was := p[..];
    var sum := AddWithoutCheck(p, ip, IP_HDR, IP_CHECK, 0, big);
    ghost var total := sum;
    var check := FoldTwice(sum);
    StoreWord(p, ip + IP_CHECK, check, big);
    CheckStored(was, p[..], ip, IP_HDR, IP_CHECK, 0, total, check, big);
    assert p[ip..ip + IP_HDR] == p[..][ip..ip + IP_HDR];
  }

  lemma HalvesUnique(high: nat, low: nat)
    requires high < 0x10000 && low < 0x10000
    ensures High(0x10000 * high + low) == high && Low(0x10000 * high + low) == low
  {
  }

  /** A 32-bit address, read in the byte order of the host. */
  function Long(p: seq<Byte>, i: nat, big: bool): (x: nat)
    requires i + 3 < |p|
    ensures High(x) + Low(x) == Word(p[i], p[i + 1], big) + Word(p[i + 2], p[i + 3], big)
  {
    var a, b := Word(p[i], p[i + 1], big), Word(p[i + 2], p[i + 3], big);
    HalvesUnique(a, b);
    HalvesUnique(b, a);
    if big then 0x10000 * a + b else a + 0x10000 * b
  }

  /** The length of a UDP datagram, as it is on the wire: in network order. */
  function UdpLen(p: seq<Byte>, udp: nat): nat
    requires udp + UDP_HDR <= |p|
  {
    Word(p[udp + UDP_LEN], p[udp + UDP_LEN + 1], true)
  }

  /** `Htons` makes of the length read by the machine the one the packet holds. */
  lemma LengthIsRead(p: seq<Byte>, udp: nat, big: bool)
    requires udp + UDP_HDR <= |p|
    ensures Htons(Word(p[udp + UDP_LEN], p[udp + UDP_LEN + 1], big), big) == UdpLen(p, udp)
  {
  }

  /** The pseudo header of RFC 768: the addresses, a zero byte, the protocol and the length. */
  function PseudoHeader(p: seq<Byte>, ip: nat, udp: nat): (h: seq<Byte>)
    requires ip + IP_HDR <= udp && udp + UDP_HDR <= |p|
    ensures |h| == 12
  {
    p[ip + IP_SRC..ip + IP_HDR] + [0, PROTO_UDP as Byte] + p[udp + UDP_LEN..udp + UDP_LEN + 2]
  }

  /** They are the bytes 12 to 19 of the IP header, zero, 17, and the bytes 4 and 5 of the UDP header. */
  lemma PseudoHeaderBytes(p: seq<Byte>, ip: nat, udp: nat)
    requires ip + 20 <= udp && udp + 8 <= |p|
    ensures PseudoHeader(p, ip, udp)[..8] == p[ip + 12..ip + 20]
    ensures PseudoHeader(p, ip, udp)[8..10] == [0, 17] && PseudoHeader(p, ip, udp)[10..] == p[udp + 4..udp + 6]
    ensures UdpLen(p, udp) == 0x100 * p[udp + 4] as nat + p[udp + 5] as nat
  {
  }

  lemma SumOfTwo(d: seq<Byte>, big: bool)
    requires |d| == 2
    ensures Sum(d, big) == Word(d[0], d[1], big)
  {
    assert d[2..] == [];
  }

  lemma SumOfFour(d: seq<Byte>, big: bool)
    requires |d| == 4
    ensures Sum(d, big) == Word(d[0], d[1], big) + Word(d[2], d[3], big)
  {
    SumOfTwo(d[2..], big);
  }

  lemma SumOfEight(d: seq<Byte>, big: bool)
    requires |d| == 8
    ensures Sum(d, big) == Word(d[0], d[1], big) + Word(d[2], d[3], big) + Word(d[4], d[5], big) + Word(d[6], d[7], big)
  {
    SumOfFour(d[4..], big);
    assert d[2..][2..] == d[4..];
  }

  lemma ProtocolWord(big: bool)
    ensures Htons(PROTO_UDP, big) == Word(0, PROTO_UDP as Byte, big)
  {
  }

  lemma SumOfThree(a: seq<Byte>, b: seq<Byte>, c: seq<Byte>, big: bool)
    requires |a| == 8 && |b| == 2
    ensures Sum(a + b + c, big) == Sum(a, big) + Sum(b, big) + Sum(c, big)
  {
    SumConcat(a + b, c, big);
    SumConcat(a, b, big);
  }

  lemma PseudoSum(p: seq<Byte>, ip: nat, udp: nat, big: bool)
    requires ip + IP_HDR <= udp && udp + UDP_HDR <= |p|
    ensures
      var src, dst := Long(p, ip + IP_SRC, big), Long(p, ip + IP_DST, big);
      High(src) + Low(src) + High(dst) + Low(dst) + Htons(PROTO_UDP, big)
        + Word(p[udp + UDP_LEN], p[udp + UDP_LEN + 1], big)
      == Sum(PseudoHeader(p, ip, udp), big)
  {
    var a, b, c := p[ip + IP_SRC..ip + IP_HDR], [0, PROTO_UDP as Byte], p[udp + UDP_LEN..udp + UDP_LEN + 2];
    ProtocolWord(big);
    SumOfThree(a, b, c, big);
    SumOfEight(a, big);
    SumOfTwo(b, big);
    SumOfTwo(c, big);
  }

  /** Changing the check field changes neither the pseudo header nor the length. */
  lemma PseudoHeaderStays(p: seq<Byte>, q: seq<Byte>, ip: nat, udp: nat)
    requires ip + IP_HDR <= udp && udp + UDP_HDR <= |p| && OnlyWordChanged(p, q, udp + UDP_CHECK)
    ensures PseudoHeader(q, ip, udp) == PseudoHeader(p, ip, udp) && UdpLen(q, udp) == UdpLen(p, udp)
  {
    SameInFront(p, q, udp + UDP_CHECK, ip + IP_SRC, ip + IP_HDR);
    SameInFront(p, q, udp + UDP_CHECK, udp + UDP_LEN, udp + UDP_LEN + 2);
    assert q[udp + UDP_LEN..udp + UDP_LEN + 2][0] == q[udp + UDP_LEN];
    assert q[udp + UDP_LEN..udp + UDP_LEN + 2][1] == q[udp + UDP_LEN + 1];
  }

  lemma SameInFront(p: seq<Byte>, q: seq<Byte>, end: nat, i: nat, j: nat)
    requires i <= j <= end <= |p| && |q| == |p| && p[..end] == q[..end]
    ensures p[i..j] == q[i..j]
  {
    forall k | i <= k < j ensures p[k] == q[k] {
      assert p[k] == p[..end][k] == q[..end][k];
    }
  }

  /** What a receiver of a datagram checks. */
  predicate UdpVerifies(p: seq<Byte>, ip: nat, udp: nat, big: bool)
    requires ip + IP_HDR <= udp && udp + UDP_HDR <= |p|
  {
    var n := UdpLen(p, udp);
    udp + n <= |p| && Verifies(PseudoHeader(p, ip, udp) + p[udp..udp + n], big)
  }

  lemma UdpVerifiesWhen(p: seq<Byte>, ip: nat, udp: nat, h: seq<Byte>, datagram: seq<Byte>, big: bool)
    requires ip + IP_HDR <= udp && udp + UDP_HDR <= |p| && udp + UdpLen(p, udp) <= |p|
    requires h == PseudoHeader(p, ip, udp) && datagram == p[udp..udp + UdpLen(p, udp)]
    requires Folded(Sum(h, big) + Sum(datagram, big)) == 0xFFFF
    ensures UdpVerifies(p, ip, udp, big)
  {
    SumConcat(h, datagram, big);
  }

  method AddPseudoHeader(p: array<Byte>, ip: nat, udp: nat, big: bool) returns (sum: nat)
    requires ip + IP_HDR <= udp && udp + UDP_HDR <= p.Length
    ensures sum == Sum(PseudoHeader(p[..], ip, udp), big) <= 0x60000
  {
    var src, dst := Long(p[..], ip + IP_SRC, big), Long(p[..], ip + IP_DST, big);
    sum := High(src) + Low(src);
    sum := sum + High(dst) + Low(dst);
    sum := sum + Htons(PROTO_UDP, big);
    sum := sum + Word(p[udp + UDP_LEN], p[udp + UDP_LEN + 1], big);
    PseudoSum(p[..], ip, udp, big);
  }

  /** The sum of a datagram of `n` bytes and its pseudo header, without the check field. */
  function UdpTotal(p: seq<Byte>, ip: nat, udp: nat, n: nat, big: bool): nat
    requires ip + IP_HDR <= udp && UDP_HDR <= n && udp + n <= |p|
  {
    Sum(PseudoHeader(p, ip, udp), big) + Sum(Stored(p[udp..udp + n], UDP_CHECK, 0, big), big)
  }

  /** A packet with the check word of a datagram of `n` bytes stored in it. */
  predicate Checked(was: seq<Byte>, now: seq<Byte>, ip: nat, udp: nat, n: nat, check: nat, big: bool) {
    && ip + IP_HDR <= udp && UDP_HDR <= n && udp + n <= |was| && n == UdpLen(was, udp)
    && Settles(check, UdpTotal(was, ip, udp, n, big))
    && now == Stored(Stored(was, udp + UDP_CHECK, 0, big), udp + UDP_CHECK, check, big)
  }

  lemma CheckedStays(was: seq<Byte>, now: seq<Byte>, ip: nat, udp: nat, n: nat, check: nat, big: bool)
    requires Checked(was, now, ip, udp, n, check, big)
    ensures OnlyWordChanged(was, now, udp + UDP_CHECK)
    ensures UdpLen(now, udp) == n && PseudoHeader(now, ip, udp) == PseudoHeader(was, ip, udp)
    ensures Word(now[udp + UDP_CHECK], now[udp + UDP_CHECK + 1], big) == check
  {
    PseudoHeaderStays(was, now, ip, udp);
  }

  lemma CheckedAddsUp(was: seq<Byte>, now: seq<Byte>, ip: nat, udp: nat, n: nat, h: nat, check: nat, big: bool)
    requires Checked(was, now, ip, udp, n, check, big) && h == Sum(PseudoHeader(was, ip, udp), big)
    ensures |now| == |was| && Folded(h + Sum(now[udp..udp + n], big)) == 0xFFFF
  {
    CheckStored(was, now, udp, n, UDP_CHECK, h, UdpTotal(was, ip, udp, n, big), check, big);
  }

  lemma CheckedVerifies(was: seq<Byte>, now: seq<Byte>, ip: nat, udp: nat, n: nat, check: nat, big: bool)
    requires Checked(was, now, ip, udp, n, check, big)
    ensures |now| == |was| && UdpVerifies(now, ip, udp, big)
  {
    CheckedStays(was, now, ip, udp, n, check, big);
    CheckedAddsUp(was, now, ip, udp, n, Sum(PseudoHeader(was, ip, udp), big), check, big);
    UdpVerifiesWhen(now, ip, udp, PseudoHeader(was, ip, udp), now[udp..udp + n], big);
  }

  lemma UdpIsDone(was: seq<Byte>, now: seq<Byte>, ip: nat, udp: nat, n: nat, check: nat, big: bool)
    requires Checked(was, now, ip, udp, n, check, big) && check != 0
    ensures |now| == |was| && UdpLen(now, udp) == n && UdpVerifies(now, ip, udp, big)
    ensures OnlyWordChanged(was, now, udp + 6) && Word(now[udp + 6], now[udp + 7], big) != 0
  {
    CheckedStays(was, now, ip, udp, n, check, big);
    CheckedVerifies(was, now, ip, udp, n, check, big);
  }

  /** That sum, clearing the check field. */
  method UdpSum(p: array<Byte>, ip: nat, udp: nat, n: nat, big: bool) returns (sum: nat)
    requires ip + IP_HDR <= udp && UDP_HDR <= n <= 0xFFFF && udp + n <= p.Length
    modifies p
    ensures p[..] == Stored(old(p[..]), udp + UDP_CHECK, 0, big)
    ensures sum == UdpTotal(old(p[..]), ip, udp, n, big) <= MAX_U32
  {
    sum := AddPseudoHeader(p, ip, udp, big);
    sum := AddWithoutCheck(p, udp, n, UDP_CHECK, sum, big);
  }

  /** Storing the check word, which is never 0. */
  method UdpStore(p: array<Byte>, udp: nat, sum: nat, big: bool) returns (check: nat)
    requires udp + UDP_HDR <= p.Length && sum <= MAX_U32
    modifies p
    ensures check != 0 && Settles(check, sum)
    ensures p[..] == Stored(old(p[..]), udp + UDP_CHECK, check, big)
  {
    check := FoldAndComplement(sum);
    check := if check == 0 then 0xFFFF else check;
    StoreWord(p, udp + UDP_CHECK, check, big);
  }

  /** The datagram at `udp` verifies together with its pseudo header, its check field is not 0
      (which would say that there is no checksum), and nothing else changes. */
  method CalculateUdpChecksum(p: array<Byte>, ip: nat, udp: nat, big: bool)
    requires ip + IP_HDR <= udp && udp + UDP_HDR <= p.Length
    requires UDP_HDR <= UdpLen(p[..], udp) <= p.Length - udp
    modifies p
    ensures UdpLen(p[..], udp) == old(UdpLen(p[..], udp))
    ensures UdpVerifies(p[..], ip, udp, big)
    ensures OnlyWordChanged(old(p[..]), p[..], udp + 6)
    ensures Word(p[udp + 6], p[udp + 7], big) != 0
  {
    ghost var was := p[..];
    var udpLen := Htons(Word(p[udp + UDP_LEN], p[udp + UDP_LEN + 1], big), big);
    LengthIsRead(was, udp, big);
    var sum := UdpSum(p, ip, udp, udpLen, big);
    var check := UdpStore(p, udp, sum, big);
    ghost var now := p[..];
    assert Checked(was, now, ip, udp, udpLen, check, big);
    UdpIsDone(was, now, ip, udp, udpLen, check, big);
  }
}
