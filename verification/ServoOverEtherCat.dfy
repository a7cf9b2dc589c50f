/** Parameter access through the mailbox (Servodrive profile over EtherCAT): values that do not
    fit into one mailbox are cut into fragments, all but the last of them marked incomplete. */
module ServoOverEtherCat {
  import opened Bytes
  import opened Division
  import opened Mailboxes

  const SOE_HDR := 4
  const FIELD := 0x10000   // the field that holds the parameter number or the fragments left has 16 bits

  /** The parts of a fragment that matter; its mailbox length is 4 plus the length of the data. */
  datatype Fragment = Fragment(incomplete: bool, field: nat, elements: Byte, data: seq<Byte>)

  /** What happens to a fragment of a write: it cannot be sent, it is answered, or it is not. */
  datatype Turn = NoBuffer | Answered | Silent

  datatype Status = Ok | OutOfBuffers | Timeout

  /** How much data fits into a fragment. */
  function DataLen(mailbox: nat): nat
    requires mailbox >= MBX_HDR + SOE_HDR
  {
    mailbox - MBX_HDR - SOE_HDR
  }

  // ---------------------------------------------------------------------------------------
  // Writing
  // ---------------------------------------------------------------------------------------

  function FragmentAt(value: seq<Byte>, max: nat, from: nat, idn: nat, elements: Byte): Fragment
    requires from <= |value| && max > 0
  {
    var n := Min(|value| - from, max);
    var left := |value| - from - n;
    Fragment(left != 0, if left != 0 then (left / max + 1) % FIELD else idn, elements, value[from..from + n])
  }

  /** The fragments of a value from `from` on. */
  function Fragments(value: seq<Byte>, max: nat, from: nat, idn: nat, elements: Byte): seq<Fragment>
    requires from <= |value| && max > 0
    decreases |value| - from
  {
    if from == |value| then []
    else
      [FragmentAt(value, max, from, idn, elements)]
      + Fragments(value, max, Min(from + max, |value|), idn, elements)
  }

  /** What happens to fragment number `i`; nobody answers when nothing is given. */
  function At(env: seq<Turn>, i: nat): Turn {
    if i < |env| then env[i] else Silent
  }

  /** How many of `n` fragments go out before the buffers run out. */
  function Sent(env: seq<Turn>, n: nat, i: nat): (k: nat)
    requires i <= n
    ensures i <= k <= n
    decreases n - i
  {
    if i < n && At(env, i) != NoBuffer then Sent(env, n, i + 1) else i
  }

  /** One of the first `n` fragments was answered. */
  predicate AnyAnswered(env: seq<Turn>, n: nat) {
    n > 0 && (At(env, n - 1) == Answered || AnyAnswered(env, n - 1))
  }

  function WriteStatus(env: seq<Turn>, n: nat): Status {
    if Sent(env, n, 0) < n then OutOfBuffers else if AnyAnswered(env, n) then Ok else Timeout
  }

  /** The loop of a write has come to `from`, with a status so far. */
  predicate Underway(
      all: seq<Fragment>, sent: seq<Fragment>, value: seq<Byte>, max: nat, from: nat, idn: nat, elements: Byte,
      env: seq<Turn>, ret: Status)
    requires max > 0
  {
    && from <= |value| && |sent| <= |all|
    && all == sent + Fragments(value, max, from, idn, elements)
    && Sent(env, |all|, 0) == Sent(env, |all|, |sent|)
    && ret == if AnyAnswered(env, |sent|) then Ok else Timeout
  }

  lemma NextFragment(
      all: seq<Fragment>, sent: seq<Fragment>, value: seq<Byte>, max: nat, from: nat, idn: nat, elements: Byte,
      f: Fragment)
    requires from < |value| && max > 0
    requires all == sent + Fragments(value, max, from, idn, elements)
    requires f == FragmentAt(value, max, from, idn, elements)
    ensures |sent| < |all| && all[..|sent|] == sent
    ensures all == (sent + [f]) + Fragments(value, max, Min(from + max, |value|), idn, elements)
  {
    var next := Fragments(value, max, Min(from + max, |value|), idn, elements);
    assert Fragments(value, max, from, idn, elements) == [f] + next;
    InTheMiddle(sent, f, next);
  }

  lemma OneMoreSent(env: seq<Turn>, n: nat, i: nat, k: nat)
    requires i < n && k == i + 1 && At(env, i) != NoBuffer
    ensures Sent(env, n, i) == Sent(env, n, k)
    ensures AnyAnswered(env, k) <==> At(env, i) == Answered || AnyAnswered(env, i)
  {
  }

  /** A fragment goes out. */
  lemma FragmentOut(
      all: seq<Fragment>, sent: seq<Fragment>, value: seq<Byte>, max: nat, from: nat, idn: nat, elements: Byte,
      env: seq<Turn>, ret: Status, f: Fragment)
    requires max > 0 && Underway(all, sent, value, max, from, idn, elements, env, ret) && from < |value|
    requires f == FragmentAt(value, max, from, idn, elements) && At(env, |sent|) != NoBuffer
    ensures Underway(
      all, sent + [f], value, max, Min(from + max, |value|), idn, elements, env,
      if At(env, |sent|) == Answered then Ok else ret)
  {
    NextFragment(all, sent, value, max, from, idn, elements, f);
    OneMoreSent(env, |all|, |sent|, |sent + [f]|);
  }

  /** There is no buffer for a fragment. */
  lemma FragmentStays(
      all: seq<Fragment>, sent: seq<Fragment>, value: seq<Byte>, max: nat, from: nat, idn: nat, elements: Byte,
      env: seq<Turn>, ret: Status)
    requires max > 0 && Underway(all, sent, value, max, from, idn, elements, env, ret) && from < |value|
    requires At(env, |sent|) == NoBuffer
    ensures WriteStatus(env, |all|) == OutOfBuffers && sent == all[..Sent(env, |all|, 0)]
  {
    NextFragment(all, sent, value, max, from, idn, elements, FragmentAt(value, max, from, idn, elements));
  }

  /** What the loop of a write comes to from `from` on. */
  function Write(
      value: seq<Byte>, max: nat, from: nat, idn: nat, elements: Byte, env: seq<Turn>, sent: seq<Fragment>, ret: Status)
    : (Status, seq<Fragment>)
    requires from <= |value| && max > 0
    decreases |value| - from
  {
    if from == |value| then (ret, sent)
    else if At(env, |sent|) == NoBuffer then (OutOfBuffers, sent)
    else
      Write(
        value, max, Min(from + max, |value|), idn, elements, env, sent + [FragmentAt(value, max, from, idn, elements)],
        if At(env, |sent|) == Answered then Ok else ret)
  }

  /** It sends the fragments in order until there is no buffer. */
  lemma {:induction false} WriteSendsInOrder(
      all: seq<Fragment>, sent: seq<Fragment>, value: seq<Byte>, max: nat, from: nat, idn: nat, elements: Byte,
      env: seq<Turn>, ret: Status)
    requires max > 0 && Underway(all, sent, value, max, from, idn, elements, env, ret)
    ensures Write(value, max, from, idn, elements, env, sent, ret)
      == (WriteStatus(env, |all|), all[..Sent(env, |all|, 0)])
    decreases |value| - from
  {
    if from == |value| {
      assert all == sent;
    } else if At(env, |sent|) == NoBuffer {
      FragmentStays(all, sent, value, max, from, idn, elements, env, ret);
    } else {
      var f := FragmentAt(value, max, from, idn, elements);
      FragmentOut(all, sent, value, max, from, idn, elements, env, ret, f);
      WriteSendsInOrder(
        all, sent + [f], value, max, Min(from + max, |value|), idn, elements, env,
        if At(env, |sent|) == Answered then Ok else ret);
    }
  }

  /** The fragment loop of a write: only a lack of buffers stops it early. */
  method WriteFragments(value: seq<Byte>, mailbox: nat, idn: nat, elements: Byte, env: seq<Turn>)
    returns (ret: Status, sent: seq<Fragment>)
    requires mailbox > MBX_HDR + SOE_HDR
    ensures
      var all := Fragments(value, DataLen(mailbox), 0, idn, elements);
      && ret == WriteStatus(env, |all|)
      && sent == all[..Sent(env, |all|, 0)]
  {
    var mbxLen := DataLen(mailbox);
    var from, leftLen: nat := 0, |value|;
    sent, ret := [], Timeout;
    WriteSendsInOrder(Fragments(value, mbxLen, 0, idn, elements), [], value, mbxLen, 0, idn, elements, env, Timeout);
    while leftLen != 0
      invariant from + leftLen == |value|
      invariant Write(value, mbxLen, 0, idn, elements, env, [], Timeout)
        == Write(value, mbxLen, from, idn, elements, env, sent, ret)
    {
      var sendLen := Min(leftLen, mbxLen);
      var left := leftLen - sendLen;
      var field := if left != 0 then (left / mbxLen + 1) % FIELD else idn;
      var turn := At(env, |sent|);
      if turn == NoBuffer {
        return OutOfBuffers, sent;
      }
      sent := sent + [Fragment(left != 0, field, elements, value[from..from + sendLen])];
      from, leftLen := from + sendLen, left;
      if turn == Answered {
        ret := Ok;
      }
    }
  }

  // ---------------------------------------------------------------------------------------
  // Reading
  // ---------------------------------------------------------------------------------------

  /** What a read leaves behind: the bytes written from the start of the caller's buffer on, the
      length it reports, the elements, and the status. */
  datatype Reading = Reading(written: seq<Byte>, len: nat, elements: Byte, status: Status)

  /** Taking in fragments until one that is not marked incomplete; `left` is the room left. */
  function Collect(fs: seq<Fragment>, left: int, r: Reading): Reading {
    if fs == [] then r
    else
      var f := fs[0];
      var more := if left > 0 then r.(written := r.written + f.data[..Min(|f.data|, left)]) else r;
      if !f.incomplete then more.(status := Ok)
      else Collect(fs[1..], if left > 0 then left - |f.data| else left, more)
  }

  /** The length that is reported when the caller gave none. */
  function Reported(f: Fragment): nat {
    if f.field == 0 then |f.data| else (f.field + 1) * |f.data|
  }

  /** A read into a buffer of `len` bytes; 0 asks for the length as well. */
  function Read(fs: seq<Fragment>, len: nat, elements: Byte): Reading {
    if fs == [] then Reading([], len, elements, Timeout)
    else if len > 0 then Collect(fs, len, Reading([], len, fs[0].elements, Timeout))
    else
      var l := Reported(fs[0]);
      Collect(fs, if fs[0].field != 0 then l else 0, Reading([], l, fs[0].elements, Timeout))
  }

  method ReadFragments(fs: seq<Fragment>, len: nat, elements: Byte) returns (r: Reading)
    ensures r == Read(fs, len, elements)
  {
    r := Reading([], len, elements, Timeout);
    var leftLen: int := len;
    var firstFragment := true;
    var i := 0;
    while i < |fs|
      invariant 0 <= i <= |fs| && firstFragment == (i == 0)
      invariant i == 0 ==> leftLen == len && r == Reading([], len, elements, Timeout)
      invariant i > 0 ==> Read(fs, len, elements) == Collect(fs[i..], leftLen, r)
    {
      var f := fs[i];
      ghost var whole := fs[i..];
      assert whole[0] == f && whole[1..] == fs[i + 1..];
      if firstFragment {
        assert whole == fs;
        r := r.(elements := f.elements);
        if leftLen == 0 {
          r := r.(len := |f.data|);
          if f.field != 0 {
            r := r.(len := (f.field + 1) * |f.data|);
            leftLen := r.len;
          }
        }
        firstFragment := false;
      }
      if leftLen > 0 {
        r := r.(written := r.written + f.data[..Min(|f.data|, leftLen)]);
        leftLen := leftLen - |f.data|;
      }
      if !f.incomplete {
        r := r.(status := Ok);
        return;
      }
      i := i + 1;
    }
  }

  // ---------------------------------------------------------------------------------------
  // Round trip
  // ---------------------------------------------------------------------------------------

  lemma CollectOne(
      value: seq<Byte>, max: nat, from: nat, idn: nat, elements: Byte, more: seq<Fragment>, left: int, r: Reading)
    requires from < |value| && max > 0
    ensures
      var f := FragmentAt(value, max, from, idn, elements);
      var w := r.(written := if left > 0 then r.written + f.data[..Min(|f.data|, left)] else r.written);
      Collect(Fragments(value, max, from, idn, elements) + more, left, r)
      == if from + max >= |value| then w.(status := Ok)
         else Collect(Fragments(value, max, from + max, idn, elements) + more, if left > 0 then left - max else left, w)
  {
    var f := FragmentAt(value, max, from, idn, elements);
    var next := Fragments(value, max, Min(from + max, |value|), idn, elements);
    InFront(f, next, more);
    assert [] + more == more;
  }

  /** What has been written once the fragment at `from` is taken in. */
  lemma WrittenNext(value: seq<Byte>, max: nat, from: nat, len: nat, left: int, written: seq<Byte>, w: seq<Byte>)
    requires from < |value| && max > 0 && written == value[..Min(from, len)]
    requires if from < len then left == len - from else left <= 0
    requires
      var n := Min(|value| - from, max);
      w == if left > 0 then written + value[from..from + n][..Min(n, left)] else written
    ensures w == value[..Min(Min(from + max, |value|), len)]
  {
    if from < len {
      var all := Min(|value| - from, max);
      var n := Min(all, left);
      assert from + n == Min(Min(from + max, |value|), len);
      assert value[from..from + all][..n] == value[from..from + n];
      assert value[..from] + value[from..from + n] == value[..from + n];
    }
  }

  /** Collecting the fragments of a value from `from` on, with room for `len` bytes in all. */
  lemma {:induction false} CollectFragments(
      value: seq<Byte>, max: nat, from: nat, idn: nat, elements: Byte, more: seq<Fragment>, len: nat,
      left: int, r: Reading)
    requires from < |value| && max > 0
    requires r.written == value[..Min(from, len)]
    requires if from < len then left == len - from else left <= 0
    ensures Collect(Fragments(value, max, from, idn, elements) + more, left, r)
      == r.(written := value[..Min(len, |value|)]).(status := Ok)
    decreases |value| - from
  {
    CollectOne(value, max, from, idn, elements, more, left, r);
    var n := Min(|value| - from, max);
    var w := if left > 0 then r.written + value[from..from + n][..Min(n, left)] else r.written;
    WrittenNext(value, max, from, len, left, r.written, w);
    if from + max < |value| {
      CollectFragments(
        value, max, from + max, idn, elements, more, len, if left > 0 then left - max else left, r.(written := w));
    }
  }

  lemma FirstFragment(value: seq<Byte>, max: nat, idn: nat, elements: Byte, more: seq<Fragment>)
    requires |value| > 0 && max > 0
    ensures
      var fs := Fragments(value, max, 0, idn, elements) + more;
      |fs| > 0 && fs[0] == FragmentAt(value, max, 0, idn, elements)
  {
  }

  /** Main theorem: into a buffer of `len` bytes, whatever comes in behind the last fragment, a
      read of the fragments of a nonempty value puts the value, cut off behind `len` bytes. */
  lemma ValueRoundTrip(value: seq<Byte>, mailbox: nat, idn: nat, elements: Byte, more: seq<Fragment>, len: nat, e: Byte)
    requires mailbox > MBX_HDR + SOE_HDR && |value| > 0 && len > 0
    ensures Read(Fragments(value, DataLen(mailbox), 0, idn, elements) + more, len, e)
      == Reading(value[..Min(len, |value|)], len, elements, Ok)
  {
    FirstFragment(value, DataLen(mailbox), idn, elements, more);
    CollectFragments(value, DataLen(mailbox), 0, idn, elements, more, len, len, Reading([], len, elements, Timeout));
  }

  lemma FieldOfFirst(value: seq<Byte>, max: nat, idn: nat, elements: Byte)
    requires |value| > max > 0
    ensures
      var f := FragmentAt(value, max, 0, idn, elements);
      f.field == |value| / max % FIELD && |f.data| == max
  {
    var q, m := (|value| - max) / max, (|value| - max) % max;
    assert |value| == (q + 1) * max + m;
    DivModUnique(q + 1, m, max);
  }

  /** When the caller gives no length, a value of several fragments is read completely exactly
      when the number of whole fragments in it fits into the field, and the length reported then
      is too big. */
  lemma LongValueWithoutLength(
      value: seq<Byte>, mailbox: nat, idn: nat, elements: Byte, more: seq<Fragment>, e: Byte)
    requires mailbox > MBX_HDR + SOE_HDR && |value| > DataLen(mailbox)
    ensures
      var max := DataLen(mailbox);
      var r := Read(Fragments(value, max, 0, idn, elements) + more, 0, e);
      && r.status == Ok
      && (r.written == value <==> |value| / max < FIELD)
      && (|value| / max < FIELD ==> r.len == (|value| / max + 1) * max > |value|)
  {
    var max := DataLen(mailbox);
    LongRead(value, max, idn, elements, more, e, |value| / max, |value| / max % FIELD);
  }

  lemma LongRead(
      value: seq<Byte>, max: nat, idn: nat, elements: Byte, more: seq<Fragment>, e: Byte, q: nat, k: nat)
    requires |value| > max > 0 && q == |value| / max && k == q % FIELD
    ensures
      var r := Read(Fragments(value, max, 0, idn, elements) + more, 0, e);
      && r.status == Ok && (r.written == value <==> q < FIELD)
      && (q < FIELD ==> r.len == (q + 1) * max > |value|)
  {
    FieldOfFirst(value, max, idn, elements);
    var len := if k != 0 then (k + 1) * max else max;
    var room := if k != 0 then len else 0;
    ReadWithoutLength(value, max, idn, elements, more, e, len, room);
    RoomForAll(|value|, max, q, k, room);
  }

  /** A read without a length goes by what the first fragment says. */
  lemma ReadWithoutLength(
      value: seq<Byte>, max: nat, idn: nat, elements: Byte, more: seq<Fragment>, e: Byte, len: nat, room: nat)
    requires |value| > 0 && max > 0
    requires
      var f := FragmentAt(value, max, 0, idn, elements);
      len == Reported(f) && room == if f.field != 0 then len else 0
    ensures
      var r := Read(Fragments(value, max, 0, idn, elements) + more, 0, e);
      r.status == Ok && r.len == len && (r.written == value <==> room >= |value|)
  {
    FirstFragment(value, max, idn, elements, more);
    CollectFragments(value, max, 0, idn, elements, more, room, room, Reading([], len, elements, Timeout));
    assert room < |value| ==> |value[..Min(room, |value|)]| < |value|;
    assert value[..|value|] == value;
  }

  /** There is room for all `n` bytes exactly when the field holds the number of whole fragments. */
  lemma RoomForAll(n: nat, max: nat, q: nat, k: nat, room: nat)
    requires n > max > 0 && q == n / max && k == q % FIELD && room == if k != 0 then (k + 1) * max else 0
    ensures room >= n <==> q < FIELD
    ensures q < FIELD ==> room == (q + 1) * max > n
  {
    QuotientIsPositive(n, max);
    assert n == q * max + n % max && (q + 1) * max == q * max + max;
    if q >= FIELD {
      TooShort(q, k, max);
    }
  }

  lemma QuotientIsPositive(n: nat, max: nat)
    requires n > max > 0
    ensures n / max >= 1
  {
    var q, m := (n - max) / max, (n - max) % max;
    assert n == (q + 1) * max + m;
    DivModUnique(q + 1, m, max);
  }

  lemma TooShort(q: nat, k: nat, max: nat)
    requires q >= FIELD && k == q % FIELD && max > 0
    ensures k != 0 ==> (k + 1) * max < q * max
  {
    if k != 0 {
      assert q >= FIELD + 1 && k + 1 <= FIELD;
      MulGrows(q - (k + 1), max);
      assert (q - (k + 1)) * max == q * max - (k + 1) * max;
    }
  }

  /** A value of one fragment carries its parameter number where the reader expects the fragments
      left: the value is stored exactly when that number is not 0, and the length is right exactly
      when it is. */
  lemma ShortValueWithoutLength(
      value: seq<Byte>, mailbox: nat, idn: nat, elements: Byte, more: seq<Fragment>, e: Byte)
    requires mailbox > MBX_HDR + SOE_HDR && 0 < |value| <= DataLen(mailbox)
    ensures
      var r := Read(Fragments(value, DataLen(mailbox), 0, idn, elements) + more, 0, e);
      && r.status == Ok
      && (r.written == value <==> idn != 0)
      && (r.len == |value| <==> idn == 0)
      && r.len == (idn + 1) * |value|
  {
    if idn != 0 {
      MulGrows(idn, |value|);
      assert (idn + 1) * |value| == idn * |value| + |value|;
    }
    var len := (idn + 1) * |value|;
    ReadWithoutLength(value, DataLen(mailbox), idn, elements, more, e, len, if idn != 0 then len else 0);
  }

  /** For instance, a value of 65536 full fragments: nothing in the field says how long it is. */
  lemma ALongValueIsLost(value: seq<Byte>, mailbox: nat, idn: nat, elements: Byte, e: Byte)
    requires mailbox == MBX_HDR + SOE_HDR + 1 && |value| == FIELD
    ensures Read(Fragments(value, DataLen(mailbox), 0, idn, elements), 0, e) == Reading([], 1, elements, Ok)
  {
    var fs := Fragments(value, 1, 0, idn, elements);
    assert fs + [] == fs;
    FieldOfFirst(value, 1, idn, elements);
    FirstFragment(value, 1, idn, elements, []);
    CollectFragments(value, 1, 0, idn, elements, [], 0, 0, Reading([], 1, elements, Timeout));
  }

  /** And a value of one fragment: not stored at all, or stored with a length twice its own. */
  lemma AShortValueIsWrong(value: seq<Byte>, mailbox: nat, elements: Byte, e: Byte)
    requires mailbox > MBX_HDR + SOE_HDR && 0 < |value| <= DataLen(mailbox)
    ensures Read(Fragments(value, DataLen(mailbox), 0, 0, elements), 0, e) == Reading([], |value|, elements, Ok)
    ensures Read(Fragments(value, DataLen(mailbox), 0, 1, elements), 0, e) == Reading(value, 2 * |value|, elements, Ok)
  {
    var max := DataLen(mailbox);
    forall idn: nat ensures Fragments(value, max, 0, idn, elements) == [FragmentAt(value, max, 0, idn, elements)] {
      assert Fragments(value, max, |value|, idn, elements) == [];
    }
  }

  lemma {:induction false} SentAll(env: seq<Turn>, n: nat, i: nat)
    requires i <= n
    ensures Sent(env, n, i) == n <==> forall j :: i <= j < n ==> At(env, j) != NoBuffer
    decreases n - i
  {
    if i < n && At(env, i) != NoBuffer {
      SentAll(env, n, i + 1);
    }
  }

  lemma {:induction false} WhenAnyAnswered(env: seq<Turn>, n: nat)
    ensures AnyAnswered(env, n) <==> exists j :: 0 <= j < n && At(env, j) == Answered
  {
    if n > 0 {
      WhenAnyAnswered(env, n - 1);
    }
  }

  /** A write reports success exactly when every fragment went out and at least one of them was
      answered: fragments that nobody answered are passed over. */
  lemma WhenWriteSucceeds(env: seq<Turn>, n: nat)
    ensures WriteStatus(env, n) == Ok <==>
      && (forall j :: 0 <= j < n && j < |env| ==> env[j] != NoBuffer)
      && (exists j :: 0 <= j < n && j < |env| && env[j] == Answered)
  {
    assert forall j :: 0 <= j < |env| ==> At(env, j) == env[j];
    SentAll(env, n, 0);
    WhenAnyAnswered(env, n);
  }

  // ---------------------------------------------------------------------------------------
  // What gets into the mailbox
  // ---------------------------------------------------------------------------------------

  function Bodies(fs: seq<Fragment>): (bodies: seq<seq<Byte>>)
    ensures |bodies| == |fs| && forall i :: 0 <= i < |fs| ==> bodies[i] == fs[i].data
  {
    seq(|fs|, i requires 0 <= i < |fs| => fs[i].data)
  }

  lemma {:induction false} FragmentsHoldValue(value: seq<Byte>, max: nat, from: nat, idn: nat, elements: Byte)
    requires from <= |value| && max > 0
    ensures Flatten(Bodies(Fragments(value, max, from, idn, elements))) == value[from..]
    decreases |value| - from
  {
    if from < |value| {
      var f, next := FragmentAt(value, max, from, idn, elements), Min(from + max, |value|);
      var bodies := Bodies(Fragments(value, max, from, idn, elements));
      assert bodies[0] == f.data && bodies[1..] == Bodies(Fragments(value, max, next, idn, elements));
      FragmentsHoldValue(value, max, next, idn, elements);
      assert value[from..] == f.data + value[next..];
    }
  }

  lemma {:induction false} FragmentsAreBounded(value: seq<Byte>, max: nat, from: nat, idn: nat, elements: Byte, i: nat)
    requires from <= |value| && max > 0 && i < |Fragments(value, max, from, idn, elements)|
    ensures |Fragments(value, max, from, idn, elements)[i].data| <= Min(|value| - from, max)
    decreases i
  {
    if i > 0 {
      FragmentsAreBounded(value, max, Min(from + max, |value|), idn, elements, i - 1);
    }
  }

  /** A value gets into the write mailbox completely if and only if its first fragment fits into a pool
      entry: the fragments are cut to the mailbox, not to the entry. */
  lemma WhenValueArrives(value: seq<Byte>, mailbox: nat, idn: nat, elements: Byte)
    requires mailbox > MBX_HDR + SOE_HDR
    ensures
      var fs := Fragments(value, DataLen(mailbox), 0, idn, elements);
      Flatten(AllArrived(Bodies(fs), MBX_HDR + SOE_HDR, mailbox)) == value
      <==> 10 + Min(|value|, mailbox - 10) <= 1600
  {
    var max := DataLen(mailbox);
    var bodies := Bodies(Fragments(value, max, 0, idn, elements));
    FragmentsHoldValue(value, max, 0, idn, elements);
    assert value[0..] == value;
    if value != [] {
      assert bodies[0] == value[..Min(|value|, max)];
      forall i | 0 <= i < |bodies| ensures |bodies[i]| <= |bodies[0]| {
        FragmentsAreBounded(value, max, 0, idn, elements, i);
      }
      WhenFirstIsLongest(bodies, MBX_HDR + SOE_HDR, mailbox);
    }
  }

  /** For instance, 1591 bytes through a mailbox of 2000. */
  lemma AFragmentTooLong(value: seq<Byte>, idn: nat, elements: Byte)
    requires |value| == 1591
    ensures
      var fs := Fragments(value, DataLen(2000), 0, idn, elements);
      Flatten(AllArrived(Bodies(fs), MBX_HDR + SOE_HDR, 2000)) != value
  {
    WhenValueArrives(value, 2000, idn, elements);
  }

  // ---------------------------------------------------------------------------------------
  // Any fragments
  // ---------------------------------------------------------------------------------------

  /** The fragments up to the first one that is not marked incomplete. */
  function Whole(fs: seq<Fragment>): seq<Fragment> {
    if fs == [] then [] else if !fs[0].incomplete then [fs[0]] else [fs[0]] + Whole(fs[1..])
  }

  predicate AnyComplete(fs: seq<Fragment>) {
    exists i :: 0 <= i < |fs| && !fs[i].incomplete
  }

  lemma BodiesOf(f: Fragment, later: seq<Fragment>)
    ensures Flatten(Bodies([f] + later)) == f.data + Flatten(Bodies(later))
  {
    var bodies := Bodies([f] + later);
    assert bodies[0] == f.data && bodies[1..] == Bodies(later);
  }

  /** Some bytes, cut off behind what there is room for. */
  function CutOff(data: seq<Byte>, left: int): seq<Byte> {
    if left <= 0 then [] else data[..Min(|data|, left)]
  }

  lemma CutOffConcat(a: seq<Byte>, b: seq<Byte>, left: int)
    ensures CutOff(a + b, left) == CutOff(a, left) + CutOff(b, if left > 0 then left - |a| else left)
  {
  }

  /** Their data. */
  function WholeData(fs: seq<Fragment>): seq<Byte> {
    Flatten(Bodies(Whole(fs)))
  }

  lemma WholeDataSplits(fs: seq<Fragment>)
    ensures fs == [] ==> WholeData(fs) == []
    ensures fs != [] ==> WholeData(fs) == fs[0].data + if fs[0].incomplete then WholeData(fs[1..]) else []
    ensures fs != [] ==> (AnyComplete(fs) <==> !fs[0].incomplete || AnyComplete(fs[1..]))
  {
    if fs == [] {
      assert Bodies([]) == [];
    } else {
      assert fs == [fs[0]] + fs[1..];
      var later := if fs[0].incomplete then Whole(fs[1..]) else [];
      assert Whole(fs) == [fs[0]] + later;
      BodiesOf(fs[0], later);
      assert Flatten(Bodies([])) == [];
    }
  }

  lemma {:induction false} CollectCutsOff(fs: seq<Fragment>, left: int, r: Reading)
    requires r.status == Timeout
    ensures
      Collect(fs, left, r) == r.(
        written := r.written + CutOff(WholeData(fs), left), status := if AnyComplete(fs) then Ok else Timeout)
    decreases |fs|
  {
    WholeDataSplits(fs);
    if fs == [] {
      assert r.written + [] == r.written;
    } else {
      var f, next := fs[0], if left > 0 then left - |fs[0].data| else left;
      var later := if f.incomplete then WholeData(fs[1..]) else [];
      CutOffConcat(f.data, later, left);
      Associates(r.written, CutOff(f.data, left), CutOff(later, next));
      assert left <= 0 ==> r.written + [] == r.written;
      if f.incomplete {
        CollectCutsOff(fs[1..], next, r.(written := r.written + CutOff(f.data, left)));
      } else {
        assert r.written + CutOff(f.data, left) + [] == r.written + CutOff(f.data, left);
      }
    }
  }

  /** Whatever fragments come in: a read with a length takes the data up to the first fragment that is
      not incomplete, cut off at that length, and succeeds exactly when there is such a fragment. */
  lemma WhatIsRead(fs: seq<Fragment>, len: nat, elements: Byte)
    requires len > 0
    ensures
      var r, data := Read(fs, len, elements), WholeData(fs);
      && r.written == data[..Min(|data|, len)] && r.len == len
      && r.status == (if AnyComplete(fs) then Ok else Timeout)
      && r.elements == (if fs == [] then elements else fs[0].elements)
  {
    if fs == [] {
      WholeDataSplits(fs);
    } else {
      CollectCutsOff(fs, len, Reading([], len, fs[0].elements, Timeout));
      var data := WholeData(fs);
      assert [] + CutOff(data, len) == data[..Min(|data|, len)];
    }
  }

  /** The fragments of a value: all but the last one are marked incomplete and say how many whole
      fragments are left, the last one has the parameter number. */
  lemma {:induction false} FragmentsCountDown(
      value: seq<Byte>, max: nat, from: nat, idn: nat, elements: Byte, i: nat, left: nat)
    requires from <= |value| && max > 0 && i < |Fragments(value, max, from, idn, elements)|
    requires left == Behind(value, max, from, i)
    ensures
      var f := Fragments(value, max, from, idn, elements)[i];
      && (f.incomplete <==> left > 0) && f.elements == elements
      && f.field == if left > 0 then (left / max + 1) % 0x10000 else idn
    decreases i
  {
    if i > 0 {
      FragmentsCountDown(value, max, Min(from + max, |value|), idn, elements, i - 1, left);
    }
  }

  /** The bytes behind fragment `i`. */
  function Behind(value: seq<Byte>, max: nat, from: nat, i: nat): nat
    requires from <= |value|
    decreases i
  {
    if i == 0 then |value| - Min(from + max, |value|) else Behind(value, max, Min(from + max, |value|), i - 1)
  }

  /** Why a write fails: a buffer was missing, or else nobody answered. */
  lemma WhenWriteFails(env: seq<Turn>, n: nat)
    ensures WriteStatus(env, n) == OutOfBuffers <==> exists j :: 0 <= j < n && j < |env| && env[j] == NoBuffer
    ensures WriteStatus(env, n) == Timeout <==>
      forall j :: 0 <= j < n && j < |env| ==> env[j] != NoBuffer && env[j] != Answered
  {
    assert forall j :: 0 <= j < |env| ==> At(env, j) == env[j];
    SentAll(env, n, 0);
    WhenAnyAnswered(env, n);
  }
}
