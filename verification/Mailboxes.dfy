/** What of a message gets into the write mailbox of a slave: messages are built in pool entries, and
    as many bytes of an entry are written as the mailbox has, if the entry has them. */
module Mailboxes {
  import opened Bytes

  const MBX_HDR := 6         // the mailbox header
  const ENTRY_SIZE := 1600   // the bytes of a pool entry

  /** How many bytes of a message are written. */
  function Written(mailbox: nat): nat {
    Min(ENTRY_SIZE, mailbox)
  }

  /** What arrives of a body that has `header` bytes in front of it. */
  function Arrived(body: seq<Byte>, header: nat, mailbox: nat): (r: seq<Byte>)
    ensures |r| <= |body| && r == body[..|r|]
    ensures r == body <==> body == [] || header + |body| <= Written(mailbox)
  {
    if Written(mailbox) <= header then [] else body[..Min(|body|, Written(mailbox) - header)]
  }

  /** What arrives of several bodies. */
  function AllArrived(bodies: seq<seq<Byte>>, header: nat, mailbox: nat): (r: seq<seq<Byte>>)
    ensures |r| == |bodies|
  {
    if bodies == [] then [] else [Arrived(bodies[0], header, mailbox)] + AllArrived(bodies[1..], header, mailbox)
  }

  /** All of them get through. */
  predicate GetThrough(bodies: seq<seq<Byte>>, header: nat, mailbox: nat) {
    forall i :: 0 <= i < |bodies| ==> bodies[i] == [] || header + |bodies[i]| <= Written(mailbox)
  }

  /** Nothing arrives that was not sent, and everything does exactly when every body fits. */
  lemma {:induction false} WhenAllArrives(bodies: seq<seq<Byte>>, header: nat, mailbox: nat)
    ensures |Flatten(AllArrived(bodies, header, mailbox))| <= |Flatten(bodies)|
    ensures Flatten(AllArrived(bodies, header, mailbox)) == Flatten(bodies) <==> GetThrough(bodies, header, mailbox)
  {
    if bodies != [] {
      var first, rest := Arrived(bodies[0], header, mailbox), AllArrived(bodies[1..], header, mailbox);
      WhenAllArrives(bodies[1..], header, mailbox);
      var all := AllArrived(bodies, header, mailbox);
      assert all[0] == first && all[1..] == rest;
      assert Flatten(all) == first + Flatten(rest) && Flatten(bodies) == bodies[0] + Flatten(bodies[1..]);
      GetThroughSplits(bodies, header, mailbox);
      if first == bodies[0] {
        SameFront(first, Flatten(rest), Flatten(bodies[1..]));
      }
    }
  }

  lemma GetThroughSplits(bodies: seq<seq<Byte>>, header: nat, mailbox: nat)
    requires bodies != []
    ensures GetThrough(bodies, header, mailbox) <==>
      (bodies[0] == [] || header + |bodies[0]| <= Written(mailbox)) && GetThrough(bodies[1..], header, mailbox)
  {
    var rest := bodies[1..];
    if GetThrough(bodies, header, mailbox) {
      forall i | 0 <= i < |rest| ensures rest[i] == [] || header + |rest[i]| <= Written(mailbox) {
        assert rest[i] == bodies[i + 1];
      }
    } else if GetThrough(rest, header, mailbox) {
      forall i | 1 <= i < |bodies| ensures bodies[i] == [] || header + |bodies[i]| <= Written(mailbox) {
        assert bodies[i] == rest[i - 1];
      }
    }
  }

  lemma SameFront(a: seq<Byte>, b: seq<Byte>, c: seq<Byte>)
    ensures a + b == a + c <==> b == c
  {
    assert (a + b)[|a|..] == b && (a + c)[|a|..] == c;
  }

  /** When the first body is the longest one, it decides. */
  lemma WhenFirstIsLongest(bodies: seq<seq<Byte>>, header: nat, mailbox: nat)
    requires bodies != [] && forall i :: 0 <= i < |bodies| ==> |bodies[i]| <= |bodies[0]|
    ensures Flatten(AllArrived(bodies, header, mailbox)) == Flatten(bodies)
      <==> bodies[0] == [] || header + |bodies[0]| <= Written(mailbox)
  {
    WhenAllArrives(bodies, header, mailbox);
  }
}
