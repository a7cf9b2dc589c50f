/** The pool operations as one thread sees them while nobody interferes.  What holds when
    threads interleave is the subject of `PoolProtocol`. */
module Pools {
  import opened Options

  datatype Status = Ok | TimedOut | Unavailable

  class Pool<T(==)> {
    var avail: seq<T>
    var availCnt: nat   // the semaphore

    /** The semaphore never counts less than what is queued. */
    ghost predicate Valid()
      reads this
    {
      |avail| <= availCnt
    }

    constructor (entries: seq<T>)
      ensures Valid() && avail == entries && availCnt == |entries|
    {
      avail, availCnt := entries, |entries|;
    }

    /** Take the first entry.  A timed get waits on the semaphore first; while something is
        queued it cannot time out. */
    method Get(timed: bool) returns (status: Status, entry: Option<T>)
      requires Valid()
      modifies this
      ensures Valid()
      ensures old(avail) != [] ==> status == Ok && entry == Some(old(avail)[0]) && avail == old(avail)[1..]
      ensures old(avail) == [] ==>
        && entry == None && avail == []
        && status == if timed && old(availCnt) == 0 then TimedOut else Unavailable
      ensures availCnt == old(availCnt) - if timed && old(availCnt) > 0 then 1 else 0
    {
      entry := None;
      if timed {
        if availCnt == 0 {
          return TimedOut, None;
        }
        availCnt := availCnt - 1;
      }
      if avail == [] {
        status := Unavailable;
      } else {
        status, entry, avail := Ok, Some(avail[0]), avail[1..];
      }
    }

    method Put(entry: T)
      requires Valid()
      modifies this
      ensures Valid() && avail == old(avail) + [entry] && availCnt == old(availCnt) + 1
    {
      avail, availCnt := avail + [entry], availCnt + 1;
    }

    method PutHead(entry: T)
      requires Valid()
      modifies this
      ensures Valid() && avail == [entry] + old(avail) && availCnt == old(availCnt) + 1
    {
      avail, availCnt := [entry] + avail, availCnt + 1;
    }

    /** Take out an entry that is queued once, wherever it is; nothing happens when it is not
        there.  The semaphore keeps counting it. */
    method Remove(entry: T)
      requires Valid()
      modifies this
      ensures Valid() && availCnt == old(availCnt)
      ensures entry !in old(avail) ==> avail == old(avail)
      ensures entry in old(avail) ==>
        exists i :: 0 <= i < |old(avail)| && old(avail)[i] == entry && entry !in old(avail)[..i]
          && avail == old(avail)[..i] + old(avail)[i + 1..]
    {
      var i := 0;
      while i < |avail| && avail[i] != entry
        invariant 0 <= i <= |avail|
        invariant entry !in avail[..i]
      {
        i := i + 1;
      }
      if i < |avail| {
        avail := avail[..i] + avail[i + 1..];
      }
    }
  }
}
