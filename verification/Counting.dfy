/** How often something occurs in a sequence. */
module Counting {
  function CountIn<T(==)>(q: seq<T>, e: T): nat {
    if q == [] then 0 else (if q[0] == e then 1 else 0) + CountIn(q[1..], e)
  }

  lemma {:induction false} CountInConcat<T>(a: seq<T>, b: seq<T>, e: T)
    ensures CountIn(a + b, e) == CountIn(a, e) + CountIn(b, e)
  {
    if a == [] {
      assert a + b == b;
    } else {
      CountInConcat(a[1..], b, e);
      assert (a + b)[1..] == a[1..] + b;
    }
  }

  lemma CountInAppend<T>(q: seq<T>, x: T, e: T)
    ensures CountIn(q + [x], e) == CountIn(q, e) + if x == e then 1 else 0
  {
    CountInConcat(q, [x], e);
    assert [x][1..] == [];
  }

  lemma CountInWithout<T>(q: seq<T>, i: nat, e: T)
    requires i < |q|
    ensures CountIn(q[..i] + q[i + 1..], e) + (if q[i] == e then 1 else 0) == CountIn(q, e)
  {
    CountInConcat(q[..i], q[i + 1..], e);
    CountInConcat(q[..i], q[i..], e);
    assert q == q[..i] + q[i..];
    assert q[i..][1..] == q[i + 1..];
  }

  lemma CountInUpdate<T>(q: seq<T>, i: nat, y: T, e: T)
    requires i < |q|
    ensures CountIn(q[i := y], e) + (if q[i] == e then 1 else 0) == CountIn(q, e) + if y == e then 1 else 0
  {
    var r := q[i := y];
    CountInWithout(q, i, e);
    CountInWithout(r, i, e);
    assert r[..i] + r[i + 1..] == q[..i] + q[i + 1..];
  }

  lemma {:induction false} CountInNone<T>(q: seq<T>, e: T)
    requires e !in q
    ensures CountIn(q, e) == 0
  {
    if q != [] {
      CountInNone(q[1..], e);
    }
  }

  lemma {:induction false} CountInSome<T>(q: seq<T>, i: nat)
    requires i < |q|
    ensures CountIn(q, q[i]) >= 1
  {
    if i > 0 {
      CountInSome(q[1..], i - 1);
    }
  }

  /** The numbers below `n`. */
  function Upto(n: nat): (q: seq<nat>)
    ensures |q| == n && forall i :: 0 <= i < n ==> q[i] == i
  {
    if n == 0 then [] else Upto(n - 1) + [n - 1]
  }

  lemma {:induction false} CountInUpto(n: nat, e: nat)
    ensures CountIn(Upto(n), e) == if e < n then 1 else 0
  {
    if n == 0 {
      assert Upto(n) == [];
    } else {
      CountInUpto(n - 1, e);
      CountInAppend<nat>(Upto(n - 1), n - 1, e);
      assert Upto(n) == Upto(n - 1) + [n - 1];
    }
  }
}
