/** The order in which a frame runs through the ports of a slave, and the two table-driven
    port searches built on it. */
module PortOrder {
  import opened Ports

  /** A frame that leaves the processing unit visits the ports as a ring: 0, 3, 1, 2, 0. */
  function Next(p: Port): Port {
    match p
    case 0 => 3
    case 3 => 1
    case 1 => 2
    case 2 => 0
  }

  /** The active ports in the order of the frame, from the port it comes in. */
  function Path(active: set<Port>, entry: Port): (path: seq<Port>)
    ensures 1 <= |path| <= 4 && path[0] == entry
  {
    [entry] + Selected([Next(entry), Next(Next(entry)), Next(Next(Next(entry)))], active)
  }

  function Selected(ports: seq<Port>, s: set<Port>): (r: seq<Port>)
    ensures |r| <= |ports|
  {
    if ports == [] then []
    else (if ports[0] in s then [ports[0]] else []) + Selected(ports[1..], s)
  }

  /** What is left of a path for further children once `n` of them took their port. */
  function Left(path: seq<Port>, n: nat): set<Port> {
    set i | n < i < |path| :: path[i]
  }

  /** The port that child number `n` is wired to; the entry port when there is none left. */
  function ChildPort(path: seq<Port>, n: nat): Port
    requires |path| > 0
  {
    if n + 1 < |path| then path[n + 1] else path[0]
  }

  // ---------------------------------------------------------------------------------------
  // The tables and the searches of the source
  // ---------------------------------------------------------------------------------------

  function ForwardOrder(port: Port): (order: seq<Port>)
    ensures |order| == 4
  {
    match port
    case 0 => [3, 1, 2, 0]
    case 1 => [2, 0, 3, 1]
    case 2 => [0, 3, 1, 2]
    case 3 => [1, 2, 0, 3]
  }

  function ReverseOrder(port: Port): (order: seq<Port>)
    ensures |order| == 4
  {
    match port
    case 0 => [2, 1, 3, 0]
    case 1 => [3, 0, 2, 1]
    case 2 => [1, 3, 0, 2]
    case 3 => [0, 2, 1, 3]
  }

  /** The first port of a list that is in a set. */
  function FirstOf(order: seq<Port>, s: set<Port>, otherwise: Port): Port {
    if order == [] then otherwise
    else if order[0] in s then order[0]
    else FirstOf(order[1..], s, otherwise)
  }

  function PreviousActivePort(active: set<Port>, port: Port): Port {
    FirstOf(ReverseOrder(port)[..3], active, port)
  }

  function NextAvailablePort(available: set<Port>, port: Port): Port {
    FirstOf(ForwardOrder(port), available, port)
  }

  method GetPreviousActivePort(active: set<Port>, port: Port) returns (retPort: Port)
    ensures retPort == PreviousActivePort(active, port)
  {
    var portOrder := ReverseOrder(port);
    retPort := port;
    var i := 0;
    while i < 3
      invariant 0 <= i <= 3
      invariant retPort == port
      invariant FirstOf(portOrder[..3], active, port) == FirstOf(portOrder[..3][i..], active, port)
    {
      if portOrder[i] in active {
        retPort := portOrder[i];
        break;
      }
      i := i + 1;
    }
  }

  /** Returns the port and what is left of the available ports. */
  method GetAndConsumeNextAvailablePort(available: set<Port>, port: Port)
    returns (retPort: Port, left: set<Port>)
    ensures retPort == NextAvailablePort(available, port)
    ensures left == available - {retPort}
  {
    var portOrder := ForwardOrder(port);
    retPort, left := port, available;
    var i := 0;
    while i < 4
      invariant 0 <= i <= 4
      invariant retPort == port && left == available
      invariant forall j :: 0 <= j < i ==> portOrder[j] !in available
      invariant FirstOf(portOrder, available, port) == FirstOf(portOrder[i..], available, port)
    {
      if portOrder[i] in available {
        retPort := portOrder[i];
        left := left - {retPort};
        break;
      }
      i := i + 1;
    }
    assert port == portOrder[3];
  }

  // ---------------------------------------------------------------------------------------
  // The searches walk the path
  // ---------------------------------------------------------------------------------------

  /** The port that is `n` steps further on the ring. */
  function Ahead(p: Port, n: nat): Port {
    if n == 0 then p else Next(Ahead(p, n - 1))
  }

  /** The ring is 0, 3, 1, 2. */
  lemma TheRing()
    ensures Ahead(0, 1) == 3 && Ahead(0, 2) == 1 && Ahead(0, 3) == 2 && Ahead(0, 4) == 0
  {
  }

  lemma FirstIsFirst(order: seq<Port>, s: set<Port>, otherwise: Port) returns (k: nat)
    ensures k <= |order| && forall j :: 0 <= j < k ==> order[j] !in s
    ensures if k < |order| then order[k] in s && FirstOf(order, s, otherwise) == order[k]
      else FirstOf(order, s, otherwise) == otherwise
  {
    if order == [] {
      k := 0;
    } else if order[0] in s {
      k := 0;
    } else {
      var m := FirstIsFirst(order[1..], s, otherwise);
      k := m + 1;
    }
  }

  lemma AheadSteps(p: Port)
    ensures Ahead(p, 0) == p && Ahead(p, 1) == Next(p) && Ahead(p, 2) == Next(Next(p))
    ensures Ahead(p, 3) == Next(Next(Next(p))) && Ahead(p, 4) == p
  {
    assert Ahead(p, 1) == Next(Ahead(p, 0)) && Ahead(p, 2) == Next(Ahead(p, 1));
    assert Ahead(p, 3) == Next(Ahead(p, 2)) && Ahead(p, 4) == Next(Ahead(p, 3));
  }

  /** The tables, in steps of the ring. */
  lemma TablesAhead(p: Port)
    ensures ForwardOrder(p) == [Next(p), Next(Next(p)), Next(Next(Next(p))), p]
    ensures var r := ReverseOrder(p); r[0] != p && r[1] != p && r[2] != p && r[3] == p
    ensures var r := ReverseOrder(p); Next(r[0]) == p && Next(r[1]) == r[0] && Next(r[2]) == r[1]
    ensures forall q: Port :: q in ForwardOrder(p) && q in ReverseOrder(p)
  {
    match p
    case 0 =>
    case 1 =>
    case 2 =>
    case 3 =>
  }

  /** Forwards, the search takes the closest available port, coming back to the port itself last;
      without any it gives the port itself. */
  lemma NextIsClosest(available: set<Port>, port: Port) returns (k: nat)
    ensures
      var r := NextAvailablePort(available, port);
      if available == {} then r == port
      else
        && 1 <= k <= 4 && r in available && r == Ahead(port, k)
        && forall j :: 1 <= j < k ==> Ahead(port, j) !in available
  {
    var order := ForwardOrder(port);
    var m := FirstIsFirst(order, available, port);
    k := m + 1;
    TablesAhead(port);
    AheadSteps(port);
    if available != {} {
      var p :| p in available;
      assert p in order;
      forall j | 1 <= j < k ensures Ahead(port, j) !in available {
        assert order[j - 1] !in available;
        assert j == 1 || j == 2 || j == 3 || j == 4;
      }
    }
  }

  /** Backwards, it takes the closest other active port; without any it gives the port itself. */
  lemma PreviousIsClosest(active: set<Port>, port: Port) returns (k: nat)
    ensures
      var r := PreviousActivePort(active, port);
      if active <= {port} then r == port
      else 1 <= k <= 3 && r in active && Ahead(r, k) == port && forall j :: 1 <= j < k ==> Ahead(r, j) !in active
  {
    var order := ReverseOrder(port);
    var m := FirstIsFirst(order[..3], active, port);
    k := m + 1;
    TablesAhead(port);
    if m < 3 {
      AheadSteps(order[m]);
      assert order[0] == order[..3][0] && order[1] == order[..3][1] && order[2] == order[..3][2];
    } else {
      forall p: Port | p in active ensures p == port {
        assert p in order;
        assert order[0] == order[..3][0] && order[1] == order[..3][1] && order[2] == order[..3][2];
      }
    }
  }

  /** The forward table lists the ring forwards, the reverse table lists it backwards. */
  lemma TablesFollowRing(p: Port, i: nat)
    requires i < 4
    ensures ForwardOrder(p)[i] == Next(if i == 0 then p else ForwardOrder(p)[i - 1])
    ensures Next(ReverseOrder(p)[i]) == (if i == 0 then p else ReverseOrder(p)[i - 1])
  {
    assert p == 0 || p == 1 || p == 2 || p == 3;
  }

  /** A path visits every active port once. */
  lemma PathIsPermutation(active: set<Port>, entry: Port)
    requires entry in active
    ensures forall p :: p in Path(active, entry) <==> p in active
    ensures forall i, j :: 0 <= i < j < |Path(active, entry)| ==> Path(active, entry)[i] != Path(active, entry)[j]
    ensures |Path(active, entry)| == |active|
  {
    PathMembers(active, entry);
    assert active == set p | p in Path(active, entry);
    DistinctSize(Path(active, entry));
  }

  lemma PathMembers(active: set<Port>, entry: Port)
    requires entry in active
    ensures forall p :: p in Path(active, entry) <==> p in active
    ensures forall i, j :: 0 <= i < j < |Path(active, entry)| ==> Path(active, entry)[i] != Path(active, entry)[j]
  {
    var a, b, c := Next(entry), Next(Next(entry)), Next(Next(Next(entry)));
    SelectedThree(a, b, c, active);
    forall p: Port ensures p in [entry, a, b, c] {
    }
  }

  lemma SelectedThree(a: Port, b: Port, c: Port, s: set<Port>)
    ensures Selected([a, b, c], s) ==
      (if a in s then [a] else []) + (if b in s then [b] else []) + (if c in s then [c] else [])
  {
    assert [a, b, c][1..] == [b, c] && [b, c][1..] == [c] && [c][1..] == [];
    assert Selected([], s) == [];
    assert Selected([c], s) == if c in s then [c] else [];
    assert Selected([b, c], s) == (if b in s then [b] else []) + Selected([c], s);
  }

  lemma {:induction false} DistinctSize(path: seq<Port>)
    requires forall i, j :: 0 <= i < j < |path| ==> path[i] != path[j]
    ensures |set p | p in path| == |path|
  {
    if path != [] {
      DistinctSize(path[1..]);
      assert (set p | p in path) == {path[0]} + set p | p in path[1..];
    }
  }

  lemma FirstOfThree(a: Port, b: Port, c: Port, s: set<Port>, d: Port)
    ensures FirstOf([a, b, c], s, d) == if a in s then a else if b in s then b else if c in s then c else d
  {
    assert [a, b, c][1..] == [b, c] && [b, c][1..] == [c] && [c][1..] == [];
    assert FirstOf([], s, d) == d;
    assert FirstOf([c], s, d) == if c in s then c else d;
    assert FirstOf([b, c], s, d) == if b in s then b else FirstOf([c], s, d);
  }

  /** The previous active port of the k-th port of a path is the port before it, and the last
      one for the entry port. */
  lemma PreviousOnPath(active: set<Port>, entry: Port, k: nat)
    requires entry in active
    requires k < |Path(active, entry)|
    ensures PreviousActivePort(active, Path(active, entry)[k])
         == Path(active, entry)[if k == 0 then |Path(active, entry)| - 1 else k - 1]
  {
    var a, b, c := Next(entry), Next(Next(entry)), Next(Next(Next(entry)));
    SelectedThree(a, b, c, active);
    var path := Path(active, entry);
    var x := path[k];
    var order := ReverseOrder(x);
    assert order[..3] == [order[0], order[1], order[2]];
    FirstOfThree(order[0], order[1], order[2], active, x);
    assert entry == 0 || entry == 1 || entry == 2 || entry == 3;
  }

  lemma SelectedFrom(ports: seq<Port>, s: set<Port>)
    ensures forall p :: p in Selected(ports, s) ==> p in ports
  {
  }

  /** Searching an order for what is left of its selection finds the next selected port. */
  lemma {:induction false} FirstOfSelection(order: seq<Port>, active: set<Port>, k: nat, left: set<Port>, d: Port)
    requires forall i, j :: 0 <= i < j < |order| ==> order[i] != order[j]
    requires k <= |Selected(order, active)|
    requires left == set i | k <= i < |Selected(order, active)| :: Selected(order, active)[i]
    ensures FirstOf(order, left, d) == if k < |Selected(order, active)| then Selected(order, active)[k] else d
  {
    if order != [] {
      var rest := Selected(order[1..], active);
      SelectedFrom(order[1..], active);
      assert order[0] !in order[1..];
      assert order[0] !in rest;
      if order[0] !in active {
        assert Selected(order, active) == rest;
        assert order[0] !in left;
        FirstOfSelection(order[1..], active, k, left, d);
      } else if k == 0 {
        assert Selected(order, active)[0] in left;
      } else {
        assert forall i :: k <= i < |rest| + 1 ==> Selected(order, active)[i] == rest[i - 1];
        assert left == set i | k - 1 <= i < |rest| :: rest[i] by {
          forall p ensures p in left <==> exists i :: k - 1 <= i < |rest| && rest[i] == p {
            if i :| k - 1 <= i < |rest| && rest[i] == p {
              assert Selected(order, active)[i + 1] in left;
            }
          }
        }
        FirstOfSelection(order[1..], active, k - 1, left, d);
      }
    }
  }

  lemma TakeLeft(path: seq<Port>, n: nat)
    requires n + 1 < |path|
    requires forall i, j :: 0 <= i < j < |path| ==> path[i] != path[j]
    ensures Left(path, n) - {path[n + 1]} == Left(path, n + 1)
  {
  }

  /** Taking the next available port of what `n` children left gives child `n` its port. */
  lemma TakeOnPath(active: set<Port>, entry: Port, n: nat)
    requires entry in active
    ensures var path := Path(active, entry);
      && NextAvailablePort(Left(path, n), entry) == ChildPort(path, n)
      && Left(path, n) - {ChildPort(path, n)} == Left(path, n + 1)
  {
    var order := [Next(entry), Next(Next(entry)), Next(Next(Next(entry)))];
    var path := Path(active, entry);
    PathIsPermutation(active, entry);
    if n + 1 < |path| {
      var tail := Selected(order, active);
      assert Left(path, n) == set i | n <= i < |tail| :: tail[i] by {
        forall p ensures p in Left(path, n) <==> exists i :: n <= i < |tail| && tail[i] == p {
          if i :| n <= i < |tail| && tail[i] == p {
            assert path[i + 1] in Left(path, n);
          }
        }
      }
      FirstOfSelection(order, active, n, Left(path, n), entry);
      LastIsDefault(entry, Left(path, n));
      TakeLeft(path, n);
    } else {
      LastIsDefault(entry, {});
      FirstOfThree(order[0], order[1], order[2], {}, entry);
      assert Left(path, n) == {};
    }
  }

  lemma LastIsDefault(entry: Port, s: set<Port>)
    ensures FirstOf(ForwardOrder(entry), s, entry)
         == FirstOf([Next(entry), Next(Next(entry)), Next(Next(Next(entry)))], s, entry)
  {
    var a, b, c := Next(entry), Next(Next(entry)), Next(Next(Next(entry)));
    FirstOfThree(a, b, c, s, entry);
    FirstOfThree(b, c, entry, s, entry);
    assert ForwardOrder(entry) == [a, b, c, entry];
    assert [a, b, c, entry][1..] == [b, c, entry];
  }
}
