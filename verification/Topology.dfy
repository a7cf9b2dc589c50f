/** The parent search of the bus scan.  Slaves are numbered in the order in which a frame
    visits them (preorder of the wiring tree), and every slave reports how many of its
    ports carry a link.  From these counts alone the scan rebuilds the tree. */
module Topology {
  import opened Counting
  import opened Division
  import opened Options
  import opened Ports

  /** A slave together with the slaves wired behind it, in frame order. */
  datatype Tree = Node(children: seq<Tree>)

  /** One slave as the scan leaves it. */
  datatype Slave = Slave(linkCnt: nat, activePorts: set<Port>, parent: int)

  // ---------------------------------------------------------------------------------------
  // The wiring tree, as the frame sees it
  // ---------------------------------------------------------------------------------------

  /** The link counts in frame order: one link towards the master, one per child. */
  function Links(t: Tree): (links: seq<nat>)
    ensures |links| > 0
    decreases t, 1
  {
    [|t.children| + 1] + ForestLinks(t.children)
  }

  function ForestLinks(ts: seq<Tree>): seq<nat>
    decreases ts, 0
  {
    if ts == [] then [] else Links(ts[0]) + ForestLinks(ts[1..])
  }

  /** The true parents in frame order, for a tree whose root has number `self`. */
  function Parents(t: Tree, self: nat, parent: int): (ps: seq<int>)
    ensures |ps| == |Links(t)|
    decreases t, 1
  {
    [parent] + ForestParents(t.children, self + 1, self)
  }

  function ForestParents(ts: seq<Tree>, base: nat, parent: int): (ps: seq<int>)
    ensures |ps| == |ForestLinks(ts)|
    decreases ts, 0
  {
    if ts == [] then []
    else Parents(ts[0], base, parent) + ForestParents(ts[1..], base + |Links(ts[0])|, parent)
  }

  /** A slave has four ports, so at most three children. */
  ghost predicate Fits(t: Tree)
    decreases t, 1
  {
    |t.children| <= 3 && ForestFits(t.children)
  }

  ghost predicate ForestFits(ts: seq<Tree>)
    decreases ts, 0
  {
    ts == [] || (Fits(ts[0]) && ForestFits(ts[1..]))
  }

  // ---------------------------------------------------------------------------------------
  // The backward scan
  // ---------------------------------------------------------------------------------------

  /** What the scan adds to its counter when it passes a slave with this link count. */
  function Weight(linkCnt: nat): int {
    if linkCnt == 1 then -1 else if linkCnt == 3 then 1 else if linkCnt == 4 then 2 else 0
  }

  /** Where the backward scan stops, and its counter there. */
  datatype Stop = Stop(parent: int, topology: int)

  function ScanFrom(links: seq<nat>, t: nat, topology: int): (stop: Stop)
    requires t < |links|
    ensures 0 <= stop.parent <= t
  {
    var top := topology + Weight(links[t]);
    if (top >= 0 && links[t] > 1) || t == 0 then Stop(t, top) else ScanFrom(links, t - 1, top)
  }

  function ScanParent(links: seq<nat>, slave: nat): (parent: int)
    requires slave <= |links|
    ensures -1 <= parent < slave
  {
    if slave == 0 then -1 else ScanFrom(links, slave - 1, 0).parent
  }

  /** The scan stopped because it found a splitting slave, not because it ran out of slaves. */
  ghost predicate FoundSplit(links: seq<nat>, slave: nat)
    requires 0 < slave <= |links|
  {
    var stop := ScanFrom(links, slave - 1, 0);
    stop.topology >= 0 && links[stop.parent] > 1
  }

  ghost predicate Finds(links: seq<nat>, slave: nat, parent: int)
    requires 0 < slave <= |links|
  {
    ScanParent(links, slave) == parent && FoundSplit(links, slave)
  }

  // ---------------------------------------------------------------------------------------
  // The scan is right on every tree
  // ---------------------------------------------------------------------------------------

  lemma ForestAppend(ts: seq<Tree>, t: Tree)
    ensures ForestLinks(ts + [t]) == ForestLinks(ts) + Links(t)
  {
    if ts == [] {
      assert ts + [t] == [t];
      assert ForestLinks([t]) == Links(t) + ForestLinks([]);
    } else {
      ForestAppend(ts[1..], t);
      assert (ts + [t])[1..] == ts[1..] + [t];
    }
  }

  lemma ForestFitsAppend(ts: seq<Tree>, t: Tree)
    requires ForestFits(ts) && Fits(t)
    ensures ForestFits(ts + [t])
  {
    if ts != [] {
      ForestFitsAppend(ts[1..], t);
      assert (ts + [t])[1..] == ts[1..] + [t];
    }
  }

  /** How the window of a forest splits into its first tree, that tree's children and the rest. */
  lemma FirstTree(links: seq<nat>, base: nat, end: nat, ts: seq<Tree>) returns (mid: nat)
    requires base <= end <= |links| && ts != []
    requires links[base..end] == ForestLinks(ts)
    ensures mid == base + |Links(ts[0])| <= end && base < mid
    ensures links[base] == |ts[0].children| + 1
    ensures links[base..mid] == Links(ts[0])
    ensures links[base + 1..mid] == ForestLinks(ts[0].children)
    ensures links[mid..end] == ForestLinks(ts[1..])
  {
    var n := |Links(ts[0])|;
    mid := base + n;
    assert links[base..mid] == links[base..end][..n] == Links(ts[0]);
    assert links[mid..end] == links[base..end][n..] == ForestLinks(ts[1..]);
    assert links[base] == links[base..mid][0];
    assert links[base + 1..mid] == links[base..mid][1..];
  }

  /** A whole forest lowers the counter by its number of trees and never stops the scan. */
  lemma {:induction false} SkipForest(links: seq<nat>, base: nat, end: nat, ts: seq<Tree>, top: int)
    requires 1 <= base <= end <= |links|
    requires links[base..end] == ForestLinks(ts)
    requires ForestFits(ts)
    requires top <= 0
    ensures ScanFrom(links, end - 1, top) == ScanFrom(links, base - 1, top - |ts|)
    decreases ts
  {
    if ts != [] {
      var mid := FirstTree(links, base, end, ts);
      SkipForest(links, mid, end, ts[1..], top);
      SkipForest(links, base + 1, mid, ts[0].children, top - (|ts| - 1));
    }
  }

  /** The first slave of a tree that hangs below `p`, behind the trees `done`. */
  lemma RootScan(links: seq<nat>, p: nat, base: nat, done: seq<Tree>)
    requires p < base <= |links|
    requires links[p + 1..base] == ForestLinks(done)
    requires |done| + 2 <= links[p] <= 4
    requires ForestFits(done)
    ensures Finds(links, base, p)
  {
    SkipForest(links, p + 1, base, done, 0);
    StopAt(links, p, -|done|);
  }

  lemma StopAt(links: seq<nat>, p: nat, top: int)
    requires p < |links| && 2 <= links[p] <= 4 && top + links[p] >= 2
    ensures ScanFrom(links, p, top) == Stop(p, top + links[p] - 2)
  {
  }

  /** The parents in a forest: of its first slave, of the rest of the first tree, of the rest
      of the forest. */
  lemma ForestParentsSplit(ts: seq<Tree>, base: nat, mid: nat, p: int, i: nat)
    requires ts != [] && mid == base + |Links(ts[0])| && base <= i < base + |ForestLinks(ts)|
    ensures i == base ==> ForestParents(ts, base, p)[i - base] == p
    ensures base < i < mid ==>
      ForestParents(ts, base, p)[i - base] == ForestParents(ts[0].children, base + 1, base)[i - (base + 1)]
    ensures mid <= i ==> ForestParents(ts, base, p)[i - base] == ForestParents(ts[1..], mid, p)[i - mid]
  {
    var below, rest := ForestParents(ts[0].children, base + 1, base), ForestParents(ts[1..], mid, p);
    ForestParentsParts(ts, base, mid, p, below, rest);
    ConcatAt(p, below, rest, ForestParents(ts, base, p), base, mid, i);
  }

  lemma ForestParentsParts(ts: seq<Tree>, base: nat, mid: nat, p: int, below: seq<int>, rest: seq<int>)
    requires ts != [] && mid == base + |Links(ts[0])|
    requires below == ForestParents(ts[0].children, base + 1, base) && rest == ForestParents(ts[1..], mid, p)
    ensures ForestParents(ts, base, p) == ([p] + below) + rest && mid == base + 1 + |below|
  {
    assert Parents(ts[0], base, p) == [p] + below;
    assert ForestParents(ts, base, p) == Parents(ts[0], base, p) + rest;
  }

  lemma ConcatAt(p: int, a: seq<int>, b: seq<int>, c: seq<int>, base: nat, mid: nat, i: nat)
    requires c == ([p] + a) + b && mid == base + 1 + |a| && base <= i < base + |c|
    ensures i == base ==> c[i - base] == p
    ensures base < i < mid ==> c[i - base] == a[i - (base + 1)]
    ensures mid <= i ==> c[i - base] == b[i - mid]
  {
  }

  /** Every slave of a forest that hangs below slave `p`, behind the trees `done`, finds its
      true parent `q`. */
  lemma {:induction false} ForestScan(
      links: seq<nat>, p: nat, base: nat, end: nat, done: seq<Tree>, ts: seq<Tree>, slave: nat, q: int)
    requires p < base <= slave < end <= |links|
    requires links[p + 1..base] == ForestLinks(done)
    requires links[base..end] == ForestLinks(ts)
    requires links[p] == |done| + |ts| + 1 <= 4
    requires ForestFits(done) && ForestFits(ts)
    requires q == ForestParents(ts, base, p)[slave - base]
    ensures Finds(links, slave, q)
    decreases ts
  {
    var mid := FirstTree(links, base, end, ts);
    FitsSplit(ts);
    if slave == base {
      ForestParentsSplit(ts, base, mid, p, slave);
      RootScan(links, p, base, done);
    } else if slave < mid {
      var below := ts[0].children;
      ForestParentsSplit(ts, base, mid, p, slave);
      EmptyForest(links, base + 1);
      ForestScan(links, base, base + 1, mid, [], below, slave, q);
    } else {
      ForestParentsSplit(ts, base, mid, p, slave);
      NextTree(links, p, base, mid, done, ts[0]);
      ForestScan(links, p, mid, end, done + [ts[0]], ts[1..], slave, q);
    }
  }

  lemma FitsSplit(ts: seq<Tree>)
    requires ForestFits(ts) && ts != []
    ensures Fits(ts[0]) && ForestFits(ts[1..])
    ensures |ts[0].children| <= 3 && ForestFits(ts[0].children)
  {
  }

  lemma EmptyForest(links: seq<nat>, i: nat)
    requires i <= |links|
    ensures links[i..i] == ForestLinks([]) && ForestFits([])
  {
  }

  lemma NextTree(links: seq<nat>, p: nat, base: nat, mid: nat, done: seq<Tree>, t: Tree)
    requires p < base <= mid <= |links|
    requires links[p + 1..base] == ForestLinks(done) && links[base..mid] == Links(t)
    requires ForestFits(done) && Fits(t)
    ensures links[p + 1..mid] == ForestLinks(done + [t]) && ForestFits(done + [t])
  {
    ForestAppend(done, t);
    ForestFitsAppend(done, t);
    assert links[p + 1..mid] == links[p + 1..base] + links[base..mid];
  }

  /** Main theorem: on the link counts of any tree the scan returns the true parent of every
      slave, and the fallback "slave 0 is the parent" never decides alone. */
  lemma ScanIsExact(t: Tree, slave: nat)
    requires Fits(t)
    requires slave < |Links(t)|
    ensures ScanParent(Links(t), slave) == Parents(t, 0, -1)[slave]
    ensures slave > 0 ==> FoundSplit(Links(t), slave)
  {
    if slave > 0 {
      var links := Links(t);
      assert links[1..1] == ForestLinks([]);
      assert links[1..|links|] == ForestLinks(t.children);
      ForestScan(links, 0, 1, |links|, [], t.children, slave, Parents(t, 0, -1)[slave]);
    }
  }

  /** How often `v` is a parent in a forest of slaves from `base` on, below slave `p`. */
  function ChildrenIn(ts: seq<Tree>, base: nat, p: int, v: int): int {
    if v == p then |ts|
    else if base <= v < base + |ForestLinks(ts)| then (ForestLinks(ts)[v - base] as int) - 1
    else 0
  }

  lemma ChildrenInSplit(ts: seq<Tree>, base: nat, mid: nat, p: int, v: int)
    requires p < base && ts != [] && mid == base + |Links(ts[0])|
    ensures ChildrenIn(ts, base, p, v) ==
      (if v == p then 1 else 0) + ChildrenIn(ts[0].children, base + 1, base, v) + ChildrenIn(ts[1..], mid, p, v)
  {
    assert ForestLinks(ts)
        == [|ts[0].children| + 1] + ForestLinks(ts[0].children) + ForestLinks(ts[1..]);
  }

  /** The parents in a forest: one for the first slave, those below it, and those of the rest. */
  lemma FirstTreeCount(ts: seq<Tree>, base: nat, mid: nat, p: int, v: int)
    requires p < base && ts != [] && mid == base + |Links(ts[0])|
    ensures CountIn(ForestParents(ts, base, p), v) ==
      (if v == p then 1 else 0)
      + CountIn(ForestParents(ts[0].children, base + 1, base), v)
      + CountIn(ForestParents(ts[1..], mid, p), v)
  {
    var first, rest := Parents(ts[0], base, p), ForestParents(ts[1..], mid, p);
    CountInConcat(first, rest, v);
    assert first[0] == p && first[1..] == ForestParents(ts[0].children, base + 1, base);
  }

  lemma {:induction false} ForestChildCount(ts: seq<Tree>, base: nat, p: int, v: int)
    requires p < base
    ensures CountIn(ForestParents(ts, base, p), v) == ChildrenIn(ts, base, p, v)
    decreases ts
  {
    if ts != [] {
      var mid := base + |Links(ts[0])|;
      FirstTreeCount(ts, base, mid, p, v);
      ForestChildCount(ts[0].children, base + 1, base, v);
      ForestChildCount(ts[1..], mid, p, v);
      ChildrenInSplit(ts, base, mid, p, v);
    }
  }

  /** Every slave of a tree is the parent of one slave less than it has links. */
  lemma ChildCount(t: Tree, slave: nat)
    requires slave < |Links(t)|
    ensures CountIn(Parents(t, 0, -1), slave) + 1 == Links(t)[slave]
  {
    ForestChildCount(t.children, 1, 0, slave);
    var ps := Parents(t, 0, -1);
    assert ps[0] == -1 && ps[1..] == ForestParents(t.children, 1, 0);
  }

  /** Parents come first. */
  lemma {:induction false} ForestParentsFirst(ts: seq<Tree>, base: nat, p: int, i: nat)
    requires -1 <= p < base && i < |ForestLinks(ts)|
    ensures -1 <= ForestParents(ts, base, p)[i] < base + i
    ensures p >= 0 ==> ForestParents(ts, base, p)[i] >= 0
    decreases ts
  {
    var n := |Links(ts[0])|;
    if 0 < i < n {
      ForestParentsFirst(ts[0].children, base + 1, base, i - 1);
    } else if i >= n {
      ForestParentsFirst(ts[1..], base + n, p, i - n);
    }
  }

  /** Two different trees never report the same link counts, so no other answer is possible. */
  lemma {:induction false} LinksDetermineForest(ts: seq<Tree>, us: seq<Tree>, x: seq<nat>, y: seq<nat>)
    requires |ts| == |us|
    requires ForestLinks(ts) + x == ForestLinks(us) + y
    ensures ts == us && x == y
    decreases ts
  {
    if ts != [] {
      var a, b := ForestLinks(ts[1..]) + x, ForestLinks(us[1..]) + y;
      var l, r := ForestLinks(ts) + x, ForestLinks(us) + y;
      assert l == [|ts[0].children| + 1] + (ForestLinks(ts[0].children) + a);
      assert r == [|us[0].children| + 1] + (ForestLinks(us[0].children) + b);
      assert l[0] == r[0] && l[1..] == r[1..];
      LinksDetermineForest(ts[0].children, us[0].children, a, b);
      LinksDetermineForest(ts[1..], us[1..], x, y);
      assert ts == [ts[0]] + ts[1..] && us == [us[0]] + us[1..];
    } else {
      assert ForestLinks(ts) + x == x && ForestLinks(us) + y == y;
    }
  }

  lemma OneTree(t: Tree)
    ensures ForestLinks([t]) + [] == Links(t)
  {
    assert [t][1..] == [];
    assert ForestLinks([t]) == Links(t) + [];
  }

  lemma LinksDetermineTree(t: Tree, u: Tree)
    requires Links(t) == Links(u)
    ensures t == u
  {
    OneTree(t);
    OneTree(u);
    LinksDetermineForest([t], [u], [], []);
  }

  // ---------------------------------------------------------------------------------------
  // The scan loop of the master
  // ---------------------------------------------------------------------------------------

  /** A port counts as a link when its two status bits (from bit 8 of the data link status
      on) say "loop open, communication established". */
  function PortStatus(dlstat: nat, port: Port): (status: nat)
    ensures status < 4
  {
    (dlstat / (if port == 0 then 0x100 else if port == 1 then 0x400 else if port == 2 then 0x1000 else 0x4000)) % 4
  }

  /** The status word with these two bits for every port, above the low byte. */
  function StatusWord(low: nat, st: seq<nat>): nat
    requires |st| == 4
  {
    low + 0x100 * st[0] + 0x400 * st[1] + 0x1000 * st[2] + 0x4000 * st[3]
  }

  lemma TwoBits(lower: nat, d: nat, s: nat, rest: nat, word: nat)
    requires lower < d && s < 4 && word == lower + d * (s + 4 * rest)
    ensures word / d % 4 == s
  {
    var q := s + 4 * rest;
    assert q * d == d * q;
    DivModUnique(q, lower, d);
    DivModUnique(rest, s, 4);
  }

  /** Every port is read from its own two bits, whatever the other bits are. */
  lemma StatusOfPort(low: nat, st: seq<nat>, p: Port)
    requires low < 0x100 && |st| == 4 && forall i :: 0 <= i < 4 ==> st[i] < 4
    ensures PortStatus(StatusWord(low, st), p) == st[p as int]
  {
    var word, a, b, c, d := StatusWord(low, st), st[0], st[1], st[2], st[3];
    match p
    case 0 => TwoBits(low, 0x100, a, b + 4 * (c + 4 * d), word);
    case 1 => TwoBits(low + 0x100 * a, 0x400, b, c + 4 * d, word);
    case 2 => TwoBits(low + 0x100 * a + 0x400 * b, 0x1000, c, d, word);
    case 3 => TwoBits(low + 0x100 * a + 0x400 * b + 0x1000 * c, 0x4000, d, 0, word);
  }

  function OpenPorts(dlstat: nat): set<Port> {
    set p | p in ALL_PORTS && PortStatus(dlstat, p) == 2
  }

  /** The link count that the scan stores: 0 when the status could not be read. */
  function LinkCount(dlstat: Option<nat>): nat {
    if dlstat.None? then 0 else |OpenPorts(dlstat.value)|
  }

  function LinkCounts(dlstat: seq<Option<nat>>): (links: seq<nat>)
    ensures |links| == |dlstat|
  {
    seq(|dlstat|, i requires 0 <= i < |dlstat| => LinkCount(dlstat[i]))
  }

  /** What the scan stores for one slave, given the status words of all slaves. */
  function ScannedSlave(was: Slave, dlstat: seq<Option<nat>>, i: nat): Slave
    requires i < |dlstat|
  {
    match dlstat[i]
    case None => Slave(0, {}, was.parent)
    case Some(status) => Slave(|OpenPorts(status)|, OpenPorts(status), ScanParent(LinkCounts(dlstat), i))
  }

  /** The inner loop: search backwards for the slave that `slave` is wired to. */
  method SearchParent(slaves: array<Slave>, slave: nat, ghost links: seq<nat>) returns (parent: int)
    requires slave <= slaves.Length && slave <= |links|
    requires forall j :: 0 <= j < slave ==> slaves[j].linkCnt == links[j]
    ensures parent == ScanParent(links, slave)
  {
    parent := -1;
    if slave >= 1 {
      var topology := 0;
      var tmpSlave: int := slave - 1;
      while tmpSlave >= 0
        invariant -1 <= tmpSlave < slave
        invariant tmpSlave == -1 ==> parent == ScanFrom(links, slave - 1, 0).parent
        invariant tmpSlave >= 0 ==>
          ScanFrom(links, tmpSlave, topology) == ScanFrom(links, slave - 1, 0)
      {
        match slaves[tmpSlave].linkCnt {
          case 1 => topology := topology - 1;
          case 3 => topology := topology + 1;
          case 4 => topology := topology + 2;
          case _ =>
        }
        if (topology >= 0 && slaves[tmpSlave].linkCnt > 1) || tmpSlave == 0 {
          parent := tmpSlave;
          break;
        }
        tmpSlave := tmpSlave - 1;
      }
    }
  }

  /** The open ports among the first `n`. */
  function OpenAmong(dlstat: nat, n: nat): set<Port>
    requires n <= 4
  {
    if n == 0 then {}
    else OpenAmong(dlstat, n - 1) + if PortStatus(dlstat, (n - 1) as Port) == 2 then {(n - 1) as Port} else {}
  }

  lemma {:induction false} OpenAmongMembers(dlstat: nat, n: nat)
    requires n <= 4
    ensures forall p :: p in OpenAmong(dlstat, n) <==> (p as int) < n && PortStatus(dlstat, p) == 2
  {
    if n > 0 {
      OpenAmongMembers(dlstat, n - 1);
    }
  }

  /** One port more. */
  lemma NextOpen(dlstat: nat, n: nat)
    requires n < 4
    ensures
      var open := PortStatus(dlstat, n as Port) == 2;
      && OpenAmong(dlstat, n + 1) == OpenAmong(dlstat, n) + (if open then {n as Port} else {})
      && |OpenAmong(dlstat, n + 1)| == |OpenAmong(dlstat, n)| + if open then 1 else 0
  {
    OpenAmongMembers(dlstat, n);
  }

  lemma AllOpen(dlstat: nat)
    ensures OpenAmong(dlstat, 4) == OpenPorts(dlstat)
  {
    OpenAmongMembers(dlstat, 4);
  }

  /** A port is open in state 2 and in no other one, whatever the low byte says. */
  lemma OpenByStatus(low: nat, st: seq<nat>, word: nat)
    requires low < 0x100 && |st| == 4 && forall i :: 0 <= i < 4 ==> st[i] < 4
    requires word == StatusWord(low, st)
    ensures forall p :: p in OpenPorts(word) <==> st[p as int] == 2
    ensures |OpenPorts(word)| == (if st[0] == 2 then 1 else 0) + (if st[1] == 2 then 1 else 0)
      + (if st[2] == 2 then 1 else 0) + (if st[3] == 2 then 1 else 0)
  {
    forall p: Port ensures PortStatus(word, p) == st[p as int] {
      StatusOfPort(low, st, p);
    }
    OpenAmongMembers(word, 4);
    AllOpen(word);
    assert |OpenAmong(word, 0)| == 0;
    NextOpen(word, 0);
    NextOpen(word, 1);
    NextOpen(word, 2);
    NextOpen(word, 3);
  }

  /** Count the links of one slave. */
  method CountLinks(dlstat: nat) returns (linkCnt: nat, activePorts: set<Port>)
    ensures activePorts == OpenPorts(dlstat) && linkCnt == |OpenPorts(dlstat)|
  {
    linkCnt, activePorts := 0, {};
    var port := 0;
    while port < 4
      invariant 0 <= port <= 4
      invariant activePorts == OpenAmong(dlstat, port)
      invariant linkCnt == |OpenAmong(dlstat, port)|
    {
      NextOpen(dlstat, port);
      if PortStatus(dlstat, port as Port) == 2 {
        linkCnt := linkCnt + 1;
        activePorts := activePorts + {port as Port};
      }
      port := port + 1;
    }
    AllOpen(dlstat);
  }

  /** The scan of one slave. */
  method ScanSlave(dlstat: seq<Option<nat>>, slaves: array<Slave>, slave: nat) returns (s: Slave)
    requires slave < |dlstat| == slaves.Length
    requires forall j :: 0 <= j < slave ==> slaves[j].linkCnt == LinkCount(dlstat[j])
    ensures s == ScannedSlave(slaves[slave], dlstat, slave)
    ensures dlstat[slave].None? ==> s.linkCnt == 0 && s.activePorts == {} && s.parent == slaves[slave].parent
    ensures dlstat[slave].Some? ==> s.activePorts == OpenPorts(dlstat[slave].value) && s.linkCnt == |s.activePorts|
    ensures dlstat[slave].Some? ==> s.parent == ScanParent(LinkCounts(dlstat), slave)
  {
    s := slaves[slave].(linkCnt := 0, activePorts := {});
    if dlstat[slave].Some? {
      var linkCnt, activePorts := CountLinks(dlstat[slave].value);
      var parent := SearchParent(slaves, slave, LinkCounts(dlstat));
      s := Slave(linkCnt, activePorts, parent);
    }
  }

  /** The scan over all slaves. */
  method ScanSlaves(dlstat: seq<Option<nat>>, slaves: array<Slave>)
    requires |dlstat| == slaves.Length
    modifies slaves
    ensures forall i :: 0 <= i < slaves.Length ==> slaves[i] == ScannedSlave(old(slaves[i]), dlstat, i)
  {
    for slave := 0 to slaves.Length
      invariant forall i :: 0 <= i < slave ==> slaves[i] == ScannedSlave(old(slaves[i]), dlstat, i)
      invariant forall i :: slave <= i < slaves.Length ==> slaves[i] == old(slaves[i])
    {
      var s := ScanSlave(dlstat, slaves, slave);
      slaves[slave] := s;
    }
  }

  /** Main theorem for the whole scan: if every slave of a tree answers and reports one open
      port per link, the scan stores exactly the tree. */
  lemma ScanRebuildsTree(t: Tree, was: seq<Slave>, dlstat: seq<Option<nat>>, i: nat)
    requires Fits(t)
    requires i < |dlstat| == |was|
    requires forall j :: 0 <= j < |dlstat| ==> dlstat[j].Some?
    requires LinkCounts(dlstat) == Links(t)
    ensures ScannedSlave(was[i], dlstat, i).parent == Parents(t, 0, -1)[i]
    ensures ScannedSlave(was[i], dlstat, i).linkCnt == Links(t)[i]
    ensures |ScannedSlave(was[i], dlstat, i).activePorts| == Links(t)[i]
  {
    ScanIsExact(t, i);
    assert LinkCounts(dlstat)[i] == LinkCount(dlstat[i]);
  }
}
