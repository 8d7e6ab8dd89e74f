/** Proboscidea volcanium: valves joined by tunnels, shortest tunnel
    distances by Floyd–Warshall, then a search over the order in which
    valves with a positive flow rate are opened, keeping the best pressure
    released for each set of opened valves. */
module Day16 {
  import opened Common

  /** The number of valve names of two letters: the size of the distance grid. */
  const NUM_VALVES: nat := 26 * 26
  /** The distance between two valves with no tunnel between them. */
  const NO_TUNNEL: int := 10000

  // ---------------------------------------------------------------------
  // Walks through the tunnels.

  /** The tunnels out of each valve, by index. */
  type Graph = seq<seq<nat>>

  /** The initial distance: 1 along a tunnel, `NO_TUNNEL` otherwise. */
  function Weight(graph: Graph, v: nat, l: nat): (r: int)
    requires v < |graph|
    ensures r >= 1
  {
    if l in graph[v] then 1 else NO_TUNNEL
  }

  /** A walk: at least two valves, every one of them a valve of the graph. */
  predicate IsWalk(graph: Graph, p: seq<nat>)
  {
    |p| >= 2 && forall t | 0 <= t < |p| :: p[t] < |graph|
  }

  function Last(p: seq<nat>): nat
    requires p != []
  {
    p[|p| - 1]
  }

  /** The length of a walk: the sum of the initial distances along it. */
  function Len(graph: Graph, p: seq<nat>): (r: int)
    requires forall t | 0 <= t < |p| :: p[t] < |graph|
    ensures |p| >= 2 ==> r >= 1
    ensures |p| < 2 ==> r == 0
  {
    if |p| < 2 then 0
    else Len(graph, p[..|p| - 1]) + Weight(graph, p[|p| - 2], p[|p| - 1])
  }

  /** Every valve strictly inside the walk is below `k`. */
  predicate InternalBelow(p: seq<nat>, k: nat)
  {
    forall t | 0 < t < |p| - 1 :: p[t] < k
  }

  /** A walk splits at any of its valves into two walks whose lengths add up. */
  lemma {:induction false} LenSplit(graph: Graph, p: seq<nat>, m: nat)
    requires forall t | 0 <= t < |p| :: p[t] < |graph|
    requires m < |p|
    ensures Len(graph, p) == Len(graph, p[..m + 1]) + Len(graph, p[m..])
  {
    var n := |p|;
    if m == n - 1 {
      assert p[..m + 1] == p;
    } else {
      var q, r := p[..n - 1], p[m..];
      LenSplit(graph, q, m);
      assert q[..m + 1] == p[..m + 1];
      assert r[..|r| - 1] == q[m..];
      assert r[|r| - 2] == p[n - 2] && r[|r| - 1] == p[n - 1];
    }
  }

  /** Two walks that meet join into a walk whose length is the sum. */
  lemma LenJoin(graph: Graph, p: seq<nat>, q: seq<nat>)
    requires IsWalk(graph, p) && IsWalk(graph, q) && Last(p) == q[0]
    ensures IsWalk(graph, p + q[1..])
    ensures Len(graph, p + q[1..]) == Len(graph, p) + Len(graph, q)
  {
    var r := p + q[1..];
    LenSplit(graph, r, |p| - 1);
    assert r[..|p|] == p;
    assert r[|p| - 1..] == q;
  }

  /** The first visit of `k` inside a walk that passes through it. */
  lemma FirstVisit(graph: Graph, p: seq<nat>, k: nat) returns (a: nat)
    requires IsWalk(graph, p) && InternalBelow(p, k + 1) && !InternalBelow(p, k)
    ensures 0 < a < |p| - 1 && p[a] == k
    ensures IsWalk(graph, p[..a + 1]) && InternalBelow(p[..a + 1], k)
  {
    a := 1;
    while p[a] != k
      invariant 0 < a < |p| - 1
      invariant forall t | 0 < t < a :: p[t] < k
      decreases |p| - a
    {
      a := a + 1;
      if a == |p| - 1 {
        assert InternalBelow(p, k);
        assert false;
      }
    }
  }

  /** The last visit of `k` inside a walk, at or after the visit `a`. */
  lemma LastVisit(graph: Graph, p: seq<nat>, k: nat, a: nat) returns (b: nat)
    requires IsWalk(graph, p) && InternalBelow(p, k + 1)
    requires 0 < a < |p| - 1 && p[a] == k
    ensures a <= b < |p| - 1 && p[b] == k
    ensures IsWalk(graph, p[b..]) && InternalBelow(p[b..], k)
  {
    b := |p| - 2;
    while p[b] != k
      invariant a <= b < |p| - 1
      invariant forall t | b < t < |p| - 1 :: p[t] < k
      decreases b
    {
      b := b - 1;
    }
  }

  /** A walk with a valve visited at `a` and at `b` is at least as long as
      its part before `a` and its part after `b` together. */
  lemma DropLoop(graph: Graph, p: seq<nat>, a: nat, b: nat)
    requires IsWalk(graph, p) && a <= b < |p|
    ensures Len(graph, p) >= Len(graph, p[..a + 1]) + Len(graph, p[b..])
  {
    LenSplit(graph, p, a);
    LenSplit(graph, p[a..], b - a);
    assert p[a..][b - a..] == p[b..];
  }

  /** A walk through `k` is at least as long as its part up to the first
      visit of `k` and its part from the last visit, and neither of those
      passes through `k`. */
  lemma ThroughK(graph: Graph, p: seq<nat>, k: nat) returns (a: nat, b: nat)
    requires IsWalk(graph, p) && InternalBelow(p, k + 1) && !InternalBelow(p, k)
    ensures 0 < a <= b < |p| - 1
    ensures IsWalk(graph, p[..a + 1]) && InternalBelow(p[..a + 1], k) && p[..a + 1][0] == p[0] && Last(p[..a + 1]) == k
    ensures IsWalk(graph, p[b..]) && InternalBelow(p[b..], k) && p[b..][0] == k && Last(p[b..]) == Last(p)
    ensures Len(graph, p) >= Len(graph, p[..a + 1]) + Len(graph, p[b..])
  {
    a := FirstVisit(graph, p, k);
    b := LastVisit(graph, p, k, a);
    DropLoop(graph, p, a, b);
  }

  // ---------------------------------------------------------------------
  // Floyd–Warshall on the distance grid.

  /** The distance grid's top-left `n`×`n` corner. */
  function Snap(d: array2<int>, n: nat): (r: seq<seq<int>>)
    requires n <= d.Length0 && n <= d.Length1
    reads d
    ensures |r| == n && forall i | 0 <= i < n :: |r[i]| == n
    ensures forall i, j | 0 <= i < n && 0 <= j < n :: r[i][j] == d[i, j]
  {
    seq(n, i requires 0 <= i < n reads d => seq(n, j requires 0 <= j < n reads d => d[i, j]))
  }

  /** The grid before the triple loop. */
  function Initial(graph: Graph): (r: seq<seq<int>>)
    ensures |r| == |graph| && forall i | 0 <= i < |graph| :: |r[i]| == |graph|
    ensures forall i, j | 0 <= i < |graph| && 0 <= j < |graph| :: r[i][j] == Weight(graph, i, j)
  {
    seq(|graph|, v requires 0 <= v < |graph| => seq(|graph|, l requires 0 <= l < |graph| => Weight(graph, v, l)))
  }

  predicate Square(graph: Graph, D: seq<seq<int>>)
  {
    |D| == |graph| && forall i | 0 <= i < |graph| :: |D[i]| == |graph|
  }

  /** The entry for a walk's two ends is no longer than the walk. */
  predicate Bounded(graph: Graph, D: seq<seq<int>>, p: seq<nat>)
    requires Square(graph, D) && IsWalk(graph, p)
  {
    D[p[0]][Last(p)] <= Len(graph, p)
  }

  /** The entry for `(i, j)` is the length of the walk `wit[(i, j)]` from
      `i` to `j`, and is no more than the initial distance. */
  predicate WitnessFor(graph: Graph, D: seq<seq<int>>, wit: map<(nat, nat), seq<nat>>, i: nat, j: nat)
    requires Square(graph, D) && i < |graph| && j < |graph|
  {
    (i, j) in wit && IsWalk(graph, wit[(i, j)]) && wit[(i, j)][0] == i && Last(wit[(i, j)]) == j &&
    Len(graph, wit[(i, j)]) == D[i][j] && D[i][j] <= Weight(graph, i, j)
  }

  ghost predicate Witnessed(graph: Graph, D: seq<seq<int>>, wit: map<(nat, nat), seq<nat>>)
    requires Square(graph, D)
  {
    forall i: nat, j: nat | i < |graph| && j < |graph| :: WitnessFor(graph, D, wit, i, j)
  }

  /** Walks whose inner valves are all below `k` are no shorter than their entry. */
  ghost predicate BoundedBelow(graph: Graph, D: seq<seq<int>>, k: nat)
    requires Square(graph, D)
  {
    forall p | IsWalk(graph, p) && InternalBelow(p, k) :: Bounded(graph, D, p)
  }

  /** The pair `(a, b)` comes before `(i, j)` in the loops' order. */
  predicate Done(a: nat, b: nat, i: nat, j: nat)
  {
    a < i || (a == i && b < j)
  }

  /** Walks with inner valves up to `k` whose ends come before `(i, j)`
      are no shorter than their entry. */
  ghost predicate BoundedDone(graph: Graph, D: seq<seq<int>>, k: nat, i: nat, j: nat)
    requires Square(graph, D)
  {
    forall p | IsWalk(graph, p) && InternalBelow(p, k + 1) && Done(p[0], Last(p), i, j) :: Bounded(graph, D, p)
  }

  /** Floyd–Warshall's invariant inside round `k`, before pair `(i, j)`. */
  ghost predicate Partial(graph: Graph, D: seq<seq<int>>, wit: map<(nat, nat), seq<nat>>, k: nat, i: nat, j: nat)
  {
    Square(graph, D) && Witnessed(graph, D, wit) && BoundedBelow(graph, D, k) && BoundedDone(graph, D, k, i, j)
  }

  /** The relaxed value of `(i, j)` through `k`. */
  function Relaxed(D: seq<seq<int>>, k: nat, i: nat, j: nat): (r: seq<seq<int>>)
    requires k < |D| && i < |D| && j < |D[i]| && k < |D[i]| && j < |D[k]|
    ensures |r| == |D| && forall a | 0 <= a < |D| :: |r[a]| == |D[a]|
    ensures r[i][j] <= D[i][j] && r[i][j] <= D[i][k] + D[k][j]
    ensures forall a, b | 0 <= a < |D| && 0 <= b < |D[a]| && (a, b) != (i, j) :: r[a][b] == D[a][b]
  {
    D[i := D[i][j := if D[i][j] < D[i][k] + D[k][j] then D[i][j] else D[i][k] + D[k][j]]]
  }

  /** Relaxing keeps a witness walk for every entry. */
  lemma WitnessStep(graph: Graph, D: seq<seq<int>>, wit: map<(nat, nat), seq<nat>>, k: nat, i: nat, j: nat)
    returns (wit': map<(nat, nat), seq<nat>>)
    requires k < |graph| && i < |graph| && j < |graph|
    requires Square(graph, D) && Witnessed(graph, D, wit)
    ensures Square(graph, Relaxed(D, k, i, j)) && Witnessed(graph, Relaxed(D, k, i, j), wit')
  {
    var D' := Relaxed(D, k, i, j);
    assert WitnessFor(graph, D, wit, i, j);
    if D'[i][j] == D[i][j] {
      wit' := wit;
    } else {
      assert WitnessFor(graph, D, wit, i, k) && WitnessFor(graph, D, wit, k, j);
      LenJoin(graph, wit[(i, k)], wit[(k, j)]);
      wit' := wit[(i, j) := wit[(i, k)] + wit[(k, j)][1..]];
    }
    forall a: nat, b: nat | a < |graph| && b < |graph|
      ensures WitnessFor(graph, D', wit', a, b)
    {
      assert WitnessFor(graph, D, wit, a, b);
    }
  }

  /** Entries only go down, so walks stay bounded. */
  lemma BoundedBelowStep(graph: Graph, D: seq<seq<int>>, k: nat, i: nat, j: nat)
    requires k < |graph| && i < |graph| && j < |graph|
    requires Square(graph, D) && BoundedBelow(graph, D, k)
    ensures Square(graph, Relaxed(D, k, i, j)) && BoundedBelow(graph, Relaxed(D, k, i, j), k)
  {
    var D' := Relaxed(D, k, i, j);
    forall p | IsWalk(graph, p) && InternalBelow(p, k)
      ensures Bounded(graph, D', p)
    {
      assert Bounded(graph, D, p);
    }
  }

  /** After relaxing `(i, j)`, every walk from `i` to `j` through valves up
      to `k` is bounded. */
  lemma BoundedDoneStep(graph: Graph, D: seq<seq<int>>, k: nat, i: nat, j: nat)
    requires k < |graph| && i < |graph| && j < |graph|
    requires Square(graph, D) && BoundedBelow(graph, D, k) && BoundedDone(graph, D, k, i, j)
    ensures Square(graph, Relaxed(D, k, i, j)) && BoundedDone(graph, Relaxed(D, k, i, j), k, i, j + 1)
  {
    var D' := Relaxed(D, k, i, j);
    forall p | IsWalk(graph, p) && InternalBelow(p, k + 1) && Done(p[0], Last(p), i, j + 1)
      ensures Bounded(graph, D', p)
    {
      if p[0] == i && Last(p) == j {
        if InternalBelow(p, k) {
          assert Bounded(graph, D, p);
        } else {
          var a, b := ThroughK(graph, p, k);
          assert Bounded(graph, D, p[..a + 1]);
          assert Bounded(graph, D, p[b..]);
        }
      } else {
        assert Bounded(graph, D, p);
      }
    }
  }

  /** One relaxation keeps the invariant and moves past `(i, j)`. */
  lemma RelaxStep(graph: Graph, D: seq<seq<int>>, wit: map<(nat, nat), seq<nat>>, k: nat, i: nat, j: nat)
    returns (wit': map<(nat, nat), seq<nat>>)
    requires k < |graph| && i < |graph| && j < |graph|
    requires Partial(graph, D, wit, k, i, j)
    ensures Partial(graph, Relaxed(D, k, i, j), wit', k, i, j + 1)
  {
    wit' := WitnessStep(graph, D, wit, k, i, j);
    BoundedBelowStep(graph, D, k, i, j);
    BoundedDoneStep(graph, D, k, i, j);
  }

  /** The end of a row moves to the start of the next. */
  lemma NextRow(graph: Graph, D: seq<seq<int>>, wit: map<(nat, nat), seq<nat>>, k: nat, i: nat)
    requires Partial(graph, D, wit, k, i, |graph|)
    ensures Partial(graph, D, wit, k, i + 1, 0)
  {
    forall p | IsWalk(graph, p) && InternalBelow(p, k + 1) && Done(p[0], Last(p), i + 1, 0)
      ensures Bounded(graph, D, p)
    {
      assert Done(p[0], Last(p), i, |graph|);
    }
  }

  /** The end of round `k` is the start of round `k + 1`. */
  lemma NextRound(graph: Graph, D: seq<seq<int>>, wit: map<(nat, nat), seq<nat>>, k: nat)
    requires Partial(graph, D, wit, k, |graph|, 0)
    ensures Partial(graph, D, wit, k + 1, 0, 0)
  {
    forall p | IsWalk(graph, p) && InternalBelow(p, k + 1)
      ensures Bounded(graph, D, p)
    {
      assert Done(p[0], Last(p), |graph|, 0);
    }
  }

  /** Before the first round only single tunnels count, and each is its own witness. */
  lemma FirstRound(graph: Graph) returns (wit: map<(nat, nat), seq<nat>>)
    ensures Partial(graph, Initial(graph), wit, 0, 0, 0)
  {
    var n := |graph|;
    var D := Initial(graph);
    wit := map a: nat, b: nat | a < n && b < n :: (a, b) := [a, b];
    forall a: nat, b: nat | a < n && b < n
      ensures WitnessFor(graph, D, wit, a, b)
    {
      assert wit[(a, b)] == [a, b];
    }
    forall p | IsWalk(graph, p) && InternalBelow(p, 0)
      ensures Bounded(graph, D, p)
    {
      assert p == [p[0], p[1]];
    }
  }

  /** The shortest-distance property the triple loop establishes: every
      entry is the length of a walk and no walk is shorter than its entry. */
  ghost predicate Shortest(graph: Graph, D: seq<seq<int>>, wit: map<(nat, nat), seq<nat>>)
  {
    Square(graph, D) && Witnessed(graph, D, wit) &&
    forall p | IsWalk(graph, p) :: Bounded(graph, D, p)
  }

  lemma LastRound(graph: Graph, D: seq<seq<int>>, wit: map<(nat, nat), seq<nat>>)
    requires Partial(graph, D, wit, |graph|, 0, 0)
    ensures Shortest(graph, D, wit)
  {
    forall p | IsWalk(graph, p)
      ensures Bounded(graph, D, p)
    {
      assert InternalBelow(p, |graph|);
    }
  }

  /** `dists[i][j] := value` */
  method SetEntry(d: array2<int>, n: nat, i: nat, j: nat, x: int)
    requires n <= d.Length0 && n <= d.Length1 && i < n && j < n
    modifies d
    ensures Snap(d, n) == old(Snap(d, n))[i := old(Snap(d, n))[i][j := x]]
  {
    ghost var before := Snap(d, n);
    d[i, j] := x;
    assert forall a | 0 <= a < n :: Snap(d, n)[a] == before[i := before[i][j := x]][a];
  }

  /** The loop over `j`: row `i` relaxed through `k`. */
  method RelaxRow(graph: Graph, d: array2<int>, k: nat, i: nat, ghost wit0: map<(nat, nat), seq<nat>>)
    returns (ghost wit: map<(nat, nat), seq<nat>>)
    requires |graph| <= d.Length0 && |graph| <= d.Length1 && k < |graph| && i < |graph|
    requires Partial(graph, Snap(d, |graph|), wit0, k, i, 0)
    modifies d
    ensures Partial(graph, Snap(d, |graph|), wit, k, i + 1, 0)
  {
    var n := |graph|;
    wit := wit0;
    for j := 0 to n
      invariant Partial(graph, Snap(d, n), wit, k, i, j)
    {
      var distIJ := d[i, j];
      var distIK := d[i, k];
      var distKJ := d[k, j];
      wit := RelaxStep(graph, Snap(d, n), wit, k, i, j);
      SetEntry(d, n, i, j, if distIJ < distIK + distKJ then distIJ else distIK + distKJ);
    }
    NextRow(graph, Snap(d, n), wit, k, i);
  }

  /** The loop over `i`: every row relaxed through `k`. */
  method RelaxRound(graph: Graph, d: array2<int>, k: nat, ghost wit0: map<(nat, nat), seq<nat>>)
    returns (ghost wit: map<(nat, nat), seq<nat>>)
    requires |graph| <= d.Length0 && |graph| <= d.Length1 && k < |graph|
    requires Partial(graph, Snap(d, |graph|), wit0, k, 0, 0)
    modifies d
    ensures Partial(graph, Snap(d, |graph|), wit, k + 1, 0, 0)
  {
    var n := |graph|;
    wit := wit0;
    for i := 0 to n
      invariant Partial(graph, Snap(d, n), wit, k, i, 0)
    {
      wit := RelaxRow(graph, d, k, i, wit);
    }
    NextRound(graph, Snap(d, n), wit, k);
  }

  /** The triple loop over `k`, `i`, `j`, relaxing every entry through `k`. */
  method FloydWarshall(graph: Graph, d: array2<int>) returns (ghost wit: map<(nat, nat), seq<nat>>)
    requires |graph| <= d.Length0 && |graph| <= d.Length1
    requires Snap(d, |graph|) == Initial(graph)
    modifies d
    ensures Shortest(graph, Snap(d, |graph|), wit)
  {
    var n := |graph|;
    wit := FirstRound(graph);
    for k := 0 to n
      invariant Partial(graph, Snap(d, n), wit, k, 0, 0)
    {
      wit := RelaxRound(graph, d, k, wit);
    }
    LastRound(graph, Snap(d, n), wit);
  }

  /** After the triple loop the distances obey the triangle inequality. */
  lemma Triangle(graph: Graph, D: seq<seq<int>>, wit: map<(nat, nat), seq<nat>>, i: nat, k: nat, j: nat)
    requires Shortest(graph, D, wit) && i < |graph| && k < |graph| && j < |graph|
    ensures D[i][j] <= D[i][k] + D[k][j]
  {
    assert WitnessFor(graph, D, wit, i, k) && WitnessFor(graph, D, wit, k, j);
    LenJoin(graph, wit[(i, k)], wit[(k, j)]);
    assert Bounded(graph, D, wit[(i, k)] + wit[(k, j)][1..]);
  }

  /** ... and every distance is at least one. */
  lemma DistancesPositive(graph: Graph, D: seq<seq<int>>, wit: map<(nat, nat), seq<nat>>, i: nat, j: nat)
    requires Shortest(graph, D, wit) && i < |graph| && j < |graph|
    ensures 1 <= D[i][j] <= Weight(graph, i, j)
  {
    assert WitnessFor(graph, D, wit, i, j);
  }

  // ---------------------------------------------------------------------
  // Numbering the valves.

  /** One line of the scan: a valve's name, its flow rate as written, and
      the names of the valves its tunnels lead to. */
  datatype Valve = Valve(name: string, rate: string, leadsTo: seq<string>)

  /** What the first loop collects: each name's number (the last line with
      that name wins), the number of the start valve "AA", and the flow
      rate of every valve with a positive one. */
  datatype Setup = Setup(valveMap: map<string, nat>, start: nat, flows: map<nat, int>)

  /** The first loop, line by line; `None` when a flow rate is not a number. */
  function IndexOf(valves: seq<Valve>): (r: Option<Setup>)
    decreases |valves|
  {
    if valves == [] then Some(Setup(map[], 0, map[]))
    else
      var n := |valves| - 1;
      match IndexOf(valves[..n])
      case None => None
      case Some(s) =>
        var v := valves[n];
        match ParseInt(v.rate)
        case None => None
        case Some(fr) =>
          Some(Setup(s.valveMap[v.name := n], if v.name == "AA" then n else s.start,
                     if fr > 0 then s.flows[n := fr] else s.flows))
  }

  /** Every valve's name maps to the last line bearing it. */
  ghost predicate NamesNumbered(valves: seq<Valve>, valveMap: map<string, nat>)
  {
    (forall i | 0 <= i < |valves| :: valves[i].name in valveMap) &&
    forall name | name in valveMap ::
      valveMap[name] < |valves| && valves[valveMap[name]].name == name &&
      forall j | valveMap[name] < j < |valves| :: valves[j].name != name
  }

  /** `flows` holds exactly the positive rates. */
  ghost predicate FlowsNumbered(valves: seq<Valve>, flows: map<nat, int>)
  {
    (forall i | i in flows :: i < |valves| && ParseInt(valves[i].rate) == Some(flows[i]) && flows[i] > 0) &&
    (forall i | 0 <= i < |valves| && ParseInt(valves[i].rate).Some? && ParseInt(valves[i].rate).value > 0 :: i in flows)
  }

  /** The numbering: names by their last line, "AA" as the start (0 when
      there is none), and the positive rates. */
  ghost predicate Numbered(valves: seq<Valve>, s: Setup)
  {
    NamesNumbered(valves, s.valveMap) &&
    ("AA" in s.valveMap ==> s.start == s.valveMap["AA"]) &&
    ("AA" !in s.valveMap ==> s.start == 0) &&
    FlowsNumbered(valves, s.flows)
  }

  lemma NamesStep(valves: seq<Valve>, valveMap: map<string, nat>)
    requires valves != [] && NamesNumbered(valves[..|valves| - 1], valveMap)
    ensures NamesNumbered(valves, valveMap[valves[|valves| - 1].name := |valves| - 1])
  {
    var n := |valves| - 1;
    assert forall i | 0 <= i < n :: valves[..n][i] == valves[i];
  }

  lemma FlowsStep(valves: seq<Valve>, flows: map<nat, int>, fr: int)
    requires valves != [] && FlowsNumbered(valves[..|valves| - 1], flows)
    requires ParseInt(valves[|valves| - 1].rate) == Some(fr)
    ensures FlowsNumbered(valves, if fr > 0 then flows[|valves| - 1 := fr] else flows)
  {
    var n := |valves| - 1;
    assert forall i | 0 <= i < n :: valves[..n][i] == valves[i];
  }

  /** The first loop fails exactly when some flow rate is not a number. */
  lemma {:induction false} IndexDefined(valves: seq<Valve>)
    ensures IndexOf(valves).Some? <==> forall i | 0 <= i < |valves| :: ParseInt(valves[i].rate).Some?
    decreases |valves|
  {
    if valves != [] {
      var n := |valves| - 1;
      IndexDefined(valves[..n]);
      assert forall i | 0 <= i < n :: valves[..n][i] == valves[i];
      if ParseInt(valves[n].rate).None? {
        assert IndexOf(valves).None?;
      }
    }
  }

  /** What the first loop collects is the numbering. */
  lemma {:induction false} IndexFacts(valves: seq<Valve>)
    requires IndexOf(valves).Some?
    ensures Numbered(valves, IndexOf(valves).value)
    decreases |valves|
  {
    if valves != [] {
      var n := |valves| - 1;
      var pre := valves[..n];
      IndexFacts(pre);
      var s := IndexOf(pre).value;
      NamesStep(valves, s.valveMap);
      FlowsStep(valves, s.flows, ParseInt(valves[n].rate).value);
    }
  }

  /** The first loop, as the source writes it. */
  method Index(valves: seq<Valve>) returns (r: Option<Setup>)
    ensures r == IndexOf(valves)
  {
    var valveMap: map<string, nat> := map[];
    var start: nat := 0;
    var flows: map<nat, int> := map[];
    for idx := 0 to |valves|
      invariant IndexOf(valves[..idx]) == Some(Setup(valveMap, start, flows))
    {
      assert valves[..idx + 1][..idx] == valves[..idx];
      var v := valves[idx];
      valveMap := valveMap[v.name := idx];
      if v.name == "AA" {
        start := idx;
      }
      var fr := ParseInt(v.rate);
      if fr.None? {
        IndexOfFailsLater(valves, idx + 1);
        return None;
      }
      if fr.value > 0 {
        flows := flows[idx := fr.value];
      }
    }
    assert valves[..|valves|] == valves;
    r := Some(Setup(valveMap, start, flows));
  }

  /** A prefix that fails to index makes every longer prefix fail. */
  lemma {:induction false} IndexOfFailsLater(valves: seq<Valve>, k: nat)
    requires k <= |valves| && IndexOf(valves[..k]).None?
    ensures IndexOf(valves).None?
    decreases |valves| - k
  {
    if k < |valves| {
      var next := valves[..k + 1];
      assert next[..|next| - 1] == valves[..k];
      assert IndexOf(next).None?;
      IndexOfFailsLater(valves, k + 1);
    } else {
      assert valves[..k] == valves;
    }
  }

  /** The numbers of the valves named in `names`; `None` when one is unknown. */
  function Resolve(valveMap: map<string, nat>, names: seq<string>): (r: Option<seq<nat>>)
    ensures r.Some? <==> forall t | 0 <= t < |names| :: names[t] in valveMap
    ensures r.Some? ==> |r.value| == |names| && forall t | 0 <= t < |names| :: r.value[t] == valveMap[names[t]]
  {
    if names == [] then Some([])
    else
      match Resolve(valveMap, names[..|names| - 1])
      case None => None
      case Some(pre) =>
        if names[|names| - 1] in valveMap then Some(pre + [valveMap[names[|names| - 1]]]) else None
  }

  /** The graph: each valve's tunnels, by number. */
  function GraphOf(valveMap: map<string, nat>, valves: seq<Valve>): (r: Option<Graph>)
    ensures r.Some? <==> forall i | 0 <= i < |valves| :: Resolve(valveMap, valves[i].leadsTo).Some?
    ensures r.Some? ==> (|r.value| == |valves| &&
      forall i | 0 <= i < |valves| :: r.value[i] == Resolve(valveMap, valves[i].leadsTo).value)
  {
    if valves == [] then Some([])
    else
      var n := |valves| - 1;
      assert forall i | 0 <= i < n :: valves[..n][i] == valves[i];
      match GraphOf(valveMap, valves[..n])
      case None => None
      case Some(pre) =>
        match Resolve(valveMap, valves[n].leadsTo)
        case None => None
        case Some(row) => Some(pre + [row])
  }

  /** The loop building the graph once every valve has its number. */
  method BuildGraph(valveMap: map<string, nat>, valves: seq<Valve>) returns (r: Option<Graph>)
    ensures r == GraphOf(valveMap, valves)
  {
    var graph: Graph := [];
    for i := 0 to |valves|
      invariant GraphOf(valveMap, valves[..i]) == Some(graph)
    {
      ghost var next := valves[..i + 1];
      assert next[..|next| - 1] == valves[..i] && next[|next| - 1] == valves[i];
      var row := Resolve(valveMap, valves[i].leadsTo);
      if row.None? {
        GraphOfFailsLater(valveMap, valves, i + 1);
        return None;
      }
      graph := graph + [row.value];
    }
    assert valves[..|valves|] == valves;
    r := Some(graph);
  }

  lemma GraphOfFailsLater(valveMap: map<string, nat>, valves: seq<Valve>, k: nat)
    requires k <= |valves| && GraphOf(valveMap, valves[..k]).None?
    ensures GraphOf(valveMap, valves).None?
    decreases |valves| - k
  {
    if k < |valves| {
      assert valves[..k + 1][..k] == valves[..k];
      GraphOfFailsLater(valveMap, valves, k + 1);
    } else {
      assert valves[..k] == valves;
    }
  }

  /** The distance grid before the triple loop: `None` when there are more
      valves than the grid has rows. */
  method InitialDistances(graph: Graph) returns (r: Option<array2<int>>)
    ensures r.None? <==> |graph| > NUM_VALVES
    ensures r.Some? ==> fresh(r.value) && r.value.Length0 == NUM_VALVES && r.value.Length1 == NUM_VALVES
    ensures r.Some? ==> Snap(r.value, |graph|) == Initial(graph)
  {
    var n := |graph|;
    if n > NUM_VALVES {
      return None;
    }
    var d := new int[NUM_VALVES, NUM_VALVES]((_, _) => 0);
    for v := 0 to n
      invariant forall a, b | 0 <= a < v && 0 <= b < n :: d[a, b] == Weight(graph, a, b)
    {
      for l := 0 to n
        invariant forall a, b | 0 <= a < v && 0 <= b < n :: d[a, b] == Weight(graph, a, b)
        invariant forall b | 0 <= b < l :: d[v, b] == Weight(graph, v, b)
      {
        if l in graph[v] {
          d[v, l] := 1;
        } else {
          d[v, l] := NO_TUNNEL;
        }
      }
    }
    assert forall a | 0 <= a < n :: Snap(d, n)[a] == Initial(graph)[a];
    r := Some(d);
  }

  /** Shortest distances are unique: two grids with the property agree. */
  lemma ShortestUnique(graph: Graph, D1: seq<seq<int>>, wit1: map<(nat, nat), seq<nat>>,
                       D2: seq<seq<int>>, wit2: map<(nat, nat), seq<nat>>)
    requires Shortest(graph, D1, wit1) && Shortest(graph, D2, wit2)
    ensures D1 == D2
  {
    forall i | 0 <= i < |graph|
      ensures D1[i] == D2[i]
    {
      forall j | 0 <= j < |graph|
        ensures D1[i][j] == D2[i][j]
      {
        assert WitnessFor(graph, D1, wit1, i, j) && WitnessFor(graph, D2, wit2, i, j);
        assert Bounded(graph, D1, wit2[(i, j)]) && Bounded(graph, D2, wit1[(i, j)]);
      }
    }
  }

  // ---------------------------------------------------------------------
  // The search over opening orders.

  /** A set of opened valves; valve `i` stands for the bit `1 << i`, so
      `bitmask & i == 0` is `i !in mask` and `bitmask | i` is `mask + {i}`. */
  type Mask = set<nat>

  /** Best pressure found for each set of opened valves. */
  type Answers = map<Mask, int>

  function Max(a: int, b: int): (m: int)
    ensures m >= a && m >= b && (m == a || m == b)
  {
    if a >= b then a else b
  }

  /** Two answer maps combined, keeping the larger pressure per mask. */
  function Merge(a: Answers, b: Answers): Answers
  {
    map k | k in a.Keys + b.Keys :: if k in a && k in b then Max(a[k], b[k]) else if k in a then a[k] else b[k]
  }

  /** Merging keeps every mask of both maps, never lowers a stored
      pressure, and takes each value from one of the two. */
  lemma MergeFacts(a: Answers, b: Answers)
    ensures Merge(a, b).Keys == a.Keys + b.Keys
    ensures forall k | k in a :: Merge(a, b)[k] >= a[k]
    ensures forall k | k in b :: Merge(a, b)[k] >= b[k]
    ensures forall k | k in Merge(a, b) :: (k in a && Merge(a, b)[k] == a[k]) || (k in b && Merge(a, b)[k] == b[k])
  {
  }

  lemma MergeEmpty(a: Answers)
    ensures Merge(a, map[]) == a && Merge(map[], a) == a
  {
    assert Merge(a, map[]).Keys == a.Keys;
    assert Merge(map[], a).Keys == a.Keys;
  }

  lemma MergeCommutes(a: Answers, b: Answers)
    ensures Merge(a, b) == Merge(b, a)
  {
  }

  lemma MergeAssociates(a: Answers, b: Answers, c: Answers)
    ensures Merge(Merge(a, b), c) == Merge(a, Merge(b, c))
  {
  }

  /** The distances cover the current valve and every valve with a flow. */
  predicate Fits(D: seq<seq<int>>, flows: map<nat, int>, valve: nat)
  {
    (forall i | 0 <= i < |D| :: |D[i]| == |D|) && forall v | v in flows :: v < |D| && valve < |D|
  }

  /** Opening one more valve leaves fewer closed ones. */
  lemma Shrinks(keys: set<nat>, mask: Mask, v: nat)
    requires v in keys && v !in mask
    ensures |keys - (mask + {v})| < |keys - mask|
  {
    assert keys - (mask + {v}) == (keys - mask) - {v};
  }

  /** What `visit` stores: the pressure for `mask` itself, merged with what
      each reachable unopened positive-flow valve leads to. */
  ghost function Explore(D: seq<seq<int>>, flows: map<nat, int>, valve: nat, minutes: int, mask: Mask, pressure: int): Answers
    requires Fits(D, flows, valve)
    decreases |flows.Keys - mask|, 2, 0
  {
    Merge(map[mask := pressure], Children(D, flows, valve, minutes, mask, pressure, flows.Keys))
  }

  /** The answers from the valves in `todo`, in any order. */
  ghost function Children(D: seq<seq<int>>, flows: map<nat, int>, valve: nat, minutes: int, mask: Mask, pressure: int, todo: set<nat>): Answers
    requires Fits(D, flows, valve) && todo <= flows.Keys
    decreases |flows.Keys - mask|, 1, |todo|
  {
    if todo == {} then map[]
    else
      var v :| v in todo;
      Merge(Child(D, flows, valve, minutes, mask, pressure, v), Children(D, flows, valve, minutes, mask, pressure, todo - {v}))
  }

  /** Moving to `v` and opening it, when there is time left after the walk
      and `v` is still closed. */
  ghost function Child(D: seq<seq<int>>, flows: map<nat, int>, valve: nat, minutes: int, mask: Mask, pressure: int, v: nat): Answers
    requires Fits(D, flows, valve) && v in flows
    decreases |flows.Keys - mask|, 0, 0
  {
    var remaining := minutes - D[valve][v] - 1;
    if remaining > 0 && v !in mask then
      Shrinks(flows.Keys, mask, v);
      Explore(D, flows, v, remaining, mask + {v}, pressure + flows[v] * remaining)
    else map[]
  }

  /** A child is the search from `v` when `v` is opened ... */
  lemma ChildOpens(D: seq<seq<int>>, flows: map<nat, int>, valve: nat, minutes: int, mask: Mask, pressure: int, v: nat,
                    remaining: int, mask': Mask, released: int)
    requires Fits(D, flows, valve) && v in flows
    requires remaining == minutes - D[valve][v] - 1 && remaining > 0 && v !in mask
    requires mask' == mask + {v} && released == pressure + flows[v] * remaining
    ensures Child(D, flows, valve, minutes, mask, pressure, v) == Explore(D, flows, v, remaining, mask', released)
  {
  }

  /** ... and nothing when there is no time left or `v` is already open. */
  lemma ChildSkips(D: seq<seq<int>>, flows: map<nat, int>, valve: nat, minutes: int, mask: Mask, pressure: int, v: nat)
    requires Fits(D, flows, valve) && v in flows
    requires minutes - D[valve][v] - 1 <= 0 || v in mask
    ensures Child(D, flows, valve, minutes, mask, pressure, v) == map[]
  {
  }

  /** The order the valves are taken in does not matter. */
  lemma {:induction false} ChildrenPick(D: seq<seq<int>>, flows: map<nat, int>, valve: nat, minutes: int, mask: Mask, pressure: int, todo: set<nat>, v: nat)
    requires Fits(D, flows, valve) && todo <= flows.Keys && v in todo
    ensures Children(D, flows, valve, minutes, mask, pressure, todo) ==
            Merge(Child(D, flows, valve, minutes, mask, pressure, v), Children(D, flows, valve, minutes, mask, pressure, todo - {v}))
    decreases |todo|
  {
    var w :| w in todo && Children(D, flows, valve, minutes, mask, pressure, todo) ==
      Merge(Child(D, flows, valve, minutes, mask, pressure, w), Children(D, flows, valve, minutes, mask, pressure, todo - {w}));
    if w != v {
      var cv := Child(D, flows, valve, minutes, mask, pressure, v);
      var cw := Child(D, flows, valve, minutes, mask, pressure, w);
      var rest := Children(D, flows, valve, minutes, mask, pressure, todo - {v, w});
      ChildrenPick(D, flows, valve, minutes, mask, pressure, todo - {w}, v);
      assert todo - {w} - {v} == todo - {v, w};
      ChildrenPick(D, flows, valve, minutes, mask, pressure, todo - {v}, w);
      assert todo - {v} - {w} == todo - {v, w};
      MergeAssociates(cw, cv, rest);
      MergeAssociates(cv, cw, rest);
      MergeCommutes(cv, cw);
    }
  }

  /** Every key of `r` adds valves of `keys` to `mask`, and every stored
      pressure is at least `pressure`. */
  ghost predicate Grows(r: Answers, mask: Mask, keys: set<nat>, pressure: int)
  {
    forall k | k in r :: mask < k <= mask + keys && r[k] >= pressure
  }

  lemma MergeGrows(a: Answers, b: Answers, mask: Mask, keys: set<nat>, pressure: int)
    requires Grows(a, mask, keys, pressure) && Grows(b, mask, keys, pressure)
    ensures Grows(Merge(a, b), mask, keys, pressure)
  {
    MergeFacts(a, b);
  }

  /** The mask the search starts from is always stored. */
  lemma ExploreIncludesStart(D: seq<seq<int>>, flows: map<nat, int>, valve: nat, minutes: int, mask: Mask, pressure: int)
    requires Fits(D, flows, valve)
    ensures mask in Explore(D, flows, valve, minutes, mask, pressure)
  {
    MergeFacts(map[mask := pressure], Children(D, flows, valve, minutes, mask, pressure, flows.Keys));
  }

  /** What `visit` stores for the masks it reaches: the mask it starts
      with holds exactly `pressure`, every other key adds positive-flow
      valves to it, and no stored pressure is below `pressure`. */
  lemma {:induction false} ExploreFacts(D: seq<seq<int>>, flows: map<nat, int>, valve: nat, minutes: int, mask: Mask, pressure: int)
    requires Fits(D, flows, valve) && forall v | v in flows :: flows[v] > 0
    ensures mask in Explore(D, flows, valve, minutes, mask, pressure)
    ensures Explore(D, flows, valve, minutes, mask, pressure)[mask] == pressure
    ensures Grows(Explore(D, flows, valve, minutes, mask, pressure) - {mask}, mask, flows.Keys, pressure)
    decreases |flows.Keys - mask|, 2
  {
    var c := Children(D, flows, valve, minutes, mask, pressure, flows.Keys);
    ChildrenFacts(D, flows, valve, minutes, mask, pressure, flows.Keys);
    assert mask !in c;
    var r := Explore(D, flows, valve, minutes, mask, pressure);
    assert r - {mask} == c;
  }

  lemma {:induction false} ChildrenFacts(D: seq<seq<int>>, flows: map<nat, int>, valve: nat, minutes: int, mask: Mask, pressure: int, todo: set<nat>)
    requires Fits(D, flows, valve) && todo <= flows.Keys && forall v | v in flows :: flows[v] > 0
    ensures Grows(Children(D, flows, valve, minutes, mask, pressure, todo), mask, flows.Keys, pressure)
    decreases |flows.Keys - mask|, 1, |todo|
  {
    if todo != {} {
      var v :| v in todo;
      ChildrenPick(D, flows, valve, minutes, mask, pressure, todo, v);
      ChildrenFacts(D, flows, valve, minutes, mask, pressure, todo - {v});
      ChildFacts(D, flows, valve, minutes, mask, pressure, v);
      MergeGrows(Child(D, flows, valve, minutes, mask, pressure, v),
                 Children(D, flows, valve, minutes, mask, pressure, todo - {v}), mask, flows.Keys, pressure);
    }
  }

  lemma {:induction false} ChildFacts(D: seq<seq<int>>, flows: map<nat, int>, valve: nat, minutes: int, mask: Mask, pressure: int, v: nat)
    requires Fits(D, flows, valve) && v in flows && forall v | v in flows :: flows[v] > 0
    ensures Grows(Child(D, flows, valve, minutes, mask, pressure, v), mask, flows.Keys, pressure)
    decreases |flows.Keys - mask|, 0, 0
  {
    var c := Child(D, flows, valve, minutes, mask, pressure, v);
    var remaining := minutes - D[valve][v] - 1;
    if remaining > 0 && v !in mask {
      Shrinks(flows.Keys, mask, v);
      var p' := pressure + flows[v] * remaining;
      assert c == Explore(D, flows, v, remaining, mask + {v}, p');
      ExploreFacts(D, flows, v, remaining, mask + {v}, p');
      assert flows[v] * remaining > 0;
      assert forall k | k in c :: k == mask + {v} || k in c - {mask + {v}};
    }
  }

  /** Every key of `r` other than `mask` opens fewer than `minutes / 2`
      valves beyond it. */
  ghost predicate Short(r: Answers, mask: Mask, minutes: int)
  {
    forall k | k in r && k != mask :: 2 * |k - mask| < minutes
  }

  /** Every distance is at least one, as after Floyd–Warshall. */
  predicate Positive(D: seq<seq<int>>)
  {
    forall i, j | 0 <= i < |D| && 0 <= j < |D[i]| :: D[i][j] >= 1
  }

  lemma MergeShort(a: Answers, b: Answers, mask: Mask, minutes: int)
    requires Short(a, mask, minutes) && Short(b, mask, minutes)
    ensures Short(Merge(a, b), mask, minutes)
  {
    MergeFacts(a, b);
  }

  lemma OneMore(k: Mask, mask: Mask, v: nat)
    requires v !in mask && mask + {v} <= k
    ensures |k - mask| == |k - (mask + {v})| + 1
  {
    assert k - mask == (k - (mask + {v})) + {v};
  }

  /** Opening a valve costs at least two minutes, so `minutes` strictly
      decreases along the search and few valves fit in the time. */
  lemma {:induction false} ExploreShort(D: seq<seq<int>>, flows: map<nat, int>, valve: nat, minutes: int, mask: Mask, pressure: int)
    requires Fits(D, flows, valve) && Positive(D) && forall v | v in flows :: flows[v] > 0
    ensures Short(Explore(D, flows, valve, minutes, mask, pressure), mask, minutes)
    decreases |flows.Keys - mask|, 2
  {
    ChildrenShort(D, flows, valve, minutes, mask, pressure, flows.Keys);
    MergeShort(map[mask := pressure], Children(D, flows, valve, minutes, mask, pressure, flows.Keys), mask, minutes);
  }

  lemma {:induction false} ChildrenShort(D: seq<seq<int>>, flows: map<nat, int>, valve: nat, minutes: int, mask: Mask, pressure: int, todo: set<nat>)
    requires Fits(D, flows, valve) && Positive(D) && todo <= flows.Keys && forall v | v in flows :: flows[v] > 0
    ensures Short(Children(D, flows, valve, minutes, mask, pressure, todo), mask, minutes)
    decreases |flows.Keys - mask|, 1, |todo|
  {
    if todo != {} {
      var v :| v in todo;
      ChildrenPick(D, flows, valve, minutes, mask, pressure, todo, v);
      ChildrenShort(D, flows, valve, minutes, mask, pressure, todo - {v});
      ChildShort(D, flows, valve, minutes, mask, pressure, v);
      MergeShort(Child(D, flows, valve, minutes, mask, pressure, v),
                 Children(D, flows, valve, minutes, mask, pressure, todo - {v}), mask, minutes);
    }
  }

  lemma {:induction false} ChildShort(D: seq<seq<int>>, flows: map<nat, int>, valve: nat, minutes: int, mask: Mask, pressure: int, v: nat)
    requires Fits(D, flows, valve) && Positive(D) && v in flows && forall v | v in flows :: flows[v] > 0
    ensures Short(Child(D, flows, valve, minutes, mask, pressure, v), mask, minutes)
    decreases |flows.Keys - mask|, 0, 0
  {
    var c := Child(D, flows, valve, minutes, mask, pressure, v);
    var remaining := minutes - D[valve][v] - 1;
    if remaining > 0 && v !in mask {
      Shrinks(flows.Keys, mask, v);
      var p' := pressure + flows[v] * remaining;
      assert c == Explore(D, flows, v, remaining, mask + {v}, p');
      ExploreShort(D, flows, v, remaining, mask + {v}, p');
      ExploreFacts(D, flows, v, remaining, mask + {v}, p');
      assert D[valve][v] >= 1;
      forall k | k in c && k != mask
        ensures 2 * |k - mask| < minutes
      {
        if k != mask + {v} {
          assert k in c - {mask + {v}};
        }
        OneMore(k, mask, v);
      }
    }
  }

  /** `visit`: store `pressure` for `mask` unless something better is
      there, then try each positive-flow valve, in whatever order the
      map yields them. */
  method Visit(valve: nat, minutes: int, mask: Mask, pressure: int, answer: Answers,
               flows: map<nat, int>, dists: seq<seq<int>>) returns (answer': Answers)
    requires Fits(dists, flows, valve)
    ensures answer' == Merge(answer, Explore(dists, flows, valve, minutes, mask, pressure))
    decreases |flows.Keys - mask|, 1
  {
    if mask in answer {
      answer' := answer[mask := if pressure > answer[mask] then pressure else answer[mask]];
    } else {
      answer' := answer[mask := pressure];
    }
    Store(answer, mask, pressure, answer');
    var todo := flows.Keys;
    ghost var target := Merge(answer, Explore(dists, flows, valve, minutes, mask, pressure));
    MergeAssociates(answer, map[mask := pressure], Children(dists, flows, valve, minutes, mask, pressure, todo));
    while todo != {}
      invariant todo <= flows.Keys
      invariant Merge(answer', Children(dists, flows, valve, minutes, mask, pressure, todo)) == target
      decreases |todo|
    {
      var v :| v in todo;
      ChildrenPick(dists, flows, valve, minutes, mask, pressure, todo, v);
      ghost var before := answer';
      answer' := VisitNext(valve, minutes, mask, pressure, answer', flows, dists, v);
      MergeStep(before, answer', Child(dists, flows, valve, minutes, mask, pressure, v),
                Children(dists, flows, valve, minutes, mask, pressure, todo - {v}),
                Children(dists, flows, valve, minutes, mask, pressure, todo), target);
      todo := todo - {v};
    }
    MergeEmpty(answer');
  }

  /** The body of the loop in `visit`: walk to `v` and open it when there
      is time left and it is still closed. */
  method VisitNext(valve: nat, minutes: int, mask: Mask, pressure: int, answer: Answers,
                   flows: map<nat, int>, dists: seq<seq<int>>, v: nat) returns (answer': Answers)
    requires Fits(dists, flows, valve) && v in flows
    ensures answer' == Merge(answer, Child(dists, flows, valve, minutes, mask, pressure, v))
    decreases |flows.Keys - mask|, 0
  {
    var dist := dists[valve][v];
    var remaining := minutes - dist - 1;
    if remaining > 0 && v !in mask {
      Shrinks(flows.Keys, mask, v);
      var mask' := mask + {v};
      var released := pressure + flows[v] * remaining;
      ChildOpens(dists, flows, valve, minutes, mask, pressure, v, remaining, mask', released);
      answer' := Visit(v, remaining, mask', released, answer, flows, dists);
    } else {
      ChildSkips(dists, flows, valve, minutes, mask, pressure, v);
      MergeEmpty(answer);
      answer' := answer;
    }
  }

  /** Storing a pressure unless a better one is there is merging it in. */
  lemma Store(answer: Answers, mask: Mask, pressure: int, answer': Answers)
    requires answer' == if mask in answer then answer[mask := if pressure > answer[mask] then pressure else answer[mask]]
                        else answer[mask := pressure]
    ensures answer' == Merge(answer, map[mask := pressure])
  {
    assert answer'.Keys == answer.Keys + {mask};
  }

  /** One pass of the loop in `visit` keeps what is still to be merged in. */
  lemma MergeStep(before: Answers, after: Answers, c: Answers, rest: Answers, todo: Answers, target: Answers)
    requires Merge(before, todo) == target && todo == Merge(c, rest) && after == Merge(before, c)
    ensures Merge(after, rest) == target
  {
    MergeAssociates(before, c, rest);
  }

  /** `m` is the largest stored pressure. */
  ghost predicate IsBest(m: int, answers: Answers)
  {
    m in answers.Values && forall k | k in answers :: answers[k] <= m
  }

  /** Part 1's `values().max()`: `None` only for an empty map. */
  method BestValue(answers: Answers) returns (r: Option<int>)
    ensures r.None? <==> answers == map[]
    ensures r.Some? ==> IsBest(r.value, answers)
  {
    r := None;
    var todo := answers.Keys;
    while todo != {}
      invariant todo <= answers.Keys
      invariant r.None? <==> todo == answers.Keys
      invariant r.Some? ==> r.value in answers.Values && forall k | k in answers.Keys - todo :: answers[k] <= r.value
      decreases |todo|
    {
      var k :| k in todo;
      if r.None? || answers[k] > r.value {
        r := Some(answers[k]);
      }
      todo := todo - {k};
    }
    if r.None? {
      assert answers.Keys == {};
    }
  }

  /** `p2` is the best sum of two stored pressures for disjoint masks, or 0. */
  ghost predicate IsBestPair(p2: int, answers: Answers)
  {
    p2 >= 0 &&
    (forall k1, k2 | k1 in answers && k2 in answers && k1 !! k2 :: answers[k1] + answers[k2] <= p2) &&
    (p2 == 0 || exists k1, k2 | k1 in answers && k2 in answers && k1 !! k2 :: answers[k1] + answers[k2] == p2)
  }

  /** The inner loop: the best so far, raised by any sum of `k1`'s pressure
      with that of a set disjoint from it. */
  method BestWith(answers: Answers, k1: set<nat>, best: int) returns (p2: int)
    requires k1 in answers && best >= 0
    ensures p2 >= best
    ensures forall k2 | k2 in answers && k1 !! k2 :: answers[k1] + answers[k2] <= p2
    ensures p2 == best || exists k2 | k2 in answers && k1 !! k2 :: answers[k1] + answers[k2] == p2
  {
    p2 := best;
    var inner := answers.Keys;
    while inner != {}
      invariant inner <= answers.Keys && p2 >= best
      invariant forall k2 | k2 in answers.Keys - inner && k1 !! k2 :: answers[k1] + answers[k2] <= p2
      invariant p2 == best || exists k2 | k2 in answers && k1 !! k2 :: answers[k1] + answers[k2] == p2
      decreases |inner|
    {
      var k2 :| k2 in inner;
      if k1 !! k2 {
        var maxflow := answers[k1] + answers[k2];
        if maxflow > p2 {
          p2 := maxflow;
        }
      }
      inner := inner - {k2};
    }
  }

  /** Part 2's pairing loop: the two of us open disjoint sets of valves. */
  method BestPair(answers: Answers) returns (p2: int)
    ensures IsBestPair(p2, answers)
  {
    p2 := 0;
    var outer := answers.Keys;
    while outer != {}
      invariant outer <= answers.Keys && p2 >= 0
      invariant forall k1, k2 | k1 in answers.Keys - outer && k2 in answers && k1 !! k2 :: answers[k1] + answers[k2] <= p2
      invariant p2 == 0 || exists k1, k2 | k1 in answers && k2 in answers && k1 !! k2 :: answers[k1] + answers[k2] == p2
      decreases |outer|
    {
      var k1 :| k1 in outer;
      p2 := BestWith(answers, k1, p2);
      outer := outer - {k1};
    }
  }


  /** The whole of `solve` after the scan: `None` for the inputs on which
      it panics (a flow rate that is not a number, a tunnel to an unknown
      valve, more valves than the grid holds). */
  ghost predicate Solved(valves: seq<Valve>, p1: int, p2: int)
  {
    IndexOf(valves).Some? &&
    var s := IndexOf(valves).value;
    GraphOf(s.valveMap, valves).Some? &&
    var graph := GraphOf(s.valveMap, valves).value;
    exists D, wit :: Shortest(graph, D, wit) && Fits(D, s.flows, s.start) &&
      IsBest(p1, Explore(D, s.flows, s.start, 30, {}, 0)) &&
      IsBestPair(p2, Explore(D, s.flows, s.start, 26, {}, 0))
  }

  /** The distance grid: built, then closed under Floyd–Warshall. */
  method Distances(graph: Graph) returns (r: Option<array2<int>>, ghost wit: map<(nat, nat), seq<nat>>)
    ensures r.None? <==> |graph| > NUM_VALVES
    ensures r.Some? ==> |graph| <= r.value.Length0 && |graph| <= r.value.Length1 &&
                        Shortest(graph, Snap(r.value, |graph|), wit)
  {
    wit := map[];
    r := InitialDistances(graph);
    if r.Some? {
      wit := FloydWarshall(graph, r.value);
    }
  }

  /** The two parts once the distances are known: the best pressure in 30
      minutes, and the best two disjoint openings in 26. */
  method Answer(dists: seq<seq<int>>, flows: map<nat, int>, start: nat) returns (p1: int, p2: int)
    requires Fits(dists, flows, start)
    ensures IsBest(p1, Explore(dists, flows, start, 30, {}, 0))
    ensures IsBestPair(p2, Explore(dists, flows, start, 26, {}, 0))
  {
    var answers1 := Visit(start, 30, {}, 0, map[], flows, dists);
    MergeEmpty(Explore(dists, flows, start, 30, {}, 0));
    assert {} in answers1 by {
      MergeFacts(map[], Explore(dists, flows, start, 30, {}, 0));
      ExploreIncludesStart(dists, flows, start, 30, {}, 0);
    }
    var best := BestValue(answers1);
    p1 := best.value;
    var answers2 := Visit(start, 26, {}, 0, map[], flows, dists);
    MergeEmpty(Explore(dists, flows, start, 26, {}, 0));
    p2 := BestPair(answers2);
  }

  method Solve(valves: seq<Valve>) returns (r: Option<(int, int)>)
    ensures r.None? <==> IndexOf(valves).None? || GraphOf(IndexOf(valves).value.valveMap, valves).None? || |valves| > NUM_VALVES
    ensures r.Some? ==> Solved(valves, r.value.0, r.value.1)
  {
    var index := Index(valves);
    if index.None? {
      return None;
    }
    var setup := index.value;
    IndexFacts(valves);
    var graph := BuildGraph(setup.valveMap, valves);
    if graph.None? {
      return None;
    }
    var n := |graph.value|;
    ghost var wit;
    var dists;
    dists, wit := Distances(graph.value);
    if dists.None? {
      return None;
    }
    var D := Snap(dists.value, n);
    assert Fits(D, setup.flows, setup.start) by {
      if "AA" in setup.valveMap {
        assert setup.start < n;
      }
    }
    var p1, p2 := Answer(D, setup.flows, setup.start);
    r := Some((p1, p2));
  }
}
