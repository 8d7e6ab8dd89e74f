/** Hill climbing: an A* search over a 64×40 height map from a set of start
    squares to the end square, moving only to squares at most one higher. */
module Day12 {
  import opened Common

  const WIDTH: int := 64
  const HEIGHT: int := 40
  /** The elevations of 'a' and 'z'. */
  const LOWEST_ELEV: int := 'a' as int
  const HIGHEST_ELEV: int := 'z' as int
  /** The g-score assumed for a square not reached yet. */
  const UNSEEN: int := 1000

  type Coord = (int, int)

  /** The parsed height map: rows of characters, and where 'S' and 'E' are. */
  datatype Grid = Grid(grid: seq<seq<char>>, start: Coord, end: Coord)

  /** The map has `HEIGHT` rows of `WIDTH` characters, as the parser builds it. */
  predicate WellFormed(g: Grid)
  {
    |g.grid| == HEIGHT && forall y | 0 <= y < HEIGHT :: |g.grid[y]| == WIDTH
  }

  /** `is_valid_coord`. */
  predicate IsValidCoord(pos: Coord)
  {
    0 <= pos.0 < WIDTH && 0 <= pos.1 < HEIGHT
  }

  /** `elevation_at`: the start is as low as 'a', the end as high as 'z',
      any other square its own letter; `None` off the map, where the source's
      assertion fails. */
  function ElevationAt(g: Grid, pos: Coord): (r: Option<int>)
    requires WellFormed(g)
    ensures r.Some? <==> IsValidCoord(pos)
    ensures r.Some? && pos == g.start ==> r.value == LOWEST_ELEV
    ensures r.Some? && pos != g.start && pos == g.end ==> r.value == HIGHEST_ELEV
    ensures r.Some? && pos != g.start && pos != g.end ==> r.value == g.grid[pos.1][pos.0] as int
  {
    if !IsValidCoord(pos) then None
    else if pos == g.start then Some(LOWEST_ELEV)
    else if pos == g.end then Some(HIGHEST_ELEV)
    else Some(g.grid[pos.1][pos.0] as int)
  }

  /** `dist`: the Manhattan distance, the search's heuristic. */
  function Dist(a: Coord, b: Coord): (r: nat)
  {
    Abs(a.0 - b.0) + Abs(a.1 - b.1)
  }

  lemma DistFacts(a: Coord, b: Coord, c: Coord)
    ensures Dist(a, b) == Dist(b, a)
    ensures Dist(a, b) == 0 <==> a == b
    ensures Dist(a, c) <= Dist(a, b) + Dist(b, c)
  {
  }

  /** The four moves, in the source's order. */
  const MOVES: seq<Coord> := [(0, 1), (1, 0), (-1, 0), (0, -1)]

  function Shift(node: Coord, i: nat): Coord
    requires i < 4
  {
    (node.0 + MOVES[i].0, node.1 + MOVES[i].1)
  }

  /** A legal move: both squares on the map, orthogonally adjacent, and the
      target at most one higher. */
  predicate CanStep(g: Grid, from: Coord, to: Coord)
    requires WellFormed(g)
  {
    IsValidCoord(from) && IsValidCoord(to) && Dist(from, to) == 1 &&
    ElevationAt(g, to).value <= ElevationAt(g, from).value + 1
  }

  /** The legal targets among the first `k` moves, in move order. */
  function NeighborsUpTo(g: Grid, node: Coord, k: nat): (r: seq<Coord>)
    requires WellFormed(g) && IsValidCoord(node) && k <= 4
    ensures |r| <= k
  {
    if k == 0 then []
    else
      var nbr := Shift(node, k - 1);
      var rest := NeighborsUpTo(g, node, k - 1);
      if IsValidCoord(nbr) && ElevationAt(g, nbr).value <= ElevationAt(g, node).value + 1
      then rest + [nbr] else rest
  }

  /** `neighbors`: `None` off the map, where `elevation_at` fails. */
  function NeighborsOf(g: Grid, node: Coord): (r: Option<seq<Coord>>)
    requires WellFormed(g)
    ensures r.Some? <==> IsValidCoord(node)
    ensures r.Some? ==> |r.value| <= 4
  {
    if IsValidCoord(node) then Some(NeighborsUpTo(g, node, 4)) else None
  }

  lemma {:induction false} NeighborsUpToFacts(g: Grid, node: Coord, k: nat)
    requires WellFormed(g) && IsValidCoord(node) && k <= 4
    ensures forall c :: c in NeighborsUpTo(g, node, k) <==>
      exists i | 0 <= i < k :: c == Shift(node, i) && CanStep(g, node, c)
  {
    if k > 0 {
      NeighborsUpToFacts(g, node, k - 1);
    }
  }

  /** The neighbours are exactly the legal moves from the square. */
  lemma NeighborsAreSteps(g: Grid, node: Coord)
    requires WellFormed(g) && IsValidCoord(node)
    ensures forall c :: c in NeighborsOf(g, node).value <==> CanStep(g, node, c)
  {
    NeighborsUpToFacts(g, node, 4);
    forall c | CanStep(g, node, c)
      ensures exists i | 0 <= i < 4 :: c == Shift(node, i) && CanStep(g, node, c)
    {
      if c.0 == node.0 && c.1 == node.1 + 1 {
        assert c == Shift(node, 0);
      } else if c.0 == node.0 + 1 {
        assert c == Shift(node, 1);
      } else if c.0 == node.0 - 1 {
        assert c == Shift(node, 2);
      } else {
        assert c == Shift(node, 3);
      }
    }
  }

  /** `neighbors`: the four moves tried in order, keeping the legal ones. */
  method Neighbors(g: Grid, node: Coord) returns (r: Option<seq<Coord>>)
    requires WellFormed(g)
    ensures r == NeighborsOf(g, node)
  {
    var elevation := ElevationAt(g, node);
    if elevation.None? {
      return None;
    }
    var maxAllowed := elevation.value + 1;
    var nbrs: seq<Coord> := [];
    for i := 0 to 4
      invariant nbrs == NeighborsUpTo(g, node, i)
    {
      var nbr := Shift(node, i);
      if IsValidCoord(nbr) && ElevationAt(g, nbr).value <= maxAllowed {
        nbrs := nbrs + [nbr];
      }
    }
    r := Some(nbrs);
  }

  // ---------------------------------------------------------------------
  // What a g-score means.

  /** `c` can be reached from one of the starts in at most `n` legal moves. */
  ghost predicate Reach(g: Grid, starts: seq<Coord>, c: Coord, n: nat)
    requires WellFormed(g)
    decreases n
  {
    c in starts || (n > 0 && exists p :: CanStep(g, p, c) && Reach(g, starts, p, n - 1))
  }

  lemma {:induction false} ReachMore(g: Grid, starts: seq<Coord>, c: Coord, n: nat, m: nat)
    requires WellFormed(g) && n <= m && Reach(g, starts, c, n)
    ensures Reach(g, starts, c, m)
    decreases n
  {
    if c !in starts {
      var p :| CanStep(g, p, c) && Reach(g, starts, p, n - 1);
      ReachMore(g, starts, p, n - 1, m - 1);
    }
  }

  /** One more legal move reaches one step further. */
  lemma ReachStep(g: Grid, starts: seq<Coord>, p: Coord, c: Coord, n: nat)
    requires WellFormed(g) && Reach(g, starts, p, n) && CanStep(g, p, c)
    ensures Reach(g, starts, c, n + 1)
  {
  }

  /** A square reachable in `n` moves is within Manhattan distance `n` of some
      start: the heuristic never overestimates. */
  lemma {:induction false} ReachBound(g: Grid, starts: seq<Coord>, c: Coord, n: nat) returns (s: Coord)
    requires WellFormed(g) && Reach(g, starts, c, n)
    ensures s in starts && Dist(s, c) <= n
    decreases n
  {
    if c in starts {
      s := c;
    } else {
      var p :| CanStep(g, p, c) && Reach(g, starts, p, n - 1);
      s := ReachBound(g, starts, p, n - 1);
      DistFacts(s, p, c);
    }
  }

  /** Every recorded g-score lies in `[0, UNSEEN]` and is the length of some
      walk from a start. */
  ghost predicate Scores(g: Grid, starts: seq<Coord>, gScore: map<Coord, int>)
    requires WellFormed(g)
  {
    forall c | c in gScore :: 0 <= gScore[c] <= UNSEEN && Reach(g, starts, c, gScore[c])
  }

  // ---------------------------------------------------------------------
  // The termination measure: the g-scores summed over the whole map.

  function Term(gScore: map<Coord, int>, c: Coord): int
  {
    if c in gScore then gScore[c] else UNSEEN
  }

  function RowPot(gScore: map<Coord, int>, y: int, n: nat): int
  {
    if n == 0 then 0 else RowPot(gScore, y, n - 1) + Term(gScore, (n - 1, y))
  }

  function Pot(gScore: map<Coord, int>, m: nat): int
  {
    if m == 0 then 0 else Pot(gScore, m - 1) + RowPot(gScore, m - 1, WIDTH)
  }

  lemma {:induction false} RowPotUpdate(gScore: map<Coord, int>, c: Coord, v: int, y: int, n: nat)
    ensures RowPot(gScore[c := v], y, n) ==
      RowPot(gScore, y, n) + (if c.1 == y && 0 <= c.0 < n then v - Term(gScore, c) else 0)
  {
    if n > 0 {
      RowPotUpdate(gScore, c, v, y, n - 1);
    }
  }

  lemma {:induction false} PotUpdate(gScore: map<Coord, int>, c: Coord, v: int, m: nat)
    ensures Pot(gScore[c := v], m) ==
      Pot(gScore, m) + (if 0 <= c.1 < m && 0 <= c.0 < WIDTH then v - Term(gScore, c) else 0)
  {
    if m > 0 {
      PotUpdate(gScore, c, v, m - 1);
      RowPotUpdate(gScore, c, v, m - 1, WIDTH);
    }
  }

  lemma {:induction false} RowPotNonNegative(gScore: map<Coord, int>, y: int, n: nat)
    requires forall c | c in gScore :: gScore[c] >= 0
    ensures RowPot(gScore, y, n) >= 0
  {
    if n > 0 {
      RowPotNonNegative(gScore, y, n - 1);
    }
  }

  lemma {:induction false} PotNonNegative(gScore: map<Coord, int>, m: nat)
    requires forall c | c in gScore :: gScore[c] >= 0
    ensures Pot(gScore, m) >= 0
  {
    if m > 0 {
      PotNonNegative(gScore, m - 1);
      RowPotNonNegative(gScore, m - 1, WIDTH);
    }
  }

  // ---------------------------------------------------------------------
  // The open set: a `BTreeSet` of (f-score, square), popped from the front.

  type Entry = (int, Coord)

  /** The `BTreeSet` order: by f-score, then x, then y. */
  predicate Before(a: Entry, b: Entry)
  {
    a.0 < b.0 || (a.0 == b.0 && (a.1.0 < b.1.0 || (a.1.0 == b.1.0 && a.1.1 <= b.1.1)))
  }

  predicate IsFirst(e: Entry, s: set<Entry>)
  {
    e in s && forall o | o in s :: Before(e, o)
  }

  /** A non-empty open set has a first entry ... */
  lemma FirstExists(s: set<Entry>) returns (m: Entry)
    requires s != {}
    ensures IsFirst(m, s)
  {
    var x :| x in s;
    if s == {x} {
      m := x;
    } else {
      var m' := FirstExists(s - {x});
      m := if Before(x, m') then x else m';
      forall o | o in s
        ensures Before(m, o)
      {
        if o != x {
          assert Before(m', o);
        }
      }
    }
  }

  /** ... and only one, so `pop_first` is determined. */
  lemma FirstUnique(s: set<Entry>, a: Entry, b: Entry)
    requires IsFirst(a, s) && IsFirst(b, s)
    ensures a == b
  {
  }

  // ---------------------------------------------------------------------
  // The search.

  /** The inner loop of `find`: each neighbour whose g-score improves gets
      the new score and enters the open set. Scores only decrease, every
      neighbour ends no worse than one more than the current square, and
      either the measure drops or nothing changes. */
  method Relax(g: Grid, starts: seq<Coord>, current: Coord, nbrs: seq<Coord>,
               open: set<Entry>, gScore: map<Coord, int>)
    returns (open': set<Entry>, gScore': map<Coord, int>)
    requires WellFormed(g) && IsValidCoord(current)
    requires nbrs == NeighborsOf(g, current).value
    requires current in gScore && Scores(g, starts, gScore)
    requires forall e | e in open :: e.1 in gScore
    ensures Scores(g, starts, gScore')
    ensures forall e | e in open' :: e.1 in gScore'
    ensures open <= open'
    ensures forall c | c in gScore :: c in gScore' && gScore'[c] <= gScore[c]
    ensures forall c | c in gScore' && (c !in gScore || gScore'[c] != gScore[c]) ::
      c in nbrs && gScore'[c] == gScore[current] + 1
    ensures forall n | n in nbrs ::
      (n in gScore' && gScore'[n] <= gScore[current] + 1) ||
      (n !in gScore' && gScore[current] + 1 >= UNSEEN)
    ensures Pot(gScore', HEIGHT) < Pot(gScore, HEIGHT) || (gScore' == gScore && open' == open)
  {
    NeighborsAreSteps(g, current);
    open', gScore' := open, gScore;
    for k := 0 to |nbrs|
      invariant current in gScore' && gScore'[current] == gScore[current]
      invariant Scores(g, starts, gScore')
      invariant forall e | e in open' :: e.1 in gScore'
      invariant open <= open'
      invariant forall c | c in gScore :: c in gScore' && gScore'[c] <= gScore[c]
      invariant forall c | c in gScore' && (c !in gScore || gScore'[c] != gScore[c]) ::
        c in nbrs && gScore'[c] == gScore[current] + 1
      invariant Relaxed(nbrs[..k], gScore', gScore[current] + 1)
      invariant Pot(gScore', HEIGHT) < Pot(gScore, HEIGHT) || (gScore' == gScore && open' == open)
    {
      var nbr := nbrs[k];
      ghost var before := gScore';
      open', gScore' := RelaxOne(g, starts, current, nbr, gScore[current], open', gScore');
      RelaxedKept(nbrs[..k], before, gScore', gScore[current] + 1);
      RelaxedNext(nbrs, k, gScore', gScore[current] + 1);
    }
    assert nbrs[..|nbrs|] == nbrs;
  }

  /** One neighbour of the loop in `Relax`: a step to it that beats its
      score lowers the score to `base + 1` and puts it in the open set;
      otherwise nothing changes. */
  method RelaxOne(g: Grid, starts: seq<Coord>, current: Coord, nbr: Coord, base: int,
                  open: set<Entry>, gScore: map<Coord, int>)
    returns (open': set<Entry>, gScore': map<Coord, int>)
    requires WellFormed(g) && IsValidCoord(current) && CanStep(g, current, nbr)
    requires current in gScore && gScore[current] == base && Scores(g, starts, gScore)
    requires forall e | e in open :: e.1 in gScore
    ensures Scores(g, starts, gScore')
    ensures forall e | e in open' :: e.1 in gScore'
    ensures open <= open'
    ensures current in gScore' && gScore'[current] == base
    ensures forall c | c in gScore :: c in gScore' && gScore'[c] <= gScore[c]
    ensures forall c | c in gScore' && (c !in gScore || gScore'[c] != gScore[c]) ::
      c == nbr && gScore'[c] == base + 1
    ensures (nbr in gScore' && gScore'[nbr] <= base + 1) || (nbr !in gScore' && base + 1 >= UNSEEN)
    ensures Pot(gScore', HEIGHT) < Pot(gScore, HEIGHT) || (gScore' == gScore && open' == open)
  {
    var newG := gScore[current] + 1;
    var nbrG := if nbr in gScore then gScore[nbr] else UNSEEN;
    open', gScore' := open, gScore;
    if newG < nbrG {
      ReachStep(g, starts, current, nbr, base);
      PotUpdate(gScore, nbr, newG, HEIGHT);
      open' := open + {(newG + Dist(nbr, g.end), nbr)};
      gScore' := gScore[nbr := newG];
    }
  }

  /** Every square of `ns` has a g-score of at most `bound`, or none at all
      when `bound` reaches the unseen score. */
  ghost predicate Relaxed(ns: seq<Coord>, gScore: map<Coord, int>, bound: int)
  {
    forall n | n in ns :: RelaxedAt(n, gScore, bound)
  }

  ghost predicate RelaxedAt(n: Coord, gScore: map<Coord, int>, bound: int)
  {
    (n in gScore && gScore[n] <= bound) || (n !in gScore && bound >= UNSEEN)
  }

  /** A relaxed prefix grows by one relaxed square. */
  lemma RelaxedNext(ns: seq<Coord>, k: nat, gScore: map<Coord, int>, bound: int)
    requires k < |ns| && Relaxed(ns[..k], gScore, bound) && RelaxedAt(ns[k], gScore, bound)
    ensures Relaxed(ns[..k+1], gScore, bound)
  {
    assert ns[..k+1] == ns[..k] + [ns[k]];
  }

  /** Lowering scores and adding keys no higher than `bound` keeps `ns`
      relaxed. */
  lemma RelaxedKept(ns: seq<Coord>, m: map<Coord, int>, m2: map<Coord, int>, bound: int)
    requires Relaxed(ns, m, bound)
    requires forall c | c in m :: c in m2 && m2[c] <= m[c]
    requires forall c | c in m2 && c !in m :: m2[c] <= bound
    ensures Relaxed(ns, m2, bound)
  {
  }

  /** `find`: A* from the starts; the g-score of the end when it is popped,
      `None` when the open set runs empty or a start is off the map, where
      the source panics. The answer is the length of a legal walk from a
      start, so it is at least the Manhattan distance from that start. */
  method Find(g: Grid, starts: seq<Coord>) returns (r: Option<int>)
    requires WellFormed(g)
    ensures r.Some? ==> r.value >= 0 && Reach(g, starts, g.end, r.value)
  {
    var open: set<Entry> := {};
    var gScore: map<Coord, int> := map[];
    for i := 0 to |starts|
      invariant forall e | e in open :: e.1 in gScore
      invariant forall c | c in gScore :: c in starts && gScore[c] == 0
    {
      open := open + {(Dist(starts[i], g.end), starts[i])};
      gScore := gScore[starts[i] := 0];
    }
    PotNonNegative(gScore, HEIGHT);
    while true
      invariant Scores(g, starts, gScore)
      invariant forall e | e in open :: e.1 in gScore
      invariant Pot(gScore, HEIGHT) >= 0
      decreases Pot(gScore, HEIGHT), |open|
    {
      if open == {} {
        return None;
      }
      var first := FirstExists(open);
      var e :| e in open && IsFirst(e, open);
      assert e in open;
      var current := e.1;
      assert current in gScore;
      assert |open - {e}| < |open|;
      open := open - {e};
      if current == g.end {
        return Some(gScore[current]);
      }
      var nbrs := Neighbors(g, current);
      if nbrs.None? {
        return None;
      }
      open, gScore := Relax(g, starts, current, nbrs.value, open, gScore);
      PotNonNegative(gScore, HEIGHT);
    }
  }

  /** Squares in row-major order. */
  function Index(p: Coord): int
  {
    p.1 * WIDTH + p.0
  }

  predicate IsLowest(g: Grid, p: Coord)
    requires WellFormed(g)
  {
    IsValidCoord(p) && ElevationAt(g, p) == Some(LOWEST_ELEV)
  }

  /** `find_all_as`: every square of elevation 'a', in row-major order. */
  method FindAllAs(g: Grid) returns (r: seq<Coord>)
    requires WellFormed(g)
    ensures forall p :: p in r <==> IsLowest(g, p)
    ensures forall i, j | 0 <= i < j < |r| :: Index(r[i]) < Index(r[j])
  {
    r := [];
    for y := 0 to HEIGHT
      invariant forall p :: p in r <==> IsLowest(g, p) && p.1 < y
      invariant forall i, j | 0 <= i < j < |r| :: Index(r[i]) < Index(r[j])
      invariant forall i | 0 <= i < |r| :: Index(r[i]) < y * WIDTH
    {
      for x := 0 to WIDTH
        invariant forall p :: p in r <==> IsLowest(g, p) && (p.1 < y || (p.1 == y && p.0 < x))
        invariant forall i, j | 0 <= i < j < |r| :: Index(r[i]) < Index(r[j])
        invariant forall i | 0 <= i < |r| :: Index(r[i]) < y * WIDTH + x
      {
        var pos := (x, y);
        if ElevationAt(g, pos) == Some(LOWEST_ELEV) {
          r := r + [pos];
        }
      }
    }
  }

  /** The start square counts as an 'a', so part 2's starts include it. */
  lemma StartIsLowest(g: Grid)
    requires WellFormed(g) && IsValidCoord(g.start)
    ensures IsLowest(g, g.start)
  {
  }

  /** `solve`: part 1 searches from the start alone, part 2 from every 'a'. */
  method Solve(g: Grid) returns (p1: Option<int>, p2: Option<int>)
    requires WellFormed(g)
    ensures p1.Some? ==> p1.value >= 0 && Reach(g, [g.start], g.end, p1.value)
    ensures p2.Some? ==> exists s :: IsLowest(g, s) && Dist(s, g.end) <= p2.value
    ensures p2.Some? ==> p2.value >= 0 && exists starts: seq<Coord> ::
      (forall p :: p in starts <==> IsLowest(g, p)) && Reach(g, starts, g.end, p2.value)
  {
    p1 := Find(g, [g.start]);
    var starts := FindAllAs(g);
    p2 := Find(g, starts);
    if p2.Some? {
      var s := ReachBound(g, starts, g.end, p2.value);
      assert IsLowest(g, s);
    }
  }
}
