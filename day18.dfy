/** Boiling Boulders: lava droplets as unit cubes; the surface area counts
    the faces not shared between two cubes, the exterior area counts the
    faces reached by water flooding the box around the droplet. */
module Day18 {
  import opened Common

  type Cube = (int, int, int)

  /** `adjacent`: the two cubes are at Manhattan distance one. */
  predicate Adjacent(c1: Cube, c2: Cube)
  {
    Abs(c1.0 - c2.0) + Abs(c1.1 - c2.1) + Abs(c1.2 - c2.2) == 1
  }

  /** The six cubes sharing a face with `c`, in the order `fill` visits them. */
  function Neighbours(c: Cube): (r: seq<Cube>)
    ensures |r| == 6
  {
    var (x, y, z) := c;
    [(x + 1, y, z), (x - 1, y, z), (x, y + 1, z), (x, y - 1, z), (x, y, z + 1), (x, y, z - 1)]
  }

  /** Adjacency is exactly sharing a face: symmetric and irreflexive. */
  lemma AdjacentFacts(c1: Cube, c2: Cube)
    ensures Adjacent(c1, c2) <==> c2 in Neighbours(c1)
    ensures Adjacent(c1, c2) <==> Adjacent(c2, c1)
    ensures !Adjacent(c1, c1)
  {
    var (x, y, z) := c1;
    if Adjacent(c1, c2) {
      if c2.0 != x {
        assert c2.1 == y && c2.2 == z;
        assert c2 == (x + 1, y, z) || c2 == (x - 1, y, z);
      } else if c2.1 != y {
        assert c2.2 == z;
        assert c2 == (x, y + 1, z) || c2 == (x, y - 1, z);
      } else {
        assert c2 == (x, y, z + 1) || c2 == (x, y, z - 1);
      }
    }
  }

  /** Rust's derived order on tuples: lexicographic. */
  predicate Less(a: Cube, b: Cube)
  {
    a.0 < b.0 || (a.0 == b.0 && (a.1 < b.1 || (a.1 == b.1 && a.2 < b.2)))
  }

  /** Two different cubes are ordered one way or the other, never both. */
  lemma LessTrichotomy(a: Cube, b: Cube)
    ensures a != b ==> (Less(a, b) <==> !Less(b, a))
    ensures !Less(a, a)
  {
  }

  // ---------------------------------------------------------------------
  // Counting over pairs of indices.

  /** The number of `j < m` with `f(i, j)`. */
  function Row(f: (nat, nat) -> bool, i: nat, m: nat): (r: nat)
    ensures r <= m
  {
    if m == 0 then 0 else Row(f, i, m - 1) + (if f(i, m - 1) then 1 else 0)
  }

  /** The number of pairs `i < k`, `j < m` with `f(i, j)`. */
  function Table(f: (nat, nat) -> bool, k: nat, m: nat): (r: nat)
    ensures r <= k * m
  {
    if k == 0 then 0 else Table(f, k - 1, m) + Row(f, k - 1, m)
  }

  function Flip(f: (nat, nat) -> bool): (nat, nat) -> bool
  {
    (a: nat, b: nat) => f(b, a)
  }

  /** Counts add up when `g` holds exactly where one of `f1`, `f2` does. */
  lemma {:induction false} RowAdd(f1: (nat, nat) -> bool, f2: (nat, nat) -> bool, g: (nat, nat) -> bool, i: nat, m: nat)
    requires forall j: nat | j < m :: (g(i, j) <==> f1(i, j) || f2(i, j)) && !(f1(i, j) && f2(i, j))
    ensures Row(g, i, m) == Row(f1, i, m) + Row(f2, i, m)
  {
    if m > 0 {
      RowAdd(f1, f2, g, i, m - 1);
    }
  }

  lemma {:induction false} TableAdd(f1: (nat, nat) -> bool, f2: (nat, nat) -> bool, g: (nat, nat) -> bool, k: nat, m: nat)
    requires forall i: nat, j: nat | i < k && j < m :: (g(i, j) <==> f1(i, j) || f2(i, j)) && !(f1(i, j) && f2(i, j))
    ensures Table(g, k, m) == Table(f1, k, m) + Table(f2, k, m)
  {
    if k > 0 {
      TableAdd(f1, f2, g, k - 1, m);
      RowAdd(f1, f2, g, k - 1, m);
    }
  }

  /** The number of `i < m` with `f(i, k)`: a column of the table. */
  function Column(f: (nat, nat) -> bool, k: nat, m: nat): nat
  {
    if m == 0 then 0 else Column(f, k, m - 1) + (if f(m - 1, k) then 1 else 0)
  }

  /** Adding a column to the table. */
  lemma {:induction false} TableWider(f: (nat, nat) -> bool, k: nat, m: nat)
    ensures Table(f, k, m + 1) == Table(f, k, m) + Column(f, m, k)
  {
    if k > 0 {
      TableWider(f, k - 1, m);
    }
  }

  /** A column of the flipped table is a row of the table. */
  lemma {:induction false} ColumnOfFlip(f: (nat, nat) -> bool, k: nat, m: nat)
    ensures Column(Flip(f), k, m) == Row(f, k, m)
  {
    if m > 0 {
      ColumnOfFlip(f, k, m - 1);
    }
  }

  /** Counting the pairs row by row or column by column gives the same. */
  lemma {:induction false} TableSwap(f: (nat, nat) -> bool, k: nat, m: nat)
    ensures Table(f, k, m) == Table(Flip(f), m, k)
  {
    if k > 0 {
      TableSwap(f, k - 1, m);
      TableWider(Flip(f), m, k - 1);
      ColumnOfFlip(f, k - 1, m);
    }
  }

  // ---------------------------------------------------------------------
  // Part 1: surface area.

  /** Pairs of indices whose cubes are adjacent, the first below the second. */
  function Ordered(coords: seq<Cube>): (nat, nat) -> bool
  {
    (i: nat, j: nat) => i < |coords| && j < |coords| && Less(coords[i], coords[j]) && Adjacent(coords[i], coords[j])
  }

  /** Pairs of indices whose cubes are adjacent. */
  function Touching(coords: seq<Cube>): (nat, nat) -> bool
  {
    (i: nat, j: nat) => i < |coords| && j < |coords| && Adjacent(coords[i], coords[j])
  }

  /** The faces of cube `i` that touch no other cube. */
  function Exposed(coords: seq<Cube>, i: nat): int
  {
    6 - Row(Touching(coords), i, |coords|)
  }

  /** The faces of all cubes that touch no other cube. */
  function ExposedFaces(coords: seq<Cube>, k: nat): int
  {
    if k == 0 then 0 else ExposedFaces(coords, k - 1) + Exposed(coords, k - 1)
  }

  lemma {:induction false} ExposedFacesTable(coords: seq<Cube>, k: nat)
    ensures ExposedFaces(coords, k) == 6 * k - Table(Touching(coords), k, |coords|)
  {
    if k > 0 {
      ExposedFacesTable(coords, k - 1);
    }
  }

  /** The loop's count, six faces per cube and two less for each pair
      counted with its lower cube first, is the number of exposed faces:
      adjacent cubes differ, so every touching pair is counted exactly once. */
  lemma SurfaceIsExposed(coords: seq<Cube>)
    ensures 6 * |coords| - 2 * Table(Ordered(coords), |coords|, |coords|) == ExposedFaces(coords, |coords|)
  {
    var n := |coords|;
    var o := Ordered(coords);
    forall i: nat, j: nat | i < n && j < n
      ensures (Touching(coords)(i, j) <==> o(i, j) || Flip(o)(i, j)) && !(o(i, j) && Flip(o)(i, j))
    {
      AdjacentFacts(coords[i], coords[j]);
      LessTrichotomy(coords[i], coords[j]);
      if Adjacent(coords[i], coords[j]) {
        assert coords[i] != coords[j];
      }
    }
    TableAdd(o, Flip(o), Touching(coords), n, n);
    TableSwap(o, n, n);
    ExposedFacesTable(coords, n);
  }

  /** The nested loops of part 1. */
  method SurfaceArea(coords: seq<Cube>) returns (total: int)
    ensures total == 6 * |coords| - 2 * Table(Ordered(coords), |coords|, |coords|)
    ensures total == ExposedFaces(coords, |coords|)
  {
    var n := |coords|;
    total := n * 6;
    for i := 0 to n
      invariant total == 6 * n - 2 * Table(Ordered(coords), i, n)
    {
      for j := 0 to n
        invariant total == 6 * n - 2 * (Table(Ordered(coords), i, n) + Row(Ordered(coords), i, j))
      {
        if Less(coords[i], coords[j]) {
          if Adjacent(coords[i], coords[j]) {
            total := total - 2;
          }
        }
      }
    }
    SurfaceIsExposed(coords);
  }

  // ---------------------------------------------------------------------
  // Part 2: flooding the box around the droplet.

  /** Where the water starts. */
  const ORIGIN: Cube := (0, 0, 0)

  /** The box `fill` floods: every coordinate in -1..20. */
  predicate InBox(c: Cube)
  {
    -1 <= c.0 <= 20 && -1 <= c.1 <= 20 && -1 <= c.2 <= 20
  }

  ghost function Box(): set<Cube>
  {
    set x: int, y: int, z: int | -1 <= x <= 20 && -1 <= y <= 20 && -1 <= z <= 20 :: (x, y, z)
  }

  lemma InBoxIff(c: Cube)
    ensures c in Box() <==> InBox(c)
  {
    if InBox(c) {
      assert c == (c.0, c.1, c.2);
    }
  }

  /** The bounds test of `maybe_enqueue` as written: `y < -1` appears twice
      and `z < -1` not at all. */
  predicate PassesEnqueueTest(c: Cube)
  {
    !(c.0 < -1 || c.0 > 20 || c.1 < -1 || c.1 > 20 || c.1 < -1 || c.2 > 20)
  }

  /** The test lets through a cube below the box ... */
  lemma EnqueueTestLetsThrough()
    ensures PassesEnqueueTest((0, 0, -2)) && !InBox((0, 0, -2))
  {
  }

  /** ... but rejects nothing inside it, and `fill` drops what is outside. */
  lemma EnqueueTestHarmless(c: Cube)
    ensures InBox(c) ==> PassesEnqueueTest(c)
  {
  }

  /** `maybe_enqueue` */
  method MaybeEnqueue(c: Cube, queue: seq<Cube>) returns (queue': seq<Cube>)
    ensures PassesEnqueueTest(c) ==> queue' == queue + [c]
    ensures !PassesEnqueueTest(c) ==> queue' == queue
  {
    var (x, y, z) := c;
    if x < -1 || x > 20 || y < -1 || y > 20 || y < -1 || z > 20 {
      return queue;
    }
    queue' := queue + [c];
  }

  /** The cubes of `cs` that pass the enqueue test, in order. */
  function Passing(cs: seq<Cube>): (r: seq<Cube>)
    ensures forall c | c in r :: c in cs
    ensures forall c | c in cs && InBox(c) :: c in r
  {
    if cs == [] then []
    else Passing(cs[..|cs| - 1]) + (if PassesEnqueueTest(cs[|cs| - 1]) then [cs[|cs| - 1]] else [])
  }

  /** The six `maybe_enqueue` calls for the neighbours of `c`. */
  method EnqueueNeighbours(c: Cube, queue: seq<Cube>) returns (queue': seq<Cube>)
    ensures queue' == queue + Passing(Neighbours(c))
  {
    var (x, y, z) := c;
    var ns := Neighbours(c);
    queue' := queue;
    for t := 0 to 6
      invariant queue' == queue + Passing(ns[..t])
    {
      assert ns[..t + 1][..t] == ns[..t];
      queue' := MaybeEnqueue(ns[t], queue');
    }
    assert ns[..6] == ns;
  }

  /** The lava cubes inside the box among `cs`, with repetitions. */
  function LavaHits(lava: set<Cube>, cs: seq<Cube>): (r: nat)
    ensures r <= |cs|
  {
    if cs == [] then 0
    else LavaHits(lava, cs[..|cs| - 1]) + (if InBox(cs[|cs| - 1]) && cs[|cs| - 1] in lava then 1 else 0)
  }

  lemma {:induction false} LavaHitsAppend(lava: set<Cube>, a: seq<Cube>, b: seq<Cube>)
    ensures LavaHits(lava, a + b) == LavaHits(lava, a) + LavaHits(lava, b)
  {
    if b != [] {
      LavaHitsAppend(lava, a, b[..|b| - 1]);
      assert (a + b)[..|a + b| - 1] == a + b[..|b| - 1];
    } else {
      assert a + b == a;
    }
  }

  /** A single cube is a hit when it is lava inside the box. */
  lemma LavaHitsOne(lava: set<Cube>, c: Cube)
    ensures LavaHits(lava, [c]) == if InBox(c) && c in lava then 1 else 0
  {
    assert [c][..0] == [];
  }

  /** Dropping what fails the enqueue test loses no lava inside the box. */
  lemma {:induction false} PassingHits(lava: set<Cube>, cs: seq<Cube>)
    ensures LavaHits(lava, Passing(cs)) == LavaHits(lava, cs)
  {
    if cs != [] {
      var pre := cs[..|cs| - 1];
      var last := cs[|cs| - 1];
      var kept := if PassesEnqueueTest(last) then [last] else [];
      assert Passing(cs) == Passing(pre) + kept;
      PassingHits(lava, pre);
      LavaHitsAppend(lava, Passing(pre), kept);
      LavaHitsOne(lava, last);
      assert LavaHits(lava, kept) == if InBox(last) && last in lava then 1 else 0;
    }
  }

  /** The lava faces seen from the water cells, counted cell by cell. */
  function Faces(lava: set<Cube>, visited: seq<Cube>): nat
  {
    if visited == [] then 0
    else Faces(lava, visited[..|visited| - 1]) + LavaHits(lava, Neighbours(visited[|visited| - 1]))
  }

  /** The set of cubes listed in `cs`. */
  ghost function Cells(cs: seq<Cube>): set<Cube>
  {
    set c | c in cs
  }

  /** Water cells are the visited ones, each once, inside the box and not lava. */
  ghost predicate WaterCells(lava: set<Cube>, water: set<Cube>, visited: seq<Cube>)
  {
    (forall c :: c in water <==> c in visited) &&
    (forall s, t | 0 <= s < t < |visited| :: visited[s] != visited[t]) &&
    (forall t | 0 <= t < |visited| :: InBox(visited[t]) && visited[t] !in lava)
  }

  /** Every neighbour of a water cell inside the box that is not lava is
      water already or waiting in the queue. */
  ghost predicate Frontier(lava: set<Cube>, water: set<Cube>, queue: seq<Cube>)
  {
    forall w, n | w in water && n in Neighbours(w) && InBox(n) && n !in lava :: n in water || n in queue
  }

  /** The water spreads from the origin: each visited cell after the first
      touches an earlier one, and every queued cube is the origin or
      touches a water cell. */
  ghost predicate Spread(visited: seq<Cube>, queue: seq<Cube>)
  {
    (|visited| > 0 ==> visited[0] == ORIGIN) &&
    (forall t | 0 < t < |visited| :: exists s | 0 <= s < t :: Adjacent(visited[s], visited[t])) &&
    (forall q | q in queue :: q == ORIGIN || exists s | 0 <= s < |visited| :: Adjacent(visited[s], q))
  }

  /** Taking the head off the queue keeps the frontier when the head is
      outside the box, lava, or water already. */
  lemma FrontierDequeue(lava: set<Cube>, water: set<Cube>, queue: seq<Cube>)
    requires queue != [] && Frontier(lava, water, queue)
    requires !InBox(queue[0]) || queue[0] in lava || queue[0] in water
    ensures Frontier(lava, water, queue[1..])
  {
    forall w, n | w in water && n in Neighbours(w) && InBox(n) && n !in lava && n !in water
      ensures n in queue[1..]
    {
      assert n in queue && n != queue[0];
      var i :| 0 <= i < |queue| && queue[i] == n;
      assert queue[1..][i - 1] == n;
    }
  }

  /** A new water cell keeps the frontier once its neighbours are queued. */
  lemma FrontierFlood(lava: set<Cube>, water: set<Cube>, queue: seq<Cube>, c: Cube)
    requires queue != [] && queue[0] == c && Frontier(lava, water, queue)
    ensures Frontier(lava, water + {c}, queue[1..] + Passing(Neighbours(c)))
  {
    var q' := queue[1..] + Passing(Neighbours(c));
    forall w, n | w in water + {c} && n in Neighbours(w) && InBox(n) && n !in lava && n !in water + {c}
      ensures n in q'
    {
      if w == c {
        assert n in Passing(Neighbours(c));
      } else {
        assert n in queue && n != queue[0];
        var i :| 0 <= i < |queue| && queue[i] == n;
        assert q'[i - 1] == n;
      }
    }
  }

  /** A new water cell keeps the spread from the origin. */
  lemma SpreadFlood(visited: seq<Cube>, water: set<Cube>, lava: set<Cube>, queue: seq<Cube>, c: Cube)
    requires queue != [] && queue[0] == c && c !in water
    requires WaterCells(lava, water, visited) && Spread(visited, queue)
    ensures Spread(visited + [c], queue[1..] + Passing(Neighbours(c)))
  {
    SpreadFloodVisited(visited, water, lava, queue, c);
    SpreadFloodQueue(visited, queue, c);
  }

  /** The new water cell touches an earlier one, unless it is the origin
      and the first. */
  lemma SpreadFloodVisited(visited: seq<Cube>, water: set<Cube>, lava: set<Cube>, queue: seq<Cube>, c: Cube)
    requires queue != [] && queue[0] == c && c !in water
    requires WaterCells(lava, water, visited) && Spread(visited, queue)
    ensures var v' := visited + [c];
      (|v'| > 0 ==> v'[0] == ORIGIN) &&
      forall t | 0 < t < |v'| :: exists s | 0 <= s < t :: Adjacent(v'[s], v'[t])
  {
    var v' := visited + [c];
    assert c in queue;
    if |visited| > 0 {
      assert c != ORIGIN by {
        assert visited[0] in water;
      }
      var s :| 0 <= s < |visited| && Adjacent(visited[s], c);
      assert Adjacent(v'[s], v'[|visited|]);
    }
    forall t | 0 < t < |v'|
      ensures exists s | 0 <= s < t :: Adjacent(v'[s], v'[t])
    {
      if t < |visited| {
        var s :| 0 <= s < t && Adjacent(visited[s], visited[t]);
        assert Adjacent(v'[s], v'[t]);
      }
    }
  }

  /** Every cube still queued, and every neighbour of the new water cell,
      is the origin or touches a water cell. */
  lemma SpreadFloodQueue(visited: seq<Cube>, queue: seq<Cube>, c: Cube)
    requires queue != [] && queue[0] == c && Spread(visited, queue)
    ensures var v', q' := visited + [c], queue[1..] + Passing(Neighbours(c));
      forall q | q in q' :: q == ORIGIN || exists s | 0 <= s < |v'| :: Adjacent(v'[s], q)
  {
    var v' := visited + [c];
    var q' := queue[1..] + Passing(Neighbours(c));
    forall q | q in q'
      ensures q == ORIGIN || exists s | 0 <= s < |v'| :: Adjacent(v'[s], q)
    {
      if q in queue[1..] {
        assert q in queue;
        if q != ORIGIN {
          var s :| 0 <= s < |visited| && Adjacent(visited[s], q);
          assert Adjacent(v'[s], q);
        }
      } else {
        assert q in Neighbours(c);
        AdjacentFacts(c, q);
        assert Adjacent(v'[|visited|], q);
      }
    }
  }

  /** Dequeueing a cube that is not flooded keeps the spread. */
  lemma SpreadDequeue(visited: seq<Cube>, queue: seq<Cube>)
    requires queue != [] && Spread(visited, queue)
    ensures Spread(visited, queue[1..])
  {
    forall q | q in queue[1..]
      ensures q == ORIGIN || exists s | 0 <= s < |visited| :: Adjacent(visited[s], q)
    {
      assert q in queue;
    }
  }

  /** A flooded cube is new, inside the box and not lava. */
  lemma WaterFlood(lava: set<Cube>, water: set<Cube>, visited: seq<Cube>, c: Cube)
    requires WaterCells(lava, water, visited) && c !in water && InBox(c) && c !in lava
    ensures WaterCells(lava, water + {c}, visited + [c])
    ensures |Box() - (water + {c})| < |Box() - water|
  {
    InBoxIff(c);
    assert Box() - (water + {c}) == (Box() - water) - {c};
  }

  lemma FacesFlood(lava: set<Cube>, visited: seq<Cube>, c: Cube)
    ensures Faces(lava, visited + [c]) == Faces(lava, visited) + LavaHits(lava, Neighbours(c))
  {
    assert (visited + [c])[..|visited|] == visited;
  }

  lemma HitsDequeue(lava: set<Cube>, queue: seq<Cube>)
    requires queue != []
    ensures LavaHits(lava, queue) == LavaHits(lava, queue[1..]) + (if InBox(queue[0]) && queue[0] in lava then 1 else 0)
  {
    LavaHitsAppend(lava, [queue[0]], queue[1..]);
    assert [queue[0]] + queue[1..] == queue;
    assert [queue[0]][..0] == [];
  }

  /** What the flooding loop keeps: the water cells so far, the frontier,
      the spread from the origin, the area counted so far plus the hits
      still waiting in the queue, and the origin's fate. */
  ghost predicate FillInv(lava: set<Cube>, water: set<Cube>, visited: seq<Cube>, queue: seq<Cube>, area: int)
  {
    WaterCells(lava, water, visited) && Frontier(lava, water, queue) && Spread(visited, queue) &&
    area + LavaHits(lava, queue) == LavaHits(lava, [ORIGIN]) + Faces(lava, visited) &&
    (ORIGIN in lava ==> visited == []) &&
    (ORIGIN !in lava ==> ORIGIN in water || ORIGIN in queue)
  }

  /** Dropping a queued cube that is outside the box, lava or water keeps
      the loop's invariant, counting a face when it is lava. */
  lemma FillDequeue(lava: set<Cube>, water: set<Cube>, visited: seq<Cube>, queue: seq<Cube>, area: int)
    requires queue != [] && FillInv(lava, water, visited, queue, area)
    requires !InBox(queue[0]) || queue[0] in lava || queue[0] in water
    ensures FillInv(lava, water, visited, queue[1..], area + if InBox(queue[0]) && queue[0] in lava then 1 else 0)
  {
    HitsDequeue(lava, queue);
    FrontierDequeue(lava, water, queue);
    SpreadDequeue(visited, queue);
  }

  /** Flooding the head of the queue keeps the loop's invariant and leaves
      fewer dry cells in the box. */
  lemma FillFlood(lava: set<Cube>, water: set<Cube>, visited: seq<Cube>, queue: seq<Cube>, area: int)
    requires queue != [] && FillInv(lava, water, visited, queue, area)
    requires InBox(queue[0]) && queue[0] !in lava && queue[0] !in water
    ensures FillInv(lava, water + {queue[0]}, visited + [queue[0]], queue[1..] + Passing(Neighbours(queue[0])), area)
    ensures |Box() - (water + {queue[0]})| < |Box() - water|
  {
    var c := queue[0];
    HitsDequeue(lava, queue);
    FrontierFlood(lava, water, queue, c);
    SpreadFlood(visited, water, lava, queue, c);
    WaterFlood(lava, water, visited, c);
    FacesFlood(lava, visited, c);
    PassingHits(lava, Neighbours(c));
    LavaHitsAppend(lava, queue[1..], Passing(Neighbours(c)));
  }

  /** One turn of the flooding loop: the head of the queue is dropped when
      it is outside the box, counted when it is lava, dropped when it is
      water already, and flooded otherwise, queueing its neighbours. */
  method FillStep(lava: set<Cube>, area: int, water: set<Cube>, ghost visited: seq<Cube>, queue: seq<Cube>)
    returns (area': int, water': set<Cube>, ghost visited': seq<Cube>, queue': seq<Cube>)
    requires queue != [] && FillInv(lava, water, visited, queue, area)
    ensures FillInv(lava, water', visited', queue', area')
    ensures |Box() - water'| < |Box() - water| || (water' == water && |queue'| < |queue|)
  {
    var c := queue[0];
    var (x, y, z) := c;
    area', water', visited', queue' := area, water, visited, queue[1..];
    if x < -1 || x > 20 || y < -1 || y > 20 || z < -1 || z > 20 {
      FillDequeue(lava, water, visited, queue, area);
    } else if c in lava {
      assert InBox(c);
      FillDequeue(lava, water, visited, queue, area);
      area' := area + 1;
    } else if c in water {
      FillDequeue(lava, water, visited, queue, area);
    } else {
      assert InBox(c);
      FillFlood(lava, water, visited, queue, area);
      water' := water + {c};
      visited' := visited + [c];
      queue' := EnqueueNeighbours(c, queue[1..]);
    }
  }

  /** `fill`: breadth-first flooding from the origin. Water ends up as the
      cells of the box reachable from the origin without crossing lava,
      and `area` counts each (water cell, lava neighbour in the box) pair
      once, plus one when the origin itself is lava. */
  method Fill(coords: seq<Cube>) returns (area: int, ghost visited: seq<Cube>)
    ensures var lava := set c | c in coords;
      WaterCells(lava, Cells(visited), visited) &&
      area == LavaHits(lava, [ORIGIN]) + Faces(lava, visited) &&
      Frontier(lava, Cells(visited), []) &&
      (ORIGIN !in lava <==> ORIGIN in visited) &&
      Spread(visited, [])
  {
    var lava: set<Cube> := set c | c in coords;
    area := 0;
    var water: set<Cube> := {};
    var queue: seq<Cube> := [ORIGIN];
    visited := [];
    while queue != []
      invariant FillInv(lava, water, visited, queue, area)
      decreases |Box() - water|, |queue|
    {
      area, water, visited, queue := FillStep(lava, area, water, visited, queue);
    }
    assert water == Cells(visited);
  }

  method Solve(coords: seq<Cube>) returns (surface: int, exterior: int)
    ensures surface == ExposedFaces(coords, |coords|)
    ensures exists visited: seq<Cube> :: var lava := set c | c in coords;
      WaterCells(lava, Cells(visited), visited) &&
      exterior == LavaHits(lava, [ORIGIN]) + Faces(lava, visited) &&
      Frontier(lava, Cells(visited), []) && Spread(visited, [])
  {
    surface := SurfaceArea(coords);
    ghost var visited;
    exterior, visited := Fill(coords);
  }
}
