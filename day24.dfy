/** Blizzard Basin: crossing a walled valley whose inner cells are swept by
    blizzards that move one cell a minute and wrap around, found by A* over
    (cell, minute) pairs. */
module Day24 {
  import opened Common

  datatype Coord = Coord(x: int, y: int)

  /** A cell at a minute: the nodes of the search. */
  datatype Pos = Pos(coord: Coord, time: int)

  /** `dist`: the Manhattan distance, the A* heuristic. */
  function Dist(a: Coord, b: Coord): (r: nat)
    ensures r == 0 <==> a == b
  {
    Abs(a.x - b.x) + Abs(a.y - b.y)
  }

  lemma DistFacts(a: Coord, b: Coord, c: Coord)
    ensures Dist(a, b) == Dist(b, a)
    ensures Dist(a, b) == 0 <==> a == b
    ensures Dist(a, c) <= Dist(a, b) + Dist(b, c)
  {
  }

  // ---------------------------------------------------------------------
  // Blizzards.

  predicate IsBlizzard(dir: char)
  {
    dir == '<' || dir == '>' || dir == 'v' || dir == '^'
  }

  /** `blizzard_pos`: where a blizzard starting at `c` is after `time`
      minutes, with Rust's remainder; the inner valley is `width` by
      `height` cells starting at (1, 1). */
  function BlizzardPos(c: Coord, time: int, dir: char, width: int, height: int): (r: Coord)
    requires IsBlizzard(dir) && width > 0 && height > 0
    ensures (dir == '<' || dir == '>') ==> r.y == c.y
    ensures (dir == 'v' || dir == '^') ==> r.x == c.x
  {
    var n := time;
    match dir
    case '<' => Coord(TruncRem((c.x - 1) + width - TruncRem(n, width), width) + 1, c.y)
    case '>' => Coord(TruncRem((c.x - 1) + TruncRem(n, width), width) + 1, c.y)
    case 'v' => Coord(c.x, TruncRem((c.y - 1) + TruncRem(n, height), height) + 1)
    case '^' => Coord(c.x, TruncRem((c.y - 1) + height - TruncRem(n, height), height) + 1)
  }

  /** Euclidean division is unique. */
  lemma DivModUnique(a: int, m: int, q: int, r: int)
    requires m > 0 && a == m * q + r && 0 <= r < m
    ensures a % m == r && a / m == q
  {
    var q', r' := a / m, a % m;
    assert m * (q - q') == r' - r by {
      MulSub(m, q, q');
    }
    if q != q' {
      MulAbsAtLeast(m, q - q');
      assert false;
    }
  }

  /** Adding a multiple of the modulus does not change the remainder. */
  lemma ModAddMultiple(a: int, m: int, k: int)
    requires m > 0
    ensures (a + m * k) % m == a % m
  {
    var q, r := a / m, a % m;
    assert a + m * k == m * (q + k) + r by {
      assert m * (q + k) == m * q + m * k;
    }
    DivModUnique(a + m * k, m, q + k, r);
  }

  /** `(a + m - n % m) % m` is `(a - n) % m` for non-negative `a` and `n`. */
  lemma ModBack(a: int, n: int, m: int)
    requires m > 0 && a >= 0 && n >= 0
    ensures (a + m - n % m) % m == (a - n) % m
  {
    var q := n / m;
    assert a + m - n % m == (a - n) + m * (q + 1) by {
      assert n == m * q + n % m;
      assert m * (q + 1) == m * q + m;
    }
    ModAddMultiple(a - n, m, q + 1);
  }

  /** `(a + n % m) % m` is `(a + n) % m`. */
  lemma ModForward(a: int, n: int, m: int)
    requires m > 0
    ensures (a + n % m) % m == (a + n) % m
  {
    var q := n / m;
    assert a + n == (a + n % m) + m * q;
    ModAddMultiple(a + n % m, m, q);
  }

  /** A blizzard starting inside the valley stays inside, on its row or
      column, shifted by the elapsed minutes modulo the valley's size:
      forwards for '>' and 'v', backwards for '<' and '^'. */
  lemma BlizzardMoves(c: Coord, time: int, dir: char, width: int, height: int)
    requires IsBlizzard(dir) && width > 0 && height > 0
    requires 1 <= c.x <= width && 1 <= c.y <= height && time >= 0
    ensures var r := BlizzardPos(c, time, dir, width, height);
      1 <= r.x <= width && 1 <= r.y <= height &&
      (dir == '>' ==> r == Coord((c.x - 1 + time) % width + 1, c.y)) &&
      (dir == '<' ==> r == Coord((c.x - 1 - time) % width + 1, c.y)) &&
      (dir == 'v' ==> r == Coord(c.x, (c.y - 1 + time) % height + 1)) &&
      (dir == '^' ==> r == Coord(c.x, (c.y - 1 - time) % height + 1))
  {
    var m := if dir == '<' || dir == '>' then width else height;
    var a := if dir == '<' || dir == '>' then c.x - 1 else c.y - 1;
    TruncRemNonNegative(time, m);
    var n := time % m;
    if dir == '>' || dir == 'v' {
      TruncRemNonNegative(a + n, m);
      ModForward(a, time, m);
    } else {
      TruncRemNonNegative(a + m - n, m);
      ModBack(a, time, m);
    }
  }

  /** Blizzards are back where they started at minute 0. */
  lemma BlizzardStart(c: Coord, dir: char, width: int, height: int)
    requires IsBlizzard(dir) && width > 0 && height > 0
    requires 1 <= c.x <= width && 1 <= c.y <= height
    ensures BlizzardPos(c, 0, dir, width, height) == c
  {
    BlizzardMoves(c, 0, dir, width, height);
    DivModUnique(c.x - 1, width, 0, c.x - 1);
    DivModUnique(c.y - 1, height, 0, c.y - 1);
  }

  /** Rust's remainder of a non-negative time ignores added multiples of
      the modulus. */
  lemma SameRemainder(time: int, m: int, k: nat)
    requires m > 0 && time >= 0
    ensures TruncRem(time + m * k, m) == TruncRem(time, m)
  {
    assert m * k >= 0;
    TruncRemNonNegative(time, m);
    TruncRemNonNegative(time + m * k, m);
    ModAddMultiple(time, m, k);
  }

  /** A blizzard's position depends on the time only through its remainder
      modulo the length of its row or column. */
  lemma SamePhase(c: Coord, t1: int, t2: int, dir: char, width: int, height: int)
    requires IsBlizzard(dir) && width > 0 && height > 0
    requires dir == '<' || dir == '>' ==> TruncRem(t1, width) == TruncRem(t2, width)
    requires dir == 'v' || dir == '^' ==> TruncRem(t1, height) == TruncRem(t2, height)
    ensures BlizzardPos(c, t1, dir, width, height) == BlizzardPos(c, t2, dir, width, height)
  {
  }

  /** A blizzard's position repeats every `width` minutes along a row and
      every `height` minutes along a column. */
  lemma BlizzardPeriodic(c: Coord, time: int, dir: char, width: int, height: int)
    requires IsBlizzard(dir) && width > 0 && height > 0 && time >= 0
    ensures dir == '<' || dir == '>' ==> BlizzardPos(c, time + width, dir, width, height) == BlizzardPos(c, time, dir, width, height)
    ensures dir == 'v' || dir == '^' ==> BlizzardPos(c, time + height, dir, width, height) == BlizzardPos(c, time, dir, width, height)
  {
    if dir == '<' || dir == '>' {
      SameRemainder(time, width, 1);
      SamePhase(c, time + width, time, dir, width, height);
    } else {
      SameRemainder(time, height, 1);
      SamePhase(c, time + height, time, dir, width, height);
    }
  }

  /** Shifting time by a multiple of the row and column lengths leaves
      every blizzard where it was. */
  lemma BlizzardShift(c: Coord, time: int, dir: char, width: int, height: int)
    requires IsBlizzard(dir) && width > 0 && height > 0 && time >= 0
    ensures BlizzardPos(c, time + width * height, dir, width, height) == BlizzardPos(c, time, dir, width, height)
  {
    if dir == '<' || dir == '>' {
      SameRemainder(time, width, height);
    } else {
      assert height * width == width * height;
      SameRemainder(time, height, width);
    }
    SamePhase(c, time + width * height, time, dir, width, height);
  }

  /** The valley as parsed: the starting blizzards, the walls and the size
      of the inner area. */
  datatype Valley = Valley(blizzards: map<Coord, char>, walls: set<Coord>, width: int, height: int)

  predicate ValidValley(v: Valley)
  {
    v.width > 0 && v.height > 0 && forall c | c in v.blizzards :: IsBlizzard(v.blizzards[c])
  }

  /** The cells holding a blizzard at `time`. */
  function BlizzardsAt(v: Valley, time: int): set<Coord>
    requires ValidValley(v)
  {
    set c | c in v.blizzards :: BlizzardPos(c, time, v.blizzards[c], v.width, v.height)
  }

  /** The whole blizzard pattern repeats every `width * height` minutes. */
  lemma BlizzardsRepeat(v: Valley, time: int)
    requires ValidValley(v) && time >= 0
    ensures BlizzardsAt(v, time + v.width * v.height) == BlizzardsAt(v, time)
  {
    forall c | c in v.blizzards
      ensures BlizzardPos(c, time + v.width * v.height, v.blizzards[c], v.width, v.height)
           == BlizzardPos(c, time, v.blizzards[c], v.width, v.height)
    {
      BlizzardShift(c, time, v.blizzards[c], v.width, v.height);
    }
  }

  // ---------------------------------------------------------------------
  // Reading the map.

  /** `match_to_coord`: the cell of the character at byte offset `start`,
      lines being `width + 3` bytes long with their newline. */
  function MatchToCoord(start: nat, width: int): (c: Coord)
    requires width + 3 > 0
    ensures 0 <= c.x < width + 3 && c.y >= 0 && start == c.y * (width + 3) + c.x
  {
    TruncRemNonNegative(start, width + 3);
    Coord(TruncRem(start, width + 3), FloorDiv(start, width + 3))
  }

  /** The offset and the cell determine each other. */
  lemma MatchToCoordRoundTrip(start: nat, width: int)
    requires width + 3 > 0
    ensures var c := MatchToCoord(start, width);
      0 <= c.x < width + 3 && c.y >= 0 && start == c.y * (width + 3) + c.x
  {
    TruncRemNonNegative(start, width + 3);
  }

  lemma MatchToCoordOfCell(x: int, y: nat, width: int)
    requires width + 3 > 0 && 0 <= x < width + 3
    ensures y * (width + 3) + x >= 0
    ensures MatchToCoord(y * (width + 3) + x, width) == Coord(x, y)
  {
    var m := width + 3;
    assert y * m >= 0;
    var s := y * m + x;
    TruncRemNonNegative(s, m);
    DivModUnique(s, m, y, x);
  }

  // ---------------------------------------------------------------------
  // Moves.

  /** The four steps and waiting, in the order `all_neighbors` lists them. */
  function Candidates(c: Coord): (r: seq<Coord>)
    ensures |r| == 5
  {
    [Coord(c.x + 1, c.y), Coord(c.x - 1, c.y), Coord(c.x, c.y + 1), Coord(c.x, c.y - 1), c]
  }

  /** Moving is symmetric: `b` is a move from `a` exactly when `a` is one
      from `b`. */
  lemma CandidatesSymmetric(a: Coord, b: Coord)
    ensures b in Candidates(a) <==> a in Candidates(b)
    ensures b in Candidates(a) ==> Dist(a, b) <= 1
  {
  }

  /** Inside the bounding rectangle and free of blizzards and walls. */
  predicate Eligible(c: Coord, width: int, height: int, blizzards: set<Coord>, walls: set<Coord>)
  {
    c.x >= 0 && c.y >= 0 && c.x < width + 2 && c.y < height + 2 && c !in blizzards && c !in walls
  }

  function Keep(cs: seq<Coord>, time: int, width: int, height: int, blizzards: set<Coord>, walls: set<Coord>): (r: seq<Pos>)
    ensures forall p :: p in r <==> p.time == time && p.coord in cs && Eligible(p.coord, width, height, blizzards, walls)
  {
    if cs == [] then []
    else
      var rest := Keep(cs[1..], time, width, height, blizzards, walls);
      if Eligible(cs[0], width, height, blizzards, walls) then [Pos(cs[0], time)] + rest else rest
  }

  /** `all_neighbors`: the eligible moves from `p`, one minute later. */
  function AllNeighbors(p: Pos, width: int, height: int, blizzards: set<Coord>, walls: set<Coord>): (r: seq<Pos>)
    ensures forall q :: q in r <==>
      q.time == p.time + 1 && q.coord in Candidates(p.coord) && Eligible(q.coord, width, height, blizzards, walls)
  {
    Keep(Candidates(p.coord), p.time + 1, width, height, blizzards, walls)
  }

  // ---------------------------------------------------------------------
  // Legal crossings.

  /** How a move is checked against the blizzards: the code as written
      looks at the blizzards of the minute being left, the corrected rule
      at those of the minute arrived in. */
  datatype Rule = AsWritten | Corrected

  function Lag(rule: Rule): (r: nat)
    ensures r <= 1 && (r == 1 <==> rule == Corrected)
  {
    if rule == Corrected then 1 else 0
  }

  /** A move from `p` to `q` as the search allows it under `rule`. */
  ghost predicate Step(v: Valley, rule: Rule, p: Pos, q: Pos)
    requires ValidValley(v)
  {
    q.time == p.time + 1 && q.coord in Candidates(p.coord) &&
    Eligible(q.coord, v.width, v.height, BlizzardsAt(v, p.time + Lag(rule)), v.walls)
  }

  /** `q` is the end of a chain of moves starting at `start` at minute `t0`. */
  ghost predicate Reachable(v: Valley, rule: Rule, start: Coord, t0: int, q: Pos)
    requires ValidValley(v)
    decreases q.time - t0
  {
    if q.time <= t0 then q == Pos(start, t0)
    else exists i | 0 <= i < 5 ::
      Step(v, rule, Pos(Candidates(q.coord)[i], q.time - 1), q) &&
      Reachable(v, rule, start, t0, Pos(Candidates(q.coord)[i], q.time - 1))
  }

  /** A legal move extends a chain. */
  lemma ReachStep(v: Valley, rule: Rule, start: Coord, t0: int, p: Pos, q: Pos)
    requires ValidValley(v) && Reachable(v, rule, start, t0, p) && Step(v, rule, p, q)
    ensures Reachable(v, rule, start, t0, q)
  {
    assert p.time >= t0;
    CandidatesSymmetric(p.coord, q.coord);
    var i :| 0 <= i < 5 && Candidates(q.coord)[i] == p.coord;
    assert Pos(Candidates(q.coord)[i], q.time - 1) == p;
  }

  /** Each minute moves at most one cell: a chain ending at `q` is at least
      as long as the distance it covered. */
  lemma {:induction false} ReachableBound(v: Valley, rule: Rule, start: Coord, t0: int, q: Pos)
    requires ValidValley(v) && Reachable(v, rule, start, t0, q)
    ensures q.time >= t0 && Dist(start, q.coord) <= q.time - t0
    decreases q.time - t0
  {
    if q.time > t0 {
      var i :| 0 <= i < 5 &&
        Step(v, rule, Pos(Candidates(q.coord)[i], q.time - 1), q) &&
        Reachable(v, rule, start, t0, Pos(Candidates(q.coord)[i], q.time - 1));
      var p := Pos(Candidates(q.coord)[i], q.time - 1);
      ReachableBound(v, rule, start, t0, p);
      CandidatesSymmetric(p.coord, q.coord);
      DistFacts(start, p.coord, q.coord);
    }
  }

  // ---------------------------------------------------------------------
  // The blizzard cache.

  /** The blizzard positions computed so far, by minute; shared by the
      searches of one run. */
  class BlizzardCache {
    var entries: map<int, set<Coord>>

    ghost predicate Valid(v: Valley)
      reads this
    {
      ValidValley(v) && forall t | t in entries :: entries[t] == BlizzardsAt(v, t)
    }

    constructor ()
      ensures entries == map[]
    {
      entries := map[];
    }

    /** The blizzards at `time`, computed on first use and then kept. */
    method At(v: Valley, time: int) returns (r: set<Coord>)
      requires Valid(v)
      modifies this
      ensures Valid(v) && r == BlizzardsAt(v, time)
      ensures time in old(entries) ==> entries == old(entries)
      ensures time !in old(entries) ==> entries == old(entries)[time := r]
    {
      if time in entries {
        r := entries[time];
      } else {
        r := BlizzardsAt(v, time);
        entries := entries[time := r];
      }
    }
  }

  // ---------------------------------------------------------------------
  // The search.

  /** An open-set entry: estimated total cost and position. */
  datatype Node = Node(fscore: int, pos: Pos)

  /** The order of the open set, field by field. */
  predicate Before(a: Node, b: Node)
  {
    a.fscore < b.fscore || (a.fscore == b.fscore &&
      (a.pos.coord.x < b.pos.coord.x || (a.pos.coord.x == b.pos.coord.x &&
        (a.pos.coord.y < b.pos.coord.y || (a.pos.coord.y == b.pos.coord.y &&
          a.pos.time <= b.pos.time)))))
  }

  predicate IsFirst(n: Node, s: set<Node>)
  {
    n in s && forall o | o in s :: Before(n, o)
  }

  lemma FirstExists(s: set<Node>) returns (m: Node)
    requires s != {}
    ensures IsFirst(m, s)
  {
    var x :| x in s;
    if s == {x} {
      m := x;
    } else {
      var m' := FirstExists(s - {x});
      m := if Before(x, m') then x else m';
      forall o | o in s
        ensures Before(m, o)
      {
        if o != x {
          assert Before(m', o);
        }
      }
    }
  }

  /** Only one node can come first. */
  lemma FirstUnique(s: set<Node>, a: Node, b: Node)
    requires IsFirst(a, s) && IsFirst(b, s)
    ensures a == b
  {
    assert Before(a, b) && Before(b, a);
  }

  const I32_MAX := 0x7fff_ffff

  datatype Outcome = Found(minute: int) | Exhausted | OutOfFuel

  /** Every scored position is scored with its minutes since `t0`. */
  predicate ScoredByTime(t0: int, gscore: map<Pos, int>)
  {
    forall p | p in gscore :: gscore[p] == p.time - t0
  }

  ghost predicate AllReachable(v: Valley, rule: Rule, start: Coord, t0: int, ps: set<Pos>)
    requires ValidValley(v)
  {
    forall p | p in ps :: Reachable(v, rule, start, t0, p)
  }

  /** Every scored position is reachable, scored with its minutes since `t0`. */
  ghost predicate Scores(v: Valley, rule: Rule, start: Coord, t0: int, gscore: map<Pos, int>)
    requires ValidValley(v)
  {
    ScoredByTime(t0, gscore) && AllReachable(v, rule, start, t0, gscore.Keys)
  }

  /** The score of a position one minute after `p`. */
  function ScoreAfter(p: Pos, t0: int): int
  {
    p.time + 1 - t0
  }

  /** Every queued position has a score. */
  predicate Tracked(open: set<Node>, gscore: map<Pos, int>)
  {
    forall n | n in open :: n.pos in gscore
  }

  /** The neighbours among `nbrs` a relaxation with score `g` adds. */
  function Fresh(nbrs: seq<Pos>, gscore: map<Pos, int>, g: int): set<Pos>
  {
    set q | q in nbrs && q !in gscore && g < I32_MAX
  }

  function Queued(added: set<Pos>, g: int, end: Coord): set<Node>
  {
    set q | q in added :: Node(g + Dist(q.coord, end), q)
  }

  lemma FreshStep(nbrs: seq<Pos>, i: nat, gscore: map<Pos, int>, g: int)
    requires i < |nbrs|
    ensures Fresh(nbrs[..i + 1], gscore, g) ==
      Fresh(nbrs[..i], gscore, g) + (if nbrs[i] !in gscore && g < I32_MAX then {nbrs[i]} else {})
  {
    assert nbrs[..i + 1] == nbrs[..i] + [nbrs[i]];
  }

  /** The neighbours listed with the blizzards of the rule's minute are
      exactly the legal moves. */
  lemma NeighborsAreSteps(v: Valley, rule: Rule, p: Pos, blizzards: set<Coord>, nbrs: seq<Pos>)
    requires ValidValley(v) && blizzards == BlizzardsAt(v, p.time + Lag(rule))
    requires nbrs == AllNeighbors(p, v.width, v.height, blizzards, v.walls)
    ensures forall q :: q in nbrs <==> Step(v, rule, p, q)
  {
  }

  /** Positions one legal move from a reachable one are reachable. */
  lemma ReachAdded(v: Valley, rule: Rule, start: Coord, t0: int, current: Pos, nbrs: seq<Pos>, ps: set<Pos>, added: set<Pos>)
    requires ValidValley(v) && AllReachable(v, rule, start, t0, ps) && current in ps
    requires forall q | q in nbrs :: Step(v, rule, current, q)
    requires added <= set q | q in nbrs
    ensures AllReachable(v, rule, start, t0, ps + added)
  {
    forall q | q in added
      ensures Reachable(v, rule, start, t0, q)
    {
      ReachStep(v, rule, start, t0, current, q);
    }
  }

  /** How one neighbour changes the scored keys and the open set. */
  lemma KeepBooks(gscore: map<Pos, int>, open: set<Node>, added: set<Pos>, scores: map<Pos, int>, queued: set<Node>,
                  nbr: Pos, g: int, end: Coord, took: bool, node: Node,
                  added': set<Pos>, scores': map<Pos, int>, queued': set<Node>)
    requires scores.Keys == gscore.Keys + added && queued == open + Queued(added, g, end)
    requires took <==> nbr !in scores && g < I32_MAX
    requires added' == added + (if nbr !in gscore && g < I32_MAX then {nbr} else {})
    requires scores' == if took then scores[nbr := g] else scores
    requires node == Node(g + Dist(nbr.coord, end), nbr)
    requires queued' == if took then queued + {node} else queued
    ensures scores'.Keys == gscore.Keys + added' && queued' == open + Queued(added', g, end)
  {
    if took {
      assert scores'.Keys == scores.Keys + {nbr};
    }
    QueuedAdd(added, nbr, g, end);
    if !took && nbr !in gscore && g < I32_MAX {
      assert added + {nbr} == added;
    }
  }

  lemma QueuedAdd(added: set<Pos>, q: Pos, g: int, end: Coord)
    ensures Queued(added + {q}, g, end) == Queued(added, g, end) + {Node(g + Dist(q.coord, end), q)}
  {
  }

  /** The loop over the neighbours in `search`: each one not scored yet is
      scored and queued; positions already scored are left alone, since
      they were reached in the same number of minutes. */
  method Relax(t0: int, end: Coord, current: Pos, nbrs: seq<Pos>,
               open: set<Node>, gscore: map<Pos, int>)
    returns (open': set<Node>, gscore': map<Pos, int>)
    requires ScoredByTime(t0, gscore) && Tracked(open, gscore)
    requires current in gscore
    requires forall q | q in nbrs :: q.time == current.time + 1
    ensures ScoredByTime(t0, gscore') && Tracked(open', gscore')
    ensures gscore'.Keys == gscore.Keys + Fresh(nbrs, gscore, ScoreAfter(current, t0))
    ensures open' == open + Queued(Fresh(nbrs, gscore, ScoreAfter(current, t0)), ScoreAfter(current, t0), end)
  {
    ghost var g := ScoreAfter(current, t0);
    ghost var added: set<Pos> := {};
    open', gscore' := open, gscore;
    for i := 0 to |nbrs|
      invariant ScoredByTime(t0, gscore') && Tracked(open', gscore')
      invariant added == Fresh(nbrs[..i], gscore, g)
      invariant gscore'.Keys == gscore.Keys + added
      invariant open' == open + Queued(added, g, end)
    {
      var nbr := nbrs[i];
      FreshStep(nbrs, i, gscore, g);
      var tentative := gscore'[current] + 1;
      var scored := if nbr in gscore' then gscore'[nbr] else I32_MAX;
      var node := Node(tentative + Dist(nbr.coord, end), nbr);
      ghost var scores, queued, took := gscore', open', tentative < scored;
      if tentative < scored {
        open' := open' + {node};
        gscore' := gscore'[nbr := tentative];
      }
      ghost var added' := added + (if nbr !in gscore && g < I32_MAX then {nbr} else {});
      KeepBooks(gscore, open, added, scores, queued, nbr, g, end, took, node, added', gscore', open');
      added := added';
    }
    assert nbrs[..|nbrs|] == nbrs;
    assert added == Fresh(nbrs, gscore, g);
    assert open' == open + Queued(Fresh(nbrs, gscore, g), g, end);
  }

  /** The legal moves from `p`, as `all_neighbors` lists them. */
  ghost function Moves(v: Valley, rule: Rule, p: Pos): seq<Pos>
    requires ValidValley(v)
  {
    AllNeighbors(p, v.width, v.height, BlizzardsAt(v, p.time + Lag(rule)), v.walls)
  }

  /** One pass of the search loop after taking `current` from the open
      set: fetch the blizzards, list the neighbours and relax them. */
  method Expand(v: Valley, rule: Rule, cache: BlizzardCache, start: Coord, end: Coord, t0: int, current: Pos,
                open: set<Node>, gscore: map<Pos, int>)
    returns (open': set<Node>, gscore': map<Pos, int>)
    requires cache.Valid(v) && Scores(v, rule, start, t0, gscore) && Tracked(open, gscore)
    requires current in gscore
    modifies cache
    ensures cache.Valid(v) && Scores(v, rule, start, t0, gscore') && Tracked(open', gscore')
    ensures gscore'.Keys == gscore.Keys + Fresh(Moves(v, rule, current), gscore, ScoreAfter(current, t0))
    ensures open' == open + Queued(Fresh(Moves(v, rule, current), gscore, ScoreAfter(current, t0)), ScoreAfter(current, t0), end)
  {
    var blizzards := cache.At(v, current.time + Lag(rule));
    var nbrs := AllNeighbors(current, v.width, v.height, blizzards, v.walls);
    assert nbrs == Moves(v, rule, current);
    NeighborsAreSteps(v, rule, current, blizzards, nbrs);
    open', gscore' := Relax(t0, end, current, nbrs, open, gscore);
    ReachAdded(v, rule, start, t0, current, nbrs, gscore.Keys, Fresh(nbrs, gscore, ScoreAfter(current, t0)));
  }

  /** `search`: A* from `start` at minute `t0` towards `end`. It reports
      the minute of the first end position taken from the open set, less
      one, plus the rule's lag; `fuel` bounds the number of nodes taken,
      and an empty open set is the point where the code panics. */
  method Search(v: Valley, rule: Rule, cache: BlizzardCache, start: Coord, end: Coord, t0: int, fuel: nat)
    returns (r: Outcome)
    requires cache.Valid(v)
    modifies cache
    ensures cache.Valid(v)
    ensures r.Found? ==> exists t :: Reachable(v, rule, start, t0, Pos(end, t)) && r.minute == t - 1 + Lag(rule)
    ensures r.Found? ==> r.minute >= t0 + Dist(start, end) - 1 + Lag(rule)
  {
    var open := {Node(Dist(start, end), Pos(start, t0))};
    var gscore := map[Pos(start, t0) := 0];
    var budget := fuel;
    while true
      invariant cache.Valid(v)
      invariant Scores(v, rule, start, t0, gscore) && Tracked(open, gscore)
      decreases budget
    {
      if budget == 0 {
        return OutOfFuel;
      }
      budget := budget - 1;
      if open == {} {
        return Exhausted;
      }
      var first := FirstExists(open);
      var node :| node in open && IsFirst(node, open);
      assert node.pos in gscore;
      open := open - {node};
      var current := node.pos;
      if current.coord == end {
        ReachableBound(v, rule, start, t0, current);
        return Found(current.time - 1 + Lag(rule));
      }
      open, gscore := Expand(v, rule, cache, start, end, t0, current, open, gscore);
    }
  }

  function StartOf(v: Valley): Coord
  {
    Coord(1, 0)
  }

  function EndOf(v: Valley): Coord
  {
    Coord(v.width, v.height + 1)
  }

  /** A legal crossing from `from`, setting off at minute `t0`, arrives at
      `to` at a minute the search reports as `m`. */
  ghost predicate Crossing(v: Valley, rule: Rule, from: Coord, to: Coord, t0: int, m: int)
    requires ValidValley(v)
  {
    exists t :: Reachable(v, rule, from, t0, Pos(to, t)) && m == t - 1 + Lag(rule)
  }

  /** `solve` after reading the map: part 1 crosses from the start to the
      end; part 2 goes on back to the start and then to the end again, each
      search setting off at the minute the previous one reported. */
  method Solve(v: Valley, rule: Rule, fuel: nat) returns (p1: Outcome, p2: Outcome)
    requires ValidValley(v)
    ensures p1.Found? ==>
      exists t :: Reachable(v, rule, StartOf(v), 0, Pos(EndOf(v), t)) && p1.minute == t - 1 + Lag(rule)
    ensures p1.Found? ==> p1.minute >= Dist(StartOf(v), EndOf(v)) - 1 + Lag(rule)
    ensures p2.Found? ==> p1.Found? && p2.minute >= p1.minute + 2 * (Dist(StartOf(v), EndOf(v)) - 1 + Lag(rule))
    ensures p2.Found? ==> exists back ::
      Crossing(v, rule, EndOf(v), StartOf(v), p1.minute, back) &&
      Crossing(v, rule, StartOf(v), EndOf(v), back, p2.minute)
  {
    var cache := new BlizzardCache();
    var start, end := StartOf(v), EndOf(v);
    p1 := Search(v, rule, cache, start, end, 0, fuel);
    p2 := p1;
    if p1.Found? {
      var back := Search(v, rule, cache, end, start, p1.minute, fuel);
      p2 := back;
      if back.Found? {
        DistFacts(start, end, start);
        p2 := Search(v, rule, cache, start, end, back.minute, fuel);
        assert Crossing(v, rule, end, start, p1.minute, back.minute);
        assert p2.Found? ==> Crossing(v, rule, start, end, back.minute, p2.minute);
      }
    }
  }

  // ---------------------------------------------------------------------
  // The off-by-one: a 1-by-1 valley with no blizzards.

  const TINY := Valley(map[], {Coord(0, 0), Coord(2, 0), Coord(0, 1), Coord(2, 1), Coord(0, 2), Coord(2, 2)}, 1, 1)

  lemma TinyHasNoBlizzards(t: int)
    ensures ValidValley(TINY) && BlizzardsAt(TINY, t) == {}
  {
  }

  lemma TinyStep(rule: Rule, p: Pos, q: Pos)
    requires p.time >= 0 && p.coord.y >= 0 && q.time == p.time + 1 && q.coord.x == 1 == p.coord.x && q.coord.y == p.coord.y + 1 <= 2
    ensures ValidValley(TINY) && Step(TINY, rule, p, q)
  {
    TinyHasNoBlizzards(p.time + Lag(rule));
  }

  /** Both rules let the elf go down the single column in two minutes. */
  lemma TinyCrossing(rule: Rule)
    ensures ValidValley(TINY)
    ensures Reachable(TINY, rule, Coord(1, 0), 0, Pos(Coord(1, 2), 2))
  {
    var a, b, c := Pos(Coord(1, 0), 0), Pos(Coord(1, 1), 1), Pos(Coord(1, 2), 2);
    TinyStep(rule, a, b);
    ReachStep(TINY, rule, Coord(1, 0), 0, a, b);
    TinyStep(rule, b, c);
    ReachStep(TINY, rule, Coord(1, 0), 0, b, c);
  }

  /** Under the rule as written the search can report minute 1 for a
      crossing of distance 2: fewer minutes than cells covered. */
  lemma AsWrittenTooEarly()
    ensures ValidValley(TINY)
    ensures Reachable(TINY, AsWritten, StartOf(TINY), 0, Pos(EndOf(TINY), 2))
    ensures 2 - 1 + Lag(AsWritten) < 0 + Dist(StartOf(TINY), EndOf(TINY))
  {
    TinyCrossing(AsWritten);
  }

  /** Under the corrected rule the same crossing reports minute 2, and no
      crossing of the valley ends sooner. */
  lemma CorrectedOnTiny()
    ensures ValidValley(TINY)
    ensures Reachable(TINY, Corrected, StartOf(TINY), 0, Pos(EndOf(TINY), 2))
    ensures forall t :: Reachable(TINY, Corrected, StartOf(TINY), 0, Pos(EndOf(TINY), t)) ==> t - 1 + Lag(Corrected) >= 2
  {
    TinyCrossing(Corrected);
    forall t | Reachable(TINY, Corrected, StartOf(TINY), 0, Pos(EndOf(TINY), t))
      ensures t >= 2
    {
      ReachableBound(TINY, Corrected, StartOf(TINY), 0, Pos(EndOf(TINY), t));
    }
  }
}
