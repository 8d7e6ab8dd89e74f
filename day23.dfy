/** Unstable Diffusion: elves on an unbounded grid spread out in rounds,
    each proposing a step in the first free direction and stepping only
    when no other elf proposed the same cell. */
module Day23 {
  import opened Common

  type Pos = (int, int)

  const NORTH: nat := 0
  const SOUTH: nat := 1
  const WEST: nat := 2
  const EAST: nat := 3

  /** The direction tried `n`-th in round `round`. */
  function Dir(round: nat, n: nat): (d: nat)
    ensures d < 4
  {
    (round + n) % 4
  }

  /** The three cells that must be empty to step in direction `d`. */
  function Adj(e: Pos, d: nat): seq<Pos>
    requires d < 4
  {
    var (x, y) := e;
    match d
    case 0 => [(x - 1, y - 1), (x, y - 1), (x + 1, y - 1)]
    case 1 => [(x - 1, y + 1), (x, y + 1), (x + 1, y + 1)]
    case 2 => [(x - 1, y - 1), (x - 1, y), (x - 1, y + 1)]
    case 3 => [(x + 1, y - 1), (x + 1, y), (x + 1, y + 1)]
  }

  /** The cell one step away in direction `d`: the middle of `Adj`. */
  function Target(e: Pos, d: nat): (t: Pos)
    requires d < 4
    ensures t == Adj(e, d)[1]
  {
    var (x, y) := e;
    match d
    case 0 => (x, y - 1)
    case 1 => (x, y + 1)
    case 2 => (x - 1, y)
    case 3 => (x + 1, y)
  }

  predicate Free(elves: set<Pos>, e: Pos, d: nat)
    requires d < 4
  {
    var a := Adj(e, d);
    !(a[0] in elves || a[1] in elves || a[2] in elves)
  }

  /** The targets of the free directions among the first `k` tried. */
  function FreeMoves(elves: set<Pos>, round: nat, e: Pos, k: nat): (r: seq<Pos>)
    requires k <= 4
    ensures |r| <= k
  {
    if k == 0 then []
    else
      var last := if Free(elves, e, Dir(round, k - 1)) then [Target(e, Dir(round, k - 1))] else [];
      FreeMoves(elves, round, e, k - 1) + last
  }

  /** What the filter in `do_one_round` keeps for elf `e`: the first free
      move, unless there is none or all four are free. */
  function Proposal(elves: set<Pos>, round: nat, e: Pos): Option<Pos>
  {
    var moves := FreeMoves(elves, round, e, 4);
    if |moves| == 0 || |moves| == 4 then None else Some(moves[0])
  }

  /** `possible_moves` */
  method PossibleMoves(e: Pos, round: nat, elves: set<Pos>) returns (moves: seq<Pos>)
    ensures moves == FreeMoves(elves, round, e, 4)
  {
    var (x, y) := e;
    moves := [];
    for n := 0 to 4
      invariant moves == FreeMoves(elves, round, e, n)
    {
      var dir := (round + n) % 4;
      var adj := Adj(e, dir);
      if !(adj[0] in elves || adj[1] in elves || adj[2] in elves) {
        moves := moves + [Target(e, dir)];
      }
    }
  }

  // ---------------------------------------------------------------------
  // Properties of a proposal.

  /** The move was made for a free direction among the first `k`. */
  predicate FromFree(elves: set<Pos>, round: nat, e: Pos, k: nat, t: Pos)
  {
    exists n | 0 <= n < k :: Free(elves, e, Dir(round, n)) && t == Target(e, Dir(round, n))
  }

  /** The move was made for the first free direction among the first `k`. */
  predicate FromFirstFree(elves: set<Pos>, round: nat, e: Pos, k: nat, t: Pos)
  {
    exists n | 0 <= n < k ::
      Free(elves, e, Dir(round, n)) && t == Target(e, Dir(round, n)) &&
      forall m | 0 <= m < n :: !Free(elves, e, Dir(round, m))
  }

  /** Every free move is the target of a free direction. */
  lemma {:induction false} FreeMovesFrom(elves: set<Pos>, round: nat, e: Pos, k: nat)
    requires k <= 4
    ensures forall i | 0 <= i < |FreeMoves(elves, round, e, k)| :: FromFree(elves, round, e, k, FreeMoves(elves, round, e, k)[i])
  {
    if k > 0 {
      FreeMovesFrom(elves, round, e, k - 1);
      var pre := FreeMoves(elves, round, e, k - 1);
      var r := FreeMoves(elves, round, e, k);
      forall i | 0 <= i < |r|
        ensures FromFree(elves, round, e, k, r[i])
      {
        if i < |pre| {
          assert r[i] == pre[i];
          var n :| 0 <= n < k - 1 && Free(elves, e, Dir(round, n)) && pre[i] == Target(e, Dir(round, n));
        } else {
          assert Free(elves, e, Dir(round, k - 1)) && r[i] == Target(e, Dir(round, k - 1));
        }
      }
    }
  }

  /** The first free move belongs to the first free direction. */
  lemma {:induction false} FreeMovesFirst(elves: set<Pos>, round: nat, e: Pos, k: nat)
    requires k <= 4
    ensures |FreeMoves(elves, round, e, k)| > 0 ==> FromFirstFree(elves, round, e, k, FreeMoves(elves, round, e, k)[0])
  {
    if k > 0 {
      FreeMovesFirst(elves, round, e, k - 1);
      FreeMovesNone(elves, round, e, k - 1);
      var pre := FreeMoves(elves, round, e, k - 1);
      var r := FreeMoves(elves, round, e, k);
      if |pre| > 0 {
        assert r[0] == pre[0];
        FirstFreeWider(elves, round, e, k - 1, pre[0]);
      } else if |r| > 0 {
        assert r[0] == Target(e, Dir(round, k - 1));
        FirstFreeLast(elves, round, e, k);
      }
    }
  }

  lemma FirstFreeWider(elves: set<Pos>, round: nat, e: Pos, k: nat, t: Pos)
    requires FromFirstFree(elves, round, e, k, t)
    ensures FromFirstFree(elves, round, e, k + 1, t)
  {
    var n :| 0 <= n < k && Free(elves, e, Dir(round, n)) && t == Target(e, Dir(round, n)) &&
      forall m | 0 <= m < n :: !Free(elves, e, Dir(round, m));
  }

  lemma FirstFreeLast(elves: set<Pos>, round: nat, e: Pos, k: nat)
    requires k > 0 && Free(elves, e, Dir(round, k - 1))
    requires forall m | 0 <= m < k - 1 :: !Free(elves, e, Dir(round, m))
    ensures FromFirstFree(elves, round, e, k, Target(e, Dir(round, k - 1)))
  {
  }

  /** There is no free move exactly when no direction is free. */
  lemma {:induction false} FreeMovesNone(elves: set<Pos>, round: nat, e: Pos, k: nat)
    requires k <= 4
    ensures |FreeMoves(elves, round, e, k)| == 0 <==> forall n | 0 <= n < k :: !Free(elves, e, Dir(round, n))
  {
    if k > 0 {
      FreeMovesNone(elves, round, e, k - 1);
    }
  }

  /** There is one free move per direction exactly when all are free. */
  lemma {:induction false} FreeMovesAll(elves: set<Pos>, round: nat, e: Pos, k: nat)
    requires k <= 4
    ensures |FreeMoves(elves, round, e, k)| == k <==> forall n | 0 <= n < k :: Free(elves, e, Dir(round, n))
  {
    if k > 0 {
      FreeMovesAll(elves, round, e, k - 1);
    }
  }

  /** A free move is the step to an empty cell next to the elf. */
  lemma FreeTargetEmpty(elves: set<Pos>, e: Pos, d: nat)
    requires d < 4 && Free(elves, e, d)
    ensures Target(e, d) !in elves && Target(e, d) != e
  {
  }

  /** All four directions are free exactly when no elf is among the eight
      cells around `e`. */
  lemma AllFreeIffAlone(elves: set<Pos>, round: nat, e: Pos)
    ensures |FreeMoves(elves, round, e, 4)| == 4 <==> Alone(elves, e)
  {
    FreeMovesAll(elves, round, e, 4);
    FreeAllIffAlone(elves, e);
    if forall n | 0 <= n < 4 :: Free(elves, e, Dir(round, n)) {
      forall d | 0 <= d < 4
        ensures Free(elves, e, d)
      {
        DirReaches(round, d);
      }
    }
  }

  /** Every direction is tried once in each round. */
  lemma DirReaches(round: nat, d: nat)
    requires d < 4
    ensures Dir(round, (4 + d - round % 4) % 4) == d
  {
  }

  /** No elf is among the eight cells around `e`. */
  predicate Alone(elves: set<Pos>, e: Pos)
  {
    forall dx, dy | -1 <= dx <= 1 && -1 <= dy <= 1 && (dx, dy) != (0, 0) :: (e.0 + dx, e.1 + dy) !in elves
  }

  /** The four triples of cells cover the eight neighbours. */
  lemma FreeAllIffAlone(elves: set<Pos>, e: Pos)
    ensures (forall d | 0 <= d < 4 :: Free(elves, e, d)) <==> Alone(elves, e)
  {
    var (x, y) := e;
    if forall d | 0 <= d < 4 :: Free(elves, e, d) {
      forall dx, dy | -1 <= dx <= 1 && -1 <= dy <= 1 && (dx, dy) != (0, 0)
        ensures (x + dx, y + dy) !in elves
      {
        if dy == -1 {
          assert Free(elves, e, NORTH) && (x + dx, y + dy) in Adj(e, NORTH);
        } else if dy == 1 {
          assert Free(elves, e, SOUTH) && (x + dx, y + dy) in Adj(e, SOUTH);
        } else if dx == -1 {
          assert Free(elves, e, WEST) && (x + dx, y + dy) in Adj(e, WEST);
        } else {
          assert Free(elves, e, EAST) && (x + dx, y + dy) in Adj(e, EAST);
        }
      }
    } else {
      var d :| 0 <= d < 4 && !Free(elves, e, d);
      var a := Adj(e, d);
      var j :| 0 <= j < 3 && a[j] in elves;
      var dx, dy := a[j].0 - x, a[j].1 - y;
      assert -1 <= dx <= 1 && -1 <= dy <= 1 && (dx, dy) != (0, 0);
      assert (x + dx, y + dy) == a[j];
    }
  }

  /** A proposal is the first free direction in this round's order, made
      only when one to three directions are free, and it steps onto an
      empty neighbouring cell. */
  lemma ProposalFacts(elves: set<Pos>, round: nat, e: Pos)
    ensures Proposal(elves, round, e).Some? <==> 0 < |FreeMoves(elves, round, e, 4)| < 4
    ensures Proposal(elves, round, e).Some? ==> FromFirstFree(elves, round, e, 4, Proposal(elves, round, e).value)
    ensures Proposal(elves, round, e).Some? ==> Proposal(elves, round, e).value !in elves
  {
    FreeMovesFirst(elves, round, e, 4);
    FreeMovesNone(elves, round, e, 4);
    if Proposal(elves, round, e).Some? {
      var n :| 0 <= n < 4 && Free(elves, e, Dir(round, n)) && FreeMoves(elves, round, e, 4)[0] == Target(e, Dir(round, n)) &&
        forall m | 0 <= m < n :: !Free(elves, e, Dir(round, m));
      FreeTargetEmpty(elves, e, Dir(round, n));
    }
  }

  // ---------------------------------------------------------------------
  // One round.

  /** The proposals of the elves in `done`, each elf mapped to its target. */
  function ProposalsOf(elves: set<Pos>, round: nat, done: set<Pos>): map<Pos, Pos>
  {
    map e | e in done && Proposal(elves, round, e).Some? :: Proposal(elves, round, e).value
  }

  /** The number of elves in `done` proposing `t`. */
  function CountIn(proposals: map<Pos, Pos>, done: set<Pos>, t: Pos): nat
  {
    |set f | f in done && f in proposals && proposals[f] == t|
  }

  /** The proposals no other elf shares. */
  function Survivors(proposals: map<Pos, Pos>): map<Pos, Pos>
  {
    map f | f in proposals && CountIn(proposals, proposals.Keys, proposals[f]) < 2 :: proposals[f]
  }

  /** The elves after round `round`: every surviving proposer has moved to
      its target. */
  function NextElves(elves: set<Pos>, round: nat): set<Pos>
  {
    var moves := Survivors(ProposalsOf(elves, round, elves));
    (elves - moves.Keys) + moves.Values
  }

  function Get(counts: map<Pos, int>, t: Pos): int
  {
    if t in counts then counts[t] else 0
  }

  /** The surviving moves start at elves, end on empty cells, and no two
      end on the same cell. */
  ghost predicate Sound(elves: set<Pos>, moves: map<Pos, Pos>)
  {
    moves.Keys <= elves &&
    (forall f | f in moves :: moves[f] !in elves) &&
    (forall f, g | f in moves && g in moves && f != g :: moves[f] != moves[g])
  }

  lemma SubsetSize<T>(a: set<T>, b: set<T>)
    requires a <= b
    ensures |a| <= |b|
  {
    assert b == a + (b - a);
  }

  lemma SurvivorsSound(elves: set<Pos>, round: nat)
    ensures Sound(elves, Survivors(ProposalsOf(elves, round, elves)))
  {
    var p := ProposalsOf(elves, round, elves);
    var moves := Survivors(p);
    forall f | f in moves
      ensures moves[f] !in elves
    {
      ProposalFacts(elves, round, f);
    }
    forall f, g | f in moves && g in moves && f != g
      ensures moves[f] != moves[g]
    {
      if moves[f] == moves[g] {
        var same := set h | h in p.Keys && h in p && p[h] == p[f];
        assert {f, g} <= same;
        SubsetSize({f, g}, same);
      }
    }
  }

  /** Moving elves one to one onto empty, distinct cells keeps their number. */
  lemma {:induction false} MovesKeepCount(elves: set<Pos>, moves: map<Pos, Pos>)
    requires Sound(elves, moves)
    ensures |(elves - moves.Keys) + moves.Values| == |elves|
    decreases |moves|
  {
    if moves != map[] {
      var f :| f in moves;
      var rest := moves - {f};
      RemoveOne(elves, moves, f);
      MovesKeepCount(elves, rest);
      MoveOne(elves, moves, f);
      SwapSize((elves - rest.Keys) + rest.Values, f, moves[f]);
    }
  }

  lemma RemoveOne(elves: set<Pos>, moves: map<Pos, Pos>, f: Pos)
    requires Sound(elves, moves) && f in moves
    ensures Sound(elves, moves - {f}) && |moves - {f}| < |moves|
    ensures (moves - {f}).Values == moves.Values - {moves[f]}
  {
    var rest := moves - {f};
    assert rest.Keys == moves.Keys - {f};
    forall v | v in moves.Values - {moves[f]}
      ensures v in rest.Values
    {
      var g :| g in moves && moves[g] == v;
      assert g in rest && rest[g] == v;
    }
  }

  lemma MoveOne(elves: set<Pos>, moves: map<Pos, Pos>, f: Pos)
    requires Sound(elves, moves) && f in moves
    requires (moves - {f}).Values == moves.Values - {moves[f]}
    ensures var before := (elves - (moves - {f}).Keys) + (moves - {f}).Values;
      f in before && moves[f] !in before &&
      (elves - moves.Keys) + moves.Values == (before - {f}) + {moves[f]}
  {
    assert (moves - {f}).Keys == moves.Keys - {f};
  }

  /** Trading a member for a non-member keeps the size of a set. */
  lemma SwapSize<T>(s: set<T>, a: T, b: T)
    requires a in s && b !in s
    ensures |(s - {a}) + {b}| == |s|
  {
    assert |s - {a}| == |s| - 1;
  }

  /** A round keeps the number of elves. */
  lemma RoundKeepsCount(elves: set<Pos>, round: nat)
    ensures |NextElves(elves, round)| == |elves|
  {
    SurvivorsSound(elves, round);
    MovesKeepCount(elves, Survivors(ProposalsOf(elves, round, elves)));
  }

  lemma ProposalsStep(elves: set<Pos>, round: nat, done: set<Pos>, e: Pos)
    requires e !in done
    ensures ProposalsOf(elves, round, done + {e}) ==
      if Proposal(elves, round, e).Some? then ProposalsOf(elves, round, done)[e := Proposal(elves, round, e).value]
      else ProposalsOf(elves, round, done)
  {
  }

  /** The proposal step of `do_one_round`, one elf at a time. */
  method ProposeAll(elves: set<Pos>, round: nat) returns (proposals: map<Pos, Pos>)
    ensures proposals == ProposalsOf(elves, round, elves)
  {
    proposals := map[];
    var rest := elves;
    while rest != {}
      invariant rest <= elves
      invariant proposals == ProposalsOf(elves, round, elves - rest)
      decreases |rest|
    {
      var e :| e in rest;
      var moves := PossibleMoves(e, round, elves);
      if |moves| != 0 && |moves| != 4 {
        proposals := proposals[e := moves[0]];
      }
      ProposalsStep(elves, round, elves - rest, e);
      assert elves - (rest - {e}) == (elves - rest) + {e};
      rest := rest - {e};
    }
  }

  lemma CountStep(proposals: map<Pos, Pos>, done: set<Pos>, f: Pos, t: Pos)
    requires f in proposals && f !in done
    ensures CountIn(proposals, done + {f}, t) == CountIn(proposals, done, t) + (if proposals[f] == t then 1 else 0)
  {
    var before := set g | g in done && g in proposals && proposals[g] == t;
    var after := set g | g in done + {f} && g in proposals && proposals[g] == t;
    if proposals[f] == t {
      assert after == before + {f};
    } else {
      assert after == before;
    }
  }

  /** The `movemap` loop: how many elves propose each cell. */
  method CountTargets(proposals: map<Pos, Pos>) returns (counts: map<Pos, int>)
    ensures forall t :: Get(counts, t) == CountIn(proposals, proposals.Keys, t)
  {
    counts := map[];
    var rest := proposals.Keys;
    while rest != {}
      invariant rest <= proposals.Keys
      invariant forall t :: Get(counts, t) == CountIn(proposals, proposals.Keys - rest, t)
      decreases |rest|
    {
      var f :| f in rest;
      var t := proposals[f];
      var done := proposals.Keys - rest;
      forall u
        ensures CountIn(proposals, done + {f}, u) == CountIn(proposals, done, u) + (if t == u then 1 else 0)
      {
        CountStep(proposals, done, f, u);
      }
      counts := counts[t := Get(counts, t) + 1];
      assert proposals.Keys - (rest - {f}) == done + {f};
      rest := rest - {f};
    }
    assert proposals.Keys - rest == proposals.Keys;
  }

  /** The filter keeping the uncontested proposals. */
  method KeepUncontested(proposals: map<Pos, Pos>, counts: map<Pos, int>) returns (moves: map<Pos, Pos>)
    requires forall t :: Get(counts, t) == CountIn(proposals, proposals.Keys, t)
    ensures moves == Survivors(proposals)
  {
    moves := map[];
    var rest := proposals.Keys;
    while rest != {}
      invariant rest <= proposals.Keys
      invariant moves == Uncontested(proposals, proposals.Keys - rest)
      decreases |rest|
    {
      var f :| f in rest;
      UncontestedStep(proposals, proposals.Keys - rest, f);
      if Get(counts, proposals[f]) < 2 {
        moves := moves[f := proposals[f]];
      }
      assert proposals.Keys - (rest - {f}) == (proposals.Keys - rest) + {f};
      rest := rest - {f};
    }
    assert proposals.Keys - rest == proposals.Keys;
  }

  /** The uncontested proposals of the elves in `done`. */
  function Uncontested(proposals: map<Pos, Pos>, done: set<Pos>): map<Pos, Pos>
  {
    map f | f in done && f in proposals && CountIn(proposals, proposals.Keys, proposals[f]) < 2 :: proposals[f]
  }

  lemma UncontestedStep(proposals: map<Pos, Pos>, done: set<Pos>, f: Pos)
    requires f in proposals && f !in done
    ensures Uncontested(proposals, done + {f}) ==
      if CountIn(proposals, proposals.Keys, proposals[f]) < 2 then Uncontested(proposals, done)[f := proposals[f]]
      else Uncontested(proposals, done)
  {
  }

  /** The targets of the moves made from `done`. */
  function Image(moves: map<Pos, Pos>, done: set<Pos>): set<Pos>
  {
    set g | g in done && g in moves :: moves[g]
  }

  /** The elves once the moves from `done` have been applied to `start`. */
  ghost predicate Applied(start: set<Pos>, moves: map<Pos, Pos>, done: set<Pos>, elves: set<Pos>)
  {
    elves == (start - done) + Image(moves, done)
  }

  lemma ApplyStep(start: set<Pos>, moves: map<Pos, Pos>, rest: set<Pos>, elves: set<Pos>, f: Pos)
    requires Sound(start, moves) && rest <= moves.Keys && f in rest
    requires Applied(start, moves, moves.Keys - rest, elves)
    ensures Applied(start, moves, moves.Keys - (rest - {f}), (elves - {f}) + {moves[f]})
  {
    var done := moves.Keys - rest;
    assert moves.Keys - (rest - {f}) == done + {f};
    assert Image(moves, done + {f}) == Image(moves, done) + {moves[f]};
    assert f !in Image(moves, done);
  }

  lemma ApplyDone(start: set<Pos>, moves: map<Pos, Pos>, elves: set<Pos>)
    requires Applied(start, moves, moves.Keys, elves)
    ensures elves == (start - moves.Keys) + moves.Values
  {
    assert Image(moves, moves.Keys) == moves.Values;
  }

  /** The moves of round `round` that survive the conflict check. */
  method SurvivingMoves(elves: set<Pos>, round: nat) returns (moves: map<Pos, Pos>)
    ensures moves == Survivors(ProposalsOf(elves, round, elves))
  {
    var proposals := ProposeAll(elves, round);
    var counts := CountTargets(proposals);
    moves := KeepUncontested(proposals, counts);
  }

  lemma RoundOutcome(elves: set<Pos>, round: nat, moves: map<Pos, Pos>)
    requires moves == Survivors(ProposalsOf(elves, round, elves))
    ensures Sound(elves, moves)
    ensures NextElves(elves, round) == (elves - moves.Keys) + moves.Values
    ensures |NextElves(elves, round)| == |elves|
  {
    SurvivorsSound(elves, round);
    RoundKeepsCount(elves, round);
  }

  /** The elves of the grove, updated in place. */
  class Grove {
    var elves: set<Pos>

    constructor (elves0: set<Pos>)
      ensures elves == elves0
    {
      elves := elves0;
    }

    /** `do_one_round`: false when no move survives, leaving the elves as
        they were; otherwise every surviving move is applied. */
    method DoOneRound(round: nat) returns (moved: bool)
      modifies this
      ensures moved <==> Survivors(ProposalsOf(old(elves), round, old(elves))) != map[]
      ensures elves == NextElves(old(elves), round)
      ensures |elves| == |old(elves)|
    {
      var moves := SurvivingMoves(elves, round);
      RoundOutcome(elves, round, moves);
      if |moves| == 0 {
        assert moves == map[];
        return false;
      }
      ApplyMoves(moves);
      moved := true;
    }

    /** The loop moving each surviving elf: remove it, insert its target. */
    method ApplyMoves(moves: map<Pos, Pos>)
      requires Sound(elves, moves)
      modifies this
      ensures elves == (old(elves) - moves.Keys) + moves.Values
    {
      ghost var start := elves;
      var rest := moves.Keys;
      assert Applied(start, moves, {}, elves);
      while rest != {}
        invariant rest <= moves.Keys
        invariant Applied(start, moves, moves.Keys - rest, elves)
        decreases |rest|
      {
        var from :| from in rest;
        ApplyStep(start, moves, rest, elves, from);
        elves := elves - {from};
        elves := elves + {moves[from]};
        rest := rest - {from};
      }
      assert moves.Keys - rest == moves.Keys;
      ApplyDone(start, moves, elves);
    }
  }

  // ---------------------------------------------------------------------
  // Part 1: empty ground in the bounding box.

  datatype Box = Box(minX: int, maxX: int, minY: int, maxY: int)

  /** `b` is the smallest box holding every elf: each side touches one. */
  ghost predicate Tight(elves: set<Pos>, b: Box)
  {
    (forall p | p in elves :: b.minX <= p.0 <= b.maxX && b.minY <= p.1 <= b.maxY) &&
    (exists p | p in elves :: p.0 == b.minX) && (exists p | p in elves :: p.0 == b.maxX) &&
    (exists p | p in elves :: p.1 == b.minY) && (exists p | p in elves :: p.1 == b.maxY)
  }

  function Area(b: Box): int
  {
    (b.maxX - b.minX + 1) * (b.maxY - b.minY + 1)
  }

  const I32_MAX: int := 0x7fff_ffff
  const I32_MIN: int := -0x8000_0000

  /** `find_p1`; None for no elves, where the source's i32 arithmetic on its
      initial bounds overflows. */
  method FindP1(elves: set<Pos>) returns (r: Option<int>)
    requires forall p | p in elves :: I32_MIN <= p.0 <= I32_MAX && I32_MIN <= p.1 <= I32_MAX
    ensures elves == {} <==> r.None?
    ensures r.Some? ==> exists b :: Tight(elves, b) && r.value == Area(b) - |elves|
  {
    var minX, maxX, minY, maxY := Bounds(elves);
    if elves == {} {
      return None;
    }
    r := Some((maxX - minX + 1) * (maxY - minY + 1) - |elves|);
    assert Tight(elves, Box(minX, maxX, minY, maxY));
  }

  /** Every elf of `done` lies in `b`. */
  ghost predicate Within(done: set<Pos>, b: Box)
  {
    forall p | p in done :: b.minX <= p.0 <= b.maxX && b.minY <= p.1 <= b.maxY
  }

  /** The min/max loop of `find_p1`, from the i32 extremes. */
  method Bounds(elves: set<Pos>) returns (minX: int, maxX: int, minY: int, maxY: int)
    requires forall p | p in elves :: I32_MIN <= p.0 <= I32_MAX && I32_MIN <= p.1 <= I32_MAX
    ensures elves != {} ==> Tight(elves, Box(minX, maxX, minY, maxY))
  {
    minX, maxX, minY, maxY := I32_MAX, I32_MIN, I32_MAX, I32_MIN;
    var rest := elves;
    ghost var w: Witnesses := ((0, 0), (0, 0), (0, 0), (0, 0));
    while rest != {}
      invariant rest <= elves
      invariant Extremes(elves - rest, Box(minX, maxX, minY, maxY), w)
      decreases |rest|
    {
      var p :| p in rest;
      w := ExtremesStep(elves, rest, Box(minX, maxX, minY, maxY), w, p);
      minX, maxX := Min(p.0, minX), Max(p.0, maxX);
      minY, maxY := Min(p.1, minY), Max(p.1, maxY);
      rest := rest - {p};
    }
    assert elves - rest == elves;
    ExtremesTight(elves, Box(minX, maxX, minY, maxY), w);
  }

  /** An elf on each side of the box: the least and greatest x, then y. */
  type Witnesses = (Pos, Pos, Pos, Pos)

  /** The loop state of `Bounds`: the box holds every elf seen, starts at
      the i32 extremes, and has an elf seen on each of its sides. */
  ghost predicate Extremes(done: set<Pos>, b: Box, w: Witnesses)
  {
    Within(done, b) &&
    (done == {} ==> b == Box(I32_MAX, I32_MIN, I32_MAX, I32_MIN)) &&
    (done != {} ==>
       w.0 in done && w.1 in done && w.2 in done && w.3 in done &&
       w.0.0 == b.minX && w.1.0 == b.maxX && w.2.1 == b.minY && w.3.1 == b.maxY)
  }

  /** One more elf widens the box to take it in and keeps a witness on each
      side; with every elf seen, the box is tight. */
  lemma ExtremesStep(elves: set<Pos>, rest: set<Pos>, b: Box, w: Witnesses, p: Pos) returns (w': Witnesses)
    requires rest <= elves && p in rest && Extremes(elves - rest, b, w)
    requires I32_MIN <= p.0 <= I32_MAX && I32_MIN <= p.1 <= I32_MAX
    ensures var b' := Box(Min(p.0, b.minX), Max(p.0, b.maxX), Min(p.1, b.minY), Max(p.1, b.maxY));
      Extremes(elves - (rest - {p}), b', w')
  {
    var done := elves - rest;
    assert elves - (rest - {p}) == done + {p};
    WithinStep(done, p, b);
    var first := done == {};
    w' := (if first || p.0 < b.minX then p else w.0,
           if first || p.0 > b.maxX then p else w.1,
           if first || p.1 < b.minY then p else w.2,
           if first || p.1 > b.maxY then p else w.3);
  }

  /** With an elf seen on each side, a box holding every elf is tight. */
  lemma ExtremesTight(elves: set<Pos>, b: Box, w: Witnesses)
    requires Extremes(elves, b, w)
    ensures elves != {} ==> Tight(elves, b)
  {
    if elves != {} {
      assert w.0 in elves && w.1 in elves && w.2 in elves && w.3 in elves;
    }
  }

  lemma WithinStep(done: set<Pos>, p: Pos, b: Box)
    requires Within(done, b)
    ensures Within(done + {p}, Box(Min(p.0, b.minX), Max(p.0, b.maxX), Min(p.1, b.minY), Max(p.1, b.maxY)))
  {
  }

  function Min(a: int, b: int): int
  {
    if a < b then a else b
  }

  function Max(a: int, b: int): int
  {
    if a < b then b else a
  }

  /** The cells of a box. */
  function Cells(b: Box): set<Pos>
  {
    set x, y | b.minX <= x <= b.maxX && b.minY <= y <= b.maxY :: (x, y)
  }

  function ColumnCells(x: int, minY: int, maxY: int): set<Pos>
  {
    set y | minY <= y <= maxY :: (x, y)
  }

  lemma {:induction false} ColumnSize(x: int, minY: int, maxY: int)
    requires minY <= maxY + 1
    ensures |ColumnCells(x, minY, maxY)| == maxY - minY + 1
    decreases maxY - minY
  {
    if minY <= maxY {
      ColumnSize(x, minY, maxY - 1);
      assert ColumnCells(x, minY, maxY) == ColumnCells(x, minY, maxY - 1) + {(x, maxY)};
    } else {
      assert ColumnCells(x, minY, maxY) == {};
    }
  }

  lemma CellsSplit(b: Box)
    requires b.minX <= b.maxX
    ensures Cells(b) == Cells(b.(maxX := b.maxX - 1)) + ColumnCells(b.maxX, b.minY, b.maxY)
    ensures Cells(b.(maxX := b.maxX - 1)) !! ColumnCells(b.maxX, b.minY, b.maxY)
  {
  }

  lemma AreaSplit(b: Box)
    ensures Area(b) == Area(b.(maxX := b.maxX - 1)) + (b.maxY - b.minY + 1)
  {
    var h := b.maxY - b.minY + 1;
    assert Area(b) == (b.maxX - b.minX + 1) * h;
    assert Area(b.(maxX := b.maxX - 1)) == (b.maxX - b.minX) * h;
  }

  lemma {:induction false} CellsSize(b: Box)
    requires b.minX <= b.maxX + 1 && b.minY <= b.maxY + 1
    ensures |Cells(b)| == Area(b)
    decreases b.maxX - b.minX
  {
    if b.minX <= b.maxX {
      var b' := b.(maxX := b.maxX - 1);
      CellsSize(b');
      ColumnSize(b.maxX, b.minY, b.maxY);
      CellsSplit(b);
      AreaSplit(b);
    } else {
      assert Cells(b) == {};
    }
  }

  /** The empty ground counted by part 1 is never negative. */
  lemma EmptyGroundNonNegative(elves: set<Pos>, b: Box)
    requires elves != {} && Tight(elves, b)
    ensures Area(b) - |elves| >= 0
  {
    var p :| p in elves;
    CellsSize(b);
    assert elves <= Cells(b) by {
      forall q | q in elves
        ensures q in Cells(b)
      {
        assert q == (q.0, q.1);
      }
    }
    SubsetSize(elves, Cells(b));
  }
}
