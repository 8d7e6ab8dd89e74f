/** Rope bridge: a rope of knots whose head follows the move instructions
    and whose every other knot follows the knot before it; the answer is the
    number of positions the last knot visits. */
module Day09 {
  import opened Common

  type Pos = (int, int)

  /** `is_touching`: neither coordinate differs by two or more. */
  predicate IsTouching(c1: Pos, c2: Pos)
  {
    var distX, distY := Abs(c1.0 - c2.0), Abs(c1.1 - c2.1);
    !(distX >= 2 || distY >= 2)
  }

  /** `move_follow`: a touching tail stays; otherwise the tail takes one step
      toward the head in each coordinate where they differ. The source's
      eight arms cover every head that is not touching, so its panic arm is
      never reached. */
  function MoveFollow(h: Pos, t: Pos): (r: Pos)
    ensures IsTouching(h, t) ==> r == t
    ensures !IsTouching(h, t) ==> r == (t.0 + Sign(h.0 - t.0), t.1 + Sign(h.1 - t.1))
  {
    if IsTouching(h, t) then t
    else if t.0 == h.0 && h.1 < t.1 then (t.0, t.1 - 1)
    else if t.0 < h.0 && h.1 < t.1 then (t.0 + 1, t.1 - 1)
    else if t.0 < h.0 && h.1 == t.1 then (t.0 + 1, t.1)
    else if t.0 < h.0 && h.1 > t.1 then (t.0 + 1, t.1 + 1)
    else if t.0 == h.0 && h.1 > t.1 then (t.0, t.1 + 1)
    else if t.0 > h.0 && h.1 > t.1 then (t.0 - 1, t.1 + 1)
    else if t.0 > h.0 && h.1 == t.1 then (t.0 - 1, t.1)
    else if t.0 > h.0 && h.1 < t.1 then (t.0 - 1, t.1 - 1)
    else assert false; t
  }

  /** A knot that touched its leader before the leader moved to a position
      touching the leader's old one touches the leader again after following,
      and itself moves to a position touching its old one. */
  lemma FollowKeepsTouching(prev: Pos, h: Pos, t: Pos)
    requires IsTouching(prev, t) && IsTouching(h, prev)
    ensures IsTouching(h, MoveFollow(h, t))
    ensures IsTouching(MoveFollow(h, t), t)
  {
  }

  /** `move_head`: one step in the direction; any other letter is where the
      source panics. */
  function MoveHead(head: Pos, dir: char): (r: Option<Pos>)
    ensures r.Some? <==> dir in "UDLR"
    ensures r.Some? ==> Abs(r.value.0 - head.0) + Abs(r.value.1 - head.1) == 1
  {
    match dir
    case 'U' => Some((head.0, head.1 - 1))
    case 'D' => Some((head.0, head.1 + 1))
    case 'L' => Some((head.0 - 1, head.1))
    case 'R' => Some((head.0 + 1, head.1))
    case _ => None
  }

  /** Knots `i` onward follow in turn, each after its leader has moved. */
  function Pull(rope: seq<Pos>, i: nat): (r: seq<Pos>)
    requires 1 <= i <= |rope|
    ensures |r| == |rope| && r[..i] == rope[..i]
    decreases |rope| - i
  {
    if i == |rope| then rope
    else Pull(rope[i := MoveFollow(rope[i - 1], rope[i])], i + 1)
  }

  predicate AllTouching(rope: seq<Pos>)
  {
    forall j | 1 <= j < |rope| :: IsTouching(rope[j - 1], rope[j])
  }

  /** Pulling from knot `i`, whose leader has moved to a position touching
      the leader's old position `prev`, leaves every knot touching. */
  lemma {:induction false} PullKeepsTouching(rope: seq<Pos>, i: nat, prev: Pos)
    requires 1 <= i <= |rope|
    requires forall j | 1 <= j < i :: IsTouching(rope[j - 1], rope[j])
    requires forall j | i < j < |rope| :: IsTouching(rope[j - 1], rope[j])
    requires i < |rope| ==> IsTouching(prev, rope[i]) && IsTouching(rope[i - 1], prev)
    ensures AllTouching(Pull(rope, i))
    decreases |rope| - i
  {
    if i < |rope| {
      var f := MoveFollow(rope[i - 1], rope[i]);
      FollowKeepsTouching(prev, rope[i - 1], rope[i]);
      PullKeepsTouching(rope[i := f], i + 1, rope[i]);
    }
  }

  /** One step: the head moves and the other knots follow. */
  function Step(rope: seq<Pos>, dir: char): (r: Option<seq<Pos>>)
    requires |rope| >= 1
    ensures r.Some? ==> |r.value| == |rope|
  {
    var h := MoveHead(rope[0], dir);
    if h.None? then None else Some(Pull(rope[0 := h.value], 1))
  }

  /** After every step each knot touches the knot before it. */
  lemma StepKeepsTouching(rope: seq<Pos>, dir: char)
    requires |rope| >= 1 && AllTouching(rope) && Step(rope, dir).Some?
    ensures AllTouching(Step(rope, dir).value)
  {
    var h := MoveHead(rope[0], dir).value;
    PullKeepsTouching(rope[0 := h], 1, rope[0]);
  }

  /** The instructions spelled out one step at a time; a count below one
      gives no step. */
  function Repeat(dir: char, n: int): (r: seq<char>)
    ensures |r| == if n > 0 then n else 0
    ensures forall k | 0 <= k < |r| :: r[k] == dir
    decreases n
  {
    if n <= 0 then [] else Repeat(dir, n - 1) + [dir]
  }

  function Expand(instrs: seq<(char, int)>): seq<char>
  {
    if instrs == [] then []
    else Expand(instrs[..|instrs| - 1]) + Repeat(instrs[|instrs| - 1].0, instrs[|instrs| - 1].1)
  }

  /** The rope after the steps and the positions its last knot took after
      each of them; `None` at a step whose letter is not a direction. */
  function Simulation(rope: seq<Pos>, dirs: seq<char>): (r: Option<(seq<Pos>, set<Pos>)>)
    requires |rope| >= 1
    ensures r.Some? ==> |r.value.0| == |rope|
  {
    if dirs == [] then Some((rope, {}))
    else
      var before := Simulation(rope, dirs[..|dirs| - 1]);
      if before.None? then None
      else
        var next := Step(before.value.0, dirs[|dirs| - 1]);
        if next.None? then None
        else Some((next.value, before.value.1 + {next.value[|rope| - 1]}))
  }

  /** All knots start at the origin. */
  function Start(numKnots: nat): seq<Pos>
  {
    seq(numKnots, _ => (0, 0))
  }

  /** Starting with every knot at the origin, every knot touches its leader
      after any number of steps. */
  lemma {:induction false} SimulationKeepsTouching(rope: seq<Pos>, dirs: seq<char>)
    requires |rope| >= 1 && AllTouching(rope) && Simulation(rope, dirs).Some?
    ensures AllTouching(Simulation(rope, dirs).value.0)
  {
    if dirs != [] {
      var before := Simulation(rope, dirs[..|dirs| - 1]).value.0;
      SimulationKeepsTouching(rope, dirs[..|dirs| - 1]);
      StepKeepsTouching(before, dirs[|dirs| - 1]);
    }
  }

  lemma StartTouching(numKnots: nat)
    ensures AllTouching(Start(numKnots))
  {
  }

  /** The last knot's positions grow by one entry per step at most. */
  lemma {:induction false} VisitedBound(rope: seq<Pos>, dirs: seq<char>)
    requires |rope| >= 1 && Simulation(rope, dirs).Some?
    ensures |Simulation(rope, dirs).value.1| <= |dirs|
  {
    if dirs != [] {
      VisitedBound(rope, dirs[..|dirs| - 1]);
    }
  }

  /** `simulate`: moves the rope through every instruction, recording the
      last knot after each step, and counts the positions recorded. */
  method Simulate(instrs: seq<(char, int)>, numKnots: nat) returns (r: Option<nat>)
    requires numKnots >= 1
    ensures var s := Simulation(Start(numKnots), Expand(instrs));
      s.None? ==> r.None?
    ensures var s := Simulation(Start(numKnots), Expand(instrs));
      s.Some? ==> r == Some(|s.value.1|)
  {
    var rope := new Pos[numKnots](_ => (0, 0));
    var visited: set<Pos> := {};
    assert rope[..] == Start(numKnots);
    ghost var done: seq<char> := [];
    for k := 0 to |instrs|
      invariant done == Expand(instrs[..k])
      invariant Simulation(Start(numKnots), done) == Some((rope[..], visited))
    {
      var (dir, n) := instrs[k];
      var ok;
      ghost var m;
      ok, visited, m := MoveSteps(rope, dir, n, Start(numKnots), done, visited);
      if !ok {
        SimulationFailsLater(Start(numKnots), instrs, k, done, m);
        return None;
      }
      ExpandSnoc(instrs, k);
      done := done + Repeat(dir, n);
    }
    assert instrs[..|instrs|] == instrs;
    r := Some(|visited|);
  }

  /** The `n` steps of one instruction, adding the tail's positions to
      `visited0`; on a panic, `m` is the number of steps that went through. */
  method MoveSteps(rope: array<Pos>, dir: char, n: int, ghost start: seq<Pos>, ghost base: seq<char>, visited0: set<Pos>)
    returns (ok: bool, visited: set<Pos>, ghost m: nat)
    requires rope.Length == |start| >= 1
    requires Simulation(start, base) == Some((rope[..], visited0))
    modifies rope
    ensures ok ==> Simulation(start, base + Repeat(dir, n)) == Some((rope[..], visited))
    ensures !ok ==> m < n && Simulation(start, base + Repeat(dir, m) + [dir]).None?
  {
    visited, m := visited0, 0;
    var i := 0;
    assert base + Repeat(dir, i) == base;
    while i < n
      invariant i <= if n > 0 then n else 0
      invariant Simulation(start, base + Repeat(dir, i)) == Some((rope[..], visited))
    {
      ok := MoveRope(rope, dir);
      SimulationSnoc(start, base + Repeat(dir, i), dir);
      if !ok {
        m := i;
        return;
      }
      visited := visited + {rope[rope.Length - 1]};
      assert base + Repeat(dir, i) + [dir] == base + Repeat(dir, i + 1);
      i := i + 1;
    }
    assert Repeat(dir, n) == Repeat(dir, i);
    ok := true;
  }

  /** One step of the loop: the head moves, then each knot in turn follows
      the one before it. */
  method MoveRope(rope: array<Pos>, dir: char) returns (ok: bool)
    requires rope.Length >= 1
    modifies rope
    ensures ok <==> Step(old(rope[..]), dir).Some?
    ensures ok ==> rope[..] == Step(old(rope[..]), dir).value
  {
    var h := MoveHead(rope[0], dir);
    if h.None? {
      return false;
    }
    ghost var before := rope[..];
    rope[0] := h.value;
    for i := 1 to rope.Length
      invariant Pull(before[0 := h.value], 1) == Pull(rope[..], i)
    {
      rope[i] := MoveFollow(rope[i - 1], rope[i]);
    }
    return true;
  }

  /** One more step extends the simulation by that step. */
  lemma SimulationSnoc(rope: seq<Pos>, dirs: seq<char>, dir: char)
    requires |rope| >= 1
    ensures var s := Simulation(rope, dirs + [dir]);
      var b := Simulation(rope, dirs);
      (s.Some? <==> b.Some? && Step(b.value.0, dir).Some?) &&
      (s.Some? ==> s.value == (Step(b.value.0, dir).value, b.value.1 + {Step(b.value.0, dir).value[|rope| - 1]}))
  {
    var next := dirs + [dir];
    assert next[..|next| - 1] == dirs && next[|next| - 1] == dir;
  }

  /** A step that fails in the middle of instruction `k` makes the whole
      simulation fail. */
  lemma SimulationFailsLater(rope: seq<Pos>, instrs: seq<(char, int)>, k: nat, base: seq<char>, m: nat)
    requires |rope| >= 1 && k < |instrs| && base == Expand(instrs[..k]) && m < instrs[k].1
    requires Simulation(rope, base + Repeat(instrs[k].0, m) + [instrs[k].0]).None?
    ensures Simulation(rope, Expand(instrs)).None?
  {
    var failed := base + Repeat(instrs[k].0, m) + [instrs[k].0];
    ExpandCut(instrs, k, m);
    var all := Expand(instrs);
    assert all[..|failed|] == failed;
    SimulationPrefix(rope, all, |failed|);
  }

  /** The steps up to the `m + 1`-th of instruction `k` are a prefix of all
      the steps. */
  lemma ExpandCut(instrs: seq<(char, int)>, k: nat, m: nat)
    requires k < |instrs| && m < instrs[k].1
    ensures var base := Expand(instrs[..k]);
      |base| + m + 1 <= |Expand(instrs)| &&
      Expand(instrs)[..|base| + m + 1] == base + Repeat(instrs[k].0, m) + [instrs[k].0]
  {
    var (d, n) := instrs[k];
    var base, full, all := Expand(instrs[..k]), Expand(instrs[..k + 1]), Expand(instrs);
    var cut := |base| + m + 1;
    RepeatPrefix(d, m, n);
    ExpandSnoc(instrs, k);
    PrefixOfAppend(base, Repeat(d, n), m + 1);
    ExpandPrefix(instrs, k + 1);
    assert all[..cut] == full[..cut];
  }

  /** A run of `m` steps and one more is the start of any longer run. */
  lemma RepeatPrefix(d: char, m: nat, n: int)
    requires m < n
    ensures Repeat(d, n)[..m + 1] == Repeat(d, m) + [d]
  {
    var a, b := Repeat(d, n)[..m + 1], Repeat(d, m) + [d];
    assert |a| == |b|;
    forall i | 0 <= i < |a|
      ensures a[i] == b[i]
    {
      assert a[i] == d;
    }
  }

  lemma ExpandSnoc(instrs: seq<(char, int)>, k: nat)
    requires k < |instrs|
    ensures Expand(instrs[..k + 1]) == Expand(instrs[..k]) + Repeat(instrs[k].0, instrs[k].1)
  {
    var next := instrs[..k + 1];
    assert next[..|next| - 1] == instrs[..k] && next[|next| - 1] == instrs[k];
  }

  lemma PrefixOfAppend(a: seq<char>, b: seq<char>, j: nat)
    requires j <= |b|
    ensures (a + b)[..|a| + j] == a + b[..j]
  {
  }

  /** The spelled-out steps of a prefix of the instructions are a prefix of
      the spelled-out steps. */
  lemma {:induction false} ExpandPrefix(instrs: seq<(char, int)>, k: nat)
    requires k <= |instrs|
    ensures |Expand(instrs[..k])| <= |Expand(instrs)|
    ensures Expand(instrs)[..|Expand(instrs[..k])|] == Expand(instrs[..k])
    decreases |instrs| - k
  {
    if k < |instrs| {
      assert instrs[..k + 1][..k] == instrs[..k];
      ExpandPrefix(instrs, k + 1);
      var a, b := Expand(instrs[..k]), Expand(instrs[..k + 1]);
      assert b[..|a|] == a;
    } else {
      assert instrs[..k] == instrs;
    }
  }

  /** A failing prefix of the steps makes the whole simulation fail. */
  lemma {:induction false} SimulationPrefix(rope: seq<Pos>, dirs: seq<char>, n: nat)
    requires |rope| >= 1 && n <= |dirs| && Simulation(rope, dirs[..n]).None?
    ensures Simulation(rope, dirs).None?
    decreases |dirs| - n
  {
    if n < |dirs| {
      var next := dirs[..n + 1];
      assert next[..|next| - 1] == dirs[..n];
      assert Simulation(rope, next).None?;
      SimulationPrefix(rope, dirs, n + 1);
    } else {
      assert dirs[..n] == dirs;
    }
  }

  /** `solve`: the same instructions with a rope of 2 knots and of 10. */
  method Solve(instrs: seq<(char, int)>) returns (p1: Option<nat>, p2: Option<nat>)
    ensures var s := Simulation(Start(2), Expand(instrs));
      if s.None? then p1.None? else p1 == Some(|s.value.1|)
    ensures var s := Simulation(Start(10), Expand(instrs));
      if s.None? then p2.None? else p2 == Some(|s.value.1|)
  {
    p1 := Simulate(instrs, 2);
    p2 := Simulate(instrs, 10);
  }
}
