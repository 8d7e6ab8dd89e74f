/** Supply stacks: nine stacks of crates, read from a drawing line by line,
    rearranged by move commands that take crates from the top of one stack
    to the top of another, one at a time in part 1 and as a block in
    part 2. Index 0 of a stack is its top. */
module Day05 {
  import opened Common

  const NUM_STACKS := 9

  /** A command `move n from a to b`, with the stack numbers as written,
      counted from 1. */
  datatype Command = Command(n: nat, from: nat, to: nat)

  /** A crate letter read from the drawing is pushed under the crates read
      before it; a space leaves the stack as it is. */
  function Pushed(stack: seq<char>, c: char): seq<char>
  {
    if c == ' ' then stack else stack + [c]
  }

  /** A drawing line has a character at `i * 4 + 1` for every stack. */
  predicate LineLongEnough(line: string)
  {
    |line| > 4 * (NUM_STACKS - 1) + 1
  }

  /** `parse_crate_line`: stack `i`'s character is at `i * 4 + 1`. A line
      too short is where the source indexes past its end; the stacks are
      then left alone. */
  method ParseCrateLine(line: string, stacks: array<seq<char>>) returns (ok: bool)
    requires stacks.Length == NUM_STACKS
    modifies stacks
    ensures ok <==> LineLongEnough(line)
    ensures ok ==> forall i | 0 <= i < NUM_STACKS :: stacks[i] == Pushed(old(stacks[i]), line[i * 4 + 1])
    ensures !ok ==> stacks[..] == old(stacks[..])
  {
    if !LineLongEnough(line) {
      return false;
    }
    for i := 0 to NUM_STACKS
      invariant forall j | 0 <= j < i :: stacks[j] == Pushed(old(stacks[j]), line[j * 4 + 1])
      invariant forall j | i <= j < NUM_STACKS :: stacks[j] == old(stacks[j])
    {
      var c := line[i * 4 + 1];
      if c == ' ' {
        continue;
      }
      stacks[i] := stacks[i] + [c];
    }
    return true;
  }

  /** The stacks after reading every line of the drawing, the line of stack
      numbers included; `None` if a line is too short. */
  function Drawing(lines: seq<string>): (r: Option<seq<seq<char>>>)
    ensures r.Some? ==> |r.value| == NUM_STACKS
  {
    if lines == [] then Some(seq(NUM_STACKS, _ => []))
    else
      var before := Drawing(lines[..|lines| - 1]);
      var line := lines[|lines| - 1];
      if before.None? || !LineLongEnough(line) then None
      else Some(seq(NUM_STACKS, i requires 0 <= i < NUM_STACKS => Pushed(before.value[i], line[i * 4 + 1])))
  }

  function Reverse(s: seq<char>): (r: seq<char>)
    ensures |r| == |s|
  {
    if s == [] then [] else Reverse(s[1..]) + [s[0]]
  }

  /** Whether a command can run: both stack numbers name a stack and the
      source stack holds enough crates. */
  predicate CanMove(stacks: seq<seq<char>>, cmd: Command)
  {
    1 <= cmd.from <= |stacks| && 1 <= cmd.to <= |stacks| && cmd.n <= |stacks[cmd.from - 1]|
  }

  /** Part 1 on one command: the top `n` crates are drained, reversed and put
      on top of the target. */
  function MoveOneAtATime(stacks: seq<seq<char>>, n: nat, from: nat, to: nat): (r: seq<seq<char>>)
    requires from < |stacks| && to < |stacks| && n <= |stacks[from]|
    ensures |r| == |stacks|
  {
    var drained := stacks[from := stacks[from][n..]];
    drained[to := Reverse(stacks[from][..n]) + drained[to]]
  }

  /** Part 2 on one command: the top `n` crates move as a block, keeping
      their order. */
  function MoveBlock(stacks: seq<seq<char>>, n: nat, from: nat, to: nat): (r: seq<seq<char>>)
    requires from < |stacks| && to < |stacks| && n <= |stacks[from]|
    ensures |r| == |stacks|
  {
    var drained := stacks[from := stacks[from][n..]];
    drained[to := stacks[from][..n] + drained[to]]
  }

  /** The total number of crates. */
  function Count(stacks: seq<seq<char>>): nat
  {
    if stacks == [] then 0 else Count(stacks[..|stacks| - 1]) + |stacks[|stacks| - 1]|
  }

  lemma {:induction false} CountUpdate(stacks: seq<seq<char>>, i: nat, s: seq<char>)
    requires i < |stacks|
    ensures Count(stacks[i := s]) == Count(stacks) - |stacks[i]| + |s|
  {
    var t := stacks[i := s];
    if i < |stacks| - 1 {
      assert t[..|t| - 1] == stacks[..|stacks| - 1][i := s];
      CountUpdate(stacks[..|stacks| - 1], i, s);
    } else {
      assert t[..|t| - 1] == stacks[..|stacks| - 1];
    }
  }

  /** A move keeps the number of crates and changes no stack but the two it
      names. */
  lemma MovesKeepCount(stacks: seq<seq<char>>, n: nat, from: nat, to: nat)
    requires from < |stacks| && to < |stacks| && n <= |stacks[from]|
    ensures Count(MoveOneAtATime(stacks, n, from, to)) == Count(stacks)
    ensures Count(MoveBlock(stacks, n, from, to)) == Count(stacks)
    ensures forall i | 0 <= i < |stacks| && i != from && i != to ::
      MoveOneAtATime(stacks, n, from, to)[i] == stacks[i] && MoveBlock(stacks, n, from, to)[i] == stacks[i]
  {
    var drained := stacks[from := stacks[from][n..]];
    CountUpdate(stacks, from, stacks[from][n..]);
    CountUpdate(drained, to, Reverse(stacks[from][..n]) + drained[to]);
    CountUpdate(drained, to, stacks[from][..n] + drained[to]);
  }

  /** Reversing a prefix puts its first element last. */
  lemma ReversePrefix(s: seq<char>, n: nat)
    requires 1 <= n <= |s|
    ensures Reverse(s[..n]) == Reverse(s[1..n]) + [s[0]]
  {
    assert s[..n][1..] == s[1..n];
  }

  /** Between two different stacks, part 1's move of `n` crates is one crate
      moved and then `n - 1` more: the crane moves them one at a time. */
  lemma OneAtATime(stacks: seq<seq<char>>, n: nat, from: nat, to: nat)
    requires from < |stacks| && to < |stacks| && from != to && 1 <= n <= |stacks[from]|
    ensures MoveOneAtATime(stacks, n, from, to) ==
      MoveOneAtATime(MoveOneAtATime(stacks, 1, from, to), n - 1, from, to)
  {
    var s := stacks[from];
    var once := MoveOneAtATime(stacks, 1, from, to);
    assert Reverse(s[..1]) == [s[0]] by { assert s[..1][1..] == []; }
    assert once[from] == s[1..] && once[to] == [s[0]] + stacks[to];
    assert once[from][..n - 1] == s[1..n] && once[from][n - 1..] == s[n..];
    ReversePrefix(s, n);
    assert Reverse(s[1..n]) + ([s[0]] + stacks[to]) == Reverse(s[..n]) + stacks[to];
  }

  /** A single crate moves the same way under both cranes. */
  lemma OneCrateAlike(stacks: seq<seq<char>>, from: nat, to: nat)
    requires from < |stacks| && to < |stacks| && 1 <= |stacks[from]|
    ensures MoveOneAtATime(stacks, 1, from, to) == MoveBlock(stacks, 1, from, to)
  {
    var s := stacks[from];
    assert Reverse(s[..1]) == s[..1] by { assert s[..1][1..] == []; }
  }

  /** The stacks after the commands, part 1 when `oneAtATime`, part 2
      otherwise; `None` at the first command that cannot run. */
  function Run(stacks: seq<seq<char>>, cmds: seq<Command>, oneAtATime: bool): (r: Option<seq<seq<char>>>)
    ensures r.Some? ==> |r.value| == |stacks|
  {
    if cmds == [] then Some(stacks)
    else
      var before := Run(stacks, cmds[..|cmds| - 1], oneAtATime);
      var c := cmds[|cmds| - 1];
      if before.None? || !CanMove(before.value, c) then None
      else if oneAtATime then Some(MoveOneAtATime(before.value, c.n, c.from - 1, c.to - 1))
      else Some(MoveBlock(before.value, c.n, c.from - 1, c.to - 1))
  }

  /** A run that reaches `cur` after `k` commands goes on with command `k`
      when it can be carried out, and stops otherwise. */
  lemma RunStep(stacks: seq<seq<char>>, cmds: seq<Command>, k: nat, oneAtATime: bool, cur: seq<seq<char>>)
    requires k < |cmds| && Run(stacks, cmds[..k], oneAtATime) == Some(cur)
    ensures var c := cmds[k];
      Run(stacks, cmds[..k + 1], oneAtATime) ==
        if !CanMove(cur, c) then None
        else if oneAtATime then Some(MoveOneAtATime(cur, c.n, c.from - 1, c.to - 1))
        else Some(MoveBlock(cur, c.n, c.from - 1, c.to - 1))
  {
    assert cmds[..k + 1][..k] == cmds[..k];
  }

  /** Both cranes move the same numbers of crates, so the stacks keep the
      same heights under both, and a command that runs under one runs under
      the other. */
  lemma {:induction false} RunHeightsAgree(stacks: seq<seq<char>>, cmds: seq<Command>)
    ensures Run(stacks, cmds, true).Some? <==> Run(stacks, cmds, false).Some?
    ensures Run(stacks, cmds, true).Some? ==>
      forall i | 0 <= i < |stacks| :: |Run(stacks, cmds, true).value[i]| == |Run(stacks, cmds, false).value[i]|
  {
    if cmds != [] {
      RunHeightsAgree(stacks, cmds[..|cmds| - 1]);
    }
  }

  /** `top_crates`: the first crate of every stack; an empty stack is where
      the source unwraps nothing. */
  function TopCrates(stacks: seq<seq<char>>): (r: Option<string>)
    ensures r.Some? <==> forall i | 0 <= i < |stacks| :: stacks[i] != []
    ensures r.Some? ==> |r.value| == |stacks| && forall i | 0 <= i < |stacks| :: r.value[i] == stacks[i][0]
  {
    if stacks == [] then Some([])
    else
      var rest := TopCrates(stacks[..|stacks| - 1]);
      var last := stacks[|stacks| - 1];
      if rest.None? || last == [] then None else Some(rest.value + [last[0]])
  }

  /** Part 1: `n` crates drained, reversed and put on top. */
  method MoveCrates9000(stacks: array<seq<char>>, n: nat, from: nat, to: nat)
    requires from < stacks.Length && to < stacks.Length && n <= |stacks[from]|
    modifies stacks
    ensures stacks[..] == MoveOneAtATime(old(stacks[..]), n, from, to)
  {
    var moved := stacks[from][..n];
    stacks[from] := stacks[from][n..];
    moved := Reverse(moved);
    stacks[to] := moved + stacks[to];
  }

  /** Part 2: `n` crates drained and spliced in on top, in order. */
  method MoveCrates9001(stacks: array<seq<char>>, n: nat, from: nat, to: nat)
    requires from < stacks.Length && to < stacks.Length && n <= |stacks[from]|
    modifies stacks
    ensures stacks[..] == MoveBlock(old(stacks[..]), n, from, to)
  {
    var moved := stacks[from][..n];
    stacks[from] := stacks[from][n..];
    stacks[to] := moved + stacks[to];
  }

  /** `solve`: both sets of stacks read the same drawing, then every command
      runs on both; the answers are the top crates. `None` wherever the
      source panics. */
  method Solve(lines: seq<string>, cmds: seq<Command>) returns (r: Option<(string, string)>)
    ensures Drawing(lines).None? ==> r.None?
    ensures Drawing(lines).Some? ==>
      var p1, p2 := Run(Drawing(lines).value, cmds, true), Run(Drawing(lines).value, cmds, false);
      if p1.None? || p2.None? then r.None?
      else
        var t1, t2 := TopCrates(p1.value), TopCrates(p2.value);
        if t1.None? || t2.None? then r.None? else r == Some((t1.value, t2.value))
  {
    var stacks1 := new seq<char>[NUM_STACKS](_ => []);
    var stacks2 := new seq<char>[NUM_STACKS](_ => []);
    for k := 0 to |lines|
      invariant Drawing(lines[..k]).Some?
      invariant stacks1[..] == Drawing(lines[..k]).value && stacks2[..] == stacks1[..]
    {
      assert lines[..k + 1][..k] == lines[..k];
      var ok1 := ParseCrateLine(lines[k], stacks1);
      var ok2 := ParseCrateLine(lines[k], stacks2);
      if !ok1 {
        assert Drawing(lines[..k + 1]).None?;
        DrawingFailsLater(lines, k + 1);
        return None;
      }
    }
    assert lines[..|lines|] == lines;
    for k := 0 to |cmds|
      invariant Run(Drawing(lines).value, cmds[..k], true) == Some(stacks1[..])
      invariant Run(Drawing(lines).value, cmds[..k], false) == Some(stacks2[..])
    {
      var c := cmds[k];
      RunStep(Drawing(lines).value, cmds, k, true, stacks1[..]);
      RunStep(Drawing(lines).value, cmds, k, false, stacks2[..]);
      if !CanMove(stacks1[..], c) {
        RunFailsLater(Drawing(lines).value, cmds, k + 1, true);
        return None;
      }
      if !CanMove(stacks2[..], c) {
        RunFailsLater(Drawing(lines).value, cmds, k + 1, false);
        return None;
      }
      MoveCrates9000(stacks1, c.n, c.from - 1, c.to - 1);
      MoveCrates9001(stacks2, c.n, c.from - 1, c.to - 1);
    }
    assert cmds[..|cmds|] == cmds;
    var t1 := TopCrates(stacks1[..]);
    var t2 := TopCrates(stacks2[..]);
    if t1.None? || t2.None? {
      return None;
    }
    r := Some((t1.value, t2.value));
  }

  /** Once a prefix of the drawing fails, the whole drawing fails. */
  lemma {:induction false} DrawingFailsLater(lines: seq<string>, k: nat)
    requires k <= |lines| && Drawing(lines[..k]).None?
    ensures Drawing(lines).None?
    decreases |lines| - k
  {
    if k < |lines| {
      assert lines[..k + 1][..k] == lines[..k];
      DrawingFailsLater(lines, k + 1);
    } else {
      assert lines[..k] == lines;
    }
  }

  /** Once a prefix of the commands fails, all of them fail. */
  lemma {:induction false} RunFailsLater(stacks: seq<seq<char>>, cmds: seq<Command>, k: nat, oneAtATime: bool)
    requires k <= |cmds| && Run(stacks, cmds[..k], oneAtATime).None?
    ensures Run(stacks, cmds, oneAtATime).None?
    decreases |cmds| - k
  {
    if k < |cmds| {
      assert cmds[..k + 1][..k] == cmds[..k];
      RunFailsLater(stacks, cmds, k + 1, oneAtATime);
    } else {
      assert cmds[..k] == cmds;
    }
  }
}
