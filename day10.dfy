/** Cathode-ray tube: a CPU with one register `x` running `noop` (one cycle)
    and `addx n` (two cycles, then `x` grows by `n`); part 1 sums the signal
    strengths at cycles 20, 60, 100, ..., part 2 draws a 40 by 6 screen whose
    pixel is lit when the sprite at `x` covers it. */
module Day10 {
  import opened Common

  /** A program line: `noop`, `addx n`, or a line that matches neither,
      where the source panics. */
  datatype Instr = Noop | Addx(n: int) | Unknown

  const CRT_SIZE := 240
  const LIT := '█'
  const DARK := '.'

  /** `is_interesting_cycle`, with Rust's truncating `%`. */
  predicate IsInterestingCycle(cycle: int)
  {
    TruncRem(cycle - 20, 40) == 0
  }

  /** Among positive cycles, exactly 20, 60, 100, ... are interesting. */
  lemma InterestingCycles(cycle: int)
    requires cycle > 0
    ensures IsInterestingCycle(cycle) <==> cycle >= 20 && cycle % 40 == 20
  {
    if cycle >= 20 {
      TruncRemNonNegative(cycle - 20, 40);
    } else {
      assert TruncDiv(cycle - 20, 40) == 0;
    }
  }

  /** Two consecutive cycles are never both interesting, so the source's
      second `addx` arm cannot hide a strength the first one adds. */
  lemma NotTwoInARow(cycle: int)
    ensures !(IsInterestingCycle(cycle) && IsInterestingCycle(cycle + 1))
  {
  }

  /** The value of `x` during every cycle the program takes, and `x` after
      the last one; `None` if a line is not an instruction. */
  function Run(instrs: seq<Instr>): (r: Option<(seq<int>, int)>)
  {
    if instrs == [] then Some(([], 1))
    else
      var before := Run(instrs[..|instrs| - 1]);
      if before.None? then None
      else
        var (trace, x) := before.value;
        match instrs[|instrs| - 1]
        case Noop => Some((trace + [x], x))
        case Addx(n) => Some((trace + [x, x], x + n))
        case Unknown => None
  }

  /** The sum of `cycle * x` over the interesting cycles of a trace, where
      `trace[k]` is `x` during cycle `k + 1`. */
  function SignalSum(trace: seq<int>): int
  {
    if trace == [] then 0
    else
      var c := |trace|;
      SignalSum(trace[..c - 1]) + if IsInterestingCycle(c) then c * trace[c - 1] else 0
  }

  /** One more cycle adds its strength when it is interesting. */
  lemma SignalSumSnoc(trace: seq<int>, x: int)
    ensures var c := |trace| + 1;
      SignalSum(trace + [x]) == SignalSum(trace) + if IsInterestingCycle(c) then c * x else 0
  {
    assert (trace + [x])[..|trace|] == trace;
  }

  /** `solve_p1`: each instruction adds the strength of the interesting
      cycle it spans, with `x` as it was before the instruction. */
  method SolveP1(instrs: seq<Instr>) returns (r: Option<int>)
    ensures Run(instrs).None? ==> r.None?
    ensures Run(instrs).Some? ==> r == Some(SignalSum(Run(instrs).value.0))
  {
    var sum, x, cycle := 0, 1, 1;
    for i := 0 to |instrs|
      invariant Run(instrs[..i]).Some?
      invariant Run(instrs[..i]).value.1 == x
      invariant cycle == |Run(instrs[..i]).value.0| + 1
      invariant sum == SignalSum(Run(instrs[..i]).value.0)
    {
      assert instrs[..i + 1][..i] == instrs[..i];
      ghost var trace := Run(instrs[..i]).value.0;
      match instrs[i]
      case Noop =>
        SignalSumSnoc(trace, x);
        if IsInterestingCycle(cycle) {
          sum := sum + cycle * x;
        }
        cycle := cycle + 1;
      case Addx(n) =>
        SignalSumSnoc(trace, x);
        SignalSumSnoc(trace + [x], x);
        assert trace + [x] + [x] == trace + [x, x];
        NotTwoInARow(cycle);
        if IsInterestingCycle(cycle) {
          sum := sum + cycle * x;
        } else if IsInterestingCycle(cycle + 1) {
          sum := sum + (cycle + 1) * x;
        }
        x := x + n;
        cycle := cycle + 2;
      case Unknown =>
        RunFailsLater(instrs, i + 1);
        return None;
    }
    assert instrs[..|instrs|] == instrs;
    r := Some(sum);
  }

  /** Once a prefix of the program fails, the whole program fails. */
  lemma {:induction false} RunFailsLater(instrs: seq<Instr>, k: nat)
    requires k <= |instrs| && Run(instrs[..k]).None?
    ensures Run(instrs).None?
    decreases |instrs| - k
  {
    if k < |instrs| {
      assert instrs[..k + 1][..k] == instrs[..k];
      RunFailsLater(instrs, k + 1);
    } else {
      assert instrs[..k] == instrs;
    }
  }

  /** The pixel drawn at `pos` while the sprite is at `x`. */
  function Pixel(pos: nat, x: int): char
  {
    var pos40 := pos % 40;
    if pos40 == x - 1 || pos40 == x || pos40 == x + 1 then LIT else DARK
  }

  /** `draw`: one pixel, lit when the sprite covers its column. */
  method Draw(x: int, pos: nat, crt: array<char>)
    requires pos < crt.Length
    modifies crt
    ensures crt[pos] == Pixel(pos, x)
    ensures forall i | 0 <= i < crt.Length && i != pos :: crt[i] == old(crt[i])
  {
    var pos40 := pos % 40;
    if pos40 == x - 1 || pos40 == x || pos40 == x + 1 {
      crt[pos] := LIT;
    } else {
      crt[pos] := DARK;
    }
  }

  /** The screen a trace draws: the pixel of every cycle, then blanks. */
  function Screen(trace: seq<int>): (s: string)
    requires |trace| <= CRT_SIZE
    ensures |s| == CRT_SIZE
  {
    seq(CRT_SIZE, p requires 0 <= p < CRT_SIZE => if p < |trace| then Pixel(p, trace[p]) else ' ')
  }

  /** `solve_p2`: each cycle draws the pixel at its position with `x` as it
      is during the cycle; the 240 characters are the answer. A program of
      more than 240 cycles is where the source writes past the screen. */
  method SolveP2(instrs: seq<Instr>) returns (r: Option<string>)
    ensures r.None? <==> Run(instrs).None? || |Run(instrs).value.0| > CRT_SIZE
    ensures r.Some? ==> r.value == Screen(Run(instrs).value.0)
  {
    var x, pos := 1, 0;
    var crt := new char[CRT_SIZE](_ => ' ');
    for i := 0 to |instrs|
      invariant Run(instrs[..i]).Some?
      invariant Run(instrs[..i]).value.1 == x
      invariant pos == |Run(instrs[..i]).value.0| <= CRT_SIZE
      invariant crt[..] == Screen(Run(instrs[..i]).value.0)
    {
      assert instrs[..i + 1][..i] == instrs[..i];
      ghost var trace := Run(instrs[..i]).value.0;
      match instrs[i]
      case Noop =>
        if pos >= CRT_SIZE {
          RunTooLong(instrs, i + 1);
          return None;
        }
        Draw(x, pos, crt);
        pos := pos + 1;
        assert crt[..] == Screen(trace + [x]);
      case Addx(n) =>
        if pos + 1 >= CRT_SIZE {
          RunTooLong(instrs, i + 1);
          return None;
        }
        Draw(x, pos, crt);
        Draw(x, pos + 1, crt);
        pos := pos + 2;
        x := x + n;
        assert crt[..] == Screen(trace + [x - n, x - n]);
      case Unknown =>
        RunFailsLater(instrs, i + 1);
        return None;
    }
    assert instrs[..|instrs|] == instrs;
    r := Some(crt[..]);
  }

  /** A program runs at least as many cycles as any prefix of it. */
  lemma {:induction false} RunTooLong(instrs: seq<Instr>, k: nat)
    requires k <= |instrs| && Run(instrs[..k]).Some? && |Run(instrs[..k]).value.0| > CRT_SIZE
    ensures Run(instrs).None? || |Run(instrs).value.0| > CRT_SIZE
    decreases |instrs| - k
  {
    if k < |instrs| {
      assert instrs[..k + 1][..k] == instrs[..k];
      if Run(instrs[..k + 1]).None? {
        RunFailsLater(instrs, k + 1);
      } else {
        RunTooLong(instrs, k + 1);
      }
    } else {
      assert instrs[..k] == instrs;
    }
  }
}
