/** Rock paper scissors: a strategy guide of four-byte records, each an
    opponent's letter, a space, a second letter and a newline, scored under
    two readings of the second letter. */
module Day02 {
  import opened Common

  const ROCK: Byte := 65
  const PAPER: Byte := 66
  const SCISSORS: Byte := 67
  const ROCK_OR_LOSE: Byte := 88
  const PAPER_OR_DRAW: Byte := 89
  const SCISSORS_OR_WIN: Byte := 90

  const LOSE := 0
  const DRAW := 3
  const WIN := 6
  const S_ROCK := 1
  const S_PAPER := 2
  const S_SCISSORS := 3

  /** The score table of one round, as the source lists it: the first score
      reads the second letter as a shape, the second as an outcome. Any
      other pair of letters is where the source panics. */
  function RoundScores(left: Byte, right: Byte): Option<(int, int)>
  {
    if left == ROCK && right == ROCK_OR_LOSE then Some((S_ROCK + DRAW, S_SCISSORS + LOSE))
    else if left == ROCK && right == PAPER_OR_DRAW then Some((S_PAPER + WIN, S_ROCK + DRAW))
    else if left == ROCK && right == SCISSORS_OR_WIN then Some((S_SCISSORS + LOSE, S_PAPER + WIN))
    else if left == PAPER && right == ROCK_OR_LOSE then Some((S_ROCK + LOSE, S_ROCK + LOSE))
    else if left == PAPER && right == PAPER_OR_DRAW then Some((S_PAPER + DRAW, S_PAPER + DRAW))
    else if left == PAPER && right == SCISSORS_OR_WIN then Some((S_SCISSORS + WIN, S_SCISSORS + WIN))
    else if left == SCISSORS && right == ROCK_OR_LOSE then Some((S_ROCK + WIN, S_PAPER + LOSE))
    else if left == SCISSORS && right == PAPER_OR_DRAW then Some((S_PAPER + LOSE, S_SCISSORS + DRAW))
    else if left == SCISSORS && right == SCISSORS_OR_WIN then Some((S_SCISSORS + DRAW, S_ROCK + WIN))
    else None
  }

  /** The rules of the game, stated independently of the table. */
  datatype Shape = Rock | Paper | Scissors
  datatype Outcome = Lose | Draw | Win

  function ShapeScore(s: Shape): int
  {
    match s
    case Rock => S_ROCK
    case Paper => S_PAPER
    case Scissors => S_SCISSORS
  }

  function OutcomeScore(o: Outcome): int
  {
    match o
    case Lose => LOSE
    case Draw => DRAW
    case Win => WIN
  }

  /** The shape each shape defeats. */
  function Defeats(s: Shape): Shape
  {
    match s
    case Rock => Scissors
    case Paper => Rock
    case Scissors => Paper
  }

  /** The outcome for the player who shows `me` against `them`. */
  function Play(me: Shape, them: Shape): Outcome
  {
    if me == them then Draw else if Defeats(me) == them then Win else Lose
  }

  /** The shape that reaches `o` against `them`. */
  function ShapeFor(them: Shape, o: Outcome): (s: Shape)
    ensures Play(s, them) == o
  {
    match o
    case Draw => them
    case Lose => Defeats(them)
    case Win => Defeats(Defeats(them))
  }

  /** Only one shape reaches a given outcome. */
  lemma ShapeForUnique(them: Shape, me: Shape)
    ensures ShapeFor(them, Play(me, them)) == me
  {
  }

  function LeftShape(b: Byte): Option<Shape>
  {
    if b == ROCK then Some(Rock) else if b == PAPER then Some(Paper)
    else if b == SCISSORS then Some(Scissors) else None
  }

  function RightShape(b: Byte): Option<Shape>
  {
    if b == ROCK_OR_LOSE then Some(Rock) else if b == PAPER_OR_DRAW then Some(Paper)
    else if b == SCISSORS_OR_WIN then Some(Scissors) else None
  }

  function RightOutcome(b: Byte): Option<Outcome>
  {
    if b == ROCK_OR_LOSE then Some(Lose) else if b == PAPER_OR_DRAW then Some(Draw)
    else if b == SCISSORS_OR_WIN then Some(Win) else None
  }

  /** The table agrees with the rules: it covers exactly the letters A to C
      against X to Z; part 1 scores the shape the second letter names plus
      how it fares; part 2 scores the outcome the second letter names plus
      the shape that reaches it. */
  lemma RoundScoresFollowRules(left: Byte, right: Byte)
    ensures RoundScores(left, right).Some? <==> LeftShape(left).Some? && RightShape(right).Some?
    ensures RoundScores(left, right).Some? ==>
      var them, me, o := LeftShape(left).value, RightShape(right).value, RightOutcome(right).value;
      RoundScores(left, right).value ==
        (ShapeScore(me) + OutcomeScore(Play(me, them)), OutcomeScore(o) + ShapeScore(ShapeFor(them, o)))
  {
  }

  /** Each round scores between 1 and 9 under both readings. */
  lemma RoundScoresBounds(left: Byte, right: Byte)
    requires RoundScores(left, right).Some?
    ensures 1 <= RoundScores(left, right).value.0 <= 9
    ensures 1 <= RoundScores(left, right).value.1 <= 9
  {
  }

  /** The totals of the rounds from byte `i` on: a record's letters sit at
      `i` and `i + 2`; a record cut short is where the source indexes past
      the end. */
  function Totals(buf: seq<Byte>, i: nat): (r: Option<(int, int)>)
    decreases |buf| - i
  {
    if i >= |buf| then Some((0, 0))
    else if i + 2 >= |buf| then None
    else
      var round := RoundScores(buf[i], buf[i + 2]);
      var rest := Totals(buf, i + 4);
      if round.None? || rest.None? then None
      else Some((round.value.0 + rest.value.0, round.value.1 + rest.value.1))
  }

  /** The number of records from byte `i` on. */
  function Rounds(buf: seq<Byte>, i: nat): nat
    decreases |buf| - i
  {
    if i >= |buf| then 0 else 1 + Rounds(buf, i + 4)
  }

  /** Every record adds between 1 and 9 to each total. */
  lemma {:induction false} TotalsBounds(buf: seq<Byte>, i: nat)
    requires Totals(buf, i).Some?
    ensures Rounds(buf, i) <= Totals(buf, i).value.0 <= 9 * Rounds(buf, i)
    ensures Rounds(buf, i) <= Totals(buf, i).value.1 <= 9 * Rounds(buf, i)
    decreases |buf| - i
  {
    if i < |buf| {
      RoundScoresBounds(buf[i], buf[i + 2]);
      TotalsBounds(buf, i + 4);
    }
  }

  /** `solve`: the loop that reads a record, advances by four and adds the
      record's scores. */
  method Solve(buf: seq<Byte>) returns (r: Option<(int, int)>)
    ensures r == Totals(buf, 0)
  {
    var i := 0;
    var p1, p2 := 0, 0;
    while true
      invariant Totals(buf, i).Some? ==>
        Totals(buf, 0) == Some((p1 + Totals(buf, i).value.0, p2 + Totals(buf, i).value.1))
      invariant Totals(buf, i).None? ==> Totals(buf, 0).None?
      decreases |buf| - i
    {
      if i >= |buf| {
        break;
      }
      if i + 2 >= |buf| {
        return None;
      }
      var left, right := buf[i], buf[i + 2];
      i := i + 4;
      var round := RoundScores(left, right);
      if round.None? {
        return None;
      }
      p1 := p1 + round.value.0;
      p2 := p2 + round.value.1;
    }
    r := Some((p1, p2));
  }
}
