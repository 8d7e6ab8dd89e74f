/** Monkeys passing items: each monkey inspects the items it holds, changes
    their worry level by its operation, manages the level (divide by three in
    part 1, reduce modulo the product of all divisors in part 2) and throws
    each item to one of two monkeys according to a divisibility test. The
    answer is the product of the two largest inspection counts. */
module Day11 {
  import opened Common
  import Day01

  /** A monkey's operation on the old worry level; `Undefined` until the
      "Operation" line is read. */
  datatype Op = Plus(v: int) | Mult(v: int) | Squared | Undefined

  /** `eval`: `None` for `Undefined`, where the source panics. */
  function Eval(op: Op, arg: int): (r: Option<int>)
    ensures r.None? <==> op.Undefined?
    ensures op.Squared? ==> r.value >= 0
  {
    match op
    case Mult(v) => Some(v * arg)
    case Plus(v) => Some(v + arg)
    case Squared => Some(arg * arg)
    case Undefined => None
  }

  datatype Monkey = Monkey(num: nat, items: seq<int>, op: Op, divisibleBy: int, onTrue: int, onFalse: int)

  // ---------------------------------------------------------------------
  // Parsing: one line's words at a time (the words are the line split at
  // spaces, colons and commas).

  /** The numbers among the words, in order; the other words are skipped. */
  function ParsedItems(ws: seq<string>): (r: seq<int>)
    ensures |r| <= |ws|
  {
    if ws == [] then []
    else
      var rest := ParsedItems(ws[..|ws| - 1]);
      match ParseInt(ws[|ws| - 1])
      case None => rest
      case Some(n) => rest + [n]
  }

  /** Items are read word by word, so reading two runs of words reads their
      concatenation. */
  lemma {:induction false} ParsedItemsAppend(a: seq<string>, b: seq<string>)
    ensures ParsedItems(a + b) == ParsedItems(a) + ParsedItems(b)
    decreases |b|
  {
    if b == [] {
      assert a + b == a;
    } else {
      var b' := b[..|b| - 1];
      assert (a + b)[..|a + b| - 1] == a + b';
      assert (a + b)[|a + b| - 1] == b[|b| - 1];
      ParsedItemsAppend(a, b');
    }
  }

  /** When every word is a number, every word becomes an item. */
  lemma {:induction false} ParsedItemsAllNumbers(ws: seq<string>)
    requires forall k | 0 <= k < |ws| :: ParseInt(ws[k]).Some?
    ensures |ParsedItems(ws)| == |ws|
    ensures forall k | 0 <= k < |ws| :: ParsedItems(ws)[k] == ParseInt(ws[k]).value
  {
    if ws != [] {
      ParsedItemsAllNumbers(ws[..|ws| - 1]);
    }
  }

  /** An "Operation" line ending in `old <sym> <word>`. */
  predicate IsOperation(w: seq<string>, sym: string)
  {
    |w| >= 4 && w[0] == "Operation" && w[|w| - 3] == "old" && w[|w| - 2] == sym
  }

  /** The current monkey with a field changed; `None` when there is no
      monkey yet, where the source's index panics. */
  function SetCurrent(ms: seq<Monkey>, cur: nat, m: Monkey -> Monkey): (r: Option<(seq<Monkey>, nat)>)
    ensures r.Some? <==> cur < |ms|
  {
    if cur < |ms| then Some((ms[cur := m(ms[cur])], cur)) else None
  }

  /** One arm of the `match` on a line's words, tried in the source's order;
      `None` for an unknown line, an unparsable number, a "Starting items"
      line shorter than three words, or a monkey attribute before the first
      "Monkey" line. */
  function ParseLine(ms: seq<Monkey>, cur: nat, w: seq<string>): (r: Option<(seq<Monkey>, nat)>)
  {
    var last := if w == [] then "" else w[|w| - 1];
    if |w| >= 1 && w[0] == "Monkey" then
      Some((ms + [Monkey(|ms|, [], Undefined, 0, 0, 0)], |ms|))
    else if |w| >= 2 && w[0] == "Starting" && w[1] == "items" then
      if |w| < 3 then None
      else SetCurrent(ms, cur, (m: Monkey) => m.(items := m.items + ParsedItems(w[3..])))
    else if IsOperation(w, "*") && last == "old" then
      SetCurrent(ms, cur, (m: Monkey) => m.(op := Squared))
    else if IsOperation(w, "*") then
      match ParseInt(last)
      case None => None
      case Some(v) => SetCurrent(ms, cur, (m: Monkey) => m.(op := Mult(v)))
    else if IsOperation(w, "+") then
      match ParseInt(last)
      case None => None
      case Some(v) => SetCurrent(ms, cur, (m: Monkey) => m.(op := Plus(v)))
    else if |w| == 5 && w[0] == "Test" && w[2] == "divisible" && w[3] == "by" then
      match ParseInt(last)
      case None => None
      case Some(v) => SetCurrent(ms, cur, (m: Monkey) => m.(divisibleBy := v))
    else if |w| >= 3 && w[0] == "If" && w[1] == "true" then
      match ParseInt(last)
      case None => None
      case Some(v) => SetCurrent(ms, cur, (m: Monkey) => m.(onTrue := v))
    else if |w| >= 3 && w[0] == "If" && w[1] == "false" then
      match ParseInt(last)
      case None => None
      case Some(v) => SetCurrent(ms, cur, (m: Monkey) => m.(onFalse := v))
    else if w == [""] then Some((ms, cur))
    else None
  }

  /** The monkeys and the current index after the given lines. */
  function ParseAll(lines: seq<seq<string>>): (r: Option<(seq<Monkey>, nat)>)
  {
    if lines == [] then Some(([], 0))
    else match ParseAll(lines[..|lines| - 1])
      case None => None
      case Some(p) => ParseLine(p.0, p.1, lines[|lines| - 1])
  }

  /** Each monkey is numbered by its position, and the current monkey is the
      last one read. */
  predicate Numbered(ms: seq<Monkey>, cur: nat)
  {
    (forall i | 0 <= i < |ms| :: ms[i].num == i) &&
    (if ms == [] then cur == 0 else cur == |ms| - 1)
  }

  lemma ParseLineKeepsNumbered(ms: seq<Monkey>, cur: nat, w: seq<string>)
    requires Numbered(ms, cur) && ParseLine(ms, cur, w).Some?
    ensures var p := ParseLine(ms, cur, w).value; Numbered(p.0, p.1)
  {
  }

  lemma {:induction false} ParsedNumbered(lines: seq<seq<string>>)
    requires ParseAll(lines).Some?
    ensures var p := ParseAll(lines).value; Numbered(p.0, p.1)
  {
    if lines != [] {
      ParsedNumbered(lines[..|lines| - 1]);
      var p := ParseAll(lines[..|lines| - 1]).value;
      ParseLineKeepsNumbered(p.0, p.1, lines[|lines| - 1]);
    }
  }

  lemma {:induction false} ParseAllFailsLater(lines: seq<seq<string>>, k: nat)
    requires k <= |lines| && ParseAll(lines[..k]).None?
    ensures ParseAll(lines).None?
    decreases |lines| - k
  {
    if k < |lines| {
      assert lines[..k + 1][..k] == lines[..k];
      ParseAllFailsLater(lines, k + 1);
    } else {
      assert lines[..k] == lines;
    }
  }

  /** The item loop of `parse`: every word from the third on that reads as
      a number is appended, in order. */
  method AppendItems(items0: seq<int>, w: seq<string>) returns (items: seq<int>)
    requires |w| >= 3
    ensures items == items0 + ParsedItems(w[3..])
  {
    items := items0;
    for k := 3 to |w|
      invariant items == items0 + ParsedItems(w[3..k])
    {
      assert w[3..k + 1][..k - 3] == w[3..k];
      var n := ParseInt(w[k]);
      if n.Some? {
        items := items + [n.value];
      }
    }
    assert w[3..|w|] == w[3..];
  }

  /** `parse`: the lines read one by one into the list of monkeys. */
  method Parse(lines: seq<seq<string>>) returns (r: Option<seq<Monkey>>)
    ensures r.None? <==> ParseAll(lines).None?
    ensures r.Some? ==> r.value == ParseAll(lines).value.0
  {
    var monkeys: seq<Monkey> := [];
    var current: nat := 0;
    for i := 0 to |lines|
      invariant ParseAll(lines[..i]) == Some((monkeys, current))
    {
      assert lines[..i + 1][..i] == lines[..i];
      var w := lines[i];
      var last := if w == [] then "" else w[|w| - 1];
      if |w| >= 1 && w[0] == "Monkey" {
        current := |monkeys|;
        monkeys := monkeys + [Monkey(current, [], Undefined, 0, 0, 0)];
      } else if |w| >= 2 && w[0] == "Starting" && w[1] == "items" {
        if current >= |monkeys| || |w| < 3 {
          ParseAllFailsLater(lines, i + 1);
          return None;
        }
        var items := AppendItems(monkeys[current].items, w);
        monkeys := monkeys[current := monkeys[current].(items := items)];
      } else if w == [""] {
      } else {
        var next := ParseLine(monkeys, current, w);
        if next.None? {
          ParseAllFailsLater(lines, i + 1);
          return None;
        }
        monkeys, current := next.value.0, next.value.1;
      }
    }
    assert lines[..|lines|] == lines;
    r := Some(monkeys);
  }

  // ---------------------------------------------------------------------
  // Simulation.

  /** What the monkeys hold and how many items each has inspected. */
  datatype State = State(items: seq<seq<int>>, count: seq<int>)

  /** The worry level after management: divided by three (rounding toward
      zero) in part 1, the truncating remainder by `lcd` in part 2; `None`
      when `lcd` is zero, where the source panics. */
  function Worry(x: int, part1: bool, lcd: int): (r: Option<int>)
    ensures r.None? <==> !part1 && lcd == 0
    ensures part1 && x >= 0 ==> r == Some(x / 3)
    ensures !part1 && lcd > 0 && x >= 0 ==> 0 <= r.value < lcd
  {
    if part1 then Some(TruncDiv(x, 3))
    else if lcd == 0 then None
    else Some(TruncRem(x, lcd))
  }

  /** The monkey an item of this worry level goes to; `None` for a zero
      divisor, where the source panics. */
  function Destination(m: Monkey, worry: int): (r: Option<int>)
    ensures r.None? <==> m.divisibleBy == 0
    ensures r.Some? ==> (r.value == m.onTrue || r.value == m.onFalse)
  {
    if m.divisibleBy == 0 then None
    else Some(if TruncRem(worry, m.divisibleBy) == 0 then m.onTrue else m.onFalse)
  }

  /** One item's inspection: the destination and the new worry level. */
  function Throw(m: Monkey, part1: bool, lcd: int, item: int): (r: Option<(int, int)>)
    ensures r.Some? ==> r.value.0 == m.onTrue || r.value.0 == m.onFalse
  {
    match Eval(m.op, item)
    case None => None
    case Some(x) =>
      match Worry(x, part1, lcd)
      case None => None
      case Some(w) =>
        match Destination(m, w)
        case None => None
        case Some(d) => Some((d, w))
  }

  /** The items of `held` thrown in order, each appended to its destination's
      list; `None` for a destination that is not a monkey. */
  function ThrowAll(m: Monkey, part1: bool, lcd: int, held: seq<int>, items: seq<seq<int>>): (r: Option<seq<seq<int>>>)
    ensures r.Some? ==> |r.value| == |items|
  {
    if held == [] then Some(items)
    else
      match ThrowAll(m, part1, lcd, held[..|held| - 1], items)
      case None => None
      case Some(its) =>
        match Throw(m, part1, lcd, held[|held| - 1])
        case None => None
        case Some(t) => if 0 <= t.0 < |its| then Some(its[t.0 := its[t.0] + [t.1]]) else None
  }

  /** One monkey's turn: its count grows by the number of items it holds, it
      throws them all, and whatever was thrown back to itself is dropped. */
  function Turn(m: Monkey, part1: bool, lcd: int, st: State): (r: Option<State>)
  {
    var i := m.num;
    if i >= |st.count| || i >= |st.items| then None
    else
      match ThrowAll(m, part1, lcd, st.items[i], st.items[i := []])
      case None => None
      case Some(its) => Some(State(its[i := []], st.count[i := st.count[i] + |st.items[i]|]))
  }

  /** One round: every monkey's turn, in list order. */
  function RoundOf(ms: seq<Monkey>, part1: bool, lcd: int, st: State): (r: Option<State>)
  {
    if ms == [] then Some(st)
    else
      match RoundOf(ms[..|ms| - 1], part1, lcd, st)
      case None => None
      case Some(s) => Turn(ms[|ms| - 1], part1, lcd, s)
  }

  function Rounds(ms: seq<Monkey>, n: nat, part1: bool, lcd: int, st: State): (r: Option<State>)
  {
    if n == 0 then Some(st)
    else
      match Rounds(ms, n - 1, part1, lcd, st)
      case None => None
      case Some(s) => RoundOf(ms, part1, lcd, s)
  }

  /** The product of all divisors. */
  function Product(ms: seq<Monkey>): int
  {
    if ms == [] then 1 else Product(ms[..|ms| - 1]) * ms[|ms| - 1].divisibleBy
  }

  /** The modulus of part 2; part 1 leaves it at one. */
  function Lcd(ms: seq<Monkey>, part1: bool): int
  {
    if part1 then 1 else Product(ms)
  }

  /** Each monkey starts with the items of its description. */
  function Holdings(ms: seq<Monkey>): (r: seq<seq<int>>)
    ensures |r| == |ms|
    ensures forall i | 0 <= i < |ms| :: r[i] == ms[i].items
  {
    if ms == [] then [] else Holdings(ms[..|ms| - 1]) + [ms[|ms| - 1].items]
  }

  function Zeros(n: nat): (r: seq<int>)
    ensures |r| == n && forall i | 0 <= i < n :: r[i] == 0
  {
    if n == 0 then [] else Zeros(n - 1) + [0]
  }

  function Start(ms: seq<Monkey>): State
  {
    State(Holdings(ms), Zeros(|ms|))
  }

  /** The two largest counts, zero standing in for a missing one. */
  function TopTwo(count: seq<int>): (r: seq<int>)
    ensures |r| == 2
  {
    Day01.SortDesc([0, 0] + count)[..2]
  }

  /** `simulate`: the product of the two largest counts after the rounds;
      `None` where the source panics. */
  function Simulation(ms: seq<Monkey>, rounds: int, part1: bool): (r: Option<int>)
  {
    var n := if rounds < 0 then 0 else rounds;
    match Rounds(ms, n, part1, Lcd(ms, part1), Start(ms))
    case None => None
    case Some(st) => var t := TopTwo(st.count); Some(t[0] * t[1])
  }

  // ---------------------------------------------------------------------
  // Properties of the simulation.

  /** The total number of items held. */
  function Total(items: seq<seq<int>>): (r: nat)
  {
    if items == [] then 0 else Total(items[..|items| - 1]) + |items[|items| - 1]|
  }

  lemma {:induction false} TotalUpdate(items: seq<seq<int>>, i: nat, v: seq<int>)
    requires i < |items|
    ensures Total(items[i := v]) == Total(items) - |items[i]| + |v|
  {
    var n := |items| - 1;
    var u := items[i := v];
    assert u[..n] == if i == n then items[..n] else items[..n][i := v];
    if i < n {
      TotalUpdate(items[..n], i, v);
    }
  }

  /** Throwing adds exactly the thrown items, and only the two destinations'
      lists change. */
  lemma {:induction false} ThrowAllFacts(m: Monkey, part1: bool, lcd: int, held: seq<int>, items: seq<seq<int>>)
    requires ThrowAll(m, part1, lcd, held, items).Some?
    ensures var r := ThrowAll(m, part1, lcd, held, items).value;
      Total(r) == Total(items) + |held| &&
      forall j | 0 <= j < |items| && j != m.onTrue && j != m.onFalse :: r[j] == items[j]
  {
    if held != [] {
      var pre := held[..|held| - 1];
      ThrowAllFacts(m, part1, lcd, pre, items);
      var its := ThrowAll(m, part1, lcd, pre, items).value;
      var t := Throw(m, part1, lcd, held[|held| - 1]).value;
      TotalUpdate(its, t.0, its[t.0] + [t.1]);
    }
  }

  /** A turn counts the monkey's items and leaves it with none; no item is
      created, and none is lost unless the monkey throws to itself. */
  lemma TurnFacts(m: Monkey, part1: bool, lcd: int, st: State)
    requires Turn(m, part1, lcd, st).Some?
    ensures var r := Turn(m, part1, lcd, st).value;
      var i := m.num;
      |r.items| == |st.items| && |r.count| == |st.count| &&
      r.items[i] == [] &&
      r.count[i] == st.count[i] + |st.items[i]| &&
      (forall j | 0 <= j < |st.count| && j != i :: r.count[j] == st.count[j]) &&
      Total(r.items) <= Total(st.items) &&
      (m.onTrue != i && m.onFalse != i ==> Total(r.items) == Total(st.items))
  {
    var i := m.num;
    var base := st.items[i := []];
    TotalUpdate(st.items, i, []);
    ThrowAllFacts(m, part1, lcd, st.items[i], base);
    var its := ThrowAll(m, part1, lcd, st.items[i], base).value;
    TotalUpdate(its, i, []);
  }

  /** No monkey's test sends an item back to itself. */
  predicate NoSelfThrows(ms: seq<Monkey>)
  {
    forall j | 0 <= j < |ms| :: ms[j].onTrue != ms[j].num && ms[j].onFalse != ms[j].num
  }

  /** What the rounds keep: the shape of the state, counts that never
      decrease, and an item total that never grows. */
  predicate Follows(st: State, r: State)
  {
    |r.items| == |st.items| && |r.count| == |st.count| &&
    (forall j | 0 <= j < |st.count| :: r.count[j] >= st.count[j]) &&
    Total(r.items) <= Total(st.items)
  }

  lemma {:induction false} RoundOfFacts(ms: seq<Monkey>, part1: bool, lcd: int, st: State)
    requires RoundOf(ms, part1, lcd, st).Some?
    ensures Follows(st, RoundOf(ms, part1, lcd, st).value)
    ensures NoSelfThrows(ms) ==> Total(RoundOf(ms, part1, lcd, st).value.items) == Total(st.items)
  {
    if ms != [] {
      var pre := ms[..|ms| - 1];
      RoundOfFacts(pre, part1, lcd, st);
      var s := RoundOf(pre, part1, lcd, st).value;
      TurnFacts(ms[|ms| - 1], part1, lcd, s);
    }
  }

  /** Across any number of rounds counts only grow and items are never
      created; without self-throws every item is kept. */
  lemma {:induction false} RoundsFacts(ms: seq<Monkey>, n: nat, part1: bool, lcd: int, st: State)
    requires Rounds(ms, n, part1, lcd, st).Some?
    ensures Follows(st, Rounds(ms, n, part1, lcd, st).value)
    ensures NoSelfThrows(ms) ==> Total(Rounds(ms, n, part1, lcd, st).value.items) == Total(st.items)
  {
    if n > 0 {
      RoundsFacts(ms, n - 1, part1, lcd, st);
      var s := Rounds(ms, n - 1, part1, lcd, st).value;
      RoundOfFacts(ms, part1, lcd, s);
    }
  }

  /** A multiple of `d` leaves no remainder. */
  lemma MultipleRemZero(d: int, k: int)
    requires d != 0
    ensures TruncRem(d * k, d) == 0
  {
    var t := TruncDiv(d * k, d);
    MulSub(d, k, t);
    if k - t != 0 {
      MulAbsAtLeast(d, k - t);
    }
  }

  /** Subtracting a multiple of `d` does not change divisibility by `d`. */
  lemma RemZeroShift(a: int, d: int, j: int)
    requires d != 0
    ensures TruncRem(a - d * j, d) == 0 <==> TruncRem(a, d) == 0
  {
    if TruncRem(a, d) == 0 {
      RemZeroShiftDown(a, d, j);
    }
    if TruncRem(a - d * j, d) == 0 {
      RemZeroShiftDown(a - d * j, d, -j);
      assert (a - d * j) - d * -j == a;
    }
  }

  lemma RemZeroShiftDown(a: int, d: int, j: int)
    requires d != 0 && TruncRem(a, d) == 0
    ensures TruncRem(a - d * j, d) == 0
  {
    var t := TruncDiv(a, d);
    assert a == d * t;
    MulSub(d, t, j);
    assert a - d * j == d * (t - j);
    MultipleRemZero(d, t - j);
  }

  /** Every divisor divides the product of all of them. */
  lemma {:induction false} ProductFactor(ms: seq<Monkey>, i: nat) returns (k: int)
    requires i < |ms|
    ensures Product(ms) == ms[i].divisibleBy * k
  {
    var n := |ms| - 1;
    if i == n {
      k := Product(ms[..n]);
    } else {
      var k' := ProductFactor(ms[..n], i);
      k := k' * ms[n].divisibleBy;
      assert Product(ms) == (ms[i].divisibleBy * k') * ms[n].divisibleBy;
    }
  }

  lemma MulAssoc(a: int, b: int, c: int)
    ensures (a * b) * c == a * (b * c)
  {
  }

  /** Reducing modulo a multiple of `d` keeps divisibility by `d`. */
  lemma RemOfRem(x: int, d: int, k: int)
    requires d != 0 && d * k != 0
    ensures TruncRem(TruncRem(x, d * k), d) == 0 <==> TruncRem(x, d) == 0
  {
    var t := TruncDiv(x, d * k);
    assert TruncRem(x, d * k) == x - (d * k) * t;
    MulAssoc(d, k, t);
    RemZeroShift(x, d, k * t);
  }

  /** Part 2's reduction is sound: for any monkey's divisor, the reduced worry
      level passes the test exactly when the unreduced one does, so every
      item goes where it would have gone without the reduction. */
  lemma Part2KeepsDestination(ms: seq<Monkey>, i: nat, x: int)
    requires i < |ms| && Product(ms) != 0
    ensures Destination(ms[i], Worry(x, false, Product(ms)).value) == Destination(ms[i], x)
    ensures Destination(ms[i], x).Some?
  {
    var d := ms[i].divisibleBy;
    var k := ProductFactor(ms, i);
    RemOfRem(x, d, k);
  }

  /** In part 2 a non-negative worry level stays below the modulus. */
  lemma Part2Bounded(ms: seq<Monkey>, x: int)
    requires Product(ms) > 0 && x >= 0
    ensures 0 <= Worry(x, false, Lcd(ms, false)).value < Lcd(ms, false)
  {
  }

  /** The top two are ordered and non-negative, no count is above the first,
      and each is a count or padding. */
  lemma TopTwoFacts(count: seq<int>)
    requires forall i | 0 <= i < |count| :: count[i] >= 0
    ensures var t := TopTwo(count);
      t[0] >= t[1] >= 0 &&
      (forall i | 0 <= i < |count| :: count[i] <= t[0]) &&
      (forall k | 0 <= k < 2 :: t[k] == 0 || t[k] in count)
  {
    var all := [0, 0] + count;
    var r := Day01.SortDesc(all);
    Day01.SortDescSorted(all);
    Day01.SortDescPermutation(all);
    forall k | 0 <= k < 2
      ensures r[k] == 0 || r[k] in count
    {
      assert r[k] in multiset(r);
      PaddedMember(count, r[k]);
    }
    if r[1] != 0 {
      var i :| 0 <= i < |count| && count[i] == r[1];
    }
    forall i | 0 <= i < |count|
      ensures count[i] <= r[0]
    {
      assert all[i + 2] == count[i];
      assert count[i] in multiset(all);
      var m :| 0 <= m < |r| && r[m] == count[i];
    }
  }

  /** A value of the padded counts is padding or one of the counts. */
  lemma PaddedMember(count: seq<int>, v: int)
    requires v in [0, 0] + count
    ensures v == 0 || v in count
  {
    var all := [0, 0] + count;
    var m :| 0 <= m < |all| && all[m] == v;
    if m >= 2 {
      assert all[m] == count[m - 2];
    }
  }


  lemma TopTwoStep(count: seq<int>, x: int)
    ensures var t := TopTwo(count); t[0] >= t[1]
    ensures TopTwo(count + [x]) == Day01.InsertDesc(x, TopTwo(count))[..2]
  {
    var pre := [0, 0] + count;
    assert [0, 0] + (count + [x]) == pre + [x];
    assert (pre + [x])[..|pre|] == pre;
    Day01.InsertDescPrefix(x, Day01.SortDesc(pre), 2);
    Day01.SortDescSorted(pre);
  }

  /** The simulation's answer is the product of two counts, no count is
      larger than the first factor, and neither is negative. */
  lemma SimulationFacts(ms: seq<Monkey>, rounds: int, part1: bool)
    requires Simulation(ms, rounds, part1).Some?
    ensures Simulation(ms, rounds, part1).value >= 0
    ensures var n := if rounds < 0 then 0 else rounds;
      var st := Rounds(ms, n, part1, Lcd(ms, part1), Start(ms)).value;
      exists a, b | Simulation(ms, rounds, part1).value == a * b ::
        a >= b >= 0 && (forall i | 0 <= i < |st.count| :: st.count[i] <= a)
  {
    var n := if rounds < 0 then 0 else rounds;
    RoundsFacts(ms, n, part1, Lcd(ms, part1), Start(ms));
    var st := Rounds(ms, n, part1, Lcd(ms, part1), Start(ms)).value;
    TopTwoFacts(st.count);
    var t := TopTwo(st.count);
    var a, b := t[0], t[1];
    assert Simulation(ms, rounds, part1).value == a * b;
    ProductNonNegative(a, b);
  }

  // ---------------------------------------------------------------------
  // The simulation as the source runs it.

  lemma {:induction false} ThrowAllFailsLater(m: Monkey, part1: bool, lcd: int, held: seq<int>, items: seq<seq<int>>, k: nat)
    requires k <= |held| && ThrowAll(m, part1, lcd, held[..k], items).None?
    ensures ThrowAll(m, part1, lcd, held, items).None?
    decreases |held| - k
  {
    if k < |held| {
      assert held[..k + 1][..k] == held[..k];
      ThrowAllFailsLater(m, part1, lcd, held, items, k + 1);
    } else {
      assert held[..k] == held;
    }
  }

  /** The body of the loop over the held items: one item inspected,
      relieved and thrown onto the end of its destination's list; `None`
      where the source panics. */
  method ThrowItem(m: Monkey, part1: bool, lcd: int, item: int, its: seq<seq<int>>)
    returns (r: Option<seq<seq<int>>>)
    ensures var t := Throw(m, part1, lcd, item);
      r.Some? <==> t.Some? && 0 <= t.value.0 < |its|
    ensures var t := Throw(m, part1, lcd, item);
      r.Some? ==> r.value == its[t.value.0 := its[t.value.0] + [t.value.1]]
  {
    var x := Eval(m.op, item);
    if x.None? {
      return None;
    }
    var worry: int;
    if part1 {
      worry := TruncDiv(x.value, 3);
    } else {
      if lcd == 0 {
        return None;
      }
      worry := TruncRem(x.value, lcd);
    }
    if m.divisibleBy == 0 {
      return None;
    }
    var dest := if TruncRem(worry, m.divisibleBy) == 0 then m.onTrue else m.onFalse;
    if dest < 0 || dest >= |its| {
      return None;
    }
    r := Some(its[dest := its[dest] + [worry]]);
  }

  /** One monkey's turn, on the lists of items and counts. */
  method TakeTurn(m: Monkey, part1: bool, lcd: int, items: seq<seq<int>>, count: seq<int>)
    returns (r: Option<State>)
    ensures r == Turn(m, part1, lcd, State(items, count))
  {
    var idx := m.num;
    if idx >= |count| || idx >= |items| {
      return None;
    }
    var cnt := count[idx := count[idx] + |items[idx]|];
    var toMove := items[idx];
    var its := items[idx := []];
    ghost var base := its;
    for k := 0 to |toMove|
      invariant ThrowAll(m, part1, lcd, toMove[..k], base) == Some(its)
    {
      ghost var next := toMove[..k + 1];
      assert next[..|next| - 1] == toMove[..k] && next[|next| - 1] == toMove[k];
      var thrown := ThrowItem(m, part1, lcd, toMove[k], its);
      if thrown.None? {
        ThrowAllFailsLater(m, part1, lcd, toMove, base, k + 1);
        return None;
      }
      its := thrown.value;
    }
    assert toMove[..|toMove|] == toMove;
    its := its[idx := []];
    r := Some(State(its, cnt));
  }


  lemma {:induction false} RoundOfFailsLater(ms: seq<Monkey>, part1: bool, lcd: int, st: State, k: nat)
    requires k <= |ms| && RoundOf(ms[..k], part1, lcd, st).None?
    ensures RoundOf(ms, part1, lcd, st).None?
    decreases |ms| - k
  {
    if k < |ms| {
      assert ms[..k + 1][..k] == ms[..k];
      RoundOfFailsLater(ms, part1, lcd, st, k + 1);
    } else {
      assert ms[..k] == ms;
    }
  }

  lemma {:induction false} RoundsFailsLater(ms: seq<Monkey>, n: nat, part1: bool, lcd: int, st: State, k: nat)
    requires k <= n && Rounds(ms, k, part1, lcd, st).None?
    ensures Rounds(ms, n, part1, lcd, st).None?
    decreases n - k
  {
    if k < n {
      RoundsFailsLater(ms, n, part1, lcd, st, k + 1);
    }
  }

  /** The source's update of the running top two: a count above `a` pushes
      `a` down, a count above only `b` replaces it. */
  method UpdateTopTwo(a: int, b: int, c: int) returns (a': int, b': int)
    requires a >= b
    ensures [a', b'] == Day01.InsertDesc(c, [a, b])[..2]
  {
    a', b' := a, b;
    assert [a, b][1..] == [b] && [b][1..] == [];
    if c >= a {
      assert Day01.InsertDesc(c, [a, b]) == [c, a, b];
    } else if c >= b {
      assert Day01.InsertDesc(c, [b]) == [c, b];
      assert Day01.InsertDesc(c, [a, b]) == [a, c, b];
    } else {
      assert Day01.InsertDesc(c, []) == [c];
      assert Day01.InsertDesc(c, [b]) == [b, c];
      assert Day01.InsertDesc(c, [a, b]) == [a, b, c];
    }
    if c > a {
      b' := a;
      a' := c;
    } else if c > b {
      b' := c;
    }
  }

  /** One round: each monkey's turn in list order. */
  method PlayRound(monkeys: seq<Monkey>, part1: bool, lcd: int, items: seq<seq<int>>, count: seq<int>)
    returns (r: Option<State>)
    ensures r == RoundOf(monkeys, part1, lcd, State(items, count))
  {
    var its, cnt := items, count;
    for j := 0 to |monkeys|
      invariant RoundOf(monkeys[..j], part1, lcd, State(items, count)) == Some(State(its, cnt))
    {
      assert monkeys[..j + 1][..j] == monkeys[..j];
      var next := TakeTurn(monkeys[j], part1, lcd, its, cnt);
      if next.None? {
        RoundOfFailsLater(monkeys, part1, lcd, State(items, count), j + 1);
        return None;
      }
      its, cnt := next.value.items, next.value.count;
    }
    assert monkeys[..|monkeys|] == monkeys;
    r := Some(State(its, cnt));
  }

  /** The scan for the two largest counts. */
  method LargestTwo(count: seq<int>) returns (a: int, b: int)
    ensures [a, b] == TopTwo(count)
  {
    a, b := 0, 0;
    assert [0, 0] + [] == [0, 0];
    assert [0, 0][..1] == [0] && [0][..0] == [];
    assert count[..0] == [];
    for i := 0 to |count|
      invariant [a, b] == TopTwo(count[..i])
    {
      assert count[..i + 1] == count[..i] + [count[i]];
      TopTwoStep(count[..i], count[i]);
      a, b := UpdateTopTwo(a, b, count[i]);
    }
    assert count[..|count|] == count;
  }

  /** `simulate`: the setup loop, the rounds, and the top-two scan. */
  method Simulate(monkeys: seq<Monkey>, rounds: int, part1: bool) returns (r: Option<int>)
    ensures r == Simulation(monkeys, rounds, part1)
  {
    var count: seq<int> := [];
    var items: seq<seq<int>> := [];
    var lcd := 1;
    for i := 0 to |monkeys|
      invariant count == Zeros(i)
      invariant items == Holdings(monkeys[..i])
      invariant lcd == Lcd(monkeys[..i], part1)
    {
      assert monkeys[..i + 1][..i] == monkeys[..i];
      count := count + [0];
      items := items + [monkeys[i].items];
      if !part1 {
        lcd := lcd * monkeys[i].divisibleBy;
      }
    }
    assert monkeys[..|monkeys|] == monkeys;
    ghost var start := State(items, count);
    ghost var n: nat := if rounds < 0 then 0 else rounds;
    var round := 1;
    while round <= rounds
      invariant 1 <= round <= n + 1
      invariant Rounds(monkeys, round - 1, part1, lcd, start) == Some(State(items, count))
    {
      var next := PlayRound(monkeys, part1, lcd, items, count);
      if next.None? {
        RoundsFailsLater(monkeys, n, part1, lcd, start, round);
        return None;
      }
      items, count := next.value.items, next.value.count;
      round := round + 1;
    }
    var a, b := LargestTwo(count);
    r := Some(a * b);
  }

  /** `solve`: part 1 runs 20 rounds dividing by three, part 2 runs 10000
      rounds reducing modulo the product of the divisors. */
  method Solve(lines: seq<seq<string>>) returns (p1: Option<int>, p2: Option<int>)
    ensures ParseAll(lines).None? ==> p1.None? && p2.None?
    ensures ParseAll(lines).Some? ==>
      var ms := ParseAll(lines).value.0;
      p1 == Simulation(ms, 20, true) && p2 == Simulation(ms, 10000, false)
  {
    var monkeys := Parse(lines);
    if monkeys.None? {
      return None, None;
    }
    p1 := Simulate(monkeys.value, 20, true);
    p2 := Simulate(monkeys.value, 10000, false);
  }
}
