/** Monkey math: evaluating a tree of monkey rules, and solving the root's
    equation for the value the human must shout, by folding every constant
    subtree and then inverting the operations along the path to the human. */
module Day21 {
  import opened Common

  datatype Rule = MathOp(lhs: string, op: char, rhs: string) | Number(num: int)

  datatype Expr = Humn | Num(n: int) | Bin(left: Expr, op: char, right: Expr)

  /** One operation on two numbers: `/` truncates toward zero; a division by
      zero and an unknown operator are where the source panics. */
  function Apply(op: char, a: int, b: int): (r: Option<int>)
    ensures r.None? <==> !(op in "+-*/") || (op == '/' && b == 0)
    ensures op == '+' ==> r == Some(a + b)
    ensures op == '-' ==> r == Some(a - b)
    ensures op == '*' ==> r == Some(a * b)
    ensures op == '/' && b != 0 ==> r == Some(TruncDiv(a, b))
  {
    if op == '+' then Some(a + b)
    else if op == '-' then Some(a - b)
    else if op == '*' then Some(a * b)
    else if op == '/' && b != 0 then Some(TruncDiv(a, b))
    else None
  }

  /** The rank of a monkey in a ranking of the tree; absent names rank 0. */
  function Rank(rank: map<string, nat>, m: string): nat
  {
    if m in rank then rank[m] else 0
  }

  /** Every operation's operands rank strictly below it, so the rules form a
      tree (the puzzle input does). */
  ghost predicate Ranked(rules: map<string, Rule>, rank: map<string, nat>)
  {
    forall m | m in rules && rules[m].MathOp? ::
      Rank(rank, rules[m].lhs) < Rank(rank, m) && Rank(rank, rules[m].rhs) < Rank(rank, m)
  }

  /** `yell`: the number a monkey shouts; `None` where the source panics (a
      missing monkey, a division by zero, an unknown operator). */
  function Yell(rules: map<string, Rule>, rank: map<string, nat>, m: string): (r: Option<int>)
    requires Ranked(rules, rank)
    ensures r.Some? ==> m in rules
    ensures m in rules && rules[m].MathOp? && r.Some? ==>
      Yell(rules, rank, rules[m].lhs).Some? && Yell(rules, rank, rules[m].rhs).Some?
    decreases Rank(rank, m)
  {
    if m !in rules then None
    else match rules[m]
      case Number(num) => Some(num)
      case MathOp(l, op, r) =>
        var a := Yell(rules, rank, l);
        var b := Yell(rules, rank, r);
        if a.None? || b.None? then None else Apply(op, a.value, b.value)
  }

  /** The value of an expression when the human shouts `h`. */
  function Value(e: Expr, h: int): Option<int>
  {
    match e
    case Humn => Some(h)
    case Num(n) => Some(n)
    case Bin(l, op, r) =>
      var a := Value(l, h);
      var b := Value(r, h);
      if a.None? || b.None? then None else Apply(op, a.value, b.value)
  }

  predicate HumnFree(e: Expr)
  {
    match e
    case Humn => false
    case Num(_) => true
    case Bin(l, _, r) => HumnFree(l) && HumnFree(r)
  }

  /** No operation left whose operands are both numbers: what `eval` leaves. */
  predicate Folded(e: Expr)
  {
    match e
    case Bin(l, _, r) => Folded(l) && Folded(r) && !(l.Num? && r.Num?)
    case _ => true
  }

  /** `eval`: folds every operation whose operands both evaluate to numbers. */
  function Eval(e: Expr): (r: Option<Expr>)
    ensures r.Some? ==> Size(r.value) <= Size(e)
    ensures r.Some? && e.Humn? ==> r.value.Humn?
  {
    match e
    case Num(_) => Some(e)
    case Humn => Some(e)
    case Bin(l, op, r) =>
      var el := Eval(l);
      var er := Eval(r);
      if el.None? || er.None? then None
      else if el.value.Num? && er.value.Num? then
        var v := Apply(op, el.value.n, er.value.n);
        if v.None? then None else Some(Num(v.value))
      else Some(Bin(el.value, op, er.value))
  }

  /** Folding keeps the value for every choice of the human's number. */
  lemma {:induction false} EvalKeepsValue(e: Expr, h: int)
    requires Eval(e).Some?
    ensures Value(Eval(e).value, h) == Value(e, h)
  {
    if e.Bin? {
      EvalKeepsValue(e.left, h);
      EvalKeepsValue(e.right, h);
    }
  }

  /** What `eval` returns is folded, and `eval` leaves a folded tree as it is:
      a second pass changes nothing. */
  lemma {:induction false} EvalFolds(e: Expr)
    requires Eval(e).Some?
    ensures Folded(Eval(e).value)
  {
    if e.Bin? {
      EvalFolds(e.left);
      EvalFolds(e.right);
    }
  }

  lemma {:induction false} EvalOfFolded(e: Expr)
    requires Folded(e)
    ensures Eval(e) == Some(e)
  {
    if e.Bin? {
      EvalOfFolded(e.left);
      EvalOfFolded(e.right);
    }
  }

  lemma EvalIdempotent(e: Expr)
    requires Eval(e).Some?
    ensures Eval(Eval(e).value) == Eval(e)
  {
    EvalFolds(e);
    EvalOfFolded(Eval(e).value);
  }

  /** On a tree without the human, `eval` yields the single number the tree
      denotes, and fails exactly where that value is undefined. */
  lemma {:induction false} EvalHumnFree(e: Expr, h: int)
    requires HumnFree(e)
    ensures Value(e, h).None? ==> Eval(e).None?
    ensures Value(e, h).Some? ==> Eval(e) == Some(Num(Value(e, h).value))
  {
    if e.Bin? {
      EvalHumnFree(e.left, h);
      EvalHumnFree(e.right, h);
    }
  }

  /** The expression tree `solve_for_humn` builds below the root: the human
      becomes `Humn` whatever its rule, number rules become `Num`, and the
      root, when it adds, becomes the equation solved by `ReduceWith` (as
      written when `fixed` is false, corrected when it is true). */
  function SolveForHumn(rules: map<string, Rule>, rank: map<string, nat>, m: string, fixed: bool): (r: Option<Expr>)
    requires Ranked(rules, rank)
    ensures r.Some? && m != "root" ==> (r.value.Humn? <==> m == "humn")
    ensures r.Some? && m != "humn" ==> m in rules
    decreases Rank(rank, m)
  {
    if m == "humn" then Some(Humn)
    else if m !in rules then None
    else match rules[m]
      case Number(num) => Some(Num(num))
      case MathOp(l, op, r) =>
        var el := SolveForHumn(rules, rank, l, fixed);
        var er := SolveForHumn(rules, rank, r, fixed);
        if el.None? || er.None? then None
        else if op == '+' && m == "root" then
          var fl := Eval(el.value);
          var fr := Eval(er.value);
          if fl.None? || fr.None? then None else ReduceWith(fl.value, fr.value, fixed)
        else Some(Bin(el.value, op, er.value))
  }

  function Size(e: Expr): nat
  {
    match e
    case Bin(l, _, r) => 1 + Size(l) + Size(r)
    case _ => 1
  }

  /** One step of `reduce` on `num == a op b`: the equation one level down,
      in the order of the source's match arms. With `fixed` false it is the
      source as written, where `num == l / r` becomes `num * l == r`; with
      `fixed` true that arm becomes `l / num == r`, taken only when the
      division is exact. `None` stands for the source's panics. */
  function Invert(num: int, a: Expr, op: char, b: Expr, fixed: bool): (r: Option<(Expr, Expr)>)
    ensures r.Some? ==> Size(r.value.0) + Size(r.value.1) < Size(Num(num)) + Size(Bin(a, op, b))
  {
    if op == '+' && a.Num? then Some((Num(num - a.n), b))
    else if op == '+' && b.Num? then Some((a, Num(num - b.n)))
    else if op == '-' && a.Num? then Some((Num(a.n - num), b))
    else if op == '-' && b.Num? then Some((a, Num(num + b.n)))
    else if op == '*' && a.Num? then
      if a.n == 0 then None else Some((Num(FloorDiv(num, a.n)), b))
    else if op == '*' && b.Num? then
      if b.n == 0 then None else Some((Num(FloorDiv(num, b.n)), a))
    else if op == '/' && a.Num? then
      if !fixed then Some((Num(num * a.n), b))
      else if num != 0 && TruncRem(a.n, num) == 0 && TruncDiv(a.n, num) != 0 then
        Some((Num(TruncDiv(a.n, num)), b))
      else None
    else if op == '/' && b.Num? then Some((Num(num * b.n), a))
    else None
  }

  /** When a step is an exact inversion: the multiplications divide evenly,
      a divisor is not zero, and the `(Num l) / r` arm as written, which is
      not an inversion, never is. */
  predicate InvertExact(num: int, a: Expr, op: char, b: Expr, fixed: bool)
  {
    if op == '+' || op == '-' then true
    else if op == '*' && a.Num? then a.n != 0 && a.n * FloorDiv(num, a.n) == num
    else if op == '*' && b.Num? then b.n != 0 && FloorDiv(num, b.n) * b.n == num
    else if op == '/' && a.Num? then fixed
    else if op == '/' && b.Num? then b.n != 0
    else true
  }

  /** An exact step is sound: a solution of the equation one level down
      solves `num == a op b`. */
  lemma InvertSound(num: int, a: Expr, op: char, b: Expr, fixed: bool, x: int)
    requires Invert(num, a, op, b, fixed).Some? && InvertExact(num, a, op, b, fixed)
    requires
      var (l2, r2) := Invert(num, a, op, b, fixed).value;
      Value(l2, x).Some? && Value(l2, x) == Value(r2, x)
    ensures Value(Bin(a, op, b), x) == Some(num)
  {
    if op == '/' && a.Num? {
      var k := TruncDiv(a.n, num);
      assert a.n == num * k;
      TruncDivOfProduct(num, k);
    } else if op == '/' && b.Num? {
      TruncDivOfProduct(num, b.n);
    }
  }

  /** `reduce` solves `lhs == rhs` for the human: a number on the right is
      flipped to the left, a bare human on the right leaves the left as the
      answer, and a number against an operation takes one `Invert` step.
      `None` stands for the source's panics and for its endless recursion on
      two numbers. */
  function ReduceWith(lhs: Expr, rhs: Expr, fixed: bool): Option<Expr>
    decreases Size(lhs) + Size(rhs), if rhs.Num? then 1 else 0
  {
    if rhs.Num? then
      if lhs.Num? then None else ReduceWith(rhs, lhs, fixed)
    else if rhs.Humn? then Some(lhs)
    else if lhs.Num? then
      match Invert(lhs.n, rhs.left, rhs.op, rhs.right, fixed)
      case None => None
      case Some((l2, r2)) => ReduceWith(l2, r2, fixed)
    else None
  }

  /** `reduce` as written. */
  function ReduceAsWritten(lhs: Expr, rhs: Expr): Option<Expr>
  {
    ReduceWith(lhs, rhs, false)
  }

  /** `reduce` with the `(Num l) / r` arm corrected. */
  function Reduce(lhs: Expr, rhs: Expr): Option<Expr>
  {
    ReduceWith(lhs, rhs, true)
  }

  /** Every step `reduce` takes from `lhs == rhs` is exact. */
  predicate Exact(lhs: Expr, rhs: Expr, fixed: bool)
    decreases Size(lhs) + Size(rhs), if rhs.Num? then 1 else 0
  {
    if rhs.Num? then !lhs.Num? && Exact(rhs, lhs, fixed)
    else if rhs.Humn? then true
    else if lhs.Num? then
      InvertExact(lhs.n, rhs.left, rhs.op, rhs.right, fixed) &&
      match Invert(lhs.n, rhs.left, rhs.op, rhs.right, fixed)
      case None => false
      case Some((l2, r2)) => Exact(l2, r2, fixed)
    else false
  }

  /** When `reduce` yields a number and every step was exact, the human
      shouting that number makes both sides equal. */
  lemma {:induction false} ReduceSound(lhs: Expr, rhs: Expr, fixed: bool, x: int)
    requires ReduceWith(lhs, rhs, fixed) == Some(Num(x))
    requires Exact(lhs, rhs, fixed)
    ensures Value(lhs, x).Some? && Value(lhs, x) == Value(rhs, x)
    decreases Size(lhs) + Size(rhs), if rhs.Num? then 1 else 0
  {
    if rhs.Num? {
      ReduceSound(rhs, lhs, fixed, x);
    } else if rhs.Humn? {
    } else {
      var (l2, r2) := Invert(lhs.n, rhs.left, rhs.op, rhs.right, fixed).value;
      ReduceSound(l2, r2, fixed, x);
      InvertSound(lhs.n, rhs.left, rhs.op, rhs.right, fixed, x);
    }
  }

  /** As written, `reduce` solves `2 == 8 / humn` with 16, where 8 / 16 is 0. */
  lemma ReduceAsWrittenWrongDivision()
    ensures ReduceAsWritten(Num(2), Bin(Num(8), '/', Humn)) == Some(Num(16))
    ensures Value(Bin(Num(8), '/', Humn), 16) == Some(0)
  {
    assert TruncDiv(8, 16) == 0;
  }

  /** Corrected, the same equation is solved with 4, and 8 / 4 is 2. */
  lemma ReduceCorrectedDivision()
    ensures Reduce(Num(2), Bin(Num(8), '/', Humn)) == Some(Num(4))
    ensures Value(Bin(Num(8), '/', Humn), 4) == Some(2)
  {
    assert TruncRem(8, 2) == 0 && TruncDiv(8, 2) == 4;
    assert TruncDiv(8, 4) == 2;
  }

  /** No rule names the root as an operand. */
  predicate RootIsTop(rules: map<string, Rule>)
  {
    forall m | m in rules && rules[m].MathOp? :: rules[m].lhs != "root" && rules[m].rhs != "root"
  }

  /** Below the root, the tree `solve_for_humn` builds has, for every number
      the human may shout, the value `yell` gives once the human's rule is
      replaced by that number. */
  lemma {:induction false} SolveForHumnValue(rules: map<string, Rule>, rank: map<string, nat>, m: string, fixed: bool, h: int)
    requires Ranked(rules, rank) && RootIsTop(rules) && m != "root"
    requires SolveForHumn(rules, rank, m, fixed).Some?
    ensures Ranked(rules["humn" := Number(h)], rank)
    ensures Value(SolveForHumn(rules, rank, m, fixed).value, h) == Yell(rules["humn" := Number(h)], rank, m)
    decreases Rank(rank, m)
  {
    var rules' := rules["humn" := Number(h)];
    assert Ranked(rules', rank);
    if m != "humn" {
      match rules[m]
      case Number(_) =>
      case MathOp(l, op, r) =>
        SolveForHumnValue(rules, rank, l, fixed, h);
        SolveForHumnValue(rules, rank, r, fixed, h);
    }
  }

  /** Part 2 with the division arm corrected: when the root adds and the
      solution is a number `x` found by exact steps, the root's two operands
      yell the same number once the human shouts `x`. */
  lemma RootEquationSolved(rules: map<string, Rule>, rank: map<string, nat>, x: int)
    requires Ranked(rules, rank) && RootIsTop(rules)
    requires "root" in rules && rules["root"].MathOp? && rules["root"].op == '+'
    requires SolveForHumn(rules, rank, "root", true) == Some(Num(x))
    requires
      var l, r := SolveForHumn(rules, rank, rules["root"].lhs, true), SolveForHumn(rules, rank, rules["root"].rhs, true);
      l.Some? && r.Some? && Eval(l.value).Some? && Eval(r.value).Some? &&
      Exact(Eval(l.value).value, Eval(r.value).value, true)
    ensures Ranked(rules["humn" := Number(x)], rank)
    ensures Yell(rules["humn" := Number(x)], rank, rules["root"].lhs).Some?
    ensures Yell(rules["humn" := Number(x)], rank, rules["root"].lhs) ==
            Yell(rules["humn" := Number(x)], rank, rules["root"].rhs)
  {
    var rl, rr := rules["root"].lhs, rules["root"].rhs;
    var el, er := SolveForHumn(rules, rank, rl, true).value, SolveForHumn(rules, rank, rr, true).value;
    ReduceSound(Eval(el).value, Eval(er).value, true, x);
    EvalKeepsValue(el, x);
    EvalKeepsValue(er, x);
    SolveForHumnValue(rules, rank, rl, true, x);
    SolveForHumnValue(rules, rank, rr, true, x);
  }

  /** `solve`: part 1 is what the root yells; part 2 is the number the
      solved root equation yields (`None` where the source panics).
      `Solve(rules, rank, false)` is the source as written;
      `Solve(rules, rank, true)` uses the corrected division arm. */
  function Solve(rules: map<string, Rule>, rank: map<string, nat>, fixed: bool): (r: (Option<int>, Option<int>))
    requires Ranked(rules, rank)
    ensures r.0 == Yell(rules, rank, "root")
    ensures r.1.Some? <==> SolveForHumn(rules, rank, "root", fixed).Some? && SolveForHumn(rules, rank, "root", fixed).value.Num?
    ensures r.1.Some? ==> SolveForHumn(rules, rank, "root", fixed) == Some(Num(r.1.value))
  {
    var p1 := Yell(rules, rank, "root");
    var root := SolveForHumn(rules, rank, "root", fixed);
    var p2 := if root.Some? && root.value.Num? then Some(root.value.n) else None;
    (p1, p2)
  }

  /** The monkeys `root: a + b`, `a: c / humn`, `c: 8`, `b: 2`. */
  function DivisionRules(): map<string, Rule>
  {
    map["root" := MathOp("a", '+', "b"), "a" := MathOp("c", '/', "humn"),
        "c" := Number(8), "b" := Number(2), "humn" := Number(5)]
  }

  /** The ranking that puts `root` above `a` above the numbers and the
      human. */
  function DivisionRank(): map<string, nat>
  {
    map["root" := 2, "a" := 1]
  }

  /** Below the root of `DivisionRules`, `a` builds `8 / humn` and `b` the
      number 2, whichever arm is used. */
  lemma DivisionOperands(fixed: bool)
    ensures Ranked(DivisionRules(), DivisionRank())
    ensures SolveForHumn(DivisionRules(), DivisionRank(), "a", fixed) == Some(Bin(Num(8), '/', Humn))
    ensures SolveForHumn(DivisionRules(), DivisionRank(), "b", fixed) == Some(Num(2))
  {
    var rules, rank := DivisionRules(), DivisionRank();
    assert Ranked(rules, rank);
    assert SolveForHumn(rules, rank, "c", fixed) == Some(Num(8));
  }

  /** On `DivisionRules`, part 2 as written is 16, though 8 / 16 = 0 is not
      2; corrected it is 4, and 8 / 4 = 2. */
  lemma SolveDivisionExample()
    ensures Ranked(DivisionRules(), DivisionRank())
    ensures Solve(DivisionRules(), DivisionRank(), false).1 == Some(16) && TruncDiv(8, 16) == 0
    ensures Solve(DivisionRules(), DivisionRank(), true).1 == Some(4) && TruncDiv(8, 4) == 2
  {
    var rules, rank := DivisionRules(), DivisionRank();
    var e := Bin(Num(8), '/', Humn);
    DivisionOperands(false);
    DivisionOperands(true);
    assert Eval(e) == Some(e) && Eval(Num(2)) == Some(Num(2));
    assert ReduceWith(e, Num(2), false) == Some(Num(16));
    assert ReduceWith(e, Num(2), true) == Some(Num(4));
    assert rules["root"] == MathOp("a", '+', "b");
  }
}
