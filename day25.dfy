/** SNAFU numbers: balanced base five with the digits `=`, `-`, `0`, `1`
    and `2` standing for -2 to 2, read by a fold from the least significant
    end and written by a loop that repeatedly divides by five. */
module Day25 {
  import opened Common

  predicate IsSnafuChar(c: char)
  {
    c == '=' || c == '-' || c == '0' || c == '1' || c == '2'
  }

  predicate IsSnafu(s: string)
  {
    forall i | 0 <= i < |s| :: IsSnafuChar(s[i])
  }

  /** The value of one digit. */
  function DigitOf(c: char): (d: int)
    requires IsSnafuChar(c)
    ensures -2 <= d <= 2
    ensures d == 0 <==> c == '0'
  {
    match c
    case '2' => 2
    case '1' => 1
    case '0' => 0
    case '-' => -1
    case '=' => -2
  }

  /** `snafu_char`: the digit for `index`, which is the digit's value plus 2. */
  function SnafuChar(index: int): (c: char)
    requires 0 <= index <= 4
    ensures IsSnafuChar(c) && DigitOf(c) == index - 2
  {
    if index == 0 then '='
    else if index == 1 then '-'
    else if index == 2 then '0'
    else if index == 3 then '1'
    else '2'
  }

  function Pow5(k: nat): (p: nat)
    ensures p >= 1
  {
    if k == 0 then 1 else 5 * Pow5(k - 1)
  }

  /** The number a digit string denotes, most significant digit first. */
  function Value(s: string): int
    requires IsSnafu(s)
  {
    if s == [] then 0 else DigitOf(s[0]) * Pow5(|s| - 1) + Value(s[1..])
  }

  /** `snafu`: the fold over the reversed characters that carries the weight
      `w` of the next digit and the running sum. */
  function SnafuFold(s: string, w: int, sum: int): int
    requires IsSnafu(s)
  {
    if s == [] then sum
    else SnafuFold(s[..|s| - 1], w * 5, sum + DigitOf(s[|s| - 1]) * w)
  }

  /** `snafu`: the fold from weight 1 and sum 0, which is the balanced
      base-five value of the digits. */
  function Snafu(s: string): (r: int)
    requires IsSnafu(s)
    ensures r == Value(s)
  {
    SnafuFoldValue(s, 1, 0);
    SnafuFold(s, 1, 0)
  }

  /** Appending a digit multiplies the value by five and adds the digit. */
  lemma {:induction false} ValueSnoc(s: string, c: char)
    requires IsSnafu(s) && IsSnafuChar(c)
    ensures IsSnafu(s + [c])
    ensures Value(s + [c]) == 5 * Value(s) + DigitOf(c)
  {
    var t := s + [c];
    assert IsSnafu(t);
    if s != [] {
      assert t[1..] == s[1..] + [c];
      ValueSnoc(s[1..], c);
      calc {
        Value(t);
        DigitOf(s[0]) * Pow5(|s|) + Value(s[1..] + [c]);
        DigitOf(s[0]) * (5 * Pow5(|s| - 1)) + 5 * Value(s[1..]) + DigitOf(c);
        { MulAssoc(DigitOf(s[0]), 5, Pow5(|s| - 1)); }
        5 * (DigitOf(s[0]) * Pow5(|s| - 1) + Value(s[1..])) + DigitOf(c);
      }
    }
  }

  lemma StepArith(p: int, n0: int, next: int, d: int)
    requires n0 == 5 * next + d
    ensures (5 * p) * next + d * p == p * n0
  {
    assert p * n0 == p * (5 * next) + p * d;
  }

  lemma MulAssoc(a: int, b: int, c: int)
    ensures a * (b * c) == b * (a * c)
  {
  }

  /** The fold reads the digits with the weights of balanced base five. */
  lemma {:induction false} SnafuFoldValue(s: string, w: int, sum: int)
    requires IsSnafu(s)
    ensures SnafuFold(s, w, sum) == sum + w * Value(s)
  {
    if s != [] {
      var p, c := s[..|s| - 1], s[|s| - 1];
      assert s == p + [c];
      var d := DigitOf(c);
      SnafuFoldValue(p, w * 5, sum + d * w);
      ValueSnoc(p, c);
      var v := Value(p);
      assert SnafuFold(s, w, sum) == sum + d * w + (w * 5) * v;
      assert Value(s) == 5 * v + d;
      WeightStep(w, v, d);
    }
  }

  lemma WeightStep(w: int, v: int, d: int)
    ensures d * w + (w * 5) * v == w * (5 * v + d)
  {
  }

  lemma SnafuIsValue(s: string)
    requires IsSnafu(s)
    ensures Snafu(s) == Value(s)
  {
    SnafuFoldValue(s, 1, 0);
  }

  /** `k` digits of magnitude at most 2 reach at most `(5^k - 1) / 2`. */
  lemma {:induction false} ValueBound(s: string)
    requires IsSnafu(s)
    ensures 2 * Abs(Value(s)) <= Pow5(|s|) - 1
  {
    if s != [] {
      ValueBound(s[1..]);
      var d, p := DigitOf(s[0]), Pow5(|s| - 1);
      assert -2 * p <= d * p <= 2 * p;
    }
  }

  /** No leading zero digit: the form `rev_snafu` produces. */
  predicate Canonical(s: string)
  {
    IsSnafu(s) && (s == [] || s[0] != '0')
  }

  /** A canonical non-empty string has a magnitude above what any shorter
      string can denote. */
  lemma LeadingDigitDominates(s: string)
    requires Canonical(s) && s != []
    ensures 2 * Abs(Value(s)) > Pow5(|s| - 1) - 1
  {
    ValueBound(s[1..]);
    var d, p := DigitOf(s[0]), Pow5(|s| - 1);
    assert d * p >= p || d * p <= -p;
  }

  /** With tails too small to make up a whole unit of the leading weight,
      equal sums have equal leading digits. */
  lemma LeadingDigitsEqual(d1: int, d2: int, p: int, v1: int, v2: int)
    requires p >= 1 && 2 * Abs(v1) <= p - 1 && 2 * Abs(v2) <= p - 1
    requires d1 * p + v1 == d2 * p + v2
    ensures d1 == d2
  {
    if d1 != d2 {
      MulSub(p, d1, d2);
      MulAbsAtLeast(p, d1 - d2);
    }
  }

  /** Two digit strings of equal length denote the same number only when they
      are equal. */
  lemma {:induction false} SameLengthUnique(s1: string, s2: string)
    requires IsSnafu(s1) && IsSnafu(s2) && |s1| == |s2|
    requires Value(s1) == Value(s2)
    ensures s1 == s2
  {
    if s1 != [] {
      var d1, d2, p := DigitOf(s1[0]), DigitOf(s2[0]), Pow5(|s1| - 1);
      ValueBound(s1[1..]);
      ValueBound(s2[1..]);
      LeadingDigitsEqual(d1, d2, p, Value(s1[1..]), Value(s2[1..]));
      assert s1[0] == s2[0];
      SameLengthUnique(s1[1..], s2[1..]);
      assert s1 == [s1[0]] + s1[1..];
      assert s2 == [s2[0]] + s2[1..];
    }
  }

  /** Canonical representations are unique, so the string `rev_snafu`
      returns is the only canonical one for its number. */
  lemma CanonicalUnique(s1: string, s2: string)
    requires Canonical(s1) && Canonical(s2) && Value(s1) == Value(s2)
    ensures s1 == s2
  {
    if |s1| < |s2| {
      LeadingDigitDominates(s2);
      ValueBound(s1);
      Pow5Monotone(|s1|, |s2| - 1);
    } else if |s2| < |s1| {
      LeadingDigitDominates(s1);
      ValueBound(s2);
      Pow5Monotone(|s2|, |s1| - 1);
    } else {
      SameLengthUnique(s1, s2);
    }
  }

  lemma {:induction false} Pow5Monotone(i: nat, j: nat)
    requires i <= j
    ensures Pow5(i) <= Pow5(j)
  {
    if i < j {
      Pow5Monotone(i, j - 1);
    }
  }

  function Reverse(s: string): (r: string)
    ensures |r| == |s|
    ensures forall i | 0 <= i < |s| :: r[i] == s[|s| - 1 - i]
  {
    if s == [] then [] else [s[|s| - 1]] + Reverse(s[..|s| - 1])
  }

  /** `rev_snafu`: digits are pushed least significant first and the result
      is their reversal. For a negative number the truncating remainder can
      be negative, where the source reaches `unreachable!`: then the result is
      `None`. A result, when there is one, denotes `n` and has no leading
      zero; every non-negative `n` has one. */
  method RevSnafu(n: int) returns (r: Option<string>)
    ensures r.Some? ==> Canonical(r.value) && Value(r.value) == n
    ensures n >= 0 ==> r.Some?
    ensures n == 0 ==> r == Some([])
  {
    var s: string := [];
    var n0 := n;
    while true
      invariant IsSnafu(s)
      invariant n == Pow5(|s|) * n0 + Value(Reverse(s))
      invariant n >= 0 ==> n0 >= 0
      invariant n0 == 0 && s != [] ==> s[|s| - 1] != '0'
      invariant n == 0 ==> s == []
      decreases Abs(n0)
    {
      if n0 == 0 {
        return Some(Reverse(s));
      }
      var index := TruncRem(n0 + 2, 5);
      if index < 0 {
        return None;
      }
      var c := SnafuChar(index);
      var next := if index < 2 then FloorDiv(n0 + 5, 5) else FloorDiv(n0, 5);
      DivideStep(n0);
      PushDigit(s, c, n0, next);
      n0 := next;
      s := s + [c];
    }
  }

  /** The arithmetic of one step of `rev_snafu`: the digit and the rest
      rebuild the number, the rest is smaller, keeps the sign of a
      non-negative number, and is zero only after a non-zero digit. */
  lemma DivideStep(n0: int)
    requires n0 != 0 && TruncRem(n0 + 2, 5) >= 0
    ensures var index := TruncRem(n0 + 2, 5);
      var next := if index < 2 then FloorDiv(n0 + 5, 5) else FloorDiv(n0, 5);
      0 <= index <= 4 && n0 == 5 * next + (index - 2) && Abs(next) < Abs(n0) &&
      (n0 >= 0 ==> next >= 0) && (next == 0 ==> index != 2)
  {
  }

  /** One step of `rev_snafu`: pushing the digit `c` of `n0 == 5 * next + c`
      keeps the value of what is written plus the weighted rest. */
  lemma PushDigit(s: string, c: char, n0: int, next: int)
    requires IsSnafu(s) && IsSnafuChar(c) && n0 == 5 * next + DigitOf(c)
    ensures IsSnafu(s + [c])
    ensures Pow5(|s| + 1) * next + Value(Reverse(s + [c])) == Pow5(|s|) * n0 + Value(Reverse(s))
  {
    ValueOfReversedSnoc(s, c);
    StepArith(Pow5(|s|), n0, next, DigitOf(c));
  }

  /** The digit pushed last becomes the most significant one. */
  lemma ValueOfReversedSnoc(s: string, c: char)
    requires IsSnafu(s) && IsSnafuChar(c)
    ensures IsSnafu(s + [c])
    ensures Value(Reverse(s + [c])) == DigitOf(c) * Pow5(|s|) + Value(Reverse(s))
  {
    var t := s + [c];
    assert IsSnafu(t);
    var rs, rt := Reverse(s), Reverse(t);
    assert rt == [c] + rs;
    assert rt[1..] == rs;
  }

  /** The sum of all lines, each read by `snafu`; an empty line adds 0. */
  function Total(lines: seq<string>): int
    requires forall i | 0 <= i < |lines| :: IsSnafu(lines[i])
  {
    if lines == [] then 0 else Total(lines[..|lines| - 1]) + Snafu(lines[|lines| - 1])
  }

  /** `solve`: the total written back in SNAFU. */
  method Solve(lines: seq<string>) returns (r: Option<string>)
    requires forall i | 0 <= i < |lines| :: IsSnafu(lines[i])
    ensures r.Some? ==> Canonical(r.value) && Value(r.value) == Total(lines)
    ensures Total(lines) >= 0 ==> r.Some?
  {
    r := RevSnafu(Total(lines));
  }
}
