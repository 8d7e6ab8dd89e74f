/** Camp cleanup: pairs of inclusive section ranges, counted when one range
    holds the other and when the two overlap. */
module Day04 {
  /** An inclusive range `start..=end`; it is empty when `start > end`. */
  datatype Range = Range(start: int, end: int)

  predicate Contains(r: Range, x: int)
  {
    r.start <= x <= r.end
  }

  /** `contains_either`: one range holds both endpoints of the other. */
  predicate ContainsEither(a: Range, b: Range)
  {
    (Contains(a, b.start) && Contains(a, b.end)) || (Contains(b, a.start) && Contains(b, a.end))
  }

  /** `overlaps`, as written: the end of one range lies inside the other. */
  predicate Overlaps(a: Range, b: Range)
  {
    (a.end >= b.start && a.end <= b.end) || (b.end >= a.start && b.end <= a.end)
  }

  predicate NonEmpty(r: Range)
  {
    r.start <= r.end
  }

  function Max(x: int, y: int): int { if x >= y then x else y }
  function Min(x: int, y: int): int { if x <= y then x else y }

  lemma ContainsEitherSymmetric(a: Range, b: Range)
    ensures ContainsEither(a, b) <==> ContainsEither(b, a)
  {
  }

  /** For non-empty ranges, one holds the other exactly when every number of
      the other lies in it. */
  lemma ContainsEitherMeansSubset(a: Range, b: Range)
    requires NonEmpty(a) && NonEmpty(b)
    ensures ContainsEither(a, b) <==>
      (forall x :: Contains(b, x) ==> Contains(a, x)) || (forall x :: Contains(a, x) ==> Contains(b, x))
  {
    if !ContainsEither(a, b) {
      if !(Contains(a, b.start) && Contains(a, b.end)) {
        assert Contains(b, b.start) && Contains(b, b.end);
      }
      if !(Contains(b, a.start) && Contains(b, a.end)) {
        assert Contains(a, a.start) && Contains(a, a.end);
      }
    }
  }

  /** `overlaps` is symmetric, though its two halves are not written alike. */
  lemma OverlapsSymmetric(a: Range, b: Range)
    ensures Overlaps(a, b) <==> Overlaps(b, a)
  {
  }

  /** For non-empty ranges, they overlap exactly when the larger start is at
      most the smaller end, that is when some number lies in both. */
  lemma OverlapsMeansCommonPoint(a: Range, b: Range)
    requires NonEmpty(a) && NonEmpty(b)
    ensures Overlaps(a, b) <==> Max(a.start, b.start) <= Min(a.end, b.end)
    ensures Overlaps(a, b) <==> exists x :: Contains(a, x) && Contains(b, x)
  {
    if Max(a.start, b.start) <= Min(a.end, b.end) {
      assert Contains(a, Max(a.start, b.start)) && Contains(b, Max(a.start, b.start));
    }
  }

  /** For non-empty ranges, holding implies overlapping. */
  lemma ContainsEitherOverlaps(a: Range, b: Range)
    requires NonEmpty(a) && NonEmpty(b)
    ensures ContainsEither(a, b) ==> Overlaps(a, b)
  {
  }

  /** The number of pairs that pass each test. */
  function CountContaining(pairs: seq<(Range, Range)>): (n: nat)
    ensures n <= |pairs|
  {
    if pairs == [] then 0
    else
      var (a, b) := pairs[|pairs| - 1];
      CountContaining(pairs[..|pairs| - 1]) + if ContainsEither(a, b) then 1 else 0
  }

  function CountOverlapping(pairs: seq<(Range, Range)>): (n: nat)
    ensures n <= |pairs|
  {
    if pairs == [] then 0
    else
      var (a, b) := pairs[|pairs| - 1];
      CountOverlapping(pairs[..|pairs| - 1]) + if Overlaps(a, b) then 1 else 0
  }

  /** With non-empty ranges, part 1 never exceeds part 2. */
  lemma {:induction false} ContainingAtMostOverlapping(pairs: seq<(Range, Range)>)
    requires forall i | 0 <= i < |pairs| :: NonEmpty(pairs[i].0) && NonEmpty(pairs[i].1)
    ensures CountContaining(pairs) <= CountOverlapping(pairs)
  {
    if pairs != [] {
      var (a, b) := pairs[|pairs| - 1];
      ContainsEitherOverlaps(a, b);
      ContainingAtMostOverlapping(pairs[..|pairs| - 1]);
    }
  }

  /** `solve`: each line adds at most one to each counter. */
  method Solve(pairs: seq<(Range, Range)>) returns (p1: nat, p2: nat)
    ensures p1 == CountContaining(pairs) && p2 == CountOverlapping(pairs)
  {
    p1, p2 := 0, 0;
    for i := 0 to |pairs|
      invariant p1 == CountContaining(pairs[..i]) && p2 == CountOverlapping(pairs[..i])
    {
      assert pairs[..i + 1][..i] == pairs[..i];
      var (a, b) := pairs[i];
      if ContainsEither(a, b) {
        p1 := p1 + 1;
      }
      if Overlaps(a, b) {
        p2 := p2 + 1;
      }
    }
    assert pairs[..|pairs|] == pairs;
  }
}
