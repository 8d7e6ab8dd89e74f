/** Calorie counting: each elf's group of lines is summed, and the three
    largest sums are kept in a running top three. */
module Day01 {
  import opened Common

  /** A group's sum: every non-empty line read as an integer; `None` where
      a line does not parse, where the source panics. */
  function GroupSum(lines: seq<string>): (r: Option<int>)
  {
    if lines == [] then Some(0)
    else
      var last := lines[|lines| - 1];
      var rest := GroupSum(lines[..|lines| - 1]);
      if last == [] then rest
      else if ParseInt(last).None? || rest.None? then None
      else Some(rest.value + ParseInt(last).value)
  }

  /** Summing a group split in two gives the sum of the two parts. */
  lemma {:induction false} GroupSumAppend(a: seq<string>, b: seq<string>)
    requires GroupSum(a).Some? && GroupSum(b).Some?
    ensures GroupSum(a + b) == Some(GroupSum(a).value + GroupSum(b).value)
  {
    if b != [] {
      var b' := b[..|b| - 1];
      assert (a + b)[..|a + b| - 1] == a + b';
      assert GroupSum(b').Some?;
      GroupSumAppend(a, b');
    } else {
      assert a + b == a;
    }
  }

  /** A group of one line sums to that line's value, 0 for an empty line,
      and fails on a line that does not parse; with `GroupSumAppend` this
      gives the effect of each further line. */
  lemma GroupSumOfLine(line: string)
    ensures line == [] ==> GroupSum([line]) == Some(0)
    ensures line != [] ==> GroupSum([line]) == ParseInt(line)
  {
    assert [line][..0] == [];
  }

  /** `x` put into a list sorted from largest to smallest, in front of the
      first element it is at least as large as. */
  function InsertDesc(x: int, s: seq<int>): (r: seq<int>)
    ensures |r| == |s| + 1
  {
    if s == [] || x >= s[0] then [x] + s
    else [s[0]] + InsertDesc(x, s[1..])
  }

  lemma {:induction false} InsertDescPermutation(x: int, s: seq<int>)
    ensures multiset(InsertDesc(x, s)) == multiset(s) + multiset{x}
  {
    if s != [] && x < s[0] {
      assert s == [s[0]] + s[1..];
      InsertDescPermutation(x, s[1..]);
    }
  }

  predicate SortedDesc(s: seq<int>)
  {
    forall i, j | 0 <= i < j < |s| :: s[i] >= s[j]
  }

  /** The values sorted from largest to smallest: a reference ordering the
      top three is checked against. */
  function SortDesc(s: seq<int>): (r: seq<int>)
    ensures |r| == |s|
  {
    if s == [] then []
    else InsertDesc(s[|s| - 1], SortDesc(s[..|s| - 1]))
  }

  lemma {:induction false} SortDescPermutation(s: seq<int>)
    ensures multiset(SortDesc(s)) == multiset(s)
  {
    if s != [] {
      assert s == s[..|s| - 1] + [s[|s| - 1]];
      SortDescPermutation(s[..|s| - 1]);
      InsertDescPermutation(s[|s| - 1], SortDesc(s[..|s| - 1]));
    }
  }

  lemma {:induction false} InsertDescSorted(x: int, s: seq<int>)
    requires SortedDesc(s)
    ensures SortedDesc(InsertDesc(x, s))
  {
    if s != [] && x < s[0] {
      InsertDescSorted(x, s[1..]);
      InsertDescPermutation(x, s[1..]);
      var t := InsertDesc(x, s[1..]);
      assert t[0] in multiset(t);
      assert t[0] == x || t[0] in multiset(s[1..]);
    }
  }

  lemma {:induction false} SortDescSorted(s: seq<int>)
    ensures SortedDesc(SortDesc(s))
  {
    if s != [] {
      SortDescSorted(s[..|s| - 1]);
      InsertDescSorted(s[|s| - 1], SortDesc(s[..|s| - 1]));
    }
  }

  /** The first `n` of a list after inserting `x` depend only on the first
      `n` before. */
  lemma {:induction false} InsertDescPrefix(x: int, s: seq<int>, n: nat)
    requires 1 <= n <= |s|
    ensures InsertDesc(x, s)[..n] == InsertDesc(x, s[..n])[..n]
  {
    var t := s[..n];
    assert t[0] == s[0];
    if x >= s[0] {
      assert InsertDesc(x, s) == [x] + s;
      assert InsertDesc(x, t) == [x] + t;
      assert ([x] + s)[..n] == [x] + s[..n - 1];
      assert ([x] + t)[..n] == [x] + t[..n - 1];
    } else if n == 1 {
      assert InsertDesc(x, s)[..n] == [s[0]];
      assert InsertDesc(x, t)[..n] == [s[0]];
    } else {
      assert t[1..] == s[1..][..n - 1];
      InsertDescPrefix(x, s[1..], n - 1);
      var u, v := InsertDesc(x, s[1..]), InsertDesc(x, t[1..]);
      assert InsertDesc(x, s)[..n] == [s[0]] + u[..n - 1];
      assert InsertDesc(x, t)[..n] == [s[0]] + v[..n - 1];
    }
  }

  /** The three largest of the sums, with zeros in place of missing ones. */
  function TopThree(sums: seq<int>): (r: seq<int>)
    ensures |r| == 3
  {
    SortDesc([0, 0, 0] + sums)[..3]
  }

  /** The top three are in order and at least zero (the zero padding stands
      in for negative sums, as the source's counters start at 0), no sum is
      above the largest, and every value among them is one of the sums or
      padding. */
  lemma TopThreeFacts(sums: seq<int>)
    ensures var t := TopThree(sums);
      t[0] >= t[1] >= t[2] >= 0 &&
      (forall i | 0 <= i < |sums| :: sums[i] <= t[0]) &&
      (forall k | 0 <= k < 3 :: t[k] == 0 || t[k] in sums)
  {
    var all := [0, 0, 0] + sums;
    var r := SortDesc(all);
    SortDescSorted(all);
    SortDescPermutation(all);
    forall k | 0 <= k < 3
      ensures r[k] == 0 || r[k] in sums
    {
      assert r[k] in multiset(r);
      PaddedMember(sums, r[k]);
    }
    assert all == [0, 0, 0] + sums;
    assert multiset(all)[0] >= 3;
    ThirdAtLeast(r, 0);
    forall i | 0 <= i < |sums|
      ensures sums[i] <= r[0]
    {
      assert all[i + 3] == sums[i];
      assert sums[i] in multiset(all);
      var m :| 0 <= m < |r| && r[m] == sums[i];
    }
  }

  /** A descending list holding `v` at least three times has `v` or more
      in third place. */
  lemma ThirdAtLeast(r: seq<int>, v: int)
    requires |r| >= 3 && SortedDesc(r) && multiset(r)[v] >= 3
    ensures r[2] >= v
  {
    assert r == r[..2] + r[2..];
    assert r[..2] == [r[0], r[1]];
    assert multiset(r[..2])[v] <= 2;
    assert v in multiset(r[2..]);
    var m :| 0 <= m < |r[2..]| && r[2..][m] == v;
    assert r[m + 2] == v;
  }

  /** A value of the padded list is padding or one of the sums. */
  lemma PaddedMember(sums: seq<int>, v: int)
    requires v in [0, 0, 0] + sums
    ensures v == 0 || v in sums
  {
    var all := [0, 0, 0] + sums;
    var m :| 0 <= m < |all| && all[m] == v;
    if m >= 3 {
      assert all[m] == sums[m - 3];
    }
  }

  lemma TopThreeOfNone()
    ensures TopThree([]) == [0, 0, 0]
  {
    assert [0, 0, 0] + [] == [0, 0, 0];
    assert [0, 0, 0][..2] == [0, 0] && [0, 0][..1] == [0] && [0][..0] == [];
  }

  /** The top three are kept in order, and one more sum updates them by
      insertion into the first three alone. */
  lemma TopThreeStep(sums: seq<int>, x: int)
    ensures var t := TopThree(sums); t[0] >= t[1] >= t[2]
    ensures TopThree(sums + [x]) == InsertDesc(x, TopThree(sums))[..3]
  {
    var pre := [0, 0, 0] + sums;
    assert [0, 0, 0] + (sums + [x]) == pre + [x];
    assert (pre + [x])[..|pre|] == pre;
    InsertDescPrefix(x, SortDesc(pre), 3);
    SortDescSorted(pre);
  }

  /** Every group's lines parse. */
  predicate AllParse(groups: seq<seq<string>>)
  {
    forall g | 0 <= g < |groups| :: GroupSum(groups[g]).Some?
  }

  /** The sums of all groups, when every group parses. */
  function Sums(groups: seq<seq<string>>): (r: seq<int>)
    requires AllParse(groups)
    ensures |r| == |groups|
    ensures forall g | 0 <= g < |groups| :: r[g] == GroupSum(groups[g]).value
  {
    if groups == [] then []
    else
      assert AllParse(groups[..|groups| - 1]);
      Sums(groups[..|groups| - 1]) + [GroupSum(groups[|groups| - 1]).value]
  }

  /** The running top three: a sum above `a` pushes `a` and `b` down, a sum
      above only `b` pushes `b` down, and a sum above only `c` replaces it. */
  method Update(a: int, b: int, c: int, sum: int) returns (a': int, b': int, c': int)
    requires a >= b >= c
    ensures [a', b', c'] == InsertDesc(sum, [a, b, c])[..3]
  {
    a', b', c' := a, b, c;
    assert [a, b, c][1..] == [b, c] && [b, c][1..] == [c] && [c][1..] == [];
    if sum >= a {
      assert InsertDesc(sum, [a, b, c]) == [sum, a, b, c];
    } else if sum >= b {
      assert InsertDesc(sum, [b, c]) == [sum, b, c];
      assert InsertDesc(sum, [a, b, c]) == [a, sum, b, c];
    } else if sum >= c {
      assert InsertDesc(sum, [c]) == [sum, c];
      assert InsertDesc(sum, [b, c]) == [b, sum, c];
      assert InsertDesc(sum, [a, b, c]) == [a, b, sum, c];
    } else {
      assert InsertDesc(sum, []) == [sum];
      assert InsertDesc(sum, [c]) == [c, sum];
      assert InsertDesc(sum, [b, c]) == [b, c, sum];
      assert InsertDesc(sum, [a, b, c]) == [a, b, c, sum];
    }
    if sum > a {
      c' := b;
      b' := a;
      a' := sum;
    } else if sum > b {
      c' := b;
      b' := sum;
    } else if sum > c {
      c' := sum;
    }
  }

  /** The loop of `solve`: the top three after every group, or `false` at the
      first group whose lines do not parse. */
  method RunningTopThree(groups: seq<seq<string>>) returns (ok: bool, a: int, b: int, c: int)
    ensures ok <==> AllParse(groups)
    ensures ok ==> [a, b, c] == TopThree(Sums(groups))
  {
    a, b, c := 0, 0, 0;
    TopThreeOfNone();
    assert groups[..0] == [];
    for g := 0 to |groups|
      invariant AllParse(groups[..g])
      invariant [a, b, c] == TopThree(Sums(groups[..g]))
    {
      var sum := GroupSum(groups[g]);
      if sum.None? {
        assert !AllParse(groups) by {
          assert GroupSum(groups[g]).None?;
        }
        return false, a, b, c;
      }
      var pre, next := groups[..g], groups[..g + 1];
      assert next[..g] == pre && next[g] == groups[g];
      assert AllParse(next);
      assert Sums(next) == Sums(pre) + [sum.value];
      TopThreeStep(Sums(pre), sum.value);
      a, b, c := Update(a, b, c, sum.value);
    }
    assert groups[..|groups|] == groups;
    ok := true;
  }

  /** `solve`: part 1 is the largest group sum, part 2 the sum of the three
      largest; `None` when a line does not parse. */
  method Solve(groups: seq<seq<string>>) returns (r: Option<(int, int)>)
    ensures r.None? <==> exists g | 0 <= g < |groups| :: GroupSum(groups[g]).None?
    ensures r.Some? ==>
      var t := TopThree(Sums(groups));
      r.value == (t[0], t[0] + t[1] + t[2])
    ensures r.Some? ==> forall g | 0 <= g < |groups| :: GroupSum(groups[g]).value <= r.value.0
  {
    var ok, a, b, c := RunningTopThree(groups);
    if !ok {
      return None;
    }
    LargestIsFirst(groups);
    r := Some((a, a + b + c));
  }

  /** No group's sum exceeds the first of the top three. */
  lemma LargestIsFirst(groups: seq<seq<string>>)
    requires AllParse(groups)
    ensures forall g | 0 <= g < |groups| :: GroupSum(groups[g]).value <= TopThree(Sums(groups))[0]
  {
    var sums := Sums(groups);
    TopThreeFacts(sums);
    forall g | 0 <= g < |groups|
      ensures GroupSum(groups[g]).value <= TopThree(sums)[0]
    {
      assert sums[g] == GroupSum(groups[g]).value;
    }
  }
}
