/** No space left on device: a terminal session of `cd`, `ls`, `dir` and file
    lines is replayed to record, per directory, its subdirectories and the
    sizes of its own files; the sizes of subdirectories are then added into
    their parents by a recursive walk from the root. */
module Day07 {
  import opened Common

  /** A directory as the components of its path; the root is `[]`. */
  type Path = seq<string>

  /** One terminal line, after splitting on spaces. */
  datatype Cmd = CdRoot | CdUp | Cd(dir: string) | Ls | Dir(name: string) | File(size: int)

  /** The match on a line's words, arm by arm; `None` where it panics: a line
      of another shape, or a two-word line whose first word is not a number. */
  function ParseLine(words: seq<string>): (r: Option<Cmd>)
    ensures r.Some? && r.value.File? ==> |words| == 2 && ParseInt(words[0]) == Some(r.value.size)
    ensures r.Some? && (r.value.Cd? || r.value.CdUp? || r.value.CdRoot?) ==> |words| == 3 && words[..2] == ["$", "cd"]
    ensures |words| != 2 && |words| != 3 ==> r.None?
  {
    if |words| == 3 && words[0] == "$" && words[1] == "cd" then
      if words[2] == "/" then Some(CdRoot)
      else if words[2] == ".." then Some(CdUp)
      else Some(Cd(words[2]))
    else if words == ["$", "ls"] then Some(Ls)
    else if |words| == 2 && words[0] == "dir" then Some(Dir(words[1]))
    else if |words| == 2 then
      match ParseInt(words[0])
      case None => None
      case Some(n) => Some(File(n))
    else None
  }

  /** `child` is `parent` with one more component. */
  predicate ChildOf(child: Path, parent: Path)
  {
    |child| == |parent| + 1 && child[..|parent|] == parent
  }

  /** `p` is `root` or lies below it. */
  predicate Under(root: Path, p: Path)
  {
    |root| <= |p| && p[..|root|] == root
  }

  /** Every recorded subdirectory is a child of the directory it is recorded
      under, and every recorded list is non-empty. */
  predicate WellFormed(subDirs: map<Path, seq<Path>>)
  {
    forall p | p in subDirs :: subDirs[p] != [] && forall i | 0 <= i < |subDirs[p]| :: ChildOf(subDirs[p][i], p)
  }

  /** The state the loop of `solve` carries. */
  datatype Shell = Shell(cwd: Path, subDirs: map<Path, seq<Path>>, sizes: map<Path, int>)

  function Get(m: map<Path, int>, p: Path): int
  {
    if p in m then m[p] else 0
  }

  /** One line of the session. */
  function Step(sh: Shell, cmd: Cmd): (r: Shell)
  {
    match cmd
    case CdRoot => sh.(cwd := [])
    case CdUp => sh.(cwd := if sh.cwd == [] then [] else sh.cwd[..|sh.cwd| - 1])
    case Cd(dir) => sh.(cwd := sh.cwd + [dir])
    case Ls => sh
    case Dir(name) =>
      var listed := if sh.cwd in sh.subDirs then sh.subDirs[sh.cwd] else [];
      sh.(subDirs := sh.subDirs[sh.cwd := listed + [sh.cwd + [name]]])
    case File(size) => sh.(sizes := sh.sizes[sh.cwd := Get(sh.sizes, sh.cwd) + size])
  }

  /** `cd x` followed by `cd ..` changes nothing. */
  lemma CdThenUp(sh: Shell, dir: string)
    ensures Step(Step(sh, Cd(dir)), CdUp) == sh
  {
    assert (sh.cwd + [dir])[..|sh.cwd|] == sh.cwd;
  }

  /** A file line adds its size to the current directory and to no other. */
  lemma FileAddsToCwdOnly(sh: Shell, size: int, p: Path)
    ensures var r := Step(sh, File(size));
      Get(r.sizes, p) == Get(sh.sizes, p) + (if p == sh.cwd then size else 0) &&
      r.cwd == sh.cwd && r.subDirs == sh.subDirs
  {
  }

  /** Every line keeps the record of subdirectories well formed. */
  lemma StepKeepsWellFormed(sh: Shell, cmd: Cmd)
    requires WellFormed(sh.subDirs)
    ensures WellFormed(Step(sh, cmd).subDirs)
  {
    if cmd.Dir? {
      var c := sh.cwd + [cmd.name];
      assert c[..|sh.cwd|] == sh.cwd;
    }
  }

  /** The whole session from an empty state; `None` where a line panics. */
  function Interpret(lines: seq<seq<string>>): (r: Option<Shell>)
    ensures r.Some? ==> WellFormed(r.value.subDirs)
  {
    if lines == [] then Some(Shell([], map[], map[]))
    else
      match Interpret(lines[..|lines| - 1])
      case None => None
      case Some(sh) =>
        match ParseLine(lines[|lines| - 1])
        case None => None
        case Some(cmd) =>
          StepKeepsWellFormed(sh, cmd);
          Some(Step(sh, cmd))
  }

  lemma {:induction false} InterpretFailsLater(lines: seq<seq<string>>, k: nat)
    requires k <= |lines| && Interpret(lines[..k]).None?
    ensures Interpret(lines).None?
    decreases |lines| - k
  {
    if k < |lines| {
      assert lines[..k + 1][..k] == lines[..k];
      InterpretFailsLater(lines, k + 1);
    } else {
      assert lines[..k] == lines;
    }
  }

  /** The longest recorded directory path. */
  ghost function MaxLen(keys: set<Path>): (r: nat)
    ensures forall p | p in keys :: |p| <= r
  {
    if keys == {} then 0
    else
      var p :| p in keys;
      var m := MaxLen(keys - {p});
      if |p| > m then |p| else m
  }

  /** How far a directory is from the deepest recorded one: it drops from a
      recorded directory to each of its children. */
  ghost function Rank(p: Path, subDirs: map<Path, seq<Path>>): nat
  {
    var h := MaxLen(subDirs.Keys);
    if |p| <= h then h + 1 - |p| else 0
  }

  lemma RankDrops(p: Path, c: Path, subDirs: map<Path, seq<Path>>)
    requires p in subDirs && ChildOf(c, p)
    ensures Rank(c, subDirs) < Rank(p, subDirs)
  {
  }

  /** What `compute_sizes` does to the sizes: for a recorded directory, each
      listed child in turn is walked, and its size, which must then exist, is
      added to the directory's own. `None` where the source panics: a child
      with no size after its walk (an empty directory). */
  function Accumulate(root: Path, subDirs: map<Path, seq<Path>>, sizes: map<Path, int>): (r: Option<map<Path, int>>)
    requires WellFormed(subDirs)
    decreases Rank(root, subDirs), 1, 0
  {
    if root !in subDirs then Some(sizes)
    else AccumulateChildren(root, subDirs[root], subDirs, sizes)
  }

  function AccumulateChildren(root: Path, list: seq<Path>, subDirs: map<Path, seq<Path>>, sizes: map<Path, int>): (r: Option<map<Path, int>>)
    requires WellFormed(subDirs) && root in subDirs
    requires forall i | 0 <= i < |list| :: ChildOf(list[i], root)
    decreases Rank(root, subDirs), 0, |list|
  {
    if list == [] then Some(sizes)
    else
      RankDrops(root, list[0], subDirs);
      match Accumulate(list[0], subDirs, sizes)
      case None => None
      case Some(s1) =>
        if list[0] !in s1 then None
        else AccumulateChildren(root, list[1..], subDirs, s1[root := Get(s1, root) + s1[list[0]]])
  }

  /** `compute_sizes`, recursing into each child and updating the map. */
  method ComputeSizes(root: Path, subDirs: map<Path, seq<Path>>, sizes: map<Path, int>) returns (r: Option<map<Path, int>>)
    requires WellFormed(subDirs)
    ensures r == Accumulate(root, subDirs, sizes)
    decreases Rank(root, subDirs), 1
  {
    if root !in subDirs {
      return Some(sizes);
    }
    var list := subDirs[root];
    var s := sizes;
    for k := 0 to |list|
      invariant AccumulateChildren(root, list, subDirs, sizes) == AccumulateChildren(root, list[k..], subDirs, s)
    {
      var d := list[k];
      ghost var suffix := list[k..];
      assert suffix[0] == d && suffix[1..] == list[k + 1..];
      ChildrenUnfold(root, suffix, subDirs, s);
      RankDrops(root, d, subDirs);
      var s1 := ComputeSizes(d, subDirs, s);
      if s1.None? || d !in s1.value {
        return None;
      }
      s := s1.value[root := Get(s1.value, root) + s1.value[d]];
    }
    r := Some(s);
  }

  /** A directory's total: its own files plus the totals of its recorded
      children, each counted as often as it is listed. */
  function Total(p: Path, subDirs: map<Path, seq<Path>>, own: map<Path, int>): int
    requires WellFormed(subDirs)
    decreases Rank(p, subDirs), 1, 0
  {
    Get(own, p) + if p in subDirs then TotalOf(p, subDirs[p], subDirs, own) else 0
  }

  function TotalOf(p: Path, list: seq<Path>, subDirs: map<Path, seq<Path>>, own: map<Path, int>): int
    requires WellFormed(subDirs) && p in subDirs
    requires forall i | 0 <= i < |list| :: ChildOf(list[i], p)
    decreases Rank(p, subDirs), 0, |list|
  {
    if list == [] then 0
    else
      RankDrops(p, list[0], subDirs);
      Total(list[0], subDirs, own) + TotalOf(p, list[1..], subDirs, own)
  }

  /** The directories the walk from `root` reaches. */
  ghost function Visited(root: Path, subDirs: map<Path, seq<Path>>): set<Path>
    requires WellFormed(subDirs)
    decreases Rank(root, subDirs), 1, 0
  {
    {root} + if root in subDirs then VisitedAll(root, subDirs[root], subDirs) else {}
  }

  ghost function VisitedAll(root: Path, list: seq<Path>, subDirs: map<Path, seq<Path>>): set<Path>
    requires WellFormed(subDirs) && root in subDirs
    requires forall i | 0 <= i < |list| :: ChildOf(list[i], root)
    decreases Rank(root, subDirs), 0, |list|
  {
    if list == [] then {}
    else
      RankDrops(root, list[0], subDirs);
      Visited(list[0], subDirs) + VisitedAll(root, list[1..], subDirs)
  }

  /** No directory lists the same child twice. */
  predicate NoRepeats(subDirs: map<Path, seq<Path>>)
  {
    forall p | p in subDirs :: forall i, j | 0 <= i < j < |subDirs[p]| :: subDirs[p][i] != subDirs[p][j]
  }

  function Lookup(m: map<Path, int>, p: Path): Option<int>
  {
    if p in m then Some(m[p]) else None
  }

  lemma UnderTrans(a: Path, b: Path, c: Path)
    requires Under(a, b) && Under(b, c)
    ensures Under(a, c)
  {
    assert c[..|a|] == c[..|b|][..|a|];
  }

  /** Two different children of one directory have nothing below them in
      common. */
  lemma SiblingsDisjoint(c1: Path, c2: Path, root: Path, p: Path)
    requires ChildOf(c1, root) && ChildOf(c2, root) && c1 != c2
    ensures !(Under(c1, p) && Under(c2, p))
  {
  }

  lemma {:induction false} VisitedIsUnder(root: Path, subDirs: map<Path, seq<Path>>, p: Path)
    requires WellFormed(subDirs) && p in Visited(root, subDirs)
    ensures Under(root, p)
    decreases Rank(root, subDirs), 1, 0
  {
    if p != root {
      VisitedAllIsUnder(root, subDirs[root], subDirs, p);
    }
  }

  lemma {:induction false} VisitedAllIsUnder(root: Path, list: seq<Path>, subDirs: map<Path, seq<Path>>, p: Path)
    requires WellFormed(subDirs) && root in subDirs
    requires forall i | 0 <= i < |list| :: ChildOf(list[i], root)
    requires p in VisitedAll(root, list, subDirs)
    ensures exists i | 0 <= i < |list| :: Under(list[i], p)
    decreases Rank(root, subDirs), 0, |list|
  {
    RankDrops(root, list[0], subDirs);
    if p in Visited(list[0], subDirs) {
      VisitedIsUnder(list[0], subDirs, p);
    } else {
      VisitedAllIsUnder(root, list[1..], subDirs, p);
      var i :| 0 <= i < |list[1..]| && Under(list[1..][i], p);
      assert Under(list[i + 1], p);
    }
  }

  /** A directory's total depends only on the sizes at and below it. */
  lemma {:induction false} TotalLocal(p: Path, subDirs: map<Path, seq<Path>>, m1: map<Path, int>, m2: map<Path, int>)
    requires WellFormed(subDirs)
    requires forall q | Under(p, q) :: Get(m1, q) == Get(m2, q)
    ensures Total(p, subDirs, m1) == Total(p, subDirs, m2)
    decreases Rank(p, subDirs), 1, 0
  {
    assert Under(p, p);
    if p in subDirs {
      TotalOfLocal(p, subDirs[p], subDirs, m1, m2);
    }
  }

  lemma {:induction false} TotalOfLocal(p: Path, list: seq<Path>, subDirs: map<Path, seq<Path>>, m1: map<Path, int>, m2: map<Path, int>)
    requires WellFormed(subDirs) && p in subDirs
    requires forall i | 0 <= i < |list| :: ChildOf(list[i], p)
    requires forall q | Under(p, q) :: Get(m1, q) == Get(m2, q)
    ensures TotalOf(p, list, subDirs, m1) == TotalOf(p, list, subDirs, m2)
    decreases Rank(p, subDirs), 0, |list|
  {
    if list != [] {
      RankDrops(p, list[0], subDirs);
      forall q | Under(list[0], q)
        ensures Get(m1, q) == Get(m2, q)
      {
        UnderTrans(p, list[0], q);
      }
      TotalLocal(list[0], subDirs, m1, m2);
      TotalOfLocal(p, list[1..], subDirs, m1, m2);
    }
  }

  /** The walk from `root` changes no size outside `root`'s subtree, and
      leaves in every directory it reaches that directory's total: its own
      files plus its children's totals. */
  lemma {:induction false} AccumulateTotals(root: Path, subDirs: map<Path, seq<Path>>, sizes: map<Path, int>)
    requires WellFormed(subDirs) && NoRepeats(subDirs)
    requires Accumulate(root, subDirs, sizes).Some?
    ensures var r := Accumulate(root, subDirs, sizes).value;
      (forall p | !Under(root, p) :: Lookup(r, p) == Lookup(sizes, p)) &&
      (forall p | p in Visited(root, subDirs) :: Get(r, p) == Total(p, subDirs, sizes))
    decreases Rank(root, subDirs), 1, 0
  {
    if root in subDirs {
      var list := subDirs[root];
      AccumulateChildrenTotals(root, list, subDirs, sizes);
      var r := Accumulate(root, subDirs, sizes).value;
      forall p | !Under(root, p)
        ensures Lookup(r, p) == Lookup(sizes, p)
      {
        forall i | 0 <= i < |list|
          ensures !Under(list[i], p)
        {
          if Under(list[i], p) {
            assert Under(root, list[i]);
            UnderTrans(root, list[i], p);
          }
        }
      }
    }
  }

  /** The children's walks, one after another: each child's subtree gets its
      totals, the directory's own size grows by each child's total, and
      nothing else changes. */
  lemma {:induction false} AccumulateChildrenTotals(root: Path, list: seq<Path>, subDirs: map<Path, seq<Path>>, sizes: map<Path, int>)
    requires WellFormed(subDirs) && NoRepeats(subDirs) && root in subDirs
    requires forall i | 0 <= i < |list| :: ChildOf(list[i], root)
    requires forall i, j | 0 <= i < j < |list| :: list[i] != list[j]
    requires AccumulateChildren(root, list, subDirs, sizes).Some?
    ensures var r := AccumulateChildren(root, list, subDirs, sizes).value;
      Get(r, root) == Get(sizes, root) + TotalOf(root, list, subDirs, sizes) &&
      (forall p | p != root && (forall i | 0 <= i < |list| :: !Under(list[i], p)) :: Lookup(r, p) == Lookup(sizes, p)) &&
      (forall p | p in VisitedAll(root, list, subDirs) :: Get(r, p) == Total(p, subDirs, sizes))
    decreases Rank(root, subDirs), 0, |list|
  {
    if list != [] {
      var c, rest := list[0], list[1..];
      RankDrops(root, c, subDirs);
      ChildrenUnfold(root, list, subDirs, sizes);
      var s2 := FirstChildStep(root, c, subDirs, sizes);
      assert AccumulateChildren(root, rest, subDirs, s2) == AccumulateChildren(root, list, subDirs, sizes);
      forall i, j | 0 <= i < j < |rest|
        ensures rest[i] != rest[j]
      {
        assert rest[i] == list[i + 1] && rest[j] == list[j + 1];
      }
      AccumulateChildrenTotals(root, rest, subDirs, s2);
      LaterSiblingsUnaffected(root, c, rest, subDirs, sizes, s2);
      var r := AccumulateChildren(root, rest, subDirs, s2).value;
      assert TotalOf(root, list, subDirs, sizes) == Total(c, subDirs, sizes) + TotalOf(root, rest, subDirs, sizes);
      assert VisitedAll(root, list, subDirs) == Visited(c, subDirs) + VisitedAll(root, rest, subDirs);
      forall p | p != root && (forall i | 0 <= i < |list| :: !Under(list[i], p))
        ensures Lookup(r, p) == Lookup(sizes, p)
      {
        forall i | 0 <= i < |rest|
          ensures !Under(rest[i], p)
        {
          assert rest[i] == list[i + 1];
        }
        assert !Under(list[0], p);
      }
      forall p | p in Visited(c, subDirs)
        ensures Get(r, p) == Total(p, subDirs, sizes)
      {
        forall i | 0 <= i < |rest|
          ensures !Under(rest[i], p)
        {
          SiblingsDisjoint(c, rest[i], root, p);
        }
        assert Lookup(r, p) == Lookup(s2, p);
      }
    }
  }

  /** A walk over a non-empty list of children is the walk under the first
      child followed by the walk over the rest. */
  lemma ChildrenUnfold(root: Path, list: seq<Path>, subDirs: map<Path, seq<Path>>, sizes: map<Path, int>)
    requires WellFormed(subDirs) && root in subDirs && list != []
    requires forall i | 0 <= i < |list| :: ChildOf(list[i], root)
    ensures var s1 := Accumulate(list[0], subDirs, sizes);
      AccumulateChildren(root, list, subDirs, sizes) ==
      if s1.None? || list[0] !in s1.value then None
      else AccumulateChildren(root, list[1..], subDirs, s1.value[root := Get(s1.value, root) + s1.value[list[0]]])
  {
  }

  /** The walk under the first child `c`, then `c`'s total added to the
      directory's own size: every directory `c` reaches gets its total,
      and nothing outside `c`'s subtree changes but the directory itself. */
  lemma FirstChildStep(root: Path, c: Path, subDirs: map<Path, seq<Path>>, sizes: map<Path, int>)
    returns (s2: map<Path, int>)
    requires WellFormed(subDirs) && NoRepeats(subDirs) && root in subDirs && ChildOf(c, root)
    requires Accumulate(c, subDirs, sizes).Some? && c in Accumulate(c, subDirs, sizes).value
    ensures var s1 := Accumulate(c, subDirs, sizes).value;
      s2 == s1[root := Get(s1, root) + s1[c]]
    ensures Get(s2, root) == Get(sizes, root) + Total(c, subDirs, sizes)
    ensures forall q | !Under(c, q) && q != root :: Lookup(s2, q) == Lookup(sizes, q) && Get(s2, q) == Get(sizes, q)
    ensures forall p | p in Visited(c, subDirs) :: Under(c, p) && p != root && Get(s2, p) == Total(p, subDirs, sizes)
    decreases Rank(root, subDirs), 0, 0
  {
    RankDrops(root, c, subDirs);
    AccumulateTotals(c, subDirs, sizes);
    var s1 := Accumulate(c, subDirs, sizes).value;
    s2 := s1[root := Get(s1, root) + s1[c]];
    assert c in Visited(c, subDirs);
    assert !Under(c, root);
    assert Lookup(s1, root) == Lookup(sizes, root);
    forall q | !Under(c, q) && q != root
      ensures Lookup(s2, q) == Lookup(sizes, q) && Get(s2, q) == Get(sizes, q)
    {
      assert Lookup(s1, q) == Lookup(sizes, q);
    }
    forall p | p in Visited(c, subDirs)
      ensures Under(c, p) && p != root && Get(s2, p) == Total(p, subDirs, sizes)
    {
      VisitedIsUnder(c, subDirs, p);
    }
  }


  /** The walk under one child leaves the totals of its later siblings, and of
      everything those reach, as they were. */
  lemma LaterSiblingsUnaffected(root: Path, c: Path, rest: seq<Path>, subDirs: map<Path, seq<Path>>, sizes: map<Path, int>, s2: map<Path, int>)
    requires WellFormed(subDirs) && root in subDirs && ChildOf(c, root)
    requires forall i | 0 <= i < |rest| :: ChildOf(rest[i], root) && rest[i] != c
    requires forall q | !Under(c, q) && q != root :: Get(s2, q) == Get(sizes, q)
    ensures TotalOf(root, rest, subDirs, s2) == TotalOf(root, rest, subDirs, sizes)
    ensures forall p | p in VisitedAll(root, rest, subDirs) :: Total(p, subDirs, s2) == Total(p, subDirs, sizes)
  {
    forall i | 0 <= i < |rest|
      ensures Total(rest[i], subDirs, s2) == Total(rest[i], subDirs, sizes)
    {
      forall q | Under(rest[i], q)
        ensures Get(s2, q) == Get(sizes, q)
      {
        SiblingsDisjoint(c, rest[i], root, q);
      }
      TotalLocal(rest[i], subDirs, s2, sizes);
    }
    TotalOfAgree(root, rest, subDirs, s2, sizes);
    forall p | p in VisitedAll(root, rest, subDirs)
      ensures Total(p, subDirs, s2) == Total(p, subDirs, sizes)
    {
      VisitedAllIsUnder(root, rest, subDirs, p);
      var i :| 0 <= i < |rest| && Under(rest[i], p);
      forall q | Under(p, q)
        ensures Get(s2, q) == Get(sizes, q)
      {
        UnderTrans(rest[i], p, q);
        SiblingsDisjoint(c, rest[i], root, q);
      }
      TotalLocal(p, subDirs, s2, sizes);
    }
  }

  /** Sums over a list of children agree when each child's total does. */
  lemma {:induction false} TotalOfAgree(root: Path, list: seq<Path>, subDirs: map<Path, seq<Path>>, m1: map<Path, int>, m2: map<Path, int>)
    requires WellFormed(subDirs) && root in subDirs
    requires forall i | 0 <= i < |list| :: ChildOf(list[i], root)
    requires forall i | 0 <= i < |list| :: Total(list[i], subDirs, m1) == Total(list[i], subDirs, m2)
    ensures TotalOf(root, list, subDirs, m1) == TotalOf(root, list, subDirs, m2)
    decreases |list|
  {
    if list != [] {
      TotalOfAgree(root, list[1..], subDirs, m1, m2);
    }
  }

  /** Part 1 adds up the directories of at most this size. */
  const SMALL := 100000
  /** Part 2 frees space until at most this much is used. */
  const MAX_USED := 40000000

  /** The sum of the sizes at most `SMALL` among `keys`. */
  ghost function SmallSum(keys: set<Path>, sizes: map<Path, int>): int
    requires keys <= sizes.Keys
  {
    if keys == {} then 0
    else
      var p :| p in keys;
      (if sizes[p] <= SMALL then sizes[p] else 0) + SmallSum(keys - {p}, sizes)
  }

  /** The sum does not depend on which key is taken first. */
  lemma {:induction false} SmallSumPick(keys: set<Path>, sizes: map<Path, int>, p: Path)
    requires keys <= sizes.Keys && p in keys
    ensures SmallSum(keys, sizes) == (if sizes[p] <= SMALL then sizes[p] else 0) + SmallSum(keys - {p}, sizes)
    decreases |keys|
  {
    var q :| q in keys && SmallSum(keys, sizes) == (if sizes[q] <= SMALL then sizes[q] else 0) + SmallSum(keys - {q}, sizes);
    if q != p {
      SmallSumPick(keys - {q}, sizes, p);
      SmallSumPick(keys - {p}, sizes, q);
      assert keys - {q} - {p} == keys - {p} - {q};
    }
  }

  /** Part 1: the values of the map visited one key at a time. */
  method SumOfSmall(sizes: map<Path, int>) returns (sum: int)
    ensures sum == SmallSum(sizes.Keys, sizes)
  {
    var left := sizes.Keys;
    sum := 0;
    while left != {}
      invariant left <= sizes.Keys
      invariant sum + SmallSum(left, sizes) == SmallSum(sizes.Keys, sizes)
      decreases |left|
    {
      var p :| p in left;
      SmallSumPick(left, sizes, p);
      if sizes[p] <= SMALL {
        sum := sum + sizes[p];
      }
      left := left - {p};
    }
  }

  /** Deleting a directory of size `v` brings the used space to at most
      `MAX_USED`. */
  predicate Frees(used: int, v: int)
  {
    used - v <= MAX_USED
  }

  /** Part 2: the smallest size whose deletion frees enough; `None` where
      there is none, where the source's `min().unwrap()` panics. */
  method SmallestFreeing(sizes: map<Path, int>, used: int) returns (r: Option<int>)
    ensures r.None? <==> forall p | p in sizes :: !Frees(used, sizes[p])
    ensures r.Some? ==> exists p | p in sizes :: sizes[p] == r.value && Frees(used, r.value)
    ensures r.Some? ==> forall p | p in sizes && Frees(used, sizes[p]) :: r.value <= sizes[p]
  {
    var left := sizes.Keys;
    r := None;
    while left != {}
      invariant left <= sizes.Keys
      invariant r.None? <==> forall p | p in sizes.Keys - left :: !Frees(used, sizes[p])
      invariant r.Some? ==> exists p | p in sizes.Keys - left :: sizes[p] == r.value && Frees(used, r.value)
      invariant r.Some? ==> forall p | p in sizes.Keys - left && Frees(used, sizes[p]) :: r.value <= sizes[p]
      decreases |left|
    {
      var p :| p in left;
      if Frees(used, sizes[p]) && (r.None? || sizes[p] < r.value) {
        r := Some(sizes[p]);
      }
      left := left - {p};
    }
  }

  /** `solve`: replay the session, walk from the root, and read both parts.
      `None` where the source panics: a bad line, an empty directory, or no
      size for the root. */
  method Solve(lines: seq<seq<string>>) returns (r: Option<(int, int)>)
    ensures Interpret(lines).None? ==> r.None?
    ensures r.Some? ==> Interpret(lines).Some?
    ensures r.Some? ==>
      var sh := Interpret(lines).value;
      Accumulate([], sh.subDirs, sh.sizes).Some? &&
      var sizes := Accumulate([], sh.subDirs, sh.sizes).value;
      [] in sizes &&
      r.value.0 == SmallSum(sizes.Keys, sizes) &&
      (exists p | p in sizes :: sizes[p] == r.value.1 && Frees(sizes[[]], r.value.1)) &&
      (forall p | p in sizes && Frees(sizes[[]], sizes[p]) :: r.value.1 <= sizes[p])
    ensures Interpret(lines).Some? ==>
      var sh := Interpret(lines).value;
      var sizes := Accumulate([], sh.subDirs, sh.sizes);
      (r.Some? <==> sizes.Some? && [] in sizes.value)
  {
    var cwd: Path := [];
    var subDirs: map<Path, seq<Path>> := map[];
    var sizes: map<Path, int> := map[];
    assert lines[..0] == [];
    for k := 0 to |lines|
      invariant Interpret(lines[..k]) == Some(Shell(cwd, subDirs, sizes))
    {
      assert lines[..k + 1][..k] == lines[..k];
      var cmd := ParseLine(lines[k]);
      if cmd.None? {
        InterpretFailsLater(lines, k + 1);
        return None;
      }
      match cmd.value {
        case CdRoot =>
          cwd := [];
        case CdUp =>
          if cwd != [] {
            cwd := cwd[..|cwd| - 1];
          }
        case Cd(dir) =>
          cwd := cwd + [dir];
        case Ls =>
        case Dir(name) =>
          var listed := if cwd in subDirs then subDirs[cwd] else [];
          subDirs := subDirs[cwd := listed + [cwd + [name]]];
        case File(size) =>
          sizes := sizes[cwd := Get(sizes, cwd) + size];
      }
    }
    assert lines[..|lines|] == lines;
    var computed := ComputeSizes([], subDirs, sizes);
    if computed.None? || [] !in computed.value {
      return None;
    }
    var totals := computed.value;
    var p1 := SumOfSmall(totals);
    var p2 := SmallestFreeing(totals, totals[[]]);
    assert Frees(totals[[]], totals[[]]);
    r := Some((p1, p2.value));
  }

  /** When no directory lists a child twice, the root's final size is its
      total, and it frees enough by itself, so part 2 always has an answer. */
  lemma RootTotal(lines: seq<seq<string>>)
    requires Interpret(lines).Some?
    requires var sh := Interpret(lines).value;
      NoRepeats(sh.subDirs) && Accumulate([], sh.subDirs, sh.sizes).Some?
    ensures var sh := Interpret(lines).value;
      var sizes := Accumulate([], sh.subDirs, sh.sizes).value;
      Get(sizes, []) == Total([], sh.subDirs, sh.sizes) &&
      ([] in sizes ==> Frees(sizes[[]], sizes[[]]))
  {
    var sh := Interpret(lines).value;
    AccumulateTotals([], sh.subDirs, sh.sizes);
    assert [] in Visited([], sh.subDirs);
  }
}
