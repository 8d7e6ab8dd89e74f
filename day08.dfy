/** Treetop tree house: a 99 by 99 grid of tree heights, read straight from
    the input bytes with one newline per row. A tree is visible when, looking
    in some direction, every tree up to the edge is shorter; its scenic score
    multiplies how far one sees from it in the four directions. */
module Day08 {
  import opened Common

  const WIDTH := 99
  const HEIGHT := 99
  /** The bytes the grid reaches: every row but the last ends in a newline. */
  const GRID_LEN := HEIGHT * (WIDTH + 1) - 1

  predicate IsValidCoord(x: int, y: int)
  {
    0 <= x < WIDTH && 0 <= y < HEIGHT
  }

  /** `read_grid`: the byte of column `x` of row `y`, rows being `WIDTH + 1`
      bytes apart. */
  function ReadGrid(grid: seq<Byte>, x: int, y: int): (c: char)
    requires |grid| >= GRID_LEN && IsValidCoord(x, y)
    ensures c as int == grid[y * (WIDTH + 1) + x]
  {
    grid[y * (WIDTH + 1) + x] as char
  }

  /** The four directions in the order `solve` tries them. */
  datatype Dir = Right | Down | Left | Up

  const DIRS: seq<Dir> := [Right, Down, Left, Up]

  function Delta(d: Dir): (int, int)
  {
    match d
    case Right => (1, 0)
    case Down => (0, 1)
    case Left => (-1, 0)
    case Up => (0, -1)
  }

  /** The tree `k` steps from `(x, y)` in direction `d`. */
  function Pos(x: int, y: int, d: Dir, k: int): (int, int)
  {
    match d
    case Right => (x + k, y)
    case Down => (x, y + k)
    case Left => (x - k, y)
    case Up => (x, y - k)
  }

  /** How many trees lie between `(x, y)` and the edge in direction `d`. */
  function EdgeDist(x: int, y: int, d: Dir): nat
    requires IsValidCoord(x, y)
  {
    match d
    case Right => WIDTH - 1 - x
    case Down => HEIGHT - 1 - y
    case Left => x
    case Up => y
  }

  /** Stepping from a tree stays on the grid for exactly `EdgeDist` steps. */
  lemma OnGridIff(x: int, y: int, d: Dir, k: int)
    requires IsValidCoord(x, y) && k >= 0
    ensures IsValidCoord(Pos(x, y, d, k).0, Pos(x, y, d, k).1) <==> k <= EdgeDist(x, y, d)
  {
  }

  lemma PosStep(x: int, y: int, d: Dir, k: int)
    ensures Pos(x, y, d, k + 1) == (Pos(x, y, d, k).0 + Delta(d).0, Pos(x, y, d, k).1 + Delta(d).1)
  {
  }

  /** The tree `k` steps away is strictly shorter than the one at `(x, y)`. */
  predicate Shorter(grid: seq<Byte>, x: int, y: int, d: Dir, k: nat)
    requires |grid| >= GRID_LEN && IsValidCoord(x, y) && k <= EdgeDist(x, y, d)
  {
    OnGridIff(x, y, d, k);
    var p := Pos(x, y, d, k);
    ReadGrid(grid, p.0, p.1) < ReadGrid(grid, x, y)
  }

  /** Every tree up to the edge in direction `d` is shorter. */
  predicate ClearView(grid: seq<Byte>, x: int, y: int, d: Dir)
    requires |grid| >= GRID_LEN && IsValidCoord(x, y)
  {
    forall k | 1 <= k <= EdgeDist(x, y, d) :: Shorter(grid, x, y, d, k)
  }

  /** The viewing distance from step `k` on: the first tree at least as tall,
      counted, or the edge. */
  function Scan(grid: seq<Byte>, x: int, y: int, d: Dir, k: nat): (r: nat)
    requires |grid| >= GRID_LEN && IsValidCoord(x, y) && 1 <= k <= EdgeDist(x, y, d) + 1
    ensures k - 1 <= r <= EdgeDist(x, y, d)
    ensures forall j | k <= j < r :: Shorter(grid, x, y, d, j)
    ensures (r >= k && !Shorter(grid, x, y, d, r)) ||
      (r == EdgeDist(x, y, d) && forall j | k <= j <= r :: Shorter(grid, x, y, d, j))
    decreases EdgeDist(x, y, d) + 1 - k
  {
    if k > EdgeDist(x, y, d) then k - 1
    else if !Shorter(grid, x, y, d, k) then k
    else Scan(grid, x, y, d, k + 1)
  }

  /** How many trees one sees from `(x, y)` in direction `d`. */
  function ViewingDistance(grid: seq<Byte>, x: int, y: int, d: Dir): nat
    requires |grid| >= GRID_LEN && IsValidCoord(x, y)
  {
    Scan(grid, x, y, d, 1)
  }

  /** One sees all the way to the edge, and past the last tree, exactly when
      the view is clear: visibility and viewing distance agree. */
  lemma ClearIffSeesPastEdge(grid: seq<Byte>, x: int, y: int, d: Dir)
    requires |grid| >= GRID_LEN && IsValidCoord(x, y)
    ensures ClearView(grid, x, y, d) <==>
      ViewingDistance(grid, x, y, d) == EdgeDist(x, y, d) &&
      (EdgeDist(x, y, d) == 0 || Shorter(grid, x, y, d, EdgeDist(x, y, d)))
  {
  }

  /** Visible from some side. */
  predicate Visible(grid: seq<Byte>, x: int, y: int)
    requires |grid| >= GRID_LEN && IsValidCoord(x, y)
  {
    ClearView(grid, x, y, Right) || ClearView(grid, x, y, Down) ||
    ClearView(grid, x, y, Left) || ClearView(grid, x, y, Up)
  }

  /** `is_tree_visible`: each direction is walked until the edge, which makes
      the tree visible, or until a tree at least as tall. */
  method IsTreeVisible(x: int, y: int, grid: seq<Byte>) returns (visible: bool)
    requires |grid| >= GRID_LEN && IsValidCoord(x, y)
    ensures visible == Visible(grid, x, y)
  {
    var th := ReadGrid(grid, x, y);
    for i := 0 to 4
      invariant forall i' | 0 <= i' < i :: !ClearView(grid, x, y, DIRS[i'])
    {
      var d := DIRS[i];
      var (dx, dy) := Delta(d);
      var x0, y0 := x + dx, y + dy;
      ghost var k: nat := 1;
      while true
        invariant 1 <= k <= EdgeDist(x, y, d) + 1
        invariant (x0, y0) == Pos(x, y, d, k)
        invariant forall j | 1 <= j < k :: Shorter(grid, x, y, d, j)
        decreases EdgeDist(x, y, d) + 1 - k
      {
        OnGridIff(x, y, d, k);
        if !IsValidCoord(x0, y0) {
          assert ClearView(grid, x, y, d);
          return true;
        } else {
          if ReadGrid(grid, x0, y0) >= th {
            assert !Shorter(grid, x, y, d, k);
            break;
          } else {
            PosStep(x, y, d, k);
            x0 := x0 + dx;
            y0 := y0 + dy;
            k := k + 1;
          }
        }
      }
    }
    assert !ClearView(grid, x, y, DIRS[0]) && !ClearView(grid, x, y, DIRS[1]);
    assert !ClearView(grid, x, y, DIRS[2]) && !ClearView(grid, x, y, DIRS[3]);
    return false;
  }

  /** The scenic score: the product of the four viewing distances. */
  function Score(grid: seq<Byte>, x: int, y: int): nat
    requires |grid| >= GRID_LEN && IsValidCoord(x, y)
  {
    Product(grid, x, y, 4)
  }

  /** A tree on the border sees nothing one way, so its score is 0; it is
      visible from that side. */
  lemma BorderTrees(grid: seq<Byte>, x: int, y: int)
    requires |grid| >= GRID_LEN && IsValidCoord(x, y)
    requires x == 0 || y == 0 || x == WIDTH - 1 || y == HEIGHT - 1
    ensures Score(grid, x, y) == 0
    ensures Visible(grid, x, y)
  {
    var i := if x == WIDTH - 1 then 0 else if y == HEIGHT - 1 then 1 else if x == 0 then 2 else 3;
    assert EdgeDist(x, y, DIRS[i]) == 0;
    assert ClearView(grid, x, y, DIRS[i]);
    ProductFrom(grid, x, y, i);
  }

  /** Once a factor is 0, the product stays 0. */
  lemma {:induction false} ProductFrom(grid: seq<Byte>, x: int, y: int, i: nat)
    requires |grid| >= GRID_LEN && IsValidCoord(x, y) && i < 4
    requires ViewingDistance(grid, x, y, DIRS[i]) == 0
    ensures Score(grid, x, y) == 0
  {
    assert Product(grid, x, y, i + 1) == 0;
    if i < 3 {
      assert Product(grid, x, y, i + 2) == 0;
    }
    if i < 2 {
      assert Product(grid, x, y, i + 3) == 0;
    }
    if i < 1 {
      assert Product(grid, x, y, i + 4) == 0;
    }
  }

  /** `scenic_score`: each direction is walked, counting trees, and the
      count multiplies the score. */
  method ScenicScore(x: int, y: int, grid: seq<Byte>) returns (score: int)
    requires |grid| >= GRID_LEN && IsValidCoord(x, y)
    ensures score == Score(grid, x, y)
  {
    score := 1;
    var th := ReadGrid(grid, x, y);
    for i := 0 to 4
      invariant score == Product(grid, x, y, i)
    {
      var d := DIRS[i];
      var (dx, dy) := Delta(d);
      var x0, y0 := x + dx, y + dy;
      var dist := 0;
      while true
        invariant dist + 1 <= EdgeDist(x, y, d) + 1
        invariant (x0, y0) == Pos(x, y, d, dist + 1)
        invariant Scan(grid, x, y, d, dist + 1) == ViewingDistance(grid, x, y, d)
        decreases EdgeDist(x, y, d) - dist
      {
        OnGridIff(x, y, d, dist + 1);
        if !IsValidCoord(x0, y0) {
          score := score * dist;
          break;
        } else {
          if ReadGrid(grid, x0, y0) >= th {
            dist := dist + 1;
            score := score * dist;
            break;
          } else {
            PosStep(x, y, d, dist + 1);
            x0 := x0 + dx;
            y0 := y0 + dy;
            dist := dist + 1;
          }
        }
      }
    }
  }

  /** The score over the first `i` directions. */
  function Product(grid: seq<Byte>, x: int, y: int, i: nat): nat
    requires |grid| >= GRID_LEN && IsValidCoord(x, y) && i <= 4
  {
    if i == 0 then 1
    else
      var p, v := Product(grid, x, y, i - 1), ViewingDistance(grid, x, y, DIRS[i - 1]);
      ProductNonNegative(p, v);
      p * v
  }

  /** Visible trees in column `x` among the first `n` rows. */
  function ColumnVisible(grid: seq<Byte>, x: int, n: nat): (r: nat)
    requires |grid| >= GRID_LEN && 0 <= x < WIDTH && n <= HEIGHT
    ensures r <= n
  {
    if n == 0 then 0
    else ColumnVisible(grid, x, n - 1) + if Visible(grid, x, n - 1) then 1 else 0
  }

  /** Visible trees in the first `n` columns. */
  function GridVisible(grid: seq<Byte>, n: nat): (r: nat)
    requires |grid| >= GRID_LEN && n <= WIDTH
    ensures r <= n * HEIGHT
  {
    if n == 0 then 0 else GridVisible(grid, n - 1) + ColumnVisible(grid, n - 1, HEIGHT)
  }

  /** The best score in column `x` among the first `n` rows, and 0. */
  function ColumnBest(grid: seq<Byte>, x: int, n: nat): (r: nat)
    requires |grid| >= GRID_LEN && 0 <= x < WIDTH && n <= HEIGHT
    ensures forall y | 0 <= y < n :: Score(grid, x, y) <= r
  {
    if n == 0 then 0
    else
      var b := ColumnBest(grid, x, n - 1);
      var s := Score(grid, x, n - 1);
      if s > b then s else b
  }

  /** The best score in the first `n` columns, and 0. */
  function GridBest(grid: seq<Byte>, n: nat): (r: nat)
    requires |grid| >= GRID_LEN && n <= WIDTH
    ensures forall x | 0 <= x < n :: ColumnBest(grid, x, HEIGHT) <= r
  {
    if n == 0 then 0
    else
      var b := GridBest(grid, n - 1);
      var c := ColumnBest(grid, n - 1, HEIGHT);
      if c > b then c else b
  }

  /** The best score over the grid is at least every tree's score, and is
      some tree's score unless it is 0. */
  lemma GridBestIsMax(grid: seq<Byte>)
    requires |grid| >= GRID_LEN
    ensures forall x, y | IsValidCoord(x, y) :: Score(grid, x, y) <= GridBest(grid, WIDTH)
    ensures GridBest(grid, WIDTH) == 0 ||
      exists x, y | IsValidCoord(x, y) :: Score(grid, x, y) == GridBest(grid, WIDTH)
  {
    var b := GridBest(grid, WIDTH);
    forall x, y | IsValidCoord(x, y)
      ensures Score(grid, x, y) <= b
    {
      assert Score(grid, x, y) <= ColumnBest(grid, x, HEIGHT);
    }
    if b != 0 {
      var x := GridBestAttained(grid, WIDTH);
      var y := ColumnBestAttained(grid, x, HEIGHT);
      assert IsValidCoord(x, y);
    }
  }

  lemma {:induction false} ColumnBestAttained(grid: seq<Byte>, x: int, n: nat) returns (y: int)
    requires |grid| >= GRID_LEN && 0 <= x < WIDTH && n <= HEIGHT && ColumnBest(grid, x, n) != 0
    ensures 0 <= y < n && Score(grid, x, y) == ColumnBest(grid, x, n)
  {
    if Score(grid, x, n - 1) > ColumnBest(grid, x, n - 1) {
      y := n - 1;
    } else {
      y := ColumnBestAttained(grid, x, n - 1);
    }
  }

  lemma {:induction false} GridBestAttained(grid: seq<Byte>, n: nat) returns (x: int)
    requires |grid| >= GRID_LEN && n <= WIDTH && GridBest(grid, n) != 0
    ensures 0 <= x < n && ColumnBest(grid, x, HEIGHT) == GridBest(grid, n)
  {
    if ColumnBest(grid, n - 1, HEIGHT) > GridBest(grid, n - 1) {
      x := n - 1;
    } else {
      x := GridBestAttained(grid, n - 1);
    }
  }

  /** `solve`: part 1 counts the visible trees, at most all 99 * 99 of them;
      part 2 is the best scenic score. */
  method Solve(grid: seq<Byte>) returns (p1: int, p2: int)
    requires |grid| >= GRID_LEN
    ensures p1 == GridVisible(grid, WIDTH) && p1 <= WIDTH * HEIGHT
    ensures p2 == GridBest(grid, WIDTH)
  {
    p1, p2 := 0, 0;
    for x := 0 to WIDTH
      invariant p1 == GridVisible(grid, x) && p2 == GridBest(grid, x)
    {
      for y := 0 to HEIGHT
        invariant p1 == GridVisible(grid, x) + ColumnVisible(grid, x, y)
        invariant p2 == Max(GridBest(grid, x), ColumnBest(grid, x, y))
      {
        var visible := IsTreeVisible(x, y, grid);
        if visible {
          p1 := p1 + 1;
        }
        var score := ScenicScore(x, y, grid);
        ColumnBestStep(grid, x, y);
        MaxAssoc(GridBest(grid, x), ColumnBest(grid, x, y), score);
        p2 := Max(p2, score);
        assert ColumnVisible(grid, x, y + 1) == ColumnVisible(grid, x, y) + if visible then 1 else 0;
      }
      assert GridVisible(grid, x + 1) == GridVisible(grid, x) + ColumnVisible(grid, x, HEIGHT);
      assert GridBest(grid, x + 1) == Max(GridBest(grid, x), ColumnBest(grid, x, HEIGHT));
    }
  }

  function Max(a: int, b: int): int
  {
    if a >= b then a else b
  }

  lemma MaxAssoc(a: int, b: int, c: int)
    ensures Max(Max(a, b), c) == Max(a, Max(b, c))
  {
  }

  /** One more row of a column: the best so far against that tree's score. */
  lemma ColumnBestStep(grid: seq<Byte>, x: int, y: int)
    requires |grid| >= GRID_LEN && 0 <= x < WIDTH && 0 <= y < HEIGHT
    ensures ColumnBest(grid, x, y + 1) == Max(ColumnBest(grid, x, y), Score(grid, x, y))
  {
  }
}
