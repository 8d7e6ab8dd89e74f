/** Geode-cracking robots: a memoised depth-first search over robot
    inventories for one blueprint, and the two reductions over all
    blueprints. */
module Day19 {
  import opened Common

  /** The costs read from one blueprint line, and the per-resource robot caps
      derived from them. */
  datatype Blueprint = Blueprint(
    nr: int,
    oreRobotOre: int,
    clayRobotOre: int,
    obsRobotOre: int,
    obsRobotClay: int,
    geoRobotOre: int,
    geoRobotObs: int,
    maxOreR: int,
    maxClayR: int,
    maxObsR: int)

  /** One search state: minutes left, the four stocks and the four robot
      counts. Equality is over all nine fields, as the cache key requires. */
  datatype Inv = Inv(
    min: int,
    ore: int,
    clay: int,
    obs: int,
    geo: int,
    oreR: int,
    clayR: int,
    obsR: int,
    geoR: int)

  function Max(a: int, b: int): (m: int)
    ensures m >= a && m >= b && (m == a || m == b)
  {
    if a >= b then a else b
  }

  /** `Blueprint::from_str` once the numbers are captured: the ore cap is the
      largest ore cost of the robots that are not ore robots, the clay cap is
      what an obsidian robot costs in clay, and the obsidian cap is what a
      geode robot costs in obsidian. */
  function FromCosts(nr: int, oreRobotOre: int, clayRobotOre: int, obsRobotOre: int,
                     obsRobotClay: int, geoRobotOre: int, geoRobotObs: int): (bp: Blueprint)
    ensures bp.nr == nr && bp.oreRobotOre == oreRobotOre && bp.clayRobotOre == clayRobotOre
    ensures bp.obsRobotOre == obsRobotOre && bp.obsRobotClay == obsRobotClay
    ensures bp.geoRobotOre == geoRobotOre && bp.geoRobotObs == geoRobotObs
    ensures bp.maxOreR >= clayRobotOre && bp.maxOreR >= obsRobotOre && bp.maxOreR >= geoRobotOre
    ensures bp.maxOreR == clayRobotOre || bp.maxOreR == obsRobotOre || bp.maxOreR == geoRobotOre
    ensures bp.maxClayR == obsRobotClay && bp.maxObsR == geoRobotObs
  {
    Blueprint(nr, oreRobotOre, clayRobotOre, obsRobotOre, obsRobotClay, geoRobotOre, geoRobotObs,
              Max(Max(clayRobotOre, obsRobotOre), geoRobotOre), obsRobotClay, geoRobotObs)
  }

  /** No stock and no robot count is negative. */
  predicate ValidInv(inv: Inv)
  {
    inv.min >= 0 && inv.ore >= 0 && inv.clay >= 0 && inv.obs >= 0 && inv.geo >= 0 &&
    inv.oreR >= 0 && inv.clayR >= 0 && inv.obsR >= 0 && inv.geoR >= 0
  }

  /** `Inv::default`: the given minutes, one ore robot and nothing else. */
  function DefaultInv(min: int): (inv: Inv)
    ensures inv.min == min && inv.oreR == 1
    ensures inv.ore == 0 && inv.clay == 0 && inv.obs == 0 && inv.geo == 0
    ensures inv.clayR == 0 && inv.obsR == 0 && inv.geoR == 0
    ensures min >= 0 ==> ValidInv(inv)
  {
    Inv(min, 0, 0, 0, 0, 1, 0, 0, 0)
  }

  /** `next_inv`: one minute passes and every robot adds one unit to its
      stock; the robot counts stay. */
  function Produce(inv: Inv): (next: Inv)
    requires inv.min > 0
    ensures next.min == inv.min - 1
    ensures next.oreR == inv.oreR && next.clayR == inv.clayR && next.obsR == inv.obsR && next.geoR == inv.geoR
    ensures ValidInv(inv) ==> ValidInv(next)
    ensures next.geo == inv.geo + inv.geoR
  {
    inv.(min := inv.min - 1, ore := inv.ore + inv.oreR, clay := inv.clay + inv.clayR,
         obs := inv.obs + inv.obsR, geo := inv.geo + inv.geoR)
  }

  /** Affordability is tested on the stock before production; the robot caps
      bound the three lower robot kinds. */
  predicate CanBuildGeode(bp: Blueprint, inv: Inv)
  {
    inv.obs >= bp.geoRobotObs && inv.ore >= bp.geoRobotOre
  }

  predicate CanBuildObs(bp: Blueprint, inv: Inv)
  {
    inv.ore >= bp.obsRobotOre && inv.clay >= bp.obsRobotClay && inv.obsR < bp.maxObsR
  }

  predicate CanBuildClay(bp: Blueprint, inv: Inv)
  {
    inv.ore >= bp.clayRobotOre && inv.clayR < bp.maxClayR
  }

  predicate CanBuildOre(bp: Blueprint, inv: Inv)
  {
    inv.ore >= bp.oreRobotOre && inv.oreR < bp.maxOreR
  }

  /** The purchases: the cost is taken from the stock after production, so
      a purchase that was affordable before production leaves every stock
      non-negative. */
  function BuildGeode(bp: Blueprint, inv: Inv): (child: Inv)
    requires inv.min > 0 && CanBuildGeode(bp, inv)
    ensures child.min == inv.min - 1 && child.geoR == inv.geoR + 1
    ensures child.geo == inv.geo + inv.geoR
    ensures ValidInv(inv) ==> ValidInv(child)
  {
    var next := Produce(inv);
    next.(ore := next.ore - bp.geoRobotOre, obs := next.obs - bp.geoRobotObs, geoR := inv.geoR + 1)
  }

  function BuildObs(bp: Blueprint, inv: Inv): (child: Inv)
    requires inv.min > 0 && CanBuildObs(bp, inv)
    ensures child.min == inv.min - 1 && child.obsR == inv.obsR + 1
    ensures child.geo == inv.geo + inv.geoR && child.geoR == inv.geoR
    ensures ValidInv(inv) ==> ValidInv(child)
  {
    var next := Produce(inv);
    next.(ore := next.ore - bp.obsRobotOre, clay := next.clay - bp.obsRobotClay, obsR := next.obsR + 1)
  }

  function BuildClay(bp: Blueprint, inv: Inv): (child: Inv)
    requires inv.min > 0 && CanBuildClay(bp, inv)
    ensures child.min == inv.min - 1 && child.clayR == inv.clayR + 1
    ensures child.geo == inv.geo + inv.geoR && child.geoR == inv.geoR
    ensures ValidInv(inv) ==> ValidInv(child)
  {
    var next := Produce(inv);
    next.(ore := next.ore - bp.clayRobotOre, clayR := next.clayR + 1)
  }

  function BuildOre(bp: Blueprint, inv: Inv): (child: Inv)
    requires inv.min > 0 && CanBuildOre(bp, inv)
    ensures child.min == inv.min - 1 && child.oreR == inv.oreR + 1
    ensures child.geo == inv.geo + inv.geoR && child.geoR == inv.geoR
    ensures ValidInv(inv) ==> ValidInv(child)
  {
    var next := Produce(inv);
    next.(ore := next.ore - bp.oreRobotOre, oreR := next.oreR + 1)
  }

  /** The value `search2` computes for `inv`, cache left aside: at zero
      minutes the geodes in stock; an affordable geode robot is always bought
      and nothing else is tried; with one or two minutes left a closed form;
      otherwise the best of the affordable obsidian, clay and ore purchases
      and of buying nothing, starting from 0. */
  function Geodes(bp: Blueprint, inv: Inv): int
    requires inv.min >= 0
    decreases inv.min
  {
    if inv.min == 0 then inv.geo
    else if CanBuildGeode(bp, inv) then Geodes(bp, BuildGeode(bp, inv))
    else if inv.min == 1 then inv.geo + inv.geoR
    else if inv.min == 2 then inv.geo + inv.geoR * 2
    else
      var afterObs := if CanBuildObs(bp, inv) then Max(0, Geodes(bp, BuildObs(bp, inv))) else 0;
      var afterClay := if CanBuildClay(bp, inv) then Max(afterObs, Geodes(bp, BuildClay(bp, inv))) else afterObs;
      var afterOre := if CanBuildOre(bp, inv) then Max(afterClay, Geodes(bp, BuildOre(bp, inv))) else afterClay;
      Max(afterOre, Geodes(bp, Produce(inv)))
  }

  /** The two closed forms: with one minute left a newly bought geode robot
      cannot produce any more, so the answer is the stock plus one minute of
      production whether or not one is bought; with two minutes left it is two
      minutes of production, plus one geode when a geode robot is affordable. */
  lemma ShortcutValues(bp: Blueprint, inv: Inv)
    requires 1 <= inv.min <= 2
    ensures inv.min == 1 ==> Geodes(bp, inv) == inv.geo + inv.geoR
    ensures inv.min == 2 ==> Geodes(bp, inv) == inv.geo + 2 * inv.geoR + (if CanBuildGeode(bp, inv) then 1 else 0)
  {
    if CanBuildGeode(bp, inv) {
      var child := BuildGeode(bp, inv);
      if inv.min == 2 && CanBuildGeode(bp, child) {
        assert Geodes(bp, child) == Geodes(bp, BuildGeode(bp, child));
      }
    }
  }

  /** `a * m` grows by `a` per step of `m`. */
  lemma MulStep(a: int, m: int)
    ensures a * m == a * (m - 1) + a
  {
  }

  /** One unfolding of `Geodes` when no geode robot is affordable and at
      least three minutes are left: the result is at least that of buying
      nothing, and at most any non-negative bound on every tried branch. */
  lemma GeodesAtLeastIdle(bp: Blueprint, inv: Inv)
    requires inv.min >= 3 && !CanBuildGeode(bp, inv)
    ensures Geodes(bp, inv) >= Geodes(bp, Produce(inv))
  {
  }

  lemma GeodesAtMostBranches(bp: Blueprint, inv: Inv, b: int)
    requires inv.min >= 3 && !CanBuildGeode(bp, inv)
    requires b >= 0 && b >= Geodes(bp, Produce(inv))
    requires CanBuildObs(bp, inv) ==> b >= Geodes(bp, BuildObs(bp, inv))
    requires CanBuildClay(bp, inv) ==> b >= Geodes(bp, BuildClay(bp, inv))
    requires CanBuildOre(bp, inv) ==> b >= Geodes(bp, BuildOre(bp, inv))
    ensures Geodes(bp, inv) <= b
  {
  }

  /** With a geode robot affordable, `search2` follows that purchase only. */
  lemma GeodeForced(bp: Blueprint, inv: Inv)
    requires inv.min > 0 && CanBuildGeode(bp, inv)
    ensures Geodes(bp, inv) == Geodes(bp, BuildGeode(bp, inv))
  {
  }

  /** The arithmetic of one step of the two bounds below: `r` robots over
      `m` minutes against `r + 1` robots over `m - 1` minutes after this
      minute's `r` geodes. */
  lemma BoundStep(r: int, m: int)
    requires m >= 1
    ensures r + (r + 1) * (m - 1) == r * m + (m - 1)
    ensures r + r * (m - 1) == r * m
  {
    MulStep(r, m);
    MulStep(m - 1, r + 1);
  }

  /** Buying nothing is always among the branches that are tried, so the
      result never falls below what the current geode robots produce by the
      end. */
  lemma {:induction false} GeodesLowerBound(bp: Blueprint, inv: Inv)
    requires ValidInv(inv)
    ensures Geodes(bp, inv) >= inv.geo + inv.geoR * inv.min
    decreases inv.min
  {
    var m, g, r := inv.min, inv.geo, inv.geoR;
    if m == 0 {
    } else {
      BoundStep(r, m);
      if CanBuildGeode(bp, inv) {
        var child := BuildGeode(bp, inv);
        GeodesLowerBound(bp, child);
        GeodeForced(bp, inv);
        assert Geodes(bp, inv) >= g + r + (r + 1) * (m - 1);
      } else if m <= 2 {
      } else {
        var next := Produce(inv);
        GeodesLowerBound(bp, next);
        GeodesAtLeastIdle(bp, inv);
        assert Geodes(bp, inv) >= g + r + r * (m - 1);
      }
    }
  }

  /** 0 + 1 + ... + (m - 1). */
  function Triangle(m: nat): (t: nat)
  {
    if m == 0 then 0 else Triangle(m - 1) + (m - 1)
  }

  lemma {:induction false} TriangleClosedForm(m: nat)
    ensures 2 * Triangle(m) == m * (m - 1)
  {
    if m > 0 {
      TriangleClosedForm(m - 1);
      MulStep(m - 1, m);
      MulStep(m - 1, m - 1);
    }
  }

  /** The optimistic bound `geo + geo_r * min + min * (min - 1) / 2`, one
      more geode robot every minute, is never below what the search finds. */
  lemma {:induction false} GeodesUpperBound(bp: Blueprint, inv: Inv)
    requires ValidInv(inv)
    ensures Geodes(bp, inv) <= inv.geo + inv.geoR * inv.min + Triangle(inv.min)
    decreases inv.min, 3
  {
    var m, g, r := inv.min, inv.geo, inv.geoR;
    if m == 0 {
    } else if CanBuildGeode(bp, inv) {
      var child := BuildGeode(bp, inv);
      GeodesUpperBound(bp, child);
      GeodeForced(bp, inv);
      BoundStep(r, m);
      assert Geodes(bp, inv) <= g + r + (r + 1) * (m - 1) + Triangle(m - 1);
    } else if m == 1 {
      assert Geodes(bp, inv) == g + r;
    } else if m == 2 {
      assert Geodes(bp, inv) == g + r * 2;
      assert Triangle(2) == 1;
    } else {
      UpperBoundBranches(bp, inv);
    }
  }

  /** The case of at least three minutes and no affordable geode robot: every
      tried child stays under the bound. */
  lemma {:induction false} UpperBoundBranches(bp: Blueprint, inv: Inv)
    requires ValidInv(inv) && inv.min >= 3 && !CanBuildGeode(bp, inv)
    ensures Geodes(bp, inv) <= inv.geo + inv.geoR * inv.min + Triangle(inv.min)
    decreases inv.min, 2
  {
    UpperBoundOfChildren(bp, inv);
    GeodesAtMostBranches(bp, inv, inv.geo + inv.geoR * inv.min + Triangle(inv.min));
  }

  /** Each child tried in that case stays under the parent's bound. */
  lemma {:induction false} UpperBoundOfChildren(bp: Blueprint, inv: Inv)
    requires ValidInv(inv) && inv.min >= 3
    ensures Geodes(bp, Produce(inv)) <= inv.geo + inv.geoR * inv.min + Triangle(inv.min)
    ensures CanBuildObs(bp, inv) ==>
      Geodes(bp, BuildObs(bp, inv)) <= inv.geo + inv.geoR * inv.min + Triangle(inv.min)
    ensures CanBuildClay(bp, inv) ==>
      Geodes(bp, BuildClay(bp, inv)) <= inv.geo + inv.geoR * inv.min + Triangle(inv.min)
    ensures CanBuildOre(bp, inv) ==>
      Geodes(bp, BuildOre(bp, inv)) <= inv.geo + inv.geoR * inv.min + Triangle(inv.min)
    decreases inv.min, 1
  {
    var m, g, r := inv.min, inv.geo, inv.geoR;
    UpperBoundOfChild(bp, Produce(inv), g, r, m);
    if CanBuildObs(bp, inv) {
      UpperBoundOfChild(bp, BuildObs(bp, inv), g, r, m);
    }
    if CanBuildClay(bp, inv) {
      UpperBoundOfChild(bp, BuildClay(bp, inv), g, r, m);
    }
    if CanBuildOre(bp, inv) {
      UpperBoundOfChild(bp, BuildOre(bp, inv), g, r, m);
    }
  }

  /** A child without a new geode robot stays under its parent's bound. */
  lemma {:induction false} UpperBoundOfChild(bp: Blueprint, child: Inv, g: int, r: int, m: nat)
    requires ValidInv(child) && m >= 1
    requires child.geo == g + r && child.geoR == r && child.min == m - 1
    ensures Geodes(bp, child) <= g + r * m + Triangle(m)
    decreases m, 0
  {
    GeodesUpperBound(bp, child);
    BoundStep(r, m);
  }

  /** The memo table `search2` threads through the recursion. */
  class Cache {
    var entries: map<Inv, int>

    constructor ()
      ensures entries == map[]
    {
      entries := map[];
    }

    /** Every stored value is the value of the search from its key. */
    ghost predicate Sound(bp: Blueprint)
      reads this
    {
      forall k | k in entries :: k.min >= 0 && entries[k] == Geodes(bp, k)
    }
  }

  /** `search2`: a cache hit returns the stored value; otherwise the branches
      are searched in the source's order (the obsidian branch is searched even
      when the two-minute shortcut then discards it) and the maximum is
      stored under `inv`. The result is that of the cache-free `Geodes`, so
      the cache never changes an answer. */
  method Search2(bp: Blueprint, cache: Cache, inv: Inv) returns (geodes: int)
    requires inv.min >= 0 && cache.Sound(bp)
    modifies cache
    ensures geodes == Geodes(bp, inv)
    ensures cache.Sound(bp)
    ensures old(cache.entries).Keys <= cache.entries.Keys
    decreases inv.min
  {
    if inv.min == 0 {
      return inv.geo;
    }
    var maxGeodes := 0;
    if inv in cache.entries {
      return cache.entries[inv];
    }
    if CanBuildGeode(bp, inv) {
      geodes := Search2(bp, cache, BuildGeode(bp, inv));
      return;
    }
    if inv.min == 1 {
      return inv.geo + inv.geoR;
    }
    if CanBuildObs(bp, inv) {
      var g := Search2(bp, cache, BuildObs(bp, inv));
      if g > maxGeodes {
        maxGeodes := g;
      }
    }
    if inv.min == 2 {
      return inv.geo + inv.geoR * 2;
    }
    if CanBuildClay(bp, inv) {
      var g := Search2(bp, cache, BuildClay(bp, inv));
      if g > maxGeodes {
        maxGeodes := g;
      }
    }
    if CanBuildOre(bp, inv) {
      var g := Search2(bp, cache, BuildOre(bp, inv));
      if g > maxGeodes {
        maxGeodes := g;
      }
    }
    var g := Search2(bp, cache, Produce(inv));
    if g > maxGeodes {
      maxGeodes := g;
    }
    cache.entries := cache.entries[inv := maxGeodes];
    return maxGeodes;
  }

  /** `search`: a fresh cache per call. */
  method Search(bp: Blueprint, minutesLeft: int) returns (geodes: int)
    requires minutesLeft >= 0
    ensures geodes == Geodes(bp, DefaultInv(minutesLeft))
    ensures 0 <= geodes <= Triangle(minutesLeft)
  {
    var cache := new Cache();
    geodes := Search2(bp, cache, DefaultInv(minutesLeft));
    GeodesLowerBound(bp, DefaultInv(minutesLeft));
    GeodesUpperBound(bp, DefaultInv(minutesLeft));
  }

  /** Part 1: the sum of each blueprint's result over `minutes` times its
      number. */
  function QualitySum(bps: seq<Blueprint>, minutes: nat): int
  {
    if bps == [] then 0
    else QualitySum(bps[..|bps| - 1], minutes) + Geodes(bps[|bps| - 1], DefaultInv(minutes)) * bps[|bps| - 1].nr
  }

  /** Part 2: the product of the results over `minutes`, starting from 1. */
  function GeodeProduct(bps: seq<Blueprint>, minutes: nat): int
  {
    if bps == [] then 1
    else GeodeProduct(bps[..|bps| - 1], minutes) * Geodes(bps[|bps| - 1], DefaultInv(minutes))
  }

  /** Every factor is at most `Triangle(minutes)`, the most geodes one
      blueprint can yield, so the product is at most its power. */
  lemma {:induction false} GeodeProductBounds(bps: seq<Blueprint>, minutes: nat)
    ensures 0 <= GeodeProduct(bps, minutes) <= Power(Triangle(minutes), |bps|)
  {
    if bps != [] {
      var last := bps[|bps| - 1];
      GeodeProductBounds(bps[..|bps| - 1], minutes);
      GeodesLowerBound(last, DefaultInv(minutes));
      GeodesUpperBound(last, DefaultInv(minutes));
      MulMonotone(GeodeProduct(bps[..|bps| - 1], minutes), Power(Triangle(minutes), |bps| - 1),
                  Geodes(last, DefaultInv(minutes)), Triangle(minutes));
    }
  }

  function Power(b: nat, e: nat): (p: nat)
  {
    if e == 0 then 1 else Power(b, e - 1) * b
  }

  lemma MulMonotone(a: int, a2: int, b: int, b2: int)
    requires 0 <= a <= a2 && 0 <= b <= b2
    ensures 0 <= a * b <= a2 * b2
  {
  }

  /** Part 1's parallel map-and-sum, as a sequential fold (the sum
      commutes, so the order does not matter). */
  method SumQualities(bps: seq<Blueprint>) returns (p1: int)
    ensures p1 == QualitySum(bps, 24)
  {
    p1 := 0;
    for i := 0 to |bps|
      invariant p1 == QualitySum(bps[..i], 24)
    {
      var g := Search(bps[i], 24);
      assert bps[..i + 1][..i] == bps[..i];
      p1 := p1 + g * bps[i].nr;
    }
    assert bps[..|bps|] == bps;
  }

  /** Part 2's parallel map-and-reduce with identity 1, as a sequential
      fold. */
  method MultiplyGeodes(bps: seq<Blueprint>) returns (p2: int)
    ensures p2 == GeodeProduct(bps, 32)
  {
    p2 := 1;
    for i := 0 to |bps|
      invariant p2 == GeodeProduct(bps[..i], 32)
    {
      var g := Search(bps[i], 32);
      assert bps[..i + 1][..i] == bps[..i];
      p2 := p2 * g;
    }
    assert bps[..|bps|] == bps;
  }

  /** `solve`: slicing the first three blueprints panics when there are
      fewer than three, which is `None` here. */
  method Solve(bps: seq<Blueprint>) returns (r: Option<(int, int)>)
    ensures r.None? <==> |bps| < 3
    ensures r.Some? ==> r.value == (QualitySum(bps, 24), GeodeProduct(bps[..3], 32))
  {
    var p1 := SumQualities(bps);
    if |bps| < 3 {
      return None;
    }
    var p2 := MultiplyGeodes(bps[..3]);
    r := Some((p1, p2));
  }
}
