/**
  The common subframe allocation (CSA) pattern: one radio frame in eight whose
  six subframes all MBSFN areas of a cluster share, first for their MCCHs and
  then, as far as subframes are free, for data.

  A six-bit pattern is the set of its subframes, counted from the 0x20 bit.
*/
module CommonCsa {
  import opened Common

  const SUBFRAMES := 6

  type Pattern = set<nat>

  /** Occurrences of the common pattern, in every eighth radio frame, in the CSA period of 128. */
  const REPETITIONS := 16

  /** Exclusive or. */
  function Xor(x: Pattern, y: Pattern): Pattern {
    (x - y) + (y - x)
  }

  // ---- Taking free subframes ----

  predicate IsLeast(x: Pattern, k: nat) {
    k in x && forall i | i in x :: k <= i
  }

  lemma {:induction false} LeastExists(x: Pattern)
    requires x != {}
    ensures exists k :: IsLeast(x, k)
  {
    var k :| k in x;
    if x == {k} {
      assert IsLeast(x, k);
    } else {
      LeastExists(x - {k});
      var l :| IsLeast(x - {k}, l);
      assert forall i | i in x :: i == k || i in x - {k};
      assert IsLeast(x, if k < l then k else l);
    }
  }

  /** The first subframe of a pattern. */
  function Least(x: Pattern): (k: nat)
    requires x != {}
    ensures IsLeast(x, k)
  {
    LeastExists(x);
    var k :| IsLeast(x, k);
    k
  }

  datatype Taken = Taken(subframes: Pattern, need: int)

  /** Free subframes are taken in order until the need is met; each serves `per` of it. */
  function Take(free: Pattern, need: int, per: int): Taken
    decreases free
  {
    if free == {} then Taken({}, need)
    else
      var k := Least(free);
      if need - per <= 0 then Taken({k}, 0)
      else
        var rest := Take(free - {k}, need - per, per);
        rest.(subframes := {k} + rest.subframes)
  }

  predicate IsPattern(x: Pattern) {
    forall k | k in x :: k < SUBFRAMES
  }

  function From(x: Pattern, k: nat): Pattern {
    set i | i in x && i >= k
  }

  /**
    The loop over a pattern. The source shifts the free subframes left and
    tests one bit; the two bits above it only keep the loop alive.
  */
  method Reuse(pattern: Pattern, free: Pattern, need: int, per: int) returns (reused: Pattern, left: int)
    requires IsPattern(free)
    ensures reused == pattern + Take(free, need, per).subframes
    ensures left == Take(free, need, per).need
  {
    reused, left := pattern, need;
    var k: nat := 0;
    ghost var result := Take(free, need, per);
    assert From(free, 0) == free;
    while k < SUBFRAMES
      invariant 0 <= k <= SUBFRAMES
      invariant reused + Take(From(free, k), left, per).subframes == pattern + result.subframes
      invariant Take(From(free, k), left, per).need == result.need
    {
      if k in free {
        FirstFrom(free, k);
        reused := reused + {k};
        left := left - per;
        if left <= 0 {
          left := 0;
          return;
        }
      } else {
        assert From(free, k) == From(free, k + 1);
      }
      k := k + 1;
    }
    assert From(free, SUBFRAMES) == {};
  }

  lemma FirstFrom(free: Pattern, k: nat)
    requires k in free
    ensures k in From(free, k) && Least(From(free, k)) == k && From(free, k) - {k} == From(free, k + 1)
  {
    assert k in From(free, k);
    assert IsLeast(From(free, k), Least(From(free, k)));
  }

  /** What is taken is free; the first free subframe is taken; if need remains, nothing free is left. */
  lemma {:induction false} TakenIsFree(free: Pattern, need: int, per: int)
    ensures var r := Take(free, need, per);
            && r.subframes <= free
            && (free != {} ==> Least(free) in r.subframes)
            && (need > 0 && r.need > 0 ==> r.subframes == free)
    decreases free
  {
    if free == {} {
    } else {
      TakenIsFree(free - {Least(free)}, need - per, per);
    }
  }

  /** The need that remains is what the subframes taken do not serve, and no fewer would have served it. */
  lemma {:induction false} TakenServes(free: Pattern, need: int, per: int)
    requires need > 0 && per > 0
    ensures var r := Take(free, need, per);
            var n := |r.subframes|;
            && r.need == (if need > n * per then need - n * per else 0)
            && (n > 0 ==> need > (n - 1) * per)
    decreases free
  {
    if free == {} {
    } else if need - per <= 0 {
      assert |{Least(free)}| == 1 && 1 * per == per;
    } else {
      var k := Least(free);
      TakenServes(free - {k}, need - per, per);
      TakenIsFree(free - {k}, need - per, per);
      var rest := Take(free - {k}, need - per, per).subframes;
      assert |{k} + rest| == |rest| + 1;
      OneMore(|rest|, per);
    }
  }

  lemma OneMore(n: nat, per: int)
    ensures (n + 1) * per == n * per + per
    ensures n > 0 ==> (n - 1) * per + per == n * per
  {
  }

  // ---- One group of areas ----

  /**
    An area's MCCH subframes, the subframes it needs per CSA period, and how
    many of these the patterns other than the common one can still give it.
  */
  datatype Area = Area(mcch: Pattern, need: int, elsewhere: nat)

  /** The need for data, when the MCCH subframes serve in all repetitions but one. */
  function DataNeed(area: Area): int {
    if area.need == 0 then 0 else area.need - (REPETITIONS - 1)
  }

  /** The subframes the source takes for free ones: an exclusive or with those MBSFN may use. */
  function Free(common: Pattern, union: Pattern, mask: Pattern): Pattern {
    Xor(common + union, mask)
  }

  /** The data subframes an area is given in the common pattern. */
  function Data(area: Area, common: Pattern, union: Pattern, mask: Pattern): Pattern {
    if DataNeed(area) <= 0 then {} else Take(Free(common, union, mask), DataNeed(area), REPETITIONS).subframes
  }

  function PatternOf(area: Area, common: Pattern, union: Pattern, mask: Pattern): Pattern {
    area.mcch + Data(area, common, union, mask)
  }

  /** What an area still needs after the common pattern. */
  function Left(area: Area, common: Pattern, union: Pattern, mask: Pattern): int {
    if DataNeed(area) <= 0 then 0 else Take(Free(common, union, mask), DataNeed(area), REPETITIONS).need
  }

  /** One area; what it still needs afterwards goes to other patterns. */
  method ScheduleArea(area: Area, common: Pattern, union: Pattern, mask: Pattern) returns (pattern: Pattern, left: int)
    requires IsPattern(common) && IsPattern(union) && IsPattern(mask)
    ensures pattern == PatternOf(area, common, union, mask) && left == Left(area, common, union, mask)
    ensures left >= 0 && (left > 0 ==> Free(common, union, mask) <= pattern)
  {
    pattern, left := area.mcch, area.need;
    if left != 0 {
      left := left - (REPETITIONS - 1);
    }
    if left <= 0 {
      return pattern, 0;
    }
    var free := Free(common, union, mask);
    TakenIsFree(free, left, REPETITIONS);
    TakenServes(free, left, REPETITIONS);
    if free != {} {
      pattern, left := Reuse(pattern, free, left, REPETITIONS);
    }
  }

  function UnionOf(patterns: seq<Pattern>): Pattern {
    if patterns == [] then {} else UnionOf(patterns[..|patterns|-1]) + patterns[|patterns|-1]
  }

  /** The patterns of a group, each area seeing what the areas before it were given. */
  function Patterns(areas: seq<Area>, common: Pattern, mask: Pattern): (ps: seq<Pattern>)
    ensures |ps| == |areas|
  {
    if areas == [] then []
    else
      var before := Patterns(areas[..|areas|-1], common, mask);
      before + [PatternOf(areas[|areas|-1], common, UnionOf(before), mask)]
  }

  /** Every area of a group is given all it needs; otherwise the source schedules nothing. */
  predicate Scheduled(areas: seq<Area>, common: Pattern, mask: Pattern) {
    areas == [] ||
    (var n := |areas| - 1;
     && Scheduled(areas[..n], common, mask)
     && Left(areas[n], common, UnionOf(Patterns(areas[..n], common, mask)), mask) <= areas[n].elsewhere)
  }

  lemma {:induction false} ScheduledSnoc(areas: seq<Area>, common: Pattern, mask: Pattern, n: nat)
    requires n < |areas|
    ensures Scheduled(areas[..n+1], common, mask) <==>
            && Scheduled(areas[..n], common, mask)
            && Left(areas[n], common, UnionOf(Patterns(areas[..n], common, mask)), mask) <= areas[n].elsewhere
  {
    assert areas[..n+1][..n] == areas[..n];
  }

  lemma {:induction false} ScheduledPrefix(areas: seq<Area>, common: Pattern, mask: Pattern, n: nat)
    requires n <= |areas| && Scheduled(areas, common, mask)
    ensures Scheduled(areas[..n], common, mask)
    decreases |areas| - n
  {
    if n == |areas| {
      assert areas[..n] == areas;
    } else {
      ScheduledPrefix(areas, common, mask, n + 1);
      ScheduledSnoc(areas, common, mask, n);
    }
  }

  lemma {:induction false} PatternsSnoc(areas: seq<Area>, common: Pattern, mask: Pattern, n: nat)
    requires n < |areas|
    ensures var before := Patterns(areas[..n], common, mask);
            Patterns(areas[..n+1], common, mask) == before + [PatternOf(areas[n], common, UnionOf(before), mask)]
  {
    assert areas[..n+1][..n] == areas[..n];
  }

  lemma {:induction false} UnionSnoc(patterns: seq<Pattern>, pattern: Pattern)
    ensures UnionOf(patterns + [pattern]) == UnionOf(patterns) + pattern
  {
    assert (patterns + [pattern])[..|patterns|] == patterns;
  }

  /** One round of the loop: the area's pattern, the union with it, and whether the rest of its need fits elsewhere. */
  method ScheduleNext(area: Area, common: Pattern, union: Pattern, mask: Pattern)
    returns (ok: bool, pattern: Pattern, more: Pattern)
    requires IsPattern(common) && IsPattern(union) && IsPattern(mask) && IsPattern(area.mcch)
    ensures ok <==> Left(area, common, union, mask) <= area.elsewhere
    ensures pattern == PatternOf(area, common, union, mask)
    ensures more == union + pattern && IsPattern(more)
  {
    var left;
    pattern, left := ScheduleArea(area, common, union, mask);
    DataIsPattern(area, common, union, mask);
    ok, more := left <= area.elsewhere, union + pattern;
  }

  /** The loop over a group of areas; the union starts empty for each group. */
  method ScheduleGroup(areas: seq<Area>, common: Pattern, mask: Pattern) returns (patterns: Option<seq<Pattern>>)
    requires IsPattern(common) && IsPattern(mask) && forall i | 0 <= i < |areas| :: IsPattern(areas[i].mcch)
    ensures patterns.Some? <==> Scheduled(areas, common, mask)
    ensures patterns.Some? ==> patterns.value == Patterns(areas, common, mask)
  {
    var ps: seq<Pattern> := [];
    var union: Pattern := {};
    for n := 0 to |areas|
      invariant ps == Patterns(areas[..n], common, mask) && Scheduled(areas[..n], common, mask)
      invariant union == UnionOf(ps) && IsPattern(union)
    {
      PatternsSnoc(areas, common, mask, n);
      ScheduledSnoc(areas, common, mask, n);
      var ok, pattern, more := ScheduleNext(areas[n], common, union, mask);
      if !ok {
        if Scheduled(areas, common, mask) {
          ScheduledPrefix(areas, common, mask, n + 1);
        }
        return None;
      }
      UnionSnoc(ps, pattern);
      union := more;
      ps := ps + [pattern];
    }
    assert areas[..|areas|] == areas;
    return Some(ps);
  }

  lemma DataIsPattern(area: Area, common: Pattern, union: Pattern, mask: Pattern)
    requires IsPattern(common) && IsPattern(union) && IsPattern(mask)
    ensures IsPattern(Data(area, common, union, mask))
  {
    TakenIsFree(Free(common, union, mask), DataNeed(area), REPETITIONS);
  }

  /**
    What an area's need is met with: fifteen repetitions of its MCCH subframe,
    sixteen of every data subframe, and what is left for other patterns. No
    subframe is given that the others would do without.
  */
  lemma NeedIsMet(area: Area, common: Pattern, union: Pattern, mask: Pattern)
    requires area.need > 0
    ensures var data, left := Data(area, common, union, mask), Left(area, common, union, mask);
            && 15 + 16 * |data| + left >= area.need && left >= 0
            && (left > 0 ==> 15 + 16 * |data| + left == area.need)
            && (data != {} ==> 15 + 16 * (|data| - 1) < area.need)
  {
    if DataNeed(area) > 0 {
      TakenServes(Free(common, union, mask), DataNeed(area), REPETITIONS);
    }
  }

  // ---- Who is given what ----

  /**
    A cluster's MCCH subframes, gathered in the common pattern, do not overlap,
    which the source asserts. They are among the subframes MBSFN may use, which
    its exclusive or takes for granted.
  */
  ghost predicate Sane(areas: seq<Area>, common: Pattern, mask: Pattern) {
    && (forall i | 0 <= i < |areas| :: areas[i].mcch <= common)
    && (forall i, j | 0 <= i < j < |areas| :: areas[i].mcch !! areas[j].mcch)
    && common <= mask
  }

  /** Data subframes are neither anybody's MCCH subframe nor given away before. */
  lemma DataIsFree(area: Area, common: Pattern, union: Pattern, mask: Pattern)
    requires common <= mask && union <= mask
    ensures Data(area, common, union, mask) <= mask - common - union
    ensures Data(area, common, union, mask) != {} ==> DataNeed(area) > 0
    ensures DataNeed(area) > 0 && mask - common - union != {} ==>
              Least(mask - common - union) in Data(area, common, union, mask)
  {
    assert Free(common, union, mask) == mask - common - union;
    TakenIsFree(Free(common, union, mask), DataNeed(area), REPETITIONS);
  }

  /** A pattern is the area's MCCH subframes and data subframes outside the common pattern, if it needs them. */
  ghost predicate Rightful(area: Area, p: Pattern, common: Pattern, mask: Pattern) {
    && area.mcch <= p <= mask
    && (p - area.mcch) !! common
    && (p != area.mcch ==> DataNeed(area) > 0)
  }

  lemma PatternRightful(area: Area, common: Pattern, union: Pattern, mask: Pattern)
    requires area.mcch <= common <= mask && union <= mask
    ensures Rightful(area, PatternOf(area, common, union, mask), common, mask)
  {
    DataIsFree(area, common, union, mask);
  }

  lemma {:induction false} InUnion(ps: seq<Pattern>, i: nat)
    requires i < |ps|
    ensures ps[i] <= UnionOf(ps)
  {
    if i == |ps| - 1 {
    } else {
      InUnion(ps[..|ps|-1], i);
    }
  }

  lemma {:induction false} PatternAt(areas: seq<Area>, common: Pattern, mask: Pattern, i: nat)
    requires i < |areas|
    ensures Patterns(areas, common, mask)[i] ==
            PatternOf(areas[i], common, UnionOf(Patterns(areas[..i], common, mask)), mask)
  {
    if i == |areas| - 1 {
    } else {
      PatternAt(areas[..|areas|-1], common, mask, i);
      assert areas[..|areas|-1][..i] == areas[..i];
    }
  }

  lemma {:induction false} UnionWithin(areas: seq<Area>, common: Pattern, mask: Pattern)
    requires Sane(areas, common, mask)
    ensures UnionOf(Patterns(areas, common, mask)) <= mask
  {
    if areas == [] {
    } else {
      var n := |areas| - 1;
      var before := Patterns(areas[..n], common, mask);
      UnionWithin(areas[..n], common, mask);
      PatternRightful(areas[n], common, UnionOf(before), mask);
      assert Patterns(areas, common, mask)[..n] == before;
    }
  }

  lemma {:induction false} PatternsExact(areas: seq<Area>, common: Pattern, mask: Pattern, i: nat)
    requires Sane(areas, common, mask) && i < |areas|
    ensures Rightful(areas[i], Patterns(areas, common, mask)[i], common, mask)
  {
    PatternAt(areas, common, mask, i);
    UnionWithin(areas[..i], common, mask);
    PatternRightful(areas[i], common, UnionOf(Patterns(areas[..i], common, mask)), mask);
  }

  /** Within one group no subframe is given to two areas. */
  lemma {:induction false} GroupDisjoint(areas: seq<Area>, common: Pattern, mask: Pattern)
    requires Sane(areas, common, mask)
    ensures var ps := Patterns(areas, common, mask); forall i, j | 0 <= i < j < |ps| :: ps[i] !! ps[j]
  {
    if areas == [] {
    } else {
      var n := |areas| - 1;
      var before := Patterns(areas[..n], common, mask);
      GroupDisjoint(areas[..n], common, mask);
      UnionWithin(areas[..n], common, mask);
      DataIsFree(areas[n], common, UnionOf(before), mask);
      forall i | 0 <= i < n ensures before[i] !! PatternOf(areas[n], common, UnionOf(before), mask) {
        PatternsExact(areas[..n], common, mask, i);
        InUnion(before, i);
        assert before[i] == areas[i].mcch + (before[i] - areas[i].mcch);
        assert areas[i].mcch !! areas[n].mcch;
      }
    }
  }

  ghost predicate Needy(areas: seq<Area>) {
    exists i | 0 <= i < |areas| :: DataNeed(areas[i]) > 0
  }

  /** As long as nobody needs data, the union is MCCH subframes only. */
  lemma {:induction false} NobodyNeedy(areas: seq<Area>, common: Pattern, mask: Pattern)
    requires Sane(areas, common, mask) && !Needy(areas)
    ensures UnionOf(Patterns(areas, common, mask)) <= common
  {
    if areas == [] {
    } else {
      var init := areas[..|areas|-1];
      assert forall i | 0 <= i < |init| :: init[i] == areas[i];
      NobodyNeedy(init, common, mask);
      var ps := Patterns(areas, common, mask);
      assert ps[..|areas|-1] == Patterns(init, common, mask);
    }
  }

  /** The first area of a group that needs data is given the first subframe outside the common pattern. */
  lemma {:induction false} FirstSubframeGoes(areas: seq<Area>, common: Pattern, mask: Pattern) returns (at: nat)
    requires Sane(areas, common, mask) && Needy(areas) && common != mask
    ensures mask - common != {}
    ensures at < |areas| && Least(mask - common) in Patterns(areas, common, mask)[at]
  {
    var k :| k in mask && k !in common;
    assert k in mask - common;
    var n := |areas| - 1;
    var init := areas[..n];
    assert forall i | 0 <= i < n :: init[i] == areas[i];
    if Needy(init) {
      at := FirstSubframeGoes(init, common, mask);
    } else {
      NobodyNeedy(init, common, mask);
      FirstNeedyServed(areas[n], common, UnionOf(Patterns(init, common, mask)), mask);
      at := n;
    }
  }

  lemma FirstNeedyServed(area: Area, common: Pattern, union: Pattern, mask: Pattern)
    requires union <= common <= mask && mask - common != {} && DataNeed(area) > 0
    ensures Least(mask - common) in PatternOf(area, common, union, mask)
  {
    DataIsFree(area, common, union, mask);
    assert mask - common - union == mask - common;
  }

  ghost predicate Collide(ps: seq<Pattern>, qs: seq<Pattern>) {
    exists i, j | 0 <= i < |ps| && 0 <= j < |qs| :: ps[i] * qs[j] != {}
  }

  /**
    A cluster schedules its global areas and then its local ones, each group
    with a union of its own. In the patterns of the two groups a subframe is
    given to a global and to a local area if and only if both groups have an
    area that needs data and some subframe is nobody's MCCH subframe.
  */
  lemma GroupsCollideIff(globals: seq<Area>, locals: seq<Area>, common: Pattern, mask: Pattern)
    requires Sane(globals + locals, common, mask)
    ensures Collide(Patterns(globals, common, mask), Patterns(locals, common, mask)) <==>
            common != mask && Needy(globals) && Needy(locals)
  {
    SaneParts(globals, locals, common, mask);
    var ps, qs := Patterns(globals, common, mask), Patterns(locals, common, mask);
    if Collide(ps, qs) {
      var i, j :| 0 <= i < |ps| && 0 <= j < |qs| && ps[i] * qs[j] != {};
      PatternsExact(globals, common, mask, i);
      PatternsExact(locals, common, mask, j);
      CollisionMeans(globals[i], ps[i], locals[j], qs[j], common, mask);
    }
    if common != mask && Needy(globals) && Needy(locals) {
      var i := FirstSubframeGoes(globals, common, mask);
      var j := FirstSubframeGoes(locals, common, mask);
      assert Least(mask - common) in ps[i] * qs[j];
    }
  }

  /** The two groups of a cluster. If one of them does not fit, nothing is scheduled. */
  method ScheduleCluster(globals: seq<Area>, locals: seq<Area>, common: Pattern, mask: Pattern)
    returns (patterns: Option<(seq<Pattern>, seq<Pattern>)>)
    requires IsPattern(common) && IsPattern(mask)
    requires forall i | 0 <= i < |globals| :: IsPattern(globals[i].mcch)
    requires forall i | 0 <= i < |locals| :: IsPattern(locals[i].mcch)
    ensures patterns.Some? <==> Scheduled(globals, common, mask) && Scheduled(locals, common, mask)
    ensures patterns.Some? ==> patterns.value == (Patterns(globals, common, mask), Patterns(locals, common, mask))
    ensures patterns.Some? && Sane(globals + locals, common, mask) ==>
              (Collide(patterns.value.0, patterns.value.1) <==> common != mask && Needy(globals) && Needy(locals))
  {
    if Sane(globals + locals, common, mask) {
      GroupsCollideIff(globals, locals, common, mask);
    }
    var ps := ScheduleGroup(globals, common, mask);
    if ps.None? {
      return None;
    }
    var qs := ScheduleGroup(locals, common, mask);
    if qs.None? {
      return None;
    }
    return Some((ps.value, qs.value));
  }

  lemma CollisionMeans(a: Area, p: Pattern, b: Area, q: Pattern, common: Pattern, mask: Pattern)
    requires Rightful(a, p, common, mask) && Rightful(b, q, common, mask)
    requires a.mcch <= common && b.mcch <= common && a.mcch !! b.mcch && p * q != {}
    ensures common != mask && DataNeed(a) > 0 && DataNeed(b) > 0
  {
    var x :| x in p * q;
    assert x in p - a.mcch || x in a.mcch;
    assert x in q - b.mcch || x in b.mcch;
    assert x !in common && x in mask;
  }

  lemma SaneParts(xs: seq<Area>, ys: seq<Area>, common: Pattern, mask: Pattern)
    requires Sane(xs + ys, common, mask)
    ensures Sane(xs, common, mask) && Sane(ys, common, mask)
    ensures forall i, j | 0 <= i < |xs| && 0 <= j < |ys| :: xs[i].mcch !! ys[j].mcch
  {
    var all := xs + ys;
    assert forall i | 0 <= i < |xs| :: xs[i] == all[i];
    assert forall j | 0 <= j < |ys| :: ys[j] == all[|xs| + j];
    forall i, j | 0 <= i < |xs| && 0 <= j < |ys| ensures xs[i].mcch !! ys[j].mcch {
      assert all[i].mcch !! all[|xs| + j].mcch;
    }
  }

  /** Two areas, one global and one local, that are scheduled and given the same subframe. */
  lemma TwoAreasOneSubframe()
    ensures var globals, locals := [Area({0}, 16, 0)], [Area({1}, 16, 0)];
            var common, mask := {0, 1}, {0, 1, 2, 3, 4, 5};
            && Sane(globals + locals, common, mask)
            && Scheduled(globals, common, mask) && Scheduled(locals, common, mask)
            && Collide(Patterns(globals, common, mask), Patterns(locals, common, mask))
  {
    var globals, locals := [Area({0}, 16, 0)], [Area({1}, 16, 0)];
    var common, mask: Pattern := {0, 1}, {0, 1, 2, 3, 4, 5};
    assert 2 in mask && 2 !in common;
    GroupsCollideIff(globals, locals, common, mask);
    OneSubframeIsEnough(globals[0], common, mask);
    OneSubframeIsEnough(locals[0], common, mask);
  }

  /** An area alone that needs sixteen subframes is given one of the free ones for what its MCCH does not serve. */
  lemma OneSubframeIsEnough(area: Area, common: Pattern, mask: Pattern)
    requires area.need == REPETITIONS && common < mask
    ensures Scheduled([area], common, mask) && DataNeed(area) == 1
  {
    var free := Free(common, {}, mask);
    var k :| k in mask && k !in common;
    assert k in free;
    assert Take(free, 1, REPETITIONS).need == 0;
    assert Left(area, common, {}, mask) == 0;
    ScheduledSnoc([area], common, mask, 0);
    assert [area][..0] == [] && [area][..1] == [area];
    assert UnionOf(Patterns([], common, mask)) == {};
  }
}
