/**
  The MCCH subframes MBSFN areas are given when they are created. MBSFN areas
  belong to an MBMS area: 0 for the global ones, else a local one. There is no
  way to remove one.
*/
module McchSubframes {
  import opened Common
  import opened CommonCsa

  /** The subframes MBSFN may use, the number of global service areas, and whether those are kept per local group. */
  datatype Config = Config(total: Pattern, globals: nat, perLocalGroup: bool)

  ghost predicate ValidConfig(cfg: Config) {
    IsPattern(cfg.total) && (!cfg.perLocalGroup ==> cfg.globals <= |cfg.total|)
  }

  /** A pattern shifted left: what is shifted out is lost. */
  function Shifted(x: Pattern, n: nat): Pattern {
    set i | i in x && i >= n :: i - n
  }

  /** What the source takes for free: an exclusive or with all subframes given out, in any order. */
  function Available(total: Pattern, taken: seq<Pattern>): Pattern {
    if taken == [] then total else Xor(Available(total, taken[..|taken|-1]), taken[|taken|-1])
  }

  /**
    The subframes given to the next area of MBMS area `local`; none if it is
    refused. With areas kept per local group the source returns the rest of the
    pattern it was searching. Without, the count of free subframes passed goes
    up without moving on, so that the first free one is found whatever is
    sought, unless the uint8_t count can never reach it.
  */
  function Given(cfg: Config, local: nat, sai: nat, taken: seq<Pattern>): Option<Pattern> {
    var free := Available(cfg.total, taken);
    if cfg.perLocalGroup then
      Some(if |cfg.total| == |taken| || free == {} then {} else Shifted(free, Least(free)))
    else if (|cfg.total| == cfg.globals && local != 0) || free == {} then Some({})
    else if local == 0 && sai >= U8 then None
    else Some({Least(free)})
  }

  // ---- The search ----

  lemma ShiftedOnce(x: Pattern, k: nat)
    ensures Shifted(Shifted(x, k), 1) == Shifted(x, k + 1)
  {
    forall i | i in Shifted(x, k + 1) ensures i in Shifted(Shifted(x, k), 1) {
      assert i + k + 1 in x;
      assert i + 1 in Shifted(x, k);
    }
  }

  lemma NotYet(x: Pattern, k: nat)
    requires 0 !in Shifted(x, k) && forall i | i in x :: i >= k
    ensures forall i | i in x :: i >= k + 1
  {
    forall i | i in x ensures i >= k + 1 {
      assert i - k in Shifted(x, k);
    }
  }

  lemma FoundLeast(x: Pattern, k: nat)
    requires 0 in Shifted(x, k) && forall i | i in x :: i >= k
    ensures x != {} && Least(x) == k
  {
    assert k in x;
    assert IsLeast(x, Least(x));
  }

  lemma InsidePattern(x: Pattern, k: nat)
    requires IsPattern(x) && Shifted(x, k) != {}
    ensures k < SUBFRAMES
  {
    var i :| i in Shifted(x, k);
  }

  lemma ShiftedByNone(x: Pattern)
    ensures Shifted(x, 0) == x
  {
    forall i | i in x ensures i in Shifted(x, 0) {
      assert i - 0 in Shifted(x, 0);
    }
  }

  /** The search with areas kept per local group; what it returns is the pattern as shifted. */
  method SearchShifted(available: Pattern) returns (left: Pattern)
    requires IsPattern(available)
    ensures left == if available == {} then {} else Shifted(available, Least(available))
  {
    left := available;
    var k: nat := 0;
    ShiftedByNone(available);
    while left != {}
      invariant left == Shifted(available, k) && forall i | i in available :: i >= k
      decreases SUBFRAMES - k
    {
      if 0 in left {
        FoundLeast(available, k);
        return;
      }
      InsidePattern(available, k);
      NotYet(available, k);
      ShiftedOnce(available, k);
      k := k + 1;
      left := Shifted(left, 1);
    }
    ShiftedEmptyIff(available, k);
  }

  lemma ShiftedEmptyIff(x: Pattern, k: nat)
    requires forall i | i in x :: i >= k
    ensures Shifted(x, k) == {} <==> x == {}
  {
    if x != {} {
      var i :| i in x;
      assert i - k in Shifted(x, k);
    }
  }

  function Next(count: nat): nat {
    if count + 1 == U8 then 0 else count + 1
  }

  /** The search without; the count wraps, and does not come with a shift. */
  method SearchCounted(available: Pattern, local: nat, sai: nat, globals: nat) returns (mcch: Option<Pattern>)
    requires IsPattern(available) && (local != 0 ==> globals < SUBFRAMES)
    ensures mcch == if available == {} then Some({})
                    else if local == 0 && sai >= U8 then None
                    else Some({Least(available)})
  {
    var left, k: nat, matched: nat := available, 0, 0;
    ShiftedByNone(available);
    while left != {}
      invariant left == Shifted(available, k) && forall i | i in available :: i >= k
      invariant matched < U8 && (local != 0 ==> matched <= globals)
      decreases SUBFRAMES - k, if local != 0 then globals - matched else (sai - matched - 1) % U8
    {
      if 0 !in left {
        InsidePattern(available, k);
        NotYet(available, k);
        ShiftedOnce(available, k);
        k := k + 1;
        left := Shifted(left, 1);
        continue;
      }
      FoundLeast(available, k);
      if local == 0 && sai >= U8 {
        // No count of eight bits gets there.
        return None;
      }
      matched := Next(matched);
      if local == 0 {
        if matched == sai {
          return Some({k});
        }
      } else if matched > globals {
        return Some({k});
      }
    }
    ShiftedEmptyIff(available, k);
    return Some({});
  }

  /** The subframes still free, area by area. */
  method FreeOf(total: Pattern, taken: seq<Pattern>) returns (available: Pattern)
    ensures available == Available(total, taken)
  {
    available := total;
    for n := 0 to |taken|
      invariant available == Available(total, taken[..n])
    {
      assert taken[..n+1][..n] == taken[..n];
      available := Xor(available, taken[n]);
    }
    assert taken[..|taken|] == taken;
  }

  lemma {:induction false} AvailableIsPattern(total: Pattern, taken: seq<Pattern>)
    requires IsPattern(total) && forall i | 0 <= i < |taken| :: IsPattern(taken[i])
    ensures IsPattern(Available(total, taken))
  {
    if taken == [] {
    } else {
      AvailableIsPattern(total, taken[..|taken|-1]);
    }
  }

  method NextSubframes(cfg: Config, local: nat, sai: nat, taken: seq<Pattern>) returns (mcch: Option<Pattern>)
    requires ValidConfig(cfg) && forall i | 0 <= i < |taken| :: IsPattern(taken[i])
    ensures mcch == Given(cfg, local, sai, taken)
  {
    AvailableIsPattern(cfg.total, taken);
    CardBelow(cfg.total, 0, SUBFRAMES);
    if cfg.perLocalGroup {
      if |cfg.total| == |taken| {
        return Some({});
      }
      var available := FreeOf(cfg.total, taken);
      var left := SearchShifted(available);
      return Some(left);
    }
    if |cfg.total| == cfg.globals && local != 0 {
      return Some({});
    }
    var available := FreeOf(cfg.total, taken);
    mcch := SearchCounted(available, local, sai, cfg.globals);
  }

  // ---- Creating areas ----

  datatype McchArea = McchArea(local: nat, mcch: Pattern)

  /** A new MBSFN area in an MBMS area, for a service area. */
  datatype Request = Request(local: nat, sai: nat)

  /** The callers only pass the configured global service areas as global ones, and their number is a uint8_t. */
  predicate Valid(r: Request) {
    r.local == 0 ==> r.sai < U8
  }

  /** The MCCH subframes given out in one MBMS area. */
  function Own(areas: seq<McchArea>, local: nat): seq<Pattern> {
    if areas == [] then []
    else Own(areas[..|areas|-1], local) + if areas[|areas|-1].local == local then [areas[|areas|-1].mcch] else []
  }

  /** An area that is given no subframe is not created. */
  function OnCreate(cfg: Config, areas: seq<McchArea>, r: Request): seq<McchArea>
    requires Valid(r)
  {
    var mcch := Given(cfg, r.local, r.sai, Own(areas, r.local)).value;
    if mcch == {} then areas else areas + [McchArea(r.local, mcch)]
  }

  function After(cfg: Config, rs: seq<Request>): seq<McchArea>
    requires forall r | r in rs :: Valid(r)
  {
    if rs == [] then [] else OnCreate(cfg, After(cfg, rs[..|rs|-1]), rs[|rs|-1])
  }

  /** How many areas were asked for in an MBMS area. */
  function Asked(rs: seq<Request>, local: nat): nat {
    if rs == [] then 0 else Asked(rs[..|rs|-1], local) + if rs[|rs|-1].local == local then 1 else 0
  }

  /** The subframes given out in one MBMS area after `n` requests for it. */
  function Granted(cfg: Config, local: nat, n: nat): seq<Pattern> {
    if n == 0 then []
    else
      var before := Granted(cfg, local, n - 1);
      var mcch := Given(cfg, local, 0, before).value;
      if mcch == {} then before else before + [mcch]
  }

  lemma OwnSnoc(areas: seq<McchArea>, area: McchArea, local: nat)
    ensures Own(areas + [area], local) == Own(areas, local) + if area.local == local then [area.mcch] else []
  {
    assert (areas + [area])[..|areas|] == areas;
  }

  lemma OwnAfterCreate(cfg: Config, areas: seq<McchArea>, r: Request, local: nat)
    requires Valid(r)
    ensures var mcch := Given(cfg, local, 0, Own(areas, local)).value;
            Own(OnCreate(cfg, areas, r), local) == Own(areas, local) +
                                                   if r.local == local && mcch != {} then [mcch] else []
  {
    var mcch := Given(cfg, r.local, r.sai, Own(areas, r.local)).value;
    assert mcch == Given(cfg, r.local, 0, Own(areas, r.local)).value;
    OwnSnoc(areas, McchArea(r.local, mcch), local);
  }

  /** MBMS areas do not know of each other, and the service area does not matter. */
  lemma {:induction false} OwnIsGranted(cfg: Config, rs: seq<Request>, local: nat)
    requires forall r | r in rs :: Valid(r)
    ensures Own(After(cfg, rs), local) == Granted(cfg, local, Asked(rs, local))
  {
    if rs == [] {
    } else {
      OwnIsGranted(cfg, rs[..|rs|-1], local);
      OwnAfterCreate(cfg, After(cfg, rs[..|rs|-1]), rs[|rs|-1], local);
    }
  }

  // ---- Without areas per local group ----

  /** Each is the first subframe not given out before. */
  ghost predicate InOrder(total: Pattern, ps: seq<Pattern>) {
    ps == [] ||
    (var rest := total - UnionOf(ps[..|ps|-1]);
     InOrder(total, ps[..|ps|-1]) && rest != {} && ps[|ps|-1] == {Least(rest)})
  }

  ghost predicate Disjoint(ps: seq<Pattern>) {
    forall i, j | 0 <= i < j < |ps| :: ps[i] !! ps[j]
  }

  lemma {:induction false} InOrderShape(total: Pattern, ps: seq<Pattern>)
    requires InOrder(total, ps)
    ensures UnionOf(ps) <= total && |UnionOf(ps)| == |ps|
    ensures Available(total, ps) == total - UnionOf(ps)
    ensures ps != [] ==> total != {} && ps[0] == {Least(total)}
  {
    if ps == [] {
    } else {
      var init := ps[..|ps|-1];
      InOrderShape(total, init);
      if init == [] {
        assert total - UnionOf(init) == total;
      }
    }
  }

  lemma {:induction false} InOrderDisjoint(total: Pattern, ps: seq<Pattern>)
    requires InOrder(total, ps)
    ensures Disjoint(ps)
  {
    if ps == [] {
    } else {
      var n := |ps| - 1;
      InOrderDisjoint(total, ps[..n]);
      forall i | 0 <= i < n ensures ps[i] !! ps[n] {
        InUnion(ps[..n], i);
        assert ps[..n][i] == ps[i];
      }
    }
  }

  /** A local area is refused if all subframes are reserved for global ones. */
  predicate Allowed(cfg: Config, local: nat) {
    local == 0 || cfg.globals != |cfg.total|
  }

  lemma NextInOrder(cfg: Config, local: nat, ps: seq<Pattern>)
    requires !cfg.perLocalGroup && InOrder(cfg.total, ps)
    ensures var mcch := Given(cfg, local, 0, ps).value;
            && |ps| <= |cfg.total|
            && (mcch != {} <==> Allowed(cfg, local) && |ps| < |cfg.total|)
            && (mcch != {} ==> InOrder(cfg.total, ps + [mcch]))
  {
    InOrderShape(cfg.total, ps);
    CardSubset(UnionOf(ps), cfg.total);
    var rest := cfg.total - UnionOf(ps);
    assert rest == {} <==> UnionOf(ps) == cfg.total;
    if rest != {} {
      InOrderSnoc(cfg.total, ps);
    }
  }

  lemma InOrderSnoc(total: Pattern, ps: seq<Pattern>)
    requires InOrder(total, ps) && total - UnionOf(ps) != {}
    ensures InOrder(total, ps + [{Least(total - UnionOf(ps))}])
  {
    var more := ps + [{Least(total - UnionOf(ps))}];
    assert more[..|more|-1] == ps;
  }

  /** Areas are given single subframes in order, as long as there are any. */
  lemma {:induction false} GrantedInOrder(cfg: Config, local: nat, n: nat)
    requires !cfg.perLocalGroup
    ensures InOrder(cfg.total, Granted(cfg, local, n))
    ensures |Granted(cfg, local, n)| ==
            if !Allowed(cfg, local) then 0 else if n <= |cfg.total| then n else |cfg.total|
  {
    if n == 0 {
    } else {
      GrantedInOrder(cfg, local, n - 1);
      NextInOrder(cfg, local, Granted(cfg, local, n - 1));
    }
  }

  // ---- With areas per local group ----

  /** The first area is given all subframes, shifted; a second one, if any, shares subframe 0 with it. */
  lemma {:induction false} GrantedShifted(cfg: Config, local: nat, n: nat)
    requires cfg.perLocalGroup
    ensures Granted(cfg, local, n) ==
            if n == 0 || cfg.total == {} then []
            else
              var first := Shifted(cfg.total, Least(cfg.total));
              if n == 1 || 0 in cfg.total || |cfg.total| == 1 then [first] else [first, Xor(cfg.total, first)]
  {
    if n == 0 {
    } else if cfg.total == {} {
      GrantedShifted(cfg, local, n - 1);
    } else {
      var first := Shifted(cfg.total, Least(cfg.total));
      GrantedShifted(cfg, local, n - 1);
      ShiftedTotal(cfg.total);
      AvailableOne(cfg.total, first);
      AvailableTwo(cfg.total, first);
    }
  }

  lemma AvailableOne(total: Pattern, p: Pattern)
    ensures Available(total, [p]) == Xor(total, p)
  {
    assert [p][..0] == [];
  }

  lemma AvailableTwo(total: Pattern, p: Pattern)
    ensures Available(total, [p, Xor(total, p)]) == {}
  {
    assert [p, Xor(total, p)][..1] == [p];
    AvailableOne(total, p);
  }

  lemma ShiftedTotal(total: Pattern)
    requires total != {}
    ensures var first := Shifted(total, Least(total));
            && 0 in first
            && (0 in total ==> first == total && Xor(total, first) == {})
            && (0 !in total ==> 0 in Xor(total, first) && Least(Xor(total, first)) == 0
                                && Shifted(Xor(total, first), 0) == Xor(total, first))
  {
    var k := Least(total);
    var first := Shifted(total, k);
    assert k - k in first;
    if 0 in total {
      ShiftedByNone(total);
    } else {
      assert 0 in Xor(total, first);
      ShiftedByNone(Xor(total, first));
    }
  }

  // ---- Clusters ----

  /** The areas scheduled together: those of an MBMS area, and the global ones unless these are kept per local group. */
  function Cluster(cfg: Config, areas: seq<McchArea>, local: nat): seq<Pattern> {
    if local == 0 || cfg.perLocalGroup then Own(areas, local) else Own(areas, 0) + Own(areas, local)
  }

  lemma {:induction false} UnionConcat(ps: seq<Pattern>, qs: seq<Pattern>)
    ensures UnionOf(ps + qs) == UnionOf(ps) + UnionOf(qs)
    decreases |qs|
  {
    if qs == [] {
      assert ps + qs == ps;
    } else {
      assert (ps + qs)[..|ps + qs|-1] == ps + qs[..|qs|-1];
      UnionConcat(ps, qs[..|qs|-1]);
    }
  }

  lemma TwoInOrderDisjointIff(total: Pattern, ps: seq<Pattern>, qs: seq<Pattern>)
    requires InOrder(total, ps) && InOrder(total, qs)
    ensures Disjoint(ps + qs) <==> ps == [] || qs == []
  {
    InOrderShape(total, ps);
    InOrderShape(total, qs);
    InOrderDisjoint(total, ps);
    InOrderDisjoint(total, qs);
    if ps == [] {
      assert ps + qs == qs;
    } else if qs == [] {
      assert ps + qs == ps;
    } else {
      var all := ps + qs;
      assert all[0] == all[|ps|] == {Least(total)};
      assert Least(total) in all[0] && Least(total) in all[|ps|];
    }
  }

  /**
    The MCCH subframes of a cluster do not overlap, as the scheduler asserts,
    if and only if: without areas per local group, it is not one of global and
    local areas together; with them, there is only one area, or a second one is
    refused.
  */
  lemma ClusterDisjointIff(cfg: Config, rs: seq<Request>, local: nat)
    requires ValidConfig(cfg) && forall r | r in rs :: Valid(r)
    ensures Disjoint(Cluster(cfg, After(cfg, rs), local)) <==>
            if cfg.perLocalGroup then Asked(rs, local) < 2 || |cfg.total| < 2 || 0 in cfg.total
            else local == 0 || Asked(rs, 0) == 0 || Asked(rs, local) == 0 || cfg.globals == |cfg.total|
  {
    OwnIsGranted(cfg, rs, 0);
    OwnIsGranted(cfg, rs, local);
    if cfg.perLocalGroup {
      ShiftedDisjointIff(cfg, local, Asked(rs, local));
    } else {
      GrantedInOrder(cfg, 0, Asked(rs, 0));
      GrantedInOrder(cfg, local, Asked(rs, local));
      InOrderDisjoint(cfg.total, Own(After(cfg, rs), local));
      TwoInOrderDisjointIff(cfg.total, Own(After(cfg, rs), 0), Own(After(cfg, rs), local));
    }
  }

  lemma ShiftedDisjointIff(cfg: Config, local: nat, n: nat)
    requires cfg.perLocalGroup
    ensures Disjoint(Granted(cfg, local, n)) <==> n < 2 || |cfg.total| < 2 || 0 in cfg.total
  {
    GrantedShifted(cfg, local, n);
    if cfg.total != {} {
      ShiftedTotal(cfg.total);
      assert |cfg.total| > 0;
      if n >= 2 && |cfg.total| >= 2 && 0 !in cfg.total {
        var ps := Granted(cfg, local, n);
        assert 0 in ps[0] && 0 in ps[1];
      }
    }
  }

  /** They are among the subframes MBSFN may use if and only if nothing was shifted. */
  lemma ClusterWithinIff(cfg: Config, rs: seq<Request>, local: nat)
    requires ValidConfig(cfg) && forall r | r in rs :: Valid(r)
    ensures UnionOf(Cluster(cfg, After(cfg, rs), local)) <= cfg.total <==>
            !cfg.perLocalGroup || Asked(rs, local) == 0 || cfg.total == {} || 0 in cfg.total
  {
    OwnIsGranted(cfg, rs, 0);
    OwnIsGranted(cfg, rs, local);
    var ps, qs := Own(After(cfg, rs), 0), Own(After(cfg, rs), local);
    if cfg.perLocalGroup {
      ShiftedWithinIff(cfg, local, Asked(rs, local));
    } else {
      GrantedInOrder(cfg, 0, Asked(rs, 0));
      GrantedInOrder(cfg, local, Asked(rs, local));
      InOrderShape(cfg.total, ps);
      InOrderShape(cfg.total, qs);
      UnionConcat(ps, qs);
    }
  }

  lemma ShiftedWithinIff(cfg: Config, local: nat, n: nat)
    requires cfg.perLocalGroup
    ensures UnionOf(Granted(cfg, local, n)) <= cfg.total <==> n == 0 || cfg.total == {} || 0 in cfg.total
  {
    var ps := Granted(cfg, local, n);
    GrantedShifted(cfg, local, n);
    if n > 0 && cfg.total != {} {
      ShiftedTotal(cfg.total);
      InUnion(ps, 0);
      if 0 in cfg.total {
        assert ps == [cfg.total] && ps[..0] == [];
      }
    }
  }

  /** So this is when the scheduler finds what it asserts and takes for granted. */
  lemma ClusterSaneIff(cfg: Config, rs: seq<Request>, local: nat, areas: seq<Area>)
    requires ValidConfig(cfg) && forall r | r in rs :: Valid(r)
    requires var ps := Cluster(cfg, After(cfg, rs), local);
             |areas| == |ps| && forall i | 0 <= i < |ps| :: areas[i].mcch == ps[i]
    ensures Sane(areas, UnionOf(Cluster(cfg, After(cfg, rs), local)), cfg.total) <==>
            if cfg.perLocalGroup then Asked(rs, local) == 0 || cfg.total == {} || 0 in cfg.total
            else local == 0 || Asked(rs, 0) == 0 || Asked(rs, local) == 0 || cfg.globals == |cfg.total|
  {
    var ps := Cluster(cfg, After(cfg, rs), local);
    ClusterDisjointIff(cfg, rs, local);
    ClusterWithinIff(cfg, rs, local);
    forall i | 0 <= i < |ps| ensures areas[i].mcch <= UnionOf(ps) {
      InUnion(ps, i);
    }
    assert Sane(areas, UnionOf(ps), cfg.total) <==> Disjoint(ps) && UnionOf(ps) <= cfg.total by {
      if Sane(areas, UnionOf(ps), cfg.total) {
        forall i, j | 0 <= i < j < |ps| ensures ps[i] !! ps[j] {
          assert areas[i].mcch !! areas[j].mcch;
        }
      }
    }
  }

  // ---- Clusters that overlap ----

  /** A global and a local area are both given the first subframe. */
  lemma GlobalAndLocalOverlap()
    ensures var cfg := Config({0, 1, 2, 3, 4, 5}, 1, false);
            var rs := [Request(0, 1), Request(1, 2)];
            Cluster(cfg, After(cfg, rs), 1) == [{0}, {0}]
  {
    var cfg := Config({0, 1, 2, 3, 4, 5}, 1, false);
    var rs := [Request(0, 1), Request(1, 2)];
    assert |cfg.total| == 6;
    assert rs[..1] == [Request(0, 1)] && [Request(0, 1)][..0] == [];
    assert Least(cfg.total) == 0 by { assert IsLeast(cfg.total, 0); }
    forall local | local == 0 || local == 1 ensures Granted(cfg, local, 1) == [{0}] {
      assert Granted(cfg, local, 0) == [];
    }
    OwnIsGranted(cfg, rs, 0);
    OwnIsGranted(cfg, rs, 1);
  }

  /** Two local areas where only subframes 1 and 4 may be used. */
  lemma ShiftedAreasOverlap()
    ensures var cfg := Config({1, 4}, 0, true);
            var rs := [Request(1, 1), Request(1, 2)];
            Cluster(cfg, After(cfg, rs), 1) == [{0, 3}, {0, 1, 3, 4}]
  {
    var cfg := Config({1, 4}, 0, true);
    var rs := [Request(1, 1), Request(1, 2)];
    assert |cfg.total| == 2 && 0 !in cfg.total;
    assert rs[..1] == [Request(1, 1)] && [Request(1, 1)][..0] == [];
    OwnIsGranted(cfg, rs, 1);
    GrantedShifted(cfg, 1, 2);
    OneAndFour();
  }

  lemma OneAndFour()
    ensures Least({1, 4}) == 1 && Shifted({1, 4}, 1) == {0, 3} && Xor({1, 4}, {0, 3}) == {0, 1, 3, 4}
  {
    assert IsLeast({1, 4}, Least({1, 4}));
    assert 1 - 1 in Shifted({1, 4}, 1) && 4 - 1 in Shifted({1, 4}, 1);
  }
}
