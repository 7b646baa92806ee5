/**
  MBMS scheduling information: the MCE application compacts the MBSFN area
  configurations into one message of clusters, and the M2AP task picks for each
  eNB the configurations of its own MBSFN areas.
*/
module Scheduling {
  import opened Common
  import opened M2apState
  import EnbSearch
  import M2apLimits

  const INVALID_MBSFN_AREA: nat := 0
  const CLUSTERS: nat := 4 // the global MBMS area and three local ones

  datatype AreaCfg = AreaCfg(areaId: nat, content: nat)

  type Cluster = seq<AreaCfg>

  // ---- Compaction ----

  function ValidOnly(cfgs: Cluster): Cluster {
    if cfgs == [] then []
    else ValidOnly(cfgs[..|cfgs|-1]) +
         if cfgs[|cfgs|-1].areaId != INVALID_MBSFN_AREA then [cfgs[|cfgs|-1]] else []
  }

  /** Each cluster is the valid part of its area; areas the message has no room for have no valid part. */
  ghost predicate Compacted(areas: seq<Cluster>, clusters: seq<Cluster>) {
    && |clusters| == CLUSTERS
    && (forall k | 0 <= k < CLUSTERS :: clusters[k] == if k < |areas| then ValidOnly(areas[k]) else [])
    && (forall k | CLUSTERS <= k < |areas| :: ValidOnly(areas[k]) == [])
  }

  /** The inner loop: one area's valid configurations. */
  method CompactArea(area: Cluster) returns (cluster: Cluster)
    ensures cluster == ValidOnly(area)
  {
    cluster := [];
    for n := 0 to |area|
      invariant cluster == ValidOnly(area[..n])
    {
      assert area[..n+1][..n] == area[..n];
      if area[n].areaId != INVALID_MBSFN_AREA {
        cluster := cluster + [area[n]];
      }
    }
    assert area[..|area|] == area;
  }

  /** The compaction; none if the source would write past the clusters of its message. */
  method Compact(areas: seq<Cluster>) returns (clusters: Option<seq<Cluster>>)
    ensures clusters.None? <==> exists k | CLUSTERS <= k < |areas| :: ValidOnly(areas[k]) != []
    ensures clusters.Some? ==> Compacted(areas, clusters.value)
  {
    var r: seq<Cluster> := seq(CLUSTERS, _ => []);
    for k := 0 to |areas|
      invariant |r| == CLUSTERS
      invariant forall i | 0 <= i < CLUSTERS :: r[i] == if i < k then ValidOnly(areas[i]) else []
      invariant forall i | CLUSTERS <= i < k :: ValidOnly(areas[i]) == []
    {
      var cluster := CompactArea(areas[k]);
      if cluster != [] {
        if k >= CLUSTERS {
          return None;
        }
        r := r[k := cluster];
      }
    }
    return Some(r);
  }

  // ---- Selection ----

  function WithId(cfgs: Cluster, id: nat): Cluster {
    if cfgs == [] then []
    else WithId(cfgs[..|cfgs|-1], id) + if cfgs[|cfgs|-1].areaId == id then [cfgs[|cfgs|-1]] else []
  }

  /** The configurations matching the ids, id by id. */
  function WithIds(cfgs: Cluster, ids: seq<nat>): Cluster {
    if ids == [] then [] else WithIds(cfgs, ids[..|ids|-1]) + WithId(cfgs, ids[|ids|-1])
  }

  /**
    The configurations that apply to an eNB: the global cluster unless the eNB
    is in a local area and global areas are kept per local group, then its
    local cluster.
  */
  function Applicable(clusters: seq<Cluster>, local: nat, perLocalGroup: bool): Cluster
    requires local < |clusters|
  {
    (if local == 0 || !perLocalGroup then clusters[0] else []) + (if local != 0 then clusters[local] else [])
  }

  /** The loop over one cluster; `before` is everything appended to the array so far. */
  method AppendMatches(list: Cluster, ghost before: Cluster, cluster: Cluster, id: nat) returns (r: Cluster)
    requires list == SinceWrap(before)
    ensures r == SinceWrap(before + WithId(cluster, id))
  {
    r := list;
    assert before + WithId(cluster[..0], id) == before;
    for n := 0 to |cluster|
      invariant r == SinceWrap(before + WithId(cluster[..n], id))
    {
      assert cluster[..n+1][..n] == cluster[..n];
      if cluster[n].areaId == id {
        SinceWrapSnoc(before + WithId(cluster[..n], id), cluster[n]);
        assert (before + WithId(cluster[..n], id)) + [cluster[n]] == before + WithId(cluster[..n+1], id);
        r := AppendU8(r, cluster[n]);
      } else {
        assert WithId(cluster[..n+1], id) == WithId(cluster[..n], id);
      }
    }
    assert cluster[..|cluster|] == cluster;
  }

  lemma {:induction false} WithIdConcat(xs: Cluster, ys: Cluster, id: nat)
    ensures WithId(xs + ys, id) == WithId(xs, id) + WithId(ys, id)
    decreases |ys|
  {
    if ys == [] {
      assert xs + ys == xs;
    } else {
      assert (xs + ys)[..|xs + ys|-1] == xs + ys[..|ys|-1];
      WithIdConcat(xs, ys[..|ys|-1], id);
    }
  }

  function GlobalPart(enb: Enb, global: Option<Cluster>, perLocalGroup: bool): Cluster {
    if (enb.localArea == 0 || !perLocalGroup) && global.Some? then global.value else []
  }

  function LocalPart(local: Option<Cluster>): Cluster {
    if local.Some? then local.value else []
  }

  /** One round of the loop over an eNB's ids. */
  method AppendId(list: Cluster, ghost before: Cluster, enb: Enb, global: Option<Cluster>, local: Option<Cluster>,
                  perLocalGroup: bool, id: nat)
    returns (r: Cluster)
    requires list == SinceWrap(before)
    ensures r == SinceWrap(before + WithId(GlobalPart(enb, global, perLocalGroup) + LocalPart(local), id))
  {
    r := list;
    ghost var globalPart := GlobalPart(enb, global, perLocalGroup);
    assert before + [] == before;
    if enb.localArea == 0 || !perLocalGroup {
      if global.Some? {
        r := AppendMatches(r, before, global.value, id);
      }
    }
    ghost var more := before + WithId(globalPart, id);
    assert more + [] == more;
    if local.Some? {
      r := AppendMatches(r, more, local.value, id);
    }
    WithIdConcat(globalPart, LocalPart(local), id);
    assert more + WithId(LocalPart(local), id) == before + WithId(globalPart + LocalPart(local), id);
  }

  lemma WithIdsSnoc(cfgs: Cluster, ids: seq<nat>, n: nat)
    requires n < |ids|
    ensures WithIds(cfgs, ids[..n+1]) == WithIds(cfgs, ids[..n]) + WithId(cfgs, ids[n])
  {
    assert ids[..n+1][..n] == ids[..n];
  }

  /** One eNB's list, through the nested loops over its ids and the two clusters. */
  method SelectFor(enb: Enb, global: Option<Cluster>, local: Option<Cluster>, perLocalGroup: bool)
    returns (list: Cluster)
    ensures list == SinceWrap(WithIds(GlobalPart(enb, global, perLocalGroup) + LocalPart(local), enb.mbsfnIds))
  {
    ghost var cfgs := GlobalPart(enb, global, perLocalGroup) + LocalPart(local);
    list := [];
    for n := 0 to |enb.mbsfnIds|
      invariant list == SinceWrap(WithIds(cfgs, enb.mbsfnIds[..n]))
    {
      ghost var done := WithIds(cfgs, enb.mbsfnIds[..n]);
      list := AppendId(list, done, enb, global, local, perLocalGroup, enb.mbsfnIds[n]);
      WithIdsSnoc(cfgs, enb.mbsfnIds, n);
    }
    assert enb.mbsfnIds[..|enb.mbsfnIds|] == enb.mbsfnIds;
  }

  // ---- Distribution ----

  datatype SchedulingMsg = SchedulingMsg(to: AssocId, cfgs: Cluster)

  /** The messages addressed to one eNB, in order. */
  function SentTo(out: seq<SchedulingMsg>, a: AssocId): seq<Cluster> {
    if out == [] then []
    else SentTo(out[..|out|-1], a) + if out[|out|-1].to == a then [out[|out|-1].cfgs] else []
  }

  /** The configurations meant for an eNB. */
  function Selected(enb: Enb, clusters: seq<Cluster>, perLocalGroup: bool): Cluster {
    if enb.localArea < |clusters| && clusters[enb.localArea] != []
    then WithIds(Applicable(clusters, enb.localArea, perLocalGroup), enb.mbsfnIds)
    else []
  }

  /** At most one message: the selection, as far as the uint8_t count of the array lets it through. */
  function MessageFor(enb: Enb, clusters: seq<Cluster>, perLocalGroup: bool): seq<Cluster> {
    var cfgs := SinceWrap(Selected(enb, clusters, perLocalGroup));
    if cfgs != [] then [cfgs] else []
  }

  function Expected(enbs: map<AssocId, Enb>, clusters: seq<Cluster>, perLocalGroup: bool, a: AssocId): seq<Cluster> {
    if a in enbs then MessageFor(enbs[a], clusters, perLocalGroup) else []
  }

  /** The search over the eNB table, for one MBMS area; none if the eNBs do not fit `maxEnbs` entries. */
  method CollectByLocalArea(enbs: map<AssocId, Enb>, local: nat, maxEnbs: nat) returns (list: Option<seq<AssocId>>)
    ensures list.Some? <==> |InArea(enbs, local)| <= maxEnbs
    ensures list.Some? ==> Distinct(list.value) && Elems(list.value) == InArea(enbs, local)
  {
    list := EnbSearch.CollectAll(enbs.Keys, a => a in enbs && enbs[a].localArea == local, maxEnbs);
    assert EnbSearch.Matches(enbs.Keys, a => a in enbs && enbs[a].localArea == local) == InArea(enbs, local);
  }

  /** One eNB of an MBMS area; nothing is sent for an empty list. */
  method ScheduleOne(a: AssocId, enb: Enb, clusters: seq<Cluster>, perLocalGroup: bool, out: seq<SchedulingMsg>)
    returns (r: seq<SchedulingMsg>)
    requires |clusters| == CLUSTERS && enb.localArea < CLUSTERS && clusters[enb.localArea] != []
    ensures forall b :: SentTo(r, b) == SentTo(out, b) + if b == a then MessageFor(enb, clusters, perLocalGroup) else []
  {
    var globalCluster := if enb.localArea != 0 && perLocalGroup then None else Some(clusters[0]);
    var localCluster := if enb.localArea != 0 then Some(clusters[enb.localArea]) else None;
    var cfgs := SelectFor(enb, globalCluster, localCluster, perLocalGroup);
    assert cfgs == SinceWrap(Selected(enb, clusters, perLocalGroup));
    r := if cfgs != [] then out + [SchedulingMsg(a, cfgs)] else out;
  }

  /** The eNBs of one MBMS area, each with the configurations of its own MBSFN areas. */
  method ScheduleCluster(enbs: map<AssocId, Enb>, list: seq<AssocId>, local: nat, clusters: seq<Cluster>,
                         perLocalGroup: bool, out: seq<SchedulingMsg>)
    returns (r: seq<SchedulingMsg>)
    requires |clusters| == CLUSTERS && local < CLUSTERS && clusters[local] != []
    requires Distinct(list)
    requires forall a | a in list :: a in enbs && enbs[a].localArea == local
    ensures forall a :: SentTo(r, a) == SentTo(out, a) +
                                        if a in list then Expected(enbs, clusters, perLocalGroup, a) else []
  {
    r := out;
    for n := 0 to |list|
      invariant forall a :: SentTo(r, a) == SentTo(out, a) +
                                            if a in list[..n] then Expected(enbs, clusters, perLocalGroup, a) else []
    {
      var b := list[n];
      assert b in list && list[..n+1] == list[..n] + [b];
      r := ScheduleOne(b, enbs[b], clusters, perLocalGroup, r);
    }
  }

  /** The messages owed to the eNBs of the MBMS areas below `k`. */
  function ExpectedBelow(enbs: map<AssocId, Enb>, clusters: seq<Cluster>, perLocalGroup: bool, k: nat, a: AssocId)
    : seq<Cluster>
  {
    if a in enbs && enbs[a].localArea < k then Expected(enbs, clusters, perLocalGroup, a) else []
  }

  /** The eNBs of an MBMS area fit the array they are collected in, if they are. */
  predicate AreaHolds(enbs: map<AssocId, Enb>, clusters: seq<Cluster>, maxEnbs: nat, k: nat)
    requires k < |clusters|
  {
    clusters[k] != [] ==> |InArea(enbs, k)| <= maxEnbs
  }

  /** One MBMS area; an empty cluster or an area without eNBs is skipped. */
  method ScheduleArea(enbs: map<AssocId, Enb>, k: nat, clusters: seq<Cluster>, perLocalGroup: bool, maxEnbs: nat,
                      out: seq<SchedulingMsg>)
    returns (ok: bool, r: seq<SchedulingMsg>)
    requires |clusters| == CLUSTERS && k < CLUSTERS
    requires forall a :: SentTo(out, a) == ExpectedBelow(enbs, clusters, perLocalGroup, k, a)
    ensures ok <==> AreaHolds(enbs, clusters, maxEnbs, k)
    ensures ok ==> forall a :: SentTo(r, a) == ExpectedBelow(enbs, clusters, perLocalGroup, k + 1, a)
    ensures !ok ==> r == out
  {
    ok, r := true, out;
    if clusters[k] != [] {
      var list := CollectByLocalArea(enbs, k, maxEnbs);
      if list.None? {
        return false, out;
      }
      assert forall a :: a in list.value <==> a in Elems(list.value);
      r := ScheduleCluster(enbs, list.value, k, clusters, perLocalGroup, out);
      forall a ensures SentTo(r, a) == ExpectedBelow(enbs, clusters, perLocalGroup, k + 1, a) {
        OneMoreArea(enbs, clusters, perLocalGroup, k, a);
        assert a in list.value <==> a in enbs && enbs[a].localArea == k;
      }
    } else {
      forall a ensures SentTo(r, a) == ExpectedBelow(enbs, clusters, perLocalGroup, k + 1, a) {
        OneMoreArea(enbs, clusters, perLocalGroup, k, a);
      }
    }
  }

  lemma OneMoreArea(enbs: map<AssocId, Enb>, clusters: seq<Cluster>, perLocalGroup: bool, k: nat, a: AssocId)
    requires k < |clusters|
    ensures ExpectedBelow(enbs, clusters, perLocalGroup, k + 1, a) ==
            ExpectedBelow(enbs, clusters, perLocalGroup, k, a) +
            if a in enbs && enbs[a].localArea == k then Expected(enbs, clusters, perLocalGroup, a) else []
    ensures a in enbs && enbs[a].localArea == k && clusters[k] == [] ==>
              Expected(enbs, clusters, perLocalGroup, a) == []
  {
  }

  /**
    The handler, MBMS area by MBMS area. It gets through the areas before the
    first one whose eNBs do not fit their array, and through all if there is
    none.
  */
  method HandleSchedulingInfo(enbs: map<AssocId, Enb>, clusters: seq<Cluster>, perLocalGroup: bool, maxEnbs: nat)
    returns (done: nat, out: seq<SchedulingMsg>)
    requires |clusters| == CLUSTERS
    ensures done <= CLUSTERS && forall k | 0 <= k < done :: AreaHolds(enbs, clusters, maxEnbs, k)
    ensures done < CLUSTERS ==> !AreaHolds(enbs, clusters, maxEnbs, done)
    ensures forall a :: SentTo(out, a) == ExpectedBelow(enbs, clusters, perLocalGroup, done, a)
    ensures done == CLUSTERS ==> forall a :: SentTo(out, a) == Expected(enbs, clusters, perLocalGroup, a)
  {
    out := [];
    for k := 0 to CLUSTERS
      invariant forall j | 0 <= j < k :: AreaHolds(enbs, clusters, maxEnbs, j)
      invariant forall a :: SentTo(out, a) == ExpectedBelow(enbs, clusters, perLocalGroup, k, a)
    {
      var ok, r := ScheduleArea(enbs, k, clusters, perLocalGroup, maxEnbs, out);
      if !ok {
        return k, out;
      }
      out := r;
    }
    done := CLUSTERS;
  }

  // ---- What the selection means ----

  /** Occurrences of `x`. */
  function Occurs<T(==)>(xs: seq<T>, x: T): nat {
    if xs == [] then 0 else Occurs(xs[..|xs|-1], x) + if xs[|xs|-1] == x then 1 else 0
  }

  lemma {:induction false} OccursConcat<T>(xs: seq<T>, ys: seq<T>, x: T)
    ensures Occurs(xs + ys, x) == Occurs(xs, x) + Occurs(ys, x)
    decreases |ys|
  {
    if ys == [] {
      assert xs + ys == xs;
    } else {
      assert (xs + ys)[..|xs + ys|-1] == xs + ys[..|ys|-1];
      OccursConcat(xs, ys[..|ys|-1], x);
    }
  }

  lemma {:induction false} OccursIn<T>(xs: seq<T>, x: T)
    ensures x in xs <==> Occurs(xs, x) > 0
  {
    if xs == [] {
    } else {
      OccursIn(xs[..|xs|-1], x);
      assert xs == xs[..|xs|-1] + [xs[|xs|-1]];
    }
  }

  lemma {:induction false} DistinctOccurs<T>(xs: seq<T>, x: T)
    requires Distinct(xs)
    ensures Occurs(xs, x) <= 1
  {
    if xs == [] {
    } else {
      DistinctOccurs(xs[..|xs|-1], x);
      OccursIn(xs[..|xs|-1], x);
    }
  }

  lemma {:induction false} OccursDistinct<T>(xs: seq<T>)
    requires forall x :: Occurs(xs, x) <= 1
    ensures Distinct(xs)
  {
    if xs == [] {
    } else {
      var init, last := xs[..|xs|-1], xs[|xs|-1];
      assert forall x :: Occurs(init, x) <= Occurs(xs, x);
      OccursDistinct(init);
      OccursIn(init, last);
      assert Occurs(xs, last) <= 1;
      assert last !in init;
      forall i | 0 <= i < |init| ensures xs[i] != last {
        assert xs[i] == init[i];
      }
    }
  }

  lemma {:induction false} ValidOnlyOccurs(cfgs: Cluster, c: AreaCfg)
    ensures Occurs(ValidOnly(cfgs), c) == if c.areaId != INVALID_MBSFN_AREA then Occurs(cfgs, c) else 0
  {
    if cfgs == [] {
    } else {
      var init, last := cfgs[..|cfgs|-1], cfgs[|cfgs|-1];
      ValidOnlyOccurs(init, c);
      OccursConcat(ValidOnly(init), if last.areaId != INVALID_MBSFN_AREA then [last] else [], c);
    }
  }

  lemma {:induction false} WithIdOccurs(cfgs: Cluster, id: nat, c: AreaCfg)
    ensures Occurs(WithId(cfgs, id), c) == if c.areaId == id then Occurs(cfgs, c) else 0
  {
    if cfgs == [] {
    } else {
      var init, last := cfgs[..|cfgs|-1], cfgs[|cfgs|-1];
      WithIdOccurs(init, id, c);
      OccursConcat(WithId(init, id), if last.areaId == id then [last] else [], c);
    }
  }

  /** Every configuration is selected once per occurrence of its id and of itself. */
  lemma {:induction false} WithIdsOccurs(cfgs: Cluster, ids: seq<nat>, c: AreaCfg)
    ensures Occurs(WithIds(cfgs, ids), c) == Occurs(ids, c.areaId) * Occurs(cfgs, c)
  {
    if ids == [] {
    } else {
      var init, last := ids[..|ids|-1], ids[|ids|-1];
      WithIdsOccurs(cfgs, init, c);
      WithIdOccurs(cfgs, last, c);
      OccursConcat(WithIds(cfgs, init), WithId(cfgs, last), c);
      Distributes(Occurs(init, c.areaId), if last == c.areaId then 1 else 0, Occurs(cfgs, c));
    }
  }

  lemma Distributes(m: nat, n: nat, k: nat)
    ensures (m + n) * k == m * k + n * k
  {
  }

  /** The areas an eNB takes its configurations from, before compaction. */
  function SourceAreas(areas: seq<Cluster>, local: nat, perLocalGroup: bool): Cluster {
    (if |areas| > 0 && (local == 0 || !perLocalGroup) then areas[0] else []) +
    (if local != 0 && local < |areas| then areas[local] else [])
  }

  /**
    End to end, with multiplicities: a configuration reaches an eNB once per
    pair of its occurrence in the areas that apply to the eNB and its id's
    occurrence among the eNB's ids, if the id is valid and the eNB's own
    cluster has anything to schedule; otherwise never.
  */
  lemma SelectedExactly(enb: Enb, areas: seq<Cluster>, clusters: seq<Cluster>, perLocalGroup: bool, c: AreaCfg)
    requires Compacted(areas, clusters)
    ensures Occurs(Selected(enb, clusters, perLocalGroup), c) ==
            if enb.localArea < |areas| && (exists d | d in areas[enb.localArea] :: d.areaId != INVALID_MBSFN_AREA)
                 && c.areaId != INVALID_MBSFN_AREA
            then Occurs(enb.mbsfnIds, c.areaId) * Occurs(SourceAreas(areas, enb.localArea, perLocalGroup), c)
            else 0
  {
    if enb.localArea < |areas| {
      SomethingValid(areas[enb.localArea]);
      if enb.localArea < CLUSTERS && clusters[enb.localArea] != [] {
        var applicable := Applicable(clusters, enb.localArea, perLocalGroup);
        WithIdsOccurs(applicable, enb.mbsfnIds, c);
        ApplicableOccurs(enb.localArea, areas, clusters, perLocalGroup, c);
      }
    }
  }

  lemma SomethingValid(cfgs: Cluster)
    ensures ValidOnly(cfgs) != [] <==> exists d | d in cfgs :: d.areaId != INVALID_MBSFN_AREA
  {
    forall d ensures d in ValidOnly(cfgs) <==> d in cfgs && d.areaId != INVALID_MBSFN_AREA {
      ValidOnlyOccurs(cfgs, d);
      OccursIn(cfgs, d);
      OccursIn(ValidOnly(cfgs), d);
    }
    if ValidOnly(cfgs) != [] {
      assert ValidOnly(cfgs)[0] in ValidOnly(cfgs);
    }
  }

  lemma ApplicableOccurs(local: nat, areas: seq<Cluster>, clusters: seq<Cluster>, perLocalGroup: bool, c: AreaCfg)
    requires Compacted(areas, clusters) && local < |areas| && local < CLUSTERS
    ensures Occurs(Applicable(clusters, local, perLocalGroup), c) ==
            if c.areaId != INVALID_MBSFN_AREA then Occurs(SourceAreas(areas, local, perLocalGroup), c) else 0
  {
    var takesGlobal := local == 0 || !perLocalGroup;
    var takesLocal := local != 0;
    OccursConcat(if takesGlobal then clusters[0] else [], if takesLocal then clusters[local] else [], c);
    OccursConcat(if takesGlobal then areas[0] else [], if takesLocal then areas[local] else [], c);
    ValidOnlyOccurs(areas[0], c);
    ValidOnlyOccurs(areas[local], c);
  }

  // ---- Distinct ids ----

  function Ids(cfgs: Cluster): seq<nat> {
    seq(|cfgs|, i requires 0 <= i < |cfgs| => cfgs[i].areaId)
  }

  lemma {:induction false} WithIdAtMostOne(cfgs: Cluster, id: nat)
    requires Distinct(Ids(cfgs))
    ensures |WithId(cfgs, id)| <= if id in Ids(cfgs) then 1 else 0
  {
    if cfgs == [] {
    } else {
      var init, last := cfgs[..|cfgs|-1], cfgs[|cfgs|-1];
      assert Ids(cfgs) == Ids(init) + [last.areaId];
      assert forall i | 0 <= i < |init| :: Ids(init)[i] == Ids(cfgs)[i];
      WithIdAtMostOne(init, id);
      if last.areaId == id {
        assert Ids(cfgs)[|init|] == id;
        assert id !in Ids(init);
      }
    }
  }

  lemma {:induction false} WithIdsBound(cfgs: Cluster, ids: seq<nat>)
    requires Distinct(Ids(cfgs))
    ensures |WithIds(cfgs, ids)| <= |ids|
  {
    if ids == [] {
    } else {
      WithIdsBound(cfgs, ids[..|ids|-1]);
      WithIdAtMostOne(cfgs, ids[|ids|-1]);
    }
  }

  lemma AtMostOne(m: nat, n: nat)
    requires m <= 1 && n <= 1
    ensures m * n <= 1
  {
    if m == 0 {
    } else {
      assert m * n == n;
    }
  }

  lemma {:induction false} WithIdsDistinct(cfgs: Cluster, ids: seq<nat>)
    requires Distinct(Ids(cfgs)) && Distinct(ids)
    ensures Distinct(WithIds(cfgs, ids))
  {
    assert Distinct(cfgs) by {
      assert forall i | 0 <= i < |cfgs| :: cfgs[i].areaId == Ids(cfgs)[i];
    }
    forall c ensures Occurs(WithIds(cfgs, ids), c) <= 1 {
      WithIdsOccurs(cfgs, ids, c);
      DistinctOccurs(cfgs, c);
      DistinctOccurs(ids, c.areaId);
      AtMostOne(Occurs(ids, c.areaId), Occurs(cfgs, c));
    }
    OccursDistinct(WithIds(cfgs, ids));
  }

  /**
    With distinct area ids on both sides the eNB is sent its whole selection:
    no configuration twice, and no more of them than it has ids.
  */
  lemma DistinctIdsNoDuplicates(enb: Enb, clusters: seq<Cluster>, perLocalGroup: bool)
    requires enb.localArea < |clusters|
    requires Distinct(Ids(Applicable(clusters, enb.localArea, perLocalGroup)))
    requires Distinct(enb.mbsfnIds) && |enb.mbsfnIds| < U8
    ensures Distinct(Selected(enb, clusters, perLocalGroup))
    ensures |Selected(enb, clusters, perLocalGroup)| <= |enb.mbsfnIds|
    ensures SinceWrap(Selected(enb, clusters, perLocalGroup)) == Selected(enb, clusters, perLocalGroup)
  {
    var cfgs := Applicable(clusters, enb.localArea, perLocalGroup);
    WithIdsBound(cfgs, enb.mbsfnIds);
    WithIdsDistinct(cfgs, enb.mbsfnIds);
    WholeSelectionIff(Selected(enb, clusters, perLocalGroup));
  }

  /**
    So in every run of the M2AP task whose setup responses bring new ids, an
    eNB is sent its whole selection, or nothing if that is empty.
  */
  lemma SentWholeInEveryRun(cfg: Config, events: seq<Event>, a: AssocId, clusters: seq<Cluster>, perLocalGroup: bool)
    requires IsRun(cfg, events) && M2apLimits.AllKeepIdsDistinct(cfg, events) && a in After(cfg, events).enbs
    requires var enb := After(cfg, events).enbs[a];
             enb.localArea < |clusters| && Distinct(Ids(Applicable(clusters, enb.localArea, perLocalGroup)))
    ensures var selected := Selected(After(cfg, events).enbs[a], clusters, perLocalGroup);
            Expected(After(cfg, events).enbs, clusters, perLocalGroup, a) == if selected == [] then [] else [selected]
  {
    M2apLimits.RunListsFit(cfg, events);
    M2apLimits.RunIdsDistinctIff(cfg, events);
    DistinctIdsNoDuplicates(After(cfg, events).enbs[a], clusters, perLocalGroup);
  }

  /** The array passes a selection on whole exactly if it has fewer than 256 entries. */
  lemma WholeSelectionIff(selection: Cluster)
    ensures SinceWrap(selection) == selection <==> |selection| < U8
  {
    assert |SinceWrap(selection)| == |selection| % U8;
  }
}
