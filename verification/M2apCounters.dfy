/**
  The per-eNB counter `nb_mbms_associated` against the number of services whose
  association map really holds the eNB: when it is exact, when it is an upper
  or lower bound, and exactly which events break that.
*/
module M2apCounters {
  import opened Common
  import opened M2apState
  import opened M2apRuns
  import opened M2apReset
  import ServiceArea

  function Count(s: State, a: AssocId): nat {
    |Holding(s, a)|
  }

  /** Every counter is the number of services holding the eNB. */
  ghost predicate Exact(s: State) {
    forall a | a in s.enbs :: s.enbs[a].nb == Count(s, a)
  }

  /** No counter exceeds the number of services holding the eNB. */
  ghost predicate Bounded(s: State) {
    forall a | a in s.enbs :: s.enbs[a].nb <= Count(s, a)
  }

  // ---- The conditions, on the state before the event ----

  /** Dropping an association that is there, or with the counter at zero already. */
  ghost predicate DropsLive(s: State, a: AssocId, m: MceId) {
    m in s.services && a in s.enbs ==> a in s.services[m].assocs || s.enbs[a].nb == 0
  }

  /** The start response repeats an association the service already has. */
  ghost predicate RepeatsAssociation(s: State, a: AssocId, m: MceId, id: EnbMbmsId) {
    m in s.services && a in s.services[m].assocs && s.services[m].assocs[a] == id
  }

  /** Every eNB the new area leaves out is associated with the service. */
  ghost predicate LeavesOutOnlyAssociated(cfg: Config, s: State, m: MceId, newSai: nat)
    requires m in s.services
  {
    forall a | a in s.enbs && newSai !in s.enbs[a].areas ::
      a in s.services[m].assocs || (cfg.guarded && s.enbs[a].nb == 0)
  }

  /** No eNB the new area leaves out has its counter at zero. */
  ghost predicate LeavesOutNoZero(s: State, newSai: nat) {
    forall a | a in s.enbs && newSai !in s.enbs[a].areas :: s.enbs[a].nb > 0
  }

  ghost predicate KeepsExact(cfg: Config, s: State, e: Event)
    requires Enabled(s, e)
  {
    match e
    case StartResponse(a, mce, enb) => !RepeatsAssociation(s, a, Mask24(mce), Mask16(enb))
    case UpdateFailure(a, mce) => DropsLive(s, a, Mask24(mce))
    case ErrorIndication(a, mce) => MceIdOf(mce) == INVALID_MCE_ID || DropsLive(s, a, MceIdOf(mce))
    case PartialReset(a, items) =>
      ResetAllowed(s, a) ==>
        (forall k | 0 <= k < |items| :: !DeadHit(s, a, items, k)) || Lost(s, a, items) == Holding(s, a)
    case SessionUpdate(_, _, newSai, _, found) =>
      found.None? || Supporting(s.enbs, newSai) == {} || LeavesOutOnlyAssociated(cfg, s, found.value, newSai)
    case _ => true
  }

  ghost predicate KeepsBounded(cfg: Config, s: State, e: Event)
    requires Enabled(s, e)
  {
    match e
    case StartResponse(a, mce, enb) =>
      RepeatsAssociation(s, a, Mask24(mce), Mask16(enb)) ==> s.enbs[a].nb < Count(s, a)
    case SessionUpdate(_, _, newSai, _, found) =>
      cfg.guarded || found.None? || Supporting(s.enbs, newSai) == {} || LeavesOutNoZero(s, newSai)
    case _ => true
  }

  // ---- Steps that move counter and associations together ----

  /** The eNB is untouched, or starts from nothing, or loses one live association and one count. */
  ghost predicate Faithful(s: State, t: State, a: AssocId)
    requires a in t.enbs
  {
    || (t.enbs[a].nb == 0 && Holding(t, a) == {})
    || (a in s.enbs && t.enbs[a].nb == s.enbs[a].nb && Holding(t, a) == Holding(s, a))
    || (a in s.enbs && t.enbs[a].nb == DecrementedIfPositive(s.enbs[a].nb) &&
        exists m | m in Holding(s, a) :: Holding(t, a) == Holding(s, a) - {m})
  }

  lemma FaithfulKeeps(s: State, t: State)
    requires forall a | a in t.enbs :: Faithful(s, t, a)
    ensures Exact(s) ==> Exact(t)
    ensures Bounded(s) ==> Bounded(t)
  {
  }

  lemma RemoveServiceFaithful(s: State, m: MceId)
    requires Consistent(s) && m in s.services
    ensures forall a | a in RemoveService(s, m).enbs :: Faithful(s, RemoveService(s, m), a)
  {
    RemoveServiceShape(s, m);
    forall a | a in RemoveService(s, m).enbs ensures Faithful(s, RemoveService(s, m), a) {
      RemovedFaithful(s, RemoveService(s, m), m, a);
    }
  }

  lemma RemovedFaithful(s: State, t: State, m: MceId, a: AssocId)
    requires m in s.services && a in s.enbs && a in t.enbs && t.services == s.services - {m}
    requires t.enbs[a] == if a in s.services[m].assocs then StatsCleared(s.enbs[a]) else s.enbs[a]
    ensures Faithful(s, t, a)
  {
    assert Holding(t, a) == Holding(s, a) - {m};
    if a in s.services[m].assocs {
      assert m in Holding(s, a);
    } else {
      assert Holding(s, a) - {m} == Holding(s, a);
    }
  }

  lemma RemoveEnbsFaithful(s: State, gone: set<AssocId>)
    ensures forall a | a in RemoveEnbs(s, gone).enbs :: Faithful(s, RemoveEnbs(s, gone), a)
  {
    var t := RemoveEnbs(s, gone);
    forall a | a in t.enbs ensures Faithful(s, t, a) {
      assert Holding(t, a) == Holding(s, a);
    }
  }

  /** Same services, and counters as before or on an eNB that was not there. */
  lemma SameServicesFaithful(s: State, t: State)
    requires NoDangling(s) && t.services == s.services
    requires forall a | a in t.enbs :: if a in s.enbs then t.enbs[a].nb == s.enbs[a].nb else t.enbs[a].nb == 0
    ensures forall a | a in t.enbs :: Faithful(s, t, a)
  {
    forall a | a in t.enbs ensures Faithful(s, t, a) {
      assert Holding(t, a) == Holding(s, a);
    }
  }

  lemma CreateServiceFaithful(s: State, tmgi: Tmgi, sai: nat)
    requires Consistent(s)
    requires IdFree(s, sai)
    ensures forall a | a in s.enbs :: Faithful(s, CreateService(s, tmgi, sai), a)
  {
    var t := CreateService(s, tmgi, sai);
    forall a | a in s.enbs ensures Faithful(s, t, a) {
      assert Holding(t, a) == Holding(s, a);
    }
  }

  lemma ContextUpdatedFaithful(s: State, m: MceId, served: set<AssocId>)
    requires m in s.services
    ensures forall a | a in s.enbs :: Faithful(s, ContextUpdated(s, m, served), a)
    ensures forall a | a in s.enbs && a !in served ::
              && ContextUpdated(s, m, served).enbs[a] == s.enbs[a]
              && Holding(ContextUpdated(s, m, served), a) == Holding(s, a)
  {
    var t := ContextUpdated(s, m, served);
    forall a | a in s.enbs
      ensures Faithful(s, t, a)
      ensures a !in served ==> Holding(t, a) == Holding(s, a)
    {
      if a in Unreachable(s.services[m], served) {
        assert Holding(t, a) == Holding(s, a) - {m};
        assert m in Holding(s, a);
      } else {
        assert Holding(t, a) == Holding(s, a);
      }
    }
  }

  lemma FullResetFaithful(s: State, a: AssocId)
    ensures forall b | b in OnFullReset(s, a).enbs :: Faithful(s, OnFullReset(s, a), b)
  {
    var t := OnFullReset(s, a);
    forall b | b in t.enbs ensures Faithful(s, t, b) {
      if b == a && ResetAllowed(s, a) {
        assert Holding(t, b) == {};
      } else {
        assert Holding(t, b) == Holding(s, b);
      }
    }
  }

  // ---- The events that need a condition ----

  lemma CountSmall(s: State, a: AssocId)
    requires Consistent(s)
    ensures Count(s, a) <= INVALID_MCE_ID
  {
    CardBelow(Holding(s, a), 0, INVALID_MCE_ID);
  }

  lemma StartResponseCount(s: State, a: AssocId, m: MceId, id: EnbMbmsId)
    requires Consistent(s) && m in s.services && a in s.enbs
    ensures var t := OnStartResponse(s, a, m, id);
            && t.enbs.Keys == s.enbs.Keys
            && (forall b | b in s.enbs && b != a :: t.enbs[b] == s.enbs[b] && Holding(t, b) == Holding(s, b))
            && Count(t, a) == Count(s, a) + (if a in s.services[m].assocs then 0 else 1)
  {
    var t := OnStartResponse(s, a, m, id);
    forall b | b in s.enbs && b != a ensures Holding(t, b) == Holding(s, b) {
    }
    assert Holding(t, a) == Holding(s, a) + {m};
    assert a in s.services[m].assocs ==> Holding(s, a) + {m} == Holding(s, a);
  }

  lemma StartResponseIff(s: State, a: AssocId, m: MceId, id: EnbMbmsId)
    requires Consistent(s) && (m in s.services ==> a in s.enbs)
    ensures Exact(s) ==> (Exact(OnStartResponse(s, a, m, id)) <==> !RepeatsAssociation(s, a, m, id))
    ensures Bounded(s) ==> (Bounded(OnStartResponse(s, a, m, id)) <==>
                            (RepeatsAssociation(s, a, m, id) ==> s.enbs[a].nb < Count(s, a)))
  {
    if m in s.services {
      StartResponseEnbIff(s, a, m, id);
      OneEnbChanged(s, OnStartResponse(s, a, m, id), a);
    }
  }

  lemma StartResponseEnbIff(s: State, a: AssocId, m: MceId, id: EnbMbmsId)
    requires Consistent(s) && m in s.services && a in s.enbs
    ensures var t := OnStartResponse(s, a, m, id);
            && t.enbs.Keys == s.enbs.Keys
            && (forall b | b in s.enbs && b != a :: t.enbs[b] == s.enbs[b] && Holding(t, b) == Holding(s, b))
            && (s.enbs[a].nb == Count(s, a) ==>
                 (t.enbs[a].nb == Count(t, a) <==> !RepeatsAssociation(s, a, m, id)))
            && (s.enbs[a].nb <= Count(s, a) ==>
                 (t.enbs[a].nb <= Count(t, a) <==> (RepeatsAssociation(s, a, m, id) ==> s.enbs[a].nb < Count(s, a))))
  {
    StartResponseCount(s, a, m, id);
    CountSmall(s, a);
  }

  /** If only one eNB changes, that one decides. */
  lemma OneEnbChanged(s: State, t: State, a: AssocId)
    requires a in s.enbs && t.enbs.Keys == s.enbs.Keys
    requires forall b | b in s.enbs && b != a :: t.enbs[b] == s.enbs[b] && Holding(t, b) == Holding(s, b)
    ensures Exact(s) ==> (Exact(t) <==> t.enbs[a].nb == Count(t, a))
    ensures Bounded(s) ==> (Bounded(t) <==> t.enbs[a].nb <= Count(t, a))
  {
  }

  lemma DropCount(s: State, a: AssocId, m: MceId)
    requires m in s.services && a in s.enbs
    ensures var t := OnDrop(s, a, m);
            && t.enbs.Keys == s.enbs.Keys
            && (forall b | b in s.enbs && b != a :: t.enbs[b] == s.enbs[b] && Holding(t, b) == Holding(s, b))
            && Count(t, a) == Count(s, a) - (if a in s.services[m].assocs then 1 else 0)
  {
    var t := OnDrop(s, a, m);
    forall b | b in s.enbs && b != a ensures Holding(t, b) == Holding(s, b) {
    }
    assert Holding(t, a) == Holding(s, a) - {m};
    assert a !in s.services[m].assocs ==> Holding(s, a) - {m} == Holding(s, a);
  }

  lemma DropIff(s: State, a: AssocId, m: MceId)
    ensures Exact(s) ==> (Exact(OnDrop(s, a, m)) <==> DropsLive(s, a, m))
    ensures Bounded(s) ==> Bounded(OnDrop(s, a, m))
  {
    if m in s.services && a in s.enbs {
      DropCount(s, a, m);
      OneEnbChanged(s, OnDrop(s, a, m), a);
    }
  }

  lemma ResetCount(s: State, a: AssocId, items: seq<ResetItem>)
    requires a in s.enbs
    ensures var t := OnResetItems(s, a, items);
            var down := Decrements(s, a, items);
            && t.enbs.Keys == s.enbs.Keys
            && (forall b | b in s.enbs && b != a :: t.enbs[b] == s.enbs[b] && Holding(t, b) == Holding(s, b))
            && Count(t, a) == Count(s, a) - |Lost(s, a, items)|
            && t.enbs[a].nb == if s.enbs[a].nb >= down then s.enbs[a].nb - down else 0
  {
    ResetItemsFrame(s, a, items);
    ResetCounter(s, a, items);
    ResetHolding(s, a, items);
    var lost := Lost(s, a, items);
    assert Holding(s, a) == (Holding(s, a) - lost) + lost;
  }

  lemma ResetIff(s: State, a: AssocId, items: seq<ResetItem>)
    requires a in s.enbs
    ensures Exact(s) ==>
              (Exact(OnResetItems(s, a, items)) <==>
               (forall k | 0 <= k < |items| :: !DeadHit(s, a, items, k)) || Lost(s, a, items) == Holding(s, a))
    ensures Bounded(s) ==> Bounded(OnResetItems(s, a, items))
  {
    ResetCount(s, a, items);
    NoDeadHits(s, a, items);
    CardSubset(Lost(s, a, items), Holding(s, a));
    OneEnbChanged(s, OnResetItems(s, a, items), a);
  }

  lemma AreaStoppedCount(cfg: Config, s: State, m: MceId, left: set<AssocId>, a: AssocId)
    requires m in s.services && a in s.enbs
    ensures var t := AreaStopped(cfg, s, m, left);
            if a !in left then t.enbs[a] == s.enbs[a] && Holding(t, a) == Holding(s, a)
            else Count(t, a) == Count(s, a) - (if a in s.services[m].assocs then 1 else 0)
  {
    var t := AreaStopped(cfg, s, m, left);
    if a in left {
      assert Holding(t, a) == Holding(s, a) - {m};
      assert a !in s.services[m].assocs ==> Holding(s, a) - {m} == Holding(s, a);
    } else {
      assert Holding(t, a) == Holding(s, a);
    }
  }

  /** After an area change: eNBs left out as after the stops, served eNBs faithfully updated. */
  lemma SessionUpdateCount(cfg: Config, s: State, newSai: nat, timed: bool, m: MceId, a: AssocId)
    requires m in s.services && a in s.enbs && Supporting(s.enbs, newSai) != {}
    ensures var served := Supporting(s.enbs, newSai);
            var t := OnSessionUpdate(cfg, s, newSai, timed, Some(m));
            && t.enbs.Keys == s.enbs.Keys
            && (a in served ==> Faithful(s, t, a))
            && (a !in served ==>
                  && t.enbs[a].nb == DecrementedForArea(cfg, s.enbs[a].nb)
                  && Count(t, a) == Count(s, a) - (if a in s.services[m].assocs then 1 else 0))
  {
    var served := Supporting(s.enbs, newSai);
    var left := s.enbs.Keys - served;
    AreaStoppedCount(cfg, s, m, left, a);
    var s1 := AreaStopped(cfg, s, m, left);
    var s2 := s1.(services := s1.services[m := s1.services[m].(sai := newSai)]);
    assert Holding(s2, a) == Holding(s1, a);
    ContextUpdatedFaithful(s2, m, served);
  }

  lemma SessionUpdateEnbIff(cfg: Config, s: State, newSai: nat, timed: bool, m: MceId, a: AssocId)
    requires Consistent(s) && m in s.services && a in s.enbs && Supporting(s.enbs, newSai) != {}
    ensures var t := OnSessionUpdate(cfg, s, newSai, timed, Some(m));
            && t.enbs.Keys == s.enbs.Keys
            && (s.enbs[a].nb == Count(s, a) ==>
                 (t.enbs[a].nb == Count(t, a) <==>
                  newSai in s.enbs[a].areas || a in s.services[m].assocs || (cfg.guarded && s.enbs[a].nb == 0)))
            && (s.enbs[a].nb <= Count(s, a) ==>
                 (t.enbs[a].nb <= Count(t, a) <==>
                  newSai in s.enbs[a].areas || cfg.guarded || s.enbs[a].nb > 0))
  {
    SessionUpdateCount(cfg, s, newSai, timed, m, a);
    CountSmall(s, a);
  }

  /** Collecting what happened to each eNB. */
  lemma CollectEnbs(cfg: Config, s: State, t: State, m: MceId, newSai: nat)
    requires m in s.services && t.enbs.Keys == s.enbs.Keys
    requires forall a | a in s.enbs && s.enbs[a].nb == Count(s, a) ::
               (t.enbs[a].nb == Count(t, a) <==>
                newSai in s.enbs[a].areas || a in s.services[m].assocs || (cfg.guarded && s.enbs[a].nb == 0))
    requires forall a | a in s.enbs && s.enbs[a].nb <= Count(s, a) ::
               (t.enbs[a].nb <= Count(t, a) <==> newSai in s.enbs[a].areas || cfg.guarded || s.enbs[a].nb > 0)
    ensures Exact(s) ==> (Exact(t) <==> LeavesOutOnlyAssociated(cfg, s, m, newSai))
    ensures Bounded(s) ==> (Bounded(t) <==> cfg.guarded || LeavesOutNoZero(s, newSai))
  {
  }

  lemma SessionUpdateIff(cfg: Config, s: State, newSai: nat, timed: bool, m: MceId)
    requires Consistent(s) && m in s.services && Supporting(s.enbs, newSai) != {}
    ensures var t := OnSessionUpdate(cfg, s, newSai, timed, Some(m));
            && (Exact(s) ==> (Exact(t) <==> LeavesOutOnlyAssociated(cfg, s, m, newSai)))
            && (Bounded(s) ==> (Bounded(t) <==> cfg.guarded || LeavesOutNoZero(s, newSai)))
  {
    var a0 :| a0 in Supporting(s.enbs, newSai);
    SessionUpdateEnbIff(cfg, s, newSai, timed, m, a0);
    forall a | a in s.enbs {
      SessionUpdateEnbIff(cfg, s, newSai, timed, m, a);
    }
    CollectEnbs(cfg, s, OnSessionUpdate(cfg, s, newSai, timed, Some(m)), m, newSai);
  }

  // ---- Events that never disturb the counters ----

  lemma SessionEndKeeps(s: State, found: Option<MceId>)
    requires Consistent(s) && (found.Some? ==> found.value in s.services)
    ensures Exact(s) ==> Exact(OnSessionStop(s, found))
    ensures Bounded(s) ==> Bounded(OnSessionStop(s, found))
    ensures Consistent(OnSessionStop(s, found))
  {
    if found.Some? {
      RemoveServiceFaithful(s, found.value);
      FaithfulKeeps(s, RemoveService(s, found.value));
      RemoveServiceConsistent(s, found.value);
    }
  }

  lemma CreateServiceKeeps(s: State, tmgi: Tmgi, sai: nat)
    requires Consistent(s)
    requires IdFree(s, sai)
    ensures Exact(s) ==> Exact(CreateService(s, tmgi, sai))
    ensures Bounded(s) ==> Bounded(CreateService(s, tmgi, sai))
  {
    CreateServiceFaithful(s, tmgi, sai);
    FaithfulKeeps(s, CreateService(s, tmgi, sai));
  }

  lemma SessionStartKeeps(s: State, tmgi: Tmgi, sai: nat, found: Option<MceId>)
    requires Consistent(s) && FoundByTmgi(s.services, tmgi, sai, found)
    requires IdFree(OnSessionStop(s, found), sai)
    ensures Exact(s) ==> Exact(OnSessionStart(s, tmgi, sai, found))
    ensures Bounded(s) ==> Bounded(OnSessionStart(s, tmgi, sai, found))
  {
    SessionEndKeeps(s, found);
    CreateServiceKeeps(OnSessionStop(s, found), tmgi, sai);
  }

  lemma ContextUpdatedKeeps(s: State, m: MceId, served: set<AssocId>)
    requires m in s.services
    ensures Exact(s) ==> Exact(ContextUpdated(s, m, served))
    ensures Bounded(s) ==> Bounded(ContextUpdated(s, m, served))
  {
    ContextUpdatedFaithful(s, m, served);
    FaithfulKeeps(s, ContextUpdated(s, m, served));
  }

  lemma TimerExpiryKeeps(s: State, m: MceId, found: Option<MceId>)
    requires Consistent(s) && (found.Some? ==> found.value in s.services)
    ensures Exact(s) ==> Exact(OnTimerExpiry(s, m, found))
    ensures Bounded(s) ==> Bounded(OnTimerExpiry(s, m, found))
  {
    if m in s.services {
      var served := Supporting(s.enbs, s.services[m].sai);
      if s.services[m].assocs == map[] {
        if served == {} {
          SessionEndKeeps(s, Some(m));
        }
      } else if served == {} {
        SessionEndKeeps(s, found);
      } else {
        ContextUpdatedKeeps(s, m, served);
      }
    }
  }

  lemma SetupKeeps(cfg: Config, s: State, a: AssocId, req: SetupReq, found: Option<AssocId>)
    requires Consistent(s) && FoundByEnbId(s.enbs, req.enbId, found)
    ensures Exact(s) ==> Exact(OnSetupRequest(cfg, s, a, req, found))
    ensures Bounded(s) ==> Bounded(OnSetupRequest(cfg, s, a, req, found))
  {
    var t := OnSetupRequest(cfg, s, a, req, found);
    if SetupRefusal(cfg, s, req).None? && found.Some? && found.value != a {
      RemoveEnbsFaithful(s, {found.value});
    } else {
      SameServicesFaithful(s, t);
    }
    FaithfulKeeps(s, t);
  }

  lemma NewAssociationKeeps(s: State, a: AssocId)
    requires Consistent(s)
    ensures Exact(s) ==> Exact(OnNewAssociation(s, a))
    ensures Bounded(s) ==> Bounded(OnNewAssociation(s, a))
  {
    SameServicesFaithful(s, OnNewAssociation(s, a));
    FaithfulKeeps(s, OnNewAssociation(s, a));
  }

  lemma SetupResponseKeeps(s: State, a: AssocId, local: nat, ids: seq<nat>)
    requires Consistent(s)
    ensures Exact(s) ==> Exact(OnSetupResponse(s, a, local, ids))
    ensures Bounded(s) ==> Bounded(OnSetupResponse(s, a, local, ids))
  {
    SameServicesFaithful(s, OnSetupResponse(s, a, local, ids));
    FaithfulKeeps(s, OnSetupResponse(s, a, local, ids));
  }

  lemma DisconnectionKeeps(s: State, a: AssocId)
    ensures Exact(s) ==> Exact(OnDisconnection(s, a))
    ensures Bounded(s) ==> Bounded(OnDisconnection(s, a))
  {
    RemoveEnbsFaithful(s, {a});
    FaithfulKeeps(s, RemoveEnbs(s, {a}));
  }

  lemma FullResetKeeps(s: State, a: AssocId)
    ensures Exact(s) ==> Exact(OnFullReset(s, a))
    ensures Bounded(s) ==> Bounded(OnFullReset(s, a))
  {
    FullResetFaithful(s, a);
    FaithfulKeeps(s, OnFullReset(s, a));
  }

  // ---- Main results ----

  /**
    One step, exactly: from a state whose counters are exact, the counters
    stay exact if and only if the event meets `KeepsExact`; from a state whose
    counters do not exceed the associations, they still do not if and only if
    it meets `KeepsBounded`.
  */
  lemma StepCountersIff(cfg: Config, s: State, e: Event)
    requires Consistent(s) && Enabled(s, e)
    ensures Exact(s) ==> (Exact(Step(cfg, s, e)) <==> KeepsExact(cfg, s, e))
    ensures Bounded(s) ==> (Bounded(Step(cfg, s, e)) <==> KeepsBounded(cfg, s, e))
  {
    match e
    case NewAssociation(a) => NewAssociationKeeps(s, a);
    case Disconnection(a) => DisconnectionKeeps(s, a);
    case SetupRequest(a, req, found) => SetupKeeps(cfg, s, a, req, found);
    case SetupResponse(a, local, ids) => SetupResponseKeeps(s, a, local, ids);
    case SessionStart(tmgi, sai, _, found) => SessionStartKeeps(s, tmgi, sai, found);
    case SessionStop(_, _, _, found) => SessionEndKeeps(s, found);
    case SessionUpdate(_, _, newSai, timed, found) =>
      if found.Some? {
        if Supporting(s.enbs, newSai) == {} {
          SessionEndKeeps(s, found);
        } else {
          SessionUpdateIff(cfg, s, newSai, timed, found.value);
        }
      }
    case TimerExpiry(m, found) => TimerExpiryKeeps(s, m, found);
    case StartResponse(a, mce, enb) => StartResponseIff(s, a, Mask24(mce), Mask16(enb));
    case UpdateFailure(a, mce) => DropIff(s, a, Mask24(mce));
    case ErrorIndication(a, mce) => DropIff(s, a, MceIdOf(mce));
    case PartialReset(a, items) => if ResetAllowed(s, a) { ResetIff(s, a, items); }
    case FullReset(a) => FullResetKeeps(s, a);
  }

  ghost predicate ExactThroughout(cfg: Config, events: seq<Event>)
    requires IsRun(cfg, events)
    decreases |events|
  {
    Exact(After(cfg, events)) && (events == [] || ExactThroughout(cfg, events[..|events|-1]))
  }

  ghost predicate BoundedThroughout(cfg: Config, events: seq<Event>)
    requires IsRun(cfg, events)
    decreases |events|
  {
    Bounded(After(cfg, events)) && (events == [] || BoundedThroughout(cfg, events[..|events|-1]))
  }

  /** Every event meets the condition in the state it happens in. */
  ghost predicate AllKeepExact(cfg: Config, events: seq<Event>)
    requires IsRun(cfg, events)
    decreases |events|
  {
    events == [] ||
    (AllKeepExact(cfg, events[..|events|-1]) &&
     KeepsExact(cfg, After(cfg, events[..|events|-1]), events[|events|-1]))
  }

  ghost predicate AllKeepBounded(cfg: Config, events: seq<Event>)
    requires IsRun(cfg, events)
    decreases |events|
  {
    events == [] ||
    (AllKeepBounded(cfg, events[..|events|-1]) &&
     KeepsBounded(cfg, After(cfg, events[..|events|-1]), events[|events|-1]))
  }

  /**
    Whole runs, exactly: the counters equal the number of associations in
    every state of a run if and only if each of its events meets `KeepsExact`
    where it happens, and never exceed it in any state of the run if and only
    if each meets `KeepsBounded`.
  */
  lemma {:induction false} RunCountersIff(cfg: Config, events: seq<Event>)
    requires IsRun(cfg, events)
    ensures ExactThroughout(cfg, events) <==> AllKeepExact(cfg, events)
    ensures BoundedThroughout(cfg, events) <==> AllKeepBounded(cfg, events)
    decreases |events|
  {
    if events == [] {
    } else {
      var before := events[..|events|-1];
      RunCountersIff(cfg, before);
      RunConsistent(cfg, before);
      StepCountersIff(cfg, After(cfg, before), events[|events|-1]);
    }
  }

  /** No start response of the run repeats an association that is there. */
  ghost predicate NoneRepeats(cfg: Config, events: seq<Event>)
    requires IsRun(cfg, events)
    decreases |events|
  {
    events == [] ||
    (var s, e := After(cfg, events[..|events|-1]), events[|events|-1];
     && NoneRepeats(cfg, events[..|events|-1])
     && (e.StartResponse? ==> !RepeatsAssociation(s, e.assoc, Mask24(e.mceRaw), Mask16(e.enbRaw))))
  }

  /** With the guarded decrement, and no repeated start response, no counter ever exceeds its associations. */
  lemma {:induction false} GuardedNeverExceeds(cfg: Config, events: seq<Event>)
    requires IsRun(cfg, events) && cfg.guarded && NoneRepeats(cfg, events)
    ensures BoundedThroughout(cfg, events)
    decreases |events|
  {
    AllGuardedKeepBounded(cfg, events);
    RunCountersIff(cfg, events);
  }

  lemma {:induction false} AllGuardedKeepBounded(cfg: Config, events: seq<Event>)
    requires IsRun(cfg, events) && cfg.guarded && NoneRepeats(cfg, events)
    ensures AllKeepBounded(cfg, events)
    decreases |events|
  {
    if events == [] {
    } else {
      AllGuardedKeepBounded(cfg, events[..|events|-1]);
    }
  }

  // ---- Runs that break the counters ----

  const SETUP := SetupReq(0, 1, true, 1, [1], true)
  const SESSION := Tmgi(0, 1)

  /** One eNB, set up in area 1. */
  const ACCEPTED: seq<Event> := [NewAssociation(7)] + [SetupRequest(7, SETUP, None)]

  const ACCEPTED_STATE := State(map[7 := Enb(Reseting, 1, [1], [], 0, 0)], map[], 1, 1, {7}, multiset{7})

  /** A service in area 1 as well, and the eNB's association with it. */
  const SESSION_CREATED: seq<Event> := ACCEPTED + [SessionStart(SESSION, 1, false, None)]

  const SESSION_CREATED_STATE :=
    ACCEPTED_STATE.(services := map[1 := Service(SESSION, 1, map[])], nextId := 2)

  const STARTED: seq<Event> := SESSION_CREATED + [StartResponse(7, 1, 5)]

  const STARTED_STATE :=
    State(map[7 := Enb(Reseting, 1, [1], [], 0, 1)], map[1 := Service(SESSION, 1, map[7 := 5])],
          1, 2, {7}, multiset{7})

  lemma AcceptedRun(cfg: Config)
    requires cfg.maxEnbs >= 2 && cfg.area.globalTypes >= 1
    ensures IsRun(cfg, ACCEPTED) && After(cfg, ACCEPTED) == ACCEPTED_STATE
  {
    var e1: seq<Event> := [NewAssociation(7)];
    RunExtended(cfg, [], NewAssociation(7));
    assert [] + e1 == e1;
    var s1 := State(map[7 := FRESH_ENB], map[], 1, 1, {}, multiset{});
    assert After(cfg, e1) == s1;
    assert 1 in SETUP.announced && ServiceArea.Valid(cfg.area, 1);
    assert ServiceArea.Recorded(cfg.area, [], [1]) == [1];
    assert SetupRefusal(cfg, s1, SETUP).None?;
    RunExtended(cfg, e1, SetupRequest(7, SETUP, None));
  }

  lemma StartedRun(cfg: Config)
    requires cfg.maxEnbs >= 2 && cfg.area.globalTypes >= 1
    ensures IsRun(cfg, STARTED) && After(cfg, STARTED) == STARTED_STATE
  {
    SessionRun(cfg);
    SessionAnswered(cfg);
    RunExtended(cfg, SESSION_CREATED, StartResponse(7, 1, 5));
  }

  lemma SessionAnswered(cfg: Config)
    ensures Enabled(SESSION_CREATED_STATE, StartResponse(7, 1, 5))
    ensures Step(cfg, SESSION_CREATED_STATE, StartResponse(7, 1, 5)) == STARTED_STATE
  {
  }

  lemma SessionRun(cfg: Config)
    requires cfg.maxEnbs >= 2 && cfg.area.globalTypes >= 1
    ensures IsRun(cfg, SESSION_CREATED) && After(cfg, SESSION_CREATED) == SESSION_CREATED_STATE
  {
    AcceptedRun(cfg);
    assert 7 in Supporting(ACCEPTED_STATE.enbs, 1);
    RunExtended(cfg, ACCEPTED, SessionStart(SESSION, 1, false, None));
  }

  /** An eNB that repeats its start response is counted twice. */
  lemma RepeatedStartResponseOvercounts(cfg: Config)
    requires cfg.maxEnbs >= 2 && cfg.area.globalTypes >= 1
    ensures var run := STARTED + [StartResponse(7, 1, 5)];
            IsRun(cfg, run) && var s := After(cfg, run); 7 in s.enbs && s.enbs[7].nb == 2 && Count(s, 7) == 1
  {
    StartedRun(cfg);
    RunExtended(cfg, STARTED, StartResponse(7, 1, 5));
    assert Holding(After(cfg, STARTED + [StartResponse(7, 1, 5)]), 7) == {1};
  }

  /**
    A session update, even one that keeps the area, sends the counter of an
    idle eNB outside the area from zero to 2^32 - 1.
  */
  lemma UpdateWrapsIdleCounter(cfg: Config)
    requires cfg.maxEnbs >= 2 && cfg.area.globalTypes >= 1 && !cfg.guarded
    ensures var run := STARTED + [NewAssociation(8)] + [SessionUpdate(SESSION, 1, 1, false, Some(1))];
            IsRun(cfg, run) &&
            var s := After(cfg, run);
            8 in s.enbs && s.enbs[8].nb == U32 - 1 && Count(s, 8) == 0
  {
    StartedRun(cfg);
    RunExtended(cfg, STARTED, NewAssociation(8));
    var run := STARTED + [NewAssociation(8)];
    var s := After(cfg, run);
    assert 7 in Supporting(s.enbs, 1);
    RunExtended(cfg, run, SessionUpdate(SESSION, 1, 1, false, Some(1)));
    SessionUpdateCount(cfg, s, 1, false, 1, 8);
    assert Holding(s, 8) == {};
  }
}
