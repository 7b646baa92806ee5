/** What every run of the M2AP task keeps. */
module M2apRuns {
  import opened Common
  import opened M2apState

  /** No two eNBs share a non-zero eNB id. */
  ghost predicate UniqueEnbIds(enbs: map<AssocId, Enb>) {
    forall a, b | a in enbs && b in enbs && a != b && enbs[a].enbId != 0 :: enbs[a].enbId != enbs[b].enbId
  }

  /** Every association names an eNB that is still in the table. */
  ghost predicate NoDangling(s: State) {
    forall m, a | m in s.services && a in s.services[m].assocs :: a in s.enbs
  }

  /** Service ids fit 32 bits; the ones that messages from eNBs cannot name, having more than 24, stay unassociated. */
  ghost predicate ServiceIdsIssued(s: State) {
    && s.nextId < U32
    && forall m | m in s.services ::
         m < U32 && m != INVALID_MCE_ID && (m > INVALID_MCE_ID ==> s.services[m].assocs == map[])
  }

  ghost predicate NoneShutDown(enbs: map<AssocId, Enb>) {
    forall a | a in enbs :: enbs[a].state != Shutdown
  }

  ghost predicate Consistent(s: State) {
    && s.nbEnbs == |s.enbs|
    && NoDangling(s)
    && ServiceIdsIssued(s)
    && NoneShutDown(s.enbs)
    && UniqueEnbIds(s.enbs)
  }

  lemma RemoveEnbsConsistent(s: State, gone: set<AssocId>)
    requires Consistent(s) && gone <= s.enbs.Keys
    ensures Consistent(RemoveEnbs(s, gone))
  {
    var t := RemoveEnbs(s, gone);
    assert s.enbs.Keys == t.enbs.Keys + gone;
    assert |s.enbs.Keys| == |t.enbs.Keys| + |gone|;
  }

  lemma RemoveServiceShape(s: State, m: MceId)
    requires m in s.services && NoneShutDown(s.enbs)
    ensures RemoveService(s, m).services == s.services - {m}
    ensures RemoveService(s, m).enbs.Keys == s.enbs.Keys
    ensures forall a | a in s.enbs :: RemoveService(s, m).enbs[a] ==
              if a in s.services[m].assocs then StatsCleared(s.enbs[a]) else s.enbs[a]
    ensures RemoveService(s, m).nbEnbs == s.nbEnbs
    ensures RemoveService(s, m).accepted == s.accepted
  {
    assert ShutDownWith(s, s.services[m].assocs.Keys) == {};
    var rest := s.services - {m};
    forall k | k in rest ensures rest[k].(assocs := rest[k].assocs - {}) == rest[k] {
      assert rest[k].assocs - {} == rest[k].assocs;
    }
  }

  /** A step that keeps the table's keys and eNB ids and adds no foreign association. */
  lemma FrameConsistent(s: State, t: State)
    requires Consistent(s) && t.enbs.Keys == s.enbs.Keys && t.nbEnbs == s.nbEnbs
    requires forall a | a in s.enbs :: t.enbs[a].enbId == s.enbs[a].enbId && t.enbs[a].state != Shutdown
    requires forall m | m in t.services :: t.services[m].assocs.Keys <= s.enbs.Keys
    requires ServiceIdsIssued(t)
    ensures Consistent(t)
  {
    assert |t.enbs.Keys| == |s.enbs.Keys|;
  }

  lemma RemoveServiceConsistent(s: State, m: MceId)
    requires Consistent(s) && m in s.services
    ensures Consistent(RemoveService(s, m))
  {
    RemoveServiceShape(s, m);
    FrameConsistent(s, RemoveService(s, m));
  }

  lemma SetupConsistent(cfg: Config, s: State, a: AssocId, req: SetupReq, found: Option<AssocId>)
    requires Consistent(s) && FoundByEnbId(s.enbs, req.enbId, found)
    ensures Consistent(OnSetupRequest(cfg, s, a, req, found))
  {
    var t := OnSetupRequest(cfg, s, a, req, found);
    if SetupRefusal(cfg, s, req).None? {
      if found.Some? && found.value != a {
        RemoveEnbsConsistent(s, {found.value});
      } else if a in s.enbs {
        assert t.enbs.Keys == s.enbs.Keys;
        assert |t.enbs.Keys| == |s.enbs.Keys|;
      }
    }
  }

  lemma FreshEnbKeepsIds(enbs: map<AssocId, Enb>, a: AssocId)
    requires UniqueEnbIds(enbs) && NoneShutDown(enbs) && a !in enbs
    ensures UniqueEnbIds(enbs[a := FRESH_ENB]) && NoneShutDown(enbs[a := FRESH_ENB])
  {
  }

  lemma FreshEnbConsistent(s: State, t: State, a: AssocId)
    requires Consistent(s) && a !in s.enbs
    requires t == s.(enbs := s.enbs[a := FRESH_ENB], nbEnbs := s.nbEnbs + 1)
    ensures Consistent(t)
  {
    assert t.enbs.Keys == s.enbs.Keys + {a};
    assert |t.enbs| == |t.enbs.Keys|;
    FreshEnbKeepsIds(s.enbs, a);
    assert NoDangling(t);
  }

  lemma NewAssociationConsistent(s: State, a: AssocId)
    requires Consistent(s)
    ensures Consistent(OnNewAssociation(s, a))
  {
    var t := OnNewAssociation(s, a);
    if a in s.enbs {
      FrameConsistent(s, t);
    } else {
      FreshEnbConsistent(s, t, a);
    }
  }

  lemma SetupResponseConsistent(s: State, a: AssocId, local: nat, ids: seq<nat>)
    requires Consistent(s)
    ensures Consistent(OnSetupResponse(s, a, local, ids))
  {
    FrameConsistent(s, OnSetupResponse(s, a, local, ids));
  }

  lemma ContextUpdatedConsistent(s: State, m: MceId, served: set<AssocId>)
    requires Consistent(s) && m in s.services
    ensures Consistent(ContextUpdated(s, m, served))
  {
    FrameConsistent(s, ContextUpdated(s, m, served));
  }

  lemma AreaStoppedConsistent(cfg: Config, s: State, m: MceId, left: set<AssocId>)
    requires Consistent(s) && m in s.services
    ensures Consistent(AreaStopped(cfg, s, m, left))
  {
    FrameConsistent(s, AreaStopped(cfg, s, m, left));
  }

  lemma SessionUpdateConsistent(cfg: Config, s: State, newSai: nat, timed: bool, found: Option<MceId>)
    requires Consistent(s)
    requires found.Some? ==> found.value in s.services
    ensures Consistent(OnSessionUpdate(cfg, s, newSai, timed, found))
  {
    if found.Some? {
      var m := found.value;
      var served := Supporting(s.enbs, newSai);
      if served == {} {
        RemoveServiceConsistent(s, m);
      } else {
        AreaStoppedConsistent(cfg, s, m, s.enbs.Keys - served);
        var s1 := AreaStopped(cfg, s, m, s.enbs.Keys - served);
        var s2 := s1.(services := s1.services[m := s1.services[m].(sai := newSai)]);
        FrameConsistent(s1, s2);
        ContextUpdatedConsistent(s2, m, served);
      }
    }
  }

  lemma TimerExpiryConsistent(s: State, m: MceId, found: Option<MceId>)
    requires Consistent(s)
    requires found.Some? ==> found.value in s.services
    ensures Consistent(OnTimerExpiry(s, m, found))
  {
    if m in s.services {
      var served := Supporting(s.enbs, s.services[m].sai);
      if served != {} {
        ContextUpdatedConsistent(s, m, served);
      } else if s.services[m].assocs == map[] {
        RemoveServiceConsistent(s, m);
      } else if found.Some? {
        RemoveServiceConsistent(s, found.value);
      }
    }
  }

  lemma CreateServiceConsistent(s: State, tmgi: Tmgi, sai: nat)
    requires Consistent(s)
    requires IdFree(s, sai)
    ensures Consistent(CreateService(s, tmgi, sai))
  {
    FrameConsistent(s, CreateService(s, tmgi, sai));
  }

  lemma SessionStartConsistent(s: State, tmgi: Tmgi, sai: nat, found: Option<MceId>)
    requires Consistent(s) && FoundByTmgi(s.services, tmgi, sai, found)
    requires IdFree(OnSessionStop(s, found), sai)
    ensures Consistent(OnSessionStart(s, tmgi, sai, found))
  {
    var s1 := OnSessionStop(s, found);
    if found.Some? {
      RemoveServiceConsistent(s, found.value);
    }
    CreateServiceConsistent(s1, tmgi, sai);
  }

  lemma StartResponseConsistent(s: State, a: AssocId, m: MceId, id: EnbMbmsId)
    requires Consistent(s)
    requires m <= INVALID_MCE_ID
    ensures Consistent(OnStartResponse(s, a, m, id))
  {
    FrameConsistent(s, OnStartResponse(s, a, m, id));
  }

  lemma OnDropConsistent(s: State, a: AssocId, m: MceId)
    requires Consistent(s)
    ensures Consistent(OnDrop(s, a, m))
  {
    FrameConsistent(s, OnDrop(s, a, m));
  }

  lemma FullResetConsistent(s: State, a: AssocId)
    requires Consistent(s)
    ensures Consistent(OnFullReset(s, a))
  {
    FrameConsistent(s, OnFullReset(s, a));
  }

  lemma {:induction false} ResetItemsConsistent(s: State, a: AssocId, items: seq<ResetItem>)
    requires Consistent(s)
    ensures Consistent(OnResetItems(s, a, items))
    decreases |items|
  {
    if items == [] {
    } else {
      ResetItemsConsistent(s, a, items[..|items|-1]);
      OnDropConsistent(OnResetItems(s, a, items[..|items|-1]), a, ItemMce(items[|items|-1]));
    }
  }

  lemma StepConsistent(cfg: Config, s: State, e: Event)
    requires Consistent(s) && Enabled(s, e)
    ensures Consistent(Step(cfg, s, e))
  {
    match e
    case NewAssociation(a) => NewAssociationConsistent(s, a);
    case Disconnection(a) => if a in s.enbs { RemoveEnbsConsistent(s, {a}); }
    case SetupRequest(a, req, found) => SetupConsistent(cfg, s, a, req, found);
    case SetupResponse(a, local, ids) => SetupResponseConsistent(s, a, local, ids);
    case SessionStart(tmgi, sai, _, found) => SessionStartConsistent(s, tmgi, sai, found);
    case SessionStop(_, _, _, found) => if found.Some? { RemoveServiceConsistent(s, found.value); }
    case SessionUpdate(_, _, newSai, timed, found) => SessionUpdateConsistent(cfg, s, newSai, timed, found);
    case TimerExpiry(m, found) => TimerExpiryConsistent(s, m, found);
    case StartResponse(a, mce, enb) => StartResponseConsistent(s, a, Mask24(mce), Mask16(enb));
    case UpdateFailure(a, mce) => OnDropConsistent(s, a, Mask24(mce));
    case ErrorIndication(a, mce) => OnDropConsistent(s, a, MceIdOf(mce));
    case PartialReset(a, items) => ResetItemsConsistent(s, a, items);
    case FullReset(a) => FullResetConsistent(s, a);
  }

  /**
    In every reachable state the global counter is the size of the eNB table,
    every association of every service names an eNB in the table, no eNB id
    other than zero occurs twice, and no eNB is ever shutting down.
  */
  lemma {:induction false} RunConsistent(cfg: Config, events: seq<Event>)
    requires IsRun(cfg, events)
    ensures Consistent(After(cfg, events))
    decreases |events|
  {
    if events == [] {
    } else {
      RunConsistent(cfg, events[..|events|-1]);
      StepConsistent(cfg, After(cfg, events[..|events|-1]), events[|events|-1]);
    }
  }

  lemma {:induction false} RunExtended(cfg: Config, events: seq<Event>, e: Event)
    requires IsRun(cfg, events) && Enabled(After(cfg, events), e)
    ensures IsRun(cfg, events + [e])
    ensures After(cfg, events + [e]) == Step(cfg, After(cfg, events), e)
  {
    assert (events + [e])[..|events|] == events;
  }

  /**
    Losing the connection, and a full reset of a ready eNB, take away exactly
    this eNB's associations. Every other eNB keeps its description, counter
    included, and its associations; a disconnected eNB also leaves the table.
  */
  lemma TeardownIsExact(cfg: Config, s: State, e: Event)
    requires Consistent(s) && (e.Disconnection? || e.FullReset?)
    ensures var t := Step(cfg, s, e);
            && (forall b | b != e.assoc :: Holding(t, b) == Holding(s, b))
            && t.enbs - {e.assoc} == s.enbs - {e.assoc}
            && (forall m, b | m in s.services && b != e.assoc && b in s.services[m].assocs ::
                  t.services[m].assocs[b] == s.services[m].assocs[b])
            && (e.Disconnection? ==> e.assoc !in t.enbs && Holding(t, e.assoc) == {})
            && (e.FullReset? && ResetAllowed(s, e.assoc) ==>
                  e.assoc in t.enbs && t.enbs[e.assoc].nb == 0 && Holding(t, e.assoc) == {})
  {
    var t := Step(cfg, s, e);
    forall b | b != e.assoc ensures Holding(t, b) == Holding(s, b) {
      assert forall m | m in s.services :: b in t.services[m].assocs <==> b in s.services[m].assocs;
    }
    if e.assoc !in s.enbs {
      assert Holding(s, e.assoc) == {};
    }
  }

  /** Reset items touch one eNB's counter and the services' maps only. */
  lemma {:induction false} ResetItemsFrame(s: State, a: AssocId, items: seq<ResetItem>)
    requires a in s.enbs
    ensures var t := OnResetItems(s, a, items);
            && t.enbs == s.enbs[a := s.enbs[a].(nb := if a in t.enbs then t.enbs[a].nb else 0)]
            && t.services.Keys == s.services.Keys
            && t == s.(enbs := t.enbs, services := t.services)
    decreases |items|
  {
    if items != [] {
      ResetItemsFrame(s, a, items[..|items|-1]);
    } else {
      assert s.enbs == s.enbs[a := s.enbs[a]];
    }
  }
}
