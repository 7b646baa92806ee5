/**
  The M2AP task itself: the tables as mutable fields and the event handlers as
  methods with the loops of the source. Each handler is proved to make exactly
  the step of the state machine in `M2apState` and to send exactly the messages
  given in `M2apMessages`, each once. A handler that collects eNBs does so if
  and only if they fit its arrays, and says so.
*/
module M2apTask {
  import opened Common
  import opened M2apState
  import opened M2apMessages
  import EnbSearch
  import ServiceArea

  /** `after` extends `before` by the messages in `msgs`, each once, in some order. */
  ghost predicate SentExactly(before: seq<Msg>, after: seq<Msg>, msgs: set<Msg>) {
    before <= after && multiset(after[|before|..]) == multiset(msgs)
  }

  lemma SentOneMore(before: seq<Msg>, after: seq<Msg>, msgs: set<Msg>, msg: Msg)
    requires SentExactly(before, after, msgs) && msg !in msgs
    ensures SentExactly(before, after + [msg], msgs + {msg})
  {
    assert (after + [msg])[|before|..] == after[|before|..] + [msg];
    assert multiset(msgs + {msg}) == multiset(msgs) + multiset{msg};
  }

  lemma SentNothing(before: seq<Msg>, after: seq<Msg>)
    requires SentExactly(before, after, {})
    ensures after == before
  {
    assert |multiset(after[|before|..])| == 0;
    assert after == before + after[|before|..];
  }

  lemma SentBoth(first: seq<Msg>, second: seq<Msg>, third: seq<Msg>, xs: set<Msg>, ys: set<Msg>)
    requires SentExactly(first, second, xs) && SentExactly(second, third, ys) && xs !! ys
    ensures SentExactly(first, third, xs + ys)
  {
    assert third[|first|..] == second[|first|..] + third[|second|..];
    assert multiset(xs + ys) == multiset(xs) + multiset(ys);
  }

  /** The eNBs that announced, or did not announce, a service area. */
  ghost function Matching(enbs: map<AssocId, Enb>, sai: nat, announced: bool): set<AssocId> {
    if announced then Supporting(enbs, sai) else Outside(enbs, sai)
  }

  class Task {
    const cfg: Config
    var enbs: map<AssocId, Enb>         // g_m2ap_enb_coll
    var services: map<MceId, Service>   // g_m2ap_mbms_coll
    var nbEnbs: int                     // nb_m2ap_enb_associated
    var nextId: nat                     // mce_mbms_m2ap_id_generator
    var sent: seq<Msg>
    ghost var accepted: set<AssocId>
    ghost var pending: multiset<AssocId>

    ghost function View(): State
      reads this
    {
      State(enbs, services, nbEnbs, nextId, accepted, pending)
    }

    constructor (config: Config)
      ensures cfg == config && View() == INITIAL && sent == []
    {
      cfg := config;
      enbs, services, nbEnbs, nextId, sent := map[], map[], 0, 1, [];
      accepted, pending := {}, multiset{};
    }

    // ---- Searches ----

    /**
      The eNBs that announced (or did not announce) a service area, in hash
      order; none if they do not fit an array of `maxEnbs` entries.
    */
    method CollectBySai(sai: nat, announced: bool) returns (list: Option<seq<AssocId>>)
      ensures list.Some? <==> |Matching(enbs, sai, announced)| <= cfg.maxEnbs
      ensures list.Some? ==> Distinct(list.value) && Elems(list.value) == Matching(enbs, sai, announced)
    {
      var table := enbs;
      list := EnbSearch.CollectAll(table.Keys, a => a in table && (sai in table[a].areas) == announced, cfg.maxEnbs);
      assert EnbSearch.Matches(table.Keys, a => a in table && (sai in table[a].areas) == announced) ==
             Matching(table, sai, announced);
    }

    method FindByEnbId(enbId: nat) returns (found: Option<AssocId>)
      ensures FoundByEnbId(enbs, enbId, found)
    {
      found := None;
      var rest := enbs.Keys;
      while rest != {}
        invariant rest <= enbs.Keys
        invariant forall a | a in enbs.Keys - rest :: enbs[a].enbId != enbId
        decreases |rest|
      {
        var a :| a in rest;
        if enbs[a].enbId == enbId {
          return Some(a);
        }
        rest := rest - {a};
      }
    }

    method FindByTmgi(tmgi: Tmgi, sai: nat) returns (found: Option<MceId>)
      ensures FoundByTmgi(services, tmgi, sai, found)
    {
      found := None;
      var rest := services.Keys;
      while rest != {}
        invariant rest <= services.Keys
        invariant forall m | m in services.Keys - rest :: services[m].tmgi != tmgi || services[m].sai != sai
        decreases |rest|
      {
        var m :| m in rest;
        if services[m].tmgi == tmgi && services[m].sai == sai {
          return Some(m);
        }
        rest := rest - {m};
      }
    }

    // ---- Removal ----

    /** Every service forgets the association. */
    method ForgetAssociation(a: AssocId)
      modifies this`services
      ensures services == WithoutAssocs(old(services), {a})
    {
      var rest := services.Keys;
      while rest != {}
        invariant services.Keys == old(services).Keys && rest <= services.Keys
        invariant forall m | m in rest :: services[m] == old(services)[m]
        invariant forall m | m in services.Keys - rest ::
                    services[m] == old(services)[m].(assocs := old(services)[m].assocs - {a})
        decreases |rest|
      {
        var m :| m in rest;
        rest := rest - {m};
        services := services[m := services[m].(assocs := services[m].assocs - {a})];
      }
    }

    method FreeEnb(a: AssocId)
      requires a in enbs
      modifies this`enbs, this`services, this`nbEnbs, this`accepted
      ensures View() == RemoveEnbs(old(View()), {a})
    {
      ForgetAssociation(a);
      enbs := enbs - {a};
      nbEnbs := nbEnbs - 1;
      accepted := accepted - {a};
    }

    /** The statistics callback for one association of a service that is being removed. */
    method ClearStats(a: AssocId)
      modifies this`enbs, this`services, this`nbEnbs, this`accepted
      ensures a !in old(enbs) ==> View() == old(View())
      ensures a in old(enbs) ==>
                var e := StatsCleared(old(enbs)[a]);
                View() == if e.nb == 0 && e.state == Shutdown
                          then RemoveEnbs(old(View()).(enbs := old(enbs)[a := e]), {a})
                          else old(View()).(enbs := old(enbs)[a := e])
    {
      if a in enbs {
        if enbs[a].nb > 0 {
          enbs := enbs[a := enbs[a].(nb := enbs[a].nb - 1)];
        }
        if enbs[a].nb == 0 {
          if enbs[a].state == Reseting {
            enbs := enbs[a := enbs[a].(state := Init)];
          } else if enbs[a].state == Shutdown {
            FreeEnb(a);
          }
        }
      }
    }

    method FreeService(m: MceId)
      requires m in services
      modifies this`enbs, this`services, this`nbEnbs, this`accepted
      ensures View() == RemoveService(old(View()), m)
    {
      var assocs := services[m].assocs;
      NothingCleared(View(), m);
      services := services - {m};
      ClearStatsOfAll(assocs.Keys, old(View()), m);
    }

    /** The callback over the associations of a service already taken out. */
    method ClearStatsOfAll(assocs: set<AssocId>, ghost s: State, ghost m: MceId)
      requires View() == ServiceFreed(s, m, {})
      modifies this`enbs, this`services, this`nbEnbs, this`accepted
      ensures View() == ServiceFreed(s, m, assocs)
    {
      var rest := assocs;
      ghost var done: set<AssocId> := {};
      while rest != {}
        invariant done !! rest && done + rest == assocs
        invariant View() == ServiceFreed(s, m, done)
        decreases |rest|
      {
        var a :| a in rest;
        OneMoreCleared(s, m, done, a);
        rest, done := rest - {a}, done + {a};
        ClearStats(a);
      }
    }

    // ---- Requests to eNBs ----

    method GenerateStop(m: MceId, a: AssocId)
      modifies this`sent
      ensures SentExactly(old(sent), sent, DropMsgs(View(), a, m))
    {
      if m !in services || a !in enbs {
        return;
      }
      var id := if a in services[m].assocs then services[m].assocs[a] else INVALID_ENB_MBMS_ID;
      if id == INVALID_ENB_MBMS_ID {
        assert DropMsgs(View(), a, m) == {};
        return;
      }
      sent := sent + [StopReq(a, m, id)];
      assert DropMsgs(View(), a, m) == {StopReq(a, m, id)};
    }

    method GenerateUpdate(m: MceId, a: AssocId) returns (ok: bool)
      modifies this`sent
      ensures ok <==> m in services && a in enbs && CurrentId(services[m], a) != INVALID_ENB_MBMS_ID
      ensures SentExactly(old(sent), sent, if ok then {UpdateReq(a, m, CurrentId(services[m], a))} else {})
    {
      if m !in services || a !in enbs {
        return false;
      }
      var id := if a in services[m].assocs then services[m].assocs[a] else INVALID_ENB_MBMS_ID;
      if id == INVALID_ENB_MBMS_ID {
        return false;
      }
      sent := sent + [UpdateReq(a, m, id)];
      return true;
    }

    method GenerateStart(m: MceId, list: seq<AssocId>)
      requires Distinct(list)
      modifies this`sent
      ensures SentExactly(old(sent), sent, if m in services then StartsTo(m, Elems(list)) else {})
    {
      if m !in services || list == [] {
        return;
      }
      for i := 0 to |list|
        invariant SentExactly(old(sent), sent, StartsTo(m, Elems(list[..i])))
      {
        ElemsStep(list, i);
        DistinctFresh(list, i);
        SentOneMore(old(sent), sent, StartsTo(m, Elems(list[..i])), StartReq(list[i], m));
        sent := sent + [StartReq(list[i], m)];
        assert StartsTo(m, Elems(list[..i])) + {StartReq(list[i], m)} == StartsTo(m, Elems(list[..i+1]));
      }
      assert list[..|list|] == list;
    }

    method SendStops(m: MceId, list: seq<AssocId>)
      requires m in services && Distinct(list) && Elems(list) <= enbs.Keys
      modifies this`sent
      ensures SentExactly(old(sent), sent, StopsTo(services[m], m, Elems(list)))
    {
      for i := 0 to |list|
        invariant SentExactly(old(sent), sent, StopsTo(services[m], m, Elems(list[..i])))
      {
        ghost var before := sent;
        assert list[i] in Elems(list);
        GenerateStop(m, list[i]);
        StopsToOneMore(services[m], m, list, i);
        SentBoth(old(sent), before, sent,
                 StopsTo(services[m], m, Elems(list[..i])), StopsTo(services[m], m, {list[i]}));
      }
      assert list[..|list|] == list;
    }

    // ---- Sessions ----

    /** As every handler that collects eNBs: `ok` says that they fit their array. */
    method StopSession(found: Option<MceId>, sai: nat, inform: bool) returns (ok: bool)
      requires found.Some? ==> found.value in services
      modifies this`enbs, this`services, this`nbEnbs, this`accepted, this`sent
      ensures ok <==> (found.Some? && inform ==> |Supporting(old(enbs), sai)| <= cfg.maxEnbs)
      ensures ok ==> View() == OnSessionStop(old(View()), found)
      ensures ok ==> SentExactly(old(sent), sent, if inform then StopSessionMsgs(old(View()), sai, found) else {})
      ensures !ok ==> View() == old(View()) && sent == old(sent)
    {
      if found.None? {
        return true;
      }
      var m := found.value;
      if inform {
        var list := CollectBySai(sai, true);
        if list.None? {
          return false;
        }
        SendStops(m, list.value);
      }
      FreeService(m);
      return true;
    }

    method HandleSessionStop(tmgi: Tmgi, sai: nat, inform: bool) returns (ok: bool, ghost found: Option<MceId>)
      modifies this`enbs, this`services, this`nbEnbs, this`accepted, this`sent
      ensures Enabled(old(View()), SessionStop(tmgi, sai, inform, found))
      ensures ok <==> ArraysHold(cfg, old(View()), SessionStop(tmgi, sai, inform, found))
      ensures ok ==> View() == Step(cfg, old(View()), SessionStop(tmgi, sai, inform, found))
      ensures ok ==> SentExactly(old(sent), sent, Out(cfg, old(View()), SessionStop(tmgi, sai, inform, found)))
      ensures !ok ==> View() == old(View()) && sent == old(sent)
    {
      var service := FindByTmgi(tmgi, sai);
      found := service;
      ok := StopSession(service, sai, inform);
    }

    /** A new service description under the next id, unless that is the invalid one. */
    method NewService(tmgi: Tmgi, sai: nat) returns (m: Option<MceId>)
      requires nextId != INVALID_MCE_ID ==> nextId !in services
      modifies this`services, this`nextId
      ensures nextId == Incremented(old(nextId))
      ensures m == if old(nextId) == INVALID_MCE_ID then None else Some(old(nextId))
      ensures services == if m.Some? then old(services)[m.value := Service(tmgi, sai, map[])] else old(services)
    {
      var id := nextId;
      nextId := Incremented(nextId);
      if id == INVALID_MCE_ID {
        return None;
      }
      services := services[id := Service(tmgi, sai, map[])];
      return Some(id);
    }

    method CreateAndStart(tmgi: Tmgi, sai: nat, timed: bool) returns (ok: bool)
      requires IdFree(View(), sai)
      modifies this`services, this`nextId, this`sent
      ensures ok <==> |Supporting(enbs, sai)| <= cfg.maxEnbs
      ensures ok ==> View() == CreateService(old(View()), tmgi, sai)
      ensures ok ==> SentExactly(old(sent), sent, CreatedMsgs(old(View()), sai, timed))
      ensures !ok ==> View() == old(View()) && sent == old(sent)
    {
      var list := CollectBySai(sai, true);
      if list.None? {
        return false;
      }
      if list.value == [] {
        return true;
      }
      assert list.value[0] in Elems(list.value);
      var m := NewService(tmgi, sai);
      if m.None? || timed {
        return true;
      }
      GenerateStart(m.value, list.value);
      return true;
    }

    /**
      `timed` says that the request carries a start time and its timer could be
      set. The service found first is stopped; the source searches for it a
      second time in the unchanged table.
    */
    method HandleSessionStart(tmgi: Tmgi, sai: nat, timed: bool) returns (ok: bool, ghost found: Option<MceId>)
      requires forall f | FoundByTmgi(services, tmgi, sai, f) :: IdFree(OnSessionStop(View(), f), sai)
      modifies this`enbs, this`services, this`nbEnbs, this`nextId, this`accepted, this`sent
      ensures Enabled(old(View()), SessionStart(tmgi, sai, timed, found))
      ensures ok <==> ArraysHold(cfg, old(View()), SessionStart(tmgi, sai, timed, found))
      ensures ok ==> View() == Step(cfg, old(View()), SessionStart(tmgi, sai, timed, found))
      ensures ok ==> SentExactly(old(sent), sent, Out(cfg, old(View()), SessionStart(tmgi, sai, timed, found)))
      ensures !ok ==> View() == old(View()) && sent == old(sent)
    {
      var service := FindByTmgi(tmgi, sai);
      found := service;
      ok := StopSession(service, sai, true);
      if !ok {
        return;
      }
      ghost var s1, stopped := View(), sent;
      FewerSupporting(old(View()), found, sai);
      ok := CreateAndStart(tmgi, sai, timed);
      if !ok {
        SentNothing(old(sent), sent);
        return;
      }
      SentBoth(old(sent), stopped, sent, StopSessionMsgs(old(View()), sai, found), CreatedMsgs(s1, sai, timed));
    }

    /** One eNB of the service's area: update it if it is associated, else start it. */
    method UpdateOne(m: MceId, a: AssocId)
      requires m in services && a in enbs
      modifies this`enbs, this`services, this`sent
      ensures View() == (if a in Unreachable(old(services)[m], {a}) then Dropped(old(View()), a, m) else old(View()))
      ensures SentExactly(old(sent), sent, ContextMsgs(old(services)[m], m, {a}))
    {
      if a in services[m].assocs {
        var ok := GenerateUpdate(m, a);
        if !ok {
          StopAndDrop(a, m);
        }
      } else {
        GenerateStart(m, [a]);
        assert Elems([a]) == {a};
      }
    }

    method UpdateEach(m: MceId, list: seq<AssocId>)
      requires m in services && Distinct(list) && Elems(list) <= enbs.Keys
      modifies this`enbs, this`services, this`sent
      ensures View() == ContextUpdated(old(View()), m, Elems(list))
      ensures SentExactly(old(sent), sent, ContextMsgs(old(services)[m], m, Elems(list)))
    {
      ghost var s := old(View());
      ghost var svc := services[m];
      NothingUpdated(s, m);
      assert Elems(list[..0]) == {};
      for i := 0 to |list|
        invariant View() == ContextUpdated(s, m, Elems(list[..i]))
        invariant SentExactly(old(sent), sent, ContextMsgs(svc, m, Elems(list[..i])))
      {
        assert list[i] in Elems(list);
        ElemsStep(list, i);
        DistinctFresh(list, i);
        OneMoreUpdated(s, m, Elems(list[..i]), list[i]);
        ghost var before := sent;
        UpdateOne(m, list[i]);
        SentBoth(old(sent), before, sent, ContextMsgs(svc, m, Elems(list[..i])), ContextMsgs(svc, m, {list[i]}));
      }
      assert list[..|list|] == list;
    }

    /** Brings the eNBs of the service's area up to date. */
    method UpdateServiceContext(m: MceId) returns (ok: bool, ghost found: Option<MceId>)
      requires m in services
      modifies this`enbs, this`services, this`nbEnbs, this`accepted, this`sent
      ensures FoundByTmgi(old(services), old(services)[m].tmgi, old(services)[m].sai, found)
      ensures ok <==> |Supporting(old(enbs), old(services)[m].sai)| <= cfg.maxEnbs
      ensures !ok ==> View() == old(View()) && sent == old(sent)
      ensures ok ==>
              View() == (var served := Supporting(old(enbs), old(services)[m].sai);
                         if served == {} then OnSessionStop(old(View()), found)
                         else ContextUpdated(old(View()), m, served))
      ensures ok ==>
              SentExactly(old(sent), sent,
                          var served := Supporting(old(enbs), old(services)[m].sai);
                          if served == {} then StopSessionMsgs(old(View()), old(services)[m].sai, found)
                          else ContextMsgs(old(services)[m], m, served))
    {
      found := Some(m);
      var list := CollectBySai(services[m].sai, true);
      if list.None? {
        return false, found;
      }
      if list.value == [] {
        var service := FindByTmgi(services[m].tmgi, services[m].sai);
        found := service;
        ok := StopSession(service, services[m].sai, true);
      } else {
        assert list.value[0] in Elems(list.value);
        UpdateEach(m, list.value);
        ok := true;
      }
    }

    /** An eNB outside the service's new area: stop it, count it down, forget it. */
    method LeaveOutOne(m: MceId, a: AssocId)
      requires m in services && a in enbs
      modifies this`enbs, this`services, this`sent
      ensures View() == AreaStopped(cfg, old(View()), m, {a})
      ensures SentExactly(old(sent), sent, StopsTo(old(services)[m], m, {a}))
    {
      GenerateStop(m, a);
      enbs := enbs[a := enbs[a].(nb := DecrementedForArea(cfg, enbs[a].nb))];
      services := services[m := services[m].(assocs := services[m].assocs - {a})];
      assert enbs == AreaStopped(cfg, old(View()), m, {a}).enbs;
    }

    method LeaveOutEach(m: MceId, list: seq<AssocId>)
      requires m in services && Distinct(list) && Elems(list) <= enbs.Keys
      modifies this`enbs, this`services, this`sent
      ensures View() == AreaStopped(cfg, old(View()), m, Elems(list))
      ensures SentExactly(old(sent), sent, StopsTo(old(services)[m], m, Elems(list)))
    {
      ghost var s := old(View());
      ghost var svc := services[m];
      NoneLeftOut(cfg, s, m);
      assert Elems(list[..0]) == {};
      for i := 0 to |list|
        invariant View() == AreaStopped(cfg, s, m, Elems(list[..i]))
        invariant SentExactly(old(sent), sent, StopsTo(svc, m, Elems(list[..i])))
      {
        assert list[i] in Elems(list);
        ElemsStep(list, i);
        DistinctFresh(list, i);
        StopsToOneMore(svc, m, list, i);
        OneMoreLeftOut(cfg, s, m, Elems(list[..i]), list[i]);
        ghost var before := sent;
        LeaveOutOne(m, list[i]);
        SentBoth(old(sent), before, sent, StopsTo(svc, m, Elems(list[..i])), StopsTo(svc, m, {list[i]}));
      }
      assert list[..|list|] == list;
    }

    /** The eNBs outside the new area are left out, and the service takes on the area. */
    method MoveOut(m: MceId, newSai: nat, missing: seq<AssocId>)
      requires m in services && Distinct(missing) && Elems(missing) == Outside(enbs, newSai)
      modifies this`enbs, this`services, this`sent
      ensures View() == MovedOut(cfg, old(View()), m, newSai)
      ensures SentExactly(old(sent), sent, StopsTo(old(services)[m], m, Outside(old(enbs), newSai)))
    {
      LeaveOutEach(m, missing);
      services := services[m := services[m].(sai := newSai)];
    }

    /** The service moves to its new area; with a timer the served eNBs are updated later. */
    method MoveService(m: MceId, newSai: nat, timed: bool) returns (ok: bool)
      requires m in services && Supporting(enbs, newSai) != {} && |Supporting(enbs, newSai)| <= cfg.maxEnbs
      modifies this`enbs, this`services, this`nbEnbs, this`accepted, this`sent
      ensures ok <==> |Outside(old(enbs), newSai)| <= cfg.maxEnbs
      ensures ok ==> View() == OnSessionUpdate(cfg, old(View()), newSai, timed, Some(m))
      ensures ok ==> SentExactly(old(sent), sent, SessionUpdateMsgs(old(View()), newSai, timed, Some(m)))
      ensures !ok ==> View() == old(View()) && sent == old(sent)
    {
      var missing := CollectBySai(newSai, false);
      if missing.None? {
        return false;
      }
      ok := true;
      MoveOut(m, newSai, missing.value);
      MovedOutShape(cfg, old(View()), m, newSai);
      if timed {
        return;
      }
      ghost var moved, stopped := View(), sent;
      ghost var found;
      ok, found := UpdateServiceContext(m);
      SentBoth(old(sent), stopped, sent, StopsTo(old(services)[m], m, Outside(old(enbs), newSai)),
               ContextMsgs(moved.services[m], m, Supporting(old(enbs), newSai)));
    }

    method HandleSessionUpdate(tmgi: Tmgi, sai: nat, newSai: nat, timed: bool)
      returns (ok: bool, ghost found: Option<MceId>)
      modifies this`enbs, this`services, this`nbEnbs, this`accepted, this`sent
      ensures Enabled(old(View()), SessionUpdate(tmgi, sai, newSai, timed, found))
      ensures ok <==> ArraysHold(cfg, old(View()), SessionUpdate(tmgi, sai, newSai, timed, found))
      ensures ok ==> View() == Step(cfg, old(View()), SessionUpdate(tmgi, sai, newSai, timed, found))
      ensures ok ==> SentExactly(old(sent), sent, Out(cfg, old(View()), SessionUpdate(tmgi, sai, newSai, timed, found)))
      ensures !ok ==> View() == old(View()) && sent == old(sent)
    {
      var service := FindByTmgi(tmgi, sai);
      found := service;
      if service.None? {
        return true, found;
      }
      var served := CollectBySai(newSai, true);
      if served.None? {
        return false, found;
      }
      if served.value == [] {
        ok := StopSession(service, services[service.value].sai, true);
        return;
      }
      assert served.value[0] in Elems(served.value);
      ok := MoveService(service.value, newSai, timed);
    }

    method HandleTimerExpiry(m: MceId) returns (ok: bool, ghost found: Option<MceId>)
      modifies this`enbs, this`services, this`nbEnbs, this`accepted, this`sent
      ensures Enabled(old(View()), TimerExpiry(m, found))
      ensures ok <==> ArraysHold(cfg, old(View()), TimerExpiry(m, found))
      ensures ok ==> View() == Step(cfg, old(View()), TimerExpiry(m, found))
      ensures ok ==> SentExactly(old(sent), sent, Out(cfg, old(View()), TimerExpiry(m, found)))
      ensures !ok ==> View() == old(View()) && sent == old(sent)
    {
      ok, found := true, None;
      if m !in services {
        return;
      }
      if services[m].assocs == map[] {
        found := Some(m);
        var list := CollectBySai(services[m].sai, true);
        if list.None? {
          return false, found;
        }
        if list.value == [] {
          FreeService(m);
        } else {
          assert list.value[0] in Elems(list.value);
          GenerateStart(m, list.value);
        }
      } else {
        ok, found := UpdateServiceContext(m);
      }
    }

    // ---- Associations and setup ----

    method HandleNewAssociation(a: AssocId)
      modifies this`enbs, this`nbEnbs
      ensures View() == Step(cfg, old(View()), NewAssociation(a))
    {
      if a !in enbs {
        nbEnbs := nbEnbs + 1;
        enbs := enbs[a := FRESH_ENB];
      } else if enbs[a].state == Shutdown || enbs[a].state == Reseting {
        return;
      }
      enbs := enbs[a := enbs[a].(state := Init)];
    }

    method HandleDisconnection(a: AssocId)
      modifies this`enbs, this`services, this`nbEnbs, this`accepted
      ensures View() == Step(cfg, old(View()), Disconnection(a))
    {
      if a in enbs {
        FreeEnb(a);
      }
    }

    method CheckSetup(req: SetupReq) returns (refusal: Option<(Cause, bool)>)
      ensures refusal == SetupRefusal(cfg, View(), req)
    {
      if req.stream != 0 {
        return Some((ProtocolUnspecified, false));
      }
      if nbEnbs >= cfg.maxEnbs {
        return Some((Overload, true));
      }
      if !req.plmnMatches {
        return Some((MiscUnspecified, true));
      }
      if req.cells > 1 {
        return Some((MiscUnspecified, true));
      }
      var matches := ServiceArea.CompareAreaList(cfg.area, req.announced);
      if !matches {
        return Some((MiscUnspecified, true));
      }
      if !req.synchMatches {
        return Some((MiscUnspecified, true));
      }
      return None;
    }

    method Forward(a: AssocId, enbId: nat)
      requires a in enbs
      modifies this`accepted, this`pending, this`sent
      ensures View() == Forwarded(old(View()), a)
      ensures sent == old(sent) + [SetupForward(a, enbId, enbs[a].areas)]
    {
      accepted := accepted + {a};
      pending := pending + multiset{a};
      sent := sent + [SetupForward(a, enbId, enbs[a].areas)];
    }

    /** The eNB table's part of a setup request that passed the checks. */
    method AcceptSetup(a: AssocId, req: SetupReq, enb: Option<AssocId>)
      requires FoundByEnbId(enbs, req.enbId, enb) && SetupRefusal(cfg, View(), req).None?
      modifies this`enbs, this`services, this`nbEnbs, this`accepted, this`pending, this`sent
      ensures View() == OnSetupRequest(cfg, old(View()), a, req, enb)
      ensures SentExactly(old(sent), sent, SetupRequestMsgs(cfg, old(View()), a, req, enb))
    {
      if enb.None? {
        if a !in enbs {
          return;
        }
        enbs := enbs[a := enbs[a].(state := Reseting)];
        enbs := enbs[a := enbs[a].(enbId := req.enbId)];
        var areas := ServiceArea.RecordArea(cfg.area, enbs[a].areas, req.announced);
        enbs := enbs[a := enbs[a].(areas := areas)];
      } else {
        var b := enb.value;
        enbs := enbs[b := enbs[b].(state := Reseting)];
        if b != a {
          sent := sent + [SetupFailure(a, MiscUnspecified, false)];
          FreeEnb(b);
          assert enbs == old(enbs) - {b};
          return;
        }
      }
      Forward(a, req.enbId);
    }

    method HandleSetupRequest(a: AssocId, req: SetupReq) returns (ghost found: Option<AssocId>)
      requires req.cells >= 1
      modifies this`enbs, this`services, this`nbEnbs, this`accepted, this`pending, this`sent
      ensures Enabled(old(View()), SetupRequest(a, req, found))
      ensures View() == Step(cfg, old(View()), SetupRequest(a, req, found))
      ensures SentExactly(old(sent), sent, Out(cfg, old(View()), SetupRequest(a, req, found)))
    {
      var enb := FindByEnbId(req.enbId);
      found := enb;
      var refusal := CheckSetup(req);
      if refusal.Some? {
        sent := sent + [SetupFailure(a, refusal.value.0, refusal.value.1)];
      } else {
        AcceptSetup(a, req, enb);
      }
    }

    method HandleSetupResponse(a: AssocId, local: nat, ids: seq<nat>)
      modifies this`enbs, this`pending, this`sent
      ensures View() == Step(cfg, old(View()), SetupResponse(a, local, ids))
      ensures SentExactly(old(sent), sent, Out(cfg, old(View()), SetupResponse(a, local, ids)))
    {
      pending := pending - multiset{a};
      if a !in enbs {
        return;
      }
      if ids == [] {
        sent := sent + [SetupFailure(a, MiscUnspecified, false)];
        return;
      }
      var mbsfnIds := AppendIds(enbs[a].mbsfnIds, ids);
      enbs := enbs[a := enbs[a].(localArea := local, mbsfnIds := mbsfnIds, state := Ready)];
      sent := sent + [SetupAnswer(a, ids)];
    }

    // ---- Messages from eNBs about a service ----

    method HandleStartResponse(a: AssocId, mceRaw: nat, enbRaw: nat)
      requires Mask24(mceRaw) in services ==> a in enbs
      modifies this`enbs, this`services
      ensures View() == Step(cfg, old(View()), StartResponse(a, mceRaw, enbRaw))
    {
      var m, id := Mask24(mceRaw), Mask16(enbRaw);
      if m !in services {
        return;
      }
      var ok := a in services[m].assocs ==> services[m].assocs[a] == id;
      services := services[m := services[m].(assocs := services[m].assocs[a := id])];
      if !ok {
        assert enbs == enbs[a := enbs[a].(nb := enbs[a].nb)];
        return;
      }
      enbs := enbs[a := enbs[a].(nb := Incremented(enbs[a].nb))];
    }

    /** A stop request, then the association is freed and counted down. */
    method StopAndDrop(a: AssocId, m: MceId)
      requires m in services && a in enbs
      modifies this`enbs, this`services, this`sent
      ensures View() == Dropped(old(View()), a, m)
      ensures SentExactly(old(sent), sent, DropMsgs(old(View()), a, m))
    {
      GenerateStop(m, a);
      services := services[m := services[m].(assocs := services[m].assocs - {a})];
      if enbs[a].nb > 0 {
        enbs := enbs[a := enbs[a].(nb := enbs[a].nb - 1)];
      } else {
        assert enbs == enbs[a := enbs[a].(nb := 0)];
      }
    }

    method HandleUpdateFailure(a: AssocId, mceRaw: nat)
      modifies this`enbs, this`services, this`sent
      ensures View() == Step(cfg, old(View()), UpdateFailure(a, mceRaw))
      ensures SentExactly(old(sent), sent, Out(cfg, old(View()), UpdateFailure(a, mceRaw)))
    {
      var m := Mask24(mceRaw);
      if m in services && a in enbs {
        StopAndDrop(a, m);
      }
    }

    method HandleErrorIndication(a: AssocId, mce: Option<nat>)
      requires a in enbs
      modifies this`enbs, this`services, this`sent
      ensures View() == Step(cfg, old(View()), ErrorIndication(a, mce))
      ensures SentExactly(old(sent), sent, Out(cfg, old(View()), ErrorIndication(a, mce)))
    {
      var m := INVALID_MCE_ID;
      if mce.Some? {
        m := Mask24(mce.value);
      }
      if m == INVALID_MCE_ID || m !in services {
        return;
      }
      StopAndDrop(a, m);
    }

    // ---- Reset ----

    /** One item of a partial reset request, with the ids kept for the acknowledgement. */
    method ResetOne(a: AssocId, item: ResetItem) returns (conn: SigConn)
      requires a in enbs
      modifies this`enbs, this`services
      ensures View() == OnResetItem(old(View()), a, item)
      ensures a in enbs
      ensures conn == SigConn(ItemMce(item), ItemEnb(item))
    {
      conn := SigConn(INVALID_MCE_ID, INVALID_ENB_MBMS_ID);
      if item.NoItem? {
        return;
      }
      if item.mce.Some? {
        conn := conn.(mce := Mask24(item.mce.value));
      }
      if item.enb.Some? {
        conn := conn.(enb := Mask16(item.enb.value));
      }
      if conn.mce == INVALID_MCE_ID && conn.enb != INVALID_ENB_MBMS_ID {
        return;
      }
      if conn.mce == INVALID_MCE_ID {
        return;
      }
      var m := conn.mce;
      if m !in services {
        return;
      }
      var current := if a in services[m].assocs then services[m].assocs[a] else INVALID_ENB_MBMS_ID;
      if current != INVALID_ENB_MBMS_ID && current != conn.enb {
        return;
      }
      services := services[m := services[m].(assocs := services[m].assocs - {a})];
      if enbs[a].nb > 0 {
        enbs := enbs[a := enbs[a].(nb := enbs[a].nb - 1)];
      } else {
        assert enbs == enbs[a := enbs[a].(nb := 0)];
      }
    }

    method HandlePartialReset(a: AssocId, items: seq<ResetItem>)
      modifies this`enbs, this`services, this`sent
      ensures View() == Step(cfg, old(View()), PartialReset(a, items))
      ensures SentExactly(old(sent), sent, Out(cfg, old(View()), PartialReset(a, items)))
    {
      if a !in enbs || enbs[a].state != Ready {
        return;
      }
      var list := ResetEach(a, items);
      var acks := AcknowledgeAll(list);
      assert acks == AcksOf(items);
      sent := sent + [PartialAck(a, acks)];
    }

    /** The loop over the items, filling the array the acknowledgement is made from. */
    method ResetEach(a: AssocId, items: seq<ResetItem>) returns (conns: seq<SigConn>)
      requires a in enbs
      modifies this`enbs, this`services
      ensures View() == OnResetItems(old(View()), a, items)
      ensures |conns| == |items|
      ensures forall k | 0 <= k < |items| :: conns[k] == SigConn(ItemMce(items[k]), ItemEnb(items[k]))
    {
      var list := new SigConn[|items|];
      for i := 0 to |items|
        invariant a in enbs
        invariant View() == OnResetItems(old(View()), a, items[..i])
        invariant forall k | 0 <= k < i :: list[k] == SigConn(ItemMce(items[k]), ItemEnb(items[k]))
      {
        assert items[..i+1][..i] == items[..i];
        var conn := ResetOne(a, items[i]);
        list[i] := conn;
      }
      assert items[..|items|] == items;
      conns := list[..];
    }

    method HandleFullReset(a: AssocId)
      modifies this`enbs, this`services, this`sent
      ensures View() == Step(cfg, old(View()), FullReset(a))
      ensures SentExactly(old(sent), sent, Out(cfg, old(View()), FullReset(a)))
    {
      if a !in enbs || enbs[a].state != Ready {
        return;
      }
      ForgetAssociation(a);
      enbs := enbs[a := enbs[a].(nb := 0)];
      sent := sent + [ResetAck(a)];
    }
  }

  /** The MBSFN areas of a setup response are appended to the eNB's list. */
  method AppendIds(list: seq<nat>, ids: seq<nat>) returns (r: seq<nat>)
    ensures r == AppendAllU8(list, ids)
  {
    r := list;
    for i := 0 to |ids|
      invariant AppendAllU8(r, ids[i..]) == AppendAllU8(list, ids)
    {
      assert ids[i..][1..] == ids[i+1..];
      r := AppendU8(r, ids[i]);
    }
  }

  datatype SigConn = SigConn(mce: MceId, enb: EnbMbmsId)

  /** The acknowledgement carries one entry per request item; invalid ids are left out. */
  method AcknowledgeAll(list: seq<SigConn>) returns (acks: seq<AckItem>)
    ensures |acks| == |list|
    ensures forall i | 0 <= i < |list| ::
              && acks[i].mce == (if list[i].mce == INVALID_MCE_ID then None else Some(list[i].mce))
              && acks[i].enb == (if list[i].enb == INVALID_ENB_MBMS_ID then None else Some(list[i].enb))
  {
    acks := [];
    for i := 0 to |list|
      invariant |acks| == i
      invariant forall k | 0 <= k < i ::
                  && acks[k].mce == (if list[k].mce == INVALID_MCE_ID then None else Some(list[k].mce))
                  && acks[k].enb == (if list[k].enb == INVALID_ENB_MBMS_ID then None else Some(list[k].enb))
    {
      var item := AckItem(None, None);
      if list[i].mce != INVALID_MCE_ID {
        item := item.(mce := Some(list[i].mce));
      }
      if list[i].enb != INVALID_ENB_MBMS_ID {
        item := item.(enb := Some(list[i].enb));
      }
      acks := acks + [item];
    }
  }

  /** A service that has been moved to another area, and the eNBs outside it left out. */
  ghost function MovedOut(cfg: Config, s: State, m: MceId, newSai: nat): State
    requires m in s.services
  {
    var s1 := AreaStopped(cfg, s, m, Outside(s.enbs, newSai));
    s1.(services := s1.services[m := s1.services[m].(sai := newSai)])
  }

  lemma MovedOutShape(cfg: Config, s: State, m: MceId, newSai: nat)
    requires m in s.services
    ensures var t := MovedOut(cfg, s, m, newSai);
            var svc := s.services[m];
            var kept := svc.(assocs := svc.assocs - Outside(s.enbs, newSai));
            var served := Supporting(s.enbs, newSai);
            && Supporting(t.enbs, newSai) == served
            && m in t.services && t.services[m] == kept.(sai := newSai)
            && ContextMsgs(t.services[m], m, served) == ContextMsgs(kept, m, served)
            && StopsTo(svc, m, Outside(s.enbs, newSai)) !! ContextMsgs(kept, m, served)
  {
  }

  /** Stopping a session leaves no more eNBs in an area. */
  lemma FewerSupporting(s: State, found: Option<MceId>, sai: nat)
    requires found.Some? ==> found.value in s.services
    ensures |Supporting(OnSessionStop(s, found).enbs, sai)| <= |Supporting(s.enbs, sai)|
  {
    CardSubset(Supporting(OnSessionStop(s, found).enbs, sai), Supporting(s.enbs, sai));
  }

  lemma NoneLeftOut(cfg: Config, s: State, m: MceId)
    requires m in s.services
    ensures AreaStopped(cfg, s, m, {}) == s
    ensures StopsTo(s.services[m], m, {}) == {}
  {
    assert s.services[m].assocs - {} == s.services[m].assocs;
    assert AreaStopped(cfg, s, m, {}).enbs == s.enbs;
    assert AreaStopped(cfg, s, m, {}).services == s.services;
  }

  lemma OneMoreLeftOut(cfg: Config, s: State, m: MceId, done: set<AssocId>, a: AssocId)
    requires m in s.services && a !in done && a in s.enbs
    ensures var t := AreaStopped(cfg, s, m, done);
            && m in t.services && a in t.enbs
            && AreaStopped(cfg, s, m, done + {a}) == AreaStopped(cfg, t, m, {a})
            && StopsTo(t.services[m], m, {a}) == StopsTo(s.services[m], m, {a})
  {
    var t := AreaStopped(cfg, s, m, done);
    var u := AreaStopped(cfg, s, m, done + {a});
    assert s.services[m].assocs - (done + {a}) == (s.services[m].assocs - done) - {a};
    assert u.enbs == AreaStopped(cfg, t, m, {a}).enbs;
    assert u.services == AreaStopped(cfg, t, m, {a}).services;
  }

  lemma NothingUpdated(s: State, m: MceId)
    requires m in s.services
    ensures ContextUpdated(s, m, {}) == s
    ensures ContextMsgs(s.services[m], m, {}) == {}
  {
    assert Unreachable(s.services[m], {}) == {};
    assert s.services[m].assocs - {} == s.services[m].assocs;
    assert ContextUpdated(s, m, {}).enbs == s.enbs;
    assert ContextUpdated(s, m, {}).services == s.services;
  }

  lemma OneMoreUpdated(s: State, m: MceId, done: set<AssocId>, a: AssocId)
    requires m in s.services && a !in done && a in s.enbs
    ensures var t := ContextUpdated(s, m, done);
            && m in t.services && a in t.enbs
            && ContextUpdated(s, m, done + {a}) ==
               if a in Unreachable(t.services[m], {a}) then Dropped(t, a, m) else t
    ensures var svc := s.services[m];
            && ContextMsgs(svc, m, done + {a}) == ContextMsgs(svc, m, done) + ContextMsgs(svc, m, {a})
            && ContextMsgs(svc, m, done) !! ContextMsgs(svc, m, {a})
            && ContextMsgs(ContextUpdated(s, m, done).services[m], m, {a}) == ContextMsgs(svc, m, {a})
  {
    var svc := s.services[m];
    var t := ContextUpdated(s, m, done);
    var u := ContextUpdated(s, m, done + {a});
    var lost := Unreachable(svc, done);
    if a in svc.assocs && svc.assocs[a] == INVALID_ENB_MBMS_ID {
      assert Unreachable(svc, done + {a}) == lost + {a};
      assert svc.assocs - (lost + {a}) == (svc.assocs - lost) - {a};
      assert u.enbs == Dropped(t, a, m).enbs;
      assert u.services == Dropped(t, a, m).services;
    } else {
      assert Unreachable(svc, done + {a}) == lost;
    }
    assert (done + {a}) - svc.assocs.Keys ==
           if a in svc.assocs then done - svc.assocs.Keys else (done - svc.assocs.Keys) + {a};
  }

  lemma StopsToOneMore(svc: Service, m: MceId, list: seq<AssocId>, i: nat)
    requires i < |list| && Distinct(list)
    ensures StopsTo(svc, m, Elems(list[..i+1])) == StopsTo(svc, m, Elems(list[..i])) + StopsTo(svc, m, {list[i]})
    ensures StopsTo(svc, m, Elems(list[..i])) !! StopsTo(svc, m, {list[i]})
  {
    ElemsStep(list, i);
    DistinctFresh(list, i);
  }

  lemma NothingCleared(s: State, m: MceId)
    ensures ServiceFreed(s, m, {}) == s.(services := s.services - {m})
  {
    assert ShutDownWith(s, {}) == {};
    var t := ServiceFreed(s, m, {});
    assert t.enbs == s.enbs;
    forall k | k in s.services - {m} ensures t.services[k] == s.services[k] {
      assert s.services[k].assocs - {} == s.services[k].assocs;
    }
    assert t.services == s.services - {m};
  }

  /** The effect of the statistics callback on a partly freed service. */
  lemma OneMoreCleared(s: State, m: MceId, done: set<AssocId>, a: AssocId)
    requires a !in done
    ensures var t := ServiceFreed(s, m, done);
            ServiceFreed(s, m, done + {a}) ==
            if a !in t.enbs then t
            else
              var e := StatsCleared(t.enbs[a]);
              if e.nb == 0 && e.state == Shutdown then RemoveEnbs(t.(enbs := t.enbs[a := e]), {a})
              else t.(enbs := t.enbs[a := e])
  {
    if a in s.enbs && s.enbs[a].nb <= 1 && s.enbs[a].state == Shutdown {
      OneMoreShutDown(s, m, done, a);
    } else {
      OneMoreKept(s, m, done, a);
    }
  }

  lemma OneMoreShutDown(s: State, m: MceId, done: set<AssocId>, a: AssocId)
    requires a !in done && a in s.enbs && s.enbs[a].nb <= 1 && s.enbs[a].state == Shutdown
    ensures var t := ServiceFreed(s, m, done);
            && a in t.enbs && t.enbs[a] == s.enbs[a]
            && ServiceFreed(s, m, done + {a}) == RemoveEnbs(t.(enbs := t.enbs[a := StatsCleared(t.enbs[a])]), {a})
  {
    var t := ServiceFreed(s, m, done);
    var u := ServiceFreed(s, m, done + {a});
    var gone := ShutDownWith(s, done);
    assert ShutDownWith(s, done + {a}) == gone + {a};
    var v := RemoveEnbs(t.(enbs := t.enbs[a := StatsCleared(t.enbs[a])]), {a});
    assert u.enbs == v.enbs;
    WithoutAssocsTwice(s.services - {m}, gone, {a});
  }

  lemma WithoutAssocsTwice(services: map<MceId, Service>, gone: set<AssocId>, more: set<AssocId>)
    ensures WithoutAssocs(WithoutAssocs(services, gone), more) == WithoutAssocs(services, gone + more)
  {
    forall k | k in services
      ensures WithoutAssocs(WithoutAssocs(services, gone), more)[k] == WithoutAssocs(services, gone + more)[k]
    {
      assert services[k].assocs - (gone + more) == (services[k].assocs - gone) - more;
    }
  }

  lemma OneMoreKept(s: State, m: MceId, done: set<AssocId>, a: AssocId)
    requires a !in done && !(a in s.enbs && s.enbs[a].nb <= 1 && s.enbs[a].state == Shutdown)
    ensures var t := ServiceFreed(s, m, done);
            && (a in t.enbs <==> a in s.enbs) && (a in s.enbs ==> t.enbs[a] == s.enbs[a])
            && ServiceFreed(s, m, done + {a}) ==
               if a in t.enbs then t.(enbs := t.enbs[a := StatsCleared(t.enbs[a])]) else t
  {
    var t := ServiceFreed(s, m, done);
    var u := ServiceFreed(s, m, done + {a});
    assert ShutDownWith(s, done + {a}) == ShutDownWith(s, done);
    assert u.enbs == if a in t.enbs then t.enbs[a := StatsCleared(t.enbs[a])] else t.enbs;
  }
}
