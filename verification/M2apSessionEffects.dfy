/**
  What starting, stopping and moving a session does to every service and every
  eNB, and what every eNB is sent.
*/
module M2apSessionEffects {
  import opened Common
  import opened M2apState
  import opened M2apMessages
  import opened M2apRuns

  /** The messages to one eNB. */
  function To(msgs: set<Msg>, a: AssocId): set<Msg> {
    set msg | msg in msgs && msg.to == a
  }

  /** Some eNB announced the area. */
  ghost predicate Served(s: State, sai: nat) {
    exists a | a in s.enbs :: sai in s.enbs[a].areas
  }

  lemma ServedIff(s: State, sai: nat)
    ensures Served(s, sai) <==> Supporting(s.enbs, sai) != {}
  {
    if Served(s, sai) {
      var a :| a in s.enbs && sai in s.enbs[a].areas;
      assert a in Supporting(s.enbs, sai);
    }
  }

  /** An eNB loses a service that ends: it counts one less, and leaves the reset state with its last one. */
  ghost predicate LosesService(before: Enb, after: Enb) {
    && after.nb == (if before.nb == 0 then 0 else before.nb - 1)
    && after.state == (if before.state == Reseting && before.nb <= 1 then Init else before.state)
    && after.enbId == before.enbId && after.areas == before.areas
    && after.mbsfnIds == before.mbsfnIds && after.localArea == before.localArea
  }

  /** What the end of service `m`, or of none, does to the eNBs; the rest of the table is left alone. */
  ghost predicate EnbsAfterEnd(s: State, found: Option<MceId>, t: State)
    requires found.Some? ==> found.value in s.services
  {
    && t.enbs.Keys == s.enbs.Keys && t.nbEnbs == s.nbEnbs && t.accepted == s.accepted && t.pending == s.pending
    && (forall a | a in s.enbs ::
          if found.Some? && a in s.services[found.value].assocs then LosesService(s.enbs[a], t.enbs[a])
          else t.enbs[a] == s.enbs[a])
  }

  /** All services but the one found. */
  function Others(s: State, found: Option<MceId>): map<MceId, Service> {
    if found.Some? then s.services - {found.value} else s.services
  }

  /** The service found, or none, has ended. */
  ghost predicate Ended(s: State, found: Option<MceId>, t: State)
    requires found.Some? ==> found.value in s.services
  {
    t.services == Others(s, found) && t.nextId == s.nextId && EnbsAfterEnd(s, found, t)
  }

  /** An eNB is told to stop if it announced the area and its id for the service is known. */
  function StopFor(s: State, found: Option<MceId>, sai: nat, a: AssocId): set<Msg>
    requires found.Some? ==> found.value in s.services
  {
    if found.Some? && a in s.enbs && sai in s.enbs[a].areas && a in s.services[found.value].assocs
       && s.services[found.value].assocs[a] != INVALID_ENB_MBMS_ID
    then {StopReq(a, found.value, s.services[found.value].assocs[a])}
    else {}
  }

  lemma StopEnds(s: State, found: Option<MceId>)
    requires Consistent(s) && (found.Some? ==> found.value in s.services)
    ensures Ended(s, found, OnSessionStop(s, found))
  {
    if found.Some? {
      RemovalEnds(s, found.value);
    }
  }

  lemma RemovalEnds(s: State, m: MceId)
    requires Consistent(s) && m in s.services
    ensures Ended(s, Some(m), RemoveService(s, m))
  {
    RemoveServiceShape(s, m);
    var t := RemoveService(s, m);
    forall a | a in s.enbs
      ensures if a in s.services[m].assocs then LosesService(s.enbs[a], t.enbs[a]) else t.enbs[a] == s.enbs[a]
    {
      ClearedLoses(s.enbs[a]);
    }
  }

  lemma ClearedLoses(enb: Enb)
    ensures LosesService(enb, StatsCleared(enb))
  {
  }

  lemma StopsSent(s: State, found: Option<MceId>, sai: nat, a: AssocId)
    requires found.Some? ==> found.value in s.services
    ensures To(StopSessionMsgs(s, sai, found), a) == StopFor(s, found, sai, a)
  {
    if found.Some? {
      StopsToOne(s.services[found.value], found.value, Supporting(s.enbs, sai), a);
    }
  }

  // ---- Stop ----

  /**
    A session that is stopped is gone, its eNBs count one less, and nothing
    else changes. If they are to be informed, exactly the eNBs that announced
    the area and whose id is known are told to stop.
  */
  lemma SessionStopExact(cfg: Config, s: State, e: Event, a: AssocId)
    requires Consistent(s) && e.SessionStop? && Enabled(s, e)
    ensures Ended(s, e.found, Step(cfg, s, e))
    ensures To(Out(cfg, s, e), a) == if e.inform then StopFor(s, e.found, e.sai, a) else {}
  {
    StopEnds(s, e.found);
    StopsSent(s, e.found, e.sai, a);
  }

  // ---- Start ----

  /** An eNB is asked to start a new session at once if it announced the area, and the session got an id. */
  function StartFor(s: State, sai: nat, timed: bool, a: AssocId): set<Msg> {
    if !timed && s.nextId != INVALID_MCE_ID && a in s.enbs && sai in s.enbs[a].areas then {StartReq(a, s.nextId)}
    else {}
  }

  /**
    Starting a session ends an equal one first. Where some eNB serves the area
    the new service is there under the next id, without associations, unless
    that is the invalid one, which is skipped. An eNB is told to stop the old
    one and, without a timer, asked to start the new one.
  */
  lemma SessionStartExact(cfg: Config, s: State, e: Event, a: AssocId)
    requires Consistent(s) && e.SessionStart? && Enabled(s, e)
    ensures var t := Step(cfg, s, e);
            && EnbsAfterEnd(s, e.found, t)
            && t.nextId == (if !Served(s, e.sai) then s.nextId else if s.nextId == U32 - 1 then 0 else s.nextId + 1)
            && t.services == (if Served(s, e.sai) && s.nextId != INVALID_MCE_ID
                              then Others(s, e.found)[s.nextId := Service(e.tmgi, e.sai, map[])]
                              else Others(s, e.found))
    ensures To(Out(cfg, s, e), a) == StopFor(s, e.found, e.sai, a) + StartFor(s, e.sai, e.timed, a)
  {
    StopEnds(s, e.found);
    CreatedAfterEnd(s, e.found, OnSessionStop(s, e.found), e.tmgi, e.sai);
    StartsSent(s, e, a);
  }

  lemma CreatedAfterEnd(s: State, found: Option<MceId>, t: State, tmgi: Tmgi, sai: nat)
    requires s.nextId < U32 && (found.Some? ==> found.value in s.services) && Ended(s, found, t) && IdFree(t, sai)
    ensures var u := CreateService(t, tmgi, sai);
            && u.enbs == t.enbs && u.nbEnbs == t.nbEnbs && u.accepted == t.accepted && u.pending == t.pending
            && u.nextId == (if !Served(s, sai) then s.nextId else if s.nextId == U32 - 1 then 0 else s.nextId + 1)
            && u.services == (if Served(s, sai) && s.nextId != INVALID_MCE_ID
                              then Others(s, found)[s.nextId := Service(tmgi, sai, map[])]
                              else Others(s, found))
  {
    ServedIff(s, sai);
    SupportingAfterEnd(s, found, t, sai);
    CreatedIs(t, tmgi, sai, Served(s, sai));
  }

  lemma CreatedIs(t: State, tmgi: Tmgi, sai: nat, served: bool)
    requires t.nextId < U32 && IdFree(t, sai) && (served <==> Supporting(t.enbs, sai) != {})
    ensures CreateService(t, tmgi, sai) ==
            t.(nextId := if !served then t.nextId else if t.nextId == U32 - 1 then 0 else t.nextId + 1,
               services := if served && t.nextId != INVALID_MCE_ID
                           then t.services[t.nextId := Service(tmgi, sai, map[])] else t.services)
  {
  }

  lemma StartsSent(s: State, e: Event, a: AssocId)
    requires Consistent(s) && e.SessionStart? && FoundByTmgi(s.services, e.tmgi, e.sai, e.found)
    ensures To(SessionStartMsgs(s, e.tmgi, e.sai, e.timed, e.found), a) ==
            StopFor(s, e.found, e.sai, a) + StartFor(s, e.sai, e.timed, a)
  {
    var t := OnSessionStop(s, e.found);
    StopEnds(s, e.found);
    StopsSent(s, e.found, e.sai, a);
    CreatedSent(s, e.found, t, e.sai, e.timed, a);
    ToBoth(StopSessionMsgs(s, e.sai, e.found), CreatedMsgs(t, e.sai, e.timed), a);
  }

  lemma CreatedSent(s: State, found: Option<MceId>, t: State, sai: nat, timed: bool, a: AssocId)
    requires (found.Some? ==> found.value in s.services) && Ended(s, found, t)
    ensures To(CreatedMsgs(t, sai, timed), a) == StartFor(s, sai, timed, a)
  {
    SupportingAfterEnd(s, found, t, sai);
    StartsToOne(s.nextId, Supporting(s.enbs, sai), a);
  }

  lemma ToBoth(xs: set<Msg>, ys: set<Msg>, a: AssocId)
    ensures To(xs + ys, a) == To(xs, a) + To(ys, a)
  {
  }

  lemma SupportingAfterEnd(s: State, found: Option<MceId>, t: State, sai: nat)
    requires (found.Some? ==> found.value in s.services) && EnbsAfterEnd(s, found, t)
    ensures Supporting(t.enbs, sai) == Supporting(s.enbs, sai)
  {
  }

  /** Stopping a session just started leaves everything but the id generator as it was, and tells nobody. */
  lemma StopUndoesStart(cfg: Config, s: State, start: Event, stop: Event)
    requires Consistent(s) && start.SessionStart? && start.found.None? && Enabled(s, start)
    requires stop.SessionStop? && stop.tmgi == start.tmgi && stop.sai == start.sai
    requires Enabled(Step(cfg, s, start), stop)
    ensures var t := Step(cfg, s, start); Step(cfg, t, stop) == s.(nextId := t.nextId) && Out(cfg, t, stop) == {}
  {
    var t := Step(cfg, s, start);
    NewSession(cfg, s, start);
    StepConsistent(cfg, s, start);
    StopEnds(t, stop.found);
    OnlyNewSession(s, t, start.tmgi, start.sai, stop.found);
    EndUndone(s, t, stop.found, OnSessionStop(t, stop.found));
  }

  /** A session that is not there yet is all that a start adds, if anything. */
  lemma NewSession(cfg: Config, s: State, e: Event)
    requires Consistent(s) && e.SessionStart? && e.found.None? && Enabled(s, e)
    ensures var t := Step(cfg, s, e);
            && t == s.(services := t.services, nextId := t.nextId)
            && (t.services == s.services ||
                (s.nextId !in s.services && t.services == s.services[s.nextId := Service(e.tmgi, e.sai, map[])]))
  {
    assert OnSessionStop(s, e.found) == s;
  }

  /** The search then finds the new session or none. */
  lemma OnlyNewSession(s: State, t: State, tmgi: Tmgi, sai: nat, found: Option<MceId>)
    requires FoundByTmgi(s.services, tmgi, sai, None) && FoundByTmgi(t.services, tmgi, sai, found)
    requires t.services == s.services ||
             (s.nextId !in s.services && t.services == s.services[s.nextId := Service(tmgi, sai, map[])])
    ensures found.None? ==> t.services == s.services
    ensures found.Some? ==>
              && found.value !in s.services && t.services[found.value].assocs == map[]
              && t.services == s.services[found.value := t.services[found.value]]
              && StopSessionMsgs(t, sai, found) == {}
  {
  }

  /** Ending a service that has no associations and was not there before. */
  lemma EndUndone(s: State, t: State, found: Option<MceId>, u: State)
    requires t == s.(services := t.services, nextId := t.nextId)
    requires found.None? ==> t.services == s.services
    requires found.Some? ==> found.value in t.services && found.value !in s.services
    requires found.Some? ==> t.services[found.value].assocs == map[]
    requires found.Some? ==> t.services == s.services[found.value := t.services[found.value]]
    requires Ended(t, found, u)
    ensures u == s.(nextId := t.nextId)
  {
    assert u.enbs == s.enbs;
    assert u.services == s.services;
  }

  // ---- Update ----

  /** An update of a session that is not there does nothing, and one to an area nobody serves ends it. */
  lemma DesertedUpdateEnds(cfg: Config, s: State, e: Event, a: AssocId)
    requires Consistent(s) && e.SessionUpdate? && Enabled(s, e)
    requires e.found.None? || !Served(s, e.newSai)
    ensures Ended(s, e.found, Step(cfg, s, e))
    ensures To(Out(cfg, s, e), a) == StopFor(s, e.found, e.sai, a)
  {
    ServedIff(s, e.newSai);
    StopEnds(s, e.found);
    StopsSent(s, e.found, e.sai, a);
  }

  /** The counter of an eNB after a service it does not support the new area of has moved. */
  function LeftOut(cfg: Config, n: nat): nat {
    if n == 0 then (if cfg.guarded then 0 else U32 - 1) else n - 1
  }

  /** The eNB is associated with `m`, but its id there is not known. */
  predicate IdUnknown(s: State, m: MceId, a: AssocId)
    requires m in s.services
  {
    a in s.services[m].assocs && s.services[m].assocs[a] == INVALID_ENB_MBMS_ID
  }

  /**
    What an update to a served area does to the eNBs. Those outside it count
    one less; so do, unless a timer is set, those in it whose id is not known.
    Nothing else about an eNB changes, and no other part of the state.
  */
  lemma SessionUpdateEnbs(cfg: Config, s: State, e: Event, a: AssocId)
    requires e.SessionUpdate? && e.found.Some? && Enabled(s, e)
    requires Served(s, e.newSai) && a in s.enbs
    ensures var t := Step(cfg, s, e);
            && t == s.(enbs := t.enbs, services := t.services) && t.enbs.Keys == s.enbs.Keys
            && t.enbs[a] == s.enbs[a].(nb :=
                 if e.newSai !in s.enbs[a].areas then LeftOut(cfg, s.enbs[a].nb)
                 else if !e.timed && IdUnknown(s, e.found.value, a) && s.enbs[a].nb > 0 then s.enbs[a].nb - 1
                 else s.enbs[a].nb)
  {
    ServedIff(s, e.newSai);
    assert a in Supporting(s.enbs, e.newSai) <==> e.newSai in s.enbs[a].areas;
  }

  /**
    With a timer the service moves at once and keeps the associations of the
    eNBs supporting the area; only the stops to the others are sent.
  */
  lemma TimedUpdateExact(cfg: Config, s: State, e: Event, a: AssocId)
    requires NoDangling(s) && e.SessionUpdate? && e.timed && e.found.Some? && Enabled(s, e)
    requires Served(s, e.newSai) && a in s.enbs
    ensures var m, was := e.found.value, s.services[e.found.value].assocs;
            && Step(cfg, s, e).services ==
               s.services[m := Service(e.tmgi, e.newSai, map b | b in was && e.newSai in s.enbs[b].areas :: was[b])]
            && To(Out(cfg, s, e), a) ==
               if e.newSai !in s.enbs[a].areas && a in was && was[a] != INVALID_ENB_MBMS_ID
               then {StopReq(a, m, was[a])} else {}
  {
    var m, was := e.found.value, s.services[e.found.value].assocs;
    ServedIff(s, e.newSai);
    StopsToOne(s.services[m], m, Outside(s.enbs, e.newSai), a);
    assert was - Outside(s.enbs, e.newSai) == map b | b in was && e.newSai in s.enbs[b].areas :: was[b];
  }

  // ---- Timer ----

  /** A timer whose session has gone does nothing, and one whose area is deserted tells nobody. */
  lemma DesertedTimerEnds(cfg: Config, s: State, e: Event)
    requires Consistent(s) && e.TimerExpiry? && Enabled(s, e)
    requires e.mce in s.services ==> !Served(s, s.services[e.mce].sai)
    ensures e.mce !in s.services ==> Step(cfg, s, e) == s
    ensures e.mce in s.services ==>
              Ended(s, if s.services[e.mce].assocs == map[] then Some(e.mce) else e.found, Step(cfg, s, e))
    ensures Out(cfg, s, e) == {}
  {
    if e.mce in s.services {
      ServedIff(s, s.services[e.mce].sai);
      StopEnds(s, if s.services[e.mce].assocs == map[] then Some(e.mce) else e.found);
    }
  }

  /** What an eNB is sent when its service's timer expires. */
  function TimerFor(s: State, m: MceId, a: AssocId): set<Msg>
    requires m in s.services && a in s.enbs
  {
    var svc := s.services[m];
    if svc.sai !in s.enbs[a].areas || IdUnknown(s, m, a) then {}
    else if a in svc.assocs then {UpdateReq(a, m, svc.assocs[a])}
    else {StartReq(a, m)}
  }

  /**
    In a served area a timer brings every eNB of it up to date: associated
    ones are updated, the others asked to start. An association whose id is
    not known is dropped. Nothing else changes.
  */
  lemma TimerExact(cfg: Config, s: State, e: Event, a: AssocId)
    requires e.TimerExpiry? && Enabled(s, e) && e.mce in s.services && a in s.enbs
    requires Served(s, s.services[e.mce].sai)
    ensures var t := Step(cfg, s, e);
            var dropped := set b | b in s.enbs && s.services[e.mce].sai in s.enbs[b].areas && IdUnknown(s, e.mce, b);
            && t == s.(enbs := t.enbs, services := t.services) && t.enbs.Keys == s.enbs.Keys
            && t.enbs[a] == s.enbs[a].(
                 nb := if a in dropped && s.enbs[a].nb > 0 then s.enbs[a].nb - 1 else s.enbs[a].nb)
            && t.services == s.services[e.mce := s.services[e.mce].(assocs := s.services[e.mce].assocs - dropped)]
    ensures To(Out(cfg, s, e), a) == TimerFor(s, e.mce, a)
  {
    var svc := s.services[e.mce];
    var served := Supporting(s.enbs, svc.sai);
    var dropped := set b | b in s.enbs && svc.sai in s.enbs[b].areas && IdUnknown(s, e.mce, b);
    ServedIff(s, svc.sai);
    assert Unreachable(svc, served) == dropped;
    if svc.assocs == map[] {
      NoAssociationsToUpdate(s, e.mce, served);
      assert svc.assocs - dropped == svc.assocs;
    }
    UpdatesToOne(svc, e.mce, served, a);
    StartsToOne(e.mce, served - svc.assocs.Keys, a);
  }
}
