/**
  Sessions are looked up by TMGI and service area in a hash table: when there
  is only one to find, and what depends on that.
*/
module M2apSessions {
  import opened Common
  import opened M2apState
  import opened M2apReset
  import M2apCounters
  import M2apRuns
  import ServiceArea

  predicate SameSession(p: Service, q: Service) {
    p.tmgi == q.tmgi && p.sai == q.sai
  }

  /** No two services share their TMGI and area. */
  ghost predicate UniqueSessions(services: map<MceId, Service>) {
    forall m, k | m in services && k in services && m != k :: !SameSession(services[m], services[k])
  }

  /** The update moves a service onto the TMGI and area of another one. */
  ghost predicate MovesOnto(s: State, m: MceId, newSai: nat)
    requires m in s.services
  {
    exists k | k in s.services && k != m :: s.services[k].tmgi == s.services[m].tmgi && s.services[k].sai == newSai
  }

  ghost predicate KeepsUnique(s: State, e: Event)
    requires Enabled(s, e)
  {
    e.SessionUpdate? && e.found.Some? && Supporting(s.enbs, e.newSai) != {} ==> !MovesOnto(s, e.found.value, e.newSai)
  }

  /** Fewer services, each with its TMGI and area. */
  lemma FewerSessions(s: State, t: State)
    requires UniqueSessions(s.services)
    requires forall m | m in t.services :: m in s.services && SameSession(t.services[m], s.services[m])
    ensures UniqueSessions(t.services)
  {
  }

  lemma RemovedSessions(s: State, m: MceId)
    requires m in s.services
    ensures forall k | k in RemoveService(s, m).services ::
              k != m && k in s.services && SameSession(RemoveService(s, m).services[k], s.services[k])
  {
  }

  lemma StartUnique(s: State, tmgi: Tmgi, sai: nat, found: Option<MceId>)
    requires UniqueSessions(s.services) && FoundByTmgi(s.services, tmgi, sai, found)
    requires IdFree(OnSessionStop(s, found), sai)
    ensures UniqueSessions(OnSessionStart(s, tmgi, sai, found).services)
  {
    var t := OnSessionStop(s, found);
    if found.Some? {
      RemovedSessions(s, found.value);
    }
    FewerSessions(s, t);
    CreatedUnique(t, tmgi, sai) by {
      if found.Some? {
        forall k | k in t.services ensures t.services[k].tmgi != tmgi || t.services[k].sai != sai {
          assert !SameSession(s.services[k], s.services[found.value]);
        }
      }
    }
  }

  lemma CreatedUnique(s: State, tmgi: Tmgi, sai: nat)
    requires UniqueSessions(s.services)
    requires forall k | k in s.services :: s.services[k].tmgi != tmgi || s.services[k].sai != sai
    requires IdFree(s, sai)
    ensures UniqueSessions(CreateService(s, tmgi, sai).services)
  {
  }

  lemma MovedSessions(cfg: Config, s: State, newSai: nat, timed: bool, m: MceId)
    requires m in s.services && Supporting(s.enbs, newSai) != {}
    ensures var t := OnSessionUpdate(cfg, s, newSai, timed, Some(m));
            && t.services.Keys == s.services.Keys
            && t.services[m].tmgi == s.services[m].tmgi && t.services[m].sai == newSai
            && forall k | k in s.services && k != m :: t.services[k] == s.services[k]
  {
  }

  lemma UpdateUniqueIff(cfg: Config, s: State, newSai: nat, timed: bool, m: MceId)
    requires UniqueSessions(s.services) && m in s.services && Supporting(s.enbs, newSai) != {}
    ensures UniqueSessions(OnSessionUpdate(cfg, s, newSai, timed, Some(m)).services) <==> !MovesOnto(s, m, newSai)
  {
    var t := OnSessionUpdate(cfg, s, newSai, timed, Some(m));
    MovedSessions(cfg, s, newSai, timed, m);
    if MovesOnto(s, m, newSai) {
      var k :| k in s.services && k != m && s.services[k].tmgi == s.services[m].tmgi && s.services[k].sai == newSai;
      assert SameSession(t.services[m], t.services[k]);
    }
  }

  lemma ResetSessions(s: State, a: AssocId, items: seq<ResetItem>)
    requires a in s.enbs
    ensures forall m | m in OnResetItems(s, a, items).services ::
              m in s.services && SameSession(OnResetItems(s, a, items).services[m], s.services[m])
  {
    ResetItemsExact(s, a, items);
  }

  /** A step keeps sessions unique exactly if it is not such an update. */
  lemma StepUniqueIff(cfg: Config, s: State, e: Event)
    requires UniqueSessions(s.services) && Enabled(s, e)
    ensures UniqueSessions(Step(cfg, s, e).services) <==> KeepsUnique(s, e)
  {
    match e
    case SessionStart(tmgi, sai, _, found) => StartUnique(s, tmgi, sai, found);
    case SessionUpdate(_, _, newSai, timed, found) =>
      if found.Some? {
        if Supporting(s.enbs, newSai) == {} {
          RemovedSessions(s, found.value);
          FewerSessions(s, RemoveService(s, found.value));
        } else {
          UpdateUniqueIff(cfg, s, newSai, timed, found.value);
        }
      }
    case _ =>
      OtherSessions(cfg, s, e);
      FewerSessions(s, Step(cfg, s, e));
  }

  lemma OtherSessions(cfg: Config, s: State, e: Event)
    requires Enabled(s, e) && !e.SessionStart? && !e.SessionUpdate?
    ensures forall m | m in Step(cfg, s, e).services ::
              m in s.services && SameSession(Step(cfg, s, e).services[m], s.services[m])
  {
    match e
    case SessionStop(_, _, _, found) => if found.Some? { RemovedSessions(s, found.value); }
    case TimerExpiry(m, found) => TimerSessions(s, m, found);
    case PartialReset(a, items) => if a in s.enbs { ResetSessions(s, a, items); }
    case _ =>
  }

  lemma TimerSessions(s: State, m: MceId, found: Option<MceId>)
    requires Enabled(s, TimerExpiry(m, found))
    ensures forall k | k in OnTimerExpiry(s, m, found).services ::
              k in s.services && SameSession(OnTimerExpiry(s, m, found).services[k], s.services[k])
  {
    if m in s.services {
      RemovedSessions(s, m);
      RemovedSessions(s, found.value);
    }
  }

  // ---- Runs ----

  ghost predicate AlwaysUnique(cfg: Config, events: seq<Event>)
    requires IsRun(cfg, events)
    decreases |events|
  {
    UniqueSessions(After(cfg, events).services) && (events == [] || AlwaysUnique(cfg, events[..|events|-1]))
  }

  ghost predicate AllKeepUnique(cfg: Config, events: seq<Event>)
    requires IsRun(cfg, events)
    decreases |events|
  {
    events == [] ||
    (AllKeepUnique(cfg, events[..|events|-1]) && KeepsUnique(After(cfg, events[..|events|-1]), events[|events|-1]))
  }

  /** Over whole runs: sessions stay unique exactly if no update moves one onto another. */
  lemma {:induction false} RunUniqueIff(cfg: Config, events: seq<Event>)
    requires IsRun(cfg, events)
    ensures AlwaysUnique(cfg, events) <==> AllKeepUnique(cfg, events)
    decreases |events|
  {
    if events == [] {
    } else {
      var before := events[..|events|-1];
      RunUniqueIff(cfg, before);
      if AlwaysUnique(cfg, before) {
        StepUniqueIff(cfg, After(cfg, before), events[|events|-1]);
      }
    }
  }

  /** While sessions are unique, the search by TMGI and area has one possible outcome. */
  lemma SearchDetermined(s: State, tmgi: Tmgi, sai: nat, found: Option<MceId>, other: Option<MceId>)
    requires UniqueSessions(s.services)
    requires FoundByTmgi(s.services, tmgi, sai, found) && FoundByTmgi(s.services, tmgi, sai, other)
    ensures found == other
  {
    if found.Some? && other.Some? && found != other {
      assert SameSession(s.services[found.value], s.services[other.value]);
    }
  }

  /** The timer of `m` ends its session exactly if its area is deserted, and ends no other session. */
  ghost predicate EndsOnlyItsOwn(cfg: Config, s: State, m: MceId, found: Option<MceId>)
    requires m in s.services && Enabled(s, TimerExpiry(m, found))
  {
    var t := Step(cfg, s, TimerExpiry(m, found));
    && (m in t.services <==> Supporting(s.enbs, s.services[m].sai) != {})
    && (forall k | k in s.services && k != m :: k in t.services)
  }

  /** Another session has the TMGI and area of `m`. */
  ghost predicate HasDouble(s: State, m: MceId)
    requires m in s.services
  {
    exists k | k in s.services && k != m :: SameSession(s.services[k], s.services[m])
  }

  /**
    Whatever the hash order, the timer of a session ends its own session or
    none, if and only if the session has no associations, or its area is
    served, or no other session is like it.
  */
  lemma TimerEndsItsOwnIff(cfg: Config, s: State, m: MceId)
    requires m in s.services
    ensures (forall found | Enabled(s, TimerExpiry(m, found)) :: EndsOnlyItsOwn(cfg, s, m, found)) <==>
            (s.services[m].assocs == map[] || Supporting(s.enbs, s.services[m].sai) != {} || !HasDouble(s, m))
  {
    if s.services[m].assocs != map[] && Supporting(s.enbs, s.services[m].sai) == {} && HasDouble(s, m) {
      var k :| k in s.services && k != m && SameSession(s.services[k], s.services[m]);
      TimerEndsAnother(cfg, s, m, k);
    } else {
      forall found | Enabled(s, TimerExpiry(m, found)) ensures EndsOnlyItsOwn(cfg, s, m, found) {
        TimerEndsItsOwn(cfg, s, m, found);
      }
    }
  }

  lemma TimerEndsItsOwn(cfg: Config, s: State, m: MceId, found: Option<MceId>)
    requires m in s.services && Enabled(s, TimerExpiry(m, found))
    requires s.services[m].assocs == map[] || Supporting(s.enbs, s.services[m].sai) != {} || !HasDouble(s, m)
    ensures EndsOnlyItsOwn(cfg, s, m, found)
  {
    if found.value != m {
      assert SameSession(s.services[found.value], s.services[m]);
    }
    RemovedExactly(s, m);
  }

  lemma TimerEndsAnother(cfg: Config, s: State, m: MceId, k: MceId)
    requires m in s.services && k in s.services && m != k && SameSession(s.services[k], s.services[m])
    requires s.services[m].assocs != map[] && Supporting(s.enbs, s.services[m].sai) == {}
    ensures Enabled(s, TimerExpiry(m, Some(k))) && !EndsOnlyItsOwn(cfg, s, m, Some(k))
  {
    RemovedExactly(s, k);
  }

  lemma RemovedExactly(s: State, m: MceId)
    requires m in s.services
    ensures RemoveService(s, m).services.Keys == s.services.Keys - {m}
  {
  }

  // ---- A run in which a timer ends another session ----

  const T := Tmgi(0, 1)
  const SECOND_SETUP := SetupReq(0, 2, true, 1, [2], true)

  /** Two eNBs, one in area 1 and one in area 2. */
  const TWO_ENBS: seq<Event> := M2apCounters.ACCEPTED + [NewAssociation(8)] + [SetupRequest(8, SECOND_SETUP, None)]
  const TWO_ENBS_STATE :=
    State(map[7 := Enb(Reseting, 1, [1], [], 0, 0), 8 := Enb(Reseting, 2, [2], [], 0, 0)],
          map[], 2, 1, {7, 8}, multiset{7, 8})

  /** The same TMGI in both areas. */
  const TWO_SESSIONS: seq<Event> :=
    TWO_ENBS + [SessionStart(T, 1, false, None)] + [SessionStart(T, 2, false, None)]
  const TWO_SESSIONS_STATE :=
    TWO_ENBS_STATE.(services := map[1 := Service(T, 1, map[]), 2 := Service(T, 2, map[])], nextId := 3)

  /** The first one moves onto the second, to be updated later. */
  const MOVED: seq<Event> := TWO_SESSIONS + [SessionUpdate(T, 1, 2, true, Some(1))]

  function MovedState(cfg: Config): State {
    TWO_SESSIONS_STATE.(
      enbs := TWO_SESSIONS_STATE.enbs[7 := Enb(Reseting, 1, [1], [], 0, DecrementedForArea(cfg, 0))],
      services := map[1 := Service(T, 2, map[]), 2 := Service(T, 2, map[])])
  }

  /** A late start response from area 1; the only eNB of area 2 disconnects. */
  const DESERTED: seq<Event> := MOVED + [StartResponse(7, 1, 5)] + [Disconnection(8)]

  function DesertedState(cfg: Config): State {
    State(map[7 := Enb(Reseting, 1, [1], [], 0, Incremented(DecrementedForArea(cfg, 0)))],
          map[1 := Service(T, 2, map[7 := 5]), 2 := Service(T, 2, map[])], 1, 3, {7}, multiset{7, 8})
  }

  predicate Roomy(cfg: Config) {
    cfg.maxEnbs >= 3 && cfg.area.globalTypes >= 2
  }

  lemma TwoEnbsRun(cfg: Config)
    requires Roomy(cfg)
    ensures IsRun(cfg, TWO_ENBS) && After(cfg, TWO_ENBS) == TWO_ENBS_STATE
  {
    M2apCounters.AcceptedRun(cfg);
    M2apRuns.RunExtended(cfg, M2apCounters.ACCEPTED, NewAssociation(8));
    var s := After(cfg, M2apCounters.ACCEPTED + [NewAssociation(8)]);
    assert s == M2apCounters.ACCEPTED_STATE.(enbs := M2apCounters.ACCEPTED_STATE.enbs[8 := FRESH_ENB], nbEnbs := 2);
    SecondAccepted(cfg, s);
    M2apRuns.RunExtended(cfg, M2apCounters.ACCEPTED + [NewAssociation(8)], SetupRequest(8, SECOND_SETUP, None));
  }

  lemma SecondAccepted(cfg: Config, s: State)
    requires Roomy(cfg)
    requires s == M2apCounters.ACCEPTED_STATE.(enbs := M2apCounters.ACCEPTED_STATE.enbs[8 := FRESH_ENB], nbEnbs := 2)
    ensures Enabled(s, SetupRequest(8, SECOND_SETUP, None))
    ensures Step(cfg, s, SetupRequest(8, SECOND_SETUP, None)) == TWO_ENBS_STATE
  {
    assert 2 in SECOND_SETUP.announced && ServiceArea.Valid(cfg.area, 2);
    assert ServiceArea.Recorded(cfg.area, [], [2]) == [2];
    assert SetupRefusal(cfg, s, SECOND_SETUP).None?;
  }

  lemma TwoSessionsRun(cfg: Config)
    requires Roomy(cfg)
    ensures IsRun(cfg, TWO_SESSIONS) && After(cfg, TWO_SESSIONS) == TWO_SESSIONS_STATE
  {
    TwoEnbsRun(cfg);
    assert 7 in Supporting(TWO_ENBS_STATE.enbs, 1) && 8 in Supporting(TWO_ENBS_STATE.enbs, 2);
    M2apRuns.RunExtended(cfg, TWO_ENBS, SessionStart(T, 1, false, None));
    var s := TWO_ENBS_STATE.(services := map[1 := Service(T, 1, map[])], nextId := 2);
    assert After(cfg, TWO_ENBS + [SessionStart(T, 1, false, None)]) == s;
    M2apRuns.RunExtended(cfg, TWO_ENBS + [SessionStart(T, 1, false, None)], SessionStart(T, 2, false, None));
  }

  /** The update leaves two sessions alike. */
  lemma MovedRun(cfg: Config)
    requires Roomy(cfg)
    ensures IsRun(cfg, MOVED) && After(cfg, MOVED) == MovedState(cfg)
    ensures !UniqueSessions(After(cfg, MOVED).services)
  {
    TwoSessionsRun(cfg);
    MovedStep(cfg);
    M2apRuns.RunExtended(cfg, TWO_SESSIONS, SessionUpdate(T, 1, 2, true, Some(1)));
    assert SameSession(MovedState(cfg).services[1], MovedState(cfg).services[2]);
  }

  lemma MovedStep(cfg: Config)
    ensures Enabled(TWO_SESSIONS_STATE, SessionUpdate(T, 1, 2, true, Some(1)))
    ensures Step(cfg, TWO_SESSIONS_STATE, SessionUpdate(T, 1, 2, true, Some(1))) == MovedState(cfg)
  {
    var s := TWO_SESSIONS_STATE;
    assert Supporting(s.enbs, 2) == {8};
    assert s.enbs.Keys - {8} == {7};
    assert s.services[1].assocs - {7} == map[];
  }

  lemma DesertedRun(cfg: Config)
    requires Roomy(cfg)
    ensures IsRun(cfg, DESERTED) && After(cfg, DESERTED) == DesertedState(cfg)
  {
    MovedRun(cfg);
    DesertedSteps(cfg);
    M2apRuns.RunExtended(cfg, MOVED, StartResponse(7, 1, 5));
    M2apRuns.RunExtended(cfg, MOVED + [StartResponse(7, 1, 5)], Disconnection(8));
  }

  lemma DesertedSteps(cfg: Config)
    ensures Enabled(MovedState(cfg), StartResponse(7, 1, 5))
    ensures Step(cfg, Step(cfg, MovedState(cfg), StartResponse(7, 1, 5)), Disconnection(8)) == DesertedState(cfg)
  {
    var t := Step(cfg, MovedState(cfg), StartResponse(7, 1, 5));
    assert t.enbs == LateState(cfg).enbs;
    assert t.services == LateState(cfg).services;
    LastEnbGone(cfg);
  }

  /** Between the two events. */
  function LateState(cfg: Config): State {
    var late := Enb(Reseting, 1, [1], [], 0, Incremented(DecrementedForArea(cfg, 0)));
    MovedState(cfg).(enbs := MovedState(cfg).enbs[7 := late],
                     services := map[1 := Service(T, 2, map[7 := 5]), 2 := Service(T, 2, map[])])
  }

  lemma LastEnbGone(cfg: Config)
    ensures Step(cfg, LateState(cfg), Disconnection(8)) == DesertedState(cfg)
  {
    var u := Step(cfg, LateState(cfg), Disconnection(8));
    assert u.enbs == DesertedState(cfg).enbs;
    assert map[7 := 5] - {8} == map[7 := 5];
    assert u.services == DesertedState(cfg).services;
    assert u.accepted == {7};
  }

  /** The first session's timer, its area deserted, ends the second session and keeps its own. */
  lemma TimerEndsAnotherInARun(cfg: Config)
    requires Roomy(cfg)
    ensures IsRun(cfg, DESERTED) && IsRun(cfg, DESERTED + [TimerExpiry(1, Some(2))])
    ensures 1 in After(cfg, DESERTED).services && Supporting(After(cfg, DESERTED).enbs, 2) == {}
    ensures After(cfg, DESERTED).services[1].sai == 2
    ensures After(cfg, DESERTED + [TimerExpiry(1, Some(2))]).services.Keys == {1}
  {
    DesertedRun(cfg);
    var s := DesertedState(cfg);
    assert Supporting(s.enbs, 2) == {};
    assert 7 in s.services[1].assocs;
    M2apRuns.RunExtended(cfg, DESERTED, TimerExpiry(1, Some(2)));
    RemovedExactly(s, 2);
    assert s.services.Keys - {2} == {1};
  }
}
