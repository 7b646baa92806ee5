/** The fixed sizes of the M2AP task: its uint8_t list lengths and its admission bound. */
module M2apLimits {
  import opened Common
  import opened M2apState
  import opened M2apRuns
  import M2apCounters
  import ServiceArea

  // ---- List lengths ----

  /** Area and MBSFN id lists have the lengths their counts can express. */
  ghost predicate ListsFit(enbs: map<AssocId, Enb>) {
    forall a | a in enbs :: |enbs[a].areas| < U8 && |enbs[a].mbsfnIds| < U8
  }

  /** Every eNB still there has the lists it had. */
  ghost predicate SameLists(s: State, t: State) {
    forall a | a in t.enbs ::
      a in s.enbs && t.enbs[a].areas == s.enbs[a].areas && t.enbs[a].mbsfnIds == s.enbs[a].mbsfnIds
  }

  lemma {:induction false} AppendedFits(xs: seq<nat>, ys: seq<nat>)
    requires |xs| < U8
    ensures |AppendAllU8(xs, ys)| < U8
    decreases |ys|
  {
    if ys == [] {
    } else {
      AppendedFits(AppendU8(xs, ys[0]), ys[1..]);
    }
  }

  lemma {:induction false} RecordedFits(cfg: ServiceArea.AreaConfig, areas: seq<nat>, announced: seq<nat>)
    requires |areas| < U8
    ensures |ServiceArea.Recorded(cfg, areas, announced)| < U8
  {
    if announced == [] {
    } else {
      RecordedFits(cfg, areas, announced[1..]);
    }
  }

  lemma SetupFits(cfg: Config, s: State, a: AssocId, req: SetupReq, found: Option<AssocId>)
    requires ListsFit(s.enbs) && FoundByEnbId(s.enbs, req.enbId, found)
    ensures ListsFit(OnSetupRequest(cfg, s, a, req, found).enbs)
  {
    if a in s.enbs {
      RecordedFits(cfg.area, s.enbs[a].areas, req.announced);
    }
  }

  lemma SetupResponseFits(s: State, a: AssocId, local: nat, ids: seq<nat>)
    requires ListsFit(s.enbs)
    ensures ListsFit(OnSetupResponse(s, a, local, ids).enbs)
  {
    if a in s.enbs {
      AppendedFits(s.enbs[a].mbsfnIds, ids);
    }
  }

  lemma RemoveServiceLists(s: State, m: MceId)
    requires m in s.services
    ensures SameLists(s, RemoveService(s, m))
  {
  }

  lemma SessionLists(cfg: Config, s: State, e: Event)
    requires Enabled(s, e) && (e.SessionStart? || e.SessionStop? || e.SessionUpdate? || e.TimerExpiry?)
    ensures SameLists(s, Step(cfg, s, e))
  {
    if e.found.Some? {
      RemoveServiceLists(s, e.found.value);
    }
    if e.TimerExpiry? {
      TimerLists(s, e.mce, e.found);
    } else if e.SessionUpdate? {
      UpdateLists(cfg, s, e.newSai, e.timed, e.found);
    }
  }

  lemma TimerLists(s: State, m: MceId, found: Option<MceId>)
    requires Enabled(s, TimerExpiry(m, found))
    ensures SameLists(s, OnTimerExpiry(s, m, found))
  {
    if m in s.services {
      RemoveServiceLists(s, m);
      RemoveServiceLists(s, found.value);
    }
  }

  lemma UpdateLists(cfg: Config, s: State, newSai: nat, timed: bool, found: Option<MceId>)
    requires found.Some? ==> found.value in s.services
    ensures SameLists(s, OnSessionUpdate(cfg, s, newSai, timed, found))
  {
    if found.Some? {
      RemoveServiceLists(s, found.value);
    }
  }

  lemma ServiceMessageLists(cfg: Config, s: State, e: Event)
    requires Enabled(s, e)
    requires e.StartResponse? || e.UpdateFailure? || e.ErrorIndication? || e.PartialReset? || e.FullReset?
    ensures SameLists(s, Step(cfg, s, e))
  {
    if e.PartialReset? && e.assoc in s.enbs {
      ResetItemsFrame(s, e.assoc, e.items);
    }
  }

  lemma StepListsFit(cfg: Config, s: State, e: Event)
    requires ListsFit(s.enbs) && Enabled(s, e)
    ensures ListsFit(Step(cfg, s, e).enbs)
  {
    if e.SetupRequest? {
      SetupFits(cfg, s, e.assoc, e.req, e.foundEnb);
    } else if e.SetupResponse? {
      SetupResponseFits(s, e.assoc, e.local, e.ids);
    } else if e.SessionStart? || e.SessionStop? || e.SessionUpdate? || e.TimerExpiry? {
      SessionLists(cfg, s, e);
    } else if !e.NewAssociation? && !e.Disconnection? {
      ServiceMessageLists(cfg, s, e);
    }
  }

  /** In every reachable state. */
  lemma {:induction false} RunListsFit(cfg: Config, events: seq<Event>)
    requires IsRun(cfg, events)
    ensures ListsFit(After(cfg, events).enbs)
    decreases |events|
  {
    if events == [] {
    } else {
      RunListsFit(cfg, events[..|events|-1]);
      StepListsFit(cfg, After(cfg, events[..|events|-1]), events[|events|-1]);
    }
  }

  // ---- Distinct MBSFN ids ----

  ghost predicate IdsDistinct(enbs: map<AssocId, Enb>) {
    forall a | a in enbs :: Distinct(enbs[a].mbsfnIds)
  }

  /**
    The ids of a setup response keep an eNB's list distinct: they differ from
    each other and from those it has. If the count wraps, only the last of them
    are left, and only those need differ.
  */
  ghost predicate NewIds(has: seq<nat>, ids: seq<nat>) {
    var n := |has| + |ids|;
    if n < U8 then Distinct(ids) && Elems(has) !! Elems(ids)
    else n % U8 <= |ids| && Distinct(ids[|ids| - n % U8..])
  }

  lemma AppendedDistinctIff(has: seq<nat>, ids: seq<nat>)
    requires |has| < U8 && Distinct(has)
    ensures Distinct(AppendAllU8(has, ids)) <==> NewIds(has, ids)
  {
    AppendAllU8IsSinceWrap(has, ids);
    if |has| + |ids| < U8 {
      NothingWraps(has + ids);
      ConcatDistinctIff(has, ids);
    } else {
      LastOnesLeft(has, ids);
    }
  }

  lemma NothingWraps(xs: seq<nat>)
    requires |xs| < U8
    ensures SinceWrap(xs) == xs
  {
  }

  lemma LastOnesLeft(has: seq<nat>, ids: seq<nat>)
    requires |has| < U8 <= |has| + |ids|
    ensures var r := (|has| + |ids|) % U8; r <= |ids| && SinceWrap(has + ids) == ids[|ids| - r..]
  {
    var all, r := has + ids, (|has| + |ids|) % U8;
    assert r <= |all| - U8;
    assert all[|all| - r..] == ids[|ids| - r..];
  }

  lemma ConcatDistinctIff(xs: seq<nat>, ys: seq<nat>)
    requires Distinct(xs)
    ensures Distinct(xs + ys) <==> Distinct(ys) && Elems(xs) !! Elems(ys)
  {
    var all := xs + ys;
    if Distinct(all) {
      forall i, j | 0 <= i < j < |ys| ensures ys[i] != ys[j] {
        assert all[|xs| + i] != all[|xs| + j];
      }
      forall i, j | 0 <= i < |xs| && 0 <= j < |ys| ensures xs[i] != ys[j] {
        assert all[i] != all[|xs| + j];
      }
    }
    if Distinct(ys) && Elems(xs) !! Elems(ys) {
      forall i, j | 0 <= i < j < |all| ensures all[i] != all[j] {
        if i < |xs| <= j {
          assert all[i] in Elems(xs) && all[j] in Elems(ys);
        }
      }
    }
  }

  ghost predicate KeepsIdsDistinct(s: State, e: Event) {
    e.SetupResponse? && e.assoc in s.enbs && e.ids != [] ==> NewIds(s.enbs[e.assoc].mbsfnIds, e.ids)
  }

  lemma ResponseIdsDistinctIff(s: State, a: AssocId, local: nat, ids: seq<nat>)
    requires ListsFit(s.enbs) && IdsDistinct(s.enbs)
    ensures IdsDistinct(OnSetupResponse(s, a, local, ids).enbs) <==>
              (a in s.enbs && ids != [] ==> NewIds(s.enbs[a].mbsfnIds, ids))
  {
    if a in s.enbs && ids != [] {
      AppendedDistinctIff(s.enbs[a].mbsfnIds, ids);
      var t := OnSetupResponse(s, a, local, ids);
      assert a in t.enbs && t.enbs[a].mbsfnIds == AppendAllU8(s.enbs[a].mbsfnIds, ids);
      assert forall b | b in s.enbs && b != a :: t.enbs[b] == s.enbs[b];
    }
  }

  lemma StepIdsDistinctIff(cfg: Config, s: State, e: Event)
    requires ListsFit(s.enbs) && IdsDistinct(s.enbs) && Enabled(s, e)
    ensures IdsDistinct(Step(cfg, s, e).enbs) <==> KeepsIdsDistinct(s, e)
  {
    if e.SetupResponse? {
      ResponseIdsDistinctIff(s, e.assoc, e.local, e.ids);
    } else if e.SessionStart? || e.SessionStop? || e.SessionUpdate? || e.TimerExpiry? {
      SessionLists(cfg, s, e);
    } else if !e.NewAssociation? && !e.Disconnection? && !e.SetupRequest? {
      ServiceMessageLists(cfg, s, e);
    }
  }

  ghost predicate IdsDistinctThroughout(cfg: Config, events: seq<Event>)
    requires IsRun(cfg, events)
    decreases |events|
  {
    IdsDistinct(After(cfg, events).enbs) && (events == [] || IdsDistinctThroughout(cfg, events[..|events|-1]))
  }

  ghost predicate AllKeepIdsDistinct(cfg: Config, events: seq<Event>)
    requires IsRun(cfg, events)
    decreases |events|
  {
    events == [] ||
    (AllKeepIdsDistinct(cfg, events[..|events|-1]) &&
     KeepsIdsDistinct(After(cfg, events[..|events|-1]), events[|events|-1]))
  }

  /** Over whole runs: every eNB's ids are distinct in every state exactly if each setup response brings new ones. */
  lemma {:induction false} RunIdsDistinctIff(cfg: Config, events: seq<Event>)
    requires IsRun(cfg, events)
    ensures IdsDistinctThroughout(cfg, events) <==> AllKeepIdsDistinct(cfg, events)
    decreases |events|
  {
    if events == [] {
    } else {
      var before := events[..|events|-1];
      RunIdsDistinctIff(cfg, before);
      RunListsFit(cfg, before);
      if IdsDistinctThroughout(cfg, before) {
        StepIdsDistinctIff(cfg, After(cfg, before), events[|events|-1]);
      }
    }
  }

  /** An eNB answered twice for its one area has its id twice. */
  lemma RepeatedResponseDoublesIds(cfg: Config)
    requires cfg.maxEnbs >= 2 && cfg.area.globalTypes >= 1
    ensures var run := M2apCounters.ACCEPTED + [SetupResponse(7, 0, [9])] + [SetupResponse(7, 0, [9])];
            && IsRun(cfg, run)
            && 7 in After(cfg, run).enbs && After(cfg, run).enbs[7].mbsfnIds == [9, 9]
            && !IdsDistinct(After(cfg, run).enbs)
  {
    var e := SetupResponse(7, 0, [9]);
    M2apCounters.AcceptedRun(cfg);
    RunExtended(cfg, M2apCounters.ACCEPTED, e);
    assert AppendAllU8([], [9]) == [9];
    RunExtended(cfg, M2apCounters.ACCEPTED + [e], e);
    assert AppendAllU8([9], [9]) == [9, 9];
    var ids := After(cfg, M2apCounters.ACCEPTED + [e] + [e]).enbs[7].mbsfnIds;
    assert ids[0] == ids[1];
  }

  // ---- Reusing an association id too early ----

  const FIRST := SetupReq(0, 1, true, 1, [1], true)
  const SECOND := SetupReq(0, 2, true, 1, [1], true)

  const ANSWER_OWED: seq<Event> := [NewAssociation(1)] + [SetupRequest(1, FIRST, None)] + [Disconnection(1)]
  const OWED_STATE := State(map[], map[], 0, 1, {}, multiset{1})

  const SECOND_ACCEPTED: seq<Event> := ANSWER_OWED + [NewAssociation(2)] + [SetupRequest(2, SECOND, None)]
  const SECOND_STATE :=
    State(map[2 := Enb(Reseting, 2, [1], [], 0, 0)], map[], 1, 1, {2}, multiset{1, 2})

  const REUSED: seq<Event> := SECOND_ACCEPTED + [NewAssociation(1)] + [SetupResponse(1, 0, [9])]
  const REUSED_STATE :=
    State(map[1 := Enb(Ready, 0, [], [9], 0, 0), 2 := Enb(Reseting, 2, [1], [], 0, 0)], map[], 2, 1, {2}, multiset{2})

  lemma OwedRun(cfg: Config)
    requires cfg.maxEnbs == 2 && cfg.area.globalTypes >= 1
    ensures IsRun(cfg, ANSWER_OWED) && After(cfg, ANSWER_OWED) == OWED_STATE
  {
    var e1: seq<Event> := [NewAssociation(1)];
    RunExtended(cfg, [], NewAssociation(1));
    assert [] + e1 == e1;
    var s1 := State(map[1 := FRESH_ENB], map[], 1, 1, {}, multiset{});
    assert After(cfg, e1) == s1;
    var s2 := State(map[1 := Enb(Reseting, 1, [1], [], 0, 0)], map[], 1, 1, {1}, multiset{1});
    AcceptedAlone(cfg, s1, 1, FIRST, s2);
    RunExtended(cfg, e1, SetupRequest(1, FIRST, None));
    RunExtended(cfg, e1 + [SetupRequest(1, FIRST, None)], Disconnection(1));
    assert Step(cfg, s2, Disconnection(1)) == OWED_STATE;
  }

  /** A lone fresh eNB announcing area 1 is accepted. */
  lemma AcceptedAlone(cfg: Config, s: State, a: AssocId, req: SetupReq, t: State)
    requires cfg.maxEnbs == 2 && cfg.area.globalTypes >= 1
    requires s.enbs == map[a := FRESH_ENB] && s.services == map[] && s.nbEnbs == 1
    requires req == SetupReq(0, req.enbId, true, 1, [1], true) && req.enbId != 0
    requires t == s.(enbs := map[a := Enb(Reseting, req.enbId, [1], [], 0, 0)],
                     accepted := s.accepted + {a}, pending := s.pending + multiset{a})
    ensures Enabled(s, SetupRequest(a, req, None)) && Step(cfg, s, SetupRequest(a, req, None)) == t
  {
    assert 1 in req.announced && ServiceArea.Valid(cfg.area, 1);
    assert ServiceArea.Recorded(cfg.area, [], [1]) == [1];
    assert SetupRefusal(cfg, s, req).None?;
  }

  lemma SecondRun(cfg: Config)
    requires cfg.maxEnbs == 2 && cfg.area.globalTypes >= 1
    ensures IsRun(cfg, SECOND_ACCEPTED) && After(cfg, SECOND_ACCEPTED) == SECOND_STATE
  {
    OwedRun(cfg);
    RunExtended(cfg, ANSWER_OWED, NewAssociation(2));
    var s := State(map[2 := FRESH_ENB], map[], 1, 1, {}, multiset{1});
    assert Step(cfg, OWED_STATE, NewAssociation(2)) == s;
    AcceptedAlone(cfg, s, 2, SECOND, SECOND_STATE);
    RunExtended(cfg, ANSWER_OWED + [NewAssociation(2)], SetupRequest(2, SECOND, None));
  }

  /**
    If an association id is reused while the answer for its predecessor is
    still owed, a maximum of two admits two eNBs instead of one.
  */
  lemma ReuseBreaksAdmission(cfg: Config)
    requires cfg.maxEnbs == 2 && cfg.area.globalTypes >= 1
    ensures IsRun(cfg, REUSED) && After(cfg, REUSED) == REUSED_STATE
    ensures Supporting(REUSED_STATE.enbs, 1) + (set a | a in REUSED_STATE.enbs && REUSED_STATE.enbs[a].state == Ready)
            == {1, 2}
  {
    SecondRun(cfg);
    RunExtended(cfg, SECOND_ACCEPTED, NewAssociation(1));
    var s := SECOND_STATE.(enbs := SECOND_STATE.enbs[1 := FRESH_ENB], nbEnbs := 2);
    assert Step(cfg, SECOND_STATE, NewAssociation(1)) == s;
    Answered(cfg, s);
    RunExtended(cfg, SECOND_ACCEPTED + [NewAssociation(1)], SetupResponse(1, 0, [9]));
  }

  lemma Answered(cfg: Config, s: State)
    requires s == SECOND_STATE.(enbs := SECOND_STATE.enbs[1 := FRESH_ENB], nbEnbs := 2)
    ensures Step(cfg, s, SetupResponse(1, 0, [9])) == REUSED_STATE
  {
    assert AppendAllU8([], [9]) == [9];
  }
}
