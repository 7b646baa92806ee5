/** How many eNBs the M2AP task admits, across setup requests and the responses to them. */
module M2apAdmission {
  import opened Common
  import opened M2apState
  import opened M2apRuns

  /**
    Only eNBs whose setup was forwarded carry a service area, and there are
    always fewer of them than the configured maximum.
  */
  ghost predicate AreasAdmitted(cfg: Config, s: State) {
    && s.accepted <= s.enbs.Keys
    && (s.accepted == {} || |s.accepted| < cfg.maxEnbs)
    && (forall a | a in s.enbs && s.enbs[a].areas != [] :: a in s.accepted)
  }

  /** Only eNBs whose setup was forwarded are ready. */
  ghost predicate ReadyAccepted(s: State) {
    forall a | a in s.enbs && s.enbs[a].state == Ready :: a in s.accepted
  }

  /** Only eNBs whose setup was forwarded are in a local MBMS area. */
  ghost predicate LocalAccepted(s: State) {
    forall a | a in s.enbs && s.enbs[a].localArea != 0 :: a in s.accepted
  }

  /** The eNBs a response is owed for are those whose setup was forwarded. */
  ghost predicate PendingAccepted(s: State) {
    forall a | a in s.enbs && a in s.pending :: a in s.accepted
  }

  ghost predicate Keeps(cfg: Config, s: State, t: State) {
    && AreasAdmitted(cfg, t)
    && (ReadyAccepted(s) ==> ReadyAccepted(t))
    && (LocalAccepted(s) ==> LocalAccepted(t))
    && (PendingAccepted(s) ==> PendingAccepted(t))
  }

  // ---- Each event ----

  lemma RemoveEnbsKeeps(cfg: Config, s: State, gone: set<AssocId>)
    requires AreasAdmitted(cfg, s)
    ensures Keeps(cfg, s, RemoveEnbs(s, gone))
  {
    CardSubset(s.accepted - gone, s.accepted);
  }

  lemma RemoveServiceKeeps(cfg: Config, s: State, m: MceId)
    requires AreasAdmitted(cfg, s) && Consistent(s) && m in s.services
    ensures Keeps(cfg, s, RemoveService(s, m))
  {
    RemoveServiceShape(s, m);
  }

  lemma SetupKeeps(cfg: Config, s: State, a: AssocId, req: SetupReq, found: Option<AssocId>)
    requires AreasAdmitted(cfg, s) && Consistent(s) && FoundByEnbId(s.enbs, req.enbId, found)
    ensures Keeps(cfg, s, OnSetupRequest(cfg, s, a, req, found))
  {
    var t := OnSetupRequest(cfg, s, a, req, found);
    if SetupRefusal(cfg, s, req).None? {
      if found.Some? && found.value != a {
        RemoveEnbsKeeps(cfg, s, {found.value});
      } else if a in s.enbs {
        CardSubset(t.accepted, s.enbs.Keys);
      }
    }
  }

  /** A step that keeps states, areas and history of all eNBs. */
  lemma SameKeeps(cfg: Config, s: State, t: State)
    requires AreasAdmitted(cfg, s) && t.enbs.Keys == s.enbs.Keys
    requires t.accepted == s.accepted && t.pending == s.pending
    requires forall a | a in s.enbs ::
               && t.enbs[a].areas == s.enbs[a].areas && t.enbs[a].localArea == s.enbs[a].localArea
               && (t.enbs[a].state == Ready ==> s.enbs[a].state == Ready)
    ensures Keeps(cfg, s, t)
  {
  }

  lemma SessionStartKeeps(cfg: Config, s: State, tmgi: Tmgi, sai: nat, found: Option<MceId>)
    requires AreasAdmitted(cfg, s) && Consistent(s) && FoundByTmgi(s.services, tmgi, sai, found)
    requires IdFree(OnSessionStop(s, found), sai)
    ensures Keeps(cfg, s, OnSessionStart(s, tmgi, sai, found))
  {
    var t := OnSessionStop(s, found);
    if found.Some? {
      RemoveServiceKeeps(cfg, s, found.value);
    }
    SameKeeps(cfg, t, CreateService(t, tmgi, sai));
  }

  lemma SessionUpdateKeeps(cfg: Config, s: State, newSai: nat, timed: bool, found: Option<MceId>)
    requires AreasAdmitted(cfg, s) && Consistent(s)
    requires found.Some? ==> found.value in s.services
    ensures Keeps(cfg, s, OnSessionUpdate(cfg, s, newSai, timed, found))
  {
    if found.Some? {
      if Supporting(s.enbs, newSai) == {} {
        RemoveServiceKeeps(cfg, s, found.value);
      } else {
        SameKeeps(cfg, s, OnSessionUpdate(cfg, s, newSai, timed, found));
      }
    }
  }

  lemma TimerExpiryKeeps(cfg: Config, s: State, m: MceId, found: Option<MceId>)
    requires AreasAdmitted(cfg, s) && Consistent(s)
    requires found.Some? ==> found.value in s.services
    ensures Keeps(cfg, s, OnTimerExpiry(s, m, found))
  {
    if m in s.services {
      if Supporting(s.enbs, s.services[m].sai) != {} {
        SameKeeps(cfg, s, OnTimerExpiry(s, m, found));
      } else if s.services[m].assocs == map[] {
        RemoveServiceKeeps(cfg, s, m);
      } else if found.Some? {
        RemoveServiceKeeps(cfg, s, found.value);
      }
    }
  }

  lemma StartResponseKeeps(cfg: Config, s: State, a: AssocId, m: MceId, id: EnbMbmsId)
    requires AreasAdmitted(cfg, s)
    ensures Keeps(cfg, s, OnStartResponse(s, a, m, id))
  {
    SameKeeps(cfg, s, OnStartResponse(s, a, m, id));
  }

  lemma DropKeeps(cfg: Config, s: State, a: AssocId, m: MceId)
    requires AreasAdmitted(cfg, s)
    ensures Keeps(cfg, s, OnDrop(s, a, m))
  {
    SameKeeps(cfg, s, OnDrop(s, a, m));
  }

  lemma ResetKeeps(cfg: Config, s: State, a: AssocId, items: seq<ResetItem>)
    requires AreasAdmitted(cfg, s)
    ensures Keeps(cfg, s, OnPartialReset(s, a, items)) && Keeps(cfg, s, OnFullReset(s, a))
  {
    SameKeeps(cfg, s, OnFullReset(s, a));
    if a in s.enbs {
      ResetItemsFrame(s, a, items);
      SameKeeps(cfg, s, OnPartialReset(s, a, items));
    }
  }

  /** The events other than the two that depend on association ids in flight. */
  lemma OtherEventsKeep(cfg: Config, s: State, e: Event)
    requires AreasAdmitted(cfg, s) && Consistent(s) && Enabled(s, e)
    requires !e.NewAssociation? && !e.SetupResponse?
    ensures Keeps(cfg, s, Step(cfg, s, e))
  {
    match e
    case Disconnection(a) => RemoveEnbsKeeps(cfg, s, {a});
    case SetupRequest(a, req, found) => SetupKeeps(cfg, s, a, req, found);
    case SessionStart(tmgi, sai, _, found) => SessionStartKeeps(cfg, s, tmgi, sai, found);
    case SessionStop(_, _, _, found) => if found.Some? { RemoveServiceKeeps(cfg, s, found.value); }
    case SessionUpdate(_, _, newSai, timed, found) => SessionUpdateKeeps(cfg, s, newSai, timed, found);
    case TimerExpiry(m, found) => TimerExpiryKeeps(cfg, s, m, found);
    case StartResponse(a, mce, enb) => StartResponseKeeps(cfg, s, a, Mask24(mce), Mask16(enb));
    case UpdateFailure(a, mce) => DropKeeps(cfg, s, a, Mask24(mce));
    case ErrorIndication(a, mce) => DropKeeps(cfg, s, a, MceIdOf(mce));
    case PartialReset(a, items) => ResetKeeps(cfg, s, a, items);
    case FullReset(a) => ResetKeeps(cfg, s, a, []);
  }

  // ---- The exact condition ----

  /** A setup response that makes an eNB ready is for one whose setup was forwarded. */
  ghost predicate AnswersAccepted(s: State, e: Event) {
    e.SetupResponse? && e.assoc in s.enbs && e.ids != [] ==> e.assoc in s.accepted
  }

  lemma SetupResponseIff(cfg: Config, s: State, a: AssocId, local: nat, ids: seq<nat>)
    requires AreasAdmitted(cfg, s)
    ensures AreasAdmitted(cfg, OnSetupResponse(s, a, local, ids))
    ensures ReadyAccepted(s) ==>
              (ReadyAccepted(OnSetupResponse(s, a, local, ids)) <==> (a in s.enbs && ids != [] ==> a in s.accepted))
    ensures PendingAccepted(s) ==> PendingAccepted(OnSetupResponse(s, a, local, ids))
    ensures LocalAccepted(s) && (a in s.enbs && ids != [] ==> a in s.accepted) ==>
              LocalAccepted(OnSetupResponse(s, a, local, ids))
  {
    var t := OnSetupResponse(s, a, local, ids);
    if a in s.enbs && ids != [] {
      assert t.enbs[a].state == Ready;
    }
  }

  /** Areas are admitted after every event; ready eNBs stay accepted exactly if the event answers an accepted one. */
  lemma StepAdmissionIff(cfg: Config, s: State, e: Event)
    requires AreasAdmitted(cfg, s) && Consistent(s) && Enabled(s, e)
    ensures AreasAdmitted(cfg, Step(cfg, s, e))
    ensures ReadyAccepted(s) ==> (ReadyAccepted(Step(cfg, s, e)) <==> AnswersAccepted(s, e))
    ensures LocalAccepted(s) && AnswersAccepted(s, e) ==> LocalAccepted(Step(cfg, s, e))
  {
    if e.SetupResponse? {
      SetupResponseIff(cfg, s, e.assoc, e.local, e.ids);
    } else if !e.NewAssociation? {
      OtherEventsKeep(cfg, s, e);
    }
  }

  ghost predicate ReadyAcceptedThroughout(cfg: Config, events: seq<Event>)
    requires IsRun(cfg, events)
    decreases |events|
  {
    ReadyAccepted(After(cfg, events)) && (events == [] || ReadyAcceptedThroughout(cfg, events[..|events|-1]))
  }

  ghost predicate AllAnswersAccepted(cfg: Config, events: seq<Event>)
    requires IsRun(cfg, events)
    decreases |events|
  {
    events == [] ||
    (AllAnswersAccepted(cfg, events[..|events|-1]) &&
     AnswersAccepted(After(cfg, events[..|events|-1]), events[|events|-1]))
  }

  /**
    Over whole runs: eNBs with an area are always accepted and fewer than the
    maximum, and in every state all ready eNBs are accepted too, if and only if
    every setup response that makes an eNB ready answers an accepted one. Then
    so are all eNBs of local MBMS areas.
  */
  lemma {:induction false} RunAdmissionIff(cfg: Config, events: seq<Event>)
    requires IsRun(cfg, events)
    ensures AreasAdmitted(cfg, After(cfg, events))
    ensures ReadyAcceptedThroughout(cfg, events) <==> AllAnswersAccepted(cfg, events)
    ensures AllAnswersAccepted(cfg, events) ==> LocalAccepted(After(cfg, events))
    decreases |events|
  {
    if events == [] {
    } else {
      var before := events[..|events|-1];
      RunAdmissionIff(cfg, before);
      RunConsistent(cfg, before);
      StepAdmissionIff(cfg, After(cfg, before), events[|events|-1]);
    }
  }

  // ---- A condition on association ids that is enough ----

  /**
    Association ids are not reused while a setup response is in flight, and
    the MCE application only answers requests it was sent.
  */
  ghost predicate NoReuseInFlight(s: State, e: Event) {
    && (e.NewAssociation? && e.assoc !in s.enbs ==> e.assoc !in s.pending)
    && (e.SetupResponse? ==> e.assoc in s.pending)
  }

  /** Every event of the run respects `NoReuseInFlight` where it happens. */
  ghost predicate ReusesNothingInFlight(cfg: Config, events: seq<Event>)
    requires IsRun(cfg, events)
    decreases |events|
  {
    events == [] ||
    (ReusesNothingInFlight(cfg, events[..|events|-1]) &&
     NoReuseInFlight(After(cfg, events[..|events|-1]), events[|events|-1]))
  }

  lemma StepPending(cfg: Config, s: State, e: Event)
    requires AreasAdmitted(cfg, s) && PendingAccepted(s) && Consistent(s) && Enabled(s, e) && NoReuseInFlight(s, e)
    ensures PendingAccepted(Step(cfg, s, e)) && AnswersAccepted(s, e)
  {
    if e.SetupResponse? {
      SetupResponseIff(cfg, s, e.assoc, e.local, e.ids);
    } else if !e.NewAssociation? {
      OtherEventsKeep(cfg, s, e);
    }
  }

  lemma {:induction false} RunAdmission(cfg: Config, events: seq<Event>)
    requires IsRun(cfg, events) && ReusesNothingInFlight(cfg, events)
    ensures AllAnswersAccepted(cfg, events) && PendingAccepted(After(cfg, events))
    decreases |events|
  {
    if events == [] {
    } else {
      var before := events[..|events|-1];
      RunAdmission(cfg, before);
      RunAdmissionIff(cfg, before);
      RunConsistent(cfg, before);
      StepPending(cfg, After(cfg, before), events[|events|-1]);
    }
  }

  /**
    In every run the eNBs matched by a service area fit an array of `maxEnbs`
    entries with room to spare, and if every answer is for an accepted eNB, so
    do they together with the ready ones and those in local MBMS areas. With a
    maximum of at most 256 their number also fits the uint8_t some callers keep
    it in.
  */
  lemma MatchedEnbsFit(cfg: Config, events: seq<Event>, sai: nat)
    requires IsRun(cfg, events)
    ensures var s := After(cfg, events);
            var matched := Supporting(s.enbs, sai);
            var admitted := set a | a in s.enbs && (s.enbs[a].state == Ready || s.enbs[a].localArea != 0);
            && (matched == {} || |matched| < cfg.maxEnbs)
            && (cfg.maxEnbs <= 256 ==> |matched| < U8)
            && (AllAnswersAccepted(cfg, events) ==> matched + admitted == {} || |matched + admitted| < cfg.maxEnbs)
  {
    RunAdmissionIff(cfg, events);
    var s := After(cfg, events);
    var matched := Supporting(s.enbs, sai);
    var admitted := set a | a in s.enbs && (s.enbs[a].state == Ready || s.enbs[a].localArea != 0);
    CardSubset(matched, s.accepted);
    if AllAnswersAccepted(cfg, events) {
      CardSubset(matched + admitted, s.accepted);
    }
  }
}
