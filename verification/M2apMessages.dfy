/** The messages each event makes the M2AP task send, and what session changes send to whom. */
module M2apMessages {
  import opened Common
  import opened M2apState
  import M2apRuns

  // ---- Messages sent ----

  /** Stop requests go to the targets whose eNB MBMS id is known. */
  function StopsTo(svc: Service, m: MceId, targets: set<AssocId>): set<Msg> {
    set a | a in targets && a in svc.assocs && svc.assocs[a] != INVALID_ENB_MBMS_ID ::
      StopReq(a, m, svc.assocs[a])
  }

  function StartsTo(m: MceId, targets: set<AssocId>): set<Msg> {
    set a | a in targets :: StartReq(a, m)
  }

  function UpdatesTo(svc: Service, m: MceId, targets: set<AssocId>): set<Msg> {
    set a | a in targets && a in svc.assocs && svc.assocs[a] != INVALID_ENB_MBMS_ID ::
      UpdateReq(a, m, svc.assocs[a])
  }

  /** Associated eNBs are updated, the others started. */
  function ContextMsgs(svc: Service, m: MceId, served: set<AssocId>): set<Msg> {
    UpdatesTo(svc, m, served) + StartsTo(m, served - svc.assocs.Keys)
  }

  function StopSessionMsgs(s: State, sai: nat, found: Option<MceId>): set<Msg>
    requires found.Some? ==> found.value in s.services
  {
    if found.Some? then StopsTo(s.services[found.value], found.value, Supporting(s.enbs, sai)) else {}
  }

  /** What a newly created service makes the M2AP task send. */
  function CreatedMsgs(s: State, sai: nat, timed: bool): set<Msg> {
    if timed || s.nextId == INVALID_MCE_ID then {} else StartsTo(s.nextId, Supporting(s.enbs, sai))
  }

  function SessionStartMsgs(s: State, tmgi: Tmgi, sai: nat, timed: bool, found: Option<MceId>): set<Msg>
    requires FoundByTmgi(s.services, tmgi, sai, found)
  {
    StopSessionMsgs(s, sai, found) + CreatedMsgs(OnSessionStop(s, found), sai, timed)
  }

  function SessionUpdateMsgs(s: State, newSai: nat, timed: bool, found: Option<MceId>): set<Msg>
    requires found.Some? ==> found.value in s.services
  {
    if found.None? then {}
    else
      var m, svc := found.value, s.services[found.value];
      var served := Supporting(s.enbs, newSai);
      if served == {} then StopSessionMsgs(s, svc.sai, found)
      else
        var left := Outside(s.enbs, newSai);
        StopsTo(svc, m, left) +
        if timed then {} else ContextMsgs(svc.(assocs := svc.assocs - left), m, served)
  }

  function TimerExpiryMsgs(s: State, m: MceId, found: Option<MceId>): set<Msg>
    requires found.Some? ==> found.value in s.services
  {
    if m !in s.services then {}
    else
      var svc := s.services[m];
      var served := Supporting(s.enbs, svc.sai);
      if svc.assocs == map[] then StartsTo(m, served)
      else if served == {} then StopSessionMsgs(s, svc.sai, found)
      else ContextMsgs(svc, m, served)
  }

  function DropMsgs(s: State, a: AssocId, m: MceId): set<Msg> {
    if m in s.services && a in s.enbs then StopsTo(s.services[m], m, {a}) else {}
  }

  function SetupRequestMsgs(cfg: Config, s: State, a: AssocId, req: SetupReq, found: Option<AssocId>): set<Msg>
    requires FoundByEnbId(s.enbs, req.enbId, found)
  {
    match SetupRefusal(cfg, s, req)
    case Some((cause, retryAfter)) => {SetupFailure(a, cause, retryAfter)}
    case None =>
      if found.Some? && found.value != a then {SetupFailure(a, MiscUnspecified, false)}
      else if a !in s.enbs then {}
      else {SetupForward(a, req.enbId, OnSetupRequest(cfg, s, a, req, found).enbs[a].areas)}
  }

  function SetupResponseMsgs(s: State, a: AssocId, ids: seq<nat>): set<Msg> {
    if a !in s.enbs then {}
    else if ids == [] then {SetupFailure(a, MiscUnspecified, false)}
    else {SetupAnswer(a, ids)}
  }

  function AckOf(item: ResetItem): AckItem {
    AckItem(if ItemMce(item) == INVALID_MCE_ID then None else Some(ItemMce(item)),
            if ItemEnb(item) == INVALID_ENB_MBMS_ID then None else Some(ItemEnb(item)))
  }

  function AcksOf(items: seq<ResetItem>): (acks: seq<AckItem>)
    ensures |acks| == |items|
    ensures forall i | 0 <= i < |items| :: acks[i] == AckOf(items[i])
  {
    if items == [] then [] else AcksOf(items[..|items|-1]) + [AckOf(items[|items|-1])]
  }

  /** All messages of one step; each is sent once. */
  function Out(cfg: Config, s: State, e: Event): set<Msg>
    requires Enabled(s, e)
  {
    match e
    case NewAssociation(_) => {}
    case Disconnection(_) => {}
    case SetupRequest(a, req, found) => SetupRequestMsgs(cfg, s, a, req, found)
    case SetupResponse(a, _, ids) => SetupResponseMsgs(s, a, ids)
    case SessionStart(tmgi, sai, timed, found) => SessionStartMsgs(s, tmgi, sai, timed, found)
    case SessionStop(_, sai, inform, found) => if inform then StopSessionMsgs(s, sai, found) else {}
    case SessionUpdate(_, _, newSai, timed, found) => SessionUpdateMsgs(s, newSai, timed, found)
    case TimerExpiry(m, found) => TimerExpiryMsgs(s, m, found)
    case StartResponse(_, _, _) => {}
    case UpdateFailure(a, mce) => DropMsgs(s, a, Mask24(mce))
    case ErrorIndication(a, mce) => if MceIdOf(mce) == INVALID_MCE_ID then {} else DropMsgs(s, a, MceIdOf(mce))
    case PartialReset(a, items) => if ResetAllowed(s, a) then {PartialAck(a, AcksOf(items))} else {}
    case FullReset(a) => if ResetAllowed(s, a) then {ResetAck(a)} else {}
  }

  // ---- Session update ----

  /** What an eNB should be sent when service `m` moves to the area `newSai`. */
  function UpdateFor(s: State, m: MceId, newSai: nat, a: AssocId): set<Msg>
    requires m in s.services && a in s.enbs
  {
    var svc := s.services[m];
    var supports := newSai in s.enbs[a].areas;
    if a !in svc.assocs then (if supports then {StartReq(a, m)} else {})
    else if svc.assocs[a] == INVALID_ENB_MBMS_ID then {}
    else if supports then {UpdateReq(a, m, svc.assocs[a])}
    else {StopReq(a, m, svc.assocs[a])}
  }

  /** The associations a service keeps when it moves to the area `newSai`. */
  function KeptAssocs(s: State, m: MceId, newSai: nat): map<AssocId, EnbMbmsId>
    requires m in s.services
  {
    var was := s.services[m].assocs;
    map a | a in was && a in s.enbs && newSai in s.enbs[a].areas && was[a] != INVALID_ENB_MBMS_ID :: was[a]
  }

  /**
    An immediate session update to an area some eNB serves: the service moves
    to the new area and keeps exactly the associations of eNBs supporting it;
    a stop goes to exactly the associated eNBs that do not, an update to the
    associated ones that do, a start to the others that do, and nothing to the
    rest. Associations recorded with the invalid eNB MBMS id are dropped
    without a message. No other service changes.
  */
  lemma SessionUpdateExact(cfg: Config, s: State, e: Event)
    requires M2apRuns.NoDangling(s) && e.SessionUpdate? && !e.timed && e.found.Some? && Enabled(s, e)
    requires Supporting(s.enbs, e.newSai) != {}
    ensures var m := e.found.value;
            var t := Step(cfg, s, e);
            && t.services == s.services[m := Service(e.tmgi, e.newSai, KeptAssocs(s, m, e.newSai))]
            && (forall a | a in s.enbs ::
                  (set msg | msg in Out(cfg, s, e) && msg.to == a) == UpdateFor(s, m, e.newSai, a))
            && (forall msg | msg in Out(cfg, s, e) :: msg.to in s.enbs)
  {
    UpdatedServices(cfg, s, e);
    UpdatesOnlyEnbs(cfg, s, e);
    forall a | a in s.enbs
      ensures (set msg | msg in Out(cfg, s, e) && msg.to == a) == UpdateFor(s, e.found.value, e.newSai, a)
    {
      UpdateForExact(cfg, s, e, a);
    }
  }

  lemma UpdatedServices(cfg: Config, s: State, e: Event)
    requires M2apRuns.NoDangling(s) && e.SessionUpdate? && !e.timed && e.found.Some? && Enabled(s, e)
    requires Supporting(s.enbs, e.newSai) != {}
    ensures var m := e.found.value;
            Step(cfg, s, e).services == s.services[m := Service(e.tmgi, e.newSai, KeptAssocs(s, m, e.newSai))]
  {
    var m := e.found.value;
    assert Step(cfg, s, e).services[m].assocs == KeptAssocs(s, m, e.newSai);
  }

  lemma UpdatesOnlyEnbs(cfg: Config, s: State, e: Event)
    requires e.SessionUpdate? && !e.timed && e.found.Some? && Enabled(s, e)
    requires Supporting(s.enbs, e.newSai) != {}
    ensures forall msg | msg in Out(cfg, s, e) :: msg.to in s.enbs
  {
  }

  lemma UpdateForExact(cfg: Config, s: State, e: Event, a: AssocId)
    requires e.SessionUpdate? && !e.timed && e.found.Some? && Enabled(s, e)
    requires Supporting(s.enbs, e.newSai) != {} && a in s.enbs
    ensures (set msg | msg in Out(cfg, s, e) && msg.to == a) == UpdateFor(s, e.found.value, e.newSai, a)
  {
    var m, svc := e.found.value, s.services[e.found.value];
    var served := Supporting(s.enbs, e.newSai);
    var left := s.enbs.Keys - served;
    var moved := svc.(assocs := svc.assocs - left);
    StopsToOne(svc, m, left, a);
    UpdatesToOne(moved, m, served, a);
    StartsToOne(m, served - moved.assocs.Keys, a);
    assert Out(cfg, s, e) ==
           StopsTo(svc, m, left) + (UpdatesTo(moved, m, served) + StartsTo(m, served - moved.assocs.Keys));
  }

  lemma StopsToOne(svc: Service, m: MceId, targets: set<AssocId>, a: AssocId)
    ensures (set msg | msg in StopsTo(svc, m, targets) && msg.to == a) ==
            if a in targets && a in svc.assocs && svc.assocs[a] != INVALID_ENB_MBMS_ID
            then {StopReq(a, m, svc.assocs[a])} else {}
  {
  }

  lemma UpdatesToOne(svc: Service, m: MceId, targets: set<AssocId>, a: AssocId)
    ensures (set msg | msg in UpdatesTo(svc, m, targets) && msg.to == a) ==
            if a in targets && a in svc.assocs && svc.assocs[a] != INVALID_ENB_MBMS_ID
            then {UpdateReq(a, m, svc.assocs[a])} else {}
  {
  }

  lemma StartsToOne(m: MceId, targets: set<AssocId>, a: AssocId)
    ensures (set msg | msg in StartsTo(m, targets) && msg.to == a) == if a in targets then {StartReq(a, m)} else {}
  {
  }

  /**
    A timed update followed by its timer is the immediate update: same
    messages in total, same services, same eNBs. This covers both branches of
    the timer, with and without associations left.
  */
  lemma DeferredUpdateIsImmediate(cfg: Config, s: State, now: Event, later: Event, expiry: Event)
    requires now.SessionUpdate? && now.found.Some? && !now.timed && Enabled(s, now)
    requires later == SessionUpdate(now.tmgi, now.sai, now.newSai, true, now.found)
    requires Supporting(s.enbs, now.newSai) != {}
    requires expiry.TimerExpiry? && expiry.mce == now.found.value && Enabled(Step(cfg, s, later), expiry)
    ensures Step(cfg, Step(cfg, s, later), expiry) == Step(cfg, s, now)
    ensures Out(cfg, s, later) + Out(cfg, Step(cfg, s, later), expiry) == Out(cfg, s, now)
  {
    var m := now.found.value;
    var t := Step(cfg, s, later);
    var served := Supporting(s.enbs, now.newSai);
    assert Supporting(t.enbs, now.newSai) == served;
    if t.services[m].assocs == map[] {
      NoAssociationsToUpdate(t, m, served);
    }
  }

  /**
    The timer's branch for a service without associations does what its other
    branch would: the same messages and the same, unchanged, state.
  */
  lemma NoAssociationsToUpdate(s: State, m: MceId, served: set<AssocId>)
    requires m in s.services && s.services[m].assocs == map[]
    ensures StartsTo(m, served) == ContextMsgs(s.services[m], m, served)
    ensures ContextUpdated(s, m, served) == s
  {
    assert Unreachable(s.services[m], served) == {};
    assert s.services[m].assocs - {} == map[];
    assert ContextUpdated(s, m, served).enbs == s.enbs;
    assert ContextUpdated(s, m, served).services == s.services;
  }
}
