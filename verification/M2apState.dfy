/**
  The M2AP task of the MCE as a state machine: the eNB table, the MBMS service
  table with one association map per service, and the event handlers.

  Everything here is the specification. The handlers themselves, with their
  loops and in-place updates, are the methods of class `M2apTask.Task`.
*/
module M2apState {
  import opened Common
  import ServiceArea

  type AssocId = nat   // sctp_assoc_id_t
  type MceId = nat     // MCE MBMS M2AP id, 24 bits on the wire
  type EnbMbmsId = nat // eNB MBMS M2AP id, 16 bits

  const INVALID_MCE_ID: nat := 0xFF_FFFF
  const INVALID_ENB_MBMS_ID: nat := 0xFFFF

  datatype Tmgi = Tmgi(plmn: nat, serviceId: nat)

  datatype LinkState = Init | Reseting | Ready | Shutdown

  datatype Enb = Enb(
    state: LinkState,
    enbId: nat,
    areas: seq<nat>,     // mbms_sa_list
    mbsfnIds: seq<nat>,  // mbsfn_area_ids
    localArea: nat,
    nb: nat)             // nb_mbms_associated, a uint32_t

  /** A freshly allocated, zeroed eNB description. */
  const FRESH_ENB := Enb(Init, 0, [], [], 0, 0)

  datatype Service = Service(tmgi: Tmgi, sai: nat, assocs: map<AssocId, EnbMbmsId>)

  /**
    `accepted` and `pending` are history: the associations whose setup request
    was forwarded to the MCE application, and the setup responses the
    application still owes.
  */
  datatype State = State(
    enbs: map<AssocId, Enb>,
    services: map<MceId, Service>,
    nbEnbs: int,
    nextId: nat,
    accepted: set<AssocId>,
    pending: multiset<AssocId>)

  const INITIAL := State(map[], map[], 0, 1, {}, multiset{})

  /**
    `guarded` selects how an area change decrements an eNB's counter. The
    source decrements without a test (false); its sibling decrements test for
    zero first (true).
  */
  datatype Config = Config(maxEnbs: nat, area: ServiceArea.AreaConfig, guarded: bool)

  /** One entry of a partial reset request; ids are optional and unmasked. */
  datatype ResetItem = NoItem | ResetItem(mce: Option<nat>, enb: Option<nat>)

  /** One entry of the reset acknowledgement; invalid ids are left out. */
  datatype AckItem = AckItem(mce: Option<nat>, enb: Option<nat>)

  datatype SetupReq = SetupReq(
    stream: nat, enbId: nat, plmnMatches: bool, cells: nat, announced: seq<nat>, synchMatches: bool)

  datatype Cause = ProtocolUnspecified | Overload | MiscUnspecified

  datatype Msg =
    | StartReq(to: AssocId, mce: MceId)
    | UpdateReq(to: AssocId, mce: MceId, enb: EnbMbmsId)
    | StopReq(to: AssocId, mce: MceId, enb: EnbMbmsId)
    | SetupFailure(to: AssocId, cause: Cause, retryAfter: bool)
    | SetupAnswer(to: AssocId, mbsfnIds: seq<nat>)
    | SetupForward(to: AssocId, enbId: nat, areas: seq<nat>) // to the MCE application
    | ResetAck(to: AssocId)
    | PartialAck(to: AssocId, items: seq<AckItem>)

  /**
    What the M2AP task is handed. `found` is the element a search through a hash
    table stops at; if several elements match, the hash order decides.
  */
  datatype Event =
    | NewAssociation(assoc: AssocId)
    | Disconnection(assoc: AssocId)
    | SetupRequest(assoc: AssocId, req: SetupReq, foundEnb: Option<AssocId>)
    | SetupResponse(assoc: AssocId, local: nat, ids: seq<nat>)
    | SessionStart(tmgi: Tmgi, sai: nat, timed: bool, found: Option<MceId>)
    | SessionStop(tmgi: Tmgi, sai: nat, inform: bool, found: Option<MceId>)
    | SessionUpdate(tmgi: Tmgi, sai: nat, newSai: nat, timed: bool, found: Option<MceId>)
    | TimerExpiry(mce: MceId, found: Option<MceId>)
    | StartResponse(assoc: AssocId, mceRaw: nat, enbRaw: nat)
    | UpdateFailure(assoc: AssocId, mceRaw: nat)
    | ErrorIndication(assoc: AssocId, mceOpt: Option<nat>)
    | PartialReset(assoc: AssocId, items: seq<ResetItem>)
    | FullReset(assoc: AssocId)

  // ---- Searches ----

  /** The eNBs that announced service area `sai`. */
  function Supporting(enbs: map<AssocId, Enb>, sai: nat): set<AssocId> {
    set a | a in enbs && sai in enbs[a].areas
  }

  /** The eNBs that did not. */
  function Outside(enbs: map<AssocId, Enb>, sai: nat): set<AssocId> {
    enbs.Keys - Supporting(enbs, sai)
  }

  /** The eNBs of an MBMS area. */
  function InArea(enbs: map<AssocId, Enb>, local: nat): set<AssocId> {
    set a | a in enbs && enbs[a].localArea == local
  }

  predicate FoundByEnbId(enbs: map<AssocId, Enb>, enbId: nat, found: Option<AssocId>) {
    match found
    case Some(a) => a in enbs && enbs[a].enbId == enbId
    case None => forall a | a in enbs :: enbs[a].enbId != enbId
  }

  predicate FoundByTmgi(services: map<MceId, Service>, tmgi: Tmgi, sai: nat, found: Option<MceId>) {
    match found
    case Some(m) => m in services && services[m].tmgi == tmgi && services[m].sai == sai
    case None => forall m | m in services :: services[m].tmgi != tmgi || services[m].sai != sai
  }

  /** The services an eNB is associated with. */
  function Holding(s: State, a: AssocId): set<MceId> {
    set m | m in s.services && a in s.services[m].assocs
  }

  // ---- Ids as received ----

  function Mask24(id: nat): MceId {
    id % 0x100_0000
  }

  function Mask16(id: nat): EnbMbmsId {
    id % 0x1_0000
  }

  function MceIdOf(id: Option<nat>): MceId {
    if id.Some? then Mask24(id.value) else INVALID_MCE_ID
  }

  function EnbIdOf(id: Option<nat>): EnbMbmsId {
    if id.Some? then Mask16(id.value) else INVALID_ENB_MBMS_ID
  }

  // ---- Counters ----

  function Incremented(n: nat): nat {
    (n + 1) % U32
  }

  function DecrementedIfPositive(n: nat): nat {
    if n > 0 then n - 1 else 0
  }

  /** The decrement made for every eNB an area change leaves out. */
  function DecrementedForArea(cfg: Config, n: nat): nat {
    if n > 0 then n - 1 else if cfg.guarded then 0 else U32 - 1
  }

  // ---- Removing eNBs and services ----

  function WithoutAssocs(services: map<MceId, Service>, gone: set<AssocId>): map<MceId, Service> {
    map m | m in services :: services[m].(assocs := services[m].assocs - gone)
  }

  /** Freeing eNB table entries: every service forgets the associations. */
  function RemoveEnbs(s: State, gone: set<AssocId>): State {
    s.(enbs := s.enbs - gone,
       services := WithoutAssocs(s.services, gone),
       nbEnbs := s.nbEnbs - |gone|,
       accepted := s.accepted - gone)
  }

  /** An eNB loses one service because the service is removed. */
  function StatsCleared(e: Enb): Enb {
    var nb := DecrementedIfPositive(e.nb);
    e.(nb := nb, state := if nb == 0 && e.state == Reseting then Init else e.state)
  }

  /** The eNBs in shutdown that are deleted with their last service. */
  function ShutDownWith(s: State, assocs: set<AssocId>): set<AssocId> {
    set a | a in assocs && a in s.enbs && s.enbs[a].nb <= 1 && s.enbs[a].state == Shutdown
  }

  /** Removing service `m`, with the statistics of the eNBs in `done` cleared. */
  function ServiceFreed(s: State, m: MceId, done: set<AssocId>): State {
    var cleared := map a | a in s.enbs :: if a in done then StatsCleared(s.enbs[a]) else s.enbs[a];
    RemoveEnbs(s.(enbs := cleared, services := s.services - {m}), ShutDownWith(s, done))
  }

  function RemoveService(s: State, m: MceId): State
    requires m in s.services
  {
    ServiceFreed(s, m, s.services[m].assocs.Keys)
  }

  // ---- Association handling ----

  function OnNewAssociation(s: State, a: AssocId): State {
    if a !in s.enbs then
      s.(enbs := s.enbs[a := FRESH_ENB], nbEnbs := s.nbEnbs + 1)
    else if s.enbs[a].state == Shutdown || s.enbs[a].state == Reseting then
      s
    else
      s.(enbs := s.enbs[a := s.enbs[a].(state := Init)])
  }

  function OnDisconnection(s: State, a: AssocId): State {
    if a in s.enbs then RemoveEnbs(s, {a}) else s
  }

  /** Why a setup request is refused before the eNB table is looked at. */
  function SetupRefusal(cfg: Config, s: State, req: SetupReq): Option<(Cause, bool)> {
    if req.stream != 0 then Some((ProtocolUnspecified, false))
    else if s.nbEnbs >= cfg.maxEnbs then Some((Overload, true))
    else if !req.plmnMatches then Some((MiscUnspecified, true))
    else if req.cells > 1 then Some((MiscUnspecified, true))
    else if !ServiceArea.AnyValid(cfg.area, req.announced) then Some((MiscUnspecified, true))
    else if !req.synchMatches then Some((MiscUnspecified, true))
    else None
  }

  /** The request goes on to the MCE application. */
  function Forwarded(s: State, a: AssocId): State {
    s.(accepted := s.accepted + {a}, pending := s.pending + multiset{a})
  }

  function OnSetupRequest(cfg: Config, s: State, a: AssocId, req: SetupReq, found: Option<AssocId>): State
    requires FoundByEnbId(s.enbs, req.enbId, found)
  {
    if SetupRefusal(cfg, s, req).Some? then s
    else match found
      case None =>
        if a !in s.enbs then s
        else
          var areas := ServiceArea.Recorded(cfg.area, s.enbs[a].areas, req.announced);
          var e := s.enbs[a].(state := Reseting, enbId := req.enbId, areas := areas);
          Forwarded(s.(enbs := s.enbs[a := e]), a)
      case Some(b) =>
        if b != a then RemoveEnbs(s, {b})
        else Forwarded(s.(enbs := s.enbs[a := s.enbs[a].(state := Reseting)]), a)
  }

  function OnSetupResponse(s: State, a: AssocId, local: nat, ids: seq<nat>): State {
    var answered := s.(pending := s.pending - multiset{a});
    if a !in s.enbs || ids == [] then answered
    else
      var e := s.enbs[a].(localArea := local,
                          mbsfnIds := AppendAllU8(s.enbs[a].mbsfnIds, ids),
                          state := Ready);
      answered.(enbs := s.enbs[a := e])
  }

  // ---- Sessions ----

  function OnSessionStop(s: State, found: Option<MceId>): State
    requires found.Some? ==> found.value in s.services
  {
    if found.Some? then RemoveService(s, found.value) else s
  }

  /** The source asserts that an id it issues is not in use. */
  predicate IdFree(s: State, sai: nat) {
    Supporting(s.enbs, sai) != {} && s.nextId != INVALID_MCE_ID ==> s.nextId !in s.services
  }

  /**
    No service is created where no eNB serves the area. The generator is a
    uint32_t: it refuses the invalid id when it comes to it, and goes on to ids
    of more than 24 bits.
  */
  function CreateService(s: State, tmgi: Tmgi, sai: nat): State
    requires IdFree(s, sai)
  {
    if Supporting(s.enbs, sai) == {} then s
    else
      var t := s.(nextId := Incremented(s.nextId));
      if s.nextId == INVALID_MCE_ID then t
      else t.(services := s.services[s.nextId := Service(tmgi, sai, map[])])
  }

  /** A service with the same TMGI and area is stopped first. */
  function OnSessionStart(s: State, tmgi: Tmgi, sai: nat, found: Option<MceId>): State
    requires FoundByTmgi(s.services, tmgi, sai, found) && IdFree(OnSessionStop(s, found), sai)
  {
    CreateService(OnSessionStop(s, found), tmgi, sai)
  }

  /** The eNBs in `left` are stopped for service `m`: counter down, association gone. */
  function AreaStopped(cfg: Config, s: State, m: MceId, left: set<AssocId>): State
    requires m in s.services
  {
    s.(enbs := map a | a in s.enbs ::
                 if a in left then s.enbs[a].(nb := DecrementedForArea(cfg, s.enbs[a].nb)) else s.enbs[a],
       services := s.services[m := s.services[m].(assocs := s.services[m].assocs - left)])
  }

  /** The associated eNBs among `served` whose update request cannot be built. */
  function Unreachable(svc: Service, served: set<AssocId>): set<AssocId> {
    set a | a in served && a in svc.assocs && svc.assocs[a] == INVALID_ENB_MBMS_ID
  }

  /** Bringing the eNBs in `served` up to date with service `m`. */
  function ContextUpdated(s: State, m: MceId, served: set<AssocId>): State
    requires m in s.services
  {
    var lost := Unreachable(s.services[m], served);
    s.(enbs := map a | a in s.enbs ::
                 if a in lost then s.enbs[a].(nb := DecrementedIfPositive(s.enbs[a].nb)) else s.enbs[a],
       services := s.services[m := s.services[m].(assocs := s.services[m].assocs - lost)])
  }

  function OnSessionUpdate(cfg: Config, s: State, newSai: nat, timed: bool, found: Option<MceId>): State
    requires found.Some? ==> found.value in s.services
  {
    if found.None? then s
    else
      var m := found.value;
      var served := Supporting(s.enbs, newSai);
      if served == {} then RemoveService(s, m)
      else
        var s1 := AreaStopped(cfg, s, m, Outside(s.enbs, newSai));
        var s2 := s1.(services := s1.services[m := s1.services[m].(sai := newSai)]);
        if timed then s2 else ContextUpdated(s2, m, served)
  }

  function OnTimerExpiry(s: State, m: MceId, found: Option<MceId>): State
    requires found.Some? ==> found.value in s.services
  {
    if m !in s.services then s
    else
      var served := Supporting(s.enbs, s.services[m].sai);
      if s.services[m].assocs == map[] then
        if served == {} then RemoveService(s, m) else s
      else if served == {} then OnSessionStop(s, found)
      else ContextUpdated(s, m, served)
  }

  // ---- Messages from eNBs about a service ----

  /**
    Inserting into an association map. An existing key is overwritten; the
    insertion only reports success if the key was new or the value unchanged.
  */
  predicate InsertSucceeds(assocs: map<AssocId, EnbMbmsId>, a: AssocId, id: EnbMbmsId) {
    a in assocs ==> assocs[a] == id
  }

  function OnStartResponse(s: State, a: AssocId, m: MceId, id: EnbMbmsId): State {
    if m !in s.services || a !in s.enbs then s
    else
      var svc := s.services[m];
      var nb := if InsertSucceeds(svc.assocs, a, id) then Incremented(s.enbs[a].nb) else s.enbs[a].nb;
      s.(services := s.services[m := svc.(assocs := svc.assocs[a := id])],
         enbs := s.enbs[a := s.enbs[a].(nb := nb)])
  }

  /** The association is freed and the counter taken down, whether or not the association was there. */
  function Dropped(s: State, a: AssocId, m: MceId): State
    requires m in s.services && a in s.enbs
  {
    var svc := s.services[m];
    s.(services := s.services[m := svc.(assocs := svc.assocs - {a})],
       enbs := s.enbs[a := s.enbs[a].(nb := DecrementedIfPositive(s.enbs[a].nb))])
  }

  function OnDrop(s: State, a: AssocId, m: MceId): State {
    if m in s.services && a in s.enbs then Dropped(s, a, m) else s
  }

  function OnErrorIndication(s: State, a: AssocId, m: MceId): State {
    if m == INVALID_MCE_ID then s else OnDrop(s, a, m)
  }

  function ItemMce(item: ResetItem): MceId {
    if item.NoItem? then INVALID_MCE_ID else MceIdOf(item.mce)
  }

  function ItemEnb(item: ResetItem): EnbMbmsId {
    if item.NoItem? then INVALID_ENB_MBMS_ID else EnbIdOf(item.enb)
  }

  function CurrentId(svc: Service, a: AssocId): EnbMbmsId {
    if a in svc.assocs then svc.assocs[a] else INVALID_ENB_MBMS_ID
  }

  /** The item reaches the removal at the end of the reset loop. */
  predicate ItemTakesEffect(s: State, a: AssocId, item: ResetItem) {
    var m := ItemMce(item);
    && m != INVALID_MCE_ID
    && m in s.services
    && (CurrentId(s.services[m], a) == INVALID_ENB_MBMS_ID || CurrentId(s.services[m], a) == ItemEnb(item))
  }

  function OnResetItem(s: State, a: AssocId, item: ResetItem): State {
    if a in s.enbs && ItemTakesEffect(s, a, item) then Dropped(s, a, ItemMce(item)) else s
  }

  function OnResetItems(s: State, a: AssocId, items: seq<ResetItem>): State
    decreases |items|
  {
    if items == [] then s
    else OnResetItem(OnResetItems(s, a, items[..|items|-1]), a, items[|items|-1])
  }

  predicate ResetAllowed(s: State, a: AssocId) {
    a in s.enbs && s.enbs[a].state == Ready
  }

  function OnPartialReset(s: State, a: AssocId, items: seq<ResetItem>): State {
    if ResetAllowed(s, a) then OnResetItems(s, a, items) else s
  }

  function OnFullReset(s: State, a: AssocId): State {
    if ResetAllowed(s, a) then
      s.(services := WithoutAssocs(s.services, {a}), enbs := s.enbs[a := s.enbs[a].(nb := 0)])
    else s
  }

  // ---- One step ----

  /** The searches an event reports are searches of this state; the source asserts the rest. */
  predicate Enabled(s: State, e: Event) {
    match e
    case SetupRequest(a, req, found) => req.cells >= 1 && FoundByEnbId(s.enbs, req.enbId, found)
    case SessionStart(tmgi, sai, _, found) =>
      FoundByTmgi(s.services, tmgi, sai, found) && IdFree(OnSessionStop(s, found), sai)
    case SessionStop(tmgi, sai, _, found) => FoundByTmgi(s.services, tmgi, sai, found)
    case SessionUpdate(tmgi, sai, _, _, found) => FoundByTmgi(s.services, tmgi, sai, found)
    case TimerExpiry(m, found) =>
      if m in s.services then FoundByTmgi(s.services, s.services[m].tmgi, s.services[m].sai, found)
      else found.None?
    case StartResponse(a, mce, _) => Mask24(mce) in s.services ==> a in s.enbs
    case ErrorIndication(a, _) => a in s.enbs
    case _ => true
  }

  function Step(cfg: Config, s: State, e: Event): State
    requires Enabled(s, e)
  {
    match e
    case NewAssociation(a) => OnNewAssociation(s, a)
    case Disconnection(a) => OnDisconnection(s, a)
    case SetupRequest(a, req, found) => OnSetupRequest(cfg, s, a, req, found)
    case SetupResponse(a, local, ids) => OnSetupResponse(s, a, local, ids)
    case SessionStart(tmgi, sai, _, found) => OnSessionStart(s, tmgi, sai, found)
    case SessionStop(_, _, _, found) => OnSessionStop(s, found)
    case SessionUpdate(_, _, newSai, timed, found) => OnSessionUpdate(cfg, s, newSai, timed, found)
    case TimerExpiry(m, found) => OnTimerExpiry(s, m, found)
    case StartResponse(a, mce, enb) => OnStartResponse(s, a, Mask24(mce), Mask16(enb))
    case UpdateFailure(a, mce) => OnDrop(s, a, Mask24(mce))
    case ErrorIndication(a, mce) => OnErrorIndication(s, a, MceIdOf(mce))
    case PartialReset(a, items) => OnPartialReset(s, a, items)
    case FullReset(a) => OnFullReset(s, a)
  }

  /**
    The handlers collect eNBs in arrays of `maxEnbs` entries on the stack. They
    make their step if and only if everything they collect fits; else they
    write past an array's end before they change anything.
  */
  predicate ArraysHold(cfg: Config, s: State, e: Event)
    requires Enabled(s, e)
  {
    match e
    case SessionStart(_, sai, _, _) => |Supporting(s.enbs, sai)| <= cfg.maxEnbs
    case SessionStop(_, sai, inform, found) => found.Some? && inform ==> |Supporting(s.enbs, sai)| <= cfg.maxEnbs
    case SessionUpdate(_, sai, newSai, _, found) =>
      found.Some? ==>
        && |Supporting(s.enbs, newSai)| <= cfg.maxEnbs
        && (Supporting(s.enbs, newSai) == {} ==> |Supporting(s.enbs, sai)| <= cfg.maxEnbs)
        && (Supporting(s.enbs, newSai) != {} ==> |Outside(s.enbs, newSai)| <= cfg.maxEnbs)
    case TimerExpiry(m, _) => m in s.services ==> |Supporting(s.enbs, s.services[m].sai)| <= cfg.maxEnbs
    case _ => true
  }

  /** A run from the initial state: each event is enabled where it happens. */
  predicate IsRun(cfg: Config, events: seq<Event>)
    decreases |events|, 0
  {
    events == [] ||
    (IsRun(cfg, events[..|events|-1]) && Enabled(After(cfg, events[..|events|-1]), events[|events|-1]))
  }

  function After(cfg: Config, events: seq<Event>): State
    requires IsRun(cfg, events)
    decreases |events|, 1
  {
    if events == [] then INITIAL
    else Step(cfg, After(cfg, events[..|events|-1]), events[|events|-1])
  }
}
