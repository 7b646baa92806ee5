/**
  What the messages of one eNB, and the setup of an eNB, do to it and to every
  service, and what it is sent in return.
*/
module M2apEnbEffects {
  import opened Common
  import opened M2apState
  import opened M2apMessages
  import opened M2apReset
  import opened M2apRuns
  import ServiceArea

  // ---- Connecting ----

  /** A new association is a fresh eNB; a known one goes back to its initial state, unless it is being reset. */
  lemma NewAssociationExact(cfg: Config, s: State, e: Event)
    requires NoneShutDown(s.enbs) && e.NewAssociation?
    ensures var t := Step(cfg, s, e);
            && e.assoc in t.enbs && t.enbs - {e.assoc} == s.enbs - {e.assoc}
            && t == s.(enbs := t.enbs, nbEnbs := t.nbEnbs)
            && t.nbEnbs == (if e.assoc in s.enbs then s.nbEnbs else s.nbEnbs + 1)
            && (e.assoc !in s.enbs ==> t.enbs[e.assoc] == Enb(Init, 0, [], [], 0, 0))
            && (e.assoc in s.enbs ==>
                  t.enbs[e.assoc] == s.enbs[e.assoc].(
                    state := if s.enbs[e.assoc].state == Reseting then Reseting else Init))
    ensures Out(cfg, s, e) == {}
  {
    if e.assoc in s.enbs {
      assert s.enbs == s.enbs[e.assoc := s.enbs[e.assoc]];
    }
  }

  // ---- Setup ----

  /** Everything that is checked before an eNB is set up. */
  ghost predicate Acceptable(cfg: Config, s: State, req: SetupReq) {
    && req.stream == 0
    && s.nbEnbs < cfg.maxEnbs
    && req.plmnMatches
    && req.cells == 1
    && req.synchMatches
    && exists sai | sai in req.announced :: ServiceArea.Configured(cfg.area, sai)
  }

  lemma AcceptableIff(cfg: Config, s: State, req: SetupReq)
    requires req.cells >= 1
    ensures SetupRefusal(cfg, s, req).None? <==> Acceptable(cfg, s, req)
  {
    forall sai ensures ServiceArea.Valid(cfg.area, sai) <==> ServiceArea.Configured(cfg.area, sai) {
      ServiceArea.ValidIff(cfg.area, sai);
    }
  }

  /**
    What a setup request is answered with. It goes on to the MCE application if
    and only if the association is known, the search for the eNB's id finds
    none or this one, and the request is acceptable. A request on the wrong
    stream, one too many, an unacceptable one, and one for an eNB on another
    association are each refused with their own cause and wait.
  */
  lemma SetupAnswered(cfg: Config, s: State, e: Event)
    requires e.SetupRequest? && Enabled(s, e)
    ensures (exists enbId, areas :: SetupForward(e.assoc, enbId, areas) in Out(cfg, s, e)) <==>
            e.assoc in s.enbs && e.foundEnb in {None, Some(e.assoc)} && Acceptable(cfg, s, e.req)
    ensures SetupFailure(e.assoc, ProtocolUnspecified, false) in Out(cfg, s, e) <==> e.req.stream != 0
    ensures SetupFailure(e.assoc, Overload, true) in Out(cfg, s, e) <==>
            e.req.stream == 0 && s.nbEnbs >= cfg.maxEnbs
    ensures SetupFailure(e.assoc, MiscUnspecified, true) in Out(cfg, s, e) <==>
            e.req.stream == 0 && s.nbEnbs < cfg.maxEnbs && !Acceptable(cfg, s, e.req)
    ensures SetupFailure(e.assoc, MiscUnspecified, false) in Out(cfg, s, e) <==>
            Acceptable(cfg, s, e.req) && e.foundEnb !in {None, Some(e.assoc)}
    ensures |Out(cfg, s, e)| <= 1 && forall msg | msg in Out(cfg, s, e) :: msg.to == e.assoc
  {
    AcceptableIff(cfg, s, e.req);
    if e.assoc in s.enbs && e.foundEnb in {None, Some(e.assoc)} && Acceptable(cfg, s, e.req) {
      var areas := Step(cfg, s, e).enbs[e.assoc].areas;
      assert SetupForward(e.assoc, e.req.enbId, areas) in Out(cfg, s, e);
    }
  }

  /** A refused request, and one on an unknown association, change nothing. */
  lemma RefusedSetupChangesNothing(cfg: Config, s: State, e: Event)
    requires e.SetupRequest? && Enabled(s, e)
    requires !Acceptable(cfg, s, e.req) || (e.assoc !in s.enbs && e.foundEnb.None?)
    ensures Step(cfg, s, e) == s
  {
    AcceptableIff(cfg, s, e.req);
  }

  /** An acceptable request for an eNB known on another association drops that one, and nothing else. */
  lemma MovedSetupDropsOther(cfg: Config, s: State, e: Event)
    requires e.SetupRequest? && Enabled(s, e) && Acceptable(cfg, s, e.req)
    requires e.foundEnb.Some? && e.foundEnb.value != e.assoc
    ensures var t, b := Step(cfg, s, e), e.foundEnb.value;
            && t.enbs == s.enbs - {b} && t.nbEnbs == s.nbEnbs - 1 && t.nextId == s.nextId
            && t.accepted == s.accepted - {b} && t.pending == s.pending
            && t.services.Keys == s.services.Keys
            && forall m | m in s.services :: t.services[m] == s.services[m].(assocs := s.services[m].assocs - {b})
  {
    AcceptableIff(cfg, s, e.req);
  }

  /** The areas an eNB has after its setup: the first of those announced that is configured is added to them. */
  ghost predicate AreaAdded(cfg: Config, before: seq<nat>, announced: seq<nat>, after: seq<nat>) {
    exists k | 0 <= k < |announced| ::
      && ServiceArea.Configured(cfg.area, announced[k])
      && (forall i | 0 <= i < k :: !ServiceArea.Configured(cfg.area, announced[i]))
      && after == if |before| == 255 then [] else before + [announced[k]]
  }

  /**
    A forwarded request puts the eNB into the reset state. One whose id is new
    is recorded with it and with one area; a known one keeps what it has.
    Nothing else changes, and what is forwarded is what was recorded.
  */
  lemma ForwardedSetupExact(cfg: Config, s: State, e: Event)
    requires e.SetupRequest? && Enabled(s, e) && Acceptable(cfg, s, e.req)
    requires e.assoc in s.enbs && e.foundEnb in {None, Some(e.assoc)} && |s.enbs[e.assoc].areas| < U8
    ensures var t := Step(cfg, s, e);
            var areas := if e.assoc in t.enbs then t.enbs[e.assoc].areas else [];
            && t.enbs == s.enbs[e.assoc := s.enbs[e.assoc].(state := Reseting, enbId := e.req.enbId, areas := areas)]
            && (if e.foundEnb.None? then AreaAdded(cfg, s.enbs[e.assoc].areas, e.req.announced, areas)
                else areas == s.enbs[e.assoc].areas)
            && t == s.(enbs := t.enbs, accepted := s.accepted + {e.assoc}, pending := s.pending + multiset{e.assoc})
            && Out(cfg, s, e) == {SetupForward(e.assoc, e.req.enbId, areas)}
  {
    AcceptableIff(cfg, s, e.req);
    if e.foundEnb.None? {
      FirstAreaAdded(cfg, s.enbs[e.assoc].areas, e.req.announced);
    } else {
      assert s.enbs[e.assoc].(state := Reseting) ==
             s.enbs[e.assoc].(state := Reseting, enbId := e.req.enbId, areas := s.enbs[e.assoc].areas);
    }
  }

  lemma FirstAreaAdded(cfg: Config, areas: seq<nat>, announced: seq<nat>)
    requires |areas| < U8 && ServiceArea.AnyValid(cfg.area, announced)
    ensures AreaAdded(cfg, areas, announced, ServiceArea.Recorded(cfg.area, areas, announced))
  {
    ServiceArea.CheckAgreesWithRecorder(cfg.area, areas, announced);
    var k := ServiceArea.FirstValidAt(cfg.area, announced);
    forall i | 0 <= i <= k
      ensures ServiceArea.Valid(cfg.area, announced[i]) <==> ServiceArea.Configured(cfg.area, announced[i])
    {
      ServiceArea.ValidIff(cfg.area, announced[i]);
    }
    assert ServiceArea.Configured(cfg.area, announced[k]);
  }

  /**
    A setup response with MBSFN areas puts a known eNB into its MBMS area and
    makes it ready; the areas' ids come behind those it has, as far as the
    count goes. The eNB is sent the same ids, or a failure if there are none.
  */
  lemma SetupResponseExact(cfg: Config, s: State, e: Event)
    requires e.SetupResponse?
    ensures var t := Step(cfg, s, e);
            && t == s.(enbs := t.enbs, pending := s.pending - multiset{e.assoc})
            && (e.assoc !in s.enbs || e.ids == [] ==> t.enbs == s.enbs)
            && (e.assoc in s.enbs && e.ids != [] ==>
                  && e.assoc in t.enbs
                  && t.enbs == s.enbs[e.assoc := s.enbs[e.assoc].(
                       state := Ready, localArea := e.local, mbsfnIds := t.enbs[e.assoc].mbsfnIds)]
                  && (|s.enbs[e.assoc].mbsfnIds| + |e.ids| < U8 ==>
                        t.enbs[e.assoc].mbsfnIds == s.enbs[e.assoc].mbsfnIds + e.ids))
    ensures Out(cfg, s, e) == if e.assoc !in s.enbs then {}
                              else if e.ids == [] then {SetupFailure(e.assoc, MiscUnspecified, false)}
                              else {SetupAnswer(e.assoc, e.ids)}
  {
    if e.assoc in s.enbs && |s.enbs[e.assoc].mbsfnIds| + |e.ids| < U8 {
      AppendAllU8IsSinceWrap(s.enbs[e.assoc].mbsfnIds, e.ids);
    }
  }

  // ---- About one service ----

  /** The eNB's counter, and its association with service `m`, are all that differs. */
  ghost predicate OnlyAbout(s: State, t: State, a: AssocId, m: MceId) {
    && a in s.enbs && a in t.enbs && m in s.services && m in t.services
    && t == s.(enbs := s.enbs[a := s.enbs[a].(nb := t.enbs[a].nb)],
               services := s.services[m := s.services[m].(assocs := t.services[m].assocs)])
    && t.services[m].assocs - {a} == s.services[m].assocs - {a}
  }

  /**
    A start response records the eNB's id, in 16 bits, for the service with
    the id in 24 bits. The eNB counts one more if it had no id there, or the
    same one. Nothing is sent.
  */
  lemma StartResponseExact(cfg: Config, s: State, e: Event)
    requires e.StartResponse? && Enabled(s, e)
    ensures var t, m, id := Step(cfg, s, e), e.mceRaw % 0x100_0000, e.enbRaw % 0x1_0000;
            && (m !in s.services ==> t == s)
            && (m in s.services ==>
                  && OnlyAbout(s, t, e.assoc, m)
                  && e.assoc in t.services[m].assocs && t.services[m].assocs[e.assoc] == id
                  && t.enbs[e.assoc].nb ==
                     if e.assoc in s.services[m].assocs && s.services[m].assocs[e.assoc] != id then s.enbs[e.assoc].nb
                     else (s.enbs[e.assoc].nb + 1) % U32)
    ensures Out(cfg, s, e) == {}
  {
  }

  /** The association with `m` is gone, and counted down if anything is counted. */
  ghost predicate Forgotten(s: State, t: State, a: AssocId, m: MceId) {
    && OnlyAbout(s, t, a, m)
    && a !in t.services[m].assocs
    && t.enbs[a].nb == if s.enbs[a].nb == 0 then 0 else s.enbs[a].nb - 1
  }

  /** The stop request to an eNB whose id for `m` is known. */
  function StopOf(s: State, a: AssocId, m: MceId): set<Msg>
    requires m in s.services
  {
    if a in s.services[m].assocs && s.services[m].assocs[a] != INVALID_ENB_MBMS_ID
    then {StopReq(a, m, s.services[m].assocs[a])} else {}
  }

  /** An eNB that failed to update a service is told to stop it, and its association forgotten. */
  lemma UpdateFailureExact(cfg: Config, s: State, e: Event)
    requires e.UpdateFailure?
    ensures var t, m := Step(cfg, s, e), e.mceRaw % 0x100_0000;
            if m in s.services && e.assoc in s.enbs
            then Forgotten(s, t, e.assoc, m) && Out(cfg, s, e) == StopOf(s, e.assoc, m)
            else t == s && Out(cfg, s, e) == {}
  {
  }

  /** An error indication does the same for the service it names, if it names one. */
  lemma ErrorIndicationExact(cfg: Config, s: State, e: Event)
    requires e.ErrorIndication? && Enabled(s, e)
    ensures var t := Step(cfg, s, e);
            var m := if e.mceOpt.Some? then e.mceOpt.value % 0x100_0000 else INVALID_MCE_ID;
            if m != INVALID_MCE_ID && m in s.services
            then Forgotten(s, t, e.assoc, m) && Out(cfg, s, e) == StopOf(s, e.assoc, m)
            else t == s && Out(cfg, s, e) == {}
  {
  }

  // ---- Leaving ----

  /** Every service has lost the eNB's association, and is otherwise as it was. */
  ghost predicate ForgottenByAll(s: State, t: State, a: AssocId) {
    && t.services.Keys == s.services.Keys
    && forall m | m in s.services :: t.services[m] == s.services[m].(assocs := s.services[m].assocs - {a})
  }

  /** A disconnected eNB leaves the table and every service. Nothing is sent. */
  lemma DisconnectionExact(cfg: Config, s: State, e: Event)
    requires e.Disconnection?
    ensures var t := Step(cfg, s, e);
            && (e.assoc !in s.enbs ==> t == s)
            && (e.assoc in s.enbs ==>
                  && t.enbs == s.enbs - {e.assoc} && t.nbEnbs == s.nbEnbs - 1 && t.nextId == s.nextId
                  && t.accepted == s.accepted - {e.assoc} && t.pending == s.pending
                  && ForgottenByAll(s, t, e.assoc))
    ensures Out(cfg, s, e) == {}
  {
  }

  /** A full reset of a ready eNB forgets all its associations and is acknowledged; another eNB's is ignored. */
  lemma FullResetExact(cfg: Config, s: State, e: Event)
    requires e.FullReset?
    ensures var t := Step(cfg, s, e);
            if e.assoc in s.enbs && s.enbs[e.assoc].state == Ready
            then && t == s.(enbs := s.enbs[e.assoc := s.enbs[e.assoc].(nb := 0)], services := t.services)
                 && ForgottenByAll(s, t, e.assoc)
                 && Out(cfg, s, e) == {ResetAck(e.assoc)}
            else t == s && Out(cfg, s, e) == {}
  {
  }

  /** The service an item names, in 24 bits, unless it is the invalid one. */
  function ServiceOf(item: ResetItem): Option<nat> {
    if item.ResetItem? && item.mce.Some? && item.mce.value % 0x100_0000 != 0xFF_FFFF
    then Some(item.mce.value % 0x100_0000) else None
  }

  /** The eNB's id in an item, in 16 bits, unless it is the invalid one. */
  function EnbOf(item: ResetItem): Option<nat> {
    if item.ResetItem? && item.enb.Some? && item.enb.value % 0x1_0000 != 0xFFFF
    then Some(item.enb.value % 0x1_0000) else None
  }

  /** An item takes away an association if it names the service and the eNB's id there, or that id is not known. */
  predicate TakesAway(item: ResetItem, m: MceId, id: EnbMbmsId) {
    ServiceOf(item) == Some(m) && (id == 0xFFFF || EnbOf(item) == Some(id))
  }

  /**
    A partial reset of a ready eNB takes away exactly its associations that
    some item takes away, and nothing else of any service.
  */
  lemma PartialResetExact(cfg: Config, s: State, e: Event, m: MceId)
    requires e.PartialReset? && e.assoc in s.enbs && s.enbs[e.assoc].state == Ready && m in s.services
    ensures var t, svc := Step(cfg, s, e), s.services[m];
            && t.services.Keys == s.services.Keys
            && t.services[m] ==
               if e.assoc in svc.assocs && exists item | item in e.items :: TakesAway(item, m, svc.assocs[e.assoc])
               then svc.(assocs := svc.assocs - {e.assoc}) else svc
  {
    var svc := s.services[m];
    ResetItemsExact(s, e.assoc, e.items);
    if e.assoc in svc.assocs {
      var id := svc.assocs[e.assoc];
      forall k | 0 <= k < |e.items|
        ensures ItemHits(s, e.assoc, e.items[k], m) <==> TakesAway(e.items[k], m, id)
      {
      }
      if exists item | item in e.items :: TakesAway(item, m, id) {
        var item :| item in e.items && TakesAway(item, m, id);
        var k :| 0 <= k < |e.items| && e.items[k] == item;
        assert m in Lost(s, e.assoc, e.items);
      }
    }
  }

  /** The acknowledgement repeats the ids of every item, in order, and leaves out invalid ones. */
  lemma AcksExact(items: seq<ResetItem>)
    ensures |AcksOf(items)| == |items|
    ensures forall k | 0 <= k < |items| :: AcksOf(items)[k] == AckItem(ServiceOf(items[k]), EnbOf(items[k]))
  {
  }

  /**
    A partial reset of an eNB that is not ready is ignored. A ready one's is
    acknowledged once; it changes nothing but the eNB's counter and
    associations.
  */
  lemma PartialResetFrame(cfg: Config, s: State, e: Event)
    requires e.PartialReset?
    ensures var t := Step(cfg, s, e);
            if e.assoc in s.enbs && s.enbs[e.assoc].state == Ready
            then && t == s.(enbs := t.enbs, services := t.services)
                 && e.assoc in t.enbs && t.enbs == s.enbs[e.assoc := s.enbs[e.assoc].(nb := t.enbs[e.assoc].nb)]
                 && Out(cfg, s, e) == {PartialAck(e.assoc, AcksOf(e.items))}
            else t == s && Out(cfg, s, e) == {}
  {
    if e.assoc in s.enbs {
      ResetItemsFrame(s, e.assoc, e.items);
    }
  }
}
