/**
  The arrays of `maxEnbs` entries that the M2AP task collects eNBs in. New
  associations are never refused, so the eNB table can outgrow them.
*/
module M2apArrays {
  import opened Common
  import opened M2apState
  import opened M2apRuns
  import opened M2apAdmission
  import M2apCounters
  import M2apLimits

  // ---- When a list fits ----

  lemma RestFitsIff(cfg: Config, s: State, part: set<AssocId>)
    requires Consistent(s) && part <= s.enbs.Keys
    ensures |s.enbs.Keys - part| <= cfg.maxEnbs <==> s.nbEnbs <= cfg.maxEnbs + |part|
  {
    assert s.enbs.Keys == (s.enbs.Keys - part) + part;
    assert |s.enbs.Keys| == |s.enbs.Keys - part| + |part|;
  }

  /** The eNBs of an MBMS area fit exactly if the table has no more than `maxEnbs` besides those of other areas. */
  lemma AreaFitsIff(cfg: Config, s: State, local: nat)
    requires Consistent(s)
    ensures |InArea(s.enbs, local)| <= cfg.maxEnbs <==>
            s.nbEnbs <= cfg.maxEnbs + |s.enbs.Keys - InArea(s.enbs, local)|
  {
    var others := s.enbs.Keys - InArea(s.enbs, local);
    assert s.enbs.Keys - others == InArea(s.enbs, local);
    RestFitsIff(cfg, s, others);
  }

  lemma SupportingFits(cfg: Config, s: State, sai: nat)
    requires AreasAdmitted(cfg, s)
    ensures |Supporting(s.enbs, sai)| <= cfg.maxEnbs
  {
    CardSubset(Supporting(s.enbs, sai), s.accepted);
  }

  // ---- Each handler's arrays ----

  /** A session update finds no more than `maxEnbs` eNBs besides those of the new area. */
  ghost predicate HasRoom(cfg: Config, s: State, e: Event) {
    e.SessionUpdate? && e.found.Some? && Supporting(s.enbs, e.newSai) != {} ==>
      s.nbEnbs <= cfg.maxEnbs + |Supporting(s.enbs, e.newSai)|
  }

  /** Only an update of a session's area can write past an array, and it does so exactly if it has no room. */
  lemma StepArraysIff(cfg: Config, s: State, e: Event)
    requires Consistent(s) && AreasAdmitted(cfg, s) && Enabled(s, e)
    ensures ArraysHold(cfg, s, e) <==> HasRoom(cfg, s, e)
  {
    match e
    case SessionStart(_, sai, _, _) => SupportingFits(cfg, s, sai);
    case SessionStop(_, sai, _, _) => SupportingFits(cfg, s, sai);
    case SessionUpdate(_, sai, newSai, _, _) =>
      SupportingFits(cfg, s, sai);
      SupportingFits(cfg, s, newSai);
      RestFitsIff(cfg, s, Supporting(s.enbs, newSai));
    case TimerExpiry(m, _) => if m in s.services { SupportingFits(cfg, s, s.services[m].sai); }
    case _ =>
  }

  ghost predicate AllArraysHold(cfg: Config, events: seq<Event>)
    requires IsRun(cfg, events)
    decreases |events|
  {
    events == [] ||
    (AllArraysHold(cfg, events[..|events|-1]) &&
     ArraysHold(cfg, After(cfg, events[..|events|-1]), events[|events|-1]))
  }

  ghost predicate AllHaveRoom(cfg: Config, events: seq<Event>)
    requires IsRun(cfg, events)
    decreases |events|
  {
    events == [] ||
    (AllHaveRoom(cfg, events[..|events|-1]) && HasRoom(cfg, After(cfg, events[..|events|-1]), events[|events|-1]))
  }

  /** Over whole runs: no handler writes past an array if and only if every session update has room. */
  lemma {:induction false} RunArraysIff(cfg: Config, events: seq<Event>)
    requires IsRun(cfg, events)
    ensures AllArraysHold(cfg, events) <==> AllHaveRoom(cfg, events)
    decreases |events|
  {
    if events == [] {
    } else {
      var before := events[..|events|-1];
      RunArraysIff(cfg, before);
      RunConsistent(cfg, before);
      RunAdmissionIff(cfg, before);
      StepArraysIff(cfg, After(cfg, before), events[|events|-1]);
    }
  }

  // ---- The size of the table ----

  /** A new eNB comes while there are fewer than `maxEnbs`. */
  ghost predicate ComesInTime(cfg: Config, s: State, e: Event) {
    e.NewAssociation? && e.assoc !in s.enbs ==> s.nbEnbs < cfg.maxEnbs
  }

  lemma OthersAddNone(cfg: Config, s: State, e: Event)
    requires Enabled(s, e) && !e.NewAssociation?
    ensures Step(cfg, s, e).enbs.Keys <= s.enbs.Keys
  {
    if e.SessionStart? || e.SessionStop? || e.SessionUpdate? || e.TimerExpiry? {
      M2apLimits.SessionLists(cfg, s, e);
    } else if !e.Disconnection? && !e.SetupRequest? && !e.SetupResponse? {
      M2apLimits.ServiceMessageLists(cfg, s, e);
    }
  }

  /** A table of at most `maxEnbs` eNBs stays so exactly if a new one comes in time. */
  lemma StepTableIff(cfg: Config, s: State, e: Event)
    requires Consistent(s) && |s.enbs| <= cfg.maxEnbs && Enabled(s, e)
    ensures |Step(cfg, s, e).enbs| <= cfg.maxEnbs <==> ComesInTime(cfg, s, e)
  {
    var t := Step(cfg, s, e);
    if e.NewAssociation? {
      StepConsistent(cfg, s, e);
    } else {
      OthersAddNone(cfg, s, e);
      CardSubset(t.enbs.Keys, s.enbs.Keys);
    }
  }

  ghost predicate TableFitsThroughout(cfg: Config, events: seq<Event>)
    requires IsRun(cfg, events)
    decreases |events|
  {
    |After(cfg, events).enbs| <= cfg.maxEnbs && (events == [] || TableFitsThroughout(cfg, events[..|events|-1]))
  }

  ghost predicate AllComeInTime(cfg: Config, events: seq<Event>)
    requires IsRun(cfg, events)
    decreases |events|
  {
    events == [] ||
    (AllComeInTime(cfg, events[..|events|-1]) &&
     ComesInTime(cfg, After(cfg, events[..|events|-1]), events[|events|-1]))
  }

  /** Over whole runs: the table never has more than `maxEnbs` eNBs if and only if every new one comes in time. */
  lemma {:induction false} RunTableIff(cfg: Config, events: seq<Event>)
    requires IsRun(cfg, events)
    ensures TableFitsThroughout(cfg, events) <==> AllComeInTime(cfg, events)
    decreases |events|
  {
    if events == [] {
    } else {
      var before := events[..|events|-1];
      RunTableIff(cfg, before);
      if TableFitsThroughout(cfg, before) {
        RunConsistent(cfg, before);
        StepTableIff(cfg, After(cfg, before), events[|events|-1]);
      }
    }
  }

  /**
    Then every list of eNBs fits, for service areas and MBMS areas alike, and
    whatever comes next is handled within its arrays. With fewer than 256 eNBs
    allowed the uint8_t counts hold too.
  */
  lemma TableHoldsAll(cfg: Config, events: seq<Event>, e: Event)
    requires IsRun(cfg, events) && AllComeInTime(cfg, events)
    ensures var s := After(cfg, events);
            && (forall sai :: |Supporting(s.enbs, sai)| <= cfg.maxEnbs && |Outside(s.enbs, sai)| <= cfg.maxEnbs)
            && (forall local :: |InArea(s.enbs, local)| <= cfg.maxEnbs)
            && (cfg.maxEnbs < U8 ==> |s.enbs| < U8)
            && (Enabled(s, e) ==> ArraysHold(cfg, s, e))
  {
    RunTableIff(cfg, events);
    RunConsistent(cfg, events);
    RunAdmissionIff(cfg, events);
    var s := After(cfg, events);
    forall sai ensures |Supporting(s.enbs, sai)| <= cfg.maxEnbs && |Outside(s.enbs, sai)| <= cfg.maxEnbs {
      CardSubset(Supporting(s.enbs, sai), s.enbs.Keys);
      CardSubset(Outside(s.enbs, sai), s.enbs.Keys);
    }
    forall local ensures |InArea(s.enbs, local)| <= cfg.maxEnbs {
      CardSubset(InArea(s.enbs, local), s.enbs.Keys);
    }
    if Enabled(s, e) {
      StepArraysIff(cfg, s, e);
    }
  }

  // ---- A run that overruns ----

  const THREE_MORE: seq<Event> :=
    M2apCounters.STARTED + [NewAssociation(8)] + [NewAssociation(9)] + [NewAssociation(10)]

  const THREE_MORE_STATE :=
    M2apCounters.STARTED_STATE.(
      enbs := M2apCounters.STARTED_STATE.enbs[8 := FRESH_ENB][9 := FRESH_ENB][10 := FRESH_ENB], nbEnbs := 4)

  lemma ThreeMoreRun(cfg: Config)
    requires cfg.maxEnbs == 2 && cfg.area.globalTypes >= 1
    ensures IsRun(cfg, THREE_MORE) && After(cfg, THREE_MORE) == THREE_MORE_STATE
  {
    M2apCounters.StartedRun(cfg);
    RunExtended(cfg, M2apCounters.STARTED, NewAssociation(8));
    RunExtended(cfg, M2apCounters.STARTED + [NewAssociation(8)], NewAssociation(9));
    RunExtended(cfg, M2apCounters.STARTED + [NewAssociation(8)] + [NewAssociation(9)], NewAssociation(10));
  }

  lemma ThreeMoreLists()
    ensures Supporting(THREE_MORE_STATE.enbs, 1) == {7}
    ensures Outside(THREE_MORE_STATE.enbs, 1) == {8, 9, 10}
    ensures InArea(THREE_MORE_STATE.enbs, 0) == {7, 8, 9, 10}
  {
    assert THREE_MORE_STATE.enbs.Keys == {7, 8, 9, 10};
  }

  /**
    Three eNBs that have only connected, where two are allowed: a session
    update collects them in an array of two, and the eNBs of MBMS area 0,
    where they are too, would not fit either.
  */
  lemma UpdateOverruns(cfg: Config)
    requires cfg.maxEnbs == 2 && cfg.area.globalTypes >= 1
    ensures IsRun(cfg, THREE_MORE)
    ensures var s := After(cfg, THREE_MORE);
            var e := SessionUpdate(M2apCounters.SESSION, 1, 1, false, Some(1));
            && Enabled(s, e) && !ArraysHold(cfg, s, e)
            && Outside(s.enbs, 1) == {8, 9, 10} && InArea(s.enbs, 0) == {7, 8, 9, 10}
  {
    ThreeMoreRun(cfg);
    ThreeMoreLists();
    assert |Outside(THREE_MORE_STATE.enbs, 1)| == 3;
  }
}
