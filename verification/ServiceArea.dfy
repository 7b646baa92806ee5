/**
  Matching the MBMS service areas an eNB announces in its M2 Setup Request
  against the MCE configuration, and recording the area the eNB is put in.
*/
module ServiceArea {
  import opened Arithmetic
  import opened Common

  datatype RawAreaConfig = AreaConfig(globalTypes: nat, localTypes: nat, localAreas: nat)

  /** The configuration divides by the number of local area types. */
  type AreaConfig = c: RawAreaConfig | c.localTypes > 0 witness AreaConfig(1, 1, 1)

  /** A service area id is accepted if it is global or falls into a configured local area. */
  predicate Valid(cfg: AreaConfig, sai: nat) {
    sai <= cfg.globalTypes || (sai - cfg.globalTypes + 1) / cfg.localTypes < cfg.localAreas
  }

  /**
    Without the division: the global areas, and the configured local ones but
    the last two, because the first one is counted as 2 instead of 0.
  */
  predicate Configured(cfg: AreaConfig, sai: nat) {
    sai <= cfg.globalTypes || sai + 1 < cfg.globalTypes + cfg.localAreas * cfg.localTypes
  }

  lemma ValidIff(cfg: AreaConfig, sai: nat)
    ensures Valid(cfg, sai) <==> Configured(cfg, sai)
  {
    if sai > cfg.globalTypes {
      var val := sai - cfg.globalTypes + 1;
      Bracketed(val, cfg.localTypes);
      MulGap(val / cfg.localTypes, cfg.localAreas, cfg.localTypes);
      MulGap(cfg.localAreas, val / cfg.localTypes + 1, cfg.localTypes);
    }
  }

  /** The areas of an eNB after its setup: the first accepted one is appended. */
  function Recorded(cfg: AreaConfig, areas: seq<nat>, announced: seq<nat>): seq<nat> {
    if announced == [] then areas
    else if Valid(cfg, announced[0]) then AppendU8(areas, announced[0])
    else Recorded(cfg, areas, announced[1..])
  }

  predicate AnyValid(cfg: AreaConfig, announced: seq<nat>) {
    exists sai | sai in announced :: Valid(cfg, sai)
  }

  /** The check made before a setup request is accepted. */
  method CompareAreaList(cfg: AreaConfig, announced: seq<nat>) returns (matches: bool)
    ensures matches <==> AnyValid(cfg, announced)
  {
    for j := 0 to |announced|
      invariant forall i | 0 <= i < j :: !Valid(cfg, announced[i])
    {
      assert announced[j] in announced;
      if announced[j] <= cfg.globalTypes {
        return true;
      }
      var val := announced[j] - cfg.globalTypes + 1;
      var localArea := val / cfg.localTypes;
      if localArea < cfg.localAreas {
        return true;
      }
    }
    return false;
  }

  /** The recorder run after the check succeeded. */
  method RecordArea(cfg: AreaConfig, areas: seq<nat>, announced: seq<nat>) returns (r: seq<nat>)
    ensures r == Recorded(cfg, areas, announced)
  {
    r := areas;
    var j := 0;
    while j < |announced|
      invariant 0 <= j <= |announced|
      invariant r == areas
      invariant Recorded(cfg, areas, announced) == Recorded(cfg, areas, announced[j..])
    {
      if announced[j] <= cfg.globalTypes {
        r := AppendU8(r, announced[j]);
        return;
      }
      var val := announced[j] - cfg.globalTypes + 1;
      var localArea := val / cfg.localTypes;
      if localArea < cfg.localAreas {
        r := AppendU8(r, announced[j]);
        return;
      }
      assert announced[j..][1..] == announced[j+1..];
      j := j + 1;
    }
  }

  /** The recorder, seen through the first accepted position. */
  lemma {:induction false} RecordedAt(cfg: AreaConfig, areas: seq<nat>, announced: seq<nat>, k: nat)
    requires k <= |announced|
    requires forall i | 0 <= i < k :: !Valid(cfg, announced[i])
    requires k < |announced| ==> Valid(cfg, announced[k])
    ensures Recorded(cfg, areas, announced) ==
            if k < |announced| then AppendU8(areas, announced[k]) else areas
    decreases k
  {
    if k == 0 {
    } else {
      RecordedAt(cfg, areas, announced[1..], k - 1);
    }
  }

  function FirstValidAt(cfg: AreaConfig, announced: seq<nat>): (k: nat)
    ensures k <= |announced|
    ensures forall i | 0 <= i < k :: !Valid(cfg, announced[i])
    ensures k < |announced| ==> Valid(cfg, announced[k])
  {
    if announced == [] || Valid(cfg, announced[0]) then 0
    else 1 + FirstValidAt(cfg, announced[1..])
  }

  /**
    Check and recorder agree: the check reports a match exactly when the
    recorder appends exactly one area, the first accepted one, and without a
    match nothing is appended. The one exception is an eNB that already has
    255 areas: its uint8_t length wraps and the whole list is lost.
  */
  lemma CheckAgreesWithRecorder(cfg: AreaConfig, areas: seq<nat>, announced: seq<nat>)
    requires |areas| < 256
    ensures !AnyValid(cfg, announced) ==> Recorded(cfg, areas, announced) == areas
    ensures AnyValid(cfg, announced) ==>
              var k := FirstValidAt(cfg, announced);
              k < |announced| && Recorded(cfg, areas, announced) == AppendU8(areas, announced[k])
    ensures (exists sai :: Recorded(cfg, areas, announced) == areas + [sai])
            <==> (AnyValid(cfg, announced) && |areas| != 255)
    ensures |Recorded(cfg, areas, announced)| < 256
  {
    var k := FirstValidAt(cfg, announced);
    RecordedAt(cfg, areas, announced, k);
    if k < |announced| {
      assert announced[k] in announced;
    }
    if !AnyValid(cfg, announced) || |areas| == 255 {
      forall sai ensures Recorded(cfg, areas, announced) != areas + [sai] {
        assert |areas + [sai]| == |areas| + 1;
      }
    }
  }
}
