/**
  The MBMS service contexts of the MCE application: a fixed pool of slots in
  one list, and two tables over it, by service index and by Sm TEID.

  This module is the specification and its laws; class `ServicePoolTable.Table`
  carries out the same operations in place.
*/
module ServicePool {
  import opened Common
  import M2apState

  type Tmgi = M2apState.Tmgi

  const INVALID_INDEX: nat := 0
  const INVALID_TEID: nat := 0
  const ID_RANGE: nat := 0x100_0000 // 24 bits of service id

  datatype Slot = Slot(tmgi: Tmgi, area: nat, teid: nat, flow: nat)

  const CLEARED := Slot(M2apState.Tmgi(0, 0), 0, 0, 0)

  datatype Pool = Pool(
    slots: seq<Slot>,
    order: seq<nat>,          // mce_mbms_services_list, as slot numbers
    byIndex: map<nat, nat>,   // service index to slot number
    byTeid: map<nat, nat>,    // Sm TEID to service index
    managed: nat)             // nb_mbms_service_managed, a uint32_t

  datatype Event =
    | Register(tmgi: Tmgi, area: nat, teid: nat)
    | Remove(tmgi: Tmgi, area: nat, teid: nat)
    | Update(tmgi: Tmgi, oldArea: nat, newArea: nat, flow: nat)

  // ---- The service index ----

  function Index(tmgi: Tmgi, area: nat): nat {
    if tmgi.serviceId == 0 || area == 0 then INVALID_INDEX else tmgi.serviceId + area * ID_RANGE
  }

  /** Within one PLMN the index identifies the service and its area; only invalid ones get index 0. */
  lemma IndexInjective(t: Tmgi, a: nat, u: Tmgi, b: nat)
    requires t.serviceId < ID_RANGE && u.serviceId < ID_RANGE
    ensures Index(t, a) == INVALID_INDEX <==> t.serviceId == 0 || a == 0
    ensures Index(t, a) == Index(u, b) != INVALID_INDEX <==>
              t.serviceId == u.serviceId != 0 && a == b != 0
    ensures a < 0x1_0000 ==> Index(t, a) < 0x100_0000_0000
  {
  }

  /** The shift as a 32-bit integer carries it out. */
  function NarrowIndex(tmgi: Tmgi, area: nat): nat {
    Index(tmgi, area) % U32
  }

  /** In 32 bits only the low octet of the area survives. */
  lemma NarrowIndexCollidesIff(t: Tmgi, a: nat, u: Tmgi, b: nat)
    requires 0 < t.serviceId < ID_RANGE && 0 < u.serviceId < ID_RANGE && 0 < a && 0 < b
    ensures NarrowIndex(t, a) == NarrowIndex(u, b) <==> t.serviceId == u.serviceId && a % U8 == b % U8
  {
    NarrowIndexIs(t, a);
    NarrowIndexIs(u, b);
  }

  lemma NarrowIndexIs(t: Tmgi, a: nat)
    requires 0 < t.serviceId < ID_RANGE && 0 < a
    ensures NarrowIndex(t, a) == t.serviceId + (a % U8) * ID_RANGE
  {
    var q, r := a / U8, a % U8;
    assert t.serviceId + a * ID_RANGE == q * U32 + (t.serviceId + r * ID_RANGE);
  }

  // ---- Operations ----

  predicate Used(s: Slot) {
    Index(s.tmgi, s.area) != INVALID_INDEX
  }

  function Without(order: seq<nat>, i: nat): seq<nat> {
    if order == [] then []
    else if order[0] == i then order[1..]
    else [order[0]] + Without(order[1..], i)
  }

  function Initial(n: nat): Pool {
    Pool(seq(n, _ => CLEARED), seq(n, i => i), map[], map[], 0)
  }

  predicate Refuses(p: Pool, tmgi: Tmgi, area: nat)
    requires p.order != [] && p.order[0] < |p.slots|
  {
    Index(tmgi, area) == INVALID_INDEX || Used(p.slots[p.order[0]])
  }

  function OnRegister(p: Pool, tmgi: Tmgi, area: nat, teid: nat): Pool
    requires p.order != [] && p.order[0] < |p.slots|
  {
    if Refuses(p, tmgi, area) then p
    else
      var i := p.order[0];
      var idx := Index(tmgi, area);
      p.(slots := p.slots[i := Slot(tmgi, area, teid, 0)],
         order := p.order[1..] + [i],
         byIndex := p.byIndex[idx := i],
         byTeid := p.byTeid[teid := idx],
         managed := (p.managed + 1) % U32)
  }

  function Released(p: Pool, i: nat): Pool
    requires i < |p.slots|
  {
    p.(slots := p.slots[i := CLEARED], order := [i] + Without(p.order, i))
  }

  function Dropped(byTeid: map<nat, nat>, teid: nat): map<nat, nat> {
    if teid == INVALID_TEID then byTeid else byTeid - {teid}
  }

  function OnRemove(p: Pool, tmgi: Tmgi, area: nat, teid: nat): Pool
    requires Index(tmgi, area) != INVALID_INDEX ==>
               Index(tmgi, area) in p.byIndex && p.byIndex[Index(tmgi, area)] < |p.slots|
  {
    var idx := Index(tmgi, area);
    var dropped :=
      if idx == INVALID_INDEX then p.(byTeid := Dropped(p.byTeid, teid))
      else
        var i := p.byIndex[idx];
        var t := if teid == INVALID_TEID then p.slots[i].teid else teid;
        Released(p, i).(byIndex := p.byIndex - {idx}, byTeid := Dropped(p.byTeid, t));
    dropped.(managed := (p.managed + U32 - 1) % U32)
  }

  function OnUpdate(p: Pool, tmgi: Tmgi, oldArea: nat, newArea: nat, flow: nat): Pool
    requires Index(tmgi, oldArea) in p.byIndex && p.byIndex[Index(tmgi, oldArea)] < |p.slots|
  {
    var idx := Index(tmgi, oldArea);
    var i := p.byIndex[idx];
    if oldArea == newArea || idx == INVALID_INDEX then p.(slots := p.slots[i := p.slots[i].(flow := flow)])
    else
      var moved := Index(tmgi, newArea);
      var rest := p.byIndex - {idx};
      // An index already in use is taken over, and the update breaks off.
      var slot := if moved in rest then p.slots[i].(area := newArea) else p.slots[i].(area := newArea, flow := flow);
      p.(slots := p.slots[i := slot], byIndex := rest[moved := i])
  }

  predicate InRange(tmgi: Tmgi) {
    tmgi.serviceId < ID_RANGE
  }

  /** What the assertions of the source demand of its callers. */
  predicate Enabled(p: Pool, e: Event) {
    match e
    case Register(tmgi, area, teid) =>
      && InRange(tmgi)
      && p.order != [] && p.order[0] < |p.slots|
      && (!Refuses(p, tmgi, area) ==>
            && Index(tmgi, area) !in p.byIndex
            && teid != INVALID_TEID
            && (teid in p.byTeid ==> p.byTeid[teid] == Index(tmgi, area)))
    case Remove(tmgi, area, teid) =>
      && InRange(tmgi)
      && (Index(tmgi, area) != INVALID_INDEX ==>
            && Index(tmgi, area) in p.byIndex
            && p.byIndex[Index(tmgi, area)] < |p.slots|
            && p.byIndex[Index(tmgi, area)] in p.order)
    case Update(tmgi, oldArea, newArea, _) =>
      && InRange(tmgi)
      && Index(tmgi, oldArea) in p.byIndex && p.byIndex[Index(tmgi, oldArea)] < |p.slots|
  }

  function Step(p: Pool, e: Event): Pool
    requires Enabled(p, e)
  {
    match e
    case Register(tmgi, area, teid) => OnRegister(p, tmgi, area, teid)
    case Remove(tmgi, area, teid) => OnRemove(p, tmgi, area, teid)
    case Update(tmgi, oldArea, newArea, flow) => OnUpdate(p, tmgi, oldArea, newArea, flow)
  }

  // ---- Lookups ----

  function ByIndex(p: Pool, idx: nat): Option<nat> {
    if idx in p.byIndex then Some(p.byIndex[idx]) else None
  }

  function ByTeid(p: Pool, teid: nat): Option<nat> {
    if teid in p.byTeid then ByIndex(p, p.byTeid[teid]) else None
  }

  // ---- Invariants ----

  ghost predicate IsPermutation(order: seq<nat>, n: nat) {
    && Distinct(order)
    && (forall k | 0 <= k < |order| :: order[k] < n)
    && (forall i: nat | i < n :: i in order)
  }

  ghost predicate FreeFirst(slots: seq<Slot>, order: seq<nat>)
    requires forall k | 0 <= k < |order| :: order[k] < |slots|
  {
    forall k, l | 0 <= k < l < |order| :: Used(slots[order[k]]) ==> Used(slots[order[l]])
  }

  /** The keys of the index table are exactly the indexes of the used slots. */
  ghost predicate Indexed(slots: seq<Slot>, byIndex: map<nat, nat>) {
    && (forall i | 0 <= i < |slots| && Used(slots[i]) ::
          && InRange(slots[i].tmgi)
          && Index(slots[i].tmgi, slots[i].area) in byIndex
          && byIndex[Index(slots[i].tmgi, slots[i].area)] == i)
    && (forall k | k in byIndex ::
          && byIndex[k] < |slots|
          && Used(slots[byIndex[k]])
          && Index(slots[byIndex[k]].tmgi, slots[byIndex[k]].area) == k)
  }

  function UsedSlots(slots: seq<Slot>): set<nat> {
    set i: nat | i < |slots| && Used(slots[i])
  }

  ghost predicate PoolSound(p: Pool) {
    && IsPermutation(p.order, |p.slots|)
    && FreeFirst(p.slots, p.order)
    && (forall i | 0 <= i < |p.slots| && !Used(p.slots[i]) :: p.slots[i] == CLEARED)
    && Indexed(p.slots, p.byIndex)
    && p.managed == |UsedSlots(p.slots)| % U32
  }

  /** The TEID table holds exactly the used slots' TEIDs, each with its slot's index. */
  ghost predicate TeidsAgree(p: Pool) {
    && INVALID_TEID !in p.byTeid
    && (forall i | 0 <= i < |p.slots| && Used(p.slots[i]) ::
          && p.slots[i].teid in p.byTeid
          && p.byTeid[p.slots[i].teid] == Index(p.slots[i].tmgi, p.slots[i].area))
    && (forall t | t in p.byTeid ::
          && p.byTeid[t] in p.byIndex
          && p.byIndex[p.byTeid[t]] < |p.slots|
          && p.slots[p.byIndex[p.byTeid[t]]].teid == t)
  }

  /** Both lookups find the same slot, and find nothing else. */
  lemma LookupsAgree(p: Pool)
    requires PoolSound(p) && TeidsAgree(p)
    ensures forall i: nat | i < |p.slots| && Used(p.slots[i]) ::
              ByTeid(p, p.slots[i].teid) == ByIndex(p, Index(p.slots[i].tmgi, p.slots[i].area)) == Some(i)
    ensures forall t, i: nat | ByTeid(p, t) == Some(i) ::
              i < |p.slots| && Used(p.slots[i]) && p.slots[i].teid == t
    ensures forall k, i: nat | ByIndex(p, k) == Some(i) ::
              i < |p.slots| && Used(p.slots[i]) && Index(p.slots[i].tmgi, p.slots[i].area) == k
  {
  }

  function Below(n: nat): set<nat> {
    if n == 0 then {} else Below(n - 1) + {n - 1}
  }

  lemma {:induction false} BelowExact(n: nat)
    ensures forall i: nat :: i in Below(n) <==> i < n
    ensures |Below(n)| == n
  {
    if n == 0 {
    } else {
      BelowExact(n - 1);
      assert n - 1 !in Below(n - 1);
    }
  }

  /** Looking only at the head refuses a valid registration exactly if no slot is free. */
  lemma RefusesIffFull(p: Pool, tmgi: Tmgi, area: nat)
    requires PoolSound(p) && p.slots != [] && Index(tmgi, area) != INVALID_INDEX
    ensures p.order != [] && p.order[0] < |p.slots|
    ensures Refuses(p, tmgi, area) <==> forall i | 0 <= i < |p.slots| :: Used(p.slots[i])
    ensures Refuses(p, tmgi, area) <==> |UsedSlots(p.slots)| == |p.slots|
  {
    assert 0 in p.order;
    assert p.order[0] in p.order;
    BelowExact(|p.slots|);
    CardSubset(UsedSlots(p.slots), Below(|p.slots|));
    if Refuses(p, tmgi, area) {
      forall i | 0 <= i < |p.slots| ensures Used(p.slots[i]) {
        assert i in p.order;
        var k :| 0 <= k < |p.order| && p.order[k] == i;
        assert Used(p.slots[p.order[0]]);
      }
      assert UsedSlots(p.slots) == Below(|p.slots|);
    } else {
      assert p.order[0] in Below(|p.slots|) && p.order[0] !in UsedSlots(p.slots);
    }
  }

  // ---- Moving a slot in the list ----

  lemma {:induction false} WithoutAt(order: seq<nat>, k: nat)
    requires k < |order| && order[k] !in order[..k]
    ensures Without(order, order[k]) == order[..k] + order[k+1..]
  {
    if k == 0 {
    } else {
      assert order[0] in order[..k];
      assert order[1..][..k-1] == order[1..k];
      assert forall j | 0 <= j < k - 1 :: order[1..k][j] == order[..k][j+1];
      WithoutAt(order[1..], k - 1);
      assert order[1..][k..] == order[k+1..];
    }
  }

  /** Putting the head, now used, at the tail. */
  lemma HeadToTail(slots: seq<Slot>, order: seq<nat>, s: Slot)
    requires IsPermutation(order, |slots|) && order != [] && Used(s)
    requires FreeFirst(slots, order)
    ensures IsPermutation(order[1..] + [order[0]], |slots|)
    ensures FreeFirst(slots[order[0] := s], order[1..] + [order[0]])
  {
    var moved := order[1..] + [order[0]];
    assert forall k | 0 <= k < |order| - 1 :: moved[k] == order[k+1];
    forall i: nat | i < |slots| ensures i in moved {
      assert i in order;
      assert order == [order[0]] + order[1..];
    }
  }

  ghost predicate MovedToHead(order: seq<nat>, k: nat, moved: seq<nat>)
    requires k < |order|
  {
    && |moved| == |order|
    && moved[0] == order[k]
    && (forall j | 0 <= j < k :: moved[j+1] == order[j])
    && (forall j | k < j < |order| :: moved[j] == order[j])
  }

  lemma MovedPermutation(order: seq<nat>, n: nat, k: nat, moved: seq<nat>)
    requires IsPermutation(order, n) && k < |order| && MovedToHead(order, k, moved)
    ensures IsPermutation(moved, n)
  {
    assert forall j | 0 < j <= k :: moved[j] == order[j-1];
    forall i: nat | i < n ensures i in moved {
      assert i in order;
      var j :| 0 <= j < |order| && order[j] == i;
      assert moved[if j == k then 0 else if j < k then j + 1 else j] == i;
    }
  }

  lemma MovedFreeFirst(slots: seq<Slot>, order: seq<nat>, k: nat, s: Slot, moved: seq<nat>)
    requires IsPermutation(order, |slots|) && k < |order| && !Used(s)
    requires FreeFirst(slots, order) && MovedToHead(order, k, moved)
    requires IsPermutation(moved, |slots|)
    ensures FreeFirst(slots[order[k] := s], moved)
  {
    assert forall j | 0 < j <= k :: moved[j] == order[j-1];
    assert forall j | 0 < j < |moved| :: moved[j] != order[k];
  }

  /** Putting a slot from anywhere, now free, at the head. */
  lemma {:induction false} ToHead(slots: seq<Slot>, order: seq<nat>, i: nat, s: Slot)
    requires IsPermutation(order, |slots|) && i < |slots| && !Used(s)
    requires FreeFirst(slots, order)
    ensures IsPermutation([i] + Without(order, i), |slots|)
    ensures FreeFirst(slots[i := s], [i] + Without(order, i))
  {
    assert i in order;
    var k :| 0 <= k < |order| && order[k] == i;
    var moved := [i] + Without(order, i);
    WithoutMoves(order, k, moved);
    MovedPermutation(order, |slots|, k, moved);
    MovedFreeFirst(slots, order, k, s, moved);
  }

  lemma {:induction false} WithoutMoves(order: seq<nat>, k: nat, moved: seq<nat>)
    requires Distinct(order) && k < |order| && moved == [order[k]] + Without(order, order[k])
    ensures MovedToHead(order, k, moved)
  {
    DistinctFresh(order, k);
    WithoutAt(order, k);
    MovedIs(order, k, moved);
  }

  lemma MovedIs(order: seq<nat>, k: nat, moved: seq<nat>)
    requires k < |order| && moved == [order[k]] + (order[..k] + order[k+1..])
    ensures MovedToHead(order, k, moved)
  {
  }

  // ---- What each operation keeps ----

  lemma InitialSound(n: nat)
    ensures PoolSound(Initial(n)) && TeidsAgree(Initial(n))
  {
    var p := Initial(n);
    forall i: nat | i < n ensures i in p.order {
      assert p.order[i] == i;
    }
    assert UsedSlots(p.slots) == {};
  }

  lemma UsedMore(slots: seq<Slot>, i: nat, s: Slot)
    requires i < |slots| && !Used(slots[i]) && Used(s)
    ensures |UsedSlots(slots[i := s])| == |UsedSlots(slots)| + 1
  {
    assert UsedSlots(slots[i := s]) == UsedSlots(slots) + {i};
  }

  lemma UsedFewer(slots: seq<Slot>, i: nat, s: Slot)
    requires i < |slots| && Used(slots[i]) && !Used(s)
    ensures |UsedSlots(slots[i := s])| == |UsedSlots(slots)| - 1
  {
    assert UsedSlots(slots) == UsedSlots(slots[i := s]) + {i};
  }

  lemma RegisterKeepsIndex(p: Pool, tmgi: Tmgi, area: nat, teid: nat)
    requires PoolSound(p) && Enabled(p, Register(tmgi, area, teid)) && !Refuses(p, tmgi, area)
    ensures var q := OnRegister(p, tmgi, area, teid); Indexed(q.slots, q.byIndex)
  {
    var q := OnRegister(p, tmgi, area, teid);
    var i := p.order[0];
    assert forall k | k in p.byIndex :: p.byIndex[k] != i;
    assert forall j | 0 <= j < |p.slots| && j != i :: q.slots[j] == p.slots[j];
  }

  lemma RegisterKeeps(p: Pool, tmgi: Tmgi, area: nat, teid: nat)
    requires PoolSound(p) && Enabled(p, Register(tmgi, area, teid))
    ensures PoolSound(OnRegister(p, tmgi, area, teid))
  {
    if !Refuses(p, tmgi, area) {
      HeadToTail(p.slots, p.order, Slot(tmgi, area, teid, 0));
      RegisterKeepsIndex(p, tmgi, area, teid);
      UsedMore(p.slots, p.order[0], Slot(tmgi, area, teid, 0));
    }
  }

  lemma RemoveKeepsIndex(p: Pool, idx: nat)
    requires PoolSound(p) && idx in p.byIndex
    ensures Indexed(p.slots[p.byIndex[idx] := CLEARED], p.byIndex - {idx})
  {
    var i := p.byIndex[idx];
    assert forall j | 0 <= j < |p.slots| && j != i :: p.slots[i := CLEARED][j] == p.slots[j];
  }

  lemma RemoveKeeps(p: Pool, idx: nat, q: Pool)
    requires PoolSound(p) && idx in p.byIndex
    requires var i := p.byIndex[idx];
             q.slots == p.slots[i := CLEARED] && q.order == [i] + Without(p.order, i) && q.byIndex == p.byIndex - {idx}
    requires q.managed == (p.managed + U32 - 1) % U32
    ensures PoolSound(q)
  {
    var i := p.byIndex[idx];
    ToHead(p.slots, p.order, i, CLEARED);
    RemoveKeepsIndex(p, idx);
    UsedFewer(p.slots, i, CLEARED);
    CountedDown(|UsedSlots(p.slots)|);
  }

  lemma CountedDown(n: nat)
    requires n > 0
    ensures (n % U32 + U32 - 1) % U32 == (n - 1) % U32
  {
  }

  /** A removal keeps the pool sound exactly if it names a valid service: the counter drops in any case. */
  lemma RemoveKeepsIff(p: Pool, tmgi: Tmgi, area: nat, teid: nat)
    requires PoolSound(p) && Enabled(p, Remove(tmgi, area, teid))
    ensures PoolSound(OnRemove(p, tmgi, area, teid)) <==> Index(tmgi, area) != INVALID_INDEX
  {
    var q := OnRemove(p, tmgi, area, teid);
    if Index(tmgi, area) == INVALID_INDEX {
      assert q.managed == (p.managed + U32 - 1) % U32 != p.managed;
    } else {
      RemoveKeeps(p, Index(tmgi, area), q);
    }
  }

  lemma UpdateInPlaceKeeps(p: Pool, i: nat, flow: nat)
    requires PoolSound(p) && i < |p.slots| && Used(p.slots[i])
    ensures PoolSound(p.(slots := p.slots[i := p.slots[i].(flow := flow)]))
  {
    var slots := p.slots[i := p.slots[i].(flow := flow)];
    assert forall j | 0 <= j < |slots| :: slots[j].tmgi == p.slots[j].tmgi && slots[j].area == p.slots[j].area;
    assert UsedSlots(slots) == UsedSlots(p.slots);
  }

  lemma MoveKeepsIndex(p: Pool, idx: nat, s: Slot)
    requires PoolSound(p) && idx in p.byIndex
    requires InRange(s.tmgi) && Used(s) && Index(s.tmgi, s.area) !in p.byIndex
    ensures Indexed(p.slots[p.byIndex[idx] := s], (p.byIndex - {idx})[Index(s.tmgi, s.area) := p.byIndex[idx]])
  {
    var i := p.byIndex[idx];
    assert forall j | 0 <= j < |p.slots| && j != i :: p.slots[i := s][j] == p.slots[j];
    assert forall k | k in p.byIndex && k != idx :: p.byIndex[k] != i;
  }

  lemma MoveKeeps(p: Pool, idx: nat, s: Slot)
    requires PoolSound(p) && idx in p.byIndex
    requires InRange(s.tmgi) && Used(s) && Index(s.tmgi, s.area) !in p.byIndex
    ensures PoolSound(p.(slots := p.slots[p.byIndex[idx] := s],
                         byIndex := (p.byIndex - {idx})[Index(s.tmgi, s.area) := p.byIndex[idx]]))
  {
    var i := p.byIndex[idx];
    var slots := p.slots[i := s];
    MoveKeepsIndex(p, idx, s);
    assert forall j | 0 <= j < |slots| :: Used(slots[j]) == Used(p.slots[j]);
    assert UsedSlots(slots) == UsedSlots(p.slots);
  }

  /** The service found under an index carries that index's service id. */
  lemma FoundSlot(p: Pool, tmgi: Tmgi, area: nat)
    requires PoolSound(p) && InRange(tmgi) && Index(tmgi, area) in p.byIndex
    ensures var s := p.slots[p.byIndex[Index(tmgi, area)]];
            s.tmgi.serviceId == tmgi.serviceId != 0 && s.area == area != 0
  {
    var s := p.slots[p.byIndex[Index(tmgi, area)]];
    IndexInjective(tmgi, area, s.tmgi, s.area);
  }

  /** An area change into an invalid area, or onto an index in use, corrupts the pool. */
  lemma MoveCorrupts(p: Pool, tmgi: Tmgi, oldArea: nat, newArea: nat, flow: nat)
    requires PoolSound(p) && Enabled(p, Update(tmgi, oldArea, newArea, flow)) && oldArea != newArea
    requires newArea == 0 || Index(tmgi, newArea) in p.byIndex
    ensures !PoolSound(OnUpdate(p, tmgi, oldArea, newArea, flow))
  {
    FoundSlot(p, tmgi, oldArea);
    var q := OnUpdate(p, tmgi, oldArea, newArea, flow);
    var i := p.byIndex[Index(tmgi, oldArea)];
    if newArea == 0 {
      assert !Used(q.slots[i]) && q.slots[i].tmgi.serviceId != 0;
    } else {
      FoundSlot(p, tmgi, newArea);
      var j := p.byIndex[Index(tmgi, newArea)];
      assert j != i;
      assert q.slots[j] == p.slots[j] && Used(q.slots[j]);
      assert q.byIndex[Index(tmgi, newArea)] == i;
    }
  }

  lemma UpdateKeepsIff(p: Pool, tmgi: Tmgi, oldArea: nat, newArea: nat, flow: nat)
    requires PoolSound(p) && Enabled(p, Update(tmgi, oldArea, newArea, flow))
    ensures PoolSound(OnUpdate(p, tmgi, oldArea, newArea, flow)) <==>
              oldArea == newArea || (newArea != 0 && Index(tmgi, newArea) !in p.byIndex)
  {
    FoundSlot(p, tmgi, oldArea);
    var idx := Index(tmgi, oldArea);
    var i := p.byIndex[idx];
    if oldArea == newArea {
      UpdateInPlaceKeeps(p, i, flow);
    } else if newArea == 0 || Index(tmgi, newArea) in p.byIndex {
      MoveCorrupts(p, tmgi, oldArea, newArea, flow);
    } else {
      var s := p.slots[i].(area := newArea, flow := flow);
      assert Index(s.tmgi, s.area) == Index(tmgi, newArea);
      MoveKeeps(p, idx, s);
    }
  }

  /** What a caller must see to for the pool to stay sound. */
  predicate KeepsPool(p: Pool, e: Event) {
    match e
    case Register(_, _, _) => true
    case Remove(tmgi, area, _) => Index(tmgi, area) != INVALID_INDEX
    case Update(tmgi, oldArea, newArea, _) =>
      oldArea == newArea || (newArea != 0 && Index(tmgi, newArea) !in p.byIndex)
  }

  lemma StepPoolIff(p: Pool, e: Event)
    requires PoolSound(p) && Enabled(p, e)
    ensures PoolSound(Step(p, e)) <==> KeepsPool(p, e)
  {
    match e
    case Register(tmgi, area, teid) => RegisterKeeps(p, tmgi, area, teid);
    case Remove(tmgi, area, teid) => RemoveKeepsIff(p, tmgi, area, teid);
    case Update(tmgi, oldArea, newArea, flow) => UpdateKeepsIff(p, tmgi, oldArea, newArea, flow);
  }

  /** All slots but one are as they were. */
  predicate OnlySlot(p: Pool, q: Pool, i: nat) {
    && |q.slots| == |p.slots| && i < |p.slots|
    && forall j | 0 <= j < |p.slots| && j != i :: q.slots[j] == p.slots[j]
  }

  /** A registered service is found, by index and by TEID, in a slot that was free, as it was given. */
  lemma RegisterExact(p: Pool, tmgi: Tmgi, area: nat, teid: nat)
    requires PoolSound(p) && Enabled(p, Register(tmgi, area, teid))
    ensures var q := Step(p, Register(tmgi, area, teid));
            if tmgi.serviceId == 0 || area == 0 || forall i | 0 <= i < |p.slots| :: Used(p.slots[i]) then q == p
            else
              && ByIndex(q, Index(tmgi, area)).Some?
              && var i := ByIndex(q, Index(tmgi, area)).value;
              && OnlySlot(p, q, i) && !Used(p.slots[i]) && q.slots[i] == Slot(tmgi, area, teid, 0)
              && ByTeid(q, teid) == Some(i)
              && q.byIndex == p.byIndex[Index(tmgi, area) := i] && q.byTeid == p.byTeid[teid := Index(tmgi, area)]
              && q.managed == (p.managed + 1) % U32
  {
    if Index(tmgi, area) != INVALID_INDEX {
      assert p.order[0] in p.order;
      RefusesIffFull(p, tmgi, area);
    }
  }

  /** A removed service is not found any more, and its slot is clear. */
  lemma RemoveExact(p: Pool, tmgi: Tmgi, area: nat, teid: nat)
    requires PoolSound(p) && Enabled(p, Remove(tmgi, area, teid)) && KeepsPool(p, Remove(tmgi, area, teid))
    ensures var q, i := Step(p, Remove(tmgi, area, teid)), p.byIndex[Index(tmgi, area)];
            var own := p.slots[i].teid;
            && OnlySlot(p, q, i) && q.slots[i] == CLEARED
            && q.byIndex == p.byIndex - {Index(tmgi, area)}
            && q.byTeid == (if teid != 0 then p.byTeid - {teid} else if own != 0 then p.byTeid - {own} else p.byTeid)
            && q.managed == (p.managed + U32 - 1) % U32
  {
  }

  /** One that moves onto a taken area takes over the index, and its flow is not stored. */
  lemma UpdateOntoTaken(p: Pool, tmgi: Tmgi, oldArea: nat, newArea: nat, flow: nat)
    requires PoolSound(p) && Enabled(p, Update(tmgi, oldArea, newArea, flow))
    requires oldArea != newArea && Index(tmgi, newArea) in p.byIndex
    ensures var q, i := Step(p, Update(tmgi, oldArea, newArea, flow)), p.byIndex[Index(tmgi, oldArea)];
            && q == p.(slots := p.slots[i := p.slots[i].(area := newArea)], byIndex := q.byIndex)
            && ByIndex(q, Index(tmgi, newArea)) == Some(i) && ByIndex(q, Index(tmgi, oldArea)) == None
  {
    FoundSlot(p, tmgi, oldArea);
    FoundSlot(p, tmgi, newArea);
    IndexInjective(tmgi, oldArea, tmgi, newArea);
  }

  /** An updated service is found under its new area, in its slot, with the new area and flow, else unchanged. */
  lemma UpdateExact(p: Pool, tmgi: Tmgi, oldArea: nat, newArea: nat, flow: nat)
    requires PoolSound(p) && Enabled(p, Update(tmgi, oldArea, newArea, flow))
    requires KeepsPool(p, Update(tmgi, oldArea, newArea, flow))
    ensures var q, i := Step(p, Update(tmgi, oldArea, newArea, flow)), p.byIndex[Index(tmgi, oldArea)];
            && OnlySlot(p, q, i) && q.slots[i] == p.slots[i].(area := newArea, flow := flow)
            && ByIndex(q, Index(tmgi, newArea)) == Some(i)
            && (oldArea != newArea ==> ByIndex(q, Index(tmgi, oldArea)) == None)
            && q == p.(slots := q.slots, byIndex := q.byIndex)
            && forall k | k !in {Index(tmgi, oldArea), Index(tmgi, newArea)} :: ByIndex(q, k) == ByIndex(p, k)
  {
    FoundSlot(p, tmgi, oldArea);
    IndexInjective(tmgi, oldArea, tmgi, newArea);
  }

  // ---- The TEID table ----

  lemma RegisterKeepsTeids(p: Pool, tmgi: Tmgi, area: nat, teid: nat)
    requires PoolSound(p) && TeidsAgree(p) && Enabled(p, Register(tmgi, area, teid))
    ensures TeidsAgree(OnRegister(p, tmgi, area, teid))
  {
    if !Refuses(p, tmgi, area) {
      var q := OnRegister(p, tmgi, area, teid);
      var i := p.order[0];
      assert teid !in p.byTeid;
      assert forall j | 0 <= j < |p.slots| && j != i :: q.slots[j] == p.slots[j];
      assert forall t | t in p.byTeid :: p.byIndex[p.byTeid[t]] != i;
    }
  }

  /** Besides the service's own TEID only the invalid one, which stands for it, is safe to remove with. */
  lemma RemoveTeidsIff(p: Pool, tmgi: Tmgi, area: nat, teid: nat)
    requires PoolSound(p) && TeidsAgree(p) && Enabled(p, Remove(tmgi, area, teid))
    requires Index(tmgi, area) != INVALID_INDEX
    ensures TeidsAgree(OnRemove(p, tmgi, area, teid)) <==>
              teid == INVALID_TEID || teid == p.slots[p.byIndex[Index(tmgi, area)]].teid
  {
    var q := OnRemove(p, tmgi, area, teid);
    var idx := Index(tmgi, area);
    var i := p.byIndex[idx];
    var own := p.slots[i].teid;
    assert forall j | 0 <= j < |p.slots| && j != i :: q.slots[j] == p.slots[j];
    assert own in p.byTeid && p.byTeid[own] == idx;
    if teid == INVALID_TEID || teid == own {
      RemoveTeids(p, idx, q);
    } else {
      assert own in q.byTeid && q.byTeid[own] == idx && idx !in q.byIndex;
    }
  }

  lemma RemoveTeids(p: Pool, idx: nat, q: Pool)
    requires PoolSound(p) && TeidsAgree(p) && idx in p.byIndex
    requires q.slots == p.slots[p.byIndex[idx] := CLEARED] && q.byIndex == p.byIndex - {idx}
    requires q.byTeid == Dropped(p.byTeid, p.slots[p.byIndex[idx]].teid)
    requires p.slots[p.byIndex[idx]].teid != INVALID_TEID
    ensures TeidsAgree(q)
  {
    var i := p.byIndex[idx];
    forall j | 0 <= j < |q.slots| && Used(q.slots[j])
      ensures q.slots[j].teid in q.byTeid && q.byTeid[q.slots[j].teid] == Index(q.slots[j].tmgi, q.slots[j].area)
    {
      assert j != i && q.slots[j] == p.slots[j];
      assert p.byTeid[p.slots[j].teid] != p.byTeid[p.slots[i].teid];
    }
    forall t | t in q.byTeid
      ensures q.byTeid[t] in q.byIndex && q.byIndex[q.byTeid[t]] < |q.slots|
              && q.slots[q.byIndex[q.byTeid[t]]].teid == t
    {
      assert p.byTeid[t] != idx;
      assert p.byIndex[p.byTeid[t]] != i;
    }
  }

  /** A change of area leaves the old index in the TEID table. */
  lemma UpdateTeidsIff(p: Pool, tmgi: Tmgi, oldArea: nat, newArea: nat, flow: nat)
    requires PoolSound(p) && TeidsAgree(p) && Enabled(p, Update(tmgi, oldArea, newArea, flow))
    requires KeepsPool(p, Update(tmgi, oldArea, newArea, flow))
    ensures TeidsAgree(OnUpdate(p, tmgi, oldArea, newArea, flow)) <==> oldArea == newArea
  {
    FoundSlot(p, tmgi, oldArea);
    var q := OnUpdate(p, tmgi, oldArea, newArea, flow);
    var i := p.byIndex[Index(tmgi, oldArea)];
    if oldArea == newArea {
      assert forall j | 0 <= j < |q.slots| ::
          && q.slots[j].tmgi == p.slots[j].tmgi && q.slots[j].area == p.slots[j].area
          && q.slots[j].teid == p.slots[j].teid;
    } else {
      assert q.byTeid[q.slots[i].teid] == Index(tmgi, oldArea);
      assert Index(tmgi, oldArea) !in q.byIndex;
    }
  }

  /** What a caller must see to for the two tables to stay in step. */
  predicate KeepsTeids(p: Pool, e: Event)
    requires Enabled(p, e) && KeepsPool(p, e)
  {
    match e
    case Register(_, _, _) => true
    case Remove(tmgi, area, teid) => teid == INVALID_TEID || teid == p.slots[p.byIndex[Index(tmgi, area)]].teid
    case Update(_, oldArea, newArea, _) => oldArea == newArea
  }

  lemma StepTeidsIff(p: Pool, e: Event)
    requires PoolSound(p) && TeidsAgree(p) && Enabled(p, e) && KeepsPool(p, e)
    ensures TeidsAgree(Step(p, e)) <==> KeepsTeids(p, e)
  {
    match e
    case Register(tmgi, area, teid) => RegisterKeepsTeids(p, tmgi, area, teid);
    case Remove(tmgi, area, teid) => RemoveTeidsIff(p, tmgi, area, teid);
    case Update(tmgi, oldArea, newArea, flow) => UpdateTeidsIff(p, tmgi, oldArea, newArea, flow);
  }

  // ---- Runs ----

  predicate IsRun(n: nat, events: seq<Event>)
    decreases |events|, 0
  {
    events == [] ||
    (var last := |events| - 1; IsRun(n, events[..last]) && Enabled(After(n, events[..last]), events[last]))
  }

  function After(n: nat, events: seq<Event>): Pool
    requires IsRun(n, events)
    decreases |events|, 1
  {
    if events == [] then Initial(n)
    else var last := |events| - 1; Step(After(n, events[..last]), events[last])
  }

  /** Every event found the pool as its caller must have seen to. */
  predicate AllKeepPool(n: nat, events: seq<Event>)
    requires IsRun(n, events)
  {
    events == [] ||
    (var last := |events| - 1;
     AllKeepPool(n, events[..last]) && KeepsPool(After(n, events[..last]), events[last]))
  }

  predicate AllKeepTeids(n: nat, events: seq<Event>)
    requires IsRun(n, events) && AllKeepPool(n, events)
  {
    events == [] ||
    (var last := |events| - 1;
     AllKeepTeids(n, events[..last]) && KeepsTeids(After(n, events[..last]), events[last]))
  }

  ghost predicate AlwaysSound(n: nat, events: seq<Event>)
    requires IsRun(n, events)
  {
    PoolSound(After(n, events)) && (events == [] || AlwaysSound(n, events[..|events|-1]))
  }

  ghost predicate AlwaysAgree(n: nat, events: seq<Event>)
    requires IsRun(n, events)
  {
    TeidsAgree(After(n, events)) && (events == [] || AlwaysAgree(n, events[..|events|-1]))
  }

  /**
    Over every run: the pool is sound throughout exactly if no removal names an
    invalid service and no update moves a service into an invalid or taken area.
  */
  lemma {:induction false} RunPoolIff(n: nat, events: seq<Event>)
    requires IsRun(n, events)
    ensures AlwaysSound(n, events) <==> AllKeepPool(n, events)
  {
    if events == [] {
      InitialSound(n);
    } else {
      var last := |events| - 1;
      RunPoolIff(n, events[..last]);
      if AlwaysSound(n, events[..last]) {
        StepPoolIff(After(n, events[..last]), events[last]);
      }
    }
  }

  /** And then the lookups agree throughout exactly if removals name the service's TEID and updates keep the area. */
  lemma {:induction false} RunTeidsIff(n: nat, events: seq<Event>)
    requires IsRun(n, events) && AllKeepPool(n, events)
    ensures AlwaysAgree(n, events) <==> AllKeepTeids(n, events)
  {
    if events == [] {
      InitialSound(n);
    } else {
      var last := |events| - 1;
      RunTeidsIff(n, events[..last]);
      RunPoolIff(n, events[..last]);
      if AlwaysAgree(n, events[..last]) {
        StepTeidsIff(After(n, events[..last]), events[last]);
      }
    }
  }

  lemma BackToHead(order: seq<nat>)
    requires Distinct(order) && order != []
    ensures [order[0]] + Without(order[1..] + [order[0]], order[0]) == order
  {
    var moved := order[1..] + [order[0]];
    assert forall k | 0 <= k < |order| - 1 :: moved[k] == order[k+1];
    WithoutAt(moved, |moved| - 1);
  }

  lemma InsertedThenRemoved(m: map<nat, nat>, k: nat, v: nat)
    requires k !in m
    ensures m[k := v] - {k} == m
  {
  }

  lemma CountedUpThenDown(n: nat)
    requires n < U32
    ensures ((n + 1) % U32 + U32 - 1) % U32 == n
  {
  }

  /** A TEID the registration may use is new to the table. */
  lemma RegisteredTeidIsNew(p: Pool, tmgi: Tmgi, area: nat, teid: nat)
    requires PoolSound(p) && TeidsAgree(p)
    requires Enabled(p, Register(tmgi, area, teid)) && !Refuses(p, tmgi, area)
    ensures teid !in p.byTeid
  {
  }

  /** Removing a service just registered restores the pool, its list, both tables and the counter. */
  lemma RemoveUndoesRegister(p: Pool, tmgi: Tmgi, area: nat, teid: nat, given: nat)
    requires PoolSound(p) && TeidsAgree(p)
    requires Enabled(p, Register(tmgi, area, teid)) && !Refuses(p, tmgi, area)
    requires given == teid || given == INVALID_TEID
    ensures Enabled(OnRegister(p, tmgi, area, teid), Remove(tmgi, area, given))
    ensures OnRemove(OnRegister(p, tmgi, area, teid), tmgi, area, given) == p
  {
    RegisteredTeidIsNew(p, tmgi, area, teid);
    UndoneOn(p, tmgi, area, teid, given);
  }

  lemma UndoneOn(p: Pool, tmgi: Tmgi, area: nat, teid: nat, given: nat)
    requires p.order != [] && p.order[0] < |p.slots| && Distinct(p.order) && p.slots[p.order[0]] == CLEARED
    requires InRange(tmgi) && Index(tmgi, area) != INVALID_INDEX && Index(tmgi, area) !in p.byIndex
    requires teid != INVALID_TEID && teid !in p.byTeid && p.managed < U32
    requires given == teid || given == INVALID_TEID
    ensures Enabled(OnRegister(p, tmgi, area, teid), Remove(tmgi, area, given))
    ensures OnRemove(OnRegister(p, tmgi, area, teid), tmgi, area, given) == p
  {
    var q := OnRegister(p, tmgi, area, teid);
    BackToHead(p.order);
    assert q.slots[p.order[0] := CLEARED] == p.slots;
    InsertedThenRemoved(p.byIndex, Index(tmgi, area), p.order[0]);
    InsertedThenRemoved(p.byTeid, teid, Index(tmgi, area));
    CountedUpThenDown(p.managed);
  }

  /** A run after which the TEID of a live service finds nothing. */
  lemma AreaChangeLosesTeid()
    ensures var tmgi := M2apState.Tmgi(1, 7);
            var events := [Register(tmgi, 1, 5), Update(tmgi, 1, 2, 0)];
            IsRun(1, events) &&
            ByIndex(After(1, events), Index(tmgi, 2)) == Some(0) &&
            ByTeid(After(1, events), 5) == None
  {
    var tmgi := M2apState.Tmgi(1, 7);
    var first, second := Register(tmgi, 1, 5), Update(tmgi, 1, 2, 0);
    RunExtended(1, [], first);
    assert [] + [first] == [first];
    var p := Pool([Slot(tmgi, 1, 5, 0)], [0], map[Index(tmgi, 1) := 0], map[5 := Index(tmgi, 1)], 1);
    assert After(1, [first]) == p;
    RunExtended(1, [first], second);
    assert [first] + [second] == [first, second];
  }

  // ---- Runs that corrupt the pool ----

  const FIRST_TMGI := M2apState.Tmgi(1, 7)

  /** Removing an invalid service counts down what was never counted up. */
  lemma InvalidRemovalMiscounts()
    ensures var events := [Remove(M2apState.Tmgi(0, 0), 0, 0)];
            IsRun(1, events) && After(1, events).managed == U32 - 1 && !PoolSound(After(1, events))
  {
    var e := Remove(M2apState.Tmgi(0, 0), 0, 0);
    RunExtended(1, [], e);
    assert [] + [e] == [e];
    assert UsedSlots(After(1, [e]).slots) == {};
  }

  lemma FirstRegistered(n: nat)
    requires n > 0
    ensures var e := Register(FIRST_TMGI, 1, 5);
            && IsRun(n, [e])
            && After(n, [e]) == Pool(seq(n, _ => CLEARED)[0 := Slot(FIRST_TMGI, 1, 5, 0)], seq(n, i => i)[1..] + [0],
                                     map[Index(FIRST_TMGI, 1) := 0], map[5 := Index(FIRST_TMGI, 1)], 1)
  {
    var e := Register(FIRST_TMGI, 1, 5);
    RunExtended(n, [], e);
    assert [] + [e] == [e];
  }

  /** Moving a service into an invalid area leaves its slot in the table under the invalid index. */
  lemma MoveIntoInvalidArea()
    ensures var events := [Register(FIRST_TMGI, 1, 5), Update(FIRST_TMGI, 1, 0, 0)];
            && IsRun(1, events)
            && ByIndex(After(1, events), INVALID_INDEX) == Some(0) && !PoolSound(After(1, events))
  {
    var first, second := Register(FIRST_TMGI, 1, 5), Update(FIRST_TMGI, 1, 0, 0);
    FirstRegistered(1);
    RunExtended(1, [first], second);
    assert [first] + [second] == [first, second];
  }

  /** Moving a service onto another one takes over its index: the other's slot is used, and cannot be found. */
  lemma MoveOntoTakenArea()
    ensures var events := [Register(FIRST_TMGI, 1, 5), Register(FIRST_TMGI, 2, 6), Update(FIRST_TMGI, 1, 2, 0)];
            && IsRun(2, events)
            && var p := After(2, events);
            && |p.slots| == 2 && Used(p.slots[1]) && Index(p.slots[1].tmgi, p.slots[1].area) == Index(FIRST_TMGI, 2)
            && ByIndex(p, Index(FIRST_TMGI, 2)) == Some(0) && !PoolSound(p)
  {
    var first, second, third := Register(FIRST_TMGI, 1, 5), Register(FIRST_TMGI, 2, 6), Update(FIRST_TMGI, 1, 2, 0);
    FirstRegistered(2);
    RunExtended(2, [first], second);
    assert [first] + [second] == [first, second];
    var p := After(2, [first, second]);
    assert p.slots == [Slot(FIRST_TMGI, 1, 5, 0), Slot(FIRST_TMGI, 2, 6, 0)];
    RunExtended(2, [first, second], third);
    assert [first, second] + [third] == [first, second, third];
  }

  lemma {:induction false} RunExtended(n: nat, events: seq<Event>, e: Event)
    requires IsRun(n, events) && Enabled(After(n, events), e)
    ensures IsRun(n, events + [e])
    ensures After(n, events + [e]) == Step(After(n, events), e)
  {
    assert (events + [e])[..|events|] == events;
  }
}
