/** Partial reset: which associations it takes away and what it does to the counter. */
module M2apReset {
  import opened M2apState

  /** The item names service `m` together with the id the eNB currently has there. */
  predicate ItemHits(s: State, a: AssocId, item: ResetItem, m: MceId)
    requires m in s.services && a in s.services[m].assocs
  {
    var current := s.services[m].assocs[a];
    ItemMce(item) == m && m != INVALID_MCE_ID && (current == INVALID_ENB_MBMS_ID || current == ItemEnb(item))
  }

  /** The services the eNB loses to a list of reset items. */
  function Lost(s: State, a: AssocId, items: seq<ResetItem>): set<MceId> {
    set m | m in Holding(s, a) && exists k :: 0 <= k < |items| && ItemHits(s, a, items[k], m)
  }

  lemma LostSnoc(s: State, a: AssocId, items: seq<ResetItem>, m: MceId)
    requires items != [] && m in Holding(s, a)
    ensures m in Lost(s, a, items) <==>
            m in Lost(s, a, items[..|items|-1]) || ItemHits(s, a, items[|items|-1], m)
  {
    var before := items[..|items|-1];
    if m in Lost(s, a, before) {
      var k :| 0 <= k < |before| && ItemHits(s, a, before[k], m);
      assert items[k] == before[k];
    }
    if m in Lost(s, a, items) {
      var k :| 0 <= k < |items| && ItemHits(s, a, items[k], m);
      assert k < |before| ==> before[k] == items[k];
    }
  }

  /** What one item does, given that the items before it took away `gone`. */
  lemma ItemAfter(s: State, t: State, a: AssocId, gone: set<MceId>, item: ResetItem)
    requires a in s.enbs && a in t.enbs && gone <= Holding(s, a)
    requires t.services.Keys == s.services.Keys
    requires forall m | m in s.services :: t.services[m] == AfterLoss(s, a, gone, m)
    ensures var u := OnResetItem(t, a, item);
            var m := ItemMce(item);
            var now := if m in Holding(s, a) && ItemHits(s, a, item, m) then gone + {m} else gone;
            && u.services.Keys == s.services.Keys
            && forall k | k in s.services :: u.services[k] == AfterLoss(s, a, now, k)
    ensures ItemTakesEffect(t, a, item) <==>
            var m := ItemMce(item);
            m != INVALID_MCE_ID && m in s.services && (m !in Holding(s, a) || m in gone || ItemHits(s, a, item, m))
  {
    var m := ItemMce(item);
    if m in s.services && a !in s.services[m].assocs {
      assert s.services[m].assocs - {a} == s.services[m].assocs;
    }
    if m in s.services && m in gone {
      assert (s.services[m].assocs - {a}) - {a} == s.services[m].assocs - {a};
    }
  }

  function AfterLoss(s: State, a: AssocId, lost: set<MceId>, m: MceId): Service
    requires m in s.services
  {
    if m in lost then s.services[m].(assocs := s.services[m].assocs - {a}) else s.services[m]
  }

  /**
    A partial reset is exact: the eNB loses exactly the services for which
    some item carries the service's id together with the eNB's current id
    there, whatever the order and repetition of the items. Services, areas
    and the associations of other eNBs are untouched.
  */
  lemma {:induction false} ResetItemsExact(s: State, a: AssocId, items: seq<ResetItem>)
    requires a in s.enbs
    ensures var t := OnResetItems(s, a, items);
            && a in t.enbs
            && t.services.Keys == s.services.Keys
            && forall m | m in s.services :: t.services[m] == AfterLoss(s, a, Lost(s, a, items), m)
    decreases |items|
  {
    if items == [] {
    } else {
      var before, last := items[..|items|-1], items[|items|-1];
      ResetItemsExact(s, a, before);
      var t := OnResetItems(s, a, before);
      ItemAfter(s, t, a, Lost(s, a, before), last);
      forall m | m in s.services
        ensures OnResetItem(t, a, last).services[m] == AfterLoss(s, a, Lost(s, a, items), m)
      {
        if m in Holding(s, a) {
          LostSnoc(s, a, items, m);
        }
      }
    }
  }

  /** The same in terms of what the eNB still holds. */
  lemma ResetHolding(s: State, a: AssocId, items: seq<ResetItem>)
    requires a in s.enbs
    ensures Holding(OnResetItems(s, a, items), a) == Holding(s, a) - Lost(s, a, items)
    ensures forall b | b != a :: Holding(OnResetItems(s, a, items), b) == Holding(s, b)
  {
    ResetItemsExact(s, a, items);
  }

  // ---- The counter ----

  /**
    Item `k` decrements the counter although it removes nothing: the service
    exists, but the eNB is not associated with it, or not any more.
  */
  predicate DeadHit(s: State, a: AssocId, items: seq<ResetItem>, k: nat)
    requires k < |items|
  {
    var m := ItemMce(items[k]);
    && m != INVALID_MCE_ID
    && m in s.services
    && (m !in Holding(s, a) || m in Lost(s, a, items[..k]))
  }

  function DeadHits(s: State, a: AssocId, items: seq<ResetItem>): nat
    decreases |items|
  {
    if items == [] then 0
    else DeadHits(s, a, items[..|items|-1]) + (if DeadHit(s, a, items, |items|-1) then 1 else 0)
  }

  function Decrements(s: State, a: AssocId, items: seq<ResetItem>): nat {
    |Lost(s, a, items)| + DeadHits(s, a, items)
  }

  /** Each further item adds a decrement exactly if it takes effect. */
  lemma DecrementsSnoc(s: State, a: AssocId, items: seq<ResetItem>)
    requires a in s.enbs && items != []
    ensures var before, last := items[..|items|-1], items[|items|-1];
            Decrements(s, a, items) ==
            Decrements(s, a, before) + if ItemTakesEffect(OnResetItems(s, a, before), a, last) then 1 else 0
  {
    var before, last := items[..|items|-1], items[|items|-1];
    var m, gone := ItemMce(last), Lost(s, a, before);
    ResetItemsExact(s, a, before);
    ItemAfter(s, OnResetItems(s, a, before), a, gone, last);
    LostCount(s, a, items);
  }

  /** Each further item takes away at most the one service it names. */
  lemma LostCount(s: State, a: AssocId, items: seq<ResetItem>)
    requires items != []
    ensures var before, last := items[..|items|-1], items[|items|-1];
            var m, gone := ItemMce(last), Lost(s, a, before);
            |Lost(s, a, items)| ==
            |gone| + if m in Holding(s, a) && ItemHits(s, a, last, m) && m !in gone then 1 else 0
  {
    var before, last := items[..|items|-1], items[|items|-1];
    var m, gone := ItemMce(last), Lost(s, a, before);
    forall k | k in Holding(s, a) ensures k in Lost(s, a, items) <==> k in gone || ItemHits(s, a, last, k) {
      LostSnoc(s, a, items, k);
    }
    if m in Holding(s, a) && ItemHits(s, a, last, m) && m !in gone {
      assert Lost(s, a, items) == gone + {m};
    } else {
      assert Lost(s, a, items) == gone;
    }
  }

  /** The counter goes down once per removed association and once per dead hit, but not below zero. */
  lemma {:induction false} ResetCounter(s: State, a: AssocId, items: seq<ResetItem>)
    requires a in s.enbs
    ensures var t := OnResetItems(s, a, items);
            a in t.enbs && t.enbs[a].nb ==
              var down := Decrements(s, a, items);
              if s.enbs[a].nb >= down then s.enbs[a].nb - down else 0
    decreases |items|
  {
    if items == [] {
      assert Lost(s, a, items) == {};
    } else {
      ResetCounter(s, a, items[..|items|-1]);
      DecrementsSnoc(s, a, items);
    }
  }

  /** No dead hits are counted exactly when there is none. */
  lemma {:induction false} NoDeadHits(s: State, a: AssocId, items: seq<ResetItem>)
    ensures DeadHits(s, a, items) == 0 <==> forall k | 0 <= k < |items| :: !DeadHit(s, a, items, k)
    decreases |items|
  {
    if items == [] {
    } else {
      var before := items[..|items|-1];
      NoDeadHits(s, a, before);
      forall k | 0 <= k < |before| ensures DeadHit(s, a, items, k) == DeadHit(s, a, before, k) {
        assert before[..k] == items[..k];
      }
    }
  }
}
