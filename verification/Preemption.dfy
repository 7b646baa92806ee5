/**
  Pre-emption of MBMS services by allocation and retention priority (ARP): one
  call picks a service, and its caller calls again until resources suffice.
*/
module Preemption {
  import opened Common

  const INVALID_INDEX: nat := 0

  /** The vulnerability flag and the priority level; a greater level is a lower priority. */
  datatype Arp = Arp(vulnerable: bool, level: nat)

  /** The services known to the MCE, and those of one MBSFN area if the search is confined to it. */
  datatype Scope = Scope(arps: map<nat, Arp>, area: Option<set<nat>>)

  predicate Considered(scope: Scope, idx: nat) {
    idx != INVALID_INDEX && (scope.area.Some? ==> idx in scope.area.value)
  }

  /** The source asserts that the services it considers exist. */
  predicate Known(scope: Scope, list: seq<nat>) {
    forall idx | idx in list && Considered(scope, idx) :: idx in scope.arps
  }

  /** The level that counts for pre-emption; 0 if the service is not to be pre-empted. */
  function Level(scope: Scope, idx: nat): nat
    requires Considered(scope, idx) ==> idx in scope.arps
  {
    if Considered(scope, idx) && scope.arps[idx].vulnerable then scope.arps[idx].level else 0
  }

  /** Position `k` holds a service of the greatest level, and is the first that does. */
  predicate IsFirstGreatest(scope: Scope, list: seq<nat>, k: nat)
    requires Known(scope, list)
  {
    && k < |list|
    && Level(scope, list[k]) > 0
    && (forall i | 0 <= i < |list| :: Level(scope, list[i]) <= Level(scope, list[k]))
    && (forall i | 0 <= i < k :: Level(scope, list[i]) < Level(scope, list[k]))
  }

  predicate NothingToPreempt(scope: Scope, list: seq<nat>)
    requires Known(scope, list)
  {
    forall i | 0 <= i < |list| :: Level(scope, list[i]) == 0
  }

  /** The search loop. Services of level 0 are never picked, vulnerable or not. */
  method Preempt(scope: Scope, list: array<nat>) returns (picked: nat, ghost at: nat)
    requires Known(scope, list[..])
    modifies list
    ensures picked == INVALID_INDEX <==> NothingToPreempt(scope, old(list[..]))
    ensures picked == INVALID_INDEX ==> list[..] == old(list[..])
    ensures picked != INVALID_INDEX ==>
              && IsFirstGreatest(scope, old(list[..]), at)
              && picked == old(list[..])[at]
              && list[..] == old(list[..])[at := INVALID_INDEX]
  {
    ghost var was := list[..];
    var lowest := 0;
    var position := 0;
    picked, at := INVALID_INDEX, 0;
    for n := 0 to list.Length
      invariant list[..] == was
      invariant picked == INVALID_INDEX ==> lowest == 0
      invariant picked != INVALID_INDEX ==>
                  && position < n && was[position] == picked && lowest == Level(scope, picked) > 0
                  && forall i | 0 <= i < position :: Level(scope, was[i]) < lowest
      invariant forall i | 0 <= i < n :: Level(scope, was[i]) <= lowest
    {
      var idx := list[n];
      assert idx == was[n] && idx in was;
      if idx != INVALID_INDEX && (scope.area.Some? ==> idx in scope.area.value) {
        if scope.arps[idx].vulnerable && lowest < scope.arps[idx].level {
          lowest, picked, position := scope.arps[idx].level, idx, n;
        }
      }
    }
    if picked != INVALID_INDEX {
      at := position;
      list[position] := INVALID_INDEX;
      assert list[..] == was[position := INVALID_INDEX];
      assert Level(scope, was[position]) > 0;
    }
  }

  // ---- Calling again and again ----

  /** The positions picked in a row, each invalidated before the next call. */
  ghost predicate IsDrained(scope: Scope, list: seq<nat>, picks: seq<nat>)
    requires Known(scope, list)
    decreases |picks|
  {
    if picks == [] then true
    else
      && IsFirstGreatest(scope, list, picks[0])
      && (InvalidatedKnown(scope, list, picks[0]);
          IsDrained(scope, list[picks[0] := INVALID_INDEX], picks[1..]))
  }

  lemma InvalidatedKnown(scope: Scope, list: seq<nat>, k: nat)
    requires Known(scope, list) && k < |list|
    ensures Known(scope, list[k := INVALID_INDEX])
  {
    var next := list[k := INVALID_INDEX];
    forall idx | idx in next && Considered(scope, idx) ensures idx in scope.arps {
      assert idx in list;
    }
  }

  /** What comes before: a greater level, or the same level further to the front. */
  predicate Before(scope: Scope, list: seq<nat>, i: nat, j: nat)
    requires Known(scope, list) && i < |list| && j < |list|
  {
    || Level(scope, list[i]) > Level(scope, list[j])
    || (Level(scope, list[i]) == Level(scope, list[j]) && i < j)
  }

  /**
    Repeated pre-emption goes through the services to be pre-empted by level,
    the list's order deciding between equals, and takes none twice.
  */
  lemma {:induction false} PicksOrdered(scope: Scope, list: seq<nat>, picks: seq<nat>)
    requires Known(scope, list) && IsDrained(scope, list, picks)
    ensures forall i | 0 <= i < |picks| :: picks[i] < |list| && Level(scope, list[picks[i]]) > 0
    ensures forall i, j | 0 <= i < j < |picks| :: Before(scope, list, picks[i], picks[j])
    decreases |picks|
  {
    if picks == [] {
    } else {
      var k := picks[0];
      var next := list[k := INVALID_INDEX];
      InvalidatedKnown(scope, list, k);
      PicksOrdered(scope, next, picks[1..]);
      forall i | 0 < i < |picks|
        ensures picks[i] < |list| && picks[i] != k && list[picks[i]] == next[picks[i]]
        ensures Before(scope, list, k, picks[i])
      {
        assert picks[i] == picks[1..][i-1];
        assert Level(scope, next[picks[i]]) > 0;
      }
      forall i, j | 0 < i < j < |picks| ensures Before(scope, list, picks[i], picks[j]) {
        assert Before(scope, next, picks[1..][i-1], picks[1..][j-1]);
      }
    }
  }

  /** So the services left over all come after those taken. */
  lemma {:induction false} LeftOverComesAfter(scope: Scope, list: seq<nat>, picks: seq<nat>, i: nat, j: nat)
    requires Known(scope, list) && IsDrained(scope, list, picks)
    requires i < |picks| && j < |list| && j !in picks
    ensures picks[i] < |list| && Before(scope, list, picks[i], j)
    decreases |picks|
  {
    var k := picks[0];
    assert k in picks;
    if i == 0 {
    } else {
      var next := list[k := INVALID_INDEX];
      InvalidatedKnown(scope, list, k);
      assert forall x | x in picks[1..] :: x in picks;
      LeftOverComesAfter(scope, next, picks[1..], i - 1, j);
      PicksOrdered(scope, list, picks);
      PicksOrdered(scope, next, picks[1..]);
      assert picks[i] == picks[1..][i-1];
      assert picks[i] != k;
    }
  }

  // ---- Who is picked ----

  /** A service of the list that may be pre-empted: vulnerable, of level 1 or more, and of the area if there is one. */
  predicate Eligible(scope: Scope, list: seq<nat>, i: nat) {
    && i < |list| && list[i] != 0 && list[i] in scope.arps
    && (scope.area == None || list[i] in scope.area.value)
    && scope.arps[list[i]].vulnerable && scope.arps[list[i]].level >= 1
  }

  /** The pick is eligible, no eligible one has a greater level, and none in front of it the same. */
  lemma PickIs(scope: Scope, list: seq<nat>, k: nat)
    requires Known(scope, list) && k < |list|
    ensures IsFirstGreatest(scope, list, k) <==>
            && Eligible(scope, list, k)
            && forall i: nat | Eligible(scope, list, i) ::
                 && scope.arps[list[i]].level <= scope.arps[list[k]].level
                 && (i < k ==> scope.arps[list[i]].level < scope.arps[list[k]].level)
  {
    forall i: nat | i < |list|
      ensures Level(scope, list[i]) > 0 <==> Eligible(scope, list, i)
      ensures Level(scope, list[i]) > 0 ==> Level(scope, list[i]) == scope.arps[list[i]].level
    {
      assert list[i] in list;
    }
  }

  /** There is nothing to pre-empt exactly if nothing is eligible. */
  lemma NothingIff(scope: Scope, list: seq<nat>)
    requires Known(scope, list)
    ensures NothingToPreempt(scope, list) <==> forall i: nat :: !Eligible(scope, list, i)
  {
    forall i: nat | i < |list| ensures Level(scope, list[i]) > 0 <==> Eligible(scope, list, i) {
      assert list[i] in list;
    }
  }
}
