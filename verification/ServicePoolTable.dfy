/** The service pool of the MCE application, updated in place. */
module ServicePoolTable {
  import opened Common
  import opened ServicePool

  class Table {
    const slots: array<Slot>
    var order: seq<nat>
    var byIndex: map<nat, nat>
    var byTeid: map<nat, nat>
    var managed: nat

    ghost function View(): Pool
      reads this, slots
    {
      Pool(slots[..], order, byIndex, byTeid, managed)
    }

    constructor (n: nat)
      ensures fresh(slots) && View() == Initial(n)
    {
      slots := new Slot[n](_ => CLEARED);
      order, byIndex, byTeid, managed := [], map[], map[], 0;
      new;
      for i := 0 to n
        invariant order == seq(i, k => k)
        invariant byIndex == map[] && byTeid == map[] && managed == 0
        invariant forall k | 0 <= k < n :: slots[k] == CLEARED
      {
        order := order + [i];
      }
    }

    /** Takes the slot at the head, unless it is in use. */
    method Register(tmgi: Tmgi, area: nat, teid: nat) returns (slot: Option<nat>)
      requires Enabled(View(), Event.Register(tmgi, area, teid))
      modifies this`order, this`byIndex, this`byTeid, this`managed, slots
      ensures View() == Step(old(View()), Event.Register(tmgi, area, teid))
      ensures slot == if Refuses(old(View()), tmgi, area) then None else Some(old(order[0]))
    {
      if Index(tmgi, area) == INVALID_INDEX {
        return None;
      }
      var i := order[0];
      var head := slots[i];
      if Index(head.tmgi, head.area) != INVALID_INDEX {
        return None;
      }
      order := order[1..];
      slots[i] := CLEARED;
      slots[i] := Slot(tmgi, area, teid, 0);
      order := order + [i];
      Insert(i);
      assert slots[..] == old(slots[..])[i := Slot(tmgi, area, teid, 0)];
      return Some(i);
    }

    /** Enters a slot into both tables. */
    method Insert(i: nat)
      requires i < slots.Length
      requires slots[i].teid != INVALID_TEID
      requires Index(slots[i].tmgi, slots[i].area) !in byIndex
      requires slots[i].teid in byTeid ==> byTeid[slots[i].teid] == Index(slots[i].tmgi, slots[i].area)
      modifies this`byIndex, this`byTeid, this`managed
      ensures byIndex == old(byIndex)[Index(slots[i].tmgi, slots[i].area) := i]
      ensures byTeid == old(byTeid)[slots[i].teid := Index(slots[i].tmgi, slots[i].area)]
      ensures managed == (old(managed) + 1) % U32
    {
      var idx := Index(slots[i].tmgi, slots[i].area);
      byIndex := byIndex[idx := i];
      byTeid := byTeid[slots[i].teid := idx];
      managed := (managed + 1) % U32;
    }

    method FindByIndex(idx: nat) returns (slot: Option<nat>)
      ensures slot == ByIndex(View(), idx)
    {
      slot := if idx in byIndex then Some(byIndex[idx]) else None;
    }

    method FindByTeid(teid: nat) returns (slot: Option<nat>)
      ensures slot == ByTeid(View(), teid)
    {
      slot := None;
      if teid in byTeid {
        slot := FindByIndex(byTeid[teid]);
      }
    }

    /** Takes a slot out of the list, wherever it is. */
    method Unlink(i: nat)
      requires i in order
      modifies this`order
      ensures order == Without(old(order), i)
    {
      var k := 0;
      while order[k] != i
        invariant k < |order| && i !in order[..k]
        decreases |order| - k
      {
        assert order[..k+1] == order[..k] + [order[k]];
        assert order[..|order|] == order;
        k := k + 1;
      }
      WithoutAt(order, k);
      order := order[..k] + order[k+1..];
    }

    /** Clears a slot and makes it the next one to be taken. */
    method Release(i: nat)
      requires i < slots.Length && i in order
      modifies this`order, slots
      ensures View() == Released(old(View()), i)
    {
      Unlink(i);
      slots[i] := CLEARED;
      order := [i] + order;
      assert slots[..] == old(slots[..])[i := CLEARED];
    }

    method Remove(tmgi: Tmgi, area: nat, teid: nat)
      requires Enabled(View(), Event.Remove(tmgi, area, teid))
      modifies this`order, this`byIndex, this`byTeid, this`managed, slots
      ensures View() == Step(old(View()), Event.Remove(tmgi, area, teid))
    {
      var second := teid;
      if teid != INVALID_TEID {
        byTeid := byTeid - {teid};
      }
      var idx := Index(tmgi, area);
      if idx != INVALID_INDEX {
        var i := byIndex[idx];
        byIndex := byIndex - {idx};
        second := if teid == INVALID_TEID then slots[i].teid else INVALID_TEID;
        Release(i);
      }
      if second != INVALID_TEID {
        byTeid := byTeid - {second};
      }
      managed := (managed + U32 - 1) % U32;
    }

    method Update(tmgi: Tmgi, oldArea: nat, newArea: nat, flow: nat)
      requires Enabled(View(), Event.Update(tmgi, oldArea, newArea, flow))
      modifies this`byIndex, slots
      ensures View() == Step(old(View()), Event.Update(tmgi, oldArea, newArea, flow))
    {
      var idx := Index(tmgi, oldArea);
      var i := byIndex[idx];
      if oldArea != newArea {
        if idx != INVALID_INDEX {
          byIndex := byIndex - {idx};
          slots[i] := slots[i].(area := newArea);
          var moved := Index(tmgi, newArea);
          var taken := moved in byIndex;
          byIndex := byIndex[moved := i];
          if taken {
            assert slots[..] == old(slots[..])[i := slots[i]];
            return;
          }
        }
      }
      slots[i] := slots[i].(flow := flow);
      assert slots[..] == old(slots[..])[i := slots[i]];
    }
  }
}
