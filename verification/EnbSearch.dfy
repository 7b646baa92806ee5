/** The search through a hash table that collects every match in an array of fixed size. */
module EnbSearch {
  import opened Common

  function Matches<T>(keys: set<T>, wanted: T -> bool): set<T> {
    set k | k in keys && wanted(k)
  }

  /**
    The elements that are wanted, in hash order; none if there are more of them
    than the array has entries, and the search writes past its end.
  */
  method CollectAll<T(==)>(keys: set<T>, wanted: T -> bool, size: nat) returns (list: Option<seq<T>>)
    ensures list.Some? <==> |Matches(keys, wanted)| <= size
    ensures list.Some? ==> Distinct(list.value) && Elems(list.value) == Matches(keys, wanted)
  {
    var elements: seq<T> := [];
    var rest := keys;
    while rest != {}
      invariant rest <= keys
      invariant Distinct(elements) && |elements| <= size
      invariant forall k :: k in elements <==> k in keys && k !in rest && wanted(k)
      decreases |rest|
    {
      var k :| k in rest;
      rest := rest - {k};
      if wanted(k) {
        if |elements| == size {
          OneTooMany(elements, k, Matches(keys, wanted));
          return None;
        }
        elements := elements + [k];
      }
    }
    DistinctCard(elements);
    assert Elems(elements) == Matches(keys, wanted);
    return Some(elements);
  }

  lemma OneTooMany<T>(list: seq<T>, k: T, all: set<T>)
    requires Distinct(list) && k !in list && k in all && forall x | x in list :: x in all
    ensures |all| > |list|
  {
    DistinctCard(list);
    CardSubset(Elems(list) + {k}, all);
  }
}
