/** Small definitions shared by the model's modules. */
module Common {

  datatype Option<+T> = None | Some(value: T)

  const U32 := 0x1_0000_0000
  const U8 := 0x100

  /** The elements of a sequence. */
  function Elems<T>(xs: seq<T>): set<T> {
    set x | x in xs
  }

  ghost predicate Distinct<T>(xs: seq<T>) {
    forall i, j | 0 <= i < j < |xs| :: xs[i] != xs[j]
  }

  /**
    Appending to one of the fixed 256-entry arrays whose length is kept in a
    uint8_t: the 256th entry is written, and the length wraps to zero.
  */
  function AppendU8<T>(xs: seq<T>, x: T): seq<T> {
    if |xs| + 1 == U8 then [] else xs + [x]
  }

  function AppendAllU8<T>(xs: seq<T>, ys: seq<T>): seq<T>
    decreases |ys|
  {
    if ys == [] then xs else AppendAllU8(AppendU8(xs, ys[0]), ys[1..])
  }

  /** What is left of entries appended with AppendU8 to an empty array: those since the last wrap. */
  function SinceWrap<T>(xs: seq<T>): seq<T> {
    xs[|xs| - |xs| % U8..]
  }

  lemma SinceWrapSnoc<T>(xs: seq<T>, x: T)
    ensures SinceWrap(xs + [x]) == AppendU8(SinceWrap(xs), x)
  {
    var n := |xs|;
    assert (n + 1) % U8 == if n % U8 == U8 - 1 then 0 else n % U8 + 1;
    assert xs + [x] == xs[..n - n % U8] + (SinceWrap(xs) + [x]);
  }

  lemma {:induction false} AppendAllU8Snoc<T>(xs: seq<T>, ys: seq<T>, y: T)
    ensures AppendAllU8(xs, ys + [y]) == AppendU8(AppendAllU8(xs, ys), y)
    decreases |ys|
  {
    if ys == [] {
      assert ([] + [y])[1..] == [];
    } else {
      assert (ys + [y])[1..] == ys[1..] + [y];
      AppendAllU8Snoc(AppendU8(xs, ys[0]), ys[1..], y);
    }
  }

  /** Appending many entries leaves those since the last wrap. */
  lemma {:induction false} AppendAllU8IsSinceWrap<T>(xs: seq<T>, ys: seq<T>)
    requires |xs| < U8
    ensures AppendAllU8(xs, ys) == SinceWrap(xs + ys)
    decreases |ys|
  {
    if ys == [] {
      assert xs + ys == xs;
    } else {
      var init, last := ys[..|ys|-1], ys[|ys|-1];
      AppendAllU8IsSinceWrap(xs, init);
      AppendAllU8Snoc(xs, init, last);
      SinceWrapSnoc(xs + init, last);
      assert init + [last] == ys && (xs + init) + [last] == xs + ys;
    }
  }

  lemma ElemsStep<T>(xs: seq<T>, i: nat)
    requires i < |xs|
    ensures Elems(xs[..i+1]) == Elems(xs[..i]) + {xs[i]}
  {
    assert xs[..i+1] == xs[..i] + [xs[i]];
  }

  lemma DistinctFresh<T>(xs: seq<T>, i: nat)
    requires i < |xs| && Distinct(xs)
    ensures xs[i] !in Elems(xs[..i])
  {
  }

  lemma {:induction false} CardSubset<T>(a: set<T>, b: set<T>)
    requires a <= b
    ensures |a| <= |b|
    ensures |a| == |b| ==> a == b
  {
    if a == {} {
    } else {
      var x :| x in a;
      CardSubset(a - {x}, b - {x});
      assert a == (a - {x}) + {x} && b == (b - {x}) + {x};
    }
  }

  lemma {:induction false} DistinctCard<T>(xs: seq<T>)
    requires Distinct(xs)
    ensures |Elems(xs)| == |xs|
  {
    if xs == [] {
      assert Elems(xs) == {};
    } else {
      var n := |xs| - 1;
      DistinctCard(xs[..n]);
      ElemsStep(xs, n);
      DistinctFresh(xs, n);
      assert xs[..n+1] == xs;
    }
  }

  /** A set of naturals in [lo, hi) has at most hi - lo elements. */
  lemma {:induction false} CardBelow(xs: set<nat>, lo: nat, hi: nat)
    requires lo <= hi
    requires forall x | x in xs :: lo <= x < hi
    ensures |xs| <= hi - lo
    decreases hi - lo
  {
    if lo == hi {
      assert xs == {};
    } else {
      CardBelow(xs - {hi - 1}, lo, hi - 1);
      CardSubset(xs, (xs - {hi - 1}) + {hi - 1});
    }
  }
}
