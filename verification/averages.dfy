/** Exact arithmetic means (numpy's np.mean / pandas' .mean() without floating
    point). An empty list has no mean: `None` stands for NaN. */
module Averages {
  import opened Wrappers

  function Sum(xs: seq<real>): real
  {
    if xs == [] then 0.0 else Sum(xs[..|xs| - 1]) + xs[|xs| - 1]
  }

  /** The arithmetic mean; undefined exactly for the empty list. */
  function Mean(xs: seq<real>): (m: Option<real>)
    ensures m.None? <==> xs == []
  {
    if xs == [] then None else Some(Sum(xs) / (|xs| as real))
  }

  /** The mean times the count is the sum. */
  lemma MeanTimesCount(xs: seq<real>)
    requires xs != []
    ensures Mean(xs).value * (|xs| as real) == Sum(xs)
  {
  }

  /** The defined entries of a list of possibly undefined means, in order
      (the `not np.isnan(m)` filter). */
  function Defined(ms: seq<Option<real>>): (ds: seq<real>)
    ensures |ds| <= |ms|
  {
    if ms == [] then []
    else
      var last := ms[|ms| - 1];
      assert ms == ms[..|ms| - 1] + [last];
      Defined(ms[..|ms| - 1]) + (if last.Some? then [last.value] else [])
  }

  /** The defined entries are exactly the values of the `Some` entries. */
  lemma {:induction false} DefinedMembers(ms: seq<Option<real>>)
    ensures forall x :: x in Defined(ms) <==> Some(x) in ms
  {
    if ms != [] {
      var init := ms[..|ms| - 1];
      DefinedMembers(init);
      assert ms == init + [ms[|ms| - 1]];
    }
  }

  predicate Within(xs: seq<real>, lo: real, hi: real)
  {
    forall i :: 0 <= i < |xs| ==> lo <= xs[i] <= hi
  }

  lemma {:induction false} SumAppend(xs: seq<real>, ys: seq<real>)
    ensures Sum(xs + ys) == Sum(xs) + Sum(ys)
    decreases |ys|
  {
    if ys != [] {
      var last := |ys| - 1;
      assert (xs + ys)[..|xs + ys| - 1] == xs + ys[..last];
      SumAppend(xs, ys[..last]);
    } else {
      assert xs + ys == xs;
    }
  }

  lemma {:induction false} SumWithin(xs: seq<real>, lo: real, hi: real)
    requires Within(xs, lo, hi)
    ensures lo * (|xs| as real) <= Sum(xs) <= hi * (|xs| as real)
  {
    if xs != [] {
      var init, last := xs[..|xs| - 1], xs[|xs| - 1];
      var k := |init| as real;
      SumWithin(init, lo, hi);
      assert lo <= last <= hi;
      assert lo * (|xs| as real) == lo * k + lo;
      assert hi * (|xs| as real) == hi * k + hi;
      assert Sum(xs) == Sum(init) + last;
    }
  }

  /** A mean of values in [lo, hi] lies in [lo, hi]. */
  lemma MeanWithin(xs: seq<real>, lo: real, hi: real)
    requires xs != [] && Within(xs, lo, hi)
    ensures lo <= Mean(xs).value <= hi
  {
    var n := |xs| as real;
    var m := Mean(xs).value;
    MeanTimesCount(xs);
    SumWithin(xs, lo, hi);
  }

  /** Filtering out undefined means commutes with concatenation. */
  lemma {:induction false} DefinedAppend(a: seq<Option<real>>, b: seq<Option<real>>)
    ensures Defined(a + b) == Defined(a) + Defined(b)
    decreases |b|
  {
    if b == [] {
      assert a + b == a;
    } else {
      var last := |b| - 1;
      assert (a + b)[..|a + b| - 1] == a + b[..last];
      DefinedAppend(a, b[..last]);
    }
  }

  lemma DefinedSnoc(ms: seq<Option<real>>, m: Option<real>)
    ensures Defined(ms + [m]) == Defined(ms) + (if m.Some? then [m.value] else [])
  {
    assert (ms + [m])[..|ms + [m]| - 1] == ms;
  }

  /** Defined values of possibly undefined means within [lo, hi] stay there. */
  lemma DefinedWithin(ms: seq<Option<real>>, lo: real, hi: real)
    requires forall i :: 0 <= i < |ms| && ms[i].Some? ==> lo <= ms[i].value <= hi
    ensures Within(Defined(ms), lo, hi)
  {
    var ds := Defined(ms);
    DefinedMembers(ms);
    forall i | 0 <= i < |ds| ensures lo <= ds[i] <= hi {
      assert Some(ds[i]) in ms;
    }
  }

  /** Nothing is defined exactly when every mean is undefined. */
  lemma {:induction false} NoneDefined(ms: seq<Option<real>>)
    ensures Defined(ms) == [] <==> forall i :: 0 <= i < |ms| ==> ms[i].None?
  {
    if ms != [] {
      var init, last := ms[..|ms| - 1], ms[|ms| - 1];
      NoneDefined(init);
      assert forall i :: 0 <= i < |init| ==> init[i] == ms[i];
      if last.Some? {
        assert Defined(ms) == Defined(init) + [last.value];
      } else {
        assert Defined(ms) == Defined(init) + [];
      }
    }
  }

  /** An undefined mean anywhere in the list is skipped. */
  lemma DefinedSkipsNone(a: seq<Option<real>>, b: seq<Option<real>>)
    ensures Defined(a + [None] + b) == Defined(a + b)
  {
    DefinedAppend(a + [None], b);
    DefinedSnoc(a, None);
    DefinedAppend(a, b);
  }
}
