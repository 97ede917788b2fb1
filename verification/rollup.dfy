/** The three-level rollup of app_efetividade1.py: criterion mean = mean of its
    defined indicator means, principle mean = mean of its defined criterion
    means, scope mean = mean of its defined principle means. Undefined children
    are skipped, never counted as zero. */
module Rollup {
  import opened Wrappers
  import opened Averages
  import opened OrderedDict
  import opened Hierarchy

  type IndicatorMeans = map<string, Option<real>>

  /** notas_indicadores.get(ind, np.nan) */
  function IndicatorValue(means: IndicatorMeans, ind: string): Option<real>
  {
    if ind in means then means[ind] else None
  }

  function IndicatorValues(means: IndicatorMeans, inds: seq<string>): (vs: seq<Option<real>>)
    ensures |vs| == |inds|
    ensures forall i :: 0 <= i < |inds| ==> vs[i] == IndicatorValue(means, inds[i])
  {
    seq(|inds|, i requires 0 <= i < |inds| => IndicatorValue(means, inds[i]))
  }

  /** A criterion has a mean unless none of its indicators has one. */
  function CriterionMean(means: IndicatorMeans, inds: seq<string>): (m: Option<real>)
    ensures m.None? <==> forall i :: 0 <= i < |inds| ==> IndicatorValue(means, inds[i]).None?
  {
    NoneDefined(IndicatorValues(means, inds));
    Mean(Defined(IndicatorValues(means, inds)))
  }

  function CriterionMeanList(means: IndicatorMeans, cs: Criteria): (ms: seq<Option<real>>)
    ensures |ms| == |cs|
    ensures forall i :: 0 <= i < |cs| ==> ms[i] == CriterionMean(means, cs[i].1)
  {
    seq(|cs|, i requires 0 <= i < |cs| => CriterionMean(means, cs[i].1))
  }

  /** A principle has a mean unless none of its criteria has one. */
  function PrincipleMean(means: IndicatorMeans, cs: Criteria): (m: Option<real>)
    ensures m.None? <==> forall i :: 0 <= i < |cs| ==> CriterionMean(means, cs[i].1).None?
  {
    NoneDefined(CriterionMeanList(means, cs));
    Mean(Defined(CriterionMeanList(means, cs)))
  }

  function PrincipleMeanList(means: IndicatorMeans, ps: Principles): (ms: seq<Option<real>>)
    ensures |ms| == |ps|
    ensures forall i :: 0 <= i < |ps| ==> ms[i] == PrincipleMean(means, ps[i].1)
  {
    seq(|ps|, i requires 0 <= i < |ps| => PrincipleMean(means, ps[i].1))
  }

  /** A scope has a mean unless none of its principles has one. */
  function ScopeMean(means: IndicatorMeans, ps: Principles): (m: Option<real>)
    ensures m.None? <==> forall i :: 0 <= i < |ps| ==> PrincipleMean(means, ps[i].1).None?
  {
    NoneDefined(PrincipleMeanList(means, ps));
    Mean(Defined(PrincipleMeanList(means, ps)))
  }

  /** media_ambitos: each scope with a defined mean, in hierarchy order. */
  function ScopeMeans(means: IndicatorMeans, tree: Tree): Dict<string, real>
  {
    if tree == [] then []
    else
      var prev := ScopeMeans(means, tree[..|tree| - 1]);
      var (a, ps) := tree[|tree| - 1];
      match ScopeMean(means, ps)
      case None => prev
      case Some(m) => Put(prev, a, m)
  }

  /** Every scope in media_ambitos is a scope of the hierarchy, listed with that
      scope's mean of means. */
  lemma {:induction false} ScopeMeansFrom(means: IndicatorMeans, tree: Tree, a: string)
    ensures Get(ScopeMeans(means, tree), a).Some? ==>
              exists ps :: (a, ps) in tree && ScopeMean(means, ps) == Get(ScopeMeans(means, tree), a)
  {
    if tree != [] {
      var init := tree[..|tree| - 1];
      var (b, ps) := tree[|tree| - 1];
      assert tree == init + [(b, ps)];
      ScopeMeansFrom(means, init, a);
      if Get(ScopeMeans(means, tree), a).Some? {
        if a == b && ScopeMean(means, ps).Some? {
          assert (a, ps) in tree;
        } else {
          assert Get(ScopeMeans(means, tree), a) == Get(ScopeMeans(means, init), a);
          var qs :| (a, qs) in init && ScopeMean(means, qs) == Get(ScopeMeans(means, init), a);
          assert (a, qs) in tree;
        }
      }
    }
  }

  lemma CriterionMeansExtend(means: IndicatorMeans, cs: Criteria, k: nat)
    requires k < |cs|
    ensures Defined(CriterionMeanList(means, cs[..k + 1]))
         == Defined(CriterionMeanList(means, cs[..k]))
            + (var m := CriterionMean(means, cs[k].1); if m.Some? then [m.value] else [])
  {
    var m := CriterionMean(means, cs[k].1);
    assert CriterionMeanList(means, cs[..k + 1]) == CriterionMeanList(means, cs[..k]) + [m];
    DefinedSnoc(CriterionMeanList(means, cs[..k]), m);
  }

  lemma PrincipleMeansExtend(means: IndicatorMeans, ps: Principles, j: nat)
    requires j < |ps|
    ensures Defined(PrincipleMeanList(means, ps[..j + 1]))
         == Defined(PrincipleMeanList(means, ps[..j]))
            + (var m := PrincipleMean(means, ps[j].1); if m.Some? then [m.value] else [])
  {
    var m := PrincipleMean(means, ps[j].1);
    assert PrincipleMeanList(means, ps[..j + 1]) == PrincipleMeanList(means, ps[..j]) + [m];
    DefinedSnoc(PrincipleMeanList(means, ps[..j]), m);
  }

  /** The innermost loop: criterios_medias of one principle. */
  method CriterionMeans(criteria: Criteria, means: IndicatorMeans) returns (criterionMeans: seq<real>)
    ensures criterionMeans == Defined(CriterionMeanList(means, criteria))
  {
    criterionMeans := [];
    var k := 0;
    while k < |criteria|
      invariant 0 <= k <= |criteria|
      invariant criterionMeans == Defined(CriterionMeanList(means, criteria[..k]))
    {
      var m := CriterionMean(means, criteria[k].1);
      CriterionMeansExtend(means, criteria, k);
      if m.Some? {
        criterionMeans := criterionMeans + [m.value];
      }
      k := k + 1;
    }
    assert criteria[..k] == criteria;
  }

  /** The middle loop: principios_medias of one scope. */
  method PrincipleMeans(principles: Principles, means: IndicatorMeans) returns (principleMeans: seq<real>)
    ensures principleMeans == Defined(PrincipleMeanList(means, principles))
  {
    principleMeans := [];
    var j := 0;
    while j < |principles|
      invariant 0 <= j <= |principles|
      invariant principleMeans == Defined(PrincipleMeanList(means, principles[..j]))
    {
      var criterionMeans := CriterionMeans(principles[j].1, means);
      PrincipleMeansExtend(means, principles, j);
      if criterionMeans != [] {
        principleMeans := principleMeans + [Mean(criterionMeans).value];
      }
      j := j + 1;
    }
    assert principles[..j] == principles;
  }

  /** The outer loop filling media_ambitos. */
  method RollupMeans(tree: Tree, means: IndicatorMeans) returns (result: Dict<string, real>)
    ensures result == ScopeMeans(means, tree)
  {
    result := [];
    var i := 0;
    while i < |tree|
      invariant 0 <= i <= |tree|
      invariant result == ScopeMeans(means, tree[..i])
    {
      var scope, principles := tree[i].0, tree[i].1;
      var principleMeans := PrincipleMeans(principles, means);
      assert tree[..i + 1][..i] == tree[..i];
      if principleMeans != [] {
        result := Put(result, scope, Mean(principleMeans).value);
      }
      i := i + 1;
    }
    assert tree[..i] == tree;
  }

  // ---------------------------------------------------------------------
  // Properties of the rollup

  /** With distinct scope names, a scope is in media_ambitos exactly when it has a
      defined mean (at least one defined principle), and then with that mean. */
  lemma {:induction false} ScopeMeansLookup(means: IndicatorMeans, tree: Tree, a: string)
    requires DistinctKeys(tree)
    ensures Get(ScopeMeans(means, tree), a)
         == match Get(tree, a) case None => None case Some(ps) => ScopeMean(means, ps)
  {
    if tree != [] {
      var init := tree[..|tree| - 1];
      var (b, ps) := tree[|tree| - 1];
      assert tree == init + [(b, ps)];
      assert DistinctKeys(init);
      ScopeMeansLookup(means, init, a);
      GetSnoc(init, b, ps, a);
    }
  }

  /** Indicator means within [0, 3] give scope means within [0, 3]. */
  lemma {:induction false} ScopeMeansWithinScale(means: IndicatorMeans, tree: Tree)
    requires forall ind :: ind in means && means[ind].Some? ==> 0.0 <= means[ind].value <= 3.0
    ensures forall e :: e in ScopeMeans(means, tree) ==> 0.0 <= e.1 <= 3.0
  {
    if tree != [] {
      var init := tree[..|tree| - 1];
      var (a, ps) := tree[|tree| - 1];
      ScopeMeansWithinScale(means, init);
      var m := ScopeMean(means, ps);
      if m.Some? {
        ScopeMeanWithinScale(means, ps);
      }
    }
  }

  lemma ScopeMeanWithinScale(means: IndicatorMeans, ps: Principles)
    requires forall ind :: ind in means && means[ind].Some? ==> 0.0 <= means[ind].value <= 3.0
    ensures ScopeMean(means, ps).Some? ==> 0.0 <= ScopeMean(means, ps).value <= 3.0
  {
    var pl := PrincipleMeanList(means, ps);
    forall i | 0 <= i < |pl| && pl[i].Some? ensures 0.0 <= pl[i].value <= 3.0 {
      var cl := CriterionMeanList(means, ps[i].1);
      forall j | 0 <= j < |cl| && cl[j].Some? ensures 0.0 <= cl[j].value <= 3.0 {
        var vs := IndicatorValues(means, ps[i].1[j].1);
        DefinedWithin(vs, 0.0, 3.0);
        MeanWithin(Defined(vs), 0.0, 3.0);
      }
      DefinedWithin(cl, 0.0, 3.0);
      MeanWithin(Defined(cl), 0.0, 3.0);
    }
    DefinedWithin(pl, 0.0, 3.0);
    if Defined(pl) != [] {
      MeanWithin(Defined(pl), 0.0, 3.0);
    }
  }

  lemma CriterionMeanListAppend(means: IndicatorMeans, x: Criteria, y: Criteria)
    ensures CriterionMeanList(means, x + y) == CriterionMeanList(means, x) + CriterionMeanList(means, y)
  {
    var l, lx, ly := CriterionMeanList(means, x + y), CriterionMeanList(means, x), CriterionMeanList(means, y);
    forall i | 0 <= i < |l| ensures l[i] == (lx + ly)[i] {
      if i < |x| {
        assert (x + y)[i] == x[i];
      } else {
        assert (x + y)[i] == y[i - |x|];
      }
    }
  }

  lemma PrincipleMeanListAppend(means: IndicatorMeans, x: Principles, y: Principles)
    ensures PrincipleMeanList(means, x + y) == PrincipleMeanList(means, x) + PrincipleMeanList(means, y)
  {
    var l, lx, ly := PrincipleMeanList(means, x + y), PrincipleMeanList(means, x), PrincipleMeanList(means, y);
    forall i | 0 <= i < |l| ensures l[i] == (lx + ly)[i] {
      if i < |x| {
        assert (x + y)[i] == x[i];
      } else {
        assert (x + y)[i] == y[i - |x|];
      }
    }
  }

  /** A criterion whose indicators all have undefined means (every answer "NA",
      or missing from the table) has no mean, and inserting it anywhere among a
      principle's criteria leaves the principle mean as it was: it is skipped,
      not counted as zero. */
  lemma AllNACriterionSkipped(means: IndicatorMeans, cs1: Criteria, c: string, inds: seq<string>, cs2: Criteria)
    requires forall i :: 0 <= i < |inds| ==> IndicatorValue(means, inds[i]).None?
    ensures CriterionMean(means, inds).None?
    ensures PrincipleMean(means, cs1 + [(c, inds)] + cs2) == PrincipleMean(means, cs1 + cs2)
  {
    NoneDefined(IndicatorValues(means, inds));
    var l1, l2 := CriterionMeanList(means, cs1), CriterionMeanList(means, cs2);
    CriterionMeanListAppend(means, cs1 + [(c, inds)], cs2);
    CriterionMeanListAppend(means, cs1, [(c, inds)]);
    assert CriterionMeanList(means, [(c, inds)]) == [None];
    CriterionMeanListAppend(means, cs1, cs2);
    DefinedSkipsNone(l1, l2);
  }

  /** Likewise a principle with no defined criterion is skipped by its scope. */
  lemma UndefinedPrincipleSkipped(means: IndicatorMeans, ps1: Principles, p: string, cs: Criteria, ps2: Principles)
    requires PrincipleMean(means, cs).None?
    ensures ScopeMean(means, ps1 + [(p, cs)] + ps2) == ScopeMean(means, ps1 + ps2)
  {
    var l1, l2 := PrincipleMeanList(means, ps1), PrincipleMeanList(means, ps2);
    PrincipleMeanListAppend(means, ps1 + [(p, cs)], ps2);
    PrincipleMeanListAppend(means, ps1, [(p, cs)]);
    assert PrincipleMeanList(means, [(p, cs)]) == [None];
    PrincipleMeanListAppend(means, ps1, ps2);
    DefinedSkipsNone(l1, l2);
  }

  // ---------------------------------------------------------------------
  // Mean of means, not mean of leaves

  /** A principle with a one-indicator criterion scoring 3 and a three-indicator
      criterion scoring 0 throughout. */
  const UnevenMeans: IndicatorMeans := map["1.1" := Some(3.0), "2.1" := Some(0.0), "2.2" := Some(0.0), "2.3" := Some(0.0)]
  const UnevenCriteria: Criteria := [("C1", ["1.1"]), ("C2", ["2.1", "2.2", "2.3"])]

  lemma UnevenCriterionSums()
    ensures Sum([3.0]) == 3.0 && Sum([0.0, 0.0, 0.0]) == 0.0
    ensures Sum([3.0, 0.0]) == 3.0 && Sum([3.0, 0.0, 0.0, 0.0]) == 3.0
  {
    var z: seq<real> := [0.0, 0.0, 0.0];
    assert z[..2] == [0.0, 0.0] && z[..2][..1] == [0.0] && z[..2][..1][..0] == [];
    var one: seq<real> := [3.0];
    assert one[..0] == [];
    var pair: seq<real> := [3.0, 0.0];
    assert pair[..1] == one;
    var leaves: seq<real> := [3.0, 0.0, 0.0, 0.0];
    assert leaves[..3] == [3.0, 0.0, 0.0] && leaves[..3][..2] == pair;
  }

  lemma UnevenCriterionMeans()
    ensures CriterionMean(UnevenMeans, ["1.1"]) == Some(3.0)
    ensures CriterionMean(UnevenMeans, ["2.1", "2.2", "2.3"]) == Some(0.0)
  {
    UnevenCriterionSums();
    var v1 := IndicatorValues(UnevenMeans, ["1.1"]);
    assert v1 == [Some(3.0)] && v1[..0] == [];
    var v2 := IndicatorValues(UnevenMeans, ["2.1", "2.2", "2.3"]);
    assert v2 == [Some(0.0), Some(0.0), Some(0.0)];
    assert v2[..2] == [Some(0.0), Some(0.0)] && v2[..2][..1] == [Some(0.0)] && v2[..2][..1][..0] == [];
    assert Defined(v2[..2][..1]) == [0.0];
    assert Defined(v2[..2]) == [0.0, 0.0];
    assert Defined(v2) == [0.0, 0.0, 0.0];
  }

  /** Equal weight per criterion: the principle mean is 1.5, while the mean of
      its four indicator means would be 0.75. */
  lemma MeanOfMeansNotLeafMean()
    ensures PrincipleMean(UnevenMeans, UnevenCriteria) == Some(1.5)
    ensures Mean([3.0, 0.0, 0.0, 0.0]) == Some(0.75)
  {
    UnevenCriterionSums();
    UnevenCriterionMeans();
    var l := CriterionMeanList(UnevenMeans, UnevenCriteria);
    assert l == [Some(3.0), Some(0.0)];
    assert l[..1] == [Some(3.0)] && l[..1][..0] == [];
    assert Defined(l) == [3.0, 0.0];
  }
}
