/** The per-scope Student t-test of the effectiveness panel: every non-"NA"
    answer given to any indicator of a scope is pooled, and the one-sample test
    against 1.5 is run only when the pool holds at least two answers. */
module TTestGate {
  import opened Wrappers
  import opened OrderedDict
  import opened Indicators
  import opened Hierarchy

  /** The population mean of the null hypothesis (the middle of the 0..3 scale). */
  const PopulationMean: real := 1.5

  /** The smallest pool the test is run on. */
  const MinPool: nat := 2

  /** One line of the result table: scope, t statistic, p-value and pool size. */
  datatype TTestRow = TTestRow(scope: string, t: real, p: real, n: nat)

  /** The one-sample t-test of a pool against a population mean, as
      (t statistic, p-value). Its numerics are not modelled; it is a parameter
      of the model, always applied with `PopulationMean`. */
  type TTest = (seq<Grade>, real) -> (real, real)

  /** The non-"NA" answers of the indicators of one criterion, in order. */
  function CriterionPool(entries: map<string, seq<Answer>>, inds: seq<string>): seq<Grade>
    requires forall x :: x in inds ==> x in entries
  {
    if inds == [] then []
    else CriterionPool(entries, inds[..|inds| - 1]) + Grades(entries[inds[|inds| - 1]])
  }

  /** `g` is in the pool of criterion entry `ce`. */
  ghost predicate CriterionPoolTerm(entries: map<string, seq<Answer>>, ce: (string, seq<string>), g: Grade)
  {
    (forall x :: x in ce.1 ==> x in entries) && g in CriterionPool(entries, ce.1)
  }

  /** The non-"NA" answers of every indicator of one principle, in order. */
  function PrinciplePool(entries: map<string, seq<Answer>>, cs: Criteria): seq<Grade>
    requires CriteriaWithin(cs, entries.Keys)
  {
    if cs == [] then []
    else
      var last := cs[|cs| - 1];
      assert last in cs;
      PrinciplePool(entries, cs[..|cs| - 1]) + CriterionPool(entries, last.1)
  }

  /** todas_notas: the non-"NA" answers of every indicator of one scope, in order. */
  function ScopePool(entries: map<string, seq<Answer>>, ps: Principles): seq<Grade>
    requires PrinciplesWithin(ps, entries.Keys)
  {
    if ps == [] then []
    else
      var last := ps[|ps| - 1];
      assert last in ps;
      ScopePool(entries, ps[..|ps| - 1]) + PrinciplePool(entries, last.1)
  }

  /** The row a scope contributes: one when its pool is large enough, none otherwise. */
  function ScopeRow(scope: string, pool: seq<Grade>, test: TTest): seq<TTestRow>
  {
    if |pool| >= MinPool then [TTestRow(scope, test(pool, PopulationMean).0, test(pool, PopulationMean).1, |pool|)] else []
  }

  /** teste_t_resultados: the rows of every scope of the hierarchy, in order. */
  function TTestRows(entries: map<string, seq<Answer>>, tree: Tree, test: TTest): (rows: seq<TTestRow>)
    requires LeavesWithin(tree, entries.Keys)
    ensures |rows| <= |tree|
    ensures forall r :: r in rows ==> r.n >= MinPool
  {
    if tree == [] then []
    else
      var last := tree[|tree| - 1];
      assert last in tree;
      TTestRows(entries, tree[..|tree| - 1], test) + ScopeRow(last.0, ScopePool(entries, last.1), test)
  }

  // ---------------------------------------------------------------------
  // The loops

  lemma CriterionPoolNext(entries: map<string, seq<Answer>>, inds: seq<string>, l: nat)
    requires forall x :: x in inds ==> x in entries
    requires l < |inds|
    ensures CriterionPool(entries, inds[..l + 1]) == CriterionPool(entries, inds[..l]) + Grades(entries[inds[l]])
  {
    assert inds[..l + 1][..l] == inds[..l];
  }

  method PoolCriterion(entries: map<string, seq<Answer>>, inds: seq<string>) returns (pool: seq<Grade>)
    requires forall x :: x in inds ==> x in entries
    ensures pool == CriterionPool(entries, inds)
  {
    pool := [];
    var l := 0;
    while l < |inds|
      invariant 0 <= l <= |inds|
      invariant pool == CriterionPool(entries, inds[..l])
    {
      CriterionPoolNext(entries, inds, l);
      pool := pool + Grades(entries[inds[l]]);
      l := l + 1;
    }
    assert inds[..l] == inds;
  }

  lemma PrinciplePoolNext(entries: map<string, seq<Answer>>, cs: Criteria, k: nat)
    requires CriteriaWithin(cs, entries.Keys)
    requires k < |cs|
    ensures CriteriaWithin(cs[..k], entries.Keys) && CriteriaWithin(cs[..k + 1], entries.Keys)
    ensures forall x :: x in cs[k].1 ==> x in entries
    ensures PrinciplePool(entries, cs[..k + 1]) == PrinciplePool(entries, cs[..k]) + CriterionPool(entries, cs[k].1)
  {
    assert cs[..k + 1][..k] == cs[..k];
    assert cs[k] in cs;
  }

  method PoolPrinciple(entries: map<string, seq<Answer>>, cs: Criteria) returns (pool: seq<Grade>)
    requires CriteriaWithin(cs, entries.Keys)
    ensures pool == PrinciplePool(entries, cs)
  {
    pool := [];
    var k := 0;
    while k < |cs|
      invariant 0 <= k <= |cs|
      invariant pool == PrinciplePool(entries, cs[..k])
    {
      PrinciplePoolNext(entries, cs, k);
      var more := PoolCriterion(entries, cs[k].1);
      pool := pool + more;
      k := k + 1;
    }
    assert cs[..k] == cs;
  }

  lemma ScopePoolNext(entries: map<string, seq<Answer>>, ps: Principles, j: nat)
    requires PrinciplesWithin(ps, entries.Keys)
    requires j < |ps|
    ensures PrinciplesWithin(ps[..j], entries.Keys) && PrinciplesWithin(ps[..j + 1], entries.Keys)
    ensures CriteriaWithin(ps[j].1, entries.Keys)
    ensures ScopePool(entries, ps[..j + 1]) == ScopePool(entries, ps[..j]) + PrinciplePool(entries, ps[j].1)
  {
    assert ps[..j + 1][..j] == ps[..j];
    assert ps[j] in ps;
  }

  method PoolScope(entries: map<string, seq<Answer>>, ps: Principles) returns (pool: seq<Grade>)
    requires PrinciplesWithin(ps, entries.Keys)
    ensures pool == ScopePool(entries, ps)
  {
    pool := [];
    var j := 0;
    while j < |ps|
      invariant 0 <= j <= |ps|
      invariant pool == ScopePool(entries, ps[..j])
    {
      ScopePoolNext(entries, ps, j);
      var more := PoolPrinciple(entries, ps[j].1);
      pool := pool + more;
      j := j + 1;
    }
    assert ps[..j] == ps;
  }

  /** One more scope of the hierarchy adds that scope's row, if any. */
  lemma TTestRowsSnoc(entries: map<string, seq<Answer>>, tree: Tree, i: nat, test: TTest)
    requires LeavesWithin(tree, entries.Keys)
    requires i < |tree|
    ensures LeavesWithin(tree[..i], entries.Keys) && LeavesWithin(tree[..i + 1], entries.Keys)
    ensures PrinciplesWithin(tree[i].1, entries.Keys)
    ensures TTestRows(entries, tree[..i + 1], test)
         == TTestRows(entries, tree[..i], test) + ScopeRow(tree[i].0, ScopePool(entries, tree[i].1), test)
  {
    var next := tree[..i + 1];
    assert next[..i] == tree[..i] && next[i] == tree[i];
    assert tree[i] in tree;
  }

  /** One scope's turn of the loop: pool its answers and test them when there
      are enough. */
  method TestScope(entries: map<string, seq<Answer>>, scope: string, principles: Principles, test: TTest)
    returns (row: seq<TTestRow>)
    requires PrinciplesWithin(principles, entries.Keys)
    ensures row == ScopeRow(scope, ScopePool(entries, principles), test)
  {
    var pool := PoolScope(entries, principles);
    row := [];
    if |pool| >= MinPool {
      var result := test(pool, PopulationMean);
      row := [TTestRow(scope, result.0, result.1, |pool|)];
    }
  }

  /** The t-test table, one scope after another. */
  method TTestByScope(entries: map<string, seq<Answer>>, tree: Tree, test: TTest) returns (rows: seq<TTestRow>)
    requires LeavesWithin(tree, entries.Keys)
    ensures rows == TTestRows(entries, tree, test)
  {
    rows := [];
    var i := 0;
    assert tree[..0] == [];
    while i < |tree|
      invariant 0 <= i <= |tree|
      invariant LeavesWithin(tree[..i], entries.Keys)
      invariant rows == TTestRows(entries, tree[..i], test)
    {
      TTestRowsSnoc(entries, tree, i, test);
      var row := TestScope(entries, tree[i].0, tree[i].1, test);
      rows := rows + row;
      i := i + 1;
    }
    assert tree[..i] == tree;
  }

  // ---------------------------------------------------------------------
  // Properties

  /** The rows of `rows` that belong to `scope`. */
  function RowsFor(rows: seq<TTestRow>, scope: string): seq<TTestRow>
  {
    if rows == [] then []
    else RowsFor(rows[..|rows| - 1], scope) + (if rows[|rows| - 1].scope == scope then [rows[|rows| - 1]] else [])
  }

  lemma {:induction false} RowsForAppend(x: seq<TTestRow>, y: seq<TTestRow>, scope: string)
    ensures RowsFor(x + y, scope) == RowsFor(x, scope) + RowsFor(y, scope)
  {
    if y != [] {
      assert (x + y)[..|x + y| - 1] == x + y[..|y| - 1];
      assert (x + y)[|x + y| - 1] == y[|y| - 1];
      RowsForAppend(x, y[..|y| - 1], scope);
    } else {
      assert x + y == x;
    }
  }

  /** With distinct scope names: a scope gets exactly one row when it is in the
      hierarchy and its pool holds at least two answers, and then that row carries
      the test's result on the pool and the pool's size; every other scope gets none. */
  lemma {:induction false} TTestRowsFor(entries: map<string, seq<Answer>>, tree: Tree, test: TTest, a: string)
    requires LeavesWithin(tree, entries.Keys)
    requires DistinctKeys(tree)
    ensures Get(tree, a).None? ==> RowsFor(TTestRows(entries, tree, test), a) == []
    ensures Get(tree, a).Some? ==>
      var pool := ScopePool(entries, Get(tree, a).value);
      RowsFor(TTestRows(entries, tree, test), a)
        == if |pool| >= MinPool then [TTestRow(a, test(pool, PopulationMean).0, test(pool, PopulationMean).1, |pool|)] else []
  {
    if tree != [] {
      var n := |tree| - 1;
      assert tree == tree[..n] + [(tree[n].0, tree[n].1)];
      TTestRowsFor(entries, tree[..n], test, a);
      TTestRowsForStep(entries, tree[..n], tree[n].0, tree[n].1, test, a);
    }
  }

  /** The inductive step of TTestRowsFor: what holds for a hierarchy `init`
      extends to `init` followed by the scope `b` with principles `ps`. */
  lemma TTestRowsForStep(entries: map<string, seq<Answer>>, init: Tree, b: string, ps: Principles, test: TTest, a: string)
    requires LeavesWithin(init + [(b, ps)], entries.Keys)
    requires DistinctKeys(init + [(b, ps)])
    requires Get(init, a).None? ==> RowsFor(TTestRows(entries, init, test), a) == []
    requires Get(init, a).Some? ==>
      var pool := ScopePool(entries, Get(init, a).value);
      RowsFor(TTestRows(entries, init, test), a)
        == if |pool| >= MinPool then [TTestRow(a, test(pool, PopulationMean).0, test(pool, PopulationMean).1, |pool|)] else []
    ensures Get(init + [(b, ps)], a).None? ==> RowsFor(TTestRows(entries, init + [(b, ps)], test), a) == []
    ensures Get(init + [(b, ps)], a).Some? ==>
      var pool := ScopePool(entries, Get(init + [(b, ps)], a).value);
      RowsFor(TTestRows(entries, init + [(b, ps)], test), a)
        == if |pool| >= MinPool then [TTestRow(a, test(pool, PopulationMean).0, test(pool, PopulationMean).1, |pool|)] else []
  {
    var tree := init + [(b, ps)];
    assert DistinctKeys(init) by {
      assert forall i :: 0 <= i < |init| ==> init[i] == tree[i];
    }
    TTestRowsForLast(entries, init, b, ps, test, a);
    GetSnoc(init, b, ps, a);
    if b == a {
      assert Get(init, a).None?;
    }
  }

  /** The rows of scope `a` after one more scope `b`: those before, and the
      row of `b` itself when `b` is `a`. */
  lemma TTestRowsForLast(entries: map<string, seq<Answer>>, init: Tree, b: string, ps: Principles, test: TTest, a: string)
    requires LeavesWithin(init + [(b, ps)], entries.Keys)
    ensures LeavesWithin(init, entries.Keys) && PrinciplesWithin(ps, entries.Keys)
    ensures RowsFor(TTestRows(entries, init + [(b, ps)], test), a)
         == RowsFor(TTestRows(entries, init, test), a) + if b == a then ScopeRow(b, ScopePool(entries, ps), test) else []
  {
    var tree := init + [(b, ps)];
    var n := |init|;
    assert tree[..n] == init;
    TTestRowsSnoc(entries, tree, n, test);
    assert tree[..n + 1] == tree;
    var row := ScopeRow(b, ScopePool(entries, ps), test);
    RowsForAppend(TTestRows(entries, init, test), row, a);
    RowsForScopeRow(b, ScopePool(entries, ps), test, a);
  }

  lemma RowsForScopeRow(b: string, pool: seq<Grade>, test: TTest, a: string)
    ensures RowsFor(ScopeRow(b, pool, test), a) == if b == a then ScopeRow(b, pool, test) else []
  {
    var row := ScopeRow(b, pool, test);
    if row != [] {
      assert row[..0] == [];
    }
  }

  /** Every row belongs to a scope of the hierarchy and reports that scope's
      pool size. */
  lemma {:induction false} TTestRowsFrom(entries: map<string, seq<Answer>>, tree: Tree, test: TTest, r: TTestRow)
    requires LeavesWithin(tree, entries.Keys)
    ensures r in TTestRows(entries, tree, test) ==>
              exists ps :: (r.scope, ps) in tree && PrinciplesWithin(ps, entries.Keys) && r.n == |ScopePool(entries, ps)|
  {
    if tree != [] {
      var init, last := tree[..|tree| - 1], tree[|tree| - 1];
      assert tree == init + [last];
      assert last in tree;
      TTestRowsFrom(entries, init, test, r);
      if r in TTestRows(entries, init, test) {
        var ps :| (r.scope, ps) in init && PrinciplesWithin(ps, entries.Keys) && r.n == |ScopePool(entries, ps)|;
        assert (r.scope, ps) in tree;
      }
    }
  }

  lemma {:induction false} PrinciplePoolMembers(entries: map<string, seq<Answer>>, cs: Criteria, g: Grade)
    requires CriteriaWithin(cs, entries.Keys)
    ensures g in PrinciplePool(entries, cs) <==> exists ce :: ce in cs && CriterionPoolTerm(entries, ce, g)
  {
    if cs != [] {
      var init, last := cs[..|cs| - 1], cs[|cs| - 1];
      assert cs == init + [last];
      PrinciplePoolMembers(entries, init, g);
      assert last in cs;
      if exists ce :: ce in cs && CriterionPoolTerm(entries, ce, g) {
        var ce :| ce in cs && CriterionPoolTerm(entries, ce, g);
        if ce != last {
          assert ce in init;
        }
      }
    }
  }

  /** A scope's pool holds exactly the grades pooled by some criterion of one of
      its principles. */
  lemma {:induction false} ScopePoolMembers(entries: map<string, seq<Answer>>, ps: Principles, g: Grade)
    requires PrinciplesWithin(ps, entries.Keys)
    ensures g in ScopePool(entries, ps) <==>
              exists pe, ce :: pe in ps && ce in pe.1 && CriterionPoolTerm(entries, ce, g)
  {
    if ps != [] {
      var init, last := ps[..|ps| - 1], ps[|ps| - 1];
      assert ps == init + [last];
      assert last in ps;
      ScopePoolMembers(entries, init, g);
      PrinciplePoolMembers(entries, last.1, g);
      if exists pe, ce :: pe in ps && ce in pe.1 && CriterionPoolTerm(entries, ce, g) {
        var pe, ce :| pe in ps && ce in pe.1 && CriterionPoolTerm(entries, ce, g);
        if pe != last {
          assert pe in init;
        }
      }
    }
  }

  /** A criterion's pool holds exactly the grades some user gave one of its indicators. */
  lemma {:induction false} CriterionPoolMembers(entries: map<string, seq<Answer>>, inds: seq<string>, g: Grade)
    requires forall x :: x in inds ==> x in entries
    ensures g in CriterionPool(entries, inds) <==> exists x :: x in inds && Scored(g) in entries[x]
  {
    if inds != [] {
      var init := inds[..|inds| - 1];
      var last := inds[|inds| - 1];
      assert inds == init + [last];
      CriterionPoolMembers(entries, init, g);
      if Scored(g) in entries[last] {
        assert last in inds;
      }
      if exists x :: x in inds && Scored(g) in entries[x] {
        var x :| x in inds && Scored(g) in entries[x];
        if x != last {
          assert x in init;
        }
      }
    }
  }

  /** Every answer given to the indicators of a criterion, "NA" included, indicator by indicator. */
  function CriterionAnswers(entries: map<string, seq<Answer>>, inds: seq<string>): (all: seq<Answer>)
    requires forall x :: x in inds ==> x in entries
    ensures forall v :: v in all <==> exists x :: x in inds && v in entries[x]
  {
    if inds == [] then []
    else
      var init, last := inds[..|inds| - 1], inds[|inds| - 1];
      assert inds == init + [last];
      CriterionAnswers(entries, init) + entries[last]
  }

  /** A grade occurs in a criterion's pool exactly as often as users gave it to
      the criterion's indicators: nothing but the "NA" answers is dropped. */
  lemma {:induction false} CriterionPoolCount(entries: map<string, seq<Answer>>, inds: seq<string>, g: Grade)
    requires forall x :: x in inds ==> x in entries
    ensures multiset(CriterionPool(entries, inds))[g] == multiset(CriterionAnswers(entries, inds))[Scored(g)]
  {
    if inds != [] {
      var init := inds[..|inds| - 1];
      assert forall x :: x in init ==> x in inds;
      CriterionPoolCount(entries, init, g);
    }
  }
}
