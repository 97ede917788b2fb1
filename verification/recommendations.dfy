/** The recommendation list of the effectiveness panel: every scope whose mean
    is below 1.5 gets one row, carrying the first recommendation text filed for
    that scope, or a fixed sentinel when none is filed. */
module Recommendations {
  import opened OrderedDict

  /** A scope mean strictly below this is "low effectiveness". */
  const LowThreshold: real := 1.5

  const NoRecommendation := "Sem recomendação disponível"

  /** One row of the recommendations spreadsheet (columns Âmbito, Recomendação). */
  datatype RecommendationRow = RecommendationRow(scope: string, text: string)

  /** One row of the output table (columns Âmbito, Média, Recomendação). */
  datatype Advice = Advice(scope: string, mean: real, text: string)

  /** The index of the first spreadsheet row filed under `scope`, or `|table|`. */
  function FirstFor(table: seq<RecommendationRow>, scope: string): (k: nat)
    ensures k <= |table|
    ensures forall i :: 0 <= i < k ==> table[i].scope != scope
    ensures k < |table| ==> table[k].scope == scope
  {
    if table == [] then 0
    else if table[0].scope == scope then 0
    else 1 + FirstFor(table[1..], scope)
  }

  /** `recomendacao[0]` of the filtered column, or the sentinel when the filter is empty. */
  function TextFor(table: seq<RecommendationRow>, scope: string): (text: string)
    ensures (forall i :: 0 <= i < |table| ==> table[i].scope != scope) ==> text == NoRecommendation
    ensures (exists i :: 0 <= i < |table| && table[i].scope == scope) ==>
      exists k :: 0 <= k < |table| && table[k] == RecommendationRow(scope, text)
                  && forall i :: 0 <= i < k ==> table[i].scope != scope
  {
    var k := FirstFor(table, scope);
    if k < |table| then table[k].text else NoRecommendation
  }

  /** recomendacoes: the advice rows, in the order of the scope means. */
  function Advices(scopeMeans: Dict<string, real>, table: seq<RecommendationRow>): (advice: seq<Advice>)
    ensures |advice| <= |scopeMeans|
    ensures forall r :: r in advice ==> r.mean < LowThreshold && (r.scope, r.mean) in scopeMeans
  {
    if scopeMeans == [] then []
    else
      var (a, m) := scopeMeans[|scopeMeans| - 1];
      assert forall e :: e in scopeMeans[..|scopeMeans| - 1] ==> e in scopeMeans;
      Advices(scopeMeans[..|scopeMeans| - 1], table)
        + (if m < LowThreshold then [Advice(a, m, TextFor(table, a))] else [])
  }

  /** The filter-then-take-first lookup of one scope's text. */
  method LookUpText(table: seq<RecommendationRow>, scope: string) returns (text: string)
    ensures text == TextFor(table, scope)
    ensures text != NoRecommendation ==> exists i :: 0 <= i < |table| && table[i] == RecommendationRow(scope, text)
  {
    var i := 0;
    while i < |table|
      invariant 0 <= i <= |table|
      invariant forall j :: 0 <= j < i ==> table[j].scope != scope
      invariant i <= FirstFor(table, scope)
    {
      if table[i].scope == scope {
        return table[i].text;
      }
      i := i + 1;
    }
    return NoRecommendation;
  }

  /** The loop over the scope means. */
  method Recommend(scopeMeans: Dict<string, real>, table: seq<RecommendationRow>) returns (advice: seq<Advice>)
    ensures advice == Advices(scopeMeans, table)
  {
    advice := [];
    var i := 0;
    while i < |scopeMeans|
      invariant 0 <= i <= |scopeMeans|
      invariant advice == Advices(scopeMeans[..i], table)
    {
      assert scopeMeans[..i + 1][..i] == scopeMeans[..i];
      var (a, m) := scopeMeans[i];
      if m < LowThreshold {
        var text := LookUpText(table, a);
        advice := advice + [Advice(a, m, text)];
      }
      i := i + 1;
    }
    assert scopeMeans[..i] == scopeMeans;
  }

  // ---------------------------------------------------------------------
  // Properties

  /** An advice row is produced exactly for a (scope, mean) entry with mean below
      1.5, and it carries that scope's text. */
  lemma {:induction false} AdviceIff(scopeMeans: Dict<string, real>, table: seq<RecommendationRow>, adv: Advice)
    ensures adv in Advices(scopeMeans, table)
        <==> (adv.scope, adv.mean) in scopeMeans && adv.mean < LowThreshold && adv.text == TextFor(table, adv.scope)
  {
    if scopeMeans != [] {
      var init := scopeMeans[..|scopeMeans| - 1];
      var last := scopeMeans[|scopeMeans| - 1];
      assert scopeMeans == init + [last];
      var row := if last.1 < LowThreshold then [Advice(last.0, last.1, TextFor(table, last.0))] else [];
      assert Advices(scopeMeans, table) == Advices(init, table) + row;
      AdviceIff(init, table, adv);
    }
  }

  /** No advice at all exactly when every scope mean is at least 1.5 (the
      "all satisfactory" message). */
  lemma {:induction false} NoAdviceIffAllSatisfactory(scopeMeans: Dict<string, real>, table: seq<RecommendationRow>)
    ensures Advices(scopeMeans, table) == [] <==> forall e :: e in scopeMeans ==> e.1 >= LowThreshold
  {
    if scopeMeans != [] {
      var init := scopeMeans[..|scopeMeans| - 1];
      var last := scopeMeans[|scopeMeans| - 1];
      assert scopeMeans == init + [last];
      NoAdviceIffAllSatisfactory(init, table);
    }
  }

  /** The advice rows of one scope. */
  function AdviceFor(advice: seq<Advice>, scope: string): seq<Advice>
  {
    if advice == [] then []
    else
      var last := advice[|advice| - 1];
      AdviceFor(advice[..|advice| - 1], scope) + (if last.scope == scope then [last] else [])
  }

  lemma {:induction false} AdviceForAppend(x: seq<Advice>, y: seq<Advice>, scope: string)
    ensures AdviceFor(x + y, scope) == AdviceFor(x, scope) + AdviceFor(y, scope)
  {
    if y != [] {
      assert (x + y)[..|x + y| - 1] == x + y[..|y| - 1];
      assert (x + y)[|x + y| - 1] == y[|y| - 1];
      AdviceForAppend(x, y[..|y| - 1], scope);
    } else {
      assert x + y == x;
    }
  }

  /** With distinct scopes (as media_ambitos has), each scope below 1.5 gets
      exactly one row and every other scope none. */
  lemma {:induction false} OneAdvicePerLowScope(scopeMeans: Dict<string, real>, table: seq<RecommendationRow>, a: string)
    requires DistinctKeys(scopeMeans)
    ensures Get(scopeMeans, a).None? ==> AdviceFor(Advices(scopeMeans, table), a) == []
    ensures Get(scopeMeans, a).Some? ==>
      var m := Get(scopeMeans, a).value;
      AdviceFor(Advices(scopeMeans, table), a) == if m < LowThreshold then [Advice(a, m, TextFor(table, a))] else []
  {
    if scopeMeans != [] {
      var init := scopeMeans[..|scopeMeans| - 1];
      var b, m := scopeMeans[|scopeMeans| - 1].0, scopeMeans[|scopeMeans| - 1].1;
      assert scopeMeans == init + [(b, m)];
      assert DistinctKeys(init);
      OneAdvicePerLowScope(init, table, a);
      GetSnoc(init, b, m, a);
      AdviceForLast(init, b, m, table, a);
      if b == a {
        assert Get(init, a).None?;
      }
    }
  }

  /** One more scope `b` adds its row, if any, to the advice of `b` only. */
  lemma AdviceForLast(init: Dict<string, real>, b: string, m: real, table: seq<RecommendationRow>, a: string)
    ensures AdviceFor(Advices(init + [(b, m)], table), a)
         == AdviceFor(Advices(init, table), a) + if b == a && m < LowThreshold then [Advice(b, m, TextFor(table, b))] else []
  {
    var row := if m < LowThreshold then [Advice(b, m, TextFor(table, b))] else [];
    assert (init + [(b, m)])[..|init|] == init;
    assert Advices(init + [(b, m)], table) == Advices(init, table) + row;
    AdviceForAppend(Advices(init, table), row, a);
    assert AdviceFor(row, a) == if b == a then row else [] by {
      if row != [] {
        assert row[..0] == [];
      }
    }
  }
}
