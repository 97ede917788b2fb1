/** The per-scope effectiveness report of the mosaic dashboard: each
    respondent's mean score within a scope is one sample point, the one-sided
    test against 2.0 is run only on two or more respondents, and the scope is
    classified from the sample mean and the p-value. */
module ScopeAnalysis {
  import opened Wrappers
  import opened Averages
  import opened Responses

  /** The effectiveness bar the scope mean is held to. */
  const Bar: real := 2.0

  /** The significance level. */
  const Alpha: real := 0.05

  /** The p-value reported when the test is not run. */
  const NoTestP: real := 1.0

  datatype Status = Efetivo | Incerto | Baixa

  /** The status rule: effective when the mean reaches the bar significantly,
      uncertain when it reaches it without significance, low otherwise. */
  function StatusOf(mean: real, p: real): (st: Status)
    ensures st == Efetivo <==> mean >= Bar && p < Alpha
    ensures st == Incerto <==> mean >= Bar && p >= Alpha
    ensures st == Baixa <==> mean < Bar
  {
    if mean >= Bar && p < Alpha then Efetivo
    else if mean >= Bar then Incerto
    else Baixa
  }

  /** One row of the results table (rounding for display is not modelled). */
  datatype ScopeResult = ScopeResult(scope: string, mean: real, n: nat, p: real, status: Status)

  /** The one-sided one-sample t-test of a sample against a population mean,
      as its p-value; its numerics are not modelled. */
  type PValue = (seq<real>, real) -> real

  /** The merged rows without their indicator: (respondent, score, scope). */
  function WithoutIndicator(joined: seq<Joined>): (t: seq<(string, real, Option<string>)>)
    ensures |t| == |joined|
    ensures forall i :: 0 <= i < |joined| ==> t[i] == (joined[i].nome, joined[i].nota, joined[i].scope)
  {
    seq(|joined|, i requires 0 <= i < |joined| => (joined[i].nome, joined[i].nota, joined[i].scope))
  }

  /** The (respondent, score) pairs filed under `scope`: `df_merged[df_merged['Âmbito'] == scope]`.
      Each pair occurs as often as the merged rows of that scope carry it. */
  function ScopeData(joined: seq<Joined>, scope: string): (data: seq<(string, real)>)
    ensures forall e :: e in data <==> exists j :: j in joined && j.scope == Some(scope) && e == (j.nome, j.nota)
  {
    if joined == [] then []
    else
      var last := joined[|joined| - 1];
      assert joined == joined[..|joined| - 1] + [last];
      ScopeData(joined[..|joined| - 1], scope) + (if last.scope == Some(scope) then [(last.nome, last.nota)] else [])
  }

  /** Each (respondent, score) pair occurs in a scope's data exactly as often
      as the merged rows filed under that scope carry it. */
  lemma {:induction false} ScopeDataCount(joined: seq<Joined>, scope: string)
    ensures forall n, x :: multiset(ScopeData(joined, scope))[(n, x)] == multiset(WithoutIndicator(joined))[(n, x, Some(scope))]
  {
    if joined != [] {
      var init, last := joined[..|joined| - 1], joined[|joined| - 1];
      assert joined == init + [last];
      assert WithoutIndicator(joined) == WithoutIndicator(init) + [(last.nome, last.nota, last.scope)];
      ScopeDataCount(init, scope);
    }
  }

  function Names(data: seq<(string, real)>): (names: seq<string>)
    ensures |names| == |data|
    ensures forall i :: 0 <= i < |data| ==> names[i] == data[i].0
  {
    seq(|data|, i requires 0 <= i < |data| => data[i].0)
  }

  /** The scores one respondent gave within the data, in order. */
  function NotesOf(data: seq<(string, real)>, nome: string): (notes: seq<real>)
    ensures notes != [] <==> nome in Names(data)
  {
    if data == [] then []
    else
      var last := data[|data| - 1];
      assert data == data[..|data| - 1] + [last];
      assert Names(data) == Names(data[..|data| - 1]) + [last.0];
      NotesOf(data[..|data| - 1], nome) + (if last.0 == nome then [last.1] else [])
  }

  /** A respondent's scores occur in NotesOf exactly as often as the pairs
      (respondent, score) occur in the data. */
  lemma {:induction false} NotesOfCount(data: seq<(string, real)>, nome: string)
    ensures forall x :: multiset(NotesOf(data, nome))[x] == multiset(data)[(nome, x)]
  {
    if data != [] {
      var init, last := data[..|data| - 1], data[|data| - 1];
      assert data == init + [last];
      NotesOfCount(init, nome);
    }
  }

  /** The respondents of the data, each once (groupby's keys). */
  function Respondents(data: seq<(string, real)>): seq<string>
  {
    Unique(Names(data))
  }

  /** `groupby("Nome")['Nota'].mean().values`: one mean per respondent. */
  function Sample(data: seq<(string, real)>): (sample: seq<real>)
    ensures |sample| == |Respondents(data)|
  {
    var rs := Respondents(data);
    seq(|rs|, k requires 0 <= k < |rs| => Mean(NotesOf(data, rs[k])).value)
  }

  /** The analysis of one scope; `None` when the scope has no data (`continue`). */
  function AnalyseScope(joined: seq<Joined>, scope: string, test: PValue): (r: Option<ScopeResult>)
    ensures r.None? <==> ScopeData(joined, scope) == []
    ensures r.Some? ==>
              && r.value.scope == scope
              && r.value.n == |Respondents(ScopeData(joined, scope))| && r.value.n >= 1
              && r.value.status == StatusOf(r.value.mean, r.value.p)
              && Mean(Sample(ScopeData(joined, scope))) == Some(r.value.mean)
              && (r.value.n > 1 ==> r.value.p == test(Sample(ScopeData(joined, scope)), Bar))
              && (r.value.n <= 1 ==> r.value.p == NoTestP)
  {
    var data := ScopeData(joined, scope);
    if data == [] then None
    else
      assert data[0].0 in Names(data);
      var sample := Sample(data);
      var n := |sample|;
      var meanVal := if n > 0 then Mean(sample).value else 0.0;
      var p := if n > 1 then test(sample, Bar) else NoTestP;
      Some(ScopeResult(scope, meanVal, n, p, StatusOf(meanVal, p)))
  }

  /** results: the rows of the scopes, in the given order. */
  function Analysis(joined: seq<Joined>, scopes: seq<string>, test: PValue): (results: seq<ScopeResult>)
    ensures |results| <= |scopes|
    ensures forall r :: r in results ==> r.scope in scopes
  {
    if scopes == [] then []
    else
      var r := AnalyseScope(joined, scopes[|scopes| - 1], test);
      Analysis(joined, scopes[..|scopes| - 1], test) + (if r.Some? then [r.value] else [])
  }

  /** The scopes of the catalogue in order of first appearance: `df_indicators['Âmbito'].unique()`. */
  function CatalogueScopes(catalogue: seq<CatalogueRow>): seq<string>
  {
    Unique(seq(|catalogue|, i requires 0 <= i < |catalogue| => catalogue[i].scope))
  }

  /** One pass of the report loop: the row of one scope, if it has data. */
  method AnalyseOne(joined: seq<Joined>, scope: string, test: PValue) returns (r: Option<ScopeResult>)
    ensures r == AnalyseScope(joined, scope, test)
  {
    var data := ScopeData(joined, scope);
    if data == [] {
      return None;
    }
    var sample := Sample(data);
    var n := |sample|;
    var meanVal := if n > 0 then Mean(sample).value else 0.0;
    var p := NoTestP;
    if n > 1 {
      p := test(sample, Bar);
    }
    r := Some(ScopeResult(scope, meanVal, n, p, StatusOf(meanVal, p)));
  }

  lemma AnalysisNext(joined: seq<Joined>, scopes: seq<string>, i: nat, test: PValue)
    requires i < |scopes|
    ensures Analysis(joined, scopes[..i + 1], test)
         == Analysis(joined, scopes[..i], test)
            + (if AnalyseScope(joined, scopes[i], test).Some? then [AnalyseScope(joined, scopes[i], test).value] else [])
  {
    assert scopes[..i + 1][..i] == scopes[..i];
  }

  /** The report loop over the scopes of the catalogue. */
  method AnalyseScopes(joined: seq<Joined>, catalogue: seq<CatalogueRow>, test: PValue) returns (results: seq<ScopeResult>)
    ensures results == Analysis(joined, CatalogueScopes(catalogue), test)
  {
    var scopes := CatalogueScopes(catalogue);
    results := [];
    var i := 0;
    while i < |scopes|
      invariant 0 <= i <= |scopes|
      invariant results == Analysis(joined, scopes[..i], test)
    {
      AnalysisNext(joined, scopes, i, test);
      var r := AnalyseOne(joined, scopes[i], test);
      if r.Some? {
        results := results + [r.value];
      }
      i := i + 1;
    }
    assert scopes[..i] == scopes;
  }

  // ---------------------------------------------------------------------
  // The prepared table

  /** The merged table the analysis reads: the responses of one mosaic, coerced,
      unpivoted over the question columns and joined to the catalogue. */
  function Prepared(rows: seq<Response>, mosaic: string, questions: seq<string>, catalogue: seq<CatalogueRow>): seq<Joined>
    requires HasColumns(rows, |questions|)
  {
    var sel := SelectMosaic(rows, mosaic);
    SelectKeepsColumns(rows, mosaic, |questions|);
    CoercedKeepsColumns(sel, |questions|);
    MergeLeft(Melt(Coerced(sel), questions), catalogue)
  }

  lemma SelectKeepsColumns(rows: seq<Response>, mosaic: string, n: nat)
    requires HasColumns(rows, n)
    ensures HasColumns(SelectMosaic(rows, mosaic), n)
  {
    var sel := SelectMosaic(rows, mosaic);
    forall i | 0 <= i < |sel| ensures n <= |sel[i].answers| {
      assert sel[i] in sel;
      var k :| 0 <= k < |rows| && rows[k] == sel[i];
    }
  }

  /** The catalogue files `indicator` under `scope`. */
  predicate Files(catalogue: seq<CatalogueRow>, indicator: string, scope: string)
  {
    exists c :: c in catalogue && c.indicator == indicator && c.scope == scope
  }

  /** A raw answer of the mosaic, by respondent `n` under question column `j`,
      that coerces to `x` and whose question the catalogue files under `scope`. */
  predicate AnsweredUnder(rows: seq<Response>, mosaic: string, questions: seq<string>, catalogue: seq<CatalogueRow>,
                          scope: string, n: string, x: real, i: int, j: int)
    requires HasColumns(rows, |questions|)
  {
    && 0 <= i < |rows| && 0 <= j < |questions|
    && rows[i].mosaico == mosaic && rows[i].nome == n
    && Coerce(rows[i].answers[j]) == Some(x)
    && Files(catalogue, questions[j], scope)
  }

  /** A pair of a scope's data comes from an observation of the long table
      whose indicator the catalogue files under the scope. */
  lemma PreparedObservation(rows: seq<Response>, mosaic: string, questions: seq<string>, catalogue: seq<CatalogueRow>,
                            scope: string, n: string, x: real)
    requires HasColumns(rows, |questions|)
    requires (n, x) in ScopeData(Prepared(rows, mosaic, questions, catalogue), scope)
    ensures HasColumns(Coerced(SelectMosaic(rows, mosaic)), |questions|)
    ensures exists ind :: Files(catalogue, ind, scope) && Observation(n, ind, x) in Melt(Coerced(SelectMosaic(rows, mosaic)), questions)
  {
    var sel := SelectMosaic(rows, mosaic);
    SelectKeepsColumns(rows, mosaic, |questions|);
    CoercedKeepsColumns(sel, |questions|);
    var obs := Melt(Coerced(sel), questions);
    var jn :| jn in Prepared(rows, mosaic, questions, catalogue) && jn.scope == Some(scope) && (n, x) == (jn.nome, jn.nota);
    var c := MergeLeftScopedFrom(obs, catalogue, n, jn.indicator, x, scope);
  }

  /** An observation of the coerced long table of a mosaic is a raw answer of that mosaic. */
  lemma ObservedAnswer(rows: seq<Response>, mosaic: string, questions: seq<string>, o: Observation) returns (k: int, j: int)
    requires HasColumns(rows, |questions|)
    requires HasColumns(Coerced(SelectMosaic(rows, mosaic)), |questions|)
    requires o in Melt(Coerced(SelectMosaic(rows, mosaic)), questions)
    ensures && 0 <= k < |rows| && 0 <= j < |questions|
            && rows[k].mosaico == mosaic && rows[k].nome == o.nome
            && questions[j] == o.indicator && Coerce(rows[k].answers[j]) == Some(o.nota)
  {
    var sel := SelectMosaic(rows, mosaic);
    SelectKeepsColumns(rows, mosaic, |questions|);
    CoercedMeltMembers(sel, questions, o);
    var i :| exists j :: 0 <= i < |sel| && 0 <= j < |questions| && sel[i].nome == o.nome
                && questions[j] == o.indicator && Coerce(sel[i].answers[j]) == Some(o.nota);
    j :| 0 <= i < |sel| && 0 <= j < |questions| && sel[i].nome == o.nome
                && questions[j] == o.indicator && Coerce(sel[i].answers[j]) == Some(o.nota);
    k := SelectedRow(rows, mosaic, i);
  }

  /** The row a selected response comes from. */
  lemma SelectedRow(rows: seq<Response>, mosaic: string, i: int) returns (k: int)
    requires 0 <= i < |SelectMosaic(rows, mosaic)|
    ensures 0 <= k < |rows| && rows[k] == SelectMosaic(rows, mosaic)[i] && rows[k].mosaico == mosaic
  {
    var sel := SelectMosaic(rows, mosaic);
    assert sel[i] in sel;
    k :| 0 <= k < |rows| && rows[k] == sel[i];
  }

  lemma PreparedScopeDataFrom(rows: seq<Response>, mosaic: string, questions: seq<string>, catalogue: seq<CatalogueRow>,
                              scope: string, n: string, x: real)
    requires HasColumns(rows, |questions|)
    requires (n, x) in ScopeData(Prepared(rows, mosaic, questions, catalogue), scope)
    ensures exists i, j :: AnsweredUnder(rows, mosaic, questions, catalogue, scope, n, x, i, j)
  {
    PreparedObservation(rows, mosaic, questions, catalogue, scope, n, x);
    var ind :| Files(catalogue, ind, scope) && Observation(n, ind, x) in Melt(Coerced(SelectMosaic(rows, mosaic)), questions);
    var k, j := ObservedAnswer(rows, mosaic, questions, Observation(n, ind, x));
    assert AnsweredUnder(rows, mosaic, questions, catalogue, scope, n, x, k, j);
  }

  lemma PreparedScopeDataTo(rows: seq<Response>, mosaic: string, questions: seq<string>, catalogue: seq<CatalogueRow>,
                            scope: string, n: string, x: real, k: int, j: int)
    requires HasColumns(rows, |questions|)
    requires AnsweredUnder(rows, mosaic, questions, catalogue, scope, n, x, k, j)
    ensures (n, x) in ScopeData(Prepared(rows, mosaic, questions, catalogue), scope)
  {
    var sel := SelectMosaic(rows, mosaic);
    SelectKeepsColumns(rows, mosaic, |questions|);
    CoercedKeepsColumns(sel, |questions|);
    var obs := Melt(Coerced(sel), questions);
    var i := SelectedIndex(rows, mosaic, k);
    var o := Observation(n, questions[j], x);
    CoercedMeltTo(sel, questions, o, i, j);
    var c :| c in catalogue && c.indicator == questions[j] && c.scope == scope;
    MergeLeftScopedTo(obs, catalogue, o, c);
    var jn := Joined(n, questions[j], x, Some(scope));
    assert jn in Prepared(rows, mosaic, questions, catalogue);
    assert jn.scope == Some(scope) && (n, x) == (jn.nome, jn.nota);
  }

  /** Where a response of the mosaic stands in the selection. */
  lemma SelectedIndex(rows: seq<Response>, mosaic: string, k: int) returns (i: int)
    requires 0 <= k < |rows| && rows[k].mosaico == mosaic
    ensures 0 <= i < |SelectMosaic(rows, mosaic)| && SelectMosaic(rows, mosaic)[i] == rows[k]
  {
    var sel := SelectMosaic(rows, mosaic);
    assert rows[k] in rows;
    assert rows[k] in sel;
    i :| 0 <= i < |sel| && sel[i] == rows[k];
  }

  /** Every (respondent, score) pair of a scope's data is one raw answer of the
      selected mosaic that coerces to that score, to a question the catalogue
      files under the scope; and every such answer is in the data. */
  lemma PreparedScopeData(rows: seq<Response>, mosaic: string, questions: seq<string>, catalogue: seq<CatalogueRow>,
                          scope: string, n: string, x: real)
    requires HasColumns(rows, |questions|)
    ensures (n, x) in ScopeData(Prepared(rows, mosaic, questions, catalogue), scope)
        <==> exists i, j :: AnsweredUnder(rows, mosaic, questions, catalogue, scope, n, x, i, j)
  {
    if (n, x) in ScopeData(Prepared(rows, mosaic, questions, catalogue), scope) {
      PreparedScopeDataFrom(rows, mosaic, questions, catalogue, scope, n, x);
    }
    if exists i, j :: AnsweredUnder(rows, mosaic, questions, catalogue, scope, n, x, i, j) {
      var k, j :| AnsweredUnder(rows, mosaic, questions, catalogue, scope, n, x, k, j);
      PreparedScopeDataTo(rows, mosaic, questions, catalogue, scope, n, x, k, j);
    }
  }

  // ---------------------------------------------------------------------
  // Properties

  /** The sample has one point per distinct respondent, each respondent's mean,
      and the respondents are exactly the names in the data. */
  lemma SampleIsPerRespondent(data: seq<(string, real)>)
    ensures forall nome :: nome in Respondents(data) <==> exists e :: e in data && e.0 == nome
    ensures forall i, j :: 0 <= i < j < |Respondents(data)| ==> Respondents(data)[i] != Respondents(data)[j]
    ensures forall k :: 0 <= k < |Sample(data)| ==>
              Mean(NotesOf(data, Respondents(data)[k])) == Some(Sample(data)[k])
  {
    var names := Names(data);
    forall nome ensures nome in Respondents(data) <==> exists e :: e in data && e.0 == nome {
      if nome in names {
        var i :| 0 <= i < |names| && names[i] == nome;
        assert data[i] in data;
      }
    }
  }

  /** A row is produced for a scope exactly when the scope is listed and has data;
      its n is the number of distinct respondents, at least one. */
  lemma {:induction false} AnalysisRows(joined: seq<Joined>, scopes: seq<string>, test: PValue, r: ScopeResult)
    ensures r in Analysis(joined, scopes, test) <==> r.scope in scopes && AnalyseScope(joined, r.scope, test) == Some(r)
    ensures r in Analysis(joined, scopes, test) ==>
              ScopeData(joined, r.scope) != [] && r.n == |Respondents(ScopeData(joined, r.scope))| && r.n >= 1
  {
    if scopes != [] {
      var init := scopes[..|scopes| - 1];
      assert scopes == init + [scopes[|scopes| - 1]];
      AnalysisRows(joined, init, test, r);
    }
    if r in Analysis(joined, scopes, test) {
      var data := ScopeData(joined, r.scope);
      assert data[0].0 in Names(data);
    }
  }

  /** With at most one respondent no test is run: p is 1.0 and the scope is never
      "Efetivo". */
  lemma SmallSampleNeverEffective(joined: seq<Joined>, scope: string, test: PValue)
    requires AnalyseScope(joined, scope, test).Some?
    requires AnalyseScope(joined, scope, test).value.n <= 1
    ensures AnalyseScope(joined, scope, test).value.p == NoTestP
    ensures AnalyseScope(joined, scope, test).value.status != Efetivo
  {
  }

  /** Two respondents: one scoring 3, 3, 3 and one scoring 0. */
  const UnevenData: seq<(string, real)> := [("Ana", 3.0), ("Ana", 3.0), ("Ana", 3.0), ("Bia", 0.0)]

  /** Step of RespondentMeansDifferFromRawMean: the respondents of the example data. */
  lemma UnevenRespondents()
    ensures Respondents(UnevenData) == ["Ana", "Bia"]
  {
    var n := Names(UnevenData);
    assert n == ["Ana", "Ana", "Ana", "Bia"];
    assert n[..1] == ["Ana"] && n[..1][..0] == [];
    assert Unique(n[..1]) == ["Ana"];
    assert n[..2][..1] == n[..1];
    assert Unique(n[..2]) == ["Ana"];
    assert n[..3][..2] == n[..2];
    assert Unique(n[..3]) == ["Ana"];
    assert n[..|n| - 1] == n[..3];
  }

  /** Step of RespondentMeansDifferFromRawMean: each example respondent's scores. */
  lemma UnevenNotes()
    ensures NotesOf(UnevenData, "Ana") == [3.0, 3.0, 3.0]
    ensures NotesOf(UnevenData, "Bia") == [0.0]
  {
    var data := UnevenData;
    assert data[..1][..0] == [];
    assert NotesOf(data[..1], "Ana") == [3.0];
    assert data[..2][..1] == data[..1];
    assert NotesOf(data[..2], "Ana") == [3.0, 3.0];
    assert data[..3][..2] == data[..2];
    assert NotesOf(data[..3], "Ana") == [3.0, 3.0, 3.0];
    assert data[..|data| - 1] == data[..3];
    assert NotesOf(data[..3], "Bia") == [] by {
      assert Names(data[..3]) == ["Ana", "Ana", "Ana"];
    }
  }

  /** Step of RespondentMeansDifferFromRawMean: the sums its two means divide. */
  lemma UnevenSums()
    ensures Sum([3.0, 3.0, 3.0]) == 9.0 && Sum([0.0]) == 0.0
    ensures Sum([3.0, 0.0]) == 3.0 && Sum([3.0, 3.0, 3.0, 0.0]) == 9.0
  {
    var three: seq<real> := [3.0, 3.0, 3.0];
    assert three[..2] == [3.0, 3.0] && three[..2][..1] == [3.0] && three[..2][..1][..0] == [];
    assert Sum([3.0]) == 3.0;
    assert Sum([3.0, 3.0]) == 6.0;
    var zero: seq<real> := [0.0];
    assert zero[..0] == [];
    var pair: seq<real> := [3.0, 0.0];
    assert pair[..1] == [3.0];
    var raw: seq<real> := [3.0, 3.0, 3.0, 0.0];
    assert raw[..3] == three;
  }

  /** The scope mean is the mean of respondent means, not of raw scores: one
      respondent scoring 3, 3, 3 and another scoring 0 give 1.5, while the four
      raw scores average 2.25. */
  lemma RespondentMeansDifferFromRawMean()
    ensures Sample(UnevenData) == [3.0, 0.0]
    ensures Mean(Sample(UnevenData)) == Some(1.5)
    ensures Mean([3.0, 3.0, 3.0, 0.0]) == Some(2.25)
  {
    UnevenRespondents();
    UnevenNotes();
    UnevenSums();
    assert Sample(UnevenData) == [3.0, 0.0];
  }

  /** A scope whose data is the example above is reported with mean 1.5, the
      mean of its two respondents, and tested on their two means. */
  lemma UnevenScopeReported(joined: seq<Joined>, scope: string, test: PValue)
    requires ScopeData(joined, scope) == UnevenData
    ensures AnalyseScope(joined, scope, test).Some?
    ensures AnalyseScope(joined, scope, test).value.mean == 1.5
    ensures AnalyseScope(joined, scope, test).value.n == 2
    ensures AnalyseScope(joined, scope, test).value.p == test([3.0, 0.0], Bar)
    ensures AnalyseScope(joined, scope, test).value.status == Baixa
  {
    RespondentMeansDifferFromRawMean();
    UnevenRespondents();
  }
}
