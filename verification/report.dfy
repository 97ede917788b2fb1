/** The low-effectiveness report of the mosaic dashboard: every scope whose
    raw score mean is below 2.0 is flagged, with each recommendation filed
    under that scope, or a notice when none is filed. */
module LowScopeReport {
  import opened Wrappers
  import opened Averages
  import opened Responses
  import opened ScopeAnalysis

  const LowBar: real := 2.0

  const NoSuggestions := "Sem recomendações específicas cadastradas."

  /** One row of the recommendations workbook (columns Problema, Sugestão, Âmbito). */
  datatype Suggestion = Suggestion(problem: string, text: string, scope: string)

  /** The recommendations as loaded: a table, or the column-less empty frame
      returned when the workbook or its scope sheets cannot be found. */
  datatype RecommendationSheet = NoColumns | Table(rows: seq<Suggestion>)

  /** What is shown under a flagged scope. */
  datatype Body = Suggestions(items: seq<Suggestion>) | Notice(message: string)

  /** A flagged scope, its mean and what is shown under it. */
  datatype Alert = Alert(scope: string, mean: real, body: Body)

  /** The Nota column of a scope's data. */
  function Notas(data: seq<(string, real)>): (xs: seq<real>)
    ensures |xs| == |data|
  {
    seq(|data|, i requires 0 <= i < |data| => data[i].1)
  }

  /** The keys of `groupby("Âmbito")`: the scopes the merged rows carry (rows
      without a scope are dropped), each once. */
  function PresentScopes(joined: seq<Joined>): (scopes: seq<string>)
    ensures forall i, j :: 0 <= i < j < |scopes| ==> scopes[i] != scopes[j]
    ensures forall s :: s in scopes <==> exists j :: j in joined && j.scope == Some(s)
  {
    if joined == [] then []
    else
      assert joined == joined[..|joined| - 1] + [joined[|joined| - 1]];
      var prev := PresentScopes(joined[..|joined| - 1]);
      var s := joined[|joined| - 1].scope;
      if s.Some? && s.value !in prev then prev + [s.value] else prev
  }

  /** medias_ambito[scope]: the mean of every score filed under the scope. */
  function RawMean(joined: seq<Joined>, scope: string): (m: Option<real>)
    ensures m.None? <==> forall j :: j in joined ==> j.scope != Some(scope)
  {
    var data := ScopeData(joined, scope);
    assert forall j :: j in joined && j.scope == Some(scope) ==> (j.nome, j.nota) in data;
    assert data != [] ==> data[0] in data;
    Mean(Notas(data))
  }

  predicate IsLow(joined: seq<Joined>, scope: string)
  {
    RawMean(joined, scope).Some? && RawMean(joined, scope).value < LowBar
  }

  /** `df_recomenda[df_recomenda['Âmbito'] == scope]` on a table, in row order. */
  function SuggestionsFor(rows: seq<Suggestion>, scope: string): (recs: seq<Suggestion>)
    ensures forall r :: r in recs <==> r in rows && r.scope == scope
  {
    if rows == [] then []
    else
      var last := rows[|rows| - 1];
      SuggestionsFor(rows[..|rows| - 1], scope) + (if last.scope == scope then [last] else [])
  }

  /** Every matching row, or the notice when there is none. */
  function BodyFor(rows: seq<Suggestion>, scope: string): (body: Body)
    ensures body.Notice? <==> forall r :: r in rows ==> r.scope != scope
    ensures body.Notice? ==> body.message == NoSuggestions
    ensures body.Suggestions? ==> forall r :: r in body.items <==> r in rows && r.scope == scope
  {
    var recs := SuggestionsFor(rows, scope);
    assert recs != [] ==> recs[0] in recs;
    if recs == [] then Notice(NoSuggestions) else Suggestions(recs)
  }

  // ---------------------------------------------------------------------
  // The report as written: the column lookup fails on the column-less frame

  const MissingColumn := "KeyError: 'Âmbito'"

  function ReportAsWritten(joined: seq<Joined>, sheet: RecommendationSheet, scopes: seq<string>): (r: Result<seq<Alert>, string>)
    ensures r.Failure? ==> sheet.NoColumns? && r.error == MissingColumn
    ensures r.Success? ==> |r.value| <= |scopes|
  {
    if scopes == [] then Success([])
    else
      var prev := ReportAsWritten(joined, sheet, scopes[..|scopes| - 1]);
      var s := scopes[|scopes| - 1];
      if prev.Failure? || !IsLow(joined, s) then prev
      else if sheet.NoColumns? then Failure(MissingColumn)
      else Success(prev.value + [Alert(s, RawMean(joined, s).value, BodyFor(sheet.rows, s))])
  }

  /** A single low score with no recommendations workbook stops the report. */
  lemma MissingWorkbookStopsReport()
    ensures ReportAsWritten([Joined("Ana", "1.1", 1.0, Some("GESTÃO"))], NoColumns,
                            PresentScopes([Joined("Ana", "1.1", 1.0, Some("GESTÃO"))])).Failure?
  {
    var joined := [Joined("Ana", "1.1", 1.0, Some("GESTÃO"))];
    assert joined[0] in joined;
    assert "GESTÃO" in PresentScopes(joined);
    assert joined[..0] == [];
    var data := ScopeData(joined, "GESTÃO");
    assert data == [("Ana", 1.0)];
    assert Notas(data) == [1.0];
    assert [1.0][..0] == [];
    assert IsLow(joined, "GESTÃO");
    AsWrittenFailsIff(joined, NoColumns, PresentScopes(joined));
  }

  /** As written, the report fails exactly when the frame has no columns and some
      scope is low. */
  lemma {:induction false} AsWrittenFailsIff(joined: seq<Joined>, sheet: RecommendationSheet, scopes: seq<string>)
    ensures ReportAsWritten(joined, sheet, scopes).Failure?
        <==> sheet.NoColumns? && exists s :: s in scopes && IsLow(joined, s)
  {
    if scopes != [] {
      var init := scopes[..|scopes| - 1];
      assert scopes == init + [scopes[|scopes| - 1]];
      AsWrittenFailsIff(joined, sheet, init);
    }
  }

  // ---------------------------------------------------------------------
  // The corrected report: no columns means no recommendations

  function SheetRows(sheet: RecommendationSheet): seq<Suggestion>
  {
    match sheet
    case NoColumns => []
    case Table(rows) => rows
  }

  function Report(joined: seq<Joined>, sheet: RecommendationSheet, scopes: seq<string>): (alerts: seq<Alert>)
    ensures |alerts| <= |scopes|
    ensures forall a :: a in alerts ==> a.scope in scopes && a.mean < LowBar
  {
    if scopes == [] then []
    else
      var s := scopes[|scopes| - 1];
      assert forall x :: x in scopes[..|scopes| - 1] ==> x in scopes;
      Report(joined, sheet, scopes[..|scopes| - 1])
        + (if IsLow(joined, s) then [Alert(s, RawMean(joined, s).value, BodyFor(SheetRows(sheet), s))] else [])
  }

  /** Where the written report completes, it is the corrected one. */
  lemma {:induction false} AsWrittenAgrees(joined: seq<Joined>, sheet: RecommendationSheet, scopes: seq<string>)
    ensures ReportAsWritten(joined, sheet, scopes).Success? ==> ReportAsWritten(joined, sheet, scopes).value == Report(joined, sheet, scopes)
  {
    if scopes != [] {
      AsWrittenAgrees(joined, sheet, scopes[..|scopes| - 1]);
    }
  }

  /** An alert is shown exactly for a listed scope whose mean is below 2.0, with
      that mean, and under it every recommendation filed for the scope, or the
      notice when none is. */
  lemma {:induction false} AlertIff(joined: seq<Joined>, sheet: RecommendationSheet, scopes: seq<string>, a: Alert)
    ensures a in Report(joined, sheet, scopes)
        <==> a.scope in scopes && RawMean(joined, a.scope) == Some(a.mean) && a.mean < LowBar
             && a.body == BodyFor(SheetRows(sheet), a.scope)
  {
    if scopes != [] {
      var init := scopes[..|scopes| - 1];
      assert scopes == init + [scopes[|scopes| - 1]];
      AlertIff(joined, sheet, init, a);
    }
  }

  /** The alerts of one scope. */
  function AlertsFor(alerts: seq<Alert>, scope: string): seq<Alert>
  {
    if alerts == [] then []
    else
      var last := alerts[|alerts| - 1];
      AlertsFor(alerts[..|alerts| - 1], scope) + (if last.scope == scope then [last] else [])
  }

  lemma {:induction false} AlertsForAppend(x: seq<Alert>, y: seq<Alert>, scope: string)
    ensures AlertsFor(x + y, scope) == AlertsFor(x, scope) + AlertsFor(y, scope)
  {
    if y != [] {
      assert (x + y)[..|x + y| - 1] == x + y[..|y| - 1];
      assert (x + y)[|x + y| - 1] == y[|y| - 1];
      AlertsForAppend(x, y[..|y| - 1], scope);
    } else {
      assert x + y == x;
    }
  }

  /** Over distinct scopes, each low scope gets exactly one alert and every other
      scope none. */
  lemma {:induction false} OneAlertPerLowScope(joined: seq<Joined>, sheet: RecommendationSheet, scopes: seq<string>, s: string)
    requires forall i, j :: 0 <= i < j < |scopes| ==> scopes[i] != scopes[j]
    ensures AlertsFor(Report(joined, sheet, scopes), s)
         == if s in scopes && IsLow(joined, s) then [Alert(s, RawMean(joined, s).value, BodyFor(SheetRows(sheet), s))] else []
  {
    if scopes != [] {
      OneAlertPerLowScope(joined, sheet, scopes[..|scopes| - 1], s);
      AlertsForLast(joined, sheet, scopes, s);
    }
  }

  /** The last scope `b` adds its alert, if any, to the alerts of `b` only. */
  lemma AlertsForLast(joined: seq<Joined>, sheet: RecommendationSheet, scopes: seq<string>, s: string)
    requires scopes != []
    ensures var init, b := scopes[..|scopes| - 1], scopes[|scopes| - 1];
      && (s in scopes <==> s in init || s == b)
      && AlertsFor(Report(joined, sheet, scopes), s)
         == AlertsFor(Report(joined, sheet, init), s)
            + if b == s && IsLow(joined, b) then [Alert(b, RawMean(joined, b).value, BodyFor(SheetRows(sheet), b))] else []
  {
    var init, b := scopes[..|scopes| - 1], scopes[|scopes| - 1];
    assert scopes == init + [b];
    var row := if IsLow(joined, b) then [Alert(b, RawMean(joined, b).value, BodyFor(SheetRows(sheet), b))] else [];
    assert Report(joined, sheet, scopes) == Report(joined, sheet, init) + row;
    AlertsForAppend(Report(joined, sheet, init), row, s);
    assert AlertsFor(row, s) == if b == s then row else [] by {
      if row != [] {
        assert row[..0] == [];
      }
    }
  }

  /** The filter `df_recomenda['Âmbito'] == scope` as a scan of the rows. */
  method FilterSuggestions(rows: seq<Suggestion>, scope: string) returns (recs: seq<Suggestion>)
    ensures recs == SuggestionsFor(rows, scope)
  {
    recs := [];
    var k := 0;
    while k < |rows|
      invariant 0 <= k <= |rows|
      invariant recs == SuggestionsFor(rows[..k], scope)
    {
      assert rows[..k + 1][..k] == rows[..k];
      if rows[k].scope == scope {
        recs := recs + [rows[k]];
      }
      k := k + 1;
    }
    assert rows[..k] == rows;
  }

  lemma ReportNext(joined: seq<Joined>, sheet: RecommendationSheet, scopes: seq<string>, i: nat)
    requires i < |scopes|
    ensures Report(joined, sheet, scopes[..i + 1])
         == Report(joined, sheet, scopes[..i])
            + (if IsLow(joined, scopes[i]) then [Alert(scopes[i], RawMean(joined, scopes[i]).value, BodyFor(SheetRows(sheet), scopes[i]))] else [])
  {
    assert scopes[..i + 1][..i] == scopes[..i];
  }

  /** One pass of the report loop: the alert of one scope, if its mean is low. */
  method AlertOf(joined: seq<Joined>, rows: seq<Suggestion>, scope: string) returns (a: seq<Alert>)
    ensures a == if IsLow(joined, scope) then [Alert(scope, RawMean(joined, scope).value, BodyFor(rows, scope))] else []
  {
    a := [];
    var nota := RawMean(joined, scope);
    if nota.Some? && nota.value < LowBar {
      var recs := FilterSuggestions(rows, scope);
      var body := if recs != [] then Suggestions(recs) else Notice(NoSuggestions);
      a := [Alert(scope, nota.value, body)];
    }
  }

  /** The report loop over medias_ambito, with the recommendation filter inside. */
  method ReportLowScopes(joined: seq<Joined>, sheet: RecommendationSheet) returns (alerts: seq<Alert>)
    ensures alerts == Report(joined, sheet, PresentScopes(joined))
  {
    var scopes := PresentScopes(joined);
    var rows := SheetRows(sheet);
    alerts := [];
    var i := 0;
    while i < |scopes|
      invariant 0 <= i <= |scopes|
      invariant alerts == Report(joined, sheet, scopes[..i])
    {
      ReportNext(joined, sheet, scopes, i);
      var a := AlertOf(joined, rows, scopes[i]);
      alerts := alerts + a;
      i := i + 1;
    }
    assert scopes[..i] == scopes;
  }
}
