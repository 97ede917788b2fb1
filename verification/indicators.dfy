/** Indicator rows and per-indicator means (app_efetividade1.py). */
module Indicators {
  import opened Wrappers
  import opened Text
  import opened Averages

  /** is_indicator(row): the stripped row, cut at its first '.', is a
      non-empty run of digits ("3.2 x" is an indicator, "3 x" is not). */
  predicate IsIndicator(row: string)
    ensures IsIndicator(row) ==> Strip(row) != [] && IsDigit(Strip(row)[0]) && Strip(row)[0] != '.'
  {
    var t := Strip(row);
    AllDigits(t[..PrefixBefore(t, '.')])
  }

  /** Stated through any position k of the first '.' (or the end): a row is an
      indicator exactly when the text before k is non-empty and all digits. */
  lemma IsIndicatorIff(row: string, k: nat)
    requires k <= |Strip(row)|
    requires forall i :: 0 <= i < k ==> Strip(row)[i] != '.'
    requires k == |Strip(row)| || Strip(row)[k] == '.'
    ensures IsIndicator(row) <==> 0 < k && forall i :: 0 <= i < k ==> IsDigit(Strip(row)[i])
  {
    var t := Strip(row);
    assert k == PrefixBefore(t, '.');
  }

  /** "3.2 x" is an indicator row: digits, then the '.'. */
  lemma DottedRowIsIndicator()
    ensures IsIndicator("3.2 x")
  {
    assert Strip("3.2 x") == "3.2 x";
    IsIndicatorIff("3.2 x", 1);
  }

  /** "7" is an indicator row: the whole row is digits. */
  lemma NumberRowIsIndicator()
    ensures IsIndicator("7")
  {
    assert Strip("7") == "7";
    IsIndicatorIff("7", 1);
  }

  /** "3 x" is not: with no '.', the whole row must be digits. */
  lemma UndottedRowIsNotIndicator()
    ensures !IsIndicator("3 x")
  {
    assert Strip("3 x") == "3 x";
    IsIndicatorIff("3 x", 3);
  }

  /** ".5" is not: nothing comes before the '.'. */
  lemma LeadingDotRowIsNotIndicator()
    ensures !IsIndicator(".5")
  {
    assert Strip(".5") == ".5";
    IsIndicatorIff(".5", 0);
  }

  /** A score chosen in the form: 0, 1, 2 or 3. */
  type Grade = g: int | 0 <= g <= 3

  /** One respondent's answer to one indicator: a grade or "NA". */
  datatype Answer = Scored(grade: Grade) | NA

  /** [v for v in respostas.values() if v != "NA"], in order. */
  function Grades(answers: seq<Answer>): (gs: seq<Grade>)
    ensures |gs| <= |answers|
    ensures gs == [] <==> forall i :: 0 <= i < |answers| ==> answers[i].NA?
    ensures forall g :: g in gs <==> Scored(g) in answers
    ensures forall g :: multiset(gs)[g] == multiset(answers)[Scored(g)]
  {
    if answers == [] then []
    else
      var init, last := answers[..|answers| - 1], answers[|answers| - 1];
      assert answers == init + [last];
      var gs := Grades(init);
      GradesSnoc(init, last, gs);
      gs + (if last.Scored? then [last.grade] else [])
  }

  /** The step of Grades: appending one answer keeps its contract. */
  lemma GradesSnoc(init: seq<Answer>, last: Answer, gs: seq<Grade>)
    requires |gs| <= |init|
    requires gs == [] <==> forall i :: 0 <= i < |init| ==> init[i].NA?
    requires forall g :: g in gs <==> Scored(g) in init
    requires forall g :: multiset(gs)[g] == multiset(init)[Scored(g)]
    ensures var answers, gs' := init + [last], gs + (if last.Scored? then [last.grade] else []);
      && |gs'| <= |answers|
      && (gs' == [] <==> forall i :: 0 <= i < |answers| ==> answers[i].NA?)
      && (forall g :: g in gs' <==> Scored(g) in answers)
      && (forall g :: multiset(gs')[g] == multiset(answers)[Scored(g)])
  {
    var answers := init + [last];
    assert multiset(answers) == multiset(init) + multiset{last};
    assert forall i :: 0 <= i < |init| ==> answers[i] == init[i];
    assert answers[|init|] == last;
    assert forall x :: x in answers <==> x in init || x == last;
    if last.Scored? {
      assert !answers[|init|].NA?;
    } else {
      assert gs + [] == gs;
    }
  }

  function AsReals(gs: seq<Grade>): (xs: seq<real>)
    ensures |xs| == |gs|
  {
    seq(|gs|, i requires 0 <= i < |gs| => gs[i] as real)
  }

  /** The mean of an indicator's non-"NA" answers; undefined (NaN) when every
      answer is "NA" or there is none, and otherwise within [0, 3]. */
  function IndicatorMean(answers: seq<Answer>): (m: Option<real>)
    ensures m.None? <==> forall i :: 0 <= i < |answers| ==> answers[i].NA?
    ensures m.Some? ==> 0.0 <= m.value <= 3.0
  {
    var xs := AsReals(Grades(answers));
    if xs != [] then MeanWithin(xs, 0.0, 3.0); Mean(xs) else Mean(xs)
  }

  /** The loop filling notas_indicadores: one mean per indicator of
      dados_entrada (indicator -> the users' answers). */
  method IndicatorMeans(entries: map<string, seq<Answer>>) returns (means: map<string, Option<real>>)
    ensures means.Keys == entries.Keys
    ensures forall ind :: ind in entries ==> means[ind] == IndicatorMean(entries[ind])
  {
    means := map[];
    var todo := entries.Keys;
    while todo != {}
      invariant todo <= entries.Keys
      invariant means.Keys == entries.Keys - todo
      invariant forall ind :: ind in means ==> means[ind] == IndicatorMean(entries[ind])
      decreases |todo|
    {
      var ind :| ind in todo;
      means := means[ind := IndicatorMean(entries[ind])];
      todo := todo - {ind};
    }
  }
}
