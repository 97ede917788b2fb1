/** The stored survey responses of the mosaic dashboard and their preparation
    for analysis: answers are coerced to numbers ("NS" and anything that does
    not parse become blank), the table is unpivoted into one observation per
    answered indicator, and each observation is joined to the indicator
    catalogue to learn its scope. */
module Responses {
  import opened Wrappers
  import opened Text

  // ---------------------------------------------------------------------
  // Numbers in answer cells

  /** The answer that means "do not know". */
  const DoNotKnow := "NS"

  function DigitValue(c: char): nat
    requires IsDigit(c)
  {
    c as int - '0' as int
  }

  predicate Digits(s: string)
  {
    forall i :: 0 <= i < |s| ==> IsDigit(s[i])
  }

  /** The value of a run of decimal digits. */
  function DigitsValue(s: string): nat
    requires Digits(s)
  {
    if s == [] then 0 else 10 * DigitsValue(s[..|s| - 1]) + DigitValue(s[|s| - 1])
  }

  /** The value of the fraction digits after a decimal point: "25" is 0.25,
      each digit worth a tenth of the one before it. */
  function FractionValue(f: string): real
    requires Digits(f)
  {
    if f == [] then 0.0 else (DigitValue(f[0]) as real + FractionValue(f[1..])) / 10.0
  }

  /** An unsigned decimal: digits, optionally a point and more digits, with at
      least one digit in all. */
  function ParseUnsigned(s: string): (r: Option<real>)
    ensures r.Some? ==> exists i :: 0 <= i < |s| && IsDigit(s[i])
    ensures r.Some? ==> forall i :: 0 <= i < |s| ==> IsDigit(s[i]) || s[i] == '.'
    ensures r.Some? ==> forall j :: PrefixBefore(s, '.') < j < |s| ==> s[j] != '.'
  {
    var k := PrefixBefore(s, '.');
    var whole := s[..k];
    if k == |s| then
      if whole != [] && Digits(whole) then Some(DigitsValue(whole) as real) else None
    else
      var frac := s[k + 1..];
      assert forall i :: k < i < |s| ==> s[i] == frac[i - k - 1];
      assert frac != [] ==> s[k + 1] == frac[0];
      if (whole != [] || frac != []) && Digits(whole) && Digits(frac)
      then Some(DigitsValue(whole) as real + FractionValue(frac))
      else None
  }

  /** pd.to_numeric on one text, restricted to signed plain decimals; `None`
      is what errors='coerce' turns into a missing value. */
  function ParseNumber(s: string): (r: Option<real>)
    ensures r.Some? ==> exists i :: 0 <= i < |s| && IsDigit(s[i])
    ensures r.Some? ==> forall i :: 0 <= i < |s| ==>
              IsDigit(s[i]) || s[i] == '.' || (i == 0 && (s[i] == '-' || s[i] == '+'))
  {
    assert forall i :: 0 < i < |s| ==> s[i] == s[1..][i - 1];
    if s != [] && s[0] == '-' then
      match ParseUnsigned(s[1..])
      case Some(x) => Some(-x)
      case None => None
    else if s != [] && s[0] == '+' then ParseUnsigned(s[1..])
    else ParseUnsigned(s)
  }

  /** The decimal text of a natural number. */
  function Render(n: nat): (s: string)
    ensures s != [] && Digits(s)
  {
    var d := (n % 10 + '0' as int) as char;
    if n < 10 then [d] else Render(n / 10) + [d]
  }

  lemma {:induction false} RenderValue(n: nat)
    ensures DigitsValue(Render(n)) == n
  {
    if n >= 10 {
      RenderValue(n / 10);
      var s := Render(n);
      assert s[..|s| - 1] == Render(n / 10);
    }
  }

  /** The sign of a written number: "-" or nothing. */
  function SignText(negative: bool): string
  {
    if negative then "-" else ""
  }

  function Signed(negative: bool, x: real): real
  {
    if negative then -x else x
  }

  /** The first "." of `Render(w) + rest` is the one right after the digits. */
  lemma PointAfterDigits(w: nat, rest: string)
    requires rest == [] || rest[0] == '.'
    ensures PrefixBefore(Render(w) + rest, '.') == |Render(w)|
  {
    var r := Render(w);
    var t := r + rest;
    assert forall i :: 0 <= i < |r| ==> t[i] == r[i] && IsDigit(r[i]);
    if rest != [] {
      assert t[|r|] == '.';
    }
  }

  lemma UnsignedInteger(w: nat)
    ensures ParseUnsigned(Render(w)) == Some(w as real)
  {
    var r := Render(w);
    RenderValue(w);
    PointAfterDigits(w, []);
    assert r + [] == r;
    assert r[..|r|] == r;
  }

  lemma UnsignedDecimal(w: nat, f: string)
    requires Digits(f)
    ensures ParseUnsigned(Render(w) + "." + f)
         == Some(w as real + FractionValue(f))
  {
    RenderValue(w);
    ParseWholeAndFraction(Render(w), f);
  }

  /** The value of digits `r`, a ".", and digits `f`. */
  lemma ParseWholeAndFraction(r: string, f: string)
    requires r != [] && Digits(r) && Digits(f)
    ensures ParseUnsigned(r + "." + f) == Some(DigitsValue(r) as real + FractionValue(f))
  {
    SplitAtPoint(r, f);
    ParsePointed(r + "." + f, |r|, r, f);
  }

  /** In digits `r`, a ".", and any `f`, the first "." separates `r` from `f`. */
  lemma SplitAtPoint(r: string, f: string)
    requires Digits(r)
    ensures PrefixBefore(r + "." + f, '.') == |r|
    ensures (r + "." + f)[..|r|] == r && (r + "." + f)[|r| + 1..] == f
  {
    var t := r + "." + f;
    assert forall i :: 0 <= i < |r| ==> t[i] == r[i] && IsDigit(r[i]);
    assert t[|r|] == '.';
    assert t[..|r|] == r;
    assert t[|r| + 1..] == f;
  }

  /** The value of an unsigned decimal whose first "." is at `k`. */
  lemma ParsePointed(s: string, k: nat, whole: string, frac: string)
    requires k == PrefixBefore(s, '.') && k < |s|
    requires whole == s[..k] && frac == s[k + 1..]
    requires whole != [] && Digits(whole) && Digits(frac)
    ensures ParseUnsigned(s) == Some(DigitsValue(whole) as real + FractionValue(frac))
  {
  }

  /** A sign in front of an unsigned number that starts with a digit. */
  lemma SignedParse(negative: bool, t: string, v: real, s: string)
    requires t != [] && IsDigit(t[0]) && ParseUnsigned(t) == Some(v)
    requires s == SignText(negative) + t
    ensures ParseNumber(s) == Some(Signed(negative, v))
  {
    if negative {
      ParseNegative(t, v);
    } else {
      assert s == t;
      ParsePlain(t);
    }
  }

  lemma ParseNegative(t: string, v: real)
    requires ParseUnsigned(t) == Some(v)
    ensures ParseNumber("-" + t) == Some(-v)
  {
    var s := "-" + t;
    assert s[0] == '-' && s[1..] == t;
  }

  lemma ParsePlain(t: string)
    requires t != [] && IsDigit(t[0])
    ensures ParseNumber(t) == ParseUnsigned(t)
  {
    assert t[0] != '-' && t[0] != '+';
  }

  /** to_numeric reads back every signed whole number written in decimal. */
  lemma ParseRender(negative: bool, w: nat)
    ensures ParseNumber(SignText(negative) + Render(w)) == Some(Signed(negative, w as real))
  {
    UnsignedInteger(w);
    SignedParse(negative, Render(w), w as real, SignText(negative) + Render(w));
  }

  /** to_numeric reads back every signed number written with a decimal point:
      the whole part, a ".", and any run of fraction digits. */
  lemma ParseDecimal(negative: bool, w: nat, f: string)
    requires Digits(f)
    ensures ParseNumber(SignText(negative) + Render(w) + "." + f)
         == Some(Signed(negative, w as real + FractionValue(f)))
  {
    var t := Render(w) + "." + f;
    assert SignText(negative) + Render(w) + "." + f == SignText(negative) + t;
    assert t[0] == Render(w)[0];
    UnsignedDecimal(w, f);
    SignedParse(negative, t, w as real + FractionValue(f), SignText(negative) + Render(w) + "." + f);
  }

  // ---------------------------------------------------------------------
  // Cells and their coercion

  /** A cell of the stored responses as read back: text, a number, or empty. */
  datatype Cell = Str(s: string) | Number(x: real) | Blank

  /** `.replace("NS", None)` followed by `pd.to_numeric(errors='coerce')`. */
  function Coerce(c: Cell): (r: Option<real>)
    ensures c == Str(DoNotKnow) || c.Blank? ==> r.None?
    ensures c.Number? ==> r == Some(c.x)
    ensures c.Str? && r.Some? ==> exists i :: 0 <= i < |c.s| && IsDigit(c.s[i])
  {
    match c
    case Str(s) => if s == DoNotKnow then None else ParseNumber(s)
    case Number(x) => Some(x)
    case Blank => None
  }

  /** The cell as it stands in the coerced table. */
  function Normalize(c: Cell): (r: Cell)
    ensures r.Number? || r.Blank?
    ensures r.Number? <==> Coerce(c).Some?
    ensures r.Number? ==> r.x == Coerce(c).value
  {
    match Coerce(c)
    case Some(x) => Number(x)
    case None => Blank
  }

  /** The form's answers: "NS" is dropped and "0".."3" read back as their score. */
  lemma FormAnswersCoerce(g: nat)
    requires g <= 3
    ensures Coerce(Str(DoNotKnow)) == None
    ensures Coerce(Str(Render(g))) == Some(g as real)
  {
    ParseRender(false, g);
    assert SignText(false) + Render(g) == Render(g);
    assert Render(g) != DoNotKnow by {
      assert IsDigit(Render(g)[0]);
    }
  }

  // ---------------------------------------------------------------------
  // The response table

  /** One stored submission: the four metadata columns and the answers, one per
      question column. */
  datatype Response = Response(nome: string, contato: string, mosaico: string, timestamp: string, answers: seq<Cell>)

  /** Every response has a cell for each of the first `n` question columns. */
  predicate HasColumns(rows: seq<Response>, n: nat)
  {
    forall i :: 0 <= i < |rows| ==> n <= |rows[i].answers|
  }

  /** `df_resp[df_resp['Mosaico'] == sel_mosaico]`. */
  function SelectMosaic(rows: seq<Response>, mosaic: string): (sel: seq<Response>)
    ensures forall r :: r in sel <==> r in rows && r.mosaico == mosaic
  {
    if rows == [] then []
    else
      var last := rows[|rows| - 1];
      assert rows == rows[..|rows| - 1] + [last];
      SelectMosaic(rows[..|rows| - 1], mosaic) + (if last.mosaico == mosaic then [last] else [])
  }

  /** The selection keeps every response of the mosaic as often as it occurs,
      and no other response. */
  lemma {:induction false} SelectMosaicCount(rows: seq<Response>, mosaic: string)
    ensures forall r :: multiset(SelectMosaic(rows, mosaic))[r]
                        == if r.mosaico == mosaic then multiset(rows)[r] else 0
  {
    if rows != [] {
      var init, last := rows[..|rows| - 1], rows[|rows| - 1];
      assert rows == init + [last];
      SelectMosaicCount(init, mosaic);
    }
  }

  /** One column `j` of the table, with its cells coerced: the assignment `df_num[col] = ...`. */
  function CoerceColumn(rows: seq<Response>, j: nat): (num: seq<Response>)
    requires HasColumns(rows, j + 1)
  {
    seq(|rows|, i requires 0 <= i < |rows| =>
      rows[i].(answers := rows[i].answers[j := Normalize(rows[i].answers[j])]))
  }

  /** One response with every answer cell coerced. */
  function CoercedRow(r: Response): (c: Response)
    ensures c.(answers := r.answers) == r && |c.answers| == |r.answers|
    ensures forall k :: 0 <= k < |r.answers| ==> c.answers[k] == Normalize(r.answers[k])
  {
    r.(answers := seq(|r.answers|, k requires 0 <= k < |r.answers| => Normalize(r.answers[k])))
  }

  /** The whole table with every answer cell coerced. */
  function Coerced(rows: seq<Response>): (num: seq<Response>)
    ensures |num| == |rows| && forall i :: 0 <= i < |rows| ==> num[i] == CoercedRow(rows[i])
  {
    seq(|rows|, i requires 0 <= i < |rows| => CoercedRow(rows[i]))
  }

  lemma CoercedKeepsColumns(rows: seq<Response>, n: nat)
    requires HasColumns(rows, n)
    ensures HasColumns(Coerced(rows), n)
  {
  }

  /** The per-column coercion loop over the question columns. */
  method CoerceAnswers(rows: seq<Response>, columns: nat) returns (num: seq<Response>)
    requires forall i :: 0 <= i < |rows| ==> |rows[i].answers| == columns
    ensures num == Coerced(rows)
  {
    num := rows;
    var j := 0;
    while j < columns
      invariant 0 <= j <= columns
      invariant |num| == |rows|
      invariant forall i :: 0 <= i < |rows| ==> num[i].(answers := rows[i].answers) == rows[i]
      invariant forall i :: 0 <= i < |rows| ==> |num[i].answers| == columns
      invariant forall i, c :: 0 <= i < |rows| && 0 <= c < j ==> num[i].answers[c] == Normalize(rows[i].answers[c])
      invariant forall i, c :: 0 <= i < |rows| && j <= c < columns ==> num[i].answers[c] == rows[i].answers[c]
    {
      num := CoerceColumn(num, j);
      j := j + 1;
    }
    forall i | 0 <= i < |rows| ensures num[i] == Coerced(rows)[i] {
      assert num[i].answers == Coerced(rows)[i].answers;
    }
  }

  // ---------------------------------------------------------------------
  // Unpivoting

  /** One row of the long table after dropna: respondent, indicator, score. */
  datatype Observation = Observation(nome: string, indicator: string, nota: real)

  /** The observations of question column `j`, row by row; blank cells are dropped. */
  function ColumnObservations(rows: seq<Response>, indicator: string, j: nat): (obs: seq<Observation>)
    requires HasColumns(rows, j + 1)
    ensures |obs| <= |rows|
    ensures forall o :: o in obs ==> o.indicator == indicator
  {
    if rows == [] then []
    else
      var last := rows[|rows| - 1];
      ColumnObservations(rows[..|rows| - 1], indicator, j)
        + (if last.answers[j].Number? then [Observation(last.nome, indicator, last.answers[j].x)] else [])
  }

  /** melt followed by dropna(subset=["Nota"]): column after column, in row order. */
  function Melt(rows: seq<Response>, questions: seq<string>): (obs: seq<Observation>)
    requires HasColumns(rows, |questions|)
    ensures forall o :: o in obs ==> o.indicator in questions
  {
    if questions == [] then []
    else Melt(rows, questions[..|questions| - 1]) + ColumnObservations(rows, questions[|questions| - 1], |questions| - 1)
  }

  /** The row an observation of column `j` comes from. */
  lemma {:induction false} ColumnObservationsFrom(rows: seq<Response>, indicator: string, j: nat, o: Observation) returns (i: int)
    requires HasColumns(rows, j + 1)
    requires o in ColumnObservations(rows, indicator, j)
    ensures o.indicator == indicator
    ensures 0 <= i < |rows| && rows[i].nome == o.nome && rows[i].answers[j] == Number(o.nota)
  {
    var init, last := rows[..|rows| - 1], rows[|rows| - 1];
    if o in ColumnObservations(init, indicator, j) {
      i := ColumnObservationsFrom(init, indicator, j, o);
      assert init[i] == rows[i];
    } else {
      i := |rows| - 1;
    }
  }

  /** A cell of column `j` holding a number gives an observation. */
  lemma {:induction false} ColumnObservationsTo(rows: seq<Response>, indicator: string, j: nat, o: Observation, i: int)
    requires HasColumns(rows, j + 1)
    requires o.indicator == indicator
    requires 0 <= i < |rows| && rows[i].nome == o.nome && rows[i].answers[j] == Number(o.nota)
    ensures o in ColumnObservations(rows, indicator, j)
  {
    var init, last := rows[..|rows| - 1], rows[|rows| - 1];
    if i < |rows| - 1 {
      assert init[i] == rows[i];
      ColumnObservationsTo(init, indicator, j, o, i);
    } else {
      assert o == Observation(last.nome, indicator, last.answers[j].x);
    }
  }

  /** An observation is in the long table exactly when some response holds that
      number under that question. */
  lemma MeltMembers(rows: seq<Response>, questions: seq<string>, o: Observation)
    requires HasColumns(rows, |questions|)
    ensures o in Melt(rows, questions)
        <==> exists i, j :: 0 <= i < |rows| && 0 <= j < |questions| && rows[i].nome == o.nome
                            && questions[j] == o.indicator && rows[i].answers[j] == Number(o.nota)
  {
    if o in Melt(rows, questions) {
      var i, j := MeltFrom(rows, questions, o);
    }
    if exists i, j :: 0 <= i < |rows| && 0 <= j < |questions| && rows[i].nome == o.nome
                      && questions[j] == o.indicator && rows[i].answers[j] == Number(o.nota) {
      var i, j :| 0 <= i < |rows| && 0 <= j < |questions| && rows[i].nome == o.nome
                  && questions[j] == o.indicator && rows[i].answers[j] == Number(o.nota);
      MeltTo(rows, questions, o, i, j);
    }
  }

  /** The cell an observation of the long table comes from. */
  lemma {:induction false} MeltFrom(rows: seq<Response>, questions: seq<string>, o: Observation) returns (i: int, j: int)
    requires HasColumns(rows, |questions|)
    requires o in Melt(rows, questions)
    ensures 0 <= i < |rows| && 0 <= j < |questions| && rows[i].nome == o.nome
            && questions[j] == o.indicator && rows[i].answers[j] == Number(o.nota)
  {
    var n := |questions| - 1;
    var init := questions[..n];
    if o in Melt(rows, init) {
      i, j := MeltFrom(rows, init, o);
      assert init[j] == questions[j];
    } else {
      i := ColumnObservationsFrom(rows, questions[n], n, o);
      j := n;
    }
  }

  /** A cell holding a number gives an observation of the long table. */
  lemma {:induction false} MeltTo(rows: seq<Response>, questions: seq<string>, o: Observation, i: int, j: int)
    requires HasColumns(rows, |questions|)
    requires 0 <= i < |rows| && 0 <= j < |questions| && rows[i].nome == o.nome
             && questions[j] == o.indicator && rows[i].answers[j] == Number(o.nota)
    ensures o in Melt(rows, questions)
  {
    var n := |questions| - 1;
    var init := questions[..n];
    MeltLast(rows, questions);
    if j < n {
      assert init[j] == questions[j];
      MeltTo(rows, init, o, i, j);
    } else {
      ColumnObservationsTo(rows, questions[n], n, o, i);
    }
  }

  /** The long table of a non-empty question list ends with its last column. */
  lemma MeltLast(rows: seq<Response>, questions: seq<string>)
    requires HasColumns(rows, |questions|)
    requires questions != []
    ensures HasColumns(rows, |questions| - 1)
    ensures Melt(rows, questions)
         == Melt(rows, questions[..|questions| - 1]) + ColumnObservations(rows, questions[|questions| - 1], |questions| - 1)
  {
  }

  /** After coercion, the long table holds exactly the answers that coerce to a
      number: every "NS", blank and unparseable answer is gone before any mean. */
  lemma CoercedMeltMembers(rows: seq<Response>, questions: seq<string>, o: Observation)
    requires HasColumns(rows, |questions|)
    ensures HasColumns(Coerced(rows), |questions|)
    ensures o in Melt(Coerced(rows), questions)
        <==> exists i, j :: 0 <= i < |rows| && 0 <= j < |questions| && rows[i].nome == o.nome
                            && questions[j] == o.indicator && Coerce(rows[i].answers[j]) == Some(o.nota)
  {
    CoercedKeepsColumns(rows, |questions|);
    if o in Melt(Coerced(rows), questions) {
      var i, j := CoercedMeltFrom(rows, questions, o);
    }
    if exists i, j :: 0 <= i < |rows| && 0 <= j < |questions| && rows[i].nome == o.nome
                      && questions[j] == o.indicator && Coerce(rows[i].answers[j]) == Some(o.nota) {
      var i, j :| 0 <= i < |rows| && 0 <= j < |questions| && rows[i].nome == o.nome
                  && questions[j] == o.indicator && Coerce(rows[i].answers[j]) == Some(o.nota);
      CoercedMeltTo(rows, questions, o, i, j);
    }
  }

  /** The raw answer a coerced observation comes from. */
  lemma CoercedMeltFrom(rows: seq<Response>, questions: seq<string>, o: Observation) returns (i: int, j: int)
    requires HasColumns(rows, |questions|) && HasColumns(Coerced(rows), |questions|)
    requires o in Melt(Coerced(rows), questions)
    ensures 0 <= i < |rows| && 0 <= j < |questions| && rows[i].nome == o.nome
            && questions[j] == o.indicator && Coerce(rows[i].answers[j]) == Some(o.nota)
  {
    var num := Coerced(rows);
    MeltMembers(num, questions, o);
    i, j :| 0 <= i < |num| && 0 <= j < |questions| && num[i].nome == o.nome
            && questions[j] == o.indicator && num[i].answers[j] == Number(o.nota);
    CoercedCell(rows, i, j);
  }

  /** An answer that coerces to a number is an observation of the coerced table. */
  lemma CoercedMeltTo(rows: seq<Response>, questions: seq<string>, o: Observation, i: int, j: int)
    requires HasColumns(rows, |questions|) && HasColumns(Coerced(rows), |questions|)
    requires 0 <= i < |rows| && 0 <= j < |questions| && rows[i].nome == o.nome
             && questions[j] == o.indicator && Coerce(rows[i].answers[j]) == Some(o.nota)
    ensures o in Melt(Coerced(rows), questions)
  {
    var num := Coerced(rows);
    MeltMembers(num, questions, o);
    CoercedCell(rows, i, j);
    assert 0 <= i < |num| && 0 <= j < |questions| && num[i].nome == o.nome
           && questions[j] == o.indicator && num[i].answers[j] == Number(o.nota);
  }

  /** A coerced cell holds a number exactly when the raw cell coerces to it. */
  lemma CoercedCell(rows: seq<Response>, i: int, j: int)
    requires 0 <= i < |rows| && 0 <= j < |rows[i].answers|
    ensures |Coerced(rows)| == |rows| && j < |Coerced(rows)[i].answers| && Coerced(rows)[i].nome == rows[i].nome
    ensures forall x :: Coerced(rows)[i].answers[j] == Number(x) <==> Coerce(rows[i].answers[j]) == Some(x)
  {
  }

  /** The cells of question column `j` that hold `o`'s number for `o`'s respondent,
      as (row, column) positions. */
  ghost function ColumnHits(rows: seq<Response>, indicator: string, j: nat, o: Observation): set<(int, int)>
    requires HasColumns(rows, j + 1)
  {
    set i | 0 <= i < |rows| && o.indicator == indicator && rows[i].nome == o.nome
                            && rows[i].answers[j] == Number(o.nota) :: (i, j)
  }

  /** The cells of the whole table that hold `o`'s number for `o`'s respondent
      under `o`'s indicator, as (row, column) positions. */
  ghost function Hits(rows: seq<Response>, questions: seq<string>, o: Observation): set<(int, int)>
    requires HasColumns(rows, |questions|)
  {
    set i, j | 0 <= i < |rows| && 0 <= j < |questions| && rows[i].nome == o.nome
               && questions[j] == o.indicator && rows[i].answers[j] == Number(o.nota) :: (i, j)
  }

  lemma ColumnHitsSnoc(rows: seq<Response>, indicator: string, j: nat, o: Observation)
    requires rows != [] && HasColumns(rows, j + 1)
    ensures var last := rows[|rows| - 1];
            ColumnHits(rows, indicator, j, o)
            == ColumnHits(rows[..|rows| - 1], indicator, j, o)
               + (if o.indicator == indicator && last.nome == o.nome && last.answers[j] == Number(o.nota)
                  then {(|rows| - 1, j)} else {})
  {
    var init := rows[..|rows| - 1];
    assert forall i :: 0 <= i < |init| ==> init[i] == rows[i];
  }

  lemma {:induction false} ColumnObservationsCount(rows: seq<Response>, indicator: string, j: nat, o: Observation)
    requires HasColumns(rows, j + 1)
    ensures multiset(ColumnObservations(rows, indicator, j))[o] == |ColumnHits(rows, indicator, j, o)|
  {
    if rows == [] {
      assert ColumnHits(rows, indicator, j, o) == {};
    } else {
      var init, last := rows[..|rows| - 1], rows[|rows| - 1];
      ColumnObservationsCount(init, indicator, j, o);
      ColumnHitsSnoc(rows, indicator, j, o);
      assert (|rows| - 1, j) !in ColumnHits(init, indicator, j, o);
      if last.answers[j].Number? {
        assert (Observation(last.nome, indicator, last.answers[j].x) == o)
           == (o.indicator == indicator && last.nome == o.nome && last.answers[j] == Number(o.nota));
      }
    }
  }

  lemma HitsSnoc(rows: seq<Response>, questions: seq<string>, o: Observation)
    requires questions != [] && HasColumns(rows, |questions|)
    ensures var n := |questions| - 1;
            Hits(rows, questions, o) == Hits(rows, questions[..n], o) + ColumnHits(rows, questions[n], n, o)
  {
    var n := |questions| - 1;
    var init := questions[..n];
    assert forall j :: 0 <= j < n ==> init[j] == questions[j];
  }

  /** Each numeric cell of the table becomes exactly one observation: `o` occurs in
      the long table as often as there are cells holding its number for its
      respondent under its indicator. */
  lemma {:induction false} MeltCount(rows: seq<Response>, questions: seq<string>, o: Observation)
    requires HasColumns(rows, |questions|)
    ensures multiset(Melt(rows, questions))[o] == |Hits(rows, questions, o)|
  {
    if questions == [] {
      assert Hits(rows, questions, o) == {};
    } else {
      var n := |questions| - 1;
      var init := questions[..n];
      MeltCount(rows, init, o);
      ColumnObservationsCount(rows, questions[n], n, o);
      HitsSnoc(rows, questions, o);
      var before, column := Hits(rows, init, o), ColumnHits(rows, questions[n], n, o);
      assert before * column == {} by {
        forall p | p in column ensures p !in before {
        }
      }
    }
  }

  /** The cells of the raw table whose answer coerces to `o`'s number, for `o`'s
      respondent under `o`'s indicator. */
  ghost function CoercedHits(rows: seq<Response>, questions: seq<string>, o: Observation): set<(int, int)>
    requires HasColumns(rows, |questions|)
  {
    set i, j | 0 <= i < |rows| && 0 <= j < |questions| && rows[i].nome == o.nome
               && questions[j] == o.indicator && Coerce(rows[i].answers[j]) == Some(o.nota) :: (i, j)
  }

  /** After coercion, `o` occurs in the long table as often as there are raw
      answers that coerce to its number for its respondent under its indicator. */
  lemma CoercedMeltCount(rows: seq<Response>, questions: seq<string>, o: Observation)
    requires HasColumns(rows, |questions|)
    ensures HasColumns(Coerced(rows), |questions|)
    ensures multiset(Melt(Coerced(rows), questions))[o] == |CoercedHits(rows, questions, o)|
  {
    var num := Coerced(rows);
    MeltCount(num, questions, o);
    CoercedHitsSame(rows, questions, o);
  }

  lemma CoercedHitsSame(rows: seq<Response>, questions: seq<string>, o: Observation)
    requires HasColumns(rows, |questions|)
    ensures HasColumns(Coerced(rows), |questions|)
    ensures Hits(Coerced(rows), questions, o) == CoercedHits(rows, questions, o)
  {
    var num := Coerced(rows);
    forall i, j | 0 <= i < |rows| && 0 <= j < |questions|
      ensures num[i].nome == rows[i].nome
      ensures (num[i].answers[j] == Number(o.nota)) == (Coerce(rows[i].answers[j]) == Some(o.nota))
    {
      assert num[i].answers[j] == Normalize(rows[i].answers[j]);
    }
  }

  // ---------------------------------------------------------------------
  // Joining the catalogue

  /** One row of the indicator catalogue. */
  datatype CatalogueRow = CatalogueRow(scope: string, principle: string, criterion: string, indicator: string)

  /** One row of the merged table: an observation with its scope, `None` when the
      indicator is not in the catalogue (the left join's missing value). */
  datatype Joined = Joined(nome: string, indicator: string, nota: real, scope: Option<string>)

  /** The catalogue rows of one indicator, in catalogue order. */
  function RowsOf(catalogue: seq<CatalogueRow>, indicator: string): (rs: seq<CatalogueRow>)
    ensures forall c :: c in rs <==> c in catalogue && c.indicator == indicator
  {
    if catalogue == [] then []
    else
      var last := catalogue[|catalogue| - 1];
      assert catalogue == catalogue[..|catalogue| - 1] + [last];
      RowsOf(catalogue[..|catalogue| - 1], indicator) + (if last.indicator == indicator then [last] else [])
  }

  /** RowsOf keeps every catalogue row of the indicator as often as it occurs,
      and no other row. */
  lemma {:induction false} RowsOfCount(catalogue: seq<CatalogueRow>, indicator: string)
    ensures forall c :: multiset(RowsOf(catalogue, indicator))[c]
                        == if c.indicator == indicator then multiset(catalogue)[c] else 0
  {
    if catalogue != [] {
      var init, last := catalogue[..|catalogue| - 1], catalogue[|catalogue| - 1];
      assert catalogue == init + [last];
      RowsOfCount(init, indicator);
    }
  }

  /** The merged rows of one observation: one per matching catalogue row, or one
      without a scope when nothing matches. */
  function JoinOne(o: Observation, catalogue: seq<CatalogueRow>): (js: seq<Joined>)
    ensures js != []
    ensures forall j :: j in js ==> j.nome == o.nome && j.indicator == o.indicator && j.nota == o.nota
  {
    var ms := RowsOf(catalogue, o.indicator);
    if ms == [] then [Joined(o.nome, o.indicator, o.nota, None)]
    else ScopedJoins(o, ms)
  }

  /** The observation joined to each of the given catalogue rows, in order. */
  function ScopedJoins(o: Observation, ms: seq<CatalogueRow>): (js: seq<Joined>)
    ensures |js| == |ms|
    ensures forall k :: 0 <= k < |ms| ==> js[k] == Joined(o.nome, o.indicator, o.nota, Some(ms[k].scope))
  {
    seq(|ms|, k requires 0 <= k < |ms| => Joined(o.nome, o.indicator, o.nota, Some(ms[k].scope)))
  }

  /** `pd.merge(df_long, df_indicators, on="Indicador", how="left")`, in the order
      of the long table. */
  function MergeLeft(obs: seq<Observation>, catalogue: seq<CatalogueRow>): (joined: seq<Joined>)
    ensures |joined| >= |obs|
    ensures forall j :: j in joined ==> Observation(j.nome, j.indicator, j.nota) in obs
  {
    if obs == [] then []
    else MergeLeft(obs[..|obs| - 1], catalogue) + JoinOne(obs[|obs| - 1], catalogue)
  }

  /** A merged row carries a scope exactly when its observation is in the long
      table and the catalogue files its indicator under that scope. */
  lemma MergeLeftScoped(obs: seq<Observation>, catalogue: seq<CatalogueRow>, n: string, ind: string, x: real, s: string)
    ensures Joined(n, ind, x, Some(s)) in MergeLeft(obs, catalogue)
        <==> Observation(n, ind, x) in obs && exists c :: c in catalogue && c.indicator == ind && c.scope == s
  {
    if Joined(n, ind, x, Some(s)) in MergeLeft(obs, catalogue) {
      var c := MergeLeftScopedFrom(obs, catalogue, n, ind, x, s);
    }
    if Observation(n, ind, x) in obs && exists c :: c in catalogue && c.indicator == ind && c.scope == s {
      var c :| c in catalogue && c.indicator == ind && c.scope == s;
      MergeLeftScopedTo(obs, catalogue, Observation(n, ind, x), c);
    }
  }

  /** The catalogue row a scoped merged row was joined with. */
  lemma {:induction false} MergeLeftScopedFrom(obs: seq<Observation>, catalogue: seq<CatalogueRow>, n: string, ind: string, x: real, s: string)
    returns (c: CatalogueRow)
    requires Joined(n, ind, x, Some(s)) in MergeLeft(obs, catalogue)
    ensures Observation(n, ind, x) in obs && c in catalogue && c.indicator == ind && c.scope == s
  {
    var init, last := obs[..|obs| - 1], obs[|obs| - 1];
    assert MergeLeft(obs, catalogue) == MergeLeft(init, catalogue) + JoinOne(last, catalogue);
    var jn := Joined(n, ind, x, Some(s));
    if jn in MergeLeft(init, catalogue) {
      c := MergeLeftScopedFrom(init, catalogue, n, ind, x, s);
      var i :| 0 <= i < |init| && init[i] == Observation(n, ind, x);
      assert obs[i] == init[i];
    } else {
      c := JoinOneScopedFrom(last, catalogue, s, jn);
    }
  }

  /** The catalogue row a scoped row of one observation's join comes from. */
  lemma JoinOneScopedFrom(o: Observation, catalogue: seq<CatalogueRow>, s: string, jn: Joined) returns (c: CatalogueRow)
    requires jn in JoinOne(o, catalogue) && jn.scope == Some(s)
    ensures Observation(jn.nome, jn.indicator, jn.nota) == o
    ensures c in catalogue && c.indicator == o.indicator && c.scope == s
  {
    var js := JoinOne(o, catalogue);
    var ms := RowsOf(catalogue, o.indicator);
    var k :| 0 <= k < |js| && js[k] == jn;
    c := ms[k];
    assert c in ms;
  }

  /** An observation joined with a catalogue row that files its indicator. */
  lemma {:induction false} MergeLeftScopedTo(obs: seq<Observation>, catalogue: seq<CatalogueRow>, o: Observation, c: CatalogueRow)
    requires o in obs && c in catalogue && c.indicator == o.indicator
    ensures Joined(o.nome, o.indicator, o.nota, Some(c.scope)) in MergeLeft(obs, catalogue)
  {
    var init, last := obs[..|obs| - 1], obs[|obs| - 1];
    assert obs == init + [last];
    if o in init {
      MergeLeftScopedTo(init, catalogue, o, c);
    } else {
      var ms := RowsOf(catalogue, last.indicator);
      assert c in ms;
      var k :| 0 <= k < |ms| && ms[k] == c;
      assert JoinOne(last, catalogue)[k] == Joined(o.nome, o.indicator, o.nota, Some(c.scope));
    }
  }

  /** The catalogue as (indicator, scope) pairs, one per row. */
  ghost function Filing(catalogue: seq<CatalogueRow>): (f: seq<(string, string)>)
    ensures |f| == |catalogue|
    ensures forall k :: 0 <= k < |catalogue| ==> f[k] == (catalogue[k].indicator, catalogue[k].scope)
  {
    seq(|catalogue|, k requires 0 <= k < |catalogue| => (catalogue[k].indicator, catalogue[k].scope))
  }

  lemma {:induction false} ScopedJoinsCount(o: Observation, catalogue: seq<CatalogueRow>, s: string)
    ensures multiset(ScopedJoins(o, RowsOf(catalogue, o.indicator)))[Joined(o.nome, o.indicator, o.nota, Some(s))]
         == multiset(Filing(catalogue))[(o.indicator, s)]
  {
    if catalogue == [] {
      assert ScopedJoins(o, []) == [];
    } else {
      var init, last := catalogue[..|catalogue| - 1], catalogue[|catalogue| - 1];
      assert catalogue == init + [last];
      ScopedJoinsCount(o, init, s);
      ScopedJoinsCountStep(o, init, last, s);
    }
  }

  /** One more catalogue row adds one to both counts when it files the
      observation's indicator under `s`, and nothing otherwise. */
  lemma ScopedJoinsCountStep(o: Observation, init: seq<CatalogueRow>, last: CatalogueRow, s: string)
    ensures var j := Joined(o.nome, o.indicator, o.nota, Some(s));
      multiset(ScopedJoins(o, RowsOf(init + [last], o.indicator)))[j]
        == multiset(ScopedJoins(o, RowsOf(init, o.indicator)))[j]
           + if last.indicator == o.indicator && last.scope == s then 1 else 0
    ensures multiset(Filing(init + [last]))[(o.indicator, s)]
         == multiset(Filing(init))[(o.indicator, s)] + if last.indicator == o.indicator && last.scope == s then 1 else 0
  {
    var catalogue := init + [last];
    assert catalogue[..|init|] == init;
    assert Filing(catalogue) == Filing(init) + [(last.indicator, last.scope)];
    var ms := RowsOf(init, o.indicator);
    var j := Joined(o.nome, o.indicator, o.nota, Some(s));
    if last.indicator == o.indicator {
      assert RowsOf(catalogue, o.indicator) == ms + [last];
      ScopedJoinsSnoc(o, ms, last);
      assert multiset(ScopedJoins(o, ms + [last]))[j]
          == multiset(ScopedJoins(o, ms))[j] + multiset([Joined(o.nome, o.indicator, o.nota, Some(last.scope))])[j];
    } else {
      assert RowsOf(catalogue, o.indicator) == ms;
    }
  }

  lemma ScopedJoinsSnoc(o: Observation, ms: seq<CatalogueRow>, c: CatalogueRow)
    ensures ScopedJoins(o, ms + [c]) == ScopedJoins(o, ms) + [Joined(o.nome, o.indicator, o.nota, Some(c.scope))]
  {
    var l, r := ScopedJoins(o, ms + [c]), ScopedJoins(o, ms) + [Joined(o.nome, o.indicator, o.nota, Some(c.scope))];
    assert |l| == |r|;
    forall k | 0 <= k < |l| ensures l[k] == r[k] {
      if k < |ms| {
        assert (ms + [c])[k] == ms[k];
      }
    }
  }

  lemma JoinOneCount(o: Observation, catalogue: seq<CatalogueRow>, s: string)
    ensures multiset(JoinOne(o, catalogue))[Joined(o.nome, o.indicator, o.nota, Some(s))]
         == multiset(Filing(catalogue))[(o.indicator, s)]
  {
    ScopedJoinsCount(o, catalogue, s);
    if RowsOf(catalogue, o.indicator) == [] {
      assert ScopedJoins(o, []) == [];
    }
  }

  lemma MulSucc(b: nat, c: nat)
    ensures (b + 1) * c == b * c + c
  {
  }

  /** The left join multiplies: a merged row with a scope occurs as often as its
      observation occurs in the long table times the number of catalogue rows that
      file its indicator under that scope. */
  lemma {:induction false} MergeLeftCount(obs: seq<Observation>, catalogue: seq<CatalogueRow>, n: string, ind: string, x: real, s: string)
    ensures multiset(MergeLeft(obs, catalogue))[Joined(n, ind, x, Some(s))]
         == multiset(obs)[Observation(n, ind, x)] * multiset(Filing(catalogue))[(ind, s)]
  {
    if obs != [] {
      var init, last := obs[..|obs| - 1], obs[|obs| - 1];
      assert obs == init + [last];
      MergeLeftCount(init, catalogue, n, ind, x, s);
      var b, c := multiset(init)[Observation(n, ind, x)], multiset(Filing(catalogue))[(ind, s)];
      MergeLeftCountStep(init, last, catalogue, n, ind, x, s);
      MulSucc(b, c);
    }
  }

  /** One more observation adds one to its own count, and the number of
      catalogue rows filing it to the count of its merged row. */
  lemma MergeLeftCountStep(init: seq<Observation>, last: Observation, catalogue: seq<CatalogueRow>, n: string, ind: string, x: real, s: string)
    ensures var o := Observation(n, ind, x);
      multiset(init + [last])[o] == multiset(init)[o] + if last == o then 1 else 0
    ensures var j := Joined(n, ind, x, Some(s));
      multiset(MergeLeft(init + [last], catalogue))[j]
        == multiset(MergeLeft(init, catalogue))[j]
           + if last == Observation(n, ind, x) then multiset(Filing(catalogue))[(ind, s)] else 0
  {
    var j := Joined(n, ind, x, Some(s));
    MergeLeftLast(init, last, catalogue, j);
    assert multiset(init + [last]) == multiset(init) + multiset{last};
    if last == Observation(n, ind, x) {
      JoinOneCount(last, catalogue, s);
    } else {
      assert j !in JoinOne(last, catalogue);
    }
  }

  /** Merging one more observation adds its joined rows to every count. */
  lemma MergeLeftLast(init: seq<Observation>, last: Observation, catalogue: seq<CatalogueRow>, j: Joined)
    ensures multiset(MergeLeft(init + [last], catalogue))[j]
         == multiset(MergeLeft(init, catalogue))[j] + multiset(JoinOne(last, catalogue))[j]
  {
    assert (init + [last])[..|init|] == init;
    assert MergeLeft(init + [last], catalogue) == MergeLeft(init, catalogue) + JoinOne(last, catalogue);
  }

  /** An observation whose indicator the catalogue does not list is kept once,
      without a scope, for each time it occurs; one the catalogue lists never is. */
  lemma {:induction false} MergeLeftUnmatchedCount(obs: seq<Observation>, catalogue: seq<CatalogueRow>, n: string, ind: string, x: real)
    ensures multiset(MergeLeft(obs, catalogue))[Joined(n, ind, x, None)]
         == if exists c :: c in catalogue && c.indicator == ind then 0 else multiset(obs)[Observation(n, ind, x)]
  {
    if obs != [] {
      var init, last := obs[..|obs| - 1], obs[|obs| - 1];
      assert obs == init + [last];
      MergeLeftUnmatchedCount(init, catalogue, n, ind, x);
      MergeLeftUnmatchedStep(init, last, catalogue, n, ind, x);
      var ms := RowsOf(catalogue, ind);
      if ms != [] {
        assert ms[0] in catalogue;
      }
    }
  }

  /** One more observation adds one to its own count, and one to the count of
      its unscoped merged row when the catalogue lists none of its indicator. */
  lemma MergeLeftUnmatchedStep(init: seq<Observation>, last: Observation, catalogue: seq<CatalogueRow>, n: string, ind: string, x: real)
    ensures var o := Observation(n, ind, x);
      multiset(init + [last])[o] == multiset(init)[o] + if last == o then 1 else 0
    ensures var j := Joined(n, ind, x, None);
      multiset(MergeLeft(init + [last], catalogue))[j]
        == multiset(MergeLeft(init, catalogue))[j]
           + if last == Observation(n, ind, x) && RowsOf(catalogue, ind) == [] then 1 else 0
  {
    var j := Joined(n, ind, x, None);
    MergeLeftLast(init, last, catalogue, j);
    assert multiset(init + [last]) == multiset(init) + multiset{last};
    var ms := RowsOf(catalogue, last.indicator);
    if ms != [] {
      assert j !in ScopedJoins(last, ms);
    }
  }

  // ---------------------------------------------------------------------
  // Distinct values

  /** `Series.unique()`: the distinct values in order of first appearance. */
  function Unique(xs: seq<string>): (u: seq<string>)
    ensures forall x :: x in u <==> x in xs
    ensures forall i, j :: 0 <= i < j < |u| ==> u[i] != u[j]
  {
    if xs == [] then []
    else
      var prev := Unique(xs[..|xs| - 1]);
      var last := xs[|xs| - 1];
      assert xs == xs[..|xs| - 1] + [last];
      if last in prev then prev else prev + [last]
  }
}
