/** The catalogue fold of app_efetividade1.py: scanning the first column of
    the catalogue sheet, header rows move the "current scope / principle /
    criterion" cursor and indicator rows are filed under them, building
    scope -> principle -> criterion -> [indicator rows]. */
module Hierarchy {
  import opened Wrappers
  import opened Text
  import opened OrderedDict
  import opened Indicators

  type Criteria = Dict<string, seq<string>>
  type Principles = Dict<string, Criteria>
  type Tree = Dict<string, Principles>

  /** The loop-carried cursor ambito_atual, principio_atual, criterio_atual. */
  datatype Cursor = Cursor(scope: Option<string>, principle: Option<string>, criterion: Option<string>)

  datatype State = State(tree: Tree, cursor: Cursor)

  /** Which dictionary lookup raised the KeyError. */
  datatype Missing = MissingScope | MissingPrinciple | MissingCriterion

  /** The fold stops with a KeyError at catalogue row `row`. */
  datatype FoldError = KeyError(row: nat, missing: Missing)

  const ScopeMarker := "Ambito"
  const ScopePrefix := "Ambito "
  const PrincipleMarker := "PRINCÍPIO"
  const CriterionMarker := "CRITÉRIO"

  const Start := State([], Cursor(None, None, None))

  /** hierarquia[ambito_atual] */
  function ScopeEntry(st: State): Result<Principles, Missing>
  {
    match st.cursor.scope
    case None => Failure(MissingScope)
    case Some(a) =>
      match Get(st.tree, a)
      case None => Failure(MissingScope)
      case Some(ps) => Success(ps)
  }

  /** hierarquia[ambito_atual][principio_atual] */
  function PrincipleEntry(st: State): Result<Criteria, Missing>
  {
    match ScopeEntry(st)
    case Failure(m) => Failure(m)
    case Success(ps) =>
      match st.cursor.principle
      case None => Failure(MissingPrinciple)
      case Some(p) =>
        match Get(ps, p)
        case None => Failure(MissingPrinciple)
        case Some(cs) => Success(cs)
  }

  /** hierarquia[ambito_atual][principio_atual][criterio_atual] */
  function CriterionEntry(st: State): Result<seq<string>, Missing>
  {
    match PrincipleEntry(st)
    case Failure(m) => Failure(m)
    case Success(cs) =>
      match st.cursor.criterion
      case None => Failure(MissingCriterion)
      case Some(c) =>
        match Get(cs, c)
        case None => Failure(MissingCriterion)
        case Some(inds) => Success(inds)
  }

  /** One iteration of the catalogue loop on the row text. */
  function Step(st: State, text: string): (r: Result<State, Missing>)
    ensures StartsWith(text, ScopeMarker) ==> r.Success?
    ensures r.Failure? ==> StartsWith(text, PrincipleMarker) || StartsWith(text, CriterionMarker) || IsIndicator(text)
    ensures r.Success? && !StartsWith(text, ScopeMarker) ==>
              r.value.cursor.scope == st.cursor.scope
              && forall a :: Get(r.value.tree, a).Some? <==> Get(st.tree, a).Some?
    ensures (!StartsWith(text, ScopeMarker) && !StartsWith(text, PrincipleMarker)
             && !StartsWith(text, CriterionMarker) && !IsIndicator(text)) ==> r == Success(st)
  {
    var cur := st.cursor;
    if StartsWith(text, ScopeMarker) then
      var a := Strip(RemoveAll(text, ScopePrefix));
      Success(State(Put(st.tree, a, []), cur.(scope := Some(a))))
    else if StartsWith(text, PrincipleMarker) then
      var p := Strip(text);
      match ScopeEntry(st)
      case Failure(m) => Failure(m)
      case Success(ps) =>
        Success(State(Put(st.tree, cur.scope.value, Put(ps, p, [])), cur.(principle := Some(p))))
    else if StartsWith(text, CriterionMarker) then
      var c := Strip(text);
      match PrincipleEntry(st)
      case Failure(m) => Failure(m)
      case Success(cs) =>
        var ps := ScopeEntry(st).value;
        Success(State(Put(st.tree, cur.scope.value, Put(ps, cur.principle.value, Put(cs, c, []))),
                      cur.(criterion := Some(c))))
    else if IsIndicator(text) then
      match CriterionEntry(st)
      case Failure(m) => Failure(m)
      case Success(inds) =>
        var ps := ScopeEntry(st).value;
        var cs := PrincipleEntry(st).value;
        Success(State(Put(st.tree, cur.scope.value,
                          Put(ps, cur.principle.value, Put(cs, cur.criterion.value, inds + [text]))),
                      cur))
    else
      Success(st)
  }

  /** The loop over the first `|rows|` catalogue rows. */
  function Run(rows: seq<string>): (r: Result<State, FoldError>)
    ensures r.Failure? ==>
              && r.error.row < |rows|
              && Run(rows[..r.error.row]).Success?
              && Step(Run(rows[..r.error.row]).value, rows[r.error.row]) == Failure(r.error.missing)
  {
    if rows == [] then Success(Start)
    else
      assert forall j :: 0 <= j < |rows| ==> rows[..|rows| - 1][..j] == rows[..j];
      match Run(rows[..|rows| - 1])
      case Failure(e) => Failure(e)
      case Success(st) =>
        match Step(st, rows[|rows| - 1])
        case Failure(m) => Failure(KeyError(|rows| - 1, m))
        case Success(st') => Success(st')
  }

  /** The hierarchy built from the catalogue column, or the KeyError it raises. */
  /** The KeyError, when there is one, is raised at the first row that breaks
      the nesting, and that row is a principle, criterion or indicator row. */
  function HierarchyOf(rows: seq<string>): (r: Result<Tree, FoldError>)
    ensures r.Failure? ==>
              && r.error.row < |rows|
              && WellNested(rows[..r.error.row]) && !WellNested(rows[..r.error.row + 1])
              && (StartsWith(rows[r.error.row], PrincipleMarker) || StartsWith(rows[r.error.row], CriterionMarker)
                  || IsIndicator(rows[r.error.row]))
  {
    match Run(rows)
    case Success(st) => Success(st.tree)
    case Failure(e) =>
      RunDepth(rows[..e.row]);
      RunDepth(rows[..e.row + 1]);
      RunNext(rows, e.row, Run(rows[..e.row]).value);
      Failure(e)
  }

  lemma {:induction false} FailureSticks(rows: seq<string>, j: nat)
    requires j <= |rows| && Run(rows[..j]).Failure?
    ensures Run(rows) == Run(rows[..j])
    decreases |rows|
  {
    if j < |rows| {
      var init := rows[..|rows| - 1];
      assert init[..j] == rows[..j];
      FailureSticks(init, j);
    } else {
      assert rows[..j] == rows;
    }
  }

  /** One more row: the fold so far, then one step on that row. */
  lemma RunNext(rows: seq<string>, i: nat, st: State)
    requires i < |rows| && Run(rows[..i]) == Success(st)
    ensures Step(st, rows[i]).Failure? ==> Run(rows[..i + 1]) == Failure(KeyError(i, Step(st, rows[i]).error))
    ensures Step(st, rows[i]).Success? ==> Run(rows[..i + 1]) == Success(Step(st, rows[i]).value)
  {
    assert rows[..i + 1][..i] == rows[..i];
  }

  /** One pass of the catalogue loop on the row text: the dictionary and the
      cursor are updated in place, or the KeyError is raised. */
  method ApplyRow(st: State, text: string) returns (r: Result<State, Missing>)
    ensures r == Step(st, text)
  {
    var tree := st.tree;
    var scope, principle, criterion := st.cursor.scope, st.cursor.principle, st.cursor.criterion;
    if StartsWith(text, ScopeMarker) {
      scope := Some(Strip(RemoveAll(text, ScopePrefix)));
      tree := Put(tree, scope.value, []);
    } else if StartsWith(text, PrincipleMarker) {
      principle := Some(Strip(text));
      if scope.None? || Get(tree, scope.value).None? {
        return Failure(MissingScope);
      }
      var ps := Get(tree, scope.value).value;
      tree := Put(tree, scope.value, Put(ps, principle.value, []));
    } else if StartsWith(text, CriterionMarker) {
      criterion := Some(Strip(text));
      if scope.None? || Get(tree, scope.value).None? {
        return Failure(MissingScope);
      }
      var ps := Get(tree, scope.value).value;
      if principle.None? || Get(ps, principle.value).None? {
        return Failure(MissingPrinciple);
      }
      var cs := Get(ps, principle.value).value;
      tree := Put(tree, scope.value, Put(ps, principle.value, Put(cs, criterion.value, [])));
    } else if IsIndicator(text) {
      if scope.None? || Get(tree, scope.value).None? {
        return Failure(MissingScope);
      }
      var ps := Get(tree, scope.value).value;
      if principle.None? || Get(ps, principle.value).None? {
        return Failure(MissingPrinciple);
      }
      var cs := Get(ps, principle.value).value;
      if criterion.None? || Get(cs, criterion.value).None? {
        return Failure(MissingCriterion);
      }
      var inds := Get(cs, criterion.value).value;
      tree := Put(tree, scope.value, Put(ps, principle.value, Put(cs, criterion.value, inds + [text])));
    }
    r := Success(State(tree, Cursor(scope, principle, criterion)));
  }

  /** The catalogue loop over the rows, stopping at the first KeyError. */
  method BuildHierarchy(rows: seq<string>) returns (r: Result<Tree, FoldError>)
    ensures r == HierarchyOf(rows)
  {
    var st := Start;
    var i := 0;
    while i < |rows|
      invariant 0 <= i <= |rows|
      invariant Run(rows[..i]) == Success(st)
    {
      RunNext(rows, i, st);
      var next := ApplyRow(st, rows[i]);
      if next.Failure? {
        FailureSticks(rows, i + 1);
        return Failure(KeyError(i, next.error));
      }
      st := next.value;
      i := i + 1;
    }
    assert rows[..i] == rows;
    r := Success(st.tree);
  }

  // ---------------------------------------------------------------------
  // When the fold succeeds: the header nesting discipline

  /** How many of the current scope, principle and criterion are open, that is,
      present in the dictionary under the cursor. */
  function OpenDepth(st: State): nat
  {
    if ScopeEntry(st).Failure? then 0
    else if PrincipleEntry(st).Failure? then 1
    else if CriterionEntry(st).Failure? then 2
    else 3
  }

  /** The nesting discipline on its own: a scope header opens level 1, a
      principle needs an open scope, a criterion an open principle, an indicator
      an open criterion; any other row changes nothing. */
  function NextDepth(d: nat, text: string): Option<nat>
  {
    if StartsWith(text, ScopeMarker) then Some(1)
    else if StartsWith(text, PrincipleMarker) then (if d >= 1 then Some(2) else None)
    else if StartsWith(text, CriterionMarker) then (if d >= 2 then Some(3) else None)
    else if IsIndicator(text) then (if d == 3 then Some(3) else None)
    else Some(d)
  }

  function Depth(rows: seq<string>): Option<nat>
  {
    if rows == [] then Some(0)
    else
      match Depth(rows[..|rows| - 1])
      case None => None
      case Some(d) => NextDepth(d, rows[|rows| - 1])
  }

  /** No principle, criterion or indicator row comes before its enclosing headers. */
  predicate WellNested(rows: seq<string>)
  {
    Depth(rows).Some?
  }

  lemma StepDepthPrinciple(st: State, text: string)
    requires !StartsWith(text, ScopeMarker) && StartsWith(text, PrincipleMarker)
    requires ScopeEntry(st).Success?
    ensures Step(st, text).Success? && OpenDepth(Step(st, text).value) == 2
  {
    var st' := Step(st, text).value;
    var ps' := Put(ScopeEntry(st).value, Strip(text), []);
    assert Get(st'.tree, st.cursor.scope.value) == Some(ps');
    assert Get(ps', Strip(text)) == Some([]);
  }

  lemma StepDepthCriterion(st: State, text: string)
    requires !StartsWith(text, ScopeMarker) && !StartsWith(text, PrincipleMarker) && StartsWith(text, CriterionMarker)
    requires PrincipleEntry(st).Success?
    ensures Step(st, text).Success? && OpenDepth(Step(st, text).value) == 3
  {
    var cur := st.cursor;
    var st' := Step(st, text).value;
    var cs' := Put(PrincipleEntry(st).value, Strip(text), []);
    var ps' := Put(ScopeEntry(st).value, cur.principle.value, cs');
    assert Get(st'.tree, cur.scope.value) == Some(ps');
    assert Get(ps', cur.principle.value) == Some(cs');
    assert Get(cs', Strip(text)) == Some([]);
  }

  lemma StepDepthIndicator(st: State, text: string)
    requires !StartsWith(text, ScopeMarker) && !StartsWith(text, PrincipleMarker) && !StartsWith(text, CriterionMarker)
    requires IsIndicator(text) && CriterionEntry(st).Success?
    ensures Step(st, text).Success? && OpenDepth(Step(st, text).value) == 3
  {
    var cur := st.cursor;
    var st' := Step(st, text).value;
    var inds := CriterionEntry(st).value;
    var cs' := Put(PrincipleEntry(st).value, cur.criterion.value, inds + [text]);
    var ps' := Put(ScopeEntry(st).value, cur.principle.value, cs');
    assert Get(st'.tree, cur.scope.value) == Some(ps');
    assert Get(ps', cur.principle.value) == Some(cs');
    assert Get(cs', cur.criterion.value) == Some(inds + [text]);
  }

  lemma StepDepth(st: State, text: string)
    ensures Step(st, text).Success? <==> NextDepth(OpenDepth(st), text).Some?
    ensures Step(st, text).Success? ==> NextDepth(OpenDepth(st), text) == Some(OpenDepth(Step(st, text).value))
  {
    if StartsWith(text, ScopeMarker) {
      var a := Strip(RemoveAll(text, ScopePrefix));
      assert Get(Step(st, text).value.tree, a) == Some([]);
    } else if StartsWith(text, PrincipleMarker) {
      if ScopeEntry(st).Success? {
        StepDepthPrinciple(st, text);
      }
    } else if StartsWith(text, CriterionMarker) {
      if PrincipleEntry(st).Success? {
        StepDepthCriterion(st, text);
      }
    } else if IsIndicator(text) {
      if CriterionEntry(st).Success? {
        StepDepthIndicator(st, text);
      }
    }
  }

  lemma {:induction false} RunDepth(rows: seq<string>)
    ensures Run(rows).Success? <==> Depth(rows).Some?
    ensures Run(rows).Success? ==> Depth(rows) == Some(OpenDepth(Run(rows).value))
  {
    if rows != [] {
      RunDepth(rows[..|rows| - 1]);
      if Run(rows[..|rows| - 1]).Success? {
        StepDepth(Run(rows[..|rows| - 1]).value, rows[|rows| - 1]);
      }
    }
  }

  /** The fold raises no KeyError exactly when the catalogue is well nested. */
  lemma SucceedsIffWellNested(rows: seq<string>)
    ensures HierarchyOf(rows).Success? <==> WellNested(rows)
  {
    RunDepth(rows);
  }

  // ---------------------------------------------------------------------
  // What the fold files where

  /** hierarquia[a][p][c], if every key is present. */
  function LeafList(tree: Tree, a: string, p: string, c: string): Option<seq<string>>
  {
    match Get(tree, a)
    case None => None
    case Some(ps) =>
      match Get(ps, p)
      case None => None
      case Some(cs) => Get(cs, c)
  }

  /** An "Ambito" row opens a fresh, empty scope under its name (replacing one of
      the same name) and points the cursor at it; the principle and criterion
      cursor is left as it was, and every other scope is untouched. */
  lemma ScopeRowOpensEmptyScope(st: State, text: string)
    requires StartsWith(text, ScopeMarker)
    ensures Step(st, text).Success?
    ensures var a := Strip(RemoveAll(text, ScopePrefix));
            var st' := Step(st, text).value;
            && st'.cursor == st.cursor.(scope := Some(a))
            && Get(st'.tree, a) == Some([])
            && forall b :: b != a ==> Get(st'.tree, b) == Get(st.tree, b)
  {
  }

  /** An indicator row is appended, at the end, to the list of the criterion the
      cursor points at; the cursor and every other list are unchanged. */
  lemma IndicatorRowAppends(st: State, text: string)
    requires !StartsWith(text, ScopeMarker) && !StartsWith(text, PrincipleMarker)
    requires !StartsWith(text, CriterionMarker) && IsIndicator(text)
    requires Step(st, text).Success?
    ensures st.cursor.scope.Some? && st.cursor.principle.Some? && st.cursor.criterion.Some?
    ensures var st' := Step(st, text).value;
            var a, p, c := st.cursor.scope.value, st.cursor.principle.value, st.cursor.criterion.value;
            && st'.cursor == st.cursor
            && LeafList(st.tree, a, p, c).Some?
            && LeafList(st'.tree, a, p, c) == Some(LeafList(st.tree, a, p, c).value + [text])
            && forall a', p', c' :: (a', p', c') != (a, p, c) ==>
                 LeafList(st'.tree, a', p', c') == LeafList(st.tree, a', p', c')
  {
    var st' := Step(st, text).value;
    var a, p, c := st.cursor.scope.value, st.cursor.principle.value, st.cursor.criterion.value;
    forall a', p', c' | (a', p', c') != (a, p, c)
      ensures LeafList(st'.tree, a', p', c') == LeafList(st.tree, a', p', c')
    {
      if a' == a {
        var ps := Get(st.tree, a).value;
        if p' == p {
          var cs := Get(ps, p).value;
          assert Get(Get(Get(st'.tree, a).value, p).value, c') == Get(cs, c');
        } else {
          assert Get(Get(st'.tree, a).value, p') == Get(ps, p');
        }
      }
    }
  }

  ghost predicate CriteriaWithin(cs: Criteria, allowed: set<string>)
  {
    forall ce :: ce in cs ==> forall x :: x in ce.1 ==> x in allowed
  }

  ghost predicate PrinciplesWithin(ps: Principles, allowed: set<string>)
  {
    forall pe :: pe in ps ==> CriteriaWithin(pe.1, allowed)
  }

  /** Every indicator name filed anywhere in `tree` is in `allowed`. */
  ghost predicate LeavesWithin(tree: Tree, allowed: set<string>)
  {
    forall se :: se in tree ==> PrinciplesWithin(se.1, allowed)
  }

  /** The indicator rows of the catalogue column. */
  ghost function IndicatorRows(rows: seq<string>): set<string>
  {
    set r | r in rows && IsIndicator(r)
  }

  lemma PutCriteriaWithin(cs: Criteria, c: string, inds: seq<string>, allowed: set<string>)
    requires CriteriaWithin(cs, allowed)
    requires forall x :: x in inds ==> x in allowed
    ensures CriteriaWithin(Put(cs, c, inds), allowed)
  {
  }

  lemma PutPrinciplesWithin(ps: Principles, p: string, cs: Criteria, allowed: set<string>)
    requires PrinciplesWithin(ps, allowed)
    requires CriteriaWithin(cs, allowed)
    ensures PrinciplesWithin(Put(ps, p, cs), allowed)
  {
  }

  lemma PutLeavesWithin(tree: Tree, a: string, ps: Principles, allowed: set<string>)
    requires LeavesWithin(tree, allowed)
    requires PrinciplesWithin(ps, allowed)
    ensures LeavesWithin(Put(tree, a, ps), allowed)
  {
  }

  lemma StepLeaves(st: State, text: string, allowed: set<string>)
    requires LeavesWithin(st.tree, allowed)
    requires IsIndicator(text) ==> text in allowed
    requires Step(st, text).Success?
    ensures LeavesWithin(Step(st, text).value.tree, allowed)
  {
    var tree := st.tree;
    if StartsWith(text, ScopeMarker) {
      PutLeavesWithin(tree, Strip(RemoveAll(text, ScopePrefix)), [], allowed);
    } else if StartsWith(text, PrincipleMarker) {
      var a := st.cursor.scope.value;
      var ps := ScopeEntry(st).value;
      assert (a, ps) in tree;
      PutPrinciplesWithin(ps, Strip(text), [], allowed);
      PutLeavesWithin(tree, a, Put(ps, Strip(text), []), allowed);
    } else if StartsWith(text, CriterionMarker) {
      CriterionStepLeaves(st, text, allowed);
    } else if IsIndicator(text) {
      IndicatorStepLeaves(st, text, allowed);
    }
  }

  /** StepLeaves for a criterion row. */
  lemma CriterionStepLeaves(st: State, text: string, allowed: set<string>)
    requires LeavesWithin(st.tree, allowed)
    requires !StartsWith(text, ScopeMarker) && !StartsWith(text, PrincipleMarker) && StartsWith(text, CriterionMarker)
    requires Step(st, text).Success?
    ensures LeavesWithin(Step(st, text).value.tree, allowed)
  {
    var tree := st.tree;
    var a, p := st.cursor.scope.value, st.cursor.principle.value;
    var ps := ScopeEntry(st).value;
    var cs := PrincipleEntry(st).value;
    assert (a, ps) in tree;
    assert (p, cs) in ps;
    var cs' := Put(cs, Strip(text), []);
    PutCriteriaWithin(cs, Strip(text), [], allowed);
    PutPrinciplesWithin(ps, p, cs', allowed);
    PutLeavesWithin(tree, a, Put(ps, p, cs'), allowed);
  }

  /** StepLeaves for an indicator row. */
  lemma IndicatorStepLeaves(st: State, text: string, allowed: set<string>)
    requires LeavesWithin(st.tree, allowed)
    requires text in allowed
    requires !StartsWith(text, ScopeMarker) && !StartsWith(text, PrincipleMarker) && !StartsWith(text, CriterionMarker)
    requires IsIndicator(text)
    requires Step(st, text).Success?
    ensures LeavesWithin(Step(st, text).value.tree, allowed)
  {
    var tree := st.tree;
    var a, p, c := st.cursor.scope.value, st.cursor.principle.value, st.cursor.criterion.value;
    var ps := ScopeEntry(st).value;
    var cs := PrincipleEntry(st).value;
    var inds := CriterionEntry(st).value;
    assert (a, ps) in tree;
    assert (p, cs) in ps;
    assert (c, inds) in cs;
    var cs' := Put(cs, c, inds + [text]);
    PutCriteriaWithin(cs, c, inds + [text], allowed);
    PutPrinciplesWithin(ps, p, cs', allowed);
    PutLeavesWithin(tree, a, Put(ps, p, cs'), allowed);
  }

  lemma {:induction false} RunLeaves(rows: seq<string>)
    requires Run(rows).Success?
    ensures LeavesWithin(Run(rows).value.tree, IndicatorRows(rows))
  {
    if rows != [] {
      var init := rows[..|rows| - 1];
      RunLeaves(init);
      assert IndicatorRows(init) <= IndicatorRows(rows);
      StepLeaves(Run(init).value, rows[|rows| - 1], IndicatorRows(rows));
    }
  }

  /** Every name filed in the hierarchy is an indicator row of the catalogue. */
  lemma LeavesAreIndicatorRows(rows: seq<string>)
    requires HierarchyOf(rows).Success?
    ensures LeavesWithin(HierarchyOf(rows).value, IndicatorRows(rows))
  {
    RunLeaves(rows);
  }

  lemma {:induction false} RunScopesDistinct(rows: seq<string>)
    requires Run(rows).Success?
    ensures DistinctKeys(Run(rows).value.tree)
  {
    if rows != [] {
      var init := rows[..|rows| - 1];
      RunScopesDistinct(init);
      var st := Run(init).value;
      var text := rows[|rows| - 1];
      var a := st.cursor.scope;
      if StartsWith(text, ScopeMarker) {
        PutDistinct(st.tree, Strip(RemoveAll(text, ScopePrefix)), []);
      } else if StartsWith(text, PrincipleMarker) {
        PutDistinct(st.tree, a.value, Put(ScopeEntry(st).value, Strip(text), []));
      } else if StartsWith(text, CriterionMarker) {
        var ps := ScopeEntry(st).value;
        PutDistinct(st.tree, a.value, Put(ps, st.cursor.principle.value, Put(PrincipleEntry(st).value, Strip(text), [])));
      } else if IsIndicator(text) {
        var ps := ScopeEntry(st).value;
        var cs := PrincipleEntry(st).value;
        var c := st.cursor.criterion.value;
        PutDistinct(st.tree, a.value, Put(ps, st.cursor.principle.value, Put(cs, c, CriterionEntry(st).value + [text])));
      }
    }
  }

  /** The scopes of a built hierarchy are distinct (it is a dictionary). */
  lemma ScopesDistinct(rows: seq<string>)
    requires HierarchyOf(rows).Success?
    ensures DistinctKeys(HierarchyOf(rows).value)
  {
    RunScopesDistinct(rows);
  }

  /** A row that is neither a header nor an indicator changes nothing, wherever
      it stands. */
  lemma PlainRowIgnored(rows: seq<string>, i: nat)
    requires i < |rows|
    requires !StartsWith(rows[i], ScopeMarker) && !StartsWith(rows[i], PrincipleMarker)
    requires !StartsWith(rows[i], CriterionMarker) && !IsIndicator(rows[i])
    ensures Run(rows[..i + 1]) == Run(rows[..i])
  {
    if Run(rows[..i]).Success? {
      RunNext(rows, i, Run(rows[..i]).value);
    } else {
      assert rows[..i + 1][..i] == rows[..i];
      FailureSticks(rows[..i + 1], i);
    }
  }

  /** Without an "Ambito" row, a fold that succeeds has filed nothing and moved
      no cursor. */
  lemma {:induction false} NoScopeRowKeepsStart(rows: seq<string>)
    requires forall j :: 0 <= j < |rows| ==> !StartsWith(rows[j], ScopeMarker)
    requires Run(rows).Success?
    ensures Run(rows) == Success(Start)
  {
    if rows != [] {
      var init := rows[..|rows| - 1];
      assert forall j :: 0 <= j < |init| ==> init[j] == rows[j];
      NoScopeRowKeepsStart(init);
    }
  }

  /** A principle row with no "Ambito" row before it stops the fold with a
      KeyError: at that row when the rows before it pass, at an earlier row
      otherwise. */
  lemma OrphanPrincipleFails(rows: seq<string>, i: nat)
    requires i < |rows| && StartsWith(rows[i], PrincipleMarker)
    requires forall j :: 0 <= j < i ==> !StartsWith(rows[j], ScopeMarker)
    ensures HierarchyOf(rows).Failure? && HierarchyOf(rows).error.row <= i
    ensures Run(rows[..i]).Success? ==> HierarchyOf(rows) == Failure(KeyError(i, MissingScope))
  {
    if Run(rows[..i]).Success? {
      NoScopeRowKeepsStart(rows[..i]);
      assert rows[i][0] == PrincipleMarker[0] != ScopeMarker[0];
      RunNext(rows, i, Start);
      FailureSticks(rows, i + 1);
    } else {
      FailureSticks(rows, i);
    }
  }

  /** An "Ambito" row names its scope by the text after "Ambito ", stripped,
      when that text does not itself contain "Ambito ". */
  lemma ScopeRowName(st: State, name: string)
    requires !Contains(name, ScopePrefix)
    ensures Step(st, ScopePrefix + name)
         == Success(State(Put(st.tree, Strip(name), []), st.cursor.(scope := Some(Strip(name)))))
  {
    var text := ScopePrefix + name;
    assert text[..|ScopeMarker|] == ScopeMarker;
    RemoveAllPrefix(ScopePrefix, name);
  }
}
