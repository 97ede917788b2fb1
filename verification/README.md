# Effectiveness scoring of protected-area mosaics — a Dafny model

This project models the scoring core of two dashboards for a survey on the
effectiveness of protected-area mosaics.

**`app_efetividade1.py`** scores answers from 0 to 3, with "NA" for no answer.
- It recognises the indicator rows of the catalogue column.
- It averages each indicator's answers.
- It folds the catalogue rows into a nested scope → principle → criterion → indicator hierarchy.
- It rolls the means up as a mean of means: criterion, then principle, then scope.
- It runs a pooled t-test per scope, against 1.5.
- It lists a recommendation for every scope whose mean is below 1.5.

**`app_mosaicos.py`** is the respondent-level variant.
- It finds worksheets by keyword.
- It accepts or refuses a form submission.
- It coerces the stored answers to numbers, dropping "NS" and unparseable text.
- It unpivots the answers and joins them to the catalogue.
- It builds one sample point per respondent and classifies each scope as Efetivo, Incerto or Baixa against 2.0.
- It reports the scopes whose raw mean is below 2.0.

**How values are modelled.**
- Scores are the integers 0..3 or "NA".
- Means are exact `real`s. `None` stands for NaN, the mean of nothing.
- Python dicts are insertion-ordered association lists (`OrderedDict.Dict`). `Put` overwrites an existing key where it stands and appends a new key at the end.
- A `KeyError` that stops the script is a `Failure` of a `Result`.

**Where loops become methods.** Where the scripts change things in loops, the model has a method with loop invariants:
- the indicator-mean dict,
- the hierarchy fold,
- the nested rollup,
- the t-test pooling,
- the recommendation list,
- the sheet search,
- the record update,
- the column coercion,
- the per-scope reports.

Most of these methods are proved equal to a recursive specification function, and the properties are proved about those functions. A few are not:
- the sheet search and the record update state their result directly;
- one row of the fold (`ApplyRow`), one scope of the t-test (`TestScope`), the recommendation lookup (`LookUpText`) and the column coercion (`CoerceAnswers`) are proved equal to a non-recursive function.

**Thresholds follow the code.**
- The thresholds (1.5 and 2.0) and the direction of each test are fixed in the code, not configurable, and the model fixes them too.
- The effectiveness dashboard flags scopes below 1.5, while the mosaic dashboard flags scopes below 2.0.

## Model

| member | source | states |
|---|---|---|
| Indicators.IsIndicatorIff | app_efetividade1.py:14-15 | a row is an indicator row iff the text before the first "." of the stripped row is non-empty and all digits |
| Indicators.DottedRowIsIndicator | app_efetividade1.py:14-15 | "3.2 x" is an indicator row |
| Indicators.NumberRowIsIndicator | app_efetividade1.py:14-15 | "7", a row with no '.', is an indicator row |
| Indicators.UndottedRowIsNotIndicator | app_efetividade1.py:14-15 | "3 x" is not an indicator row: with no '.', the whole row must be digits |
| Indicators.LeadingDotRowIsNotIndicator | app_efetividade1.py:14-15 | ".5" is not an indicator row: nothing precedes the '.' |
| Text.Strip | app_efetividade1.py:15 | str.strip: no whitespace at either end; an all-whitespace text becomes empty; a text already stripped is unchanged |
| Text.StripSpan | app_efetividade1.py:15 | what str.strip keeps is one contiguous slice of the text, and everything before and after that slice is whitespace |
| Text.PrefixBefore | app_efetividade1.py:15 | split(".")[0] ends at the first "." or at the end of the text |
| Text.ContainsIff | app_mosaicos.py:29 | substring test `in` holds iff the needle occurs at some position |
| Text.RemoveAll | app_efetividade1.py:54 | replace(pat, "") never lengthens the text and leaves a text without pat unchanged |
| Text.RemoveAllFirst | app_efetividade1.py:54 | replace(pat, "") deletes the first occurrence of pat and carries on after it |
| Text.RemoveAllPrefix | app_efetividade1.py:54 | removing pat from pat + t gives back t when t does not contain pat |
| Indicators.IsIndicator | app_efetividade1.py:14-15 | an indicator row, once stripped, is non-empty and starts with a digit |
| Indicators.Grades | app_efetividade1.py:37 | the non-"NA" answers: empty iff every answer is "NA"; a grade is kept iff some user gave it, and occurs exactly as often as users gave it |
| Indicators.IndicatorMean | app_efetividade1.py:37-41 | an indicator's mean is undefined iff every answer is "NA" (or there are none), and otherwise lies in [0, 3] |
| Indicators.IndicatorMeans | app_efetividade1.py:35-41 | the dict loop fills one mean per indicator, each that indicator's mean, and no other key |
| Averages.Mean | app_efetividade1.py:39 | np.mean is undefined exactly on the empty list |
| Averages.MeanWithin | app_efetividade1.py:75-79 | the mean of values within [lo, hi] lies within [lo, hi] |
| Averages.DefinedMembers | app_efetividade1.py:73 | the NaN filter keeps exactly the defined means |
| Averages.DefinedWithin | app_efetividade1.py:73 | the filter keeps only values within the bounds the inputs respect |
| Averages.NoneDefined | app_efetividade1.py:73-74 | the NaN filter leaves nothing iff every mean in the list is undefined |
| Averages.DefinedSkipsNone | app_efetividade1.py:73 | an undefined mean anywhere in the list leaves the filtered list unchanged |
| OrderedDict.Get | app_efetividade1.py:72 | dict.get finds a stored entry, and finds nothing iff the key is absent |
| OrderedDict.Put | app_efetividade1.py:55 | after d[k] = v, k maps to v, every other key keeps its value, and no entry appears from nowhere |
| OrderedDict.PutKeys | app_efetividade1.py:55 | d[k] = v keeps the key order and appends a new key at the end |
| OrderedDict.PutDistinct | app_efetividade1.py:55 | d[k] = v keeps keys distinct |
| OrderedDict.UpdateGet | app_mosaicos.py:187 | after d.update(u) a key holds its value from u if u has one, and its old value otherwise |
| OrderedDict.UpdateDistinct | app_mosaicos.py:187 | d.update(u) keeps keys distinct |
| Hierarchy.Step | app_efetividade1.py:52-63 | an "Ambito" row never raises; only a principle, criterion or indicator row can; any other row keeps the current scope and the set of scopes; a row that is no header and no indicator changes nothing |
| Hierarchy.Run | app_efetividade1.py:51-63 | a KeyError is raised at a row of the catalogue, by one step from the state the rows before it built |
| Hierarchy.HierarchyOf | app_efetividade1.py:48-63 | a KeyError is raised at the first row that breaks the nesting, and that row is a principle, criterion or indicator row |
| Hierarchy.BuildHierarchy | app_efetividade1.py:48-63 | the row loop computes the fold of the rows, including the KeyError and the row it is raised at |
| Hierarchy.ApplyRow | app_efetividade1.py:51-63 | one row updates the dictionary and the cursor exactly as one step of the fold, or raises the KeyError of the first missing key |
| Hierarchy.FailureSticks | app_efetividade1.py:51-63 | once a row raises, the script never resumes: later rows change nothing |
| Hierarchy.RunDepth | app_efetividade1.py:51-63 | the fold succeeds iff the header-depth machine accepts the rows, and the depths agree |
| Hierarchy.SucceedsIffWellNested | app_efetividade1.py:48-63 | the hierarchy is built without KeyError iff no principle row comes before a scope row, and no criterion or indicator row comes before its enclosing headers |
| Hierarchy.ScopeRowOpensEmptyScope | app_efetividade1.py:53-55 | an "Ambito" row always succeeds and opens an empty map under the name with "Ambito " removed and stripped |
| Hierarchy.ScopeRowName | app_efetividade1.py:53-55 | the scope opened by "Ambito " + t is named t, stripped, when t does not contain "Ambito " |
| Hierarchy.IndicatorRowAppends | app_efetividade1.py:62-63 | an indicator row is appended to the list of the current criterion of the current principle and scope; nothing else changes |
| Hierarchy.LeavesAreIndicatorRows | app_efetividade1.py:51-63 | every indicator filed in the hierarchy is an indicator row of the catalogue |
| Hierarchy.ScopesDistinct | app_efetividade1.py:55 | the built hierarchy never lists a scope twice |
| Hierarchy.PlainRowIgnored | app_efetividade1.py:51-63 | a row that is no header and no indicator leaves the fold as it was, wherever it stands |
| Hierarchy.NoScopeRowKeepsStart | app_efetividade1.py:49-63 | without an "Ambito" row, a fold that succeeds ends in its starting state: nothing filed and no cursor set |
| Hierarchy.OrphanPrincipleFails | app_efetividade1.py:56-58 | a principle row with no "Ambito" row before it makes the fold raise KeyError: at that row when the rows before it pass, at an earlier row otherwise |
| Rollup.CriterionMean | app_efetividade1.py:72-75 | a criterion has no mean iff none of its indicators has a defined mean |
| Rollup.PrincipleMean | app_efetividade1.py:70-77 | a principle has no mean iff none of its criteria has one |
| Rollup.ScopeMean | app_efetividade1.py:68-79 | a scope has no mean iff none of its principles has one |
| Rollup.ScopeMeansFrom | app_efetividade1.py:66-79 | every scope in media_ambitos is a scope of the hierarchy, listed with that scope's mean of means |
| Rollup.RollupMeans | app_efetividade1.py:66-79 | the outer loop computes media_ambitos |
| Rollup.CriterionMeans | app_efetividade1.py:70-75 | the innermost loop collects the defined criterion means of a principle, in order |
| Rollup.PrincipleMeans | app_efetividade1.py:68-77 | the middle loop collects the defined principle means of a scope, in order |
| Rollup.ScopeMeansLookup | app_efetividade1.py:76-79 | a scope is in media_ambitos iff it has a defined mean, and then with that mean |
| Rollup.ScopeMeansWithinScale | app_efetividade1.py:66-79 | indicator means within [0, 3] give scope means within [0, 3] |
| Rollup.ScopeMeanWithinScale | app_efetividade1.py:70-79 | each scope's mean of means stays within [0, 3] |
| Rollup.AllNACriterionSkipped | app_efetividade1.py:72-75 | a criterion whose indicators are all undefined or missing has no mean, and adding it leaves the principle mean unchanged |
| Rollup.UndefinedPrincipleSkipped | app_efetividade1.py:76-79 | a principle without a defined mean leaves its scope's mean unchanged |
| Rollup.MeanOfMeansNotLeafMean | app_efetividade1.py:70-77 | criteria weigh equally: criterion means 3 and 0 give 1.5, where the four leaf means give 0.75 |
| TTestGate.PoolCriterion | app_efetividade1.py:92-94 | the inner loop pools the non-"NA" answers of a criterion's indicators |
| TTestGate.PoolPrinciple | app_efetividade1.py:91-94 | the loop pools the answers of a principle's criteria |
| TTestGate.PoolScope | app_efetividade1.py:89-94 | todas_notas is the pool of every indicator of the scope |
| TTestGate.TTestByScope | app_efetividade1.py:88-97 | the scope loop builds the t-test table |
| TTestGate.TestScope | app_efetividade1.py:89-97 | one scope contributes a row iff its pool holds at least 2 answers |
| TTestGate.TTestRowsFor | app_efetividade1.py:95-97 | a scope gets exactly one row iff its pool holds at least 2 answers, and that row carries the test on the pool and N = pool size; other scopes get none |
| TTestGate.TTestRows | app_efetividade1.py:88-97 | at most one row per scope of the hierarchy, and every row reports N ≥ 2 |
| TTestGate.TTestRowsFrom | app_efetividade1.py:88-97 | every row belongs to a scope of the hierarchy and reports the size of that scope's pool |
| TTestGate.CriterionPoolMembers | app_efetividade1.py:92-94 | a grade is pooled iff some user gave it to one of the indicators |
| TTestGate.CriterionAnswers | app_efetividade1.py:92-93 | the answers given to a criterion's indicators are exactly the answers filed under those indicators |
| TTestGate.CriterionPoolCount | app_efetividade1.py:92-94 | a grade occurs in a criterion's pool exactly as often as users gave it to the criterion's indicators |
| TTestGate.PrinciplePoolMembers | app_efetividade1.py:90-94 | a grade is in a principle's pool iff it is in the pool of one of its criteria |
| TTestGate.ScopePoolMembers | app_efetividade1.py:89-94 | a grade is in todas_notas iff it is in the pool of some criterion of some principle of the scope |
| Recommendations.FirstFor | app_efetividade1.py:107 | the position of the first spreadsheet row filed under the scope |
| Recommendations.TextFor | app_efetividade1.py:107-108 | the sentinel when no row matches; otherwise the text of the first matching row |
| Recommendations.LookUpText | app_efetividade1.py:107-108 | the search loop yields that text |
| Recommendations.Advices | app_efetividade1.py:104-109 | at most one row per scope mean, and every row carries a scope with its mean, which is below 1.5 |
| Recommendations.Recommend | app_efetividade1.py:104-109 | the loop builds the recommendation rows |
| Recommendations.AdviceIff | app_efetividade1.py:105-109 | a row (scope, mean, text) is listed iff the scope has that mean, the mean is below 1.5 and the text is the scope's text |
| Recommendations.OneAdvicePerLowScope | app_efetividade1.py:104-109 | with distinct scopes, a scope below 1.5 gets exactly one row and any other scope none |
| Recommendations.NoAdviceIffAllSatisfactory | app_efetividade1.py:111-115 | the list is empty iff every scope mean is at least 1.5 |
| SheetFinder.FindSheetByKeyword | app_mosaicos.py:24-33 | the first sheet in workbook order whose lowercase name contains the lowercase keyword; None iff none matches or the workbook cannot be opened |
| SheetFinder.Matches | app_mosaicos.py:29 | a sheet matches iff the lowered keyword occurs at some position of the lowered sheet name |
| SheetFinder.MatchIgnoresCase | app_mosaicos.py:29 | the match ignores case on either side |
| SheetFinder.KeywordsFindScopeSheets | app_mosaicos.py:16-21 | each keyword of SCOPE_KEYWORDS finds a sheet titled with its scope in capitals |
| Text.LowerIdempotent | app_mosaicos.py:29 | lowering twice is lowering once |
| Submission.Metadata | app_mosaicos.py:181-186 | Nome, Contato, Mosaico and Timestamp hold the submitted values and nothing else is set |
| Submission.BuildSubmission | app_mosaicos.py:177-188 | nothing is saved iff nome or mosaico is empty; the saved record holds every answer, the metadata under keys no answer overrides, and distinct keys |
| Submission.SavedRecordNamesRespondent | app_mosaicos.py:181-187 | a saved record names its respondent and mosaic unless an answer column shares the name |
| Responses.ParseNumber | app_mosaicos.py:214 | a text that parses holds a digit and nothing but digits, '.' and a leading sign |
| Responses.ParseRender | app_mosaicos.py:214 | to_numeric reads back every signed whole number written in decimal |
| Responses.ParseDecimal | app_mosaicos.py:214 | to_numeric reads back every signed number written as digits, a point and fraction digits |
| Responses.Coerce | app_mosaicos.py:213-214 | "NS" and blank cells give nothing, a number is kept, and a text that coerces holds a digit |
| Responses.FormAnswersCoerce | app_mosaicos.py:167 | the form's "NS" coerces to nothing and "0".."3" to their scores |
| Responses.Normalize | app_mosaicos.py:212-214 | a coerced cell is a number iff coercion succeeds, and then that number; otherwise blank |
| Responses.CoerceAnswers | app_mosaicos.py:211-214 | the column loop coerces every answer cell and changes nothing else |
| Responses.SelectMosaic | app_mosaicos.py:205 | exactly the responses of the selected mosaic |
| Responses.SelectMosaicCount | app_mosaicos.py:205 | each response of the mosaic is kept as often as it occurs, and no other response |
| Responses.Melt | app_mosaicos.py:217-218 | every observation's indicator is one of the question columns |
| Responses.MeltMembers | app_mosaicos.py:217-218 | a long-table observation exists iff some response holds that number under that question |
| Responses.MeltCount | app_mosaicos.py:217-218 | an observation occurs exactly as often as there are cells holding its number for its respondent under its question |
| Responses.CoercedMeltMembers | app_mosaicos.py:212-218 | after coercion the long table holds exactly the answers that coerce to a number: "NS", blanks and unparseable text are gone |
| Responses.CoercedMeltCount | app_mosaicos.py:212-218 | after coercion an observation occurs exactly as often as there are raw answers that coerce to its number for its respondent under its question |
| Responses.RowsOf | app_mosaicos.py:219 | the catalogue rows of an indicator |
| Responses.RowsOfCount | app_mosaicos.py:219 | each catalogue row of the indicator is kept as often as it occurs, and no other row |
| Responses.JoinOne | app_mosaicos.py:219 | an observation gives at least one merged row, each carrying its respondent, indicator and score |
| Responses.MergeLeft | app_mosaicos.py:219 | at least as many merged rows as observations, each carrying an observation of the long table |
| Responses.MergeLeftScoped | app_mosaicos.py:219 | a merged row carries scope s iff its observation exists and the catalogue files its indicator under s |
| Responses.MergeLeftCount | app_mosaicos.py:219 | a merged row with scope s occurs as often as its observation times the number of catalogue rows filing its indicator under s |
| Responses.MergeLeftUnmatchedCount | app_mosaicos.py:219 | an observation whose indicator the catalogue lacks is kept once per occurrence without a scope; one it lists never is |
| Responses.Unique | app_mosaicos.py:233 | unique(): the same values, each once |
| ScopeAnalysis.StatusOf | app_mosaicos.py:251-255 | Efetivo iff mean ≥ 2.0 and p < 0.05; Incerto iff mean ≥ 2.0 and p ≥ 0.05; Baixa iff mean < 2.0 |
| ScopeAnalysis.ScopeData | app_mosaicos.py:234 | a (name, score) pair is in the scope's data iff some merged row filed under the scope carries it |
| ScopeAnalysis.ScopeDataCount | app_mosaicos.py:234 | each (name, score) pair occurs as often as the merged rows of the scope carry it |
| ScopeAnalysis.PreparedScopeData | app_mosaicos.py:205-219 | a (name, score) pair is in a scope's data iff some response of the selected mosaic by that respondent has an answer that coerces to the score, under a question the catalogue files under the scope |
| ScopeAnalysis.NotesOf | app_mosaicos.py:238 | a respondent has scores in the data iff the name occurs in it |
| ScopeAnalysis.NotesOfCount | app_mosaicos.py:238 | each of a respondent's scores occurs as often as the data pairs it with the respondent |
| ScopeAnalysis.Sample | app_mosaicos.py:238-240 | one sample point per respondent |
| ScopeAnalysis.SampleIsPerRespondent | app_mosaicos.py:238-240 | the respondents are exactly the names in the data, each once, and each sample point is that respondent's mean |
| ScopeAnalysis.AnalyseScope | app_mosaicos.py:233-263 | no row iff the scope has no data; otherwise the row names the scope, its mean is the mean of Sample (one point per respondent), n is the number of distinct respondents (at least 1), n > 1 gives p from the test run on Sample against 2.0, n ≤ 1 gives p = 1.0, and the status follows the rule |
| ScopeAnalysis.Analysis | app_mosaicos.py:232-264 | at most one row per listed scope, each for a listed scope |
| ScopeAnalysis.AnalyseScopes | app_mosaicos.py:232-263 | the loop over the catalogue's scopes builds the results table |
| ScopeAnalysis.AnalysisRows | app_mosaicos.py:233-240 | a row exists iff the scope is listed and has data; its n is the number of distinct respondents, at least 1 |
| ScopeAnalysis.SmallSampleNeverEffective | app_mosaicos.py:243-253 | with n ≤ 1, p is 1.0 and the status is never Efetivo |
| ScopeAnalysis.RespondentMeansDifferFromRawMean | app_mosaicos.py:238-241 | respondent means weigh respondents equally: 3, 3, 3 from one respondent and 0 from another give the sample [3, 0] and mean 1.5, not 2.25 |
| ScopeAnalysis.UnevenScopeReported | app_mosaicos.py:237-255 | a scope with that data is reported with mean 1.5 and n = 2, tested on [3, 0], and classified Baixa |
| LowScopeReport.RawMean | app_mosaicos.py:274 | a scope has no raw mean iff no merged row carries it |
| LowScopeReport.BodyFor | app_mosaicos.py:279-285 | the notice iff no recommendation row is filed under the scope; otherwise exactly the scope's rows |
| LowScopeReport.SuggestionsFor | app_mosaicos.py:279 | exactly the recommendation rows of the scope |
| LowScopeReport.MissingWorkbookStopsReport | app_mosaicos.py:279 | one low score and no recommendations workbook stop the report with KeyError |
| LowScopeReport.ReportAsWritten | app_mosaicos.py:276-279 | the written report can fail only on the column-less frame, with KeyError 'Âmbito' |
| LowScopeReport.AsWrittenFailsIff | app_mosaicos.py:276-279 | the written report fails iff the frame has no columns and some scope is below 2.0 |
| LowScopeReport.AsWrittenAgrees | app_mosaicos.py:276-285 | where the written report completes, it equals the corrected one |
| LowScopeReport.Report | app_mosaicos.py:276-285 | at most one alert per listed scope, each for a listed scope whose mean is below 2.0 |
| LowScopeReport.ReportLowScopes | app_mosaicos.py:274-285 | the scope loop with its inner filter builds the corrected report |
| LowScopeReport.FilterSuggestions | app_mosaicos.py:279 | the filter keeps the recommendation rows of the scope, in order |
| LowScopeReport.AlertIff | app_mosaicos.py:276-285 | an alert is shown iff the scope's raw mean is below 2.0, with that mean, listing every recommendation of the scope or the notice when none exists |
| LowScopeReport.OneAlertPerLowScope | app_mosaicos.py:276-285 | over distinct scopes, each low scope gets exactly one alert and every other scope none |
| LowScopeReport.PresentScopes | app_mosaicos.py:274 | the groupby keys are the scopes the merged rows carry, each once |

## Left out

- The Streamlit interface is not modelled. This covers widgets, layout, the navigation menu, `st.stop` and caching.
- The form loops that collect answers are not modelled (app_efetividade1.py:28-30, app_mosaicos.py:144-172). The answers they produce are parameters.
- The "2)" report (the raw table) and the "3)" report (`describe`) are presentation and are not modelled.
- File I/O is not modelled: reading the workbooks and CSVs, the loaders, `save_response` and `load_responses`. Their results are parameters. Appending CSV rows without a header is not modelled, so column misalignment between submissions is out of reach.
- `TTestGate.TTest`: the t statistic and p-value of `ttest_1samp` are an uninterpreted function parameter. Only the gate on the pool size is modelled.
- `ScopeAnalysis.PValue`: the one-sided p-value is an uninterpreted function parameter. Only the n > 1 gate is modelled.
- Floating point is not modelled; every mean is exact.
- Rounding for display is not modelled. The result rows carry unrounded values.
- `pd.Timestamp.now()` is not modelled; the timestamp is a parameter.
- ScopeAnalysis.Sample: groupby orders respondents by name. The model orders them by first appearance. Neither the mean nor a symmetric test depends on the order.
- LowScopeReport.PresentScopes: groupby lists scopes sorted by name. The model lists them by first appearance, so the alerts come in that order.
- Responses.ParseNumber: only signed plain decimals are read. Exponents, "inf"/"nan", surrounding whitespace and thousands separators are not.
- Responses.Coerce: `.replace("NS", None)` is read as replacing "NS" by a missing value, as pandas does from version 1.4 on. Older pandas filled the cell from the row above instead, and that behaviour is not modelled.
- Responses.Response: cells are read back from CSV as typed, so a name such as "NA", which `read_csv` turns into a missing value, is not modelled.
- Text.IsDigit: recognises ASCII digits only, where Python's `isdigit` also accepts other Unicode digits.
- Text.LowerChar: lowers ASCII and the Latin-1 capitals only, not all of Unicode.
- Hierarchy.Run: each catalogue cell is a string. `str()` of a non-string cell (such as "nan") is not modelled.
- TTestGate.TTestRows: requires every indicator of the hierarchy to be a key of the answer table. Hierarchy.LeavesAreIndicatorRows proves that every filed indicator is an indicator row of the catalogue. That the script keys the answer table by exactly those rows (app_efetividade1.py:24-27) is not proved, because the form loop is left out.
- The `row.get('Problema', 'Problema Geral')` defaults are not modelled. The columns always exist once a recommendations sheet is loaded, and empty (NaN) cells are not modelled.
- The catalogue's principle and criterion columns are carried but play no part in the mosaic reports.

## Findings

| source | as written | input that shows it | evidently intended | confidence | as-written member | corrected member |
|---|---|---|---|---|---|---|
| app_mosaicos.py:279 | `df_recomenda['Âmbito']` is looked up even when `load_recommendations_from_excel` returned the column-less `pd.DataFrame()` (lines 73-74, 93-95), which raises KeyError | no recommendations workbook (or no sheet matching a keyword) and one response scoring 1 on an indicator of scope GESTÃO | a missing workbook means no recommendations: the low scope is shown with the notice "Sem recomendações específicas cadastradas." | not executed | LowScopeReport.MissingWorkbookStopsReport | LowScopeReport.OneAlertPerLowScope |
