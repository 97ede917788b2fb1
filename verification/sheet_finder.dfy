/** find_sheet_by_keyword of the mosaic dashboard: the first worksheet whose
    name contains a scope keyword, compared case-insensitively. */
module SheetFinder {
  import opened Wrappers
  import opened Text

  /** SCOPE_KEYWORDS: each scope with the keyword that finds its worksheet. */
  const ScopeKeywords: seq<(string, string)> :=
    [("GOVERNANÇA", "govern"), ("GESTÃO", "gest"), ("SOCIODIVERSIDADE", "socio"), ("BIODIVERSIDADE", "bio")]

  /** `keyword.lower() in sheet.lower()`. */
  predicate Matches(sheet: string, keyword: string)
    ensures Matches(sheet, keyword) <==> exists i: nat :: OccursAt(Lower(sheet), Lower(keyword), i)
  {
    ContainsIff(Lower(sheet), Lower(keyword));
    Contains(Lower(sheet), Lower(keyword))
  }

  /** The search over the workbook's sheet names, in workbook order. A workbook
      that cannot be opened is `None` (the exception branch). */
  method FindSheetByKeyword(workbook: Option<seq<string>>, keyword: string) returns (r: Option<string>)
    ensures workbook.None? ==> r.None?
    ensures workbook.Some? && r.None? ==> forall i :: 0 <= i < |workbook.value| ==> !Matches(workbook.value[i], keyword)
    ensures r.Some? ==> workbook.Some?
    ensures r.Some? && workbook.Some? ==>
              exists k :: 0 <= k < |workbook.value| && workbook.value[k] == r.value && Matches(r.value, keyword)
                          && forall i :: 0 <= i < k ==> !Matches(workbook.value[i], keyword)
  {
    if workbook.None? {
      return None;
    }
    var sheets := workbook.value;
    var i := 0;
    while i < |sheets|
      invariant 0 <= i <= |sheets|
      invariant forall j :: 0 <= j < i ==> !Matches(sheets[j], keyword)
    {
      if Contains(Lower(sheets[i]), Lower(keyword)) {
        return Some(sheets[i]);
      }
      i := i + 1;
    }
    return None;
  }

  /** The comparison ignores case on either side. */
  lemma MatchIgnoresCase(sheet: string, keyword: string)
    ensures Matches(Lower(sheet), keyword) == Matches(sheet, keyword)
    ensures Matches(sheet, Lower(keyword)) == Matches(sheet, keyword)
  {
    LowerIdempotent(sheet);
    LowerIdempotent(keyword);
  }

  /** Each keyword of SCOPE_KEYWORDS finds a sheet titled with its scope in
      capitals, such as "govern" the GOVERNANÇA sheet. */
  lemma KeywordsFindScopeSheets()
    ensures forall e :: e in ScopeKeywords ==> Matches(e.0, e.1)
  {
    assert Lower("GOVERNANÇA") == "governança" && Lower("govern") == "govern";
    assert StartsWith("governança", "govern");
    assert Lower("GESTÃO") == "gestão" && Lower("gest") == "gest";
    assert StartsWith("gestão", "gest");
    assert Lower("SOCIODIVERSIDADE") == "sociodiversidade" && Lower("socio") == "socio";
    assert StartsWith("sociodiversidade", "socio");
    assert Lower("BIODIVERSIDADE") == "biodiversidade" && Lower("bio") == "bio";
    assert StartsWith("biodiversidade", "bio");
  }
}
