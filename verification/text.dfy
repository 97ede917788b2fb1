/** The handful of Python string operations the scoring core relies on:
    str.strip(), str.startswith(), str.replace(p, ""), str.split(c)[0],
    str.isdigit(), str.lower() and the `in` substring test. */
module Text {

  /** The characters Python's str.isspace() accepts, which are the ones
      str.strip() (no argument) removes from both ends. */
  predicate IsSpace(c: char)
  {
    ('\t' <= c <= '\r') || ('\U{1C}' <= c <= '\U{1F}') || c == ' '
    || c == '\U{85}' || c == '\U{A0}' || c == '\U{1680}'
    || ('\U{2000}' <= c <= '\U{200A}') || c == '\U{2028}' || c == '\U{2029}'
    || c == '\U{202F}' || c == '\U{205F}' || c == '\U{3000}'
  }

  /** The decimal digits accepted by str.isdigit() (ASCII only, see README). */
  predicate IsDigit(c: char)
  {
    '0' <= c <= '9'
  }

  /** str.isdigit(): non-empty and every character a digit. */
  predicate AllDigits(s: string)
  {
    s != [] && forall i :: 0 <= i < |s| ==> IsDigit(s[i])
  }

  /** Number of whitespace characters at the front of `s`. */
  function LeadingSpaces(s: string): (k: nat)
    ensures k <= |s|
    ensures forall i :: 0 <= i < k ==> IsSpace(s[i])
    ensures k < |s| ==> !IsSpace(s[k])
  {
    if s == [] || !IsSpace(s[0]) then 0 else 1 + LeadingSpaces(s[1..])
  }

  /** Number of whitespace characters at the back of `s`. */
  function TrailingSpaces(s: string): (k: nat)
    ensures k <= |s|
    ensures forall i :: |s| - k <= i < |s| ==> IsSpace(s[i])
    ensures k < |s| ==> !IsSpace(s[|s| - 1 - k])
  {
    if s == [] || !IsSpace(s[|s| - 1]) then 0 else 1 + TrailingSpaces(s[..|s| - 1])
  }

  /** str.strip(): drop the leading and the trailing whitespace. */
  function Strip(s: string): (r: string)
    ensures |r| <= |s|
    ensures r != [] ==> !IsSpace(r[0]) && !IsSpace(r[|r| - 1])
    ensures (forall i :: 0 <= i < |s| ==> IsSpace(s[i])) ==> r == []
    ensures (s == [] || (!IsSpace(s[0]) && !IsSpace(s[|s| - 1]))) ==> r == s
  {
    var a := LeadingSpaces(s);
    var t := s[a..];
    t[..|t| - TrailingSpaces(t)]
  }

  /** What str.strip() keeps is one contiguous slice of `s`, and everything
      outside that slice is whitespace. */
  lemma StripSpan(s: string)
    ensures exists a, b :: 0 <= a <= b <= |s| && Strip(s) == s[a..b]
                           && (forall i :: 0 <= i < a ==> IsSpace(s[i]))
                           && (forall i :: b <= i < |s| ==> IsSpace(s[i]))
  {
    var a := LeadingSpaces(s);
    var t := s[a..];
    var b := a + |t| - TrailingSpaces(t);
    assert forall i :: b <= i < |s| ==> IsSpace(s[i]) by {
      forall i | b <= i < |s| ensures IsSpace(s[i]) {
        assert s[i] == t[i - a];
      }
    }
    assert s[a..b] == t[..|t| - TrailingSpaces(t)];
  }

  /** str.startswith(p). */
  predicate StartsWith(s: string, p: string)
  {
    |p| <= |s| && s[..|p|] == p
  }

  /** `needle` occurs in `hay` starting at position i. */
  predicate OccursAt(hay: string, needle: string, i: nat)
  {
    i + |needle| <= |hay| && hay[i..i + |needle|] == needle
  }

  /** Python's `needle in hay` on strings. */
  predicate Contains(hay: string, needle: string)
  {
    StartsWith(hay, needle) || (hay != [] && Contains(hay[1..], needle))
  }

  /** `needle in hay` holds exactly when the needle occurs at some position. */
  lemma {:induction false} ContainsIff(hay: string, needle: string)
    ensures Contains(hay, needle) <==> exists i: nat :: OccursAt(hay, needle, i)
  {
    if StartsWith(hay, needle) {
      assert OccursAt(hay, needle, 0);
    } else if hay == [] {
      forall i: nat ensures !OccursAt(hay, needle, i) {
      }
    } else {
      ContainsIff(hay[1..], needle);
      if Contains(hay[1..], needle) {
        var i: nat :| OccursAt(hay[1..], needle, i);
        assert hay[1..][i..i + |needle|] == hay[i + 1..i + 1 + |needle|];
        assert OccursAt(hay, needle, i + 1);
      } else {
        forall i: nat | OccursAt(hay, needle, i) ensures false {
          assert i != 0;
          assert hay[1..][i - 1..i - 1 + |needle|] == hay[i..i + |needle|];
          assert OccursAt(hay[1..], needle, i - 1);
        }
      }
    }
  }

  /** s.replace(pat, ""): every non-overlapping occurrence of `pat`, scanned
      left to right, is removed. */
  function RemoveAll(s: string, pat: string): (r: string)
    requires pat != []
    ensures |r| <= |s|
    ensures !Contains(s, pat) ==> r == s
  {
    if s == [] then []
    else if StartsWith(s, pat) then RemoveAll(s[|pat|..], pat)
    else [s[0]] + RemoveAll(s[1..], pat)
  }

  /** The scan removes the first occurrence it meets: when `pat` does not occur
      at any position inside `a`, removing from `a + pat + b` keeps `a` and
      goes on with `b`. */
  lemma {:induction false} RemoveAllFirst(a: string, pat: string, b: string)
    requires pat != []
    requires forall i :: 0 <= i < |a| ==> !OccursAt(a + pat + b, pat, i)
    ensures RemoveAll(a + pat + b, pat) == a + RemoveAll(b, pat)
  {
    var s := a + pat + b;
    if a == [] {
      assert s == pat + b && s[..|pat|] == pat && s[|pat|..] == b;
    } else {
      var s' := a[1..] + pat + b;
      assert s == [a[0]] + s';
      assert !OccursAt(s, pat, 0);
      assert s[0..|pat|] == s[..|pat|];
      RemoveAllSkip(s, pat);
      NoOccurrenceShifts(a, pat, b);
      RemoveAllFirst(a[1..], pat, b);
      assert s[0] == a[0] && s[1..] == s';
      assert [a[0]] + (a[1..] + RemoveAll(b, pat)) == a + RemoveAll(b, pat);
    }
  }

  /** A text that does not start with `pat` keeps its first character. */
  lemma RemoveAllSkip(s: string, pat: string)
    requires pat != [] && s != [] && !StartsWith(s, pat)
    ensures RemoveAll(s, pat) == [s[0]] + RemoveAll(s[1..], pat)
  {
  }

  lemma NoOccurrenceShifts(a: string, pat: string, b: string)
    requires a != []
    requires forall i :: 0 <= i < |a| ==> !OccursAt(a + pat + b, pat, i)
    ensures forall i :: 0 <= i < |a[1..]| ==> !OccursAt(a[1..] + pat + b, pat, i)
  {
    var s, s' := a + pat + b, a[1..] + pat + b;
    forall i | 0 <= i < |a[1..]| ensures !OccursAt(s', pat, i) {
      assert !OccursAt(s, pat, i + 1);
      if i + |pat| <= |s'| {
        assert s'[i..i + |pat|] == s[i + 1..i + 1 + |pat|];
      }
    }
  }

  /** A text made of `pat` followed by a rest in which `pat` does not occur loses
      exactly that leading `pat`: "Ambito X".replace("Ambito ", "") is "X". */
  lemma RemoveAllPrefix(pat: string, t: string)
    requires pat != [] && !Contains(t, pat)
    ensures RemoveAll(pat + t, pat) == t
  {
    RemoveAllFirst([], pat, t);
    assert [] + pat + t == pat + t;
  }

  /** The length of s.split(c)[0]: the position of the first `c`, or |s|. */
  function PrefixBefore(s: string, c: char): (k: nat)
    ensures k <= |s|
    ensures forall i :: 0 <= i < k ==> s[i] != c
    ensures k < |s| ==> s[k] == c
  {
    if s == [] || s[0] == c then 0 else 1 + PrefixBefore(s[1..], c)
  }

  /** str.lower() on one character, for ASCII and the Latin-1 capitals. */
  function LowerChar(c: char): char
  {
    if 'A' <= c <= 'Z' || ('\U{C0}' <= c <= '\U{DE}' && c != '\U{D7}')
    then (c as int + 32) as char
    else c
  }

  /** str.lower(), character by character. */
  function Lower(s: string): (r: string)
    ensures |r| == |s|
  {
    seq(|s|, i requires 0 <= i < |s| => LowerChar(s[i]))
  }

  /** Lowering twice is lowering once. */
  lemma LowerIdempotent(s: string)
    ensures Lower(Lower(s)) == Lower(s)
  {
    forall i | 0 <= i < |s| ensures LowerChar(LowerChar(s[i])) == LowerChar(s[i]) {
    }
  }
}
