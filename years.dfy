/** Years in the document: a standalone `20dd` token (the pattern `\b20\d{2}\b`), the
    document's context year, and the year back-fill of a date string without one. */
module Years {
  import opened Strings
  import opened Options

  /** A token `20dd` starts at `i`, with a word boundary on each side. */
  predicate YearAt(s: string, i: nat) {
    && i + 4 <= |s|
    && s[i] == '2' && s[i + 1] == '0' && IsDigit(s[i + 2]) && IsDigit(s[i + 3])
    && (i == 0 || !IsWordChar(s[i - 1]))
    && (i + 4 == |s| || !IsWordChar(s[i + 4]))
  }

  /** The leftmost year token at or after `from`: what `re.search` finds. */
  function FirstYearFrom(s: string, from: nat): (r: Option<nat>)
    ensures r.Some? ==> from <= r.value && YearAt(s, r.value)
    ensures r.Some? ==> forall j :: from <= j < r.value ==> !YearAt(s, j)
    ensures r.None? ==> forall j :: from <= j ==> !YearAt(s, j)
    decreases |s| - from
  {
    if from + 4 > |s| then None
    else if YearAt(s, from) then Some(from)
    else FirstYearFrom(s, from + 1)
  }

  function FirstYear(s: string): Option<nat> { FirstYearFrom(s, 0) }

  /** `re.search(r"\b20\d{2}\b", s)` succeeds. */
  predicate HasYearToken(s: string) { FirstYear(s).Some? }

  lemma HasYearTokenIff(s: string)
    ensures HasYearToken(s) <==> exists i :: 0 <= i <= |s| && YearAt(s, i)
  {
    if !HasYearToken(s) {
      assert forall j :: 0 <= j ==> !YearAt(s, j);
    }
  }

  /** `int(m.group(1))` of a year token. */
  function YearValue(s: string, i: nat): (y: int)
    requires YearAt(s, i)
    ensures 2000 <= y <= 2099
  {
    var t := s[i..i + 4];
    assert AllDigits(t);
    assert DigitsValue(t[..1]) == 2 by { assert t[..1][..0] == []; }
    assert t[..3][..2] == t[..2] && t[..2][..1] == t[..1];
    assert DigitsValue(t[..2]) == 20;
    assert 200 <= DigitsValue(t[..3]) <= 209;
    DigitsValue(t)
  }

  /** `infer_context_year`: the value of the first year token, otherwise the fallback
      (the current calendar year in the source, a parameter here). */
  function InferContextYear(text: string, fallback: int): (y: int)
    ensures HasYearToken(text) ==> 2000 <= y <= 2099 && y == YearValue(text, FirstYear(text).value)
    ensures HasYearToken(text) ==> forall j :: 0 <= j < FirstYear(text).value ==> !YearAt(text, j)
    ensures !HasYearToken(text) ==> y == fallback
  {
    match FirstYear(text)
    case Some(i) => YearValue(text, i)
    case None => fallback
  }

  /** The year back-fill of `find_nearest_date`: a cleaned date string without a year token
      gets `", <year>"` appended. */
  function WithYear(cleaned: string, ctxYear: int): (r: string)
    ensures HasYearToken(cleaned) ==> r == cleaned
    ensures !HasYearToken(cleaned) ==> r == cleaned + ", " + IntToDecimal(ctxYear)
  {
    if HasYearToken(cleaned) then cleaned else cleaned + ", " + IntToDecimal(ctxYear)
  }

  /** No year token of `s + ", " + y` starts inside `s` or the separator unless it is one of `s`. */
  lemma {:induction false} AppendedYearTokens(s: string, y: int, j: nat)
    requires 2000 <= y <= 2099
    requires j < |s| + 2
    ensures YearAt(s + ", " + IntToDecimal(y), j) <==> YearAt(s, j)
  {
    var t := s + ", " + IntToDecimal(y);
    YearDecimal(y);
    assert t[|s|] == ',' && t[|s| + 1] == ' ';
    if j + 4 <= |s| {
      assert t[j..j + 4] == s[j..j + 4];
      assert j > 0 ==> t[j - 1] == s[j - 1];
      assert j + 4 < |s| ==> t[j + 4] == s[j + 4];
    } else {
      assert !YearAt(t, j) by {
        if j == |s| + 1 {
          assert t[j] == ' ';
        } else {
          assert j <= |s| < j + 4 && t[|s|] == ',';
        }
      }
    }
  }

  /** With a context year in 2000..2099, the back-filled string always has a year token, and
      when the year was appended, it is the context year that a later search finds first. */
  lemma {:induction false} WithYearHasYear(cleaned: string, ctxYear: int)
    requires 2000 <= ctxYear <= 2099
    ensures HasYearToken(WithYear(cleaned, ctxYear))
    ensures !HasYearToken(cleaned) ==> InferContextYear(WithYear(cleaned, ctxYear), 0) == ctxYear
  {
    if !HasYearToken(cleaned) {
      var t := WithYear(cleaned, ctxYear);
      var p := |cleaned| + 2;
      YearDecimal(ctxYear);
      assert t[p..] == IntToDecimal(ctxYear);
      assert YearAt(t, p);
      forall j | 0 <= j < p ensures !YearAt(t, j) {
        AppendedYearTokens(cleaned, ctxYear, j);
      }
      assert FirstYear(t) == Some(p);
      DecimalRoundTrip(ctxYear);
      assert t[p..p + 4] == IntToDecimal(ctxYear);
    }
  }

  /** The back-fill is idempotent for a context year in 2000..2099. */
  lemma WithYearIdempotent(cleaned: string, ctxYear: int)
    requires 2000 <= ctxYear <= 2099
    ensures WithYear(WithYear(cleaned, ctxYear), ctxYear) == WithYear(cleaned, ctxYear)
  {
    WithYearHasYear(cleaned, ctxYear);
  }
}
