/** `clean_date_str`: the three rewrites that turn a raw date match into a display string.
    1. `(?<=\b[A-Za-z]{3})\s*\.\s*(\d{1,2})` becomes `". " + digits` ("Oct . 5" reads "Oct. 5");
    2. every whitespace run becomes one space, then the characters ` ,.;-–—` are stripped
       from both ends;
    3. every whitespace run followed by a comma is removed (`\s+,` becomes `,`). */
module Cleaning {
  import opened Strings
  import opened Options

  /** The characters `str.strip(" ,.;-–—")` removes. */
  predicate IsSeparator(c: char) {
    c == ' ' || c == ',' || c == '.' || c == ';' || c == '-' || c == '\U{2013}' || c == '\U{2014}'
  }

  /** The characters of `s` other than whitespace, in order. */
  function NonSpace(s: string): string
  {
    if s == [] then [] else (if IsSpace(s[0]) then [] else [s[0]]) + NonSpace(s[1..])
  }

  lemma {:induction false} NonSpaceConcat(a: string, b: string)
    ensures NonSpace(a + b) == NonSpace(a) + NonSpace(b)
  {
    if a == [] {
      assert a + b == b;
    } else {
      var h := if IsSpace(a[0]) then [] else [a[0]];
      assert (a + b)[0] == a[0] && (a + b)[1..] == a[1..] + b;
      assert NonSpace(a + b) == h + NonSpace(a[1..] + b);
      NonSpaceConcat(a[1..], b);
      assert h + (NonSpace(a[1..]) + NonSpace(b)) == (h + NonSpace(a[1..])) + NonSpace(b);
    }
  }

  lemma {:induction false} NonSpaceNone(s: string)
    requires IsBlank(s)
    ensures NonSpace(s) == []
  {
    if s != [] {
      NonSpaceNone(s[1..]);
    }
  }

  /** Trimming whitespace from both ends keeps every other character, in order. */
  lemma TrimKeepsNonSpace(s: string)
    ensures NonSpace(Trim(IsSpace, s)) == NonSpace(s)
  {
    TrimStartKeepsNonSpace(s);
    TrimEndKeepsNonSpace(TrimStart(IsSpace, s));
  }

  lemma {:induction false} TrimStartKeepsNonSpace(s: string)
    ensures NonSpace(TrimStart(IsSpace, s)) == NonSpace(s)
  {
    if s != [] && IsSpace(s[0]) {
      TrimStartKeepsNonSpace(s[1..]);
    }
  }

  lemma {:induction false} TrimEndKeepsNonSpace(s: string)
    ensures NonSpace(TrimEnd(IsSpace, s)) == NonSpace(s)
  {
    if s != [] && IsSpace(s[|s| - 1]) {
      var init := s[..|s| - 1];
      TrimEndKeepsNonSpace(init);
      assert s == init + [s[|s| - 1]];
      NonSpaceConcat(init, [s[|s| - 1]]);
    }
  }

  lemma SplitFrom<T>(s: seq<T>, p: nat, i: nat, j: nat)
    requires p <= i <= j <= |s|
    ensures s[p..] == s[p..i] + s[i..j] + s[j..]
  {
  }

  // ---------------------------------------------------------------------------
  // Step 1: "Mon . 5" reads "Mon. 5".

  /** The end of the whitespace run that starts at `i` (greedy `\s*`). */
  function SkipSpaces(s: string, i: nat): (j: nat)
    requires i <= |s|
    ensures i <= j <= |s|
    ensures forall k :: i <= k < j ==> IsSpace(s[k])
    ensures j == |s| || !IsSpace(s[j])
    decreases |s| - i
  {
    if i < |s| && IsSpace(s[i]) then SkipSpaces(s, i + 1) else i
  }

  /** The lookbehind `(?<=\b[A-Za-z]{3})`: three ASCII letters end at `p`, and a word
      starts where they start. */
  predicate ThreeLettersBefore(s: string, p: nat) {
    && 3 <= p <= |s|
    && IsAsciiLetter(s[p - 3]) && IsAsciiLetter(s[p - 2]) && IsAsciiLetter(s[p - 1])
    && (p == 3 || !IsWordChar(s[p - 4]))
  }

  /** Whether `\s*\.\s*(\d{1,2})` behind the lookbehind matches at `p`, and if so the span
      of the captured digits, which ends the match. Whitespace and '.' are disjoint, so the
      greedy runs never need to give characters back. */
  function DotDayAt(s: string, p: nat): (r: Option<(nat, nat)>)
    requires p <= |s|
    ensures r.Some? ==> p < r.value.0 < r.value.1 <= |s| && r.value.1 <= r.value.0 + 2
    ensures r.Some? ==> AllDigits(s[r.value.0..r.value.1])
    ensures r.Some? ==> forall k :: p <= k < r.value.0 ==> IsSpace(s[k]) || s[k] == '.'
  {
    if !ThreeLettersBefore(s, p) then None
    else
      var a := SkipSpaces(s, p);
      if a == |s| || s[a] != '.' then None
      else
        var b := SkipSpaces(s, a + 1);
        if b == |s| || !IsDigit(s[b]) then None
        else if b + 1 < |s| && IsDigit(s[b + 1]) then Some((b, b + 2))
        else Some((b, b + 1))
  }

  /** Declaratively, `\s*\.\s*(\d{1,2})` behind the lookbehind matches at `p` with the
      digits `s[b..e]`: the lookbehind holds at `p`, `s[p..b]` is whitespace around exactly
      one period, and the group takes two digits when there are two. */
  ghost predicate StepOneMatch(s: string, p: nat, b: nat, e: nat) {
    && ThreeLettersBefore(s, p)
    && p < b < e <= |s| && e <= b + 2
    && (exists q :: PeriodAmongSpaces(s, p, q, b))
    && AllDigits(s[b..e])
    && (e == b + 2 || e == |s| || !IsDigit(s[e]))
  }

  /** `s[p..b]` is whitespace except for one period, at `q`. */
  predicate PeriodAmongSpaces(s: string, p: nat, q: nat, b: nat) {
    p <= q < b <= |s| && s[q] == '.' && forall k :: p <= k < b && k != q ==> IsSpace(s[k])
  }

  /** `SkipSpaces` stops at the first character that is not whitespace. */
  lemma SkipSpacesTo(s: string, i: nat, j: nat)
    requires i <= j <= |s|
    requires forall k :: i <= k < j ==> IsSpace(s[k])
    requires j == |s| || !IsSpace(s[j])
    ensures SkipSpaces(s, i) == j
  {
  }

  /** `DotDayAt` finds exactly the declarative step-1 matches: a match exists at `p` if and
      only if `DotDayAt` reports one, and then it reports the same digits. */
  lemma DotDayAtMatches(s: string, p: nat)
    requires p <= |s|
    ensures forall b: nat, e: nat :: StepOneMatch(s, p, b, e) <==> DotDayAt(s, p) == Some((b, e))
  {
    if DotDayAt(s, p).Some? {
      var (b, e) := DotDayAt(s, p).value;
      DotDayAtIsMatch(s, p, b, e);
    }
    forall b: nat, e: nat | StepOneMatch(s, p, b, e)
      ensures DotDayAt(s, p) == Some((b, e))
    {
      MatchIsDotDayAt(s, p, b, e);
    }
  }

  lemma DotDayAtIsMatch(s: string, p: nat, b: nat, e: nat)
    requires p <= |s| && DotDayAt(s, p) == Some((b, e))
    ensures StepOneMatch(s, p, b, e)
  {
    var q := SkipSpaces(s, p);
    assert SkipSpaces(s, q + 1) == b;
    assert PeriodAmongSpaces(s, p, q, b);
  }

  lemma MatchIsDotDayAt(s: string, p: nat, b: nat, e: nat)
    requires StepOneMatch(s, p, b, e)
    ensures DotDayAt(s, p) == Some((b, e))
  {
    var q :| PeriodAmongSpaces(s, p, q, b);
    DigitsOfSpan(s, b, e);
    PeriodSkips(s, p, q, b);
    DotDayAtUnfold(s, p, q, b);
  }

  lemma DigitsOfSpan(s: string, b: nat, e: nat)
    requires b < e <= |s| && AllDigits(s[b..e])
    ensures forall k :: b <= k < e ==> IsDigit(s[k])
  {
    assert forall k :: b <= k < e ==> s[b..e][k - b] == s[k];
  }

  /** The two `\s*` runs around the period end at the period and at `b`. */
  lemma PeriodSkips(s: string, p: nat, q: nat, b: nat)
    requires PeriodAmongSpaces(s, p, q, b)
    requires b < |s| && !IsSpace(s[b])
    ensures SkipSpaces(s, p) == q && SkipSpaces(s, q + 1) == b
  {
    SkipSpacesTo(s, p, q);
    SkipSpacesTo(s, q + 1, b);
  }

  /** `DotDayAt` once the period and the first digit are found. */
  lemma DotDayAtUnfold(s: string, p: nat, q: nat, b: nat)
    requires ThreeLettersBefore(s, p)
    requires SkipSpaces(s, p) == q < |s| && s[q] == '.'
    requires SkipSpaces(s, q + 1) == b < |s| && IsDigit(s[b])
    ensures DotDayAt(s, p) == if b + 1 < |s| && IsDigit(s[b + 1]) then Some((b, b + 2)) else Some((b, b + 1))
  {
  }

  /** `re.sub` of step 1 over `s[p..]`, scanning left to right. */
  function RepairFrom(s: string, p: nat): string
    requires p <= |s|
    decreases |s| - p
  {
    if p == |s| then []
    else
      match DotDayAt(s, p)
      case Some((b, e)) => ". " + s[b..e] + RepairFrom(s, e)
      case None => [s[p]] + RepairFrom(s, p + 1)
  }

  function RepairMonthDot(s: string): string { RepairFrom(s, 0) }

  /** In terms of the declarative match: where step 1 matches, its digits replace the match
      after ". " and the scan resumes after the digits; elsewhere one character is copied. */
  lemma RepairFromSteps(s: string, p: nat)
    requires p < |s|
    ensures forall b: nat, e: nat :: StepOneMatch(s, p, b, e) ==> RepairFrom(s, p) == ". " + s[b..e] + RepairFrom(s, e)
    ensures (forall b: nat, e: nat :: !StepOneMatch(s, p, b, e)) ==> RepairFrom(s, p) == [s[p]] + RepairFrom(s, p + 1)
  {
    DotDayAtMatches(s, p);
    if DotDayAt(s, p).Some? {
      var (b, e) := DotDayAt(s, p).value;
      assert StepOneMatch(s, p, b, e);
    }
  }

  /** The repair only adds and removes whitespace: each match keeps its one period and its
      digits. */
  lemma {:induction false} RepairFromKeepsNonSpace(s: string, p: nat)
    requires p <= |s|
    ensures NonSpace(RepairFrom(s, p)) == NonSpace(s[p..])
    decreases |s| - p
  {
    if p < |s| {
      match DotDayAt(s, p)
      case Some((b, e)) =>
        RepairFromKeepsNonSpace(s, e);
        DotDayNonSpace(s, p, b, e);
        NonSpaceConcat(". " + s[b..e], RepairFrom(s, e));
      case None =>
        RepairFromKeepsNonSpace(s, p + 1);
        NonSpaceCons(s, p);
        NonSpaceConcat([s[p]], RepairFrom(s, p + 1));
    }
  }

  lemma NonSpaceCons(s: string, p: nat)
    requires p < |s|
    ensures NonSpace(s[p..]) == NonSpace([s[p]]) + NonSpace(s[p + 1..])
  {
    assert s[p..] == [s[p]] + s[p + 1..];
    NonSpaceConcat([s[p]], s[p + 1..]);
  }

  /** A step-1 match and its replacement `". " + digits` have the same characters other
      than whitespace: the one period and the digits. */
  lemma DotDayNonSpace(s: string, p: nat, b: nat, e: nat)
    requires p <= |s| && DotDayAt(s, p) == Some((b, e))
    ensures NonSpace(s[p..]) == NonSpace(". " + s[b..e]) + NonSpace(s[e..])
  {
    DotDayAtIsMatch(s, p, b, e);
    var q :| PeriodAmongSpaces(s, p, q, b);
    PeriodAmongSpacesNonSpace(s, p, q, b);
    SplitFrom(s, p, b, e);
    NonSpaceConcat(s[p..b] + s[b..e], s[e..]);
    NonSpaceConcat(s[p..b], s[b..e]);
    NonSpaceConcat(". ", s[b..e]);
    assert NonSpace(". ") == ['.'] by {
      assert ". "[1..] == " ";
      assert " "[1..] == [];
    }
  }

  lemma PeriodAmongSpacesNonSpace(s: string, p: nat, q: nat, b: nat)
    requires PeriodAmongSpaces(s, p, q, b)
    ensures NonSpace(s[p..b]) == ['.']
  {
    var x, y := s[p..q], s[q + 1..b];
    assert s[p..b] == x + [s[q]] + y;
    assert forall k :: 0 <= k < |x| ==> x[k] == s[p + k];
    assert forall k :: 0 <= k < |y| ==> y[k] == s[q + 1 + k];
    NonSpaceNone(x);
    NonSpaceNone(y);
    NonSpaceConcat(x + [s[q]], y);
    NonSpaceConcat(x, [s[q]]);
    assert NonSpace([s[q]]) == ['.'] by { assert [s[q]][1..] == []; }
  }

  // ---------------------------------------------------------------------------
  // Step 2: collapse whitespace runs, strip separators from both ends.

  /** `re.sub(r"\s+", " ", s)`: the last character of each whitespace run becomes a space
      and the others are dropped. */
  function CollapseSpaces(s: string): string
  {
    if s == [] then []
    else if IsSpace(s[0]) && |s| > 1 && IsSpace(s[1]) then CollapseSpaces(s[1..])
    else if IsSpace(s[0]) then [' '] + CollapseSpaces(s[1..])
    else [s[0]] + CollapseSpaces(s[1..])
  }

  /** After collapsing, every whitespace character is a plain space, no two are adjacent, and
      the string starts with whitespace exactly when the input did. */
  lemma {:induction false} CollapseSpacing(s: string)
    ensures PlainSpaces(CollapseSpaces(s))
    ensures SingleSpaced(CollapseSpaces(s))
    ensures s != [] ==> CollapseSpaces(s) != [] && (IsSpace(CollapseSpaces(s)[0]) <==> IsSpace(s[0]))
  {
    if s != [] {
      CollapseSpacing(s[1..]);
      var rest := CollapseSpaces(s[1..]);
      if !(IsSpace(s[0]) && |s| > 1 && IsSpace(s[1])) {
        var r := CollapseSpaces(s);
        assert forall i :: 0 <= i < |rest| ==> r[i + 1] == rest[i];
        assert SingleSpaced(r) by {
          forall i, j | 0 <= i && j == i + 1 && j < |r| ensures !(IsSpace(r[i]) && IsSpace(r[j])) {
            if i > 0 {
              assert r[i] == rest[i - 1] && r[j] == rest[j - 1];
            }
          }
        }
      }
    }
  }

  /** Collapsing works run by run: it distributes over a split after a character that is not
      whitespace. With `CollapseRun` this determines `re.sub(r"\s+", " ", s)` on every
      string. */
  lemma {:induction false} CollapseSplit(a: string, b: string)
    requires a == [] || !IsSpace(a[|a| - 1])
    ensures CollapseSpaces(a + b) == CollapseSpaces(a) + CollapseSpaces(b)
    decreases |a|
  {
    if a == [] {
      assert a + b == b;
    } else {
      var a' := a[1..];
      assert (a + b)[0] == a[0] && (a + b)[1..] == a' + b;
      if a' == [] {
        assert a' + b == b;
        assert CollapseSpaces(a) == [a[0]];
        assert CollapseSpaces(a + b) == [a[0]] + CollapseSpaces(b);
      } else {
        assert (a + b)[1] == a[1];
        CollapseSplit(a', b);
        if IsSpace(a[0]) && IsSpace(a[1]) {
          assert CollapseSpaces(a + b) == CollapseSpaces(a' + b);
          assert CollapseSpaces(a) == CollapseSpaces(a');
        } else {
          var head := if IsSpace(a[0]) then ' ' else a[0];
          assert CollapseSpaces(a + b) == [head] + CollapseSpaces(a' + b);
          assert CollapseSpaces(a) == [head] + CollapseSpaces(a');
          ConcatAssoc([head], CollapseSpaces(a'), CollapseSpaces(b));
        }
      }
    }
  }

  /** A whitespace run becomes one plain space, whatever it is followed by. */
  lemma {:induction false} CollapseRun(w: string, c: char)
    requires w != [] && IsBlank(w) && !IsSpace(c)
    ensures CollapseSpaces(w + [c]) == [' ', c]
    ensures CollapseSpaces(w) == [' ']
    decreases |w|
  {
    assert (w + [c])[0] == w[0] && (w + [c])[1..] == w[1..] + [c];
    if |w| == 1 {
      assert w[1..] + [c] == [c] && w[1..] == [];
      assert [c][1..] == [];
      assert CollapseSpaces([c]) == [c];
      assert CollapseSpaces(w + [c]) == [' '] + CollapseSpaces([c]);
      assert CollapseSpaces(w) == [' '] + CollapseSpaces(w[1..]);
    } else {
      assert IsSpace(w[1]) && (w + [c])[1] == w[1];
      CollapseRun(w[1..], c);
      assert CollapseSpaces(w + [c]) == CollapseSpaces(w[1..] + [c]);
      assert CollapseSpaces(w) == CollapseSpaces(w[1..]);
    }
  }

  /** Collapsing changes only whitespace: every other character, periods included, is kept
      in order and none is added. */
  lemma {:induction false} CollapseKeepsNonSpace(s: string)
    ensures NonSpace(CollapseSpaces(s)) == NonSpace(s)
  {
    if s != [] {
      CollapseKeepsNonSpace(s[1..]);
      if !(IsSpace(s[0]) && |s| > 1 && IsSpace(s[1])) {
        var head := if IsSpace(s[0]) then ' ' else s[0];
        NonSpaceConcat([head], CollapseSpaces(s[1..]));
      }
    }
  }

  /** A string that does not start or end with whitespace still does not once collapsed. */
  lemma {:induction false} CollapseKeepsEnds(s: string)
    ensures s != [] && !IsSpace(s[|s| - 1]) ==>
              CollapseSpaces(s) != [] && CollapseSpaces(s)[|CollapseSpaces(s)| - 1] == s[|s| - 1]
    ensures s != [] && !IsSpace(s[0]) ==> CollapseSpaces(s)[0] == s[0]
  {
    if |s| > 1 {
      CollapseKeepsEnds(s[1..]);
    }
  }

  /** `s.strip(" ,.;-–—")`: the infix between the leading and the trailing separators. */
  function StripSeparators(s: string): (r: string)
    ensures IsInfix(r, s)
    ensures r == [] || (!IsSeparator(r[0]) && !IsSeparator(r[|r| - 1]))
  {
    Trim(IsSeparator, s)
  }

  // ---------------------------------------------------------------------------
  // Step 3: `re.sub(r"\s+,", ",", s)`.

  /** The next character of `s` that is not whitespace is a comma. */
  predicate CommaAhead(s: string) {
    s != [] && (s[0] == ',' || (IsSpace(s[0]) && CommaAhead(s[1..])))
  }

  /** No whitespace character of `s` is directly followed by a comma. */
  ghost predicate NoSpaceBeforeComma(s: string) {
    forall i, j :: 0 <= i && j == i + 1 && j < |s| ==> !(IsSpace(s[i]) && s[j] == ',')
  }

  /** Every whitespace character whose run is followed by a comma is dropped. */
  function DropSpaceBeforeComma(s: string): string
  {
    if s == [] then []
    else if IsSpace(s[0]) && CommaAhead(s[1..]) then DropSpaceBeforeComma(s[1..])
    else [s[0]] + DropSpaceBeforeComma(s[1..])
  }

  /** Step 3 keeps a first or last character that is not whitespace. */
  lemma {:induction false} DropKeepsEnds(s: string)
    ensures s != [] && !IsSpace(s[0]) ==>
              DropSpaceBeforeComma(s) != [] && DropSpaceBeforeComma(s)[0] == s[0]
    ensures s != [] && !IsSpace(s[|s| - 1]) ==> (DropSpaceBeforeComma(s) != [] &&
              DropSpaceBeforeComma(s)[|DropSpaceBeforeComma(s)| - 1] == s[|s| - 1])
  {
    if |s| > 1 {
      DropKeepsEnds(s[1..]);
    }
  }

  /** Step 3 leaves no whitespace before a comma, and its result starts with a comma only
      when the input's first character other than whitespace is one. */
  lemma {:induction false} DropNoSpaceBeforeComma(s: string)
    ensures NoSpaceBeforeComma(DropSpaceBeforeComma(s))
    ensures !CommaAhead(s) && DropSpaceBeforeComma(s) != [] ==> DropSpaceBeforeComma(s)[0] != ','
  {
    if s != [] {
      var t := s[1..];
      DropNoSpaceBeforeComma(t);
      if !(IsSpace(s[0]) && CommaAhead(t)) {
        var rest := DropSpaceBeforeComma(t);
        var r := [s[0]] + rest;
        forall i, j | 0 <= i && j == i + 1 && j < |r| ensures !(IsSpace(r[i]) && r[j] == ',') {
          if i > 0 {
            assert r[i] == rest[i - 1] && r[j] == rest[j - 1];
          }
        }
      }
    }
  }

  /** Step 3 keeps a single-spaced string single-spaced. */
  lemma {:induction false} DropKeepsSingleSpaced(s: string)
    requires SingleSpaced(s)
    ensures SingleSpaced(DropSpaceBeforeComma(s))
  {
    if s != [] {
      var t := s[1..];
      forall i, j | 0 <= i && j == i + 1 && j < |t| ensures !(IsSpace(t[i]) && IsSpace(t[j])) {
        assert t[i] == s[i + 1] && t[j] == s[j + 1];
      }
      DropKeepsSingleSpaced(t);
      if !(IsSpace(s[0]) && CommaAhead(t)) {
        var rest := DropSpaceBeforeComma(t);
        var r := [s[0]] + rest;
        if IsSpace(s[0]) && |s| > 1 {
          assert !IsSpace(s[1]);
          DropKeepsEnds(t);
        }
        forall i, j | 0 <= i && j == i + 1 && j < |r| ensures !(IsSpace(r[i]) && IsSpace(r[j])) {
          if i > 0 {
            assert r[i] == rest[i - 1] && r[j] == rest[j - 1];
          }
        }
      }
    }
  }

  /** Every whitespace character in the result of step 3 comes from its input. */
  lemma {:induction false} DropKeepsPlainSpaces(s: string)
    requires PlainSpaces(s)
    ensures PlainSpaces(DropSpaceBeforeComma(s))
  {
    if s != [] {
      DropKeepsPlainSpaces(s[1..]);
    }
  }

  /** Whether a comma comes next is decided before a character that is not whitespace. */
  lemma {:induction false} CommaAheadConcat(x: string, y: string)
    requires x != [] && !IsSpace(x[|x| - 1])
    ensures CommaAhead(x + y) == CommaAhead(x)
    decreases |x|
  {
    assert (x + y)[0] == x[0] && (x + y)[1..] == x[1..] + y;
    if x[0] != ',' && IsSpace(x[0]) {
      CommaAheadConcat(x[1..], y);
    }
  }

  /** After a whitespace run, a comma comes next exactly when the next character is one. */
  lemma {:induction false} CommaAheadBlank(w: string, c: char)
    requires IsBlank(w)
    ensures CommaAhead(w + [c]) == (c == ',')
    ensures !CommaAhead(w)
    decreases |w|
  {
    if w == [] {
      assert w + [c] == [c] && [c][1..] == [];
    } else {
      assert (w + [c])[0] == w[0] && (w + [c])[1..] == w[1..] + [c];
      CommaAheadBlank(w[1..], c);
    }
  }

  /** Step 3 works run by run: it distributes over a split after a character that is not
      whitespace. With `DropRun` this determines `re.sub(r"\s+,", ",", s)` on every string. */
  lemma {:induction false} DropSplit(a: string, b: string)
    requires a == [] || !IsSpace(a[|a| - 1])
    ensures DropSpaceBeforeComma(a + b) == DropSpaceBeforeComma(a) + DropSpaceBeforeComma(b)
    decreases |a|
  {
    if a == [] {
      assert a + b == b;
    } else {
      var a' := a[1..];
      assert (a + b)[0] == a[0] && (a + b)[1..] == a' + b;
      if a' == [] {
        assert a' + b == b;
        assert DropSpaceBeforeComma(a) == [a[0]];
        assert DropSpaceBeforeComma(a + b) == [a[0]] + DropSpaceBeforeComma(b);
      } else {
        CommaAheadConcat(a', b);
        DropSplit(a', b);
        if IsSpace(a[0]) && CommaAhead(a') {
          assert DropSpaceBeforeComma(a + b) == DropSpaceBeforeComma(a' + b);
          assert DropSpaceBeforeComma(a) == DropSpaceBeforeComma(a');
        } else {
          assert DropSpaceBeforeComma(a + b) == [a[0]] + DropSpaceBeforeComma(a' + b);
          assert DropSpaceBeforeComma(a) == [a[0]] + DropSpaceBeforeComma(a');
          ConcatAssoc([a[0]], DropSpaceBeforeComma(a'), DropSpaceBeforeComma(b));
        }
      }
    }
  }

  /** A whitespace run is removed when a comma follows it and kept otherwise, also at the end
      of the string. */
  lemma {:induction false} DropRun(w: string, c: char)
    requires w != [] && IsBlank(w)
    ensures DropSpaceBeforeComma(w + [c]) == if c == ',' then [c] else w + [c]
    ensures DropSpaceBeforeComma(w) == w
    decreases |w|
  {
    var w' := w[1..];
    assert (w + [c])[0] == w[0] && (w + [c])[1..] == w' + [c];
    CommaAheadBlank(w', c);
    if w' == [] {
      assert w' + [c] == [c] && [c][1..] == [];
      assert w == [w[0]];
      assert DropSpaceBeforeComma([c]) == [c];
      if c == ',' {
        assert DropSpaceBeforeComma(w + [c]) == DropSpaceBeforeComma([c]);
      } else {
        assert DropSpaceBeforeComma(w + [c]) == [w[0]] + DropSpaceBeforeComma([c]);
      }
    } else {
      DropRun(w', c);
      assert w == [w[0]] + w';
      assert DropSpaceBeforeComma(w) == [w[0]] + DropSpaceBeforeComma(w');
      if c == ',' {
        assert DropSpaceBeforeComma(w + [c]) == DropSpaceBeforeComma(w' + [c]);
      } else {
        assert DropSpaceBeforeComma(w + [c]) == [w[0]] + DropSpaceBeforeComma(w' + [c]);
        ConcatAssoc([w[0]], w', [c]);
      }
    }
  }

  /** Step 3 changes only whitespace: every other character, periods included, is kept in
      order and none is added. */
  lemma {:induction false} DropKeepsNonSpace(s: string)
    ensures NonSpace(DropSpaceBeforeComma(s)) == NonSpace(s)
  {
    if s != [] {
      DropKeepsNonSpace(s[1..]);
      if !(IsSpace(s[0]) && CommaAhead(s[1..])) {
        NonSpaceConcat([s[0]], DropSpaceBeforeComma(s[1..]));
      }
    }
  }

  // ---------------------------------------------------------------------------

  /** `clean_date_str`. */
  function CleanDateStr(s: string): string
  {
    DropSpaceBeforeComma(StripSeparators(CollapseSpaces(RepairMonthDot(s))))
  }

  /** A cleaned date string has no separator at either end, only plain single spaces, and no
      whitespace before a comma. */
  lemma CleanShape(s: string)
    ensures var r := CleanDateStr(s);
      && (r == [] || (!IsSeparator(r[0]) && !IsSeparator(r[|r| - 1])))
      && PlainSpaces(r) && SingleSpaced(r) && NoSpaceBeforeComma(r)
  {
    var c := CollapseSpaces(RepairMonthDot(s));
    CollapseSpacing(RepairMonthDot(s));
    var t := StripSeparators(c);
    InfixKeepsSpacing(t, c);
    assert t != [] ==> !IsSpace(t[0]) && !IsSpace(t[|t| - 1]);
    DropKeepsEnds(t);
    DropNoSpaceBeforeComma(t);
    DropKeepsSingleSpaced(t);
    DropKeepsPlainSpaces(t);
  }

  /** An infix of a collapsed string keeps its spacing properties. */
  lemma InfixKeepsSpacing(t: string, c: string)
    requires IsInfix(t, c)
    requires PlainSpaces(c)
    requires SingleSpaced(c)
    ensures PlainSpaces(t)
    ensures SingleSpaced(t)
  {
    var k :| 0 <= k <= |c| && OccursAt(t, c, k);
    assert forall i :: 0 <= i < |t| ==> t[i] == c[k + i];
  }

  /** Cleaning never invents, drops or reorders any character other than whitespace, except
      for the separators that step 2 strips from the two ends: the input's characters other
      than whitespace are those of the result between those of two runs of separators. */
  lemma CleanKeepsNonSpace(s: string)
    ensures exists a, b :: (AllDropped(IsSeparator, a) && AllDropped(IsSeparator, b)
      && NonSpace(s) == NonSpace(a) + NonSpace(CleanDateStr(s)) + NonSpace(b))
  {
    var r := RepairMonthDot(s);
    var c := CollapseSpaces(r);
    var t := StripSeparators(c);
    assert CleanDateStr(s) == DropSpaceBeforeComma(t);
    DropKeepsNonSpace(t);
    StripKeepsNonSpace(c);
    CollapseKeepsNonSpace(r);
    RepairFromKeepsNonSpace(s, 0);
    assert s[0..] == s;
    assert NonSpace(c) == NonSpace(s);
  }

  /** Step 2's strip removes a run of separators from each end and nothing else. */
  lemma StripParts(c: string)
    ensures exists a, b :: (AllDropped(IsSeparator, a) && AllDropped(IsSeparator, b)
      && c == a + StripSeparators(c) + b)
  {
    TrimParts(IsSeparator, c);
  }

  /** So the strip's input, without whitespace, is its result without whitespace between two
      runs of separators without whitespace. */
  lemma StripKeepsNonSpace(c: string)
    ensures exists a, b :: (AllDropped(IsSeparator, a) && AllDropped(IsSeparator, b)
      && NonSpace(c) == NonSpace(a) + NonSpace(StripSeparators(c)) + NonSpace(b))
  {
    var t := StripSeparators(c);
    StripParts(c);
    var a, b :| AllDropped(IsSeparator, a) && AllDropped(IsSeparator, b) && c == a + t + b;
    NonSpaceConcat(a + t, b);
    NonSpaceConcat(a, t);
  }

  /** The malformed spacing "Oct . 5" cleans to "Oct. 5". */
  lemma CleanStrayPeriod()
    ensures CleanDateStr("Oct . 5") == "Oct. 5"
  {
    RepairStrayPeriod();
    CollapseExample();
    StripExample();
    DropExample();
  }

  lemma StripExample()
    ensures StripSeparators("Oct. 5") == "Oct. 5"
  {
    assert !IsSeparator('O') && !IsSeparator('5');
    assert TrimStart(IsSeparator, "Oct. 5") == "Oct. 5";
    assert TrimEnd(IsSeparator, "Oct. 5") == "Oct. 5";
  }

  lemma RepairStrayPeriod()
    ensures RepairMonthDot("Oct . 5") == "Oct. 5"
  {
    var s := "Oct . 5";
    assert !ThreeLettersBefore(s, 0) && !ThreeLettersBefore(s, 1) && !ThreeLettersBefore(s, 2);
    assert ThreeLettersBefore(s, 3);
    assert SkipSpaces(s, 3) == 4;
    assert SkipSpaces(s, 5) == 6;
    assert DotDayAt(s, 3) == Some((6, 7));
    assert RepairFrom(s, 7) == [];
    assert RepairFrom(s, 3) == ". 5";
  }

  lemma CollapseExample()
    ensures CollapseSpaces("Oct. 5") == "Oct. 5"
  {
    assert CollapseSpaces("5") == "5";
    assert CollapseSpaces(" 5") == " 5";
  }

  lemma DropExample()
    ensures DropSpaceBeforeComma("Oct. 5") == "Oct. 5"
  {
    DropWithoutComma("Oct. 5");
  }

  /** Step 3 changes nothing in a string without a comma. */
  lemma {:induction false} DropWithoutComma(s: string)
    requires ',' !in s
    ensures DropSpaceBeforeComma(s) == s
  {
    if s != [] {
      assert s == [s[0]] + s[1..];
      NoCommaAhead(s[1..]);
      DropWithoutComma(s[1..]);
    }
  }

  lemma {:induction false} NoCommaAhead(s: string)
    requires ',' !in s
    ensures !CommaAhead(s)
  {
    if s != [] {
      NoCommaAhead(s[1..]);
    }
  }
}
