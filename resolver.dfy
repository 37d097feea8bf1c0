/** `find_nearest_date`: the date candidates in a window around a keyword, the asymmetric
    choice among them, and the cleaned, year-qualified display string of the choice. */
module Resolver {
  import opened Options
  import opened Strings
  import opened Matches
  import opened Years
  import opened Cleaning

  /** The window radius `find_exams_strict` leaves at its default. */
  const DefaultWindow: nat := 90

  /** One date match near the anchor, with offsets into the whole document. */
  datatype Candidate = Candidate(absStart: nat, absEnd: nat, before: bool, raw: string)

  /** The result pair `(parsed, date_str)`; both are `None` when no date was found. */
  datatype Nearest<D> = Nearest(parsed: Option<D>, raw: Option<string>)

  /** `start = max(0, anchor - window)` and `end = min(len(text), anchor + window)`. */
  function Window(n: nat, anchor: nat, window: nat): (w: (nat, nat))
    ensures w.0 <= anchor && anchor - w.0 <= window
    ensures w.1 <= n && w.1 <= anchor + window
    ensures anchor <= n ==> w.0 <= w.1 && (w.1 == n || w.1 == anchor + window)
    ensures w.0 == 0 || w.0 == anchor - window
  {
    (if anchor >= window then anchor - window else 0,
     if n <= anchor + window then n else anchor + window)
  }

  /** `text[start:end]`, which is empty when `start > end`. */
  function Slice(text: string, start: nat, end: nat): string
    requires end <= |text|
  {
    if start <= end then text[start..end] else []
  }

  function Snippet(text: string, anchor: nat, window: nat): string
  {
    var w := Window(|text|, anchor, window);
    Slice(text, w.0, w.1)
  }

  /** The candidate the loop of `find_nearest_date` builds for match `m` of the snippet. */
  function CandidateAt(snippet: string, start: nat, anchor: nat, m: Span): Candidate
    requires m.start <= m.end <= |snippet|
  {
    Candidate(start + m.start, start + m.end, start + m.end <= anchor, snippet[m.start..m.end])
  }

  /** The candidates of the matches `ms` of a snippet that starts at `start`. */
  function Shifted(snippet: string, start: nat, anchor: nat, ms: seq<Span>): seq<Candidate>
    requires WellFormed(ms, |snippet|)
  {
    seq(|ms|, i requires 0 <= i < |ms| => CandidateAt(snippet, start, anchor, ms[i]))
  }

  /** The candidates lie in the window, in order, with the text of the document at their
      offsets, and "before" means ending at or before the anchor. */
  lemma ShiftedFacts(text: string, start: nat, end: nat, anchor: nat, ms: seq<Span>)
    requires end <= |text| && WellFormed(ms, |Slice(text, start, end)|)
    ensures var r := Shifted(Slice(text, start, end), start, anchor, ms);
      && (forall i :: 0 <= i < |r| ==> start <= r[i].absStart < r[i].absEnd <= end)
      && (forall i :: 0 <= i < |r| ==> (r[i].before <==> r[i].absEnd <= anchor))
      && (forall i :: 0 <= i < |r| ==> r[i].raw == text[r[i].absStart..r[i].absEnd])
      && (forall i, j :: 0 <= i < j < |r| ==> r[i].absEnd <= r[j].absStart)
  {
    var r := Shifted(Slice(text, start, end), start, anchor, ms);
    forall i | 0 <= i < |r|
      ensures start <= r[i].absStart < r[i].absEnd <= end
      ensures r[i].raw == text[r[i].absStart..r[i].absEnd]
    {
      CandidateInText(text, start, end, ms[i]);
    }
  }

  /** A match of the snippet `text[start:end]` is the text at the shifted offsets. */
  lemma CandidateInText(text: string, start: nat, end: nat, m: Span)
    requires end <= |text| && m.start < m.end <= |Slice(text, start, end)|
    ensures start <= end && start + m.end <= end
    ensures Slice(text, start, end)[m.start..m.end] == text[start + m.start..start + m.end]
  {
  }

  /** The candidates of every date match in the window, in match order. */
  function Candidates(text: string, anchor: nat, window: nat, scan: Scanner): (r: seq<Candidate>)
    ensures |r| == |scan(Snippet(text, anchor, window))|
    ensures forall i :: 0 <= i < |r| ==>
              Window(|text|, anchor, window).0 <= r[i].absStart < r[i].absEnd <= Window(|text|, anchor, window).1
    ensures forall i :: 0 <= i < |r| ==> (r[i].before <==> r[i].absEnd <= anchor)
    ensures forall i :: 0 <= i < |r| ==> r[i].raw == text[r[i].absStart..r[i].absEnd]
    ensures forall i, j :: 0 <= i < j < |r| ==> r[i].absEnd <= r[j].absStart
  {
    var w := Window(|text|, anchor, window);
    var snippet := Slice(text, w.0, w.1);
    var ms := scan(snippet);
    ShiftedFacts(text, w.0, w.1, anchor, ms);
    Shifted(snippet, w.0, anchor, ms)
  }

  /** The window and the scan of `find_nearest_date`, then its loop over the matches. */
  method CollectCandidates(text: string, anchor: nat, window: nat, scan: Scanner)
    returns (dates: seq<Candidate>)
    ensures dates == Candidates(text, anchor, window, scan)
  {
    var w := Window(|text|, anchor, window);
    var snippet := Slice(text, w.0, w.1);
    var ms := scan(snippet);
    assert WellFormed(ms, |snippet|);
    dates := ShiftMatches(snippet, w.0, anchor, ms);
  }

  /** The loop of `find_nearest_date` that turns each date match into a candidate. */
  method ShiftMatches(snippet: string, start: nat, anchor: nat, ms: seq<Span>)
    returns (dates: seq<Candidate>)
    requires WellFormed(ms, |snippet|)
    ensures dates == Shifted(snippet, start, anchor, ms)
  {
    dates := [];
    for i := 0 to |ms|
      invariant |dates| == i
      invariant forall k :: 0 <= k < i ==> dates[k] == CandidateAt(snippet, start, anchor, ms[k])
    {
      var m := ms[i];
      var absStart := start + m.start;
      var absEnd := start + m.end;
      dates := dates + [Candidate(absStart, absEnd, absEnd <= anchor, snippet[m.start..m.end])];
    }
  }

  /** `[d for d in dates if d["before"]]`. */
  function BeforeOnly(ds: seq<Candidate>): seq<Candidate>
  {
    if ds == [] then []
    else
      var last := ds[|ds| - 1];
      BeforeOnly(ds[..|ds| - 1]) + (if last.before then [last] else [])
  }

  /** The element `max(ds, key=abs_end)` returns: the first of those with the largest end. */
  function LatestEnding(ds: seq<Candidate>): (k: nat)
    requires ds != []
    ensures k < |ds|
    ensures forall j :: 0 <= j < |ds| ==> ds[j].absEnd <= ds[k].absEnd
    ensures forall j :: 0 <= j < k ==> ds[j].absEnd < ds[k].absEnd
  {
    if |ds| == 1 then 0
    else
      var k := LatestEnding(ds[..|ds| - 1]);
      if ds[|ds| - 1].absEnd > ds[k].absEnd then |ds| - 1 else k
  }

  function Distance(d: Candidate, anchor: nat): nat
  {
    if d.absStart <= anchor then anchor - d.absStart else d.absStart - anchor
  }

  /** The element `min(ds, key=|abs_start - anchor|)` returns: the first of those whose start
      is nearest the anchor. */
  function NearestStarting(ds: seq<Candidate>, anchor: nat): (k: nat)
    requires ds != []
    ensures k < |ds|
    ensures forall j :: 0 <= j < |ds| ==> Distance(ds[k], anchor) <= Distance(ds[j], anchor)
    ensures forall j :: 0 <= j < k ==> Distance(ds[k], anchor) < Distance(ds[j], anchor)
  {
    if |ds| == 1 then 0
    else
      var k := NearestStarting(ds[..|ds| - 1], anchor);
      if Distance(ds[|ds| - 1], anchor) < Distance(ds[k], anchor) then |ds| - 1 else k
  }

  predicate HasBefore(ds: seq<Candidate>) { exists i :: 0 <= i < |ds| && ds[i].before }

  /** The tie-break: the before-candidate that ends last if there is one, otherwise the
      candidate whose start is nearest the anchor. */
  function Choose(ds: seq<Candidate>, anchor: nat): (c: Candidate)
    requires ds != []
    ensures c in ds
    ensures HasBefore(ds) ==> c.before
    ensures HasBefore(ds) ==> forall j :: 0 <= j < |ds| && ds[j].before ==> ds[j].absEnd <= c.absEnd
    ensures HasBefore(ds) ==> exists k :: (0 <= k < |ds| && ds[k] == c &&
              forall j :: 0 <= j < k && ds[j].before ==> ds[j].absEnd < c.absEnd)
    ensures !HasBefore(ds) ==> forall j :: 0 <= j < |ds| ==> Distance(c, anchor) <= Distance(ds[j], anchor)
    ensures !HasBefore(ds) ==> exists k :: (0 <= k < |ds| && ds[k] == c &&
              forall j :: 0 <= j < k ==> Distance(c, anchor) < Distance(ds[j], anchor))
  {
    var before := BeforeOnly(ds);
    BeforeOnlyLatest(ds);
    if before != [] then
      before[LatestEnding(before)]
    else
      ds[NearestStarting(ds, anchor)]
  }

  /** The first of the before-candidates with the largest end, found by a direct scan of
      `ds`; `None` when no candidate ends before the anchor. */
  function LatestBeforeIndex(ds: seq<Candidate>): (k: Option<nat>)
    ensures k.None? <==> !HasBefore(ds)
    ensures k.Some? ==> k.value < |ds| && ds[k.value].before
    ensures k.Some? ==> forall j :: 0 <= j < |ds| && ds[j].before ==> ds[j].absEnd <= ds[k.value].absEnd
    ensures k.Some? ==> forall j :: 0 <= j < k.value && ds[j].before ==> ds[j].absEnd < ds[k.value].absEnd
  {
    if ds == [] then None
    else
      var last := |ds| - 1;
      var r := LatestBeforeIndex(ds[..last]);
      assert forall j :: 0 <= j < last ==> ds[..last][j] == ds[j];
      if !ds[last].before then
        assert HasBefore(ds) ==> HasBefore(ds[..last]);
        r
      else if r.Some? && ds[last].absEnd <= ds[r.value].absEnd then r
      else Some(last)
  }

  /** Filtering the before-candidates and taking the first with the largest end picks the
      candidate the direct scan finds. */
  lemma {:induction false} BeforeOnlyLatest(ds: seq<Candidate>)
    ensures BeforeOnly(ds) == [] <==> LatestBeforeIndex(ds).None?
    ensures BeforeOnly(ds) != [] ==>
              BeforeOnly(ds)[LatestEnding(BeforeOnly(ds))] == ds[LatestBeforeIndex(ds).value]
  {
    if ds != [] {
      var last := |ds| - 1;
      var init := ds[..last];
      BeforeOnlyLatest(init);
      var b := BeforeOnly(init);
      if ds[last].before {
        var bs := b + [ds[last]];
        assert BeforeOnly(ds) == bs;
        assert bs[..|bs| - 1] == b;
        if b != [] {
          var p := LatestEnding(b);
          var k := LatestBeforeIndex(init).value;
          assert bs[p] == b[p] == init[k] == ds[k];
        }
      } else {
        assert BeforeOnly(ds) == b + [] == b;
        assert LatestBeforeIndex(ds) == LatestBeforeIndex(init);
        if b != [] {
          var k := LatestBeforeIndex(init).value;
          assert init[k] == ds[k];
        }
      }
    }
  }

  /** `find_nearest_date` as a function of its inputs; `parse` is `dateparser.parse`. */
  function NearestDate<D>(text: string, anchor: nat, ctxYear: int, window: nat, scan: Scanner,
                          parse: string -> Option<D>): Nearest<D>
  {
    var dates := Candidates(text, anchor, window, scan);
    if dates == [] then Nearest(None, None)
    else
      var dateStr := WithYear(CleanDateStr(Choose(dates, anchor).raw), ctxYear);
      Nearest(parse(dateStr), Some(dateStr))
  }

  /** `find_nearest_date`. */
  method FindNearestDate<D>(text: string, anchor: nat, ctxYear: int, window: nat, scan: Scanner,
                            parse: string -> Option<D>)
    returns (parsed: Option<D>, raw: Option<string>)
    ensures Nearest(parsed, raw) == NearestDate(text, anchor, ctxYear, window, scan, parse)
  {
    var dates := CollectCandidates(text, anchor, window, scan);
    if dates == [] {
      return None, None;
    }
    var chosen := Choose(dates, anchor);
    var dateStr := CleanDateStr(chosen.raw);
    if !HasYearToken(dateStr) {
      dateStr := dateStr + ", " + IntToDecimal(ctxYear);
    }
    parsed := parse(dateStr);
    raw := Some(dateStr);
  }

  // ---------------------------------------------------------------------------
  // Properties of the resolution.

  /** The date string is `None` exactly when the window holds no date match, and the parse
      result is then `None` too; otherwise it is the parse of the date string. */
  lemma NearestDateShape<D>(text: string, anchor: nat, ctxYear: int, window: nat, scan: Scanner,
                            parse: string -> Option<D>)
    ensures var r := NearestDate(text, anchor, ctxYear, window, scan, parse);
      && (r.raw.None? <==> scan(Snippet(text, anchor, window)) == [])
      && (r.raw.None? ==> r.parsed.None?)
      && (r.raw.Some? ==> r.parsed == parse(r.raw.value))
  {
  }

  /** When some candidate ends at or before the anchor, the date string comes from a
      candidate that ends at or before the anchor, no later than that one. */
  lemma {:induction false} BeforePreferred<D>(text: string, anchor: nat, ctxYear: int, window: nat,
                                              scan: Scanner, parse: string -> Option<D>, i: nat)
    requires i < |Candidates(text, anchor, window, scan)|
    requires Candidates(text, anchor, window, scan)[i].absEnd <= anchor
    ensures var ds := Candidates(text, anchor, window, scan);
      exists c :: c in ds && c.absEnd <= anchor && ds[i].absEnd <= c.absEnd &&
        NearestDate(text, anchor, ctxYear, window, scan, parse).raw == Some(WithYear(CleanDateStr(c.raw), ctxYear))
  {
    var ds := Candidates(text, anchor, window, scan);
    assert ds[i].before;
    var c := Choose(ds, anchor);
    assert c.before;
  }

  /** With every candidate ending after the anchor, the date string comes from a candidate
      whose start is at least as near the anchor as any other candidate's. */
  lemma {:induction false} NearestStartFallback<D>(text: string, anchor: nat, ctxYear: int, window: nat,
                                                   scan: Scanner, parse: string -> Option<D>)
    requires Candidates(text, anchor, window, scan) != []
    requires forall d :: d in Candidates(text, anchor, window, scan) ==> anchor < d.absEnd
    ensures var ds := Candidates(text, anchor, window, scan);
      exists c :: c in ds && (forall d :: d in ds ==> Distance(c, anchor) <= Distance(d, anchor)) &&
        NearestDate(text, anchor, ctxYear, window, scan, parse).raw == Some(WithYear(CleanDateStr(c.raw), ctxYear))
  {
    var ds := Candidates(text, anchor, window, scan);
    FallbackChoice(ds, anchor);
    var c := Choose(ds, anchor);
    assert c in ds;
  }

  /** Among candidates that all end after the anchor, the choice is one whose start is
      nearest the anchor. */
  lemma FallbackChoice(ds: seq<Candidate>, anchor: nat)
    requires ds != []
    requires forall d :: d in ds ==> anchor < d.absEnd
    requires forall i :: 0 <= i < |ds| ==> (ds[i].before <==> ds[i].absEnd <= anchor)
    ensures forall d :: d in ds ==> Distance(Choose(ds, anchor), anchor) <= Distance(d, anchor)
  {
    assert !HasBefore(ds) by {
      forall i | 0 <= i < |ds| ensures !ds[i].before {
        assert ds[i] in ds;
      }
    }
    var c := Choose(ds, anchor);
    forall d | d in ds ensures Distance(c, anchor) <= Distance(d, anchor) {
      var j :| 0 <= j < |ds| && ds[j] == d;
    }
  }

  /** The chosen before-candidate is the one nearest the anchor: no other candidate lies
      between its end and the anchor. */
  lemma {:induction false} BeforeChoiceIsLast(ds: seq<Candidate>, anchor: nat)
    requires ds != [] && HasBefore(ds)
    requires forall i :: 0 <= i < |ds| ==> ds[i].absStart < ds[i].absEnd
    requires forall i :: 0 <= i < |ds| ==> (ds[i].before <==> ds[i].absEnd <= anchor)
    requires forall i, j :: 0 <= i < j < |ds| ==> ds[i].absEnd <= ds[j].absStart
    ensures exists k :: 0 <= k < |ds| && ds[k] == Choose(ds, anchor) &&
              forall j :: k < j < |ds| ==> anchor < ds[j].absEnd
  {
    var c := Choose(ds, anchor);
    var k :| 0 <= k < |ds| && ds[k] == c &&
      forall j :: 0 <= j < k && ds[j].before ==> ds[j].absEnd < c.absEnd;
    forall j | k < j < |ds| ensures anchor < ds[j].absEnd {
      assert ds[k].absEnd <= ds[j].absStart < ds[j].absEnd;
    }
  }

  /** With a context year in 2000..2099, every date string that is found carries a year. */
  lemma NearestDateHasYear<D>(text: string, anchor: nat, ctxYear: int, window: nat, scan: Scanner,
                              parse: string -> Option<D>)
    requires 2000 <= ctxYear <= 2099
    ensures var r := NearestDate(text, anchor, ctxYear, window, scan, parse);
      r.raw.Some? ==> HasYearToken(r.raw.value)
  {
    var ds := Candidates(text, anchor, window, scan);
    if ds != [] {
      WithYearHasYear(CleanDateStr(Choose(ds, anchor).raw), ctxYear);
    }
  }

  /** A date ten characters before the anchor wins over one starting five characters after. */
  lemma BeforeWinsOverCloserAfter(anchor: nat, start1: nat, end2: nat, raw1: string, raw2: string)
    requires 10 <= anchor && start1 < anchor - 10
    requires anchor + 5 < end2
    ensures var ds := [Candidate(start1, anchor - 10, true, raw1), Candidate(anchor + 5, end2, false, raw2)];
      Choose(ds, anchor) == ds[0]
  {
    var ds := [Candidate(start1, anchor - 10, true, raw1), Candidate(anchor + 5, end2, false, raw2)];
    assert HasBefore(ds) by { assert ds[0].before; }
  }
}
