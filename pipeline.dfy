/** `find_exams_strict` after text extraction: the keyword loop with its deduplication, the
    rendering of each result as a bullet line, the two short-circuiting sanity checks, and
    the three shapes of the returned string. */
module Pipeline {
  import opened Options
  import opened Strings
  import opened Matches
  import opened Years
  import opened Cleaning
  import opened Resolver

  // The fixed texts of the output; the markers are the source's emoji.
  const Warning := "\U{26A0}\U{FE0F} Could not extract text from the file."
  const NoExams := "\U{2705} No exams with dates found."
  const Header := "\U{1F4D8} Exams Found:\n"
  const FoundAnExam := "\U{2714} Found at least one exam"
  const DatesLookValid := "\U{2714} Dates look valid"
  /** `f"⚠️ Sanity check failed: {e}"` where `e` is an `AssertionError()` without a message. */
  const SanityFailed := "\U{26A0}\U{FE0F} Sanity check failed: "
  const Uncertain := " (date parse uncertain)"
  const MonthAbbreviations := ["Jan", "Feb", "Mar", "Apr", "May", "Jun",
                               "Jul", "Aug", "Sep", "Oct", "Nov", "Dec"]

  /** One resolved keyword: its label and what `find_nearest_date` returned for it. */
  datatype Entry<D> = Entry(phrase: string, date: Nearest<D>)

  type Key = (string, Option<string>)

  /** The deduplication key `(label.lower(), raw_dt)`. */
  function KeyOf<D>(e: Entry<D>): Key { (Lower(e.phrase), e.date.raw) }

  /** `re.sub(r"\s+", " ", m.group(0).strip())`. */
  function NormalizeLabel(matched: string): string
  {
    CollapseSpaces(Trim(IsSpace, matched))
  }

  /** A label has no whitespace at either end, only plain single spaces, and the characters
      of the match other than whitespace, in order. */
  lemma NormalizeLabelShape(matched: string)
    ensures var phrase := NormalizeLabel(matched);
      && (phrase == [] || (!IsSpace(phrase[0]) && !IsSpace(phrase[|phrase| - 1])))
      && PlainSpaces(phrase) && SingleSpaced(phrase)
      && NonSpace(phrase) == NonSpace(matched)
  {
    var t := Trim(IsSpace, matched);
    CollapseKeepsNonSpace(t);
    CollapseKeepsEnds(t);
    CollapseSpacing(t);
    TrimKeepsNonSpace(matched);
  }

  /** The entry the loop body builds for keyword match `m` (the anchor is `m.start()`). */
  function EntryAt<D>(text: string, m: Span, ctxYear: int, dateScan: Scanner,
                      parse: string -> Option<D>): Entry<D>
    requires m.start <= m.end <= |text|
  {
    Entry(NormalizeLabel(text[m.start..m.end]),
          NearestDate(text, m.start, ctxYear, DefaultWindow, dateScan, parse))
  }

  /** Every match lies inside a string of length `n`. */
  predicate InText(kws: seq<Span>, n: nat) {
    forall i :: 0 <= i < |kws| ==> kws[i].start <= kws[i].end <= n
  }

  /** The entries of the keyword matches `kws`, in scan order, before deduplication. */
  function Resolved<D>(text: string, kws: seq<Span>, ctxYear: int, dateScan: Scanner,
                       parse: string -> Option<D>): seq<Entry<D>>
    requires InText(kws, |text|)
  {
    seq(|kws|, i requires 0 <= i < |kws| => EntryAt(text, kws[i], ctxYear, dateScan, parse))
  }

  /** The keys of `es`: the set `seen` once the loop has passed over `es`. */
  function KeysOf<D>(es: seq<Entry<D>>): set<Key>
  {
    set i | 0 <= i < |es| :: KeyOf(es[i])
  }

  lemma KeysOfSnoc<D>(es: seq<Entry<D>>, x: Entry<D>)
    ensures KeysOf(es + [x]) == KeysOf(es) + {KeyOf(x)}
  {
    var t := es + [x];
    forall k | k in KeysOf(t) ensures k in KeysOf(es) + {KeyOf(x)} {
      var i :| 0 <= i < |t| && KeyOf(t[i]) == k;
      if i < |es| {
        assert t[i] == es[i];
      }
    }
    forall k | k in KeysOf(es) ensures k in KeysOf(t) {
      var i :| 0 <= i < |es| && KeyOf(es[i]) == k;
      assert t[i] == es[i];
    }
    assert t[|es|] == x;
  }

  /** The entries the loop keeps: an entry whose key was seen before produces nothing. */
  function Dedup<D>(es: seq<Entry<D>>): seq<Entry<D>>
  {
    if es == [] then []
    else
      var init := es[..|es| - 1];
      if KeyOf(es[|es| - 1]) in KeysOf(init) then Dedup(init) else Dedup(init) + [es[|es| - 1]]
  }

  lemma DedupSnoc<D>(es: seq<Entry<D>>, x: Entry<D>)
    ensures Dedup(es + [x]) == if KeyOf(x) in KeysOf(es) then Dedup(es) else Dedup(es) + [x]
  {
    assert (es + [x])[..|es|] == es;
  }

  /** No two entries of `es` share a key. */
  predicate DistinctKeys<D>(es: seq<Entry<D>>) {
    forall a, b :: 0 <= a < b < |es| ==> KeyOf(es[a]) != KeyOf(es[b])
  }

  lemma DistinctSnoc<D>(d: seq<Entry<D>>, x: Entry<D>)
    requires DistinctKeys(d) && KeyOf(x) !in KeysOf(d)
    ensures DistinctKeys(d + [x])
  {
    var t := d + [x];
    forall a, b | 0 <= a < b < |t| ensures KeyOf(t[a]) != KeyOf(t[b]) {
      assert t[a] == d[a];
      if b < |d| {
        assert t[b] == d[b];
      } else {
        assert KeyOf(d[a]) in KeysOf(d);
      }
    }
  }

  /** Deduplication loses no key, and keeps each key once. */
  lemma {:induction false} DedupKeys<D>(es: seq<Entry<D>>)
    ensures KeysOf(Dedup(es)) == KeysOf(es)
    ensures DistinctKeys(Dedup(es))
  {
    if es != [] {
      var init := es[..|es| - 1];
      var x := es[|es| - 1];
      assert es == init + [x];
      DedupKeys(init);
      DedupSnoc(init, x);
      KeysOfSnoc(init, x);
      var d := Dedup(init);
      if KeyOf(x) !in KeysOf(init) {
        KeysOfSnoc(d, x);
        DistinctSnoc(d, x);
      }
    }
  }

  /** The position of the first entry of `es` with key `k`. */
  ghost function FirstIndex<D>(es: seq<Entry<D>>, k: Key): (i: nat)
    requires k in KeysOf(es)
    ensures i < |es| && KeyOf(es[i]) == k
  {
    var init := es[..|es| - 1];
    assert es == init + [es[|es| - 1]];
    KeysOfSnoc(init, es[|es| - 1]);
    if k in KeysOf(init) then FirstIndex(init, k) else |es| - 1
  }

  /** No entry ahead of `FirstIndex(es, k)` has key `k`. */
  lemma {:induction false} FirstIndexIsFirst<D>(es: seq<Entry<D>>, k: Key)
    requires k in KeysOf(es)
    ensures forall j :: 0 <= j < FirstIndex(es, k) ==> KeyOf(es[j]) != k
  {
    var init := es[..|es| - 1];
    assert es == init + [es[|es| - 1]];
    KeysOfSnoc(init, es[|es| - 1]);
    if k in KeysOf(init) {
      FirstIndexIsFirst(init, k);
      assert forall j :: 0 <= j < |init| ==> init[j] == es[j];
    } else {
      assert forall j :: 0 <= j < |init| ==> KeyOf(init[j]) in KeysOf(init);
    }
  }

  /** Every kept entry is the first entry of `es` with its key. */
  ghost predicate KeptFirst<D>(es: seq<Entry<D>>, d: seq<Entry<D>>) {
    forall a :: 0 <= a < |d| ==> KeyOf(d[a]) in KeysOf(es) && d[a] == es[FirstIndex(es, KeyOf(d[a]))]
  }

  /** The kept entries appear in the order in which their keys first occur in `es`. */
  ghost predicate InFirstOrder<D>(es: seq<Entry<D>>, d: seq<Entry<D>>)
    requires KeptFirst(es, d)
  {
    forall a, b :: 0 <= a < b < |d| ==> FirstIndex(es, KeyOf(d[a])) < FirstIndex(es, KeyOf(d[b]))
  }

  /** The first-occurrence positions in a prefix are those in the whole sequence. */
  lemma KeptFirstExtends<D>(init: seq<Entry<D>>, x: Entry<D>, d: seq<Entry<D>>)
    requires KeptFirst(init, d)
    ensures KeptFirst(init + [x], d)
    ensures forall a :: 0 <= a < |d| ==>
              FirstIndex(init + [x], KeyOf(d[a])) == FirstIndex(init, KeyOf(d[a])) < |init|
  {
    var es := init + [x];
    assert es[..|es| - 1] == init;
    KeysOfSnoc(init, x);
    forall a | 0 <= a < |d|
      ensures KeyOf(d[a]) in KeysOf(es)
      ensures FirstIndex(es, KeyOf(d[a])) == FirstIndex(init, KeyOf(d[a])) < |init|
      ensures d[a] == es[FirstIndex(es, KeyOf(d[a]))]
    {
      var i := FirstIndex(init, KeyOf(d[a]));
      assert es[i] == init[i];
    }
  }

  /** Each kept entry is the first occurrence of its key, and the kept entries appear in the
      order in which their keys first occur. */
  lemma {:induction false} DedupKeepsFirstInOrder<D>(es: seq<Entry<D>>)
    ensures KeptFirst(es, Dedup(es))
    ensures InFirstOrder(es, Dedup(es))
  {
    if es != [] {
      var init := es[..|es| - 1];
      var x := es[|es| - 1];
      assert es == init + [x];
      DedupKeepsFirstInOrder(init);
      DedupSnoc(init, x);
      var d := Dedup(init);
      KeptFirstExtends(init, x, d);
      if KeyOf(x) !in KeysOf(init) {
        KeptFirstNewKey(init, x, d);
      }
    }
  }

  /** An entry with a new key is its key's first occurrence and comes after every kept one. */
  lemma KeptFirstNewKey<D>(init: seq<Entry<D>>, x: Entry<D>, d: seq<Entry<D>>)
    requires KeptFirst(init, d) && InFirstOrder(init, d)
    requires KeyOf(x) !in KeysOf(init)
    ensures KeptFirst(init + [x], d + [x])
    ensures InFirstOrder(init + [x], d + [x])
  {
    var es := init + [x];
    var d' := d + [x];
    KeptFirstExtends(init, x, d);
    assert es[..|es| - 1] == init;
    KeysOfSnoc(init, x);
    assert FirstIndex(es, KeyOf(x)) == |init|;
    forall a | 0 <= a < |d'|
      ensures KeyOf(d'[a]) in KeysOf(es) && d'[a] == es[FirstIndex(es, KeyOf(d'[a]))]
    {
      if a < |d| {
        assert d'[a] == d[a];
      }
    }
    forall a, b | 0 <= a < b < |d'|
      ensures FirstIndex(es, KeyOf(d'[a])) < FirstIndex(es, KeyOf(d'[b]))
    {
      assert d'[a] == d[a];
      if b < |d| {
        assert d'[b] == d[b];
      }
    }
  }

  /** `raw_dt` in an f-string: the date string, or `None`. */
  function RawText(raw: Option<string>): string
  {
    match raw
    case Some(s) => s
    case None => "None"
  }

  /** The bullet line of one result; `format` is `strftime("%A, %B %d, %Y")`. */
  function RenderLine<D>(e: Entry<D>, format: D -> string): string
  {
    "\U{2022} " + Title(e.phrase) + " \U{2014} " + DateText(e.date, format)
  }

  /** The date part of a bullet line: the formatted date, or the raw string marked uncertain. */
  function DateText<D>(date: Nearest<D>, format: D -> string): string
  {
    match date.parsed
    case Some(dt) => format(dt)
    case None => RawText(date.raw) + Uncertain
  }

  /** The lines of `es`, one per entry, in order. */
  function RenderAll<D>(es: seq<Entry<D>>, format: D -> string): (lines: seq<string>)
    ensures |lines| == |es|
  {
    if es == [] then [] else RenderAll(es[..|es| - 1], format) + [RenderLine(es[|es| - 1], format)]
  }

  lemma RenderAllSnoc<D>(es: seq<Entry<D>>, e: Entry<D>, format: D -> string)
    ensures RenderAll(es + [e], format) == RenderAll(es, format) + [RenderLine(e, format)]
  {
    assert (es + [e])[..|es|] == es;
  }

  /** What one turn of the keyword loop does to `seen` and `results`. */
  lemma DedupStep<D>(es: seq<Entry<D>>, e: Entry<D>, format: D -> string)
    ensures KeysOf(es + [e]) == KeysOf(es) + {KeyOf(e)}
    ensures KeyOf(e) in KeysOf(es) ==> RenderAll(Dedup(es + [e]), format) == RenderAll(Dedup(es), format)
    ensures KeyOf(e) !in KeysOf(es) ==>
              RenderAll(Dedup(es + [e]), format) == RenderAll(Dedup(es), format) + [RenderLine(e, format)]
  {
    DedupSnoc(es, e);
    KeysOfSnoc(es, e);
    RenderAllSnoc(Dedup(es), e, format);
  }

  // ---------------------------------------------------------------------------
  // Sanity checks.

  /** `any("exam" in r.lower() for r in results)`. */
  predicate MentionsExam(lines: seq<string>) {
    exists i :: 0 <= i < |lines| && IsInfix("exam", Lower(lines[i]))
  }

  /** `re.search("Jan|Feb|...|Dec", r)` for one line, case-sensitive. */
  predicate HasMonthAbbreviation(line: string) {
    exists m :: 0 <= m < |MonthAbbreviations| && IsInfix(MonthAbbreviations[m], line)
  }

  predicate MentionsMonth(lines: seq<string>) {
    exists i :: 0 <= i < |lines| && HasMonthAbbreviation(lines[i])
  }

  /** The number of checks that pass before the first one that fails. */
  function PassingPrefix(passed: seq<bool>): (k: nat)
    ensures k <= |passed|
    ensures forall j :: 0 <= j < k ==> passed[j]
    ensures k < |passed| ==> !passed[k]
  {
    if passed == [] || !passed[0] then 0 else 1 + PassingPrefix(passed[1..])
  }

  /** An ordered list of checks run until the first failure: each passing check adds its
      confirmation and the first failing one adds the failure note and stops the run. */
  function RunChecks(passed: seq<bool>, confirmations: seq<string>): (notes: seq<string>)
    requires |passed| == |confirmations|
    ensures var k := PassingPrefix(passed);
      notes == confirmations[..k] + (if k < |passed| then [SanityFailed] else [])
  {
    if passed == [] then []
    else if passed[0] then
      var rest := RunChecks(passed[1..], confirmations[1..]);
      assert confirmations[..1 + PassingPrefix(passed[1..])]
          == [confirmations[0]] + confirmations[1..][..PassingPrefix(passed[1..])];
      [confirmations[0]] + rest
    else [SanityFailed]
  }

  /** The two checks of `find_exams_strict`, over the rendered lines. */
  function SanityNotes(lines: seq<string>): seq<string>
  {
    RunChecks([MentionsExam(lines), MentionsMonth(lines)], [FoundAnExam, DatesLookValid])
  }

  /** The month check runs only after the exam check passed, and a failure ends the notes. */
  lemma SanityNotesCases(lines: seq<string>)
    ensures !MentionsExam(lines) ==> SanityNotes(lines) == [SanityFailed]
    ensures MentionsExam(lines) && !MentionsMonth(lines) ==>
              SanityNotes(lines) == [FoundAnExam, SanityFailed]
    ensures MentionsExam(lines) && MentionsMonth(lines) ==>
              SanityNotes(lines) == [FoundAnExam, DatesLookValid]
  {
    var passed := [MentionsExam(lines), MentionsMonth(lines)];
    assert passed[1..] == [MentionsMonth(lines)];
    assert passed[1..][1..] == [];
  }

  // ---------------------------------------------------------------------------
  // The whole report.

  /** Every match a scanner reports lies inside the scanned text. */
  lemma ScanInText(scan: Scanner, text: string)
    ensures InText(scan(text), |text|)
  {
    assert WellFormed(scan(text), |text|);
  }

  /** The `results` list of `find_exams_strict`: one bullet line per keyword match whose key
      was not seen at an earlier match. */
  function Results<D>(text: string, kws: seq<Span>, ctxYear: int, dateScan: Scanner,
                      parse: string -> Option<D>, format: D -> string): seq<string>
    requires InText(kws, |text|)
  {
    RenderAll(Dedup(Resolved(text, kws, ctxYear, dateScan, parse)), format)
  }

  /** The returned string for a non-empty text: the no-exams notice when there are no
      results, otherwise the header, one line per result, and the sanity notes. */
  function Report(lines: seq<string>): string
  {
    if lines == [] then NoExams
    else Header + Join("\n", lines) + "\n\n" + Join(" | ", SanityNotes(lines))
  }

  /** `find_exams_strict` after `extract_text`, as a function of the text; `examScan` stands
      for `EXAM_PATTERN.finditer`, `dateScan` for `DATE_PATTERN.finditer`, `fallbackYear`
      for `datetime.now().year`. */
  function ExamsReport<D>(text: string, fallbackYear: int, examScan: Scanner, dateScan: Scanner,
                          parse: string -> Option<D>, format: D -> string): string
  {
    if IsBlank(text) then Warning
    else Report(ScannedResults(text, fallbackYear, examScan, dateScan, parse, format))
  }

  /** The `results` list for the keyword matches of `examScan` and the context year of the text. */
  function ScannedResults<D>(text: string, fallbackYear: int, examScan: Scanner, dateScan: Scanner,
                             parse: string -> Option<D>, format: D -> string): seq<string>
  {
    ScanInText(examScan, text);
    Results(text, examScan(text), InferContextYear(text, fallbackYear), dateScan, parse, format)
  }

  /** The line at position `a` renders the entry at position `a`. */
  lemma {:induction false} RenderAllAt<D>(es: seq<Entry<D>>, format: D -> string, a: nat)
    requires a < |es|
    ensures RenderAll(es, format)[a] == RenderLine(es[a], format)
  {
    var init := es[..|es| - 1];
    if a < |init| {
      RenderAllAt(init, format, a);
      assert init[a] == es[a];
    }
  }

  /** Only the empty sequence has no keys, and distinct keys count the entries. */
  lemma {:induction false} DistinctKeysCount<D>(d: seq<Entry<D>>)
    requires DistinctKeys(d)
    ensures |KeysOf(d)| == |d|
  {
    if d != [] {
      var init := d[..|d| - 1];
      var x := d[|d| - 1];
      assert d == init + [x];
      KeysOfSnoc(init, x);
      assert DistinctKeys(init) by {
        forall a, b | 0 <= a < b < |init| ensures KeyOf(init[a]) != KeyOf(init[b]) {
          assert init[a] == d[a] && init[b] == d[b];
        }
      }
      assert KeyOf(x) !in KeysOf(init);
      DistinctKeysCount(init);
    }
  }

  /** The `results` list holds one line per distinct key `(label.lower(), raw_dt)` among the
      keyword matches; in particular it is empty exactly when there is no keyword match. */
  lemma ResultsCount<D>(text: string, kws: seq<Span>, ctxYear: int, dateScan: Scanner,
                        parse: string -> Option<D>, format: D -> string)
    requires InText(kws, |text|)
    ensures |Results(text, kws, ctxYear, dateScan, parse, format)|
         == |KeysOf(Resolved(text, kws, ctxYear, dateScan, parse))|
    ensures Results(text, kws, ctxYear, dateScan, parse, format) == [] <==> kws == []
  {
    var es := Resolved(text, kws, ctxYear, dateScan, parse);
    DedupKeys(es);
    DistinctKeysCount(Dedup(es));
    if kws != [] {
      assert KeyOf(es[0]) in KeysOf(es);
    }
  }

  /** A bullet line holds its label, ignoring case. */
  lemma RenderLineMentions<D>(e: Entry<D>, format: D -> string)
    requires IsInfix("exam", Lower(e.phrase))
    ensures IsInfix("exam", Lower(RenderLine(e, format)))
  {
    var pre := "\U{2022} ";
    var post := " \U{2014} " + DateText(e.date, format);
    assert RenderLine(e, format) == pre + Title(e.phrase) + post;
    LowerConcat(pre + Title(e.phrase), post);
    LowerConcat(pre, Title(e.phrase));
    LowerTitle(e.phrase, false);
    InfixOfConcat("exam", Lower(pre), Lower(e.phrase), Lower(post));
  }

  /** The exam check passes whenever some keyword label contains "exam" in any case: the
      entry kept for that label's key renders a line holding the label. */
  lemma ExamLabelPassesCheck<D>(es: seq<Entry<D>>, format: D -> string, i: nat)
    requires i < |es| && IsInfix("exam", Lower(es[i].phrase))
    ensures MentionsExam(RenderAll(Dedup(es), format))
  {
    var d := Dedup(es);
    DedupKeys(es);
    assert KeyOf(es[i]) in KeysOf(d);
    var a :| 0 <= a < |d| && KeyOf(d[a]) == KeyOf(es[i]);
    RenderAllAt(d, format, a);
    RenderLineMentions(d[a], format);
  }

  /** The returned string begins with the header. */
  predicate HeaderFirst(out: string) {
    |Header| <= |out| && out[..|Header|] == Header
  }

  /** No results give the no-exams notice; otherwise the report begins with the header. */
  lemma ReportShape(lines: seq<string>)
    ensures Report(lines) == NoExams <==> lines == []
    ensures lines != [] ==> HeaderFirst(Report(lines))
  {
    if lines != [] {
      var rest := Join("\n", lines) + "\n\n" + Join(" | ", SanityNotes(lines));
      assert Report(lines) == Header + rest;
      assert (Header + rest)[0] == Header[0] != NoExams[0];
      assert (Header + rest)[..|Header|] == Header;
    }
  }

  /** For a text that is not blank (a blank one gives the warning), the report is the no-exams
      notice exactly when there is no keyword match, and begins with the header otherwise. */
  lemma ReportShapes<D>(text: string, fallbackYear: int, examScan: Scanner, dateScan: Scanner,
                        parse: string -> Option<D>, format: D -> string)
    requires !IsBlank(text)
    ensures ExamsReport(text, fallbackYear, examScan, dateScan, parse, format) == NoExams
            <==> examScan(text) == []
    ensures examScan(text) != [] ==>
              HeaderFirst(ExamsReport(text, fallbackYear, examScan, dateScan, parse, format))
  {
    var lines := ScannedResults(text, fallbackYear, examScan, dateScan, parse, format);
    ScannedResultsEmpty(text, fallbackYear, examScan, dateScan, parse, format);
    ReportShape(lines);
    assert ExamsReport(text, fallbackYear, examScan, dateScan, parse, format) == Report(lines);
  }

  /** The `results` list is empty exactly when there is no keyword match. */
  lemma ScannedResultsEmpty<D>(text: string, fallbackYear: int, examScan: Scanner, dateScan: Scanner,
                               parse: string -> Option<D>, format: D -> string)
    ensures ScannedResults(text, fallbackYear, examScan, dateScan, parse, format) == [] <==> examScan(text) == []
  {
    ScanInText(examScan, text);
    ResultsCount(text, examScan(text), InferContextYear(text, fallbackYear), dateScan, parse, format);
  }

  /** The label of keyword match `m` and the date found near it. */
  method ResolveKeyword<D>(text: string, m: Span, ctxYear: int, dateScan: Scanner,
                           parse: string -> Option<D>)
    returns (phrase: string, parsedDt: Option<D>, rawDt: Option<string>)
    requires m.start <= m.end <= |text|
    ensures Entry(phrase, Nearest(parsedDt, rawDt)) == EntryAt(text, m, ctxYear, dateScan, parse)
  {
    phrase := NormalizeLabel(text[m.start..m.end]);
    parsedDt, rawDt := FindNearestDate(text, m.start, ctxYear, DefaultWindow, dateScan, parse);
  }

  /** One turn of the keyword loop after the keyword is resolved: a result whose key
      `(label.lower(), raw_dt)` is already in `seen` is dropped, otherwise its key is added
      and its bullet line appended. `es` are the entries of the earlier turns. */
  method Record<D>(seen: set<Key>, results: seq<string>, ghost es: seq<Entry<D>>,
                   phrase: string, parsedDt: Option<D>, rawDt: Option<string>, format: D -> string)
    returns (seen': set<Key>, results': seq<string>)
    requires seen == KeysOf(es) && results == RenderAll(Dedup(es), format)
    ensures seen' == KeysOf(es + [Entry(phrase, Nearest(parsedDt, rawDt))])
    ensures results' == RenderAll(Dedup(es + [Entry(phrase, Nearest(parsedDt, rawDt))]), format)
  {
    ghost var e := Entry(phrase, Nearest(parsedDt, rawDt));
    DedupStep(es, e, format);
    var key := (Lower(phrase), rawDt);
    seen', results' := seen, results;
    if key !in seen {
      seen' := seen + {key};
      var line;
      match parsedDt {
        case Some(dt) =>
          line := "\U{2022} " + Title(phrase) + " \U{2014} " + format(dt);
        case None =>
          line := "\U{2022} " + Title(phrase) + " \U{2014} " + RawText(rawDt) + Uncertain;
      }
      assert line == RenderLine(e, format);
      results' := results + [line];
    }
  }

  lemma TakeOneMore<T>(s: seq<T>, i: nat)
    requires i < |s|
    ensures s[..i + 1] == s[..i] + [s[i]]
  {
  }

  lemma TakeAll<T>(s: seq<T>)
    ensures s[..|s|] == s
  {
  }

  /** The keyword loop of `find_exams_strict`: the rendered line of every keyword match whose
      key `(label.lower(), raw_dt)` has not been seen before, in scan order. */
  method CollectResults<D>(text: string, kws: seq<Span>, ctxYear: int, dateScan: Scanner,
                           parse: string -> Option<D>, format: D -> string)
    returns (results: seq<string>)
    requires InText(kws, |text|)
    ensures results == Results(text, kws, ctxYear, dateScan, parse, format)
  {
    ghost var es := Resolved(text, kws, ctxYear, dateScan, parse);
    results := [];
    var seen: set<Key> := {};
    for i := 0 to |kws|
      invariant results == RenderAll(Dedup(es[..i]), format)
      invariant seen == KeysOf(es[..i])
    {
      var phrase, parsedDt, rawDt := ResolveKeyword(text, kws[i], ctxYear, dateScan, parse);
      assert es[i] == Entry(phrase, Nearest(parsedDt, rawDt));
      TakeOneMore(es, i);
      seen, results := Record(seen, results, es[..i], phrase, parsedDt, rawDt, format);
    }
    TakeAll(es);
  }

  /** The `try` block of `find_exams_strict`: the exam check, then the month check, the first
      failing assertion adding the failure note in place of the remaining confirmations. */
  method SanityChecks(results: seq<string>) returns (sanityMsgs: seq<string>)
    ensures sanityMsgs == SanityNotes(results)
  {
    SanityNotesCases(results);
    sanityMsgs := [];
    if MentionsExam(results) {
      sanityMsgs := sanityMsgs + [FoundAnExam];
      if MentionsMonth(results) {
        sanityMsgs := sanityMsgs + [DatesLookValid];
      } else {
        sanityMsgs := sanityMsgs + [SanityFailed];
      }
    } else {
      sanityMsgs := sanityMsgs + [SanityFailed];
    }
  }

  /** The end of `find_exams_strict`: the sanity checks over the results, then the returned
      string. */
  method AssembleReport(results: seq<string>) returns (out: string)
    ensures out == Report(results)
  {
    var sanityMsgs := SanityChecks(results);
    if results == [] {
      return NoExams;
    }
    out := Header + Join("\n", results) + "\n\n" + Join(" | ", sanityMsgs);
  }

  /** `find_exams_strict` after `extract_text`. */
  method FindExamsStrict<D>(text: string, fallbackYear: int, examScan: Scanner, dateScan: Scanner,
                            parse: string -> Option<D>, format: D -> string)
    returns (out: string)
    ensures out == ExamsReport(text, fallbackYear, examScan, dateScan, parse, format)
  {
    if IsBlank(text) {
      return Warning;
    }
    var ctxYear := InferContextYear(text, fallbackYear);
    var kws := examScan(text);
    ScanInText(examScan, text);
    var results := CollectResults(text, kws, ctxYear, dateScan, parse, format);
    out := AssembleReport(results);
  }
}
