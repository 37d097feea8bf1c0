# Exam-date finder: a Dafny model of `find_exams_strict`

The program reads a course syllabus and reports each exam it mentions together with the
date written next to it. It works in four stages:

- **Context year** (`infer_context_year`): the first standalone `20dd` token in the document.
  When there is none, the current year is used.
- **Keyword matches** (`EXAM_PATTERN`): "mini exam", "final exam" and "exam N".
- **Nearest date** (`find_nearest_date`) for each match. Date matches are collected in a
  window of 90 characters on each side of the keyword's start:
  - the date that ends last at or before the keyword is preferred;
  - failing that, the date whose start is nearest the keyword is taken;
  - the chosen text is cleaned (`clean_date_str`), given the context year when it has no
    year of its own, and parsed.
- **Report** (`find_exams_strict`). Keyword results are deduplicated on
  `(lower-cased label, date string)`, and the first occurrence wins. Each result becomes a
  bullet line. Two sanity checks run, and the first one that fails stops the checks. The
  returned string takes one of three shapes: a warning for a blank text, a notice when
  nothing was found, or the report.

The model has these modules:

| module | file | contents |
|---|---|---|
| `Options` | options.dfy | `Option` |
| `Matches` | matches.dfy | regex matches as spans |
| `Strings` | strings.dfy | character classes, decimal rendering and parsing, ASCII `lower`/`title`, `strip`, `join` |
| `Years` | years.dfy | year tokens, the context year, the year back-fill |
| `Cleaning` | cleaning.dfy | the three rewrites of `clean_date_str` |
| `Resolver` | resolver.dfy | `find_nearest_date` |
| `Pipeline` | pipeline.dfy | `find_exams_strict` after text extraction |

Some source code is written imperatively. `find_nearest_date` has a candidate loop. In
`find_exams_strict`, the keyword loop updates `seen` and `results`, and the sanity-check `try`
block appends its notes one after another. These are methods:
- `CollectCandidates`/`ShiftMatches`;
- `ResolveKeyword`, `Record` and `CollectResults`;
- `SanityChecks`, `AssembleReport` and `FindExamsStrict`.

Each method is proved equal to a specification function. The lemmas are proved about those
functions.

The two regular expressions `DATE_PATTERN` and `EXAM_PATTERN` are parameters of type
`Scanner`. A `Scanner` is any function from a string to the spans `finditer` reports. The
model assumes only what `finditer` guarantees for these two patterns:
- every span is non-empty (each pattern must consume a month and a digit, or "exam") and
  inside the string;
- spans come in ascending order;
- spans do not overlap.

These are also parameters: `dateparser.parse` (`parse`), `strftime("%A, %B %d, %Y")`
(`format`) and `datetime.now().year` (`fallbackYear`). The three regexes of `clean_date_str`
and the year regex are modelled exactly over ASCII letters and digits (see "Left out" for
the Unicode classes).

Behaviour of the code worth noting:
- **The order of the cleaning rewrites.** The code first repairs the month period, then
  collapses whitespace and strips separators, and finally drops the whitespace before commas.
- **Keywords without a date.** A keyword with no date in its window still gives a result,
  the line `None (date parse uncertain)`. So the no-exams notice appears only when there is
  no keyword match at all (`Pipeline.ReportShapes`).
- **What the sanity checks scan.** They look at whole bullet lines, and the month check is
  case-sensitive. The checks are computed even when the results are empty; their notes are
  then discarded.
- **The window.** It is the half-open slice `text[start:end]`.
- **"Mini-Exam 1".** The input "Mini-Exam 1" yields the label "Mini-Exam". The leftmost
  match is the `mini…exam` alternative, so the digit is not part of the label.

## Model

| member | source | states |
|---|---|---|
| Years.YearAt | src_code.py:21 | a `\b20\d{2}\b` token starts at `i`: "20", two ASCII digits, no word character on either side (the definition; used by `FirstYearFrom` and `YearValue`) |
| Years.FirstYearFrom | src_code.py:21 | the leftmost `\b20\d{2}\b` token at or after a position, or none at all from there on |
| Years.HasYearToken | src_code.py:64 | `re.search(r"\b20\d{2}\b", date_str)` succeeds (the definition; characterised by `HasYearTokenIff`) |
| Years.HasYearTokenIff | src_code.py:64 | the year search succeeds exactly when some position starts a year token |
| Years.YearValue | src_code.py:22 | `int(m.group(1))` of a year token lies in 2000..2099 |
| Years.InferContextYear | src_code.py:20-22 | the value of the first year token (no earlier position starts one), else the fallback year |
| Years.AppendedYearTokens | src_code.py:64-65 | appending `", " + year` creates no year token that starts inside the original string or the separator |
| Years.WithYear | src_code.py:63-65 | the back-fill: a string with a year token is kept, and any other gets `", "` and the context year appended (the definition; its meaning is in the next three rows) |
| Years.WithYearHasYear | src_code.py:63-65 | after the back-fill the string always has a year token, and an appended year is the one a later search finds first |
| Years.WithYearIdempotent | src_code.py:63-65 | back-filling twice is back-filling once |
| Strings.IntToDecimal | src_code.py:65 | `str(n)`: for `n >= 0` digits reading back as `n` with no leading zero unless `n == 0`; for `n < 0` a minus followed by such digits reading back as `-n` |
| Strings.NatToDecimal | src_code.py:65 | the decimal rendering is non-empty digits, one digit exactly for values below 10, never a leading zero except for 0 |
| Strings.DecimalRoundTrip | src_code.py:65 | reading back the decimal rendering of a number gives the number |
| Strings.YearDecimal | src_code.py:64-65 | a year in 2000..2099 renders as four digits starting "20" |
| Strings.Lower | src_code.py:82 | `str.lower()`: same length, each character lower-cased |
| Strings.LowerTitle | src_code.py:92 | title-casing a label is invisible after `lower()` |
| Strings.TitleFrom | src_code.py:92 | `str.title()` over ASCII from a given state: each letter upper-cased after a non-letter and lower-cased after a letter (the definition; proved in `TitleCaseShape`), same length |
| Strings.Title | src_code.py:92 | `str.title()` of a whole label: `TitleFrom` starting after no letter, same length |
| Strings.TitleCaseShape | src_code.py:92 | `str.title()` upper-cases a letter that follows a non-letter and lower-cases one that follows a letter |
| Strings.TrimStart | src_code.py:81 | the leading half of `strip()`: a suffix of the input, all removed characters dropped, the first kept one not |
| Strings.TrimEnd | src_code.py:81 | the trailing half of `strip()`: a prefix of the input, all removed characters dropped, the last kept one not |
| Strings.Trim | src_code.py:34 | `strip`: an infix of the input whose end characters are not dropped |
| Strings.TrimParts | src_code.py:34 | `strip` removes a run of dropped characters from each end and nothing else: the input is a dropped run, the result and a dropped run; with `Trim`'s ensures this determines the result |
| Strings.IsBlank | src_code.py:74 | `not text or not text.strip()`: every character is whitespace, the empty text included |
| Strings.Join | src_code.py:113 | `sep.join(xs)`: the elements in order with `sep` between neighbours, empty for no elements (the definition) |
| Cleaning.SkipSpaces | src_code.py:33 | the greedy `\s*` run: all whitespace, ending at the end of the string or at a character that is not whitespace |
| Cleaning.DotDayAt | src_code.py:33 | a step-1 match behind the three-letter lookbehind: only whitespace and periods before one or two digits; `DotDayAtMatches` states exactly which matches it finds |
| Cleaning.StepOneMatch | src_code.py:33 | the regex read declaratively: the lookbehind holds, whitespace around exactly one period, then the one or two digits the greedy group takes (the definition) |
| Cleaning.SkipSpacesTo | src_code.py:33 | `\s*` from `i` ends at `j` when `s[i..j]` is whitespace and `s[j]` is not |
| Cleaning.DotDayAtIsMatch | src_code.py:33 | every match `DotDayAt` reports is a declarative step-1 match |
| Cleaning.MatchIsDotDayAt | src_code.py:33 | every declarative step-1 match at a position is the one `DotDayAt` reports there |
| Cleaning.DotDayAtMatches | src_code.py:33 | both directions: `DotDayAt` reports `(b, e)` exactly when the pattern matches at `p` with digits `s[b..e]`, and `None` exactly when it matches nowhere at `p` |
| Cleaning.RepairFrom | src_code.py:33 | `re.sub` of step 1 over the rest of the string, left to right, resuming after each replacement (the definition; its behaviour is in the next rows) |
| Cleaning.RepairMonthDot | src_code.py:33 | step 1 over the whole string (the definition) |
| Cleaning.RepairFromSteps | src_code.py:33 | where the pattern matches, `". "` and the digits replace the match and the scan resumes after the digits; where it does not, one character is copied |
| Cleaning.RepairFromKeepsNonSpace | src_code.py:33 | step 1 changes only whitespace: every other character, the one period of each match included, is kept in order and none is added |
| Cleaning.DotDayNonSpace | src_code.py:33 | a step-1 match and its replacement `". " + digits` have the same characters other than whitespace |
| Cleaning.PeriodAmongSpacesNonSpace | src_code.py:33 | the part of a match before its digits is whitespace around exactly one period |
| Cleaning.NonSpaceNone | src_code.py:34-35 | a whitespace run has no character other than whitespace |
| Cleaning.RepairStrayPeriod | src_code.py:33 | step 1 turns "Oct . 5" into "Oct. 5" |
| Cleaning.CollapseSpaces | src_code.py:34 | `re.sub(r"\s+", " ", s)` (the definition; `CollapseSplit` and `CollapseRun` together fix its result on every string) |
| Cleaning.CollapseSplit | src_code.py:34 | collapsing works run by run: it distributes over a split made after a character that is not whitespace |
| Cleaning.CollapseRun | src_code.py:34 | a whitespace run becomes one plain space, whether a character other than whitespace follows it or it ends the string |
| Cleaning.CollapseSpacing | src_code.py:34 | after `re.sub(r"\s+", " ", s)` all whitespace is plain single spaces, and a non-empty result starts with whitespace exactly when the input does |
| Cleaning.NonSpaceConcat | src_code.py:34-35 | the non-whitespace characters of a concatenation are those of its parts, in order |
| Cleaning.CollapseKeepsNonSpace | src_code.py:34 | collapsing changes only whitespace: every other character, periods included, is kept in order and none is added |
| Cleaning.CollapseKeepsEnds | src_code.py:34 | collapsing keeps a first or last character that is not whitespace |
| Cleaning.CollapseExample | src_code.py:34 | collapsing leaves "Oct. 5" unchanged |
| Cleaning.StripSeparators | src_code.py:34 | `strip(" ,.;-–—")`: an infix of the input with no separator at either end |
| Cleaning.StripParts | src_code.py:34 | the input is a run of separators, the stripped string and a run of separators |
| Cleaning.StripKeepsNonSpace | src_code.py:34 | the input's characters other than whitespace are those of two runs of separators around the result's, in order |
| Cleaning.StripExample | src_code.py:34 | stripping leaves "Oct. 5" unchanged |
| Cleaning.DropSpaceBeforeComma | src_code.py:35 | `re.sub(r"\s+,", ",", s)`: a whitespace character is dropped when the next character other than whitespace is a comma (the definition; `DropSplit` and `DropRun` together fix its result on every string) |
| Cleaning.CommaAheadConcat | src_code.py:35 | whether a comma comes next depends only on the part before the first character other than whitespace |
| Cleaning.CommaAheadBlank | src_code.py:35 | after a whitespace run, a comma comes next exactly when the following character is a comma |
| Cleaning.DropSplit | src_code.py:35 | step 3 works run by run: it distributes over a split made after a character that is not whitespace |
| Cleaning.DropRun | src_code.py:35 | a whitespace run is dropped when a comma follows it, and is kept when another character follows or it ends the string |
| Cleaning.DropNoSpaceBeforeComma | src_code.py:35 | after `re.sub(r"\s+,", ",", s)` no whitespace precedes a comma, and the result starts with a comma only when the input's first character other than whitespace is one |
| Cleaning.DropKeepsSingleSpaced | src_code.py:35 | step 3 keeps a single-spaced string single-spaced |
| Cleaning.DropKeepsPlainSpaces | src_code.py:35 | step 3 keeps every whitespace character a plain space |
| Cleaning.DropKeepsEnds | src_code.py:35 | step 3 keeps a first or last character that is not whitespace |
| Cleaning.DropKeepsNonSpace | src_code.py:35 | step 3 changes only whitespace: every other character, periods included, is kept in order and none is added |
| Cleaning.DropWithoutComma | src_code.py:35 | step 3 changes nothing in a string without a comma |
| Cleaning.DropExample | src_code.py:35 | step 3 leaves "Oct. 5" unchanged |
| Cleaning.CleanDateStr | src_code.py:32-36 | the three steps in the code's order: repair, collapse and strip, drop spaces before commas (the definition) |
| Cleaning.CleanShape | src_code.py:32-36 | a cleaned date string has no separator at either end, only plain single spaces, and no space before a comma |
| Cleaning.CleanKeepsNonSpace | src_code.py:32-36 | cleaning never invents, drops or reorders a character other than whitespace, except for separators lost from the two ends: the input's characters other than whitespace are those of two runs of separators around the result's |
| Cleaning.TrimKeepsNonSpace | src_code.py:81 | stripping whitespace keeps every other character, in order |
| Cleaning.CleanStrayPeriod | src_code.py:32-36 | "Oct . 5" cleans to "Oct. 5" |
| Resolver.Window | src_code.py:39-40 | `max(0, anchor - window)` and `min(len(text), anchor + window)`: within the radius and the text, and ordered when the anchor is in the text |
| Resolver.Snippet | src_code.py:39-41 | `text[start:end]` for the window around the anchor (the definition; its candidates are described by `ShiftedFacts` and `CandidateInText`) |
| Resolver.CandidateAt | src_code.py:45-51 | the dict the loop appends for one match: offsets shifted by `start`, `before` when the shifted end is at most the anchor, and the matched text (the definition; proved in `ShiftedFacts` and `CandidateInText`) |
| Resolver.Shifted | src_code.py:44-52 | one `CandidateAt` per snippet match, in order (the definition; `ShiftMatches` is proved equal to it and `ShiftedFacts` states its properties) |
| Resolver.ShiftedFacts | src_code.py:44-52 | candidates lie in the window, in order, never overlap, carry the document's text at their offsets, and are "before" exactly when they end at or before the anchor |
| Resolver.CandidateInText | src_code.py:51 | `snippet[m.start():m.end()]` is the document text at the shifted offsets |
| Resolver.Candidates | src_code.py:39-52 | one candidate per date match in the window, with the properties of `ShiftedFacts` |
| Resolver.ShiftMatches | src_code.py:44-52 | the loop over the snippet's matches builds exactly the candidate list |
| Resolver.CollectCandidates | src_code.py:39-52 | window, scan and loop produce the candidate list |
| Resolver.BeforeOnly | src_code.py:57 | the list comprehension keeping the candidates with `before` set, in order (the definition; proved in `BeforeOnlyLatest`) |
| Resolver.LatestEnding | src_code.py:59 | `max(key=abs_end)`: an element with the largest end, the first of them on ties |
| Resolver.Distance | src_code.py:61 | the key `abs(abs_start - anchor_idx)` (the definition; used by `NearestStarting` and `FallbackChoice`) |
| Resolver.NearestStarting | src_code.py:61 | `min(key=abs(abs_start - anchor))`: an element whose start is nearest, the first of them on ties |
| Resolver.LatestBeforeIndex | src_code.py:57-59 | none exactly when no candidate ends at or before the anchor; otherwise the first before-candidate with the largest end |
| Resolver.BeforeOnlyLatest | src_code.py:57-59 | filtering the before-candidates and taking `max` picks the candidate `LatestBeforeIndex` finds, and the filtered list is empty exactly when that index is none |
| Resolver.Choose | src_code.py:57-61 | a before-candidate with the largest end (first on ties) when one exists, otherwise a candidate with the nearest start (first on ties) |
| Resolver.FindNearestDate | src_code.py:38-68 | the method returns `(None, None)` without candidates and otherwise the parse of the cleaned, back-filled string of the choice |
| Resolver.NearestDate | src_code.py:38-68 | `find_nearest_date`: `(None, None)` with no candidate, otherwise the parse and the back-filled cleaning of the chosen candidate's text (the definition; the next rows state its properties) |
| Resolver.NearestDateShape | src_code.py:54-68 | the date string is `None` exactly when the window has no date match, the parsed date is then `None` too, and otherwise is the parse of the date string |
| Resolver.BeforePreferred | src_code.py:57-59 | when a candidate ends before the anchor, the date string comes from a before-candidate ending no earlier than it |
| Resolver.NearestStartFallback | src_code.py:60-61 | when every candidate ends after the anchor, the date string comes from one whose start is nearest the anchor |
| Resolver.FallbackChoice | src_code.py:60-61 | with no before-candidate the choice has the least start distance |
| Resolver.BeforeChoiceIsLast | src_code.py:57-59 | no candidate after the chosen before-candidate ends at or before the anchor |
| Resolver.NearestDateHasYear | src_code.py:63-65 | every date string found carries a year token when the context year is in 2000..2099 |
| Resolver.BeforeWinsOverCloserAfter | src_code.py:57-61 | a date ending ten characters before the keyword beats one starting five characters after |
| Pipeline.NormalizeLabel | src_code.py:81 | `re.sub(r"\s+", " ", m.group(0).strip())` (the definition; proved in `NormalizeLabelShape`) |
| Pipeline.NormalizeLabelShape | src_code.py:81 | a label has no surrounding whitespace, only plain single spaces, and exactly the match's characters other than whitespace, in order |
| Pipeline.EntryAt | src_code.py:81-83 | the label of one keyword match and `find_nearest_date` at its start with the default window (the definition; `ResolveKeyword` is proved equal to it) |
| Pipeline.ResolveKeyword | src_code.py:81-83 | the label and the nearest date of one keyword match |
| Pipeline.ScanInText | src_code.py:80 | keyword matches lie inside the text |
| Pipeline.KeyOf | src_code.py:85 | the key `(label.lower(), raw_dt)` (the definition) |
| Pipeline.Dedup | src_code.py:85-88 | the entries the loop keeps: an entry whose key an earlier entry has is skipped (the definition; proved in the next rows) |
| Pipeline.KeysOfSnoc | src_code.py:88 | `seen.add(key)` adds exactly the new entry's key |
| Pipeline.DedupSnoc | src_code.py:85-88 | an entry whose key was seen is skipped, otherwise it is appended |
| Pipeline.DedupKeys | src_code.py:85-88 | deduplication loses no key and keeps each key once |
| Pipeline.DistinctKeysCount | src_code.py:85-88 | entries with distinct keys are as many as their keys |
| Pipeline.FirstIndex | src_code.py:85-88 | a position of an entry with the given key |
| Pipeline.FirstIndexIsFirst | src_code.py:85-88 | no earlier entry has that key |
| Pipeline.DedupKeepsFirstInOrder | src_code.py:80-88 | each kept entry is the first occurrence of its key, and kept entries appear in first-occurrence order |
| Pipeline.RawText | src_code.py:94 | `f"{raw_dt}"`: the date string, or "None" when there is none |
| Pipeline.DateText | src_code.py:90-94 | the formatted date when the parse succeeded, otherwise the raw text followed by " (date parse uncertain)" |
| Pipeline.RenderLine | src_code.py:92-94 | the bullet, the title-cased label, the dash and the date text (the definition) |
| Pipeline.RenderAll | src_code.py:90-94 | one line per kept entry |
| Pipeline.RenderAllAt | src_code.py:90-94 | line `a` renders entry `a` |
| Pipeline.DedupStep | src_code.py:85-94 | one turn of the loop: the new key joins `seen`, and a line is appended exactly when the key is new |
| Pipeline.Record | src_code.py:85-94 | the method updates `seen` and `results` as the loop body does |
| Pipeline.Results | src_code.py:78-94 | the `results` list: the rendered lines of the deduplicated entries of the keyword matches (the definition; `CollectResults` is proved equal to it, `ResultsCount` counts it) |
| Pipeline.CollectResults | src_code.py:78-94 | the keyword loop yields the rendered lines of the deduplicated entries |
| Pipeline.ResultsCount | src_code.py:80-94 | `results` has one line per distinct key, and is empty exactly when there is no keyword match |
| Pipeline.ScannedResults | src_code.py:77-94 | `results` for the matches of `EXAM_PATTERN` with the document's context year (the definition; see `ScannedResultsEmpty`) |
| Pipeline.ScannedResultsEmpty | src_code.py:77-94 | for the scanned matches, `results` is empty exactly when `EXAM_PATTERN` finds nothing |
| Pipeline.MentionsExam | src_code.py:100 | some line contains "exam" after `lower()` (the definition) |
| Pipeline.HasMonthAbbreviation | src_code.py:104 | some of the twelve month abbreviations occurs in the line, case-sensitive (the definition) |
| Pipeline.MentionsMonth | src_code.py:104 | some line has a month abbreviation (the definition) |
| Pipeline.PassingPrefix | src_code.py:97-108 | the checks that pass before the first failure |
| Pipeline.RunChecks | src_code.py:97-108 | the confirmations of the passing checks, then the failure note if one failed |
| Pipeline.SanityNotes | src_code.py:97-108 | the notes of the `try` block: the exam check, then the month check, stopping at the first failure (the definition; `SanityNotesCases` spells out its outcomes and `SanityChecks` is proved equal to it) |
| Pipeline.SanityNotesCases | src_code.py:97-108 | the exam check fails alone, or passes and the month check fails, or both pass, with the notes of each case |
| Pipeline.SanityChecks | src_code.py:97-108 | the method produces those notes |
| Pipeline.RenderLineMentions | src_code.py:92-94 | a bullet line holds its label ignoring case, so "exam" in the label is "exam" in the line |
| Pipeline.ExamLabelPassesCheck | src_code.py:100 | the exam check passes whenever some keyword label contains "exam" in any case, even if that entry was a duplicate |
| Pipeline.Report | src_code.py:110-113 | the no-exams notice for no lines, otherwise the header, the lines joined by newlines, a blank line and the notes joined by " \| " (the definition) |
| Pipeline.ReportShape | src_code.py:110-113 | no results give the no-exams notice, and otherwise the string starts with the header |
| Pipeline.AssembleReport | src_code.py:97-113 | the method returns the notice or the header, lines and notes |
| Pipeline.ReportShapes | src_code.py:74-113 | for a text that is not blank, the no-exams notice exactly when `EXAM_PATTERN` finds nothing, otherwise the header first |
| Pipeline.ExamsReport | src_code.py:72-113 | the warning for a blank text, otherwise the report of the scanned results (the definition; `ReportShapes` states its shapes) |
| Pipeline.FindExamsStrict | src_code.py:72-113 | the method returns the warning for a blank text and otherwise the report of its keyword matches |

## Left out

- `extract_text` (PDF and DOCX reading) and the Gradio user interface: they are I/O.
  `Pipeline.FindExamsStrict` takes the extracted text.
- `DATE_PATTERN` and `EXAM_PATTERN` are abstract `Scanner`s, not re-implemented regexes. The
  model therefore does not show which phrases are dates or exam keywords, nor that the
  date pattern tolerates stray periods.
- `dateparser.parse` and `strftime` are the parameters `parse` and `format`. How a string
  is parsed into a calendar date, and the weekday that results, are not modelled.
- `datetime.now().year` is the parameter `fallbackYear`.
- `\w`, `\b`, `\d`, `[A-Za-z]`, `lower()` and `title()` are modelled over ASCII letters and
  digits. Letters and digits outside ASCII are treated as neither word characters, digits
  nor cased, although Python's `\d` and `\w` also match Unicode digits and letters.
- The emoji markers of the output strings are fixed constants. Their rendering is not
  modelled.
- The `AssertionError` of a failed sanity check has no message, so the failure note ends
  after "failed: ". No other exception path exists in the core.
