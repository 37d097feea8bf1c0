/** Regular-expression matches, taken as given. The date pattern and the exam-keyword
    pattern are not re-implemented: each is a `Scanner`, a function from a string to the
    spans `finditer` would report on it. What the model relies on is what `finditer`
    guarantees for these patterns: every match is non-empty, lies inside the string, and
    the matches come in ascending order without overlapping. */
module Matches {

  /** A match `m` with `m.start()` and `m.end()`, as offsets into the scanned string. */
  datatype Span = Span(start: nat, end: nat)

  predicate WellFormed(spans: seq<Span>, n: nat) {
    && (forall i :: 0 <= i < |spans| ==> spans[i].start < spans[i].end <= n)
    && (forall i, j :: 0 <= i < j < |spans| ==> spans[i].end <= spans[j].start)
  }

  type Scanner = f: string -> seq<Span> | forall s :: WellFormed(f(s), |s|)
    witness (s: string) => []
}
