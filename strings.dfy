/** Character classes and small string utilities shared by the exam-date finder:
    Python's whitespace set, ASCII word characters and digits, decimal rendering
    and parsing of integers, and ASCII case mapping (`str.lower`, `str.title`). */
module Strings {

  /** Python's `str.isspace()` set, which is also what `\s` matches in a `str` pattern. */
  predicate IsSpace(c: char) {
    c == ' ' || ('\t' <= c <= '\r') || ('\U{1C}' <= c <= '\U{1F}') || c == '\U{85}' || c == '\U{A0}'
    || c == '\U{1680}' || ('\U{2000}' <= c <= '\U{200A}') || c == '\U{2028}' || c == '\U{2029}'
    || c == '\U{202F}' || c == '\U{205F}' || c == '\U{3000}'
  }

  predicate IsDigit(c: char) { '0' <= c <= '9' }

  predicate IsAsciiLetter(c: char) { ('a' <= c <= 'z') || ('A' <= c <= 'Z') }

  predicate IsUpper(c: char) { 'A' <= c <= 'Z' }

  /** A character of `\w`: a letter, a digit or the underscore. */
  predicate IsWordChar(c: char) { IsAsciiLetter(c) || IsDigit(c) || c == '_' }

  /** Every character is whitespace: `not s or not s.strip()`. */
  predicate IsBlank(s: string) { forall i :: 0 <= i < |s| ==> IsSpace(s[i]) }

  /** Every whitespace character of `s` is a plain space. */
  predicate PlainSpaces(s: string) { forall i :: 0 <= i < |s| && IsSpace(s[i]) ==> s[i] == ' ' }

  /** No two adjacent characters of `s` are both whitespace. */
  ghost predicate SingleSpaced(s: string) {
    forall i, j :: 0 <= i && j == i + 1 && j < |s| ==> !(IsSpace(s[i]) && IsSpace(s[j]))
  }

  /** `p` occurs in `s` as a contiguous substring (Python's `p in s`). */
  predicate IsInfix(p: string, s: string) {
    exists i :: 0 <= i <= |s| && OccursAt(p, s, i)
  }

  predicate OccursAt(p: string, s: string, i: nat) {
    i + |p| <= |s| && s[i..i + |p|] == p
  }

  lemma InfixOfConcat(p: string, a: string, s: string, b: string)
    requires IsInfix(p, s)
    ensures IsInfix(p, a + s + b)
  {
    var i :| 0 <= i <= |s| && OccursAt(p, s, i);
    assert (a + s + b)[|a| + i..|a| + i + |p|] == s[i..i + |p|];
    assert OccursAt(p, a + s + b, |a| + i);
  }

  function DigitValue(c: char): (v: nat)
    requires IsDigit(c)
    ensures v < 10
  {
    (c as int - '0' as int) as nat
  }

  function DigitChar(d: nat): (c: char)
    requires d < 10
    ensures IsDigit(c) && DigitValue(c) == d
  {
    ('0' as int + d) as char
  }

  predicate AllDigits(s: string) { forall i :: 0 <= i < |s| ==> IsDigit(s[i]) }

  /** The number a run of decimal digits denotes: Python's `int(s)`. */
  function DigitsValue(s: string): nat
    requires AllDigits(s)
  {
    if s == [] then 0 else 10 * DigitsValue(s[..|s| - 1]) + DigitValue(s[|s| - 1])
  }

  /** The decimal rendering of a natural number, without leading zeros. */
  function NatToDecimal(n: nat): (r: string)
    ensures |r| >= 1 && AllDigits(r)
    ensures n < 10 <==> |r| == 1
    ensures r[0] == '0' ==> n == 0
  {
    if n < 10 then [DigitChar(n)] else NatToDecimal(n / 10) + [DigitChar(n % 10)]
  }

  /** Python's `str(n)` for an integer. */
  function IntToDecimal(n: int): (r: string)
    ensures |r| >= 1
    ensures n >= 0 ==> AllDigits(r) && DigitsValue(r) == n && (r[0] == '0' ==> n == 0)
    ensures n < 0 ==> |r| >= 2 && r[0] == '-' && r[1] != '0'
    ensures n < 0 ==> AllDigits(r[1..]) && DigitsValue(r[1..]) == -n
  {
    if n < 0 then
      DecimalRoundTrip(-n);
      var d := NatToDecimal(-n);
      assert ("-" + d)[1..] == d;
      "-" + d
    else
      DecimalRoundTrip(n);
      NatToDecimal(n)
  }

  /** Reading back a decimal rendering gives the number. */
  lemma {:induction false} DecimalRoundTrip(n: nat)
    ensures DigitsValue(NatToDecimal(n)) == n
  {
    if n >= 10 {
      DecimalRoundTrip(n / 10);
      var r := NatToDecimal(n);
      assert r[..|r| - 1] == NatToDecimal(n / 10);
    }
  }

  /** A number of four digits renders as exactly four digits. */
  lemma {:induction false} FourDigitDecimal(n: nat)
    requires 1000 <= n <= 9999
    ensures |NatToDecimal(n)| == 4
  {
    assert NatToDecimal(n) == NatToDecimal(n / 10) + [DigitChar(n % 10)];
    assert NatToDecimal(n / 10) == NatToDecimal(n / 100) + [DigitChar(n / 10 % 10)];
    assert NatToDecimal(n / 100) == NatToDecimal(n / 1000) + [DigitChar(n / 100 % 10)];
  }

  /** The leading two digits of a year in 2000..2099 are "20". */
  lemma YearDecimal(y: int)
    requires 2000 <= y <= 2099
    ensures |IntToDecimal(y)| == 4 && IntToDecimal(y)[0] == '2' && IntToDecimal(y)[1] == '0'
    ensures AllDigits(IntToDecimal(y)[2..])
  {
    FourDigitDecimal(y);
    var r := IntToDecimal(y);
    assert y / 100 == 20 && y / 1000 == 2;
    assert r == NatToDecimal(y / 100) + [DigitChar(y / 10 % 10)] + [DigitChar(y % 10)];
    assert NatToDecimal(y / 100) == NatToDecimal(y / 1000) + [DigitChar(y / 100 % 10)];
    assert y / 1000 == 2 && y / 100 % 10 == 0;
  }

  function LowerChar(c: char): (d: char)
    ensures IsAsciiLetter(c) <==> IsAsciiLetter(d)
    ensures !IsUpper(d)
  {
    if IsUpper(c) then (c as int + 32) as char else c
  }

  function UpperChar(c: char): (d: char)
    ensures IsAsciiLetter(c) <==> IsAsciiLetter(d)
    ensures LowerChar(d) == LowerChar(c)
  {
    if 'a' <= c <= 'z' then (c as int - 32) as char else c
  }

  /** `str.lower()` over ASCII. */
  function Lower(s: string): (r: string)
    ensures |r| == |s|
    ensures forall i :: 0 <= i < |s| ==> r[i] == LowerChar(s[i])
  {
    if s == [] then [] else [LowerChar(s[0])] + Lower(s[1..])
  }

  /** `str.title()` over ASCII: a letter is upper-cased when the character before it is
      not a letter (`prevCased` is false) and lower-cased otherwise. */
  function TitleFrom(s: string, prevCased: bool): (r: string)
    ensures |r| == |s|
  {
    if s == [] then []
    else
      var c := if prevCased then LowerChar(s[0]) else UpperChar(s[0]);
      [c] + TitleFrom(s[1..], IsAsciiLetter(s[0]))
  }

  function Title(s: string): (r: string)
    ensures |r| == |s|
  {
    TitleFrom(s, false)
  }

  /** Title-casing changes only the case of letters: it is invisible after `lower()`. */
  lemma {:induction false} LowerTitle(s: string, prevCased: bool)
    ensures Lower(TitleFrom(s, prevCased)) == Lower(s)
  {
    if s != [] {
      LowerTitle(s[1..], IsAsciiLetter(s[0]));
    }
  }

  /** A letter at the start of a title-cased word is upper case; later letters are lower case. */
  lemma {:induction false} TitleCaseShape(s: string, prevCased: bool, i: nat)
    requires i < |s| && IsAsciiLetter(s[i])
    ensures var r := TitleFrom(s, prevCased);
      (if i == 0 then prevCased else IsAsciiLetter(s[i - 1])) ==> r[i] == LowerChar(s[i])
    ensures var r := TitleFrom(s, prevCased);
      !(if i == 0 then prevCased else IsAsciiLetter(s[i - 1])) ==> IsUpper(r[i])
  {
    if i > 0 {
      TitleCaseShape(s[1..], IsAsciiLetter(s[0]), i - 1);
    }
  }

  /** The leading half of `s.strip(chars)`: the suffix left after the leading characters that
      `drop` holds of. */
  function TrimStart(drop: char -> bool, s: string): (r: string)
    ensures |r| <= |s| && r == s[|s| - |r|..]
    ensures r == [] || !drop(r[0])
    ensures forall i :: 0 <= i < |s| - |r| ==> drop(s[i])
  {
    if s != [] && drop(s[0]) then TrimStart(drop, s[1..]) else s
  }

  /** The trailing half of `s.strip(chars)`: the prefix left before the trailing characters
      that `drop` holds of. */
  function TrimEnd(drop: char -> bool, s: string): (r: string)
    ensures |r| <= |s| && r == s[..|r|]
    ensures r == [] || !drop(r[|r| - 1])
    ensures forall i :: |r| <= i < |s| ==> drop(s[i])
  {
    if s != [] && drop(s[|s| - 1]) then TrimEnd(drop, s[..|s| - 1]) else s
  }

  predicate AllDropped(drop: char -> bool, s: string) {
    forall i :: 0 <= i < |s| ==> drop(s[i])
  }

  /** `s.strip(chars)`: the infix between the leading and the trailing dropped characters.
      `TrimParts` shows that only dropped characters are removed, and only from the ends. */
  function Trim(drop: char -> bool, s: string): (r: string)
    ensures IsInfix(r, s)
    ensures r == [] || (!drop(r[0]) && !drop(r[|r| - 1]))
  {
    var t := TrimStart(drop, s);
    var r := TrimEnd(drop, t);
    assert OccursAt(r, s, |s| - |t|);
    r
  }

  /** `Trim` removes a run of dropped characters from each end of `s` and nothing else;
      with the ends of the result not dropped, this determines the result. */
  lemma TrimParts(drop: char -> bool, s: string)
    ensures exists a, b :: AllDropped(drop, a) && AllDropped(drop, b) && s == a + Trim(drop, s) + b
  {
    var a, b := TrimSplit(drop, s);
  }

  lemma TrimSplit(drop: char -> bool, s: string) returns (a: string, b: string)
    ensures AllDropped(drop, a) && AllDropped(drop, b)
    ensures s == a + Trim(drop, s) + b
  {
    a := TrimStartPart(drop, s);
    b := TrimEndPart(drop, TrimStart(drop, s));
    var r := TrimEnd(drop, TrimStart(drop, s));
    assert s == a + (r + b);
    ConcatAssoc(a, r, b);
  }

  lemma ConcatAssoc<T>(a: seq<T>, b: seq<T>, c: seq<T>)
    ensures a + (b + c) == a + b + c
  {
  }

  lemma TrimStartPart(drop: char -> bool, s: string) returns (a: string)
    ensures s == a + TrimStart(drop, s)
    ensures AllDropped(drop, a)
  {
    var k := |s| - |TrimStart(drop, s)|;
    a := s[..k];
    SplitAt(s, k);
  }

  lemma TrimEndPart(drop: char -> bool, s: string) returns (b: string)
    ensures s == TrimEnd(drop, s) + b
    ensures AllDropped(drop, b)
  {
    var k := |TrimEnd(drop, s)|;
    b := s[k..];
    SplitAt(s, k);
  }

  lemma SplitAt<T>(s: seq<T>, k: nat)
    requires k <= |s|
    ensures s == s[..k] + s[k..]
  {
  }

  lemma {:induction false} LowerConcat(a: string, b: string)
    ensures Lower(a + b) == Lower(a) + Lower(b)
  {
  }

  /** `sep.join(xs)`. */
  function Join(sep: string, xs: seq<string>): string
  {
    if xs == [] then [] else if |xs| == 1 then xs[0] else xs[0] + sep + Join(sep, xs[1..])
  }
}
