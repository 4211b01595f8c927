/**
 * The fixed extraction patterns of the posture validator, matched anywhere
 * in a file's content with leftmost, non-overlapping semantics:
 *
 *   `resource "google_securityposture_posture" "([^"]*)"\s*{`   (declarations)
 *   `<field>\s*=\s*"(.*?)"`                                    (assignments)
 *
 * Regular-expression facts used: `\s` is tab, newline, form feed, carriage
 * return or space; `.` is any character except newline; `[^"]` includes
 * newline. The patterns are hand-coded scanners, not a regex engine.
 */
module Patterns {
  import opened Wrappers
  import opened FormatRules

  /** `\s` */
  predicate IsSpace(c: char)
  {
    c == '\t' || c == '\n' || c == '\U{000C}' || c == '\r' || c == ' '
  }

  /** The literal `lit` occurs in `s` at position `p`. */
  predicate HasAt(s: string, p: nat, lit: string)
  {
    p + |lit| <= |s| && s[p..p + |lit|] == lit
  }

  /** `resource "google_securityposture_posture"`, the keyword part of a declaration. */
  const ResourceKeyword := "resource \"google_securityposture_posture\""
  /** The literal text a declaration starts with, up to its label. */
  const DeclarationPrefix := ResourceKeyword + " \""

  /** Every character of `s[i..j]` is a space. */
  predicate AllSpace(s: string, i: nat, j: nat)
    requires i <= j <= |s|
  {
    forall k :: i <= k < j ==> IsSpace(s[k])
  }

  /** No character of `s[i..j]` is a newline. */
  predicate NoNewline(s: string, i: nat, j: nat)
    requires i <= j <= |s|
  {
    forall k :: i <= k < j ==> s[k] != '\n'
  }

  /** No character of `s[i..j]` is a quote. */
  predicate NoQuote(s: string, i: nat, j: nat)
    requires i <= j <= |s|
  {
    forall k :: i <= k < j ==> s[k] != '"'
  }

  /** Greedy `\s*` from `i`: the index just past the run of spaces. */
  function SkipSpace(s: string, i: nat): (j: nat)
    requires i <= |s|
    ensures i <= j <= |s|
    ensures AllSpace(s, i, j)
    ensures j == |s| || !IsSpace(s[j])
    decreases |s| - i
  {
    if i < |s| && IsSpace(s[i]) then SkipSpace(s, i + 1) else i
  }

  /** `[^"]*"` from `i`: the first quote at or after `i`, newlines allowed. */
  function NextQuote(s: string, i: nat): (r: Option<nat>)
    requires i <= |s|
    ensures r.Some? ==> i <= r.value < |s| && s[r.value] == '"'
    ensures r.Some? ==> NoQuote(s, i, r.value)
    ensures r.None? ==> NoQuote(s, i, |s|)
    decreases |s| - i
  {
    if i == |s| then None
    else if s[i] == '"' then Some(i)
    else NextQuote(s, i + 1)
  }

  /** `.*?"` from `i`: the first quote at or after `i`, provided no newline
      comes before it (`.` does not match a newline). */
  function ClosingQuote(s: string, i: nat): (r: Option<nat>)
    requires i <= |s|
    ensures r.Some? ==> i <= r.value < |s| && s[r.value] == '"'
    ensures r.Some? ==> NoQuote(s, i, r.value) && NoNewline(s, i, r.value)
    ensures r.None? ==> forall k :: i <= k < |s| && s[k] == '"' ==> !NoNewline(s, i, k)
    decreases |s| - i
  {
    if i == |s| || s[i] == '\n' then None
    else if s[i] == '"' then Some(i)
    else ClosingQuote(s, i + 1)
  }

  /** One match: the span `[start, end)` of the whole match and its captured group. */
  datatype Match = Match(start: nat, end: nat, value: string)

  /** The two kinds of extraction pattern. */
  datatype Pattern = Declaration | Assignment(field: Field)

  /** The declaration pattern tried at exactly position `p`; the captured value is the label. */
  function DeclarationAt(s: string, p: nat): (r: Option<Match>)
    requires p <= |s|
    ensures r.Some? ==> r.value.start == p < r.value.end <= |s|
    ensures r.Some? ==> '"' !in r.value.value
  {
    if !HasAt(s, p, DeclarationPrefix) then None
    else
      var open := p + |DeclarationPrefix|;
      match NextQuote(s, open)
      case None => None
      case Some(close) =>
        var brace := SkipSpace(s, close + 1);
        if brace < |s| && s[brace] == '{' then Some(Match(p, brace + 1, s[open..close])) else None
  }

  /** The assignment pattern of field `f` tried at exactly position `p`; the
      captured value is the text between the quotes. */
  function AssignmentAt(s: string, f: Field, p: nat): (r: Option<Match>)
    requires p <= |s|
    ensures r.Some? ==> r.value.start == p < r.value.end <= |s|
    ensures r.Some? ==> '"' !in r.value.value && '\n' !in r.value.value
  {
    if HasAt(s, p, FieldName(f)) then AssignedValue(s, p, p + |FieldName(f)|) else None
  }

  /** `\s*=\s*"(.*?)"` from `i`, completing a match that started at `p`. */
  function AssignedValue(s: string, p: nat, i: nat): (r: Option<Match>)
    requires p <= i <= |s|
    ensures r.Some? ==> r.value.start == p && i < r.value.end <= |s|
    ensures r.Some? ==> '"' !in r.value.value && '\n' !in r.value.value
  {
    var eq := SkipSpace(s, i);
    if eq == |s| || s[eq] != '=' then None
    else
      var quote := SkipSpace(s, eq + 1);
      if quote == |s| || s[quote] != '"' then None
      else
        match ClosingQuote(s, quote + 1)
        case None => None
        case Some(close) => Some(Match(p, close + 1, s[quote + 1..close]))
  }

  function MatchAt(s: string, pat: Pattern, p: nat): (r: Option<Match>)
    requires p <= |s|
    ensures r.Some? ==> r.value.start == p < r.value.end <= |s|
  {
    match pat
    case Declaration => DeclarationAt(s, p)
    case Assignment(f) => AssignmentAt(s, f, p)
  }

  /** A pattern tried at every position of a text of length `n`. */
  type Matcher = nat -> Option<Match>

  /** A match found at `q` starts at `q` and is non-empty. */
  ghost predicate WellFormed(matcher: Matcher, n: nat)
  {
    forall q: nat :: matcher(q).Some? ==> matcher(q).value.start == q < matcher(q).value.end <= n
  }

  /** All leftmost, non-overlapping matches in positions `from..n`, in order:
      a search that fails at a position moves on by one character, and one
      that succeeds resumes at the end of its match. */
  function Scan(matcher: Matcher, n: nat, from: nat): (ms: seq<Match>)
    requires from <= n && WellFormed(matcher, n)
    ensures forall i :: 0 <= i < |ms| ==>
      from <= ms[i].start < ms[i].end <= n && matcher(ms[i].start) == Some(ms[i])
    ensures forall i, j :: 0 <= i < j < |ms| ==> ms[i].end <= ms[j].start
    decreases n - from
  {
    if from == n then []
    else
      match matcher(from)
      case Some(m) => [m] + Scan(matcher, n, m.end)
      case None => Scan(matcher, n, from + 1)
  }

  function PatternMatcher(s: string, pat: Pattern): (matcher: Matcher)
    ensures WellFormed(matcher, |s|)
  {
    (q: nat) => if q <= |s| then MatchAt(s, pat, q) else None
  }

  /** Every leftmost, non-overlapping match of `pat` in `s`. */
  function FindAll(s: string, pat: Pattern): (ms: seq<Match>)
    ensures forall i :: 0 <= i < |ms| ==>
      ms[i].start < ms[i].end <= |s| && MatchAt(s, pat, ms[i].start) == Some(ms[i])
    ensures forall i, j :: 0 <= i < j < |ms| ==> ms[i].end <= ms[j].start
  {
    Scan(PatternMatcher(s, pat), |s|, 0)
  }

  /** Every declaration of the target resource type in the file. */
  function Declarations(s: string): seq<Match>
  {
    FindAll(s, Declaration)
  }

  /** Every assignment of field `f` in the file; the values carry no quote and no newline. */
  function Assignments(s: string, f: Field): (ms: seq<Match>)
    ensures forall i :: 0 <= i < |ms| ==> '"' !in ms[i].value && '\n' !in ms[i].value
    ensures forall i :: 0 <= i < |ms| ==> HasAt(s, ms[i].start, FieldName(f))
  {
    FindAll(s, Assignment(f))
  }

  // ----- the languages of the two patterns -----

  /** `s[i..close + 1]` spells `\s*=\s*"v"` with the `=` at `eq`, the opening
      quote at `quote` and the closing one at `close`; the lazy `.*?` stops at
      the first quote, so the value holds none, nor a newline. */
  ghost predicate ValueShape(s: string, i: nat, eq: nat, quote: nat, close: nat)
  {
    && i <= eq < quote < close < |s|
    && AllSpace(s, i, eq)
    && s[eq] == '='
    && AllSpace(s, eq + 1, quote)
    && s[quote] == '"'
    && NoQuote(s, quote + 1, close) && NoNewline(s, quote + 1, close)
    && s[close] == '"'
  }

  /** `s[p..close + 1]` spells `<field>\s*=\s*"v"`. */
  ghost predicate AssignmentShape(s: string, f: Field, p: nat, eq: nat, quote: nat, close: nat)
  {
    HasAt(s, p, FieldName(f)) && ValueShape(s, p + |FieldName(f)|, eq, quote, close)
  }

  /** `s[p..brace + 1]` spells `resource "google_securityposture_posture" "label"\s*{`
      with the label's closing quote at `close`. */
  ghost predicate DeclarationShape(s: string, p: nat, close: nat, brace: nat)
  {
    var n := |DeclarationPrefix|;
    && HasAt(s, p, DeclarationPrefix)
    && p + n <= close < brace < |s|
    && NoQuote(s, p + n, close)
    && s[close] == '"'
    && AllSpace(s, close + 1, brace)
    && s[brace] == '{'
  }

  /** A greedy `\s*` run is determined by where the spaces stop. */
  lemma SkipSpaceStopsAt(s: string, i: nat, j: nat)
    requires i <= j < |s|
    requires AllSpace(s, i, j)
    requires !IsSpace(s[j])
    ensures SkipSpace(s, i) == j
  {
  }

  /** The lazy `.*?"` stops at the first quote. */
  lemma ClosingQuoteAt(s: string, i: nat, close: nat)
    requires i <= close < |s|
    requires NoQuote(s, i, close) && NoNewline(s, i, close) && s[close] == '"'
    ensures ClosingQuote(s, i) == Some(close)
  {
  }

  lemma AssignedValueComplete(s: string, p: nat, i: nat, eq: nat, quote: nat, close: nat)
    requires p <= i && ValueShape(s, i, eq, quote, close)
    ensures AssignedValue(s, p, i) == Some(Match(p, close + 1, s[quote + 1..close]))
  {
    SkipSpaceStopsAt(s, i, eq);
    SkipSpaceStopsAt(s, eq + 1, quote);
    ClosingQuoteAt(s, quote + 1, close);
  }

  /** The scanner finds exactly the assignment the pattern describes. */
  lemma AssignmentAtComplete(s: string, f: Field, p: nat, eq: nat, quote: nat, close: nat)
    requires AssignmentShape(s, f, p, eq, quote, close)
    ensures AssignmentAt(s, f, p) == Some(Match(p, close + 1, s[quote + 1..close]))
  {
    AssignedValueComplete(s, p, p + |FieldName(f)|, eq, quote, close);
  }

  /** Whatever the scanner finds has the shape the pattern describes. */
  lemma AssignmentAtSound(s: string, f: Field, m: Match) returns (eq: nat, quote: nat)
    requires m.start <= |s| && AssignmentAt(s, f, m.start) == Some(m)
    ensures AssignmentShape(s, f, m.start, eq, quote, m.end - 1)
    ensures m.value == s[quote + 1..m.end - 1]
  {
    eq, quote := AssignedValueSound(s, m.start + |FieldName(f)|, m);
  }

  lemma AssignedValueSound(s: string, i: nat, m: Match) returns (eq: nat, quote: nat)
    requires m.start <= i <= |s| && AssignedValue(s, m.start, i) == Some(m)
    ensures ValueShape(s, i, eq, quote, m.end - 1)
    ensures m.value == s[quote + 1..m.end - 1]
  {
    eq := SkipSpace(s, i);
    quote := SkipSpace(s, eq + 1);
  }

  lemma DeclarationAtComplete(s: string, p: nat, close: nat, brace: nat)
    requires DeclarationShape(s, p, close, brace)
    ensures DeclarationAt(s, p) == Some(Match(p, brace + 1, s[p + |DeclarationPrefix|..close]))
  {
    SkipSpaceStopsAt(s, close + 1, brace);
  }

  lemma DeclarationAtSound(s: string, p: nat) returns (close: nat)
    requires p <= |s| && DeclarationAt(s, p).Some?
    ensures DeclarationShape(s, p, close, DeclarationAt(s, p).value.end - 1)
    ensures DeclarationAt(s, p).value.value == s[p + |DeclarationPrefix|..close]
  {
    close := NextQuote(s, p + |DeclarationPrefix|).value;
  }

  // ----- leftmost, non-overlapping scanning -----

  /** `ms` is the leftmost, non-overlapping sequence of matches in positions
      `from..n`: its first match starts at the first position where the
      pattern matches, the rest is the same thing again from that match's
      end, and where no match is left the pattern matches nowhere. */
  ghost predicate LeftmostScan(matcher: Matcher, n: nat, from: nat, ms: seq<Match>)
    decreases |ms|
  {
    if ms == [] then
      forall q: nat :: from <= q < n ==> matcher(q).None?
    else
      && from <= ms[0].start
      && matcher(ms[0].start) == Some(ms[0])
      && (forall q: nat :: from <= q < ms[0].start ==> matcher(q).None?)
      && LeftmostScan(matcher, n, ms[0].end, ms[1..])
  }

  lemma {:induction false} ScanIsLeftmost(matcher: Matcher, n: nat, from: nat)
    requires from <= n && WellFormed(matcher, n)
    ensures LeftmostScan(matcher, n, from, Scan(matcher, n, from))
    decreases n - from
  {
    if from < n {
      match matcher(from)
      case Some(m) =>
        ScanIsLeftmost(matcher, n, m.end);
        assert ([m] + Scan(matcher, n, m.end))[1..] == Scan(matcher, n, m.end);
      case None =>
        ScanIsLeftmost(matcher, n, from + 1);
    }
  }

  /** There is only one leftmost scan, so the scanner is determined by it. */
  lemma {:induction false} LeftmostScanUnique(matcher: Matcher, n: nat, from: nat, ms: seq<Match>)
    requires from <= n && WellFormed(matcher, n)
    requires LeftmostScan(matcher, n, from, ms)
    ensures ms == Scan(matcher, n, from)
    decreases n - from
  {
    if from < n {
      match matcher(from)
      case Some(m) =>
        assert ms != [];
        assert ms[0].start == from;
        LeftmostScanUnique(matcher, n, m.end, ms[1..]);
        assert ms == [m] + ms[1..];
      case None =>
        if ms != [] {
          assert ms[0].start != from;
        }
        LeftmostScanUnique(matcher, n, from + 1, ms);
    }
  }

  /** The extractors are exactly the leftmost, non-overlapping scans of their patterns. */
  lemma FindAllIff(s: string, pat: Pattern, ms: seq<Match>)
    ensures LeftmostScan(PatternMatcher(s, pat), |s|, 0, ms) <==> ms == FindAll(s, pat)
  {
    ScanIsLeftmost(PatternMatcher(s, pat), |s|, 0);
    if LeftmostScan(PatternMatcher(s, pat), |s|, 0, ms) {
      LeftmostScanUnique(PatternMatcher(s, pat), |s|, 0, ms);
    }
  }
}
