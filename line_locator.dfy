/**
 * `getLineNumber`: scan a file's content line by line and report the
 * 1-based number of the first line the search pattern matches, or -1.
 *
 * Lines are split as a line scanner does: on each newline, with no empty
 * last line after a final newline and no line at all for empty content.
 * A search pattern is either a literal or the assignment shape
 * `<field>\s*=\s*"<value>"` with the value quoted literally; it matches a
 * line when it matches anywhere inside it.
 */
module LineLocator {
  import opened Wrappers
  import opened FormatRules
  import opened Patterns

  /** The index of the first newline at or after `from`, or `|s|`. */
  function LineEnd(s: string, from: nat): (e: nat)
    requires from <= |s|
    ensures from <= e <= |s| && NoNewline(s, from, e)
    ensures e < |s| ==> s[e] == '\n'
    decreases |s| - from
  {
    if from == |s| || s[from] == '\n' then from else LineEnd(s, from + 1)
  }

  /** The lines of `s[from..]`. */
  function LinesFrom(s: string, from: nat): (ls: seq<string>)
    requires from <= |s|
    ensures forall k :: 0 <= k < |ls| ==> '\n' !in ls[k]
    decreases |s| - from
  {
    if from == |s| then []
    else
      var e := LineEnd(s, from);
      assert forall j :: 0 <= j < e - from ==> s[from..e][j] == s[from + j];
      [s[from..e]] + (if e == |s| then [] else LinesFrom(s, e + 1))
  }

  function Lines(s: string): seq<string>
  {
    LinesFrom(s, 0)
  }

  /** A search pattern for `getLineNumber`. */
  datatype LinePattern = Literal(text: string) | AssignmentOf(field: Field, value: string)

  /** `\s*=\s*"<value>"` from `i`, the value quoted literally. */
  predicate QuotedValueAt(line: string, i: nat, value: string)
    requires i <= |line|
  {
    var eq := SkipSpace(line, i);
    eq < |line| && line[eq] == '=' &&
    var quote := SkipSpace(line, eq + 1);
    quote < |line| && line[quote] == '"' && HasAt(line, quote + 1, value + "\"")
  }

  /** The search pattern matches `line` starting at position `p`. */
  predicate MatchesAt(line: string, pat: LinePattern, p: nat)
    requires p <= |line|
  {
    match pat
    case Literal(text) => HasAt(line, p, text)
    case AssignmentOf(f, v) => HasAt(line, p, FieldName(f)) && QuotedValueAt(line, p + |FieldName(f)|, v)
  }

  /** The search pattern matches somewhere in `line`. */
  predicate LineMatches(line: string, pat: LinePattern)
  {
    exists p: nat :: p <= |line| && MatchesAt(line, pat, p)
  }

  /** The 1-based number of the first matching line, or -1 when none matches. */
  function FirstMatchingLine(lines: seq<string>, pat: LinePattern): (n: int)
    ensures n == -1 || 1 <= n <= |lines|
    ensures n >= 1 ==> LineMatches(lines[n - 1], pat)
    ensures n >= 1 ==> forall k :: 0 <= k < n - 1 ==> !LineMatches(lines[k], pat)
    ensures n == -1 <==> forall k :: 0 <= k < |lines| ==> !LineMatches(lines[k], pat)
  {
    if lines == [] then -1
    else if LineMatches(lines[0], pat) then 1
    else
      var r := FirstMatchingLine(lines[1..], pat);
      assert forall k :: 1 <= k < |lines| ==> lines[k] == lines[1..][k - 1];
      if r == -1 then -1 else r + 1
  }

  /** The line scanner of `getLineNumber`: step through the content one line
      at a time, counting lines, and stop at the first line that matches. */
  method GetLineNumber(code: string, pat: LinePattern) returns (lineNum: int)
    ensures lineNum == FirstMatchingLine(Lines(code), pat)
  {
    ghost var lines := Lines(code);
    var pos := 0;
    lineNum := 1;
    while pos < |code|
      invariant pos <= |code| && 1 <= lineNum
      invariant ScanAt(code, lines, pat, lineNum - 1, pos)
      decreases |code| - pos
    {
      var e := LineEnd(code, pos);
      var found := MatchString(code[pos..e], pat);
      var next := if e < |code| then e + 1 else e;
      ScanStep(code, pos, lines, lineNum - 1, pat, e, next);
      if found {
        return;
      }
      lineNum := lineNum + 1;
      pos := next;
    }
    NoMatchAnywhere(code, lines, pat, lineNum - 1);
    lineNum := -1;
  }

  /** An unanchored search of one line: try the pattern at each start
      position in turn. */
  method MatchString(line: string, pat: LinePattern) returns (found: bool)
    ensures found == LineMatches(line, pat)
  {
    var p := 0;
    while p <= |line|
      invariant p <= |line| + 1
      invariant forall q: nat :: q < p && q <= |line| ==> !MatchesAt(line, pat, q)
    {
      if MatchesAt(line, pat, p) {
        return true;
      }
      p := p + 1;
    }
    return false;
  }

  /** The scan is at `pos`, the start of line `n` (0-based), and none of the
      lines before it matches. */
  ghost predicate ScanAt(code: string, lines: seq<string>, pat: LinePattern, n: nat, pos: nat)
    requires pos <= |code|
  {
    n <= |lines| && lines[n..] == LinesFrom(code, pos) && NoMatchBefore(lines, pat, n)
  }

  /** No line before line `n` (0-based) matches. */
  ghost predicate NoMatchBefore(lines: seq<string>, pat: LinePattern, n: nat)
  {
    n <= |lines| && forall k :: 0 <= k < n ==> !LineMatches(lines[k], pat)
  }

  /** Line `i` starting at `pos` is the first match when it matches;
      otherwise the scan moves on to the next line. */
  lemma ScanStep(code: string, pos: nat, lines: seq<string>, i: nat, pat: LinePattern, e: nat, next: nat)
    requires pos < |code| && ScanAt(code, lines, pat, i, pos)
    requires e == LineEnd(code, pos) && next == if e < |code| then e + 1 else e
    ensures LineMatches(code[pos..e], pat) ==> FirstMatchingLine(lines, pat) == i + 1
    ensures !LineMatches(code[pos..e], pat) ==> ScanAt(code, lines, pat, i + 1, next)
  {
    NextLine(code, pos, lines, i);
    if LineMatches(lines[i], pat) {
      FirstMatchIs(lines, pat, i);
    } else {
      NoMatchExtend(lines, pat, i);
    }
  }

  /** The scan ran off the end of the content without a match. */
  lemma NoMatchAnywhere(code: string, lines: seq<string>, pat: LinePattern, n: nat)
    requires ScanAt(code, lines, pat, n, |code|)
    ensures FirstMatchingLine(lines, pat) == -1
  {
    assert |lines[n..]| == 0;
  }

  /** The line starting at `pos` is line `i`, and the lines after it start after its newline. */
  lemma NextLine(code: string, pos: nat, lines: seq<string>, i: nat)
    requires pos < |code| && i <= |lines| && lines[i..] == LinesFrom(code, pos)
    ensures var e := LineEnd(code, pos);
      && i < |lines| && lines[i] == code[pos..e]
      && lines[i + 1..] == LinesFrom(code, if e < |code| then e + 1 else e)
  {
    var e := LineEnd(code, pos);
    assert lines[i..][0] == lines[i];
    assert lines[i + 1..] == lines[i..][1..];
    if e == |code| {
      assert LinesFrom(code, pos) == [code[pos..e]];
    }
  }

  lemma FirstMatchIs(lines: seq<string>, pat: LinePattern, i: nat)
    requires i < |lines| && LineMatches(lines[i], pat) && NoMatchBefore(lines, pat, i)
    ensures FirstMatchingLine(lines, pat) == i + 1
  {
    var n := FirstMatchingLine(lines, pat);
    // line i + 1 matches, so there is a first match and it is not after line i + 1
    assert n != -1 && n - 1 <= i by { assert LineMatches(lines[i], pat); }
    // line n matches, so it is not one of the lines before line i + 1
    assert LineMatches(lines[n - 1], pat);
  }

  /** When line `k + 1` matches, the search finds it or an earlier line,
      and finds it when no earlier line matches. */
  lemma MatchingLineFound(lines: seq<string>, pat: LinePattern, k: nat)
    requires k < |lines| && LineMatches(lines[k], pat)
    ensures 1 <= FirstMatchingLine(lines, pat) <= k + 1
    ensures NoMatchBefore(lines, pat, k) ==> FirstMatchingLine(lines, pat) == k + 1
  {
    if NoMatchBefore(lines, pat, k) {
      FirstMatchIs(lines, pat, k);
    }
  }

  lemma NoMatchExtend(lines: seq<string>, pat: LinePattern, i: nat)
    requires i < |lines| && !LineMatches(lines[i], pat) && NoMatchBefore(lines, pat, i)
    ensures NoMatchBefore(lines, pat, i + 1)
  {
  }

  // ----- lines and positions -----

  /** The number of newlines in `s[lo..hi]`. */
  function NewlineCount(s: string, lo: nat, hi: nat): (n: nat)
    requires lo <= hi <= |s|
    ensures n <= hi - lo
    decreases hi - lo
  {
    if lo == hi then 0 else (if s[lo] == '\n' then 1 else 0) + NewlineCount(s, lo + 1, hi)
  }

  /** The 1-based number of the line that position `p` of `s` is on: one
      more than the number of newlines before it. */
  function LineOf(s: string, p: nat): nat
    requires p <= |s|
  {
    1 + NewlineCount(s, 0, p)
  }

  /** Counting from the start of a line to beyond its end counts its newline once. */
  lemma {:induction false} CountPastLineEnd(s: string, from: nat, p: nat)
    requires from <= p <= |s| && LineEnd(s, from) < p
    ensures NewlineCount(s, from, p) == 1 + NewlineCount(s, LineEnd(s, from) + 1, p)
    decreases p - from
  {
    if s[from] != '\n' {
      CountPastLineEnd(s, from + 1, p);
    }
  }

  /** Position `p` is on line `NewlineCount(s, from, p)` (0-based) of
      `s[from..]`, the line that starts at `start`. */
  ghost predicate PositionIn(s: string, from: nat, p: nat, start: nat)
    requires from <= p < |s|
  {
    && from <= start <= p <= LineEnd(s, start) && NoNewline(s, start, p)
    && (start == from || s[start - 1] == '\n')
    && LineAt(s, from, NewlineCount(s, from, p), start)
  }

  /** Every position of `s[from..]` is on one of its lines. */
  lemma {:induction false} PositionOnLine(s: string, from: nat, p: nat) returns (start: nat)
    requires from <= p < |s|
    ensures PositionIn(s, from, p, start)
    decreases p - from
  {
    var e := LineEnd(s, from);
    if p <= e {
      start := from;
      PositionOnFirstLine(s, from, p, e);
    } else {
      start := PositionOnLine(s, e + 1, p);
      PositionOnLaterLine(s, from, p, e, start);
    }
  }

  /** Line `k` (0-based) of `s[from..]` is the line starting at `start`. */
  ghost predicate LineAt(s: string, from: nat, k: nat, start: nat)
    requires from <= |s| && start <= |s|
  {
    k < |LinesFrom(s, from)| && LinesFrom(s, from)[k] == s[start..LineEnd(s, start)]
  }

  /** A position after the first newline is on the line it is on among the later lines, one further down. */
  lemma PositionOnLaterLine(s: string, from: nat, p: nat, e: nat, start: nat)
    requires from <= e < p < |s| && e == LineEnd(s, from) && PositionIn(s, e + 1, p, start)
    ensures PositionIn(s, from, p, start)
  {
    CountPastLineEnd(s, from, p);
    LineAtLater(s, from, e, NewlineCount(s, e + 1, p), start);
  }

  /** A position before the end of the first line is on the first line. */
  lemma PositionOnFirstLine(s: string, from: nat, p: nat, e: nat)
    requires from <= p < |s| && e == LineEnd(s, from) && p <= e
    ensures PositionIn(s, from, p, from)
  {
    assert NoNewline(s, from, p);
    NoNewlineCount(s, from, p);
  }

  lemma {:induction false} NoNewlineCount(s: string, lo: nat, hi: nat)
    requires lo <= hi <= |s| && NoNewline(s, lo, hi)
    ensures NewlineCount(s, lo, hi) == 0
    decreases hi - lo
  {
    if lo < hi {
      NoNewlineCount(s, lo + 1, hi);
    }
  }

  /** The lines after the first newline are the later lines. */
  lemma LineAtLater(s: string, from: nat, e: nat, k: nat, start: nat)
    requires from <= e < |s| && e == LineEnd(s, from) && start <= |s|
    requires LineAt(s, e + 1, k, start)
    ensures LineAt(s, from, k + 1, start)
  {
    LinesFromCons(s, from, e, s[from..e]);
  }

  /** The position just after the last newline before `p`, or 0. */
  function LineStart(s: string, p: nat): (start: nat)
    requires p <= |s|
    ensures start <= p && NoNewline(s, start, p)
    ensures start == 0 || s[start - 1] == '\n'
  {
    if p == 0 || s[p - 1] == '\n' then p else LineStart(s, p - 1)
  }

  /** The line that holds position `p`, without its newline. */
  function LineAround(s: string, p: nat): string
    requires p <= |s|
  {
    s[LineStart(s, p)..LineEnd(s, LineStart(s, p))]
  }

  /** A line start is the only position after a newline (or at 0) from
      which no newline leads up to `p`. */
  lemma {:induction false} StartIsLineStart(s: string, p: nat, start: nat)
    requires start <= p <= |s| && NoNewline(s, start, p)
    requires start == 0 || s[start - 1] == '\n'
    ensures LineStart(s, p) == start
    decreases p - start
  {
    if start < p {
      StartIsLineStart(s, p - 1, start);
    }
  }

  /** Position `p` of `s` is on line `LineOf(s, p)`: that line is the one
      running from the last newline before `p` to the next newline. */
  lemma LineAroundIsLine(s: string, p: nat)
    requires p < |s|
    ensures LineOf(s, p) <= |Lines(s)| && Lines(s)[LineOf(s, p) - 1] == LineAround(s, p)
  {
    var start := PositionOnLine(s, 0, p);
    assert PositionIn(s, 0, p, start);
    StartIsLineStart(s, p, start);
  }

  /** A character other than a newline is in line `LineOf(s, p)`, at the
      offset of `p` from the start of that line. */
  lemma CharOnItsLine(s: string, p: nat) returns (offset: nat)
    requires p < |s| && s[p] != '\n'
    ensures LineOf(s, p) <= |Lines(s)| && offset < |Lines(s)[LineOf(s, p) - 1]|
    ensures Lines(s)[LineOf(s, p) - 1][offset] == s[p] && offset == p - LineStart(s, p)
  {
    var start := LineStart(s, p);
    LineAroundIsLine(s, p);
    assert NoNewline(s, start, p + 1);
    LineEndAtLeast(s, start, p + 1);
    offset := p - start;
    CharInSlice(s, start, LineEnd(s, start), p);
  }

  lemma CharInSlice(s: string, lo: nat, hi: nat, p: nat)
    requires lo <= p < hi <= |s|
    ensures s[lo..hi][p - lo] == s[p]
  {
  }

  /** The lines joined back together with a newline between each two. */
  function JoinLines(ls: seq<string>): string
  {
    if ls == [] then "" else if |ls| == 1 then ls[0] else ls[0] + "\n" + JoinLines(ls[1..])
  }

  /** What splitting into lines drops from the end of `s`: its final newline, if any. */
  function DroppedNewline(s: string): string
  {
    if |s| > 0 && s[|s| - 1] == '\n' then "\n" else ""
  }

  /** Joining the lines of `s[from..]` gives it back, without the final newline of `s` if it has one. */
  ghost predicate RoundTrips(s: string, from: nat)
    requires from <= |s|
  {
    JoinLines(LinesFrom(s, from)) + DroppedNewline(s) == s[from..]
  }

  /** Splitting into lines loses nothing but a final newline. */
  lemma {:induction false} LinesFromRoundTrip(s: string, from: nat)
    requires from < |s|
    ensures RoundTrips(s, from)
    decreases |s| - from
  {
    var e := LineEnd(s, from);
    if e + 1 < |s| {
      LinesFromRoundTrip(s, e + 1);
    }
    FirstLineRoundTrip(s, from, e);
  }

  /** The first line joins onto the round trip of the lines after it. */
  lemma FirstLineRoundTrip(s: string, from: nat, e: nat)
    requires from < |s| && e == LineEnd(s, from)
    requires e + 1 < |s| ==> RoundTrips(s, e + 1)
    ensures RoundTrips(s, from)
  {
    if e == |s| {
      LastLineRoundTrip(s, from);
    } else if e + 1 == |s| {
      FinalNewlineRoundTrip(s, from, e);
    } else {
      RoundTripStep(s, from, e);
    }
  }

  /** A last line without a newline after it is given back whole. */
  lemma LastLineRoundTrip(s: string, from: nat)
    requires from < |s| && LineEnd(s, from) == |s|
    ensures RoundTrips(s, from)
  {
    var line := s[from..];
    assert NoNewline(s, from, |s|) && from <= |s| - 1;
    assert LinesFrom(s, from) == [s[from..|s|]];
    assert JoinLines([line]) + "" == line;
  }

  /** A last line ended by the final newline is given back with that newline. */
  lemma FinalNewlineRoundTrip(s: string, from: nat, e: nat)
    requires from <= e && e + 1 == |s| && e == LineEnd(s, from)
    ensures RoundTrips(s, from)
  {
    var line := s[from..e];
    LinesFromCons(s, from, e, line);
    assert LinesFrom(s, from) == [line];
    assert s[from..] == line + "\n";
  }

  /** A line ended by a newline that is not the last character is joined to the rest by it. */
  lemma RoundTripStep(s: string, from: nat, e: nat)
    requires from <= e && e + 1 < |s| && e == LineEnd(s, from) && RoundTrips(s, e + 1)
    ensures RoundTrips(s, from)
  {
    var line, rest := s[from..e], LinesFrom(s, e + 1);
    LinesFromCons(s, from, e, line);
    JoinCons(line, rest);
    SliceAroundNewline(s, from, e);
    AppendAssoc(line + "\n", JoinLines(rest), DroppedNewline(s));
  }

  lemma AppendAssoc<T>(a: seq<T>, b: seq<T>, c: seq<T>)
    ensures a + b + c == a + (b + c)
  {
  }

  lemma SliceAroundNewline(s: string, from: nat, e: nat)
    requires from <= e < |s| && s[e] == '\n'
    ensures s[from..] == s[from..e] + "\n" + s[e + 1..]
  {
    assert s[from..] == s[from..e] + s[e..];
    assert s[e..] == [s[e]] + s[e + 1..];
  }

  lemma JoinCons(line: string, rest: seq<string>)
    requires |rest| > 0
    ensures JoinLines([line] + rest) == line + "\n" + JoinLines(rest)
  {
    assert ([line] + rest)[1..] == rest;
  }

  /** The lines of `s`, joined with newlines, give back `s` without its final newline. */
  lemma LinesRoundTrip(s: string)
    ensures JoinLines(Lines(s)) + DroppedNewline(s) == s
  {
    if s != [] {
      LinesFromRoundTrip(s, 0);
      assert RoundTrips(s, 0);
    }
  }

  /** The end of a line is determined by where the first newline is. */
  lemma LineEndStopsAt(s: string, from: nat, e: nat)
    requires from <= e <= |s| && NoNewline(s, from, e)
    requires e < |s| ==> s[e] == '\n'
    ensures LineEnd(s, from) == e
  {
  }

  /** Each line of `short` is a prefix of the same line of `long`, and all
      but the last of them are whole. */
  ghost predicate LinewisePrefix(short: seq<string>, long: seq<string>)
  {
    && |short| <= |long|
    && (forall k :: 0 <= k < |short| ==> short[k] <= long[k])
    && (forall k :: 0 <= k < |short| - 1 ==> short[k] == long[k])
  }

  lemma ConsLinewisePrefix(line: string, short: seq<string>, long: seq<string>)
    requires LinewisePrefix(short, long)
    ensures LinewisePrefix([line] + short, [line] + long)
  {
    assert forall k :: 0 < k <= |short| ==> ([line] + short)[k] == short[k - 1];
    assert forall k :: 0 < k <= |long| ==> ([line] + long)[k] == long[k - 1];
  }

  /** In a prefix of `s`, a line ends where it ends in `s` or at the cut. */
  lemma LineEndInPrefix(s: string, n: nat, from: nat)
    requires from <= n <= |s|
    ensures var e := LineEnd(s, from); LineEnd(s[..n], from) == if e < n then e else n
  {
    var t, e := s[..n], LineEnd(s, from);
    var cut := if e < n then e else n;
    assert NoNewline(t, from, cut) by {
      forall k | from <= k < cut ensures t[k] != '\n' { assert t[k] == s[k]; }
    }
    if e < n {
      assert t[e] == s[e];
    }
    LineEndStopsAt(t, from, cut);
  }

  /** A whole line before the cut is kept, and so are the lines after it. */
  lemma PrefixLinesStep(s: string, n: nat, from: nat)
    requires from < n <= |s| && LineEnd(s, from) < n
    requires LinewisePrefix(LinesFrom(s[..n], LineEnd(s, from) + 1), LinesFrom(s, LineEnd(s, from) + 1))
    ensures LinewisePrefix(LinesFrom(s[..n], from), LinesFrom(s, from))
  {
    var t, e := s[..n], LineEnd(s, from);
    var line := s[from..e];
    ConsLinewisePrefix(line, LinesFrom(t, e + 1), LinesFrom(s, e + 1));
    LineEndInPrefix(s, n, from);
    SliceOfPrefix(s, n, from, e);
    LinesFromCons(t, from, e, line);
    LinesFromCons(s, from, e, line);
  }

  lemma SliceOfPrefix(s: string, n: nat, lo: nat, hi: nat)
    requires lo <= hi <= n <= |s|
    ensures s[..n][lo..hi] == s[lo..hi]
  {
  }

  /** A line that ends in a newline is followed by the lines after the newline. */
  lemma LinesFromCons(s: string, from: nat, e: nat, line: string)
    requires from <= e < |s| && e == LineEnd(s, from) && line == s[from..e]
    ensures LinesFrom(s, from) == [line] + LinesFrom(s, e + 1)
  {
  }

  /** The line cut in two is the last line of the prefix. */
  lemma PrefixLinesLast(s: string, n: nat, from: nat)
    requires from < n <= |s| && n <= LineEnd(s, from)
    ensures LinewisePrefix(LinesFrom(s[..n], from), LinesFrom(s, from))
  {
    LineEndInPrefix(s, n, from);
    CutSliceIsPrefix(s, n, from, LineEnd(s, from));
  }

  lemma CutSliceIsPrefix(s: string, n: nat, from: nat, e: nat)
    requires from <= n <= e <= |s|
    ensures s[..n][from..n] <= s[from..e]
  {
    assert s[..n][from..n] == s[from..e][..n - from];
  }

  /** Cutting the content short cuts its lines short. */
  lemma {:induction false} PrefixLines(s: string, n: nat, from: nat)
    requires from <= n <= |s|
    ensures LinewisePrefix(LinesFrom(s[..n], from), LinesFrom(s, from))
    decreases n - from
  {
    if from < n {
      if LineEnd(s, from) < n {
        PrefixLines(s, n, LineEnd(s, from) + 1);
        PrefixLinesStep(s, n, from);
      } else {
        PrefixLinesLast(s, n, from);
      }
    }
  }

  /** A line runs at least as far as its first newline-free stretch. */
  lemma {:induction false} LineEndAtLeast(s: string, from: nat, x: nat)
    requires from <= x <= |s| && NoNewline(s, from, x)
    ensures x <= LineEnd(s, from)
    decreases x - from
  {
    if from < x {
      LineEndAtLeast(s, from + 1, x);
    }
  }

  /** A literal that starts before the end of the current line and holds no
      newline lies within that line. */
  lemma LiteralOnFirstLine(s: string, from: nat, p: nat, lit: string)
    requires from <= p && HasAt(s, p, lit) && '\n' !in lit
    requires p < LineEnd(s, from)
    ensures |LinesFrom(s, from)| > 0 && LineMatches(LinesFrom(s, from)[0], Literal(lit))
  {
    LiteralEndsWithinLine(s, from, p, lit);
    var e := LineEnd(s, from);
    var line := LinesFrom(s, from)[0];
    assert line == s[from..e];
    SliceHasAt(s, from, e, p, lit);
    assert MatchesAt(line, Literal(lit), p - from);
  }

  /** A newline-free literal starting inside a line ends inside it. */
  lemma LiteralEndsWithinLine(s: string, from: nat, p: nat, lit: string)
    requires from <= p && HasAt(s, p, lit) && '\n' !in lit
    requires p < LineEnd(s, from)
    ensures p + |lit| <= LineEnd(s, from)
  {
    assert NoNewline(s, from, p + |lit|) by {
      forall j | p <= j < p + |lit| ensures s[j] != '\n' { assert s[j] == lit[j - p]; }
    }
    LineEndAtLeast(s, from, p + |lit|);
  }

  /** A literal lying within a slice is found in the slice, shifted. */
  lemma SliceHasAt(s: string, lo: nat, hi: nat, p: nat, lit: string)
    requires lo <= p && p + |lit| <= hi <= |s| && HasAt(s, p, lit)
    ensures HasAt(s[lo..hi], p - lo, lit)
  {
    var t := s[lo..hi];
    forall j | 0 <= j < |lit| ensures t[p - lo..p - lo + |lit|][j] == lit[j] {
      assert t[p - lo + j] == s[p + j] == s[p..p + |lit|][j];
    }
  }

  /** A literal that starts on a later line is found among the later lines. */
  lemma LiteralOnLaterLine(s: string, from: nat, p: nat, lit: string, k': nat)
    requires from <= p && HasAt(s, p, lit) && |lit| > 0 && '\n' !in lit
    requires LineEnd(s, from) <= p
    requires k' < |LinesFrom(s, LineEnd(s, from) + 1)| && LineMatches(LinesFrom(s, LineEnd(s, from) + 1)[k'], Literal(lit))
    ensures k' + 1 < |LinesFrom(s, from)| && LinesFrom(s, from)[k' + 1] == LinesFrom(s, LineEnd(s, from) + 1)[k']
  {
  }

  /** A literal that holds no newline and occurs in the content occurs within one of its lines. */
  lemma {:induction false} LiteralOnSomeLine(s: string, from: nat, p: nat, lit: string) returns (k: nat)
    requires from <= p && HasAt(s, p, lit) && |lit| > 0 && '\n' !in lit
    ensures k < |LinesFrom(s, from)| && LineMatches(LinesFrom(s, from)[k], Literal(lit))
    decreases p - from
  {
    var e := LineEnd(s, from);
    if p < e {
      LiteralOnFirstLine(s, from, p, lit);
      k := 0;
    } else {
      assert s[p] == lit[0] && s[p] != '\n';
      var k' := LiteralOnSomeLine(s, e + 1, p, lit);
      LiteralOnLaterLine(s, from, p, lit, k');
      k := k' + 1;
    }
  }

  /** A newline-free literal occurring anywhere in the content is found on some line. */
  lemma LiteralFound(s: string, p: nat, lit: string)
    requires HasAt(s, p, lit) && |lit| > 0 && '\n' !in lit
    ensures FirstMatchingLine(Lines(s), Literal(lit)) >= 1
  {
    var k := LiteralOnSomeLine(s, 0, p, lit);
    MatchingLineFound(Lines(s), Literal(lit), k);
  }

  /** A literal found in a prefix of a line is found in the line. */
  lemma LiteralInLongerLine(short: string, long: string, lit: string)
    requires short <= long && LineMatches(short, Literal(lit))
    ensures LineMatches(long, Literal(lit))
  {
    var p: nat :| p <= |short| && MatchesAt(short, Literal(lit), p);
    assert long[p..p + |lit|] == short[p..p + |lit|];
    assert MatchesAt(long, Literal(lit), p);
  }

  /** `t` holds a copy of `s[lo..hi]`, shifted by `d`. */
  ghost predicate Copied(s: string, lo: nat, hi: nat, t: string, d: int)
  {
    && lo <= hi <= |s| && 0 <= lo + d && hi + d <= |t|
    && forall j :: lo <= j < hi ==> t[j + d] == s[j]
  }

  lemma SliceCopied(s: string, lo: nat, hi: nat, t: string, d: int)
    requires Copied(s, lo, hi, t, d)
    ensures t[lo + d..hi + d] == s[lo..hi]
  {
    forall j | 0 <= j < hi - lo ensures t[lo + d..hi + d][j] == s[lo..hi][j] { assert t[(lo + j) + d] == s[lo + j]; }
  }

  lemma CopiedFromSlice(s: string, p: nat, t: string, q: nat, n: nat)
    requires p + n <= |s| && q + n <= |t| && t[q..q + n] == s[p..p + n]
    ensures Copied(s, p, p + n, t, q - p)
  {
    forall j | p <= j < p + n ensures t[j + (q - p)] == s[j] {
      assert t[q..q + n][j - p] == s[p..p + n][j - p];
    }
  }

  lemma CopiedPart(s: string, lo: nat, hi: nat, t: string, d: int, lo': nat, hi': nat)
    requires Copied(s, lo, hi, t, d) && lo <= lo' <= hi' <= hi
    ensures Copied(s, lo', hi', t, d)
  {
  }

  lemma AllSpaceCopied(s: string, i: nat, j: nat, t: string, d: int)
    requires Copied(s, i, j, t, d) && AllSpace(s, i, j)
    ensures AllSpace(t, i + d, j + d)
  {
    forall k | i + d <= k < j + d ensures IsSpace(t[k]) { assert t[(k - d) + d] == s[k - d]; }
  }

  lemma NoQuoteCopied(s: string, i: nat, j: nat, t: string, d: int)
    requires Copied(s, i, j, t, d) && NoQuote(s, i, j) && NoNewline(s, i, j)
    ensures NoQuote(t, i + d, j + d) && NoNewline(t, i + d, j + d)
  {
    forall k | i + d <= k < j + d ensures t[k] != '"' && t[k] != '\n' { assert t[(k - d) + d] == s[k - d]; }
  }

  lemma ValueShapeCopied(s: string, i: nat, eq: nat, quote: nat, close: nat, t: string, d: int)
    requires ValueShape(s, i, eq, quote, close) && Copied(s, i, close + 1, t, d)
    ensures 0 <= i + d && ValueShape(t, i + d, eq + d, quote + d, close + d)
    ensures t[quote + d + 1..close + d] == s[quote + 1..close]
  {
    assert Copied(s, i, eq, t, d);
    AllSpaceCopied(s, i, eq, t, d);
    assert Copied(s, eq + 1, quote, t, d);
    AllSpaceCopied(s, eq + 1, quote, t, d);
    assert Copied(s, quote + 1, close, t, d);
    NoQuoteCopied(s, quote + 1, close, t, d);
    SliceCopied(s, quote + 1, close, t, d);
    assert t[eq + d] == s[eq] && t[quote + d] == s[quote] && t[close + d] == s[close];
  }

  /** The value shape, searched for with its own value, is found where it is. */
  lemma ValueShapeQuoted(t: string, i: nat, eq: nat, quote: nat, close: nat)
    requires ValueShape(t, i, eq, quote, close)
    ensures QuotedValueAt(t, i, t[quote + 1..close])
  {
    SkipSpaceStopsAt(t, i, eq);
    SkipSpaceStopsAt(t, eq + 1, quote);
    assert t[quote + 1..close + 1] == t[quote + 1..close] + "\"";
  }

  /** A copy of the value shape is found by the line search for its value. */
  lemma ValueShapeCopiedQuoted(s: string, i: nat, eq: nat, quote: nat, close: nat, t: string, d: int)
    requires ValueShape(s, i, eq, quote, close) && Copied(s, i, close + 1, t, d)
    ensures 0 <= i + d && QuotedValueAt(t, i + d, s[quote + 1..close])
  {
    ValueShapeCopied(s, i, eq, quote, close, t, d);
    ValueShapeQuoted(t, i + d, eq + d, quote + d, close + d);
  }

  /** A literal at the start of copied text is at the start of the copy. */
  lemma LiteralInCopy(s: string, p: nat, end: nat, lit: string, line: string, q: nat)
    requires HasAt(s, p, lit) && p + |lit| <= end <= |s|
    requires HasAt(line, q, s[p..end])
    ensures HasAt(line, q, lit)
  {
    assert s[p..p + |lit|] == s[p..end][..|lit|];
    assert line[q..q + |lit|] == line[q..q + (end - p)][..|lit|];
  }

  /** Text holding the value shape at offset `i - p` keeps it in its copy. */
  lemma QuotedValueInCopy(s: string, p: nat, i: nat, eq: nat, quote: nat, close: nat, line: string, q: nat)
    requires p <= i && ValueShape(s, i, eq, quote, close)
    requires HasAt(line, q, s[p..close + 1])
    ensures q + (i - p) <= |line| && QuotedValueAt(line, q + (i - p), s[quote + 1..close])
  {
    var d := q - p;
    CopiedFromSlice(s, p, line, q, close + 1 - p);
    CopiedPart(s, p, close + 1, line, d, i, close + 1);
    ValueShapeCopiedQuoted(s, i, eq, quote, close, line, d);
    assert i + d == q + (i - p);
  }

  /** A line holding a copy of the assignment shape matches the line search for its value. */
  lemma AssignmentInLine(s: string, f: Field, p: nat, eq: nat, quote: nat, close: nat, line: string, q: nat)
    requires AssignmentShape(s, f, p, eq, quote, close)
    requires HasAt(line, q, s[p..close + 1])
    ensures MatchesAt(line, AssignmentOf(f, s[quote + 1..close]), q)
  {
    var name := FieldName(f);
    var i := p + |name|;
    assert HasAt(s, p, name) && ValueShape(s, i, eq, quote, close);
    LiteralInCopy(s, p, close + 1, name, line, q);
    QuotedValueInCopy(s, p, i, eq, quote, close, line, q);
    assert q + (i - p) == q + |name|;
  }

  /** An assignment match that holds no newline lies on line `LineOf(s, m.start)`.
      The line search for its value therefore reports that line, or an
      earlier line that also matches; exactly that line when none before it does. */
  lemma AssignmentOnItsLine(s: string, f: Field, m: Match)
    requires m.start <= |s| && AssignmentAt(s, f, m.start) == Some(m)
    requires NoNewline(s, m.start, m.end)
    ensures FoundIn(Lines(s), AssignmentOf(f, m.value), LineOf(s, m.start))
  {
    AssignmentInItsLine(s, f, m);
    LocatedFromLine(s, m.start, AssignmentOf(f, m.value));
  }

  /** The line holding such an assignment matches the search for its value. */
  lemma AssignmentInItsLine(s: string, f: Field, m: Match)
    requires m.start <= |s| && AssignmentAt(s, f, m.start) == Some(m)
    requires NoNewline(s, m.start, m.end)
    ensures LineMatches(LineAround(s, m.start), AssignmentOf(f, m.value))
  {
    StretchAround(s, m.start, m.end);
    AssignmentMatchesLine(s, f, m, LineAround(s, m.start), m.start - LineStart(s, m.start));
  }

  /** A newline-free stretch from `p` lies within the line around `p`. */
  lemma StretchAround(s: string, p: nat, end: nat)
    requires p <= end <= |s| && NoNewline(s, p, end)
    ensures HasAt(LineAround(s, p), p - LineStart(s, p), s[p..end])
  {
    var start := LineStart(s, p);
    StretchInLine(s, start, p, end, LineEnd(s, start), LineAround(s, p));
  }

  /** A line holding a copy of an assignment match matches the search for its value. */
  lemma AssignmentMatchesLine(s: string, f: Field, m: Match, line: string, q: nat)
    requires m.start <= |s| && AssignmentAt(s, f, m.start) == Some(m)
    requires HasAt(line, q, s[m.start..m.end])
    ensures LineMatches(line, AssignmentOf(f, m.value))
  {
    var eq, quote := AssignmentAtSound(s, f, m);
    AssignmentInLine(s, f, m.start, eq, quote, m.end - 1, line, q);
    MatchesSomewhere(line, AssignmentOf(f, m.value), q);
  }

  /** When the line holding position `p` matches, the search reports that
      line or an earlier one, and that line when none before it matches. */
  lemma LocatedFromLine(s: string, p: nat, pat: LinePattern)
    requires p < |s| && LineMatches(LineAround(s, p), pat)
    ensures FoundIn(Lines(s), pat, LineOf(s, p))
  {
    LineAroundMatches(s, p, pat);
    FoundOnLine(Lines(s), pat, LineOf(s, p));
  }

  lemma LineAroundMatches(s: string, p: nat, pat: LinePattern)
    requires p < |s| && LineMatches(LineAround(s, p), pat)
    ensures 1 <= LineOf(s, p) <= |Lines(s)| && LineMatches(Lines(s)[LineOf(s, p) - 1], pat)
  {
    LineAroundIsLine(s, p);
  }

  /** The line search for `pat` reports line `k` or an earlier line, and
      line `k` itself when no earlier line matches. */
  ghost predicate FoundIn(lines: seq<string>, pat: LinePattern, k: nat)
  {
    var line := FirstMatchingLine(lines, pat);
    1 <= line <= k && (NoMatchBefore(lines, pat, k - 1) ==> line == k)
  }

  /** A matching line `k` is reported, or an earlier matching line is. */
  lemma FoundOnLine(lines: seq<string>, pat: LinePattern, k: nat)
    requires 1 <= k <= |lines| && LineMatches(lines[k - 1], pat)
    ensures FoundIn(lines, pat, k)
  {
    MatchingLineFound(lines, pat, k - 1);
  }

  /** A newline-free stretch that starts on a line lies within that line. */
  lemma StretchInLine(s: string, start: nat, p: nat, end: nat, e: nat, line: string)
    requires start <= p <= end <= |s| && NoNewline(s, start, p) && NoNewline(s, p, end)
    requires e == LineEnd(s, start) && line == s[start..e]
    ensures HasAt(line, p - start, s[p..end])
  {
    NoNewlineJoin(s, start, p, end);
    LineEndAtLeast(s, start, end);
    SliceWithin(s, start, e, p, end, line);
  }

  lemma NoNewlineJoin(s: string, i: nat, j: nat, k: nat)
    requires i <= j <= k <= |s| && NoNewline(s, i, j) && NoNewline(s, j, k)
    ensures NoNewline(s, i, k)
  {
  }

  /** A match at some position is a match in the line. */
  lemma MatchesSomewhere(line: string, pat: LinePattern, q: nat)
    requires q <= |line| && MatchesAt(line, pat, q)
    ensures LineMatches(line, pat)
  {
  }

  /** A stretch of `s` inside `s[lo..hi]` is found in that slice, shifted. */
  lemma SliceWithin(s: string, lo: nat, hi: nat, p: nat, end: nat, t: string)
    requires lo <= p <= end <= hi <= |s| && t == s[lo..hi]
    ensures HasAt(t, p - lo, s[p..end])
  {
    forall j | 0 <= j < end - p ensures t[p - lo..end - lo][j] == s[p..end][j] {
      assert t[p - lo + j] == s[p + j];
    }
  }
}
