/**
 * `validateTerraform`: walk a directory tree, examine every `.tf` file and
 * collect diagnostics in order.
 *
 * The walk is given as the sequence of events it produces: one entry per
 * visited path (its name, whether it is a directory, and what reading it
 * returns) or a walk error, which ends the walk. For each file the checks
 * run in this order: exactly one posture resource declaration (otherwise a
 * single diagnostic and the file is done), then a missing posture_id, then
 * invalid posture_id, policy_set_id and policy_id values, each in match order.
 */
module Validator {
  import opened Wrappers
  import opened FormatRules
  import opened Patterns
  import opened LineLocator

  /** What reading a file returns. */
  datatype ReadResult = Content(text: string) | ReadError(reason: string)

  /** One step of the directory walk. */
  datatype WalkEvent =
    | Entry(path: string, name: string, isDir: bool, read: ReadResult)
    | WalkError(reason: string)

  /** One diagnostic; `line` is -1 where no line could be located. */
  datatype Diagnostic =
    | Unreadable(path: string, reason: string)
    | DeclarationCount(path: string, count: nat, line: int)
    | MissingPostureId(path: string)
    | InvalidId(path: string, field: Field, value: string, line: int, rule: Rule)
    | WalkFailed(reason: string)

  // ----- file selection -----

  function LowerAscii(c: char): char
  {
    if 'A' <= c <= 'Z' then (c as int + 32) as char else c
  }

  /** Lower-casing; outside ASCII no character lower-cases to `.`, `t` or `f`,
      so folding ASCII alone decides the `.tf` suffix test the same way. */
  function ToLowerAscii(s: string): string
  {
    seq(|s|, i requires 0 <= i < |s| => LowerAscii(s[i]))
  }

  /** The lower-cased name ends in `.tf`. */
  function HasTfExtension(name: string): (b: bool)
    ensures b <==> (|name| >= 3 && name[|name| - 3] == '.'
                    && (name[|name| - 2] == 't' || name[|name| - 2] == 'T')
                    && (name[|name| - 1] == 'f' || name[|name| - 1] == 'F'))
  {
    var lower := ToLowerAscii(name);
    if |lower| < 3 then false
    else
      SuffixTf(lower);
      LowerAsciiTf(name[|name| - 3]);
      LowerAsciiTf(name[|name| - 2]);
      LowerAsciiTf(name[|name| - 1]);
      lower[|lower| - 3..] == ".tf"
  }

  lemma SuffixTf(s: string)
    requires |s| >= 3
    ensures s[|s| - 3..] == ".tf" <==> s[|s| - 3] == '.' && s[|s| - 2] == 't' && s[|s| - 1] == 'f'
  {
    var tail := s[|s| - 3..];
    assert tail[0] == s[|s| - 3] && tail[1] == s[|s| - 2] && tail[2] == s[|s| - 1];
    if tail[0] == '.' && tail[1] == 't' && tail[2] == 'f' {
      assert tail == ".tf";
    }
  }

  lemma LowerAsciiTf(d: char)
    ensures LowerAscii(d) == '.' <==> d == '.'
    ensures LowerAscii(d) == 't' <==> d == 't' || d == 'T'
    ensures LowerAscii(d) == 'f' <==> d == 'f' || d == 'F'
  {
  }

  // ----- what one file yields -----

  /** Where a wrong declaration count is reported: line 1 when there is no
      declaration; otherwise the keyword is first searched in the content up
      to and including the first character of the first declaration, and
      then, if that finds nothing, in the whole content. */
  function DeclarationLine(content: string, decls: seq<Match>): int
    requires |decls| == 0 || decls[0].start < |content|
  {
    if |decls| == 0 then 1
    else
      var narrowed := FirstMatchingLine(Lines(content[..decls[0].start + 1]), Literal(ResourceKeyword));
      if narrowed != -1 then narrowed else FirstMatchingLine(Lines(content), Literal(ResourceKeyword))
  }

  /** The diagnostic for one invalid value, located by searching for its assignment. */
  function InvalidIdDiagnostic(path: string, content: string, f: Field, value: string): Diagnostic
  {
    InvalidId(path, f, value, FirstMatchingLine(Lines(content), AssignmentOf(f, value)), RuleFor(f))
  }

  /** The diagnostics of one field's matches, in match order. */
  function InvalidIdDiagnostics(path: string, content: string, f: Field, ms: seq<Match>): seq<Diagnostic>
  {
    if ms == [] then []
    else
      var value := ms[|ms| - 1].value;
      InvalidIdDiagnostics(path, content, f, ms[..|ms| - 1])
        + (if ValidId(f, value) then [] else [InvalidIdDiagnostic(path, content, f, value)])
  }

  /** The identifier diagnostics of a file with exactly one declaration: a
      missing posture_id first, then the invalid values of each field in turn. */
  function IdDiagnostics(path: string, content: string): seq<Diagnostic>
  {
    var postureIds := Assignments(content, PostureId);
    (if |postureIds| == 0 then [MissingPostureId(path)] else [])
      + InvalidIdDiagnostics(path, content, PostureId, postureIds)
      + InvalidIdDiagnostics(path, content, PolicySetId, Assignments(content, PolicySetId))
      + InvalidIdDiagnostics(path, content, PolicyId, Assignments(content, PolicyId))
  }

  /** All diagnostics of one readable `.tf` file, in the order they are appended. */
  function FileDiagnostics(path: string, content: string): seq<Diagnostic>
  {
    var decls := Declarations(content);
    if |decls| != 1 then
      [DeclarationCount(path, |decls|, DeclarationLine(content, decls))]
    else
      IdDiagnostics(path, content)
  }

  // ----- what a walk yields -----

  /** What one visited entry adds: nothing for a directory or a non-`.tf`
      file, one diagnostic for an unreadable file, the file's diagnostics otherwise. */
  function EntryDiagnostics(e: WalkEvent): seq<Diagnostic>
    requires e.Entry?
  {
    if e.isDir || !HasTfExtension(e.name) then []
    else
      match e.read
      case ReadError(reason) => [Unreadable(e.path, reason)]
      case Content(text) => FileDiagnostics(e.path, text)
  }

  /** All diagnostics of a walk; a walk error ends the walk and is reported last. */
  function RunDiagnostics(events: seq<WalkEvent>): seq<Diagnostic>
  {
    if events == [] then []
    else
      match events[0]
      case WalkError(reason) => [WalkFailed(reason)]
      case Entry(_, _, _, _) => EntryDiagnostics(events[0]) + RunDiagnostics(events[1..])
  }

  // ----- the validator as it runs -----

  /** The ordered, append-only list of diagnostics of one run. */
  class DiagnosticCollector {
    var messages: seq<Diagnostic>

    constructor ()
      ensures messages == []
    {
      messages := [];
    }

    method Add(d: Diagnostic)
      modifies this
      ensures messages == old(messages) + [d]
    {
      messages := messages + [d];
    }
  }

  /** Check every extracted value of field `f`, reporting each one that fails. */
  method CheckIds(c: DiagnosticCollector, path: string, content: string, f: Field, ms: seq<Match>)
    modifies c
    ensures c.messages == old(c.messages) + InvalidIdDiagnostics(path, content, f, ms)
  {
    var i := 0;
    while i < |ms|
      invariant i <= |ms|
      invariant c.messages == old(c.messages) + InvalidIdDiagnostics(path, content, f, ms[..i])
    {
      var value := ms[i].value;
      if ValidId(f, value) {
        ValidStep(path, content, f, ms, i);
      } else {
        var lineNum := GetLineNumber(content, AssignmentOf(f, value));
        var d := InvalidId(path, f, value, lineNum, RuleFor(f));
        InvalidStep(path, content, f, ms, i, d);
        c.Add(d);
        AppendAssoc(old(c.messages), InvalidIdDiagnostics(path, content, f, ms[..i]), [d]);
      }
      i := i + 1;
    }
    assert ms[..|ms|] == ms;
  }

  /** A valid value adds no diagnostic. */
  lemma ValidStep(path: string, content: string, f: Field, ms: seq<Match>, i: nat)
    requires i < |ms| && ValidId(f, ms[i].value)
    ensures InvalidIdDiagnostics(path, content, f, ms[..i + 1]) == InvalidIdDiagnostics(path, content, f, ms[..i])
  {
    assert ms[..i + 1][..i] == ms[..i];
  }

  /** An invalid value adds its own diagnostic, located at the first line assigning it. */
  lemma InvalidStep(path: string, content: string, f: Field, ms: seq<Match>, i: nat, d: Diagnostic)
    requires i < |ms| && !ValidId(f, ms[i].value)
    requires d == InvalidId(path, f, ms[i].value, FirstMatchingLine(Lines(content), AssignmentOf(f, ms[i].value)), RuleFor(f))
    ensures InvalidIdDiagnostics(path, content, f, ms[..i + 1]) == InvalidIdDiagnostics(path, content, f, ms[..i]) + [d]
  {
    assert ms[..i + 1][..i] == ms[..i];
  }

  /** The checks on one readable `.tf` file. */
  method CheckFile(c: DiagnosticCollector, path: string, content: string)
    modifies c
    ensures c.messages == old(c.messages) + FileDiagnostics(path, content)
  {
    var decls := Declarations(content);
    if |decls| != 1 {
      var lineNum := LocateDeclaration(content, decls);
      c.Add(DeclarationCount(path, |decls|, lineNum));
      assert FileDiagnostics(path, content) == [DeclarationCount(path, |decls|, lineNum)];
      return;
    }
    assert FileDiagnostics(path, content) == IdDiagnostics(path, content);
    ghost var before := c.messages;
    var postureIds := Assignments(content, PostureId);
    ghost var missing: seq<Diagnostic> := if |postureIds| == 0 then [MissingPostureId(path)] else [];
    if |postureIds| == 0 {
      c.Add(MissingPostureId(path));
    }
    assert c.messages == before + missing;
    CheckIds(c, path, content, PostureId, postureIds);
    ghost var d1 := InvalidIdDiagnostics(path, content, PostureId, postureIds);
    AppendAssoc(before, missing, d1);
    CheckIds(c, path, content, PolicySetId, Assignments(content, PolicySetId));
    ghost var d2 := InvalidIdDiagnostics(path, content, PolicySetId, Assignments(content, PolicySetId));
    AppendAssoc(before, missing + d1, d2);
    CheckIds(c, path, content, PolicyId, Assignments(content, PolicyId));
    ghost var d3 := InvalidIdDiagnostics(path, content, PolicyId, Assignments(content, PolicyId));
    AppendAssoc(before, missing + d1 + d2, d3);
    assert IdDiagnostics(path, content) == missing + d1 + d2 + d3;
  }

  /** The line reported with a wrong declaration count: line 1 without a
      declaration, else the keyword's line found in the content up to the
      first declaration, falling back to a search of the whole content. */
  method LocateDeclaration(content: string, decls: seq<Match>) returns (lineNum: int)
    requires |decls| == 0 || decls[0].start < |content|
    ensures lineNum == DeclarationLine(content, decls)
    ensures decls == Declarations(content) && |decls| >= 1 ==>
      lineNum == FirstMatchingLine(Lines(content), Literal(ResourceKeyword)) >= 1
  {
    if |decls| > 0 {
      lineNum := GetLineNumber(content[..decls[0].start + 1], Literal(ResourceKeyword));
      if lineNum == -1 {
        lineNum := GetLineNumber(content, Literal(ResourceKeyword));
      }
    } else {
      lineNum := 1;
    }
    LocatedAtFirstMention(content, decls);
  }

  /** For the file's own declarations, the line located is the first mention. */
  lemma LocatedAtFirstMention(content: string, decls: seq<Match>)
    requires |decls| == 0 || decls[0].start < |content|
    ensures decls == Declarations(content) && |decls| >= 1 ==>
      DeclarationLine(content, decls) == FirstMatchingLine(Lines(content), Literal(ResourceKeyword)) >= 1
  {
    if decls == Declarations(content) && |decls| >= 1 {
      DeclarationLineIsFirstMention(content);
    }
  }

  /** A declaration starts with the resource keyword. */
  lemma DeclarationHasKeyword(s: string, p: nat)
    requires p <= |s| && DeclarationAt(s, p).Some?
    ensures HasAt(s, p, ResourceKeyword)
  {
    assert HasAt(s, p, DeclarationPrefix);
    assert DeclarationPrefix[..|ResourceKeyword|] == ResourceKeyword;
    assert s[p..p + |ResourceKeyword|] == s[p..p + |DeclarationPrefix|][..|ResourceKeyword|];
  }

  lemma FirstDeclarationHasKeyword(content: string) returns (p: nat)
    requires |Declarations(content)| >= 1
    ensures p == Declarations(content)[0].start && p < |content| && HasAt(content, p, ResourceKeyword)
  {
    var decls := Declarations(content);
    p := decls[0].start;
    assert MatchAt(content, Declaration, p) == Some(decls[0]);
    DeclarationHasKeyword(content, p);
  }

  /** A keyword occurring anywhere puts it on some line. */
  lemma KeywordOnSomeLine(s: string, p: nat)
    requires HasAt(s, p, ResourceKeyword)
    ensures FirstMatchingLine(Lines(s), Literal(ResourceKeyword)) >= 1
  {
    assert '\n' !in ResourceKeyword;
    LiteralFound(s, p, ResourceKeyword);
  }

  /** Searching a prefix of the content, when it finds the literal at all,
      finds it on the same line as searching the whole content. */
  lemma PrefixSearchAgrees(s: string, n: nat, lit: string)
    requires n <= |s| && FirstMatchingLine(Lines(s[..n]), Literal(lit)) != -1
    ensures FirstMatchingLine(Lines(s[..n]), Literal(lit)) == FirstMatchingLine(Lines(s), Literal(lit))
  {
    var short, long := Lines(s[..n]), Lines(s);
    var k := FirstMatchingLine(short, Literal(lit));
    PrefixLines(s, n, 0);
    LiteralInLongerLine(short[k - 1], long[k - 1], lit);
    assert forall j :: 0 <= j < k - 1 ==> short[j] == long[j];
  }

  /** The search cut at the first declaration never changes the answer: the
      reported line is the first line of the whole file that mentions
      `resource "google_securityposture_posture"`, and there is one. */
  lemma DeclarationLineIsFirstMention(content: string)
    requires |Declarations(content)| >= 1
    ensures DeclarationLine(content, Declarations(content)) == FirstMatchingLine(Lines(content), Literal(ResourceKeyword)) >= 1
  {
    var p := FirstDeclarationHasKeyword(content);
    KeywordOnSomeLine(content, p);
    var narrowed := FirstMatchingLine(Lines(content[..p + 1]), Literal(ResourceKeyword));
    if narrowed != -1 {
      PrefixSearchAgrees(content, p + 1, ResourceKeyword);
    }
    assert DeclarationLine(content, Declarations(content)) ==
      if narrowed != -1 then narrowed else FirstMatchingLine(Lines(content), Literal(ResourceKeyword));
  }

  /** The walk callback: a walk error is handed back to stop the walk;
      directories and non-`.tf` files are skipped; an unreadable file is
      reported and the walk goes on. */
  method Visit(c: DiagnosticCollector, e: WalkEvent) returns (err: Option<string>)
    modifies c
    ensures err == (if e.WalkError? then Some(e.reason) else None)
    ensures c.messages == old(c.messages) + (if e.WalkError? then [] else EntryDiagnostics(e))
  {
    if e.WalkError? {
      return Some(e.reason);
    }
    if !e.isDir && HasTfExtension(e.name) {
      match e.read
      case ReadError(reason) =>
        c.Add(Unreadable(e.path, reason));
      case Content(text) =>
        CheckFile(c, e.path, text);
    }
    return None;
  }

  /** Walk the tree and return every diagnostic, the walk error (if any) last. */
  method ValidateTerraform(events: seq<WalkEvent>) returns (messages: seq<Diagnostic>)
    ensures messages == RunDiagnostics(events)
  {
    var c := new DiagnosticCollector();
    var i := 0;
    var err: Option<string> := None;
    while i < |events| && err.None?
      invariant i <= |events|
      invariant err.None? ==> RunDiagnostics(events) == c.messages + RunDiagnostics(events[i..])
      invariant err.Some? ==> RunDiagnostics(events) == c.messages + [WalkFailed(err.value)]
    {
      assert events[i..] == [events[i]] + events[i + 1..];
      ghost var before := c.messages;
      err := Visit(c, events[i]);
      if events[i].Entry? {
        AppendAssoc(before, EntryDiagnostics(events[i]), RunDiagnostics(events[i + 1..]));
      }
      i := i + 1;
    }
    if err.Some? {
      c.Add(WalkFailed(err.value));
    }
    messages := c.messages;
  }
}
