/**
 * What the validator promises, stated over its specification functions:
 * per-value diagnostics, the pass/fail gate of a file, the single
 * diagnostic of a wrong declaration count and where it points, and the
 * order and selection of a whole walk.
 */
module ValidatorProperties {
  import opened Wrappers
  import opened FormatRules
  import opened Patterns
  import opened LineLocator
  import opened Validator

  // ----- one field's values -----

  /** The extracted values that fail field `f`'s rule, in match order. */
  function FailingValues(f: Field, ms: seq<Match>): seq<string>
  {
    if ms == [] then []
    else
      var value := ms[|ms| - 1].value;
      FailingValues(f, ms[..|ms| - 1]) + (if ValidId(f, value) then [] else [value])
  }

  /** One diagnostic per value, in order, each located by searching for its assignment. */
  function Reported(path: string, content: string, f: Field, values: seq<string>): seq<Diagnostic>
  {
    if values == [] then []
    else Reported(path, content, f, values[..|values| - 1]) + [InvalidIdDiagnostic(path, content, f, values[|values| - 1])]
  }

  lemma {:induction false} FailingValuesMembership(f: Field, ms: seq<Match>, v: string)
    ensures v in FailingValues(f, ms) <==> !ValidId(f, v) && exists i :: 0 <= i < |ms| && ms[i].value == v
  {
    if ms != [] {
      var init := ms[..|ms| - 1];
      FailingValuesMembership(f, init, v);
      assert forall i :: 0 <= i < |init| ==> init[i] == ms[i];
      if !ValidId(f, v) && (exists i :: 0 <= i < |ms| && ms[i].value == v) && ms[|ms| - 1].value != v {
        var i :| 0 <= i < |ms| && ms[i].value == v;
        assert init[i].value == v;
      }
    }
  }

  lemma ReportedSnoc(path: string, content: string, f: Field, values: seq<string>, v: string)
    ensures Reported(path, content, f, values + [v]) == Reported(path, content, f, values) + [InvalidIdDiagnostic(path, content, f, v)]
  {
    assert (values + [v])[..|values|] == values;
  }

  /** Each extracted value failing its rule yields exactly one diagnostic,
      naming the field, the value and the rule; each passing value yields
      none; the diagnostics follow match order. */
  lemma {:induction false} InvalidIdDiagnosticsPerValue(path: string, content: string, f: Field, ms: seq<Match>)
    ensures InvalidIdDiagnostics(path, content, f, ms) == Reported(path, content, f, FailingValues(f, ms))
    decreases |ms|
  {
    if ms != [] {
      var init, value := ms[..|ms| - 1], ms[|ms| - 1].value;
      var bad := FailingValues(f, init);
      InvalidIdDiagnosticsPerValue(path, content, f, init);
      if ValidId(f, value) {
        var before := InvalidIdDiagnostics(path, content, f, init);
        assert FailingValues(f, ms) == bad + [] == bad;
        assert InvalidIdDiagnostics(path, content, f, ms) == before + [] == before;
      } else {
        var d := InvalidIdDiagnostic(path, content, f, value);
        assert FailingValues(f, ms) == bad + [value];
        assert InvalidIdDiagnostics(path, content, f, ms) == InvalidIdDiagnostics(path, content, f, init) + [d];
        ReportedSnoc(path, content, f, bad, value);
      }
    }
  }

  /** A field yields no diagnostic exactly when every extracted value passes its rule. */
  lemma NoInvalidIdDiagnosticsIff(path: string, content: string, f: Field, ms: seq<Match>)
    ensures InvalidIdDiagnostics(path, content, f, ms) == [] <==> forall i :: 0 <= i < |ms| ==> ValidId(f, ms[i].value)
  {
    InvalidIdDiagnosticsPerValue(path, content, f, ms);
    if FailingValues(f, ms) != [] {
      FailingValuesMembership(f, ms, FailingValues(f, ms)[0]);
    }
    forall i | 0 <= i < |ms| && !ValidId(f, ms[i].value)
      ensures FailingValues(f, ms) != []
    {
      FailingValuesMembership(f, ms, ms[i].value);
    }
  }

  // ----- one file -----

  /** With exactly one declaration: a missing posture_id first, then the
      failing posture_id, policy_set_id and policy_id values, each field's
      in match order; a missing posture_id does not stop the other fields. */
  lemma OneDeclaration(path: string, content: string)
    requires |Declarations(content)| == 1
    ensures FileDiagnostics(path, content) ==
      (if |Assignments(content, PostureId)| == 0 then [MissingPostureId(path)] else [])
      + Reported(path, content, PostureId, FailingValues(PostureId, Assignments(content, PostureId)))
      + Reported(path, content, PolicySetId, FailingValues(PolicySetId, Assignments(content, PolicySetId)))
      + Reported(path, content, PolicyId, FailingValues(PolicyId, Assignments(content, PolicyId)))
  {
    InvalidIdDiagnosticsPerValue(path, content, PostureId, Assignments(content, PostureId));
    InvalidIdDiagnosticsPerValue(path, content, PolicySetId, Assignments(content, PolicySetId));
    InvalidIdDiagnosticsPerValue(path, content, PolicyId, Assignments(content, PolicyId));
  }

  /** With exactly one declaration and no posture_id assignment, exactly one
      missing-posture_id diagnostic comes first and the other two fields are
      still checked. */
  lemma MissingPostureIdReported(path: string, content: string)
    requires |Declarations(content)| == 1 && |Assignments(content, PostureId)| == 0
    ensures FileDiagnostics(path, content) ==
      [MissingPostureId(path)]
      + Reported(path, content, PolicySetId, FailingValues(PolicySetId, Assignments(content, PolicySetId)))
      + Reported(path, content, PolicyId, FailingValues(PolicyId, Assignments(content, PolicyId)))
  {
    assert FileDiagnostics(path, content) == IdDiagnostics(path, content);
    var d1 := InvalidIdDiagnostics(path, content, PostureId, Assignments(content, PostureId));
    var d2 := InvalidIdDiagnostics(path, content, PolicySetId, Assignments(content, PolicySetId));
    var d3 := InvalidIdDiagnostics(path, content, PolicyId, Assignments(content, PolicyId));
    assert d1 == [];
    assert IdDiagnostics(path, content) == [MissingPostureId(path)] + d1 + d2 + d3;
    assert [MissingPostureId(path)] + d1 == [MissingPostureId(path)];
    InvalidIdDiagnosticsPerValue(path, content, PolicySetId, Assignments(content, PolicySetId));
    InvalidIdDiagnosticsPerValue(path, content, PolicyId, Assignments(content, PolicyId));
  }

  /** Every value extracted for field `f` passes the field's rule. */
  predicate ValuesValid(content: string, f: Field)
  {
    var ms := Assignments(content, f);
    forall i :: 0 <= i < |ms| ==> ValidId(f, ms[i].value)
  }

  /** A file passes exactly when it declares the posture resource once, assigns
      a posture_id somewhere, and every extracted value passes its rule. */
  lemma FilePassesIff(path: string, content: string)
    ensures FileDiagnostics(path, content) == [] <==>
      && |Declarations(content)| == 1
      && |Assignments(content, PostureId)| > 0
      && ValuesValid(content, PostureId)
      && ValuesValid(content, PolicySetId)
      && ValuesValid(content, PolicyId)
  {
    var decls := Declarations(content);
    if |decls| == 1 {
      assert FileDiagnostics(path, content) == IdDiagnostics(path, content);
      var postureIds := Assignments(content, PostureId);
      var missing: seq<Diagnostic> := if |postureIds| == 0 then [MissingPostureId(path)] else [];
      var d1 := InvalidIdDiagnostics(path, content, PostureId, postureIds);
      var d2 := InvalidIdDiagnostics(path, content, PolicySetId, Assignments(content, PolicySetId));
      var d3 := InvalidIdDiagnostics(path, content, PolicyId, Assignments(content, PolicyId));
      assert IdDiagnostics(path, content) == missing + d1 + d2 + d3;
      assert |missing + d1 + d2 + d3| == |missing| + |d1| + |d2| + |d3|;
      NoInvalidIdDiagnosticsIff(path, content, PostureId, postureIds);
      NoInvalidIdDiagnosticsIff(path, content, PolicySetId, Assignments(content, PolicySetId));
      NoInvalidIdDiagnosticsIff(path, content, PolicyId, Assignments(content, PolicyId));
    } else {
      assert |FileDiagnostics(path, content)| == 1;
    }
  }

  /** A wrong declaration count yields exactly one diagnostic carrying the
      count and no identifier diagnostic; with no declaration it points at
      line 1, otherwise at the first line mentioning the resource keyword. */
  lemma WrongDeclarationCount(path: string, content: string)
    requires |Declarations(content)| != 1
    ensures var n := |Declarations(content)|;
      exists line: int :: FileDiagnostics(path, content) == [DeclarationCount(path, n, line)]
        && (n == 0 ==> line == 1)
        && (n >= 2 ==> line == FirstMatchingLine(Lines(content), Literal(ResourceKeyword)) >= 1)
  {
    var decls := Declarations(content);
    var line := DeclarationLine(content, decls);
    if |decls| >= 2 {
      DeclarationLineIsFirstMention(content);
    }
    assert FileDiagnostics(path, content) == [DeclarationCount(path, |decls|, line)];
  }

  /** An invalid value whose whole assignment sits on one line, line K, is
      reported at line K, or at an earlier line that assigns the same value;
      at exactly K when no earlier line does. The locator searches line by
      line, so an assignment split across lines may be reported with -1. */
  lemma SingleLineValueLocated(path: string, content: string, f: Field, i: nat)
    requires i < |Assignments(content, f)|
    requires NoNewline(content, Assignments(content, f)[i].start, Assignments(content, f)[i].end)
    ensures var m := Assignments(content, f)[i];
      m.start <= |content| &&
      var line, k := InvalidIdDiagnostic(path, content, f, m.value).line, LineOf(content, m.start);
      && 1 <= line <= k
      && (NoMatchBefore(Lines(content), AssignmentOf(f, m.value), k - 1) ==> line == k)
  {
    var m := Assignments(content, f)[i];
    assert MatchAt(content, Assignment(f), m.start) == Some(m);
    AssignmentOnItsLine(content, f, m);
  }

  // ----- a whole walk -----

  /** The entries a walk examines: files whose lower-cased name ends in `.tf`;
      walk errors are kept. */
  function Examined(events: seq<WalkEvent>): seq<WalkEvent>
  {
    if events == [] then []
    else
      var e := events[0];
      (if e.Entry? && (e.isDir || !HasTfExtension(e.name)) then [] else [e]) + Examined(events[1..])
  }

  /** Directories and files without the `.tf` suffix contribute nothing. */
  lemma {:induction false} OnlyTfFilesExamined(events: seq<WalkEvent>)
    ensures RunDiagnostics(Examined(events)) == RunDiagnostics(events)
  {
    if events != [] {
      var e, rest := events[0], events[1..];
      if e.WalkError? {
        ExaminedWalkError(events);
      } else {
        OnlyTfFilesExamined(rest);
        if e.isDir || !HasTfExtension(e.name) {
          ExaminedSkipped(events);
        } else {
          ExaminedKept(events);
        }
      }
    }
  }

  lemma ExaminedWalkError(events: seq<WalkEvent>)
    requires events != [] && events[0].WalkError?
    ensures RunDiagnostics(Examined(events)) == RunDiagnostics(events)
  {
    assert Examined(events) == [events[0]] + Examined(events[1..]);
  }

  lemma ExaminedSkipped(events: seq<WalkEvent>)
    requires events != [] && events[0].Entry? && (events[0].isDir || !HasTfExtension(events[0].name))
    requires RunDiagnostics(Examined(events[1..])) == RunDiagnostics(events[1..])
    ensures RunDiagnostics(Examined(events)) == RunDiagnostics(events)
  {
    assert Examined(events) == Examined(events[1..]);
    assert EntryDiagnostics(events[0]) == [];
  }

  lemma ExaminedKept(events: seq<WalkEvent>)
    requires events != [] && events[0].Entry? && !events[0].isDir && HasTfExtension(events[0].name)
    requires RunDiagnostics(Examined(events[1..])) == RunDiagnostics(events[1..])
    ensures RunDiagnostics(Examined(events)) == RunDiagnostics(events)
  {
    var e, rest := events[0], events[1..];
    assert Examined(events) == [e] + Examined(rest);
    RunCons(e, Examined(rest));
  }

  lemma RunCons(e: WalkEvent, rest: seq<WalkEvent>)
    requires e.Entry?
    ensures RunDiagnostics([e] + rest) == EntryDiagnostics(e) + RunDiagnostics(rest)
  {
    assert ([e] + rest)[1..] == rest;
  }

  /** Entries before any walk error contribute their diagnostics in walk order. */
  lemma {:induction false} RunAppend(a: seq<WalkEvent>, b: seq<WalkEvent>)
    requires forall i :: 0 <= i < |a| ==> a[i].Entry?
    ensures RunDiagnostics(a + b) == RunDiagnostics(a) + RunDiagnostics(b)
  {
    if a == [] {
      assert a + b == b;
    } else {
      var e, rest := a[0], a[1..];
      assert e.Entry?;
      RunAppend(rest, b);
      assert a == [e] + rest;
      AppendAssoc([e], rest, b);
      RunCons(e, rest + b);
      RunCons(e, rest);
      AppendAssoc(EntryDiagnostics(e), RunDiagnostics(rest), RunDiagnostics(b));
    }
  }

  /** A walk error appends exactly one diagnostic after all earlier ones,
      which are kept unchanged, and nothing after it is visited. */
  lemma WalkErrorReportedLast(pre: seq<WalkEvent>, reason: string, post: seq<WalkEvent>)
    requires forall i :: 0 <= i < |pre| ==> pre[i].Entry?
    ensures RunDiagnostics(pre + [WalkError(reason)] + post) == RunDiagnostics(pre) + [WalkFailed(reason)]
  {
    RunAppend(pre, [WalkError(reason)] + post);
    assert pre + [WalkError(reason)] + post == pre + ([WalkError(reason)] + post);
  }

  /** An unreadable `.tf` file adds exactly one diagnostic and the walk goes on. */
  lemma UnreadableFileReported(pre: seq<WalkEvent>, path: string, name: string, reason: string, post: seq<WalkEvent>)
    requires forall i :: 0 <= i < |pre| ==> pre[i].Entry?
    requires HasTfExtension(name)
    ensures RunDiagnostics(pre + [Entry(path, name, false, ReadError(reason))] + post)
         == RunDiagnostics(pre) + [Unreadable(path, reason)] + RunDiagnostics(post)
  {
    var e := Entry(path, name, false, ReadError(reason));
    RunAppend(pre, [e] + post);
    assert pre + [e] + post == pre + ([e] + post);
    assert ([e] + post)[1..] == post;
    AppendAssoc(RunDiagnostics(pre), [Unreadable(path, reason)], RunDiagnostics(post));
  }
}
