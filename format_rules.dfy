/**
 * The three fixed identifier format rules of the posture validator.
 *
 * Each rule has the anchored shape `^[first][rest]{0,62}$`; a character
 * class is kept as the list of its bracket items, so `[a-z0-9-_]` is the
 * four items `a-z`, `0-9`, `-` and `_` (in Perl-flavoured syntax a `-`
 * after a range is a literal).
 */
module FormatRules {

  /** The three tracked identifier fields. */
  datatype Field = PostureId | PolicySetId | PolicyId

  /** The attribute name the field is assigned under. */
  function FieldName(f: Field): string
  {
    match f
    case PostureId => "posture_id"
    case PolicySetId => "policy_set_id"
    case PolicyId => "policy_id"
  }

  /** One bracket item `lo-hi`; a single character `c` is the item `c-c`. */
  datatype ClassItem = ClassItem(lo: char, hi: char)

  /** A bracketed character class, as the list of its items. */
  type CharClass = seq<ClassItem>

  /** The anchored rule `^[first][rest]{0,maxRest}$`. */
  datatype Rule = Rule(first: CharClass, rest: CharClass, maxRest: nat)

  predicate InClass(c: char, cls: CharClass)
  {
    exists i :: 0 <= i < |cls| && cls[i].lo <= c <= cls[i].hi
  }

  /** `[a-z]` */
  const LowerStart: CharClass := [ClassItem('a', 'z')]
  /** `[a-z0-9-_]` */
  const LowerRest: CharClass := [ClassItem('a', 'z'), ClassItem('0', '9'), ClassItem('-', '-'), ClassItem('_', '_')]
  /** `[a-zA-Z]` */
  const MixedStart: CharClass := [ClassItem('a', 'z'), ClassItem('A', 'Z')]
  /** `[a-zA-Z0-9-_]` */
  const MixedRest: CharClass := [ClassItem('a', 'z'), ClassItem('A', 'Z'), ClassItem('0', '9'), ClassItem('-', '-'), ClassItem('_', '_')]

  /** `^[a-z][a-z0-9-_]{0,62}$` */
  const PostureIdRule := Rule(LowerStart, LowerRest, 62)
  /** `^[a-z][a-z0-9-_]{0,62}$` */
  const PolicySetIdRule := Rule(LowerStart, LowerRest, 62)
  /** `^[a-zA-Z][a-zA-Z0-9-_]{0,62}$` */
  const PolicyIdRule := Rule(MixedStart, MixedRest, 62)

  function RuleFor(f: Field): Rule
  {
    match f
    case PostureId => PostureIdRule
    case PolicySetId => PolicySetIdRule
    case PolicyId => PolicyIdRule
  }

  /** `[cls]{0,n}$`: all of `s` is consumed by at most `n` characters of `cls`. */
  predicate RepeatMatch(cls: CharClass, n: nat, s: string)
    decreases |s|
  {
    s == [] || (n > 0 && InClass(s[0], cls) && RepeatMatch(cls, n - 1, s[1..]))
  }

  /** The whole of `s` matches the anchored rule. */
  predicate FullMatch(rule: Rule, s: string)
  {
    |s| >= 1 && InClass(s[0], rule.first) && RepeatMatch(rule.rest, rule.maxRest, s[1..])
  }

  /** The value passes the format rule of its field. */
  predicate ValidId(f: Field, value: string)
  {
    FullMatch(RuleFor(f), value)
  }

  // ----- reference characterisations -----

  predicate IsLowerAscii(c: char) { 'a' <= c <= 'z' }
  predicate IsUpperAscii(c: char) { 'A' <= c <= 'Z' }
  predicate IsDigitAscii(c: char) { '0' <= c <= '9' }

  /** Characters allowed after the first one of a posture_id or policy_set_id. */
  predicate IsLowerIdChar(c: char)
  {
    IsLowerAscii(c) || IsDigitAscii(c) || c == '-' || c == '_'
  }

  /** Characters allowed after the first one of a policy_id. */
  predicate IsMixedIdChar(c: char)
  {
    IsLowerIdChar(c) || IsUpperAscii(c)
  }

  lemma ClassMembership(c: char)
    ensures InClass(c, LowerStart) <==> IsLowerAscii(c)
    ensures InClass(c, LowerRest) <==> IsLowerIdChar(c)
    ensures InClass(c, MixedStart) <==> IsLowerAscii(c) || IsUpperAscii(c)
    ensures InClass(c, MixedRest) <==> IsMixedIdChar(c)
  {
    if IsLowerAscii(c) {
      assert LowerStart[0].lo <= c <= LowerStart[0].hi;
      assert LowerRest[0].lo <= c <= LowerRest[0].hi;
      assert MixedStart[0].lo <= c <= MixedStart[0].hi;
      assert MixedRest[0].lo <= c <= MixedRest[0].hi;
    }
    if IsUpperAscii(c) {
      assert MixedStart[1].lo <= c <= MixedStart[1].hi;
      assert MixedRest[1].lo <= c <= MixedRest[1].hi;
    }
    if IsDigitAscii(c) {
      assert LowerRest[1].lo <= c <= LowerRest[1].hi;
      assert MixedRest[2].lo <= c <= MixedRest[2].hi;
    }
    if c == '-' {
      assert LowerRest[2].lo <= c <= LowerRest[2].hi;
      assert MixedRest[3].lo <= c <= MixedRest[3].hi;
    }
    if c == '_' {
      assert LowerRest[3].lo <= c <= LowerRest[3].hi;
      assert MixedRest[4].lo <= c <= MixedRest[4].hi;
    }
  }

  /** `{0,n}` of a class: at most `n` characters, each in the class. */
  lemma {:induction false} RepeatMatchIff(cls: CharClass, n: nat, s: string)
    ensures RepeatMatch(cls, n, s) <==> |s| <= n && forall i :: 0 <= i < |s| ==> InClass(s[i], cls)
    decreases |s|
  {
    if s != [] {
      if n > 0 {
        RepeatMatchIff(cls, n - 1, s[1..]);
        assert forall i :: 1 <= i < |s| ==> s[i] == s[1..][i - 1];
      }
    }
  }

  /** A posture_id passes iff it has 1 to 63 characters, starts with `a-z`
      and continues with `a-z`, `0-9`, `-` or `_`. */
  lemma PostureIdRuleIff(s: string)
    ensures ValidId(PostureId, s) <==>
      1 <= |s| <= 63 && IsLowerAscii(s[0]) && forall i :: 1 <= i < |s| ==> IsLowerIdChar(s[i])
  {
    LowerRuleIff(s);
  }

  /** policy_set_id follows exactly the posture_id rule. */
  lemma PolicySetIdRuleIff(s: string)
    ensures ValidId(PolicySetId, s) <==>
      1 <= |s| <= 63 && IsLowerAscii(s[0]) && forall i :: 1 <= i < |s| ==> IsLowerIdChar(s[i])
  {
    LowerRuleIff(s);
  }

  lemma LowerRuleIff(s: string)
    ensures FullMatch(Rule(LowerStart, LowerRest, 62), s) <==>
      1 <= |s| <= 63 && IsLowerAscii(s[0]) && forall i :: 1 <= i < |s| ==> IsLowerIdChar(s[i])
  {
    if |s| >= 1 {
      ClassMembership(s[0]);
      RepeatMatchIff(LowerRest, 62, s[1..]);
      forall i | 0 <= i < |s|
        ensures InClass(s[i], LowerRest) <==> IsLowerIdChar(s[i])
      {
        ClassMembership(s[i]);
      }
      assert forall j :: 0 <= j < |s| - 1 ==> s[1..][j] == s[j + 1];
    }
  }

  /** A policy_id passes iff it has 1 to 63 characters, starts with an ASCII
      letter of either case and continues with letters, digits, `-` or `_`. */
  lemma PolicyIdRuleIff(s: string)
    ensures ValidId(PolicyId, s) <==>
      1 <= |s| <= 63 && (IsLowerAscii(s[0]) || IsUpperAscii(s[0])) &&
      forall i :: 1 <= i < |s| ==> IsMixedIdChar(s[i])
  {
    if |s| >= 1 {
      ClassMembership(s[0]);
      RepeatMatchIff(MixedRest, 62, s[1..]);
      forall i | 0 <= i < |s|
        ensures InClass(s[i], MixedRest) <==> IsMixedIdChar(s[i])
      {
        ClassMembership(s[i]);
      }
      assert forall j :: 0 <= j < |s| - 1 ==> s[1..][j] == s[j + 1];
    }
  }

  /** Every value that passes the posture_id rule also passes the policy_id rule. */
  lemma PostureIdIsPolicyId(s: string)
    requires ValidId(PostureId, s)
    ensures ValidId(PolicyId, s)
  {
    PostureIdRuleIff(s);
    PolicyIdRuleIff(s);
  }

  /** The converse fails: an upper-case first letter passes only the policy_id rule. */
  lemma UpperStartIsOnlyPolicyId()
    ensures ValidId(PolicyId, "My-Posture") && !ValidId(PostureId, "My-Posture")
  {
    PostureIdRuleIff("My-Posture");
    PolicyIdRuleIff("My-Posture");
    var s := "My-Posture";
    assert forall i :: 1 <= i < |s| ==> IsMixedIdChar(s[i]);
  }
}
