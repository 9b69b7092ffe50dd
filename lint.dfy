/** The scope-enum rule: is the commit's scope (not) one of the configured scopes? */
module Lint {
  import opened Wrappers
  import opened Parser
  import opened Strings
  import D = Diagnostics

  /** Severity of the rule as configured; `Off` turns it off. */
  datatype Severity = Off | Warning | Error

  /** Whether the scope must always or never be found among the configured scopes. */
  datatype Condition = Never | Always

  /** Options of the scope-enum rule: severity, condition and the configured scopes. */
  type ScopeEnumOpts = (Severity, Condition, seq<string>)

  const Code := "rule/scope-enum"
  const Url := "https://example.com"
  const Message := "Scope not allowed"
  const LabelText := "not allowed scope"

  /** The configured severity as a diagnostic level: one to one, `Off` to advice. */
  function MapSeverity(severity: Severity): (r: D.Severity)
    ensures r == D.Warning <==> severity == Warning
    ensures r == D.Error <==> severity == Error
    ensures r == D.Advice <==> severity == Off
  {
    match severity
    case Warning => D.Warning
    case Error => D.Error
    case Off => D.Advice
  }

  /** The word the condition adds to the help text. */
  function Negation(condition: Condition): (r: string)
  {
    match condition
    case Never => " not"
    case Always => ""
  }

  /**
   * The help text of a violation: it says "must not" exactly for `Never`,
   * and it ends with the configured scopes joined by ", ".
   */
  function HelpText(condition: Condition, scopes: seq<string>): (r: string)
    ensures |r| == (if condition == Never then 25 else 21) + |Join(scopes, ", ")|
    ensures r[..|r| - |Join(scopes, ", ")|]
      == if condition == Never then "scope must not be one of " else "scope must be one of "
    ensures condition == Never <==> r[..14] == "scope must not"
    ensures r[|r| - |Join(scopes, ", ")|..] == Join(scopes, ", ")
  {
    var r := "scope must" + Negation(condition) + " be one of " + Join(scopes, ", ");
    assert r[11] == if condition == Never then 'n' else 'b';
    r
  }

  /**
   * `rule_scope_enum`: no report when the rule is off or the commit has no
   * scope; otherwise a report exactly when the scope's membership in the
   * configured list contradicts the condition.
   */
  function RuleScopeEnum(commit: Commit, opts: ScopeEnumOpts): (r: Option<D.Report>)
    ensures opts.0 == Off ==> r == None
    ensures commit.scope == None ==> r == None
    ensures opts.0 != Off && commit.scope.Some? && opts.1 == Always ==>
      (r.Some? <==> commit.scope.value.text !in opts.2)
    ensures opts.0 != Off && commit.scope.Some? && opts.1 == Never ==>
      (r.Some? <==> commit.scope.value.text in opts.2)
    ensures r.Some? ==> r.value.severity == MapSeverity(opts.0) && r.value.severity != D.Advice
    ensures r.Some? ==>
      r.value.labels == [D.LabeledSpan(commit.scope.value.start, commit.scope.value.end, LabelText)]
    ensures r.Some? ==> r.value.help == HelpText(opts.1, opts.2)
    ensures r.Some? ==>
      && r.value.code == Code
      && r.value.url == Url
      && r.value.message == Message
      && r.value.source == commit.raw
  {
    var (severity, condition, scopes) := opts;
    if severity == Off then None
    else match commit.scope
      case None => None
      case Some(scope) =>
        var isInScopes := scope.text in scopes;
        var isValid := match condition
          case Never => !isInScopes
          case Always => isInScopes;
        if isValid then None
        else Some(D.Report(
          severity := MapSeverity(severity),
          labels := [D.LabeledSpan(scope.start, scope.end, LabelText)],
          help := HelpText(condition, scopes),
          code := Code,
          url := Url,
          message := Message,
          source := commit.raw))
  }

  /** For an enabled rule and a commit with a scope, exactly one of the two conditions reports. */
  lemma ConditionsAreComplementary(commit: Commit, severity: Severity, scopes: seq<string>)
    requires severity != Off && commit.scope.Some?
    ensures RuleScopeEnum(commit, (severity, Never, scopes)).Some?
        != RuleScopeEnum(commit, (severity, Always, scopes)).Some?
  {
  }

  /**
   * Warning and error decide alike: the severity only classifies the report,
   * every other field is the same.
   */
  lemma SeverityOnlyClassifies(commit: Commit, condition: Condition, scopes: seq<string>)
    ensures RuleScopeEnum(commit, (Warning, condition, scopes)).Some?
        == RuleScopeEnum(commit, (Error, condition, scopes)).Some?
    ensures RuleScopeEnum(commit, (Warning, condition, scopes)).Some? ==>
      RuleScopeEnum(commit, (Warning, condition, scopes)).value.(severity := D.Error)
        == RuleScopeEnum(commit, (Error, condition, scopes)).value
  {
  }

  /** With an empty list, `Always` rejects every scope and `Never` rejects none. */
  lemma EmptyScopeList(commit: Commit, severity: Severity)
    requires severity != Off && commit.scope.Some?
    ensures RuleScopeEnum(commit, (severity, Always, [])).Some?
    ensures RuleScopeEnum(commit, (severity, Never, [])) == None
  {
  }

  /** The help text of a report lists every configured scope, in order, separated by ", ". */
  lemma HelpListsEveryScope(condition: Condition, scopes: seq<string>, i: nat)
    requires i < |scopes|
    ensures var help, at := HelpText(condition, scopes), |HelpText(condition, scopes)| - |Join(scopes, ", ")| + Offset(scopes, ", ", i);
      at + |scopes[i]| <= |help| && help[at..at + |scopes[i]|] == scopes[i]
  {
    var help, list := HelpText(condition, scopes), Join(scopes, ", ");
    var prefix := if condition == Never then "scope must not be one of " else "scope must be one of ";
    assert help == prefix + list by {
      assert help[..|prefix|] == prefix && help[|prefix|..] == list;
    }
    JoinPartAt(scopes, ", ", i);
    SliceAfterPrefix(prefix, list, Offset(scopes, ", ", i), Offset(scopes, ", ", i) + |scopes[i]|);
  }

  /** Two help texts are equal only for the same condition and the same joined list. */
  lemma HelpTextDeterminesCondition(c1: Condition, s1: seq<string>, c2: Condition, s2: seq<string>)
    requires HelpText(c1, s1) == HelpText(c2, s2)
    ensures c1 == c2 && Join(s1, ", ") == Join(s2, ", ")
  {
  }

  /** When the parser's span invariant holds, the report's one label quotes the scope in its source. */
  lemma LabelQuotesScope(commit: Commit, opts: ScopeEnumOpts)
    requires commit.scope.Some? && SpanMatches(commit.raw, commit.scope.value)
    requires RuleScopeEnum(commit, opts).Some?
    ensures var report := RuleScopeEnum(commit, opts).value;
      |report.labels| == 1
      && report.labels[0].start <= report.labels[0].end <= |report.source|
      && report.source[report.labels[0].start..report.labels[0].end] == commit.scope.value.text
  {
  }

  /** The commit message that `main` lints. */
  const MainMessage := "feat(nice): add cool feature\n\nsome body\n\nsecond body line\n\nsome footer"

  /** The commit message of `main`, with scope "nice" at bytes 5 to 9, is rejected by `["fix", "chore"]` and accepted by `["nice", "fix"]`. */
  lemma ExampleCommit()
    ensures var commit := Commit(MainMessage, Some(Scoped("nice", 5, 9)));
      && RuleScopeEnum(commit, (Error, Always, ["nice", "fix"])) == None
      && RuleScopeEnum(commit, (Error, Always, ["fix", "chore"])).Some?
      && RuleScopeEnum(commit, (Error, Always, ["fix", "chore"])).value.severity == D.Error
      && RuleScopeEnum(commit, (Error, Always, ["fix", "chore"])).value.labels
        == [D.LabeledSpan(5, 9, LabelText)]
      && RuleScopeEnum(commit, (Error, Always, ["fix", "chore"])).value.help == "scope must be one of fix, chore"
  {
    assert "nice" in ["nice", "fix"];
    assert "nice" != "fix" && "nice" != "chore";
    assert Join(["chore"], ", ") == "chore";
    assert Join(["fix", "chore"], ", ") == "fix, chore";
    assert HelpText(Always, ["fix", "chore"]) == "scope must be one of fix, chore";
  }
}
