# commitlint-rs: the scope-enum rule

A Dafny model of the `scope-enum` lint rule of commitlint-rs (`rule_scope_enum`
in `src/main.rs`). Given a parsed commit and the rule's options, a severity
(`off`, `warning` or `error`), a condition (`never` or `always`) and a list of
scopes, the rule returns either nothing or one diagnostic. The diagnostic
points at the commit's scope, says which scopes are (not) allowed, and
carries the raw message as its source.

Files:

- `wrappers.dfy`: `Option`.
- `parser.dfy`: the parts of a parsed `Commit` the rule reads: the raw message
  and the optional scope token with its byte range. The parser module itself
  is not part of this model. `SpanMatches` states the parser's span
  invariant (the range, sliced from the raw message, is the token) for the
  one lemma that assumes it. The raw message is a sequence of characters, so
  the range is read as character indices (see "## Left out").
- `diagnostics.dfy`: the fields of a miette `Report` that the rule sets, as a
  plain record: severity, labelled spans, help, code, URL, message and source.
- `strings.dfy`: `Join`, Rust's `[String]::join`, with `Offset` (where each part
  starts) and lemmas that together pin down the joined string of a non-empty
  list: each part at its offset, one separator between neighbours, the last
  part ending it. An empty list joins to the empty string, so its help text is
  "scope must be one of " with a trailing space.
- `lint.dfy`: `Severity`, `Condition`, `ScopeEnumOpts` (kept as the source's
  tuple), the severity mapping, the help text and `RuleScopeEnum`, with the
  lemmas about them.

The code has one rule, called once from `main`, so the model has no rule
engine. The code does not check that the scope's range lies inside the raw
message; it copies the range into the label unchanged. The model does the
same, and only `LabelQuotesScope` assumes the range is in bounds.

## Model

| member | source | states |
|---|---|---|
| Lint.RuleScopeEnum | src/main.rs:8-49 | No report when the severity is off or the commit has no scope. Otherwise, with `Always`, a report exactly when the scope is not in the list, and with `Never`, exactly when it is. A report has the mapped severity (never advice), one label over the scope's range reading "not allowed scope", the help text, code "rule/scope-enum", URL "https://example.com", message "Scope not allowed", and the unchanged raw message as source |
| Lint.MapSeverity | src/main.rs:26-30 | The mapping is one to one: warning to warning, error to error, off to advice |
| Lint.HelpText | src/main.rs:35-38 | The help text is exactly "scope must not be one of " for `Never`, or "scope must be one of " for `Always`, followed by the scopes joined by ", " (its length is 25 or 21 plus the joined list's) |
| Lint.ConditionsAreComplementary | src/main.rs:18-23 | For an enabled rule and a commit with a scope, exactly one of `Never` and `Always` reports, whatever the list |
| Lint.SeverityOnlyClassifies | src/main.rs:24-44 | Warning and error report on the same commits, and their reports differ only in severity |
| Lint.EmptyScopeList | src/main.rs:18-22 | With an empty list, `Always` rejects every scope and `Never` rejects none |
| Lint.HelpListsEveryScope | src/main.rs:35-38 | Every configured scope appears in the help text, at its offset within the joined list |
| Lint.HelpTextDeterminesCondition | src/main.rs:35-38 | Equal help texts come from the same condition and the same joined list |
| Lint.LabelQuotesScope | src/main.rs:31-43 | If the scope's range slices to the scope text in the raw message, the report's single label, read against the report's source, quotes the scope |
| Lint.ExampleCommit | src/main.rs:93-94 | For the message in `main`, with scope "nice" at bytes 5 to 9: the list ["nice", "fix"] accepts it, and the list ["fix", "chore"] rejects it with an error whose label spans bytes 5 to 9 and whose help is "scope must be one of fix, chore" |
| Strings.JoinPartAt | src/main.rs:38 | Scope `i` of `scopes.join(", ")` sits at its offset: the earlier parts, each followed by one separator |
| Strings.JoinSeparatorAt | src/main.rs:38 | Exactly one separator lies between each pair of neighbouring parts |
| Strings.JoinLength | src/main.rs:38 | The last part ends the joined string |

## Left out

- `main` (src/main.rs:92-117): it loads the configuration from a file and from `COMMITLINT`-prefixed environment variables, deserializes it, and prints. That is I/O and library code. What is left is that it returns the rule's report as its error. With the rule modelled, that adds nothing.
- The commit parser (`parse_commit`, the full `Commit`, span computation) is not part of this model. A commit is an input reduced to its raw message and scope token.
- `RulesDetails` and `RulesConfig` (src/main.rs:79-90) and the serde `rename` attributes: they are only used to deserialize the configuration.
- miette's rendering and `LabeledSpan`'s internal offset and length representation: a label is kept as the range `start..end` that the rule passes in, and a report as the record of the fields the rule sets.
- The scope's text: the rule compares `scope.to_string()` (src/main.rs:18) against the list. The model takes that string to be the scope token's text. This depends on the parser's `Display` implementation for `Scoped`, which is not part of this model.
- Lint.LabelQuotesScope: the raw message is modelled as characters, so `SpanMatches` reads the scope's range as character indices. miette and the parser use byte offsets. The two agree only when the header is ASCII up to the end of the scope. For a header with a multi-byte character at or before the scope, such as a gitmoji or a non-ASCII scope, the parser's span fails `SpanMatches` and the lemma says nothing.
