/**
 * What the scope-enum rule sees of a parsed commit. The parser module
 * (`mod parser;`) is not part of this model: a `Commit` is an input here,
 * reduced to the two fields the rule reads.
 */
module Parser {
  import opened Wrappers

  /** A token lexed out of the raw message, with the range it came from (indices into `raw`). */
  datatype Scoped = Scoped(text: string, start: nat, end: nat)

  /** A parsed commit: the unmodified message and its optional header scope. */
  datatype Commit = Commit(raw: string, scope: Option<Scoped>)

  /** The parser's span invariant: the token's range, sliced from `raw`, is the token. */
  predicate SpanMatches(raw: string, token: Scoped)
  {
    token.start <= token.end <= |raw| && raw[token.start..token.end] == token.text
  }
}
