/**
 * The fields of a miette `Report` that the scope-enum rule sets. Rendering
 * is not part of this model: a report is a plain record.
 */
module Diagnostics {

  /** miette's three diagnostic levels. */
  datatype Severity = Advice | Warning | Error

  /** `LabeledSpan::at(start..end, label)`: a labelled byte range of the source. */
  datatype LabeledSpan = LabeledSpan(start: nat, end: nat, text: string)

  /** A diagnostic with the raw commit message attached as its source code. */
  datatype Report = Report(
    severity: Severity,
    labels: seq<LabeledSpan>,
    help: string,
    code: string,
    url: string,
    message: string,
    source: string)
}
