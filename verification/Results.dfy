/** Field results as they are stored with an extraction. */
module Results {
  import opened Basics
  import opened Formulas

  datatype Status = Pending | Valid | Invalid | Reviewed

  datatype FieldIssue =
    | RequiredMissing
    | NullNotAllowed
    | OutsideAllowedValues
    | SchemaViolation(message: string)
    | PatternMismatch
    | TooLong
    | CitationRequired

  /** The sentences that processing appends to a field's notes; `Provided` is what came with the result. */
  datatype ExtractionNote =
    | Provided(text: string)
    | Canonicalised(from: string, to: string)
    | SelectedFrom(candidates: nat)
    | LowConfidence
    | MissingFromResponse
    | RedactedEvidence

  datatype ExtractedResult = ExtractedResult(
    name: string,
    extracted: Value,
    normalized: Value,
    confidence: real,
    sourceText: string,
    charStart: Option<int>,
    charEnd: Option<int>,
    status: Status,
    errors: seq<FieldIssue>,
    notes: seq<ExtractionNote>,
    requiresReview: bool)

  datatype CalculationIssue =
    | DivisionByZero
    | MissingInput
    | FormulaError(error: Error)
    | NullValue
    | BelowMinimum
    | AboveMaximum

  datatype CalculationNote = DivisionReturnedNull | MissingInputReturnedNull

  datatype CalculatedResult = CalculatedResult(
    name: string,
    value: Value,
    errors: seq<CalculationIssue>,
    notes: seq<CalculationNote>,
    status: Status,
    requiresReview: bool)
}
