# extractflow: verified model

A Dafny 4.11 model of the parts of extractflow where a mistake would be silent: the formula engine and its
template contract, the job queue shared by workers and API, chunking and page references, redaction,
reconciliation, review and export, feedback suggestions, and the LangExtract draft codec.
`dafny verify dfyconfig.toml` checks the whole project.

How the parts are modelled:

- **Formula engine.** `Formulas` holds JSON-like values, the expression tree and the evaluator. Python's own
  operators on other than numbers and texts, and the helper library, are parameters (`Runtime`); every theorem
  holds for all of them. `CycleDetection` and `TopologicalSort` are classes with the mutable sets of the
  source; the sort visits dependencies in arbitrary order, as iteration over a Python set does.
  `EvaluationOrder` is the evaluation loop for an arbitrary step; `Calculations` supplies the real step. An
  exception that the loop does not catch is an outcome (`Uncaught`), not a precondition.
- **Job queue.** `JobRows` has the database rows as objects and each in-place update proved against a function;
  `JobQueue` is a transition system built from those functions, with any number of workers and every step
  between two commits kept apart. Each API handler is one transaction: the code reads a status and then writes
  without a guard, and the theorems rely on that pair not being split. Workers may raise anywhere in the
  guarded block (the status write after completion included) and may crash anywhere.
- **Text components.** `Text` has stripping for both platforms and the shared fact that a span which starts
  and ends in non-space survives the stripping of any enclosing window; chunking, feedback and the codec use it.
  `PageTexts` collects a document's pages, `PageMarkers` prints and reads their markers.
- **Meaning.** A function that the theorems use as a specification is itself pinned by laws over plain inputs:
  `FormulaMeaning` for the evaluator, `JobHistory` for the steps of the queue, `RedactionMeaning`,
  `ReconciliationMeaning`, `ReviewMeaning`, `FeedbackMeaning`, `DraftMeaning` and `SuggestionMatching` for the rest.

Where documentation and code part, the model follows the code. Four such results:

- Cancelling is final exactly when no worker is past its last cancel check (`CancelIsFinalIff`); otherwise the
  worker's finish or failure overwrites it.
- A job whose result is stored can still end as failed, when the status write after the commit raises
  (`CompletedCanFail`).
- An allowed-values check passes exactly for texts that are allowed or have a replacement
  (`AllowedExactlyWhen`). A list never passes, because the whole list is compared with the allowed texts after
  its items were canonicalised (`OnlyTextsAllowed`).
- Detection of circular dependencies looks at `depends_on`, the sort at formula references. After detection has
  passed, the sort ends exactly when the formula references have no cycle (`Sort`, `OrderExistsIff`); two fields
  that declare nothing can have one (`UndeclaredReferencesEscapeDetection`). The template contract makes the two
  graphs agree (`ContractMeansDeclared`); without it, undeclared references without a cycle sort correctly too.

## Model

| member | source | states |
|---|---|---|
| Formulas.UnwrapWrap | shared/extraction_core/formulas.py:34-47 | a stored value that passes through a formula untouched comes out unchanged |
| Formulas.EvaluateFrame | shared/extraction_core/formulas.py:178-297 | evaluation depends only on the names in the tree, for every syntax node and every runtime |
| Formulas.RunFrame | shared/extraction_core/formulas.py:376-381 | two contexts that agree on a formula's names give it the same outcome, errors included |
| Formulas.BoundNeverUnknown | shared/extraction_core/formulas.py:209-214 | if every name is bound or a helper, evaluation never reports an unknown identifier |
| Formulas.CoalesceIsFirst | shared/extraction_core/formulas.py:93-97 | coalesce gives the first non-null argument, and null exactly when all are null |
| Formulas.ModuloTakesDivisorSign | shared/extraction_core/formulas.py:295-296 | on integers the remainder has the divisor's sign and the rest is a multiple of the divisor |
| Formulas.SubtractionUndoesAddition | shared/extraction_core/formulas.py:285-288 | integer addition followed by subtraction gives the integer back |
| Formulas.ZeroDivisionExactlyWhen | shared/extraction_core/formulas.py:282-297 | exactly when an operator reports a zero division: `/` by zero whatever the left operand is, `%` by zero between numbers, or a foreign operator that does |
| Formulas.ComparisonMeansAllLinks | shared/extraction_core/formulas.py:240-257 | a comparison, chained or not, holds exactly when every adjacent pair of its operands compares true |
| Formulas.IffAgreesWithConditional | shared/extraction_core/formulas.py:152-153 | the helper behind `if(...)` agrees with the conditional expression when all arguments have values |
| FormulaMeaning.ArithmeticMeans | shared/extraction_core/formulas.py:282-297 | over subexpressions that are whole numbers m and n, `+`, `-` and `*` give m + n, m - n and m * n, and `/` of a multiple gives the quotient as a float |
| FormulaMeaning.WholeQuotient | shared/extraction_core/formulas.py:291-294 | q * n over n, booleans and floats included, is q, always as a float |
| FormulaMeaning.FractionArithmetic | shared/extraction_core/formulas.py:282-294 | sums and differences of fractions, and their products and quotients with whole numbers, are exact |
| FormulaMeaning.WholeRemainder | shared/extraction_core/formulas.py:295-296 | the remainder of whole numbers: it has the divisor's sign, is smaller than it, and what is left is a multiple of it |
| FormulaMeaning.BinaryMeans | shared/extraction_core/formulas.py:282-297 | an operation evaluates left before right, and is that of the two values |
| FormulaMeaning.OtherOperands | shared/extraction_core/formulas.py:282-297 | texts are joined by `+`, a missing operand is a type error, and what is neither number nor joined text is left to Python |
| FormulaMeaning.OtherOperators | shared/extraction_core/formulas.py:240-297 | unknown arithmetic operators are refused, and unknown comparisons hold |
| FormulaMeaning.SignMeans | shared/extraction_core/formulas.py:274-280 | the sign of a whole number or boolean; what is no number is a type error |
| FormulaMeaning.NumberComparison | shared/extraction_core/formulas.py:240-257 | the six comparisons of numbers of any type are those of their values |
| FormulaMeaning.OtherComparison | shared/extraction_core/formulas.py:240-257 | texts and missing values equal themselves only and never a number; ordering against a missing value is a type error |
| FormulaMeaning.ChainStopsAtFalse | shared/extraction_core/formulas.py:240-257 | a chain is false at its first false link, and what stands behind it is not evaluated |
| FormulaMeaning.TruthyUnlessFalsy | shared/extraction_core/formulas.py:232-260 | a value is false exactly when it is one of Python's falsy ones; an attribute view is always true |
| FormulaMeaning.BooleanMeans | shared/extraction_core/formulas.py:232-238 | `and` holds when all operands are true and `or` when one is, with all operands evaluated first |
| FormulaMeaning.ConditionalMeans | shared/extraction_core/formulas.py:259-260 | the test decides, and the other branch is not evaluated |
| FormulaMeaning.ElementsMean | shared/extraction_core/formulas.py:226-230 | elements are evaluated in order and keep their places |
| FormulaMeaning.FirstErrorWins | shared/extraction_core/formulas.py:226-230 | of several elements that raise the first decides the error |
| FormulaMeaning.WrapHidesDictionaries | shared/extraction_core/formulas.py:34-39 | a wrapped value shows no dictionary outside tuples: records are views at every depth |
| FormulaMeaning.NameMeans | shared/extraction_core/formulas.py:209-214 | a name as a formula gives the stored value back, a helper when no field has the name, and an unknown identifier otherwise |
| FormulaMeaning.RunMeans | shared/extraction_core/formulas.py:376-381 | a formula that does not compile is reported, an error of the evaluation is the outcome, and a constant is its own value |
| FormulaMeaning.AttributeMeans | shared/extraction_core/formulas.py:216-224 | an attribute of a stored record is its entry of that name, or nothing |
| FormulaMeaning.AttributeOfValue | shared/extraction_core/formulas.py:216-224 | private names are refused before the target is evaluated, and attributes of scalars after it |
| FormulaMeaning.CallMeans | shared/extraction_core/formulas.py:262-272 | a call hands its arguments' values, in order and under their keywords, to the helper of that name |
| FormulaMeaning.CallFails | shared/extraction_core/formulas.py:262-272 | only helpers can be called; the first argument that raises decides |
| FormulaMeaning.NamesAreMentioned | shared/extraction_core/formulas.py:316-318 | the names of a formula are those of its nodes and of the nodes below them, whatever the syntax |
| FormulaMeaning.ReferencesMean | shared/extraction_core/formulas.py:316-374 | references are the available names mentioned; a formula is known when it mentions nothing else but helpers |
| Graphs.EdgeShrinksReach | shared/extraction_core/formulas.py:349-361 | in an acyclic graph each recursive visit strictly shrinks what is reachable: the measure of the unguarded recursion |
| Graphs.ClosedOrderMeansAcyclic | shared/extraction_core/formulas.py:326-336 | a list of all nodes, each after its successors, rules out cycles |
| CycleDetection.Detector.Visit | shared/extraction_core/formulas.py:326-336 | ends; raises only on a real cycle; otherwise leaves the active set as it was and the node visited |
| CycleDetection.DetectFormulaCycles | shared/extraction_core/formulas.py:321-339 | raises exactly when the declared graph restricted to calculated names has a cycle, self-loops included |
| TopologicalSort.Sorter.Visit | shared/extraction_core/formulas.py:349-361 | with any stack: keeps the order consistent, adds only names reachable from the visited one, and runs out of stack only on a cycle or when the stack has fewer levels than names to reach |
| TopologicalSort.VisitAll | shared/extraction_core/formulas.py:363-366 | every definition visited, each name once with its definition and after the calculated fields it mentions, for any set iteration order; or a stack that is too small or a cycle |
| TopologicalSort.Sort | shared/extraction_core/formulas.py:342-366 | for all definitions: circular dependency exactly when the declared graph has a cycle; otherwise an order exactly when the formula references have none, and on a cycle among them every stack is exhausted |
| TopologicalSort.OrderExistsIff | shared/extraction_core/formulas.py:342-366 | whatever is declared, a dependency-respecting order exists exactly when the formula references have no cycle |
| TopologicalSort.UndeclaredReferencesEscapeDetection | shared/extraction_core/formulas.py:342-366 | two fields that declare nothing and mention each other pass cycle detection and have no order |
| TopologicalSort.TopologicalOrderIsPermutation | shared/extraction_core/formulas.py:342-366 | with unique names the order is a permutation of the input |
| Templates.ItemsKeepLast | shared/extraction_core/formulas.py:342-344 | of definitions with the same name the last one counts |
| Templates.SortDependenciesMean | shared/extraction_core/formulas.py:353-356 | the sort follows the calculated names a formula mentions, and the declared ones when it does not compile |
| Templates.CycleMeans | shared/extraction_core/formulas.py:321-339 | a cycle is a chain of definitions, each declared by the one before it, that comes back to its start |
| Contract.CheckDefinition | shared/extraction_core/models.py:207-233 | one field passes exactly when its formula compiles, mentions only allowed names and no blocked field, and declares each once; otherwise the first check that fails decides the error |
| Contract.FieldContractMeans | shared/extraction_core/models.py:207-233 | the contract of one field in plain terms: every name it mentions is a helper or a usable field and no blocked one, and it declares exactly the usable ones, each once |
| Contract.ValidateTemplate | shared/extraction_core/models.py:191-240 | accepts exactly the templates with unique names, well-declared formulas and an acyclic graph; otherwise names the first refused field with its reason, or the cycle when every field is sound |
| Contract.ContractMeans | shared/extraction_core/models.py:191-240 | the contract of a template in plain terms, over the names of its fields |
| Contract.ContractMeansDeclared | shared/extraction_core/models.py:228-238 | under the contract formula references and declared lists have the same cycles |
| EvaluationOrder.RunLoop | shared/extraction_core/calculations.py:45-104 | the loop computes the run of its order, each result bound before the next definition |
| EvaluationOrder.RunYieldsSolution | shared/extraction_core/calculations.py:45-104 | a finished run has solved the template's equations: each field holds its formula's value in the final context |
| EvaluationOrder.SolutionDrivesRun | shared/extraction_core/calculations.py:45-104 | every dependency-respecting order computes the values of any solution |
| EvaluationOrder.OrderIndependence | shared/extraction_core/formulas.py:349-366 | any two dependency-respecting orders both raise, or give every field the same result |
| EvaluationOrder.BoundThroughout | shared/extraction_core/calculations.py:45-104 | along such an order each definition finds its names bound, at every step of the run |
| Calculations.RoundCentsNearest | shared/extraction_core/calculations.py:109-114 | currency amounts are within half a cent and symmetric about zero |
| Calculations.RoundCentsTies | shared/extraction_core/calculations.py:109-114 | positive ties go up |
| Calculations.RoundCentsWhole | shared/extraction_core/calculations.py:109-114 | an amount of whole cents is left as it is |
| Calculations.NormalizeMeans | shared/extraction_core/calculations.py:109-114 | only numbers of currency fields become an amount with a currency, US dollars unless another is named |
| Calculations.ContextBindsLast | shared/extraction_core/calculations.py:41 | of several results for a field the last one is bound, under its normalised value |
| Calculations.EvaluateDefinition | shared/extraction_core/calculations.py:45-102 | the result keeps its name; status is invalid exactly when there are errors; review is asked for exactly by errors or the definition |
| Calculations.ResultExplained | shared/extraction_core/calculations.py:14-102 | the value as the evaluator gives it (`FormulaMeaning` says what that is), and for each error and each note exactly when it arises |
| Calculations.ProductField | shared/extraction_core/calculations.py:36-106 | a field `a * b` over whole numbers m and n holds m * n, valid and without notes, unless the definition sets a currency or bounds |
| Calculations.StopsExactlyWhen | shared/extraction_core/calculations.py:14-102 | exactly when one definition ends the whole evaluation with an exception |
| Calculations.EvaluateDefinitionFrame | shared/extraction_core/calculations.py:45-102 | a result, with its errors and notes, depends only on the names in the formula |
| Calculations.EvaluateCalculatedFields | shared/extraction_core/calculations.py:36-106 | with no cycle the run of some dependency-respecting order; with a declared cycle the circular dependency; with a cycle among formula references alone an uncaught exception |
| Calculations.CalculatedValuesDetermined | README.md:458 | calculated values, errors, notes and flags do not depend on the order the sort happens to produce |
| Calculations.ContractBindsEveryName | shared/extraction_core/calculations.py:40-51 | for a validated template with one result per definition no step meets an unknown identifier or field reference |
| JobRows.JobRow.Claim | worker/app/main.py:264-277 | the guarded claim succeeds exactly on a queued row and changes nothing otherwise |
| JobRows.JobRow.UpdateProgress | worker/app/services/job_progress.py:16-23 | writes stage and percentage and leaves every other field, the status above all |
| JobRows.RetryFailedJob | backend/app/services/job_service.py:26-34 | the whole new state of job and document after a retry |
| JobRows.CancelJob | backend/app/services/job_service.py:37-46 | the whole new state of job and document; only waiting or processing documents are released |
| JobRows.CompleteJob | worker/app/main.py:165-168 | the whole new state of job and document; an old error message stays |
| JobRows.FailJob | worker/app/main.py:197-201 | the whole new state of job and document after a failure |
| JobRows.RetryRoute | backend/app/api/routes.py:422-463 | accepts exactly failed jobs of the tenant with document and template that the policies allow; otherwise nothing changes |
| JobRows.CancelRoute | backend/app/api/routes.py:467-493 | accepts exactly queued or running jobs of the tenant with their document; otherwise nothing changes |
| JobQueue.RunKeepsInv | worker/app/main.py:86-278 | every step of every interleaving keeps the protocol invariant |
| JobQueue.MutualExclusion | worker/app/main.py:86-278 | at most one worker processes a job, and while one does the job is neither queued nor failed |
| JobQueue.CompletedHasOneResult | worker/app/main.py:154-181 | a completed job has exactly one result row, with the tenant that job, document and template share |
| JobHistory.CompletedHoldsExtraction | worker/app/main.py:142-181 | in every run the one result of a completed job waits for review and holds the extraction that the worker which committed last on the job had brought to its last cancel check |
| JobQueue.StepTransition | worker/app/main.py:86-278 | all transitions a job's status and attempt counter can make in one step |
| JobQueue.AttemptsCountClaims | worker/app/main.py:264-277 | the attempt counter is the number of claims: retries while queued, one more when running, completed or failed |
| JobQueue.QueuedJobIsNew | backend/app/services/job_service.py:26-34 | in every run a queued job, retried ones included, is the row of a new job except for its attempt count, which is the number of claims |
| JobQueue.SafeCancelIsFinal | worker/app/main.py:138-152 | a cancel before the last check stays in every continuation, and no result row of the job changes |
| JobQueue.LateCancelIsLost | worker/app/main.py:154-201 | a cancel behind the last check is overwritten by the worker's next writes |
| JobQueue.CancelIsFinalIff | worker/app/main.py:138-201 | a cancel is final exactly when no worker on the job is past its last check |
| JobQueue.LateCancelPossible | worker/app/main.py:150-181 | from every state where a worker executes a running job an accepted cancel can still end in completion |
| JobQueue.ExecutingReachable | worker/app/main.py:86-138 | any idle worker can bring a submitted job to that state |
| JobQueue.CancelCanBeLost | worker/app/main.py:86-181 | from every start with a submitted job there is a run in which an accepted cancel is lost and the job completes |
| JobQueue.TimelyCancelIsSafe | backend/app/api/routes.py:467-493 | the handler's cancel is final when it lands before the worker's last check |
| JobHistory.WorkersFollowPath | worker/app/main.py:112-181 | in every run a worker reaches each place of the path only through all places before it, both cancel checks included |
| JobHistory.ChecksSeeCancel | worker/app/main.py:138-196 | a worker that checks a cancelled job neither extracts, commits nor fails it |
| JobHistory.ExceptionEnds | worker/app/main.py:192-214 | an exception may strike anywhere in the guarded block, the status write after completion included; undisturbed, the job then ends failed with the message of the exception, or stays cancelled with its document released, and stored results stay |
| JobHistory.CompletedCanFail | worker/app/main.py:181-214 | so a job whose result is stored may end as failed |
| JobHistory.TenantsAgree | worker/app/main.py:281-287 | in every run a job has the tenant of its document and template, if the first jobs do: the worker's tenant check cannot fail |
| JobHistory.ClaimIsDecided | worker/app/main.py:264-278 | a candidate is claimed exactly while it is queued and lost exactly when it is not |
| JobHistory.HandlersAccept | backend/app/api/routes.py:363-493 | the handlers act exactly for a tenant's own rows: submit, retry after a failure, cancel while waiting or running |
| JobHistory.FiveTries | worker/app/main.py:253-278 | in every run a worker gives up after five lost claims in a row |
| JobHistory.SelectionIsOldest | worker/app/main.py:253-261 | a worker takes an oldest queued job or finds none, and can always do one of the two |
| JobHistory.CreateWrites | backend/app/api/routes.py:363-391 | a submitted job and its document wait, and no other row changes |
| JobHistory.RetryWrites | backend/app/services/job_service.py:26-34 | the whole effect of a retry on all rows |
| JobHistory.CancelWrites | backend/app/services/job_service.py:37-46 | the whole effect of a cancel on all rows |
| JobHistory.ClaimWrites | worker/app/main.py:227-278 | a claim writes status, worker and attempts of one job and nothing else |
| JobHistory.ProgressWrites | worker/app/services/job_progress.py:16-23 | a report writes stage and percentage; the first one marks the document |
| JobHistory.CommitWrites | worker/app/main.py:154-181 | completion writes job, document and one result row; error message and worker stay |
| JobHistory.FailWrites | worker/app/main.py:95-201 | a failure stores its message; without document or template no document is touched |
| JobHistory.FinalizeWrites | worker/app/main.py:138-152 | a worker that finds its job cancelled releases the document and leaves every job alone |
| Text.SpanSurvivesStrip | worker/app/services/provider.py:484-486 | a span that starts and ends in non-space appears whole in every enclosing window after stripping |
| Text.StripIsSpan | worker/app/services/provider.py:484-486 | stripping cuts a contiguous piece and leaves only spaces outside it |
| Text.SpacesListed | worker/app/services/provider.py:464-465 | the white space that Python and JavaScript strip, character by character |
| Chunking.LastBreakIsLast | worker/app/services/provider.py:477-481 | no later position of the window is a line or word break |
| Chunking.WindowPrefersBreak | worker/app/services/provider.py:475-483 | a window ends at the last break of its second half, at full size exactly when there is none |
| Chunking.Windows | worker/app/services/provider.py:473-489 | windows for every overlap, negative included: in bounds, no larger than the size, at most one per character |
| Chunking.WindowsMean | worker/app/services/provider.py:472-489 | consecutive windows share exactly the overlap, or the next starts one character later where that would not move on; the last one ends with the text |
| Chunking.FindEnd | worker/app/services/provider.py:475-483 | the end-of-window search computes the specified end |
| Chunking.CollectPieces | worker/app/services/provider.py:472-489 | the loop produces the stripped windows without the empty ones |
| Chunking.SplitTextIntoChunks | worker/app/services/provider.py:464-491 | the chunks of the specification, for every text, size and overlap |
| Chunking.ShortSpanSurvives | worker/app/services/provider.py:464-491 | an inked span no longer than overlap plus one and half the size plus one is whole in some chunk |
| Chunking.OverlapKeepsSpansWhole | worker/app/services/provider.py:464-491 | with half the size at least the overlap, every inked span of overlap plus one characters is whole in some chunk |
| Chunking.EveryInkCharacterKept | worker/app/services/provider.py:464-491 | every position lies in some window, and if it is no space then the stripped text of that window is a chunk |
| Chunking.ChunksAreTheText | worker/app/services/provider.py:464-491 | without overlap the chunks put together are the text, spaces aside: nothing lost, repeated or moved |
| Chunking.ChunksFit | worker/app/services/provider.py:464-491 | no chunk exceeds a positive size, each is a piece of the text, none is empty unless the text is |
| Chunking.ChunkCount | worker/app/services/provider.py:464-491 | at least one chunk and no more than the text has characters |
| Chunking.WindowsAdvance | worker/app/services/provider.py:489 | linear per-step advance when half the size exceeds the overlap |
| Chunking.ChunkCountLinear | worker/app/services/provider.py:464-491 | the chunk count is then linear in the text length |
| PageMarkers.ParseDecimal | worker/app/services/provider.py:406-407 | the printed page number reads back as itself |
| PageMarkers.MatchMeans | worker/app/services/provider.py:400-407 | a marker is found exactly where the opening, one or more digits and the closing bracket stand |
| PageMarkers.ParseMeans | worker/app/services/provider.py:406-407 | a page number is the sum of its digits times their powers of ten |
| PageMarkers.MarkersDoNotOverlap | worker/app/services/provider.py:400-403 | no marker begins inside another, so scanning may jump |
| PageMarkers.InferPageReference | worker/app/services/provider.py:396-407 | the page of the last marker that begins at or before the position |
| PageMarkers.PageMeans | worker/app/services/provider.py:396-407 | a position has a page exactly when some marker begins at or before it, and then that of the last such marker |
| PageMarkers.SectionText | worker/app/services/parser.py:122-160 | in a rendered document each section, marker, line feed and text, stands where the section starts |
| PageTexts.GroupLines | worker/app/services/parser.py:143-153 | the dictionary holds each page's normalised texts in document order |
| PageTexts.SplitLinesMeans | worker/app/services/parser.py:66-67 | every line break ends one line, a carriage return with its line feed counting as one; an empty text has no line |
| PageTexts.LineBreaksListed | worker/app/services/parser.py:66-67 | the ten characters that break a line |
| PageTexts.RStripMeans | worker/app/services/parser.py:66-67 | spaces at the end are dropped, and nothing else |
| PageTexts.NormalizedIsTidy | worker/app/services/parser.py:66-67 | a normalised text has line feeds as its only breaks, no space before them, and none around it |
| PageTexts.TidyIsFixed | worker/app/services/parser.py:66-67 | a text that is like that is left alone |
| PageTexts.NormalizeKeepsInk | worker/app/services/parser.py:66-67 | normalising drops nothing but spaces |
| PageTexts.BodyIsItsLines | worker/app/services/parser.py:145-159 | a page is the normalised texts of its items, in document order, one below the other |
| PageTexts.BodySaysItsItems | worker/app/services/parser.py:145-159 | the non-space characters of a page are those of its items, in document order: nothing lost, repeated or moved |
| PageTexts.ItemsStandInOrder | worker/app/services/parser.py:145-159 | every item with text stands whole on its page, below everything the items before it say |
| PageTexts.PrintPages | worker/app/services/parser.py:155-160 | pages in ascending order, each non-empty one exactly once |
| PageTexts.CollectPageChunks | worker/app/services/parser.py:142-160 | every page with text, in ascending order, with its stripped non-empty body |
| PageTexts.PagesDetermined | worker/app/services/parser.py:142-160 | a document has only one way to print its items, whatever order the dictionary keeps its pages in |
| PageTexts.ParseDocument | worker/app/services/parser.py:122-131 | the text is the rendering of exactly those pages, or of the exported text as page 1 when there are none |
| PageTexts.DocumentSaysItsItems | worker/app/services/parser.py:122-160 | the text of a document says, page by page in ascending order, the marker and then the page's items in document order |
| PageTexts.FallbackSaysExport | worker/app/services/parser.py:126-131 | a document whose items say nothing is the exported text on page 1, or empty when that says nothing either |
| PageMarkers.ReferenceInvertsPrinter | worker/app/services/parser.py:122-160 | every position in a page's section, marker or text, is looked up as that page if no marker in its text names another one |
| PageMarkers.ChunkReadsBackIff | worker/app/services/parser.py:155-160 | one printed section reads back at every position exactly when its text holds no marker of another page |
| PageMarkers.ReadsBackExactlyWhen | worker/app/services/parser.py:122-160 | all positions read back exactly when no page's text holds a marker that names another page |
| PageTexts.ParsedPagesReadBack | worker/app/services/parser.py:122-131 | the same for the pages of any parsed document, the fallback page included |
| PageMarkers.ReferencesIncrease | worker/app/services/provider.py:396-407 | looked-up pages never decrease as the position grows |
| Redaction.MergeSpans | worker/app/services/redaction.py:88-99 | the loop that rewrites the last element computes the specified merge |
| Redaction.MergeSpansFacts | worker/app/services/redaction.py:88-99 | merged spans are separated by a gap and cover exactly the positions of the input |
| Redaction.IntervalsAreCanonical | worker/app/services/redaction.py:88-99 | non-empty separated intervals are determined by the positions they cover |
| Redaction.CoverageDecidesMerge | worker/app/services/redaction.py:88-99 | inputs of non-empty spans that cover the same positions merge into the same intervals |
| Redaction.MergeIgnoresOrder | worker/app/services/redaction.py:88-99 | two orders of the same spans, spans of no length included, merge into the same intervals |
| Redaction.MaskSpan | worker/app/services/redaction.py:106-109 | the inner loop extends the pointwise mask by one span, in place |
| Redaction.MaskText | worker/app/services/redaction.py:102-110 | exactly the covered non-space characters become the mask; length and spaces stay |
| Redaction.CollectSpans | worker/app/services/redaction.py:71-78 | refuses exactly unknown entity types, else all recognised spans in order |
| Redaction.CountKinds | worker/app/services/redaction.py:82-83 | counts per type are right and sum to the number of merged spans |
| Redaction.RedactText | worker/app/services/redaction.py:70-85 | masking through merged spans equals masking through the recognised ones; counts sum to the span count |
| RedactionMeaning.SpansAreFindings | worker/app/services/redaction.py:71-78 | a span is collected exactly when a recogniser of a requested type found it, under that type |
| RedactionMeaning.SpansOfFirst | worker/app/services/redaction.py:71-78 | spans are collected type by type, in the order of the request |
| RedactionMeaning.MaskedExactlyWhen | worker/app/services/redaction.py:70-110 | a character is masked exactly when it is no space and lies in a finding of a requested type; every other one stays |
| RedactionMeaning.IntervalsAreNamed | worker/app/services/redaction.py:88-99 | a merged interval has the type of the first longest span that starts where it starts; nothing that starts earlier reaches it, and every span lies in an interval |
| RedactionMeaning.CountMeans | worker/app/services/redaction.py:82-83 | the count of a type is the number of intervals of that type |
| Sorting.SortIsStable | worker/app/services/redaction.py:91 | spans, fields and suggestions that tie keep their order |
| Reconciliation.CanonicalSettles | shared/extraction_core/field_validation.py:73-111 | canonicalising is idempotent, and a canonicalised text is an allowed value |
| Reconciliation.ValidatedIsIdempotent | shared/extraction_core/field_validation.py:14-48 | validating twice is validating once |
| Reconciliation.AllowedExactlyWhen | shared/extraction_core/field_validation.py:21-33 | a value passes the allowed-values check exactly when there is nothing to check, or it is a text that is allowed or has a replacement |
| Reconciliation.OnlyTextsAllowed | shared/extraction_core/field_validation.py:21-33 | so a list, a number or a record without a text is always outside the allowed values, hence invalid and flagged |
| ReconciliationMeaning.ReplacementMeans | shared/extraction_core/field_validation.py:90-111 | an allowed text is not replaced; another becomes the first allowed value with its comparison key, or else what the matcher picks |
| ReconciliationMeaning.CanonicalMeans | shared/extraction_core/field_validation.py:73-87 | texts, and the texts of a list in their places, become their replacements; anything else stays |
| ReconciliationMeaning.NormalizedMeans | shared/extraction_core/field_validation.py:21-31 | value and notes after validation |
| ReconciliationMeaning.IssuesMean | shared/extraction_core/field_validation.py:17-43 | exactly when each error arises, the schema being checked on the value after replacement |
| Reconciliation.Best | shared/extraction_core/dry_run.py:135 | the first candidate of maximal lexicographic score |
| ReconciliationMeaning.BestMeans | shared/extraction_core/dry_run.py:135-182 | no candidate beats the chosen one and it beats every one before it: value and source text count most, then confidence, then the length of the source text |
| Reconciliation.GroupResults | shared/extraction_core/dry_run.py:119-127 | candidates by field in order, and one note per unexpected result |
| Reconciliation.ReconcileExtractedFields | shared/extraction_core/dry_run.py:113-156 | one result per definition in definition order |
| Reconciliation.ReconciledFieldFacts | shared/extraction_core/dry_run.py:130-154 | named after its definition; invalid exactly when errors; flagged exactly by one of its causes |
| Reconciliation.ReconciledPicksMaximum | shared/extraction_core/dry_run.py:131-141 | evidence of a best candidate carried over, upstream flags never dropped, a missing field flagged |
| ReconciliationMeaning.FieldMeans | shared/extraction_core/dry_run.py:130-154 | after the choice: the validated field, the citation error, and the note on low confidence, each exactly when its condition holds |
| ReconciliationMeaning.CandidatesCons | shared/extraction_core/dry_run.py:123-127 | candidates keep the order of the provider results |
| Reconciliation.ResultsAccountedFor | shared/extraction_core/dry_run.py:123-127 | every provider result is a candidate of exactly one definition or has exactly one note |
| Reconciliation.SanitiseResults | worker/app/services/executor.py:137-150 | the in-place loop sanitises every element |
| ReconciliationMeaning.SanitisedMeans | worker/app/services/executor.py:137-150 | a result with a masked character loses both values and is flagged, with a note; any other stays as it is |
| Reconciliation.RedactedEvidenceNeedsReview | worker/app/services/executor.py:137-150 | if the provider result chosen for a field held a masked character, in its value or its evidence, the field has no value and asks for review; otherwise its value is the given one |
| Review.ResultRow.Write | worker/app/services/executor.py:106-118 | the stored result of an extraction, with the cached list of flagged names |
| Review.ResultRow.ApplyReviewEdits | backend/app/services/result_service.py:32-125 | the whole new row after a review, or the old row when an edit or the recalculation fails |
| ReviewMeaning.ReviewMeans | backend/app/services/result_service.py:32-125 | a review without recalculation fails exactly when an edit names no field; a saved one is no longer pending and adds one history row per edit |
| ReviewMeaning.RecalculationDecides | backend/app/services/result_service.py:74-97 | with recalculation it also fails exactly when the calculation over the edited fields raises |
| ReviewMeaning.ExtractedAfterReview | backend/app/services/result_service.py:36-72 | every extracted field after a saved review: its value and text are those of the last edits about it, its evidence stays, and it counts as reviewed exactly when it was edited or approved |
| ReviewMeaning.CalculatedAfterReview | backend/app/services/result_service.py:46-54 | without recalculation a calculated field keeps name, value, errors and notes, stays flagged exactly when it was flagged and the save is not a blanket one, and is unchanged outside a blanket save |
| ReviewMeaning.RecalculatedAfterReview | backend/app/services/result_service.py:74-97 | with recalculation the calculated fields are those computed from the edited fields, reviewed where they need no review |
| ReviewMeaning.FieldIndexMeans | backend/app/services/result_service.py:34 | an edit is about the last field of its name |
| Review.EditLoop | backend/app/services/result_service.py:55-72 | one history row per edit, taken before the field changes; an unknown field fails |
| Review.ResultRow.ExportAllowed | backend/app/services/result_service.py:128-135 | the gate on review status and cached list |
| Review.CacheAgreesAlways | backend/app/services/result_service.py:26-29 | in every reachable state the cached list is the flagged extracted then the flagged calculated names |
| Review.GateMeansCleared | backend/app/services/result_service.py:128-155 | under the policy export passes exactly when a review is saved and no field is flagged |
| Review.ReviewedFlag | backend/app/services/result_service.py:36-72 | exactly when a flag survives a review; none is ever set; the threshold never clears an invalid field |
| Review.BlanketSaveClears | backend/app/services/result_service.py:46-54 | a save without edits, threshold and recalculation clears every flag and opens the gate |
| Review.HistoryReplays | backend/app/services/result_service.py:55-72 | over any sequence of reviews a field's edit rows form a chain that replays to its current value |
| RecalculatedReviews.RecalculationSolves | backend/app/services/result_service.py:74-99 | after a saved review with recalculation the calculated fields solve the template's equations over the edited fields, with the errors, notes and flags of that solution |
| RecalculatedReviews.RecalculatedGate | backend/app/services/result_service.py:74-135 | after such a review the gate is open exactly when no extracted field is flagged, no formula has errors and no definition asks for review |
| Feedback.CollectQuotes | backend/app/services/langextract_feedback.py:228-254 | the loop quotes exactly the quotable fields and its flag tells whether the target is among them |
| Feedback.QuoteIsGrounded | backend/app/services/langextract_feedback.py:219-224 | a matching field inside the window occurs in the stripped window |
| Feedback.SuggestionIsGrounded | backend/app/services/langextract_feedback.py:197-273 | every quoted text occurs in the example, the example in the document, within the radius, with the target quoted |
| Feedback.ChecksDecide | backend/app/services/langextract_feedback.py:206-273 | a suggestion is produced exactly when the target passes its checks; the two later skips never happen |
| FeedbackMeaning.CandidateMeans | backend/app/services/langextract_feedback.py:206-273 | which check an edit fails first, and the suggestion when it passes them all: the stripped text from 160 characters before the span to 160 after it |
| FeedbackMeaning.QuotableMeans | backend/app/services/langextract_feedback.py:234-244 | a field is quoted exactly when its span lies in the window, the document says the same there, and no reviewer replaced its text |
| FeedbackMeaning.TargetIsFirst | backend/app/services/langextract_feedback.py:206-211 | an edit is about the first field of its name |
| FeedbackListing.BuildCandidate | backend/app/services/langextract_feedback.py:197-273 | the candidate of one edit, over the fields sorted by start and name |
| FeedbackListing.CandidateQuotesInOrder | backend/app/services/langextract_feedback.py:228-254 | it quotes exactly the quotable fields, in document order |
| FeedbackMeaning.QuoteOrderMeans | backend/app/services/langextract_feedback.py:230-233 | quotes stand by start, and by name where the starts tie |
| FeedbackListing.TallyConserves | backend/app/services/langextract_feedback.py:83-116 | skips plus occurrences count every edit once; each counter its reason, each suggestion its key |
| FeedbackListing.TallyRows | backend/app/services/langextract_feedback.py:83-116 | the loops over results and edits compute that tally, rows without text in one addition |
| FeedbackListing.ListSuggestions | backend/app/services/langextract_feedback.py:43-143 | reviewed edits equal skips plus occurrences; generated equals dismissed plus visible; the visible ones are returned in display order |
| FeedbackMeaning.ListingGathers | backend/app/services/langextract_feedback.py:83-116 | over any listing there is one suggestion per key, in the order in which the keys came up, with the number of its candidates, their results and fields without repetition, and the latest review time |
| FeedbackMeaning.VisibleMeans | backend/app/services/langextract_feedback.py:118-126 | a gathered suggestion is shown exactly when its key was not dismissed |
| FeedbackMeaning.DisplayOrderMeans | backend/app/services/langextract_feedback.py:119-126 | more frequent suggestions come first, then earlier review times, then smaller keys |
| FeedbackListing.LateSkipsNeverHappen | backend/app/services/langextract_feedback.py:224-258 | over any listing the empty-context and no-contextual-extractions counters stay zero |
| DraftCodec.SplitJoin | frontend/src/langextract.ts:104-146 | lists of normal lines survive being joined and split |
| DraftCodec.MissingRequired | frontend/src/langextract.ts:355-396 | the coverage loops give the required fields that no known class covers |
| DraftCodec.CoverageOfBuilt | frontend/src/langextract.ts:594-605 | on built examples coverage is the set of their classes |
| DraftCodec.BuildsIff | frontend/src/langextract.ts:398-426 | a draft list builds exactly when every example is complete, every class known and every required field covered |
| DraftMeaning.BuildsExactlyWhen | frontend/src/langextract.ts:492-607 | the same over the typed names: every class is a field of the template, unless it names none, and every required field that has a name is the class of some extraction |
| DraftMeaning.BuildSaves | frontend/src/langextract.ts:500-593 | a build saves every example in its place: text, classes and extraction texts trimmed, and under each trimmed key, in the order of first mention, the trimmed value or trimmed non-empty lines typed last |
| DraftMeaning.BuildReports | frontend/src/langextract.ts:500-605 | a failed build reports the first problem of the first example that has one, and missing coverage only when every example is sound |
| DraftMeaning.SplitMeans | frontend/src/langextract.ts:555-558 | the lines of a text joined again are the text, and none holds a line feed |
| DraftMeaning.TrimAllMeans | frontend/src/langextract.ts:555-558 | the items of a list are the trimmed lines that are not blank, in their order |
| DraftCodec.SaveReloadSave | frontend/src/langextract.ts:492-607 | every draft that builds gives the same examples after being reloaded and built again |
| DraftMeaning.ReloadShows | frontend/src/langextract.ts:93-110 | a reload shows every stored text, class and attribute in its place, a list one item per line |
| DraftCodec.RecordReloads | frontend/src/langextract.ts:93-110 | attributes keep keys, order, kinds and values through a reload |
| AppliedSuggestions.SavedExampleRecognised | frontend/src/langextract.ts:181-232 | a saved example is recognised in the draft it is reloaded into, whatever the collation |
| AppliedSuggestions.ListKeptIff | frontend/src/langextract.ts:112-146 | a list passes through a draft unchanged, spaces aside, exactly when no trimmed item holds a line feed |
| AppliedSuggestions.SuggestionRecognisedIff | frontend/src/langextract.ts:112-232 | a suggestion turned into a draft is recognised in it exactly when nothing in it is blank, it has an extraction, and no list that is kept has an item with a line feed inside |
| SuggestionMatching.MatchesExactlyWhen | frontend/src/langextract.ts:181-232 | a draft counts as an applied suggestion exactly when, spaces and line endings aside, its text is the suggested one and its complete extractions say the same in the same order, with the same value under every key |
| SuggestionMatching.ComparableMeans | frontend/src/langextract.ts:135-179 | two attribute lists compare equal exactly when they hold the same last value under every key, in whatever order they were typed |

## Left out

- Formulas.Same: equality of wrapped records is taken as a function of their values; the source compares them by identity.
- Formulas.Evaluate: numbers are exact, so float rounding, infinities and NaN are not modelled, nor are bytes, complex and ellipsis constants; that multiplication undoes division is not claimed, because it fails on floats; the bound method that `.unwrap` yields is a value without its receiver.
- Formulas.Apply: of the helpers only `coalesce` and `iff` are spelled out, the others are an arbitrary function that may raise; so are Python's own parser (a formula is given parsed or broken) and the rewriting of `if(`.
- TopologicalSort.Sort: the stack is a number of levels for the sort alone; the recursion of cycle detection, at most one level deeper than there are names, is not charged to it.
- Calculations.EvaluateDefinition: display strings and the sorted `depends_on` echo are not part of the result.
- Reconciliation.ReconciledField: results are values, while the source changes the chosen result object in place; with unique definition names each object is chosen once, so nothing is shared. JSON Schema, patterns, text length, the comparison key and the fuzzy matcher are arbitrary functions; of the matcher it is only assumed that it picks an allowed value.
- Review.ReviewedResult: reviewer, reason and time stamps of edits, audit rows and the JSON round trip of the summary; recalculation is an arbitrary function that may raise; `RecalculatedReviews` puts the calculation loop of this project in its place.
- JobQueue.Enabled: provider validation in create and retry can only refuse more; time stamps, audit rows, error texts beyond the message, and the order in which Postgres skips locked rows are not modelled, nor is any fairness or progress of workers. An exception between the flush and the commit of a completion is left out too: only assignments and the audit row's construction sit there.
- JobRows.RetryRoute: two retries whose reads both precede the first commit are outside the one-transaction reading.
- PageMarkers.MatchAt: digits are the ASCII ones and page numbers are not negative; the pattern's Unicode digits are not modelled.
- Redaction.RedactText: the recognisers are a parameter that promises spans inside the text.
- Feedback.Candidate: attribute texts and the suggestion digest are arbitrary functions, so digest collisions are covered.
- FeedbackListing.ListSuggestions: the early return for other providers, reading of document files and the query that collects rows; review times are numbers.
- DraftCodec.Build: the position named in error messages, and JavaScript's habit of listing integer-like keys first.
- `getLangExtractDraftGuidance`, the provider adapters and value normalisers, parsing by Docling, storage, HTTP, tenants' administration, metrics and the user interface are not modelled.
