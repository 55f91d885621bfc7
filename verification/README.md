# Verified models of text2ontology's core machines

text2ontology answers questions over a lakehouse with an agent. This project models the parts of it whose
correctness is not visible in any one function, and proves what they promise:

- **Missions** (`pkg/mission`). A template of tasks is validated by a depth-first search for dependency
  cycles, instantiated, and driven by a scheduler that runs one task at a time over a five-state task machine
  with retry budgets. The model goes from the search to the end of the run: validation accepts exactly the
  acyclic templates, and an accepted template can never deadlock, always finishes within its budget, starts
  tasks in dependency order, and ends in the outcome its tasks have earned. The pointer gate, which rejects
  arguments copied out of earlier results, is proved exact (it compares the trimmed argument with the cell as it
  stands), and so is when doing what it asks for satisfies it.
- **The feature ledger** (`services/agent-server/analysis`). A second one-at-a-time machine over shared row
  objects, proved to be the same machine as a mission without dependencies; the checks an analysis pattern
  passes first (`services/agent-server/recall`) are proved to exclude the ledgers for which it is not.
- **The SQL rewriter** (`pkg/sqlrewrite`). `RenderSysParams` edits SQL text while it streams. On whole query
  trees, with any text behind the parameters, it is proved equal to pruning the tree, if and only if no debris is
  left behind, and its words stand apart, if and only if none fuse. On any token stream its arguments stay
  aligned, values never reach the text, it is known exactly which predicates an absent value takes with it whole,
  by the text before and behind the value, and exactly when two words run together.
- **The builder ledger's optimistic-concurrency save** (`services/agent-server/builder_ledger`). Any number of
  clients interleaving loads, compare-and-swap saves and retries; exactly which reapply functions lose nothing.
- **The pivot** (`applyIntentPivot`). Conservation of amounts, the stable order and the limit, and the error of
  rounded percentages.
- **Two text machines**: the Postgres array printer and parser (`pkg/httputil`), and the JSON brace matcher
  (`pkg/llmclient`).

## How it is organised

Objects that the program updates in place are classes (`Mutator.Mission`, `Template.CycleFinder`,
`FeatureLedgers.FeatureLedger`, `BuilderLedgers.ThreadTable`); their methods are proved against a function of
the old state, and lemmas about that function carry the properties over whole runs. Loops are methods with
invariants; where the original nests loops, an inner level may be a method of its own. Code that only
computes is functions. One module per source file or per group of theorems:

| modules | what they hold |
|---|---|
| `MissionTypes`, `StateMachine`, `Mutator`, `Pick`, `Template`, `Graph` | the mission's data, machine, mutator, scheduler and validation |
| `MissionRuns`, `MissionHistory`, `Scheduler`, `Quiescence` | theorems over all runs of a mission |
| `Pointer`, `PointerRefs`, `PointerPaths`, `PointerGate`, `PointerRepair`, `Text` | the index of cells and the scan, the reference grammar, access paths, the gate, the correction it asks for, and strings as Go's standard library treats them |
| `AnalysisPattern`, `FeatureLedgers`, `LedgerRuns`, `LedgerHistory` | the checked pattern, the feature ledger and its runs |
| `SqlRewrite`, `SqlText`, `SqlTests`, `SqlGone`, `SqlFacts`, `SqlWords`, `SqlRules` | the rewriter on token streams: its text, the tests it finds, the predicates that go whole, what it keeps, where words fuse, and its elementary rules with every keyword written out |
| `SqlPrune`, `SqlWhere`, `SqlStreaming`, `SqlPruned`, `SqlTheorem`, `SqlExamples` | query trees, the comparison with pruning, and an input for each kind of debris |
| `BuilderLedgers`, `LedgerEpisodes`, `LedgerProtocol` | the saved row, one retrying save attempt by attempt, and all interleavings of its clients |
| `Pivot`, `PivotFacts`, `PivotTable`, `PivotKeys` | the pivot's phases, their laws, what the table shows, and its row keys |
| `PgArray`, `BraceMatch` | the text machines |

`dafny verify dfyconfig.toml` checks everything.

## What turned out not to hold

Each of these is a branch of the code, kept as it is and delimited exactly:

- `Runnable` looks one dependency deep, so it can answer yes when nothing will ever run
  (`Quiescence.RunnableOverApproximates`); `Quiescence.RunnableAtQuiescence` says when, and
  `Quiescence.CanStillPass` gives the exact question.
- A mission stranded behind a blocked task keeps the status active (`Quiescence.QuiescentOutcome`).
- A feature ledger with a repeated id can never settle (`LedgerRuns.CanSettle`); the pattern checks exclude such
  ledgers (`AnalysisPattern.CheckPattern`, `LedgerRuns.AcceptedCanSettle`). `PickNext` offers work while another
  feature is active, which `PickActive` does not (`LedgerRuns.PickersAgree`). An empty ledger is settled while an
  empty mission stays active (`LedgerRuns.SettledIsFinal`).
- The rewriter leaves a bare `where`, a keyword phrase with an empty list, or the text behind an absent value,
  exactly in the cases of `SqlTheorem.LeavesDebris`; `SqlExamples` has an input for each.
- An absent value takes its whole predicate with it if and only if the text before the value, from the `where` or
  connector on, is a test (a single quoted or a bare dotted name, an operator, and at most `any` and `(`) whose
  name is not the `not` of a bare `not in` or `not like`, and the predicate ends at its value: nothing stands
  behind it, or, when a parenthesis was opened, white space and its `)` (`SqlGone.FirstGoesExactly`,
  `SqlGone.NextGoesExactly`).
  - Behind the value: `where d >= {sys.opt.p}::date` becomes `where ::date` (`SqlExamples.CastStays`), of
    `x = any({sys.opt.p}::text[])` all the rest stays (`SqlExamples.ArrayCastStays`), and of
    `x in ({sys.opt.a}, {sys.opt.b})` the parenthesis (`SqlExamples.ParenthesisStays`); there the second parameter
    is even taken for a column, and its value not bound (`SqlExamples.SecondIsAColumn`).
  - Before the value: of `"od"."col" =` and `od."col" =` only the last part goes (`SqlTests.QuotedPathHalfRemoved`),
    the operand of `not ilike` stays (`SqlTests.NotILikeHalfRemoved`; `SqlTests.PathGoesExactly` says for which
    operands and operators this happens), the `not` of `not x =` stays, and at `x = lower(` nothing goes and
    `x = lower()` is left (`SqlTests.NothingGoesExactly`, `SqlTests.CallKeepsItsTest`).
- Skipping a comma or a closing parenthesis can put two words side by side: exactly when is said for token
  streams by `SqlWords.WordsFuseExactly` and for queries by `SqlTheorem.WordsStayApart`; the inputs that fuse are in
  `SqlWords.CommaWithoutSpaceFuses` and `SqlWords.ParenthesisWithoutSpaceFuses`.
- The builder turn's reapply ignores the reloaded ledger, so concurrent turns lose updates
  (`LedgerProtocol.KeepDraftLosesUpdates`); and a stored ledger of another schema with a non-zero version can
  never be saved over (`LedgerProtocol.CanCommit`, `BuilderLedgers.StuckRowConflictsForever`).
- The Postgres array round trip drops "" and "NULL" (`PgArray.RoundTripExact`).
- For non-negative metrics the pivot loses amounts exactly when a row with something in it is replaced by a later
  row of the same key and pivot value, or its pivot value has no column (`PivotFacts.PivotConservesExactly`):
  because it matches a configured value only up to case, or an earlier candidate has its label
  (`PivotFacts.ShownExactly`, `PivotFacts.SharedLabelHides`).
- A tuple of dimension values shares its joined key with another one if and only if a value holds `||`, or one
  bar where it meets a separator (`PivotKeys.KeysCollide`).
- A percentage is moved by more than half of a hundredth exactly below -0.005, except halfway between two
  hundredths (`PivotFacts.RoundingExactly`).
- The reference the pointer gate names for a literal is itself rejected exactly when the copied cell's step id and
  column name cannot be spelled in a reference, the reference is not exempt, and it is itself the value of a cell
  (`PointerRepair.RepairPassesExactly`, with an input in `PointerRepair.RepairFails`).
- A cell with white space at its ends can be copied character by character past the pointer gate: the copy is caught
  exactly when its trimmed text is the value of some cell (`PointerGate.VerbatimCopies`, `PointerGate.PaddedCopyPasses`).
- The search for a bare tool call gives up at the first brace that nothing closes, although a whole call may stand
  behind it (`BraceMatch.StrayBraceHidesCall`); `BraceMatch.FindsCallExactly` says when a call is found.

## Model

| member | source | states |
|---|---|---|
| Graph.PathDescends | pkg/mission/template.go:110-145 | in an order that lists dependencies first, a path from a listed id ends at an earlier one |
| Graph.OrderedGraphIsAcyclic | pkg/mission/template.go:110-145 | a graph whose ids can all be listed dependencies first has no cycle |
| Graph.BackEdgeClosesCycle | pkg/mission/template.go:125-127 | an edge from the end of the search path back into it puts its target on a cycle |
| Template.CycleFinder.Visit | pkg/mission/template.go:122-136 | exploring a white id either answers an id on a cycle or finishes the id with everything below it, and ends because fewer ids are left white |
| Template.FirstCycle | pkg/mission/template.go:110-145 | "" if and only if the dependency graph has no cycle, and any other answer is a task id on one |
| Template.Validate | pkg/mission/template.go:84-106 | accepts exactly the templates with non-empty unique ids, resolved dependencies and no cycle; otherwise names the first fault in the documented order |
| Template.Instantiate | pkg/mission/template.go:50-78 | a new active mission with the template's tasks all pending, an unset retry budget read as 2 |
| Template.GraphEntry | pkg/mission/template.go:116-120 | with unique ids the search's graph holds each task's own dependency list |
| StateMachine.TerminalHasNoExit | pkg/mission/statemachine.go:11-27 | the terminal statuses are exactly those with no transition out |
| StateMachine.TransitionsAlternate | pkg/mission/statemachine.go:11-22 | the table allows exactly waiting to active, and active to passing, blocked or pending_retry |
| StateMachine.DeriveStatus | pkg/mission/statemachine.go:54-78 | unanswerable, active, partial or complete by what holds of all tasks |
| Mutator.Mission.Transition | pkg/mission/statemachine.go:42-48 | moves one task's status along a table edge, or leaves the tasks alone and says which edge is missing |
| Mutator.Mission.Mutate | pkg/mission/mutator.go:39-56 | accepted exactly when admissible; the whole new state; on rejection the unchanged state and the first thing wrong, in the order it is looked at |
| Mutator.Mission.ApplyStart | pkg/mission/mutator.go:73-89 | starts a waiting task unless another one is active, and names WIP as the reason exactly then |
| Mutator.Mission.ApplyComplete | pkg/mission/mutator.go:91-116 | an active task passes, its result registered under the step id with its origin, the cursor released |
| Mutator.Mission.ApplyBlock | pkg/mission/mutator.go:118-135 | an active task is blocked with the given reason; without a reason nothing happens |
| Mutator.Mission.ApplyRetry | pkg/mission/mutator.go:137-154 | an active task with budget goes to pending_retry and pays one retry |
| Pick.PickActive | pkg/mission/pick.go:11-30 | the first waiting task with all dependencies passing, and none while a task is active |
| Pick.PickExactly | pkg/mission/pick.go:11-44 | over the whole list: task i is picked iff nothing is active and it is the first pending or sent-back task whose dependencies are all known and passing |
| Pick.RunnableExactly | pkg/mission/pick.go:46-79 | runnable iff some task is active, or waits with every direct dependency known and not blocked |
| MissionRuns.InvariantOverRuns | pkg/mission/mutator.go:36-154 | in every run of a fresh mission at most one task is active, the cursor is its id or empty, and the status is the derived one |
| MissionRuns.TerminalForever | pkg/mission/statemachine.go:8-17 | the record of a passing or blocked task never changes again |
| MissionRuns.NextBurnsFuel | pkg/mission/mutator.go:73-154 | every accepted start, complete, block or retry strictly lowers the remaining fuel, and nothing raises it |
| MissionRuns.BoundedRuns | pkg/mission/mutator.go:73-154 | a run of a fresh mission accepts at most the sum of 2*max(0, RetryBudget)+2 task mutations |
| MissionRuns.BoundIsTight | pkg/mission/mutator.go:137-154 | with unique ids some run accepts exactly that many |
| MissionHistory.AcceptedExactly | pkg/mission/mutator.go:39-154 | which mutations are accepted, kind by kind, by status, budget and reason of the first task of the id |
| MissionHistory.StepHistory | pkg/mission/mutator.go:100-106 | after any run a step id holds the rows and schema of the last accepted completion that carried it, stamped with that task's id; with none, what it held before |
| MissionHistory.RegisteredExactly | pkg/mission/mutator.go:100-105 | a step id is registered iff it was at the start or some accepted completion carried it, non-empty and with a result |
| MissionHistory.RegisteredForever | pkg/mission/mutator.go:100-105 | a registered step never disappears |
| MissionHistory.TaskHistory | pkg/mission/mutator.go:73-154 | after any run the status, result reference, evidence and block reason of a task are those of the last accepted mutation that sets them, its budget is down by the accepted retries, and everything else is as it was |
| MissionHistory.SynthesisHistory | pkg/mission/mutator.go:48-51 | the synthesis keeps template and caveats and holds the last accepted output |
| MissionHistory.LastSetExactly | pkg/mission/mutator.go:39-154 | "the last accepted mutation that sets a field" is one that does, with none behind it, and there is none only if nothing does |
| Scheduler.DependencySafety | pkg/mission/pick.go:20-44 | when starts are the scheduler's picks, a task that has left pending has all its dependencies passing for ever after |
| Scheduler.StartOrderIsTopological | pkg/mission/pick.go:20-44 | the order of first activations is a topological order of exactly the tasks that have started |
| Quiescence.DeadlockFreedom | pkg/mission/pick.go:11-44 | from an accepted template, under any mutations: with nothing active and nothing to pick, every task is passing, blocked, or waits behind a blocked one |
| Quiescence.QuiescentOutcome | pkg/mission/statemachine.go:54-78 | then the mission is active iff a task is stranded, partial iff some task is blocked and none stranded, complete iff none is blocked |
| Quiescence.NotRunnableIsFinal | pkg/mission/pick.go:50-79 | when Runnable is false no scheduler-driven continuation picks a task or changes one |
| Quiescence.StrandedStaysPending | pkg/mission/pick.go:32-44 | a task behind a blocked one never starts again |
| Quiescence.CanStillPass | pkg/mission/pick.go:46-79 | some continuation passes a task iff it is not blocked and depends on nothing blocked at any depth |
| Quiescence.RunnableOverApproximates | pkg/mission/pick.go:69-79 | a quiescent mission for which Runnable still answers yes |
| Quiescence.RunnableAtQuiescence | pkg/mission/pick.go:50-79 | it does so iff some task is stranded without a directly blocked dependency |
| Pointer.AllCellsSpec | pkg/mission/pointer.go:71-97 | the indexed cells are exactly the non-blank string cells, in step, row, column order |
| Pointer.BuildCellIndex | pkg/mission/pointer.go:71-97 | the nested loops build the first-occurrence index of those cells |
| Pointer.IndexSpec | pkg/mission/pointer.go:71-97 | a value is indexed iff some cell holds it, under the reference of the first such cell |
| Pointer.ScanFindsFirst | pkg/mission/pointer.go:99-131 | the recursive scan answers the first offending leaf in sorted-key order |
| PointerPaths.LeavesExactly | pkg/mission/pointer.go:99-131 | the strings the scan looks at are exactly those that access paths lead to, each with its written path, fields visited by sorted name and lists by position |
| PointerRefs.RefExactly | pkg/mission/pointer.go:19-33 | a text is a reference iff, trimmed, it is t and a number, perhaps a mission id before it, and nothing, a column or a cell of one behind it |
| PointerGate.ScanForLiteral | pkg/mission/pointer.go:65-67 | finds a violation iff some access path leads to a string that copies a cell, and reports the first such path and the first cell |
| PointerGate.GateDispatch | pkg/mission/mutator.go:160-168 | rejects exactly the dispatches with a string anywhere in the arguments whose trimmed text is a cell's value, is no reference and is not exempt |
| PointerGate.VerbatimCopies | pkg/mission/pointer.go:99-110 | a cell copied character by character is caught iff its trimmed text is the value of some cell, so always when it has no white space at its ends |
| PointerGate.PaddedCopyPasses | pkg/mission/pointer.go:99-110 | a cell with white space at its ends whose copy passes |
| PointerRepair.RefToIsRef | pkg/mission/pointer.go:26-33 | the reference printed for a cell is recognised as one iff its step id and column name fit the grammar, a mission prefix inside either included |
| PointerRepair.RepairPassesExactly | pkg/mission/pointer.go:8-11 | for any names and exemptions, replacing each copied literal by the reference named for it satisfies the gate iff no copied cell has unspellable names and a reference that is not exempt and is itself the value of a cell |
| PointerRepair.RepairPasses | pkg/mission/pointer.go:8-11 | in particular always, when every step id and column name fits the reference grammar |
| PointerRepair.RepairFails | pkg/mission/pointer.go:71-97 | a cell whose printed reference is the value of another cell: the literal and its replacement are both rejected |
| FeatureLedgers.FeatureLedger.constructor | services/agent-server/analysis/feature_ledger.go:77-95 | one new row object per feature, not started, shared between list and id map |
| FeatureLedgers.FeatureLedger.PickNext | services/agent-server/analysis/feature_ledger.go:105-116 | the first not-started row |
| FeatureLedgers.FeatureLedger.Activate | services/agent-server/analysis/feature_ledger.go:124-143 | granted iff the id's row is not started and no row is active; changes that row alone |
| FeatureLedgers.FeatureLedger.RequireActive | services/agent-server/analysis/feature_ledger.go:244-254 | the row of a known id that is active, and an error otherwise |
| FeatureLedgers.FeatureLedger.Pass | services/agent-server/analysis/feature_ledger.go:147-157 | granted iff the row is active; it passes with its evidence |
| FeatureLedgers.FeatureLedger.Retry | services/agent-server/analysis/feature_ledger.go:162-177 | granted iff the row is active with budget left; counts the retry |
| FeatureLedgers.FeatureLedger.Block | services/agent-server/analysis/feature_ledger.go:182-192 | granted iff the row is active; it is given up with its evidence |
| FeatureLedgers.FeatureLedger.AllSettled | services/agent-server/analysis/feature_ledger.go:197-206 | true iff every row is passed or given up |
| LedgerRuns.AttemptBound | services/agent-server/analysis/feature_ledger.go:31-33 | in every run at most one feature is active and none is attempted more than 1 + RetryBudget times |
| LedgerHistory.GrantsExactly | services/agent-server/analysis/feature_ledger.go:124-195 | which requests are granted, by the state and retry count of the last row of the id |
| LedgerHistory.RowHistory | services/agent-server/analysis/feature_ledger.go:124-195 | after any run a row has the state of the last request granted to it, the evidence of the last one that carried some, and its retry count is up by the granted retries |
| LedgerRuns.ShadowedNeverStarts | services/agent-server/analysis/feature_ledger.go:91-92 | a row shadowed in the id map by a later one never starts |
| LedgerRuns.CanSettle | services/agent-server/analysis/feature_ledger.go:194-206 | a new ledger can settle iff its ids are unique |
| LedgerRuns.Bisimulation | services/agent-server/analysis/feature_ledger.go:118-192 | over matching requests of any length the ledger and a dependency-free mission stay in the same state |
| LedgerRuns.SameVerdictAlways | services/agent-server/analysis/feature_ledger.go:118-192 | and accept or reject alike at every step |
| LedgerRuns.StartsBisimilar | pkg/mission/mutator.go:73-154 | a fresh dependency-free mission with budget 2 starts in the ledger's state |
| LedgerRuns.PickersAgree | services/agent-server/analysis/feature_ledger.go:100-116 | PickNext and PickActive agree iff it is not the case that one feature is active and another not started |
| LedgerRuns.SettledIsFinal | services/agent-server/analysis/feature_ledger.go:194-206 | the ledger is settled iff it is empty or the mission's outcome is final |
| AnalysisPattern.CheckPattern | services/agent-server/recall/analysis_pattern.go:114-136 | accepts exactly the non-empty patterns with complete features, unique ids and a template, and otherwise names the first fault |
| LedgerRuns.AcceptedCanSettle | services/agent-server/handler/tool_analysis_plan.go:156-167 | a ledger built from an accepted pattern can settle |
| LedgerRuns.AcceptedFollowsMission | services/agent-server/handler/tool_analysis_plan.go:156-167 | under every request it stays in the state of the dependency-free mission of the same ids, and is settled iff that mission's outcome is final |
| SqlRewrite.CleanDanglingConnectors | pkg/sqlrewrite/sqlrewrite.go:487-505 | the loop reaches the fixpoint of the two connector passes, each changing pass strictly shortening the text, and then drops an empty where |
| SqlRewrite.RenderSysParams | pkg/sqlrewrite/sqlrewrite.go:312-446 | the streaming loop computes Render: text, arguments and the sorted missing names |
| SqlRules.DanglingWhereExactly | pkg/sqlrewrite/sqlrewrite.go:479-504 | a WHERE with only white space behind it goes iff the text ends there or goes on with group, order, limit or having |
| SqlRules.LeadingConnectorExactly | pkg/sqlrewrite/sqlrewrite.go:465-500 | behind WHERE an `and` or `or` goes, and WHERE as well if the text ends behind it or goes on with one of the four words |
| SqlRules.ChainFix | pkg/sqlrewrite/sqlrewrite.go:487-500 | any number of connectors behind WHERE goes, one in each pass |
| SqlRules.TrailingConnectorExactly | pkg/sqlrewrite/sqlrewrite.go:472-500 | elsewhere an `and` or `or` becomes one space iff the text ends behind it or goes on with one of the four words |
| SqlRules.EmptiedWhereExactly | pkg/sqlrewrite/sqlrewrite.go:476-504 | of a query whose tests are all absent the WHERE is gone iff group, order, limit or having follows, or nothing follows and there was one test |
| SqlRules.ValuePositionExactly | pkg/sqlrewrite/sqlrewrite.go:281-285 | a parameter is a value iff a comparison, an open parenthesis, in, like, ilike or is stands before it |
| SqlRules.UsableExactly | pkg/sqlrewrite/sqlrewrite.go:313-337 | unusable are exactly a missing name, null, the empty string and the empty list |
| SqlRules.ListExactly | pkg/sqlrewrite/sqlrewrite.go:449-463 | a list is bound as its elements that are not null, in order |
| SqlRules.RequiredStays | pkg/sqlrewrite/sqlrewrite.go:378-381 | a required parameter without a value leaves the text before and behind it as it is |
| SqlFacts.ArgumentsAlign | pkg/sqlrewrite/sqlrewrite.go:339-446 | on any token stream without literal $n: $1..$k once each in order, k arguments, argument i the value of the parameter $i replaced |
| SqlFacts.ValuesNeverEnterText | pkg/sqlrewrite/sqlrewrite.go:20-22 | the rendered text depends on which values are present, never on what they are |
| SqlFacts.MissingIsReported | pkg/sqlrewrite/sqlrewrite.go:367-436 | a name is reported iff a required parameter of it is met in value position without a usable value or in dimension position without its key; every parameter is met, in order |
| SqlWords.WordsFuseExactly | pkg/sqlrewrite/sqlrewrite.go:384-435 | on any token stream: two words come to stand side by side on the way iff some absent parameter's comma or parenthesis is skipped that alone stood between them; when none does, the rendered text keeps its words apart |
| SqlWords.SpacedNeverFuses | pkg/sqlrewrite/sqlrewrite.go:384-435 | white space after every comma and closing parenthesis that a word follows excludes it |
| SqlWords.CommaWithoutSpaceFuses | pkg/sqlrewrite/sqlrewrite.go:421-429 | the rendered text of a phrase, an absent dimension, and a word directly behind its comma: the two words fused |
| SqlWords.ParenthesisWithoutSpaceFuses | pkg/sqlrewrite/sqlrewrite.go:384-399 | the rendered text of a test with a parenthesis behind a connector, and a word directly behind the closing parenthesis: fused |
| SqlFacts.DropKeepsPlaceholders | pkg/sqlrewrite/sqlrewrite.go:553-572 | dropping a predicate never takes a placeholder with it |
| SqlFacts.CleanKeepsPlaceholders | pkg/sqlrewrite/sqlrewrite.go:487-505 | neither does the connector clean-up |
| SqlPrune.RenderItems | pkg/sqlrewrite/sqlrewrite.go:400-436 | in a comma list of any length, with any white space around its commas, the absent dimensions go, the commas between the kept entries are right, and two words fuse iff the first kept entry begins with one directly behind its comma and entries before it went |
| SqlPrune.RenderClauses | pkg/sqlrewrite/sqlrewrite.go:350-437 | a run of clauses only appends to the text, each with its kept entries |
| SqlTests.LeftmostTest | pkg/sqlrewrite/sqlrewrite.go:522-533 | the backward search finds the leftmost match of the predicate grammar that ends the text, and nothing iff none ends it |
| SqlTests.FoundWhole | pkg/sqlrewrite/sqlrewrite.go:522-533 | at any boundary a predicate text is found as a whole iff it is a test of that grammar |
| SqlGone.FirstGoesExactly | pkg/sqlrewrite/sqlrewrite.go:382-399 | behind WHERE, for any text before and behind the absent value: nothing of the predicate is rendered, whatever comes behind it, iff the text before is a test and the predicate ends at its value |
| SqlGone.NextGoesExactly | pkg/sqlrewrite/sqlrewrite.go:382-399 | behind AND or OR: the same, and the connector goes with it |
| SqlTests.NothingGoesExactly | pkg/sqlrewrite/sqlrewrite.go:554-559 | the text is left as it was iff no test ends it |
| SqlTests.TightConnectorStays | pkg/sqlrewrite/sqlrewrite.go:533 | a connector without white space behind it is not taken along |
| SqlTests.CallKeepsItsTest | pkg/sqlrewrite/sqlrewrite.go:382-399 | in the parenthesis of a function call an absent value removes nothing but itself |
| SqlTests.PathGoesExactly | pkg/sqlrewrite/sqlrewrite.go:533 | for every path of names and dots and every operator form, `not ilike` included: found as a whole iff the path is one quoted or a wholly bare name and the operator is not `not ilike` |
| SqlWhere.DropNext | pkg/sqlrewrite/sqlrewrite.go:540-572 | dropping the next predicate takes its connector, or leaves the space after WHERE |
| SqlTests.QuotedPathHalfRemoved | pkg/sqlrewrite/sqlrewrite.go:529-533 | of any path whose last part is quoted, under any operator, only that part is dropped |
| SqlTests.NotILikeHalfRemoved | pkg/sqlrewrite/sqlrewrite.go:533 | of `x not ilike` everything before `not` stays |
| SqlStreaming.RenderPreds | pkg/sqlrewrite/sqlrewrite.go:367-399 | after a whole conjunction: the kept predicates in order, what stays of the absent ones, the debris of the leading ones, arguments in order |
| SqlStreaming.CleanKept | pkg/sqlrewrite/sqlrewrite.go:467-505 | the clean-up of a WHERE with something left behind it leaves exactly that |
| SqlStreaming.CleanEmpty | pkg/sqlrewrite/sqlrewrite.go:479-504 | an emptied WHERE disappears iff a clause keyword follows, or it ends the text with a space left |
| SqlTheorem.RenderedText | pkg/sqlrewrite/sqlrewrite.go:312-446 | the rendered text of every well-formed printed query, with any text behind its parameters, up to white space |
| SqlTheorem.WordsStayApart | pkg/sqlrewrite/sqlrewrite.go:382-435 | its words stand apart iff no list begins with absent entries and then a word directly behind its comma, and no absent test leaves a word directly behind another |
| SqlTheorem.StreamingIsPruning | pkg/sqlrewrite/sqlrewrite.go:216-244 | it equals the print of the pruned query iff no debris is left (an emptied list's keywords, a bare WHERE, text behind an absent value); the arguments are those of the kept tests in order |
| SqlExamples.CastStays | pkg/sqlrewrite/sqlrewrite.go:382-399 | `where d >= {sys.opt.p}::date` without its value is rendered as `where ::date` |
| SqlExamples.ArrayCastStays | pkg/sqlrewrite/sqlrewrite.go:382-399 | of `x = any({sys.opt.p}::text[])` everything behind the value stays, the parenthesis included |
| SqlExamples.AbsentTestsLeaveWhere | pkg/sqlrewrite/sqlrewrite.go:476-504 | two or more absent tests at the end of the text leave a bare WHERE |
| SqlExamples.EmptiedListStays | pkg/sqlrewrite/sqlrewrite.go:400-436 | a list whose only entry is an absent dimension leaves its keywords |
| SqlExamples.SecondIsAColumn | pkg/sqlrewrite/sqlrewrite.go:281-285 | the second parameter of `in (a, b)` is rendered as a quoted column and its value is not bound |
| SqlExamples.ParenthesisStays | pkg/sqlrewrite/sqlrewrite.go:382-436 | without both values the closing parenthesis stays |
| BuilderLedgers.ThreadTable.Load | services/agent-server/builder_ledger/load.go:18-53 | the stored ledger, or a new one; a schema mismatch keeps only the turn count |
| BuilderLedgers.ThreadTable.Save | services/agent-server/builder_ledger/save.go:26-57 | the row changes iff the stored version is the old one; the ledger is stamped either way |
| BuilderLedgers.ThreadTable.SaveWithRetry | services/agent-server/builder_ledger/save.go:63-83 | the row and outcome of the whole call for any writes of others around its attempts |
| LedgerEpisodes.LoadExactly | services/agent-server/builder_ledger/load.go:18-53 | what a reader gets, row by row: a current ledger as it is, of another schema only the turn count, else a new one |
| LedgerEpisodes.SaveExactly | services/agent-server/builder_ledger/save.go:26-57 | what a save stores, row by row |
| LedgerEpisodes.EpisodeExactly | services/agent-server/builder_ledger/save.go:63-83 | the first attempt that is not beaten decides: saved is the ledger passed in, or the one reapplied to what was reloaded, one version on; abandoned or in conflict, the row is what the others left |
| LedgerEpisodes.EpisodeIsRun | services/agent-server/builder_ledger/save.go:59-83 | every retrying save among any writes of others is a run of the protocol of all clients, with the same row and the same commits, ours last if it saved |
| LedgerEpisodes.EpisodeLosesNothing | services/agent-server/builder_ledger/save.go:59-83 | so with a closure that makes its change to the reloaded ledger a reader then gets every landed change in commit order |
| BuilderLedgers.LoadableCases | services/agent-server/builder_ledger/load.go:43-50 | a reader is told the version a save is checked against iff there is no ledger, the schema is current, or the version is 0 |
| BuilderLedgers.ConflictMeansProgress | services/agent-server/builder_ledger/save.go:59-83 | a conflict is reported only if at least maxRetries + 1 saves of others landed since the load |
| BuilderLedgers.StuckRowConflictsForever | services/agent-server/builder_ledger/load.go:41-50 | otherwise every retrying save conflicts and the row never changes |
| LedgerProtocol.VersionsGrowByOne | services/agent-server/builder_ledger/save.go:39-45 | in every interleaving, under any reapply, versions grow by one per commit |
| LedgerProtocol.OneWinnerPerVersion | services/agent-server/builder_ledger/save.go:39-56 | at most one save wins a version |
| LedgerProtocol.NoLostUpdate | services/agent-server/builder_ledger/save.go:59-83 | when reapply builds on the reloaded ledger, the stored ledger is the winners' changes folded in commit order |
| LedgerProtocol.NoLostUpdateExactly | services/agent-server/builder_ledger/save.go:63-83 | updates are never lost in any run iff reapply builds on the reloaded ledger |
| LedgerProtocol.KeepDraftLosesUpdates | services/agent-server/handler/handler_agent_lakehouse.go:637-646 | the builder turn's closure loses an update in some run |
| LedgerProtocol.CanCommit | services/agent-server/builder_ledger/load.go:41-50 | some client can commit iff a reader of the row is told the version that is checked |
| Pivot.BucketRows | services/agent-server/handler/handler_agent_lakehouse.go:4010-4025 | buckets in order of first appearance, the latest value per pivot value, and the observed pivot values |
| Pivot.OrderLabels | services/agent-server/handler/handler_agent_lakehouse.go:4077-4105 | one column per label, whitelist first, then the sorted extras |
| PivotTable.LabelExactly | services/agent-server/handler/handler_agent_lakehouse.go:4039-4047 | a value is headed by the first label that is set and stands at a value equal to it up to case, and by itself if there is none |
| PivotTable.CandidatesExactly | services/agent-server/handler/handler_agent_lakehouse.go:4027-4037 | the candidates are the configured values in their order and then, ascending, the observed ones equal to none of them up to case; or all observed ones ascending |
| PivotTable.ColumnOrder | services/agent-server/handler/handler_agent_lakehouse.go:4077-4105 | a column stands where the first candidate of its label stands |
| PivotTable.TableExactly | services/agent-server/handler/handler_agent_lakehouse.go:4010-4135 | a row per key in the order of first appearance, with the dimension values of the first long row of the key, in each cell the metric of the last long row of its key and value or zero, and the sum of its cells |
| Pivot.BuildWide | services/agent-server/handler/handler_agent_lakehouse.go:4107-4135 | a row per bucket; row totals, column totals and grand total are the sums of the table's cells |
| Pivot.DropZeroRows | services/agent-server/handler/handler_agent_lakehouse.go:4137-4165 | keeps the rows with a non-zero total in order |
| Pivot.RowPercents | services/agent-server/handler/handler_agent_lakehouse.go:4232-4250 | each cell's rounded share of its row or of its column |
| Pivot.SortAndLimit | services/agent-server/handler/handler_agent_lakehouse.go:4275-4309 | the first rows in sorted order, as many as the limit allows |
| PivotFacts.Conservation | services/agent-server/handler/handler_agent_lakehouse.go:4010-4135 | for all inputs the grand total is the sum of exactly the rows that have a column and are not replaced |
| PivotFacts.ConservedExactly | services/agent-server/handler/handler_agent_lakehouse.go:4010-4135 | for non-negative metrics the long total is conserved iff every non-zero row has a column and is not replaced |
| PivotFacts.SourcesSpec | services/agent-server/handler/handler_agent_lakehouse.go:4077-4105 | no two columns share a label or a pivot value, and the label of every candidate has a column |
| PivotFacts.ShownExactly | services/agent-server/handler/handler_agent_lakehouse.go:4073-4105 | for every configuration: an observed value has a column iff it is configured or matches no configured value up to case, and no earlier candidate has its label |
| PivotFacts.SharedLabelHides | services/agent-server/handler/handler_agent_lakehouse.go:4085-4105 | of several candidates with one label the later ones have no column |
| PivotFacts.PivotConservesExactly | services/agent-server/handler/handler_agent_lakehouse.go:3975-4165 | end to end, for non-negative metrics: the kept rows sum to the long total iff every non-zero row has a column for its pivot value and is not replaced |
| PivotFacts.PivotConserves | services/agent-server/handler/handler_agent_lakehouse.go:3975-4165 | for metrics of either sign: under one row per cell, distinct labels and exact-case hits, the kept rows sum to the long total |
| PivotFacts.ZeroRowsCarryNothing | services/agent-server/handler/handler_agent_lakehouse.go:4137-4165 | dropping zero rows keeps the sum and every other row |
| PivotTable.NonZeroExactly | services/agent-server/handler/handler_agent_lakehouse.go:4137-4165 | the rows kept are exactly those with a non-zero total, in order |
| PivotFacts.RowsAndColumnsAgree | services/agent-server/handler/handler_agent_lakehouse.go:4113-4120 | the column totals sum to the grand total |
| PivotFacts.SortIsStable | services/agent-server/handler/handler_agent_lakehouse.go:4281-4283 | the order is a permutation, descending by total, ties in input order |
| PivotFacts.LimitKeepsTheBest | services/agent-server/handler/handler_agent_lakehouse.go:4299-4309 | no row cut off beats a row that is kept |
| PivotFacts.RoundingError | services/agent-server/handler/handler_agent_lakehouse.go:4475-4478 | a non-negative percentage moves by at most 0.005 |
| PivotFacts.RoundingExactly | services/agent-server/handler/handler_agent_lakehouse.go:4475-4478 | a percentage moves by at most 0.005 iff it is at least -0.005 or lies halfway between two hundredths |
| PivotFacts.RoundedExactly | services/agent-server/handler/handler_agent_lakehouse.go:4475-4478 | a whole number of hundredths: the nearest, the larger when halfway, from -0.005 on |
| PivotFacts.SharesSumTo100 | services/agent-server/handler/handler_agent_lakehouse.go:4232-4272 | k rounded shares of a positive whole sum to within 0.005*k of 100 |
| PivotKeys.KeysDistinguish | services/agent-server/handler/handler_agent_lakehouse.go:4002-4008 | a tuple without a separator in a value, or a bar where one meets a separator, is told apart by its key from every other tuple |
| PivotKeys.KeysCollide | services/agent-server/handler/handler_agent_lakehouse.go:4002-4008 | and every tuple with one shares its key with another: an if and only if over all tuples |
| PgArray.StringsSliceToPgArray | pkg/httputil/httputil.go:209-220 | the loop prints every element quoted, between braces |
| PgArray.ParsePgTextArray | pkg/httputil/httputil.go:139-206 | the index loop computes Parse, for quoted, unquoted and malformed literals |
| PgArray.TwoPassEscape | pkg/httputil/httputil.go:214-217 | doubling backslashes and then escaping quotes escapes each character once |
| PgArray.RoundTrip | pkg/httputil/httputil.go:136-220 | parsing a printed array gives it back without its "" and "NULL" elements |
| PgArray.RoundTripExact | pkg/httputil/httputil.go:195-200 | the round trip is the identity iff there are none |
| PgArray.ReadsAnyLiteral | pkg/httputil/httputil.go:136-206 | of any literal in braces, quoted and unquoted elements mixed, with white space around it, the elements are read in order but for empty ones and NULL |
| PgArray.ReadsNothingElse | pkg/httputil/httputil.go:139-143 | text that is not in braces gives nothing |
| BraceMatch.FindMatchingBrace | pkg/llmclient/toolcall.go:509-543 | the index of the closing brace, or -1 |
| BraceMatch.BracesExactly | pkg/llmclient/toolcall.go:509-543 | in text without strings, the first closing brace that brings the count of braces to zero, or none |
| BraceMatch.MatchesPrintedObject | pkg/llmclient/toolcall.go:509-543 | on any printed JSON object followed by anything, the last index of the object |
| BraceMatch.ExtractBareToolCall | pkg/llmclient/toolcall.go:480-507 | the first balanced object the decoder accepts, stopping at an unbalanced brace |
| BraceMatch.FindsCallExactly | pkg/llmclient/toolcall.go:472-507 | after any prose: a printed call is the one found, whole and with the prose before it, iff every open brace of the prose closes and encloses no call |
| BraceMatch.FindsPrintedCall | pkg/llmclient/toolcall.go:472-507 | so always after prose without open braces |
| BraceMatch.StrayBraceHidesCall | pkg/llmclient/toolcall.go:485-488 | an open brace before the call that nothing closes makes the search miss the call |

## Left out

- Databases, HTTP, streaming, language-model calls, tracing and prompts. A database row is a value, and what
  other requests write between two accesses is a parameter of `SaveWithRetry`. Database errors and marshalling
  errors are not modelled.
- Task and mission fields that no transition reads: dispatches, recall, decomposition, reachability, ids of the
  mission, thread and project, timestamps. A nil mission is not modelled.
- A task status outside the five named ones, which a stored mission could hold.
- The trivial one-task mission, coverage and reachability checks, and persistence of missions.
- StreamingIsPruning: is stated for comma lists and one flat AND WHERE, with one parameter to a predicate, a test in
  the sense of FirstGoesExactly before it and any other text behind it, and with all required parameters present; OR,
  optional predicates under HAVING and ON, nested queries and several WHEREs are covered only by the theorems on
  token streams.
- FirstGoesExactly: and NextGoesExactly are about one parameter; the text behind it holds no other one, and no WHERE
  of its own behind the first.
- WordsFuseExactly: is about bare words, keywords, numbers and placeholders; a quoted identifier next to a word needs no
  space. Text that has fused is still taken token by token afterwards, where the original would read one word.
- The Go regular expressions of the rewriter are conditions on lexical tokens; letter case folding beyond ASCII,
  form feeds inside white space, and text that does not split into the modelled tokens are not captured.
- `RejectDDL`, name extraction, CTE prefixes, limits and `{{name}}` placeholders.
- The connection between the aliasing of a reapplied ledger with the one passed in: `SaveWithRetry` saves a copy
  of what reapply returns, so the second stamping of a shared pointer is not visible.
- Field copying in ledger merges and rendering; a turn's change is an arbitrary function.
- Floating point: the pivot computes over exact reals. The choice of intent and of the metric column, parsing of
  the result rows, the global percent scope, the summary block and JSON output are left out, and a row's
  dimension values are their printed forms.
- EqualFold: case-insensitive comparison is equality of a folding given as a parameter.
- JSON decoding of an analysis pattern, and everything in it but its features and whether it has a template.
- JSON decoding of a tool-call candidate, with its key filter, is a function parameter.
- Mutual exclusion in the feature ledger: one turn owns a ledger, so the lock is not modelled.
