# AgentMod core: a verified model

AgentMod's `core/` crates hold the deterministic machinery of an agent runtime: a compiler for
orchestration graphs, a constrained condition language, an interception pipeline whose handlers are
put in a canonical order, a bounded observer queue, and the framing and grant tokens of its wire
protocol. The prototype's `chat-context` plugin adds the loop that turns model responses and tool
results into the next model request. This project models those parts in Dafny and proves what they
are for.

| file | what it holds |
|---|---|
| `Sorting.dfy`, `Ordered.dfy`, `Text.dfy`, `Digraph.dfy` | sorting, identifiers in order, text measures, walks, cycles, indegree counting |
| `GraphModel.dfy`, `GraphConditions.dfy`, `GraphContracts.dfy`, `GraphCycles.dfy`, `GraphParallel.dfy`, `GraphWrites.dfy`, `GraphOwnership.dfy` | the compiler passes as loops, each proved to decide a declarative condition |
| `GraphRegions.dfy` | what the parallel condition means for walks and for interleaved writes |
| `GraphCompiler.dfy`, `GraphGuarantees.dfy`, `GraphEntryInside.dfy`, `GraphLaws.dfy` | the whole compiler, what acceptance guarantees of a definition, what it does not, and verdict and output in terms of declared fields |
| `Recognisers.dfy`, `RecogniserLaws.dfy` | timestamps and JSON pointers, the calendar behind them, and examples of the two standards |
| `Expression.dfy`, `ExpressionParser.dfy`, `ExpressionGrammar.dfy`, `ExpressionUnambiguity.dfy`, `ExpressionEvaluation.dfy` | the condition language: parser object, grammar, unique readability, evaluator |
| `ExpressionMeaning.dfy`, `ExpressionLaws.dfy` | what conditions mean: derivations of results, stated apart from the evaluator, and laws from written tokens to values |
| `HandlerDiagnostics.dfy`, `HandlerReport.dfy`, `HandlerOrder.dfy`, `HandlerLaws.dfy`, `Pipeline.dfy` | declaration faults and their sorted report, the handler-order compiler, its order in terms of declared fields, and the blocking pipeline |
| `Observer.dfy`, `ObserverAnswers.dfy` | the observer dispatcher as a transition system, and what each back-pressure policy answers |
| `Frames.dfy`, `Authorization.dfy` | frames and grant tokens |
| `ChatContext.dfy`, `ChatLaws.dfy` | the agent loop, and what happens to each tool call over a whole run |

`dafny verify dfyconfig.toml` checks the whole project.

The main results:

* The parser returns an expression exactly when the tokens derive it within the limits, its image is
  exactly the set of expressions within the limits, printing with minimal parentheses followed by
  parsing is the identity, and no token list has two derivations.
* The evaluator returns exactly the result that derivations, which use neither its functions nor its
  comparison, yield for an expression; connectives short-circuit, and a skipped side's error is ignored.
* The handler compiler fails exactly on cyclic constraints, reports a genuine closed cycle, and
  otherwise returns the one greedy order; the order of registration changes neither the order, nor
  the reported cycle, nor the printed report of declaration faults.
* An accepted graph has no dead node, its executions within the loop bounds are finite with an
  explicit bound, its parallel branches are single-entry single-exit regions that do not race,
  shared variables are merged by exactly one parallel node, and in a graph that opts into variables
  no condition depends on anything but the runtime roots and the declared reads.
* In every interleaving of the observer queue no wake-up is lost, every run ends, every event is
  accounted for, and under the blocking policy every dispatched event reaches the observer once;
  without blocking no caller is ever suspended, and every caller is told what became of its event.
* A pipeline's report is exactly what the handlers' answers and the declared policies determine, and
  every tool call of a fresh turn is dispatched once if accepted and rejected once if not.
* Sealing succeeds exactly on allowed claims; what it seals verifies for its own request in its time,
  and a token is accepted exactly when it carries allowed, timely claims under the key.

Five promises fail in corner cases. Each has a failing input and a condition on the inputs that says
exactly when it holds:

* A grant's lifetime limit fails exactly when the 64-bit subtraction overflows.
* Some handler behaviour makes a pipeline end in a decision that its action does not support exactly
  when a registration has the Cancel failure policy and the capability is missing.
* Executions of an accepted graph enter a parallel node's branches and join only through that node
  and a head exactly when the entry lies outside them; the compiler accepts entries inside.
* The sorted diagnostics for badly declared handlers are independent of the registration order exactly
  when no two different faults print alike; handler names that contain the printed text clash.
* Every event that asks the model to go on answers the last open call of the latest turn, rejects a
  whole response, is a late first failure of a call outside an answered latest turn, or is a first
  result that arrives while the latest turn has no calls. A batch is asked for exactly once by its own
  reports; the two late cases ask again, and both are reached from an empty session.

## Model

| member | source | states |
|---|---|---|
| GraphModel.CollectNodes | core/graph-engine/src/lib.rs:1347-1359 | succeeds exactly when node ids are unique; the map then holds exactly the listed nodes under their own ids |
| GraphModel.ValidateEdges | core/graph-engine/src/lib.rs:2068-2105 | succeeds exactly when every end is a known node and no edge is listed twice |
| GraphModel.Adjacency | core/graph-engine/src/lib.rs:2107-2123 | the successor sets have an edge exactly where the definition has one |
| GraphModel.Reverse | core/graph-engine/src/lib.rs:2125-2137 | has the edge b to a exactly where the graph has a to b |
| GraphModel.ReachableFrom | core/graph-engine/src/lib.rs:2139-2154 | the traversal's result is exactly the set of nodes some walk reaches from the start |
| GraphModel.ValidateEntryAndReachability | core/graph-engine/src/lib.rs:2156-2177 | accepts exactly when the entry exists and a walk leads from it to every node |
| GraphModel.ReachingAny | core/graph-engine/src/lib.rs:2196-2217 | the union of backward traversals is exactly the set of nodes with a walk to some terminal |
| GraphModel.ValidateTermination | core/graph-engine/src/lib.rs:2179-2217 | accepts exactly when a terminal exists, no terminal has a successor and every node can reach a terminal |
| GraphModel.EveryNodeIsUseful | core/graph-engine/src/lib.rs:2156-2217 | after both checks every node lies on a walk from the entry to a terminal |
| GraphConditions.ParseCondition | core/graph-engine/src/lib.rs:3734-3747 | succeeds exactly when the text is absent or lexes and parses within the limits, with that expression |
| GraphConditions.ValidateEdgeConditions | core/graph-engine/src/lib.rs:2316-2322 | succeeds exactly when the conditions of all edges parse |
| GraphConditions.ReadIsWithinLimits | core/graph-engine/src/lib.rs:3734-3747 | a condition that parses is an expression within every limit |
| GraphConditions.ValidateAccess | core/graph-engine/src/lib.rs:1924-1962 | accepts exactly when the condition parses and, in a graph that opted into variables, every root is a runtime root or a declared read of a declared variable |
| GraphCycles.ValidateLoopBound | core/graph-engine/src/lib.rs:2240-2255 | accepts exactly a loop node with a positive bound within the limit or another node with none, and says which rule failed |
| GraphContracts.ValidateConfiguration | core/graph-engine/src/lib.rs:2845-2912 | accepts exactly a parallel configuration with positive, bounded parallelism and queue depth and a join as target, or a join configuration with disjoint members, a feasible threshold and a positive timeout, each on a node of its kind |
| GraphContracts.ValidateContracts | core/graph-engine/src/lib.rs:2239-2325 | accepts exactly when every node's loop bound, parallel or join configuration and condition, and every edge's condition, are good |
| GraphCycles.CountIncoming | core/graph-engine/src/lib.rs:3749-3778 | every count is the number of loop-free predecessors |
| GraphCycles.SortLoopFree | core/graph-engine/src/lib.rs:3779-3797 | the nodes processed form a forward listing, counts stay exact, and nothing ready is left |
| GraphCycles.ValidateCycles | core/graph-engine/src/lib.rs:3749-3807 | accepts exactly the graphs in which every directed cycle contains a Loop node; the nodes it reports otherwise hold a cycle and no Loop node |
| GraphCycles.LoopedIffLoopFreeAcyclic | core/graph-engine/src/lib.rs:3749-3807 | cycles are all looped if and only if the graph without its loop nodes has no cycle |
| GraphCycles.StretchBound | core/graph-engine/src/lib.rs:3749-3807 | a walk with L loop visits has at most L + (L+1)·N nodes |
| GraphCycles.IterationsBoundWalks | core/graph-engine/src/lib.rs:3749-3807 | a walk visiting each loop node at most its bound has at most S + (S+1)·N nodes |
| GraphParallel.OutgoingEdges | core/graph-engine/src/lib.rs:3821-3825 | lists each edge leaving the parallel node exactly once |
| GraphParallel.ValidateFanOut | core/graph-engine/src/lib.rs:4058-4093 | accepts exactly unconditional, labelled branch edges with distinct labels and distinct targets other than the join; returns the labels |
| GraphParallel.ValidateJoin | core/graph-engine/src/lib.rs:4005-4124 | accepts exactly when there are at least two branches within the capacity and the fan-out agrees with the join's members, policy and threshold |
| GraphParallel.FanOutByFields | core/graph-engine/src/lib.rs:4005-4124 | a serialized node has two to 1 + queue depth branches and another one two to parallelism + queue depth; the labels are exactly the required and optional members; All demands no optional member and as many successes as branches, MinimumSuccess the same failure rule in the join |
| GraphParallel.ParallelBranchRegion | core/graph-engine/src/lib.rs:4184-4222 | returns exactly the nodes reachable from the branch head without passing the join, and fails exactly when some of them completes the turn or session or ends without being a failure |
| GraphParallel.FirstShared | core/graph-engine/src/lib.rs:4140-4150 | finds no shared element exactly when the sets are pairwise disjoint, and otherwise one that two of them share |
| GraphParallel.CheckRegionEntries | core/graph-engine/src/lib.rs:4157-4171 | holds exactly when every edge into the region comes from inside, or from the parallel node into the head |
| GraphParallel.CheckJoinEntries | core/graph-engine/src/lib.rs:4172-4180 | holds exactly when every edge into the join comes from a region |
| GraphParallel.ValidateParallelTopology | core/graph-engine/src/lib.rs:3997-4182 | accepts exactly the well-formed parallel nodes, and then returns their regions |
| GraphRegions.RegionsExitToJoin | core/graph-engine/src/lib.rs:4184-4222 | every edge leaving a region goes to the join |
| GraphRegions.HeadsAndJoinsAreOutside | core/graph-engine/src/lib.rs:3997-4182 | no region of an accepted parallel node contains that node or its join |
| GraphRegions.RegionsEndOnlyInFailure | core/graph-engine/src/lib.rs:4184-4222 | the only terminal members of a region are Fail nodes |
| GraphRegions.SingleEntry | core/graph-engine/src/lib.rs:4136-4182 | a walk from outside reaches a region member only through the parallel node and that branch's own head, and has stayed inside since |
| GraphRegions.JoinAfterBranch | core/graph-engine/src/lib.rs:4136-4182 | a walk from outside reaches the join only through the parallel node and one whole branch |
| GraphRegions.SingleExit | core/graph-engine/src/lib.rs:4184-4222 | a walk that starts in a region stays there until it visits the join |
| GraphRegions.OwnerDecides | core/graph-engine/src/lib.rs:3847-3865 | a scope written by one branch only ends with the value that branch's own writes leave |
| GraphRegions.InterleavingIsIrrelevant | core/graph-engine/src/lib.rs:3847-3865 | when branches write different scopes, two interleavings with the same writes per branch end in the same scope map |
| GraphWrites.CollectVariables | core/graph-engine/src/lib.rs:1361-1374 | succeeds exactly when variable names are unique |
| GraphWrites.ValidateVariable | core/graph-engine/src/lib.rs:1415-1502 | accepts exactly when the producer is the runtime or an existing writer, every contributor is another writer of a mutable, merged, run- or session-scoped variable, every consumer exists, a merged variable is mutable and not branch-scoped, and a node-scoped one is consumed by its producer only |
| GraphWrites.ValidateNodeWrites | core/graph-engine/src/lib.rs:1525-1541 | accepts exactly when each written variable is declared and names the node as producer or contributor |
| GraphWrites.ValidateNodeReads | core/graph-engine/src/lib.rs:1511-1524 | accepts exactly when each read variable is declared and names the node as a consumer |
| GraphWrites.ValidateNodeAccess | core/graph-engine/src/lib.rs:1510-1550 | reads, writes and condition of one node, in that order |
| GraphWrites.ValidateEdgeAccess | core/graph-engine/src/lib.rs:1552-1566 | accepts exactly when every edge condition is confined by what its source node declares to read |
| GraphWrites.ValidateVariables | core/graph-engine/src/lib.rs:1389-1567 | accepts exactly when declarations, reads, writes and the conditions of nodes and edges are all good |
| GraphWrites.WritersAreProducerAndContributors | core/graph-engine/src/lib.rs:1423-1541 | after the check the nodes writing a variable are exactly its node producer and its contributors |
| GraphWrites.SharedWritesAreMerged | core/graph-engine/src/lib.rs:1436-1486 | a variable written by two nodes has a declared merge policy |
| GraphWrites.CheckScopes | core/graph-engine/src/lib.rs:3847-3865 | finds no shared scope exactly when the regions of different branches write disjoint scopes |
| GraphParallel.CollectFrom | core/graph-engine/src/lib.rs:4248-4290 | the declaration traversal collects exactly what the members of the branch region declare |
| GraphWrites.CheckVariableConflicts | core/graph-engine/src/lib.rs:3866-3890 | never reports a conflict once writers and topology are validated |
| GraphWrites.ValidateParallelNode | core/graph-engine/src/lib.rs:3809-3904 | accepts exactly good topology, disjoint scopes unless serialized, and merge policies for declared variables; never returns the variable conflict error |
| GraphOwnership.OccupyDistinctRegions | core/graph-engine/src/lib.rs:3946-3953 | holds exactly when every writer lies in a region and no region holds two |
| GraphOwnership.OwnersOf | core/graph-engine/src/lib.rs:3918-3963 | lists exactly the parallel nodes over whose branches the writers spread, each once |
| GraphOwnership.ValidateOwnership | core/graph-engine/src/lib.rs:3906-3994 | accepts exactly when each variable with contributors has one such parallel node and its configured policy is the declared one |
| GraphOwnership.WriterDiscipline | core/graph-engine/src/lib.rs:3906-3994 | two writers of a variable lie in different branches of the only owning parallel node, which merges by the declared policy |
| GraphCompiler.Compile | core/graph-engine/src/lib.rs:1161-1247 | accepts exactly the acceptable definitions, emits their canonical executable with parsed conditions, and never returns ConflictingParallelVariableWrites |
| GraphCompiler.EmitGraph | core/graph-engine/src/lib.rs:1181-1247 | sorting, numbering and the two translation loops give the sorted lists numbered and renamed |
| GraphCompiler.NumberNodes | core/graph-engine/src/lib.rs:1183-1187 | the index map gives every id its position in the sorted list |
| Sorting.SortIsStrict | core/graph-engine/src/lib.rs:1181-1218 | sorting a list whose different elements are ordered gives a strictly ascending permutation |
| Sorting.StrictArrangementIsUnique | core/graph-engine/src/lib.rs:1181-1218 | the same elements have only one strictly ascending arrangement |
| Sorting.AscendingArrangementIsUnique | core/event-pipeline/src/compiler.rs:428-430 | elements that may repeat have one ascending arrangement when different elements are ordered |
| Sorting.SortIsStable | core/event-pipeline/src/compiler.rs:428-430 | sorting keeps the order of elements that are not ordered among each other |
| Sorting.SortIgnoresOrder | core/graph-engine/src/lib.rs:1181-1218 | permuting such a list does not change its sort |
| GraphCompiler.SourceOrderIsIrrelevant | core/graph-engine/src/lib.rs:1181-1247 | permuting nodes, edges or variables changes neither acceptance nor the executable |
| GraphCompiler.CompilationIsFaithful | core/graph-engine/src/lib.rs:1181-1247 | node i has index i, ids ascend, and reading the executable back gives the definition's nodes, edges, variables and entry as multisets, with conditions parsed |
| GraphLaws.EdgesAreEmittedInOrder | core/graph-engine/src/lib.rs:1213-1232 | the emitted edges join the nodes carrying the names the definition gives, each edge once, by source, target, label and condition text, absent texts first |
| GraphLaws.NodesAreEmittedInOrder | core/graph-engine/src/lib.rs:1181-1247 | nodes and variables are the definition's, each once, by name, and the entry index finds the entry node |
| GraphLaws.ConditionByPaths | core/graph-engine/src/lib.rs:1924-1997 | in a graph that opted into variables a condition is accepted exactly when it parses and every path in it starts with one of the six runtime names or a declared variable the owner reads |
| GraphGuarantees.NothingIsDead | core/graph-engine/src/lib.rs:1161-1247 | in every accepted definition each node lies on a walk from the entry to a terminal |
| GraphGuarantees.ExecutionsAreFinite | core/graph-engine/src/lib.rs:1161-1247 | in every accepted definition an execution within the declared loop bounds visits at most S + (S+1)·N nodes |
| GraphGuarantees.LoopsAreBounded | core/graph-engine/src/lib.rs:2240-2255 | in every accepted definition exactly the loop nodes carry a bound, positive and within the limit |
| GraphGuarantees.BranchesAreEnteredAtTheirHead | core/graph-engine/src/lib.rs:1161-1247 | in every accepted definition executions from outside enter a branch only by its parallel node and head |
| GraphGuarantees.SingleEntryIffEntryOutside | core/graph-engine/src/lib.rs:3997-4182 | in an accepted definition every execution reaches the branches and the join of a parallel node only through that node and a head if and only if the entry is outside them |
| GraphEntryInside.EntryInsideIsAccepted | core/graph-engine/src/lib.rs:1161-1247 | for any six different names, a repeated parallel node entered inside its first branch is accepted, and single entry fails for its executions |
| GraphEntryInside.NamedEntryInsideIsAccepted | core/graph-engine/src/lib.rs:1161-1247 | one such definition, by name |
| GraphGuarantees.BranchesDoNotRace | core/graph-engine/src/lib.rs:3809-3904 | in every accepted definition the interleaving of unserialized branches' scope writes does not change the scopes |
| GraphGuarantees.SharedVariablesAreMerged | core/graph-engine/src/lib.rs:3906-3994 | in every accepted definition two writers of a variable lie in different branches of its one merging parallel node |
| GraphGuarantees.NodeScopedIsPrivate | core/graph-engine/src/lib.rs:1837-1862 | in an accepted definition only the producing node reads or writes its node-scoped variable |
| GraphGuarantees.NodeConditionsAreConfined | core/graph-engine/src/lib.rs:1924-1997 | in an accepted definition that opts into variables a node's condition depends only on the six runtime roots and that node's declared reads |
| GraphGuarantees.EdgeConditionsAreConfined | core/graph-engine/src/lib.rs:1552-1566 | likewise for an edge's condition and its source node's declared reads |
| Recognisers.IsRfc3339Timestamp | core/graph-engine/src/lib.rs:3539-3601 | accepts exactly the printed forms of valid field tuples of section 5.6 of RFC 3339 with uppercase T and Z, second 60 at any minute |
| Recognisers.DecimalComponent | core/graph-engine/src/lib.rs:3603-3610 | succeeds exactly on an in-range slice of digits, which is then the fixed-width decimal form of the result |
| Recognisers.ValidateTimestamp | core/graph-engine/src/lib.rs:3524-3537 | adds the length bound |
| Recognisers.TimestampIsUnambiguous | core/graph-engine/src/lib.rs:3539-3622 | no two valid timestamps print alike |
| RecogniserLaws.CycleLength | core/graph-engine/src/lib.rs:3612-3622 | any 400 years have 146097 days |
| RecogniserLaws.YearLength | core/graph-engine/src/lib.rs:3612-3622 | a year has 366 days exactly when divisible by 400, or by 4 and not by 100, and 365 otherwise |
| RecogniserLaws.DayIsAccepted | core/graph-engine/src/lib.rs:3539-3622 | the first to the last day of each month, and no other, are accepted |
| RecogniserLaws.TimeIsAccepted | core/graph-engine/src/lib.rs:3539-3601 | a time of day is accepted exactly up to hour 23, minute 59, second 60 |
| RecogniserLaws.OffsetIsAccepted | core/graph-engine/src/lib.rs:3539-3601 | an offset is accepted exactly up to 23:59, on either side |
| RecogniserLaws.ComponentWeights | core/graph-engine/src/lib.rs:3603-3610 | components of two and four digits are read by decimal weight |
| RecogniserLaws.PublishedTimestamp | core/graph-engine/src/lib.rs:3539-3601 | an example of section 5.8 of RFC 3339 is the printed form of its fields |
| Recognisers.ValidEscapes | core/graph-engine/src/lib.rs:3514-3522 | holds exactly when every tilde starts one of the two escapes |
| Recognisers.ValidateJsonPointer | core/graph-engine/src/lib.rs:3487-3512 | accepts exactly the empty pointer and the bounded, control-free strings printed from reference-token lists by section 3 of RFC 6901 |
| Recognisers.TokensReadBack | core/graph-engine/src/lib.rs:3514-3522 | printed reference tokens are well escaped and read back unchanged |
| Recognisers.PointerIsUnambiguous | core/graph-engine/src/lib.rs:3487-3522 | two token lists never print to the same pointer |
| RecogniserLaws.PublishedPointers | core/graph-engine/src/lib.rs:3487-3522 | examples of section 5 of RFC 6901 are the printed forms of their tokens |
| ExpressionParser.Parser.ParseOr | core/expression-engine/src/lib.rs:537-547 | the loop reads what the reading function reads, moving cursor and node counter to the same place |
| ExpressionParser.Parser.ParseAnd | core/expression-engine/src/lib.rs:548-557 | as above, one level tighter |
| ExpressionParser.Parser.ParseUnary | core/expression-engine/src/lib.rs:558-567 | as above, with the recursion-depth guard |
| ExpressionParser.Parser.ParsePrimary | core/expression-engine/src/lib.rs:568-605 | as above, for groups, existence tests and comparisons |
| ExpressionParser.Parser.ParseOperand | core/expression-engine/src/lib.rs:606-633 | as above, for literals and paths |
| ExpressionParser.Parser.ParsePath | core/expression-engine/src/lib.rs:634-678 | as above, with the segment limit and index range |
| ExpressionParser.Parser.CountNode | core/expression-engine/src/lib.rs:679-689 | counts one node and fails past the limit |
| ExpressionParser.ParseExpression | core/expression-engine/src/lib.rs:72-98 | parsing through the object agrees with the reading function, trailing input and depth check included; no read is past the end marker |
| ExpressionGrammar.ReadsOr | core/expression-engine/src/lib.rs:533-738 | a derivation within the limits is read in full: its expression, the position after its tokens, the counter advanced by its size |
| ExpressionGrammar.OrSound | core/expression-engine/src/lib.rs:533-738 | whatever is read has a derivation: same tokens, same expression, counter equal to the syntax size, within depth, node and path limits |
| ExpressionGrammar.ParserDecidesGrammar | core/expression-engine/src/lib.rs:72-98 | the parser returns e exactly when some derivation of the tokens within the limits denotes e |
| ExpressionGrammar.MinimalFitsDepth | core/expression-engine/src/lib.rs:690-698 | minimal parentheses never need more recursion than the expression is deep, so the guard is not tripped |
| ExpressionGrammar.RoundTrip | core/expression-engine/src/lib.rs:72-98 | printing an expression within the limits with minimal parentheses and parsing gives it back |
| ExpressionGrammar.ImageIsWithinLimits | core/expression-engine/src/lib.rs:84-92 | the parser's image is exactly the expressions within the limits |
| ExpressionUnambiguity.Unique | core/expression-engine/src/lib.rs:533-605 | from one position at most one derivation of a level is spelled that the next token does not extend |
| ExpressionUnambiguity.GrammarIsUnambiguous | core/expression-engine/src/lib.rs:533-605 | a token list has at most one derivation, parentheses included, whatever the limits |
| ExpressionEvaluation.LookupPath | core/expression-engine/src/lib.rs:849-858 | the loop follows the path segment by segment as the recursive lookup does |
| ExpressionMeaning.LookupLeads | core/expression-engine/src/lib.rs:849-858 | the lookup finds exactly the value that a chain of children along the path leads to |
| ExpressionMeaning.EvaluationIsDerivation | core/expression-engine/src/lib.rs:768-906 | an expression evaluates to r if and only if some valid derivation yields r: operands by the chain their path follows, the six comparisons by integer or text order, negation, and connectives that need the right side only when the left does not decide |
| ExpressionMeaning.ConnectivesMean | core/expression-engine/src/lib.rs:776-792 | a conjunction is true exactly when both sides are and a disjunction false exactly when both are; a deciding left side hides the right one, and a failing left side is the result |
| ExpressionLaws.ComparisonsMean | core/expression-engine/src/lib.rs:72-98 | each of the six signs between two integers, parsed and evaluated, is that comparison |
| ExpressionLaws.PrecedenceMeans | core/expression-engine/src/lib.rs:537-567 | a &#124;&#124; b && !c, parsed and evaluated, is a or (b and not c) |
| ExpressionLaws.ParenthesesMean | core/expression-engine/src/lib.rs:568-605 | (a &#124;&#124; b) && c is (a or b) and c |
| ExpressionLaws.ReadyWithRetriesLeft | core/expression-engine/src/lib.rs:72-98 | session.ready && retries < n is true exactly of a ready session with fewer than n retries |
| ExpressionEvaluation.RootsArePathStarts | core/graph-engine/src/lib.rs:1964-1990 | a key is a collected root exactly when some path of the expression starts with it |
| ExpressionEvaluation.EvaluationReadsOnlyRoots | core/expression-engine/src/lib.rs:768-894 | environments that agree on the collected roots give the same value or the same error |
| ExpressionEvaluation.ValidateAccess | core/graph-engine/src/lib.rs:1947-1961 | the loop over the roots accepts exactly when all are allowed, and otherwise reports the first offending root and why |
| ExpressionEvaluation.AcceptedConditionIsConfined | core/graph-engine/src/lib.rs:1924-1997 | an accepted condition depends only on the six runtime roots and the node's declared reads |
| HandlerDiagnostics.CountHandlers | core/event-pipeline/src/compiler.rs:261-264 | every known handler with its number of registrations |
| HandlerDiagnostics.DeclarationDiagnostics | core/event-pipeline/src/compiler.rs:259-296 | collects exactly the duplicate handlers with their counts and the missing dependencies, duplicates by handler and then missing entries by registration, each as often as declared |
| HandlerReport.ReportIsFaults | core/event-pipeline/src/compiler.rs:297-300 | the sorted report holds exactly the declaration faults, as often as collected |
| HandlerLaws.ReportByFields | core/event-pipeline/src/compiler.rs:428-430 | repeated registrations are reported before missing handlers, each kind in the order of the printed texts |
| HandlerLaws.PrintedMissing | core/event-pipeline/src/compiler.rs:181-213 | the printed text of a missing dependency |
| HandlerLaws.PrintedDuplicate | core/event-pipeline/src/compiler.rs:181-213 | the printed text of a repeated registration |
| HandlerReport.PrintedReportIsStable | core/event-pipeline/src/compiler.rs:428-430 | permuted registrations print the same report |
| HandlerReport.ReportIsStableIff | core/event-pipeline/src/compiler.rs:428-430 | the sorted report is the same for every registration order if and only if no two different faults print alike |
| HandlerReport.ClashingReportDependsOnOrder | core/event-pipeline/src/compiler.rs:181-213 | concrete handlers whose faults print alike and whose report depends on the registration order |
| HandlerOrder.AddEdge | core/event-pipeline/src/compiler.rs:363-375 | adds exactly one edge and keeps every indegree exact |
| HandlerOrder.BuildGraph | core/event-pipeline/src/compiler.rs:306-321 | the adjacency built is exactly the declared constraint graph, with exact indegrees |
| HandlerOrder.PlaceHandlers | core/event-pipeline/src/compiler.rs:323-346 | the placed handlers form a greedy prefix that cannot be extended, with exact remaining indegrees |
| HandlerOrder.FindCycle | core/event-pipeline/src/compiler.rs:386-426 | returns the path the ordered search determines: a genuine closed cycle among the unresolved handlers, or the fallback list exactly when they hold none |
| HandlerOrder.CompileOrder | core/event-pipeline/src/compiler.rs:259-361 | compiles to a greedy order of all handlers, or returns the sorted report of exactly the declaration faults, or the first cycle the search meets among the unresolved handlers; the fallback path is never reported |
| HandlerOrder.GreedyIsForward | core/event-pipeline/src/compiler.rs:325-347 | the order lists every constraint's source before its target |
| HandlerLaws.CompiledIsChosenInTurn | core/event-pipeline/src/compiler.rs:323-384 | the compiled order is exactly the one that always takes, of the handlers whose predecessors are all placed, the one of the lowest stage, then the highest priority, then the first plugin and handler by text |
| HandlerLaws.ReadyTogether | core/event-pipeline/src/compiler.rs:376-384 | of two handlers ready together the lower stage runs first, at equal stage the higher priority, then the smaller plugin and handler text |
| HandlerLaws.DeclarationsAreRespected | core/event-pipeline/src/compiler.rs:306-321 | every handler runs before those it names as before and after those it names as after |
| HandlerOrder.FailsExactlyOnCycles | core/event-pipeline/src/compiler.rs:348-361 | well-declared handlers are rejected if and only if their constraints have a directed cycle |
| HandlerOrder.GreedyPrefixUnique | core/event-pipeline/src/compiler.rs:325-384 | there is at most one permutation that always takes the least ready key |
| HandlerOrder.StuckIsUnique | core/event-pipeline/src/compiler.rs:323-355 | the constraints alone determine which handlers stay unresolved |
| HandlerOrder.RegistrationOrderIsIrrelevant | core/event-pipeline/src/compiler.rs:259-430 | every reordering of well-declared registrations gives the same result, order or cycle; every reordering of others is rejected with the same printed report, and with the same diagnostics when no two different faults print alike |
| HandlerOrder.ResultIsStableIff | core/event-pipeline/src/compiler.rs:259-430 | the whole result is the same for every registration order if and only if the handlers are well declared or no two different faults print alike |
| Pipeline.CompilePipeline | core/event-pipeline/src/execution.rs:121-139 | the compiled pipeline holds exactly the registrations, each once, in the compiled order |
| Pipeline.Invoke | core/event-pipeline/src/execution.rs:165-212 | an answer is recorded when the action supports it, and otherwise a handler error, a timeout or an unsupported decision |
| Pipeline.Execute | core/event-pipeline/src/execution.rs:153-258 | for arbitrary handler behaviour the report is a valid one: every step records what its handler produced on its input (a permitted answer, or the named failure), hands on its value or its ignored failure's input, and the last one ends as its decision or its policy says |
| Pipeline.ReportIsFold | core/event-pipeline/src/execution.rs:153-258 | there is exactly one valid report, the recursive meaning of the pipeline |
| Pipeline.ExecutionIsFaithful | core/event-pipeline/src/execution.rs:153-258 | the steps are a prefix of the order, each fed the carried proposal; the outcome is Continue exactly when all handlers ran and passed; it is unsupported exactly when the Cancel policy fired without the capability |
| Pipeline.UnsupportedOutcomeIff | core/event-pipeline/src/execution.rs:153-258 | some handler behaviour ends in an unsupported decision if and only if cancellation is unsupported and some registration has the Cancel policy |
| Pipeline.UnsupportedCancelHappens | core/event-pipeline/src/execution.rs:215-258 | a concrete pipeline and handler that end in an unsupported Cancel |
| Pipeline.With | core/event-pipeline/src/decision.rs:144-149 | adds the capability and keeps all others |
| Observer.HistoryStep | core/event-pipeline/src/observer.rs:183-224 | every step keeps the queue within capacity and a suffix of the accepted order, the counters balanced, and the taken events in accepted order |
| Observer.TruthfulStep | core/event-pipeline/src/observer.rs:183-224 | every step keeps outcomes true: an event is accepted exactly when its call is told so, at most once, and the counters equal the outcomes told |
| ObserverAnswers.LockAnswers | core/event-pipeline/src/observer.rs:183-224 | a closed queue answers Closed and one with room Enqueued; a full one suspends the caller under Block, keeps the event out and counts it under DropNewest, and evicts exactly the head under DropOldest; nothing else changes |
| ObserverAnswers.NeverSuspended | core/event-pipeline/src/observer.rs:183-224 | under DropNewest and DropOldest no call of any run is ever suspended |
| ObserverAnswers.EachObservedOnce | core/event-pipeline/src/observer.rs:262-290 | in every state of every run the observer was given the events removed from the queue, one by one in that order, and delivered and failed count its answers |
| Observer.WakeStep | core/event-pipeline/src/observer.rs:183-290 | every step keeps each blocked call and the suspended worker owed a wake-up |
| Observer.StepUsesPotential | core/event-pipeline/src/observer.rs:183-290 | every step of any task uses up potential |
| Observer.RunsKeepInvariant | core/event-pipeline/src/observer.rs:137-290 | the ledger, the order, the outcomes and the wake-up invariant hold in every state of every run |
| Observer.RunsAreBounded | core/event-pipeline/src/observer.rs:183-290 | with n dispatch calls a run has at most 20n + 12 steps |
| Observer.NoLostWakeup | core/event-pipeline/src/observer.rs:183-224 | no reachable state has a parked call beside an empty queue and a parked worker with nothing pending |
| Observer.RestMeansDone | core/event-pipeline/src/observer.rs:183-290 | a dispatcher at rest has an empty queue, all started calls returned, and enqueued = delivered + failed + dropped |
| Observer.BlockDeliversEverything | core/event-pipeline/src/observer.rs:183-224 | under Block an open dispatcher at rest has told every started call Enqueued and handed each event to the observer exactly once |
| ObserverAnswers.NewestDroppedOrObserved | core/event-pipeline/src/observer.rs:183-290 | under DropNewest, at rest and open, every started call was told Enqueued or DroppedNewest, the former exactly when the observer was given its event |
| ObserverAnswers.OldestEvictedOrObserved | core/event-pipeline/src/observer.rs:183-290 | under DropOldest, at rest and open, every started call's event entered the queue, and all but as many as were evicted were observed, in order |
| Observer.DrainedShutdown | core/event-pipeline/src/observer.rs:232-250 | after shutdown nothing is queued or in flight, and without eviction the observer received exactly the accepted order |
| Frames.LengthRoundTrip | core/protocol-support/src/lib.rs:160-166 | big-endian lengths read back |
| Frames.EncodeAnswers | core/protocol-support/src/lib.rs:147-170 | encoding succeeds exactly when the body encodes and its length fits the maximum and 32 bits, with the four letters, the length as a weighted sum of four bytes, and the body; each failure is named |
| Frames.DecodeAnswers | core/protocol-support/src/lib.rs:177-203 | strict decoding succeeds exactly on such bytes within the maximum whose body decodes |
| Frames.Reader.ReadFrame | core/protocol-support/src/lib.rs:212-245 | consumes exactly one frame and leaves the rest, or fails as specified |
| Frames.ReadsBack | core/protocol-support/src/lib.rs:147-245 | an encoded frame before any suffix is read back, leaving the suffix |
| Frames.ReadsWhatDecodes | core/protocol-support/src/lib.rs:177-245 | the reader returns a frame and leaves a rest exactly when what stands in front of the rest strictly decodes to the frame |
| Frames.FramesDelimitThemselves | core/protocol-support/src/lib.rs:147-245 | reading n times from n concatenated frames and any suffix gives those frames in order and leaves the suffix |
| Frames.RejectsExtension | core/protocol-support/src/lib.rs:177-203 | an encoding with bytes added at the end is rejected |
| Frames.RejectsTruncation | core/protocol-support/src/lib.rs:177-203 | an encoding with bytes removed at the end is rejected |
| Authorization.EncodeHex | core/protocol-support/src/authorization.rs:207-215 | the loop writes the two digits of every byte in order |
| Authorization.HexRoundTrip | core/protocol-support/src/authorization.rs:207-239 | decoding undoes encoding |
| Authorization.HexSpells | core/protocol-support/src/authorization.rs:207-215 | every byte is written as its two lower-case hexadecimal digits, the high one first |
| Authorization.NibbleReads | core/protocol-support/src/authorization.rs:231-239 | a character is read as n exactly when it is the digit of n in either case |
| Authorization.ConstantTimeDecidesEquality | core/protocol-support/src/authorization.rs:241-251 | the xor/or fold is zero exactly on equal byte strings |
| Authorization.LifetimeIsBoundedUnlessOverflow | core/protocol-support/src/authorization.rs:171-192 | claims are accepted exactly with five non-empty, control-free texts of at most 512 bytes, issued before they expire, living at most 300000 ms unless the 64-bit subtraction overflows; an accepted lifetime is within the limit if and only if it did not |
| Authorization.OverflowingLifetimeIsAccepted | core/protocol-support/src/authorization.rs:171-192 | every lifetime whose subtraction overflows is accepted although it exceeds the limit |
| Authorization.LongestLifetimeIsAccepted | core/protocol-support/src/authorization.rs:171-192 | concrete claims spanning the whole range of time stamps are accepted |
| Authorization.TokenSplits | core/protocol-support/src/authorization.rs:102-146 | a token splits at dots into exactly version, payload and code |
| Authorization.TokenFitsGuard | core/protocol-support/src/authorization.rs:128-137 | a sealed token always passes the length guard |
| Authorization.SealSucceedsIff | core/protocol-support/src/authorization.rs:102-126 | sealing succeeds exactly on such claims with a payload of at most 4096 bytes, and otherwise names the first fault |
| Authorization.SealedGrantVerifies | core/protocol-support/src/authorization.rs:102-205 | allowed claims can be sealed, and for any request and time verifying the token gives the claims back exactly while bound to the request, unexpired and issued within the skew, and otherwise the right error |
| Authorization.SealedGrantIsBound | core/protocol-support/src/authorization.rs:102-169 | a sealed token never verifies for another request |
| Authorization.AcceptedTokenIsAuthentic | core/protocol-support/src/authorization.rs:128-169 | a token is accepted if and only if it has the three segments, its payload decodes to these claims, its code is the keyed hash of the payload, and the claims are allowed, timely and for this request |
| ChatContext.Session.FindLatestCalls | prototype/plugins/chat-context/main.js:69-70 | the backward search finds the calls of the latest assistant message, if that message has any |
| ChatContext.Session.CollectAnswered | prototype/plugins/chat-context/main.js:71-72 | the loop collects exactly the ids answered in the snapshot |
| ChatContext.Session.SettleBatch | prototype/plugins/chat-context/main.js:67-74 | publishes one model request exactly when the wanted calls are all answered |
| ChatContext.Session.OnModelResponse | prototype/plugins/chat-context/main.js:124-160 | adds the turn and the answers to its rejected calls in order; publishes one event per call in order, a dispatch exactly when the call is not rejected, then a model request exactly when all are; plain text is passed on |
| ChatContext.Session.OnToolResult | prototype/plugins/chat-context/main.js:161-182 | records the result, and asks the model exactly when it is its call's first and the last turn has no calls, or this one and no other open |
| ChatContext.Session.OnInvocationFailed | prototype/plugins/chat-context/main.js:183-199 | answers a stopped, unanswered call inline, announces the rejection, and asks the model exactly when all calls of the last turn are then answered; otherwise changes nothing |
| ChatContext.Session.OnUserMessage | prototype/plugins/chat-context/main.js:118-123 | adds the user turn and asks the model |
| ChatContext.EventSettlesWhen | prototype/plugins/chat-context/main.js:67-199 | in any context an event settles exactly when it answers the last open call of the latest turn, rejects a whole response, is a stray failure, or is an orphan result |
| ChatContext.SettlementsAddUp | prototype/plugins/chat-context/main.js:67-199 | over any run the settlements are the sum of those four kinds |
| ChatContext.BatchStarts | prototype/plugins/chat-context/main.js:124-160 | a model response settles at once exactly when all its calls are rejected inline |
| ChatLaws.EachCallOnce | prototype/plugins/chat-context/main.js:124-199 | over any run each call of a fresh turn is dispatched exactly once if accepted and never if rejected, and announced as rejected exactly once if rejected or if its first report is a failure, and never otherwise |
| ChatContext.BatchSettlesOnce | prototype/plugins/chat-context/main.js:50-199 | provided no newer assistant message comes before a fresh batch is done, its opening and the reports on its own calls settle exactly once if it completes, and never if not, whatever else happens before or after |
| ChatContext.BatchSettlesExactlyOnce | prototype/plugins/chat-context/main.js:50-199 | if moreover failures up to the next response concern only this batch, the model is asked exactly once in that time, and reports on the batch ask nothing afterwards |
| ChatContext.LateFailureSettlesAgain | prototype/plugins/chat-context/main.js:183-199 | a run from the empty session in which a late failure of an older call asks the model a second time |
| ChatContext.LateResultSettlesAgain | prototype/plugins/chat-context/main.js:161-182 | a run from the empty session in which a late result, after a plain answer, asks the model a second time |

## Left out

- GraphCompiler.Compile: nodes and variables keep only the fields these passes read; name syntax, sizes, budgets, providers, capabilities, the configurations of other node kinds with their variable access, effect outputs, configuration canonicalisation, TOML and the cache key are flat checks or library code.
- GraphWrites.ValidateVariable: does not model which consumers a branch-scoped variable may have, a search that picks the smallest-named common join rather than the configured one, nor value types, their security classification and the merge policies they allow.
- GraphParallel.ValidateParallelTopology: of an error only its kind is modelled, not the branches and edges its text names; the same holds of the other graph passes.
- GraphOwnership.ValidateOwnership: regions are computed for each variable and parallel node rather than once per parallel node beforehand; the decision is the same.
- ExpressionParser.ParseExpression: starts from tokens, because string and number decoding belongs to the JSON library; after a failure the parser object is discarded, so only the error is stated.
- GraphConditions.ParseCondition: the lexer is a parameter, any function whose results end in one end marker.
- Sorting.SortIsStrict: the library sort is modelled as stable insertion, which its contract determines.
- ExpressionEvaluation.EvaluationReadsOnlyRoots: numbers are integers; floating-point and mixed comparison are not part of this model.
- Pipeline.Execute: a timeout is one possible handler result; timers and dropped futures are not modelled.
- Observer.RunsKeepInvariant: the observer is a choice between success and failure of each event; dropping the dispatcher, aborting the worker and cancelling a dispatch future are not modelled. `shutdown` consumes the dispatcher, so the model, which lets calls run beside it, allows more interleavings than the source.
- Observer.NoLostWakeup: the notifier is one stored permit, a set of waiters and a generation for futures created before `notify_waiters`; a poll takes the permit first. The runtime's scheduler is not modelled, and `notify_one` may wake any waiter.
- Frames.ReadsBack: CBOR is a pair of functions assumed to round-trip; transport errors other than the end of input are not modelled.
- Authorization.SealedGrantVerifies: JSON and the keyed hash are functions, the codec assumed to round-trip; cryptographic strength is out of scope.
- Authorization.LifetimeIsBoundedUnlessOverflow: integer overflow wraps, as in a release build; a debug build panics there instead.
- ChatContext.Session.OnModelResponse: whether a call is rejected is an input; tool suggestions, argument conformance and message texts are not modelled.
- ChatContext.Session.OnInvocationFailed: whether a failure stops its call, which depends on the session's resolved subscribers, is an input.
- ChatContext.BatchSettlesOnce: session start, context edits and approvals are not modelled.
- `write_frame`, protocol negotiation, continuations, primitives, the event model and the protocol data types: each settled by one branch or one comparison.
- The prototype's user interface, benchmarks and other plugins: input and output rather than logic.
