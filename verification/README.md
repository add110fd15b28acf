# cli-agent, modelled and verified

`cli-agent` runs a team of language-model agents over a graph of tasks. A planner's output becomes new
nodes of a running graph, validators and reviewers inject fix rounds, tool calls and plans are cut out
of free text, and several services around it meter, batch, route and aggregate. This project models
those parts in Dafny and proves what they are there for. All statements hold for every input, every
agent output, every hash-map iteration order and every interleaving, unless the table says otherwise.

| file | part of the system |
|---|---|
| `Digraph.dfy` | cycles and topological orders; the iterative three-colour search and the recursive search |
| `PlanValidation.dfy`, `ExecutionGraphs.dfy`, `PlanRuntime.dfy` | checking a plan, adding nodes to the running graph, and when the two agree |
| `Completion.dfy`, `InjectionRules.dfy`, `Growth.dfy`, `FixRounds.dfy` | the completion callback, its rules node by node, how far it can make the graph grow, and its validation runs |
| `Brackets.dfy`, `JsonText.dfy`, `JsonExtraction.dfy` | the bracket scanners against a grammar of well-nested text and against JSON |
| `Utf8.dfy` | UTF-8 and chunk-safe flushing |
| `RateLimit.dfy` | the token-bucket limiter |
| `Folds.dfy` | order-independent accumulation and saturating token counts |
| `Cluster.dfy`, `ClusterProtocol.dfy` | aggregation of cluster runs and the protocol around it |
| `Harness.dfy`, `AgentHarnesses.dfy`, `HarnessMetrics.dfy` | the session forest, its operations, its walks and its metrics |
| `ContextBudget.dfy` | filling a prompt within its budgets |
| `TokenBatching.dfy` | batching streamed tokens for the store |
| `PersonaRouter.dfy` | routing a node to a persona |
| `Text.dfy`, `Types.dfy`, `Wrappers.dfy` | string operations of Rust's standard library, shared types |

How the source's form is kept: `ExecutionGraph`, the limiter, the byte buffer, the record map of the
cluster, the session harness, the batching loop and the router are classes whose methods update their
fields; the searches, scanners, filters and accumulations are loops. Each method is proved against a
specification function or predicate, and the theorems are about those.

Where the code does not do what its name or surroundings suggest, the model follows the code, a lemma
shows an input for which the expected property fails, and a lemma says exactly when it holds:

* A plan's dependency names are trimmed for the check that they are known (`src/orchestrator/completion.rs:881-888`)
  but not when edges are built (`:904-908`, `:358-391`): `InjectionClosedExactly`, with the counterexample
  `PaddedDependencyDangles`.
* A plan is accepted as a set and without a look at the graph, but its nodes are added in list order, each
  needing a new id and present dependencies (`src/runtime/graph.rs:131-155`, `src/runtime/mod.rs:499-503`):
  `PlanFitsExactly`, with the counterexample `ForwardPlanIsRefused` and the repair `ReorderedPlanFits`.
* A failed `git_commit` node reads as lint iteration 0 and re-enters the lint loop: `EndlessExactly` and
  `LoopIsEndless` for the callback. Inside one running graph, where ids are distinct, growth is bounded
  whatever the outcomes (`GrowthInGraphIsBounded`), and an endless growth repeats an id (`EndlessRepeatsAnId`).
  The same re-entry breaks the bound on fix rounds: `FixBoundExactly`, with the run `LoopExceedsBound`.
* The brace counter ignores square brackets: `CounterRefinesStack` says when the two scanners agree,
  `ScannersAgree` gives a condition on the text alone, `CounterAcceptsMore` shows that they need not.
* With a negative refill rate the limiter is not always optimal: `OptimalExactly`, `DrainingIsNotOptimal`.
* A message that the cluster's message loop receives before the record is inserted is dropped:
  `EarlyReportRun` is such a run, `MissedNeverFinishes` shows that it stays Running, and
  `QuietFinishesExactly` says which runs finish.
* While a session is linked but not yet registered, `max_depth` counts it and `session_tree` does not:
  `MaxDepthIsHeightExactly`, with the reachable state `HalfCreatedDiffers`.
* The round-robin counter wraps at 2^64: `FairExactly` and `EachNameOnce` say for which lists that is unfair,
  `WrapIsUnfair` gives one.
* Bytes that are not UTF-8 block the stream for ever: `BlockedExactly`, with the input `StrayByteBlocks`.

Modelling conventions. A hash map's iteration order is an arbitrary parameter (`keys`, `order`). Fresh
UUIDs are parameters that are required to be new. `f64` quantities are exact reals. `u8` depths wrap as
in a release build. Foreign decoders and Unicode tables (JSON decoding of a plan, lower-casing,
alphanumeric classes) are function parameters, so the theorems hold for any of them. Operations on
concurrent maps and channel receipts are single atomic steps.

## Model

| member | source | states |
|---|---|---|
| Digraph.DetectCycle | src/orchestrator/completion.rs:913-954 | The iterative depth-first search terminates for every key order and is exact: it names a node lying on a closed dependency path, or a topological order of all nodes exists; it reports something iff the graph is cyclic. |
| Digraph.Visit | src/orchestrator/completion.rs:928-953 | One search from a pending start node either names the start of a closed path, or ends with the start finished, nothing left on the stack, and a longer dependency-respecting finishing order. |
| Digraph.TopoExcludesCycles | src/orchestrator/completion.rs:897-954 | A topological order excludes every closed path, so the two outcomes of the search exclude one another. |
| Digraph.CycleReportIsExact | src/orchestrator/completion.rs:897-954 | Whatever satisfies the search's report (a node on a closed path, or an order) says "cycle" iff there is one. |
| Digraph.HasCycle | src/runtime/graph.rs:284-319 | The recursive search with temporary and permanent marks returns true iff the graph has a closed path, for every node order. |
| Digraph.DfsMarks | src/runtime/graph.rs:285-310 | The recursive step: a hit is a real cycle; otherwise temporary marks are restored and the node is finished after its dependencies. |
| PlanValidation.ValidateSubtaskPlan | src/orchestrator/completion.rs:842-957 | Accepts exactly the plans of 1 to cap subtasks with non-blank distinct ids, some text, known non-blank dependencies and no cycle; acceptance gives a topological order; each error names the first violation in checking order. |
| PlanValidation.AcceptableMeaning | src/orchestrator/completion.rs:842-957 | The acceptable plans spelled out over trimmed ids, texts and dependencies. |
| PlanValidation.PlanGraphMeaning | src/orchestrator/completion.rs:897-911 | The plan graph has an edge exactly where a subtask names another one. |
| PlanValidation.CheckIds | src/orchestrator/completion.rs:858-872 | The id loop passes iff ids are non-blank and distinct and every subtask has text; its error is the first violation. |
| PlanValidation.CheckDependencies | src/orchestrator/completion.rs:874-895 | The dependency loop passes iff every dependency, trimmed, is known; its error is the first bad dependency. |
| PlanValidation.JustifiedExcludesAcceptable | src/orchestrator/completion.rs:842-957 | No plan is both acceptable and justly refused: error reports are sound. |
| PlanValidation.JustifiedErrorIsOne | src/orchestrator/completion.rs:842-957 | Every refused plan has one justified error, the first violation in checking order; only the node at which a cycle is reported can vary, with the order of the hash map. |
| PlanValidation.InjectionKeepsAcyclic | src/orchestrator/completion.rs:358-391 | Injecting an accepted plan with fresh ids, default edge to the planner included, keeps the running graph acyclic, even where names are padded. |
| PlanValidation.InjectionClosedExactly | src/orchestrator/completion.rs:879-908 | For every accepted plan with fresh ids, injection keeps the graph dependency-closed iff each dependency is written without outer white space or is itself the name of a node. |
| PlanValidation.ExactMeansTrimmed | src/orchestrator/completion.rs:881-888 | Where node names have no outer white space, that condition says that no dependency has. |
| Text.BlankIsAllWhitespace | src/orchestrator/completion.rs:858-866 | An id, a text or a dependency counts as blank iff it has white space only. |
| Text.TrimMeaning | src/orchestrator/completion.rs:858-888 | Trimming removes exactly the white space at both ends. |
| PlanValidation.PaddedDependencyDangles | src/orchestrator/completion.rs:881-908 | An accepted plan with a padded dependency on a static node, which dangles once the plan is injected. |
| ExecutionGraphs.ExecutionGraph.AddNode | src/runtime/graph.rs:131-178 | Succeeds iff the id is new, the depth in range and all dependencies present; then exactly that node is added. Otherwise nothing changes and the error is the first thing wrong; the cycle error never occurs. Ids, depths, closure and acyclicity are kept. |
| ExecutionGraphs.ExecutionGraph.AddNodes | src/runtime/graph.rs:124-129 | A list goes in iff every node fits after those before it; at a refusal exactly the prefix before it stays. |
| ExecutionGraphs.AdmittedNodeKeepsAcyclic | src/runtime/graph.rs:144-175 | A new node whose dependencies are present cannot close a cycle, so the check after insertion never refuses. |
| ExecutionGraphs.AdmitsAllStep | src/runtime/graph.rs:124-155 | The condition on a whole list is the condition on its prefix plus the last node fitting the graph extended by that prefix. |
| PlanRuntime.PlanFitsExactly | src/runtime/mod.rs:499-503 | Every accepted plan can be added by the run loop iff none of its ids is taken, its depth is in range, each dependency is written without outer white space or is itself the name of a node, and every subtask is listed after those it depends on. |
| PlanRuntime.ForwardPlanIsRefused | src/runtime/graph.rs:144-155 | An accepted plan whose first subtask depends on its second, which the running graph refuses. |
| PlanRuntime.ReorderedPlanFits | src/orchestrator/completion.rs:842-957 | Listed along any topological order, an accepted plan whose dependencies are so written is admitted. |
| PlanRuntime.RulesFitExactly | src/orchestrator/completion.rs:442-729 | What the review, validator, replan and checkpoint rules inject can be added in order iff no id is taken and every depth is in range: each node waits for the finished node or its predecessor, so no dependency is ever missing. |
| Completion.OnCompleted | src/orchestrator/completion.rs:233-735 | For every finished node and outcome, the callback returns exactly the nodes and skips of the declarative rules: the plan's subtasks or nothing, else checkpoint, review fixes, validator fixes, next phase and replan, in that order. |
| InjectionRules.PlanInjection | src/orchestrator/completion.rs:274-400 | A planner turn with an acceptable plan returns one node per subtask, in order, with its id, role, text (instructions, else description), dependencies (the planner if none) and depth + 1, and skips the static nodes; any other plan returns nothing. |
| InjectionRules.PlanInProse | src/orchestrator/completion.rs:274-400 | End to end: a planner output of prose, a JSON object that decodes to an acceptable plan, and any suffix injects that plan. |
| InjectionRules.PlanOfMeaning | src/orchestrator/completion.rs:275-277 | The plan is the decoded JSON object of the output, or, when there is none or it does not decode, the decoded whole output. |
| InjectionRules.CheckpointInjection | src/orchestrator/completion.rs:403-420 | A planner turn without a plan gives one checkpoint iff the task has more than twenty words, and nothing otherwise. |
| InjectionRules.ReviewInjection | src/orchestrator/completion.rs:442-501 | A review gives the fix and the re-review iff it succeeded, asks for changes and is in its first three iterations, and the replan iff it succeeded above depth 4 and reports the work as incomplete; all written out. |
| InjectionRules.FixInjection | src/orchestrator/completion.rs:503-590 | A failed validator gives the fix and the revalidation of its phase while iterations are left, else a summary. |
| InjectionRules.PhaseInjection | src/orchestrator/completion.rs:592-675 | A passed validator gives the test phase where tests are configured or found, else the commit and the summary; a passed commit nothing. |
| PlanRuntime.CallbackInjectsPlan | src/orchestrator/completion.rs:358-391 | The graph extended by what the callback returns for an accepted plan has exactly the dependency graph of the injected plan. |
| PlanRuntime.CallbackKeepsAcyclic | src/orchestrator/completion.rs:274-400 | Whatever plan a planner returns, the graph extended by the callback stays free of cycles, for fresh ids. |
| Completion.IterationRoundTrip | src/orchestrator/completion.rs:208-215 | The iteration number written into any node id is the one parsed back from it, for all 256 values and every prefix. |
| Completion.IterationMeaning | src/orchestrator/completion.rs:208-215 | The iteration of any id is what stands behind its last underscore (or the whole id), an optional plus sign and digits of value at most 255, else 0. |
| Growth.InjectionLowersRank | src/orchestrator/completion.rs:274-729 | Every injection, for all roles and outputs, lowers a lexicographic measure over depth guards, phases and iteration guards, unless it comes from a failed commit node in a configuration that loops back. |
| Growth.GrowthIsBounded | src/orchestrator/completion.rs:274-729 | Every chain of injections without a failing commit node has at most 18432 nodes, whatever the agents answer. |
| Growth.GrowthTreeIsBounded | src/orchestrator/completion.rs:274-729 | All that grows out of one node is finite: the whole tree of injections has no more nodes than a full tree of height 18432 with max(cap, 3) branches, if no failed commit node loops back. |
| Growth.InjectsFew | src/orchestrator/completion.rs:233-735 | One finished node injects at most max(cap, 3) nodes. |
| Growth.EndlessExactly | src/orchestrator/completion.rs:503-513 | Endless growth is possible iff commits are made and at least one fix iteration is configured. |
| Growth.LoopIsEndless | src/orchestrator/completion.rs:183-215 | The concrete endless chain from the `validate_lint` node of a static graph: checks pass, the commit fails, checks pass, the commit fails. |
| Growth.GrowthInGraphIsBounded | src/runtime/graph.rs:131-134 | Every chain of injections with arbitrary outcomes, failing commit nodes included, has at most 36864 nodes when its ids are distinct, as they are inside one graph. |
| Growth.EndlessRepeatsAnId | src/runtime/graph.rs:131-134 | Every endless growth of the callback injects an id twice within its first 36865 nodes, which the graph refuses. |
| FixRounds.SucceededRunsAreShort | src/runtime/mod.rs:450-486 | When all results succeed, which is all that the run loop hands to the callback, no fix round is spent and every chain is bounded, for every configuration. |
| FixRounds.CommitAfterChecks | src/orchestrator/completion.rs:592-675 | In every run from `validate_lint`, with arbitrary outcomes, each commit node follows a check that passed: a lint phase where no tests are configured, else a test phase behind a lint phase that passed with no commit node in between. So a failed commit is retried only after the checks pass anew. |
| FixRounds.FixRoundsBounded | src/orchestrator/completion.rs:503-675 | Along every run from `validate_lint` in which no commit node fails, lint and test fix rounds together never exceed the configured number. |
| FixRounds.FixBoundExactly | src/orchestrator/completion.rs:503-675 | With arbitrary outcomes, all runs from `validate_lint` stay within the configured number iff commits are off or no fix iteration is configured. |
| FixRounds.LoopExceedsBound | src/orchestrator/completion.rs:183-215 | Otherwise a concrete run spends more rounds than configured: each failed commit starts the count anew. |
| FixRounds.FixRoundsAttained | src/orchestrator/completion.rs:503-560 | The bound is met, for every number of rounds up to it. |
| FixRounds.CarryStep | src/orchestrator/completion.rs:503-675 | The id of each validator of the chain carries the number of rounds spent so far, through lint and across to test. |
| Brackets.BalancedEndExact | src/orchestrator/helpers.rs:351-393 | The stack scan ends at e iff the first e characters are a well-nested group (brackets match in kind and order outside strings), so no shorter prefix is one. |
| Brackets.ScanGroup | src/orchestrator/helpers.rs:351-393 | On a well-nested group followed by anything, the scan stops exactly at the end of the group. |
| Brackets.CounterRefinesStack | src/orchestrator/helpers.rs:170-193 | From a first brace, the stack scan returns e iff the brace counter returns e and the text up to e is well nested. |
| Brackets.ScannersAgree | src/orchestrator/helpers.rs:170-193 | The two scanners return the same on every text from a first brace with no square bracket outside strings before the counter stops. |
| Brackets.CounterExact | src/orchestrator/helpers.rs:170-193 | The brace counter is exact too: it returns e iff the first e characters are a well-nested group once square brackets count as ordinary characters; e is unique. |
| Brackets.CounterAcceptsMore | src/orchestrator/helpers.rs:170-193 | A text that the brace counter accepts and the stack scan refuses. |
| Brackets.CountBytesIsCountFrom | src/orchestrator/helpers.rs:170-193 | Counting over the UTF-8 bytes stops at the byte position of the place where counting over characters stops. |
| JsonText.JsonIsNested | src/orchestrator/helpers.rs:351-393 | Every text of the JSON grammar of RFC 8259 (sections 2 to 7), any white space, number and escape spelling, is well nested; an object or array is one group. |
| JsonText.ScanFindsJson | src/orchestrator/helpers.rs:351-393 | For every JSON object or array followed by any suffix, the balanced scan started at its first bracket returns exactly its end. |
| JsonExtraction.FindBalancedJsonEnd | src/orchestrator/helpers.rs:351-393 | The loop with its stack and string flags returns the byte offset behind the group that starts at the given character, or nothing. |
| JsonExtraction.CountLoop | src/orchestrator/helpers.rs:170-193 | The byte loop with depth and string flags computes the brace count. |
| JsonExtraction.ExtractJsonObject | src/orchestrator/helpers.rs:157-194 | Returns the first fenced body that starts with a brace, trying the fences in order, else the object that the brace counter cuts out; the byte slice is the character slice. |
| JsonExtraction.ExtractedMeaning | src/orchestrator/helpers.rs:157-194 | The four openings are tried in the order written out, then the first brace. |
| JsonExtraction.FencedMeaning | src/orchestrator/helpers.rs:158-168 | A block counts iff it is closed and its trimmed body, from the first opening to the first closing behind it, starts with a brace. |
| JsonExtraction.BracedMeaning | src/orchestrator/helpers.rs:170-193 | Otherwise the result is what begins at the first brace and is well nested in braces outside strings. |
| JsonExtraction.FenceFreeText | src/orchestrator/helpers.rs:157-194 | Text without code fences is left to the brace counter. |
| JsonExtraction.ExtractsTheObject | src/orchestrator/helpers.rs:157-194 | Prose without braces, a JSON object, and any suffix, without code fences: exactly the object is returned. |
| JsonExtraction.ExtractsTheFencedObject | src/orchestrator/helpers.rs:152-169 | Prose without fences (braces allowed), one JSON object and white space in a block opened by "```json" and a line feed, "```" and a line feed, "```json" and a blank, or "```", and any suffix: exactly the object is returned, if no opening earlier in this order occurs. |
| JsonExtraction.ExtractBalancedJsonFragments | src/orchestrator/helpers.rs:330-349 | Returns a prefix of the groups of the text, as many as the cap allows, but one even for a cap of zero. |
| JsonExtraction.GroupsAreWellNested | src/orchestrator/helpers.rs:330-349 | Every fragment is a well-nested piece of the text. |
| JsonExtraction.GroupsAreAllGroups | src/orchestrator/helpers.rs:330-349 | The groups stand for exactly the places where a well-nested group begins, nested ones included, in text order. |
| JsonExtraction.JsonIsAmongGroups | src/orchestrator/helpers.rs:330-349 | Every JSON object or array that stands anywhere in the text, whatever is around it, is among its groups. |
| Utf8.EncodeDecode | src/orchestrator/coder_backend.rs:612-628 | Encoding a text by section 3 of RFC 3629 gives bytes that are well formed by section 4 and decode to the text. |
| Utf8.DecodeEncode | src/orchestrator/coder_backend.rs:612-628 | Encoding what was decoded gives back the longest well-formed prefix, for all bytes. |
| Utf8.Utf8Buffer.FlushUtf8Safe | src/orchestrator/coder_backend.rs:612-628 | Emits the text of the buffer's longest well-formed prefix and leaves exactly the bytes behind it. |
| Utf8.FlushKeepsAllBytes | src/orchestrator/coder_backend.rs:612-628 | What is emitted and what is kept make up the buffer: no byte is lost or duplicated. |
| Utf8.Resume | src/orchestrator/coder_backend.rs:612-628 | Decoding a concatenation is decoding the first part and then the held bytes with the second: earlier output is never revised. |
| Utf8.Stream | src/orchestrator/coder_backend.rs:612-628 | For all bytes and every chunking, append-and-flush outputs join to the decoding of the whole, holding exactly what follows the well-formed prefix. |
| Utf8.HeldIsShort | src/orchestrator/coder_backend.rs:612-628 | At most 3 bytes are held while the bytes so far can still become well formed, and none once they are. |
| Utf8.StreamedTextIsWhole | src/orchestrator/coder_backend.rs:612-628 | Every chunking of a text's bytes streams to the text, with fewer than 4 bytes held after each chunk and none at the end. |
| Utf8.CompletableExactly | src/orchestrator/coder_backend.rs:612-628 | Bytes can be continued to well-formed text iff what is held is nothing or a truncated character of section 4, a test on at most three bytes. |
| Utf8.BlockedExactly | src/orchestrator/coder_backend.rs:612-628 | Output stops for ever iff what is held is neither nothing nor a truncated character. |
| Utf8.StrayByteBlocks | src/orchestrator/coder_backend.rs:612-628 | The byte 0xFF is such an input: nothing that follows it is ever emitted. |
| RateLimit.RateLimiter.TryAcquire | src/interface/rate_limit.rs:76-96 | Answers by the refilled bucket of the key (a full one on the first request), takes one token if accepted, and touches no other key. |
| RateLimit.WindowBound | src/interface/rate_limit.rs:76-96 | For every configuration and monotone request sequence, an interval that ends with an accepted request has at most capacity + rate * length accepted requests. |
| RateLimit.WindowBoundEverywhere | src/interface/rate_limit.rs:76-96 | With a rate and capacity that are not negative, this holds on every interval. |
| RateLimit.AnswersAdmissible | src/interface/rate_limit.rs:76-96 | The limiter's answers are themselves a choice that meets the bound. |
| RateLimit.BoundMeaning | src/interface/rate_limit.rs:76-96 | The bound spelled out: the number of chosen requests is at most capacity + rate * (last time - first time). |
| RateLimit.GreedyIsOptimal | src/interface/rate_limit.rs:76-96 | With a rate that is not negative, on every prefix the limiter accepts at least as many requests as any choice that meets the bound. |
| RateLimit.OptimalExactly | src/interface/rate_limit.rs:76-96 | The limiter is optimal on all runs iff the rate is not negative or the capacity is below two. |
| RateLimit.DrainingIsNotOptimal | src/interface/rate_limit.rs:76-96 | For every draining configuration with room for two, some run has a better choice. |
| RateLimit.Serve | src/interface/rate_limit.rs:60-96 | In a run over many keys, every answer and every stored bucket is the one that the key's own requests alone would give. |
| Folds.FoldPermutation | src/types.rs:368-379 | Accumulating with a commutative and associative operation does not depend on the order. |
| Folds.SaturatingSum | src/types.rs:368-379 | Saturating at each step gives the true sum capped once. |
| Folds.MergedUsage | src/types.rs:373-378 | Merging token usages gives on each side the true sum capped once. |
| Cluster.Runs.Handle | src/orchestrator/cluster.rs:61-120 | One message changes only its own cluster's record: first matching sub-run, totals, and, once all sub-runs are terminal, status and completion time. Unknown clusters change nothing. |
| Cluster.HandleAll | src/orchestrator/cluster.rs:61-120 | For any interleaving of submissions and messages of many cluster runs, each record is the replay of the messages for its own run since its insertion, and no other record exists. |
| Cluster.UpdateSubRun | src/orchestrator/cluster.rs:75-80 | The search loop updates the first sub-run with the id and no other. |
| Cluster.VerdictMeaning | src/orchestrator/cluster.rs:96-111 | Succeeded iff all sub-runs succeeded, failed iff there are some and none did, partial otherwise. |
| Cluster.ReplayStatus | src/orchestrator/cluster.rs:61-120 | After any terminal reports the record shows the verdict iff all sub-runs are terminal, else Running, and a completion time in the first case only. |
| Cluster.OrderIndependent | src/orchestrator/cluster.rs:61-120 | Reports handled after insertion, in any order, give the same sub-runs, status, saturated tokens and cost. |
| Cluster.AllReported | src/orchestrator/cluster.rs:61-120 | The record leaves Running iff every sub-run has reported. |
| Cluster.TokenTotal | src/orchestrator/cluster.rs:82-87 | The token total is the true sum over all reports, capped once on each side, and absent iff no report had any. |
| Cluster.CostTotal | src/orchestrator/cluster.rs:88-92 | The cost of a record is absent iff no message has one, else the plain sum of the costs reported. |
| Cluster.UsageTotal | src/orchestrator/cluster.rs:82-87 | The tokens of a record are absent iff no message has any, else the plain sums, each capped once at 2^32 - 1. |
| Cluster.TerminalMeaning | src/types.rs:235-240 | Cancelled, succeeded and failed are the terminal statuses. |
| ClusterProtocol.AlwaysInv | src/orchestrator/cluster.rs:140-258 | In every interleaving of submission, abortion, insertion, polling and delivery, messages stem from distinct reported watchers and a marked sub-run's message has been delivered. |
| ClusterProtocol.FinishedIsFinal | src/orchestrator/cluster.rs:61-120 | In every interleaving a record has left Running only with all sub-runs terminal and their verdict, and never changes again. |
| ClusterProtocol.EarlyDeliveryIsMissed | src/orchestrator/cluster.rs:199-219 | A message delivered before the record is inserted leaves its sub-run unmarked with nothing on the way. |
| ClusterProtocol.EarlyReportRun | src/orchestrator/cluster.rs:140-219 | A run from the start in which the first of two sub-runs is reported and delivered while the second is still being submitted; it ends inserted with a missed sub-run. |
| ClusterProtocol.QuietFinishesExactly | src/orchestrator/cluster.rs:61-258 | In every interleaving, once nothing is left to happen the record has left Running iff no message was received before insertion and every watcher reported. |
| ClusterProtocol.RecordIsReplay | src/orchestrator/cluster.rs:61-120 | In every interleaving the record is the replay, in order, of the messages handled since its insertion. |
| ClusterProtocol.SameMessagesSameRecord | src/orchestrator/cluster.rs:61-120 | Two interleavings that have handled the same messages since insertion, in any order, show the same record up to the completion time. |
| ClusterProtocol.MissedNeverFinishes | src/orchestrator/cluster.rs:223-258 | A cluster run with a missed sub-run, by early delivery or a watcher that gave up, stays Running in every continuation. |
| Harness.ReachableIsForest | src/harness/mod.rs:240-258 | Every state that any interleaving of creations (as two map operations) and updates reaches is a forest: children are younger than their parent and stand in at most one child list, once. |
| Harness.TreeLists | src/harness/mod.rs:207-222 | `session_tree`, and `hierarchy` with the same recursion, terminate and list exactly the registered descendants, each once. |
| Harness.TreeMirrors | src/harness/mod.rs:207-222 | Every node of the session tree shows its session as it is, with its registered children in order. |
| Harness.MaxDepthIsLongestPath | src/harness/metrics.rs:86-100 | In every forest `max_depth` terminates and is the length of the longest walk down child lists, registered or not. |
| Harness.HeightIsLongestSessionPath | src/harness/mod.rs:207-222 | The height of the session tree is the length of the longest walk that ends in a registered session. |
| Harness.MaxDepthIsHeightExactly | src/harness/metrics.rs:86-100 | In every forest the two agree iff every walk to an unregistered child is matched by a walk to a session at least as long, and `max_depth` is at most one more. |
| Harness.MaxDepthIsHeight | src/harness/metrics.rs:86-100 | Corollary: with no creation between its two map operations, `max_depth` is the height of the session tree. |
| Harness.HalfCreatedDiffers | src/harness/mod.rs:240-258 | A reachable state between the two map operations of a creation with depth 1 and height 0. |
| Harness.SiblingsDisjoint | src/harness/sub_agent.rs:132-146 | Different children have no descendant in common. |
| AgentHarnesses.AgentHarness.CreateSession | src/harness/mod.rs:240-258 | Adds exactly one running session and the new id at the end of a registered parent's list; no other session changes, the forest is kept and no link dangles. |
| AgentHarnesses.AgentHarness.RecordOutput | src/harness/mod.rs:263-269 | Changes exactly the named session: one more iteration (saturating), ready, usage merged; unknown ids change nothing. |
| AgentHarnesses.OutputsAccumulate | src/harness/mod.rs:83-93 | After any number of outputs a session has as many more iterations, is ready, and has the summed usage, each number capped once; all else is unchanged. |
| AgentHarnesses.AgentHarness.RecordError | src/harness/mod.rs:271-275 | Marks exactly the named session as failed. |
| AgentHarnesses.AgentHarness.Terminate | src/harness/mod.rs:224-238 | Marks exactly the named session and reports whether it was known. |
| AgentHarnesses.AgentHarness.SpawnFromPlan | src/harness/sub_agent.rs:47-61 | One running session for each subtask, paired with its id in order; the parent's list grows by exactly these ids and no other session changes. |
| AgentHarnesses.AgentHarness.ClassifyChildFailure | src/harness/sub_agent.rs:99-129 | Records the error; aborts iff all registered siblings have failed, continues iff fewer than half have, escalates otherwise; errs iff the parent is unknown. |
| AgentHarnesses.RegisteredCount | src/harness/sub_agent.rs:112-121 | The total counts the places of the child list that hold a registered session. |
| AgentHarnesses.FailedCount | src/harness/sub_agent.rs:112-121 | The failures count the places that hold a failed session. |
| HarnessMetrics.Snapshot | src/harness/metrics.rs:41-74 | The loop measures the walked sessions: each counter and saturating total is the fold over all sessions, and for each role over the sessions of that role; exactly the roles present have an entry. |
| HarnessMetrics.AnyMapOrder | src/harness/metrics.rs:41-73 | Any two orders of walking the session map give the same snapshot. |
| HarnessMetrics.CountersSumToSessions | src/harness/metrics.rs:41-73 | The five status counters add up to the number of sessions. |
| HarnessMetrics.CountersAreNumbers | src/harness/metrics.rs:45-53 | Each counter is the number of sessions with its status. |
| HarnessMetrics.RoleCountersAreNumbers | src/harness/metrics.rs:63-73 | The same for the counters of a role. |
| HarnessMetrics.TotalsAreSums | src/harness/metrics.rs:54-57 | Iteration and token totals are the plain sums, each capped once at 2^32 - 1. |
| HarnessMetrics.RoleTotalsCombine | src/harness/metrics.rs:62-67 | Per-role iteration and token totals combine to the global ones despite saturation. |
| HarnessMetrics.Roots | src/harness/metrics.rs:58-61 | The roots collected are exactly the sessions without a parent. |
| HarnessMetrics.SubAgentDepth | src/harness/metrics.rs:76-80 | In every forest the reported depth is the length of the longest walk down child lists from any root, 0 without roots. |
| ContextBudget.EstimateMeaning | src/context/mod.rs:254-262 | The estimate is at most k iff words * 1.3 and characters / 3.5 both are. |
| ContextBudget.WordsMeaning | src/context/mod.rs:254-262 | Two equations that determine the word count: a text without white space is one word, and a white-space character divides the words on its two sides. |
| ContextBudget.TotalTokensAdds | src/context/mod.rs:250-252 | The total of a list is the sum of the estimates of its items. |
| ContextBudget.SummaryIsShort | src/context/mod.rs:264-280 | When a summary is triggered, head and tail do not overlap, and the summary has 507 characters and at most 331 estimated tokens. |
| ContextBudget.SummarizeMeaning | src/context/mod.rs:211-223 | A chunk of at most 600 estimated tokens is left alone; any other becomes its first and last 240 characters around the marker, with 0.05 more priority, at most 1. |
| ContextBudget.SummarizingSettles | src/context/mod.rs:211-223 | After summarising, every chunk estimates to at most 600 tokens, and a second pass changes nothing. |
| ContextBudget.DedupChunks | src/context/mod.rs:194-209 | The loop with its seen-set keeps exactly the first chunk of each non-blank normalised content, in order. |
| ContextBudget.FirstMeaning | src/context/mod.rs:194-209 | First of its kind: the trimmed, lower-cased content is not empty and differs from that of all earlier chunks. |
| ContextBudget.DedupedPlaces | src/context/mod.rs:194-209 | What is kept is exactly the chunks first of their kind, in order. |
| ContextBudget.DedupedAreFirst | src/context/mod.rs:194-209 | Kept chunks are first occurrences, pairwise different in normalised content. |
| ContextBudget.DedupedCovers | src/context/mod.rs:194-209 | Every non-blank content is kept. |
| ContextBudget.ByPriorityIsStableSort | src/context/mod.rs:125-131 | Sections are filled in descending priority, a permutation of the chunks, equal priorities in their original order. |
| ContextBudget.ApplyBudget | src/context/mod.rs:225-239 | Greedy filling in order, within the budget. |
| ContextBudget.DroppedDidNotFit | src/context/mod.rs:225-239 | A chunk is kept, right behind those kept ahead of it, iff it fits beside them. |
| ContextBudget.TruncateLowValue | src/context/mod.rs:241-248 | Keeps the longest prefix reached by dropping from the end until the budget is met. |
| ContextBudget.BudgetsLeaveATenth | src/context/mod.rs:58-67 | The five section budgets together are at most nine tenths of the window. |
| ContextBudget.BudgetMeaning | src/context/mod.rs:58-67 | Each section gets its share of the window (8, 15, 32, 25, 10 hundredths), rounded down. |
| ContextBudget.Optimize | src/context/mod.rs:116-176 | Each section is the greedy filling of its own budget and within it, retrieval cut to eight; truncating the history removes nothing; the estimate is the true total and at most nine tenths of the window. |
| ContextBudget.CandidateMeaning | src/context/mod.rs:116-131 | What competes for a section is exactly the summarised first occurrences of its kind. |
| ContextBudget.OfKindConcat | src/context/mod.rs:119-124 | Grouping keeps the order of the chunks of a kind. |
| TokenBatching.RunTask | src/orchestrator/node_executor.rs:1718-1779 | For every interleaving of tokens, ticks and the close, the stored batches are full batches of 50 within each stretch between ticks and the stretch's rest at the tick or the close. |
| TokenBatching.BatchesAreTheTokens | src/orchestrator/node_executor.rs:1718-1779 | At every moment the stored batches followed by the buffer are exactly the tokens sent, in order; every batch holds 1 to 50 tokens and the buffer fewer than 50. |
| TokenBatching.ClosedHandsOverAll | src/orchestrator/node_executor.rs:1753-1762 | After the close, the batches are exactly the tokens sent. |
| TokenBatching.OneMoreToken | src/orchestrator/node_executor.rs:1728-1752 | The fiftieth buffered token completes a batch and empties the buffer; any other only joins the buffer. |
| PersonaRouter.Router.PickForRole | src/orchestrator/persona_router.rs:35-92 | A pick has the role and is in the pool if one is given, and no name meeting both scores higher; none iff no name meets both. With several best, the one at the role's counter modulo their number is picked and that counter advances by one modulo 2^64; no other counter ever changes. |
| PersonaRouter.BestMeaning | src/orchestrator/persona_router.rs:60-81 | The tie list holds exactly the candidates of maximal score, and is empty iff there are no candidates. |
| PersonaRouter.CandidateMeaning | src/orchestrator/persona_router.rs:41-52 | Candidates are the names of the role that are in the pool, if one is given, in the given order. |
| PersonaRouter.KeepConcat | src/orchestrator/persona_router.rs:41-81 | Filtering keeps the order. |
| PersonaRouter.TokenizeMeaning | src/orchestrator/persona_router.rs:95-100 | Two equations that determine tokenization: a text without separators is one lower-cased word, and a separator divides the words on its two sides. |
| PersonaRouter.ScoreMeaning | src/orchestrator/persona_router.rs:102-120 | A persona scores iff it shares a word with the instructions, and scores fully iff all of them are its own. |
| PersonaRouter.CandidateScore | src/orchestrator/persona_router.rs:60-70 | A candidate scores the number of instruction words, repetitions counted, that occur in its capabilities or expertise; an unknown name scores nothing. |
| PersonaRouter.KnowsMeaning | src/orchestrator/persona_router.rs:102-120 | The words of a persona are those of its capabilities and, if it has a profile, its expertise. |
| PersonaRouter.Serve | src/orchestrator/persona_router.rs:35-92 | Over any call sequence, each answer and the final counters are those of the calls before it. |
| PersonaRouter.TieBreaksRotate | src/orchestrator/persona_router.rs:87-91 | The j-th tie-break of a role picks position (start + j) mod 2^64 mod n, whatever calls for other roles or without a tie come between. |
| PersonaRouter.FairExactly | src/orchestrator/persona_router.rs:87-91 | n consecutive tie-breaks use n different positions iff the counter does not wrap within them or n divides its modulus. |
| PersonaRouter.WrapIsUnfair | src/orchestrator/persona_router.rs:87-91 | An unfair round: three names, with the counter at its last value. |
| PersonaRouter.EachNameOnce | src/orchestrator/persona_router.rs:87-91 | n consecutive tie-breaks of a role over n different names pick pairwise different names iff the same condition holds. |
| PersonaRouter.NobodyLeftOut | src/orchestrator/persona_router.rs:87-91 | In such a fair round every name is picked. |

## Left out

- Completion.OnCompleted: prompt texts, policies, personas, timeouts, stored messages and events of the injected nodes are not modelled; instructions that no rule reads are empty. The extra tool-catalogue and retry context of prompts is not part of this model.
- Completion.OnCompleted: JSON decoding of a plan is the parameter `parsePlan`; the cap on subtasks is the parameter `cap`.
- Growth.EndlessExactly: the theorem is about the callback as it is defined. The run loop calls it for succeeded results only (`src/runtime/mod.rs:450-486`), so no failed validator and no failed commit node reaches it there: `SucceededRunsAreShort`.
- FixRounds.FixRoundsAttained: likewise about the callback; in the run loop no fix round is ever spent.
- PlanValidation.InjectionKeepsAcyclic: subtask ids are assumed new to the running graph; the code does not check them before `add_node` does.
- ExecutionGraphs.ExecutionGraph.AddNode: node statuses, fallback bookkeeping and forced readiness are left out; they do not decide admission.
- JsonExtraction.FindBalancedJsonEnd: the nesting depth of the brace counter is unbounded, not `i32`; a start index that is not a character boundary, where the source panics, is not modelled.
- RateLimit.GreedyIsOptimal: time is monotone for each key, and numbers are exact reals, not `f64`; rounding is not modelled.
- Cluster.OrderIndependent: the completion time is the one field that depends on order and is excluded.
- ClusterProtocol.AlwaysInv: the channel is unbounded (sending never waits), and each map operation, poll and delivery is one step.
- AgentHarnesses.AgentHarness.Terminate: a terminated session is not final, since later outputs and errors overwrite the status; mailboxes and the last output are left out.
- HarnessMetrics.Snapshot: the `u32` counters that grow by one are unbounded.
- ContextBudget.Optimize: lower-casing is a parameter, priorities and estimates are exact reals, and chunk metadata other than id, kind, content and priority is left out.
- TokenBatching.RunTask: a batch that the store fails to insert is lost in the source, with a warning; the model ends where the batch is handed over.
- PersonaRouter.Router.PickForRole: a poisoned lock, for which the source returns no pick, is left out; the registry's answers are parameters of the call.
- The parser of review verdicts, rate-limit key choice, header parsing, prompt assembly (`flatten`, `build_structured_brief`) and other helpers without state or branching of note.
- Model calls, MCP, git, shell and HTTP, SQLite storage, embeddings, user interfaces, gateways and cryptography.
- The scheduling part of the run loop (readiness, retries, timeouts, circuit breakers) and the message bus.
