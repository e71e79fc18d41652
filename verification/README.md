# A verified model of oxicode's resolvers, breakers and histories

oxicode is an agent toolkit in Rust. This project models the parts of it that carry state or
recursion over unbounded input, and proves what they do on every input, run or interleaving.

| files | what they model |
|---|---|
| `Roles`, `AliasGraph`, `AliasWalk`, `RolesFlatten`, `RolePatterns` | model roles: comma lists of patterns in which `pi/<role>[:level]` stands for another role, resolved by a depth-first walk with one shared visited set |
| `CircuitBreaker`, `BreakerThreads` | the circuit breaker, call by call and as interleaved atomic steps |
| `StreamRetry`, `StreamRetryLaws`, `RetryTranscript`, `CallRate` | the retry loop over that breaker, and the rate at which a failing upstream is called |
| `Messages`, `MessagesLaws` | conversation messages and their transformation for another provider |
| `ToolProtocol`, `CompactionSeam`, `Compaction`, `CompactionLaws` | the tool-call protocol, the two split searches, compaction, and runs that mix it with appends |
| `RunGuard`, `ModelSwitch`, `ModelSwitchLaws`, `ModelSwitchRuns` | the one-run-at-a-time guard with its waiters, and deferred model switches |
| `Json`, `StructuredOutput`, `Extraction`, `PrintedJson` | the bracket scanner that cuts JSON out of an answer |
| `Tokens`, `ModelDb` | the token estimator, the model index and model ids |
| `Wrappers`, `Sequences`, `Strings` | shared helpers |

Objects whose methods update fields are classes, loops are methods with invariants. Each is proved
equal to a specification function, and the laws are proved about those functions. The breaker under
threads and the run guard are state machines over atomic steps, quantified over all interleavings.

How the main results are put:

- An *address* is the list of positions taken through successive pattern lists. `resolve` emits, in
  lexicographic order, exactly the addresses that are least among those naming the same pattern and
  visiting no role twice. That determines its output without mentioning the walk.
- A history's *outstanding* calls are the tool calls that can still be answered. Compaction keeps
  them, so the compacted history accepts the same next messages as the full one.
- A *trial* of the breaker starts with a check admitted after a trip because the timeout is over, and
  ends with a success or with a failure that finds the 32-bit count at the threshold.
- Where the code falls short of what one would expect, there is a lemma with the failing case and
  one that says exactly when the expectation holds.

Where the code and its documentation disagree, the model follows the code:

- `select_split_point` is documented to return the first item to summarise; it returns the first
  item to keep (oxicode-ai/src/compaction_seam.rs:174-198).
- The breaker's documentation speaks of one trial call; a half-open breaker admits every check
  (oxicode-ai/src/circuit_breaker.rs:26-28, 156, `TrialAdmitsEveryCheck`). Nor does a failed trial
  always re-open it (`FailedTrialReopensExactly`, `WrapLeavesHalfOpen`), and past 2^32 ms it may
  admit calls too early (`RefinesExactly`, `RateHoldsExactly`).
- Extraction is documented to find a pair of braces or of brackets; braces are tried first, so of an
  array of objects only the first is found (oxicode-agent/src/structured_output.rs:57, 78,
  `ArrayOfObjectsLosesRest`).
- The retry loop decides retryability itself: a rate-limit error without an HTTP status is not
  retried on the first attempt although a test comment calls it retryable, and after the first
  attempt every error but a missing key is retried
  (oxicode-agent/src/stream_retry.rs:106-122, 278). Four failed calls are reported as three attempts.
- A switch to another API is documented to transform the history; with two switches in one run it
  may not be (`SecondSwitchHidesFirst`). A switch made after a run has applied its deferred switch
  but before its guard is dropped stays pending and can override a later one
  (`StaleSwitchOverridesLater`).

## Model

| member | source | states |
|---|---|---|
| RolesFlatten.ResolveMeaning | oxicode-ai/src/roles.rs:365-432 | the resolved list is, in lexicographic order of position, one text for each concrete pattern of each role reachable through aliases, found along the least alias path that visits no role twice |
| RolesFlatten.ResolveCount | oxicode-ai/src/roles.rs:406-456 | each reachable role is expanded once: the length is the number of concrete patterns of the reachable roles |
| RolesFlatten.TextIsPatternPlusLevels | oxicode-ai/src/roles.rs:434-456 | each result is the concrete pattern followed by the levels of the aliases on its path, innermost first |
| RolesFlatten.ResolvedAreConcrete | oxicode-ai/src/roles.rs:254-290 | no resolved pattern is an alias, blank, untrimmed or split by a comma |
| RolesFlatten.FlattenFixedPoint | oxicode-ai/src/roles.rs:282-290 | setting a role to its resolved list joined by commas leaves what it resolves to unchanged |
| RolesFlatten.StableWithLevel | oxicode-ai/src/roles.rs:445-452 | appending a thinking level never makes an alias of a concrete pattern |
| RolesFlatten.AliasIsRecognized | oxicode-ai/src/roles.rs:254-280 | every built-in role is recognised behind the prefix, with or without a level |
| RolesFlatten.OnlyAliasesAreRecognized | oxicode-ai/src/roles.rs:254-280 | whatever is taken for an alias is the prefix, a built-in role and perhaps a level, up to whitespace |
| RolePatterns.PlainAliasExactly | oxicode-ai/src/roles.rs:244-262 | a pattern is an alias without a level exactly if it is `pi/` and one of the ten role ids, up to whitespace around it |
| RolePatterns.LevelAliasExactly | oxicode-ai/src/roles.rs:264-280 | it is an alias with a level exactly if one of the six levels ends it after a colon and `pi/` and a role id stand before, up to whitespace around either |
| RolePatterns.OtherPatterns | oxicode-ai/src/roles.rs:437-444 | only whitespace stands for nothing; any pattern that is no alias stands for itself, trimmed |
| RolePatterns.PiecesInOrder | oxicode-ai/src/roles.rs:282-290 | a role set to comma-separated pieces stands for the non-blank ones in order, whitespace around them or not |
| RolePatterns.UnsetInheritsDefault | oxicode-ai/src/roles.rs:414-422 | an unset smol, slow or designer resolves as if set to the value of default, and so does everything that refers to it |
| RolePatterns.UnsetResolvesToNothing | oxicode-ai/src/roles.rs:416-422 | any other unset role resolves to nothing |
| AliasWalk.WalkIsLeastSimple | oxicode-ai/src/roles.rs:406-432 | the walk with a shared visited set emits exactly the least simple address of every entry, in order |
| AliasWalk.VisitedIsReachable | oxicode-ai/src/roles.rs:406-410 | a walk from scratch visits exactly the roles reachable through aliases |
| AliasWalk.WalkCount | oxicode-ai/src/roles.rs:407-427 | as many addresses are emitted as the visited roles hold concrete entries |
| AliasGraph.ExpandIsWalk | oxicode-ai/src/roles.rs:406-456 | the recursion on texts, as the registry runs it, reads off the addresses of the walk |
| Roles.RoleRegistry.Set | oxicode-ai/src/roles.rs:328-331 | assigns one role and leaves the others |
| Roles.RoleRegistry.Resolve | oxicode-ai/src/roles.rs:378-381 | starts the expansion with nothing visited |
| Roles.RoleRegistry.ResolveRole | oxicode-ai/src/roles.rs:406-432 | the loop over a role's patterns yields the specified expansion and visited set |
| Roles.RoleRegistry.ExpandPattern | oxicode-ai/src/roles.rs:437-456 | one pattern yields nothing, itself, or its role's expansion with the level added |
| Roles.LastColon | oxicode-ai/src/roles.rs:271-274 | the position of the last colon, if there is one |
| Roles.ModelRole.FromId | oxicode-ai/src/roles.rs:97-130 | inverts the ten role ids and knows no other |
| Strings.TrimMeaning | oxicode-ai/src/roles.rs:255 | trimming takes whitespace off both ends and nothing else |
| Strings.JoinSplit | oxicode-agent/src/model_id.rs:9-19 | joining what was split gives the text back |
| Strings.SplitJoin | oxicode-ai/src/roles.rs:284-289 | splitting a join of separator-free pieces gives the pieces back |
| CircuitBreaker.DefaultCircuitBreaker.constructor | oxicode-ai/src/circuit_breaker.rs:125-134 | a new breaker is closed with no failures |
| CircuitBreaker.DefaultCircuitBreaker.Check | oxicode-ai/src/circuit_breaker.rs:153-172 | admits unless open and too early, and turns half-open when the timeout is over |
| CircuitBreaker.DefaultCircuitBreaker.RecordSuccess | oxicode-ai/src/circuit_breaker.rs:174-177 | clears the count and closes, leaving the time |
| CircuitBreaker.DefaultCircuitBreaker.RecordFailure | oxicode-ai/src/circuit_breaker.rs:179-188 | counts with 32-bit wrap-around, stores the time cut to 32 bits, opens at the threshold |
| CircuitBreaker.RunMeaning | oxicode-ai/src/circuit_breaker.rs:11-28 | over every history: the count modulo 2^32, the stored time, closed exactly below the threshold, half-open exactly while a late check was admitted and neither a success nor a failure at the threshold came after it |
| CircuitBreaker.CheckMeaning | oxicode-ai/src/circuit_breaker.rs:153-188 | after every history a check is refused exactly when the failures since the last success reached the threshold, no trial is under way and the timeout since the stored time is not over |
| CircuitBreaker.CheckRefines | oxicode-ai/src/circuit_breaker.rs:21-28 | in particular it does so while the last failure fits 32 bits and the 32-bit count has not wrapped below the threshold |
| CircuitBreaker.RefinesExactly | oxicode-ai/src/circuit_breaker.rs:21-28 | from any history on, the breaker refuses at all later times exactly what its documentation says if and only if it has not tripped, or the timeout is over already, or the last failure fell within 2^32 ms and no trial is under way |
| CircuitBreaker.FailedTrialReopensExactly | oxicode-ai/src/circuit_breaker.rs:26-28 | a failure during a trial re-opens the breaker exactly if the 32-bit count is at the threshold; otherwise the trial goes on |
| CircuitBreaker.WrapLeavesHalfOpen | oxicode-ai/src/circuit_breaker.rs:180-187 | after 2^32 - 1 failures, a late check and one more failure the breaker is half-open and admits a check it is documented to refuse |
| CircuitBreaker.TrialAdmitsEveryCheck | oxicode-ai/src/circuit_breaker.rs:156 | after a trip and the timeout any number of checks with no record between them are all admitted |
| BreakerThreads.NoSuccessNoTripLost | oxicode-ai/src/circuit_breaker.rs:153-188 | under every interleaving of checks and failures no increment is lost, and at the threshold the breaker is not closed or some thread still owes the store of Open |
| BreakerThreads.CountIsIncrements | oxicode-ai/src/circuit_breaker.rs:174-180 | under every interleaving, successes included, the count is the number of increments since it was last cleared, modulo 2^32 |
| BreakerThreads.NoTripLostExactly | oxicode-ai/src/circuit_breaker.rs:174-188 | a run, with successes too, never loses a trip exactly if each of its stores of Closed meets a count below the threshold or a store of Open still to come |
| BreakerThreads.ApartLosesNoTrip | oxicode-ai/src/circuit_breaker.rs:174-188 | no trip is ever lost when no failure is counted while some thread stands between the two stores of a success |
| BreakerThreads.SuccessCanLoseTrip | oxicode-ai/src/circuit_breaker.rs:174-177 | a failure that trips the breaker between the two stores of a success is overwritten |
| BreakerThreads.SoloCall | oxicode-ai/src/circuit_breaker.rs:153-188 | without interference the atomic steps of a call add up to the call |
| BreakerThreads.CheckUsesLoadedTime | oxicode-ai/src/circuit_breaker.rs:157-162 | a check that loaded Open decides by the failure time it loaded, whatever other threads store before it compares |
| BreakerThreads.LateStoreOverwrites | oxicode-ai/src/circuit_breaker.rs:163-165 | its store of HalfOpen then replaces any state, and nothing else |
| BreakerThreads.FailureUsesItsCount | oxicode-ai/src/circuit_breaker.rs:180-187 | a failure opens the breaker by the count it made itself, whatever the count is by then |
| StreamRetry.StreamWithRetry | oxicode-agent/src/stream_retry.rs:70-142 | the loop's outcome, effects and breaker are those of the specification |
| StreamRetry.Consult | oxicode-agent/src/stream_retry.rs:86-92 | the optional check before a call |
| StreamRetry.Record | oxicode-agent/src/stream_retry.rs:96-104 | the optional record after a call |
| StreamRetryLaws.InvocationBounds | oxicode-agent/src/stream_retry.rs:79-141 | at most four calls and 2 + 4 + 8 seconds of sleep; without a breaker the loop stops exactly at the first reply that ends it |
| StreamRetryLaws.StreamsExactly | oxicode-agent/src/stream_retry.rs:94-122 | without a breaker the loop succeeds exactly if that reply is a stream |
| StreamRetryLaws.InvocationDisciplined | oxicode-agent/src/stream_retry.rs:82-104 | every call directly follows an admitted check and precedes exactly one record; a refused check ends the loop and records nothing |
| RetryTranscript.InvocationTranscript | oxicode-agent/src/stream_retry.rs:79-141 | the effects and outcome of every invocation, constants written out: a check, a call, a record, a notice and a sleep of 2, 4, 8 seconds or the cap per failed attempt, up to a stream, a missing key, a first error not worth retrying, the fourth call or a refused check; the last error is reported |
| RetryTranscript.InvocationDrives | oxicode-agent/src/stream_retry.rs:86-104 | the log is true to the breaker: played back it answers every check as logged and leaves the breaker the invocation leaves |
| RetryTranscript.TransientIsRetried | oxicode-agent/src/stream_retry.rs:106-122 | without a breaker a first failure by a failed request, a 429 or a status from 500 on leads to another call |
| RetryTranscript.OtherFailureIsFinal | oxicode-agent/src/stream_retry.rs:120-122 | any other first failure but a missing key is final after one call |
| CallRate.CallRateBound | oxicode-agent/src/stream_retry.rs:81-136 | after any history, invocations sharing a breaker against an always failing upstream make, in any window ending before 2^32 ms (or before the timeout, if longer), at most the threshold, once more per wrap of the count, plus one call per reset timeout |
| CallRate.RateHoldsExactly | oxicode-ai/src/circuit_breaker.rs:181-184 | for a timeout up to 2^32 ms every failing run keeps that bound exactly if the window ends before 2^32 ms |
| CallRate.WaitHoldsExactly | oxicode-ai/src/circuit_breaker.rs:157-166 | a call is admitted only a full timeout after the failure that opened the breaker, exactly for clocks below 2^32 ms or below the timeout, or without a timeout |
| CallRate.CallsAreSpaced | oxicode-ai/src/circuit_breaker.rs:153-188 | after any history every call is counted, and whenever the 32-bit count is at the threshold the next call comes a reset timeout later, up to the same time |
| CallRate.InvokeAllBehaves | oxicode-agent/src/stream_retry.rs:81-136 | the effects of such invocations drive the breaker through checks and failures only, one failure per admitted check |
| Messages.MergeAdjacentTextBlocks | oxicode-ai/src/messages.rs:663-698 | the accumulator loop computes the merge |
| Messages.TransformContentBlocks | oxicode-ai/src/messages.rs:623-660 | content is untouched for Anthropic, rewritten and merged otherwise |
| Messages.TransformForProvider | oxicode-ai/src/messages.rs:595-617 | message by message, whatever the source API |
| MessagesLaws.MergeNormal | oxicode-ai/src/messages.rs:662-698 | merging leaves no empty, signed or adjacent texts and keeps every other block in order |
| MessagesLaws.MergeRun | oxicode-ai/src/messages.rs:674-695 | each run of texts becomes their join by newlines, leading empty texts left out |
| MessagesLaws.MergeIncremental | oxicode-ai/src/messages.rs:663-698 | merging a merged front with the rest is merging the whole |
| MessagesLaws.MergeRightIncrementalFails | oxicode-ai/src/messages.rs:676-680 | merging a merged rest is not |
| MessagesLaws.MergeRightIncremental | oxicode-ai/src/messages.rs:676-680 | it is exactly if nothing is pending or the rest does not start with an empty text |
| MessagesLaws.NormalizedIdempotent | oxicode-ai/src/messages.rs:628-658 | transforming content twice is transforming it once |
| MessagesLaws.TransformedMeaning | oxicode-ai/src/messages.rs:623-660 | content for another API is the merge of what its blocks contribute: a thinking block its text in tags, an unknown block its text member if it has one, any other block itself |
| MessagesLaws.ThinkingIsKept | oxicode-ai/src/messages.rs:633-637 | a thinking block alone becomes one text, its thinking in tags |
| MessagesLaws.ChainCollapses | oxicode-ai/src/messages.rs:584-617 | a chain of switches has a closed form: last API; content untouched if all targets are Anthropic, else one normal form |
| MessagesLaws.ToolCallsSurvive | oxicode-ai/src/messages.rs:593 | tool calls are preserved unchanged and in order |
| ToolProtocol.ProtocolMeaning | oxicode-ai/src/compaction.rs:757-773 | the protocol automaton accepts exactly the histories in which every result answers a call of the assistant message before it with only results between, and holds the calls still awaiting one |
| CompactionSeam.SeamBack | oxicode-ai/src/compaction_seam.rs:180-197 | the greatest cut at or below the candidate that is not at a result and does not follow a call |
| CompactionSeam.SelectSplitPoint | oxicode-ai/src/compaction_seam.rs:176-198 | the backward loop finds that cut |
| Compaction.BoundaryBack | oxicode-ai/src/compaction.rs:757-797 | the greatest cut at or below the raw split that follows a boundary message or is 0 |
| Compaction.AlignSplitBoundary | oxicode-ai/src/compaction.rs:774-797 | the backward loop finds that cut, and a split at either end is returned as it is |
| Compaction.LlmCompactor.Compact | oxicode-ai/src/compaction.rs:701-755 | errors, the untouched short history, or a summary and the suffix from the cut |
| Compaction.LlmCompactor.CompactWithFallback | oxicode-ai/src/compaction.rs:559-604 | one summary message before the recent messages, from the model or the fallback |
| Compaction.LlmCompactor.CompactFallback | oxicode-ai/src/compaction.rs:634-697 | the same shape with the fallback's text |
| CompactionLaws.SplitsAgree | oxicode-ai/src/compaction.rs:757-797 | neither split separates a call from its result, and the boundary split is never later than the seam split |
| CompactionLaws.CutExactly | oxicode-ai/src/compaction.rs:757-797 | the boundary split is the last place at or below the naive one right after a user message or an assistant message without tool calls, or 0 |
| CompactionLaws.SplitPointExactly | oxicode-ai/src/compaction_seam.rs:176-198 | the seam split keeps a short list whole and else is the last place at or below the naive one neither before a result nor after a tool call |
| CompactionLaws.CompactedExactly | oxicode-ai/src/compaction.rs:701-755 | nothing to compact exactly if the list is empty or no place to cut exists; a short history is returned as it is; otherwise one assistant message that quotes the reply stands before the messages from the cut on |
| CompactionLaws.CompactionIsInvisible | oxicode-ai/src/compaction.rs:701-755 | over every run of appends, provider switches and compactions keeping at least one message, the live history obeys the protocol with the same outstanding calls as the uncompacted one and ends in the same recent messages |
| CompactionLaws.CompactionKeepsOutstanding | oxicode-ai/src/compaction.rs:740-753 | one compaction keeps the outstanding calls exactly if it keeps a message or none is outstanding |
| CompactionLaws.KeepingNothingLosesCall | oxicode-ai/src/compaction.rs:777-779 | keeping nothing drops a call that awaits its result |
| CompactionLaws.RecompactionFixedPoint | oxicode-ai/src/compaction.rs:740-797 | compacting again replaces only the summary |
| CompactionLaws.TransformKeepsProtocol | oxicode-ai/src/messages.rs:595-617 | switching providers changes neither whether a history obeys the protocol nor its outstanding calls |
| CompactionLaws.TransformKeepsCut | oxicode-ai/src/compaction.rs:774-797 | switching providers does not move the boundary split |
| CompactionLaws.TransformKeepsSplitPoint | oxicode-ai/src/compaction_seam.rs:176-198 | nor the seam split |
| CompactionLaws.CompactionCommutes | oxicode-ai/src/compaction.rs:701-755 | compaction and provider transformation commute but for the API stamped on the summary |
| RunGuard.OneRunNoLostWakeup | oxicode-agent/src/agent.rs:614-635 | under every interleaving at most one run is active, and a parked waiter not yet notified implies a run active or about to notify |
| RunGuard.ReturnsWhenIdle | oxicode-agent/src/agent.rs:955-970 | in every interleaving the step in which a waiter returns is its check of the flag and meets no active run, and every such check returns |
| RunGuard.StartsWhenIdle | oxicode-agent/src/agent.rs:614-620 | in every interleaving a runner that asks to start becomes active exactly if no run is active, and otherwise nothing changes |
| RunGuard.RunEnds | oxicode-agent/src/agent.rs:622-632 | an active run clears the flag, notifies, and its runner can start again |
| RunGuard.WakesOnlyNotified | oxicode-agent/src/agent.rs:960-970 | in every interleaving a waiter wakes only if some run has notified since it armed |
| RunGuard.NotifyReachesAll | oxicode-agent/src/agent.rs:626-631 | whoever was armed or parked when a run notified does not block, whatever happens in between, until it wakes or arms again |
| RunGuard.IdleReleasesWaiters | oxicode-agent/src/agent.rs:960-970 | with no runner left each waiter returns within three steps of its own |
| ModelSwitch.Agent.constructor | oxicode-agent/src/agent.rs:237-291 | an idle agent with nothing pending and the resolved context window |
| ModelSwitch.Agent.SwitchModel | oxicode-agent/src/agent.rs:342-405 | fails without effect on an unknown model or provider, otherwise switches at once or defers |
| ModelSwitch.Agent.SwitchToModel | oxicode-agent/src/agent.rs:421-477 | the same for a model already looked up |
| ModelSwitch.Agent.SwitchResolved | oxicode-agent/src/agent.rs:354-404 | idle: transform, id, provider, window; running: pending, id, window |
| ModelSwitch.Agent.ApplyContextWindow | oxicode-agent/src/agent.rs:304-309 | a window of zero is ignored |
| ModelSwitch.Agent.ApplyPendingModelSwitch | oxicode-agent/src/agent.rs:1008-1032 | takes the pending switch, transforms if it says so, swaps the provider |
| ModelSwitch.Agent.BeginRun | oxicode-agent/src/agent.rs:609-635 | refused while a run is under way, otherwise the prompt is added |
| ModelSwitch.Agent.FinishRun | oxicode-agent/src/agent.rs:850-893 | takes over the loop's messages unless it failed, then applies the pending switch |
| ModelSwitch.Agent.ReleaseRun | oxicode-agent/src/agent.rs:626-631 | dropping the guard makes the agent idle |
| ModelSwitchLaws.ProviderFollowsModel | oxicode-agent/src/agent.rs:342-477 | over every trace without a switch in the gap at a run's end, the id and the next run's provider are those last asked for, and nothing is pending when idle |
| ModelSwitchLaws.ReleaseIsCleanExactly | oxicode-agent/src/agent.rs:858-893 | nothing is left pending exactly if no switch succeeded in that gap |
| ModelSwitchLaws.StepBreaksFollowingExactly | oxicode-agent/src/agent.rs:366-402 | the provider stops following the model exactly at an idle switch that finds another provider pending |
| ModelSwitchLaws.StaleSwitchOverridesLater | oxicode-agent/src/agent.rs:1008-1032 | a switch left pending puts its provider back under a later model id |
| ModelSwitchLaws.DeferredSwitches | oxicode-agent/src/agent.rs:365-386 | deferred switches leave provider and history alone; the last one is kept, compared with the id just before it |
| ModelSwitchLaws.AfterRunMeaning | oxicode-agent/src/agent.rs:354-377 | after a run the history is transformed exactly if the last model differs in API from the one asked for just before |
| ModelSwitchLaws.DeferredMatchesImmediateExactly | oxicode-agent/src/agent.rs:317-329 | a run leaves every history as an immediate switch would exactly if the last two models differ in API just when the first and the last do |
| ModelSwitchLaws.OneSwitchMatches | oxicode-agent/src/agent.rs:317-329 | it always does when the run saw one switch |
| ModelSwitchLaws.SecondSwitchHidesFirst | oxicode-agent/src/agent.rs:355-382 | a second switch to the API of the first leaves the old history untransformed |
| ModelSwitchRuns.UnknownChangesNothing | oxicode-agent/src/agent.rs:343-352 | a request that finds no model or no provider changes nothing |
| ModelSwitchRuns.IdleSwitch | oxicode-agent/src/agent.rs:354-404 | an idle agent takes the new id and provider, and its history is rewritten for the new API exactly if that differs from the current one, Anthropic's if the current model is unknown |
| ModelSwitchRuns.WholeRun | oxicode-agent/src/agent.rs:609-635 | over a whole run with any switches during it: the history is the loop's, or the prompt added if the loop failed, rewritten if the last switch asks for it; the agent is idle, serves the last model and has nothing pending |
| ModelSwitchRuns.WindowFollowsModel | oxicode-agent/src/agent.rs:304-309 | over every trace the context window is the last non-zero one asked for |
| StructuredOutput.FindMatchingBracket | oxicode-agent/src/structured_output.rs:141-166 | the four-variable loop computes the specified search |
| StructuredOutput.FindIsLeastEnd | oxicode-agent/src/structured_output.rs:140-166 | the result is the least position where the depth outside strings returns to zero, nothing if there is none |
| Extraction.EndMeaning | oxicode-agent/src/structured_output.rs:146-163 | for any text: read as code and string literals with escapes, a position returns the depth to zero exactly if a closing bracket stands there outside literals with one bracket open before it |
| StructuredOutput.ExtractJson | oxicode-agent/src/structured_output.rs:57-93 | whole text, fence, braces, brackets, in this order |
| Extraction.FindMeaning | oxicode-agent/src/structured_output.rs:64-79 | a search returns the first occurrence, and nothing exactly if there is none |
| Extraction.ExtractedExactly | oxicode-agent/src/structured_output.rs:57-93 | the whole answer if it parses; else what stands between the first json fence and the next fence, an error if that does not parse; else the first braces to their match, else the first brackets; else nothing is found |
| PrintedJson.FindsPrintedEnd | oxicode-agent/src/structured_output.rs:141-166 | for every printed object or array and any trailing text the scanner returns the last position of the printed value |
| PrintedJson.ValuePasses | oxicode-agent/src/structured_output.rs:146-163 | no printed value disturbs the depth around it, whatever its strings hold |
| PrintedJson.BracketedIsPrinted | oxicode-agent/src/structured_output.rs:78-88 | the slice handed to the parser is the printed value |
| PrintedJson.ExtractsEmbeddedObject | oxicode-agent/src/structured_output.rs:51-88 | an embedded object is extracted whole if no brace comes before it |
| PrintedJson.ExtractsEmbeddedArrayExactly | oxicode-agent/src/structured_output.rs:51-88 | an embedded array is extracted whole exactly if the text from the first opening brace to its match does not parse, or parses to that array |
| PrintedJson.ExtractsArrayWithoutBraces | oxicode-agent/src/structured_output.rs:51-88 | so it is in an answer without braces |
| PrintedJson.ArrayOfObjectsLosesRest | oxicode-agent/src/structured_output.rs:78 | of an embedded array that starts with an object only that object is extracted |
| Tokens.Estimate | oxicode-ai/src/high_level.rs:276-319 | the loop's counters are the character counts and the number of maximal non-whitespace runs |
| Tokens.KindMeaning | oxicode-ai/src/high_level.rs:321-366 | the CJK code points, less the ideographic space; ASCII punctuation is what is printable and no letter, digit or space |
| Tokens.RunEstimate | oxicode-ai/src/high_level.rs:309-318 | a run of n equal characters costs n, 3n/2 or n/4 tokens rounded up, or nothing, by their kind |
| Tokens.WordsEstimate | oxicode-ai/src/high_level.rs:314-316 | every eighth word costs a token more |
| Tokens.EstimateConcat | oxicode-ai/src/high_level.rs:309-318 | concatenation is at most one token above and three below the sum of the estimates |
| Tokens.LowerBoundAttained | oxicode-ai/src/high_level.rs:309-318 | three below is attained |
| Tokens.UpperBoundAttained | oxicode-ai/src/high_level.rs:309-318 | one above is attained |
| Tokens.WordsConcat | oxicode-ai/src/high_level.rs:287-307 | words add up, less one when a word runs across the join |
| Tokens.SumNearWhole | oxicode-ai/src/compaction.rs:443-448 | the per-message sum is off the whole text's estimate by at most three per join one way and one the other |
| ModelDb.ModelIndex | oxicode-ai/src/model_db.rs:265-277 | the nested loops fill the index, later entries replacing earlier ones |
| ModelDb.IndexIsLastMatch | oxicode-ai/src/model_db.rs:265-314 | for a slash-free provider the index holds its last entry with the id |
| ModelDb.LastMatchMeaning | oxicode-ai/src/model_db.rs:265-277 | that entry is the match which no later row and no later entry of its row repeats |
| ModelDb.ScanIsLastMatch | scripts/generate-models.rs:284-291 | on a well-formed table so does the linear scan |
| ModelDb.IndexAgreesExactly | oxicode-ai/src/model_db.rs:311-314 | index and scan agree on every well-formed table exactly for slash-free providers |
| ModelDb.SlashReachesAcross | oxicode-ai/src/model_db.rs:269-272 | a provider name with a slash reaches into another provider's ids |
| ModelDb.ParseModelIdMeaning | oxicode-agent/src/model_id.rs:8-19 | a written id splits at its first slash and keeps the others; without one the provider is Anthropic |
| ModelDb.RegistriesFirst | oxicode-agent/src/model_id.rs:21-29 | the dynamic registry answers before the built-in one, both for the written provider and id; an id without a slash is one of Anthropic's |
| ModelDb.ResolvesByScan | oxicode-agent/src/model_id.rs:21-35 | an id unknown to both registries resolves to what a scan of the catalog finds |

## Left out

- The text of summaries: the model's reply and the fallback's preview text are parameters, and with them truncation, token metadata and frames.
- Floats: compaction ratios and thresholds, costs.
- Weak memory: the atomics of the breaker are modelled as sequentially consistent.
- Durations beyond 2^64 ms: the casts to 64 bits never cut anything in the model.
- A build with overflow checks: it stops at the failure that wraps the count, where the model wraps like one without.
- CallRate.RateHoldsExactly: for timeouts beyond 2^32 ms (49 days) CallRateBound covers windows that end before the timeout; how much later the first window over the rate ends is not determined, only when the first call comes too early (WaitHoldsExactly).
- CompactionSeam.SelectSplitPoint: keeping nothing of a non-empty list is excluded, since the original indexes past the end there.
- StructuredOutput.FindMatchingBracket: positions count characters where the original counts bytes, and the depth is unbounded.
- Text of retry errors beyond the provider's own: the hints appended for an open breaker and a missing key.
- Message fields without influence here: roles, block discriminators, cost inside usage.
- Runs through the tokio stream: they never apply a pending switch; panics inside a run, and interleaving inside one switch call.
- Other ways to change an agent's state: reset, import, direct updates, refreshing credentials.
- The agent loop, tool queues, providers, HTTP, authentication, file discovery, CLI and TUI.
- JSON parsing and schema validation: the parser is an arbitrary function.
- Lists of known role ids and role display data.
