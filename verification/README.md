# Verification models

Dafny models of the agent's planning pipeline, patch engine, outcome protocol, bounded
execution loops and stores, with proofs of what they keep over every input, run or
interleaving. `dafny verify dfyconfig.toml` checks the project. The models follow the code
where its comments or documentation say something else.

## What is modelled

**Plans, missions, queue.** `Digraph` and `TopologicalOrder` define paths, cycles and the
canonical dependency order. `CycleSearch` proves both depth-first cycle detectors against
that definition; `MissionOrdering` and `PlannerOrdering` prove both Kahn sorts against it.
So the two detectors and the two sorts give one verdict on every finite graph whose
dependencies are all nodes, namely whether a cycle exists. `PlanBuilder`, `QueueEnqueue` and `PlannerQueueFlow` compose the
stages: what one stage returns, the next stage's own check accepts. `Payloads` covers the
forbidden-key scan and redaction.

**Patches.** `PatchParse`, `PatchRoundTrip` and `PatchNoise` relate parsing and printing,
and say what else is read and what is refused. `PatchHunks` is the hunk applier, and `PatchApply` runs `apply` on a map from path to lines in which any
copy, write or replace may fail, perhaps leaving a partial file; `PatchRollback` and
`PatchLoss` say what a failed run leaves.
`PatchTargets` resolves the paths of a parsed patch and composes the whole from the text on.
Text is a list of lines. Theorems are in the engine's own placement convention.

**Outcome protocol.** `OutcomeCoordinator` interleaves any number of calls as steps over
shared state, one step for each stretch of code under the lock and for each collaborator
call.

**Execution loops.** `MissionExecution` has the two retry budgets, `RuntimeRouter` provider
failover, `SiteDispatch` capped dispatch, `FindingAssessment` the findings that lead to
tasks. Collaborators are functions that answer by position or by name.

**Stores and limits.** `RateLimiter`, `ImageStore` and `ConversationStore` with
`ChatGateway` over both, `Utf8Truncation` (RFC 3629 section 3), `MemoryHistory` and
`ProjectMemory`.

Classes stand for the source's objects whose fields change; their methods are proved against
functions and predicates on values, and lemmas say what those mean.

## What the proofs found

- The builder needs generated ids to be nonempty, the flow needs them nonblank: a plan with
  a blank id is built and then lost (`FlowCheckExact`, `BlankIdIsLost`). Enqueue validation
  itself never refuses a built plan.
- A batch call that stores the missions and answers other ids is reported as failed with an
  empty list, and the missions stay in the queue (`Enqueue`, `Process`).
- Rollback is exact if and only if every file changed by two entries ends as it began and no
  file to be created has a backup or temporary name that was chosen at an earlier entry
  (`RollbackExact`). Otherwise a file may be left over, or content may be lost, because a
  second backup has replaced the first or a created file a backup: a patch that changes `x`,
  creates `x.bak` and then fails to create `z` loses the content of `x`
  (`OverwrittenExample`; `ContentLostExactly` says exactly when content can be lost).
- Printing and parsing agree if and only if no removal starts with `-- ` without going on as
  the no-newline marker and, after a file with hunks, the next old path does not start with
  that marker (`ParsePrinted`, `HeaderLookalikes`, `ReparsePrinted`).
- A hunk that only inserts goes one line higher than the unified format says
  (`InsertionPlacement`).
- Once every call has had its steps, every claim of an execution id is finalised if and
  only if no status update or report was answered with something other than a mapping
  (`ClaimsFinalisedExactly`); after such an answer the id stays claimed for ever
  (`LostClaim`, `CrashedIdStaysClaimed`).
- The rate limit holds over every run that steps back at most d if and only if it is one or
  d is zero (`CapExactly`).
- Approving a task that needs approval has no effect on automatic dispatch, because its mark
  for it was decided at registration (`Approve`).
- Uploading under a taken id leaves an orphan blob unless the content was there already;
  a message is stored before its conversation is looked up and before a missing planner or
  queue is noticed; creating a conversation overwrites an existing one.
- A task whose spend cannot be recorded counts as sent and as failed (`CountsAddUp`).
- Assessing findings again counts the same observations again, and a later observation with
  the same key is dropped even if it is more severe (`Assess`, `Ingest`).
- The same memory record with another preserve flag collides, because the deterministic id
  leaves the flag out (`CreateRecord`). The circular-decision error is raised only when the
  caller's decision id happens to be a stored record's id (`RecordDecision`).

## Model

| member | source | states |
|---|---|---|
| `CycleSearch.BuilderHasCycle` | agent/orchestrator/plan_validator_mission_builder.py:524-547 | the builder's DFS with `visited` and `in_stack` answers true exactly when some nonempty path leads from a node back to itself, whatever order the keys are visited in |
| `CycleSearch.BuilderSearch.Dfs` | agent/orchestrator/plan_validator_mission_builder.py:530-541 | one call: a found cycle is real, otherwise the node is finished, the stack is as before and nothing reachable was missed; terminates by the shrinking set of unvisited nodes |
| `CycleSearch.SupervisorHasCycle` | agent/autonomy/autonomous_development_supervisor.py:895-913 | the supervisor's DFS with `temp` and `perm` answers true exactly when the graph has a cycle, so both detectors always agree |
| `CycleSearch.SupervisorSearch.Visit` | agent/autonomy/autonomous_development_supervisor.py:899-911 | one visit: a found cycle is real, otherwise the node becomes permanent and `temp` is restored |
| `Digraph.NoSourceMeansCyclic` | agent/orchestrator/plan_validator_mission_builder.py:432-434 | why leftover nodes mean a cycle: a nonempty set in which every node depends on another one of the set contains a cycle |
| `TopologicalOrder.CanonicalUnique` | agent/orchestrator/plan_validator_mission_builder.py:413-437 | a graph has at most one order that respects dependencies and lists a least ready node each time |
| `TopologicalOrder.CompleteMeansAcyclic` | agent/orchestrator/plan_validator_mission_builder.py:432-434 | an order that lists every node after its dependencies exists only for an acyclic graph whose dependencies are all nodes |
| `TopologicalOrder.StuckMeansCyclic` | agent/ai/ai_planner.py:336-339 | when no unlisted node is ready the graph has a cycle |
| `MissionOrdering.OrderMissions` | agent/orchestrator/plan_validator_mission_builder.py:394-437 | succeeds exactly when mission ids are distinct, dependencies are known and there is no cycle; the result is the canonical order of the input's missions; the only error is a circular dependency |
| `MissionOrdering.BuildTables` | agent/orchestrator/plan_validator_mission_builder.py:396-411 | dependants invert the dependency lists with multiplicity and indegrees count repeated dependencies, so decrementing once for each mention reaches zero exactly when all are listed |
| `MissionOrdering.Release` | agent/orchestrator/plan_validator_mission_builder.py:425-428 | lowers the indegree of each dependant as often as it is listed and appends it when, and only when, it becomes ready |
| `MissionOrdering.EmitOne` | agent/orchestrator/plan_validator_mission_builder.py:422-430 | one round keeps: ready missions are exactly the unlisted ones with all dependencies listed, sorted; the list so far respects dependencies and takes the least first |
| `MissionOrdering.Verdict` | agent/orchestrator/plan_validator_mission_builder.py:432-437 | at the end every mission is listed if and only if the input is orderable |
| `MissionOrdering.DependenciesComeFirst` | agent/orchestrator/plan_validator_mission_builder.py:394-437 | in the result every mission follows all its dependencies |
| `MissionOrdering.EachIsLeastReady` | agent/orchestrator/plan_validator_mission_builder.py:413-437 | each listed mission has a lower priority number, or the same and a lower step id, than every later mission that was ready at that moment |
| `MissionOrdering.TiesKeepInputOrder` | agent/orchestrator/plan_validator_mission_builder.py:413-437 | among missions of one priority and step id the earlier in the input comes first |
| `Ordering.LexExactly` | agent/orchestrator/plan_validator_mission_builder.py:413-437 | one string is below another exactly if at the first place where they differ it ends or has the smaller character |
| `MissionOrdering.OrderIsUnique` | agent/orchestrator/plan_validator_mission_builder.py:394-437 | one input has one order |
| `MissionOrdering.OrderIgnoresInputOrder` | agent/orchestrator/plan_validator_mission_builder.py:216-217 | with distinct mission and step ids, permuting the input leaves the output unchanged |
| `PlannerOrdering.ToposortSpecs` | agent/ai/ai_planner.py:301-341 | succeeds exactly when every dependency is a given key and the graph is acyclic; says which of the two failed; the result has each key once with the last specification given for it, in dependency order, least type index first |
| `PlannerOrdering.BuildEdges` | agent/ai/ai_planner.py:309-319 | adjacency sets and indegrees describe exactly the different dependencies of each key; an unknown dependency is found exactly when there is one |
| `PlannerOrdering.EmitOne` | agent/ai/ai_planner.py:326-334 | one round of pop, release in type order and re-sort keeps the ready list exact and the order canonical |
| `PlannerOrdering.OrderKeys` | agent/ai/ai_planner.py:321-339 | the leftover test: all keys are listed exactly when there is no cycle |
| `PlannerOrdering.ValidateDependencies` | agent/ai/ai_planner.py:343-356 | accepts exactly the plans in which each dependency is some mission's id and every mission with that id comes earlier |
| `PlannerOrdering.Plan` | agent/ai/ai_planner.py:70-96 | plans exactly the lists whose dependencies are given keys without a loop; ids number the sorted order; each mission carries its specification's fields and the ids of its dependency keys, as many and in the order of their type index; the final check never fails |
| `PlannerOrdering.PlannableExactly` | agent/ai/ai_planner.py:309-339 | what is planned, without the graph: every dependency is a given key and no keys depend on one another in a loop |
| `PlannerOrdering.SortIsSpelledOut` | agent/ai/ai_planner.py:301-341 | the sorted list, without the graph: each key once with its last specification, after all that any specification of the key depends on, and with no higher type index than a later one that could have come already |
| `PlannerOrdering.TypeIndexExactly` | agent/ai/ai_planner.py:371-376 | the eight known types in their order, any other after them |
| `PlannerOrdering.PlannerOrderUnique` | agent/ai/ai_planner.py:371-376 | for keys of the known types the order of keys is unique |
| `PlanBuilder.ValidatePlan` | agent/orchestrator/plan_validator_mission_builder.py:175-275 | accepts exactly the valid plans; a wrong header is an invalid plan, a wrong step list gives the first fault of its first wrong step, and only then come self and unknown dependencies; a circular dependency is reported exactly when everything else is right and the step graph has a cycle |
| `PlanBuilder.PlansAcceptedExactly` | agent/orchestrator/plan_validator_mission_builder.py:175-275 | a valid plan in plain terms: for the request, with steps of distinct nonblank ids, known task types and accepted payloads that depend only on other steps of the plan and on no loop of them |
| `PlanBuilder.RequestsAcceptedExactly` | agent/orchestrator/plan_validator_mission_builder.py:143-173 | a request is accepted exactly with nonblank identifiers and a supported task type |
| `PlanBuilder.PayloadsAcceptedExactly` | agent/orchestrator/plan_validator_mission_builder.py:242-252 | a payload is accepted exactly if it is a mapping of JSON values in which no mapping at any depth has one of the eight forbidden keys in any letter case |
| `PlanBuilder.LoopExactly` | agent/orchestrator/plan_validator_mission_builder.py:265-275 | the step graph is cyclic exactly if some steps of the plan depend on one another in a loop |
| `PlanBuilder.ValidateSteps` | agent/orchestrator/plan_validator_mission_builder.py:202-253 | accepts exactly step lists with distinct ids, supported types, nonblank dependencies and safe payloads; otherwise the error is the first fault of the first step that is wrong: blank id, repeated id, type or dependencies, payload |
| `PlanBuilder.ValidateDependencies` | agent/orchestrator/plan_validator_mission_builder.py:255-263 | accepts exactly plans without self and unknown dependencies |
| `PlanBuilder.GenerateIds` | agent/orchestrator/plan_validator_mission_builder.py:343-356 | succeeds exactly when the generator's first answers are nonempty and distinct, and returns them |
| `PlanBuilder.EdgeBetweenSteps` | agent/orchestrator/plan_validator_mission_builder.py:361-366 | a dependency between built missions comes from a dependency between the steps behind them |
| `PlanBuilder.BuiltOrderable` | agent/orchestrator/plan_validator_mission_builder.py:358-392 | missions built from a valid plan are always orderable, even when dependency lists repeat an id |
| `PlanBuilder.BuildMissions` | agent/orchestrator/plan_validator_mission_builder.py:336-392 | succeeds exactly when request and plan are valid and the id generator cooperates; a circular dependency is never the fault of the ordering step; the result is one mission for each step, which carries its step's fields, the request's identifiers and a redacted payload, depends on the missions of exactly the steps its own depends on, as many and in lexicographic order, and comes after them |
| `PlanBuilder.DependenciesExactly` | agent/orchestrator/plan_validator_mission_builder.py:361-366 | mission i depends on mission j if and only if their steps do |
| `PlanBuilder.BuiltInOrder` | agent/orchestrator/plan_validator_mission_builder.py:389-392 | in the result each mission follows the missions of its step's dependencies |
| `PlanBuilder.BuiltLeastFirst` | agent/orchestrator/plan_validator_mission_builder.py:389-392 | of two missions of which the later was ready already, the earlier has the lower priority number or, with the same, the lower step id |
| `Payloads.ContainsForbiddenKeys` | agent/orchestrator/plan_validator_mission_builder.py:464-480 | the explicit-stack scan finds a forbidden key exactly when one occurs anywhere inside the payload |
| `Payloads.RedactionSound` | agent/orchestrator/plan_validator_mission_builder.py:503-522 | redaction leaves no sensitive value, keeps safe payloads safe, adds no forbidden key and changes nothing exactly when the payload was clean |
| `Payloads.MentionsExactly` | agent/orchestrator/plan_validator_mission_builder.py:464-480 | a payload mentions a name exactly if some mapping at some path in it has it as a key, in any case of ASCII letters |
| `Payloads.JsonSafeExactly` | agent/orchestrator/plan_validator_mission_builder.py:482-501 | a value is JSON-safe exactly if nothing at any path in it is opaque and every mapping has only texts as keys |
| `Payloads.RedactedAt` | agent/orchestrator/plan_validator_mission_builder.py:503-522 | below open keys, at any path: the value under a sensitive key in any letter case is `[redacted]`, keys and scalars stay, lists and mappings keep their size |
| `QueueEnqueue.ValidateEnqueueRequest` | agent/orchestrator/queue_enqueue_coordinator.py:359-429 | accepts exactly requests with nonblank references, distinct nonempty ids, the right project, pending status and dependencies strictly earlier |
| `QueueEnqueue.EnqueueableExactly` | agent/orchestrator/queue_enqueue_coordinator.py:359-429 | an enqueueable request position by position |
| `QueueEnqueue.CheckRecords` | agent/orchestrator/queue_enqueue_coordinator.py:382-401 | accepts exactly the missions of one project, pending, with distinct nonempty ids; each error names a fault that is there |
| `QueueEnqueue.CheckOrder` | agent/orchestrator/queue_enqueue_coordinator.py:403-423 | accepts exactly lists whose dependencies are earlier; each error names a fault that is there |
| `QueueEnqueue.EnqueueIndividually` | agent/orchestrator/queue_enqueue_coordinator.py:255-357 | stores and reports exactly the missions before the first call that does not store, all of them if and only if every call stores |
| `QueueEnqueue.StoredBeforeExact` | agent/orchestrator/queue_enqueue_coordinator.py:255-357 | how many that is: all calls before it store and the next, if any, does not |
| `QueueEnqueue.Enqueue` | agent/orchestrator/queue_enqueue_coordinator.py:68-357 | accepts exactly when the request is valid, the queue belongs to the project and the queue takes all missions; what the queue holds afterwards in every case: nothing more unless the request is valid and the queue the project's, and then what it stored, also when the request fails; a batch call that answers other ids has stored everything and is reported as failed with an empty list |
| `QueueEnqueue.PartialEnqueueClosed` | agent/orchestrator/queue_enqueue_coordinator.py:255-330 | wherever one-by-one enqueueing stops, the stored missions include all dependencies of each |
| `PlannerQueueFlow.BuiltMissionsAreEnqueueable` | agent/orchestrator/planner_queue_flow_coordinator.py:486-491 | every mission list the builder returns passes the queue coordinator's validation for its project and any nonblank queue reference |
| `PlannerQueueFlow.NormalisedRequestValid` | agent/orchestrator/planner_queue_flow_coordinator.py:80-181 | the request normalised from a valid flow request is valid for the builder exactly when its task type is supported |
| `PlannerQueueFlow.FlowRequestsExactly` | agent/orchestrator/planner_queue_flow_coordinator.py:80-181 | which requests the flow accepts: approved, every text nonblank, and a project id in the context the request's own |
| `Text.StripDecomposes` | agent/orchestrator/planner_queue_flow_coordinator.py:80-181 | stripping takes blanks off both ends and nothing else |
| `PlannerQueueFlow.FlowCheckExact` | agent/orchestrator/planner_queue_flow_coordinator.py:413-449 | the flow's own id check passes exactly when every generated id is nonblank, while the builder asks only for nonempty ones |
| `PlannerQueueFlow.BlankIdPlan` | agent/orchestrator/planner_queue_flow_coordinator.py:413-449 | a valid request, a plan of one step for it and a generator of spaces meet everything the builder demands and fail the flow's own check |
| `PlannerQueueFlow.BlankIdIsLost` | agent/orchestrator/planner_queue_flow_coordinator.py:413-449 | processing that request builds its missions and rejects them, and the queue stays as it was, whatever it would have answered |
| `PlannerQueueFlow.ValidateAndBuild` | agent/orchestrator/planner_queue_flow_coordinator.py:336-406 | succeeds exactly on valid plans and what it returns is enqueueable |
| `PlannerQueueFlow.FlowCoordinator.Process` | agent/orchestrator/planner_queue_flow_coordinator.py:183-608 | accepted exactly when the plan is built, its ids are nonblank, the queue is the project's and takes them; when exactly a request ends in each other way; the built missions carry the request's stripped identifiers; enqueue validation never refuses a built plan; counters add up; the queue's content in every case: unchanged unless the built list reaches the queue, and then what the queue stored, a prefix after a partial failure and everything after a batch call that answers other ids, while the result lists nothing |
| `PlannerQueueFlow.FlowCoordinator.HandOver` | agent/orchestrator/planner_queue_flow_coordinator.py:408-608 | the part after building: exact acceptance, and what the queue holds in each case, including each kind of rejection |
| `PatchHunks.ApplyHunksPreview` | agent/git/patch_engine.py:455-500 | the cursor loop succeeds exactly when the recursive definition of applying hunks does, with its result, and reports the first fault of the first bad hunk |
| `PatchHunks.WalkHunk` | agent/git/patch_engine.py:473-490 | one hunk's lines succeed exactly when the old side is found at the cursor; they produce the new side and advance by the old one |
| `PatchHunks.OneHunkExactly` | agent/git/patch_engine.py:459-497 | one hunk is accepted exactly if its old side stands at the place its range names and each count is zero or the length of its side; its new side then stands there instead |
| `PatchHunks.SideLengths` | agent/git/patch_engine.py:473-490 | the old side has a line for each context and each removed line, the new side for each context and each added one |
| `PatchHunks.MismatchNamesLine` | agent/git/patch_engine.py:475-486 | a reported mismatch is that of a context or of a removed line, as the error says, whose text is not where it should be |
| `PatchHunks.SidesAppend` | agent/git/patch_engine.py:473-490 | the sides of a body are those of its lines in order |
| `PatchHunks.EachHunkFits` | agent/git/patch_engine.py:459-490 | in an accepted list each hunk is accepted alone and begins where the one before it ends or later |
| `PatchHunks.PreviewIsReplacement` | agent/git/patch_engine.py:455-500 | a hunk list is accepted with a result if and only if the file splits into gaps and old sides at the stated starts, and the result is the same gaps with the new sides |
| `PatchHunks.ReverseRestores` | agent/git/patch_engine.py:455-500 | the hunks with additions and removals swapped, counts swapped and starts where they landed are accepted on the result and restore the original |
| `PatchHunks.InsertionPlacement` | agent/git/patch_engine.py:455-500 | an insertion-only hunk anywhere in an accepted list goes in front of line `old_start`; that agrees with the unified format (IEEE Std 1003.1-2017, diff utility), which puts it after that line, if and only if `old_start` is zero, or the line exists before the next hunk and each inserted line equals it |
| `PatchApply.GenerateName` | agent/git/patch_engine.py:259-269 | the numbering loop ends and returns the first candidate name that no file has |
| `PatchApply.FirstFreeUnique` | agent/git/patch_engine.py:259-269 | the first free name is unique |
| `PatchApply.ChosenNamesExactly` | agent/git/patch_engine.py:259-269 | a backup is the first free name among the target's with `.bak`, `.bak1` and so on appended, a temporary file the same with `.tmp_patch` |
| `PatchApply.BuildNewFileLines` | agent/git/patch_engine.py:445-453 | succeeds exactly when all hunk lines are additions, with exactly those lines |
| `PatchApply.AddedLinesAppend` | agent/git/patch_engine.py:445-453 | a new file's content is that of its hunks in order, each giving its added lines |
| `PatchApply.PreviewIsLast` | agent/git/patch_engine.py:344-365 | of several entries for one file the last one's content is kept, made from the file as it was |
| `PatchApply.PreviewsAreTargets` | agent/git/patch_engine.py:344-365 | exactly the targets have a content to be written |
| `PatchApply.VerifyOnly` | agent/git/patch_engine.py:317-342 | a dry run succeeds exactly when every entry is applicable to the files |
| `PatchApply.PreVerify` | agent/git/patch_engine.py:344-365 | the real run's pre-verification succeeds on exactly the same inputs and keeps each entry's content |
| `PatchApply.Disk.WriteAtomic` | agent/git/patch_engine.py:428-443 | temporary file, then replace: the effect on the disk whichever of its operations fails |
| `PatchApply.Disk.WriteAll` | agent/git/patch_engine.py:367-392 | the write stage: backups and writes in order, up to the first failing operation |
| `PatchApply.Disk.Apply` | agent/git/patch_engine.py:271-415 | a dry run and a failed verification change nothing; otherwise the disk is the completed write stage or its rollback |
| `PatchRollback.RollbackRestores` | agent/git/patch_engine.py:397-415 | if every file changed by two entries ends as it began and no created file has a backup or temporary name chosen at an earlier entry, then whichever copy, write or replace fails, rollback gives every original file its content back and removes every created one, up to leftover backup and temporary files |
| `PatchRollback.RollbackLosesRepeated` | agent/git/patch_engine.py:382-387 | when one file is changed by two entries, some failure makes rollback keep the change, because the second backup replaced the first |
| `PatchRollback.RollbackExact` | agent/git/patch_engine.py:367-415 | for every applicable patch: rollback restores everything after every failure if and only if each file changed by two entries ends with the content it started with and no file to be created has a backup or temporary name chosen at an earlier entry |
| `PatchRollback.ClashLeavesFile` | agent/git/patch_engine.py:397-415 | when a file to be created has a name chosen at an earlier entry, some failure leaves a file there that rollback does not remove |
| `PatchRollback.OverwrittenBackup` | agent/git/patch_engine.py:401-413 | when a created file overwrites the backup of a file changed before it, the next failure makes rollback put the created content in place of the original |
| `PatchRollback.OverwrittenExample` | agent/git/patch_engine.py:401-413 | a concrete patch of three different files for which that happens: `x` changes, `x.bak` and `z` are created |
| `PatchLoss.ContentLostExactly` | agent/git/patch_engine.py:367-415 | for every applicable patch: some failure leaves an original file without its content if and only if two entries change a file to something else than it held, or a created file replaces a backup still in use with something else than the original and a later entry can fail |
| `PatchLoss.BackupContent` | agent/git/patch_engine.py:377-392 | before any failure the backup of a changed file holds the original content, unless a created file has replaced it |
| `PatchRollback.RestoredAppliesAgain` | agent/git/patch_engine.py:344-415 | after such a rollback the same patch passes verification again |
| `PatchRollback.DistinctTargetsHarmless` | agent/git/patch_engine.py:382-387 | patches with pairwise distinct targets meet that condition |
| `PatchRollback.CompletesExactly` | agent/git/patch_engine.py:367-395 | the write stage fails if and only if one of the operations it takes fails, their number depending on the entries alone |
| `PatchRollback.CompletedRunInstalls` | agent/git/patch_engine.py:367-395 | when no operation fails: the files are the original ones, the targets and the backups and no temporary file; every target equals its preview and every other original file is as it was |
| `PatchRollback.CompletedRunBackups` | agent/git/patch_engine.py:377-390 | under the same two conditions as for rollback, the recorded backup of every changed file holds its original content |
| `PatchParse.ParsePatch` | agent/git/patch_engine.py:81-214 | the index loop computes the recursive reading of a patch, with the same syntax errors |
| `PatchParse.ParseHunks` | agent/git/patch_engine.py:145-207 | the hunk loop reads hunks up to the next file header and reports where it stopped |
| `PatchParse.ParseBody` | agent/git/patch_engine.py:179-200 | the body loop reads lines up to the next header and rejects any other marker |
| `PatchRoundTrip.HeaderLookalikes` | agent/git/patch_engine.py:183 | exactly the removals whose text starts with `-- ` and does not go on as the no-newline marker end a hunk body early |
| `PatchRoundTrip.HeaderReadsBack` | agent/git/patch_engine.py:147-175 | a printed hunk header reads back as its ranges |
| `PatchRoundTrip.HunksReadBack` | agent/git/patch_engine.py:145-207 | printed hunks without lookalikes read back |
| `PatchRoundTrip.HunksCutShort` | agent/git/patch_engine.py:183 | with a lookalike they never read back as the same hunks |
| `PatchRoundTrip.HunksRunOver` | agent/git/patch_engine.py:183-184 | if the next file's header is taken for a removal, the last hunk grows by it and the patch does not read back |
| `PatchRoundTrip.ParsePrinted` | agent/git/patch_engine.py:81-214 | for every nonempty patch with trimmed paths, parsing its printed form returns it if and only if no removal looks like a file header and no later file header looks like a removal |
| `PatchRoundTrip.ReparsePrinted` | agent/git/patch_engine.py:81-214 | for every text that parses, printing the patch and parsing that gives the same patch if and only if no later file header looks like a removal; bodies that were parsed hold no lookalike |
| `PatchNoise.GitDiffReads` | agent/git/patch_engine.py:126-209 | a patch printed with git's header lines before each file reads back if and only if no removal looks like a file header |
| `PatchNoise.MarksSkipped` | agent/git/patch_engine.py:185-189 | marks for a missing newline anywhere in a body do not change what is read |
| `PatchNoise.StrayLinesSkipped` | agent/git/patch_engine.py:203-207 | other lines between a file header and its hunks are skipped |
| `PatchNoise.RangeWithoutCount` | agent/git/patch_engine.py:115-123 | a range without a count is one line long |
| `PatchNoise.TextAfterRanges` | agent/git/patch_engine.py:147-175 | text after the second mark of a hunk header does not matter |
| `PatchNoise.NoHeaders` | agent/git/patch_engine.py:211-212 | a text without a file header is no patch |
| `PatchNoise.SecondHeaderMissing` | agent/git/patch_engine.py:128-138 | a file header at the end, or without its second line, is refused, whatever was skipped before it |
| `PatchNoise.BadMarker` | agent/git/patch_engine.py:190-200 | a body line with any other marker is refused |
| `PatchTargets.ValidateExact` | agent/git/patch_engine.py:228-257 | path validation accepts exactly relative paths without `..`, and its result names the same file without detours; two accepted paths have one target exactly when they have the same components |
| `PatchTargets.PartsOfJoined` | agent/git/patch_engine.py:240-252 | joining path components and taking them apart gives them back |
| `PatchTargets.PartsAppend` | agent/git/patch_engine.py:240-252 | the components of two paths with a slash between them are those of both; an empty path and `.` have none |
| `PatchTargets.GitTargets` | agent/git/patch_engine.py:216-226 | `a/p` and `b/p` resolve to `p`: changed under the old side, created under the new one from `/dev/null`, changed under the old one if the new is none |
| `PatchTargets.PlainTargets` | agent/git/patch_engine.py:216-226 | a path without these prefixes keeps all its components |
| `PatchTargets.DescribedTarget` | agent/git/patch_engine.py:292-310 | the entry of a file patch in plain terms: its hunks, whether it is new, and the components of its target with an `a/` or `b/` dropped |
| `PatchTargets.ResolveExact` | agent/git/patch_engine.py:292-310 | a file patch is accepted exactly when each side that names a file stays inside and there is one; its target is that of the old side or, failing that, of the new; each refusal names the side at fault |
| `PatchTargets.ResolveAll` | agent/git/patch_engine.py:292-310 | all file patches are resolved in order, or the first refused one is reported |
| `PatchTargets.DescribedOnce` | agent/git/patch_engine.py:292-310 | the entries of a parsed patch are determined by it |
| `PatchTargets.ApplyText` | agent/git/patch_engine.py:271-415 | from the text on: refused before the disk is looked at exactly when it does not parse or names a path outside; otherwise each entry's target has the components of its path without a git prefix, and the effect is that of the entries |
| `OutcomeCoordinator.StepPreserves` | agent/execution/execution_outcome_coordinator.py:289-535 | every step of every call keeps the protocol's invariant |
| `OutcomeCoordinator.Reachable` | agent/execution/execution_outcome_coordinator.py:289-535 | the invariant holds after every interleaving of any number of calls |
| `OutcomeCoordinator.OneCallPerExecution` | agent/execution/execution_outcome_coordinator.py:334-357 | whatever was done for an execution id was done by one call, and no id is both in flight and finished |
| `OutcomeCoordinator.CollaboratorsCalledOnce` | agent/execution/execution_outcome_coordinator.py:378-535 | per execution id: status update, ledger and report store each at most once, in that order, each only after the one before succeeded |
| `OutcomeCoordinator.ResultExplained` | agent/execution/execution_outcome_coordinator.py:486-535 | an accepted stored result means each collaborator succeeded once in order; a failed one says whether usage was recorded |
| `OutcomeCoordinator.ResultsStable` | agent/execution/execution_outcome_coordinator.py:630-641 | a stored result never changes |
| `OutcomeCoordinator.AnswersMatchStored` | agent/execution/execution_outcome_coordinator.py:343-357 | in every run each answer is a rejection, a duplicate refusal or the one stored result of its id (`ClaimAnswers` says which) |
| `OutcomeCoordinator.ClaimAnswers` | agent/execution/execution_outcome_coordinator.py:334-357 | the claim step in every run: a finished id is answered with its stored result, one in flight is refused as duplicate, and only a free one is claimed |
| `OutcomeCoordinator.FinishedAnswered` | agent/execution/execution_outcome_coordinator.py:337-357 | a valid call for a finished execution is answered with the stored result, and keeps that answer in every continuation |
| `OutcomeCoordinator.AnswersStay` | agent/execution/execution_outcome_coordinator.py:289-535 | a call that has returned keeps its answer |
| `OutcomeCoordinator.InvalidCallRejected` | agent/execution/execution_outcome_coordinator.py:306-331 | an invalid call reaches no collaborator, claims nothing and is answered with a rejection, in every interleaving |
| `OutcomeCoordinator.ProjectNotFound` | agent/execution/execution_outcome_coordinator.py:359-376 | when the project is not found no collaborator is ever called for the id, and the answer is the cross-project failure |
| `OutcomeCoordinator.ReplyOutcomes` | agent/execution/execution_outcome_coordinator.py:378-535 | where each collaborator's reply leads, with the failure code and whether usage counts as recorded |
| `OutcomeCoordinator.NineStepsEnd` | agent/execution/execution_outcome_coordinator.py:289-535 | nine steps of its own end a call, whatever other calls do in between |
| `OutcomeCoordinator.OtherStepsLeave` | agent/execution/execution_outcome_coordinator.py:289-535 | other calls' steps never move a call, so no call waits for another |
| `OutcomeCoordinator.CrashExactly` | agent/execution/execution_outcome_coordinator.py:393-399 | in every interleaving the calls that raised are exactly those whose status update or report was answered with something that is not a mapping |
| `OutcomeCoordinator.MappingsNeverCrash` | agent/execution/execution_outcome_coordinator.py:393-399 | collaborators that answer with mappings never make a call raise |
| `OutcomeCoordinator.QuietInflight` | agent/execution/execution_outcome_coordinator.py:638-641 | when all calls have ended, the ids in flight are exactly those of calls answered with something that is not a mapping |
| `OutcomeCoordinator.ClaimsFinalisedExactly` | agent/execution/execution_outcome_coordinator.py:630-641 | after any run in which every call got nine steps, every claim is finalised if and only if no status update or report was answered with something that is not a mapping |
| `OutcomeCoordinator.CrashedIdStaysClaimed` | agent/execution/execution_outcome_coordinator.py:334-357 | after a raise, however the run goes on, the id stays in flight without a result and nothing more is done for it |
| `OutcomeCoordinator.LostClaim` | agent/execution/execution_outcome_coordinator.py:343-399 | a concrete run that leaves an id in flight, in which the next call for it is refused as a duplicate |
| `MissionExecution.AttemptMission` | agent/autonomy/autonomous_development_supervisor.py:1094-1161 | attempts for one mission: within both retry budgets, one call more than its retries unless blocked, failed or blocked only for a stated reason |
| `MissionExecution.ExecuteMissions` | agent/autonomy/autonomous_development_supervisor.py:1051-1169 | the whole run: completed, failed and blocked partition the missions, each completed mission follows its dependencies, the retries are exactly those of the missions and stay within the total cap, and a mission reaches the executor only when its dependencies have completed and the rate allows; each failed one got a reply without a retry or had used up a budget, each blocked one was refused by a dependency, the rate or a budget check |
| `MissionExecution.NeverRetried` | agent/autonomy/autonomous_development_supervisor.py:1137-1161 | in every run a reply in category security, compliance, auth, billing or permission answers the last call of its mission, which is not completed without success and failed if the budget check after it passes |
| `MissionExecution.RetriedOnlyWhenPermitted` | agent/autonomy/autonomous_development_supervisor.py:1098-1161 | every call but the last raised and was classified retryable, or failed retryably in none of these categories and within the budget |
| `MissionExecution.CompletesExactly` | agent/autonomy/autonomous_development_supervisor.py:1119-1136 | a mission completes exactly when its last reply is a success that the budget check lets pass |
| `MissionExecution.ExecutedExactly` | agent/autonomy/autonomous_development_supervisor.py:1068-1097 | a mission is given to the executor exactly if each of its dependencies completed before it, the rate allows it and the budget check before its first call passes |
| `MissionExecution.GivenUpOnlyWhenSpent` | agent/autonomy/autonomous_development_supervisor.py:1103-1161 | a mission that fails although its last reply permits a retry has used up the budget of its own or of the run |
| `MissionExecution.VerdictsPartition` | agent/autonomy/autonomous_development_supervisor.py:1051-1169 | completed, failed and blocked together are the missions, each as often as it was listed |
| `MissionExecution.CompletedAfterDependencies` | agent/autonomy/autonomous_development_supervisor.py:1068-1078 | each completed mission comes after all its dependencies in the completed list |
| `MissionExecution.SmoothRunCompletes` | agent/autonomy/autonomous_development_supervisor.py:1051-1169 | if every call succeeds and no limit interferes, everything completes if and only if the list is in dependency order |
| `MissionExecution.FirstSuccessEnds` | agent/autonomy/autonomous_development_supervisor.py:1133-1136 | a success is never retried |
| `RuntimeRouter.CandidateNames` | agent/execution/runtime_router.py:102-111 | preferred names, then the registered ones, each once and none empty |
| `RuntimeRouter.ExecuteOne` | agent/execution/runtime_router.py:149-209 | one attempt succeeds exactly when workspace, adapter, publishing and removal all go well, so a failed removal takes a success back; a workspace that was created is removed once and last, one that was not is the error |
| `RuntimeRouter.Execute` | agent/execution/runtime_router.py:211-301 | refines the first decisive outcome in candidate order; nothing runs on a dirty checkout; the request succeeds exactly when some eligible candidate goes well over a clean checkout and each one before it failed over a clean checkout with a reason that may fail over |
| `RuntimeRouter.StopsExactly` | agent/execution/runtime_router.py:230-288 | two readings of where the loop stops agree: the shortest start of the eligible names that ends in a decisive one, and the recursive form |
| `RuntimeRouter.ProtectedReasonsAreTerminal` | agent/execution/runtime_router.py:59-75 | a provider that fails with a protected marker in its reason is the last one executed and its answer is the request's, whatever else the reason says and whoever comes next |
| `RuntimeRouter.HandsOnExactly` | agent/execution/runtime_router.py:57-77 | the next eligible provider is executed exactly after a failure over a clean checkout whose reason has none of the six protected markers, and that is an unavailability, or no block and one of the ten failover markers, or a block that names a quota; markers count in any letter case |
| `RuntimeRouter.FailoverExactly` | agent/execution/runtime_router.py:57-77 | the failover test in these terms |
| `RuntimeRouter.AnswerSpelledOut` | agent/execution/runtime_router.py:271-301 | the answer: the last provider's result over a clean checkout, a block over a dirty one, unavailable if none was executed |
| `RuntimeRouter.PreferredFirst` | agent/execution/runtime_router.py:102-111 | preferred names come first in their order, each name once, and after them only other registered ones |
| `RuntimeRouter.NormaliseSpelledOut` | agent/execution/runtime_router.py:102-106 | a preferred name is looked up stripped and in lower case |
| `RuntimeRouter.TriedOnce` | agent/execution/runtime_router.py:211-301 | no provider is executed twice, and every one executed was registered and eligible |
| `RuntimeRouter.SucceedsExactly` | agent/execution/runtime_router.py:230-301 | the same success condition for any list of registered candidates: the winner is the one that goes well after all before it were passed over |
| `RuntimeRouter.WorkspacesRemovedOnce` | agent/execution/runtime_router.py:149-209 | each created workspace gets exactly one removal call and nothing else is removed |
| `RuntimeRouter.RegistrationOrderIrrelevant` | agent/execution/runtime_router.py:102-111 | the order in which providers were registered does not matter |
| `SiteDispatch.SiteProject.DispatchSafeTasks` | agent/operations/site_operations_manager.py:743-854 | a cycle takes exactly the open tasks of low or medium risk that need no approval and whose kind of fix is switched on, and decides them greedily, highest priority first and by id among equals; what is sent keeps all three limits; counts, codes and submissions are those of the decisions; each decided task ends with the status of its own outcome, and any other at most starts to wait for an approval; no rejected task is considered |
| `SiteDispatch.DecidedExactly` | agent/operations/site_operations_manager.py:775-853 | what becomes of each task, in plain terms: the first failing check decides, in the source's order, and a task that passes them is sent if the submission succeeds |
| `SiteDispatch.SettledAt` | agent/operations/site_operations_manager.py:775-853 | after all decisions each decided task has the status its own outcome gives it and every other keeps its status |
| `SiteDispatch.SiteProject.Approve` | agent/operations/site_operations_manager.py:859-875 | an approved task that waited is a candidate again, but a task that needed the approval is dispatched by no cycle |
| `SiteDispatch.SiteProject.Reject` | agent/operations/site_operations_manager.py:877-891 | a rejected task is cancelled whatever its status, and stays so through every later operation |
| `SiteDispatch.SiteProject.CollectEligible` | agent/operations/site_operations_manager.py:755-772 | eligible are exactly the open tasks marked for automatic dispatch; candidates lacking an approval start to wait for it |
| `SiteDispatch.SiteProject.SendTask` | agent/operations/site_operations_manager.py:775-853 | one task: task cap, cost cap, budget, duplicate key, submission, in this order, with the state after each |
| `SiteDispatch.SiteProject.Register` | agent/operations/site_operations_manager.py:667-674 | a task enters once; it is marked for automatic dispatch only at low or medium risk without approval and with its kind of fix switched on |
| `SiteDispatch.GreedyWithinLimits` | agent/operations/site_operations_manager.py:775-853 | a cycle sends at most the task cap and at most the cost cap, and no key that is active or was sent |
| `SiteDispatch.CountsAddUp` | agent/operations/site_operations_manager.py:775-854 | sent and refused tasks add up to the eligible ones, with an unrecorded spend counted on both sides |
| `SiteDispatch.SendOne` | agent/operations/site_operations_manager.py:775-832 | sending one more task keeps the caps and the keys distinct |
| `FindingAssessment.SiteFindings.Assess` | agent/operations/site_operations_manager.py:543-592 | each assessment counts every actionable observation once more, in key order; created plus updated is their number and created is the number of new findings; actionable are those with a finding type and a severity; what was counted is last seen now, keeps the time it was first seen, and nothing else changes |
| `FindingAssessment.SiteFindings.Ingest` | agent/operations/site_operations_manager.py:520-538 | the first observation with a key is kept and a later one is dropped whatever its severity |
| `FindingAssessment.WorstIsMaximum` | agent/operations/site_operations_manager.py:577-583 | a finding's severity is the maximum it was ever seen with: it was seen with it, and never with a higher one |
| `FindingAssessment.OccurrencesConserved` | agent/operations/site_operations_manager.py:557-583 | the occurrences of all findings add up to the observations processed |
| `RateLimiter.RateLimiter.Allow` | agent/api/private_admin_api.py:134-148 | for calls at any times: a client's call is decided by its own earlier calls and the limit, and other clients are not affected |
| `RateLimiter.ForwardRun` | agent/api/private_admin_api.py:134-148 | as long as times do not go back, a call is refused exactly when the closed window that ends now already holds the limit, and no closed window ever holds more |
| `RateLimiter.AdmitsExactly` | agent/api/private_admin_api.py:134-148 | the same in plain terms: a call is let through exactly when fewer than the limit were let through in the minute up to it |
| `RateLimiter.CappedExactly` | agent/api/private_admin_api.py:134-148 | capped means at most the limit in every minute, both ends included |
| `RateLimiter.LimitOneCapped` | agent/api/private_admin_api.py:134-148 | with a limit of one no closed window ever holds more than one call, whatever the clock does |
| `RateLimiter.StepBackExceedsLimit` | agent/api/private_admin_api.py:134-148 | with a limit of two or more and any step back there is a run that lets one call too many into a window |
| `RateLimiter.CapExactly` | agent/api/private_admin_api.py:134-148 | every run that steps back at most d stays within the limit if and only if the limit is one or d is zero |
| `RateLimiter.PurgeIsSince` | agent/api/private_admin_api.py:143-144 | purging the front keeps exactly the times in the window |
| `RateLimiter.SinceTwice` | agent/api/private_admin_api.py:143-144 | purging again later gives what purging the full history would |
| `RateLimiter.AllowKeepsCap` | agent/api/private_admin_api.py:145-148 | one more allowed call keeps every closed window within the limit |
| `RateLimiter.FullWindow` | agent/api/private_admin_api.py:143-146 | the purged deque holds exactly the calls of the window that ends now |
| `ImageStore.ImageStore.Upload` | agent/api/ai_chat_gateway.py:569-613 | stores the content once for its hash; fails exactly on a taken id; the store stays consistent exactly if the id was new or the content was shown already |
| `ImageStore.ImageStore.Remove` | agent/api/ai_chat_gateway.py:629-631 | removes one image, and its blob exactly with the last image of that content |
| `ImageStore.ImageStore.Read` | agent/api/ai_chat_gateway.py:619-622 | reading a live image returns the bytes uploaded under its id (collision-free hash) |
| `ImageStore.ImageStore.PutMetadata` | agent/api/ai_chat_gateway.py:374-387 | each indexed hash lists exactly its live images, once each, never empty |
| `ImageStore.ImageStore.DeleteBytesIfUnreferenced` | agent/api/ai_chat_gateway.py:453-463 | a blob goes exactly when no live image has its hash |
| `ImageStore.AddIndexed` | agent/api/ai_chat_gateway.py:374-387 | adding an id keeps the index exact |
| `ImageStore.DropIndexed` | agent/api/ai_chat_gateway.py:399-414 | removing an id keeps the index exact, and drops the entry with its last id |
| `ImageStore.IndexedShows` | agent/api/ai_chat_gateway.py:382-412 | a hash is indexed exactly when some live image has it |
| `ConversationStore.ConversationStore.PutMessage` | agent/api/ai_chat_gateway.py:297-316 | keeps counts and the request index right unless the conversation is missing, in which case the message stays stored without one |
| `ConversationStore.ConversationStore.Send` | agent/api/ai_chat_gateway.py:636-766 | a message is stored, counted once and ends with the status of what became of it exactly when the checks pass and the ids are new; which status that is in each mode; a missing planner or queue is an error after storing; the store stays consistent in every case |
| `ConversationStore.AcceptableExactly` | agent/api/ai_chat_gateway.py:636-657 | which messages pass the checks |
| `ConversationStore.ConversationStore.CreateConversation` | agent/api/ai_chat_gateway.py:530-546 | writes the record whether or not the id is taken; counts stay right exactly when no message has that conversation |
| `ConversationStore.CountedAfterPut` | agent/api/ai_chat_gateway.py:308-316 | one more message raises the count of its conversation by one and no other |
| `ConversationStore.RequestsAreDistinct` | agent/api/ai_chat_gateway.py:297-306 | different messages answer different requests |
| `ConversationStore.ConversationStore.IsImageReferenced` | agent/api/ai_chat_gateway.py:329-340 | true exactly when some stored message shows the image |
| `ChatGateway.ChatGateway.SendMessage` | agent/api/ai_chat_gateway.py:636-690 | a message is stored only if every image it shows is there; keeps, over the gateway's whole life, that every image shown by a stored message is there unless its deletion was forced |
| `ChatGateway.ChatGateway.DeleteImage` | agent/api/ai_chat_gateway.py:624-634 | deletes an image exactly if it is there and no stored message shows it or the deletion is forced, and keeps the same invariant |
| `ChatGateway.ChatGateway.UploadImage` | agent/api/ai_chat_gateway.py:569-613 | an upload takes no image away; the upload store stays consistent exactly if the id was new or the content was shown already |
| `ChatGateway.ChatGateway.ReadShown` | agent/api/ai_chat_gateway.py:619-622 | an image shown by a stored message reads as the bytes uploaded under its id, unless its deletion was forced |
| `ChatGateway.ReferencedAfterPut` | agent/api/ai_chat_gateway.py:297-306 | storing a message adds the images it shows to those referenced, and no others |
| `Utf8Truncation.Truncate` | agent/ai/retry_engine.py:349-357 | fails exactly on text with a surrogate; else returns the longest start of the text whose encoding fits the limit; a negative limit counts back from the end |
| `Utf8Truncation.Encode` | agent/ai/retry_engine.py:351 | UTF-8 encoding (RFC 3629 section 3), refusing surrogates |
| `Utf8Truncation.KnownEncodings` | agent/ai/retry_engine.py:351 | the encodings at the bounds of each length, and the examples of RFC 3629 section 7 |
| `Utf8Truncation.DecodeEncoded` | agent/ai/retry_engine.py:356 | decoding with errors ignored is a left inverse of encoding |
| `Utf8Truncation.DecodeUnfinished` | agent/ai/retry_engine.py:354-357 | a character cut short leaves nothing |
| `Utf8Truncation.CutIsLongestFitting` | agent/ai/retry_engine.py:354-357 | cutting an encoding anywhere and decoding it gives the longest start that fits |
| `Utf8Truncation.LongestFittingUnique` | agent/ai/retry_engine.py:349-357 | there is only one longest fitting start |
| `ProjectMemory.MemoryStore.AppendRecord` | agent/memory/project_memory_manager.py:403-415 | appends a new record, returns an equal one, refuses another with the same id; histories only grow and other projects are untouched |
| `ProjectMemory.MemoryStore.GetIsInHistory` | agent/memory/project_memory_manager.py:417-425 | the map and the order list agree: a lookup finds exactly what the history holds, ids being distinct |
| `ProjectMemory.MemoryManager.CreateRecord` | agent/memory/project_memory_manager.py:632-698 | an unknown reference is an error; a body recorded before is found again, or collides exactly when its preserve flag differs; else one record is appended; the project's history stays sound |
| `ProjectMemory.MemoryManager.CreatesCycle` | agent/memory/project_memory_manager.py:1061-1073 | true exactly when the id is on the chain of superseded records; the walk passes no id twice and, unless it finds the id, goes to the end of the chain, so the test for an id seen before never ends it |
| `ProjectMemory.MemoryManager.RecordDecision` | agent/memory/project_memory_manager.py:707-727 | exactly when a decision is refused as lacking a reference, unknown or circular, and that a refusal changes nothing |
| `ProjectMemory.DecisionErrorExactly` | agent/memory/project_memory_manager.py:707-727 | when exactly each refusal is given; an empty id counts as none |
| `MemoryHistory.ReferencesAcyclic` | agent/memory/project_memory_manager.py:646-675 | supersedes and related references have no cycle and name only records of the project |
| `MemoryHistory.ChainDescends` | agent/memory/project_memory_manager.py:1061-1073 | a chain of superseded records repeats no id and goes strictly back in the history |
| `MemoryHistory.GroundedAppend` | agent/memory/project_memory_manager.py:646-675 | appending a record whose references exist keeps every reference strictly earlier |
| `MemoryHistory.SortedSetIgnoresOrder` | agent/memory/project_memory_manager.py:648 | only which related ids are given matters, not their order or repetition, so the deterministic id does not depend on it |

## Left out

- Dynamic type and field-set checks on dictionaries from callers: the models' records have their fields by type.
- Events, logging, timestamps beyond the values shown, persistence, locks and fsync: saves are taken to succeed, except for the failures inside `apply`.
- SHA-256 and id generators: functions, injective or collision-free where a row says so.
- Lower-casing outside ASCII, and integers with underscores or digits outside ASCII in hunk ranges.
- Splitting text into lines, the latin-1 fallback, directories (also a path that names one), deletions and renames in the patch engine; the repository root is implicit.
- RollbackRestores: takes rollback's own restores and removals to succeed.
- RollbackExact: the same.
- ContentLostExactly: the same.
- Enqueue: a queue resolver that raises, and what a batch call that raises has stored; the batch call is taken to be atomic.
- EnqueueIndividually: a single enqueue call that raises is taken to have stored nothing.
- OutcomeCoordinator: the contents of usage records and reports, and `status` counters.
- AttemptMission: executor replies and retry classifiers that answer with something other than a mapping; effort and money are not floating point.
- Execute: the list of attempts attached to the answer as metadata, and an adapter whose `capabilities` raises.
- ExecuteOne: a workspace manager that raises anything but a `WorkspaceError`.
- SendTask: a supervisor reply that is not a mapping counts as a failed submission although the supervisor was called; replacing a project's configuration, the fallback approval store and floating-point costs.
- Assess: titles, summaries, effort and risk of a finding, and generating task candidates from findings.
- Upload: size, media type and file content checks; width and height.
- Send: the plan and the mission ids themselves, and messages without a request id.
- CreateRecord: redaction and size bounding of the payload, which enters as its stable JSON; events.
- Plan: detecting components in the request text; ids are numbers without the letter M.
- PlannerOrderUnique: states uniqueness for the known types only, because two unknown types may share an index.
- RateLimiter: times are integers, in milliseconds.
- The retry engine's failure categories and report status: a decision table without a loop or state beyond a list and a flag.
- HTTP servers, authentication, provider adapters, Git subprocesses, systemd and upgrade scripts, Markdown rendering and prompt text.
- Supervisor risk ordering and run states: the code compares risk names as strings and writes states unconditionally, so the promises one would state do not hold of it.
