# Appweaver, modelled and proved

Dafny models of the hardest logic of the Appweaver framework, with proofs about all inputs and all runs. Each part takes
the form of its source: classes and loops where the code changes state, functions where it computes, and lemmas for what
its documentation promises. Methods are proved against specification functions, and the promises about those.

- **Referential actions on SQL Server** (`Walks`, `SoleEdges`, `ActionGraphs`, `ReferentialPlan`, `ReferentialPromises`,
  `ReferentialChoice`, `ReferentialColumns`, `ReferentialActions`, `JoinTables`, `JoinTableShapes`). The planner keeps
  foreign key actions greedily while the tables stay acyclic with single paths. Proved: the breadth-first search and
  `accepts` are exact, the plan is admissible exactly when its join tables are, which columns are planned with which
  actions, that one acts exactly when it fits beside the others kept, and that every cascade or set null is applied
  exactly once.
- **Shared schema types** (`Schemas`, `SchemaInline`, `SchemaTitles`, `SchemaRoundTrip`, `SchemaNames`, `SchemaOwnTitles`,
  `SchemaExample`, `SchemaHoist`, `SchemaCollected`, `SchemaGroups`, `SchemaHoister`). Repeated subtrees of a document
  become definitions. Proved: which nodes are collected, that they are apart and the names new, what a hoisting writes,
  and that inlining the definitions gives the document back.
- **Cache outages** (`CacheOutage`, `CacheMemory`, `CacheGuard`, `CacheFreshness`). Proved over every run of a memory that
  fails: no read returns an entry that an earlier invalidation request hit, for every key the memory can be swept of, and
  so no response from before an invalidation of a model it depends on. Once the memory answers, the cache recovers and
  its operations do what they say.
- **Restarts in watch mode** (`WatchRestart`). Proved over every interleaving: at most one process, started only on a
  success, aborted and never restarted when it must be, and restarted after the last success or file change, with one
  restart for each event that asks for one.
- **Union types** (`UnionTypes`, `UnionSimplifier`, `UnionDuplicates`, `UnionOpened`, `UnionTrees`, `UnionExamples`,
  `UnionVisitor`). Proved: the rewriting preserves meaning, and exactly when it leaves a member twice, directly or in its
  branches, for one union and for the unions of a whole tree.
- **Worklists** (`NeededReleases`, `ModuleOrder`). Proved: exact reachability with a two-level flag, and a depth-first
  order that is right on cyclic requirements too.
- **Template partials** (`TemplateLayers`, `TemplateChoices`, `TemplateKeys`, `TemplateEngine`). Proved: which template is
  found and which partials it includes, told from the layers, that the cache agrees with recomputation unless formats
  clash, and exactly which formats do.
- **The memory and its locks** (`Storages`, `InMemory`, `MemoryDrift`, `LockRuns`, `RedisLocks`). Proved: the size counter
  bounds the stored bytes, its drift never falls, expiry is exact, eviction takes the earliest entries, and both locks
  keep one specification of mutual exclusion.
- **The circuit breaker** (`CircuitBreaker`), **versions and weeks** (`Versions`, `VersionRanges`, `IsoWeeks`,
  `TwoDigitYears`) and **cache keys** (`Globs`, `CacheKeys`, `CacheDependents`, `CacheInvalidation`).

Where the code falls short of its documentation the model follows the code, with a concrete input and the exact condition:

- A many-to-many relation of a model with itself doubles the edge to its join table (`SelfRelationBreaksThePlan`).
- A set default that does not fit beside the other actions is applied by nobody (`ManagerIsLost`, exactly:
  `OnlySetDefaultIsLost`).
- An enum whose own title is the name it is hoisted under loses that title on inlining (`TitledEnumIsLost`, `HoistPosts`,
  exactly: `RunGivesBackExactly`, `TitledExactly`).
- With errors not skipped, a failed invalidation is forgotten (`UnskippedErrorsLeaveEntries`, and only a failed one:
  `StaleReadNeedsFailure`).
- Hoisting can leave a member twice: an outer one, when a branch shrinks to a type given up by another one
  (`RepeatedMember`, exactly: `RepeatsExactly`), or one in two branches, when a branch gives up a parenthesised union
  (`UnwrappedUnion`, exactly: `KeepsEachOnceExactly`).
- A template format that is another one of the same mode with `|` and a variant locale appended shares its cache key with
  that one (`KeysCollide`, exactly: `KeysAgreeExactly`, `ClashExactly`).
- The size counter of the memory never loses its drift. An entry written again and again is stored until the bytes of its
  writes exceed the limit together, and never again (`WearOut`, exactly: `SetAgain`, `SurvivesExactly`).
- Ranges whose bound has wildcards only, as `x.x`, accept nothing (`AcceptsExactly`).
- `Date.UTC` reads the years 0 to 99 as 1900 to 1999, so some of their weeks are wrong (`YearsOfTwoDigitsFail`, exactly:
  `ComputedWeekIsRightExactly`). The code asks for the week of the current date only.
- In process, `*` does not match line terminators, so keys that hold one survive every invalidation; and a prefix that
  holds the mark hides it in keys that begin alike (`MarkedPrefixMisses`, exactly: `InvalidationHitsExactly`,
  `SweepHitsExactly`).

## Model

| member | source | states |
|---|---|---|
| Walks.AdmissibleExactly | packages/common/utils/referential-util.ts:247-257 | for an acyclic graph with at most one path between any two tables, adding an edge keeps both facts exactly when no table leading to its start already leads to a table its end leads to |
| Walks.BlockedBreaksSinglePath | packages/common/utils/referential-util.ts:40-47 | an edge the graph would not accept forms a second path (or a cycle) between two tables, whatever the graph was before |
| Walks.FewerEdgesAdmissible | packages/common/utils/referential-util.ts:40-47 | an acyclic graph with single paths stays so when edges are taken away or listed in another order |
| ActionGraphs.Reached | packages/common/utils/referential-util.ts:259-271 | the breadth-first queue ends on any graph and returns exactly the tables one or more edges lead to, cycles back to the start included |
| ActionGraphs.BeyondIsReach | packages/common/utils/referential-util.ts:238-245 | what the forward lists reach, and what the reverse lists reach back, are the same walks over the edges added so far |
| ActionGraphs.ActionGraph.constructor | packages/common/utils/referential-util.ts:238-240 | a new graph holds no edges |
| ActionGraphs.ActionGraph.Add | packages/common/utils/referential-util.ts:242-245 | both adjacency maps together represent the old edges and the new one, parallel edges counted |
| ActionGraphs.ActionGraph.Accepts | packages/common/utils/referential-util.ts:248-257 | the answer is true exactly when the edge forms neither a cycle nor a second path; on an admissible graph, exactly when the graph with the edge is admissible |
| ActionGraphs.ActionGraph.NoneLinked | packages/common/utils/referential-util.ts:251-256 | the nested check over sources and targets holds exactly when no source is, or leads to, a target |
| ReferentialModels.ForeignKeyCandidates | packages/common/utils/referential-util.ts:114-190 | the loops list the candidates that `ListedExactly` describes, in the order of models and fields |
| ReferentialModels.ForeignKeysOf | packages/common/utils/referential-util.ts:120-187 | one model contributes its relations, then its single files, then its audit columns when an auth model exists; which of them, and with what columns, is `ListedExactly` |
| ReferentialModels.RanksAreBounded | packages/common/utils/referential-util.ts:27-31 | every candidate has one of the four ranks, so sorting by rank loses none |
| ReferentialColumns.ListedExactly | packages/common/utils/referential-util.ts:114-190 | told from the fields of the models: one column for each relation that holds it (or has no inverse side that does), each single file, and the audit fields once there is an auth model, in this order and no others; with its table, name and target, the declared actions, else set null if optional and restrict if not, and its rank |
| ReferentialPlan.RankedHolds | packages/common/utils/referential-util.ts:60-60 | the sorted order holds every candidate of the ranks exactly |
| ReferentialPlan.RankedIsStableSort | packages/common/utils/referential-util.ts:60-60 | the order is by rank and, within a rank, by the place in the candidate list |
| ReferentialPlan.KeepRanked | packages/common/utils/referential-util.ts:61-74 | the loop keeps the candidates the greedy rule keeps and leaves the graph with the join edges and theirs |
| ReferentialPlan.SqlServerForeignKeys | packages/common/utils/referential-util.ts:51-91 | the imperative planner computes the plan, which `PlansExactly`, `DatabaseActions` and `DecidedInOrder` describe from the models alone |
| ReferentialPromises.ActingEdgesAreChosen | packages/common/utils/referential-util.ts:76-90 | the foreign keys that act in the database are, as a multiset of edges, the ones the greedy choice kept |
| ReferentialPromises.PlanIsAdmissible | packages/common/utils/referential-util.ts:51-91 | join tables and acting foreign keys together are acyclic with single paths exactly when the join tables alone are |
| ReferentialPromises.PlanIsAdmissibleExactly | packages/common/utils/referential-util.ts:51-91 | for models named by identifiers: exactly when no join table joins a model to itself and no file list shares its table name with a relation |
| ReferentialPromises.SelfRelationBreaksThePlan | packages/common/utils/referential-util.ts:206-223 | a many-to-many relation of a model with itself leaves a second path in the plan |
| ReferentialPromises.PlanIsMaximal | packages/common/utils/referential-util.ts:61-74 | every acting candidate of rank below 3 left as no action would break the shape of the final graph; which of them act is `DatabaseActions` |
| SoleEdges.SoleStays | packages/common/utils/referential-util.ts:247-257 | an edge that every walk between its ends has to take stays such an edge when the graph accepts another one |
| SoleEdges.SoleIsUnblocked | packages/common/utils/referential-util.ts:247-257 | the other edges alone would accept such an edge |
| ReferentialChoice.KeptExactlyWhenFits | packages/common/utils/referential-util.ts:61-74 | for any models, also where the join tables already form second paths: the plan keeps the actions of a foreign key exactly when its edge fits beside the join tables and all the others it keeps |
| ReferentialActions.PlansExactly | packages/common/utils/referential-util.ts:76-90 | the plan lists exactly the columns the models ask for, in order, each with its declared or implied actions |
| ReferentialActions.DatabaseActions | packages/common/utils/referential-util.ts:76-90 | the database runs a cascade, set null or set default, on delete and on update, exactly where the column fits beside the join tables and all other actions kept; it runs nothing for restrict, no action and audit columns |
| ReferentialActions.DecidedInOrder | packages/common/utils/referential-util.ts:60-74 | a column keeps its actions exactly when it fits beside the join tables and what was kept of the columns before it: those with declared actions, then implied ones, then files, each in listing order |
| ReferentialPromises.EmulatedAre | packages/common/utils/referential-util.ts:101-111 | the data layer gets exactly the keys of the model that ask for cascade or set null and do nothing in the database |
| ReferentialPromises.AppliedExactlyOnce | packages/common/utils/referential-util.ts:51-111 | every cascade and set null is applied by exactly one of the database and the data layer |
| ReferentialChoice.OnlySetDefaultIsLost | packages/common/utils/referential-util.ts:51-111 | for any models: an acting action on delete is applied by neither exactly when it is a set default whose edge is blocked by the join tables and the other acting foreign keys |
| ReferentialChoice.SetDefaultOfItselfIsLost | packages/common/utils/referential-util.ts:51-111 | so every set default of a model that references itself is applied by neither |
| ReferentialChoice.ManagerIsLost | packages/common/utils/referential-util.ts:51-111 | such a model: users with a manager, deleted with set default |
| ReferentialPromises.AuditNeverActs | packages/common/utils/referential-util.ts:171-186 | the columns recording who created or deleted a record never act in the database |
| JoinTables.JoinTableEdges | packages/common/utils/referential-util.ts:193-235 | the loops with their set of seen tables emit the edges of the distinct relation tables and of every file list |
| JoinTables.RelationTables | packages/common/utils/referential-util.ts:204-224 | the relations of one model add the edges of the tables not seen yet |
| JoinTables.FileTables | packages/common/utils/referential-util.ts:226-231 | the file lists of one model add their edges without asking the seen set |
| JoinTableShapes.PairNameIsShared | packages/common/utils/referential-util.ts:216-219 | both sides of a mapped relation name the same join table |
| JoinTableShapes.PairNameIsInjective | packages/common/utils/referential-util.ts:216-219 | two mapped relations share a table only if they have the same two sides |
| JoinTableShapes.SameTable | packages/common/utils/referential-util.ts:211-223 | two declared relations share a join table exactly when they are one declaration or each other's mapped side |
| JoinTableShapes.SameSides | packages/common/utils/referential-util.ts:211-223 | the two declarations of one table join the same two models, in either order |
| JoinTableShapes.JoinTablesAdmissible | packages/common/utils/referential-util.ts:193-235 | the join tables alone are acyclic with single paths exactly when each joins two different models and no file list shares a table with a relation |
| Schemas.WriteOneMore | packages/client/utils/hoist-util.ts:171-181 | replacing one more node in place gives the document with references at one more place |
| Schemas.PutElsewhere | packages/client/utils/hoist-util.ts:171-181 | replacing nodes leaves every node apart from them as it was |
| SchemaInline.UndoGivesBack | packages/client/utils/hoist-util.ts:124-181 | inlining a definition hoisted out of equal structures gives back every definition of the document |
| SchemaInline.OwnTitleIsLost | packages/client/utils/hoist-util.ts:155-158 | for one step: it gives the document back exactly when the hoisted structure does not carry the hoisted name as its own title |
| SchemaTitles.SignatureStable | packages/client/utils/hoist-util.ts:400-420 | adding a definition with a new name does not change the signature of a document that does not refer to it |
| SchemaTitles.InlineSignature | packages/client/utils/hoist-util.ts:400-420 | inlining a definition that has the signature of the inlined body keeps the signature of the document |
| SchemaRoundTrip.TitlesApplied | packages/client/utils/hoist-util.ts:352-363 | hoisting changes the title of no definition there was and adds the title of the new one |
| SchemaRoundTrip.ShapeUndone | packages/client/utils/hoist-util.ts:92-122 | inlining one hoisted shape gives back the document up to references to same-titled definitions |
| SchemaRoundTrip.ExactUndone | packages/client/utils/hoist-util.ts:131-162 | inlining all hoisted enums gives back the document exactly |
| SchemaRoundTrip.ShapesUndone | packages/client/utils/hoist-util.ts:70-75 | inlining all hoisted shapes, last one first, gives back the document up to same-titled references |
| SchemaRoundTrip.HoistingGivesBack | packages/client/utils/hoist-util.ts:54-79 | the round trip of a whole run, asked of the original document and the run alone |
| SchemaOwnTitles.RunUndone | packages/client/utils/hoist-util.ts:131-162 | inlining a whole run of enums gives the document back but for the titles of the nodes that were hoisted under their own title |
| SchemaOwnTitles.RunGivesBackExactly | packages/client/utils/hoist-util.ts:131-162 | so a whole run gives it back exactly when no hoisted enum has its name as title |
| SchemaExample.TitledEnumIsLost | packages/client/utils/hoist-util.ts:155-158 | a document with such an enum, and the step hoisting makes of it, which does not come back |
| SchemaExample.StatusIsGroup | packages/client/utils/hoist-util.ts:131-162 | the enum of the document is collected at its two places and named by its title, so hoisting makes that step |
| SchemaExample.HoistPosts | packages/client/utils/hoist-util.ts:131-162 | hoisting the enums of the document in place, and inlining them again, does not give it back |
| SchemaHoister.TitledExactly | packages/client/utils/hoist-util.ts:139-158 | where different enums get different names, a run hoists one under its own title exactly when a repeated enum of the document has as its title the name it resolves to, and that is free |
| SchemaNames.NewNamesAreUnused | packages/client/utils/hoist-util.ts:65-67 | in a document without dangling references nothing refers to a name it has not defined, so no run of new names does harm |
| SchemaNames.ShapesAddNoTitles | packages/client/utils/hoist-util.ts:92-122 | hoisting shapes adds no title of an enum to the document |
| SchemaHoist.CollectOccurrences | packages/client/utils/hoist-util.ts:192-212 | the recursive collection records exactly the matching nodes that `CollectedExactly` describes, grouped by the key of the matcher |
| SchemaHoist.Collect | packages/client/utils/hoist-util.ts:223-251 | one container, an object or a list, adds exactly the matches below it to the groups |
| SchemaHoist.Visit | packages/client/utils/hoist-util.ts:264-285 | a node is recorded itself or contributes the matches below it, never both; `CollectedExactly` says which nodes are reached |
| SchemaHoist.FoundInAreApart | packages/client/utils/hoist-util.ts:183-194 | no collected node lies inside another one, so the replacements do not interfere |
| SchemaCollected.CollectedExactly | packages/client/utils/hoist-util.ts:192-285 | told from the places of the document: recorded are exactly the accepted nodes below the definitions, through objects and lists, that lie in no other accepted one and are no `properties` object of a schema; each with the title of its definition (or its key) as owner and the property it lies in |
| SchemaGroups.EnumGroupExactly | packages/client/utils/hoist-util.ts:131-140 | so the group of an enum holds exactly the places whose node is an enum with that structure besides its documentation |
| SchemaGroups.ShapeGroupExactly | packages/client/utils/hoist-util.ts:92-110 | and the group of a shape exactly those whose structure is the shape's |
| SchemaGroups.SignatureDecides | packages/client/utils/hoist-util.ts:400-420 | signatures are equal exactly when the schemas are equal but for references, of which those to definitions of one title count as equal |
| SchemaGroups.ReferenceIs | packages/client/utils/hoist-util.ts:422-440 | a reference to a definition stands for its title, and any other one for itself |
| SchemaTitles.KeyWithout | packages/client/utils/hoist-util.ts:432-438 | the key of a reference leaves out the first occurrence of the prefix, wherever it is |
| SchemaTitles.KeyStays | packages/client/utils/hoist-util.ts:432-438 | and a reference without the prefix is its own key |
| SchemaGroups.HoistedExactly | packages/client/utils/hoist-util.ts:142-181 | a hoisting defines the structure under the new name, with that title unless it has one, puts at every place a reference that keeps the documentation, and leaves every node apart from them as it was |
| SchemaHoister.SharedShapesAreWellShaped | packages/client/constants.ts:42-54 | the well known shapes have the form the round trip asks of a shape |
| SchemaHoister.Hoister.constructor | packages/client/utils/hoist-util.ts:54-68 | the taken names are those of the definitions and their titles |
| SchemaHoister.Hoister.Replace | packages/client/utils/hoist-util.ts:117-119 | one occurrence after the other is replaced in place, together giving the document of one hoisting step |
| SchemaHoister.Hoister.HoistShape | packages/client/utils/hoist-util.ts:92-122 | a shape is hoisted exactly when its name is free and it occurs twice, at all its places and with its structure; otherwise nothing changes |
| SchemaHoister.Hoister.HoistEnums | packages/client/utils/hoist-util.ts:131-162 | every enum group of two or more is hoisted under a free name or left inline for want of one, in steps that each replace equal structures; without dangling references, inlining them gives the document back exactly when no enum was hoisted under its own title, which with names that tell the enums apart is decided by the document |
| SchemaHoister.Hoister.HoistSharedTypes | packages/client/utils/hoist-util.ts:54-79 | the shapes are tried in order and hoisted exactly when they can be, then every enum group that has a free name; no definition is overwritten and the names are new; for a document without dangling references, whose enums have no title the resolver gives as a name, inlining every hoisted definition gives back every original definition; when no shape is hoisted, exactly under the condition on its enums |
| CacheRuns.Store.StepKeepsInvariant | packages/core/cache/cache.ts:83-137 | each operation keeps: while the cache is not stale, every entry that a sweep reaches is newer than the last invalidation that hits its key |
| CacheRuns.Store.RunKeepsInvariant | packages/core/cache/cache.ts:83-137 | the invariant holds in every state of every run over a memory that goes up, down or fails midway |
| CacheRuns.Store.RequestsAre | packages/core/cache/cache.ts:213-225 | the requests a state remembers are the invalidations of the run so far, also those that failed |
| CacheRuns.Store.EntryWasWritten | packages/core/cache/cache.ts:170-199 | a stored entry was there at the start or comes from a write of the run, made after as many requests as its stamp says |
| CacheRuns.Store.ReadsAreFresh | packages/core/cache/cache.ts:74-99 | with errors skipped, a read of a key that a sweep reaches never returns an entry that an earlier request hits: its value was written after that request |
| CacheRuns.Store.StaleReadNeedsFailure | packages/core/cache/cache.ts:83-99 | with errors skipped or not, after a request that was carried out a read of a key it hits returns a value written since: a stale read needs a request that failed |
| CacheRuns.Store.UnskippedErrorsLeaveEntries | packages/core/cache/cache.ts:84-86 | without skipping errors a failed request can be followed by a read of the entry |
| CacheFreshness.DependentReadsAreFresh | packages/core/cache/cache-service.ts:113-128 | end to end: with errors skipped, no read of a response returns a value from before an invalidation of a model it depends on, whatever fails in between, for keys in one line that do not begin with a prefix holding the mark |
| CacheFreshness.CarriedReadsAreFresh | packages/core/cache/cache-service.ts:113-128 | with errors not skipped the same holds of an invalidation that was carried out |
| CacheGuard.Cache.OnInit | packages/core/cache/cache.ts:35-44 | a clean start that is answered leaves the cache cleared or stale, with errors skipped or not; cleared, if the memory is available and answers |
| CacheGuard.Cache.MarkUnavailable | packages/core/cache/cache.ts:110-116 | an error leaves the cache stale and marked |
| CacheGuard.Cache.Fail | packages/core/cache/cache.ts:91-98 | an operation that fails gives its fallback and leaves the cache stale when errors are skipped, and otherwise throws |
| CacheGuard.Cache.Enter | packages/core/cache/cache.ts:83-107 | the action runs only on a cache that is not stale, cleared first if it was; and it does run whenever the memory is available and answers |
| CacheGuard.Cache.Recover | packages/core/cache/cache.ts:119-137 | a recovery that succeeds leaves no key in the memory that the globs of the memory reach, and loses no others; one that fails leaves the cache stale, and it succeeds whenever the memory answers |
| CacheGuard.Cache.DeleteEntries | packages/core/cache/cache.ts:213-225 | when the deletion succeeds no key that matches is left; midway failures only lose entries; and it succeeds whenever the memory answers |
| CacheGuard.Cache.Get | packages/core/cache/cache.ts:140-167 | a read is a step of the protocol and returns only an entry held while the cache is not stale; when the memory is available and answers it returns the entry held under the prefixed key, and none only if there is none, it expired, or the recovery deletes it |
| CacheGuard.Cache.Has | packages/core/cache/cache.ts:54-56 | a positive answer is never given for an entry held while the cache was stale, if a sweep reaches its key; when the memory is available and answers it tells whether the key is held |
| CacheGuard.Cache.Set | packages/core/cache/cache.ts:170-199 | a write is a step of the protocol, whatever fails in it; when the memory is available and answers it gives true, and the key holds the written value unless it expired or the eviction picked it |
| CacheGuard.Cache.Delete | packages/core/cache/cache.ts:58-60 | a deletion is an invalidation step of the protocol; without skipped errors it removed the entry exactly when it is answered, and a positive answer means there was one; it is carried out whenever the memory is available and answers, and removes nothing else |
| CacheGuard.Cache.DeleteMatching | packages/core/cache/cache.ts:62-64 | an invalidation by pattern is a step of the protocol; without skipped errors it is carried out exactly when it is answered, with the number of entries deleted; it is carried out whenever the memory is available and answers |
| CacheGuard.Cache.Keys | packages/core/cache/cache.ts:66-72 | listing keys is a step of the protocol that invalidates nothing and lists only keys held; exactly the matching ones when the memory is available and answers |
| WatchRestart.Watcher.constructor | packages/cli/start/start-project.ts:89-94 | the watcher starts with nothing compiled and no process |
| WatchRestart.Watcher.OnStarted | packages/cli/start/start-project.ts:118-120 | the handler does what the state machine says for a compilation that starts |
| WatchRestart.Watcher.OnSuccess | packages/cli/start/start-project.ts:123-126 | the handler marks the success and chains one restart |
| WatchRestart.Watcher.OnCompileErrors | packages/cli/start/start-project.ts:129-132 | the handler clears the success and aborts the running process |
| WatchRestart.Watcher.OnFileChange | packages/cli/start/start-project.ts:135-139 | the handler chains a restart exactly when the last compile event is a success, by `RestartsAreAsked` |
| WatchRestart.Watcher.OnCleanup | packages/cli/start/start-project.ts:142-150 | the handler aborts the running process, once |
| WatchRestart.Watcher.BeginJob | packages/cli/start/start-project.ts:97-102 | a job aborts the running process before it waits for it |
| WatchRestart.Watcher.ResumeJob | packages/cli/start/start-project.ts:102-104 | a job goes on only when the process is gone |
| WatchRestart.Watcher.EndJob | packages/cli/start/start-project.ts:104-113 | a job starts a process unless the success or the watcher is gone by then |
| WatchRestart.Watcher.OnExit | packages/cli/start/start-project.ts:111-113 | a process that exits stays gone |
| WatchRestart.Watcher.ProcessesNow | packages/cli/start/start-project.ts:85-150 | whatever handlers and jobs ran, in whatever order, the watcher has at most one process alive, the last started one, and none unaborted after errors or cleanup; each process follows the events, and one restart was chained for each event that asks for one |
| WatchRestart.AtMostOneAlive | packages/cli/start/start-project.ts:96-116 | in every interleaving at most one application process is alive |
| WatchRestart.StartsExactly | packages/cli/start/start-project.ts:104-113 | a process starts exactly when a job ends while the last compile event is a success and no cleanup ran |
| WatchRestart.LiveOnesAreAborted | packages/cli/start/start-project.ts:128-150 | after compile errors, until a later success, and after cleanup every live process is aborted |
| WatchRestart.NoneStartsWhileDown | packages/cli/start/start-project.ts:104-132 | after compile errors none starts until a later success |
| WatchRestart.NoneStartsAfterCleanup | packages/cli/start/start-project.ts:142-150 | after cleanup none starts ever |
| WatchRestart.RestartsAreAsked | packages/cli/start/start-project.ts:96-139 | the restarts chained are as many as the successes and the file changes made while the last compile event was a success, and the ended ones as many as the ends of jobs |
| WatchRestart.OneJobAtATime | packages/cli/start/start-project.ts:96-116 | the restart jobs run one at a time: at most one has begun and not ended |
| WatchRestart.ChainGoesOn | packages/cli/start/start-project.ts:96-116 | as long as a restart is left the chain can go on, or waits for an aborted process and goes on once that exits |
| WatchRestart.ChainDrains | packages/cli/start/start-project.ts:96-116 | so every run can be continued, by the chain and the exits of what it aborts alone, until all restarts chained have ended |
| WatchRestart.ProcessesFollowEvents | packages/cli/start/start-project.ts:96-150 | each process is alive until it exits, and aborted exactly when compile errors, the first cleanup or the begin of a restart met it alive |
| WatchRestart.DrainedIsRestarted | packages/cli/start/start-project.ts:96-139 | once the chain drains after a final success, or a file change after it, the last start came after that event and its process was not aborted |
| UnionTypes.PrintedDecides | packages/client/generators/generate-types.ts:403-404 | types with the same text stand for the same alternatives, unions of one member included |
| UnionTypes.PrintedExactly | packages/client/generators/generate-types.ts:403-404 | a printed tree holds no union of one member, and a type without any is its own printed tree |
| UnionSimplifier.HoistedFrom | packages/client/generators/generate-types.ts:500-505 | an appended member comes from one of the branches |
| UnionSimplifier.Covered | packages/client/generators/generate-types.ts:474-505 | what an outer member stands for is still there, even when its hoisted part is the text of a branch that is rewritten in its turn |
| UnionSimplifier.MeaningIsKept | packages/client/generators/generate-types.ts:413-507 | the rewritten union denotes the alternatives of the given one |
| UnionSimplifier.SimplifiedMeansTheSame | packages/client/generators/generate-types.ts:399-514 | for every type tree the rewritten tree denotes the same |
| UnionDuplicates.HoistedExactly | packages/client/generators/generate-types.ts:461-467 | a text is hoisted, once, exactly when it occurs in two branches, or in one and directly in the union |
| UnionDuplicates.EachMemberIsLeftOnce | packages/client/generators/generate-types.ts:474-505 | with two branches, each member is left at most once among the outer members and what is left of the branches, exactly when no branch keeps a member of its own twice |
| UnionDuplicates.FlatUnionKeepsEachOnce | packages/client/generators/generate-types.ts:413-507 | when no branch holds a parenthesised union, no member occurs twice in the resulting union, directly or in its branches, exactly when no branch keeps a member of its own twice |
| UnionDuplicates.RepeatsExactly | packages/client/generators/generate-types.ts:478-505 | for any union: the rewritten one repeats an outer member exactly when a shrunk branch prints like a type that stands alone in it |
| UnionOpened.OpenedCounts | packages/client/generators/generate-types.ts:478-505 | the result holds what stays and the members of the unions that a branch gave up, where the rewriting counted these unions as single members |
| UnionOpened.KeepsEachOnceExactly | packages/client/generators/generate-types.ts:474-505 | with two branches, no member is left occurring twice among the outer members and the branches of the result exactly when no branch keeps a text twice, no union given up by a branch holds one twice, and none of its texts is in another one or among what else is left |
| UnionExamples.UnwrappedUnion | packages/client/generators/generate-types.ts:482-483 | such a union: `(a, (p, q))` beside `(a, p, z)` leaves `p` in two branches |
| UnionTrees.VisitsAreDistinctExactly | packages/client/generators/generate-types.ts:407-508 | every union the visitor leaves in a tree has distinct members exactly when no union of the tree repeats one |
| UnionTrees.BranchesAreDistinctExactly | packages/client/generators/generate-types.ts:408-409 | the branches the visitor rewrote first have distinct members exactly when none of their unions repeats one |
| UnionTrees.NoneRepeatsIsDistinct | packages/client/generators/generate-types.ts:407-508 | then every union of the whole rewritten tree has distinct members |
| UnionTrees.VisitsKeepOnceExactly | packages/client/generators/generate-types.ts:407-508 | every union the visitor leaves in a tree keeps each member once, branches included, exactly when every union it visits is tidy |
| UnionTrees.FlatTreeKeepsOnce | packages/client/generators/generate-types.ts:407-508 | for a tree in which no branch holds a parenthesised union, every union of the rewritten tree keeps each member once, branches included |
| UnionExamples.RepeatedMember | packages/client/generators/generate-types.ts:484-493 | such a union, as the visitor leaves it: `(a, x, y)` beside `((x, y), a)` leaves `(x, y)` twice |
| UnionVisitor.DedupeMembers | packages/client/generators/generate-types.ts:415-424 | the loop keeps the first member of each text and the set of all texts |
| UnionVisitor.CountInBranches | packages/client/generators/generate-types.ts:439-459 | the nested loops count in how many branches each text occurs, with its first node, in insertion order |
| UnionVisitor.ToHoist | packages/client/generators/generate-types.ts:461-467 | the loop selects the members to hoist |
| UnionVisitor.Rebuild | packages/client/generators/generate-types.ts:474-498 | the loop drops, unwraps or shrinks each branch and keeps the other members |
| UnionVisitor.SimplifyMembers | packages/client/generators/generate-types.ts:413-507 | the loops together compute the simplified members the lemmas are about |
| UnionVisitor.Visit | packages/client/generators/generate-types.ts:407-508 | the visitor rewrites a tree from the leaves up into one that denotes the same |
| NeededReleases.NeededReleases | tools/lock-samples.js:179-201 | the worklist ends on every graph, cycles included, and returns exactly the released packages reachable through released packages, flagged dev exactly when the plain dependencies do not lead to them |
| NeededReleases.DrainedIsExact | tools/lock-samples.js:186-200 | a map with nothing pending that is sound and complete is exact reachability, for both flags |
| NeededReleases.Progress | tools/lock-samples.js:188-192 | a name only moves from absent to dev to non-dev, which is the measure of the loop |
| NeededReleases.Taken | tools/lock-samples.js:187-197 | taking a name and queueing its dependencies forgets nothing and adds nothing unasked |
| ModuleOrder.Walk.constructor | packages/core/app/discover-modules.ts:304-307 | nothing is visited, and every name leads to its module |
| ModuleOrder.Walk.Visit | packages/core/app/discover-modules.ts:309-328 | a visit fails only for a missing requirement, and otherwise leaves the same visits open and keeps every module after those it requires unless they lead back to it |
| ModuleOrder.OrderByRequires | packages/core/app/discover-modules.ts:304-333 | fails exactly when an enabled module requires a name that is not enabled; otherwise returns a permutation, every module after those it requires unless they lead back to it, and a valid order unchanged; it ends on cycles too |
| ModuleOrder.AcyclicIsRequiredFirst | packages/core/app/discover-modules.ts:300-303 | without cycles every module comes after all it requires |
| TemplateLayers.FoundByVariantLocales | packages/handlebars/handlebars-template-engine.ts:171-185 | a template is found alike by a list of locales and by those of them that have variants |
| TemplateLayers.PartialsByVariantLocales | packages/handlebars/handlebars-template-engine.ts:237-284 | the partials depend on the locales that have variants only |
| TemplateLayers.AliasChoice | packages/handlebars/handlebars-template-engine.ts:268-276 | an alias stands for a name of the including format when there is one, and otherwise for the first name answering to it |
| TemplateChoices.FoundExactly | packages/handlebars/handlebars-template-engine.ts:171-185 | told from the layers: what is found is the registered variant, or the file's where none is registered, of the first requested locale, and then of the empty one, that either layer has a variant for; and nothing exactly when no such locale has one |
| TemplateChoices.PartialsExactly | packages/handlebars/handlebars-template-engine.ts:255-280 | the partial of a key is the template found under that name, else the one chosen of those that answer to it, those of the files first, else none |
| TemplateChoices.FormatExactly | packages/common/utils/template-util.ts:90-94 | a name has a format and an alias exactly when it is the alias, a dot and an extension in its file name, which the format is in lower case |
| TemplateKeys.KeyIsInjective | packages/handlebars/handlebars-template-engine.ts:245-249 | formats and locales without the separator make a cache key of their own |
| TemplateKeys.KeysAgreeExactly | packages/handlebars/handlebars-template-engine.ts:245-249 | for any formats: two requests share a key exactly when they have one mode and the format of one is that of the other with the first of its locales appended |
| TemplateKeys.ClashExactly | packages/handlebars/handlebars-template-engine.ts:242-249 | two different formats share a key for some of the locales that have variants exactly when one is the other with such locales appended, in one mode |
| TemplateKeys.AmbiguousShares | packages/handlebars/handlebars-template-engine.ts:245-249 | a format that is another one of its own mode with locales appended shares its key with a request for that one |
| TemplateKeys.UnambiguousIsAlone | packages/handlebars/handlebars-template-engine.ts:245-249 | requests for formats that are not so, each in its own mode, have keys of their own |
| TemplateKeys.UnambiguousNeverClash | packages/handlebars/handlebars-template-engine.ts:245-249 | as long as the engine asks for no such format, no formats it asked for clash |
| TemplateKeys.OtherModeIsUnambiguous | packages/handlebars/handlebars-template-engine.ts:245-249 | a format with a separator is not so if the part before it has the other mode, as `html` has |
| TemplateKeys.KeysCollide | packages/handlebars/handlebars-template-engine.ts:245-249 | two requests for different partials that share their key: for `txt` with the locale `de`, and for the format `txt` and `de` joined by the separator |
| TemplateEngine.SameKeySamePartials | packages/handlebars/handlebars-template-engine.ts:242-253 | requests with one key are for the same partials, unless their formats clash |
| TemplateEngine.LastFileWins | packages/handlebars/handlebars-template-engine.ts:157-163 | a file read later replaces those of the same name and locale, so the application overrides the modules |
| TemplateEngine.LoadedExactly | packages/handlebars/handlebars-template-engine.ts:307-349 | the files hold a variant exactly when some file was read for that name and locale |
| TemplateEngine.AddedExactly | packages/handlebars/handlebars-template-engine.ts:351-376 | adding a template gives its name and locale this source and leaves every other variant as it was |
| TemplateEngine.RegisteredIsFound | packages/common/infrastructure/template.ts:72-86 | an accepted registered template is what is found of its name, whatever the files hold, when its locale is the first one asked for that has a variant |
| TemplateEngine.TemplateNameIs | packages/handlebars/handlebars-template-engine.ts:357-357 | however a path is written, with either slash and with or without a lead, it names one template |
| TemplateEngine.HandlebarsTemplateEngine.constructor | packages/handlebars/handlebars-template-engine.ts:52-63 | the engine starts without templates, partials and known locales |
| TemplateEngine.HandlebarsTemplateEngine.ClearPartials | packages/handlebars/handlebars-template-engine.ts:302-305 | the cached partials and the known locales are dropped together |
| TemplateEngine.HandlebarsTemplateEngine.RegisterTemplate | packages/handlebars/handlebars-template-engine.ts:120-131 | an accepted template is added to the registered layer and the cache cleared; a refused one changes nothing |
| TemplateEngine.HandlebarsTemplateEngine.LoadFiles | packages/handlebars/handlebars-template-engine.ts:154-168 | the file layer is replaced as a whole, or not at all when a file fails |
| TemplateEngine.HandlebarsTemplateEngine.Load | packages/handlebars/handlebars-template-engine.ts:139-151 | files are read at the first use, again at every use without the cache, and again after a failure |
| TemplateEngine.HandlebarsTemplateEngine.FindTemplate | packages/handlebars/handlebars-template-engine.ts:171-185 | the loop returns the variant of the first locale that has one, registered templates first, told from the layers |
| TemplateEngine.HandlebarsTemplateEngine.VariantLocalesNow | packages/handlebars/handlebars-template-engine.ts:287-299 | the remembered locales are those of the layers as they are now |
| TemplateEngine.HandlebarsTemplateEngine.PartialsFor | packages/handlebars/handlebars-template-engine.ts:237-284 | after any sequence of loads, registrations and renders the partials returned equal those computed afresh, unless two formats asked for since a layer last changed clash; otherwise those of a request with the same key |
| TemplateEngine.HandlebarsTemplateEngine.ComputePartials | packages/handlebars/handlebars-template-engine.ts:255-280 | the loops compute the partials by name and by alias that `PartialsExactly` describes |
| TemplateEngine.HandlebarsTemplateEngine.Render | packages/handlebars/handlebars-template-engine.ts:77-95 | a rendered template has the source of the one found, told from the layers, and the partials of the layers as they are then unless formats asked for clash; it asks for its format in its mode |
| TemplateEngine.HandlebarsTemplateEngine.RenderString | packages/handlebars/handlebars-template-engine.ts:97-112 | a text is rendered in its own format with the partials of the layers as they are then unless formats asked for clash; it asks for its format in its mode |
| Storages.WrittenFacts | packages/core/memory/in-memory.ts:75-80 | writing replaces an entry in its place or appends it, and changes no other one |
| Storages.RemovedFacts | packages/core/memory/in-memory.ts:101-115 | deleting removes one entry with its bytes and changes no other one |
| Storages.CleanedFacts | packages/core/memory/in-memory.ts:216-225 | cleaning up removes exactly the expired entries |
| Storages.AgreesCleaned | packages/core/memory/in-memory.ts:216-225 | a cleanup is never observable through get, then or later |
| Storages.StaysExactly | packages/core/memory/in-memory.ts:84-92 | an entry survives the eviction exactly when the count fits without those before it, so the earliest go first and no more than needed |
| Storages.EvictedFits | packages/core/memory/in-memory.ts:84-92 | where the size is counted at least as high as it is, what stays fits the limit |
| Storages.SurvivesExactly | packages/core/memory/in-memory.ts:80-92 | an entry survives exactly when it and those after it fit beside the drift of the counter, so beyond the limit the drift evicts every entry written |
| InMemories.InMemory.constructor | packages/core/memory/in-memory.ts:23-31 | the memory starts empty with nothing counted |
| InMemories.InMemory.Get | packages/core/memory/in-memory.ts:53-67 | without a size limit get equals the lookup in a plain map of values and deadlines; with one it gives the unexpired stored entry |
| InMemories.InMemory.Set | packages/core/memory/in-memory.ts:69-95 | the new state: expired entries gone, the entry written, the first ones evicted; the drift grows by the overwritten bytes |
| InMemories.ReadUntilDeadline | packages/core/memory/in-memory.ts:53-74 | a value that is not overwritten or deleted is read up to and at its deadline, and forever without a time to live, one of zero, or a deadline at the zero of the clock |
| InMemories.InMemory.Evict | packages/core/memory/in-memory.ts:84-92 | the loop ends, removes the shortest run of first entries that makes the count fit, and leaves the real total within the limit |
| InMemories.InMemory.DeleteEntry | packages/core/memory/in-memory.ts:101-115 | the bytes of the entry come off the counter, which stays at or above the real total, so the clamp at zero changes nothing |
| InMemories.InMemory.Delete | packages/core/memory/in-memory.ts:101-115 | tells whether there was an entry, and removes it from the plain map as well |
| InMemories.InMemory.CleanupExpired | packages/core/memory/in-memory.ts:216-234 | removes exactly the expired entries and locks, and no request for a lock notices |
| InMemories.InMemory.Keys | packages/core/memory/in-memory.ts:126-150 | the unexpired keys that match, in order; the expired entries met go, and their bytes stay counted as drift |
| InMemories.InMemory.DeleteMatching | packages/core/memory/in-memory.ts:117-124 | removes exactly the matching entries and counts the unexpired ones |
| InMemories.InMemory.Attempt | packages/core/memory/in-memory.ts:173-188 | an attempt is granted exactly when nobody holds the lock |
| InMemories.InMemory.Lock | packages/core/memory/in-memory.ts:157-210 | at most max(1, retryCount) attempts, all but a granted last one refused; a failure means all were made; the attempts are the delay apart |
| InMemories.InMemory.Release | packages/core/memory/in-memory.ts:190-198 | removes the lock exactly when it still has the token, and otherwise leaves the lock in place |
| MemoryDrift.Use | packages/core/memory/in-memory.ts:53-150 | no call of the memory lets the drift of the counter fall |
| MemoryDrift.NoneFits | packages/core/memory/in-memory.ts:84-92 | no stored entry has as many bytes as the drift leaves no room for |
| MemoryDrift.SetAgain | packages/core/memory/in-memory.ts:69-95 | writing one entry again and again: it is stored exactly as long as the bytes of all its writes together fit the limit |
| MemoryDrift.WearOut | packages/core/memory/in-memory.ts:69-95 | a new memory given one entry n times, with n times its bytes beyond the limit, never stores anything of that size again, whatever is called after that |
| LockRuns.AtMostOneHolder | packages/core/memory/in-memory.ts:173-200 | in every run of attempts, releases, expiries and cleanups a resource has at most one granted, unreleased, unexpired holder |
| LockRuns.Dropped | packages/core/memory/in-memory.ts:227-233 | dropping expired entries at any time changes nobody's hold |
| LockRuns.Grants | packages/core/memory/in-memory.ts:177-188 | without an unexpired entry nobody holds the lock, and granting it keeps table and history in step |
| LockRuns.Refuses | packages/core/memory/in-memory.ts:182-183 | an unexpired entry means that somebody holds the lock |
| LockRuns.Releases | packages/core/memory/in-memory.ts:190-198 | removing the entry that has the token keeps table and history in step |
| LockRuns.StaleReleaseEndsNothing | packages/core/memory/in-memory.ts:190-198 | a release by a holder whose lock expired and was taken since ends no hold |
| RedisLocks.RedisClient.SetIfAbsent | packages/redis/redis-memory.ts:259-265 | the conditional set is granted exactly when nobody holds the lock, the same specification as in process; an expiry of zero or less is refused and changes nothing |
| RedisLocks.RedisClient.ReleaseLock | packages/redis/redis-memory.ts:286-294 | the script deletes the key exactly when it is unexpired and has the token |
| RedisLocks.RedisLock.constructor | packages/redis/redis-memory.ts:243-251 | the defaults are 5000 ms, 10 attempts and 200 ms |
| RedisLocks.RedisLock.Lock | packages/redis/redis-memory.ts:253-284 | at most max(1, retryCount) attempts, all but a granted last one refused and the delay apart; a failure means all were made; an expiry of zero or less throws at the first one |
| RedisLocks.RedisLock.Release | packages/redis/redis-memory.ts:267-273 | a release succeeds exactly when the lock is unexpired and still has the token |
| CircuitBreakers.CircuitBreaker.constructor | packages/redis/circuit-breaker.ts:12-22 | the breaker starts closed with no failures |
| CircuitBreakers.CircuitBreaker.Acquire | packages/redis/circuit-breaker.ts:38-47 | the breaker is open exactly when the failures since the last success reach a positive threshold; closed it grants every call, open it grants one exactly when a cooldown has passed since the last call granted or failure, and n granted calls satisfy n * cooldown <= time since the opening |
| CircuitBreakers.CircuitBreaker.RemainingIs | packages/redis/circuit-breaker.ts:25-35 | calls are rejected exactly while open and within a cooldown of the last failure or granted call, and the remaining time is what is left of that |
| CircuitBreakers.CircuitBreaker.Success | packages/redis/circuit-breaker.ts:49-55 | the breaker is closed, and says so exactly if it was open |
| CircuitBreakers.CircuitBreaker.Failure | packages/redis/circuit-breaker.ts:57-69 | the failure that reaches the threshold opens the breaker and says so once, so the notifications alternate, starting with an opening |
| Versions.CompareVersions | packages/common/utils/string-util.ts:278-294 | the loop returns the first difference of the parts, missing ones counting as zero |
| Versions.ComparesLexicographically | packages/common/utils/string-util.ts:278-294 | numeric versions of any lengths compare part by part from the left |
| Versions.TotalPreorder | packages/common/utils/string-util.ts:269-277 | the comparison is reflexive, total and transitive, and equal exactly up to zeros at the end |
| VersionRanges.BelowNextMeans | packages/common/utils/string-util.ts:358-364 | of the versions not below the bound, those below the next version are the ones sharing the bound up to the raised part |
| VersionRanges.RangeMeans | packages/common/utils/string-util.ts:335-354 | a caret, tilde or partial range accepts exactly the versions at least the bound that share its parts up to the kept one |
| VersionRanges.OperatorsMean | packages/common/utils/string-util.ts:335-354 | a tilde range accepts exactly the versions at least the bound that share its first two parts (or the only one), a partial version those that share all of its parts, and a caret those that share the parts up to the first that is not zero |
| VersionRanges.ComparisonMeans | packages/common/utils/string-util.ts:326-334 | the comparisons, and an exact version of three or more parts, mean what they say |
| VersionRanges.CaretKeeps | packages/common/utils/string-util.ts:335-338 | a caret keeps the parts up to the first that is not zero, or all when all are zero |
| VersionRanges.AcceptsExactly | packages/common/utils/string-util.ts:316-324 | such a range accepts some version exactly when its bound has a part that is no wildcard; `x.x`, `^X` and the like accept none |
| VersionRanges.SatisfiesExactly | packages/common/utils/string-util.ts:304-314 | a range accepts exactly the versions that meet, in the order of versions, every comparator of one of its alternatives |
| VersionRanges.AlternativeIsConvex | packages/common/utils/string-util.ts:307-313 | an alternative accepts every version between two that it accepts |
| VersionRanges.SameAreAcceptedAlike | packages/common/utils/string-util.ts:304-314 | versions that differ in zeros at their ends satisfy the same ranges |
| IsoWeeks.YearLength | packages/common/utils/string-util.ts:491-491 | a calendar year has 366 days in a Gregorian leap year and 365 otherwise |
| IsoWeeks.WeekIsUnique | packages/common/utils/string-util.ts:484-493 | a day lies in one week of one week-numbering year only |
| IsoWeeks.WeeksInYear | packages/common/utils/string-util.ts:484-493 | a week-numbering year has 53 weeks exactly when it starts on a Thursday, or on a Wednesday of a leap year, and else 52 |
| IsoWeeks.NextDay | packages/common/utils/string-util.ts:484-493 | the week stays from Monday to Sunday and then goes up by one, or back to 1 when the next week holds the first Thursday of a year |
| IsoWeeks.ComputedWeekIsIso | packages/common/utils/string-util.ts:485-493 | unless the date or its Thursday is in the years 0 to 99, the computed week is the week of ISO 8601, from 1 to 53 |
| IsoWeeks.YearsOfTwoDigitsFail | packages/common/utils/string-util.ts:486-491 | a date whose Thursday is in the years 0 to 99, which Date.UTC reads as 1900 to 1999, gets no week |
| TwoDigitYears.ComputedWeekIsRightExactly | packages/common/utils/string-util.ts:485-493 | for any date: the computed week is right exactly when neither the date nor its Thursday is in the years 0 to 99, or the date is and the same date of 1900 to 1999 has the same week |
| TwoDigitYears.RightFromYearOne | packages/common/utils/string-util.ts:485-493 | in the years 1 to 99, away from the turns of the years: exactly on Sundays when the year begins on a Thursday, and exactly on the other days when it does not |
| TwoDigitYears.RightInYearZero | packages/common/utils/string-util.ts:485-493 | in the year 0, away from its turns: exactly on the days from Monday to Friday, and from March on on Saturdays too |
| TwoDigitYears.IsoWeekOfYear | packages/common/utils/string-util.ts:485-493 | the shift to the Thursday and the division compute the week of ISO 8601, and for the years 0 to 99 exactly when the same date of 1900 to 1999 has the same week |
| CacheKeys.KeyNamesModel | packages/core/cache/cache-service.ts:196-212 | a key built for relations holds each of their names between marks and ends in the suffix |
| CacheKeys.InvalidationHitsExactly | packages/core/cache/cache-service.ts:161-213 | for any key, and for a prefix and names without wildcards: the invalidation of a model hits the key, as the memory stores it, exactly when the name stands between marks before the suffix in what is behind the prefix, which holds no line terminator besides |
| CacheKeys.SuffixHitsExactly | packages/core/cache/cache-service.ts:123-125 | the invalidation of everything hits a key exactly when the suffix ends what is behind the prefix, which is in one line besides |
| CacheKeys.DependentKeyIsHit | packages/core/cache/cache-service.ts:161-213 | so a key that depends on a model is hit exactly when it holds no line terminator, unless it begins with a prefix that holds the mark; the prefix may hold wildcards here |
| CacheDependents.DependentsExactly | packages/core/cache/cache-service.ts:161-213 | where prefix, names and the other parts of a key hold no mark: the invalidation of a model hits exactly the keys of the responses that depend on it, do not opt out and are in one line |
| CacheKeys.SkippedKeysAreNotHit | packages/core/cache/cache-service.ts:200-212 | a key that opts out of invalidation never matches the pattern |
| CacheKeys.SweepHitsExactly | packages/core/memory/in-memory.ts:129-135 | the pattern that clears the cache matches a stored key exactly when the key holds no line terminator |
| CacheKeys.MarkedPrefixMisses | packages/core/cache/cache.ts:323-329 | a prefix that holds the mark can be taken for part of a key, which then escapes its invalidation: a concrete one |
| Globs.MatchesInOneLine | packages/core/memory/in-memory.ts:129-135 | the globs in process match texts without line terminators only |
| Globs.InOneLineExactly | packages/core/memory/in-memory.ts:129-135 | a text is in one line exactly when it holds no line feed, carriage return, line separator or paragraph separator |
| CacheInvalidation.CacheService.InvalidateCache | packages/core/cache/cache-service.ts:96-143 | at once the keys the strategy hits leave the store, and an error of the memory is logged and leaves what the memory left; within a transaction the model is registered once |
| CacheInvalidation.CacheService.AfterCommit | packages/core/context/transaction-scope.ts:56-68 | a callback is registered under its key once, the first one staying |
| CacheInvalidation.CacheService.SettleTransaction | packages/core/context/transaction-scope.ts:87-110 | a commit invalidates every registered model, also after the invalidation of an earlier one failed, and a rollback none |
| CacheInvalidation.CacheService.LeftExactly | packages/core/cache/cache-service.ts:113-128 | for every strategy and any key: it is left by an invalidation exactly when the strategy does not reach it, or the memory failed and left it |
| CacheInvalidation.CacheService.NoRelatedKeyIsLeft | packages/core/cache/cache-service.ts:113-128 | after a successful invalidation of a model no key depending on it is left, except exactly those with a line terminator, and those that begin with a prefix holding the mark exactly when no mark is left behind it |

## Left out

- PlanIsAdmissibleExactly, JoinTablesAdmissible: model and field names are taken as distinct identifiers without `.` and
  `|`, as the schema generator needs them; `PlanIsAdmissible` asks nothing of the names.
- Letters outside ASCII: capitalizing and lower-casing change ASCII letters only.
- HoistSharedTypes: documents are trees without shared subtrees, objects are unordered maps (the loops visit them in any
  order), and signatures are values rather than their serialized text. The round trip of a run that also hoists shapes is
  promised for documents without dangling references and with no enum titled by a name the resolver gives; its converse is
  stated for runs of enums (`RunGivesBackExactly`), and of the document where different enums get different names.
- CollectOccurrences: the groups are sets, as documents are unordered maps, so the order of occurrences is not modelled.
- HoistShape: the structure it defines is the one of some occurrence rather than the first, whose signature they all share.
- HoistEnums: the name of an enum is a parameter; the words that owners have in common come from regular expressions.
- Cache: its operations are atomic steps, so the recovery that concurrent calls share and the deferred eviction are not
  interleaved. Which entries an eviction picks is arbitrary, since the eviction indexes are not part of this model.
  Entries carry a count of earlier requests that exists in the model only. Other writers of the same memory are left out.
- ReadsAreFresh: is about the keys that the globs of the memory can match, which are all keys on a server and those without
  line terminators in process (`SweepHitsExactly`).
- Watcher: segments between awaits are atomic, the hook that replaces import aliases succeeds, and the promise of a process
  resolves once the process is gone. The watcher for Bun is not modelled.
- EachMemberIsLeftOnce, KeepsEachOnceExactly: are about unions with two branches or more. With fewer nothing is hoisted,
  and an outer member may stay in the branch as well.
- FlatTreeKeepsOnce: takes trees without a bare union as a member of a union, which the parser and the factory parenthesise.
- SimplifiedMembers, RepeatsExactly: members are taken not to be parenthesised again by the factory that creates a union.
  If it does so to some kinds of types, their texts change after they were compared.
- Visit: the text of a type is its printed tree, with a union of one member printed as that member. The search for the end
  of a type by its brackets is left out.
- Render, RenderString: compiling depends on the source and the mode only, and reading, parsing and checking of templates
  give their result as a parameter. Rendering itself is not modelled.
- KeysAgreeExactly, ClashExactly: locale tags hold no `|`, as canonical tags do not.
- InMemory, RedisLock: operations are atomic, serialized values come with their length, and globs are a parameter.
  `has`, which ignores deadlines, and the sizes of single keys are left out.
- Delay: promises only what other callers may have done meanwhile, and its body is the case where nobody did anything.
- CircuitBreaker: threshold, cooldown and clock are whole numbers, and the listener only records its calls.
- RangeMeans, ComparisonMeans, TotalPreorder: are about numeric parts. A part that is no number makes a comparison fail, as
  in the source, and nothing more is stated of it. Splitting the text of versions and ranges is left out.
- ComputedWeekIsIso: leaves out the days of the years 0 to 99, and those whose week has its Thursday there, which are the
  subject of `ComputedWeekIsRightExactly`.
- InvalidationHitsExactly, LeftExactly: take a prefix and model names without `*` and `?`, which would be wildcards.
  `DependentKeyIsHit` admits them where the prefix holds no `!` or does not begin the key.
- InvalidateCache: the deletion is done, or has failed, when it returns. A deferred one ends later.
- BuildCacheKey: takes the list of relations as given; the walk over nested includes is left out, and so are the hash of
  the body and the user.
- The LRU, LFU and FIFO indexes, the memory queue and the time series are not part of this model.
- Redis, BullMQ, Twilio, mail, image, cron, HTTP and database calls, process spawning, file watching, the CLI, the
  scaffolder, configuration loading and the text of generated schemas and clients: I/O and plumbing.
- Dependency injection, health checks and soft-delete checks: they would only add easy members.
