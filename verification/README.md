# A verified model of the dcontroller view-maintenance core

dcontroller keeps derived Kubernetes-style *views* up to date. A pipeline (`@join`, then `@aggregate`) turns
every event on a base object into deltas on a target view; a target writes the deltas into a view cache; informers
pass them on to event handlers. This project models that path from event to handler in Dafny, and proves that the
incremental form agrees with recomputing the query from nothing, over every well-formed run. It also covers the
local merge patch, the expression tree's parser and printer, and the deep copies that protect stored objects.

Check it with `dafny verify dfyconfig.toml`.

## How the model is organised

| file | what it holds |
|---|---|
| `Json.dfy`, `Objects.dfy` | JSON trees, unstructured objects, identity accessors and setters, `Normalize` |
| `JoinIds.dfy` | the `kind:namespace:name` ids of join tuples, and exactly which tuples they tell apart |
| `Deltas.dfy` | deltas and their meaning, exact differences of two views, `collapseDeltas`, `diffDeltas` |
| `Joins.dfy`, `JoinMaintenance.dfy` | the full join as a reference, and how it changes when one store changes |
| `Aggregations.dfy` | stages, the image of an object, the effect of one event on an aggregation |
| `Engine.dfy`, `Pipeline.dfy` | the `DefaultEngine` and `Pipeline` classes, each method tied to a step relation |
| `ImageViews.dfy`, `Feeding.dfy`, `UpdateOrders.dfy` | projected views, feeding differences row by row, the exact condition for it |
| `JoinRefinement.dfy`, `PipelineRefinement.dfy` | incremental equals full, for one step and for whole runs |
| `Selections.dfy` | the query of a pipeline that only selects, stated without evaluating its stages |
| `UnseenViews.dfy` | the exact condition for the join while a view has not been seen |
| `ListingOrders.dfy`, `SwappedNames.dfy` | the exact condition on projected keys at the level of the pipeline, and a pipeline that violates it |
| `EngineLaws.dfy` | duplicates, upserts, failing updates, adds over known objects |
| `ViewCache.dfy` | the view cache, informers and handlers as a replicated map |
| `Patches.dfy`, `PatchReads.dfy`, `PatchUndo.dfy` | the merge patch against section 2 of RFC 7396 and read along paths, and its delete form |
| `Targets.dfy`, `Controllers.dfy` | the composite client, Updater and Patcher targets, the end-to-end theorem |
| `Expressions.dfy` | parsing, printing and `@dict` evaluation |
| `Heaps.dfy`, `Aliasing.dfy`, `CopyingStores.dfy` | deep copies on an explicit heap; the store, the cache and event delivery with the order in which they copy and share |

Code that changes state is a class or a method with loops, proved against a function or a relation on values; the
theorems are lemmas about those functions and relations. Go's map iteration order and the listing order of a store
are left free: `JoinStep`, `PipelineStep`, `IsCollapse`, `Lists` and `RowsThrough` are relations that admit every
order, so each theorem holds for all of them. (The nested loops of the product yield some of the orders of its tuples,
not all; the relations are the wider choice.) Join conditions and stage expressions are uninterpreted functions
that may fail. Error paths are part of every operation (`Result`).

## Main results

- **End to end** (`ControllerMaintainsQuery`): along every well-formed run of a controller with an Updater view
  target, while others register and remove handlers and write other kinds, no write fails, the target cache equals the
  recomputed query at every point, and so does the map each handler registered at that point folds from its own events.
- **Refinement** (`PipelineRefinesQuery`): from the empty engine, after every well-formed run, the base stores hold
  the last version of every object, the temporary store holds the full join, and the folded output is exactly the
  query. Every delta was valid when it was emitted. The statement about the stores needs no condition on projected
  keys (`RunKeepsStores`).
- **Incremental join = full join** (`JoinStepIsExactDifference`, resting on `TupleDecomposition`, `JoinIdDecodes` and
  the exactness of `RecurseProd`), with the exact condition for views not seen yet (`JoinStepCorrectIff`).
- **The exact condition on projected keys** (`PipelineStepCorrectIff`, `PipelineKeysStayIff`): the collapsed output of a
  pipeline leads to the recomputed query if and only if the join's deltas claim no projected key before releasing it,
  and does so for every order of the rows if and only if no key passes between two surviving rows.
  `SwapIsNeverMaintained` is a real pipeline, a reachable state and one update on which the code goes wrong in every
  order.
- **Join ids** (`JoinIdDecodes`, `JoinIdCollides`, `ClearIff`): ids tell tuples apart under a condition on each member,
  and every tuple that violates it shares its id with another.
- **Replication** (`HandlersReplicateCache`), **no aliasing** (`StoredNeverAliased`, over the store, the cache and event
  delivery), **patch laws** (`PatchIdempotent`, `PatchIsMergePatchIff`, `UnnamedStays` and its companions, `DeletePatchUndoesPatch`),
  **round trip** (`RoundTripIff`, `ParseIsSpelling`).

A *well-formed run* (`WfConfig`, `WfStep`, `KeysWellBehaved`) means: at least two base views for a join and one
otherwise; distinct, colon-free kinds that do not collide with `apiVersion`, `kind` or `metadata` and are not the
temporary view; events only of base views; with a join, no `:` in the namespace of a stored object and no `--kind:` in
its name for the kind sorted behind its own; Added never overwrites a known object with a different one; no tuple
through an object the event stores or removes matches while a view has not been seen (an inner condition ensures it,
`InnerIsSafe`); no evaluation fails; projected keys are unique before and after each event, and none passes between two
surviving rows. At an Updater target every object of the query result has a namespace.

## What the code does that its callers may not expect

- Join ids collide when a namespace contains `:`, or a name contains `--kind:` for the kind sorted behind its own:
  every such tuple shares its id with another one (`JoinIdCollides`). Names such as `system:node` are harmless, and so
  is a `-` in kinds or names.
- Two rows that swap projected names in one event end in a wrong view in every listing order
  (`SwapIsNeverMaintained`).
- An Added event for a known key keeps the join correct if and only if each old matching tuple has a matching
  counterpart through the new object (`AddOverKnownIff`).
- An update that fails has lost the old object if and only if there was one that could itself still be evaluated
  (`FailedJoinUpdateIff`, `FailedAggregateUpdateIff`).
- While a view is unseen the full join is empty, and the emitted rows agree with it if and only if no tuple through a
  newly stored object matches (`UnseenViewIff`).
- Objects without a namespace cannot be updated through the client: the lookup key starts with `/`, and stored keys
  do not unless a name or namespace does (`UpdateSucceedsIff`). Rows of a join without an aggregation have no namespace.
- `patch` merges lists by index and keeps nulls under absent members, so it differs from section 2 of RFC 7396
  outside an exactly stated fragment (`PatchIsMergePatchIff`, `PatchDiffersFromMergePatch`).
- The printer drops `@any` and operator-form `@list` and `@dict`, and prints integral floats as integers; JSON null
  parses as `@bool` false; an object whose only key is empty makes the parser index past the key's end
  (`ParseOutcomes`).
- `diffDeltas` compares kind and name but not namespaces; for namespaced rows it may drop a delete
  (`DiffDeltasReplacesIff`). This is harmless for join rows, which have no namespace.

## Model

| member | source | states |
|---|---|---|
| Objects.SetContentKeepsIdentity | pkg/object/object.go:55-61 | replacing the content keeps GVK, namespace and name, and takes every other field from the new content, all other metadata members included; metadata that is not a map stays as it is |
| Objects.SetMetaFieldReads | pkg/object/object.go:48-51 | setting a metadata field changes that field and nothing else; an empty value removes it |
| Objects.NormalizeYieldsNamedViewObject | pkg/pipeline/engine.go:32-77 | succeeds exactly when metadata is a map with a non-empty string name and a string namespace if any; the result is of the target view, named as asked, with all other fields and all other metadata members kept |
| JoinIds.SortStringsSorts | pkg/pipeline/default_engine.go:412 | the ids are put in order, and none is lost or repeated |
| JoinIds.FirstReadingIsEarliest | pkg/pipeline/default_engine.go:399-413 | a list whose namespaces have no `:` and whose names do not contain the marker of the next kind ends its names earlier than every other list over the same kinds with the same `--`-joined text |
| JoinIds.JoinIdDecodes | pkg/pipeline/default_engine.go:399-413 | equal sorted and joined ids over the same distinct, colon-free kinds mean equal namespace and name in every slot, given no `:` in namespaces and no `--kind:` in a name for the kind sorted behind its own; other colons and `--` in names are allowed |
| JoinIds.JoinIdCollides | pkg/pipeline/default_engine.go:399-413 | every tuple that violates the condition, over any distinct colon-free kinds, shares its id with a different tuple over the same kinds |
| JoinIds.ClearIff | pkg/pipeline/default_engine.go:399-413 | exact: a tuple meets the condition if and only if it is the earliest reading of its id among all tuples over its kinds |
| JoinIds.FollowsIsNext | pkg/pipeline/default_engine.go:412 | the kind sorted behind another one, read off the set of kinds, is the next one in the sorted list of ids |
| Deltas.CollapseDeltas | pkg/pipeline/pipeline.go:103-127 | for any map order, lists the merged last delta of each key once, deletes before updates before adds |
| Deltas.LastPerKey | pkg/pipeline/pipeline.go:104-114 | the `uniq` map: last delta per key, with delete-then-add or delete-then-update recorded as an update |
| Deltas.EmitByType | pkg/pipeline/pipeline.go:116-126 | every recorded delta with an emitted type comes out once, in type order |
| Deltas.EmitType | pkg/pipeline/pipeline.go:118-124 | one pass of the inner loop emits exactly the deltas of its type |
| Deltas.CollapsePreservesMeaning | pkg/pipeline/pipeline.go:103-127 | from every start map, applying the collapsed list gives what applying the original list in order gives |
| Deltas.CollapseHasSameUniq | pkg/pipeline/pipeline.go:103-127 | collapsing is stable: collapsing the output again records the same delta per key |
| Deltas.CollapseOrder | pkg/pipeline/pipeline.go:116-126 | deletes, updates, adds, replaces and syncs come in this order; exactly the keys whose recorded delta is an upsert are left out |
| Deltas.CollapseKeepsStrict | pkg/pipeline/pipeline.go:103-127 | if each delta was valid in turn and added keys are not touched again, each collapsed delta is valid in turn: adds absent, updates and deletes present |
| Deltas.CollapseExists | pkg/pipeline/pipeline.go:103-127 | every list has a collapsed form |
| Deltas.ContainsDelta | pkg/pipeline/default_engine.go:549-558 | finds a delta exactly when one with equal GVK and name is in the list |
| Deltas.DiffDeltas | pkg/pipeline/default_engine.go:529-547 | partitions into deletes without an add, updates for adds with a delete, and adds without a delete |
| Deltas.DiffDeltasReplacesIff | pkg/pipeline/default_engine.go:529-547 | for all delete and add lists without repeated keys and every view: the consolidated list has the effect of all deletes followed by all adds if and only if no present deleted row is dropped for an added row of the same kind and name but another key |
| Deltas.DiffDeltasReplaces | pkg/pipeline/default_engine.go:347-351 | rows of one kind without namespaces always meet that condition, and get one delta per key in delete, update, add order |
| Deltas.ConsolidatedIsMinimalDiff | pkg/pipeline/default_engine.go:338-351 | consolidating the exact difference to a middle view and on from it gives the exact difference from the first view to the last |
| Deltas.MinimalDiffApplies | pkg/pipeline/default_engine.go:347-351 | an exact difference takes the old view to the new one and every delta of it is valid in turn |
| Joins.TuplesExact | pkg/pipeline/default_engine.go:451-506 | the recursive reference product holds exactly the tuples with one stored object per view |
| Joins.JoinInputIs | pkg/pipeline/default_engine.go:395-417 | what the condition is evaluated on, empty slots included: each present member, whole, under the kind of its view, the identity of the temporary view, the tuple id as the only metadata, and nothing else |
| Joins.MembersArePresent | pkg/pipeline/default_engine.go:399-413 | the tuple id is made from exactly the members present |
| Joins.ThroughIsSlotted | pkg/pipeline/default_engine.go:465-506 | every tuple the product visits has its members in the slots of their views |
| Joins.JoinObjectIdentity | pkg/pipeline/default_engine.go:395-435 | a combined object is of the temporary view, has no namespace, is named by the tuple id, and holds each member under its kind |
| Joins.KeyDeterminesTuple | pkg/pipeline/default_engine.go:411-413 | two tuples of the same stores whose combined objects have one key are the same tuple |
| Joins.JoinViewExact | pkg/pipeline/default_engine.go:394-444 | the reference join view holds each matching tuple under its own key and nothing else |
| Joins.MatchingThroughIsFull | pkg/pipeline/default_engine.go:486-493 | if no tuple through an object matches with a member missing, matching tuples have a safe member of its own view in every slot |
| Joins.InnerIsComplete | pkg/pipeline/default_engine.go:486-493 | a condition that is false without one of the kinds never matches a tuple with an unseen view's empty slot |
| Joins.SeenIsComplete | pkg/pipeline/default_engine.go:486-493 | once all views have been seen there are no empty slots, whatever the condition |
| JoinMaintenance.TupleDecomposition | pkg/pipeline/default_engine.go:465-506 | after one object arrives the n-ary product is the old product plus the tuples through that object |
| JoinMaintenance.RowsThroughAreExactGain | pkg/pipeline/default_engine.go:315-331 | the rows through a new object are exactly the rows the join view gains |
| JoinMaintenance.AddIsMinimalDiff | pkg/pipeline/default_engine.go:315-331 | emitted as adds, the rows through a new object are the exact difference of the full joins before and after |
| JoinMaintenance.DeleteIsMinimalDiff | pkg/pipeline/default_engine.go:353-381 | emitted as deletes, the rows through the stored object are the exact difference of the full joins |
| JoinMaintenance.ReplacedRowsDiffer | pkg/pipeline/default_engine.go:333-351 | a row rebuilt from a changed object is never equal to the old row, so an emitted update is a real change |
| Aggregations.EvalStage | pkg/pipeline/default_engine.go:236-287 | a select keeps its input exactly when its condition is true, a project replaces it by its value, a malformed stage fails |
| Aggregations.EvalAggregation | pkg/pipeline/default_engine.go:208-234 | the nested loops compute the image of the object: at most one normalized object for every stage list, or the first error |
| Aggregations.StagesStopAtError | pkg/pipeline/default_engine.go:212-222 | an error in a prefix of the stages is the error of the whole list |
| Aggregations.StagesCompose | pkg/pipeline/default_engine.go:208-222 | stages work front to back: later ones see what earlier ones yield, nothing after a drop, and an error ends the list |
| Aggregations.FirstStage | pkg/pipeline/default_engine.go:267-286 | a projection in front replaces the object the other stages see; a malformed stage fails |
| Aggregations.SelectionsStop | pkg/pipeline/default_engine.go:244-265 | the first selection that does not hold decides: the object is dropped, or the condition's error is returned |
| Aggregations.SelectionsKeep | pkg/pipeline/default_engine.go:244-265 | when all conditions evaluate, a list of selections keeps exactly the objects on which all of them hold, unchanged |
| Aggregations.ImageOutcome | pkg/pipeline/default_engine.go:224-229 | an object that comes through the stages is recast into the view under its own key if it names itself properly, and fails the evaluation otherwise; a dropped one fails nothing |
| Selections.SelectionQuery | pkg/pipeline/default_engine.go:208-287 | the query of a select-only pipeline, key by key: exactly the source objects on which every condition holds, recast into the view; keys never clash |
| Selections.RowIffSelected | pkg/pipeline/default_engine.go:208-287 | a source object on which all conditions evaluate has a row if and only if all of them hold on it |
| Engine.DefaultEngine.constructor | pkg/pipeline/default_engine.go:30-37 | an engine starts with no store |
| Engine.DefaultEngine.InitViewStore | pkg/pipeline/default_engine.go:508-512 | creates a missing store and leaves every existing one alone |
| Engine.DefaultEngine.IsValidEvent | pkg/pipeline/default_engine.go:50-68 | an add, update, upsert or replace of an equal stored object is not an event; the store of the GVK is created |
| Engine.DefaultEngine.HandleUpsertEvent | pkg/pipeline/default_engine.go:515-526 | an upsert becomes an update of a known and an add of an unknown object |
| Engine.DefaultEngine.EvaluateAggregation | pkg/pipeline/default_engine.go:70-95 | new stores and deltas (or the error) of one event at an aggregation; well-keyed stores stay so |
| Engine.DefaultEngine.EvaluateTypedAggregation | pkg/pipeline/default_engine.go:97-206 | the case split by event type, with the outcome of every error path |
| Engine.DefaultEngine.AggregateReplaced | pkg/pipeline/default_engine.go:125-165 | an update replaces the old image by the new one: nothing, an add, a delete, an update, or a delete and an add |
| Engine.DefaultEngine.AggregateDeleted | pkg/pipeline/default_engine.go:167-197 | deletes the image of the stored object, not of the event's; an unknown object yields nothing |
| Engine.DefaultEngine.AggregateAdded | pkg/pipeline/default_engine.go:103-123 | adds the image of the object, or stores nothing when a stage fails |
| Engine.DefaultEngine.EvaluateJoin | pkg/pipeline/default_engine.go:298-392 | new stores and deltas (or the error) of one event at a join, for every listing order |
| Engine.DefaultEngine.JoinReplaced | pkg/pipeline/default_engine.go:333-351 | a delete followed by an add, consolidated; an error of the add half leaves the delete in place |
| Engine.DefaultEngine.JoinDeleted | pkg/pipeline/default_engine.go:353-381 | the rows through the stored object are deleted and the object is gone; an unknown object yields nothing |
| Engine.DefaultEngine.JoinAdded | pkg/pipeline/default_engine.go:315-331 | the rows through the object are added and the object is stored, or nothing changes on error |
| Engine.DefaultEngine.EvalTuple | pkg/pipeline/default_engine.go:395-435 | the combined object when the condition holds on the tuple's input (see `JoinInputIs`), nothing when not, the error when it fails |
| Engine.DefaultEngine.EvalJoin | pkg/pipeline/default_engine.go:394-444 | exactly the matching combined objects through the object, each once; with a condition that always holds there are as many as the product of the other stores' sizes |
| Engine.DefaultEngine.RecurseProd | pkg/pipeline/default_engine.go:465-506 | evaluates every tuple with the object in its own slot and any stored object elsewhere exactly once and nothing else; fails exactly when some tuple fails; their number is the product of the other stores' sizes |
| Engine.DefaultEngine.RecurseOver | pkg/pipeline/default_engine.go:495-503 | the loop over another view's store keeps the enumeration exact |
| Engine.ListStore | pkg/cache/store.go:28-35 | every stored object once, in some order |
| Engine.SelectAllRows | pkg/pipeline/default_engine.go:465-506 | when all tuples match, there is one row per tuple |
| Pipelines.Pipeline.constructor | pkg/pipeline/pipeline.go:36-41 | a pipeline starts from an engine without stores |
| Pipelines.NewPipeline | pkg/pipeline/pipeline.go:30-42 | fails exactly when there are several sources and no join, else gives a pipeline with an empty engine |
| Pipelines.Pipeline.Evaluate | pkg/pipeline/pipeline.go:56-101 | duplicates are dropped, the join feeds the aggregation delta by delta, the result is collapsed; the first error ends the call with the stores as they are |
| Pipelines.Pipeline.AggregateEach | pkg/pipeline/pipeline.go:82-88 | the loop over the join's deltas threads the stores and stops at the first error |
| Pipelines.FeedStopsAtError | pkg/pipeline/pipeline.go:82-88 | an error in a prefix of the deltas is the outcome of the whole list |
| ImageViews.ImageViewExact | pkg/pipeline/default_engine.go:208-234 | a projected view with unique keys holds exactly the images of the rows |
| ImageViews.RowChange | pkg/pipeline/default_engine.go:125-165 | replacing the image of one changed row takes the recomputed old view to the recomputed new view, by valid deltas |
| Feeding.FeedMaintains | pkg/pipeline/pipeline.go:78-92 | if every intermediate view has unique keys, feeding row by row keeps the projected view exact, by valid deltas that never touch an added key again |
| Feeding.PrefixInjective | pkg/pipeline/pipeline.go:78-92 | intermediate views have unique keys when no key is claimed by an updated row before another updated row releases it |
| Feeding.FeedCorrect | pkg/pipeline/pipeline.go:78-92 | then feeding the difference of two views gives the recomputed projected view |
| Feeding.FeedLosesKey | pkg/pipeline/pipeline.go:78-92 | a key claimed before it is released is missing afterwards |
| Feeding.FeedCorrectIff | pkg/pipeline/pipeline.go:78-92 | the outcome is the recomputed view if and only if no key is claimed before it is released |
| Feeding.KeysStaySuffices | pkg/pipeline/pipeline.go:78-92 | if no key passes between two surviving rows, the condition holds for every order |
| UpdateOrders.AnyOrderIsMinimal | pkg/pipeline/default_engine.go:529-547 | deletes, updates and adds each in any order form an exact difference |
| UpdateOrders.SomeOrderPasses | pkg/pipeline/pipeline.go:78-92 | if a key does pass, some order claims it too early |
| UpdateOrders.KeysStayIff | pkg/pipeline/pipeline.go:78-92 | all orders give the recomputed view if and only if no key passes between two surviving rows |
| UpdateOrders.SwapPasses | pkg/pipeline/pipeline.go:78-92 | two rows that swap projected keys pass a key too early in every order |
| ListingOrders.PipelineKeysStayIff | pkg/pipeline/pipeline.go:56-101 | for an event of a pipeline with a join and an aggregation, with unique projected keys before and after: every order of the rows leads to the recomputed query if and only if no key passes between two surviving rows |
| ListingOrders.JoinReorders | pkg/pipeline/default_engine.go:333-351 | any two updated rows of a join step can be emitted in either order |
| SwappedNames.SwapIsNeverMaintained | pkg/pipeline/pipeline.go:56-101 | items joined with a table that names them: the table update that swaps two names evaluates without an error, keys are unique before and after, and in every listing order the output does not lead to the recomputed query |
| SwappedNames.NamedIsReached | pkg/pipeline/pipeline.go:56-101 | such a state is reached from the empty engine by three adds |
| JoinRefinement.JoinAddCorrect | pkg/pipeline/default_engine.go:315-331 | an add of an unknown object emits the exact difference of the full joins |
| JoinRefinement.JoinDeleteCorrect | pkg/pipeline/default_engine.go:353-381 | a delete emits the exact difference of the full joins, also for an unknown object |
| JoinRefinement.JoinReplaceCorrect | pkg/pipeline/default_engine.go:333-351 | an update of a known or unknown object emits the exact difference of the full joins |
| JoinRefinement.JoinStepIsExactDifference | pkg/pipeline/default_engine.go:298-392 | incremental join equals full join: every well-formed event leaves the last versions stored and emits the exact difference of the full joins |
| JoinRefinement.InnerIsSafe | pkg/pipeline/default_engine.go:486-493 | with an inner condition, the only thing asked of an event's object is a safe id |
| UnseenViews.UnseenViewIff | pkg/pipeline/default_engine.go:486-493 | while a view is unseen the full join is empty before and after, and the deltas of any event agree with it if and only if no tuple through a newly stored object matches |
| UnseenViews.ProductVisitsIff | pkg/pipeline/default_engine.go:465-506 | the product visits a tuple if and only if no other view has been seen to be empty, and leaves exactly the slots of unseen views empty |
| UnseenViews.JoinStepCorrectIff | pkg/pipeline/default_engine.go:298-392 | for every well-formed event, seen views or not: the emitted deltas lead to the full join if and only if no tuple through a newly stored object matches with a member missing; deletes are always right |
| PipelineRefinement.AggregateStepFeeds | pkg/pipeline/default_engine.go:97-206 | one event at an aggregation applies it to the store and replaces the row's image |
| PipelineRefinement.OutputOfDifference | pkg/pipeline/pipeline.go:78-92 | feeding and collapsing an exact difference materialises the source in any case; with unique keys the collapsed list leads to the recomputed projected view if and only if no key is claimed before it is released, and then every delta is valid in turn |
| PipelineRefinement.FeedingSucceedsIff | pkg/pipeline/pipeline.go:82-88 | feeding a difference succeeds if and only if the old and new versions of the changed rows evaluate, in whatever order |
| PipelineRefinement.AggregateOnlyStep | pkg/pipeline/default_engine.go:97-206 | incremental aggregation equals full aggregation, for one event |
| PipelineRefinement.JoinOnlyStep | pkg/pipeline/pipeline.go:69-76 | the step of a pipeline with a join only is correct |
| PipelineRefinement.JoinAggregateStep | pkg/pipeline/pipeline.go:56-101 | after the step of a pipeline with both, the temporary store again equals the full join, and the output is right under the same exact condition |
| PipelineRefinement.PipelineStepCorrectIff | pkg/pipeline/pipeline.go:56-101 | for one call of `Evaluate` with unique keys before and after: the collapsed output leads to the recomputed query if and only if the join's deltas claim no projected key before releasing it |
| PipelineRefinement.PipelineStepRefines | pkg/pipeline/pipeline.go:56-101 | on every well-formed event in a consistent state the output is valid, takes the old query result to the new one, and the state stays consistent |
| PipelineRefinement.EmptyEngine | pkg/pipeline/default_engine.go:30-37 | the empty engine is consistent and its query is empty |
| PipelineRefinement.RunKeepsStores | pkg/pipeline/pipeline.go:56-101 | after every run of well-formed events, whatever the projected keys, base stores hold the last versions and the temporary store the full join |
| PipelineRefinement.PipelineRefinesQuery | pkg/pipeline/pipeline.go:56-101 | after every well-formed run the folded output is the recomputed query, every delta was valid, base stores hold the last versions and the temporary store the full join |
| EngineLaws.DuplicateStep | pkg/pipeline/default_engine.go:50-68 | a repeat of a stored object can only emit nothing and change nothing |
| EngineLaws.DuplicatesStutter | pkg/pipeline/pipeline.go:60-64 | inserting a repeat anywhere in a run changes no state and no output |
| EngineLaws.UpsertIsUpdate | pkg/pipeline/default_engine.go:515-526 | in every state, with a join or an aggregation, Upserted and Updated have the same outcomes, errors included |
| EngineLaws.FailedJoinUpdateIff | pkg/pipeline/default_engine.go:333-345 | a failing update of a join changed nothing if and only if there was no stored object or its own rows fail to evaluate; otherwise exactly the stored object is gone |
| EngineLaws.FailedAggregateUpdateIff | pkg/pipeline/default_engine.go:125-147 | the same for an aggregation: the stored object is lost if and only if there was one with an image |
| EngineLaws.FailedPipelineUpdateIff | pkg/pipeline/pipeline.go:69-74 | a failing update of a pipeline with a join leaves the stores as the join has left them |
| EngineLaws.JoinNeedsTwoViews | pkg/pipeline/default_engine.go:451-463 | over fewer than two views an add fails, and so does a delete of a known object; the stores stay |
| EngineLaws.ContributionOf | pkg/pipeline/default_engine.go:465-506 | the keys an object contributes to the join view are those of the matching tuples through it |
| EngineLaws.AddOverKnownIff | pkg/pipeline/default_engine.go:315-331 | Added for a known key keeps the join view right if and only if every old matching tuple has a matching counterpart through the new object |
| ViewCaches.ViewCache.GetCacheForKind | pkg/cache/view_cache.go:68-87 | creates a missing cache and returns it |
| ViewCaches.ViewCache.GetInformerForKind | pkg/cache/view_cache.go:111-134 | creates a missing informer over the cache of the kind |
| ViewCaches.ViewCache.Add | pkg/cache/view_cache.go:156-181 | stores the object and tells every handler of its kind; handlers in sync stay in sync |
| ViewCaches.ViewCache.Update | pkg/cache/view_cache.go:184-214 | an equal update does nothing; another one is stored and sent; handlers in sync stay in sync |
| ViewCaches.ViewCache.Delete | pkg/cache/view_cache.go:217-239 | removes the object and tells every handler, also when it was absent; handlers in sync stay in sync |
| ViewCaches.ViewCache.Get | pkg/cache/view_cache.go:247-276 | the object stored under `namespace/name`, or not found |
| ViewCaches.ViewCache.List | pkg/cache/view_cache.go:278-299 | all objects of the kind, each once, in some order |
| ViewCaches.ViewCache.AddEventHandler | pkg/cache/view_cache_informer.go:52-75 | registers a handler, replays the list to all handlers, and leaves the new one knowing exactly the cache |
| ViewCaches.ViewCache.RemoveEventHandler | pkg/cache/view_cache_informer.go:82-93 | drops one handler and nothing else; a foreign registration is an error and changes nothing |
| ViewCaches.ViewCache.TriggerEvent | pkg/cache/view_cache_informer.go:98-149 | every handler of the informer gets the event once |
| ViewCaches.Deliver | pkg/cache/view_cache_informer.go:131-148 | the loop over the handlers, in any order |
| ViewCaches.ReplayGivesContents | pkg/cache/view_cache_informer.go:66-72 | replaying the list of a cache, in any order, gives a new handler the contents and changes nothing for one in sync |
| ViewCaches.StepKeepsReplicated | pkg/cache/view_cache.go:156-239 | every cache operation keeps each handler's fold equal to the cache of its kind |
| ViewCaches.StepTells | pkg/cache/view_cache_informer.go:52-149 | every operation tells the handlers of its kind exactly what it did, once, an update with its old object; registering adds one handler and keeps the others, removing takes one away and keeps the others, other kinds hear nothing |
| ViewCaches.NewIdIsFree | pkg/cache/view_cache_informer.go:55-61 | the id of a new handler is not in use |
| ViewCaches.HandlersReplicateCache | pkg/cache/view_cache_informer.go:52-149 | the same along every run of operations from an empty cache |
| Patches.DeepCopy | pkg/object/patch.go:102-121 | the loops rebuild an equal tree |
| Patches.PatchTree | pkg/object/patch.go:26-100 | the program's recursion and loops compute `Patch` |
| Patches.PatchListTree | pkg/object/patch.go:39-58 | lists merge by index; target items behind the end of the patch stay, patch items behind the end of the target are appended |
| Patches.PatchFieldsTree | pkg/object/patch.go:60-95 | null members delete, others are patched in, the rest is kept, in any map order |
| Patches.PatchIdempotent | pkg/object/patch.go:26-121 | patching twice is patching once, for all trees, nested lists and nulls included |
| Patches.AbsorbsIff | pkg/object/patch.go:26-100 | a decidable condition for when a patch replaces its target outright |
| Patches.PatchIsMergePatchIff | pkg/object/patch.go:26-100 | `patch` equals MergePatch of section 2 of RFC 7396 if and only if lists are absorbed and null members lie inside objects the target also has |
| Patches.CoveredPatchIsMergePatch | pkg/object/patch.go:26-100 | they agree on null-free targets and array-free patches whose nulls lie inside objects the target has |
| Patches.PatchDiffersFromMergePatch | pkg/object/patch.go:26-100 | two inputs outside the fragment on which they differ |
| PatchReads.UnnamedStays | pkg/object/patch.go:26-100 | every path the patch does not name, list indices behind its end included, reads as in the target |
| PatchReads.LeavesAreThere | pkg/object/patch.go:26-100 | every scalar leaf of the patch, below members and list items alike, is in the result; nulls count as list items |
| PatchReads.MissingIsOwn | pkg/object/patch.go:26-100 | where the target has nothing, the result has what the patch has, whole, nested nulls included |
| PatchReads.NullMembers | pkg/object/patch.go:67-72 | a null member deletes if and only if the target has an object there that differs from the patch's own; otherwise the null is in the result |
| PatchUndo.RemoveNestedTree | pkg/reconciler/resource.go:314-327 | the loop nulls every scalar, hollows out objects and keeps lists |
| PatchUndo.RemovedReads | pkg/reconciler/resource.go:314-327 | read along paths, the delete patch has null for every scalar of the delta object, the same list for every list, a hollow object for every object, and nothing else |
| PatchUndo.RemoveUndoesPatch | pkg/reconciler/resource.go:314-327 | patching with a delta object without null members and then with its removal leaves exactly the residue, for every target |
| PatchUndo.LeavesAreGone | pkg/reconciler/resource.go:314-327 | no scalar leaf of the delta object is left in the residue |
| PatchUndo.UnnamedIsKept | pkg/reconciler/resource.go:314-327 | every path the delta object does not name reads as in the original |
| PatchUndo.DeletePatchUndoesPatch | pkg/reconciler/resource.go:278-305 | with the identity fields put back, the residue plus the identity is left, for every target and every delta object without null members, with or without metadata |
| PatchUndo.RestoredPaths | pkg/reconciler/resource.go:278-305 | read along paths: of what is left, no scalar leaf of the delta object but the identity, and every path it does not name as in the original |
| Targets.CompositeClient.Create | pkg/manager/composite_client.go:52-66 | for views: adds to the cache |
| Targets.CompositeClient.Delete | pkg/manager/composite_client.go:68-82 | for views: deletes from the cache |
| Targets.CompositeClient.Update | pkg/manager/composite_client.go:84-106 | for views: fails without a stored object, else replaces it |
| Targets.CompositeClient.Patch | pkg/manager/composite_client.go:108-148 | for views: fails without a stored object, else merges the patch into a copy and stores it |
| Targets.Target.Write | pkg/reconciler/resource.go:202-227 | recasts the object into the target kind and writes it as an Updater or a Patcher; other types fail |
| Targets.Target.UpdateTarget | pkg/reconciler/resource.go:229-247 | adds create, updates and replaces update, deletes delete, upserts and syncs are ignored |
| Targets.Target.PatchTarget | pkg/reconciler/resource.go:249-312 | adds, updates and replaces patch the object into the stored one and fail without it; deletes patch it out and accept its absence; upserts and syncs are ignored |
| Targets.UpdateSucceedsIff | pkg/cache/view_cache.go:247-276 | an update of a namespaced object succeeds if and only if its key is stored; without a namespace, if and only if the key `/name` is stored, which takes a stored name or namespace that starts with `/` |
| Targets.StrictWriteSucceeds | pkg/reconciler/resource.go:229-247 | an Updater accepts every valid delta of its kind and applies it |
| Targets.UpdaterWrites | pkg/reconciler/resource.go:202-247 | for every delta type and objects of any kind: the object is recast and keeps its name; adds and deletes succeed, updates and replaces alike replace a stored namespaced object and fail without one, upserts and syncs do nothing, other kinds are not touched |
| Targets.OtherTargetFails | pkg/reconciler/resource.go:219-226 | a target of no known type fails and changes nothing |
| Targets.StrictWritesSucceed | pkg/reconciler/resource.go:229-247 | a valid delta list is written without a failure and has its effect on the cache |
| Targets.WritesKeepReplicated | pkg/reconciler/resource.go:202-227 | whatever is written, failures included, handlers of every kind stay in sync |
| Targets.PatchedThenUnpatched | pkg/reconciler/resource.go:249-312 | the content after add and delete at a Patcher is the residue plus the identity |
| Targets.PatcherPatches | pkg/reconciler/resource.go:254-276 | an add, an update and a replace at a Patcher all merge the delta object into the stored one and touch nothing else |
| Targets.PatcherWithoutObject | pkg/reconciler/resource.go:249-312 | without a stored object adds, updates and replaces fail with not found and a delete is accepted; upserts and syncs are always accepted; no cache contents and no handler change |
| Targets.PatcherDeleteUndoesAdd | pkg/reconciler/resource.go:249-312 | a delete after an add at a Patcher leaves the residue at that key and touches no other key |
| Targets.PatcherLeavesNoLeaf | pkg/reconciler/resource.go:249-312 | the cached object a Patcher leaves after add and delete has no scalar leaf of the delta object but its identity, and every path the delta object does not name as before |
| Controllers.Controller.ProcessRequest | pkg/controller/controller.go:241-278 | added, updated and replaced objects are fetched, and a failing fetch changes nothing; other requests carry the name only; then the delta is processed |
| Controllers.Controller.ProcessDelta | pkg/controller/controller.go:254-278 | evaluates the delta and writes the resulting deltas in order until the first failure |
| Controllers.RequestDeltaIs | pkg/controller/controller.go:242-257 | a fetched object is evaluated as it is; a request that is not fetched becomes an object with the kind, namespace and name of the request and nothing else |
| Controllers.RequestOutcome | pkg/controller/controller.go:259-278 | a request succeeds only if its evaluation and all its writes succeed; a failing evaluation writes nothing |
| Controllers.PipelineEmitsView | pkg/pipeline/pipeline.go:56-101 | an aggregation emits objects of its view only |
| Controllers.ControllerStepMaintains | pkg/controller/controller.go:254-278 | a well-formed event is written without a failure and the target cache equals the recomputed query again |
| Controllers.ControllerMaintainsQuery | pkg/controller/controller.go:254-278 | along every well-formed run, interleaved with handler registration and removal and writes of other kinds, no write fails, and at every point the target cache and the fold of every handler registered then equal the recomputed query |
| Expressions.ParseBuilds | pkg/expression/expression.go:801-861 | what the parser returns is of the buildable form |
| Expressions.ParseOutcomes | pkg/expression/expression.go:801-861 | parsing succeeds exactly on texts without an empty string and without an object whose only key is empty; what fails is rejected or crashes, and without empty strings it crashes exactly on such an object |
| Expressions.ParseIsSpelling | pkg/expression/expression.go:801-861 | the ordered trial returns exactly the expression the text spells: booleans, int64 integers, other numbers as floats, strings, lists, operators, dictionaries, and null as false |
| Expressions.PrintSpells | pkg/expression/expression.go:863-954 | what is printed of a printable expression spells that expression |
| Expressions.FloatPrints | pkg/expression/expression.go:863-954 | a float prints as its own value, as an integer exactly when it is one below 1e21 |
| Expressions.MissingArgument | pkg/expression/expression.go:863-954 | an operator without an argument prints with a null and is read back with a false argument |
| Expressions.AnyPrintsLiteral | pkg/expression/expression.go:865-866 | `@any` with a literal prints like the literal alone |
| Expressions.RoundTripIff | pkg/expression/expression.go:863-954 | every buildable expression prints, and parsing gives it back if and only if it has no dropped operator form and no int64-valued float literal |
| Expressions.ParsePrintParse | pkg/expression/expression.go:801-861 | parse, print, parse is parse, on all printable parses |
| Expressions.EvaluateDict | pkg/expression/expression.go:187-198 | in any map order: exactly the literal's plain keys, each bound to its own value, a plain string to itself and a path to what it leads to; fails if and only if some member fails or a key is empty |
| Heaps.DeepCopy | pkg/object/object.go:69-86 | the copy spells the same value with new nodes only and leaves old nodes alone |
| Aliasing.StepKeepsSound | pkg/cache/store.go:19-56 | every elementary step (copy in, hand out a copy, clear, pass on, caller writes) keeps stored objects finite trees apart from everything callers can reach |
| CopyingStores.AddToStore | pkg/cache/store.go:19-22 | `Store.Add` and `Store.Update` store one copy of the caller's object |
| CopyingStores.DeleteFromStore | pkg/cache/store.go:25 | clears the slot and nothing else |
| CopyingStores.GetFromStore | pkg/cache/store.go:41-56 | `Store.Get` and `Store.GetByKey` hand out a copy of the stored object, or nothing |
| CopyingStores.ListOfStore | pkg/cache/store.go:28-35 | hands out one copy per stored object |
| CopyingStores.AddToCache | pkg/cache/view_cache.go:156-181 | one copy is stored, and every handler's copy is made from that stored copy |
| CopyingStores.UpdateCache | pkg/cache/view_cache.go:184-214 | an equal update does nothing; otherwise one copy is stored, handlers get their own copies of it and the caller's old object uncopied |
| CopyingStores.DeleteFromCache | pkg/cache/view_cache.go:217-239 | the slot is cleared, and every handler gets a copy of the caller's object |
| CopyingStores.GetFromCache | pkg/cache/view_cache.go:247-276 | the content of the caller's object is replaced by that of a copy of the stored one |
| CopyingStores.ListOfCache | pkg/cache/view_cache.go:278-299 | every item is copied, and the copy is copied again into the list |
| CopyingStores.TriggerEvent | pkg/cache/view_cache_informer.go:131-148 | for adds and deletes every handler gets its own copy of the object passed in, stored or not |
| CopyingStores.TriggerUpdate | pkg/cache/view_cache_informer.go:131-148 | for updates every handler also gets the old object uncopied, which callers must be able to reach already |
| CopyingStores.ReplayCache | pkg/cache/view_cache_informer.go:66-72 | the stored items themselves go to event delivery, which copies them for every handler |
| CopyingStores.StoredNeverAliased | pkg/cache/view_cache.go:156-299 | along every run of these operations and arbitrary caller writes, no node is reachable both from a stored object and from one a caller or handler holds |
| Aliasing.StoredValuesAreStable | pkg/cache/store.go:19-56 | only the store's own add or delete of a key changes the value stored there |

## Left out

- Goroutine interleavings: cache operations are atomic steps; locks are not modelled.
- Watchers (`Watch`, `sendEvent`) drop events after a timeout, so they do not replicate; `RemoveInformer`, stopped informers and raw indexer access are not modelled.
- ViewCaches.ViewCache.TriggerEvent: no transform is set; with one, handlers see transformed objects and do not replicate the cache.
- Engine.DefaultEngine.IsValidEvent: deltas without an object are not modelled; it rejects them, but `Evaluate` has already read their key for logging.
- Engine.DefaultEngine.EvaluateAggregation: passes a delta without an object through; not modelled for the same reason.
- Native (non-view) client paths, `DeleteAllOf`, `Store.Replace` and strategic merge: thin or foreign code.
- The JSON path library, label selectors, predicates, the other expression operators and type conversions: conditions, stages and path lookups are uninterpreted functions.
- Operator and controller lifecycle, status, error reporting and logging: plumbing.
- A GVK is the pair of `apiVersion` and kind; parsing `apiVersion` into group and version is not modelled.
- Floating point: float literals are reals, without rounding or overflow.
- JSON encoding of a patch on its way through the client is taken to be the identity.
- Handlers are represented by the log of events they were given; what they do with them is theirs.
- The end-to-end theorem is about Updater targets; for Patcher targets the add-then-delete law is proved, not a whole run.
- CopyingStores.UpdateCache: the outcome of the deep comparison is a parameter that is required to be right.
