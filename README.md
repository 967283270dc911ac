# kapp change-set scheduler, modelled in Dafny

This project models the core of kapp's `clusterapply` package:

- the cluster change set, which
  - builds the change graph,
  - propagates "needs waiting" along `WaitingFor` edges,
  - prunes the changes that take part in nothing,
  - then drives the blocked, applying and waiting collaborators until every change is applied and done, or one of them fails;
- the counting side of the changes view: the op-code cells and the summary line that `ChangesCountsView` produces.

Modules, one per concept:

- `Ops`: apply, wait and graph operations, and `ChangeView`, the pair of a change's apply and wait operations that the view reads.
- `ClusterChanges`: a cluster change, its reported wait op and its needs-waiting mark.
- `ChangeGraphs`: the change graph and `BlockedChanges`. Nodes are arena indices. A ghost rank witnesses acyclicity. Pruned nodes stay in the arena, flagged absent, and the reconnected edges are the derived relation `DependsOn`.
- `WaitPropagation`: the recursive specification of `markChangesToWait`. It proves that this specification agrees with reachability, and describes the state after the pass.
- `Trackers`: the applying and waiting trackers. Their answers are nondeterministic, and every contract holds for all of them.
- `ApplyTrace`: the calls `Apply` makes on its collaborators, as a ghost trace of events, and the rules each call obeys. The scheduler's guarantees are lemmas over that trace.
- `ClusterChangeSet`: `Calculate`, `markChangesToWait`, `Apply`, the wrapped change's `Op`, `ClusterChangesCount` and `ClusterChangesAsChangeViews`.
- `ChangesView`: `applyOpCode`, `waitOpCode` and `ChangesCountsView`, plus the summary that `Print` stores.
- `Decimal`, `Collections` and `Wrappers`: helpers for `%d` printing, the set of a sequence's entries, and `Option`.

Counts after a series of `Add` calls: the four visible apply-op counts, together with the changes whose apply op is unknown, add up to the number of adds. The four visible counts alone add up to the number of adds only when no apply op is unknown. The code counts unknown ops in `applyOps`, but `String` never shows them.

## Model

| member | source | states |
|---|---|---|
| ClusterChanges.ClusterChange.WaitOp | pkg/kapp/clusterapply/cluster_change_set.go:161-163 | a marked change never reports a Noop wait op; an original non-Noop wait op is kept; the reported op is non-Noop iff the change is marked or its original op is non-Noop |
| ClusterChanges.ClusterChange.MarkNeedsWaiting | pkg/kapp/clusterapply/cluster_change_set.go:165-167 | marking keeps the apply op and the original wait op, sets the mark, and afterwards the wait op is non-Noop (unchanged if it already was) |
| ClusterChanges.MarkIdempotent | pkg/kapp/clusterapply/cluster_change_set.go:73-75 | marking twice is marking once |
| ClusterChangeSet.GraphOp | pkg/kapp/clusterapply/cluster_change_set.go:143-159 | Add and Update map to Upsert, Delete to Delete, Noop to Noop; the result is undefined (the panic) exactly for an unknown apply op |
| ClusterChangeSet.GraphOpDefinedIffShown | pkg/kapp/clusterapply/cluster_change_set.go:156-157 | Op panics on exactly the apply ops that the changes view shows as "???" |
| ClusterChangeSet.MarkKeepsGraphOp | pkg/kapp/clusterapply/cluster_change_set.go:143-167 | marking a change for waiting does not change its graph op |
| ClusterChangeSet.MarkChangesToWait | pkg/kapp/clusterapply/cluster_change_set.go:65-78 | the answer is the recursive NeedsWaiting of the node in the state on entry; the only changes are allowed marks (MarkedFrom); the node is marked when a dependency needs waiting; the early break loses nothing |
| WaitPropagation.NeedsWaitingIffReachesWaiter | pkg/kapp/clusterapply/cluster_change_set.go:65-78 | markChangesToWait's answer is true iff some node reachable along WaitingFor, the node itself included, has a non-Noop wait op |
| WaitPropagation.NeedsWaitingHasPath | pkg/kapp/clusterapply/cluster_change_set.go:67-77 | a node that needs waiting has a WaitingFor path to a node with a non-Noop wait op |
| WaitPropagation.PathNeedsWaiting | pkg/kapp/clusterapply/cluster_change_set.go:67-77 | needing to wait spreads backwards along every WaitingFor path |
| WaitPropagation.NeedsWaitingStable | pkg/kapp/clusterapply/cluster_change_set.go:73-77 | allowed marks change neither which nodes need waiting nor which have a dependency that needs waiting |
| WaitPropagation.MarkedFromReflexive | pkg/kapp/clusterapply/cluster_change_set.go:42-45 | the unchanged state is reachable by allowed marks |
| WaitPropagation.MarkedFromTransitive | pkg/kapp/clusterapply/cluster_change_set.go:42-45 | allowed marks made by successive calls compose into allowed marks from the first state |
| WaitPropagation.AfterMarking | pkg/kapp/clusterapply/cluster_change_set.go:42-45 | the state after the pass keeps length and apply ops, keeps every non-Noop wait op, and never clears a mark |
| WaitPropagation.AfterMarkingIsMarkedFrom | pkg/kapp/clusterapply/cluster_change_set.go:42-45 | the state after the pass results from allowed marks |
| WaitPropagation.MarkingExposesWaiters | pkg/kapp/clusterapply/cluster_change_set.go:42-45 | after the pass a node's wait op is non-Noop iff it, or a node reachable from it, had a non-Noop wait op before |
| WaitPropagation.DependentsOfWaitersAreMarked | pkg/kapp/clusterapply/cluster_change_set.go:67-72 | after the pass every node on a WaitingFor path (at least one edge long) to a node needing waiting is marked, whatever its depth |
| WaitPropagation.MarkingIdempotent | pkg/kapp/clusterapply/cluster_change_set.go:42-45 | running the marking pass again changes nothing |
| ClusterChangeSet.SaturatedIsAfterMarking | pkg/kapp/clusterapply/cluster_change_set.go:42-45 | a state reached by allowed marks in which every markable node is marked is the state after the pass |
| ClusterChangeSet.PrunedIffUninvolved | pkg/kapp/clusterapply/cluster_change_set.go:47-53 | a node is pruned (apply op and post-marking wait op both Noop) iff its apply op is Noop and no node reachable from it has a wait op |
| ClusterChangeSet.IsInert | pkg/kapp/clusterapply/cluster_change_set.go:51-52 | a change is pruned iff its apply op is Noop, its original wait op is Noop and it is not marked |
| ClusterChangeSet.Calculate | pkg/kapp/clusterapply/cluster_change_set.go:29-63 | a failed build returns its error with a null graph and no changes; otherwise the graph's changes are the post-marking state; a node stays present iff it is not inert, i.e. it applies something or reaches a waiter; the result lists the present changes in All() order |
| ClusterChangeSet.ChainMarksMiddle | pkg/kapp/clusterapply/cluster_change_set.go:42-53 | in a three-node chain whose middle node neither applies nor waits, the middle node is marked (so not pruned), and so is the head |
| ChangeGraphs.ChangeGraph.constructor | pkg/kapp/clusterapply/cluster_change_set.go:37 | a fresh graph holds the given changes and edges, and every node is present |
| ChangeGraphs.ChangeGraph.RemoveMatching | pkg/kapp/clusterapply/cluster_change_set.go:48-53 | a node stays present iff it was present and its change does not match |
| ChangeGraphs.PresentFrom | pkg/kapp/clusterapply/cluster_change_set.go:57 | lists exactly the present nodes at or after an index |
| ChangeGraphs.PresentFromIncreasing | pkg/kapp/clusterapply/cluster_change_set.go:57 | that list is in increasing node order |
| ChangeGraphs.ChangeGraph.All | pkg/kapp/clusterapply/cluster_change_set.go:81 | All() lists exactly the present nodes |
| ChangeGraphs.ChangeGraph.AllIncreasing | pkg/kapp/clusterapply/cluster_change_set.go:81-82 | All() is strictly increasing, so it lists each node once |
| ChangeGraphs.ChangeGraph.DependsOnLowerRank | pkg/kapp/clusterapply/cluster_change_set.go:37 | every reconnected dependency is a present node of lower rank (the graph stays acyclic after pruning) |
| ChangeGraphs.ChangeGraph.DependsOn | pkg/kapp/clusterapply/cluster_change_set.go:48-53 | after removals a direct WaitingFor edge to a present node is still a dependency, and every dependency is a node of the graph |
| ChangeGraphs.ChangeGraph.UnblockedBy | pkg/kapp/clusterapply/cluster_change_set.go:89 | a present node with no WaitingFor edges is unblocked from the start |
| ChangeGraphs.ChangeGraph.UnblockedByMore | pkg/kapp/clusterapply/cluster_change_set.go:115-117 | unblocking more nodes never blocks a node again |
| ChangeGraphs.BlockedChanges.constructor | pkg/kapp/clusterapply/cluster_change_set.go:84 | nothing is unblocked yet |
| ChangeGraphs.BlockedChanges.Unblocked | pkg/kapp/clusterapply/cluster_change_set.go:89 | a node is returned iff it is present and every node it depends on has been unblocked; the result is in increasing order |
| ChangeGraphs.BlockedChanges.Blocked | pkg/kapp/clusterapply/cluster_change_set.go:101 | a node is returned iff it is present and not unblocked |
| ChangeGraphs.BlockedChanges.Unblock | pkg/kapp/clusterapply/cluster_change_set.go:116 | adds the node to the done set and nothing else |
| Trackers.NewEntriesSpec | pkg/kapp/clusterapply/cluster_change_set.go:89 | NewEntries lists, without repeats, exactly the given nodes not seen before |
| Trackers.ApplyingChanges.constructor | pkg/kapp/clusterapply/cluster_change_set.go:85 | nothing is applied yet |
| Trackers.ApplyingChanges.Apply | pkg/kapp/clusterapply/cluster_change_set.go:89-92 | on success it returns, without repeats and in first-occurrence order, exactly the given nodes not applied before, and adds them to the applied set; on failure it returns nothing, and it failed on a node not applied before |
| Trackers.ApplyingChanges.NumApplied | pkg/kapp/clusterapply/cluster_change_set.go:98 | the count of distinct applied nodes: zero iff nothing was applied, at least one once anything was |
| Trackers.WaitingChanges.constructor | pkg/kapp/clusterapply/cluster_change_set.go:86 | nothing is tracked yet |
| Trackers.WaitingChanges.Track | pkg/kapp/clusterapply/cluster_change_set.go:94 | the tracked set grows by exactly the applied nodes |
| Trackers.WaitingChanges.IsEmpty | pkg/kapp/clusterapply/cluster_change_set.go:96 | false iff some applied node has not been reported done |
| Trackers.WaitingChanges.WaitForAny | pkg/kapp/clusterapply/cluster_change_set.go:110-113 | on success it reports a non-empty, repeat-free set of tracked nodes and stops tracking exactly those; on failure (a failed node, or a timeout) it reports nothing and changes nothing |
| ApplyTrace.Step | pkg/kapp/clusterapply/cluster_change_set.go:88-118 | appending an allowed call to a run that has not ended gives a run; the applied and done sets grow by what the call reports; done stays within applied; ending calls end the run |
| ApplyTrace.UnblockStep | pkg/kapp/clusterapply/cluster_change_set.go:115-117 | unblocking a node that was reported done keeps the run going and changes neither reported set |
| ApplyTrace.AfterApply | pkg/kapp/clusterapply/cluster_change_set.go:89-94 | after a successful apply, the applied set grows by the nodes applied now, the done set stays, and tracking those nodes keeps the tracked set equal to applied-but-not-done |
| ApplyTrace.RunOKPrefix | pkg/kapp/clusterapply/cluster_change_set.go:88-118 | every prefix of a run is a run |
| ApplyTrace.RunOKAt | pkg/kapp/clusterapply/cluster_change_set.go:88-118 | each call of a run obeys the rules, given the calls before it |
| ApplyTrace.DoneWereApplied | pkg/kapp/clusterapply/cluster_change_set.go:110 | the waiting tracker reports only nodes that were applied |
| ApplyTrace.AppliedArePresent | pkg/kapp/clusterapply/cluster_change_set.go:89 | only present (unpruned) nodes are ever applied |
| ApplyTrace.AppliedAfterDependencies | pkg/kapp/clusterapply/cluster_change_set.go:89 | a node is handed to the applying tracker only after every node it depends on was reported done |
| ApplyTrace.AppliedNodesGrow | pkg/kapp/clusterapply/cluster_change_set.go:88-118 | the applied set never shrinks along a run |
| ApplyTrace.NoNodeAppliedTwice | pkg/kapp/clusterapply/cluster_change_set.go:89 | a node applied by one call is not applied again by a later call |
| ApplyTrace.ClosedSetHoldsAll | pkg/kapp/clusterapply/cluster_change_set.go:96-100 | a set that contains every node it unblocks contains every present node |
| ApplyTrace.ClosedSetSize | pkg/kapp/clusterapply/cluster_change_set.go:98-100 | such a set of present nodes has exactly len(All()) elements |
| ApplyTrace.SettlingCallClosesApplied | pkg/kapp/clusterapply/cluster_change_set.go:89-96 | when every applied node is done right after a successful apply, the applied set contains every node it unblocks |
| ApplyTrace.AllAppliedWhenNothingPending | pkg/kapp/clusterapply/cluster_change_set.go:96-100 | an empty waiting tracker right after a successful apply means every present node was applied |
| ApplyTrace.ExtendsIsPrefix | pkg/kapp/clusterapply/cluster_change_set.go:88-118 | Extends(t, u) holds exactly when t is a prefix of u: the calls already made are never rewritten |
| ApplyTrace.ExtendsByOne | pkg/kapp/clusterapply/cluster_change_set.go:88-118 | appending one call extends the trace and anything it extends |
| ApplyTrace.ExtendsTransitive | pkg/kapp/clusterapply/cluster_change_set.go:88-118 | an extension of an extension is an extension |
| ApplyTrace.SettledRunIsComplete | pkg/kapp/clusterapply/cluster_change_set.go:96-104 | when Apply settles, NumApplied() equals len(All()), so the inconsistency branch is never taken |
| ClusterChangeSet.Verdict | pkg/kapp/clusterapply/cluster_change_set.go:96-113 | after settling Apply succeeds iff the applied count equals the expected count; after a failed call it returns that call's failure |
| ClusterChangeSet.InconsistencyMessage | pkg/kapp/clusterapply/cluster_change_set.go:102-103 | the error text starts with "Internal inconsistency: did not apply all changes: " |
| ClusterChangeSet.InconsistencyMessageInjective | pkg/kapp/clusterapply/cluster_change_set.go:102-103 | the text names both counts: distinct (expected, applied) pairs give distinct messages |
| ClusterChangeSet.NothingUnblockedInEmptyGraph | pkg/kapp/clusterapply/cluster_change_set.go:81-89 | with no present node, Unblocked() is empty |
| ClusterChangeSet.ApplyUnblocked | pkg/kapp/clusterapply/cluster_change_set.go:89-94 | appends exactly the apply call to the trace (an extension by one); a failure ends the run; on success applied and tracked grow by exactly the nodes applied now, and the unapplied part of All() shrinks when anything was applied |
| ClusterChangeSet.Settle | pkg/kapp/clusterapply/cluster_change_set.go:96-108 | records the settle with NumApplied(), which ends the run; the error is the inconsistency message iff the counts differ, in which case the blocked changes are read |
| ClusterChangeSet.UnblockDone | pkg/kapp/clusterapply/cluster_change_set.go:115-117 | unblocks exactly the nodes reported done, and no node that was not reported done; the trace only grows (Extends) |
| ClusterChangeSet.WaitAndUnblock | pkg/kapp/clusterapply/cluster_change_set.go:110-117 | the trace strictly grows from the one on entry; a wait failure is returned at once, with no unblock (done unchanged, only the failed wait appended); otherwise the nodes reported done are unblocked and the tracked set shrinks |
| ClusterChangeSet.SettleOrWait | pkg/kapp/clusterapply/cluster_change_set.go:96-117 | after a successful apply: with nothing tracked it settles (one Settled call appended); otherwise it waits, and either ends the run with the wait failure or keeps the tracking invariant with fewer tracked; the trace only grows |
| ClusterChangeSet.Round | pkg/kapp/clusterapply/cluster_change_set.go:88-118 | one loop pass extends the trace it is given (Extends) and either ends the run with the error its last call determines, or keeps the tracking invariant and makes progress (more applied, or fewer tracked) |
| ClusterChangeSet.Apply | pkg/kapp/clusterapply/cluster_change_set.go:80-119 | terminates; its calls form a run (RunOK), so the ApplyTrace lemmas hold of them, and only the last call ends the run; the error is the one that call determines (nil only when settling with NumApplied() == len(All()) taken at entry); it returns nil iff the run settles, and otherwise the failing tracker's error; an empty graph succeeds at once |
| ClusterChangeSet.ApplyFailsOnlyByTrackers | pkg/kapp/clusterapply/cluster_change_set.go:89-113 | for a run that has ended (Finished), Apply's error is always a tracker's failure: it is nil iff the run settled |
| ClusterChangeSet.ClusterChangesCount | pkg/kapp/clusterapply/cluster_change_set.go:129-137 | the count is the number of changes the predicate accepts, and at most the number of changes |
| ClusterChangeSet.CountWhereAppend | pkg/kapp/clusterapply/cluster_change_set.go:129-137 | counting over a concatenation adds up |
| ClusterChangeSet.CountWhereComplement | pkg/kapp/clusterapply/cluster_change_set.go:129-137 | a predicate's count plus its negation's count is the number of changes |
| ClusterChangeSet.ClusterChangesAsChangeViews | pkg/kapp/clusterapply/cluster_change_set.go:121-127 | one view per change, in order, with that change's apply op and wait op |
| ClusterChangeSet.AsViewsAt | pkg/kapp/clusterapply/cluster_change_set.go:121-127 | the k-th view is the view of the k-th change |
| ClusterChangeSet.ViewCountsAgree | pkg/kapp/clusterapply/cluster_change_set.go:121-137 | the changes view's per-op and waiting counts equal ClusterChangesCount with the matching predicates |
| ChangesView.ApplyOpCode | pkg/kapp/clusterapply/changes_view.go:127-140 | only Delete is highlighted as an error; Noop is blank; any unknown op shows "???"; Add, Delete and Update show their applyOpCodeUI labels |
| ChangesView.ApplyOpCodeUI | pkg/kapp/clusterapply/changes_view.go:113-118 | the label table covers exactly the known apply ops |
| ChangesView.WaitOpCodeUI | pkg/kapp/clusterapply/changes_view.go:120-124 | the label table covers exactly the known wait ops |
| ChangesView.WaitOpCode | pkg/kapp/clusterapply/changes_view.go:142-153 | never highlighted; Noop is blank; any unknown op shows "???"; OK and Delete show their waitOpCodeUI labels |
| ChangesView.ApplyOpCodeIdentifiesOp | pkg/kapp/clusterapply/changes_view.go:112-118 | distinct known apply ops get distinct labels |
| ChangesView.WaitOpCodeIdentifiesOp | pkg/kapp/clusterapply/changes_view.go:120-124 | distinct known wait ops get distinct labels |
| ChangesView.CountApplyAppend | pkg/kapp/clusterapply/changes_view.go:165 | an added view is counted under its own apply op and under no other |
| ChangesView.CountWaitingAppend | pkg/kapp/clusterapply/changes_view.go:166-168 | an added view is counted as waiting iff its wait op is not Noop |
| ChangesView.CountsCoverAdds | pkg/kapp/clusterapply/changes_view.go:164-169 | the four visible counts plus the unknown-op count equal the number of adds; the wait count is at most that number |
| ChangesView.AddKeepsAgreement | pkg/kapp/clusterapply/changes_view.go:164-169 | one Add step keeps the counts equal to those of the views added so far |
| ChangesView.ChangesCountsView.constructor | pkg/kapp/clusterapply/changes_view.go:160-162 | every count starts at 0 and nothing has been added |
| ChangesView.ChangesCountsView.Add | pkg/kapp/clusterapply/changes_view.go:164-169 | the count of the given apply op goes up by exactly 1 and no other apply-op count changes; waitOps goes up by 1 iff the wait op is not Noop |
| ChangesView.ChangesCountsView.String | pkg/kapp/clusterapply/changes_view.go:171-183 | the summary is the five parts in a fixed order joined with ", ", where a never-added op counts 0 |
| ChangesView.JoinFive | pkg/kapp/clusterapply/changes_view.go:182 | joining five parts puts the separator between each pair of neighbours |
| ChangesView.FormatCountsText | pkg/kapp/clusterapply/changes_view.go:171-183 | the summary reads "<add> create, <delete> delete, <update> update, <noop> noop, <w> wait to" |
| ChangesView.ChangesView.Print | pkg/kapp/clusterapply/changes_view.go:67-103 | the stored summary is the summary of counting every change view's apply and wait ops |
| ChangesView.ChangesView.Summary | pkg/kapp/clusterapply/changes_view.go:110 | returns the stored summary; after Print it is the summary of every change view (stated in Print's ensures) |
| Decimal.NatToString | pkg/kapp/clusterapply/changes_view.go:177 | `%d` of a count is non-empty, all digits, and has no leading zero |
| Decimal.IntToString | pkg/kapp/clusterapply/cluster_change_set.go:102-103 | `%d` of an int: it starts with a digit iff the value is non-negative, is NatToString of a non-negative value, and is `-` followed by NatToString of the magnitude otherwise |
| Decimal.ParsePrinted | pkg/kapp/clusterapply/changes_view.go:177 | reading a printed count back yields the count |
| Decimal.PrintInjective | pkg/kapp/clusterapply/changes_view.go:177 | distinct counts print differently |

## Left out

- ChangesView.ChangesView.Print: the table is not modelled (headers, sorting, rows, the conditions and age cells, `ui.PrintTable`); only the counting and the stored summary are, since the rest is terminal output.
- `fmt.Printf` of `WhyBlocked(Blocked())` and `ui.NotifySection` in `Apply` are output. Only the returned error or success is modelled. `Blocked()` is called in the mismatch branch, but what it returns is not printed.
- `WaitTimeout` and `WaitCheckInterval`: timing and polling belong to the waiting tracker. A timeout is one of the failures `WaitForAny` may answer with.
- Trackers.ApplyingChanges.Apply and Trackers.WaitingChanges.WaitForAny: their cluster calls and concurrency are not modelled. Each answer the cluster could give is a nondeterministic choice, and the contracts cover all of them.
- The change-graph builder (`NewChangeGraph`) and the `ClusterChange` factory are parameters. `Calculate` takes the built edges, or the builder's error, and a ghost rank witnessing acyclicity. It does not model how those are computed.
- ChangeGraphs.ChangeGraph.RemoveMatching keeps removed nodes in the arena and reconnects edges through the derived relation `DependsOn`. It does not model how the library rewrites `WaitingFor` lists.
- cluster_change.go is not part of this model. A change's wait op after `MarkNeedsWaiting` is modelled as the original op when that is not Noop, and as OK (reconcile) otherwise. Only whether it is Noop matters to this core.
- Aliasing of the `*ClusterChange` pointers that the graph and the returned slice share is not modelled. `Calculate` returns the graph's post-marking changes by value.
- ClusterChangeSet.Round: it states that the trace it returns extends the one it was given, but not that it is strictly longer, although every pass appends at least the apply call (ApplyUnblocked states that step). The strict form makes Apply's proof too costly for the solver.
- ClusterChangeSet.GraphOp: the panic on an unknown apply op is modelled as `None`.
- Go `int` overflow of the counters is not modelled (the counts are unbounded). `Decimal.IntToString` also covers negative values, which the counters never take.
- Diff content, resources and `TextDiff` of a change view are foreign types. A change view is modelled by its apply and wait ops only.
