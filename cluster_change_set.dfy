/**
 * The cluster change set: Calculate builds the change graph, propagates
 * "needs waiting" along WaitingFor edges and prunes the changes that take part
 * in nothing; Apply then drives the blocked/applying/waiting collaborators
 * until every change is applied and done, or one of them fails.
 */
module ClusterChangeSet {
  import opened Wrappers
  import opened Ops
  import opened Collections
  import opened ClusterChanges
  import opened ChangeGraphs
  import opened WaitPropagation
  import opened Trackers
  import opened ApplyTrace
  import Decimal
  import ChangesView

  // ---------------------------------------------------------------------------
  // wrappedClusterChange

  /**
   * wrappedClusterChange.Op: the graph's view of an apply op. An unknown apply
   * op makes the source panic; here it is None.
   */
  function GraphOp(c: ClusterChange): (r: Option<ActualChangeOp>)
    ensures r.None? <==> c.applyOp.Unknown?
    ensures r == Some(Upsert) <==> c.applyOp == ApplyOp.Add || c.applyOp == ApplyOp.Update
    ensures r == Some(ActualChangeOp.Delete) <==> c.applyOp == ApplyOp.Delete
    ensures r == Some(ActualChangeOp.Noop) <==> c.applyOp == ApplyOp.Noop
  {
    match c.applyOp
    case Add => Some(Upsert)
    case Update => Some(Upsert)
    case Delete => Some(ActualChangeOp.Delete)
    case Noop => Some(ActualChangeOp.Noop)
    case Unknown(_) => None
  }

  /** Op panics on exactly the apply ops the changes view shows as "???". */
  lemma GraphOpDefinedIffShown(c: ClusterChange)
    ensures GraphOp(c).Some? <==> ChangesView.ApplyOpCode(c.applyOp).text != "???"
  {
  }

  /** Marking a change for waiting does not change what the graph sees. */
  lemma MarkKeepsGraphOp(c: ClusterChange)
    ensures GraphOp(c.MarkNeedsWaiting()) == GraphOp(c)
  {
  }

  // ---------------------------------------------------------------------------
  // markChangesToWait

  /**
   * markChangesToWait on node i: visits the WaitingFor targets in order and
   * stops at the first one that needs waiting; if there is one, marks node i.
   * Answers whether node i needs waiting.
   */
  method MarkChangesToWait(g: ChangeGraph, i: nat) returns (needsWaiting: bool)
    requires g.Valid() && i < |g.waitingFor|
    modifies g`changes
    ensures g.Valid()
    ensures needsWaiting == NeedsWaiting(g.waitingFor, g.rank, old(g.changes), i)
    ensures MarkedFrom(g.waitingFor, g.rank, old(g.changes), g.changes)
    ensures DependencyNeedsWaiting(g.waitingFor, g.rank, old(g.changes), i) ==>
              g.changes[i] == old(g.changes[i]).MarkNeedsWaiting()
    decreases g.rank[i]
  {
    ghost var start := g.changes;
    MarkedFromReflexive(g.waitingFor, g.rank, start);
    var deps := g.waitingFor[i];
    ghost var dependencyWaits := DependencyNeedsWaiting(g.waitingFor, g.rank, start, i);
    var found := false;
    var k := 0;
    while k < |deps|
      invariant 0 <= k <= |deps|
      invariant g.Valid()
      invariant MarkedFrom(g.waitingFor, g.rank, start, g.changes)
      invariant !found ==> forall m :: 0 <= m < k ==> !NeedsWaiting(g.waitingFor, g.rank, start, deps[m])
      invariant found ==> dependencyWaits
      decreases |deps| - k
    {
      ghost var before := g.changes;
      var r := MarkChangesToWait(g, deps[k]);
      MarkedFromTransitive(g.waitingFor, g.rank, start, before, g.changes);
      NeedsWaitingStable(g.waitingFor, g.rank, start, before, deps[k]);
      if r {
        found := true;
        break;
      }
      k := k + 1;
    }
    if found {
      ghost var before := g.changes;
      NeedsWaitingStable(g.waitingFor, g.rank, start, before, i);
      MarkIdempotent(start[i]);
      g.changes := g.changes[i := g.changes[i].MarkNeedsWaiting()];
      needsWaiting := true;
    } else {
      needsWaiting := g.changes[i].WaitOp() != Ops.WaitOp.Noop;
    }
  }

  /** A marked-from state in which every node that may be marked is marked is the state after the pass. */
  lemma SaturatedIsAfterMarking(deps: seq<seq<nat>>, rank: seq<nat>, cs: seq<ClusterChange>, after: seq<ClusterChange>)
    requires Ranked(deps, rank) && |cs| == |deps|
    requires MarkedFrom(deps, rank, cs, after)
    requires forall j :: 0 <= j < |cs| && DependencyNeedsWaiting(deps, rank, cs, j) ==> after[j].needsWaiting
    ensures after == AfterMarking(deps, rank, cs)
  {
    var r := AfterMarking(deps, rank, cs);
    forall j | 0 <= j < |cs| ensures after[j] == r[j] {
      if DependencyNeedsWaiting(deps, rank, cs, j) {
        assert after[j] == cs[j].MarkNeedsWaiting();
      }
    }
  }

  // ---------------------------------------------------------------------------
  // Calculate

  /** The pruning predicate: apply op and wait op are both Noop. */
  function IsInert(c: ClusterChange): (r: bool)
    ensures r <==> c.applyOp == ApplyOp.Noop && c.origWaitOp == Ops.WaitOp.Noop && !c.needsWaiting
  {
    c.applyOp == ApplyOp.Noop && c.WaitOp() == Ops.WaitOp.Noop
  }

  /** What NewChangeGraph answers: the WaitingFor edges by node, or its error. */
  datatype GraphBuild = Built(waitingFor: seq<seq<nat>>) | BuildFailed(error: string)

  /**
   * A node survives pruning exactly when it applies something, or it or a node
   * it transitively waits for has a wait op.
   */
  lemma PrunedIffUninvolved(deps: seq<seq<nat>>, rank: seq<nat>, cs: seq<ClusterChange>, j: nat)
    requires Ranked(deps, rank) && |cs| == |deps| && j < |deps|
    ensures IsInert(AfterMarking(deps, rank, cs)[j]) <==>
              cs[j].applyOp == ApplyOp.Noop && !ReachesWaiter(deps, cs, j)
  {
    MarkingExposesWaiters(deps, rank, cs, j);
  }

  /**
   * Calculate. The cluster changes come from the factory and the WaitingFor
   * edges from the graph builder, both given; `rank` witnesses that the built
   * graph has no cycle. Returns the surviving changes in graph order.
   */
  method Calculate(changes: seq<ClusterChange>, built: GraphBuild, ghost rank: seq<nat>)
    returns (clusterChanges: seq<ClusterChange>, graph: ChangeGraph?, err: Option<string>)
    requires built.Built? ==> |built.waitingFor| == |changes| && Ranked(built.waitingFor, rank)
    ensures built.BuildFailed? ==> clusterChanges == [] && graph == null && err == Some(built.error)
    ensures built.Built? ==> err.None? && graph != null && fresh(graph) && graph.Valid()
    ensures built.Built? ==> graph.waitingFor == built.waitingFor && graph.rank == rank
    ensures built.Built? ==> graph.changes == AfterMarking(built.waitingFor, rank, changes)
    ensures built.Built? ==> forall j :: 0 <= j < |changes| ==> (graph.present[j] <==> !IsInert(graph.changes[j]))
    ensures built.Built? ==> forall j :: 0 <= j < |changes| ==>
              (graph.present[j] <==> changes[j].applyOp != ApplyOp.Noop || ReachesWaiter(built.waitingFor, changes, j))
    ensures built.Built? ==> |clusterChanges| == |graph.All()|
    ensures built.Built? ==> forall a :: 0 <= a < |clusterChanges| ==> clusterChanges[a] == graph.changes[graph.All()[a]]
  {
    if built.BuildFailed? {
      return [], null, Some(built.error);
    }
    var deps := built.waitingFor;
    graph := new ChangeGraph(changes, deps, rank);
    MarkedFromReflexive(deps, rank, changes);
    for i := 0 to |changes|
      invariant graph.Valid() && graph.waitingFor == deps && graph.rank == rank
      invariant |graph.present| == |changes| && forall j :: 0 <= j < |changes| ==> graph.present[j]
      invariant MarkedFrom(deps, rank, changes, graph.changes)
      invariant forall j :: 0 <= j < i && DependencyNeedsWaiting(deps, rank, changes, j) ==>
                  graph.changes[j].needsWaiting
    {
      ghost var before := graph.changes;
      var _ := MarkChangesToWait(graph, i);
      MarkedFromTransitive(deps, rank, changes, before, graph.changes);
      NeedsWaitingStable(deps, rank, changes, before, i);
    }
    SaturatedIsAfterMarking(deps, rank, changes, graph.changes);
    graph.RemoveMatching(IsInert);
    forall j | 0 <= j < |changes|
      ensures graph.present[j] <==> changes[j].applyOp != ApplyOp.Noop || ReachesWaiter(deps, changes, j)
    {
      PrunedIffUninvolved(deps, rank, changes, j);
    }
    var all := graph.All();
    clusterChanges := [];
    for a := 0 to |all|
      invariant |clusterChanges| == a
      invariant forall b :: 0 <= b < a ==> clusterChanges[b] == graph.changes[all[b]]
    {
      clusterChanges := clusterChanges + [graph.changes[all[a]]];
    }
    err := None;
  }

  // ---------------------------------------------------------------------------
  // Apply

  const InconsistencyPrefix := "Internal inconsistency: did not apply all changes: "

  /** The error Apply returns when the applied count differs from the expected one. */
  function InconsistencyMessage(expected: int, applied: int): (m: string)
    ensures |m| > |InconsistencyPrefix| && m[..|InconsistencyPrefix|] == InconsistencyPrefix
  {
    InconsistencyPrefix + (Decimal.IntToString(expected) + " != " + Decimal.IntToString(applied))
  }

  /** The message names both counts: distinct count pairs give distinct messages. */
  lemma InconsistencyMessageInjective(e1: nat, a1: nat, e2: nat, a2: nat)
    ensures InconsistencyMessage(e1, a1) == InconsistencyMessage(e2, a2) ==> e1 == e2 && a1 == a2
  {
    Decimal.PairInjective(InconsistencyPrefix, " != ", e1, a1, e2, a2);
  }

  /** What Apply returns after the call that ends the run. */
  function Verdict(e: Event, expected: nat): (r: Option<string>)
    requires e.Ends()
    ensures e.Settled? ==> (r.None? <==> e.numApplied == expected)
    ensures !e.Settled? ==> r.Some? && r == e.failure
  {
    if e.Settled? then
      (if e.numApplied == expected then None else Some(InconsistencyMessage(expected, e.numApplied)))
    else e.failure
  }

  /** The run has ended, with the last call determining the error. */
  ghost predicate Finished(t: seq<Event>, err: Option<string>, expected: nat) {
    EndsOnlyAtLast(t) && err == Verdict(t[|t| - 1], expected)
  }

  /** With no node present, nothing is unblocked. */
  lemma NothingUnblockedInEmptyGraph(g: ChangeGraph, nodes: seq<nat>, done: set<nat>)
    requires g.Valid()
    requires forall i :: i in nodes <==> g.UnblockedBy(done, i)
    ensures |g.All()| == 0 ==> nodes == []
  {
    if nodes != [] {
      assert nodes[0] in nodes;
    }
  }

  /** What holds between two rounds of Apply: the collaborators' state is the one the trace reports. */
  ghost predicate Tracking(graph: ChangeGraph, done: set<nat>, applied: set<nat>, tracked: set<nat>,
                           trace: seq<Event>, all: seq<nat>)
    reads graph
  {
    && graph.Valid() && RunOK(graph, trace) && NoEnds(trace)
    && done == ReportedDone(trace)
    && applied == AppliedNodes(trace)
    && tracked == AppliedNodes(trace) - ReportedDone(trace)
    && ReportedDone(trace) <= AppliedNodes(trace) <= Elements(all)
  }

  /**
   * The first half of a pass: hand the unblocked changes to the applying
   * tracker and track what it applied.
   */
  method ApplyUnblocked(graph: ChangeGraph, blocked: BlockedChanges, applying: ApplyingChanges,
                        waiting: WaitingChanges, ghost trace: seq<Event>, ghost all: seq<nat>)
    returns (appliedNow: seq<nat>, err: Option<string>, ghost next: seq<Event>)
    requires blocked.graph == graph && Tracking(graph, blocked.done, applying.applied, waiting.tracked, trace, all)
    requires all == graph.All()
    modifies applying`applied, waiting`tracked
    ensures RunOK(graph, next) && |next| == |trace| + 1 && next[..|trace|] == trace && Extends(trace, next)
    ensures next[|trace|].ApplyCall? && next[|trace|].applied == appliedNow && next[|trace|].failure == err
    ensures err.Some? ==> Finished(next, err, |all|)
    ensures err.None? ==> Tracking(graph, blocked.done, applying.applied, waiting.tracked, next, all)
    ensures err.None? ==> applying.applied == old(applying.applied) + Elements(appliedNow)
    ensures err.None? ==> waiting.tracked == old(waiting.tracked) + Elements(appliedNow)
    ensures err.None? && appliedNow == [] ==> applying.applied == old(applying.applied)
    ensures err.None? && appliedNow == [] ==> waiting.tracked == old(waiting.tracked)
    ensures err.None? && appliedNow != [] ==>
              Elements(all) - applying.applied < old(Elements(all) - applying.applied)
    ensures trace == [] && all == [] ==> err.None? && next == [ApplyCall([], [], None)]
  {
    var nodes := blocked.Unblocked();
    appliedNow, err := applying.Apply(nodes);
    ghost var call := ApplyCall(nodes, appliedNow, err);
    assert ApplyCallOK(graph, trace, nodes, appliedNow, err);
    NothingUnblockedInEmptyGraph(graph, nodes, blocked.done);
    ExtendsByOne(trace, trace, call);
    next := trace + [call];
    assert next[..|trace|] == trace;
    if err.Some? {
      Step(graph, trace, call);
    } else {
      AfterApply(graph, trace, nodes, appliedNow, waiting.tracked);
      waiting.Track(appliedNow);
      if appliedNow != [] {
        var x := appliedNow[0];
        assert x in applying.applied && x !in old(applying.applied);
        assert x in AppliedNodes(next);
        assert old(applying.applied) <= applying.applied;
        assert x in old(Elements(all) - applying.applied);
      }
    }
  }

  /** Unblocks each node the waiting tracker reported done, in the order reported. */
  method UnblockDone(graph: ChangeGraph, blocked: BlockedChanges, doneNow: seq<nat>, ghost trace: seq<Event>)
    returns (ghost next: seq<Event>)
    requires graph.Valid() && RunOK(graph, trace) && NoEnds(trace)
    requires forall i :: i in doneNow ==> i in ReportedDone(trace)
    modifies blocked`done
    ensures blocked.done == old(blocked.done) + Elements(doneNow)
    ensures Extends(trace, next)
    ensures RunOK(graph, next) && NoEnds(next)
    ensures ReportedDone(next) == ReportedDone(trace) && AppliedNodes(next) == AppliedNodes(trace)
  {
    next := trace;
    for m := 0 to |doneNow|
      invariant Extends(trace, next)
      invariant RunOK(graph, next) && NoEnds(next)
      invariant ReportedDone(next) == ReportedDone(trace) && AppliedNodes(next) == AppliedNodes(trace)
      invariant blocked.done == old(blocked.done) + Elements(doneNow[..m])
    {
      assert doneNow[..m + 1] == doneNow[..m] + [doneNow[m]];
      UnblockStep(graph, next, doneNow[m]);
      ExtendsByOne(trace, next, UnblockCall(doneNow[m]));
      next := next + [UnblockCall(doneNow[m])];
      blocked.Unblock(doneNow[m]);
    }
    assert doneNow[..|doneNow|] == doneNow;
  }

  /**
   * IsEmpty() answered true after a successful apply: read NumApplied() and
   * compare it with the number of changes in the graph.
   */
  method Settle(graph: ChangeGraph, blocked: BlockedChanges, applying: ApplyingChanges, expected: nat,
                ghost trace: seq<Event>)
    returns (err: Option<string>, ghost next: seq<Event>)
    requires blocked.graph == graph && graph.Valid() && RunOK(graph, trace) && NoEnds(trace)
    requires trace != [] && trace[|trace| - 1].ApplyCall? && trace[|trace| - 1].failure.None?
    requires AppliedNodes(trace) <= ReportedDone(trace) && applying.applied == AppliedNodes(trace)
    ensures err.None? <==> applying.NumApplied() == expected
    ensures err.Some? ==> err.value == InconsistencyMessage(expected, applying.NumApplied())
    ensures next == trace + [Settled(|applying.applied|)] && Extends(trace, next)
    ensures RunOK(graph, next) && EndsOnlyAtLast(next) && err == Verdict(next[|next| - 1], expected)
  {
    var appliedNum := applying.NumApplied();
    assert SettledOK(trace, appliedNum);
    Step(graph, trace, Settled(appliedNum));
    ExtendsByOne(trace, trace, Settled(appliedNum));
    next := trace + [Settled(appliedNum)];
    if expected != appliedNum {
      // the blocked changes are read for the WhyBlocked printout, which is not modelled
      var _ := blocked.Blocked();
      err := Some(InconsistencyMessage(expected, appliedNum));
    } else {
      err := None;
    }
  }

  /**
   * The second half of a pass, when something applied is not yet done: wait
   * for at least one change and unblock the changes that are done.
   */
  method WaitAndUnblock(graph: ChangeGraph, blocked: BlockedChanges, applying: ApplyingChanges,
                        waiting: WaitingChanges, ghost trace: seq<Event>, ghost all: seq<nat>)
    returns (err: Option<string>, ghost next: seq<Event>)
    requires Tracking(graph, blocked.done, applying.applied, waiting.tracked, trace, all) && !waiting.IsEmpty()
    requires trace != [] && trace[|trace| - 1].ApplyCall? && trace[|trace| - 1].failure.None?
    modifies blocked`done, waiting`tracked
    ensures RunOK(graph, next)
    ensures |next| > |trace| && Extends(trace, next)
    ensures err.Some? ==> EndsOnlyAtLast(next) && next[|next| - 1].WaitCall? && next[|next| - 1].failure == err
    ensures err.Some? ==> blocked.done == old(blocked.done) && next == trace + [WaitCall([], err)]
    ensures err.None? ==> Tracking(graph, blocked.done, applying.applied, waiting.tracked, next, all)
    ensures err.None? ==> waiting.tracked < old(waiting.tracked)
  {
    var doneNow, waitErr := waiting.WaitForAny();
    ghost var wait := WaitCall(doneNow, waitErr);
    assert WaitCallOK(trace, doneNow, waitErr);
    Step(graph, trace, wait);
    ExtendsByOne(trace, trace, wait);
    next := trace + [wait];
    err := waitErr;
    if waitErr.Some? {
      return;
    }
    ghost var waited := next;
    next := UnblockDone(graph, blocked, doneNow, waited);
    ExtendsTransitive(trace, waited, next);
    assert doneNow[0] in old(waiting.tracked) && doneNow[0] !in waiting.tracked;
  }

  /**
   * What follows a successful apply: settle when nothing applied is pending,
   * otherwise wait for at least one change and unblock the changes that are done.
   */
  method SettleOrWait(graph: ChangeGraph, blocked: BlockedChanges, applying: ApplyingChanges,
                      waiting: WaitingChanges, expected: nat, ghost trace: seq<Event>, ghost all: seq<nat>)
    returns (stop: bool, err: Option<string>, ghost next: seq<Event>)
    requires blocked.graph == graph && Tracking(graph, blocked.done, applying.applied, waiting.tracked, trace, all)
    requires trace != [] && trace[|trace| - 1].ApplyCall? && trace[|trace| - 1].failure.None?
    requires all == graph.All() && expected == |all|
    modifies blocked`done, waiting`tracked
    ensures RunOK(graph, next)
    ensures Extends(trace, next)
    ensures stop ==> Finished(next, err, |all|)
    ensures !stop ==> Tracking(graph, blocked.done, applying.applied, waiting.tracked, next, all)
    ensures !stop ==> waiting.tracked < old(waiting.tracked)
    ensures old(waiting.tracked) == {} ==> stop && next == trace + [Settled(|applying.applied|)]
  {
    if waiting.IsEmpty() {
      err, next := Settle(graph, blocked, applying, expected, trace);
      return true, err, next;
    }
    err, next := WaitAndUnblock(graph, blocked, applying, waiting, trace, all);
    stop := err.Some?;
  }

  /**
   * One pass of Apply's loop: apply what is unblocked, and either stop (an
   * error, or nothing left to wait for) or wait and unblock what is done.
   */
  method Round(graph: ChangeGraph, blocked: BlockedChanges, applying: ApplyingChanges, waiting: WaitingChanges,
               expected: nat, ghost trace: seq<Event>, ghost all: seq<nat>)
    returns (stop: bool, err: Option<string>, ghost next: seq<Event>)
    requires blocked.graph == graph && Tracking(graph, blocked.done, applying.applied, waiting.tracked, trace, all)
    requires all == graph.All() && expected == |all|
    modifies blocked`done, applying`applied, waiting`tracked
    ensures RunOK(graph, next)
    ensures Extends(trace, next)
    ensures stop ==> Finished(next, err, |all|)
    ensures !stop ==> Tracking(graph, blocked.done, applying.applied, waiting.tracked, next, all)
    ensures !stop ==> Elements(all) - applying.applied < old(Elements(all) - applying.applied) ||
                      (applying.applied == old(applying.applied) && waiting.tracked < old(waiting.tracked))
    ensures trace == [] && all == [] ==> stop && err.None? && next == [ApplyCall([], [], None), Settled(0)]
  {
    var appliedNow;
    ghost var applied;
    appliedNow, err, applied := ApplyUnblocked(graph, blocked, applying, waiting, trace, all);
    if err.Some? {
      return true, err, applied;
    }
    stop, err, next := SettleOrWait(graph, blocked, applying, waiting, expected, applied, all);
    ExtendsTransitive(trace, applied, next);
  }

  /**
   * Apply. Returns the error, and the calls it made on its collaborators with
   * their answers: every call obeys the rules of ApplyTrace, only the last one
   * ends the run, and the error is the one that call determines.
   */
  method Apply(graph: ChangeGraph) returns (err: Option<string>, ghost trace: seq<Event>)
    requires graph.Valid()
    ensures RunOK(graph, trace) && EndsOnlyAtLast(trace)
    ensures err == Verdict(trace[|trace| - 1], |graph.All()|)
    ensures err.None? <==> trace[|trace| - 1].Settled?
    ensures err.Some? ==> err == trace[|trace| - 1].failure
    ensures |graph.All()| == 0 ==> err.None?
    ensures |graph.All()| == 0 ==> trace == [ApplyCall([], [], None), Settled(0)]
  {
    var all := graph.All();
    var expected := |all|;
    var blocked := new BlockedChanges(graph);
    var applying := new ApplyingChanges(expected);
    var waiting := new WaitingChanges(expected);
    trace := [];
    while true
      invariant blocked.graph == graph && all == graph.All()
      invariant Tracking(graph, blocked.done, applying.applied, waiting.tracked, trace, all)
      invariant expected == 0 ==> trace == []
      decreases Elements(all) - applying.applied, waiting.tracked
    {
      var stop;
      stop, err, trace := Round(graph, blocked, applying, waiting, expected, trace, all);
      if stop {
        ApplyFailsOnlyByTrackers(graph, trace, err);
        return;
      }
    }
  }

  /**
   * Apply never reports an internal inconsistency: its error is the failure a
   * tracker answered with, and a run that settles succeeds.
   */
  lemma ApplyFailsOnlyByTrackers(g: ChangeGraph, t: seq<Event>, err: Option<string>)
    requires g.Valid() && RunOK(g, t) && Finished(t, err, |g.All()|)
    ensures err == if t[|t| - 1].Settled? then None else t[|t| - 1].failure
    ensures err.None? <==> t[|t| - 1].Settled?
  {
    if t[|t| - 1].Settled? {
      SettledRunIsComplete(g, t);
    }
  }

  // ---------------------------------------------------------------------------
  // ClusterChangesCount and ClusterChangesAsChangeViews

  /** How many changes `counted` accepts. */
  function CountWhere(cs: seq<ClusterChange>, counted: ClusterChange -> bool): nat
    decreases |cs|
  {
    if cs == [] then 0 else CountWhere(cs[..|cs| - 1], counted) + (if counted(cs[|cs| - 1]) then 1 else 0)
  }

  method ClusterChangesCount(changes: seq<ClusterChange>, counted: ClusterChange -> bool) returns (r: nat)
    ensures r == CountWhere(changes, counted)
    ensures r <= |changes|
  {
    r := 0;
    for k := 0 to |changes|
      invariant r == CountWhere(changes[..k], counted) && r <= k
    {
      assert changes[..k + 1][..k] == changes[..k];
      if counted(changes[k]) {
        r := r + 1;
      }
    }
    assert changes[..|changes|] == changes;
  }

  /** Counting over a concatenation adds up. */
  lemma {:induction false} CountWhereAppend(a: seq<ClusterChange>, b: seq<ClusterChange>, counted: ClusterChange -> bool)
    ensures CountWhere(a + b, counted) == CountWhere(a, counted) + CountWhere(b, counted)
    decreases |b|
  {
    if b != [] {
      var b' := b[..|b| - 1];
      assert (a + b)[..|a + b| - 1] == a + b';
      CountWhereAppend(a, b', counted);
    } else {
      assert a + b == a;
    }
  }

  /** Every change is counted by exactly one of a predicate and its negation. */
  lemma {:induction false} CountWhereComplement(cs: seq<ClusterChange>, counted: ClusterChange -> bool)
    ensures CountWhere(cs, counted) + CountWhere(cs, (c: ClusterChange) => !counted(c)) == |cs|
    decreases |cs|
  {
    if cs != [] {
      CountWhereComplement(cs[..|cs| - 1], counted);
    }
  }

  /** A cluster change as the changes view shows it. */
  function AsView(c: ClusterChange): ChangeView {
    ChangeView(c.applyOp, c.WaitOp())
  }

  function AsViews(cs: seq<ClusterChange>): (r: seq<ChangeView>)
    ensures |r| == |cs|
    decreases |cs|
  {
    if cs == [] then [] else AsViews(cs[..|cs| - 1]) + [AsView(cs[|cs| - 1])]
  }

  method ClusterChangesAsChangeViews(changes: seq<ClusterChange>) returns (views: seq<ChangeView>)
    ensures |views| == |changes|
    ensures views == AsViews(changes)
    ensures forall k :: 0 <= k < |changes| ==>
              views[k].applyOp == changes[k].applyOp && views[k].waitOp == changes[k].WaitOp()
  {
    views := [];
    for k := 0 to |changes|
      invariant views == AsViews(changes[..k])
    {
      assert changes[..k + 1][..k] == changes[..k];
      views := views + [AsView(changes[k])];
    }
    assert changes[..|changes|] == changes;
    AsViewsAt(changes);
  }

  lemma {:induction false} AsViewsAt(cs: seq<ClusterChange>)
    ensures forall k :: 0 <= k < |cs| ==> AsViews(cs)[k] == AsView(cs[k])
    decreases |cs|
  {
    if cs != [] {
      AsViewsAt(cs[..|cs| - 1]);
    }
  }

  /** The changes view's per-op counts are the counts ClusterChangesCount gives. */
  lemma {:induction false} ViewCountsAgree(cs: seq<ClusterChange>, op: ApplyOp)
    ensures ChangesView.CountApply(AsViews(cs), op) == CountWhere(cs, (c: ClusterChange) => c.applyOp == op)
    ensures ChangesView.CountWaiting(AsViews(cs)) == CountWhere(cs, (c: ClusterChange) => c.WaitOp() != Ops.WaitOp.Noop)
    decreases |cs|
  {
    if cs != [] {
      var init := cs[..|cs| - 1];
      ViewCountsAgree(init, op);
      assert AsViews(cs)[..|cs| - 1] == AsViews(init);
    }
  }

  // ---------------------------------------------------------------------------
  // A scenario

  /**
   * A waits for B, B waits for C; B neither applies nor waits, C is updated and
   * reconciled. B is marked (its wait op becomes reconcile), so it is not
   * pruned, and A is marked as well.
   */
  lemma ChainMarksMiddle()
    ensures var deps, rank := [[1], [2], []], [2, 1, 0];
            var cs := [ClusterChange(ApplyOp.Add, Ops.WaitOp.Noop, false),
                       ClusterChange(ApplyOp.Noop, Ops.WaitOp.Noop, false),
                       ClusterChange(ApplyOp.Update, Ops.WaitOp.OK, false)];
            Ranked(deps, rank) &&
            var after := AfterMarking(deps, rank, cs);
            after[1].WaitOp() == Ops.WaitOp.OK && !IsInert(after[1]) && after[0].needsWaiting
  {
    var deps, rank := [[1], [2], []], [2, 1, 0];
    var cs := [ClusterChange(ApplyOp.Add, Ops.WaitOp.Noop, false),
               ClusterChange(ApplyOp.Noop, Ops.WaitOp.Noop, false),
               ClusterChange(ApplyOp.Update, Ops.WaitOp.OK, false)];
    assert Ranked(deps, rank);
    assert NeedsWaiting(deps, rank, cs, 2);
    assert deps[1][0] == 2;
    assert DependencyNeedsWaiting(deps, rank, cs, 1);
    assert deps[0][0] == 1;
    assert DependencyNeedsWaiting(deps, rank, cs, 0);
  }
}
