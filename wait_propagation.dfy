/**
 * The specification of the wait-propagation pass (markChangesToWait) over a
 * ranked WaitingFor relation, and what the pass achieves: after it, a node
 * reports a non-Noop wait op exactly when some node reachable from it along
 * WaitingFor edges (itself included) had one.
 */
module WaitPropagation {
  import opened Ops
  import opened ClusterChanges
  import opened ChangeGraphs

  /** markChangesToWait's answer: the node's own wait op is not Noop, or a dependency needs waiting. */
  ghost predicate NeedsWaiting(deps: seq<seq<nat>>, rank: seq<nat>, cs: seq<ClusterChange>, i: nat)
    requires Ranked(deps, rank) && |cs| == |deps| && i < |deps|
    decreases rank[i], 1
  {
    cs[i].WaitOp() != Ops.WaitOp.Noop || DependencyNeedsWaiting(deps, rank, cs, i)
  }

  /** Some WaitingFor target of node i needs waiting: the condition under which i gets marked. */
  ghost predicate DependencyNeedsWaiting(deps: seq<seq<nat>>, rank: seq<nat>, cs: seq<ClusterChange>, i: nat)
    requires Ranked(deps, rank) && |cs| == |deps| && i < |deps|
    decreases rank[i], 0
  {
    exists k :: 0 <= k < |deps[i]| && NeedsWaiting(deps, rank, cs, deps[i][k])
  }

  /** A walk along WaitingFor edges. */
  ghost predicate IsPath(deps: seq<seq<nat>>, p: seq<nat>) {
    && |p| >= 1
    && (forall m :: 0 <= m < |p| ==> p[m] < |deps|)
    && forall m :: 0 <= m < |p| - 1 ==> p[m + 1] in deps[p[m]]
  }

  /** Reference definition: some node reachable from i, i included, has a non-Noop wait op. */
  ghost predicate ReachesWaiter(deps: seq<seq<nat>>, cs: seq<ClusterChange>, i: nat)
    requires |cs| == |deps|
  {
    exists p :: IsPath(deps, p) && p[0] == i && cs[p[|p| - 1]].WaitOp() != Ops.WaitOp.Noop
  }

  lemma {:induction false} NeedsWaitingHasPath(deps: seq<seq<nat>>, rank: seq<nat>, cs: seq<ClusterChange>, i: nat)
    requires Ranked(deps, rank) && |cs| == |deps| && i < |deps|
    requires NeedsWaiting(deps, rank, cs, i)
    ensures ReachesWaiter(deps, cs, i)
    decreases rank[i]
  {
    if cs[i].WaitOp() != Ops.WaitOp.Noop {
      assert IsPath(deps, [i]);
    } else {
      var k :| 0 <= k < |deps[i]| && NeedsWaiting(deps, rank, cs, deps[i][k]);
      var d := deps[i][k];
      NeedsWaitingHasPath(deps, rank, cs, d);
      var q :| IsPath(deps, q) && q[0] == d && cs[q[|q| - 1]].WaitOp() != Ops.WaitOp.Noop;
      var p := [i] + q;
      assert p[1] == d;
      assert IsPath(deps, p);
    }
  }

  /** Needing to wait spreads backwards along any path. */
  lemma {:induction false} PathNeedsWaiting(deps: seq<seq<nat>>, rank: seq<nat>, cs: seq<ClusterChange>, p: seq<nat>)
    requires Ranked(deps, rank) && |cs| == |deps| && IsPath(deps, p)
    requires NeedsWaiting(deps, rank, cs, p[|p| - 1])
    ensures NeedsWaiting(deps, rank, cs, p[0])
    decreases |p|
  {
    if |p| > 1 {
      var q := p[1..];
      assert IsPath(deps, q) by {
        forall m | 0 <= m < |q| - 1 ensures q[m + 1] in deps[q[m]] {
          assert q[m] == p[m + 1] && q[m + 1] == p[m + 2];
        }
      }
      PathNeedsWaiting(deps, rank, cs, q);
      var k :| 0 <= k < |deps[p[0]]| && deps[p[0]][k] == p[1];
      assert DependencyNeedsWaiting(deps, rank, cs, p[0]);
    }
  }

  /** The recursive definition and the reachability definition agree. */
  lemma NeedsWaitingIffReachesWaiter(deps: seq<seq<nat>>, rank: seq<nat>, cs: seq<ClusterChange>, i: nat)
    requires Ranked(deps, rank) && |cs| == |deps| && i < |deps|
    ensures NeedsWaiting(deps, rank, cs, i) <==> ReachesWaiter(deps, cs, i)
  {
    if NeedsWaiting(deps, rank, cs, i) {
      NeedsWaitingHasPath(deps, rank, cs, i);
    }
    if ReachesWaiter(deps, cs, i) {
      var p :| IsPath(deps, p) && p[0] == i && cs[p[|p| - 1]].WaitOp() != Ops.WaitOp.Noop;
      PathNeedsWaiting(deps, rank, cs, p);
    }
  }

  /**
   * `after` arises from `before` by marks the pass is allowed to set: each node is
   * unchanged or marked, and only nodes with a dependency that needs waiting are marked.
   */
  ghost predicate MarkedFrom(deps: seq<seq<nat>>, rank: seq<nat>, before: seq<ClusterChange>, after: seq<ClusterChange>)
    requires Ranked(deps, rank) && |before| == |deps|
  {
    && |after| == |before|
    && forall j :: 0 <= j < |before| ==>
         after[j] == before[j] ||
         (after[j] == before[j].MarkNeedsWaiting() && DependencyNeedsWaiting(deps, rank, before, j))
  }

  /** Allowed marks do not change which nodes need waiting. */
  lemma {:induction false} NeedsWaitingStable(deps: seq<seq<nat>>, rank: seq<nat>, before: seq<ClusterChange>,
                                              after: seq<ClusterChange>, i: nat)
    requires Ranked(deps, rank) && |before| == |deps| && i < |deps|
    requires MarkedFrom(deps, rank, before, after)
    ensures NeedsWaiting(deps, rank, after, i) == NeedsWaiting(deps, rank, before, i)
    ensures DependencyNeedsWaiting(deps, rank, after, i) == DependencyNeedsWaiting(deps, rank, before, i)
    decreases rank[i]
  {
    forall k | 0 <= k < |deps[i]|
      ensures NeedsWaiting(deps, rank, after, deps[i][k]) == NeedsWaiting(deps, rank, before, deps[i][k])
    {
      NeedsWaitingStable(deps, rank, before, after, deps[i][k]);
    }
  }

  lemma MarkedFromReflexive(deps: seq<seq<nat>>, rank: seq<nat>, cs: seq<ClusterChange>)
    requires Ranked(deps, rank) && |cs| == |deps|
    ensures MarkedFrom(deps, rank, cs, cs)
  {
  }

  lemma MarkedFromTransitive(deps: seq<seq<nat>>, rank: seq<nat>, a: seq<ClusterChange>,
                             b: seq<ClusterChange>, c: seq<ClusterChange>)
    requires Ranked(deps, rank) && |a| == |deps|
    requires MarkedFrom(deps, rank, a, b) && MarkedFrom(deps, rank, b, c)
    ensures MarkedFrom(deps, rank, a, c)
  {
    forall j | 0 <= j < |a|
      ensures c[j] == a[j] || (c[j] == a[j].MarkNeedsWaiting() && DependencyNeedsWaiting(deps, rank, a, j))
    {
      NeedsWaitingStable(deps, rank, a, b, j);
      MarkIdempotent(a[j]);
    }
  }

  /** The state after the pass over every node: exactly the nodes with a dependency that needs waiting are marked. */
  ghost function AfterMarking(deps: seq<seq<nat>>, rank: seq<nat>, cs: seq<ClusterChange>): (r: seq<ClusterChange>)
    requires Ranked(deps, rank) && |cs| == |deps|
    ensures |r| == |cs|
    ensures forall j :: 0 <= j < |cs| ==> r[j].applyOp == cs[j].applyOp
    ensures forall j :: 0 <= j < |cs| && cs[j].WaitOp() != Ops.WaitOp.Noop ==> r[j].WaitOp() == cs[j].WaitOp()
    ensures forall j :: 0 <= j < |cs| && cs[j].needsWaiting ==> r[j].needsWaiting
  {
    seq(|cs|, j requires 0 <= j < |cs| =>
      if DependencyNeedsWaiting(deps, rank, cs, j) then cs[j].MarkNeedsWaiting() else cs[j])
  }

  lemma AfterMarkingIsMarkedFrom(deps: seq<seq<nat>>, rank: seq<nat>, cs: seq<ClusterChange>)
    requires Ranked(deps, rank) && |cs| == |deps|
    ensures MarkedFrom(deps, rank, cs, AfterMarking(deps, rank, cs))
  {
  }

  /**
   * After the pass, a node's wait op is non-Noop exactly when it, or a node
   * reachable from it along WaitingFor, had a non-Noop wait op before.
   */
  lemma MarkingExposesWaiters(deps: seq<seq<nat>>, rank: seq<nat>, cs: seq<ClusterChange>, j: nat)
    requires Ranked(deps, rank) && |cs| == |deps| && j < |deps|
    ensures AfterMarking(deps, rank, cs)[j].WaitOp() != Ops.WaitOp.Noop <==> ReachesWaiter(deps, cs, j)
  {
    NeedsWaitingIffReachesWaiter(deps, rank, cs, j);
  }

  /** Every node that transitively depends on a node needing waiting is marked, however deep. */
  lemma DependentsOfWaitersAreMarked(deps: seq<seq<nat>>, rank: seq<nat>, cs: seq<ClusterChange>, p: seq<nat>)
    requires Ranked(deps, rank) && |cs| == |deps| && IsPath(deps, p) && |p| >= 2
    requires NeedsWaiting(deps, rank, cs, p[|p| - 1])
    ensures AfterMarking(deps, rank, cs)[p[0]].needsWaiting
  {
    var q := p[1..];
    assert IsPath(deps, q) by {
      forall m | 0 <= m < |q| - 1 ensures q[m + 1] in deps[q[m]] {
        assert q[m] == p[m + 1] && q[m + 1] == p[m + 2];
      }
    }
    PathNeedsWaiting(deps, rank, cs, q);
    var k :| 0 <= k < |deps[p[0]]| && deps[p[0]][k] == p[1];
    assert DependencyNeedsWaiting(deps, rank, cs, p[0]);
  }

  /** Running the pass a second time changes nothing. */
  lemma MarkingIdempotent(deps: seq<seq<nat>>, rank: seq<nat>, cs: seq<ClusterChange>)
    requires Ranked(deps, rank) && |cs| == |deps|
    ensures AfterMarking(deps, rank, AfterMarking(deps, rank, cs)) == AfterMarking(deps, rank, cs)
  {
    var once := AfterMarking(deps, rank, cs);
    AfterMarkingIsMarkedFrom(deps, rank, cs);
    forall j | 0 <= j < |cs| ensures AfterMarking(deps, rank, once)[j] == once[j] {
      NeedsWaitingStable(deps, rank, cs, once, j);
      MarkIdempotent(cs[j]);
    }
  }
}
