/**
 * The change graph and its blocked/unblocked partition, the collaborators the
 * change set drives. Their internals are not part of this model; what is here
 * is the behaviour the change set relies on.
 *
 * Nodes are indices into an arena. Acyclicity is witnessed by a rank: every
 * dependency of a node has a strictly smaller rank. RemoveMatching keeps
 * removed nodes in the arena, flagged absent; the reconnected edges are the
 * derived relation DependsOn, which looks through removed nodes.
 */
module ChangeGraphs {
  import opened ClusterChanges
  import opened Collections

  /** Every WaitingFor entry names a node of lower rank. */
  ghost predicate Ranked(waitingFor: seq<seq<nat>>, rank: seq<nat>) {
    && |rank| == |waitingFor|
    && forall i, k :: 0 <= i < |waitingFor| && 0 <= k < |waitingFor[i]| ==>
         waitingFor[i][k] < |waitingFor| && rank[waitingFor[i][k]] < rank[i]
  }

  /** The present nodes at or after index `from`, in arena order. */
  function PresentFrom(present: seq<bool>, from: nat): (r: seq<nat>)
    requires from <= |present|
    ensures forall j :: j in r <==> from <= j < |present| && present[j]
    ensures forall a :: 0 <= a < |r| ==> from <= r[a] < |present|
    decreases |present| - from
  {
    if from == |present| then []
    else if present[from] then [from] + PresentFrom(present, from + 1)
    else PresentFrom(present, from + 1)
  }

  /** PresentFrom lists its nodes in increasing order. */
  lemma {:induction false} PresentFromIncreasing(present: seq<bool>, from: nat)
    requires from <= |present|
    ensures forall a, b :: 0 <= a < b < |PresentFrom(present, from)| ==>
              PresentFrom(present, from)[a] < PresentFrom(present, from)[b]
    decreases |present| - from
  {
    if from < |present| {
      PresentFromIncreasing(present, from + 1);
      var rest := PresentFrom(present, from + 1);
      if present[from] {
        var r := PresentFrom(present, from);
        assert r == [from] + rest;
        forall a, b | 0 <= a < b < |r| ensures r[a] < r[b] {
          if a == 0 {
            assert r[b] == rest[b - 1];
          } else {
            assert r[a] == rest[a - 1] && r[b] == rest[b - 1];
          }
        }
      }
    }
  }

  class ChangeGraph {
    /** WaitingFor edges as built, by node index. */
    const waitingFor: seq<seq<nat>>
    ghost const rank: seq<nat>
    /** The cluster change of each node. */
    var changes: seq<ClusterChange>
    /** Whether each node is still in the graph (false once removed). */
    var present: seq<bool>

    ghost predicate Valid()
      reads this
    {
      && Ranked(waitingFor, rank)
      && |changes| == |waitingFor|
      && |present| == |waitingFor|
    }

    /** The graph as NewChangeGraph returns it: every node present. */
    constructor (changes: seq<ClusterChange>, waitingFor: seq<seq<nat>>, ghost rank: seq<nat>)
      requires |changes| == |waitingFor| && Ranked(waitingFor, rank)
      ensures Valid()
      ensures this.changes == changes && this.waitingFor == waitingFor && this.rank == rank
      ensures |present| == |changes| && forall j :: 0 <= j < |present| ==> present[j]
    {
      this.changes := changes;
      this.waitingFor := waitingFor;
      this.rank := rank;
      present := seq(|changes|, _ => true);
    }

    /** All(): the present nodes in arena order, each once. */
    function All(): (r: seq<nat>)
      reads this
      requires Valid()
      ensures forall j :: j in r <==> 0 <= j < |present| && present[j]
      ensures forall a :: 0 <= a < |r| ==> r[a] < |present|
    {
      PresentFrom(present, 0)
    }

    /** All() is in increasing node order, so it lists each node once. */
    lemma AllIncreasing()
      requires Valid()
      ensures forall a, b :: 0 <= a < b < |All()| ==> All()[a] < All()[b]
    {
      PresentFromIncreasing(present, 0);
    }

    /** Removes every present node whose change matches; edges are reconnected through DependsOn. */
    method RemoveMatching(matches: ClusterChange -> bool)
      requires Valid()
      modifies this`present
      ensures Valid()
      ensures |present| == |old(present)|
      ensures forall j :: 0 <= j < |present| ==> present[j] == (old(present[j]) && !matches(changes[j]))
    {
      var was, cs := present, changes;
      present := seq(|was|, j requires 0 <= j < |was| => was[j] && !matches(cs[j]));
    }

    /**
     * The dependencies of node i after removals: a present WaitingFor target,
     * or, through a removed target, that target's own dependencies.
     */
    predicate DependsOn(i: nat, j: nat)
      reads this
      requires Valid() && i < |waitingFor|
      ensures (exists k :: 0 <= k < |waitingFor[i]| && waitingFor[i][k] == j && present[j]) ==> DependsOn(i, j)
      ensures DependsOn(i, j) ==> j < |waitingFor|
      decreases rank[i]
    {
      exists k :: 0 <= k < |waitingFor[i]| &&
        var d := waitingFor[i][k];
        (present[d] && d == j) || (!present[d] && DependsOn(d, j))
    }

    /** Present, and every dependency is in `done`. */
    predicate UnblockedBy(done: set<nat>, i: nat)
      reads this
      requires Valid()
      ensures i < |waitingFor| && present[i] && waitingFor[i] == [] ==> UnblockedBy(done, i)
    {
      && i < |waitingFor| && present[i]
      && forall j :: 0 <= j < |waitingFor| && DependsOn(i, j) ==> j in done
    }

    /** Unblocking more nodes never blocks a node again. */
    lemma UnblockedByMore(done: set<nat>, more: set<nat>, i: nat)
      requires Valid() && done <= more && UnblockedBy(done, i)
      ensures UnblockedBy(more, i)
    {
    }

    /** A dependency is a present node of strictly lower rank. */
    lemma {:induction false} DependsOnLowerRank(i: nat, j: nat)
      requires Valid() && i < |waitingFor| && DependsOn(i, j)
      ensures j < |waitingFor| && present[j] && rank[j] < rank[i]
      decreases rank[i]
    {
      var k :| 0 <= k < |waitingFor[i]| &&
        var d := waitingFor[i][k];
        (present[d] && d == j) || (!present[d] && DependsOn(d, j));
      var d := waitingFor[i][k];
      if !present[d] {
        DependsOnLowerRank(d, j);
      }
    }
  }

  /** The partition of the graph's nodes into blocked and unblocked ones. */
  class BlockedChanges {
    const graph: ChangeGraph
    /** The nodes passed to Unblock so far. */
    var done: set<nat>

    /** NewBlockedChanges */
    constructor (graph: ChangeGraph)
      ensures this.graph == graph && done == {}
    {
      this.graph := graph;
      done := {};
    }

    /** The present nodes all of whose dependencies have been unblocked, in All() order. */
    method Unblocked() returns (r: seq<nat>)
      requires graph.Valid()
      ensures forall i :: i in r <==> graph.UnblockedBy(done, i)
      ensures Increasing(r)
    {
      var all := graph.All();
      graph.AllIncreasing();
      r := [];
      for m := 0 to |all|
        invariant forall i :: i in r <==> exists a :: 0 <= a < m && all[a] == i && graph.UnblockedBy(done, i)
        invariant Increasing(r)
        invariant r != [] ==> exists c :: 0 <= c < m && all[c] == r[|r| - 1]
      {
        if graph.UnblockedBy(done, all[m]) {
          assert (r + [all[m]])[..|r|] == r;
          r := r + [all[m]];
        }
      }
    }

    /** The present nodes that are not unblocked (what WhyBlocked reports on). */
    method Blocked() returns (r: seq<nat>)
      requires graph.Valid()
      ensures forall i :: i in r <==> i in graph.All() && !graph.UnblockedBy(done, i)
    {
      var all := graph.All();
      r := [];
      for m := 0 to |all|
        invariant forall i :: i in r <==> exists a :: 0 <= a < m && all[a] == i && !graph.UnblockedBy(done, i)
      {
        if !graph.UnblockedBy(done, all[m]) {
          r := r + [all[m]];
        }
      }
    }

    /** Records that node i is done, releasing its dependents. */
    method Unblock(i: nat)
      modifies this`done
      ensures done == old(done) + {i}
    {
      done := done + {i};
    }
  }
}
