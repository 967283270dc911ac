/**
 * The applying and waiting trackers the change set hands nodes to. Their
 * cluster calls, goroutines and polling are not modelled: each answer the
 * cluster could give (accept or reject an apply, a node finished or not, a
 * failure or timeout) is an arbitrary choice, and the contracts hold for all of them.
 */
module Trackers {
  import opened Wrappers
  import opened Collections

  /** The entries among the first k of s that are not in seen, each once, in the order they first occur. */
  function NewEntries(s: seq<nat>, k: nat, seen: set<nat>): (r: seq<nat>)
    requires k <= |s|
    ensures |r| <= k
    decreases k
  {
    if k == 0 then []
    else
      var r := NewEntries(s, k - 1, seen);
      if s[k - 1] in seen || s[k - 1] in r then r else r + [s[k - 1]]
  }

  /** NewEntries lists exactly the unseen entries among the first k, without repeats. */
  lemma {:induction false} NewEntriesSpec(s: seq<nat>, k: nat, seen: set<nat>)
    requires k <= |s|
    ensures forall i :: i in NewEntries(s, k, seen) <==> i in s[..k] && i !in seen
    ensures forall i :: i in NewEntries(s, k, seen) ==> i in s
    ensures Distinct(NewEntries(s, k, seen))
    decreases k
  {
    if k > 0 {
      NewEntriesSpec(s, k - 1, seen);
      var r, x := NewEntries(s, k - 1, seen), s[k - 1];
      assert s[..k] == s[..k - 1] + [x];
      if !(x in seen || x in r) {
        assert (r + [x])[..|r|] == r;
      }
    }
  }

  class ApplyingChanges {
    const numTotal: nat
    /** The nodes applied so far. */
    var applied: set<nat>

    /** NewApplyingChanges */
    constructor (numTotal: nat)
      ensures this.numTotal == numTotal && applied == {}
    {
      this.numTotal := numTotal;
      applied := {};
    }

    /** The number of distinct nodes applied so far. */
    function NumApplied(): (n: nat)
      reads this
      ensures n == 0 <==> applied == {}
      ensures forall i :: i in applied ==> n >= 1
    {
      |applied|
    }

    /**
     * Applies the given nodes that were not applied before. A rejected apply is
     * returned at once as the error; nodes applied before it stay applied.
     */
    method Apply(nodes: seq<nat>) returns (appliedNow: seq<nat>, err: Option<string>)
      modifies this`applied
      ensures err.None? ==> appliedNow == NewEntries(nodes, |nodes|, old(applied))
      ensures err.None? ==> forall i :: i in appliedNow <==> i in nodes && i !in old(applied)
      ensures err.None? ==> Distinct(appliedNow) && applied == old(applied) + Elements(appliedNow)
      ensures err.None? && appliedNow == [] ==> applied == old(applied)
      ensures |appliedNow| <= |nodes|
      ensures err.Some? ==> appliedNow == []
      ensures err.Some? ==> old(applied) <= applied && forall i :: i in applied - old(applied) ==> i in nodes
      ensures err.Some? ==> exists i :: i in nodes && i !in old(applied)
    {
      appliedNow := [];
      for k := 0 to |nodes|
        invariant appliedNow == NewEntries(nodes, k, old(applied))
        invariant applied == old(applied) + Elements(appliedNow)
      {
        var node := nodes[k];
        if node !in applied {
          var accepted: bool := *;
          if !accepted {
            NewEntriesSpec(nodes, k, old(applied));
            var reason: string := *;
            return [], Some(reason);
          }
          applied := applied + {node};
          appliedNow := appliedNow + [node];
        }
      }
      NewEntriesSpec(nodes, |nodes|, old(applied));
      assert nodes[..|nodes|] == nodes;
      assert appliedNow == [] ==> Elements(appliedNow) == {};
      err := None;
    }
  }

  class WaitingChanges {
    const numTotal: nat
    /** The applied nodes not yet reported done. */
    var tracked: set<nat>

    /** NewWaitingChanges */
    constructor (numTotal: nat)
      ensures this.numTotal == numTotal && tracked == {}
    {
      this.numTotal := numTotal;
      tracked := {};
    }

    method Track(nodes: seq<nat>)
      modifies this`tracked
      ensures tracked == old(tracked) + Elements(nodes)
      ensures nodes == [] ==> tracked == old(tracked)
    {
      tracked := tracked + Elements(nodes);
    }

    /** Whether every applied node has been reported done. */
    function IsEmpty(): (r: bool)
      reads this
      ensures !r <==> exists i :: i in tracked
    {
      tracked == {}
    }

    /**
     * Waits until at least one tracked node is done and reports those, or fails
     * (a node reached a failed state, or the wait timed out with nothing done).
     */
    method WaitForAny() returns (doneNow: seq<nat>, err: Option<string>)
      modifies this`tracked
      ensures err.None? ==> doneNow != [] && Distinct(doneNow)
      ensures err.None? ==> Elements(doneNow) <= old(tracked) && tracked == old(tracked) - Elements(doneNow)
      ensures err.Some? ==> doneNow == [] && tracked == old(tracked)
    {
      var pending := tracked;
      doneNow := [];
      while pending != {}
        invariant pending <= tracked
        invariant Elements(doneNow) <= tracked - pending
        invariant Distinct(doneNow)
        decreases pending
      {
        var node :| node in pending;
        pending := pending - {node};
        var finished: bool := *;
        if finished {
          assert (doneNow + [node])[..|doneNow|] == doneNow;
          doneNow := doneNow + [node];
        }
      }
      var failed: bool := *;
      if failed || doneNow == [] {
        var reason: string := *;
        return [], Some(reason);
      }
      tracked := tracked - Elements(doneNow);
      err := None;
    }
  }
}
